/**
 * The HTTP requests the book list screen issues: the books collection
 * endpoint for listing and creating, and `<collection>/<id>` for updating
 * and deleting one book.
 */
module Requests {
  import opened Wrappers
  import opened Books

  /** The books collection endpoint. */
  const BooksUrl: string := "https://backendbooktrack-production.up.railway.app/api/books"

  datatype Verb = Get | Post | Put | Delete

  /** The four form fields, sent as the JSON body of a create or update. */
  datatype Fields = Fields(title: string, author: string, genre: string, description: string)

  /**
   * One request: verb, URL, `Authorization` header value, whether the
   * `Content-Type: application/json` header is sent, and the JSON body.
   */
  datatype Request = Request(verb: Verb, url: string, authorization: string, jsonContentType: bool, body: Option<Fields>)

  /** What a URL addresses: the collection, one book in it, or something else. */
  datatype Target = Collection | Item(id: string) | Elsewhere

  /** Reads a URL back as the collection or as the book whose id follows `BooksUrl/`. */
  function TargetOf(url: string): Target
  {
    if url == BooksUrl then Collection
    else if |url| > |BooksUrl| && url[..|BooksUrl| + 1] == BooksUrl + "/" then Item(url[|BooksUrl| + 1..])
    else Elsewhere
  }

  /** The URL of one book: it addresses exactly that book's id. */
  function ItemUrl(id: string): (u: string)
    ensures TargetOf(u) == Item(id)
  {
    var u := BooksUrl + "/" + id;
    assert u[..|BooksUrl| + 1] == BooksUrl + "/";
    assert u[|BooksUrl| + 1..] == id;
    u
  }

  /** Every field is non-empty; a create or update is only sent then. */
  predicate Complete(f: Fields)
  {
    f.title != "" && f.author != "" && f.genre != "" && f.description != ""
  }

  /** The list request: a GET of the collection carrying only the authorization header. */
  function ListRequest(authorization: string): (r: Request)
    ensures r.verb == Get && TargetOf(r.url) == Collection
    ensures r.authorization == authorization && !r.jsonContentType && r.body == None
  {
    Request(Get, BooksUrl, authorization, false, None)
  }

  /**
   * The save request: with a book being edited, a PUT to that book's URL;
   * otherwise a POST to the collection. Both send the form as JSON.
   */
  function SaveRequest(editing: Option<Book>, authorization: string, form: Fields): (r: Request)
    ensures r.verb == Put <==> editing.Some?
    ensures r.verb == Post <==> editing.None?
    ensures TargetOf(r.url) == if editing.Some? then Item(editing.value.id) else Collection
    ensures r.authorization == authorization && r.jsonContentType && r.body == Some(form)
  {
    match editing
    case Some(book) => Request(Put, ItemUrl(book.id), authorization, true, Some(form))
    case None => Request(Post, BooksUrl, authorization, true, Some(form))
  }

  /** The delete request: a DELETE of the book's URL, with the JSON content type and no body. */
  function DeleteRequest(id: string, authorization: string): (r: Request)
    ensures r.verb == Delete && TargetOf(r.url) == Item(id)
    ensures r.authorization == authorization && r.jsonContentType && r.body == None
  {
    Request(Delete, ItemUrl(id), authorization, true, None)
  }
}
