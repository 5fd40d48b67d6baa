/**
 * The book list screen as a state machine. Its state cells (the list of
 * books, the four form fields and the book being edited) are the fields
 * of `BookListScreen`; each handler is one atomic method. The token
 * lookup and the server's reply are inputs of the handler, and each
 * handler returns the request it issued.
 */
module BookList {
  import opened Wrappers
  import opened Books
  import opened Auth
  import opened Requests

  /** How a network call ended: it threw (network or JSON error), or it returned a parsed body. */
  datatype Reply<T> = Threw | Replied(body: T)

  /**
   * The book a create or update reply carries, provided the reply has
   * `data` with a truthy `_id`. A reply whose `data` lacks `_id` is
   * modelled as one whose id is the empty string.
   */
  function SavedBook(reply: Reply<Option<Book>>): (saved: Option<Book>)
    ensures saved.Some? <==> reply.Replied? && reply.body.Some? && reply.body.value.id != ""
    ensures saved.Some? ==> saved.value == reply.body.value
  {
    match reply
    case Replied(Some(book)) => if book.id != "" then Some(book) else None
    case _ => None
  }

  /** The form a book loads into when it is edited. */
  function FieldsOf(book: Book): Fields
  {
    Fields(book.title, book.author, book.genre, book.description)
  }

  class BookListScreen {
    var books: seq<Book>
    var bookTitle: string
    var bookAuthor: string
    var bookGenre: string
    var bookDescription: string
    var editingBook: Option<Book>

    /** The four form fields as one value. */
    function Form(): Fields
      reads this
    {
      Fields(bookTitle, bookAuthor, bookGenre, bookDescription)
    }

    /** The initial state: no books, an empty form, nothing being edited. */
    constructor ()
      ensures books == [] && Form() == Fields("", "", "", "") && editingBook == None
    {
      books := [];
      bookTitle, bookAuthor, bookGenre, bookDescription := "", "", "", "";
      editingBook := None;
    }

    /**
     * Lists the collection. A reply with `data` replaces the whole list
     * (an empty list included); a reply without it, or a call that
     * throws, leaves the list as it was.
     */
    method FetchBooks(lookup: TokenLookup, reply: Reply<Option<seq<Book>>>) returns (request: Request)
      modifies this`books
      ensures request == ListRequest(AuthHeader(lookup))
      ensures books == if reply.Replied? && reply.body.Some? then reply.body.value else old(books)
      ensures Form() == old(Form()) && editingBook == old(editingBook)
    {
      request := ListRequest(AuthHeader(lookup));
      match reply
      case Replied(Some(data)) =>
        books := data;
      case _ =>
    }

    /** Clears the form and stops editing. */
    method ResetForm()
      modifies this`editingBook, this`bookTitle, this`bookAuthor, this`bookGenre, this`bookDescription
      ensures editingBook == None && Form() == Fields("", "", "", "")
      ensures books == old(books)
    {
      editingBook := None;
      bookTitle := "";
      bookAuthor := "";
      bookGenre := "";
      bookDescription := "";
    }

    /** Loads a book into the form and marks it as the one being edited. */
    method EditBook(book: Book)
      modifies this`editingBook, this`bookTitle, this`bookAuthor, this`bookGenre, this`bookDescription
      ensures editingBook == Some(book) && Form() == FieldsOf(book)
      ensures books == old(books)
    {
      editingBook := Some(book);
      bookTitle := book.title;
      bookAuthor := book.author;
      bookGenre := book.genre;
      bookDescription := book.description;
    }

    /**
     * Saves the form. An incomplete form sends nothing and changes
     * nothing. Otherwise the request is a PUT of the edited book or a POST
     * to the collection; when the reply carries a book with an id, the list
     * is reconciled with it and the form is reset, and in every other case
     * the list, the form and the edited book stay as they were.
     */
    method AddOrUpdateBook(lookup: TokenLookup, reply: Reply<Option<Book>>) returns (sent: Option<Request>)
      modifies this
      ensures sent.None? <==> !Complete(old(Form()))
      ensures sent.Some? ==> sent.value == SaveRequest(old(editingBook), AuthHeader(lookup), old(Form()))
      ensures sent.Some? && SavedBook(reply).Some? ==>
        books == Reconcile(old(books), old(editingBook).Some?, SavedBook(reply).value) &&
        editingBook == None && Form() == Fields("", "", "", "")
      ensures sent.None? || SavedBook(reply).None? ==>
        books == old(books) && editingBook == old(editingBook) && Form() == old(Form())
    {
      var form := Form();
      if !Complete(form) {
        return None;
      }
      sent := Some(SaveRequest(editingBook, AuthHeader(lookup), form));
      match SavedBook(reply)
      case Some(saved) =>
        books := Reconcile(books, editingBook.Some?, saved);
        ResetForm();
      case None =>
    }

    /**
     * Deletes a book. Unless the call throws, every entry with that id is
     * removed whatever the server answered; a call that throws leaves the
     * list as it was.
     */
    method DeleteBook(id: string, lookup: TokenLookup, reply: Reply<()>) returns (request: Request)
      modifies this`books
      ensures request == DeleteRequest(id, AuthHeader(lookup))
      ensures books == if reply.Threw? then old(books) else RemoveById(old(books), id)
      ensures Form() == old(Form()) && editingBook == old(editingBook)
    {
      request := DeleteRequest(id, AuthHeader(lookup));
      if reply.Replied? {
        books := RemoveById(books, id);
      }
    }
  }
}
