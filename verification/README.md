# Book list screen: a Dafny model

This project models the one piece of logic in the mobile app's book list
screen (`src/screens/BookListScreen.tsx`). The screen keeps an in-memory
list of `Book` records (`_id`, `title`, `author`, `genre`, `description`),
a four-field edit form and an optional `editingBook`. Its handlers keep
that state in step with a remote books collection:

- `getAuthToken` builds the `Authorization` header.
- `fetchBooks` lists the collection.
- `handleAddOrUpdateBook` validates the form, then creates or updates a book.
- `handleDeleteBook` deletes a book.
- `resetForm` clears the form.
- `handleEditBook` loads a book into the form.

Each handler is modelled as one atomic state transition. The outcome of
every outside call is a parameter of the handler:

- reading the stored token is a `TokenLookup`: it threw, or it returned a value or nothing;
- a network call is a `Reply`: `Threw` for a network or JSON error, otherwise `Replied(body)`.

Every handler returns the request it would issue, so that the request
itself (verb, URL, authorization header, content type, body) is part of
what is proved.

Modules:

- `Books`: the `Book` datatype and the pure list transforms.
  - `ReplaceById` is the `map` that replaces by id.
  - The append branch is `books + [saved]`.
  - `RemoveById` is the `filter` used by delete.
  - `Reconcile` merges a saved book into the list.
  - The lemmas prove what each transform does to every id's count, to the order of the entries and to id uniqueness.
- `Auth`: the header value, a reader that turns it back into the token, and a parser for the bearer `credentials` of section 2.1 of RFC 6750.
- `Requests`: the endpoint URL, the request builders, and `TargetOf`, which reads a URL back as the collection or a single book.
- `BookList`: the class `BookListScreen`. Its fields are the screen's state cells and it has one method per handler.
- `Scenarios`: a client that walks through a list, edit, save, rejected save and delete session using only the handlers' contracts.

Points where the code's behaviour is easy to misread:

- An update replaces every entry with the returned id, not just one (`ReplaceById`).
- The code matches the entries against the id in the reply, not against `editingBook._id`.
- An update whose returned id is not in the list leaves the list unchanged and appends nothing; the form is still reset (`ReplaceByIdNoMatch`).
- The code does not enforce one entry per id. Updates and deletes preserve unique ids. A create keeps ids unique only when the returned id was not already listed (`ReconcileKeepsUnique`).

## Model

| member | source | states |
|---|---|---|
| `Auth.AuthHeader` | src/screens/BookListScreen.tsx:28-36 | The header value is empty exactly when no truthy token was read: the lookup threw, returned nothing or returned `''`. |
| `Auth.AuthHeaderRoundTrip` | src/screens/BookListScreen.tsx:28-36 | Stripping `Bearer ` from the header gives back exactly the truthy stored token. It gives back nothing when there is no truthy token. |
| `Auth.AuthHeaderCredentials` | src/screens/BookListScreen.tsx:31 | The empty header is never valid RFC 6750 bearer credentials. The header parses back to exactly the stored token if and only if the token is absent or is a `b64token`. |
| `Requests.ItemUrl` | src/screens/BookListScreen.tsx:68 | The URL `<collection>/<id>` is read back as the book with that id. |
| `Requests.Complete` | src/screens/BookListScreen.tsx:61 | The form passes validation exactly when all four fields are non-empty; `AddOrUpdateBook` sends a request only then. |
| `Requests.ListRequest` | src/screens/BookListScreen.tsx:42-46 | The list request is a GET of the collection. It carries the authorization header, no JSON content type and no body. |
| `Requests.SaveRequest` | src/screens/BookListScreen.tsx:67-84 | The request is a PUT if and only if a book is being edited, and a POST if and only if none is. It targets that book's URL or the collection. It sends the authorization header, the JSON content type and the form. |
| `Requests.DeleteRequest` | src/screens/BookListScreen.tsx:114-120 | The delete request is a DELETE that targets the book's URL. It has the JSON content type and no body. |
| `BookList.SavedBook` | src/screens/BookListScreen.tsx:86-87 | A reply counts as a success if and only if it did not throw and carries `data` with a non-empty `_id`. The saved book is that `data`. |
| `Books.ReplaceById` | src/screens/BookListScreen.tsx:90-94 | Replacing by id keeps the list's length. |
| `Books.ReplaceByIdAt` | src/screens/BookListScreen.tsx:90-94 | At each position the result holds the saved book if that entry's id matched, and the old entry otherwise. |
| `Books.ReplaceByIdSpec` | src/screens/BookListScreen.tsx:90-94 | The same holds for every index at once: every matching entry is replaced, and all other entries and the length are unchanged. |
| `Books.ReplaceByIdKeepsIds` | src/screens/BookListScreen.tsx:90-94 | Every id occurs as many times after the replacement as before it. |
| `Books.ReplaceByIdNoMatch` | src/screens/BookListScreen.tsx:90-94 | If no entry has the returned id, the list is unchanged and nothing is appended. |
| `Books.ReplaceByIdKeepsUnique` | src/screens/BookListScreen.tsx:90-94 | A list with unique ids still has unique ids after the replacement. |
| `Books.UpdateLeavesOneEntry` | src/screens/BookListScreen.tsx:87-94 | If the returned id was listed exactly once, it still is. That entry holds the returned field values. |
| `Books.AppendCounts` | src/screens/BookListScreen.tsx:97 | Appending adds exactly one occurrence of the returned id. Every other id's count is unchanged. |
| `Books.AppendUniqueIff` | src/screens/BookListScreen.tsx:97 | After the append, ids are unique if and only if they were unique before and the new id was not yet listed. |
| `Books.RemoveById` | src/screens/BookListScreen.tsx:121 | After the removal, no entry has the deleted id. Every remaining entry was already in the list, and the list is no longer than before. |
| `Books.RemoveByIdCounts` | src/screens/BookListScreen.tsx:121 | The deleted id occurs zero times. Every other id occurs as often as before. |
| `Books.RemoveByIdLength` | src/screens/BookListScreen.tsx:121 | The length drops by exactly the number of entries that had the deleted id. |
| `Books.RemoveByIdIsSubsequence` | src/screens/BookListScreen.tsx:121 | The result is a subsequence of the old list, so the remaining entries keep their relative order. |
| `Books.RemoveByIdMultiset` | src/screens/BookListScreen.tsx:121 | Each entry with another id keeps its multiplicity. Each entry with the deleted id has none left. |
| `Books.RemoveByIdNoMatch` | src/screens/BookListScreen.tsx:121 | Deleting an id that is not listed leaves the list unchanged. |
| `Books.RemoveByIdIdempotent` | src/screens/BookListScreen.tsx:121 | Removing the same id twice gives the same list as removing it once. |
| `Books.RemoveByIdKeepsUnique` | src/screens/BookListScreen.tsx:121 | A list with unique ids still has unique ids after a removal. |
| `Books.Reconcile` | src/screens/BookListScreen.tsx:88-98 | An update keeps the length and the count of the returned id, and at every position holds the returned book if the ids match and the old entry otherwise. A create grows the list by exactly one, keeps the old entries at their positions and puts the returned book last. |
| `Books.ReconcileKeepsUnique` | src/screens/BookListScreen.tsx:88-98 | Starting from unique ids, the result has unique ids if and only if the save was an update or the returned id was not yet listed. |
| `BookList.BookListScreen.constructor` | src/screens/BookListScreen.tsx:15-20 | The screen starts with no books, an empty form and nothing being edited. |
| `BookList.BookListScreen.FetchBooks` | src/screens/BookListScreen.tsx:39-57 | The handler issues the list request. A reply with `data` replaces the whole list, even an empty one. A reply without `data`, or a call that throws, leaves the list unchanged. The form is never touched. |
| `BookList.BookListScreen.AddOrUpdateBook` | src/screens/BookListScreen.tsx:60-108 | Nothing is sent if and only if a form field is empty, and then nothing changes. Otherwise the handler sends the save request. On a reply with an `_id`, the list is reconciled and the form is reset. On any other reply, or a throw, the list, the form and the edited book are unchanged. |
| `BookList.BookListScreen.DeleteBook` | src/screens/BookListScreen.tsx:111-126 | The handler issues the delete request. Unless the call throws, every entry with that id is removed, whatever the status. A call that throws leaves the list unchanged. The form is never touched. |
| `BookList.BookListScreen.ResetForm` | src/screens/BookListScreen.tsx:129-135 | Nothing is being edited, all four fields are `''`, and the list is unchanged. |
| `BookList.BookListScreen.EditBook` | src/screens/BookListScreen.tsx:138-144 | The given book is being edited and the form holds its four fields. The list is unchanged. |

## Left out

- `fetch`, `AsyncStorage`, `Alert` and `console.error` are I/O and library calls. Their outcomes are handler inputs (`TokenLookup`, `Reply`), and alerts and log lines are not modelled.
- The endpoint URL is kept as a string that the requests address. Nothing is sent to it.
- Overlapping async handlers and the order in which their replies arrive are not modelled, because they are concurrency. Each handler is one atomic step, and the list updates at lines 90-97 and 121 are applied to the list as it is at that step.
- Mounting the screen (the effect at lines 23-25) is a caller that runs `FetchBooks` after the constructor. It is not a separate member.
- The `onChangeText` setters of the four text inputs are plain field assignments, as `Scenarios` shows. They are not methods.
- JSON decoding is not modelled. A listed `data` is taken to be a sequence of books.
  - A truthy `data` that is not an array is not modelled.
  - A reply whose `data` lacks `_id` is modelled as a book whose id is `''`. Both are falsy, and the code treats them alike.
- `Auth.AuthHeaderCredentials`: the parser accepts the scheme name only as `Bearer`. RFC 7235 compares scheme names case-insensitively, and this client only ever writes `Bearer`.
- JSX rendering and the `StyleSheet` objects are UI. `src/screens/ProfileScreen.tsx`, `src/screens/RegisterScreen.tsx` and `src/screens/TabNavigator.tsx` are UI and navigation glue around code that is not part of this model.
