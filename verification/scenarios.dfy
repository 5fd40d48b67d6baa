/**
 * A client of `BookListScreen` that walks through a list, edit, save,
 * rejected save and delete session using only the handlers' contracts.
 */
module Scenarios {
  import opened Wrappers
  import opened Books
  import opened Auth
  import opened Requests
  import opened BookList

  method DuneScenario(token: string)
  {
    var lookup := Stored(Some(token));
    var dune := Book("1", "Dune", "Herbert", "SciFi", "desert planet");
    var screen := new BookListScreen();

    // Listing replaces the list with the server's single entry; listing again changes nothing.
    var list := screen.FetchBooks(lookup, Replied(Some([dune])));
    assert screen.books == [dune];
    list := screen.FetchBooks(lookup, Replied(Some([dune])));
    assert screen.books == [dune];

    // A failed listing leaves the list alone.
    list := screen.FetchBooks(lookup, Replied(None));
    assert screen.books == [dune];

    // Editing the entry and saving sends a PUT to its URL and replaces it in place.
    screen.EditBook(dune);
    screen.bookTitle := "Dune2";
    var dune2 := Book("1", "Dune2", "Herbert", "SciFi", "desert planet");
    var sent := screen.AddOrUpdateBook(lookup, Replied(Some(dune2)));
    assert Complete(Fields("Dune2", "Herbert", "SciFi", "desert planet"));
    assert sent.Some? && sent.value.verb == Put && TargetOf(sent.value.url) == Item("1");
    assert screen.books == [dune2];
    assert screen.editingBook == None;

    // A form with an empty title sends nothing.
    screen.bookAuthor, screen.bookGenre, screen.bookDescription := "Herbert", "SciFi", "desert planet";
    sent := screen.AddOrUpdateBook(lookup, Replied(Some(dune)));
    assert sent == None && screen.books == [dune2];

    // Deleting without an exception removes the entry, whatever the server said.
    var del := screen.DeleteBook("1", lookup, Replied(()));
    assert del.verb == Delete;
    RemoveByIdCounts([dune2], "1", "1");
    RemoveByIdLength([dune2], "1");
    assert screen.books == [];
  }
}
