/**
 * The `Book` record of the book list screen and the pure list transforms
 * its handlers apply to the in-memory list: replace by id after an update,
 * append after a creation, remove by id after a delete.
 */
module Books {

  /** A book as the server returns it; `id` is the server-assigned `_id`. */
  datatype Book = Book(id: string, title: string, author: string, genre: string, description: string)

  /** How many entries of `books` carry the id `id`. */
  function IdCount(books: seq<Book>, id: string): nat
  {
    if books == [] then 0
    else (if books[0].id == id then 1 else 0) + IdCount(books[1..], id)
  }

  /** No two entries share an id. */
  ghost predicate UniqueIds(books: seq<Book>)
  {
    forall id :: IdCount(books, id) <= 1
  }

  /** `a` is `b` with some entries dropped and the rest in their original order. */
  ghost predicate IsSubsequence(a: seq<Book>, b: seq<Book>)
    decreases |b|
  {
    if a == [] then true
    else if b == [] then false
    else (a[0] == b[0] && IsSubsequence(a[1..], b[1..])) || IsSubsequence(a, b[1..])
  }

  lemma {:induction false} IdCountZero(books: seq<Book>, id: string)
    ensures IdCount(books, id) == 0 <==> forall i :: 0 <= i < |books| ==> books[i].id != id
  {
    if books != [] {
      IdCountZero(books[1..], id);
      assert forall i :: 1 <= i < |books| ==> books[i] == books[1..][i - 1];
    }
  }

  // ---------------------------------------------------------------------
  // Replace by id (the update branch)
  // ---------------------------------------------------------------------

  /** Every entry whose id is `saved.id` becomes `saved`; every other entry stays. */
  function ReplaceById(books: seq<Book>, saved: Book): (r: seq<Book>)
    ensures |r| == |books|
  {
    if books == [] then []
    else [if books[0].id == saved.id then saved else books[0]] + ReplaceById(books[1..], saved)
  }

  lemma {:induction false} ReplaceByIdAt(books: seq<Book>, saved: Book, i: nat)
    requires i < |books|
    ensures ReplaceById(books, saved)[i] == if books[i].id == saved.id then saved else books[i]
  {
    if i > 0 {
      ReplaceByIdAt(books[1..], saved, i - 1);
    }
  }

  /** Index by index: matching entries are `saved`, all others are unchanged. */
  lemma {:induction false} ReplaceByIdSpec(books: seq<Book>, saved: Book)
    ensures |ReplaceById(books, saved)| == |books|
    ensures forall i :: 0 <= i < |books| ==>
      ReplaceById(books, saved)[i] == if books[i].id == saved.id then saved else books[i]
  {
    forall i | 0 <= i < |books|
      ensures ReplaceById(books, saved)[i] == if books[i].id == saved.id then saved else books[i]
    {
      ReplaceByIdAt(books, saved, i);
    }
  }

  /** Replacing keeps the id of every position, so every id keeps its count. */
  lemma {:induction false} ReplaceByIdKeepsIds(books: seq<Book>, saved: Book, id: string)
    ensures IdCount(ReplaceById(books, saved), id) == IdCount(books, id)
  {
    if books != [] {
      var r := ReplaceById(books, saved);
      assert r[1..] == ReplaceById(books[1..], saved);
      ReplaceByIdKeepsIds(books[1..], saved, id);
    }
  }

  /** When no entry matches, the list is returned as it was: nothing is appended. */
  lemma {:induction false} ReplaceByIdNoMatch(books: seq<Book>, saved: Book)
    requires IdCount(books, saved.id) == 0
    ensures ReplaceById(books, saved) == books
  {
    if books != [] {
      ReplaceByIdNoMatch(books[1..], saved);
    }
  }

  /** Replacing by id never introduces a duplicate id. */
  lemma ReplaceByIdKeepsUnique(books: seq<Book>, saved: Book)
    requires UniqueIds(books)
    ensures UniqueIds(ReplaceById(books, saved))
  {
    forall id ensures IdCount(ReplaceById(books, saved), id) <= 1 {
      ReplaceByIdKeepsIds(books, saved, id);
    }
  }

  /**
   * Updating a book that is listed exactly once leaves exactly one entry
   * with that id, and it carries the saved field values.
   */
  lemma UpdateLeavesOneEntry(books: seq<Book>, saved: Book)
    requires IdCount(books, saved.id) == 1
    ensures IdCount(ReplaceById(books, saved), saved.id) == 1
    ensures saved in ReplaceById(books, saved)
    ensures forall b :: b in ReplaceById(books, saved) && b.id == saved.id ==> b == saved
  {
    var r := ReplaceById(books, saved);
    ReplaceByIdKeepsIds(books, saved, saved.id);
    ReplaceByIdSpec(books, saved);
    IdCountZero(books, saved.id);
    var k :| 0 <= k < |books| && books[k].id == saved.id;
    assert r[k] == saved;
  }

  // ---------------------------------------------------------------------
  // Append (the create branch)
  // ---------------------------------------------------------------------

  /** Appending adds one occurrence of the new id and leaves every other count alone. */
  lemma {:induction false} AppendCounts(books: seq<Book>, saved: Book, id: string)
    ensures IdCount(books + [saved], id) == IdCount(books, id) + (if saved.id == id then 1 else 0)
  {
    if books == [] {
      assert [saved][1..] == [];
    } else {
      assert (books + [saved])[1..] == books[1..] + [saved];
      AppendCounts(books[1..], saved, id);
    }
  }

  /** Appending keeps ids unique exactly when the list was unique and lacked the new id. */
  lemma AppendUniqueIff(books: seq<Book>, saved: Book)
    ensures UniqueIds(books + [saved]) <==> UniqueIds(books) && IdCount(books, saved.id) == 0
  {
    if UniqueIds(books + [saved]) {
      AppendCounts(books, saved, saved.id);
      forall id ensures IdCount(books, id) <= 1 {
        AppendCounts(books, saved, id);
      }
    }
    if UniqueIds(books) && IdCount(books, saved.id) == 0 {
      forall id ensures IdCount(books + [saved], id) <= 1 {
        AppendCounts(books, saved, id);
      }
    }
  }

  // ---------------------------------------------------------------------
  // Remove by id (the delete handler)
  // ---------------------------------------------------------------------

  /** Keeps, in order, exactly the entries whose id is not `id`. */
  function RemoveById(books: seq<Book>, id: string): (r: seq<Book>)
    ensures |r| <= |books|
    ensures forall i :: 0 <= i < |r| ==> r[i].id != id
    ensures forall b :: b in r ==> b in books
  {
    if books == [] then []
    else if books[0].id == id then RemoveById(books[1..], id)
    else [books[0]] + RemoveById(books[1..], id)
  }

  /** The id removed is gone; every other id keeps its count. */
  lemma {:induction false} RemoveByIdCounts(books: seq<Book>, id: string, other: string)
    ensures IdCount(RemoveById(books, id), other) == if other == id then 0 else IdCount(books, other)
  {
    if books != [] {
      RemoveByIdCounts(books[1..], id, other);
      if books[0].id != id {
        assert ([books[0]] + RemoveById(books[1..], id))[1..] == RemoveById(books[1..], id);
      }
    }
  }

  /** Exactly the matching entries are dropped. */
  lemma {:induction false} RemoveByIdLength(books: seq<Book>, id: string)
    ensures |RemoveById(books, id)| == |books| - IdCount(books, id)
  {
    if books != [] {
      RemoveByIdLength(books[1..], id);
    }
  }

  /** The entries that remain keep their relative order. */
  lemma {:induction false} RemoveByIdIsSubsequence(books: seq<Book>, id: string)
    ensures IsSubsequence(RemoveById(books, id), books)
  {
    if books != [] {
      RemoveByIdIsSubsequence(books[1..], id);
      var r := RemoveById(books, id);
      if books[0].id != id {
        assert r[0] == books[0] && r[1..] == RemoveById(books[1..], id);
      } else if r != [] {
        assert r == RemoveById(books[1..], id);
      }
    }
  }

  /** Each entry with another id keeps its multiplicity; each entry with the id has none left. */
  lemma {:induction false} RemoveByIdMultiset(books: seq<Book>, id: string, b: Book)
    ensures multiset(RemoveById(books, id))[b] == if b.id == id then 0 else multiset(books)[b]
  {
    if books != [] {
      RemoveByIdMultiset(books[1..], id, b);
      assert books == [books[0]] + books[1..];
      assert multiset(books) == multiset{books[0]} + multiset(books[1..]);
    }
  }

  /** Deleting an id that is not listed leaves the list as it was. */
  lemma {:induction false} RemoveByIdNoMatch(books: seq<Book>, id: string)
    requires IdCount(books, id) == 0
    ensures RemoveById(books, id) == books
  {
    if books != [] {
      RemoveByIdNoMatch(books[1..], id);
      assert books == [books[0]] + books[1..];
    }
  }

  /** Deleting the same id twice is the same as deleting it once. */
  lemma {:induction false} RemoveByIdIdempotent(books: seq<Book>, id: string)
    ensures RemoveById(RemoveById(books, id), id) == RemoveById(books, id)
  {
    RemoveByIdCounts(books, id, id);
    RemoveByIdNoMatch(RemoveById(books, id), id);
  }

  /** Removing by id never introduces a duplicate id. */
  lemma RemoveByIdKeepsUnique(books: seq<Book>, id: string)
    requires UniqueIds(books)
    ensures UniqueIds(RemoveById(books, id))
  {
    forall other ensures IdCount(RemoveById(books, id), other) <= 1 {
      RemoveByIdCounts(books, id, other);
    }
  }

  // ---------------------------------------------------------------------
  // Reconciling a saved book into the list
  // ---------------------------------------------------------------------

  /**
   * The list after a successful save: an update replaces by the returned id,
   * a creation appends the returned book at the end.
   */
  function Reconcile(books: seq<Book>, updating: bool, saved: Book): (r: seq<Book>)
    ensures updating ==> |r| == |books| && IdCount(r, saved.id) == IdCount(books, saved.id)
    ensures updating ==> forall i :: 0 <= i < |books| ==> r[i] == if books[i].id == saved.id then saved else books[i]
    ensures !updating ==> |r| == |books| + 1 && r[..|books|] == books && r[|books|] == saved
    ensures !updating ==> IdCount(r, saved.id) == IdCount(books, saved.id) + 1
  {
    if updating then
      ReplaceByIdKeepsIds(books, saved, saved.id);
      ReplaceByIdSpec(books, saved);
      ReplaceById(books, saved)
    else
      AppendCounts(books, saved, saved.id);
      books + [saved]
  }

  /** A creation keeps ids unique exactly when the returned id was not listed yet. */
  lemma ReconcileKeepsUnique(books: seq<Book>, updating: bool, saved: Book)
    requires UniqueIds(books)
    ensures UniqueIds(Reconcile(books, updating, saved)) <==> updating || IdCount(books, saved.id) == 0
  {
    if updating {
      ReplaceByIdKeepsUnique(books, saved);
    } else {
      AppendUniqueIff(books, saved);
    }
  }
}
