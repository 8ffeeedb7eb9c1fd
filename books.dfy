/**
  * The book records and the in-memory library that stores them, in insertion
  * order, with first-match removal by title.
  */
module Books {

  import opened Wrappers
  import opened Text

  /** One stored entry. Titles need not be unique. */
  datatype Book = Book(title: string, author: string, year: int)

  /**
    * The text of `Book.__str__` without its colour codes:
    * `Title: <title>, Author: <author>, Year: <year>`.
    */
  function Describe(b: Book): string {
    "Title: " + b.title + ", Author: " + b.author + ", Year: " + IntToString(b.year)
  }

  /** The year can be read back from the last word of a book's description. */
  lemma DescribeShowsYear(b: Book)
    ensures DecimalValue(LastWord(Describe(b))) == Some(b.year)
  {
    var y := IntToString(b.year);
    assert Describe(b) == "Title: " + b.title + ", Author: " + b.author + ", Year:" + " " + y;
    assert forall k :: 0 <= k < |y| ==> y[k] != ' ' by {
      if b.year < 0 {
        assert y == "-" + NatToDigits(-b.year);
        forall k | 1 <= k < |y| ensures y[k] != ' ' {
          assert y[k] == NatToDigits(-b.year)[k - 1];
        }
      }
    }
    LastWordAfterSpace("Title: " + b.title + ", Author: " + b.author + ", Year:", y);
    IntToStringRoundTrip(b.year);
  }

  // ---------------------------------------------------------------------------
  // Specification of first-match removal
  // ---------------------------------------------------------------------------

  /** Some stored book has exactly this title (case-sensitive equality). */
  predicate HasTitle(books: seq<Book>, title: string) {
    exists k :: 0 <= k < |books| && books[k].title == title
  }

  /** `i` is the lowest index holding a book with this title. */
  predicate IsFirstMatch(books: seq<Book>, title: string, i: int) {
    0 <= i < |books| && books[i].title == title
    && forall k :: 0 <= k < i ==> books[k].title != title
  }

  /** The number of stored books with this title. */
  function CountTitle(books: seq<Book>, title: string): nat {
    if books == [] then 0
    else (if books[0].title == title then 1 else 0) + CountTitle(books[1..], title)
  }

  /** `books` without the entry at index `i`, the rest in their original order. */
  function Delete(books: seq<Book>, i: nat): (r: seq<Book>)
    requires i < |books|
    ensures |r| == |books| - 1
    ensures forall k :: 0 <= k < i ==> r[k] == books[k]
    ensures forall k :: i < k < |books| ==> r[k - 1] == books[k]
  {
    books[..i] + books[i + 1..]
  }

  /**
    * Reference definition of removal, by recursion on the list: drop the first
    * book carrying the title and keep everything else.
    */
  function RemoveFirst(books: seq<Book>, title: string): seq<Book> {
    if books == [] then []
    else if books[0].title == title then books[1..]
    else [books[0]] + RemoveFirst(books[1..], title)
  }

  /** The position of the first book with this title. */
  function FirstIndex(books: seq<Book>, title: string): (i: nat)
    requires HasTitle(books, title)
    ensures IsFirstMatch(books, title, i)
  {
    if books[0].title == title then 0
    else
      assert HasTitle(books[1..], title) by {
        var k :| 0 <= k < |books| && books[k].title == title;
        assert books[1..][k - 1] == books[k];
      }
      1 + FirstIndex(books[1..], title)
  }

  /** A miss leaves the list exactly as it was. */
  lemma {:induction false} RemoveFirstMiss(books: seq<Book>, title: string)
    requires !HasTitle(books, title)
    ensures RemoveFirst(books, title) == books
  {
    if books != [] {
      forall k | 0 <= k < |books| - 1 ensures books[1..][k].title != title {
        assert books[1..][k] == books[k + 1];
      }
      RemoveFirstMiss(books[1..], title);
      assert [books[0]] + books[1..] == books;
    }
  }

  /** Deleting below the head keeps the head. */
  lemma DeleteCons(books: seq<Book>, i: nat)
    requires 0 < i < |books|
    ensures Delete(books, i) == [books[0]] + Delete(books[1..], i - 1)
  {
    var l, r := Delete(books, i), [books[0]] + Delete(books[1..], i - 1);
    forall k | 0 <= k < |l| ensures l[k] == r[k] {
      if 0 < k < i {
        assert r[k] == books[1..][k - 1];
      } else if i <= k {
        assert r[k] == books[1..][k];
      }
    }
  }

  /** A hit deletes exactly the lowest-index book with the title. */
  lemma {:induction false} RemoveFirstHit(books: seq<Book>, title: string, i: nat)
    requires IsFirstMatch(books, title, i)
    ensures RemoveFirst(books, title) == Delete(books, i)
  {
    if i > 0 {
      var tail := books[1..];
      assert IsFirstMatch(tail, title, i - 1) by {
        forall k | 0 <= k < i - 1 ensures tail[k].title != title {
          assert tail[k] == books[k + 1];
        }
      }
      RemoveFirstHit(tail, title, i - 1);
      DeleteCons(books, i);
    } else {
      assert books[..0] + books[1..] == books[1..];
    }
  }

  lemma {:induction false} CountTitlePositive(books: seq<Book>, title: string)
    ensures CountTitle(books, title) > 0 <==> HasTitle(books, title)
  {
    if books != [] {
      CountTitlePositive(books[1..], title);
      if HasTitle(books, title) && books[0].title != title {
        var k :| 0 <= k < |books| && books[k].title == title;
        assert books[1..][k - 1].title == title;
      }
      if HasTitle(books[1..], title) {
        var k :| 0 <= k < |books[1..]| && books[1..][k].title == title;
        assert books[k + 1].title == title;
      }
    }
  }

  /** Removal takes away one book with the title and no book with any other title. */
  lemma {:induction false} RemoveFirstCounts(books: seq<Book>, title: string, other: string)
    requires HasTitle(books, title)
    ensures CountTitle(RemoveFirst(books, title), title) == CountTitle(books, title) - 1
    ensures other != title ==> CountTitle(RemoveFirst(books, title), other) == CountTitle(books, other)
  {
    if books[0].title != title {
      assert HasTitle(books[1..], title) by {
        var k :| 0 <= k < |books| && books[k].title == title;
        assert books[1..][k - 1] == books[k];
      }
      RemoveFirstCounts(books[1..], title, other);
      var rest := RemoveFirst(books[1..], title);
      assert ([books[0]] + rest)[1..] == rest;
    }
  }

  /** As a bag, deleting an index loses exactly the entry there. */
  lemma DeleteMultiset(books: seq<Book>, i: nat)
    requires i < |books|
    ensures multiset(Delete(books, i)) + multiset{books[i]} == multiset(books)
  {
    var front, back := books[..i], books[i + 1..];
    assert books == front + [books[i]] + back;
  }

  /** As a bag, the list loses exactly the removed entry and nothing else. */
  lemma RemoveFirstMultiset(books: seq<Book>, title: string)
    requires HasTitle(books, title)
    ensures multiset(RemoveFirst(books, title)) + multiset{books[FirstIndex(books, title)]} == multiset(books)
  {
    var i := FirstIndex(books, title);
    RemoveFirstHit(books, title, i);
    DeleteMultiset(books, i);
  }

  /**
    * Only the earliest duplicate goes: a title held by one book disappears,
    * a title held by several books is still present afterwards.
    */
  lemma DuplicatesSurvive(books: seq<Book>, title: string)
    requires HasTitle(books, title)
    ensures HasTitle(RemoveFirst(books, title), title) <==> CountTitle(books, title) >= 2
  {
    RemoveFirstCounts(books, title, title);
    CountTitlePositive(RemoveFirst(books, title), title);
  }

  /** A book added under a title no other book holds is exactly what removing that title takes away. */
  lemma RemoveFirstAppendNew(books: seq<Book>, b: Book)
    requires !HasTitle(books, b.title)
    ensures RemoveFirst(books + [b], b.title) == books
  {
    RemoveFirstHit(books + [b], b.title, |books|);
    assert (books + [b])[..|books|] == books;
  }

  /** When the title is already held, removal takes the older book and the newly added one stays last. */
  lemma RemoveFirstAppendOld(books: seq<Book>, b: Book, title: string)
    requires HasTitle(books, title)
    ensures RemoveFirst(books + [b], title) == RemoveFirst(books, title) + [b]
  {
    var i := FirstIndex(books, title);
    RemoveFirstHit(books, title, i);
    RemoveFirstHit(books + [b], title, i);
    assert (books + [b])[..i] == books[..i];
    assert (books + [b])[i + 1..] == books[i + 1..] + [b];
  }

  // ---------------------------------------------------------------------------
  // The library object
  // ---------------------------------------------------------------------------

  /** The concrete library: an ordered list of books updated in place. */
  class Library {
    var books: seq<Book>

    constructor ()
      ensures books == []
    {
      books := [];
    }

    /** Appends the book; every earlier book keeps its position. */
    method AddBook(book: Book)
      modifies this
      ensures books == old(books) + [book]
    {
      books := books + [book];
    }

    /**
      * Scans from the front and deletes the first book whose title equals
      * `title`, reporting whether one was found.
      */
    method RemoveBook(title: string) returns (removed: bool)
      modifies this
      ensures removed == HasTitle(old(books), title)
      ensures removed ==> exists i :: IsFirstMatch(old(books), title, i) && books == Delete(old(books), i)
      ensures !removed ==> books == old(books)
      ensures books == RemoveFirst(old(books), title)
    {
      var i := 0;
      while i < |books|
        invariant 0 <= i <= |books|
        invariant books == old(books)
        invariant forall k :: 0 <= k < i ==> books[k].title != title
      {
        if books[i].title == title {
          // `list.remove(book)` deletes the first element identical to `book`;
          // no earlier element is, since none of them carries this title.
          RemoveFirstHit(books, title, i);
          books := Delete(books, i);
          return true;
        }
        i := i + 1;
      }
      RemoveFirstMiss(books, title);
      return false;
    }

    /** The stored books, in insertion order; nothing changes. */
    method ShowBooks() returns (r: seq<Book>)
      ensures r == books
    {
      r := books;
    }
  }
}
