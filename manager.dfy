/**
  * The manager façade: every library operation is paired with the notices the
  * user sees. Console output is modelled as the sequence of notices returned.
  */
module Manager {

  import opened Wrappers
  import opened Books

  /** What a notice says. */
  datatype Message =
    | BookAdded(title: string)
    | BookRemoved(title: string)
    | BookNotFound(title: string)
    | ListingHeader
    | LibraryEmpty
    | YearNotNumber
    | Exiting
    | InvalidCommand

  /** One printed line: an `[INFO]` or `[ERROR]` message, or one book of a listing. */
  datatype Notice =
    | Info(message: Message)
    | Error(message: Message)
    | Item(book: Book)

  /** The title a notice names, if it is one of the per-title notices. */
  function NamedTitle(n: Notice): Option<string> {
    match n
    case Info(BookAdded(t)) => Some(t)
    case Info(BookRemoved(t)) => Some(t)
    case Error(BookNotFound(t)) => Some(t)
    case _ => None
  }

  function MessageText(m: Message): string {
    match m
    case BookAdded(t) => "Book '" + t + "' added successfully!"
    case BookRemoved(t) => "Book '" + t + "' removed successfully!"
    case BookNotFound(t) => "Book '" + t + "' not found."
    case ListingHeader => "Books in the library:"
    case LibraryEmpty => "No books in the library."
    case YearNotNumber => "Year must be a number."
    case Exiting => "Exiting the program."
    case InvalidCommand => "Invalid command. Please try again."
  }

  /** The tag a line starts with. */
  function Prefix(n: Notice): string {
    match n
    case Info(_) => "[INFO] "
    case Error(_) => "[ERROR] "
    case Item(_) => "  - "
  }

  /** What follows the tag. */
  function Body(n: Notice): string {
    match n
    case Info(m) => MessageText(m)
    case Error(m) => MessageText(m)
    case Item(b) => Describe(b)
  }

  /** The printed line without its colour codes. */
  function Render(n: Notice): string {
    Prefix(n) + Body(n)
  }

  /** A line starts with its tag. */
  lemma RenderStartsWithPrefix(n: Notice)
    ensures |Render(n)| >= |Prefix(n)| && Render(n)[..|Prefix(n)|] == Prefix(n)
  {
  }

  /** Any line that starts with the tag of `n` starts with no other tag. */
  lemma TagsDistinct(n: Notice, r: string)
    requires |r| >= |Prefix(n)| && r[..|Prefix(n)|] == Prefix(n)
    ensures n.Info? <==> |r| >= 7 && r[..7] == "[INFO] "
    ensures n.Error? <==> |r| >= 8 && r[..8] == "[ERROR] "
    ensures n.Item? <==> |r| >= 4 && r[..4] == "  - "
  {
    var p := Prefix(n);
    assert r[0] == p[0] && r[1] == p[1];
  }

  /** The kind of a notice can be told from the start of its line. */
  lemma RenderShowsKind(n: Notice)
    ensures n.Info? <==> |Render(n)| >= 7 && Render(n)[..7] == "[INFO] "
    ensures n.Error? <==> |Render(n)| >= 8 && Render(n)[..8] == "[ERROR] "
    ensures n.Item? <==> |Render(n)| >= 4 && Render(n)[..4] == "  - "
  {
    RenderStartsWithPrefix(n);
    TagsDistinct(n, Render(n));
  }

  /** The line printed for a per-title notice ends in this text. */
  function Ending(n: Notice): string
    requires NamedTitle(n).Some?
  {
    match n
    case Info(BookAdded(_)) => "' added successfully!"
    case Info(BookRemoved(_)) => "' removed successfully!"
    case Error(BookNotFound(_)) => "' not found."
  }

  function Opening(n: Notice): string
    requires NamedTitle(n).Some?
  {
    Prefix(n) + "Book '"
  }

  lemma RenderTitled(n: Notice)
    requires NamedTitle(n).Some?
    ensures Render(n) == Opening(n) + NamedTitle(n).value + Ending(n)
  {
    var p, t, e := Prefix(n), NamedTitle(n).value, Ending(n);
    assert Body(n) == "Book '" + t + e by {
      match n
      case Info(BookAdded(_)) =>
      case Info(BookRemoved(_)) =>
      case Error(BookNotFound(_)) =>
    }
    assert p + ("Book '" + t + e) == p + "Book '" + t + e;
  }

  /** Two different endings never end the same line. */
  lemma EndingsDiffer(n1: Notice, n2: Notice, p1: string, p2: string)
    requires NamedTitle(n1).Some? && NamedTitle(n2).Some?
    requires Ending(n1) != Ending(n2)
    ensures p1 + Ending(n1) != p2 + Ending(n2)
  {
    var e1, e2 := Ending(n1), Ending(n2);
    var s1, s2 := p1 + e1, p2 + e2;
    if e1[|e1| - 1] != e2[|e2| - 1] {
      assert s1[|s1| - 1] != s2[|s2| - 1];
    } else {
      // "' added successfully!" against "' removed successfully!"
      assert e1[|e1| - 17] != e2[|e2| - 17];
      assert s1[|s1| - 17] != s2[|s2| - 17];
    }
  }

  /**
    * Per-title notices are told apart by their lines: two of them print the
    * same text exactly when they are the same notice, so the title can be read
    * back from the line.
    */
  lemma TitledNoticesDistinct(n1: Notice, n2: Notice)
    requires NamedTitle(n1).Some? && NamedTitle(n2).Some?
    ensures Render(n1) == Render(n2) <==> n1 == n2
  {
    if Render(n1) == Render(n2) {
      var r := Render(n1);
      var o1, e1, o2, e2 := Opening(n1), Ending(n1), Opening(n2), Ending(n2);
      var t1, t2 := NamedTitle(n1).value, NamedTitle(n2).value;
      RenderTitled(n1);
      RenderTitled(n2);
      assert e1 == e2 by {
        if e1 != e2 {
          EndingsDiffer(n1, n2, o1 + t1, o2 + t2);
        }
      }
      assert o1 == o2 by {
        RenderShowsKind(n1);
        RenderShowsKind(n2);
      }
      assert t1 == t2 by {
        assert t1 == r[|o1|..|r| - |e1|];
        assert t2 == r[|o2|..|r| - |e2|];
      }
    }
  }

  // ---------------------------------------------------------------------------
  // Which notices each operation emits
  // ---------------------------------------------------------------------------

  /** Adding always succeeds and reports the title. */
  function AddedReport(title: string): (r: seq<Notice>)
    ensures |r| == 1 && r[0].Info? && NamedTitle(r[0]) == Some(title)
  {
    [Info(BookAdded(title))]
  }

  /** Removal reports info on success and an error on failure, naming the title either way. */
  function RemovalReport(title: string, removed: bool): (r: seq<Notice>)
    ensures |r| == 1 && (r[0].Info? <==> removed) && (r[0].Error? <==> !removed)
    ensures NamedTitle(r[0]) == Some(title)
  {
    if removed then [Info(BookRemoved(title))] else [Error(BookNotFound(title))]
  }

  /** One listing line per book, in order. */
  function Items(books: seq<Book>): (r: seq<Notice>)
    ensures |r| == |books|
    ensures forall k :: 0 <= k < |books| ==> r[k] == Item(books[k])
  {
    if books == [] then [] else [Item(books[0])] + Items(books[1..])
  }

  /** The notices of `show`: a lone "no books" notice, or a header and then one line per book. */
  function Listing(books: seq<Book>): (r: seq<Notice>)
    ensures books == [] ==> r == [Info(LibraryEmpty)]
    ensures books != [] ==> |r| == |books| + 1 && r[0] == Info(ListingHeader)
    ensures forall k :: 0 <= k < |books| ==> r[k + 1] == Item(books[k])
    ensures forall k :: 0 <= k < |r| ==> !r[k].Error?
  {
    if books == [] then [Info(LibraryEmpty)] else [Info(ListingHeader)] + Items(books)
  }

  // ---------------------------------------------------------------------------
  // The manager object
  // ---------------------------------------------------------------------------

  class LibraryManager {
    const library: Library

    constructor (library: Library)
      ensures this.library == library
    {
      this.library := library;
    }

    /** Builds the book, stores it at the end, and reports it. */
    method AddBook(title: string, author: string, year: int) returns (notices: seq<Notice>)
      modifies library
      ensures library.books == old(library.books) + [Book(title, author, year)]
      ensures notices == AddedReport(title)
    {
      var book := Book(title, author, year);
      library.AddBook(book);
      notices := AddedReport(title);
    }

    /** Removes the first book with the title and reports whether it was there. */
    method RemoveBook(title: string) returns (notices: seq<Notice>)
      modifies library
      ensures library.books == RemoveFirst(old(library.books), title)
      ensures notices == RemovalReport(title, HasTitle(old(library.books), title))
    {
      var removed := library.RemoveBook(title);
      notices := RemovalReport(title, removed);
    }

    /** Lists the stored books without changing them. */
    method ShowBooks() returns (notices: seq<Notice>)
      ensures notices == Listing(library.books)
    {
      var books := library.ShowBooks();
      if |books| > 0 {
        notices := [Info(ListingHeader)];
        for i := 0 to |books|
          invariant |notices| == i + 1 && notices[0] == Info(ListingHeader)
          invariant forall k :: 0 <= k < i ==> notices[k + 1] == Item(books[k])
        {
          notices := notices + [Item(books[i])];
        }
        assert notices == Listing(books) by {
          forall k | 0 <= k < |notices| ensures notices[k] == Listing(books)[k] {
            if k > 0 {
              assert notices[(k - 1) + 1] == Item(books[k - 1]);
            }
          }
        }
      } else {
        notices := [Info(LibraryEmpty)];
      }
    }
  }
}
