/**
  * The interactive command loop of the program, with console input replaced by
  * a sequence of already-read requests and console output by returned notices.
  */
module Session {

  import opened Wrappers
  import opened Text
  import opened Books
  import opened Manager

  /** The command vocabulary, after normalisation. */
  datatype Command = AddCommand | RemoveCommand | ShowCommand | ExitCommand | UnknownCommand

  /** The command a normalised word names. */
  function Keyword(word: string): Command {
    if word == "add" then AddCommand
    else if word == "remove" then RemoveCommand
    else if word == "show" then ShowCommand
    else if word == "exit" then ExitCommand
    else UnknownCommand
  }

  /** A command line is trimmed and lower-cased, then matched against the vocabulary. */
  function ParseCommand(line: string): Command {
    Keyword(Lower(Strip(line)))
  }

  /** Surrounding whitespace never changes which command a line names. */
  lemma ParseCommandIgnoresPadding(w1: string, line: string, w2: string)
    requires AllSpace(w1) && AllSpace(w2)
    ensures ParseCommand(w1 + line + w2) == ParseCommand(line)
  {
    var m := Strip(line);
    var v1, v2 := StripSplit(line);
    StripTrimmed(line);
    assert w1 + line + w2 == (w1 + v1) + m + (v2 + w2);
    assert AllSpace(w1 + v1) && AllSpace(v2 + w2);
    StripOfPadded(w1 + v1, m, v2 + w2);
  }

  /** Letter case never changes which command a line names. */
  lemma ParseCommandIgnoresCase(line: string)
    ensures ParseCommand(Lower(line)) == ParseCommand(line)
  {
    StripLowerCommute(line);
    var m := Strip(line);
    assert Lower(Lower(m)) == Lower(m);
    assert Lower(Strip(Lower(line))) == Lower(Strip(line));
  }

  /**
    * One iteration of the loop's input: the command line and the lines read after
    * it. `title`, `author` and `year` are read only by `add`; `remove` reads
    * `title` only; the other commands read nothing more.
    */
  datatype Request = Request(command: string, title: string, author: string, year: string)

  /** The library after one command, the notices printed, and whether the loop ends. */
  datatype Outcome = Outcome(books: seq<Book>, notices: seq<Notice>, done: bool)

  /**
    * One turn of the command loop over the library's contents `books`, once the
    * command line has been recognised as `command`. The conversion of the
    * trimmed year text to an integer is the parameter `parseYear`; `None`
    * stands for the `ValueError` it may raise.
    */
  function Step(books: seq<Book>, command: Command, request: Request, parseYear: string -> Option<int>): Outcome {
    match command
    case AddCommand =>
      var title, author := Strip(request.title), Strip(request.author);
      (match parseYear(Strip(request.year))
       case Some(year) => Outcome(books + [Book(title, author, year)], AddedReport(title), false)
       case None => Outcome(books, [Error(YearNotNumber)], false))
    case RemoveCommand =>
      var title := Strip(request.title);
      Outcome(RemoveFirst(books, title), RemovalReport(title, HasTitle(books, title)), false)
    case ShowCommand => Outcome(books, Listing(books), false)
    case ExitCommand => Outcome(books, [Info(Exiting)], true)
    case UnknownCommand => Outcome(books, [Error(InvalidCommand)], false)
  }

  /** `exit` is the only command that ends the loop. */
  lemma OnlyExitEnds(books: seq<Book>, command: Command, request: Request, parseYear: string -> Option<int>)
    ensures Step(books, command, request, parseYear).done <==> command == ExitCommand
  {
  }

  /**
    * The library changes only through an `add` whose year converts, which
    * appends exactly one book with the trimmed title and author, or through a
    * `remove` whose trimmed title is present, which deletes exactly one book.
    */
  lemma StepChangesLibrary(books: seq<Book>, command: Command, request: Request, parseYear: string -> Option<int>)
    ensures var o := Step(books, command, request, parseYear);
      o.books != books <==>
        (command == AddCommand && parseYear(Strip(request.year)).Some?)
        || (command == RemoveCommand && HasTitle(books, Strip(request.title)))
    ensures var o := Step(books, command, request, parseYear);
      command == AddCommand && parseYear(Strip(request.year)).Some? ==>
        o.books == books + [Book(Strip(request.title), Strip(request.author), parseYear(Strip(request.year)).value)]
    ensures var o := Step(books, command, request, parseYear);
      command == RemoveCommand && HasTitle(books, Strip(request.title)) ==>
        |o.books| == |books| - 1
  {
    var title := Strip(request.title);
    if command == RemoveCommand {
      if HasTitle(books, title) {
        RemoveFirstHit(books, title, FirstIndex(books, title));
      } else {
        RemoveFirstMiss(books, title);
      }
    }
  }

  /**
    * The notices of a turn: an unrecognised command and an unconvertible year
    * each produce exactly one error notice; a turn prints only errors exactly
    * when it failed; every turn prints something.
    */
  lemma StepNotices(books: seq<Book>, command: Command, request: Request, parseYear: string -> Option<int>)
    ensures var o := Step(books, command, request, parseYear);
      command == UnknownCommand ==> o.notices == [Error(InvalidCommand)]
    ensures var o := Step(books, command, request, parseYear);
      command == AddCommand && parseYear(Strip(request.year)).None? ==> o.notices == [Error(YearNotNumber)]
    ensures var o := Step(books, command, request, parseYear);
      (forall k :: 0 <= k < |o.notices| ==> o.notices[k].Error?) <==>
        command == UnknownCommand
        || (command == AddCommand && parseYear(Strip(request.year)).None?)
        || (command == RemoveCommand && !HasTitle(books, Strip(request.title)))
    ensures |Step(books, command, request, parseYear).notices| >= 1
  {
    var o := Step(books, command, request, parseYear);
    match command
    case AddCommand =>
      if parseYear(Strip(request.year)).Some? {
        assert !o.notices[0].Error?;
      }
    case RemoveCommand =>
      if HasTitle(books, Strip(request.title)) {
        assert !o.notices[0].Error?;
      }
    case ShowCommand =>
      assert !o.notices[0].Error?;
    case ExitCommand =>
      assert !o.notices[0].Error?;
    case UnknownCommand =>
  }

  // ---------------------------------------------------------------------------
  // Whole sessions
  // ---------------------------------------------------------------------------

  /** Where a session ends: final contents, all notices, whether `exit` was read, requests consumed. */
  datatype Trace = Trace(books: seq<Book>, notices: seq<Notice>, exited: bool, consumed: nat)

  /** `after`, once `count` earlier requests have already printed `before`. */
  function Resume(before: seq<Notice>, count: nat, after: Trace): Trace {
    Trace(after.books, before + after.notices, after.exited, count + after.consumed)
  }

  /**
    * The shape of the loop, whatever a turn does: apply `turn` to each request
    * in order until one reports that the loop ends or the requests run out.
    */
  function Loop(turn: (seq<Book>, Request) -> Outcome, books: seq<Book>, requests: seq<Request>): Trace
    decreases |requests|
  {
    if requests == [] then Trace(books, [], false, 0)
    else
      var o := turn(books, requests[0]);
      if o.done then Trace(o.books, o.notices, true, 1)
      else Resume(o.notices, 1, Loop(turn, o.books, requests[1..]))
  }

  /** One turn of the program's loop: recognise the command line, then `Step`. */
  function Turn(parseYear: string -> Option<int>): (seq<Book>, Request) -> Outcome {
    (books: seq<Book>, request: Request) => Step(books, ParseCommand(request.command), request, parseYear)
  }

  /** A whole session: turns in order until `exit` or until the requests run out. */
  function Run(books: seq<Book>, requests: seq<Request>, parseYear: string -> Option<int>): Trace {
    Loop(Turn(parseYear), books, requests)
  }

  /** Whether a request's command line names `exit`. */
  predicate IsExit(request: Request) {
    ParseCommand(request.command) == ExitCommand
  }

  lemma RunUnfold(books: seq<Book>, requests: seq<Request>, parseYear: string -> Option<int>)
    requires requests != []
    ensures var o := Step(books, ParseCommand(requests[0].command), requests[0], parseYear);
      Run(books, requests, parseYear)
        == if o.done then Trace(o.books, o.notices, true, 1)
           else Resume(o.notices, 1, Run(o.books, requests[1..], parseYear))
  {
  }

  lemma ResumeTwice(a: seq<Notice>, i: nat, b: seq<Notice>, j: nat, t: Trace)
    ensures Resume(a, i, Resume(b, j, t)) == Resume(a + b, i + j, t)
  {
    assert a + (b + t.notices) == (a + b) + t.notices;
  }

  /** For any turn whose end flag is decided by the request alone, the loop stops after the first ending request. */
  lemma {:induction false} LoopStopsAtFirstEnd(turn: (seq<Book>, Request) -> Outcome, ends: Request -> bool,
                                               books: seq<Book>, requests: seq<Request>)
    requires forall b, r :: turn(b, r).done == ends(r)
    ensures var t := Loop(turn, books, requests);
      t.consumed <= |requests|
      && (forall k :: 0 <= k < t.consumed - 1 ==> !ends(requests[k]))
      && (t.exited <==> t.consumed >= 1 && ends(requests[t.consumed - 1]))
      && (!t.exited ==> t.consumed == |requests|)
    decreases |requests|
  {
    if requests != [] {
      var o := turn(books, requests[0]);
      if !o.done {
        LoopStopsAtFirstEnd(turn, ends, o.books, requests[1..]);
        var rest := Loop(turn, o.books, requests[1..]);
        forall k | 0 <= k < rest.consumed
          ensures !ends(requests[k])
        {
          if k > 0 {
            assert requests[k] == requests[1..][k - 1];
          }
        }
        if rest.exited {
          assert requests[rest.consumed] == requests[1..][rest.consumed - 1];
        }
      }
    }
  }

  /**
    * A session stops right after the first `exit` and nowhere else: it reads
    * every request up to and including the first `exit`, and all of them when
    * there is none.
    */
  lemma RunStopsAtFirstExit(books: seq<Book>, requests: seq<Request>, parseYear: string -> Option<int>)
    ensures var t := Run(books, requests, parseYear);
      t.consumed <= |requests|
      && (forall k :: 0 <= k < t.consumed - 1 ==> ParseCommand(requests[k].command) != ExitCommand)
      && (t.exited <==> t.consumed >= 1 && ParseCommand(requests[t.consumed - 1].command) == ExitCommand)
      && (!t.exited ==> t.consumed == |requests|)
  {
    forall b, r ensures Turn(parseYear)(b, r).done == IsExit(r) {
      OnlyExitEnds(b, ParseCommand(r.command), r, parseYear);
    }
    LoopStopsAtFirstEnd(Turn(parseYear), IsExit, books, requests);
  }

  /** For any turn, requests after the one that ends the loop are never read. */
  lemma {:induction false} LoopIgnoresAfterEnd(turn: (seq<Book>, Request) -> Outcome, books: seq<Book>,
                                               requests: seq<Request>, more: seq<Request>)
    requires Loop(turn, books, requests).exited
    ensures Loop(turn, books, requests + more) == Loop(turn, books, requests)
    decreases |requests|
  {
    var all := requests + more;
    assert all[0] == requests[0] && all[1..] == requests[1..] + more;
    var o := turn(books, requests[0]);
    if !o.done {
      LoopIgnoresAfterEnd(turn, o.books, requests[1..], more);
    }
  }

  /** Requests after an `exit` are never read. */
  lemma RunIgnoresAfterExit(books: seq<Book>, requests: seq<Request>, more: seq<Request>,
                            parseYear: string -> Option<int>)
    requires Run(books, requests, parseYear).exited
    ensures Run(books, requests + more, parseYear) == Run(books, requests, parseYear)
  {
    LoopIgnoresAfterEnd(Turn(parseYear), books, requests, more);
  }

  /**
    * `remove` undoes `add`: removing the title just added takes that book away
    * again when no earlier book held the title; otherwise the earlier book goes
    * and the new one stays at the end. Both turns report success.
    */
  lemma AddThenRemove(books: seq<Book>, add: Request, remove: Request, parseYear: string -> Option<int>)
    requires ParseCommand(add.command) == AddCommand && ParseCommand(remove.command) == RemoveCommand
    requires parseYear(Strip(add.year)).Some?
    requires Strip(remove.title) == Strip(add.title)
    ensures var t := Strip(add.title);
      var b := Book(t, Strip(add.author), parseYear(Strip(add.year)).value);
      var trace := Run(books, [add, remove], parseYear);
      trace.books == (if HasTitle(books, t) then RemoveFirst(books, t) + [b] else books)
      && trace.notices == AddedReport(t) + RemovalReport(t, true)
      && !trace.exited && trace.consumed == 2
  {
    var t := Strip(add.title);
    var b := Book(t, Strip(add.author), parseYear(Strip(add.year)).value);
    var requests := [add, remove];
    RunUnfold(books, requests, parseYear);
    assert requests[1..] == [remove];
    RunUnfold(books + [b], [remove], parseYear);
    assert [remove][1..] == [];
    assert HasTitle(books + [b], t) by {
      assert (books + [b])[|books|] == b;
    }
    if HasTitle(books, t) {
      RemoveFirstAppendOld(books, b, t);
    } else {
      RemoveFirstAppendNew(books, b);
    }
  }

  /** The body of the loop: the `match` on the recognised command, carried out through the manager. */
  method Perform(manager: LibraryManager, command: Command, request: Request, parseYear: string -> Option<int>)
    returns (out: seq<Notice>, done: bool)
    modifies manager.library
    ensures Outcome(manager.library.books, out, done)
            == Step(old(manager.library.books), command, request, parseYear)
  {
    done := false;
    match command
    case AddCommand =>
      var title, author := Strip(request.title), Strip(request.author);
      match parseYear(Strip(request.year)) {
        case Some(year) =>
          out := manager.AddBook(title, author, year);
        case None =>
          out := [Error(YearNotNumber)];
      }
    case RemoveCommand =>
      out := manager.RemoveBook(Strip(request.title));
    case ShowCommand =>
      out := manager.ShowBooks();
    case ExitCommand =>
      out := [Info(Exiting)];
      done := true;
    case UnknownCommand =>
      out := [Error(InvalidCommand)];
  }

  /**
    * The program's loop: a fresh library and manager, then one request per
    * iteration until `exit` or the end of input.
    */
  method RunSession(requests: seq<Request>, parseYear: string -> Option<int>)
    returns (books: seq<Book>, notices: seq<Notice>, exited: bool, consumed: nat)
    ensures Trace(books, notices, exited, consumed) == Run([], requests, parseYear)
  {
    var library := new Library();
    var manager := new LibraryManager(library);
    notices, exited := [], false;
    var i := 0;
    while i < |requests| && !exited
      invariant 0 <= i <= |requests|
      invariant !exited ==> Run([], requests, parseYear) == Resume(notices, i, Run(library.books, requests[i..], parseYear))
      invariant exited ==> Run([], requests, parseYear) == Trace(library.books, notices, true, i)
    {
      var request := requests[i];
      var command := ParseCommand(request.command);
      assert requests[i..][0] == request && requests[i..][1..] == requests[i + 1..];
      RunUnfold(library.books, requests[i..], parseYear);
      ghost var before := notices;
      var out;
      out, exited := Perform(manager, command, request, parseYear);
      ResumeTwice(before, i, out, 1, Run(library.books, requests[i + 1..], parseYear));
      notices := notices + out;
      i := i + 1;
    }
    books := library.ShowBooks();
    consumed := i;
  }
}
