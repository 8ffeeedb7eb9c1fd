# Book library manager — a Dafny model

This project models the interactive book-library manager of `task2/book_library.py`:

- a **book** record (title, author, year) and its printed form (`Book.__str__`);
- the **library**, an ordered list of books updated in place: `add_book` appends,
  `remove_book` scans from the front and deletes the first book whose title is exactly
  the argument, and `show_books` returns the stored list;
- the **manager**, which wraps each library operation with the `[INFO]` / `[ERROR]`
  lines the user sees, modelled as a returned sequence of `Notice` values
  (`Render` gives each line's text without colour codes);
- the **command loop** of `main`: each command line is trimmed and lower-cased, then
  dispatched to `add`, `remove`, `show` or `exit`; anything else is reported as an
  invalid command. Only `exit` ends the loop. An `add` whose year does not convert to an
  integer reports an error and changes nothing.

Layout:

| file | module | contents |
|---|---|---|
| `wrappers.dfy` | `Wrappers` | `Option` |
| `text.dfy` | `Text` | Python's `strip()` and `lower()` and `str(int)` on strings, with their laws |
| `books.dfy` | `Books` | `Book`, `Describe`, the reference definition of first-match removal (`RemoveFirst`) and its lemmas, class `Library` |
| `manager.dfy` | `Manager` | `Message`, `Notice`, `Render`, the notice sequences of each operation, class `LibraryManager` |
| `session.dfy` | `Session` | `ParseCommand`, one loop turn as the function `Step`, whole sessions as `Run`, and the loop itself as the method `RunSession` |
| `scenarios.dfy` | `Scenarios` | concrete command spellings |

The loop's input is a sequence of `Request(command, title, author, year)` values: the
command line and the raw lines read after it (`title`, `author` and `year` for `add`,
`title` for `remove`; the other commands read nothing more and ignore them). The
conversion `int(year)` is the parameter `parseYear: string -> Option<int>`, where `None`
stands for the `ValueError` it raises. `RunSession` is the imperative loop over a fresh
`Library` and `LibraryManager`; it is proved equal to the functional `Run`, about which the
session lemmas are stated. `Run` is the loop skeleton `Loop` applied to the program's `Turn`,
so that the facts about stopping hold for the skeleton whatever a turn does. One loop turn is `Step`; `Perform` is the `match` block of the loop
body carried out through the manager's methods.

## Model

| member | source | states |
|---|---|---|
| `Books.Describe` | task2/book_library.py:14-17 | defines the text of `Book.__str__` without colour codes: `Title: `, the title, `, Author: `, the author, `, Year: ` and the year in decimal (its meaning is stated by `Books.DescribeShowsYear`) |
| `Books.RemoveFirst` | task2/book_library.py:43-48 | defines first-match removal by recursion on the list: the first book with the title is dropped and everything else kept in order; `Books.Library.RemoveBook` is proved against it and the `RemoveFirst*` lemmas state its properties |
| `Books.Library.constructor` | task2/book_library.py:37-38 | a new library holds no books |
| `Books.Library.AddBook` | task2/book_library.py:40-41 | the new list is the old list with the book appended at the end; every earlier book keeps its position |
| `Books.Library.RemoveBook` | task2/book_library.py:43-48 | returns true exactly when some stored title equals the argument; on success the list is the old list without the lowest-index match (an index for which `IsFirstMatch` holds), in the same order; on failure the list is unchanged; in both cases the list equals the reference `RemoveFirst` |
| `Books.Library.ShowBooks` | task2/book_library.py:50-51 | returns the stored sequence and changes nothing |
| `Books.Delete` | task2/book_library.py:46 | deleting index `i` shortens the list by one, keeps every element before `i` in place and shifts every later element down by one |
| `Books.FirstIndex` | task2/book_library.py:44-45 | when some title matches, the forward scan stops at an index holding the title with no earlier index holding it |
| `Books.RemoveFirstMiss` | task2/book_library.py:48 | with no book of that title, removal leaves the list identical |
| `Books.RemoveFirstHit` | task2/book_library.py:44-47 | removal deletes exactly the first matching index and nothing else |
| `Books.CountTitlePositive` | task2/book_library.py:44-45 | a title is present exactly when it is held by at least one book |
| `Books.RemoveFirstCounts` | task2/book_library.py:44-47 | a successful removal lowers the count of that title by one and leaves the count of every other title unchanged |
| `Books.RemoveFirstMultiset` | task2/book_library.py:44-47 | as a multiset, the new list plus the removed book (the one at the first matching index) is exactly the old list |
| `Books.DuplicatesSurvive` | task2/book_library.py:44-47 | after removing a present title it is still present exactly when it was held by two or more books: only the earliest duplicate goes |
| `Books.RemoveFirstAppendNew` | task2/book_library.py:40-48 | removing the title of a just-appended book that no earlier book holds gives back the list from before the append |
| `Books.RemoveFirstAppendOld` | task2/book_library.py:40-48 | when an earlier book already holds the title, removal after an append takes the earlier book and the appended one stays last |
| `Books.DescribeShowsYear` | task2/book_library.py:14-17 | the year printed at the end of a book's line reads back as the book's year |
| `Text.TrimStart` | task2/book_library.py:86 | defines the removal of leading whitespace (stated by `Text.TrimStartSplit`) |
| `Text.TrimEnd` | task2/book_library.py:86 | defines the removal of trailing whitespace (stated by `Text.TrimEndSplit`) |
| `Text.Strip` | task2/book_library.py:86-98 | defines `str.strip()` with no argument as the two trims in turn, as applied to the command line and to the title, author and year lines (stated by `Text.StripSplit`, `Text.StripTrimmed`, `Text.StripOfPadded`) |
| `Text.Lower` | task2/book_library.py:86 | defines `str.lower()` character by character on the ASCII letters (stated by `Text.StripLowerCommute` and `Session.ParseCommandIgnoresCase`) |
| `Text.IntToString` | task2/book_library.py:17 | defines `str(int)`: a minus sign for a negative year, then the decimal digits (stated by `Text.IntToStringRoundTrip`) |
| `Text.TrimStartSplit` | task2/book_library.py:86 | stripping the front cuts off only whitespace and leaves no whitespace at the front |
| `Text.TrimEndSplit` | task2/book_library.py:86 | stripping the back cuts off only whitespace and leaves no whitespace at the back |
| `Text.StripSplit` | task2/book_library.py:86 | `strip()` cuts off whitespace only, on each side of its result |
| `Text.StripTrimmed` | task2/book_library.py:86 | the result of `strip()` neither starts nor ends with whitespace |
| `Text.StripOfPadded` | task2/book_library.py:90-92 | `strip()` of whitespace, a trimmed middle and whitespace is exactly that middle |
| `Text.StripUnpadded` | task2/book_library.py:86 | a string without whitespace at either end is left unchanged by `strip()` |
| `Text.StripLowerCommute` | task2/book_library.py:86 | trimming and lower-casing can be applied in either order |
| `Text.NatToDigits` | task2/book_library.py:17 | the digits of a year are decimal digits, at least one, with no leading zero |
| `Text.IntToStringRoundTrip` | task2/book_library.py:17 | the decimal text of any integer year, including a negative one, reads back as that integer |
| `Manager.MessageText` | task2/book_library.py:62-106 | defines the exact text of each message: added, removed, not found, the listing header, the empty-library line, the bad-year error, the exit line and the invalid-command error |
| `Manager.Prefix` | task2/book_library.py:62-106 | defines the tag of a printed line: `[INFO] `, `[ERROR] ` or `  - ` for a listed book |
| `Manager.Body` | task2/book_library.py:62-106 | defines what follows the tag: the message text, or the book's description |
| `Manager.Render` | task2/book_library.py:62-106 | defines a printed line as tag then body, without colour codes (stated by `Manager.RenderShowsKind` and `Manager.TitledNoticesDistinct`) |
| `Manager.RenderShowsKind` | task2/book_library.py:62-77 | a line starts with `[INFO] ` exactly for an info notice, with `[ERROR] ` exactly for an error notice, and with `  - ` exactly for a listed book |
| `Manager.TitledNoticesDistinct` | task2/book_library.py:62-68 | two added / removed / not-found lines are the same text exactly when they are the same notice with the same title |
| `Manager.AddedReport` | task2/book_library.py:62 | adding yields one info notice naming the title |
| `Manager.RemovalReport` | task2/book_library.py:65-68 | removal yields one notice naming the title: info exactly when removal succeeded, error exactly when it failed |
| `Manager.Items` | task2/book_library.py:74-75 | one listing line per book, in order |
| `Manager.Listing` | task2/book_library.py:70-77 | an empty library gives the single "no books" notice; otherwise a header followed by exactly one line per book in order; never an error |
| `Manager.LibraryManager.constructor` | task2/book_library.py:56-57 | the manager holds the library it was given |
| `Manager.LibraryManager.AddBook` | task2/book_library.py:59-62 | appends the constructed book and returns the added-notice for its title |
| `Manager.LibraryManager.RemoveBook` | task2/book_library.py:64-68 | removes the first book with the title and returns info or error according to whether it was there |
| `Manager.LibraryManager.ShowBooks` | task2/book_library.py:70-77 | returns the listing notices of the current contents and changes nothing |
| `Session.Keyword` | task2/book_library.py:88-106 | defines which command a normalised word names: exactly `add`, `remove`, `show` or `exit`, and every other word falls to the default case |
| `Session.ParseCommand` | task2/book_library.py:86-88 | defines the recognition of a command line: strip, lower-case, then `Keyword` |
| `Session.ParseCommandIgnoresPadding` | task2/book_library.py:86 | whitespace around a command line never changes the command it names |
| `Session.ParseCommandIgnoresCase` | task2/book_library.py:86 | lower-casing a command line never changes the command it names |
| `Session.Step` | task2/book_library.py:88-106 | defines one turn of the `match`: the new contents, the notices printed and whether the loop ends (stated by `Session.OnlyExitEnds`, `Session.StepChangesLibrary`, `Session.StepNotices`) |
| `Session.OnlyExitEnds` | task2/book_library.py:102-104 | a turn ends the loop exactly when the command is `exit` |
| `Session.StepChangesLibrary` | task2/book_library.py:88-106 | the library changes exactly on an `add` whose year converts (one book with the trimmed title and author appended) or a `remove` whose trimmed title is present (one book fewer); `show`, `exit`, an unknown command and a bad year leave it unchanged |
| `Session.StepNotices` | task2/book_library.py:88-106 | an unknown command yields exactly the invalid-command error; a bad year exactly the year error; a turn prints only errors exactly when it failed; every turn prints something |
| `Session.Loop` | task2/book_library.py:85-106 | defines the shape of `while True`: turns in order until one ends the loop or the input runs out (stated by `Session.LoopStopsAtFirstEnd`, `Session.LoopIgnoresAfterEnd`) |
| `Session.Turn` | task2/book_library.py:86-106 | defines one iteration of the loop body: read the command line, recognise it, then `Step` |
| `Session.Run` | task2/book_library.py:85-106 | defines a whole session as `Loop` over `Turn` (stated by `Session.RunStopsAtFirstExit`, `Session.RunIgnoresAfterExit`, `Session.AddThenRemove`, and matched by `Session.RunSession`) |
| `Session.LoopStopsAtFirstEnd` | task2/book_library.py:85-106 | for any turn whose end flag depends only on the request, the loop reads every request up to and including the first ending one and stops there, or reads them all |
| `Session.RunStopsAtFirstExit` | task2/book_library.py:85-106 | a session reads every request up to and including the first `exit` and stops there; without an `exit` it reads all requests |
| `Session.LoopIgnoresAfterEnd` | task2/book_library.py:102-104 | for any turn, requests after the one that ends the loop change nothing |
| `Session.RunIgnoresAfterExit` | task2/book_library.py:102-104 | input after an `exit` has no effect on the session |
| `Session.AddThenRemove` | task2/book_library.py:89-99 | an `add` followed by a `remove` of the same trimmed title restores the previous contents when the title was new, and otherwise removes the older book and keeps the new one last; both turns report success and the loop goes on |
| `Session.Perform` | task2/book_library.py:88-106 | carrying out a recognised command through the manager gives the new contents, notices and end flag of `Step` |
| `Session.RunSession` | task2/book_library.py:81-106 | the loop over a fresh library and manager ends with the contents, notices, end flag and number of requests read that `Run` prescribes |
| `Scenarios.ExitSpelling` | task2/book_library.py:86-104 | `" Exit\t"` names `exit` |
| `Scenarios.ShowSpelling` | task2/book_library.py:86-101 | `"SHOW"` names `show` |
| `Scenarios.TrailingWordsRejected` | task2/book_library.py:86-106 | `"remove books"` names no command and falls to the invalid-command case |

## Left out

- Console input and output: `input` prompts and `print` are replaced by the request sequence and the returned notices; the colour codes of `colorama` (including `init(autoreset=True)`) are cosmetic and dropped from `Render` and `Describe`.
- End of input: Python's `input()` raises `EOFError` (and Ctrl-C `KeyboardInterrupt`) and the program stops with a traceback; in the model a session whose requests run out simply ends with `exited == false`.
- `int(year)`: Python's integer parsing (signs, underscores, surrounding whitespace, non-ASCII digits) is not modelled; it is the parameter `parseYear`.
- `lower()`: modelled on the ASCII letters only. For the command words this gives the same result as Python: the only non-ASCII characters whose Python lower-case form contains an ASCII letter are U+212A (to `k`, a letter no command uses) and U+0130 (to `i` followed by U+0307, which then cannot equal a command word).
- `strip()`: modelled with the whitespace set of Python's `str.isspace()`, written out in `Text.IsSpace`.
- Aliasing: `show_books` returns the live list object; the model returns the sequence value, so a caller mutating the returned list is not captured.
- The abstract base class `LibraryInterface` (task2/book_library.py:21-32): it has a single implementation and adds no behaviour.
- `list.remove(book)` compares by identity first, then equality; since no element before the scanned index carries the title, the element removed is the scanned one, which `Books.Library.RemoveBook` models directly.
- task1/pattern_factory.py is not part of this model: it only configures logging, constructs objects with a constant specification string and logs a line.
