/** Concrete command lines: how command words are recognised. */
module Scenarios {
  import opened Text
  import opened Session

  /** A surrounding space and tab, and capital letters, still name `exit`. */
  lemma ExitSpelling()
    ensures ParseCommand(" Exit\t") == ExitCommand
  {
    assert " Exit\t" == " " + "Exit" + "\t";
    StripOfPadded(" ", "Exit", "\t");
    assert Lower("Exit") == "exit";
  }

  /** An all-capitals command word is recognised. */
  lemma ShowSpelling()
    ensures ParseCommand("SHOW") == ShowCommand
  {
    StripUnpadded("SHOW");
    assert Lower("SHOW") == "show";
  }

  /** A command word followed by more text is not a command. */
  lemma TrailingWordsRejected()
    ensures ParseCommand("remove books") == UnknownCommand
  {
    StripUnpadded("remove books");
  }
}
