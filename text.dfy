/**
  * The string operations the library manager relies on: Python's `str.strip()`
  * with no argument, `str.lower()` on the command word, and `str(int)` used when
  * a book is formatted. Strings are sequences of Unicode scalar values.
  */
module Text {

  import opened Wrappers

  // ---------------------------------------------------------------------------
  // Whitespace and strip()
  // ---------------------------------------------------------------------------

  /** The characters Python's `str.isspace()` accepts, which `str.strip()` removes. */
  predicate IsSpace(c: char) {
    ('\t' <= c <= '\r') || ('\U{1C}' <= c <= '\U{1F}') || c == ' '
    || c == '\U{85}' || c == '\U{A0}' || c == '\U{1680}'
    || ('\U{2000}' <= c <= '\U{200A}') || c == '\U{2028}' || c == '\U{2029}'
    || c == '\U{202F}' || c == '\U{205F}' || c == '\U{3000}'
  }

  predicate AllSpace(s: string) {
    forall k :: 0 <= k < |s| ==> IsSpace(s[k])
  }

  /** Neither end of `s` is whitespace: what `strip()` leaves behind. */
  predicate Trimmed(s: string) {
    s == [] || (!IsSpace(s[0]) && !IsSpace(s[|s| - 1]))
  }

  /** `s` with its leading whitespace removed. */
  function TrimStart(s: string): string {
    if s != [] && IsSpace(s[0]) then TrimStart(s[1..]) else s
  }

  /** `s` with its trailing whitespace removed. */
  function TrimEnd(s: string): string {
    if s != [] && IsSpace(s[|s| - 1]) then TrimEnd(s[..|s| - 1]) else s
  }

  /** Python's `s.strip()`: the middle of `s`, with whitespace on both sides cut off. */
  function Strip(s: string): string {
    TrimEnd(TrimStart(s))
  }

  lemma AllSpaceCons(c: char, w: string)
    requires IsSpace(c) && AllSpace(w)
    ensures AllSpace([c] + w)
  {
    forall k | 0 < k < |w| + 1 ensures IsSpace(([c] + w)[k]) {
      assert ([c] + w)[k] == w[k - 1];
    }
  }

  lemma AllSpaceSnoc(w: string, c: char)
    requires IsSpace(c) && AllSpace(w)
    ensures AllSpace(w + [c])
  {
    forall k | 0 <= k < |w| ensures IsSpace((w + [c])[k]) {
      assert (w + [c])[k] == w[k];
    }
  }

  /** What `TrimStart` cut off is whitespace, and what it kept does not start with whitespace. */
  lemma {:induction false} TrimStartSplit(s: string) returns (w: string)
    ensures s == w + TrimStart(s) && AllSpace(w)
    ensures TrimStart(s) == [] || !IsSpace(TrimStart(s)[0])
  {
    if s != [] && IsSpace(s[0]) {
      var w' := TrimStartSplit(s[1..]);
      w := [s[0]] + w';
      AllSpaceCons(s[0], w');
      assert s == [s[0]] + s[1..];
    } else {
      w := [];
    }
  }

  /** What `TrimEnd` cut off is whitespace, and what it kept does not end with whitespace. */
  lemma {:induction false} TrimEndSplit(s: string) returns (w: string)
    ensures s == TrimEnd(s) + w && AllSpace(w)
    ensures TrimEnd(s) == [] || !IsSpace(TrimEnd(s)[|TrimEnd(s)| - 1])
  {
    if s != [] && IsSpace(s[|s| - 1]) {
      var w' := TrimEndSplit(s[..|s| - 1]);
      w := w' + [s[|s| - 1]];
      AllSpaceSnoc(w', s[|s| - 1]);
      assert s == s[..|s| - 1] + [s[|s| - 1]];
    } else {
      w := [];
    }
  }

  /** `strip()` cuts off only whitespace, on each side of its result. */
  lemma StripSplit(s: string) returns (w1: string, w2: string)
    ensures s == w1 + Strip(s) + w2
    ensures AllSpace(w1) && AllSpace(w2)
  {
    w1 := TrimStartSplit(s);
    w2 := TrimEndSplit(TrimStart(s));
    assert s == w1 + (Strip(s) + w2);
  }

  /** `strip()` leaves no whitespace at either end. */
  lemma StripTrimmed(s: string)
    ensures Trimmed(Strip(s))
  {
    var t := TrimStart(s);
    var w1 := TrimStartSplit(s);
    var w2 := TrimEndSplit(t);
    var r := TrimEnd(t);
    assert t == r + w2;
    assert r != [] ==> r[0] == t[0];
  }

  lemma {:induction false} TrimStartAfterSpaces(w: string, m: string)
    requires AllSpace(w)
    requires m == [] || !IsSpace(m[0])
    ensures TrimStart(w + m) == m
  {
    if w != [] {
      assert (w + m)[1..] == w[1..] + m;
      TrimStartAfterSpaces(w[1..], m);
    }
  }

  lemma {:induction false} TrimEndBeforeSpaces(m: string, w: string)
    requires AllSpace(w)
    requires m == [] || !IsSpace(m[|m| - 1])
    ensures TrimEnd(m + w) == m
  {
    if w != [] {
      assert (m + w)[..|m + w| - 1] == m + w[..|w| - 1];
      TrimEndBeforeSpaces(m, w[..|w| - 1]);
    }
  }

  /**
    * `strip()` is determined by its result: whenever `s` is some whitespace, then a
    * trimmed middle, then some whitespace, the middle is exactly what `strip()` returns.
    */
  lemma StripOfPadded(w1: string, m: string, w2: string)
    requires AllSpace(w1) && AllSpace(w2) && Trimmed(m)
    ensures Strip(w1 + m + w2) == m
  {
    if m == [] {
      assert w1 + m + w2 == (w1 + w2) + [];
      assert AllSpace(w1 + w2);
      TrimStartAfterSpaces(w1 + w2, []);
    } else {
      assert w1 + m + w2 == w1 + (m + w2);
      TrimStartAfterSpaces(w1, m + w2);
      TrimEndBeforeSpaces(m, w2);
    }
  }

  /** A string with no whitespace at either end is left alone by `strip()`. */
  lemma StripUnpadded(s: string)
    requires Trimmed(s)
    ensures Strip(s) == s
  {
    StripOfPadded("", s, "");
    assert "" + s + "" == s;
  }

  // ---------------------------------------------------------------------------
  // lower()
  // ---------------------------------------------------------------------------

  /** Lower-casing of one character, for the ASCII letters. */
  function LowerChar(c: char): char {
    if 'A' <= c <= 'Z' then (c as int - 'A' as int + 'a' as int) as char else c
  }

  /** `s.lower()` restricted to the ASCII letters (see README for why that suffices here). */
  function Lower(s: string): string {
    seq(|s|, k requires 0 <= k < |s| => LowerChar(s[k]))
  }

  lemma LowerCharSpace(c: char)
    ensures IsSpace(LowerChar(c)) == IsSpace(c)
  {
    if 'A' <= c <= 'Z' {
      assert 'a' <= LowerChar(c) <= 'z';
    }
  }

  lemma LowerAppend(a: string, b: string)
    ensures Lower(a + b) == Lower(a) + Lower(b)
  {
  }

  lemma LowerAllSpace(w: string)
    requires AllSpace(w)
    ensures AllSpace(Lower(w))
  {
    forall k | 0 <= k < |w| ensures IsSpace(Lower(w)[k]) {
      LowerCharSpace(w[k]);
    }
  }

  lemma LowerTrimmed(m: string)
    requires Trimmed(m)
    ensures Trimmed(Lower(m))
  {
    if m != [] {
      LowerCharSpace(m[0]);
      LowerCharSpace(m[|m| - 1]);
    }
  }

  /** Lower-casing and stripping commute: `s.strip().lower() == s.lower().strip()`. */
  lemma StripLowerCommute(s: string)
    ensures Strip(Lower(s)) == Lower(Strip(s))
  {
    var m := Strip(s);
    var w1, w2 := StripSplit(s);
    StripTrimmed(s);
    LowerAppend(w1 + m, w2);
    LowerAppend(w1, m);
    LowerAllSpace(w1);
    LowerAllSpace(w2);
    LowerTrimmed(m);
    StripOfPadded(Lower(w1), Lower(m), Lower(w2));
  }

  // ---------------------------------------------------------------------------
  // str(int) and its decimal reading
  // ---------------------------------------------------------------------------

  predicate IsDigit(c: char) {
    '0' <= c <= '9'
  }

  predicate AllDigits(s: string) {
    forall k :: 0 <= k < |s| ==> IsDigit(s[k])
  }

  function DigitChar(d: nat): (c: char)
    requires d < 10
    ensures IsDigit(c)
  {
    ('0' as int + d) as char
  }

  /** The decimal digits of `n`, most significant first, without leading zeros. */
  function NatToDigits(n: nat): (r: string)
    ensures |r| >= 1 && AllDigits(r)
    ensures r[0] == '0' ==> n == 0
    decreases n
  {
    if n < 10 then [DigitChar(n)] else NatToDigits(n / 10) + [DigitChar(n % 10)]
  }

  /** Python's `str(i)` for an integer: an optional minus sign, then the digits. */
  function IntToString(i: int): string {
    if i < 0 then "-" + NatToDigits(-i) else NatToDigits(i)
  }

  /** The value of a string of decimal digits, read left to right. */
  function DigitsValue(s: string): nat
    requires AllDigits(s)
  {
    if s == [] then 0 else 10 * DigitsValue(s[..|s| - 1]) + (s[|s| - 1] as int - '0' as int)
  }

  /** Reads an optionally negative decimal numeral; anything else has no value. */
  function DecimalValue(s: string): Option<int> {
    if |s| >= 2 && s[0] == '-' && AllDigits(s[1..]) then Some(-(DigitsValue(s[1..]) as int))
    else if |s| >= 1 && AllDigits(s) then Some(DigitsValue(s))
    else None
  }

  lemma {:induction false} NatToDigitsValue(n: nat)
    ensures DigitsValue(NatToDigits(n)) == n
    decreases n
  {
    if n >= 10 {
      var p := NatToDigits(n / 10);
      var s := p + [DigitChar(n % 10)];
      assert s[..|s| - 1] == p;
      NatToDigitsValue(n / 10);
    }
  }

  /** `str(i)` reads back as `i`: formatting a year loses nothing. */
  lemma IntToStringRoundTrip(i: int)
    ensures DecimalValue(IntToString(i)) == Some(i)
  {
    var s := IntToString(i);
    if i < 0 {
      var d := NatToDigits(-i);
      assert s == "-" + d;
      assert s[1..] == d;
      NatToDigitsValue(-i);
    } else {
      var d := NatToDigits(i);
      assert s == d && IsDigit(d[0]);
      NatToDigitsValue(i);
    }
  }

  // ---------------------------------------------------------------------------
  // The last space-separated word of a line
  // ---------------------------------------------------------------------------

  /** The characters after the last space of `s` (all of `s` when it has none). */
  function LastWord(s: string): string {
    if s == [] || s[|s| - 1] == ' ' then [] else LastWord(s[..|s| - 1]) + [s[|s| - 1]]
  }

  lemma {:induction false} LastWordAfterSpace(p: string, w: string)
    requires forall k :: 0 <= k < |w| ==> w[k] != ' '
    ensures LastWord(p + " " + w) == w
  {
    if w != [] {
      var s := p + " " + w;
      assert s[..|s| - 1] == p + " " + w[..|w| - 1];
      LastWordAfterSpace(p, w[..|w| - 1]);
    } else {
      assert p + " " + w == p + " ";
    }
  }
}
