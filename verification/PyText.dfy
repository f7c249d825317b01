/**
 The Python string operations the portal uses, on ASCII text.  `IsSpace` is what
 `str.strip` and the regex class `\s` accept below code point 128, and `IsWord` is
 the regex class `\w`.  Lowering and stripping come with the few laws that
 several modules share.
 */
module PyText {

  predicate IsSpace(c: char) {
    var n := c as int;
    n == 32 || 9 <= n <= 13 || 28 <= n <= 31
  }

  predicate IsDigit(c: char) {
    '0' <= c <= '9'
  }

  predicate IsLetter(c: char) {
    'a' <= c <= 'z' || 'A' <= c <= 'Z'
  }

  predicate IsWord(c: char) {
    IsLetter(c) || IsDigit(c) || c == '_'
  }

  function LowerChar(c: char): char {
    if 'A' <= c <= 'Z' then (c as int + 32) as char else c
  }

  function UpperChar(c: char): char {
    if 'a' <= c <= 'z' then (c as int - 32) as char else c
  }

  function Lower(s: string): (r: string)
    ensures |r| == |s|
    ensures forall i :: 0 <= i < |s| ==> r[i] == LowerChar(s[i])
  {
    seq(|s|, i requires 0 <= i < |s| => LowerChar(s[i]))
  }

  function Upper(s: string): (r: string)
    ensures |r| == |s|
    ensures forall i :: 0 <= i < |s| ==> r[i] == UpperChar(s[i])
  {
    seq(|s|, i requires 0 <= i < |s| => UpperChar(s[i]))
  }

  function LStrip(s: string): string {
    if s != "" && IsSpace(s[0]) then LStrip(s[1..]) else s
  }

  function RStrip(s: string): string {
    if s != "" && IsSpace(s[|s| - 1]) then RStrip(s[..|s| - 1]) else s
  }

  function Strip(s: string): string {
    RStrip(LStrip(s))
  }

  /** `lstrip` leaves a suffix that does not start with whitespace, and takes away nothing else. */
  lemma {:induction false} LStripShape(s: string)
    ensures var r := LStrip(s);
            && |r| <= |s| && r == s[|s| - |r|..] && (r != "" ==> !IsSpace(r[0]))
            && forall i :: 0 <= i < |s| - |r| ==> IsSpace(s[i])
  {
    hide IsSpace;
    if s != "" && IsSpace(s[0]) { LStripShape(s[1..]); }
  }

  /** `rstrip` leaves a prefix that does not end in whitespace, and takes away nothing else. */
  lemma {:induction false} RStripShape(s: string)
    ensures var r := RStrip(s);
            && |r| <= |s| && r == s[..|r|] && (r != "" ==> !IsSpace(r[|r| - 1]))
            && forall i :: |r| <= i < |s| ==> IsSpace(s[i])
  {
    hide IsSpace;
    if s != "" && IsSpace(s[|s| - 1]) { RStripShape(s[..|s| - 1]); }
  }

  /** Stripped text neither starts nor ends with whitespace. */
  lemma StripShape(s: string)
    ensures Strip(s) != "" ==> !IsSpace(Strip(s)[0]) && !IsSpace(Strip(s)[|Strip(s)| - 1])
  {
    hide LStrip, RStrip, IsSpace;
    LStripShape(s);
    RStripShape(LStrip(s));
  }

  /** Whitespace, character by character. */
  lemma SpacesExactly(c: char)
    ensures IsSpace(c) <==>
              c in {' ', '\t', '\n', '\r', '\U{b}', '\U{c}', '\U{1c}', '\U{1d}', '\U{1e}', '\U{1f}'}
  {
  }

  /** The stripped text is what stands between the first and the last character that is no whitespace. */
  lemma StripExactly(s: string, a: nat, b: nat)
    requires a <= b <= |s| && forall i :: 0 <= i < a || b <= i < |s| ==> IsSpace(s[i])
    requires a < b ==> !IsSpace(s[a]) && !IsSpace(s[b - 1])
    requires a == b ==> a == 0
    ensures Strip(s) == s[a..b]
  {
    hide IsSpace, LStrip, RStrip;
    var n := if a < b then a else |s|;
    LStripIs(s, n);
    RStripIs(s[n..], if a < b then b - a else 0);
    assert a < b ==> s[a..][..b - a] == s[a..b];
  }

  lemma {:induction false} LStripIs(s: string, n: nat)
    requires n <= |s| && (forall i :: 0 <= i < n ==> IsSpace(s[i])) && (n < |s| ==> !IsSpace(s[n]))
    ensures LStrip(s) == s[n..]
  {
    hide IsSpace;
    if n > 0 { LStripIs(s[1..], n - 1); }
  }

  lemma {:induction false} RStripIs(s: string, n: nat)
    requires n <= |s| && (forall i :: n <= i < |s| ==> IsSpace(s[i])) && (n > 0 ==> !IsSpace(s[n - 1]))
    ensures RStrip(s) == s[..n]
    decreases |s|
  {
    hide IsSpace;
    if n < |s| {
      RStripIs(s[..|s| - 1], n);
      assert s[..|s| - 1][..n] == s[..n];
    } else {
      assert s[..n] == s;
    }
  }

  predicate EndsWith(s: string, p: string) {
    |p| <= |s| && s[|s| - |p|..] == p
  }

  predicate MatchesAt(s: string, i: nat, p: string) {
    i + |p| <= |s| && s[i..i + |p|] == p
  }

  predicate Contains(s: string, p: string) {
    exists i :: 0 <= i <= |s| && MatchesAt(s, i, p)
  }

  /** Every occurrence of one character replaced by another. */
  function ReplaceChar(s: string, from: char, to: char): (r: string)
    ensures |r| == |s|
  {
    seq(|s|, i requires 0 <= i < |s| => if s[i] == from then to else s[i])
  }

  lemma LStripStep(s: string)
    requires s != ""
    ensures LStrip(s) == if IsSpace(s[0]) then LStrip(s[1..]) else s
  {
    hide IsSpace;
  }

  lemma RStripStep(s: string)
    requires s != ""
    ensures RStrip(s) == if IsSpace(s[|s| - 1]) then RStrip(s[..|s| - 1]) else s
  {
    hide IsSpace;
  }

  lemma StripStripped(s: string)
    ensures Strip(Strip(s)) == Strip(s)
  {
    hide LStrip, RStrip, IsSpace;
    StripShape(s);
    if Strip(s) == "" { NothingToStrip(); } else { StripWhole(Strip(s)); }
  }

  lemma NothingToStrip()
    ensures LStrip("") == "" && RStrip("") == ""
  {
  }

  lemma StripWhole(s: string)
    requires s != "" && !IsSpace(s[0]) && !IsSpace(s[|s| - 1])
    ensures Strip(s) == s
  {
    hide IsSpace;
  }

  /** A match, character by character. */
  lemma MatchesChars(s: string, i: nat, p: string)
    requires MatchesAt(s, i, p)
    ensures forall j :: 0 <= j < |p| ==> s[i + j] == p[j]
  {
    forall j | 0 <= j < |p| ensures s[i + j] == p[j] {
      assert s[i..i + |p|][j] == p[j];
    }
  }

  lemma LowerTwice(s: string)
    ensures Lower(Lower(s)) == Lower(s)
  {
  }
}
