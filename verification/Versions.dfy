/**
 Version strings: Python's decimal `int()` and `str()` on ASCII text, `split`,
 and the bump of the last of three components.
 */
module Versions {
  import opened Outcomes
  import opened PyText

  // ----- decimal numbers -----

  function DigitChar(d: nat): char
    requires d < 10
  {
    (d + '0' as int) as char
  }

  function DigitValue(c: char): nat
    requires IsDigit(c)
  {
    c as int - '0' as int
  }

  function PrintNat(n: nat): (s: string)
    ensures s != "" && forall i :: 0 <= i < |s| ==> IsDigit(s[i])
  {
    if n < 10 then [DigitChar(n)] else PrintNat(n / 10) + [DigitChar(n % 10)]
  }

  function PrintInt(n: int): string {
    if n < 0 then "-" + PrintNat(-n) else PrintNat(n)
  }

  /** Digits with single underscores between them. */
  function ParseNat(s: string): Option<nat>
    decreases |s|
  {
    var n := |s|;
    if n == 0 || !IsDigit(s[n - 1]) then None
    else if n == 1 then Some(DigitValue(s[0]))
    else
      var front := ParseNat(if s[n - 2] == '_' then s[..n - 2] else s[..n - 1]);
      if front.None? then None else Some(10 * front.value + DigitValue(s[n - 1]))
  }

  function ParseInt(text: string): Option<int> {
    var s := Strip(text);
    if s != "" && s[0] == '-' then
      var n := ParseNat(s[1..]);
      if n.None? then None else Some(0 - n.value)
    else
      var n := ParseNat(if s != "" && s[0] == '+' then s[1..] else s);
      if n.None? then None else Some(n.value)
  }

  lemma {:induction false} ParsePrintNat(n: nat)
    ensures ParseNat(PrintNat(n)) == Some(n)
  {
    if n >= 10 {
      var s, front := PrintNat(n), PrintNat(n / 10);
      ParsePrintNat(n / 10);
      assert s[..|s| - 1] == front && IsDigit(s[|s| - 2]) by {
        assert s[|s| - 2] == front[|front| - 1];
      }
    }
  }

  lemma PrintedIsStripped(n: int)
    ensures Strip(PrintInt(n)) == PrintInt(n)
  {
    hide PrintNat, LStrip, RStrip;
    var s := PrintInt(n);
    assert !IsSpace(s[0]) && !IsSpace(s[|s| - 1]);
    StripWhole(s);
  }

  /** Reading back a printed number gives the number. */
  lemma ParsePrintInt(n: int)
    ensures ParseInt(PrintInt(n)) == Some(n)
  {
    hide Strip, PrintNat, ParseNat;
    PrintedIsStripped(n);
    var s := PrintInt(n);
    if n < 0 {
      assert s[1..] == PrintNat(-n);
      ParsePrintNat(-n);
    } else {
      assert IsDigit(s[0]);
      ParsePrintNat(n);
    }
  }

  // ----- dotted versions -----

  function Split(s: string, sep: char): (parts: seq<string>)
    ensures |parts| > 0
  {
    if s == "" then [""]
    else
      var rest := Split(s[1..], sep);
      if s[0] == sep then [""] + rest else [[s[0]] + rest[0]] + rest[1..]
  }

  /** The bumped version, or `None` for the exception a non-numeric component raises. */
  function Bump(version: string): Option<string> {
    var parts := Split(version, '.');
    if |parts| != 3 then Some("1.0.1")
    else
      var major, minor, patch := ParseInt(parts[0]), ParseInt(parts[1]), ParseInt(parts[2]);
      if major.None? || minor.None? || patch.None? then None
      else Some(Dotted(major.value, minor.value, patch.value + 1))
  }

  function Dotted(major: int, minor: int, patch: int): string {
    PrintInt(major) + "." + PrintInt(minor) + "." + PrintInt(patch)
  }

  lemma {:induction false} SplitPlain(s: string, sep: char)
    requires sep !in s
    ensures Split(s, sep) == [s]
  {
    if s != "" {
      SplitPlain(s[1..], sep);
      assert [s[0]] + s[1..] == s;
    }
  }

  lemma {:induction false} SplitJoin(a: string, b: string, sep: char)
    requires sep !in a
    ensures Split(a + [sep] + b, sep) == [a] + Split(b, sep)
  {
    var s := a + [sep] + b;
    if a == "" {
      assert s[1..] == b;
    } else {
      assert s[1..] == a[1..] + [sep] + b;
      SplitJoin(a[1..], b, sep);
      assert s[0] == a[0] && [a[0]] + a[1..] == a;
    }
  }

  lemma PrintedHasNoDot(n: int)
    ensures '.' !in PrintInt(n)
  {
    var s := PrintNat(if n < 0 then -n else n);
    forall i | 0 <= i < |s| ensures s[i] != '.' {
      assert IsDigit(s[i]);
    }
  }

  lemma SplitDotted(a: int, b: int, c: int)
    ensures Split(Dotted(a, b, c), '.') == [PrintInt(a), PrintInt(b), PrintInt(c)]
  {
    PrintedHasNoDot(a);
    PrintedHasNoDot(b);
    PrintedHasNoDot(c);
    var tail := PrintInt(b) + "." + PrintInt(c);
    assert Dotted(a, b, c) == PrintInt(a) + ['.'] + tail;
    SplitJoin(PrintInt(a), tail, '.');
    SplitJoin(PrintInt(b), PrintInt(c), '.');
    SplitPlain(PrintInt(c), '.');
  }

  /** Printed versions bump by one in the last component, through the text. */
  lemma BumpDotted(a: int, b: int, c: int)
    ensures Bump(Dotted(a, b, c)) == Some(Dotted(a, b, c + 1))
  {
    hide Split, ParseInt, PrintInt;
    SplitDotted(a, b, c);
    ParsePrintInt(a);
    ParsePrintInt(b);
    ParsePrintInt(c);
  }

  /** Any other text: without three components it becomes `1.0.1`, and a component that is no number is an error. */
  lemma BumpExactly(version: string)
    ensures var parts := Split(version, '.');
            if |parts| != 3 then Bump(version) == Some("1.0.1")
            else
              && (Bump(version).None? <==> exists i :: 0 <= i < 3 && ParseInt(parts[i]).None?)
              && (Bump(version).Some? ==>
                    Bump(version) == Some(Dotted(ParseInt(parts[0]).value, ParseInt(parts[1]).value,
                                                 ParseInt(parts[2]).value + 1)))
  {
    hide Split, ParseInt, Dotted;
    var parts := Split(version, '.');
    assert |parts| == 3 ==> (Bump(version).None? <==>
                               ParseInt(parts[0]).None? || ParseInt(parts[1]).None? || ParseInt(parts[2]).None?);
  }

  /** A sign in front and single underscores between digits are read over. */
  lemma ParseSpelled(n: nat, m: nat)
    requires m < 10
    ensures ParseInt("+" + PrintNat(n)) == Some(n) && ParseNat(PrintNat(n) + "_" + [DigitChar(m)]) == Some(10 * n + m)
  {
    ParsePrintNat(n);
    var s := PrintNat(n);
    assert IsDigit(s[|s| - 1]);
    StripWhole("+" + s);
    assert ("+" + s)[1..] == s;
    var t := s + "_" + [DigitChar(m)];
    assert t[..|t| - 2] == s;
  }

  /** Different components print as different versions. */
  lemma DottedInjective(a: int, b: int, c: int, a': int, b': int, c': int)
    requires Dotted(a, b, c) == Dotted(a', b', c')
    ensures a == a' && b == b' && c == c'
  {
    SplitDotted(a, b, c);
    SplitDotted(a', b', c');
    ParsePrintInt(a);
    ParsePrintInt(a');
    ParsePrintInt(b);
    ParsePrintInt(b');
    ParsePrintInt(c);
    ParsePrintInt(c');
  }
}
