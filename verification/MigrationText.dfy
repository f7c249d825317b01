/**
 The text operations of the migration runner: lines as `str.splitlines` finds them,
 pairs of dollar signs, and the substitution of the vector dimension, once and again.
 */
module MigrationText {
  import opened PyText
  import opened Versions
  import opened Outcomes

  // ----- lines -----

  /** The line boundaries of `str.splitlines` below code point 128. */
  predicate IsBreak(c: char) {
    var n := c as int;
    10 <= n <= 13 || 28 <= n <= 30
  }

  function LineLength(t: string): (k: nat)
    ensures k <= |t| && (forall i :: 0 <= i < k ==> !IsBreak(t[i])) && (k < |t| ==> IsBreak(t[k]))
  {
    if t == "" || IsBreak(t[0]) then 0 else 1 + LineLength(t[1..])
  }

  function SplitLines(t: string): (lines: seq<string>)
    ensures forall i, j :: 0 <= i < |lines| && 0 <= j < |lines[i]| ==> !IsBreak(lines[i][j])
    decreases |t|
  {
    if t == "" then []
    else
      var k := LineLength(t);
      if k == |t| then [t]
      else if t[k] == '\r' && k + 1 < |t| && t[k + 1] == '\n' then [t[..k]] + SplitLines(t[k + 2..])
      else [t[..k]] + SplitLines(t[k + 1..])
  }

  function JoinLines(lines: seq<string>): string {
    if lines == [] then "" else if |lines| == 1 then lines[0] else lines[0] + "\n" + JoinLines(lines[1..])
  }

  /** One of the seven characters that end a line. */
  ghost predicate EndsLine(c: char) {
    c in {'\n', '\r', '\U{b}', '\U{c}', '\U{1c}', '\U{1d}', '\U{1e}'}
  }

  /** What stands between two lines: one such character, or a carriage return and a newline together. */
  ghost predicate Separates(sep: string, rest: string) {
    || sep == "\r\n"
    || (|sep| == 1 && EndsLine(sep[0]) && !(sep == "\r" && rest != "" && rest[0] == '\n'))
  }

  /** The text is the lines with a separator behind each, which may be missing behind the last if that is not empty. */
  ghost predicate IsLined(t: string, lines: seq<string>)
    decreases |lines|
  {
    if lines == [] then t == ""
    else
      var line := lines[0];
      && line <= t && (forall j :: 0 <= j < |line| ==> !EndsLine(line[j]))
      && ((t == line && line != "" && |lines| == 1)
          || exists sep, rest :: t == line + sep + rest && Separates(sep, rest) && IsLined(rest, lines[1..]))
  }

  lemma LinedMore(line: string, sep: string, rest: string, lines: seq<string>)
    requires (forall j :: 0 <= j < |line| ==> !EndsLine(line[j])) && Separates(sep, rest) && IsLined(rest, lines)
    ensures IsLined(line + sep + rest, [line] + lines)
  {
    hide EndsLine, Separates;
    assert ([line] + lines)[1..] == lines;
  }

  lemma LinedOnce(line: string)
    requires (forall j :: 0 <= j < |line| ==> !EndsLine(line[j])) && line != ""
    ensures IsLined(line, [line])
  {
    hide EndsLine;
  }

  /** The lines of a text are found at its line ends and nowhere else. */
  lemma {:induction false} SplitLinesExactly(t: string)
    ensures IsLined(t, SplitLines(t))
    decreases |t|
  {
    hide IsLined, EndsLine, LineLength;
    if t == "" {
      NothingLined();
    } else {
      var k := LineLength(t);
      BreaksExactly(t, k);
      var line := t[..k];
      if k == |t| {
        assert line == t;
        LinedOnce(t);
      } else {
        var n := if t[k] == '\r' && k + 1 < |t| && t[k + 1] == '\n' then k + 2 else k + 1;
        assert t == line + t[k..n] + t[n..];
        SplitLinesExactly(t[n..]);
        LinedMore(line, t[k..n], t[n..], SplitLines(t[n..]));
      }
    }
  }

  lemma NothingLined()
    ensures IsLined("", [])
  {
  }

  lemma FirstLine(t: string, lines: seq<string>)
    requires IsLined(t, lines) && lines != []
    ensures var k := |lines[0]|;
            && lines[0] <= t && (forall j :: 0 <= j < k ==> !EndsLine(t[j])) && (k < |t| ==> EndsLine(t[k]))
            && (k == |t| ==> lines == [t] && t != "")
            && (k < |t| ==>
                  var n := if t[k] == '\r' && k + 1 < |t| && t[k + 1] == '\n' then k + 2 else k + 1;
                  IsLined(t[n..], lines[1..]))
  {
    var k := |lines[0]|;
    if t != lines[0] || lines[0] == "" || |lines| != 1 {
      var sep, rest :| t == lines[0] + sep + rest && Separates(sep, rest) && IsLined(rest, lines[1..]);
      assert t[k] == sep[0];
      assert rest == t[k + |sep|..];
      assert |sep| == 1 && rest != "" ==> t[k + 1] == rest[0];
    }
  }

  /** There is only one such list of lines. */
  lemma {:induction false} LinedUnique(t: string, a: seq<string>, b: seq<string>)
    requires IsLined(t, a) && IsLined(t, b)
    ensures a == b
    decreases |t|
  {
    hide EndsLine;
    if a == [] || b == [] {
      if a != [] { FirstLine(t, a); }
      if b != [] { FirstLine(t, b); }
    } else {
      FirstLine(t, a);
      FirstLine(t, b);
      hide IsLined;
      var k := |a[0]|;
      assert k == |b[0]|;
      assert a[0] == t[..k] == b[0];
      if k < |t| {
        var n := if t[k] == '\r' && k + 1 < |t| && t[k + 1] == '\n' then k + 2 else k + 1;
        LinedUnique(t[n..], a[1..], b[1..]);
      }
      assert a == [a[0]] + a[1..] && b == [b[0]] + b[1..];
    }
  }

  lemma BreaksExactly(t: string, k: nat)
    requires k == LineLength(t)
    ensures forall j :: 0 <= j < k ==> !EndsLine(t[j])
    ensures k < |t| ==> EndsLine(t[k])
  {
    forall j | 0 <= j < |t| ensures EndsLine(t[j]) <==> IsBreak(t[j]) { EndsLineIsBreak(t[j]); }
  }

  lemma EndsLineIsBreak(c: char)
    ensures EndsLine(c) <==> IsBreak(c)
  {
  }

  // ----- dollar quotes -----

  /** Non-overlapping occurrences of `$$`. */
  function Dollars(s: string): nat {
    if |s| < 2 then 0
    else if s[0] == '$' && s[1] == '$' then 1 + Dollars(s[2..])
    else Dollars(s[1..])
  }

  ghost function DollarRun(n: nat): string {
    if n == 0 then "" else "$" + DollarRun(n - 1)
  }

  /** A run of dollar signs holds half as many pairs; `DollarsApart` adds up what stands between other characters. */
  lemma {:induction false} DollarsOfRun(n: nat)
    ensures |DollarRun(n)| == n && Dollars(DollarRun(n)) == n / 2
  {
    if n >= 2 {
      DollarsOfRun(n - 2);
      assert DollarRun(n)[2..] == DollarRun(n - 2);
    }
  }

  lemma {:induction false} DollarsPrefix(a: string, b: string)
    requires '$' !in a
    ensures Dollars(a + b) == Dollars(b)
  {
    if a == "" {
      assert a + b == b;
    } else {
      assert a[0] in a && (a + b)[0] == a[0] && (a + b)[1..] == a[1..] + b;
      DollarsPrefix(a[1..], b);
    }
  }

  lemma {:induction false} DollarsApart(a: string, c: char, b: string)
    requires c != '$'
    ensures Dollars(a + [c] + b) == Dollars(a) + Dollars(b)
    decreases |a|
  {
    var s := a + [c] + b;
    if a == "" {
      assert s[1..] == b;
    } else if |a| >= 2 && a[0] == '$' && a[1] == '$' {
      assert s[2..] == a[2..] + [c] + b;
      DollarsApart(a[2..], c, b);
    } else {
      assert s[1..] == a[1..] + [c] + b;
      DollarsApart(a[1..], c, b);
    }
  }

  // ----- the dimension substitution -----

  function DigitsEnd(s: string, i: nat): (j: nat)
    requires i <= |s|
    ensures i <= j <= |s| && (forall k :: i <= k < j ==> IsDigit(s[k])) && (j < |s| ==> !IsDigit(s[j]))
    decreases |s| - i
  {
    if i < |s| && IsDigit(s[i]) then DigitsEnd(s, i + 1) else i
  }

  /** The length of a match of the vector pattern at the start of `s`, 0 if there is none. */
  function VectorLength(s: string): (n: nat)
    ensures n <= |s|
  {
    if "vector(" <= s then
      var k := DigitsEnd(s, 7);
      if 7 < k < |s| && s[k] == ')' then k + 1 else 0
    else 0
  }

  function Vector(dimension: int): string {
    "vector(" + PrintInt(dimension) + ")"
  }

  function Render(t: string, dimension: int): string
    decreases |t|
  {
    if t == "" then ""
    else if VectorLength(t) > 0 then Vector(dimension) + Render(t[VectorLength(t)..], dimension)
    else [t[0]] + Render(t[1..], dimension)
  }

  /** A character that can be no part of a match. */
  predicate Outside(c: char) {
    !IsLetter(c) && !IsDigit(c) && c != '(' && c != ')'
  }

  lemma DigitsEndIs(s: string, i: nat, e: nat)
    requires i <= e <= |s| && (forall k :: i <= k < e ==> IsDigit(s[k])) && (e < |s| ==> !IsDigit(s[e]))
    ensures DigitsEnd(s, i) == e
    decreases e - i
  {
  }

  lemma MatchedIsInside(s: string, i: nat)
    requires "vector(" <= s && i < |s| && Outside(s[i])
    ensures i >= 7
  {
    forall k | 0 <= k < 7 ensures !Outside(s[k]) { assert s[k] == "vector("[k]; }
  }

  /** A match is decided by the text up to any character outside the pattern. */
  lemma VectorLocal(a: string, c: char, b: string)
    requires Outside(c)
    ensures VectorLength(a + [c] + b) == VectorLength(a)
  {
    var s := a + [c] + b;
    assert s[|a|] == c && a <= s;
    assert "vector(" <= a ==> "vector(" <= s;
    if "vector(" <= s {
      MatchedIsInside(s, |a|);
      assert "vector(" <= a;
      DigitsEndIs(s, 7, DigitsEnd(a, 7));
    }
  }

  lemma {:induction false} RenderApart(a: string, c: char, b: string, d: int)
    requires Outside(c)
    ensures Render(a + [c] + b, d) == Render(a, d) + [c] + Render(b, d)
    decreases |a|
  {
    hide Render, Vector, VectorLength, Outside;
    var s := a + [c] + b;
    VectorLocal(a, c, b);
    if a == "" {
      assert s[0] == c && s[1..] == b;
      NothingMatches();
      RenderNothing(d);
      RenderPlain(s, d);
      assert "" + [c] + Render(b, d) == [c] + Render(b, d);
    } else if VectorLength(a) > 0 {
      var n := VectorLength(a);
      assert s[n..] == a[n..] + [c] + b;
      RenderMatch(a, d);
      RenderMatch(s, d);
      RenderApart(a[n..], c, b, d);
      Reassociate(Vector(d), Render(a[n..], d), [c], Render(b, d));
    } else {
      assert s[0] == a[0] && s[1..] == a[1..] + [c] + b;
      RenderPlain(a, d);
      RenderPlain(s, d);
      RenderApart(a[1..], c, b, d);
      Reassociate([a[0]], Render(a[1..], d), [c], Render(b, d));
    }
  }

  lemma NothingMatches()
    ensures VectorLength("") == 0
  {
  }

  lemma Reassociate(a: string, b: string, c: string, d: string)
    ensures a + (b + c + d) == (a + b) + c + d
  {
  }

  lemma VectorEnds(t: string)
    requires VectorLength(t) > 0
    ensures t[0] == 'v' && t[VectorLength(t) - 1] == ')'
  {
    assert t[0] == "vector("[0];
  }

  lemma RenderMatch(t: string, d: int)
    requires VectorLength(t) > 0
    ensures Render(t, d) == Vector(d) + Render(t[VectorLength(t)..], d)
  {
  }

  lemma RenderPlain(t: string, d: int)
    requires t != "" && VectorLength(t) == 0
    ensures Render(t, d) == [t[0]] + Render(t[1..], d)
  {
  }

  lemma NoVector(t: string)
    requires t != "" && t[0] != 'v'
    ensures VectorLength(t) == 0
  {
    hide VectorLength;
    if VectorLength(t) > 0 { VectorEnds(t); }
  }

  lemma VectorText(d: int)
    ensures |Vector(d)| >= 8 && Vector(d)[0] == 'v' && Vector(d)[|Vector(d)| - 1] == ')'
  {
  }

  /** Rendering keeps the first and the last character. */
  lemma {:induction false} RenderEnds(t: string, d: int)
    requires t != ""
    ensures Render(t, d) != "" && Render(t, d)[0] == t[0]
    ensures Render(t, d)[|Render(t, d)| - 1] == t[|t| - 1]
    decreases |t|
  {
    hide Render, Vector, VectorLength;
    VectorText(d);
    if VectorLength(t) > 0 {
      var n := VectorLength(t);
      VectorEnds(t);
      RenderMatch(t, d);
      if n < |t| { RenderEnds(t[n..], d); } else { RenderNothing(d); }
    } else {
      RenderPlain(t, d);
      if 1 < |t| { RenderEnds(t[1..], d); } else { RenderNothing(d); }
    }
  }

  lemma RenderNothing(d: int)
    ensures Render("", d) == ""
  {
  }

  /** Rendering puts no character outside the pattern where there was none. */
  lemma {:induction false} RenderKeepsFree(t: string, d: int, c: char)
    requires Outside(c) && c != '-' && c !in t
    ensures c !in Render(t, d)
    decreases |t|
  {
    if t != "" {
      var n := if VectorLength(t) > 0 then VectorLength(t) else 1;
      RenderKeepsFree(t[n..], d, c);
      PrintedFree(d, c);
    }
  }

  lemma PrintedFree(d: int, c: char)
    requires Outside(c) && c != '-'
    ensures c !in Vector(d)
  {
    var digits := PrintNat(if d < 0 then -d else d);
    assert c !in digits by {
      forall i | 0 <= i < |digits| ensures digits[i] != c { assert IsDigit(digits[i]); }
    }
  }

  lemma {:induction false} RenderDollars(t: string, d: int)
    ensures Dollars(Render(t, d)) == Dollars(t)
    decreases |t|
  {
    if t == "" {
    } else if VectorLength(t) > 0 {
      var n := VectorLength(t);
      RenderDollars(t[n..], d);
      PrintedFree(d, '$');
      DollarsPrefix(Vector(d), Render(t[n..], d));
      assert t == t[..n] + t[n..];
      VectorFree(t, '$');
      DollarsPrefix(t[..n], t[n..]);
    } else if |t| >= 2 && t[0] == '$' && t[1] == '$' {
      RenderDollars(t[2..], d);
      assert VectorLength(t[1..]) == 0;
      assert Render(t, d) == [t[0]] + ([t[1]] + Render(t[2..], d));
      assert Render(t, d)[2..] == Render(t[2..], d);
    } else {
      RenderDollars(t[1..], d);
      if |t| >= 2 { RenderEnds(t[1..], d); }
      assert Render(t, d)[1..] == Render(t[1..], d);
    }
  }

  lemma VectorFree(t: string, c: char)
    requires Outside(c)
    ensures c !in t[..VectorLength(t)]
  {
    var n := VectorLength(t);
    if n > 0 {
      assert t[..n] == "vector(" + t[7..n - 1] + ")";
      forall i | 0 <= i < n ensures t[i] != c {
        if i < 7 { assert t[i] == "vector("[i]; }
      }
    }
  }

  lemma {:induction false} RenderLStrip(t: string, d: int)
    ensures LStrip(Render(t, d)) == Render(LStrip(t), d)
  {
    hide Render, LStrip, RStrip, IsSpace;
    RenderNothing(d);
    if t == "" {
      NothingToStrip();
    } else {
      RenderEnds(t, d);
      LStripStep(t);
      LStripStep(Render(t, d));
      if IsSpace(t[0]) {
        SpaceIsNoVector(t[0]);
        NoVector(t);
        RenderPlain(t, d);
        assert Render(t, d)[1..] == Render(t[1..], d);
        RenderLStrip(t[1..], d);
      }
    }
  }

  lemma SpaceIsNoVector(c: char)
    ensures IsSpace(c) ==> c != 'v' && Outside(c)
  {
  }

  lemma {:induction false} RenderRStrip(t: string, d: int)
    ensures RStrip(Render(t, d)) == Render(RStrip(t), d)
  {
    hide Render, LStrip, RStrip, IsSpace, Outside;
    RenderNothing(d);
    if t == "" {
      NothingToStrip();
    } else {
      RenderEnds(t, d);
      RStripStep(t);
      RStripStep(Render(t, d));
      var n := |t| - 1;
      if IsSpace(t[n]) {
        SpaceIsNoVector(t[n]);
        assert t == t[..n] + [t[n]] + "";
        RenderApart(t[..n], t[n], "", d);
        assert Render(t, d) == Render(t[..n], d) + [t[n]];
        RenderRStrip(t[..n], d);
      }
    }
  }

  /** Rendering commutes with stripping. */
  lemma RenderStrip(t: string, d: int)
    ensures Strip(Render(t, d)) == Render(Strip(t), d)
  {
    RenderLStrip(t, d);
    RenderRStrip(LStrip(t), d);
  }

  // ----- rendering twice -----

  /** A text without `v` is copied. */
  lemma {:induction false} RenderCopies(w: string, r: string, d: int)
    requires 'v' !in w
    ensures Render(w + r, d) == w + Render(r, d)
  {
    hide Render, VectorLength;
    if w == "" {
      assert w + r == r;
    } else {
      assert (w + r)[0] == w[0] && (w + r)[1..] == w[1..] + r;
      NoVector(w + r);
      RenderPlain(w + r, d);
      RenderCopies(w[1..], r, d);
      assert w == [w[0]] + w[1..];
    }
  }

  /** What a rendered text starts with, if it has no `v`, was there before. */
  lemma {:induction false} RenderCopied(w: string, t: string, d: int)
    requires 'v' !in w && w <= Render(t, d)
    ensures w <= t
  {
    if w != "" {
      if t != "" { RenderEnds(t, d); }
      assert w[0] == Render(t, d)[0] == t[0];
      NoVector(t);
      RenderPlain(t, d);
      hide Render, VectorLength;
      assert Render(t, d)[1..] == Render(t[1..], d);
      assert w[1..] <= Render(t[1..], d);
      RenderCopied(w[1..], t[1..], d);
      assert t == [t[0]] + t[1..] && w == [w[0]] + w[1..];
    }
  }

  lemma VectorShape(s: string, digits: string, rest: string)
    requires digits != "" && (forall i :: 0 <= i < |digits| ==> IsDigit(digits[i]))
    requires s == "vector(" + digits + ")" + rest
    ensures VectorLength(s) == 8 + |digits|
  {
    assert "vector(" <= s;
    forall k | 7 <= k < 7 + |digits| ensures IsDigit(s[k]) { assert s[k] == digits[k - 7]; }
    assert s[7 + |digits|] == ')';
    DigitsEndIs(s, 7, 7 + |digits|);
  }

  lemma VectorSplit(u: string)
    requires VectorLength(u) > 0
    ensures var n := VectorLength(u);
            && n >= 9 && u == "vector(" + u[7..n - 1] + ")" + u[n..]
            && (forall i :: 7 <= i < n - 1 ==> IsDigit(u[i]))
            && 'v' !in u[1..n]
  {
    var n := VectorLength(u);
    forall i | 1 <= i < n ensures u[i] != 'v' {
      if i < 7 { assert u[i] == "vector("[i]; }
    }
  }

  /** A match at the head of a text whose tail was rendered was there before. */
  lemma OldMatch(t: string, d: int)
    requires t != "" && VectorLength([t[0]] + Render(t[1..], d)) > 0
    ensures VectorLength(t) > 0
  {
    hide VectorLength, Render;
    var u := [t[0]] + Render(t[1..], d);
    var n := VectorLength(u);
    VectorSplit(u);
    var digits := u[7..n - 1];
    var w := u[1..n];
    assert w == Render(t[1..], d)[..n - 1];
    RenderCopied(w, t[1..], d);
    HeadMatches(t, u, n);
    VectorShape(t, digits, t[n..]);
  }

  lemma HeadMatches(t: string, u: string, n: nat)
    requires 9 <= n <= |u| && t != "" && t[0] == u[0] && u[1..n] <= t[1..]
    requires u == "vector(" + u[7..n - 1] + ")" + u[n..]
    ensures n <= |t| && t == "vector(" + u[7..n - 1] + ")" + t[n..]
  {
    assert u[..n] == "vector(" + u[7..n - 1] + ")";
    assert t[..n] == [t[0]] + t[1..n] == [u[0]] + u[1..n] == u[..n];
    assert t == t[..n] + t[n..];
  }

  /** Rendering the tail of a text creates no match at its head. */
  lemma NoNewMatch(t: string, d: int)
    requires t != "" && VectorLength(t) == 0
    ensures VectorLength([t[0]] + Render(t[1..], d)) == 0
  {
    if VectorLength([t[0]] + Render(t[1..], d)) > 0 { OldMatch(t, d); }
  }

  lemma PrintedDigits(d: nat)
    ensures PrintInt(d) != "" && forall i :: 0 <= i < |PrintInt(d)| ==> IsDigit(PrintInt(d)[i])
  {
  }

  /** The last dimension wins, whenever the first is one the pattern accepts. */
  lemma {:induction false} RenderLastWins(t: string, a: nat, b: int)
    ensures Render(Render(t, a), b) == Render(t, b)
    decreases |t|
  {
    if t == "" {
    } else if VectorLength(t) > 0 {
      var rest := t[VectorLength(t)..];
      RenderLastWins(rest, a, b);
      PrintedDigits(a);
      var u := Render(t, a);
      VectorShape(u, PrintInt(a), Render(rest, a));
      assert u[VectorLength(u)..] == Render(rest, a);
    } else {
      RenderLastWins(t[1..], a, b);
      NoNewMatch(t, a);
      var u := Render(t, a);
      assert u[1..] == Render(t[1..], a);
    }
  }

  lemma NegativeNoMatch(a: int, r: string)
    requires a < 0
    ensures VectorLength(Vector(a) + r) == 0
  {
    assert (Vector(a) + r)[7] == '-';
  }

  lemma VectorHead(a: int)
    ensures Vector(a) == ['v'] + ("ector(" + PrintInt(a) + ")")
  {
  }

  lemma NegativeVector(a: int, r: string, b: int)
    requires a < 0
    ensures Render(Vector(a) + r, b) == Vector(a) + Render(r, b)
  {
    hide *;
    var tail := "ector(" + PrintInt(a) + ")";
    var u := Vector(a) + r;
    VectorHead(a);
    NegativeNoMatch(a, r);
    TailFree(a);
    RenderCopies(tail, r, b);
    RenderPlain(u, b);
    assert u[1..] == tail + r;
  }

  /** A negative dimension renders as text the pattern no longer matches. */
  lemma {:induction false} RenderNegative(t: string, a: int, b: int)
    requires a < 0
    ensures Render(Render(t, a), b) == Render(t, a)
    decreases |t|
  {
    hide Render, Vector, VectorLength;
    RenderNothing(a);
    RenderNothing(b);
    if t == "" {
    } else if VectorLength(t) > 0 {
      var rest := t[VectorLength(t)..];
      RenderMatch(t, a);
      RenderNegative(rest, a, b);
      NegativeVector(a, Render(rest, a), b);
    } else {
      RenderNegative(t[1..], a, b);
      NoNewMatch(t, a);
      RenderPlain(t, a);
      var u := Render(t, a);
      RenderPlain(u, b);
      assert u[1..] == Render(t[1..], a);
    }
  }

  lemma TailFree(a: int)
    ensures 'v' !in "ector(" + PrintInt(a) + ")"
  {
    var digits := PrintNat(if a < 0 then -a else a);
    forall i | 0 <= i < |digits| ensures digits[i] != 'v' { assert IsDigit(digits[i]); }
  }

  predicate HasVector(t: string) {
    t != "" && (VectorLength(t) > 0 || HasVector(t[1..]))
  }

  lemma {:induction false} RenderAbsent(t: string, d: int)
    requires !HasVector(t)
    ensures Render(t, d) == t
  {
    if t != "" { RenderAbsent(t[1..], d); }
  }

  lemma FirstParen(s: string, p: string, q: string, y: string)
    requires p <= s && s == q + ")" + y && forall i :: 0 <= i < |p| ==> p[i] != ')'
    ensures |p| <= |q|
  {
    assert s[|q|] == ')';
    assert forall i :: 0 <= i < |p| ==> s[i] == p[i];
  }

  lemma PrintedUnique(a: int, b: int, x: string, y: string)
    requires PrintInt(a) + ")" + x == PrintInt(b) + ")" + y
    ensures a == b
  {
    var p, q := PrintInt(a), PrintInt(b);
    PrintedNoParen(a);
    PrintedNoParen(b);
    ParsePrintInt(a);
    ParsePrintInt(b);
    hide PrintInt, ParseInt;
    var s := p + ")" + x;
    FirstParen(s, p, q, y);
    FirstParen(s, q, p, x);
    assert p == s[..|p|] && q == s[..|q|];
  }

  lemma PrintedNoParen(a: int)
    ensures forall i :: 0 <= i < |PrintInt(a)| ==> PrintInt(a)[i] != ')'
  {
    var digits := PrintNat(if a < 0 then -a else a);
    assert forall i :: 0 <= i < |digits| ==> IsDigit(digits[i]);
  }

  lemma VectorUnique(a: int, b: int, x: string, y: string)
    requires Vector(a) + x == Vector(b) + y
    ensures a == b
  {
    hide PrintInt, Vector;
    VectorRest(a, x);
    VectorRest(b, y);
    PrintedUnique(a, b, x, y);
  }

  lemma VectorRest(a: int, x: string)
    ensures |Vector(a) + x| >= 7 && (Vector(a) + x)[7..] == PrintInt(a) + ")" + x
  {
    hide PrintInt;
    assert Vector(a) + x == "vector(" + (PrintInt(a) + ")" + x);
  }

  lemma {:induction false} RenderPresent(t: string, a: int, b: int)
    requires HasVector(t) && Render(t, a) == Render(t, b)
    ensures a == b
    decreases |t|
  {
    hide Render, Vector, VectorLength;
    if VectorLength(t) > 0 {
      var rest := t[VectorLength(t)..];
      RenderMatch(t, a);
      RenderMatch(t, b);
      VectorUnique(a, b, Render(rest, a), Render(rest, b));
    } else {
      RenderPlain(t, a);
      RenderPlain(t, b);
      assert ([t[0]] + Render(t[1..], a))[1..] == Render(t[1..], a);
      assert ([t[0]] + Render(t[1..], b))[1..] == Render(t[1..], b);
      RenderPresent(t[1..], a, b);
    }
  }

  /**
   Rendering again replaces the dimension exactly when the first one was not
   negative, or was the same, or there was nothing to replace.
   */
  lemma RenderAgainExactly(t: string, a: int, b: int)
    ensures Render(Render(t, a), b) == Render(t, b) <==> a >= 0 || a == b || !HasVector(t)
  {
    if a >= 0 {
      RenderLastWins(t, a, b);
    } else {
      RenderNegative(t, a, b);
      if !HasVector(t) {
        RenderAbsent(t, a);
        RenderAbsent(t, b);
      } else if Render(t, a) == Render(t, b) {
        RenderPresent(t, a, b);
      }
    }
  }

  // ----- what rendering does to a text -----

  /** From `i` up to `e` stands a vector type with a dimension in decimal digits. */
  ghost predicate Marks(s: string, i: nat, e: nat) {
    && i + 9 <= e <= |s| && s[i..i + 7] == "vector(" && s[e - 1] == ')'
    && forall k :: i + 7 <= k < e - 1 ==> '0' <= s[k] <= '9'
  }

  lemma MarksHere(s: string, e: nat)
    ensures Marks(s, 0, e) <==> e > 0 && VectorLength(s) == e
  {
    if Marks(s, 0, e) {
      assert "vector(" <= s by { assert s[..7] == s[0..7]; }
      DigitsEndIs(s, 7, e - 1);
    }
    if e > 0 && VectorLength(s) == e { VectorSplit(s); }
  }

  lemma MarksLater(s: string, n: nat, i: nat, e: nat)
    requires n <= |s|
    ensures Marks(s[n..], i, e) <==> Marks(s, i + n, e + n)
  {
    var t := s[n..];
    if i + 9 <= e && e + n <= |s| {
      assert t[i..i + 7] == s[i + n..i + n + 7];
      assert forall k :: i + n + 7 <= k < e + n - 1 ==> s[k] == t[k - n];
    }
  }

  /** No such type starts before position `i`. */
  ghost predicate MarkedFrom(s: string, i: nat) {
    forall j: nat, e: nat :: j < i ==> !Marks(s, j, e)
  }

  lemma NotHere(s: string, i: nat)
    requires MarkedFrom(s, i) && i > 0 && s != ""
    ensures VectorLength(s) == 0 && MarkedFrom(s[1..], i - 1)
  {
    hide VectorLength, Marks;
    MarksHere(s, VectorLength(s));
    forall j: nat, e: nat | j < i - 1 ensures !Marks(s[1..], j, e) { MarksLater(s, 1, j, e); }
  }

  /** A text without such a type stays as it is. */
  lemma {:induction false} RenderUnmarked(s: string, d: int)
    requires MarkedFrom(s, |s|)
    ensures Render(s, d) == s
  {
    hide Render, VectorLength, MarkedFrom;
    RenderNothing(d);
    if s != "" {
      NotHere(s, |s|);
      RenderPlain(s, d);
      RenderUnmarked(s[1..], d);
    }
  }

  /** Otherwise the first one takes the dimension, and the rest is rendered in the same way. */
  lemma {:induction false} RenderExactly(s: string, d: int, i: nat, e: nat)
    requires Marks(s, i, e) && MarkedFrom(s, i)
    ensures Render(s, d) == s[..i] + "vector(" + PrintInt(d) + ")" + Render(s[e..], d)
    decreases |s|
  {
    hide Render, VectorLength, MarkedFrom, PrintInt, Marks;
    EndsLater(s, i, e);
    if i == 0 {
      MarksHere(s, e);
      RenderMatch(s, d);
      assert s[..0] + Vector(d) == Vector(d);
    } else {
      NotHere(s, i);
      RenderPlain(s, d);
      MarksLater(s, 1, i - 1, e - 1);
      RenderExactly(s[1..], d, i - 1, e - 1);
      TextBehind(s, i, e, "vector(" + PrintInt(d) + ")", Render(s[e..], d));
    }
  }

  lemma TextBehind(s: string, i: nat, e: nat, x: string, y: string)
    requires 0 < i <= e <= |s|
    ensures s[1..][e - 1..] == s[e..]
    ensures [s[0]] + (s[1..][..i - 1] + x + y) == s[..i] + x + y
  {
    assert [s[0]] + s[1..][..i - 1] == s[..i];
    assert [s[0]] + (s[1..][..i - 1] + x + y) == ([s[0]] + s[1..][..i - 1]) + x + y;
  }

  lemma NothingMarked()
    ensures forall i: nat, e: nat :: !Marks("", i, e)
  {
  }

  /** Every dimension in a rendered text reads as the one it was rendered with. */
  lemma {:induction false} RenderedDimension(t: string, d: nat, i: nat, e: nat)
    requires Marks(Render(t, d), i, e)
    ensures ParseInt(Render(t, d)[i + 7..e - 1]) == Some(d as int)
    decreases |t|
  {
    hide Render, VectorLength, Vector, ParseInt, Marks;
    var u := Render(t, d);
    RenderNothing(d);
    assert t != "" by { if t == "" { NothingMarked(); } }
    if VectorLength(t) > 0 {
      var n := VectorLength(t);
      RenderMatch(t, d);
      RenderedHead(u, d, Render(t[n..], d), i, e);
      if i > 0 {
        var m := |Vector(d)|;
        assert u[m..] == Render(t[n..], d);
        EndsLater(u, i, e);
        MarksLater(u, m, i - m, e - m);
        RenderedDimension(t[n..], d, i - m, e - m);
        DigitsBehind(u, m, i, e);
      }
    } else {
      RenderPlain(t, d);
      NoNewMatch(t, d);
      MarksHere(u, e);
      assert i > 0;
      assert u[1..] == Render(t[1..], d);
      EndsLater(u, i, e);
      MarksLater(u, 1, i - 1, e - 1);
      RenderedDimension(t[1..], d, i - 1, e - 1);
      DigitsBehind(u, 1, i, e);
    }
  }

  lemma EndsLater(s: string, i: nat, e: nat)
    requires Marks(s, i, e)
    ensures i + 9 <= e <= |s|
  {
  }

  lemma DigitsBehind(u: string, m: nat, i: nat, e: nat)
    requires m <= i && i + 9 <= e <= |u|
    ensures u[i + 7..e - 1] == u[m..][i - m + 7..e - m - 1]
  {
    assert u[i + 7..e - 1] == u[m..][i - m + 7..e - m - 1];
  }

  /** A mark in a text that starts with a rendered type is that type, or lies behind it. */
  lemma RenderedHead(u: string, d: nat, rest: string, i: nat, e: nat)
    requires u == Vector(d) + rest && Marks(u, i, e)
    ensures if i == 0 then ParseInt(u[7..e - 1]) == Some(d as int) else |Vector(d)| <= i
  {
    PrintedDigits(d);
    ParsePrintInt(d);
    TailFree(d);
    hide PrintInt, ParseInt;
    var tail := "ector(" + PrintInt(d) + ")";
    VectorHead(d);
    assert u == "vector(" + PrintInt(d) + ")" + rest;
    if i == 0 {
      MarksHere(u, e);
      VectorShape(u, PrintInt(d), rest);
      assert u[7..e - 1] == PrintInt(d);
    } else {
      assert u[i..i + 7][0] == 'v';
      assert forall k :: 0 < k < |Vector(d)| ==> u[k] == tail[k - 1] && tail[k - 1] in tail;
    }
  }
}
