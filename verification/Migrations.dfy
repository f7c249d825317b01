/**
 Splitting a migration into statements: the scan over its lines, the buffers behind the
 statements, and how splitting meets joining, dollar quotes and rendering.
 */
module Migrations {
  import opened PyText
  import opened MigrationText

  predicate IsComment(line: string) {
    "--" <= Strip(line)
  }

  /** The stripped line ends in a semicolon. */
  predicate Closes(line: string) {
    Strip(line) != "" && Strip(line)[|Strip(line)| - 1] == ';'
  }

  function Toggled(inDollar: bool, line: string): bool {
    if Dollars(line) % 2 == 1 then !inDollar else inDollar
  }

  function Statement(buffer: seq<string>): string {
    Strip(JoinLines(buffer))
  }

  /** The statements of the remaining lines, given the open buffer and dollar state. */
  function Scan(lines: seq<string>, buffer: seq<string>, inDollar: bool): seq<string>
    decreases |lines|
  {
    if lines == [] then
      if Statement(buffer) == "" then [] else [Statement(buffer)]
    else if IsComment(lines[0]) then Scan(lines[1..], buffer, inDollar)
    else
      var now := Toggled(inDollar, lines[0]);
      if !now && Closes(lines[0]) then [Statement(buffer + [lines[0]])] + Scan(lines[1..], [], now)
      else Scan(lines[1..], buffer + [lines[0]], now)
  }

  function Statements(text: string): seq<string> {
    Scan(SplitLines(text), [], false)
  }

  function Kept(statements: seq<string>): seq<string> {
    if statements == [] then []
    else (if statements[0] == "" then [] else [statements[0]]) + Kept(statements[1..])
  }

  // ----- lines and stripping -----

  ghost predicate Spaces(s: string) {
    forall i :: 0 <= i < |s| ==> IsSpace(s[i])
  }

  lemma LStripSpaces(s: string)
    ensures LStrip(s) == "" <==> Spaces(s)
  {
    hide LStrip, IsSpace;
    LStripShape(s);
    var r := LStrip(s);
    if r != "" { assert r[0] == s[|s| - |r|]; }
  }

  lemma RStripSpaces(s: string)
    ensures RStrip(s) == "" <==> Spaces(s)
  {
    hide RStrip, IsSpace;
    RStripShape(s);
    var r := RStrip(s);
    if r != "" { assert r[|r| - 1] == s[|r| - 1]; }
  }

  lemma StripSpacesOnly(s: string)
    ensures Strip(s) == "" <==> Spaces(s)
  {
    hide LStrip, RStrip, IsSpace;
    LStripSpaces(s);
    LStripShape(s);
    RStripSpaces(LStrip(s));
  }

  lemma {:induction false} LStripJoin(a: string, b: string)
    ensures LStrip(a + b) == if Spaces(a) then LStrip(b) else LStrip(a) + b
  {
    if a == "" {
      assert a + b == b;
    } else {
      assert (a + b)[0] == a[0] && (a + b)[1..] == a[1..] + b;
      if IsSpace(a[0]) {
        LStripJoin(a[1..], b);
        SpacesTail(a);
      }
    }
  }

  lemma SpacesTail(s: string)
    requires s != "" && IsSpace(s[0])
    ensures Spaces(s) <==> Spaces(s[1..])
  {
    if Spaces(s[1..]) {
      forall i | 0 <= i < |s| ensures IsSpace(s[i]) { if i > 0 { assert s[i] == s[1..][i - 1]; } }
    }
  }

  lemma SpacesFront(s: string)
    requires s != ""
    ensures Spaces(s) <==> IsSpace(s[|s| - 1]) && Spaces(s[..|s| - 1])
  {
    hide IsSpace;
    var n := |s| - 1;
    assert s == s[..n] + [s[n]];
  }

  lemma {:induction false} RStripJoin(a: string, b: string)
    ensures RStrip(a + b) == if Spaces(b) then RStrip(a) else a + RStrip(b)
    decreases |b|
  {
    hide RStrip, IsSpace;
    var n := |b| - 1;
    if b == "" {
      assert a + b == a;
    } else {
      assert (a + b)[|a + b| - 1] == b[n] && (a + b)[..|a + b| - 1] == a + b[..n];
      RStripStep(b);
      RStripStep(a + b);
      SpacesFront(b);
      hide Spaces;
      if IsSpace(b[n]) { RStripJoin(a, b[..n]); }
    }
  }

  lemma StripLeft(s: string)
    ensures Strip(LStrip(s)) == Strip(s)
  {
    hide RStrip, IsSpace;
    LStripShape(s);
    var l := LStrip(s);
    assert LStrip(l) == l;
  }

  lemma RStripTail(s: string) returns (tail: string)
    ensures s == RStrip(s) + tail && Spaces(tail)
  {
    hide RStrip, IsSpace;
    RStripShape(s);
    tail := s[|RStrip(s)|..];
  }

  lemma StripRight(s: string)
    ensures Strip(RStrip(s)) == Strip(s)
  {
    hide LStrip, RStrip, Spaces;
    var r := RStrip(s);
    var tail := RStripTail(s);
    LStripJoin(r, tail);
    RStripJoin(LStrip(r), tail);
    StripSpacesOnly(r);
    LStripSpaces(r);
    LStripSpaces(tail);
    NothingToStrip();
  }

  lemma {:induction false} JoinSnoc(lines: seq<string>, x: string)
    requires lines != []
    ensures JoinLines(lines + [x]) == JoinLines(lines) + "\n" + x
  {
    if |lines| > 1 {
      assert (lines + [x])[1..] == lines[1..] + [x];
      JoinSnoc(lines[1..], x);
    } else {
      assert (lines + [x])[1..] == [x];
    }
  }

  // ----- the pieces between statement ends -----

  /** Lines read from dollar state `from` that close no statement and leave the state at `to`. */
  ghost predicate Open(lines: seq<string>, from: bool, to: bool)
    decreases |lines|
  {
    if lines == [] then from == to
    else
      var now := Toggled(from, lines[0]);
      !IsComment(lines[0]) && (now || !Closes(lines[0])) && Open(lines[1..], now, to)
  }

  /** Lines of which the last, and only the last, closes a statement. */
  ghost predicate Closed(lines: seq<string>, from: bool)
    decreases |lines|
  {
    && lines != [] && !IsComment(lines[0])
    && var now := Toggled(from, lines[0]);
       if |lines| == 1 then !now && Closes(lines[0])
       else (now || !Closes(lines[0])) && Closed(lines[1..], now)
  }

  /** The buffers behind the statements of a scan. */
  function Chunks(lines: seq<string>, buffer: seq<string>, inDollar: bool): seq<seq<string>>
    decreases |lines|
  {
    if lines == [] then
      if Statement(buffer) == "" then [] else [buffer]
    else if IsComment(lines[0]) then Chunks(lines[1..], buffer, inDollar)
    else
      var now := Toggled(inDollar, lines[0]);
      if !now && Closes(lines[0]) then [buffer + [lines[0]]] + Chunks(lines[1..], [], now)
      else Chunks(lines[1..], buffer + [lines[0]], now)
  }

  function StatementsOf(chunks: seq<seq<string>>): seq<string> {
    if chunks == [] then [] else [Statement(chunks[0])] + StatementsOf(chunks[1..])
  }

  lemma {:induction false} StatementsEach(chunks: seq<seq<string>>)
    ensures |StatementsOf(chunks)| == |chunks|
    ensures forall i :: 0 <= i < |chunks| ==> StatementsOf(chunks)[i] == Statement(chunks[i])
  {
    hide Statement;
    if chunks != [] { StatementsEach(chunks[1..]); }
  }

  lemma StatementsOfCons(chunk: seq<string>, chunks: seq<seq<string>>)
    ensures StatementsOf([chunk] + chunks) == [Statement(chunk)] + StatementsOf(chunks)
  {
    hide Statement;
    assert ([chunk] + chunks)[1..] == chunks;
  }

  lemma {:induction false} ScanIsChunks(lines: seq<string>, buffer: seq<string>, inDollar: bool)
    ensures Scan(lines, buffer, inDollar) == StatementsOf(Chunks(lines, buffer, inDollar))
    decreases |lines|
  {
    hide Statement, IsComment, Closes, Toggled, StatementsOf;
    StatementsOfCons(buffer, []);
    StatementsOfNothing();
    assert [buffer] + [] == [buffer];
    if lines != [] {
      if IsComment(lines[0]) {
        ScanIsChunks(lines[1..], buffer, inDollar);
      } else {
        var now := Toggled(inDollar, lines[0]);
        if !now && Closes(lines[0]) {
          ScanIsChunks(lines[1..], [], now);
          StatementsOfCons(buffer + [lines[0]], Chunks(lines[1..], [], now));
        } else {
          ScanIsChunks(lines[1..], buffer + [lines[0]], now);
        }
      }
    }
  }

  lemma StatementsOfNothing()
    ensures StatementsOf([]) == []
  {
  }

  lemma {:induction false} OpenSnoc(lines: seq<string>, from: bool, to: bool, x: string)
    requires Open(lines, from, to) && !IsComment(x)
    ensures !Toggled(to, x) && Closes(x) ==> Closed(lines + [x], from)
    ensures Toggled(to, x) || !Closes(x) ==> Open(lines + [x], from, Toggled(to, x))
    decreases |lines|
  {
    hide Toggled, Closes, IsComment;
    if lines == [] {
      assert (lines + [x])[1..] == [];
    } else {
      assert (lines + [x])[1..] == lines[1..] + [x];
      OpenSnoc(lines[1..], Toggled(from, lines[0]), to, x);
    }
  }

  /** A chunk is closed, or it is the last one, open, and not blank. */
  ghost predicate Shaped(chunks: seq<seq<string>>) {
    forall i :: 0 <= i < |chunks| ==>
      || Closed(chunks[i], false)
      || (i == |chunks| - 1 && Statement(chunks[i]) != "" && OpenSomehow(chunks[i]))
  }

  ghost predicate OpenSomehow(lines: seq<string>) {
    Open(lines, false, true) || Open(lines, false, false)
  }

  lemma {:induction false} ChunksShaped(lines: seq<string>, buffer: seq<string>, inDollar: bool)
    requires Open(buffer, false, inDollar)
    ensures Shaped(Chunks(lines, buffer, inDollar))
    decreases |lines|
  {
    hide Statement, IsComment, Closes, Toggled, Open, Closed;
    if lines != [] {
      if IsComment(lines[0]) {
        ChunksShaped(lines[1..], buffer, inDollar);
      } else {
        var now := Toggled(inDollar, lines[0]);
        OpenSnoc(buffer, false, inDollar, lines[0]);
        if !now && Closes(lines[0]) {
          OpenNothing();
          ChunksShaped(lines[1..], [], now);
        } else {
          ChunksShaped(lines[1..], buffer + [lines[0]], now);
        }
      }
    }
  }

  lemma OpenNothing()
    ensures Open([], false, false)
  {
  }

  lemma {:induction false} ScanOpen(lines: seq<string>, rest: seq<string>, before: seq<string>, from: bool, to: bool)
    requires Open(lines, from, to)
    ensures Scan(lines + rest, before, from) == Scan(rest, before + lines, to)
    decreases |lines|
  {
    hide Statement, IsComment, Closes, Toggled;
    if lines == [] {
      assert lines + rest == rest && before + lines == before;
    } else {
      assert (lines + rest)[1..] == lines[1..] + rest;
      assert before + lines == before + [lines[0]] + lines[1..];
      ScanOpen(lines[1..], rest, before + [lines[0]], Toggled(from, lines[0]), to);
    }
  }

  lemma {:induction false} ScanClosed(lines: seq<string>, rest: seq<string>, before: seq<string>, from: bool)
    requires Closed(lines, from)
    ensures Scan(lines + rest, before, from) == [Statement(before + lines)] + Scan(rest, [], false)
    decreases |lines|
  {
    hide Statement, IsComment, Closes, Toggled;
    assert (lines + rest)[1..] == lines[1..] + rest;
    if |lines| == 1 {
      assert lines == [lines[0]] && lines[1..] + rest == rest;
    } else {
      assert before + lines == before + [lines[0]] + lines[1..];
      ScanClosed(lines[1..], rest, before + [lines[0]], Toggled(from, lines[0]));
    }
  }

  // ----- trimming a chunk -----

  function TrimFront(lines: seq<string>): seq<string> {
    if lines == [] then []
    else if LStrip(lines[0]) == "" then TrimFront(lines[1..])
    else [LStrip(lines[0])] + lines[1..]
  }

  function TrimBack(lines: seq<string>): seq<string> {
    if lines == [] then []
    else
      var n := |lines| - 1;
      if RStrip(lines[n]) == "" then TrimBack(lines[..n]) else lines[..n] + [RStrip(lines[n])]
  }

  function Trim(lines: seq<string>): seq<string> {
    TrimBack(TrimFront(lines))
  }

  lemma NewlineSpaces(a: string)
    ensures Spaces(a + "\n") <==> Spaces(a)
    ensures Spaces("\n" + a) <==> Spaces(a)
  {
    assert IsSpace('\n');
    assert forall i :: 0 <= i < |a| ==> (a + "\n")[i] == a[i] && ("\n" + a)[i + 1] == a[i];
  }

  lemma {:induction false} TrimFrontJoin(lines: seq<string>)
    ensures JoinLines(TrimFront(lines)) == LStrip(JoinLines(lines))
  {
    hide LStrip, Spaces;
    NothingToStrip();
    if lines != [] {
      var a := lines[0];
      LStripSpaces(a);
      LStripSpaces(a + "\n");
      NewlineSpaces(a);
      if |lines| > 1 {
        var b := JoinLines(lines[1..]);
        LStripJoin(a + "\n", b);
        LStripJoin(a, "\n");
        if LStrip(a) == "" {
          TrimFrontJoin(lines[1..]);
        } else {
          assert ([LStrip(a)] + lines[1..])[1..] == lines[1..];
          assert LStrip(a) + "\n" + b == LStrip(a + "\n") + b;
        }
      } else if LStrip(a) == "" {
        assert lines[1..] == [];
      } else {
        assert lines[1..] == [];
        assert [LStrip(a)] + [] == [LStrip(a)];
      }
    }
  }

  lemma {:induction false} TrimBackJoin(lines: seq<string>)
    ensures JoinLines(TrimBack(lines)) == RStrip(JoinLines(lines))
  {
    hide RStrip, Spaces, JoinLines;
    NothingToStrip();
    if lines == [] {
      JoinNothing();
    } else {
      var n := |lines| - 1;
      var front, x := lines[..n], lines[n];
      assert lines == front + [x];
      RStripSpaces(x);
      JoinOne(x);
      JoinOne(RStrip(x));
      if n == 0 {
        assert front == [];
        if RStrip(x) == "" { TrimBackJoin(front); JoinNothing(); } else { assert front + [RStrip(x)] == [RStrip(x)]; }
      } else {
        JoinSnoc(front, x);
        JoinSnoc(front, RStrip(x));
        var a := JoinLines(front);
        assert a + "\n" + x == a + ("\n" + x);
        RStripJoin(a, "\n" + x);
        RStripJoin("\n", x);
        NewlineSpaces(x);
        assert a + "\n" + RStrip(x) == a + ("\n" + RStrip(x));
        if RStrip(x) == "" { TrimBackJoin(front); }
      }
    }
  }

  lemma JoinNothing()
    ensures JoinLines([]) == ""
  {
  }

  lemma JoinOne(x: string)
    ensures JoinLines([x]) == x
  {
  }

  /** A statement is its trimmed lines, joined. */
  lemma TrimJoin(lines: seq<string>)
    ensures JoinLines(Trim(lines)) == Statement(lines)
  {
    TrimFrontJoin(lines);
    TrimBackJoin(TrimFront(lines));
  }

  // ----- trimming keeps the shape -----

  /** Two lines the scan cannot tell apart. */
  ghost predicate SameMarks(a: string, b: string) {
    IsComment(a) == IsComment(b) && Closes(a) == Closes(b) && Dollars(a) == Dollars(b)
  }

  lemma SpacesDollars(s: string)
    requires Spaces(s)
    ensures Dollars(s) == 0
  {
    assert '$' !in s;
    assert s + "" == s;
    DollarsPrefix(s, "");
  }

  lemma {:induction false} DollarsTail(a: string, b: string)
    requires Spaces(b)
    ensures Dollars(a + b) == Dollars(a)
  {
    if b == "" {
      assert a + b == a;
    } else {
      assert a + b == a + [b[0]] + b[1..];
      assert Spaces(b[1..]);
      DollarsApart(a, b[0], b[1..]);
      SpacesDollars(b[1..]);
    }
  }

  lemma LStripHead(s: string) returns (head: string)
    ensures s == head + LStrip(s) && Spaces(head)
  {
    hide LStrip, IsSpace;
    LStripShape(s);
    head := s[..|s| - |LStrip(s)|];
  }

  lemma SpacesNoDollar(s: string)
    requires Spaces(s)
    ensures '$' !in s
  {
  }

  lemma LStripMarks(s: string)
    ensures SameMarks(LStrip(s), s)
  {
    hide LStrip, Spaces, Dollars, Strip;
    StripLeft(s);
    var head := LStripHead(s);
    SpacesNoDollar(head);
    DollarsPrefix(head, LStrip(s));
  }

  lemma RStripMarks(s: string)
    ensures SameMarks(RStrip(s), s)
  {
    StripRight(s);
    var tail := RStripTail(s);
    DollarsTail(RStrip(s), tail);
  }

  lemma BlankMarks(s: string, d: bool)
    requires Spaces(s)
    ensures !Closes(s) && Toggled(d, s) == d
  {
    StripSpacesOnly(s);
    SpacesDollars(s);
  }

  lemma MarksToggle(a: string, b: string, d: bool)
    requires SameMarks(a, b)
    ensures Toggled(d, a) == Toggled(d, b) && IsComment(a) == IsComment(b) && Closes(a) == Closes(b)
  {
  }

  lemma {:induction false} TrimFrontShape(lines: seq<string>, from: bool, to: bool)
    ensures Open(lines, from, to) ==> Open(TrimFront(lines), from, to)
    ensures Closed(lines, from) ==> Closed(TrimFront(lines), from)
    decreases |lines|
  {
    hide LStrip, IsComment, Closes, Toggled, Spaces, SameMarks;
    if lines != [] {
      var x := lines[0];
      LStripSpaces(x);
      if LStrip(x) == "" {
        BlankMarks(x, from);
        TrimFrontShape(lines[1..], from, to);
      } else {
        LStripMarks(x);
        MarksToggle(LStrip(x), x, from);
        var y := [LStrip(x)] + lines[1..];
        assert y[1..] == lines[1..];
      }
    }
  }

  lemma {:induction false} OpenSplit(lines: seq<string>, x: string, from: bool, to: bool) returns (mid: bool)
    requires Open(lines + [x], from, to)
    ensures Open(lines, from, mid) && !IsComment(x) && to == Toggled(mid, x) && (to || !Closes(x))
    decreases |lines|
  {
    hide IsComment, Closes, Toggled;
    var all := lines + [x];
    if lines == [] {
      assert all[1..] == [];
      mid := from;
    } else {
      assert all[0] == lines[0] && all[1..] == lines[1..] + [x];
      mid := OpenSplit(lines[1..], x, Toggled(from, lines[0]), to);
    }
  }

  lemma {:induction false} ClosedSplit(lines: seq<string>, x: string, from: bool) returns (mid: bool)
    requires Closed(lines + [x], from)
    ensures Open(lines, from, mid) && !IsComment(x) && !Toggled(mid, x) && Closes(x)
    decreases |lines|
  {
    hide IsComment, Closes, Toggled;
    var all := lines + [x];
    if lines == [] {
      mid := from;
    } else {
      assert all[0] == lines[0] && all[1..] == lines[1..] + [x];
      mid := ClosedSplit(lines[1..], x, Toggled(from, lines[0]));
    }
  }

  lemma {:induction false} TrimBackOpen(lines: seq<string>, from: bool, to: bool)
    requires Open(lines, from, to)
    ensures Open(TrimBack(lines), from, to)
    decreases |lines|
  {
    hide RStrip, IsComment, Closes, Toggled, Spaces, SameMarks, Open;
    if lines != [] {
      var n := |lines| - 1;
      var front, x := lines[..n], lines[n];
      assert lines == front + [x];
      var mid := OpenSplit(front, x, from, to);
      RStripSpaces(x);
      if RStrip(x) == "" {
        BlankMarks(x, mid);
        TrimBackOpen(front, from, to);
      } else {
        RStripMarks(x);
        MarksToggle(RStrip(x), x, mid);
        OpenSnoc(front, from, mid, RStrip(x));
      }
    }
  }

  lemma TrimBackClosed(lines: seq<string>, from: bool)
    requires Closed(lines, from)
    ensures Closed(TrimBack(lines), from)
  {
    assert lines != [];
    hide RStrip, IsComment, Closes, Toggled, Spaces, SameMarks, Open, Closed;
    var n := |lines| - 1;
    var front, x := lines[..n], lines[n];
    assert lines == front + [x];
    var mid := ClosedSplit(front, x, from);
    RStripSpaces(x);
    RStripMarks(x);
    MarksToggle(RStrip(x), x, mid);
    if RStrip(x) == "" { BlankMarks(x, mid); }
    OpenSnoc(front, from, mid, RStrip(x));
  }

  lemma TrimOpen(lines: seq<string>, to: bool)
    requires Open(lines, false, to)
    ensures Open(Trim(lines), false, to)
  {
    TrimFrontShape(lines, false, to);
    TrimBackOpen(TrimFront(lines), false, to);
  }

  lemma TrimClosed(lines: seq<string>)
    requires Closed(lines, false)
    ensures Closed(Trim(lines), false)
  {
    TrimFrontShape(lines, false, false);
    TrimBackClosed(TrimFront(lines), false);
  }

  // ----- splitting a joined text -----

  ghost predicate Breakless(lines: seq<string>) {
    forall i :: 0 <= i < |lines| ==> Unbroken(lines[i])
  }

  ghost predicate Unbroken(line: string) {
    forall j :: 0 <= j < |line| ==> !IsBreak(line[j])
  }

  lemma LineLengthIs(t: string, k: nat)
    requires k <= |t| && (forall i :: 0 <= i < k ==> !IsBreak(t[i])) && (k < |t| ==> IsBreak(t[k]))
    ensures LineLength(t) == k
  {
    var n := LineLength(t);
    assert n < k ==> n < |t|;
  }

  lemma SplitFirst(line: string, rest: string)
    requires Unbroken(line)
    ensures SplitLines(line + "\n" + rest) == [line] + SplitLines(rest)
  {
    var t := line + "\n" + rest;
    assert t[|line|] == '\n';
    LineLengthIs(t, |line|);
    assert t[..|line|] == line && t[|line| + 1..] == rest;
  }

  lemma SplitOnly(line: string)
    requires Unbroken(line) && line != ""
    ensures SplitLines(line) == [line]
  {
    LineLengthIs(line, |line|);
  }

  lemma {:induction false} SplitJoined(lines: seq<string>, rest: string)
    requires lines != [] && Breakless(lines)
    ensures SplitLines(JoinLines(lines) + "\n" + rest) == lines + SplitLines(rest)
    decreases |lines|
  {
    hide SplitLines, Unbroken;
    if |lines| == 1 {
      assert lines == [lines[0]];
      SplitFirst(lines[0], rest);
    } else {
      var b := JoinLines(lines[1..]);
      assert JoinLines(lines) + "\n" + rest == lines[0] + "\n" + (b + "\n" + rest);
      SplitFirst(lines[0], b + "\n" + rest);
      SplitJoined(lines[1..], rest);
      assert lines == [lines[0]] + lines[1..];
    }
  }

  lemma {:induction false} SplitWhole(lines: seq<string>)
    requires lines != [] && Breakless(lines) && lines[|lines| - 1] != ""
    ensures SplitLines(JoinLines(lines)) == lines
    decreases |lines|
  {
    hide SplitLines, Unbroken;
    if |lines| == 1 {
      assert lines == [lines[0]];
      SplitOnly(lines[0]);
    } else {
      SplitFirst(lines[0], JoinLines(lines[1..]));
      SplitWhole(lines[1..]);
      assert lines == [lines[0]] + lines[1..];
    }
  }

  // ----- the trimmed chunks are the lines of the rejoined text -----

  lemma {:induction false} ChunksBreakless(lines: seq<string>, buffer: seq<string>, inDollar: bool)
    requires Breakless(lines) && Breakless(buffer)
    ensures forall c :: c in Chunks(lines, buffer, inDollar) ==> Breakless(c)
    decreases |lines|
  {
    hide Statement, IsComment, Closes, Toggled, Unbroken;
    if lines != [] {
      if IsComment(lines[0]) {
        ChunksBreakless(lines[1..], buffer, inDollar);
      } else {
        var now := Toggled(inDollar, lines[0]);
        if !now && Closes(lines[0]) {
          ChunksBreakless(lines[1..], [], now);
        } else {
          ChunksBreakless(lines[1..], buffer + [lines[0]], now);
        }
      }
    }
  }

  lemma StripsUnbroken(s: string)
    requires Unbroken(s)
    ensures Unbroken(LStrip(s)) && Unbroken(RStrip(s))
  {
  }

  lemma {:induction false} TrimFrontBreakless(lines: seq<string>)
    requires Breakless(lines)
    ensures Breakless(TrimFront(lines))
  {
    hide LStrip, Unbroken;
    if lines != [] {
      StripsUnbroken(lines[0]);
      if LStrip(lines[0]) == "" { TrimFrontBreakless(lines[1..]); }
    }
  }

  lemma {:induction false} TrimBackBreakless(lines: seq<string>)
    requires Breakless(lines)
    ensures Breakless(TrimBack(lines))
    ensures TrimBack(lines) != [] ==> TrimBack(lines)[|TrimBack(lines)| - 1] != ""
    ensures TrimBack(lines) != [] ==>
              RStrip(TrimBack(lines)[|TrimBack(lines)| - 1]) == TrimBack(lines)[|TrimBack(lines)| - 1]
  {
    hide RStrip, Unbroken;
    if lines != [] {
      var n := |lines| - 1;
      StripsUnbroken(lines[n]);
      RStripTwice(lines[n]);
      if RStrip(lines[n]) == "" { TrimBackBreakless(lines[..n]); }
    }
  }

  lemma RStripTwice(s: string)
    ensures RStrip(RStrip(s)) == RStrip(s)
  {
  }

  /** A trimmed chunk: lines without breaks, the last of them not blank. */
  ghost predicate Tidy(lines: seq<string>) {
    lines != [] && Breakless(lines) && lines[|lines| - 1] != "" && RStrip(lines[|lines| - 1]) == lines[|lines| - 1]
  }

  lemma TrimTidy(lines: seq<string>)
    requires Breakless(lines) && Statement(lines) != ""
    ensures Tidy(Trim(lines))
  {
    TrimFrontBreakless(lines);
    TrimBackBreakless(TrimFront(lines));
    TrimJoin(lines);
    JoinNothing();
  }

  function TrimmedLines(chunks: seq<seq<string>>): seq<string> {
    if chunks == [] then [] else Trim(chunks[0]) + TrimmedLines(chunks[1..])
  }

  lemma {:induction false} RejoinedLines(chunks: seq<seq<string>>)
    requires forall i :: 0 <= i < |chunks| ==> Tidy(Trim(chunks[i]))
    ensures SplitLines(JoinLines(StatementsOf(chunks))) == TrimmedLines(chunks)
    decreases |chunks|
  {
    hide Statement, Trim, SplitLines, Tidy;
    if chunks == [] {
      SplitNothing();
    } else {
      var c, rest := chunks[0], chunks[1..];
      TrimJoin(c);
      TidyMeans(Trim(c));
      var statement := Statement(c);
      if rest == [] {
        assert StatementsOf(chunks) == [statement];
        SplitWhole(Trim(c));
        assert TrimmedLines(rest) == [];
      } else {
        assert StatementsOf(chunks)[1..] == StatementsOf(rest);
        SplitJoined(Trim(c), JoinLines(StatementsOf(rest)));
        RejoinedLines(rest);
      }
    }
  }

  lemma TidyMeans(lines: seq<string>)
    requires Tidy(lines)
    ensures lines != [] && Breakless(lines) && lines[|lines| - 1] != ""
  {
  }

  lemma SplitNothing()
    ensures SplitLines(JoinLines([])) == []
  {
  }

  lemma StatementTrimmed(lines: seq<string>)
    ensures Statement(Trim(lines)) == Statement(lines)
  {
    TrimJoin(lines);
    StripStripped(JoinLines(lines));
  }

  /** Scanning the trimmed chunks finds the same statements. */
  lemma {:induction false} Rescan(chunks: seq<seq<string>>)
    requires Shaped(chunks)
    ensures Scan(TrimmedLines(chunks), [], false) == StatementsOf(chunks)
    decreases |chunks|
  {
    hide Statement, Trim, Open, Closed;
    if chunks == [] {
      StatementBlank();
    } else {
      var c, rest := chunks[0], chunks[1..];
      StatementTrimmed(c);
      assert [] + Trim(c) == Trim(c);
      if Closed(c, false) {
        TrimClosed(c);
        ScanClosed(Trim(c), TrimmedLines(rest), [], false);
        forall i | 0 <= i < |rest|
          ensures || Closed(rest[i], false)
                  || (i == |rest| - 1 && Statement(rest[i]) != "" && OpenSomehow(rest[i]))
        {
          assert rest[i] == chunks[i + 1];
        }
        Rescan(rest);
      } else {
        assert rest == [];
        var to := Open(c, false, true);
        assert Open(c, false, to);
        TrimOpen(c, to);
        assert Trim(c) + [] == Trim(c);
        ScanOpen(Trim(c), [], [], false, to);
        StatementsOfCons(c, []);
        StatementsOfNothing();
        assert chunks == [c] + [];
      }
    }
  }

  lemma StatementBlank()
    ensures Statement([]) == ""
  {
  }

  lemma ClosedNotBlank(lines: seq<string>)
    requires Closed(lines, false)
    ensures Statement(lines) != ""
  {
    hide Closed, Trim, TrimBack;
    TrimClosed(lines);
    ClosedEnds(Trim(lines));
    TrimJoin(lines);
  }

  lemma {:induction false} JoinEnds(lines: seq<string>)
    requires lines != []
    ensures |lines[|lines| - 1]| <= |JoinLines(lines)|
    ensures JoinLines(lines)[|JoinLines(lines)| - |lines[|lines| - 1]|..] == lines[|lines| - 1]
  {
    var n := |lines| - 1;
    assert lines == lines[..n] + [lines[n]];
    if n > 0 { JoinSnoc(lines[..n], lines[n]); }
  }

  lemma ClosedEnds(lines: seq<string>)
    requires Closed(lines, false)
    ensures JoinLines(lines) != ""
  {
    hide Closes, IsComment, Toggled, JoinLines, Open;
    ClosedNotEmpty(lines);
    var n := |lines| - 1;
    assert lines == lines[..n] + [lines[n]];
    var mid := ClosedSplit(lines[..n], lines[n], false);
    hide Closed;
    JoinEnds(lines);
    ClosesSomething(lines[n]);
  }

  lemma ClosedNotEmpty(lines: seq<string>)
    requires Closed(lines, false)
    ensures lines != []
  {
    hide Closes, IsComment, Toggled;
  }

  lemma ClosesSomething(line: string)
    ensures Closes(line) ==> line != ""
  {
  }

  /** What the scan of a text is made of. */
  lemma TextChunks(text: string) returns (chunks: seq<seq<string>>)
    ensures chunks == Chunks(SplitLines(text), [], false) && Statements(text) == StatementsOf(chunks)
    ensures |Statements(text)| == |chunks|
    ensures forall i :: 0 <= i < |chunks| ==> Statements(text)[i] == Statement(chunks[i])
    ensures Shaped(chunks) && forall i :: 0 <= i < |chunks| ==> Tidy(Trim(chunks[i]))
  {
    var lines := SplitLines(text);
    chunks := Chunks(lines, [], false);
    ScanIsChunks(lines, [], false);
    StatementsEach(chunks);
    ChunksShaped(lines, [], false);
    LinesBreakless(text);
    ChunksBreakless(lines, [], false);
    hide Chunks, Closed, Trim, Tidy, Open, Statement, Breakless;
    forall i | 0 <= i < |chunks| ensures Tidy(Trim(chunks[i])) {
      assert chunks[i] in chunks;
      if Closed(chunks[i], false) { ClosedNotBlank(chunks[i]); }
      TrimTidy(chunks[i]);
    }
  }

  lemma LinesBreakless(text: string)
    ensures Breakless(SplitLines(text)) && Breakless([])
  {
  }

  /** Splitting the newline-join of a split text gives the same statements. */
  lemma SplittingIsStable(text: string)
    ensures Statements(JoinLines(Statements(text))) == Statements(text)
  {
    hide Chunks, Scan, Tidy, Shaped;
    var chunks := TextChunks(text);
    RejoinedLines(chunks);
    Rescan(chunks);
  }

  // ----- dollar quotes stay whole -----

  lemma {:induction false} JoinDollars(lines: seq<string>, from: bool, to: bool)
    requires Open(lines, from, to)
    ensures Toggled(from, JoinLines(lines)) == to
    decreases |lines|
  {
    hide Dollars, IsComment, Closes;
    DollarsOfNothing();
    if |lines| == 1 {
      assert lines[1..] == [];
    } else if |lines| > 1 {
      var now := Toggled(from, lines[0]);
      JoinDollars(lines[1..], now, to);
      DollarsApart(lines[0], '\n', JoinLines(lines[1..]));
    }
  }

  lemma DollarsOfNothing()
    ensures Dollars("") == 0
  {
  }

  lemma StripDollars(s: string)
    ensures Dollars(Strip(s)) == Dollars(s)
  {
    LStripMarks(s);
    RStripMarks(LStrip(s));
  }

  lemma ToggleJoin(d: bool, a: string, b: string)
    ensures Toggled(d, a + "\n" + b) == Toggled(Toggled(d, a), b)
  {
    DollarsApart(a, '\n', b);
  }

  lemma ClosedEven(lines: seq<string>)
    requires Closed(lines, false)
    ensures !Toggled(false, Statement(lines))
  {
    hide *;
    LastCloses(lines, false);
    var n := |lines| - 1;
    var front, x := lines[..n], lines[n];
    assert lines == front + [x];
    var mid := ClosedSplit(front, x, false);
    StripToggles(lines);
    if n == 0 {
      assert lines == [x];
      JoinOne(x);
      OpenNothingStays(front, mid);
    } else {
      JoinSnoc(front, x);
      JoinDollars(front, false, mid);
      ToggleJoin(false, JoinLines(front), x);
    }
  }

  lemma OpenNothingStays(lines: seq<string>, to: bool)
    requires lines == [] && Open(lines, false, to)
    ensures !to
  {
  }

  lemma StripToggles(lines: seq<string>)
    ensures Toggled(false, Statement(lines)) == Toggled(false, JoinLines(lines))
  {
    StripDollars(JoinLines(lines));
  }

  lemma EndsWithStrip(y: string)
    requires Closes(y) && RStrip(y) == y
    ensures EndsWith(y, ";")
  {
    hide LStrip, RStrip, IsSpace;
    var l := LStrip(y);
    var t := RStrip(l);
    LStripShape(y);
    RStripShape(y);
    RStripShape(l);
    assert t[|t| - 1] == t[|t| - 1..][0] == ';';
    assert l[|l| - 1] == y[|y| - 1];
    assert |t| == |l|;
  }

  lemma {:induction false} LastCloses(lines: seq<string>, from: bool)
    requires Closed(lines, from)
    ensures lines != [] && Closes(lines[|lines| - 1])
    decreases |lines|
  {
    hide Closes, Toggled, IsComment;
    if |lines| > 1 { LastCloses(lines[1..], Toggled(from, lines[0])); }
  }

  lemma SuffixEnds(s: string, y: string)
    requires |y| <= |s| && s[|s| - |y|..] == y && EndsWith(y, ";")
    ensures EndsWith(s, ";")
  {
    assert s[|s| - 1..] == y[|y| - 1..];
  }

  lemma ClosedEndsInSemicolon(lines: seq<string>)
    requires Closed(lines, false) && Tidy(Trim(lines))
    ensures EndsWith(Statement(lines), ";")
  {
    hide Trim, Closed, Closes, Statement, EndsWith, Breakless, JoinLines, RStrip;
    TrimClosed(lines);
    TrimJoin(lines);
    var trimmed := Trim(lines);
    LastCloses(trimmed, false);
    EndsWithStrip(trimmed[|trimmed| - 1]);
    JoinEnds(trimmed);
    SuffixEnds(JoinLines(trimmed), trimmed[|trimmed| - 1]);
  }

  /** Every statement but possibly the last ends in a semicolon and leaves no dollar quote open. */
  lemma StatementsWhole(text: string, i: nat)
    requires i + 1 < |Statements(text)|
    ensures Dollars(Statements(text)[i]) % 2 == 0 && EndsWith(Statements(text)[i], ";")
  {
    hide Chunks, Closed, Trim, Tidy, Statement, Dollars, Statements;
    var chunks := TextChunks(text);
    ClosedEven(chunks[i]);
    ClosedEndsInSemicolon(chunks[i]);
  }

  // ----- no line is lost -----

  /** The lines that are not comments. */
  function NonComments(lines: seq<string>): seq<string> {
    if lines == [] then []
    else (if IsComment(lines[0]) then [] else [lines[0]]) + NonComments(lines[1..])
  }

  /** The lines up to surrounding whitespace, blank ones dropped. */
  function NonBlank(lines: seq<string>): seq<string> {
    if lines == [] then []
    else (if Strip(lines[0]) == "" then [] else [Strip(lines[0])]) + NonBlank(lines[1..])
  }

  lemma {:induction false} NonBlankJoin(a: seq<string>, b: seq<string>)
    ensures NonBlank(a + b) == NonBlank(a) + NonBlank(b)
    decreases |a|
  {
    hide Strip;
    if a == [] {
      assert a + b == b;
    } else {
      assert (a + b)[1..] == a[1..] + b;
      NonBlankJoin(a[1..], b);
    }
  }

  lemma {:induction false} NonBlankFront(lines: seq<string>)
    ensures NonBlank(TrimFront(lines)) == NonBlank(lines)
  {
    hide Strip, LStrip, Spaces;
    if lines != [] {
      LStripSpaces(lines[0]);
      StripSpacesOnly(lines[0]);
      StripLeft(lines[0]);
      if LStrip(lines[0]) == "" {
        NonBlankFront(lines[1..]);
      } else {
        assert ([LStrip(lines[0])] + lines[1..])[1..] == lines[1..];
      }
    }
  }

  lemma {:induction false} NonBlankBack(lines: seq<string>)
    ensures NonBlank(TrimBack(lines)) == NonBlank(lines)
  {
    hide Strip, RStrip, Spaces, NonBlank;
    if lines != [] {
      var n := |lines| - 1;
      var front, x := lines[..n], lines[n];
      assert lines == front + [x];
      RStripSpaces(x);
      StripSpacesOnly(x);
      StripRight(x);
      NonBlankJoin(front, [x]);
      NonBlankJoin(front, [RStrip(x)]);
      NonBlankOne(x);
      NonBlankOne(RStrip(x));
      if RStrip(x) == "" { NonBlankBack(front); }
    }
  }

  lemma NonBlankOne(x: string)
    ensures NonBlank([x]) == if Strip(x) == "" then [] else [Strip(x)]
  {
    assert [x][1..] == [];
  }

  lemma NonBlankTrim(lines: seq<string>)
    ensures NonBlank(Trim(lines)) == NonBlank(lines)
  {
    NonBlankFront(lines);
    NonBlankBack(TrimFront(lines));
  }

  lemma {:induction false} BlankLines(lines: seq<string>)
    requires Statement(lines) == ""
    ensures NonBlank(lines) == []
  {
    TrimJoin(lines);
    NonBlankTrim(lines);
    if Trim(lines) != [] { TrimBackNotBlank(TrimFront(lines)); }
  }

  lemma {:induction false} TrimBackNotBlank(lines: seq<string>)
    requires TrimBack(lines) != []
    ensures JoinLines(TrimBack(lines)) != ""
  {
    hide RStrip;
    var n := |lines| - 1;
    if RStrip(lines[n]) == "" { TrimBackNotBlank(lines[..n]); } else { JoinEnds(TrimBack(lines)); }
  }

  lemma {:induction false} ChunkLines(lines: seq<string>, buffer: seq<string>, inDollar: bool)
    ensures NonBlank(TrimmedLines(Chunks(lines, buffer, inDollar))) == NonBlank(buffer) + NonBlank(NonComments(lines))
    decreases |lines|
  {
    hide Statement, IsComment, Closes, Toggled, Trim, NonBlank;
    NonBlankNothing();
    if lines == [] {
      if Statement(buffer) == "" {
        BlankLines(buffer);
      } else {
        TrimmedOne(buffer, []);
        NonBlankTrim(buffer);
        assert [buffer] + [] == [buffer] && Trim(buffer) + [] == Trim(buffer);
      }
    } else if IsComment(lines[0]) {
      ChunkLines(lines[1..], buffer, inDollar);
      assert [] + NonComments(lines[1..]) == NonComments(lines[1..]);
    } else {
      var now := Toggled(inDollar, lines[0]);
      NonBlankJoin(buffer, [lines[0]]);
      NonBlankJoin([lines[0]], NonComments(lines[1..]));
      if !now && Closes(lines[0]) {
        var rest := Chunks(lines[1..], [], now);
        ChunkLines(lines[1..], [], now);
        TrimmedOne(buffer + [lines[0]], rest);
        NonBlankTrim(buffer + [lines[0]]);
        NonBlankJoin(Trim(buffer + [lines[0]]), TrimmedLines(rest));
      } else {
        ChunkLines(lines[1..], buffer + [lines[0]], now);
      }
    }
  }

  lemma NonBlankNothing()
    ensures NonBlank([]) == []
  {
  }

  lemma TrimmedOne(chunk: seq<string>, rest: seq<seq<string>>)
    ensures TrimmedLines([chunk] + rest) == Trim(chunk) + TrimmedLines(rest)
  {
    assert ([chunk] + rest)[1..] == rest;
  }

  /** The statements hold the text's lines other than comments, in order, up to surrounding whitespace. */
  lemma LinesKept(text: string)
    ensures NonBlank(SplitLines(JoinLines(Statements(text)))) == NonBlank(NonComments(SplitLines(text)))
  {
    hide Chunks, Scan, Tidy, Shaped, NonBlank, Statements;
    var chunks := TextChunks(text);
    RejoinedLines(chunks);
    ChunkLines(SplitLines(text), [], false);
    NonBlankNothing();
  }

  // ----- rendering -----

  function RenderAll(texts: seq<string>, d: int): (r: seq<string>)
    ensures |r| == |texts| && forall i :: 0 <= i < |r| ==> r[i] == Render(texts[i], d)
  {
    if texts == [] then [] else [Render(texts[0], d)] + RenderAll(texts[1..], d)
  }

  lemma RenderAllSnoc(texts: seq<string>, x: string, d: int)
    ensures RenderAll(texts + [x], d) == RenderAll(texts, d) + [Render(x, d)]
  {
    hide Render;
  }

  lemma BreaksOutside(c: char)
    requires IsBreak(c)
    ensures Outside(c) && c != '-'
  {
  }

  lemma RenderUnbroken(line: string, d: int)
    requires Unbroken(line)
    ensures Unbroken(Render(line, d))
  {
    var r := Render(line, d);
    hide Render;
    forall j | 0 <= j < |r| ensures !IsBreak(r[j]) {
      if IsBreak(r[j]) {
        BreaksOutside(r[j]);
        RenderKeepsFree(line, d, r[j]);
      }
    }
  }

  lemma SplitAt(line: string, c: char, rest: string)
    requires Unbroken(line) && IsBreak(c)
    requires c == '\r' ==> rest == "" || rest[0] != '\n'
    ensures SplitLines(line + [c] + rest) == [line] + SplitLines(rest)
  {
    var t := line + [c] + rest;
    assert t[|line|] == c;
    LineLengthIs(t, |line|);
    assert t[..|line|] == line && t[|line| + 1..] == rest;
  }

  lemma SplitAtPair(line: string, rest: string)
    requires Unbroken(line)
    ensures SplitLines(line + "\r" + ("\n" + rest)) == [line] + SplitLines(rest)
  {
    var t := line + "\r" + ("\n" + rest);
    assert t[|line|] == '\r' && t[|line| + 1] == '\n';
    LineLengthIs(t, |line|);
    assert t[..|line|] == line && t[|line| + 2..] == rest;
  }

  lemma FirstKept(t: string, d: int)
    ensures Render(t, d) == "" <==> t == ""
    ensures t != "" ==> Render(t, d)[0] == t[0]
  {
    if t == "" { RenderNothing(d); } else { RenderEnds(t, d); }
  }

  /** Lines render one by one. */
  lemma {:induction false} RenderLines(t: string, d: int)
    ensures SplitLines(Render(t, d)) == RenderAll(SplitLines(t), d)
    decreases |t|
  {
    hide Render, SplitLines;
    FirstKept(t, d);
    SplitEmpty();
    if t != "" {
      var k := LineLength(t);
      var line := t[..k];
      RenderUnbroken(line, d);
      if k == |t| {
        assert line == t;
        SplitOnly(line);
        SplitOnly(Render(line, d));
        RenderAllCons(line, [], d);
      } else {
        var c, rest := t[k], t[k + 1..];
        assert t == line + [c] + rest;
        BreaksOutside(c);
        RenderApart(line, c, rest, d);
        FirstKept(rest, d);
        if c == '\r' && rest != "" && rest[0] == '\n' {
          var after := rest[1..];
          assert rest == "" + ['\n'] + after && rest == "\n" + after;
          RenderApart("", '\n', after, d);
          RenderNothing(d);
          assert Render(rest, d) == "\n" + Render(after, d);
          SplitAtPair(line, after);
          SplitAtPair(Render(line, d), Render(after, d));
          RenderLines(after, d);
          RenderAllCons(line, SplitLines(after), d);
        } else {
          SplitAt(line, c, rest);
          SplitAt(Render(line, d), c, Render(rest, d));
          RenderLines(rest, d);
          RenderAllCons(line, SplitLines(rest), d);
        }
      }
    }
  }

  lemma SplitEmpty()
    ensures SplitLines("") == []
  {
  }

  lemma RenderAllCons(x: string, texts: seq<string>, d: int)
    ensures RenderAll([x] + texts, d) == [Render(x, d)] + RenderAll(texts, d)
    ensures texts == [] ==> RenderAll([x], d) == [Render(x, d)]
  {
    assert ([x] + texts)[1..] == texts;
  }

  lemma {:induction false} RenderJoin(lines: seq<string>, d: int)
    ensures JoinLines(RenderAll(lines, d)) == Render(JoinLines(lines), d)
    decreases |lines|
  {
    hide Render;
    RenderNothing(d);
    if |lines| > 1 {
      RenderApart(lines[0], '\n', JoinLines(lines[1..]), d);
      RenderJoin(lines[1..], d);
    }
  }

  lemma RenderStatement(lines: seq<string>, d: int)
    ensures Statement(RenderAll(lines, d)) == Render(Statement(lines), d)
  {
    RenderJoin(lines, d);
    RenderStrip(JoinLines(lines), d);
  }

  lemma RenderComment(line: string, d: int)
    ensures IsComment(Render(line, d)) == IsComment(line)
  {
    RenderStrip(line, d);
    var t := Strip(line);
    FirstKept(t, d);
    if t != "" {
      FirstKept(t[1..], d);
      if t[0] == '-' {
        RenderPlain(t, d);
        assert Render(t, d)[1..] == Render(t[1..], d);
      }
    }
  }

  lemma RenderMarks(line: string, d: int, inDollar: bool)
    ensures Closes(Render(line, d)) == Closes(line) && Toggled(inDollar, Render(line, d)) == Toggled(inDollar, line)
  {
    RenderStrip(line, d);
    RenderDollars(line, d);
    FirstKept(Strip(line), d);
    if Strip(line) != "" { RenderEnds(Strip(line), d); }
    hide Render, Strip;
    LastChar(Strip(line));
    LastChar(Render(Strip(line), d));
  }

  lemma LastChar(s: string)
    ensures EndsWith(s, ";") <==> s != "" && s[|s| - 1] == ';'
  {
    if s != "" { assert s[|s| - 1..] == [s[|s| - 1]]; }
  }

  lemma {:induction false} RenderScan(lines: seq<string>, buffer: seq<string>, inDollar: bool, d: int)
    ensures Scan(RenderAll(lines, d), RenderAll(buffer, d), inDollar) == RenderAll(Scan(lines, buffer, inDollar), d)
    decreases |lines|
  {
    hide Statement, IsComment, Closes, Toggled, Render;
    RenderStatement(buffer, d);
    FirstKept(Statement(buffer), d);
    if lines == [] {
      RenderAllCons(Statement(buffer), [], d);
    } else {
      var x, rest := lines[0], lines[1..];
      var rendered := RenderAll(lines, d);
      assert rendered[0] == Render(x, d) && rendered[1..] == RenderAll(rest, d);
      RenderComment(x, d);
      if IsComment(x) {
        RenderScan(rest, buffer, inDollar, d);
      } else {
        RenderMarks(x, d, inDollar);
        var now := Toggled(inDollar, x);
        RenderAllSnoc(buffer, x, d);
        if !now && Closes(x) {
          RenderStatement(buffer + [x], d);
          RenderScan(rest, [], now, d);
          RenderAllCons(Statement(buffer + [x]), Scan(rest, [], now), d);
        } else {
          RenderScan(rest, buffer + [x], now, d);
        }
      }
    }
  }

  /** Splitting the rendered text is rendering each split statement. */
  lemma RenderingCommutes(text: string, d: int)
    ensures Statements(Render(text, d)) == RenderAll(Statements(text), d)
  {
    RenderLines(text, d);
    RenderScan(SplitLines(text), [], false, d);
  }

  // ----- the loop -----

  lemma {:induction false} KeptAll(statements: seq<string>)
    requires forall i :: 0 <= i < |statements| ==> statements[i] != ""
    ensures Kept(statements) == statements
  {
    if statements != [] { KeptAll(statements[1..]); }
  }

  lemma StatementsNotBlank(text: string)
    ensures Kept(Statements(text)) == Statements(text)
  {
    var chunks := TextChunks(text);
    hide Chunks, Closed, Trim, Tidy, Statement, Statements;
    forall i | 0 <= i < |chunks| ensures Statement(chunks[i]) != "" {
      if Closed(chunks[i], false) { ClosedNotBlank(chunks[i]); }
    }
    KeptAll(Statements(text));
  }

  /** The line scanner with its buffer and dollar flag. */
  method SplitStatements(text: string) returns (statements: seq<string>)
    ensures statements == Statements(text)
  {
    var lines := SplitLines(text);
    statements := [];
    var buffer: seq<string> := [];
    var inDollar := false;
    hide Statement, IsComment, Closes;
    for n := 0 to |lines|
      invariant Statements(text) == statements + Scan(lines[n..], buffer, inDollar)
    {
      var line := lines[n];
      assert lines[n..][0] == line && lines[n..][1..] == lines[n + 1..];
      if IsComment(line) {
        continue;
      }
      if Dollars(line) % 2 == 1 {
        inDollar := !inDollar;
      }
      buffer := buffer + [line];
      if !inDollar && Closes(line) {
        statements := statements + [Statement(buffer)];
        buffer := [];
      }
    }
    var tail := Statement(buffer);
    assert lines[|lines|..] == [];
    assert statements + [] == statements;
    if tail != "" {
      statements := statements + [tail];
    }
    StatementsNotBlank(text);
    statements := Kept(statements);
  }
}
