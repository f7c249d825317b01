/** What the migration splitter returns, said without its loop. */
module Splitting {
  import opened PyText
  import opened MigrationText
  import opened Migrations

  // ----- where a statement ends -----

  /** The first `k` lines end a statement: dollar quotes are even, and the last line ends in a semicolon. */
  ghost predicate Ends(lines: seq<string>, k: nat) {
    && 0 < k <= |lines| && Dollars(JoinLines(lines[..k])) % 2 == 0 && EndsWith(Strip(lines[k - 1]), ";")
  }

  /** Lines that end a statement, at the last line and nowhere before it. */
  ghost predicate Complete(chunk: seq<string>) {
    forall k: nat :: Ends(chunk, k) <==> k == |chunk|
  }

  /** Some lines that end no statement. */
  ghost predicate Unfinished(chunk: seq<string>) {
    chunk != [] && forall k: nat :: !Ends(chunk, k)
  }

  ghost function Flat(chunks: seq<seq<string>>): seq<string> {
    if chunks == [] then [] else chunks[0] + Flat(chunks[1..])
  }

  /** The lines in pieces, each complete but possibly the last. */
  ghost predicate IsSplit(lines: seq<string>, chunks: seq<seq<string>>) {
    && Flat(chunks) == lines
    && forall i :: 0 <= i < |chunks| ==> Complete(chunks[i]) || (i == |chunks| - 1 && Unfinished(chunks[i]))
  }

  /** The lines that do not start with two dashes. */
  ghost function Remarkless(lines: seq<string>): seq<string> {
    if lines == [] then []
    else (if "--" <= Strip(lines[0]) then [] else [lines[0]]) + Remarkless(lines[1..])
  }

  /** The stripped text of each piece, unless there is none. */
  ghost function Texts(chunks: seq<seq<string>>): seq<string> {
    if chunks == [] then []
    else
      var text := Strip(JoinLines(chunks[0]));
      (if text == "" then [] else [text]) + Texts(chunks[1..])
  }

  // ----- the pieces of the scan -----

  lemma ClosesExactly(line: string)
    ensures Closes(line) <==> EndsWith(Strip(line), ";")
  {
    hide Strip;
    LastChar(Strip(line));
  }

  lemma ToggledExactly(text: string)
    ensures Toggled(false, text) <==> Dollars(text) % 2 == 1
  {
  }

  lemma {:induction false} OpenNeverEnds(lines: seq<string>, to: bool)
    requires Open(lines, false, to)
    ensures forall k: nat :: !Ends(lines, k)
    decreases |lines|
  {
    hide Open, Closes, Toggled, Dollars, Strip, EndsWith;
    if lines != [] {
      var n := |lines| - 1;
      var front, x := lines[..n], lines[n];
      assert lines == front + [x];
      var mid := OpenSplit(front, x, false, to);
      OpenNeverEnds(front, mid);
      JoinDollars(lines, false, to);
      ToggledExactly(JoinLines(lines));
      ClosesExactly(x);
      assert lines[..|lines|] == lines;
      forall k: nat ensures !Ends(lines, k) { FrontEnds(front, x, k); }
    }
  }

  lemma FrontEnds(front: seq<string>, x: string, k: nat)
    ensures k <= |front| ==> (Ends(front + [x], k) <==> Ends(front, k))
  {
    if 0 < k <= |front| { assert (front + [x])[..k] == front[..k] && (front + [x])[k - 1] == front[k - 1]; }
  }

  lemma ClosedEndsThere(lines: seq<string>)
    requires Closed(lines, false)
    ensures Ends(lines, |lines|)
  {
    hide Open, Closed, Closes, Toggled, Dollars, Strip, EndsWith, Statement;
    LastCloses(lines, false);
    ClosesExactly(lines[|lines| - 1]);
    ClosedEven(lines);
    StripToggles(lines);
    ToggledExactly(JoinLines(lines));
    assert lines[..|lines|] == lines;
  }

  lemma ClosedIsComplete(lines: seq<string>)
    requires Closed(lines, false)
    ensures Complete(lines)
  {
    hide Open, Closed, Closes, Toggled, Statement, Ends;
    ClosedNotEmpty(lines);
    ClosedEndsThere(lines);
    var n := |lines| - 1;
    var front, x := lines[..n], lines[n];
    assert lines == front + [x];
    var mid := ClosedSplit(front, x, false);
    OpenNeverEnds(front, mid);
    forall k: nat ensures Ends(lines, k) <==> k == |lines| {
      FrontEnds(front, x, k);
      EndsWithin(lines, k);
    }
  }

  lemma EndsWithin(lines: seq<string>, k: nat)
    ensures Ends(lines, k) ==> 0 < k <= |lines|
  {
  }

  lemma FlatMore(chunk: seq<string>, chunks: seq<seq<string>>)
    ensures Flat([chunk] + chunks) == chunk + Flat(chunks)
    ensures Texts([chunk] + chunks) ==
            (if Strip(JoinLines(chunk)) == "" then [] else [Strip(JoinLines(chunk))]) + Texts(chunks)
  {
    hide Strip;
    assert ([chunk] + chunks)[1..] == chunks;
  }

  lemma SplitMore(chunk: seq<string>, lines: seq<string>, chunks: seq<seq<string>>)
    requires Complete(chunk) && IsSplit(lines, chunks)
    ensures IsSplit(chunk + lines, [chunk] + chunks)
  {
    hide Complete, Unfinished;
    FlatMore(chunk, chunks);
    var all := [chunk] + chunks;
    forall i | 0 <= i < |all| ensures Complete(all[i]) || (i == |all| - 1 && Unfinished(all[i])) {
      if i > 0 { assert all[i] == chunks[i - 1]; }
    }
  }

  /** The pieces behind a scan. */
  lemma {:induction false} ScanSplits(lines: seq<string>, buffer: seq<string>, inDollar: bool)
    returns (chunks: seq<seq<string>>)
    requires Open(buffer, false, inDollar)
    ensures IsSplit(buffer + Remarkless(lines), chunks) && Texts(chunks) == Scan(lines, buffer, inDollar)
    decreases |lines|
  {
    hide Statement, Closes, Toggled, Open, Closed, Complete, Unfinished, IsSplit, Texts, Strip;
    if lines == [] {
      chunks := SplitRest(buffer, inDollar);
      assert buffer + Remarkless(lines) == buffer;
    } else if IsComment(lines[0]) {
      chunks := ScanSplits(lines[1..], buffer, inDollar);
      assert Remarkless(lines) == Remarkless(lines[1..]);
    } else {
      var now := Toggled(inDollar, lines[0]);
      OpenSnoc(buffer, false, inDollar, lines[0]);
      var rest := Remarkless(lines[1..]);
      assert buffer + Remarkless(lines) == buffer + [lines[0]] + rest;
      if !now && Closes(lines[0]) {
        var chunk := buffer + [lines[0]];
        OpenNothing();
        var more := ScanSplits(lines[1..], [], now);
        assert [] + rest == rest;
        ClosedIsComplete(chunk);
        ClosedText(chunk);
        SplitMore(chunk, rest, more);
        FlatMore(chunk, more);
        chunks := [chunk] + more;
      } else {
        chunks := ScanSplits(lines[1..], buffer + [lines[0]], now);
      }
    }
  }

  lemma ClosedText(chunk: seq<string>)
    requires Closed(chunk, false)
    ensures Strip(JoinLines(chunk)) != "" && Statement(chunk) == Strip(JoinLines(chunk))
  {
    hide Closed, Strip;
    ClosedNotBlank(chunk);
  }

  lemma SplitRest(buffer: seq<string>, inDollar: bool) returns (chunks: seq<seq<string>>)
    requires Open(buffer, false, inDollar)
    ensures IsSplit(buffer, chunks) && Texts(chunks) == Scan([], buffer, inDollar)
  {
    hide Open, Ends;
    if buffer == [] {
      chunks := [];
      StatementBlank();
    } else {
      OpenNeverEnds(buffer, inDollar);
      chunks := [buffer];
      FlatMore(buffer, []);
      hide Strip, JoinLines;
      assert [buffer] + [] == [buffer];
    }
  }

  // ----- there is only one way -----

  lemma EndsEarlier(a: seq<string>, b: seq<string>, k: nat)
    requires a <= b && k <= |a|
    ensures Ends(a, k) <==> Ends(b, k)
  {
    if 0 < k { assert a[..k] == b[..k] && a[k - 1] == b[k - 1]; }
  }

  lemma FlatHead(chunks: seq<seq<string>>)
    requires chunks != []
    ensures chunks[0] <= Flat(chunks) && Flat(chunks)[|chunks[0]|..] == Flat(chunks[1..])
  {
  }

  lemma NothingFlat(chunks: seq<seq<string>>)
    requires IsSplit([], chunks)
    ensures chunks == []
  {
    hide Ends;
    if chunks != [] {
      FlatHead(chunks);
      assert chunks[0] == [];
      EndsWithin([], 0);
    }
  }

  lemma SplitTail(lines: seq<string>, chunks: seq<seq<string>>)
    requires IsSplit(lines, chunks) && chunks != []
    ensures chunks[0] <= lines && IsSplit(lines[|chunks[0]|..], chunks[1..])
    ensures Complete(chunks[0]) || (Unfinished(chunks[0]) && chunks[1..] == [] && lines == chunks[0])
  {
    hide Complete, Unfinished;
    FlatHead(chunks);
    var rest := chunks[1..];
    forall i | 0 <= i < |rest| ensures Complete(rest[i]) || (i == |rest| - 1 && Unfinished(rest[i])) {
      assert rest[i] == chunks[i + 1];
    }
    if !Complete(chunks[0]) {
      assert chunks == [chunks[0]];
      assert Flat(chunks) == chunks[0] + Flat([]);
    }
  }

  /** Two first pieces of the same lines are the same. */
  lemma SameHead(lines: seq<string>, a: seq<string>, b: seq<string>)
    requires a <= lines && b <= lines
    requires Complete(a) || (Unfinished(a) && a == lines)
    requires Complete(b) || (Unfinished(b) && b == lines)
    ensures a == b
  {
    hide Ends;
    EndsEarlier(a, lines, |a|);
    EndsEarlier(b, lines, |b|);
    EndsWithin(a, |a|);
    EndsWithin(b, |b|);
    if |a| <= |b| { EndsEarlier(b, lines, |a|); }
    if |b| <= |a| { EndsEarlier(a, lines, |b|); }
    assert a == lines[..|a|] && b == lines[..|b|];
  }

  lemma {:induction false} SplitUnique(lines: seq<string>, a: seq<seq<string>>, b: seq<seq<string>>)
    requires IsSplit(lines, a) && IsSplit(lines, b)
    ensures a == b
    decreases |lines|
  {
    hide IsSplit, Complete, Unfinished;
    if lines == [] {
      NothingFlat(a);
      NothingFlat(b);
    } else {
      SomePieces(lines, a);
      SomePieces(lines, b);
      SplitTail(lines, a);
      SplitTail(lines, b);
      SameHead(lines, a[0], b[0]);
      SomeLines(a[0]);
      SplitUnique(lines[|a[0]|..], a[1..], b[1..]);
      assert a == [a[0]] + a[1..] && b == [b[0]] + b[1..];
    }
  }

  lemma SomePieces(lines: seq<string>, chunks: seq<seq<string>>)
    requires IsSplit(lines, chunks) && lines != []
    ensures chunks != []
  {
  }

  lemma SomeLines(chunk: seq<string>)
    ensures Complete(chunk) || Unfinished(chunk) ==> chunk != []
  {
    EndsWithin([], 0);
  }

  /**
   The statements of a text are the stripped texts of the pieces of its lines,
   remarks left out, in the one way there is to cut them so that each piece but the
   last ends in a semicolon outside dollar quotes and none holds such an end before.
   */
  lemma StatementsExactly(text: string, statements: seq<string>)
    ensures statements == Statements(text) <==>
            exists chunks :: IsSplit(Remarkless(SplitLines(text)), chunks) && statements == Texts(chunks)
  {
    hide Scan, IsSplit, Remarkless, Texts, Open, SplitLines;
    OpenNothing();
    var lines := Remarkless(SplitLines(text));
    var chunks := ScanSplits(SplitLines(text), [], false);
    assert [] + lines == lines;
    forall other | IsSplit(lines, other) ensures other == chunks { SplitUnique(lines, other, chunks); }
  }

  // ----- inside one statement -----

  /** No statement could have ended at an earlier one of its lines. */
  lemma NoEarlierEnd(text: string, i: nat, k: nat)
    requires i < |Statements(text)|
    ensures var lines := SplitLines(Statements(text)[i]);
            0 < k < |lines| && Dollars(JoinLines(lines[..k])) % 2 == 0 ==> !EndsWith(Strip(lines[k - 1]), ";")
  {
    hide Chunks, Closed, Open, Trim, Tidy, Statement, Statements, Complete, Strip, JoinLines, Dollars, EndsWith,
      SplitLines;
    var chunks := TextChunks(text);
    var trimmed := Trim(chunks[i]);
    TrimJoin(chunks[i]);
    TidyMeans(trimmed);
    SplitWhole(trimmed);
    if Closed(chunks[i], false) {
      TrimClosed(chunks[i]);
      ClosedIsComplete(trimmed);
      CompleteMeans(trimmed, k);
    } else {
      var to := OpenTo(chunks[i]);
      TrimOpen(chunks[i], to);
      OpenNeverEnds(trimmed, to);
      assert !Ends(trimmed, k);
    }
  }

  lemma CompleteMeans(chunk: seq<string>, k: nat)
    requires Complete(chunk)
    ensures k < |chunk| ==> !Ends(chunk, k)
  {
  }

  lemma OpenTo(lines: seq<string>) returns (to: bool)
    requires OpenSomehow(lines)
    ensures Open(lines, false, to)
  {
    hide Open;
    to := Open(lines, false, true);
  }
}
