/** Design-token references: the substitution loop and the recursive expansion it stands for. */
module DesignTokens {
  import opened Outcomes
  import opened PyText

  // The source rewrites one string in place, always at the leftmost `var(`, and
  // gives up after a hundred splices.  An authored value is a list of literal
  // characters and references; its recursive expansion is defined on that list.

  datatype TokenError = Undefined(name: string) | Unterminated | Cyclic

  datatype Piece = Lit(c: char) | Ref(name: string)

  type Pieces = seq<Piece>

  const LIMIT: nat := 100

  function Text(p: Pieces): string {
    if p == [] then ""
    else (if p[0].Lit? then [p[0].c] else "var(" + p[0].name + ")") + Text(p[1..])
  }

  function TextMap(tokens: map<string, Pieces>): map<string, string> {
    map n | n in tokens :: Text(tokens[n])
  }

  /** The literals before position `j` cannot be the end of `var`, whatever stands before them. */
  ghost predicate Guarded(p: Pieces, j: nat)
    requires j < |p|
  {
    || (j >= 1 && p[j - 1].Lit? && p[j - 1].c != 'r')
    || (j >= 2 && p[j - 1] == Lit('r') && p[j - 2].Lit? && p[j - 2].c != 'a')
    || (j >= 3 && p[j - 1] == Lit('r') && p[j - 2] == Lit('a') && p[j - 3].Lit? && p[j - 3].c != 'v')
  }

  /** No reference name holds a closing parenthesis. */
  ghost predicate Closed(p: Pieces) {
    forall j :: 0 <= j < |p| && p[j].Ref? ==> ')' !in p[j].name
  }

  /** A value in which no literal `(` can complete a `var(`, so that `calc(` or `color(` may be written out. */
  ghost predicate Clean(p: Pieces) {
    Closed(p) && forall j :: 0 <= j < |p| && p[j] == Lit('(') ==> Guarded(p, j)
  }

  ghost predicate CleanTokens(tokens: map<string, Pieces>) {
    forall n :: n in tokens ==> Clean(tokens[n])
  }

  // ----- the in-place loop -----

  /** `s.index(p, i)`, or `None` for the exception. */
  function Index(s: string, p: string, i: nat): (r: Option<nat>)
    ensures r.Some? ==> i <= r.value && MatchesAt(s, r.value, p)
    ensures r.Some? ==> forall j :: i <= j < r.value ==> !MatchesAt(s, j, p)
    ensures r.None? ==> forall j: nat :: i <= j ==> !MatchesAt(s, j, p)
    decreases |s| + 1 - i
  {
    if i > |s| then None
    else if MatchesAt(s, i, p) then Some(i)
    else Index(s, p, i + 1)
  }

  lemma ClosingAfter(value: string, start: nat, end: nat)
    requires MatchesAt(value, start, "var(") && start <= end && MatchesAt(value, end, ")")
    ensures start + 4 <= end < |value|
  {
    MatchesChars(value, start, "var(");
    MatchesChars(value, end, ")");
    assert value[start + 0] == 'v' && value[start + 1] == 'a' && value[start + 2] == 'r' && value[start + 3] == '(';
    assert value[end + 0] == ')';
  }

  /** The closing parenthesis of the reference that starts at `start`. */
  function Closing(value: string, start: nat): (end: Option<nat>)
    requires MatchesAt(value, start, "var(")
    ensures end.Some? ==> start + 4 <= end.value < |value|
  {
    var end := Index(value, ")", start);
    if end.Some? then ClosingAfter(value, start, end.value); end else end
  }

  /** One iteration: the value after the splice, or the exception. */
  function Splice(value: string, tokens: map<string, string>): Result<string, TokenError>
    requires Contains(value, "var(")
  {
    var start := Index(value, "var(", 0).value;
    var end := Closing(value, start);
    if end.None? then Err(Unterminated)
    else
      var name := Strip(value[start + 4..end.value]);
      if name !in tokens then Err(Undefined(name))
      else Ok(value[..start] + tokens[name] + value[end.value + 1..])
  }

  /** What the loop does from a value, with `left` iterations before it gives up. */
  function Loop(value: string, tokens: map<string, string>, left: nat): Result<string, TokenError>
    decreases left
  {
    if !Contains(value, "var(") then Ok(value)
    else
      var next := Splice(value, tokens);
      if next.Err? then next
      else if left == 0 then Err(Cyclic)
      else Loop(next.value, tokens, left - 1)
  }

  /** The loop itself; whatever the tokens are, a returned value holds no reference. */
  method Resolve(authored: string, tokens: map<string, string>) returns (r: Result<string, TokenError>)
    ensures r == Loop(authored, tokens, 100)
    ensures r.Ok? ==> !Contains(r.value, "var(")
  {
    hide Contains, Splice;
    var value := authored;
    var seen := 0;
    while Contains(value, "var(")
      invariant seen <= LIMIT && Loop(authored, tokens, LIMIT) == Loop(value, tokens, LIMIT - seen)
      decreases LIMIT - seen
    {
      var next := Splice(value, tokens);
      if next.Err? {
        return next;
      }
      value := next.value;
      seen := seen + 1;
      if seen > LIMIT {
        return Err(Cyclic);
      }
    }
    r := Ok(value);
  }

  /** A leftmost occurrence of the text, not before position `i`. */
  ghost predicate First(s: string, p: string, i: nat, r: nat) {
    i <= r && MatchesAt(s, r, p) && forall j :: i <= j < r ==> !MatchesAt(s, j, p)
  }

  /**
   One round on any text, clean or not: the leftmost `var(` at `start` and the first
   `)` behind it at `end` are cut out with what they enclose, and the token of that
   name, stripped, is put there; so often, until the limit is used up.
   */
  lemma RoundExactly(value: string, tokens: map<string, string>, left: nat, start: nat, end: nat)
    requires First(value, "var(", 0, start) && First(value, ")", start, end)
    ensures start + 4 <= end < |value|
    ensures var name := Strip(value[start + 4..end]);
            Loop(value, tokens, left) ==
            if name !in tokens then Err(Undefined(name))
            else if left == 0 then Err(Cyclic)
            else Loop(value[..start] + tokens[name] + value[end + 1..], tokens, left - 1)
  {
    ClosingAfter(value, start, end);
    FirstIndex(value, "var(", 0, start);
    FirstIndex(value, ")", start, end);
    hide Strip, Contains, Index, First;
    var name := Strip(value[start + 4..end]);
    assert Splice(value, tokens) == if name !in tokens then Err(Undefined(name))
                                    else Ok(value[..start] + tokens[name] + value[end + 1..]);
    hide Splice;
  }

  lemma FirstIndex(s: string, p: string, i: nat, r: nat)
    requires First(s, p, i, r)
    ensures Index(s, p, i) == Some(r) && Contains(s, p)
  {
    var n := Index(s, p, i);
    assert r <= |s|;
  }

  /** Without a `)` behind the leftmost `var(` the round fails, and without a `var(` the text is done. */
  lemma RoundEnds(value: string, tokens: map<string, string>, left: nat)
    ensures !Contains(value, "var(") ==> Loop(value, tokens, left) == Ok(value)
    ensures forall start: nat ::
              First(value, "var(", 0, start) && (forall j: nat :: start <= j ==> !MatchesAt(value, j, ")")) ==>
                Loop(value, tokens, left) == Err(Unterminated)
  {
    forall start: nat | First(value, "var(", 0, start) && forall j: nat :: start <= j ==> !MatchesAt(value, j, ")")
      ensures Loop(value, tokens, left) == Err(Unterminated)
    {
      FirstIndex(value, "var(", 0, start);
      hide Strip;
    }
  }

  // ----- recursive expansion with a budget -----

  datatype Outcome = Done(text: string, left: nat) | Stuck(name: string) | Spent

  /** Expand every reference recursively, left to right, paying one for each. */
  function Expand(tokens: map<string, Pieces>, p: Pieces, budget: nat): (o: Outcome)
    ensures o.Done? ==> o.left <= budget
    decreases budget, |p|
  {
    if p == [] then Done("", budget)
    else if p[0].Lit? then Prepend([p[0].c], Expand(tokens, p[1..], budget))
    else
      var name := Strip(p[0].name);
      if name !in tokens then Stuck(name)
      else if budget == 0 then Spent
      else
        var inner := Expand(tokens, tokens[name], budget - 1);
        if !inner.Done? then inner else Prepend(inner.text, Expand(tokens, p[1..], inner.left))
  }

  function Prepend(s: string, o: Outcome): Outcome {
    if o.Done? then Done(s + o.text, o.left) else o
  }

  function AsResult(o: Outcome): Result<string, TokenError> {
    match o
    case Done(text, _) => Ok(text)
    case Stuck(name) => Err(Undefined(name))
    case Spent => Err(Cyclic)
  }

  lemma {:induction false} ExpandAppend(tokens: map<string, Pieces>, a: Pieces, b: Pieces, budget: nat)
    ensures var o := Expand(tokens, a, budget);
            Expand(tokens, a + b, budget) == if o.Done? then Prepend(o.text, Expand(tokens, b, o.left)) else o
    decreases |a|
  {
    if a == [] {
      assert a + b == b;
      PrependNothing(Expand(tokens, b, budget));
    } else {
      assert (a + b)[0] == a[0] && (a + b)[1..] == a[1..] + b;
      if a[0].Lit? {
        ExpandAppend(tokens, a[1..], b, budget);
        var o := Expand(tokens, a[1..], budget);
        if o.Done? { PrependTwice([a[0].c], o.text, Expand(tokens, b, o.left)); }
      } else {
        var name := Strip(a[0].name);
        if name in tokens && budget > 0 {
          var inner := Expand(tokens, tokens[name], budget - 1);
          if inner.Done? {
            ExpandAppend(tokens, a[1..], b, inner.left);
            var o := Expand(tokens, a[1..], inner.left);
            if o.Done? { PrependTwice(inner.text, o.text, Expand(tokens, b, o.left)); }
          }
        }
      }
    }
  }

  lemma PrependNothing(o: Outcome)
    ensures Prepend("", o) == o
  {
    if o.Done? { assert "" + o.text == o.text; }
  }

  lemma PrependTwice(a: string, b: string, o: Outcome)
    ensures Prepend(a, Prepend(b, o)) == Prepend(a + b, o)
  {
    if o.Done? { assert a + (b + o.text) == a + b + o.text; }
  }

  /** The position of the first reference, if there is one. */
  function FirstRef(p: Pieces): (k: nat)
    ensures k <= |p| && (forall j :: 0 <= j < k ==> p[j].Lit?) && (k < |p| ==> p[k].Ref?)
  {
    if p == [] || p[0].Ref? then 0 else 1 + FirstRef(p[1..])
  }

  function SplicePieces(tokens: map<string, Pieces>, p: Pieces): Pieces
    requires FirstRef(p) < |p| && Strip(p[FirstRef(p)].name) in tokens
  {
    var k := FirstRef(p);
    p[..k] + tokens[Strip(p[k].name)] + p[k + 1..]
  }

  lemma {:induction false} ExpandLiterals(tokens: map<string, Pieces>, p: Pieces, budget: nat)
    requires FirstRef(p) == |p|
    ensures Expand(tokens, p, budget) == Done(Text(p), budget)
  {
    if p != [] { ExpandLiterals(tokens, p[1..], budget); }
  }

  lemma FirstRefLits(p: Pieces, k: nat)
    requires k <= |p| && forall j :: 0 <= j < k ==> p[j].Lit?
    requires k < |p| ==> p[k].Ref?
    ensures FirstRef(p) == k
  {
    var n := FirstRef(p);
    assert n < k ==> n < |p|;
  }

  lemma ExpandRef(tokens: map<string, Pieces>, x: Piece, rest: Pieces, budget: nat)
    requires x.Ref? && Strip(x.name) in tokens
    ensures Expand(tokens, [x] + rest, budget) ==
            if budget == 0 then Spent else Expand(tokens, tokens[Strip(x.name)] + rest, budget - 1)
  {
    hide Expand;
    assert ([x] + rest)[1..] == rest;
    ExpandHead(tokens, [x] + rest, budget);
    if budget > 0 { ExpandAppend(tokens, tokens[Strip(x.name)], rest, budget - 1); }
  }

  lemma ExpandHead(tokens: map<string, Pieces>, p: Pieces, budget: nat)
    requires p != [] && p[0].Ref? && Strip(p[0].name) in tokens
    ensures Expand(tokens, p, budget) ==
            if budget == 0 then Spent
            else
              var inner := Expand(tokens, tokens[Strip(p[0].name)], budget - 1);
              if !inner.Done? then inner else Prepend(inner.text, Expand(tokens, p[1..], inner.left))
  {
  }

  /** Splicing the leftmost reference in place pays one and changes nothing else. */
  lemma ExpandSplice(tokens: map<string, Pieces>, p: Pieces, budget: nat)
    requires FirstRef(p) < |p| && Strip(p[FirstRef(p)].name) in tokens
    ensures Expand(tokens, p, budget) ==
            if budget == 0 then Spent else Expand(tokens, SplicePieces(tokens, p), budget - 1)
  {
    hide *;
    var k := FirstRef(p);
    var lits, x, rest := p[..k], p[k], p[k + 1..];
    var inner := tokens[Strip(x.name)];
    FirstRefLits(lits, k);
    SplitAround(p, k);
    SpliceParts(tokens, p);
    ExpandLiterals(tokens, lits, budget);
    ExpandAppend(tokens, lits, [x] + rest, budget);
    ExpandRef(tokens, x, rest, budget);
    PrependSpent(Text(lits));
    if budget > 0 {
      ExpandLiterals(tokens, lits, budget - 1);
      ExpandAppend(tokens, lits, inner + rest, budget - 1);
    }
  }

  lemma PrependSpent(s: string)
    ensures Prepend(s, Spent) == Spent
  {
  }

  lemma SplitAround(p: Pieces, k: nat)
    requires k < |p|
    ensures p == p[..k] + ([p[k]] + p[k + 1..])
  {
  }

  lemma SpliceParts(tokens: map<string, Pieces>, p: Pieces)
    requires FirstRef(p) < |p| && Strip(p[FirstRef(p)].name) in tokens
    ensures var k := FirstRef(p);
            SplicePieces(tokens, p) == p[..k] + (tokens[Strip(p[k].name)] + p[k + 1..])
  {
    hide FirstRef, Strip;
  }

  // ----- the loop on the text of clean pieces -----

  lemma {:induction false} TextAppend(a: Pieces, b: Pieces)
    ensures Text(a + b) == Text(a) + Text(b)
    decreases |a|
  {
    if a == [] {
      assert a + b == b;
    } else {
      assert (a + b)[0] == a[0] && (a + b)[1..] == a[1..] + b;
      TextAppend(a[1..], b);
    }
  }

  lemma {:induction false} TextLiterals(p: Pieces)
    requires FirstRef(p) == |p|
    ensures |Text(p)| == |p| && forall j :: 0 <= j < |p| ==> Text(p)[j] == p[j].c
  {
    if p != [] { TextLiterals(p[1..]); }
  }

  /** What the text of clean pieces looks like up to and including its first reference. */
  lemma TextShape(p: Pieces)
    ensures var k := FirstRef(p);
            && k <= |Text(p)| && (forall j :: 0 <= j < k ==> Text(p)[j] == p[j].c)
            && (k == |p| ==> |Text(p)| == k)
            && (k < |p| ==> Text(p)[k..] == "var(" + p[k].name + ")" + Text(p[k + 1..]))
            && Text(p)[..k] == Text(p[..k])
  {
    hide FirstRef, Text;
    var k := FirstRef(p);
    var lits, rest := p[..k], p[k..];
    assert p == lits + rest;
    TextAppend(lits, rest);
    FirstRefLits(lits, k);
    TextLiterals(lits);
    assert Text(p)[..k] == Text(lits) && Text(p)[k..] == Text(rest);
    forall j | 0 <= j < k ensures Text(p)[j] == p[j].c { assert Text(lits)[j] == lits[j].c; }
    if k < |p| {
      assert rest[1..] == p[k + 1..];
      TextStartsWithRef(rest);
    } else {
      TextOfNothing(rest);
    }
  }

  lemma TextStartsWithRef(p: Pieces)
    requires p != [] && p[0].Ref?
    ensures Text(p) == "var(" + p[0].name + ")" + Text(p[1..])
  {
  }

  lemma TextOfNothing(p: Pieces)
    requires p == []
    ensures Text(p) == ""
  {
  }

  lemma VarSlice(s: string, k: nat, name: string, rest: string)
    requires k <= |s| && s[k..] == "var(" + name + ")" + rest
    ensures k + 4 + |name| < |s| && MatchesAt(s, k, "var(")
    ensures s[k] == 'v' && s[k + 1] == 'a' && s[k + 2] == 'r'
    ensures s[k + 4..k + 4 + |name|] == name && MatchesAt(s, k + 4 + |name|, ")")
    ensures s[k + 5 + |name|..] == rest
    ensures forall j :: 0 <= j < |name| ==> s[k + 4 + j] == name[j]
    ensures s[k + 3] == '('
  {
    var t := s[k..];
    assert |t| == 5 + |name| + |rest|;
    assert forall j :: 0 <= j < |t| ==> s[k + j] == t[j];
    assert s[k..k + 4] == t[..4] == "var(";
    assert s[k + 4..k + 4 + |name|] == t[4..4 + |name|] == name;
    assert s[k + 4 + |name|..k + 5 + |name|] == t[4 + |name|..5 + |name|] == ")";
    assert s[k + 5 + |name|..] == t[5 + |name|..] == rest;
    assert s[k + 0] == 'v';
  }

  lemma VarEnds(s: string, i: nat)
    requires MatchesAt(s, i, "var(")
    ensures i + 4 <= |s| && s[i] == 'v' && s[i + 1] == 'a' && s[i + 2] == 'r' && s[i + 3] == '('
  {
    var t := s[i..i + 4];
    assert t[0] == s[i] && t[1] == s[i + 1] && t[2] == s[i + 2] && t[3] == s[i + 3];
  }

  /** Before the first reference there is no `var(`. */
  lemma NoEarlyVar(p: Pieces, i: nat)
    requires Clean(p) && i < FirstRef(p)
    ensures !MatchesAt(Text(p), i, "var(")
  {
    hide Text, FirstRef;
    TextShape(p);
    var k, s := FirstRef(p), Text(p);
    if k < |p| { VarSlice(s, k, p[k].name, Text(p[k + 1..])); }
    if MatchesAt(s, i, "var(") {
      VarEnds(s, i);
    }
  }

  lemma IndexIs(s: string, p: string, i: nat, r: nat)
    requires i <= r && MatchesAt(s, r, p) && forall j :: i <= j < r ==> !MatchesAt(s, j, p)
    ensures Index(s, p, i) == Some(r)
  {
    var n := Index(s, p, i);
    assert n.Some?;
  }

  /** The text of clean pieces has a reference to find exactly when the pieces do, and finds the first. */
  lemma FindsFirst(p: Pieces)
    requires Clean(p)
    ensures FirstRef(p) == |p| ==> !Contains(Text(p), "var(")
    ensures FirstRef(p) < |p| ==>
              var k := FirstRef(p);
              && Contains(Text(p), "var(") && Index(Text(p), "var(", 0) == Some(k)
              && MatchesAt(Text(p), k, "var(") && Closing(Text(p), k) == Some(k + 4 + |p[k].name|)
              && Text(p)[k + 4..k + 4 + |p[k].name|] == p[k].name
              && Text(p)[..k] == Text(p[..k]) && Text(p)[k + 5 + |p[k].name|..] == Text(p[k + 1..])
  {
    hide *;
    var k, s := FirstRef(p), Text(p);
    forall i: nat | i < k ensures !MatchesAt(s, i, "var(") { NoEarlyVar(p, i); }
    TextShape(p);
    if k < |p| {
      var name := p[k].name;
      CleanName(p, k);
      VarSlice(s, k, name, Text(p[k + 1..]));
      IndexIs(s, "var(", 0, k);
      NoClosing(s, k, name);
      IndexIs(s, ")", k, k + 4 + |name|);
      ClosingIs(s, k, k + 4 + |name|);
      ContainsAt(s, k);
    } else {
      ContainsNowhere(s);
    }
  }

  lemma CleanName(p: Pieces, k: nat)
    requires Clean(p) && k < |p| && p[k].Ref?
    ensures ')' !in p[k].name
  {
  }

  lemma ClosingIs(s: string, k: nat, e: nat)
    requires MatchesAt(s, k, "var(") && Index(s, ")", k) == Some(e)
    ensures Closing(s, k) == Some(e)
  {
  }

  lemma ContainsAt(s: string, k: nat)
    requires k <= |s| && MatchesAt(s, k, "var(")
    ensures Contains(s, "var(")
  {
  }

  lemma ContainsNowhere(s: string)
    requires forall i: nat :: i < |s| ==> !MatchesAt(s, i, "var(")
    ensures !Contains(s, "var(")
  {
    assert !MatchesAt(s, |s|, "var(");
  }

  lemma NoClosing(s: string, k: nat, name: string)
    requires k + 4 + |name| < |s| && s[k] == 'v' && s[k + 1] == 'a' && s[k + 2] == 'r' && s[k + 3] == '('
    requires ')' !in name && forall j :: 0 <= j < |name| ==> s[k + 4 + j] == name[j]
    ensures forall j :: k <= j < k + 4 + |name| ==> !MatchesAt(s, j, ")")
  {
    forall j | k <= j < k + 4 + |name| ensures !MatchesAt(s, j, ")") {
      if j >= k + 4 { assert s[k + 4 + (j - k - 4)] == name[j - k - 4]; }
      assert s[j] != ')';
      assert s[j..j + 1][0] == s[j];
    }
  }

  lemma CleanAround(p: Pieces, k: nat)
    requires Clean(p) && k < |p| && p[k].Ref?
    ensures Clean(p[..k]) && Clean(p[k + 1..])
  {
    var a, b := p[..k], p[k + 1..];
    forall j | 0 <= j < |a| && a[j] == Lit('(') ensures Guarded(a, j) { assert Guarded(p, j); }
    forall j | 0 <= j < |b| && b[j] == Lit('(') ensures Guarded(b, j) { assert Guarded(p, k + 1 + j); }
  }

  lemma CleanSplice(tokens: map<string, Pieces>, p: Pieces)
    requires CleanTokens(tokens) && Clean(p)
    requires FirstRef(p) < |p| && Strip(p[FirstRef(p)].name) in tokens
    ensures Clean(SplicePieces(tokens, p))
  {
    hide FirstRef, Strip, Clean;
    var k := FirstRef(p);
    var a, m, b := p[..k], tokens[Strip(p[k].name)], p[k + 1..];
    CleanAround(p, k);
    CleanJoin(a, m);
    CleanJoin(a + m, b);
  }

  lemma CleanJoin(a: Pieces, b: Pieces)
    requires Clean(a) && Clean(b)
    ensures Clean(a + b)
  {
    var p := a + b;
    forall j | 0 <= j < |p| && p[j] == Lit('(') ensures Guarded(p, j) {
      if j >= |a| { assert Guarded(b, j - |a|); } else { assert Guarded(a, j); }
    }
  }

  /** One splice of the text is one splice of the pieces. */
  lemma SpliceText(tokens: map<string, Pieces>, p: Pieces)
    requires Clean(p) && FirstRef(p) < |p|
    ensures Contains(Text(p), "var(")
    ensures var name := Strip(p[FirstRef(p)].name);
            Splice(Text(p), TextMap(tokens)) ==
            if name in tokens then Ok(Text(SplicePieces(tokens, p))) else Err(Undefined(name))
  {
    hide *;
    FindsFirst(p);
    var k := FirstRef(p);
    var name := Strip(p[k].name);
    SpliceAt(Text(p), TextMap(tokens), k, k + 4 + |p[k].name|);
    InTextMap(tokens, name);
    if name in tokens {
      SpliceParts(tokens, p);
      TextAppend(p[..k], tokens[name] + p[k + 1..]);
      TextAppend(tokens[name], p[k + 1..]);
    }
  }

  lemma InTextMap(tokens: map<string, Pieces>, name: string)
    ensures name in TextMap(tokens) <==> name in tokens
    ensures name in tokens ==> TextMap(tokens)[name] == Text(tokens[name])
  {
  }

  lemma SpliceAt(value: string, tokens: map<string, string>, start: nat, end: nat)
    requires Contains(value, "var(") && Index(value, "var(", 0) == Some(start)
    requires MatchesAt(value, start, "var(") && Closing(value, start) == Some(end)
    ensures start + 4 <= end < |value|
    ensures var name := Strip(value[start + 4..end]);
            Splice(value, tokens) ==
            if name in tokens then Ok(value[..start] + (tokens[name] + value[end + 1..])) else Err(Undefined(name))
  {
    hide Strip, Index, Closing, MatchesAt;
    var name := Strip(value[start + 4..end]);
    if name in tokens {
      assert value[..start] + tokens[name] + value[end + 1..] == value[..start] + (tokens[name] + value[end + 1..]);
    }
  }

  lemma LoopStops(value: string, tokens: map<string, string>, left: nat)
    requires !Contains(value, "var(")
    ensures Loop(value, tokens, left) == Ok(value)
  {
  }

  lemma LoopGoesOn(value: string, tokens: map<string, string>, left: nat)
    requires Contains(value, "var(")
    ensures var next := Splice(value, tokens);
            Loop(value, tokens, left) ==
            if next.Err? then next else if left == 0 then Err(Cyclic) else Loop(next.value, tokens, left - 1)
  {
  }

  /**
   The in-place loop computes the recursive expansion: on the text of any clean
   value and any clean tokens, cyclic or with undefined names included, it
   returns the same text or fails for the same reason.
   */
  lemma {:induction false} LoopIsExpansion(tokens: map<string, Pieces>, p: Pieces, left: nat)
    requires CleanTokens(tokens) && Clean(p)
    ensures Loop(Text(p), TextMap(tokens), left) == AsResult(Expand(tokens, p, left))
    decreases left
  {
    hide Text, Clean, CleanTokens, FirstRef, Strip, Expand, SplicePieces, TextMap, Splice, Contains, Loop, Index,
      Closing, MatchesAt;
    if FirstRef(p) == |p| {
      FindsFirst(p);
      LoopStops(Text(p), TextMap(tokens), left);
      ExpandLiterals(tokens, p, left);
    } else {
      SpliceText(tokens, p);
      LoopGoesOn(Text(p), TextMap(tokens), left);
      var name := Strip(p[FirstRef(p)].name);
      if name in tokens {
        ExpandSplice(tokens, p, left);
        CleanSplice(tokens, p);
        if left > 0 { LoopIsExpansion(tokens, SplicePieces(tokens, p), left - 1); }
      } else {
        ExpandStuck(tokens, p, left);
      }
    }
  }

  lemma ExpandStuck(tokens: map<string, Pieces>, p: Pieces, budget: nat)
    requires FirstRef(p) < |p| && Strip(p[FirstRef(p)].name) !in tokens
    ensures Expand(tokens, p, budget) == Stuck(Strip(p[FirstRef(p)].name))
  {
    hide *;
    var k := FirstRef(p);
    var lits, rest := p[..k], [p[k]] + p[k + 1..];
    SplitAround(p, k);
    FirstRefLits(lits, k);
    ExpandLiterals(tokens, lits, budget);
    ExpandAppend(tokens, lits, rest, budget);
    StuckHead(tokens, rest, budget);
    PrependStuck(Text(lits), Strip(p[k].name));
  }

  lemma StuckHead(tokens: map<string, Pieces>, p: Pieces, budget: nat)
    requires p != [] && p[0].Ref? && Strip(p[0].name) !in tokens
    ensures Expand(tokens, p, budget) == Stuck(Strip(p[0].name))
  {
  }

  lemma PrependStuck(s: string, name: string)
    ensures Prepend(s, Stuck(name)) == Stuck(name)
  {
  }

  // ----- where cleanliness is needed -----

  function Lits(t: string): (p: Pieces)
    ensures |p| == |t| && forall j :: 0 <= j < |p| ==> p[j] == Lit(t[j])
  {
    seq(|t|, j requires 0 <= j < |t| => Lit(t[j]))
  }

  /** The text with `t` in place of every reference. */
  function Flat(p: Pieces, t: string): string {
    if p == [] then "" else (if p[0].Lit? then [p[0].c] else t) + Flat(p[1..], t)
  }

  ghost function NamesIn(p: Pieces): set<string> {
    set j | 0 <= j < |p| && p[j].Ref? :: Strip(p[j].name)
  }

  /** Tokens that give every name of `p` the literal `t`. */
  ghost function Constant(p: Pieces, t: string): map<string, Pieces> {
    map n | n in NamesIn(p) :: Lits(t)
  }

  lemma {:induction false} LitsExpand(tokens: map<string, Pieces>, t: string, budget: nat)
    ensures Expand(tokens, Lits(t), budget) == Done(t, budget)
  {
    if t == "" {
      assert Lits(t) == [];
    } else {
      assert Lits(t)[1..] == Lits(t[1..]);
      LitsExpand(tokens, t[1..], budget);
      assert [t[0]] + t[1..] == t;
    }
  }

  lemma {:induction false} FlatExpand(tokens: map<string, Pieces>, p: Pieces, t: string, budget: nat)
    requires |p| <= budget && forall j :: 0 <= j < |p| && p[j].Ref? ==> Strip(p[j].name) in tokens
    requires forall n :: n in tokens ==> tokens[n] == Lits(t)
    ensures var o := Expand(tokens, p, budget); o.Done? && o.text == Flat(p, t) && o.left >= budget - |p|
    decreases |p|
  {
    hide Strip;
    if p != [] {
      var rest := p[1..];
      forall j | 0 <= j < |rest| && rest[j].Ref? ensures Strip(rest[j].name) in tokens { assert rest[j] == p[j + 1]; }
      if p[0].Lit? {
        FlatExpand(tokens, rest, t, budget);
      } else {
        LitsExpand(tokens, t, budget - 1);
        FlatExpand(tokens, rest, t, budget - 1);
      }
    }
  }

  lemma {:induction false} FlatAppend(a: Pieces, b: Pieces, t: string)
    ensures Flat(a + b, t) == Flat(a, t) + Flat(b, t)
    decreases |a|
  {
    if a == [] {
      assert a + b == b;
    } else {
      assert (a + b)[0] == a[0] && (a + b)[1..] == a[1..] + b;
      FlatAppend(a[1..], b, t);
    }
  }

  lemma {:induction false} FlatLits(t: string, u: string)
    ensures Flat(Lits(t), u) == t
  {
    if t == "" {
      assert Lits(t) == [];
    } else {
      assert Lits(t)[1..] == Lits(t[1..]);
      FlatLits(t[1..], u);
      assert [t[0]] + t[1..] == t;
    }
  }

  /** The literal ending of `var` in front of an unguarded `(`, and where it begins. */
  lemma Unguarded(p: Pieces, j: nat) returns (t: string, i: nat)
    requires j < |p| && p[j] == Lit('(') && !Guarded(p, j)
    ensures i <= j && (t == "" || i == 0 || p[i - 1].Ref?)
    ensures t + Flat(p[i..j], t) == "var" && '(' !in t
  {
    if j == 0 || p[j - 1].Ref? {
      t, i := "var", j;
      assert p[i..j] == Lits("");
    } else if j == 1 || p[j - 2].Ref? {
      t, i := "va", j - 1;
      assert p[i..j] == Lits("r");
    } else if j == 2 || p[j - 3].Ref? {
      t, i := "v", j - 2;
      assert p[i..j] == Lits("ar");
    } else {
      t, i := "", j - 3;
      assert p[i..j] == Lits("var");
    }
    FlatLits("", t);
    FlatLits("r", t);
    FlatLits("ar", t);
    FlatLits("var", t);
  }

  lemma ContainsPart(a: string, b: string)
    ensures Contains(a + "var(" + b, "var(")
  {
    assert MatchesAt(a + "var(" + b, |a|, "var(");
  }

  lemma FlatEnds(x: Pieces, t: string) returns (a: string)
    requires t == "" || x == [] || x[|x| - 1].Ref?
    ensures t + Flat(x, t) == a + t
  {
    if t == "" {
      a := Flat(x, t);
    } else if x == [] {
      a := "";
    } else {
      var n := |x| - 1;
      assert x == x[..n] + [x[n]];
      FlatAppend(x[..n], [x[n]], t);
      assert Flat([x[n]], t) == t + Flat([], t);
      a := t + Flat(x[..n], t);
    }
  }

  /** With a suitable text in front and in every reference, an unguarded `(` completes a `var(`. */
  lemma VarFormed(p: Pieces, j: nat) returns (t: string)
    requires j < |p| && p[j] == Lit('(') && !Guarded(p, j)
    ensures Contains(t + Flat(p, t), "var(") && '(' !in t
  {
    var i;
    t, i := Unguarded(p, j);
    hide Contains, Guarded;
    var x, y, z := p[..i], p[i..j], p[j + 1..];
    assert p == x + (y + ([p[j]] + z));
    FlatAppend(x, y + ([p[j]] + z), t);
    FlatAppend(y, [p[j]] + z, t);
    assert ([p[j]] + z)[1..] == z;
    var a := FlatEnds(x, t);
    FormedText(a, t, Flat(x, t), Flat(y, t), Flat(z, t));
  }

  lemma FormedText(a: string, t: string, x: string, y: string, z: string)
    requires t + x == a + t && t + y == "var"
    ensures Contains(t + (x + (y + ("(" + z))), "var(")
  {
    hide Contains;
    var s := t + (x + (y + ("(" + z)));
    assert s == (t + x) + (y + ("(" + z));
    assert s == a + (t + y) + ("(" + z);
    assert s == a + "var(" + z;
    ContainsPart(a, z);
  }

  lemma {:induction false} LoopOkIsPlain(value: string, tokens: map<string, string>, left: nat)
    requires Loop(value, tokens, left).Ok?
    ensures !Contains(Loop(value, tokens, left).value, "var(")
    decreases left
  {
    hide Contains, Splice;
    if Contains(value, "var(") { LoopOkIsPlain(Splice(value, tokens).value, tokens, left - 1); }
  }

  /** The loop gives what recursive expansion gives. */
  ghost predicate Agrees(tokens: map<string, Pieces>, p: Pieces, limit: nat) {
    Loop(Text(p), TextMap(tokens), limit) == AsResult(Expand(tokens, p, limit))
  }

  /** The same with any clean text in front, for all clean tokens and every limit. */
  ghost predicate AlwaysAgrees(p: Pieces) {
    forall a, tokens, limit: nat :: Clean(a) && CleanTokens(tokens) ==> Agrees(tokens, a + p, limit)
  }

  lemma LitsAreClean(t: string)
    requires '(' !in t
    ensures Clean(Lits(t))
  {
    forall j | 0 <= j < |Lits(t)| ensures Lits(t)[j] != Lit('(') { assert t[j] in t; }
  }

  lemma ConstantIsClean(p: Pieces, t: string)
    requires '(' !in t
    ensures CleanTokens(Constant(p, t)) && (forall n :: n in Constant(p, t) ==> Constant(p, t)[n] == Lits(t))
    ensures forall j :: 0 <= j < |p| && p[j].Ref? ==> Strip(p[j].name) in Constant(p, t)
  {
    hide Strip;
    LitsAreClean(t);
  }

  lemma UncleanDisagrees(p: Pieces, j: nat)
    requires j < |p| && p[j] == Lit('(') && !Guarded(p, j)
    ensures !AlwaysAgrees(p)
  {
    hide *;
    var t := VarFormed(p, j);
    var tokens, a := Constant(p, t), Lits(t);
    ConstantIsClean(p, t);
    LitsAreClean(t);
    var limit: nat := |p|;
    LitsExpand(tokens, t, limit);
    ExpandAppend(tokens, a, p, limit);
    FlatExpand(tokens, p, t, limit);
    Disagreement(tokens, a + p, limit, t + Flat(p, t), Expand(tokens, p, limit).left, t, Flat(p, t));
    SomewhereDisagrees(p, a, tokens, limit);
  }

  lemma Disagreement(tokens: map<string, Pieces>, p: Pieces, limit: nat, text: string, left: nat, t: string,
                     rest: string)
    requires Expand(tokens, p, limit) == Prepend(t, Done(rest, left)) && text == t + rest && Contains(text, "var(")
    ensures !Agrees(tokens, p, limit)
  {
    hide Expand, Contains, Loop, Text, TextMap;
    if Agrees(tokens, p, limit) { LoopOkIsPlain(Text(p), TextMap(tokens), limit); }
  }

  lemma SomewhereDisagrees(p: Pieces, a: Pieces, tokens: map<string, Pieces>, limit: nat)
    requires Clean(a) && CleanTokens(tokens) && !Agrees(tokens, a + p, limit)
    ensures !AlwaysAgrees(p)
  {
    hide Clean, CleanTokens, Agrees;
  }

  /**
   Cleanliness is exactly what it takes: a value, its names closed, loops as it
   expands in every clean context if and only if it is clean.
   */
  lemma CleanExactly(p: Pieces)
    requires Closed(p)
    ensures Clean(p) <==> AlwaysAgrees(p)
  {
    hide Guarded, Agrees, AlwaysAgrees, CleanTokens, Loop, Text, TextMap, Expand;
    if Clean(p) {
      forall a, tokens, limit: nat | Clean(a) && CleanTokens(tokens) ensures Agrees(tokens, a + p, limit) {
        CleanAgrees(tokens, a, p, limit);
      }
      EverywhereAgrees(p);
    } else {
      var j :| 0 <= j < |p| && p[j] == Lit('(') && !Guarded(p, j);
      UncleanDisagrees(p, j);
    }
  }

  lemma CleanAgrees(tokens: map<string, Pieces>, a: Pieces, p: Pieces, limit: nat)
    requires Clean(a) && Clean(p) && CleanTokens(tokens)
    ensures Agrees(tokens, a + p, limit)
  {
    hide Clean, CleanTokens, Loop, Text, TextMap, Expand;
    CleanJoin(a, p);
    LoopIsExpansion(tokens, a + p, limit);
  }

  lemma EverywhereAgrees(p: Pieces)
    requires forall a, tokens, limit: nat :: Clean(a) && CleanTokens(tokens) ==> Agrees(tokens, a + p, limit)
    ensures AlwaysAgrees(p)
  {
    hide Clean, CleanTokens, Agrees;
  }

  // ----- defined, acyclic tokens -----

  /** Every reference is to a token of lower rank. */
  ghost predicate Below(tokens: map<string, Pieces>, rank: map<string, nat>, p: Pieces, bound: nat) {
    forall j :: 0 <= j < |p| && p[j].Ref? ==>
      Strip(p[j].name) in tokens && Strip(p[j].name) in rank && rank[Strip(p[j].name)] < bound
  }

  ghost predicate Acyclic(tokens: map<string, Pieces>, rank: map<string, nat>) {
    forall n :: n in tokens ==> n in rank && Below(tokens, rank, tokens[n], rank[n])
  }

  /** The plain recursive expansion, and how many references it expands. */
  ghost function Full(tokens: map<string, Pieces>, rank: map<string, nat>, p: Pieces, bound: nat): (r: (string, nat))
    requires Acyclic(tokens, rank) && Below(tokens, rank, p, bound)
    decreases bound, |p|
  {
    if p == [] then ("", 0)
    else
      var rest := Full(tokens, rank, p[1..], bound);
      if p[0].Lit? then ([p[0].c] + rest.0, rest.1)
      else
        var name := Strip(p[0].name);
        var inner := Full(tokens, rank, tokens[name], rank[name]);
        (inner.0 + rest.0, 1 + inner.1 + rest.1)
  }

  lemma {:induction false} ExpandAcyclic(tokens: map<string, Pieces>, rank: map<string, nat>, p: Pieces, bound: nat,
                                         budget: nat)
    requires Acyclic(tokens, rank) && Below(tokens, rank, p, bound)
    ensures var (text, count) := Full(tokens, rank, p, bound);
            Expand(tokens, p, budget) == if count <= budget then Done(text, budget - count) else Spent
    decreases bound, |p|
  {
    hide Strip, Acyclic;
    if p != [] {
      if p[0].Lit? {
        ExpandAcyclic(tokens, rank, p[1..], bound, budget);
      } else {
        var name := Strip(p[0].name);
        AcyclicBelow(tokens, rank, name);
        ExpandHead(tokens, p, budget);
        var inner := Full(tokens, rank, tokens[name], rank[name]);
        if budget > 0 {
          ExpandAcyclic(tokens, rank, tokens[name], rank[name], budget - 1);
          if inner.1 <= budget - 1 {
            ExpandAcyclic(tokens, rank, p[1..], bound, budget - 1 - inner.1);
          }
        }
      }
    }
  }

  lemma AcyclicBelow(tokens: map<string, Pieces>, rank: map<string, nat>, name: string)
    requires Acyclic(tokens, rank) && name in tokens
    ensures name in rank && Below(tokens, rank, tokens[name], rank[name])
  {
  }

  /**
   For defined, acyclic tokens `resolve` returns the full recursive expansion
   exactly when that expands at most a hundred references.
   */
  lemma ResolveAcyclic(tokens: map<string, Pieces>, rank: map<string, nat>, p: Pieces, bound: nat)
    requires CleanTokens(tokens) && Clean(p) && Acyclic(tokens, rank) && Below(tokens, rank, p, bound)
    ensures var (text, count) := Full(tokens, rank, p, bound);
            Loop(Text(p), TextMap(tokens), 100) == if count <= 100 then Ok(text) else Err(Cyclic)
  {
    LoopIsExpansion(tokens, p, 100);
    ExpandAcyclic(tokens, rank, p, bound, 100);
  }

  // ----- what never resolves -----

  ghost predicate Mentions(p: Pieces, names: set<string>) {
    exists j :: 0 <= j < |p| && p[j].Ref? && Strip(p[j].name) in names
  }

  /** Names each of which is undefined or refers to another of them. */
  ghost predicate Trap(tokens: map<string, Pieces>, names: set<string>) {
    forall n :: n in names && n in tokens ==> Mentions(tokens[n], names)
  }

  lemma MentionsTail(p: Pieces, names: set<string>)
    requires Mentions(p, names) && !(p[0].Ref? && Strip(p[0].name) in names)
    ensures Mentions(p[1..], names)
  {
    hide Strip;
    var j :| 0 <= j < |p| && p[j].Ref? && Strip(p[j].name) in names;
    var tail := p[1..];
    assert tail[j - 1] == p[j];
  }

  lemma {:induction false} TrapNeverExpands(tokens: map<string, Pieces>, names: set<string>, p: Pieces, budget: nat)
    requires Trap(tokens, names) && Mentions(p, names)
    ensures !Expand(tokens, p, budget).Done?
    decreases budget, |p|
  {
    hide Strip, Mentions;
    assert p != [] by { MentionsSome(p, names); }
    if p[0].Ref? && Strip(p[0].name) in names {
      if Strip(p[0].name) in tokens && budget > 0 {
        TrapNeverExpands(tokens, names, tokens[Strip(p[0].name)], budget - 1);
      }
    } else {
      MentionsTail(p, names);
      if p[0].Lit? {
        TrapNeverExpands(tokens, names, p[1..], budget);
      } else if Strip(p[0].name) in tokens && budget > 0 {
        var inner := Expand(tokens, tokens[Strip(p[0].name)], budget - 1);
        if inner.Done? { TrapNeverExpands(tokens, names, p[1..], inner.left); }
      }
    }
  }

  lemma MentionsSome(p: Pieces, names: set<string>)
    requires Mentions(p, names)
    ensures p != []
  {
  }

  lemma TrapFails(tokens: map<string, Pieces>, names: set<string>, p: Pieces, limit: nat)
    requires CleanTokens(tokens) && Clean(p) && Trap(tokens, names) && Mentions(p, names)
    ensures Loop(Text(p), TextMap(tokens), limit).Err?
  {
    LoopIsExpansion(tokens, p, limit);
    TrapNeverExpands(tokens, names, p, limit);
  }

  /** A value that mentions a trapped name never resolves, whatever the limit. */
  lemma TrapNeverResolves(tokens: map<string, Pieces>, p: Pieces, names: set<string>)
    requires CleanTokens(tokens) && Clean(p)
    ensures Trap(tokens, names) && Mentions(p, names) ==>
              forall limit: nat :: Loop(Text(p), TextMap(tokens), limit).Err?
  {
    hide *;
    if Trap(tokens, names) && Mentions(p, names) {
      forall limit: nat ensures Loop(Text(p), TextMap(tokens), limit).Err? {
        TrapFails(tokens, names, p, limit);
      }
    }
  }

  // ----- exactly what resolves -----

  /** More budget leaves more over and changes nothing else. */
  lemma {:induction false} ExpandMore(tokens: map<string, Pieces>, p: Pieces, budget: nat, more: nat)
    requires Expand(tokens, p, budget).Done?
    ensures var o := Expand(tokens, p, budget);
            Expand(tokens, p, budget + more) == Done(o.text, o.left + more)
    decreases budget, |p|
  {
    hide Strip;
    if p != [] {
      if p[0].Lit? {
        ExpandMore(tokens, p[1..], budget, more);
      } else {
        var inner := Expand(tokens, tokens[Strip(p[0].name)], budget - 1);
        ExpandMore(tokens, tokens[Strip(p[0].name)], budget - 1, more);
        ExpandMore(tokens, p[1..], inner.left, more);
      }
    }
  }

  ghost predicate Resolvable(tokens: map<string, Pieces>, p: Pieces) {
    exists budget: nat :: Expand(tokens, p, budget).Done?
  }

  ghost predicate Sound(tokens: map<string, Pieces>, name: string) {
    name in tokens && Resolvable(tokens, tokens[name])
  }

  lemma {:induction false} AllSound(tokens: map<string, Pieces>, p: Pieces)
    requires forall j :: 0 <= j < |p| && p[j].Ref? ==> Sound(tokens, Strip(p[j].name))
    ensures Resolvable(tokens, p)
    decreases |p|
  {
    hide Strip;
    if p == [] {
      assert Expand(tokens, p, 0).Done?;
    } else {
      var rest := p[1..];
      forall j | 0 <= j < |rest| && rest[j].Ref? ensures Sound(tokens, Strip(rest[j].name)) {
        assert rest[j] == p[j + 1];
      }
      AllSound(tokens, rest);
      var b: nat :| Expand(tokens, rest, b).Done?;
      if p[0].Lit? {
        assert Expand(tokens, p, b).Done?;
      } else {
        var inner := tokens[Strip(p[0].name)];
        assert Sound(tokens, Strip(p[0].name));
        var a: nat :| Expand(tokens, inner, a).Done?;
        ExpandMore(tokens, inner, a, b);
        ExpandMore(tokens, rest, b, Expand(tokens, inner, a).left);
        assert Expand(tokens, p, a + b + 1).Done?;
      }
    }
  }

  lemma UnsoundMention(tokens: map<string, Pieces>, p: Pieces) returns (name: string)
    requires !Resolvable(tokens, p)
    ensures name in NamesIn(p) && !Sound(tokens, name)
  {
    hide Strip, Sound, Resolvable;
    if forall j :: 0 <= j < |p| && p[j].Ref? ==> Sound(tokens, Strip(p[j].name)) {
      AllSound(tokens, p);
    }
    var j :| 0 <= j < |p| && p[j].Ref? && !Sound(tokens, Strip(p[j].name));
    name := Strip(p[j].name);
  }

  ghost function Unsound(tokens: map<string, Pieces>, p: Pieces): set<string> {
    set n | n in NamesIn(p) + (set t, m | t in tokens && m in NamesIn(tokens[t]) :: m) && !Sound(tokens, n)
  }

  lemma UnsoundIsTrap(tokens: map<string, Pieces>, p: Pieces)
    ensures Trap(tokens, Unsound(tokens, p))
  {
    var names := Unsound(tokens, p);
    forall n | n in names && n in tokens ensures Mentions(tokens[n], names) {
      assert !Resolvable(tokens, tokens[n]);
      var m := UnsoundMention(tokens, tokens[n]);
      assert m in names;
      var j :| 0 <= j < |tokens[n]| && tokens[n][j].Ref? && Strip(tokens[n][j].name) == m;
    }
  }

  lemma UnresolvableIsTrapped(tokens: map<string, Pieces>, p: Pieces)
    requires !Resolvable(tokens, p)
    ensures Trap(tokens, Unsound(tokens, p)) && Mentions(p, Unsound(tokens, p))
  {
    var name := UnsoundMention(tokens, p);
    UnsoundIsTrap(tokens, p);
    hide Strip, Trap, Resolvable, Sound;
    var j :| 0 <= j < |p| && p[j].Ref? && Strip(p[j].name) == name;
  }

  lemma ResolvableLoops(tokens: map<string, Pieces>, p: Pieces)
    requires CleanTokens(tokens) && Clean(p) && Resolvable(tokens, p)
    ensures exists limit: nat :: Loop(Text(p), TextMap(tokens), limit).Ok?
  {
    hide Clean, CleanTokens, Loop, Text, TextMap, Expand;
    var limit: nat :| Expand(tokens, p, limit).Done?;
    LoopIsExpansion(tokens, p, limit);
  }

  /** A value can be resolved, given enough steps, exactly when it mentions no trapped name. */
  lemma ResolvesExactly(tokens: map<string, Pieces>, p: Pieces)
    requires CleanTokens(tokens) && Clean(p)
    ensures (exists limit: nat :: Loop(Text(p), TextMap(tokens), limit).Ok?)
            <==> !(exists names :: Trap(tokens, names) && Mentions(p, names))
  {
    hide *;
    forall names { TrapNeverResolves(tokens, p, names); }
    if Resolvable(tokens, p) {
      ResolvableLoops(tokens, p);
    } else {
      UnresolvableIsTrapped(tokens, p);
    }
  }

  // ----- strings as they are authored -----

  /** The pieces of a string, read from the left: closed references, everything else literal. */
  function Parse(s: string): Pieces
    decreases |s|
  {
    if s == "" then []
    else if MatchesAt(s, 0, "var(") && Closing(s, 0).Some? then
      var end := Closing(s, 0).value;
      [Ref(s[4..end])] + Parse(s[end + 1..])
    else [Lit(s[0])] + Parse(s[1..])
  }

  lemma {:induction false} ParsePrints(s: string)
    ensures Text(Parse(s)) == s
    decreases |s|
  {
    if s != "" {
      if MatchesAt(s, 0, "var(") && Closing(s, 0).Some? {
        var end := Closing(s, 0).value;
        ParsePrints(s[end + 1..]);
        ParsedHead(s, end);
        assert ([Ref(s[4..end])] + Parse(s[end + 1..]))[1..] == Parse(s[end + 1..]);
      } else {
        ParsePrints(s[1..]);
        assert ([Lit(s[0])] + Parse(s[1..]))[1..] == Parse(s[1..]);
        assert [s[0]] + s[1..] == s;
      }
    }
  }

  /** What is read from a string has closed names, so `CleanExactly` speaks of every string. */
  lemma {:induction false} ParsedIsClosed(s: string)
    ensures Closed(Parse(s))
    decreases |s|
  {
    if s != "" {
      var p := Parse(s);
      if MatchesAt(s, 0, "var(") && Closing(s, 0).Some? {
        var end := Closing(s, 0).value;
        ParsedIsClosed(s[end + 1..]);
        forall k | 0 <= k < end - 4 ensures s[4..end][k] != ')' {
          assert !MatchesAt(s, k + 4, ")");
          assert s[k + 4..k + 5] == [s[k + 4]];
        }
        assert p[1..] == Parse(s[end + 1..]);
      } else {
        ParsedIsClosed(s[1..]);
        assert p[1..] == Parse(s[1..]);
      }
      forall j | 0 < j < |p| && p[j].Ref? ensures ')' !in p[j].name { assert p[1..][j - 1] == p[j]; }
    }
  }

  lemma ParsedHead(s: string, end: nat)
    requires MatchesAt(s, 0, "var(") && Closing(s, 0) == Some(end)
    ensures "var(" + s[4..end] + ")" + s[end + 1..] == s
  {
    assert s[0..4] == "var(" && s[end..end + 1] == ")";
    assert s == s[0..4] + s[4..end] + s[end..end + 1] + s[end + 1..];
  }

  function ParseMap(tokens: map<string, string>): map<string, Pieces> {
    map n | n in tokens :: Parse(tokens[n])
  }

  /** The same for plain strings whose pieces are clean: the loop is the recursive expansion. */
  lemma LoopIsExpansionOfStrings(tokens: map<string, string>, value: string, left: nat)
    requires Clean(Parse(value)) && forall n :: n in tokens ==> Clean(Parse(tokens[n]))
    ensures Loop(value, tokens, left) == AsResult(Expand(ParseMap(tokens), Parse(value), left))
  {
    hide Clean, Loop, Expand, Parse, Text;
    ParsePrints(value);
    forall n | n in tokens ensures Text(Parse(tokens[n])) == tokens[n] { ParsePrints(tokens[n]); }
    assert TextMap(ParseMap(tokens)) == tokens;
    LoopIsExpansion(ParseMap(tokens), Parse(value), left);
  }

  // ----- the tiers -----

  /** An ordered dictionary of tokens. */
  datatype Dictionary = Dictionary(names: seq<string>, values: map<string, string>)

  ghost predicate WellFormed(t: Dictionary) {
    && (forall i, j :: 0 <= i < j < |t.names| ==> t.names[i] != t.names[j])
    && forall n :: n in t.names <==> n in t.values
  }

  /** One assignment: a new name goes to the end, an old one keeps its place. */
  function Assign(t: Dictionary, name: string, value: string): Dictionary {
    Dictionary(if name in t.names then t.names else t.names + [name], t.values[name := value])
  }

  /** The assignments of the first `k` entries of another dictionary. */
  function Updated(t: Dictionary, tier: Dictionary, k: nat): Dictionary
    requires WellFormed(tier) && k <= |tier.names|
  {
    if k == 0 then t
    else Assign(Updated(t, tier, k - 1), tier.names[k - 1], tier.values[tier.names[k - 1]])
  }

  /** The tiers merged in order. */
  function Merged(tiers: seq<Dictionary>): Dictionary
    requires forall tier :: tier in tiers ==> WellFormed(tier)
  {
    if tiers == [] then Dictionary([], map[])
    else
      var k := |tiers| - 1;
      Updated(Merged(tiers[..k]), tiers[k], |tiers[k].names|)
  }

  /** The names of a list that a dictionary does not have yet. */
  function NewNames(names: seq<string>, t: Dictionary): seq<string> {
    if names == [] then []
    else
      var k := |names| - 1;
      NewNames(names[..k], t) + (if names[k] in t.names then [] else [names[k]])
  }

  lemma {:induction false} NewNamesExact(names: seq<string>, t: Dictionary, name: string)
    ensures name in NewNames(names, t) <==> name in names && name !in t.names
  {
    if names != [] {
      var k := |names| - 1;
      assert names == names[..k] + [names[k]];
      NewNamesExact(names[..k], t, name);
    }
  }

  lemma AssignExact(t: Dictionary, name: string, value: string)
    requires WellFormed(t)
    ensures WellFormed(Assign(t, name, value))
  {
  }

  lemma NewNamesStep(names: seq<string>, t: Dictionary, name: string)
    ensures NewNames(names + [name], t) == NewNames(names, t) + (if name in t.names then [] else [name])
  {
    assert (names + [name])[..|names|] == names;
  }

  /** The values of `u` are those of the tier for the names seen so far, and those of `t` for the others. */
  ghost predicate TookValues(u: Dictionary, t: Dictionary, tier: Dictionary, seen: seq<string>) {
    && (forall n :: n in seen ==> n in tier.values)
    && (forall n :: n in u.values <==> n in t.values || n in seen)
    && forall n :: n in u.values && (n in seen || n in t.values) ==>
         u.values[n] == if n in seen then tier.values[n] else t.values[n]
  }

  /** `u` is `t` after the assignments of the names seen so far. */
  ghost predicate Took(u: Dictionary, t: Dictionary, tier: Dictionary, seen: seq<string>) {
    WellFormed(u) && u.names == t.names + NewNames(seen, t) && TookValues(u, t, tier, seen)
  }

  lemma TookNext(u: Dictionary, t: Dictionary, tier: Dictionary, seen: seq<string>, name: string)
    requires Took(u, t, tier, seen) && name !in seen && name in tier.values
    ensures Took(Assign(u, name, tier.values[name]), t, tier, seen + [name])
  {
    hide NewNames, WellFormed, TookValues;
    AssignExact(u, name, tier.values[name]);
    NewNamesStep(seen, t, name);
    NewNamesExact(seen, t, name);
    UpdatedNames(u.names, t.names, NewNames(seen, t), name);
    TookValue(u, t, tier, seen, name);
  }

  lemma TookValue(u: Dictionary, t: Dictionary, tier: Dictionary, seen: seq<string>, name: string)
    requires TookValues(u, t, tier, seen) && name in tier.values
    ensures TookValues(Assign(u, name, tier.values[name]), t, tier, seen + [name])
  {
    forall n ensures n in seen + [name] <==> n in seen || n == name {}
  }

  /** An update adds the new names behind the old ones, in their order, and takes over every value. */
  lemma {:induction false} UpdatedExact(t: Dictionary, tier: Dictionary, k: nat)
    requires WellFormed(t) && WellFormed(tier) && k <= |tier.names|
    ensures Took(Updated(t, tier, k), t, tier, tier.names[..k])
  {
    hide Updated, Took;
    if k == 0 {
      UpdatedNothing(t, tier);
      TookNothing(t, tier);
      assert tier.names[..k] == [];
    } else {
      UpdatedExact(t, tier, k - 1);
      UpdatedStep(t, tier, k);
      assert tier.names[..k] == tier.names[..k - 1] + [tier.names[k - 1]];
      TookNext(Updated(t, tier, k - 1), t, tier, tier.names[..k - 1], tier.names[k - 1]);
    }
  }

  lemma TookNothing(t: Dictionary, tier: Dictionary)
    requires WellFormed(t)
    ensures Took(t, t, tier, [])
  {
    assert t.names + [] == t.names;
  }

  lemma UpdatedNames(before: seq<string>, own: seq<string>, added: seq<string>, name: string)
    requires before == own + added && name !in added
    ensures (if name in before then before else before + [name]) == own + (added + (if name in own then [] else [name]))
  {
    assert name in before <==> name in own;
    assert added + [] == added;
    assert own + (added + [name]) == own + added + [name];
  }

  lemma UpdatedNothing(t: Dictionary, tier: Dictionary)
    requires WellFormed(tier)
    ensures Updated(t, tier, 0) == t
  {
  }

  lemma UpdatedStep(t: Dictionary, tier: Dictionary, k: nat)
    requires WellFormed(tier) && 0 < k <= |tier.names|
    ensures Updated(t, tier, k) == Assign(Updated(t, tier, k - 1), tier.names[k - 1], tier.values[tier.names[k - 1]])
  {
  }

  /** The last tier that has the name. */
  ghost predicate LastTier(tiers: seq<Dictionary>, name: string, i: nat) {
    i < |tiers| && name in tiers[i].values && forall j :: i < j < |tiers| ==> name !in tiers[j].values
  }

  /** Merging one more tier: its names come behind, its values win. */
  lemma MergedStep(tiers: seq<Dictionary>)
    requires tiers != [] && forall tier :: tier in tiers ==> WellFormed(tier)
    requires WellFormed(Merged(tiers[..|tiers| - 1]))
    ensures var k := |tiers| - 1;
            var m, before, last := Merged(tiers), Merged(tiers[..k]), tiers[k];
            && WellFormed(m) && m.names == before.names + NewNames(last.names, before)
            && (forall n :: n in m.values <==> n in before.values || n in last.values)
            && forall n :: n in m.values ==>
                 m.values[n] == if n in last.values then last.values[n] else before.values[n]
  {
    hide NewNames, Updated;
    var k := |tiers| - 1;
    var last := tiers[k];
    assert last in tiers;
    UpdatedExact(Merged(tiers[..k]), last, |last.names|);
    assert last.names[..|last.names|] == last.names;
  }

  lemma {:induction false} MergedWellFormed(tiers: seq<Dictionary>)
    requires forall tier :: tier in tiers ==> WellFormed(tier)
    ensures WellFormed(Merged(tiers))
  {
    if tiers != [] {
      hide Merged, WellFormed;
      MergedWellFormed(tiers[..|tiers| - 1]);
      MergedStep(tiers);
    }
  }

  /**
   A name is among the merged tokens exactly when some tier has it, and stands for
   the value in the last one that does.
   */
  lemma {:induction false} LastTierWins(tiers: seq<Dictionary>, name: string)
    requires forall tier :: tier in tiers ==> WellFormed(tier)
    ensures name in Merged(tiers).values <==> exists i: nat :: LastTier(tiers, name, i)
    ensures forall i: nat :: LastTier(tiers, name, i) ==>
              name in Merged(tiers).values && Merged(tiers).values[name] == tiers[i].values[name]
  {
    if tiers != [] {
      hide Merged, WellFormed, LastTier, NewNames;
      var k := |tiers| - 1;
      MergedWellFormed(tiers[..k]);
      MergedStep(tiers);
      LastTierWins(tiers[..k], name);
      LastTierStep(tiers, name, k);
      forall i: nat { LastTierStep(tiers, name, i); }
      if name !in tiers[k].values {
        forall i: nat | LastTier(tiers, name, i)
          ensures name in Merged(tiers).values && Merged(tiers).values[name] == tiers[i].values[name]
        {
          assert LastTier(tiers[..k], name, i);
        }
      }
    }
  }

  /** The names of the merged tokens: those of earlier tiers first, each at its first occurrence. */
  lemma MergedOrder(tiers: seq<Dictionary>, k: nat)
    requires k < |tiers| && forall tier :: tier in tiers ==> WellFormed(tier)
    ensures Merged(tiers[..k + 1]).names == Merged(tiers[..k]).names + NewNames(tiers[k].names, Merged(tiers[..k]))
  {
    hide Merged, WellFormed, NewNames;
    assert tiers[..k + 1][..k] == tiers[..k];
    MergedWellFormed(tiers[..k]);
    MergedStep(tiers[..k + 1]);
  }

  lemma LastTierStep(tiers: seq<Dictionary>, name: string, i: nat)
    requires tiers != []
    ensures var k := |tiers| - 1;
            && (LastTier(tiers, name, i) <==> if name in tiers[k].values then i == k else LastTier(tiers[..k], name, i))
            && (LastTier(tiers[..k], name, i) ==> i < k && tiers[..k][i] == tiers[i])
  {
  }

  method AllTokens(tiers: seq<Dictionary>) returns (merged: Dictionary)
    requires forall tier :: tier in tiers ==> WellFormed(tier)
    ensures merged == Merged(tiers) && WellFormed(merged)
  {
    hide Updated, WellFormed;
    merged := Dictionary([], map[]);
    for i := 0 to |tiers|
      invariant merged == Merged(tiers[..i])
    {
      assert tiers[..i + 1][..i] == tiers[..i];
      merged := Updated(merged, tiers[i], |tiers[i].names|);
    }
    assert tiers[..|tiers|] == tiers;
    MergedWellFormed(tiers);
  }

  /** Every token resolved, or the first failure in the order of the names. */
  function Flattened(names: seq<string>, tokens: map<string, string>): Result<map<string, string>, TokenError>
    requires forall n :: n in names ==> n in tokens
  {
    if names == [] then Ok(map[])
    else
      var k := |names| - 1;
      var front := Flattened(names[..k], tokens);
      if front.Err? then front
      else
        var last := Loop(tokens[names[k]], tokens, LIMIT);
        if last.Err? then Err(last.error) else Ok(front.value[names[k] := last.value])
  }

  /** The values under their names, or the failure. */
  function InOrder(names: seq<string>, flat: Result<map<string, string>, TokenError>): Result<Dictionary, TokenError> {
    if flat.Ok? then Ok(Dictionary(names, flat.value)) else Err(flat.error)
  }

  /** The first of the names that does not resolve, and how it fails. */
  ghost predicate FailsFirst(names: seq<string>, tokens: map<string, string>, k: nat, error: TokenError)
    requires forall n :: n in names ==> n in tokens
  {
    && k < |names| && Loop(tokens[names[k]], tokens, 100) == Err(error)
    && forall j :: 0 <= j < k ==> Loop(tokens[names[j]], tokens, 100).Ok?
  }

  /** What a flattened dictionary says of every token. */
  lemma {:induction false} FlattenedExact(names: seq<string>, tokens: map<string, string>)
    requires forall n :: n in names ==> n in tokens
    ensures var r := Flattened(names, tokens);
            && (r.Ok? <==> forall n :: n in names ==> Loop(tokens[n], tokens, 100).Ok?)
            && (r.Ok? ==> forall n :: n in r.value <==> n in names)
            && (r.Ok? ==> forall n :: n in names ==> Loop(tokens[n], tokens, 100) == Ok(r.value[n]))
            && (r.Err? ==> exists k: nat :: FailsFirst(names, tokens, k, r.error))
  {
    hide Loop;
    if names != [] {
      var k := |names| - 1;
      assert names == names[..k] + [names[k]];
      var front := Flattened(names[..k], tokens);
      FlattenedExact(names[..k], tokens);
      if front.Err? {
        var j: nat :| FailsFirst(names[..k], tokens, j, front.error);
        assert FailsFirst(names, tokens, j, front.error);
      } else if Loop(tokens[names[k]], tokens, 100).Err? {
        forall j | 0 <= j < k ensures Loop(tokens[names[j]], tokens, 100).Ok? { assert names[..k][j] in names[..k]; }
        assert FailsFirst(names, tokens, k, Loop(tokens[names[k]], tokens, 100).error);
      }
    }
  }

  lemma FlattenedStep(names: seq<string>, tokens: map<string, string>, k: nat)
    requires k <= |names| && forall n :: n in names ==> n in tokens
    ensures Flattened(names[..k], tokens) ==
            if k == 0 then Ok(map[])
            else
              var front := Flattened(names[..k - 1], tokens);
              if front.Err? then front
              else
                var last := Loop(tokens[names[k - 1]], tokens, LIMIT);
                if last.Err? then Err(last.error) else Ok(front.value[names[k - 1] := last.value])
  {
    hide Loop;
    if k > 0 { assert names[..k][..k - 1] == names[..k - 1]; }
  }

  /** Every token of the dictionary resolved, in the same order, or the first failure. */
  method Flatten(t: Dictionary) returns (r: Result<Dictionary, TokenError>)
    requires WellFormed(t)
    ensures r == InOrder(t.names, Flattened(t.names, t.values))
    ensures r.Ok? ==> WellFormed(r.value) && forall n :: n in r.value.values ==> !Contains(r.value.values[n], "var(")
  {
    hide Loop, Contains, Flattened;
    var flat: map<string, string> := map[];
    FlattenedExact(t.names, t.values);
    FlattenedStep(t.names, t.values, 0);
    for i := 0 to |t.names|
      invariant Flattened(t.names[..i], t.values) == Ok(flat)
      invariant forall n :: n in flat ==> !Contains(flat[n], "var(")
    {
      FlattenedStep(t.names, t.values, i + 1);
      var value := Resolve(t.values[t.names[i]], t.values);
      if value.Err? {
        FailsOnward(t.names, t.values, i + 1);
        return Err(value.error);
      }
      flat := flat[t.names[i] := value.value];
    }
    assert t.names[..|t.names|] == t.names;
    r := Ok(Dictionary(t.names, flat));
  }

  lemma {:induction false} FailsOnward(names: seq<string>, tokens: map<string, string>, k: nat)
    requires k <= |names| && (forall n :: n in names ==> n in tokens)
    requires Flattened(names[..k], tokens).Err?
    ensures Flattened(names, tokens) == Flattened(names[..k], tokens)
    decreases |names| - k
  {
    hide Loop;
    if k == |names| {
      assert names[..k] == names;
    } else {
      assert names[..k + 1][..k] == names[..k];
      FailsOnward(names, tokens, k + 1);
    }
  }

  /** Each token mentions at most one other. */
  ghost predicate Single(p: Pieces) {
    forall i, j :: 0 <= i < j < |p| && p[i].Ref? ==> p[j].Lit?
  }

  lemma {:induction false} SingleCount(tokens: map<string, Pieces>, rank: map<string, nat>, p: Pieces, bound: nat)
    requires Acyclic(tokens, rank) && Below(tokens, rank, p, bound)
    requires Single(p) && forall n :: n in tokens ==> Single(tokens[n])
    ensures Full(tokens, rank, p, bound).1 <= bound
    decreases bound, |p|
  {
    if p != [] {
      var rest := p[1..];
      assert Single(rest) by {
        forall i, j | 0 <= i < j < |rest| && rest[i].Ref? ensures rest[j].Lit? { assert p[i + 1].Ref?; }
      }
      if p[0].Lit? {
        SingleCount(tokens, rank, rest, bound);
      } else {
        var name := Strip(p[0].name);
        SingleCount(tokens, rank, tokens[name], rank[name]);
        forall j | 0 <= j < |rest| ensures rest[j].Lit? { assert rest[j] == p[j + 1]; }
        NoneLeft(tokens, rank, rest, bound);
      }
    }
  }

  lemma {:induction false} NoneLeft(tokens: map<string, Pieces>, rank: map<string, nat>, p: Pieces, bound: nat)
    requires Acyclic(tokens, rank) && Below(tokens, rank, p, bound)
    requires forall j :: 0 <= j < |p| ==> p[j].Lit?
    ensures Full(tokens, rank, p, bound).1 == 0
    decreases |p|
  {
    if p != [] { NoneLeft(tokens, rank, p[1..], bound); }
  }

  /** Chains of aliases, as the three tiers are, always resolve while they are at most a hundred long. */
  lemma AliasChainsResolve(tokens: map<string, Pieces>, rank: map<string, nat>, name: string)
    requires CleanTokens(tokens) && Acyclic(tokens, rank) && name in tokens
    requires (forall n :: n in tokens ==> Single(tokens[n])) && rank[name] <= 100
    ensures Loop(Text(tokens[name]), TextMap(tokens), 100) == Ok(Full(tokens, rank, tokens[name], rank[name]).0)
  {
    SingleCount(tokens, rank, tokens[name], rank[name]);
    ResolveAcyclic(tokens, rank, tokens[name], rank[name]);
  }
}