/** The rules of the SQL gate on the characters and words of the query itself. */
module SqlRules {
  import opened PyText
  import opened SqlGate

  // ----- characters, pairs and words -----

  ghost predicate HoldsPair(s: string, a: char, b: char) {
    exists i :: 0 <= i < |s| - 1 && s[i] == a && s[i + 1] == b
  }

  ghost predicate InWord(c: char) {
    'a' <= c <= 'z' || 'A' <= c <= 'Z' || '0' <= c <= '9' || c == '_'
  }

  /** The word stands at position `i`, in any letter case, with no word character on either side. */
  ghost predicate WordAt(s: string, i: nat, word: string) {
    && i + |word| <= |s| && Lower(s[i..i + |word|]) == word
    && (i > 0 ==> !InWord(s[i - 1])) && (i + |word| < |s| ==> !InWord(s[i + |word|]))
  }

  ghost predicate HoldsWord(s: string, word: string) {
    exists i: nat :: WordAt(s, i, word)
  }

  /** The nine words no query may hold. */
  ghost predicate IsForbidden(word: string) {
    || word == "drop" || word == "delete" || word == "truncate" || word == "alter" || word == "insert"
    || word == "update" || word == "merge" || word == "exec" || word == "union"
  }

  /** But for its margin the text starts with `select`, in any letter case, and a space. */
  ghost predicate Selects(sql: string) {
    |Strip(sql)| >= 7 && Lower(Strip(sql)[..7]) == "select "
  }

  // ----- the margin -----

  /** The stripped text is a slice of the text, with nothing but whitespace around it. */
  lemma StripSlice(sql: string) returns (a: nat, b: nat)
    ensures a <= b <= |sql| && Strip(sql) == sql[a..b]
    ensures forall j :: 0 <= j < a || b <= j < |sql| ==> IsSpace(sql[j])
  {
    hide LStrip, RStrip, IsSpace;
    LStripShape(sql);
    var l := LStrip(sql);
    RStripShape(l);
    a := |sql| - |l|;
    b := a + |RStrip(l)|;
    forall j | b <= j < |sql| ensures IsSpace(sql[j]) { assert l[j - a] == sql[j]; }
  }

  lemma CharStays(sql: string, c: char)
    requires !IsSpace(c)
    ensures c in sql <==> c in Strip(sql)
  {
    hide Strip, IsSpace;
    if c in sql { StripKeeps(sql, c); }
    var a, b := StripSlice(sql);
    assert c in sql[a..b] ==> c in sql;
  }

  lemma PairStays(sql: string, c: char, d: char)
    requires !IsSpace(c) && !IsSpace(d)
    ensures HoldsPair(sql, c, d) <==> HoldsPair(Strip(sql), c, d)
  {
    hide Strip, IsSpace;
    var a, b := StripSlice(sql);
    var s := Strip(sql);
    if i :| 0 <= i < |sql| - 1 && sql[i] == c && sql[i + 1] == d {
      assert a <= i && i + 1 < b;
      assert s[i - a] == c && s[i - a + 1] == d;
    }
    if i :| 0 <= i < |s| - 1 && s[i] == c && s[i + 1] == d {
      assert sql[a + i] == c && sql[a + i + 1] == d;
    }
  }

  lemma SpaceNoWord(c: char)
    ensures IsSpace(c) ==> !InWord(c)
    ensures InWord(c) <==> IsWord(c)
    ensures InWord(LowerChar(c)) <==> InWord(c)
    ensures IsWord(LowerChar(c)) <==> InWord(c)
    ensures IsSpace(LowerChar(c)) <==> IsSpace(c)
  {
  }

  /** Words are letters. */
  ghost predicate Plain(word: string) {
    word != "" && forall j :: 0 <= j < |word| ==> 'a' <= word[j] <= 'z'
  }

  lemma WordChars(s: string, i: nat, word: string)
    requires i + |word| <= |s| && Lower(s[i..i + |word|]) == word && Plain(word)
    ensures forall j :: i <= j < i + |word| ==> InWord(s[j])
  {
    forall j | i <= j < i + |word| ensures InWord(s[j]) {
      assert s[i..i + |word|][j - i] == s[j];
      SpaceNoWord(s[j]);
    }
  }

  lemma InnerSlice(t: string, a: nat, b: nat, x: nat, y: nat)
    requires a <= b <= |t| && x <= y <= b - a
    ensures t[a..b][x..y] == t[a + x..a + y]
  {
    var s, u := t[a..b][x..y], t[a + x..a + y];
    assert forall k :: 0 <= k < y - x ==> s[k] == t[a..b][x + k] && u[k] == t[a + x + k];
    assert s == u;
  }

  lemma WordStays(sql: string, word: string)
    requires Plain(word)
    ensures HoldsWord(sql, word) <==> HoldsWord(Strip(sql), word)
  {
    hide Strip, IsSpace, InWord, Lower;
    var a, b := StripSlice(sql);
    var s, n := Strip(sql), |word|;
    forall j | 0 <= j < |sql| { SpaceNoWord(sql[j]); }
    if i: nat :| WordAt(sql, i, word) {
      WordChars(sql, i, word);
      assert InWord(sql[i]) && InWord(sql[i + n - 1]);
      assert a <= i && i + n <= b;
      InnerSlice(sql, a, b, i - a, i - a + n);
      assert WordAt(s, i - a, word);
    }
    if i: nat :| WordAt(s, i, word) {
      InnerSlice(sql, a, b, i, i + n);
      assert WordAt(sql, a + i, word);
    }
  }

  // ----- the same in the terms of the gate -----

  lemma PairContained(s: string, p: string)
    requires |p| == 2
    ensures Contains(s, p) <==> HoldsPair(s, p[0], p[1])
  {
    if i :| 0 <= i <= |s| && MatchesAt(s, i, p) { MatchesChars(s, i, p); }
    if i :| 0 <= i < |s| - 1 && s[i] == p[0] && s[i + 1] == p[1] {
      assert s[i..i + 2] == [p[0], p[1]] == p;
      assert MatchesAt(s, i, p);
    }
  }

  lemma WordThere(s: string, word: string, i: nat)
    requires Plain(word)
    ensures WordAt(s, i, word) <==>
            MatchesAt(Lower(s), i, word) && Boundary(Lower(s), i) && Boundary(Lower(s), i + |word|)
  {
    var n := |word|;
    if i + n <= |s| {
      LowerSlice(s, i, i + n);
      hide InWord, IsSpace, IsWord;
      if Lower(s[i..i + n]) == word {
        WordChars(s, i, word);
        assert InWord(s[i]) && InWord(s[i + n - 1]);
        SpaceNoWord(s[i]);
        SpaceNoWord(s[i + n - 1]);
        if i > 0 { SpaceNoWord(s[i - 1]); }
        if i + n < |s| { SpaceNoWord(s[i + n]); }
      }
    }
  }

  lemma WordFound(s: string, word: string)
    requires Plain(word)
    ensures HasWord(Lower(s), word) <==> HoldsWord(s, word)
  {
    var t, n := Lower(s), |word|;
    hide WordAt, Lower, Boundary;
    if HasWord(t, word) {
      var i :| 0 <= i <= |t| && MatchesAt(t, i, word) && Boundary(t, i) && Boundary(t, i + n);
      WordThere(s, word, i);
    }
    if i: nat :| WordAt(s, i, word) {
      WordThere(s, word, i);
      assert MatchesAt(t, i, word) && Boundary(t, i) && Boundary(t, i + n) && i <= |t|;
    }
  }

  lemma ForbiddenExactly(s: string)
    ensures ForbiddenWord(Lower(s)) <==> exists word :: IsForbidden(word) && HoldsWord(s, word)
  {
    hide HasWord, HoldsWord, Lower;
    forall k | 0 <= k < |FORBIDDEN| ensures IsForbidden(FORBIDDEN[k]) && Plain(FORBIDDEN[k]) {}
    forall word | IsForbidden(word) ensures exists k :: 0 <= k < |FORBIDDEN| && FORBIDDEN[k] == word {
      ForbiddenListed(word);
    }
    forall k | 0 <= k < |FORBIDDEN|
      ensures HasWord(Lower(s), FORBIDDEN[k]) <==> HoldsWord(s, FORBIDDEN[k])
    {
      WordFound(s, FORBIDDEN[k]);
    }
  }

  lemma ForbiddenListed(word: string)
    requires IsForbidden(word)
    ensures exists k :: 0 <= k < |FORBIDDEN| && FORBIDDEN[k] == word
  {
    assert FORBIDDEN[0] == "drop" && FORBIDDEN[1] == "delete" && FORBIDDEN[2] == "truncate"
      && FORBIDDEN[3] == "alter" && FORBIDDEN[4] == "insert" && FORBIDDEN[5] == "update"
      && FORBIDDEN[6] == "merge" && FORBIDDEN[7] == "exec" && FORBIDDEN[8] == "union";
  }

  // ----- what each rule refuses -----

  lemma SelectExactly(sql: string)
    ensures "select " <= Lower(Strip(sql)) <==> Selects(sql)
  {
    hide Strip, Lower;
    var s := Strip(sql);
    if |s| >= 7 { LowerSlice(s, 0, 7); }
    assert |Lower(s)| == |s|;
  }

  /** One statement only, no comments, no literals: on the characters of the text as it was sent. */
  lemma CharacterRules(sql: string, source: string)
    ensures SingleStatementRequired in WarningsOf(sql, source) <==> ';' in sql
    ensures LiteralValuesNotAllowed in WarningsOf(sql, source) <==> '\'' in sql || '"' in sql
    ensures SqlCommentsNotAllowed in WarningsOf(sql, source) <==>
              HoldsPair(sql, '-', '-') || HoldsPair(sql, '/', '*') || HoldsPair(sql, '*', '/')
  {
    hide Strip, WarningsOf, HoldsPair, Contains, ExpectedTable;
    WarningsAreViolations(sql, source);
    CharStays(sql, ';');
    CharStays(sql, '\'');
    CharStays(sql, '"');
    PairStays(sql, '-', '-');
    PairStays(sql, '/', '*');
    PairStays(sql, '*', '/');
    PairContained(Strip(sql), "--");
    PairContained(Strip(sql), "/*");
    PairContained(Strip(sql), "*/");
  }

  /** A query starts with `select`, and holds neither of the two operators nor any of the nine words. */
  lemma WordRules(sql: string, source: string)
    ensures OnlySelectAllowed in WarningsOf(sql, source) <==> !Selects(sql)
    ensures BooleanOperatorNotAllowed in WarningsOf(sql, source) <==> HoldsWord(sql, "and") || HoldsWord(sql, "or")
    ensures ForbiddenKeywordDetected in WarningsOf(sql, source) <==>
              exists word :: IsForbidden(word) && HoldsWord(sql, word)
  {
    hide Strip, Lower, WarningsOf, HoldsWord, HasWord, ExpectedTable, Selects, ForbiddenWord;
    WarningsAreViolations(sql, source);
    SelectExactly(sql);
    WordStays(sql, "and");
    WordStays(sql, "or");
    WordFound(Strip(sql), "and");
    WordFound(Strip(sql), "or");
    ForbiddenExactly(Strip(sql));
    forall word | IsForbidden(word) ensures HoldsWord(sql, word) <==> HoldsWord(Strip(sql), word) {
      ForbiddenPlain(word);
      WordStays(sql, word);
    }
  }

  lemma ForbiddenPlain(word: string)
    requires IsForbidden(word)
    ensures Plain(word)
  {
  }

  // ----- references and tables -----

  /** From `i` a keyword, whitespace up to `k`, and a dotted name from there up to `e`. */
  ghost predicate NameAt(s: string, i: nat, k: nat, e: nat) {
    && i + 4 < k < e <= |s| && (Lower(s[i..i + 4]) == "from" || Lower(s[i..i + 4]) == "join")
    && (i > 0 ==> !InWord(s[i - 1]))
    && (forall j :: i + 4 <= j < k ==> IsSpace(s[j]))
    && InWord(s[k]) && !('0' <= s[k] <= '9')
    && (forall j :: k <= j < e ==> InWord(s[j]) || s[j] == '.') && (e < |s| ==> !InWord(s[e]) && s[e] != '.')
  }

  /** What the pattern matches, and the name it captures. */
  lemma ReferenceExactly(s: string, i: nat, k: nat, e: nat)
    ensures NameAt(s, i, k, e) <==> Reference(s, i) && NameStart(s, i) == k && ReferenceEnd(s, i) == e
    ensures NameAt(s, i, k, e) ==> ReferenceName(s, i) == s[k..e]
  {
    forall j | 0 <= j < |s| { SpaceNoWord(s[j]); }
    hide IsSpace, InWord, Lower;
    if i + 4 <= |s| {
      LowerSlice(s, i, i + 4);
      assert MatchesAt(Lower(s), i, "from") <==> Lower(s[i..i + 4]) == "from";
      assert MatchesAt(Lower(s), i, "join") <==> Lower(s[i..i + 4]) == "join";
    }
    if NameAt(s, i, k, e) {
      KeywordIsPlain(s, i);
      SpacesEndIs(s, i + 4, k);
      LetterIsInName(s[k]);
      NameEndIs(s, k, e);
    }
    if Reference(s, i) && NameStart(s, i) == k && ReferenceEnd(s, i) == e {
      KeywordLetters(s, i);
      LetterIsInName(s[k]);
      KeywordIsPlain(s, i);
    }
  }

  lemma LetterIsInName(c: char)
    ensures InWord(c) && !('0' <= c <= '9') <==> IsLetter(c) || c == '_'
  {
  }

  lemma KeywordIsPlain(s: string, i: nat)
    requires i + 4 <= |s| && (Lower(s[i..i + 4]) == "from" || Lower(s[i..i + 4]) == "join")
    ensures InWord(s[i])
  {
    WordChars(s, i, Lower(s[i..i + 4]));
  }

  lemma SpacesEndIs(s: string, i: nat, k: nat)
    requires i <= k < |s| && (forall j :: i <= j < k ==> IsSpace(s[j])) && !IsSpace(s[k])
    ensures SpacesEnd(s, i) == k
    decreases k - i
  {
    hide IsSpace;
  }

  /** A name made safe and lowered: letters and digits in lower case, everything else an underscore. */
  ghost predicate IsTable(table: string, name: string) {
    |table| == |name| && forall j :: 0 <= j < |name| ==>
      table[j] == if 'A' <= name[j] <= 'Z' then (name[j] as int + 32) as char
                  else if InWord(name[j]) then name[j] else '_'
  }

  /** A reference names what stands behind the last dot of its name. */
  lemma TableExactly(name: string, n: nat)
    requires n <= |name| && (forall j :: n <= j < |name| ==> name[j] != '.') && (n > 0 ==> name[n - 1] == '.')
    ensures IsTable(TableOf(name), name[n..])
  {
    LastPartIs(name, n);
    forall j | 0 <= j < |name| { SpaceNoWord(name[j]); }
  }

  /** A source's table is what stands between its last slash and the slashes it may end in. */
  lemma SourceExactly(source: string, n: nat, m: nat)
    requires n <= m <= |source| && (forall j :: n <= j < m ==> source[j] != '/')
    requires (n > 0 ==> source[n - 1] == '/') && (forall j :: m <= j < |source| ==> source[j] == '/')
    requires n < m || m == 0
    ensures IsTable(ExpectedTable(source), source[n..m])
  {
    RStripCharIs(source, '/', m);
    var s := source[..m];
    LastSlash(s, n);
    forall j | 0 <= j < |source| { SpaceNoWord(source[j]); }
    assert s[n..] == source[n..m];
  }

  lemma {:induction false} RStripCharIs(s: string, c: char, m: nat)
    requires m <= |s| && (forall j :: m <= j < |s| ==> s[j] == c) && (m > 0 ==> s[m - 1] != c)
    ensures RStripChar(s, c) == s[..m]
  {
    if m < |s| {
      RStripCharIs(s[..|s| - 1], c, m);
      assert s[..|s| - 1][..m] == s[..m];
    } else {
      assert s[..m] == s;
    }
  }

  lemma LastSlash(s: string, n: nat)
    requires n <= |s| && (forall j :: n <= j < |s| ==> s[j] != '/') && (n > 0 ==> s[n - 1] == '/')
    ensures LastPart(s, '/') == s[n..]
  {
    hide LastPart;
    LastPartShape(s, '/');
    var r := LastPart(s, '/');
    var m := |s| - |r|;
    forall j | m <= j < |s| ensures s[j] != '/' { assert r[j - m] == s[j] && r[j - m] in r; }
  }

  // ----- what is accepted -----

  /** Nothing in the text that one of the rules on characters and words objects to. */
  ghost predicate Harmless(sql: string) {
    && Selects(sql) && ';' !in sql && '\'' !in sql && '"' !in sql
    && !HoldsPair(sql, '-', '-') && !HoldsPair(sql, '/', '*') && !HoldsPair(sql, '*', '/')
    && !HoldsWord(sql, "and") && !HoldsWord(sql, "or") && forall word :: IsForbidden(word) ==> !HoldsWord(sql, word)
  }

  lemma AcceptsRuleByRule(sql: string, source: string)
    ensures Accepts(sql, source) <==>
              Harmless(sql) && FindAll(Strip(sql), 0) != [] && !OtherTable(Strip(sql), ExpectedTable(source))
  {
    CharacterRules(sql, source);
    WordRules(sql, source);
    WarningsAreViolations(sql, source);
    hide WarningsOf, HoldsPair, HoldsWord, Selects, IsForbidden, Strip, ExpectedTable, Contains, HasWord, ForbiddenWord,
      FindAll, OtherTable, Lower;
    var s, table := Strip(sql), ExpectedTable(source);
    assert Raises(s, table, MissingSourceTable) <==> FindAll(s, 0) == [];
    assert Raises(s, table, UnauthorizedTableReference) <==> OtherTable(s, table);
    hide Raises;
    if Accepts(sql, source) {
      assert !Raises(s, table, OnlySelectAllowed) && !Raises(s, table, SingleStatementRequired)
        && !Raises(s, table, SqlCommentsNotAllowed) && !Raises(s, table, LiteralValuesNotAllowed)
        && !Raises(s, table, BooleanOperatorNotAllowed) && !Raises(s, table, ForbiddenKeywordDetected);
    }
  }

  /**
   For a source whose table is neither `from` nor `join`, accepted is exactly the
   harmless text that refers to a table, and to no other than the source's.
   */
  lemma AcceptedExactly(sql: string, source: string)
    requires !IsKeyword(ExpectedTable(source))
    ensures WarningsOf(sql, source) == [] <==>
              Harmless(sql) && ReferencesOnly(Strip(sql), ExpectedTable(source))
  {
    hide *;
    WarningsAreViolations(sql, source);
    AcceptsRuleByRule(sql, source);
    ScanDecides(Strip(sql), ExpectedTable(source));
  }

  /** The other two rules: a reference there must be, and for such a source each must name its table. */
  lemma ReferenceRules(sql: string, source: string)
    ensures MissingSourceTable in WarningsOf(sql, source) <==> forall i: nat :: !Reference(Strip(sql), i)
    ensures !IsKeyword(ExpectedTable(source)) ==>
              (UnauthorizedTableReference in WarningsOf(sql, source) <==>
               exists i: nat :: Reference(Strip(sql), i)
                                && TableOf(ReferenceName(Strip(sql), i)) != ExpectedTable(source))
  {
    WarningsAreViolations(sql, source);
    var s, table := Strip(sql), ExpectedTable(source);
    assert MissingSourceTable in WarningsOf(sql, source) <==> FindAll(s, 0) == [];
    assert UnauthorizedTableReference in WarningsOf(sql, source) <==> OtherTable(s, table);
    hide WarningsOf, Strip, ExpectedTable, Raises, Reference, TableOf, ReferenceName;
    SomeFound(s);
    if !IsKeyword(table) { ScanDecides(s, table); }
    if OtherTable(s, table) { SomeOther(s, table); }
  }

  lemma SomeFound(s: string)
    ensures FindAll(s, 0) == [] <==> forall i: nat :: !Reference(s, i)
  {
    hide Reference;
    if i: nat :| Reference(s, i) { FoundSome(s, 0, i); }
    if FindAll(s, 0) != [] { var i := FoundAreReferences(s, 0, FindAll(s, 0)[0]); }
  }

  lemma SomeOther(s: string, table: string)
    requires OtherTable(s, table)
    ensures FindAll(s, 0) != []
    ensures exists i: nat :: Reference(s, i) && TableOf(ReferenceName(s, i)) != table
  {
    hide Reference, FindAll, TableOf, ReferenceName;
    var found := FindAll(s, 0);
    var k :| 0 <= k < |found| && TableOf(found[k]) != table;
    var i := FoundAreReferences(s, 0, found[k]);
  }

  /** The text each warning is reported as. */
  lemma MessagesExactly(w: Warning)
    ensures Message(w) ==
            if w.OnlySelectAllowed? then "only_select_allowed"
            else if w.SingleStatementRequired? then "single_statement_required"
            else if w.SqlCommentsNotAllowed? then "sql_comments_not_allowed"
            else if w.LiteralValuesNotAllowed? then "literal_values_not_allowed"
            else if w.BooleanOperatorNotAllowed? then "boolean_operator_not_allowed"
            else if w.ForbiddenKeywordDetected? then "forbidden_keyword_detected"
            else if w.MissingSourceTable? then "missing_source_table"
            else "unauthorized_table_reference"
  {
  }
}
