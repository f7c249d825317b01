/**
 The safety gate for SQL text.  `re.findall` is written as the leftmost,
 non-overlapping scan it performs; the question is what that scan can miss.
 */
module SqlGate {
  import opened PyText

  // ----- the two regular expressions -----

  /** `\b` at position `i`. */
  predicate Boundary(s: string, i: nat) {
    (0 < i <= |s| && IsWord(s[i - 1])) != (i < |s| && IsWord(s[i]))
  }

  /** `\bword\b` somewhere in `s`. */
  predicate HasWord(s: string, word: string) {
    exists i :: 0 <= i <= |s| && MatchesAt(s, i, word) && Boundary(s, i) && Boundary(s, i + |word|)
  }

  predicate KeywordAt(s: string, i: nat) {
    Boundary(s, i) && (MatchesAt(Lower(s), i, "from") || MatchesAt(Lower(s), i, "join"))
  }

  function SpacesEnd(s: string, i: nat): (j: nat)
    requires i <= |s|
    ensures i <= j <= |s| && (forall k :: i <= k < j ==> IsSpace(s[k])) && (j < |s| ==> !IsSpace(s[j]))
    decreases |s| - i
  {
    if i < |s| && IsSpace(s[i]) then SpacesEnd(s, i + 1) else i
  }

  predicate InName(c: char) {
    IsWord(c) || c == '.'
  }

  function NameEnd(s: string, i: nat): (j: nat)
    requires i <= |s|
    ensures i <= j <= |s| && (forall k :: i <= k < j ==> InName(s[k])) && (j < |s| ==> !InName(s[j]))
    decreases |s| - i
  {
    if i < |s| && InName(s[i]) then NameEnd(s, i + 1) else i
  }

  function NameStart(s: string, i: nat): (j: nat)
    requires i + 4 <= |s|
    ensures i + 4 <= j <= |s|
  {
    SpacesEnd(s, i + 4)
  }

  /**
   FROM or JOIN at a word boundary, whitespace, and the start of a name: what
   one alternative of the pattern matches from position `i`, wherever `i` lies.
   */
  predicate Reference(s: string, i: nat) {
    && i + 4 <= |s| && KeywordAt(s, i)
    && var k := NameStart(s, i);
       i + 4 < k < |s| && (IsLetter(s[k]) || s[k] == '_')
  }

  function ReferenceEnd(s: string, i: nat): (e: nat)
    requires Reference(s, i)
    ensures NameStart(s, i) < e <= |s|
  {
    NameEnd(s, NameStart(s, i))
  }

  function ReferenceName(s: string, i: nat): string
    requires Reference(s, i)
  {
    s[NameStart(s, i)..ReferenceEnd(s, i)]
  }

  /** The names `findall` returns from position `i` on. */
  function FindAll(s: string, i: nat): seq<string>
    decreases |s| - i
  {
    if i >= |s| then []
    else if Reference(s, i) then [ReferenceName(s, i)] + FindAll(s, ReferenceEnd(s, i))
    else FindAll(s, i + 1)
  }

  // ----- table names -----

  function LastPart(s: string, sep: char): string {
    if s == "" || s[|s| - 1] == sep then ""
    else LastPart(s[..|s| - 1], sep) + [s[|s| - 1]]
  }

  /** What follows the last separator, or the whole text. */
  lemma {:induction false} LastPartShape(s: string, sep: char)
    ensures var r := LastPart(s, sep);
            |r| <= |s| && r == s[|s| - |r|..] && sep !in r && (|r| < |s| ==> s[|s| - |r| - 1] == sep)
  {
    if s != "" && s[|s| - 1] != sep { LastPartShape(s[..|s| - 1], sep); }
  }

  function SafeIdentifier(s: string): (r: string)
    ensures |r| == |s| && forall i :: 0 <= i < |r| ==> IsWord(r[i])
  {
    seq(|s|, i requires 0 <= i < |s| => if IsWord(s[i]) then s[i] else '_')
  }

  function RStripChar(s: string, c: char): string {
    if s != "" && s[|s| - 1] == c then RStripChar(s[..|s| - 1], c) else s
  }

  function SourceTable(source: string): string {
    SafeIdentifier(LastPart(RStripChar(source, '/'), '/'))
  }

  /** The table a reference names: its last dotted component, ignoring case. */
  function TableOf(name: string): string {
    Lower(SafeIdentifier(LastPart(name, '.')))
  }

  predicate IsKeyword(table: string) {
    table == "from" || table == "join"
  }

  ghost predicate Names(s: string, i: nat, table: string) {
    Reference(s, i) && TableOf(ReferenceName(s, i)) == table
  }

  // ----- what the scan can miss -----

  lemma LowerLetters(s: string, i: nat, p: string)
    requires MatchesAt(Lower(s), i, p) && forall j :: 0 <= j < |p| ==> 'a' <= p[j] <= 'z'
    ensures forall j :: i <= j < i + |p| ==> IsLetter(s[j])
  {
    forall j | i <= j < i + |p| ensures IsLetter(s[j]) {
      assert Lower(s)[i..i + |p|][j - i] == LowerChar(s[j]);
    }
  }

  /** The four characters of a keyword are letters, whatever their case. */
  lemma KeywordLetters(s: string, i: nat)
    requires KeywordAt(s, i)
    ensures i + 4 <= |s| && (forall j :: i <= j < i + 4 ==> IsLetter(s[j]))
    ensures Lower(s)[i..i + 4] == "from" || Lower(s)[i..i + 4] == "join"
  {
    if MatchesAt(Lower(s), i, "from") { LowerLetters(s, i, "from"); } else { LowerLetters(s, i, "join"); }
  }

  lemma LastPartIs(s: string, n: nat)
    requires n <= |s| && (forall j :: n <= j < |s| ==> s[j] != '.') && (n > 0 ==> s[n - 1] == '.')
    ensures LastPart(s, '.') == s[n..]
  {
    hide LastPart;
    LastPartShape(s, '.');
    var r := LastPart(s, '.');
    var m := |s| - |r|;
    forall j | m <= j < |s| ensures s[j] != '.' { assert r[j - m] == s[j] && r[j - m] in r; }
  }

  lemma LowerSlice(s: string, i: nat, j: nat)
    requires i <= j <= |s|
    ensures Lower(s[i..j]) == Lower(s)[i..j]
  {
  }

  /** A safe identifier keeps word characters, replaces all others, and is one for good. */
  lemma SafeIdentifierExact(s: string)
    ensures var r := SafeIdentifier(s);
            && |r| == |s| && SafeIdentifier(r) == r
            && forall i :: 0 <= i < |s| ==> IsWord(r[i]) && (r[i] == s[i] || (r[i] == '_' && !IsWord(s[i])))
  {
    hide IsWord;
    SafeWord(SafeIdentifier(s));
  }

  lemma SafeWord(s: string)
    requires forall i :: 0 <= i < |s| ==> IsWord(s[i])
    ensures SafeIdentifier(s) == s
  {
  }

  /** A reference can start inside another one only as the end of its name. */
  lemma OverlapPosition(s: string, a: nat, i: nat)
    requires Reference(s, a) && Reference(s, i) && a < i < ReferenceEnd(s, a)
    ensures NameStart(s, a) <= i && ReferenceEnd(s, a) == i + 4
    ensures NameStart(s, a) < i ==> s[i - 1] == '.'
    ensures ReferenceName(s, a) == s[NameStart(s, a)..i + 4]
  {
    KeywordLetters(s, a);
    KeywordLetters(s, i);
    var k, e := NameStart(s, a), ReferenceEnd(s, a);
    hide LastPart, Lower, MatchesAt;
    assert IsWord(s[i]);
    assert k <= i;
    assert IsSpace(s[i + 4]);
    assert k < i ==> InName(s[i - 1]);
  }

  /** A reference inside another one makes the outer one name a table called `from` or `join`. */
  lemma OverlapNamesKeyword(s: string, a: nat, i: nat)
    requires Reference(s, a) && Reference(s, i) && a < i < ReferenceEnd(s, a)
    ensures IsKeyword(TableOf(ReferenceName(s, a)))
  {
    OverlapPosition(s, a, i);
    KeywordLetters(s, i);
    KeywordNamed(s, NameStart(s, a), i);
  }

  lemma KeywordNamed(s: string, k: nat, i: nat)
    requires k <= i && i + 4 <= |s| && (forall j :: i <= j < i + 4 ==> IsLetter(s[j]))
    requires k < i ==> s[i - 1] == '.'
    ensures TableOf(s[k..i + 4]) == Lower(s)[i..i + 4]
  {
    hide TableOf, IsLetter;
    var name, n := s[k..i + 4], i - k;
    assert name[n..] == s[i..i + 4];
    assert n > 0 ==> name[n - 1] == s[i - 1];
    LettersLast(name, n);
    LowerSlice(s, i, i + 4);
  }

  lemma LettersLast(name: string, n: nat)
    requires n <= |name| && (forall j :: 0 <= j < |name[n..]| ==> IsLetter(name[n..][j]))
    requires n > 0 ==> name[n - 1] == '.'
    ensures TableOf(name) == Lower(name[n..])
  {
    forall j | n <= j < |name| ensures name[j] != '.' { assert name[n..][j - n] == name[j]; }
    LastPartIs(name, n);
    SafeWord(name[n..]);
  }

  /**
   If everything the scan returns names `table`, and `table` is not itself one of
   the two keywords, then so does every reference, overlapping or not.
   */
  lemma {:induction false} ScanMissesNothing(s: string, start: nat, i: nat, table: string)
    requires start <= i && Reference(s, i)
    requires forall name :: name in FindAll(s, start) ==> TableOf(name) == table
    requires !IsKeyword(table)
    ensures TableOf(ReferenceName(s, i)) == table
    decreases |s| - start
  {
    if Reference(s, start) {
      var e := ReferenceEnd(s, start);
      assert ReferenceName(s, start) in FindAll(s, start);
      if i >= e {
        assert forall name :: name in FindAll(s, e) ==> name in FindAll(s, start);
        ScanMissesNothing(s, e, i, table);
      } else if i > start {
        OverlapNamesKeyword(s, start, i);
      }
    } else {
      ScanMissesNothing(s, start + 1, i, table);
    }
  }

  /** Whatever the scan returns is a reference of the text. */
  lemma {:induction false} FoundAreReferences(s: string, start: nat, name: string) returns (i: nat)
    requires name in FindAll(s, start)
    ensures start <= i && Reference(s, i) && ReferenceName(s, i) == name
    decreases |s| - start
  {
    if Reference(s, start) {
      if name == ReferenceName(s, start) {
        i := start;
      } else {
        i := FoundAreReferences(s, ReferenceEnd(s, start), name);
      }
    } else {
      i := FoundAreReferences(s, start + 1, name);
    }
  }

  lemma {:induction false} FoundSome(s: string, start: nat, i: nat)
    requires start <= i && Reference(s, i)
    ensures FindAll(s, start) != []
    decreases |s| - start
  {
    if !Reference(s, start) { FoundSome(s, start + 1, i); }
  }

  // ----- the gate -----

  const FORBIDDEN: seq<string> :=
    ["drop", "delete", "truncate", "alter", "insert", "update", "merge", "exec", "union"]

  predicate ForbiddenWord(lowered: string) {
    exists k :: 0 <= k < |FORBIDDEN| && HasWord(lowered, FORBIDDEN[k])
  }

  predicate OtherTable(stripped: string, table: string) {
    exists k :: 0 <= k < |FindAll(stripped, 0)| && TableOf(FindAll(stripped, 0)[k]) != table
  }

  datatype Warning =
    | OnlySelectAllowed
    | SingleStatementRequired
    | SqlCommentsNotAllowed
    | LiteralValuesNotAllowed
    | BooleanOperatorNotAllowed
    | ForbiddenKeywordDetected
    | MissingSourceTable
    | UnauthorizedTableReference

  /** Which rule each warning stands for. */
  predicate Raises(stripped: string, table: string, warning: Warning) {
    var lowered := Lower(stripped);
    match warning
    case OnlySelectAllowed => !("select " <= lowered)
    case SingleStatementRequired => ';' in stripped
    case SqlCommentsNotAllowed => Contains(stripped, "--") || Contains(stripped, "/*") || Contains(stripped, "*/")
    case LiteralValuesNotAllowed => '\'' in stripped || '"' in stripped
    case BooleanOperatorNotAllowed => HasWord(lowered, "and") || HasWord(lowered, "or")
    case ForbiddenKeywordDetected => ForbiddenWord(lowered)
    case MissingSourceTable => FindAll(stripped, 0) == []
    case UnauthorizedTableReference => OtherTable(stripped, table)
  }

  function ExpectedTable(source: string): string {
    Lower(SourceTable(source))
  }

  ghost predicate Accepts(sql: string, source: string) {
    forall w :: !Raises(Strip(sql), ExpectedTable(source), w)
  }

  const RULES: seq<Warning> :=
    [OnlySelectAllowed, SingleStatementRequired, SqlCommentsNotAllowed, LiteralValuesNotAllowed,
     BooleanOperatorNotAllowed, ForbiddenKeywordDetected, MissingSourceTable, UnauthorizedTableReference]

  function Message(w: Warning): string {
    match w
    case OnlySelectAllowed => "only_select_allowed"
    case SingleStatementRequired => "single_statement_required"
    case SqlCommentsNotAllowed => "sql_comments_not_allowed"
    case LiteralValuesNotAllowed => "literal_values_not_allowed"
    case BooleanOperatorNotAllowed => "boolean_operator_not_allowed"
    case ForbiddenKeywordDetected => "forbidden_keyword_detected"
    case MissingSourceTable => "missing_source_table"
    case UnauthorizedTableReference => "unauthorized_table_reference"
  }

  /** The violated ones among the first `n` rules, in their order. */
  function Violated(stripped: string, table: string, n: nat): seq<Warning>
    requires n <= |RULES|
  {
    if n == 0 then []
    else
      Violated(stripped, table, n - 1) + (if Raises(stripped, table, RULES[n - 1]) then [RULES[n - 1]] else [])
  }

  function WarningsOf(sql: string, source: string): seq<Warning> {
    Violated(Strip(sql), ExpectedTable(source), |RULES|)
  }

  function Rank(w: Warning): (n: nat)
    ensures n < |RULES| && RULES[n] == w
  {
    match w
    case OnlySelectAllowed => 0
    case SingleStatementRequired => 1
    case SqlCommentsNotAllowed => 2
    case LiteralValuesNotAllowed => 3
    case BooleanOperatorNotAllowed => 4
    case ForbiddenKeywordDetected => 5
    case MissingSourceTable => 6
    case UnauthorizedTableReference => 7
  }

  lemma {:induction false} ViolatedListed(stripped: string, table: string, n: nat)
    requires n <= |RULES|
    ensures forall i, j :: 0 <= i < j < |Violated(stripped, table, n)| ==>
              Rank(Violated(stripped, table, n)[i]) < Rank(Violated(stripped, table, n)[j])
    ensures forall w :: w in Violated(stripped, table, n) <==> Rank(w) < n && Raises(stripped, table, w)
  {
    hide Raises;
    if n > 0 {
      ViolatedListed(stripped, table, n - 1);
      RankOfRule(n - 1);
      var v := Violated(stripped, table, n - 1);
      assert forall i :: 0 <= i < |v| ==> v[i] in v;
    }
  }

  lemma RankOfRule(n: nat)
    requires n < |RULES|
    ensures Rank(RULES[n]) == n && forall w :: Rank(w) == n ==> w == RULES[n]
  {
  }

  /** The warnings are exactly the violated rules, each listed once, in a fixed order. */
  lemma WarningsAreViolations(sql: string, source: string)
    ensures forall w :: w in WarningsOf(sql, source) <==> Raises(Strip(sql), ExpectedTable(source), w)
    ensures forall i, j :: 0 <= i < j < |WarningsOf(sql, source)| ==>
              WarningsOf(sql, source)[i] != WarningsOf(sql, source)[j]
    ensures WarningsOf(sql, source) == [] <==> Accepts(sql, source)
  {
    hide Raises, ExpectedTable, Strip;
    ViolatedListed(Strip(sql), ExpectedTable(source), |RULES|);
    var ws := WarningsOf(sql, source);
    assert ws != [] ==> ws[0] in ws;
  }

  lemma StripKeeps(s: string, c: char)
    requires c in s && !IsSpace(c)
    ensures c in Strip(s)
  {
    hide LStrip, RStrip, IsSpace;
    var i :| 0 <= i < |s| && s[i] == c;
    LStripShape(s);
    var l := LStrip(s);
    RStripShape(l);
    var n := |s| - |l|;
    assert n <= i && l[i - n] == c;
    assert RStrip(l)[i - n] == c;
  }

  /** Text with a quotation mark is refused, whatever the source. */
  lemma QuotedTextRefused(sql: string, source: string)
    requires '\'' in sql
    ensures LiteralValuesNotAllowed in WarningsOf(sql, source)
  {
    hide WarningsOf, Strip, ExpectedTable;
    StripKeeps(sql, '\'');
    WarningsAreViolations(sql, source);
    assert Raises(Strip(sql), ExpectedTable(source), LiteralValuesNotAllowed);
  }

  /** The text of a drafted query. */
  function Draft(fields: string, table: string, days: string, grouping: string, rows: string): string {
    "SELECT " + fields + " FROM " + table + " WHERE created_at >= current_date - interval '" + days + " day' "
    + grouping + " LIMIT " + rows
  }

  /** So every drafted query is refused. */
  lemma DraftsRefused(fields: string, table: string, days: string, grouping: string, rows: string, source: string)
    ensures LiteralValuesNotAllowed in WarningsOf(Draft(fields, table, days, grouping, rows), source)
  {
    hide WarningsOf;
    assert '\'' in " day' " by { assert " day' "[4] == '\''; }
    QuotedTextRefused(Draft(fields, table, days, grouping, rows), source);
  }

  /** Append the warning if its rule is violated. */
  method Check(warnings: seq<Warning>, ghost stripped: string, ghost table: string, ghost n: nat, warning: Warning,
               violated: bool)
    returns (r: seq<Warning>)
    requires n < |RULES| && RULES[n] == warning && warnings == Violated(stripped, table, n)
    requires violated == Raises(stripped, table, warning)
    ensures r == Violated(stripped, table, n + 1)
  {
    r := if violated then warnings + [warning] else warnings;
  }

  method SearchForbidden(lowered: string) returns (found: bool)
    ensures found == ForbiddenWord(lowered)
  {
    for k := 0 to |FORBIDDEN|
      invariant forall j :: 0 <= j < k ==> !HasWord(lowered, FORBIDDEN[j])
    {
      if HasWord(lowered, FORBIDDEN[k]) {
        return true;
      }
    }
    return false;
  }

  /** The rules on characters and words, in the order they are checked. */
  method CheckText(stripped: string, ghost table: string) returns (warnings: seq<Warning>)
    ensures warnings == Violated(stripped, table, 6)
  {
    hide Violated, ForbiddenWord, HasWord, Contains;
    var lowered := Lower(stripped);
    warnings := [];
    NothingViolated(stripped, table);
    warnings := Check(warnings, stripped, table, 0, OnlySelectAllowed, !("select " <= lowered));
    warnings := Check(warnings, stripped, table, 1, SingleStatementRequired, ';' in stripped);
    warnings := Check(warnings, stripped, table, 2, SqlCommentsNotAllowed,
      Contains(stripped, "--") || Contains(stripped, "/*") || Contains(stripped, "*/"));
    warnings := Check(warnings, stripped, table, 3, LiteralValuesNotAllowed, '\'' in stripped || '"' in stripped);
    warnings := Check(warnings, stripped, table, 4, BooleanOperatorNotAllowed,
      HasWord(lowered, "and") || HasWord(lowered, "or"));
    var forbidden := SearchForbidden(lowered);
    warnings := Check(warnings, stripped, table, 5, ForbiddenKeywordDetected, forbidden);
  }

  lemma NothingViolated(stripped: string, table: string)
    ensures Violated(stripped, table, 0) == []
  {
  }

  /** Without a reference the table rule has nothing to object to. */
  lemma NoTableNoOther(stripped: string, table: string)
    requires FindAll(stripped, 0) == []
    ensures Violated(stripped, table, 8) == Violated(stripped, table, 7)
  {
    assert !Raises(stripped, table, UnauthorizedTableReference);
    hide Raises;
    assert RULES[7] == UnauthorizedTableReference;
  }

  /** The gate: one check after the other, leaving early when no table is named. */
  method ValidateSqlQuery(sql: string, source: string) returns (warnings: seq<Warning>)
    ensures warnings == WarningsOf(sql, source)
    ensures forall w :: w in warnings <==> Raises(Strip(sql), ExpectedTable(source), w)
    ensures warnings == [] <==> Accepts(sql, source)
  {
    hide Violated, HasWord, ForbiddenWord, Contains, FindAll, TableOf, ExpectedTable, Strip, Lower, Accepts;
    WarningsAreViolations(sql, source);
    var stripped := Strip(sql);
    var table := ExpectedTable(source);
    warnings := CheckText(stripped, table);
    var referenced := FindAll(stripped, 0);
    warnings := Check(warnings, stripped, table, 6, MissingSourceTable, referenced == []);
    if referenced == [] {
      NoTableNoOther(stripped, table);
      return;
    }
    warnings := Check(warnings, stripped, table, 7, UnauthorizedTableReference,
      exists k :: 0 <= k < |referenced| && TableOf(referenced[k]) != table);
  }

  // ----- what acceptance means -----

  /** There is a FROM or JOIN followed by whitespace and a name, and every such name is the table. */
  ghost predicate ReferencesOnly(s: string, table: string) {
    (exists i: nat :: Reference(s, i)) && forall i: nat :: Reference(s, i) ==> Names(s, i, table)
  }

  /** For an ordinary table name the two scan rules hold exactly when every reference names that table. */
  lemma ScanDecides(s: string, table: string)
    requires !IsKeyword(table)
    ensures FindAll(s, 0) != [] && !OtherTable(s, table) <==> ReferencesOnly(s, table)
  {
    var found := FindAll(s, 0);
    if found != [] && !OtherTable(s, table) {
      var i := FoundAreReferences(s, 0, found[0]);
      forall name | name in found ensures TableOf(name) == table {
        var k :| 0 <= k < |found| && found[k] == name;
      }
      forall i: nat | Reference(s, i) ensures Names(s, i, table) {
        ScanMissesNothing(s, 0, i, table);
      }
    }
    if ReferencesOnly(s, table) {
      var i: nat :| Reference(s, i);
      FoundSome(s, 0, i);
      forall k | 0 <= k < |found| ensures TableOf(found[k]) == table {
        var j := FoundAreReferences(s, 0, found[k]);
        assert Names(s, j, table);
      }
    }
  }

  /** The scan is complete for this source: in accepted text every reference names the source's table. */
  ghost predicate ScanComplete(source: string) {
    forall sql :: Accepts(sql, source) ==> ReferencesOnly(Strip(sql), ExpectedTable(source))
  }

  /** A query whose first reference swallows the keyword of the second. */
  function Swallowing(table: string): string {
    "select a from " + table + " x"
  }

  predicate Uncapitalised(s: string) {
    forall i :: 0 <= i < |s| ==> LowerChar(s[i]) == s[i]
  }

  lemma UncapitalisedJoin(a: string, b: string)
    requires Uncapitalised(a) && Uncapitalised(b)
    ensures Uncapitalised(a + b)
  {
  }

  lemma SwallowingShape(table: string)
    requires |table| == 4
    ensures var s := Swallowing(table);
            && |s| == 20 && s[..9] == "select a " && s[9..13] == "from" && s[13] == ' '
            && s[14..18] == table && s[18] == ' ' && s[19] == 'x' && s[0] == 's' && s[8] == ' '
  {
  }

  lemma SwallowingPlain(table: string)
    requires IsKeyword(table)
    ensures Strip(Swallowing(table)) == Swallowing(table) == Lower(Swallowing(table))
  {
    SwallowingShape(table);
    UncapitalisedJoin("select a from ", table);
    UncapitalisedJoin("select a from " + table, " x");
    StripWhole(Swallowing(table));
  }

  lemma StartsReference(s: string, i: nat)
    requires i < |s| && s[i] !in {'f', 'F', 'j', 'J'}
    ensures !Reference(s, i)
  {
    if KeywordAt(s, i) {
      KeywordLetters(s, i);
      FirstOfSlice(Lower(s), i);
    }
  }

  lemma FirstOfSlice(s: string, i: nat)
    requires i + 4 <= |s|
    ensures s[i..i + 4][0] == s[i]
  {
  }

  lemma {:induction false} NothingBefore(s: string, i: nat, j: nat)
    requires i <= j <= |s| && forall k :: i <= k < j ==> !Reference(s, k)
    ensures FindAll(s, i) == FindAll(s, j)
    decreases j - i
  {
    if i < j { NothingBefore(s, i + 1, j); }
  }

  /** Where a reference is and what it names, from the characters around it. */
  lemma ReferenceAt(s: string, i: nat, e: nat)
    requires 0 < i && i + 5 < e <= |s| && Lower(s) == s && IsKeyword(s[i..i + 4])
    requires s[i - 1] == ' ' && s[i + 4] == ' '
    requires (IsLetter(s[i + 5]) || s[i + 5] == '_') && forall k :: i + 5 <= k < e ==> InName(s[k])
    requires e == |s| || !InName(s[e])
    ensures Reference(s, i) && NameStart(s, i) == i + 5 && ReferenceEnd(s, i) == e
  {
    assert MatchesAt(s, i, "from") || MatchesAt(s, i, "join");
    KeywordIsLetters(s[i..i + 4]);
    FirstOfSlice(s, i);
    assert KeywordAt(s, i);
    assert SpacesEnd(s, i + 5) == i + 5;
    assert NameStart(s, i) == i + 5;
    NameEndIs(s, i + 5, e);
  }

  lemma NameEndIs(s: string, i: nat, e: nat)
    requires i <= e <= |s| && (forall k :: i <= k < e ==> InName(s[k])) && (e < |s| ==> !InName(s[e]))
    ensures NameEnd(s, i) == e
    decreases e - i
  {
  }

  lemma KeywordIsLetters(t: string)
    requires IsKeyword(t)
    ensures |t| == 4 && forall k :: 0 <= k < 4 ==> 'a' <= t[k] <= 'z'
  {
  }

  lemma SwallowingScan(table: string)
    requires IsKeyword(table)
    ensures FindAll(Swallowing(table), 0) == [table]
    ensures Reference(Swallowing(table), 14) && ReferenceName(Swallowing(table), 14) == "x"
  {
    hide *;
    var s := Swallowing(table);
    KeywordIsLetters(table);
    SwallowingShape(table);
    SwallowingPlain(table);
    SwallowingStart(s);
    LettersAreWords(s, 14, table);
    KeywordChars();
    ReferenceAt(s, 9, 18);
    ReferenceAt(s, 14, 20);
    SwallowingEnd(s, table);
  }

  lemma KeywordChars()
    ensures IsKeyword("from") && IsWord('x') && IsLetter('x') && IsLetter('a')
    ensures !InName(' ') && forall c: char :: IsWord(c) ==> InName(c)
  {
  }

  lemma LettersAreWords(s: string, i: nat, t: string)
    requires i + |t| <= |s| && s[i..i + |t|] == t && forall k :: 0 <= k < |t| ==> 'a' <= t[k] <= 'z'
    ensures forall k :: i <= k < i + |t| ==> IsWord(s[k]) && IsLetter(s[k])
  {
    forall k | i <= k < i + |t| ensures IsWord(s[k]) && IsLetter(s[k]) {
      assert s[i..i + |t|][k - i] == s[k];
    }
  }

  lemma SwallowingStart(s: string)
    requires |s| == 20 && s[..9] == "select a "
    ensures FindAll(s, 0) == FindAll(s, 9)
  {
    forall k | 0 <= k < 9 ensures !Reference(s, k) {
      assert s[k] == s[..9][k];
      StartsReference(s, k);
    }
    NothingBefore(s, 0, 9);
  }

  lemma SwallowingEnd(s: string, table: string)
    requires |s| == 20 && s[14..18] == table && s[18] == ' ' && s[19] == 'x'
    requires Reference(s, 9) && NameStart(s, 9) == 14 && ReferenceEnd(s, 9) == 18
    requires Reference(s, 14) && NameStart(s, 14) == 19 && ReferenceEnd(s, 14) == 20
    ensures FindAll(s, 9) == [table] && ReferenceName(s, 14) == "x"
  {
    StartsReference(s, 18);
    StartsReference(s, 19);
    hide Reference, NameStart, ReferenceEnd;
    NothingBefore(s, 18, 20);
    assert FindAll(s, 20) == [];
    assert s[19..20] == "x";
  }

  /** Letters everywhere but at four positions. */
  lemma SwallowingWords(table: string)
    requires IsKeyword(table)
    ensures var s := Swallowing(table);
            forall k :: 0 <= k < 20 ==> if k in {6, 8, 13, 18} then s[k] == ' ' else 'a' <= s[k] <= 'z'
    ensures |Swallowing(table)| == 20
  {
    KeywordIsLetters(table);
    SwallowingShape(table);
    var s, head := Swallowing(table), "select a from ";
    assert forall k :: 0 <= k < 14 ==> s[k] == head[k];
    assert forall k :: 14 <= k < 18 ==> s[k] == table[k - 14];
    assert forall k :: 0 <= k < 14 ==> if k in {6, 8, 13} then head[k] == ' ' else 'a' <= head[k] <= 'z';
  }

  /** No word of two or more letters occurs in it, other than ones starting as its own words do. */
  lemma NotAWord(table: string, w: string)
    requires IsKeyword(table) && |w| >= 2 && w[0] !in {'s', 'f', 'j', 'x'} && IsWord(w[0]) && IsWord(w[1])
    ensures !HasWord(Swallowing(table), w)
  {
    var s := Swallowing(table);
    SwallowingWords(table);
    SwallowingShape(table);
    FirstOfSlice(s, 9);
    FirstOfSlice(s, 14);
    hide Swallowing;
    forall i | 0 <= i <= 20 && MatchesAt(s, i, w) ensures !Boundary(s, i) {
      MatchesChars(s, i, w);
      assert s[i + 0] == w[0] && s[i + 1] == w[1];
      if i > 0 { assert IsWord(s[i - 1]) <==> i - 1 !in {6, 8, 13, 18}; }
    }
  }

  lemma NotContained(table: string, p: string)
    requires IsKeyword(table) && |p| > 0 && !('a' <= p[0] <= 'z') && p[0] != ' '
    ensures !Contains(Swallowing(table), p) && p[0] !in Swallowing(table)
  {
    var s := Swallowing(table);
    SwallowingWords(table);
    hide Swallowing;
    forall i | 0 <= i <= |s| ensures !MatchesAt(s, i, p) {
      if MatchesAt(s, i, p) {
        MatchesChars(s, i, p);
      }
    }
  }

  lemma ForbiddenShape(k: nat)
    requires k < |FORBIDDEN|
    ensures |FORBIDDEN[k]| >= 2 && FORBIDDEN[k][0] !in {'s', 'f', 'j', 'x'}
    ensures IsWord(FORBIDDEN[k][0]) && IsWord(FORBIDDEN[k][1])
  {
  }

  lemma SwallowingWordless(table: string)
    requires IsKeyword(table)
    ensures !ForbiddenWord(Swallowing(table))
    ensures !HasWord(Swallowing(table), "and") && !HasWord(Swallowing(table), "or")
  {
    hide Swallowing, HasWord;
    NotAWord(table, "and");
    NotAWord(table, "or");
    forall k | 0 <= k < |FORBIDDEN| ensures !HasWord(Swallowing(table), FORBIDDEN[k]) {
      ForbiddenShape(k);
      NotAWord(table, FORBIDDEN[k]);
    }
  }

  lemma SwallowingSymbolless(table: string)
    requires IsKeyword(table)
    ensures var s := Swallowing(table);
            && ';' !in s && '\'' !in s && '"' !in s
            && !Contains(s, "--") && !Contains(s, "/*") && !Contains(s, "*/")
  {
    hide Swallowing, Contains;
    NotContained(table, ";");
    NotContained(table, "'");
    NotContained(table, "\"");
    NotContained(table, "--");
    NotContained(table, "/*");
    NotContained(table, "*/");
  }

  lemma SwallowingSelects(table: string)
    requires IsKeyword(table)
    ensures "select " <= Swallowing(table)
  {
  }

  lemma SwallowingNamesTable(table: string)
    requires IsKeyword(table)
    ensures FindAll(Swallowing(table), 0) != [] && !OtherTable(Swallowing(table), table)
  {
    hide Swallowing, FindAll;
    SwallowingScan(table);
    KeywordNamesItself(table);
  }

  /** The gate has no objection to it. */
  lemma SwallowingPasses(table: string, w: Warning)
    requires IsKeyword(table)
    ensures !Raises(Swallowing(table), table, w)
  {
    hide Swallowing, HasWord, Contains, FindAll, OtherTable, ForbiddenWord, Strip, Lower, IsKeyword;
    SwallowingPlain(table);
    SwallowingWordless(table);
    SwallowingSymbolless(table);
    SwallowingSelects(table);
    SwallowingNamesTable(table);
  }

  lemma KeywordNamesItself(table: string)
    requires IsKeyword(table)
    ensures TableOf(table) == table
  {
    KeywordIsLetters(table);
    LettersLast(table, 0);
    assert table[0..] == table;
    assert Lower(table) == table;
  }

  /** For the two keyword tables the gate lets through a text with a reference to `x`. */
  lemma SwallowingEscapes(source: string)
    requires IsKeyword(ExpectedTable(source))
    ensures Accepts(Swallowing(ExpectedTable(source)), source)
    ensures !ReferencesOnly(Strip(Swallowing(ExpectedTable(source))), ExpectedTable(source))
  {
    hide Swallowing, Raises, Reference, ReferenceName, TableOf, ExpectedTable, FindAll, Strip, Lower;
    var table := ExpectedTable(source);
    var sql := Swallowing(table);
    SwallowingPlain(table);
    forall w ensures !Raises(sql, table, w) { SwallowingPasses(table, w); }
    SwallowingScan(table);
    XIsNotAKeyword();
    assert !Names(sql, 14, table);
  }

  lemma AcceptedScan(sql: string, source: string)
    requires Accepts(sql, source)
    ensures FindAll(Strip(sql), 0) != [] && !OtherTable(Strip(sql), ExpectedTable(source))
  {
    assert !Raises(Strip(sql), ExpectedTable(source), MissingSourceTable);
    assert !Raises(Strip(sql), ExpectedTable(source), UnauthorizedTableReference);
  }

  lemma XIsNotAKeyword()
    ensures !IsKeyword(TableOf("x"))
  {
    LettersLast("x", 0);
    assert "x"[0..] == "x";
    assert |Lower("x")| == 1;
  }

  lemma ScanCompleteFor(sql: string, source: string)
    requires Accepts(sql, source) && !IsKeyword(ExpectedTable(source))
    ensures ReferencesOnly(Strip(sql), ExpectedTable(source))
  {
    hide *;
    AcceptedScan(sql, source);
    ScanDecides(Strip(sql), ExpectedTable(source));
  }

  /**
   In accepted text every FROM or JOIN followed by whitespace and a name names the
   source's table, exactly for the sources whose table is neither `from` nor `join`.
   */
  lemma ScanCompleteExactly(source: string)
    ensures ScanComplete(source) <==> !IsKeyword(ExpectedTable(source))
  {
    hide Raises, FindAll, OtherTable, IsKeyword, Swallowing, ReferencesOnly, Accepts, ExpectedTable, Strip;
    if IsKeyword(ExpectedTable(source)) {
      SwallowingEscapes(source);
    } else {
      forall sql | Accepts(sql, source) ensures ReferencesOnly(Strip(sql), ExpectedTable(source)) {
        ScanCompleteFor(sql, source);
      }
    }
  }
}
