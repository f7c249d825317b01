/**
 FROM and JOIN before a parenthesis.  The gate's pattern demands whitespace after
 the keyword; what it overlooks in text without a comma is decided here.
 */
module SqlNesting {
  import opened PyText
  import opened SqlGate
  import opened SqlPhrases
  import opened SqlLists

  /** The end of the whitespace and opening parentheses from position `i` on. */
  function OpeningEnd(s: string, i: nat): nat
    requires i <= |s|
    decreases |s| - i
  {
    if i < |s| && (IsSpace(s[i]) || s[i] == '(') then OpeningEnd(s, i + 1) else i
  }

  lemma {:induction false} OpeningShape(s: string, i: nat)
    requires i <= |s|
    ensures var k := OpeningEnd(s, i);
            && i <= k <= |s| && (forall j :: i <= j < k ==> IsSpace(s[j]) || s[j] == '(')
            && (k < |s| ==> !IsSpace(s[k]) && s[k] != '(')
    decreases |s| - i
  {
    if i < |s| && (IsSpace(s[i]) || s[i] == '(') { OpeningShape(s, i + 1); }
  }

  /** FROM or JOIN at a word boundary, then whitespace or opening parentheses, then a name. */
  predicate Nested(s: string, i: nat) {
    && i + 4 <= |s| && KeywordAt(s, i)
    && var k := OpeningEnd(s, i + 4);
       i + 4 < k && NameAt(s, k)
  }

  /** The name it reads. */
  function NestedName(s: string, i: nat): string
    requires Nested(s, i)
  {
    OpeningShape(s, i + 4);
    var k := OpeningEnd(s, i + 4);
    s[k..NameEnd(s, k)]
  }

  /** Every such name is the table. */
  ghost predicate NestedOnly(s: string, table: string) {
    forall i: nat :: Nested(s, i) ==> TableOf(NestedName(s, i)) == table
  }

  /** Accepted text without a comma reads only the source's table, inside parentheses as well. */
  ghost predicate NestingGuarded(source: string) {
    forall sql :: Accepts(sql, source) && ',' !in Strip(sql) ==> NestedOnly(Strip(sql), ExpectedTable(source))
  }

  // ----- text without parentheses -----

  lemma {:induction false} OpeningIsSpaces(s: string, i: nat)
    requires i <= |s| && '(' !in s
    ensures OpeningEnd(s, i) == SpacesEnd(s, i)
    decreases |s| - i
  {
    if i < |s| {
      assert s[i] in s;
      if IsSpace(s[i]) { OpeningIsSpaces(s, i + 1); }
    }
  }

  /** Without an opening parenthesis these are the references of the scan. */
  lemma NestedIsReference(s: string, i: nat)
    requires '(' !in s
    ensures Nested(s, i) <==> Reference(s, i)
    ensures Nested(s, i) ==> NestedName(s, i) == ReferenceName(s, i)
  {
    hide KeywordAt, OpeningEnd, SpacesEnd, NameEnd;
    if i + 4 <= |s| { OpeningIsSpaces(s, i + 4); }
  }

  /** For an ordinary table, accepted text without an opening parenthesis reads nothing but that table. */
  lemma ParenFreeGuarded(sql: string, source: string)
    requires Accepts(sql, source) && !IsKeyword(ExpectedTable(source)) && '(' !in Strip(sql)
    ensures NestedOnly(Strip(sql), ExpectedTable(source))
  {
    hide Accepts, ExpectedTable, Strip, Nested, NestedName, Reference, ReferenceName, TableOf, IsKeyword, FindAll;
    var s := Strip(sql);
    ScanCompleteFor(sql, source);
    forall i: nat | Nested(s, i) ensures TableOf(NestedName(s, i)) == ExpectedTable(source) {
      NestedIsReference(s, i);
      assert Names(s, i, ExpectedTable(source));
    }
  }

  // ----- a nested join is accepted for every table -----

  /** `select a from a.<table> cross join(x cross join a.<table>)`, spelled out. */
  function NestingPhrase(table: string): Phrase {
    [("select", ' '), ("a", ' '), ("from", ' '), ("a", '.'), (table, ' '), ("cross", ' '), ("join", '('),
     ([Other(table)], ' '), ("cross", ' '), ("join", ' '), ("a", '.'), (table, ')')]
  }

  /** A text that reads another table inside parentheses. */
  function Nesting(table: string): string {
    Spell(NestingPhrase(table), "")
  }

  lemma NestingIs(table: string)
    ensures Nesting(table) == Spell(NestingPhrase(table), "") && |NestingPhrase(table)| == 12
  {
  }

  lemma NestingProper(table: string)
    requires Plain(table) && !Reserved(table)
    ensures Proper(NestingPhrase(table), "") && Harmless(NestingPhrase(table), "")
  {
    hide Plain, Reserved, Other;
    FixedWords(table);
  }

  /** The scan takes the two names that follow a space. */
  lemma NestingScan(table: string)
    requires Plain(table) && !Reserved(table)
    ensures FindAll(Nesting(table), 0) == ["a." + table, "a." + table]
  {
    hide Plain, Reserved, Other, Spell, FindAll, Reference, ReferenceEnd, ReferenceName, Proper, Harmless;
    var ps := NestingPhrase(table);
    NestingProper(table);
    OtherIsNoKeyword(table);
    PassOver(ps, "", 0);
    PassOver(ps, "", 1);
    TakeName(ps, "", 2);
    PassOver(ps, "", 5);
    PassOver(ps, "", 6);
    PassOver(ps, "", 7);
    PassOver(ps, "", 8);
    TakeName(ps, "", 9);
    NothingAtEnd(ps, "");
  }

  lemma OtherIsNoKeyword(table: string)
    ensures !IsKeyword([Other(table)]) && !IsKeyword("cross") && !IsKeyword("select") && !IsKeyword("a")
    ensures Other(table) == 'x' || Other(table) == 'y'
  {
    assert |[Other(table)]| == 1;
  }

  /** The characters around the parenthesis, at the start and at the end. */
  lemma NestingShape(table: string)
    ensures var s, i := Nesting(table), Offset(NestingPhrase(table), 6);
            && 0 < i && i + 6 < |s| && s[i - 1] == ' ' && s[i..i + 4] == "join" && s[i + 4] == '('
            && s[i + 5] == Other(table) && s[i + 6] == ' ' && "select " <= s && s[|s| - 1] == ')'
  {
    hide Spell, Other, NestingPhrase, Offset;
    var ps := NestingPhrase(table);
    NestingPieces(table);
    SpellAt(ps, "", 5);
    SpellAt(ps, "", 6);
    SpellAt(ps, "", 7);
    SpellAt(ps, "", 11);
    OffsetEnd(ps, "");
    SpellStart(ps, "", "select");
  }

  lemma NestingPieces(table: string)
    ensures var ps := NestingPhrase(table);
            && |ps| == 12 && ps[0] == ("select", ' ') && ps[5].1 == ' ' && ps[6] == ("join", '(')
            && ps[7] == ([Other(table)], ' ') && ps[11].1 == ')'
  {
  }

  lemma NestingStripped(table: string)
    ensures Strip(Nesting(table)) == Nesting(table)
  {
    hide Spell, Offset, NestingPhrase, Strip;
    NestingShape(table);
    var s := Nesting(table);
    assert s[0] == "select "[0];
    StripWhole(s);
  }

  /** The characters of a word, an end and a name make a nested reading. */
  lemma NestedHere(s: string, i: nat, c: char)
    requires 0 < i && i + 6 < |s| && s[i - 1] == ' ' && s[i..i + 4] == "join" && s[i + 4] == '('
    requires s[i + 5] == c && (c == 'x' || c == 'y') && s[i + 6] == ' ' && Lower(s) == s
    ensures Nested(s, i) && NestedName(s, i) == [c]
  {
    assert s[i] == s[i..i + 4][0];
    assert KeywordAt(s, i);
    assert OpeningEnd(s, i + 5) == i + 5;
    NameEndIs(s, i + 5, i + 6);
  }

  lemma NoComma(table: string)
    requires Plain(table) && !Reserved(table)
    ensures ',' !in Nesting(table)
  {
    hide Spell, Plain, Reserved;
    NestingProper(table);
    CommaFree(NestingPhrase(table), "");
  }

  lemma {:induction false} CommaFree(ps: Phrase, last: string)
    requires Proper(ps, last) && forall k :: 0 <= k < |ps| ==> ps[k].1 != ','
    ensures ',' !in Spell(ps, last)
  {
    if ps != [] {
      CommaFree(ps[1..], last);
      forall c | c in Spell(ps, last) ensures c != ',' {
        assert c in ps[0].0 || c == ps[0].1 || c in Spell(ps[1..], last);
      }
    } else {
      forall c | c in last ensures c != ',' {}
    }
  }

  /** For every table that is no forbidden word, accepted text without a comma may read another table in parentheses. */
  lemma NestingEscapes(source: string)
    requires !Reserved(ExpectedTable(source))
    ensures var sql := Nesting(ExpectedTable(source));
            && Accepts(sql, source) && ',' !in Strip(sql) && !NestedOnly(Strip(sql), ExpectedTable(source))
  {
    hide *;
    var table := ExpectedTable(source);
    var sql, ps := Nesting(table), NestingPhrase(table);
    NestingIs(table);
    TablesArePlain(source);
    NestingProper(table);
    NestingShape(table);
    NestingStripped(table);
    NestingScan(table);
    NoComma(table);
    TableNamed(table);
    OnlyNamed(sql, table, "a." + table);
    SpellAccepted(ps, "", source);
    SpellLow(ps, "");
    OtherIsNoKeyword(table);
    NestedHere(sql, Offset(ps, 6), Other(table));
    ReadsOther(sql, table, Offset(ps, 6));
  }

  lemma ReadsOther(s: string, table: string, i: nat)
    requires Nested(s, i) && TableOf(NestedName(s, i)) != table
    ensures !NestedOnly(s, table)
  {
    hide Nested, NestedName, TableOf;
  }

  /**
   Names in parentheses are kept to the source's table, in text without a comma,
   exactly for the sources whose table is a forbidden word.
   */
  lemma NestingGuardedExactly(source: string)
    ensures NestingGuarded(source) <==> Reserved(ExpectedTable(source))
  {
    hide Accepts, NestedOnly, Reserved, ExpectedTable, Strip, Nesting;
    if Reserved(ExpectedTable(source)) {
      forall sql ensures !Accepts(sql, source) { NothingAccepted(sql, source); }
    } else {
      NestingEscapes(source);
    }
  }
}
