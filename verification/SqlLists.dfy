/**
 FROM lists: the names that follow a reference after commas.  The gate's scan
 does not look at them; what that means for each source is decided here.
 */
module SqlLists {
  import opened PyText
  import opened SqlGate
  import opened SqlPhrases

  predicate NameAt(s: string, k: nat) {
    k < |s| && (IsLetter(s[k]) || s[k] == '_')
  }

  /** The names listed from position `i` on: comma, name, comma, name, with whitespace around the commas. */
  function ListTail(s: string, i: nat): seq<string>
    requires i <= |s|
    decreases |s| - i
  {
    var c := SpacesEnd(s, i);
    if c < |s| && s[c] == ',' then
      var k := SpacesEnd(s, c + 1);
      if NameAt(s, k) then [s[k..NameEnd(s, k)]] + ListTail(s, NameEnd(s, k)) else []
    else []
  }

  /** Every reference names the table, and so does every name listed after it. */
  ghost predicate ListsOnly(s: string, table: string) {
    && ReferencesOnly(s, table)
    && forall i: nat :: Reference(s, i) ==>
         forall name :: name in ListTail(s, ReferenceEnd(s, i)) ==> TableOf(name) == table
  }

  ghost predicate ListGuarded(source: string) {
    forall sql :: Accepts(sql, source) ==> ListsOnly(Strip(sql), ExpectedTable(source))
  }

  // ----- text without a comma -----

  lemma NoCommaNoList(s: string, i: nat)
    requires ',' !in s && i <= |s|
    ensures ListTail(s, i) == []
  {
    var c := SpacesEnd(s, i);
    assert c < |s| ==> s[c] in s;
  }

  /** For an ordinary table, accepted text without a comma lists nothing but that table. */
  lemma CommaFreeGuarded(sql: string, source: string)
    requires Accepts(sql, source) && !IsKeyword(ExpectedTable(source)) && ',' !in Strip(sql)
    ensures ListsOnly(Strip(sql), ExpectedTable(source))
  {
    hide *;
    var s := Strip(sql);
    ScanCompleteFor(sql, source);
    forall i: nat | Reference(s, i) ensures ListTail(s, ReferenceEnd(s, i)) == [] {
      NoCommaNoList(s, ReferenceEnd(s, i));
    }
    NoTails(s, ExpectedTable(source));
  }

  lemma NoTails(s: string, table: string)
    requires ReferencesOnly(s, table)
    requires forall i: nat :: Reference(s, i) ==> ListTail(s, ReferenceEnd(s, i)) == []
    ensures ListsOnly(s, table)
  {
    hide ReferencesOnly, Reference, ListTail;
  }

  // ----- nothing is accepted for a reserved table -----

  lemma LowerKeepsWords(s: string, i: nat)
    requires i <= |s|
    ensures i < |s| ==> (IsWord(Lower(s)[i]) <==> IsWord(s[i]))
    ensures Boundary(Lower(s), i) <==> Boundary(s, i)
  {
  }

  lemma ReferenceShape(s: string, i: nat)
    requires Reference(s, i)
    ensures var k, e := NameStart(s, i), ReferenceEnd(s, i);
            && 0 < k < e <= |s| && IsSpace(s[k - 1]) && (forall j :: k <= j < e ==> InName(s[j]))
            && (e < |s| ==> !InName(s[e])) && ReferenceName(s, i) == s[k..e]
  {
    hide KeywordAt, SpacesEnd, NameEnd;
  }

  /** The last component of a reference's name is a word of its own. */
  lemma TableIsAWord(s: string, i: nat)
    requires Reference(s, i) && TableOf(ReferenceName(s, i)) != ""
    ensures HasWord(Lower(s), TableOf(ReferenceName(s, i)))
  {
    hide LastPart, Reference, NameStart, ReferenceEnd, ReferenceName, SafeIdentifier, Boundary, Lower;
    ReferenceShape(s, i);
    var k, e := NameStart(s, i), ReferenceEnd(s, i);
    LastPartPlace(s, k, e);
    var part := LastPart(s[k..e], '.');
    var p := e - |part|;
    SafeWord(part);
    LowerSlice(s, p, e);
    LowerKeepsWords(s, p);
    LowerKeepsWords(s, e);
    assert MatchesAt(Lower(s), p, Lower(part));
  }

  lemma LastPartWords(name: string)
    requires forall j :: 0 <= j < |name| ==> InName(name[j])
    ensures forall j :: 0 <= j < |LastPart(name, '.')| ==> IsWord(LastPart(name, '.')[j])
  {
    hide LastPart;
    LastPartShape(name, '.');
    var part := LastPart(name, '.');
    var n := |name| - |part|;
    forall j | 0 <= j < |part| ensures IsWord(part[j]) {
      assert part[j] == name[n + j] && part[j] in part;
    }
  }

  lemma LastPartPlace(s: string, k: nat, e: nat)
    requires 0 < k < e <= |s| && (forall j :: k <= j < e ==> InName(s[j])) && IsSpace(s[k - 1])
    requires e < |s| ==> !InName(s[e])
    ensures var part := LastPart(s[k..e], '.');
            var p := e - |part|;
            && k <= p <= e && part == s[p..e] && (forall j :: 0 <= j < |part| ==> IsWord(part[j]))
            && (part != "" ==> Boundary(s, p) && Boundary(s, e))
  {
    hide LastPart, Boundary, InName, IsWord, IsSpace;
    var name := s[k..e];
    LastPartWords(name);
    LastPartShape(name, '.');
    var part := LastPart(name, '.');
    var p := e - |part|;
    assert part == s[p..e];
    assert p > k ==> s[p - 1] == name[p - k - 1] == '.';
    if part != "" {
      forall j | p <= j < e ensures IsWord(s[j]) { assert part[j - p] == s[j]; }
      WordEdges(s, p, e);
    }
  }

  lemma WordEdges(s: string, p: nat, e: nat)
    requires 0 < p < e <= |s| && (forall j :: p <= j < e ==> IsWord(s[j]))
    requires (s[p - 1] == '.' || IsSpace(s[p - 1])) && (e < |s| ==> !InName(s[e]))
    ensures Boundary(s, p) && Boundary(s, e)
  {
  }

  /** Any text that names the table contains its word, which the gate forbids. */
  lemma NothingAccepted(sql: string, source: string)
    requires Reserved(ExpectedTable(source))
    ensures !Accepts(sql, source)
  {
    hide *;
    if Accepts(sql, source) {
      var s, table := Strip(sql), ExpectedTable(source);
      AcceptedScan(sql, source);
      var i := SomeReference(s, table);
      ReservedNotEmpty(table);
      TableIsAWord(s, i);
      ReservedRaises(sql, source);
    }
  }

  lemma SomeReference(s: string, table: string) returns (i: nat)
    requires FindAll(s, 0) != [] && !OtherTable(s, table)
    ensures Reference(s, i) && TableOf(ReferenceName(s, i)) == table
  {
    i := FoundAreReferences(s, 0, FindAll(s, 0)[0]);
  }

  lemma ReservedNotEmpty(table: string)
    requires Reserved(table)
    ensures table != ""
  {
  }

  lemma ReservedRaises(sql: string, source: string)
    requires Accepts(sql, source) && Reserved(ExpectedTable(source))
    ensures !HasWord(Lower(Strip(sql)), ExpectedTable(source))
  {
    hide HasWord, Strip, ExpectedTable, Lower;
    var s, table := Strip(sql), ExpectedTable(source);
    assert !Raises(s, table, BooleanOperatorNotAllowed);
    assert !Raises(s, table, ForbiddenKeywordDetected);
  }

  // ----- a list is accepted for every other table -----

  /** `select a from a.<table>, x`, spelled out. */
  function ListingPhrase(table: string): Phrase {
    [("select", ' '), ("a", ' '), ("from", ' '), ("a", '.'), (table, ','), ("", ' ')]
  }

  function Other(table: string): char {
    if table == "x" then 'y' else 'x'
  }

  /** A text that lists another table after a comma. */
  function Listing(table: string): string {
    Spell(ListingPhrase(table), [Other(table)])
  }

  lemma TablesArePlain(source: string)
    ensures Plain(ExpectedTable(source))
  {
    hide Lower, SafeIdentifier, RStripChar, LastPart, Plain;
    LoweredIsPlain(SourceTable(source));
  }

  lemma LoweredIsPlain(s: string)
    requires forall k :: 0 <= k < |s| ==> IsWord(s[k])
    ensures Plain(Lower(s))
  {
    hide Lower;
    forall k | 0 <= k < |s| ensures IsWord(Lower(s)[k]) && LowerChar(Lower(s)[k]) == Lower(s)[k] {
      assert Lower(s)[k] == LowerChar(s[k]);
    }
  }

  /** The words of the query texts other than the table. */
  lemma FixedWords(table: string)
    ensures Plain("select") && Plain("a") && Plain("from") && Plain("") && Plain([Other(table)])
    ensures Plain("cross") && Plain("join")
    ensures !Reserved("select") && !Reserved("a") && !Reserved("from") && !Reserved("") && !Reserved([Other(table)])
    ensures !Reserved("cross") && !Reserved("join")
  {
  }

  lemma ListingProper(table: string)
    requires Plain(table) && !Reserved(table)
    ensures Proper(ListingPhrase(table), [Other(table)]) && Harmless(ListingPhrase(table), [Other(table)])
  {
    hide Plain, Reserved, Other;
    FixedWords(table);
  }

  /** The characters after the table. */
  lemma ListingRest(table: string)
    ensures var s, e := Listing(table), Offset(ListingPhrase(table), 4) + |table|;
            && |s| == e + 3 && s[e] == ',' && s[e + 1] == ' ' && s[e + 2..] == [Other(table)] && IsLetter(s[e + 2])
            && "select " <= s
  {
    hide Spell, ListingPhrase, Offset, Other;
    OtherIs(table);
    ListingPieces(table);
    var ps, last := ListingPhrase(table), [Other(table)];
    SpellAt(ps, last, 4);
    SpellAt(ps, last, 5);
    OffsetEnd(ps, last);
    SpellSplit(ps, last, 6);
    assert ps[6..] == [] && Spell([], last) == last by { NothingSpelled(last); }
    assert Listing(table)[Offset(ps, 6)..][0] == Other(table);
    SpellStart(ps, last, "select");
  }

  lemma ListingPieces(table: string)
    ensures var ps := ListingPhrase(table);
            |ps| == 6 && ps[0] == ("select", ' ') && ps[4] == (table, ',') && ps[5] == ("", ' ')
  {
  }

  lemma OtherIs(table: string)
    ensures Other(table) == 'x' || Other(table) == 'y'
  {
  }

  lemma NothingSpelled(last: string)
    ensures Spell([], last) == last
  {
  }

  lemma SpellStart(ps: Phrase, last: string, word: string)
    requires ps != [] && ps[0] == (word, ' ')
    ensures word + " " <= Spell(ps, last) && Spell(ps, last)[..|word|] == word
  {
  }

  /** The scan finds the one reference. */
  lemma ListingScan(table: string)
    requires Plain(table) && !Reserved(table)
    ensures var s, ps := Listing(table), ListingPhrase(table);
            && FindAll(s, 0) == ["a." + table]
            && Reference(s, Offset(ps, 2)) && ReferenceEnd(s, Offset(ps, 2)) == Offset(ps, 4) + |table|
  {
    hide Plain, Reserved, Other, Spell, FindAll, Reference, ReferenceEnd, ReferenceName, Proper, Harmless;
    var ps, last := ListingPhrase(table), [Other(table)];
    ListingProper(table);
    PassOver(ps, last, 0);
    PassOver(ps, last, 1);
    TakeName(ps, last, 2);
    PassOver(ps, last, 5);
    NothingAtEnd(ps, last);
  }

  lemma TableNamed(table: string)
    requires Plain(table)
    ensures TableOf("a." + table) == table
    ensures TableOf([Other(table)]) == [Other(table)] != table
  {
    var name := "a." + table;
    assert name[2..] == table;
    assert '.' !in table;
    LastPartIs(name, 2);
    SafeWord(table);
    assert Lower(table) == table;
    var other := [Other(table)];
    assert other[0..] == other;
    LettersLast(other, 0);
    assert Lower(other) == other;
  }

  lemma OnlyNamed(s: string, table: string, name: string)
    requires TableOf(name) == table && forall found :: found in FindAll(s, 0) ==> found == name
    ensures !OtherTable(s, table)
  {
    hide FindAll, TableOf;
    forall k | 0 <= k < |FindAll(s, 0)| ensures TableOf(FindAll(s, 0)[k]) == table {
      assert FindAll(s, 0)[k] in FindAll(s, 0);
    }
  }

  /** For every table that is no forbidden word, accepted text may list another table after a comma. */
  lemma ListingEscapes(source: string)
    requires !Reserved(ExpectedTable(source))
    ensures var sql := Listing(ExpectedTable(source));
            Accepts(sql, source) && !ListsOnly(Strip(sql), ExpectedTable(source))
  {
    hide *;
    var table := ExpectedTable(source);
    var sql, ps := Listing(table), ListingPhrase(table);
    ListingIs(table);
    TablesArePlain(source);
    ListingProper(table);
    ListingRest(table);
    ListingStripped(table);
    ListingScan(table);
    TableNamed(table);
    OnlyNamed(sql, table, "a." + table);
    SpellAccepted(ps, [Other(table)], source);
    OneListed(sql, Offset(ps, 4) + |table|);
    TailEscapes(sql, table, Offset(ps, 2), [Other(table)]);
  }

  lemma ListingIs(table: string)
    ensures Listing(table) == Spell(ListingPhrase(table), [Other(table)]) && |ListingPhrase(table)| == 6
  {
  }

  lemma ListingStripped(table: string)
    ensures Strip(Listing(table)) == Listing(table)
  {
    hide Spell, Offset, ListingPhrase, Strip;
    ListingRest(table);
    var s := Listing(table);
    assert s[0] == "select "[0];
    StripWhole(s);
  }

  lemma NoSpaces(s: string, i: nat)
    requires i <= |s| && (i < |s| ==> !IsSpace(s[i]))
    ensures SpacesEnd(s, i) == i
  {
  }

  lemma OneListed(s: string, i: nat)
    requires |s| == i + 3 && s[i] == ',' && s[i + 1] == ' ' && IsLetter(s[i + 2])
    ensures ListTail(s, i) == [s[i + 2..]]
  {
    hide SpacesEnd, NameEnd;
    NoSpaces(s, i);
    NoSpaces(s, i + 2);
    assert SpacesEnd(s, i + 1) == i + 2;
    NameEndIs(s, i + 2, i + 3);
    NoSpaces(s, i + 3);
    assert ListTail(s, i + 3) == [];
    assert s[i + 2..i + 3] == s[i + 2..];
  }

  lemma TailEscapes(s: string, table: string, i: nat, name: string)
    requires Reference(s, i) && ListTail(s, ReferenceEnd(s, i)) == [name] && TableOf(name) != table
    ensures !ListsOnly(s, table)
  {
    hide ListTail, Reference, TableOf;
    assert name in ListTail(s, ReferenceEnd(s, i));
  }

  /**
   Names listed after a comma are kept to the source's table exactly for the
   sources whose table is a forbidden word, and for those nothing is accepted.
   */
  lemma ListGuardedExactly(source: string)
    ensures ListGuarded(source) <==> Reserved(ExpectedTable(source))
    ensures (exists sql :: Accepts(sql, source)) <==> !Reserved(ExpectedTable(source))
  {
    hide *;
    if Reserved(ExpectedTable(source)) {
      forall sql ensures !Accepts(sql, source) { NothingAccepted(sql, source); }
      NothingToGuard(source);
    } else {
      ListingEscapes(source);
      Unguarded(source, Listing(ExpectedTable(source)));
    }
  }

  lemma NothingToGuard(source: string)
    requires forall sql :: !Accepts(sql, source)
    ensures ListGuarded(source)
  {
  }

  lemma Unguarded(source: string, sql: string)
    requires Accepts(sql, source) && !ListsOnly(Strip(sql), ExpectedTable(source))
    ensures !ListGuarded(source)
  {
    hide Accepts, ListsOnly;
  }
}
