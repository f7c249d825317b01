/**
 Query texts spelled as plain words and the single characters that end them: which
 words they hold, which references the scan finds in them, and when the gate
 accepts them.
 */
module SqlPhrases {
  import opened PyText
  import opened SqlGate

  /** Words, each with the character that ends it. */
  type Phrase = seq<(string, char)>

  /** The text of a phrase and one more word. */
  function Spell(ps: Phrase, last: string): string {
    if ps == [] then last else ps[0].0 + [ps[0].1] + Spell(ps[1..], last)
  }

  /** A word as table names are: lower case, word characters only. */
  predicate Plain(word: string) {
    forall k :: 0 <= k < |word| ==> IsWord(word[k]) && LowerChar(word[k]) == word[k]
  }

  predicate Ends(c: char) {
    c == ' ' || c == '.' || c == ',' || c == '(' || c == ')'
  }

  ghost predicate Proper(ps: Phrase, last: string) {
    Plain(last) && forall k :: 0 <= k < |ps| ==> Plain(ps[k].0) && Ends(ps[k].1)
  }

  /** A word the gate forbids. */
  predicate Reserved(word: string) {
    word == "and" || word == "or" || exists k :: 0 <= k < |FORBIDDEN| && word == FORBIDDEN[k]
  }

  ghost predicate Harmless(ps: Phrase, last: string) {
    !Reserved(last) && forall k :: 0 <= k < |ps| ==> !Reserved(ps[k].0)
  }

  // ----- characters -----

  /** Where piece `k` begins. */
  function Offset(ps: Phrase, k: nat): nat
    requires k <= |ps|
  {
    if k == 0 then 0 else Offset(ps, k - 1) + |ps[k - 1].0| + 1
  }

  lemma {:induction false} SpellSplit(ps: Phrase, last: string, k: nat)
    requires k <= |ps|
    ensures Offset(ps, k) <= |Spell(ps, last)| && Spell(ps, last)[Offset(ps, k)..] == Spell(ps[k..], last)
    ensures k < |ps| ==> Spell(ps[k..], last) == ps[k].0 + [ps[k].1] + Spell(ps[k + 1..], last)
  {
    if k > 0 {
      SpellSplit(ps, last, k - 1);
    } else {
      assert ps[0..] == ps;
    }
    if k < |ps| { assert ps[k..][1..] == ps[k + 1..]; }
  }

  /** The text around the end of one piece. */
  lemma SpellAt(ps: Phrase, last: string, k: nat)
    requires k < |ps|
    ensures var s, i, n := Spell(ps, last), Offset(ps, k), |ps[k].0|;
            && i + n < |s| && s[i..i + n] == ps[k].0 && s[i + n] == ps[k].1 && Offset(ps, k + 1) == i + n + 1
            && forall j :: 0 <= j < n ==> s[i + j] == ps[k].0[j]
  {
    SpellSplit(ps, last, k);
    hide Spell;
    var s, i, n := Spell(ps, last), Offset(ps, k), |ps[k].0|;
    var rest := s[i..];
    assert rest[n] == ps[k].1 && rest[..n] == ps[k].0;
    forall j | 0 <= j < n ensures s[i + j] == ps[k].0[j] { assert rest[j] == ps[k].0[j]; }
  }

  lemma {:induction false} SpellChars(ps: Phrase, last: string)
    requires Proper(ps, last)
    ensures forall c :: c in Spell(ps, last) ==> (IsWord(c) || Ends(c)) && LowerChar(c) == c
  {
    hide IsWord, LowerChar;
    EndsAreLow();
    if ps != [] {
      SpellChars(ps[1..], last);
      forall c | c in Spell(ps, last) ensures (IsWord(c) || Ends(c)) && LowerChar(c) == c {
        assert c in ps[0].0 || c == ps[0].1 || c in Spell(ps[1..], last);
      }
    }
  }

  lemma EndsAreLow()
    ensures forall c: char :: Ends(c) ==> LowerChar(c) == c && !IsWord(c)
  {
  }

  lemma SpellLow(ps: Phrase, last: string)
    requires Proper(ps, last)
    ensures Lower(Spell(ps, last)) == Spell(ps, last)
  {
    hide Spell, LowerChar;
    SpellChars(ps, last);
    var s := Spell(ps, last);
    forall i | 0 <= i < |s| ensures Lower(s)[i] == s[i] { assert s[i] in s; }
  }

  // ----- words -----

  /** A word occurs on one side of a character that ends words. */
  lemma WordApart(a: string, c: char, b: string, w: string)
    requires !IsWord(c) && w != "" && (forall j :: 0 <= j < |w| ==> IsWord(w[j])) && HasWord(a + [c] + b, w)
    ensures HasWord(a, w) || HasWord(b, w)
  {
    hide IsWord;
    var s, n := a + [c] + b, |a|;
    var i :| 0 <= i <= |s| && MatchesAt(s, i, w) && Boundary(s, i) && Boundary(s, i + |w|);
    MatchesChars(s, i, w);
    forall j | i <= j < i + |w| ensures IsWord(s[j]) { assert s[i + (j - i)] == w[j - i]; }
    assert s[n] == c;
    if i + |w| <= n {
      assert a[i..i + |w|] == s[i..i + |w|];
      assert Boundary(a, i) && Boundary(a, i + |w|);
    } else if i > n {
      assert b[i - n - 1..i - n - 1 + |w|] == s[i..i + |w|];
      assert Boundary(b, i - n - 1) && Boundary(b, i - n - 1 + |w|);
    }
  }

  lemma OnlyWord(a: string, w: string)
    requires Plain(a) && w != "" && (forall j :: 0 <= j < |w| ==> IsWord(w[j])) && HasWord(a, w)
    ensures a == w
  {
    var i :| 0 <= i <= |a| && MatchesAt(a, i, w) && Boundary(a, i) && Boundary(a, i + |w|);
    assert i == 0 && i + |w| == |a|;
  }

  /** The words of the text are those of the phrase. */
  lemma {:induction false} SpellWords(ps: Phrase, last: string, w: string)
    requires Proper(ps, last) && w != "" && (forall j :: 0 <= j < |w| ==> IsWord(w[j])) && HasWord(Spell(ps, last), w)
    ensures w == last || exists k :: 0 <= k < |ps| && ps[k].0 == w
  {
    hide HasWord, IsWord, LowerChar;
    if ps == [] {
      OnlyWord(last, w);
    } else {
      EndsAreLow();
      WordApart(ps[0].0, ps[0].1, Spell(ps[1..], last), w);
      if HasWord(ps[0].0, w) { OnlyWord(ps[0].0, w); } else { SpellWords(ps[1..], last, w); }
    }
  }

  // ----- what the scan finds -----

  lemma {:induction false} OffsetEnd(ps: Phrase, last: string)
    ensures |Spell(ps, last)| == Offset(ps, |ps|) + |last|
  {
    SpellSplit(ps, last, |ps|);
    assert ps[|ps|..] == [];
  }

  lemma NotAtEnd(s: string, j: nat)
    requires j < |s| && Ends(s[j])
    ensures !Reference(s, j)
  {
    if Reference(s, j) { KeywordLetters(s, j); }
  }

  lemma NotInside(s: string, j: nat)
    requires 0 < j < |s| && IsWord(s[j - 1]) && IsWord(s[j])
    ensures !Reference(s, j)
  {
  }

  /** A word followed by something else than a space, or no keyword, starts no reference. */
  lemma NotAtStart(s: string, i: nat, n: nat)
    requires i + n < |s| && Plain(s[i..i + n]) && Ends(s[i + n]) && Lower(s) == s
    requires !(IsKeyword(s[i..i + n]) && s[i + n] == ' ')
    ensures !Reference(s, i)
  {
    if Reference(s, i) {
      KeywordLetters(s, i);
      var k := NameStart(s, i);
      assert IsSpace(s[i + 4]);
      forall j | i <= j < i + n ensures IsWord(s[j]) { assert s[i..i + n][j - i] == s[j]; }
    }
  }

  /** The scan passes over a piece that starts no reference. */
  lemma PassOver(ps: Phrase, last: string, k: nat)
    requires Proper(ps, last) && k < |ps| && !(IsKeyword(ps[k].0) && ps[k].1 == ' ')
    ensures FindAll(Spell(ps, last), Offset(ps, k)) == FindAll(Spell(ps, last), Offset(ps, k + 1))
  {
    hide *;
    var s, i, n := Spell(ps, last), Offset(ps, k), |ps[k].0|;
    SpellAt(ps, last, k);
    SpellLow(ps, last);
    ProperPiece(ps, last, k);
    NotAtStart(s, i, n);
    NotAtEnd(s, i + n);
    forall j | i <= j < i + n + 1 ensures !Reference(s, j) {
      if i < j < i + n { NotInside(s, j); }
    }
    NothingBefore(s, i, i + n + 1);
  }

  lemma ProperPiece(ps: Phrase, last: string, k: nat)
    requires Proper(ps, last) && k < |ps|
    ensures Plain(ps[k].0) && Ends(ps[k].1) && forall j :: 0 <= j < |ps[k].0| ==> IsWord(ps[k].0[j])
  {
    hide IsWord, LowerChar, Ends;
  }

  /** FROM or JOIN, then a table of schema `a`. */
  ghost predicate Reads(ps: Phrase, k: nat) {
    && 0 < k && k + 2 < |ps| && ps[k - 1].1 == ' '
    && IsKeyword(ps[k].0) && ps[k].1 == ' ' && ps[k + 1] == ("a", '.') && ps[k + 2].1 != '.'
  }

  /** The scan takes the name. */
  lemma TakeName(ps: Phrase, last: string, k: nat)
    requires Proper(ps, last) && Reads(ps, k)
    ensures var s, i, e := Spell(ps, last), Offset(ps, k), Offset(ps, k + 2) + |ps[k + 2].0|;
            && Reference(s, i) && ReferenceEnd(s, i) == e && ReferenceName(s, i) == "a." + ps[k + 2].0
            && FindAll(s, i) == ["a." + ps[k + 2].0] + FindAll(s, Offset(ps, k + 3))
  {
    hide *;
    ReadsShape(ps, k);
    var s, i, e := Spell(ps, last), Offset(ps, k), Offset(ps, k + 2) + |ps[k + 2].0|;
    SpellAt(ps, last, k - 1);
    SpellAt(ps, last, k);
    SpellAt(ps, last, k + 1);
    SpellAt(ps, last, k + 2);
    SpellLow(ps, last);
    ProperPiece(ps, last, k + 2);
    NameChars(s, i, e, ps[k + 2].0);
    ReferenceAt(s, i, e);
    NotAtEnd(s, e);
    FoundHere(s, i, e);
    NothingBefore(s, e, e + 1);
  }

  lemma ReadsShape(ps: Phrase, k: nat)
    requires Reads(ps, k)
    ensures 0 < k && k + 2 < |ps| && ps[k - 1].1 == ' ' && IsKeyword(ps[k].0) && |ps[k].0| == 4 && ps[k].1 == ' '
    ensures ps[k + 1].0 == "a" && |ps[k + 1].0| == 1 && ps[k + 1].1 == '.' && ps[k + 2].1 != '.'
  {
    KeywordIsLetters(ps[k].0);
  }

  lemma NameChars(s: string, i: nat, e: nat, table: string)
    requires i + 7 <= e < |s| && s[i + 5..i + 6] == "a" && s[i + 6] == '.' && s[i + 7..e] == table
    requires (forall j :: 0 <= j < |table| ==> IsWord(table[j])) && Ends(s[e]) && s[e] != '.'
    ensures IsLetter(s[i + 5]) && (forall j :: i + 5 <= j < e ==> InName(s[j])) && !InName(s[e])
    ensures s[i + 5..e] == "a." + table
  {
    assert s[i + 5] == s[i + 5..i + 6][0] == 'a';
    forall j | i + 7 <= j < e ensures IsWord(s[j]) { assert s[j] == s[i + 7..e][j - i - 7]; }
    assert s[i + 5..e] == s[i + 5..i + 6] + [s[i + 6]] + s[i + 7..e];
  }

  lemma FoundHere(s: string, i: nat, e: nat)
    requires Reference(s, i) && NameStart(s, i) == i + 5 && ReferenceEnd(s, i) == e
    ensures ReferenceName(s, i) == s[i + 5..e] && FindAll(s, i) == [ReferenceName(s, i)] + FindAll(s, e)
  {
  }

  /** A short last word is no reference. */
  lemma NothingAtEnd(ps: Phrase, last: string)
    requires |last| <= 4
    ensures FindAll(Spell(ps, last), Offset(ps, |ps|)) == []
  {
    var s := Spell(ps, last);
    hide Spell, Offset;
    OffsetEnd(ps, last);
    forall j | Offset(ps, |ps|) <= j < |s| ensures !Reference(s, j) {}
    NothingBefore(s, Offset(ps, |ps|), |s|);
  }

  // ----- the gate -----

  lemma ReservedWords(k: nat)
    requires k < |FORBIDDEN|
    ensures FORBIDDEN[k] != "" && (forall j :: 0 <= j < |FORBIDDEN[k]| ==> IsWord(FORBIDDEN[k][j]))
  {
  }

  lemma AndOrWords()
    ensures forall j :: 0 <= j < |"and"| ==> IsWord("and"[j])
    ensures forall j :: 0 <= j < |"or"| ==> IsWord("or"[j])
  {
  }

  lemma SpellWordless(ps: Phrase, last: string)
    requires Proper(ps, last) && Harmless(ps, last)
    ensures var s := Spell(ps, last); !ForbiddenWord(s) && !HasWord(s, "and") && !HasWord(s, "or")
  {
    hide Spell, HasWord, Proper;
    AndOrWords();
    if HasWord(Spell(ps, last), "and") { SpellWords(ps, last, "and"); }
    if HasWord(Spell(ps, last), "or") { SpellWords(ps, last, "or"); }
    forall k | 0 <= k < |FORBIDDEN| ensures !HasWord(Spell(ps, last), FORBIDDEN[k]) {
      ReservedWords(k);
      if HasWord(Spell(ps, last), FORBIDDEN[k]) { SpellWords(ps, last, FORBIDDEN[k]); }
    }
  }

  lemma AbsentPattern(s: string, p: string)
    requires p != "" && p[0] !in s
    ensures !Contains(s, p)
  {
    forall i | 0 <= i <= |s| ensures !MatchesAt(s, i, p) {
      if MatchesAt(s, i, p) { MatchesChars(s, i, p); }
    }
  }

  lemma SpellSymbolless(ps: Phrase, last: string)
    requires Proper(ps, last)
    ensures var s := Spell(ps, last);
            && ';' !in s && '\'' !in s && '"' !in s
            && !Contains(s, "--") && !Contains(s, "/*") && !Contains(s, "*/")
  {
    hide Spell, Contains, Proper;
    SpellChars(ps, last);
    AbsentPattern(Spell(ps, last), "--");
    AbsentPattern(Spell(ps, last), "/*");
    AbsentPattern(Spell(ps, last), "*/");
  }

  /** A harmless phrase that selects, and whose references the scan takes for the table, is accepted. */
  lemma SpellAccepted(ps: Phrase, last: string, source: string)
    requires Proper(ps, last) && Harmless(ps, last)
    requires var s := Spell(ps, last);
             && "select " <= s && Strip(s) == s && FindAll(s, 0) != [] && !OtherTable(s, ExpectedTable(source))
    ensures Accepts(Spell(ps, last), source)
  {
    hide Spell, HasWord, Contains, FindAll, ForbiddenWord, Strip, Lower, Proper, Harmless, OtherTable, ExpectedTable;
    SpellLow(ps, last);
    SpellWordless(ps, last);
    SpellSymbolless(ps, last);
  }
}
