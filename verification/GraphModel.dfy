/** The entities of the property graph and the two pure text rules on them. */
module GraphModel {
  import opened Outcomes
  import opened PyText

  /** JSON values, the type of node and edge properties. */
  datatype Value = Null | Bool(b: bool) | Num(n: real) | Str(s: string) | List(items: seq<Value>)

  datatype GraphNode = GraphNode(nodeId: string, kind: string, nodeLabel: string, properties: map<string, Value>)

  datatype EdgeKey = EdgeKey(edgeType: string, sourceId: string, targetId: string)

  datatype Edge = Edge(key: EdgeKey, properties: map<string, Value>)

  datatype Concept = Concept(
    concept: string,
    definition: string,
    aliases: seq<string>,
    broader: Option<string>,
    narrower: seq<string>,
    related: seq<string>,
    multilingual: seq<string>)

  datatype LabelError = InvalidType | BadCharacter

  /** The canonical spelling under which an alias is indexed. */
  function Normalize(value: string): string {
    Lower(ReplaceChar(Strip(value), '_', ' '))
  }

  /** Equal up to letter case, or both of them an underscore or a space. */
  ghost predicate Alike(x: char, y: char) {
    || x == y || ((x == '_' || x == ' ') && (y == '_' || y == ' '))
    || ('A' <= x <= 'Z' && y as int == x as int + 32) || ('A' <= y <= 'Z' && x as int == y as int + 32)
  }

  /** Two names are indexed alike exactly when, but for their margins, they agree in this way throughout. */
  lemma NormalizeAlike(a: string, b: string)
    ensures Normalize(a) == Normalize(b) <==>
            |Strip(a)| == |Strip(b)| && forall i :: 0 <= i < |Strip(a)| ==> Alike(Strip(a)[i], Strip(b)[i])
  {
    hide Strip;
    var s, t, m, n := Strip(a), Strip(b), Normalize(a), Normalize(b);
    forall i | 0 <= i < |s| && i < |t| ensures m[i] == n[i] <==> Alike(s[i], t[i]) {
      assert m[i] == LowerChar(if s[i] == '_' then ' ' else s[i]);
      assert n[i] == LowerChar(if t[i] == '_' then ' ' else t[i]);
    }
  }

  predicate IsIdentifier(s: string) {
    && s != ""
    && (IsLetter(s[0]) || s[0] == '_')
    && forall i :: 0 <= i < |s| ==> IsWord(s[i])
  }

  predicate InLabelAlphabet(c: char) {
    'A' <= c <= 'Z' || IsDigit(c) || c == '_'
  }

  /** What the pattern accepts: its `$` also matches just before a final newline. */
  predicate MatchesIdentifierPattern(s: string) {
    IsIdentifier(s) || (s != "" && s[|s| - 1] == '\n' && IsIdentifier(s[..|s| - 1]))
  }

  /** The relationship label, or which of the two exceptions is raised. */
  function RelationshipLabel(edgeType: string): (r: Result<string, LabelError>) {
    if !MatchesIdentifierPattern(edgeType) then Err(InvalidType)
    else
      var upper := seq(|edgeType|, i requires 0 <= i < |edgeType| => UpperChar(edgeType[i]));
      if forall i :: 0 <= i < |upper| ==> InLabelAlphabet(upper[i]) then Ok(upper) else Err(BadCharacter)
  }

  /** A label is produced for identifiers and for nothing else, whatever the text. */
  lemma LabelExactlyForIdentifiers(edgeType: string)
    ensures RelationshipLabel(edgeType).Ok? <==> IsIdentifier(edgeType)
    ensures RelationshipLabel(edgeType) == Err(BadCharacter)
            <==> exists t :: IsIdentifier(t) && edgeType == t + "\n"
    ensures IsIdentifier(edgeType) ==>
              var lbl := RelationshipLabel(edgeType).value;
              && |lbl| == |edgeType| && IsIdentifier(lbl) && Lower(lbl) == Lower(edgeType)
              && forall i :: 0 <= i < |lbl| ==> !('a' <= lbl[i] <= 'z')
  {
    var upper := seq(|edgeType|, i requires 0 <= i < |edgeType| => UpperChar(edgeType[i]));
    if IsIdentifier(edgeType) {
      forall i | 0 <= i < |upper| ensures InLabelAlphabet(upper[i]) && IsWord(upper[i]) {
        assert IsWord(edgeType[i]);
      }
      assert RelationshipLabel(edgeType) == Ok(upper);
      assert Lower(upper) == Lower(edgeType);
      assert IsWord(edgeType[|edgeType| - 1]);
    } else if MatchesIdentifierPattern(edgeType) {
      var t := edgeType[..|edgeType| - 1];
      assert edgeType == t + "\n";
      assert !InLabelAlphabet(upper[|upper| - 1]);
    } else {
      forall t | edgeType == t + "\n" ensures !IsIdentifier(t) {
        assert edgeType[..|edgeType| - 1] == t;
      }
    }
  }
}
