/** The graph store with the portal's own embedding and similarity. */
module Search {
  import opened Outcomes
  import opened GraphModel
  import opened GraphUpserts
  import opened GraphStore
  import opened Embeddings

  // ----- rounding -----

  /** The nearest integer, ties to the even one. */
  function Nearest(x: real): int {
    var f := x.Floor;
    if x - f as real < 0.5 || (x - f as real == 0.5 && f % 2 == 0) then f else f + 1
  }

  const MILLION: real := 1000000.0

  /** `round(x, 6)` on exact numbers. */
  function Rounded(x: real): real {
    Nearest(x * MILLION) as real / MILLION
  }

  lemma NearestMonotone(x: real, y: real)
    requires x <= y
    ensures Nearest(x) <= Nearest(y)
  {
  }

  lemma NearestInteger(n: int)
    ensures Nearest(n as real) == n
  {
  }

  lemma Quotient(m: int, n: int)
    requires m <= n
    ensures m as real / MILLION <= n as real / MILLION
  {
  }

  /** Rounding keeps the order, and the numbers -1, 0 and 1. */
  lemma RoundedMonotone(x: real, y: real)
    requires x <= y
    ensures Rounded(x) <= Rounded(y)
    ensures Rounded(-1.0) == -1.0 && Rounded(0.0) == 0.0 && Rounded(1.0) == 1.0
  {
    assert x * MILLION <= y * MILLION;
    NearestMonotone(x * MILLION, y * MILLION);
    Quotient(Nearest(x * MILLION), Nearest(y * MILLION));
    NearestInteger(-1000000);
    NearestInteger(0);
    NearestInteger(1000000);
    hide Nearest;
  }

  /** A rounded number is the nearest multiple of a millionth, of two equally near ones the even one. */
  lemma RoundedExactly(x: real) returns (n: int)
    ensures Rounded(x) * 1000000.0 == n as real
    ensures -0.5 <= x * 1000000.0 - n as real <= 0.5
    ensures x * 1000000.0 - n as real == 0.5 || x * 1000000.0 - n as real == -0.5 ==> n % 2 == 0
  {
    n := Nearest(x * MILLION);
  }

  // ----- the store -----

  function Embedder(slot: Slot, sign: Sign, dimension: nat, sqrt: real -> real): Embed
    requires dimension > 0
  {
    text => Embedding(text, slot, sign, dimension, sqrt)
  }

  function Similarity(sqrt: real -> real): (seq<real>, seq<real>) -> real {
    (left, right) => Rounded(Cosine(sqrt, left, right))
  }

  method OpenStore(slot: Slot, sign: Sign, dimension: nat, sqrt: real -> real) returns (store: InMemoryGraphStore)
    requires dimension > 0
    ensures fresh(store) && store.Valid() && store.View() == EMPTY && store.dimension == dimension
    ensures store.embed == Embedder(slot, sign, dimension, sqrt) && store.similarity == Similarity(sqrt)
  {
    store := new InMemoryGraphStore(dimension, Embedder(slot, sign, dimension, sqrt), Similarity(sqrt));
  }

  // ----- scores -----

  /** The score of a stored vector for a query text. */
  function Score(slot: Slot, sign: Sign, dimension: nat, sqrt: real -> real, query: string): seq<real> -> real
    requires dimension > 0
  {
    ScoreAgainst(Similarity(sqrt), Vector(Embedder(slot, sign, dimension, sqrt), query))
  }

  lemma ScoreIs(slot: Slot, sign: Sign, dimension: nat, sqrt: real -> real, query: string, v: seq<real>)
    requires dimension > 0
    ensures Score(slot, sign, dimension, sqrt, query)(v)
            == Rounded(Cosine(sqrt, Embedding(query, slot, sign, dimension, sqrt), v))
  {
    hide Rounded, Cosine, Embedding;
  }

  /** Every candidate of a search scores between -1 and 1. */
  lemma ScoresBounded(g: Graph, kind: Option<string>, slot: Slot, sign: Sign, dimension: nat, sqrt: real -> real,
                      query: string, row: Scored)
    requires dimension > 0 && IsSqrt(sqrt) && Consistent(g, dimension)
    requires row in Candidates(g, kind, Score(slot, sign, dimension, sqrt, query), |g.order|)
    ensures -1.0 <= row.score <= 1.0
  {
    hide Candidates, Rounded, Cosine, Embedding, IsSqrt, Score;
    CandidatesExact(g, kind, Score(slot, sign, dimension, sqrt, query), |g.order|, row);
    var v := g.embeddings[row.nodeId];
    ScoreIs(slot, sign, dimension, sqrt, query, v);
    var q := Embedding(query, slot, sign, dimension, sqrt);
    CosineBounded(sqrt, q, v);
    RoundedMonotone(-1.0, Cosine(sqrt, q, v));
    RoundedMonotone(Cosine(sqrt, q, v), 1.0);
  }

  /** What a node was embedded over, as a query, scores it 1, or 0 if the text embeds to nothing. */
  lemma OwnTextScores(slot: Slot, sign: Sign, dimension: nat, sqrt: real -> real, text: string)
    requires dimension > 0 && IsSqrt(sqrt)
    ensures var v := Embedding(text, slot, sign, dimension, sqrt);
            Score(slot, sign, dimension, sqrt, text)(v) == if IsZero(v) then 0.0 else 1.0
  {
    hide Rounded, Cosine, Embedding, IsSqrt, Score, IsZero;
    var v := Embedding(text, slot, sign, dimension, sqrt);
    ScoreIs(slot, sign, dimension, sqrt, text, v);
    CosineSelf(sqrt, v);
    RoundedMonotone(0.0, 1.0);
  }

  /**
   In every consistent store a search for the text a node was embedded over ranks
   the node with the highest score there is, unless that text embeds to nothing.
   */
  lemma FoundByOwnText(g: Graph, id: string, text: string, slot: Slot, sign: Sign, dimension: nat, sqrt: real -> real)
    requires dimension > 0 && IsSqrt(sqrt) && Consistent(g, dimension)
    requires id in g.nodes && g.embeddings[id] == Embedding(text, slot, sign, dimension, sqrt)
    ensures var rows := Candidates(g, None, Score(slot, sign, dimension, sqrt, text), |g.order|);
            var own := Scored(id, g.nodes[id].kind, g.nodes[id].nodeLabel, 1.0);
            !IsZero(Embedding(text, slot, sign, dimension, sqrt)) ==>
              own in rows && forall row :: row in rows ==> row.score <= own.score
  {
    hide Candidates, Rounded, Cosine, Embedding, IsSqrt, Score, IsZero, IsIdentifier;
    OwnTextScores(slot, sign, dimension, sqrt, text);
    var score := Score(slot, sign, dimension, sqrt, text);
    var own := Scored(id, g.nodes[id].kind, g.nodes[id].nodeLabel, 1.0);
    assert g.order[..|g.order|] == g.order;
    CandidatesExact(g, None, score, |g.order|, own);
    forall row | row in Candidates(g, None, score, |g.order|) ensures row.score <= 1.0 {
      ScoresBounded(g, None, slot, sign, dimension, sqrt, text, row);
    }
  }

  /** And right after a node upsert, that text is the one the upsert was given, or else its label or id. */
  lemma UpsertedNode(g: Graph, op: Op, slot: Slot, sign: Sign, dimension: nat, sqrt: real -> real)
    requires dimension > 0 && op.UpsertNode?
    ensures var g' := Step(Embedder(slot, sign, dimension, sqrt), g, op);
            && op.nodeId in g'.order && op.nodeId in g'.nodes && op.nodeId in g'.embeddings
            && var caption := if op.nodeLabel.Some? && op.nodeLabel.value != "" then op.nodeLabel.value else op.nodeId;
               var source := if op.text.Some? && op.text.value != "" then op.text.value else caption;
               && g'.nodes[op.nodeId] == GraphNode(op.nodeId, op.kind, caption, op.properties)
               && g'.embeddings[op.nodeId] == Embedding(source, slot, sign, dimension, sqrt)
  {
    hide Embedding, Step;
    NodeUpserted(Embedder(slot, sign, dimension, sqrt), g, op.nodeId, op.kind, op.nodeLabel, op.properties, op.text);
    assert op == Op.UpsertNode(op.nodeId, op.kind, op.nodeLabel, op.properties, op.text);
  }
}
