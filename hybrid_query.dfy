/**
 * The hybrid search query as the example program runs it: both ranking
 * sub-queries with `LIMIT 20`, then Reciprocal Rank Fusion with the one
 * constant `k = 60` bound to both score parameters.
 */
module HybridQuery {
  import opened OrderBy
  import opened RankedList
  import opened WindowRank
  import opened Fusion

  /** `final double k = 60`. */
  const K: real := 60.0

  /** Each ranking sub-query's `LIMIT 20`. */
  const ListLimit: nat := 20

  /**
   * One admissible result of the whole query. `semanticRows` are the
   * documents keyed by cosine distance to the query embedding;
   * `keywordRows` are the documents that match the full-text query, keyed
   * by their negated `ts_rank_cd`.
   */
  function HybridSearch(semanticRows: seq<Row>, keywordRows: seq<Row>): (out: seq<Scored>)
    ensures IsFusedResult(out, K, K, SubRanking(semanticRows, ListLimit), SubRanking(keywordRows, ListLimit))
  {
    Fuse(K, K, SubRanking(semanticRows, ListLimit), SubRanking(keywordRows, ListLimit))
  }

  /**
   * What the whole query guarantees for any admissible sub-rankings and any
   * admissible tie order: each sub-ranking has at most 20 rows; the result
   * has min(5, |ids of either sub-ranking|) rows with distinct document ids,
   * ordered by non-increasing score; each score is RRF with the same k = 60
   * on both terms, positive and at most 2/61.
   */
  lemma HybridSearchProperties(semanticRows: seq<Row>, keywordRows: seq<Row>,
                               semantic: seq<Entry>, keyword: seq<Entry>, out: seq<Scored>)
    requires KeysDistinct(semanticRows, RowId) && KeysDistinct(keywordRows, RowId)
    requires IsSubRanking(semantic, semanticRows, ListLimit) && IsSubRanking(keyword, keywordRows, ListLimit)
    requires IsFusedResult(out, K, K, semantic, keyword)
    ensures |semantic| <= ListLimit && |keyword| <= ListLimit
    ensures |out| == Min(ResultLimit, |Ids(semantic) + Ids(keyword)|)
    ensures KeysDistinct(out, ScoredId)
    ensures forall i, j :: 0 <= i < j < |out| ==> out[i].score >= out[j].score
    ensures forall o :: o in out ==> o.id in KeySet(semanticRows, RowId) + KeySet(keywordRows, RowId)
    ensures forall o :: o in out ==> o.score == Rrf(K, K, semantic, keyword, o.id)
    ensures forall o :: o in out ==> 0.0 < o.score <= 2.0 / 61.0
  {
    SubRankingWellFormed(semantic, semanticRows, ListLimit);
    SubRankingWellFormed(keyword, keywordRows, ListLimit);
    FusedRowsAreRrf(out, K, K, semantic, keyword);
    FusedOrderAndSize(out, K, K, semantic, keyword);
    forall o | o in out ensures 0.0 < o.score <= 2.0 / 61.0 {
      RrfBounds(K, K, semantic, keyword, o.id);
    }
  }

  /**
   * Both terms use the same k, so the two sub-rankings weigh alike: swapping
   * them leaves every fused score unchanged.
   */
  lemma SameKWeighsRankingsAlike(semantic: seq<Entry>, keyword: seq<Entry>, d: nat)
    ensures Rrf(K, K, semantic, keyword, d) == Rrf(K, K, keyword, semantic, d)
  {
  }

  /** Two empty sub-rankings fuse to an empty result, not an error. */
  lemma EmptyRankingsFuseToNothing(out: seq<Scored>)
    requires IsFusedResult(out, K, K, [], [])
    ensures out == []
  {
    FusedOrderAndSize(out, K, K, [], []);
    assert Ids([]) == {};
  }

  function ExampleSemantic(): seq<Entry> {
    [Entry(1, 1), Entry(2, 2), Entry(3, 3)]
  }

  function ExampleKeyword(): seq<Entry> {
    [Entry(3, 1), Entry(1, 2)]
  }

  lemma ExampleIds()
    ensures IdsDistinct(ExampleSemantic()) && IdsDistinct(ExampleKeyword())
    ensures Ids(ExampleSemantic()) + Ids(ExampleKeyword()) == {1, 2, 3}
    ensures |Ids(ExampleSemantic()) + Ids(ExampleKeyword())| == 3
    ensures forall d :: d in Ids(ExampleSemantic()) + Ids(ExampleKeyword()) ==> d == 1 || d == 2 || d == 3
  {
    var semantic, keyword := ExampleSemantic(), ExampleKeyword();
    assert forall i :: 0 <= i < |semantic| ==> semantic[i].id == i + 1;
    assert keyword[0].id != keyword[1].id;
    forall d | d in Ids(semantic) ensures d in {1, 2, 3} {
      var e :| e in semantic && EntryId(e) == d;
      var i :| 0 <= i < |semantic| && semantic[i] == e;
    }
    forall d | d in Ids(keyword) ensures d in {1, 3} {
      var e :| e in keyword && EntryId(e) == d;
      var i :| 0 <= i < |keyword| && keyword[i] == e;
    }
    forall d | d in {1, 2, 3} ensures d in Ids(semantic) {
      assert semantic[d - 1] in semantic;
    }
    assert |{1, 2, 3}| == 3;
  }

  /** The scores of the example: 1/61 + 1/62, 1/62 and 1/63 + 1/61. */
  lemma ExampleScores()
    ensures Rrf(K, K, ExampleSemantic(), ExampleKeyword(), 1) == 1.0 / 61.0 + 1.0 / 62.0
    ensures Rrf(K, K, ExampleSemantic(), ExampleKeyword(), 2) == 1.0 / 62.0
    ensures Rrf(K, K, ExampleSemantic(), ExampleKeyword(), 3) == 1.0 / 63.0 + 1.0 / 61.0
  {
    var semantic, keyword := ExampleSemantic(), ExampleKeyword();
    assert Find(semantic, 1) == Some(Entry(1, 1));
    assert Find(semantic, 2) == Some(Entry(2, 2));
    assert Find(semantic, 3) == Some(Entry(3, 3));
    assert Find(keyword, 1) == Some(Entry(1, 2));
    assert Find(keyword, 2) == None;
    assert Find(keyword, 3) == Some(Entry(3, 1));
  }

  /**
   * Semantic ranking 1, 2, 3 and keyword ranking 3, 1 with k = 60: document
   * 1 scores 1/61 + 1/62, document 3 scores 1/63 + 1/61 and document 2
   * scores 1/62, and that is the only admissible result.
   */
  lemma WorkedExample(out: seq<Scored>)
    requires IsFusedResult(out, K, K, ExampleSemantic(), ExampleKeyword())
    ensures out == [Scored(1, 1.0 / 61.0 + 1.0 / 62.0), Scored(3, 1.0 / 63.0 + 1.0 / 61.0), Scored(2, 1.0 / 62.0)]
  {
    ExampleIds();
    ExampleScores();
    ThreeDocumentResult(out, K, K, ExampleSemantic(), ExampleKeyword(),
                        1.0 / 61.0 + 1.0 / 62.0, 1.0 / 63.0 + 1.0 / 61.0, 1.0 / 62.0);
  }

  /** A fused result over the three documents 1, 2, 3 whose scores are distinct is fixed by its scores. */
  lemma ThreeDocumentResult(out: seq<Scored>, kSem: real, kKw: real, semantic: seq<Entry>, keyword: seq<Entry>,
                            a: real, b: real, c: real)
    requires kSem > 0.0 && kKw > 0.0
    requires IdsDistinct(semantic) && IdsDistinct(keyword)
    requires |Ids(semantic) + Ids(keyword)| == 3
    requires forall d :: d in Ids(semantic) + Ids(keyword) ==> d == 1 || d == 2 || d == 3
    requires Rrf(kSem, kKw, semantic, keyword, 1) == a
    requires Rrf(kSem, kKw, semantic, keyword, 3) == b
    requires Rrf(kSem, kKw, semantic, keyword, 2) == c
    requires a > b > c
    requires IsFusedResult(out, kSem, kKw, semantic, keyword)
    ensures out == [Scored(1, a), Scored(3, b), Scored(2, c)]
  {
    var ids := Ids(semantic) + Ids(keyword);
    FusedOrderAndSize(out, kSem, kKw, semantic, keyword);
    FusedRowsAreRrf(out, kSem, kKw, semantic, keyword);
    forall o | o in out
      ensures (o.id == 1 && o.score == a) || (o.id == 3 && o.score == b) || (o.id == 2 && o.score == c)
    {
      assert o.id in ids && o.score == Rrf(kSem, kKw, semantic, keyword, o.id);
    }
    ThreeDistinctScoresOrdered(out, a, b, c);
  }

  lemma ThreeDistinctScoresOrdered(out: seq<Scored>, a: real, b: real, c: real)
    requires |out| == 3 && KeysDistinct(out, ScoredId)
    requires forall i, j :: 0 <= i < j < |out| ==> out[i].score >= out[j].score
    requires forall o :: o in out ==> (o.id == 1 && o.score == a) || (o.id == 3 && o.score == b) || (o.id == 2 && o.score == c)
    requires a > b > c
    ensures out == [Scored(1, a), Scored(3, b), Scored(2, c)]
  {
    assert out[0] in out && out[1] in out && out[2] in out;
  }

  /**
   * `ORDER BY score DESC` fixes no order among equal scores: a document
   * only the semantic sub-ranking holds at rank 1 and one only the keyword
   * sub-ranking holds at rank 1 may come back in either order.
   */
  lemma TiesMayComeBackInEitherOrder()
    ensures IsFusedResult([Scored(1, 1.0 / 61.0), Scored(2, 1.0 / 61.0)], K, K, [Entry(1, 1)], [Entry(2, 1)])
    ensures IsFusedResult([Scored(2, 1.0 / 61.0), Scored(1, 1.0 / 61.0)], K, K, [Entry(1, 1)], [Entry(2, 1)])
  {
    TieCandidates();
    EqualScoresEitherOrder(Candidates(K, K, [Entry(1, 1)], [Entry(2, 1)]), Scored(1, 1.0 / 61.0), Scored(2, 1.0 / 61.0));
  }

  /** The join of the tie example: one semantic-only row and one keyword-only row, each at rank 1. */
  lemma TieCandidates()
    ensures Candidates(K, K, [Entry(1, 1)], [Entry(2, 1)]) == [Scored(1, 1.0 / 61.0), Scored(2, 1.0 / 61.0)]
  {
    var semantic, keyword := [Entry(1, 1)], [Entry(2, 1)];
    assert Find(keyword, 1) == None;
    assert SemanticSide(semantic, keyword) == [SemanticOnly(Entry(1, 1))];
    assert 2 !in Ids(semantic);
    assert KeywordSide(keyword[1..], semantic) == [];
    assert KeywordSide(keyword, semantic) == [KeywordOnly(Entry(2, 1))];
  }

  /** Two candidates with equal scores are admissible in either order. */
  lemma EqualScoresEitherOrder(cs: seq<Scored>, x: Scored, y: Scored)
    requires cs == [x, y] && x.score == y.score
    ensures IsOrderByLimit([x, y], cs, ScoreOf, ResultLimit)
    ensures IsOrderByLimit([y, x], cs, ScoreOf, ResultLimit)
  {
    var swapped := [y, x];
    assert multiset(swapped) == multiset(cs);
    assert SortedDesc(swapped, ScoreOf) && SortedDesc(cs, ScoreOf);
    assert swapped == swapped[..Min(ResultLimit, |swapped|)];
    assert cs == cs[..Min(ResultLimit, |cs|)];
  }
}
