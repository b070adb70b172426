/**
 * Reciprocal Rank Fusion as the hybrid search's final SELECT does it. The
 * SELECT joins the two sub-rankings on the document id, scores each id by
 * adding 1/(k + rank) for each sub-ranking that holds it and 0 for one that
 * does not, and keeps the 5 best-scoring ids.
 *
 * Scores are exact reals; the two score parameters are `kSem` and `kKw`.
 */
module Fusion {
  import opened OrderBy
  import opened RankedList

  /** The query's `LIMIT 5`. */
  const ResultLimit: nat := 5

  /**
   * One row of `semantic_search FULL OUTER JOIN keyword_search`: both rows
   * when their ids match, or one row with the other side NULL.
   */
  datatype JoinRow =
    | Both(sem: Entry, kw: Entry)
    | SemanticOnly(sem: Entry)
    | KeywordOnly(kw: Entry)
  {
    /** The semantic_search columns of the row (NULL for KeywordOnly). */
    function Semantic(): Option<Entry> {
      if KeywordOnly? then None else Some(sem)
    }

    /** The keyword_search columns of the row (NULL for SemanticOnly). */
    function Keyword(): Option<Entry> {
      if SemanticOnly? then None else Some(kw)
    }

    /** `COALESCE(semantic_search.id, keyword_search.id)`. */
    function Id(): nat {
      if KeywordOnly? then kw.id else sem.id
    }
  }

  function JoinId(j: JoinRow): nat {
    j.Id()
  }

  /** One row of the query's result. */
  datatype Scored = Scored(id: nat, score: real)

  function ScoredId(s: Scored): nat {
    s.id
  }

  function ScoreOf(s: Scored): real {
    s.score
  }

  /** A semantic row joined with the keyword row of the same id, if any. */
  function Match(s: Entry, keyword: seq<Entry>): JoinRow {
    match Find(keyword, s.id)
    case Some(k) => Both(s, k)
    case None => SemanticOnly(s)
  }

  /** The join rows that come from semantic rows, matched or not. */
  function SemanticSide(semantic: seq<Entry>, keyword: seq<Entry>): seq<JoinRow> {
    seq(|semantic|, i requires 0 <= i < |semantic| => Match(semantic[i], keyword))
  }

  /** The keyword rows no semantic row matched, with a NULL semantic side. */
  function KeywordSide(keyword: seq<Entry>, semantic: seq<Entry>): (r: seq<JoinRow>)
    ensures forall j :: j in r ==> j.KeywordOnly? && j.kw in keyword && j.kw.id !in Ids(semantic)
    ensures KeySet(r, JoinId) == Ids(keyword) - Ids(semantic)
  {
    if keyword == [] then
      []
    else
      KeySetCons(keyword, EntryId);
      var rest := KeywordSide(keyword[1..], semantic);
      var head := if keyword[0].id in Ids(semantic) then [] else [KeywordOnly(keyword[0])];
      assert KeySet(head, JoinId) == {keyword[0].id} - Ids(semantic) by {
        if head != [] {
          assert head[0] in head;
        }
      }
      KeySetAppend(head, rest, JoinId);
      head + rest
  }

  /** `semantic_search FULL OUTER JOIN keyword_search ON id`: one row per id of either side. */
  function FullOuterJoin(semantic: seq<Entry>, keyword: seq<Entry>): (r: seq<JoinRow>)
    ensures KeySet(r, JoinId) == Ids(semantic) + Ids(keyword)
  {
    var left := SemanticSide(semantic, keyword);
    var right := KeywordSide(keyword, semantic);
    SemanticSideIds(semantic, keyword);
    KeySetAppend(left, right, JoinId);
    left + right
  }

  lemma SemanticSideIds(semantic: seq<Entry>, keyword: seq<Entry>)
    ensures KeySet(SemanticSide(semantic, keyword), JoinId) == Ids(semantic)
  {
    var left := SemanticSide(semantic, keyword);
    assert forall i :: 0 <= i < |left| ==> left[i].Id() == semantic[i].id;
    forall x | x in Ids(semantic) ensures x in KeySet(left, JoinId) {
      var e :| e in semantic && e.id == x;
      var i :| 0 <= i < |semantic| && semantic[i] == e;
      assert left[i] in left;
    }
    forall x | x in KeySet(left, JoinId) ensures x in Ids(semantic) {
      var j :| j in left && j.Id() == x;
      var i :| 0 <= i < |left| && left[i] == j;
      assert semantic[i] in semantic;
    }
  }

  /** With distinct ids on each side, each join row carries the one row of each side for its id. */
  lemma FullOuterJoinMatches(semantic: seq<Entry>, keyword: seq<Entry>)
    requires IdsDistinct(semantic) && IdsDistinct(keyword)
    ensures KeysDistinct(FullOuterJoin(semantic, keyword), JoinId)
    ensures forall j :: j in FullOuterJoin(semantic, keyword) ==>
      j.Semantic() == Find(semantic, j.Id()) && j.Keyword() == Find(keyword, j.Id())
  {
    FullOuterJoinDistinct(semantic, keyword);
    FullOuterJoinRows(semantic, keyword);
  }

  lemma FullOuterJoinDistinct(semantic: seq<Entry>, keyword: seq<Entry>)
    requires IdsDistinct(semantic) && IdsDistinct(keyword)
    ensures KeysDistinct(FullOuterJoin(semantic, keyword), JoinId)
  {
    var left := SemanticSide(semantic, keyword);
    var right := KeywordSide(keyword, semantic);
    assert FullOuterJoin(semantic, keyword) == left + right;
    IdsHas(semantic);
    KeywordSideDistinct(keyword, semantic);
    forall a, b | 0 <= a < b < |left + right| ensures JoinId((left + right)[a]) != JoinId((left + right)[b]) {
      if b < |left| {
        assert semantic[a].id != semantic[b].id;
      } else if a >= |left| {
        assert right[a - |left|].Id() != right[b - |left|].Id();
      } else {
        assert right[b - |left|] in right;
      }
    }
  }

  lemma FullOuterJoinRows(semantic: seq<Entry>, keyword: seq<Entry>)
    requires IdsDistinct(semantic) && IdsDistinct(keyword)
    ensures forall j :: j in FullOuterJoin(semantic, keyword) ==>
      j.Semantic() == Find(semantic, j.Id()) && j.Keyword() == Find(keyword, j.Id())
  {
    var left := SemanticSide(semantic, keyword);
    var right := KeywordSide(keyword, semantic);
    assert FullOuterJoin(semantic, keyword) == left + right;
    forall i | 0 <= i < |left|
      ensures left[i].Semantic() == Find(semantic, left[i].Id())
      ensures left[i].Keyword() == Find(keyword, left[i].Id())
    {
      assert semantic[i] in semantic;
      FindUnique(semantic, semantic[i]);
    }
    forall j | j in right
      ensures j.Semantic() == Find(semantic, j.Id()) && j.Keyword() == Find(keyword, j.Id())
    {
      FindUnique(keyword, j.kw);
    }
  }

  lemma {:induction false} KeywordSideDistinct(keyword: seq<Entry>, semantic: seq<Entry>)
    requires IdsDistinct(keyword)
    ensures KeysDistinct(KeywordSide(keyword, semantic), JoinId)
  {
    if keyword != [] {
      var rest := KeywordSide(keyword[1..], semantic);
      KeywordSideDistinct(keyword[1..], semantic);
      forall j | j in rest ensures j.Id() != keyword[0].id {
        var t :| 0 <= t < |keyword[1..]| && keyword[1..][t] == j.kw;
        assert keyword[t + 1] == j.kw;
      }
    }
  }

  /** `1.0 / (k + rank)`. */
  function Reciprocal(k: real, rank: nat): (r: real)
    requires k > 0.0
    ensures 0.0 < r <= 1.0 / k
  {
    1.0 / (k + rank as real)
  }

  /** `COALESCE(1.0 / (k + rank), 0.0)`: a NULL rank makes the term 0. */
  function CoalesceTerm(k: real, e: Option<Entry>): (r: real)
    requires k > 0.0
    ensures r == 0.0 <==> e.None?
    ensures e.Some? ==> r == Reciprocal(k, e.value.rank)
  {
    match e
    case Some(x) => Reciprocal(k, x.rank)
    case None => 0.0
  }

  /** The SELECT list applied to one join row. */
  function ScoreRow(kSem: real, kKw: real, j: JoinRow): (r: Scored)
    requires kSem > 0.0 && kKw > 0.0
    ensures r.id == j.Id()
    ensures 0.0 < r.score <= 1.0 / kSem + 1.0 / kKw
  {
    Scored(j.Id(), CoalesceTerm(kSem, j.Semantic()) + CoalesceTerm(kKw, j.Keyword()))
  }

  /** Every scored row of the join, before ORDER BY and LIMIT. */
  function Candidates(kSem: real, kKw: real, semantic: seq<Entry>, keyword: seq<Entry>): (r: seq<Scored>)
    requires kSem > 0.0 && kKw > 0.0
    ensures |r| == |FullOuterJoin(semantic, keyword)|
    ensures forall i :: 0 <= i < |r| ==> r[i].id == FullOuterJoin(semantic, keyword)[i].Id() && r[i].score > 0.0
  {
    var join := FullOuterJoin(semantic, keyword);
    seq(|join|, i requires 0 <= i < |join| => ScoreRow(kSem, kKw, join[i]))
  }

  /** The rank `l` gives document `d`. */
  function RankIn(l: seq<Entry>, d: nat): nat
    requires d in Ids(l)
  {
    Find(l, d).value.rank
  }

  /**
   * Reciprocal Rank Fusion, RRF(d) = sum over the rankers r that hold d of
   * 1 / (k + r(d)): a ranker without `d` adds nothing.
   */
  function Rrf(kSem: real, kKw: real, semantic: seq<Entry>, keyword: seq<Entry>, d: nat): (r: real)
    requires kSem > 0.0 && kKw > 0.0
    ensures r >= 0.0
    ensures r > 0.0 <==> d in Ids(semantic) + Ids(keyword)
  {
    (if d in Ids(semantic) then Reciprocal(kSem, RankIn(semantic, d)) else 0.0) +
    (if d in Ids(keyword) then Reciprocal(kKw, RankIn(keyword, d)) else 0.0)
  }

  /** `out` is an admissible result of the query (any order among equal scores). */
  ghost predicate IsFusedResult(out: seq<Scored>, kSem: real, kKw: real, semantic: seq<Entry>, keyword: seq<Entry>)
    requires kSem > 0.0 && kKw > 0.0
    ensures IsFusedResult(out, kSem, kKw, semantic, keyword) ==> |out| <= ResultLimit
  {
    IsOrderByLimit(out, Candidates(kSem, kKw, semantic, keyword), ScoreOf, ResultLimit)
  }

  /** One admissible result of the query: equal scores keep join order. */
  function Fuse(kSem: real, kKw: real, semantic: seq<Entry>, keyword: seq<Entry>): (out: seq<Scored>)
    requires kSem > 0.0 && kKw > 0.0
    ensures IsFusedResult(out, kSem, kKw, semantic, keyword)
  {
    OrderByLimit(Candidates(kSem, kKw, semantic, keyword), ScoreOf, ResultLimit)
  }

  /** The candidates carry the join's ids, position by position. */
  lemma CandidateIdsAreJoinIds(kSem: real, kKw: real, semantic: seq<Entry>, keyword: seq<Entry>)
    requires kSem > 0.0 && kKw > 0.0
    ensures KeySet(Candidates(kSem, kKw, semantic, keyword), ScoredId) == KeySet(FullOuterJoin(semantic, keyword), JoinId)
  {
    var join := FullOuterJoin(semantic, keyword);
    var cs := Candidates(kSem, kKw, semantic, keyword);
    assert forall i :: 0 <= i < |cs| ==> cs[i].id == join[i].Id();
    forall x | x in KeySet(join, JoinId) ensures x in KeySet(cs, ScoredId) {
      var j :| j in join && j.Id() == x;
      var i :| 0 <= i < |join| && join[i] == j;
      assert cs[i] in cs;
    }
    forall x | x in KeySet(cs, ScoredId) ensures x in KeySet(join, JoinId) {
      var c :| c in cs && c.id == x;
      var i :| 0 <= i < |cs| && cs[i] == c;
      assert join[i] in join;
    }
  }

  /** There is one candidate per id of either sub-ranking. */
  lemma CandidateIds(kSem: real, kKw: real, semantic: seq<Entry>, keyword: seq<Entry>)
    requires kSem > 0.0 && kKw > 0.0
    requires IdsDistinct(semantic) && IdsDistinct(keyword)
    ensures KeySet(Candidates(kSem, kKw, semantic, keyword), ScoredId) == Ids(semantic) + Ids(keyword)
    ensures KeysDistinct(Candidates(kSem, kKw, semantic, keyword), ScoredId)
    ensures |Candidates(kSem, kKw, semantic, keyword)| == |Ids(semantic) + Ids(keyword)|
  {
    var join := FullOuterJoin(semantic, keyword);
    var cs := Candidates(kSem, kKw, semantic, keyword);
    FullOuterJoinMatches(semantic, keyword);
    CandidateIdsAreJoinIds(kSem, kKw, semantic, keyword);
    assert forall i :: 0 <= i < |cs| ==> cs[i].id == join[i].Id();
    assert KeysDistinct(cs, ScoredId);
    KeySetSize(cs, ScoredId);
  }

  /** The join-and-COALESCE computation is RRF: each candidate scores RRF of its id. */
  lemma CandidatesAreRrf(kSem: real, kKw: real, semantic: seq<Entry>, keyword: seq<Entry>)
    requires kSem > 0.0 && kKw > 0.0
    requires IdsDistinct(semantic) && IdsDistinct(keyword)
    ensures forall c :: c in Candidates(kSem, kKw, semantic, keyword) ==> c.score == Rrf(kSem, kKw, semantic, keyword, c.id)
  {
    var join := FullOuterJoin(semantic, keyword);
    var cs := Candidates(kSem, kKw, semantic, keyword);
    FullOuterJoinMatches(semantic, keyword);
    forall c | c in cs ensures c.score == Rrf(kSem, kKw, semantic, keyword, c.id) {
      var i :| 0 <= i < |cs| && cs[i] == c;
      var j := join[i];
      assert j in join;
      assert c == ScoreRow(kSem, kKw, j);
      assert j.Semantic() == Find(semantic, j.Id()) && j.Keyword() == Find(keyword, j.Id());
    }
  }

  /**
   * Every admissible result holds only ids of the two sub-rankings, each at
   * most once, each with its RRF score; an id in neither is never returned.
   */
  lemma FusedRowsAreRrf(out: seq<Scored>, kSem: real, kKw: real, semantic: seq<Entry>, keyword: seq<Entry>)
    requires kSem > 0.0 && kKw > 0.0
    requires IdsDistinct(semantic) && IdsDistinct(keyword)
    requires IsFusedResult(out, kSem, kKw, semantic, keyword)
    ensures KeysDistinct(out, ScoredId)
    ensures forall o :: o in out ==> o.id in Ids(semantic) + Ids(keyword)
    ensures forall o :: o in out ==> o.score == Rrf(kSem, kKw, semantic, keyword, o.id)
  {
    var cs := Candidates(kSem, kKw, semantic, keyword);
    CandidateIds(kSem, kKw, semantic, keyword);
    CandidatesAreRrf(kSem, kKw, semantic, keyword);
    OrderByLimitProperties(out, cs, ScoreOf, ResultLimit, ScoredId);
    forall o | o in out ensures o.id in Ids(semantic) + Ids(keyword) {
      assert o in cs;
    }
  }

  /**
   * Every admissible result is ordered by non-increasing score and has
   * min(5, number of distinct ids in either sub-ranking) rows.
   */
  lemma FusedOrderAndSize(out: seq<Scored>, kSem: real, kKw: real, semantic: seq<Entry>, keyword: seq<Entry>)
    requires kSem > 0.0 && kKw > 0.0
    requires IdsDistinct(semantic) && IdsDistinct(keyword)
    requires IsFusedResult(out, kSem, kKw, semantic, keyword)
    ensures forall i, j :: 0 <= i < j < |out| ==> out[i].score >= out[j].score
    ensures |out| == Min(ResultLimit, |Ids(semantic) + Ids(keyword)|)
  {
    var cs := Candidates(kSem, kKw, semantic, keyword);
    CandidateIds(kSem, kKw, semantic, keyword);
    OrderByLimitProperties(out, cs, ScoreOf, ResultLimit, ScoredId);
    assert forall i, j :: 0 <= i < j < |out| ==> ScoreOf(out[i]) >= ScoreOf(out[j]);
  }

  /** The LIMIT keeps the top scorers: no id it drops scores strictly above a returned row. */
  lemma FusedKeepsTop(out: seq<Scored>, kSem: real, kKw: real, semantic: seq<Entry>, keyword: seq<Entry>)
    requires kSem > 0.0 && kKw > 0.0
    requires IdsDistinct(semantic) && IdsDistinct(keyword)
    requires IsFusedResult(out, kSem, kKw, semantic, keyword)
    ensures forall d, o :: d in Ids(semantic) + Ids(keyword) && d !in KeySet(out, ScoredId) && o in out ==>
      Rrf(kSem, kKw, semantic, keyword, d) <= o.score
  {
    var cs := Candidates(kSem, kKw, semantic, keyword);
    CandidateIds(kSem, kKw, semantic, keyword);
    CandidatesAreRrf(kSem, kKw, semantic, keyword);
    OrderByLimitProperties(out, cs, ScoreOf, ResultLimit, ScoredId);
    forall d, o | d in Ids(semantic) + Ids(keyword) && d !in KeySet(out, ScoredId) && o in out
      ensures Rrf(kSem, kKw, semantic, keyword, d) <= o.score
    {
      assert d in KeySet(cs, ScoredId);
      var c :| c in cs && c.id == d;
      assert c !in out;
      assert ScoreOf(c) <= ScoreOf(o);
    }
  }

  /** A term is positive and strictly decreasing in the rank. */
  lemma ReciprocalDecreasing(k: real, r1: nat, r2: nat)
    requires k > 0.0 && r1 < r2
    ensures 0.0 < Reciprocal(k, r2) < Reciprocal(k, r1)
  {
    var a, b := k + r1 as real, k + r2 as real;
    assert 0.0 < a < b;
    assert (1.0 / b) * b == 1.0 && (1.0 / a) * a == 1.0;
    assert 1.0 / b < 1.0 / a by {
      assert (1.0 / b) * a < (1.0 / b) * b by {
        assert 1.0 / b > 0.0;
      }
      assert (1.0 / b) * a < (1.0 / a) * a;
    }
  }

  /** A term for a rank of at least 1 lies in (0, 1/(k+1)]. */
  lemma ReciprocalBounds(k: real, r: nat)
    requires k > 0.0 && r >= 1
    ensures 0.0 < Reciprocal(k, r) <= Reciprocal(k, 1)
  {
    if r > 1 {
      ReciprocalDecreasing(k, 1, r);
    } else {
      ReciprocalDecreasing(k, r, r + 1);
    }
  }

  /**
   * With ranks of at least 1, the fused score of any id of either
   * sub-ranking is positive and at most 1/(kSem+1) + 1/(kKw+1), and at
   * least the term of each sub-ranking that holds it.
   */
  lemma RrfBounds(kSem: real, kKw: real, semantic: seq<Entry>, keyword: seq<Entry>, d: nat)
    requires kSem > 0.0 && kKw > 0.0
    requires WellFormed(semantic, |semantic|) && WellFormed(keyword, |keyword|)
    requires d in Ids(semantic) + Ids(keyword)
    ensures 0.0 < Rrf(kSem, kKw, semantic, keyword, d) <= Reciprocal(kSem, 1) + Reciprocal(kKw, 1)
    ensures d in Ids(semantic) ==> Rrf(kSem, kKw, semantic, keyword, d) >= Reciprocal(kSem, RankIn(semantic, d))
    ensures d in Ids(keyword) ==> Rrf(kSem, kKw, semantic, keyword, d) >= Reciprocal(kKw, RankIn(keyword, d))
  {
    ReciprocalBounds(kSem, 1);
    ReciprocalBounds(kKw, 1);
    if d in Ids(semantic) {
      var e := Find(semantic, d).value;
      var i :| 0 <= i < |semantic| && semantic[i] == e;
      ReciprocalBounds(kSem, e.rank);
    }
    if d in Ids(keyword) {
      var e := Find(keyword, d).value;
      var i :| 0 <= i < |keyword| && keyword[i] == e;
      ReciprocalBounds(kKw, e.rank);
    }
  }

  /**
   * For fixed k and membership, an id ranked no worse than another in every
   * sub-ranking that holds them never scores lower.
   */
  lemma RrfMonotone(kSem: real, kKw: real, semantic: seq<Entry>, keyword: seq<Entry>, d1: nat, d2: nat)
    requires kSem > 0.0 && kKw > 0.0
    requires (d1 in Ids(semantic) <==> d2 in Ids(semantic)) && (d1 in Ids(keyword) <==> d2 in Ids(keyword))
    requires d1 in Ids(semantic) ==> RankIn(semantic, d1) <= RankIn(semantic, d2)
    requires d1 in Ids(keyword) ==> RankIn(keyword, d1) <= RankIn(keyword, d2)
    ensures Rrf(kSem, kKw, semantic, keyword, d1) >= Rrf(kSem, kKw, semantic, keyword, d2)
  {
    if d1 in Ids(semantic) && RankIn(semantic, d1) < RankIn(semantic, d2) {
      ReciprocalDecreasing(kSem, RankIn(semantic, d1), RankIn(semantic, d2));
    }
    if d1 in Ids(keyword) && RankIn(keyword, d1) < RankIn(keyword, d2) {
      ReciprocalDecreasing(kKw, RankIn(keyword, d1), RankIn(keyword, d2));
    }
  }

  /**
   * Moving a document to a strictly better rank in the semantic sub-ranking,
   * all else equal, strictly raises its fused score.
   */
  lemma BetterSemanticRankRaisesScore(kSem: real, kKw: real, semantic: seq<Entry>, keyword: seq<Entry>, i: nat, r: nat)
    requires kSem > 0.0 && kKw > 0.0
    requires IdsDistinct(semantic)
    requires i < |semantic| && r < semantic[i].rank
    ensures Rrf(kSem, kKw, semantic[i := Entry(semantic[i].id, r)], keyword, semantic[i].id) >
            Rrf(kSem, kKw, semantic, keyword, semantic[i].id)
  {
    var d := semantic[i].id;
    var better := semantic[i := Entry(d, r)];
    assert forall t :: 0 <= t < |better| ==> better[t].id == semantic[t].id;
    assert IdsDistinct(better);
    assert better[i] in better && semantic[i] in semantic;
    FindUnique(semantic, semantic[i]);
    FindUnique(better, better[i]);
    ReciprocalDecreasing(kSem, r, semantic[i].rank);
  }

  /** The keyword side is treated the same way: a strictly better keyword rank strictly raises the score. */
  lemma BetterKeywordRankRaisesScore(kSem: real, kKw: real, semantic: seq<Entry>, keyword: seq<Entry>, i: nat, r: nat)
    requires kSem > 0.0 && kKw > 0.0
    requires IdsDistinct(keyword)
    requires i < |keyword| && r < keyword[i].rank
    ensures Rrf(kSem, kKw, semantic, keyword[i := Entry(keyword[i].id, r)], keyword[i].id) >
            Rrf(kSem, kKw, semantic, keyword, keyword[i].id)
  {
    var d := keyword[i].id;
    var better := keyword[i := Entry(d, r)];
    BetterSemanticRankRaisesScore(kKw, kSem, keyword, semantic, i, r);
    assert Rrf(kSem, kKw, semantic, better, d) == Rrf(kKw, kSem, better, semantic, d);
    assert Rrf(kSem, kKw, semantic, keyword, d) == Rrf(kKw, kSem, keyword, semantic, d);
  }

  /**
   * The query's result is fixed up to equal scores: any two admissible
   * results have the same length and the same score at every position, so
   * they differ only in the order of equally scored ids and in which of
   * them the LIMIT keeps.
   */
  lemma FusedScoresDetermined(out1: seq<Scored>, out2: seq<Scored>, kSem: real, kKw: real,
                              semantic: seq<Entry>, keyword: seq<Entry>)
    requires kSem > 0.0 && kKw > 0.0
    requires IsFusedResult(out1, kSem, kKw, semantic, keyword) && IsFusedResult(out2, kSem, kKw, semantic, keyword)
    ensures |out1| == |out2|
    ensures forall i :: 0 <= i < |out1| ==> out1[i].score == out2[i].score
  {
    OrderByLimitKeysDetermined(out1, out2, Candidates(kSem, kKw, semantic, keyword), ScoreOf, ResultLimit);
  }
}
