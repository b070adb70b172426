/**
 * The two ranking sub-queries of the hybrid search,
 *
 *   SELECT id, RANK() OVER (ORDER BY key) FROM documents ... ORDER BY key LIMIT 20
 *
 * over an abstract sort key. For `semantic_search` the key is the cosine
 * distance to the query embedding; for `keyword_search` it is the text
 * relevance `ts_rank_cd` negated (that sub-query sorts by relevance DESC),
 * over the rows its full-text match filter let through. How the keys are
 * computed is PostgreSQL's and pgvector's and is not modelled: the rows
 * arrive with their keys.
 */
module WindowRank {
  import opened OrderBy
  import opened RankedList

  /** A document row as a ranking sub-query sees it: smaller `key` sorts first. */
  datatype Row = Row(id: nat, key: real)

  function RowId(r: Row): nat {
    r.id
  }

  /** Sorting by non-increasing `Priority` is sorting by ascending `key`. */
  function Priority(r: Row): real {
    -r.key
  }

  /** The ids of the rows that sort strictly before `key`. */
  function Better(rows: seq<Row>, key: real): set<nat> {
    set r | r in rows && r.key < key :: r.id
  }

  /**
   * `RANK() OVER (ORDER BY key)`: one more than the number of rows that sort
   * strictly before, so peers share a rank and a gap follows them. The window
   * sees every row of the sub-query, before its LIMIT applies.
   */
  function RankOf(rows: seq<Row>, key: real): (r: nat)
    ensures r >= 1
    ensures r == 1 <==> forall x :: x in rows ==> x.key >= key
  {
    NoneBetter(rows, key);
    1 + |Better(rows, key)|
  }

  lemma NoneBetter(rows: seq<Row>, key: real)
    ensures Better(rows, key) == {} <==> forall x :: x in rows ==> x.key >= key
  {
    if x :| x in rows && x.key < key {
      assert x.id in Better(rows, key);
    }
  }

  /** The sub-query's output: the rows its ORDER BY ... LIMIT kept, each with its rank. */
  function Annotate(rows: seq<Row>, kept: seq<Row>): seq<Entry> {
    seq(|kept|, i requires 0 <= i < |kept| => Entry(kept[i].id, RankOf(rows, kept[i].key)))
  }

  /** `out` is an admissible result of the sub-query over `rows`. */
  ghost predicate IsSubRanking(out: seq<Entry>, rows: seq<Row>, limit: nat)
    ensures IsSubRanking(out, rows, limit) ==> |out| == Min(limit, |rows|)
  {
    exists kept: seq<Row> :: IsOrderByLimit(kept, rows, Priority, limit) && out == Annotate(rows, kept)
  }

  /** One admissible result of the sub-query: ties kept in input order. */
  function SubRanking(rows: seq<Row>, limit: nat): (out: seq<Entry>)
    ensures IsSubRanking(out, rows, limit)
  {
    var kept := OrderByLimit(rows, Priority, limit);
    assert IsOrderByLimit(kept, rows, Priority, limit);
    Annotate(rows, kept)
  }

  lemma SubsetSize(a: set<nat>, b: set<nat>)
    requires a <= b
    ensures |a| <= |b|
    ensures a < b ==> |a| < |b|
  {
    assert b == a + (b - a);
    assert a < b ==> b - a != {};
  }

  /** A row with a key no later than another's never gets a larger rank. */
  lemma RankOfMonotone(rows: seq<Row>, a: real, b: real)
    requires a <= b
    ensures RankOf(rows, a) <= RankOf(rows, b)
  {
    SubsetSize(Better(rows, a), Better(rows, b));
  }

  /** A row that sorts strictly after a row of key `a` gets a strictly larger rank. */
  lemma RankOfGap(rows: seq<Row>, r: Row, b: real)
    requires r in rows && r.key < b
    requires KeysDistinct(rows, RowId)
    ensures RankOf(rows, r.key) < RankOf(rows, b)
  {
    assert r.id in Better(rows, b);
    forall x | x in rows && x.key < r.key ensures x.id != r.id {
      var i :| 0 <= i < |rows| && rows[i] == x;
      var j :| 0 <= j < |rows| && rows[j] == r;
      assert i != j;
    }
    assert r.id !in Better(rows, r.key);
    SubsetSize(Better(rows, r.key), Better(rows, b));
  }

  /**
   * In any ordering `p` of the rows by key, a row's rank is one more than
   * the position of the first row that shares its key.
   */
  lemma RankIsFirstPeerPosition(rows: seq<Row>, p: seq<Row>, i: nat, f: nat)
    requires multiset(p) == multiset(rows) && SortedDesc(p, Priority)
    requires KeysDistinct(rows, RowId)
    requires f <= i < |p| && p[f].key == p[i].key
    requires forall t :: 0 <= t < f ==> p[t].key != p[i].key
    ensures RankOf(rows, p[i].key) == f + 1
  {
    var key := p[i].key;
    forall r | r in rows ensures r in p {
      assert r in multiset(p);
    }
    forall r | r in p ensures r in rows {
      assert r in multiset(rows);
    }
    assert forall t :: 0 <= t < f ==> p[t].key < key;
    assert forall t :: f <= t < |p| ==> p[t].key >= key;
    assert Better(rows, key) == KeySet(p[..f], RowId);
    PermutationKeepsKeysDistinct(p, rows, RowId);
    assert KeysDistinct(p[..f], RowId);
    KeySetSize(p[..f], RowId);
  }

  /** The rows an admissible sub-query result kept, with what its ORDER BY ... LIMIT guarantees. */
  lemma KeptRows(out: seq<Entry>, rows: seq<Row>, limit: nat) returns (kept: seq<Row>)
    requires IsSubRanking(out, rows, limit)
    requires KeysDistinct(rows, RowId)
    ensures |kept| == |out| == Min(limit, |rows|)
    ensures forall i :: 0 <= i < |out| ==> out[i] == Entry(kept[i].id, RankOf(rows, kept[i].key))
    ensures SortedDesc(kept, Priority) && KeysDistinct(kept, RowId)
    ensures forall y :: y in kept ==> y in rows
    ensures forall x, j :: x in rows && x !in kept && 0 <= j < |kept| ==> kept[j].key <= x.key
    ensures forall i, j :: 0 <= i < j < |kept| ==> kept[i].key <= kept[j].key
  {
    kept :| IsOrderByLimit(kept, rows, Priority, limit) && out == Annotate(rows, kept);
    OrderByLimitProperties(kept, rows, Priority, limit, RowId);
    forall x, j | x in rows && x !in kept && 0 <= j < |kept| ensures kept[j].key <= x.key {
      assert Priority(x) <= Priority(kept[j]);
    }
    forall i, j | 0 <= i < j < |kept| ensures kept[i].key <= kept[j].key {
      assert Priority(kept[i]) >= Priority(kept[j]);
    }
  }

  /**
   * Every admissible result of a ranking sub-query has at most `limit` rows,
   * as many as the LIMIT lets through, with distinct ids of the input and
   * ranks that start at 1 and never decrease.
   */
  lemma SubRankingWellFormed(out: seq<Entry>, rows: seq<Row>, limit: nat)
    requires IsSubRanking(out, rows, limit)
    requires KeysDistinct(rows, RowId)
    ensures WellFormed(out, limit)
    ensures |out| == Min(limit, |rows|)
    ensures Ids(out) <= KeySet(rows, RowId)
  {
    var kept := KeptRows(out, rows, limit);
    assert IdsDistinct(out);
    forall i, j | 0 <= i < j < |out| ensures out[i].rank <= out[j].rank {
      RankOfMonotone(rows, kept[i].key, kept[j].key);
    }
    if out != [] {
      SubRankingRankBound(out, rows, limit);
    }
    forall x | x in Ids(out) ensures x in KeySet(rows, RowId) {
      var i :| 0 <= i < |out| && out[i].id == x;
      assert kept[i] in rows;
    }
  }

  /** Every row that sorts strictly before `kept[i]` is among the rows kept before it. */
  lemma BetterAreBefore(rows: seq<Row>, kept: seq<Row>, i: nat)
    requires i < |kept|
    requires forall x, j :: x in rows && x !in kept && 0 <= j < |kept| ==> kept[j].key <= x.key
    requires forall a, b :: 0 <= a < b < |kept| ==> kept[a].key <= kept[b].key
    ensures Better(rows, kept[i].key) <= KeySet(kept[..i], RowId)
  {
    forall x | x in Better(rows, kept[i].key) ensures x in KeySet(kept[..i], RowId) {
      var r :| r in rows && r.key < kept[i].key && r.id == x;
      assert r in kept;
      var t :| 0 <= t < |kept| && kept[t] == r;
      assert t < i;
      assert kept[..i][t] == r;
      assert r in kept[..i];
      assert RowId(r) in KeySet(kept[..i], RowId);
    }
  }

  /** The row at position `i` of a sub-ranking has rank at most `i + 1`. */
  lemma SubRankingRankBound(out: seq<Entry>, rows: seq<Row>, limit: nat)
    requires IsSubRanking(out, rows, limit)
    requires KeysDistinct(rows, RowId)
    ensures forall i :: 0 <= i < |out| ==> out[i].rank <= i + 1
  {
    var kept := KeptRows(out, rows, limit);
    forall i | 0 <= i < |out| ensures out[i].rank <= i + 1 {
      BetterAreBefore(rows, kept, i);
      KeySetSize(kept[..i], RowId);
      SubsetSize(Better(rows, kept[i].key), KeySet(kept[..i], RowId));
    }
  }

  /** The LIMIT never drops a row ranked strictly better than one it keeps. */
  lemma SubRankingKeepsBest(out: seq<Entry>, rows: seq<Row>, limit: nat)
    requires IsSubRanking(out, rows, limit)
    requires KeysDistinct(rows, RowId)
    ensures forall r, i :: r in rows && r.id !in Ids(out) && 0 <= i < |out| ==> out[i].rank <= RankOf(rows, r.key)
  {
    var kept := KeptRows(out, rows, limit);
    forall r, i | r in rows && r.id !in Ids(out) && 0 <= i < |out|
      ensures out[i].rank <= RankOf(rows, r.key)
    {
      IdsHas(out);
      assert forall t :: 0 <= t < |kept| ==> kept[t].id == out[t].id;
      assert r !in kept;
      RankOfMonotone(rows, kept[i].key, r.key);
    }
  }
}
