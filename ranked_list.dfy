/**
 * The rows each ranking sub-query of the hybrid search produces: a document
 * id with the `RANK()` the sub-query gave it. The `documents` table's `id`
 * is its primary key, so no id occurs twice in one sub-ranking.
 */
module RankedList {
  import opened OrderBy

  /** A nullable value: `None` is SQL's NULL. */
  datatype Option<T> = None | Some(value: T)

  /** One row of a ranking sub-query: `id` and `rank`. */
  datatype Entry = Entry(id: nat, rank: nat)

  function EntryId(e: Entry): nat {
    e.id
  }

  /** The document ids a sub-ranking holds. */
  function Ids(l: seq<Entry>): set<nat> {
    KeySet(l, EntryId)
  }

  ghost predicate IdsDistinct(l: seq<Entry>) {
    KeysDistinct(l, EntryId)
  }

  /**
   * What a ranking sub-query guarantees about its rows: distinct ids, at most
   * `limit` rows, ranks that start at 1 and never decrease along the rows.
   */
  ghost predicate WellFormed(l: seq<Entry>, limit: nat) {
    && IdsDistinct(l)
    && |l| <= limit
    && (l != [] ==> l[0].rank == 1)
    && (forall i :: 0 <= i < |l| ==> l[i].rank >= 1)
    && (forall i, j :: 0 <= i < j < |l| ==> l[i].rank <= l[j].rank)
  }

  lemma IdsHas(l: seq<Entry>)
    ensures forall t :: 0 <= t < |l| ==> l[t].id in Ids(l)
  {
    forall t | 0 <= t < |l| ensures l[t].id in Ids(l) {
      assert l[t] in l;
    }
  }

  /** The row of `l` for document `id`, or NULL when `l` has none. */
  function Find(l: seq<Entry>, id: nat): (r: Option<Entry>)
    ensures r.Some? <==> id in Ids(l)
    ensures r.Some? ==> r.value in l && r.value.id == id
  {
    if l == [] then None
    else
      KeySetCons(l, EntryId);
      if l[0].id == id then Some(l[0]) else Find(l[1..], id)
  }

  /** With distinct ids, `Find` returns the one row that holds the id. */
  lemma {:induction false} FindUnique(l: seq<Entry>, e: Entry)
    requires IdsDistinct(l) && e in l
    ensures Find(l, e.id) == Some(e)
  {
    if l[0] != e {
      assert e in l[1..];
      assert l[0].id != e.id by {
        var j :| 0 <= j < |l[1..]| && l[1..][j] == e;
        assert l[j + 1] == e;
      }
      FindUnique(l[1..], e);
    }
  }
}
