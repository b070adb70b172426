/**
 * `ORDER BY f DESC LIMIT n` as SQL defines it: the result is the first `n`
 * rows of SOME ordering of the input by non-increasing `f`. SQL fixes no
 * order among rows with equal `f`, so every property below is proved for
 * every such result, not for one chosen tie-break. An insertion sort gives
 * one such result, which shows that a result always exists.
 */
module OrderBy {

  function Min(a: nat, b: nat): nat {
    if a <= b then a else b
  }

  /** `s` lists its elements by non-increasing `f` (any order among equals). */
  ghost predicate SortedDesc<T>(s: seq<T>, f: T -> real) {
    forall i, j :: 0 <= i < j < |s| ==> f(s[i]) >= f(s[j])
  }

  /** No two elements of `s` share a key `g`. */
  ghost predicate KeysDistinct<T>(s: seq<T>, g: T -> nat) {
    forall i, j :: 0 <= i < j < |s| ==> g(s[i]) != g(s[j])
  }

  /** The set of keys `g` of the elements of `s`. */
  function KeySet<T(==)>(s: seq<T>, g: T -> nat): set<nat> {
    set x | x in s :: g(x)
  }

  lemma KeySetCons<T>(s: seq<T>, g: T -> nat)
    requires s != []
    ensures KeySet(s, g) == {g(s[0])} + KeySet(s[1..], g)
  {
    assert s == [s[0]] + s[1..];
    assert s[0] in s;
  }

  lemma KeySetAppend<T>(a: seq<T>, b: seq<T>, g: T -> nat)
    ensures KeySet(a + b, g) == KeySet(a, g) + KeySet(b, g)
  {
    forall x | x in a + b ensures x in a || x in b {
    }
    forall x | x in a ensures x in a + b {
      var i :| 0 <= i < |a| && a[i] == x;
      assert (a + b)[i] == x;
    }
    forall x | x in b ensures x in a + b {
      var i :| 0 <= i < |b| && b[i] == x;
      assert (a + b)[|a| + i] == x;
    }
  }

  /** `out` is an admissible result of `ORDER BY f DESC LIMIT limit` over `s`. */
  ghost predicate IsOrderByLimit<T(!new)>(out: seq<T>, s: seq<T>, f: T -> real, limit: nat)
    ensures IsOrderByLimit(out, s, f, limit) ==> |out| == Min(limit, |s|)
  {
    exists p: seq<T> :: multiset(p) == multiset(s) && SortedDesc(p, f) && out == p[..Min(limit, |p|)]
  }

  /** Places `x` before the first element of `s` whose `f` is not above `f(x)`. */
  function Insert<T(==,!new)>(x: T, s: seq<T>, f: T -> real): (r: seq<T>)
    requires SortedDesc(s, f)
    ensures multiset(r) == multiset(s) + multiset{x}
    ensures SortedDesc(r, f)
  {
    if s == [] || f(x) >= f(s[0]) then
      [x] + s
    else
      var rest := Insert(x, s[1..], f);
      HeadDominates(s[0], rest, x, s[1..], f);
      assert s == [s[0]] + s[1..];
      [s[0]] + rest
  }

  /** An element ranked no lower than `x` and every element of `t` is ranked no lower than any of `t` plus `x`. */
  lemma HeadDominates<T>(h: T, rest: seq<T>, x: T, t: seq<T>, f: T -> real)
    requires multiset(rest) == multiset(t) + multiset{x}
    requires f(h) >= f(x) && forall j :: 0 <= j < |t| ==> f(h) >= f(t[j])
    ensures forall j :: 0 <= j < |rest| ==> f(h) >= f(rest[j])
  {
    forall j | 0 <= j < |rest| ensures f(h) >= f(rest[j]) {
      assert rest[j] in multiset(rest);
      if rest[j] != x {
        assert rest[j] in multiset(t);
        var k :| 0 <= k < |t| && t[k] == rest[j];
      }
    }
  }

  /** Insertion sort by non-increasing `f`; equal elements keep their input order. */
  function SortDesc<T(==,!new)>(s: seq<T>, f: T -> real): (r: seq<T>)
    ensures multiset(r) == multiset(s)
    ensures SortedDesc(r, f)
  {
    if s == [] then
      []
    else
      assert s == [s[0]] + s[1..];
      Insert(s[0], SortDesc(s[1..], f), f)
  }

  /** The sorted prefix is an admissible `ORDER BY ... LIMIT` result. */
  function OrderByLimit<T(==,!new)>(s: seq<T>, f: T -> real, limit: nat): (out: seq<T>)
    ensures IsOrderByLimit(out, s, f, limit)
  {
    var p := SortDesc(s, f);
    assert |p| == |multiset(p)| == |s|;
    p[..Min(limit, |p|)]
  }

  lemma MultisetLength<T>(p: seq<T>, s: seq<T>)
    requires multiset(p) == multiset(s)
    ensures |p| == |s|
  {
    assert |multiset(p)| == |p| && |multiset(s)| == |s|;
  }

  /** An element occurs at most once in a sequence whose keys are distinct. */
  lemma {:induction false} DistinctKeysSingleOccurrence<T>(s: seq<T>, g: T -> nat, x: T)
    requires KeysDistinct(s, g)
    ensures multiset(s)[x] <= 1
  {
    if s != [] {
      assert s == [s[0]] + s[1..];
      DistinctKeysSingleOccurrence(s[1..], g, x);
      if s[0] == x {
        forall y | y in s[1..] ensures y != x {
          var j :| 0 <= j < |s[1..]| && s[1..][j] == y;
          assert g(s[j + 1]) != g(s[0]);
        }
      }
    }
  }

  /** Reordering a sequence keeps its keys distinct. */
  lemma PermutationKeepsKeysDistinct<T>(p: seq<T>, s: seq<T>, g: T -> nat)
    requires multiset(p) == multiset(s) && KeysDistinct(s, g)
    ensures KeysDistinct(p, g)
  {
    forall i, j | 0 <= i < j < |p| ensures g(p[i]) != g(p[j]) {
      // p[i] and p[j] are two occurrences, and no element occurs twice in s
      DistinctKeysSingleOccurrence(s, g, p[i]);
      assert p == p[..j] + p[j..];
      assert p[i] in p[..j];
      assert multiset(p)[p[i]] == multiset(p[..j])[p[i]] + multiset(p[j..])[p[i]];
      assert p[i] != p[j];
      // so they come from two different positions of s
      assert p[i] in multiset(s) && p[j] in multiset(s);
      var a :| 0 <= a < |s| && s[a] == p[i];
      var b :| 0 <= b < |s| && s[b] == p[j];
      assert a != b;
    }
  }

  /** A sequence with distinct keys has as many keys as elements. */
  lemma {:induction false} KeySetSize<T>(s: seq<T>, g: T -> nat)
    requires KeysDistinct(s, g)
    ensures |KeySet(s, g)| == |s|
  {
    if s != [] {
      assert KeysDistinct(s[1..], g);
      KeySetSize(s[1..], g);
      KeySetCons(s, g);
      forall y | y in s[1..] ensures g(y) != g(s[0]) {
        var j :| 0 <= j < |s[1..]| && s[1..][j] == y;
        assert y == s[j + 1];
      }
    }
  }

  /** The ordering an admissible `ORDER BY ... LIMIT` result is a prefix of. */
  lemma ChooseOrdering<T(!new)>(out: seq<T>, s: seq<T>, f: T -> real, limit: nat) returns (p: seq<T>)
    requires IsOrderByLimit(out, s, f, limit)
    ensures multiset(p) == multiset(s) && SortedDesc(p, f)
    ensures |p| == |s| && |out| == Min(limit, |s|) && out == p[..|out|]
  {
    p :| multiset(p) == multiset(s) && SortedDesc(p, f) && out == p[..Min(limit, |p|)];
    MultisetLength(p, s);
  }

  /**
   * What every admissible `ORDER BY f DESC LIMIT limit` result guarantees:
   * its length, its order, that it only holds input elements, that no
   * element left out ranks strictly above one kept, and that it keeps keys
   * distinct when the input has distinct keys.
   */
  lemma OrderByLimitProperties<T(!new)>(out: seq<T>, s: seq<T>, f: T -> real, limit: nat, g: T -> nat)
    requires IsOrderByLimit(out, s, f, limit)
    ensures |out| == Min(limit, |s|)
    ensures SortedDesc(out, f)
    ensures forall y :: y in out ==> y in s
    ensures forall x, y :: x in s && x !in out && y in out ==> f(x) <= f(y)
    ensures KeysDistinct(s, g) ==> KeysDistinct(out, g)
  {
    var p := ChooseOrdering(out, s, f, limit);
    forall y | y in out ensures y in s {
      assert y in multiset(p);
    }
    KeepsTop(out, s, p, f);
    if KeysDistinct(s, g) {
      PermutationKeepsKeysDistinct(p, s, g);
      assert KeysDistinct(out, g);
    }
  }

  lemma KeepsTop<T>(out: seq<T>, s: seq<T>, p: seq<T>, f: T -> real)
    requires multiset(p) == multiset(s) && SortedDesc(p, f)
    requires |out| <= |p| && out == p[..|out|]
    ensures forall x, y :: x in s && x !in out && y in out ==> f(x) <= f(y)
  {
    forall x, y | x in s && x !in out && y in out ensures f(x) <= f(y) {
      assert x in multiset(p);
      var j :| 0 <= j < |p| && p[j] == x;
      var i :| 0 <= i < |out| && out[i] == y;
      assert forall t :: 0 <= t < |out| ==> p[t] == out[t] != x;
      assert i < |out| <= j;
    }
  }

  /** How many elements of `s` have `f` at least `v`. */
  function CountAtLeast<T>(s: seq<T>, f: T -> real, v: real): (c: nat)
    ensures c <= |s|
    ensures c > 0 ==> exists x :: x in s && f(x) >= v
    ensures (forall k :: 0 <= k < |s| ==> f(s[k]) >= v) ==> c == |s|
  {
    if s == [] then
      0
    else
      assert forall x :: x in s[1..] ==> x in s;
      (if f(s[0]) >= v then 1 else 0) + CountAtLeast(s[1..], f, v)
  }

  lemma {:induction false} CountAppend<T>(a: seq<T>, b: seq<T>, f: T -> real, v: real)
    ensures CountAtLeast(a + b, f, v) == CountAtLeast(a, f, v) + CountAtLeast(b, f, v)
  {
    if a == [] {
      assert a + b == b;
    } else {
      assert (a + b)[1..] == a[1..] + b;
      CountAppend(a[1..], b, f, v);
    }
  }

  /** The count depends only on the multiset of elements, not on their order. */
  lemma {:induction false} CountPermutation<T>(a: seq<T>, b: seq<T>, f: T -> real, v: real)
    requires multiset(a) == multiset(b)
    ensures CountAtLeast(a, f, v) == CountAtLeast(b, f, v)
  {
    if a == [] {
      assert |b| == |multiset(b)| == 0;
    } else {
      assert a[0] in multiset(b);
      var j :| 0 <= j < |b| && b[j] == a[0];
      var front, back := b[..j], b[j + 1..];
      var tail := [b[j]] + back;
      assert b == front + tail;
      assert tail[1..] == back;
      RemoveMatching(a, b, j);
      CountPermutation(a[1..], front + back, f, v);
      CountAppend(front, tail, f, v);
      CountAppend(front, back, f, v);
    }
  }

  /** Removing the same element from two permutations of each other leaves permutations of each other. */
  lemma RemoveMatching<T>(a: seq<T>, b: seq<T>, j: nat)
    requires a != [] && multiset(a) == multiset(b) && j < |b| && b[j] == a[0]
    ensures multiset(a[1..]) == multiset(b[..j] + b[j + 1..])
  {
    assert b == b[..j] + [b[j]] + b[j + 1..];
    assert a == [a[0]] + a[1..];
    assert multiset(b[..j] + b[j + 1..]) + multiset{a[0]} == multiset(b);
    assert multiset(a[1..]) + multiset{a[0]} == multiset(a);
    MultisetCancel(multiset(a[1..]), multiset(b[..j] + b[j + 1..]), a[0]);
  }

  lemma MultisetCancel<T>(x: multiset<T>, y: multiset<T>, e: T)
    requires x + multiset{e} == y + multiset{e}
    ensures x == y
  {
    forall z ensures x[z] == y[z] {
      assert (x + multiset{e})[z] == (y + multiset{e})[z];
    }
  }

  /** Position `i` of one ordering by non-increasing `f` has `f` at least that of position `i` of another. */
  lemma SortedKeyAtLeast<T>(p: seq<T>, q: seq<T>, f: T -> real, i: nat)
    requires multiset(p) == multiset(q) && SortedDesc(p, f) && SortedDesc(q, f)
    requires i < |p| && i < |q|
    ensures f(p[i]) >= f(q[i])
  {
    var v := f(q[i]);
    AtLeastPrefix(q, f, i);
    CountPermutation(p, q, f, v);
    CountAboveIndex(p, f, v, i);
  }

  /** In an ordering by non-increasing `f`, at least `i + 1` elements have `f` at least that of position `i`. */
  lemma AtLeastPrefix<T>(q: seq<T>, f: T -> real, i: nat)
    requires SortedDesc(q, f) && i < |q|
    ensures CountAtLeast(q, f, f(q[i])) >= i + 1
  {
    var v := f(q[i]);
    var front, back := q[..i + 1], q[i + 1..];
    assert q == front + back;
    CountAppend(front, back, f, v);
    assert forall k :: 0 <= k < |front| ==> f(front[k]) >= v;
  }

  /** When more than `i` elements have `f` at least `v`, so does position `i` of an ordering by non-increasing `f`. */
  lemma CountAboveIndex<T>(p: seq<T>, f: T -> real, v: real, i: nat)
    requires SortedDesc(p, f) && i < |p| && CountAtLeast(p, f, v) > i
    ensures f(p[i]) >= v
  {
    var front, back := p[..i], p[i..];
    assert p == front + back;
    CountAppend(front, back, f, v);
    assert CountAtLeast(back, f, v) > 0;
    var x :| x in back && f(x) >= v;
    var k :| 0 <= k < |back| && back[k] == x;
    assert p[i + k] == x;
  }

  /**
   * `ORDER BY f DESC LIMIT n` fixes `f` at every position: two admissible
   * results differ at most in which of the elements with equal `f` they
   * hold and in what order.
   */
  lemma OrderByLimitKeysDetermined<T(!new)>(out1: seq<T>, out2: seq<T>, s: seq<T>, f: T -> real, limit: nat)
    requires IsOrderByLimit(out1, s, f, limit) && IsOrderByLimit(out2, s, f, limit)
    ensures |out1| == |out2|
    ensures forall i :: 0 <= i < |out1| ==> f(out1[i]) == f(out2[i])
  {
    var p := ChooseOrdering(out1, s, f, limit);
    var q := ChooseOrdering(out2, s, f, limit);
    forall i | 0 <= i < |out1| ensures f(out1[i]) == f(out2[i]) {
      assert out1[i] == p[i] && out2[i] == q[i];
      SortedKeyAtLeast(p, q, f, i);
      SortedKeyAtLeast(q, p, f, i);
    }
  }
}
