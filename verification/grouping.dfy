/** Grouping a sequence by a key into an insertion-ordered dictionary of lists,
    as a `defaultdict(list)` filled by `append`. A dictionary is a sequence
    of (key, value) pairs with distinct keys, in insertion order. */
module Grouping {
  import Sorting
  import opened Wrappers

  /** A dictionary of lists, in insertion order. */
  type Groups<K, V> = seq<(K, seq<V>)>

  /** The position of key `k`, if present. */
  function IndexOf<K(==), W>(g: seq<(K, W)>, k: K): (o: Option<nat>)
    ensures o.Some? ==> o.value < |g| && g[o.value].0 == k
    ensures o.None? ==> forall i :: 0 <= i < |g| ==> g[i].0 != k
    decreases |g|
  {
    if |g| == 0 then None
    else if g[0].0 == k then Some(0)
    else
      match IndexOf(g[1..], k)
      case None => None
      case Some(j) => Some(j + 1)
  }

  /** Two dictionaries with the same keys in the same order find a key at the
      same position. */
  lemma {:induction false} IndexOfSameKeys<K, W1, W2>(g1: seq<(K, W1)>, g2: seq<(K, W2)>, k: K)
    requires |g1| == |g2| && forall i :: 0 <= i < |g1| ==> g1[i].0 == g2[i].0
    ensures IndexOf(g1, k) == IndexOf(g2, k)
    decreases |g1|
  {
    if |g1| > 0 && g1[0].0 != k {
      IndexOfSameKeys(g1[1..], g2[1..], k);
    }
  }

  /** With distinct keys, the position of a present key is its only one. */
  lemma IndexOfDistinct<K, W>(g: seq<(K, W)>, j: nat)
    requires j < |g| && forall a, b :: 0 <= a < b < |g| ==> g[a].0 != g[b].0
    ensures IndexOf(g, g[j].0) == Some(j)
  {
  }

  /** `groups[k].append(v)`: appends to the list of `k`, creating it at the
      end when `k` is new. */
  function Append<K(==), V>(g: Groups<K, V>, k: K, v: V): (r: Groups<K, V>)
    ensures IndexOf(g, k).Some? ==> |r| == |g|
    ensures IndexOf(g, k).Some? ==> forall i :: 0 <= i < |g| ==>
      r[i].0 == g[i].0
      && r[i].1 == (if i == IndexOf(g, k).value then g[i].1 + [v] else g[i].1)
    ensures IndexOf(g, k).None? ==> r == g + [(k, [v])]
  {
    match IndexOf(g, k)
    case Some(j) => g[j := (k, g[j].1 + [v])]
    case None => g + [(k, [v])]
  }

  /** The keys of `xs`, one per element. */
  function KeysOf<K, V>(xs: seq<V>, key: V -> K): (r: seq<K>)
    ensures |r| == |xs| && forall i :: 0 <= i < |xs| ==> r[i] == key(xs[i])
  {
    seq(|xs|, i requires 0 <= i < |xs| => key(xs[i]))
  }

  function HasKey<K(==), V>(key: V -> K, k: K): V -> bool {
    (v: V) => key(v) == k
  }

  /** The reference grouping: the keys in order of first occurrence, each
      with the elements of that key in their original order. */
  function GroupBy<K(==,!new), V>(xs: seq<V>, key: V -> K): Groups<K, V> {
    GroupsAt(xs, key, Sorting.Distinct(KeysOf(xs, key)))
  }

  /** The lists of the keys `ks`, in that order. */
  function GroupsAt<K(==), V>(xs: seq<V>, key: V -> K, ks: seq<K>): (g: Groups<K, V>)
    ensures |g| == |ks|
    ensures forall i :: 0 <= i < |ks| ==> g[i] == (ks[i], Sorting.Filter(xs, HasKey(key, ks[i])))
  {
    seq(|ks|, i requires 0 <= i < |ks| => (ks[i], Sorting.Filter(xs, HasKey(key, ks[i]))))
  }

  /** The grouping has distinct keys, exactly the keys that occur, and under
      each key exactly the elements with that key, in order. */
  lemma GroupByShape<K(!new), V>(xs: seq<V>, key: V -> K)
    ensures var g := GroupBy(xs, key);
      (forall a, b :: 0 <= a < b < |g| ==> g[a].0 != g[b].0)
      && (forall i :: 0 <= i < |g| ==> g[i].1 == Sorting.Filter(xs, HasKey(key, g[i].0)))
      && (forall i :: 0 <= i < |g| ==> |g[i].1| > 0)
      && (forall v :: v in xs ==> exists i :: 0 <= i < |g| && g[i].0 == key(v))
  {
    var ks := Sorting.Distinct(KeysOf(xs, key));
    var g := GroupBy(xs, key);
    forall i | 0 <= i < |g| ensures |g[i].1| > 0 {
      assert ks[i] in ks;
      var j :| 0 <= j < |xs| && KeysOf(xs, key)[j] == ks[i];
      assert xs[j] in g[i].1;
    }
    forall v | v in xs ensures exists i :: 0 <= i < |g| && g[i].0 == key(v) {
      var j :| 0 <= j < |xs| && xs[j] == v;
      assert KeysOf(xs, key)[j] in ks;
      var i :| 0 <= i < |ks| && ks[i] == key(v);
      assert g[i].0 == key(v);
    }
  }

  lemma DistinctSnoc<T(!new)>(s: seq<T>, x: T)
    ensures Sorting.Distinct(s + [x])
         == if x in Sorting.Distinct(s) then Sorting.Distinct(s) else Sorting.Distinct(s) + [x]
  {
    assert (s + [x])[..|s|] == s;
  }

  /** Nothing passes a filter that no element satisfies. */
  lemma {:induction false} FilterNone<V>(xs: seq<V>, p: V -> bool)
    requires forall i :: 0 <= i < |xs| ==> !p(xs[i])
    ensures Sorting.Filter(xs, p) == []
    decreases |xs|
  {
    if |xs| > 0 {
      FilterNone(xs[1..], p);
    }
  }

  /** The list of every key grows by `v` exactly when `v` has that key. */
  lemma FilterSnoc<K, V>(xs: seq<V>, v: V, key: V -> K, k: K)
    ensures Sorting.Filter(xs + [v], HasKey(key, k))
         == Sorting.Filter(xs, HasKey(key, k)) + (if key(v) == k then [v] else [])
  {
    Sorting.FilterConcat(xs, [v], HasKey(key, k));
  }

  lemma GroupsAtGrow<K, V>(xs: seq<V>, v: V, key: V -> K, ks: seq<K>, j: nat)
    requires Sorting.NoDuplicates(ks) && j < |ks| && ks[j] == key(v)
    ensures var g := GroupsAt(xs, key, ks);
      GroupsAt(xs + [v], key, ks) == g[j := (key(v), g[j].1 + [v])]
  {
    var g := GroupsAt(xs, key, ks);
    var g' := GroupsAt(xs + [v], key, ks);
    forall i | 0 <= i < |ks| ensures g'[i] == g[j := (key(v), g[j].1 + [v])][i] {
      FilterSnoc(xs, v, key, ks[i]);
      var f := Sorting.Filter(xs, HasKey(key, ks[i]));
      if i != j {
        assert ks[i] != key(v);
        assert f + [] == f;
      }
    }
  }

  lemma GroupsAtNew<K, V>(xs: seq<V>, v: V, key: V -> K, ks: seq<K>)
    requires key(v) !in ks && key(v) !in KeysOf(xs, key)
    ensures GroupsAt(xs + [v], key, ks + [key(v)]) == GroupsAt(xs, key, ks) + [(key(v), [v])]
  {
    var k := key(v);
    var g := GroupsAt(xs, key, ks);
    var g' := GroupsAt(xs + [v], key, ks + [k]);
    forall i | 0 <= i < |ks| ensures g'[i] == g[i] {
      FilterSnoc(xs, v, key, ks[i]);
      var f := Sorting.Filter(xs, HasKey(key, ks[i]));
      assert (ks + [k])[i] == ks[i] && f + [] == f;
    }
    FilterSnoc(xs, v, key, k);
    assert forall i :: 0 <= i < |xs| ==> KeysOf(xs, key)[i] != k;
    FilterNone(xs, HasKey(key, k));
    assert (ks + [k])[|ks|] == k;
    assert [] + [v] == [v];
    assert g'[|ks|] == (k, [v]);
  }

  /** Growing the input by one element appends it to its key's list. */
  lemma GroupBySnoc<K(!new), V>(xs: seq<V>, v: V, key: V -> K)
    ensures GroupBy(xs + [v], key) == Append(GroupBy(xs, key), key(v), v)
  {
    var ks := Sorting.Distinct(KeysOf(xs, key));
    assert KeysOf(xs + [v], key) == KeysOf(xs, key) + [key(v)];
    DistinctSnoc(KeysOf(xs, key), key(v));
    if key(v) in ks {
      var j :| 0 <= j < |ks| && ks[j] == key(v);
      IndexOfDistinct(GroupBy(xs, key), j);
      GroupsAtGrow(xs, v, key, ks, j);
    } else {
      GroupsAtNew(xs, v, key, ks);
    }
  }

  /** The dictionary filled element by element, as the loop does it. */
  function FillGroups<K(==), V>(xs: seq<V>, key: V -> K): Groups<K, V>
    decreases |xs|
  {
    if |xs| == 0 then []
    else Append(FillGroups(xs[..|xs| - 1], key), key(xs[|xs| - 1]), xs[|xs| - 1])
  }

  /** Filling the dictionary element by element gives the reference grouping. */
  lemma {:induction false} FillGroupsIsGroupBy<K(!new), V>(xs: seq<V>, key: V -> K)
    ensures FillGroups(xs, key) == GroupBy(xs, key)
    decreases |xs|
  {
    if |xs| > 0 {
      var init, last := xs[..|xs| - 1], xs[|xs| - 1];
      FillGroupsIsGroupBy(init, key);
      assert xs == init + [last];
      GroupBySnoc(init, last, key);
    }
  }
}
