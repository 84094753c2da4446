/** The repository contract shared by blogs and projects: a collection of
    aggregates with unique keys, read one at a time by key or all at once
    with an optional filter and an optional order, and written with an
    upsert. Rows are kept in the order they were first saved. */
module Repositories {
  import opened Wrappers
  import Sorting

  datatype Repository<K, !V> = Repository(key: V -> K, rows: seq<V>)

  /** No two stored aggregates share a key. */
  predicate Valid<K(==), V>(r: Repository<K, V>) {
    forall i, j :: 0 <= i < j < |r.rows| ==> r.key(r.rows[i]) != r.key(r.rows[j])
  }

  function Empty<K(==), V>(key: V -> K): (r: Repository<K, V>)
    ensures Valid(r) && |r.rows| == 0
  {
    Repository(key, [])
  }

  /** The position of the row stored under `k`. */
  function Find<K(==), V>(rows: seq<V>, key: V -> K, k: K): (o: Option<nat>)
    ensures o.Some? ==> o.value < |rows| && key(rows[o.value]) == k
    ensures o.Some? ==> forall j :: 0 <= j < o.value ==> key(rows[j]) != k
    ensures o.None? <==> forall j :: 0 <= j < |rows| ==> key(rows[j]) != k
  {
    if |rows| == 0 then None
    else if key(rows[0]) == k then Some(0)
    else match Find(rows[1..], key, k)
      case None => None
      case Some(i) => Some(i + 1)
  }

  /** `get(k)`: the aggregate stored under `k`, or nothing. */
  function Get<K(==), V>(r: Repository<K, V>, k: K): (o: Option<V>)
    ensures o.Some? ==> o.value in r.rows && r.key(o.value) == k
    ensures o.None? <==> forall j :: 0 <= j < |r.rows| ==> r.key(r.rows[j]) != k
  {
    match Find(r.rows, r.key, k)
    case None => None
    case Some(i) => Some(r.rows[i])
  }

  /** `save(v)`: replaces the aggregate with the same key, or adds `v` when
      there is none. */
  function Save<K(==), V>(r: Repository<K, V>, v: V): (r': Repository<K, V>)
    ensures r'.key == r.key
    ensures v in r'.rows
    ensures |r'.rows| == |r.rows| + (if Get(r, r.key(v)).None? then 1 else 0)
  {
    match Find(r.rows, r.key, r.key(v))
    case None => Repository(r.key, r.rows + [v])
    case Some(i) =>
      var rows := r.rows[i := v];
      assert rows[i] == v;
      Repository(r.key, rows)
  }

  /** Saving keeps the keys unique. */
  lemma SaveKeepsValid<K, V>(r: Repository<K, V>, v: V)
    requires Valid(r)
    ensures Valid(Save(r, v))
  {
  }

  /** After `save(v)`, reading `v`'s key gives `v`. */
  lemma GetAfterSave<K, V>(r: Repository<K, V>, v: V)
    ensures Get(Save(r, v), r.key(v)) == Some(v)
  {
    var r' := Save(r, v);
    match Find(r.rows, r.key, r.key(v))
    case None =>
      assert Find(r'.rows, r.key, r.key(v)) == Some(|r.rows|) by {
        FindFirst(r'.rows, r.key, r.key(v), |r.rows|);
      }
    case Some(i) =>
      FindFirst(r'.rows, r.key, r.key(v), i);
  }

  /** `Find` returns the first matching position. */
  lemma {:induction false} FindFirst<K, V>(rows: seq<V>, key: V -> K, k: K, i: nat)
    requires i < |rows| && key(rows[i]) == k
    requires forall j :: 0 <= j < i ==> key(rows[j]) != k
    ensures Find(rows, key, k) == Some(i)
    decreases i
  {
    if i > 0 {
      FindFirst(rows[1..], key, k, i - 1);
    }
  }

  /** Saving one aggregate does not change what is stored under any other key. */
  lemma SaveKeepsOthers<K, V>(r: Repository<K, V>, v: V, k: K)
    requires k != r.key(v)
    ensures Get(Save(r, v), k) == Get(r, k)
  {
    var r' := Save(r, v);
    match Find(r.rows, r.key, k)
    case None =>
    case Some(i) =>
      FindFirst(r'.rows, r.key, k, i);
  }

  /** Every row of the repository after a save is `v` or a row that was
      stored before under another key, and those rows are all still there. */
  lemma SaveRows<K, V>(r: Repository<K, V>, v: V)
    requires Valid(r)
    ensures forall u :: u in Save(r, v).rows ==> u == v || (u in r.rows && r.key(u) != r.key(v))
    ensures forall u :: u in r.rows && r.key(u) != r.key(v) ==> u in Save(r, v).rows
  {
    var r' := Save(r, v);
    match Find(r.rows, r.key, r.key(v))
    case None =>
    case Some(i) =>
      forall u | u in r'.rows ensures u == v || (u in r.rows && r.key(u) != r.key(v)) {
        var j :| 0 <= j < |r'.rows| && r'.rows[j] == u;
      }
      forall u | u in r.rows && r.key(u) != r.key(v) ensures u in r'.rows {
        var j :| 0 <= j < |r.rows| && r.rows[j] == u;
        assert r'.rows[j] == u;
      }
  }

  /** `save` for each aggregate of `vs`, in order. */
  function SaveAll<K(==), V>(r: Repository<K, V>, vs: seq<V>): (r': Repository<K, V>)
    ensures r'.key == r.key
    decreases |vs|
  {
    if |vs| == 0 then r else SaveAll(Save(r, vs[0]), vs[1..])
  }

  /** Saving aggregates whose keys are new and distinct appends them in order. */
  lemma {:induction false} SaveAllFresh<K, V>(r: Repository<K, V>, vs: seq<V>)
    requires forall i, j :: 0 <= i < j < |vs| ==> r.key(vs[i]) != r.key(vs[j])
    requires forall i, j :: 0 <= i < |vs| && 0 <= j < |r.rows| ==> r.key(vs[i]) != r.key(r.rows[j])
    ensures SaveAll(r, vs).rows == r.rows + vs
    decreases |vs|
  {
    if |vs| == 0 {
      assert r.rows + vs == r.rows;
    } else {
      var r1 := Save(r, vs[0]);
      assert r1.rows == r.rows + [vs[0]];
      SaveAllFresh(r1, vs[1..]);
      assert r.rows + vs == r1.rows + vs[1..];
    }
  }

  /** `get_all(filter_=..., order_by=...)`: the stored aggregates that pass
      the filter, sorted by the order when one is given and otherwise in
      storage order. */
  function GetAll<K(==), V>(r: Repository<K, V>, filter: Option<V -> bool>,
                            order: Option<(V, V) -> bool>): (s: seq<V>)
    ensures filter.None? ==> multiset(s) == multiset(r.rows)
    ensures filter.Some? ==> multiset(s) == multiset(Sorting.Filter(r.rows, filter.value))
    ensures order.None? ==> s == (if filter.Some? then Sorting.Filter(r.rows, filter.value) else r.rows)
  {
    var kept := if filter.Some? then Sorting.Filter(r.rows, filter.value) else r.rows;
    if order.Some? then Sorting.Sort(kept, order.value) else kept
  }

  /** An aggregate is in the result exactly when it is stored and passes the filter. */
  lemma GetAllMembers<K, V>(r: Repository<K, V>, filter: Option<V -> bool>,
                                order: Option<(V, V) -> bool>, v: V)
    ensures v in GetAll(r, filter, order) <==> v in r.rows && (filter.None? || filter.value(v))
  {
    var s := GetAll(r, filter, order);
    assert v in s <==> v in multiset(s);
    if filter.Some? {
      var f := Sorting.Filter(r.rows, filter.value);
      assert v in f <==> v in multiset(f);
    } else {
      assert v in r.rows <==> v in multiset(r.rows);
    }
  }

  /** With an order that is a sort key, the result is sorted by it. */
  lemma GetAllSorted<K, V(!new)>(r: Repository<K, V>, filter: Option<V -> bool>,
                                     le: (V, V) -> bool)
    requires Sorting.IsTotalPreorder(le)
    ensures Sorting.Sorted(GetAll(r, filter, Some(le)), le)
  {
    var kept := if filter.Some? then Sorting.Filter(r.rows, filter.value) else r.rows;
    Sorting.SortSorted(kept, le);
  }

  /** The same, for an optional order. */
  lemma GetAllSortedWhenOrdered<K, V(!new)>(r: Repository<K, V>, filter: Option<V -> bool>,
                                            order: Option<(V, V) -> bool>)
    ensures order.Some? && Sorting.IsTotalPreorder(order.value) ==>
      Sorting.Sorted(GetAll(r, filter, order), order.value)
  {
    if order.Some? && Sorting.IsTotalPreorder(order.value) {
      GetAllSorted(r, filter, order.value);
    }
  }

  /** The first aggregate of an ordered listing is stored and comes no later
      in the order than any stored aggregate. */
  lemma GetAllHead<K, V(!new)>(r: Repository<K, V>, le: (V, V) -> bool, x: V)
    requires Sorting.IsTotalPreorder(le) && x in r.rows
    ensures var s := GetAll(r, None, Some(le));
      |s| == |r.rows| && s[0] in r.rows && le(s[0], x)
  {
    var s := GetAll(r, None, Some(le));
    GetAllSorted(r, None, le);
    GetAllMembers(r, None, Some(le), x);
    GetAllMembers(r, None, Some(le), s[0]);
    Sorting.SortedHead(s, le, x);
  }

  /** A fresh repository returns nothing, whatever is asked. */
  lemma GetAllOfEmpty<K, V>(key: V -> K, filter: Option<V -> bool>, order: Option<(V, V) -> bool>)
    ensures GetAll(Empty(key), filter, order) == []
  {
  }
}
