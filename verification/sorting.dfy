/** Filtering and stable sorting of sequences, the two list operations the
    repositories and the views are built from. */
module Sorting {

  // ---------------------------------------------------------------------------
  // Filtering
  // ---------------------------------------------------------------------------

  /** The elements of `s` that satisfy `p`, in their original order. */
  function Filter<T>(s: seq<T>, p: T -> bool): (r: seq<T>)
    ensures |r| <= |s|
    ensures forall i :: 0 <= i < |r| ==> p(r[i]) && r[i] in s
    ensures forall i :: 0 <= i < |s| && p(s[i]) ==> s[i] in r
  {
    if |s| == 0 then []
    else (if p(s[0]) then [s[0]] else []) + Filter(s[1..], p)
  }

  lemma {:induction false} FilterConcat<T>(a: seq<T>, b: seq<T>, p: T -> bool)
    ensures Filter(a + b, p) == Filter(a, p) + Filter(b, p)
    decreases |a|
  {
    if |a| == 0 {
      assert a + b == b;
    } else {
      assert (a + b)[1..] == a[1..] + b;
      FilterConcat(a[1..], b, p);
    }
  }

  /** Filtering with a predicate that holds everywhere keeps everything. */
  lemma {:induction false} FilterAll<T>(s: seq<T>, p: T -> bool)
    requires forall i :: 0 <= i < |s| ==> p(s[i])
    ensures Filter(s, p) == s
    decreases |s|
  {
    if |s| > 0 {
      FilterAll(s[1..], p);
    }
  }

  /** Filtering twice is filtering once by both predicates. */
  lemma {:induction false} FilterFilter<T>(s: seq<T>, p: T -> bool, q: T -> bool, both: T -> bool)
    requires forall x :: both(x) == (p(x) && q(x))
    ensures Filter(Filter(s, p), q) == Filter(s, both)
    decreases |s|
  {
    if |s| > 0 {
      FilterFilter(s[1..], p, q, both);
      var rest := Filter(s[1..], p);
      if p(s[0]) {
        var x := [s[0]] + rest;
        assert Filter(s, p) == x && x[0] == s[0] && x[1..] == rest;
      } else {
        assert Filter(s, p) == [] + rest == rest;
      }
    }
  }

  /** A predicate and its complement split a sequence between them. */
  lemma {:induction false} FilterComplement<T>(s: seq<T>, p: T -> bool, q: T -> bool)
    requires forall x :: q(x) == !p(x)
    ensures |Filter(s, p)| + |Filter(s, q)| == |s|
    decreases |s|
  {
    if |s| > 0 {
      FilterComplement(s[1..], p, q);
    }
  }

  /** The number of elements of `s` that satisfy `p`. */
  function Count<T>(s: seq<T>, p: T -> bool): nat {
    if |s| == 0 then 0 else (if p(s[0]) then 1 else 0) + Count(s[1..], p)
  }

  lemma {:induction false} FilterLength<T>(s: seq<T>, p: T -> bool)
    ensures |Filter(s, p)| == Count(s, p)
    decreases |s|
  {
    if |s| > 0 {
      FilterLength(s[1..], p);
    }
  }

  predicate NoDuplicates<T(==)>(s: seq<T>) {
    forall i, j :: 0 <= i < j < |s| ==> s[i] != s[j]
  }

  /** The first occurrence of each element, in order: the contents of a set,
      or the keys of a dictionary filled from `s`. */
  function Distinct<T(==,!new)>(s: seq<T>): (r: seq<T>)
    ensures forall x :: x in r <==> x in s
    ensures NoDuplicates(r)
    ensures forall x :: multiset(r)[x] <= 1
    decreases |s|
  {
    if |s| == 0 then []
    else
      var init, last := s[..|s| - 1], s[|s| - 1];
      assert s == init + [last];
      var d := Distinct(init);
      if last in d then d else d + [last]
  }

  /** An element that occurs twice is counted twice. */
  lemma CountedTwice<T>(s: seq<T>, i: nat, j: nat)
    requires i < j < |s| && s[i] == s[j]
    ensures multiset(s)[s[i]] >= 2
  {
    assert s == s[..j] + [s[j]] + s[j + 1..];
    assert s[i] in s[..j];
  }

  // ---------------------------------------------------------------------------
  // Orders
  // ---------------------------------------------------------------------------

  /** `le` compares every two elements and is transitive: a sort key. */
  ghost predicate IsTotalPreorder<T(!new)>(le: (T, T) -> bool) {
    (forall a, b :: le(a, b) || le(b, a))
    && (forall a, b, c :: le(a, b) && le(b, c) ==> le(a, c))
  }

  predicate Sorted<T>(s: seq<T>, le: (T, T) -> bool) {
    forall i, j :: 0 <= i < j < |s| ==> le(s[i], s[j])
  }

  /** `a` and `b` have the same sort key. */
  predicate SameRank<T>(le: (T, T) -> bool, a: T, b: T) {
    le(a, b) && le(b, a)
  }

  /** The elements of `s` with the same sort key as `x`, in order. */
  function RankClass<T>(s: seq<T>, le: (T, T) -> bool, x: T): (r: seq<T>)
    ensures |r| <= |s|
  {
    if |s| == 0 then []
    else RankClass(s[..|s| - 1], le, x) + (if SameRank(le, x, s[|s| - 1]) then [s[|s| - 1]] else [])
  }

  lemma {:induction false} RankClassConcat<T>(a: seq<T>, b: seq<T>, le: (T, T) -> bool, x: T)
    ensures RankClass(a + b, le, x) == RankClass(a, le, x) + RankClass(b, le, x)
    decreases |b|
  {
    if |b| == 0 {
      assert a + b == a;
    } else {
      var b' := b[..|b| - 1];
      assert (a + b)[..|a + b| - 1] == a + b';
      RankClassConcat(a, b', le, x);
    }
  }

  // ---------------------------------------------------------------------------
  // Stable insertion sort
  // ---------------------------------------------------------------------------

  /** Places `x` after every element of `s` that is not greater than it,
      searching from the back. */
  function Insert<T>(s: seq<T>, x: T, le: (T, T) -> bool): (r: seq<T>)
    ensures |r| == |s| + 1
    ensures multiset(r) == multiset(s) + multiset{x}
  {
    if |s| == 0 then [x]
    else if le(s[|s| - 1], x) then s + [x]
    else
      var init := s[..|s| - 1];
      assert s == init + [s[|s| - 1]];
      Insert(init, x, le) + [s[|s| - 1]]
  }

  /** Python's stable `sort`: each element, in input order, inserted into the
      sorted prefix. */
  function Sort<T>(s: seq<T>, le: (T, T) -> bool): (r: seq<T>)
    ensures |r| == |s|
    ensures multiset(r) == multiset(s)
  {
    if |s| == 0 then []
    else
      var init := s[..|s| - 1];
      assert s == init + [s[|s| - 1]];
      Insert(Sort(init, le), s[|s| - 1], le)
  }

  /** A sorted sequence stays sorted when an element is inserted. */
  lemma {:induction false} InsertSorted<T(!new)>(s: seq<T>, x: T, le: (T, T) -> bool)
    requires IsTotalPreorder(le) && Sorted(s, le)
    ensures Sorted(Insert(s, x, le), le)
    decreases |s|
  {
    if |s| > 0 && !le(s[|s| - 1], x) {
      var init, last := s[..|s| - 1], s[|s| - 1];
      InsertSorted(init, x, le);
      var r := Insert(init, x, le);
      assert multiset(r) == multiset(init) + multiset{x};
      forall i | 0 <= i < |r| ensures le(r[i], last) {
        assert r[i] in multiset(r);
        if r[i] != x {
          assert r[i] in multiset(init);
          var k :| 0 <= k < |init| && init[k] == r[i];
          assert le(s[k], s[|s| - 1]);
        }
      }
    }
  }

  /** The result of `Sort` is sorted by `le`. */
  lemma {:induction false} SortSorted<T(!new)>(s: seq<T>, le: (T, T) -> bool)
    requires IsTotalPreorder(le)
    ensures Sorted(Sort(s, le), le)
    decreases |s|
  {
    if |s| > 0 {
      SortSorted(s[..|s| - 1], le);
      InsertSorted(Sort(s[..|s| - 1], le), s[|s| - 1], le);
    }
  }

  /** The head of a sorted sequence is not greater than any of its elements. */
  lemma SortedHead<T(!new)>(s: seq<T>, le: (T, T) -> bool, x: T)
    requires IsTotalPreorder(le) && Sorted(s, le) && x in s
    ensures le(s[0], x)
  {
    var j :| 0 <= j < |s| && s[j] == x;
    if j == 0 {
      assert le(x, x) || le(x, x);
    }
  }

  /** One step of `RankClass`: the class of a sequence grown by one element. */
  lemma RankClassSnoc<T>(s: seq<T>, z: T, le: (T, T) -> bool, x: T)
    ensures RankClass(s + [z], le, x) == RankClass(s, le, x) + (if SameRank(le, x, z) then [z] else [])
  {
    assert (s + [z])[..|s|] == s;
  }

  /** Two elements of the rank of `x` are never strictly out of order. */
  lemma SameRankNotGreater<T(!new)>(le: (T, T) -> bool, x: T, y: T, z: T)
    requires IsTotalPreorder(le) && SameRank(le, x, y) && SameRank(le, x, z)
    ensures le(z, y)
  {
  }

  /** Inserting into a sorted sequence puts `x` behind every element of the
      same rank. */
  lemma {:induction false} InsertStable<T(!new)>(s: seq<T>, y: T, le: (T, T) -> bool, x: T)
    requires IsTotalPreorder(le) && Sorted(s, le)
    ensures RankClass(Insert(s, y, le), le, x) == RankClass(s + [y], le, x)
    decreases |s|
  {
    if |s| > 0 && !le(s[|s| - 1], y) {
      var init, last := s[..|s| - 1], s[|s| - 1];
      assert s == init + [last];
      var Y := if SameRank(le, x, y) then [y] else [];
      var L := if SameRank(le, x, last) then [last] else [];
      if SameRank(le, x, y) && SameRank(le, x, last) {
        SameRankNotGreater(le, x, y, last);
      }
      calc {
        RankClass(Insert(s, y, le), le, x);
        RankClass(Insert(init, y, le) + [last], le, x);
        { RankClassSnoc(Insert(init, y, le), last, le, x); }
        RankClass(Insert(init, y, le), le, x) + L;
        { InsertStable(init, y, le, x); RankClassSnoc(init, y, le, x); }
        RankClass(init, le, x) + Y + L;
        { assert Y == [] || L == []; }
        RankClass(init, le, x) + L + Y;
        { RankClassSnoc(init, last, le, x); }
        RankClass(s, le, x) + Y;
        { RankClassSnoc(s, y, le, x); }
        RankClass(s + [y], le, x);
      }
    }
  }

  /** `Sort` is stable: elements of one rank keep their input order. */
  lemma {:induction false} SortStable<T(!new)>(s: seq<T>, le: (T, T) -> bool, x: T)
    requires IsTotalPreorder(le)
    ensures RankClass(Sort(s, le), le, x) == RankClass(s, le, x)
    decreases |s|
  {
    if |s| > 0 {
      var init, last := s[..|s| - 1], s[|s| - 1];
      assert s == init + [last];
      calc {
        RankClass(Sort(s, le), le, x);
        RankClass(Insert(Sort(init, le), last, le), le, x);
        { SortSorted(init, le); InsertStable(Sort(init, le), last, le, x); }
        RankClass(Sort(init, le) + [last], le, x);
        { RankClassSnoc(Sort(init, le), last, le, x); SortStable(init, le, x); RankClassSnoc(init, last, le, x); }
        RankClass(s, le, x);
      }
    }
  }

  // ---------------------------------------------------------------------------
  // String order
  // ---------------------------------------------------------------------------

  /** Python's `<=` on strings: code point by code point, a proper prefix
      coming first. */
  predicate StrLe(a: string, b: string) {
    |a| == 0 || (|b| > 0 && (a[0] < b[0] || (a[0] == b[0] && StrLe(a[1..], b[1..]))))
  }

  lemma {:induction false} StrLeTotal(a: string, b: string)
    ensures StrLe(a, b) || StrLe(b, a)
    decreases |a|
  {
    if |a| > 0 && |b| > 0 && a[0] == b[0] {
      StrLeTotal(a[1..], b[1..]);
    }
  }

  lemma {:induction false} StrLeTrans(a: string, b: string, c: string)
    requires StrLe(a, b) && StrLe(b, c)
    ensures StrLe(a, c)
    decreases |a|
  {
    if |a| > 0 && a[0] == b[0] && b[0] == c[0] {
      StrLeTrans(a[1..], b[1..], c[1..]);
    }
  }

  lemma {:induction false} StrLeAntisymmetric(a: string, b: string)
    requires StrLe(a, b) && StrLe(b, a)
    ensures a == b
    decreases |a|
  {
    if |a| > 0 {
      StrLeAntisymmetric(a[1..], b[1..]);
      assert a == [a[0]] + a[1..] && b == [b[0]] + b[1..];
    }
  }

  /** String comparison is a total order. */
  lemma StrLeIsTotalPreorder()
    ensures IsTotalPreorder(StrLe)
  {
    forall a, b ensures StrLe(a, b) || StrLe(b, a) {
      StrLeTotal(a, b);
    }
    forall a, b, c | StrLe(a, b) && StrLe(b, c) ensures StrLe(a, c) {
      StrLeTrans(a, b, c);
    }
  }
}
