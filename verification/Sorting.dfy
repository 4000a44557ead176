/** Rust's stable sort and stable ranking, for any total preorder.

    The library's sort is not modelled step by step. `StableSort` is what it returns:
    `StableSortIsStable` says so, and `StableOrderIsUnique` says nothing else could be. */
module Sorting {
  import opened Prelude

  ghost predicate TotalPreorder<T(!new)>(leq: (T, T) -> bool) {
    && (forall x, y :: leq(x, y) || leq(y, x))
    && (forall x, y, z :: leq(x, y) && leq(y, z) ==> leq(x, z))
  }

  ghost predicate Sorted<T(!new)>(leq: (T, T) -> bool, s: seq<T>) {
    forall i, j :: 0 <= i < j < |s| ==> leq(s[i], s[j])
  }

  function InsertInto<T>(leq: (T, T) -> bool, x: T, s: seq<T>): seq<T> {
    if s == [] then [x]
    else if leq(x, s[0]) then [x] + s
    else [s[0]] + InsertInto(leq, x, s[1..])
  }

  function StableSort<T>(leq: (T, T) -> bool, s: seq<T>): seq<T> {
    if s == [] then [] else InsertInto(leq, s[0], StableSort(leq, s[1..]))
  }

  /** The elements of `s` that rank the same as `x`, in the order `s` has them. */
  function Class<T>(leq: (T, T) -> bool, x: T, s: seq<T>): seq<T> {
    if s == [] then []
    else (if leq(x, s[0]) && leq(s[0], x) then [s[0]] else []) + Class(leq, x, s[1..])
  }

  lemma {:induction false} InsertIntoMembers<T>(leq: (T, T) -> bool, x: T, s: seq<T>)
    ensures multiset(InsertInto(leq, x, s)) == multiset(s) + multiset{x}
  {
    if s != [] && !leq(x, s[0]) {
      InsertIntoMembers(leq, x, s[1..]);
      assert s == [s[0]] + s[1..];
    }
  }

  lemma {:induction false} InsertIntoSorted<T(!new)>(leq: (T, T) -> bool, x: T, s: seq<T>)
    requires TotalPreorder(leq) && Sorted(leq, s)
    ensures Sorted(leq, InsertInto(leq, x, s))
  {
    if s != [] && !leq(x, s[0]) {
      var t := InsertInto(leq, x, s[1..]);
      InsertIntoSorted(leq, x, s[1..]);
      InsertIntoMembers(leq, x, s[1..]);
      forall j | 0 <= j < |t|
        ensures leq(s[0], t[j])
      {
        assert t[j] in multiset(t);
        assert t[j] == x || t[j] in s[1..];
      }
    } else if s != [] {
      assert leq(s[0], s[0]);
    }
  }

  lemma ClassCons<T>(leq: (T, T) -> bool, y: T, x: T, s: seq<T>)
    ensures Class(leq, y, [x] + s) == (if leq(y, x) && leq(x, y) then [x] else []) + Class(leq, y, s)
  {
    assert ([x] + s)[1..] == s;
  }

  /** Insertion puts `x` before its equals and disturbs no class. */
  lemma {:induction false} InsertIntoStable<T(!new)>(leq: (T, T) -> bool, x: T, s: seq<T>, y: T)
    requires TotalPreorder(leq)
    ensures Class(leq, y, InsertInto(leq, x, s)) == Class(leq, y, [x] + s)
  {
    if s != [] && !leq(x, s[0]) {
      var rest := s[1..];
      InsertIntoStable(leq, x, rest, y);
      ClassCons(leq, y, s[0], InsertInto(leq, x, rest));
      ClassCons(leq, y, x, rest);
      ClassCons(leq, y, x, s);
      assert InsertInto(leq, x, s) == [s[0]] + InsertInto(leq, x, rest);
      assert Class(leq, y, s) == (if leq(y, s[0]) && leq(s[0], y) then [s[0]] else []) + Class(leq, y, rest);
      assert leq(x, y) ==> !leq(y, s[0]);
    }
  }

  lemma {:induction false} StableSortIsStable<T(!new)>(leq: (T, T) -> bool, s: seq<T>)
    requires TotalPreorder(leq)
    ensures Sorted(leq, StableSort(leq, s))
    ensures multiset(StableSort(leq, s)) == multiset(s)
    ensures |StableSort(leq, s)| == |s|
    ensures forall x :: Class(leq, x, StableSort(leq, s)) == Class(leq, x, s)
  {
    if s != [] {
      var rest := StableSort(leq, s[1..]);
      StableSortIsStable(leq, s[1..]);
      InsertIntoSorted(leq, s[0], rest);
      InsertIntoMembers(leq, s[0], rest);
      assert s == [s[0]] + s[1..];
      forall x
        ensures Class(leq, x, StableSort(leq, s)) == Class(leq, x, s)
      {
        InsertIntoStable(leq, s[0], rest, x);
        ClassCons(leq, x, s[0], rest);
      }
      assert |StableSort(leq, s)| == |multiset(StableSort(leq, s))|;
    }
  }

  lemma SameClassesSameEmptiness<T(!new)>(leq: (T, T) -> bool, s: seq<T>, t: seq<T>)
    requires TotalPreorder(leq)
    requires forall x :: Class(leq, x, s) == Class(leq, x, t)
    ensures s == [] ==> t == []
  {
    if t != [] {
      assert Class(leq, t[0], t) != [];
      ClassMember(leq, t[0], s);
    }
  }

  /** Two ranked sequences that agree on every class of equals are the same sequence. */
  lemma {:induction false} StableOrderIsUnique<T(!new)>(leq: (T, T) -> bool, s: seq<T>, t: seq<T>)
    requires TotalPreorder(leq) && Sorted(leq, s) && Sorted(leq, t)
    requires forall x :: Class(leq, x, s) == Class(leq, x, t)
    ensures s == t
  {
    SameClassesSameEmptiness(leq, s, t);
    SameClassesSameEmptiness(leq, t, s);
    if s != [] {
      var x := s[0];
      assert Class(leq, x, s)[0] == x;
      ClassMember(leq, x, t);
      assert Class(leq, t[0], t)[0] == t[0];
      ClassMember(leq, t[0], s);
      assert leq(x, t[0]) && leq(t[0], x);
      assert Class(leq, x, t)[0] == t[0];
      forall y
        ensures Class(leq, y, s[1..]) == Class(leq, y, t[1..])
      {
        assert Class(leq, y, s) == Class(leq, y, t);
        var skip := if leq(y, x) && leq(x, y) then 1 else 0;
        assert Class(leq, y, s)[skip..] == Class(leq, y, s[1..]);
        assert Class(leq, y, t)[skip..] == Class(leq, y, t[1..]);
      }
      StableOrderIsUnique(leq, s[1..], t[1..]);
    }
  }

  lemma {:induction false} ClassMember<T>(leq: (T, T) -> bool, x: T, s: seq<T>)
    ensures Class(leq, x, s) != [] ==> exists i :: 0 <= i < |s| && leq(x, s[i]) && leq(s[i], x)
  {
    if s != [] {
      if !(leq(x, s[0]) && leq(s[0], x)) {
        ClassMember(leq, x, s[1..]);
        if Class(leq, x, s) != [] {
          var i :| 0 <= i < |s[1..]| && leq(x, s[1..][i]) && leq(s[1..][i], x);
          assert s[i + 1] == s[1..][i];
        }
      }
    }
  }

  lemma SortedIsFixed<T(!new)>(leq: (T, T) -> bool, s: seq<T>)
    requires TotalPreorder(leq) && Sorted(leq, s)
    ensures StableSort(leq, s) == s
  {
    StableSortIsStable(leq, s);
    StableOrderIsUnique(leq, s, StableSort(leq, s));
  }

  // ---- the sort as a reordering of positions ----

  /** Element `a` of `s` goes before element `b`: it ranks first, or is its equal and came first. */
  ghost predicate GoesFirst<T>(leq: (T, T) -> bool, s: seq<T>, a: nat, b: nat)
    requires a < |s| && b < |s|
  {
    leq(s[a], s[b]) && (leq(s[b], s[a]) ==> a < b)
  }

  /** All positions of `s`, each going before those that follow it. */
  ghost predicate IsOrder<T>(leq: (T, T) -> bool, s: seq<T>, order: seq<nat>) {
    && |order| == |s|
    && (forall i :: 0 <= i < |order| ==> order[i] < |s|)
    && (forall k :: 0 <= k < |s| ==> k in order)
    && (forall i, j :: 0 <= i < j < |order| ==> GoesFirst(leq, s, order[i], order[j]))
  }

  ghost predicate Reordered<T>(s: seq<T>, order: seq<nat>, t: seq<T>) {
    |t| == |order| && forall i :: 0 <= i < |t| ==> order[i] < |s| && t[i] == s[order[i]]
  }

  lemma {:induction false} InsertIntoAt<T>(leq: (T, T) -> bool, x: T, s: seq<T>) returns (p: nat)
    ensures p <= |s| && InsertInto(leq, x, s) == s[..p] + [x] + s[p..]
    ensures forall i :: 0 <= i < p ==> !leq(x, s[i])
    ensures p < |s| ==> leq(x, s[p])
  {
    if s == [] || leq(x, s[0]) {
      p := 0;
      assert s[..0] + [x] + s[0..] == [x] + s;
    } else {
      var rest := s[1..];
      p := InsertIntoAt(leq, x, rest);
      forall i | 0 <= i < p + 1
        ensures !leq(x, s[i])
      {
        assert i > 0 ==> s[i] == rest[i - 1];
      }
      p := p + 1;
      assert s[..p] == [s[0]] + rest[..p - 1] && s[p..] == rest[p - 1..];
    }
  }

  /** The order of `rest` with one more element in front of it, which is inserted at `p`. */
  ghost function OrderWith(order: seq<nat>, p: nat): (r: seq<nat>)
    requires p <= |order|
    ensures |r| == |order| + 1
    ensures forall i :: 0 <= i < |r| ==> r[i] == if i < p then order[i] + 1 else if i == p then 0 else order[i - 1] + 1
  {
    seq(|order| + 1, i requires 0 <= i < |order| + 1 =>
      if i < p then order[i] + 1 else if i == p then 0 else order[i - 1] + 1)
  }

  lemma OrderWithHasAll(order: seq<nat>, p: nat, n: nat)
    requires p <= |order| && forall k :: 0 <= k < n ==> k in order
    ensures forall k :: 0 <= k < n + 1 ==> k in OrderWith(order, p)
  {
    var r := OrderWith(order, p);
    forall k | 0 <= k < n + 1
      ensures k in r
    {
      if k == 0 {
        assert r[p] == 0;
      } else {
        assert k - 1 in order;
        var i :| 0 <= i < |order| && order[i] == k - 1;
        assert r[if i < p then i else i + 1] == k;
      }
    }
  }

  lemma OrderWithIsOrder<T(!new)>(leq: (T, T) -> bool, s: seq<T>, order: seq<nat>, t: seq<T>, p: nat)
    requires TotalPreorder(leq) && s != []
    requires IsOrder(leq, s[1..], order) && Reordered(s[1..], order, t) && p <= |t|
    requires forall i :: 0 <= i < p ==> !leq(s[0], t[i])
    requires p < |t| ==> leq(s[0], t[p])
    ensures IsOrder(leq, s, OrderWith(order, p))
    ensures Reordered(s, OrderWith(order, p), t[..p] + [s[0]] + t[p..])
  {
    var r, rest := OrderWith(order, p), s[1..];
    OrderWithHasAll(order, p, |rest|);
    forall i, j | 0 <= i < j < |r|
      ensures GoesFirst(leq, s, r[i], r[j])
    {
      var a, b := if i < p then i else i - 1, if j < p then j else j - 1;
      if i != p && j != p {
        assert GoesFirst(leq, rest, order[a], order[b]);
      } else if j == p {
        assert t[i] == rest[order[i]] == s[r[i]];
      } else {
        assert t[b] == rest[order[b]] == s[r[j]];
        assert p < b ==> GoesFirst(leq, rest, order[p], order[b]);
      }
    }
  }

  /** Sorting puts the positions in order: higher ranks first, equals as they came. */
  lemma {:induction false} StableSortOrder<T(!new)>(leq: (T, T) -> bool, s: seq<T>) returns (order: seq<nat>)
    requires TotalPreorder(leq)
    ensures IsOrder(leq, s, order) && Reordered(s, order, StableSort(leq, s))
  {
    if s == [] {
      order := [];
    } else {
      order := StableSortOrder(leq, s[1..]);
      var t := StableSort(leq, s[1..]);
      var p := InsertIntoAt(leq, s[0], t);
      OrderWithIsOrder(leq, s, order, t, p);
      order := OrderWith(order, p);
    }
  }

  // ---- merging ranked sequences ----

  /** Stable merge: the left sequence goes first among equals. */
  function Merge<T>(leq: (T, T) -> bool, x: seq<T>, y: seq<T>): seq<T>
    decreases |x| + |y|
  {
    if x == [] then y
    else if y == [] then x
    else if leq(x[0], y[0]) then [x[0]] + Merge(leq, x[1..], y)
    else [y[0]] + Merge(leq, x, y[1..])
  }

  lemma {:induction false} InsertIntoMerge<T(!new)>(leq: (T, T) -> bool, a: T, x: seq<T>, y: seq<T>)
    requires TotalPreorder(leq)
    ensures InsertInto(leq, a, Merge(leq, x, y)) == Merge(leq, InsertInto(leq, a, x), y)
    decreases |x| + |y|
  {
    if y != [] && (x == [] || leq(a, x[0])) {
      var ax := [a] + x;
      assert ax[1..] == x && InsertInto(leq, a, x) == ax;
      if !leq(a, y[0]) {
        InsertIntoMerge(leq, a, x, y[1..]);
      }
    } else if y != [] {
      var ax := InsertInto(leq, a, x);
      assert ax[0] == x[0] && ax[1..] == InsertInto(leq, a, x[1..]);
      if leq(x[0], y[0]) {
        InsertIntoMerge(leq, a, x[1..], y);
      } else {
        InsertIntoMerge(leq, a, x, y[1..]);
      }
    }
  }

  /** Sorting a concatenation is merging the sorted parts. */
  lemma {:induction false} SortOfConcat<T(!new)>(leq: (T, T) -> bool, x: seq<T>, y: seq<T>)
    requires TotalPreorder(leq)
    ensures StableSort(leq, x + y) == Merge(leq, StableSort(leq, x), StableSort(leq, y))
  {
    if x == [] {
      assert x + y == y;
    } else {
      SortOfConcat(leq, x[1..], y);
      assert (x + y)[0] == x[0] && (x + y)[1..] == x[1..] + y;
      InsertIntoMerge(leq, x[0], StableSort(leq, x[1..]), StableSort(leq, y));
    }
  }

  /** The first `n` of a merge only need the first `n` of either side. */
  lemma {:induction false} TakeOfMerge<T>(leq: (T, T) -> bool, x: seq<T>, y: seq<T>, n: nat, i: nat, j: nat)
    requires n <= i && n <= j
    ensures Take(Merge(leq, x, y), n) == Take(Merge(leq, Take(x, i), Take(y, j)), n)
    decreases |x| + |y|
  {
    var xi, yj := Take(x, i), Take(y, j);
    if n > 0 && x != [] && y != [] {
      if leq(x[0], y[0]) {
        assert xi[0] == x[0] && xi[1..] == Take(x[1..], i - 1);
        assert Merge(leq, xi, yj) == [x[0]] + Merge(leq, xi[1..], yj);
        TakeOfMerge(leq, x[1..], y, n - 1, i - 1, j);
        TakeCons(x[0], Merge(leq, x[1..], y), n);
        TakeCons(x[0], Merge(leq, xi[1..], yj), n);
      } else {
        assert yj[0] == y[0] && yj[1..] == Take(y[1..], j - 1);
        assert Merge(leq, xi, yj) == [y[0]] + Merge(leq, xi, yj[1..]);
        TakeOfMerge(leq, x, y[1..], n - 1, i, j - 1);
        TakeCons(y[0], Merge(leq, x, y[1..]), n);
        TakeCons(y[0], Merge(leq, xi, yj[1..]), n);
      }
    }
  }

  lemma TakeCons<T>(x: T, s: seq<T>, n: nat)
    requires n > 0
    ensures Take([x] + s, n) == [x] + Take(s, n - 1)
  {
  }
}
