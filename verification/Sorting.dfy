/** The in-place merge sort over index references. */
module Sorting {

  type Less = (int, int) -> bool

  /** A strict weak order on the given elements. */
  ghost predicate WeakOrder(less: Less, elements: seq<int>) {
    && (forall x, y :: x in elements && y in elements ==> !(less(x, y) && less(y, x)))
    && (forall x, y, z :: x in elements && y in elements && z in elements && !less(y, x) && !less(z, y) ==> !less(z, x))
  }

  ghost predicate Sorted(less: Less, s: seq<int>) {
    forall i, j :: 0 <= i < j < |s| ==> !less(s[j], s[i])
  }

  ghost predicate Tied(less: Less, x: int, y: int) {
    !less(x, y) && !less(y, x)
  }

  /** The elements of s that tie with x, in their order. */
  ghost function TiedWith(less: Less, x: int, s: seq<int>): (r: seq<int>) {
    if s == [] then [] else (if Tied(less, x, s[0]) then [s[0]] else []) + TiedWith(less, x, s[1..])
  }

  /** A sorted rearrangement in which tied elements keep their order. */
  ghost predicate StableSort(less: Less, before: seq<int>, after: seq<int>) {
    && multiset(after) == multiset(before)
    && Sorted(less, after)
    && forall x :: x in before ==> TiedWith(less, x, after) == TiedWith(less, x, before)
  }

  // ---- the algorithm as a function ----

  ghost function Merge(less: Less, a: seq<int>, b: seq<int>): (r: seq<int>)
    ensures |r| == |a| + |b|
    decreases |a| + |b|
  {
    if a != [] && (b == [] || !less(b[0], a[0])) then [a[0]] + Merge(less, a[1..], b)
    else if b != [] then [b[0]] + Merge(less, a, b[1..])
    else []
  }

  ghost function MergeSorted(less: Less, s: seq<int>): (r: seq<int>)
    ensures |r| == |s|
    decreases |s|
  {
    if |s| < 2 then s
    else Merge(less, MergeSorted(less, s[..|s| / 2]), MergeSorted(less, s[|s| / 2..]))
  }

  // ---- what it computes ----

  lemma {:induction false} MergeElements(less: Less, a: seq<int>, b: seq<int>)
    ensures multiset(Merge(less, a, b)) == multiset(a) + multiset(b)
    decreases |a| + |b|
  {
    if a != [] && (b == [] || !less(b[0], a[0])) {
      MergeElements(less, a[1..], b);
      assert a == [a[0]] + a[1..];
    } else if b != [] {
      MergeElements(less, a, b[1..]);
      assert b == [b[0]] + b[1..];
    }
  }

  lemma MergeMember(less: Less, a: seq<int>, b: seq<int>, x: int)
    ensures x in Merge(less, a, b) <==> x in a || x in b
  {
    MergeElements(less, a, b);
    assert x in Merge(less, a, b) <==> x in multiset(Merge(less, a, b));
    assert x in a || x in b <==> x in multiset(a) + multiset(b);
  }

  ghost predicate NoneBelow(less: Less, x: int, s: seq<int>) {
    forall y :: y in s ==> !less(y, x)
  }

  lemma SortedCons(less: Less, x: int, s: seq<int>)
    requires NoneBelow(less, x, s) && Sorted(less, s)
    ensures Sorted(less, [x] + s)
  {
    var t := [x] + s;
    forall i, j | 0 <= i < j < |t|
      ensures !less(t[j], t[i])
    {
      assert t[j] == s[j - 1] && s[j - 1] in s;
    }
  }

  lemma {:induction false} MergeSortedness(less: Less, a: seq<int>, b: seq<int>)
    requires WeakOrder(less, a + b) && Sorted(less, a) && Sorted(less, b)
    ensures Sorted(less, Merge(less, a, b))
    decreases |a| + |b|
  {
    if a != [] && (b == [] || !less(b[0], a[0])) {
      SubOrder(less, a + b, a[1..] + b);
      MergeSortedness(less, a[1..], b);
      forall y | y in Merge(less, a[1..], b)
        ensures !less(y, a[0])
      {
        MergeMember(less, a[1..], b, y);
        HeadFirst(less, a, b, a[0], y);
      }
      SortedCons(less, a[0], Merge(less, a[1..], b));
    } else if b != [] {
      SubOrder(less, a + b, a + b[1..]);
      MergeSortedness(less, a, b[1..]);
      forall y | y in Merge(less, a, b[1..])
        ensures !less(y, b[0])
      {
        MergeMember(less, a, b[1..], y);
        HeadFirst(less, a, b, b[0], y);
      }
      SortedCons(less, b[0], Merge(less, a, b[1..]));
    }
  }

  lemma SubOrder(less: Less, s: seq<int>, t: seq<int>)
    requires WeakOrder(less, s) && forall x :: x in t ==> x in s
    ensures WeakOrder(less, t)
  {
  }

  /** Not above is transitive. */
  lemma NotAbove(less: Less, s: seq<int>, x: int, y: int, z: int)
    requires WeakOrder(less, s) && x in s && y in s && z in s
    requires !less(y, x) && !less(z, y)
    ensures !less(z, x)
  {
  }

  lemma FirstIsLeast(less: Less, s: seq<int>, y: int)
    requires WeakOrder(less, s) && Sorted(less, s) && y in s
    ensures !less(y, s[0])
  {
    var i :| 0 <= i < |s| && s[i] == y;
    assert s[0] in s;
  }

  /** The element that merging takes first has nothing below it. */
  lemma HeadFirst(less: Less, a: seq<int>, b: seq<int>, x: int, y: int)
    requires WeakOrder(less, a + b) && Sorted(less, a) && Sorted(less, b)
    requires y in a || y in b
    requires || (a != [] && x == a[0] && (b == [] || !less(b[0], x)))
             || (b != [] && x == b[0] && (a == [] || less(x, a[0])))
    ensures !less(y, x)
  {
    assert forall z :: z in a + b <==> z in a || z in b;
    SubOrder(less, a + b, a);
    SubOrder(less, a + b, b);
    if y in a {
      FirstIsLeast(less, a, y);
      assert a[0] in a;
      NotAbove(less, a + b, x, a[0], y);
    } else {
      FirstIsLeast(less, b, y);
      assert b[0] in b;
      NotAbove(less, a + b, x, b[0], y);
    }
  }

  lemma {:induction false} TiedConcat(less: Less, x: int, a: seq<int>, b: seq<int>)
    ensures TiedWith(less, x, a + b) == TiedWith(less, x, a) + TiedWith(less, x, b)
  {
    hide Tied;
    if a == [] {
      assert a + b == b;
    } else {
      TiedConcat(less, x, a[1..], b);
      var rest := TiedWith(less, x, a[1..]);
      assert (a + b)[1..] == a[1..] + b && (a + b)[0] == a[0];
      var head := if Tied(less, x, a[0]) then [a[0]] else [];
      assert TiedWith(less, x, a) == head + rest;
      assert head + (rest + TiedWith(less, x, b)) == (head + rest) + TiedWith(less, x, b);
    }
  }

  lemma {:induction false} TiedEmpty(less: Less, x: int, s: seq<int>)
    requires forall y :: y in s ==> !Tied(less, x, y)
    ensures TiedWith(less, x, s) == []
  {
    if s == [] {
    } else {
      assert s[0] in s;
      TiedEmpty(less, x, s[1..]);
    }
  }

  lemma {:induction false} MergeStable(less: Less, a: seq<int>, b: seq<int>, x: int)
    requires WeakOrder(less, a + b + [x]) && Sorted(less, a) && Sorted(less, b)
    ensures TiedWith(less, x, Merge(less, a, b)) == TiedWith(less, x, a) + TiedWith(less, x, b)
    decreases |a| + |b|
  {
    if a != [] && (b == [] || !less(b[0], a[0])) {
      SubOrder(less, a + b + [x], a[1..] + b + [x]);
      MergeStable(less, a[1..], b, x);
      assert Merge(less, a, b)[1..] == Merge(less, a[1..], b);
    } else if b != [] {
      SubOrder(less, a + b + [x], a + b[1..] + [x]);
      MergeStable(less, a, b[1..], x);
      assert Merge(less, a, b)[1..] == Merge(less, a, b[1..]);
      if a != [] && Tied(less, x, b[0]) {
        RightHeadBeatsLeft(less, a, b, x);
        TiedEmpty(less, x, a);
      }
    }
  }

  /** When the right head is strictly first, nothing on the left ties with it. */
  lemma RightHeadBeatsLeft(less: Less, a: seq<int>, b: seq<int>, x: int)
    requires WeakOrder(less, a + b + [x]) && Sorted(less, a) && a != [] && b != []
    requires less(b[0], a[0]) && Tied(less, x, b[0])
    ensures forall y :: y in a ==> !Tied(less, x, y)
  {
    var all := a + b + [x];
    assert forall z :: z in all <==> z in a || z in b || z == x;
    SubOrder(less, all, a);
    assert a[0] in a && b[0] in b;
    forall y | y in a
      ensures !Tied(less, x, y)
    {
      FirstIsLeast(less, a, y);
      if !less(x, y) {
        NotAbove(less, all, y, x, b[0]);
        NotAbove(less, all, a[0], y, b[0]);
      }
    }
  }

  lemma {:induction false} MergeSortedIsStable(less: Less, s: seq<int>)
    requires WeakOrder(less, s)
    ensures StableSort(less, s, MergeSorted(less, s))
    decreases |s|
  {
    hide Merge, WeakOrder, Sorted, TiedWith;
    if |s| >= 2 {
      var left, right := s[..|s| / 2], s[|s| / 2..];
      assert s == left + right;
      SubOrder(less, s, left);
      SubOrder(less, s, right);
      MergeSortedIsStable(less, left);
      MergeSortedIsStable(less, right);
      MergeIsStable(less, left, right, MergeSorted(less, left), MergeSorted(less, right));
    } else {
      SingleSorted(less, s);
    }
  }

  lemma SingleSorted(less: Less, s: seq<int>)
    requires |s| < 2
    ensures Sorted(less, s)
  {
  }

  /** Merging two stable halves sorts their concatenation stably. */
  lemma MergeIsStable(less: Less, left: seq<int>, right: seq<int>, a: seq<int>, b: seq<int>)
    requires WeakOrder(less, left + right) && StableSort(less, left, a) && StableSort(less, right, b)
    ensures StableSort(less, left + right, Merge(less, a, b))
  {
    hide Merge, WeakOrder, Sorted, TiedWith;
    var s := left + right;
    MergeElements(less, a, b);
    SameMembers(a, left);
    SameMembers(b, right);
    assert forall z :: z in s <==> z in left || z in right;
    assert forall z :: z in a + b <==> z in a || z in b;
    SubOrder(less, s, a + b);
    MergeSortedness(less, a, b);
    forall x | x in s
      ensures TiedWith(less, x, Merge(less, a, b)) == TiedWith(less, x, s)
    {
      SubOrder(less, s, a + b + [x]);
      MergeStable(less, a, b, x);
      TiedConcat(less, x, left, right);
      SubOrder(less, s, left + [x]);
      SubOrder(less, s, right + [x]);
      HalfStable(less, left, a, x);
      HalfStable(less, right, b, x);
    }
  }

  /** A stable half keeps the elements tied with any x, whether or not x lies in that half. */
  lemma {:induction false} HalfStable(less: Less, half: seq<int>, sorted: seq<int>, x: int)
    requires StableSort(less, half, sorted) && WeakOrder(less, half + [x])
    ensures TiedWith(less, x, sorted) == TiedWith(less, x, half)
  {
    SameMembers(sorted, half);
    if exists y :: y in half && Tied(less, x, y) {
      var y :| y in half && Tied(less, x, y);
      TiedExchange(less, x, y, half, half + [x]);
      TiedExchange(less, x, y, sorted, half + [x]);
    } else {
      TiedEmpty(less, x, half);
      TiedEmpty(less, x, sorted);
    }
  }

  lemma {:induction false} TiedExchange(less: Less, x: int, y: int, s: seq<int>, all: seq<int>)
    requires WeakOrder(less, all) && x in all && y in all && Tied(less, x, y)
    requires forall z :: z in s ==> z in all
    ensures TiedWith(less, x, s) == TiedWith(less, y, s)
  {
    if s == [] {
    } else {
      var head := s[0];
      assert head in s;
      assert head in all;
      TiedExchange(less, x, y, s[1..], all);
      TiedSame(less, x, y, head, all);
    }
  }

  lemma TiedSame(less: Less, x: int, y: int, z: int, all: seq<int>)
    requires WeakOrder(less, all) && x in all && y in all && z in all && Tied(less, x, y)
    ensures Tied(less, x, z) == Tied(less, y, z)
  {
  }

  lemma SameMembers(a: seq<int>, b: seq<int>)
    requires multiset(a) == multiset(b)
    ensures forall x :: x in a <==> x in b
  {
    assert forall x :: x in a <==> x in multiset(a);
    assert forall x :: x in b <==> x in multiset(b);
  }

  // ---- where the elements go ----

  function Iota(n: nat): (s: seq<int>)
    ensures |s| == n && forall i :: 0 <= i < n ==> s[i] == i
  {
    seq(n, i => i)
  }

  /** A rearrangement of 0 .. n-1 holds every number at one position. */
  lemma OnceEach(order: seq<int>, n: nat)
    requires multiset(order) == multiset(Iota(n)) && |order| == n
    ensures forall a, b :: 0 <= a < b < n ==> order[a] != order[b]
    ensures forall j :: 0 <= j < n ==> j in order
  {
    SameMembers(order, Iota(n));
    forall j | 0 <= j < n
      ensures j in order
    {
      assert Iota(n)[j] == j;
    }
    forall a, b | 0 <= a < b < n
      ensures order[a] != order[b]
    {
      if order[a] == order[b] {
        OnceInIota(n, order[a]);
        TwiceCounted(order, a, b);
      }
    }
  }

  lemma {:induction false} OnceInIota(n: nat, x: int)
    ensures multiset(Iota(n))[x] <= 1
  {
    if n == 0 {
      assert Iota(0) == [];
    } else {
      OnceInIota(n - 1, x);
      assert Iota(n) == Iota(n - 1) + [n - 1];
      assert x !in Iota(n - 1) || x < n - 1;
    }
  }

  lemma TwiceCounted(s: seq<int>, a: nat, b: nat)
    requires a < b < |s| && s[a] == s[b]
    ensures multiset(s)[s[a]] >= 2
  {
    assert s == s[..a] + [s[a]] + s[a + 1..b] + [s[b]] + s[b + 1..];
  }

  ghost function OnPlaces(less: Less, s: seq<int>): (r: Less) {
    (a: int, b: int) => 0 <= a < |s| && 0 <= b < |s| && less(s[a], s[b])
  }

  ghost predicate InRange(at: seq<int>, n: nat) {
    forall i :: 0 <= i < |at| ==> 0 <= at[i] < n
  }

  ghost function Picked(s: seq<int>, at: seq<int>): (r: seq<int>)
    requires InRange(at, |s|)
    ensures |r| == |at| && forall i :: 0 <= i < |at| ==> r[i] == s[at[i]]
  {
    seq(|at|, i requires 0 <= i < |at| => s[at[i]])
  }

  lemma {:induction false} MergePicked(less: Less, s: seq<int>, a: seq<int>, b: seq<int>)
    requires InRange(a, |s|) && InRange(b, |s|)
    ensures InRange(Merge(OnPlaces(less, s), a, b), |s|)
    ensures Picked(s, Merge(OnPlaces(less, s), a, b)) == Merge(less, Picked(s, a), Picked(s, b))
    decreases |a| + |b|
  {
    var places := OnPlaces(less, s);
    assert a != [] && b != [] ==> places(b[0], a[0]) == less(s[b[0]], s[a[0]]);
    hide OnPlaces, Merge, InRange, Picked;
    MergeStart(places, a, b);
    MergeStart(less, Picked(s, a), Picked(s, b));
    PickedEnds(s, a);
    PickedEnds(s, b);
    if a != [] && (b == [] || !places(b[0], a[0])) {
      MergePicked(less, s, a[1..], b);
      PickedCons(s, a[0], Merge(places, a[1..], b));
    } else if b != [] {
      MergePicked(less, s, a, b[1..]);
      PickedCons(s, b[0], Merge(places, a, b[1..]));
    } else {
      PickedEnds(s, Merge(places, a, b));
    }
  }

  lemma PickedEnds(s: seq<int>, at: seq<int>)
    requires at == [] || InRange(at, |s|)
    ensures InRange(at, |s|) && |Picked(s, at)| == |at|
    ensures at != [] ==>
      && 0 <= at[0] < |s| && Picked(s, at)[0] == s[at[0]]
      && InRange(at[1..], |s|) && Picked(s, at)[1..] == Picked(s, at[1..])
  {
    if at != [] {
      assert Picked(s, at)[1..] == Picked(s, at[1..]);
    }
  }

  lemma PickedCons(s: seq<int>, x: int, at: seq<int>)
    requires 0 <= x < |s| && InRange(at, |s|)
    ensures InRange([x] + at, |s|) && Picked(s, [x] + at) == [s[x]] + Picked(s, at)
  {
    assert Picked(s, [x] + at) == [s[x]] + Picked(s, at);
  }

  /** The element that merging takes first. */
  lemma MergeStart(less: Less, a: seq<int>, b: seq<int>)
    ensures Merge(less, a, b)
            == if a != [] && (b == [] || !less(b[0], a[0])) then [a[0]] + Merge(less, a[1..], b)
               else if b != [] then [b[0]] + Merge(less, a, b[1..])
               else []
  {
  }

  lemma {:induction false} SortPicked(less: Less, s: seq<int>, at: seq<int>)
    requires InRange(at, |s|)
    ensures InRange(MergeSorted(OnPlaces(less, s), at), |s|)
    ensures Picked(s, MergeSorted(OnPlaces(less, s), at)) == MergeSorted(less, Picked(s, at))
    decreases |at|
  {
    hide Merge, OnPlaces;
    if |at| < 2 {
    } else {
      var left, right := at[..|at| / 2], at[|at| / 2..];
      SortPicked(less, s, left);
      SortPicked(less, s, right);
      assert Picked(s, at)[..|at| / 2] == Picked(s, left) && Picked(s, at)[|at| / 2..] == Picked(s, right);
      MergePicked(less, s, MergeSorted(OnPlaces(less, s), left), MergeSorted(OnPlaces(less, s), right));
    }
  }

  /** Tied elements appear among the tied elements in their order. */
  lemma {:induction false} TiedPlaces(less: Less, x: int, s: seq<int>, i: nat, j: nat) returns (p: nat, q: nat)
    requires i < j < |s| && Tied(less, x, s[i]) && Tied(less, x, s[j])
    ensures p < q < |TiedWith(less, x, s)|
    ensures TiedWith(less, x, s)[p] == s[i] && TiedWith(less, x, s)[q] == s[j]
  {
    if i == 0 {
      p := 0;
      q := TiedPlace(less, x, s[1..], j - 1);
      q := q + 1;
    } else {
      p, q := TiedPlaces(less, x, s[1..], i - 1, j - 1);
      if Tied(less, x, s[0]) {
        p, q := p + 1, q + 1;
      }
    }
  }

  lemma {:induction false} TiedPlace(less: Less, x: int, s: seq<int>, j: nat) returns (q: nat)
    requires j < |s| && Tied(less, x, s[j])
    ensures q < |TiedWith(less, x, s)| && TiedWith(less, x, s)[q] == s[j]
  {
    if j == 0 {
      q := 0;
    } else {
      q := TiedPlace(less, x, s[1..], j - 1);
      if Tied(less, x, s[0]) {
        q := q + 1;
      }
    }
  }

  lemma {:induction false} TiedIncreasing(less: Less, x: int, s: seq<int>)
    requires forall i, j :: 0 <= i < j < |s| ==> s[i] < s[j]
    ensures forall p, q :: 0 <= p < q < |TiedWith(less, x, s)| ==> TiedWith(less, x, s)[p] < TiedWith(less, x, s)[q]
    ensures forall y :: y in TiedWith(less, x, s) ==> y in s
  {
    if s == [] {
    } else {
      TiedIncreasing(less, x, s[1..]);
      var rest := TiedWith(less, x, s[1..]);
      forall p | 0 <= p < |rest|
        ensures s[0] < rest[p]
      {
        assert rest[p] in rest && rest[p] in s[1..];
        var k :| 0 <= k < |s[1..]| && s[1..][k] == rest[p];
        assert s[k + 1] == rest[p];
      }
    }
  }

  /**
   What sorting does, element by element: position i of the result holds the element from place at[i], every place is
   used once, nothing comes before something smaller, and elements of which neither is smaller keep their order.
   */
  lemma SortPlaces(less: Less, s: seq<int>) returns (at: seq<int>)
    requires WeakOrder(less, s)
    ensures |at| == |s| == |MergeSorted(less, s)|
    ensures forall i :: 0 <= i < |s| ==> 0 <= at[i] < |s| && MergeSorted(less, s)[i] == s[at[i]]
    ensures forall i, j :: 0 <= i < j < |s| ==> at[i] != at[j]
    ensures forall i, j :: 0 <= i < j < |s| ==> !less(s[at[j]], s[at[i]])
    ensures forall i, j :: 0 <= i < j < |s| && !less(s[at[i]], s[at[j]]) ==> at[i] < at[j]
  {
    hide MergeSorted, TiedWith, WeakOrder;
    var places, all := OnPlaces(less, s), Iota(|s|);
    at := MergeSorted(places, all);
    assert Picked(s, all) == s;
    SortPicked(less, s, all);
    PlacesOrder(less, s);
    MergeSortedIsStable(places, all);
    OnceEach(at, |s|);
    forall i, j | 0 <= i < j < |s| && !less(s[at[i]], s[at[j]])
      ensures at[i] < at[j]
    {
      NotBoth(less, s, s[at[i]], s[at[i]]);
      TieKeepsOrder(places, all, at, i, j);
    }
  }

  lemma PlacesOrder(less: Less, s: seq<int>)
    requires WeakOrder(less, s)
    ensures WeakOrder(OnPlaces(less, s), Iota(|s|))
  {
    var places, all := OnPlaces(less, s), Iota(|s|);
    assert forall a :: a in all ==> 0 <= a < |s| && s[a] in s;
    assert forall a, b :: a in all && b in all ==> places(a, b) == less(s[a], s[b]);
    hide OnPlaces;
    forall x, y, z | x in all && y in all && z in all && !places(y, x) && !places(z, y)
      ensures !places(z, x)
    {
      NotAbove(less, s, s[x], s[y], s[z]);
    }
    forall x, y | x in all && y in all
      ensures !(places(x, y) && places(y, x))
    {
      NotBoth(less, s, s[x], s[y]);
    }
  }

  lemma NotBoth(less: Less, s: seq<int>, x: int, y: int)
    requires WeakOrder(less, s) && x in s && y in s
    ensures !(less(x, y) && less(y, x))
  {
  }

  lemma TieKeepsOrder(less: Less, all: seq<int>, at: seq<int>, i: nat, j: nat)
    requires StableSort(less, all, at) && i < j < |at| && Tied(less, at[i], at[j]) && Tied(less, at[i], at[i])
    requires forall m, n :: 0 <= m < n < |all| ==> all[m] < all[n]
    ensures at[i] < at[j]
  {
    hide TiedWith, Sorted;
    SameMembers(at, all);
    assert at[i] in at;
    var p, q := TiedPlaces(less, at[i], at, i, j);
    TiedIncreasing(less, at[i], all);
  }

  // ---- orders that agree sort alike ----

  lemma {:induction false} MergeAgrees(less: Less, other: Less, a: seq<int>, b: seq<int>)
    requires forall x, y :: x in a + b && y in a + b ==> less(x, y) == other(x, y)
    ensures Merge(less, a, b) == Merge(other, a, b)
    decreases |a| + |b|
  {
    assert forall x :: x in a + b <==> x in a || x in b;
    if a != [] && b != [] {
      var x, y := b[0], a[0];
      assert x in b && y in a;
      assert less(x, y) == other(x, y);
    }
    if a != [] && (b == [] || !less(b[0], a[0])) {
      assert forall x :: x in a[1..] + b ==> x in a + b;
      MergeAgrees(less, other, a[1..], b);
    } else if b != [] {
      assert forall x :: x in a + b[1..] ==> x in a + b;
      MergeAgrees(less, other, a, b[1..]);
    }
  }

  lemma {:induction false} SortAgrees(less: Less, other: Less, s: seq<int>)
    requires forall x, y :: x in s && y in s ==> less(x, y) == other(x, y)
    ensures MergeSorted(less, s) == MergeSorted(other, s)
    ensures forall x :: x in MergeSorted(less, s) <==> x in s
    decreases |s|
  {
    if |s| < 2 {
    } else {
      var left, right := s[..|s| / 2], s[|s| / 2..];
      assert s == left + right;
      assert forall x :: x in s <==> x in left || x in right;
      SortAgrees(less, other, left);
      SortAgrees(less, other, right);
      var a, b := MergeSorted(less, left), MergeSorted(less, right);
      MergeElements(less, a, b);
      assert forall x :: x in Merge(less, a, b) <==> x in multiset(Merge(less, a, b));
      assert forall x :: x in multiset(a) + multiset(b) <==> x in a || x in b;
      assert forall x :: x in a + b <==> x in a || x in b;
      MergeAgrees(less, other, a, b);
    }
  }

  // ---- the algorithm in place ----

  method SortIndices(values: array<int>, less: Less)
    modifies values
    ensures values[..] == MergeSorted(less, old(values[..]))
    ensures WeakOrder(less, old(values[..])) ==> StableSort(less, old(values[..]), values[..])
  {
    hide *;
    ghost var before := values[..];
    var buffer := new int[values.Length];
    MergeRange(values, buffer, less, 0, values.Length);
    assert before[..0] + MergeSorted(less, before[0..|before|]) + before[|before|..] == MergeSorted(less, before) by {
      assert before[0..|before|] == before;
    }
    if WeakOrder(less, before) {
      MergeSortedIsStable(less, before);
    }
  }

  /** Sorts values[start .. end] through the shared buffer and leaves the rest alone. */
  method MergeRange(values: array<int>, buffer: array<int>, less: Less, start: nat, end: nat)
    requires start <= end <= values.Length && buffer.Length == values.Length && buffer != values
    modifies values, buffer
    ensures values[..] == old(values[..start]) + MergeSorted(less, old(values[start..end])) + old(values[end..])
    decreases end - start
  {
    ghost var before := values[..];
    if end - start < 2 {
      ShortRange(less, before, start, end);
      return;
    }
    hide *;
    var middle := start + (end - start) / 2;
    MergeRange(values, buffer, less, start, middle);
    MergeRange(values, buffer, less, middle, end);
    HalvesSorted(less, before, values[..], start, middle, end);
    MergeHalves(values, buffer, less, start, middle, end);
    CopyBack(values, buffer, start, end);
  }

  lemma ShortRange(less: Less, before: seq<int>, start: nat, end: nat)
    requires start <= end <= |before| && end - start < 2
    ensures before == before[..start] + MergeSorted(less, before[start..end]) + before[end..]
  {
  }

  /** After the two recursive calls, merging the halves is all that is missing. */
  lemma HalvesSorted(less: Less, before: seq<int>, after: seq<int>, start: nat, middle: nat, end: nat)
    requires start < middle < end <= |before| && middle == start + (end - start) / 2
    requires
      var between := before[..start] + MergeSorted(less, before[start..middle]) + before[middle..];
      |between| == |before| && after == between[..middle] + MergeSorted(less, between[middle..end]) + between[end..]
    ensures |after| == |before| && after[..start] == before[..start] && after[end..] == before[end..]
    ensures Merge(less, after[start..middle], after[middle..end]) == MergeSorted(less, before[start..end])
  {
    hide Merge, MergeSorted;
    var s := before[start..end];
    var left, right := before[start..middle], before[middle..end];
    var between := before[..start] + MergeSorted(less, left) + before[middle..];
    assert between[middle..end] == right;
    assert s[..|s| / 2] == left && s[|s| / 2..] == right;
    assert after[start..middle] == MergeSorted(less, left);
    assert after[middle..end] == MergeSorted(less, right);
    SortedFromHalves(less, s);
  }

  lemma SortedFromHalves(less: Less, s: seq<int>)
    requires |s| >= 2
    ensures MergeSorted(less, s)
            == Merge(less, MergeSorted(less, s[..|s| / 2]), MergeSorted(less, s[|s| / 2..]))
  {
    hide Merge;
  }

  method MergeHalves(values: array<int>, buffer: array<int>, less: Less, start: nat, middle: nat, end: nat)
    requires start <= middle <= end <= values.Length && buffer.Length == values.Length && buffer != values
    modifies buffer
    ensures buffer[start..end] == Merge(less, values[start..middle], values[middle..end])
  {
    hide *;
    ghost var v := values[..];
    ghost var whole := Merge(less, v[start..middle], v[middle..end]);
    ghost var merged: seq<int> := [];
    var left, right := start, middle;
    var i := start;
    while i < end
      invariant start <= i <= end && start <= left <= middle <= right <= end
      invariant i - start == (left - start) + (right - middle)
      invariant |merged| == i - start && forall j :: 0 <= j < |merged| ==> buffer[start + j] == merged[j]
      invariant merged + Merge(less, v[left..middle], v[right..end]) == whole
    {
      MergeStep(less, v, left, middle, right, end);
      ghost var rest := Merge(less, v[left..middle], v[right..end]);
      if left < middle && (right == end || !less(values[right], values[left])) {
        buffer[i] := values[left];
        left := left + 1;
      } else {
        buffer[i] := values[right];
        right := right + 1;
      }
      assert merged + [rest[0]] + rest[1..] == merged + rest;
      merged := merged + [rest[0]];
      i := i + 1;
    }
    MergeNone(less, v[left..middle], v[right..end]);
    assert merged + [] == merged;
    assert buffer[start..end] == merged;
    assert v[start..middle] == values[start..middle] && v[middle..end] == values[middle..end];
  }

  lemma MergeNone(less: Less, a: seq<int>, b: seq<int>)
    requires a == [] && b == []
    ensures Merge(less, a, b) == []
  {
  }

  lemma MergeStep(less: Less, v: seq<int>, left: nat, middle: nat, right: nat, end: nat)
    requires left <= middle <= right <= end <= |v| && (left < middle || right < end)
    ensures
      var rest := Merge(less, v[left..middle], v[right..end]);
      && |rest| > 0
      && (if left < middle && (right == end || !less(v[right], v[left]))
          then rest[0] == v[left] && rest[1..] == Merge(less, v[left + 1..middle], v[right..end])
          else right < end && rest[0] == v[right] && rest[1..] == Merge(less, v[left..middle], v[right + 1..end]))
  {
    var a, b := v[left..middle], v[right..end];
    if left < middle {
      assert a[1..] == v[left + 1..middle];
    }
    if right < end {
      assert b[1..] == v[right + 1..end];
    }
  }

  method CopyBack(values: array<int>, buffer: array<int>, start: nat, end: nat)
    requires start <= end <= values.Length && buffer.Length == values.Length && buffer != values
    modifies values
    ensures values[..] == old(values[..start]) + buffer[start..end] + old(values[end..])
  {
    var i := start;
    while i < end
      invariant start <= i <= end
      invariant forall j :: start <= j < i ==> values[j] == buffer[j]
      invariant forall j :: 0 <= j < start || end <= j < values.Length ==> values[j] == old(values[j])
    {
      values[i] := buffer[i];
      i := i + 1;
    }
  }
}
