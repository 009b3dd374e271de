/** Price zones on plain numbers: ordering, greedy grouping, and the greedy touch filter. */
module Zones {
  import opened Powers
  import opened Rounding
  import opened Market
  import opened Sorting

  /** One extremum as grouping sees it. */
  datatype Spot = Spot(price: real, candle: nat, kind: Kind)

  // ---- the order of the references ----

  ghost predicate SpotBefore(p: Spot, q: Spot) {
    if p.price != q.price then p.price < q.price
    else if p.candle != q.candle then p.candle < q.candle
    else p.kind == High && q.kind == Low
  }

  ghost function Before(spots: seq<Spot>): (less: Less) {
    (a: int, b: int) => 0 <= a < |spots| && 0 <= b < |spots| && SpotBefore(spots[a], spots[b])
  }

  /** The comparator is a strict weak order on all references. */
  lemma BeforeIsWeakOrder(spots: seq<Spot>)
    ensures WeakOrder(Before(spots), Iota(|spots|))
  {
  }

  ghost function PriceOrder(spots: seq<Spot>): (order: seq<int>) {
    MergeSorted(Before(spots), Iota(|spots|))
  }

  ghost predicate References(order: seq<int>, n: nat) {
    |order| == n && forall i :: 0 <= i < |order| ==> 0 <= order[i] < n
  }

  /** Every reference occurs exactly once. */
  lemma PriceOrderPermutes(spots: seq<Spot>)
    ensures References(PriceOrder(spots), |spots|)
    ensures multiset(PriceOrder(spots)) == multiset(Iota(|spots|))
    ensures StableSort(Before(spots), Iota(|spots|), PriceOrder(spots))
  {
    hide WeakOrder, Sorted, TiedWith, Before;
    BeforeIsWeakOrder(spots);
    MergeSortedIsStable(Before(spots), Iota(|spots|));
    SameMembers(PriceOrder(spots), Iota(|spots|));
    forall i | 0 <= i < |spots|
      ensures 0 <= PriceOrder(spots)[i] < |spots|
    {
      assert PriceOrder(spots)[i] in PriceOrder(spots);
    }
  }

  ghost function PricesAt(spots: seq<Spot>, order: seq<int>): (prices: seq<real>)
    requires References(order, |spots|)
    ensures |prices| == |order|
    ensures forall i :: 0 <= i < |prices| ==> prices[i] == spots[order[i]].price
  {
    seq(|order|, i requires 0 <= i < |order| => spots[order[i]].price)
  }

  ghost predicate Ascending(prices: seq<real>) {
    forall i, j :: 0 <= i < j < |prices| ==> prices[i] <= prices[j]
  }

  lemma PriceOrderAscends(spots: seq<Spot>)
    ensures References(PriceOrder(spots), |spots|)
    ensures Ascending(PricesAt(spots, PriceOrder(spots)))
  {
    hide PriceOrder, TiedWith;
    PriceOrderPermutes(spots);
    var order := PriceOrder(spots);
    forall i, j | 0 <= i < j < |order|
      ensures spots[order[i]].price <= spots[order[j]].price
    {
      assert !Before(spots)(order[j], order[i]);
    }
  }

  // ---- greedy grouping ----

  datatype Span = Span(start: nat, end: nat)

  /** The first index from `end` on whose price exceeds the boundary. */
  ghost function GroupEnd(prices: seq<real>, boundary: real, end: nat): (e: nat)
    requires end <= |prices|
    ensures end <= e <= |prices|
    ensures forall k :: end <= k < e ==> prices[k] <= boundary
    ensures e < |prices| ==> prices[e] > boundary
    decreases |prices| - end
  {
    if end < |prices| && prices[end] <= boundary then GroupEnd(prices, boundary, end + 1) else end
  }

  ghost function Groups(prices: seq<real>, width: real, start: nat): (groups: seq<Span>)
    requires start <= |prices|
    decreases |prices| - start
  {
    if start == |prices| then []
    else
      var end := GroupEnd(prices, prices[start] + width, start + 1);
      [Span(start, end)] + Groups(prices, width, end)
  }

  ghost predicate Consecutive(groups: seq<Span>, start: nat, end: nat) {
    && (forall i :: 0 <= i < |groups| ==> groups[i].start < groups[i].end)
    && (forall i :: 0 <= i < |groups| - 1 ==> groups[i].end == groups[i + 1].start)
    && (if groups == [] then start == end else groups[0].start == start && groups[|groups| - 1].end == end)
  }

  /** The groups partition the ordered prices into consecutive non-empty runs. */
  lemma {:induction false} GroupsPartition(prices: seq<real>, width: real, start: nat)
    requires start <= |prices|
    ensures Consecutive(Groups(prices, width, start), start, |prices|)
    decreases |prices| - start
  {
    hide Consecutive, GroupEnd;
    if start == |prices| {
      NothingConsecutive(start);
    } else {
      var end := GroupEnd(prices, prices[start] + width, start + 1);
      GroupsPartition(prices, width, end);
      ConsecutiveCons(Span(start, end), Groups(prices, width, end), |prices|);
    }
  }

  lemma NothingConsecutive(start: nat)
    ensures Consecutive([], start, start)
  {
  }

  lemma ConsecutiveCons(head: Span, rest: seq<Span>, end: nat)
    requires head.start < head.end && Consecutive(rest, head.end, end)
    ensures Consecutive([head] + rest, head.start, end)
  {
  }

  ghost predicate SpanWithin(g: Span, n: nat) {
    g.start < g.end <= n
  }

  ghost predicate InBounds(groups: seq<Span>, n: nat) {
    forall i :: 0 <= i < |groups| ==> SpanWithin(groups[i], n)
  }

  /** Every price of the group lies at most the width above its anchor. */
  ghost predicate NarrowSpan(prices: seq<real>, width: real, g: Span)
    requires SpanWithin(g, |prices|)
  {
    forall k :: g.start <= k < g.end ==> prices[g.start] <= prices[k] <= prices[g.start] + width
  }

  ghost predicate Narrow(prices: seq<real>, width: real, groups: seq<Span>)
    requires InBounds(groups, |prices|)
  {
    forall i :: 0 <= i < |groups| ==> NarrowSpan(prices, width, groups[i])
  }

  /** Each anchor lies more than the width above every earlier anchor. */
  ghost predicate Apart(prices: seq<real>, width: real, groups: seq<Span>)
    requires InBounds(groups, |prices|)
  {
    forall i, j :: 0 <= i < j < |groups| ==> prices[groups[j].start] > prices[groups[i].start] + width
  }

  ghost predicate WellSpaced(prices: seq<real>, width: real, groups: seq<Span>) {
    InBounds(groups, |prices|) && Narrow(prices, width, groups) && Apart(prices, width, groups)
  }

  ghost predicate StartsFrom(groups: seq<Span>, start: nat) {
    forall i :: 0 <= i < |groups| ==> groups[i].start >= start
  }

  lemma {:induction false} GroupsSpaced(prices: seq<real>, width: real, start: nat)
    requires start <= |prices| && Ascending(prices) && width >= 0.0
    ensures WellSpaced(prices, width, Groups(prices, width, start))
    ensures StartsFrom(Groups(prices, width, start), start)
    decreases |prices| - start
  {
    hide WellSpaced, Ascending, GroupEnd;
    if start < |prices| {
      var end := GroupEnd(prices, prices[start] + width, start + 1);
      var rest := Groups(prices, width, end);
      GroupsSpaced(prices, width, end);
      AnchorGap(prices, width, start, end, rest);
      AnchorNarrow(prices, width, Span(start, end));
      SpacedCons(prices, width, Span(start, end), rest);
    } else {
      NothingSpaced(prices, width);
    }
  }

  /** A group takes every price up to the width above its anchor, and nothing below the anchor is left for it. */
  ghost predicate Saturated(prices: seq<real>, width: real, g: Span, start: nat)
    requires SpanWithin(g, |prices|)
  {
    && (g.end < |prices| ==> prices[g.end] > prices[g.start] + width)
    && (g.start > start ==> prices[g.start - 1] < prices[g.start])
  }

  lemma {:induction false} GroupsSaturated(prices: seq<real>, width: real, start: nat, g: Span)
    requires start <= |prices| && Ascending(prices) && width >= 0.0
    requires g in Groups(prices, width, start)
    ensures start <= g.start && SpanWithin(g, |prices|) && Saturated(prices, width, g, start)
    decreases |prices| - start
  {
    hide Ascending;
    var end := GroupEnd(prices, prices[start] + width, start + 1);
    var rest := Groups(prices, width, end);
    assert Groups(prices, width, start) == [Span(start, end)] + rest;
    if g in rest {
      GroupsSaturated(prices, width, end, g);
      if g.start == end {
        AnchorAbove(prices, width, start, end);
      }
    }
  }

  lemma AnchorAbove(prices: seq<real>, width: real, start: nat, end: nat)
    requires Ascending(prices) && width >= 0.0 && start < end < |prices| && prices[end] > prices[start] + width
    requires forall k :: start + 1 <= k < end ==> prices[k] <= prices[start] + width
    ensures prices[end - 1] < prices[end]
  {
  }

  /** Exactly the prices from the anchor to the width above it lie in the group. */
  lemma GroupTakes(prices: seq<real>, width: real, g: Span, k: nat)
    requires Ascending(prices) && width >= 0.0 && g in Groups(prices, width, 0) && k < |prices|
    ensures SpanWithin(g, |prices|)
    ensures g.start <= k < g.end <==> prices[g.start] <= prices[k] <= prices[g.start] + width
  {
    hide Groups, WellSpaced;
    GroupsSpaced(prices, width, 0);
    GroupsSaturated(prices, width, 0, g);
    GroupNarrow(prices, width, g);
  }

  lemma GroupNarrow(prices: seq<real>, width: real, g: Span)
    requires g in Groups(prices, width, 0) && WellSpaced(prices, width, Groups(prices, width, 0))
    ensures SpanWithin(g, |prices|) && NarrowSpan(prices, width, g)
  {
    hide Groups, NarrowSpan, SpanWithin;
    var i :| 0 <= i < |Groups(prices, width, 0)| && Groups(prices, width, 0)[i] == g;
  }

  lemma NothingSpaced(prices: seq<real>, width: real)
    ensures WellSpaced(prices, width, [])
  {
  }

  lemma AnchorNarrow(prices: seq<real>, width: real, g: Span)
    requires Ascending(prices) && SpanWithin(g, |prices|) && width >= 0.0
    requires forall k :: g.start < k < g.end ==> prices[k] <= prices[g.start] + width
    ensures NarrowSpan(prices, width, g)
  {
  }

  lemma AnchorGap(prices: seq<real>, width: real, start: nat, end: nat, rest: seq<Span>)
    requires Ascending(prices) && start < end <= |prices| && WellSpaced(prices, width, rest) && StartsFrom(rest, end)
    requires end < |prices| ==> prices[end] > prices[start] + width
    ensures InBounds(rest, |prices|)
    ensures forall i :: 0 <= i < |rest| ==> prices[rest[i].start] > prices[start] + width
  {
    hide Narrow, Apart;
    forall i | 0 <= i < |rest|
      ensures prices[rest[i].start] > prices[start] + width
    {
      assert SpanWithin(rest[i], |prices|);
      assert end <= rest[i].start;
    }
  }

  lemma SpacedCons(prices: seq<real>, width: real, head: Span, rest: seq<Span>)
    requires WellSpaced(prices, width, rest) && SpanWithin(head, |prices|) && NarrowSpan(prices, width, head)
    requires forall i :: 0 <= i < |rest| ==> prices[rest[i].start] > prices[head.start] + width
    ensures WellSpaced(prices, width, [head] + rest)
  {
    hide NarrowSpan, SpanWithin;
  }

  // ---- counting ----

  /** Distinct values below m are at most m many. */
  lemma {:induction false} Pigeonhole(f: seq<nat>, m: nat)
    requires forall i :: 0 <= i < |f| ==> f[i] < m
    requires forall i, j :: 0 <= i < j < |f| ==> f[i] != f[j]
    ensures |f| <= m
    decreases m
  {
    if f == [] {
    } else {
      var last := f[|f| - 1];
      assert last < m;
      if i :| 0 <= i < |f| && f[i] == m - 1 {
        Pigeonhole(f[..i] + f[i + 1..], m - 1);
      } else {
        Pigeonhole(f, m - 1);
      }
    }
  }

  ghost predicate Covers(lows: seq<real>, width: real, price: real, j: nat) {
    j < |lows| && lows[j] <= price <= lows[j] + width
  }

  ghost predicate Covered(lows: seq<real>, width: real, price: real) {
    exists j :: Covers(lows, width, price, j)
  }

  ghost function CoverOf(lows: seq<real>, width: real, price: real): (j: nat)
    requires Covered(lows, width, price)
    ensures Covers(lows, width, price, j)
  {
    var j: nat :| Covers(lows, width, price, j);
    j
  }

  /** No family of intervals of the same width covers all prices with fewer members. */
  lemma GroupsFewest(prices: seq<real>, width: real, lows: seq<real>)
    requires Ascending(prices) && width >= 0.0
    requires forall k :: 0 <= k < |prices| ==> Covered(lows, width, prices[k])
    ensures |Groups(prices, width, 0)| <= |lows|
  {
    hide Groups, Ascending, Covered, Narrow;
    var groups := Groups(prices, width, 0);
    GroupsSpaced(prices, width, 0);
    assert forall i :: 0 <= i < |groups| ==> SpanWithin(groups[i], |prices|);
    var f := seq(|groups|, i requires 0 <= i < |groups| => CoverOf(lows, width, prices[groups[i].start]));
    Pigeonhole(f, |lows|);
  }

  // ---- the touch filter ----

  function IntLess(): (less: Less) {
    (a: int, b: int) => a < b
  }

  ghost predicate Nondecreasing(s: seq<int>) {
    forall i, j :: 0 <= i < j < |s| ==> s[i] <= s[j]
  }

  ghost predicate Spread(s: seq<int>, spacing: nat) {
    forall i, j :: 0 <= i < j < |s| ==> s[j] - s[i] >= spacing
  }

  /** Accepted touches among the first n chronological candles. */
  ghost function Accepted(candles: seq<int>, n: nat, spacing: nat): (accepted: seq<int>)
    requires n <= |candles|
  {
    if n == 0 then []
    else
      var earlier := Accepted(candles, n - 1, spacing);
      if earlier == [] || candles[n - 1] - earlier[|earlier| - 1] >= spacing then earlier + [candles[n - 1]]
      else earlier
  }

  ghost predicate InReach(a: seq<int>, spacing: nat, i: nat, c: int) {
    i < |a| && a[i] <= c < a[i] + spacing
  }

  ghost predicate Reached(a: seq<int>, spacing: nat, c: int) {
    exists i :: InReach(a, spacing, i, c)
  }

  lemma {:induction false} LastAcceptedBelow(candles: seq<int>, n: nat, spacing: nat)
    requires n < |candles| && Nondecreasing(candles)
    ensures var a := Accepted(candles, n, spacing);
      a != [] ==> a[|a| - 1] <= candles[n]
  {
    if n == 0 {
    } else {
      LastAcceptedBelow(candles, n - 1, spacing);
    }
  }

  /** Touches keep their distance. */
  lemma {:induction false} AcceptedSpread(candles: seq<int>, n: nat, spacing: nat)
    requires n <= |candles|
    ensures Spread(Accepted(candles, n, spacing), spacing)
  {
    if n == 0 {
    } else {
      AcceptedSpread(candles, n - 1, spacing);
      if Accepted(candles, n, spacing) != Accepted(candles, n - 1, spacing) {
        SpreadGrows(Accepted(candles, n - 1, spacing), spacing, candles[n - 1]);
      }
    }
  }

  lemma SpreadGrows(earlier: seq<int>, spacing: nat, c: int)
    requires Spread(earlier, spacing) && (earlier == [] || c - earlier[|earlier| - 1] >= spacing)
    ensures Spread(earlier + [c], spacing)
  {
    var a := earlier + [c];
    forall i, j | 0 <= i < j < |a|
      ensures a[j] - a[i] >= spacing
    {
      if j == |earlier| && i < |earlier| - 1 {
        assert earlier[|earlier| - 1] - earlier[i] >= spacing;
      }
    }
  }

  /** Touches are candles of the group, starting with the earliest. */
  lemma {:induction false} AcceptedMembers(candles: seq<int>, n: nat, spacing: nat)
    requires n <= |candles|
    ensures n > 0 ==> Accepted(candles, n, spacing) != [] && Accepted(candles, n, spacing)[0] == candles[0]
    ensures forall i :: 0 <= i < |Accepted(candles, n, spacing)| ==> Accepted(candles, n, spacing)[i] in candles
  {
    if n == 0 {
    } else {
      AcceptedMembers(candles, n - 1, spacing);
    }
  }

  /** Every candle falls in reach of some touch. */
  lemma {:induction false} AcceptedReach(candles: seq<int>, n: nat, spacing: nat, k: nat)
    requires k < n <= |candles| && Nondecreasing(candles) && spacing >= 1
    ensures Reached(Accepted(candles, n, spacing), spacing, candles[k])
  {
    hide Nondecreasing;
    var earlier, a, c := Accepted(candles, n - 1, spacing), Accepted(candles, n, spacing), candles[n - 1];
    LastAcceptedBelow(candles, n - 1, spacing);
    if k < n - 1 {
      AcceptedReach(candles, n - 1, spacing, k);
      var i :| InReach(earlier, spacing, i, candles[k]);
      assert InReach(a, spacing, i, candles[k]);
    } else {
      assert InReach(a, spacing, |a| - 1, c);
    }
  }

  ghost function ReachOf(a: seq<int>, spacing: nat, c: int): (i: nat)
    requires Reached(a, spacing, c)
    ensures InReach(a, spacing, i, c)
  {
    var i: nat :| InReach(a, spacing, i, c);
    i
  }

  ghost predicate Separated(candles: seq<int>, spacing: nat, chosen: seq<int>) {
    Spread(chosen, spacing) && forall i :: 0 <= i < |chosen| ==> chosen[i] in candles
  }

  /** No choice of sufficiently separated candles is larger than the accepted one. */
  lemma AcceptedIsMaximum(candles: seq<int>, spacing: nat, chosen: seq<int>)
    requires Nondecreasing(candles) && spacing >= 1 && Separated(candles, spacing, chosen)
    ensures |chosen| <= |Accepted(candles, |candles|, spacing)|
  {
    hide Accepted, Nondecreasing, Reached;
    var a := Accepted(candles, |candles|, spacing);
    forall i | 0 <= i < |chosen|
      ensures Reached(a, spacing, chosen[i])
    {
      var k :| 0 <= k < |candles| && candles[k] == chosen[i];
      AcceptedReach(candles, |candles|, spacing, k);
    }
    var f := seq(|chosen|, i requires 0 <= i < |chosen| => ReachOf(a, spacing, chosen[i]));
    Pigeonhole(f, |a|);
  }

  /** The filter keeps a group exactly when enough separated touches exist at all. */
  lemma TouchesExist(candles: seq<int>, spacing: nat, minimum: nat)
    requires Nondecreasing(candles) && spacing >= 1
    ensures |Accepted(candles, |candles|, spacing)| >= minimum
            <==> exists chosen: seq<int> :: |chosen| == minimum && Separated(candles, spacing, chosen)
  {
    hide Accepted, Nondecreasing;
    var a := Accepted(candles, |candles|, spacing);
    AcceptedSpread(candles, |candles|, spacing);
    AcceptedMembers(candles, |candles|, spacing);
    if |a| >= minimum {
      assert Separated(candles, spacing, a[..minimum]);
    }
    if chosen: seq<int> :| |chosen| == minimum && Separated(candles, spacing, chosen) {
      AcceptedIsMaximum(candles, spacing, chosen);
    }
  }

  // ---- zones ----

  datatype ZoneRole = Support | Resistance | AtPrice

  ghost function RoleOf(close: real, lower: real, upper: real): (role: ZoneRole) {
    if close > upper then Support else if close < lower then Resistance else AtPrice
  }

  ghost function CandlesAt(spots: seq<Spot>, group: seq<int>): (candles: seq<int>)
    requires forall i :: 0 <= i < |group| ==> 0 <= group[i] < |spots|
    ensures |candles| == |group|
    ensures forall i :: 0 <= i < |candles| ==> candles[i] == spots[group[i]].candle
  {
    seq(|group|, i requires 0 <= i < |group| => spots[group[i]].candle)
  }

  /** The accepted candles of one group. */
  ghost function Touches(spots: seq<Spot>, group: seq<int>, spacing: nat): (accepted: seq<int>)
    requires forall i :: 0 <= i < |group| ==> 0 <= group[i] < |spots|
  {
    var candles := MergeSorted(IntLess(), CandlesAt(spots, group));
    Accepted(candles, |candles|, spacing)
  }

  lemma IntLessOrder(s: seq<int>)
    ensures WeakOrder(IntLess(), s)
    ensures StableSort(IntLess(), s, MergeSorted(IntLess(), s))
    ensures Nondecreasing(MergeSorted(IntLess(), s))
  {
    hide TiedWith, MergeSorted;
    MergeSortedIsStable(IntLess(), s);
  }

  /** Touches of a non-empty group: some candle counts, and all of them are candles of the group. */
  lemma TouchesFacts(spots: seq<Spot>, group: seq<int>, spacing: nat)
    requires forall i :: 0 <= i < |group| ==> 0 <= group[i] < |spots|
    requires group != [] && spacing >= 1
    ensures var a := Touches(spots, group, spacing);
      && a != [] && Spread(a, spacing)
      && (forall i :: 0 <= i < |a| ==> a[i] in CandlesAt(spots, group))
  {
    hide Accepted, WeakOrder, TiedWith, MergeSorted;
    var s := CandlesAt(spots, group);
    var sorted := MergeSorted(IntLess(), s);
    IntLessOrder(s);
    SameMembers(sorted, s);
    AcceptedSpread(sorted, |sorted|, spacing);
    AcceptedMembers(sorted, |sorted|, spacing);
  }

  /** A group survives exactly when that many of its candles lie far enough apart. */
  lemma GroupSurvives(spots: seq<Spot>, group: seq<int>, spacing: nat, minTouches: nat)
    requires forall i :: 0 <= i < |group| ==> 0 <= group[i] < |spots|
    requires spacing >= 1
    ensures |Touches(spots, group, spacing)| >= minTouches
            <==> exists chosen: seq<int> ::
                   |chosen| == minTouches && Separated(CandlesAt(spots, group), spacing, chosen)
  {
    hide Accepted, WeakOrder, TiedWith, MergeSorted, Sorted, Nondecreasing, Spread;
    var s := CandlesAt(spots, group);
    var sorted := MergeSorted(IntLess(), s);
    IntLessOrder(s);
    SameMembers(sorted, s);
    TouchesExist(sorted, spacing, minTouches);
    forall chosen: seq<int>
      ensures Separated(sorted, spacing, chosen) == Separated(s, spacing, chosen)
    {
      SeparatedSame(sorted, s, spacing, chosen);
    }
  }

  lemma SeparatedSame(a: seq<int>, b: seq<int>, spacing: nat, chosen: seq<int>)
    requires forall x :: x in a <==> x in b
    ensures Separated(a, spacing, chosen) == Separated(b, spacing, chosen)
  {
    hide Spread;
    forall i | 0 <= i < |chosen|
      ensures chosen[i] in a <==> chosen[i] in b
    {
      var c := chosen[i];
      assert c in a <==> c in b;
    }
  }

  /** The groups with enough touches, in price order. */
  ghost function Kept(spots: seq<Spot>, order: seq<int>, groups: seq<Span>, spacing: nat,
                      minTouches: nat): (kept: seq<Span>)
    requires References(order, |spots|) && InBounds(groups, |order|)
  {
    if groups == [] then []
    else
      assert SpanWithin(groups[0], |order|);
      var rest := Kept(spots, order, groups[1..], spacing, minTouches);
      if |Touches(spots, order[groups[0].start..groups[0].end], spacing)| >= minTouches then [groups[0]] + rest
      else rest
  }

  lemma {:induction false} KeptFrom(spots: seq<Spot>, order: seq<int>, groups: seq<Span>, spacing: nat, minTouches: nat,
                                    g: Span)
    requires References(order, |spots|) && InBounds(groups, |order|)
    ensures g in Kept(spots, order, groups, spacing, minTouches)
            <==> g in groups && SpanWithin(g, |order|) && |Touches(spots, order[g.start..g.end], spacing)| >= minTouches
  {
    hide Touches;
    if groups == [] {
    } else {
      assert SpanWithin(groups[0], |order|);
      KeptFrom(spots, order, groups[1..], spacing, minTouches, g);
      assert g in groups <==> g == groups[0] || g in groups[1..];
      if g in groups {
        assert SpanWithin(g, |order|);
      }
    }
  }

  lemma {:induction false} KeptSpaced(spots: seq<Spot>, order: seq<int>, prices: seq<real>, width: real,
                                      groups: seq<Span>, spacing: nat, minTouches: nat)
    requires References(order, |spots|) && |prices| == |order| && WellSpaced(prices, width, groups)
    ensures WellSpaced(prices, width, Kept(spots, order, groups, spacing, minTouches))
  {
    hide Touches, NarrowSpan, References;
    if groups == [] {
    } else {
      var head, tail := groups[0], groups[1..];
      var rest := Kept(spots, order, tail, spacing, minTouches);
      KeptSpaced(spots, order, prices, width, tail, spacing, minTouches);
      assert SpanWithin(head, |prices|) && NarrowSpan(prices, width, head);
      forall i | 0 <= i < |rest|
        ensures SpanWithin(rest[i], |prices|) && prices[rest[i].start] > prices[head.start] + width
      {
        var g := rest[i];
        assert g in rest;
        KeptFrom(spots, order, tail, spacing, minTouches, g);
        var j :| 0 <= j < |tail| && tail[j] == g;
        assert groups[j + 1] == g;
      }
      SpacedCons(prices, width, head, rest);
    }
  }

  ghost function ZonesOf(spots: seq<Spot>, width: real, spacing: nat, minTouches: nat): (zones: seq<Span>)
    requires width >= 0.0
    ensures References(PriceOrder(spots), |spots|)
    ensures WellSpaced(PricesAt(spots, PriceOrder(spots)), width, zones)
  {
    PriceOrderAscends(spots);
    var prices := PricesAt(spots, PriceOrder(spots));
    GroupsSpaced(prices, width, 0);
    KeptSpaced(spots, PriceOrder(spots), prices, width, Groups(prices, width, 0), spacing, minTouches);
    Kept(spots, PriceOrder(spots), Groups(prices, width, 0), spacing, minTouches)
  }

  ghost function LowerOf(prices: seq<real>, g: Span): (p: real)
    requires SpanWithin(g, |prices|)
  {
    prices[g.start]
  }

  ghost function UpperOf(prices: seq<real>, g: Span): (p: real)
    requires SpanWithin(g, |prices|)
  {
    prices[g.end - 1]
  }

  /** Zones are disjoint and ascending; supports come first, one zone at most is at the price, resistances last. */
  lemma ZonesAscend(spots: seq<Spot>, width: real, spacing: nat, minTouches: nat, close: real, i: nat, j: nat)
    requires width >= 0.0 && i < j < |ZonesOf(spots, width, spacing, minTouches)|
    ensures
      var prices := PricesAt(spots, PriceOrder(spots));
      var g, h := ZonesOf(spots, width, spacing, minTouches)[i], ZonesOf(spots, width, spacing, minTouches)[j];
      && LowerOf(prices, g) <= UpperOf(prices, g) <= LowerOf(prices, g) + width
      && LowerOf(prices, g) + width < LowerOf(prices, h) <= UpperOf(prices, h)
      && var first := RoleOf(close, LowerOf(prices, g), UpperOf(prices, g));
      var second := RoleOf(close, LowerOf(prices, h), UpperOf(prices, h));
      && (second != Resistance ==> first == Support)
      && (first != Support ==> second == Resistance)
  {
    hide ZonesOf, PriceOrder;
    var zones := ZonesOf(spots, width, spacing, minTouches);
    assert SpanWithin(zones[i], |spots|) && SpanWithin(zones[j], |spots|);
    var prices := PricesAt(spots, PriceOrder(spots));
    assert NarrowSpan(prices, width, zones[i]) && NarrowSpan(prices, width, zones[j]);
  }

  // ---- shifting the decimal point of every price ----

  ghost function ShiftSpots(k: int, spots: seq<Spot>): (r: seq<Spot>)
    ensures |r| == |spots|
    ensures forall i :: 0 <= i < |r| ==> r[i] == spots[i].(price := Times(spots[i].price, Pow10(k)))
  {
    seq(|spots|, i requires 0 <= i < |spots| => spots[i].(price := Times(spots[i].price, Pow10(k))))
  }

  lemma OrderShifted(k: int, spots: seq<Spot>)
    ensures PriceOrder(ShiftSpots(k, spots)) == PriceOrder(spots)
  {
    hide Times, Pow10, MergeSorted;
    var others := ShiftSpots(k, spots);
    forall a, b | a in Iota(|spots|) && b in Iota(|spots|)
      ensures Before(others)(a, b) == Before(spots)(a, b)
    {
      TimesOrder(spots[a].price, spots[b].price, Pow10(k));
      TimesOrder(spots[b].price, spots[a].price, Pow10(k));
    }
    SortAgrees(Before(others), Before(spots), Iota(|spots|));
  }

  ghost predicate ScaledPrices(p: real, prices: seq<real>, others: seq<real>) {
    |prices| == |others| && forall i :: 0 <= i < |prices| ==> others[i] == Times(prices[i], p)
  }

  lemma {:induction false} GroupEndScaled(p: real, prices: seq<real>, others: seq<real>, boundary: real, end: nat)
    requires p > 0.0 && ScaledPrices(p, prices, others) && end <= |prices|
    ensures GroupEnd(others, Times(boundary, p), end) == GroupEnd(prices, boundary, end)
    decreases |prices| - end
  {
    hide Times;
    if end == |prices| {
    } else {
      TimesOrder(prices[end], boundary, p);
      GroupEndScaled(p, prices, others, boundary, end + 1);
    }
  }

  lemma {:induction false} GroupsScaled(p: real, prices: seq<real>, others: seq<real>, width: real, start: nat)
    requires p > 0.0 && ScaledPrices(p, prices, others) && start <= |prices|
    ensures Groups(others, Times(width, p), start) == Groups(prices, width, start)
    decreases |prices| - start
  {
    hide Times, GroupEnd;
    if start == |prices| {
    } else {
      var end := GroupEnd(prices, prices[start] + width, start + 1);
      TimesDistributes(prices[start], width, p);
      GroupEndScaled(p, prices, others, prices[start] + width, start + 1);
      assert GroupEnd(others, others[start] + Times(width, p), start + 1) == end;
      hide ScaledPrices;
      GroupsScaled(p, prices, others, width, end);
    }
  }

  lemma {:induction false} KeptShifted(spots: seq<Spot>, others: seq<Spot>, order: seq<int>, groups: seq<Span>,
                                       spacing: nat, minTouches: nat)
    requires |others| == |spots| && forall i :: 0 <= i < |spots| ==> others[i].candle == spots[i].candle
    requires References(order, |spots|) && InBounds(groups, |order|)
    ensures Kept(others, order, groups, spacing, minTouches) == Kept(spots, order, groups, spacing, minTouches)
  {
    hide Accepted, MergeSorted;
    if groups == [] {
    } else {
      assert SpanWithin(groups[0], |order|);
      var group := order[groups[0].start..groups[0].end];
      assert CandlesAt(others, group) == CandlesAt(spots, group);
      KeptShifted(spots, others, order, groups[1..], spacing, minTouches);
    }
  }

  /** The same groups survive, with the same references, after every price is multiplied by 10^k. */
  lemma ZonesShifted(k: int, spots: seq<Spot>, width: real, spacing: nat, minTouches: nat)
    requires width >= 0.0
    ensures Times(width, Pow10(k)) >= 0.0
    ensures ZonesOf(ShiftSpots(k, spots), Times(width, Pow10(k)), spacing, minTouches)
            == ZonesOf(spots, width, spacing, minTouches)
  {
    hide Times, Pow10, PriceOrder, Groups, Kept;
    TimesUnits(Pow10(k));
    TimesOrder(0.0, width, Pow10(k));
    OrderShifted(k, spots);
    PriceOrderAscends(spots);
    var prices := PricesAt(spots, PriceOrder(spots));
    var others := PricesAt(ShiftSpots(k, spots), PriceOrder(spots));
    GroupsScaled(Pow10(k), prices, others, width, 0);
    GroupsSpaced(prices, width, 0);
    KeptShifted(spots, ShiftSpots(k, spots), PriceOrder(spots), Groups(prices, width, 0), spacing, minTouches);
  }

  /** Roles do not change either. */
  lemma RoleShifted(k: int, close: real, lower: real, upper: real)
    ensures RoleOf(Times(close, Pow10(k)), Times(lower, Pow10(k)), Times(upper, Pow10(k)))
            == RoleOf(close, lower, upper)
  {
    hide Times, Pow10;
    TimesOrder(upper, close, Pow10(k));
    TimesOrder(close, lower, Pow10(k));
  }

  // ---- the representative price ----

  ghost function Midpoint(lower: real, upper: real): (m: real) {
    Sig(16, Over(lower + upper, 2.0))
  }

  lemma HalfSum(lower: real, upper: real)
    ensures Over(lower + upper, 2.0) == (lower + upper) / 2.0
  {
  }

  /** Some decimal of at most 16 significant digits lies between the bounds. */
  ghost predicate RoomFor16(lower: real, upper: real) {
    exists r :: Representable(16, r) && lower <= r <= upper
  }

  /** The rounded midpoint stays between the bounds exactly when a 16-digit decimal lies between them at all. */
  lemma MidpointInside(lower: real, upper: real)
    requires lower <= upper
    ensures lower <= Midpoint(lower, upper) <= upper <==> RoomFor16(lower, upper)
  {
    hide Sig, Over, Representable;
    HalfSum(lower, upper);
    var middle := (lower + upper) / 2.0;
    SigRepresentable(16, middle);
    if r :| Representable(16, r) && lower <= r <= upper {
      SigNearest(16, middle, r);
    }
  }

  /** It always lies between the rounded bounds, and between the bounds when one of them has at most 16 digits. */
  lemma MidpointWithin(lower: real, upper: real)
    requires lower <= upper
    ensures Sig(16, lower) <= Midpoint(lower, upper) <= Sig(16, upper)
    ensures Representable(16, lower) || Representable(16, upper) ==> lower <= Midpoint(lower, upper) <= upper
  {
    hide Sig, Over, Representable, Midpoint;
    MidpointInside(lower, upper);
    assert Midpoint(lower, upper) == Sig(16, (lower + upper) / 2.0) by {
      MidpointIsRounded(lower, upper);
    }
    SigMonotone(16, lower, (lower + upper) / 2.0);
    SigMonotone(16, (lower + upper) / 2.0, upper);
  }

  lemma MidpointIsRounded(lower: real, upper: real)
    ensures Midpoint(lower, upper) == Sig(16, (lower + upper) / 2.0)
  {
    hide Sig, Over;
    HalfSum(lower, upper);
  }

  lemma MidpointShifted(k: int, lower: real, upper: real)
    ensures Midpoint(Times(lower, Pow10(k)), Times(upper, Pow10(k))) == Times(Midpoint(lower, upper), Pow10(k))
  {
    hide Sig, Over, Times, Pow10;
    TimesDistributes(lower, upper, Pow10(k));
    HalfSum(lower, upper);
    HalfSum(Times(lower, Pow10(k)), Times(upper, Pow10(k)));
    TimesDistributes(lower / 2.0, upper / 2.0, Pow10(k));
    HalfProduct(lower + upper, Pow10(k));
    SigScale(16, Over(lower + upper, 2.0), k);
  }

  lemma HalfProduct(x: real, p: real)
    ensures Times(x / 2.0, p) == Times(x, p) / 2.0
  {
  }
}
