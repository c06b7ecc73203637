/** What merging and splitting protection domains does to the cost of a placement, on values: the facts behind the
    loops of customize_overhead_to_limit in src/components/include/mpd_policy.h. */
module Trades {
  import opened Seqs
  import Cuts
  import opened PdEdges
  import opened Policy

  /** The components of domain d. */
  ghost function Part(pd: map<nat, nat>, d: nat): set<nat> {
    set x | x in pd && pd[x] == d
  }

  ghost predicate Spans(bs: seq<Cuts.Edge>, pd: map<nat, nat>) {
    forall i :: 0 <= i < |bs| ==> bs[i].from in pd && bs[i].to in pd && bs[i].from != bs[i].to
  }

  // ----- the cost of a placement

  ghost function CostOf(e: Cuts.Edge, pd: map<nat, nat>): int {
    if e.from in pd && e.to in pd && pd[e.from] != pd[e.to] then e.inv else 0
  }

  ghost function Cost(bs: seq<Cuts.Edge>, pd: map<nat, nat>): int {
    if bs == [] then 0 else Cost(bs[..|bs| - 1], pd) + CostOf(bs[|bs| - 1], pd)
  }

  ghost function TotalWeight(es: seq<Cuts.Edge>): int {
    if es == [] then 0 else TotalWeight(es[..|es| - 1]) + es[|es| - 1].inv
  }

  lemma {:induction false} CostIsCross(es: seq<Edge>, pd: map<nat, nat>)
    ensures Cost(Bare(es), pd) == CrossCost(es, pd)
  {
    if es != [] {
      var n := |es| - 1;
      CostIsCross(es[..n], pd);
      assert Bare(es)[..n] == Bare(es[..n]);
    }
  }

  lemma {:induction false} CostBounds(bs: seq<Cuts.Edge>, pd: map<nat, nat>)
    requires Cuts.NonNegative(bs)
    ensures 0 <= Cost(bs, pd) <= TotalWeight(bs)
  {
    if bs != [] {
      CostBounds(bs[..|bs| - 1], pd);
    }
  }

  lemma {:induction false} BetweenBounds(es: seq<Cuts.Edge>, x: set<nat>, y: set<nat>)
    requires Cuts.NonNegative(es)
    ensures 0 <= Cuts.Between(es, x, y) <= TotalWeight(es)
  {
    if es != [] {
      BetweenBounds(es[..|es| - 1], x, y);
    }
  }

  /** Splitting the set s off domain d adds the weight of the cut. */
  lemma {:induction false} SplitAdds(bs: seq<Cuts.Edge>, pd: map<nat, nat>, d: nat, s: set<nat>, n: nat)
    requires s <= Part(pd, d) && (forall x :: x in pd ==> pd[x] != n)
    requires forall i :: 0 <= i < |bs| ==> bs[i].from in pd && bs[i].to in pd
    ensures Cost(bs, Relocated(pd, s, n)) == Cost(bs, pd) + Cuts.CutWeight(bs, Part(pd, d), s)
  {
    if bs != [] {
      SplitAdds(bs[..|bs| - 1], pd, d, s, n);
    }
  }

  /** Two different domains that have components. */
  ghost predicate Domains(pd: map<nat, nat>, a: nat, b: nat) {
    a != b && Part(pd, a) != {} && Part(pd, b) != {}
  }

  /** Two domains are a cut of what they are merged to, and its weight is what the merge saves. */
  lemma MergeCut(bs: seq<Cuts.Edge>, pd: map<nat, nat>, a: nat, b: nat)
    requires Domains(pd, a, b) && Spans(bs, pd)
    ensures var m := MergedPlacement(pd, a, b);
            && Part(m, a) == Part(pd, a) + Part(pd, b) && Cuts.IsCut(Part(m, a), Part(pd, b))
            && Cost(bs, pd) == Cost(bs, m) + Cuts.CutWeight(bs, Part(m, a), Part(pd, b))
  {
    var m := MergedPlacement(pd, a, b);
    assert Part(m, a) == Part(pd, a) + Part(pd, b);
    assert Part(pd, a) !! Part(pd, b);
    assert Relocated(m, Part(pd, b), b) == pd;
    SplitAdds(bs, m, a, Part(pd, b), b);
  }

  /** If no domain can be split, everything crosses domains. */
  lemma {:induction false} AllApart(bs: seq<Cuts.Edge>, pd: map<nat, nat>)
    requires Spans(bs, pd) && forall d, c :: !Cuts.IsCut(Part(pd, d), c)
    ensures Cost(bs, pd) == TotalWeight(bs)
  {
    if bs != [] {
      AllApart(bs[..|bs| - 1], pd);
      var e := bs[|bs| - 1];
      if pd[e.from] == pd[e.to] {
        assert e.from in Part(pd, pd[e.from]) && e.to in Part(pd, pd[e.from]);
        assert Cuts.IsCut(Part(pd, pd[e.from]), {e.from});
      }
    }
  }

  /** The cost of a placement and a cut of one of its domains is at most that of all edges. */
  lemma SplitBound(bs: seq<Cuts.Edge>, pd: map<nat, nat>, d: nat, c: set<nat>, n: nat)
    requires Cuts.NonNegative(bs) && Spans(bs, pd) && Cuts.IsCut(Part(pd, d), c) && forall x :: x in pd ==> pd[x] != n
    ensures Cost(bs, pd) + Cuts.CutWeight(bs, Part(pd, d), c) <= TotalWeight(bs)
  {
    SplitAdds(bs, pd, d, c, n);
    CostBounds(bs, Relocated(pd, c, n));
  }

  // ----- the lightest cut and the heaviest pd-edge depend on the partition only

  ghost predicate Lightest(bs: seq<Cuts.Edge>, pd: map<nat, nat>, d: nat, c: set<nat>) {
    && Cuts.IsCut(Part(pd, d), c)
    && forall d', c' :: Cuts.IsCut(Part(pd, d'), c') ==>
         Cuts.CutWeight(bs, Part(pd, d), c) <= Cuts.CutWeight(bs, Part(pd, d'), c')
  }

  /** The least that a split costs is w. */
  ghost predicate LeastCost(bs: seq<Cuts.Edge>, pd: map<nat, nat>, w: int) {
    exists d, c :: Lightest(bs, pd, d, c) && Cuts.CutWeight(bs, Part(pd, d), c) == w
  }

  ghost function Saving(bs: seq<Cuts.Edge>, pd: map<nat, nat>, a: nat, b: nat): int {
    Cost(bs, pd) - Cost(bs, MergedPlacement(pd, a, b))
  }

  /** Merging a and b saves most. */
  ghost predicate Heaviest(bs: seq<Cuts.Edge>, pd: map<nat, nat>, a: nat, b: nat) {
    Domains(pd, a, b) && forall a', b' :: Domains(pd, a', b') ==> Saving(bs, pd, a', b') <= Saving(bs, pd, a, b)
  }

  ghost predicate MostSaving(bs: seq<Cuts.Edge>, pd: map<nat, nat>, w: int) {
    exists a, b :: Heaviest(bs, pd, a, b) && Saving(bs, pd, a, b) == w
  }

  /** No split costs less than some merge saves. */
  ghost predicate NoTradePays(bs: seq<Cuts.Edge>, pd: map<nat, nat>) {
    forall inc, dec :: LeastCost(bs, pd, inc) && MostSaving(bs, pd, dec) ==> inc >= dec
  }

  /** In both placements the least that a split costs is the same, and so is the most that a merge saves. */
  ghost predicate SameTrade(bs: seq<Cuts.Edge>, pd: map<nat, nat>, pd': map<nat, nat>) {
    exists inc, dec :: && LeastCost(bs, pd, inc) && MostSaving(bs, pd, dec)
                       && LeastCost(bs, pd', inc) && MostSaving(bs, pd', dec)
  }

  lemma SavesMost(bs: seq<Cuts.Edge>, pd: map<nat, nat>, a: nat, b: nat, w: int)
    requires Domains(pd, a, b) && MostSaving(bs, pd, w) && Saving(bs, pd, a, b) == w
    ensures Heaviest(bs, pd, a, b)
  {
  }

  /** Merging domains without an edge between them saves nothing. */
  lemma {:induction false} NothingSaved(bs: seq<Cuts.Edge>, pd: map<nat, nat>, a: nat, b: nat)
    requires forall i :: 0 <= i < |bs| && bs[i].from in pd && bs[i].to in pd ==>
               !(pd[bs[i].from] == a && pd[bs[i].to] == b) && !(pd[bs[i].from] == b && pd[bs[i].to] == a)
    ensures Saving(bs, pd, a, b) == 0
  {
    if bs != [] {
      NothingSaved(bs[..|bs| - 1], pd, a, b);
    }
  }

  lemma EitherWay(bs: seq<Cuts.Edge>, pd: map<nat, nat>, a: nat, b: nat)
    ensures Saving(bs, pd, a, b) == Saving(bs, pd, b, a)
  {
    SameCost(bs, MergedPlacement(pd, a, b), MergedPlacement(pd, b, a));
  }

  /** What a merge saves is the weight of the pd-edge between the domains. */
  lemma PdEdgeSaves(es: seq<Edge>, pdes: map<nat, PdEdge>, pd: map<nat, nat>, q: nat, a: nat, b: nat)
    requires PdEdgesOk(es, pdes) && Settled(es, pdes, pd, {})
    requires Within(es, pd.Keys) && q in pdes && Links(pdes[q], a, b)
    ensures Saving(Bare(es), pd, a, b) == pdes[q].weight
  {
    MergeWeight(es, pdes, pd, q);
    CostIsCross(es, pd);
    CostIsCross(es, MergedPlacement(pd, pdes[q].from, pdes[q].to));
    EitherWay(Bare(es), pd, a, b);
  }

  lemma NoPdEdgeSavesNothing(es: seq<Edge>, pdes: map<nat, PdEdge>, pd: map<nat, nat>, a: nat, b: nat)
    requires Settled(es, pdes, pd, {}) && a != b && forall q :: q in pdes ==> !Links(pdes[q], a, b)
    ensures Saving(Bare(es), pd, a, b) == 0
  {
    var bs := Bare(es);
    forall i | 0 <= i < |bs| && bs[i].from in pd && bs[i].to in pd
      ensures !(pd[bs[i].from] == a && pd[bs[i].to] == b) && !(pd[bs[i].from] == b && pd[bs[i].to] == a)
    {
      assert Attached(es[i], pdes, pd);
    }
    NothingSaved(bs, pd, a, b);
  }

  ghost predicate HeaviestEdge(pdes: map<nat, PdEdge>, p: nat) {
    p in pdes && forall q :: q in pdes ==> pdes[p].weight >= pdes[q].weight
  }

  /** A heaviest pd-edge is where a merge saves most. */
  lemma HeaviestPdEdge(es: seq<Edge>, pdes: map<nat, PdEdge>, pd: map<nat, nat>, p: nat)
    requires PdEdgesOk(es, pdes) && Settled(es, pdes, pd, {}) && Within(es, pd.Keys)
    requires HeaviestEdge(pdes, p) && Domains(pd, pdes[p].from, pdes[p].to) && pdes[p].weight >= 0
    ensures Heaviest(Bare(es), pd, pdes[p].from, pdes[p].to)
    ensures Saving(Bare(es), pd, pdes[p].from, pdes[p].to) == pdes[p].weight
  {
    PdEdgeSaves(es, pdes, pd, p, pdes[p].from, pdes[p].to);
    forall a', b' | Domains(pd, a', b')
      ensures Saving(Bare(es), pd, a', b') <= pdes[p].weight
    {
      if q :| q in pdes && Links(pdes[q], a', b') {
        PdEdgeSaves(es, pdes, pd, q, a', b');
      } else {
        NoPdEdgeSavesNothing(es, pdes, pd, a', b');
      }
    }
  }

  /** The same components are together. */
  ghost predicate SamePartition(pd: map<nat, nat>, pd': map<nat, nat>) {
    pd.Keys == pd'.Keys && forall x, y :: x in pd && y in pd ==> (pd[x] == pd[y] <==> pd'[x] == pd'[y])
  }

  lemma SamePart(pd: map<nat, nat>, pd': map<nat, nat>, d: nat) returns (d': nat)
    requires SamePartition(pd, pd') && Part(pd, d) != {}
    ensures Part(pd', d') == Part(pd, d) && exists x :: x in Part(pd, d) && d' == pd'[x]
  {
    var x :| x in Part(pd, d);
    d' := pd'[x];
    assert Part(pd', d') == Part(pd, d);
  }

  lemma LeastIsLess(bs: seq<Cuts.Edge>, pd: map<nat, nat>, pd': map<nat, nat>, w: int, w': int)
    requires SamePartition(pd, pd') && LeastCost(bs, pd, w) && LeastCost(bs, pd', w')
    ensures w' <= w
  {
    var d, c :| Lightest(bs, pd, d, c) && Cuts.CutWeight(bs, Part(pd, d), c) == w;
    var d' := SamePart(pd, pd', d);
    assert Cuts.IsCut(Part(pd', d'), c);
  }

  lemma {:induction false} SameCost(bs: seq<Cuts.Edge>, pd: map<nat, nat>, pd': map<nat, nat>)
    requires SamePartition(pd, pd')
    ensures Cost(bs, pd) == Cost(bs, pd')
  {
    if bs != [] {
      SameCost(bs[..|bs| - 1], pd, pd');
    }
  }

  lemma SameSaving(bs: seq<Cuts.Edge>, pd: map<nat, nat>, pd': map<nat, nat>, a: nat, b: nat) returns (a': nat, b': nat)
    requires SamePartition(pd, pd') && Domains(pd, a, b)
    ensures Domains(pd', a', b') && Saving(bs, pd', a', b') == Saving(bs, pd, a, b)
  {
    a' := SamePart(pd, pd', a);
    b' := SamePart(pd, pd', b);
    var m, m' := MergedPlacement(pd, a, b), MergedPlacement(pd', a', b');
    forall x | x in pd
      ensures (pd[x] == a <==> pd'[x] == a') && (pd[x] == b <==> pd'[x] == b')
    {
      assert x in Part(pd, a) <==> x in Part(pd', a');
      assert x in Part(pd, b) <==> x in Part(pd', b');
    }
    assert SamePartition(m, m');
    SameCost(bs, pd, pd');
    SameCost(bs, m, m');
  }

  lemma MostIsMore(bs: seq<Cuts.Edge>, pd: map<nat, nat>, pd': map<nat, nat>, w: int, w': int)
    requires SamePartition(pd, pd') && MostSaving(bs, pd, w) && MostSaving(bs, pd', w')
    ensures w <= w'
  {
    var a, b :| Heaviest(bs, pd, a, b) && Saving(bs, pd, a, b) == w;
    var a', b' := SameSaving(bs, pd, pd', a, b);
  }

  lemma SamePrices(bs: seq<Cuts.Edge>, pd: map<nat, nat>, pd': map<nat, nat>, inc: int, inc': int)
    requires SamePartition(pd, pd') && LeastCost(bs, pd, inc) && LeastCost(bs, pd', inc')
    ensures inc == inc'
  {
    assert SamePartition(pd', pd);
    LeastIsLess(bs, pd, pd', inc, inc');
    LeastIsLess(bs, pd', pd, inc', inc);
  }

  lemma SameSavings(bs: seq<Cuts.Edge>, pd: map<nat, nat>, pd': map<nat, nat>, dec: int, dec': int)
    requires SamePartition(pd, pd') && MostSaving(bs, pd, dec) && MostSaving(bs, pd', dec')
    ensures dec == dec'
  {
    assert SamePartition(pd', pd);
    MostIsMore(bs, pd, pd', dec, dec');
    MostIsMore(bs, pd', pd, dec', dec);
  }

  // ----- exchanges

  lemma LeastStays(bs: seq<Cuts.Edge>, pd: map<nat, nat>, pd': map<nat, nat>, w: int)
    requires SamePartition(pd, pd') && LeastCost(bs, pd, w)
    ensures LeastCost(bs, pd', w)
  {
    var d, c :| Lightest(bs, pd, d, c) && Cuts.CutWeight(bs, Part(pd, d), c) == w;
    var d' := SamePart(pd, pd', d);
    assert SamePartition(pd', pd);
    forall e, k | Cuts.IsCut(Part(pd', e), k)
      ensures w <= Cuts.CutWeight(bs, Part(pd', e), k)
    {
      var e' := SamePart(pd', pd, e);
      assert Cuts.IsCut(Part(pd, e'), k);
    }
    assert Lightest(bs, pd', d', c);
  }

  lemma MostStays(bs: seq<Cuts.Edge>, pd: map<nat, nat>, pd': map<nat, nat>, w: int)
    requires SamePartition(pd, pd') && MostSaving(bs, pd, w)
    ensures MostSaving(bs, pd', w)
  {
    var a, b :| Heaviest(bs, pd, a, b) && Saving(bs, pd, a, b) == w;
    var a', b' := SameSaving(bs, pd, pd', a, b);
    assert SamePartition(pd', pd);
    forall c, d | Domains(pd', c, d)
      ensures Saving(bs, pd', c, d) <= w
    {
      var c', d' := SameSaving(bs, pd', pd, c, d);
    }
    assert Heaviest(bs, pd', a', b');
  }

  /** The prices of a trade depend on the partition only. */
  lemma SamePartitionSameTrade(bs: seq<Cuts.Edge>, pd: map<nat, nat>, pd': map<nat, nat>)
    requires SamePartition(pd, pd') && !NoTradePays(bs, pd)
    ensures SameTrade(bs, pd, pd')
  {
    hide LeastCost;
    hide MostSaving;
    hide SamePartition;
    var inc, dec :| LeastCost(bs, pd, inc) && MostSaving(bs, pd, dec) && inc < dec;
    LeastStays(bs, pd, pd', inc);
    MostStays(bs, pd, pd', dec);
  }

  /** The two cuts are different, and not the two sides of one. */
  ghost predicate OtherCut(pd: map<nat, nat>, d: nat, c: set<nat>, d': nat, c': set<nat>) {
    d != d' || (c != c' && c != Part(pd, d) - c')
  }

  /** There is more than one lightest cut, and they weigh something. */
  ghost predicate Tied(bs: seq<Cuts.Edge>, pd: map<nat, nat>) {
    exists d, c, d', c' :: && Lightest(bs, pd, d, c) && Lightest(bs, pd, d', c') && OtherCut(pd, d, c, d', c')
                           && Cuts.CutWeight(bs, Part(pd, d), c) > 0
  }

  /** No placement of these components has two lightest cuts that weigh something. */
  ghost predicate Untied(bs: seq<Cuts.Edge>, keys: set<nat>) {
    forall pd: map<nat, nat> :: pd.Keys == keys ==> !Tied(bs, pd)
  }

  /** If a merge is followed by a split of the same weight, there is a tie between cuts, or the split undoes it. */
  lemma ExchangeIsTie(bs: seq<Cuts.Edge>, pd: map<nat, nat>, a: nat, b: nat, d: nat, s: set<nat>, n: nat)
    requires Domains(pd, a, b) && Spans(bs, pd) && Saving(bs, pd, a, b) > 0
    requires var m := MergedPlacement(pd, a, b);
             && Lightest(bs, m, d, s) && Cuts.CutWeight(bs, Part(m, d), s) == Cost(bs, pd) - Cost(bs, m)
             && forall x :: x in m ==> m[x] != n
    ensures var m := MergedPlacement(pd, a, b); Tied(bs, m) || SamePartition(pd, Relocated(m, s, n))
  {
    var m := MergedPlacement(pd, a, b);
    MergeCut(bs, pd, a, b);
    assert Lightest(bs, m, a, Part(pd, b));
    if !OtherCut(m, d, s, a, Part(pd, b)) {
      assert s == Part(pd, b) || s == Part(pd, a);
      assert SamePartition(pd, Relocated(m, s, n));
    }
  }

  /** No domain can be split and the total stay below the limit. */
  ghost predicate NoSplitFits(es: seq<Cuts.Edge>, pd: map<nat, nat>, total: int, limit: int) {
    forall d, c :: Cuts.IsCut(Part(pd, d), c) ==> total + Cuts.CutWeight(es, Part(pd, d), c) >= limit
  }

  lemma LeastDoesNotFit(bs: seq<Cuts.Edge>, pd: map<nat, nat>, total: int, limit: int, inc: int)
    requires NoSplitFits(bs, pd, total, limit) && LeastCost(bs, pd, inc)
    ensures total + inc >= limit
  {
    var d, c :| Lightest(bs, pd, d, c) && Cuts.CutWeight(bs, Part(pd, d), c) == inc;
  }

  lemma SavingBound(bs: seq<Cuts.Edge>, pd: map<nat, nat>, dec: int)
    requires Cuts.NonNegative(bs) && MostSaving(bs, pd, dec)
    ensures dec <= Cost(bs, pd)
  {
    var a, b :| Heaviest(bs, pd, a, b) && Saving(bs, pd, a, b) == dec;
    CostBounds(bs, MergedPlacement(pd, a, b));
  }

  lemma TradePays(bs: seq<Cuts.Edge>, pd: map<nat, nat>, inc: int, dec: int)
    requires LeastCost(bs, pd, inc) && MostSaving(bs, pd, dec)
    ensures NoTradePays(bs, pd) <==> inc >= dec
  {
    hide LeastCost;
    hide MostSaving;
    forall inc', dec' | LeastCost(bs, pd, inc') && MostSaving(bs, pd, dec')
      ensures inc' == inc && dec' == dec
    {
      SamePrices(bs, pd, pd, inc, inc');
      SameSavings(bs, pd, pd, dec, dec');
    }
  }

  lemma OtherTrade(bs: seq<Cuts.Edge>, pd: map<nat, nat>, pd': map<nat, nat>, inc: int, dec: int, inc': int, dec': int)
    requires LeastCost(bs, pd, inc) && MostSaving(bs, pd, dec) && LeastCost(bs, pd', inc') && MostSaving(bs, pd', dec')
    ensures SameTrade(bs, pd, pd') <==> inc == inc' && dec == dec'
  {
    hide LeastCost;
    hide MostSaving;
    forall i, d | LeastCost(bs, pd, i) && MostSaving(bs, pd, d) && LeastCost(bs, pd', i) && MostSaving(bs, pd', d)
      ensures i == inc == inc' && d == dec == dec'
    {
      SamePrices(bs, pd, pd, inc, i);
      SamePrices(bs, pd', pd', inc', i);
      SameSavings(bs, pd, pd, dec, d);
      SameSavings(bs, pd', pd', dec', d);
    }
  }

  lemma OtherPrice(bs: seq<Cuts.Edge>, pd: map<nat, nat>, pd': map<nat, nat>, inc: int, inc': int)
    requires LeastCost(bs, pd, inc) && LeastCost(bs, pd', inc') && inc != inc'
    ensures !SameTrade(bs, pd, pd')
  {
    hide LeastCost;
    hide MostSaving;
    forall i | LeastCost(bs, pd, i) && LeastCost(bs, pd', i)
      ensures false
    {
      SamePrices(bs, pd, pd, inc, i);
      SamePrices(bs, pd', pd', inc', i);
    }
  }

  /** Without a pd-edge no merge saves anything. */
  lemma NothingToMerge(es: seq<Edge>, pd: map<nat, nat>)
    requires Settled(es, map[], pd, {}) && Cuts.NonNegative(Bare(es))
    ensures NoTradePays(Bare(es), pd)
  {
    forall inc, dec | LeastCost(Bare(es), pd, inc) && MostSaving(Bare(es), pd, dec)
      ensures inc >= dec
    {
      var a, b :| Heaviest(Bare(es), pd, a, b) && Saving(Bare(es), pd, a, b) == dec;
      NoPdEdgeSavesNothing(es, map[], pd, a, b);
      var d, c :| Lightest(Bare(es), pd, d, c) && Cuts.CutWeight(Bare(es), Part(pd, d), c) == inc;
      BetweenBounds(Bare(es), c, Part(pd, d) - c);
    }
  }

  /** What does not fit has the limit between the cost of the placement and that of all edges. */
  lemma LimitBound(bs: seq<Cuts.Edge>, pd: map<nat, nat>, limit: int, inc: int, n: nat)
    requires Cuts.NonNegative(bs) && Spans(bs, pd) && NoSplitFits(bs, pd, Cost(bs, pd), limit) && LeastCost(bs, pd, inc)
    requires forall x :: x in pd ==> pd[x] != n
    ensures 0 <= inc && limit <= Cost(bs, pd) + inc <= TotalWeight(bs)
  {
    var d, c :| Lightest(bs, pd, d, c) && Cuts.CutWeight(bs, Part(pd, d), c) == inc;
    SplitBound(bs, pd, d, c, n);
    BetweenBounds(bs, c, Part(pd, d) - c);
  }
}
