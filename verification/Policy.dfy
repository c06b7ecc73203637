/** The protection-domain policy of src/components/include/mpd_policy.h: components move between domains,
    and the total cost of invocations across domains is kept up to date edge by edge. */
module Policy {
  import opened Seqs
  import opened PriorityHeap
  import opened PdEdges
  import Cuts

  /** An invocation edge between components; `master` is the pd-edge it is part of, if it crosses domains. */
  datatype Edge = Edge(from: nat, to: nat, inv: int, master: Option<nat>)

  // ----- sums over edges

  ghost function SumOf(es: seq<Edge>, p: nat): int {
    if es == [] then 0
    else SumOf(es[..|es| - 1], p) + if es[|es| - 1].master == Some(p) then es[|es| - 1].inv else 0
  }

  ghost function CountOf(es: seq<Edge>, p: nat): int {
    if es == [] then 0
    else CountOf(es[..|es| - 1], p) + if es[|es| - 1].master == Some(p) then 1 else 0
  }

  /** The weight of the edges that are part of some pd-edge. */
  ghost function AttachedSum(es: seq<Edge>): int {
    if es == [] then 0
    else AttachedSum(es[..|es| - 1]) + if es[|es| - 1].master.Some? then es[|es| - 1].inv else 0
  }

  /** The cost of a placement of components into domains: what is invoked across domains. */
  ghost function CrossCost(es: seq<Edge>, pd: map<nat, nat>): int {
    if es == [] then 0
    else CrossCost(es[..|es| - 1], pd) + if Crosses(es[|es| - 1], pd) then es[|es| - 1].inv else 0
  }

  ghost predicate Crosses(e: Edge, pd: map<nat, nat>) {
    e.from in pd && e.to in pd && pd[e.from] != pd[e.to]
  }

  lemma {:induction false} SumUpdate(es: seq<Edge>, i: nat, e: Edge, p: nat)
    requires i < |es|
    ensures SumOf(es[i := e], p)
            == SumOf(es, p) - (if es[i].master == Some(p) then es[i].inv else 0)
               + (if e.master == Some(p) then e.inv else 0)
  {
    var n := |es| - 1;
    if i == n {
      assert es[i := e][..n] == es[..n];
    } else {
      assert es[i := e][..n] == es[..n][i := e];
      SumUpdate(es[..n], i, e, p);
    }
  }

  lemma {:induction false} CountUpdate(es: seq<Edge>, i: nat, e: Edge, p: nat)
    requires i < |es|
    ensures CountOf(es[i := e], p)
            == CountOf(es, p) - (if es[i].master == Some(p) then 1 else 0) + if e.master == Some(p) then 1 else 0
  {
    var n := |es| - 1;
    if i == n {
      assert es[i := e][..n] == es[..n];
    } else {
      assert es[i := e][..n] == es[..n][i := e];
      CountUpdate(es[..n], i, e, p);
    }
  }

  lemma {:induction false} AttachedUpdate(es: seq<Edge>, i: nat, e: Edge)
    requires i < |es|
    ensures AttachedSum(es[i := e])
            == AttachedSum(es) - (if es[i].master.Some? then es[i].inv else 0) + if e.master.Some? then e.inv else 0
  {
    var n := |es| - 1;
    if i == n {
      assert es[i := e][..n] == es[..n];
    } else {
      assert es[i := e][..n] == es[..n][i := e];
      AttachedUpdate(es[..n], i, e);
    }
  }

  lemma {:induction false} CountPositive(es: seq<Edge>, i: nat, p: nat)
    requires i < |es| && es[i].master == Some(p)
    ensures CountOf(es, p) > 0
  {
    if i < |es| - 1 {
      CountPositive(es[..|es| - 1], i, p);
    } else {
      CountNonNegative(es[..|es| - 1], p);
    }
  }

  lemma {:induction false} CountNonNegative(es: seq<Edge>, p: nat)
    ensures CountOf(es, p) >= 0
  {
    if es != [] {
      CountNonNegative(es[..|es| - 1], p);
    }
  }

  lemma {:induction false} SumWithoutEdges(es: seq<Edge>, p: nat)
    requires CountOf(es, p) <= 0
    ensures SumOf(es, p) == 0
    ensures forall i :: 0 <= i < |es| ==> es[i].master != Some(p)
  {
    if es != [] {
      CountNonNegative(es[..|es| - 1], p);
      SumWithoutEdges(es[..|es| - 1], p);
    }
  }

  // ----- the pd-edges agree with the edges

  /** Edge e is part of the pd-edge between its ends' domains if it crosses, and of none otherwise. */
  ghost predicate Attached(e: Edge, pdes: map<nat, PdEdge>, pd: map<nat, nat>) {
    if Crosses(e, pd)
    then e.master.Some? && e.master.value in pdes && Links(pdes[e.master.value], pd[e.from], pd[e.to])
    else e.master.None?
  }

  /** At most one pd-edge joins two domains, and its weight and size are those of its edges. */
  ghost predicate PdEdgesOk(es: seq<Edge>, pdes: map<nat, PdEdge>) {
    && (forall p :: p in pdes ==>
          pdes[p].weight == SumOf(es, p) && pdes[p].nedges == CountOf(es, p) && pdes[p].nedges > 0)
    && (forall p, q :: p in pdes && q in pdes && Links(pdes[p], pdes[q].from, pdes[q].to) ==> p == q)
    && (forall p :: p in pdes ==> pdes[p].from != pdes[p].to)
    && (forall i :: 0 <= i < |es| && es[i].master.Some? ==> es[i].master.value in pdes)
  }

  lemma DetachOk(es: seq<Edge>, pdes: map<nat, PdEdge>, i: nat)
    requires PdEdgesOk(es, pdes) && i < |es| && es[i].master.Some?
    ensures es[i].master.value in pdes
    ensures var r := es[i := es[i].(master := None)];
            && PdEdgesOk(r, Dropped(pdes, es[i].master.value, es[i].inv))
            && AttachedSum(r) == AttachedSum(es) - es[i].inv
    ensures var k := pdes[es[i].master.value];
            k.nedges == 1 ==> k.weight == es[i].inv
  {
    var p := es[i].master.value;
    var r := es[i := es[i].(master := None)];
    AttachedUpdate(es, i, r[i]);
    forall q | q in pdes
      ensures SumOf(r, q) == SumOf(es, q) - (if q == p then es[i].inv else 0)
      ensures CountOf(r, q) == CountOf(es, q) - if q == p then 1 else 0
    {
      SumUpdate(es, i, r[i], q);
      CountUpdate(es, i, r[i], q);
    }
    if pdes[p].nedges == 1 {
      SumWithoutEdges(r, p);
    } else {
      CountNonNegative(r, p);
    }
  }

  /** Edge i joins the pd-edge p, which is at (from, to) and may be new. */
  lemma AttachOk(es: seq<Edge>, pdes: map<nat, PdEdge>, i: nat, p: nat, k: PdEdge)
    requires PdEdgesOk(es, pdes) && i < |es| && es[i].master.None? && (p !in pdes ==> k.from != k.to)
    requires if p in pdes then k == pdes[p] else k.weight == 0 && k.nedges == 0
    requires p !in pdes ==> forall q :: q in pdes ==> !Links(pdes[q], k.from, k.to)
    ensures var r := es[i := es[i].(master := Some(p))];
            && PdEdgesOk(r, pdes[p := k.(weight := k.weight + es[i].inv, nedges := k.nedges + 1)])
            && AttachedSum(r) == AttachedSum(es) + es[i].inv
  {
    var r := es[i := es[i].(master := Some(p))];
    var table := pdes[p := k.(weight := k.weight + es[i].inv, nedges := k.nedges + 1)];
    AttachedUpdate(es, i, r[i]);
    if p !in pdes {
      NoEdgesYet(es, pdes, p);
    }
    forall q | q in table
      ensures SumOf(r, q) == SumOf(es, q) + (if q == p then es[i].inv else 0)
      ensures CountOf(r, q) == CountOf(es, q) + if q == p then 1 else 0
    {
      SumUpdate(es, i, r[i], q);
      CountUpdate(es, i, r[i], q);
    }
  }

  lemma {:induction false} NoEdgesYet(es: seq<Edge>, pdes: map<nat, PdEdge>, p: nat)
    requires p !in pdes && forall i :: 0 <= i < |es| && es[i].master.Some? ==> es[i].master.value in pdes
    ensures SumOf(es, p) == 0 && CountOf(es, p) == 0
  {
    if es != [] {
      NoEdgesYet(es[..|es| - 1], pdes, p);
    }
  }

  /** The same components, edges and invocation counts; only the pd-edges may differ. */
  ghost predicate SameGraph(es: seq<Edge>, r: seq<Edge>) {
    |r| == |es| && forall i :: 0 <= i < |es| ==> r[i].from == es[i].from && r[i].to == es[i].to && r[i].inv == es[i].inv
  }

  /** Pd-edges that remain keep their ends and their place on the heap; new ones are on the heap. */
  ghost predicate Kept(was: map<nat, PdEdge>, next: nat, now: map<nat, PdEdge>) {
    forall q :: q in now ==>
      if q in was then now[q].from == was[q].from && now[q].to == was[q].to && now[q].onHeap == was[q].onHeap
      else q >= next && now[q].onHeap
  }

  /** Every edge is attached as the placement asks, but for the loose ones, which are part of no pd-edge. */
  ghost predicate Settled(es: seq<Edge>, pdes: map<nat, PdEdge>, pd: map<nat, nat>, loose: set<nat>) {
    forall j :: 0 <= j < |es| ==> if j in loose then es[j].master.None? else Attached(es[j], pdes, pd)
  }

  lemma DetachSettled(es: seq<Edge>, pdes: map<nat, PdEdge>, pd: map<nat, nat>, loose: set<nat>, i: nat)
    requires PdEdgesOk(es, pdes) && Settled(es, pdes, pd, loose) && i < |es| && es[i].master.Some?
    ensures es[i].master.value in pdes
    ensures Settled(es[i := es[i].(master := None)], Dropped(pdes, es[i].master.value, es[i].inv), pd, loose + {i})
  {
    var p := es[i].master.value;
    var r := es[i := es[i].(master := None)];
    DetachOk(es, pdes, i);
    forall j | 0 <= j < |r| && j != i && r[j].master.Some?
      ensures r[j].master.value in Dropped(pdes, es[i].master.value, es[i].inv)
    {
      assert r[j].master.value in Dropped(pdes, es[i].master.value, es[i].inv);
    }
  }

  lemma AttachSettled(es: seq<Edge>, pdes: map<nat, PdEdge>, pd: map<nat, nat>, loose: set<nat>, i: nat, p: nat,
                      k: PdEdge)
    requires Settled(es, pdes, pd, loose) && i < |es| && Crosses(es[i], pd)
    requires Links(k, pd[es[i].from], pd[es[i].to]) && (p in pdes ==> k.from == pdes[p].from && k.to == pdes[p].to)
    ensures Settled(es[i := es[i].(master := Some(p))], pdes[p := k], pd, loose - {i})
  {
  }

  // ----- there is room on the heap for one pd-edge per edge

  ghost function MasterSet(es: seq<Edge>): set<nat> {
    if es == [] then {}
    else MasterSet(es[..|es| - 1]) + if es[|es| - 1].master.Some? then {es[|es| - 1].master.value} else {}
  }

  lemma {:induction false} MasterSetBound(es: seq<Edge>, i: nat)
    requires i < |es| && es[i].master.None?
    ensures |MasterSet(es)| < |es|
  {
    if i < |es| - 1 {
      MasterSetBound(es[..|es| - 1], i);
    } else {
      MasterSetSize(es[..|es| - 1]);
    }
  }

  lemma {:induction false} MasterSetSize(es: seq<Edge>)
    ensures |MasterSet(es)| <= |es|
  {
    if es != [] {
      MasterSetSize(es[..|es| - 1]);
    }
  }

  lemma {:induction false} InMasterSet(es: seq<Edge>, p: nat)
    requires CountOf(es, p) > 0
    ensures p in MasterSet(es)
  {
    if es[|es| - 1].master != Some(p) {
      InMasterSet(es[..|es| - 1], p);
    }
  }

  lemma FewPdEdges(es: seq<Edge>, pdes: map<nat, PdEdge>, i: nat, q: set<nat>)
    requires PdEdgesOk(es, pdes) && i < |es| && es[i].master.None? && q <= pdes.Keys
    ensures |q| < |es|
  {
    forall p | p in q
      ensures p in MasterSet(es)
    {
      InMasterSet(es, p);
    }
    MasterSetBound(es, i);
    SubsetSize(q, MasterSet(es));
  }

  // ----- what moving components does to the cost

  lemma {:induction false} AttachedIsCross(es: seq<Edge>, pdes: map<nat, PdEdge>, pd: map<nat, nat>)
    requires forall i :: 0 <= i < |es| ==> Attached(es[i], pdes, pd)
    ensures AttachedSum(es) == CrossCost(es, pd)
  {
    if es != [] {
      AttachedIsCross(es[..|es| - 1], pdes, pd);
    }
  }

  /** The placement after the components of domain b have joined domain a. */
  ghost function MergedPlacement(pd: map<nat, nat>, a: nat, b: nat): map<nat, nat> {
    map x | x in pd :: if pd[x] == b then a else pd[x]
  }

  /** Merging the two ends of a pd-edge saves exactly the weight of its edges. */
  lemma {:induction false} MergeSaves(es: seq<Edge>, pd: map<nat, nat>, a: nat, b: nat, p: nat)
    requires a != b
    requires forall i :: 0 <= i < |es| ==> es[i].from in pd && es[i].to in pd
    requires forall i :: 0 <= i < |es| ==>
      (es[i].master == Some(p) <==> {pd[es[i].from], pd[es[i].to]} == {a, b})
    ensures CrossCost(es, MergedPlacement(pd, a, b)) == CrossCost(es, pd) - SumOf(es, p)
  {
    if es != [] {
      var n := |es| - 1;
      MergeSaves(es[..n], pd, a, b, p);
      var e := es[n];
      assert e.master == Some(p) <==> {pd[e.from], pd[e.to]} == {a, b};
      assert {pd[e.from], pd[e.to]} == {a, b} ==> pd[e.from] in {a, b} && pd[e.to] in {a, b};
      assert {pd[e.from], pd[e.to]} == {a, b} ==> a in {pd[e.from], pd[e.to]} && b in {pd[e.from], pd[e.to]};
    }
  }

  /** The edges as the min-cut algorithm sees them. */
  function Bare(es: seq<Edge>): (r: seq<Cuts.Edge>)
    ensures |r| == |es| && forall i :: 0 <= i < |es| ==> r[i] == Cuts.Edge(es[i].from, es[i].to, es[i].inv)
  {
    seq(|es|, i requires 0 <= i < |es| => Cuts.Edge(es[i].from, es[i].to, es[i].inv))
  }

  /** The placement after the components of s have moved to domain d. */
  ghost function Relocated(pd: map<nat, nat>, s: set<nat>, d: nat): map<nat, nat> {
    map x | x in pd :: if x in s then d else pd[x]
  }

  /** Splitting the set s off a domain costs exactly the weight of the cut between s and the rest of it. */
  lemma {:induction false} SplitCosts(es: seq<Edge>, pd: map<nat, nat>, whole: set<nat>, s: set<nat>, d: nat, d': nat)
    requires s <= whole && (forall x :: x in whole <==> x in pd && pd[x] == d)
    requires forall x :: x in pd ==> pd[x] != d'
    requires forall i :: 0 <= i < |es| ==> es[i].from in pd && es[i].to in pd
    ensures CrossCost(es, Relocated(pd, s, d')) == CrossCost(es, pd) + Cuts.CutWeight(Bare(es), whole, s)
  {
    if es != [] {
      var n := |es| - 1;
      SplitCosts(es[..n], pd, whole, s, d, d');
      assert Bare(es)[..n] == Bare(es[..n]);
    }
  }

  class PdPolicy {
    var edges: seq<Edge>
    var pd: map<nat, nat>
    var members: map<nat, seq<nat>>
    var nextPd: nat
    const t: EdgeTable

    /** mpd_pol_init, with room on the heap for `capacity` pd-edges. */
    constructor (capacity: nat)
      ensures edges == [] && pd == map[] && members == map[] && Quiet()
      ensures fresh(t) && fresh(t.h) && fresh(t.h.data) && t.h.data.Length == capacity + 1
    {
      edges, pd, members, nextPd := [], map[], map[], 0;
      t := new EdgeTable(capacity);
    }

    /** The pd-edges, their heap and the total are right for the edges that are attached. */
    ghost predicate Accounted()
      reads this`edges, t, t.h, t.h.data
    {
      t.Ok() && PdEdgesOk(edges, t.pdes) && t.totCost == AttachedSum(edges) && t.h.data.Length > |edges|
    }

    /** pd_remove_pd_edge. */
    method Detach(i: nat, ghost loose: set<nat>)
      requires Accounted() && i < |edges| && Settled(edges, t.pdes, pd, loose)
      modifies this`edges, t`pdes, t`totCost, t.h`e, t.h`pos, t.h.data
      ensures Accounted() && edges == old(edges)[i := old(edges)[i].(master := None)]
      ensures Settled(edges, t.pdes, pd, loose + {i}) && Kept(old(t.pdes), t.nextId, t.pdes)
    {
      hide Settled;
      hide PdEdgesOk;
      hide EdgeTable.Ok;
      if edges[i].master.None? {
        StillSettled(edges, t.pdes, pd, loose, i);
        return;
      }
      var e := edges[i];
      DetachOk(edges, t.pdes, i);
      DetachSettled(edges, t.pdes, pd, loose, i);
      t.DropEdge(e.master.value, e.inv);
      edges := edges[i := e.(master := None)];
    }

    /** pd_add_edge. */
    method Attach(i: nat, ghost loose: set<nat>)
      requires Accounted() && i < |edges| && Settled(edges, t.pdes, pd, loose)
      requires edges[i].master.None? && Crosses(edges[i], pd)
      modifies this`edges, t`pdes, t`nextId, t`totCost, t.h`e, t.h`pos, t.h.data
      ensures Accounted() && SameGraph(old(edges), edges) && t.nextId >= old(t.nextId)
      ensures forall j :: 0 <= j < |edges| && j != i ==> edges[j] == old(edges)[j]
      ensures Settled(edges, t.pdes, pd, loose - {i}) && Kept(old(t.pdes), old(t.nextId), t.pdes)
    {
      hide Settled;
      hide PdEdgesOk;
      hide EdgeTable.Ok;
      var e := edges[i];
      t.HeapRoom();
      FewPdEdges(edges, t.pdes, i, t.Queued());
      ghost var pdes := t.pdes;
      var p := t.TakeEdge(pd[e.from], pd[e.to], e.inv);
      ghost var k := if p in pdes then pdes[p] else PdEdge(pd[e.from], pd[e.to], 0, 0, true);
      AttachOk(edges, pdes, i, p, k);
      AttachSettled(edges, pdes, pd, loose, i, p, t.pdes[p]);
      edges := edges[i := e.(master := Some(p))];
    }

    /** The first two loops of pd_rem_component: the edges of c leave their pd-edges. */
    method DetachAll(c: nat)
      requires Accounted() && Settled(edges, t.pdes, pd, {})
      modifies this`edges, t`pdes, t`totCost, t.h`e, t.h`pos, t.h.data
      ensures Accounted() && SameGraph(old(edges), edges) && Kept(old(t.pdes), t.nextId, t.pdes)
      ensures Settled(edges, t.pdes, pd - {c}, {})
    {
      hide Settled;
      hide Accounted;
      hide Kept;
      hide OutEdges;
      hide InEdges;
      ghost var es := edges;
      NoEdges(es, c);
      KeptSelf(t.pdes, t.nextId);
      TableIds();
      for i := 0 to |edges|
        invariant Accounted() && SameGraph(es, edges) && Kept(old(t.pdes), t.nextId, t.pdes)
        invariant Settled(edges, t.pdes, pd, OutEdges(es, c, i))
      {
        OutStep(es, c, i);
        if edges[i].from == c {
          ghost var pdes := t.pdes;
          Detach(i, OutEdges(es, c, i));
          KeptTrans(old(t.pdes), t.nextId, pdes, t.nextId, t.pdes);
        }
      }
      for i := 0 to |edges|
        invariant Accounted() && SameGraph(es, edges) && Kept(old(t.pdes), t.nextId, t.pdes)
        invariant Settled(edges, t.pdes, pd, OutEdges(es, c, |es|) + InEdges(es, c, i))
      {
        OutStep(es, c, i);
        if edges[i].to == c {
          ghost var pdes := t.pdes;
          Detach(i, OutEdges(es, c, |es|) + InEdges(es, c, i));
          assert OutEdges(es, c, |es|) + (InEdges(es, c, i) + {i}) == OutEdges(es, c, |es|) + InEdges(es, c, i) + {i};
          KeptTrans(old(t.pdes), t.nextId, pdes, t.nextId, t.pdes);
        }
      }
      SameEdgeSets(es, edges, c, |es|);
      RemovedSettled(edges, t.pdes, pd, c);
    }

    lemma TableIds()
      requires Accounted()
      ensures forall p :: p in t.pdes ==> p < t.nextId
    {
    }

    /** The loops of pd_add_component: the edges of c that now cross domains join pd-edges. */
    method AttachAll(c: nat, d: nat)
      requires Accounted() && c in pd && pd[c] == d
      requires Settled(edges, t.pdes, pd, OutEdges(edges, c, |edges|) + InEdges(edges, c, |edges|))
      requires forall i :: 0 <= i < |edges| ==> edges[i].from in pd && edges[i].to in pd && edges[i].from != edges[i].to
      modifies this`edges, t`pdes, t`nextId, t`totCost, t.h`e, t.h`pos, t.h.data
      ensures Accounted() && SameGraph(old(edges), edges) && Kept(old(t.pdes), old(t.nextId), t.pdes)
      ensures t.nextId >= old(t.nextId) && Settled(edges, t.pdes, pd, {})
    {
      hide Settled;
      hide Accounted;
      hide Kept;
      hide OutEdges;
      hide InEdges;
      ghost var es := edges;
      ghost var all := OutEdges(es, c, |es|) + InEdges(es, c, |es|);
      NoEdges(es, c);
      KeptSelf(t.pdes, t.nextId);
      TableIds();
      assert all - {} == all;
      for i := 0 to |edges|
        invariant Accounted() && SameGraph(es, edges) && Kept(old(t.pdes), old(t.nextId), t.pdes)
        invariant t.nextId >= old(t.nextId)
        invariant Settled(edges, t.pdes, pd, all - OutEdges(es, c, i))
      {
        OutStep(es, c, i);
        if edges[i].from == c {
          LooseOut(es, c, i);
          AttachIfCrossing(i, all - OutEdges(es, c, i), old(t.pdes), old(t.nextId));
          assert all - (OutEdges(es, c, i) + {i}) == all - OutEdges(es, c, i) - {i};
        }
      }
      ghost var rest := all - OutEdges(es, c, |es|);
      assert rest - {} == rest;
      for i := 0 to |edges|
        invariant Accounted() && SameGraph(es, edges) && Kept(old(t.pdes), old(t.nextId), t.pdes)
        invariant t.nextId >= old(t.nextId)
        invariant Settled(edges, t.pdes, pd, rest - InEdges(es, c, i))
      {
        OutStep(es, c, i);
        if edges[i].to == c {
          LooseIn(es, c, i);
          AttachIfCrossing(i, rest - InEdges(es, c, i), old(t.pdes), old(t.nextId));
          assert rest - (InEdges(es, c, i) + {i}) == rest - InEdges(es, c, i) - {i};
        }
      }
      assert rest - InEdges(es, c, |es|) == {};
    }

    /** One round of the loops of pd_add_component. */
    method AttachIfCrossing(i: nat, ghost loose: set<nat>, ghost was: map<nat, PdEdge>, ghost next: nat)
      requires Accounted() && i < |edges| && i in loose && Settled(edges, t.pdes, pd, loose)
      requires edges[i].from in pd && edges[i].to in pd
      requires Kept(was, next, t.pdes) && next <= t.nextId && forall p :: p in was ==> p < next
      modifies this`edges, t`pdes, t`nextId, t`totCost, t.h`e, t.h`pos, t.h.data
      ensures Accounted() && SameGraph(old(edges), edges) && t.nextId >= old(t.nextId)
      ensures Settled(edges, t.pdes, pd, loose - {i}) && Kept(was, next, t.pdes)
    {
      hide Accounted;
      hide Kept;
      if pd[edges[i].from] != pd[edges[i].to] {
        ghost var pdes, id := t.pdes, t.nextId;
        assert edges[i].master.None?;
        hide Settled;
        Attach(i, loose);
        KeptTrans(was, next, pdes, id, t.pdes);
      } else {
        NothingToAttach(edges, t.pdes, pd, loose, i);
      }
    }

    /** pd_create. */
    method CreateDomain() returns (d: nat)
      requires MembersOk(pd, members, nextPd)
      modifies this`members, this`nextPd
      ensures d !in old(members) && members == old(members)[d := []] && MembersOk(pd, members, nextPd)
    {
      d := nextPd;
      nextPd := nextPd + 1;
      members := members[d := []];
    }

    /** pd_rem_component; the domain goes with its last member, when no pd-edge has an end there any more. */
    method RemComponent(c: nat) returns (freed: bool)
      requires Accounted() && Settled(edges, t.pdes, pd, {}) && MembersOk(pd, members, nextPd) && c in pd
      modifies this`edges, this`pd, this`members, t`pdes, t`totCost, t.h`e, t.h`pos, t.h.data
      ensures Accounted() && Settled(edges, t.pdes, pd, {}) && MembersOk(pd, members, nextPd)
      ensures SameGraph(old(edges), edges) && Kept(old(t.pdes), t.nextId, t.pdes) && pd == old(pd) - {c}
      ensures freed <==> |old(members)[old(pd)[c]]| == 1
      ensures members == if freed then old(members) - {old(pd)[c]}
                         else old(members)[old(pd)[c] := Without(old(members)[old(pd)[c]], c)]
      ensures freed ==> forall p :: p in t.pdes ==> t.pdes[p].from != old(pd)[c] && t.pdes[p].to != old(pd)[c]
    {
      hide Settled;
      hide Accounted;
      hide Kept;
      hide SameGraph;
      var d := pd[c];
      MemberLeaves(pd, members, nextPd, c);
      DetachAll(c);
      var rest := Without(members[d], c);
      members := if rest == [] then members - {d} else members[d := rest];
      pd := pd - {c};
      freed := rest == [];
      if freed {
        PdEdgeEnds(d);
      }
    }

    /** Every pd-edge ends in domains that have components. */
    lemma PdEdgeEnds(d: nat)
      requires Accounted() && Settled(edges, t.pdes, pd, {}) && forall x :: x in pd ==> pd[x] != d
      ensures forall p :: p in t.pdes ==> t.pdes[p].from != d && t.pdes[p].to != d
    {
      forall p | p in t.pdes
        ensures t.pdes[p].from != d && t.pdes[p].to != d
      {
        var i := SomeEdge(edges, p);
        assert Attached(edges[i], t.pdes, pd);
      }
    }

    /** pd_add_component. */
    method AddComponent(d: nat, c: nat)
      requires Accounted() && Settled(edges, t.pdes, pd, {}) && MembersOk(pd, members, nextPd)
      requires c !in pd && d in members && Within(edges, pd.Keys + {c})
      modifies this`edges, this`pd, this`members, t`pdes, t`nextId, t`totCost, t.h`e, t.h`pos, t.h.data
      ensures Accounted() && Settled(edges, t.pdes, pd, {}) && MembersOk(pd, members, nextPd)
      ensures SameGraph(old(edges), edges) && Kept(old(t.pdes), old(t.nextId), t.pdes) && t.nextId >= old(t.nextId)
      ensures pd == old(pd)[c := d] && members == old(members)[d := Inserted(old(members)[d], c)]
    {
      hide Settled;
      hide Accounted;
      hide Kept;
      hide SameGraph;
      MemberJoins(pd, members, nextPd, c, d);
      PlacedSettled(edges, t.pdes, pd, c, d);
      pd := pd[c := d];
      members := members[d := Inserted(members[d], c)];
      AttachAll(c, d);
    }

    /** A component changes domains: pd_rem_component, then pd_add_component.  The ghost parameters are the
        edges and pd-edges at the start of a sequence of moves. */
    method Move(c: nat, d: nat, ghost es: seq<Edge>, ghost was: map<nat, PdEdge>, ghost next: nat) returns (freed: bool)
      requires Accounted() && Settled(edges, t.pdes, pd, {}) && MembersOk(pd, members, nextPd)
      requires c in pd && d in members && pd[c] != d && Within(edges, pd.Keys)
      requires Since(es, was, next)
      modifies this`edges, this`pd, this`members, t`pdes, t`nextId, t`totCost, t.h`e, t.h`pos, t.h.data
      ensures Accounted() && Settled(edges, t.pdes, pd, {}) && MembersOk(pd, members, nextPd)
      ensures Since(es, was, next) && Within(edges, pd.Keys)
      ensures pd == old(pd)[c := d] && (freed <==> |old(members)[old(pd)[c]]| == 1)
      ensures var b := old(pd)[c];
              members == (if freed then old(members) - {b} else old(members)[b := Without(old(members)[b], c)])
                         [d := Inserted(old(members)[d], c)]
    {
      hide Settled;
      hide Accounted;
      hide Kept;
      hide MembersOk;
      hide SameGraph;
      hide Within;
      ghost var e0, n0, id0 := edges, t.pdes, t.nextId;
      TableIds();
      freed := RemComponent(c);
      ghost var e1, n1, id1 := edges, t.pdes, t.nextId;
      assert pd.Keys + {c} == old(pd).Keys;
      WithinSame(e0, edges, old(pd).Keys);
      AddComponent(d, c);
      KeptTrans(n0, id0, n1, id1, t.pdes);
      KeptTrans(was, next, n0, id0, t.pdes);
      SameGraphTrans(es, e0, e1);
      SameGraphTrans(es, e1, edges);
      WithinSame(e1, edges, old(pd).Keys);
      assert pd.Keys == old(pd).Keys;
    }

    /** The graph is still that of es, and the pd-edges have evolved from `was`. */
    ghost predicate Since(es: seq<Edge>, was: map<nat, PdEdge>, next: nat)
      reads this`edges, t`pdes, t`nextId
    {
      && SameGraph(es, edges) && Kept(was, next, t.pdes) && next <= t.nextId
      && forall p :: p in was ==> p < next
    }

    lemma SinceNow()
      requires Accounted()
      ensures Since(edges, t.pdes, t.nextId)
    {
    }

    /** The state between the operations of the policy, but for pd-edges that may be off the heap. */
    ghost predicate Consistent()
      reads this, t, t.h, t.h.data
    {
      && Accounted() && Settled(edges, t.pdes, pd, {}) && MembersOk(pd, members, nextPd)
      && Within(edges, pd.Keys) && NonEmpty(members)
    }

    /** __pd_merge: all components of domain b move to domain a, and b is freed with the last of them. */
    method Merge(a: nat, b: nat)
      requires Consistent() && a in members && b in members && a != b
      modifies this`edges, this`pd, this`members, t`pdes, t`nextId, t`totCost, t.h`e, t.h`pos, t.h.data
      ensures Consistent() && Since(old(edges), old(t.pdes), old(t.nextId))
      ensures pd == MergedPlacement(old(pd), a, b) && members.Keys == old(members).Keys - {b}
    {
      hide Settled;
      hide Accounted;
      hide Since;
      hide Within;
      hide NonEmpty;
      hide MembersOk;
      hide Merging;
      ghost var moved: set<nat> := {};
      SinceNow();
      MergeStart(pd, members, nextPd, a, b);
      var more := true;
      while more
        invariant Accounted() && Settled(edges, t.pdes, pd, {}) && MembersOk(pd, members, nextPd)
        invariant Within(edges, pd.Keys) && NonEmpty(members) && Since(old(edges), old(t.pdes), old(t.nextId))
        invariant Merging(old(pd), pd, members, a, b, moved)
        invariant members.Keys == if more then old(members).Keys else old(members).Keys - {b}
        decreases if more then 1 + |members[b]| else 0
      {
        MergeHead(old(pd), pd, members, a, b, moved);
        var c := if |members[b]| > 1 then members[b][1] else members[b][0];
        MergeFrame(old(pd), pd, members, nextPd, a, b, moved, c);
        var freed := Move(c, a, old(edges), old(t.pdes), old(t.nextId));
        moved := moved + {c};
        more := !freed;
      }
      MergeEnd(old(pd), pd, members, nextPd, a, b, moved);
    }

    /** In a consistent state the total is the cost of the placement. */
    lemma TotalIsCross()
      requires Consistent()
      ensures t.totCost == CrossCost(edges, pd)
    {
      AttachedIsCross(edges, t.pdes, pd);
    }

    /** The state between the operations of the policy. */
    ghost predicate Quiet()
      reads this, t, t.h, t.h.data
    {
      Consistent() && AllQueued(t.pdes)
    }

    /** mpd_decrease_overhead: merging the two ends of a heaviest pd-edge saves exactly its weight. */
    method DecreaseOverhead() returns (a: nat, b: nat, ghost p: nat)
      requires Quiet() && t.h.e > 1
      modifies this`edges, this`pd, this`members, t`pdes, t`nextId, t`totCost, t.h`e, t.h`pos, t.h.data
      ensures Quiet() && SameGraph(old(edges), edges) && p in old(t.pdes)
      ensures forall q :: q in old(t.pdes) ==> old(t.pdes)[p].weight >= old(t.pdes)[q].weight
      ensures t.totCost == old(t.totCost) - old(t.pdes)[p].weight
      ensures a == old(t.pdes)[p].from && b == old(t.pdes)[p].to && a != b && pd == MergedPlacement(old(pd), a, b)
      ensures a in old(members) && b in old(members) && members.Keys == old(members).Keys - {b}
    {
      hide Settled;
      hide Within;
      hide SameGraph;
      hide MembersOk;
      hide NonEmpty;
      hide Kept;
      hide PdEdgesOk;
      hide EdgeTable.Ok;
      ghost var es, place := edges, pd;
      TotalIsCross();
      QueuedCount();
      ghost var pdes := t.pdes;
      var k := t.PopHeaviest();
      p := k;
      a, b := t.pdes[k].from, t.pdes[k].to;
      Unqueued(edges, pdes, pd, k);
      EndsHaveMembers(edges, pdes, pd, members, nextPd, k);
      MergeWeight(edges, pdes, pd, k);
      ghost var popped, id := t.pdes, t.nextId;
      assert forall q :: q in popped ==> q < id by { IdsBelow(); }
      Merge(a, b);
      TotalIsCross();
      CrossCostSame(es, edges, pd);
      NotLinked(edges, t.pdes, pd, a, b);
      RestQueued(pdes, popped, id, t.pdes, k);
    }

    lemma IdsBelow()
      requires t.Ok()
      ensures forall p :: p in t.pdes ==> p < t.nextId
    {
    }

    /** In a quiet state every pd-edge is on the heap. */
    lemma QueuedCount()
      requires t.Ok() && AllQueued(t.pdes)
      ensures t.h.e > 1 ==> t.Queued() != {}
      ensures t.h.e <= 1 ==> t.pdes == map[]
    {
      t.HeapRoom();
      if t.pdes != map[] {
        var p :| p in t.pdes;
        assert p in t.Queued();
      }
    }

    lemma NothingCrosses()
      requires Quiet() && t.h.e <= 1
      ensures t.totCost == 0 && t.pdes == map[]
    {
      QueuedCount();
      NoneAttached(edges, t.pdes);
    }

    /** The components of the cut move from domain d to a new one.  The cost rises by exactly the weight of the cut, and
        the domain keeps at least one component. */
    method Split(d: nat, cut: seq<nat>) returns (n: nat)
      requires Quiet() && d in members && Distinct(cut) && Cuts.IsCut(Elems(members[d]), Elems(cut))
      modifies this`edges, this`pd, this`members, this`nextPd, t`pdes, t`nextId, t`totCost, t.h`e, t.h`pos, t.h.data
      ensures Quiet() && SameGraph(old(edges), edges)
      ensures pd == Relocated(old(pd), Elems(cut), n)
      ensures n !in old(members) && members.Keys == old(members).Keys + {n}
      ensures t.totCost == old(t.totCost) + Cuts.CutWeight(Bare(old(edges)), Elems(old(members)[d]), Elems(cut))
    {
      hide Settled;
      hide Accounted;
      hide Since;
      hide Within;
      hide MembersOk;
      hide NonEmpty;
      hide Kept;
      hide SameGraph;
      hide Cuts.CutWeight;
      TotalIsCross();
      n := SplitOff(d, cut);
      TotalIsCross();
      SinceGraph(old(edges), old(t.pdes), old(t.nextId));
      StillQueued(old(t.pdes), old(t.nextId), t.pdes);
      CrossCostSame(old(edges), edges, pd);
      SplitTotal(old(edges), old(pd), old(members), old(nextPd), Elems(cut), d, n);
    }

    lemma SinceGraph(es: seq<Edge>, was: map<nat, PdEdge>, next: nat)
      requires Since(es, was, next)
      ensures SameGraph(es, edges) && Kept(was, next, t.pdes)
    {
    }

    /** The loop of pd_split: the components of the cut move to a new domain. */
    method SplitOff(d: nat, cut: seq<nat>) returns (n: nat)
      requires Consistent() && d in members && Distinct(cut) && Cuts.IsCut(Elems(members[d]), Elems(cut))
      modifies this`edges, this`pd, this`members, this`nextPd, t`pdes, t`nextId, t`totCost, t.h`e, t.h`pos, t.h.data
      ensures Consistent() && Since(old(edges), old(t.pdes), old(t.nextId))
      ensures pd == Relocated(old(pd), Elems(cut), n)
      ensures n !in old(members) && members.Keys == old(members).Keys + {n}
    {
      hide Settled;
      hide Accounted;
      hide Since;
      hide Within;
      hide MembersOk;
      hide NonEmpty;
      hide Splitting;
      SinceNow();
      n := CreateDomain();
      ghost var stay := SplitStart(old(pd), old(members), members, nextPd, d, n, cut);
      ghost var moved: set<nat> := {};
      var rest := cut;
      while rest != []
        invariant Accounted() && Settled(edges, t.pdes, pd, {}) && MembersOk(pd, members, nextPd)
        invariant Within(edges, pd.Keys) && Since(old(edges), old(t.pdes), old(t.nextId))
        invariant members.Keys == old(members).Keys + {n}
        invariant Splitting(old(pd), pd, d, n, Elems(cut), stay, moved, rest) && Filling(members, d, n)
        invariant rest == [] ==> NonEmpty(members)
        decreases |rest|
      {
        var c := if |rest| > 1 then rest[1] else rest[0];
        SplitStep(old(pd), pd, d, n, Elems(cut), stay, moved, rest, c);
        FillStep(pd, members, nextPd, d, n, stay, c);
        var freed := Move(c, n, old(edges), old(t.pdes), old(t.nextId));
        rest, moved := Without(rest, c), moved + {c};
      }
      SplitEnd(old(pd), pd, d, n, Elems(cut), stay, moved);
    }

    /** edge_set_inv: the total follows the edge if it crosses domains. */
    method SetInv(i: nat, val: int)
      requires Quiet() && i < |edges|
      modifies this`edges, t`pdes, t`totCost, t.h`pos, t.h.data
      ensures Quiet() && edges == old(edges)[i := old(edges)[i].(inv := val)]
      ensures t.totCost == old(t.totCost) + if Crosses(old(edges)[i], pd) then val - old(edges)[i].inv else 0
    {
      hide EdgeTable.Ok;
      hide MembersOk;
      hide NonEmpty;
      hide Within;
      hide PdEdgesOk;
      hide Settled;
      hide Crosses;
      hide AttachedSum;
      var e := edges[i];
      SetInvOk(edges, t.pdes, pd, i, val);
      SameWithin(edges, pd.Keys, i, val);
      edges := edges[i := e.(inv := val)];
      if e.master.Some? {
        t.SetWeight(e.master.value, t.pdes[e.master.value].weight + (val - e.inv));
      }
    }

    /** mpd_component_add_edge. */
    method AddEdge(from: nat, to: nat, inv: int)
      requires Quiet() && from in pd && to in pd && pd[from] != pd[to] && t.h.data.Length > |edges| + 1
      modifies this`edges, t`pdes, t`nextId, t`totCost, t.h`e, t.h`pos, t.h.data
      ensures Quiet() && SameGraph(old(edges) + [Edge(from, to, inv, None)], edges)
      ensures t.totCost == old(t.totCost) + inv
    {
      hide EdgeTable.Ok;
      hide MembersOk;
      hide NonEmpty;
      TotalIsCross();
      var i := |edges|;
      var e := Edge(from, to, inv, None);
      NewEdgeOk(edges, t.pdes, pd, e);
      edges := edges + [e];
      hide PdEdgesOk;
      hide Settled;
      hide SameGraph;
      ghost var pdes, next := t.pdes, t.nextId;
      ghost var es := edges;
      Attach(i, {i});
      assert {i} - {i} == {};
      WithinSame(es, edges, pd.Keys);
      StillQueued(pdes, next, t.pdes);
      TotalIsCross();
      CrossCostSame(es, edges, pd);
    }

    /** try_create_component: a new component starts in a domain of its own. */
    method TryCreateComponent(c: nat)
      requires Quiet()
      modifies this`pd, this`members, this`nextPd
      ensures Quiet() && c in pd && (c in old(pd) ==> pd == old(pd) && members == old(members))
      ensures c !in old(pd) ==> pd == old(pd)[c := pd[c]] && pd[c] !in old(members)
      ensures c !in old(pd) ==> members == old(members)[pd[c] := [c]]
    {
      hide Accounted;
      hide Settled;
      hide MembersOk;
      hide Within;
      if c !in pd {
        var d := CreateDomain();
        NewcomerSettled(edges, t.pdes, pd, c, d);
        MemberJoins(pd, members, nextPd, c, d);
        members := members[d := [c]];
        pd := pd[c := d];
      }
    }
  }

  lemma StillSettled(es: seq<Edge>, pdes: map<nat, PdEdge>, pd: map<nat, nat>, loose: set<nat>, i: nat)
    requires Settled(es, pdes, pd, loose) && i < |es| && es[i].master.None?
    ensures Settled(es, pdes, pd, loose + {i})
  {
  }

  lemma NothingToAttach(es: seq<Edge>, pdes: map<nat, PdEdge>, pd: map<nat, nat>, loose: set<nat>, i: nat)
    requires Settled(es, pdes, pd, loose) && i < |es| && i in loose && !Crosses(es[i], pd)
    ensures Settled(es, pdes, pd, loose - {i})
  {
  }

  /** The edges of component c among the first n (its outward list, then its inward list). */
  ghost function OutEdges(es: seq<Edge>, c: nat, n: nat): set<nat>
    requires n <= |es|
  {
    set j | 0 <= j < n && es[j].from == c
  }

  ghost function InEdges(es: seq<Edge>, c: nat, n: nat): set<nat>
    requires n <= |es|
  {
    set j | 0 <= j < n && es[j].to == c
  }

  lemma RemovedSettled(es: seq<Edge>, pdes: map<nat, PdEdge>, pd: map<nat, nat>, c: nat)
    requires Settled(es, pdes, pd, OutEdges(es, c, |es|) + InEdges(es, c, |es|))
    ensures Settled(es, pdes, pd - {c}, {})
  {
  }

  lemma PlacedSettled(es: seq<Edge>, pdes: map<nat, PdEdge>, pd: map<nat, nat>, c: nat, d: nat)
    requires Settled(es, pdes, pd, {}) && c !in pd
    ensures Settled(es, pdes, pd[c := d], OutEdges(es, c, |es|) + InEdges(es, c, |es|))
  {
  }

  lemma SameEdgeSets(es: seq<Edge>, r: seq<Edge>, c: nat, n: nat)
    requires SameGraph(es, r) && n <= |es|
    ensures OutEdges(r, c, n) == OutEdges(es, c, n) && InEdges(r, c, n) == InEdges(es, c, n)
  {
  }

  lemma OutStep(es: seq<Edge>, c: nat, i: nat)
    requires i < |es|
    ensures OutEdges(es, c, i + 1) == if es[i].from == c then OutEdges(es, c, i) + {i} else OutEdges(es, c, i)
    ensures InEdges(es, c, i + 1) == if es[i].to == c then InEdges(es, c, i) + {i} else InEdges(es, c, i)
  {
  }

  lemma KeptTrans(a: map<nat, PdEdge>, next: nat, b: map<nat, PdEdge>, next': nat, c: map<nat, PdEdge>)
    requires Kept(a, next, b) && Kept(b, next', c) && next <= next' && forall p :: p in a ==> p < next
    ensures Kept(a, next, c)
  {
  }

  lemma NoEdges(es: seq<Edge>, c: nat)
    ensures OutEdges(es, c, 0) == {} && InEdges(es, c, 0) == {}
    ensures OutEdges(es, c, |es|) + {} == OutEdges(es, c, |es|)
  {
  }

  lemma KeptSelf(t: map<nat, PdEdge>, next: nat)
    ensures Kept(t, next, t)
  {
  }

  lemma LooseOut(es: seq<Edge>, c: nat, i: nat)
    requires i < |es| && es[i].from == c
    ensures i in OutEdges(es, c, |es|) + InEdges(es, c, |es|) - OutEdges(es, c, i)
  {
  }

  lemma LooseIn(es: seq<Edge>, c: nat, i: nat)
    requires i < |es| && es[i].to == c && es[i].from != c
    ensures i in OutEdges(es, c, |es|) + InEdges(es, c, |es|) - OutEdges(es, c, |es|) - InEdges(es, c, i)
  {
  }

  // ----- the members of the domains

  ghost predicate ListsDomain(pd: map<nat, nat>, m: seq<nat>, d: nat) {
    forall x: nat :: x in m <==> x in pd && pd[x] == d
  }

  /** The member lists of the domains say what the placement says. */
  ghost predicate MembersOk(pd: map<nat, nat>, members: map<nat, seq<nat>>, nextPd: nat) {
    && (forall d :: d in members ==> d < nextPd && Distinct(members[d]) && ListsDomain(pd, members[d], d))
    && (forall x :: x in pd ==> pd[x] in members)
  }

  /** The list with x inserted after its head, as ADD_LIST does. */
  function Inserted(s: seq<nat>, x: nat): seq<nat> {
    if s == [] then [x] else [s[0], x] + s[1..]
  }

  lemma InsertedElems(s: seq<nat>, x: nat)
    requires Distinct(s) && x !in s
    ensures Distinct(Inserted(s, x)) && forall y :: y in Inserted(s, x) <==> y in s || y == x
  {
    if s != [] {
      assert s == [s[0]] + s[1..];
    }
  }

  lemma MemberLeaves(pd: map<nat, nat>, members: map<nat, seq<nat>>, nextPd: nat, c: nat)
    requires MembersOk(pd, members, nextPd) && c in pd
    ensures var rest := Without(members[pd[c]], c);
            && |rest| == |members[pd[c]]| - 1
            && MembersOk(pd - {c}, if rest == [] then members - {pd[c]} else members[pd[c] := rest], nextPd)
            && (rest == [] ==> forall x :: x in pd - {c} ==> pd[x] != pd[c])
  {
    var m := members[pd[c]];
    var rest := Without(m, c);
    WithoutElems(m, c);
    assert c in m;
    forall x: nat
      ensures x in rest <==> x in m && x != c
    {
      assert x in rest <==> x in Elems(rest);
      assert x in m <==> x in Elems(m);
    }
    assert ListsDomain(pd - {c}, rest, pd[c]);
    forall d | d in members && d != pd[c]
      ensures ListsDomain(pd - {c}, members[d], d)
    {
      assert ListsDomain(pd, members[d], d);
    }
  }

  lemma MemberJoins(pd: map<nat, nat>, members: map<nat, seq<nat>>, nextPd: nat, c: nat, d: nat)
    requires MembersOk(pd, members, nextPd) && c !in pd && d in members
    ensures MembersOk(pd[c := d], members[d := Inserted(members[d], c)], nextPd)
  {
    assert ListsDomain(pd, members[d], d);
    InsertedElems(members[d], c);
    assert ListsDomain(pd[c := d], Inserted(members[d], c), d);
    forall k | k in members && k != d
      ensures ListsDomain(pd[c := d], members[k], k)
    {
      assert ListsDomain(pd, members[k], k);
    }
  }

  /** Every edge joins two different components of s. */
  ghost predicate Within(es: seq<Edge>, s: set<nat>) {
    forall i :: 0 <= i < |es| ==> es[i].from in s && es[i].to in s && es[i].from != es[i].to
  }

  lemma {:induction false} SomeEdge(es: seq<Edge>, p: nat) returns (i: nat)
    requires CountOf(es, p) > 0
    ensures i < |es| && es[i].master == Some(p)
  {
    if es[|es| - 1].master == Some(p) {
      i := |es| - 1;
    } else {
      i := SomeEdge(es[..|es| - 1], p);
    }
  }

  // ----- merging

  ghost predicate NonEmpty(members: map<nat, seq<nat>>) {
    forall d :: d in members ==> members[d] != []
  }

  /** Of the components of domain b, those of `moved` are in domain a already. */
  ghost predicate Merging(was: map<nat, nat>, pd: map<nat, nat>, members: map<nat, seq<nat>>, a: nat, b: nat,
                          moved: set<nat>) {
    && pd == Relocated(was, moved, a) && a in members && a != b
    && (forall x :: x in moved ==> x in was && was[x] == b)
  }

  lemma MergeStart(pd: map<nat, nat>, members: map<nat, seq<nat>>, nextPd: nat, a: nat, b: nat)
    requires MembersOk(pd, members, nextPd) && a in members && b in members && a != b
    ensures Merging(pd, pd, members, a, b, {})
  {
  }

  lemma MergeHead(was: map<nat, nat>, pd: map<nat, nat>, members: map<nat, seq<nat>>, a: nat, b: nat, moved: set<nat>)
    requires Merging(was, pd, members, a, b, moved) && b in members && NonEmpty(members)
    ensures a in members && a != b && members[b] != []
  {
  }

  /** What the move of component c from b to a does to the placement and the member lists. */
  lemma MergeFrame(was: map<nat, nat>, pd: map<nat, nat>, members: map<nat, seq<nat>>, nextPd: nat,
                   a: nat, b: nat, moved: set<nat>, c: nat)
    requires Merging(was, pd, members, a, b, moved) && MembersOk(pd, members, nextPd) && NonEmpty(members)
    requires b in members && c in members[b]
    ensures c in pd && pd[c] == b
    ensures var freed := |members[b]| == 1;
            var rest := if freed then members - {b} else members[b := Without(members[b], c)];
            var m := rest[a := Inserted(members[a], c)];
            && Merging(was, pd[c := a], m, a, b, moved + {c}) && NonEmpty(m)
            && m.Keys == (if freed then members.Keys - {b} else members.Keys)
            && (!freed ==> |m[b]| < |members[b]|)
  {
    assert ListsDomain(pd, members[b], b);
    WithoutElems(members[b], c);
  }

  lemma MergeEnd(was: map<nat, nat>, pd: map<nat, nat>, members: map<nat, seq<nat>>, nextPd: nat, a: nat, b: nat,
                 moved: set<nat>)
    requires Merging(was, pd, members, a, b, moved) && MembersOk(pd, members, nextPd) && b !in members
    ensures pd == MergedPlacement(was, a, b)
  {
    forall x | x in was && was[x] == b
      ensures x in moved
    {
      assert x in pd && pd[x] in members;
    }
  }

  lemma SameGraphTrans(a: seq<Edge>, b: seq<Edge>, c: seq<Edge>)
    requires SameGraph(a, b) && SameGraph(b, c)
    ensures SameGraph(a, c)
  {
  }

  lemma WithinSame(es: seq<Edge>, r: seq<Edge>, s: set<nat>)
    requires SameGraph(es, r) && Within(es, s)
    ensures Within(r, s)
  {
  }

  // ----- greedy merging

  ghost predicate AllQueued(pdes: map<nat, PdEdge>) {
    forall p :: p in pdes ==> pdes[p].onHeap
  }

  /** Taking a pd-edge off the heap changes nothing else about it. */
  lemma Unqueued(es: seq<Edge>, pdes: map<nat, PdEdge>, pd: map<nat, nat>, p: nat)
    requires PdEdgesOk(es, pdes) && Settled(es, pdes, pd, {}) && p in pdes
    ensures var r := pdes[p := pdes[p].(onHeap := false)];
            PdEdgesOk(es, r) && Settled(es, r, pd, {})
  {
  }

  lemma EndsHaveMembers(es: seq<Edge>, pdes: map<nat, PdEdge>, pd: map<nat, nat>,
                        members: map<nat, seq<nat>>, nextPd: nat, p: nat)
    requires PdEdgesOk(es, pdes) && Settled(es, pdes, pd, {}) && MembersOk(pd, members, nextPd) && p in pdes
    ensures pdes[p].from in members && pdes[p].to in members && pdes[p].from != pdes[p].to
  {
    var i := SomeEdge(es, p);
    assert Attached(es[i], pdes, pd);
  }

  /** Merging the ends of pd-edge p lowers the cost of the placement by its weight. */
  lemma MergeWeight(es: seq<Edge>, pdes: map<nat, PdEdge>, pd: map<nat, nat>, p: nat)
    requires PdEdgesOk(es, pdes) && Settled(es, pdes, pd, {}) && Within(es, pd.Keys) && p in pdes
    ensures CrossCost(es, MergedPlacement(pd, pdes[p].from, pdes[p].to)) == CrossCost(es, pd) - pdes[p].weight
  {
    var a, b := pdes[p].from, pdes[p].to;
    forall i | 0 <= i < |es|
      ensures es[i].master == Some(p) <==> {pd[es[i].from], pd[es[i].to]} == {a, b}
    {
      assert Attached(es[i], pdes, pd);
      var x, y := pd[es[i].from], pd[es[i].to];
      if {x, y} == {a, b} {
        assert x in {a, b} && y in {a, b} && a in {x, y} && b in {x, y};
        assert Links(pdes[p], x, y);
      }
    }
    MergeSaves(es, pd, a, b, p);
  }

  lemma {:induction false} CrossCostSame(es: seq<Edge>, r: seq<Edge>, pd: map<nat, nat>)
    requires SameGraph(es, r)
    ensures CrossCost(es, pd) == CrossCost(r, pd)
  {
    if es != [] {
      CrossCostSame(es[..|es| - 1], r[..|es| - 1], pd);
    }
  }

  /** No pd-edge ends in a domain without components. */
  lemma NotLinked(es: seq<Edge>, pdes: map<nat, PdEdge>, pd: map<nat, nat>, a: nat, b: nat)
    requires PdEdgesOk(es, pdes) && Settled(es, pdes, pd, {}) && forall x :: x in pd ==> pd[x] != b
    ensures forall p :: p in pdes ==> !Links(pdes[p], a, b)
  {
    forall p | p in pdes
      ensures !Links(pdes[p], a, b)
    {
      var i := SomeEdge(es, p);
      assert Attached(es[i], pdes, pd);
    }
  }

  lemma RestQueued(was: map<nat, PdEdge>, popped: map<nat, PdEdge>, next: nat, now: map<nat, PdEdge>, p: nat)
    requires AllQueued(was) && p in was && popped == was[p := was[p].(onHeap := false)] && Kept(popped, next, now)
    requires forall q :: q in now ==> !Links(now[q], was[p].from, was[p].to)
    ensures AllQueued(now)
  {
    forall q | q in now
      ensures now[q].onHeap
    {
      assert q in popped ==> now[q].from == was[q].from && now[q].to == was[q].to;
    }
  }

  /** Components that were in one domain still are. */
  ghost predicate Coarser(was: map<nat, nat>, pd: map<nat, nat>) {
    pd.Keys == was.Keys && forall x, y :: x in was && y in was && was[x] == was[y] ==> pd[x] == pd[y]
  }

  lemma CoarserStep(was: map<nat, nat>, mid: map<nat, nat>, pd: map<nat, nat>)
    requires Coarser(was, mid) && pd.Keys == mid.Keys
    requires forall x, y :: x in mid && y in mid && mid[x] == mid[y] ==> pd[x] == pd[y]
    ensures Coarser(was, pd)
  {
  }

  lemma {:induction false} NoneAttached(es: seq<Edge>, pdes: map<nat, PdEdge>)
    requires pdes == map[] && forall i :: 0 <= i < |es| && es[i].master.Some? ==> es[i].master.value in pdes
    ensures AttachedSum(es) == 0
  {
    if es != [] {
      NoneAttached(es[..|es| - 1], pdes);
    }
  }

  // ----- splitting

  /** Of the components of `cut`, those of `moved` are in the new domain n already and those of `rest` are not;
      `stay` remains in domain d. */
  ghost predicate Splitting(was: map<nat, nat>, pd: map<nat, nat>, d: nat, n: nat, cut: set<nat>, stay: nat,
                            moved: set<nat>, rest: seq<nat>)
  {
    && pd == Relocated(was, moved, n) && Distinct(rest) && (forall x: nat :: x in cut <==> x in moved || x in rest)
    && (forall x :: x in rest ==> x !in moved)
    && (forall x :: x in cut ==> x in was && was[x] == d)
    && stay in was && was[stay] == d && stay !in cut
  }

  /** Only the new domain may have no components yet. */
  ghost predicate Filling(members: map<nat, seq<nat>>, d: nat, n: nat) {
    d in members && n in members && d != n && forall k :: k in members ==> k == n || members[k] != []
  }

  lemma SplitStart(pd: map<nat, nat>, was: map<nat, seq<nat>>, members: map<nat, seq<nat>>, nextPd: nat, d: nat,
                   n: nat, cut: seq<nat>)
    returns (stay: nat)
    requires MembersOk(pd, members, nextPd) && NonEmpty(was) && d in was && n !in was && members == was[n := []]
    requires Distinct(cut) && Cuts.IsCut(Elems(members[d]), Elems(cut))
    ensures Splitting(pd, pd, d, n, Elems(cut), stay, {}, cut) && Filling(members, d, n)
  {
    assert ListsDomain(pd, members[d], d);
    stay :| stay in Elems(members[d]) && stay !in Elems(cut);
    assert stay in pd && pd[stay] == d;
    forall x | x in cut
      ensures x in pd && pd[x] == d
    {
      assert x in Elems(cut);
      assert x in members[d];
    }
  }

  lemma SplitStep(was: map<nat, nat>, pd: map<nat, nat>, d: nat, n: nat, cut: set<nat>, stay: nat,
                  moved: set<nat>, rest: seq<nat>, c: nat)
    requires Splitting(was, pd, d, n, cut, stay, moved, rest) && c in rest && d != n
    ensures c in pd && pd[c] == d && stay in pd && pd[stay] == d && stay != c && |Without(rest, c)| < |rest|
    ensures Splitting(was, pd[c := n], d, n, cut, stay, moved + {c}, Without(rest, c))
  {
    WithoutElems(rest, c);
    assert forall x :: x in rest <==> x in Elems(rest);
    assert forall x :: x in Without(rest, c) <==> x in Elems(Without(rest, c));
  }

  lemma FillStep(pd: map<nat, nat>, members: map<nat, seq<nat>>, nextPd: nat, d: nat, n: nat, stay: nat, c: nat)
    requires Filling(members, d, n) && MembersOk(pd, members, nextPd)
    requires c in pd && pd[c] == d && stay in pd && pd[stay] == d && stay != c
    ensures |members[d]| > 1
    ensures var m := members[d := Without(members[d], c)][n := Inserted(members[n], c)];
            Filling(m, d, n) && NonEmpty(m) && m.Keys == members.Keys
  {
    assert ListsDomain(pd, members[d], d);
    assert c in members[d] && stay in members[d];
    WithoutElems(members[d], c);
    assert stay in Elems(Without(members[d], c));
  }

  lemma SplitEnd(was: map<nat, nat>, pd: map<nat, nat>, d: nat, n: nat, cut: set<nat>, stay: nat, moved: set<nat>)
    requires Splitting(was, pd, d, n, cut, stay, moved, [])
    ensures pd == Relocated(was, cut, n)
  {
    assert moved == cut;
  }

  lemma SplitTotal(es: seq<Edge>, pd: map<nat, nat>, members: map<nat, seq<nat>>, nextPd: nat, cut: set<nat>, d: nat,
                   n: nat)
    requires MembersOk(pd, members, nextPd) && Within(es, pd.Keys)
    requires d in members && n !in members && cut <= Elems(members[d])
    ensures CrossCost(es, Relocated(pd, cut, n)) == CrossCost(es, pd) + Cuts.CutWeight(Bare(es), Elems(members[d]), cut)
  {
    assert ListsDomain(pd, members[d], d);
    assert forall x :: x in Elems(members[d]) <==> x in members[d];
    SplitCosts(es, pd, Elems(members[d]), cut, d, n);
  }

  // ----- edges and components come in, and weights change

  lemma StillQueued(was: map<nat, PdEdge>, next: nat, now: map<nat, PdEdge>)
    requires AllQueued(was) && Kept(was, next, now)
    ensures AllQueued(now)
  {
  }

  /** The pd-edges are right again once the pd-edge of edge i follows the change of its weight. */
  lemma SetInvOk(es: seq<Edge>, pdes: map<nat, PdEdge>, pd: map<nat, nat>, i: nat, val: int)
    requires PdEdgesOk(es, pdes) && Settled(es, pdes, pd, {}) && i < |es|
    ensures if es[i].master.Some? then es[i].master.value in pdes && Crosses(es[i], pd) else !Crosses(es[i], pd)
    ensures var r := es[i := es[i].(inv := val)];
            var now := if es[i].master.Some?
                       then var p := es[i].master.value;
                            pdes[p := pdes[p].(weight := pdes[p].weight + (val - es[i].inv))]
                       else pdes;
            && PdEdgesOk(r, now) && Settled(r, now, pd, {})
            && AttachedSum(r) == AttachedSum(es) + if es[i].master.Some? then val - es[i].inv else 0
  {
    var r := es[i := es[i].(inv := val)];
    assert Attached(es[i], pdes, pd);
    AttachedUpdate(es, i, r[i]);
    hide AttachedSum;
    hide SumOf;
    hide CountOf;
    forall p | p in pdes
      ensures SumOf(r, p) == SumOf(es, p) + (if es[i].master == Some(p) then val - es[i].inv else 0)
      ensures CountOf(r, p) == CountOf(es, p)
    {
      SumUpdate(es, i, r[i], p);
      CountUpdate(es, i, r[i], p);
    }
  }

  lemma SameWithin(es: seq<Edge>, s: set<nat>, i: nat, val: int)
    requires Within(es, s) && i < |es|
    ensures Within(es[i := es[i].(inv := val)], s)
  {
  }

  lemma NewEdgeOk(es: seq<Edge>, pdes: map<nat, PdEdge>, pd: map<nat, nat>, e: Edge)
    requires PdEdgesOk(es, pdes) && Settled(es, pdes, pd, {}) && e.master.None? && Crosses(e, pd)
    ensures var r := es + [e];
            PdEdgesOk(r, pdes) && Settled(r, pdes, pd, {|es|}) && AttachedSum(r) == AttachedSum(es)
            && CrossCost(r, pd) == CrossCost(es, pd) + e.inv
  {
    var r := es + [e];
    assert r[..|r| - 1] == es;
  }

  lemma NewcomerSettled(es: seq<Edge>, pdes: map<nat, PdEdge>, pd: map<nat, nat>, c: nat, d: nat)
    requires Settled(es, pdes, pd, {}) && Within(es, pd.Keys) && c !in pd
    ensures Settled(es, pdes, pd[c := d], {}) && Within(es, pd[c := d].Keys)
  {
  }
}
