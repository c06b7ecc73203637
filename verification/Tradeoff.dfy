/** The interface of the protection-domain policy (src/components/include/mpd_policy.h): isolation is traded for
    performance by merging the domains that invoke each other most, and splitting domains where it costs least. */
module Tradeoff {
  import opened Seqs
  import opened PriorityHeap
  import opened DomainCuts
  import opened Policy
  import opened Trades
  import opened Customizing
  import Cuts
  import MinCut

  // ----- minimum cuts of all domains

  ghost predicate Minimum(es: seq<Cuts.Edge>, part: set<nat>, k: Cut) {
    && Distinct(k.side) && Cuts.IsCut(part, Elems(k.side)) && Cuts.CutWeight(es, part, Elems(k.side)) == k.amnt
    && forall c :: Cuts.IsCut(part, c) ==> k.amnt <= Cuts.CutWeight(es, part, c)
  }

  /** What is recorded is a minimum cut; nothing is recorded where there is none. */
  ghost predicate Current(es: seq<Cuts.Edge>, part: set<nat>, r: Option<Cut>) {
    match r
    case None => forall c :: !Cuts.IsCut(part, c)
    case Some(k) => Minimum(es, part, k)
  }

  /** The records of all domains are current, but for those of `due`. */
  ghost predicate AllCurrent(es: seq<Cuts.Edge>, pd: map<nat, nat>, doms: set<nat>, cuts: map<nat, Cut>,
                             due: set<nat>) {
    forall d :: d in doms && d !in due ==> Current(es, Part(pd, d), CutOf(cuts, d))
  }

  lemma MergeDue(es: seq<Cuts.Edge>, pd: map<nat, nat>, doms: set<nat>, cuts: map<nat, Cut>, a: nat, b: nat)
    requires AllCurrent(es, pd, doms, cuts, {})
    ensures AllCurrent(es, MergedPlacement(pd, a, b), doms - {b}, cuts - {b}, {a})
  {
    hide Current;
    forall d | d in doms - {b} && d !in {a}
      ensures Current(es, Part(MergedPlacement(pd, a, b), d), CutOf(cuts - {b}, d))
    {
      assert Part(MergedPlacement(pd, a, b), d) == Part(pd, d);
    }
  }

  lemma SplitDue(es: seq<Cuts.Edge>, pd: map<nat, nat>, doms: set<nat>, cuts: map<nat, Cut>, s: set<nat>, d: nat,
                 n: nat)
    requires AllCurrent(es, pd, doms, cuts, {d}) && s <= Part(pd, d) && n !in doms
    ensures AllCurrent(es, Relocated(pd, s, n), doms + {n}, cuts, {d, n})
  {
    hide Current;
    forall x | x in doms + {n} && x !in {d, n}
      ensures Current(es, Part(Relocated(pd, s, n), x), CutOf(cuts, x))
    {
      assert Part(Relocated(pd, s, n), x) == Part(pd, x);
    }
  }

  lemma PopDue(es: seq<Cuts.Edge>, pd: map<nat, nat>, doms: set<nat>, cuts: map<nat, Cut>, d: nat)
    requires AllCurrent(es, pd, doms, cuts, {})
    ensures AllCurrent(es, pd, doms, cuts - {d}, {d})
  {
    hide Current;
    forall x | x in doms && x !in {d}
      ensures Current(es, Part(pd, x), CutOf(cuts - {d}, x))
    {
      assert CutOf(cuts - {d}, x) == CutOf(cuts, x);
    }
  }

  lemma RecutDone(es: seq<Cuts.Edge>, pd: map<nat, nat>, doms: set<nat>, was: map<nat, Cut>, cuts: map<nat, Cut>,
                  due: set<nat>, d: nat)
    requires AllCurrent(es, pd, doms, was, due) && (forall x :: x != d ==> CutOf(cuts, x) == CutOf(was, x))
    requires Current(es, Part(pd, d), CutOf(cuts, d))
    ensures AllCurrent(es, pd, doms, cuts, due - {d})
  {
    hide Current;
  }

  lemma LightestTooHeavy(es: seq<Cuts.Edge>, pd: map<nat, nat>, doms: set<nat>, cuts: map<nat, Cut>, total: int,
                         limit: int)
    requires AllCurrent(es, pd, doms, cuts, {}) && (forall d :: Part(pd, d) != {} ==> d in doms)
    requires forall x :: x in cuts ==> total + cuts[x].amnt >= limit
    ensures NoSplitFits(es, pd, total, limit)
  {
    forall d, c | Cuts.IsCut(Part(pd, d), c)
      ensures total + Cuts.CutWeight(es, Part(pd, d), c) >= limit
    {
      assert Current(es, Part(pd, d), CutOf(cuts, d));
    }
  }

  /** The lightest of the recorded cuts is the lightest cut of any domain. */
  lemma LightestOfAll(es: seq<Cuts.Edge>, pd: map<nat, nat>, doms: set<nat>, cuts: map<nat, Cut>, x: nat)
    requires AllCurrent(es, pd, doms, cuts, {}) && (forall d :: Part(pd, d) != {} ==> d in doms)
    requires x in cuts && x in doms && forall y :: y in cuts ==> cuts[x].amnt <= cuts[y].amnt
    ensures Distinct(cuts[x].side) && Lightest(es, pd, x, Elems(cuts[x].side))
    ensures Cuts.CutWeight(es, Part(pd, x), Elems(cuts[x].side)) == cuts[x].amnt
  {
    assert Current(es, Part(pd, x), CutOf(cuts, x));
    var c := Elems(cuts[x].side);
    forall d', c' | Cuts.IsCut(Part(pd, d'), c')
      ensures Cuts.CutWeight(es, Part(pd, x), c) <= Cuts.CutWeight(es, Part(pd, d'), c')
    {
      assert Current(es, Part(pd, d'), CutOf(cuts, d'));
    }
  }

  /** Where nothing is recorded, nothing can be split. */
  lemma NothingRecorded(es: seq<Cuts.Edge>, pd: map<nat, nat>, doms: set<nat>, cuts: map<nat, Cut>)
    requires AllCurrent(es, pd, doms, cuts, {}) && (forall d :: Part(pd, d) != {} ==> d in doms) && cuts == map[]
    ensures forall d, c :: !Cuts.IsCut(Part(pd, d), c)
  {
    forall d, c
      ensures !Cuts.IsCut(Part(pd, d), c)
    {
      if d in doms {
        assert Current(es, Part(pd, d), CutOf(cuts, d));
      }
    }
  }

  // ----- the weight of a cut is bounded

  /** Weights are not negative, and their sum is less than the value that stands for "no cut". */
  ghost predicate Weighted(es: seq<Cuts.Edge>) {
    Cuts.NonNegative(es) && TotalWeight(es) < MinCut.MAX_LONG
  }

  lemma NoWeight()
    ensures Weighted(Bare([]))
  {
    assert Bare([]) == [];
  }

  // ----- there are no more domains than components

  lemma {:induction false} FewDomains(pd: map<nat, nat>, doms: set<nat>)
    requires forall d :: d in doms ==> exists x :: x in pd && pd[x] == d
    ensures |doms| <= |pd|
  {
    if doms != {} {
      var d :| d in doms;
      var x :| x in pd && pd[x] == d;
      var rest := pd - {x};
      forall d' | d' in doms - {d}
        ensures exists x' :: x' in rest && rest[x'] == d'
      {
        var x' :| x' in pd && pd[x'] == d';
        assert x' in rest;
      }
      FewDomains(rest, doms - {d});
      assert |pd| == |pd.Keys| && |rest| == |rest.Keys| && rest.Keys == pd.Keys - {x};
    }
  }

  lemma DomainCount(pd: map<nat, nat>, members: map<nat, seq<nat>>, nextPd: nat)
    requires MembersOk(pd, members, nextPd) && NonEmpty(members)
    ensures |members| <= |pd|
  {
    forall d | d in members.Keys
      ensures exists x :: x in pd && pd[x] == d
    {
      assert ListsDomain(pd, members[d], d);
      assert members[d][0] in members[d];
    }
    FewDomains(pd, members.Keys);
    assert |members| == |members.Keys|;
  }

  lemma PartIsMembers(pd: map<nat, nat>, members: map<nat, seq<nat>>, nextPd: nat, d: nat)
    requires MembersOk(pd, members, nextPd) && d in members
    ensures Elems(members[d]) == Part(pd, d) && Distinct(members[d]) && |members[d]| <= |pd|
  {
    assert ListsDomain(pd, members[d], d);
    assert forall x :: x in members[d] <==> x in Elems(members[d]);
    DistinctCount(members[d]);
    SubsetSize(Elems(members[d]), pd.Keys);
    assert |pd| == |pd.Keys|;
  }

  lemma SameBare(es: seq<Edge>, r: seq<Edge>)
    requires SameGraph(es, r)
    ensures Bare(es) == Bare(r)
  {
  }

  lemma SingletonUncut(m: seq<nat>, c: set<nat>)
    requires |m| == 1
    ensures !Cuts.IsCut(Elems(m), c)
  {
    assert m == [m[0]];
    assert Elems(m) == {m[0]};
  }

  /** A domain of several components has a cut, so that one is recorded. */
  lemma SomeCut(es: seq<Cuts.Edge>, m: seq<nat>)
    requires Weighted(es) && |m| > 1 && Distinct(m)
    ensures Cuts.IsCut(Elems(m), {m[0]}) && Cuts.CutWeight(es, Elems(m), {m[0]}) < MinCut.MAX_LONG
  {
    assert m[1] in Elems(m) && m[1] !in {m[0]};
    BetweenBounds(es, {m[0]}, Elems(m) - {m[0]});
  }

  /** How a round of the last loop of customize_overhead_to_limit ends: there is none, since no trade pays; the prices
      are those of before; or the loop goes on. */
  datatype Outcome = Settled | Looped | Again

  class Balancer {
    const pol: PdPolicy
    const tab: CutTable
    const mc: Heap<nat>

    /** The three heaps are different ones. */
    ghost predicate Apart()
      reads pol.t.h, tab.h, mc
    {
      && pol.t.h != tab.h && pol.t.h != mc && tab.h != mc
      && pol.t.h.data != tab.h.data && pol.t.h.data != mc.data && tab.h.data != mc.data
    }

    /** The heaps have room for all components, as mpd_pol_init provides it. */
    ghost predicate Valid()
      reads this, pol, pol.t, pol.t.h, pol.t.h.data, tab, tab.h, tab.h.data, mc, mc.data
    {
      && Apart() && pol.Quiet() && Weighted(Bare(pol.edges)) && tab.Ok() && tab.cuts.Keys <= pol.members.Keys
      && mc.Indexed() && mc.e == 1 && mc.data.Length > |pol.pd| && tab.h.data.Length > |pol.pd|
    }

    /** mpd_pol_init. */
    constructor (components: nat, edges: nat)
      ensures Valid() && pol.edges == [] && pol.pd == map[] && tab.cuts == map[]
      ensures tab.h.data.Length == mc.data.Length == components + 1 && pol.t.h.data.Length == edges + 1
    {
      hide Valid;
      hide Weighted;
      hide PdPolicy.Quiet;
      hide CutTable.Ok;
      hide Heap.Indexed;
      hide Heap.Valid;
      pol := new PdPolicy(edges);
      tab := new CutTable(components);
      mc := new Heap(components, 0);
      new;
      NoWeight();
      Start();
    }

    lemma Start()
      requires Apart() && pol.Quiet() && tab.Ok() && mc.Indexed() && mc.e == 1 && Weighted(Bare([]))
      requires pol.edges == [] && pol.pd == map[] && tab.cuts == map[] && mc.data.Length > 0 && tab.h.data.Length > 0
      ensures Valid()
    {
      hide Weighted;
      hide PdPolicy.Quiet;
      hide CutTable.Ok;
      hide Heap.Indexed;
    }

    /** The recorded cut of every domain, but for those of `due`, is a minimum cut. */
    ghost predicate CutsCurrent(due: set<nat>)
      reads pol, tab
    {
      AllCurrent(Bare(pol.edges), pol.pd, pol.members.Keys, tab.cuts, due)
    }

    lemma DomainFacts(d: nat)
      requires Valid() && d in pol.members
      ensures Elems(pol.members[d]) == Part(pol.pd, d) && Distinct(pol.members[d]) && pol.members[d] != []
      ensures |pol.members[d]| < mc.data.Length && (d !in tab.cuts ==> tab.h.e < tab.h.data.Length)
    {
      PartIsMembers(pol.pd, pol.members, pol.nextPd, d);
      if d !in tab.cuts {
        tab.HeapRoom();
        DomainCount(pol.pd, pol.members, pol.nextPd);
        SubsetSize(tab.cuts.Keys, pol.members.Keys - {d});
        assert |tab.cuts| == |tab.cuts.Keys| && |pol.members| == |pol.members.Keys|;
      }
    }

    /** mc_find_min_cut: the domain's cut is recorded, or none if it has a single component. */
    method FindMinCut(d: nat)
      requires Valid() && d in pol.members
      modifies tab`cuts, tab.h`e, tab.h`pos, tab.h.data, mc`e, mc`pos, mc.data
      ensures Valid() && (forall x :: x != d ==> CutOf(tab.cuts, x) == CutOf(old(tab.cuts), x))
      ensures Current(Bare(pol.edges), Part(pol.pd, d), CutOf(tab.cuts, d))
    {
      hide Weighted;
      hide Minimum;
      hide PdPolicy.Quiet;
      hide CutTable.Ok;
      hide Heap.Indexed;
      DomainFacts(d);
      hide Part;
      if |pol.members[d]| == 1 {
        forall c
          ensures !Cuts.IsCut(Elems(pol.members[d]), c)
        {
          SingletonUncut(pol.members[d], c);
        }
        tab.Drop(d);
      } else {
        WeightedGraph();
        var k := LightestCut(Bare(pol.edges), pol.members[d]);
        tab.Record(d, k);
      }
    }

    method LightestCut(es: seq<Cuts.Edge>, m: seq<nat>) returns (k: Cut)
      requires Cuts.NonNegative(es) && Weighted(es) && |m| > 1 && Distinct(m)
      requires mc.Indexed() && mc.e == 1 && mc.data.Length > |m|
      modifies mc`e, mc`pos, mc.data
      ensures mc.Indexed() && mc.e == 1 && Minimum(es, Elems(m), k)
    {
      hide Weighted;
      hide Cuts.NonNegative;
      SomeCut(es, m);
      var dom := new MinCut.Domain(es, m);
      dom.FindMinCut(mc);
      assert dom.mcAmnt <= Cuts.CutWeight(es, Elems(m), {m[0]});
      assert dom.mcMembers != [];
      hide Cuts.CutWeight;
      k := Cut(dom.mcAmnt, dom.mcMembers);
    }

    lemma WeightedGraph()
      requires Valid()
      ensures Cuts.NonNegative(Bare(pol.edges))
    {
    }

    /** recompute_min_cuts. */
    method Recompute()
      requires Valid()
      modifies tab`cuts, tab.h`e, tab.h`pos, tab.h.data, mc`e, mc`pos, mc.data
      ensures Valid() && CutsCurrent({})
    {
      var due := pol.members.Keys;
      while due != {}
        invariant Valid() && CutsCurrent(due) && due <= pol.members.Keys
        decreases due
      {
        hide Valid;
        hide AllCurrent;
        var d :| d in due;
        ghost var was := tab.cuts;
        FindMinCut(d);
        RecutDone(Bare(pol.edges), pol.pd, pol.members.Keys, was, tab.cuts, due, d);
        due := due - {d};
      }
    }

    /** Only the domains have components. */
    lemma OnlyDomains()
      requires Valid()
      ensures (forall d :: Part(pol.pd, d) != {} ==> d in pol.members)
      ensures (forall x :: x in pol.pd ==> pol.pd[x] in pol.members)
      ensures forall d :: d in pol.members ==> Part(pol.pd, d) != {} && Elems(pol.members[d]) == Part(pol.pd, d)
    {
      forall d | d in pol.members
        ensures Part(pol.pd, d) != {} && Elems(pol.members[d]) == Part(pol.pd, d)
      {
        PartIsMembers(pol.pd, pol.members, pol.nextPd, d);
        assert pol.members[d][0] in Elems(pol.members[d]);
      }
    }

    lemma PlacedInDomains()
      requires Valid()
      ensures forall x :: x in pol.pd ==> pol.pd[x] in pol.members
    {
    }

    lemma PairsOfDomains()
      requires Valid()
      ensures forall a, b :: a in pol.members && b in pol.members && a != b ==> Domains(pol.pd, a, b)
    {
      OnlyDomains();
    }

    /** The total is the cost of the placement. */
    lemma TotalIsCost()
      requires Valid()
      ensures pol.t.totCost == Cost(Bare(pol.edges), pol.pd) && Spans(Bare(pol.edges), pol.pd)
      ensures Cuts.NonNegative(Bare(pol.edges)) && 0 <= pol.t.totCost <= TotalWeight(Bare(pol.edges))
    {
      pol.TotalIsCross();
      CostIsCross(pol.edges, pol.pd);
      CostBounds(Bare(pol.edges), pol.pd);
    }

    /** mpd_decrease_overhead: the ends of a heaviest pd-edge are merged, and the cut of the merged domain is
        recorded. */
    method DecreaseOverhead() returns (ghost a: nat, ghost b: nat)
      requires Valid() && pol.t.h.e > 1
      modifies pol`edges, pol`pd, pol`members, pol.t`pdes, pol.t`nextId
      modifies pol.t`totCost, pol.t.h`e, pol.t.h`pos, pol.t.h.data
      modifies tab`cuts, tab.h`e, tab.h`pos, tab.h.data, mc`e, mc`pos, mc.data
      ensures Valid() && Bare(pol.edges) == Bare(old(pol.edges)) && (old(CutsCurrent({})) ==> CutsCurrent({}))
      ensures Domains(old(pol.pd), a, b) && pol.pd == MergedPlacement(old(pol.pd), a, b)
      ensures b in old(pol.members) && pol.members.Keys == old(pol.members).Keys - {b}
      ensures exists p :: && HeaviestEdge(old(pol.t.pdes), p)
                          && pol.t.totCost == old(pol.t.totCost) - old(pol.t.pdes)[p].weight
    {
      hide PdPolicy.Quiet;
      hide CutTable.Ok;
      hide Heap.Indexed;
      hide AllCurrent;
      hide Weighted;
      hide SameGraph;
      ghost var es, place, doms, was := pol.edges, pol.pd, pol.members, tab.cuts;
      PairsOfDomains();
      hide Part;
      hide Domains;
      var a', b';
      ghost var p;
      ghost var pdes := pol.t.pdes;
      a', b', p := pol.DecreaseOverhead();
      assert HeaviestEdge(pdes, p);
      hide HeaviestEdge;
      a, b := a', b';
      SameBare(es, pol.edges);
      MergedSize(place, a, b);
      tab.Drop(b');
      assert Valid();
      ghost var mid := tab.cuts;
      FindMinCut(a');
      if old(CutsCurrent({})) {
        MergeDue(Bare(es), place, doms.Keys, was, a, b);
        RecutDone(Bare(es), pol.pd, pol.members.Keys, mid, tab.cuts, {a}, a);
        assert {a} - {a} == {};
      }
    }

    /** mpd_increase_isolation: of all ways to split a domain, one that costs least is taken. */
    method IncreaseIsolation() returns (ghost d: nat, ghost s: set<nat>, ghost n: nat)
      requires Valid() && CutsCurrent({}) && tab.cuts != map[]
      modifies pol`edges, pol`pd, pol`members, pol`nextPd, pol.t`pdes, pol.t`nextId, pol.t`totCost
      modifies pol.t.h`e, pol.t.h`pos, pol.t.h.data, tab`cuts, tab.h`e, tab.h`pos, tab.h.data, mc`e, mc`pos, mc.data
      ensures Valid() && CutsCurrent({}) && Bare(pol.edges) == Bare(old(pol.edges))
      ensures Lightest(Bare(pol.edges), old(pol.pd), d, s)
      ensures pol.t.totCost == old(pol.t.totCost) + Cuts.CutWeight(Bare(pol.edges), Part(old(pol.pd), d), s)
      ensures n !in old(pol.members) && pol.members.Keys == old(pol.members).Keys + {n}
      ensures pol.pd == Relocated(old(pol.pd), s, n)
    {
      hide *;
      var d', side := PopLightest();
      var n' := SplitAlong(d', side);
      RecutBoth(d', n');
      d, s, n := d', Elems(side), n';
    }

    /** heap_highest: the domain with the lightest cut leaves the heap. */
    method PopLightest() returns (d: nat, side: seq<nat>)
      requires Valid() && CutsCurrent({}) && tab.cuts != map[]
      modifies tab`cuts, tab.h`e, tab.h`pos, tab.h.data
      ensures Valid() && CutsCurrent({d}) && d in pol.members && Distinct(side)
      ensures Lightest(Bare(pol.edges), pol.pd, d, Elems(side))
    {
      hide PdPolicy.Quiet;
      hide CutTable.Ok;
      hide Heap.Indexed;
      hide AllCurrent;
      hide Weighted;
      hide Lightest;
      ghost var was := tab.cuts;
      OnlyDomains();
      hide Part;
      var k;
      d, k := tab.PopLightest();
      side := k.side;
      LightestOfAll(Bare(pol.edges), pol.pd, pol.members.Keys, was, d);
      PopDue(Bare(pol.edges), pol.pd, pol.members.Keys, was, d);
    }

    /** pd_split up to the search for new cuts. */
    method SplitAlong(d: nat, side: seq<nat>) returns (n: nat)
      requires Valid() && CutsCurrent({d}) && d in pol.members && Distinct(side)
      requires Lightest(Bare(pol.edges), pol.pd, d, Elems(side))
      modifies pol`edges, pol`pd, pol`members, pol`nextPd, pol.t`pdes, pol.t`nextId, pol.t`totCost
      modifies pol.t.h`e, pol.t.h`pos, pol.t.h.data
      ensures Valid() && CutsCurrent({d, n}) && Bare(pol.edges) == Bare(old(pol.edges))
      ensures d in pol.members && n in pol.members && n !in old(pol.members)
      ensures pol.members.Keys == old(pol.members).Keys + {n} && pol.pd == Relocated(old(pol.pd), Elems(side), n)
      ensures pol.t.totCost == old(pol.t.totCost)
                + Cuts.CutWeight(Bare(pol.edges), Part(old(pol.pd), d), Elems(side))
    {
      hide PdPolicy.Quiet;
      hide CutTable.Ok;
      hide Heap.Indexed;
      hide AllCurrent;
      hide Weighted;
      hide SameGraph;
      ghost var es, place, doms := pol.edges, pol.pd, pol.members;
      assert Cuts.IsCut(Part(pol.pd, d), Elems(side));
      hide Lightest;
      hide Cuts.CutWeight;
      DomainFacts(d);
      n := pol.Split(d, side);
      SameBare(es, pol.edges);
      SplitSize(place, Elems(side), n);
      SplitDue(Bare(es), place, doms.Keys, tab.cuts, Elems(side), d, n);
    }

    /** The end of pd_split. */
    method RecutBoth(d: nat, n: nat)
      requires Valid() && CutsCurrent({d, n}) && d in pol.members && n in pol.members
      modifies tab`cuts, tab.h`e, tab.h`pos, tab.h.data, mc`e, mc`pos, mc.data
      ensures Valid() && CutsCurrent({})
    {
      hide Valid;
      hide AllCurrent;
      ghost var was := tab.cuts;
      FindMinCut(d);
      RecutDone(Bare(pol.edges), pol.pd, pol.members.Keys, was, tab.cuts, {d, n}, d);
      was := tab.cuts;
      FindMinCut(n);
      RecutDone(Bare(pol.edges), pol.pd, pol.members.Keys, was, tab.cuts, {d, n} - {d}, n);
      assert {d, n} - {d} - {n} == {};
    }

    /** remove_overhead_to_limit: at most the limit is spent, or nothing at all crosses domains.  Domains are only ever
        merged, where it saves most, and none is merged that need not be. */
    method RemoveOverheadToLimit(limit: int) returns (ghost ms: seq<Placement>)
      requires Valid()
      modifies pol`edges, pol`pd, pol`members, pol.t`pdes, pol.t`nextId
      modifies pol.t`totCost, pol.t.h`e, pol.t.h`pos, pol.t.h.data
      modifies tab`cuts, tab.h`e, tab.h`pos, tab.h.data, mc`e, mc`pos, mc.data
      ensures Valid() && Bare(pol.edges) == Bare(old(pol.edges)) && (old(CutsCurrent({})) ==> CutsCurrent({}))
      ensures pol.t.totCost <= limit || (pol.t.totCost == 0 && pol.t.pdes == map[])
      ensures limit >= 0 ==> pol.t.totCost <= limit
      ensures Merges(Bare(pol.edges), limit, old(pol.pd), ms) && Last(ms) == pol.pd
      ensures old(pol.t.totCost) <= limit ==> pol.pd == old(pol.pd)
      ensures Coarser(old(pol.pd), pol.pd)
    {
      hide Valid;
      hide AllCurrent;
      hide Bare;
      hide BestMerges;
      hide BestMerge;
      ms := [pol.pd];
      FirstOf(Bare(pol.edges), limit, pol.pd);
      TotalIsCost();
      while pol.t.h.e > 1 && pol.t.totCost > limit
        invariant Valid() && Bare(pol.edges) == Bare(old(pol.edges)) && (old(CutsCurrent({})) ==> CutsCurrent({}))
        invariant ms != [] && BestMerges(Bare(pol.edges), limit, ms) && ms[0] == old(pol.pd) && Last(ms) == pol.pd
        invariant pol.t.totCost == Cost(Bare(pol.edges), pol.pd) && Coarser(old(pol.pd), pol.pd)
        invariant old(pol.t.totCost) <= limit ==> pol.pd == old(pol.pd) && pol.t.totCost == old(pol.t.totCost)
        decreases |pol.members|
      {
        ghost var pd0 := pol.pd;
        HeapsEmpty();
        ghost var a, b := MergeHeaviest();
        MergedSize(pd0, a, b);
        CoarserStep(old(pol.pd), pd0, pol.pd);
        MergesAppend(Bare(pol.edges), limit, ms, pol.pd);
        ms := ms + [pol.pd];
        TotalIsCost();
      }
      if pol.t.h.e <= 1 {
        NothingLeft();
      }
    }

    lemma NothingLeft()
      requires Valid() && pol.t.h.e <= 1
      ensures pol.t.totCost == 0 && pol.t.pdes == map[]
    {
      HeapsEmpty();
      pol.NothingCrosses();
    }

    /** The second loop of customize_overhead_to_limit: domains are split, where it costs least first, as long as the
        total stays below the limit.  In the end no domain could be split any further. */
    method SplitWithin(limit: int) returns (ghost ps: seq<Placement>)
      requires Valid() && CutsCurrent({})
      modifies pol`edges, pol`pd, pol`members, pol`nextPd, pol.t`pdes, pol.t`nextId, pol.t`totCost
      modifies pol.t.h`e, pol.t.h`pos, pol.t.h.data, tab`cuts, tab.h`e, tab.h`pos, tab.h.data, mc`e, mc`pos, mc.data
      ensures Valid() && CutsCurrent({}) && Bare(pol.edges) == Bare(old(pol.edges)) && pol.pd.Keys == old(pol.pd).Keys
      ensures NoSplitFits(Bare(pol.edges), pol.pd, pol.t.totCost, limit)
      ensures Splits(Bare(pol.edges), limit, old(pol.pd), ps) && Last(ps) == pol.pd
      ensures if |ps| == 1 then pol.t.pdes == old(pol.t.pdes) && pol.t.totCost == old(pol.t.totCost)
              else pol.t.totCost < limit
    {
      hide Valid;
      hide AllCurrent;
      hide NoSplitFits;
      hide Bare;
      hide CheapestSplit;
      hide CheapestSplits;
      hide Affordable;
      hide Cost;
      ps := [pol.pd];
      FirstOf(Bare(pol.edges), limit, pol.pd);
      var fits := LightestFits(limit);
      while fits
        invariant Valid() && CutsCurrent({}) && Bare(pol.edges) == Bare(old(pol.edges))
        invariant pol.pd.Keys == old(pol.pd).Keys
        invariant ps != [] && CheapestSplits(Bare(pol.edges), limit, ps) && ps[0] == old(pol.pd) && Last(ps) == pol.pd
        invariant if |ps| == 1 then pol.t.pdes == old(pol.t.pdes) && pol.t.totCost == old(pol.t.totCost)
                  else pol.t.totCost < limit
        invariant fits ==> tab.cuts != map[] && Affordable(limit)
        invariant !fits ==> NoSplitFits(Bare(pol.edges), pol.pd, pol.t.totCost, limit)
        decreases |old(pol.pd).Keys| - |pol.members|
      {
        fits, ps := SplitNext(limit, ps);
      }
      TotalIsCost();
    }

    /** A round of that loop. */
    method SplitNext(limit: int, ghost ps: seq<Placement>) returns (fits: bool, ghost ps': seq<Placement>)
      requires Valid() && CutsCurrent({}) && tab.cuts != map[] && Affordable(limit)
      requires ps != [] && CheapestSplits(Bare(pol.edges), limit, ps) && Last(ps) == pol.pd
      modifies pol`edges, pol`pd, pol`members, pol`nextPd, pol.t`pdes, pol.t`nextId, pol.t`totCost
      modifies pol.t.h`e, pol.t.h`pos, pol.t.h.data, tab`cuts, tab.h`e, tab.h`pos, tab.h.data, mc`e, mc`pos, mc.data
      ensures Valid() && CutsCurrent({}) && Bare(pol.edges) == Bare(old(pol.edges)) && pol.pd.Keys == old(pol.pd).Keys
      ensures ps' == ps + [pol.pd] && CheapestSplits(Bare(pol.edges), limit, ps') && pol.t.totCost < limit
      ensures |pol.members| == old(|pol.members|) + 1 <= |pol.pd.Keys|
      ensures fits ==> tab.cuts != map[] && Affordable(limit)
      ensures !fits ==> NoSplitFits(Bare(pol.edges), pol.pd, pol.t.totCost, limit)
    {
      hide *;
      SplitOnce(limit);
      SplitsAppend(Bare(pol.edges), limit, ps, pol.pd);
      ps' := ps + [pol.pd];
      FewerThanComponents();
      fits := LightestFits(limit);
    }

    /** The cheapest split keeps the total below the limit. */
    ghost predicate Affordable(limit: int)
      reads pol, pol.t
    {
      exists w :: LeastCost(Bare(pol.edges), pol.pd, w) && pol.t.totCost + w < limit
    }

    /** A split that fits. */
    method SplitOnce(limit: int)
      requires Valid() && CutsCurrent({}) && tab.cuts != map[] && Affordable(limit)
      modifies pol`edges, pol`pd, pol`members, pol`nextPd, pol.t`pdes, pol.t`nextId, pol.t`totCost
      modifies pol.t.h`e, pol.t.h`pos, pol.t.h.data, tab`cuts, tab.h`e, tab.h`pos, tab.h.data, mc`e, mc`pos, mc.data
      ensures Valid() && CutsCurrent({}) && Bare(pol.edges) == Bare(old(pol.edges)) && pol.pd.Keys == old(pol.pd).Keys
      ensures CheapestSplit(Bare(pol.edges), limit, old(pol.pd), pol.pd) && pol.t.totCost < limit
      ensures |pol.members| == old(|pol.members|) + 1
    {
      hide Valid;
      hide AllCurrent;
      hide Bare;
      ghost var doms, place := pol.members, pol.pd;
      PlacedInDomains();
      ghost var d, s, n := IncreaseIsolation();
      SplitSize(place, s, n);
      assert |doms| == |doms.Keys| && |pol.members| == |pol.members.Keys|;
      hide Part;
      hide Cuts.CutWeight;
      TotalIsCost();
      assert Unplaced(place, n);
    }

    /** Whether the lightest cut can be split and the total stay below the limit. */
    method LightestFits(limit: int) returns (fits: bool)
      requires Valid() && CutsCurrent({})
      ensures fits ==> tab.cuts != map[] && Affordable(limit)
      ensures !fits ==> NoSplitFits(Bare(pol.edges), pol.pd, pol.t.totCost, limit)
    {
      hide Valid;
      hide AllCurrent;
      hide NoSplitFits;
      hide LeastCost;
      OnlyDomains();
      hide Part;
      var none := EmptyInc();
      if none {
        LightestTooHeavy(Bare(pol.edges), pol.pd, pol.members.Keys, tab.cuts, pol.t.totCost, limit);
        return false;
      }
      var amnt := PeekInc();
      fits := pol.t.totCost + amnt < limit;
      if !fits {
        LightestTooHeavy(Bare(pol.edges), pol.pd, pol.members.Keys, tab.cuts, pol.t.totCost, limit);
      }
    }

    /** mpd_empty_inc_isolation. */
    method EmptyInc() returns (r: bool)
      requires Valid()
      ensures r <==> tab.cuts == map[]
    {
      HeapsEmpty();
      r := tab.h.e == 1;
    }

    /** mpd_peek_inc_isolation, which asserts that some domain can be split: what the cheapest split costs. */
    method PeekInc() returns (amnt: int)
      requires Valid() && CutsCurrent({}) && tab.cuts != map[]
      ensures LeastCost(Bare(pol.edges), pol.pd, amnt) && forall x :: x in tab.cuts ==> amnt <= tab.cuts[x].amnt
    {
      hide PdPolicy.Quiet;
      hide CutTable.Ok;
      hide AllCurrent;
      OnlyDomains();
      amnt := tab.PeekLightest();
      ghost var x :| x in tab.cuts && tab.cuts[x].amnt == amnt;
      LightestOfAll(Bare(pol.edges), pol.pd, pol.members.Keys, tab.cuts, x);
    }

    /** mpd_empty_dec_overhead. */
    method EmptyDec() returns (r: bool)
      requires Valid()
      ensures (r <==> pol.t.pdes == map[]) && (r <==> pol.t.h.e <= 1)
    {
      HeapsEmpty();
      r := pol.t.h.e == 1;
    }

    /** mpd_peek_dec_overhead, which asserts that there is a pd-edge: the most that a merge saves. */
    method PeekDec() returns (w: int)
      requires Valid() && pol.t.pdes != map[]
      ensures MostSaving(Bare(pol.edges), pol.pd, w)
      ensures exists p :: p in pol.t.pdes && pol.t.pdes[p].weight == w
      ensures forall q :: q in pol.t.pdes ==> w >= pol.t.pdes[q].weight
    {
      HeapsEmpty();
      w := pol.t.PeekHeaviest();
      assert forall q :: q in pol.t.pdes ==> q in pol.t.Queued();
      ghost var p :| p in pol.t.pdes && pol.t.pdes[p].weight == w;
      PdEdgesAreSavings(p);
    }

    /** A heaviest pd-edge is where a merge saves most. */
    lemma PdEdgesAreSavings(p: nat)
      requires Valid() && HeaviestEdge(pol.t.pdes, p)
      ensures MostSaving(Bare(pol.edges), pol.pd, pol.t.pdes[p].weight)
    {
      OnlyDomains();
      WeightsNotNegative();
      EndsHaveMembers(pol.edges, pol.t.pdes, pol.pd, pol.members, pol.nextPd, p);
      HeaviestPdEdge(pol.edges, pol.t.pdes, pol.pd, p);
    }

    lemma SavingsOfEdges()
      requires Valid()
      ensures forall p :: HeaviestEdge(pol.t.pdes, p) ==>
                MostSaving(Bare(pol.edges), pol.pd, pol.t.pdes[p].weight)
    {
      hide Valid;
      hide MostSaving;
      forall p | HeaviestEdge(pol.t.pdes, p)
        ensures MostSaving(Bare(pol.edges), pol.pd, pol.t.pdes[p].weight)
      {
        PdEdgesAreSavings(p);
      }
    }

    lemma HeapsEmpty()
      requires Valid()
      ensures pol.t.h.e <= 1 <==> pol.t.pdes == map[]
      ensures tab.h.e <= 1 <==> tab.cuts == map[]
      ensures pol.t.h.e > 1 ==> pol.t.Queued() != {}
    {
      tab.HeapRoom();
      pol.QueuedCount();
      pol.t.HeapRoom();
      assert pol.t.pdes == map[] ==> pol.t.Queued() == {};
    }

    /** The pd-edges have no negative weights. */
    lemma WeightsNotNegative()
      requires Valid()
      ensures forall p :: p in pol.t.pdes ==> pol.t.pdes[p].weight >= 0
    {
      forall p | p in pol.t.pdes
        ensures pol.t.pdes[p].weight >= 0
      {
        assert forall i :: 0 <= i < |pol.edges| ==> Bare(pol.edges)[i].inv == pol.edges[i].inv;
        SumNotNegative(pol.edges, p);
      }
    }

    /** The test of the last loop of customize_overhead_to_limit, which looks into a heap only if it is not empty: a
        split somewhere costs less than a merge elsewhere saves. */
    method TradePaysNow() returns (pays: bool, inc: int, dec: int)
      requires Valid() && CutsCurrent({})
      ensures pays <==> !NoTradePays(Bare(pol.edges), pol.pd)
      ensures pays ==> inc < dec && pol.t.pdes != map[] && LeastCost(Bare(pol.edges), pol.pd, inc)
      ensures pays ==> MostSaving(Bare(pol.edges), pol.pd, dec)
      ensures pays ==> exists p :: p in pol.t.pdes && pol.t.pdes[p].weight == dec
      ensures pays ==> forall q :: q in pol.t.pdes ==> dec >= pol.t.pdes[q].weight
    {
      hide Valid;
      hide AllCurrent;
      hide LeastCost;
      hide MostSaving;
      hide NoTradePays;
      hide Bare;
      pays, inc, dec := false, 0, 0;
      var none := EmptyDec();
      if none {
        NothingMerges();
        return;
      }
      none := EmptyInc();
      if none {
        NothingSplits();
        return;
      }
      inc := PeekInc();
      dec := PeekDec();
      pays := inc < dec;
      TradePays(Bare(pol.edges), pol.pd, inc, dec);
    }

    lemma NothingMerges()
      requires Valid() && pol.t.pdes == map[]
      ensures NoTradePays(Bare(pol.edges), pol.pd)
    {
      hide NoTradePays;
      hide Bare;
      NothingToMerge(pol.edges, pol.pd);
    }

    lemma NothingSplits()
      requires Valid() && CutsCurrent({}) && tab.cuts == map[]
      ensures NoTradePays(Bare(pol.edges), pol.pd)
    {
      hide Bare;
      OnlyDomains();
      NothingRecorded(Bare(pol.edges), pol.pd, pol.members.Keys, tab.cuts);
    }

    /** One round of the last loop of customize_overhead_to_limit: while a trade pays, merge and split as far as the
        limit allows, until the prices are those of the round before.  Neither heap is empty where it is looked into. */
    method TradeRound(limit: int) returns (r: Outcome)
      requires Valid() && CutsCurrent({}) && (pol.t.totCost <= limit || pol.t.pdes == map[])
      requires NoSplitFits(Bare(pol.edges), pol.pd, pol.t.totCost, limit)
      modifies pol`edges, pol`pd, pol`members, pol`nextPd, pol.t`pdes, pol.t`nextId, pol.t`totCost
      modifies pol.t.h`e, pol.t.h`pos, pol.t.h.data, tab`cuts, tab.h`e, tab.h`pos, tab.h.data, mc`e, mc`pos, mc.data
      ensures Valid() && CutsCurrent({}) && Bare(pol.edges) == Bare(old(pol.edges)) && pol.pd.Keys == old(pol.pd).Keys
      ensures NoSplitFits(Bare(pol.edges), pol.pd, pol.t.totCost, limit)
      ensures r.Settled? <==> NoTradePays(Bare(pol.edges), old(pol.pd))
      ensures r.Settled? ==> pol.pd == old(pol.pd) && pol.t.totCost == old(pol.t.totCost)
      ensures !r.Settled? ==> old(pol.t.totCost) <= limit && pol.t.totCost < limit
      ensures !r.Settled? ==> Round(Bare(pol.edges), limit, old(pol.pd), pol.pd)
      ensures !r.Settled? ==> (r.Looped? <==> SameTrade(Bare(pol.edges), old(pol.pd), pol.pd))
    {
      hide Valid;
      hide AllCurrent;
      hide NoSplitFits;
      hide Bare;
      hide LeastCost;
      hide MostSaving;
      hide NoTradePays;
      hide SameTrade;
      hide Round;
      var pays, inc, dec := TradePaysNow();
      if !pays {
        return Settled;
      }
      ghost var pd0 := pol.pd;
      Bounds(limit, inc, dec);
      MergeAndSplit(limit);
      var same := PricesAgain(limit, inc, dec, pd0);
      r := if same then Looped else Again;
    }

    /** The test for a loop at the end of a round.  The second heap is looked into only if the first comparison holds,
        and then it is not empty. */
    method PricesAgain(limit: int, inc: int, dec: int, ghost pd0: map<nat, nat>) returns (same: bool)
      requires Valid() && CutsCurrent({}) && tab.cuts != map[] && inc < limit
      requires NoSplitFits(Bare(pol.edges), pol.pd, pol.t.totCost, limit)
      requires LeastCost(Bare(pol.edges), pd0, inc) && MostSaving(Bare(pol.edges), pd0, dec)
      ensures same <==> SameTrade(Bare(pol.edges), pd0, pol.pd)
    {
      hide Valid;
      hide AllCurrent;
      hide NoSplitFits;
      hide Bare;
      hide LeastCost;
      hide MostSaving;
      ghost var bs := Bare(pol.edges);
      var inc' := PeekInc();
      if inc == inc' {
        MergesLeft(limit, inc');
        var dec' := PeekDec();
        same := dec == dec';
        OtherTrade(bs, pd0, pol.pd, inc, dec, inc', dec');
      } else {
        same := false;
        OtherPrice(bs, pd0, pol.pd, inc, inc');
      }
    }

    /** The limit lies between the total and what all edges weigh, and a merge saves no more than the total. */
    lemma Bounds(limit: int, inc: int, dec: int)
      requires Valid() && NoSplitFits(Bare(pol.edges), pol.pd, pol.t.totCost, limit)
      requires LeastCost(Bare(pol.edges), pol.pd, inc) && MostSaving(Bare(pol.edges), pol.pd, dec)
      ensures 0 <= inc && limit <= pol.t.totCost + inc <= TotalWeight(Bare(pol.edges)) && dec <= pol.t.totCost
    {
      TotalIsCost();
      assert forall x :: x in pol.pd ==> pol.pd[x] < pol.nextPd;
      LimitBound(Bare(pol.edges), pol.pd, limit, inc, pol.nextPd);
      SavingBound(Bare(pol.edges), pol.pd, dec);
    }

    /** A split that costs less than the limit, and does not fit, shows that something crosses domains. */
    lemma MergesLeft(limit: int, inc: int)
      requires Valid() && NoSplitFits(Bare(pol.edges), pol.pd, pol.t.totCost, limit)
      requires LeastCost(Bare(pol.edges), pol.pd, inc) && inc < limit
      ensures pol.t.pdes != map[]
    {
      LeastDoesNotFit(Bare(pol.edges), pol.pd, pol.t.totCost, limit, inc);
      HeapsEmpty();
      if pol.t.pdes == map[] {
        pol.NothingCrosses();
      }
    }

    /** As long as less than everything crosses domains, a cut is recorded. */
    lemma SomethingRecorded()
      requires Valid() && CutsCurrent({}) && pol.t.totCost < TotalWeight(Bare(pol.edges))
      ensures tab.cuts != map[]
    {
      if tab.cuts == map[] {
        OnlyDomains();
        NothingRecorded(Bare(pol.edges), pol.pd, pol.members.Keys, tab.cuts);
        TotalIsCost();
        AllApart(Bare(pol.edges), pol.pd);
      }
    }

    /** The body of the last loop up to its test: the merge that saves most, and the splits that fit after it. */
    method MergeAndSplit(limit: int)
      requires Valid() && CutsCurrent({}) && pol.t.pdes != map[] && !NoTradePays(Bare(pol.edges), pol.pd)
      requires pol.t.totCost <= limit <= TotalWeight(Bare(pol.edges))
      modifies pol`edges, pol`pd, pol`members, pol`nextPd, pol.t`pdes, pol.t`nextId, pol.t`totCost
      modifies pol.t.h`e, pol.t.h`pos, pol.t.h.data, tab`cuts, tab.h`e, tab.h`pos, tab.h.data, mc`e, mc`pos, mc.data
      ensures Valid() && CutsCurrent({}) && Bare(pol.edges) == Bare(old(pol.edges)) && pol.pd.Keys == old(pol.pd).Keys
      ensures Round(Bare(pol.edges), limit, old(pol.pd), pol.pd)
      ensures NoSplitFits(Bare(pol.edges), pol.pd, pol.t.totCost, limit)
      ensures tab.cuts != map[] && pol.t.totCost < limit
    {
      hide Valid;
      hide AllCurrent;
      hide NoSplitFits;
      hide Bare;
      hide NoTradePays;
      hide BestMerge;
      hide Splits;
      hide Spans;
      hide SamePartition;
      ghost var bs, pd0 := Bare(pol.edges), pol.pd;
      TotalIsCost();
      ghost var a, b := MergeHeaviest();
      ghost var m := pol.pd;
      ghost var ps := SplitWithin(limit);
      assert Round(bs, limit, pd0, pol.pd);
      hide Round;
      TotalIsCost();
      RoundGetsOn(bs, limit, pd0, pol.pd);
      SomethingRecorded();
    }

    /** The merge that saves most. */
    method MergeHeaviest() returns (ghost a: nat, ghost b: nat)
      requires Valid() && pol.t.pdes != map[]
      modifies pol`edges, pol`pd, pol`members, pol.t`pdes, pol.t`nextId
      modifies pol.t`totCost, pol.t.h`e, pol.t.h`pos, pol.t.h.data
      modifies tab`cuts, tab.h`e, tab.h`pos, tab.h.data, mc`e, mc`pos, mc.data
      ensures Valid() && Bare(pol.edges) == Bare(old(pol.edges)) && pol.pd.Keys == old(pol.pd).Keys
      ensures old(CutsCurrent({})) ==> CutsCurrent({})
      ensures Heaviest(Bare(pol.edges), old(pol.pd), a, b) && pol.pd == MergedPlacement(old(pol.pd), a, b)
      ensures BestMerge(Bare(pol.edges), old(pol.pd), pol.pd)
      ensures |pol.members| == old(|pol.members|) - 1
      ensures pol.t.totCost == old(pol.t.totCost) - Saving(Bare(pol.edges), old(pol.pd), a, b)
    {
      hide Valid;
      hide AllCurrent;
      hide Bare;
      hide Part;
      hide Domains;
      hide Cost;
      hide Spans;
      hide MostSaving;
      hide Heaviest;
      hide HeaviestEdge;
      ghost var pd0, doms := pol.pd, pol.members;
      HeapsEmpty();
      TotalIsCost();
      SavingsOfEdges();
      a, b := DecreaseOverhead();
      assert |doms| == |doms.Keys| && |pol.members| == |pol.members.Keys|;
      TotalIsCost();
      MergedSize(pd0, a, b);
      hide MergedPlacement;
      SavesMost(Bare(pol.edges), pd0, a, b, Saving(Bare(pol.edges), pd0, a, b));
    }

    /** customize_overhead_to_limit, with at most so many rounds in its last loop that exchange a merge for a split of
        the same weight.  The placements of its three loops are results: it ends as the source does, unless it makes one
        such exchange more.  The total is within the limit, and no domain could be split without reaching it. */
    method Customize(limit: int, exchanges: nat)
      returns (ended: bool, ghost ms: seq<Placement>, ghost ps: seq<Placement>, ghost run: seq<Placement>)
      requires Valid()
      modifies pol`edges, pol`pd, pol`members, pol`nextPd, pol.t`pdes, pol.t`nextId, pol.t`totCost
      modifies pol.t.h`e, pol.t.h`pos, pol.t.h.data, tab`cuts, tab.h`e, tab.h`pos, tab.h.data, mc`e, mc`pos, mc.data
      ensures Valid() && CutsCurrent({}) && Bare(pol.edges) == Bare(old(pol.edges))
      ensures limit >= 0 ==> pol.t.totCost <= limit
      ensures NoSplitFits(Bare(pol.edges), pol.pd, pol.t.totCost, limit)
      ensures Customizes(Bare(pol.edges), limit, old(pol.pd), ms, ps, run) && Last(run) == pol.pd
      ensures ended <==> Ended(Bare(pol.edges), run)
      ensures !ended ==> Exchanges(Bare(pol.edges), run) == exchanges + 1
      ensures Untied(Bare(pol.edges), pol.pd.Keys) ==> ended
    {
      hide Valid;
      hide AllCurrent;
      hide NoSplitFits;
      hide Bare;
      hide BestMerge;
      hide CheapestSplit;
      hide Round;
      hide NoTradePays;
      hide SameTrade;
      hide Untied;
      hide Cost;
      ms := RemoveOverheadToLimit(limit);
      Recompute();
      ps := SplitWithin(limit);
      ended, run := Trade(limit, exchanges);
    }

    /** The last loop. */
    method Trade(limit: int, exchanges: nat) returns (ended: bool, ghost run: seq<Placement>)
      requires Valid() && CutsCurrent({}) && (pol.t.totCost <= limit || pol.t.pdes == map[])
      requires NoSplitFits(Bare(pol.edges), pol.pd, pol.t.totCost, limit)
      modifies pol`edges, pol`pd, pol`members, pol`nextPd, pol.t`pdes, pol.t`nextId, pol.t`totCost
      modifies pol.t.h`e, pol.t.h`pos, pol.t.h.data, tab`cuts, tab.h`e, tab.h`pos, tab.h.data, mc`e, mc`pos, mc.data
      ensures Valid() && CutsCurrent({}) && Bare(pol.edges) == Bare(old(pol.edges))
      ensures pol.pd.Keys == old(pol.pd).Keys
      ensures NoSplitFits(Bare(pol.edges), pol.pd, pol.t.totCost, limit)
      ensures pol.t.totCost == old(pol.t.totCost) || pol.t.totCost < limit
      ensures Rounds(Bare(pol.edges), limit, run) && run[0] == old(pol.pd) && Last(run) == pol.pd
      ensures ended <==> Ended(Bare(pol.edges), run)
      ensures !ended ==> Exchanges(Bare(pol.edges), run) == exchanges + 1
      ensures Untied(Bare(pol.edges), pol.pd.Keys) ==> ended
    {
      hide Valid;
      hide AllCurrent;
      hide NoSplitFits;
      hide Bare;
      hide NoTradePays;
      hide SameTrade;
      hide Rounds;
      hide Untied;
      hide Exchanges;
      hide Spans;
      hide Cost;
      ghost var bs := Bare(pol.edges);
      run := [pol.pd];
      FirstOf(bs, limit, pol.pd);
      var left := exchanges;
      TotalIsCost();
      CountsDomains();
      while true
        invariant Valid() && CutsCurrent({}) && Bare(pol.edges) == bs
        invariant pol.t.totCost <= limit || pol.t.pdes == map[]
        invariant pol.t.totCost == old(pol.t.totCost) || pol.t.totCost < limit
        invariant NoSplitFits(bs, pol.pd, pol.t.totCost, limit) && pol.pd.Keys == old(pol.pd).Keys
        invariant run != [] && Rounds(bs, limit, run) && run[0] == old(pol.pd) && Last(run) == pol.pd
        invariant |run| >= 2 ==> !SameTrade(bs, run[|run| - 2], Last(run)) && Cost(bs, run[0]) <= limit
        invariant Exchanges(bs, run) + left == exchanges
        invariant pol.t.totCost >= 0 && |pol.members| <= |pol.pd.Keys|
        decreases if pol.t.totCost == limit then 1 else 0, |pol.pd.Keys| - |pol.members|, pol.t.totCost, left
      {
        var total, domains := pol.t.totCost, |pol.members|;
        var r;
        r, run := TradeOnce(limit, run);
        if !r.Again? {
          return true, run;
        }
        if total == pol.t.totCost && domains == |pol.members| {
          if left == 0 {
            ended := StopHere(limit, run);
            return;
          }
          left := left - 1;
        }
      }
    }

    /** Whether the loop would stop by itself where the model stops after an exchange. */
    method StopHere(limit: int, ghost run: seq<Placement>) returns (ended: bool)
      requires Valid() && CutsCurrent({}) && |run| >= 2 && Rounds(Bare(pol.edges), limit, run) && Last(run) == pol.pd
      requires !SameTrade(Bare(pol.edges), run[|run| - 2], Last(run)) && Exchanges(Bare(pol.edges), run) > 0
      requires Spans(Bare(pol.edges), run[0]) && Cost(Bare(pol.edges), run[0]) <= limit
      requires run[0].Keys == pol.pd.Keys
      ensures ended <==> Ended(Bare(pol.edges), run)
      ensures Untied(Bare(pol.edges), pol.pd.Keys) ==> ended
    {
      hide Valid;
      hide AllCurrent;
      hide Bare;
      hide NoTradePays;
      hide SameTrade;
      hide Rounds;
      hide Untied;
      hide Exchanges;
      hide Spans;
      hide Cost;
      var pays, _, _ := TradePaysNow();
      ended := !pays;
      TotalIsCost();
      if pays && Untied(Bare(pol.edges), pol.pd.Keys) {
        UntiedExchanges(Bare(pol.edges), limit, run);
      }
    }

    /** A round added to those of before. */
    method TradeOnce(limit: int, ghost run: seq<Placement>) returns (r: Outcome, ghost run': seq<Placement>)
      requires Valid() && CutsCurrent({}) && (pol.t.totCost <= limit || pol.t.pdes == map[])
      requires NoSplitFits(Bare(pol.edges), pol.pd, pol.t.totCost, limit)
      requires run != [] && Rounds(Bare(pol.edges), limit, run) && Last(run) == pol.pd
      requires |run| >= 2 ==> !SameTrade(Bare(pol.edges), run[|run| - 2], Last(run))
      requires |run| >= 2 ==> Cost(Bare(pol.edges), run[0]) <= limit
      modifies pol`edges, pol`pd, pol`members, pol`nextPd, pol.t`pdes, pol.t`nextId, pol.t`totCost
      modifies pol.t.h`e, pol.t.h`pos, pol.t.h.data, tab`cuts, tab.h`e, tab.h`pos, tab.h.data, mc`e, mc`pos, mc.data
      ensures Valid() && CutsCurrent({}) && Bare(pol.edges) == Bare(old(pol.edges)) && pol.pd.Keys == old(pol.pd).Keys
      ensures NoSplitFits(Bare(pol.edges), pol.pd, pol.t.totCost, limit)
      ensures 0 <= pol.t.totCost && |pol.members| <= |pol.pd.Keys|
      ensures pol.t.totCost == old(pol.t.totCost) || pol.t.totCost < limit
      ensures run' != [] && Rounds(Bare(pol.edges), limit, run') && Last(run') == pol.pd && run'[0] == run[0]
      ensures if r.Settled? then run' == run else run' == run + [pol.pd]
      ensures !r.Again? ==> Ended(Bare(pol.edges), run')
      ensures r.Again? ==>
                && !SameTrade(Bare(pol.edges), run'[|run'| - 2], Last(run'))
                && Cost(Bare(pol.edges), run'[0]) <= limit && pol.t.totCost < limit
                && (old(pol.t.totCost) < limit ==> GetsOn(old(pol.t.totCost), old(|pol.members|)))
      ensures r.Again? ==>
                Exchanges(Bare(pol.edges), run') == Exchanges(Bare(pol.edges), run)
                + if old(pol.t.totCost) == pol.t.totCost && old(|pol.members|) == |pol.members| then 1 else 0
    {
      hide Valid;
      hide AllCurrent;
      hide NoSplitFits;
      hide Bare;
      hide NoTradePays;
      hide SameTrade;
      hide Round;
      hide Rounds;
      hide Exchanges;
      hide Spans;
      hide DomainSet;
      hide Cost;
      hide SomeTie;
      hide SamePartition;
      ghost var bs, pd0 := Bare(pol.edges), pol.pd;
      TotalIsCost();
      CountsDomains();
      r := TradeRound(limit);
      TotalIsCost();
      CountsDomains();
      run' := run;
      if !r.Settled? {
        RoundGetsOn(bs, limit, pd0, pol.pd);
        RoundsAppend(bs, limit, run, pol.pd);
        run' := run + [pol.pd];
      }
    }

    /** There are more domains than so many, or as many at no more than such a total. */
    predicate GetsOn(total: int, domains: nat)
      reads pol, pol.t
    {
      |pol.members| > domains || (|pol.members| == domains && pol.t.totCost <= total)
    }

    lemma CountsDomains()
      requires Valid()
      ensures |pol.members| == |DomainSet(pol.pd)| <= |pol.pd.Keys|
    {
      OnlyDomains();
      forall d
        ensures d in pol.members <==> d in DomainSet(pol.pd)
      {
        if d in pol.members {
          var x :| x in Part(pol.pd, d);
          assert pol.pd[x] == d;
        }
      }
      assert pol.members.Keys == DomainSet(pol.pd);
      DomainsAtMost(pol.pd);
    }

    lemma FewerThanComponents()
      requires Valid()
      ensures |pol.members| <= |pol.pd| == |pol.pd.Keys|
    {
      DomainCount(pol.pd, pol.members, pol.nextPd);
    }
  }

  lemma {:induction false} SumNotNegative(es: seq<Edge>, p: nat)
    requires forall i :: 0 <= i < |es| ==> es[i].inv >= 0
    ensures SumOf(es, p) >= 0
  {
    if es != [] {
      SumNotNegative(es[..|es| - 1], p);
    }
  }

  lemma MergedSize(pd: map<nat, nat>, a: nat, b: nat)
    ensures MergedPlacement(pd, a, b).Keys == pd.Keys
    ensures |MergedPlacement(pd, a, b)| == |pd| && Coarser(pd, MergedPlacement(pd, a, b))
  {
    assert |MergedPlacement(pd, a, b)| == |MergedPlacement(pd, a, b).Keys| && |pd| == |pd.Keys|;
  }

  lemma SplitSize(pd: map<nat, nat>, s: set<nat>, n: nat)
    ensures Relocated(pd, s, n).Keys == pd.Keys && |Relocated(pd, s, n)| == |pd|
  {
    assert |Relocated(pd, s, n)| == |Relocated(pd, s, n).Keys| && |pd| == |pd.Keys|;
  }
}
