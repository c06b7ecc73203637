/** The minimum cut of a protection domain (src/components/include/mpd_policy.h, "A Simple Min-Cut
    Algorithm" by Stoer and Wagner), run on the priority queue of heap.c.

    Intrusive circular lists are sequences: a component's sg ring is listed from its group master on, the
    pd ring from the domain's `members` pointer on, the cop ring from `mc_members` on ([] is NULL).  A
    component's outward and inward edge lists are the edges of the graph that leave and enter it. */
module MinCut {
  import opened Seqs
  import opened Cuts
  import opened PriorityHeap

  const MAX_LONG: int := 0x7FFF_FFFF

  datatype Connection = MostConnected | LeastConnected | Slave

  function WeightOf(w: map<nat, int>, c: nat): int {
    if c in w then w[c] else 0
  }

  /** The heap comparator mc_cmp under the present edge weights. */
  function MoreConnected(w: map<nat, int>): (nat, nat) -> bool {
    (a: nat, b: nat) => WeightOf(w, a) >= WeightOf(w, b)
  }

  ghost function Outward(es: seq<Edge>, s: nat, g: set<nat>): int {
    if es == [] then 0
    else Outward(es[..|es| - 1], s, g)
         + if es[|es| - 1].from == s && es[|es| - 1].to in g then es[|es| - 1].inv else 0
  }

  ghost function Inward(es: seq<Edge>, s: nat, g: set<nat>): int {
    if es == [] then 0
    else Inward(es[..|es| - 1], s, g)
         + if es[|es| - 1].to == s && es[|es| - 1].from in g then es[|es| - 1].inv else 0
  }

  lemma {:induction false} OutwardInward(es: seq<Edge>, s: nat, g: set<nat>)
    requires s !in g
    ensures Outward(es, s, g) + Inward(es, s, g) == Between(es, {s}, g)
  {
    if es != [] {
      OutwardInward(es[..|es| - 1], s, g);
    }
  }

  predicate IsMaster(master: map<nat, nat>, g: nat) {
    g in master && master[g] == g
  }

  ghost predicate RingOf(master: map<nat, nat>, r: seq<nat>, g: nat) {
    r != [] && r[0] == g && Distinct(r) && Elems(r) == Group(master, g)
  }

  /** Every component has a group master, and a master's ring lists exactly its group, master first. */
  ghost predicate Grouped(members: seq<nat>, master: map<nat, nat>, ring: map<nat, seq<nat>>) {
    && master.Keys == Elems(members)
    && (forall c :: c in master ==> IsMaster(master, master[c]))
    && (forall g :: IsMaster(master, g) ==> g in ring && RingOf(master, ring[g], g))
  }

  /** The groups of `order` have been chosen greedily from the groups of `order` and q. */
  ghost predicate Greedy(edges: seq<Edge>, master: map<nat, nat>, order: seq<nat>, q: set<nat>) {
    && order != [] && Masters(master, order) && MostConnectedFirst(edges, master, order)
    && (forall m :: IsMaster(master, m) <==> m in order || m in q)
    && (forall m :: m in order ==> m !in q)
    && (forall i, m :: 1 <= i < |order| && m in q ==>
          Between(edges, Covered(master, order[..i]), Group(master, order[i]))
            >= Between(edges, Covered(master, order[..i]), Group(master, m)))
  }

  lemma GreedyStep(edges: seq<Edge>, master: map<nat, nat>, order: seq<nat>, q: set<nat>, c: nat)
    requires Greedy(edges, master, order, q) && c in q
    requires forall m :: m in q ==>
      Between(edges, Covered(master, order), Group(master, c))
        >= Between(edges, Covered(master, order), Group(master, m))
    ensures Greedy(edges, master, order + [c], q - {c})
    ensures Covered(master, order + [c]) == Covered(master, order) + Group(master, c)
    ensures Covered(master, order) !! Group(master, c)
  {
    var longer := order + [c];
    assert forall i :: 0 <= i <= |order| ==> longer[..i] == order[..i];
    assert order[..|order|] == order;
    assert forall m :: m in longer <==> m in order || m == c;
  }

  lemma FirstMaster(members: seq<nat>, master: map<nat, nat>, ring: map<nat, seq<nat>>)
    requires Grouped(members, master, ring) && members != []
    ensures members[0] in master && IsMaster(master, master[members[0]])
  {
    assert members[0] in Elems(members);
  }

  lemma CoveredOne(master: map<nat, nat>, s: nat)
    ensures Covered(master, [s]) == Group(master, s)
  {
  }

  lemma GreedyStart(edges: seq<Edge>, master: map<nat, nat>, s: nat, q: set<nat>)
    requires s !in q && forall m :: IsMaster(master, m) <==> m == s || m in q
    ensures Greedy(edges, master, [s], q)
  {
    assert IsMaster(master, s);
  }

  /** The first i components of `rest` have been classified, and q is the set of masters among them. */
  ghost predicate Marked(grp: map<nat, Connection>, master: map<nat, nat>, s: nat, rest: seq<nat>, i: nat,
                         q: set<nat>) {
    && i <= |rest| && grp.Keys == master.Keys && s in grp && grp[s] == MostConnected
    && Elems(rest) == master.Keys - {s}
    && (forall m :: m in q <==> m in rest[..i] && IsMaster(master, m))
    && (forall c :: c in rest[..i] ==> c in grp && grp[c] == if IsMaster(master, c) then LeastConnected else Slave)
  }

  lemma NothingMarked(grp: map<nat, Connection>, master: map<nat, nat>, s: nat, rest: seq<nat>)
    requires grp.Keys == master.Keys && s in grp && grp[s] == MostConnected && Elems(rest) == master.Keys - {s}
    ensures Marked(grp, master, s, rest, 0, {})
  {
  }

  lemma MarkStep(grp: map<nat, Connection>, master: map<nat, nat>, s: nat, rest: seq<nat>, i: nat, q: set<nat>)
    requires Distinct(rest) && i < |rest| && Marked(grp, master, s, rest, i, q)
    ensures rest[i] in master && rest[i] != s && rest[i] !in q
    ensures var t := rest[i];
            Marked(grp[t := if IsMaster(master, t) then LeastConnected else Slave], master, s, rest, i + 1,
                   if IsMaster(master, t) then q + {t} else q)
  {
    assert rest[i] in Elems(rest);
    assert rest[..i + 1] == rest[..i] + [rest[i]];
    assert forall c :: c in rest[..i] ==> c in Elems(rest) && c != rest[i];
  }

  lemma AllMarked(grp: map<nat, Connection>, master: map<nat, nat>, s: nat, rest: seq<nat>, q: set<nat>)
    requires Marked(grp, master, s, rest, |rest|, q) && IsMaster(master, s)
    ensures s !in q && forall m :: IsMaster(master, m) <==> m == s || m in q
    ensures grp.Keys == master.Keys
    ensures forall m :: m in q <==> IsMaster(master, m) && grp[m] == LeastConnected
  {
    assert rest[..|rest|] == rest;
    forall m | IsMaster(master, m) && m != s
      ensures m in q
    {
      assert m in Elems(rest);
    }
    assert forall c :: c in rest ==> c in Elems(rest);
  }

  lemma CoveredApart(edges: seq<Edge>, master: map<nat, nat>, order: seq<nat>, q: set<nat>)
    requires Greedy(edges, master, order, q)
    ensures forall m :: m in q ==> Covered(master, order) !! Group(master, m)
  {
  }

  lemma LastGroup(edges: seq<Edge>, master: map<nat, nat>, order: seq<nat>, last: nat)
    requires forall c :: c in master ==> IsMaster(master, master[c])
    requires Greedy(edges, master, order + [last], {})
    ensures Between(edges, Covered(master, order), Group(master, last))
            == CutWeight(edges, master.Keys, Group(master, last))
  {
    var a, g := Covered(master, order), Group(master, last);
    forall x | x in master
      ensures x in a || x in g
    {
      assert IsMaster(master, master[x]);
    }
    assert (order + [last])[|order|] == last;
    assert a !! g;
    assert a == master.Keys - g;
    BetweenSymmetric(edges, a, g);
  }

  /** The group map after the group of b has joined the group of a. */
  ghost function Merged(master: map<nat, nat>, a: nat, b: nat): map<nat, nat> {
    map c | c in master :: if master[c] == b then a else master[c]
  }

  ghost function MasterSet(master: map<nat, nat>): set<nat> {
    set m | m in master && master[m] == m
  }

  /** Every cut that splits some group weighs at least `best`. */
  ghost predicate Settled(edges: seq<Edge>, master: map<nat, nat>, best: int) {
    forall c :: IsCut(master.Keys, c) ==> RespectsGroups(master, c) || CutWeight(edges, master.Keys, c) >= best
  }

  lemma SettledInitially(edges: seq<Edge>, master: map<nat, nat>, best: int)
    requires forall c :: c in master ==> master[c] == c
    ensures Settled(edges, master, best)
  {
  }

  /** A phase settles every cut that separates its last two groups. */
  lemma PhaseSettles(edges: seq<Edge>, master: map<nat, nat>, order: seq<nat>, best: int, best': int)
    requires NonNegative(edges) && (forall c :: c in master ==> IsMaster(master, master[c]))
    requires Greedy(edges, master, order, {}) && |order| >= 2 && Settled(edges, master, best)
    requires best' <= best && best' <= CutWeight(edges, master.Keys, Group(master, order[|order| - 1]))
    ensures Settled(edges, Merged(master, order[|order| - 1], order[|order| - 2]), best')
  {
    var t, s := order[|order| - 1], order[|order| - 2];
    var joined := Merged(master, t, s);
    assert joined.Keys == master.Keys;
    forall c | IsCut(master.Keys, c)
      ensures RespectsGroups(joined, c) || CutWeight(edges, master.Keys, c) >= best'
    {
      if RespectsGroups(master, c) {
        if (s in c) != (t in c) {
          AllCovered(edges, master, order);
          CutOfPhaseIsMinimum(edges, master, order, c);
        } else {
          SameSideMerged(master, c, t, s);
        }
      }
    }
  }

  lemma SameSideMerged(master: map<nat, nat>, c: set<nat>, a: nat, b: nat)
    requires IsMaster(master, a) && IsMaster(master, b) && RespectsGroups(master, c) && (a in c <==> b in c)
    ensures RespectsGroups(Merged(master, a, b), c)
  {
    forall x, y | x in master && y in master && Merged(master, a, b)[x] == Merged(master, a, b)[y]
      ensures x in c <==> y in c
    {
      assert master[x] == b ==> (x in c <==> b in c);
      assert master[y] == b ==> (y in c <==> b in c);
      assert master[x] == a ==> (x in c <==> a in c);
      assert master[y] == a ==> (y in c <==> a in c);
    }
  }

  lemma AllCovered(edges: seq<Edge>, master: map<nat, nat>, order: seq<nat>)
    requires Greedy(edges, master, order, {}) && (forall c :: c in master ==> IsMaster(master, master[c]))
    ensures Covered(master, order) == master.Keys
  {
  }

  /** The last group of a phase with at least two groups is one side of a cut. */
  lemma LastGroupIsCut(edges: seq<Edge>, master: map<nat, nat>, order: seq<nat>)
    requires Greedy(edges, master, order, {}) && |order| >= 2
    ensures IsCut(master.Keys, Group(master, order[|order| - 1]))
  {
    assert order[|order| - 1] in Group(master, order[|order| - 1]);
    assert order[|order| - 2] !in Group(master, order[|order| - 1]);
  }

  /** With a single group left, no cut respects the groups. */
  lemma OneGroupSettlesAll(edges: seq<Edge>, master: map<nat, nat>, order: seq<nat>, best: int)
    requires Greedy(edges, master, order, {}) && |order| == 1 && Settled(edges, master, best)
    requires forall c :: c in master ==> IsMaster(master, master[c])
    ensures forall c :: IsCut(master.Keys, c) ==> CutWeight(edges, master.Keys, c) >= best
  {
    forall c | IsCut(master.Keys, c)
      ensures !RespectsGroups(master, c)
    {
      var x :| x in c;
      var y :| y in master.Keys && y !in c;
      assert IsMaster(master, master[x]) && IsMaster(master, master[y]);
      assert master[x] in order && master[y] in order;
    }
  }

  /** The group of b has been moved to a up to its i-th member. */
  ghost predicate Moving(members: seq<nat>, m0: map<nat, nat>, r0: map<nat, seq<nat>>, a: nat, b: nat, i: nat,
                         master: map<nat, nat>, ring: map<nat, seq<nat>>)
  {
    && IsMaster(m0, a) && IsMaster(m0, b) && a != b && Grouped(members, m0, r0)
    && i <= |r0[b]|
    && master.Keys == m0.Keys
    && (forall c :: c in m0 ==> master[c] == if c in r0[b][..i] then a else m0[c])
    && a in ring && (forall g :: g in r0 && g != a ==> g in ring && ring[g] == r0[g])
    && ring[a] != [] && ring[a][0] == a && Distinct(ring[a])
    && Elems(ring[a]) == Group(m0, a) + Elems(r0[b][..i])
  }

  lemma MovingStart(members: seq<nat>, m0: map<nat, nat>, r0: map<nat, seq<nat>>, a: nat, b: nat)
    requires Grouped(members, m0, r0) && IsMaster(m0, a) && IsMaster(m0, b) && a != b
    ensures b in r0 && Moving(members, m0, r0, a, b, 0, m0, r0)
  {
    assert Elems(r0[b][..0]) == {};
  }

  lemma MovingStep(members: seq<nat>, m0: map<nat, nat>, r0: map<nat, seq<nat>>, a: nat, b: nat, i: nat,
                   master: map<nat, nat>, ring: map<nat, seq<nat>>)
    requires b in r0 && Moving(members, m0, r0, a, b, i, master, ring) && i < |r0[b]|
    ensures a in ring && ring[a] != [] && r0[b][i] in master
    ensures var t := r0[b][i];
            Moving(members, m0, r0, a, b, i + 1, master[t := a], ring[a := [a, t] + ring[a][1..]])
  {
    var t, r := r0[b][i], ring[a];
    assert t in Elems(r0[b]) && t in Group(m0, b);
    assert r0[b][..i + 1] == r0[b][..i] + [t];
    assert t !in Elems(r0[b][..i]);
    assert t !in Elems(r);
    RingInsert(r, t);
  }

  lemma RingInsert(r: seq<nat>, t: nat)
    requires r != [] && Distinct(r) && t !in Elems(r)
    ensures Distinct([r[0], t] + r[1..]) && Elems([r[0], t] + r[1..]) == Elems(r) + {t}
  {
    var n := [r[0], t] + r[1..];
    assert r == [r[0]] + r[1..];
    assert forall x :: x in n <==> x == t || x in r;
  }

  lemma MovingEnd(members: seq<nat>, m0: map<nat, nat>, r0: map<nat, seq<nat>>, a: nat, b: nat,
                  master: map<nat, nat>, ring: map<nat, seq<nat>>)
    requires b in r0 && Moving(members, m0, r0, a, b, |r0[b]|, master, ring)
    ensures master == Merged(m0, a, b) && Grouped(members, master, ring)
    ensures MasterSet(master) == MasterSet(m0) - {b} && b in MasterSet(m0)
  {
    assert r0[b][..|r0[b]|] == r0[b];
    assert forall c :: c in r0[b] <==> c in Elems(r0[b]);
    assert master == Merged(m0, a, b);
    MergedGroups(m0, a, b);
    forall g | IsMaster(master, g)
      ensures g in ring && RingOf(master, ring[g], g)
    {
      assert IsMaster(m0, g) && g != b;
    }
  }

  lemma MergedGroups(m0: map<nat, nat>, a: nat, b: nat)
    requires IsMaster(m0, a) && IsMaster(m0, b) && a != b && forall c :: c in m0 ==> IsMaster(m0, m0[c])
    ensures var m := Merged(m0, a, b);
            && Group(m, a) == Group(m0, a) + Group(m0, b)
            && (forall g :: g != a && g != b ==> Group(m, g) == Group(m0, g))
            && MasterSet(m) == MasterSet(m0) - {b}
            && (forall g :: IsMaster(m, g) <==> IsMaster(m0, g) && g != b) && (forall c :: c in m ==> IsMaster(m, m[c]))
  {
  }

  lemma GroupedFacts(members: seq<nat>, master: map<nat, nat>, ring: map<nat, seq<nat>>)
    requires Grouped(members, master, ring)
    ensures master.Keys == Elems(members) && forall c :: c in master ==> IsMaster(master, master[c])
  {
  }

  lemma LastTwo(edges: seq<Edge>, master: map<nat, nat>, order: seq<nat>)
    requires Greedy(edges, master, order, {}) && |order| >= 2
    ensures order[|order| - 1] != order[|order| - 2]
    ensures IsMaster(master, order[|order| - 1]) && IsMaster(master, order[|order| - 2])
  {
  }

  function IndexOf(r: seq<nat>, x: nat): (k: nat)
    requires x in r
    ensures k < |r| && r[k] == x
  {
    if r[0] == x then 0 else 1 + IndexOf(r[1..], x)
  }

  /** A ring read from the successor of x around to the predecessor of x. */
  function RingAfter(r: seq<nat>, x: nat): seq<nat>
    requires x in r
  {
    var k := IndexOf(r, x);
    r[k + 1..] + r[..k]
  }

  lemma RingAfterElems(r: seq<nat>, x: nat)
    requires x in r && Distinct(r)
    ensures Elems(RingAfter(r, x)) == Elems(r) - {x} && Distinct(RingAfter(r, x))
    ensures |RingAfter(r, x)| == |r| - 1
  {
    var k := IndexOf(r, x);
    assert r == r[..k] + [x] + r[k + 1..];
  }

  lemma OrderOnSlotsOnly<T(!new)>(cmp: (T, T) -> bool, cmp': (T, T) -> bool, s: seq<T>)
    requires Ordered(cmp, s)
    requires forall i, j :: 1 <= i < |s| && 1 <= j < |s| ==> cmp(s[i], s[j]) == cmp'(s[i], s[j])
    ensures Ordered(cmp', s)
  {
  }

  lemma SingleGroups(members: seq<nat>, master: map<nat, nat>, ring: map<nat, seq<nat>>)
    requires master.Keys == Elems(members) && ring.Keys == master.Keys
    requires forall c :: c in master ==> master[c] == c && ring[c] == [c]
    ensures Grouped(members, master, ring)
  {
  }

  lemma RingIsGroup(members: seq<nat>, master: map<nat, nat>, ring: map<nat, seq<nat>>, b: nat)
    requires Grouped(members, master, ring) && IsMaster(master, b)
    ensures b in ring && forall x :: x in ring[b] <==> x in Group(master, b)
  {
  }

  class Domain {
    var edges: seq<Edge>
    var members: seq<nat>
    var master: map<nat, nat>
    var ring: map<nat, seq<nat>>
    var grp: map<nat, Connection>
    var weight: map<nat, int>
    var mcAmnt: int
    var mcMembers: seq<nat>

    constructor (edges: seq<Edge>, members: seq<nat>)
      ensures this.edges == edges && this.members == members
    {
      this.edges, this.members := edges, members;
      master, ring, grp, weight, mcAmnt, mcMembers := map[], map[], map[], map[], MAX_LONG, [];
    }

    ghost predicate Graph()
      reads this`edges, this`members
    {
      NonNegative(edges) && members != [] && Distinct(members)
    }

    /** component_grp_weight: how strongly component s is connected to the group of g. */
    method GroupWeight(s: nat, g: nat) returns (cnt: int)
      requires Grouped(members, master, ring) && s in master && IsMaster(master, g) && master[s] != g
      ensures cnt == Between(edges, {s}, Group(master, g))
    {
      ghost var grpSet := Group(master, g);
      cnt := 0;
      for i := 0 to |edges|
        invariant cnt == Outward(edges[..i], s, grpSet)
      {
        PrefixStep(edges, i);
        var e := edges[i];
        if e.from == s && e.to in master && master[e.to] == g {
          cnt := cnt + e.inv;
        }
      }
      assert edges[..|edges|] == edges;
      for i := 0 to |edges|
        invariant cnt == Outward(edges, s, grpSet) + Inward(edges[..i], s, grpSet)
      {
        PrefixStep(edges, i);
        var e := edges[i];
        if e.to == s && e.from in master && master[e.from] == g {
          cnt := cnt + e.inv;
        }
      }
      assert edges[..|edges|] == edges;
      OutwardInward(edges, s, grpSet);
    }

    /** component_grp_to_grp_weight. */
    method GroupToGroupWeight(g1: nat, g2: nat) returns (cnt: int)
      requires Grouped(members, master, ring) && IsMaster(master, g1) && IsMaster(master, g2) && g1 != g2
      ensures cnt == Between(edges, Group(master, g1), Group(master, g2))
    {
      ghost var other := Group(master, g2);
      cnt := 0;
      BetweenEmpty(edges, other);
      assert Elems(ring[g1][..0]) == {};
      for i := 0 to |ring[g1]|
        invariant cnt == Between(edges, Elems(ring[g1][..i]), other)
      {
        var c := ring[g1][i];
        assert c in Elems(ring[g1]);
        var w := GroupWeight(c, g2);
        cnt := cnt + w;
        MemberStep(ring[g1], i, Group(master, g1));
        BetweenUnion(edges, Elems(ring[g1][..i]), {c}, other);
      }
      assert ring[g1][..|ring[g1]|] == ring[g1];
    }

    static lemma MemberStep(r: seq<nat>, i: nat, g: set<nat>)
      requires Distinct(r) && Elems(r) == g && i < |r|
      ensures Elems(r[..i + 1]) == Elems(r[..i]) + {r[i]}
      ensures r[i] !in Elems(r[..i]) && r[i] in g && Elems(r[..i]) <= g
    {
      PrefixStep(r, i);
      forall x | x in r[..i]
        ensures x in Elems(r)
      {
      }
    }

    /** The groups, and the set q of masters that are still LeastConnected. */
    ghost predicate Waiting(q: set<nat>)
      reads this`members, this`master, this`ring, this`grp
    {
      && Grouped(members, master, ring) && grp.Keys == master.Keys
      && (forall m :: m in q <==> IsMaster(master, m) && grp[m] == LeastConnected)
    }

    /** The heap orders exactly q by the present weights. */
    ghost predicate Queued(h: Heap<nat>, q: set<nat>)
      reads this`weight, h, h.data
    {
      h.Valid(MoreConnected(weight)) && h.Elems() == q && q <= weight.Keys
    }

    /** __component_heap_adjust. */
    method Strengthen(m: nat, inv: int, h: Heap<nat>, ghost q: set<nat>)
      requires Waiting(q) && Queued(h, q) && IsMaster(master, m)
      modifies this`weight, h`pos, h.data
      ensures Queued(h, q)
      ensures weight == if m in q then old(weight)[m := old(weight)[m] + inv] else old(weight)
    {
      if grp[m] == LeastConnected {
        ghost var cmp := MoreConnected(weight);
        assert m in h.Elems() && h.Holds(m);
        weight := weight[m := weight[m] + inv];
        var c := h.pos[m];
        KeyChanged(cmp, MoreConnected(weight), h.Slots(), c);
        h.Adjust(MoreConnected(weight), c);
      }
    }

    /** component_adjust_heap: account for the edges of component s, which has joined the most connected set. */
    method AdjustForMember(s: nat, h: Heap<nat>, ghost q: set<nat>)
      requires Waiting(q) && Queued(h, q) && s in master && master[s] !in q
      modifies this`weight, h`pos, h.data
      ensures Queued(h, q)
      ensures forall m :: m in q ==> weight[m] == old(weight)[m] + Between(edges, {s}, Group(master, m))
    {
      AdjustOutward(s, h, q);
      AdjustInward(s, h, q);
      forall m | m in q
        ensures weight[m] == old(weight)[m] + Between(edges, {s}, Group(master, m))
      {
        OutwardInward(edges, s, Group(master, m));
      }
    }

    method AdjustOutward(s: nat, h: Heap<nat>, ghost q: set<nat>)
      requires Waiting(q) && Queued(h, q)
      modifies this`weight, h`pos, h.data
      ensures Queued(h, q)
      ensures forall m :: m in q ==> weight[m] == old(weight)[m] + Outward(edges, s, Group(master, m))
    {
      for i := 0 to |edges|
        invariant Queued(h, q)
        invariant forall m :: m in q ==> weight[m] == old(weight)[m] + Outward(edges[..i], s, Group(master, m))
      {
        var e := edges[i];
        if e.from == s && e.to in master {
          Strengthen(master[e.to], e.inv, h, q);
        }
        forall m | m in q
          ensures weight[m] == old(weight)[m] + Outward(edges[..i + 1], s, Group(master, m))
        {
          PrefixStep(edges, i);
        }
      }
      assert edges[..|edges|] == edges;
    }

    method AdjustInward(s: nat, h: Heap<nat>, ghost q: set<nat>)
      requires Waiting(q) && Queued(h, q)
      modifies this`weight, h`pos, h.data
      ensures Queued(h, q)
      ensures forall m :: m in q ==> weight[m] == old(weight)[m] + Inward(edges, s, Group(master, m))
    {
      for i := 0 to |edges|
        invariant Queued(h, q)
        invariant forall m :: m in q ==> weight[m] == old(weight)[m] + Inward(edges[..i], s, Group(master, m))
      {
        var e := edges[i];
        if e.to == s && e.from in master {
          Strengthen(master[e.from], e.inv, h, q);
        }
        forall m | m in q
          ensures weight[m] == old(weight)[m] + Inward(edges[..i + 1], s, Group(master, m))
        {
          PrefixStep(edges, i);
        }
      }
      assert edges[..|edges|] == edges;
    }

    /** component_grp_adjust_heap. */
    method AdjustForGroup(g: nat, h: Heap<nat>, ghost q: set<nat>)
      requires Waiting(q) && Queued(h, q) && IsMaster(master, g) && g !in q
      modifies this`weight, h`pos, h.data
      ensures Queued(h, q)
      ensures forall m :: m in q ==> weight[m] == old(weight)[m] + Between(edges, Group(master, g), Group(master, m))
    {
      forall m | m in q
        ensures Between(edges, Elems(ring[g][..0]), Group(master, m)) == 0
      {
        assert Elems(ring[g][..0]) == {};
        BetweenEmpty(edges, Group(master, m));
      }
      for i := 0 to |ring[g]|
        invariant Queued(h, q)
        invariant forall m :: m in q ==>
          weight[m] == old(weight)[m] + Between(edges, Elems(ring[g][..i]), Group(master, m))
      {
        var c := ring[g][i];
        MemberStep(ring[g], i, Group(master, g));
        AdjustForMember(c, h, q);
        forall m | m in q
          ensures Between(edges, Elems(ring[g][..i + 1]), Group(master, m))
                  == Between(edges, Elems(ring[g][..i]), Group(master, m)) + Between(edges, {c}, Group(master, m))
        {
          BetweenUnion(edges, Elems(ring[g][..i]), {c}, Group(master, m));
        }
      }
      assert ring[g][..|ring[g]|] == ring[g];
    }

    /** Puts the master t, whose connection to the starting group has the given weight, on the heap. */
    method Enqueue(t: nat, w: int, h: Heap<nat>, ghost q: set<nat>)
      requires Queued(h, q) && t !in q && h.e < h.data.Length
      modifies this`weight, h`e, h`pos, h.data
      ensures Queued(h, q + {t}) && h.e == old(h.e) + 1 && weight == old(weight)[t := w]
    {
      ghost var cmp := MoreConnected(weight);
      weight := weight[t := w];
      forall i | 1 <= i < h.e
        ensures h.Slots()[i] != t
      {
        assert h.Slots()[i] in h.Elems();
      }
      OrderOnSlotsOnly(cmp, MoreConnected(weight), h.Slots());
      var _ := h.Add(MoreConnected(weight), t);
    }

    ghost predicate ConnectedTo(a: set<nat>, q: set<nat>)
      reads this`edges, this`master, this`weight
    {
      q <= weight.Keys && forall m :: m in q ==> weight[m] == Between(edges, a, Group(master, m))
    }

    /** One round of the first loop of mc_phase. */
    method PlaceMember(s: nat, t: nat, h: Heap<nat>, ghost q: set<nat>) returns (ghost q': set<nat>)
      requires Grouped(members, master, ring) && IsMaster(master, s) && t in master && t != s
      requires Queued(h, q) && ConnectedTo(Group(master, s), q) && t !in q && h.e < h.data.Length
      modifies this`grp, this`weight, h`e, h`pos, h.data
      ensures grp == old(grp)[t := if IsMaster(master, t) then LeastConnected else Slave]
      ensures q' == if IsMaster(master, t) then q + {t} else q
      ensures Queued(h, q') && ConnectedTo(Group(master, s), q') && h.e <= old(h.e) + 1
    {
      if master[t] == t {
        grp := grp[t := LeastConnected];
        var w := GroupToGroupWeight(s, t);
        Enqueue(t, w, h, q);
        q' := q + {t};
      } else {
        grp := grp[t := Slave];
        q' := q;
      }
    }

    lemma NothingQueued(s: nat, h: Heap<nat>)
      requires h.Indexed() && h.e == 1
      ensures Queued(h, {}) && ConnectedTo(Group(master, s), {})
    {
    }

    lemma AllWaiting(q: set<nat>)
      requires Grouped(members, master, ring) && grp.Keys == master.Keys
      requires forall m :: m in q <==> IsMaster(master, m) && grp[m] == LeastConnected
      ensures Waiting(q)
    {
    }

    lemma SizeOfQueue(h: Heap<nat>, q: set<nat>)
      requires Queued(h, q)
      ensures h.Indexed() && h.e >= 1 && (h.e == 1 ==> q == {})
    {
      if h.e == 1 {
        assert h.Elems() == {};
      }
    }

    /** The first loop of mc_phase: every group but the one of s goes on the heap. */
    method FillHeap(s: nat, rest: seq<nat>, h: Heap<nat>) returns (ghost q: set<nat>)
      requires Grouped(members, master, ring) && grp.Keys == master.Keys
      requires IsMaster(master, s) && s in grp && grp[s] == MostConnected
      requires Distinct(rest) && Elems(rest) == master.Keys - {s}
      requires h.Indexed() && h.e == 1 && h.data.Length > |rest| + 1
      modifies this`grp, this`weight, h`e, h`pos, h.data
      ensures Waiting(q) && Queued(h, q) && ConnectedTo(Group(master, s), q)
      ensures s !in q && forall m :: IsMaster(master, m) <==> m == s || m in q
      ensures grp.Keys == master.Keys
    {
      hide *;
      q := {};
      NothingQueued(s, h);
      NothingMarked(grp, master, s, rest);
      for i := 0 to |rest|
        invariant Marked(grp, master, s, rest, i, q)
        invariant h.e <= 1 + i
        invariant Queued(h, q) && ConnectedTo(Group(master, s), q)
      {
        MarkStep(grp, master, s, rest, i, q);
        q := PlaceMember(s, rest[i], h, q);
      }
      AllMarked(grp, master, s, rest, q);
      AllWaiting(q);
    }

    /** A group c taken off the heap joins the most connected set a. */
    method Absorb(c: nat, h: Heap<nat>, ghost q: set<nat>, ghost a: set<nat>)
      requires Waiting(q) && c in q && Queued(h, q - {c}) && ConnectedTo(a, q)
      requires forall m :: m in q ==> a !! Group(master, m)
      modifies this`grp, this`weight, h`pos, h.data
      ensures Waiting(q - {c}) && Queued(h, q - {c}) && ConnectedTo(a + Group(master, c), q - {c})
      ensures grp.Keys == master.Keys
    {
      grp := grp[c := MostConnected];
      AdjustForGroup(c, h, q - {c});
      forall m | m in q - {c}
        ensures weight[m] == Between(edges, a + Group(master, c), Group(master, m))
      {
        BetweenUnion(edges, a, Group(master, c), Group(master, m));
      }
    }

    /** Takes a most connected group off the heap. */
    method TakeHighest(h: Heap<nat>, ghost q: set<nat>, ghost a: set<nat>) returns (c: nat)
      requires Queued(h, q) && ConnectedTo(a, q) && h.e >= 2
      modifies h`e, h`pos, h.data
      ensures c in q && Queued(h, q - {c}) && h.e == old(h.e) - 1
      ensures h.e == 1 ==> q == {c} && h.Indexed()
      ensures c in weight && weight[c] == Between(edges, a, Group(master, c))
      ensures forall m :: m in q ==> Between(edges, a, Group(master, c)) >= Between(edges, a, Group(master, m))
    {
      var top := h.Highest(MoreConnected(weight));
      c := top.value;
      assert forall m :: m in q ==> MoreConnected(weight)(c, m);
      if h.e == 1 {
        assert h.Elems() == {};
      }
    }

    /** The second loop of mc_phase: the most connected group joins, until one group is left on the heap. */
    method Grow(s: nat, h: Heap<nat>, ghost q0: set<nat>)
      returns (c: Option<nat>, ghost q: set<nat>, ghost order: seq<nat>)
      requires Waiting(q0) && Queued(h, q0) && ConnectedTo(Covered(master, [s]), q0) && h.e >= 2
      requires Greedy(edges, master, [s], q0) && grp.Keys == master.Keys
      modifies this`grp, this`weight, h`e, h`pos, h.data
      ensures Waiting(q) && Queued(h, q) && ConnectedTo(Covered(master, order), q) && h.e == 2
      ensures Greedy(edges, master, order, q) && order != [] && grp.Keys == master.Keys
      ensures order[|order| - 1] == if c.Some? then c.value else s
    {
      hide *;
      c, q, order := None, q0, [s];
      while h.e - 1 > 1
        invariant Waiting(q) && Queued(h, q) && ConnectedTo(Covered(master, order), q) && h.e >= 2
        invariant Greedy(edges, master, order, q) && order != [] && grp.Keys == master.Keys
        invariant order[|order| - 1] == if c.Some? then c.value else s
        decreases h.e
      {
        CoveredApart(edges, master, order, q);
        var top := TakeHighest(h, q, Covered(master, order));
        GreedyStep(edges, master, order, q, top);
        Absorb(top, h, q, Covered(master, order));
        c, q, order := Some(top), q - {top}, order + [top];
      }
    }

    /** mc_phase: the cut of the phase, the last group and the one before it. */
    method Phase(h: Heap<nat>) returns (amnt: int, second: Option<nat>, mcop: Option<nat>, ghost order: seq<nat>)
      requires Graph() && Grouped(members, master, ring) && grp.Keys == master.Keys && members != []
      requires h.Indexed() && h.e == 1 && h.data.Length > |members|
      modifies this`grp, this`weight, h`e, h`pos, h.data
      ensures grp.Keys == master.Keys && h.Indexed() && h.e == 1
      ensures Greedy(edges, master, order, {}) && order != []
      ensures mcop.None? <==> |order| == 1
      ensures (second.None? <==> |order| == 1) && (mcop.None? ==> amnt == 0)
      ensures mcop.Some? ==> mcop.value == order[|order| - 1] && second.value == order[|order| - 2]
      ensures mcop.Some? ==> amnt == CutWeight(edges, master.Keys, Group(master, mcop.value))
    {
      hide *;
      var s;
      ghost var q;
      s, q := Start(h);
      order := [s];
      if h.e == 1 {
        return 0, None, None, order;
      }
      var c;
      c, q, order := Grow(s, h, q);
      second := if c.Some? then c else Some(s);
      var last;
      last, amnt, order := CutOfPhase(h, q, order);
      mcop := Some(last);
    }

    /** The start of mc_phase: the group of the domain's first member is the most connected set. */
    method Start(h: Heap<nat>) returns (s: nat, ghost q: set<nat>)
      requires Graph() && Grouped(members, master, ring) && grp.Keys == master.Keys && members != []
      requires h.Indexed() && h.e == 1 && h.data.Length > |members|
      modifies this`grp, this`weight, h`e, h`pos, h.data
      ensures Waiting(q) && Queued(h, q) && ConnectedTo(Covered(master, [s]), q)
      ensures Greedy(edges, master, [s], q)
      ensures h.Indexed() && (h.e == 1 ==> q == {}) && h.e >= 1 && grp.Keys == master.Keys
    {
      hide *;
      FirstMaster(members, master, ring);
      s := master[members[0]];
      var rest := OthersThan(s);
      grp := grp[s := MostConnected];
      q := FillHeap(s, rest, h);
      CoveredOne(master, s);
      GreedyStart(edges, master, s, q);
      SizeOfQueue(h, q);
    }

    method CutOfPhase(h: Heap<nat>, ghost q: set<nat>, ghost before: seq<nat>)
      returns (last: nat, amnt: int, ghost order: seq<nat>)
      requires Grouped(members, master, ring) && Queued(h, q) && ConnectedTo(Covered(master, before), q) && h.e == 2
      requires Greedy(edges, master, before, q)
      modifies h`e, h`pos, h.data
      ensures h.Indexed() && h.e == 1
      ensures order == before + [last] && Greedy(edges, master, order, {})
      ensures amnt == CutWeight(edges, master.Keys, Group(master, last))
    {
      last := TakeHighest(h, q, Covered(master, before));
      amnt := weight[last];
      order := before + [last];
      GreedyStep(edges, master, before, q, last);
      assert q - {last} == {};
      LastGroup(edges, master, before, last);
    }

    method OthersThan(s: nat) returns (rest: seq<nat>)
      requires Graph() && Grouped(members, master, ring) && s in master
      ensures Distinct(rest) && Elems(rest) == master.Keys - {s} && |rest| == |members| - 1
    {
      rest := RingAfter(members, s);
      RingAfterElems(members, s);
    }

    /** mc_append_lists: the group of b joins the group of a. */
    method AppendLists(a: nat, b: nat)
      requires Grouped(members, master, ring) && IsMaster(master, a) && IsMaster(master, b) && a != b
      requires grp.Keys == master.Keys
      modifies this`master, this`ring, this`grp
      ensures master == Merged(old(master), a, b) && Grouped(members, master, ring) && grp.Keys == master.Keys
      ensures MasterSet(master) == MasterSet(old(master)) - {b} && b in MasterSet(old(master))
      ensures grp == map x | x in old(grp) :: if x in Group(old(master), b) then Slave else old(grp)[x]
    {
      hide *;
      ghost var m0, r0, g0 := master, ring, grp;
      MovingStart(members, m0, r0, a, b);
      RingIsGroup(members, m0, r0, b);
      var rb := ring[b];
      for i := 0 to |rb|
        invariant Moving(members, m0, r0, a, b, i, master, ring) && grp.Keys == master.Keys == g0.Keys
        invariant forall x :: x in grp ==> grp[x] == if x in rb[..i] then Slave else g0[x]
      {
        MovingStep(members, m0, r0, a, b, i, master, ring);
        var t := rb[i];
        master := master[t := a];
        ring := ring[a := [a, t] + ring[a][1..]];
        grp := grp[t := Slave];
        assert rb[..i + 1] == rb[..i] + [t];
      }
      assert rb[..|rb|] == rb;
      MovingEnd(members, m0, r0, a, b, master, ring);
    }

    /** Replaces the recorded cut by the group of mcop. */
    method RecordCut(mcop: nat, amnt: int)
      requires Grouped(members, master, ring) && IsMaster(master, mcop)
      modifies this`mcMembers, this`mcAmnt
      ensures mcAmnt == amnt && mcMembers != [] && Distinct(mcMembers) && Elems(mcMembers) == Group(master, mcop)
    {
      var r := ring[mcop];
      mcMembers := [mcop];
      for i := 1 to |r|
        invariant mcMembers != [] && mcMembers[0] == mcop
        invariant |mcMembers| == i && forall k :: 1 <= k < i ==> mcMembers[k] == r[i - k]
      {
        mcMembers := [mcop, r[i]] + mcMembers[1..];
      }
      mcAmnt := amnt;
      assert forall k :: 1 <= k < |r| ==> r[k] == mcMembers[|r| - k];
      assert Elems(mcMembers) == Elems(r);
    }

    /** mc_prepare_data: every component is a group of its own, and no cut is recorded. */
    method PrepareData()
      requires Graph()
      modifies this`master, this`ring, this`grp, this`weight, this`mcMembers, this`mcAmnt
      ensures Grouped(members, master, ring) && grp.Keys == master.Keys
      ensures weight.Keys == master.Keys
      ensures forall c :: c in master ==> master[c] == c && weight[c] == 0 && grp[c] == LeastConnected
      ensures mcMembers == [] && mcAmnt == MAX_LONG
    {
      hide Grouped;
      master, ring, grp, weight := map[], map[], map[], map[];
      for i := 0 to |members|
        invariant master.Keys == Elems(members[..i]) && ring.Keys == master.Keys && grp.Keys == master.Keys
        invariant weight.Keys == master.Keys
        invariant forall c :: c in master ==>
                    master[c] == c && ring[c] == [c] && weight[c] == 0 && grp[c] == LeastConnected
      {
        var t := members[i];
        assert members[..i + 1] == members[..i] + [t];
        master, ring, weight, grp := master[t := t], ring[t := [t]], weight[t := 0], grp[t := LeastConnected];
      }
      assert members[..|members|] == members;
      SingleGroups(members, master, ring);
      mcMembers, mcAmnt := [], MAX_LONG;
    }

    /** The recorded cut, if any, is one side of a cut of weight mcAmnt. */
    ghost predicate Recorded()
      reads this`edges, this`members, this`mcMembers, this`mcAmnt
    {
      if mcMembers == [] then mcAmnt == MAX_LONG
      else
        && Distinct(mcMembers) && IsCut(Elems(members), Elems(mcMembers))
        && CutWeight(edges, Elems(members), Elems(mcMembers)) == mcAmnt < MAX_LONG
    }

    /** One round of the loop of mc_find_min_cut: a phase, and the merge of its last two groups. */
    method Round(h: Heap<nat>) returns (done: bool)
      requires Graph() && members != [] && h.Indexed() && h.e == 1 && h.data.Length > |members|
      requires Grouped(members, master, ring) && grp.Keys == master.Keys
      requires Recorded() && Settled(edges, master, mcAmnt)
      modifies this`master, this`ring, this`grp, this`weight, this`mcMembers, this`mcAmnt, h`e, h`pos, h.data
      ensures h.Indexed() && h.e == 1
      ensures Grouped(members, master, ring) && grp.Keys == master.Keys
      ensures Recorded() && Settled(edges, master, mcAmnt)
      ensures done ==> forall c :: IsCut(Elems(members), c) ==> CutWeight(edges, Elems(members), c) >= mcAmnt
      ensures !done ==> |MasterSet(master)| < |MasterSet(old(master))|
    {
      hide *;
      var amnt, second, mcop;
      ghost var order;
      amnt, second, mcop, order := Phase(h);
      GroupedFacts(members, master, ring);
      if mcop.None? {
        OneGroupSettlesAll(edges, master, order, mcAmnt);
        return true;
      }
      GraphFacts();
      var last, before := mcop.value, second.value;
      LastTwo(edges, master, order);
      ghost var best := mcAmnt;
      RecordedBound();
      if amnt < mcAmnt {
        RecordCut(last, amnt);
        LastGroupIsCut(edges, master, order);
        RecordedCut(best);
      }
      PhaseSettles(edges, master, order, best, mcAmnt);
      AppendLists(last, before);
      return false;
    }

    lemma GraphFacts()
      requires Graph()
      ensures NonNegative(edges) && members != [] && Distinct(members)
    {
    }

    lemma RecordedBound()
      requires Recorded()
      ensures mcAmnt <= MAX_LONG
    {
    }

    lemma RecordedCut(best: int)
      requires Distinct(mcMembers) && mcMembers != [] && IsCut(Elems(members), Elems(mcMembers))
      requires CutWeight(edges, Elems(members), Elems(mcMembers)) == mcAmnt < best <= MAX_LONG
      ensures Recorded()
    {
    }

    /** mc_find_min_cut.  A cut is recorded exactly when some cut weighs less than MAX_LONG, the value that
        stands for "no cut"; the recorded side is then a minimum cut of the domain. */
    method FindMinCut(h: Heap<nat>)
      requires Graph() && h.Indexed() && h.e == 1 && h.data.Length > |members|
      modifies this`master, this`ring, this`grp, this`weight, this`mcMembers, this`mcAmnt, h`e, h`pos, h.data
      ensures h.Indexed() && h.e == 1
      ensures Recorded()
      ensures forall c :: IsCut(Elems(members), c) ==> CutWeight(edges, Elems(members), c) >= mcAmnt
    {
      if |members| == 1 {
        mcMembers, mcAmnt := [], MAX_LONG;
        assert members == [members[0]];
        assert Elems(members) == {members[0]};
        return;
      }
      PrepareData();
      SettledInitially(edges, master, mcAmnt);
      while true
        invariant Grouped(members, master, ring) && grp.Keys == master.Keys
        invariant h.Indexed() && h.e == 1
        invariant Recorded() && Settled(edges, master, mcAmnt)
        decreases |MasterSet(master)|
      {
        hide *;
        var done := Round(h);
        if done {
          break;
        }
      }
    }
  }
}
