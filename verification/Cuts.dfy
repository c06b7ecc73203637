/** Weighted cuts of a component graph, and the theorem behind the phases of the Stoer-Wagner algorithm.

    A graph is the sequence of invocation edges between components; the group a component belongs to
    during the algorithm is given by the map to its group master. */
module Cuts {
  import opened Seqs

  datatype Edge = Edge(from: nat, to: nat, inv: int)

  predicate Joins(e: Edge, x: set<nat>, y: set<nat>) {
    (e.from in x && e.to in y) || (e.from in y && e.to in x)
  }

  /** The total weight of the edges with one end in x and the other in y. */
  ghost function Between(es: seq<Edge>, x: set<nat>, y: set<nat>): int {
    if es == [] then 0
    else Between(es[..|es| - 1], x, y) + if Joins(es[|es| - 1], x, y) then es[|es| - 1].inv else 0
  }

  ghost predicate NonNegative(es: seq<Edge>) {
    forall i :: 0 <= i < |es| ==> es[i].inv >= 0
  }

  ghost predicate IsCut(p: set<nat>, c: set<nat>) {
    c <= p && c != {} && c != p
  }

  ghost function CutWeight(es: seq<Edge>, p: set<nat>, c: set<nat>): int {
    Between(es, c, p - c)
  }

  ghost function Group(master: map<nat, nat>, g: nat): set<nat> {
    set c | c in master && master[c] == g
  }

  /** The components of the groups whose masters are listed in `order`. */
  ghost function Covered(master: map<nat, nat>, order: seq<nat>): set<nat> {
    set c | c in master && master[c] in order
  }

  /** No group is split by c. */
  ghost predicate RespectsGroups(master: map<nat, nat>, c: set<nat>) {
    forall x, y :: x in master && y in master && master[x] == master[y] ==> (x in c <==> y in c)
  }

  /** Each listed group was, when it was appended, at least as connected to the groups before it as
      every group that comes later. */
  ghost predicate MostConnectedFirst(es: seq<Edge>, master: map<nat, nat>, order: seq<nat>) {
    forall i, k :: 1 <= i < k < |order| ==>
      Between(es, Covered(master, order[..i]), Group(master, order[i]))
        >= Between(es, Covered(master, order[..i]), Group(master, order[k]))
  }

  lemma {:induction false} BetweenUnion(es: seq<Edge>, x: set<nat>, x': set<nat>, y: set<nat>)
    requires x !! x' && x !! y && x' !! y
    ensures Between(es, x + x', y) == Between(es, x, y) + Between(es, x', y)
  {
    if es != [] {
      BetweenUnion(es[..|es| - 1], x, x', y);
    }
  }

  lemma {:induction false} BetweenSymmetric(es: seq<Edge>, x: set<nat>, y: set<nat>)
    ensures Between(es, x, y) == Between(es, y, x)
  {
    if es != [] {
      BetweenSymmetric(es[..|es| - 1], x, y);
    }
  }

  lemma {:induction false} BetweenEmpty(es: seq<Edge>, y: set<nat>)
    ensures Between(es, {}, y) == 0
  {
    if es != [] {
      BetweenEmpty(es[..|es| - 1], y);
    }
  }

  lemma {:induction false} BetweenMonotone(es: seq<Edge>, x: set<nat>, y: set<nat>, x': set<nat>, y': set<nat>)
    requires NonNegative(es) && x <= x' && y <= y'
    ensures Between(es, x, y) <= Between(es, x', y')
  {
    if es != [] {
      BetweenMonotone(es[..|es| - 1], x, y, x', y');
    }
  }

  /** Enlarging a by a group v on the far side from w adds at least the weight between v and w. */
  lemma CrossingGrows(es: seq<Edge>, c: set<nat>, a: set<nat>, v: set<nat>, w: set<nat>)
    requires NonNegative(es) && a !! v && a !! w && v !! w
    requires (v <= c && w !! c) || (v !! c && w <= c)
    ensures Between(es, (a + v + w) * c, (a + v + w) - c)
              >= Between(es, (a + w) * c, (a + w) - c) + Between(es, v, w)
    ensures Between(es, (a + v + w) * c, (a + v + w) - c)
              >= Between(es, (a + v) * c, (a + v) - c) + Between(es, v, w)
  {
    CrossingGrowsOne(es, c, a, v, w);
    CrossingGrowsOne(es, c, a, w, v);
    BetweenSymmetric(es, v, w);
    assert a + w + v == a + v + w;
  }

  lemma CrossingGrowsOne(es: seq<Edge>, c: set<nat>, a: set<nat>, v: set<nat>, w: set<nat>)
    requires NonNegative(es) && a !! v && a !! w && v !! w
    requires (v <= c && w !! c) || (v !! c && w <= c)
    ensures Between(es, (a + v + w) * c, (a + v + w) - c)
              >= Between(es, (a + w) * c, (a + w) - c) + Between(es, v, w)
  {
    var t, n, f := a + v + w, (a + w) * c, (a + w) - c;
    if v <= c && w !! c {
      assert t * c == n + v && t - c == f;
      BetweenUnion(es, n, v, f);
      BetweenMonotone(es, v, w, v, f);
    } else {
      assert t * c == n && t - c == f + v;
      BetweenSymmetric(es, n, f + v);
      BetweenUnion(es, f, v, n);
      BetweenSymmetric(es, f, n);
      BetweenMonotone(es, v, w, v, n);
    }
  }

  /** The list holds distinct group masters. */
  ghost predicate Masters(master: map<nat, nat>, order: seq<nat>) {
    Distinct(order) && forall i :: 0 <= i < |order| ==> order[i] in master && master[order[i]] == order[i]
  }

  lemma CoveredStep(master: map<nat, nat>, order: seq<nat>, i: nat)
    requires Masters(master, order) && i < |order|
    ensures Covered(master, order[..i + 1]) == Covered(master, order[..i]) + Group(master, order[i])
    ensures forall k :: i <= k < |order| ==> Covered(master, order[..i]) !! Group(master, order[k])
    ensures forall k :: i < k < |order| ==> Group(master, order[i]) !! Group(master, order[k])
  {
    assert order[..i + 1] == order[..i] + [order[i]];
  }

  lemma GroupSides(master: map<nat, nat>, c: set<nat>, g: nat)
    requires RespectsGroups(master, c) && g in master && master[g] == g
    ensures g in c ==> Group(master, g) <= c
    ensures g !in c ==> Group(master, g) !! c
  {
  }

  /** The heart of the algorithm: a later group on the far side of the cut from the i-th one is no more
      connected to the first i groups than the part of the cut inside them and it. */
  lemma {:induction false} CutBound(es: seq<Edge>, master: map<nat, nat>, order: seq<nat>, c: set<nat>, i: nat, k: nat)
    requires NonNegative(es) && Masters(master, order) && MostConnectedFirst(es, master, order)
    requires RespectsGroups(master, c)
    requires 1 <= i <= k < |order| && (order[i - 1] in c) != (order[k] in c)
    ensures var a, w := Covered(master, order[..i]), Group(master, order[k]);
            Between(es, a, w) <= Between(es, (a + w) * c, (a + w) - c)
  {
    var a, v, w := Covered(master, order[..i - 1]), Group(master, order[i - 1]), Group(master, order[k]);
    CoveredStep(master, order, i - 1);
    GroupSides(master, c, order[i - 1]);
    GroupSides(master, c, order[k]);
    BetweenUnion(es, a, v, w);
    CrossingGrows(es, c, a, v, w);
    if i == 1 {
      assert a == {};
      BetweenEmpty(es, w);
      BetweenEmpty(es, {});
      BetweenMonotone(es, {}, {}, (a + w) * c, (a + w) - c);
    } else if (order[i - 2] in c) == (order[i - 1] in c) {
      CutBound(es, master, order, c, i - 1, k);
    } else {
      CutBound(es, master, order, c, i - 1, i - 1);
    }
  }

  /** The cut of the phase is a minimum cut between the last two groups of the phase. */
  lemma CutOfPhaseIsMinimum(es: seq<Edge>, master: map<nat, nat>, order: seq<nat>, c: set<nat>)
    requires NonNegative(es) && Masters(master, order) && MostConnectedFirst(es, master, order)
    requires RespectsGroups(master, c) && c <= master.Keys
    requires |order| >= 2 && Covered(master, order) == master.Keys
    requires (order[|order| - 2] in c) != (order[|order| - 1] in c)
    ensures var last := Group(master, order[|order| - 1]);
            CutWeight(es, master.Keys, last) <= CutWeight(es, master.Keys, c)
  {
    var n := |order| - 1;
    var a, w := Covered(master, order[..n]), Group(master, order[n]);
    CutBound(es, master, order, c, n, n);
    CoveredStep(master, order, n);
    assert order[..n + 1] == order;
    assert (a + w) * c == c && (a + w) - c == master.Keys - c && master.Keys - w == a;
    BetweenSymmetric(es, w, a);
  }
}
