/** The edges between protection domains (struct pd_edge of src/components/include/mpd_policy.h), their
    priority queue and the running total of their weights. */
module PdEdges {
  import opened Seqs
  import opened PriorityHeap

  datatype PdEdge = PdEdge(from: nat, to: nat, weight: int, nedges: int, onHeap: bool)

  function WeightOf(t: map<nat, PdEdge>, p: nat): int {
    if p in t then t[p].weight else 0
  }

  /** The heap comparator pde_cmp under the present weights. */
  function Heavier(t: map<nat, PdEdge>): (nat, nat) -> bool {
    (a: nat, b: nat) => WeightOf(t, a) >= WeightOf(t, b)
  }

  /** The pd-edge joins domains a and b, in either direction. */
  predicate Links(e: PdEdge, a: nat, b: nat) {
    (e.from == a && e.to == b) || (e.from == b && e.to == a)
  }

  function Dropped(t: map<nat, PdEdge>, p: nat, inv: int): map<nat, PdEdge>
    requires p in t
  {
    var k := t[p].(nedges := t[p].nedges - 1, weight := t[p].weight - inv);
    if k.nedges == 0 then t - {p} else t[p := k]
  }

  class EdgeTable {
    var pdes: map<nat, PdEdge>
    var nextId: nat
    var totCost: int
    const h: Heap<nat>

    ghost function Queued(): set<nat>
      reads this`pdes
    {
      set p | p in pdes && pdes[p].onHeap
    }

    ghost predicate Ok()
      reads this, h, h.data
    {
      && h.Valid(Heavier(pdes)) && h.Elems() == Queued()
      && (forall p :: p in pdes ==> p < nextId) && (forall p :: p in h.pos ==> p < nextId)
    }

    constructor (capacity: nat)
      ensures Ok() && pdes == map[] && totCost == 0 && fresh(h) && fresh(h.data) && h.data.Length == capacity + 1
    {
      h := new Heap(capacity, 0);
      pdes, nextId, totCost := map[], 0, 0;
    }

    lemma HeapRoom()
      requires Ok()
      ensures h.e == 1 + |Queued()|
    {
      h.SizeIsCount(h.e);
      assert h.Elems() == set i | 1 <= i < h.e :: h.data[i];
    }

    /** pd_edge_set_weight. */
    method SetWeight(p: nat, val: int)
      requires Ok() && p in pdes
      modifies this`pdes, this`totCost, h`pos, h.data
      ensures Ok() && pdes == old(pdes)[p := old(pdes)[p].(weight := val)]
      ensures totCost == old(totCost) + val - old(pdes)[p].weight
    {
      totCost := totCost + (val - pdes[p].weight);
      ghost var cmp := Heavier(pdes);
      assert pdes[p].onHeap ==> p in h.Elems() && h.Holds(p);
      pdes := pdes[p := pdes[p].(weight := val)];
      if pdes[p].onHeap {
        var c := h.pos[p];
        KeyChanged(cmp, Heavier(pdes), h.Slots(), c);
        h.Adjust(Heavier(pdes), c);
      } else {
        SameOrder(cmp, p);
      }
    }

    /** The order of the heap does not depend on an edge that is not on it. */
    lemma SameOrder(cmp: (nat, nat) -> bool, p: nat)
      requires h.Valid(cmp) && p !in h.Elems()
      requires forall a, b :: a != p && b != p ==> cmp(a, b) == Heavier(pdes)(a, b)
      ensures h.Valid(Heavier(pdes))
    {
      forall i | 1 <= i < h.e
        ensures h.Slots()[i] != p
      {
        assert h.Slots()[i] in h.Elems();
      }
    }

    /** pd_edge_create. */
    method Create(from: nat, to: nat) returns (p: nat)
      requires Ok() && h.e < h.data.Length
      modifies this`pdes, this`nextId, h`e, h`pos, h.data
      ensures Ok() && p !in old(pdes) && pdes == old(pdes)[p := PdEdge(from, to, 0, 0, true)]
      ensures p == old(nextId) && nextId == p + 1
    {
      p := nextId;
      nextId := nextId + 1;
      ghost var cmp := Heavier(pdes);
      assert p !in h.pos;
      pdes := pdes[p := PdEdge(from, to, 0, 0, true)];
      SameOrder(cmp, p);
      var _ := h.Add(Heavier(pdes), p);
    }

    /** pd_edge_free. */
    method Free(p: nat)
      requires Ok() && p in pdes && pdes[p].nedges == 0 && pdes[p].weight == 0
      modifies this`pdes, h`e, h`pos, h.data
      ensures Ok() && pdes == old(pdes) - {p}
    {
      ghost var cmp := Heavier(pdes);
      if pdes[p].onHeap {
        assert p in h.Elems() && h.Holds(p);
        var c := h.pos[p];
        KeyChanged(cmp, cmp, h.Slots(), c);
        var _ := h.Remove(Heavier(pdes), c);
      }
      pdes := pdes - {p};
      SameOrder(cmp, p);
    }

    /** __pd_find_edge without creation. */
    method Find(a: nat, b: nat) returns (p: Option<nat>)
      ensures p.Some? ==> p.value in pdes && Links(pdes[p.value], a, b)
      ensures p.None? ==> forall q :: q in pdes ==> !Links(pdes[q], a, b)
    {
      var rest := pdes.Keys;
      while rest != {}
        invariant rest <= pdes.Keys
        invariant forall q :: q in pdes && q !in rest ==> !Links(pdes[q], a, b)
        decreases rest
      {
        var q :| q in rest;
        if Links(pdes[q], a, b) {
          return Some(q);
        }
        rest := rest - {q};
      }
      return None;
    }

    /** heap_highest on the edges: the heaviest one leaves the heap. */
    method PopHeaviest() returns (p: nat)
      requires Ok() && Queued() != {}
      modifies this`pdes, h`e, h`pos, h.data
      ensures Ok() && p in old(pdes) && old(pdes)[p].onHeap && pdes == old(pdes)[p := old(pdes)[p].(onHeap := false)]
      ensures forall q :: q in old(pdes) && old(pdes)[q].onHeap ==> old(pdes)[p].weight >= old(pdes)[q].weight
    {
      var top := h.Highest(Heavier(pdes));
      p := top.value;
      forall q | q in pdes && pdes[q].onHeap
        ensures pdes[p].weight >= pdes[q].weight
      {
        assert q in old(h.Elems());
        assert Heavier(pdes)(p, q);
      }
      ghost var cmp := Heavier(pdes);
      pdes := pdes[p := pdes[p].(onHeap := false)];
      SameOrder(cmp, p);
    }

    /** mpd_peek_dec_overhead: the weight of a heaviest pd-edge. */
    method PeekHeaviest() returns (w: int)
      requires Ok() && Queued() != {}
      ensures (exists p :: p in Queued() && pdes[p].weight == w) && forall q :: q in Queued() ==> w >= pdes[q].weight
    {
      var top := h.Peek(Heavier(pdes));
      w := pdes[top.value].weight;
      forall q | q in Queued()
        ensures w >= pdes[q].weight
      {
        assert Heavier(pdes)(top.value, q);
      }
    }

    method SetCount(p: nat, n: int)
      requires Ok() && p in pdes
      modifies this`pdes
      ensures Ok() && pdes == old(pdes)[p := old(pdes)[p].(nedges := n)]
    {
      ghost var cmp := Heavier(pdes);
      pdes := pdes[p := pdes[p].(nedges := n)];
      assert forall a, b :: cmp(a, b) == Heavier(pdes)(a, b);
    }

    /** An edge of weight inv leaves pd-edge p, which is freed with its last edge. */
    method DropEdge(p: nat, inv: int)
      requires Ok() && p in pdes && (pdes[p].nedges == 1 ==> pdes[p].weight == inv)
      modifies this`pdes, this`totCost, h`e, h`pos, h.data
      ensures Ok() && totCost == old(totCost) - inv
      ensures pdes == Dropped(old(pdes), p, inv)
    {
      hide Ok;
      SetCount(p, pdes[p].nedges - 1);
      SetWeight(p, pdes[p].weight - inv);
      if pdes[p].nedges == 0 {
        Free(p);
      }
    }

    /** An edge of weight inv joins the pd-edge between domains a and b, which is created if need be. */
    method TakeEdge(a: nat, b: nat, inv: int) returns (p: nat)
      requires Ok() && h.e < h.data.Length
      modifies this`pdes, this`nextId, this`totCost, h`e, h`pos, h.data
      ensures Ok() && totCost == old(totCost) + inv && nextId >= old(nextId)
      ensures p in old(pdes) ==> Links(old(pdes)[p], a, b)
      ensures p !in old(pdes) ==> p >= old(nextId) && forall q :: q in old(pdes) ==> !Links(old(pdes)[q], a, b)
      ensures var k := if p in old(pdes) then old(pdes)[p] else PdEdge(a, b, 0, 0, true);
              pdes == old(pdes)[p := k.(weight := k.weight + inv, nedges := k.nedges + 1)]
    {
      hide Ok;
      var found := Find(a, b);
      if found.None? {
        p := Create(a, b);
      } else {
        p := found.value;
      }
      SetWeight(p, pdes[p].weight + inv);
      SetCount(p, pdes[p].nedges + 1);
    }
  }
}
