/** The cuts recorded for protection domains, and the heap that orders the domains by them
    (src/components/include/mpd_policy.h). */
module DomainCuts {
  import opened Seqs
  import opened PriorityHeap

  /** A recorded cut: its weight, and the components on one side. */
  datatype Cut = Cut(amnt: int, side: seq<nat>)

  function CutOf(cuts: map<nat, Cut>, d: nat): Option<Cut> {
    if d in cuts then Some(cuts[d]) else None
  }

  function AmountOf(cuts: map<nat, Cut>, d: nat): int {
    if d in cuts then cuts[d].amnt else 0
  }

  /** The heap comparator pd_cmp under the present weights. */
  function Lighter(cuts: map<nat, Cut>): (nat, nat) -> bool {
    (a: nat, b: nat) => AmountOf(cuts, a) <= AmountOf(cuts, b)
  }

  class CutTable {
    var cuts: map<nat, Cut>
    const h: Heap<nat>

    /** Exactly the domains that have a cut are on the heap. */
    ghost predicate Ok()
      reads this, h, h.data
    {
      h.Valid(Lighter(cuts)) && h.Elems() == cuts.Keys
    }

    constructor (capacity: nat)
      ensures Ok() && cuts == map[] && fresh(h) && fresh(h.data) && h.data.Length == capacity + 1
    {
      h := new Heap(capacity, 0);
      cuts := map[];
    }

    lemma HeapRoom()
      requires Ok()
      ensures h.e == 1 + |cuts|
    {
      h.SizeIsCount(h.e);
      assert h.Elems() == set i | 1 <= i < h.e :: h.data[i];
      assert |cuts| == |cuts.Keys|;
    }

    /** The order of the heap does not depend on a domain that is not on it. */
    lemma SameOrder(was: map<nat, Cut>, d: nat)
      requires h.Valid(Lighter(was)) && d !in h.Elems() && forall x :: x != d ==> AmountOf(was, x) == AmountOf(cuts, x)
      ensures h.Valid(Lighter(cuts))
    {
      forall i | 1 <= i < h.e
        ensures h.data[i] != d
      {
        assert h.data[i] in h.Elems();
      }
    }

    /** The end of mc_find_min_cut: the domain gets its place on the heap, or a new one. */
    method Record(d: nat, k: Cut)
      requires Ok() && (d in cuts || h.e < h.data.Length)
      modifies this`cuts, h`e, h`pos, h.data
      ensures Ok() && cuts == old(cuts)[d := k]
    {
      ghost var was := cuts;
      var listed := d in cuts;
      cuts := cuts[d := k];
      if !listed {
        SameOrder(was, d);
        var ok := h.Add(Lighter(cuts), d);
      } else {
        assert d in h.Elems() && h.Holds(d);
        var c := h.pos[d];
        KeyChanged(Lighter(was), Lighter(cuts), h.Slots(), c);
        h.Adjust(Lighter(cuts), c);
      }
    }

    /** A domain that is freed, or has one component left, leaves the heap if it is there. */
    method Drop(d: nat)
      requires Ok()
      modifies this`cuts, h`e, h`pos, h.data
      ensures Ok() && cuts == old(cuts) - {d}
    {
      if d in cuts {
        assert d in h.Elems() && h.Holds(d);
        var c := h.pos[d];
        var r := h.Remove(Lighter(cuts), c);
        ghost var was := cuts;
        cuts := cuts - {d};
        SameOrder(was, d);
      } else {
        assert cuts - {d} == cuts;
      }
    }

    /** heap_highest: the domain with the lightest cut leaves the heap. */
    method PopLightest() returns (d: nat, k: Cut)
      requires Ok() && cuts != map[]
      modifies this`cuts, h`e, h`pos, h.data
      ensures Ok() && d in old(cuts) && k == old(cuts)[d] && cuts == old(cuts) - {d}
      ensures forall x :: x in old(cuts) ==> k.amnt <= old(cuts)[x].amnt
    {
      SomeElement();
      var top := h.Highest(Lighter(cuts));
      d := top.value;
      k := cuts[d];
      forall x | x in cuts
        ensures k.amnt <= cuts[x].amnt
      {
        assert Lighter(cuts)(d, x);
      }
      ghost var was := cuts;
      cuts := cuts - {d};
      SameOrder(was, d);
    }

    lemma SomeElement()
      requires Ok() && cuts != map[]
      ensures h.Elems() != {}
    {
      var x :| x in cuts;
      assert x in h.Elems();
    }

    /** mpd_peek_inc_isolation: the weight of the lightest cut. */
    method PeekLightest() returns (amnt: int)
      requires Ok() && cuts != map[]
      ensures (exists d :: d in cuts && cuts[d].amnt == amnt) && forall x :: x in cuts ==> amnt <= cuts[x].amnt
    {
      SomeElement();
      var top := h.Peek(Lighter(cuts));
      amnt := cuts[top.value].amnt;
      forall x | x in cuts
        ensures amnt <= cuts[x].amnt
      {
        assert Lighter(cuts)(top.value, x);
      }
    }
  }
}
