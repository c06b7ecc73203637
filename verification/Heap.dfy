/** The mutable-key priority queue of src/components/lib/heap.c.

    The array is used from index 1; `e` is the index after the last entry.  The comparator of the
    source reads keys that live inside the elements and change between calls, so every operation takes
    the relation that the comparator computes at the time of the call.  The callback that writes an
    element's index back into the element is the map `pos`. */
module PriorityHeap {
  import opened Seqs

  predicate Parent(p: int, c: int) {
    p >= 1 && (c == 2 * p || c == 2 * p + 1)
  }

  /** Heap order on the slots 1 .. |s|-1. */
  ghost predicate Ordered<T(!new)>(cmp: (T, T) -> bool, s: seq<T>) {
    forall p, c :: Parent(p, c) && c < |s| ==> cmp(s[p], s[c])
  }

  /** Heap order but for the pairs that involve slot k; the neighbours of k are in order with each other. */
  ghost predicate OrderedBut<T(!new)>(cmp: (T, T) -> bool, s: seq<T>, k: nat) {
    && (forall p, c :: Parent(p, c) && c < |s| && p != k && c != k ==> cmp(s[p], s[c]))
    && (forall g, c :: Parent(g, k) && Parent(k, c) && c < |s| ==> cmp(s[g], s[c]))
  }

  ghost predicate BelowParent<T(!new)>(cmp: (T, T) -> bool, s: seq<T>, k: nat) {
    forall p :: Parent(p, k) && k < |s| ==> cmp(s[p], s[k])
  }

  ghost predicate AboveChildren<T(!new)>(cmp: (T, T) -> bool, s: seq<T>, k: nat) {
    forall c :: Parent(k, c) && c < |s| ==> cmp(s[k], s[c])
  }

  function Swapped<T>(s: seq<T>, a: nat, b: nat): (r: seq<T>)
    requires a < |s| && b < |s|
    ensures |r| == |s|
  {
    s[a := s[b]][b := s[a]]
  }

  /** Swapping an entry with a smaller parent moves the one disorder up to the parent. */
  lemma UpStep<T(!new)>(cmp: (T, T) -> bool, s: seq<T>, k: nat, p: nat)
    requires TotalPreorder(cmp) && OrderedBut(cmp, s, k) && Parent(p, k) && k < |s|
    requires !cmp(s[p], s[k])
    ensures OrderedBut(cmp, Swapped(s, p, k), p)
  {
    var r := Swapped(s, p, k);
    forall i, j | Parent(i, j) && j < |r| && i != p && j != p
      ensures cmp(r[i], r[j])
    {
      assert Parent(p, k);
    }
    forall g, j | Parent(g, p) && Parent(p, j) && j < |r|
      ensures cmp(r[g], r[j])
    {
      assert cmp(s[g], s[p]);
    }
  }

  /** Swapping an entry with its larger child moves the one disorder down to the child. */
  lemma DownStep<T(!new)>(cmp: (T, T) -> bool, s: seq<T>, k: nat, n: nat)
    requires TotalPreorder(cmp) && OrderedBut(cmp, s, k) && BelowParent(cmp, s, k)
    requires Parent(k, n) && n < |s| && !cmp(s[k], s[n])
    requires forall c :: Parent(k, c) && c < |s| ==> cmp(s[n], s[c])
    ensures OrderedBut(cmp, Swapped(s, n, k), n) && BelowParent(cmp, Swapped(s, n, k), n)
  {
    var r := Swapped(s, n, k);
    forall i, j | Parent(i, j) && j < |r| && i != n && j != n
      ensures cmp(r[i], r[j])
    {
      assert Parent(k, n);
    }
  }

  /** The child that is compared with its parent is the higher one. */
  lemma HigherChild<T(!new)>(cmp: (T, T) -> bool, s: seq<T>, k: nat, n: nat)
    requires TotalPreorder(cmp) && 1 <= k && 2 * k < |s| && (n == 2 * k || n == 2 * k + 1 < |s|)
    requires 2 * k + 1 < |s| ==> (n == 2 * k <==> cmp(s[2 * k], s[2 * k + 1]))
    ensures Parent(k, n) && forall c :: Parent(k, c) && c < |s| ==> cmp(s[n], s[c])
    ensures cmp(s[k], s[n]) ==> AboveChildren(cmp, s, k)
  {
    assert forall c :: Parent(k, c) ==> c == 2 * k || c == 2 * k + 1;
  }

  lemma Childless<T(!new)>(cmp: (T, T) -> bool, s: seq<T>, k: nat)
    requires 2 * k >= |s|
    ensures AboveChildren(cmp, s, k)
  {
  }

  lemma NoDisorder<T(!new)>(cmp: (T, T) -> bool, s: seq<T>, k: nat)
    requires OrderedBut(cmp, s, k) && BelowParent(cmp, s, k) && AboveChildren(cmp, s, k)
    ensures Ordered(cmp, s)
  {
  }

  /** After the key of one element has changed arbitrarily, only that element's pairs can be out of order. */
  lemma KeyChanged<T(!new)>(cmp: (T, T) -> bool, cmp': (T, T) -> bool, s: seq<T>, k: nat)
    requires TotalPreorder(cmp) && Ordered(cmp, s) && 1 <= k < |s|
    requires forall i, j :: 1 <= i < |s| && 1 <= j < |s| && i != k && j != k ==> cmp(s[i], s[j]) == cmp'(s[i], s[j])
    ensures OrderedBut(cmp', s, k)
  {
    forall g, c | Parent(g, k) && Parent(k, c) && c < |s|
      ensures cmp'(s[g], s[c])
    {
      assert cmp(s[g], s[k]) && cmp(s[k], s[c]);
    }
  }

  /** Without its last entry a heap that is out of order there only is ordered. */
  lemma LastGone<T(!new)>(cmp: (T, T) -> bool, s: seq<T>)
    requires |s| > 1 && OrderedBut(cmp, s, |s| - 1)
    ensures Ordered(cmp, s[..|s| - 1])
  {
  }

  /** Moving the last entry into slot k leaves at most slot k out of order. */
  lemma LastMoved<T(!new)>(cmp: (T, T) -> bool, s: seq<T>, k: nat, r: seq<T>)
    requires OrderedBut(cmp, s, k) && 1 <= k < |s| - 1
    requires r == s[..|s| - 1][k := s[|s| - 1]]
    ensures OrderedBut(cmp, r, k)
  {
  }

  /** Moving the last entry into the root's slot leaves at most that slot out of order. */
  lemma RootReplaced<T(!new)>(cmp: (T, T) -> bool, s: seq<T>, r: seq<T>)
    requires Ordered(cmp, s) && 2 <= |s| && |r| == |s| - 1
    requires forall i :: 2 <= i < |r| ==> r[i] == s[i]
    ensures OrderedBut(cmp, r, 1) && BelowParent(cmp, r, 1)
  {
  }

  /** The root is a maximum. */
  lemma {:induction false} RootIsHighest<T(!new)>(cmp: (T, T) -> bool, s: seq<T>, k: nat)
    requires TotalPreorder(cmp) && Ordered(cmp, s) && 1 <= k < |s|
    ensures cmp(s[1], s[k])
  {
    if k > 1 {
      assert Parent(k / 2, k);
      RootIsHighest(cmp, s, k / 2);
    }
  }

  class Heap<T(==, !new)> {
    var data: array<T>
    var e: nat
    var pos: map<T, nat>

    ghost predicate Shape()
      reads this
    {
      1 <= e <= data.Length
    }

    ghost function Slots(): (s: seq<T>)
      requires Shape()
      reads this, data
    {
      data[..e]
    }

    /** Every slot's element stores the slot's index, so no element occurs twice. */
    ghost predicate Placed()
      reads this, data
    {
      Shape() && forall i :: 1 <= i < e ==> data[i] in pos && pos[data[i]] == i
    }

    ghost predicate Holds(x: T)
      requires Shape()
      reads this, data
    {
      x in pos && 1 <= pos[x] < e && data[pos[x]] == x
    }

    /** Elements that are not in the slots store index 0. */
    ghost predicate Indexed()
      reads this, data
    {
      Placed() && forall x :: x in pos && pos[x] != 0 ==> Holds(x)
    }

    /** The elements whose stored index is not 0: under `Indexed`, exactly those in the slots. */
    ghost function Elems(): set<T>
      reads this
    {
      set x | x in pos && pos[x] != 0
    }

    ghost predicate Valid(cmp: (T, T) -> bool)
      reads this, data
    {
      Indexed() && Ordered(cmp, Slots())
    }

    constructor (maxSz: nat, nil: T)
      ensures fresh(data) && data.Length == maxSz + 1
      ensures e == 1 && pos == map[] && Indexed()
      ensures forall cmp :: Valid(cmp)
    {
      data := new T[maxSz + 1](i => nil);
      e := 1;
      pos := map[];
    }

    method SwapEntries(a: nat, b: nat)
      requires Placed() && 1 <= a < e && 1 <= b < e && a != b
      modifies data, this`pos
      ensures Placed() && pos.Keys == old(pos.Keys)
      ensures Slots() == Swapped(old(Slots()), a, b)
      ensures forall x :: Holds(x) <==> old(Holds(x))
      ensures forall x :: x in pos && !Holds(x) ==> pos[x] == old(pos)[x]
    {
      data[a], data[b] := data[b], data[a];
      pos := pos[data[a] := a];
      pos := pos[data[b] := b];
    }

    method SwapDown(cmp: (T, T) -> bool, start: nat)
      requires TotalPreorder(cmp)
      requires Placed() && 1 <= start <= e
      requires OrderedBut(cmp, Slots(), start) && BelowParent(cmp, Slots(), start)
      modifies data, this`pos
      ensures Placed() && pos.Keys == old(pos.Keys) && Ordered(cmp, Slots())
      ensures forall x :: Holds(x) <==> old(Holds(x))
      ensures forall x :: x in pos && !Holds(x) ==> pos[x] == old(pos)[x]
    {
      var c := start;
      var l := e - 1;
      hide Ordered;
      hide OrderedBut;
      hide BelowParent;
      hide AboveChildren;
      hide TotalPreorder;
      ghost var above := false;
      while c <= l / 2
        invariant 1 <= c <= e && Placed() && pos.Keys == old(pos.Keys)
        invariant OrderedBut(cmp, Slots(), c) && BelowParent(cmp, Slots(), c)
        invariant forall x :: Holds(x) <==> old(Holds(x))
        invariant forall x :: x in pos && !Holds(x) ==> pos[x] == old(pos)[x]
        invariant !above
        decreases e - c
      {
        var left, right := 2 * c, 2 * c + 1;
        var n := if right > l then left
                 else if cmp(data[left], data[right]) then left else right;
        HigherChild(cmp, Slots(), c, n);
        if cmp(data[c], data[n]) {
          above := true;
          break;
        }
        DownStep(cmp, Slots(), c, n);
        SwapEntries(n, c);
        c := n;
      }
      if !above {
        Childless(cmp, Slots(), c);
      }
      NoDisorder(cmp, Slots(), c);
    }

    method SwapUp(cmp: (T, T) -> bool, start: nat) returns (c: nat)
      requires TotalPreorder(cmp)
      requires Placed() && 1 <= start < e && OrderedBut(cmp, Slots(), start)
      modifies data, this`pos
      ensures Placed() && pos.Keys == old(pos.Keys)
      ensures 1 <= c < e && OrderedBut(cmp, Slots(), c) && BelowParent(cmp, Slots(), c)
      ensures forall x :: Holds(x) <==> old(Holds(x))
      ensures forall x :: x in pos && !Holds(x) ==> pos[x] == old(pos)[x]
    {
      c := start;
      while c > 1
        invariant 1 <= c < e && Placed() && pos.Keys == old(pos.Keys)
        invariant OrderedBut(cmp, Slots(), c)
        invariant forall x :: Holds(x) <==> old(Holds(x))
        invariant forall x :: x in pos && !Holds(x) ==> pos[x] == old(pos)[x]
      {
        var p := c / 2;
        assert Parent(p, c);
        if cmp(data[p], data[c]) {
          return;
        }
        UpStep(cmp, Slots(), c, p);
        SwapEntries(p, c);
        c := p;
      }
    }

    method Heapify(cmp: (T, T) -> bool, c: nat)
      requires TotalPreorder(cmp)
      requires Placed() && 1 <= c < e && OrderedBut(cmp, Slots(), c)
      modifies data, this`pos
      ensures Placed() && pos.Keys == old(pos.Keys) && Ordered(cmp, Slots())
      ensures forall x :: Holds(x) <==> old(Holds(x))
      ensures forall x :: x in pos && !Holds(x) ==> pos[x] == old(pos)[x]
    {
      var n := SwapUp(cmp, c);
      SwapDown(cmp, n);
    }

    /** Refuses (and changes nothing) exactly when the heap is full. */
    method Add(cmp: (T, T) -> bool, x: T) returns (ok: bool)
      requires TotalPreorder(cmp) && Valid(cmp) && x !in Elems()
      modifies this`e, this`pos, data
      ensures Valid(cmp)
      ensures ok == (old(e) < data.Length)
      ensures !ok ==> e == old(e) && pos == old(pos) && data[..] == old(data[..])
      ensures ok ==> e == old(e) + 1 && Elems() == old(Elems()) + {x} && pos.Keys == old(pos.Keys) + {x}
    {
      if data.Length == e {
        return false;
      }
      var c := e;
      data[c] := x;
      pos := pos[x := c];
      e := e + 1;
      assert forall p :: !Parent(c, p) || p >= e;
      Heapify(cmp, c);
      return true;
    }

    /** Removes and returns a maximum, or nothing when the heap is empty. */
    method Highest(cmp: (T, T) -> bool) returns (r: Option<T>)
      requires TotalPreorder(cmp) && Valid(cmp)
      modifies this`e, this`pos, data
      ensures Valid(cmp) && pos.Keys == old(pos.Keys)
      ensures r.None? <==> old(Elems()) == {}
      ensures r.None? <==> old(e) == 1
      ensures r.None? ==> e == old(e) && pos == old(pos) && data[..] == old(data[..])
      ensures r.Some? ==> e == old(e) - 1 && r.value in old(Elems()) && Elems() == old(Elems()) - {r.value}
      ensures r.Some? ==> r.value in pos && pos[r.value] == 0
      ensures r.Some? ==> forall y :: y in old(Elems()) ==> cmp(r.value, y)
    {
      if e == 1 {
        return None;
      }
      TopIsHighest(cmp);
      var top := PopRoot(cmp);
      return Some(top);
    }

    method PopRoot(cmp: (T, T) -> bool) returns (top: T)
      requires TotalPreorder(cmp) && Valid(cmp) && e > 1
      modifies this`e, this`pos, data
      ensures Valid(cmp) && pos.Keys == old(pos.Keys) && e == old(e) - 1
      ensures top == old(data[1]) && Elems() == old(Elems()) - {top} && top in pos && pos[top] == 0
    {
      hide Ordered;
      hide OrderedBut;
      hide BelowParent;
      hide TotalPreorder;
      top := data[1];
      LastToRoot(cmp);
      SwapDown(cmp, 1);
      ghost var s := Slots();
      pos := pos[top := 0];
      assert Slots() == s;
      assert Placed();
      assert Indexed();
    }

    /** The last entry takes the place of the root, which is in no slot then. */
    method LastToRoot(ghost cmp: (T, T) -> bool)
      requires Valid(cmp) && e > 1
      modifies this`e, this`pos, data
      ensures Placed() && e == old(e) - 1 && pos.Keys == old(pos.Keys)
      ensures OrderedBut(cmp, Slots(), 1) && BelowParent(cmp, Slots(), 1)
      ensures old(data[1]) in pos && !Holds(old(data[1]))
      ensures forall x :: x in pos && x != old(data[1]) ==> (Holds(x) <==> old(pos)[x] != 0)
      ensures forall x :: x in pos && x != old(data[1]) && !Holds(x) ==> pos[x] == 0
    {
      hide Ordered;
      hide OrderedBut;
      hide BelowParent;
      ghost var s := Slots();
      e := e - 1;
      data[1] := data[e];
      pos := pos[data[1] := 1];
      RootReplaced(cmp, s, Slots());
    }

    lemma TopIsHighest(cmp: (T, T) -> bool)
      requires TotalPreorder(cmp) && Valid(cmp) && e > 1
      ensures data[1] in Elems() && forall y :: y in Elems() ==> cmp(data[1], y)
    {
      forall y | y in Elems()
        ensures cmp(data[1], y)
      {
        RootIsHighest(cmp, Slots(), pos[y]);
      }
    }

    /** Returns a maximum without removing it. */
    method Peek(cmp: (T, T) -> bool) returns (r: Option<T>)
      requires TotalPreorder(cmp) && Valid(cmp)
      ensures r.None? <==> Elems() == {}
      ensures r.Some? ==> r.value in Elems() && forall y :: y in Elems() ==> cmp(r.value, y)
    {
      if e == 1 {
        return None;
      }
      TopIsHighest(cmp);
      return Some(data[1]);
    }

    /** Restores the order after the key of the element at index c has changed. */
    method Adjust(cmp: (T, T) -> bool, c: nat)
      requires TotalPreorder(cmp)
      requires Indexed() && 1 <= c < e && OrderedBut(cmp, Slots(), c)
      modifies data, this`pos
      ensures Valid(cmp) && Elems() == old(Elems()) && pos.Keys == old(pos.Keys)
    {
      Heapify(cmp, c);
    }

    /** Removes the element at index c, whatever its key has become. */
    method Remove(cmp: (T, T) -> bool, c: nat) returns (r: T)
      requires TotalPreorder(cmp)
      requires Indexed() && 1 <= c < e && OrderedBut(cmp, Slots(), c)
      modifies this`e, this`pos, data
      ensures Valid(cmp) && pos.Keys == old(pos.Keys)
      ensures r == old(data[c]) && r in old(Elems()) && e == old(e) - 1
      ensures Elems() == old(Elems()) - {r} && r in pos && pos[r] == 0
    {
      hide Ordered;
      hide OrderedBut;
      r := data[c];
      ghost var s := Slots();
      e := e - 1;
      pos := pos[r := 0];
      if c == e {
        assert Slots() == s[..e];
        LastGone(cmp, s);
        return;
      }
      data[c] := data[e];
      pos := pos[data[c] := c];
      assert Slots() == s[..e][c := s[e]];
      LastMoved(cmp, s, c, Slots());
      Heapify(cmp, c);
    }

    method Size() returns (n: nat)
      requires Indexed()
      ensures n == |Elems()|
    {
      n := e - 1;
      SizeIsCount(e);
      assert Elems() == set i | 1 <= i < e :: data[i];
    }

    lemma {:induction false} SizeIsCount(k: nat)
      requires Indexed() && 1 <= k <= e
      ensures |set i | 1 <= i < k :: data[i]| == k - 1
    {
      var s := set i | 1 <= i < k :: data[i];
      if k == 1 {
        assert s == {};
      } else {
        SizeIsCount(k - 1);
        var t := set i | 1 <= i < k - 1 :: data[i];
        assert data[k - 1] !in t;
        assert s == t + {data[k - 1]};
      }
    }
  }
}
