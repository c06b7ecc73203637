/** The growable vectors of src/components/include/cos_vect.h: a radix tree of one or two levels of pages. */
module CosVect {
  import opened Arith
  import opened Seqs

  /** What a slot can hold. */
  datatype Val = Null | Page(p: nat) | Num(n: int) | Obj(o: nat)

  /** Slot k of page p. */
  datatype Place = Place(p: nat, k: nat)

  /** The pages hold `base` slots each. */
  datatype Tree = Tree(base: nat, depth: nat, root: nat, pages: map<nat, seq<Val>>)

  /** __cos_vect_lookup: where the slot of an id is. */
  function Find(t: Tree, id: int): Option<Place>
    requires Shaped(t)
  {
    if id < 0 then None
    else if t.depth == 2 then
      if id / t.base >= t.base then None
      else
        var leaf := t.pages[t.root][id / t.base];
        if leaf.Page? then Some(Place(leaf.p, id % t.base)) else None
    else if id >= t.base then None
    else Some(Place(t.root, id))
  }

  predicate Shaped(t: Tree) {
    t.base >= 2 && t.root in t.pages && |t.pages[t.root]| == t.base
  }

  /** The pages form a tree: the root of a tree of depth 2 points to pages of its own. */
  ghost predicate WellFormed(t: Tree) {
    && Shaped(t) && 1 <= t.depth <= 2
    && (t.depth == 2 ==> LeavesOk(t, t.pages[t.root]))
  }

  ghost predicate LeavesOk(t: Tree, r: seq<Val>) {
    && (forall i :: 0 <= i < |r| ==>
          r[i] == Null || (r[i].Page? && r[i].p in t.pages && |t.pages[r[i].p]| == t.base && r[i].p != t.root))
    && (forall i, j :: 0 <= i < j < |r| && r[i].Page? ==> r[i] != r[j])
  }

  /** The value of a slot, if there is such a slot. */
  ghost function At(t: Tree, id: int): Option<Val>
    requires WellFormed(t)
  {
    var s := Find(t, id);
    if s.Some? && s.value.p in t.pages && s.value.k < |t.pages[s.value.p]|
    then Some(t.pages[s.value.p][s.value.k]) else None
  }

  lemma DivMod(a: nat, b: nat, d: nat)
    requires d > 0 && a / d == b / d && a % d == b % d
    ensures a == b
  {
    assert a == a / d * d + a % d;
    assert b == b / d * d + b % d;
  }

  lemma FindPlace(t: Tree, id: int)
    requires WellFormed(t) && Find(t, id).Some?
    ensures var s := Find(t, id).value;
            && s.p in t.pages && s.k < t.base == |t.pages[s.p]| && (t.depth == 2 ==> s.p != t.root)
            && At(t, id) == Some(t.pages[s.p][s.k])
  {
    if t.depth == 2 {
      assert t.pages[t.root][id / t.base].Page?;
    }
  }

  /** Different ids have different slots. */
  lemma FindInjective(t: Tree, a: nat, b: nat)
    requires WellFormed(t) && Find(t, a).Some? && Find(t, a) == Find(t, b)
    ensures a == b
  {
    if t.depth == 2 {
      DeepPlace(t, a);
      DeepPlace(t, b);
      hide Find;
      SamePage(t, a / t.base, b / t.base);
      DivMod(a, b, t.base);
    }
  }

  lemma DeepPlace(t: Tree, id: nat)
    requires WellFormed(t) && t.depth == 2 && Find(t, id).Some?
    ensures var s := Find(t, id).value;
            id / t.base < |t.pages[t.root]| && t.pages[t.root][id / t.base] == Page(s.p) && s.k == id % t.base
  {
  }

  lemma SamePage(t: Tree, i: nat, j: nat)
    requires WellFormed(t) && t.depth == 2 && i < |t.pages[t.root]| && j < |t.pages[t.root]|
    requires t.pages[t.root][i].Page? && t.pages[t.root][i] == t.pages[t.root][j]
    ensures i == j
  {
  }

  ghost function Stored(t: Tree, s: Place, v: Val): Tree
    requires s.p in t.pages && s.k < |t.pages[s.p]|
  {
    t.(pages := t.pages[s.p := t.pages[s.p][s.k := v]])
  }

  /** Writing to a slot changes that slot only. */
  lemma StoreAt(t: Tree, id: nat, v: Val, b: int)
    requires WellFormed(t) && Find(t, id).Some?
    ensures var s := Find(t, id).value;
            && s.p in t.pages && s.k < |t.pages[s.p]| && WellFormed(Stored(t, s, v))
            && At(Stored(t, s, v), b) == if b == id then Some(v) else At(t, b)
  {
    FindPlace(t, id);
    var s := Find(t, id).value;
    var r := Stored(t, s, v);
    StoreKeeps(t, s, v);
    assert Find(r, b) == Find(t, b);
    if Find(t, b).Some? {
      FindPlace(t, b);
      if Find(t, b) == Find(t, id) {
        FindInjective(t, b, id);
      }
    }
  }

  lemma StoreKeeps(t: Tree, s: Place, v: Val)
    requires WellFormed(t) && s.p in t.pages && s.k < t.base == |t.pages[s.p]| && (t.depth == 2 ==> s.p != t.root)
    ensures WellFormed(Stored(t, s, v))
    ensures t.depth == 2 ==> Stored(t, s, v).pages[t.root] == t.pages[t.root]
  {
    if t.depth == 2 {
      assert LeavesOk(Stored(t, s, v), t.pages[t.root]);
    }
  }

  // ----- growth

  function Nulls(n: nat): (r: seq<Val>)
    ensures |r| == n && forall i :: 0 <= i < n ==> r[i] == Null
  {
    seq(n, _ => Null)
  }

  /** A new root above the only page. */
  function Deepened(t: Tree, p: nat): Tree
    requires Shaped(t)
  {
    t.(depth := 2, root := p, pages := t.pages[p := Nulls(t.base)[0 := Page(t.root)]])
  }

  lemma DeepenedAt(t: Tree, p: nat, b: int)
    requires WellFormed(t) && t.depth == 1 && p !in t.pages
    ensures WellFormed(Deepened(t, p)) && At(Deepened(t, p), b) == At(t, b)
  {
    var r := Deepened(t, p);
    assert LeavesOk(r, r.pages[p]);
    if b >= 0 {
      SmallQuotient(b, t.base);
    }
  }

  lemma SmallQuotient(b: nat, d: nat)
    requires d > 0
    ensures b < d <==> b / d == 0
    ensures b < d ==> b % d == b
  {
  }

  /** A new page for the ids around id. */
  function Extended(t: Tree, i: nat, p: nat): Tree
    requires Shaped(t) && i < t.base
  {
    t.(pages := t.pages[p := Nulls(t.base)][t.root := t.pages[t.root][i := Page(p)]])
  }

  lemma ExtendedKeeps(t: Tree, i: nat, p: nat)
    requires WellFormed(t) && t.depth == 2 && p !in t.pages && i < t.base && t.pages[t.root][i] == Null
    ensures WellFormed(Extended(t, i, p))
  {
    var r := Extended(t, i, p);
    assert LeavesOk(t, t.pages[t.root]);
    assert LeavesOk(r, r.pages[t.root]);
  }

  lemma ExtendedAt(t: Tree, i: nat, p: nat, b: int)
    requires WellFormed(t) && t.depth == 2 && p !in t.pages && i < t.base && t.pages[t.root][i] == Null
    ensures WellFormed(Extended(t, i, p))
    ensures At(Extended(t, i, p), b) == if b >= 0 && b / t.base == i then Some(Null) else At(t, b)
  {
    ExtendedKeeps(t, i, p);
    var r := Extended(t, i, p);
    if Find(t, b).Some? {
      FindPlace(t, b);
    }
    if Find(r, b).Some? {
      FindPlace(r, b);
    }
  }

  /** How an attempt to add an id ends: with a slot for it, with a refusal, or at an assertion. */
  datatype Growth = Done | Refused | Stopped

  /** The root has a page at an index. */
  ghost predicate TakenAt(t: Tree, i: nat) {
    Shaped(t) && i < t.base && t.pages[t.root][i] != Null
  }

  lemma WellShaped(t: Tree)
    requires WellFormed(t)
    ensures Shaped(t)
  {
  }

  predicate OutOfReach(t: Tree, id: nat) {
    t.depth == 2 && id >= t.base * t.base
  }

  class Vector {
    var t: Tree
    var avail: nat
    var nextPage: nat

    ghost predicate Valid()
      reads this
    {
      WellFormed(t) && forall p :: p in t.pages ==> p < nextPage
    }

    /** __cos_vect_init, for a vector whose first page is allocated; `avail` more pages can be had. */
    constructor (base: nat, avail: nat)
      requires base >= 2
      ensures Valid() && t.base == base && t.depth == 1 && this.avail == avail
      ensures forall id :: At(t, id) == if 0 <= id < base then Some(Null) else None
    {
      t := Tree(base, 1, 0, map[0 := Nulls(base)]);
      this.avail, nextPage := avail, 1;
    }

    /** COS_VECT_ALLOC. */
    method AllocPage() returns (p: Option<nat>)
      requires Valid()
      modifies this`avail, this`nextPage
      ensures Valid() && (p.Some? <==> old(avail) > 0)
      ensures p.Some? ==> p.value == old(nextPage) && p.value !in t.pages
      ensures p.Some? ==> nextPage == p.value + 1 && avail == old(avail) - 1
      ensures p.None? ==> avail == 0 && nextPage == old(nextPage)
    {
      if avail == 0 {
        return None;
      }
      p := Some(nextPage);
      avail, nextPage := avail - 1, nextPage + 1;
    }

    /** __cos_vect_lookup and cos_vect_lookup. */
    method Lookup(id: int) returns (s: Option<Place>, v: Val)
      requires Valid()
      ensures s == Find(t, id) && (s.Some? <==> At(t, id).Some?)
      ensures v == if At(t, id).Some? then At(t, id).value else Null
    {
      s := Find(t, id);
      if s.None? {
        return s, Null;
      }
      FindPlace(t, id);
      v := t.pages[s.value.p][s.value.k];
    }

    /** __cos_vect_set. */
    method Set(id: int, v: Val) returns (ok: bool)
      requires Valid()
      modifies this`t
      ensures Valid() && t.base == old(t.base) && (ok <==> At(old(t), id).Some?)
      ensures forall b :: At(t, b) == if ok && b == id then Some(v) else At(old(t), b)
    {
      ghost var was := t;
      var s, _ := Lookup(id);
      if s.None? {
        return false;
      }
      forall b
        ensures WellFormed(Stored(was, s.value, v))
        ensures At(Stored(was, s.value, v), b) == if b == id then Some(v) else At(was, b)
      {
        StoreAt(was, id, v, b);
      }
      t := t.(pages := t.pages[s.value.p := t.pages[s.value.p][s.value.k := v]]);
      ok := true;
    }

    /** __cos_vect_expand: makes room for an id that has no slot, one page of ids at a time.  A vector of one level
        becomes one of two, and the page goes to the index of the id modulo what two levels reach. */
    method Expand(id: nat) returns (r: Growth)
      requires Valid() && At(t, id).None?
      modifies this`t, this`avail, this`nextPage
      ensures Valid() && t.base == old(t.base)
      ensures r.Refused? <==>
                (old(t.depth) == 2 && id >= t.base * t.base) || old(avail) < if old(t.depth) == 1 then 2 else 1
      ensures r.Stopped? <==> !r.Refused? && old(t.depth) == 1 && id / t.base % t.base == 0
      ensures forall b ::
                At(t, b) == if r.Done? && b >= 0 && b / t.base == id / t.base % t.base then Some(Null)
                            else At(old(t), b)
    {
      hide At;
      hide WellFormed;
      NoSlot(t, id);
      IndexOfPage(t, id);
      if OutOfReach(t, id) {
        return Refused;
      }
      if t.depth == 1 {
        var ok := Deepen();
        if !ok {
          return Refused;
        }
      }
      r := AddPage(id / t.base % t.base);
    }

    /** The growth to two levels. */
    method Deepen() returns (ok: bool)
      requires Valid() && t.depth == 1
      modifies this`t, this`avail, this`nextPage
      ensures Valid() && t.base == old(t.base) && (ok <==> old(avail) > 0) && forall b :: At(t, b) == At(old(t), b)
      ensures ok ==> avail == old(avail) - 1 && t.depth == 2
      ensures ok ==> forall i: nat :: i < t.base ==> (TakenAt(t, i) <==> i == 0)
    {
      hide At;
      hide WellFormed;
      ghost var was := t;
      WellShaped(t);
      var p := AllocPage();
      if p.None? {
        return false;
      }
      forall b
        ensures WellFormed(Deepened(was, p.value)) && At(Deepened(was, p.value), b) == At(was, b)
      {
        DeepenedAt(was, p.value, b);
      }
      DeepenedAt(was, p.value, 0);
      t := Deepened(t, p.value);
      ok := true;
    }

    /** A page of ids at an index of the root. */
    method AddPage(i: nat) returns (r: Growth)
      requires Valid() && t.depth == 2 && i < t.base
      modifies this`t, this`avail, this`nextPage
      ensures Valid() && t.base == old(t.base) && (r.Refused? <==> old(avail) == 0)
      ensures r.Stopped? <==> old(avail) > 0 && TakenAt(old(t), i)
      ensures forall b :: At(t, b) == if r.Done? && b >= 0 && b / t.base == i then Some(Null) else At(old(t), b)
    {
      hide At;
      hide WellFormed;
      ghost var was := t;
      WellShaped(t);
      var p := AllocPage();
      if p.None? {
        return Refused;
      }
      if t.pages[t.root][i] != Null {
        return Stopped;
      }
      forall b
        ensures WellFormed(Extended(was, i, p.value))
        ensures At(Extended(was, i, p.value), b) == if b >= 0 && b / was.base == i then Some(Null) else At(was, b)
      {
        ExtendedAt(was, i, p.value, b);
      }
      ExtendedKeeps(was, i, p.value);
      t := Extended(t, i, p.value);
      r := Done;
    }

    /** cos_vect_add_id.  It stops at a null value, and at an id beyond two levels in a vector of one. */
    method AddId(v: Val, id: nat) returns (r: Growth)
      requires Valid()
      modifies this`t, this`avail, this`nextPage
      ensures Valid() && t.base == old(t.base)
      ensures r.Refused? <==>
                && v != Null && At(old(t), id).None?
                && ((old(t.depth) == 2 && id >= t.base * t.base) || old(avail) < if old(t.depth) == 1 then 2 else 1)
      ensures r.Stopped? <==>
                v == Null || (At(old(t), id).None? && !r.Refused? && id >= t.base * t.base)
      ensures r.Refused? ==> forall b :: At(t, b) == At(old(t), b)
      ensures r.Done? ==> forall b ::
                At(t, b) == (if b == id then Some(v)
                             else if At(old(t), id).None? && b >= 0 && b / t.base == id / t.base then Some(Null)
                             else At(old(t), b))
    {
      hide At;
      hide WellFormed;
      hide Find;
      if v == Null {
        return Stopped;
      }
      var s, _ := Lookup(id);
      IndexOfPage(t, id);
      if s.None? {
        NoSlot(t, id);
        r := Expand(id);
        if !r.Done? {
          return;
        }
      }
      var ok := Set(id, v);
      r := if ok then Done else Stopped;
    }
  }

  /** The index of the page of an id that two levels reach; an id beyond them is not in the page of the index. */
  lemma IndexOfPage(t: Tree, id: nat)
    requires WellFormed(t)
    ensures t.base > 0 && (id < t.base <==> id / t.base == 0) && (id < t.base * t.base <==> id / t.base < t.base)
    ensures id < t.base * t.base <==> id / t.base == id / t.base % t.base
  {
    SmallQuotient(id, t.base);
    SmallQuotient(id / t.base, t.base);
    if id < t.base * t.base {
      QuotientBelow(id, t.base, t.base);
    } else if id / t.base < t.base {
      assert id == id / t.base * t.base + id % t.base;
      Mono(t.base, id / t.base + 1, t.base);
    }
  }

  /** An id has no slot because it is too large, or because its page is missing. */
  lemma NoSlot(t: Tree, id: nat)
    requires WellFormed(t) && At(t, id).None?
    ensures Shaped(t) && 1 <= t.depth <= 2 && (t.depth == 1 ==> id >= t.base)
    ensures id < t.base * t.base ==> id / t.base < t.base
    ensures t.depth == 2 && id < t.base * t.base ==> !TakenAt(t, id / t.base)
  {
    if id < t.base * t.base {
      QuotientBelow(id, t.base, t.base);
    }
    if t.depth == 2 && id / t.base < t.base {
      assert LeavesOk(t, t.pages[t.root]);
      if t.pages[t.root][id / t.base].Page? {
        FindPlace(t, id);
      }
    } else if t.depth == 1 && id < t.base {
      FindPlace(t, id);
    }
  }
}
