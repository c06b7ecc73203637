/** The maps of src/components/include/cos_map.h: a vector whose slots alternate between the values and a list of
    the free ids. */
module CosMap {
  import opened Arith
  import opened Seqs
  import opened CosVect

  /** The values of the ids below n, and the links of the free list. */
  datatype Cells = Cells(vals: seq<Val>, links: seq<Val>)

  /** The ids listed are exactly those without a value, once each, but for the lost ones: ids that were handed out for a
      null value, and so are neither free nor in use. */
  ghost predicate Unused(vals: seq<Val>, free: seq<nat>, lost: set<nat>) {
    && Distinct(free) && (forall i: nat :: i in free <==> i < |vals| && vals[i] == Null && i !in lost)
    && (forall i: nat :: i in lost ==> i < |vals| && vals[i] == Null)
  }

  /** What the link of the k-th free id says. */
  ghost function NextOf(free: seq<nat>, k: nat): int {
    if k + 1 < |free| then free[k + 1] else -1
  }

  /** The links lead from the head through the ids listed. */
  ghost predicate Chained(links: seq<Val>, head: int, free: seq<nat>) {
    && head == (if free == [] then -1 else free[0])
    && (forall k :: 0 <= k < |free| ==> free[k] < |links| && links[free[k]] == Num(NextOf(free, k)))
  }

  /** The free list runs through exactly the ids without a value that are not lost. */
  ghost predicate FreeOk(c: Cells, head: int, free: seq<nat>, lost: set<nat>) {
    |c.vals| == |c.links| && Unused(c.vals, free, lost) && Chained(c.links, head, free)
  }

  /** The map that the cells stand for. */
  ghost function View(vals: seq<Val>): map<nat, Val> {
    map i: nat | i < |vals| && vals[i] != Null :: vals[i]
  }

  /** The lost ids once v has been stored under a free one. */
  ghost function Losing(lost: set<nat>, i: nat, v: Val): set<nat> {
    if v == Null then lost + {i} else lost
  }

  /** The map once v has been stored under an id without a value. */
  ghost function Storing(m: map<nat, Val>, i: nat, v: Val): map<nat, Val> {
    if v == Null then m else m[i := v]
  }

  lemma TakeUnused(vals: seq<Val>, free: seq<nat>, lost: set<nat>, v: Val)
    requires Unused(vals, free, lost) && free != []
    ensures free[0] < |vals| && vals[free[0]] == Null && free[0] !in free[1..] && free[0] !in lost
    ensures Unused(vals[free[0] := v], free[1..], Losing(lost, free[0], v))
    ensures View(vals[free[0] := v]) == Storing(View(vals), free[0], v) && free[0] !in View(vals)
  {
    assert free == [free[0]] + free[1..];
    assert free[0] in free && free[0] !in free[1..];
    forall i: nat
      ensures i in free[1..] <==> i in free && i != free[0]
    {
    }
  }

  lemma TakeChained(links: seq<Val>, head: int, free: seq<nat>)
    requires Chained(links, head, free) && free != [] && free[0] !in free[1..]
    ensures head == free[0] && head < |links| && links[head].Num?
    ensures Chained(links[head := Num(-1)], links[head].n, free[1..])
  {
    var d, rest := links[free[0] := Num(-1)], free[1..];
    assert links[free[0]] == Num(NextOf(free, 0));
    forall k | 0 <= k < |rest|
      ensures rest[k] < |d| && d[rest[k]] == Num(NextOf(rest, k))
    {
      assert rest[k] == free[k + 1] && rest[k] in rest;
      assert links[free[k + 1]] == Num(NextOf(free, k + 1));
      assert NextOf(free, k + 1) == NextOf(rest, k);
    }
  }

  lemma GiveUnused(vals: seq<Val>, free: seq<nat>, lost: set<nat>, i: nat)
    requires Unused(vals, free, lost) && i < |vals| && i !in free
    ensures Unused(vals[i := Null], [i] + free, lost - {i}) && View(vals[i := Null]) == View(vals) - {i}
  {
  }

  lemma GiveChained(links: seq<Val>, head: int, free: seq<nat>, i: nat)
    requires Chained(links, head, free) && i < |links| && i !in free
    ensures Chained(links[i := Num(head)], i, [i] + free)
  {
    var d, all := links[i := Num(head)], [i] + free;
    forall k | 0 <= k < |all|
      ensures all[k] < |d| && d[all[k]] == Num(NextOf(all, k))
    {
      if k > 0 {
        assert all[k] == free[k - 1] && free[k - 1] in free;
        assert links[free[k - 1]] == Num(NextOf(free, k - 1));
        assert NextOf(free, k - 1) == NextOf(all, k);
      }
    }
  }

  lemma ChainLink(links: seq<Val>, head: int, free: seq<nat>, k: nat)
    requires Chained(links, head, free) && k < |free|
    ensures free[k] < |links| && links[free[k]] == Num(NextOf(free, k)) && head == free[0]
  {
  }

  /** A chain that starts with a free id that is given back again follows the old list. */
  lemma {:induction false} FollowsOldList(links: seq<Val>, head: int, free: seq<nat>, i: nat, k: nat, now: seq<nat>,
                                          m: nat)
    requires Chained(links, head, free) && k < |free| && free[k] == i && (forall j :: 0 <= j < k ==> free[j] != i)
    requires i < |links| && Chained(links[i := Num(head)], i, now) && now != [] && m <= k
    ensures m + 1 < |now| && now[m + 1] == free[m]
  {
    hide Chained;
    if m == 0 {
      ChainLink(links, head, free, 0);
      ChainLink(links[i := Num(head)], i, now, 0);
    } else {
      FollowsOldList(links, head, free, i, k, now, m - 1);
      ChainLink(links, head, free, m - 1);
      ChainLink(links[i := Num(head)], i, now, m);
    }
  }

  /** There is one free list from a head. */
  lemma {:induction false} OneChain(links: seq<Val>, head: int, a: seq<nat>, b: seq<nat>)
    requires Chained(links, head, a) && Chained(links, head, b)
    ensures a == b
    decreases |a|
  {
    hide Chained;
    RestOfChain(links, head, a);
    RestOfChain(links, head, b);
    if a != [] {
      OneChain(links, NextOf(a, 0), a[1..], b[1..]);
      assert a == [a[0]] + a[1..] && b == [b[0]] + b[1..];
    }
  }

  lemma RestOfChain(links: seq<Val>, head: int, a: seq<nat>)
    requires Chained(links, head, a)
    ensures if a == [] then head == -1
            else head == a[0] < |links| && links[head] == Num(NextOf(a, 0)) && Chained(links, NextOf(a, 0), a[1..])
  {
    if a == [] {
      return;
    }
    var rest := a[1..];
    forall k | 0 <= k < |rest|
      ensures rest[k] < |links| && links[rest[k]] == Num(NextOf(rest, k))
    {
      assert rest[k] == a[k + 1] && links[a[k + 1]] == Num(NextOf(a, k + 1));
    }
  }

  ghost predicate HasFreeList(c: Cells, head: int, lost: set<nat>) {
    exists free :: FreeOk(c, head, free, lost)
  }

  /** Giving an id back leaves a proper free list if and only if the id was not free. */
  lemma GiveBackOnce(c: Cells, head: int, free: seq<nat>, lost: set<nat>, i: nat)
    requires FreeOk(c, head, free, lost) && i < |c.vals|
    ensures HasFreeList(Cells(c.vals[i := Null], c.links[i := Num(head)]), i, lost - {i}) <==> i !in free
  {
    var d := Cells(c.vals[i := Null], c.links[i := Num(head)]);
    if i !in free {
      GiveUnused(c.vals, free, lost, i);
      GiveChained(c.links, head, free, i);
      assert FreeOk(d, i, [i] + free, lost - {i});
    } else {
      var k :| 0 <= k < |free| && free[k] == i;
      forall now | FreeOk(d, i, now, lost - {i})
        ensures false
      {
        assert i in now;
        FollowsOldList(c.links, head, free, i, k, now, k);
      }
    }
  }

  /** Storing a value under the first free id leaves a free list of all the ids that are not in use if and only if the
      value is not null: the id of a null value is lost. */
  lemma NullIsLost(c: Cells, head: nat, free: seq<nat>, lost: set<nat>, v: Val)
    requires FreeOk(c, head, free, lost) && head < |c.vals| && c.links[head].Num?
    ensures HasFreeList(Cells(c.vals[head := v], c.links[head := Num(-1)]), c.links[head].n, lost) <==> v != Null
  {
    var d, next := Cells(c.vals[head := v], c.links[head := Num(-1)]), c.links[head].n;
    TakeUnused(c.vals, free, lost, v);
    TakeChained(c.links, head, free);
    if v != Null {
      assert FreeOk(d, next, free[1..], lost);
    } else {
      forall now | FreeOk(d, next, now, lost)
        ensures false
      {
        assert head in now;
        OneChain(d.links, next, now, free[1..]);
      }
    }
  }

  function NewLinks(n: nat, h: nat): (r: seq<Val>)
    ensures |r| == h && forall i :: 0 <= i < h ==> r[i] == Num(if i + 1 < h then n + i + 1 else -1)
  {
    seq(h, i => Num(if i + 1 < h then n + i + 1 else -1))
  }

  ghost function Range(n: nat, h: nat): (r: seq<nat>)
    ensures |r| == h && forall i :: 0 <= i < h ==> r[i] == n + i
  {
    seq(h, i requires 0 <= i => n + i)
  }

  /** A map without free ids gets h more. */
  lemma Grown(c: Cells, lost: set<nat>, h: nat)
    requires FreeOk(c, -1, [], lost) && h > 0
    ensures FreeOk(Cells(c.vals + Nulls(h), c.links + NewLinks(|c.vals|, h)), |c.vals|, Range(|c.vals|, h), lost)
    ensures View(c.vals + Nulls(h)) == View(c.vals)
  {
    var n, free := |c.vals|, Range(|c.vals|, h);
    var none: seq<nat> := [];
    forall i: nat
      ensures i in free <==> n <= i < n + h
    {
      if n <= i < n + h {
        assert free[i - n] == i;
      }
    }
    forall i: nat | i < n
      ensures c.vals[i] != Null || i in lost
    {
      assert i !in none;
    }
  }

  /** The slots of the vector hold the cells, alternately. */
  ghost predicate Holds(t: Tree, c: Cells) {
    && WellFormed(t) && |c.vals| == |c.links|
    && (forall i: nat :: i < |c.vals| ==> At(t, 2 * i) == Some(c.vals[i]) && At(t, 2 * i + 1) == Some(c.links[i]))
    && (forall b: int :: !(0 <= b < 2 * |c.vals|) ==> At(t, b).None?)
  }

  lemma HoldsValue(t: Tree, c: Cells, t': Tree, i: nat, v: Val)
    requires Holds(t, c) && i < |c.vals| && WellFormed(t')
    requires forall b: int :: At(t', b) == if b == 2 * i then Some(v) else At(t, b)
    ensures Holds(t', c.(vals := c.vals[i := v]))
  {
  }

  lemma HoldsLink(t: Tree, c: Cells, t': Tree, i: nat, v: Val)
    requires Holds(t, c) && i < |c.vals| && WellFormed(t')
    requires forall b: int :: At(t', b) == if b == 2 * i + 1 then Some(v) else At(t, b)
    ensures Holds(t', c.(links := c.links[i := v]))
  {
  }

  /** A page more: its first slot has the value v. */
  lemma HoldsPage(t: Tree, c: Cells, t': Tree, h: nat, v: Val)
    requires Holds(t, c) && WellFormed(t') && h > 0 && t.base == t'.base == 2 * h
    requires forall b: int :: At(t', b) == if b == 2 * |c.vals| then Some(v)
               else if 2 * |c.vals| <= b < 2 * |c.vals| + 2 * h then Some(Null) else At(t, b)
    ensures Holds(t', Cells(c.vals + Nulls(h)[0 := v], c.links + Nulls(h)))
  {
  }

  /** The ids of the page of a multiple of the page size. */
  lemma SamePage(k: nat, d: nat, b: nat)
    requires d > 0
    ensures k * d / d == k && (b / d == k <==> k * d <= b < k * d + d)
  {
    ExactQuotient(k, d);
    assert b == b / d * d + b % d;
    if b / d < k {
      Mono(k, b / d + 1, d);
    } else if b / d > k {
      Mono(b / d, k + 1, d);
    }
  }

  class Map {
    const v: Vector
    var freeList: int
    var boundary: nat
    ghost var cells: Cells
    ghost var free: seq<nat>
    ghost var lost: set<nat>
    ghost var used: nat

    /** The free list is right for the cells of the first `used` pages. */
    ghost predicate Valid()
      reads this, v
    {
      v.Valid() && Paged() && FreeOk(cells, freeList, free, lost)
    }

    ghost predicate Paged()
      reads this`boundary, this`used, this`cells, v`t
    {
      && v.t.base % 2 == 0 && used >= 1 && 2 * boundary == used * v.t.base
      && |cells.vals| == boundary && Holds(v.t, cells)
    }

    /** There is memory for another page of ids, and the vector can reach them. */
    ghost predicate CanGrow()
      reads this`boundary, v
    {
      2 * boundary < v.t.base * v.t.base && v.avail >= if v.t.depth == 1 then 2 else 1
    }

    /** __cos_map_init, for pages that hold `half` values and as many links. */
    constructor (half: nat, avail: nat)
      requires half >= 1
      ensures Valid() && fresh(v) && v.t.base == 2 * half && v.avail == avail && View(cells.vals) == map[]
      ensures lost == {}
    {
      v := new Vector(2 * half, avail);
      freeList, boundary, used := 0, half, 1;
      cells := Cells(Nulls(half), Nulls(half));
      free, lost := Range(0, half), {};
      new;
      FirstPage(v.t, half);
      FirstList(half);
    }

    /** The first free list. */
    method FirstList(half: nat)
      requires v.Valid() && v.t.base == 2 * half && half >= 1 && freeList == 0 && boundary == half && used == 1
      requires cells == Cells(Nulls(half), Nulls(half)) && Holds(v.t, cells) && free == Range(0, half) && lost == {}
      modifies v`t, this`cells
      ensures Valid() && v.t.base == old(v.t.base) && View(cells.vals) == map[]
    {
      hide At;
      hide WellFormed;
      hide Holds;
      hide Chained;
      hide Unused;
      hide View;
      LinkUp(0, half);
      NoIds();
      Grown(Cells([], []), {}, half);
      assert cells.vals == [] + Nulls(half);
      assert cells.links == [] + NewLinks(0, half);
    }

    /** The loops that make a free list of the ids from lower to upper. */
    method LinkUp(lower: nat, upper: nat)
      requires v.Valid() && Holds(v.t, cells) && lower < upper <= |cells.vals|
      modifies v`t, this`cells
      ensures v.Valid() && Holds(v.t, cells) && v.t.base == old(v.t.base) && cells.vals == old(cells.vals)
      ensures cells.links == old(cells.links)[..lower] + NewLinks(lower, upper - lower) + old(cells.links)[upper..]
    {
      hide At;
      hide WellFormed;
      hide Holds;
      ghost var was := cells.links;
      var i := lower;
      while i != upper
        invariant lower <= i <= upper && v.Valid() && Holds(v.t, cells) && v.t.base == old(v.t.base)
        invariant cells.vals == old(cells.vals) && |cells.links| == |was|
        invariant forall k :: 0 <= k < |was| ==> cells.links[k] == if lower <= k < i then Num(k + 1) else was[k]
      {
        SetLink(i, Num(i + 1));
        i := i + 1;
      }
      SetLink(upper - 1, Num(-1));
    }

    method SetLink(i: nat, x: Val)
      requires v.Valid() && Holds(v.t, cells) && i < |cells.vals|
      modifies v`t, this`cells
      ensures v.Valid() && Holds(v.t, cells) && v.t.base == old(v.t.base)
      ensures i < |old(cells.links)| && cells == old(cells).(links := old(cells.links)[i := x])
    {
      ghost var t := v.t;
      assert At(t, 2 * i + 1) == Some(cells.links[i]);
      var ok := v.Set(2 * i + 1, x);
      HoldsLink(t, cells, v.t, i, x);
      cells := cells.(links := cells.links[i := x]);
    }

    method SetValue(i: nat, x: Val)
      requires v.Valid() && Holds(v.t, cells) && i < |cells.vals|
      modifies v`t, this`cells
      ensures v.Valid() && Holds(v.t, cells) && v.t.base == old(v.t.base)
      ensures cells == old(cells).(vals := old(cells.vals)[i := x])
    {
      ghost var t := v.t;
      assert At(t, 2 * i) == Some(cells.vals[i]);
      var ok := v.Set(2 * i, x);
      HoldsValue(t, cells, v.t, i, x);
      cells := cells.(vals := cells.vals[i := x]);
    }

    /** cos_map_lookup. */
    method Lookup(mid: int) returns (r: Val)
      requires Valid()
      ensures r == if mid in View(cells.vals) then View(cells.vals)[mid] else Null
    {
      var s, r' := v.Lookup(2 * mid);
      r := r';
      if 0 <= mid < boundary {
        assert At(v.t, 2 * mid) == Some(cells.vals[mid]);
      } else {
        assert At(v.t, 2 * mid).None?;
      }
    }

    /** cos_map_add: the value gets an id that was not in use; the map grows by a page if there is none, and then the
        vector stops at a null value.  A null value under a free id leaves the id neither free nor in use. */
    method Add(x: Val) returns (id: int)
      requires Valid() && (x != Null || freeList != -1)
      modifies this, v
      ensures Valid() && v.t.base == old(v.t.base)
      ensures id == -1 <==> old(freeList) == -1 && !old(CanGrow())
      ensures id == -1 ==> View(cells.vals) == old(View(cells.vals)) && lost == old(lost)
      ensures id != -1 ==> id >= 0 && id !in old(View(cells.vals)) && id !in old(lost)
      ensures id != -1 ==> View(cells.vals) == Storing(old(View(cells.vals)), id, x) && lost == Losing(old(lost), id, x)
    {
      hide Holds;
      hide Chained;
      hide Unused;
      hide View;
      HeadOfList(cells, freeList, free, lost);
      if freeList == -1 {
        var ok := Grow(x);
        if !ok {
          return -1;
        }
      } else {
        assert cells.vals[freeList := Null] == cells.vals;
      }
      id := TakeFirst(x);
    }

    /** The end of cos_map_add: the first free id is taken off the list.  After a growth it holds x already. */
    method TakeFirst(x: Val) returns (id: nat)
      requires v.Valid() && Paged() && free != [] && 0 <= freeList < |cells.vals|
      requires FreeOk(cells.(vals := cells.vals[freeList := Null]), freeList, free, lost)
      modifies this`freeList, this`cells, this`free, this`lost, v`t
      ensures Valid() && v.t.base == old(v.t.base)
      ensures var was := View(old(cells.vals)[old(freeList) := Null]);
              id !in was && id !in old(lost) && View(cells.vals) == Storing(was, id, x)
      ensures lost == Losing(old(lost), id, x)
    {
      hide Holds;
      hide Chained;
      hide Unused;
      hide View;
      id := freeList;
      ghost var c := cells.(vals := cells.vals[id := Null]);
      HeadOfList(c, freeList, free, lost);
      TakeUnused(c.vals, free, lost, x);
      TakeChained(c.links, freeList, free);
      SetValue(id, x);
      freeList := NextFree(id);
      SetLink(id, Num(-1));
      free, lost := free[1..], Losing(lost, id, x);
      assert cells.vals == c.vals[id := x];
    }

    /** The link of an id. */
    method NextFree(i: nat) returns (n: int)
      requires v.Valid() && Holds(v.t, cells) && i < |cells.links| && cells.links[i].Num?
      ensures Num(n) == cells.links[i]
    {
      var s, r := v.Lookup(2 * i + 1);
      n := r.n;
    }

    /** The growth of the map when no id is free; the first new id holds x already. */
    method Grow(x: Val) returns (ok: bool)
      requires Valid() && free == [] && x != Null
      modifies this, v
      ensures v.Valid() && v.t.base == old(v.t.base)
      ensures ok <==> old(CanGrow())
      ensures !ok ==> Valid() && cells == old(cells) && freeList == old(freeList) && free == []
      ensures lost == old(lost)
      ensures ok ==> Paged() && free != [] && 0 <= freeList < |cells.vals| && freeList == |old(cells.vals)|
      ensures ok ==> var c := cells.(vals := cells.vals[freeList := Null]);
                FreeOk(c, freeList, free, lost) && View(c.vals) == View(old(cells.vals)) && cells.vals[freeList] == x
    {
      hide At;
      hide WellFormed;
      hide Holds;
      hide Chained;
      hide Unused;
      hide View;
      ghost var t, c := v.t, cells;
      var half := v.t.base / 2;
      OnePage(v.t, cells, used);
      var r := v.AddId(x, 2 * boundary);
      ok := r.Done?;
      if !ok {
        SameHolds(t, c, v.t);
        return;
      }
      NextPage(t, c, v.t, used, half, x);
      cells := Cells(c.vals + Nulls(half)[0 := x], c.links + Nulls(half));
      var lower := boundary;
      boundary := lower + half;
      OneMore(used, v.t.base);
      used := used + 1;
      LinkUp(lower, boundary);
      Grown(c, lost, half);
      freeList := lower;
      free := Range(lower, half);
      assert cells.links == c.links + NewLinks(lower, half);
      assert cells.vals[lower := Null] == c.vals + Nulls(half);
    }

    /** cos_map_del: an id that is in use, or lost, becomes free; an id that has no slot is refused. */
    method Delete(mid: int) returns (ok: bool)
      requires Valid() && mid !in free
      modifies this`freeList, this`cells, this`free, this`lost, v`t
      ensures Valid() && v.t.base == old(v.t.base) && (ok <==> mid in old(View(cells.vals)) || mid in old(lost))
      ensures View(cells.vals) == old(View(cells.vals)) - {mid} && lost == old(lost) - {mid}
      ensures ok ==> free == [mid] + old(free)
    {
      hide Holds;
      hide Chained;
      hide Unused;
      hide At;
      hide WellFormed;
      SlotExists(v.t, cells, mid);
      InUseOrLost(cells.vals, free, lost, mid);
      var s, _ := v.Lookup(2 * mid);
      if s.None? {
        return false;
      }
      GiveUnused(cells.vals, free, lost, mid);
      GiveChained(cells.links, freeList, free, mid);
      SetValue(mid, Null);
      SetLink(mid, Num(freeList));
      freeList := mid;
      free, lost := [mid] + free, lost - {mid};
      ok := true;
    }
  }

  lemma InUseOrLost(vals: seq<Val>, free: seq<nat>, lost: set<nat>, i: int)
    requires Unused(vals, free, lost) && i !in free
    ensures 0 <= i < |vals| <==> i in View(vals) || i in lost
  {
  }

  lemma HeadOfList(c: Cells, head: int, free: seq<nat>, lost: set<nat>)
    requires FreeOk(c, head, free, lost)
    ensures (head == -1 <==> free == []) && (free != [] ==> head == free[0] && head < |c.vals| && c.vals[head] == Null)
  {
    assert free != [] ==> free[0] in free;
  }

  lemma NoIds()
    ensures FreeOk(Cells([], []), -1, [], {}) && View([]) == map[]
  {
  }

  lemma FirstPage(t: Tree, h: nat)
    requires WellFormed(t) && h > 0 && forall id :: At(t, id) == if 0 <= id < 2 * h then Some(Null) else None
    ensures Holds(t, Cells(Nulls(h), Nulls(h)))
  {
  }

  lemma SlotExists(t: Tree, c: Cells, mid: int)
    requires Holds(t, c)
    ensures At(t, 2 * mid).Some? <==> 0 <= mid < |c.vals|
  {
    if 0 <= mid < |c.vals| {
      assert At(t, 2 * mid) == Some(c.vals[mid]);
    }
  }

  lemma SameHolds(t: Tree, c: Cells, t': Tree)
    requires Holds(t, c) && WellFormed(t') && forall b :: At(t', b) == At(t, b)
    ensures Holds(t', c)
  {
  }

  lemma OneMore(k: nat, d: nat)
    ensures (k + 1) * d == k * d + d
  {
  }

  lemma ReachOfOnePage(t: Tree, id: int)
    requires WellFormed(t) && t.depth == 1 && At(t, id).Some?
    ensures id < t.base
  {
  }

  /** A vector of depth 1 has one page, so its next id is within reach of a vector of depth 2. */
  lemma OnePage(t: Tree, c: Cells, used: nat)
    requires Holds(t, c) && used >= 1 && 2 * |c.vals| == used * t.base
    ensures 2 * |c.vals| < t.base * t.base <==> !OutOfReach(t, 2 * |c.vals|)
    ensures At(t, 2 * |c.vals|).None?
  {
    if t.depth == 1 && |c.vals| > 0 {
      var i := |c.vals| - 1;
      assert At(t, 2 * i + 1) == Some(c.links[i]);
      ReachOfOnePage(t, 2 * i + 1);
    }
    Mono(t.base, 2, t.base);
  }

  lemma NextPage(t: Tree, c: Cells, t': Tree, used: nat, h: nat, x: Val)
    requires Holds(t, c) && WellFormed(t') && h > 0 && t.base == t'.base == 2 * h && 2 * |c.vals| == used * t.base
    requires forall b: int ::
      At(t', b) == (if b == 2 * |c.vals| then Some(x)
                    else if b >= 0 && b / t.base == 2 * |c.vals| / t.base then Some(Null)
                    else At(t, b))
    ensures Holds(t', Cells(c.vals + Nulls(h)[0 := x], c.links + Nulls(h)))
  {
    forall b: int
      ensures At(t', b) == if b == 2 * |c.vals| then Some(x)
                else if 2 * |c.vals| <= b < 2 * |c.vals| + 2 * h then Some(Null) else At(t, b)
    {
      if b >= 0 {
        SamePage(used, t.base, b);
      }
    }
    HoldsPage(t, c, t', h, x);
  }
}
