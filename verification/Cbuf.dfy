/** The slab allocator of src/components/include/cbuf.h and src/components/interface/cbuf_c/cbuf_c.c, for objects
    of up to a page. */
module Cbuf {
  import opened Arith
  import opened Seqs
  import opened Bitmap

  const PAGE_SIZE: nat := 4096
  const CBUF_MIN_SLAB_ORDER: bv32 := 6
  const SLAB_BITMAP_SIZE: nat := 2
  const SLAB_MAX_OBJS: nat := 64

  // ----- the size class of a request

  /** The two adjustments of a size in cbuf_alloc. */
  function Clamped(size: bv32): bv32 {
    if size < 65 then 63 else size
  }

  function Reduced(sz: bv32): bv32 {
    if Ones(sz) == 1 then sz - 1 else sz
  }

  /** The order that cbuf_alloc picks for a size. */
  function OrderFor(size: bv32): bv32 {
    Log32Floor(Reduced(Clamped(size))) + 1
  }

  /** 2^o is the least power of two that is at least the size, and at least 64. */
  ghost predicate LeastPower(size: bv32, o: bv32) {
    && CBUF_MIN_SLAB_ORDER <= o < 32 && size <= (1 as bv32) << o
    && (o > CBUF_MIN_SLAB_ORDER ==> (1 as bv32) << (o - 1) < size)
  }

  lemma OrderIsLeast(size: bv32)
    requires size <= 0x8000_0000
    ensures LeastPower(size, OrderFor(size))
  {
    hide Log32Floor;
    hide Reduced;
    hide Clamped;
    hide IsFloor;
    hide LeastPower;
    hide Adjusted;
    AdjustedSize(size);
    FloorIsFloor(Reduced(Clamped(size)));
    RoundedUp(size, Reduced(Clamped(size)), Log32Floor(Reduced(Clamped(size))));
  }

  /** What the adjustments come to. */
  predicate Adjusted(size: bv32, s: bv32) {
    s == if size < 65 then 63 else if SingleBit(size) then size - 1 else size
  }

  lemma AdjustedSize(size: bv32)
    ensures Adjusted(size, Reduced(Clamped(size))) && Reduced(Clamped(size)) != 0
  {
    OnesOfSingle(Clamped(size));
    hide Ones;
  }

  lemma RoundedUp(size: bv32, s: bv32, f: bv32)
    requires size <= 0x8000_0000 && Adjusted(size, s) && IsFloor(s, f)
    ensures LeastPower(size, f + 1)
  {
  }

  // ----- slabs

  /** A page of objects of one size; a bit that is set says that the object is free. */
  datatype Slab = Slab(cbid: nat, objSz: nat, nfree: nat, maxObjs: nat, bitmap: seq<bv32>, flh: nat)

  const CLASSES: nat := 7

  /** The object size of size class fl. */
  function SizeOf(fl: nat): nat {
    if fl == 0 then 64 else if fl == 1 then 128 else if fl == 2 then 256 else if fl == 3 then 512
    else if fl == 4 then 1024 else if fl == 5 then 2048 else 4096
  }

  /** The number of objects of size class fl in a page. */
  function PerPage(fl: nat): nat {
    PAGE_SIZE / SizeOf(fl)
  }

  lemma SizesDividePage(fl: nat)
    ensures SizeOf(fl) * PerPage(fl) == PAGE_SIZE && 1 <= PerPage(fl) <= SLAB_MAX_OBJS && SizeOf(fl) >= 64
  {
  }

  /** The size class that cbuf_alloc_pow2 picks for an order. */
  function ClassOf(o: bv32): nat
    requires CBUF_MIN_SLAB_ORDER <= o
  {
    (o - CBUF_MIN_SLAB_ORDER) as nat
  }

  /** Objects of the class hold a request of the size, and those of the class below would not. */
  ghost predicate FitsClass(size: bv32, fl: nat) {
    size as nat <= SizeOf(fl) && (fl > 0 ==> SizeOf(fl - 1) < size as nat)
  }

  // A size compared with one bound, as bit vector and as number.

  lemma UpTo64(x: bv32)
    ensures x <= 64 <==> x as nat <= 64
  {
  }

  lemma UpTo128(x: bv32)
    ensures x <= 128 <==> x as nat <= 128
  {
  }

  lemma UpTo256(x: bv32)
    ensures x <= 256 <==> x as nat <= 256
  {
  }

  lemma UpTo512(x: bv32)
    ensures x <= 512 <==> x as nat <= 512
  {
  }

  lemma UpTo1024(x: bv32)
    ensures x <= 1024 <==> x as nat <= 1024
  {
  }

  lemma UpTo2048(x: bv32)
    ensures x <= 2048 <==> x as nat <= 2048
  {
  }

  lemma UpTo4096(x: bv32)
    ensures x <= 4096 <==> x as nat <= 4096
  {
  }

  lemma ClassFits(size: bv32, o: bv32)
    requires size <= 4096 && LeastPower(size, o)
    ensures ClassOf(o) < CLASSES && FitsClass(size, ClassOf(o))
  {
    OrderUpToPage(size, o);
    hide LeastPower;
    UpTo64(size);
    UpTo128(size);
    UpTo256(size);
    UpTo512(size);
    UpTo1024(size);
    UpTo2048(size);
    UpTo4096(size);
    ClassOfOrder(o);
    SizesOfClasses();
    hide ClassOf;
    hide SizeOf;
  }

  lemma ClassOfOrder(o: bv32)
    requires o == 6 || o == 7 || o == 8 || o == 9 || o == 10 || o == 11 || o == 12
    ensures ClassOf(o) == if o == 6 then 0 else if o == 7 then 1 else if o == 8 then 2 else if o == 9 then 3
                          else if o == 10 then 4 else if o == 11 then 5 else 6
  {
  }

  lemma SizesOfClasses()
    ensures SizeOf(0) == 64 && SizeOf(1) == 128 && SizeOf(2) == 256 && SizeOf(3) == 512 && SizeOf(4) == 1024
    ensures SizeOf(5) == 2048 && SizeOf(6) == 4096
  {
  }

  lemma OrderUpToPage(size: bv32, o: bv32)
    requires size <= 4096 && LeastPower(size, o)
    ensures || (o == 6 && size <= 64) || (o == 7 && 64 < size <= 128) || (o == 8 && 128 < size <= 256)
            || (o == 9 && 256 < size <= 512) || (o == 10 && 512 < size <= 1024) || (o == 11 && 1024 < size <= 2048)
            || (o == 12 && 2048 < size)
  {
  }

  ghost function FreeCount(x: seq<bv32>, n: nat): nat {
    if n == 0 then 0 else FreeCount(x, n - 1) + if Has(x, n - 1) then 1 else 0
  }

  lemma {:induction false} CountSame(x: seq<bv32>, y: seq<bv32>, n: nat)
    requires forall u: nat :: u < n ==> Has(x, u) == Has(y, u)
    ensures FreeCount(x, n) == FreeCount(y, n)
  {
    hide Has;
    if n > 0 {
      CountSame(x, y, n - 1);
    }
  }

  /** One bit changes, and the count with it. */
  lemma {:induction false} CountChange(x: seq<bv32>, y: seq<bv32>, v: nat, n: nat)
    requires v < n && Has(x, v) && !Has(y, v) && forall u: nat :: u != v ==> Has(x, u) == Has(y, u)
    ensures FreeCount(x, n) == FreeCount(y, n) + 1
  {
    hide Has;
    if v == n - 1 {
      CountSame(x, y, v);
    } else {
      CountChange(x, y, v, n - 1);
    }
  }

  lemma {:induction false} CountAll(x: seq<bv32>, n: nat)
    requires forall u: nat :: u < n ==> Has(x, u)
    ensures FreeCount(x, n) == n
  {
    hide Has;
    if n > 0 {
      CountAll(x, n - 1);
    }
  }

  lemma {:induction false} CountPositive(x: seq<bv32>, n: nat) returns (v: nat)
    requires FreeCount(x, n) > 0
    ensures v < n && Has(x, v)
  {
    hide Has;
    if Has(x, n - 1) {
      v := n - 1;
    } else {
      v := CountPositive(x, n - 1);
    }
  }

  ghost predicate SlabOk(s: Slab) {
    && s.objSz == SizeOf(s.flh) && s.maxObjs == PerPage(s.flh) && |s.bitmap| == SLAB_BITMAP_SIZE
    && s.nfree == FreeCount(s.bitmap, s.maxObjs)
    && (forall v: nat :: s.maxObjs <= v < SLAB_MAX_OBJS ==> Has(s.bitmap, v))
  }

  ghost predicate IsLive(slabs: map<nat, Slab>, p: nat, i: nat) {
    p in slabs && i < slabs[p].maxObjs && !Has(slabs[p].bitmap, i)
  }

  /** The address of object i of page p. */
  function Address(p: nat, i: nat, size: nat): nat {
    p * PAGE_SIZE + i * size
  }

  ghost predicate SlabsOk(slabs: map<nat, Slab>) {
    forall p :: p in slabs ==> SlabOk(slabs[p])
  }

  /** A slab is on its freelist exactly if it has free objects. */
  ghost predicate ListsOk(slabs: map<nat, Slab>, lists: seq<seq<nat>>) {
    && |lists| == CLASSES
    && (forall p :: p in slabs ==> slabs[p].flh < CLASSES)
    && (forall p :: p in slabs ==> (p in lists[slabs[p].flh] <==> slabs[p].nfree > 0))
    && (forall fl :: 0 <= fl < CLASSES ==> Distinct(lists[fl]))
    && (forall fl, p :: 0 <= fl < CLASSES && p in lists[fl] ==> p in slabs && slabs[p].flh == fl)
  }

  /** Live objects lie within their page and do not overlap. */
  lemma LiveObjectsAreApart(slabs: map<nat, Slab>, p: nat, i: nat, q: nat, j: nat)
    requires SlabsOk(slabs) && IsLive(slabs, p, i) && IsLive(slabs, q, j)
    ensures var a, b := Address(p, i, slabs[p].objSz), Address(q, j, slabs[q].objSz);
            && p * PAGE_SIZE <= a && a + slabs[p].objSz <= (p + 1) * PAGE_SIZE
            && (p != q || i != j ==> a + slabs[p].objSz <= b || b + slabs[q].objSz <= a)
  {
    hide Has;
    hide SlabOk;
    hide Address;
    ObjectInPage(slabs[p], p, i);
    ObjectInPage(slabs[q], q, j);
    if p == q && i != j {
      ObjectsSpaced(p, i, j, slabs[p].objSz);
    }
  }

  lemma ObjectInPage(s: Slab, p: nat, i: nat)
    requires SlabOk(s) && i < s.maxObjs
    ensures p * PAGE_SIZE <= Address(p, i, s.objSz) && Address(p, i, s.objSz) + s.objSz <= (p + 1) * PAGE_SIZE
  {
    hide SlabOk;
    SlabInPage(s, i);
  }

  lemma ObjectsSpaced(p: nat, i: nat, j: nat, size: nat)
    requires i != j
    ensures Address(p, i, size) + size <= Address(p, j, size) || Address(p, j, size) + size <= Address(p, i, size)
  {
    Spaced(i, j, size);
  }

  lemma SlabInPage(s: Slab, i: nat)
    requires SlabOk(s) && i < s.maxObjs
    ensures i * s.objSz + s.objSz <= PAGE_SIZE
  {
    SizesDividePage(s.flh);
    hide SizeOf;
    hide PerPage;
    InPage(i, s.objSz, s.maxObjs);
  }

  lemma InPage(i: nat, size: nat, max: nat)
    requires i < max && size * max == PAGE_SIZE
    ensures i * size + size <= PAGE_SIZE
  {
    assert (i + 1) * size <= max * size;
  }

  lemma Spaced(i: nat, j: nat, size: nat)
    requires i != j
    ensures i * size + size <= j * size || j * size + size <= i * size
  {
    if i < j {
      assert (i + 1) * size <= j * size;
    } else {
      assert (j + 1) * size <= i * size;
    }
  }

  // ----- taking and giving back an object

  /** The lowest free bit belongs to an object, although the bits behind the last object are set too. */
  lemma LowestIsObject(s: Slab, v: int)
    requires SlabOk(s) && s.nfree > 0 && -1 <= v < SLAB_MAX_OBJS
    requires v >= 0 ==> Has(s.bitmap, v) && forall u: nat :: u < v ==> !Has(s.bitmap, u)
    requires v == -1 ==> forall u: nat :: !Has(s.bitmap, u)
    ensures 0 <= v < s.maxObjs
  {
    hide Has;
    hide SizeOf;
    hide PerPage;
    var u := CountPositive(s.bitmap, s.maxObjs);
    assert Has(s.bitmap, u);
  }

  function Taken(s: Slab, v: nat): Slab
    requires v < SLAB_MAX_OBJS && |s.bitmap| == SLAB_BITMAP_SIZE && s.nfree > 0
  {
    s.(bitmap := BitmapUnset(s.bitmap, v), nfree := s.nfree - 1)
  }

  function Given(s: Slab, v: nat): Slab
    requires v < SLAB_MAX_OBJS && |s.bitmap| == SLAB_BITMAP_SIZE
  {
    s.(bitmap := BitmapSet(s.bitmap, v), nfree := s.nfree + 1)
  }

  lemma TakenOk(s: Slab, v: nat)
    requires SlabOk(s) && v < s.maxObjs <= SLAB_MAX_OBJS && Has(s.bitmap, v) && s.nfree > 0
    ensures SlabOk(Taken(s, v)) && forall u: nat :: Has(Taken(s, v).bitmap, u) <==> u != v && Has(s.bitmap, u)
  {
    hide SizeOf;
    hide PerPage;
    hide Has;
    hide BitmapUnset;
    forall u: nat
      ensures Has(BitmapUnset(s.bitmap, v), u) <==> u != v && Has(s.bitmap, u)
    {
      HasAfterUnset(s.bitmap, v, u);
    }
    CountChange(s.bitmap, BitmapUnset(s.bitmap, v), v, s.maxObjs);
    SameLength(s.bitmap, v);
  }

  lemma GivenOk(s: Slab, v: nat)
    requires SlabOk(s) && v < s.maxObjs <= SLAB_MAX_OBJS && !Has(s.bitmap, v)
    ensures SlabOk(Given(s, v)) && forall u: nat :: Has(Given(s, v).bitmap, u) <==> u == v || Has(s.bitmap, u)
  {
    hide SizeOf;
    hide PerPage;
    hide Has;
    hide BitmapSet;
    forall u: nat
      ensures Has(BitmapSet(s.bitmap, v), u) <==> u == v || Has(s.bitmap, u)
    {
      HasAfterSet(s.bitmap, v, u);
    }
    CountChange(BitmapSet(s.bitmap, v), s.bitmap, v, s.maxObjs);
    SameLength(s.bitmap, v);
  }

  lemma SameLength(x: seq<bv32>, v: nat)
    requires v < WORD_SIZE * |x|
    ensures |BitmapSet(x, v)| == |x| && |BitmapUnset(x, v)| == |x|
  {
  }

  /** The lists after slab p has changed: it goes on its list, or off it, as its free objects ask. */
  lemma ListsFollow(slabs: map<nat, Slab>, lists: seq<seq<nat>>, p: nat, s: Slab, l: seq<nat>)
    requires ListsOk(slabs, lists) && p in slabs && s.flh == slabs[p].flh
    requires Distinct(l) && forall q: nat :: q in l <==> if q == p then s.nfree > 0 else q in lists[s.flh]
    ensures ListsOk(slabs[p := s], lists[s.flh := l])
  {
  }

  function NewSlab(cbid: nat, fl: nat): Slab {
    Slab(cbid, SizeOf(fl), PerPage(fl), PerPage(fl), [0xFFFF_FFFF, 0xFFFF_FFFF], fl)
  }

  lemma NewSlabOk(cbid: nat, fl: nat)
    requires fl < CLASSES
    ensures SlabOk(NewSlab(cbid, fl)) && NewSlab(cbid, fl).nfree > 0
    ensures forall v: nat :: v < SLAB_MAX_OBJS ==> Has(NewSlab(cbid, fl).bitmap, v)
  {
    SizesDividePage(fl);
    hide SizeOf;
    hide PerPage;
    hide Bit;
    var s := NewSlab(cbid, fl);
    forall v: nat | v < SLAB_MAX_OBJS
      ensures Has(s.bitmap, v)
    {
      AllOnes(v % WORD_SIZE);
    }
    hide Has;
    CountAll(s.bitmap, s.maxObjs);
  }

  lemma ListsGrow(slabs: map<nat, Slab>, lists: seq<seq<nat>>, p: nat, cbid: nat, fl: nat)
    requires ListsOk(slabs, lists) && p !in slabs && fl < CLASSES
    ensures ListsOk(slabs[p := NewSlab(cbid, fl)], lists[fl := [p] + lists[fl]])
  {
    SizesDividePage(fl);
    hide SizeOf;
    hide PerPage;
  }

  /** The index of the object at an address. */
  function IndexAt(s: Slab, buf: nat): nat {
    if s.objSz == 0 then 0 else buf % PAGE_SIZE / s.objSz
  }

  class Cbufs {
    var slabs: map<nat, Slab>
    var lists: seq<seq<nat>>

    ghost predicate Valid()
      reads this
    {
      SlabsOk(slabs) && ListsOk(slabs, lists)
    }

    constructor ()
      ensures Valid() && slabs == map[]
    {
      slabs, lists := map[], seq(CLASSES, _ => []);
    }

    /** cbuf_slab_alloc and cbuf_slab_cons, for a page that has been obtained. */
    method SlabAlloc(fl: nat, page: nat, cbid: nat)
      requires Valid() && fl < CLASSES && page !in slabs
      modifies this`slabs, this`lists
      ensures Valid() && lists == old(lists)[fl := [page] + old(lists)[fl]]
      ensures slabs == old(slabs)[page := NewSlab(cbid, fl)]
      ensures forall p: nat, i: nat :: IsLive(slabs, p, i) <==> IsLive(old(slabs), p, i)
    {
      hide Has;
      hide SlabOk;
      hide SizeOf;
      hide PerPage;
      NewSlabOk(cbid, fl);
      ListsGrow(slabs, lists, page, cbid, fl);
      SizesDividePage(fl);
      slabs := slabs[page := NewSlab(cbid, fl)];
      lists := lists[fl := [page] + lists[fl]];
    }

    /** __cbuf_alloc for size class fl; `spare` is the page that a new slab would get, if there is one.  The object
        returned was not in use, and nothing else changes. */
    method Alloc(fl: nat, spare: Option<(nat, nat)>) returns (r: Option<(nat, nat)>)
      requires Valid() && fl < CLASSES && (spare.Some? ==> spare.value.0 !in slabs)
      modifies this`slabs, this`lists
      ensures Valid() && (r.None? <==> old(lists)[fl] == [] && spare.None?)
      ensures r.None? ==> slabs == old(slabs) && lists == old(lists)
      ensures r.Some? ==> NowLive(old(slabs), slabs, r.value.0, r.value.1) && slabs[r.value.0].objSz == SizeOf(fl)
    {
      hide Has;
      hide SizeOf;
      hide PerPage;
      hide IsLive;
      if lists[fl] == [] {
        if spare.None? {
          return None;
        }
        SlabAlloc(fl, spare.value.0, spare.value.1);
      }
      var p := lists[fl][0];
      FirstIn(lists[fl]);
      assert SlabOk(slabs[p]);
      hide SlabOk;
      var i := TakeFrom(p);
      r := Some((p, i));
    }

    /** cbuf_alloc, up to the size of a page: the object returned is large enough, and of the least such class. */
    method AllocSize(size: bv32, spare: Option<(nat, nat)>) returns (r: Option<(nat, nat)>)
      requires Valid() && size <= 4096 && (spare.Some? ==> spare.value.0 !in slabs)
      modifies this`slabs, this`lists
      ensures Valid() && (r.None? ==> slabs == old(slabs) && lists == old(lists) && spare.None?)
      ensures r.Some? ==> NowLive(old(slabs), slabs, r.value.0, r.value.1)
      ensures r.Some? ==> exists fl: nat :: fl < CLASSES && slabs[r.value.0].objSz == SizeOf(fl) && FitsClass(size, fl)
    {
      hide OrderFor;
      hide FitsClass;
      hide SizeOf;
      hide IsLive;
      hide SlabsOk;
      hide ListsOk;
      OrderIsLeast(size);
      var o := OrderFor(size);
      ClassFits(size, o);
      var fl := ClassOf(o);
      assert fl < CLASSES && FitsClass(size, fl);
      hide ClassOf;
      r := Alloc(fl, spare);
    }

    /** The lowest free object of a slab that is on its freelist. */
    method TakeFrom(p: nat) returns (v: nat)
      requires Valid() && p in slabs && slabs[p].nfree > 0
      modifies this`slabs, this`lists
      ensures Valid() && slabs.Keys == old(slabs).Keys && NowLive(old(slabs), slabs, p, v)
      ensures slabs[p].objSz == old(slabs)[p].objSz
    {
      hide Has;
      hide SizeOf;
      hide PerPage;
      hide FreeCount;
      hide BitmapUnset;
      var s := slabs[p];
      assert SlabOk(s) && |s.bitmap| == SLAB_BITMAP_SIZE;
      SizesDividePage(s.flh);
      var idx := BitmapOne(s.bitmap);
      LowestIsObject(s, idx);
      v := idx;
      TakenOk(s, v);
      hide SlabOk;
      var n := Taken(s, v);
      var l := lists[s.flh];
      if n.nfree == 0 {
        l := Without(l, p);
        OffList(lists[s.flh], p);
      }
      ListsFollow(slabs, lists, p, n, l);
      hide ListsOk;
      BecomesLive(slabs, p, v, n);
      hide IsLive;
      slabs := slabs[p := n];
      lists := lists[s.flh := l];
    }

    /** __cbuf_free: the object at the address is free again, and nothing else changes. */
    method Free(buf: nat)
      requires Valid() && buf / PAGE_SIZE in slabs
      requires !Has(slabs[buf / PAGE_SIZE].bitmap, IndexAt(slabs[buf / PAGE_SIZE], buf))
      modifies this`slabs, this`lists
      ensures Valid() && slabs.Keys == old(slabs).Keys
      ensures NowLive(slabs, old(slabs), buf / PAGE_SIZE, IndexAt(old(slabs)[buf / PAGE_SIZE], buf))
    {
      hide Has;
      hide SizeOf;
      hide PerPage;
      hide FreeCount;
      hide BitmapSet;
      hide IndexAt;
      var p := buf / PAGE_SIZE;
      var s := slabs[p];
      assert SlabOk(s) && |s.bitmap| == SLAB_BITMAP_SIZE;
      SizesDividePage(s.flh);
      var v := IndexAt(s, buf);
      IndexInRange(s, buf);
      GivenOk(s, v);
      hide SlabOk;
      var n := Given(s, v);
      var l := lists[s.flh];
      if n.nfree == 1 {
        l := [p] + l;
      }
      ListsFollow(slabs, lists, p, n, l);
      hide ListsOk;
      BecomesFree(slabs, p, v, n);
      hide IsLive;
      slabs := slabs[p := n];
      lists := lists[s.flh := l];
    }
  }

  /** Object i of page p is in use now and was not before; nothing else has changed. */
  ghost predicate NowLive(was: map<nat, Slab>, now: map<nat, Slab>, p: nat, i: nat) {
    && !IsLive(was, p, i) && IsLive(now, p, i)
    && forall q: nat, j: nat :: (q, j) != (p, i) ==> (IsLive(now, q, j) <==> IsLive(was, q, j))
  }

  lemma BecomesLive(slabs: map<nat, Slab>, p: nat, v: nat, n: Slab)
    requires p in slabs && v < n.maxObjs == slabs[p].maxObjs && Has(slabs[p].bitmap, v)
    requires forall u: nat :: Has(n.bitmap, u) <==> u != v && Has(slabs[p].bitmap, u)
    ensures NowLive(slabs, slabs[p := n], p, v)
  {
    hide Has;
  }

  lemma BecomesFree(slabs: map<nat, Slab>, p: nat, v: nat, n: Slab)
    requires p in slabs && v < n.maxObjs == slabs[p].maxObjs && !Has(slabs[p].bitmap, v)
    requires forall u: nat :: Has(n.bitmap, u) <==> u == v || Has(slabs[p].bitmap, u)
    ensures NowLive(slabs[p := n], slabs, p, v)
  {
    hide Has;
  }

  lemma OffList(l: seq<nat>, p: nat)
    requires Distinct(l)
    ensures Distinct(Without(l, p)) && forall q: nat :: q in Without(l, p) <==> q in l && q != p
  {
    WithoutElems(l, p);
    forall q: nat
      ensures q in Without(l, p) <==> q in l && q != p
    {
      assert q in Without(l, p) <==> q in Elems(Without(l, p));
      assert q in l <==> q in Elems(l);
    }
  }

  lemma IndexInRange(s: Slab, buf: nat)
    requires SlabOk(s)
    ensures IndexAt(s, buf) < s.maxObjs
  {
    hide Has;
    hide FreeCount;
    SizesDividePage(s.flh);
    hide SizeOf;
    hide PerPage;
    QuotientBelow(buf % PAGE_SIZE, s.objSz, s.maxObjs);
  }

  /** The address of an object leads back to its page and its index. */
  lemma AddressLeadsBack(s: Slab, p: nat, i: nat)
    requires SlabOk(s) && i < s.maxObjs
    ensures var a := Address(p, i, s.objSz); a / PAGE_SIZE == p && IndexAt(s, a) == i
  {
    hide Has;
    hide FreeCount;
    SizesDividePage(s.flh);
    SlabInPage(s, i);
    hide SlabOk;
    hide SizeOf;
    hide PerPage;
    ExactQuotient(i, s.objSz);
    PageOf(p, i * s.objSz);
  }

  lemma PageOf(p: nat, off: nat)
    requires off < PAGE_SIZE
    ensures (p * PAGE_SIZE + off) / PAGE_SIZE == p && (p * PAGE_SIZE + off) % PAGE_SIZE == off
  {
  }
}
