/** SGLIB_ARRAY_QUICK_SORT of src/components/lib/sglib-1.0.4/sglib.h: an array is sorted in place, with an
    explicit stack of the segments that are still to be sorted. */
module QuickSort {
  import opened Arith
  import opened Seqs

  ghost predicate Sorted<T>(le: (T, T) -> bool, s: seq<T>) {
    forall x, y :: 0 <= x < y < |s| ==> le(s[x], s[y])
  }

  /** Only the segment from lo to hi has been touched, and only rearranged. */
  ghost predicate Rearranged<T>(was: seq<T>, now: seq<T>, lo: nat, hi: nat) {
    && |was| == |now| && lo <= hi <= |was|
    && (forall x :: 0 <= x < |was| && !(lo <= x < hi) ==> now[x] == was[x])
    && (forall y :: lo <= y < hi ==> FoundIn(was, lo, hi, now[y]))
  }

  ghost predicate FoundIn<T>(s: seq<T>, lo: nat, hi: nat, v: T) {
    exists z :: lo <= z < hi <= |s| && s[z] == v
  }

  lemma RearrangedTrans<T>(a: seq<T>, b: seq<T>, c: seq<T>, lo: nat, hi: nat)
    requires Rearranged(a, b, lo, hi) && Rearranged(b, c, lo, hi)
    ensures Rearranged(a, c, lo, hi)
  {
    forall y | lo <= y < hi
      ensures FoundIn(a, lo, hi, c[y])
    {
      var z :| lo <= z < hi && b[z] == c[y];
      assert FoundIn(a, lo, hi, b[z]);
    }
  }

  // ----- exchanges

  ghost function Exchanged<T>(s: seq<T>, x: nat, y: nat): seq<T>
    requires x < |s| && y < |s|
  {
    s[x := s[y]][y := s[x]]
  }

  lemma ExchangeRearranges<T>(s: seq<T>, x: nat, y: nat, lo: nat, hi: nat)
    requires lo <= x < hi <= |s| && lo <= y < hi
    ensures Rearranged(s, Exchanged(s, x, y), lo, hi) && multiset(Exchanged(s, x, y)) == multiset(s)
  {
    var t := Exchanged(s, x, y);
    forall k | lo <= k < hi
      ensures FoundIn(s, lo, hi, t[k])
    {
      var z := if k == x then y else if k == y then x else k;
      assert s[z] == t[k];
    }
  }

  method Exchange<T>(a: array<T>, x: nat, y: nat)
    requires x < a.Length && y < a.Length
    modifies a
    ensures a[..] == Exchanged(old(a[..]), x, y)
  {
    var tmp := a[x];
    a[x] := a[y];
    a[y] := tmp;
  }

  // ----- partitioning a segment

  /** The pivot is at i, with nothing greater before it and nothing less behind it. */
  ghost predicate Parted<T>(le: (T, T) -> bool, s: seq<T>, lo: nat, i: nat, hi: nat) {
    && lo <= i < hi <= |s|
    && (forall x :: lo <= x < i ==> le(s[x], s[i]))
    && (forall y :: i < y < hi ==> le(s[i], s[y]))
  }

  /** While partitioning: the pivot is still first, the parts before i and behind j are done. */
  ghost predicate Parting<T>(le: (T, T) -> bool, s: seq<T>, lo: nat, i: nat, j: nat, hi: nat) {
    && lo < i <= j + 1 && j < hi <= |s|
    && (forall x :: lo < x < i ==> le(s[x], s[lo]))
    && (forall y :: j < y < hi ==> le(s[lo], s[y]))
  }

  /** The first inner loop: skips what is not greater than the pivot. */
  method SkipUp<T>(a: array<T>, le: (T, T) -> bool, lo: nat, i: nat, j: nat, ghost hi: nat) returns (k: nat)
    requires hi <= a.Length && Parting(le, a[..], lo, i, j, hi)
    ensures i <= k <= j + 1 && Parting(le, a[..], lo, k, j, hi) && (k <= j ==> !le(a[k], a[lo]))
  {
    k := i;
    while k <= j && le(a[k], a[lo])
      invariant i <= k <= j + 1 && Parting(le, a[..], lo, k, j, hi)
      decreases j + 1 - k
    {
      k := k + 1;
    }
  }

  /** The second inner loop: skips what is not less than the pivot. */
  method SkipDown<T>(a: array<T>, le: (T, T) -> bool, lo: nat, i: nat, j: nat, ghost hi: nat) returns (k: nat)
    requires hi <= a.Length && Parting(le, a[..], lo, i, j, hi) && i <= j
    ensures i <= k + 1 && k <= j && Parting(le, a[..], lo, i, k, hi) && (i <= k ==> !le(a[lo], a[k]))
  {
    k := j;
    while i <= k && le(a[lo], a[k])
      invariant i <= k + 1 && k <= j && Parting(le, a[..], lo, i, k, hi)
      decreases k
    {
      k := k - 1;
    }
  }

  lemma LastExchange<T(!new)>(le: (T, T) -> bool, s: seq<T>, lo: nat, i: nat, j: nat, hi: nat)
    requires TotalPreorder(le) && Parting(le, s, lo, i, j, hi) && i == j + 1 && lo <= j
    ensures Parted(le, Exchanged(s, j, lo), lo, j, hi)
  {
  }

  lemma MiddleExchange<T(!new)>(le: (T, T) -> bool, s: seq<T>, lo: nat, i: nat, j: nat, hi: nat)
    requires TotalPreorder(le) && Parting(le, s, lo, i, j, hi) && i < j && !le(s[i], s[lo]) && !le(s[lo], s[j])
    ensures Parting(le, Exchanged(s, i, j), lo, i + 1, j - 1, hi)
    ensures Parting(le, Exchanged(s, i, j), lo, i, j, hi)
    ensures Parting(le, Exchanged(s, i, j), lo, i + 1, j, hi)
  {
  }

  /** The pivot goes to its place between the two parts. */
  method PlacePivot<T(!new)>(a: array<T>, le: (T, T) -> bool, lo: nat, ghost i: nat, j: nat, ghost hi: nat,
                             ghost was: seq<T>)
    requires TotalPreorder(le) && hi <= a.Length && Parting(le, a[..], lo, i, j, hi) && i == j + 1
    requires Permuted(was, a[..], lo, hi)
    modifies a
    ensures Parted(le, a[..], lo, j, hi) && Permuted(was, a[..], lo, hi)
  {
    LastExchange(le, a[..], lo, i, j, hi);
    ExchangePermutes(was, a[..], j, lo, lo, hi);
    Exchange(a, j, lo);
  }

  /** Only the segment from lo to hi has been touched, and the elements are the same. */
  ghost predicate Permuted<T>(was: seq<T>, now: seq<T>, lo: nat, hi: nat) {
    Rearranged(was, now, lo, hi) && multiset(now) == multiset(was)
  }

  lemma ExchangePermutes<T>(was: seq<T>, s: seq<T>, x: nat, y: nat, lo: nat, hi: nat)
    requires Permuted(was, s, lo, hi) && lo <= x < hi <= |s| && lo <= y < hi
    ensures Permuted(was, Exchanged(s, x, y), lo, hi)
  {
    ExchangeRearranges(s, x, y, lo, hi);
    RearrangedTrans(was, s, Exchanged(s, x, y), lo, hi);
  }

  /** A round of the partitioning loop. */
  method Round<T(!new)>(a: array<T>, le: (T, T) -> bool, lo: nat, i: nat, j: nat, ghost hi: nat, ghost was: seq<T>)
    returns (i': nat, j': nat)
    requires TotalPreorder(le) && hi <= a.Length && Parting(le, a[..], lo, i, j, hi)
    requires i < j && Permuted(was, a[..], lo, hi)
    modifies a
    ensures Permuted(was, a[..], lo, hi)
    ensures if i' < j' then Parting(le, a[..], lo, i', j', hi) else i' == j' && Parted(le, a[..], lo, i', hi)
    ensures i' < j' ==> j' - i' < j - i || (j' - i' == j - i && !old(le(a[i], a[lo])) && le(a[i'], a[lo]))
  {
    hide Permuted;
    hide Exchanged;
    j' := j;
    i' := SkipUp(a, le, lo, i, j, hi);
    if i' > j' {
      PlacePivot(a, le, lo, i', j', hi, was);
      i' := j';
    } else {
      j' := SkipDown(a, le, lo, i', j', hi);
      if i' > j' {
        PlacePivot(a, le, lo, i', j', hi, was);
        i' := j';
      } else if i' < j' {
        MiddleExchange(le, a[..], lo, i', j', hi);
        ExchangePermutes(was, a[..], i', j', lo, hi);
        Exchange(a, i', j');
        if i' + 2 < j' {
          i', j' := i' + 1, j' - 1;
        } else if i' + 1 < j' {
          i' := i' + 1;
        }
      }
    }
  }

  /** The partitioning loop, for a segment of more than two elements. */
  method Partition<T(!new)>(a: array<T>, le: (T, T) -> bool, lo: nat, hi: nat) returns (i: nat)
    requires TotalPreorder(le) && lo + 2 < hi <= a.Length
    modifies a
    ensures Parted(le, a[..], lo, i, hi) && Permuted(old(a[..]), a[..], lo, hi)
  {
    var j: nat;
    i, j := lo + 1, hi - 1;
    assert forall y :: lo <= y < hi ==> FoundIn(a[..], lo, hi, a[..][y]);
    hide Rearranged;
    hide Parted;
    while i < j
      invariant Permuted(old(a[..]), a[..], lo, hi)
      invariant if i < j then Parting(le, a[..], lo, i, j, hi) else i == j && Parted(le, a[..], lo, i, hi)
      decreases j - i, if i < j && le(a[i], a[lo]) then 0 else 1
    {
      i, j := Round(a, le, lo, i, j, hi, old(a[..]));
    }
  }

  // ----- the segments that are still to be sorted

  datatype Seg = Seg(lo: nat, hi: nat)

  /** Positions x and y are in the same segment. */
  ghost predicate Together(segs: seq<Seg>, x: nat, y: nat) {
    exists t :: 0 <= t < |segs| && segs[t].lo <= x && y < segs[t].hi
  }

  ghost predicate Apart(p: Seg, q: Seg) {
    p.hi <= q.lo || q.hi <= p.lo
  }

  ghost predicate Disjoint(segs: seq<Seg>, n: nat) {
    && (forall t :: 0 <= t < |segs| ==> segs[t].lo <= segs[t].hi <= n)
    && (forall t, u :: 0 <= t < u < |segs| ==> Apart(segs[t], segs[u]))
  }

  /** Whatever is out of order is within one of the segments. */
  ghost predicate OrderedOutside<T>(le: (T, T) -> bool, s: seq<T>, segs: seq<Seg>) {
    forall x, y :: 0 <= x < y < |s| ==> le(s[x], s[y]) || Together(segs, x, y)
  }

  ghost predicate Pending<T>(le: (T, T) -> bool, s: seq<T>, segs: seq<Seg>) {
    Disjoint(segs, |s|) && OrderedOutside(le, s, segs)
  }

  lemma {:induction false} TogetherLast(rest: seq<Seg>, p: Seg, x: nat, y: nat)
    ensures Together(rest + [p], x, y) <==> Together(rest, x, y) || (p.lo <= x && y < p.hi)
  {
    if Together(rest, x, y) {
      var t :| 0 <= t < |rest| && rest[t].lo <= x && y < rest[t].hi;
      assert (rest + [p])[t] == rest[t];
    }
    assert (rest + [p])[|rest|] == p;
  }

  /** What is outside a segment is in order with what is inside. */
  lemma Outside<T>(le: (T, T) -> bool, s: seq<T>, rest: seq<Seg>, p: Seg, x: nat, y: nat)
    requires Pending(le, s, rest + [p]) && x < y < |s| && (p.lo <= x < p.hi <= y || (x < p.lo && p.lo <= y < p.hi))
    ensures le(s[x], s[y]) && !Together(rest, x, y)
  {
    TogetherLast(rest, p, x, y);
    forall t | 0 <= t < |rest|
      ensures Apart(rest[t], p)
    {
      assert (rest + [p])[t] == rest[t] && (rest + [p])[|rest|] == p;
    }
  }

  lemma PartedOrder<T(!new)>(le: (T, T) -> bool, was: seq<T>, now: seq<T>, rest: seq<Seg>, lo: nat, i: nat, hi: nat,
                             x: nat, y: nat)
    requires TotalPreorder(le) && Pending(le, was, rest + [Seg(lo, hi)])
    requires Rearranged(was, now, lo, hi) && Parted(le, now, lo, i, hi) && x < y < |was|
    ensures le(now[x], now[y]) || Together(rest, x, y) || (lo <= x && y < i) || (i + 1 <= x && y < hi)
  {
    TogetherLast(rest, Seg(lo, hi), x, y);
    if x < lo <= y < hi {
      assert FoundIn(was, lo, hi, now[y]);
      var z :| lo <= z < hi && was[z] == now[y];
      Outside(le, was, rest, Seg(lo, hi), x, z);
    } else if lo <= x < hi <= y {
      assert FoundIn(was, lo, hi, now[x]);
      var z :| lo <= z < hi && was[z] == now[x];
      Outside(le, was, rest, Seg(lo, hi), z, y);
    }
  }

  /** The parts of a partitioned segment take its place. */
  lemma Subdivided<T(!new)>(le: (T, T) -> bool, was: seq<T>, now: seq<T>, rest: seq<Seg>, lo: nat, i: nat, hi: nat)
    requires TotalPreorder(le) && Pending(le, was, rest + [Seg(lo, hi)])
    requires Rearranged(was, now, lo, hi) && Parted(le, now, lo, i, hi)
    ensures Pending(le, now, rest + [Seg(lo, i)] + [Seg(i + 1, hi)])
    ensures Pending(le, now, rest + [Seg(i + 1, hi)] + [Seg(lo, i)])
  {
    var l, r := Seg(lo, i), Seg(i + 1, hi);
    forall x: nat, y: nat | x < y < |now|
      ensures le(now[x], now[y]) || (Together(rest + [l] + [r], x, y) && Together(rest + [r] + [l], x, y))
    {
      PartedOrder(le, was, now, rest, lo, i, hi, x, y);
      TogetherLast(rest, l, x, y);
      TogetherLast(rest + [l], r, x, y);
      TogetherLast(rest, r, x, y);
      TogetherLast(rest + [r], l, x, y);
    }
    DisjointParts(rest, lo, i, hi, |was|);
  }

  lemma DisjointParts(rest: seq<Seg>, lo: nat, i: nat, hi: nat, n: nat)
    requires Disjoint(rest + [Seg(lo, hi)], n) && lo <= i < hi
    ensures Disjoint(rest + [Seg(lo, i)] + [Seg(i + 1, hi)], n) && Disjoint(rest + [Seg(i + 1, hi)] + [Seg(lo, i)], n)
  {
    var all := rest + [Seg(lo, hi)];
    assert all[|rest|] == Seg(lo, hi) && forall t :: 0 <= t < |rest| ==> all[t] == rest[t];
    assert forall t :: 0 <= t < |rest| ==> Apart(all[t], all[|rest|]);
  }

  /** A segment whose elements are in order is done. */
  lemma Done<T>(le: (T, T) -> bool, s: seq<T>, rest: seq<Seg>, p: Seg)
    requires Pending(le, s, rest + [p]) && p.hi <= |s| && forall x, y :: p.lo <= x < y < p.hi ==> le(s[x], s[y])
    ensures Pending(le, s, rest)
  {
    var all := rest + [p];
    assert forall t :: 0 <= t < |rest| ==> all[t] == rest[t];
    assert all[|rest|] == p;
    forall x: nat, y: nat | x < y < |s|
      ensures le(s[x], s[y]) || Together(rest, x, y)
    {
      TogetherLast(rest, p, x, y);
    }
  }

  /** Rearranging a segment does not matter to what is outside. */
  lemma StillPending<T(!new)>(le: (T, T) -> bool, was: seq<T>, now: seq<T>, rest: seq<Seg>, p: Seg)
    requires Pending(le, was, rest + [p]) && Rearranged(was, now, p.lo, p.hi)
    ensures Pending(le, now, rest + [p])
  {
    forall x: nat, y: nat | x < y < |now|
      ensures le(now[x], now[y]) || Together(rest + [p], x, y)
    {
      TogetherLast(rest, p, x, y);
      if x < p.lo <= y < p.hi {
        assert FoundIn(was, p.lo, p.hi, now[y]);
        var z :| p.lo <= z < p.hi && was[z] == now[y];
        Outside(le, was, rest, p, x, z);
      } else if p.lo <= x < p.hi <= y {
        assert FoundIn(was, p.lo, p.hi, now[x]);
        var z :| p.lo <= z < p.hi && was[z] == now[x];
        Outside(le, was, rest, p, z, y);
      }
    }
  }

  // ----- the height of the stack

  lemma {:induction false} PowerBound(k: nat, n: nat)
    requires k >= n
    ensures Power(k) >= Power(n) >= 1
  {
    if k > n {
      PowerBound(k - 1, n);
    } else if n > 0 {
      PowerBound(n - 1, n - 1);
    }
  }

  /** A segment at depth t of the stack is at most the 2^t-th part of the array. */
  ghost predicate Halving(segs: seq<Seg>, n: nat) {
    forall t :: 0 <= t < |segs| ==> Fits(segs[t], t, n)
  }

  ghost predicate Fits(p: Seg, t: nat, n: nat) {
    p.lo <= p.hi && (p.hi - p.lo) * Power(t) <= n
  }

  lemma HalvingStep(rest: seq<Seg>, p: Seg, big: Seg, small: Seg, n: nat)
    requires Halving(rest + [p], n) && big.lo <= big.hi && small.lo <= small.hi
    requires big.hi - big.lo <= p.hi - p.lo && 2 * (small.hi - small.lo) <= p.hi - p.lo
    ensures Halving(rest + [big] + [small], n)
  {
    hide Fits;
    var all, k := rest + [p], |rest|;
    assert all[k] == p && forall t :: 0 <= t < k ==> all[t] == rest[t];
    FitsAlso(p, big, k, n);
    FitsDeeper(p, small, k, n);
  }

  lemma FitsAlso(p: Seg, q: Seg, k: nat, n: nat)
    requires Fits(p, k, n) && q.lo <= q.hi && q.hi - q.lo <= p.hi - p.lo
    ensures Fits(q, k, n)
  {
    Scaled(q.hi - q.lo, p.hi - p.lo, Power(k));
  }

  lemma FitsDeeper(p: Seg, q: Seg, k: nat, n: nat)
    requires Fits(p, k, n) && q.lo <= q.hi && 2 * (q.hi - q.lo) <= p.hi - p.lo
    ensures Fits(q, k + 1, n)
  {
    Scaled(2 * (q.hi - q.lo), p.hi - p.lo, Power(k));
    Doubled(q.hi - q.lo, Power(k));
  }

  lemma Scaled(x: nat, y: nat, p: nat)
    requires x <= y
    ensures x * p <= y * p
  {
  }

  lemma Doubled(x: nat, p: nat)
    ensures x * (2 * p) == 2 * x * p
  {
  }

  ghost function Total(segs: seq<Seg>): int {
    if segs == [] then 0
    else Total(segs[..|segs| - 1]) + segs[|segs| - 1].hi - segs[|segs| - 1].lo + 1
  }

  lemma TotalLast(rest: seq<Seg>, p: Seg)
    ensures Total(rest + [p]) == Total(rest) + p.hi - p.lo + 1
  {
    assert (rest + [p])[..|rest|] == rest;
  }

  lemma {:induction false} TotalNonNegative(segs: seq<Seg>)
    requires forall t :: 0 <= t < |segs| ==> segs[t].lo <= segs[t].hi
    ensures Total(segs) >= 0
  {
    if segs != [] {
      TotalNonNegative(segs[..|segs| - 1]);
    }
  }

  const SLOTS: nat := 64
  const INT_MAX: nat := 0x7FFF_FFFF

  /** The state of the outer loop: what the stack holds is all that is left to do. */
  ghost predicate Todo<T>(le: (T, T) -> bool, was: seq<T>, now: seq<T>, segs: seq<Seg>) {
    Pending(le, now, segs) && Halving(segs, |now|) && multiset(now) == multiset(was)
  }

  lemma {:induction false} PowerSum(a: nat, b: nat)
    ensures Power(a + b) == Power(a) * Power(b)
  {
    if a > 0 {
      PowerSum(a - 1, b);
      Doubled(Power(b), Power(a - 1));
    }
  }

  /** 2^k is an int only for k below 31. */
  lemma FewDoublings(k: nat)
    ensures Power(k) <= INT_MAX ==> k < 31
  {
    var e := 8;
    assert Power(e) == 256;
    PowerSum(e, e);
    var f := e + e;
    PowerSum(f, e);
    var g := f + e;
    var h := 7;
    assert Power(h) == 128;
    PowerSum(g, h);
    if k >= g + h {
      PowerBound(k, g + h);
    }
  }

  /** There is a free slot to push a part of a segment of more than two elements. */
  lemma FreeSlot(rest: seq<Seg>, p: Seg, n: nat)
    requires Halving(rest + [p], n) && p.lo + 2 < p.hi && n <= INT_MAX
    ensures |rest| < SLOTS && Power(|rest| + 1) <= n
  {
    var k := |rest|;
    assert (rest + [p])[k] == p && Fits(p, k, n);
    hide Halving;
    hide Fits;
    hide Power;
    SizeAtDepth(p, k, n);
    FewDoublings(k);
  }

  lemma SizeAtDepth(p: Seg, k: nat, n: nat)
    requires Fits(p, k, n) && p.lo + 2 < p.hi
    ensures 3 * Power(k) <= n && Power(k + 1) == 2 * Power(k)
  {
    Thrice(p.hi - p.lo, Power(k), n);
    PowerNext(k);
  }

  lemma PowerNext(k: nat)
    ensures Power(k + 1) == 2 * Power(k)
  {
  }

  lemma Thrice(x: nat, p: nat, n: nat)
    requires x >= 3 && x * p <= n
    ensures 3 * p <= n
  {
    Scaled(3, x, p);
  }

  lemma PushBig<T(!new)>(le: (T, T) -> bool, base: seq<T>, was: seq<T>, now: seq<T>, rest: seq<Seg>, lo: nat, i: nat,
                         hi: nat)
    requires TotalPreorder(le) && Todo(le, base, was, rest + [Seg(lo, hi)])
    requires Permuted(was, now, lo, hi) && Parted(le, now, lo, i, hi)
    ensures var l, r := Seg(lo, i), Seg(i + 1, hi);
            if i - lo < hi - i - 1 then Todo(le, base, now, rest + [r] + [l]) else Todo(le, base, now, rest + [l] + [r])
    ensures i - lo <= 1 ==> Todo(le, base, now, rest + [Seg(i + 1, hi)])
    ensures hi - i <= 1 ==> Todo(le, base, now, rest + [Seg(lo, i)])
  {
    var l, r := Seg(lo, i), Seg(i + 1, hi);
    Subdivided(le, was, now, rest, lo, i, hi);
    if i - lo < hi - i - 1 {
      HalvingStep(rest, Seg(lo, hi), r, l, |was|);
    } else {
      HalvingStep(rest, Seg(lo, hi), l, r, |was|);
    }
    if i - lo <= 1 {
      Done(le, now, rest + [r], l);
      HalvingSame(rest, Seg(lo, hi), r, |was|);
    }
    if hi - i <= 1 {
      Done(le, now, rest + [l], r);
      HalvingSame(rest, Seg(lo, hi), l, |was|);
    }
  }

  lemma HalvingSame(rest: seq<Seg>, p: Seg, q: Seg, n: nat)
    requires Halving(rest + [p], n) && q.lo <= q.hi && q.hi - q.lo <= p.hi - p.lo
    ensures Halving(rest + [q], n)
  {
    HalvingStep(rest, p, q, Seg(0, 0), n);
    hide Fits;
    assert forall t :: 0 <= t <= |rest| ==> (rest + [q])[t] == (rest + [q] + [Seg(0, 0)])[t];
  }

  /** The choice after a partition: the larger part goes to the stack, and the smaller one is next. */
  method Choose<T(!new)>(ghost le: (T, T) -> bool, ghost base: seq<T>, ghost was: seq<T>, ghost now: seq<T>,
                         stack: seq<Seg>, k: nat, lo: nat, i: nat, hi: nat)
    returns (stack': seq<Seg>, k': nat, lo': nat, hi': nat)
    requires TotalPreorder(le) && |stack| == SLOTS && k + 1 < SLOTS
    requires Todo(le, base, was, stack[..k] + [Seg(lo, hi)]) && Permuted(was, now, lo, hi) && Parted(le, now, lo, i, hi)
    ensures |stack'| == SLOTS && k <= k' <= k + 1 && lo' <= hi' <= |now| && hi' - lo' < hi - lo
    ensures Todo(le, base, now, stack'[..k'] + [Seg(lo', hi')])
    ensures Total(stack'[..k']) + (hi' - lo') <= Total(stack[..k]) + (hi - lo)
    ensures forall t :: 0 <= t < SLOTS && t != k ==> stack'[t] == stack[t]
  {
    ghost var rest := stack[..k];
    PartedRange(le, now, lo, i, hi);
    PushBig(le, base, was, now, rest, lo, i, hi);
    hide Todo;
    hide Permuted;
    hide Parted;
    stack', k', lo', hi' := stack, k, lo, hi;
    if i - lo > 1 && hi - i > 1 {
      k' := k + 1;
      if i - lo < hi - i - 1 {
        TotalLast(rest, Seg(i + 1, hi));
        stack' := stack[k := Seg(i + 1, hi)];
        assert stack'[..k'] == rest + [Seg(i + 1, hi)];
        hi' := i;
      } else {
        TotalLast(rest, Seg(lo, i));
        stack' := stack[k := Seg(lo, i)];
        assert stack'[..k'] == rest + [Seg(lo, i)];
        lo' := i + 1;
      }
    } else if i - lo > 1 {
      hi' := i;
    } else {
      lo' := i + 1;
    }
  }

  /** The inner loop: sorts the segment down to two elements, and pushes the larger parts on its way. */
  method Reduce<T(!new)>(a: array<T>, le: (T, T) -> bool, stack: seq<Seg>, k: nat, lo: nat, hi: nat, ghost base: seq<T>)
    returns (stack': seq<Seg>, k': nat, lo': nat, hi': nat)
    requires TotalPreorder(le) && |stack| == SLOTS && k < SLOTS && a.Length <= INT_MAX
    requires Todo(le, base, a[..], stack[..k] + [Seg(lo, hi)])
    modifies a
    ensures |stack'| == SLOTS && k' < SLOTS && lo' <= hi' <= lo' + 2 && hi' <= a.Length
    ensures Todo(le, base, a[..], stack'[..k'] + [Seg(lo', hi')])
    ensures Total(stack'[..k']) + (hi' - lo') <= Total(stack[..k]) + (hi - lo)
    ensures forall t :: 0 <= t < SLOTS && Power(t) > a.Length ==> stack'[t] == stack[t]
  {
    hide Permuted;
    hide Parted;
    hide Todo;
    hide Power;
    stack', k', lo', hi' := stack, k, lo, hi;
    TodoFacts(le, base, a[..], stack'[..k'], Seg(lo', hi'));
    while hi' - lo' > 2
      invariant |stack'| == SLOTS && k' < SLOTS && lo' <= hi' <= a.Length
      invariant Todo(le, base, a[..], stack'[..k'] + [Seg(lo', hi')])
      invariant Total(stack'[..k']) + (hi' - lo') <= Total(stack[..k]) + (hi - lo)
      invariant forall t :: 0 <= t < SLOTS && Power(t) > a.Length ==> stack'[t] == stack[t]
      decreases hi' - lo'
    {
      ghost var was := a[..];
      TodoSlot(le, base, was, stack'[..k'], Seg(lo', hi'));
      var i := Partition(a, le, lo', hi');
      stack', k', lo', hi' := Choose(le, base, was, a[..], stack', k', lo', i, hi');
    }
  }

  lemma TodoFacts<T>(le: (T, T) -> bool, base: seq<T>, s: seq<T>, rest: seq<Seg>, p: Seg)
    requires Todo(le, base, s, rest + [p])
    ensures p.lo <= p.hi <= |s|
  {
    assert (rest + [p])[|rest|] == p;
  }

  lemma TodoSlot<T>(le: (T, T) -> bool, base: seq<T>, s: seq<T>, rest: seq<Seg>, p: Seg)
    requires Todo(le, base, s, rest + [p]) && p.lo + 2 < p.hi && |s| <= INT_MAX
    ensures |rest| + 1 < SLOTS && Power(|rest|) <= |s|
  {
    FreeSlot(rest, p, |s|);
    PowerBound(|rest| + 1, |rest|);
    FewDoublings(|rest| + 1);
  }

  lemma PartedRange<T>(le: (T, T) -> bool, s: seq<T>, lo: nat, i: nat, hi: nat)
    requires Parted(le, s, lo, i, hi)
    ensures lo <= i < hi <= |s|
  {
  }

  /** The last two elements of a segment. */
  method FinishPair<T(!new)>(a: array<T>, le: (T, T) -> bool, ghost rest: seq<Seg>, lo: nat, hi: nat,
                             ghost base: seq<T>)
    requires TotalPreorder(le) && lo <= hi <= lo + 2 && hi <= a.Length && Todo(le, base, a[..], rest + [Seg(lo, hi)])
    modifies a
    ensures Todo(le, base, a[..], rest)
  {
    hide Todo;
    if hi - lo == 2 {
      if !le(a[lo], a[hi - 1]) {
        TodoExchanged(le, base, a[..], rest, lo, hi);
        Exchange(a, lo, hi - 1);
      }
    }
    TodoDone(le, base, a[..], rest, Seg(lo, hi));
  }

  lemma TodoExchanged<T(!new)>(le: (T, T) -> bool, base: seq<T>, s: seq<T>, rest: seq<Seg>, lo: nat, hi: nat)
    requires hi == lo + 2 && hi <= |s| && Todo(le, base, s, rest + [Seg(lo, hi)])
    ensures Todo(le, base, Exchanged(s, lo, hi - 1), rest + [Seg(lo, hi)])
  {
    hide Pending;
    hide Halving;
    ExchangeRearranges(s, lo, hi - 1, lo, hi);
    StillPending(le, s, Exchanged(s, lo, hi - 1), rest, Seg(lo, hi));
  }

  lemma TodoDone<T>(le: (T, T) -> bool, base: seq<T>, s: seq<T>, rest: seq<Seg>, p: Seg)
    requires Todo(le, base, s, rest + [p]) && p.hi <= |s| && forall x, y :: p.lo <= x < y < p.hi ==> le(s[x], s[y])
    ensures Todo(le, base, s, rest)
  {
    hide Pending;
    hide Halving;
    Done(le, s, rest, p);
    HalvingRest(rest, p, |s|);
  }

  lemma HalvingRest(rest: seq<Seg>, p: Seg, n: nat)
    requires Halving(rest + [p], n)
    ensures Halving(rest, n)
  {
    assert forall t :: 0 <= t < |rest| ==> (rest + [p])[t] == rest[t];
  }

  /** SGLIB_ARRAY_QUICK_SORT, for any contents of the stack, which is not initialised.  No slot above the logarithm of
      the length of the array is written. */
  method Sort<T(!new)>(a: array<T>, le: (T, T) -> bool, slots: seq<Seg>) returns (stack: seq<Seg>)
    requires TotalPreorder(le) && a.Length <= INT_MAX && |slots| == SLOTS
    modifies a
    ensures Sorted(le, a[..]) && multiset(a[..]) == multiset(old(a[..]))
    ensures |stack| == SLOTS && forall t :: 0 < t < SLOTS && Power(t) > a.Length ==> stack[t] == slots[t]
  {
    hide Todo;
    hide Sorted;
    hide Power;
    stack := slots[0 := Seg(0, a.Length)];
    var k := 1;
    assert stack[..k] == [Seg(0, a.Length)];
    AllTodo(le, a[..]);
    while k > 0
      invariant |stack| == SLOTS && 0 <= k < SLOTS && Todo(le, old(a[..]), a[..], stack[..k])
      invariant forall t :: 0 < t < SLOTS && Power(t) > a.Length ==> stack[t] == slots[t]
      decreases Total(stack[..k])
    {
      k := k - 1;
      ghost var all := stack[..k + 1];
      assert all == stack[..k] + [stack[k]];
      TotalLast(stack[..k], stack[k]);
      TodoTotal(le, old(a[..]), a[..], all);
      var lo, hi;
      stack, k, lo, hi := Reduce(a, le, stack, k, stack[k].lo, stack[k].hi, old(a[..]));
      FinishPair(a, le, stack[..k], lo, hi, old(a[..]));
      TodoTotal(le, old(a[..]), a[..], stack[..k]);
    }
    NothingTodo(le, old(a[..]), a[..], stack[..k]);
  }

  lemma AllTodo<T>(le: (T, T) -> bool, s: seq<T>)
    ensures Todo(le, s, s, [Seg(0, |s|)])
  {
    var segs := [Seg(0, |s|)];
    forall x: nat, y: nat | x < y < |s|
      ensures Together(segs, x, y)
    {
      assert segs[0].lo <= x && y < segs[0].hi;
    }
    assert Power(0) == 1;
  }

  lemma TodoTotal<T>(le: (T, T) -> bool, base: seq<T>, s: seq<T>, segs: seq<Seg>)
    requires Todo(le, base, s, segs)
    ensures Total(segs) >= 0
  {
    TotalNonNegative(segs);
  }

  lemma NothingTodo<T>(le: (T, T) -> bool, base: seq<T>, s: seq<T>, segs: seq<Seg>)
    requires Todo(le, base, s, segs) && segs == []
    ensures Sorted(le, s) && multiset(s) == multiset(base)
  {
    assert forall x: nat, y: nat :: !Together(segs, x, y);
  }
}
