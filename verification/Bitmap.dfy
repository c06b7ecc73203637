/** Bit tricks and bitmaps of src/components/include/bitmap.h, on 32-bit words. */
module Bitmap {

  const WORD_SIZE: nat := 32

  // ----- counting the ones of a word

  function Pairs(x: bv32): bv32 {
    x - ((x >> 1) & 0x55555555)
  }

  function Nibbles(x: bv32): bv32 {
    ((x >> 2) & 0x33333333) + (x & 0x33333333)
  }

  function Bytes(x: bv32): bv32 {
    ((x >> 4) + x) & 0x0F0F0F0F
  }

  function AddBytes(x: bv32): bv32 {
    var y := x + (x >> 8);
    (y + (y >> 16)) & 0x3f
  }

  /** ones: the additions of neighbouring fields, one after the other. */
  function Ones(x: bv32): bv32 {
    AddBytes(Bytes(Nibbles(Pairs(x))))
  }

  /** The number of ones in the lowest eight bits, bit by bit. */
  function LowOnes(x: bv32): bv32 {
    (x & 1) + ((x >> 1) & 1) + ((x >> 2) & 1) + ((x >> 3) & 1)
    + ((x >> 4) & 1) + ((x >> 5) & 1) + ((x >> 6) & 1) + ((x >> 7) & 1)
  }

  lemma FirstByte(x: bv32)
    ensures Bytes(Nibbles(Pairs(x))) & 0xFF == LowOnes(x) <= 8
  {
  }

  lemma SecondByte(x: bv32)
    ensures (Bytes(Nibbles(Pairs(x))) >> 8) & 0xFF == LowOnes(x >> 8) <= 8
  {
  }

  lemma ThirdByte(x: bv32)
    ensures (Bytes(Nibbles(Pairs(x))) >> 16) & 0xFF == LowOnes(x >> 16) <= 8
  {
  }

  lemma FourthByte(x: bv32)
    ensures (Bytes(Nibbles(Pairs(x))) >> 24) & 0xFF == LowOnes(x >> 24) <= 8
  {
  }

  lemma BytesAdded(c: bv32)
    requires c & 0xFF <= 8 && (c >> 8) & 0xFF <= 8 && (c >> 16) & 0xFF <= 8 && (c >> 24) & 0xFF <= 8
    ensures AddBytes(c) == (c & 0xFF) + ((c >> 8) & 0xFF) + ((c >> 16) & 0xFF) + ((c >> 24) & 0xFF)
  {
  }

  /** Ones counts the bits that are one. */
  lemma OnesCounts(x: bv32)
    ensures Ones(x) == LowOnes(x) + LowOnes(x >> 8) + LowOnes(x >> 16) + LowOnes(x >> 24)
  {
    hide *;
    FirstByte(x);
    SecondByte(x);
    ThirdByte(x);
    FourthByte(x);
    BytesAdded(Bytes(Nibbles(Pairs(x))));
    OnesSteps(x);
  }

  lemma OnesSteps(x: bv32)
    ensures Ones(x) == AddBytes(Bytes(Nibbles(Pairs(x))))
  {
  }

  // ----- logarithms

  /** ls_one: the least significant one. */
  function LsOne(x: bv32): bv32 {
    x & (0 - x)
  }

  /** The word with all bits set below its most significant one. */
  function Smear(x: bv32): bv32 {
    var a := x | (x >> 1);
    var b := a | (a >> 2);
    var c := b | (b >> 4);
    var d := c | (c >> 8);
    d | (d >> 16)
  }

  function Log32Floor(x: bv32): bv32 {
    Ones(Smear(x) >> 1)
  }

  function Log32(x: bv32): bv32 {
    var y := x & (x - 1);
    Ones(Smear(x) >> 1) - ((y | (0 - y)) >> 31)
  }

  predicate SingleBit(x: bv32) {
    x != 0 && x & (x - 1) == 0
  }

  lemma OnesOfSingle(x: bv32)
    ensures Ones(x) == 1 <==> SingleBit(x)
  {
  }

  lemma LsOneIsSingle(x: bv32)
    requires x != 0
    ensures SingleBit(LsOne(x)) && x & LsOne(x) != 0 && x & (LsOne(x) - 1) == 0
  {
  }

  /** f is the logarithm of x, rounded down. */
  ghost predicate IsFloor(x: bv32, f: bv32) {
    f < 32 && (1 as bv32) << f <= x && (f < 31 ==> x < (1 as bv32) << (f + 1))
  }

  lemma FloorIsFloor(x: bv32)
    requires x != 0
    ensures IsFloor(x, Log32Floor(x))
  {
  }

  /** On any other word that is not zero, log32 is one less than the logarithm rounded down. */
  lemma LogOfOthers(x: bv32)
    requires x != 0 && !SingleBit(x)
    ensures Log32(x) == Log32Floor(x) - 1 && Log32Floor(x) >= 1
  {
    hide Ones;
    hide Smear;
    SignOfOthers(x & (x - 1));
    assert Log32(x) == Log32Floor(x) - 1;
    FloorIsFloor(x);
    if Log32Floor(x) == 0 {
      OneIsSingle(x);
    }
  }

  lemma SignOfOthers(y: bv32)
    requires y != 0
    ensures (y | (0 - y)) >> 31 == 1
  {
  }

  lemma OneIsSingle(x: bv32)
    requires IsFloor(x, 0)
    ensures SingleBit(x)
  {
  }

  /** On a word with a single one, log32 is the place of that bit. */
  lemma LogOfSingle(x: bv32)
    requires SingleBit(x)
    ensures Log32(x) < 32 && x == (1 as bv32) << Log32(x)
  {
  }

  // ----- the bits of a word

  function Pos(k: nat): (b: bv32)
    requires k < WORD_SIZE
    ensures b < 32 && b as nat == k
  {
    if k == 0 then 0 else Pos(k - 1) + 1
  }

  lemma PosOf(b: bv32)
    requires b < 32
    ensures b as nat < WORD_SIZE && Pos(b as nat) == b
  {
    assert Pos(b as nat) as nat == b as nat;
  }

  function Mask(k: nat): bv32
    requires k < WORD_SIZE
  {
    (1 as bv32) << Pos(k)
  }

  predicate Misses(w: bv32, m: bv32) {
    w & m == 0
  }

  /** __bitmap_set and __bitmap_unset, for the mask of a bit. */
  function Insert(w: bv32, m: bv32): bv32 {
    w | m
  }

  function Erase(w: bv32, m: bv32): bv32 {
    w & !m
  }

  predicate Bit(w: bv32, k: nat)
    requires k < WORD_SIZE
  {
    !Misses(w, Mask(k))
  }

  lemma MasksDisjoint(j: nat, k: nat)
    requires j < WORD_SIZE && k < WORD_SIZE
    ensures Misses(Mask(j), Mask(k)) <==> j != k
  {
    hide Pos;
    hide Misses;
    if j != k {
      assert Pos(j) != Pos(k);
      ShiftsDisjoint(Pos(j), Pos(k));
    } else {
      ShiftNotZero(Pos(j));
    }
  }

  lemma ShiftNotZero(a: bv32)
    requires a < 32
    ensures !Misses((1 as bv32) << a, (1 as bv32) << a)
  {
  }

  lemma ShiftsDisjoint(a: bv32, b: bv32)
    requires a < 32 && b < 32 && a != b
    ensures Misses((1 as bv32) << a, (1 as bv32) << b)
  {
  }

  lemma SetBit(w: bv32, k: nat, j: nat)
    requires j < WORD_SIZE && k < WORD_SIZE
    ensures Bit(Insert(w, Mask(k)), j) <==> j == k || Bit(w, j)
  {
    hide Mask;
    hide Misses;
    hide Insert;
    MasksDisjoint(j, k);
    if j == k {
      OrSame(w, Mask(k));
    } else {
      OrOther(w, Mask(k), Mask(j));
    }
  }

  lemma ClearBit(w: bv32, k: nat, j: nat)
    requires j < WORD_SIZE && k < WORD_SIZE
    ensures Bit(Erase(w, Mask(k)), j) <==> j != k && Bit(w, j)
  {
    hide Mask;
    hide Misses;
    hide Erase;
    MasksDisjoint(j, k);
    if j == k {
      AndSame(w, Mask(k));
    } else {
      AndOther(w, Mask(k), Mask(j));
    }
  }

  lemma OrSame(w: bv32, m: bv32)
    requires !Misses(m, m)
    ensures !Misses(Insert(w, m), m)
  {
  }

  lemma OrOther(w: bv32, m: bv32, n: bv32)
    requires Misses(n, m)
    ensures Misses(Insert(w, m), n) ==> Misses(w, n)
    ensures Misses(w, n) ==> Misses(Insert(w, m), n)
  {
    OrKeeps(w, m, n);
  }

  lemma OrKeeps(w: bv32, m: bv32, n: bv32)
    requires n & m == 0
    ensures (w | m) & n == w & n
  {
  }

  lemma AndSame(w: bv32, m: bv32)
    ensures Misses(Erase(w, m), m)
  {
  }

  lemma AndOther(w: bv32, m: bv32, n: bv32)
    requires Misses(n, m)
    ensures Misses(Erase(w, m), n) ==> Misses(w, n)
    ensures Misses(w, n) ==> Misses(Erase(w, m), n)
  {
    AndKeeps(w, m, n);
  }

  lemma AndKeeps(w: bv32, m: bv32, n: bv32)
    requires n & m == 0
    ensures (w & !m) & n == w & n
  {
  }

  /** The place of the lowest one, by the bit tricks. */
  function Lowest(w: bv32): bv32 {
    Log32(LsOne(w))
  }

  lemma LowestMask(w: bv32)
    requires w != 0
    ensures Lowest(w) < 32 && !Misses(w, (1 as bv32) << Lowest(w)) && Misses(w, ((1 as bv32) << Lowest(w)) - 1)
  {
    LsOneIsSingle(w);
    LogOfSingle(LsOne(w));
    hide Log32;
    hide LsOne;
    hide SingleBit;
  }

  /** log32 of ls_one is the place of the lowest one. */
  lemma LowestBit(w: bv32)
    requires w != 0
    ensures Lowest(w) as nat < WORD_SIZE && Bit(w, Lowest(w) as nat)
  {
    hide Lowest;
    hide Misses;
    hide Pos;
    LowestMask(w);
    PosOf(Lowest(w));
  }

  lemma NoneLower(w: bv32, j: nat)
    requires w != 0 && j < WORD_SIZE && j < Lowest(w) as nat
    ensures !Bit(w, j)
  {
    hide Lowest;
    hide Misses;
    hide Pos;
    LowestMask(w);
    PosBelow(j, Lowest(w));
    BelowMask(w, Pos(j), Lowest(w));
  }

  lemma PosBelow(j: nat, b: bv32)
    requires j < WORD_SIZE && b < 32 && j < b as nat
    ensures Pos(j) < b
  {
  }

  lemma BelowMask(w: bv32, a: bv32, b: bv32)
    requires a < b < 32 && Misses(w, ((1 as bv32) << b) - 1)
    ensures Misses(w, (1 as bv32) << a)
  {
  }

  lemma ZeroHasNoBits(j: nat)
    requires j < WORD_SIZE
    ensures !Bit(0, j)
  {
  }

  lemma AllOnes(j: nat)
    requires j < WORD_SIZE
    ensures Bit(0xFFFF_FFFF, j)
  {
    hide Mask;
    MasksDisjoint(j, j);
    AllMeet(Mask(j));
  }

  lemma AllMeet(m: bv32)
    requires !Misses(m, m)
    ensures !Misses(0xFFFF_FFFF, m)
  {
  }

  // ----- bitmaps

  predicate Has(x: seq<bv32>, v: nat) {
    v / WORD_SIZE < |x| && Bit(x[v / WORD_SIZE], v % WORD_SIZE)
  }

  /** bitmap_set. */
  function BitmapSet(x: seq<bv32>, v: nat): seq<bv32>
    requires v < WORD_SIZE * |x|
  {
    x[v / WORD_SIZE := Insert(x[v / WORD_SIZE], Mask(v % WORD_SIZE))]
  }

  /** bitmap_unset. */
  function BitmapUnset(x: seq<bv32>, v: nat): seq<bv32>
    requires v < WORD_SIZE * |x|
  {
    x[v / WORD_SIZE := Erase(x[v / WORD_SIZE], Mask(v % WORD_SIZE))]
  }

  lemma HasAfterSet(x: seq<bv32>, v: nat, u: nat)
    requires v < WORD_SIZE * |x|
    ensures Has(BitmapSet(x, v), u) <==> u == v || Has(x, u)
  {
    hide Bit;
    hide Mask;
    if u / WORD_SIZE == v / WORD_SIZE {
      SetBit(x[v / WORD_SIZE], v % WORD_SIZE, u % WORD_SIZE);
    }
  }

  lemma HasAfterUnset(x: seq<bv32>, v: nat, u: nat)
    requires v < WORD_SIZE * |x|
    ensures Has(BitmapUnset(x, v), u) <==> u != v && Has(x, u)
  {
    hide Bit;
    hide Mask;
    if u / WORD_SIZE == v / WORD_SIZE {
      ClearBit(x[v / WORD_SIZE], v % WORD_SIZE, u % WORD_SIZE);
    }
  }

  /** bitmap_one: the lowest one of a bitmap, or -1. */
  method BitmapOne(x: seq<bv32>) returns (v: int)
    ensures -1 <= v < WORD_SIZE * |x|
    ensures v >= 0 ==> Has(x, v) && forall u: nat :: u < v ==> !Has(x, u)
    ensures v == -1 ==> forall u: nat :: !Has(x, u)
  {
    hide Bit;
    hide Lowest;
    for i := 0 to |x|
      invariant forall u: nat :: u < WORD_SIZE * i ==> !Has(x, u)
    {
      if x[i] != 0 {
        var order := Lowest(x[i]) as nat;
        LowestBit(x[i]);
        forall u: nat | u < i * WORD_SIZE + order
          ensures !Has(x, u)
        {
          if u >= i * WORD_SIZE {
            NoneLower(x[i], u % WORD_SIZE);
          }
        }
        return i * WORD_SIZE + order;
      }
      forall u: nat | i * WORD_SIZE <= u < (i + 1) * WORD_SIZE
        ensures !Has(x, u)
      {
        ZeroHasNoBits(u % WORD_SIZE);
      }
    }
    v := -1;
  }
}
