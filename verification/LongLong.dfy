/** Two-word multiplication and division from half words (src/components/lib/dietlibc-0.29/longlong.h), for any
    word of an even number of bits: B stands for two to the power of half that number, and words wrap at B * B. */
module LongLong {
  import opened Arith

  /** The base of a half word. */
  predicate IsBase(B: nat) {
    B >= 2 && B % 2 == 0
  }

  predicate IsWord(B: nat, x: int) {
    0 <= x < B * B
  }

  function LowPart(B: nat, x: nat): nat
    requires B > 0
  {
    x % B
  }

  function HighPart(B: nat, x: nat): nat
    requires B > 0
  {
    x / B
  }

  /** Addition, subtraction and multiplication of words. */
  function Plus(B: nat, x: nat, y: nat): nat
    requires B > 0
  {
    (x + y) % (B * B)
  }

  function Minus(B: nat, x: nat, y: nat): nat
    requires B > 0
  {
    (x - y) % (B * B)
  }

  function Times(B: nat, x: nat, y: nat): nat
    requires B > 0
  {
    (x * y) % (B * B)
  }

  /** The bitwise or of a word whose lower half is 0 and a half word. */
  function Or(B: nat, high: nat, low: nat): nat
    requires B > 0 && high % B == 0 && low < B
  {
    high + low
  }

  // ----- arithmetic

  lemma Split(B: nat, x: nat)
    requires B > 0 && x < B * B
    ensures x == HighPart(B, x) * B + LowPart(B, x) && HighPart(B, x) < B && LowPart(B, x) < B
  {
    QuotientBound(B, x / B, x % B, B);
  }

  /** A quotient is below n if the dividend is below n times the divisor. */
  lemma QuotientBound(d: nat, q: int, r: nat, n: int)
    requires q * d + r < n * d
    ensures q < n
  {
    if q >= n {
      Mono(q, n, d);
    }
  }

  lemma NoWrap(W: nat, x: int)
    requires 0 <= x < W
    ensures x % W == x
  {
  }

  lemma WrapOnce(W: nat, x: int)
    requires W <= x < 2 * W
    ensures x % W == x - W
  {
    assert x == W + (x - W);
    ModPlus(W, x - W);
  }

  lemma ModPlus(W: nat, y: int)
    requires 0 <= y < W
    ensures (W + y) % W == y
  {
  }

  lemma Product(B: nat, x: nat, y: nat)
    requires x < B && y < B
    ensures 0 <= x * y <= (B - 1) * (B - 1)
  {
    assert x * y <= (B - 1) * y <= (B - 1) * (B - 1);
  }

  lemma Square(B: nat)
    requires B >= 1
    ensures (B - 1) * (B - 1) == B * B - 2 * B + 1
  {
  }

  // ----- multiplication

  /** umul_ppmm. */
  method UmulPpmm(B: nat, u: nat, v: nat) returns (w1: nat, w0: nat)
    requires IsBase(B) && IsWord(B, u) && IsWord(B, v)
    ensures IsWord(B, w1) && IsWord(B, w0) && w1 * (B * B) + w0 == u * v
  {
    hide *;
    BaseFacts(B);
    WordFacts(B, u);
    WordFacts(B, v);
    var ul, uh := LowPart(B, u), HighPart(B, u);
    var vl, vh := LowPart(B, v), HighPart(B, v);
    HalfProducts(B, ul, uh, vl, vh);
    var x0, x1, x2, x3 := Times(B, ul, vl), Times(B, ul, vh), Times(B, uh, vl), Times(B, uh, vh);
    ghost var y1, y3 := x1, x3;
    Split(B, x0);
    PlusExact(B, x1, HighPart(B, x0));
    x1 := Plus(B, x1, HighPart(B, x0));
    ghost var c := PlusCarry(B, x1, x2);
    x1 := Plus(B, x1, x2);
    if x1 < x2 {
      PlusExact(B, x3, B);
      x3 := Plus(B, x3, B);
    }
    Split(B, x1);
    WholeProduct(B, ul, uh, vl, vh);
    Assembled(B, x0, y1, x2, y3, c, HighPart(B, x1), LowPart(B, x1), HighPart(B, x0), LowPart(B, x0), u * v);
    PlusExact(B, x3, HighPart(B, x1));
    w1 := Plus(B, x3, HighPart(B, x1));
    TimesExact(B, LowPart(B, x1), B);
    PlusExact(B, LowPart(B, x1) * B, LowPart(B, x0));
    w0 := Plus(B, Times(B, LowPart(B, x1), B), LowPart(B, x0));
    MakeWord(B, w1);
    MakeWord(B, w0);
  }

  lemma BaseFacts(B: nat)
    requires IsBase(B)
    ensures B >= 2 && B * B >= 2 * B
  {
  }

  lemma WordFacts(B: nat, x: nat)
    requires B > 0 && IsWord(B, x)
    ensures x == HighPart(B, x) * B + LowPart(B, x) && HighPart(B, x) < B && LowPart(B, x) < B && x < B * B
  {
    Split(B, x);
  }

  lemma MakeWord(B: nat, x: nat)
    requires x < B * B
    ensures IsWord(B, x)
  {
  }

  lemma PlusExact(B: nat, x: nat, y: nat)
    requires B > 0 && x + y < B * B
    ensures Plus(B, x, y) == x + y
  {
    NoWrap(B * B, x + y);
  }

  lemma TimesExact(B: nat, x: nat, y: nat)
    requires B > 0 && x * y < B * B
    ensures Times(B, x, y) == x * y
  {
    NoWrap(B * B, x * y);
  }

  /** A sum of two words has wrapped around exactly if it is less than one of them. */
  lemma PlusCarry(B: nat, x: nat, y: nat) returns (c: nat)
    requires B > 0 && x < B * B && y < B * B
    ensures c == (if Plus(B, x, y) < y then 1 else 0) && x + y == Plus(B, x, y) + c * (B * B) && Plus(B, x, y) < B * B
  {
    if x + y < B * B {
      NoWrap(B * B, x + y);
      c := 0;
    } else {
      WrapOnce(B * B, x + y);
      c := 1;
    }
  }

  lemma HalfProducts(B: nat, ul: nat, uh: nat, vl: nat, vh: nat)
    requires B >= 2 && ul < B && uh < B && vl < B && vh < B
    ensures Times(B, ul, vl) == ul * vl <= B * B - 2 * B + 1 && Times(B, ul, vh) == ul * vh <= B * B - 2 * B + 1
    ensures Times(B, uh, vl) == uh * vl <= B * B - 2 * B + 1 && Times(B, uh, vh) == uh * vh <= B * B - 2 * B + 1
  {
    Square(B);
    Product(B, ul, vl);
    Product(B, ul, vh);
    Product(B, uh, vl);
    Product(B, uh, vh);
    NoWrap(B * B, ul * vl);
    NoWrap(B * B, ul * vh);
    NoWrap(B * B, uh * vl);
    NoWrap(B * B, uh * vh);
  }

  /** The parts make up the product p, and nothing is lost to a wrap-around. */
  lemma Assembled(B: nat, x0: nat, x1: nat, x2: nat, x3: nat, c: nat, h1: nat, l1: nat, h0: nat, l0: nat, p: int)
    requires B >= 2 && l1 < B && l0 < B && x0 == h0 * B + l0 && h1 * B + l1 + c * (B * B) == x1 + h0 + x2
    requires p == x3 * (B * B) + B * (x1 + x2) + x0 && p < B * B * (B * B)
    ensures (x3 + c * B + h1) * (B * B) + (l1 * B + l0) == p && l1 * B + l0 < B * B && x3 + c * B + h1 < B * B
  {
    Gathered(B, x3, c, h1, l1, l0);
    Distributed(B, x1, x2, h0);
    Below(B, l1, l0);
    QuotientBound(B * B, x3 + c * B + h1, l1 * B + l0, B * B);
  }

  lemma WholeProduct(B: nat, ul: nat, uh: nat, vl: nat, vh: nat)
    requires B >= 2 && ul < B && uh < B && vl < B && vh < B
    ensures var p := (uh * B + ul) * (vh * B + vl);
            p == uh * vh * (B * B) + B * (ul * vh + uh * vl) + ul * vl && p < B * B * (B * B)
  {
    Multiplied(B, ul, uh, vl, vh);
    Below(B, uh, ul);
    Below(B, vh, vl);
    ProductBelow(B * B, uh * B + ul, vh * B + vl);
  }

  lemma Gathered(B: nat, x3: nat, c: nat, h1: nat, l1: nat, l0: nat)
    ensures (x3 + c * B + h1) * (B * B) + (l1 * B + l0) == x3 * (B * B) + B * (h1 * B + l1 + c * (B * B)) + l0
  {
  }

  lemma Distributed(B: nat, x1: nat, x2: nat, h0: nat)
    ensures B * (x1 + h0 + x2) == B * (x1 + x2) + h0 * B
  {
  }

  lemma Multiplied(B: nat, ul: nat, uh: nat, vl: nat, vh: nat)
    ensures (uh * B + ul) * (vh * B + vl) == uh * vh * (B * B) + B * (ul * vh + uh * vl) + ul * vl
  {
  }

  lemma Below(B: nat, h: nat, l: nat)
    requires h < B && l < B
    ensures h * B + l < B * B
  {
    assert h * B <= (B - 1) * B;
  }

  lemma ProductBelow(S: nat, u: nat, v: nat)
    requires u < S && v < S
    ensures u * v < S * S
  {
    assert u * v <= u * S;
    assert u * S < S * S;
  }

  // ----- division

  /** The correction of an estimated quotient q, for a remainder of x - m: it is at most two too large, which
      the wrap-around of the sums does not hide. */
  method Correct(B: nat, q: nat, x: nat, m: nat, d: nat) returns (q': nat, rem: nat, ghost k: nat)
    requires B > 0 && q < B * B && x < d < B * B && m < B * B <= 2 * d
    requires (x < m ==> q >= 1) && (x + d < m ==> q >= 2)
    ensures k <= q && k <= 2 && q' == q - k && rem < d
    ensures rem == x - m + (if k == 0 then 0 else if k == 1 then d else 2 * d)
  {
    hide *;
    q', rem, k := q, x, 0;
    if rem < m {
      ghost var c := PlusCarry(B, d, x);
      MinusExact(B, q', 1);
      q', rem, k := Minus(B, q', 1), Plus(B, rem, d), 1;
      PlusCommutes(B, x, d);
      if rem >= d {
        if rem < m {
          ghost var c' := PlusCarry(B, rem, d);
          MinusExact(B, q', 1);
          q', rem, k := Minus(B, q', 1), Plus(B, rem, d), 2;
        }
      }
    }
    MinusWraps(B, rem, m);
    rem := Minus(B, rem, m);
  }

  lemma PlusCommutes(B: nat, x: nat, y: nat)
    requires B > 0
    ensures Plus(B, x, y) == Plus(B, y, x)
  {
  }

  lemma MinusExact(B: nat, x: nat, y: nat)
    requires B > 0 && y <= x < B * B
    ensures Minus(B, x, y) == x - y
  {
    NoWrap(B * B, x - y);
  }

  lemma MinusWraps(B: nat, x: nat, y: nat)
    requires B > 0 && x < B * B && y < B * B
    ensures Minus(B, x, y) == if x >= y then x - y else x - y + B * B
  {
    if x >= y {
      NoWrap(B * B, x - y);
    } else {
      Borrow(B * B, x - y);
    }
  }

  lemma Borrow(W: nat, x: int)
    requires 0 <= x + W < W
    ensures x % W == x + W
  {
  }

  /** One half of __udiv_qrnnd_c: the dividend is the remainder r so far, followed by the half word n. */
  method DivideHalf(B: nat, r: nat, n: nat, d: nat) returns (q: nat, rem: nat)
    requires IsBase(B) && IsWord(B, d) && 2 * d >= B * B && r < d && n < B
    ensures q < B && rem < d && q * d + rem == r * B + n
  {
    hide *;
    BaseFacts(B);
    WordFacts(B, d);
    var d1, d0 := HighPart(B, d), LowPart(B, d);
    Normalised(B, d, d1, d0);
    var r', q0 := Modulo(r, d1), Quotient(r, d1);
    DivMod(r, d1);
    Estimate(B, r, n, d, d1, d0, q0, r');
    TimesExact(B, q0, d0);
    TimesExact(B, r', B);
    MultipleOf(B, r');
    var m, x := Times(B, q0, d0), Or(B, Times(B, r', B), n);
    OrIsPlus(B, r' * B, n);
    Mono(r, 0, B);
    Enough(q0, x, m, d, r * B + n);
    ghost var k;
    q, rem, k := Correct(B, q0, x, m, d);
    Corrected(q0, k, d, x, m, rem, r * B + n);
    Below2(B, r, n, d);
    QuotientBound(d, q, rem, B);
  }

  /** A normalised divisor has at least half the base in its upper half. */
  lemma Normalised(B: nat, d: nat, d1: nat, d0: nat)
    requires IsBase(B) && d == d1 * B + d0 && d0 < B && 2 * d >= B * B
    ensures 2 * d1 >= B && d1 > 0
  {
    if 2 * d1 < B {
      Mono(B - 2, 2 * d1, B);
    }
  }

  /** The quotient by the upper half of the divisor is at most two too large. */
  lemma EstimateBound(B: nat, r: nat, d1: nat, d0: nat, q: nat, r': nat)
    requires d0 < B <= 2 * d1 && r < d1 * B + d0 && r == q * d1 + r'
    ensures q <= B + 1
  {
    Times2(d1, B);
    QuotientBound(d1, q, r', B + 2);
  }

  lemma RemainderBound(B: nat, d1: nat, d0: nat, r': nat, n: nat)
    requires r' < d1 < B && n < B
    ensures r' * B + n < d1 * B + d0 && r' * B < B * B
  {
    Mono(d1 - 1, r', B);
    Times2(d1, B);
    Mono(B, r', B);
    Below(B, r', 0);
  }

  lemma Estimate(B: nat, r: nat, n: nat, d: nat, d1: nat, d0: nat, q: nat, r': nat)
    requires B >= 2 && d == d1 * B + d0 && d0 < B <= 2 * d1 && d1 < B && r < d && n < B
    requires r == q * d1 + r' && r' < d1
    ensures q * d0 < B * B && r' * B < B * B && r' * B + n < d && q < B * B
    ensures q * d + (r' * B + n) - q * d0 == r * B + n
  {
    EstimateBound(B, r, d1, d0, q, r');
    EstimateProduct(B, q, d0);
    RemainderBound(B, d1, d0, r', n);
    Recombine(B, q, d1, d0, r', n);
  }

  lemma Times2(d: int, B: int)
    ensures (B + 2) * d == d * B + 2 * d && (d - 1) * B == d * B - B
  {
  }

  lemma EstimateProduct(B: nat, q: nat, d0: nat)
    requires B >= 2 && q <= B + 1 && d0 < B
    ensures q * d0 < B * B && q < B * B
  {
    Mono(B + 1, q, d0);
    Mono(B - 1, d0, B + 1);
    Mono(B, 2, B);
    Squares(B, d0);
  }

  lemma Squares(B: int, d: int)
    ensures (B - 1) * (B + 1) == B * B - 1 && (B + 1) * d == d * (B + 1)
  {
  }

  lemma Recombine(B: nat, q: nat, d1: nat, d0: nat, r': nat, n: nat)
    ensures q * (d1 * B + d0) + (r' * B + n) - q * d0 == (q * d1 + r') * B + n
  {
  }

  lemma MultipleOf(B: nat, x: nat)
    requires B > 0
    ensures x * B % B == 0
  {
    var q, r := Quotient(x * B, B), Modulo(x * B, B);
    DivMod(x * B, B);
    Difference(x, q, B);
    QuotientBound(B, x - q, 0, 1);
    QuotientBound(B, q - x, 0, 1);
    ZeroTimes(B, x - q);
  }

  function Quotient(x: nat, d: nat): nat
    requires d > 0
  {
    x / d
  }

  function Modulo(x: nat, d: nat): nat
    requires d > 0
  {
    x % d
  }

  lemma DivMod(x: nat, d: nat)
    requires d > 0
    ensures x == Quotient(x, d) * d + Modulo(x, d) && Modulo(x, d) < d
  {
  }

  lemma Difference(x: int, q: int, B: int)
    ensures (x - q) * B == x * B - q * B && (q - x) * B == q * B - x * B
  {
  }

  lemma ZeroTimes(B: int, x: int)
    requires x == 0
    ensures x * B == 0
  {
  }

  lemma OrIsPlus(B: nat, high: nat, low: nat)
    requires B > 0 && high % B == 0 && low < B
    ensures Or(B, high, low) == high + low
  {
  }

  lemma Enough(q: nat, x: nat, m: nat, d: nat, p: int)
    requires q * d + x - m == p && d > 0 && p >= 0
    ensures (x < m ==> q >= 1) && (x + d < m ==> q >= 2)
  {
    if q <= 1 {
      Mono(1, q, d);
      if q == 0 {
        ZeroTimes(d, q);
      }
    }
  }

  lemma Corrected(q: nat, k: nat, d: nat, x: nat, m: nat, rem: nat, p: int)
    requires k <= q && k <= 2 && q * d + x - m == p
    requires rem == x - m + (if k == 0 then 0 else if k == 1 then d else 2 * d)
    ensures (q - k) * d + rem == p
  {
    assert (q - k) * d == q * d - k * d;
    assert k * d == if k == 0 then 0 else if k == 1 then d else 2 * d;
  }

  lemma Below2(B: nat, r: nat, n: nat, d: nat)
    requires r < d && n < B
    ensures r * B + n < B * d
  {
    Mono(d - 1, r, B);
  }

  /** __udiv_qrnnd_c: the quotient and the remainder of the two-word number (n1, n0). */
  method UdivQrnnd(B: nat, n1: nat, n0: nat, d: nat) returns (q: nat, r: nat)
    requires IsBase(B) && IsWord(B, d) && IsWord(B, n0) && n1 < d && 2 * d >= B * B
    ensures IsWord(B, q) && r < d && q * d + r == n1 * (B * B) + n0
  {
    hide *;
    BaseFacts(B);
    WordFacts(B, n0);
    var q1, r1 := DivideHalf(B, n1, HighPart(B, n0), d);
    var q0, r0 := DivideHalf(B, r1, LowPart(B, n0), d);
    Below(B, q1, q0);
    TimesExact(B, q1, B);
    MultipleOf(B, q1);
    q := Or(B, Times(B, q1, B), q0);
    OrIsPlus(B, q1 * B, q0);
    r := r0;
    TwoDigits(B, q1, q0, d, r1, n1, HighPart(B, n0), LowPart(B, n0), r0);
    MakeWord(B, q);
  }

  lemma TwoDigits(B: nat, q1: nat, q0: nat, d: nat, r1: nat, n1: nat, h: nat, l: nat, r0: nat)
    requires q1 * d + r1 == n1 * B + h && q0 * d + r0 == r1 * B + l
    ensures (q1 * B + q0) * d + r0 == n1 * (B * B) + (h * B + l)
  {
    calc {
      (q1 * B + q0) * d + r0;
      q1 * d * B + (q0 * d + r0);
      q1 * d * B + r1 * B + l;
      (q1 * d + r1) * B + l;
      (n1 * B + h) * B + l;
      n1 * (B * B) + (h * B + l);
    }
  }
}
