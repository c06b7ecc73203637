/** Products, quotients and powers of two. */
module Arith {

  lemma Mono(q: int, n: int, d: nat)
    requires q >= n
    ensures q * d >= n * d
  {
  }

  lemma QuotientBelow(off: nat, size: nat, max: nat)
    requires off < size * max && size > 0
    ensures off / size < max
  {
    assert off == off / size * size + off % size;
    if off / size >= max {
      Mono(off / size, max, size);
    }
  }

  lemma ExactQuotient(i: nat, size: nat)
    requires size > 0
    ensures i * size / size == i
  {
    var q := i * size / size;
    assert i * size == q * size + i * size % size;
    if q < i {
      Mono(i, q + 1, size);
    } else if q > i {
      Mono(q, i + 1, size);
    }
  }

  ghost function Power(n: nat): (r: nat)
    ensures r > 0
  {
    if n == 0 then 1 else 2 * Power(n - 1)
  }
}
