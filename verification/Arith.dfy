/** The few facts about products that the address arithmetic needs. */
module Arith {

  lemma MulLe(a: nat, b: nat, c: nat)
    requires a <= b
    ensures a * c <= b * c
  {
  }

  lemma MulCancel(a: nat, b: nat, c: nat)
    requires a * c < b * c
    ensures a < b
  {
    if b <= a {
      MulLe(b, a, c);
    }
  }

  lemma MulInjective(a: nat, b: nat, c: nat)
    requires c > 0 && a * c == b * c
    ensures a == b
  {
    assert a * c / c == a by { DivMul(a, c); }
    assert b * c / c == b by { DivMul(b, c); }
  }

  lemma DivMul(q: nat, b: nat)
    requires b > 0
    ensures q * b / b == q
  {
    var x := q * b;
    var d, m := x / b, x % b;
    assert x == b * d + m && 0 <= m < b;
    MulAdd(d, 1, b);
    MulAdd(q, 1, b);
    MulCancel(q, d + 1, b);
    MulCancel(d, q + 1, b);
  }

  lemma MulAdd(a: nat, b: nat, c: nat)
    ensures (a + b) * c == a * c + b * c
  {
  }

  /** Rounding down to a multiple of b. */
  lemma RoundDown(x: nat, b: nat)
    requires b > 0
    ensures 0 <= x / b * b <= x < x / b * b + b
  {
    var q := x / b;
    assert x == b * q + x % b;
  }

  /** A multiple of b below another leaves room for b more. */
  lemma RoomForOne(x: nat, q: nat, b: nat, m: nat)
    requires x == q * b && x < m * b
    ensures x + b <= m * b
  {
    MulCancel(q, m, b);
    MulLe(q + 1, m, b);
    MulAdd(q, 1, b);
  }

  /** The i-th of n slices ends inside the whole. */
  lemma SliceEnds(i: nat, n: nat, width: nat)
    requires i < n
    ensures i * width + width <= n * width
  {
    MulLe(i + 1, n, width);
    MulAdd(i, 1, width);
  }

  /** A number lies in one slot only. */
  lemma OneSlot(g: nat, h: nat, b: nat, x: nat)
    requires g * b <= x < (g + 1) * b && h * b <= x < (h + 1) * b
    ensures g == h
  {
    MulCancel(g, h + 1, b);
    MulCancel(h, g + 1, b);
  }

  /** Slice i of a whole that starts at a multiple of itself is at a multiple of the slice. */
  lemma SliceIndex(q: nat, n: nat, width: nat, i: nat)
    ensures q * (n * width) + i * width == (q * n + i) * width
  {
    assert q * (n * width) == q * n * width;
    MulAdd(q * n, i, width);
  }

  /** The i-th of n slices of a block below the modulus: it does not wrap, and ends inside the block. */
  lemma SliceInside(base: nat, i: nat, n: nat, width: nat, total: nat, modulus: nat)
    requires i < n && width > 0 && total == n * width && base + total <= modulus
    ensures (base + i * width % modulus) % modulus == base + i * width
    ensures base + i * width + width <= base + total
  {
    SliceEnds(i, n, width);
    NoWrap(base, i * width, modulus);
  }

  lemma SliceSlot(base: nat, q: nat, n: nat, width: nat, total: nat, i: nat)
    requires base == q * total && total == n * width
    ensures base + i * width == (q * n + i) * width
  {
    SliceIndex(q, n, width, i);
  }

  /** Unsigned addition below the modulus is plain addition. */
  lemma NoWrap(base: nat, offset: nat, modulus: nat)
    requires base + offset < modulus
    ensures (base + offset % modulus) % modulus == base + offset
  {
  }
}
