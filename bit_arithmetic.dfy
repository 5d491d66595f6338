/** Facts about division by constants that let the model read bit fields of
    a word as integer arithmetic: bit `k` of `x` is `(x / 2^k) % 2`. */
module BitArithmetic {

  /** Quotient and remainder are unique. */
  lemma DivModUnique(x: int, d: int, q: int, r: int)
    requires d > 0 && 0 <= r < d && x == d * q + r
    ensures x / d == q && x % d == r
  {
    var q0, r0 := x / d, x % d;
    assert x == d * q0 + r0;
    if q > q0 {
      MulGap(d, q, q0);
    } else if q < q0 {
      MulGap(d, q0, q);
    }
  }

  lemma MulGap(d: int, a: int, b: int)
    requires d > 0 && a > b
    ensures d * a - d * b >= d
  {
    MulAtLeast(d, a - b);
    assert d * (a - b) == d * a - d * b;
  }

  lemma MulAtLeast(d: int, k: int)
    requires d > 0 && k >= 1
    ensures d * k >= d
  {
  }

  /** The bit of weight `w` in `low + w * b + 2 * w * m`, where `low < w`, is `b`. */
  lemma BitOf(x: nat, w: nat, low: nat, b: nat, m: nat)
    requires w > 0 && low < w && b < 2
    requires x == low + w * b + 2 * w * m
    ensures (x / w) % 2 == b
  {
    assert x == w * (b + 2 * m) + low;
    DivModUnique(x, w, b + 2 * m, low);
    DivModUnique(b + 2 * m, 2, m, b);
  }

  /** A bit below bit 9 of `x` is the same bit of `x % 512`; `c` is `512 / w`. */
  lemma LowBitOf(x: nat, w: nat, c: nat)
    requires w > 0 && c % 2 == 0 && w * c == 512
    ensures (x / w) % 2 == ((x % 512) / w) % 2
  {
    var q, r := x / 512, x % 512;
    var rq, rr := r / w, r % w;
    assert x == 512 * q + r;
    assert x == w * (c * q + rq) + rr by {
      assert 512 * q == w * c * q;
    }
    DivModUnique(x, w, c * q + rq, rr);
    assert c * q + rq == 2 * ((c / 2) * q) + rq;
    assert rq == rq % 2 + 2 * (rq / 2);
    DivModUnique(c * q + rq, 2, (c / 2) * q + rq / 2, rq % 2);
  }

  /** The ten bit fields of a word assembled from ten single bits (positions 0 to
      8 and 63) and a page-aligned address below 2^52. */
  lemma BitsOfSum(x: nat, p: nat, w: nat, u: nat, t: nat, n: nat, ac: nat, d: nat, h: nat, g: nat,
                  nx: nat, a: nat)
    requires p < 2 && w < 2 && u < 2 && t < 2 && n < 2 && ac < 2 && d < 2 && h < 2 && g < 2 && nx < 2
    requires x == p * 0x1 + w * 0x2 + u * 0x4 + t * 0x8 + n * 0x10 + ac * 0x20 + d * 0x40 + h * 0x80
      + g * 0x100 + nx * 0x8000_0000_0000_0000 + 4096 * a
    requires a < 0x100_0000_0000
    ensures x % 2 == p && (x / 0x2) % 2 == w && (x / 0x4) % 2 == u && (x / 0x8) % 2 == t
    ensures (x / 0x10) % 2 == n && (x / 0x20) % 2 == ac && (x / 0x40) % 2 == d && (x / 0x80) % 2 == h
    ensures (x / 0x100) % 2 == g && (x / 0x8000_0000_0000_0000) % 2 == nx
    ensures (x % 0x10_0000_0000_0000) / 4096 * 4096 == 4096 * a
  {
    LowBitsOfSum(x, p, w, u, t, n, ac, d, h, g, nx, a);
    HighBitsOfSum(x, p, w, u, t, n, ac, d, h, g, nx, a);
    AddressOfSum(x, p, w, u, t, n, ac, d, h, g, nx, a);
  }

  /** Bits 0 to 4 of such a word. */
  lemma LowBitsOfSum(x: nat, p: nat, w: nat, u: nat, t: nat, n: nat, ac: nat, d: nat, h: nat, g: nat,
                  nx: nat, a: nat)
    requires p < 2 && w < 2 && u < 2 && t < 2 && n < 2 && ac < 2 && d < 2 && h < 2 && g < 2 && nx < 2
    requires x == p * 0x1 + w * 0x2 + u * 0x4 + t * 0x8 + n * 0x10 + ac * 0x20 + d * 0x40 + h * 0x80
      + g * 0x100 + nx * 0x8000_0000_0000_0000 + 4096 * a
    requires a < 0x100_0000_0000
    ensures x % 2 == p && (x / 0x2) % 2 == w && (x / 0x4) % 2 == u && (x / 0x8) % 2 == t
    ensures (x / 0x10) % 2 == n
  {
    BitOf(x, 0x1, 0, p, w * 0x1 + u * 0x2 + t * 0x4 + n * 0x8 + ac * 0x10 + d * 0x20 + h * 0x40
      + g * 0x80 + nx * 0x4000_0000_0000_0000 + 0x800 * a);
    BitOf(x, 0x2, p * 0x1, w, u * 0x1 + t * 0x2 + n * 0x4 + ac * 0x8 + d * 0x10 + h * 0x20
      + g * 0x40 + nx * 0x2000_0000_0000_0000 + 0x400 * a);
    BitOf(x, 0x4, p * 0x1 + w * 0x2, u, t * 0x1 + n * 0x2 + ac * 0x4 + d * 0x8 + h * 0x10
      + g * 0x20 + nx * 0x1000_0000_0000_0000 + 0x200 * a);
    BitOf(x, 0x8, p * 0x1 + w * 0x2 + u * 0x4, t, n * 0x1 + ac * 0x2 + d * 0x4 + h * 0x8
      + g * 0x10 + nx * 0x800_0000_0000_0000 + 0x100 * a);
    BitOf(x, 0x10, p * 0x1 + w * 0x2 + u * 0x4 + t * 0x8, n, ac * 0x1 + d * 0x2 + h * 0x4
      + g * 0x8 + nx * 0x400_0000_0000_0000 + 0x80 * a);
  }

  /** Bits 5 to 8 and bit 63 of such a word. */
  lemma HighBitsOfSum(x: nat, p: nat, w: nat, u: nat, t: nat, n: nat, ac: nat, d: nat, h: nat, g: nat,
                  nx: nat, a: nat)
    requires p < 2 && w < 2 && u < 2 && t < 2 && n < 2 && ac < 2 && d < 2 && h < 2 && g < 2 && nx < 2
    requires x == p * 0x1 + w * 0x2 + u * 0x4 + t * 0x8 + n * 0x10 + ac * 0x20 + d * 0x40 + h * 0x80
      + g * 0x100 + nx * 0x8000_0000_0000_0000 + 4096 * a
    requires a < 0x100_0000_0000
    ensures (x / 0x20) % 2 == ac && (x / 0x40) % 2 == d && (x / 0x80) % 2 == h
    ensures (x / 0x100) % 2 == g && (x / 0x8000_0000_0000_0000) % 2 == nx
  {
    BitOf(x, 0x20, p * 0x1 + w * 0x2 + u * 0x4 + t * 0x8 + n * 0x10, ac, d * 0x1 + h * 0x2
      + g * 0x4 + nx * 0x200_0000_0000_0000 + 0x40 * a);
    BitOf(x, 0x40, p * 0x1 + w * 0x2 + u * 0x4 + t * 0x8 + n * 0x10 + ac * 0x20, d, h * 0x1
      + g * 0x2 + nx * 0x100_0000_0000_0000 + 0x20 * a);
    BitOf(x, 0x80, p * 0x1 + w * 0x2 + u * 0x4 + t * 0x8 + n * 0x10 + ac * 0x20 + d * 0x40, h,
      g * 0x1 + nx * 0x80_0000_0000_0000 + 0x10 * a);
    BitOf(x, 0x100, p * 0x1 + w * 0x2 + u * 0x4 + t * 0x8 + n * 0x10 + ac * 0x20 + d * 0x40
      + h * 0x80, g, nx * 0x40_0000_0000_0000 + 0x8 * a);
    BitOf(x, 0x8000_0000_0000_0000, x - nx * 0x8000_0000_0000_0000, nx, 0);
  }

  /** The address field (bits 12 to 51) of such a word. */
  lemma AddressOfSum(x: nat, p: nat, w: nat, u: nat, t: nat, n: nat, ac: nat, d: nat, h: nat, g: nat,
                  nx: nat, a: nat)
    requires p < 2 && w < 2 && u < 2 && t < 2 && n < 2 && ac < 2 && d < 2 && h < 2 && g < 2 && nx < 2
    requires x == p * 0x1 + w * 0x2 + u * 0x4 + t * 0x8 + n * 0x10 + ac * 0x20 + d * 0x40 + h * 0x80
      + g * 0x100 + nx * 0x8000_0000_0000_0000 + 4096 * a
    requires a < 0x100_0000_0000
    ensures (x % 0x10_0000_0000_0000) / 4096 * 4096 == 4096 * a
  {
    var low := x - nx * 0x8000_0000_0000_0000 - 4096 * a;
    assert low < 512;
    DivModUnique(x, 0x10_0000_0000_0000, nx * 0x800, 4096 * a + low);
    DivModUnique(4096 * a + low, 4096, a, low);
  }
}
