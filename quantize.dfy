/** Colour quantisation and bucket indexing of the histogram extractor.

    Go's `color.Color.RGBA()` yields every channel as a 16-bit value held in a
    `uint32`. The extractor keeps the top `depth` bits of each channel with an
    unsigned right shift and packs the three results into one bucket index with
    unsigned 32-bit shifts and additions. Integers here are unbounded, so the
    32-bit wrap-around of `<<` and `+` is written out. */
module Quantize {
  import opened Arith

  const Uint32Modulus: int := 0x1_0000_0000

  /** One 16-bit colour channel as returned by `RGBA()`. */
  type Channel = c: int | 0 <= c < 0x1_0000

  /** The bits kept per channel. The shift `16 - depth` is only defined for
      `depth <= 16`, and a zero depth would make a single bucket. */
  type Depth = d: int | 1 <= d <= 16 witness 3

  /** Every caller of the extractor passes depth 3 (512 buckets). */
  const PipelineDepth: Depth := 3

  /** A decoded pixel; the alpha channel is ignored by the extractor. */
  datatype Pixel = Pixel(r: Channel, g: Channel, b: Channel)

  function Pow2(n: nat): (p: nat)
    ensures p >= 1
  {
    if n == 0 then 1 else 2 * Pow2(n - 1)
  }

  lemma {:induction false} Pow2Add(a: nat, b: nat)
    ensures Pow2(a + b) == Pow2(a) * Pow2(b)
    decreases a
  {
    if a > 0 {
      Pow2Add(a - 1, b);
      assert Pow2(a + b) == 2 * Pow2(a - 1 + b);
    }
  }

  lemma {:induction false} Pow2Monotonic(a: nat, b: nat)
    requires a <= b
    ensures Pow2(a) <= Pow2(b)
    decreases b
  {
    if a < b {
      Pow2Monotonic(a, b - 1);
    }
  }

  lemma {:induction false} Pow2Of30()
    ensures Pow2(30) == 0x4000_0000
  {
    Pow2Add(10, 10);
    Pow2Add(20, 10);
    assert Pow2(10) == 1024;
  }

  /** `c >> s` on an unsigned word. */
  function Shr(c: nat, s: nat): nat
  {
    var p := Pow2(s);
    DivNonNegative(c, p);
    c / p
  }

  /** `x << s` on a `uint32`: bits moved past bit 31 are lost. */
  function Shl32(x: nat, s: nat): (r: nat)
    ensures r < Uint32Modulus
  {
    (x * Pow2(s)) % Uint32Modulus
  }

  /** `x + y` on a `uint32`. */
  function Add32(x: nat, y: nat): (r: nat)
    ensures r < Uint32Modulus
  {
    (x + y) % Uint32Modulus
  }

  /** `c >> (16 - depth)`: the top `depth` bits of a channel. */
  function QuantizeChannel(c: Channel, depth: Depth): (q: nat)
    ensures q < Pow2(depth)
  {
    QuantizedBelow(c, depth);
    Shr(c, 16 - depth)
  }

  /** The length of the histogram, `1 << (3 * depth)`. */
  function BucketCount(depth: Depth): nat
  {
    Pow2(3 * depth)
  }

  /** `(r << (2 * depth)) + (g << depth) + b` on the quantised channels, in
      `uint32` arithmetic. The index always lies inside the histogram, so
      `histogram[index]++` never goes out of range; up to depth 10 no bit is
      lost and the index is the three quantised channels read as the digits of
      a number in base `2^depth`. */
  function BucketIndex(p: Pixel, depth: Depth): (index: nat)
    ensures index < BucketCount(depth)
    ensures depth <= 10 ==>
      index == Digits(QuantizeChannel(p.r, depth), QuantizeChannel(p.g, depth),
                      QuantizeChannel(p.b, depth), depth)
  {
    var rq := QuantizeChannel(p.r, depth);
    var gq := QuantizeChannel(p.g, depth);
    var bq := QuantizeChannel(p.b, depth);
    var index := Add32(Add32(Shl32(rq, 2 * depth), Shl32(gq, depth)), bq);
    IndexInRange(rq, gq, bq, depth, index);
    index
  }

  /** The number whose base-`2^depth` digits are `rq`, `gq`, `bq`. */
  function Digits(rq: nat, gq: nat, bq: nat, depth: Depth): nat
  {
    rq * Pow2(2 * depth) + gq * Pow2(depth) + bq
  }

  lemma {:induction false} QuantizedBelow(c: Channel, depth: Depth)
    ensures Shr(c, 16 - depth) < Pow2(depth)
  {
    var q := Pow2(16 - depth);
    Pow2Add(16 - depth, depth);
    assert Pow2(16) == 0x1_0000 by { Pow2Add(8, 8); assert Pow2(8) == 256; }
    DivBelow(c, q, Pow2(depth));
  }

  lemma {:induction false} NoWrap(x: nat)
    requires x < Uint32Modulus
    ensures x % Uint32Modulus == x
  {
  }

  lemma {:induction false} Pow2Sum(a: nat, b: nat, c: nat)
    requires c == a + b
    ensures Pow2(c) == Pow2(a) * Pow2(b)
  {
    Pow2Add(a, b);
  }

  lemma {:induction false} Pow2Powers(depth: Depth)
    ensures Pow2(2 * depth) == Pow2(depth) * Pow2(depth)
    ensures Pow2(3 * depth) == Pow2(depth) * Pow2(2 * depth)
  {
    Pow2Sum(depth, depth, 2 * depth);
    Pow2Sum(depth, 2 * depth, 3 * depth);
  }

  /** Additions whose sum fits in 32 bits do not wrap. */
  lemma AddNoWrap(hi: nat, mid: nat, lo: nat)
    requires hi + mid + lo < Uint32Modulus
    ensures Add32(Add32(hi % Uint32Modulus, mid % Uint32Modulus), lo) == hi + mid + lo
  {
    NoWrap(hi);
    NoWrap(mid);
    NoWrap(hi + mid);
    NoWrap(hi + mid + lo);
  }

  /** Packing three digits below `m` with `m * m * m` no larger than 2^30
      loses no bit in 32-bit arithmetic. */
  lemma {:induction false} PackNoWrap(rq: nat, gq: nat, bq: nat, m: nat, m2: nat, m3: nat)
    requires rq < m && gq < m && bq < m
    requires m2 == m * m && m3 == m * m2 && m3 <= 0x4000_0000
    ensures Add32(Add32((rq * m2) % Uint32Modulus, (gq * m) % Uint32Modulus), bq)
            == rq * m2 + gq * m + bq < m3
  {
    DigitBound(gq, bq, m, m);
    DigitBound(rq, gq * m + bq, m, m2);
    AddNoWrap(rq * m2, gq * m, bq);
  }

  lemma {:induction false} IndexInRange(rq: nat, gq: nat, bq: nat, depth: Depth, index: nat)
    requires rq < Pow2(depth) && gq < Pow2(depth) && bq < Pow2(depth)
    requires index == Add32(Add32(Shl32(rq, 2 * depth), Shl32(gq, depth)), bq)
    ensures index < BucketCount(depth)
    ensures depth <= 10 ==> index == Digits(rq, gq, bq, depth)
  {
    Pow2Powers(depth);
    if depth <= 10 {
      Pow2Monotonic(3 * depth, 30);
      Pow2Of30();
      PackNoWrap(rq, gq, bq, Pow2(depth), Pow2(2 * depth), Pow2(3 * depth));
    } else {
      Pow2Monotonic(32, 3 * depth);
      Pow2Sum(30, 2, 32);
      Pow2Of30();
    }
  }

  /** The packing is undone by division and remainder modulo `2^depth`: the
      index determines the three quantised channels. */
  lemma {:induction false} DigitsDecode(rq: nat, gq: nat, bq: nat, depth: Depth)
    requires rq < Pow2(depth) && gq < Pow2(depth) && bq < Pow2(depth)
    ensures Digits(rq, gq, bq, depth) / Pow2(2 * depth) == rq
    ensures (Digits(rq, gq, bq, depth) / Pow2(depth)) % Pow2(depth) == gq
    ensures Digits(rq, gq, bq, depth) % Pow2(depth) == bq
  {
    var m := Pow2(depth);
    Pow2Add(depth, depth);
    assert Digits(rq, gq, bq, depth) == rq * (m * m) + (gq * m + bq);
    ThreeDigits(rq, gq, bq, m);
  }

  /** Distinct quantised colours land in distinct buckets (depth <= 10, where
      no bit is shifted out of the 32-bit word), and the colour is recovered
      from the index by division and remainder. */
  lemma {:induction false} BucketIndexInjective(p1: Pixel, p2: Pixel, depth: Depth)
    requires depth <= 10
    ensures BucketIndex(p1, depth) == BucketIndex(p2, depth) <==>
      (QuantizeChannel(p1.r, depth) == QuantizeChannel(p2.r, depth) &&
       QuantizeChannel(p1.g, depth) == QuantizeChannel(p2.g, depth) &&
       QuantizeChannel(p1.b, depth) == QuantizeChannel(p2.b, depth))
  {
    DigitsDecode(QuantizeChannel(p1.r, depth), QuantizeChannel(p1.g, depth), QuantizeChannel(p1.b, depth), depth);
    DigitsDecode(QuantizeChannel(p2.r, depth), QuantizeChannel(p2.g, depth), QuantizeChannel(p2.b, depth), depth);
  }
}
