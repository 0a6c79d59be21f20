/**
 * ZigZag coding of signed residuals and the bit width of a value.
 *
 * The source works on i64/u64 registers with shifts and xor. Here each bit
 * operation is written as the integer function it computes on two's-complement
 * values: `x << 1` on i64 wraps modulo 2^64, `x >> 63` on i64 is 0 or -1,
 * `x ^ 0 == x` and `x ^ -1 == !x == -x - 1`.
 */
module CodecUtil {
  import opened Common

  /** `x << 1` on an i64, wrapping (the shifted-out top bit is lost). */
  function Shl1(x: i64): i64
  {
    AsI64(AsU64(x) * 2 % TWO64)
  }

  /** `x >> 63` on an i64: an arithmetic shift copies the sign bit everywhere. */
  function SignMask(x: i64): i64
  {
    if x < 0 then -1 else 0
  }

  /** `x ^ m` where m is 0 or -1 (all ones): xor with all ones is bitwise not. */
  function XorMask(x: i64, m: i64): i64
    requires m == 0 || m == -1
  {
    if m == 0 then x else (TWO63 - 1) - (x + TWO63)  // -x - 1
  }

  /**
   * `zigzag_encode`: `((val << 1) ^ (val >> 63)) as u64`.
   * Non-negative values go to the even numbers, negative ones to the odd.
   */
  function ZigZagEncode(v: i64): (r: u64)
    ensures r == if v >= 0 then 2 * v else -2 * v - 1
  {
    AsU64(XorMask(Shl1(v), SignMask(v)))
  }

  /**
   * `zigzag_decode`: `((val >> 1) as i64) ^ (-((val & 1) as i64))`.
   * The result is the unique i64 that ZigZagEncode maps to u.
   */
  function ZigZagDecode(u: u64): (r: i64)
    ensures u == if r >= 0 then 2 * r else -2 * r - 1
  {
    var half: i64 := AsI64(u / 2);
    XorMask(half, -(u % 2))
  }

  lemma {:induction false} ZigZagDecodeEncode(v: i64)
    ensures ZigZagDecode(ZigZagEncode(v)) == v
  {
  }

  lemma {:induction false} ZigZagEncodeDecode(u: u64)
    ensures ZigZagEncode(ZigZagDecode(u)) == u
  {
  }

  /** The table in the doc comment of `zigzag_encode`. */
  lemma {:induction false} ZigZagExamples()
    ensures ZigZagEncode(0) == 0 && ZigZagEncode(-1) == 1 && ZigZagEncode(1) == 2
    ensures ZigZagEncode(-2) == 3 && ZigZagEncode(2) == 4
    ensures ZigZagEncode(TWO63 - 1) == TWO64 - 2 && ZigZagEncode(-TWO63) == TWO64 - 1
  {
  }

  /**
   * `bit_width`: 0 for 0, else `64 - leading_zeros`, the number of bits up
   * to and including the highest set bit.
   */
  function BitWidth(v: nat): (r: nat)
    ensures v == 0 <==> r == 0
    ensures v > 0 ==> Pow2(r - 1) <= v < Pow2(r)
  {
    if v == 0 then 0 else 1 + BitWidth(v / 2)
  }

  /** A value below 2^w needs at most w bits; so a u64 needs at most 64. */
  lemma {:induction false} BitWidthAtMost(v: nat, w: nat)
    requires v < Pow2(w)
    ensures BitWidth(v) <= w
  {
    if v > 0 && w > 0 {
      BitWidthAtMost(v / 2, w - 1);
    }
  }

  lemma {:induction false} BitWidthU64(v: u64)
    ensures BitWidth(v) <= 64
  {
    Pow2Values();
    BitWidthAtMost(v, 64);
  }
}
