/**
 * Fixed-width integer types, powers of two, optional and fallible results,
 * and the two views of a little-endian bit stream used throughout the codec:
 * a number, and the sequence of its bits (least significant first).
 */
module Common {

  const TWO8: int := 0x100
  const TWO16: int := 0x1_0000
  const TWO31: int := 0x8000_0000
  const TWO32: int := 0x1_0000_0000
  const TWO60: int := 0x1000_0000_0000_0000
  const TWO63: int := 0x8000_0000_0000_0000
  const TWO64: int := 0x1_0000_0000_0000_0000

  type u8 = x: int | 0 <= x < TWO8
  type u16 = x: int | 0 <= x < TWO16
  type u32 = x: int | 0 <= x < TWO32
  type u64 = x: int | 0 <= x < TWO64
  type i32 = x: int | -TWO31 <= x < TWO31
  type i64 = x: int | -TWO63 <= x < TWO63

  /** u64::MAX, the "no mapping" marker of the FTL tables. */
  const U64_MAX: u64 := TWO64 - 1

  datatype Option<T> = None | Some(value: T)

  datatype Result<T, E> = Ok(value: T) | Err(error: E)

  function Pow2(n: nat): (r: nat)
    ensures r >= 1
  {
    if n == 0 then 1 else 2 * Pow2(n - 1)
  }

  /** Logical right shift, `v >> k`. */
  function Shr(v: nat, k: nat): nat
  {
    DivNonNeg(v, Pow2(k));
    v / Pow2(k)
  }

  lemma {:induction false} DivNonNeg(v: nat, d: nat)
    requires d > 0
    ensures v / d >= 0
  {
    var q, r := v / d, v % d;
    assert v == d * q + r;
    if q < 0 {
      MulAtLeast(d, -q);
      assert false;
    }
  }

  function Min(a: int, b: int): int { if a <= b then a else b }

  function Max(a: int, b: int): int { if a >= b then a else b }

  /** Division rounding up, Rust's `usize::div_ceil`. */
  function DivCeil(a: nat, b: nat): nat
    requires b > 0
  {
    (a + b - 1) / b
  }

  /** Two's-complement reinterpretation of an i64 as a u64 (`x as u64`). */
  function AsU64(x: i64): u64 { if x >= 0 then x else x + TWO64 }

  /** Two's-complement reinterpretation of a u64 as an i64 (`x as i64`). */
  function AsI64(x: u64): i64 { if x < TWO63 then x else x - TWO64 }

  /** Any integer cut to its low 64 bits and read as an i64 (the result of i64 `wrapping_*`). */
  function WrapI64(x: int): i64 { AsI64(x % TWO64) }

  /** `wrapping_add` on u64. */
  function WrapAdd(a: u64, b: int): u64 { (a + b) % TWO64 }

  lemma {:induction false} Pow2Add(a: nat, b: nat)
    ensures Pow2(a + b) == Pow2(a) * Pow2(b)
  {
    if a > 0 { Pow2Add(a - 1, b); }
  }

  lemma {:induction false} Pow2Mono(a: nat, b: nat)
    requires a <= b
    ensures Pow2(a) <= Pow2(b)
  {
    if a < b { Pow2Mono(a, b - 1); }
  }

  lemma {:induction false} Pow2Values()
    ensures Pow2(8) == TWO8 && Pow2(16) == TWO16 && Pow2(32) == TWO32
    ensures Pow2(60) == TWO60 && Pow2(63) == TWO63 && Pow2(64) == TWO64
  {
    assert Pow2(8) == 256;
    assert Pow2(16) == 256 * 256 by { Pow2Add(8, 8); }
    assert Pow2(32) == TWO32 by { Pow2Add(16, 16); }
    assert Pow2(60) == TWO60 by { Pow2Add(32, 28); Pow2Add(16, 12); Pow2Add(8, 4); }
    assert Pow2(63) == TWO63 by { Pow2Add(60, 3); }
  }

  /** The powers of two that name field positions in the packed words. */
  lemma {:induction false} Pow2Table()
    ensures Pow2(1) == 2 && Pow2(2) == 4 && Pow2(3) == 8 && Pow2(4) == 16
    ensures Pow2(5) == 32 && Pow2(6) == 64 && Pow2(8) == 0x100 && Pow2(10) == 0x400
    ensures Pow2(11) == 0x800 && Pow2(12) == 0x1000 && Pow2(14) == 0x4000
    ensures Pow2(15) == 0x8000 && Pow2(16) == 0x1_0000 && Pow2(20) == 0x10_0000
    ensures Pow2(21) == 0x20_0000 && Pow2(22) == 0x40_0000 && Pow2(24) == 0x100_0000
    ensures Pow2(26) == 0x400_0000 && Pow2(30) == 0x4000_0000 && Pow2(32) == TWO32
    ensures Pow2(48) == 0x1_0000_0000_0000
  {
    Pow2Values();
    assert Pow2(10) == 0x400;
    assert Pow2(16) == 0x1_0000;
    assert Pow2(20) == 0x10_0000 by { Pow2Add(16, 4); }
    assert Pow2(22) == 0x40_0000 by { Pow2Add(16, 6); }
    assert Pow2(24) == 0x100_0000 by { Pow2Add(16, 8); }
    assert Pow2(26) == 0x400_0000 by { Pow2Add(16, 10); }
    assert Pow2(30) == 0x4000_0000 by { Pow2Add(16, 14); }
    assert Pow2(48) == 0x1_0000_0000_0000 by { Pow2Add(32, 16); }
  }

  /** The quotient and remainder of q * d + r by d, for 0 <= r < d. */
  lemma {:induction false} ModSmall(x: int, d: int)
    requires 0 <= x < d
    ensures x % d == x
  {
  }

  lemma {:induction false} DivModOf(q: int, d: int, r: int)
    requires d > 0 && 0 <= r < d
    ensures (q * d + r) / d == q && (q * d + r) % d == r
  {
    var x := q * d + r;
    var k := x / d - q;
    assert d * k == r - x % d by {
      assert x == d * (x / d) + x % d;
      assert d * (x / d) == d * q + d * k;
    }
    if k > 0 {
      MulAtLeast(d, k);
      assert false;
    } else if k < 0 {
      MulAtLeast(d, -k);
      assert false;
    }
  }

  lemma {:induction false} MulAtLeast(d: int, k: int)
    requires d > 0 && k > 0
    ensures d * k >= d
  {
    if k > 1 {
      MulAtLeast(d, k - 1);
      assert d * k == d * (k - 1) + d;
    }
  }

  /** x / (a * b) == (x / a) / b. */
  lemma {:induction false} DivDiv(x: nat, a: nat, b: nat)
    requires a > 0 && b > 0
    ensures x / (a * b) == (x / a) / b
    ensures x % (a * b) == x % a + a * ((x / a) % b)
  {
    var ab := a * b;
    var q1, r1 := x / a, x % a;
    var q2, r2 := q1 / b, q1 % b;
    var lo := a * r2 + r1;
    assert x == q1 * a + r1;
    assert q1 == q2 * b + r2;
    MulRearrange(q2, b, r2, a);
    MulRemBound(a, b, r2, r1);
    DivModOf(q2, ab, lo);
  }

  lemma {:induction false} MulRearrange(q: int, b: int, r: int, a: int)
    ensures (q * b + r) * a == q * (a * b) + a * r
  {
  }

  lemma {:induction false} MulRemBound(a: nat, b: nat, r2: nat, r1: nat)
    requires r2 < b && r1 < a
    ensures a * r2 + r1 < a * b
  {
    assert a * r2 <= a * (b - 1);
  }

  /** (x % (a * b)) % a == x % a. */
  lemma {:induction false} ModMod(x: nat, a: nat, b: nat)
    requires a > 0 && b > 0
    ensures (x % (a * b)) % a == x % a
  {
    DivDiv(x, a, b);
    DivModOf((x / a) % b, a, x % a);
  }

  /** Reducing a sum modulo d: (x + y * d) % d == x % d. */
  lemma {:induction false} ModAddMul(x: int, y: int, d: int)
    requires d > 0
    ensures (x + y * d) % d == x % d
    ensures (x + y * d) / d == x / d + y
  {
    DivModOf(x / d + y, d, x % d);
    assert x + y * d == (x / d + y) * d + x % d;
  }

  // ---------------------------------------------------------------------
  // Bit sequences, least significant bit first.

  function NatToBits(v: nat, n: nat): (r: seq<bool>)
    ensures |r| == n
  {
    if n == 0 then [] else [v % 2 == 1] + NatToBits(v / 2, n - 1)
  }

  function BitsToNat(s: seq<bool>): nat
  {
    if s == [] then 0 else (if s[0] then 1 else 0) + 2 * BitsToNat(s[1..])
  }

  function Zeros(n: nat): (r: seq<bool>)
    ensures |r| == n && forall i :: 0 <= i < n ==> !r[i]
  {
    if n == 0 then [] else [false] + Zeros(n - 1)
  }

  lemma {:induction false} BitsToNatBound(s: seq<bool>)
    ensures BitsToNat(s) < Pow2(|s|)
  {
    if s != [] { BitsToNatBound(s[1..]); }
  }

  lemma {:induction false} BitsToNatOfNatToBits(v: nat, n: nat)
    ensures BitsToNat(NatToBits(v, n)) == v % Pow2(n)
  {
    if n > 0 {
      var s := NatToBits(v, n);
      assert s[1..] == NatToBits(v / 2, n - 1);
      BitsToNatOfNatToBits(v / 2, n - 1);
      DivDiv(v, 2, Pow2(n - 1));
    }
  }

  lemma {:induction false} NatToBitsOfBitsToNat(s: seq<bool>)
    ensures NatToBits(BitsToNat(s), |s|) == s
  {
    if s != [] {
      var v := BitsToNat(s);
      var b := if s[0] then 1 else 0;
      DivModOf(BitsToNat(s[1..]), 2, b);
      assert v == BitsToNat(s[1..]) * 2 + b;
      NatToBitsOfBitsToNat(s[1..]);
    }
  }

  lemma {:induction false} NatToBitsMod(v: nat, n: nat)
    ensures NatToBits(v % Pow2(n), n) == NatToBits(v, n)
  {
    BitsToNatOfNatToBits(v, n);
    NatToBitsOfBitsToNat(NatToBits(v, n));
  }

  lemma {:induction false} BitsToNatAppend(s: seq<bool>, t: seq<bool>)
    ensures BitsToNat(s + t) == BitsToNat(s) + Pow2(|s|) * BitsToNat(t)
  {
    if s == [] {
      assert s + t == t;
    } else {
      BitsToNatCons(s, t);
      BitsToNatAppend(s[1..], t);
      AppendStep(if s[0] then 1 else 0, BitsToNat(s[1..]), BitsToNat(t), Pow2(|s| - 1));
    }
  }

  lemma {:induction false} BitsToNatCons(s: seq<bool>, t: seq<bool>)
    requires s != []
    ensures BitsToNat(s + t) == (if s[0] then 1 else 0) + 2 * BitsToNat(s[1..] + t)
  {
    assert (s + t)[0] == s[0];
    assert (s + t)[1..] == s[1..] + t;
  }

  lemma {:induction false} AppendStep(b: int, rs: int, nt: int, p: int)
    ensures b + 2 * (rs + p * nt) == (b + 2 * rs) + (2 * p) * nt
  {
  }

  lemma {:induction false} BitsToNatZeros(n: nat)
    ensures BitsToNat(Zeros(n)) == 0
  {
    if n > 0 {
      assert Zeros(n)[1..] == Zeros(n - 1);
      BitsToNatZeros(n - 1);
    }
  }

  lemma {:induction false} NatToBitsZero(n: nat)
    ensures NatToBits(0, n) == Zeros(n)
  {
    BitsToNatZeros(n);
    NatToBitsOfBitsToNat(Zeros(n));
  }

  /** The bits of v split at position a: the low a bits, then the rest. */
  lemma {:induction false} NatToBitsSplit(v: nat, a: nat, b: nat)
    ensures NatToBits(v, a + b) == NatToBits(v, a) + NatToBits(Shr(v, a), b)
  {
    if a > 0 {
      var n := a - 1 + b;
      var head := [v % 2 == 1];
      var lo := NatToBits(v / 2, a - 1);
      var hi := NatToBits(Shr(v, a), b);
      assert NatToBits(v, n + 1) == head + NatToBits(v / 2, n);
      NatToBitsSplit(v / 2, a - 1, b);
      HalfThenShr(v, a);
      SeqAssoc(head, lo, hi);
    } else {
      assert NatToBits(v, 0) + NatToBits(v, b) == NatToBits(v, b);
    }
  }

  lemma {:induction false} HalfThenShr(v: nat, a: nat)
    requires a > 0
    ensures Shr(v / 2, a - 1) == Shr(v, a)
  {
    DivDiv(v, 2, Pow2(a - 1));
  }

  lemma {:induction false} SeqAssoc<T>(x: seq<T>, y: seq<T>, z: seq<T>)
    ensures x + (y + z) == (x + y) + z
  {
  }

  /** Placing w above the low a bits of v concatenates their bit sequences. */
  lemma {:induction false} NatToBitsConcat(v: nat, w: nat, a: nat, b: nat)
    requires v < Pow2(a)
    ensures NatToBits(v + w * Pow2(a), a + b) == NatToBits(v, a) + NatToBits(w, b)
  {
    var x := v + w * Pow2(a);
    NatToBitsSplit(x, a, b);
    DivModOf(w, Pow2(a), v);
    assert Shr(x, a) == w && x % Pow2(a) == v;
    NatToBitsMod(x, a);
  }

  /** Dropping the k low bits of a bit sequence shifts its value right by k. */
  lemma {:induction false} BitsDrop(s: seq<bool>, k: nat)
    requires k <= |s|
    ensures BitsToNat(s[k..]) == Shr(BitsToNat(s), k)
  {
    var lo, hi := s[..k], s[k..];
    assert s == lo + hi;
    BitsToNatAppend(lo, hi);
    BitsToNatBound(lo);
    ShrOfSum(BitsToNat(lo), BitsToNat(hi), k);
  }

  /** Keeping the len low bits of a bit sequence reduces its value modulo 2^len. */
  lemma {:induction false} BitsTake(s: seq<bool>, len: nat)
    requires len <= |s|
    ensures BitsToNat(s[..len]) == BitsToNat(s) % Pow2(len)
  {
    var lo, hi := s[..len], s[len..];
    assert s == lo + hi;
    BitsToNatAppend(lo, hi);
    BitsToNatBound(lo);
    ShrOfSum(BitsToNat(lo), BitsToNat(hi), len);
  }

  /** Splitting lo + 2^k * hi at bit k gives back hi and lo. */
  lemma {:induction false} ShrOfSum(lo: nat, hi: nat, k: nat)
    requires lo < Pow2(k)
    ensures Shr(lo + Pow2(k) * hi, k) == hi
    ensures (lo + Pow2(k) * hi) % Pow2(k) == lo
  {
    DivModOf(hi, Pow2(k), lo);
    assert hi * Pow2(k) == Pow2(k) * hi;
  }

  /** ShrOfSum for a number already known to be lo + 2^k * hi. */
  lemma {:induction false} SplitAt(x: nat, lo: nat, hi: nat, k: nat)
    requires lo < Pow2(k) && x == lo + Pow2(k) * hi
    ensures Shr(x, k) == hi && x % Pow2(k) == lo
  {
    ShrOfSum(lo, hi, k);
  }

  /** The bits of s from k, len of them, read as a number. */
  lemma {:induction false} BitsSlice(s: seq<bool>, k: nat, len: nat)
    requires k + len <= |s|
    ensures BitsToNat(s[k..k + len]) == Shr(BitsToNat(s), k) % Pow2(len)
  {
    BitsDrop(s, k);
    BitsTake(s[k..], len);
    assert s[k..][..len] == s[k..k + len];
  }

  // ---------------------------------------------------------------------
  // Little-endian byte strings.

  /** The number a byte string denotes read little-endian (`from_le_bytes`). */
  function LeValue(bs: seq<u8>): (r: nat)
    ensures r < Pow2(8 * |bs|)
  {
    if bs == [] then 0
    else
      var rest := LeValue(bs[1..]);
      LeStepBound(bs[0], rest, |bs|);
      bs[0] + 256 * rest
  }

  /** One more byte below a value of m - 1 bytes stays below 2^(8m). */
  lemma {:induction false} LeStepBound(b: u8, rest: nat, m: nat)
    requires m >= 1 && rest < Pow2(8 * (m - 1))
    ensures b + 256 * rest < Pow2(8 * m)
  {
    Pow2Add(8, 8 * (m - 1));
    assert Pow2(8) == 256;
  }

  /** The n low bytes of v, little-endian (`to_le_bytes()[..n]`). */
  function LeBytes(v: nat, n: nat): (r: seq<u8>)
    ensures |r| == n
  {
    if n == 0 then [] else [v % 256] + LeBytes(v / 256, n - 1)
  }

  /** The bits of a byte string, byte 0 first, each byte least significant bit first. */
  function BytesToBits(bs: seq<u8>): (r: seq<bool>)
    ensures |r| == 8 * |bs|
  {
    if bs == [] then [] else NatToBits(bs[0], 8) + BytesToBits(bs[1..])
  }

  lemma {:induction false} LeValueOfLeBytes(v: nat, n: nat)
    ensures LeValue(LeBytes(v, n)) == v % Pow2(8 * n)
  {
    if n > 0 {
      var bs := LeBytes(v, n);
      assert bs[1..] == LeBytes(v / 256, n - 1);
      LeValueOfLeBytes(v / 256, n - 1);
      Pow2Values();
      DivDiv(v, 256, Pow2(8 * (n - 1)));
      Pow2Add(8, 8 * (n - 1));
    }
  }

  lemma {:induction false} LeBytesOfLeValue(bs: seq<u8>)
    ensures LeBytes(LeValue(bs), |bs|) == bs
  {
    if bs != [] {
      DivModOf(LeValue(bs[1..]), 256, bs[0]);
      LeBytesOfLeValue(bs[1..]);
    }
  }

  lemma {:induction false} BytesToBitsAppend(a: seq<u8>, b: seq<u8>)
    ensures BytesToBits(a + b) == BytesToBits(a) + BytesToBits(b)
  {
    if a != [] {
      assert (a + b)[0] == a[0];
      assert (a + b)[1..] == a[1..] + b;
      BytesToBitsAppend(a[1..], b);
    } else {
      assert a + b == b;
    }
  }

  /** The bit stream of a byte string is the bit sequence of its little-endian value. */
  lemma {:induction false} BytesToBitsValue(bs: seq<u8>)
    ensures BytesToBits(bs) == NatToBits(LeValue(bs), 8 * |bs|)
  {
    if bs != [] {
      var v, w := bs[0] as nat, LeValue(bs[1..]);
      BytesToBitsValue(bs[1..]);
      assert Pow2(8) == 256;
      assert LeValue(bs) == v + w * Pow2(8);
      NatToBitsConcat(v, w, 8, 8 * (|bs| - 1));
      assert 8 + 8 * (|bs| - 1) == 8 * |bs|;
    }
  }

  lemma {:induction false} BitsToNatOfBytes(bs: seq<u8>)
    ensures BitsToNat(BytesToBits(bs)) == LeValue(bs)
  {
    BytesToBitsValue(bs);
    BitsToNatOfNatToBits(LeValue(bs), 8 * |bs|);
    DivModOf(0, Pow2(8 * |bs|), LeValue(bs));
  }

  lemma {:induction false} BytesToBitsSlice(bs: seq<u8>, i: nat, j: nat)
    requires i <= j <= |bs|
    ensures BytesToBits(bs[i..j]) == BytesToBits(bs)[8 * i..8 * j]
  {
    var a, b, c := bs[..i], bs[i..j], bs[j..];
    SplitThree(bs, i, j);
    var x, y, z := BytesToBits(a), BytesToBits(b), BytesToBits(c);
    BytesToBitsAppend(a, b + c);
    BytesToBitsAppend(b, c);
    assert BytesToBits(bs) == x + (y + z);
    assert |x| == 8 * i && |x| + |y| == 8 * j;
    SliceOfConcat(x, y, z);
  }

  /** A zero byte contributes eight zero bits. */
  lemma {:induction false} BytesToBitsZeros(n: nat)
    ensures BytesToBits(seq(n, _ => 0)) == Zeros(8 * n)
  {
    var z: seq<u8> := seq(n, _ => 0);
    LeValueOfLeBytes(0, n);
    assert LeBytes(0, n) == z by {
      LeBytesZero(n);
    }
    BytesToBitsValue(z);
    NatToBitsZero(8 * n);
  }

  lemma {:induction false} SplitThree<T>(s: seq<T>, i: nat, j: nat)
    requires i <= j <= |s|
    ensures s == s[..i] + (s[i..j] + s[j..])
  {
    assert s[i..] == s[i..j] + s[j..];
  }

  lemma {:induction false} SplitTwo<T>(s: seq<T>, k: nat)
    requires k <= |s|
    ensures s == s[0..k] + s[k..|s|]
  {
  }

  lemma {:induction false} SliceOfDrop<T>(s: seq<T>, a: nat, i: nat, j: nat)
    requires a <= |s| && i <= j <= |s| - a
    ensures s[a..][i..j] == s[a + i..a + j]
  {
  }

  lemma {:induction false} DropFront<T>(x: seq<T>, y: seq<T>)
    ensures (x + y)[|x|..] == y
  {
  }

  lemma {:induction false} SliceJoin<T>(s: seq<T>, a: nat, b: nat, c: nat)
    requires a <= b <= c <= |s|
    ensures s[a..c] == s[a..b] + s[b..c]
  {
  }

  lemma {:induction false} SliceOfConcat<T>(x: seq<T>, y: seq<T>, z: seq<T>)
    ensures (x + (y + z))[|x|..|x| + |y|] == y
  {
  }

  lemma {:induction false} LeBytesZero(n: nat)
    ensures LeBytes(0, n) == seq(n, _ => 0)
  {
    if n > 0 { LeBytesZero(n - 1); }
  }

  lemma {:induction false} LeRoundTrip4(x: u32)
    ensures LeValue(LeBytes(x, 4)) == x
  {
    assert Pow2(32) == TWO32 by { Pow2Values(); }
    LeValueOfLeBytes(x, 4);
  }

  lemma {:induction false} LeRoundTrip8(x: u64)
    ensures LeValue(LeBytes(x, 8)) == x
  {
    assert Pow2(64) == TWO64 by { Pow2Values(); }
    LeValueOfLeBytes(x, 8);
  }

  lemma {:induction false} LeBound2(bs: seq<u8>)
    requires |bs| == 2
    ensures LeValue(bs) < TWO16
  {
    assert Pow2(16) == TWO16 by { Pow2Values(); }
  }

  lemma {:induction false} LeBound4(bs: seq<u8>)
    requires |bs| == 4
    ensures LeValue(bs) < TWO32
  {
    assert Pow2(32) == TWO32 by { Pow2Values(); }
  }

  lemma {:induction false} LeBound8(bs: seq<u8>)
    requires |bs| == 8
    ensures LeValue(bs) < TWO64
  {
    assert Pow2(64) == TWO64 by { Pow2Values(); }
  }
}
