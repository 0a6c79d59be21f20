/**
 * Bit-level helpers of the Elias-Fano index (jdb_ftl/src/ftl/codec/ef/util.rs).
 *
 * A machine word is a natural number. `count_ones` is Popcount, and the
 * position of the k-th set bit (counting from 0, least significant first) is
 * Select. The select helpers of the source clear the lowest set bit k times
 * with `w &= w.wrapping_sub(1)` and then take `trailing_zeros`; the lemmas
 * below show that this lands on Select(w, k).
 */
module EfUtil {
  import opened Common
  import opened BitField

  /** Elements per skip-table entry. */
  const SKIP_INTERVAL: nat := 64

  // ---------------------------------------------------------------------
  // Population count and select.

  /** `count_ones`. */
  function Popcount(w: nat): nat
  {
    if w == 0 then 0 else w % 2 + Popcount(w / 2)
  }

  /** The position of the k-th set bit of w (0-based, from the least significant). */
  function Select(w: nat, k: nat): nat
    requires k < Popcount(w)
  {
    if w % 2 == 1 then (if k == 0 then 0 else 1 + Select(w / 2, k - 1))
    else 1 + Select(w / 2, k)
  }

  /** `trailing_zeros` of a non-zero word. */
  function TrailingZeros(w: nat): nat
    requires w > 0
  {
    if w % 2 == 1 then 0 else 1 + TrailingZeros(w / 2)
  }

  /** `w.trailing_zeros()` on a `width`-bit register: the width when w is 0. */
  function TrailingZerosIn(w: nat, width: nat): nat
  {
    if w == 0 then width else TrailingZeros(w)
  }

  /** `w.wrapping_sub(1)` on a `width`-bit register. */
  function WrapDec(w: nat, width: nat): nat
  {
    if w == 0 then Pow2(width) - 1 else w - 1
  }

  // ---------------------------------------------------------------------
  // Facts about Popcount and Select.

  lemma {:induction false} PopcountZero(w: nat)
    ensures Popcount(w) == 0 <==> w == 0
  {
    if w > 0 {
      if w % 2 == 0 {
        PopcountZero(w / 2);
      }
    }
  }

  lemma {:induction false} PopcountDouble(x: nat)
    ensures Popcount(2 * x) == Popcount(x)
  {
    if x > 0 {
      assert (2 * x) % 2 == 0 && (2 * x) / 2 == x;
    }
  }

  lemma {:induction false} SelectDouble(x: nat, k: nat)
    requires k < Popcount(x)
    ensures k < Popcount(2 * x) && Select(2 * x, k) == 1 + Select(x, k)
  {
    PopcountDouble(x);
    assert (2 * x) % 2 == 0 && (2 * x) / 2 == x;
  }

  /** The k-th set bit is at position k or above, and below the word's width. */
  lemma {:induction false} SelectBounds(w: nat, k: nat, n: nat)
    requires k < Popcount(w) && w < Pow2(n)
    ensures k <= Select(w, k) < n
  {
    if n == 0 {
      PopcountZero(w);
    } else {
      HalfStep(w, w, 0, n);
      if w % 2 == 1 {
        if k > 0 {
          SelectBounds(w / 2, k - 1, n - 1);
        }
      } else {
        SelectBounds(w / 2, k, n - 1);
      }
    }
  }

  /** Later set bits sit strictly higher. */
  lemma {:induction false} SelectIncreasing(w: nat, j: nat, k: nat)
    requires j < k < Popcount(w)
    ensures Select(w, j) < Select(w, k)
  {
    if w % 2 == 1 {
      if j > 0 {
        SelectIncreasing(w / 2, j - 1, k - 1);
      }
    } else {
      SelectIncreasing(w / 2, j, k);
    }
  }

  /** Select(w, 0) is where the trailing zeros end. */
  lemma {:induction false} TrailingZerosIsSelect(w: nat)
    requires w > 0
    ensures 0 < Popcount(w) && TrailingZeros(w) == Select(w, 0)
  {
    PopcountZero(w);
    if w % 2 == 0 {
      PopcountZero(w / 2);
      TrailingZerosIsSelect(w / 2);
    }
  }

  /**
   * Cutting x == lo + 2^a * hi: the set bits of x are those of lo followed by
   * those of hi, moved up by a.
   */
  lemma {:induction false} PopcountJoin(x: nat, lo: nat, hi: nat, a: nat)
    requires lo < Pow2(a) && x == lo + Pow2(a) * hi
    ensures Popcount(x) == Popcount(lo) + Popcount(hi)
  {
    if a > 0 {
      HalfStep(x, lo, hi, a);
      PopcountJoin(x / 2, lo / 2, hi, a - 1);
      if x == 0 {
        assert lo == 0 && x / 2 == 0;
      }
    }
  }

  /** One bit at a time: the low bit, then the rest shifted down. */
  lemma {:induction false} PopcountHalf(x: nat)
    ensures Popcount(x) == x % 2 + Popcount(x / 2)
  {
  }

  lemma {:induction false} SelectHalf(x: nat, k: nat)
    requires k < Popcount(x) && !(x % 2 == 1 && k == 0)
    ensures k - x % 2 < Popcount(x / 2) && Select(x, k) == 1 + Select(x / 2, k - x % 2)
  {
    PopcountHalf(x);
  }

  lemma {:induction false} SelectJoinLow(x: nat, lo: nat, hi: nat, a: nat, k: nat)
    requires lo < Pow2(a) && x == lo + Pow2(a) * hi && k < Popcount(lo)
    ensures k < Popcount(x) && Select(x, k) == Select(lo, k)
  {
    PopcountJoin(x, lo, hi, a);
    if a > 0 {
      HalfStep(x, lo, hi, a);
      if !(lo % 2 == 1 && k == 0) {
        PopcountHalf(lo);
        SelectJoinLow(x / 2, lo / 2, hi, a - 1, k - lo % 2);
        SelectHalf(x, k);
        SelectHalf(lo, k);
      }
    }
  }

  lemma {:induction false} SelectJoinHigh(x: nat, lo: nat, hi: nat, a: nat, k: nat)
    requires lo < Pow2(a) && x == lo + Pow2(a) * hi
    requires Popcount(lo) <= k < Popcount(lo) + Popcount(hi)
    ensures k < Popcount(x) && Select(x, k) == a + Select(hi, k - Popcount(lo))
  {
    assert k < Popcount(x) by { PopcountJoin(x, lo, hi, a); }
    if a > 0 {
      var b, lo2, x2 := lo % 2, lo / 2, x / 2;
      assert x % 2 == b && lo2 < Pow2(a - 1) && x2 == lo2 + Pow2(a - 1) * hi by {
        HalfStep(x, lo, hi, a);
      }
      assert Popcount(lo) == b + Popcount(lo2) by { PopcountHalf(lo); }
      var k' := k - b;
      assert Select(x2, k') == a - 1 + Select(hi, k - Popcount(lo)) by {
        SelectJoinHigh(x2, lo2, hi, a - 1, k');
      }
      assert Select(x, k) == 1 + Select(x2, k') by { SelectHalf(x, k); }
    } else {
      assert lo == 0 && x == hi;
    }
  }

  /** The ones below bit p + m are those below p and those of the m-bit field at p. */
  lemma {:induction false} PopcountWindow(v: nat, p: nat, m: nat)
    ensures Popcount(v % Pow2(p + m)) == Popcount(v % Pow2(p)) + Popcount(Field(v, p, m))
  {
    var lo, mid := v % Pow2(p), Field(v, p, m);
    var x := v % Pow2(p + m);
    Pow2Add(p, m);
    DivDiv(v, Pow2(p), Pow2(m));
    assert x == lo + Pow2(p) * mid;
    PopcountJoin(x, lo, mid, p);
  }

  /**
   * When j ones lie below bit p, the (j + k)-th one of v is the k-th one of
   * the m-bit field at p, moved up by p.
   */
  lemma {:induction false} SelectWindow(v: nat, p: nat, m: nat, j: nat, k: nat)
    requires Popcount(v % Pow2(p)) == j && k < Popcount(Field(v, p, m))
    ensures j + k < Popcount(v) && Select(v, j + k) == p + Select(Field(v, p, m), k)
  {
    var lo, hi, mid := v % Pow2(p), Shr(v, p), Field(v, p, m);
    assert k < Popcount(hi) && Select(hi, k) == Select(mid, k) by {
      var top := Shr(hi, m);
      CutAt(hi, m);
      SelectJoinLow(hi, mid, top, m, k);
    }
    assert j + k < Popcount(v) && Select(v, j + k) == p + Select(hi, k) by {
      CutAt(v, p);
      SelectJoinHigh(v, lo, hi, p, j + k);
    }
  }

  /** v is its low a bits plus 2^a times the rest. */
  lemma CutAt(v: nat, a: nat)
    ensures v % Pow2(a) < Pow2(a) && v == v % Pow2(a) + Pow2(a) * Shr(v, a)
  {
  }

  /** v has at least as many ones as the field at p together with those below p. */
  lemma {:induction false} PopcountOfWindow(v: nat, p: nat, m: nat)
    ensures Popcount(v % Pow2(p)) + Popcount(Field(v, p, m)) <= Popcount(v)
  {
    PopcountWindow(v, p, m);
    var x := v % Pow2(p + m);
    assert v == x + Pow2(p + m) * Shr(v, p + m);
    PopcountJoin(v, x, Shr(v, p + m), p + m);
  }

  /** Below the k-th one there are exactly k ones, and k + 1 up to and including it. */
  lemma {:induction false} PopcountBelowSelect(w: nat, k: nat)
    requires k < Popcount(w)
    ensures Popcount(w % Pow2(Select(w, k))) == k
    ensures Popcount(w % Pow2(Select(w, k) + 1)) == k + 1
  {
    if w % 2 == 1 && k == 0 {
      assert Select(w, k) == 0;
      assert w % Pow2(1) == 1 by { HalfStep(w, w % 2, w / 2, 1); }
    } else {
      var k' := k - w % 2;
      var q := Select(w / 2, k');
      assert k' < Popcount(w / 2) && Select(w, k) == q + 1 by { SelectHalf(w, k); }
      PopcountBelowSelect(w / 2, k');
      PopcountsOfHalf(w, q);
    }
  }

  /** The ones of w below q + 1 and q + 2 are its low bit plus those of w / 2 below q and q + 1. */
  lemma {:induction false} PopcountsOfHalf(w: nat, q: nat)
    ensures Popcount(w % Pow2(q + 1)) == w % 2 + Popcount((w / 2) % Pow2(q))
    ensures Popcount(w % Pow2(q + 2)) == w % 2 + Popcount((w / 2) % Pow2(q + 1))
  {
    ModOfHalf(w, q);
    ModOfHalf(w, q + 1);
  }

  /** w % 2^(q + 1) is the low bit of w and then (w / 2) % 2^q. */
  lemma {:induction false} ModOfHalf(w: nat, q: nat)
    ensures w % Pow2(q + 1) == w % 2 + 2 * ((w / 2) % Pow2(q))
    ensures Popcount(w % Pow2(q + 1)) == w % 2 + Popcount((w / 2) % Pow2(q))
  {
    Pow2Add(1, q);
    DivDiv(w, 2, Pow2(q));
    var r := (w / 2) % Pow2(q);
    var y := w % 2 + 2 * r;
    HalfStep(y, w % 2, r, 1);
    if y > 0 {
    } else {
      PopcountZero(r);
    }
  }

  /** `x & ((1 << k) - 1)` keeps the k low bits of x. */
  lemma {:induction false} MaskIsMod(x: nat, k: nat)
    ensures BitAnd(x, Pow2(k) - 1) == x % Pow2(k)
  {
    if k == 0 {
      assert Pow2(k) == 1;
    } else if x == 0 {
    } else {
      var m, h := Pow2(k) - 1, Pow2(k - 1) - 1;
      assert m == 2 * h + 1;
      assert m / 2 == h && m % 2 == 1;
      var a, r := BitAnd(x / 2, h), (x / 2) % Pow2(k - 1);
      assert BitAnd(x, m) == x % 2 + 2 * a;
      assert a == r by { MaskIsMod(x / 2, k - 1); }
      assert x % Pow2(k) == x % 2 + 2 * r by {
        Pow2Add(1, k - 1);
        DivDiv(x, 2, Pow2(k - 1));
      }
    }
  }


  /** A word of trailing zeros up to z and a one at z: its first one is at z. */
  lemma {:induction false} SelectOfTrailing(w: nat, z: nat)
    requires w % Pow2(z) == 0 && Field(w, z, 1) == 1
    ensures Popcount(w) > 0 && Select(w, 0) == z
  {
    var hi := Shr(w, z);
    assert w == 0 + Pow2(z) * hi;
    PopcountJoin(w, 0, hi, z);
    assert hi % 2 == 1;
    SelectJoinHigh(w, 0, hi, z, 0);
  }

  // ---------------------------------------------------------------------
  // Clearing the lowest set bit.

  lemma {:induction false} BitAndSelf(x: nat)
    ensures BitAnd(x, x) == x
  {
    if x > 0 {
      BitAndSelf(x / 2);
    }
  }

  lemma {:induction false} BitAndZeroRight(x: nat)
    ensures BitAnd(x, 0) == 0
  {
  }

  /** `w & (w - 1)` for w > 0 drops the lowest set bit: one fewer ones. */
  lemma {:induction false} ClearLowest(w: nat)
    requires w > 0
    ensures Popcount(BitAnd(w, w - 1)) + 1 == Popcount(w)
  {
    var r := BitAnd(w, w - 1);
    PopcountHalf(w);
    if w % 2 == 1 {
      if w > 1 {
        assert (w - 1) / 2 == w / 2 && (w - 1) % 2 == 0;
        BitAndSelf(w / 2);
        assert r == 2 * (w / 2);
        PopcountDouble(w / 2);
      }
    } else {
      var h := w / 2;
      assert (w - 1) / 2 == h - 1 && (w - 1) % 2 == 1;
      assert r == 2 * BitAnd(h, h - 1);
      ClearLowest(h);
      PopcountDouble(BitAnd(h, h - 1));
    }
  }

  /** ... and the k-th one of `w & (w - 1)` is the (k + 1)-th one of w. */
  lemma {:induction false} ClearLowestSelect(w: nat, k: nat)
    requires w > 0 && k < Popcount(BitAnd(w, w - 1))
    ensures k + 1 < Popcount(w) && Select(BitAnd(w, w - 1), k) == Select(w, k + 1)
  {
    var r := BitAnd(w, w - 1);
    ClearLowest(w);
    SelectHalf(w, k + 1);
    if w % 2 == 1 {
      assert (w - 1) / 2 == w / 2 && (w - 1) % 2 == 0;
      BitAndSelf(w / 2);
      assert r == 2 * (w / 2);
      PopcountDouble(w / 2);
      SelectDouble(w / 2, k);
    } else {
      var h := w / 2;
      assert (w - 1) / 2 == h - 1 && (w - 1) % 2 == 1;
      var r' := BitAnd(h, h - 1);
      assert r == 2 * r';
      PopcountDouble(r');
      ClearLowestSelect(h, k);
      SelectDouble(r', k);
    }
  }

  /**
   * One step of the select loops, `w &= w.wrapping_sub(1)` on a width-bit
   * register: 0 stays 0, otherwise the lowest one is dropped.
   */
  lemma StepClear(w: nat, width: nat)
    requires w < Pow2(width)
    ensures BitAnd(w, WrapDec(w, width)) < Pow2(width)
    ensures w == 0 ==> BitAnd(w, WrapDec(w, width)) == 0
    ensures w > 0 ==> Popcount(BitAnd(w, WrapDec(w, width))) + 1 == Popcount(w)
    ensures w > 0 ==> forall k: nat :: k < Popcount(BitAnd(w, WrapDec(w, width))) ==>
      k + 1 < Popcount(w) && Select(BitAnd(w, WrapDec(w, width)), k) == Select(w, k + 1)
  {
    if w > 0 {
      ClearLowest(w);
      forall k: nat | k < Popcount(BitAnd(w, WrapDec(w, width)))
        ensures k + 1 < Popcount(w) && Select(BitAnd(w, WrapDec(w, width)), k) == Select(w, k + 1)
      {
        ClearLowestSelect(w, k);
      }
    }
  }

  // ---------------------------------------------------------------------
  // The helpers of util.rs.

  /**
   * `select_bit_in_byte(w, needed)`: the position of the needed-th set bit
   * of the byte, or 8 (`trailing_zeros` of 0) when it has no more ones.
   */
  method SelectBitInByte(w0: u8, needed: nat) returns (r: nat)
    ensures needed < Popcount(w0) ==> r == Select(w0, needed)
    ensures needed >= Popcount(w0) ==> r == 8
  {
    var w: nat := w0;
    assert w < Pow2(8) by { Pow2Values(); }
    ClearedStart(w0);
    for i := 0 to needed
      invariant w < Pow2(8) && Cleared(w0, i, w)
    {
      ClearedStep(w0, i, w, 8);
      w := BitAnd(w, WrapDec(w, 8));
    }
    ClearedEnd(w0, needed, w);
    r := TrailingZerosIn(w, 8);
  }

  /**
   * `select_bit_in_u64(w, needed)`: the position of the needed-th set bit
   * of the word, or 64 when it has no more ones.
   */
  method SelectBitInU64(w0: u64, needed0: nat) returns (r: nat)
    ensures needed0 < Popcount(w0) ==> r == Select(w0, needed0)
    ensures needed0 >= Popcount(w0) ==> r == 64
  {
    var w: nat := w0;
    var needed: nat := needed0;
    assert w < Pow2(64) by { Pow2Values(); }
    ClearedStart(w0);
    while needed > 0
      invariant needed <= needed0 && w < Pow2(64) && Cleared(w0, needed0 - needed, w)
    {
      ClearedStep(w0, needed0 - needed, w, 64);
      w := BitAnd(w, WrapDec(w, 64));  // clear the lowest set bit
      needed := needed - 1;
    }
    assert needed0 - needed == needed0;
    ClearedEnd(w0, needed0, w);
    r := TrailingZerosIn(w, 64);
  }

  /** After i rounds of clearing the lowest one of w0, w holds the ones of w0 from the i-th on. */
  predicate Cleared(w0: nat, i: nat, w: nat)
  {
    && (i <= Popcount(w0) ==> Popcount(w) + i == Popcount(w0))
    && (i <= Popcount(w0) ==> forall k: nat :: k < Popcount(w) ==>
         k + i < Popcount(w0) && Select(w, k) == Select(w0, k + i))
    && (i >= Popcount(w0) ==> w == 0)
  }

  lemma ClearedStart(w0: nat)
    ensures Cleared(w0, 0, w0)
  {
    PopcountZero(w0);
  }

  lemma ClearedStep(w0: nat, i: nat, w: nat, width: nat)
    requires w < Pow2(width) && Cleared(w0, i, w)
    ensures BitAnd(w, WrapDec(w, width)) < Pow2(width)
    ensures Cleared(w0, i + 1, BitAnd(w, WrapDec(w, width)))
  {
    StepClear(w, width);
    PopcountZero(w);
    PopcountZero(BitAnd(w, WrapDec(w, width)));
  }

  lemma ClearedEnd(w0: nat, n: nat, w: nat)
    requires Cleared(w0, n, w)
    ensures n < Popcount(w0) ==> w > 0 && TrailingZeros(w) == Select(w0, n)
    ensures n >= Popcount(w0) ==> w == 0
  {
    if n < Popcount(w0) {
      PopcountZero(w);
      TrailingZerosIsSelect(w);
    }
  }

  /**
   * The little-endian u64 at byte b, with bytes past the end of data read
   * as zero: what `load_u64_safe` and the unaligned loads of the view see.
   */
  function WordAt(data: seq<u8>, b: nat): nat
  {
    if b <= |data| then LeValue(data[b..Min(b + 8, |data|)]) else 0
  }

  /** `load_u64_safe(data, byte_idx)`: OR the available bytes into place. */
  method LoadU64Safe(data: seq<u8>, byte_idx: nat) returns (w: u64)
    ensures w == WordAt(data, byte_idx)
    ensures byte_idx >= |data| ==> w == 0
  {
    var remaining := Min(if |data| >= byte_idx then |data| - byte_idx else 0, 8);
    w := 0;
    for i := 0 to remaining
      invariant w == if byte_idx <= |data| then LeValue(data[byte_idx..byte_idx + i]) else 0
    {
      w := OrByte(data, byte_idx, i, w);
    }
    assert byte_idx <= |data| ==> data[byte_idx..byte_idx + remaining] == data[byte_idx..Min(byte_idx + 8, |data|)];
  }

  /** `w | (data[b + i] << (8 * i))` where w holds the bytes b..b + i. */
  function OrByte(data: seq<u8>, b: nat, i: nat, w: nat): (r: u64)
    requires b + i < |data| && i < 8 && w == LeValue(data[b..b + i])
    ensures r == LeValue(data[b..b + i + 1])
  {
    OrByteValue(data, b, i, w);
    BitOr(w, Shl(data[b + i], 8 * i))
  }

  lemma {:induction false} OrByteValue(data: seq<u8>, b: nat, i: nat, w: nat)
    requires b + i < |data| && i < 8 && w == LeValue(data[b..b + i])
    ensures BitOr(w, Shl(data[b + i], 8 * i)) == LeValue(data[b..b + i + 1]) < TWO64
  {
    var x: nat := data[b + i];
    assert LeValue(data[b..b + i + 1]) == w + Pow2(8 * i) * x by {
      LeValueExtend(data, b, i);
    }
    assert w < Pow2(8 * i) by { LeValueBound(data[b..b + i]); }
    OrDisjoint(w, x, 8 * i);
    assert LeValue(data[b..b + i + 1]) < TWO64 by {
      LeValueBound(data[b..b + i + 1]);
      Pow2Mono(8 * (i + 1), 64);
      Pow2Values();
    }
  }

  /** The whole 64-bit field of an 8-byte little-endian word is the word. */
  lemma {:induction false} FieldOfWord(word: seq<u8>)
    requires |word| == 8
    ensures Field(LeValue(word), 0, 64) == LeValue(word)
  {
    assert 8 * |word| == 64;
    FieldWhole(LeValue(word), 64);
  }

  /** The bytes of WordAt are bits 8 * (b - s) on of the string from s. */
  lemma {:induction false} WordAtField(data: seq<u8>, s: nat, b: nat)
    requires s <= b && s <= |data|
    ensures Field(LeValue(data[s..]), 8 * (b - s), 64) == WordAt(data, b)
  {
    var bs := data[s..];
    var i := b - s;
    if b + 8 <= |data| {
      var word := bs[i..i + 8];
      assert |word| == 8;
      FieldLe(bs, i, i + 8, 0, 64);
      FieldOfWord(word);
      SliceOfDrop(data, s, i, i + 8);
    } else if b <= |data| {
      assert WordAt(data, b) == LeValue(data[b..|data|]);
      assert bs[i..] == data[b..|data|];
      FieldLeTail(bs, i);
    } else {
      FieldLePastEnd(bs, 8 * i, 64);
    }
  }

  /**
   * `read_bits_u64_at(data, base_offset, bit_idx, len)`: len bits of the
   * 64-bit word at byte base_offset + bit_idx / 8, from bit bit_idx % 8.
   * The source needs len < 64 (for `1 << len`) and the start byte not past the
   * end (its slow path computes `end - byte_idx`).
   */
  method ReadBitsU64At(data: seq<u8>, base_offset: nat, bit_idx: nat, len: nat) returns (r: u64)
    requires len < 64
    requires len > 0 ==> base_offset + bit_idx / 8 <= |data|
    ensures len == 0 ==> r == 0
    ensures len > 0 ==> r == Field(WordAt(data, base_offset + bit_idx / 8), bit_idx % 8, len)
    ensures len > 0 && bit_idx % 8 + len <= 64 ==> r == Field(LeValue(data[base_offset..]), bit_idx, len)
  {
    if len == 0 {
      return 0;
    }
    var byte_idx := base_offset + bit_idx / 8;
    var bit_offset := bit_idx % 8;
    var word: nat;
    if byte_idx + 8 <= |data| {
      // Fast path: one unaligned little-endian load.
      word := LeValue(data[byte_idx..byte_idx + 8]);
    } else {
      // Slow path: the bytes up to the end, OR-ed into place.
      var w: u64 := 0;
      var end := Min(byte_idx + 8, |data|);
      for i := 0 to end - byte_idx
        invariant w == LeValue(data[byte_idx..byte_idx + i])
      {
        w := OrByte(data, byte_idx, i, w);
      }
      assert data[byte_idx..byte_idx + (end - byte_idx)] == data[byte_idx..end];
      word := w;
    }
    assert word == WordAt(data, byte_idx);
    assert Pow2(len) <= TWO64 by { Pow2Mono(len, 64); Pow2Values(); }
    r := Field(word, bit_offset, len);  // (word >> bit_offset) & ((1 << len) - 1)
    if bit_offset + len <= 64 {
      assert r == Field(LeValue(data[base_offset..]), bit_idx, len) by {
        WordAtField(data, base_offset, byte_idx);
        FieldOfField(LeValue(data[base_offset..]), 8 * (bit_idx / 8), 64, bit_offset, len);
        assert 8 * (bit_idx / 8) + bit_offset == bit_idx;
      }
    }
  }
}
