/**
 * The 2-byte group header `Head` (jdb_ftl/src/ftl/frame.rs).
 *
 * Layout of the packed u16:
 *   PGM mode:    bits 0-13 segment count, bit 14 reserved, bit 15 clear;
 *   direct mode: bit 15 set, bits 11-14 count, bits 5-10 width,
 *                bits 2-4 base_len, bits 0-1 reserved.
 *
 * The word-level functions below read and write those fields; the class
 * `Head` holds the packed word and its setters update it in place.
 */
module Frame {
  import opened Common
  import opened BitField

  const FLAG_DIRECT_BIT: nat := 15
  const SEG_NUM_BITS: nat := 14
  const SEG_NUM_MASK: nat := 0x3FFF

  // ---------------------------------------------------------------------
  // Getters on the packed word.

  /** `packed & SEG_NUM_MASK`. */
  function SegNumOf(p: u16): nat { Field(p, 0, SEG_NUM_BITS) }

  /** `packed & FLAG_DIRECT != 0`. */
  function IsDirectOf(p: u16): bool { Field(p, FLAG_DIRECT_BIT, 1) == 1 }

  /** `(packed >> 11) & 0xF`. */
  function CountOf(p: u16): nat { Field(p, 11, 4) }

  /** `(packed >> 5) & 0x3F`. */
  function WidthOf(p: u16): nat { Field(p, 5, 6) }

  /** `(packed >> 2) & 0x7`. */
  function BaseLenOf(p: u16): nat { Field(p, 2, 3) }

  /** `is_empty`: only a direct header can be empty, when it holds no entry. */
  function IsEmptyOf(p: u16): bool
  {
    if IsDirectOf(p) then CountOf(p) == 0 else false
  }

  // ---------------------------------------------------------------------
  // Setters on the packed word.

  /** `set_seg_num`: `(packed & FLAG_DIRECT) | (num & SEG_NUM_MASK)`. */
  function WithSegNum(p: u16, num: u16): u16
  {
    Field(p, FLAG_DIRECT_BIT, 1) * Pow2(FLAG_DIRECT_BIT) + num % Pow2(SEG_NUM_BITS)
  }

  /** `set_direct`: or in the flag bit, or and with its complement. */
  function WithDirect(p: u16, direct: bool): u16
  {
    Pow2Values();
    SetFieldBound(p, 16, FLAG_DIRECT_BIT, 1, if direct then 1 else 0);
    SetField(p, FLAG_DIRECT_BIT, 1, if direct then 1 else 0)
  }

  /** `set_count`: `(packed & !(0xF << 11)) | ((n & 0xF) << 11)`. */
  function WithCount(p: u16, n: u8): u16
  {
    Pow2Values();
    SetFieldBound(p, 16, 11, 4, n);
    SetField(p, 11, 4, n)
  }

  /** `set_width`: `(packed & !(0x3F << 5)) | ((w & 0x3F) << 5)`. */
  function WithWidth(p: u16, w: u8): u16
  {
    Pow2Values();
    SetFieldBound(p, 16, 5, 6, w);
    SetField(p, 5, 6, w)
  }

  /** `set_base_len`: `(packed & !(0x7 << 2)) | ((len & 0x7) << 2)`. */
  function WithBaseLen(p: u16, len: u8): u16
  {
    Pow2Values();
    SetFieldBound(p, 16, 2, 3, len);
    SetField(p, 2, 3, len)
  }

  // ---------------------------------------------------------------------
  // What each setter does to every field.

  /** The all-zero header is a PGM header with no segments. */
  lemma {:induction false} ZeroHead()
    ensures !IsDirectOf(0) && SegNumOf(0) == 0 && !IsEmptyOf(0)
  {
    FieldOfZero(FLAG_DIRECT_BIT, 1);
    FieldOfZero(0, SEG_NUM_BITS);
  }

  /** set_seg_num stores num masked to 14 bits, keeps the flag, clears bit 14. */
  lemma {:induction false} WithSegNumFields(p: u16, num: u16)
    ensures SegNumOf(WithSegNum(p, num)) == num % 0x4000
    ensures IsDirectOf(WithSegNum(p, num)) == IsDirectOf(p)
    ensures Field(WithSegNum(p, num), 14, 1) == 0
  {
    Pow2Table();
    var f := Field(p, FLAG_DIRECT_BIT, 1);
    var r := num % 0x4000;
    var q := WithSegNum(p, num);
    assert q == r + 0x4000 * (2 * f);
    ShrOfSum(r, 2 * f, 14);
    assert Shr(q, 0) == q;
    ShrOfSum(0, f, 1);
    ShrOfSum(r, f, 15);
  }

  /** set_direct(b) makes is_direct() == b and leaves bits 0-14 unchanged. */
  lemma {:induction false} WithDirectFields(p: u16, direct: bool)
    ensures IsDirectOf(WithDirect(p, direct)) == direct
    ensures Field(WithDirect(p, direct), 0, 15) == Field(p, 0, 15)
  {
    Pow2Values();
    FieldOfSetField(p, FLAG_DIRECT_BIT, 1, if direct then 1 else 0);
    FieldOfSetFieldOther(p, 16, FLAG_DIRECT_BIT, 1, if direct then 1 else 0, 0, 15);
  }

  /** set_count stores n & 0xF and leaves the flag, width, base_len and reserved bits. */
  lemma {:induction false} WithCountFields(p: u16, n: u8)
    ensures CountOf(WithCount(p, n)) == n % 16
    ensures IsDirectOf(WithCount(p, n)) == IsDirectOf(p)
    ensures WidthOf(WithCount(p, n)) == WidthOf(p)
    ensures BaseLenOf(WithCount(p, n)) == BaseLenOf(p)
    ensures Field(WithCount(p, n), 0, 2) == Field(p, 0, 2)
  {
    FieldOfSetField(p, 11, 4, n);
    FieldOfSetFieldOther(p, 16, 11, 4, n, FLAG_DIRECT_BIT, 1);
    FieldOfSetFieldOther(p, 16, 11, 4, n, 5, 6);
    FieldOfSetFieldOther(p, 16, 11, 4, n, 2, 3);
    FieldOfSetFieldOther(p, 16, 11, 4, n, 0, 2);
  }

  /** set_width stores w & 0x3F and leaves the flag, count, base_len and reserved bits. */
  lemma {:induction false} WithWidthFields(p: u16, w: u8)
    ensures WidthOf(WithWidth(p, w)) == w % 64
    ensures IsDirectOf(WithWidth(p, w)) == IsDirectOf(p)
    ensures CountOf(WithWidth(p, w)) == CountOf(p)
    ensures BaseLenOf(WithWidth(p, w)) == BaseLenOf(p)
    ensures Field(WithWidth(p, w), 0, 2) == Field(p, 0, 2)
  {
    FieldOfSetField(p, 5, 6, w);
    FieldOfSetFieldOther(p, 16, 5, 6, w, FLAG_DIRECT_BIT, 1);
    FieldOfSetFieldOther(p, 16, 5, 6, w, 11, 4);
    FieldOfSetFieldOther(p, 16, 5, 6, w, 2, 3);
    FieldOfSetFieldOther(p, 16, 5, 6, w, 0, 2);
  }

  /** set_base_len stores len & 0x7 and leaves the flag, count, width and reserved bits. */
  lemma {:induction false} WithBaseLenFields(p: u16, len: u8)
    ensures BaseLenOf(WithBaseLen(p, len)) == len % 8
    ensures IsDirectOf(WithBaseLen(p, len)) == IsDirectOf(p)
    ensures CountOf(WithBaseLen(p, len)) == CountOf(p)
    ensures WidthOf(WithBaseLen(p, len)) == WidthOf(p)
    ensures Field(WithBaseLen(p, len), 0, 2) == Field(p, 0, 2)
  {
    FieldOfSetField(p, 2, 3, len);
    FieldOfSetFieldOther(p, 16, 2, 3, len, FLAG_DIRECT_BIT, 1);
    FieldOfSetFieldOther(p, 16, 2, 3, len, 11, 4);
    FieldOfSetFieldOther(p, 16, 2, 3, len, 5, 6);
    FieldOfSetFieldOther(p, 16, 2, 3, len, 0, 2);
  }

  /** A direct header with count 0 is empty; a PGM header never is. */
  lemma {:induction false} IsEmptyCases(p: u16)
    ensures IsEmptyOf(WithCount(WithDirect(p, true), 0))
    ensures !IsEmptyOf(WithDirect(p, false))
  {
    WithDirectFields(p, true);
    WithDirectFields(p, false);
    WithCountFields(WithDirect(p, true), 0);
  }

  // ---------------------------------------------------------------------
  // The header object.

  class Head {
    var packed: u16

    /** `Head::new()`: all bits clear. */
    constructor ()
      ensures packed == 0
      ensures !IsDirect() && SegNum() == 0
    {
      packed := 0;
      new;
      ZeroHead();
    }

    /** `Head::with_seg_num`: the caller keeps seg_num within 14 bits. */
    constructor WithSegNumber(seg_num: u16)
      requires seg_num <= SEG_NUM_MASK
      ensures packed == seg_num
      ensures !IsDirect() && SegNum() == seg_num
    {
      packed := seg_num;
      new;
      assert packed == WithSegNum(0, seg_num) by { FieldOfZero(FLAG_DIRECT_BIT, 1); }
      WithSegNumFields(0, seg_num);
      ZeroHead();
    }

    /** `Head::from_bytes`: the first two bytes, little-endian. */
    constructor FromBytes(bytes: seq<u8>)
      requires |bytes| >= 2
      ensures packed == LeValue(bytes[..2])
    {
      packed := LeValue(bytes[..2]);
    }

    /** `as_bytes`: the packed word as two little-endian bytes. */
    function AsBytes(): (r: seq<u8>)
      reads this
      ensures |r| == 2 && LeValue(r) == packed
    {
      Pow2Values();
      LeValueOfLeBytes(packed, 2);
      LeBytes(packed, 2)
    }

    function SegNum(): nat reads this { SegNumOf(packed) }
    function IsDirect(): bool reads this { IsDirectOf(packed) }
    function IsEmpty(): bool reads this { IsEmptyOf(packed) }
    function Count(): nat reads this { CountOf(packed) }
    function Width(): nat reads this { WidthOf(packed) }
    function BaseLen(): nat reads this { BaseLenOf(packed) }

    method SetSegNum(num: u16)
      modifies this
      ensures packed == WithSegNum(old(packed), num)
      ensures SegNum() == num % 0x4000 && IsDirect() == old(IsDirect())
    {
      WithSegNumFields(packed, num);
      packed := WithSegNum(packed, num);
    }

    method SetDirect(direct: bool)
      modifies this
      ensures packed == WithDirect(old(packed), direct)
      ensures IsDirect() == direct && Field(packed, 0, 15) == Field(old(packed), 0, 15)
    {
      WithDirectFields(packed, direct);
      packed := WithDirect(packed, direct);
    }

    method SetCount(n: u8)
      modifies this
      ensures packed == WithCount(old(packed), n)
      ensures Count() == n % 16 && IsDirect() == old(IsDirect())
      ensures Width() == old(Width()) && BaseLen() == old(BaseLen())
    {
      WithCountFields(packed, n);
      packed := WithCount(packed, n);
    }

    method SetWidth(w: u8)
      modifies this
      ensures packed == WithWidth(old(packed), w)
      ensures Width() == w % 64 && IsDirect() == old(IsDirect())
      ensures Count() == old(Count()) && BaseLen() == old(BaseLen())
    {
      WithWidthFields(packed, w);
      packed := WithWidth(packed, w);
    }

    method SetBaseLen(len: u8)
      modifies this
      ensures packed == WithBaseLen(old(packed), len)
      ensures BaseLen() == len % 8 && IsDirect() == old(IsDirect())
      ensures Count() == old(Count()) && Width() == old(Width())
    {
      WithBaseLenFields(packed, len);
      packed := WithBaseLen(packed, len);
    }
  }
}
