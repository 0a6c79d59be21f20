/**
 * The payload's 4-byte group header and 12-byte segment descriptor
 * (jdb_ftl/src/ftl/seg/mod.rs), and where the descriptor table starts.
 *
 * GroupHeader u32: bits 0-1 mode, 2-11 seg_count, 12-23 outlier_count,
 * 24-29 outlier_bw, 30-31 flags.
 *
 * Seg, three u32 words each stored as two u16 halves:
 *   w0 = base bits 0-31;
 *   w1 = base bits 32-47 | bit_offset bits 0-15 << 16;
 *   w2 = bit_offset bits 16-19 | slope (22-bit two's complement) << 4 | width << 26.
 *
 * An `|` of masked, shifted, non-overlapping parts is written as a sequence
 * of `SetField`s on zero.
 */
module SegLayout {
  import opened Common
  import opened BitField
  import EfWriter

  // ---------------------------------------------------------------------
  // GroupHeader

  const GROUP_HEADER_SIZE: nat := 4

  datatype GroupHeader = GroupHeader(word: u32)
  {
    function Mode(): nat { Field(word, 0, 2) }
    function SegCount(): nat { Field(word, 2, 10) }
    function OutlierCount(): nat { Field(word, 12, 12) }
    function OutlierBw(): nat { Field(word, 24, 6) }
    function Flags(): nat { Field(word, 30, 2) }
  }

  /** `GroupHeader::new`: each argument masked to its field width. */
  function NewGroupHeader(mode: u8, seg_count: u16, outlier_count: u16, outlier_bw: u8): GroupHeader
  {
    Pow2Values();
    var w1 := SetField(0, 0, 2, mode);
    SetFieldBound(0, 32, 0, 2, mode);
    var w2 := SetField(w1, 2, 10, seg_count);
    SetFieldBound(w1, 32, 2, 10, seg_count);
    var w3 := SetField(w2, 12, 12, outlier_count);
    SetFieldBound(w2, 32, 12, 12, outlier_count);
    var w4 := SetField(w3, 24, 6, outlier_bw);
    SetFieldBound(w3, 32, 24, 6, outlier_bw);
    GroupHeader(w4)
  }

  /** `GroupHeader::from_bytes`: four bytes, little-endian. */
  function GroupHeaderFromBytes(bytes: seq<u8>): GroupHeader
    requires |bytes| >= GROUP_HEADER_SIZE
  {
    Pow2Values();
    GroupHeader(LeValue(bytes[..4]))
  }

  /**
   * Every field reads back its argument masked to the field's width,
   * and the two flag bits of a fresh header are clear.
   */
  lemma {:induction false} GroupHeaderFields(mode: u8, seg_count: u16, outlier_count: u16, outlier_bw: u8)
    ensures NewGroupHeader(mode, seg_count, outlier_count, outlier_bw).Mode() == mode % 4
    ensures NewGroupHeader(mode, seg_count, outlier_count, outlier_bw).SegCount() == seg_count % 1024
    ensures NewGroupHeader(mode, seg_count, outlier_count, outlier_bw).OutlierCount() == outlier_count % 4096
    ensures NewGroupHeader(mode, seg_count, outlier_count, outlier_bw).OutlierBw() == outlier_bw % 64
    ensures NewGroupHeader(mode, seg_count, outlier_count, outlier_bw).Flags() == 0
  {
    Pow2Table();
    var w1 := SetField(0, 0, 2, mode);
    SetFieldBound(0, 32, 0, 2, mode);
    var w2 := SetField(w1, 2, 10, seg_count);
    SetFieldBound(w1, 32, 2, 10, seg_count);
    var w3 := SetField(w2, 12, 12, outlier_count);
    SetFieldBound(w2, 32, 12, 12, outlier_count);
    // mode
    FieldOfSetField(0, 0, 2, mode);
    FieldOfSetFieldOther(w1, 32, 2, 10, seg_count, 0, 2);
    FieldOfSetFieldOther(w2, 32, 12, 12, outlier_count, 0, 2);
    FieldOfSetFieldOther(w3, 32, 24, 6, outlier_bw, 0, 2);
    // seg_count
    FieldOfSetField(w1, 2, 10, seg_count);
    FieldOfSetFieldOther(w2, 32, 12, 12, outlier_count, 2, 10);
    FieldOfSetFieldOther(w3, 32, 24, 6, outlier_bw, 2, 10);
    // outlier_count
    FieldOfSetField(w2, 12, 12, outlier_count);
    FieldOfSetFieldOther(w3, 32, 24, 6, outlier_bw, 12, 12);
    // outlier_bw
    FieldOfSetField(w3, 24, 6, outlier_bw);
    // flags
    FieldOfZero(30, 2);
    FieldOfSetFieldOther(0, 32, 0, 2, mode, 30, 2);
    FieldOfSetFieldOther(w1, 32, 2, 10, seg_count, 30, 2);
    FieldOfSetFieldOther(w2, 32, 12, 12, outlier_count, 30, 2);
    FieldOfSetFieldOther(w3, 32, 24, 6, outlier_bw, 30, 2);
  }

  // ---------------------------------------------------------------------
  // Seg

  const SEG_METADATA_SIZE: nat := 12

  datatype Seg = Seg(w0_lo: u16, w0_hi: u16, w1_lo: u16, w1_hi: u16, w2_lo: u16, w2_hi: u16)
  {
    /** `lo | (hi << 16)` of the two halves. */
    function W0(): nat { w0_lo + w0_hi * 0x1_0000 }
    function W1(): nat { w1_lo + w1_hi * 0x1_0000 }
    function W2(): nat { w2_lo + w2_hi * 0x1_0000 }

    /** `w0 | ((w1 & 0xFFFF) << 32)`. */
    function Base(): nat { W0() + Field(W1(), 0, 16) * TWO32 }

    /**
     * The 22-bit field at bit 4 of w2, sign-extended: when its bit 21 is set,
     * `raw | 0xFFC0_0000` read as an i32 is raw - 2^22.
     */
    function Slope(): int
    {
      var raw := Field(W2(), 4, 22);
      if Field(raw, 21, 1) == 1 then raw - 0x40_0000 else raw
    }

    /** `((w1 >> 16) & 0xFFFF) | ((w2 & 0xF) << 16)`. */
    function BitOffset(): nat { Field(W1(), 16, 16) + Field(W2(), 0, 4) * 0x1_0000 }

    /** `(w2 >> 26) & 0x3F`. */
    function BitWidth(): nat { Field(W2(), 26, 6) }
  }

  /** The two u16 halves of a u32 (`w as u16`, `(w >> 16) as u16`). */
  function Halves(w: u32): (r: (u16, u16))
    ensures r.0 + r.1 * 0x1_0000 == w
  {
    (w % 0x1_0000, w / 0x1_0000)
  }

  /** Word 1: the base's bits 32-47 below, the offset's low 16 bits above. */
  function Word1(base_hi: nat, bit_offset: u32): (w: u32)
    requires base_hi < TWO16
    ensures Field(w, 0, 16) == base_hi
    ensures Field(w, 16, 16) == bit_offset % TWO16
  {
    Pow2Values();
    SetFieldBound(base_hi, 32, 16, 16, bit_offset);
    FieldOfSetField(base_hi, 16, 16, bit_offset);
    FieldOfSetFieldOther(base_hi, 32, 16, 16, bit_offset, 0, 16);
    FieldWhole(base_hi, 16);
    SetField(base_hi, 16, 16, bit_offset)
  }

  /** Word 2: the offset's bits 16-19, then the 22-bit slope, then the 6-bit width. */
  function Word2(off_hi: nat, slope_bits: nat, bit_width: u8): (w: u32)
    requires off_hi < 16
    ensures Field(w, 0, 4) == off_hi
    ensures Field(w, 4, 22) == slope_bits % 0x40_0000
    ensures Field(w, 26, 6) == bit_width % 64
  {
    assert Pow2(4) == 16 && Pow2(22) == 0x40_0000 && Pow2(6) == 64 && Pow2(32) == TWO32 by { Pow2Table(); }
    var w2a := SetField(off_hi, 4, 22, slope_bits);
    SetFieldBound(off_hi, 32, 4, 22, slope_bits);
    FieldOfSetField(off_hi, 4, 22, slope_bits);
    FieldOfSetFieldOther(off_hi, 32, 4, 22, slope_bits, 0, 4);
    FieldWhole(off_hi, 4);
    SetFieldBound(w2a, 32, 26, 6, bit_width);
    FieldOfSetField(w2a, 26, 6, bit_width);
    FieldOfSetFieldOther(w2a, 32, 26, 6, bit_width, 0, 4);
    FieldOfSetFieldOther(w2a, 32, 26, 6, bit_width, 4, 22);
    SetField(w2a, 26, 6, bit_width)
  }

  /** `Seg::new`. `slope & 0x3F_FFFF` on an i32 keeps the low 22 bits of its two's complement. */
  function NewSeg(base: u64, slope: i32, bit_offset: u32, bit_width: u8): Seg
  {
    var base48 := base % 0x1_0000_0000_0000;
    var h0 := Halves(base48 % TWO32);
    var h1 := Halves(Word1(base48 / TWO32, bit_offset));
    assert Field(bit_offset, 16, 4) < 16 by { Pow2Table(); }
    var h2 := Halves(Word2(Field(bit_offset, 16, 4), slope % 0x40_0000, bit_width));
    Seg(h0.0, h0.1, h1.0, h1.1, h2.0, h2.1)
  }

  /** base() gives back the low 48 bits of the base. */
  lemma {:induction false} SegBase(base: u64, slope: i32, bit_offset: u32, bit_width: u8)
    ensures NewSeg(base, slope, bit_offset, bit_width).Base() == base % 0x1_0000_0000_0000
  {
    var base48 := base % 0x1_0000_0000_0000;
    assert base48 == base48 % TWO32 + (base48 / TWO32) * TWO32;
  }

  /** The third word of a new descriptor, as `Word2` lays it out. */
  lemma {:induction false} NewSegW2(base: u64, slope: i32, bit_offset: u32, bit_width: u8) returns (w2: u32)
    ensures Field(bit_offset, 16, 4) < 16
    ensures w2 == Word2(Field(bit_offset, 16, 4), slope % 0x40_0000, bit_width)
    ensures NewSeg(base, slope, bit_offset, bit_width).W2() == w2
  {
    assert Field(bit_offset, 16, 4) < 16 by { Pow2Table(); }
    w2 := Word2(Field(bit_offset, 16, 4), slope % 0x40_0000, bit_width);
    var h2 := Halves(w2);
    assert NewSeg(base, slope, bit_offset, bit_width).w2_lo == h2.0;
    assert NewSeg(base, slope, bit_offset, bit_width).w2_hi == h2.1;
  }

  /** slope() gives back every slope that fits in 22 signed bits. */
  lemma {:induction false} SegSlope(base: u64, slope: i32, bit_offset: u32, bit_width: u8)
    requires -0x20_0000 <= slope < 0x20_0000
    ensures NewSeg(base, slope, bit_offset, bit_width).Slope() == slope
  {
    var raw := slope % 0x40_0000;
    var w2 := NewSegW2(base, slope, bit_offset, bit_width);
    SignBit(slope);
    var seg := NewSeg(base, slope, bit_offset, bit_width);
    assert Field(seg.W2(), 4, 22) == raw;
  }

  /** Bit 21 of the low 22 bits of a 22-bit signed value is its sign. */
  lemma {:induction false} SignBit(slope: int)
    requires -0x20_0000 <= slope < 0x20_0000
    ensures (slope % 0x40_0000) % 0x40_0000 == slope % 0x40_0000
    ensures slope % 0x40_0000 == if slope < 0 then slope + 0x40_0000 else slope
    ensures Field(slope % 0x40_0000, 21, 1) == (if slope < 0 then 1 else 0)
  {
    var raw := slope % 0x40_0000;
    assert Pow2(1) == 2 && Pow2(21) == 0x20_0000 by { Pow2Table(); }
    assert Shr(raw, 21) == raw / 0x20_0000;
  }

  /** bit_offset() gives back the low 20 bits of the offset. */
  lemma {:induction false} SegBitOffset(base: u64, slope: i32, bit_offset: u32, bit_width: u8)
    ensures NewSeg(base, slope, bit_offset, bit_width).BitOffset() == bit_offset % 0x10_0000
  {
    var seg := NewSeg(base, slope, bit_offset, bit_width);
    var base48 := base % 0x1_0000_0000_0000;
    assert Pow2(4) == 16 by { Pow2Table(); }
    var w1 := Word1(base48 / TWO32, bit_offset);
    var w2 := Word2(Field(bit_offset, 16, 4), slope % 0x40_0000, bit_width);
    assert seg.W1() == w1 && seg.W2() == w2;
    assert Field(w1, 16, 16) == bit_offset % 0x1_0000 && Field(w2, 0, 4) == Field(bit_offset, 16, 4);
    OffsetParts(bit_offset);
  }

  lemma {:induction false} OffsetParts(x: u32)
    ensures x % 0x1_0000 + Field(x, 16, 4) * 0x1_0000 == x % 0x10_0000
  {
    Pow2Table();
    DivDiv(x, 0x1_0000, 16);
  }

  /** bit_width() gives back the width masked to 6 bits. */
  lemma {:induction false} SegBitWidth(base: u64, slope: i32, bit_offset: u32, bit_width: u8)
    ensures NewSeg(base, slope, bit_offset, bit_width).BitWidth() == bit_width % 64
  {
  }

  /**
   * Every field of `Seg::new` reads back unchanged when it fits: a base
   * below 2^48, a slope of 22 signed bits, an offset below 2^20 and a width
   * below 64.
   */
  lemma {:induction false} NewSegFields(base: u64, slope: i32, bit_offset: u32, bit_width: u8)
    requires base < 0x1_0000_0000_0000 && -0x20_0000 <= slope < 0x20_0000
    requires bit_offset < 0x10_0000 && bit_width < 64
    ensures NewSeg(base, slope, bit_offset, bit_width).Base() == base
    ensures NewSeg(base, slope, bit_offset, bit_width).Slope() == slope
    ensures NewSeg(base, slope, bit_offset, bit_width).BitOffset() == bit_offset
    ensures NewSeg(base, slope, bit_offset, bit_width).BitWidth() == bit_width
  {
    SegBase(base, slope, bit_offset, bit_width);
    SegSlope(base, slope, bit_offset, bit_width);
    SegBitOffset(base, slope, bit_offset, bit_width);
    SegBitWidth(base, slope, bit_offset, bit_width);
    ModSmall(base, 0x1_0000_0000_0000);
    ModSmall(bit_offset, 0x10_0000);
    ModSmall(bit_width, 64);
  }

  /** u16s as stored in memory: two little-endian bytes each. */
  function LeU16s(ws: seq<u16>): (r: seq<u8>)
    ensures |r| == 2 * |ws|
  {
    if ws == [] then [] else LeBytes(ws[0], 2) + LeU16s(ws[1..])
  }

  /** n u16s read from the front of b. */
  function ReadU16s(b: seq<u8>, n: nat): (r: seq<u16>)
    requires 2 * n <= |b|
    ensures |r| == n
  {
    if n == 0 then []
    else
      assert LeValue(b[..2]) < TWO16 by { LeValueBound(b[..2]); Pow2Values(); }
      [LeValue(b[..2]) as u16] + ReadU16s(b[2..], n - 1)
  }

  /** Reading back stored u16s gives them back, whatever follows them. */
  lemma {:induction false} ReadLeU16s(ws: seq<u16>, rest: seq<u8>)
    ensures ReadU16s(LeU16s(ws) + rest, |ws|) == ws
  {
    if ws != [] {
      var b := LeU16s(ws) + rest;
      assert b[..2] == LeBytes(ws[0], 2);
      assert b[2..] == LeU16s(ws[1..]) + rest;
      assert LeValue(b[..2]) == ws[0] by { U16RoundTrip(ws[0]); }
      assert ReadU16s(b[2..], |ws| - 1) == ws[1..] by { ReadLeU16s(ws[1..], rest); }
      assert ReadU16s(b, |ws|) == [ws[0]] + ws[1..];
    }
  }

  /** The six halves in memory order. */
  function SegHalves(s: Seg): seq<u16>
  {
    [s.w0_lo, s.w0_hi, s.w1_lo, s.w1_hi, s.w2_lo, s.w2_hi]
  }

  /** A descriptor as stored: its six u16 halves, little-endian, 12 bytes. */
  function SegToBytes(s: Seg): (r: seq<u8>)
    ensures |r| == SEG_METADATA_SIZE
  {
    LeU16s(SegHalves(s))
  }

  /** The descriptor read from 12 bytes (an element of the `view_table` slice). */
  function SegFromBytes(b: seq<u8>): Seg
    requires |b| >= SEG_METADATA_SIZE
  {
    var h := ReadU16s(b, 6);
    Seg(h[0], h[1], h[2], h[3], h[4], h[5])
  }

  /** A stored descriptor reads back as itself. */
  lemma {:induction false} SegBytesRoundTrip(s: Seg, rest: seq<u8>)
    ensures SegFromBytes(SegToBytes(s) + rest) == s
  {
    ReadLeU16s(SegHalves(s), rest);
  }

  // ---------------------------------------------------------------------
  // Where the parts of a PGM payload start.

  /** `Seg::ef_len_bytes`: no bytes for an empty index, else the encoded length. */
  function EfLenBytes(num: nat): (r: nat)
    ensures num == 0 <==> r == 0
  {
    if num == 0 then 0 else EfWriter.ByteLen(num, 4096)
  }

  /** `(x + 1) & !1`: x rounded up to an even number. */
  function RoundUpEven(x: nat): (r: nat)
    ensures r % 2 == 0 && x <= r <= x + 1
  {
    (x + 1) / 2 * 2
  }

  /**
   * The byte at which `view_table` starts: after the group header and the
   * two Elias-Fano indexes, rounded up to an even address (`(offset + 1) & !1`).
   */
  function ViewTableOffset(outlier_num: nat, seg_num: nat): (r: nat)
    ensures r % 2 == 0
    ensures GROUP_HEADER_SIZE + EfLenBytes(outlier_num) + EfLenBytes(seg_num) <= r
    ensures r <= GROUP_HEADER_SIZE + EfLenBytes(outlier_num) + EfLenBytes(seg_num) + 1
  {
    RoundUpEven(GROUP_HEADER_SIZE + EfLenBytes(outlier_num) + EfLenBytes(seg_num))
  }
}
