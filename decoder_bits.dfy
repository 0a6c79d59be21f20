/**
 * The decoder's unaligned bit reader over a byte slice
 * (jdb_ftl/src/ftl/codec/decoder/bits.rs), and how it reads back what the
 * byte `BitWriter` wrote.
 */
module DecoderBits {
  import opened Common
  import opened BitField
  import opened BitWriting

  /** How many bytes `read_bits` loads from the start byte: a u64, or a u128 for widths above 56. */
  function LoadWidth(len: nat): nat
  {
    if len <= 56 then 8 else 16
  }

  /**
   * `read_bits(data, bit_idx, len)`: one unaligned little-endian load at byte
   * `bit_idx >> 3`, shifted right by `bit_idx & 7` and masked to `len` bits.
   * The mask `(1u64 << len) - 1` needs `len` below 64, and the load needs its
   * 8 or 16 bytes to exist.
   */
  function ReadBits(data: seq<u8>, bit_idx: nat, len: nat): (r: nat)
    requires len < 64
    requires bit_idx / 8 + LoadWidth(len) <= |data|
    ensures r < Pow2(len)
    ensures r == Field(LeValue(data), bit_idx, len)
  {
    var byte_idx := bit_idx / 8;
    var bit_offset := bit_idx % 8;
    if len <= 56 then
      FieldLe(data, byte_idx, byte_idx + 8, bit_offset, len);
      Field(LeValue(data[byte_idx..byte_idx + 8]), bit_offset, len)
    else
      var wide := LeValue(data[byte_idx..byte_idx + 16]);
      FieldLe(data, byte_idx, byte_idx + 16, bit_offset, len);
      FieldOfField(wide, bit_offset, 64, 0, len);
      ModIsField(Field(wide, bit_offset, 64), len);
      // (val_u128 >> bit_offset) as u64, then the mask
      Field(wide, bit_offset, 64) % Pow2(len)
  }

  /** `i * width`, the bit at which the i-th of a run of width-bit values starts. */
  function BitIndex(i: nat, width: nat): nat
  {
    i * width
  }

  lemma {:induction false} ModIsField(x: nat, k: nat)
    ensures Field(x, 0, k) == x % Pow2(k)
  {
    assert Shr(x, 0) == x;
  }

  /**
   * Reading `bits` bits at the position where they were written gives back
   * the value masked to `bits`, whatever was written before (below `pos`)
   * or after it.
   */
  lemma {:induction false} ReadAfterWrite(out: seq<u8>, before: nat, pos: nat, val: nat, bits: nat, after: nat)
    requires bits < 64 && before < Pow2(pos)
    requires LeValue(out) == before + Pow2(pos) * (val % Pow2(bits) + Pow2(bits) * after)
    requires pos / 8 + LoadWidth(bits) <= |out|
    ensures ReadBits(out, pos, bits) == val % Pow2(bits)
  {
    var mid := val % Pow2(bits) + Pow2(bits) * after;
    FieldHigh(LeValue(out), before, mid, pos, 0, bits);
    FieldLow(mid, val % Pow2(bits), after, bits, 0, bits);
    FieldWhole(val % Pow2(bits), bits);
  }

  /**
   * The writer and the reader together: whatever a writer already holds,
   * writing `val` and finishing gives a buffer from which `read_bits` at
   * the old `total_bits` returns `val` masked to `bits`.
   */
  method WriteThenRead(w: BitWriter, val: u64, bits: u8) returns (r: nat)
    requires w.Valid() && bits < 64
    modifies w
    ensures r == val % Pow2(bits)
  {
    var pos := w.TotalBits();
    ghost var before := w.Value();
    assert before < Pow2(pos) by { StreamBound(w.data, w.current, w.offset); }
    w.Write(val, bits);
    var out := w.Finish();
    ghost var v := val % Pow2(bits);
    assert LeValue(out) == before + Pow2(pos) * v;
    assert pos / 8 + LoadWidth(bits) <= |out| by { DivCeilAtLeast(pos, bits); }
    r := ReadBits(out, pos, bits);
    assert v + Pow2(bits) * 0 == v;
    ReadAfterWrite(out, before, pos, val, bits, 0);
  }

  lemma {:induction false} DivCeilAtLeast(pos: nat, bits: nat)
    ensures pos / 8 <= DivCeil(pos + bits, 8)
  {
    assert pos / 8 <= (pos + bits + 7) / 8;
  }
}
