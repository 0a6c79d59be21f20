/**
 * The byte-oriented bit writer of the codec (jdb_ftl/src/ftl/codec/bit_writer.rs).
 *
 * Bits are appended least significant first: the writer keeps whole bytes in
 * `data` and the at most seven bits of a byte still being filled in the
 * accumulator `current`, whose width is `offset`. The stream written so far is
 * the number `Value()` of `TotalBits()` bits, byte 0 lowest.
 */
module BitWriting {
  import opened Common
  import opened BitField

  /** The bytes `byte_align` leaves: the pending bits, if any, become one more byte. */
  function Flushed(data: seq<u8>, current: nat, offset: nat): (r: seq<u8>)
  {
    if offset > 0 then data + [current % 256] else data
  }

  /** The stream that `data`, `current` and `offset` hold, as a number. */
  function StreamValue(data: seq<u8>, current: nat): nat
  {
    LeValue(data) + Pow2(8 * |data|) * current
  }

  /** `n` zero bytes of padding. */
  function ZeroPad(n: nat): (r: seq<u8>)
    ensures |r| == n && forall i :: 0 <= i < n ==> r[i] == 0
  {
    seq(n, _ => 0)
  }

  /** Aligning keeps the stream's value and rounds its length up to whole bytes. */
  lemma {:induction false} FlushedValue(data: seq<u8>, current: nat, offset: nat)
    requires offset < 8 && current < Pow2(offset)
    ensures LeValue(Flushed(data, current, offset)) == StreamValue(data, current)
    ensures |Flushed(data, current, offset)| == DivCeil(8 * |data| + offset, 8)
  {
    if offset > 0 {
      Pow2Mono(offset, 8);
      Pow2Values();
      assert current % 256 == current;
      LeValueAppend(data, [current % 256]);
      assert LeValue([current % 256]) == current;
      assert DivCeil(8 * |data| + offset, 8) == |data| + 1 by {
        DivModOf(|data| + 1, 8, offset - 1);
      }
    } else {
      assert current == 0;
      DivModOf(|data|, 8, 7);
    }
  }

  /** Zero bytes appended at the top do not change a little-endian value. */
  lemma {:induction false} ZeroPadValue(d: seq<u8>, n: nat)
    ensures LeValue(d + ZeroPad(n)) == LeValue(d)
  {
    LeValueAppend(d, ZeroPad(n));
    ZeroPadIsZero(n);
  }

  lemma {:induction false} ZeroPadIsZero(n: nat)
    ensures LeValue(ZeroPad(n)) == 0
  {
    if n > 0 {
      ZeroPadIsZero(n - 1);
      assert ZeroPad(n)[1..] == ZeroPad(n - 1);
    }
  }

  /** A written stream of `total` bits is below 2^total. */
  lemma {:induction false} StreamBound(data: seq<u8>, current: nat, offset: nat)
    requires current < Pow2(offset)
    ensures StreamValue(data, current) < Pow2(8 * |data| + offset)
  {
    LeValueBound(data);
    SumBound(LeValue(data), current, Pow2(8 * |data|), Pow2(offset));
    Pow2Add(8 * |data|, offset);
  }

  /** OR-ing v into the accumulator above its `offset` bits puts v right after the stream. */
  lemma {:induction false} AccumulateStep(data: seq<u8>, current: nat, offset: nat, v: nat, bits: nat)
    requires current < Pow2(offset) && v < Pow2(bits)
    ensures BitOr(current, Shl(v, offset)) == current + Pow2(offset) * v
    ensures current + Pow2(offset) * v < Pow2(offset + bits)
    ensures StreamValue(data, current + Pow2(offset) * v)
         == StreamValue(data, current) + Pow2(8 * |data| + offset) * v
  {
    OrDisjoint(current, v, offset);
    assert current + Pow2(offset) * v < Pow2(offset + bits) by {
      SumBound(current, v, Pow2(offset), Pow2(bits));
      Pow2Add(offset, bits);
    }
    assert Pow2(8 * |data|) * (current + Pow2(offset) * v)
        == Pow2(8 * |data|) * current + Pow2(8 * |data| + offset) * v by {
      Pow2Add(8 * |data|, offset);
      Distrib(Pow2(8 * |data|), current, Pow2(offset), v);
    }
  }

  lemma {:induction false} Distrib(p: nat, c: nat, q: nat, v: nat)
    ensures p * (c + q * v) == p * c + (p * q) * v
  {
  }

  /** The accumulator after v is or-ed in above `offset` bits, stated on the new state. */
  lemma {:induction false} AccumulateInto(data: seq<u8>, current: nat, offset: nat, v: nat, bits: nat, c: nat, o: nat)
    requires current < Pow2(offset) && v < Pow2(bits) && c == BitOr(current, Shl(v, offset)) && o == offset + bits
    ensures c < Pow2(o) && StreamValue(data, c) == StreamValue(data, current) + Pow2(8 * |data| + offset) * v
  {
    AccumulateStep(data, current, offset, v, bits);
  }

  /** One turn of the flushing loop, stated on the state before and after it. */
  lemma {:induction false} FlushStep(d: seq<u8>, c: nat, o: nat, d2: seq<u8>, c2: nat, o2: nat)
    requires o >= 8 && c < Pow2(o) && d2 == d + [c % 256] && c2 == c / 256 && o2 == o - 8
    ensures c2 < Pow2(o2) && StreamValue(d2, c2) == StreamValue(d, c)
  {
    FlushByte(d, c, o);
  }

  /** Moving the low byte of the accumulator into `data` keeps the stream. */
  lemma {:induction false} FlushByte(data: seq<u8>, current: nat, offset: nat)
    requires offset >= 8 && current < Pow2(offset)
    ensures current / 256 < Pow2(offset - 8)
    ensures StreamValue(data + [current % 256], current / 256) == StreamValue(data, current)
  {
    assert Pow2(8) == 256 by { Pow2Values(); }
    Pow2Add(8, offset - 8);
    assert current / 256 < Pow2(offset - 8) by {
      DivBound(current, 256, Pow2(offset - 8));
    }
    assert LeValue(data + [current % 256]) == LeValue(data) + Pow2(8 * |data|) * (current % 256) by {
      LeValueAppend(data, [current % 256]);
      assert LeValue([current % 256]) == current % 256;
    }
    assert Pow2(8 * |data + [current % 256]|) == Pow2(8 * |data|) * 256 by {
      Pow2Add(8 * |data|, 8);
    }
    assert current == current % 256 + 256 * (current / 256);
    Distrib(Pow2(8 * |data|), current % 256, 256, current / 256);
  }

  lemma {:induction false} DivBound(x: nat, d: nat, q: nat)
    requires d > 0 && x < d * q
    ensures x / d < q
  {
    if x / d >= q {
      assert d * (x / d) >= d * q by { MulMono(d, q, x / d); }
      assert false;
    }
  }

  class BitWriter {
    /** The completed bytes. */
    var data: seq<u8>
    /** The accumulator (a u128 in the source); only its `offset` low bits are in use. */
    var current: nat
    /** How many bits of the accumulator are pending (a u8 in the source). */
    var offset: nat

    ghost predicate Valid()
      reads this
    {
      offset < 8 && current < Pow2(offset)
    }

    /** Everything written so far, the first bit lowest. */
    function Value(): nat
      reads this
    {
      StreamValue(data, current)
    }

    /** `total_bits`: the completed bytes' bits plus the pending ones. */
    function TotalBits(): nat
      reads this
    {
      8 * |data| + offset
    }

    /** `BitWriter::new(capacity)`: an empty stream (the capacity is only a hint). */
    constructor (capacity: nat)
      ensures Valid() && data == [] && current == 0 && offset == 0
      ensures Value() == 0 && TotalBits() == 0
    {
      data := [];
      current := 0;
      offset := 0;
    }

    /**
     * `write(val, bits)`: append the low `bits` bits of val. The source
     * shifts `1u128 << bits`, so `bits` must be below 128.
     */
    method Write(val: u64, bits: u8)
      requires Valid() && bits < 128
      modifies this
      ensures Valid()
      ensures Value() == old(Value()) + Pow2(old(TotalBits())) * (val % Pow2(bits))
      ensures TotalBits() == old(TotalBits()) + bits
      ensures bits == 0 ==> data == old(data) && current == old(current) && offset == old(offset)
    {
      if bits == 0 {
        assert val % Pow2(bits) == 0 by { assert Pow2(0) == 1; }
        return;
      }
      var v := val % Pow2(bits);  // val & ((1 << bits) - 1)
      // the loop works on copies of the three fields, written back once at the end
      var d: seq<u8>, c: nat, o: nat := data, BitOr(current, Shl(v, offset)), offset + bits;
      AccumulateInto(data, current, offset, v, bits, c, o);
      while o >= 8
        invariant c < Pow2(o)
        invariant StreamValue(d, c) == old(Value()) + Pow2(old(TotalBits())) * v
        invariant 8 * |d| + o == old(TotalBits()) + bits
        decreases o
      {
        ghost var d0, c0, o0 := d, c, o;
        var low: u8 := c % 256;  // current as u8
        d, c, o := d + [low], c / 256, o - 8;
        FlushStep(d0, c0, o0, d, c, o);
      }
      data, current, offset := d, c, o;
    }

    /** `byte_align`: pad the pending bits with zeros to a whole byte. */
    method ByteAlign()
      requires Valid()
      modifies this
      ensures Valid() && current == 0 && offset == 0
      ensures data == Flushed(old(data), old(current), old(offset))
      ensures Value() == old(Value())
      ensures TotalBits() == 8 * DivCeil(old(TotalBits()), 8)
      ensures old(offset) == 0 ==> data == old(data)
    {
      FlushedValue(data, current, offset);
      if offset > 0 {
        data := data + [current % 256];  // current as u8
        current := 0;
        offset := 0;
      }
    }

    /** `append_bytes`: align, then copy the bytes in. */
    method AppendBytes(bytes: seq<u8>)
      requires Valid()
      modifies this
      ensures Valid() && current == 0 && offset == 0
      ensures data == Flushed(old(data), old(current), old(offset)) + bytes
      ensures Value() == old(Value()) + Pow2(8 * DivCeil(old(TotalBits()), 8)) * LeValue(bytes)
    {
      ByteAlign();
      LeValueAppend(data, bytes);
      data := data + bytes;
    }

    /** `finish`: align and add 16 zero bytes of padding for wide loads. */
    method Finish() returns (r: seq<u8>)
      requires Valid()
      modifies this
      ensures r == Flushed(old(data), old(current), old(offset)) + ZeroPad(16)
      ensures LeValue(r) == old(Value())
      ensures |r| == DivCeil(old(TotalBits()), 8) + 16
    {
      ByteAlign();
      ZeroPadValue(data, 16);
      data := data + ZeroPad(16);
      r := data;
    }

    /** `finish_minimal`: align and add 8 zero bytes of padding. */
    method FinishMinimal() returns (r: seq<u8>)
      requires Valid()
      modifies this
      ensures r == Flushed(old(data), old(current), old(offset)) + ZeroPad(8)
      ensures LeValue(r) == old(Value())
      ensures |r| == DivCeil(old(TotalBits()), 8) + 8
    {
      ByteAlign();
      ZeroPadValue(data, 8);
      data := data + ZeroPad(8);
      r := data;
    }

    /** `clear`: forget everything written. */
    method Clear()
      modifies this
      ensures Valid() && data == [] && current == 0 && offset == 0
      ensures Value() == 0 && TotalBits() == 0
    {
      data := [];
      current := 0;
      offset := 0;
    }
  }
}
