/**
 * The word-oriented bit reader and writer used for PGM residuals
 * (jdb_pgm_lib/src/bits.rs).
 *
 * The stream lives in 64-bit words, word 0 lowest and each word least
 * significant bit first, so the words spell one number `WordsValue(data)`
 * and bit p of the stream is bit p of that number.
 */
module PgmBits {
  import opened Common
  import opened BitField

  /** The number a word sequence spells, word 0 lowest. */
  function WordsValue(ws: seq<u64>): (r: nat)
    ensures r < Pow2(64 * |ws|)
  {
    if ws == [] then 0
    else
      var rest := WordsValue(ws[1..]);
      Pow2Values();
      Pow2Add(64, 64 * (|ws| - 1));
      SumBound(ws[0], rest, TWO64, Pow2(64 * (|ws| - 1)));
      ws[0] + TWO64 * rest
  }

  lemma {:induction false} WordsAppend(a: seq<u64>, b: seq<u64>)
    ensures WordsValue(a + b) == WordsValue(a) + Pow2(64 * |a|) * WordsValue(b)
  {
    if a == [] {
      assert a + b == b;
    } else {
      var u, w := WordsValue(a[1..]), WordsValue(b);
      var p := Pow2(64 * (|a| - 1));
      assert (a + b)[0] == a[0] && (a + b)[1..] == a[1..] + b;
      assert WordsValue(a + b) == a[0] + TWO64 * WordsValue(a[1..] + b);
      WordsAppend(a[1..], b);
      assert Pow2(64 * |a|) == TWO64 * p by {
        Pow2Values();
        Pow2Add(64, 64 * (|a| - 1));
      }
      Distrib(TWO64, u, p, w);
    }
  }

  lemma {:induction false} Distrib(t: nat, u: nat, p: nat, w: nat)
    ensures t * (u + p * w) == t * u + (t * p) * w
  {
  }

  /** Dropping i words shifts the value right by 64 * i bits. */
  lemma {:induction false} WordsSuffix(ws: seq<u64>, i: nat)
    requires i <= |ws|
    ensures Shr(WordsValue(ws), 64 * i) == WordsValue(ws[i..])
  {
    assert ws == ws[..i] + ws[i..];
    WordsAppend(ws[..i], ws[i..]);
    SplitAt(WordsValue(ws), WordsValue(ws[..i]), WordsValue(ws[i..]), 64 * i);
  }

  /** A field inside word i is read from that word alone. */
  lemma {:induction false} FieldInWord(ws: seq<u64>, i: nat, s: nat, k: nat)
    requires i < |ws| && s + k <= 64
    ensures Field(WordsValue(ws), 64 * i + s, k) == Field(ws[i], s, k)
  {
    var tail := ws[i..];
    WordsSuffix(ws, i);
    assert tail[1..] == ws[i + 1..];
    Pow2Values();
    FieldInside(WordsValue(ws), WordsValue(tail), ws[i], WordsValue(ws[i + 1..]), 64 * i, 64, s, k);
  }

  /** An (a + b)-bit field is its low a bits, then the b bits above them. */
  lemma {:induction false} FieldConcat(x: nat, s: nat, a: nat, b: nat)
    ensures Field(x, s, a + b) == Field(x, s, a) + Pow2(a) * Field(x, s + a, b)
  {
    var y := Shr(x, s);
    Pow2Add(a, b);
    DivDiv(y, Pow2(a), Pow2(b));
    ShrTwice(x, s, a);
  }

  /**
   * `read_bits(data, start_bit, bits)`: the `bits` bits of the stream from
   * `start_bit`, taken from one word, or from the top of one word and the
   * bottom of the next when they straddle a word boundary. The source masks
   * with `!0u64 >> (64 - bits)`, so `bits` is 1..64 (its callers skip width
   * 0), and it reads the words unchecked, so they must exist.
   */
  function ReadBits(data: seq<u64>, start_bit: nat, bits: nat): (r: nat)
    requires 0 < bits <= 64
    requires start_bit / 64 < |data|
    requires start_bit % 64 + bits > 64 ==> start_bit / 64 + 1 < |data|
    ensures r < Pow2(bits)
    ensures r == Field(WordsValue(data), start_bit, bits)
  {
    var word_idx := start_bit / 64;
    var bit_idx := start_bit % 64;
    if bit_idx + bits <= 64 then
      FieldInWord(data, word_idx, bit_idx, bits);
      Field(data[word_idx], bit_idx, bits)
    else
      var bits1 := 64 - bit_idx;
      var lower := Field(data[word_idx], bit_idx, bits1);
      var bits2 := bits - bits1;
      var upper := data[word_idx + 1] % Pow2(bits2);
      StraddleParts(data, start_bit, bits);
      // lower | (upper << bits1); the shifted part fits in the u64 since bits1 + bits2 == bits <= 64
      BitOr(lower, Shl(upper, bits1))
  }

  /** A field straddling words i and i + 1 is the top of word i with the bottom of word i + 1 above it. */
  lemma {:induction false} StraddleParts(data: seq<u64>, start_bit: nat, bits: nat)
    requires bits <= 64 && start_bit % 64 + bits > 64 && start_bit / 64 + 1 < |data|
    ensures var i, s := start_bit / 64, start_bit % 64;
      var lower, upper := Field(data[i], s, 64 - s), data[i + 1] % Pow2(bits - (64 - s));
      && BitOr(lower, Shl(upper, 64 - s)) == Field(WordsValue(data), start_bit, bits)
      && BitOr(lower, Shl(upper, 64 - s)) < Pow2(bits)
  {
    var i, s := start_bit / 64, start_bit % 64;
    var bits1, bits2 := 64 - s, bits - (64 - s);
    var lower, upper := Field(data[i], s, bits1), data[i + 1] % Pow2(bits2);
    var x := WordsValue(data);
    assert Field(x, start_bit, bits1) == lower by {
      assert start_bit == 64 * i + s;
      FieldInWord(data, i, s, bits1);
    }
    assert Field(x, start_bit + bits1, bits2) == upper by {
      FieldAtZero(data[i + 1], bits2);
      assert 64 * (i + 1) + 0 == start_bit + bits1;
      FieldInWord(data, i + 1, 0, bits2);
    }
    FieldConcat(x, start_bit, bits1, bits2);
    OrDisjoint(lower, upper, bits1);
    assert lower + Pow2(bits1) * upper < Pow2(bits) by {
      SumBound(lower, upper, Pow2(bits1), Pow2(bits2));
      Pow2Add(bits1, bits2);
    }
  }

  lemma {:induction false} FieldAtZero(x: nat, k: nat)
    ensures Field(x, 0, k) == x % Pow2(k)
  {
    assert Pow2(0) == 1;
  }

  /**
   * Reading `bits` bits where they were written gives back the value
   * masked to `bits`, whatever lies below `pos` or above the field.
   */
  lemma {:induction false} ReadAfterWrite(ws: seq<u64>, before: nat, pos: nat, val: nat, bits: nat, after: nat)
    requires 0 < bits <= 64 && before < Pow2(pos)
    requires WordsValue(ws) == before + Pow2(pos) * (val % Pow2(bits) + Pow2(bits) * after)
    requires pos / 64 < |ws| && (pos % 64 + bits > 64 ==> pos / 64 + 1 < |ws|)
    ensures ReadBits(ws, pos, bits) == val % Pow2(bits)
  {
    var mid := val % Pow2(bits) + Pow2(bits) * after;
    assert Field(WordsValue(ws), pos + 0, bits) == Field(mid, 0, bits) by {
      FieldHigh(WordsValue(ws), before, mid, pos, 0, bits);
    }
    FieldLow(mid, val % Pow2(bits), after, bits, 0, bits);
    FieldWhole(val % Pow2(bits), bits);
  }

  // ---------------------------------------------------------------------
  // The writer.

  /** What `data` and the pending accumulator hold together, as a number. */
  function StreamValue(data: seq<u64>, current: nat): nat
  {
    WordsValue(data) + Pow2(64 * |data|) * current
  }

  lemma {:induction false} AppendWord(ws: seq<u64>, w: u64)
    ensures WordsValue(ws + [w]) == WordsValue(ws) + Pow2(64 * |ws|) * w
  {
    WordsAppend(ws, [w]);
    assert [w][1..] == [];
  }

  /** Or-ing v above the `bic` pending bits appends v to the stream. */
  lemma {:induction false} Accumulate(ws: seq<u64>, current: nat, bic: nat, v: nat, bits: nat)
    requires current < Pow2(bic) && v < Pow2(bits)
    ensures BitOr(current, Shl(v, bic)) == current + Pow2(bic) * v
    ensures current + Pow2(bic) * v < Pow2(bic + bits)
    ensures StreamValue(ws, current + Pow2(bic) * v)
         == StreamValue(ws, current) + Pow2(64 * |ws| + bic) * v
  {
    OrDisjoint(current, v, bic);
    assert current + Pow2(bic) * v < Pow2(bic + bits) by {
      SumBound(current, v, Pow2(bic), Pow2(bits));
      Pow2Add(bic, bits);
    }
    var p := Pow2(64 * |ws|);
    assert p * (current + Pow2(bic) * v) == p * current + Pow2(64 * |ws| + bic) * v by {
      Pow2Add(64 * |ws|, bic);
      Distrib(p, current, Pow2(bic), v);
    }
  }

  /**
   * When the accumulated x overflows the word, its low 64 bits become a
   * word of `data` and the bits of v that did not fit, `v >> (64 - bic)`,
   * the new accumulator.
   */
  lemma {:induction false} Spill(ws: seq<u64>, current: nat, bic: nat, v: nat, bits: nat)
    requires bic < 64 && current < Pow2(bic) && v < Pow2(bits) && 64 < bic + bits
    ensures Shr(v, 64 - bic) < Pow2(bic + bits - 64)
    ensures StreamValue(ws + [(current + Pow2(bic) * v) % TWO64], Shr(v, 64 - bic))
         == StreamValue(ws, current + Pow2(bic) * v)
  {
    var x := current + Pow2(bic) * v;
    var lo: u64 := x % TWO64;
    var hi := Shr(v, 64 - bic);
    assert x == lo + TWO64 * hi by {
      assert Shr(x, 64) == hi by {
        ShrOfSum(current, v, bic);
        ShrTwice(x, bic, 64 - bic);
      }
      Pow2Values();
      DivModSplit(x, TWO64);
    }
    HighBound(v, bits, 64 - bic);
    AppendWord(ws, lo);
    var p := Pow2(64 * |ws|);
    assert Pow2(64 * |ws + [lo]|) == p * TWO64 by {
      Pow2Values();
      Pow2Add(64 * |ws|, 64);
    }
    Distrib(p, lo, TWO64, hi);
  }

  /**
   * The whole spilling write: the full word `(current | v << bic)` cut to
   * 64 bits joins ws, and what stays in the accumulator is `v >> (64 - bic)`.
   */
  lemma {:induction false} SpillWrite(ws: seq<u64>, current: nat, bic: nat, v: nat, bits: nat)
    requires bic < 64 && current < Pow2(bic) && v < Pow2(bits) && 64 < bic + bits
    ensures Shr(v, 64 - bic) < Pow2(bic + bits - 64)
    ensures StreamValue(ws + [BitOr(current, Shl(v, bic)) % TWO64], Shr(v, 64 - bic))
         == StreamValue(ws, current) + Pow2(64 * |ws| + bic) * v
  {
    Accumulate(ws, current, bic, v, bits);
    Spill(ws, current, bic, v, bits);
  }

  lemma {:induction false} DivModSplit(x: nat, d: nat)
    requires d > 0
    ensures x == x % d + d * (x / d)
  {
  }

  class BitWriter {
    /** The completed words. */
    var data: seq<u64>
    /** The partial word being filled (a u64). */
    var current: nat
    /** How many low bits of `current` are in use (a u8). */
    var bits_in_current: nat
    /** Every bit written so far (a usize). */
    var total_bits: nat

    ghost predicate Valid()
      reads this
    {
      && bits_in_current < 64 && current < Pow2(bits_in_current)
      && total_bits == 64 * |data| + bits_in_current
    }

    /** Everything written so far, the first bit lowest. */
    function Value(): nat
      reads this
    {
      StreamValue(data, current)
    }

    /** `BitWriter::with_capacity(bits)`: an empty stream (the capacity is only a hint). */
    constructor (bits: nat)
      ensures Valid() && data == [] && current == 0 && bits_in_current == 0 && total_bits == 0
      ensures Value() == 0
    {
      data := [];
      current := 0;
      bits_in_current := 0;
      total_bits := 0;
    }

    /**
     * `write(val, bits)`: append the low `bits` bits of val; a word is
     * pushed to `data` as soon as 64 bits are pending. The mask
     * `!0u64 >> (64 - bits)` needs `bits` at most 64.
     */
    method Write(val: u64, bits: nat)
      requires Valid() && bits <= 64
      modifies this
      ensures Valid()
      ensures Value() == old(Value()) + Pow2(old(total_bits)) * (val % Pow2(bits))
      ensures total_bits == old(total_bits) + bits
      ensures old(data) <= data
      ensures bits == 0 ==> data == old(data) && current == old(current) && bits_in_current == old(bits_in_current)
    {
      if bits == 0 {
        assert val % Pow2(bits) == 0 by { assert Pow2(0) == 1; }
        return;
      }
      var v := val % Pow2(bits);  // val & (!0u64 >> (64 - bits))
      assert v < Pow2(bits);
      if bits_in_current + bits <= 64 {
        Append(v, bits);
      } else {
        AppendSpilling(v, bits);
      }
    }

    /** The `bits_in_current + bits <= 64` branch of `write`: v fits in the partial word. */
    method Append(v: nat, bits: nat)
      requires Valid() && 0 < bits && v < Pow2(bits) && bits_in_current + bits <= 64
      modifies this
      ensures Valid()
      ensures Value() == old(Value()) + Pow2(old(total_bits)) * v
      ensures total_bits == old(total_bits) + bits
      ensures old(data) <= data
    {
      ghost var before := Value();
      Accumulate(data, current, bits_in_current, v, bits);
      current := BitOr(current, Shl(v, bits_in_current));
      bits_in_current := bits_in_current + bits;
      total_bits := total_bits + bits;
      assert current < Pow2(bits_in_current);
      assert Value() == before + Pow2(total_bits - bits) * v;
      if bits_in_current == 64 {
        assert current < TWO64 by { Pow2Values(); }
        var full: u64 := current;
        assert StreamValue(data + [full], 0) == StreamValue(data, full) by {
          AppendWord(data, full);
        }
        data := data + [full];
        current := 0;
        bits_in_current := 0;
      }
    }

    /** The other branch of `write`: the partial word fills up and the rest of v starts the next one. */
    method AppendSpilling(v: nat, bits: nat)
      requires Valid() && bits <= 64 && v < Pow2(bits) && bits_in_current + bits > 64
      modifies this
      ensures Valid()
      ensures Value() == old(Value()) + Pow2(old(total_bits)) * v
      ensures total_bits == old(total_bits) + bits
      ensures old(data) <= data
    {
      var first_part := 64 - bits_in_current;
      SpillWrite(data, current, bits_in_current, v, bits);
      // (current | val << bits_in_current) as a u64: the bits past 64 are cut
      var full: u64 := BitOr(current, Shl(v, bits_in_current)) % TWO64;
      var spilled := Shr(v, first_part);
      assert StreamValue(data + [full], spilled) == Value() + Pow2(total_bits) * v;
      data, bits_in_current, current := data + [full], bits - first_part, spilled;
      total_bits := total_bits + bits;
    }

    /** `current_bit_offset`: where the next write will start. */
    function CurrentBitOffset(): (r: nat)
      reads this
      requires Valid()
      ensures r == 64 * |data| + bits_in_current
    {
      total_bits
    }

    /**
     * `finish`: the completed words, the partial word if bits are pending,
     * and one zero word of padding for unaligned reads. The source consumes
     * the writer, so nothing of it is observable afterwards.
     */
    method Finish() returns (r: seq<u64>)
      requires Valid()
      ensures r == data + (if bits_in_current > 0 then [current] else []) + [0]
      ensures WordsValue(r) == Value()
      ensures |r| == DivCeil(total_bits, 64) + 1
    {
      r := data;
      if bits_in_current > 0 {
        assert current < TWO64 by {
          Pow2Values();
          Pow2Mono(bits_in_current, 64);
        }
        var last: u64 := current;
        AppendWord(r, last);
        r := r + [last];
        assert |r| == DivCeil(total_bits, 64) by { DivModOf(|data| + 1, 64, bits_in_current - 1); }
      } else {
        assert current == 0 by { assert Pow2(0) == 1; }
        assert |r| == DivCeil(total_bits, 64) by { DivModOf(|data|, 64, 63); }
      }
      assert WordsValue(r) == Value();
      AppendWord(r, 0);
      r := r + [0];
    }
  }

  /** A finished stream holds the word, or the two words, that a read of its last field touches. */
  lemma {:induction false} FinishedCovers(pos: nat, bits: nat)
    requires 0 < bits <= 64
    ensures pos / 64 < DivCeil(pos + bits, 64) + 1
    ensures pos % 64 + bits > 64 ==> pos / 64 + 1 < DivCeil(pos + bits, 64) + 1
  {
    var t := pos % 64 + bits + 63;
    assert pos + bits + 63 == t + (pos / 64) * 64;
    ModAddMul(t, pos / 64, 64);
  }

  /**
   * The writer and the reader together: whatever a writer already holds,
   * writing `val` and finishing gives words from which `read_bits` at the
   * old bit offset returns `val` masked to `bits`.
   */
  method WriteThenRead(w: BitWriter, val: u64, bits: nat) returns (r: nat)
    requires w.Valid() && 0 < bits <= 64
    modifies w
    ensures r == val % Pow2(bits)
  {
    var pos := w.CurrentBitOffset();
    ghost var before := w.Value();
    assert before < Pow2(pos) by {
      SumBound(WordsValue(w.data), w.current, Pow2(64 * |w.data|), Pow2(w.bits_in_current));
      Pow2Add(64 * |w.data|, w.bits_in_current);
    }
    w.Write(val, bits);
    var out := w.Finish();
    ghost var v := val % Pow2(bits);
    assert v + Pow2(bits) * 0 == v;
    FinishedCovers(pos, bits);
    r := ReadBits(out, pos, bits);
    ReadAfterWrite(out, before, pos, val, bits, 0);
  }
}
