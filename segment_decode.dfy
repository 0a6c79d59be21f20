/**
 * Decoding one fitted segment (jdb_ftl/src/ftl/codec/decoder/decode_segment.rs):
 * every output slot gets the line's prediction `base + (i * slope) >> 24`,
 * plus, when the segment stores residuals, the `width`-bit residual read at
 * bit `i * width` of the residual area that starts at the segment's offset.
 *
 * A Rust `&mut [u64]` slice is modelled as an array with the range lo..hi,
 * so that the group decoder can hand over `out[start..end]`.
 */
module SegmentDecoder {
  import opened Common
  import opened BitField
  import opened SegLayout
  import opened DecoderBits
  import opened Optimal

  /** The segment's stored width is a 6-bit field, so `read_bits` accepts it. */
  lemma {:induction false} WidthBelow64(seg: Seg)
    ensures seg.BitWidth() < 64
  {
    assert Pow2(6) == 64 by { Pow2Table(); }
  }

  /** One past the last byte `read_bits` loads for the i-th residual of the segment. */
  function LoadEnd(seg: Seg, i: nat): nat
  {
    seg.BitOffset() + BitIndex(i, seg.BitWidth()) / 8 + LoadWidth(seg.BitWidth())
  }

  /** The residual area starts inside the payload whenever the segment has one. */
  predicate AreaInside(seg: Seg, payload: seq<u8>)
  {
    seg.BitWidth() > 0 ==> seg.BitOffset() <= |payload|
  }

  /**
   * What the unchecked slicing and loads demand: the residual area starts
   * inside the payload and the load for each of the `count` values stays
   * inside it.
   */
  predicate Readable(seg: Seg, payload: seq<u8>, count: nat)
  {
    AreaInside(seg, payload) &&
    (seg.BitWidth() > 0 ==> forall i: nat :: i < count ==> LoadEnd(seg, i) <= |payload|)
  }

  /**
   * The i-th value of a segment: the prediction, plus, when the segment
   * stores residuals, the width-bit field at bit i * width of the residual
   * area, wrapping.
   */
  function SegmentValue(seg: Seg, payload: seq<u8>, i: nat): u64
    requires AreaInside(seg, payload)
  {
    var pred := Predict(seg.Base(), seg.Slope(), i);
    var w := seg.BitWidth();
    if w == 0 then pred
    else (pred + Field(LeValue(payload[seg.BitOffset()..]), BitIndex(i, w), w)) % TWO64
  }

  /**
   * `decode_segment(seg, payload, out[lo..hi])`. The running accumulator
   * `acc += slope` is exact here: an i64 would only overflow past 2^42
   * values. `base.wrapping_add((acc >> 24) as u64)` is the sum modulo 2^64,
   * as the u64 reading of an i64 is congruent to it modulo 2^64.
   */
  method DecodeSegment(seg: Seg, payload: seq<u8>, out: array<u64>, lo: nat, hi: nat)
    requires lo <= hi <= out.Length && Readable(seg, payload, hi - lo)
    modifies out
    ensures forall i :: lo <= i < hi ==> out[i] == SegmentValue(seg, payload, i - lo)
    ensures forall i :: 0 <= i < out.Length && !(lo <= i < hi) ==> out[i] == old(out[i])
  {
    if seg.BitWidth() == 0 {
      DecodeLinear(seg, payload, out, lo, hi);
    } else {
      DecodeResiduals(seg, payload, out, lo, hi);
    }
  }

  /** The zero-residual hot path: the prediction alone. */
  method DecodeLinear(seg: Seg, payload: seq<u8>, out: array<u64>, lo: nat, hi: nat)
    requires lo <= hi <= out.Length && seg.BitWidth() == 0
    modifies out
    ensures forall i :: lo <= i < hi ==> out[i] == SegmentValue(seg, payload, i - lo)
    ensures forall i :: 0 <= i < out.Length && !(lo <= i < hi) ==> out[i] == old(out[i])
  {
    var slope := seg.Slope();
    var base := seg.Base();
    var acc := 0;
    var rel := 0;
    while rel < hi - lo
      invariant rel <= hi - lo && acc == rel * slope
      invariant forall i :: lo <= i < lo + rel ==> out[i] == SegmentValue(seg, payload, i - lo)
      invariant forall i :: 0 <= i < out.Length && !(lo <= i < lo + rel) ==> out[i] == old(out[i])
    {
      out[lo + rel] := (base + acc / TWO24) % TWO64;
      acc := acc + slope;
      MulSucc(rel, slope);
      rel := rel + 1;
    }
  }

  /** The residual correction path: the prediction plus the stored residual. */
  method DecodeResiduals(seg: Seg, payload: seq<u8>, out: array<u64>, lo: nat, hi: nat)
    requires lo <= hi <= out.Length && seg.BitWidth() > 0 && Readable(seg, payload, hi - lo)
    modifies out
    ensures forall i :: lo <= i < hi ==> out[i] == SegmentValue(seg, payload, i - lo)
    ensures forall i :: 0 <= i < out.Length && !(lo <= i < hi) ==> out[i] == old(out[i])
  {
    var slope := seg.Slope();
    var base := seg.Base();
    var acc := 0;
    var rel := 0;
    while rel < hi - lo
      invariant rel <= hi - lo && acc == rel * slope
      invariant forall i :: lo <= i < lo + rel ==> out[i] == SegmentValue(seg, payload, i - lo)
      invariant forall i :: 0 <= i < out.Length && !(lo <= i < lo + rel) ==> out[i] == old(out[i])
    {
      var pred := (base + acc / TWO24) % TWO64;
      acc := acc + slope;
      MulSucc(rel, slope);
      out[lo + rel] := Corrected(seg, payload, hi - lo, rel, pred);
      rel := rel + 1;
    }
  }

  /** `pred.wrapping_add(read_bits(&payload[offset..], rel * width, width))` for one slot. */
  method Corrected(seg: Seg, payload: seq<u8>, count: nat, rel: nat, pred: u64) returns (v: u64)
    requires seg.BitWidth() > 0 && Readable(seg, payload, count) && rel < count
    requires pred == Predict(seg.Base(), seg.Slope(), rel)
    ensures v == SegmentValue(seg, payload, rel)
  {
    var width := seg.BitWidth();
    WidthBelow64(seg);
    assert LoadEnd(seg, rel) <= |payload|;
    var delta := ReadBits(payload[seg.BitOffset()..], BitIndex(rel, width), width);
    v := (pred + delta) % TWO64;
    CorrectedValue(seg, payload, rel, pred, delta);
  }

  /** With residuals, value i is the prediction plus the i-th stored field, wrapping. */
  lemma {:induction false} CorrectedValue(seg: Seg, payload: seq<u8>, i: nat, pred: nat, delta: nat)
    requires seg.BitWidth() > 0 && AreaInside(seg, payload)
    requires pred == Predict(seg.Base(), seg.Slope(), i)
    requires delta == Field(LeValue(payload[seg.BitOffset()..]), BitIndex(i, seg.BitWidth()), seg.BitWidth())
    ensures SegmentValue(seg, payload, i) == (pred + delta) % TWO64
  {
  }

  lemma {:induction false} MulSucc(a: nat, b: int)
    ensures (a + 1) * b == a * b + b
  {
  }

  /**
   * Decoding gives the fitted values back: when the descriptor carries the
   * fit's base and slope and, for a segment with residuals, the residual
   * area holds the encoder's residual of point i at bit i * width (a
   * residual-free segment is one whose residuals are all zero), the i-th
   * decoded value is values[i].
   */
  lemma {:induction false} SegmentRestores(values: seq<u64>, fit: FitResult, seg: Seg, payload: seq<u8>, i: nat)
    requires i < |values| && AreaInside(seg, payload)
    requires seg.Base() == fit.base && seg.Slope() == fit.slope
    requires seg.BitWidth() == 0 ==> Residual(values, fit, i) == 0
    requires seg.BitWidth() > 0 ==>
      Field(LeValue(payload[seg.BitOffset()..]), BitIndex(i, seg.BitWidth()), seg.BitWidth()) == Residual(values, fit, i)
    ensures SegmentValue(seg, payload, i) == values[i]
  {
    ResidualRestores(values, fit, i);
    if seg.BitWidth() == 0 {
      ModSmall(Predict(fit.base, fit.slope, i), TWO64);
    }
  }

  /**
   * The same through the descriptor `Seg::new` builds: a fit whose base fits
   * in 48 bits and whose slope fits in 22 signed bits, stored with an offset
   * below 2^20 and a width below 64, decodes back to the fitted values.
   */
  lemma {:induction false} NewSegRestores(values: seq<u64>, fit: FitResult, offset: u32, width: u8, seg: Seg, payload: seq<u8>, i: nat)
    requires i < |values| && fit.base < 0x1_0000_0000_0000 && -0x20_0000 <= fit.slope < 0x20_0000
    requires offset < 0x10_0000 && width < 64 && seg == NewSeg(fit.base, fit.slope, offset, width)
    requires AreaInside(seg, payload)
    requires width == 0 ==> Residual(values, fit, i) == 0
    requires width > 0 ==> offset <= |payload| && Field(LeValue(payload[offset..]), BitIndex(i, width), width) == Residual(values, fit, i)
    ensures SegmentValue(seg, payload, i) == values[i]
  {
    NewSegFields(fit.base, fit.slope, offset, width);
    SegmentRestores(values, fit, seg, payload, i);
  }
}
