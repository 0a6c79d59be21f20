/**
 * Decoding a whole group (jdb_ftl/src/ftl/codec/decoder/decode_group.rs).
 *
 * A group payload starts with the number of valid entries `n_valid` (u16,
 * little-endian) and the Elias-Fano index of their logical offsets. The
 * body after it holds the dense values in one of three forms: direct
 * (a base and fixed-width deltas), raw (mode 0: plain little-endian u64s)
 * or fitted segments with patched outliers. The dense values are decoded
 * into `out[0..n_valid]` and then scattered in place, back to front, to
 * their logical offsets; every other slot becomes `u64::MAX`.
 *
 * The Rust `&mut [u64]` output is an array; its length is the group size.
 */
module GroupDecoder {
  import opened Common
  import opened BitField
  import opened CodecUtil
  import opened SegLayout
  import opened DecoderBits
  import opened Optimal
  import opened SegmentDecoder
  import V = EfView
  import W = EfWriter
  import opened SegViews
  import opened Frame

  // ---------------------------------------------------------------------
  // Filling

  /** `out[lo..hi].fill(u64::MAX)`. */
  method FillMax(out: array<u64>, lo: nat, hi: nat)
    requires lo <= hi <= out.Length
    modifies out
    ensures forall j :: lo <= j < hi ==> out[j] == U64_MAX
    ensures forall j :: 0 <= j < out.Length && !(lo <= j < hi) ==> out[j] == old(out[j])
  {
    var j := lo;
    while j < hi
      invariant lo <= j <= hi
      invariant forall k :: lo <= k < j ==> out[k] == U64_MAX
      invariant forall k :: 0 <= k < out.Length && !(lo <= k < j) ==> out[k] == old(out[k])
    {
      out[j] := U64_MAX;
      j := j + 1;
    }
  }

  // ---------------------------------------------------------------------
  // The direct path

  /**
   * The i-th value of a direct body: the `base_len` low bytes of the base,
   * plus the width-bit delta at bit i * width of the bytes after them,
   * wrapping.
   */
  function DirectValue(width: nat, base_len: nat, body: seq<u8>, i: nat): u64
    requires base_len <= |body|
  {
    (LeValue(body[..base_len]) + Field(LeValue(body[base_len..]), BitIndex(i, width), width)) % TWO64
  }

  /**
   * What the unchecked accesses of the direct path demand: the base bytes
   * exist and, when there are deltas, the load for each of them stays inside
   * the body.
   */
  predicate DirectReadable(count: nat, width: nat, base_len: nat, body: seq<u8>)
  {
    base_len <= |body| &&
    (width > 0 ==> forall i: nat :: i < count ==> base_len + BitIndex(i, width) / 8 + LoadWidth(width) <= |body|)
  }

  /**
   * The direct path: `out[i] = base.wrapping_add(delta_i)` for i < count.
   * A zero width means every delta is zero, and no load is made for it.
   */
  method DecodeDirect(count: nat, width: nat, base_len: nat, body: seq<u8>, out: array<u64>)
    requires count <= out.Length && width < 64 && base_len <= 8
    requires DirectReadable(count, width, base_len, body)
    modifies out
    ensures forall i :: 0 <= i < count ==> out[i] == DirectValue(width, base_len, body, i)
    ensures forall i :: count <= i < out.Length ==> out[i] == old(out[i])
  {
    var i := 0;
    while i < count
      invariant i <= count
      invariant forall k :: 0 <= k < i ==> out[k] == DirectValue(width, base_len, body, k)
      invariant forall k :: i <= k < out.Length ==> out[k] == old(out[k])
    {
      out[i] := DirectSlot(count, width, base_len, body, i);
      i := i + 1;
    }
  }

  /** One slot of the direct path. */
  method DirectSlot(count: nat, width: nat, base_len: nat, body: seq<u8>, i: nat) returns (v: u64)
    requires width < 64 && base_len <= 8 && i < count
    requires DirectReadable(count, width, base_len, body)
    ensures v == DirectValue(width, base_len, body, i)
  {
    var base := LeValue(body[..base_len]);
    var delta := 0;
    if width > 0 {
      delta := ReadBits(body[base_len..], BitIndex(i, width), width);
    }
    v := (base + delta) % TWO64;
  }

  // ---------------------------------------------------------------------
  // The raw path (mode 0)

  /** The i-th u64 after the group header, little-endian. */
  function RawValue(body: seq<u8>, i: nat): u64
    requires GROUP_HEADER_SIZE + 8 * i + 8 <= |body|
  {
    Pow2Values();
    LeValue(body[GROUP_HEADER_SIZE + 8 * i..GROUP_HEADER_SIZE + 8 * i + 8])
  }

  /** Mode 0: `n_valid` u64s copied from after the group header. */
  method DecodeRaw(n_valid: nat, body: seq<u8>, out: array<u64>)
    requires n_valid <= out.Length && GROUP_HEADER_SIZE + 8 * n_valid <= |body|
    modifies out
    ensures forall i :: 0 <= i < n_valid ==> out[i] == RawValue(body, i)
    ensures forall i :: n_valid <= i < out.Length ==> out[i] == old(out[i])
  {
    var i := 0;
    while i < n_valid
      invariant i <= n_valid
      invariant forall k :: 0 <= k < i ==> out[k] == RawValue(body, k)
      invariant forall k :: i <= k < out.Length ==> out[k] == old(out[k])
    {
      out[i] := RawValue(body, i);
      i := i + 1;
    }
  }

  /** Eight little-endian bytes per value, one after the other. */
  function WordBytes(vals: seq<u64>): (r: seq<u8>)
    ensures |r| == 8 * |vals|
  {
    if vals == [] then [] else LeBytes(vals[0], 8) + WordBytes(vals[1..])
  }

  /**
   * A raw body built as the mode-0 encoder builds it (a four-byte group
   * header, then each value's `to_le_bytes`) gives every value back.
   */
  lemma {:induction false} RawRoundTrip(head: seq<u8>, vals: seq<u64>, i: nat)
    requires |head| == GROUP_HEADER_SIZE && i < |vals|
    ensures RawValue(head + WordBytes(vals), i) == vals[i]
  {
    var body := head + WordBytes(vals);
    WordBytesAt(vals, i);
    assert body[GROUP_HEADER_SIZE + 8 * i..GROUP_HEADER_SIZE + 8 * i + 8] == WordBytes(vals)[8 * i..8 * i + 8];
    LeValueOfLeBytes(vals[i], 8);
    Pow2Values();
    ModSmall(vals[i], TWO64);
    assert LeValue(LeBytes(vals[i], 8)) == vals[i];
  }

  lemma {:induction false} WordBytesAt(vals: seq<u64>, i: nat)
    requires i < |vals|
    ensures WordBytes(vals)[8 * i..8 * i + 8] == LeBytes(vals[i], 8)
  {
    if i > 0 {
      WordBytesAt(vals[1..], i - 1);
      assert WordBytes(vals) == LeBytes(vals[0], 8) + WordBytes(vals[1..]);
      assert WordBytes(vals)[8 * i..8 * i + 8] == WordBytes(vals[1..])[8 * (i - 1)..8 * (i - 1) + 8];
    }
  }

  // ---------------------------------------------------------------------
  // The backward scatter

  /** `starts` holds what the valid index `sv` stores for its first |starts| entries. */
  ghost predicate IndexView(sv: V.View, starts: seq<nat>)
  {
    && V.Valid(sv)
    && forall i {:trigger V.GetSpec(sv, i)} :: 0 <= i < |starts| ==> starts[i] == V.GetSpec(sv, i) as nat
  }

  /** The stored offsets are such a sequence. */
  lemma {:induction false} PositionsView(sv: V.View, n: nat)
    requires V.Valid(sv)
    ensures IndexView(sv, Positions(sv, n))
  {
    forall i | 0 <= i < n
      ensures Positions(sv, n)[i] == V.GetSpec(sv, i) as nat
    {
    }
  }

  /** The logical offsets the index stores for the first n entries. */
  ghost function Positions(ef: V.View, n: nat): (r: seq<nat>)
    requires V.Valid(ef)
    ensures |r| == n
  {
    seq(n, i requires 0 <= i < n => V.GetSpec(ef, i) as nat)
  }

  /** The i-th dense value sits at offset idx[i]; every slot no offset names holds u64::MAX. */
  ghost predicate Scattered(outs: seq<u64>, dense: seq<u64>, idx: seq<nat>)
    requires |idx| <= |dense|
    requires forall i :: 0 <= i < |idx| ==> idx[i] < |outs|
  {
    && (forall i :: 0 <= i < |idx| ==> outs[idx[i]] == dense[i])
    && (forall j :: 0 <= j < |outs| && j !in idx ==> outs[j] == U64_MAX)
  }

  /** A strictly increasing sequence of naturals has idx[i] >= i: offset i is never behind entry i. */
  lemma {:induction false} AtLeastIndex(idx: seq<nat>, i: nat)
    requires Increasing(idx) && i < |idx|
    ensures idx[i] >= i
  {
    if i > 0 {
      AtLeastIndex(idx, i - 1);
      assert idx[i - 1] < idx[i];
    }
  }

  /**
   * The state of the scatter once entries t.. have moved: entries before t
   * are still in place, entries t.. sit at their offsets, and every slot
   * from `next` (the lowest offset written) on that no offset names holds
   * MAX.
   */
  ghost predicate ScatterInv(outs: seq<u64>, dense: seq<u64>, idx: seq<nat>, t: nat, next: nat)
  {
    && t <= |idx| <= |outs| && |dense| == |outs|
    && (forall k :: 0 <= k < |idx| ==> idx[k] < |outs|)
    && next == (if t == |idx| then |outs| else idx[t])
    && (forall j :: 0 <= j < t ==> outs[j] == dense[j])
    && (forall k :: t <= k < |idx| ==> next <= idx[k])
    && (forall k :: t <= k < |idx| ==> outs[idx[k]] == dense[k])
    && (forall j :: next <= j < |outs| && j !in idx ==> outs[j] == U64_MAX)
  }

  /**
   * The in-place scatter. Walking back from the last entry, the gap between
   * this entry's offset and the previous one written is filled with MAX and
   * the value moves to its offset; finally the gap in front of the first
   * offset is filled. Because the offsets strictly increase and so
   * `ef.get(i) >= i`, no dense value is overwritten before it is moved.
   */
  method Scatter(ef: V.View, n_valid: nat, out: array<u64>)
    requires V.Valid(ef) && n_valid <= out.Length
    requires Increasing(Positions(ef, n_valid))
    requires forall i :: 0 <= i < n_valid ==> Positions(ef, n_valid)[i] < out.Length
    modifies out
    ensures Scattered(out[..], old(out[..]), Positions(ef, n_valid))
  {
    ghost var dense := out[..];
    ghost var idx := Positions(ef, n_valid);
    PositionsView(ef, n_valid);
    var next: nat := out.Length;
    var t: nat := n_valid;
    while t > 0
      invariant ScatterInv(out[..], dense, idx, t, next)
    {
      next := ScatterStep(ef, out, dense, idx, t, next);
      t := t - 1;
    }
    ghost var prev := out[..];
    if next > 0 {
      FillMax(out, 0, next);
    }
    ScatterDone(prev, out, dense, idx, next);
  }

  /** Once every entry has moved, filling the slots below the first offset completes the scatter. */
  lemma {:induction false} ScatterDone(prev: seq<u64>, out: array<u64>, dense: seq<u64>, idx: seq<nat>, next: nat)
    requires ScatterInv(prev, dense, idx, 0, next) && out.Length == |prev|
    requires forall j :: 0 <= j < next ==> out[j] == U64_MAX
    requires forall j :: next <= j < out.Length ==> out[j] == prev[j]
    ensures Scattered(out[..], dense, idx)
  {
  }

  /** One step of the scatter: entry t - 1 moves to its offset and the gap above it is filled. */
  method ScatterStep(ef: V.View, out: array<u64>, ghost dense: seq<u64>, ghost idx: seq<nat>, t: nat, next: nat)
    returns (next': nat)
    requires IndexView(ef, idx) && Increasing(idx)
    requires 0 < t && ScatterInv(out[..], dense, idx, t, next)
    modifies out
    ensures ScatterInv(out[..], dense, idx, t - 1, next')
  {
    var i := t - 1;
    var li: nat := V.Get(ef, i);
    assert li == idx[i];
    var val := out[i];
    ghost var prev := out[..];
    AtLeastIndex(idx, i);
    assert t < |idx| ==> idx[i] < idx[t];
    if next > li + 1 {
      FillMax(out, li + 1, next);
    }
    out[li] := val;
    ScatterMoved(prev, out, dense, idx, t, next, li);
    next' := li;
  }

  /** The state after moving entry t - 1 to its offset li and filling li + 1..next is the scatter state for t - 1. */
  lemma {:induction false} ScatterMoved(prev: seq<u64>, out: array<u64>, dense: seq<u64>, idx: seq<nat>, t: nat, next: nat, li: nat)
    requires 0 < t && ScatterInv(prev, dense, idx, t, next) && Increasing(idx)
    requires li == idx[t - 1] && t - 1 <= li < next && out.Length == |prev|
    requires out[li] == prev[t - 1]
    requires forall j :: li < j < next ==> out[j] == U64_MAX
    requires forall j :: 0 <= j < out.Length && !(li <= j < next) ==> out[j] == prev[j]
    ensures ScatterInv(out[..], dense, idx, t - 1, li)
  {
    forall k | t - 1 <= k < |idx|
      ensures li <= idx[k]
    {
      if k > t - 1 {
        assert idx[t - 1] < idx[k];
      }
    }
    forall k | t <= k < |idx|
      ensures out[idx[k]] == dense[k]
    {
      assert idx[t - 1] < idx[k];
    }
    forall j | li <= j < out.Length && j !in idx
      ensures out[j] == U64_MAX
    {
      assert j != li;
    }
  }

  // ---------------------------------------------------------------------
  // The segment path

  /** Where the range of segment s ends: the next segment's start, or n_valid after the last one. */
  function Stop(starts: seq<nat>, n_valid: nat, s: nat): nat
    requires s <= |starts|
  {
    if s == |starts| then n_valid else starts[s]
  }

  /** What slicing `out[start..end]` demands: no segment's range runs backwards. */
  predicate Ranges(starts: seq<nat>, n_valid: nat)
  {
    forall s :: 0 <= s < |starts| ==> starts[s] <= Stop(starts, n_valid, s + 1)
  }

  /** The ranges follow each other: a later boundary is never before an earlier one. */
  lemma {:induction false} StopMono(starts: seq<nat>, n_valid: nat, a: nat, b: nat)
    requires Ranges(starts, n_valid) && a <= b <= |starts|
    ensures Stop(starts, n_valid, a) <= Stop(starts, n_valid, b)
  {
    if a < b {
      StopMono(starts, n_valid, a, b - 1);
      assert starts[b - 1] <= Stop(starts, n_valid, b);
    }
  }

  /** One descriptor per start, ranges in order, and every segment's residual loads inside the body. */
  predicate SegmentsReadable(segs: seq<Seg>, starts: seq<nat>, n_valid: nat, body: seq<u8>)
  {
    && |segs| == |starts|
    && Ranges(starts, n_valid)
    && forall s :: 0 <= s < |segs| ==> Readable(segs[s], body, Stop(starts, n_valid, s + 1) - starts[s])
  }

  /**
   * The segment search of the outlier loop, from segment s on with current
   * candidate cur: a segment that starts at or before lba becomes the
   * candidate, and the scan stops at the first one that starts after it.
   */
  function ScanSeg(starts: seq<nat>, lba: nat, s: nat, cur: nat): (r: nat)
    requires s <= |starts| && cur < |starts|
    ensures r < |starts|
    ensures starts[cur] <= lba ==> starts[r] <= lba
    decreases |starts| - s
  {
    if s == |starts| then cur
    else if starts[s] <= lba then ScanSeg(starts, lba, s + 1, s)
    else cur
  }

  /** The segment an offset belongs to, as the outlier loop finds it. */
  function SegFor(starts: seq<nat>, lba: nat): (r: nat)
    requires |starts| > 0
    ensures r < |starts| && (starts[0] <= lba ==> starts[r] <= lba)
  {
    ScanSeg(starts, lba, 0, 0)
  }

  /** With ranges in order, the search finds the segment whose range holds the offset. */
  lemma {:induction false} SegForIn(starts: seq<nat>, n_valid: nat, s: nat, i: nat)
    requires Ranges(starts, n_valid) && s < |starts|
    requires starts[s] <= i < Stop(starts, n_valid, s + 1)
    ensures SegFor(starts, i) == s
  {
    ScanReaches(starts, n_valid, i, 0, 0, s);
  }

  lemma {:induction false} ScanReaches(starts: seq<nat>, n_valid: nat, i: nat, t: nat, cur: nat, s: nat)
    requires Ranges(starts, n_valid) && s < |starts| && t <= s && cur < |starts|
    requires starts[s] <= i < Stop(starts, n_valid, s + 1)
    ensures ScanSeg(starts, i, t, cur) == s
    decreases s - t
  {
    StopMono(starts, n_valid, t, s);
    if t < s {
      ScanReaches(starts, n_valid, i, t + 1, t, s);
    } else if s + 1 < |starts| {
      assert ScanSeg(starts, i, s + 1, s) == s;
    }
  }

  /** One descriptor per start, and every residual area starts inside the body. */
  predicate AreasInside(segs: seq<Seg>, starts: seq<nat>, body: seq<u8>)
  {
    |segs| == |starts| && forall s :: 0 <= s < |segs| ==> AreaInside(segs[s], body)
  }

  /** The value the segment pass leaves at dense position i. */
  ghost function SegPassValue(segs: seq<Seg>, starts: seq<nat>, n_valid: nat, body: seq<u8>, before: seq<u64>, i: nat): u64
    requires AreasInside(segs, starts, body) && i < |before|
  {
    if Stop(starts, n_valid, 0) <= i < n_valid then SegmentValue(segs[SegFor(starts, i)], body, i - starts[SegFor(starts, i)])
    else before[i]
  }

  /** The output once segments 0..k have been decoded: positions below Stop(k) hold their values, the rest are untouched. */
  ghost predicate SegPrefix(cur: seq<u64>, segs: seq<Seg>, starts: seq<nat>, n_valid: nat, body: seq<u8>, before: seq<u64>, k: nat)
    requires SegmentsReadable(segs, starts, n_valid, body) && k <= |starts|
  {
    && |cur| == |before|
    && forall i :: 0 <= i < |cur| ==>
         cur[i] == if i < Stop(starts, n_valid, k) then SegPassValue(segs, starts, n_valid, body, before, i) else before[i]
  }

  /** Decoding segment k's range into the prefix for segments 0..k-1 gives the prefix for 0..k. */
  lemma {:induction false} SegStep(segs: seq<Seg>, starts: seq<nat>, n_valid: nat, body: seq<u8>, before: seq<u64>,
                                   prev: seq<u64>, out: array<u64>, k: nat, lo: nat, hi: nat)
    requires SegmentsReadable(segs, starts, n_valid, body) && k < |starts| && n_valid <= |before|
    requires SegPrefix(prev, segs, starts, n_valid, body, before, k) && out.Length == |prev|
    requires lo == starts[k] && hi == Stop(starts, n_valid, k + 1) && hi <= out.Length
    requires forall i :: lo <= i < hi ==> out[i] == SegmentValue(segs[k], body, i - lo)
    requires forall i :: 0 <= i < out.Length && !(lo <= i < hi) ==> out[i] == prev[i]
    ensures SegPrefix(out[..], segs, starts, n_valid, body, before, k + 1)
  {
    forall i | 0 <= i < out.Length
      ensures out[..][i] == if i < hi then SegPassValue(segs, starts, n_valid, body, before, i) else before[i]
    {
      if lo <= i < hi {
        SegPassInside(segs, starts, n_valid, body, before, k, i);
      }
    }
  }

  /** Inside segment k's range the segment pass leaves segment k's value. */
  lemma {:induction false} SegPassInside(segs: seq<Seg>, starts: seq<nat>, n_valid: nat, body: seq<u8>, before: seq<u64>, k: nat, i: nat)
    requires SegmentsReadable(segs, starts, n_valid, body) && k < |starts| && n_valid <= |before|
    requires starts[k] <= i < Stop(starts, n_valid, k + 1)
    ensures i < |before|
    ensures SegPassValue(segs, starts, n_valid, body, before, i) == SegmentValue(segs[k], body, i - starts[k])
  {
    StopMono(starts, n_valid, k + 1, |starts|);
    StopMono(starts, n_valid, 0, k);
    SegForIn(starts, n_valid, k, i);
    SegPassAt(segs, starts, n_valid, body, before, i, k);
  }

  /** Inside the ranges the segment pass leaves the value of the segment the search finds. */
  lemma {:induction false} SegPassAt(segs: seq<Seg>, starts: seq<nat>, n_valid: nat, body: seq<u8>, before: seq<u64>, i: nat, s: nat)
    requires AreasInside(segs, starts, body) && n_valid <= |before|
    requires Stop(starts, n_valid, 0) <= i < n_valid && s < |segs| && SegFor(starts, i) == s
    ensures SegPassValue(segs, starts, n_valid, body, before, i) == SegmentValue(segs[s], body, i - starts[s])
  {
  }

  /**
   * The segment pass: each segment decodes its range `start..end` of the
   * dense output; positions outside all ranges keep their contents.
   */
  method DecodeSegments(segs: seq<Seg>, sv: V.View, ghost starts: seq<nat>, n_valid: nat, body: seq<u8>, out: array<u64>)
    requires IndexView(sv, starts) && n_valid <= out.Length
    requires SegmentsReadable(segs, starts, n_valid, body)
    modifies out
    ensures forall i :: 0 <= i < out.Length ==>
      out[i] == SegPassValue(segs, starts, n_valid, body, old(out[..]), i)
  {
    ghost var before := out[..];
    var num_segs := |segs|;
    var seg_idx: nat := 0;
    while seg_idx < num_segs
      invariant seg_idx <= num_segs
      invariant SegPrefix(out[..], segs, starts, n_valid, body, before, seg_idx)
    {
      DecodeSegmentAt(segs, sv, starts, n_valid, body, out, before, seg_idx);
      seg_idx := seg_idx + 1;
    }
    assert forall i :: 0 <= i < out.Length ==> out[i] == out[..][i];
  }

  /** One iteration of the segment pass: segment k decodes `out[start..end]`. */
  method DecodeSegmentAt(segs: seq<Seg>, sv: V.View, ghost starts: seq<nat>, n_valid: nat, body: seq<u8>, out: array<u64>,
                         ghost before: seq<u64>, k: nat)
    requires IndexView(sv, starts) && n_valid <= out.Length && k < |segs|
    requires SegmentsReadable(segs, starts, n_valid, body)
    requires SegPrefix(out[..], segs, starts, n_valid, body, before, k)
    modifies out
    ensures SegPrefix(out[..], segs, starts, n_valid, body, before, k + 1)
  {
    var start: nat := V.Get(sv, k);
    var end: nat;
    if k == |segs| - 1 {
      end := n_valid;
    } else {
      end := V.Get(sv, k + 1);
    }
    assert start == starts[k] && end == Stop(starts, n_valid, k + 1);
    StopMono(starts, n_valid, k + 1, |segs|);
    ghost var prev := out[..];
    DecodeSegment(segs[k], body, out, start, end);
    SegStep(segs, starts, n_valid, body, before, prev, out, k, start, end);
  }

  // ---------------------------------------------------------------------
  // Outliers

  /**
   * An outlier's value: the prediction of its segment at its index
   * relative to the segment's start, plus the zigzag-decoded residual,
   * wrapping.
   */
  function OutlierValue(seg: Seg, rel: nat, zz: u64): u64
  {
    (Predict(seg.Base(), seg.Slope(), rel) + AsU64(ZigZagDecode(zz))) % TWO64
  }

  /**
   * Patching gives the value back: storing the zigzag code of the value's
   * signed distance from the prediction restores the value.
   */
  lemma {:induction false} OutlierRestores(seg: Seg, rel: nat, v: u64)
    requires -TWO63 <= v - Predict(seg.Base(), seg.Slope(), rel) < TWO63
    ensures OutlierValue(seg, rel, ZigZagEncode(v - Predict(seg.Base(), seg.Slope(), rel))) == v
  {
    var d: i64 := v - Predict(seg.Base(), seg.Slope(), rel);
    ZigZagDecodeEncode(d);
    if d < 0 {
      ModSmall(v, TWO64);
      assert Predict(seg.Base(), seg.Slope(), rel) + AsU64(d) == v + TWO64;
      ModAddMul(v, 1, TWO64);
    }
  }

  /** The bit just past segment s's residual area: its byte offset in bits plus one width per value. */
  function AreaEnd(segs: seq<Seg>, starts: seq<nat>, n_valid: nat, s: nat): nat
    requires |segs| == |starts| && Ranges(starts, n_valid) && s < |segs|
  {
    AreaEndOf(segs[s], Stop(starts, n_valid, s + 1) - starts[s])
  }

  /** The bit just past the residual area of a segment with `len` values. */
  function AreaEndOf(seg: Seg, len: nat): nat
  {
    seg.BitOffset() * 8 + BitIndex(len, seg.BitWidth())
  }

  /** The end, in bits, of the furthest residual area among the first k segments (0 if none has one). */
  function ResidualEnd(segs: seq<Seg>, starts: seq<nat>, n_valid: nat, k: nat): nat
    requires |segs| == |starts| && Ranges(starts, n_valid) && k <= |segs|
  {
    if k == 0 then 0
    else if segs[k - 1].BitWidth() > 0 then Max(ResidualEnd(segs, starts, n_valid, k - 1), AreaEnd(segs, starts, n_valid, k - 1))
    else ResidualEnd(segs, starts, n_valid, k - 1)
  }

  /** Every segment with residuals ends at or before the residual end. */
  lemma {:induction false} ResidualEndAbove(segs: seq<Seg>, starts: seq<nat>, n_valid: nat, k: nat, s: nat)
    requires |segs| == |starts| && Ranges(starts, n_valid) && s < k <= |segs| && segs[s].BitWidth() > 0
    ensures AreaEnd(segs, starts, n_valid, s) <= ResidualEnd(segs, starts, n_valid, k)
  {
    if s < k - 1 {
      ResidualEndAbove(segs, starts, n_valid, k - 1, s);
    }
  }

  /** A non-zero residual end is the end of some segment's residual area. */
  lemma {:induction false} ResidualEndAttained(segs: seq<Seg>, starts: seq<nat>, n_valid: nat, k: nat)
    requires |segs| == |starts| && Ranges(starts, n_valid) && k <= |segs|
    ensures ResidualEnd(segs, starts, n_valid, k) == 0 ||
      exists s :: 0 <= s < k && segs[s].BitWidth() > 0 && ResidualEnd(segs, starts, n_valid, k) == AreaEnd(segs, starts, n_valid, s)
  {
    if k > 0 {
      var e := ResidualEnd(segs, starts, n_valid, k - 1);
      ResidualEndAttained(segs, starts, n_valid, k - 1);
      if segs[k - 1].BitWidth() > 0 && e <= AreaEnd(segs, starts, n_valid, k - 1) {
        assert ResidualEnd(segs, starts, n_valid, k) == AreaEnd(segs, starts, n_valid, k - 1);
      } else if e > 0 {
        var s :| 0 <= s < k - 1 && segs[s].BitWidth() > 0 && e == AreaEnd(segs, starts, n_valid, s);
        assert ResidualEnd(segs, starts, n_valid, k) == AreaEnd(segs, starts, n_valid, s);
      }
    }
  }

  /** `pgm_bit_end`: the loop over the segments with residuals. */
  method ComputeResidualEnd(segs: seq<Seg>, sv: V.View, ghost starts: seq<nat>, n_valid: nat) returns (e: nat)
    requires IndexView(sv, starts) && |starts| == |segs| && Ranges(starts, n_valid)
    ensures e == ResidualEnd(segs, starts, n_valid, |segs|)
  {
    var num_segs := |segs|;
    e := 0;
    var seg_idx: nat := 0;
    while seg_idx < num_segs
      invariant seg_idx <= num_segs
      invariant e == ResidualEnd(segs, starts, n_valid, seg_idx)
    {
      e := ResidualEndStep(segs, sv, starts, n_valid, seg_idx, e);
      seg_idx := seg_idx + 1;
    }
  }

  /** One iteration: a segment with residuals raises the end to its own area end when that lies further. */
  method ResidualEndStep(segs: seq<Seg>, sv: V.View, ghost starts: seq<nat>, n_valid: nat, k: nat, e: nat) returns (e': nat)
    requires IndexView(sv, starts) && |starts| == |segs|
    requires Ranges(starts, n_valid) && k < |segs|
    requires e == ResidualEnd(segs, starts, n_valid, k)
    ensures e' == ResidualEnd(segs, starts, n_valid, k + 1)
  {
    e' := e;
    var seg := segs[k];
    if seg.BitWidth() > 0 {
      var end := SegAreaEnd(segs, sv, starts, n_valid, k);
      if end > e {
        e' := end;
      }
    }
  }

  /** `start + len * width` for one segment, its length from the index. */
  method SegAreaEnd(segs: seq<Seg>, sv: V.View, ghost starts: seq<nat>, n_valid: nat, seg_idx: nat) returns (end: nat)
    requires IndexView(sv, starts) && |starts| == |segs|
    requires Ranges(starts, n_valid) && seg_idx < |segs|
    ensures end == AreaEnd(segs, starts, n_valid, seg_idx)
  {
    var seg := segs[seg_idx];
    var first: nat := V.Get(sv, seg_idx);
    assert first == starts[seg_idx] <= Stop(starts, n_valid, seg_idx + 1);
    var len: nat;
    if seg_idx == |segs| - 1 {
      len := n_valid - first;
    } else {
      var next: nat := V.Get(sv, seg_idx + 1);
      assert next == starts[seg_idx + 1];
      len := next - first;
    }
    AreaEndIs(segs, starts, n_valid, seg_idx, len);
    end := AreaEndOf(seg, len);
  }

  lemma {:induction false} AreaEndIs(segs: seq<Seg>, starts: seq<nat>, n_valid: nat, s: nat, len: nat)
    requires |segs| == |starts| && Ranges(starts, n_valid) && s < |segs|
    requires len == Stop(starts, n_valid, s + 1) - starts[s]
    ensures AreaEnd(segs, starts, n_valid, s) == AreaEndOf(segs[s], len)
  {
  }

  /** Where the outlier residuals start: after the furthest residual area, or after the table when there is none. */
  function OutlierStart(outlier_num: nat, seg_num: nat, pgm_bit_end: nat): nat
  {
    if pgm_bit_end == 0 then (ViewTableOffset(outlier_num, seg_num) + seg_num * SEG_METADATA_SIZE) * 8
    else pgm_bit_end
  }

  /**
   * What the outlier loop demands: a segment to predict from, every outlier
   * offset inside the output and at or after the first segment's start (so
   * the relative index does not underflow), and every zigzag load inside
   * the body.
   */
  ghost predicate OutliersReadable(starts: seq<nat>, ov: V.View, body: seq<u8>, start_bit: nat, bw: nat, num: nat, size: nat)
  {
    && V.Valid(ov) && bw < 64
    && (num > 0 ==> |starts| > 0)
    && forall i :: 0 <= i < num ==>
         && V.GetSpec(ov, i) < size
         && starts[0] <= V.GetSpec(ov, i) as nat
         && (start_bit + BitIndex(i, bw)) / 8 + LoadWidth(bw) <= |body|
  }

  /** A value below 2^k for k at most 64 fits in a u64. */
  lemma {:induction false} FitsU64(x: nat, k: nat)
    requires k <= 64 && x < Pow2(k)
    ensures x < TWO64
  {
    Pow2Mono(k, 64);
    Pow2Values();
  }

  /** The value the outlier loop writes for outlier i. */
  ghost function OutlierAt(segs: seq<Seg>, starts: seq<nat>, ov: V.View, body: seq<u8>, start_bit: nat, bw: nat, num: nat, size: nat, i: nat): u64
    requires |segs| == |starts| && OutliersReadable(starts, ov, body, start_bit, bw, num, size) && i < num
  {
    var zz := ReadBits(body, start_bit + BitIndex(i, bw), bw);
    FitsU64(zz, bw);
    OutlierOf(segs, starts, V.GetSpec(ov, i) as nat, zz)
  }

  /** The value of an outlier at offset lba with residual code zz, against the segment whose range holds lba. */
  ghost function OutlierOf(segs: seq<Seg>, starts: seq<nat>, lba: nat, zz: u64): u64
    requires |segs| == |starts| > 0 && starts[0] <= lba
  {
    var s := SegFor(starts, lba);
    OutlierValue(segs[s], lba - starts[s], zz)
  }

  /** The values of the first k outliers. */
  ghost function OutlierVals(segs: seq<Seg>, starts: seq<nat>, ov: V.View, body: seq<u8>, start_bit: nat, bw: nat, num: nat, size: nat, k: nat): (r: seq<u64>)
    requires |segs| == |starts| && OutliersReadable(starts, ov, body, start_bit, bw, num, size) && k <= num
    ensures |r| == k
  {
    seq(k, i requires 0 <= i < k => OutlierAt(segs, starts, ov, body, start_bit, bw, num, size, i))
  }

  /** `d` after writing vals[k] at lbas[k] for each k in turn. */
  function Patch(d: seq<u64>, lbas: seq<nat>, vals: seq<u64>): (r: seq<u64>)
    requires |lbas| == |vals| && forall k :: 0 <= k < |lbas| ==> lbas[k] < |d|
    ensures |r| == |d|
  {
    if |lbas| == 0 then d
    else Patch(d, lbas[..|lbas| - 1], vals[..|vals| - 1])[lbas[|lbas| - 1] := vals[|vals| - 1]]
  }

  /**
   * With distinct, increasing offsets every outlier's value lands at its
   * offset and no other position changes.
   */
  lemma {:induction false} PatchAt(d: seq<u64>, lbas: seq<nat>, vals: seq<u64>)
    requires |lbas| == |vals| && forall k :: 0 <= k < |lbas| ==> lbas[k] < |d|
    requires Increasing(lbas)
    ensures forall k :: 0 <= k < |lbas| ==> Patch(d, lbas, vals)[lbas[k]] == vals[k]
    ensures forall j :: 0 <= j < |d| && j !in lbas ==> Patch(d, lbas, vals)[j] == d[j]
  {
    if |lbas| > 0 {
      var n := |lbas| - 1;
      PatchAt(d, lbas[..n], vals[..n]);
      forall k | 0 <= k < n
        ensures Patch(d, lbas, vals)[lbas[k]] == vals[k]
      {
        assert lbas[k] < lbas[n];
        assert lbas[..n][k] == lbas[k] && vals[..n][k] == vals[k];
      }
      forall j | 0 <= j < |d| && j !in lbas
        ensures Patch(d, lbas, vals)[j] == d[j]
      {
        assert j !in lbas[..n];
      }
    }
  }

  /** The search loop for the segment of an outlier's offset. */
  method FindSegment(sv: V.View, ghost starts: seq<nat>, num_segs: nat, lba: nat) returns (seg_idx: nat)
    requires IndexView(sv, starts) && num_segs == |starts| > 0
    ensures seg_idx == SegFor(starts, lba)
  {
    seg_idx := 0;
    var s: nat := 0;
    while s < num_segs
      invariant s <= num_segs && seg_idx < num_segs
      invariant ScanSeg(starts, lba, s, seg_idx) == SegFor(starts, lba)
    {
      var st: nat := V.Get(sv, s);
      if st <= lba {
        seg_idx := s;
        s := s + 1;
      } else {
        break;
      }
    }
  }

  /** One outlier: its offset and the value written there. */
  method OutlierSlot(segs: seq<Seg>, sv: V.View, ghost starts: seq<nat>, ov: V.View, body: seq<u8>,
                     start_bit: nat, bw: nat, num: nat, size: nat, i: nat)
    returns (lba: nat, v: u64)
    requires IndexView(sv, starts) && |segs| == |starts| && i < num
    requires OutliersReadable(starts, ov, body, start_bit, bw, num, size)
    ensures lba == V.GetSpec(ov, i) as nat && lba < size
    ensures v == OutlierAt(segs, starts, ov, body, start_bit, bw, num, size, i)
  {
    lba := V.Get(ov, i);
    var zz := ReadBits(body, start_bit + BitIndex(i, bw), bw);
    FitsU64(zz, bw);
    v := PredictedPlus(segs, sv, starts, lba, zz);
  }

  /** The segment lookup and the prediction plus residual for one outlier. */
  method PredictedPlus(segs: seq<Seg>, sv: V.View, ghost starts: seq<nat>, lba: nat, zz: u64) returns (v: u64)
    requires IndexView(sv, starts) && |segs| == |starts| > 0 && starts[0] <= lba
    ensures v == OutlierOf(segs, starts, lba, zz)
  {
    var seg_idx := FindSegment(sv, starts, |segs|, lba);
    var first: nat := V.Get(sv, seg_idx);
    v := OutlierValue(segs[seg_idx], lba - first, zz);
  }

  /** The outlier loop: each outlier's value is written at its offset, in index order. */
  method PatchOutliers(segs: seq<Seg>, sv: V.View, ghost starts: seq<nat>, ov: V.View, body: seq<u8>,
                       start_bit: nat, bw: nat, num: nat, out: array<u64>)
    requires IndexView(sv, starts) && |segs| == |starts|
    requires OutliersReadable(starts, ov, body, start_bit, bw, num, out.Length)
    modifies out
    ensures out[..] == Patch(old(out[..]), Positions(ov, num),
                             OutlierVals(segs, starts, ov, body, start_bit, bw, num, out.Length, num))
  {
    ghost var before := out[..];
    var i: nat := 0;
    while i < num
      invariant i <= num
      invariant out[..] == Patch(before, Positions(ov, i), OutlierVals(segs, starts, ov, body, start_bit, bw, num, out.Length, i))
    {
      ghost var prev := out[..];
      var lba, v := OutlierSlot(segs, sv, starts, ov, body, start_bit, bw, num, out.Length, i);
      out[lba] := v;
      PatchNext(segs, starts, ov, body, start_bit, bw, num, before, prev, out[..], i);
      i := i + 1;
    }
  }

  /** Writing outlier i's value at its offset extends the patch of the first i outliers by one. */
  lemma {:induction false} PatchNext(segs: seq<Seg>, starts: seq<nat>, ov: V.View, body: seq<u8>, start_bit: nat, bw: nat, num: nat,
                                     before: seq<u64>, prev: seq<u64>, cur: seq<u64>, i: nat)
    requires |segs| == |starts| && OutliersReadable(starts, ov, body, start_bit, bw, num, |before|) && i < num
    requires prev == Patch(before, Positions(ov, i), OutlierVals(segs, starts, ov, body, start_bit, bw, num, |before|, i))
    requires cur == prev[V.GetSpec(ov, i) as nat := OutlierAt(segs, starts, ov, body, start_bit, bw, num, |before|, i)]
    ensures cur == Patch(before, Positions(ov, i + 1), OutlierVals(segs, starts, ov, body, start_bit, bw, num, |before|, i + 1))
  {
    PositionsNext(ov, i);
    OutlierValsNext(segs, starts, ov, body, start_bit, bw, num, |before|, i);
    PatchSnoc(before, Positions(ov, i + 1), OutlierVals(segs, starts, ov, body, start_bit, bw, num, |before|, i + 1));
  }

  /** The offsets of the first i + 1 entries: those of the first i, then entry i's. */
  lemma {:induction false} PositionsNext(ov: V.View, i: nat)
    requires V.Valid(ov)
    ensures Positions(ov, i + 1)[..i] == Positions(ov, i) && Positions(ov, i + 1)[i] == V.GetSpec(ov, i) as nat
  {
  }

  /** The values of the first i + 1 outliers: those of the first i, then outlier i's. */
  lemma {:induction false} OutlierValsNext(segs: seq<Seg>, starts: seq<nat>, ov: V.View, body: seq<u8>, start_bit: nat, bw: nat, num: nat, size: nat, i: nat)
    requires |segs| == |starts| && OutliersReadable(starts, ov, body, start_bit, bw, num, size) && i < num
    ensures OutlierVals(segs, starts, ov, body, start_bit, bw, num, size, i + 1)[..i] == OutlierVals(segs, starts, ov, body, start_bit, bw, num, size, i)
    ensures OutlierVals(segs, starts, ov, body, start_bit, bw, num, size, i + 1)[i] == OutlierAt(segs, starts, ov, body, start_bit, bw, num, size, i)
  {
  }

  /** Patching with one more pair is the shorter patch followed by that write. */
  lemma {:induction false} PatchSnoc(d: seq<u64>, lbas: seq<nat>, vals: seq<u64>)
    requires |lbas| == |vals| > 0 && forall k :: 0 <= k < |lbas| ==> lbas[k] < |d|
    ensures Patch(d, lbas, vals) == Patch(d, lbas[..|lbas| - 1], vals[..|vals| - 1])[lbas[|lbas| - 1] := vals[|vals| - 1]]
  {
  }

  // ---------------------------------------------------------------------
  // The fitted path (modes other than 0)

  /** The group header at the front of the body. */
  function GroupHeaderOf(body: seq<u8>): GroupHeader
    requires GROUP_HEADER_SIZE <= |body|
  {
    GroupHeaderFromBytes(body)
  }

  /** The segment descriptors the table holds. */
  function SegmentsOf(body: seq<u8>): seq<Seg>
    requires GROUP_HEADER_SIZE <= |body|
    requires TableInside(body)
  {
    var gh := GroupHeaderOf(body);
    ViewTable(body, gh.OutlierCount(), gh.SegCount())
  }

  /** The segment table and the segment index's position lie inside the body. */
  predicate TableInside(body: seq<u8>)
    requires GROUP_HEADER_SIZE <= |body|
  {
    var gh := GroupHeaderOf(body);
    && (gh.SegCount() > 0 ==> ViewTableOffset(gh.OutlierCount(), gh.SegCount()) + SEG_METADATA_SIZE * gh.SegCount() <= |body|)
    && GROUP_HEADER_SIZE + EfLenBytes(gh.OutlierCount()) <= |body|
  }

  /** The index of segment starts. */
  function SegIndexOf(body: seq<u8>): V.View
    requires GROUP_HEADER_SIZE <= |body| && TableInside(body)
  {
    var gh := GroupHeaderOf(body);
    ViewSegEf(body, gh.OutlierCount(), gh.SegCount())
  }

  /** The index of outlier offsets. */
  function OutlierIndexOf(body: seq<u8>): V.View
    requires GROUP_HEADER_SIZE <= |body|
  {
    ViewOutlierEf(body, GroupHeaderOf(body).OutlierCount())
  }

  /**
   * What the fitted path demands of a body: the header, the table and a
   * valid segment index inside it, every segment's range and residual loads
   * in bounds, and, when there are outliers, a valid outlier index whose
   * offsets and residual loads are in bounds.
   */
  ghost predicate FittedReadable(body: seq<u8>, n_valid: nat, size: nat)
  {
    && GROUP_HEADER_SIZE <= |body| && TableInside(body)
    && var gh := GroupHeaderOf(body);
    && var sv := SegIndexOf(body);
    && V.Valid(sv)
    && var starts := Positions(sv, gh.SegCount());
    && SegmentsReadable(SegmentsOf(body), starts, n_valid, body)
    && (gh.OutlierCount() > 0 ==>
         OutliersReadable(starts, OutlierIndexOf(body), body,
                          OutlierStart(gh.OutlierCount(), gh.SegCount(), ResidualEnd(SegmentsOf(body), starts, n_valid, gh.SegCount())),
                          gh.OutlierBw(), gh.OutlierCount(), size))
  }

  /** The output of the segment pass over `before`. */
  ghost function SegPass(segs: seq<Seg>, starts: seq<nat>, n_valid: nat, body: seq<u8>, before: seq<u64>): (r: seq<u64>)
    requires AreasInside(segs, starts, body)
    ensures |r| == |before|
  {
    seq(|before|, i requires 0 <= i < |before| => SegPassValue(segs, starts, n_valid, body, before, i))
  }

  /** The segment table's readability gives every area inside the body. */
  lemma {:induction false} ReadableAreas(segs: seq<Seg>, starts: seq<nat>, n_valid: nat, body: seq<u8>)
    requires SegmentsReadable(segs, starts, n_valid, body)
    ensures AreasInside(segs, starts, body)
  {
  }

  /** `d` with every outlier's value written at its offset. */
  ghost function PatchAll(d: seq<u64>, segs: seq<Seg>, starts: seq<nat>, ov: V.View, body: seq<u8>, start_bit: nat, bw: nat, num: nat): (r: seq<u64>)
    requires |segs| == |starts| && OutliersReadable(starts, ov, body, start_bit, bw, num, |d|)
    ensures |r| == |d|
  {
    PositionsBelow(starts, ov, body, start_bit, bw, num, |d|);
    Patch(d, Positions(ov, num), OutlierVals(segs, starts, ov, body, start_bit, bw, num, |d|, num))
  }

  lemma {:induction false} PositionsBelow(starts: seq<nat>, ov: V.View, body: seq<u8>, start_bit: nat, bw: nat, num: nat, size: nat)
    requires OutliersReadable(starts, ov, body, start_bit, bw, num, size)
    ensures forall k :: 0 <= k < num ==> Positions(ov, num)[k] < size
  {
  }

  /**
   * The dense values the fitted path leaves: the segment pass over `before`,
   * then each outlier's value at its offset.
   */
  ghost function FittedDense(body: seq<u8>, n_valid: nat, before: seq<u64>): (r: seq<u64>)
    requires FittedReadable(body, n_valid, |before|)
    ensures |r| == |before|
  {
    var gh := GroupHeaderOf(body);
    var segs := SegmentsOf(body);
    var starts := Positions(SegIndexOf(body), gh.SegCount());
    ReadableAreas(segs, starts, n_valid, body);
    var pass := SegPass(segs, starts, n_valid, body, before);
    if gh.OutlierCount() == 0 then pass
    else
      PatchAll(pass, segs, starts, OutlierIndexOf(body), body,
               OutlierStart(gh.OutlierCount(), gh.SegCount(), ResidualEnd(segs, starts, n_valid, gh.SegCount())),
               gh.OutlierBw(), gh.OutlierCount())
  }

  /** Steps 1 and 2 of the fitted path: the segment pass, then the outlier patches. */
  method DecodeFitted(body: seq<u8>, n_valid: nat, out: array<u64>)
    requires FittedReadable(body, n_valid, out.Length) && n_valid <= out.Length
    modifies out
    ensures out[..] == FittedDense(body, n_valid, old(out[..]))
  {
    ghost var before := out[..];
    var gh := GroupHeaderOf(body);
    var num_segs := gh.SegCount();
    var num_outliers := gh.OutlierCount();
    var outlier_bw := gh.OutlierBw();
    var segments := ViewTable(body, num_outliers, num_segs);
    var seg_start_idxs := ViewSegEf(body, num_outliers, num_segs);
    ghost var starts := Positions(seg_start_idxs, num_segs);
    PositionsView(seg_start_idxs, num_segs);
    DecodeSegments(segments, seg_start_idxs, starts, n_valid, body, out);
    assert out[..] == SegPass(segments, starts, n_valid, body, before);
    if num_outliers > 0 {
      var outlier_idxs := ViewOutlierEf(body, num_outliers);
      var pgm_bit_end := ComputeResidualEnd(segments, seg_start_idxs, starts, n_valid);
      var outlier_bit_start := OutlierStart(num_outliers, num_segs, pgm_bit_end);
      PatchOutliers(segments, seg_start_idxs, starts, outlier_idxs, body, outlier_bit_start, outlier_bw, num_outliers, out);
    }
  }

  // ---------------------------------------------------------------------
  // The whole group

  /** The count of valid entries in the first two bytes, little-endian. */
  function NValidOf(payload: seq<u8>): nat
    requires 2 <= |payload|
  {
    LeValue(payload[..2])
  }

  /** The index of logical offsets after the count. */
  function IndexOf(payload: seq<u8>, size: nat): V.View
    requires 2 <= |payload|
  {
    V.New(payload[2..], NValidOf(payload), size)
  }

  /** The body after the count and the index, as far as `byte_len` plans the index. */
  function BodyOf(payload: seq<u8>, size: nat): seq<u8>
    requires 2 <= |payload| && 2 + W.ByteLen(NValidOf(payload), size) <= |payload|
  {
    payload[2 + W.ByteLen(NValidOf(payload), size)..]
  }

  /** What the dense decoding demands of a body, by the path the frame header's word `hp` selects. */
  ghost predicate DenseReadable(hp: u16, body: seq<u8>, n_valid: nat, size: nat)
  {
    if IsDirectOf(hp) then
      CountOf(hp) <= size && DirectReadable(CountOf(hp), WidthOf(hp), BaseLenOf(hp), body)
    else
      && GROUP_HEADER_SIZE <= |body|
      && if GroupHeaderOf(body).Mode() == 0 then GROUP_HEADER_SIZE + 8 * n_valid <= |body|
         else FittedReadable(body, n_valid, size)
  }

  /** The first `count` direct values; the other positions keep `before`. */
  function DirectDense(count: nat, width: nat, base_len: nat, body: seq<u8>, before: seq<u64>): (r: seq<u64>)
    requires base_len <= |body|
    ensures |r| == |before|
  {
    seq(|before|, i requires 0 <= i < |before| => if i < count then DirectValue(width, base_len, body, i) else before[i])
  }

  /** The first n_valid raw words; the other positions keep `before`. */
  function RawDense(n_valid: nat, body: seq<u8>, before: seq<u64>): (r: seq<u64>)
    requires GROUP_HEADER_SIZE + 8 * n_valid <= |body|
    ensures |r| == |before|
  {
    seq(|before|, i requires 0 <= i < |before| => if i < n_valid then RawValue(body, i) else before[i])
  }

  /** The dense values before the scatter, by path. */
  ghost function DenseOf(hp: u16, body: seq<u8>, n_valid: nat, before: seq<u64>): (r: seq<u64>)
    requires DenseReadable(hp, body, n_valid, |before|)
    ensures |r| == |before|
  {
    if IsDirectOf(hp) then DirectDense(CountOf(hp), WidthOf(hp), BaseLenOf(hp), body, before)
    else if GroupHeaderOf(body).Mode() == 0 then RawDense(n_valid, body, before)
    else FittedDense(body, n_valid, before)
  }

  /**
   * What `decode_group` demands: a payload that is empty or holds at least
   * the two count bytes; and when the count is not zero, the body after the
   * planned index length inside the payload, a valid index whose offsets
   * strictly increase and stay inside the output, and a body its path can
   * read.
   */
  ghost predicate GroupReadable(hp: u16, payload: seq<u8>, size: nat)
  {
    && |payload| != 1
    && (2 <= |payload| && NValidOf(payload) > 0 ==>
         && NValidOf(payload) <= size
         && 2 + W.ByteLen(NValidOf(payload), size) <= |payload|
         && V.Valid(IndexOf(payload, size))
         && Increasing(Positions(IndexOf(payload, size), NValidOf(payload)))
         && (forall i :: 0 <= i < NValidOf(payload) ==> Positions(IndexOf(payload, size), NValidOf(payload))[i] < size)
         && DenseReadable(hp, BodyOf(payload, size), NValidOf(payload), size))
  }

  /**
   * The result of decoding a group: every slot u64::MAX for an empty payload
   * or a zero count; otherwise the i-th dense value at the i-th stored
   * offset and u64::MAX everywhere else.
   */
  ghost predicate GroupDecoded(hp: u16, payload: seq<u8>, before: seq<u64>, after: seq<u64>)
    requires GroupReadable(hp, payload, |before|) && |after| == |before|
  {
    if |payload| == 0 || NValidOf(payload) == 0 then forall j :: 0 <= j < |after| ==> after[j] == U64_MAX
    else Scattered(after, DenseOf(hp, BodyOf(payload, |before|), NValidOf(payload), before),
                   Positions(IndexOf(payload, |before|), NValidOf(payload)))
  }

  /** The dense decoding, by path. */
  method DecodeDense(header: Head, body: seq<u8>, n_valid: nat, out: array<u64>)
    requires DenseReadable(header.packed, body, n_valid, out.Length) && n_valid <= out.Length
    modifies out
    ensures out[..] == DenseOf(header.packed, body, n_valid, old(out[..]))
  {
    if header.IsDirect() {
      var count := header.Count();
      var width := header.Width();
      var base_len := header.BaseLen();
      assert width < 64 && base_len < 8 by { Pow2Table(); }
      DecodeDirect(count, width, base_len, body, out);
    } else {
      var g_header := GroupHeaderOf(body);
      var mode := g_header.Mode();
      if mode == 0 {
        DecodeRaw(n_valid, body, out);
      } else {
        DecodeFitted(body, n_valid, out);
      }
    }
  }

  /**
   * `decode_group(header, payload, out)`: an empty payload or a zero count
   * leaves every slot u64::MAX; otherwise the i-th dense value ends up at
   * the i-th stored offset and every other slot is u64::MAX.
   */
  method DecodeGroup(header: Head, payload: seq<u8>, out: array<u64>)
    requires GroupReadable(header.packed, payload, out.Length)
    modifies out
    ensures GroupDecoded(header.packed, payload, old(out[..]), out[..])
  {
    if |payload| == 0 {
      FillMax(out, 0, out.Length);
      return;
    }
    var group_size := out.Length;
    var n_valid := NValidOf(payload);
    if n_valid == 0 {
      FillMax(out, 0, out.Length);
      return;
    }
    // the index view over payload[2..] and the body from 2 + byte_len on
    var ef_view := IndexOf(payload, group_size);
    var body := BodyOf(payload, group_size);
    DecodeDense(header, body, n_valid, out);
    Scatter(ef_view, n_valid, out);
  }
}
