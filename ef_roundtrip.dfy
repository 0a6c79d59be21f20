/**
 * The Elias-Fano writer and view together: a view over the bytes `encode`
 * returns holds the encoded values, in order, with skip entries laid out as
 * `predecessor` expects.
 */
module EfRoundTrip {
  import opened Common
  import opened BitField
  import opened EfUtil
  import W = EfWriter
  import V = EfView

  /** The low width `encode` picks for data and bound u. */
  function Width(data: seq<u16>, u: nat): nat
    requires |data| > 0
  {
    W.LowBits(|data|, u)
  }

  /**
   * Inputs whose encoding reads back exactly: sorted and non-empty, a low
   * width that fits the header's four bits, and an upper stream shorter than
   * 2^16 bits, so that the u16 bit positions of the skip entries and the u16
   * upper length are not truncated.
   */
  ghost predicate Encodable(data: seq<u16>, u: nat)
  {
    && W.Sorted(data) && |data| > 0
    && Width(data, u) < 16
    && W.UpperLen(data, Width(data, u), |data|) < TWO16
  }

  /** The byte length of the upper stream. */
  function UpperBytes(data: seq<u16>, u: nat): nat
    requires |data| > 0
  {
    DivCeil(W.UpperLen(data, Width(data, u), |data|), 8)
  }

  /** The byte length of the lower stream. */
  function LowerBytes(data: seq<u16>, u: nat): nat
    requires |data| > 0
  {
    DivCeil(W.LowerLen(Width(data, u), |data|), 8)
  }

  /** The encoding, cut into its five parts. */
  lemma {:induction false} EncodingParts(data: seq<u16>, u: nat)
    requires |data| > 0
    ensures var l := Width(data, u);
      && W.EncodeSpec(data, u)
         == [l % 16] + LeBytes(UpperBytes(data, u) % TWO16, 2)
            + LeBytes(W.UpperVal(data, l, |data|), UpperBytes(data, u))
            + LeBytes(W.LowerVal(data, l, |data|), LowerBytes(data, u))
            + W.SkipBytes(W.SkipTable(data, l, |data|))
  {
  }

  /** The first part of a concatenation of five. */
  lemma {:induction false} FrontOf(a: seq<u8>, b: seq<u8>, c: seq<u8>, d: seq<u8>, e: seq<u8>)
    ensures (a + b + c + d + e)[..|a|] == a
  {
  }

  /** The header bytes at the front of an encoding followed by any bytes. */
  lemma {:induction false} EncodingHead(data: seq<u16>, u: nat, rest: seq<u8>)
    requires |data| > 0
    ensures var bytes := W.EncodeSpec(data, u) + rest;
      && 3 <= |bytes|
      && bytes[..3] == [Width(data, u) % 16] + LeBytes(UpperBytes(data, u) % TWO16, 2)
  {
    var l := Width(data, u);
    var ub := UpperBytes(data, u);
    EncodingParts(data, u);
    FrontOf([l % 16] + LeBytes(ub % TWO16, 2),
            LeBytes(W.UpperVal(data, l, |data|), ub),
            LeBytes(W.LowerVal(data, l, |data|), LowerBytes(data, u)),
            W.SkipBytes(W.SkipTable(data, l, |data|)), rest);
  }

  /** The header of an encoding: the width byte and the upper length. */
  lemma {:induction false} HeaderOfEncoding(data: seq<u16>, u: nat, rest: seq<u8>)
    requires Encodable(data, u)
    ensures var bytes := W.EncodeSpec(data, u) + rest;
      && 3 <= |bytes| && bytes[0] == Width(data, u)
      && LeValue(bytes[1..3]) == UpperBytes(data, u)
  {
    var l := Width(data, u);
    var ub := UpperBytes(data, u);
    var bytes := W.EncodeSpec(data, u) + rest;
    assert ub < TWO16 by {
      assert W.UpperLen(data, l, |data|) < TWO16;
    }
    assert l % 16 == l by { ModSmall(l, 16); }
    assert ub % TWO16 == ub by { ModSmall(ub, TWO16); }
    EncodingHead(data, u, rest);
    var head := bytes[..3];
    assert head == [l] + LeBytes(ub, 2);
    assert bytes[1..3] == head[1..3] == LeBytes(ub, 2);
    U16RoundTrip(ub);
  }

  /** Where `EfView::new` puts the parts of an encoding. */
  lemma {:induction false} ViewOfEncoding(data: seq<u16>, u: nat, rest: seq<u8>)
    requires Encodable(data, u)
    ensures var v := V.New(W.EncodeSpec(data, u) + rest, |data|, u);
      && v.data == W.EncodeSpec(data, u) + rest
      && v.n == |data| && v.l == Width(data, u)
      && v.upper_offset == 3
      && v.lower_offset == 3 + UpperBytes(data, u)
      && v.skip_offset == 3 + UpperBytes(data, u) + LowerBytes(data, u)
      && v.skip_count == DivCeil(|data|, SKIP_INTERVAL)
  {
    var n := |data|;
    var l := Width(data, u);
    var bytes := W.EncodeSpec(data, u) + rest;
    HeaderOfEncoding(data, u, rest);
    EncodingSlices(data, u, rest);
    W.LowerLenIs(l, n);
    assert LowerBytes(data, u) == DivCeil(n * l, 8);
    V.NewOfHeader(bytes, n, u, l, UpperBytes(data, u));
  }

  /**
   * v lays out the encoding of data: its offsets are where the writer put
   * the three parts; read from its offset, each stream is the writer's
   * stream with the rest of the buffer above it; and the skip area holds
   * the writer's skip table.
   */
  ghost predicate LaysOut(v: V.View, data: seq<u16>, u: nat)
  {
    && Encodable(data, u)
    && var l := Width(data, u);
    var sb := W.SkipBytes(W.SkipTable(data, l, |data|));
    && V.WellFormed(v)
    && v.n == |data| && v.l == l
    && v.upper_offset == 3
    && v.lower_offset == 3 + UpperBytes(data, u)
    && v.skip_offset == v.lower_offset + LowerBytes(data, u)
    && V.Upper(v) == W.UpperVal(data, l, |data|) + Pow2(8 * UpperBytes(data, u)) * LeValue(v.data[v.lower_offset..])
    && V.Lower(v) == W.LowerVal(data, l, |data|) + Pow2(8 * LowerBytes(data, u)) * LeValue(v.data[v.skip_offset..])
    && v.skip_offset + |sb| <= |v.data|
    && v.data[v.skip_offset..v.skip_offset + |sb|] == sb
  }

  /** The parts of a concatenation of five. */
  lemma {:induction false} PartsOf(a: seq<u8>, b: seq<u8>, c: seq<u8>, d: seq<u8>, e: seq<u8>)
    ensures (a + b + c + d + e)[|a|..|a| + |b|] == b
    ensures (a + b + c + d + e)[|a| + |b|..|a| + |b| + |c|] == c
    ensures (a + b + c + d + e)[|a| + |b| + |c|..|a| + |b| + |c| + |d|] == d
  {
  }

  /** The streams and the skip bytes inside an encoding followed by any bytes. */
  lemma {:induction false} EncodingSlices(data: seq<u16>, u: nat, rest: seq<u8>)
    requires Encodable(data, u)
    ensures var bytes := W.EncodeSpec(data, u) + rest;
      var l := Width(data, u);
      var ub := UpperBytes(data, u);
      var lb := LowerBytes(data, u);
      var sb := W.SkipBytes(W.SkipTable(data, l, |data|));
      && 3 + ub + lb + |sb| <= |bytes|
      && bytes[3..3 + ub] == LeBytes(W.UpperVal(data, l, |data|), ub)
      && bytes[3 + ub..3 + ub + lb] == LeBytes(W.LowerVal(data, l, |data|), lb)
      && bytes[3 + ub + lb..3 + ub + lb + |sb|] == sb
  {
    var l := Width(data, u);
    var ub := UpperBytes(data, u);
    EncodingParts(data, u);
    PartsOf([l % 16] + LeBytes(ub % TWO16, 2),
            LeBytes(W.UpperVal(data, l, |data|), ub),
            LeBytes(W.LowerVal(data, l, |data|), LowerBytes(data, u)),
            W.SkipBytes(W.SkipTable(data, l, |data|)), rest);
  }

  /** Below a byte-aligned stream, a little-endian value is the stream's own value. */
  lemma {:induction false} StreamOfSlice(bytes: seq<u8>, off: nat, x: nat, len: nat, bits: nat)
    requires off + len <= |bytes| && len == DivCeil(bits, 8)
    requires bytes[off..off + len] == LeBytes(x, len) && x < Pow2(bits)
    ensures LeValue(bytes[off..]) == x + Pow2(8 * len) * LeValue(bytes[off + len..])
    ensures x < Pow2(8 * len)
  {
    assert bits <= 8 * len;
    Pow2Mono(bits, 8 * len);
    LeSliceSplit(bytes, off, off + len);
    LeValueOfLeBytes(x, len);
    DivModOf(0, Pow2(8 * len), x);
  }

  /** Read from byte 3, a buffer holding the upper stream there is that stream with the rest above it. */
  lemma {:induction false} UpperLaidOut(v: V.View, data: seq<u16>, u: nat)
    requires |data| > 0
    requires v.upper_offset == 3 && v.lower_offset == 3 + UpperBytes(data, u) <= |v.data|
    requires v.data[3..v.lower_offset] == LeBytes(W.UpperVal(data, Width(data, u), |data|), UpperBytes(data, u))
    ensures V.Upper(v) == W.UpperVal(data, Width(data, u), |data|) + Pow2(8 * UpperBytes(data, u)) * LeValue(v.data[v.lower_offset..])
  {
    var l := Width(data, u);
    StreamOfSlice(v.data, 3, W.UpperVal(data, l, |data|), UpperBytes(data, u), W.UpperLen(data, l, |data|));
  }

  /** Read from its offset, a buffer holding the lower stream there is that stream with the rest above it. */
  lemma {:induction false} LowerLaidOut(v: V.View, data: seq<u16>, u: nat)
    requires |data| > 0
    requires v.skip_offset == v.lower_offset + LowerBytes(data, u) <= |v.data|
    requires v.data[v.lower_offset..v.skip_offset] == LeBytes(W.LowerVal(data, Width(data, u), |data|), LowerBytes(data, u))
    ensures V.Lower(v) == W.LowerVal(data, Width(data, u), |data|) + Pow2(8 * LowerBytes(data, u)) * LeValue(v.data[v.skip_offset..])
  {
    var l := Width(data, u);
    StreamOfSlice(v.data, v.lower_offset, W.LowerVal(data, l, |data|), LowerBytes(data, u), W.LowerLen(l, |data|));
  }

  /** The view `EfView::new` builds over an encoding, whatever bytes follow it, lays the encoding out. */
  lemma {:induction false} EncodingLaidOut(data: seq<u16>, u: nat, rest: seq<u8>)
    requires Encodable(data, u)
    ensures LaysOut(V.New(W.EncodeSpec(data, u) + rest, |data|, u), data, u)
  {
    var bytes := W.EncodeSpec(data, u) + rest;
    var v := V.New(bytes, |data|, u);
    var l := Width(data, u);
    var ub := UpperBytes(data, u);
    var lb := LowerBytes(data, u);
    var sb := W.SkipBytes(W.SkipTable(data, l, |data|));
    ViewOfEncoding(data, u, rest);
    assert v.data == bytes && v.lower_offset == 3 + ub && v.skip_offset == 3 + ub + lb;
    EncodingSlices(data, u, rest);
    assert v.data[3..v.lower_offset] == LeBytes(W.UpperVal(data, l, |data|), ub);
    assert v.data[v.lower_offset..v.skip_offset] == LeBytes(W.LowerVal(data, l, |data|), lb);
    assert v.data[v.skip_offset..v.skip_offset + |sb|] == sb;
    UpperLaidOut(v, data, u);
    LowerLaidOut(v, data, u);
  }

  /** The upper stream is below 2^(8 ub). */
  lemma {:induction false} UpperBelow(data: seq<u16>, u: nat)
    requires |data| > 0
    ensures W.UpperVal(data, Width(data, u), |data|) < Pow2(8 * UpperBytes(data, u))
  {
    var bits := W.UpperLen(data, Width(data, u), |data|);
    assert bits <= 8 * UpperBytes(data, u);
    Pow2Mono(bits, 8 * UpperBytes(data, u));
  }

  /** The lower stream is below 2^(8 lb). */
  lemma {:induction false} LowerBelow(data: seq<u16>, u: nat)
    requires |data| > 0
    ensures W.LowerVal(data, Width(data, u), |data|) < Pow2(8 * LowerBytes(data, u))
  {
    var bits := W.LowerLen(Width(data, u), |data|);
    assert bits <= 8 * LowerBytes(data, u);
    Pow2Mono(bits, 8 * LowerBytes(data, u));
  }

  // ---------------------------------------------------------------------
  // The skip entries.

  /** Entry k of a skip table sits at bytes 4k to 4k + 4 of its serialisation. */
  lemma {:induction false} SkipBytesAt(table: seq<(u16, u16)>, k: nat)
    requires k < |table|
    ensures 4 * k + 4 <= |W.SkipBytes(table)|
    ensures W.SkipBytes(table)[4 * k..4 * k + 2] == LeBytes(table[k].0, 2)
    ensures W.SkipBytes(table)[4 * k + 2..4 * k + 4] == LeBytes(table[k].1, 2)
  {
    var m := |table| - 1;
    var pre := table[..m];
    var e := table[m];
    var out := W.SkipBytes(table);
    assert out == W.SkipBytes(pre) + LeBytes(e.0, 2) + LeBytes(e.1, 2);
    if k < m {
      SkipBytesAt(pre, k);
      assert pre[k] == table[k];
      assert out[..4 * m] == W.SkipBytes(pre);
      assert out[4 * k..4 * k + 2] == W.SkipBytes(pre)[4 * k..4 * k + 2];
      assert out[4 * k + 2..4 * k + 4] == W.SkipBytes(pre)[4 * k + 2..4 * k + 4];
    }
  }

  /** Without truncation, a skip entry holds the stream length and previous high part themselves. */
  lemma {:induction false} SkipEntryExact(data: seq<u16>, l: nat, i: nat)
    requires W.Sorted(data) && i <= |data| && W.UpperLen(data, l, |data|) < TWO16
    ensures W.SkipEntry(data, l, i).0 as nat == W.UpperLen(data, l, i)
    ensures W.SkipEntry(data, l, i).1 as nat == W.PrevHigh(data, l, i)
  {
    var p := W.UpperLen(data, l, i);
    var h := W.PrevHigh(data, l, i);
    assert p < TWO16 by { W.UpperLenMono(data, l, i, |data|); }
    assert h <= p by { W.UpperLenSorted(data, l, i); }
    DivModOf(0, TWO16, p);
    DivModOf(0, TWO16, h);
  }

  /** A slice inside s[o..o + |a|] == a is the slice of a. */
  lemma {:induction false} InnerSlice(s: seq<u8>, o: nat, a: seq<u8>, i: nat, j: nat)
    requires o + |a| <= |s| && s[o..o + |a|] == a && i <= j <= |a|
    ensures s[o + i..o + j] == a[i..j]
  {
    forall t: nat | t < j - i
      ensures s[o + i..o + j][t] == a[i..j][t]
    {
      assert s[o..o + |a|][i + t] == s[o + i + t];
    }
  }

  /** A view whose skip area holds a serialised entry at 4k reads that entry back as its k-th. */
  lemma {:induction false} SkipAtOfTable(v: V.View, sb: seq<u8>, k: nat, e: (u16, u16))
    requires V.WellFormed(v) && k < v.skip_count
    requires v.skip_offset + |sb| <= |v.data| && v.data[v.skip_offset..v.skip_offset + |sb|] == sb
    requires 4 * k + 4 <= |sb| && sb[4 * k..4 * k + 2] == LeBytes(e.0, 2) && sb[4 * k + 2..4 * k + 4] == LeBytes(e.1, 2)
    ensures V.SkipAt(v, k).0 == e.0 as nat && V.SkipAt(v, k).1 == e.1
  {
    V.SkipInBuffer(v, k);
    U16At(v.data, v.skip_offset, sb, 4 * k, e.0);
    U16At(v.data, v.skip_offset, sb, 4 * k + 2, e.1);
  }

  /** A u16 serialised at byte i of the part a of s reads back from s. */
  lemma {:induction false} U16At(s: seq<u8>, o: nat, a: seq<u8>, i: nat, x: u16)
    requires o + |a| <= |s| && s[o..o + |a|] == a && i + 2 <= |a| && a[i..i + 2] == LeBytes(x, 2)
    ensures LeValue(s[o + i..o + i + 2]) == x
  {
    InnerSlice(s, o, a, i, i + 2);
    U16RoundTrip(x);
  }

  /**
   * The view reads back the k-th skip entry the writer recorded: the upper
   * stream's length and the previous high part before the (64k)-th value.
   */
  lemma {:induction false} SkipOfEncoding(v: V.View, data: seq<u16>, u: nat, k: nat)
    requires LaysOut(v, data, u) && k < v.skip_count
    ensures SKIP_INTERVAL * k < |data|
    ensures V.SkipAt(v, k).0 == W.UpperLen(data, Width(data, u), SKIP_INTERVAL * k)
    ensures V.SkipAt(v, k).1 as nat == W.PrevHigh(data, Width(data, u), SKIP_INTERVAL * k)
  {
    var l := Width(data, u);
    var n := |data|;
    V.GroupBelow(n, k);
    var table := W.SkipTable(data, l, n);
    SkipBytesAt(table, k);
    SkipAtOfTable(v, W.SkipBytes(table), k, table[k]);
    assert table[k] == W.SkipEntry(data, l, SKIP_INTERVAL * k);
    SkipEntryExact(data, l, SKIP_INTERVAL * k);
  }

  // ---------------------------------------------------------------------
  // The upper stream's ones and the lower stream's fields.

  /** The ones of the upper number before the k-th skip position are the first 64k values'. */
  lemma {:induction false} PrefixOnes(v: V.View, data: seq<u16>, u: nat, k: nat)
    requires LaysOut(v, data, u) && k < v.skip_count
    ensures Popcount(V.Upper(v) % Pow2(W.UpperLen(data, Width(data, u), SKIP_INTERVAL * k))) == SKIP_INTERVAL * k
  {
    var l := Width(data, u);
    var n := |data|;
    var i := SKIP_INTERVAL * k;
    V.GroupBelow(n, k);
    var p := W.UpperLen(data, l, i);
    var uv := W.UpperVal(data, l, n);
    var a := 8 * UpperBytes(data, u);
    UpperBelow(data, u);
    assert p <= a by {
      W.UpperLenMono(data, l, i, n);
      assert W.UpperLen(data, l, n) <= a;
    }
    FieldLow(V.Upper(v), uv, LeValue(v.data[v.lower_offset..]), a, 0, p);
    assert Shr(V.Upper(v), 0) == V.Upper(v) && Shr(uv, 0) == uv;
    W.UpperPrefix(data, l, i, n);
    W.UpperOnes(data, l, i);
  }

  /** The i-th one of the upper number is where the writer put the i-th value's bit. */
  lemma {:induction false} SelectOfEncoding(v: V.View, data: seq<u16>, u: nat, i: nat)
    requires LaysOut(v, data, u) && i < |data|
    ensures i < Popcount(V.Upper(v))
    ensures Select(V.Upper(v), i) == i + Shr(data[i], Width(data, u))
  {
    var l := Width(data, u);
    var n := |data|;
    var uv := W.UpperVal(data, l, n);
    UpperBelow(data, u);
    W.UpperSelectSorted(data, l, n, i);
    SelectJoinLow(V.Upper(v), uv, LeValue(v.data[v.lower_offset..]), 8 * UpperBytes(data, u), i);
  }

  /** The upper number holds at least one 1-bit per value. */
  lemma {:induction false} OnesOfEncoding(v: V.View, data: seq<u16>, u: nat)
    requires LaysOut(v, data, u)
    ensures |data| <= Popcount(V.Upper(v))
  {
    var n := |data|;
    UpperBelow(data, u);
    PopcountJoin(V.Upper(v), W.UpperVal(data, Width(data, u), n), LeValue(v.data[v.lower_offset..]),
                 8 * UpperBytes(data, u));
    W.UpperOnes(data, Width(data, u), n);
  }

  /** The i-th l-bit field of the lower number is the i-th value's low part. */
  lemma {:induction false} LowOfEncoding(v: V.View, data: seq<u16>, u: nat, i: nat)
    requires LaysOut(v, data, u) && i < |data|
    ensures V.Low(v, i) == data[i] % Pow2(Width(data, u))
  {
    var l := Width(data, u);
    var n := |data|;
    var lv := W.LowerVal(data, l, n);
    LowerBelow(data, u);
    assert W.LowerLen(l, i) + l <= 8 * LowerBytes(data, u) by {
      W.LowStep(data, l, i);
      W.LowerLenMono(l, i + 1, n);
      assert W.LowerLen(l, n) <= 8 * LowerBytes(data, u);
    }
    var s: nat := W.LowerLen(l, i);
    assert s == i * l by { W.LowerLenIs(l, i); }
    FieldLow(V.Lower(v), lv, LeValue(v.data[v.skip_offset..]), 8 * LowerBytes(data, u), s, l);
    W.LowerField(data, l, n, i);
  }

  // ---------------------------------------------------------------------
  // The round trip.

  /** A view laying out an encoding is consistent: it holds n ones and its skip entries count them. */
  lemma {:induction false} ValidOfEncoding(v: V.View, data: seq<u16>, u: nat)
    requires LaysOut(v, data, u)
    ensures V.Valid(v)
  {
    OnesOfEncoding(v, data, u);
    forall k: nat | 0 < k < v.skip_count
      ensures Popcount(V.Upper(v) % Pow2(V.SkipAt(v, k).0)) == SKIP_INTERVAL * k
    {
      SkipOfEncoding(v, data, u, k);
      PrefixOnes(v, data, u, k);
    }
  }

  /** The view rebuilds every value from its high and low parts. */
  lemma {:induction false} RawOfEncoding(v: V.View, data: seq<u16>, u: nat, i: nat)
    requires LaysOut(v, data, u) && i < |data|
    ensures V.Valid(v)
    ensures V.Raw(v, i) == data[i] as nat
  {
    var l := Width(data, u);
    ValidOfEncoding(v, data, u);
    assert V.High(v, i) == Shr(data[i], l) by { SelectOfEncoding(v, data, u, i); }
    assert V.Low(v, i) == data[i] % Pow2(l) by { LowOfEncoding(v, data, u, i); }
    HighLow(data[i], l);
  }

  /** A number is its high part above l bits and its low l bits. */
  lemma {:induction false} HighLow(x: nat, l: nat)
    ensures x == Shr(x, l) * Pow2(l) + x % Pow2(l)
  {
  }

  /** A view laying out an encoding is ordered as `predecessor` needs. */
  lemma {:induction false} OrderedOfEncoding(v: V.View, data: seq<u16>, u: nat)
    requires LaysOut(v, data, u)
    ensures V.Ordered(v)
  {
    var l := Width(data, u);
    ValidOfEncoding(v, data, u);
    forall k: nat | 0 < k < v.skip_count
      ensures V.SkipAt(v, k).0 == V.SkipAt(v, k).1 + SKIP_INTERVAL * k
    {
      SkipOfEncoding(v, data, u, k);
      W.UpperLenSorted(data, l, SKIP_INTERVAL * k);
    }
    forall i: nat | i < v.n
      ensures V.Raw(v, i) < TWO16
    {
      RawOfEncoding(v, data, u, i);
    }
    forall i: nat, j: nat | i < j < v.n
      ensures V.Raw(v, i) <= V.Raw(v, j)
    {
      RawOfEncoding(v, data, u, i);
      RawOfEncoding(v, data, u, j);
    }
  }

  /** v holds exactly data, in order: |data| elements, each read back by `get`, and the sentinel beyond. */
  ghost predicate HoldsValues(v: V.View, data: seq<u16>)
  {
    && v.n == |data| && V.Ordered(v)
    && (forall i: nat :: i < |data| ==> V.GetSpec(v, i) == data[i])
    && (forall i: nat :: i >= |data| ==> V.GetSpec(v, i) == V.SENTINEL)
  }

  /**
   * The round trip: for sorted data whose encoding fits the u16 layout, the
   * view over `encode(data, u)`, followed by any bytes, has |data| elements,
   * is ordered, and `get(i)` returns data[i] for every i below |data| and
   * the sentinel beyond.
   */
  lemma {:induction false} EncodeThenView(data: seq<u16>, u: nat, rest: seq<u8>)
    requires Encodable(data, u)
    ensures HoldsValues(V.New(W.EncodeSpec(data, u) + rest, |data|, u), data)
  {
    var v := V.New(W.EncodeSpec(data, u) + rest, |data|, u);
    EncodingLaidOut(data, u, rest);
    OrderedOfEncoding(v, data, u);
    forall i: nat | i < |data|
      ensures V.GetSpec(v, i) == data[i]
    {
      RawOfEncoding(v, data, u, i);
      V.GetIsRaw(v, i);
    }
  }

  /** r is the last index whose value is at most t, with that value, or (0, 0) when there is none. */
  ghost predicate LastAtMostIn(data: seq<u16>, t: u16, r: (nat, u16))
  {
    || (&& r.0 < |data| && r.1 == data[r.0] && r.1 <= t
        && forall j: nat :: r.0 < j < |data| ==> data[j] > t)
    || (r == (0, 0) && forall j: nat :: j < |data| ==> data[j] > t)
  }

  /** `encode`, `EfView::new` and `get(index)` in sequence. */
  method EncodeThenGet(data: seq<u16>, u_bound: u64, index: nat) returns (r: u16)
    requires Encodable(data, u_bound)
    ensures index < |data| ==> r == data[index]
    ensures index >= |data| ==> r == V.SENTINEL
  {
    var bytes := W.Encode(data, u_bound);
    var v := V.New(bytes, |data|, u_bound);
    assert bytes + [] == bytes;
    EncodeThenView(data, u_bound, []);
    r := V.Get(v, index);
  }

  /** `encode`, `EfView::new` and `predecessor(target)` in sequence. */
  method EncodeThenPredecessor(data: seq<u16>, u_bound: u64, target: u16) returns (r: (nat, u16))
    requires Encodable(data, u_bound)
    ensures LastAtMostIn(data, target, r)
  {
    var bytes := W.Encode(data, u_bound);
    var v := V.New(bytes, |data|, u_bound);
    assert bytes + [] == bytes;
    EncodeThenView(data, u_bound, []);
    r := V.Predecessor(v, target);
  }
}
