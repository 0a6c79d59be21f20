/**
 * The direct-mode encoder for small groups
 * (jdb_ftl/src/ftl/codec/encoder/direct.rs).
 *
 * The group's values are stored as a shared base, the minimum, in its
 * `base_len` low bytes, followed by each value's delta from the base,
 * `width` bits apiece, where `width` is the bit width of max - min. The
 * header word records the count (4 bits), the width (6 bits) and the base
 * length (3 bits).
 */
module DirectEncoder {
  import opened Common
  import opened BitField
  import opened CodecUtil
  import opened Frame
  import opened BitWriting
  import opened DecoderBits
  import opened GroupDecoder

  /** `iter().copied().min().unwrap_or(0)`. */
  function MinOr0(s: seq<u64>): (r: u64)
    ensures s == [] ==> r == 0
    ensures s != [] ==> r in s && forall x :: x in s ==> r <= x
  {
    if |s| == 0 then 0
    else if |s| == 1 then s[0]
    else
      var m := MinOr0(s[..|s| - 1]);
      assert s == s[..|s| - 1] + [s[|s| - 1]];
      if s[|s| - 1] < m then s[|s| - 1] else m
  }

  /** `iter().copied().max().unwrap_or(0)`. */
  function MaxOr0(s: seq<u64>): (r: u64)
    ensures s == [] ==> r == 0
    ensures s != [] ==> r in s && forall x :: x in s ==> x <= r
  {
    if |s| == 0 then 0
    else if |s| == 1 then s[0]
    else
      var m := MaxOr0(s[..|s| - 1]);
      assert s == s[..|s| - 1] + [s[|s| - 1]];
      if s[|s| - 1] > m then s[|s| - 1] else m
  }

  /** The width of the deltas: the bit width of max - min (0 when all values are equal). */
  function DirectWidth(s: seq<u64>): (w: nat)
    ensures w <= 64
    ensures forall x :: x in s ==> x - MinOr0(s) < Pow2(w)
  {
    var d := MaxOr0(s) - MinOr0(s);
    assert d >= 0 by {
      if s != [] { assert s[0] in s; }
    }
    BitWidthU64(d);
    assert forall x :: x in s ==> x - MinOr0(s) <= d;
    BitWidth(d)
  }

  /** The bytes of the base: none for a zero minimum, else the minimum's bit width in whole bytes. */
  function DirectBaseLen(s: seq<u64>): (bl: nat)
    ensures bl <= 8
    ensures MinOr0(s) < Pow2(8 * bl)
  {
    var m := MinOr0(s);
    if m == 0 then 0
    else
      BitWidthU64(m);
      Pow2Mono(BitWidth(m), 8 * DivCeil(BitWidth(m), 8));
      DivCeil(BitWidth(m), 8)
  }

  /**
   * The deltas of s from m packed `w` bits apiece, the first lowest: what
   * `write(val - min, width)` for every value accumulates.
   */
  function Packed(s: seq<u64>, m: nat, w: nat): nat
  {
    if |s| == 0 then 0
    else Packed(s[..|s| - 1], m, w) + Pow2((|s| - 1) * w) * ((s[|s| - 1] - m) % Pow2(w))
  }

  /** The header word `encode_direct` builds: direct flag, `n as u8`, width and base length, each masked by its setter. */
  function DirectWord(s: seq<u64>): u16
  {
    WithBaseLen(WithWidth(WithCount(WithDirect(0, true), |s| % 256), DirectWidth(s)), DirectBaseLen(s))
  }

  /**
   * The payload `encode_direct` builds: the base's `base_len` low bytes,
   * then, when the width is not zero, the packed deltas in whole bytes and
   * the 8 zero bytes `finish_minimal` adds.
   */
  function DirectPayload(s: seq<u64>): seq<u8>
  {
    LeBytes(MinOr0(s), DirectBaseLen(s)) + DeltaBytes(s)
  }

  /** The bytes after the base: the packed deltas and 8 bytes of padding, or nothing for width 0. */
  function DeltaBytes(s: seq<u64>): seq<u8>
  {
    var w := DirectWidth(s);
    if w > 0 then LeBytes(Packed(s, MinOr0(s), w), DivCeil(|s| * w, 8) + 8) else []
  }

  /** `encode_direct(group_ppas)`: the header and the single new payload chunk. */
  method EncodeDirect(ppas: seq<u64>) returns (header: Head, payload: seq<u8>)
    ensures fresh(header)
    ensures header.packed == DirectWord(ppas)
    ensures payload == DirectPayload(ppas)
  {
    var n := |ppas|;
    var min_val := MinOr0(ppas);
    var width := DirectWidth(ppas);
    var base_len := DirectBaseLen(ppas);
    header := DirectHeader(n % 256, width, base_len);

    var base_bytes := LeBytes(min_val, 8);
    LeBytesPrefix(min_val, 8, base_len);
    payload := base_bytes[..base_len];

    if width > 0 {
      var bytes := PackDeltas(ppas, min_val, width);
      payload := payload + bytes;
    }
  }

  /** `Head::new()`, then the direct flag, `n as u8`, the width and the base length through their setters. */
  method DirectHeader(count: u8, width: u8, base_len: u8) returns (header: Head)
    ensures fresh(header)
    ensures header.packed == WithBaseLen(WithWidth(WithCount(WithDirect(0, true), count), width), base_len)
  {
    header := new Head();
    header.SetDirect(true);
    header.SetCount(count);
    header.SetWidth(width);
    header.SetBaseLen(base_len);
  }

  /**
   * The BitWriter loop: every delta from the minimum written `width` bits
   * apiece, then `finish_minimal`.
   */
  method PackDeltas(ppas: seq<u64>, min_val: u64, width: nat) returns (bytes: seq<u8>)
    requires 0 < width <= 64 && forall x :: x in ppas ==> min_val <= x
    ensures bytes == LeBytes(Packed(ppas, min_val, width), DivCeil(|ppas| * width, 8) + 8)
  {
    var n := |ppas|;
    var writer := new BitWriter(n * width);
    var k: nat := 0;
    while k < n
      invariant k <= n && writer.Valid()
      invariant writer.Value() == Packed(ppas[..k], min_val, width)
      invariant writer.TotalBits() == k * width
    {
      assert ppas[k] in ppas;
      writer.Write(ppas[k] - min_val, width);
      PackedSnoc(ppas, min_val, width, k);
      k := k + 1;
    }
    assert ppas[..n] == ppas;
    bytes := writer.FinishMinimal();
    LeBytesOfLeValue(bytes);
  }

  /** Writing value k after the first k adds its delta at bit k * w. */
  lemma {:induction false} PackedSnoc(s: seq<u64>, m: nat, w: nat, k: nat)
    requires k < |s|
    ensures Packed(s[..k + 1], m, w) == Packed(s[..k], m, w) + Pow2(k * w) * ((s[k] - m) % Pow2(w))
    ensures k * w + w == (k + 1) * w
  {
    assert s[..k + 1][..k] == s[..k];
    SlotEnd(k, k + 1, w);
  }

  /** The first k of the n low bytes are the k low bytes. */
  lemma {:induction false} LeBytesPrefix(v: nat, n: nat, k: nat)
    requires k <= n
    ensures LeBytes(v, n)[..k] == LeBytes(v, k)
  {
    if k > 0 {
      LeBytesPrefix(v / 256, n - 1, k - 1);
    }
  }

  /** The packed deltas take |s| * w bits. */
  lemma {:induction false} PackedBound(s: seq<u64>, m: nat, w: nat)
    ensures Packed(s, m, w) < Pow2(|s| * w)
  {
    if |s| > 0 {
      var n := |s|;
      var a := (n - 1) * w;
      var lo := Packed(s[..n - 1], m, w);
      var x := (s[n - 1] - m) % Pow2(w);
      PackedBound(s[..n - 1], m, w);
      assert Packed(s, m, w) == lo + Pow2(a) * x;
      SumBound(lo, x, Pow2(a), Pow2(w));
      Pow2Add(a, w);
      SlotEnd(n - 1, n, w);
    }
  }

  /** The slot of value i, which ends at (i + 1) * w, lies within n slots when i < n. */
  lemma {:induction false} SlotEnd(i: nat, n: nat, w: nat)
    requires i < n
    ensures i * w + w <= n * w
    ensures i + 1 == n ==> i * w + w == n * w
  {
    MulMono(w, i + 1, n);
  }

  /** The i-th w-bit field of the packed deltas is the i-th delta, modulo 2^w. */
  lemma {:induction false} PackedField(s: seq<u64>, m: nat, w: nat, i: nat)
    requires i < |s|
    ensures Field(Packed(s, m, w), BitIndex(i, w), w) == (s[i] - m) % Pow2(w)
  {
    var n := |s|;
    var a := (n - 1) * w;
    var lo := Packed(s[..n - 1], m, w);
    var hi := (s[n - 1] - m) % Pow2(w);
    assert Packed(s, m, w) == lo + Pow2(a) * hi;
    PackedBound(s[..n - 1], m, w);
    if i == n - 1 {
      FieldHigh(Packed(s, m, w), lo, hi, a, 0, w);
      FieldWhole(hi, w);
      assert a + 0 == BitIndex(i, w);
    } else {
      assert s[..n - 1][i] == s[i];
      PackedField(s[..n - 1], m, w, i);
      SlotEnd(i, n - 1, w);
      FieldLow(Packed(s, m, w), lo, hi, a, BitIndex(i, w), w);
    }
  }

  // ---------------------------------------------------------------------
  // Reading a direct group back.

  /** The fields fit the header: a count below 16, a width below 64 and a base length below 8. */
  predicate DirectFits(s: seq<u64>)
  {
    |s| < 16 && DirectWidth(s) < 64 && DirectBaseLen(s) < 8
  }

  /**
   * The header word as intended: None when the count, width or base length
   * does not fit its field, so that the group cannot be stored in direct
   * mode; otherwise the word `encode_direct` builds, whose fields read back
   * unchanged.
   */
  function CheckedDirectWord(s: seq<u64>): (r: Option<u16>)
    ensures r.Some? <==> DirectFits(s)
    ensures r.Some? ==> r.value == DirectWord(s)
    ensures r.Some? ==> && IsDirectOf(r.value) && CountOf(r.value) == |s|
                        && WidthOf(r.value) == DirectWidth(s) && BaseLenOf(r.value) == DirectBaseLen(s)
  {
    if DirectFits(s) then
      DirectWordFields(s);
      ModSmall(|s|, 16);
      ModSmall(DirectWidth(s), 64);
      ModSmall(DirectBaseLen(s), 8);
      Some(DirectWord(s))
    else None
  }

  /** What every field of the built word holds: each value masked to its field. */
  lemma {:induction false} DirectWordFields(s: seq<u64>)
    ensures IsDirectOf(DirectWord(s))
    ensures CountOf(DirectWord(s)) == |s| % 16
    ensures WidthOf(DirectWord(s)) == DirectWidth(s) % 64
    ensures BaseLenOf(DirectWord(s)) == DirectBaseLen(s) % 8
  {
    var p1 := WithDirect(0, true);
    var p2 := WithCount(p1, |s| % 256);
    var p3 := WithWidth(p2, DirectWidth(s));
    WithDirectFields(0, true);
    WithCountFields(p1, |s| % 256);
    WithWidthFields(p2, DirectWidth(s));
    WithBaseLenFields(p3, DirectBaseLen(s));
    assert (|s| % 256) % 16 == |s| % 16 by { ModMod(|s|, 16, 16); }
  }

  /**
   * The direct round trip: when the fields fit, the payload is readable the
   * way the direct decoding path reads it, and the i-th value it decodes is
   * the i-th value encoded.
   */
  lemma {:induction false} DirectRoundTrip(s: seq<u64>, hp: u16)
    requires CheckedDirectWord(s) == Some(hp)
    ensures DirectReadable(CountOf(hp), WidthOf(hp), BaseLenOf(hp), DirectPayload(s))
    ensures forall i :: 0 <= i < |s| ==> DirectValue(WidthOf(hp), BaseLenOf(hp), DirectPayload(s), i) == s[i]
  {
    var w := DirectWidth(s);
    var bl := DirectBaseLen(s);
    BaseBytes(s);
    forall i: nat | i < |s| && w > 0
      ensures bl + BitIndex(i, w) / 8 + LoadWidth(w) <= |DirectPayload(s)|
    {
      LoadFits(i, |s|, w);
    }
    forall i | 0 <= i < |s|
      ensures DirectValue(w, bl, DirectPayload(s), i) == s[i]
    {
      ValueAt(s, i);
    }
  }

  /** The payload is the base's bytes, which read back as the minimum, then the delta bytes. */
  lemma {:induction false} BaseBytes(s: seq<u64>)
    ensures var bl := DirectBaseLen(s);
      && bl <= |DirectPayload(s)| && |DirectPayload(s)| == bl + |DeltaBytes(s)|
      && LeValue(DirectPayload(s)[..bl]) == MinOr0(s)
      && DirectPayload(s)[bl..] == DeltaBytes(s)
  {
    var bl := DirectBaseLen(s);
    var m := MinOr0(s);
    assert DirectPayload(s)[..bl] == LeBytes(m, bl);
    LeValueOfLeBytes(m, bl);
    ModSmall(m, Pow2(8 * bl));
  }

  /** The i-th value the direct path decodes from the payload is the i-th value. */
  lemma {:induction false} ValueAt(s: seq<u64>, i: nat)
    requires i < |s|
    ensures DirectBaseLen(s) <= |DirectPayload(s)|
    ensures DirectValue(DirectWidth(s), DirectBaseLen(s), DirectPayload(s), i) == s[i]
  {
    var m := MinOr0(s);
    BaseBytes(s);
    DeltaOf(s, m, DirectWidth(s), i);
    assert s[i] in s;
    ModSmall(s[i], TWO64);
  }

  /** The w-bit field at bit i * w of the bytes after the base is the i-th delta. */
  lemma {:induction false} DeltaOf(s: seq<u64>, m: u64, w: nat, i: nat)
    requires i < |s| && m == MinOr0(s) && w == DirectWidth(s)
    ensures Field(LeValue(DeltaBytes(s)), BitIndex(i, w), w) == s[i] - m
  {
    assert s[i] in s;
    if w > 0 {
      assert LeValue(DeltaBytes(s)) == Packed(s, m, w) by { PackedBytes(s, m, w); }
      PackedField(s, m, w, i);
      ModSmall(s[i] - m, Pow2(w));
    } else {
      assert MaxOr0(s) == m;
      assert DeltaBytes(s) == [];
      FieldOfZero(BitIndex(i, w), w);
    }
  }

  /** The packed bytes read back as the packed deltas: they have room for all |s| * w bits. */
  lemma {:induction false} PackedBytes(s: seq<u64>, m: nat, w: nat)
    requires w > 0
    ensures LeValue(LeBytes(Packed(s, m, w), DivCeil(|s| * w, 8) + 8)) == Packed(s, m, w)
  {
    var len := DivCeil(|s| * w, 8) + 8;
    PackedBound(s, m, w);
    Pow2Mono(|s| * w, 8 * len);
    LeValueOfLeBytes(Packed(s, m, w), len);
    ModSmall(Packed(s, m, w), Pow2(8 * len));
  }

  /**
   * The load for the i-th delta stays inside the packed bytes plus their
   * 8 bytes of padding, for the 16-byte loads of widths above 56 as well.
   */
  lemma {:induction false} LoadFits(i: nat, n: nat, w: nat)
    requires i < n && 0 < w < 64
    ensures BitIndex(i, w) / 8 + LoadWidth(w) <= DivCeil(n * w, 8) + 8
  {
    SlotEnd(i, n, w);
    if w > 56 {
      assert i * w + 64 <= n * w + 7;
      DivMono(i * w + 64, n * w + 7, 8);
      assert (i * w + 64) / 8 == i * w / 8 + 8;
    } else {
      DivMono(i * w, n * w + 7, 8);
    }
  }

  lemma {:induction false} DivMono(a: nat, b: nat, d: nat)
    requires a <= b && d > 0
    ensures a / d <= b / d
  {
    if a / d > b / d {
      MulAtLeast(d, a / d - b / d);
      assert false;
    }
  }

  // ---------------------------------------------------------------------
  // What the fields of the as-written header lose.

  /**
   * A base needing all 8 bytes is stored as base length 0: the decoder then
   * reads 0 for the single value 2^56.
   */
  lemma {:induction false} HighBaseLost()
    ensures var s := [0x100_0000_0000_0000];
      && DirectBaseLen(s) == 8 && BaseLenOf(DirectWord(s)) == 0 && WidthOf(DirectWord(s)) == 0
      && DirectValue(WidthOf(DirectWord(s)), BaseLenOf(DirectWord(s)), DirectPayload(s), 0) == 0
  {
    var s: seq<u64> := [0x100_0000_0000_0000];
    assert MinOr0(s) == 0x100_0000_0000_0000 && MaxOr0(s) == MinOr0(s);
    assert BitWidth(MinOr0(s)) == 57 by { Pow2At56(); BitWidthExact(MinOr0(s), 57); }
    assert DirectBaseLen(s) == 8 && DirectWidth(s) == 0;
    var hp := DirectWord(s);
    assert BaseLenOf(hp) == 0 && WidthOf(hp) == 0 by { DirectWordFields(s); }
    ZeroWidthValue(DirectPayload(s), 0);
  }

  /** With width and base length 0 the direct path decodes 0, whatever the body. */
  lemma {:induction false} ZeroWidthValue(body: seq<u8>, i: nat)
    ensures DirectValue(0, 0, body, i) == 0
  {
    assert body[..0] == [];
    assert Field(LeValue(body[0..]), BitIndex(i, 0), 0) == 0;
  }

  lemma {:induction false} Pow2At56()
    ensures Pow2(56) == 0x100_0000_0000_0000 && Pow2(57) == 0x200_0000_0000_0000
  {
    Pow2Add(32, 24);
    Pow2Table();
  }

  /**
   * A delta needing all 64 bits is stored as width 0: the decoder then reads
   * 0 for the second value of [0, 2^63].
   */
  lemma {:induction false} WideDeltaLost()
    ensures var s := [0, TWO63];
      && DirectWidth(s) == 64 && WidthOf(DirectWord(s)) == 0 && BaseLenOf(DirectWord(s)) == 0
      && DirectValue(WidthOf(DirectWord(s)), BaseLenOf(DirectWord(s)), DirectPayload(s), 1) == 0
  {
    var t: seq<u64> := [0, TWO63];
    assert MinOr0(t) == 0 && MaxOr0(t) == TWO63;
    assert BitWidth(TWO63) == 64 by { Pow2Values(); BitWidthExact(TWO63, 64); }
    assert DirectBaseLen(t) == 0 && DirectWidth(t) == 64;
    var hp := DirectWord(t);
    assert BaseLenOf(hp) == 0 && WidthOf(hp) == 0 by { DirectWordFields(t); }
    ZeroWidthValue(DirectPayload(t), 1);
  }

  /** A value with 2^(r-1) <= v < 2^r has bit width r. */
  lemma {:induction false} BitWidthExact(v: nat, r: nat)
    requires r > 0 && Pow2(r - 1) <= v < Pow2(r)
    ensures BitWidth(v) == r
  {
    var b := BitWidth(v);
    if b < r {
      Pow2Mono(b, r - 1);
    } else if b > r {
      Pow2Mono(r, b - 1);
    }
  }

  /**
   * The loads the direct decoding loop makes as written: one `read_bits`
   * per value, also when the width is 0.
   */
  predicate LoadsAsWritten(count: nat, width: nat, base_len: nat, body: seq<u8>)
  {
    base_len <= |body| &&
    forall i: nat :: i < count ==> base_len + BitIndex(i, width) / 8 + LoadWidth(width) <= |body|
  }

  /**
   * For [7, 7] the width is 0 and the payload is the single base byte, yet
   * the loop as written loads 8 bytes after it for each value.
   */
  lemma {:induction false} ZeroWidthLoadsPastEnd()
    ensures var s := [7, 7];
      && CheckedDirectWord(s).Some? && WidthOf(DirectWord(s)) == 0 && BaseLenOf(DirectWord(s)) == 1
      && DirectPayload(s) == [7]
      && !LoadsAsWritten(CountOf(DirectWord(s)), WidthOf(DirectWord(s)), BaseLenOf(DirectWord(s)), DirectPayload(s))
  {
    var s: seq<u64> := [7, 7];
    assert MinOr0(s) == 7 && MaxOr0(s) == 7;
    assert BitWidth(7) == 3 by { Pow2Table(); BitWidthExact(7, 3); }
    assert DirectBaseLen(s) == 1;
    DirectWordFields(s);
    assert !(1 + BitIndex(0, 0) / 8 + LoadWidth(0) <= 1);
  }
}
