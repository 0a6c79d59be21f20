/**
 * The Elias-Fano encoder for sorted u16 offsets
 * (jdb_ftl/src/ftl/codec/ef/writer.rs).
 *
 * Each value v is split at bit l into a high part v >> l and a low part
 * v & (2^l - 1). The low parts are packed l bits apiece into the lower
 * stream. The high parts go into the upper stream in unary: before the i-th
 * value's 1-bit come as many 0-bits as its high part grew since the previous
 * value. Every 64th value also records a skip entry: the upper stream's bit
 * position before it and the previous value's high part.
 *
 * Layout: [l & 0xF] [upper length in bytes, u16 LE] [upper bytes]
 *         [lower bytes] [skip entries, (u16 LE bit_pos, u16 LE high) each]
 */
module EfWriter {
  import opened Common
  import opened BitField
  import opened EfUtil
  import opened BitWriting

  /** Bytes per skip entry. */
  const SKIP_ENTRY_SIZE: nat := 4

  /** floor(log2 x). */
  function Log2Floor(x: nat): (r: nat)
    requires x >= 1
    ensures Pow2(r) <= x < Pow2(r + 1)
  {
    if x < 2 then 0
    else
      var r := 1 + Log2Floor(x / 2);
      assert Pow2(r) == 2 * Pow2(r - 1) && Pow2(r + 1) == 2 * Pow2(r);
      r
  }

  /**
   * The width l of the low parts: floor(log2(u / n)) when u > n, else 0.
   * The source takes the logarithm in f64; this is the integer floor-log2
   * of u div n, which it equals for the offsets the codec handles.
   */
  function LowBits(n: nat, u: nat): (l: nat)
    requires n > 0
    ensures u > n ==> Pow2(l) <= u / n < Pow2(l + 1)
    ensures u <= n ==> l == 0
  {
    if u > n then Log2Floor(u / n) else 0
  }

  /** For a u64 bound the low width is below 64, so `1u64 << l` is defined. */
  lemma {:induction false} LowBitsBelow64(n: nat, u: u64)
    requires n > 0
    ensures LowBits(n, u) < 64
  {
    if u > n {
      var l := LowBits(n, u);
      Pow2Mono(64, Max(64, l));
      Pow2Values();
      DivAtMost(u, n);
    }
  }

  /** `byte_len(n, u)`: the size the encoding is planned to take for n values below u. */
  function ByteLen(n: nat, u: nat): (r: nat)
    ensures n == 0 ==> r == 1
  {
    if n == 0 then 1
    else
      var l := LowBits(n, u);
      var upper_bytes := DivCeil(n + Shr(u, l) + 1, 8);
      var lower_bytes := DivCeil(n * l, 8);
      3 + upper_bytes + lower_bytes + DivCeil(n, SKIP_INTERVAL) * SKIP_ENTRY_SIZE
  }

  // ---------------------------------------------------------------------
  // The streams, element by element.

  /** The high part of the i-th value. */
  function High(data: seq<u16>, l: nat, i: nat): nat
    requires i < |data|
  {
    Shr(data[i], l)
  }

  /** The high part of the value before the i-th, 0 before the first. */
  function PrevHigh(data: seq<u16>, l: nat, i: nat): nat
    requires i <= |data|
  {
    if i == 0 then 0 else High(data, l, i - 1)
  }

  /** How many 0-bits precede the i-th value's 1-bit (`saturating_sub`). */
  function Gap(data: seq<u16>, l: nat, i: nat): nat
    requires i < |data|
  {
    if High(data, l, i) > PrevHigh(data, l, i) then High(data, l, i) - PrevHigh(data, l, i) else 0
  }

  /** The upper stream's length in bits after the first i values. */
  function UpperLen(data: seq<u16>, l: nat, i: nat): nat
    requires i <= |data|
  {
    if i == 0 then 0 else UpperLen(data, l, i - 1) + Gap(data, l, i - 1) + 1
  }

  /** The upper stream after the first i values, as a number (bit 0 first). */
  function UpperVal(data: seq<u16>, l: nat, i: nat): (r: nat)
    requires i <= |data|
    ensures r < Pow2(UpperLen(data, l, i))
  {
    if i == 0 then 0
    else
      var p := UpperLen(data, l, i - 1) + Gap(data, l, i - 1);
      Pow2Mono(UpperLen(data, l, i - 1), p);
      UpperVal(data, l, i - 1) + Pow2(p)
  }

  /** The lower stream's length in bits after i values of l bits each. */
  function LowerLen(l: nat, i: nat): (r: nat)
  {
    if i == 0 then 0 else LowerLen(l, i - 1) + l
  }

  /** The lower stream after the first i values, as a number. */
  function LowerVal(data: seq<u16>, l: nat, i: nat): (r: nat)
    requires i <= |data|
    ensures r < Pow2(LowerLen(l, i))
  {
    if i == 0 then 0
    else
      var prev := LowerVal(data, l, i - 1);
      SumBound(prev, data[i - 1] % Pow2(l), Pow2(LowerLen(l, i - 1)), Pow2(l));
      Pow2Add(LowerLen(l, i - 1), l);
      prev + Pow2(LowerLen(l, i - 1)) * (data[i - 1] % Pow2(l))
  }

  /** l bits per value: i values take i * l bits. */
  lemma {:induction false} LowerLenIs(l: nat, i: nat)
    ensures LowerLen(l, i) == i * l
  {
    if i > 0 {
      LowerLenIs(l, i - 1);
      assert (i - 1) * l + l == i * l;
    }
  }

  /** The skip entry recorded before the i-th value: the upper stream's length and the previous high part, as u16s. */
  function SkipEntry(data: seq<u16>, l: nat, i: nat): (u16, u16)
    requires i <= |data|
  {
    (UpperLen(data, l, i) % TWO16, PrevHigh(data, l, i) % TWO16)
  }

  /** The skip entries recorded for the first n values: one before every 64th value. */
  function SkipTable(data: seq<u16>, l: nat, n: nat): (r: seq<(u16, u16)>)
    requires n <= |data|
    ensures |r| == DivCeil(n, SKIP_INTERVAL)
  {
    seq(DivCeil(n, SKIP_INTERVAL), k requires 0 <= k < DivCeil(n, SKIP_INTERVAL) => SkipEntry(data, l, SKIP_INTERVAL * k))
  }

  /** A skip table in bytes, each entry as two little-endian u16s. */
  function SkipBytes(table: seq<(u16, u16)>): (r: seq<u8>)
    ensures |r| == SKIP_ENTRY_SIZE * |table|
  {
    if table == [] then []
    else
      var e := table[|table| - 1];
      SkipBytes(table[..|table| - 1]) + LeBytes(e.0, 2) + LeBytes(e.1, 2)
  }

  /** The bytes `encode(data, u)` returns. */
  function EncodeSpec(data: seq<u16>, u: nat): seq<u8>
  {
    if |data| == 0 then [0]
    else
      var n := |data|;
      var l := LowBits(n, u);
      var ub := DivCeil(UpperLen(data, l, n), 8);
      [l % 16] + LeBytes(ub % TWO16, 2)
      + LeBytes(UpperVal(data, l, n), ub)
      + LeBytes(LowerVal(data, l, n), DivCeil(LowerLen(l, n), 8))
      + SkipBytes(SkipTable(data, l, n))
  }

  // ---------------------------------------------------------------------
  // The encoder.

  /** `encode(data, u_bound)`. */
  method Encode(data: seq<u16>, u_bound: u64) returns (out: seq<u8>)
    ensures out == EncodeSpec(data, u_bound)
  {
    var n := |data|;
    if n == 0 {
      return [0];
    }
    var l := if u_bound > n then Log2Floor(u_bound / n) else 0;
    assert l == LowBits(n, u_bound);
    LowBitsBelow64(n, u_bound);
    var upper, lower, skip_table := BuildStreams(data, l);
    var upper_bytes := upper.data;
    var lower_bytes := lower.data;
    assert |upper_bytes| == DivCeil(UpperLen(data, l, n), 8);
    var nibble := BitAnd(l, 0x0F);
    assert nibble == l % 16 by {
      assert Pow2(4) == 16 by { Pow2Table(); }
      MaskIsMod(l, 4);
    }
    out := [nibble] + LeBytes(|upper_bytes| % TWO16, 2);
    out := out + upper_bytes;
    out := out + lower_bytes;
    var skip_bytes := SerializeSkips(skip_table);
    out := out + skip_bytes;
  }

  /**
   * The loop of `encode` and the alignment after it: both streams, byte
   * aligned, and the skip table.
   */
  method BuildStreams(data: seq<u16>, l: nat) returns (upper: BitWriter, lower: BitWriter, skip_table: seq<(u16, u16)>)
    requires l < 64
    ensures upper.data == LeBytes(UpperVal(data, l, |data|), DivCeil(UpperLen(data, l, |data|), 8))
    ensures lower.data == LeBytes(LowerVal(data, l, |data|), DivCeil(LowerLen(l, |data|), 8))
    ensures skip_table == SkipTable(data, l, |data|)
  {
    var n := |data|;
    upper := new BitWriter(n * 2 / 8);
    lower := new BitWriter(n * l / 8);
    skip_table := [];
    var upper_bit_pos: nat := 0;

    for i := 0 to n
      invariant upper.Valid() && lower.Valid() && upper != lower
      invariant upper.Value() == UpperVal(data, l, i) && upper.TotalBits() == UpperLen(data, l, i)
      invariant upper_bit_pos == UpperLen(data, l, i)
      invariant lower.Value() == LowerVal(data, l, i) && lower.TotalBits() == LowerLen(l, i)
      invariant skip_table == SkipTable(data, l, i)
    {
      skip_table := PushSkip(data, l, i, skip_table, upper_bit_pos);
      PushLower(data, l, i, lower);
      upper_bit_pos := PushUpper(data, l, i, upper, upper_bit_pos);
    }

    AlignStream(upper, UpperVal(data, l, n), UpperLen(data, l, n));
    AlignStream(lower, LowerVal(data, l, n), LowerLen(l, n));
  }

  /** `byte_align` at the end of a stream: its bytes are then the LE encoding of its value. */
  method AlignStream(w: BitWriter, ghost v: nat, ghost bits: nat)
    requires w.Valid() && w.Value() == v && w.TotalBits() == bits
    modifies w
    ensures w.data == LeBytes(v, DivCeil(bits, 8))
  {
    w.ByteAlign();
    AlignedBytes(w.data, v, bits);
  }

  /** The skip table in bytes, entry by entry. */
  method SerializeSkips(skip_table: seq<(u16, u16)>) returns (out: seq<u8>)
    ensures out == SkipBytes(skip_table)
  {
    out := [];
    for j := 0 to |skip_table|
      invariant out == SkipBytes(skip_table[..j])
    {
      assert skip_table[..j + 1][..j] == skip_table[..j];
      out := out + LeBytes(skip_table[j].0, 2) + LeBytes(skip_table[j].1, 2);
    }
    assert skip_table[..|skip_table|] == skip_table;
  }

  /** Before every 64th value: record the upper stream's position and the previous high part. */
  method PushSkip(data: seq<u16>, l: nat, i: nat, table: seq<(u16, u16)>, upper_bit_pos: nat)
    returns (skip_table: seq<(u16, u16)>)
    requires i < |data|
    requires upper_bit_pos == UpperLen(data, l, i)
    requires table == SkipTable(data, l, i)
    ensures skip_table == SkipTable(data, l, i + 1)
  {
    skip_table := table;
    SkipCount(i);
    if i % SKIP_INTERVAL == 0 {
      var prev_h := if i == 0 then 0 else Shr(data[i - 1], l);
      skip_table := skip_table + [(upper_bit_pos % TWO16, prev_h % TWO16)];
    }
    SkipTableStep(data, l, i, table, skip_table);
  }

  /** The low l bits of the i-th value into the lower stream. */
  method PushLower(data: seq<u16>, l: nat, i: nat, lower: BitWriter)
    requires i < |data| && l < 64
    requires lower.Valid() && lower.Value() == LowerVal(data, l, i) && lower.TotalBits() == LowerLen(l, i)
    modifies lower
    ensures lower.Valid() && lower.Value() == LowerVal(data, l, i + 1) && lower.TotalBits() == LowerLen(l, i + 1)
  {
    var low_mask := Pow2(l) - 1;
    var low := BitAnd(data[i], low_mask);
    assert low == data[i] % Pow2(l) < TWO16 by { MaskIsMod(data[i], l); LowStep(data, l, i); }
    lower.Write(low, l);
    LowStep(data, l, i);
  }

  /**
   * The i-th value's gap as 0-bits, at most 64 at a time, then its 1-bit,
   * into the upper stream; returns the advanced bit position.
   */
  method PushUpper(data: seq<u16>, l: nat, i: nat, upper: BitWriter, bit_pos: nat) returns (upper_bit_pos: nat)
    requires i < |data|
    requires upper.Valid() && upper.Value() == UpperVal(data, l, i) && upper.TotalBits() == UpperLen(data, l, i)
    requires bit_pos == UpperLen(data, l, i)
    modifies upper
    ensures upper.Valid() && upper.Value() == UpperVal(data, l, i + 1) && upper.TotalBits() == UpperLen(data, l, i + 1)
    ensures upper_bit_pos == UpperLen(data, l, i + 1)
  {
    upper_bit_pos := bit_pos;
    var h := Shr(data[i], l);
    var prev_h: nat := if i == 0 then 0 else Shr(data[i - 1], l);
    var gap: nat := if h > prev_h then h - prev_h else 0;  // saturating_sub
    WriteZeros(upper, gap);
    upper_bit_pos := upper_bit_pos + gap;
    OneBit(upper.TotalBits());
    upper.Write(1, 1);
    upper_bit_pos := upper_bit_pos + 1;
    UpperStep(data, l, i);
  }

  /** `gap` 0-bits, written at most 64 at a time: the length grows, the value stays. */
  method WriteZeros(upper: BitWriter, gap: nat)
    requires upper.Valid()
    modifies upper
    ensures upper.Valid() && upper.Value() == old(upper.Value())
    ensures upper.TotalBits() == old(upper.TotalBits()) + gap
  {
    var rem: nat := gap;
    while rem > 0
      invariant rem <= gap
      invariant upper.Valid() && upper.Value() == old(upper.Value())
      invariant upper.TotalBits() == old(upper.TotalBits()) + (gap - rem)
      modifies upper
    {
      var chunk := Min(rem, 64);
      ZeroBits(upper.TotalBits(), chunk);
      upper.Write(0, chunk);
      rem := rem - chunk;
    }
  }

  /** The skip table grows by the entry for i exactly when i is a multiple of 64. */
  lemma {:induction false} SkipTableStep(data: seq<u16>, l: nat, i: nat, table: seq<(u16, u16)>, next: seq<(u16, u16)>)
    requires i < |data|
    requires table == SkipTable(data, l, i)
    requires next == if i % SKIP_INTERVAL == 0 then table + [SkipEntry(data, l, i)] else table
    ensures next == SkipTable(data, l, i + 1)
  {
    SkipCount(i);
    assert |next| == |SkipTable(data, l, i + 1)|;
    forall k | 0 <= k < |next|
      ensures next[k] == SkipTable(data, l, i + 1)[k]
    {
      if k == |table| {
        assert i == SKIP_INTERVAL * k;
      }
    }
  }

  /** The bytes an aligned writer holds are the little-endian bytes of its value. */
  lemma {:induction false} AlignedBytes(bs: seq<u8>, v: nat, bits: nat)
    requires LeValue(bs) + Pow2(8 * |bs|) * 0 == v && 8 * |bs| + 0 == 8 * DivCeil(bits, 8)
    ensures bs == LeBytes(v, DivCeil(bits, 8))
  {
    LeBytesOfLeValue(bs);
  }

  lemma {:induction false} LowStep(data: seq<u16>, l: nat, i: nat)
    requires i < |data|
    ensures data[i] % Pow2(l) < TWO16 && (data[i] % Pow2(l)) % Pow2(l) == data[i] % Pow2(l)
    ensures LowerLen(l, i + 1) == LowerLen(l, i) + l
    ensures LowerVal(data, l, i + 1) == LowerVal(data, l, i) + Pow2(LowerLen(l, i)) * (data[i] % Pow2(l))
  {
    ModBelow(data[i], Pow2(l));
  }

  lemma {:induction false} UpperStep(data: seq<u16>, l: nat, i: nat)
    requires i < |data|
    ensures UpperLen(data, l, i + 1) == UpperLen(data, l, i) + Gap(data, l, i) + 1
    ensures UpperVal(data, l, i + 1) == UpperVal(data, l, i) + Pow2(UpperLen(data, l, i) + Gap(data, l, i))
    ensures Gap(data, l, i) == if High(data, l, i) > PrevHigh(data, l, i) then High(data, l, i) - PrevHigh(data, l, i) else 0
    ensures High(data, l, i) == Shr(data[i], l)
    ensures PrevHigh(data, l, i) == if i == 0 then 0 else Shr(data[i - 1], l)
  {
  }

  /** One more value adds a skip entry exactly when its index is a multiple of 64. */
  lemma {:induction false} SkipCount(i: nat)
    ensures DivCeil(i + 1, SKIP_INTERVAL) == DivCeil(i, SKIP_INTERVAL) + (if i % SKIP_INTERVAL == 0 then 1 else 0)
    ensures i % SKIP_INTERVAL == 0 ==>
      DivCeil(i, SKIP_INTERVAL) == i / SKIP_INTERVAL && i == SKIP_INTERVAL * (i / SKIP_INTERVAL)
  {
  }

  lemma {:induction false} OneBit(p: nat)
    ensures Pow2(p) * (1 % Pow2(1)) == Pow2(p)
  {
    assert Pow2(1) == 2;
  }

  lemma {:induction false} ZeroBits(a: nat, b: nat)
    ensures Pow2(a) * (0 % Pow2(b)) == 0
  {
  }

  lemma {:induction false} ModBelow(x: nat, p: nat)
    requires p > 0
    ensures x % p <= x && (x % p) % p == x % p
  {
    DivModOf(x / p, p, x % p);
    DivModOf(0, p, x % p);
    assert p * (x / p) >= 0;
  }

  lemma {:induction false} DivAtMost(u: nat, n: nat)
    requires n >= 1
    ensures u / n <= u
  {
    MulMono(u / n, 1, n);
    assert u == n * (u / n) + u % n;
  }

  // ---------------------------------------------------------------------
  // What the streams hold.

  /** A single 1-bit at position g. */
  lemma {:induction false} PowerOfTwoBits(g: nat)
    ensures Popcount(Pow2(g)) == 1 && Select(Pow2(g), 0) == g
  {
    if g == 0 {
      assert Pow2(0) == 1;
      assert Popcount(1) == 1 + Popcount(0);
    } else {
      PowerOfTwoBits(g - 1);
      assert Pow2(g) == 2 * Pow2(g - 1);
      PopcountDouble(Pow2(g - 1));
      SelectDouble(Pow2(g - 1), 0);
    }
  }

  /** Each value puts exactly one 1-bit into the upper stream. */
  lemma {:induction false} UpperOnes(data: seq<u16>, l: nat, i: nat)
    requires i <= |data|
    ensures Popcount(UpperVal(data, l, i)) == i
  {
    if i > 0 {
      var a := UpperLen(data, l, i - 1);
      var g := Gap(data, l, i - 1);
      UpperOnes(data, l, i - 1);
      PowerOfTwoBits(g);
      Pow2Add(a, g);
      PopcountJoin(UpperVal(data, l, i), UpperVal(data, l, i - 1), Pow2(g), a);
    }
  }

  /** The i-th 1-bit of the upper stream comes after the first i values' bits and the i-th gap. */
  lemma {:induction false} UpperSelect(data: seq<u16>, l: nat, n: nat, i: nat)
    requires i < n <= |data|
    ensures i < Popcount(UpperVal(data, l, n))
    ensures Select(UpperVal(data, l, n), i) == UpperLen(data, l, i) + Gap(data, l, i)
  {
    var a := UpperLen(data, l, n - 1);
    var g := Gap(data, l, n - 1);
    var lo := UpperVal(data, l, n - 1);
    UpperOnes(data, l, n - 1);
    PowerOfTwoBits(g);
    assert UpperVal(data, l, n) == lo + Pow2(a) * Pow2(g) by { Pow2Add(a, g); }
    if i == n - 1 {
      SelectJoinHigh(UpperVal(data, l, n), lo, Pow2(g), a, i);
    } else {
      UpperSelect(data, l, n - 1, i);
      SelectJoinLow(UpperVal(data, l, n), lo, Pow2(g), a, i);
    }
  }

  /** The upper stream only grows. */
  lemma {:induction false} UpperLenMono(data: seq<u16>, l: nat, j: nat, n: nat)
    requires j <= n <= |data|
    ensures UpperLen(data, l, j) <= UpperLen(data, l, n)
  {
    if j < n {
      UpperLenMono(data, l, j, n - 1);
    }
  }

  /** The bits written for the first j values stay the low bits of the stream. */
  lemma {:induction false} UpperPrefix(data: seq<u16>, l: nat, j: nat, n: nat)
    requires j <= n <= |data|
    ensures UpperVal(data, l, n) % Pow2(UpperLen(data, l, j)) == UpperVal(data, l, j)
  {
    if j < n {
      var a := UpperLen(data, l, j);
      var p := UpperLen(data, l, n - 1) + Gap(data, l, n - 1);
      var x := UpperVal(data, l, n - 1);
      assert x % Pow2(a) == UpperVal(data, l, j) by { UpperPrefix(data, l, j, n - 1); }
      assert a <= p by { UpperLenMono(data, l, j, n - 1); }
      assert UpperVal(data, l, n) == x + Pow2(p - a) * Pow2(a) by { Pow2Add(p - a, a); }
      ModAddMul(x, Pow2(p - a), Pow2(a));
    } else {
      DivModOf(0, Pow2(UpperLen(data, l, n)), UpperVal(data, l, n));
    }
  }

  /** The data is sorted: no value is smaller than the one before. */
  ghost predicate Sorted(data: seq<u16>)
  {
    forall i, j :: 0 <= i <= j < |data| ==> data[i] <= data[j]
  }

  lemma {:induction false} ShrMono(a: nat, b: nat, l: nat)
    requires a <= b
    ensures Shr(a, l) <= Shr(b, l)
  {
    var p := Pow2(l);
    assert a == (a / p) * p + a % p;
    ModAddMul(a % p + (b - a), a / p, p);
    DivNonNeg(a % p + (b - a), p);
  }

  /**
   * For sorted data the gaps add up: the upper stream after i values is
   * i one-bits plus the high part of the last of them in zero-bits.
   */
  lemma {:induction false} UpperLenSorted(data: seq<u16>, l: nat, i: nat)
    requires Sorted(data) && i <= |data|
    ensures UpperLen(data, l, i) == i + PrevHigh(data, l, i)
  {
    if i > 0 {
      UpperLenSorted(data, l, i - 1);
      if i > 1 {
        ShrMono(data[i - 2], data[i - 1], l);
      }
    }
  }

  /** For sorted data the i-th 1-bit sits at i plus the i-th high part. */
  lemma {:induction false} UpperSelectSorted(data: seq<u16>, l: nat, n: nat, i: nat)
    requires Sorted(data) && i < n <= |data|
    ensures i < Popcount(UpperVal(data, l, n))
    ensures Select(UpperVal(data, l, n), i) == i + High(data, l, i)
  {
    UpperSelect(data, l, n, i);
    UpperLenSorted(data, l, i);
    if i > 0 {
      ShrMono(data[i - 1], data[i], l);
    }
  }

  lemma {:induction false} LowerLenMono(l: nat, j: nat, n: nat)
    requires j <= n
    ensures LowerLen(l, j) <= LowerLen(l, n)
  {
    if j < n {
      LowerLenMono(l, j, n - 1);
    }
  }

  /** The i-th l-bit field of the lower stream is the low part of the i-th value. */
  lemma {:induction false} LowerField(data: seq<u16>, l: nat, n: nat, i: nat)
    requires i < n <= |data|
    ensures Field(LowerVal(data, l, n), LowerLen(l, i), l) == data[i] % Pow2(l)
  {
    var lo := LowerVal(data, l, n - 1);
    var hi := data[n - 1] % Pow2(l);
    if i == n - 1 {
      FieldHigh(LowerVal(data, l, n), lo, hi, LowerLen(l, i), 0, l);
      FieldWhole(hi, l);
      assert LowerLen(l, i) + 0 == LowerLen(l, i);
    } else {
      LowerField(data, l, n - 1, i);
      LowerLenMono(l, i + 1, n - 1);
      FieldLow(LowerVal(data, l, n), lo, hi, LowerLen(l, n - 1), LowerLen(l, i), l);
    }
  }

  /** `encode([])` is the single byte 0, and `byte_len(0, _)` counts it. */
  lemma {:induction false} EncodeEmpty(u: nat)
    ensures EncodeSpec([], u) == [0] && |EncodeSpec([], u)| == ByteLen(0, u)
  {
  }

  /**
   * For sorted values none above u, the encoding takes at most `byte_len(n, u)`
   * bytes: the upper stream is n one-bits plus at most u >> l zero-bits.
   */
  lemma {:induction false} EncodeWithinByteLen(data: seq<u16>, u: nat)
    requires Sorted(data) && forall i :: 0 <= i < |data| ==> data[i] <= u
    ensures |EncodeSpec(data, u)| <= ByteLen(|data|, u)
  {
    var n := |data|;
    if n > 0 {
      var l := LowBits(n, u);
      UpperLenSorted(data, l, n);
      ShrMono(data[n - 1], u, l);
      LowerLenIs(l, n);
      assert UpperLen(data, l, n) <= n + Shr(u, l) + 1;
      assert DivCeil(UpperLen(data, l, n), 8) <= DivCeil(n + Shr(u, l) + 1, 8);
    }
  }
}
