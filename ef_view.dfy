/**
 * The read side of the Elias-Fano index (jdb_ftl/src/ftl/codec/ef/view.rs)
 * in its u16 layout (traits.rs `LayoutU16`): a view over the encoded bytes,
 * random access `get` and the `predecessor` search.
 *
 * The upper stream is read as one little-endian number V of everything from
 * byte 3 on. The i-th value's 1-bit is the i-th set bit of V, Select(V, i);
 * the zeros before it, Select(V, i) - i, are the value's high part, and the
 * i-th l-bit field of the lower stream is its low part.
 */
module EfView {
  import opened Common
  import opened BitField
  import opened EfUtil

  /** Bytes per skip entry in the u16 layout: u16 bit position, u16 high part. */
  const SKIP_ENTRY_SIZE: nat := 4

  /** The u16 sentinel `get` returns past the end. */
  const SENTINEL: u16 := 0xFFFF

  /** An `EfView`: the buffer and the offsets `new` derives from its header. */
  datatype View = View(data: seq<u8>, n: nat, l: nat, upper_offset: nat, lower_offset: nat,
                       upper_len_bits: nat, skip_offset: nat, skip_count: nat)

  /** `EfView::empty`: no elements. */
  function Empty(data: seq<u8>): View
  {
    View(data, 0, 0, 0, 0, 0, 0, 0)
  }

  /** The part boundaries in order inside the buffer, and for a non-empty view what `new` derives them from. */
  ghost predicate WellFormed(v: View)
  {
    && v.upper_offset <= v.lower_offset <= v.skip_offset
    && v.skip_offset + v.skip_count * SKIP_ENTRY_SIZE <= |v.data|
    && v.skip_count == DivCeil(v.n, SKIP_INTERVAL)
    && (v.n > 0 ==>
         && v.l < 16
         && v.upper_offset == 3
         && v.skip_offset == v.lower_offset + DivCeil(v.n * v.l, 8))
  }

  /**
   * `EfView::new(data, n, _)`: an empty view when n is 0, the buffer is
   * shorter than the 3-byte header, or shorter than the length the header
   * and n call for; otherwise the offsets of the three parts.
   */
  function New(data: seq<u8>, n: nat, u_bound: nat): (v: View)
    ensures WellFormed(v) && v.data == data
    ensures n == 0 || |data| < 3 ==> v == Empty(data)
    ensures v.n == 0 || v.n == n
    ensures n > 0 && |data| >= 3 ==>
              (v.n == n <==>
                 3 + LeValue(data[1..3]) + DivCeil(n * BitAnd(data[0], 0x0F), 8)
                   + DivCeil(n, SKIP_INTERVAL) * SKIP_ENTRY_SIZE <= |data|)
  {
    if n == 0 || |data| < 3 then Empty(data)
    else
      var l := BitAnd(data[0], 0x0F);
      var upper_len_bytes := LeValue(data[1..3]);
      var upper_offset := 3;
      var lower_offset := upper_offset + upper_len_bytes;
      var upper_len_bits := upper_len_bytes * 8;
      var lower_len_bytes := DivCeil(n * l, 8);
      var skip_offset := lower_offset + lower_len_bytes;
      var skip_count := DivCeil(n, SKIP_INTERVAL);
      var required_len := skip_offset + skip_count * SKIP_ENTRY_SIZE;
      if required_len > |data| then Empty(data)
      else
        assert l < 16 by { LowNibble(data[0]); }
        View(data, n, l, upper_offset, lower_offset, upper_len_bits, skip_offset, skip_count)
  }

  /** On a buffer whose header holds l < 16 and the upper length ub, and which is long enough, the view takes these fields. */
  lemma {:induction false} NewOfHeader(bytes: seq<u8>, n: nat, u: nat, l: nat, ub: nat)
    requires n > 0 && 3 <= |bytes| && l < 16 && bytes[0] == l
    requires LeValue(bytes[1..3]) == ub
    requires 3 + ub + DivCeil(n * l, 8) + DivCeil(n, SKIP_INTERVAL) * SKIP_ENTRY_SIZE <= |bytes|
    ensures New(bytes, n, u)
            == View(bytes, n, l, 3, 3 + ub, ub * 8, 3 + ub + DivCeil(n * l, 8), DivCeil(n, SKIP_INTERVAL))
  {
    assert BitAnd(bytes[0], 0x0F) == l by {
      LowNibble(l);
      ModSmall(l, 16);
    }
  }

  /** `b & 0x0F` is the low four bits. */
  lemma {:induction false} LowNibble(b: nat)
    ensures BitAnd(b, 0x0F) == b % 16 < 16
  {
    assert Pow2(4) == 16 by { Pow2Table(); }
    MaskIsMod(b, 4);
  }

  // ---------------------------------------------------------------------
  // The streams as numbers.

  /** The upper stream and everything after it, as one little-endian number. */
  function Upper(v: View): nat
    requires v.upper_offset <= |v.data|
  {
    LeValue(v.data[v.upper_offset..])
  }

  /** The lower stream and everything after it, as one little-endian number. */
  function Lower(v: View): nat
    requires v.lower_offset <= |v.data|
  {
    LeValue(v.data[v.lower_offset..])
  }

  /** The low part stored for the i-th value: the i-th l-bit field of the lower stream. */
  function Low(v: View, i: nat): nat
    requires v.lower_offset <= |v.data|
  {
    Field(Lower(v), i * v.l, v.l)
  }

  /** `skip_at(k)`: the k-th entry, two little-endian u16s. */
  function SkipAt(v: View, k: nat): (e: (nat, u16))
    requires WellFormed(v) && k < v.skip_count
    ensures e.0 < TWO16
  {
    var off := v.skip_offset + k * SKIP_ENTRY_SIZE;
    SkipInBuffer(v, k);
    assert LeValue(v.data[off..off + 2]) < TWO16 && LeValue(v.data[off + 2..off + 4]) < TWO16 by {
      LeBound2(v.data[off..off + 2]);
      LeBound2(v.data[off + 2..off + 4]);
    }
    (LeValue(v.data[off..off + 2]), LeValue(v.data[off + 2..off + 4]) as u16)
  }

  lemma {:induction false} SkipInBuffer(v: View, k: nat)
    requires WellFormed(v) && k < v.skip_count
    ensures v.skip_offset + k * SKIP_ENTRY_SIZE + SKIP_ENTRY_SIZE <= |v.data|
  {
    MulMono(SKIP_ENTRY_SIZE, k + 1, v.skip_count);
    MulComm(SKIP_ENTRY_SIZE, k + 1);
    MulComm(SKIP_ENTRY_SIZE, v.skip_count);
  }

  /**
   * `decode_val(pos, index)`: the high part pos - index truncated to u16,
   * shifted up by l, OR-ed with the low part, truncated to u16.
   */
  function ValueAt(v: View, pos: nat, index: nat): u16
    requires v.lower_offset <= |v.data| && index <= pos
  {
    (((pos - index) % TWO16) * Pow2(v.l) + Low(v, index)) % TWO16
  }

  /** A view whose header and skip entries agree with its upper stream. */
  ghost predicate Valid(v: View)
  {
    && WellFormed(v)
    && v.n <= Popcount(Upper(v))
    && forall k: nat :: 0 < k < v.skip_count ==>
         Popcount(Upper(v) % Pow2(SkipAt(v, k).0)) == SKIP_INTERVAL * k
  }

  /** What `get(index)` returns: the value whose 1-bit is the index-th one, or the sentinel. */
  function GetSpec(v: View, index: nat): u16
    requires Valid(v)
  {
    if index >= v.n then SENTINEL
    else
      SelectBounds(Upper(v), index, 8 * |v.data[v.upper_offset..]|);
      ValueAt(v, Select(Upper(v), index), index)
  }

  // ---------------------------------------------------------------------
  // Scanning the upper stream.

  /** With Popcount(V mod 2^q) at most k, the k-th one of V is at q or above. */
  lemma {:induction false} SelectAtLeast(x: nat, k: nat, q: nat)
    requires k < Popcount(x) && Popcount(x % Pow2(q)) <= k
    ensures q <= Select(x, k)
  {
    var s := Select(x, k);
    if s < q {
      PopcountBelowSelect(x, k);
      PopcountWindow(x, s + 1, q - s - 1);
      assert false;
    }
  }

  /**
   * One window of m bits at pos, with `skipped` ones below it and the
   * index-th one not below it: either the index-th one is inside the window,
   * at its (index - skipped)-th one, or the window is passed over whole.
   */
  lemma {:induction false} WindowStep(x: nat, pos: nat, m: nat, skipped: nat, index: nat)
    requires index < Popcount(x) && Popcount(x % Pow2(pos)) == skipped <= index
    ensures skipped + Popcount(Field(x, pos, m)) > index ==>
      index - skipped < Popcount(Field(x, pos, m))
      && Select(x, index) == pos + Select(Field(x, pos, m), index - skipped)
    ensures skipped + Popcount(Field(x, pos, m)) <= index ==>
      Popcount(x % Pow2(pos + m)) == skipped + Popcount(Field(x, pos, m))
      && pos + m <= Select(x, index)
  {
    PopcountWindow(x, pos, m);
    if skipped + Popcount(Field(x, pos, m)) > index {
      SelectWindow(x, pos, m, skipped, index - skipped);
    } else {
      SelectAtLeast(x, index, pos + m);
    }
  }

  /** The bits of a field from c on are the field c bits further up. */
  lemma {:induction false} ShrField(x: nat, a: nat, m: nat, c: nat)
    requires c <= m
    ensures Shr(Field(x, a, m), c) == Field(x, a + c, m - c)
  {
    var y := Field(x, a, m);
    HighBound(y, m, c);
    FieldOfField(x, a, m, c, m - c);
    assert Field(y, c, m - c) == Shr(y, c) by {
      DivModOf(0, Pow2(m - c), Shr(y, c));
    }
  }

  /** The 8-byte word at byte b of the buffer is the 64 bits of V at 8 * (b - 3). */
  lemma {:induction false} WordOfUpper(v: View, b: nat)
    requires v.upper_offset == 3 && 3 <= b && 3 <= |v.data|
    ensures WordAt(v.data, b) == Field(Upper(v), 8 * (b - 3), 64)
  {
    WordAtField(v.data, 3, b);
  }

  /** The ones of V lie inside the buffer. */
  lemma {:induction false} SelectInBuffer(v: View, index: nat)
    requires v.upper_offset <= |v.data| && index < Popcount(Upper(v))
    ensures index <= Select(Upper(v), index) < 8 * (|v.data| - v.upper_offset)
  {
    SelectBounds(Upper(v), index, 8 * |v.data[v.upper_offset..]|);
  }

  /** index's group has a skip entry. */
  lemma {:induction false} GroupInTable(v: View, index: nat)
    requires WellFormed(v) && index < v.n
    ensures index / SKIP_INTERVAL < v.skip_count
  {
    assert index / SKIP_INTERVAL <= (v.n - 1) / SKIP_INTERVAL;
  }

  /** Where a group's scan starts: the ones below it are the group's first rank, and index's one is not below it. */
  lemma {:induction false} SkipStart(v: View, index: nat, k: nat, p: nat)
    requires Valid(v) && index < v.n && k == index / SKIP_INTERVAL && k < v.skip_count
    requires p == (if k > 0 then SkipAt(v, k).0 else 0)
    ensures Popcount(Upper(v) % Pow2(p)) == SKIP_INTERVAL * k <= index
    ensures p <= Select(Upper(v), index)
  {
    if k == 0 {
      assert Upper(v) % Pow2(0) == 0;
      PopcountZero(0);
    }
    SelectAtLeast(Upper(v), index, p);
  }

  /** `if byte_idx + 8 <= len { unaligned u64 load } else { load_u64_safe }`. */
  method LoadWord(data: seq<u8>, byte_idx: nat) returns (w: u64)
    ensures w == WordAt(data, byte_idx)
  {
    if byte_idx + 8 <= |data| {
      LeBound8(data[byte_idx..byte_idx + 8]);
      w := LeValue(data[byte_idx..byte_idx + 8]);
    } else {
      w := LoadU64Safe(data, byte_idx);
    }
  }

  /** The low part of a value inside the view lies in the buffer. */
  lemma {:induction false} LowInBuffer(v: View, index: nat)
    requires WellFormed(v) && index < v.n
    ensures v.lower_offset + (index * v.l) / 8 <= |v.data|
  {
    MulMono(v.l, index, v.n);
    MulComm(v.l, index);
    MulComm(v.l, v.n);
    assert (index * v.l) / 8 <= DivCeil(v.n * v.l, 8);
  }

  /** `(h << l) | lower` with lower below 2^l is h * 2^l + lower. */
  lemma {:induction false} Combine(lower: nat, h: nat, l: nat)
    requires lower < Pow2(l)
    ensures BitOr(lower, Shl(h, l)) == h * Pow2(l) + lower
  {
    OrDisjoint(lower, h, l);
  }

  /** The `if l == 0 { 0 } else { read_bits_u64_at(...) }` of `decode_val`. */
  method ReadLow(v: View, index: nat) returns (lower: u64)
    requires WellFormed(v) && index < v.n
    ensures lower == Low(v, index)
  {
    var l := v.l;
    LowInBuffer(v, index);
    if l == 0 {
      lower := 0;
    } else {
      lower := ReadBitsU64At(v.data, v.lower_offset, index * l, l);
    }
  }

  /** `decode_val(upper_bit_pos, index)`. */
  method DecodeVal(v: View, upper_bit_pos: nat, index: nat) returns (r: u16)
    requires WellFormed(v) && index < v.n && index <= upper_bit_pos
    ensures r == ValueAt(v, upper_bit_pos, index)
  {
    var h_val := upper_bit_pos - index;
    var lower_val := ReadLow(v, index);
    var h := h_val % TWO16;          // h_val as u16
    Combine(lower_val, h, v.l);
    var val := BitOr(lower_val, Shl(h, v.l));  // (h << l) | lower
    r := val % TWO16;
  }

  /** The first position `get` scans from: its group's skip entry, or 0 for the first group. */
  method GroupStart(v: View, index: nat) returns (start: nat)
    requires Valid(v) && index < v.n
    ensures Popcount(Upper(v) % Pow2(start)) == SKIP_INTERVAL * (index / SKIP_INTERVAL) <= index
    ensures start <= Select(Upper(v), index)
  {
    var skip_idx := index / SKIP_INTERVAL;
    GroupInTable(v, index);
    start := 0;
    if skip_idx > 0 {
      var entry := SkipAt(v, skip_idx);
      start := entry.0;
    }
    SkipStart(v, index, skip_idx, start);
  }

  /**
   * The partly used byte a scan starting at an unaligned position begins
   * with: either index's one is in it, or the scan goes on at the next byte.
   */
  method FirstByte(v: View, index: nat, pos0: nat, skipped0: nat) returns (found: bool, pos: nat, skipped: nat)
    requires v.upper_offset == 3 && 3 <= |v.data| && index < Popcount(Upper(v)) && pos0 % 8 != 0
    requires Popcount(Upper(v) % Pow2(pos0)) == skipped0 <= index && pos0 <= Select(Upper(v), index)
    ensures found ==> pos == Select(Upper(v), index)
    ensures !found ==> pos % 8 == 0 && pos <= Select(Upper(v), index)
    ensures !found ==> Popcount(Upper(v) % Pow2(pos)) == skipped <= index
  {
    ghost var x := Upper(v);
    assert 3 + pos0 / 8 < |v.data| by { SelectInBuffer(v, index); }
    var bit_offset_in_byte := pos0 % 8;
    var masked := PartialByte(v, pos0);
    var ones_in_partial := Popcount(masked);
    if skipped0 + ones_in_partial > index {
      WindowStep(x, pos0, 8 - bit_offset_in_byte, skipped0, index);
      var needed := index - skipped0;
      var bit_in_partial := SelectBitInByte(masked, needed);
      return true, pos0 + bit_in_partial, skipped0;
    }
    WindowStep(x, pos0, 8 - bit_offset_in_byte, skipped0, index);
    found, pos, skipped := false, pos0 + 8 - bit_offset_in_byte, skipped0 + ones_in_partial;
    assert pos % 8 == 0 by {
      assert pos == (pos0 / 8 + 1) * 8;
      DivModOf(pos0 / 8 + 1, 8, 0);
    }
  }

  /**
   * One word of the fast scan, at aligned position pos with `skipped` ones
   * below it: either index's one is its (index - skipped)-th one, or the
   * scan passes over all 64 bits.
   */
  lemma {:induction false} WordStep(v: View, index: nat, pos: nat, skipped: nat, w: nat)
    requires v.upper_offset == 3 && 3 <= |v.data| && pos % 8 == 0
    requires index < Popcount(Upper(v)) && Popcount(Upper(v) % Pow2(pos)) == skipped <= index
    requires w == WordAt(v.data, 3 + pos / 8)
    ensures skipped + Popcount(w) > index ==>
      index - skipped < Popcount(w) && Select(Upper(v), index) == pos + Select(w, index - skipped)
    ensures skipped + Popcount(w) <= index ==>
      Popcount(Upper(v) % Pow2(pos + 64)) == skipped + Popcount(w) && pos + 64 <= Select(Upper(v), index)
  {
    WordOfUpper(v, 3 + pos / 8);
    assert 8 * (3 + pos / 8 - 3) == pos;
    WindowStep(Upper(v), pos, 64, skipped, index);
  }

  /** The fast scan: whole words from an aligned position up to index's one. */
  method ScanWords(v: View, index: nat, pos0: nat, skipped0: nat) returns (pos: nat)
    requires v.upper_offset == 3 && 3 <= |v.data| && index < Popcount(Upper(v)) && pos0 % 8 == 0
    requires Popcount(Upper(v) % Pow2(pos0)) == skipped0 <= index && pos0 <= Select(Upper(v), index)
    ensures pos == Select(Upper(v), index)
  {
    ghost var x := Upper(v);
    ghost var target := Select(x, index);
    pos := pos0;
    var skipped := skipped0;
    var byte_idx := v.upper_offset + pos / 8;
    while skipped <= index
      invariant pos % 8 == 0 && byte_idx == 3 + pos / 8
      invariant Popcount(x % Pow2(pos)) == skipped <= index
      invariant pos <= target
      decreases target - pos
    {
      var found, next, skipped2 := ScanWord(v, index, pos, skipped, byte_idx);
      if found {
        return next;
      }
      AlignedStep(pos);
      pos, skipped, byte_idx := next, skipped2, byte_idx + 8;
    }
  }

  /** One word of the fast scan: index's one is in the word at pos, or the scan moves on 64 bits. */
  method ScanWord(v: View, index: nat, pos: nat, skipped: nat, byte_idx: nat) returns (found: bool, next: nat, skipped2: nat)
    requires v.upper_offset == 3 && 3 <= |v.data| && index < Popcount(Upper(v))
    requires pos % 8 == 0 && byte_idx == 3 + pos / 8
    requires Popcount(Upper(v) % Pow2(pos)) == skipped <= index
    ensures found ==> next == Select(Upper(v), index)
    ensures !found ==> next == pos + 64 && next <= Select(Upper(v), index)
    ensures !found ==> Popcount(Upper(v) % Pow2(next)) == skipped2 <= index
  {
    var raw_word := LoadWord(v.data, byte_idx);
    var ones_in_word := Popcount(raw_word);
    WordStep(v, index, pos, skipped, raw_word);
    if skipped + ones_in_word > index {
      var needed := index - skipped;
      var bit_idx_in_word := SelectBitInU64(raw_word, needed);
      return true, pos + bit_idx_in_word, skipped;
    }
    return false, pos + 64, skipped + ones_in_word;
  }

  lemma {:induction false} AlignedStep(pos: nat)
    requires pos % 8 == 0
    ensures (pos + 64) % 8 == 0 && (pos + 64) / 8 == pos / 8 + 8
  {
    DivModOf(pos / 8 + 8, 8, 0);
  }

  /** `get(index)`: the sentinel past the end, otherwise the index-th value. */
  method Get(v: View, index: nat) returns (r: u16)
    requires Valid(v)
    ensures r == GetSpec(v, index)
  {
    if index >= v.n {
      return SENTINEL;
    }
    SelectInBuffer(v, index);
    var skip_idx := index / SKIP_INTERVAL;
    var start_bit_pos := GroupStart(v, index);
    var skipped_ones := skip_idx * SKIP_INTERVAL;
    var global_bit_pos := start_bit_pos;
    if global_bit_pos % 8 != 0 {
      var found;
      found, global_bit_pos, skipped_ones := FirstByte(v, index, global_bit_pos, skipped_ones);
      if found {
        r := DecodeVal(v, global_bit_pos, index);
        return;
      }
    }
    global_bit_pos := ScanWords(v, index, global_bit_pos, skipped_ones);
    r := DecodeVal(v, global_bit_pos, index);
  }

  /**
   * The partly used first byte `b >> bit_offset_in_byte`: its bits are V's
   * bits from pos to the end of the byte.
   */
  method PartialByte(v: View, pos: nat) returns (masked: u8)
    requires v.upper_offset == 3 && 3 + pos / 8 < |v.data| && pos % 8 != 0
    ensures masked == Field(Upper(v), pos, 8 - pos % 8)
  {
    var i := pos / 8;
    var bo := pos % 8;
    var bs := v.data[3..];
    var b: nat := v.data[3 + i];
    assert Field(Upper(v), pos, 8 - bo) == Field(b, bo, 8 - bo) by {
      FieldLe(bs, i, i + 1, bo, 8 - bo);
      assert bs[i..i + 1] == [v.data[3 + i]];
      assert LeValue([v.data[3 + i]]) == v.data[3 + i];
    }
    assert b < Pow2(8) by { Pow2Values(); }
    HighBound(b, 8, bo);
    assert Field(b, bo, 8 - bo) == Shr(b, bo) by {
      DivModOf(0, Pow2(8 - bo), Shr(b, bo));
    }
    assert Shr(b, bo) < TWO8 by { Pow2Mono(8 - bo, 8); Pow2Values(); }
    masked := Shr(b, bo);
  }

  // ---------------------------------------------------------------------
  // Predecessor search.

  /** The high part of the i-th value before truncation: the zeros before its one. */
  function High(v: View, i: nat): nat
    requires Valid(v) && i < v.n
  {
    SelectInBuffer(v, i);
    Select(Upper(v), i) - i
  }

  /** The i-th value before truncation to u16. */
  function Raw(v: View, i: nat): nat
    requires Valid(v) && i < v.n
  {
    Untruncated(High(v, i), Pow2(v.l), Low(v, i))
  }

  /** A high part and a low part combined, without truncation. */
  function Untruncated(h: nat, p: nat, low: nat): nat
  {
    h * p + low
  }

  /**
   * A view whose values are sorted and fit in u16, and whose skip entries
   * record, next to each bit position, the zeros before it, as the writer
   * lays them out.
   */
  ghost predicate Ordered(v: View)
  {
    && Valid(v)
    && (forall k: nat :: 0 < k < v.skip_count ==> SkipAt(v, k).0 == SkipAt(v, k).1 + SKIP_INTERVAL * k)
    && (forall i: nat :: i < v.n ==> Raw(v, i) < TWO16)
    && (forall i: nat, j: nat :: i < j < v.n ==> Raw(v, i) <= Raw(v, j))
  }

  /**
   * r is the last of the first `limit` entries whose value is at most t,
   * with that value; or (0, 0) when there is none.
   */
  ghost predicate LastAtMost(v: View, limit: nat, t: u16, r: (nat, u16))
    requires Valid(v)
  {
    || (&& r.0 < limit && r.1 == GetSpec(v, r.0) && r.1 <= t
        && forall j: nat :: r.0 < j < limit ==> GetSpec(v, j) > t)
    || (r == (0, 0) && forall j: nat :: j < limit ==> GetSpec(v, j) > t)
  }

  /** In an ordered view every value is its untruncated one. */
  lemma {:induction false} GetIsRaw(v: View, i: nat)
    requires Valid(v) && i < v.n && Raw(v, i) < TWO16
    ensures GetSpec(v, i) == Raw(v, i)
  {
    var h, p, low := High(v, i), Pow2(v.l), Low(v, i);
    assert GetSpec(v, i) == ((h % TWO16) * p + low) % TWO16;
    NoTruncation(h, p, low);
  }

  /** Truncating to u16 changes nothing in a combination that fits. */
  lemma {:induction false} NoTruncation(h: nat, p: nat, low: nat)
    requires p >= 1 && Untruncated(h, p, low) < TWO16
    ensures ((h % TWO16) * p + low) % TWO16 == Untruncated(h, p, low)
  {
    assert h <= h * p by { MulMono(h, 1, p); }
    assert h % TWO16 == h;
  }

  /** Past a value above t, an ordered view holds only values above t. */
  lemma {:induction false} AboveFrom(v: View, i: nat, t: u16)
    requires Ordered(v) && i < v.n && GetSpec(v, i) > t
    ensures forall j: nat :: i <= j < v.n ==> GetSpec(v, j) > t
  {
    GetIsRaw(v, i);
    forall j: nat | i < j < v.n
      ensures GetSpec(v, j) > t
    {
      GetIsRaw(v, j);
    }
  }

  /** A high part above `t >> l` makes the value above t. */
  lemma {:induction false} HighAbove(h: nat, l: nat, low: nat, t: nat)
    requires h > Shr(t, l)
    ensures h * Pow2(l) + low > t
  {
    var p := Pow2(l);
    assert t == Shr(t, l) * p + t % p;
    MulMono(p, Shr(t, l) + 1, h);
    MulComm(p, h);
    MulComm(p, Shr(t, l) + 1);
  }

  /** `scan_backwards(limit, t)`: get each entry below limit, last first, until one is at most t. */
  method ScanBackwards(v: View, limit: nat, target: u16) returns (r: (nat, u16))
    requires Valid(v)
    ensures LastAtMost(v, limit, target, r)
  {
    var idx := limit;
    while idx > 0
      invariant idx <= limit
      invariant forall j: nat :: idx <= j < limit ==> GetSpec(v, j) > target
    {
      idx := idx - 1;
      var val := Get(v, idx);
      if val <= target {
        return (idx, val);
      }
    }
    return (0, 0);
  }

  /**
   * The binary search of `predecessor` over the skip entries' high parts:
   * the partition point, with every entry before it at most th and the
   * entry at it above th.
   */
  method SkipSearch(v: View, th: nat) returns (lo: nat)
    requires WellFormed(v)
    ensures lo <= v.skip_count
    ensures lo > 0 ==> SkipAt(v, lo - 1).1 <= th
    ensures lo < v.skip_count ==> SkipAt(v, lo).1 > th
  {
    lo := 0;
    var hi := v.skip_count;
    while lo < hi
      invariant lo <= hi <= v.skip_count
      invariant lo > 0 ==> SkipAt(v, lo - 1).1 <= th
      invariant hi < v.skip_count ==> SkipAt(v, hi).1 > th
    {
      var mid := lo + (hi - lo) / 2;
      var entry := SkipAt(v, mid);
      if entry.1 <= th {
        lo := mid + 1;
      } else {
        hi := mid;
      }
    }
  }

  /** The position just past the bits held in the cache, for a refill counter `byte_idx`. */
  function CacheEnd(byte_idx: nat): int
  {
    8 * (byte_idx - 3)
  }

  /**
   * The word cache of the scan: the `bits` bits of V below CacheEnd(byte_idx),
   * the zeros already counted into the high part, and `idx` ones below them.
   */
  ghost predicate CacheOk(v: View, idx: nat, cache: nat, bits: nat, byte_idx: nat, curr_high: nat)
    requires v.upper_offset <= |v.data|
  {
    && byte_idx >= 3 && bits <= 64
    && bits <= CacheEnd(byte_idx)
    && cache == Field(Upper(v), CacheEnd(byte_idx) - bits, bits)
    && Popcount(Upper(v) % Pow2(CacheEnd(byte_idx) - bits)) == idx
    && curr_high + idx == CacheEnd(byte_idx) - bits
  }

  /** The cache set up at the start position: `load >> bit_offset`, `64 - bit_offset` bits. */
  method InitCache(v: View, start: nat) returns (cache: u64, bits: nat, byte_idx: nat)
    requires v.upper_offset == 3 && 3 <= |v.data|
    ensures byte_idx >= 3 && 0 < bits <= 64 && CacheEnd(byte_idx) - bits == start
    ensures cache == Field(Upper(v), start, bits)
  {
    byte_idx := v.upper_offset + start / 8;
    var bit_offset := start % 8;
    var w := LoadWord(v.data, byte_idx);
    assert w == Field(Upper(v), 8 * (start / 8), 64) by { WordOfUpper(v, byte_idx); }
    assert Shr(w, bit_offset) == Field(Upper(v), start, 64 - bit_offset) by {
      ShrField(Upper(v), 8 * (start / 8), 64, bit_offset);
      assert 8 * (start / 8) + bit_offset == start;
    }
    assert Shr(w, bit_offset) < TWO64 by {
      Pow2Values();
      HighBound(w, 64, bit_offset);
      Pow2Mono(64 - bit_offset, 64);
    }
    cache := Shr(w, bit_offset);
    bits := 64 - bit_offset;
    byte_idx := byte_idx + 8;
  }

  /**
   * Looking at the cache for the idx-th one: `trailing_zeros` below `bits`
   * places it, and otherwise the cache holds none of it.
   */
  lemma {:induction false} CacheLook(v: View, idx: nat, cache: nat, bits: nat, byte_idx: nat, curr_high: nat)
    requires v.upper_offset <= |v.data| && CacheOk(v, idx, cache, bits, byte_idx, curr_high)
    requires idx < Popcount(Upper(v)) && CacheEnd(byte_idx) - bits <= Select(Upper(v), idx)
    ensures TrailingZerosIn(cache, 64) < bits ==>
      cache > 0 && Select(Upper(v), idx) == CacheEnd(byte_idx) - bits + TrailingZeros(cache)
    ensures TrailingZerosIn(cache, 64) >= bits ==>
      Popcount(Upper(v) % Pow2(CacheEnd(byte_idx))) == idx && CacheEnd(byte_idx) <= Select(Upper(v), idx)
  {
    var pos := CacheEnd(byte_idx) - bits;
    WindowStep(Upper(v), pos, bits, idx, idx);
    if cache > 0 {
      TrailingZerosIsSelect(cache);
      SelectBounds(cache, 0, bits);
    } else {
      PopcountZero(0);
    }
  }

  /** A refill: the word at the counter, and the counter moves on. */
  method Refill(v: View, byte_idx: nat) returns (cache: u64, byte_idx': nat)
    requires v.upper_offset == 3 && 3 <= byte_idx && 3 <= |v.data|
    ensures byte_idx' == byte_idx + 8 && CacheEnd(byte_idx') - 64 == CacheEnd(byte_idx)
    ensures cache == Field(Upper(v), CacheEnd(byte_idx), 64)
  {
    cache := LoadWord(v.data, byte_idx);
    WordOfUpper(v, byte_idx);
    byte_idx' := byte_idx + 8;
  }

  /**
   * The cache holds none of the idx-th one: count its bits into the high
   * part and load the next word.
   */
  method RefillStep(v: View, idx: nat, bits: nat, byte_idx: nat, curr_high: nat)
    returns (cache': u64, bits': nat, byte_idx': nat, curr_high': nat)
    requires WellFormed(v) && idx < v.n <= Popcount(Upper(v))
    requires byte_idx >= 3 && bits <= CacheEnd(byte_idx) && curr_high + idx + bits == CacheEnd(byte_idx)
    requires Popcount(Upper(v) % Pow2(CacheEnd(byte_idx))) == idx && CacheEnd(byte_idx) <= Select(Upper(v), idx)
    ensures CacheOk(v, idx, cache', bits', byte_idx', curr_high')
    ensures bits' == 64 && CacheEnd(byte_idx') == CacheEnd(byte_idx) + 64
  {
    curr_high' := curr_high + bits;
    if byte_idx < |v.data| + 8 {
      cache', byte_idx' := Refill(v, byte_idx);
      bits' := 64;
    } else {
      // The idx-th one lies inside the buffer, so the refill never runs out.
      SelectInBuffer(v, idx);
      assert false;
    }
  }

  /**
   * The inner `loop` of `predecessor` up to the idx-th one: while the cache
   * has no one left, count its bits into the high part and refill it.
   */
  method SeekOne(v: View, idx: nat, cache0: u64, bits0: nat, byte_idx0: nat, curr_high0: nat)
    returns (cache: u64, bits: nat, byte_idx: nat, curr_high: nat, zeros: nat)
    requires WellFormed(v) && idx < v.n <= Popcount(Upper(v))
    requires CacheOk(v, idx, cache0, bits0, byte_idx0, curr_high0)
    requires CacheEnd(byte_idx0) - bits0 <= Select(Upper(v), idx)
    ensures CacheOk(v, idx, cache, bits, byte_idx, curr_high)
    ensures zeros < bits && Select(Upper(v), idx) == CacheEnd(byte_idx) - bits + zeros
    ensures cache > 0 && zeros == TrailingZeros(cache)
  {
    ghost var target := Select(Upper(v), idx);
    SelectInBuffer(v, idx);
    cache, bits, byte_idx, curr_high := cache0, bits0, byte_idx0, curr_high0;
    CacheLook(v, idx, cache, bits, byte_idx, curr_high);
    zeros := TrailingZerosIn(cache, 64);
    while zeros >= bits
      invariant CacheOk(v, idx, cache, bits, byte_idx, curr_high)
      invariant CacheEnd(byte_idx) <= target + 64
      invariant zeros == TrailingZerosIn(cache, 64)
      invariant zeros < bits ==> cache > 0 && target == CacheEnd(byte_idx) - bits + TrailingZeros(cache)
      invariant zeros >= bits ==>
        Popcount(Upper(v) % Pow2(CacheEnd(byte_idx))) == idx && CacheEnd(byte_idx) <= target
      decreases target + 64 - CacheEnd(byte_idx)
    {
      cache, bits, byte_idx, curr_high := RefillStep(v, idx, bits, byte_idx, curr_high);
      CacheLook(v, idx, cache, bits, byte_idx, curr_high);
      zeros := TrailingZerosIn(cache, 64);
    }
  }

  /**
   * Taking the one just found out of the cache: `zeros + 1` bits, or the
   * whole word when that is 64 of them.
   */
  method Consume(v: View, idx: nat, cache: u64, bits: nat, byte_idx: nat, ghost curr_high: nat, zeros: nat)
    returns (cache': u64, bits': nat)
    requires v.upper_offset <= |v.data| && idx < Popcount(Upper(v))
    requires CacheOk(v, idx, cache, bits, byte_idx, curr_high)
    requires zeros < bits && Select(Upper(v), idx) == CacheEnd(byte_idx) - bits + zeros
    ensures CacheOk(v, idx + 1, cache', bits', byte_idx, curr_high + zeros)
    ensures CacheEnd(byte_idx) - bits' == Select(Upper(v), idx) + 1
    ensures idx + 1 < Popcount(Upper(v)) ==> CacheEnd(byte_idx) - bits' <= Select(Upper(v), idx + 1)
  {
    ghost var x := Upper(v);
    ghost var sel := Select(x, idx);
    ghost var pos: nat := CacheEnd(byte_idx) - bits;
    if idx + 1 < Popcount(x) {
      SelectIncreasing(x, idx, idx + 1);
    }
    PopcountBelowSelect(x, idx);
    var consumed := zeros + 1;
    if consumed >= 64 {
      cache', bits' := 0, 0;
      assert CacheEnd(byte_idx) == sel + 1;
      assert Field(x, sel + 1, 0) == 0;
    } else {
      ShrLe(cache, consumed);
      cache' := Shr(cache, consumed);
      bits' := bits - consumed;
      assert pos + consumed == sel + 1;
      ShrField(x, pos, bits, consumed);
    }
  }

  /** A right shift never grows a number. */
  lemma {:induction false} ShrLe(x: nat, k: nat)
    ensures Shr(x, k) <= x
  {
    var d := Pow2(k);
    var q, r := x / d, x % d;
    DivNonNeg(x, d);
    assert x == d * q + r;
    MulMono(q, 1, d);
    MulComm(q, d);
  }

  /** Every group of n entries starts at an entry below n. */
  lemma {:induction false} GroupBelow(n: nat, k: nat)
    requires k < DivCeil(n, SKIP_INTERVAL)
    ensures SKIP_INTERVAL * k < n
  {
    var q := DivCeil(n, SKIP_INTERVAL);
    assert n + 63 == q * 64 + (n + 63) % 64;
    MulMono(64, k + 1, q);
    MulComm(64, q);
  }

  /** What the skip entry of group k gives the scan: its rank, position and high part agree with V. */
  lemma {:induction false} GroupStartOk(v: View, k: nat, p: nat, h: nat)
    requires Valid(v) && k < v.skip_count
    requires k > 0 ==> SkipAt(v, k).0 == SkipAt(v, k).1 + SKIP_INTERVAL * k
    requires p == (if k > 0 then SkipAt(v, k).0 else 0)
    requires h == (if k > 0 then SkipAt(v, k).1 as nat else 0)
    ensures SKIP_INTERVAL * k < v.n
    ensures Popcount(Upper(v) % Pow2(p)) == SKIP_INTERVAL * k && h + SKIP_INTERVAL * k == p
    ensures p <= Select(Upper(v), SKIP_INTERVAL * k)
  {
    GroupBelow(v.n, k);
    if k == 0 {
      assert Upper(v) % Pow2(0) == 0;
      PopcountZero(0);
    }
    SelectAtLeast(Upper(v), SKIP_INTERVAL * k, p);
  }

  /** The value the scan decodes from the high part it counted is the entry's value. */
  lemma {:induction false} ScanValue(v: View, idx: nat, h: nat, lower: nat)
    requires Valid(v) && idx < v.n && Raw(v, idx) < TWO16 && h == High(v, idx) && lower == Low(v, idx)
    ensures BitOr(lower, Shl(h, v.l)) % TWO16 == GetSpec(v, idx)
  {
    var raw := Raw(v, idx);
    assert BitOr(lower, Shl(h, v.l)) == raw by { Combine(lower, h, v.l); }
    ModSmall(raw, TWO16);
    assert GetSpec(v, idx) == raw by { GetIsRaw(v, idx); }
  }

  /**
   * Leaving the scan at an entry above the target: `scan_backwards` when it
   * is the first entry scanned, the best one so far otherwise.
   */
  method LeaveScan(v: View, target: u16, start: nat, idx: nat, best_idx: nat, best_val: u16) returns (r: (nat, u16))
    requires Ordered(v) && start <= idx < v.n && GetSpec(v, idx) > target
    requires idx > start ==> best_idx == idx - 1 && best_val == GetSpec(v, idx - 1) <= target
    ensures LastAtMost(v, v.n, target, r)
  {
    AboveFrom(v, idx, target);
    if idx == start {
      r := ScanBackwards(v, idx, target);
    } else {
      r := (best_idx, best_val);
    }
  }

  /**
   * One pass of the scan's outer loop at entry idx: find its one, and either
   * leave the scan (its value is above the target) or take it as the best so
   * far and consume its one.
   */
  method ScanStep(v: View, target: u16, start: nat, idx: nat, cache: u64, bits: nat, byte_idx: nat,
                  curr_high: nat, best_idx: nat, best_val: u16)
    returns (stop: bool, r: (nat, u16), cache': u64, bits': nat, byte_idx': nat, curr_high': nat)
    requires Ordered(v) && start <= idx < v.n
    requires CacheOk(v, idx, cache, bits, byte_idx, curr_high)
    requires CacheEnd(byte_idx) - bits <= Select(Upper(v), idx)
    requires idx > start ==> best_idx == idx - 1 && best_val == GetSpec(v, idx - 1) <= target
    ensures stop ==> LastAtMost(v, v.n, target, r)
    ensures !stop ==> r == (idx, GetSpec(v, idx)) && r.1 <= target
    ensures !stop ==> CacheOk(v, idx + 1, cache', bits', byte_idx', curr_high')
    ensures !stop && idx + 1 < v.n ==> CacheEnd(byte_idx') - bits' <= Select(Upper(v), idx + 1)
  {
    var l := v.l;
    var target_h := Shr(target, l);
    var zeros;
    cache', bits', byte_idx', curr_high', zeros := SeekOne(v, idx, cache, bits, byte_idx, curr_high);
    ghost var high0 := curr_high';
    curr_high' := curr_high' + zeros;
    assert curr_high' == High(v, idx);
    if curr_high' > target_h {
      assert GetSpec(v, idx) > target by {
        HighAbove(curr_high', l, Low(v, idx), target);
        GetIsRaw(v, idx);
      }
      stop := true;
      r := LeaveScan(v, target, start, idx, best_idx, best_val);
      return;
    }
    var lower_val := ReadLow(v, idx);
    ScanValue(v, idx, curr_high', lower_val);
    var val := BitOr(lower_val, Shl(curr_high', l)) % TWO16;  // from_u64((curr_high << l) | lower)
    if val > target {
      stop := true;
      r := LeaveScan(v, target, start, idx, best_idx, best_val);
      return;
    }
    stop, r := false, (idx, val);
    cache', bits' := Consume(v, idx, cache', bits', byte_idx', high0, zeros);
  }

  /**
   * The scan of `predecessor` from the start of group skip_idx: decode the
   * entries in turn until one is above the target, or to the end.
   */
  method ScanForward(v: View, target: u16, skip_idx: nat, start_bit_pos: nat, start_high: nat)
    returns (r: (nat, u16))
    requires Ordered(v) && skip_idx < v.skip_count
    requires start_bit_pos == (if skip_idx > 0 then SkipAt(v, skip_idx).0 else 0)
    requires start_high == (if skip_idx > 0 then SkipAt(v, skip_idx).1 as nat else 0)
    ensures LastAtMost(v, v.n, target, r)
  {
    var start: nat := skip_idx * SKIP_INTERVAL;
    GroupStartOk(v, skip_idx, start_bit_pos, start_high);
    var cache, bits, byte_idx := InitCache(v, start_bit_pos);
    CacheAtStart(v, start, start_bit_pos, start_high, cache, bits, byte_idx);
    r := ScanLoop(v, target, start, cache, bits, byte_idx, start_high);
  }

  /** A cache loaded at the bit where entry `start` begins is a valid cache for that entry. */
  lemma {:induction false} CacheAtStart(v: View, start: nat, p: nat, h: nat, cache: nat, bits: nat, byte_idx: nat)
    requires v.upper_offset == 3 && 3 <= |v.data|
    requires byte_idx >= 3 && 0 < bits <= 64 && CacheEnd(byte_idx) - bits == p && cache == Field(Upper(v), p, bits)
    requires start < Popcount(Upper(v))
    requires Popcount(Upper(v) % Pow2(p)) == start && h + start == p && p <= Select(Upper(v), start)
    ensures CacheOk(v, start, cache, bits, byte_idx, h) && CacheEnd(byte_idx) - bits <= Select(Upper(v), start)
  {
  }

  /** The outer `while idx < n` loop of the scan, from the group's first entry `start`. */
  method ScanLoop(v: View, target: u16, start: nat, cache0: u64, bits0: nat, byte_idx0: nat, curr_high0: nat)
    returns (r: (nat, u16))
    requires Ordered(v) && start < v.n
    requires CacheOk(v, start, cache0, bits0, byte_idx0, curr_high0)
    requires CacheEnd(byte_idx0) - bits0 <= Select(Upper(v), start)
    ensures LastAtMost(v, v.n, target, r)
  {
    var idx: nat := start;
    var cache, bits, byte_idx, curr_high := cache0, bits0, byte_idx0, curr_high0;
    var best_idx: nat := idx;
    var best_val: u16 := 0;
    while idx < v.n
      invariant start <= idx <= v.n
      invariant CacheOk(v, idx, cache, bits, byte_idx, curr_high)
      invariant idx < v.n ==> CacheEnd(byte_idx) - bits <= Select(Upper(v), idx)
      invariant idx > start ==> best_idx == idx - 1 && best_val == GetSpec(v, idx - 1) <= target
      decreases v.n - idx
    {
      var stop, step;
      stop, step, cache, bits, byte_idx, curr_high :=
        ScanStep(v, target, start, idx, cache, bits, byte_idx, curr_high, best_idx, best_val);
      if stop {
        return step;
      }
      best_idx, best_val := step.0, step.1;
      idx := idx + 1;
    }
    r := (best_idx, best_val);
  }

  /**
   * `predecessor(target)`: the last entry at most target and its value, or
   * (0, 0) when every entry is above it.
   */
  method Predecessor(v: View, target: u16) returns (r: (nat, u16))
    requires Ordered(v)
    ensures LastAtMost(v, v.n, target, r)
  {
    if v.n == 0 {
      return (0, 0);
    }
    var l := v.l;
    var target_h := Shr(target, l);
    var lo := SkipSearch(v, target_h);
    var skip_idx := if lo > 0 then lo - 1 else 0;  // lo.saturating_sub(1)
    assert skip_idx < v.skip_count by { GroupInTable(v, 0); }
    var start_bit_pos: nat, start_high: nat := 0, 0;
    if skip_idx > 0 {
      var entry := SkipAt(v, skip_idx);
      start_bit_pos, start_high := entry.0, entry.1;
    }
    var curr_high := start_high;
    if curr_high > target_h {
      // The binary search leaves skip_idx at an entry whose high part is at
      // most target_h, so the `scan_backwards` fallback here never runs.
      assert false;
    }
    r := ScanForward(v, target, skip_idx, start_bit_pos, start_high);
  }

  /**
   * In an ordered view, the predecessor of a stored value is that entry
   * when the next entry is larger (or there is none).
   */
  lemma {:induction false} PredecessorOfStored(v: View, i: nat, r: (nat, u16))
    requires Ordered(v) && i < v.n
    requires i + 1 < v.n ==> GetSpec(v, i) < GetSpec(v, i + 1)
    requires LastAtMost(v, v.n, GetSpec(v, i), r)
    ensures r == (i, GetSpec(v, i))
  {
    if r.0 < v.n && i + 1 < v.n {
      GetIsRaw(v, i + 1);
      GetIsRaw(v, r.0);
    }
  }
}
