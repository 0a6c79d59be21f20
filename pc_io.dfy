// Serialisation of a compressed array (`PcBase`): `dump` appends the fields to
// a byte buffer, `load` reads them back with a moving cursor and fails on
// input that ends early.

module PcIo {
  import opened Common

  /** Per-block metadata, 26 bytes on disk. */
  datatype BlockMeta = BlockMeta(
    bit_offset: u32,
    bit_width: u8,
    flags: u8,
    exception_offset: u32,
    slope_fp: u64,
    intercept_fp: i64)

  datatype Pc = Pc(
    block_meta: seq<BlockMeta>,
    residuals: seq<u64>,
    exceptions: seq<u64>,
    bitmap: seq<u64>,
    len: u64)

  /** The `InvalidData` messages of `load`, with the numbers they carry. */
  datatype LoadError =
    | ShortHeader
    | UnexpectedEof(pos: nat, needed: nat)
    | EofVecLen(pos: nat)
    | EofVecBody(pos: nat, needed: nat)

  const META_SIZE: nat := 26

  // ---------------------------------------------------------------------
  // The byte layout written by `dump`.

  function MetaBytes(b: BlockMeta): (r: seq<u8>)
    ensures |r| == META_SIZE
  {
    LeBytes(b.bit_offset, 4) + [b.bit_width, b.flags] + LeBytes(b.exception_offset, 4)
      + LeBytes(b.slope_fp, 8) + LeBytes(AsU64(b.intercept_fp), 8)
  }

  function MetasBytes(ms: seq<BlockMeta>): (r: seq<u8>)
    ensures |r| == META_SIZE * |ms|
  {
    if ms == [] then [] else MetasBytes(ms[..|ms| - 1]) + MetaBytes(ms[|ms| - 1])
  }

  /** The raw little-endian image of a u64 slice. */
  function WordsBytes(ws: seq<u64>): (r: seq<u8>)
    ensures |r| == 8 * |ws|
  {
    if ws == [] then [] else LeBytes(ws[0], 8) + WordsBytes(ws[1..])
  }

  /** A vector's `len() as u32` prefix: a count of 2^32 or more wraps. */
  function CountBytes(n: nat): (r: seq<u8>)
    ensures |r| == 4
  {
    LeBytes(n % TWO32, 4)
  }

  function MetaSection(ms: seq<BlockMeta>): (r: seq<u8>)
    ensures |r| == 4 + META_SIZE * |ms|
  {
    CountBytes(|ms|) + MetasBytes(ms)
  }

  function WordsSection(ws: seq<u64>): (r: seq<u8>)
    ensures |r| == 4 + 8 * |ws|
  {
    CountBytes(|ws|) + WordsBytes(ws)
  }

  function DumpBytes(pc: Pc): (r: seq<u8>)
    ensures |r| == 8 + |MetaSection(pc.block_meta)| + |WordsSection(pc.residuals)|
                    + |WordsSection(pc.exceptions)| + |WordsSection(pc.bitmap)|
  {
    LeBytes(pc.len, 8) + MetaSection(pc.block_meta) + WordsSection(pc.residuals)
      + WordsSection(pc.exceptions) + WordsSection(pc.bitmap)
  }

  /** Every vector is short enough for its u32 count to be exact. */
  predicate Dumpable(pc: Pc)
  {
    |pc.block_meta| < TWO32 && |pc.residuals| < TWO32
      && |pc.exceptions| < TWO32 && |pc.bitmap| < TWO32
  }

  /** `piece` occurs in `bytes` starting at `pos`. */
  predicate At(bytes: seq<u8>, pos: nat, piece: seq<u8>)
  {
    pos + |piece| <= |bytes| && bytes[pos..pos + |piece|] == piece
  }

  // ---------------------------------------------------------------------
  // Decoding pieces.

  /** `u64::from_le_bytes` over consecutive 8-byte chunks (the bulk copy of the LE fast path). */
  function WordsOf(bs: seq<u8>): (r: seq<u64>)
    requires |bs| % 8 == 0
    ensures |r| == |bs| / 8
    ensures WordsBytes(r) == bs
  {
    if bs == [] then []
    else
      LeBound8(bs[..8]);
      LeBytesOfLeValue(bs[..8]);
      var w: u64 := LeValue(bs[..8]);
      var rest := WordsOf(bs[8..]);
      assert bs == bs[..8] + bs[8..];
      assert ([w] + rest)[1..] == rest;
      [w] + rest
  }

  lemma {:induction false} WordsBytesInjective(a: seq<u64>, b: seq<u64>)
    requires WordsBytes(a) == WordsBytes(b)
    ensures a == b
  {
    if a != [] {
      var wa, wb := WordsBytes(a), WordsBytes(b);
      assert wa[..8] == LeBytes(a[0], 8);
      assert wb[..8] == LeBytes(b[0], 8);
      assert a[0] == b[0] by {
        LeRoundTrip8(a[0]);
        LeRoundTrip8(b[0]);
      }
      assert wa[8..] == WordsBytes(a[1..]);
      assert wb[8..] == WordsBytes(b[1..]);
      WordsBytesInjective(a[1..], b[1..]);
      assert a == [a[0]] + a[1..];
      assert b == [b[0]] + b[1..];
    }
  }

  /** Each field of a block's 26 bytes reads back as that field. */
  lemma {:induction false} MetaFields(b: BlockMeta)
    ensures LeValue(MetaBytes(b)[0..4]) == b.bit_offset
    ensures MetaBytes(b)[4] == b.bit_width && MetaBytes(b)[5] == b.flags
    ensures LeValue(MetaBytes(b)[6..10]) == b.exception_offset
    ensures LeValue(MetaBytes(b)[10..18]) == b.slope_fp
    ensures LeValue(MetaBytes(b)[18..26]) == AsU64(b.intercept_fp)
  {
    var m := MetaBytes(b);
    assert m[0..4] == LeBytes(b.bit_offset, 4);
    assert m[6..10] == LeBytes(b.exception_offset, 4);
    assert m[10..18] == LeBytes(b.slope_fp, 8);
    assert m[18..26] == LeBytes(AsU64(b.intercept_fp), 8);
    LeRoundTrip4(b.bit_offset);
    LeRoundTrip4(b.exception_offset);
    LeRoundTrip8(b.slope_fp);
    LeRoundTrip8(AsU64(b.intercept_fp));
  }

  lemma {:induction false} MetasBytesInjective(a: seq<BlockMeta>, b: seq<BlockMeta>)
    requires MetasBytes(a) == MetasBytes(b)
    ensures a == b
  {
    if a != [] {
      var n := |a|;
      var ma, mb := MetasBytes(a), MetasBytes(b);
      var k := META_SIZE * (n - 1);
      assert ma[k..] == MetaBytes(a[n - 1]);
      assert mb[k..] == MetaBytes(b[n - 1]);
      assert a[n - 1] == b[n - 1] by {
        MetaFields(a[n - 1]);
        MetaFields(b[n - 1]);
      }
      assert ma[..k] == MetasBytes(a[..n - 1]);
      assert mb[..k] == MetasBytes(b[..n - 1]);
      MetasBytesInjective(a[..n - 1], b[..n - 1]);
      assert a == a[..n - 1] + [a[n - 1]];
      assert b == b[..n - 1] + [b[n - 1]];
    }
  }

  /** The block a reader assembles from the six fields' bytes is written back as those bytes. */
  lemma {:induction false} MetaOfPieces(a: seq<u8>, w: u8, f: u8, c: seq<u8>, d: seq<u8>, e: seq<u8>)
    requires |a| == 4 && |c| == 4 && |d| == 8 && |e| == 8
    ensures LeValue(a) < TWO32 && LeValue(c) < TWO32 && LeValue(d) < TWO64 && LeValue(e) < TWO64
    ensures MetaBytes(BlockMeta(LeValue(a), w, f, LeValue(c), LeValue(d), AsI64(LeValue(e))))
              == a + [w, f] + c + d + e
  {
    LeBound4(a);
    LeBound4(c);
    LeBound8(d);
    LeBound8(e);
    LeBytesOfLeValue(a);
    LeBytesOfLeValue(c);
    LeBytesOfLeValue(d);
    LeBytesOfLeValue(e);
  }

  lemma {:induction false} MetaChunk(bytes: seq<u8>, p: nat)
    requires p + META_SIZE <= |bytes|
    ensures bytes[p..p + META_SIZE] == bytes[p..p + 4] + [bytes[p + 4], bytes[p + 5]]
              + bytes[p + 6..p + 10] + bytes[p + 10..p + 18] + bytes[p + 18..p + 26]
  {
  }

  /** `piece1 + piece2` at `pos` is `piece1` at `pos` followed by `piece2`. */
  lemma {:induction false} AtSplit(bytes: seq<u8>, pos: nat, piece1: seq<u8>, piece2: seq<u8>)
    requires At(bytes, pos, piece1 + piece2)
    ensures At(bytes, pos, piece1) && At(bytes, pos + |piece1|, piece2)
  {
    var whole := bytes[pos..pos + |piece1| + |piece2|];
    assert bytes[pos..pos + |piece1|] == whole[..|piece1|];
    assert bytes[pos + |piece1|..pos + |piece1| + |piece2|] == whole[|piece1|..];
  }

  lemma {:induction false} MetaSectionUnique(bytes: seq<u8>, pos: nat, ms: seq<BlockMeta>, ns: seq<BlockMeta>)
    requires |ms| < TWO32 && |ns| < TWO32
    requires At(bytes, pos, MetaSection(ms)) && At(bytes, pos, MetaSection(ns))
    ensures ms == ns
  {
    AtSplit(bytes, pos, CountBytes(|ms|), MetasBytes(ms));
    AtSplit(bytes, pos, CountBytes(|ns|), MetasBytes(ns));
    CountAt(bytes, pos, |ms|);
    CountAt(bytes, pos, |ns|);
    MetasBytesInjective(ms, ns);
  }

  lemma {:induction false} WordsSectionUnique(bytes: seq<u8>, pos: nat, ms: seq<u64>, ns: seq<u64>)
    requires |ms| < TWO32 && |ns| < TWO32
    requires At(bytes, pos, WordsSection(ms)) && At(bytes, pos, WordsSection(ns))
    ensures ms == ns
  {
    AtSplit(bytes, pos, CountBytes(|ms|), WordsBytes(ms));
    AtSplit(bytes, pos, CountBytes(|ns|), WordsBytes(ns));
    CountAt(bytes, pos, |ms|);
    CountAt(bytes, pos, |ns|);
    WordsBytesInjective(ms, ns);
  }

  lemma {:induction false} MetasBytesSnoc(ms: seq<BlockMeta>, b: BlockMeta)
    ensures MetasBytes(ms + [b]) == MetasBytes(ms) + MetaBytes(b)
  {
    assert (ms + [b])[..|ms|] == ms;
  }

  /** A u32 count prefix found at `pos` is the length it was written for. */
  lemma {:induction false} CountAt(bytes: seq<u8>, pos: nat, n: nat)
    requires n < TWO32 && At(bytes, pos, CountBytes(n))
    ensures LeValue(bytes[pos..pos + 4]) == n
  {
    ModSmall(n, TWO32);
    LeRoundTrip4(n);
  }

  /** The pieces of a dump found at the head of `bytes`, with their positions. */
  lemma {:induction false} DumpAt(pc: Pc, bytes: seq<u8>) returns (p1: nat, p2: nat, p3: nat)
    requires DumpBytes(pc) <= bytes
    ensures At(bytes, 0, LeBytes(pc.len, 8))
    ensures p1 == 8 + |MetaSection(pc.block_meta)| && At(bytes, 8, MetaSection(pc.block_meta))
    ensures p2 == p1 + |WordsSection(pc.residuals)| && At(bytes, p1, WordsSection(pc.residuals))
    ensures p3 == p2 + |WordsSection(pc.exceptions)| && At(bytes, p2, WordsSection(pc.exceptions))
    ensures At(bytes, p3, WordsSection(pc.bitmap))
  {
    var h := LeBytes(pc.len, 8);
    var m := MetaSection(pc.block_meta);
    var w1 := WordsSection(pc.residuals);
    var w2 := WordsSection(pc.exceptions);
    var w3 := WordsSection(pc.bitmap);
    p1 := 8 + |m|;
    p2 := p1 + |w1|;
    p3 := p2 + |w2|;
    assert At(bytes, 0, DumpBytes(pc));
    AtSplit(bytes, 0, h + m + w1 + w2, w3);
    AtSplit(bytes, 0, h + m + w1, w2);
    AtSplit(bytes, 0, h + m, w1);
    AtSplit(bytes, 0, h, m);
  }

  /** A dump at the head of `bytes` has the block metadata a reader found after the length. */
  lemma {:induction false} MetasOfDump(pc: Pc, bytes: seq<u8>, bm: seq<BlockMeta>, p1: nat)
    requires Dumpable(pc) && DumpBytes(pc) <= bytes
    requires |bm| < TWO32 && 8 <= p1 <= |bytes| && bytes[8..p1] == MetaSection(bm)
    ensures pc.block_meta == bm && p1 == 8 + |MetaSection(pc.block_meta)|
    ensures At(bytes, p1, WordsSection(pc.residuals))
  {
    var q1, q2, q3 := DumpAt(pc, bytes);
    MetaSectionUnique(bytes, 8, pc.block_meta, bm);
  }

  /** ... and the residuals a reader found after the metadata. */
  lemma {:induction false} ResidualsOfDump(pc: Pc, bytes: seq<u8>, res: seq<u64>, p1: nat, p2: nat)
    requires Dumpable(pc) && DumpBytes(pc) <= bytes && p1 == 8 + |MetaSection(pc.block_meta)|
    requires |res| < TWO32 && p1 <= p2 <= |bytes| && bytes[p1..p2] == WordsSection(res)
    ensures pc.residuals == res && p2 == p1 + |WordsSection(pc.residuals)|
    ensures At(bytes, p2, WordsSection(pc.exceptions))
  {
    var q1, q2, q3 := DumpAt(pc, bytes);
    WordsSectionUnique(bytes, p1, pc.residuals, res);
  }

  /** ... and the exceptions after the residuals. */
  lemma {:induction false} ExceptionsOfDump(pc: Pc, bytes: seq<u8>, exc: seq<u64>, p2: nat, p3: nat)
    requires Dumpable(pc) && DumpBytes(pc) <= bytes
    requires p2 == 8 + |MetaSection(pc.block_meta)| + |WordsSection(pc.residuals)|
    requires |exc| < TWO32 && p2 <= p3 <= |bytes| && bytes[p2..p3] == WordsSection(exc)
    ensures pc.exceptions == exc && p3 == p2 + |WordsSection(pc.exceptions)|
    ensures At(bytes, p3, WordsSection(pc.bitmap))
  {
    var q1, q2, q3 := DumpAt(pc, bytes);
    WordsSectionUnique(bytes, p2, pc.exceptions, exc);
  }

  /** ... and the bitmap last. */
  lemma {:induction false} BitmapOfDump(pc: Pc, bytes: seq<u8>, bmp: seq<u64>, p3: nat, p4: nat)
    requires Dumpable(pc) && DumpBytes(pc) <= bytes
    requires p3 == 8 + |MetaSection(pc.block_meta)| + |WordsSection(pc.residuals)|
                     + |WordsSection(pc.exceptions)|
    requires |bmp| < TWO32 && p3 <= p4 <= |bytes| && bytes[p3..p4] == WordsSection(bmp)
    ensures pc.bitmap == bmp
  {
    var q1, q2, q3 := DumpAt(pc, bytes);
    WordsSectionUnique(bytes, p3, pc.bitmap, bmp);
  }

  /** Sections read one after another from position 8 make up a dump. */
  lemma {:induction false} DumpOfSections(bytes: seq<u8>, pc: Pc, p1: nat, p2: nat, p3: nat, p4: nat)
    requires 8 <= p1 <= p2 <= p3 <= p4 <= |bytes|
    requires bytes[..8] == LeBytes(pc.len, 8)
    requires bytes[8..p1] == MetaSection(pc.block_meta)
    requires bytes[p1..p2] == WordsSection(pc.residuals)
    requires bytes[p2..p3] == WordsSection(pc.exceptions)
    requires bytes[p3..p4] == WordsSection(pc.bitmap)
    ensures DumpBytes(pc) == bytes[..p4]
  {
    assert bytes[..p1] == bytes[..8] + bytes[8..p1];
    assert bytes[..p2] == bytes[..p1] + bytes[p1..p2];
    assert bytes[..p3] == bytes[..p2] + bytes[p2..p3];
    assert bytes[..p4] == bytes[..p3] + bytes[p3..p4];
  }

  /** ... and no other dump is found there. */
  lemma {:induction false} OnlyDump(bytes: seq<u8>, pc: Pc, other: Pc, p1: nat, p2: nat, p3: nat, p4: nat)
    requires Dumpable(pc) && 8 <= p1 <= p2 <= p3 <= p4 <= |bytes|
    requires bytes[..8] == LeBytes(pc.len, 8)
    requires bytes[8..p1] == MetaSection(pc.block_meta)
    requires bytes[p1..p2] == WordsSection(pc.residuals)
    requires bytes[p2..p3] == WordsSection(pc.exceptions)
    requires bytes[p3..p4] == WordsSection(pc.bitmap)
    requires Dumpable(other) && DumpBytes(other) <= bytes
    ensures other == pc
  {
    MetasOfDump(other, bytes, pc.block_meta, p1);
    ResidualsOfDump(other, bytes, pc.residuals, p1, p2);
    ExceptionsOfDump(other, bytes, pc.exceptions, p2, p3);
    BitmapOfDump(other, bytes, pc.bitmap, p3, p4);
    var q1, q2, q3 := DumpAt(other, bytes);
    LeRoundTrip8(other.len);
    LeRoundTrip8(pc.len);
  }

  /** The number of bytes `dump` produces. */
  lemma {:induction false} DumpLength(pc: Pc)
    ensures |DumpBytes(pc)| == 24 + META_SIZE * |pc.block_meta|
              + 8 * (|pc.residuals| + |pc.exceptions| + |pc.bitmap|)
  {
  }

  // ---------------------------------------------------------------------
  // dump

  /** Serialises `pc`: len, then each vector behind its u32 count. */
  method Dump(pc: Pc) returns (out: seq<u8>)
    ensures out == DumpBytes(pc)
  {
    out := LeBytes(pc.len, 8);
    out := AppendMetas(out, pc.block_meta);
    out := AppendWords(out, pc.residuals);
    out := AppendWords(out, pc.exceptions);
    out := AppendWords(out, pc.bitmap);
  }

  /** `serialize_vec!` over the block metadata: the count, then each record field by field. */
  method AppendMetas(out0: seq<u8>, ms: seq<BlockMeta>) returns (out: seq<u8>)
    ensures out == out0 + MetaSection(ms)
  {
    out := out0 + CountBytes(|ms|);
    var i := 0;
    while i < |ms|
      invariant 0 <= i <= |ms|
      invariant out == out0 + CountBytes(|ms|) + MetasBytes(ms[..i])
    {
      var b := ms[i];
      ghost var before := out;
      out := out + LeBytes(b.bit_offset, 4);
      out := out + [b.bit_width];
      out := out + [b.flags];
      out := out + LeBytes(b.exception_offset, 4);
      out := out + LeBytes(b.slope_fp, 8);
      out := out + LeBytes(AsU64(b.intercept_fp), 8);
      AppendMeta(before, b);
      MetasSnoc(ms, i);
      i := i + 1;
    }
    assert ms[..i] == ms;
  }

  /** One more record extends the metadata image by that record. */
  lemma {:induction false} MetasSnoc(ms: seq<BlockMeta>, i: nat)
    requires i < |ms|
    ensures MetasBytes(ms[..i + 1]) == MetasBytes(ms[..i]) + MetaBytes(ms[i])
  {
    assert ms[..i + 1][..i] == ms[..i];
  }

  /** Appending the fields of one block's metadata one by one appends its record. */
  lemma {:induction false} AppendMeta(s: seq<u8>, b: BlockMeta)
    ensures s + LeBytes(b.bit_offset, 4) + [b.bit_width] + [b.flags] + LeBytes(b.exception_offset, 4)
            + LeBytes(b.slope_fp, 8) + LeBytes(AsU64(b.intercept_fp), 8)
            == s + MetaBytes(b)
  {
    assert [b.bit_width] + [b.flags] == [b.bit_width, b.flags];
  }

  /** The u64 fast path: the count, then the slice's raw bytes. */
  method AppendWords(out0: seq<u8>, ws: seq<u64>) returns (out: seq<u8>)
    ensures out == out0 + WordsSection(ws)
  {
    out := out0 + CountBytes(|ws|);
    out := out + WordsBytes(ws);
  }

  // ---------------------------------------------------------------------
  // load

  /** Reads one block's metadata field by field, each read bounds-checked. */
  method ReadMeta(bytes: seq<u8>, pos0: nat) returns (r: Result<BlockMeta, LoadError>, pos: nat)
    requires pos0 <= |bytes|
    ensures r.Ok? ==> pos == pos0 + META_SIZE <= |bytes| && MetaBytes(r.value) == bytes[pos0..pos]
    ensures r.Err? ==> pos0 + META_SIZE > |bytes|
  {
    pos := pos0;
    if pos + 4 > |bytes| {
      return Err(UnexpectedEof(pos, 4)), pos;
    }
    var a := bytes[pos..pos + 4];
    LeBound4(a);
    var bit_offset: u32 := LeValue(a);
    pos := pos + 4;
    if pos + 2 > |bytes| {
      return Err(UnexpectedEof(pos, 2)), pos;
    }
    var bit_width := bytes[pos];
    var flags := bytes[pos + 1];
    pos := pos + 2;
    if pos + 4 > |bytes| {
      return Err(UnexpectedEof(pos, 4)), pos;
    }
    var c := bytes[pos..pos + 4];
    LeBound4(c);
    var exception_offset: u32 := LeValue(c);
    pos := pos + 4;
    if pos + 8 > |bytes| {
      return Err(UnexpectedEof(pos, 8)), pos;
    }
    var d := bytes[pos..pos + 8];
    LeBound8(d);
    var slope_fp: u64 := LeValue(d);
    pos := pos + 8;
    if pos + 8 > |bytes| {
      return Err(UnexpectedEof(pos, 8)), pos;
    }
    var e := bytes[pos..pos + 8];
    LeBound8(e);
    var intercept_fp := AsI64(LeValue(e));
    pos := pos + 8;
    var b := BlockMeta(bit_offset, bit_width, flags, exception_offset, slope_fp, intercept_fp);
    MetaOfPieces(a, bit_width, flags, c, d, e);
    MetaChunk(bytes, pos0);
    r := Ok(b);
  }

  /** Reads a u32 count, then that many blocks. */
  method ReadMetas(bytes: seq<u8>, pos0: nat) returns (r: Result<seq<BlockMeta>, LoadError>, pos: nat)
    requires pos0 <= |bytes|
    ensures r.Ok? ==> pos0 <= pos <= |bytes| && |r.value| < TWO32 && bytes[pos0..pos] == MetaSection(r.value)
    ensures r.Err? ==> forall ms: seq<BlockMeta> | |ms| < TWO32 :: !At(bytes, pos0, MetaSection(ms))
  {
    pos := pos0;
    if pos + 4 > |bytes| {
      return Err(UnexpectedEof(pos, 4)), pos;
    }
    var cb := bytes[pos..pos + 4];
    var count := LeValue(cb);
    assert count < TWO32 by { LeBound4(cb); }
    pos := pos + 4;
    var metas: seq<BlockMeta> := [];
    var i := 0;
    while i < count
      invariant 0 <= i <= count && |metas| == i
      invariant pos == pos0 + 4 + META_SIZE * i <= |bytes|
      invariant bytes[pos0 + 4..pos] == MetasBytes(metas)
    {
      var b, next := ReadMeta(bytes, pos);
      if b.Err? {
        r := Err(b.error);
        forall ms: seq<BlockMeta> | |ms| < TWO32 && At(bytes, pos0, MetaSection(ms))
          ensures false
        {
          AtSplit(bytes, pos0, CountBytes(|ms|), MetasBytes(ms));
          CountAt(bytes, pos0, |ms|);
        }
        return;
      }
      assert bytes[pos0 + 4..next] == bytes[pos0 + 4..pos] + bytes[pos..next];
      MetasBytesSnoc(metas, b.value);
      metas := metas + [b.value];
      pos := next;
      i := i + 1;
    }
    r := Ok(metas);
    assert CountBytes(count) == cb by {
      ModSmall(count, TWO32);
      LeBytesOfLeValue(cb);
    }
    assert bytes[pos0..pos] == cb + bytes[pos0 + 4..pos];
  }

  /** `load_u64_vec` on a little-endian machine: a u32 count, then a bulk copy. */
  method ReadWords(bytes: seq<u8>, pos0: nat) returns (r: Result<seq<u64>, LoadError>, pos: nat)
    requires pos0 <= |bytes|
    ensures r.Ok? ==> pos0 <= pos <= |bytes| && |r.value| < TWO32 && bytes[pos0..pos] == WordsSection(r.value)
    ensures r.Err? ==> forall ws: seq<u64> | |ws| < TWO32 :: !At(bytes, pos0, WordsSection(ws))
  {
    pos := pos0;
    var p := pos;
    if p + 4 > |bytes| {
      return Err(EofVecLen(p)), pos;
    }
    var cb := bytes[p..p + 4];
    var count := LeValue(cb);
    assert count < TWO32 by { LeBound4(cb); }
    pos := pos + 4;
    var byte_len := count * 8;
    if pos + byte_len > |bytes| {
      r := Err(EofVecBody(pos, byte_len));
      forall ws: seq<u64> | |ws| < TWO32 && At(bytes, pos0, WordsSection(ws))
        ensures false
      {
        AtSplit(bytes, pos0, CountBytes(|ws|), WordsBytes(ws));
        CountAt(bytes, pos0, |ws|);
      }
      return;
    }
    var body := bytes[pos..pos + byte_len];
    var vec := WordsOf(body);
    pos := pos + byte_len;
    r := Ok(vec);
    assert CountBytes(count) == cb by {
      ModSmall(count, TWO32);
      LeBytesOfLeValue(cb);
    }
    SliceJoin(bytes, pos0, pos0 + 4, pos);
  }

  /**
   * Deserialises a dump. It fails on fewer than 8 bytes and on input that ends
   * inside a vector; it accepts exactly the inputs that begin with a dump, and
   * returns the array that dump was made from (bytes after it are ignored).
   */
  method Load(bytes: seq<u8>) returns (r: Result<Pc, LoadError>)
    ensures |bytes| < 8 ==> r == Err(ShortHeader)
    ensures r.Ok? ==> Dumpable(r.value) && DumpBytes(r.value) <= bytes
    ensures forall pc: Pc | Dumpable(pc) && DumpBytes(pc) <= bytes :: r == Ok(pc)
  {
    var pos: nat := 0;
    if |bytes| < 8 {
      return Err(ShortHeader);
    }
    var lb := bytes[pos..pos + 8];
    LeBound8(lb);
    var len: u64 := LeValue(lb);
    pos := pos + 8;
    var block_meta, p1 := ReadMetas(bytes, pos);
    if block_meta.Err? {
      r := Err(block_meta.error);
      forall pc: Pc | Dumpable(pc) && DumpBytes(pc) <= bytes ensures false {
        var q1, q2, q3 := DumpAt(pc, bytes);
      }
      return;
    }
    var bm := block_meta.value;
    assert 8 <= p1 <= |bytes| && bytes[8..p1] == MetaSection(bm);
    var residuals, p2 := ReadWords(bytes, p1);
    if residuals.Err? {
      r := Err(residuals.error);
      forall pc: Pc | Dumpable(pc) && DumpBytes(pc) <= bytes ensures false {
        MetasOfDump(pc, bytes, bm, p1);
      }
      return;
    }
    var res := residuals.value;
    var exceptions, p3 := ReadWords(bytes, p2);
    if exceptions.Err? {
      r := Err(exceptions.error);
      forall pc: Pc | Dumpable(pc) && DumpBytes(pc) <= bytes ensures false {
        MetasOfDump(pc, bytes, bm, p1);
        ResidualsOfDump(pc, bytes, res, p1, p2);
      }
      return;
    }
    var exc := exceptions.value;
    var bitmap, p4 := ReadWords(bytes, p3);
    if bitmap.Err? {
      r := Err(bitmap.error);
      forall pc: Pc | Dumpable(pc) && DumpBytes(pc) <= bytes ensures false {
        MetasOfDump(pc, bytes, bm, p1);
        ResidualsOfDump(pc, bytes, res, p1, p2);
        ExceptionsOfDump(pc, bytes, exc, p2, p3);
      }
      return;
    }
    var bmp := bitmap.value;
    var pc := Pc(bm, res, exc, bmp, len);
    r := Ok(pc);
    assert LeBytes(len, 8) == lb by { LeBytesOfLeValue(lb); }
    DumpOfSections(bytes, pc, p1, p2, p3, p4);
    forall other: Pc | Dumpable(other) && DumpBytes(other) <= bytes
      ensures r == Ok(other)
    {
      OnlyDump(bytes, pc, other, p1, p2, p3, p4);
    }
  }
}
