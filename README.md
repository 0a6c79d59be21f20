# jdb_ftl codec and trace stack, modelled in Dafny

This project models the core of the jdb_ftl flash translation layer and the
tools around it. Each piece is proved against a specification:

- **Compressed group codec.** jdb_ftl stores the physical page addresses (PPAs)
  of a group of logical blocks in a compressed frame:
  - a 2-byte frame header (`Head`), either in direct mode or in PGM mode;
  - a count of valid entries;
  - an Elias-Fano index of the valid entries' logical offsets;
  - a body, which is one of:
    - direct: a shared base plus fixed-width deltas;
    - raw: little-endian u64 words;
    - fitted: linear segments with bit-packed residuals, plus zigzag-coded
      outliers.
- **Encoder side.** The model covers the bit writers, the Elias-Fano
  encoder, the segment fit (`find_longest_segment`) and the direct-mode
  encoder.
- **Decoder side.** The model covers `read_bits`, the Elias-Fano view
  (`get`, `predecessor`), segment decoding, and whole-group decoding with
  its in-place backward scatter.
- **Baseline and trace tools.** These are:
  - the flat array map used as a benchmark baseline (`bench/base.rs`);
  - the 16-byte trace record format and its replay (`trace.rs`);
  - the trace generator in `init.js`, which parses MSR block and CSV traces,
    simulates a golden PPA for every request and writes trace records;
  - the `jdb_pc` dump/load serialisation (`jdb_pc/src/io.rs`).

How the model works:

- **Integers.** All integers are unbounded. Every fixed-width type of the
  source is a subset type: `u8`, `u16`, `u32`, `u64`, `i32` and `i64`.
  Masks, shifts, wrapping adds and sign reinterpretations are written out
  as `%`, `/` and explicit offsets of 2^64.
- **Bit fields.** A bit field is `Field(w, s, k)`, the k bits of `w` from
  bit `s`.
- **Byte and word streams.** Byte buffers are `seq<u8>`, read as one
  little-endian number with `LeValue`. The 64-bit word buffers of
  jdb_pgm_lib are read with `WordsValue`.
- **State.** The bit writers, the frame header, the baseline map, the trace
  iterator and the trace generator change state in the source, so they are
  classes. The decoders write into the caller's `&mut [u64]`, which is
  modelled as an `array<u64>`.
- **Pure code.** Layout, parsing and specification code is made of
  functions and lemmas.

The key results:

- `EfRoundTrip.EncodeThenGet` and `EfRoundTrip.EncodeThenPredecessor`:
  decoding an encoded Elias-Fano index returns the encoded data.
- `DirectEncoder.DirectRoundTrip`: a direct group decodes to its values.
- `SegmentDecoder.SegmentRestores`: a fitted segment with its residuals
  decodes to the fitted values.
- `GroupDecoder.DecodeGroup`: each dense value lands at its stored offset,
  and every other slot is `u64::MAX`.
- `Ingest.GoldenReplay`: replaying the records the generator writes gives
  its shadow map.
- `PcIo.Load`: loading is sound and complete for dumps, so
  `load(dump(pc)) == Ok(pc)`.

## Model

| member | source | states |
|---|---|---|
| CodecUtil.ZigZagEncode | jdb_ftl/src/ftl/codec/util.rs:4-6 | The zigzag code is 2v for v >= 0 and -2v-1 for v < 0. The i64 shift and the xor with the sign mask are modelled on integers. |
| CodecUtil.ZigZagDecode | jdb_ftl/src/ftl/codec/util.rs:10-12 | The decoded r is the i64 whose zigzag code is u. |
| CodecUtil.ZigZagDecodeEncode | jdb_ftl/src/ftl/codec/util.rs:4-12 | Decoding after encoding gives back every i64. |
| CodecUtil.ZigZagEncodeDecode | jdb_ftl/src/ftl/codec/util.rs:4-12 | Encoding after decoding gives back every u64, so the code is a bijection. |
| CodecUtil.ZigZagExamples | jdb_ftl/src/ftl/codec/util.rs:2 | The documented table holds: 0→0, -1→1, 1→2, -2→3, 2→4. The extremes i64::MAX and i64::MIN map to 2^64-2 and 2^64-1. |
| CodecUtil.BitWidth | jdb_ftl/src/ftl/codec/util.rs:16-21 | The width is 0 exactly for 0. Otherwise 2^(r-1) <= v < 2^r. |
| CodecUtil.BitWidthU64 | jdb_ftl/src/ftl/codec/util.rs:20 | The bit width of a u64 is at most 64. |
| CodecUtil.BitWidthAtMost | jdb_ftl/src/ftl/codec/util.rs:16-21 | A value below 2^w has bit width at most w. |
| Frame.ZeroHead | jdb_ftl/src/ftl/frame.rs:16-19 | The zero header is not direct, has segment count 0 and is not empty. |
| Frame.WithSegNumFields | jdb_ftl/src/ftl/frame.rs:39-42 | `set_seg_num` stores num mod 2^14. It keeps the direct flag and clears bit 14. |
| Frame.WithDirectFields | jdb_ftl/src/ftl/frame.rs:54-60 | `set_direct` sets bit 15 to the flag and keeps bits 0-14. |
| Frame.WithCountFields | jdb_ftl/src/ftl/frame.rs:85-87 | `set_count` stores n mod 16. It keeps the direct flag, width, base length and reserved bits. |
| Frame.WithWidthFields | jdb_ftl/src/ftl/frame.rs:95-97 | `set_width` stores w mod 64. It keeps the direct flag, count, base length and reserved bits. |
| Frame.WithBaseLenFields | jdb_ftl/src/ftl/frame.rs:105-107 | `set_base_len` stores len mod 8. It keeps the direct flag, count, width and reserved bits. |
| Frame.IsEmptyCases | jdb_ftl/src/ftl/frame.rs:66-75 | A direct header with count 0 is empty. A PGM header is never empty. |
| Frame.Head.constructor | jdb_ftl/src/ftl/frame.rs:17-19 | `Head::new` is the zero word: not direct, with segment count 0. |
| Frame.Head.WithSegNumber | jdb_ftl/src/ftl/frame.rs:24-27 | Under the debug assertion seg_num <= 0x3FFF, the word is seg_num: a PGM header with that count. |
| Frame.Head.FromBytes | jdb_ftl/src/ftl/frame.rs:115-118 | The word is the first two bytes, little-endian. |
| Frame.Head.AsBytes | jdb_ftl/src/ftl/frame.rs:123-125 | Two bytes whose little-endian value is the packed word. |
| Frame.Head.SetSegNum | jdb_ftl/src/ftl/frame.rs:39-42 | The new word is `WithSegNum` of the old one: the count is num mod 2^14 and the direct flag is kept. |
| Frame.Head.SetDirect | jdb_ftl/src/ftl/frame.rs:54-60 | The flag is set as given and the low 15 bits are kept. |
| Frame.Head.SetCount | jdb_ftl/src/ftl/frame.rs:85-87 | The count is n mod 16. The flag, width and base length are unchanged. |
| Frame.Head.SetWidth | jdb_ftl/src/ftl/frame.rs:95-97 | The width is w mod 64. The flag, count and base length are unchanged. |
| Frame.Head.SetBaseLen | jdb_ftl/src/ftl/frame.rs:105-107 | The base length is len mod 8. The flag, count and width are unchanged. |
| SegLayout.GroupHeaderFields | jdb_ftl/src/ftl/seg/mod.rs:9-36 | `GroupHeader::new` stores each field masked to its width: mode mod 4, segments mod 1024, outliers mod 4096, outlier width mod 64. The flags read 0. |
| SegLayout.SegBase | jdb_ftl/src/ftl/seg/mod.rs:115-119 | The base stored by `new` (lines 72-81) reads back as base mod 2^48. |
| SegLayout.SegSlope | jdb_ftl/src/ftl/seg/mod.rs:122-131 | The 22-bit slope field packed by `new` (lines 85-87) is sign-extended back. Every slope in [-2^21, 2^21) round-trips. |
| SegLayout.SegBitOffset | jdb_ftl/src/ftl/seg/mod.rs:134-138 | The offset, split over w1 and w2 by `new` (lines 74-84), reads back as offset mod 2^20. |
| SegLayout.SegBitWidth | jdb_ftl/src/ftl/seg/mod.rs:140-143 | The width packed by `new` (lines 86-87) reads back as width mod 64. |
| SegLayout.NewSegFields | jdb_ftl/src/ftl/seg/mod.rs:72-143 | When every field fits its width, all four fields read back unchanged. |
| SegLayout.SegBytesRoundTrip | jdb_ftl/src/ftl/seg/mod.rs:50-96 | The 12-byte descriptor, as six little-endian u16 halves, reads back as the same descriptor. |
| SegLayout.EfLenBytes | jdb_ftl/src/ftl/seg/mod.rs:147-152 | The length is 0 exactly when there are no entries. |
| SegLayout.ViewTableOffset | jdb_ftl/src/ftl/seg/mod.rs:177-180 | The table offset is even. It is at most one byte past the header plus both index lengths. |
| SegViews.ViewOutlierEf | jdb_ftl/src/ftl/seg/mod.rs:154-161 | The outlier index is a well-formed view of the payload after the 4-byte group header. It holds 0 or outlier_num entries. |
| SegViews.ViewSegEf | jdb_ftl/src/ftl/seg/mod.rs:163-170 | The segment index is a well-formed view of the payload after the header and the outlier index. It holds 0 or seg_num entries. |
| SegViews.OutlierIndexRoundTrip | jdb_ftl/src/ftl/seg/mod.rs:154-161 | A payload holding the encoded outlier offsets after a 4-byte header yields those offsets. |
| SegViews.SegIndexRoundTrip | jdb_ftl/src/ftl/seg/mod.rs:163-170 | A payload holding the encoded segment starts after the header and the outlier index yields those starts. |
| SegViews.ViewTable | jdb_ftl/src/ftl/seg/mod.rs:173-185 | There are exactly seg_num descriptors. `ViewTableEntry` says where each is read from. |
| SegViews.ViewTableRoundTrip | jdb_ftl/src/ftl/seg/mod.rs:173-185 | Serialised descriptors placed at the table offset are read back as the same sequence. |
| SegViews.ViewTableEntry | jdb_ftl/src/ftl/seg/mod.rs:181-184 | Descriptor k is the 12 bytes at offset + 12k. |
| BitWriting.BitWriter.constructor | jdb_ftl/src/ftl/codec/bit_writer.rs:15-21 | A new writer is empty: stream value 0 and 0 bits. |
| BitWriting.BitWriter.Write | jdb_ftl/src/ftl/codec/bit_writer.rs:26-41 | The stream grows by (val mod 2^bits) at bit position TotalBits, and the length grows by bits. Zero bits change nothing. The writer stays valid. |
| BitWriting.BitWriter.ByteAlign | jdb_ftl/src/ftl/codec/bit_writer.rs:46-52 | The pending bits are flushed as one byte and the stream value is unchanged. Nothing is pushed when already aligned. |
| BitWriting.BitWriter.AppendBytes | jdb_ftl/src/ftl/codec/bit_writer.rs:57-60 | The stream is aligned first, then the bytes follow at the next byte boundary. |
| BitWriting.BitWriter.Finish | jdb_ftl/src/ftl/codec/bit_writer.rs:64-69 | The result is the aligned bytes plus 16 zero bytes. Its value is the stream and its length is ceil(bits/8)+16. |
| BitWriting.BitWriter.FinishMinimal | jdb_ftl/src/ftl/codec/bit_writer.rs:73-78 | The same with 8 zero bytes of padding. |
| BitWriting.BitWriter.Clear | jdb_ftl/src/ftl/codec/bit_writer.rs:88-92 | The writer is empty again: no bytes, no pending bits, value 0. |
| DecoderBits.ReadBits | jdb_ftl/src/ftl/codec/decoder/bits.rs:7-28 | The result is the len-bit field at bit bit_idx of the little-endian buffer. The 8-byte load is used up to 56 bits and the 16-byte load above. |
| DecoderBits.ReadAfterWrite | jdb_ftl/src/ftl/codec/decoder/bits.rs:7-28 | Reading at the position a value was written gives the value mod 2^bits. |
| DecoderBits.WriteThenRead | jdb_ftl/src/ftl/codec/bit_writer.rs:26-41 | Writing a value, padding with `finish`, then `read_bits` at the old position gives val mod 2^bits. |
| PgmBits.ReadBits | jdb_pgm_lib/src/bits.rs:5-23 | The result is the bits-wide field at start_bit of the little-endian word stream, including reads that straddle two words. |
| PgmBits.BitWriter.constructor | jdb_pgm_lib/src/bits.rs:33-40 | A new writer is empty. |
| PgmBits.BitWriter.Write | jdb_pgm_lib/src/bits.rs:42-64 | The stream grows by (val mod 2^bits) at bit total_bits, and total_bits grows by bits. Zero bits change nothing. |
| PgmBits.BitWriter.Append | jdb_pgm_lib/src/bits.rs:48-55 | The branch where the value fits the current word. A full word is pushed. |
| PgmBits.BitWriter.AppendSpilling | jdb_pgm_lib/src/bits.rs:56-62 | The branch that spills: the low part completes the word and the high part starts the next. |
| PgmBits.BitWriter.CurrentBitOffset | jdb_pgm_lib/src/bits.rs:66-68 | The offset is 64·words + bits in the current word. |
| PgmBits.BitWriter.Finish | jdb_pgm_lib/src/bits.rs:70-77 | The result is the words, then the pending word if any, then a zero word. Its value is the stream and its length is ceil(total/64)+1. |
| PgmBits.WriteThenRead | jdb_pgm_lib/src/bits.rs:5-77 | Writing, finishing, then `read_bits` at the old position gives val mod 2^bits. |
| EfUtil.SelectBitInByte | jdb_ftl/src/ftl/codec/ef/util.rs:43-50 | The result is the position of the needed-th set bit, or 8 when the byte has too few. |
| EfUtil.SelectBitInU64 | jdb_ftl/src/ftl/codec/ef/util.rs:55-63 | The result is the position of the needed-th set bit, or 64 when there are too few. |
| EfUtil.LoadU64Safe | jdb_ftl/src/ftl/codec/ef/util.rs:68-80 | The result is the little-endian word at byte_idx with zeros past the end, and 0 when byte_idx is past the end. |
| EfUtil.ReadBitsU64At | jdb_ftl/src/ftl/codec/ef/util.rs:8-38 | The result is 0 for len 0, and otherwise the field of the zero-extended word at the byte. When the field fits in the word, this is the field of the buffer on both the fast and the tail path. |
| EfWriter.LowBits | jdb_ftl/src/ftl/codec/ef/writer.rs:44-48 | l (computed the same way in `byte_len`, lines 8-12) is the floor of log2(u/n) when u > n, and 0 otherwise. |
| EfWriter.LowBitsBelow64 | jdb_ftl/src/ftl/codec/ef/writer.rs:54 | l is below 64 for every u64 bound, so `1 << l` is defined. |
| EfWriter.ByteLen | jdb_ftl/src/ftl/codec/ef/writer.rs:4-33 | No elements take 1 byte. `EncodeWithinByteLen` shows the estimate bounds every encoding. |
| EfWriter.Encode | jdb_ftl/src/ftl/codec/ef/writer.rs:37-111 | The output is `EncodeSpec`: the l byte, the upper length as a LE u16, the upper stream, the lower stream and the skip table. |
| EfWriter.EncodeEmpty | jdb_ftl/src/ftl/codec/ef/writer.rs:39-41 | An empty input encodes as [0], whose length is `byte_len(0, u)` (lines 5-7). |
| EfWriter.EncodeWithinByteLen | jdb_ftl/src/ftl/codec/ef/writer.rs:4-111 | Sorted input bounded by u encodes within `byte_len(n, u)` bytes. |
| EfWriter.UpperOnes | jdb_ftl/src/ftl/codec/ef/writer.rs:70-84 | The upper stream has exactly one 1-bit per element. |
| EfWriter.UpperSelect | jdb_ftl/src/ftl/codec/ef/writer.rs:70-84 | The i-th 1-bit of the upper stream sits at high_i + i. |
| EfWriter.SkipTable | jdb_ftl/src/ftl/codec/ef/writer.rs:55-64 | The skip table has one entry for each started block of 64 elements: ceil(n/64). |
| EfView.New | jdb_ftl/src/ftl/codec/ef/view.rs:26-61 | The view is well formed over the data. It is empty when n is 0 or there are fewer than 3 bytes. Otherwise it holds n entries exactly when the buffer has room for the 3-byte header, the upper bytes its header names, ceil(n·l/8) lower bytes and ceil(n/64) four-byte skip entries, and it is empty when it does not. |
| EfView.Get | jdb_ftl/src/ftl/codec/ef/view.rs:96-156 | The result is `GetSpec`: high bits from the position of the i-th 1-bit and low bits from the lower stream. It is the sentinel 0xFFFF past n. |
| EfView.DecodeVal | jdb_ftl/src/ftl/codec/ef/view.rs:159-177 | The value at an upper position is the high part (pos - i) shifted by l, ORed with the low bits. |
| EfView.SkipSearch | jdb_ftl/src/ftl/codec/ef/view.rs:189-202 | The binary search stops at the boundary: the entry before the result has a high value at most the target's high part, and the entry at the result is above it. |
| EfView.ScanBackwards | jdb_ftl/src/ftl/codec/ef/view.rs:316-326 | The result is the last index below limit whose value is at most the target, or (0, 0) when there is none. |
| EfView.Predecessor | jdb_ftl/src/ftl/codec/ef/view.rs:180-313 | On an ordered view, the result is the last index whose value is at most the target, with that value, or (0, 0) when there is none. |
| EfView.PredecessorOfStored | jdb_ftl/src/ftl/codec/ef/view.rs:180-313 | The predecessor of a stored value that differs from its successor is that entry itself. |
| EfRoundTrip.EncodeThenView | jdb_ftl/src/ftl/codec/ef/writer.rs:37-111 | The view over an encoding, followed by any bytes, holds exactly the encoded values in order. |
| EfRoundTrip.EncodeThenGet | jdb_ftl/src/ftl/codec/ef/view.rs:96-156 | `get(i)` on an encoding returns data[i], and the sentinel past the end. |
| EfRoundTrip.EncodeThenPredecessor | jdb_ftl/src/ftl/codec/ef/view.rs:180-313 | `predecessor(t)` on an encoding returns the last i with data[i] <= t, with data[i]. |
| Optimal.DiffRange | jdb_ftl/src/ftl/codec/optimal.rs:183-209 | min_diff and max_diff are the least and greatest wrapped differences from the line over the accepted points, and each is attained. |
| Optimal.Scan | jdb_ftl/src/ftl/codec/optimal.rs:41-170 | The loop gives a segment 1 <= len <= n of one kind, with increasing outliers inside it. The cone covers every accepted point, and the segment stops at the end, a kind change, or a misfit that is not isolated. |
| Optimal.FindLongestSegment | jdb_ftl/src/ftl/codec/optimal.rs:17-226 | Empty input gives (0,0,0,0) and one value gives (v,0,1,0). Otherwise the segment and outliers are as `Scan` gives them, and the slope is the cone's midpoint, or 0 for one point. Every non-outlier residual against the shifted base is at most max_residual. |
| Optimal.FinalSlope | jdb_ftl/src/ftl/codec/optimal.rs:172-180 | The slope is 0 for a segment of at most one point. |
| Optimal.FitResiduals | jdb_ftl/src/ftl/codec/optimal.rs:183-222 | Once the base absorbs min_diff, every accepted residual is at most max_residual = max_diff - min_diff. |
| Optimal.AcceptedWithinEpsilon | jdb_ftl/src/ftl/codec/optimal.rs:63-95 | Every accepted point lies within epsilon of the line through the first point, for every slope in the final cone. |
| Optimal.ResidualRestores | jdb_ftl/src/ftl/codec/decoder/decode_segment.rs:46-51 | The prediction plus the stored residual, wrapping, gives the point back. |
| DirectEncoder.MinOr0 | jdb_ftl/src/ftl/codec/encoder/direct.rs:8 | The minimum of the group, or 0 when it is empty. |
| DirectEncoder.MaxOr0 | jdb_ftl/src/ftl/codec/encoder/direct.rs:9 | The maximum of the group, or 0 when it is empty. |
| DirectEncoder.DirectWidth | jdb_ftl/src/ftl/codec/encoder/direct.rs:10-17 | The width is at most 64, and every delta from the minimum fits in it. |
| DirectEncoder.DirectBaseLen | jdb_ftl/src/ftl/codec/encoder/direct.rs:19-24 | The base length is at most 8 bytes, and the minimum fits in it. |
| DirectEncoder.EncodeDirect | jdb_ftl/src/ftl/codec/encoder/direct.rs:4-47 | The header is the direct word (flag, n as u8, width, base length, each masked). The payload is the base's low bytes, then the packed deltas and 8 zero bytes when the width is not 0. |
| DirectEncoder.PackedField | jdb_ftl/src/ftl/codec/encoder/direct.rs:37-44 | The i-th w-bit field of the packed deltas is delta i mod 2^w. |
| DirectEncoder.DirectWordFields | jdb_ftl/src/ftl/codec/encoder/direct.rs:26-29 | The word built is direct, with count n mod 16, width mod 64 and base length mod 8. |
| DirectEncoder.CheckedDirectWord | jdb_ftl/src/ftl/codec/encoder/direct.rs:26-29 | The corrected header: a word exists exactly when the count, width and base length fit their fields. Its fields then read back unchanged. |
| DirectEncoder.DirectRoundTrip | jdb_ftl/src/ftl/codec/decoder/decode_group.rs:30-45 | When the fields fit, the direct path can read the payload, and the i-th value it decodes is the i-th value encoded. |
| DirectEncoder.HighBaseLost | jdb_ftl/src/ftl/frame.rs:105-107 | As written: the group [2^56] needs base length 8, which is stored as 0, so the decoder returns 0. |
| DirectEncoder.WideDeltaLost | jdb_ftl/src/ftl/frame.rs:95-97 | As written: the group [0, 2^63] needs width 64, which is stored as 0, so the decoder returns 0 for the second value. |
| DirectEncoder.ZeroWidthLoadsPastEnd | jdb_ftl/src/ftl/codec/decoder/decode_group.rs:41-43 | For [7, 7] the payload is one base byte, yet the loop as written loads 8 bytes after it for each value. |
| SegmentDecoder.DecodeSegment | jdb_ftl/src/ftl/codec/decoder/decode_segment.rs:7-54 | Every slot in lo..hi gets base + (i·slope >> 24), plus the width-bit residual at bit i·width of the residual area, wrapping. The other slots are unchanged. |
| SegmentDecoder.DecodeLinear | jdb_ftl/src/ftl/codec/decoder/decode_segment.rs:34-40 | The zero-width path gives the prediction alone. |
| SegmentDecoder.DecodeResiduals | jdb_ftl/src/ftl/codec/decoder/decode_segment.rs:41-53 | The residual path gives the prediction plus the stored residual. |
| SegmentDecoder.SegmentRestores | jdb_ftl/src/ftl/codec/decoder/decode_segment.rs:7-54 | A descriptor with the fit's base and slope, whose residual area holds the encoder's residuals, decodes to the fitted values. |
| SegmentDecoder.NewSegRestores | jdb_ftl/src/ftl/seg/mod.rs:72-97 | The same for a descriptor built by `Seg::new` from fields that fit. |
| GroupDecoder.FillMax | jdb_ftl/src/ftl/codec/decoder/decode_group.rs:168-176 | Slots lo..hi become u64::MAX and the rest are unchanged. |
| GroupDecoder.DecodeDirect | jdb_ftl/src/ftl/codec/decoder/decode_group.rs:30-45 | Slot i < count becomes the base's bytes plus the i-th delta, wrapping. Higher slots are unchanged. |
| GroupDecoder.DecodeRaw | jdb_ftl/src/ftl/codec/decoder/decode_group.rs:52-57 | Slot i < n_valid becomes the i-th LE u64 after the group header. Higher slots are unchanged. |
| GroupDecoder.RawRoundTrip | jdb_ftl/src/ftl/codec/decoder/decode_group.rs:52-57 | A header followed by each value's `to_le_bytes` gives every value back. |
| GroupDecoder.Scatter | jdb_ftl/src/ftl/codec/decoder/decode_group.rs:158-177 | With strictly increasing offsets inside the output, the i-th dense value ends at offset i, and every slot no offset names is u64::MAX. |
| GroupDecoder.AtLeastIndex | jdb_ftl/src/ftl/codec/decoder/decode_group.rs:159-160 | With strictly increasing offsets, offset i is at least i, so the backward scatter never overwrites a value it still needs. |
| GroupDecoder.DecodeSegments | jdb_ftl/src/ftl/codec/decoder/decode_group.rs:66-102 | Each segment decodes its range start..end, the next start or n_valid. Positions outside all ranges are unchanged. |
| GroupDecoder.SegForIn | jdb_ftl/src/ftl/codec/decoder/decode_group.rs:138-145 | With ordered ranges, the outlier loop's segment search finds the segment whose range holds the offset. |
| GroupDecoder.FindSegment | jdb_ftl/src/ftl/codec/decoder/decode_group.rs:138-145 | The search loop returns `SegFor`: an existing segment that starts at or before the offset. By `SegForIn`, it is the segment whose range holds the offset. |
| GroupDecoder.OutlierRestores | jdb_ftl/src/ftl/codec/decoder/decode_group.rs:147-152 | Storing the zigzag code of a value's distance from its segment's prediction restores the value. |
| GroupDecoder.ComputeResidualEnd | jdb_ftl/src/ftl/codec/decoder/decode_group.rs:107-121 | `pgm_bit_end` is the furthest end of a residual area (offset·8 + len·width), or 0 when no segment has residuals. |
| GroupDecoder.ResidualEndAbove | jdb_ftl/src/ftl/codec/decoder/decode_group.rs:107-121 | Every residual area ends at or before `pgm_bit_end`, so the outliers start after all of them. |
| GroupDecoder.PatchOutliers | jdb_ftl/src/ftl/codec/decoder/decode_group.rs:132-153 | Each outlier's prediction plus its zigzag-decoded residual is written at its offset, in index order. |
| GroupDecoder.PatchAt | jdb_ftl/src/ftl/codec/decoder/decode_group.rs:132-153 | With increasing offsets, each outlier value lands at its offset and no other position changes. |
| GroupDecoder.DecodeFitted | jdb_ftl/src/ftl/codec/decoder/decode_group.rs:58-155 | The fitted path is the segment pass followed by the outlier patches. |
| GroupDecoder.DecodeDense | jdb_ftl/src/ftl/codec/decoder/decode_group.rs:29-156 | The dense values come from the direct, raw or fitted path, chosen by the header flag and the mode. |
| GroupDecoder.DecodeGroup | jdb_ftl/src/ftl/codec/decoder/decode_group.rs:9-178 | An empty payload or a zero count gives all slots u64::MAX. Otherwise the i-th dense value is at the i-th stored offset and every other slot is u64::MAX. |
| Bench.SlotValue | jdb_ftl/src/bench/base.rs:33 | A slot is None exactly when it holds u64::MAX, and otherwise the stored PBA. |
| Bench.Base.constructor | jdb_ftl/src/bench/base.rs:13-17 | There are cap slots, all u64::MAX, so every lookup is None. |
| Bench.Base.Get | jdb_ftl/src/bench/base.rs:26-34 | The result is Some exactly when lba is in range and its slot is not u64::MAX, and then it is the stored value. |
| Bench.Base.Set | jdb_ftl/src/bench/base.rs:37-45 | Only an in-range lba's slot changes, and it reads back as the new PBA (None for u64::MAX). Every other lba reads as before. |
| Trace.RecordBytes | jdb_ftl/init.js:156-159 | A record is 16 bytes. `DecodeRecordBytes` and `RecordBytesOfDecode` show the Rust reader inverts it. |
| Trace.DecodeRecord | jdb_ftl/examples/src/util/trace.rs:51-57 | The op is below 16 and the PBA below 2^60. |
| Trace.RecordBytesOfDecode | jdb_ftl/examples/src/util/trace.rs:51-57 | Every 16-byte buffer is the record of what it decodes to. |
| Trace.DecodeRecordBytes | jdb_ftl/examples/src/util/trace.rs:51-57 | A written record decodes to (op, lba, pba mod 2^60). The writer and the reader agree. |
| Trace.ReplaySnoc | jdb_ftl/examples/src/util/trace.rs:88-97 | Replaying one more record applies it to the replayed map. |
| Trace.ReplayUnwritten | jdb_ftl/examples/src/util/trace.rs:88-97 | An LBA no write record names is absent from the replayed map. |
| Trace.ReplayLastWrite | jdb_ftl/examples/src/util/trace.rs:88-97 | An LBA maps to the PBA of its last write. The last write wins. |
| Trace.TraceIter.constructor | jdb_ftl/examples/src/util/trace.rs:38-40 | The iterator starts at position 0 of its input. |
| Trace.TraceIter.Next | jdb_ftl/examples/src/util/trace.rs:47-62 | A read error gives Some(Err). Fewer than 16 bytes left give None. Otherwise it gives the next record decoded, and the position advances by 16. |
| Trace.LoadTraceMap | jdb_ftl/examples/src/util/trace.rs:83-100 | An I/O error inside the input is returned. Otherwise the result is the replay of every whole record. |
| Trace.MapToSortedVec | jdb_ftl/examples/src/util/trace.rs:104-108 | The pairs are sorted by LBA, one per key, and they are exactly the map's entries. |
| Trace.InsertByLba | jdb_ftl/examples/src/util/trace.rs:105-106 | Inserting a new key keeps the pairs sorted and adds exactly that pair. |
| IngestParse.CommaMeansCsv | jdb_ftl/init.js:107-108 | A line containing a comma is parsed only as CSV. |
| IngestParse.ParseTrimmed | jdb_ftl/init.js:104 | Parsing a trimmed line gives the same as the raw line. |
| IngestParse.TrimIdempotent | jdb_ftl/init.js:104 | Trimming twice is trimming once, so the loop's trim (line 182) and `parseAndWrite`'s agree. |
| IngestParse.ParseCsvLine | jdb_ftl/init.js:124-131 | A CSV record with a decimal offset in field 4 parses to LBA offset/4096, and it is a write exactly when lower-cased field 3 contains "write". |
| IngestParse.ParseBlkLine | jdb_ftl/init.js:115-123 | A block record with type RS/WS/R/W and a decimal sector parses to LBA sector/8, and it is a write exactly for WS and W. |
| IngestParse.BlkTypeWrite | jdb_ftl/init.js:117-120 | Of the four request types, exactly WS and W contain 'W'. |
| IngestParse.SplitJoin | jdb_ftl/init.js:108 | Splitting fields joined by a separator they do not contain gives the fields back. |
| IngestParse.WordsUnwords | jdb_ftl/init.js:108 | Splitting on whitespace runs gives back space-joined non-empty words. |
| IngestParse.WordsCons | jdb_ftl/init.js:108 | Any white-space character, not only the ASCII space, ends a field of `split(/\s+/)`. |
| IngestParse.AnySpaceSeparates | jdb_ftl/init.js:104-108 | White space is ECMAScript's, not only ASCII: the fields "0", "W" and "8" joined by any white-space character that `trim` and `/\s+/` recognise parse as a write of block 1. |
| IngestParse.ToDecimal | jdb_ftl/init.js:119-128 | The decimal digits of n, with value n, which `BigInt` parses back. |
| Ingest.SimulateSpec | jdb_ftl/init.js:95-165 | After the events, the state is: count = the number of events, maxLba = the largest LBA, pbaCounter = 1 + writes, shadowMap = `Shadow`, output = `Output`. |
| Ingest.WritePbasIncrease | jdb_ftl/init.js:141-144 | The pre-increment of the counter set at line 99 gives write PBAs that start at 2 and strictly increase. |
| Ingest.ShadowUnwritten | jdb_ftl/init.js:146-153 | An LBA never written is absent from the shadow map. |
| Ingest.ShadowLastWrite | jdb_ftl/init.js:141-153 | The shadow map holds each LBA's last write PBA. |
| Ingest.ShadowRange | jdb_ftl/init.js:135-144 | Shadow keys are at most maxLba, and shadow values lie between 2 and 1 + writes. |
| Ingest.MaxLbaIsMax | jdb_ftl/init.js:135 | maxLba bounds every LBA and is attained, or it is 0. |
| Ingest.GoldenReplay | jdb_ftl/init.js:141-159 | Replaying the written records with `load_trace_map` gives the shadow map, when LBAs fit in u64 and PBAs in 60 bits. |
| Ingest.ParseLineTrimsFirst | jdb_ftl/init.js:104-105 | The line parser gives the same result on a line and on its trimmed form, as the generator assumes. |
| Ingest.Generator.constructor | jdb_ftl/init.js:95-100 | The state starts as count 0, maxLba 0, pbaCounter 1, an empty shadow map and empty output. |
| Ingest.Generator.ParseAndWrite | jdb_ftl/init.js:103-165 | The result is true exactly when the line parses, and then exactly that event is simulated and written. |
| Ingest.Generator.Emit | jdb_ftl/init.js:135-164 | One event is simulated and its record appended. The state still equals `Simulate` of all events. |
| Ingest.Generator.ScanLines | jdb_ftl/init.js:179-187 | Every complete line before the limit is handled, and the unconsumed tail holds no newline while under the limit. |
| Ingest.Generator.FinishFile | jdb_ftl/init.js:189-192 | At end of file the trimmed rest is handled as the last line. |
| Ingest.Generator.ReadFile | jdb_ftl/init.js:169-196 | The events added are the parsed lines of the file, cut at the remaining limit. |
| Ingest.Generator.ReadFiles | jdb_ftl/init.js:167-168 | The events are the parsed lines of all files in order, cut at the limit. |
| Ingest.Generator.HandleLine | jdb_ftl/init.js:182-185 | A line is parsed and, when it parses, written. |
| Ingest.ProcessTask | jdb_ftl/init.js:72-215 | An existing output gives 0 and no writes. Otherwise the result is maxLba of the first `limit` events. The final file and config (max_lba) are written only when there was at least one event. |
| PcIo.MetaFields | jdb_pc/src/io.rs:19-27 | A block meta is 26 bytes holding, in order and LE: bit_offset (u32), bit_width, flags, exception_offset (u32), slope_fp (u64) and intercept_fp (i64, as its two's complement). |
| PcIo.Dump | jdb_pc/src/io.rs:5-55 | The output is `DumpBytes`: len as LE u64, then the metas, residuals, exceptions and bitmap, each with its u32 count. |
| PcIo.AppendMetas | jdb_pc/src/io.rs:10-27 | Appending the metas field by field adds exactly `MetaSection`: the u32 count, then each meta's 26 bytes in order. |
| PcIo.DumpLength | jdb_pc/src/io.rs:5-55 | The dump length is 8 + 4·4 + 26·metas + 8·(residuals + exceptions + bitmap). |
| PcIo.Load | jdb_pc/src/io.rs:59-186 | Fewer than 8 bytes give an error. An Ok result is a dumpable Pc whose dump is a prefix of the input. Any dumpable Pc whose dump is a prefix is the result, so `load(dump(pc)) == Ok(pc)`. |
| PcIo.ReadMeta | jdb_pc/src/io.rs:109-127 | A meta is read exactly when 26 bytes remain, and those bytes are what `dump` writes for it. |
| PcIo.ReadWords | jdb_pc/src/io.rs:129-157 | A u64 vector is read when its count and body fit, as the section `dump` writes. Otherwise no count-prefixed vector fits there. |

## Left out

- EfWriter.LowBits: the source computes l as `(u as f64 / n as f64).log2().floor()`, and the model uses the integer floor-log2 of u/n. The two can differ for large bounds, for example n = 1 and u = 2^50 - 1. For bounds up to 2^16 a rounding argument, which is not proved here, shows the two agree. That covers the codec's index universe of 4096 and the group size.
- EfWriter.ByteLen: the same integer floor-log2 replaces the f64 `log2`.
- EfWriter.Encode: the same integer floor-log2 replaces the f64 `log2`.
- EfRoundTrip.Encodable: the round trips assume sorted, non-empty input whose lower width is below 16 and whose upper stream is shorter than 2^16 bits. Past those limits the `l & 0xF` header byte, the u16 upper length and the u16 skip positions truncate.
- EfView.Get: requires a valid view, one whose upper stream holds n one-bits. On a malformed buffer the source's scan keeps loading zero words past the end and does not terminate.
- EfView.Predecessor: requires an ordered view, one whose stored values do not decrease, as the encoder writes them. Without that the source's backward scan may return a value that is not the predecessor.
- GroupDecoder.GroupReadable: excludes the inputs on which the source reads out of bounds or panics:
  - a 1-byte payload, which the unchecked 2-byte count read at decode_group.rs:17 overruns;
  - a payload shorter than 2 plus the index length, where the slice at :27 panics;
  - stored offsets at or beyond the output length, where the write at :171 panics;
  - offsets that repeat. The comment at :159 calls the index non-decreasing, but the scatter needs strictly increasing offsets, or a dense value is lost.
- GroupDecoder.DecodeDirect: the model skips the `read_bits` call when the width is 0. The source still loads 8 bytes for each value (decode_group.rs:41-43, bits.rs:17-18), but their masked result is 0 either way. Whether those loads stay inside the caller's buffer is not modelled; `DirectEncoder.ZeroWidthLoadsPastEnd` shows they can pass the end of the group payload.
- Optimal.FindLongestSegment: the i128 cone arithmetic and the i64 `acc` are unbounded integers. The source's comment at optimal.rs:15 says the i128 products cannot overflow. `acc` is i·slope with |slope| < 2^31, so it stays inside i64 for segments shorter than 2^32 points. The i64 wrapping of `pred`, `diff` and the base is written out.
- SegmentDecoder.DecodeSegment: the running i64 `acc` is modelled as the exact product i·slope. The decoder's slope is the 22-bit signed field of the descriptor (seg/mod.rs:122-131), so |slope| <= 2^21 and `acc` cannot overflow for fewer than 2^42 values.
- The PGM encoder that chooses segments and outliers and builds the fitted payload (encoder/pgm) is not part of this model. Only its building blocks are: the fit, the descriptors, the index encoder and the bit writers.
- PcIo.Load: the vector counts are written as `len() as u32`, so the round trip needs fewer than 2^32 entries per vector. Only the little-endian branch of `dump` is modelled. The big-endian branch writes the same bytes element by element.
- PcIo.Load: the error values keep the source's four kinds of failure on the little-endian path (short header, end of input inside a meta field, end of input at a vector length, end of input inside a vector body) but not its message text.
- jdb_pc/src/types.rs is not part of this model. The field types of `BlockMeta` are those `dump` and `load` write.
- Trace.LoadTraceMap: opening the file through `open_bin` and the BIN environment variable are left out. The file's bytes are a parameter, and an I/O error is a parameter position at which the reader fails.
- Trace.LoadTraceMap: the `pba == u64::MAX` removal branch is modelled but can never run, because every decoded PBA is below 2^60.
- Ingest.Generator.ReadFile: the file's text arrives as a sequence of already-decoded chunks. The UTF-8 `TextDecoder`, the 128 KiB chunking, the progress bar and the file descriptors are left out.
- Ingest.ProcessTask: I/O failures are not modelled. An exception from `openSync`, `readSync` or `writeSync` (init.js:161-174) propagates out of `process_task` after the `finally` blocks close the descriptors. The partial temporary file stays, and no final file or config is written (init.js:203-211). The model's file reads and writes always succeed.
- Ingest.ProcessTask: moving the temporary file with `io.mv`, including its EXDEV copy fallback, is modelled only as the final file's contents. `main`, the downloads, `tar` and `io.link` are I/O and left out.
- IngestParse.ParseBlk: `BigInt` is modelled on strings of decimal digits, where the empty string gives 0 and anything else is rejected. Surrounding whitespace inside CSV fields, a sign, and the 0x/0o/0b prefixes that `BigInt` also accepts are not modelled.
- IngestParse.ParseCsv: the same decimal-only `BigInt` applies to the offset field.
- Ingest.GoldenReplay: it holds while LBAs fit in u64 and fewer than 2^60 - 1 writes were simulated. Past that, `setBigUint64` wraps the LBA and the 60-bit mask cuts the PBA.

## Findings

| source | as written | input that shows it | evidently intended | confidence | as-written member | corrected member |
|---|---|---|---|---|---|---|
| jdb_ftl/src/ftl/codec/encoder/direct.rs:19-29, jdb_ftl/src/ftl/frame.rs:105-107 | A base needing 8 bytes gets `base_len` 8, which `set_base_len` masks with `& 0x7` to 0. The decoder then adds no base. | A direct group (n <= 8, encode.rs:23-24) holding the single PPA 2^56 decodes to 0. | A group whose base length, width or count does not fit the direct header should not be stored in direct mode. Every value stored in direct mode reads back. | not executed | DirectEncoder.HighBaseLost | DirectEncoder.CheckedDirectWord |
| jdb_ftl/src/ftl/codec/encoder/direct.rs:13-17,28, jdb_ftl/src/ftl/frame.rs:95-97 | A spread max - min of 2^63 or more gets width 64, which `set_width` masks with `& 0x3F` to 0. The decoder then reads every delta as 0. | The group [0, 2^63] decodes its second value as 0. | As above: the direct header is used only when the width fits its 6 bits. | not executed | DirectEncoder.WideDeltaLost | DirectEncoder.CheckedDirectWord |
