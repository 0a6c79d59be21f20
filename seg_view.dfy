/**
 * The three views a PGM group payload is read through
 * (jdb_ftl/src/ftl/seg/mod.rs `view_outlier_ef`, `view_seg_ef`, `view_table`):
 * the group header, the Elias-Fano index of outlier positions, the
 * Elias-Fano index of segment starts, then the segment descriptors at the
 * next even byte.
 */
module SegViews {
  import opened Common
  import opened SegLayout
  import V = EfView
  import W = EfWriter
  import R = EfRoundTrip

  /** The universe both indexes are encoded against (`4096`). */
  const EF_UNIVERSE: nat := 4096

  /** `view_outlier_ef`: the outlier index starts right after the 4-byte group header. */
  function ViewOutlierEf(payload: seq<u8>, outlier_num: nat): (v: V.View)
    requires GROUP_HEADER_SIZE <= |payload|
    ensures v.data == payload[GROUP_HEADER_SIZE..] && V.WellFormed(v)
    ensures v.n == 0 || v.n == outlier_num
  {
    V.New(payload[GROUP_HEADER_SIZE..], outlier_num, EF_UNIVERSE)
  }

  /** `view_seg_ef`: the segment index starts after the header and the outlier index's estimated length. */
  function ViewSegEf(payload: seq<u8>, outlier_num: nat, seg_num: nat): (v: V.View)
    requires GROUP_HEADER_SIZE + EfLenBytes(outlier_num) <= |payload|
    ensures v.data == payload[GROUP_HEADER_SIZE + EfLenBytes(outlier_num)..] && V.WellFormed(v)
    ensures v.n == 0 || v.n == seg_num
  {
    V.New(payload[GROUP_HEADER_SIZE + EfLenBytes(outlier_num)..], seg_num, EF_UNIVERSE)
  }

  /**
   * An outlier index encoded right after the header reads back through
   * `view_outlier_ef`, whatever follows it.
   */
  lemma {:induction false} OutlierIndexRoundTrip(header: seq<u8>, outliers: seq<u16>, rest: seq<u8>)
    requires |header| == GROUP_HEADER_SIZE && R.Encodable(outliers, EF_UNIVERSE)
    ensures R.HoldsValues(ViewOutlierEf(header + W.EncodeSpec(outliers, EF_UNIVERSE) + rest, |outliers|), outliers)
  {
    var enc := W.EncodeSpec(outliers, EF_UNIVERSE);
    SeqAssoc(header, enc, rest);
    DropFront(header, enc + rest);
    assert ViewOutlierEf(header + enc + rest, |outliers|) == V.New(enc + rest, |outliers|, EF_UNIVERSE);
    R.EncodeThenView(outliers, EF_UNIVERSE, rest);
  }

  /**
   * A segment index encoded after the header and an outlier area of the
   * estimated length reads back through `view_seg_ef`, whatever follows it.
   */
  lemma {:induction false} SegIndexRoundTrip(header: seq<u8>, outlier_area: seq<u8>, outlier_num: nat,
                                             starts: seq<u16>, rest: seq<u8>)
    requires |header| == GROUP_HEADER_SIZE && |outlier_area| == EfLenBytes(outlier_num)
    requires R.Encodable(starts, EF_UNIVERSE)
    ensures R.HoldsValues(ViewSegEf(header + outlier_area + W.EncodeSpec(starts, EF_UNIVERSE) + rest, outlier_num, |starts|), starts)
  {
    var enc := W.EncodeSpec(starts, EF_UNIVERSE);
    var payload := header + outlier_area + enc + rest;
    SeqAssoc(header + outlier_area, enc, rest);
    DropFront(header + outlier_area, enc + rest);
    assert ViewSegEf(payload, outlier_num, |starts|) == V.New(enc + rest, |starts|, EF_UNIVERSE);
    R.EncodeThenView(starts, EF_UNIVERSE, rest);
  }

  // ---------------------------------------------------------------------
  // The descriptor table.

  /** Descriptors stored one after the other, 12 bytes each. */
  function SegsToBytes(segs: seq<Seg>): (r: seq<u8>)
    ensures |r| == SEG_METADATA_SIZE * |segs|
  {
    if segs == [] then [] else SegToBytes(segs[0]) + SegsToBytes(segs[1..])
  }

  /**
   * `view_table`: no descriptors when seg_num is 0, else seg_num 12-byte
   * descriptors from the even offset after the two indexes. The source
   * reinterprets the bytes in place, so the payload must hold them all.
   */
  function ViewTable(payload: seq<u8>, outlier_num: nat, seg_num: nat): (r: seq<Seg>)
    requires seg_num > 0 ==> ViewTableOffset(outlier_num, seg_num) + SEG_METADATA_SIZE * seg_num <= |payload|
    ensures |r| == seg_num
  {
    if seg_num == 0 then [] else Descriptors(payload, ViewTableOffset(outlier_num, seg_num), seg_num)
  }

  /** The first n descriptors stored from offset `off`, 12 bytes each. */
  function Descriptors(payload: seq<u8>, off: nat, n: nat): (r: seq<Seg>)
    requires off + SEG_METADATA_SIZE * n <= |payload|
    ensures |r| == n
  {
    if n == 0 then []
    else Descriptors(payload, off, n - 1) + [SegFromBytes(payload[off + SEG_METADATA_SIZE * (n - 1)..])]
  }

  /** The k-th of them starts 12 * k bytes past `off`. */
  lemma {:induction false} DescriptorsAt(payload: seq<u8>, off: nat, n: nat, k: nat)
    requires k < n && off + SEG_METADATA_SIZE * n <= |payload|
    ensures Descriptors(payload, off, n)[k] == SegFromBytes(payload[off + SEG_METADATA_SIZE * k..])
  {
    if k < n - 1 {
      DescriptorsAt(payload, off, n - 1, k);
    }
  }

  /** The bytes of a stored table from its k-th descriptor on. */
  lemma {:induction false} SegsBytesFrom(segs: seq<Seg>, k: nat)
    requires k < |segs|
    ensures SegsToBytes(segs)[SEG_METADATA_SIZE * k..] == SegToBytes(segs[k]) + SegsToBytes(segs[k + 1..])
  {
    if k > 0 {
      SegsBytesFrom(segs[1..], k - 1);
      assert segs[1..][k - 1] == segs[k] && segs[1..][k..] == segs[k + 1..];
      assert SegsToBytes(segs)[SEG_METADATA_SIZE * k..] == SegsToBytes(segs[1..])[SEG_METADATA_SIZE * (k - 1)..];
    }
  }

  /**
   * A table of descriptors stored at `view_table`'s offset reads back as
   * itself, whatever follows it.
   */
  lemma {:induction false} ViewTableRoundTrip(prefix: seq<u8>, segs: seq<Seg>, rest: seq<u8>, outlier_num: nat)
    requires |segs| > 0 ==> |prefix| == ViewTableOffset(outlier_num, |segs|)
    ensures ViewTable(prefix + SegsToBytes(segs) + rest, outlier_num, |segs|) == segs
  {
    var r := ViewTable(prefix + SegsToBytes(segs) + rest, outlier_num, |segs|);
    forall k: nat | k < |segs|
      ensures r[k] == segs[k]
    {
      ViewTableEntryRoundTrip(prefix, segs, rest, outlier_num, k);
    }
  }

  /** The k-th descriptor of a stored table reads back as itself. */
  lemma {:induction false} ViewTableEntryRoundTrip(prefix: seq<u8>, segs: seq<Seg>, rest: seq<u8>, outlier_num: nat, k: nat)
    requires k < |segs| && |prefix| == ViewTableOffset(outlier_num, |segs|)
    ensures ViewTable(prefix + SegsToBytes(segs) + rest, outlier_num, |segs|)[k] == segs[k]
  {
    var payload := prefix + SegsToBytes(segs) + rest;
    var entry := payload[|prefix| + SEG_METADATA_SIZE * k..];
    var tail := SegsToBytes(segs[k + 1..]) + rest;
    assert ViewTable(payload, outlier_num, |segs|)[k] == SegFromBytes(entry) by {
      ViewTableEntry(payload, outlier_num, |segs|, k);
    }
    assert entry == SegToBytes(segs[k]) + tail by {
      DescriptorAt(prefix, segs, rest, k);
    }
    SegBytesRoundTrip(segs[k], tail);
  }

  /** The k-th descriptor of `view_table` is read from 12 * k bytes past the table's offset. */
  lemma {:induction false} ViewTableEntry(payload: seq<u8>, outlier_num: nat, seg_num: nat, k: nat)
    requires k < seg_num && ViewTableOffset(outlier_num, seg_num) + SEG_METADATA_SIZE * seg_num <= |payload|
    ensures ViewTableOffset(outlier_num, seg_num) + SEG_METADATA_SIZE * k + SEG_METADATA_SIZE <= |payload|
    ensures ViewTable(payload, outlier_num, seg_num)[k]
              == SegFromBytes(payload[ViewTableOffset(outlier_num, seg_num) + SEG_METADATA_SIZE * k..])
  {
    DescriptorsAt(payload, ViewTableOffset(outlier_num, seg_num), seg_num, k);
  }

  /** The bytes from the k-th descriptor of a stored table on. */
  lemma {:induction false} DescriptorAt(prefix: seq<u8>, segs: seq<Seg>, rest: seq<u8>, k: nat)
    requires k < |segs|
    ensures (prefix + SegsToBytes(segs) + rest)[|prefix| + SEG_METADATA_SIZE * k..]
              == SegToBytes(segs[k]) + (SegsToBytes(segs[k + 1..]) + rest)
  {
    var payload := prefix + SegsToBytes(segs) + rest;
    var off := |prefix|;
    SegsBytesFrom(segs, k);
    assert payload[off..] == SegsToBytes(segs) + rest;
    assert payload[off + SEG_METADATA_SIZE * k..] == SegsToBytes(segs)[SEG_METADATA_SIZE * k..] + rest;
  }
}
