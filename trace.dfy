// The 16-byte replay trace records: the reader iterator, the replay that keeps
// each LBA's last written PBA, and the conversion of that map to a vector
// sorted by LBA.

module Trace {
  import opened Common

  const RECORD_SIZE: nat := 16
  const OP_WRITE: u8 := 1
  const OP_READ: u8 := 0

  datatype OpRec = OpRec(op: u8, lba: u64, pba: u64)

  /** An I/O error other than end-of-file, at a byte offset of the input. */
  datatype IoError = IoError(at: nat)

  // ---------------------------------------------------------------------
  // Record format.

  /**
   * The bytes a record is written as: lba as u64 LE, then `(op << 60) | (pba & 0x0FFF...F)`
   * as u64 LE.
   */
  function RecordBytes(lba: u64, op: nat, pba: nat): (r: seq<u8>)
    requires op < 16
    ensures |r| == RECORD_SIZE
  {
    LeBytes(lba, 8) + LeBytes(op * TWO60 + pba % TWO60, 8)
  }

  /** Decodes one record: op is the top 4 bits of the second word, pba its low 60 bits. */
  function DecodeRecord(buf: seq<u8>): (r: OpRec)
    requires |buf| == RECORD_SIZE
    ensures r.op < 16 && r.pba < TWO60
  {
    LeBound8(buf[0..8]);
    LeBound8(buf[8..16]);
    var meta := LeValue(buf[8..16]);
    MetaParts(meta);
    OpRec(meta / TWO60, LeValue(buf[0..8]), meta % TWO60)
  }

  /** Every 16-byte buffer is the encoding of the record it decodes to. */
  lemma {:induction false} RecordBytesOfDecode(buf: seq<u8>)
    requires |buf| == RECORD_SIZE
    ensures var r := DecodeRecord(buf); RecordBytes(r.lba, r.op, r.pba) == buf
  {
    var lo, hi := buf[0..8], buf[8..16];
    var meta := LeValue(hi);
    var r := DecodeRecord(buf);
    assert r.lba == LeValue(lo) && r.op as nat == meta / TWO60 && r.pba as nat == meta % TWO60;
    assert r.op as nat * TWO60 + r.pba as nat % TWO60 == meta by { MetaParts(meta); }
    assert RecordBytes(r.lba, r.op as nat, r.pba as nat) == LeBytes(LeValue(lo), 8) + LeBytes(meta, 8);
    LeBytesOfLeValue(lo);
    LeBytesOfLeValue(hi);
    SplitTwo(buf, 8);
  }

  /** A u64 is its top 4 bits above its low 60. */
  lemma {:induction false} MetaParts(meta: u64)
    ensures meta / TWO60 < 16 && (meta / TWO60) * TWO60 + (meta % TWO60) % TWO60 == meta
  {
    ModSmall(meta % TWO60, TWO60);
  }

  /** Decoding what was written gives back the lba, the op and the low 60 bits of the pba. */
  lemma {:induction false} DecodeRecordBytes(lba: u64, op: nat, pba: nat)
    requires op < 16
    ensures DecodeRecord(RecordBytes(lba, op, pba)) == OpRec(op, lba, pba % TWO60)
  {
    var buf := RecordBytes(lba, op, pba);
    var meta := op * TWO60 + pba % TWO60;
    assert meta < TWO64;
    assert buf[0..8] == LeBytes(lba, 8);
    assert buf[8..16] == LeBytes(meta, 8);
    assert Pow2(64) == TWO64 by { Pow2Values(); }
    LeValueOfLeBytes(lba, 8);
    LeValueOfLeBytes(meta, 8);
    ModSmall(lba, TWO64);
    ModSmall(meta, TWO64);
    DivModOf(op, TWO60, pba % TWO60);
  }

  /** The i-th complete record of an input. */
  function RecordAt(input: seq<u8>, i: nat): OpRec
    requires RECORD_SIZE * (i + 1) <= |input|
  {
    DecodeRecord(input[RECORD_SIZE * i..RECORD_SIZE * i + RECORD_SIZE])
  }

  /** Every complete record of an input, in order; a trailing partial record is not one. */
  function Records(input: seq<u8>): (r: seq<OpRec>)
    ensures |r| == |input| / RECORD_SIZE
    ensures forall i :: 0 <= i < |r| ==> r[i] == RecordAt(input, i)
  {
    seq(|input| / RECORD_SIZE, i requires 0 <= i < |input| / RECORD_SIZE => RecordAt(input, i))
  }

  // ---------------------------------------------------------------------
  // Replay.

  predicate IsWriteTo(rec: OpRec, lba: u64)
  {
    rec.op == OP_WRITE && rec.lba == lba
  }

  /** One step of `load_trace_map`: a write sets its lba (a u64::MAX pba removes it); a read changes nothing. */
  function Apply(m: map<u64, u64>, rec: OpRec): map<u64, u64>
  {
    if rec.op == OP_WRITE then
      if rec.pba == U64_MAX then m - {rec.lba} else m[rec.lba := rec.pba]
    else m
  }

  /** The map after replaying records in order from an empty one. */
  function Replay(recs: seq<OpRec>): map<u64, u64>
  {
    if recs == [] then map[] else Apply(Replay(recs[..|recs| - 1]), recs[|recs| - 1])
  }

  lemma {:induction false} ReplaySnoc(recs: seq<OpRec>, rec: OpRec)
    ensures Replay(recs + [rec]) == Apply(Replay(recs), rec)
  {
    assert (recs + [rec])[..|recs|] == recs;
  }

  /** An lba that no record writes is not in the replayed map. */
  lemma {:induction false} ReplayUnwritten(recs: seq<OpRec>, lba: u64)
    requires forall k :: 0 <= k < |recs| ==> !IsWriteTo(recs[k], lba)
    ensures lba !in Replay(recs)
  {
    if recs != [] {
      ReplayUnwritten(recs[..|recs| - 1], lba);
    }
  }

  /** An lba maps to the pba of its last write (and is absent if that pba is u64::MAX). */
  lemma {:induction false} ReplayLastWrite(recs: seq<OpRec>, lba: u64, j: nat)
    requires j < |recs| && IsWriteTo(recs[j], lba)
    requires forall k :: j < k < |recs| ==> !IsWriteTo(recs[k], lba)
    ensures recs[j].pba == U64_MAX ==> lba !in Replay(recs)
    ensures recs[j].pba != U64_MAX ==> lba in Replay(recs) && Replay(recs)[lba] == recs[j].pba
  {
    var n := |recs|;
    if j < n - 1 {
      ReplayLastWrite(recs[..n - 1], lba, j);
    }
  }

  // ---------------------------------------------------------------------
  // The reader.

  class TraceIter {
    /** The bytes the underlying reader delivers. */
    const input: seq<u8>
    /** The offset at which the reader fails with an error other than end-of-file, if any. */
    const failAt: Option<nat>
    var pos: nat

    constructor (input: seq<u8>, failAt: Option<nat>)
      ensures this.input == input && this.failAt == failAt && pos == 0
    {
      this.input := input;
      this.failAt := failAt;
      pos := 0;
    }

    /** The reader fails while filling the 16-byte buffer from `pos`. */
    predicate FailsHere()
      reads this
    {
      failAt.Some? && pos <= failAt.value < pos + RECORD_SIZE && failAt.value < |input|
    }

    /**
     * `read_exact` of 16 bytes: a full buffer decodes to a record; running out of
     * input is the clean end (None); any other failure is `Some(Err)`.
     */
    method Next() returns (item: Option<Result<OpRec, IoError>>)
      modifies this
      ensures old(FailsHere()) ==> item == Some(Err(IoError(failAt.value))) && pos == old(pos)
      ensures !old(FailsHere()) && old(pos) + RECORD_SIZE > |input| ==> item == None && pos == old(pos)
      ensures !old(FailsHere()) && old(pos) + RECORD_SIZE <= |input| ==>
                item == Some(Ok(DecodeRecord(input[old(pos)..old(pos) + RECORD_SIZE])))
                && pos == old(pos) + RECORD_SIZE
    {
      if FailsHere() {
        return Some(Err(IoError(failAt.value)));
      }
      if pos + RECORD_SIZE > |input| {
        return None;
      }
      var buf := input[pos..pos + RECORD_SIZE];
      pos := pos + RECORD_SIZE;
      return Some(Ok(DecodeRecord(buf)));
    }
  }

  /** The first complete records of an input, one per step of the reader. */
  lemma {:induction false} RecordsPrefix(input: seq<u8>, k: nat)
    requires RECORD_SIZE * (k + 1) <= |input|
    ensures Records(input[..RECORD_SIZE * (k + 1)])
              == Records(input[..RECORD_SIZE * k]) + [RecordAt(input, k)]
  {
    var a := Records(input[..RECORD_SIZE * (k + 1)]);
    var b := Records(input[..RECORD_SIZE * k]) + [RecordAt(input, k)];
    assert |a| == k + 1;
    forall i | 0 <= i < k + 1
      ensures a[i] == b[i]
    {
      assert input[..RECORD_SIZE * (k + 1)][RECORD_SIZE * i..RECORD_SIZE * i + RECORD_SIZE]
          == input[RECORD_SIZE * i..RECORD_SIZE * i + RECORD_SIZE];
      if i < k {
        assert input[..RECORD_SIZE * k][RECORD_SIZE * i..RECORD_SIZE * i + RECORD_SIZE]
            == input[RECORD_SIZE * i..RECORD_SIZE * i + RECORD_SIZE];
      }
    }
  }

  /**
   * Replays the whole trace. It fails with the reader's first error other than
   * end-of-file; otherwise every complete record is replayed in order.
   */
  method LoadTraceMap(input: seq<u8>, failAt: Option<nat>) returns (r: Result<map<u64, u64>, IoError>)
    ensures failAt.Some? && failAt.value < |input| ==> r == Err(IoError(failAt.value))
    ensures !(failAt.Some? && failAt.value < |input|) ==> r == Ok(Replay(Records(input)))
  {
    var it := new TraceIter(input, failAt);
    var m: map<u64, u64> := map[];
    var k: nat := 0;
    while true
      invariant it.input == input && it.failAt == failAt
      invariant it.pos == RECORD_SIZE * k <= |input|
      invariant failAt.Some? ==> it.pos <= failAt.value
      invariant m == Replay(Records(input[..RECORD_SIZE * k]))
      decreases |input| - it.pos
    {
      var item := it.Next();
      match item {
        case None =>
          RecordsOfTruncation(input, k);
          return Ok(m);
        case Some(Err(e)) =>
          return Err(e);
        case Some(Ok(rec)) =>
          assert rec == RecordAt(input, k);
          m := ApplyRecord(m, rec);
          ReplayStep(input, k);
          k := k + 1;
      }
    }
  }

  /** The body of the replay loop: the map update for one record. */
  method ApplyRecord(m: map<u64, u64>, rec: OpRec) returns (m2: map<u64, u64>)
    ensures m2 == Apply(m, rec)
  {
    m2 := m;
    if rec.op == OP_WRITE {
      if rec.pba == U64_MAX {
        m2 := m2 - {rec.lba};
      } else {
        m2 := m2[rec.lba := rec.pba];
      }
    }
  }

  /** Reading one more record applies it to the replayed map. */
  lemma {:induction false} ReplayStep(input: seq<u8>, k: nat)
    requires RECORD_SIZE * (k + 1) <= |input|
    ensures Replay(Records(input[..RECORD_SIZE * (k + 1)]))
              == Apply(Replay(Records(input[..RECORD_SIZE * k])), RecordAt(input, k))
  {
    RecordsPrefix(input, k);
    ReplaySnoc(Records(input[..RECORD_SIZE * k]), RecordAt(input, k));
  }

  /** Cutting a trailing partial record leaves the complete records unchanged. */
  lemma {:induction false} RecordsOfTruncation(input: seq<u8>, k: nat)
    requires RECORD_SIZE * k <= |input| < RECORD_SIZE * (k + 1)
    ensures Records(input[..RECORD_SIZE * k]) == Records(input)
  {
    var a, b := Records(input[..RECORD_SIZE * k]), Records(input);
    assert |input| / RECORD_SIZE == k;
    forall i | 0 <= i < k
      ensures a[i] == b[i]
    {
      assert input[..RECORD_SIZE * k][RECORD_SIZE * i..RECORD_SIZE * i + RECORD_SIZE]
          == input[RECORD_SIZE * i..RECORD_SIZE * i + RECORD_SIZE];
    }
  }

  // ---------------------------------------------------------------------
  // Sorted vector.

  predicate SortedByLba(v: seq<(u64, u64)>)
  {
    forall i, j :: 0 <= i < j < |v| ==> v[i].0 < v[j].0
  }

  /** Places an entry whose lba is new among the sorted entries. */
  function InsertByLba(v: seq<(u64, u64)>, e: (u64, u64)): (r: seq<(u64, u64)>)
    requires SortedByLba(v)
    requires forall i :: 0 <= i < |v| ==> v[i].0 != e.0
    ensures SortedByLba(r) && |r| == |v| + 1
    ensures forall x :: x in r <==> x in v || x == e
  {
    if v == [] then [e]
    else if e.0 < v[0].0 then [e] + v
    else
      var rest := InsertByLba(v[1..], e);
      assert forall x :: x in rest ==> v[0].0 < x.0;
      [v[0]] + rest
  }

  /**
   * The map's entries as (lba, pba) pairs sorted by lba: each entry exactly
   * once, nothing else.
   */
  method MapToSortedVec(m: map<u64, u64>) returns (v: seq<(u64, u64)>)
    ensures SortedByLba(v) && |v| == |m|
    ensures forall x :: x in v <==> x.0 in m && m[x.0] == x.1
  {
    var rest := m.Keys;
    v := [];
    while rest != {}
      invariant rest <= m.Keys
      invariant SortedByLba(v) && |v| + |rest| == |m|
      invariant forall x :: x in v <==> x.0 in m && x.0 !in rest && m[x.0] == x.1
      decreases |rest|
    {
      var k :| k in rest;
      forall i | 0 <= i < |v|
        ensures v[i].0 != k
      {
        assert v[i] in v;
      }
      v := InsertByLba(v, (k, m[k]));
      rest := rest - {k};
    }
  }
}
