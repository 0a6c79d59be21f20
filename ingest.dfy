// The trace generator of the data initialisation script: parsed events are
// turned into 16-byte replay records, with a simulated allocator handing out
// physical addresses and a shadow map remembering the latest one per LBA.

module Ingest {
  import opened Common
  import opened IngestParse
  import Trace

  const QUICK_LIMIT: nat := 1_000_000
  const FULL_LIMIT: nat := 100_000_000

  // ---------------------------------------------------------------------
  // What a sequence of parsed events produces.

  function OpOf(e: Event): nat
  {
    if e.write then 1 else 0
  }

  /** The number of writes among the events. */
  function Writes(evs: seq<Event>): (r: nat)
    ensures r <= |evs|
  {
    if evs == [] then 0 else Writes(evs[..|evs| - 1]) + OpOf(evs[|evs| - 1])
  }

  function Lookup(m: map<nat, nat>, lba: nat): nat
  {
    if lba in m then m[lba] else 0
  }

  /** The PBA recorded for event `e` after events `prior`: a fresh one for a write, the shadow (or 0) for a read. */
  function Pba(prior: seq<Event>, e: Event): nat
    decreases |prior|, 1
  {
    if e.write then 2 + Writes(prior) else Lookup(Shadow(prior), e.lba)
  }

  /** The shadow map after the events: each written LBA to the PBA of its latest write. */
  function Shadow(evs: seq<Event>): map<nat, nat>
    decreases |evs|, 0
  {
    if evs == [] then map[]
    else
      var prior, e := evs[..|evs| - 1], evs[|evs| - 1];
      if e.write then Shadow(prior)[e.lba := Pba(prior, e)] else Shadow(prior)
  }

  /** The largest LBA among the events, 0 when there are none. */
  function MaxLba(evs: seq<Event>): nat
  {
    if evs == [] then 0
    else
      var m := MaxLba(evs[..|evs| - 1]);
      if evs[|evs| - 1].lba > m then evs[|evs| - 1].lba else m
  }

  /** MaxLba bounds every event's LBA and is one of them (or 0 when there are none). */
  lemma {:induction false} MaxLbaIsMax(evs: seq<Event>)
    ensures forall i :: 0 <= i < |evs| ==> evs[i].lba <= MaxLba(evs)
    ensures MaxLba(evs) == 0 || exists i :: 0 <= i < |evs| && evs[i].lba == MaxLba(evs)
  {
    if evs != [] {
      var prior := evs[..|evs| - 1];
      MaxLbaIsMax(prior);
      assert forall i :: 0 <= i < |prior| ==> evs[i] == prior[i];
    }
  }

  /** The bytes written to the temporary file: one record per event. */
  function Output(evs: seq<Event>): (r: seq<u8>)
    ensures |r| == Trace.RECORD_SIZE * |evs|
  {
    if evs == [] then []
    else
      var prior, e := evs[..|evs| - 1], evs[|evs| - 1];
      Output(prior) + Trace.RecordBytes(e.lba % TWO64, OpOf(e), Pba(prior, e))
  }

  /** What `process_task` keeps between lines: the counters, the shadow map and the bytes written. */
  datatype Sim = Sim(count: nat, maxLba: nat, pbaCounter: nat, shadowMap: map<nat, nat>, out: seq<u8>)

  /** One recognised event, as `parseAndWrite` applies it to the state. */
  function Step(s: Sim, e: Event): Sim
  {
    var pba := if e.write then s.pbaCounter + 1 else Lookup(s.shadowMap, e.lba);
    Sim(s.count + 1,
        if e.lba > s.maxLba then e.lba else s.maxLba,
        if e.write then s.pbaCounter + 1 else s.pbaCounter,
        if e.write then s.shadowMap[e.lba := pba] else s.shadowMap,
        s.out + Trace.RecordBytes(e.lba % TWO64, OpOf(e), pba))
  }

  /** The state after the events, from the one `process_task` starts with. */
  function Simulate(evs: seq<Event>): Sim
  {
    if evs == [] then Sim(0, 0, 1, map[], [])
    else Step(Simulate(evs[..|evs| - 1]), evs[|evs| - 1])
  }

  /**
   * The simulated state holds the number of events, their largest LBA, one
   * more than the number of writes, the shadow map and the output records.
   */
  lemma {:induction false} SimulateSpec(evs: seq<Event>)
    ensures Simulate(evs) == Sim(|evs|, MaxLba(evs), 1 + Writes(evs), Shadow(evs), Output(evs))
    decreases |evs|
  {
    if evs != [] {
      var prior, e := evs[..|evs| - 1], evs[|evs| - 1];
      SimulateSpec(prior);
      assert prior + [e] == evs;
      SnocFacts(prior, e);
    }
  }

  lemma {:induction false} SnocFacts(evs: seq<Event>, e: Event)
    ensures (evs + [e])[..|evs|] == evs
    ensures Writes(evs + [e]) == Writes(evs) + OpOf(e)
    ensures Shadow(evs + [e]) == if e.write then Shadow(evs)[e.lba := Pba(evs, e)] else Shadow(evs)
    ensures MaxLba(evs + [e]) == if e.lba > MaxLba(evs) then e.lba else MaxLba(evs)
    ensures Output(evs + [e]) == Output(evs) + Trace.RecordBytes(e.lba % TWO64, OpOf(e), Pba(evs, e))
  {
    assert (evs + [e])[..|evs|] == evs;
  }

  lemma {:induction false} WritesMono(evs: seq<Event>, a: nat, b: nat)
    requires a <= b <= |evs|
    ensures Writes(evs[..a]) <= Writes(evs[..b])
    decreases b - a
  {
    if a < b {
      WritesMono(evs, a, b - 1);
      assert evs[..b][..b - 1] == evs[..b - 1];
    }
  }

  /** Writes get PBAs 2, 3, 4, ...: strictly increasing, whatever their LBAs. */
  lemma {:induction false} WritePbasIncrease(evs: seq<Event>, i: nat, j: nat)
    requires i < j < |evs| && evs[i].write && evs[j].write
    ensures 2 <= Pba(evs[..i], evs[i]) < Pba(evs[..j], evs[j])
  {
    WritesMono(evs, i + 1, j);
    assert evs[..i + 1][..i] == evs[..i];
  }

  /** A read of an LBA that was never written records PBA 0. */
  lemma {:induction false} ShadowUnwritten(evs: seq<Event>, lba: nat)
    requires forall k :: 0 <= k < |evs| ==> !(evs[k].write && evs[k].lba == lba)
    ensures lba !in Shadow(evs)
  {
    if evs != [] {
      ShadowUnwritten(evs[..|evs| - 1], lba);
    }
  }

  /** A read records the PBA of the latest earlier write to its LBA. */
  lemma {:induction false} ShadowLastWrite(evs: seq<Event>, lba: nat, j: nat)
    requires j < |evs| && evs[j].write && evs[j].lba == lba
    requires forall k :: j < k < |evs| ==> !(evs[k].write && evs[k].lba == lba)
    ensures lba in Shadow(evs) && Shadow(evs)[lba] == Pba(evs[..j], evs[j])
  {
    var prior := evs[..|evs| - 1];
    if j < |evs| - 1 {
      ShadowLastWrite(prior, lba, j);
      assert prior[..j] == evs[..j];
    } else {
      assert prior == evs[..j];
    }
  }

  /** Every mapped LBA is at most the maximum LBA, and every mapped PBA was handed out. */
  lemma {:induction false} ShadowRange(evs: seq<Event>)
    ensures forall lba | lba in Shadow(evs) :: lba <= MaxLba(evs) && 2 <= Shadow(evs)[lba] <= 1 + Writes(evs)
  {
    if evs != [] {
      var prior, e := evs[..|evs| - 1], evs[|evs| - 1];
      ShadowRange(prior);
      SnocFacts(prior, e);
      assert evs == prior + [e];
    }
  }

  /** A shadow map whose keys and values fit in u64, as a u64 map. */
  function Narrow(m: map<nat, nat>): (r: map<u64, u64>)
    requires forall k | k in m :: k < TWO64 && m[k] < TWO64
    ensures forall k: u64 :: (k in r <==> k in m) && (k in r ==> r[k] == m[k])
  {
    map k: u64 | k in m :: m[k]
  }

  /**
   * Replaying the generated file gives the shadow map: the golden mapping the
   * replay loader rebuilds is the one the generator simulated, as long as LBAs
   * fit in 64 bits and PBAs in 60.
   */
  lemma {:induction false} GoldenReplay(evs: seq<Event>)
    requires MaxLba(evs) < TWO64 && 1 + Writes(evs) < TWO60
    ensures forall k | k in Shadow(evs) :: k < TWO64 && Shadow(evs)[k] < TWO64
    ensures Trace.Replay(Trace.Records(Output(evs))) == Narrow(Shadow(evs))
  {
    ShadowRange(evs);
    if evs == [] {
      assert Trace.Records(Output(evs)) == [];
    } else {
      var prior, e := evs[..|evs| - 1], evs[|evs| - 1];
      assert evs == prior + [e];
      SnocFacts(prior, e);
      ShadowRange(prior);
      GoldenReplay(prior);
      RecordsSnoc(prior, e);
      Trace.ReplaySnoc(Trace.Records(Output(prior)), Trace.OpRec(OpOf(e), e.lba, Pba(prior, e)));
      NarrowStep(prior, e);
    }
  }

  /** The record written for one more event decodes to that event's op, LBA and PBA. */
  lemma {:induction false} RecordsSnoc(prior: seq<Event>, e: Event)
    requires e.lba < TWO64 && Pba(prior, e) < TWO60
    ensures Trace.Records(Output(prior + [e]))
              == Trace.Records(Output(prior)) + [Trace.OpRec(OpOf(e), e.lba, Pba(prior, e))]
  {
    SnocFacts(prior, e);
    var pba := Pba(prior, e);
    var rb := Trace.RecordBytes(e.lba % TWO64, OpOf(e), pba);
    var out := Output(prior + [e]);
    var n := Trace.RECORD_SIZE * |prior|;
    assert out == Output(prior) + rb;
    Trace.RecordsPrefix(out, |prior|);
    assert out[..n + Trace.RECORD_SIZE] == out;
    assert out[..n] == Output(prior);
    assert out[n..n + Trace.RECORD_SIZE] == rb;
    ModSmall(e.lba, TWO64);
    ModSmall(pba, TWO60);
    Trace.DecodeRecordBytes(e.lba, OpOf(e), pba);
  }

  lemma {:induction false} NarrowStep(prior: seq<Event>, e: Event)
    requires forall k | k in Shadow(prior) :: k < TWO64 && Shadow(prior)[k] < TWO64
    requires forall k | k in Shadow(prior + [e]) :: k < TWO64 && Shadow(prior + [e])[k] < TWO64
    requires e.lba < TWO64 && Pba(prior, e) < TWO60
    ensures Narrow(Shadow(prior + [e]))
              == Trace.Apply(Narrow(Shadow(prior)), Trace.OpRec(OpOf(e), e.lba, Pba(prior, e)))
  {
    SnocFacts(prior, e);
    var a := Narrow(Shadow(prior + [e]));
    var b := Trace.Apply(Narrow(Shadow(prior)), Trace.OpRec(OpOf(e), e.lba, Pba(prior, e)));
    assert a.Keys == b.Keys;
  }

  // ---------------------------------------------------------------------
  // The generator's state.

  /**
   * The line parser recognises nothing in a blank line and sees through
   * surrounding white space, so trimming first changes nothing.
   */
  ghost predicate TrimsFirst(parse: string -> Option<Event>)
  {
    parse([]) == None && forall raw :: parse(Trim(raw)) == parse(raw)
  }

  lemma ParseLineTrimsFirst()
    ensures TrimsFirst(ParseLine)
  {
    forall raw: string
      ensures ParseLine(Trim(raw)) == ParseLine(raw)
    {
      ParseTrimmed(raw);
    }
  }

  /**
   * The state of `process_task` that `parseAndWrite` updates. The line parser
   * is a constant of the generator (ProcessTask passes ParseLine), so that the
   * line loops are proved for any parser that trims first.
   */
  class Generator {
    const parse: string -> Option<Event>
    var count: nat
    var maxLba: nat
    var pbaCounter: nat
    var shadowMap: map<nat, nat>
    /** The bytes written to the temporary file so far. */
    var out: seq<u8>
    /** The events parsed so far. */
    ghost var events: seq<Event>

    ghost predicate Valid()
      reads this
    {
      count == |events| && Sim(count, maxLba, pbaCounter, shadowMap, out) == Simulate(events) && TrimsFirst(parse)
    }

    constructor (parse: string -> Option<Event>)
      requires TrimsFirst(parse)
      ensures Valid() && events == [] && this.parse == parse
      ensures count == 0 && maxLba == 0 && pbaCounter == 1 && shadowMap == map[] && out == []
    {
      this.parse := parse;
      count, maxLba, pbaCounter, shadowMap, out := 0, 0, 1, map[], [];
      events := [];
    }

    /** `parseAndWrite`: a recognised line appends one record and updates the simulation; any other line changes nothing. */
    method ParseAndWrite(line: string) returns (wrote: bool)
      modifies this
      requires Valid()
      ensures Valid()
      ensures wrote == parse(line).Some?
      ensures events == old(events) + Opt(parse(line))
    {
      var parsed := parse(line);
      if parsed.None? {
        return false;
      }
      Emit(parsed.value);
      return true;
    }

    /** The simulation and record-writing half of `parseAndWrite`, for one parsed event. */
    method Emit(e: Event)
      modifies this
      requires Valid()
      ensures Valid() && events == old(events) + [e]
    {
      ghost var prior := events;
      assert (prior + [e])[..|prior|] == prior;
      if e.lba > maxLba {
        maxLba := e.lba;
      }
      var pba: nat;
      var op: nat;
      if e.write {
        op := 1;
        pbaCounter := pbaCounter + 1;
        pba := pbaCounter;
        shadowMap := shadowMap[e.lba := pba];
      } else {
        op := 0;
        pba := if e.lba in shadowMap then shadowMap[e.lba] else 0;
      }
      out := out + Trace.RecordBytes(e.lba % TWO64, op, pba);
      count := count + 1;
      events := events + [e];
    }

    /**
     * Reads one file, given as its decoded chunks, line by line until the end or
     * until `limit` records exist; the last line needs no newline.
     */
    method ReadFile(chunks: seq<string>, limit: nat)
      modifies this
      requires Valid() && count <= limit
      ensures Valid() && count <= limit
      ensures events == old(events) + Take(Collect(Lines(Concat(chunks)), parse), limit - old(count))
    {
      ghost var e0 := events;
      ghost var done: seq<string> := [];
      var rest: string := [];
      var ci := 0;
      while count < limit
        invariant Valid() && count <= limit && ci <= |chunks|
        invariant Concat(chunks[..ci]) == Terminated(done) + rest && NoNewline(done)
        invariant events == e0 + Collect(done, parse)
        invariant count < limit ==> '\n' !in rest
        decreases |chunks| - ci
      {
        var eof := ci == |chunks|;
        var chunk := if eof then [] else chunks[ci];
        var str := rest + chunk;
        ghost var e1 := events;
        var last, here := ScanLines(str, limit);
        ChunkStep(chunks, ci, eof, done, rest, here, str[last..], e0, e1, events, parse);
        rest := str[last..];
        done := done + here;
        if eof {
          assert count == |e1| < limit by { assert str == rest + []; }
          FinishFile(chunks, done, rest, e0, limit - old(count));
          return;
        }
        ci := ci + 1;
      }
      LimitLines(chunks, ci, done, rest, limit - old(count), parse);
    }

    /** At the end of the file, the unterminated rest is the last line. */
    method FinishFile(ghost chunks: seq<string>, ghost done: seq<string>, rest: string,
                      ghost e0: seq<Event>, ghost n: nat)
      modifies this
      requires Valid() && Concat(chunks) == Terminated(done) + rest && NoNewline(done) && '\n' !in rest
      requires events == e0 + Collect(done, parse) && |events| < |e0| + n
      ensures Valid() && events == e0 + Take(Collect(Lines(Concat(chunks)), parse), n)
    {
      ghost var e2 := events;
      HandleLine(rest);
      EofFinish(chunks, done, rest, e0, e2, events, n, parse);
    }

    /**
     * The inner loop over one decoded string: each complete line, trimmed, is
     * parsed while fewer than `limit` records exist; `last` is where the
     * unconsumed text starts.
     */
    method ScanLines(str: string, limit: nat) returns (last: nat, ghost here: seq<string>)
      modifies this
      requires Valid() && count <= limit
      ensures Valid() && old(count) <= count <= limit && last <= |str|
      ensures str[..last] == Terminated(here) && NoNewline(here)
      ensures events == old(events) + Collect(here, parse)
      ensures count < limit ==> '\n' !in str[last..]
      ensures '\n' !in str ==> last == 0 && count == old(count)
    {
      ghost var e1, c1 := events, count;
      here := [];
      last := 0;
      var nl := IndexOf(str, '\n', 0);
      while nl != -1 && count < limit
        invariant Valid() && c1 <= count <= limit
        invariant 0 <= last <= |str| && nl == IndexOf(str, '\n', last)
        invariant str[..last] == Terminated(here) && NoNewline(here)
        invariant events == e1 + Collect(here, parse)
        invariant '\n' !in str ==> last == 0 && count == c1
        decreases |str| - last
      {
        ghost var seg := str[last..nl];
        ScanStep(str, last, nl, here);
        ghost var before := events;
        HandleLine(str[last..nl]);
        CollectStep(e1, here, seg, before, events, parse);
        here := here + [seg];
        last := nl + 1;
        nl := IndexOf(str, '\n', last);
      }
    }

    /** The loop of `process_task` over the input files, stopping once `limit` records exist. */
    method ReadFiles(files: seq<seq<string>>, limit: nat)
      modifies this
      requires Valid() && events == []
      ensures Valid() && events == Take(Collect(AllLines(files), parse), limit)
    {
      var fi := 0;
      while fi < |files|
        invariant fi <= |files| && Valid() && count <= limit
        invariant events == Take(Collect(AllLines(files[..fi]), parse), limit)
      {
        if count >= limit {
          break;
        }
        ghost var before := events;
        assert |before| < limit;
        ReadFile(files[fi], limit);
        AllLinesStep(files, fi, limit, before, events, parse);
        fi := fi + 1;
      }
      AllLinesDone(files, fi, limit, events, parse);
    }

    /** One complete line of the inner loop: trimmed, and parsed unless blank. */
    method HandleLine(raw: string)
      modifies this
      requires Valid()
      ensures Valid() && events == old(events) + Collect([raw], parse)
    {
      var line := Trim(raw);
      CollectSnoc([], raw, parse);
      assert parse(line) == parse(raw);
      if line != [] {
        var _ := ParseAndWrite(line);
      }
    }
  }

  /**
   * `process_task`: nothing happens when the final file exists (the result is 0);
   * otherwise the first `limit` recognised lines of all files become records,
   * moved to the final file with the maximum LBA written to the config, and the
   * result is that maximum.
   */
  method ProcessTask(files: seq<seq<string>>, limit: nat, finalExists: bool)
    returns (result: nat, finalFile: Option<seq<u8>>, config: Option<nat>)
    ensures finalExists ==> result == 0 && finalFile == None && config == None
    ensures !finalExists ==>
      var evs := Take(EventsOf(AllLines(files)), limit);
      && result == MaxLba(evs)
      && finalFile == (if evs == [] then None else Some(Output(evs)))
      && config == (if evs == [] then None else Some(MaxLba(evs)))
  {
    if finalExists {
      return 0, None, None;
    }
    ParseLineTrimsFirst();
    var g := new Generator(ParseLine);
    g.ReadFiles(files, limit);
    SimulateSpec(g.events);
    finalFile, config := None, None;
    if g.count > 0 {
      finalFile := Some(g.out);
      config := Some(g.maxLba);
    }
    result := g.maxLba;
  }

  // ---------------------------------------------------------------------
  // Text into lines.

  /** `s.indexOf(c, from)`: the first position at or after `from` holding c, or -1. */
  function IndexOf(s: string, c: char, from: nat): (r: int)
    requires from <= |s|
    ensures r == -1 || (from <= r < |s| && s[r] == c)
    ensures forall i :: from <= i < |s| && (r == -1 || i < r) ==> s[i] != c
    decreases |s| - from
  {
    if from == |s| then -1 else if s[from] == c then from else IndexOf(s, c, from + 1)
  }

  /** A file's text: its decoded chunks in order. */
  function Concat(chunks: seq<string>): string
  {
    if chunks == [] then [] else Concat(chunks[..|chunks| - 1]) + chunks[|chunks| - 1]
  }

  /** The pieces of a text between newlines. */
  function Lines(s: string): seq<string>
  {
    SplitOn(s, '\n')
  }

  /** Every line of every file, in order. */
  function AllLines(files: seq<seq<string>>): seq<string>
  {
    if files == [] then [] else AllLines(files[..|files| - 1]) + Lines(Concat(files[|files| - 1]))
  }

  /** Lines each followed by a newline. */
  function Terminated(lines: seq<string>): string
  {
    if lines == [] then [] else Terminated(lines[..|lines| - 1]) + lines[|lines| - 1] + ['\n']
  }

  predicate NoNewline(lines: seq<string>)
  {
    forall i :: 0 <= i < |lines| ==> '\n' !in lines[i]
  }

  /** The results of the lines that parse, in order. */
  function Collect<T>(lines: seq<string>, parse: string -> Option<T>): (r: seq<T>)
    ensures |r| <= |lines|
  {
    if lines == [] then []
    else
      var p := parse(lines[|lines| - 1]);
      Collect(lines[..|lines| - 1], parse) + (if p.Some? then [p.value] else [])
  }

  function Opt(p: Option<Event>): seq<Event>
  {
    if p.Some? then [p.value] else []
  }


  /** The events of the lines that parse, in order. */
  function EventsOf(lines: seq<string>): seq<Event>
  {
    Collect(lines, ParseLine)
  }

  /** The first n elements (all of them when there are fewer). */
  function Take<T>(s: seq<T>, n: nat): (r: seq<T>)
    ensures |r| == if n < |s| then n else |s|
    ensures r <= s
  {
    if n < |s| then s[..n] else s
  }

  lemma {:induction false} TerminatedSnoc(lines: seq<string>, line: string)
    ensures Terminated(lines + [line]) == Terminated(lines) + line + ['\n']
  {
    assert (lines + [line])[..|lines|] == lines;
  }

  lemma {:induction false} TerminatedAppend(a: seq<string>, b: seq<string>)
    ensures Terminated(a + b) == Terminated(a) + Terminated(b)
    decreases |b|
  {
    if b != [] {
      var init := b[..|b| - 1];
      TerminatedAppend(a, init);
      assert (a + b)[..|a + b| - 1] == a + init;
    } else {
      assert a + b == a;
    }
  }

  lemma {:induction false} CollectSnoc<T>(lines: seq<string>, line: string, parse: string -> Option<T>)
    ensures Collect(lines + [line], parse)
              == Collect(lines, parse) + (if parse(line).Some? then [parse(line).value] else [])
  {
    assert (lines + [line])[..|lines|] == lines;
  }

  lemma {:induction false} CollectAppend<T>(a: seq<string>, b: seq<string>, parse: string -> Option<T>)
    ensures Collect(a + b, parse) == Collect(a, parse) + Collect(b, parse)
    decreases |b|
  {
    if b != [] {
      var init := b[..|b| - 1];
      CollectAppend(a, init, parse);
      assert (a + b)[..|a + b| - 1] == a + init;
    } else {
      assert a + b == a;
    }
  }

  lemma {:induction false} ConcatAppend(a: seq<string>, b: seq<string>)
    ensures Concat(a + b) == Concat(a) + Concat(b)
    decreases |b|
  {
    if b != [] {
      var init := b[..|b| - 1];
      ConcatAppend(a, init);
      assert (a + b)[..|a + b| - 1] == a + init;
    } else {
      assert a + b == a;
    }
  }

  /** Splitting complete lines followed by anything gives those lines first. */
  lemma {:induction false} SplitTerminated(done: seq<string>, x: string)
    requires NoNewline(done)
    ensures Lines(Terminated(done) + x) == done + Lines(x)
    decreases |done|
  {
    if done != [] {
      var init, last := done[..|done| - 1], done[|done| - 1];
      assert Terminated(done) + x == Terminated(init) + (last + ['\n'] + x);
      assert '\n' !in last;
      SplitTerminated(init, last + ['\n'] + x);
      SplitField(last, '\n', x);
      assert done + Lines(x) == init + ([last] + Lines(x));
    } else {
      assert Terminated(done) + x == x;
    }
  }

  lemma {:induction false} ConcatChunk(chunks: seq<string>, ci: nat, eof: bool)
    requires ci <= |chunks| && eof == (ci == |chunks|)
    ensures !eof ==> Concat(chunks[..ci + 1]) == Concat(chunks[..ci]) + chunks[ci]
    ensures eof ==> Concat(chunks) == Concat(chunks[..ci])
  {
    if !eof {
      assert chunks[..ci + 1][..ci] == chunks[..ci];
    } else {
      assert chunks[..ci] == chunks;
    }
  }

  /** At the end of a file, the complete lines and the unterminated tail are all of its lines. */
  lemma {:induction false} EofLines(chunks: seq<string>, done: seq<string>, tail: string)
    requires Concat(chunks) == Terminated(done) + tail && NoNewline(done) && '\n' !in tail
    ensures Lines(Concat(chunks)) == done + [tail]
  {
    SplitTerminated(done, tail);
    SplitWhole(tail, '\n');
  }

  /** Stopping at the limit after complete lines keeps exactly the events the limit allows. */
  lemma {:induction false} LimitLines<T>(chunks: seq<string>, ci: nat, done: seq<string>, rest: string, n: nat,
                                          parse: string -> Option<T>)
    requires ci <= |chunks| && Concat(chunks[..ci]) == Terminated(done) + rest && NoNewline(done)
    requires |Collect(done, parse)| == n
    ensures Take(Collect(Lines(Concat(chunks)), parse), n) == Collect(done, parse)
  {
    assert chunks == chunks[..ci] + chunks[ci..];
    ConcatAppend(chunks[..ci], chunks[ci..]);
    assert Concat(chunks) == Terminated(done) + (rest + Concat(chunks[ci..]));
    SplitTerminated(done, rest + Concat(chunks[ci..]));
    CollectAppend(done, Lines(rest + Concat(chunks[ci..])), parse);
  }

  lemma {:induction false} AllLinesStep<T>(files: seq<seq<string>>, fi: nat, limit: nat, before: seq<T>, after: seq<T>,
                                            parse: string -> Option<T>)
    requires fi < |files|
    requires before == Take(Collect(AllLines(files[..fi]), parse), limit) && |before| < limit
    requires after == before + Take(Collect(Lines(Concat(files[fi])), parse), limit - |before|)
    ensures after == Take(Collect(AllLines(files[..fi + 1]), parse), limit)
  {
    var a, b := Collect(AllLines(files[..fi]), parse), Collect(Lines(Concat(files[fi])), parse);
    assert Collect(AllLines(files[..fi + 1]), parse) == a + b by {
      assert files[..fi + 1][..fi] == files[..fi];
      CollectAppend(AllLines(files[..fi]), Lines(Concat(files[fi])), parse);
    }
    assert before == a;
    TakeAppend(a, b, limit);
  }

  lemma {:induction false} TakeAppend<T>(a: seq<T>, b: seq<T>, n: nat)
    requires |a| <= n
    ensures Take(a + b, n) == a + Take(b, n - |a|)
  {
    if n < |a + b| {
      assert (a + b)[..n] == a + b[..n - |a|];
    }
  }

  lemma {:induction false} AllLinesDone<T>(files: seq<seq<string>>, fi: nat, limit: nat, evs: seq<T>,
                                            parse: string -> Option<T>)
    requires fi <= |files| && evs == Take(Collect(AllLines(files[..fi]), parse), limit)
    requires fi < |files| ==> |evs| >= limit
    ensures evs == Take(Collect(AllLines(files), parse), limit)
  {
    if fi < |files| {
      AllLinesPrefix(files, fi, parse);
    } else {
      assert files[..fi] == files;
    }
  }

  lemma {:induction false} AllLinesPrefix<T>(files: seq<seq<string>>, fi: nat, parse: string -> Option<T>)
    requires fi <= |files|
    ensures Collect(AllLines(files[..fi]), parse) <= Collect(AllLines(files), parse)
    decreases |files| - fi
  {
    if fi < |files| {
      var a, b := Collect(AllLines(files[..fi]), parse), Collect(AllLines(files[..fi + 1]), parse);
      AllLinesPrefix(files, fi + 1, parse);
      assert b == a + Collect(Lines(Concat(files[fi])), parse) by {
        assert files[..fi + 1][..fi] == files[..fi];
        CollectAppend(AllLines(files[..fi]), Lines(Concat(files[fi])), parse);
      }
      PrefixTrans(a, b, Collect(AllLines(files), parse));
    } else {
      assert files[..fi] == files;
    }
  }

  lemma {:induction false} PrefixTrans<T>(a: seq<T>, b: seq<T>, c: seq<T>)
    requires a <= b && b <= c
    ensures a <= c
  {
    assert a == b[..|a|];
    assert b == c[..|b|];
    assert c[..|b|][..|a|] == c[..|a|];
  }

  lemma {:induction false} CollectStep<T>(e1: seq<T>, here: seq<string>, seg: string,
                                          before: seq<T>, after: seq<T>, parse: string -> Option<T>)
    requires before == e1 + Collect(here, parse) && after == before + Collect([seg], parse)
    ensures after == e1 + Collect(here + [seg], parse)
  {
    CollectAppend(here, [seg], parse);
  }

  lemma {:induction false} CollectStepAll<T>(e0: seq<T>, done: seq<string>, here: seq<string>,
                                             e1: seq<T>, e2: seq<T>, parse: string -> Option<T>)
    requires e1 == e0 + Collect(done, parse) && e2 == e1 + Collect(here, parse)
    ensures e2 == e0 + Collect(done + here, parse)
  {
    CollectAppend(done, here, parse);
  }

  /** At the end of a file, the results kept are those of all its lines. */
  lemma {:induction false} EofFinish<T>(chunks: seq<string>, done: seq<string>, tail: string,
                                        e0: seq<T>, e2: seq<T>, evs: seq<T>, n: nat, parse: string -> Option<T>)
    requires Concat(chunks) == Terminated(done) + tail && NoNewline(done) && '\n' !in tail
    requires e2 == e0 + Collect(done, parse) && evs == e2 + Collect([tail], parse)
    requires |evs| <= |e0| + n
    ensures evs == e0 + Take(Collect(Lines(Concat(chunks)), parse), n)
  {
    EofLines(chunks, done, tail);
    CollectAppend(done, [tail], parse);
    assert Collect(Lines(Concat(chunks)), parse) == Collect(done, parse) + Collect([tail], parse);
  }

  /** One more complete line: the text up to and including its newline. */
  lemma {:induction false} ScanStep(str: string, last: nat, nl: nat, here: seq<string>)
    requires last <= nl < |str| && str[nl] == '\n'
    requires forall i :: last <= i < nl ==> str[i] != '\n'
    requires str[..last] == Terminated(here) && NoNewline(here)
    ensures str[..nl + 1] == Terminated(here + [str[last..nl]]) && NoNewline(here + [str[last..nl]])
  {
    var seg := str[last..nl];
    TerminatedSnoc(here, seg);
    assert str[..nl + 1] == str[..last] + seg + ['\n'];
    assert '\n' !in seg;
    assert forall i :: 0 <= i < |here| ==> (here + [seg])[i] == here[i];
  }

  /** One chunk of the outer loop: the text read so far and the results so far advance together. */
  lemma {:induction false} ChunkStep<T>(chunks: seq<string>, ci: nat, eof: bool, done: seq<string>, rest: string,
                                        here: seq<string>, tail: string,
                                        e0: seq<T>, e1: seq<T>, e2: seq<T>, parse: string -> Option<T>)
    requires ci <= |chunks| && eof == (ci == |chunks|)
    requires Concat(chunks[..ci]) == Terminated(done) + rest && NoNewline(done) && NoNewline(here)
    requires rest + (if eof then [] else chunks[ci]) == Terminated(here) + tail
    requires e1 == e0 + Collect(done, parse) && e2 == e1 + Collect(here, parse)
    ensures e2 == e0 + Collect(done + here, parse) && NoNewline(done + here)
    ensures !eof ==> Concat(chunks[..ci + 1]) == Terminated(done + here) + tail
    ensures eof ==> Concat(chunks) == Terminated(done + here) + tail
  {
    ConcatChunk(chunks, ci, eof);
    ChunkDone(Concat(chunks[..ci]), done, rest, if eof then [] else chunks[ci], here, tail);
    CollectStepAll(e0, done, here, e1, e2, parse);
    assert forall i :: 0 <= i < |done| ==> (done + here)[i] == done[i];
    assert forall i :: |done| <= i < |done + here| ==> (done + here)[i] == here[i - |done|];
  }

  /** After a chunk, the text so far is the complete lines so far followed by the unconsumed rest. */
  lemma {:induction false} ChunkDone(consumed: string, done: seq<string>, rest: string, chunk: string,
                                     here: seq<string>, tail: string)
    requires consumed == Terminated(done) + rest
    requires rest + chunk == Terminated(here) + tail
    ensures consumed + chunk == Terminated(done + here) + tail
  {
    TerminatedAppend(done, here);
    assert consumed + chunk == Terminated(done) + (rest + chunk);
  }
}
