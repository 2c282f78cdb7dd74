/**
 The UART input (src/device/uart_device.cpp) and the worker loop that drives it
 (DeviceManager::run_device in src/device/device_manager.cpp), over any run of the serial
 line. The line is a script of events; what the loop hands on is compared with what the
 script alone says should come out.
 */
module Uart {
  import opened Words
  import opened Frames
  import opened Scanner
  import opened FrameParsing
  import opened Sensor
  import opened SerialLine

  const SENSOR_FRAME_SIZE: nat := 18
  const MAX_PENDING: nat := 18

  /** The counters taken from the parser. */
  datatype ParserErrors = ParserErrors(crc: nat, length: nat, overflow: nat)

  datatype ErrorStats = ErrorStats(parser: ParserErrors, generic: nat) {
    function Total(): nat { parser.crc + parser.length + parser.overflow + generic }

    predicate Empty() { Total() == 0 }
  }

  function NoErrors(): (e: ErrorStats)
    ensures e.Empty()
  {
    ErrorStats(ParserErrors(0, 0, 0), 0)
  }

  datatype ReadResult = ReadResult(code: ReadCode, data: Option<SensorData>, stats: ErrorStats)

  // ----- what a byte stream is worth -----

  function Accepted(f: Frame): seq<SensorData> {
    if ParseSensorData(f).valid then [ParseSensorData(f)] else []
  }

  function Measured(fs: seq<Frame>): seq<SensorData> {
    if |fs| == 0 then [] else Measured(fs[..|fs| - 1]) + Accepted(fs[|fs| - 1])
  }

  /** Frames with a good checksum whose measurement is refused. */
  function Rejected(fs: seq<Frame>): nat {
    if |fs| == 0 then 0 else Rejected(fs[..|fs| - 1]) + 1 - |Accepted(fs[|fs| - 1])|
  }

  function Measurements(s: seq<Byte>): seq<SensorData> { Measured(StreamFrames(s)) }

  /** Every protocol error in a stream, by kind. */
  function Faults(s: seq<Byte>): ErrorStats {
    ErrorStats(ParserErrors(StreamCrcErrors(s), StreamLengthErrors(s), 0), Rejected(StreamFrames(s)))
  }

  function AddStats(a: ErrorStats, b: ErrorStats): ErrorStats {
    ErrorStats(ParserErrors(a.parser.crc + b.parser.crc, a.parser.length + b.parser.length,
                            a.parser.overflow + b.parser.overflow),
               a.generic + b.generic)
  }

  lemma AddStatsAssociates(a: ErrorStats, b: ErrorStats, c: ErrorStats)
    ensures AddStats(AddStats(a, b), c) == AddStats(a, AddStats(b, c))
  {}

  lemma AddStatsTotal(a: ErrorStats, b: ErrorStats)
    ensures AddStats(a, b).Total() == a.Total() + b.Total()
    ensures b.Empty() ==> AddStats(a, b) == a
    ensures a.Empty() ==> AddStats(a, b) == b
  {}

  /** The faults of a stream by its bytes: complete candidates that are no frame, oversized
      lengths, and frames that give no measurement. */
  lemma {:induction false} FaultsByBytes(s: seq<Byte>)
    ensures |Scan(s).rest| <= |s|
    ensures var n := |s| - |Scan(s).rest|;
            && Faults(s).parser.crc == |BadCandidateOffsets(s, n)|
            && Faults(s).parser.length == |OversizedOffsets(s, n)|
            && Faults(s).parser.overflow == 0
            && Faults(s).generic + |Measurements(s)| == |StreamFrames(s)|
  {
    hide Scan, StreamFrames, StreamCrcErrors, StreamLengthErrors, BadCandidateOffsets, OversizedOffsets;
    StreamMeaning(s);
    EveryFrameCounts(StreamFrames(s));
  }

  /** Statistics add up kind by kind, and their total is that of all kinds. */
  lemma StatsByKind(a: ErrorStats, b: ErrorStats)
    ensures var c := AddStats(a, b);
            && c.parser.crc == a.parser.crc + b.parser.crc && c.parser.length == a.parser.length + b.parser.length
            && c.parser.overflow == a.parser.overflow + b.parser.overflow && c.generic == a.generic + b.generic
    ensures a.Total() == a.parser.crc + a.parser.length + a.parser.overflow + a.generic
    ensures a.Empty() <==> a.parser.crc == 0 && a.parser.length == 0 && a.parser.overflow == 0 && a.generic == 0
  {}

  lemma {:induction false} MeasuredAppend(a: seq<Frame>, b: seq<Frame>)
    ensures Measured(a + b) == Measured(a) + Measured(b)
    ensures Rejected(a + b) == Rejected(a) + Rejected(b)
    decreases |b|
  {
    hide ParseSensorData;
    if |b| == 0 {
      assert a + b == a;
    } else {
      assert (a + b)[..|a + b| - 1] == a + b[..|b| - 1];
      MeasuredAppend(a, b[..|b| - 1]);
    }
  }

  /** Every frame is either measured or counted as refused. */
  lemma {:induction false} EveryFrameCounts(fs: seq<Frame>)
    ensures |Measured(fs)| + Rejected(fs) == |fs|
  {
    hide ParseSensorData;
    if |fs| > 0 { EveryFrameCounts(fs[..|fs| - 1]); }
  }

  /** A frame is refused exactly when no reading in range has it as its encoding; otherwise that
      reading is what it gives. */
  lemma {:induction false} RefusedExact(f: Frame)
    ensures Rejected([f]) == 1 <==>
            forall d | InRange(d) && d.valid && d.warnings == [] ::
              !(f.deviceId == d.deviceId && f.cmd == d.cmd && f.payload == EncodePayload(d))
    ensures forall d | InRange(d) && d.valid && d.warnings == [] ::
              Measured([f]) == [d] <==> f.deviceId == d.deviceId && f.cmd == d.cmd && f.payload == EncodePayload(d)
  {
    hide ParseSensorData, EncodePayload, InRange;
    OneFrame(f);
    hide Measured, Rejected;
    forall d | InRange(d) && d.valid && d.warnings == []
      ensures ParseSensorData(f) == d <==>
              f.deviceId == d.deviceId && f.cmd == d.cmd && f.payload == EncodePayload(d)
    {
      ParseSensorExact(f, d);
    }
    if ParseSensorData(f).valid { AcceptedInRange(f); }
  }

  lemma {:induction false} OneFrame(f: Frame)
    ensures Measured([f]) == Accepted(f) && Rejected([f]) == 1 - |Accepted(f)|
  {
    hide Accepted;
    assert [f][..0] == [];
    assert [] + Accepted(f) == Accepted(f);
  }

  lemma {:induction false} BytesInAppend(a: seq<Frame>, b: seq<Frame>)
    ensures BytesIn(a + b) == BytesIn(a) + BytesIn(b)
    decreases |a|
  {
    if |a| == 0 {
      assert a + b == b;
    } else {
      assert (a + b)[1..] == a[1..] + b;
      BytesInAppend(a[1..], b);
    }
  }

  /** Each measurement took an 18-byte frame. */
  lemma {:induction false} MeasurementsTakeBytes(fs: seq<Frame>)
    ensures SENSOR_FRAME_SIZE * |Measured(fs)| <= BytesIn(fs)
    decreases |fs|
  {
    hide ParseSensorData;
    if |fs| > 0 {
      var init, f := fs[..|fs| - 1], fs[|fs| - 1];
      MeasurementsTakeBytes(init);
      assert fs == init + [f];
      BytesInAppend(init, [f]);
      if ParseSensorData(f).valid { AcceptedInRange(f); }
    }
  }

  lemma FewMeasurements(s: seq<Byte>)
    requires |s| < MAX_FRAME + READ_SIZE
    ensures |Measurements(s)| <= 18
  {
    hide Scan, FramesOf, Measured;
    Conservation(s);
    MeasurementsTakeBytes(StreamFrames(s));
  }

  /** The frame a terminal sends for a reading. */
  predicate Sends(f: Frame, d: SensorData) {
    && WellFormed(f) && InRange(d) && d.valid && d.warnings == []
    && f.deviceId == d.deviceId && f.cmd == d.cmd && f.payload == EncodePayload(d)
  }

  lemma {:induction false} AllMeasured(fs: seq<Frame>, ds: seq<SensorData>)
    requires |fs| == |ds| && forall i :: 0 <= i < |fs| ==> Sends(fs[i], ds[i])
    ensures Measured(fs) == ds && Rejected(fs) == 0
    decreases |fs|
  {
    hide ParseSensorData, EncodePayload, WellFormed;
    if |fs| > 0 {
      var n := |fs| - 1;
      AllMeasured(fs[..n], ds[..n]);
      assert Sends(fs[n], ds[n]);
      ParseSensorExact(fs[n], ds[n]);
      assert ds == ds[..n] + [ds[n]];
    }
  }

  /** End to end on a line whose noise contains no header: the readings the terminals encoded
      come out, all of them, in order, and no fault is counted. */
  lemma {:induction false} CleanSession(bursts: seq<Burst>, readings: seq<SensorData>)
    requires |bursts| == |readings|
    requires forall i :: 0 <= i < |bursts| ==> Sends(bursts[i].frame, readings[i]) && Quiet(bursts[i].noise)
    ensures forall i :: 0 <= i < |bursts| ==> WellFormed(bursts[i].frame)
    ensures Measurements(Line(bursts)) == readings && Faults(Line(bursts)).Empty()
  {
    hide Scan, FramesOf, Line, Measured, Rejected, Quiet, WellFormed;
    forall i | 0 <= i < |bursts| ensures WellFormed(bursts[i].frame) { assert Sends(bursts[i].frame, readings[i]); }
    CleanLine(bursts);
    AllMeasured(StreamFrames(Line(bursts)), readings);
  }

  // ----- the device -----

  class UartDevice {
    const parser: FrameParser
    var pending: seq<SensorData>
    var online: bool
    var errorCount: nat

    ghost predicate ParserValid()
      reads parser, parser.buffer, parser.buffer.storage
    {
      parser.Valid() && parser.crcErrorCount == parser.lengthErrorCount == parser.overflowByteCount == 0
    }

    ghost predicate Valid()
      reads this, parser, parser.buffer, parser.buffer.storage
    {
      ParserValid() && |pending| < MAX_PENDING
    }

    constructor ()
      ensures Valid() && pending == [] && errorCount == 0 && !online && parser.stream == []
      ensures fresh(parser) && fresh(parser.buffer) && fresh(parser.buffer.storage)
    {
      var p := new FrameParser();
      parser := p;
      pending, online, errorCount := [], false, 0;
    }

    method Start(portOpens: bool) returns (ok: bool)
      requires Valid()
      modifies this`online, this`errorCount, parser, parser.buffer
      ensures Valid() && ok == portOpens
      ensures portOpens ==> parser.stream == [] && online && errorCount == old(errorCount)
      ensures !portOpens ==>
                unchanged(parser, parser.buffer) && online == old(online) && errorCount == old(errorCount) + 1
    {
      if !portOpens {
        errorCount := errorCount + 1;
        return false;
      }
      parser.Reset();
      online := true;
      return true;
    }

    method Stop()
      modifies this`online
      ensures !online
    {
      online := false;
    }

    /** Turns frames into measurements, counting the refused ones. */
    method Collect(frames: seq<Frame>) returns (generic: nat)
      modifies this`pending
      ensures pending == old(pending) + Measured(frames) && generic == Rejected(frames)
    {
      hide ParseSensorData;
      generic := 0;
      for i := 0 to |frames|
        invariant pending == old(pending) + Measured(frames[..i]) && generic == Rejected(frames[..i])
      {
        assert frames[..i + 1][..i] == frames[..i];
        var data := ParseSensorData(frames[i]);
        if data.valid {
          pending := pending + [data];
        } else {
          generic := generic + 1;
        }
      }
      assert frames[..|frames|] == frames;
    }

    /** Feeds a chunk to the parser and queues what comes out. */
    method Ingest(data: seq<Byte>) returns (stats: ErrorStats)
      requires ParserValid() && pending == [] && |data| <= READ_SIZE
      modifies this`pending, parser, parser.buffer, parser.buffer.storage
      ensures ParserValid() && parser.stream == old(parser.stream) + data
      ensures Measurements(parser.stream) == Measurements(old(parser.stream)) + pending
      ensures Faults(parser.stream) == AddStats(Faults(old(parser.stream)), stats)
      ensures |pending| <= MAX_PENDING
    {
      hide StreamFrames, StreamCrcErrors, StreamLengthErrors, Measured, Rejected, Scan;
      ghost var before := parser.buffer.Contents();
      RestIsShort(parser.stream);
      var frames := parser.Feed(data);
      FewMeasurements(before + data);
      MeasuredAppend(StreamFrames(old(parser.stream)), frames);
      var crc := parser.TakeCrcErrorCount();
      var length := parser.TakeLengthErrorCount();
      var overflow := parser.TakeOverflowByteCount();
      var generic := Collect(frames);
      stats := ErrorStats(ParserErrors(crc, length, overflow), generic);
    }

    /** Queued data first, without touching the line. Otherwise one event of the line: a
        failure is reported as such, and a chunk extends the stream; the measurements the
        stream gains are returned or queued, in order, and the faults it gains are reported. */
    method Read(event: LineEvent) returns (r: ReadResult)
      requires Valid() && Possible(event)
      modifies this, parser, parser.buffer, parser.buffer.storage
      ensures Valid()
      ensures |old(pending)| > 0 ==>
                && r.code.Data? && r.data == Some(old(pending)[0]) && r.stats.Empty() && pending == old(pending)[1..]
                && errorCount == old(errorCount) && parser.stream == old(parser.stream) && online == old(online)
      ensures |old(pending)| == 0 && event.Broken? ==>
                && r.code.TransportError? && r.data.None? && r.stats.Empty() && pending == [] && !online
                && errorCount == old(errorCount) + 1 && parser.stream == old(parser.stream)
      ensures |old(pending)| == 0 && event.Silence? ==>
                && r.code.Timeout? && r.data.None? && r.stats.Empty() && pending == []
                && errorCount == old(errorCount) && parser.stream == old(parser.stream) && online == old(online)
      ensures |old(pending)| == 0 && event.Chunk? ==>
                && parser.stream == old(parser.stream) + event.data
                && Measurements(parser.stream) == Measurements(old(parser.stream)) + (Returned(r) + pending)
                && Faults(parser.stream) == AddStats(Faults(old(parser.stream)), r.stats)
                && errorCount == old(errorCount) + r.stats.Total()
                && (r.code.Data? <==> r.data.Some?)
                && (r.code.ProtocolError? <==> r.data.None? && !r.stats.Empty())
                && (r.code.Timeout? <==> r.data.None? && r.stats.Empty())
                && (r.data.None? ==> pending == []) && online == (old(online) || r.data.Some?)
    {
      hide Measurements, Faults, Scan, NoErrors, AddStats;
      if |pending| > 0 {
        r := ReadResult(Data, Some(pending[0]), NoErrors());
        pending := pending[1..];
        return;
      }
      if event.Broken? {
        errorCount := errorCount + 1;
        Stop();
        return ReadResult(TransportError, None, NoErrors());
      }
      if event.Silence? {
        return ReadResult(Timeout, None, NoErrors());
      }
      var stats := Ingest(event.data);
      if !stats.Empty() {
        errorCount := errorCount + stats.Total();
      }
      if |pending| == 0 {
        return ReadResult(if !stats.Empty() then ProtocolError else Timeout, None, stats);
      }
      r := ReadResult(Data, Some(pending[0]), stats);
      assert pending == [pending[0]] + pending[1..];
      pending := pending[1..];
      online := true;
    }
  }

  function Returned(r: ReadResult): seq<SensorData> {
    match r.data case Some(d) => [d] case None => []
  }

  // ----- what a run of the line is worth -----

  /** Whether the port is open after these events: every open and read but a broken one succeeds. */
  predicate Up(events: seq<LineEvent>) {
    |events| > 0 && !events[|events| - 1].Broken?
  }

  /** The byte streams received, one for each stretch between failures. */
  function Sessions(events: seq<LineEvent>): (ss: seq<seq<Byte>>)
    ensures Up(events) ==> |ss| > 0
  {
    if |events| == 0 then []
    else
      var before, e := events[..|events| - 1], events[|events| - 1];
      var ss := Sessions(before);
      if e.Broken? then ss
      else if Up(before) then ss[|ss| - 1 := ss[|ss| - 1] + Arrived(e)]
      else ss + [Arrived(e)]
  }

  function Arrived(e: LineEvent): seq<Byte> {
    if e.Chunk? then e.data else []
  }

  function Breaks(events: seq<LineEvent>): nat {
    if |events| == 0 then 0
    else Breaks(events[..|events| - 1]) + (if events[|events| - 1].Broken? then 1 else 0)
  }

  function AllMeasurements(ss: seq<seq<Byte>>): seq<SensorData> {
    if |ss| == 0 then [] else AllMeasurements(ss[..|ss| - 1]) + Measurements(ss[|ss| - 1])
  }

  function AllFaults(ss: seq<seq<Byte>>): ErrorStats {
    if |ss| == 0 then NoErrors() else AddStats(AllFaults(ss[..|ss| - 1]), Faults(ss[|ss| - 1]))
  }

  /** A call of the error handler. */
  datatype Report = Report(code: ReadCode, stats: ErrorStats)

  function ReportedFaults(rs: seq<Report>): ErrorStats {
    if |rs| == 0 then NoErrors() else AddStats(ReportedFaults(rs[..|rs| - 1]), rs[|rs| - 1].stats)
  }

  function TransportReports(rs: seq<Report>): nat {
    if |rs| == 0 then 0
    else TransportReports(rs[..|rs| - 1]) + (if rs[|rs| - 1].code.TransportError? then 1 else 0)
  }

  /** The bytes that a stretch of events brings. */
  function BytesOf(events: seq<LineEvent>): seq<Byte> {
    if |events| == 0 then [] else Arrived(events[0]) + BytesOf(events[1..])
  }

  lemma {:induction false} DataLast(events: seq<LineEvent>, e: LineEvent)
    ensures BytesOf(events + [e]) == BytesOf(events) + Arrived(e)
  {
    if |events| == 0 {
      assert (events + [e])[1..] == [];
    } else {
      assert (events + [e])[1..] == events[1..] + [e];
      DataLast(events[1..], e);
    }
  }

  /** A stretch without failures is one session holding all its bytes. */
  lemma {:induction false} OneSession(events: seq<LineEvent>)
    requires |events| > 0 && forall i :: 0 <= i < |events| ==> !events[i].Broken?
    ensures Sessions(events) == [BytesOf(events)]
  {
    var before, e := events[..|events| - 1], events[|events| - 1];
    assert events == before + [e];
    DataLast(before, e);
    SessionsStep(before, e);
    if |before| > 0 {
      OneSession(before);
    } else {
      NoSession();
      assert before == [] && [] + Arrived(e) == Arrived(e);
    }
    hide Sessions, BytesOf;
  }

  lemma NoSession()
    ensures Sessions([]) == [] && BytesOf([]) == [] && !Up([]) && Breaks([]) == 0
  {}

  /** A failure ends the session before it, and what follows makes sessions of its own. */
  lemma {:induction false} FailureSeparates(a: seq<LineEvent>, b: seq<LineEvent>)
    ensures Sessions(a + [Broken] + b) == Sessions(a) + Sessions(b)
    ensures |b| > 0 ==> Up(a + [Broken] + b) == Up(b)
    decreases |b|
  {
    hide Sessions, Up;
    var all := a + [Broken] + b;
    if |b| == 0 {
      assert all == a + [Broken] && b == [];
      SessionsStep(a, Broken);
      NoSession();
    } else {
      var n := |b| - 1;
      assert all == (a + [Broken] + b[..n]) + [b[n]] && b == b[..n] + [b[n]];
      FailureSeparates(a, b[..n]);
      SessionsStep(a + [Broken] + b[..n], b[n]);
      SessionsStep(b[..n], b[n]);
      if n > 0 {
        UpMeansSession(b[..n]);
      } else {
        assert b[..n] == [] && a + [Broken] + b[..n] == a + [Broken];
        SessionsStep(a, Broken);
        NoSession();
      }
    }
  }

  lemma {:induction false} UpMeansSession(events: seq<LineEvent>)
    ensures Up(events) ==> |Sessions(events)| > 0
  {}

  /** The failures are counted one by one. */
  lemma {:induction false} BreaksExact(events: seq<LineEvent>)
    ensures Breaks(events) == |set i | 0 <= i < |events| && events[i].Broken?|
  {
    if |events| > 0 {
      var n := |events| - 1;
      BreaksExact(events[..n]);
      var before := set i | 0 <= i < n && events[..n][i].Broken?;
      var all := set i | 0 <= i < |events| && events[i].Broken?;
      assert all == before + if events[n].Broken? then {n} else {};
    }
  }

  lemma NothingYet()
    ensures Measurements([]) == [] && Faults([]) == NoErrors()
  {
    hide Judge, Scan;
    EmptyScan();
  }

  /** How one more event changes what a run is worth. */
  lemma {:induction false} SessionsStep(events: seq<LineEvent>, e: LineEvent)
    ensures var after := events + [e];
            && Up(after) == !e.Broken?
            && Breaks(after) == Breaks(events) + (if e.Broken? then 1 else 0)
            && Sessions(after) ==
               if e.Broken? then Sessions(events)
               else if Up(events) then
                 var n := |Sessions(events)| - 1;
                 Sessions(events)[n := Sessions(events)[n] + Arrived(e)]
               else Sessions(events) + [Arrived(e)]
  {
    assert (events + [e])[..|events|] == events;
  }

  /** Extending the last stream, or opening a new one, by what a chunk brought. */
  lemma WorthStep(ss: seq<seq<Byte>>, s: seq<Byte>, t: seq<Byte>, more: seq<SensorData>, stats: ErrorStats)
    requires Measurements(t) == Measurements(s) + more
    requires Faults(t) == AddStats(Faults(s), stats)
    ensures |ss| > 0 && ss[|ss| - 1] == s ==>
              && AllMeasurements(ss[|ss| - 1 := t]) == AllMeasurements(ss) + more
              && AllFaults(ss[|ss| - 1 := t]) == AddStats(AllFaults(ss), stats)
    ensures s == [] ==>
              && AllMeasurements(ss + [t]) == AllMeasurements(ss) + more
              && AllFaults(ss + [t]) == AddStats(AllFaults(ss), stats)
  {
    hide Measurements, Faults, NoErrors, AddStats;
    if |ss| > 0 && ss[|ss| - 1] == s {
      var init := ss[..|ss| - 1];
      assert ss[|ss| - 1 := t][..|ss| - 1] == init;
      AddStatsAssociates(AllFaults(init), Faults(s), stats);
      assert AllMeasurements(init) + Measurements(t) == AllMeasurements(init) + Measurements(s) + more;
    }
    if s == [] {
      NothingYet();
      AddStatsTotal(Faults(s), stats);
      assert Measurements(t) == more;
      assert (ss + [t])[..|ss|] == ss;
    }
  }

  /** What the worker has done so far, and where its device stands. */
  datatype Run = Run(started: bool, stream: seq<Byte>, pending: seq<SensorData>,
                     handled: seq<SensorData>, reports: seq<Report>, errorCount: nat)

  /** The state of a run after a prefix of the script, as the script alone determines it. */
  ghost predicate OnScript(done: seq<LineEvent>, w: Run) {
    var ss := Sessions(done);
    && w.started == Up(done)
    && (w.started ==> ss[|ss| - 1] == w.stream)
    && (!w.started ==> w.pending == [])
    && w.handled + w.pending == AllMeasurements(ss)
    && ReportedFaults(w.reports) == AllFaults(ss)
    && TransportReports(w.reports) == Breaks(done)
    && w.errorCount == Breaks(done) + AllFaults(ss).Total()
  }

  lemma {:induction false} ReportStep(reports: seq<Report>, r: Report)
    ensures ReportedFaults(reports + [r]) == AddStats(ReportedFaults(reports), r.stats)
    ensures TransportReports(reports + [r]) == TransportReports(reports) + (if r.code.TransportError? then 1 else 0)
  {
    hide AddStats;
    assert (reports + [r])[..|reports|] == reports;
  }

  lemma FreshRun(stream: seq<Byte>)
    ensures OnScript([], Run(false, stream, [], [], [], 0))
  {}

  /** Handing a queued measurement on needs no event. */
  lemma HandOver(done: seq<LineEvent>, w: Run)
    requires OnScript(done, w) && |w.pending| > 0
    ensures w.started && OnScript(done, w.(pending := w.pending[1..], handled := w.handled + [w.pending[0]]))
  {
    hide Sessions, AllMeasurements, AllFaults, ReportedFaults, TransportReports, Breaks, Up;
    assert w.handled + [w.pending[0]] + w.pending[1..] == w.handled + w.pending;
  }

  lemma BrokenStep(done: seq<LineEvent>, w: Run, failure: Report)
    requires OnScript(done, w) && w.pending == [] && failure.code.TransportError? && failure.stats.Empty()
    ensures OnScript(done + [Broken],
                     w.(started := false, reports := w.reports + [failure], errorCount := w.errorCount + 1))
  {
    hide AllMeasurements, AllFaults, Sessions, Breaks, Up, ReportedFaults, TransportReports, Measurements, Faults,
         AddStats;
    SessionsStep(done, Broken);
    ReportStep(w.reports, failure);
    AddStatsTotal(ReportedFaults(w.reports), failure.stats);
  }

  lemma {:induction false} ArrivalWorth(done: seq<LineEvent>, stream: seq<Byte>, e: LineEvent, more: seq<SensorData>,
                                        stats: ErrorStats)
    requires !e.Broken?
    requires Up(done) ==> Sessions(done)[|Sessions(done)| - 1] == stream
    requires !Up(done) ==> stream == []
    requires Measurements(stream + Arrived(e)) == Measurements(stream) + more
    requires Faults(stream + Arrived(e)) == AddStats(Faults(stream), stats)
    ensures var ss, tt := Sessions(done), Sessions(done + [e]);
            && |tt| > 0 && tt[|tt| - 1] == stream + Arrived(e) && Up(done + [e]) && Breaks(done + [e]) == Breaks(done)
            && AllMeasurements(tt) == AllMeasurements(ss) + more
            && AllFaults(tt) == AddStats(AllFaults(ss), stats)
  {
    hide AllMeasurements, AllFaults, Sessions, Breaks, Up, Measurements, Faults, AddStats;
    SessionsStep(done, e);
    WorthStep(Sessions(done), stream, stream + Arrived(e), more, stats);
    assert [] + Arrived(e) == Arrived(e);
  }

  /** A silent or arriving event on an open port with nothing queued: the stream gains some
      measurements, one of which may be returned, and some faults. */
  lemma ArrivalStep(done: seq<LineEvent>, w: Run, e: LineEvent, stream: seq<Byte>,
                    out: seq<SensorData>, pending: seq<SensorData>, r: Report, reports: seq<Report>)
    requires !e.Broken? && OnScript(done, w) && w.pending == [] && !r.code.TransportError?
    requires w.started ==> stream == w.stream
    requires !w.started ==> stream == []
    requires Measurements(stream + Arrived(e)) == Measurements(stream) + (out + pending)
    requires Faults(stream + Arrived(e)) == AddStats(Faults(stream), r.stats)
    requires reports == w.reports + [r] || (reports == w.reports && r.stats.Empty())
    ensures OnScript(done + [e], Run(true, stream + Arrived(e), pending, w.handled + out, reports,
                                     w.errorCount + r.stats.Total()))
  {
    hide OnScript, AllMeasurements, AllFaults, Sessions, Breaks, Up, Measurements, Faults;
    hide ReportedFaults, TransportReports, AddStats;
    OnScriptIs(done, w);
    ArrivalWorth(done, stream, e, out + pending, r.stats);
    ReportsGrow(w.reports, reports, r);
    AddStatsTotal(AllFaults(Sessions(done)), r.stats);
    assert w.handled + [] == w.handled;
    assert w.handled + (out + pending) == (w.handled + out) + pending;
    OnScriptIs(done + [e], Run(true, stream + Arrived(e), pending, w.handled + out, reports,
                               w.errorCount + r.stats.Total()));
  }

  lemma {:induction false} OnScriptIs(done: seq<LineEvent>, w: Run)
    ensures OnScript(done, w) <==>
            var ss := Sessions(done);
            && w.started == Up(done) && (w.started ==> ss[|ss| - 1] == w.stream) && (!w.started ==> w.pending == [])
            && w.handled + w.pending == AllMeasurements(ss) && ReportedFaults(w.reports) == AllFaults(ss)
            && TransportReports(w.reports) == Breaks(done)
            && w.errorCount == Breaks(done) + AllFaults(ss).Total()
  {
    hide AllMeasurements, AllFaults, Breaks, ReportedFaults, TransportReports;
  }

  lemma {:induction false} ReportsGrow(before: seq<Report>, after: seq<Report>, r: Report)
    requires !r.code.TransportError? && (after == before + [r] || (after == before && r.stats.Empty()))
    ensures ReportedFaults(after) == AddStats(ReportedFaults(before), r.stats)
    ensures TransportReports(after) == TransportReports(before)
  {
    hide ReportedFaults, TransportReports, AddStats;
    ReportStep(before, r);
    AddStatsTotal(ReportedFaults(before), r.stats);
  }

  /** One call of the error handler carrying these faults, or none if there are none. */
  predicate Tells(reports: seq<Report>, stats: ErrorStats) {
    if |reports| == 0 then stats.Empty()
    else |reports| == 1 && reports[0].stats == stats && !reports[0].code.TransportError?
  }

  /** One call of the error handler for a transport failure. */
  predicate Fails(reports: seq<Report>) {
    |reports| == 1 && reports[0].code.TransportError? && reports[0].stats.Empty()
  }

  /** One turn of the worker loop: open the port if it is closed, read, and decide which
      handlers to call. A turn uses up an event of the line unless it serves queued data. */
  method Turn(device: UartDevice, wasStarted: bool, e: LineEvent)
    returns (started: bool, used: bool, out: seq<SensorData>, reports: seq<Report>, stats: ErrorStats)
    requires device.Valid() && Possible(e) && (!wasStarted ==> device.pending == [])
    modifies device, device.parser, device.parser.buffer, device.parser.buffer.storage
    ensures device.Valid() && used == (|old(device.pending)| == 0)
    ensures !used ==>
              && started && out == [old(device.pending)[0]] && device.pending == old(device.pending)[1..]
              && reports == [] && device.errorCount == old(device.errorCount)
              && device.parser.stream == old(device.parser.stream)
    ensures used && e.Broken? ==>
              && !started && out == [] && device.pending == []
              && Fails(reports) && device.errorCount == old(device.errorCount) + 1
              && device.parser.stream == old(device.parser.stream)
    ensures used && !e.Broken? ==>
              var s := if wasStarted then old(device.parser.stream) else [];
              var t := device.parser.stream;
              && started && t == s + Arrived(e)
              && Measurements(t) == Measurements(s) + (out + device.pending)
              && Faults(t) == AddStats(Faults(s), stats) && device.errorCount == old(device.errorCount) + stats.Total()
              && Tells(reports, stats)
              && (|reports| == 1 ==> reports[0].code == if |out| > 0 then Data else ProtocolError)
  {
    hide Measurements, Faults, Scan, NoErrors, AddStats;
    started, used, out, reports, stats := wasStarted, |device.pending| == 0, [], [], NoErrors();
    if !started {
      started := device.Start(!e.Broken?);
      if !started {
        reports := [Report(TransportError, NoErrors())];
        return;
      }
    }
    ghost var stream := device.parser.stream;
    var result := device.Read(e);
    stats := result.stats;
    if stats.Empty() { NothingGained(stream, stats); }
    if result.code.Data? && result.data.Some? {
      out := [result.data.value];
    }
    if !result.stats.Empty() || result.code.ProtocolError? || result.code.TransportError? {
      reports := [Report(result.code, result.stats)];
    }
    if result.code.TransportError? {
      device.Stop();
      started := false;
    }
  }

  /** run_device over a whole run. Data handed to the handler, followed by what is still
      queued, are the valid measurements of every session's byte stream, in order and once
      each; every protocol fault of every stream and every transport failure is reported
      exactly once; and the device's error count is the number of those faults and failures. */
  method RunDevice(events: seq<LineEvent>)
    returns (handled: seq<SensorData>, reports: seq<Report>, pending: seq<SensorData>, errorCount: nat)
    requires forall i :: 0 <= i < |events| ==> Possible(events[i])
    ensures handled + pending == AllMeasurements(Sessions(events)) && |pending| < 18
    ensures !Up(events) ==> pending == []
    ensures ReportedFaults(reports) == AllFaults(Sessions(events))
    ensures TransportReports(reports) == Breaks(events)
    ensures errorCount == Breaks(events) + AllFaults(Sessions(events)).Total()
  {
    hide Measurements, Faults, AllMeasurements, AllFaults, Sessions, Breaks, Up, Scan, ReportedFaults,
         TransportReports, AddStats;
    var device := new UartDevice();
    handled, reports := [], [];
    var started, k := false, 0;
    FreshRun(device.parser.stream);
    assert events[..0] == [];
    while k < |events|
      invariant device.Valid() && fresh(device) && fresh(device.parser) && fresh(device.parser.buffer)
      invariant fresh(device.parser.buffer.storage)
      invariant 0 <= k <= |events| && (!started ==> device.pending == [])
      invariant OnScript(events[..k],
                Run(started, device.parser.stream, device.pending, handled, reports, device.errorCount))
      decreases |events| - k, |device.pending|
    {
      hide OnScript;
      ghost var w := Run(started, device.parser.stream, device.pending, handled, reports, device.errorCount);
      var used, out, calls, stats;
      started, used, out, calls, stats := Turn(device, started, events[k]);
      assert events[..k + 1] == events[..k] + [events[k]];
      TurnOnScript(events[..k], w, events[k], used, out, calls, stats,
                   Run(started, device.parser.stream, device.pending,
                       handled + out, reports + calls, device.errorCount));
      handled, reports := handled + out, reports + calls;
      if used {
        k := k + 1;
      }
    }
    assert events[..|events|] == events;
    device.Stop();
    pending, errorCount := device.pending, device.errorCount;
  }

  /** A turn keeps the run on the script. */
  lemma TurnOnScript(done: seq<LineEvent>, w: Run, e: LineEvent, used: bool,
                     out: seq<SensorData>, reports: seq<Report>, stats: ErrorStats, w': Run)
    requires OnScript(done, w) && used == (|w.pending| == 0)
    requires w'.handled == w.handled + out && w'.reports == w.reports + reports
    requires !used ==>
               && w'.started && out == [w.pending[0]] && w'.pending == w.pending[1..]
               && reports == [] && w'.errorCount == w.errorCount && w'.stream == w.stream
    requires used && e.Broken? ==>
               && !w'.started && out == [] && w'.pending == [] && w'.stream == w.stream
               && Fails(reports) && w'.errorCount == w.errorCount + 1
    requires used && !e.Broken? ==>
               var s := if w.started then w.stream else [];
               && w'.started && w'.stream == s + Arrived(e)
               && Measurements(w'.stream) == Measurements(s) + (out + w'.pending)
               && Faults(w'.stream) == AddStats(Faults(s), stats) && w'.errorCount == w.errorCount + stats.Total()
               && Tells(reports, stats)
    ensures OnScript(if used then done + [e] else done, w')
  {
    hide OnScript, Measurements, Faults, AddStats;
    if !used {
      HandOver(done, w);
      assert w' == w.(pending := w.pending[1..], handled := w.handled + [w.pending[0]]);
    } else if e.Broken? {
      BrokenStep(done, w, reports[0]);
      assert reports == [reports[0]];
      assert w' == w.(started := false, reports := w.reports + [reports[0]], errorCount := w.errorCount + 1);
    } else {
      var s := if w.started then w.stream else [];
      var r := if |reports| == 0 then Report(Timeout, stats) else reports[0];
      assert |reports| > 0 ==> reports == [r];
      ArrivalStep(done, w, e, s, out, w'.pending, r, w'.reports);
    }
  }

  lemma NothingGained(s: seq<Byte>, stats: ErrorStats)
    requires stats.Empty()
    ensures Measurements(s + []) == Measurements(s) + ([] + []) && Faults(s + []) == AddStats(Faults(s), stats)
  {
    hide Measurements, Faults, AddStats;
    AddStatsTotal(Faults(s), stats);
    assert s + [] == s;
  }
}
