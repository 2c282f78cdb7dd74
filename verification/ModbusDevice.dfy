/**
 Polling a Modbus slave (src/device/modbus_device.cpp): sending the request, assembling the
 response from whatever pieces the serial line delivers, and turning it into a measurement.
 The events of the line are a script; its end stands for the response deadline.
 */
module ModbusPolling {
  import opened Words
  import opened Crc16
  import opened Sensor
  import opened SerialLine
  import opened ModbusRtu

  /** The length a response announces, as far as its first bytes show. */
  function Announced(response: seq<Byte>): nat {
    if |response| >= 2 && response[1] >= EXCEPTION_BIT then 5
    else if |response| >= 3 then 3 + response[2] as nat + 2
    else 5
  }

  datatype Assembly = PortFailed | Got(response: seq<Byte>)

  /** What the assembly loop ends with, from the bytes it has so far. */
  function Assemble(response: seq<Byte>, events: seq<LineEvent>): Assembly
    decreases |events|
  {
    if |response| >= Announced(response) || |events| == 0 then Got(response)
    else
      match events[0]
      case Broken => PortFailed
      case Silence => Got(response)
      case Chunk(data) => Assemble(response + data, events[1..])
  }

  /** The loop of read: the announced size is looked at again after every piece. */
  method AssembleResponse(events: seq<LineEvent>) returns (result: Assembly)
    ensures result == Assemble([], events)
  {
    var response: seq<Byte> := [];
    var expectedSize: nat := 5;
    var i := 0;
    while i < |events| && |response| < expectedSize
      invariant i <= |events| && expectedSize == Announced(response)
      invariant Assemble([], events) == Assemble(response, events[i..])
    {
      if events[i].Broken? {
        return PortFailed;
      }
      if events[i].Silence? {
        break;
      }
      response := response + events[i].data;
      if |response| >= 2 && response[1] >= EXCEPTION_BIT {
        expectedSize := 5;
      } else if |response| >= 3 {
        expectedSize := 3 + response[2] as nat + 2;
      }
      i := i + 1;
    }
    return Got(response);
  }

  /** The chunks of a split response, in order. */
  function Chunks(pieces: seq<seq<Byte>>): (events: seq<LineEvent>)
    ensures |events| == |pieces| && forall i :: 0 <= i < |pieces| ==> events[i] == Chunk(pieces[i])
  {
    seq(|pieces|, i requires 0 <= i < |pieces| => Chunk(pieces[i]))
  }

  /** A frame as long as it announces. */
  predicate SelfDelimiting(frame: seq<Byte>) {
    |frame| >= 5 && |frame| == Announced(frame)
  }

  /** A proper prefix never announces less than is still missing. */
  lemma PrefixAnnouncesMore(frame: seq<Byte>, k: nat)
    requires SelfDelimiting(frame) && k < |frame|
    ensures k < Announced(frame[..k])
  {}

  lemma {:induction false} AssemblyFrom(frame: seq<Byte>, k: nat, pieces: seq<seq<Byte>>, later: seq<LineEvent>)
    requires SelfDelimiting(frame) && k <= |frame| && frame[k..] == Concat(pieces)
    requires forall i :: 0 <= i < |pieces| ==> |pieces[i]| > 0
    ensures Assemble(frame[..k], Chunks(pieces) + later) == Got(frame)
    decreases |pieces|
  {
    hide Announced;
    if k == |frame| {
      assert frame[..k] == frame;
    } else {
      PrefixAnnouncesMore(frame, k);
      assert |pieces| > 0;
      var n := |pieces[0]|;
      assert frame[k..][..n] == pieces[0] && frame[..k] + pieces[0] == frame[..k + n];
      assert frame[k + n..] == frame[k..][n..] == Concat(pieces[1..]);
      var events := Chunks(pieces) + later;
      assert events[0] == Chunk(pieces[0]);
      assert events[1..] == Chunks(pieces[1..]) + later;
      AssemblyFrom(frame, k + n, pieces[1..], later);
    }
  }

  /** However a self-delimiting response is cut into pieces, and whatever the line does
      afterwards, the loop stops holding exactly that response. */
  lemma {:induction false} AssemblyExact(frame: seq<Byte>, pieces: seq<seq<Byte>>, later: seq<LineEvent>)
    requires SelfDelimiting(frame) && Concat(pieces) == frame
    requires forall i :: 0 <= i < |pieces| ==> |pieces[i]| > 0
    ensures Assemble([], Chunks(pieces) + later) == Got(frame)
  {
    assert frame[..0] == [] && frame[0..] == frame;
    AssemblyFrom(frame, 0, pieces, later);
  }

  lemma {:induction false} ConcatStep<T>(pieces: seq<seq<T>>)
    ensures Concat(pieces) == if |pieces| == 0 then [] else pieces[0] + Concat(pieces[1..])
  {}

  /** Bytes that are not yet as many as they announce. */
  predicate Short(b: seq<Byte>) {
    |b| < if |b| >= 2 && b[1] >= 128 then 5 else if |b| >= 3 then 5 + b[2] as int else 5
  }

  /** What the loop makes of every course of events. Pieces are taken while they are too few: once
      they are enough the rest of the line is not looked at; the end of time or a silence ends with
      what is there; a failure of the port before that is reported as such. */
  lemma {:induction false} AssembleByEvents(have: seq<Byte>, pieces: seq<seq<Byte>>, rest: seq<LineEvent>)
    requires forall k :: 0 <= k < |pieces| ==> Short(have + Concat(pieces[..k]))
    ensures var all := have + Concat(pieces);
            var result := Assemble(have, Chunks(pieces) + rest);
            && (!Short(all) ==> result == Got(all))
            && (Short(all) && |rest| == 0 ==> result == Got(all))
            && (Short(all) && |rest| > 0 && rest[0].Silence? ==> result == Got(all))
            && (Short(all) && |rest| > 0 && rest[0].Broken? ==> result == PortFailed)
    decreases |pieces|
  {
    hide Concat;
    ConcatStep(pieces);
    if |pieces| == 0 {
      assert Chunks(pieces) + rest == rest && have + Concat(pieces) == have;
    } else {
      assert pieces[..0] == [];
      ConcatStep<Byte>([]);
      assert have + Concat(pieces[..0]) == have;
      var events := Chunks(pieces) + rest;
      assert events[0] == Chunk(pieces[0]) && events[1..] == Chunks(pieces[1..]) + rest;
      assert have + pieces[0] + Concat(pieces[1..]) == have + Concat(pieces);
      forall k | 0 <= k < |pieces[1..]| ensures Short(have + pieces[0] + Concat(pieces[1..][..k])) {
        assert pieces[..k + 1][0] == pieces[0] && pieces[..k + 1][1..] == pieces[1..][..k];
        ConcatStep(pieces[..k + 1]);
        assert have + Concat(pieces[..k + 1]) == have + pieces[0] + Concat(pieces[1..][..k]);
      }
      AssembleByEvents(have + pieces[0], pieces[1..], rest);
    }
  }

  lemma ResponsesSelfDelimiting(r: ReadRequest, registers: seq<Word>, code: Byte)
    ensures 2 * |registers| < 256 ==> SelfDelimiting(EncodeResponse(r, registers))
    ensures SelfDelimiting(EncodeException(r, code))
  {
    hide Crc;
  }

  // ----- from registers to a measurement -----

  const SENSOR_REGISTERS: nat := 6

  /** registers_to_device_data followed by to_sensor_data. */
  function FromRegisters(slaveId: Byte, registers: seq<Word>): Option<SensorData> {
    if |registers| < SENSOR_REGISTERS then None
    else
      Some(Validate(SensorData(slaveId, 0x01, Signed(registers[0]), registers[1], registers[2],
                               registers[3], Low(registers[4]), registers[5], true, [])))
  }

  /** The registers in which a slave presents a reading. */
  function ToRegisters(d: SensorData): seq<Word>
    requires InRange(d)
  {
    [Unsigned(d.temperatureX10), d.humidityX10, d.gasPpm, d.batteryMv, d.status, d.sequence]
  }

  /** A reading in range comes back from its registers, whatever registers follow. */
  lemma ReadingFromRegisters(d: SensorData, more: seq<Word>)
    requires InRange(d) && d.cmd == 0x01 && d.valid && d.warnings == []
    ensures FromRegisters(d.deviceId, ToRegisters(d) + more) == Some(d)
  {
    hide ApplyRules;
    RulesExact(d);
  }

  /** The measurement of any registers: signed tenths first, the low half of the fifth register as
      the status, and none at all from fewer than six. */
  lemma {:induction false} MeasurementOfRegisters(slaveId: Byte, registers: seq<Word>)
    ensures |registers| < 6 <==> FromRegisters(slaveId, registers).None?
    ensures |registers| >= 6 ==>
              var d := FromRegisters(slaveId, registers).value;
              && d == Validate(d) && d.deviceId == slaveId && d.cmd == 1
              && d.temperatureX10 == (if registers[0] < 32768 then registers[0] as int else registers[0] as int - 65536)
              && d.humidityX10 == registers[1] && d.gasPpm == registers[2] && d.batteryMv == registers[3]
              && d.status == registers[4] % 256 && d.sequence == registers[5]
  {
    hide ApplyRules;
    if |registers| >= 6 {
      var d := SensorData(slaveId, 0x01, Signed(registers[0]), registers[1], registers[2],
                          registers[3], Low(registers[4]), registers[5], true, []);
      ValidateExact(d);
      ValidateReading(d, d);
    }
  }

  datatype PollResult = PollResult(code: ReadCode, data: Option<SensorData>)

  class ModbusDevice {
    const request: ReadRequest
    var online: bool
    var errorCount: nat

    constructor (r: ReadRequest)
      ensures request == r && errorCount == 0 && !online
    {
      request, online, errorCount := r, false, 0;
    }

    method Start(portOpens: bool) returns (ok: bool)
      modifies this
      ensures ok == portOpens
      ensures errorCount == old(errorCount) + (if portOpens then 0 else 1) && online == (portOpens || old(online))
    {
      if !portOpens {
        errorCount := errorCount + 1;
        return false;
      }
      online := true;
      return true;
    }

    /** read: nothing to do before the poll is due; otherwise one request and one response. */
    method Read(due: bool, discardOk: bool, writeOk: bool, events: seq<LineEvent>)
      returns (r: PollResult, sent: seq<Byte>)
      modifies this
      ensures !due ==> r == PollResult(Timeout, None) && sent == []
      ensures !due ==> errorCount == old(errorCount) && online == old(online)
      ensures due ==>
                var a := Assemble([], events);
                var failed := !discardOk || !writeOk || a.PortFailed?;
                && (failed <==> r.code.TransportError?)
                && (discardOk && writeOk ==> sent == Seal(RequestBody(request)))
                && (!failed ==>
                      var response := Interpret(a.response, request);
                      var data := FromRegisters(request.slaveId, response.registers);
                      && (r.code.Timeout? <==> |a.response| == 0)
                      && (r.code.Data? <==> |a.response| > 0 && response.status.Ok? && data.Some?)
                      && (r.code.ProtocolError? <==> |a.response| > 0 && !(response.status.Ok? && data.Some?))
                      && (r.code.Data? ==> r.data == data))
                && (r.code.Data? <==> r.data.Some?)
                && online == (r.code.Data? || (r.code.ProtocolError? && old(online)))
                && errorCount == old(errorCount) + (if r.code.Data? then 0 else 1)
    {
      hide Crc, Assemble, Registers, FromRegisters;
      sent := [];
      if !due {
        return PollResult(Timeout, None), sent;
      }
      if !discardOk {
        errorCount, online := errorCount + 1, false;
        return PollResult(TransportError, None), sent;
      }
      var frame := BuildReadRequest(request);
      if !writeOk {
        errorCount, online := errorCount + 1, false;
        return PollResult(TransportError, None), sent;
      }
      sent := frame;
      var assembly := AssembleResponse(events);
      if assembly.PortFailed? {
        errorCount, online := errorCount + 1, false;
        return PollResult(TransportError, None), sent;
      }
      if |assembly.response| == 0 {
        errorCount, online := errorCount + 1, false;
        return PollResult(Timeout, None), sent;
      }
      var parsed := ParseReadResponse(assembly.response, request);
      if !parsed.status.Ok? {
        errorCount := errorCount + 1;
        return PollResult(ProtocolError, None), sent;
      }
      var data := FromRegisters(request.slaveId, parsed.registers);
      if data.None? {
        errorCount := errorCount + 1;
        return PollResult(ProtocolError, None), sent;
      }
      online := true;
      return PollResult(Data, data), sent;
    }
  }

  /** End to end: the registers a slave sends for this request, in whatever pieces they arrive,
      are the registers the poll is decided on. */
  lemma {:induction false} PollExact(r: ReadRequest, registers: seq<Word>, pieces: seq<seq<Byte>>,
                                     later: seq<LineEvent>)
    requires |registers| == r.registerCount && 2 * |registers| < 256
    requires Concat(pieces) == EncodeResponse(r, registers)
    requires forall i :: 0 <= i < |pieces| ==> |pieces[i]| > 0
    ensures var a := Assemble([], Chunks(pieces) + later);
            && a.Got? && |a.response| > 0
            && Interpret(a.response, r) == ReadResponse(Ok, registers, 0)
  {
    hide Assemble, Interpret, EncodeResponse;
    ResponsesSelfDelimiting(r, registers, 0);
    AssemblyExact(EncodeResponse(r, registers), pieces, later);
    OkExact(EncodeResponse(r, registers), r, registers);
  }

  /** End to end for refusals: an exception the slave sends, in whatever pieces it arrives, is
      the exception the poll is decided on. */
  lemma {:induction false} ExceptionPoll(r: ReadRequest, code: Byte, pieces: seq<seq<Byte>>, later: seq<LineEvent>)
    requires Concat(pieces) == EncodeException(r, code)
    requires forall i :: 0 <= i < |pieces| ==> |pieces[i]| > 0
    ensures var a := Assemble([], Chunks(pieces) + later);
            && a.Got? && |a.response| > 0
            && Interpret(a.response, r) == ReadResponse(ExceptionResponse, [], code)
  {
    hide Assemble, Interpret, EncodeException;
    ResponsesSelfDelimiting(r, [], code);
    AssemblyExact(EncodeException(r, code), pieces, later);
    ExceptionExact(EncodeException(r, code), r, code);
  }

  /** Such a poll ends in a protocol error, counted once, whatever the device's state. */
  method RefusedPoll(device: ModbusDevice, code: Byte, pieces: seq<seq<Byte>>, later: seq<LineEvent>)
    returns (result: PollResult)
    requires Concat(pieces) == EncodeException(device.request, code)
    requires forall i :: 0 <= i < |pieces| ==> |pieces[i]| > 0
    modifies device
    ensures result == PollResult(ProtocolError, None)
    ensures device.errorCount == old(device.errorCount) + 1 && device.online == old(device.online)
  {
    hide Assemble, Interpret, EncodeException, FromRegisters;
    ExceptionPoll(device.request, code, pieces, later);
    var sent;
    result, sent := device.Read(true, true, true, Chunks(pieces) + later);
  }

  // ----- error accounting over a run -----

  /** One turn of the worker loop, as the environment decides it. */
  datatype Poll = Poll(portOpens: bool, due: bool, discardOk: bool, writeOk: bool, events: seq<LineEvent>)

  /** A poll during which the serial port fails. */
  predicate Breaks(p: Poll) {
    p.due && (!p.discardOk || !p.writeOk || Assemble([], p.events).PortFailed?)
  }

  /** Whether the port is open after these turns. */
  predicate Open(polls: seq<Poll>) {
    if |polls| == 0 then false
    else
      var before, p := polls[..|polls| - 1], polls[|polls| - 1];
      (Open(before) || p.portOpens) && !Breaks(p)
  }

  /** The port is open exactly if it was opened in some turn and no turn from there on broke it. */
  lemma {:induction false} OpenExact(polls: seq<Poll>)
    ensures Open(polls) <==> exists k :: 0 <= k < |polls| && OpenSince(polls, k)
  {
    hide Breaks;
    if |polls| > 0 {
      var n := |polls| - 1;
      var before := polls[..n];
      OpenExact(before);
      if Open(polls) {
        if polls[n].portOpens {
          assert OpenSince(polls, n);
        } else {
          var k :| 0 <= k < n && OpenSince(before, k);
          assert OpenSince(polls, k);
        }
      }
      if exists k :: 0 <= k < |polls| && OpenSince(polls, k) {
        var k :| 0 <= k < |polls| && OpenSince(polls, k);
        if k < n { assert OpenSince(before, k); }
      }
    }
  }

  ghost predicate OpenSince(polls: seq<Poll>, k: nat)
    requires k < |polls|
  {
    polls[k].portOpens && forall j :: k <= j < |polls| ==> !Breaks(polls[j])
  }

  /** Turns in which the port is open but no poll is due yet. */
  function IdleTurns(polls: seq<Poll>): nat {
    if |polls| == 0 then 0
    else
      var before, p := polls[..|polls| - 1], polls[|polls| - 1];
      IdleTurns(before) + (if (Open(before) || p.portOpens) && !p.due then 1 else 0)
  }

  /** The measurement a due poll yields, if any. */
  function PollData(r: ReadRequest, p: Poll): Option<SensorData> {
    if !p.due || Breaks(p) then None
    else
      var bytes := Assemble([], p.events).response;
      var response := Interpret(bytes, r);
      if |bytes| > 0 && response.status.Ok? then FromRegisters(r.slaveId, response.registers) else None
  }

  /** The measurements of the polls made while the port is open, in order. */
  function Measured(r: ReadRequest, polls: seq<Poll>): seq<SensorData> {
    if |polls| == 0 then []
    else
      var before, p := polls[..|polls| - 1], polls[|polls| - 1];
      var data := if Open(before) || p.portOpens then PollData(r, p) else None;
      Measured(r, before) + if data.Some? then [data.value] else []
  }

  /** The slave answers the poll with these registers, in whatever pieces. */
  ghost predicate Answers(p: Poll, r: ReadRequest, registers: seq<Word>) {
    && p.due && p.discardOk && p.writeOk && |registers| == r.registerCount && 2 * |registers| < 256
    && exists pieces: seq<seq<Byte>>, later ::
         && p.events == Chunks(pieces) + later && Concat(pieces) == EncodeResponse(r, registers)
         && forall i :: 0 <= i < |pieces| ==> |pieces[i]| > 0
  }

  /** A poll answered with a reading in range, and whatever registers follow, yields the reading. */
  lemma {:induction false} AnsweredPoll(p: Poll, r: ReadRequest, d: SensorData, more: seq<Word>)
    requires InRange(d) && d.cmd == 0x01 && d.valid && d.warnings == [] && d.deviceId == r.slaveId
    requires Answers(p, r, ToRegisters(d) + more)
    ensures PollData(r, p) == Some(d) && !Breaks(p)
  {
    hide Assemble, Interpret, EncodeResponse, FromRegisters, InRange, ToRegisters;
    var registers := ToRegisters(d) + more;
    var pieces: seq<seq<Byte>>, later :|
      && p.events == Chunks(pieces) + later && Concat(pieces) == EncodeResponse(r, registers)
      && forall i :: 0 <= i < |pieces| ==> |pieces[i]| > 0;
    PollExact(r, registers, pieces, later);
    ReadingFromRegisters(d, more);
  }

  /** Each poll meets an open port and is answered with its reading. */
  ghost predicate AllAnswered(polls: seq<Poll>, r: ReadRequest, readings: seq<SensorData>, more: seq<Word>)
  {
    |polls| == |readings| && forall i :: 0 <= i < |polls| ==>
      && polls[i].portOpens && InRange(readings[i]) && readings[i].cmd == 0x01 && readings[i].valid
      && readings[i].warnings == [] && readings[i].deviceId == r.slaveId
      && Answers(polls[i], r, ToRegisters(readings[i]) + more)
  }

  /** A slave that answers every poll has all its readings handled, in order. */
  lemma {:induction false} AnsweredRun(polls: seq<Poll>, r: ReadRequest, readings: seq<SensorData>, more: seq<Word>)
    requires AllAnswered(polls, r, readings, more)
    ensures Measured(r, polls) == readings
    decreases |polls|
  {
    hide PollData, Answers, InRange, ToRegisters, Breaks;
    if |polls| > 0 {
      var n := |polls| - 1;
      AnsweredRun(polls[..n], r, readings[..n], more);
      AnsweredPoll(polls[n], r, readings[n], more);
    }
  }

  /** run_device on a Modbus device. The handler gets exactly the measurements of the polls. A
      turn in which no poll is due comes back as a timeout and is reported to the error handler
      although the device counts no error: the handler is called once for each counted error and
      once for each such turn, so the two counts agree exactly when there is none. */
  method RunPolls(request: ReadRequest, polls: seq<Poll>)
    returns (handled: seq<SensorData>, reported: nat, errorCount: nat)
    ensures handled == Measured(request, polls)
    ensures reported == errorCount + IdleTurns(polls) && |handled| + reported == |polls|
  {
    hide Assemble, Breaks, FromRegisters, Interpret, PollData;
    var device := new ModbusDevice(request);
    handled, reported := [], 0;
    var started := false;
    for i := 0 to |polls|
      invariant started == Open(polls[..i]) && |handled| + reported == i && handled == Measured(request, polls[..i])
      invariant reported == device.errorCount + IdleTurns(polls[..i])
    {
      var p := polls[i];
      assert polls[..i + 1][..i] == polls[..i];
      if !started {
        started := device.Start(p.portOpens);
        if !started {
          reported := reported + 1;
          continue;
        }
      }
      var result, sent := device.Read(p.due, p.discardOk, p.writeOk, p.events);
      BreaksIs(p);
      PollDataIs(request, p);
      if result.code.Data? {
        handled := handled + [result.data.value];
      } else {
        reported := reported + 1;
      }
      if result.code.TransportError? {
        started := false;
      }
    }
    assert polls[..|polls|] == polls;
    errorCount := device.errorCount;
  }

  lemma BreaksIs(p: Poll)
    ensures Breaks(p) <==> p.due && (!p.discardOk || !p.writeOk || Assemble([], p.events).PortFailed?)
  {}

  lemma PollDataIs(r: ReadRequest, p: Poll)
    ensures PollData(r, p) ==
            if !p.due || Breaks(p) then None
            else
              var bytes := Assemble([], p.events).response;
              var response := Interpret(bytes, r);
              if |bytes| > 0 && response.status.Ok? then FromRegisters(r.slaveId, response.registers) else None
  {}
}
