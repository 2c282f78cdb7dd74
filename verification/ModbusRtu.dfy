/**
 Modbus RTU register reads (src/modbus/modbus_rtu.cpp): building the request, and deciding
 what a response frame says. Frames end in the checksum of what precedes it, low byte first.
 */
module ModbusRtu {
  import opened Words
  import opened Crc16
  import opened Sensor

  datatype FunctionCode = ReadHoldingRegisters | ReadInputRegisters

  function Code(f: FunctionCode): Byte {
    match f case ReadHoldingRegisters => 0x03 case ReadInputRegisters => 0x04
  }

  const EXCEPTION_BIT: nat := 0x80

  datatype ReadRequest = ReadRequest(slaveId: Byte, function_: FunctionCode, startAddress: Word, registerCount: Word)

  datatype Status = Ok | CrcError | ExceptionResponse | LengthError | AddressMismatch | FunctionMismatch

  datatype ReadResponse = ReadResponse(status: Status, registers: seq<Word>, exceptionCode: Byte)

  /** A message with its checksum. */
  function Seal(m: seq<Byte>): seq<Byte> {
    m + [Low(Crc(m)), High(Crc(m))]
  }

  predicate HasValidCrc(frame: seq<Byte>) {
    |frame| >= 4 && Crc(frame[..|frame| - 2]) == Join(frame[|frame| - 2], frame[|frame| - 1])
  }

  /** The stored checksum is right exactly when the checksum of the whole frame is zero. */
  lemma ValidCrcIsZeroResidue(frame: seq<Byte>)
    requires |frame| >= 4
    ensures HasValidCrc(frame) <==> Crc(frame) == 0
  {
    hide CrcFrom;
    var m := frame[..|frame| - 2];
    assert frame == m + [frame[|frame| - 2], frame[|frame| - 1]];
    ZeroResidue(INITIAL, m, frame[|frame| - 2], frame[|frame| - 1]);
  }

  /** A frame has a valid checksum exactly when it is a sealed message. */
  lemma ValidCrcIsSeal(frame: seq<Byte>)
    requires |frame| >= 4
    ensures HasValidCrc(frame) <==> frame == Seal(frame[..|frame| - 2])
  {
    hide Crc, Join, Low, High;
    var m, low, high := frame[..|frame| - 2], frame[|frame| - 2], frame[|frame| - 1];
    assert frame == m + [low, high];
    SplitJoin(low, high);
    JoinSplit(Crc(m));
    if frame == Seal(m) {
      assert (m + [low, high])[|m|] == Low(Crc(m)) && (m + [low, high])[|m| + 1] == High(Crc(m));
    }
  }

  // ----- requests -----

  function RequestBody(r: ReadRequest): seq<Byte> {
    [r.slaveId, Code(r.function_)] + PutU16(r.startAddress) + PutU16(r.registerCount)
  }

  /** build_read_request. */
  method BuildReadRequest(r: ReadRequest) returns (frame: seq<Byte>)
    ensures frame == Seal(RequestBody(r))
  {
    frame := [];
    frame := frame + [r.slaveId];
    frame := frame + [Code(r.function_)];
    frame := frame + [High(r.startAddress)] + [Low(r.startAddress)];
    frame := frame + [High(r.registerCount)] + [Low(r.registerCount)];
    var crc := Crc16Modbus(frame);
    assert frame == RequestBody(r);
    frame := frame + [Low(crc)] + [High(crc)];
  }

  /** What a slave reads out of a request. */
  function DecodeRequest(frame: seq<Byte>): Option<ReadRequest> {
    if |frame| != 8 || !HasValidCrc(frame) then None
    else if frame[1] == 0x03 then
      Some(ReadRequest(frame[0], ReadHoldingRegisters, ReadU16(frame, 2), ReadU16(frame, 4)))
    else if frame[1] == 0x04 then
      Some(ReadRequest(frame[0], ReadInputRegisters, ReadU16(frame, 2), ReadU16(frame, 4)))
    else None
  }

  /** A slave reads back exactly what was asked. */
  lemma RequestRoundTrip(r: ReadRequest)
    ensures DecodeRequest(Seal(RequestBody(r))) == Some(r)
  {
    hide Crc, Join, Low, High;
    var frame := Seal(RequestBody(r));
    assert frame[..6] == RequestBody(r);
    ValidCrcIsSeal(frame);
    JoinSplit(r.startAddress);
    JoinSplit(r.registerCount);
  }

  /** The request on the line, byte by byte. */
  lemma {:induction false} RequestBytes(r: ReadRequest)
    ensures var frame := Seal(RequestBody(r));
            && |frame| == 8 && frame[0] == r.slaveId
            && frame[1] == (if r.function_.ReadHoldingRegisters? then 3 else 4)
            && 256 * frame[2] as int + frame[3] as int == r.startAddress
            && 256 * frame[4] as int + frame[5] as int == r.registerCount
            && 256 * frame[7] as int + frame[6] as int == Crc(frame[..6])
  {
    hide Crc;
    assert Seal(RequestBody(r))[..6] == RequestBody(r);
  }

  // ----- responses -----

  function RegisterBytes(registers: seq<Word>): (b: seq<Byte>)
    ensures |b| == 2 * |registers|
  {
    if |registers| == 0 then []
    else RegisterBytes(registers[..|registers| - 1]) + PutU16(registers[|registers| - 1])
  }

  /** The response a slave sends for these registers. */
  function EncodeResponse(r: ReadRequest, registers: seq<Word>): seq<Byte>
    requires 2 * |registers| < 256
  {
    Seal([r.slaveId, Code(r.function_), 2 * |registers|] + RegisterBytes(registers))
  }

  function EncodeException(r: ReadRequest, code: Byte): seq<Byte> {
    Seal([r.slaveId, Code(r.function_) + EXCEPTION_BIT, code])
  }

  /** The first n registers of the data part. */
  function Registers(frame: seq<Byte>, n: nat): (registers: seq<Word>)
    requires 3 + 2 * n <= |frame|
    ensures |registers| == n
  {
    if n == 0 then [] else Registers(frame, n - 1) + [ReadU16(frame, 1 + 2 * n)]
  }

  /** parse_read_response. */
  method ParseReadResponse(frame: seq<Byte>, r: ReadRequest) returns (response: ReadResponse)
    ensures response == Interpret(frame, r)
  {
    hide Crc;
    if |frame| < 5 {
      return ReadResponse(LengthError, [], 0);
    }
    if !HasValidCrc(frame) {
      return ReadResponse(CrcError, [], 0);
    }
    if frame[0] != r.slaveId {
      return ReadResponse(AddressMismatch, [], 0);
    }
    if frame[1] == Code(r.function_) + EXCEPTION_BIT {
      if |frame| != 5 {
        return ReadResponse(LengthError, [], 0);
      }
      return ReadResponse(ExceptionResponse, [], frame[2]);
    }
    if frame[1] != Code(r.function_) {
      return ReadResponse(FunctionMismatch, [], 0);
    }
    var byteCount: nat := frame[2];
    if byteCount != 2 * r.registerCount || |frame| != byteCount + 5 {
      return ReadResponse(LengthError, [], 0);
    }
    var registers := [];
    var offset := 3;
    while offset < 3 + byteCount
      invariant 3 <= offset <= 3 + byteCount && offset == 3 + 2 * |registers|
      invariant registers == Registers(frame, |registers|)
    {
      registers := registers + [ReadU16(frame, offset)];
      offset := offset + 2;
    }
    return ReadResponse(Ok, registers, 0);
  }

  /** The verdicts in the order in which they are tried. */
  function Interpret(frame: seq<Byte>, r: ReadRequest): ReadResponse {
    if |frame| < 5 then ReadResponse(LengthError, [], 0)
    else if !HasValidCrc(frame) then ReadResponse(CrcError, [], 0)
    else if frame[0] != r.slaveId then ReadResponse(AddressMismatch, [], 0)
    else if frame[1] == Code(r.function_) + EXCEPTION_BIT then
      if |frame| != 5 then ReadResponse(LengthError, [], 0) else ReadResponse(ExceptionResponse, [], frame[2])
    else if frame[1] != Code(r.function_) then ReadResponse(FunctionMismatch, [], 0)
    else if frame[2] != 2 * r.registerCount || |frame| != 5 + frame[2] as nat then ReadResponse(LengthError, [], 0)
    else ReadResponse(Ok, Registers(frame, r.registerCount), 0)
  }

  lemma {:induction false} RegistersOfBytes(frame: seq<Byte>, registers: seq<Word>)
    requires 3 + 2 * |registers| <= |frame| && frame[3..3 + 2 * |registers|] == RegisterBytes(registers)
    ensures Registers(frame, |registers|) == registers
    decreases |registers|
  {
    hide Join, Low, High;
    var n := |registers|;
    if n > 0 {
      var init, last := registers[..n - 1], registers[n - 1];
      var bytes := frame[3..3 + 2 * n];
      assert bytes[..2 * n - 2] == frame[3..3 + 2 * (n - 1)] == RegisterBytes(init);
      RegistersOfBytes(frame, init);
      assert bytes[2 * n - 2] == High(last) && bytes[2 * n - 1] == Low(last);
      JoinSplit(last);
    }
  }

  lemma {:induction false} BytesOfRegisters(frame: seq<Byte>, n: nat)
    requires 3 + 2 * n <= |frame|
    ensures RegisterBytes(Registers(frame, n)) == frame[3..3 + 2 * n]
    decreases n
  {
    hide Join, Low, High;
    if n > 0 {
      BytesOfRegisters(frame, n - 1);
      var init, low, high := Registers(frame, n - 1), frame[2 + 2 * n], frame[1 + 2 * n];
      SplitJoin(low, high);
      assert Registers(frame, n)[..n - 1] == init;
      assert frame[3..3 + 2 * n] == frame[3..3 + 2 * (n - 1)] + [high, low];
    }
  }

  /** Exactness: registers come back exactly from their own encoding for this request. A
      request for more than 127 registers can have no acceptable response. */
  lemma OkExact(frame: seq<Byte>, r: ReadRequest, registers: seq<Word>)
    ensures Interpret(frame, r) == ReadResponse(Ok, registers, 0) <==>
            && |registers| == r.registerCount && 2 * |registers| < 256
            && frame == EncodeResponse(r, registers)
  {
    hide Crc;
    var n := |registers|;
    if n == r.registerCount && 2 * n < 256 && frame == EncodeResponse(r, registers) {
      var m := [r.slaveId, Code(r.function_), 2 * n] + RegisterBytes(registers);
      assert frame[..|frame| - 2] == m && frame[3..3 + 2 * n] == RegisterBytes(registers);
      ValidCrcIsSeal(frame);
      RegistersOfBytes(frame, registers);
    }
    if Interpret(frame, r) == ReadResponse(Ok, registers, 0) {
      BytesOfRegisters(frame, n);
      ValidCrcIsSeal(frame);
      assert frame[..|frame| - 2] == [frame[0], frame[1], frame[2]] + frame[3..3 + 2 * n];
    }
  }

  lemma ExceptionExact(frame: seq<Byte>, r: ReadRequest, code: Byte)
    ensures Interpret(frame, r) == ReadResponse(ExceptionResponse, [], code) <==> frame == EncodeException(r, code)
  {
    hide Crc, Registers;
    if frame == EncodeException(r, code) {
      assert frame[..3] == [r.slaveId, Code(r.function_) + EXCEPTION_BIT, code];
      ValidCrcIsSeal(frame);
    }
    if Interpret(frame, r) == ReadResponse(ExceptionResponse, [], code) {
      ValidCrcIsSeal(frame);
      assert frame[..|frame| - 2] == [frame[0], frame[1], frame[2]];
    }
  }

  /** Line noise on a response, flipping an odd number of bits anywhere or any bits inside a
      window of 16, is always reported as a checksum error. */
  lemma DamagedResponseRejected(frame: seq<Byte>, received: seq<Byte>, r: ReadRequest)
    requires |frame| >= 5 && HasValidCrc(frame) && Damaged(frame, received)
    ensures Interpret(received, r).status == CrcError
  {
    hide Crc, HasValidCrc;
    ValidCrcIsZeroResidue(frame);
    ValidCrcIsZeroResidue(received);
    DamageDetected(frame, received);
  }

  // ----- verdicts by the bytes -----

  /** The last two bytes are the checksum of the others, low byte first. */
  predicate ChecksumAtEnd(frame: seq<Byte>) {
    && |frame| >= 2
    && Crc(frame[..|frame| - 2]) == frame[|frame| - 2] as int + 256 * frame[|frame| - 1] as int
  }

  /** Each verdict by the bytes of the frame, for a request to a slave. */
  lemma {:induction false} VerdictsByBytes(frame: seq<Byte>, r: ReadRequest)
    ensures var status := Interpret(frame, r).status;
            var code := if r.function_.ReadHoldingRegisters? then 3 else 4;
            var good := |frame| >= 5 && ChecksumAtEnd(frame);
            var ours := good && frame[0] == r.slaveId;
            && (status == CrcError <==> |frame| >= 5 && !ChecksumAtEnd(frame))
            && (status == AddressMismatch <==> good && frame[0] != r.slaveId)
            && (status == FunctionMismatch <==> ours && frame[1] != code && frame[1] != code + 128)
            && (status == ExceptionResponse <==> ours && frame[1] == code + 128 && |frame| == 5)
            && (status == Ok <==> && ours && frame[1] == code && frame[2] == 2 * r.registerCount
                                  && |frame| == 5 + 2 * r.registerCount)
            && (status == LengthError <==>
                  || |frame| < 5
                  || (ours && frame[1] == code + 128 && |frame| != 5)
                  || (ours && frame[1] == code
                      && (frame[2] != 2 * r.registerCount || |frame| != 5 + 2 * r.registerCount)))
  {
    hide Crc, Registers;
  }

  /** What an accepted frame gives: its registers high byte first, or its exception code. */
  lemma {:induction false} ContentsByBytes(frame: seq<Byte>, r: ReadRequest)
    ensures var response := Interpret(frame, r);
            && (response.status == Ok ==>
                  && |response.registers| == r.registerCount && |frame| == 5 + 2 * r.registerCount
                  && forall i :: 0 <= i < r.registerCount ==>
                       response.registers[i] == 256 * frame[3 + 2 * i] as int + frame[4 + 2 * i] as int)
            && (response.status == ExceptionResponse ==> |frame| == 5 && response.exceptionCode == frame[2])
  {
    hide Crc;
    if Interpret(frame, r).status == Ok {
      RegistersByBytes(frame, r.registerCount);
    }
  }

  lemma {:induction false} RegistersByBytes(frame: seq<Byte>, n: nat)
    requires 3 + 2 * n <= |frame|
    ensures forall i :: 0 <= i < n ==>
              Registers(frame, n)[i] == 256 * frame[3 + 2 * i] as int + frame[4 + 2 * i] as int
  {
    if n > 0 { RegistersByBytes(frame, n - 1); }
  }
}
