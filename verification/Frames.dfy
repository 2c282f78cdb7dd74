/**
 The serial frame of src/protocol/frame_parser.cpp: two header bytes, payload length,
 command, device id, payload, and the checksum of everything between header and
 checksum, low byte first.
 */
module Frames {
  import opened Words
  import opened Crc16

  datatype Frame = Frame(cmd: Byte, deviceId: Byte, payload: seq<Byte>, crc: Word)

  const HEADER_1: Byte := 0xAA
  const HEADER_2: Byte := 0x55
  const MAX_PAYLOAD: nat := 64
  const FIXED_SIZE: nat := 7

  /** The bytes the checksum covers. */
  function Body(f: Frame): seq<Byte>
    requires |f.payload| <= MAX_PAYLOAD
  {
    [|f.payload|, f.cmd, f.deviceId] + f.payload
  }

  /** What a sender may put on the line. */
  predicate WellFormed(f: Frame) {
    |f.payload| <= MAX_PAYLOAD && f.crc == Crc(Body(f))
  }

  function FrameSize(f: Frame): nat { FIXED_SIZE + |f.payload| }

  function Encode(f: Frame): (data: seq<Byte>)
    requires |f.payload| <= MAX_PAYLOAD
    ensures |data| == FrameSize(f)
  {
    [HEADER_1, HEADER_2] + Body(f) + [Low(f.crc), High(f.crc)]
  }

  /** parse_complete_frame. */
  function ParseCompleteFrame(data: seq<Byte>): Option<Frame> {
    if |data| < FIXED_SIZE then None
    else if data[0] != HEADER_1 || data[1] != HEADER_2 then None
    else if data[2] > MAX_PAYLOAD then None
    else
      var n := data[2];
      if |data| != FIXED_SIZE + n then None
      else
        var frame := Frame(data[3], data[4], data[5..5 + n], Join(data[5 + n], data[6 + n]));
        if Crc(data[2..5 + n]) != frame.crc then None else Some(frame)
  }

  lemma ParseInvertsEncode(f: Frame)
    requires WellFormed(f)
    ensures ParseCompleteFrame(Encode(f)) == Some(f)
  {
    hide Crc, Low, High, Join;
    var data, n := Encode(f), |f.payload|;
    assert data[2..5 + n] == Body(f);
    assert data[5..5 + n] == f.payload;
    JoinSplit(f.crc);
  }

  lemma ParseOnlyEncodings(data: seq<Byte>)
    requires ParseCompleteFrame(data).Some?
    ensures var f := ParseCompleteFrame(data).value; WellFormed(f) && data == Encode(f)
  {
    hide Crc, Low, High, Join;
    var f, n := ParseCompleteFrame(data).value, data[2];
    SplitJoin(data[5 + n], data[6 + n]);
    BodyOf(data, f);
  }

  lemma BodyOf(data: seq<Byte>, f: Frame)
    requires |data| >= FIXED_SIZE && |data| == FIXED_SIZE + data[2] && data[2] <= MAX_PAYLOAD
    requires f.cmd == data[3] && f.deviceId == data[4] && f.payload == data[5..5 + data[2]]
    ensures Body(f) == data[2..5 + data[2]]
    ensures data == [data[0], data[1]] + Body(f) + [data[5 + data[2]], data[6 + data[2]]]
  {}

  /** The parser accepts exactly the encodings of well-formed frames, and inverts them. */
  lemma ParseExact(data: seq<Byte>, f: Frame)
    ensures ParseCompleteFrame(data) == Some(f) <==> WellFormed(f) && data == Encode(f)
  {
    hide Crc;
    if ParseCompleteFrame(data) == Some(f) { ParseOnlyEncodings(data); }
    if WellFormed(f) && data == Encode(f) { ParseInvertsEncode(f); }
  }

  /** The layout on the line, byte by byte. */
  lemma {:induction false} FrameBytes(data: seq<Byte>, f: Frame)
    ensures ParseCompleteFrame(data) == Some(f) <==>
            var n := |f.payload|;
            && n <= 64 && |data| == n + 7
            && data[0] == 0xAA && data[1] == 0x55 && data[2] == n && data[3] == f.cmd && data[4] == f.deviceId
            && data[5..5 + n] == f.payload
            && data[5 + n] as int + 256 * data[6 + n] as int == f.crc && f.crc == Crc(data[2..5 + n])
  {
    hide Crc;
  }

  /** Line noise that flips an odd number of bits anywhere in a frame, or any bits inside a
      window of 16, never yields another acceptable frame of that length. */
  lemma DamagedFrameRejected(data: seq<Byte>, received: seq<Byte>)
    requires ParseCompleteFrame(data).Some? && Damaged(data, received)
    ensures ParseCompleteFrame(received).None?
  {
    hide Crc;
    if ParseCompleteFrame(received).Some? {
      FrameResidue(data);
      FrameResidue(received);
      DamageAfterPrefix([HEADER_1, HEADER_2], data[2..], received[2..]);
      DamageDetected(data[2..], received[2..]);
    }
  }

  lemma FrameResidue(data: seq<Byte>)
    requires ParseCompleteFrame(data).Some?
    ensures data == [HEADER_1, HEADER_2] + data[2..] && Crc(data[2..]) == 0
  {
    hide CrcFrom;
    var n := data[2];
    assert data[2..] == data[2..5 + n] + [data[5 + n], data[6 + n]];
    ZeroResidue(INITIAL, data[2..5 + n], data[5 + n], data[6 + n]);
  }
}
