/**
 The incremental parser of src/protocol/frame_parser.cpp: bytes go one at a time into the
 ring buffer and the buffer is drained after each. The ghost field records the bytes fed
 since construction or the last reset; Valid() says that what is buffered is what one scan
 of that whole stream would keep back, so the chunking of the stream is invisible.
 */
module FrameParsing {
  import opened Words
  import opened Frames
  import opened Scanner
  import opened RingBuffer

  const BUFFER_CAPACITY: nat := 256

  function StreamFrames(s: seq<Byte>): seq<Frame> { FramesOf(Scan(s).verdicts) }

  function StreamCrcErrors(s: seq<Byte>): nat { CrcErrors(Scan(s).verdicts) }

  function StreamLengthErrors(s: seq<Byte>): nat { LengthErrors(Scan(s).verdicts) }

  /** What a further chunk adds to the summaries of a stream. */
  lemma {:induction false} StreamAppend(s: seq<Byte>, data: seq<Byte>)
    ensures var more := Scan(s).rest + data;
            && Scan(s + data).rest == Scan(more).rest
            && StreamFrames(s + data) == StreamFrames(s) + StreamFrames(more)
            && StreamCrcErrors(s + data) == StreamCrcErrors(s) + StreamCrcErrors(more)
            && StreamLengthErrors(s + data) == StreamLengthErrors(s) + StreamLengthErrors(more)
  {
    hide Scan, FramesOf, CrcErrors, LengthErrors;
    ScanAppend(s, data);
    SummariesAppend(Scan(s).verdicts, Scan(Scan(s).rest + data).verdicts);
  }

  lemma {:induction false} RestIsShort(s: seq<Byte>)
    ensures |Scan(s).rest| < MAX_FRAME
  {
    hide *;
    ScanRestWaits(s);
    WaitIsShort(Scan(s).rest);
  }

  lemma {:induction false} ScanWaits(b: seq<Byte>)
    requires Judge(b).Wait?
    ensures Scan(b) == ScanResult([], b)
  {
    hide Judge;
  }

  /** One turn of the drain loop moves the front verdict into the ones already drawn. */
  lemma {:induction false} Advance(done: seq<Verdict>, b: seq<Byte>)
    requires !Judge(b).Wait?
    ensures var v := Judge(b);
            && Width(v) <= |b|
            && done + Scan(b).verdicts == done + [v] + Scan(b[Width(v)..]).verdicts
            && Scan(b).rest == Scan(b[Width(v)..]).rest
            && FramesOf(done + [v]) == FramesOf(done) + (if v.Good? then [v.frame] else [])
            && CrcErrors(done + [v]) == CrcErrors(done) + (if v.BadCrc? then 1 else 0)
            && LengthErrors(done + [v]) == LengthErrors(done) + (if v.BadLength? then 1 else 0)
  {
    hide Judge, Scan, FramesOf, CrcErrors, LengthErrors;
    var v := Judge(b);
    ScanStep(b);
    var r := Scan(b[Width(v)..]);
    assert done + ([v] + r.verdicts) == done + [v] + r.verdicts;
    SummariesAppend(done, [v]);
    OneVerdict(v);
  }

  class FrameParser {
    const buffer: ByteRingBuffer
    var crcErrorCount: nat
    var lengthErrorCount: nat
    var overflowByteCount: nat
    ghost var stream: seq<Byte>

    ghost predicate BufferValid()
      reads buffer
    {
      buffer.Valid() && buffer.storage.Length == BUFFER_CAPACITY
    }

    ghost predicate Valid()
      reads this, buffer, buffer.storage
    {
      BufferValid() && buffer.Contents() == Scan(stream).rest
    }

    constructor ()
      ensures Valid() && fresh(buffer) && fresh(buffer.storage)
      ensures stream == [] && crcErrorCount == lengthErrorCount == overflowByteCount == 0
    {
      var b := new ByteRingBuffer(BUFFER_CAPACITY);
      buffer := b;
      crcErrorCount, lengthErrorCount, overflowByteCount := 0, 0, 0;
      stream := [];
      new;
      EmptyScan();
    }

    /** One byte in; the oldest byte makes room when the buffer is full. */
    method Accept(byte: Byte)
      requires BufferValid()
      modifies this`overflowByteCount, buffer, buffer.storage
      ensures BufferValid()
      ensures old(buffer.size) < BUFFER_CAPACITY ==>
                buffer.Contents() == old(buffer.Contents()) + [byte] && overflowByteCount == old(overflowByteCount)
      ensures old(buffer.size) == BUFFER_CAPACITY ==>
                && buffer.Contents() == old(buffer.Contents())[1..] + [byte]
                && overflowByteCount == old(overflowByteCount) + 1
    {
      var ok := buffer.Push(byte);
      if !ok {
        buffer.Consume(1);
        overflowByteCount := overflowByteCount + 1;
        ok := buffer.Push(byte);
      }
    }

    /** The tests of one turn of the drain loop, on the front of the buffer. */
    method JudgeFront() returns (v: Verdict)
      requires BufferValid()
      ensures v == Judge(buffer.Contents())
    {
      hide ParseCompleteFrame;
      if buffer.size == 0 {
        return Wait;
      }
      if buffer.At(0) != Some(HEADER_1) {
        return Junk;
      }
      if buffer.size < 2 {
        return Wait;
      }
      if buffer.At(1) != Some(HEADER_2) {
        return Junk;
      }
      if buffer.size < 3 {
        return Wait;
      }
      var payloadLength := buffer.At(2).value;
      if payloadLength > MAX_PAYLOAD {
        return BadLength;
      }
      var frameSize := FIXED_SIZE + payloadLength;
      if buffer.size < frameSize {
        return Wait;
      }
      var raw := buffer.Copy(0, frameSize);
      assert buffer.Contents()[0..frameSize] == buffer.Contents()[..frameSize];
      match ParseCompleteFrame(raw.value)
      case Some(frame) => return Good(frame);
      case None => return BadCrc;
    }

    /** drain_buffer: on any buffer contents, exactly one scan of them. */
    method DrainBuffer() returns (frames: seq<Frame>)
      requires BufferValid()
      modifies this`crcErrorCount, this`lengthErrorCount, buffer
      ensures BufferValid()
      ensures buffer.Contents() == Scan(old(buffer.Contents())).rest
      ensures frames == StreamFrames(old(buffer.Contents()))
      ensures crcErrorCount == old(crcErrorCount) + StreamCrcErrors(old(buffer.Contents()))
      ensures lengthErrorCount == old(lengthErrorCount) + StreamLengthErrors(old(buffer.Contents()))
    {
      hide Scan, Judge, FramesOf, CrcErrors, LengthErrors;
      frames := [];
      ghost var done: seq<Verdict> := [];
      ghost var all := Scan(buffer.Contents());
      EmptyScan();
      var v := JudgeFront();
      while !v.Wait?
        invariant BufferValid() && v == Judge(buffer.Contents())
        invariant all == ScanResult(done + Scan(buffer.Contents()).verdicts, Scan(buffer.Contents()).rest)
        invariant frames == FramesOf(done)
        invariant crcErrorCount == old(crcErrorCount) + CrcErrors(done)
        invariant lengthErrorCount == old(lengthErrorCount) + LengthErrors(done)
        decreases buffer.size
      {
        Advance(done, buffer.Contents());
        match v {
          case Good(frame) =>
            frames := frames + [frame];
            buffer.Consume(FrameSize(frame));
          case BadLength =>
            lengthErrorCount := lengthErrorCount + 1;
            buffer.Consume(1);
          case BadCrc =>
            crcErrorCount := crcErrorCount + 1;
            buffer.Consume(1);
          case Junk =>
            buffer.Consume(1);
        }
        done := done + [v];
        v := JudgeFront();
      }
      ScanWaits(buffer.Contents());
      assert done + [] == done;
    }

    /** feed: the frames, errors and leftover are those the longer stream has beyond the
        shorter one, and the overflow branch is never taken. */
    method Feed(data: seq<Byte>) returns (frames: seq<Frame>)
      requires Valid()
      modifies this, buffer, buffer.storage
      ensures Valid() && stream == old(stream) + data
      ensures StreamFrames(stream) == StreamFrames(old(stream)) + frames
      ensures crcErrorCount + StreamCrcErrors(old(stream)) == old(crcErrorCount) + StreamCrcErrors(stream)
      ensures lengthErrorCount + StreamLengthErrors(old(stream)) == old(lengthErrorCount) + StreamLengthErrors(stream)
      ensures overflowByteCount == old(overflowByteCount)
      ensures frames == StreamFrames(old(buffer.Contents()) + data)
      ensures buffer.size < MAX_FRAME
    {
      hide Scan, Judge, StreamFrames, StreamCrcErrors, StreamLengthErrors;
      frames := [];
      ghost var start := stream;
      RestIsShort(start);
      for index := 0 to |data|
        invariant Valid() && buffer.size < MAX_FRAME && stream == start + data[..index]
        invariant StreamFrames(stream) == StreamFrames(start) + frames
        invariant crcErrorCount + StreamCrcErrors(start) == old(crcErrorCount) + StreamCrcErrors(stream)
        invariant lengthErrorCount + StreamLengthErrors(start) == old(lengthErrorCount) + StreamLengthErrors(stream)
        invariant overflowByteCount == old(overflowByteCount)
      {
        StreamAppend(stream, [data[index]]);
        RestIsShort(stream + [data[index]]);
        Accept(data[index]);
        var more := DrainBuffer();
        frames := frames + more;
        stream := stream + [data[index]];
      }
      assert data[..|data|] == data;
      StreamAppend(start, data);
      assert StreamFrames(stream)[|StreamFrames(start)|..] == frames;
    }

    method TakeCrcErrorCount() returns (count: nat)
      modifies this`crcErrorCount
      ensures count == old(crcErrorCount) && crcErrorCount == 0
    {
      count := crcErrorCount;
      crcErrorCount := 0;
    }

    method TakeLengthErrorCount() returns (count: nat)
      modifies this`lengthErrorCount
      ensures count == old(lengthErrorCount) && lengthErrorCount == 0
    {
      count := lengthErrorCount;
      lengthErrorCount := 0;
    }

    method TakeOverflowByteCount() returns (count: nat)
      modifies this`overflowByteCount
      ensures count == old(overflowByteCount) && overflowByteCount == 0
    {
      count := overflowByteCount;
      overflowByteCount := 0;
    }

    /** reset: the next byte starts a new stream. */
    method Reset()
      requires Valid()
      modifies this, buffer
      ensures Valid() && stream == []
      ensures crcErrorCount == lengthErrorCount == overflowByteCount == 0
    {
      hide Judge;
      buffer.Clear();
      crcErrorCount, lengthErrorCount, overflowByteCount := 0, 0, 0;
      stream := [];
      EmptyScan();
    }
  }

  /** parse_stream: a fresh parser fed once. */
  method ParseStream(data: seq<Byte>) returns (frames: seq<Frame>)
    ensures frames == StreamFrames(data)
  {
    hide Scan, Judge;
    var parser := new FrameParser();
    frames := parser.Feed(data);
    EmptyScan();
    assert [] + data == data;
  }

  /** What the summaries of a stream mean by its bytes. */
  lemma {:induction false} StreamMeaning(s: seq<Byte>)
    ensures var rest, frames, offsets := Scan(s).rest, StreamFrames(s), OffsetsOf(Scan(s).verdicts);
            && |rest| <= |s| && rest == s[|s| - |rest|..] && Incomplete(rest)
            && StreamLengthErrors(s) == |OversizedOffsets(s, |s| - |rest|)|
            && StreamCrcErrors(s) == |BadCandidateOffsets(s, |s| - |rest|)|
            && |offsets| == |frames|
            && forall o: nat, f :: FrameAt(s, o, f) && o + RECOVERY <= |s| ==>
                              exists k :: 0 <= k < |frames| && Meets(frames, offsets, k, o, f)
  {
    hide Scan, Judge, FramesOf, OffsetsOf, FrameAt, Meets, OversizedOffsets, BadCandidateOffsets, Incomplete;
    OffsetsMatch(Scan(s).verdicts);
    ErrorsExact(s);
    forall o: nat, f | FrameAt(s, o, f) && o + RECOVERY <= |s|
      ensures exists k ::
          0 <= k < |StreamFrames(s)| && Meets(StreamFrames(s), OffsetsOf(Scan(s).verdicts), k, o, f)
    {
      RecoveryReturned(s, o, f);
      FramesAre(s);
    }
  }

  lemma {:induction false} FramesAre(s: seq<Byte>)
    ensures StreamFrames(s) == FramesOf(Scan(s).verdicts)
  {}

  lemma {:induction false} NothingFed()
    ensures StreamFrames([]) == [] && StreamCrcErrors([]) == 0 && StreamLengthErrors([]) == 0
  {
    hide Scan, Judge;
    EmptyScan();
  }

  /** Any sequence of feeds into a fresh parser: the concatenated results, the counters and
      the buffered bytes are those of one scan of the concatenated chunks. */
  method FeedAll(chunks: seq<seq<Byte>>)
    returns (frames: seq<Frame>, crcErrors: nat, lengthErrors: nat, overflow: nat, leftover: seq<Byte>)
    ensures var s := Concat(chunks);
            && frames == StreamFrames(s)
            && crcErrors == StreamCrcErrors(s) && lengthErrors == StreamLengthErrors(s)
            && overflow == 0 && leftover == Scan(s).rest
            && |leftover| <= |s| && leftover == s[|s| - |leftover|..] && Incomplete(leftover)
            && lengthErrors == |OversizedOffsets(s, |s| - |leftover|)|
            && crcErrors == |BadCandidateOffsets(s, |s| - |leftover|)|
    ensures var s, offsets := Concat(chunks), OffsetsOf(Scan(Concat(chunks)).verdicts);
            && |offsets| == |frames|
            && forall o: nat, f :: FrameAt(s, o, f) && o + RECOVERY <= |s| ==>
                              exists k :: 0 <= k < |frames| && Meets(frames, offsets, k, o, f)
  {
    hide Scan, Judge, StreamFrames, StreamCrcErrors, StreamLengthErrors, OffsetsOf, FrameAt, Meets, OversizedOffsets;
    hide BadCandidateOffsets, Incomplete;
    var parser := new FrameParser();
    frames := [];
    NothingFed();
    assert chunks[..0] == [];
    for i := 0 to |chunks|
      invariant parser.Valid() && fresh(parser) && fresh(parser.buffer) && fresh(parser.buffer.storage)
      invariant parser.stream == Concat(chunks[..i]) && frames == StreamFrames(parser.stream)
      invariant parser.crcErrorCount == StreamCrcErrors(parser.stream)
      invariant parser.lengthErrorCount == StreamLengthErrors(parser.stream)
      invariant parser.overflowByteCount == 0
    {
      assert chunks[..i + 1] == chunks[..i] + [chunks[i]];
      ConcatLast(chunks[..i], chunks[i]);
      var more := parser.Feed(chunks[i]);
      frames := frames + more;
    }
    assert chunks[..|chunks|] == chunks;
    var copied := parser.buffer.Copy(0, parser.buffer.size);
    leftover := copied.value;
    StreamMeaning(parser.stream);
    crcErrors := parser.TakeCrcErrorCount();
    lengthErrors := parser.TakeLengthErrorCount();
    overflow := parser.TakeOverflowByteCount();
  }
}
