/**
 The reference for stream parsing: one greedy left-to-right scan of a whole byte string.
 The real parser (FrameParser) works byte by byte over a ring buffer; it is proved to
 compute this scan whatever the chunking. What the scan means is stated here without
 mentioning how it runs: which frames of the stream it reports, at which offsets, what
 it counts as an error, and what it keeps back.
 */
module Scanner {
  import opened Words
  import opened Crc16
  import opened Frames

  /** What can be said about the front of a byte string. */
  datatype Verdict =
    | Wait                 // not enough bytes to tell
    | Junk                 // no header here
    | BadLength            // header, but the length byte exceeds the maximum
    | BadCrc               // a complete candidate whose checksum is wrong
    | Good(frame: Frame)

  datatype ScanResult = ScanResult(verdicts: seq<Verdict>, rest: seq<Byte>)

  const MAX_FRAME: nat := FIXED_SIZE + MAX_PAYLOAD

  function Judge(b: seq<Byte>): Verdict {
    if |b| == 0 then Wait
    else if b[0] != HEADER_1 then Junk
    else if |b| < 2 then Wait
    else if b[1] != HEADER_2 then Junk
    else if |b| < 3 then Wait
    else if b[2] > MAX_PAYLOAD then BadLength
    else if |b| < FIXED_SIZE + b[2] then Wait
    else
      match ParseCompleteFrame(b[..FIXED_SIZE + b[2]])
      case Some(frame) => Good(frame)
      case None => BadCrc
  }

  /** Bytes consumed by a verdict: a whole frame, or one byte to resynchronise. */
  function Width(v: Verdict): (w: nat)
    ensures !v.Wait? ==> w > 0
  {
    match v
    case Wait => 0
    case Good(frame) => FrameSize(frame)
    case _ => 1
  }

  function TotalWidth(vs: seq<Verdict>): nat {
    if |vs| == 0 then 0 else Width(vs[0]) + TotalWidth(vs[1..])
  }

  function FramesOf(vs: seq<Verdict>): seq<Frame> {
    if |vs| == 0 then []
    else FramesOf(vs[..|vs| - 1]) + (if vs[|vs| - 1].Good? then [vs[|vs| - 1].frame] else [])
  }

  /** Where each reported frame begins. */
  function OffsetsOf(vs: seq<Verdict>): seq<nat> {
    if |vs| == 0 then []
    else OffsetsOf(vs[..|vs| - 1]) + (if vs[|vs| - 1].Good? then [TotalWidth(vs[..|vs| - 1])] else [])
  }

  function CrcErrors(vs: seq<Verdict>): nat {
    if |vs| == 0 then 0 else CrcErrors(vs[..|vs| - 1]) + (if vs[|vs| - 1].BadCrc? then 1 else 0)
  }

  function LengthErrors(vs: seq<Verdict>): nat {
    if |vs| == 0 then 0 else LengthErrors(vs[..|vs| - 1]) + (if vs[|vs| - 1].BadLength? then 1 else 0)
  }

  lemma JudgeWidth(b: seq<Byte>)
    ensures Width(Judge(b)) <= |b|
    ensures Judge(b).Good? ==> WellFormed(Judge(b).frame) && b[..Width(Judge(b))] == Encode(Judge(b).frame)
  {
    if Judge(b).Good? {
      ParseOnlyEncodings(b[..FIXED_SIZE + b[2]]);
    }
  }

  /** A complete candidate is refused for no other reason than its checksum. */
  lemma BadCrcIsMismatch(b: seq<Byte>)
    ensures Judge(b).BadCrc? <==>
            && |b| >= FIXED_SIZE && b[0] == HEADER_1 && b[1] == HEADER_2 && b[2] <= MAX_PAYLOAD
            && |b| >= FIXED_SIZE + b[2] && Crc(b[2..5 + b[2]]) != Join(b[5 + b[2]], b[6 + b[2]])
  {
    hide Crc, Join;
    if |b| >= FIXED_SIZE && b[2] <= MAX_PAYLOAD && |b| >= FIXED_SIZE + b[2] {
      assert b[..FIXED_SIZE + b[2]][2..5 + b[2]] == b[2..5 + b[2]];
    }
  }

  function Scan(b: seq<Byte>): ScanResult
    decreases |b|
  {
    var v := Judge(b);
    JudgeWidth(b);
    if v.Wait? then ScanResult([], b)
    else
      var r := Scan(b[Width(v)..]);
      ScanResult([v] + r.verdicts, r.rest)
  }

  lemma {:induction false} SummariesAppend(v: seq<Verdict>, w: seq<Verdict>)
    ensures FramesOf(v + w) == FramesOf(v) + FramesOf(w)
    ensures CrcErrors(v + w) == CrcErrors(v) + CrcErrors(w)
    ensures LengthErrors(v + w) == LengthErrors(v) + LengthErrors(w)
    decreases |w|
  {
    if |w| == 0 {
      assert v + w == v;
    } else {
      assert (v + w)[..|v + w| - 1] == v + w[..|w| - 1];
      SummariesAppend(v, w[..|w| - 1]);
    }
  }

  // ----- chunking -----

  /** Bytes arriving later never change a verdict that has been reached. */
  lemma JudgeStable(a: seq<Byte>, b: seq<Byte>)
    requires !Judge(a).Wait?
    ensures Judge(a + b) == Judge(a)
  {
    hide ParseCompleteFrame;
    if |a| >= 3 && a[2] <= MAX_PAYLOAD && |a| >= FIXED_SIZE + a[2] {
      assert (a + b)[..FIXED_SIZE + a[2]] == a[..FIXED_SIZE + a[2]];
    }
  }

  lemma {:induction false} ScanStep(b: seq<Byte>)
    requires !Judge(b).Wait?
    ensures Width(Judge(b)) <= |b|
    ensures var r := Scan(b[Width(Judge(b))..]);
            Scan(b) == ScanResult([Judge(b)] + r.verdicts, r.rest)
  {
    hide Judge, Width;
    JudgeWidth(b);
  }

  /** Scanning a stream is scanning a prefix and then what it left together with the remainder. */
  lemma {:induction false} ScanAppend(a: seq<Byte>, b: seq<Byte>)
    ensures var first := Scan(a);
            var second := Scan(first.rest + b);
            Scan(a + b) == ScanResult(first.verdicts + second.verdicts, second.rest)
    decreases |a|
  {
    hide Judge, Width;
    var v := Judge(a);
    if v.Wait? {
      assert [] + Scan(a + b).verdicts == Scan(a + b).verdicts;
    } else {
      hide Scan;
      JudgeStable(a, b);
      ScanStep(a);
      ScanStep(a + b);
      var w := Width(v);
      assert (a + b)[w..] == a[w..] + b;
      ScanAppend(a[w..], b);
      var first := Scan(a[w..]).verdicts;
      var second := Scan(Scan(a[w..]).rest + b).verdicts;
      assert [v] + (first + second) == [v] + first + second;
    }
  }

  lemma {:induction false} ScanRestWaits(b: seq<Byte>)
    ensures Judge(Scan(b).rest).Wait? && Scan(Scan(b).rest) == ScanResult([], Scan(b).rest)
    decreases |b|
  {
    hide Judge;
    JudgeWidth(b);
    if !Judge(b).Wait? { ScanRestWaits(b[Width(Judge(b))..]); }
  }

  lemma WaitIsShort(b: seq<Byte>)
    requires Judge(b).Wait?
    ensures |b| < MAX_FRAME
  {}

  // ----- what the scan reports -----

  /** The verdicts tile the scanned prefix: each one is the verdict on the stream from the
      offset where the previous ones end, none is a wait, and at their end one has to wait. */
  ghost predicate Tiling(s: seq<Byte>, vs: seq<Verdict>) {
    && (forall i :: 0 <= i < |vs| ==> Tile(s, vs, i))
    && TotalWidth(vs) <= |s| && Judge(s[TotalWidth(vs)..]).Wait?
  }

  ghost predicate Tile(s: seq<Byte>, vs: seq<Verdict>, i: nat)
    requires i < |vs|
  {
    var o := TotalWidth(vs[..i]);
    o <= |s| && Judge(s[o..]) == vs[i] && !vs[i].Wait?
  }

  lemma TotalWidthTail(vs: seq<Verdict>, i: nat)
    requires 0 < i <= |vs|
    ensures TotalWidth(vs[..i]) == Width(vs[0]) + TotalWidth(vs[1..][..i - 1])
  {
    assert vs[..i][1..] == vs[1..][..i - 1];
  }

  lemma {:induction false} ScanTile(s: seq<Byte>, i: nat)
    requires i < |Scan(s).verdicts|
    ensures Tile(s, Scan(s).verdicts, i)
    decreases |s|
  {
    hide Judge, Width;
    JudgeWidth(s);
    var v, vs := Judge(s), Scan(s).verdicts;
    if i == 0 {
      assert s[0..] == s && vs[..0] == [];
    } else {
      var t := s[Width(v)..];
      assert vs[1..] == Scan(t).verdicts;
      ScanTile(t, i - 1);
      TotalWidthTail(vs, i);
      assert t[TotalWidth(vs[1..][..i - 1])..] == s[TotalWidth(vs[..i])..];
    }
  }

  /** Every byte of the stream is in a verdict's span or kept back, in order. */
  lemma {:induction false} ScanRest(s: seq<Byte>)
    ensures TotalWidth(Scan(s).verdicts) <= |s|
    ensures Scan(s).rest == s[TotalWidth(Scan(s).verdicts)..]
    decreases |s|
  {
    hide Judge, Width;
    JudgeWidth(s);
    var v, vs := Judge(s), Scan(s).verdicts;
    if !v.Wait? {
      var t := s[Width(v)..];
      ScanRest(t);
      assert vs[1..] == Scan(t).verdicts;
      assert t[TotalWidth(vs[1..])..] == s[TotalWidth(vs)..];
    }
  }

  lemma {:induction false} TilingsAgree(s: seq<Byte>, us: seq<Verdict>, vs: seq<Verdict>, i: nat)
    requires Tiling(s, us) && Tiling(s, vs) && i <= |us| && i <= |vs|
    ensures us[..i] == vs[..i]
    decreases i
  {
    hide Judge, TotalWidth;
    if i > 0 {
      TilingsAgree(s, us, vs, i - 1);
      assert Tile(s, us, i - 1) && Tile(s, vs, i - 1);
      assert us[..i] == us[..i - 1] + [us[i - 1]] && vs[..i] == vs[..i - 1] + [vs[i - 1]];
    }
  }

  /** A stream has exactly one tiling, and the scan computes it. */
  lemma {:induction false} ScanIsTheTiling(s: seq<Byte>, vs: seq<Verdict>)
    ensures Tiling(s, vs) <==> vs == Scan(s).verdicts
  {
    hide Judge, TotalWidth, Scan;
    var us := Scan(s).verdicts;
    forall i | 0 <= i < |us| ensures Tile(s, us, i) { ScanTile(s, i); }
    ScanRest(s);
    ScanRestWaits(s);
    if Tiling(s, vs) {
      var n := if |us| < |vs| then |us| else |vs|;
      TilingsAgree(s, us, vs, n);
      assert us[..|us|] == us && vs[..|vs|] == vs;
      assert n < |us| ==> Tile(s, us, n);
      assert n < |vs| ==> Tile(s, vs, n);
    }
  }

  /** Frame f lies in the stream at offset o. */
  ghost predicate FrameAt(s: seq<Byte>, o: nat, f: Frame) {
    WellFormed(f) && o + FrameSize(f) <= |s| && s[o..o + FrameSize(f)] == Encode(f)
  }

  /** The scan reports frame f from offset o. */
  ghost predicate ReportedAt(s: seq<Byte>, o: nat, f: Frame) {
    var vs := Scan(s).verdicts;
    exists i :: 0 <= i < |vs| && vs[i] == Good(f) && TotalWidth(vs[..i]) == o
  }

  /** A reported frame starts before o and ends after it. */
  ghost predicate CoveredAt(s: seq<Byte>, o: nat) {
    exists p: nat, g :: ReportedAt(s, p, g) && p < o < p + FrameSize(g)
  }

  lemma JudgeFrame(b: seq<Byte>, f: Frame)
    requires FrameAt(b, 0, f)
    ensures Judge(b) == Good(f)
  {
    hide Crc, ParseCompleteFrame;
    assert b[0..FrameSize(f)] == b[..FrameSize(f)];
    assert Encode(f)[0] == HEADER_1 && Encode(f)[1] == HEADER_2 && Encode(f)[2] == |f.payload|;
    ParseInvertsEncode(f);
  }

  /** Where a frame's bytes arrive damaged, its header and length still intact, the verdict on what
      begins there is a checksum error. */
  lemma DamagedFrameJudged(s: seq<Byte>, o: nat, f: Frame, received: seq<Byte>)
    requires WellFormed(f) && Damaged(Encode(f), received) && received[..3] == Encode(f)[..3]
    requires o + |received| <= |s| && s[o..o + |received|] == received
    ensures Judge(s[o..]) == BadCrc
  {
    ParseInvertsEncode(f);
    DamagedFrameRejected(Encode(f), received);
    HeaderOf(f);
    hide Crc, ParseCompleteFrame, Damaged, Encode;
    var b := s[o..];
    assert b[..FrameSize(f)] == received;
    assert b[0] == received[..3][0] && b[1] == received[..3][1] && b[2] == received[..3][2];
  }

  lemma HeaderOf(f: Frame)
    requires WellFormed(f)
    ensures |Encode(f)| == FrameSize(f) && Encode(f)[..3] == [HEADER_1, HEADER_2, |f.payload|]
  {
    hide Crc;
  }

  lemma {:induction false} WidthsIncrease(vs: seq<Verdict>, i: nat, j: nat)
    requires i < j <= |vs|
    ensures TotalWidth(vs[..i]) + Width(vs[i]) <= TotalWidth(vs[..j])
    decreases i
  {
    TotalWidthTail(vs, j);
    if i > 0 {
      TotalWidthTail(vs, i);
      WidthsIncrease(vs[1..], i - 1, j - 1);
    }
  }

  /** Every scanned offset lies in the span of one verdict. */
  lemma {:induction false} Locate(vs: seq<Verdict>, o: nat) returns (i: nat)
    requires o < TotalWidth(vs)
    ensures i < |vs| && TotalWidth(vs[..i]) <= o < TotalWidth(vs[..i]) + Width(vs[i])
  {
    if o < Width(vs[0]) {
      i := 0;
    } else {
      var k := Locate(vs[1..], o - Width(vs[0]));
      i := k + 1;
      TotalWidthTail(vs, i);
    }
  }

  /** No fabrication: a reported frame is a well-formed frame of the stream, byte for byte. */
  lemma {:induction false} ReportedIsThere(s: seq<Byte>, o: nat, f: Frame)
    requires ReportedAt(s, o, f)
    ensures FrameAt(s, o, f) && o + FrameSize(f) <= TotalWidth(Scan(s).verdicts)
  {
    hide Judge, Scan;
    var vs := Scan(s).verdicts;
    var i :| 0 <= i < |vs| && vs[i] == Good(f) && TotalWidth(vs[..i]) == o;
    ScanTile(s, i);
    JudgeWidth(s[o..]);
    assert s[o..][..FrameSize(f)] == s[o..o + FrameSize(f)];
    WidthsIncrease(vs, i, |vs|);
    assert vs[..|vs|] == vs;
  }

  /** Reported frames never overlap. */
  lemma ReportsDisjoint(s: seq<Byte>, o: nat, f: Frame, p: nat, g: Frame)
    requires ReportedAt(s, o, f) && ReportedAt(s, p, g) && p <= o
    ensures (p == o && f == g) || p + FrameSize(g) <= o
  {
    hide Judge, Scan, TotalWidth;
    var vs := Scan(s).verdicts;
    var i :| 0 <= i < |vs| && vs[i] == Good(f) && TotalWidth(vs[..i]) == o;
    var j :| 0 <= j < |vs| && vs[j] == Good(g) && TotalWidth(vs[..j]) == p;
    if i < j { WidthsIncrease(vs, i, j); }
    if j < i { WidthsIncrease(vs, j, i); }
  }

  /** The k-th frame and the k-th offset belong to the same verdict. */
  lemma {:induction false} FrameVerdict(vs: seq<Verdict>, k: nat) returns (i: nat)
    requires k < |FramesOf(vs)|
    ensures |OffsetsOf(vs)| == |FramesOf(vs)| && i < |vs|
    ensures vs[i] == Good(FramesOf(vs)[k]) && TotalWidth(vs[..i]) == OffsetsOf(vs)[k] && k == |FramesOf(vs[..i])|
  {
    hide TotalWidth;
    OffsetsMatch(vs);
    var n := |vs| - 1;
    OffsetsMatch(vs[..n]);
    if k < |FramesOf(vs[..n])| {
      i := FrameVerdict(vs[..n], k);
      assert vs[..n][..i] == vs[..i];
    } else {
      i := n;
    }
  }

  lemma {:induction false} OffsetsMatch(vs: seq<Verdict>)
    ensures |OffsetsOf(vs)| == |FramesOf(vs)|
  {
    hide TotalWidth;
    if |vs| > 0 { OffsetsMatch(vs[..|vs| - 1]); }
  }

  /** A good verdict contributes the frame whose number is that of the good verdicts before. */
  lemma {:induction false} VerdictFrame(vs: seq<Verdict>, i: nat)
    requires i < |vs| && vs[i].Good?
    ensures var k := |FramesOf(vs[..i])|;
            && k < |FramesOf(vs)| && |OffsetsOf(vs)| == |FramesOf(vs)|
            && FramesOf(vs)[k] == vs[i].frame && OffsetsOf(vs)[k] == TotalWidth(vs[..i])
    decreases |vs|
  {
    hide TotalWidth;
    var n := |vs| - 1;
    OffsetsMatch(vs);
    OffsetsMatch(vs[..n]);
    if i < n {
      VerdictFrame(vs[..n], i);
      assert vs[..n][..i] == vs[..i];
    }
  }

  lemma {:induction false} FramesGrow(vs: seq<Verdict>, i: nat, j: nat)
    requires i <= j <= |vs|
    ensures |FramesOf(vs[..i])| <= |FramesOf(vs[..j])|
    decreases j
  {
    if i < j {
      FramesGrow(vs, i, j - 1);
      assert vs[..j][..j - 1] == vs[..j - 1];
    }
  }

  /** The list of frames returned is the list of frames reported: the k-th one at the k-th
      offset, each beginning after the previous ones end. */
  lemma {:induction false} FramesInOrder(s: seq<Byte>, k: nat)
    requires k < |FramesOf(Scan(s).verdicts)|
    ensures var fs, os := FramesOf(Scan(s).verdicts), OffsetsOf(Scan(s).verdicts);
            && |os| == |fs| && ReportedAt(s, os[k], fs[k])
            && forall j :: 0 <= j < k ==> os[j] + FrameSize(fs[j]) <= os[k]
  {
    hide Scan, TotalWidth, FramesOf, OffsetsOf;
    var vs := Scan(s).verdicts;
    var i := FrameVerdict(vs, k);
    var fs, os := FramesOf(vs), OffsetsOf(vs);
    forall j | 0 <= j < k ensures os[j] + FrameSize(fs[j]) <= os[k] {
      var h := FrameVerdict(vs, j);
      if h >= i { FramesGrow(vs, i, h); }
      WidthsIncrease(vs, h, i);
    }
  }

  lemma {:induction false} ReportedIsReturned(s: seq<Byte>, o: nat, f: Frame)
    requires ReportedAt(s, o, f)
    ensures var fs, os := FramesOf(Scan(s).verdicts), OffsetsOf(Scan(s).verdicts);
            |os| == |fs| && exists k :: 0 <= k < |fs| && fs[k] == f && os[k] == o
  {
    hide Scan, TotalWidth, FramesOf, OffsetsOf;
    var vs := Scan(s).verdicts;
    var i :| 0 <= i < |vs| && vs[i] == Good(f) && TotalWidth(vs[..i]) == o;
    VerdictFrame(vs, i);
    assert FramesOf(vs)[|FramesOf(vs[..i])|] == f;
  }

  lemma {:induction false} ScannedFrame(s: seq<Byte>, o: nat, f: Frame)
    requires FrameAt(s, o, f) && o < TotalWidth(Scan(s).verdicts)
    ensures ReportedAt(s, o, f) || CoveredAt(s, o)
  {
    hide Judge, Scan, TotalWidth;
    var vs := Scan(s).verdicts;
    var i := Locate(vs, o);
    ScanTile(s, i);
    var p := TotalWidth(vs[..i]);
    if p == o {
      assert s[o..][0..FrameSize(f)] == s[o..o + FrameSize(f)];
      JudgeFrame(s[o..], f);
    } else {
      assert ReportedAt(s, p, vs[i].frame);
    }
  }

  /** A checksum error is among the verdicts, drawn at this offset, and counted. */
  ghost predicate BadCrcAt(s: seq<Byte>, o: nat) {
    var vs := Scan(s).verdicts;
    CrcErrors(vs) > 0 && exists i :: 0 <= i < |vs| && vs[i].BadCrc? && TotalWidth(vs[..i]) == o
  }

  lemma {:induction false} ErrorsCounted(vs: seq<Verdict>, i: nat)
    requires i < |vs| && vs[i].BadCrc?
    ensures CrcErrors(vs) > 0
    decreases |vs|
  {
    if i < |vs| - 1 { ErrorsCounted(vs[..|vs| - 1], i); }
  }

  /** The stream form of error detection: once the scanner has passed the beginning of a frame that
      arrived damaged, its header and length still intact, a reported frame overlaps that place or
      a checksum error has been counted for it. */
  lemma {:induction false} DamagedFrameCounted(s: seq<Byte>, o: nat, f: Frame, received: seq<Byte>)
    requires WellFormed(f) && Damaged(Encode(f), received) && received[..3] == Encode(f)[..3]
    requires o + |received| <= |s| && s[o..o + |received|] == received
    requires o < TotalWidth(Scan(s).verdicts)
    ensures BadCrcAt(s, o) || CoveredAt(s, o)
  {
    DamagedFrameJudged(s, o, f, received);
    hide Judge, Scan, TotalWidth, CrcErrors, Encode, Damaged;
    var vs := Scan(s).verdicts;
    var i := Locate(vs, o);
    ScanTile(s, i);
    if TotalWidth(vs[..i]) == o {
      ErrorsCounted(vs, i);
    } else {
      assert ReportedAt(s, TotalWidth(vs[..i]), vs[i].frame);
    }
  }

  /** Leftmost non-overlapping matches: among the scanned offsets, the scan reports exactly
      the frames of the stream that do not begin inside a frame already reported. */
  lemma {:induction false} GreedyExact(s: seq<Byte>, o: nat, f: Frame)
    ensures ReportedAt(s, o, f) <==>
            FrameAt(s, o, f) && o < TotalWidth(Scan(s).verdicts) && !CoveredAt(s, o)
  {
    hide Judge, Scan, TotalWidth;
    if ReportedAt(s, o, f) {
      ReportedIsThere(s, o, f);
      if CoveredAt(s, o) {
        var p: nat, g :| ReportedAt(s, p, g) && p < o < p + FrameSize(g);
        ReportsDisjoint(s, o, f, p, g);
      }
    } else if FrameAt(s, o, f) && o < TotalWidth(Scan(s).verdicts) {
      ScannedFrame(s, o, f);
    }
  }

  // ----- what is counted -----

  /** A frame header with its length byte lies in the stream at offset o. */
  predicate HeaderAt(s: seq<Byte>, o: nat) {
    o + 2 < |s| && s[o] == 0xAA && s[o + 1] == 0x55
  }

  predicate OversizedAt(s: seq<Byte>, o: nat) {
    HeaderAt(s, o) && s[o + 2] > 64
  }

  /** All bytes of a candidate are there, and they are no frame. */
  ghost predicate BadCandidateAt(s: seq<Byte>, o: nat) {
    && HeaderAt(s, o) && s[o + 2] <= 64 && o + 7 + s[o + 2] <= |s|
    && forall f :: !FrameAt(s, o, f)
  }

  /** The offsets below n that lie outside reported frames and hold an oversized length. */
  ghost function OversizedOffsets(s: seq<Byte>, n: nat): set<nat> {
    set o: nat | o < n && OversizedAt(s, o) && !CoveredAt(s, o)
  }

  /** The offsets below n that lie outside reported frames and hold a complete candidate that is
      no frame. */
  ghost function BadCandidateOffsets(s: seq<Byte>, n: nat): set<nat> {
    set o: nat | o < n && BadCandidateAt(s, o) && !CoveredAt(s, o)
  }

  /** The beginning of what may become a frame. */
  predicate Incomplete(b: seq<Byte>) {
    || |b| == 0
    || (b[0] == 0xAA && |b| == 1)
    || (b[0] == 0xAA && b[1] == 0x55 && |b| == 2)
    || (b[0] == 0xAA && b[1] == 0x55 && b[2] <= 64 && |b| < 7 + b[2] as int)
  }

  /** Verdicts by the bytes alone. */
  lemma {:induction false} JudgeByBytes(s: seq<Byte>, o: nat)
    requires o <= |s|
    ensures Judge(s[o..]).Wait? <==> Incomplete(s[o..])
    ensures Judge(s[o..]).Good? <==> exists f :: FrameAt(s, o, f)
    ensures Judge(s[o..]).BadLength? <==> OversizedAt(s, o)
    ensures Judge(s[o..]).BadCrc? <==> BadCandidateAt(s, o)
  {
    hide Crc, ParseCompleteFrame;
    var b := s[o..];
    if HeaderAt(s, o) && s[o + 2] <= 64 && o + 7 + s[o + 2] <= |s| {
      var data := b[..7 + s[o + 2]];
      assert data == s[o..o + 7 + s[o + 2]];
      forall f ensures FrameAt(s, o, f) <==> ParseCompleteFrame(data) == Some(f) {
        FrameIs(s, o, f);
      }
    } else {
      forall f ensures !FrameAt(s, o, f) {
        if FrameAt(s, o, f) { NoFrame(s, o, f); }
      }
    }
  }

  lemma NoFrame(s: seq<Byte>, o: nat, f: Frame)
    requires FrameAt(s, o, f)
    ensures HeaderAt(s, o) && s[o + 2] <= 64 && o + 7 + s[o + 2] <= |s|
  {
    hide Crc;
    var bytes := s[o..o + FrameSize(f)];
    assert bytes[0] == s[o] && bytes[1] == s[o + 1] && bytes[2] == s[o + 2];
    assert Encode(f)[0] == 0xAA && Encode(f)[1] == 0x55 && Encode(f)[2] == |f.payload|;
  }

  lemma {:induction false} FrameIs(s: seq<Byte>, o: nat, f: Frame)
    requires HeaderAt(s, o) && s[o + 2] <= 64 && o + 7 + s[o + 2] <= |s|
    ensures FrameAt(s, o, f) <==> ParseCompleteFrame(s[o..o + 7 + s[o + 2]]) == Some(f)
  {
    hide Crc, ParseCompleteFrame;
    ParseExact(s[o..o + 7 + s[o + 2]], f);
    if FrameAt(s, o, f) {
      assert s[o..o + FrameSize(f)][2] == s[o + 2] && Encode(f)[2] == |f.payload|;
    }
  }

  /** Where a verdict begins nothing reported covers it, and inside its span everything is. */
  lemma {:induction false} VerdictSpan(s: seq<Byte>, i: nat)
    requires i < |Scan(s).verdicts|
    ensures var vs := Scan(s).verdicts;
            var p := TotalWidth(vs[..i]);
            && !CoveredAt(s, p)
            && (forall o :: p < o < p + Width(vs[i]) ==> CoveredAt(s, o))
            && p + Width(vs[i]) == TotalWidth(vs[..i + 1]) && p <= |s| && vs[i] == Judge(s[p..]) && !vs[i].Wait?
  {
    hide Judge, Scan, TotalWidth;
    var vs := Scan(s).verdicts;
    var p := TotalWidth(vs[..i]);
    ScanTile(s, i);
    WidthsIncrease(vs, i, i + 1);
    NextWidth(vs, i);
    if CoveredAt(s, p) {
      var q: nat, g :| ReportedAt(s, q, g) && q < p < q + FrameSize(g);
      var j :| 0 <= j < |vs| && vs[j] == Good(g) && TotalWidth(vs[..j]) == q;
      if j < i { WidthsIncrease(vs, j, i); }
      if i < j { WidthsIncrease(vs, i, j); }
    }
    if vs[i].Good? {
      assert ReportedAt(s, p, vs[i].frame);
    }
  }

  lemma {:induction false} NextWidth(vs: seq<Verdict>, i: nat)
    requires i < |vs|
    ensures TotalWidth(vs[..i + 1]) == TotalWidth(vs[..i]) + Width(vs[i])
    decreases i
  {
    TotalWidthTail(vs, i + 1);
    if i > 0 {
      TotalWidthTail(vs, i);
      NextWidth(vs[1..], i - 1);
    } else {
      assert vs[1..][..0] == [] && vs[..0] == [];
    }
  }

  lemma {:induction false} CountPrefix(s: seq<Byte>, i: nat)
    requires i <= |Scan(s).verdicts|
    ensures var vs := Scan(s).verdicts;
            var n := TotalWidth(vs[..i]);
            LengthErrors(vs[..i]) == |OversizedOffsets(s, n)| && CrcErrors(vs[..i]) == |BadCandidateOffsets(s, n)|
    decreases i
  {
    hide Judge, Scan, TotalWidth, CoveredAt, OversizedAt, BadCandidateAt;
    var vs := Scan(s).verdicts;
    if i == 0 {
      NoWidth(vs);
      assert OversizedOffsets(s, 0) == {} && BadCandidateOffsets(s, 0) == {};
    } else {
      CountPrefix(s, i - 1);
      VerdictSpan(s, i - 1);
      assert vs[..i][..i - 1] == vs[..i - 1];
      var p, n, v := TotalWidth(vs[..i - 1]), TotalWidth(vs[..i]), vs[i - 1];
      JudgeByBytes(s, p);
      NonTrivialWidth(v);
      OneMoreOffset(s, p, n);
    }
  }

  lemma NonTrivialWidth(v: Verdict)
    requires !v.Wait?
    ensures Width(v) > 0
  {}

  lemma NoWidth(vs: seq<Verdict>)
    ensures TotalWidth(vs[..0]) == 0 && LengthErrors(vs[..0]) == 0 && CrcErrors(vs[..0]) == 0
  {}

  lemma OneMoreElement(larger: set<nat>, smaller: set<nat>, p: nat, there: bool)
    requires p !in smaller && forall o :: o in larger <==> o in smaller || (there && o == p)
    ensures |larger| == |smaller| + if there then 1 else 0
  {
    assert larger == smaller + if there then {p} else {};
  }

  /** Of a span whose inside is covered, only the beginning can be counted. */
  lemma {:induction false} OneMoreOffset(s: seq<Byte>, p: nat, n: nat)
    requires p < n && !CoveredAt(s, p) && forall o :: p < o < n ==> CoveredAt(s, o)
    ensures |OversizedOffsets(s, n)| == |OversizedOffsets(s, p)| + if OversizedAt(s, p) then 1 else 0
    ensures |BadCandidateOffsets(s, n)| == |BadCandidateOffsets(s, p)| + if BadCandidateAt(s, p) then 1 else 0
  {
    hide CoveredAt, OversizedAt, BadCandidateAt;
    OneMoreElement(OversizedOffsets(s, n), OversizedOffsets(s, p), p, OversizedAt(s, p));
    OneMoreElement(BadCandidateOffsets(s, n), BadCandidateOffsets(s, p), p, BadCandidateAt(s, p));
  }

  /** What the two counters count, by the bytes of the stream: of the offsets the scan has passed
      and no reported frame covers, those with a header and an oversized length, and those with a
      complete candidate that is no frame. */
  lemma {:induction false} ErrorsExact(s: seq<Byte>)
    ensures |Scan(s).rest| <= |s| && Scan(s).rest == s[|s| - |Scan(s).rest|..] && Incomplete(Scan(s).rest)
    ensures var n := |s| - |Scan(s).rest|;
            && LengthErrors(Scan(s).verdicts) == |OversizedOffsets(s, n)|
            && CrcErrors(Scan(s).verdicts) == |BadCandidateOffsets(s, n)|
  {
    hide *;
    var vs := Scan(s).verdicts;
    ScanRest(s);
    ScanRestWaits(s);
    JudgeByBytes(Scan(s).rest, 0);
    assert Scan(s).rest[0..] == Scan(s).rest;
    CountPrefix(s, |vs|);
    assert vs[..|vs|] == vs;
  }

  // ----- recovery -----

  const RECOVERY: nat := 68

  /** What can hold a good frame back: a header at least three bytes earlier. */
  lemma WaitBeforeFrame(b: seq<Byte>, o: nat, f: Frame)
    requires FrameAt(b, o, f) && o + RECOVERY <= |b|
    ensures !Judge(b).Wait?
  {
    hide Crc, ParseCompleteFrame;
    if o == 0 {
      JudgeFrame(b, f);
    } else {
      assert b[o..o + FrameSize(f)][0] == b[o] == HEADER_1;
    }
  }

  /** Bounded recovery: whatever noise, bad lengths or bad checksums precede a good frame,
      once 68 bytes from its start have arrived it has been reported, or a reported frame
      overlaps its start. */
  lemma Recovery(s: seq<Byte>, o: nat, f: Frame)
    requires FrameAt(s, o, f) && o + RECOVERY <= |s|
    ensures ReportedAt(s, o, f) || CoveredAt(s, o)
  {
    hide *;
    ScanRest(s);
    ScanRestWaits(s);
    var n := TotalWidth(Scan(s).verdicts);
    if n <= o {
      FrameInSuffix(s, n, o, f);
      WaitBeforeFrame(s[n..], o - n, f);
    }
    ScannedFrame(s, o, f);
  }

  /** The k-th returned frame begins at o, or before it and ends after it. */
  predicate Meets(frames: seq<Frame>, offsets: seq<nat>, k: nat, o: nat, f: Frame)
    requires k < |frames| == |offsets|
  {
    (offsets[k] == o && frames[k] == f) || offsets[k] < o < offsets[k] + FrameSize(frames[k])
  }

  /** Bounded recovery for the list of frames a parser returns. */
  lemma {:induction false} RecoveryReturned(s: seq<Byte>, o: nat, f: Frame)
    requires FrameAt(s, o, f) && o + RECOVERY <= |s|
    ensures var fs, os := FramesOf(Scan(s).verdicts), OffsetsOf(Scan(s).verdicts);
            |os| == |fs| && exists k :: 0 <= k < |fs| && Meets(fs, os, k, o, f)
  {
    hide Scan, FramesOf, OffsetsOf, ReportedAt, FrameAt;
    Recovery(s, o, f);
    var fs, os := FramesOf(Scan(s).verdicts), OffsetsOf(Scan(s).verdicts);
    if ReportedAt(s, o, f) {
      ReportedIsReturned(s, o, f);
      var k :| 0 <= k < |fs| && fs[k] == f && os[k] == o;
      assert Meets(fs, os, k, o, f);
    } else {
      var p: nat, g :| ReportedAt(s, p, g) && p < o < p + FrameSize(g);
      ReportedIsReturned(s, p, g);
      var k :| 0 <= k < |fs| && fs[k] == g && os[k] == p;
      assert Meets(fs, os, k, o, f);
    }
  }

  lemma FrameInSuffix(s: seq<Byte>, n: nat, o: nat, f: Frame)
    requires FrameAt(s, o, f) && n <= o
    ensures n <= |s| && FrameAt(s[n..], o - n, f)
  {
    hide Crc, Encode;
    assert s[n..][o - n..o - n + FrameSize(f)] == s[o..o + FrameSize(f)];
  }

  /** One byte less is not enough: behind a stray header that announces the longest payload,
      no frame of up to 67 bytes is seen while only 67 bytes from its start have arrived. */
  lemma RecoveryIsTight(f: Frame, padding: seq<Byte>)
    requires WellFormed(f) && FrameSize(f) + |padding| == RECOVERY - 1
    ensures var s := [HEADER_1, HEADER_2, MAX_PAYLOAD] + Encode(f) + padding;
            FrameAt(s, 3, f) && |s| == 3 + RECOVERY - 1 && Scan(s).verdicts == []
  {
    hide Crc, ParseCompleteFrame;
    var s := [HEADER_1, HEADER_2, MAX_PAYLOAD] + Encode(f) + padding;
    assert s[3..3 + FrameSize(f)] == Encode(f);
  }

  /** Being overlapped does happen: a frame carried inside another frame's payload lies in
      the stream, but only the outer frame is reported. */
  lemma NestedFrameHidden(f: Frame, g: Frame)
    requires WellFormed(f) && WellFormed(g) && g.payload == Encode(f)
    ensures FrameAt(Encode(g), 5, f) && !ReportedAt(Encode(g), 5, f)
  {
    hide Judge, Scan, TotalWidth, Crc;
    var s := Encode(g);
    assert s[5..5 + FrameSize(f)] == Encode(f);
    assert s[0..FrameSize(g)] == s && s[0..] == s;
    JudgeFrame(s, g);
    ScanStep(s);
    assert Scan(s).verdicts[..0] == [];
    assert TotalWidth([]) == 0 by { EmptyScan(); }
    assert ReportedAt(s, 0, g);
    if ReportedAt(s, 5, f) { ReportsDisjoint(s, 5, f, 0, g); }
  }

  // ----- conservation -----

  /** Bytes dropped while resynchronising. */
  function Discarded(vs: seq<Verdict>): nat {
    if |vs| == 0 then 0 else (if vs[0].Good? then 0 else 1) + Discarded(vs[1..])
  }

  function BytesIn(fs: seq<Frame>): nat {
    if |fs| == 0 then 0 else FrameSize(fs[0]) + BytesIn(fs[1..])
  }

  lemma {:induction false} FramesOfTail(vs: seq<Verdict>)
    requires |vs| > 0
    ensures FramesOf(vs) == (if vs[0].Good? then [vs[0].frame] else []) + FramesOf(vs[1..])
    ensures CrcErrors(vs) == (if vs[0].BadCrc? then 1 else 0) + CrcErrors(vs[1..])
    ensures LengthErrors(vs) == (if vs[0].BadLength? then 1 else 0) + LengthErrors(vs[1..])
  {
    OneVerdict(vs[0]);
    hide FramesOf, CrcErrors, LengthErrors;
    assert vs == [vs[0]] + vs[1..];
    SummariesAppend([vs[0]], vs[1..]);
  }

  lemma OneVerdict(v: Verdict)
    ensures FramesOf([v]) == if v.Good? then [v.frame] else []
    ensures CrcErrors([v]) == if v.BadCrc? then 1 else 0
    ensures LengthErrors([v]) == if v.BadLength? then 1 else 0
  {
    assert [v][..0] == [];
  }

  lemma {:induction false} VerdictBytes(vs: seq<Verdict>)
    requires forall i :: 0 <= i < |vs| ==> !vs[i].Wait?
    ensures TotalWidth(vs) == BytesIn(FramesOf(vs)) + Discarded(vs)
    ensures CrcErrors(vs) + LengthErrors(vs) <= Discarded(vs)
  {
    if |vs| > 0 {
      FramesOfTail(vs);
      VerdictBytes(vs[1..]);
      if vs[0].Good? {
        assert FramesOf(vs)[1..] == FramesOf(vs[1..]);
      } else {
        assert FramesOf(vs) == FramesOf(vs[1..]);
      }
    }
  }

  /** Byte conservation: every byte fed is in a reported frame, dropped, or still buffered,
      and each counted error cost at least one dropped byte. */
  lemma {:induction false} Conservation(s: seq<Byte>)
    ensures var r := Scan(s);
            && |s| == BytesIn(FramesOf(r.verdicts)) + Discarded(r.verdicts) + |r.rest|
            && CrcErrors(r.verdicts) + LengthErrors(r.verdicts) <= Discarded(r.verdicts)
  {
    hide Judge, Scan;
    var vs := Scan(s).verdicts;
    forall i | 0 <= i < |vs| ensures !vs[i].Wait? { ScanTile(s, i); }
    VerdictBytes(vs);
    ScanRest(s);
  }

  // ----- clean lines -----

  /** No two adjacent bytes look like a header. */
  predicate Quiet(noise: seq<Byte>) {
    forall i :: 0 <= i < |noise| - 1 ==> !(noise[i] == HEADER_1 && noise[i + 1] == HEADER_2)
  }

  datatype Burst = Burst(noise: seq<Byte>, frame: Frame)

  /** What a sender of these frames puts on a line with this noise between them. */
  function Line(bursts: seq<Burst>): seq<Byte>
    requires forall i :: 0 <= i < |bursts| ==> WellFormed(bursts[i].frame)
  {
    if |bursts| == 0 then []
    else
      assert WellFormed(bursts[0].frame);
      bursts[0].noise + Encode(bursts[0].frame) + Line(bursts[1..])
  }

  lemma {:induction false} QuietIsSkipped(noise: seq<Byte>, f: Frame, tail: seq<Byte>)
    requires Quiet(noise) && WellFormed(f)
    ensures var r := Scan(noise + Encode(f) + tail).verdicts;
            var t := Scan(tail).verdicts;
            && FramesOf(r) == [f] + FramesOf(t)
            && CrcErrors(r) == CrcErrors(t) && LengthErrors(r) == LengthErrors(t)
    ensures Scan(noise + Encode(f) + tail).rest == Scan(tail).rest
    decreases |noise|
  {
    hide Crc, ParseCompleteFrame, Scan, FramesOf, CrcErrors, LengthErrors;
    var s := noise + Encode(f) + tail;
    if |noise| == 0 {
      assert s[0..FrameSize(f)] == Encode(f);
      JudgeFrame(s, f);
      assert s[FrameSize(f)..] == tail;
    } else {
      assert s[0] == noise[0] && s[1] == if |noise| > 1 then noise[1] else HEADER_1;
      assert Judge(s) == Junk;
      assert s[1..] == noise[1..] + Encode(f) + tail;
      QuietIsSkipped(noise[1..], f, tail);
    }
    ScanStep(s);
    FramesOfTail(Scan(s).verdicts);
    assert Scan(s).verdicts[1..] == Scan(s[Width(Judge(s))..]).verdicts;
  }

  /** Frames sent with header-free noise between them all arrive, in order, with no error
      counted and nothing kept back. */
  lemma {:induction false} CleanLine(bursts: seq<Burst>)
    requires forall i :: 0 <= i < |bursts| ==> WellFormed(bursts[i].frame) && Quiet(bursts[i].noise)
    ensures var r := Scan(Line(bursts));
            && |FramesOf(r.verdicts)| == |bursts|
            && (forall i :: 0 <= i < |bursts| ==> FramesOf(r.verdicts)[i] == bursts[i].frame)
            && CrcErrors(r.verdicts) == LengthErrors(r.verdicts) == 0 && r.rest == []
  {
    hide Crc, Judge, FramesOf, CrcErrors, LengthErrors, Encode;
    if |bursts| == 0 {
      assert Scan([]) == ScanResult([], []) by { EmptyScan(); }
      EmptyScan();
    } else {
      hide Scan;
      CleanLine(bursts[1..]);
      QuietIsSkipped(bursts[0].noise, bursts[0].frame, Line(bursts[1..]));
    }
  }

  lemma EmptyScan()
    ensures Scan([]) == ScanResult([], [])
    ensures FramesOf([]) == [] && CrcErrors([]) == LengthErrors([]) == TotalWidth([]) == 0
  {}
}
