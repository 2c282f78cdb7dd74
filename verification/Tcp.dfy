/**
 JSON Lines over TCP (src/tcp/tcp_client.cpp). Each connection has the bytes that send has
 accepted for its peer; a send may be interrupted, take only part of the data, or fail, after
 which the client closes the connection and a later call opens a new one. A connection that is
 reset may deliver only the beginning of those bytes.
 */
module Tcp {
  import opened Sensor
  import opened SensorJson

  // ----- the framing -----

  /** Complete lines, each ended by a line feed. */
  function Lines(messages: seq<string>): string {
    if |messages| == 0 then "" else Lines(messages[..|messages| - 1]) + messages[|messages| - 1] + "\n"
  }

  /** What a receiver makes of the bytes of one connection: every text that a line feed ends. */
  function Received(wire: string): seq<string> {
    ReceivedFrom("", wire)
  }

  /** With the text of the current line so far. */
  function ReceivedFrom(line: string, wire: string): seq<string>
    decreases |wire|
  {
    if |wire| == 0 then []
    else if wire[0] == '\n' then [line] + ReceivedFrom("", wire[1..])
    else ReceivedFrom(line + [wire[0]], wire[1..])
  }

  predicate OneLine(s: string) { '\n' !in s }

  predicate AllOneLine(messages: seq<string>) {
    forall i :: 0 <= i < |messages| ==> OneLine(messages[i])
  }

  lemma {:induction false} ReceiveLine(line: string, text: string, rest: string)
    requires OneLine(text)
    ensures ReceivedFrom(line, text + "\n" + rest) == [line + text] + ReceivedFrom("", rest)
    decreases |text|
  {
    var wire := text + "\n" + rest;
    if |text| == 0 {
      assert wire[1..] == rest && line + text == line;
    } else {
      assert wire[1..] == text[1..] + "\n" + rest;
      ReceiveLine(line + [text[0]], text[1..], rest);
      assert line + [text[0]] + text[1..] == line + text;
    }
  }

  lemma {:induction false} ReceiveTail(line: string, tail: string)
    requires OneLine(tail)
    ensures ReceivedFrom(line, tail) == []
    decreases |tail|
  {
    if |tail| > 0 { ReceiveTail(line + [tail[0]], tail[1..]); }
  }

  lemma {:induction false} ReceiveLines(messages: seq<string>, rest: string)
    requires AllOneLine(messages)
    ensures Received(Lines(messages) + rest) == messages + Received(rest)
    decreases |messages|
  {
    hide ReceivedFrom;
    if |messages| == 0 {
      assert Lines(messages) + rest == rest;
    } else {
      var init, last := messages[..|messages| - 1], messages[|messages| - 1];
      assert Lines(messages) + rest == Lines(init) + (last + "\n" + rest);
      ReceiveLines(init, last + "\n" + rest);
      assert OneLine(last) && "" + last == last;
      ReceiveLine("", last, rest);
      assert messages == init + [last];
    }
  }

  lemma {:induction false} ReceivedAreLines(line: string, wire: string)
    requires OneLine(line)
    ensures AllOneLine(ReceivedFrom(line, wire))
    decreases |wire|
  {
    if |wire| > 0 {
      if wire[0] == '\n' {
        ReceivedAreLines("", wire[1..]);
      } else {
        ReceivedAreLines(line + [wire[0]], wire[1..]);
      }
    }
  }

  /** Exactly when framing works: a receiver recovers the messages sent as complete lines, and
      nothing else, if and only if no message contains a line feed and neither does what was
      left unfinished. */
  lemma {:induction false} FramingExact(messages: seq<string>, tail: string)
    ensures Received(Lines(messages) + tail) == messages <==> AllOneLine(messages) && OneLine(tail)
  {
    hide ReceivedFrom;
    ReceivedAreLines("", Lines(messages) + tail);
    if AllOneLine(messages) {
      ReceiveLines(messages, tail);
      if OneLine(tail) {
        ReceiveTail("", tail);
      } else {
        SomethingReceived("", tail);
      }
    }
  }

  lemma {:induction false} SomethingReceived(line: string, tail: string)
    requires !OneLine(tail)
    ensures |ReceivedFrom(line, tail)| > 0
    decreases |tail|
  {
    if tail[0] != '\n' { SomethingReceived(line + [tail[0]], tail[1..]); }
  }

  lemma {:induction false} ReceivedMore(line: string, wire: string, more: string)
    ensures ReceivedFrom(line, wire) <= ReceivedFrom(line, wire + more)
    decreases |wire|
  {
    if |wire| > 0 {
      assert (wire + more)[1..] == wire[1..] + more;
      if wire[0] == '\n' {
        ReceivedMore("", wire[1..], more);
      } else {
        ReceivedMore(line + [wire[0]], wire[1..], more);
      }
    }
  }

  // ----- the client -----

  /** What one call of send does. */
  datatype SendOutcome = Interrupted | Accepts(count: nat) | Fails

  /** Calls after which the client goes on: none fails or accepts nothing. */
  predicate AllWork(outcomes: seq<SendOutcome>) {
    forall k :: 0 <= k < |outcomes| ==> outcomes[k] != Fails && outcomes[k] != Accepts(0)
  }

  /** The bytes these calls accept. */
  function Total(outcomes: seq<SendOutcome>): nat {
    if |outcomes| == 0 then 0
    else
      var o := outcomes[|outcomes| - 1];
      Total(outcomes[..|outcomes| - 1]) + if o.Accepts? then o.count else 0
  }

  /** Enough is accepted before a call fails. */
  ghost predicate GetsOut(size: nat, outcomes: seq<SendOutcome>) {
    exists k :: 0 <= k <= |outcomes| && AllWork(outcomes[..k]) && Total(outcomes[..k]) >= size
  }

  /** So many bytes are accepted before the first call that fails, or before the end. */
  ghost predicate GivesUpAfter(outcomes: seq<SendOutcome>, bytes: nat) {
    exists k :: 0 <= k <= |outcomes| && StopsAt(outcomes, k) && Total(outcomes[..k]) == bytes
  }

  predicate StopsAt(outcomes: seq<SendOutcome>, k: nat)
    requires k <= |outcomes|
  {
    AllWork(outcomes[..k]) && (k < |outcomes| ==> outcomes[k] == Fails || outcomes[k] == Accepts(0))
  }

  lemma {:induction false} TotalGrows(outcomes: seq<SendOutcome>, j: nat, k: nat)
    requires j <= k <= |outcomes|
    ensures Total(outcomes[..j]) <= Total(outcomes[..k])
    decreases k
  {
    if j < k {
      TotalGrows(outcomes, j, k - 1);
      assert outcomes[..k][..k - 1] == outcomes[..k - 1];
    }
  }

  /** Where the calls stop short, no prefix of them gets enough out. */
  lemma {:induction false} StoppedShort(size: nat, outcomes: seq<SendOutcome>, k: nat)
    requires k <= |outcomes| && StopsAt(outcomes, k) && Total(outcomes[..k]) < size
    ensures !GetsOut(size, outcomes)
  {
    forall j | 0 <= j <= |outcomes| && AllWork(outcomes[..j]) ensures Total(outcomes[..j]) < size {
      TotalGrows(outcomes, j, k);
    }
  }

  lemma {:induction false} TotalStep(outcomes: seq<SendOutcome>, k: nat)
    requires k < |outcomes|
    ensures var o := outcomes[k];
            Total(outcomes[..k + 1]) == Total(outcomes[..k]) + if o.Accepts? then o.count else 0
    ensures AllWork(outcomes[..k + 1]) <==>
            AllWork(outcomes[..k]) && outcomes[k] != Fails && outcomes[k] != Accepts(0)
  {
    assert outcomes[..k + 1][..k] == outcomes[..k];
    assert outcomes[..k + 1] == outcomes[..k] + [outcomes[k]];
  }

  lemma {:induction false} TotalAppend(a: seq<SendOutcome>, b: seq<SendOutcome>)
    ensures Total(a + b) == Total(a) + Total(b)
    decreases |b|
  {
    if |b| == 0 {
      assert a + b == a;
    } else {
      assert (a + b)[..|a + b| - 1] == a + b[..|b| - 1];
      TotalAppend(a, b[..|b| - 1]);
    }
  }

  lemma {:induction false} AllWorkAppend(a: seq<SendOutcome>, b: seq<SendOutcome>)
    ensures AllWork(a + b) <==> AllWork(a) && AllWork(b)
  {
    assert forall i :: 0 <= i < |a| ==> (a + b)[i] == a[i];
    assert forall i :: 0 <= i < |b| ==> (a + b)[|a| + i] == b[i];
  }

  /** Prefixes of a sequence with an interrupted call put in, and of the sequence without it. */
  lemma {:induction false} PrefixWithout(a: seq<SendOutcome>, b: seq<SendOutcome>, k: nat)
    requires k <= |a| + |b|
    ensures var j := if k < |a| then k else k + 1;
            var with, without := a + [Interrupted] + b, a + b;
            && Total(with[..j]) == Total(without[..k]) && (AllWork(with[..j]) <==> AllWork(without[..k]))
            && (StopsAt(with, j) <==> StopsAt(without, k))
  {
    hide Total, AllWork;
    var with, without := a + [Interrupted] + b, a + b;
    if k < |a| {
      assert with[..k] == without[..k] && with[k] == without[k];
    } else {
      var c := b[..k - |a|];
      assert with[..k + 1] == (a + [Interrupted]) + c && without[..k] == a + c;
      assert k < |without| ==> with[k + 1] == without[k];
      TotalAppend(a + [Interrupted], c);
      TotalAppend(a, [Interrupted]);
      TotalAppend(a, c);
      AllWorkAppend(a + [Interrupted], c);
      AllWorkAppend(a, [Interrupted]);
      AllWorkAppend(a, c);
      OneInterruption();
    }
  }

  lemma OneInterruption()
    ensures Total([Interrupted]) == 0 && AllWork([Interrupted])
  {}

  /** An interrupted call changes nothing, wherever it happens. */
  lemma {:induction false} InterruptionIgnored(a: seq<SendOutcome>, b: seq<SendOutcome>, size: nat)
    ensures GetsOut(size, a + [Interrupted] + b) <==> GetsOut(size, a + b)
    ensures GivesUpAfter(a + [Interrupted] + b, size) <==> GivesUpAfter(a + b, size)
  {
    hide Total, AllWork, StopsAt;
    var with, without := a + [Interrupted] + b, a + b;
    forall k | 0 <= k <= |without|
      ensures var j := if k < |a| then k else k + 1;
              && Total(with[..j]) == Total(without[..k]) && (AllWork(with[..j]) <==> AllWork(without[..k]))
              && (StopsAt(with, j) <==> StopsAt(without, k))
    {
      PrefixWithout(a, b, k);
    }
    NoStopThere(a, b);
    assert with[..|a|] == without[..|a|];
    if GetsOut(size, with) {
      var j :| 0 <= j <= |with| && AllWork(with[..j]) && Total(with[..j]) >= size;
      var k := if j <= |a| then j else j - 1;
      assert j == |a| ==> with[..j] == without[..k];
      assert AllWork(without[..k]) && Total(without[..k]) >= size;
    }
    if GetsOut(size, without) {
      var k :| 0 <= k <= |without| && AllWork(without[..k]) && Total(without[..k]) >= size;
      var j := if k < |a| then k else k + 1;
      assert AllWork(with[..j]) && Total(with[..j]) >= size;
    }
    if GivesUpAfter(with, size) {
      var j :| 0 <= j <= |with| && StopsAt(with, j) && Total(with[..j]) == size;
      var k := if j < |a| then j else j - 1;
      assert StopsAt(without, k) && Total(without[..k]) == size;
    }
    if GivesUpAfter(without, size) {
      var k :| 0 <= k <= |without| && StopsAt(without, k) && Total(without[..k]) == size;
      var j := if k < |a| then k else k + 1;
      assert StopsAt(with, j) && Total(with[..j]) == size;
    }
  }

  lemma NoStopThere(a: seq<SendOutcome>, b: seq<SendOutcome>)
    ensures !StopsAt(a + [Interrupted] + b, |a|)
  {}

  /** What the client has done with one connection: messages sent whole, and the message it
      was cut off in, if any, with the number of bytes that got out. */
  datatype Link = Link(sent: seq<string>, unfinished: string, cut: nat)

  /** The bytes of a connection are complete lines followed by a strict prefix of one line. */
  ghost predicate Carries(wire: string, l: Link) {
    l.cut <= |l.unfinished| && wire == Lines(l.sent) + (l.unfinished + "\n")[..l.cut]
  }

  class TcpClient {
    var connected: bool
    var wires: seq<string>      // per connection, the bytes accepted for its peer
    ghost var links: seq<Link>

    ghost predicate Valid()
      reads this
    {
      && |links| == |wires| && (connected ==> |wires| > 0)
      && (forall i :: 0 <= i < |wires| ==> Carries(wires[i], links[i]))
      && (connected ==> links[|wires| - 1].cut == 0)
    }

    constructor ()
      ensures Valid() && !connected && wires == [] && links == []
    {
      connected, wires, links := false, [], [];
    }

    /** send_all: repeats until everything is out, an interrupted call counting for nothing.
        The end of the script is a failing call. */
    method SendAll(data: string, outcomes: seq<SendOutcome>) returns (ok: bool, ghost sentBytes: nat)
      requires |wires| > 0
      modifies this`wires
      ensures |wires| == |old(wires)| && wires[..|wires| - 1] == old(wires)[..|wires| - 1]
      ensures ok <==> GetsOut(|data|, outcomes)
      ensures if ok then sentBytes == |data| else sentBytes < |data| && GivesUpAfter(outcomes, sentBytes)
      ensures wires[|wires| - 1] == old(wires)[|wires| - 1] + data[..sentBytes]
    {
      var sent: nat, k: nat := 0, 0;
      ghost var last := |wires| - 1;
      while sent < |data| && k < |outcomes|
        invariant sent <= |data| && k <= |outcomes| && |wires| == |old(wires)|
        invariant wires[..last] == old(wires)[..last] && wires[last] == old(wires)[last] + data[..sent]
        invariant AllWork(outcomes[..k])
        invariant if sent < |data| then sent == Total(outcomes[..k]) else |data| <= Total(outcomes[..k])
        decreases |outcomes| - k
      {
        hide AllWork, Total;
        TotalStep(outcomes, k);
        var outcome := outcomes[k];
        k := k + 1;
        if outcome.Interrupted? {
          continue;
        }
        if outcome.Fails? || outcome.count == 0 {
          StoppedShort(|data|, outcomes, k - 1);
          return false, sent;
        }
        var n := if outcome.count < |data| - sent then outcome.count else |data| - sent;
        assert data[..sent] + data[sent..sent + n] == data[..sent + n];
        wires := wires[|wires| - 1 := wires[|wires| - 1] + data[sent..sent + n]];
        sent := sent + n;
      }
      if sent < |data| {
        StoppedShort(|data|, outcomes, k);
      }
      return sent == |data|, sent;
    }

    /** send_json: connects if necessary, sends the text and a line feed, and closes the
        connection when that fails. Only the connection in use changes: it gains the whole
        line, or a strict prefix of it after which it is never used again. */
    method SendJson(json: string, connects: bool, outcomes: seq<SendOutcome>) returns (ok: bool)
      requires Valid()
      modifies this
      ensures Valid()
      ensures ok <==> (old(connected) || connects) && GetsOut(|json| + 1, outcomes)
      ensures !old(connected) && !connects ==> !ok && links == old(links) && !connected
      ensures old(connected) || connects ==>
                connected == ok && Sends(InUse(old(links), old(connected)), links, json, ok)
      ensures (old(connected) || connects) && !ok ==>
                links[|links| - 1].cut <= |json| && GivesUpAfter(outcomes, links[|links| - 1].cut)
      ensures old(connected) || connects ==>
                var before := if old(connected) then old(wires) else old(wires) + [""];
                && |wires| == |before| > 0 && wires[..|wires| - 1] == before[..|before| - 1]
                && wires[|wires| - 1] == before[|before| - 1]
                                         + if ok then json + "\n" else (json + "\n")[..links[|links| - 1].cut]
    {
      hide Lines, Carries, GetsOut, GivesUpAfter;
      if !connected {
        if !connects {
          return false;
        }
        CarriesNothing();
        connected, wires, links := true, wires + [""], links + [Link([], "", 0)];
      }
      var message := json + "\n";
      ghost var bytes;
      ghost var n := |wires| - 1;
      ghost var before, l := wires[n], links[n];
      assert Carries(before, l);
      ok, bytes := SendAll(message, outcomes);
      forall i | 0 <= i < n ensures Carries(wires[i], links[i]) {
        assert wires[i] == wires[..n][i] && Carries(old(wires)[i], old(links)[i]);
      }
      if !ok {
        CarriesPrefix(before, l, json, bytes);
        links := links[n := l.(unfinished := json, cut := bytes)];
        connected := false;
        return;
      }
      assert message[..bytes] == message;
      CarriesLine(before, l, json);
      links := links[n := l.(sent := l.sent + [json])];
    }
  }

  /** The effect of one send on the connections: the last one gains a line or is cut off. */
  ghost predicate Sends(base: seq<Link>, links: seq<Link>, json: string, ok: bool)
    requires |base| > 0
  {
    var n := |base| - 1;
    && |links| == |base| && links[..n] == base[..n]
    && links[n] == if ok then base[n].(sent := base[n].sent + [json])
                   else base[n].(unfinished := json, cut := links[n].cut)
  }

  lemma CarriesNothing()
    ensures Carries("", Link([], "", 0))
  {}

  lemma CarriesLine(wire: string, l: Link, json: string)
    requires Carries(wire, l) && l.cut == 0
    ensures Carries(wire + (json + "\n"), l.(sent := l.sent + [json]))
  {
    hide Lines;
    LinesSnoc(l.sent, json);
    assert (l.unfinished + "\n")[..0] == "";
  }

  lemma CarriesPrefix(wire: string, l: Link, json: string, bytes: nat)
    requires Carries(wire, l) && l.cut == 0 && bytes <= |json|
    ensures Carries(wire + (json + "\n")[..bytes], l.(unfinished := json, cut := bytes))
  {
    hide Lines;
    assert (l.unfinished + "\n")[..0] == "";
  }

  lemma {:induction false} LinesSnoc(messages: seq<string>, json: string)
    ensures Lines(messages + [json]) == Lines(messages) + (json + "\n")
  {
    assert (messages + [json])[..|messages|] == messages;
  }

  /** The connections once one is open. */
  ghost function InUse(links: seq<Link>, connected: bool): (base: seq<Link>)
    requires connected ==> |links| > 0
    ensures |base| > 0
  {
    if connected then links else links + [Link([], "", 0)]
  }

  // ----- whole runs -----

  /** All complete lines received, connection by connection. */
  function AllReceived(wires: seq<string>): seq<string> {
    if |wires| == 0 then [] else AllReceived(wires[..|wires| - 1]) + Received(wires[|wires| - 1])
  }

  ghost function AllSent(links: seq<Link>): seq<string> {
    if |links| == 0 then [] else AllSent(links[..|links| - 1]) + links[|links| - 1].sent
  }

  ghost predicate CleanLink(l: Link) {
    AllOneLine(l.sent) && OneLine(l.unfinished)
  }

  lemma {:induction false} ReceivedIsSent(wires: seq<string>, links: seq<Link>)
    requires |wires| == |links|
    requires forall i :: 0 <= i < |wires| ==> Carries(wires[i], links[i]) && CleanLink(links[i])
    ensures AllReceived(wires) == AllSent(links)
  {
    if |wires| > 0 {
      hide Received, Lines;
      var n := |wires| - 1;
      ReceivedIsSent(wires[..n], links[..n]);
      var l := links[n];
      assert Carries(wires[n], l) && CleanLink(l);
      var tail := (l.unfinished + "\n")[..l.cut];
      assert tail == l.unfinished[..l.cut];
      FramingExact(l.sent, tail);
    }
  }

  /** A send adds its message to those sent whole exactly when it succeeds, and keeps every
      connection free of stray line feeds. */
  lemma {:induction false} SendAccounted(base: seq<Link>, links: seq<Link>, json: string, ok: bool)
    requires |base| > 0 && Sends(base, links, json, ok) && OneLine(json)
    requires forall i :: 0 <= i < |base| ==> CleanLink(base[i])
    ensures AllSent(links) == AllSent(base) + if ok then [json] else []
    ensures forall i :: 0 <= i < |links| ==> CleanLink(links[i])
  {
    var n := |base| - 1;
    assert CleanLink(base[n]);
    forall i | 0 <= i < n ensures CleanLink(links[i]) {
      assert links[i] == links[..n][i] == base[i];
    }
  }

  lemma {:induction false} FreshLink(links: seq<Link>)
    requires forall i :: 0 <= i < |links| ==> CleanLink(links[i])
    ensures var base := links + [Link([], "", 0)];
            AllSent(base) == AllSent(links) && forall i :: 0 <= i < |base| ==> CleanLink(base[i])
  {
    assert (links + [Link([], "", 0)])[..|links|] == links;
  }

  /** However much of its bytes a connection delivers before it is lost, the peer receives the
      first of the messages sent whole on it: none is changed, invented or reordered. */
  lemma {:induction false} PeerReceivesPrefix(wire: string, l: Link, n: nat)
    requires Carries(wire, l) && CleanLink(l) && n <= |wire|
    ensures Received(wire[..n]) <= l.sent && Received(wire) == l.sent
  {
    hide ReceivedFrom, Lines;
    assert wire == wire[..n] + wire[n..];
    ReceivedMore("", wire[..n], wire[n..]);
    var tail := (l.unfinished + "\n")[..l.cut];
    assert tail == l.unfinished[..l.cut];
    FramingExact(l.sent, tail);
  }

  datatype Send = Send(json: string, connects: bool, outcomes: seq<SendOutcome>)

  /** The items of the calls that returned true. */
  function Select<T>(items: seq<T>, results: seq<bool>): seq<T>
    requires |items| == |results|
  {
    if |items| == 0 then []
    else
      var n := |items| - 1;
      Select(items[..n], results[..n]) + if results[n] then [items[n]] else []
  }

  lemma {:induction false} SelectStep<T>(items: seq<T>, results: seq<bool>, item: T, ok: bool)
    requires |items| == |results|
    ensures Select(items + [item], results + [ok]) == Select(items, results) + if ok then [item] else []
  {
    assert (items + [item])[..|items|] == items && (results + [ok])[..|items|] == results;
  }

  function JsonsOf(script: seq<Send>): (r: seq<string>)
    ensures |r| == |script| && forall i :: 0 <= i < |r| ==> r[i] == script[i].json
  {
    seq(|script|, i requires 0 <= i < |script| => script[i].json)
  }

  /** A call succeeds when there is or can be a connection and the whole line gets out; its
      failure costs the connection. */
  ghost predicate Succeeds(script: seq<Send>, results: seq<bool>, i: nat)
    requires i < |script| && i <= |results|
  {
    var s := script[i];
    ((i > 0 && results[i - 1]) || s.connects) && GetsOut(|s.json| + 1, s.outcomes)
  }

  /** The results so far are those of the calls so far. */
  ghost predicate Determined(script: seq<Send>, results: seq<bool>) {
    |results| <= |script| && forall i :: 0 <= i < |results| ==> results[i] == Succeeds(script, results, i)
  }

  lemma DeterminedStep(script: seq<Send>, results: seq<bool>, ok: bool)
    requires Determined(script, results) && |results| < |script| && ok == Succeeds(script, results, |results|)
    ensures Determined(script, results + [ok])
  {
    var more := results + [ok];
    hide GetsOut;
    forall i | 0 <= i < |more| ensures more[i] == Succeeds(script, more, i) {
      assert Succeeds(script, more, i) == Succeeds(script, results, i);
    }
  }

  /** The connections carry the messages of the successful calls and no stray line feed. */
  ghost predicate Accounted(links: seq<Link>, jsons: seq<string>, results: seq<bool>) {
    && |jsons| == |results| && AllSent(links) == Select(jsons, results)
    && forall i :: 0 <= i < |links| ==> CleanLink(links[i])
  }

  lemma {:induction false} AccountedSend(links: seq<Link>, connected: bool, links': seq<Link>, json: string, ok: bool,
                                         jsons: seq<string>, results: seq<bool>)
    requires Accounted(links, jsons, results) && OneLine(json) && (connected ==> |links| > 0)
    requires (links' == links && !ok) || Sends(InUse(links, connected), links', json, ok)
    ensures Accounted(links', jsons + [json], results + [ok])
  {
    hide AllSent, Sends, CleanLink, Select;
    SelectStep(jsons, results, json, ok);
    FreshLink(links);
    var base := InUse(links, connected);
    if Sends(base, links', json, ok) { SendAccounted(base, links', json, ok); }
  }

  lemma NothingAccounted()
    ensures Accounted([], [], [])
  {}

  /** Any run of sends with short writes, interruptions, failures and reconnects: splitting
      the bytes of each connection at their line feeds yields exactly the messages for which
      send_json returned true, in order. */
  method RunSends(script: seq<Send>) returns (wires: seq<string>, results: seq<bool>)
    requires forall i :: 0 <= i < |script| ==> OneLine(script[i].json)
    ensures |results| == |script| && Determined(script, results)
    ensures AllReceived(wires) == Select(JsonsOf(script), results)
  {
    hide Received, Lines, AllReceived, GetsOut, Select, AllSent, CleanLink, Sends, Carries, OneLine;
    var client := new TcpClient();
    results := [];
    ghost var jsons: seq<string> := [];
    NothingAccounted();
    for i := 0 to |script|
      invariant client.Valid() && fresh(client) && |results| == i && jsons == JsonsOf(script)[..i]
      invariant client.connected == (i > 0 && results[i - 1])
      invariant Determined(script, results) && Accounted(client.links, jsons, results)
    {
      hide Accounted, Determined;
      var s := script[i];
      ghost var links, connected := client.links, client.connected;
      var ok := client.SendJson(s.json, s.connects, s.outcomes);
      AccountedSend(links, connected, client.links, s.json, ok, jsons, results);
      DeterminedStep(script, results, ok);
      jsons, results := jsons + [s.json], results + [ok];
    }
    assert jsons == JsonsOf(script);
    ReceivedIsSent(client.wires, client.links);
    wires := client.wires;
  }

  // ----- readings -----

  predicate AllChecked(readings: seq<SensorData>) {
    forall i :: 0 <= i < |readings| ==> Checked(readings[i])
  }

  /** The texts of measurements. */
  function Jsons(readings: seq<SensorData>): (r: seq<string>)
    ensures |r| == |readings| && forall i :: 0 <= i < |r| ==> r[i] == ToJson(readings[i])
  {
    seq(|readings|, i requires 0 <= i < |readings| => ToJson(readings[i]))
  }

  lemma {:induction false} SelectJsons(readings: seq<SensorData>, results: seq<bool>)
    requires |readings| == |results| && AllChecked(readings)
    ensures Select(Jsons(readings), results) == Jsons(Select(readings, results))
            && AllChecked(Select(readings, results))
    decreases |readings|
  {
    hide ToJson, Checked;
    if |readings| > 0 {
      var n := |readings| - 1;
      assert Jsons(readings)[..n] == Jsons(readings[..n]);
      SelectJsons(readings[..n], results[..n]);
      var kept := Select(readings[..n], results[..n]);
      assert Jsons(kept + [readings[n]]) == Jsons(kept) + [ToJson(readings[n])];
    }
  }

  /** The texts of measurements determine them. */
  lemma {:induction false} SameReadings(a: seq<SensorData>, b: seq<SensorData>)
    requires AllChecked(a) && AllChecked(b) && Jsons(a) == Jsons(b)
    ensures a == b
  {
    hide ToJson, Checked;
    assert |Jsons(a)| == |a| && |Jsons(b)| == |b|;
    forall i | 0 <= i < |a| ensures a[i] == b[i] {
      assert Jsons(a)[i] == Jsons(b)[i];
      JsonInjective(a[i], b[i]);
    }
  }

  /** Measurements as the devices deliver them need no assumption about line breaks: the lines
      received are the JSON texts of the measurements whose sends returned true, in order, and of
      no other measurements. */
  method RunReadings(readings: seq<SensorData>, script: seq<Send>) returns (wires: seq<string>, results: seq<bool>)
    requires AllChecked(readings) && JsonsOf(script) == Jsons(readings)
    ensures |results| == |readings| == |script| && Determined(script, results)
    ensures AllReceived(wires) == Jsons(Select(readings, results))
    ensures forall other :: AllChecked(other) && AllReceived(wires) == Jsons(other) ==>
                              other == Select(readings, results)
  {
    hide AllReceived, Select, ToJson, Checked, Validate, Determined;
    assert |JsonsOf(script)| == |script| == |readings|;
    forall i | 0 <= i < |script| ensures OneLine(script[i].json) {
      assert JsonsOf(script)[i] == Jsons(readings)[i];
      CheckedJsonClean(readings[i], '\n');
    }
    wires, results := RunSends(script);
    SelectJsons(readings, results);
    forall other | AllChecked(other) && Jsons(other) == Jsons(Select(readings, results))
      ensures other == Select(readings, results)
    {
      SameReadings(other, Select(readings, results));
    }
  }
}
