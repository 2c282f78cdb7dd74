/**
 The cache interface (src/cache/message_cache.h) over its two implementations. Either one is
 the same queue to its caller; what can come between the call and the queue, and exactly when,
 is stated once here and used by the publisher.
 */
module MessageCaching {
  import opened Delivery
  import opened FileCaching
  import opened SqliteCaching
  import opened Sensor
  import opened SensorJson
  import opened JsonReader

  datatype Backend = File(file: FileCache) | Table(table: SqliteCache)

  function Objects(b: Backend): set<object> {
    match b
    case File(f) => {f}
    case Table(t) => {t}
  }

  ghost predicate Fit(b: Backend)
    reads Objects(b)
  {
    b.Table? ==> b.table.Valid()
  }

  /** What a cache holds, as a value: the text of the file, or whether the table is usable and the
      messages of its rows. */
  datatype Store = Text(text: string) | Rows(ready: bool, rows: seq<Message>)

  ghost function Value(b: Backend): Store
    reads Objects(b)
  {
    match b
    case File(f) => Text(f.text)
    case Table(t) => Rows(t.ready, t.Queue())
  }

  /** The messages a read without failures returns. */
  function Queue(s: Store): seq<Message> {
    match s
    case Text(text) => Load(text)
    case Rows(_, rows) => ReadBackAll(rows)
  }

  /** These are the messages missing from a queue that should be another. */
  ghost predicate Costs(expected: seq<Message>, queue: seq<Message>, lost: seq<Message>) {
    multiset(expected) - multiset(queue) == multiset(lost)
  }

  // ----- append -----

  /** How the system treats a write; a table only knows success. */
  datatype Write = Write(opens: bool, written: nat, good: bool)

  predicate Possible(m: Message, w: Write) { w.good ==> w.written >= |LineOf(m)| }

  /** The append reports success. */
  predicate Takes(s: Store, m: Message, w: Write) {
    if s.Text? then CleanMessage(m) && w.opens && w.good else s.ready && w.good
  }

  /** What the cache holds after an append. */
  function AfterAppend(s: Store, m: Message, w: Write): Store {
    match s
    case Text(text) => Text(text + LineOf(m)[..Out(m, w.opens, w.written)])
    case Rows(ready, rows) => Rows(ready, if Takes(s, m, w) then rows + [m] else rows)
  }

  predicate NoNul(m: Message) { '\0' !in m.topic && '\0' !in m.payload }

  /** A message appended now can be read back: no fragment of an earlier line is in the way, and
      the text survives the column it is stored in. */
  predicate Stores(s: Store, m: Message) {
    if s.Text? then AtLineStart(s.text) else NoNul(m)
  }

  /** A failed append runs into a fragment that reads as a message already, and changes it. */
  predicate Spoils(s: Store, m: Message, w: Write) {
    s.Text? && Out(m, w.opens, w.written) > 0 && '\t' in Tail(s.text)
  }

  /** What an append that fails leaves to be read, and the queue gains. */
  function LeftBy(s: Store, m: Message, w: Write): seq<Message> {
    if s.Text? && !Spoils(s, m, w) then Left(s.text, m, Out(m, w.opens, w.written)) else []
  }

  /** What the queue gains by an append, going by its result. */
  function Added(s: Store, m: Message, w: Write): seq<Message> {
    if Takes(s, m, w) then [m] else LeftBy(s, m, w)
  }

  /** The queue gains that: a message stored can be read back, and a failed append does not run
      into another message. */
  predicate Adds(s: Store, m: Message, w: Write) {
    if Takes(s, m, w) then Stores(s, m) else !Spoils(s, m, w)
  }

  /** The messages an append costs: its own when it succeeds without being readable, and the one
      a fragment read as. */
  function LostWrite(s: Store, m: Message, w: Write): seq<Message> {
    match s
    case Text(text) =>
      if Takes(s, m, w) then LostByAppend(text, m) else LostByFailure(text, Out(m, w.opens, w.written))
    case Rows(_, _) => if Takes(s, m, w) && !NoNul(m) then [m] else []
  }

  lemma {:induction false} TableAppendExact(q: seq<Message>, m: Message)
    ensures ReadBackAll(q + [m]) == ReadBackAll(q) + [m] <==> NoNul(m)
    ensures multiset(ReadBackAll(q) + [m]) - multiset(ReadBackAll(q + [m])) == multiset(if NoNul(m) then [] else [m])
  {
    hide ReadBackAll;
    ReadBackLast(q, m);
    CTextExact(m.topic);
    CTextExact(m.payload);
    assert (ReadBackAll(q) + [ReadBack(m)])[|ReadBackAll(q)|] == ReadBack(m);
    assert (ReadBackAll(q) + [m])[|ReadBackAll(q)|] == m;
    if !NoNul(m) { LossesOf(ReadBackAll(q), [m], [ReadBack(m)]); }
  }

  /** Part of a line in the file: the queue gains what it reads as, or its last message is gone. */
  lemma {:induction false} FileFailure(text: string, m: Message, k: nat)
    requires k <= |LineOf(m)| && (CleanMessage(m) || k == 0)
    ensures var spoils, now := k > 0 && '\t' in Tail(text), Load(text + LineOf(m)[..k]);
            var added := if spoils then [] else Left(text, m, k);
            && (now == Load(text) + added <==> !spoils)
            && multiset(Load(text) + added) - multiset(now) == multiset(LostByFailure(text, k))
            && |now| == |Load(text)| + |added|
  {
    hide Load, Left, LastLineStart, Tail, LineOf, ParseLine;
    PartialAppendExact(text, m, k);
    FailureLoses(text, m, k);
    var now := Load(text + LineOf(m)[..k]);
    if k > 0 && '\t' in Tail(text) {
      SpoilsLast(text, m, k);
      assert Load(text) + [] == Load(text);
    } else {
      NoTabNoMessage(Tail(text));
      assert multiset(now) - multiset(now) == multiset{};
    }
  }

  /** The queue gains the message of a successful append if and only if it can be read back, and
      what a failed one leaves behind if and only if that does not run into a fragment that reads
      as a message; the messages missing afterwards are those named. */
  lemma {:induction false} AppendEffect(s: Store, m: Message, w: Write)
    requires Possible(m, w)
    ensures var now, expected := Queue(AfterAppend(s, m, w)), Queue(s) + Added(s, m, w);
            && (now == expected <==> Adds(s, m, w))
            && Costs(expected, now, LostWrite(s, m, w))
            && (!Takes(s, m, w) ==> |now| == |expected|)
  {
    hide Load, ReadBackAll, CleanMessage, LineOf, Left, LastLineStart, LostByAppend, LostByFailure, AtLineStart, Tail;
    match s
    case Text(text) =>
      if Takes(s, m, w) {
        assert LineOf(m)[..|LineOf(m)|] == LineOf(m);
        AppendExact(text, m);
        AppendLoses(text, m);
      } else {
        FileFailure(text, m, Out(m, w.opens, w.written));
      }
    case Rows(_, rows) =>
      TableAppendExact(rows, m);
      assert multiset(Queue(s) + []) - multiset(Queue(s)) == multiset([]);
  }

  /** append, on either cache. */
  method Append(b: Backend, m: Message, w: Write) returns (ok: bool)
    requires Fit(b) && Possible(m, w)
    modifies Objects(b)
    ensures var s := old(Value(b));
            && Fit(b) && ok == Takes(s, m, w) && Value(b) == AfterAppend(s, m, w)
            && (Queue(Value(b)) == Queue(s) + Added(s, m, w) <==> Adds(s, m, w))
            && Costs(Queue(s) + Added(s, m, w), Queue(Value(b)), LostWrite(s, m, w))
            && (!ok ==> |Queue(Value(b))| == |Queue(s)| + |LeftBy(s, m, w)|)
  {
    hide Queue, CleanMessage, LineOf, LeftBy, Adds, LostWrite, Costs;
    AppendEffect(Value(b), m, w);
    match b {
      case File(f) => ok := f.Append(m, w.opens, w.written, w.good);
      case Table(t) => ok := t.Append(m, w.good);
    }
  }

  // ----- load_all -----

  /** What a read shows. */
  function Seen(s: Store, r: Read): seq<Message> {
    match s
    case Text(text) => View(text, r)
    case Rows(ready, _) => if ready && r.opens then Queue(s) else []
  }

  lemma {:induction false} SeenIsPrefix(s: Store, r: Read)
    ensures Seen(s, r) <= Queue(s)
  {
    hide Load, ReadBackAll, View;
    if s.Text? { ViewIsPrefix(s.text, r); }
  }

  method LoadAll(b: Backend, r: Read) returns (messages: seq<Message>)
    requires Fit(b)
    ensures messages == Seen(Value(b), r) && messages <= Queue(Value(b))
  {
    hide Load, ReadBackAll, View;
    match b {
      case File(f) => messages := f.LoadAll(r);
      case Table(t) => messages := t.LoadAll(r.opens);
    }
  }

  // ----- remove_first -----

  /** The removal reports success. */
  predicate Removes(s: Store, count: nat, r: Read, succeeds: bool) {
    if s.Text? then count == 0 || (succeeds && AllClean(Kept(s.text, count, r)))
    else s.ready && (count == 0 || (count <= INT_MAX && succeeds))
  }

  /** What the cache holds after a removal. */
  function AfterRemoval(s: Store, count: nat, r: Read, succeeds: bool): Store {
    if count == 0 || !Removes(s, count, r, succeeds) then s
    else
      match s
      case Text(text) => Text(Format(Kept(text, count, r)))
      case Rows(ready, rows) => Rows(ready, Drop(rows, count))
  }

  /** A removal from the file has seen the whole queue when it rewrites it, or takes all of it. */
  predicate Rereads(s: Store, count: nat, r: Read) {
    s.Text? ==> count == 0 || |Seen(s, r)| == |Queue(s)| || count >= |Queue(s)|
  }

  /** The messages a successful removal costs beyond those it was asked to remove. */
  function LostRemoval(s: Store, count: nat, r: Read): seq<Message> {
    if s.Text? && count > 0 then LostByRewrite(Queue(s), |Seen(s, r)|, count) else []
  }

  /** What the queue should be after a removal, going by its result. */
  function Remaining(s: Store, count: nat, ok: bool): seq<Message> {
    if ok then Drop(Queue(s), count) else Queue(s)
  }

  /** A successful removal drops the first messages and no others if and only if it had seen the
      whole queue or took all of it; otherwise those not seen are lost. */
  lemma {:induction false} RemovalEffect(s: Store, count: nat, r: Read, succeeds: bool)
    ensures var ok := Removes(s, count, r, succeeds);
            var now, expected := Queue(AfterRemoval(s, count, r, succeeds)), Remaining(s, count, ok);
            && (now == expected <==> ok ==> Rereads(s, count, r))
            && Costs(expected, now, if ok then LostRemoval(s, count, r) else [])
            && |now| == if ok && s.Text? && count > 0 then |Drop(Seen(s, r), count)| else |expected|
  {
    hide Load, ReadBackAll, View, Format, AllClean, LostByRewrite;
    assert multiset(Queue(s)) - multiset(Queue(s)) == multiset{};
    match s
    case Text(text) =>
      if count > 0 && AllClean(Kept(text, count, r)) {
        RewriteExact(text, count, r);
        LoadFormat(Kept(text, count, r));
      }
    case Rows(_, rows) => ReadBackDrop(rows, count);
  }

  /** remove_first, on either cache. */
  method RemoveFirst(b: Backend, count: nat, r: Read, succeeds: bool) returns (ok: bool)
    requires Fit(b)
    modifies Objects(b)
    ensures var s := old(Value(b));
            && Fit(b) && ok == Removes(s, count, r, succeeds) && Value(b) == AfterRemoval(s, count, r, succeeds)
            && (ok <==> if s.Text? then count == 0 || (succeeds && AllClean(Kept(s.text, count, r)))
                        else s.ready && (count == 0 || (count <= 0x7FFF_FFFF && succeeds)))
            && (Queue(Value(b)) == Remaining(s, count, ok) <==> ok ==> Rereads(s, count, r))
            && Costs(Remaining(s, count, ok), Queue(Value(b)), if ok then LostRemoval(s, count, r) else [])
  {
    hide Queue, Kept, AllClean, Format, Rereads, LostRemoval, Costs;
    RemovalEffect(Value(b), count, r, succeeds);
    match b {
      case File(f) => ok := f.RemoveFirst(count, r, succeeds);
      case Table(t) => ok := t.RemoveFirst(count, succeeds);
    }
  }

  // ----- the messages of the gateway -----

  /** What the gateway publishes for a measurement, and under which topic. */
  function MessageFor(prefix: string, d: SensorData): Message {
    Message(prefix + "/" + Decimal(d.deviceId) + "/data", ToJson(d))
  }

  /** The topic names the device by its number, and the payload is the JSON text. */
  lemma {:induction false} MessageNamesDevice(prefix: string, d: SensorData)
    ensures exists id ::
              && MessageFor(prefix, d) == Message(prefix + "/" + id + "/data", ToJson(d))
              && ReadDecimal(id) == d.deviceId && forall c :: c in id ==> '0' <= c <= '9'
  {
    hide Decimal, ReadDecimal, ToJson;
    var id := Decimal(d.deviceId);
    DecimalReadBack(d.deviceId);
    forall c | c in id ensures '0' <= c <= '9' {
      if c < '0' || c > '9' { DecimalDigits(d.deviceId, c); }
    }
  }

  lemma {:induction false} TopicClean(prefix: string, n: nat, c: char)
    requires Control(c) && c !in prefix
    ensures c !in prefix + "/" + Decimal(n) + "/data"
  {
    hide Decimal;
    DecimalDigits(n, c);
  }

  /** Under a topic prefix without control characters, the message for a validated measurement is
      one that the file takes and the table gives back unchanged. */
  lemma MeasurementStorable(prefix: string, d: SensorData)
    requires Checked(d) && forall c :: c in prefix ==> !Control(c)
    ensures CleanMessage(MessageFor(prefix, d)) && NoNul(MessageFor(prefix, d))
  {
    hide ToJson, Decimal, Checked;
    forall c: char | Control(c) ensures c !in MessageFor(prefix, d).topic && c !in MessageFor(prefix, d).payload {
      TopicClean(prefix, d.deviceId, c);
      CheckedJsonClean(d, c);
    }
    assert Control('\t') && Control('\n') && Control('\r') && Control('\0');
  }
}
