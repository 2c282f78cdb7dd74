/**
 Whole lives of a cache (src/mqtt/reliable_publisher.cpp, src/main.cpp): any sequence of publishes,
 flushes and process restarts over one backend, whatever the broker answers and however the
 system treats reads and writes. What each call does is a function of what the cache holds, so
 everything that happens over a life is known from its beginning and its calls.
 */
module PublisherRuns {
  import opened Delivery
  import opened Histories
  import opened FileCaching
  import opened MessageCaching
  import opened Publisher

  datatype Call =
    | DoPublish(m: Message, brokerAcks: bool, w: Write, r: Read)
    | DoFlush(r: Read, brokerLimit: nat, reread: Read, succeeds: bool)
    | DoRestart(r: Read)

  predicate Allowed(c: Call) { c.DoPublish? ==> MessageCaching.Possible(c.m, c.w) }

  // ----- one call -----

  /** What the cache holds after a call. */
  function After(s: Store, c: Call): Store {
    match c
    case DoPublish(m, brokerAcks, w, _) => if brokerAcks then s else AfterAppend(s, m, w)
    case DoFlush(r, limit, reread, succeeds) => AfterRemoval(s, Count(s, r, limit), reread, succeeds)
    case DoRestart(_) => s
  }

  /** The message a call reports as Published or Deferred. */
  function Reports(s: Store, c: Call): seq<Message> {
    if c.DoPublish? && (c.brokerAcks || Takes(s, c.m, c.w)) then [c.m] else []
  }

  /** The messages the broker acknowledges during a call. */
  function Acknowledges(s: Store, c: Call): seq<Message> {
    match c
    case DoPublish(m, brokerAcks, _, _) => if brokerAcks then [m] else []
    case DoFlush(r, limit, _, _) => Take(Queue(s), Count(s, r, limit))
    case DoRestart(_) => []
  }

  /** Whether a flush gets to remove what was acknowledged. */
  predicate Drops(s: Store, c: Call)
    requires c.DoFlush?
  {
    var n := Count(s, c.r, c.brokerLimit);
    n > 0 && Removes(s, n, c.reread, c.succeeds)
  }

  /** The messages a call costs. */
  function Loses(s: Store, c: Call): seq<Message> {
    match c
    case DoPublish(m, brokerAcks, w, _) => if brokerAcks then [] else LostWrite(s, m, w)
    case DoFlush(r, limit, reread, _) => if Drops(s, c) then LostRemoval(s, Count(s, r, limit), reread) else []
    case DoRestart(_) => []
  }

  /** The gauge after a call. */
  function Depth(s: Store, c: Call, depth: nat): nat {
    match c
    case DoPublish(m, brokerAcks, w, r) => if !brokerAcks && Takes(s, m, w) then |Seen(After(s, c), r)| else depth
    case DoFlush(r, limit, _, _) => |Seen(s, r)| - if Drops(s, c) then Count(s, r, limit) else 0
    case DoRestart(r) => |Seen(s, r)|
  }

  /** The cache ends up as the result of the call says: a stored message can be read back, a failed
      append does not run into another message, and a removal has seen the whole queue or takes
      all of it. */
  predicate Harmless(s: Store, c: Call) {
    match c
    case DoPublish(m, brokerAcks, w, _) => brokerAcks || Adds(s, m, w)
    case DoFlush(r, limit, reread, _) => Drops(s, c) ==> Rereads(s, Count(s, r, limit), reread)
    case DoRestart(_) => true
  }

  /** A call costs nothing if and only if it is harmless. */
  lemma {:induction false} LosesNothing(s: Store, c: Call)
    ensures Loses(s, c) == [] <==> Harmless(s, c)
  {
    hide View, Load, LastLineStart, Takes, CleanMessage, ParseLine, Removes;
    if c.DoFlush? { SeenIsPrefix(s, c.reread); }
    if s.Text? { NoTabNoMessage(Tail(s.text)); }
  }

  // ----- the gauge -----

  function Longer(a: nat, b: nat): nat { if a < b then b else a }

  /** What keeps the gauge right: reads that set it show the whole queue, a failed append leaves no
      message, and a removal from the file has seen no more and no less than the flush did. */
  predicate KeepsGauge(s: Store, c: Call) {
    match c
    case DoPublish(m, brokerAcks, w, r) =>
      if brokerAcks then true
      else if Takes(s, m, w) then |Seen(After(s, c), r)| == |Queue(After(s, c))|
      else LeftBy(s, m, w) == []
    case DoFlush(r, limit, reread, _) =>
      if Drops(s, c) && s.Text? then |Seen(s, r)| == Longer(Count(s, r, limit), |Seen(s, reread)|)
      else |Seen(s, r)| == |Queue(s)|
    case DoRestart(r) => |Seen(s, r)| == |Queue(s)|
  }

  lemma {:induction false} KeepsGaugeExact(s: Store, c: Call, depth: nat)
    requires Allowed(c) && depth == |Queue(s)|
    ensures Depth(s, c, depth) == |Queue(After(s, c))| <==> KeepsGauge(s, c)
  {
    hide View, Load, Takes, Queue, LeftBy, Seen, AfterAppend, AfterRemoval, Removes, Rereads, LostRemoval, Costs, Adds;
    match c
    case DoPublish(m, brokerAcks, w, _) => AppendEffect(s, m, w);
    case DoFlush(r, limit, reread, succeeds) =>
      SeenIsPrefix(s, r);
      RemovalEffect(s, Count(s, r, limit), reread, succeeds);
      NothingRemoved(s, reread, succeeds);
    case DoRestart(_) =>
  }

  // ----- lives -----

  function StoreAfter(s: Store, calls: seq<Call>): Store {
    if |calls| == 0 then s else After(StoreAfter(s, calls[..|calls| - 1]), calls[|calls| - 1])
  }

  /** Everything reported as Published or Deferred, in order. */
  function AllReports(s: Store, calls: seq<Call>): seq<Message> {
    if |calls| == 0 then []
    else
      var before := calls[..|calls| - 1];
      AllReports(s, before) + Reports(StoreAfter(s, before), calls[|calls| - 1])
  }

  /** Everything the broker acknowledged, in order. */
  function AllAcks(s: Store, calls: seq<Call>): seq<Message> {
    if |calls| == 0 then []
    else
      var before := calls[..|calls| - 1];
      AllAcks(s, before) + Acknowledges(StoreAfter(s, before), calls[|calls| - 1])
  }

  /** Everything lost, in order. */
  function AllLost(s: Store, calls: seq<Call>): seq<Message> {
    if |calls| == 0 then []
    else
      var before := calls[..|calls| - 1];
      AllLost(s, before) + Loses(StoreAfter(s, before), calls[|calls| - 1])
  }

  /** The gauge of a process that began by reading the cache. */
  function DepthAfter(s: Store, r: Read, calls: seq<Call>): nat {
    if |calls| == 0 then |Seen(s, r)|
    else
      var before := calls[..|calls| - 1];
      Depth(StoreAfter(s, before), calls[|calls| - 1], DepthAfter(s, r, before))
  }

  /** Every call of a life is harmless where it happens. */
  ghost predicate AllHarmless(s: Store, calls: seq<Call>) {
    forall k :: 0 <= k < |calls| ==> Harmless(StoreAfter(s, calls[..k]), calls[k])
  }

  /** Every call of a life keeps the gauge right where it happens. */
  ghost predicate AllKeepGauge(s: Store, calls: seq<Call>) {
    forall k :: 0 <= k < |calls| ==> KeepsGauge(StoreAfter(s, calls[..k]), calls[k])
  }

  ghost predicate GaugeRight(s: Store, r: Read, calls: seq<Call>) {
    DepthAfter(s, r, calls) == |Queue(StoreAfter(s, calls))|
  }

  /** The gauge is right at the beginning of a life and after every call. */
  ghost predicate GaugeAlwaysRight(s: Store, r: Read, calls: seq<Call>) {
    forall k :: 0 <= k <= |calls| ==> GaugeRight(s, r, calls[..k])
  }

  lemma {:induction false} HarmlessSnoc(s: Store, before: seq<Call>, c: Call)
    ensures AllHarmless(s, before + [c]) <==> AllHarmless(s, before) && Harmless(StoreAfter(s, before), c)
  {
    hide Harmless, StoreAfter;
    var calls := before + [c];
    assert forall k :: 0 <= k < |before| ==> calls[..k] == before[..k] && calls[k] == before[k];
    assert calls[..|before|] == before && calls[|before|] == c;
  }

  lemma {:induction false} KeepGaugeSnoc(s: Store, before: seq<Call>, c: Call)
    ensures AllKeepGauge(s, before + [c]) <==> AllKeepGauge(s, before) && KeepsGauge(StoreAfter(s, before), c)
  {
    hide KeepsGauge, StoreAfter;
    var calls := before + [c];
    assert forall k :: 0 <= k < |before| ==> calls[..k] == before[..k] && calls[k] == before[k];
    assert calls[..|before|] == before && calls[|before|] == c;
  }

  lemma {:induction false} GaugeSnoc(s: Store, r: Read, before: seq<Call>, c: Call)
    ensures GaugeAlwaysRight(s, r, before + [c]) <==>
            GaugeAlwaysRight(s, r, before) && GaugeRight(s, r, before + [c])
    ensures GaugeAlwaysRight(s, r, before) ==> GaugeRight(s, r, before)
  {
    hide GaugeRight;
    var calls := before + [c];
    assert forall k :: 0 <= k <= |before| ==> calls[..k] == before[..k];
    assert before[..|before|] == before && calls[..|calls|] == calls;
  }

  /** Nothing is lost over a life if and only if every call of it is harmless. */
  lemma {:induction false} LifeLosesNothing(s: Store, calls: seq<Call>)
    ensures AllLost(s, calls) == [] <==> AllHarmless(s, calls)
  {
    if |calls| > 0 {
      hide Loses, Harmless, AllHarmless, StoreAfter;
      var before, c := calls[..|calls| - 1], calls[|calls| - 1];
      assert calls == before + [c];
      LifeLosesNothing(s, before);
      LosesNothing(StoreAfter(s, before), c);
      HarmlessSnoc(s, before, c);
    }
  }

  lemma {:induction false} GaugeStep(s: Store, r: Read, before: seq<Call>, c: Call)
    requires Allowed(c) && GaugeRight(s, r, before)
    ensures GaugeRight(s, r, before + [c]) <==> KeepsGauge(StoreAfter(s, before), c)
  {
    hide After, Depth, KeepsGauge, Queue, Allowed, Seen;
    assert (before + [c])[..|before|] == before;
    KeepsGaugeExact(StoreAfter(s, before), c, DepthAfter(s, r, before));
  }

  /** The gauge is the length of the queue after every call of a life if and only if it is at the
      beginning and every call keeps it. */
  lemma {:induction false} LifeGauge(s: Store, r: Read, calls: seq<Call>)
    requires forall k :: 0 <= k < |calls| ==> Allowed(calls[k])
    ensures GaugeAlwaysRight(s, r, calls) <==> |Seen(s, r)| == |Queue(s)| && AllKeepGauge(s, calls)
  {
    if |calls| == 0 {
      assert calls[..0] == [];
    } else {
      hide GaugeRight, GaugeAlwaysRight, KeepsGauge, AllKeepGauge, Allowed, Seen, Queue, StoreAfter;
      var before, c := calls[..|calls| - 1], calls[|calls| - 1];
      assert calls == before + [c];
      LifeGauge(s, r, before);
      KeepGaugeSnoc(s, before, c);
      GaugeSnoc(s, r, before, c);
      if GaugeRight(s, r, before) { GaugeStep(s, r, before, c); }
    }
  }

  // ----- what calls achieve -----

  /** A read that goes through. */
  predicate ReadsAll(s: Store, r: Read) {
    if s.Text? then r.opens && r.upTo >= |s.text| else s.ready && r.opens
  }

  lemma {:induction false} ReadsAllSees(s: Store, r: Read)
    requires ReadsAll(s, r)
    ensures Seen(s, r) == Queue(s)
  {
    hide View, Load;
    if s.Text? { ViewIsPrefix(s.text, r); }
  }

  lemma {:induction false} LifeStep(s: Store, before: seq<Call>, c: Call)
    ensures var now, calls := StoreAfter(s, before), before + [c];
            && StoreAfter(s, calls) == After(now, c)
            && AllAcks(s, calls) == AllAcks(s, before) + Acknowledges(now, c)
            && AllReports(s, calls) == AllReports(s, before) + Reports(now, c)
            && AllLost(s, calls) == AllLost(s, before) + Loses(now, c)
  {
    hide After, Acknowledges, Reports, Loses;
    assert (before + [c])[..|before|] == before;
  }

  /** A flush delivers: when its read goes through, the broker takes every message and the removal
      works, the whole queue is acknowledged, in order, and the cache is empty, with nothing lost. */
  lemma {:induction false} FlushDelivers(s: Store, before: seq<Call>, r: Read, limit: nat, reread: Read)
    requires var now := StoreAfter(s, before);
             && ReadsAll(now, r) && limit >= |Queue(now)|
             && (now.Rows? ==> |Queue(now)| <= 0x7FFF_FFFF)
    ensures var now, calls := StoreAfter(s, before), before + [DoFlush(r, limit, reread, true)];
            && Queue(StoreAfter(s, calls)) == [] && AllLost(s, calls) == AllLost(s, before)
            && AllAcks(s, calls) == AllAcks(s, before) + Queue(now)
  {
    var now, c := StoreAfter(s, before), DoFlush(r, limit, reread, true);
    hide StoreAfter, AllAcks, AllLost, AllReports;
    LifeStep(s, before, c);
    ReadsAllSees(now, r);
    FlushEmptiesExact(now, r, limit, reread, true);
    SeenIsPrefix(now, reread);
    LosesNothing(now, c);
  }

  /** Exactly when a flush leaves the cache empty: it was empty, or the flush got something
      acknowledged and removed, and that was all of the table, or all that the removal saw of
      the file. */
  lemma {:induction false} FlushEmptiesExact(s: Store, r: Read, limit: nat, reread: Read, succeeds: bool)
    ensures var n := if limit < |Seen(s, r)| then limit else |Seen(s, r)|;
            Queue(After(s, DoFlush(r, limit, reread, succeeds))) == [] <==>
            || Queue(s) == []
            || (n > 0 && succeeds &&
                if s.Text? then |Seen(s, reread)| <= n
                else s.ready && |Queue(s)| <= n && n <= 0x7FFF_FFFF)
  {
    hide View, Load, Format, Queue, CleanMessage;
    SeenIsPrefix(s, r);
    RemovalEffect(s, Count(s, r, limit), reread, succeeds);
    NothingRemoved(s, reread, succeeds);
    hide Costs, LostRemoval;
  }

  /** A flush that does not get everything acknowledged: the broker's acknowledgements are for the
      first messages, in order, and when the removal works exactly those leave the cache. */
  lemma {:induction false} FlushAdvances(s: Store, before: seq<Call>, r: Read, limit: nat, reread: Read)
    requires var now := StoreAfter(s, before);
             && ReadsAll(now, r) && ReadsAll(now, reread) && limit <= |Queue(now)|
             && (if now.Text? then AllClean(Queue(now)[limit..]) else limit <= 0x7FFF_FFFF)
    ensures var now, calls := StoreAfter(s, before), before + [DoFlush(r, limit, reread, true)];
            && Queue(StoreAfter(s, calls)) == Queue(now)[limit..] && AllLost(s, calls) == AllLost(s, before)
            && AllAcks(s, calls) == AllAcks(s, before) + Queue(now)[..limit]
  {
    var now, c := StoreAfter(s, before), DoFlush(r, limit, reread, true);
    hide StoreAfter, AllAcks, AllLost, AllReports;
    LifeStep(s, before, c);
    ReadsAllSees(now, r);
    ReadsAllSees(now, reread);
    hide Queue, Format, CleanMessage, View;
    RemovalEffect(now, limit, reread, true);
    NothingRemoved(now, reread, true);
    LosesNothing(now, c);
  }

  /** A message the broker takes is reported and acknowledged, and the cache is not touched. */
  lemma {:induction false} PublishDelivers(s: Store, before: seq<Call>, m: Message, w: Write, r: Read)
    ensures var calls := before + [DoPublish(m, true, w, r)];
            && StoreAfter(s, calls) == StoreAfter(s, before) && AllLost(s, calls) == AllLost(s, before)
            && AllAcks(s, calls) == AllAcks(s, before) + [m] && AllReports(s, calls) == AllReports(s, before) + [m]
  {
    hide StoreAfter, AllAcks, AllLost, AllReports;
    LifeStep(s, before, DoPublish(m, true, w, r));
  }

  /** A message the broker refuses is reported if and only if the cache takes it; it is then the
      last in the queue, provided nothing is pending in the file and the table can hold it. */
  lemma {:induction false} PublishDefers(s: Store, before: seq<Call>, m: Message, w: Write, r: Read)
    requires MessageCaching.Possible(m, w)
    ensures var now, calls := StoreAfter(s, before), before + [DoPublish(m, false, w, r)];
            var taken := w.good && if now.Text? then CleanMessage(m) && w.opens else now.ready;
            && AllAcks(s, calls) == AllAcks(s, before)
            && AllReports(s, calls) == AllReports(s, before) + (if taken then [m] else [])
            && (taken && (if now.Text? then now.text == "" || now.text[|now.text| - 1] == '\n'
                          else '\0' !in m.topic && '\0' !in m.payload) ==>
                  Queue(StoreAfter(s, calls)) == Queue(now) + [m] && AllLost(s, calls) == AllLost(s, before))
  {
    var now := StoreAfter(s, before);
    hide StoreAfter, AllAcks, AllLost, AllReports;
    LifeStep(s, before, DoPublish(m, false, w, r));
    hide Queue, CleanMessage, LineOf, Left, LastLineStart, LostByFailure, Tail, Costs;
    AppendEffect(now, m, w);
    LosesNothing(now, DoPublish(m, false, w, r));
  }

  // ----- the publisher carries them out -----

  /** What a stretch of history adds to the totals. */
  ghost predicate Moves(h: seq<Epoch>, h': seq<Epoch>, accepted: seq<Message>, acked: seq<Message>,
                        lost: seq<Message>)
  {
    && 0 < |h| && 0 < |h'| && h'[0].initial == h[0].initial
    && Accepted(h') == Accepted(h) + multiset(accepted)
    && Acked(h') == Acked(h) + multiset(acked)
    && Lost(h') == Lost(h) + multiset(lost)
  }

  lemma {:induction false} PassesMoves(h: seq<Epoch>, h': seq<Epoch>, s: State, found: seq<Message>,
                                       accepted: seq<Message>, acked: seq<Message>, lost: seq<Message>)
    requires Passes(h, h', s, found, accepted, acked) && Costs(s.cache, found, lost)
    ensures Moves(h, h', accepted, acked, lost)
  {
    hide Accepted, Acked, Lost, Entered, End, Sound;
    assert |h| > 1 ==> h'[..|h| - 1][0] == h[..|h| - 1][0];
  }

  lemma {:induction false} MovesOn(h: seq<Epoch>, h': seq<Epoch>, h'': seq<Epoch>,
                                   accepted: seq<Message>, acked: seq<Message>, lost: seq<Message>,
                                   accepted': seq<Message>, acked': seq<Message>, lost': seq<Message>)
    requires Moves(h, h', accepted, acked, lost) && Moves(h', h'', accepted', acked', lost')
    ensures Moves(h, h'', accepted + accepted', acked + acked', lost + lost')
  {
    hide Accepted, Acked, Lost;
  }

  lemma {:induction false} RestartMoves(h: seq<Epoch>, queue: seq<Message>)
    requires Sound(h, queue)
    ensures AllRan(h) && Moves(h, h + [Epoch(queue, [])], [], [], [])
  {
    StartAgain(h, queue);
    hide Accepted, Acked, Lost, Ran, End;
    assert multiset(queue) - multiset(queue) == multiset{};
  }

  lemma {:induction false} BeginMoves(queue: seq<Message>)
    ensures Moves([Epoch(queue, [])], [Epoch(queue, [])], [], [], [])
    ensures Accepted([Epoch(queue, [])]) == Acked([Epoch(queue, [])]) == Lost([Epoch(queue, [])]) == multiset{}
  {
    StartAgain([], queue);
    assert [] + [Epoch(queue, [])] == [Epoch(queue, [])];
  }

  /** One call, or the start of a new process on the same cache. */
  method Serve(p: ReliablePublisher, c: Call) returns (q: ReliablePublisher, accepted: seq<Message>)
    requires p.Valid() && Allowed(c)
    modifies p, Objects(p.cache)
    ensures q.Valid() && q.cache == p.cache && q.hasMetrics == p.hasMetrics && (q == p || fresh(q))
    ensures var s := old(Value(p.cache));
            && Value(q.cache) == After(s, c) && accepted == Reports(s, c)
            && Moves(old(p.epochs), q.epochs, accepted, Acknowledges(s, c), Loses(s, c))
            && (q.hasMetrics ==> q.cacheDepth == Depth(s, c, old(p.cacheDepth)))
  {
    hide Passes, Costs, Moves, Value, Queue, Fit, Seen, Takes, Added, Adds, LostWrite, LostRemoval, Removes, Rereads;
    hide Entered, Latest, Take, AfterAppend, AfterRemoval, Flushed, Remaining, Confirming, Turned;
    ghost var h, s := p.epochs, Value(p.cache);
    LatestCache(h, Queue(s));
    match c {
      case DoPublish(m, brokerAcks, w, r) =>
        var result := p.Publish(m, brokerAcks, w, r);
        accepted := if result.Failed? then [] else [m];
        if result.Published? {
          ConfirmingIs(Latest(h), m);
          PassesMoves(h, p.epochs, Confirming(Latest(h), m), Queue(s), [m], [m], []);
        } else {
          TurnedCache(Latest(h), m, Added(s, m, w), result.Deferred?);
          PassesMoves(h, p.epochs, Turned(Latest(h), m, Added(s, m, w), result.Deferred?), Queue(Value(p.cache)),
                      accepted, [], LostWrite(s, m, w));
        }
        q := p;
      case DoFlush(r, brokerLimit, reread, succeeds) =>
        var published := p.FlushCache(r, brokerLimit, reread, succeeds);
        accepted := [];
        FlushedCache(Latest(h), s, published, Drops(s, c));
        PassesMoves(h, p.epochs, Flushed(Latest(h), published, Drops(s, c)), Queue(Value(p.cache)),
                    [], Take(Queue(s), published), Loses(s, c));
        q := p;
      case DoRestart(r) =>
        accepted := [];
        RestartMoves(h, Queue(s));
        q := new ReliablePublisher(p.hasMetrics, p.cache, r, p.epochs);
    }
  }

  lemma LatestCache(h: seq<Epoch>, queue: seq<Message>)
    requires Sound(h, queue)
    ensures Latest(h).cache == queue
  {}

  lemma ConfirmingIs(s: State, m: Message)
    ensures Confirming(s, m).cache == s.cache && Costs(s.cache, s.cache, [])
  {}

  lemma TurnedCache(s: State, m: Message, added: seq<Message>, ok: bool)
    ensures Turned(s, m, added, ok).cache == s.cache + added
  {}

  lemma FlushedCache(s: State, store: Store, published: nat, dropped: bool)
    requires s.cache == Queue(store)
    ensures Flushed(s, published, dropped).cache == Remaining(store, published, dropped)
  {}

  /** Any sequence of calls and restarts over one cache. The calls do what their functions say; and
      each message found in the cache at the beginning or reported Published or Deferred has been
      acknowledged by the broker, can be read back from the cache, or is among those lost. */
  method RunPublisher(metrics: bool, backend: Backend, r: Read, calls: seq<Call>)
    returns (accepted: seq<Message>, depth: nat, ghost history: seq<Epoch>)
    requires Fit(backend) && forall i :: 0 <= i < |calls| ==> Allowed(calls[i])
    modifies Objects(backend)
    ensures var s := old(Value(backend));
            && Fit(backend) && Value(backend) == StoreAfter(s, calls) && accepted == AllReports(s, calls)
            && (metrics ==> depth == DepthAfter(s, r, calls))
            && Sound(history, Queue(StoreAfter(s, calls))) && history[0].initial == Queue(s)
            && Accepted(history) == multiset(AllReports(s, calls)) && Acked(history) == multiset(AllAcks(s, calls))
            && Lost(history) == multiset(AllLost(s, calls))
            && multiset(Queue(s)) + multiset(AllReports(s, calls))
               <= multiset(AllAcks(s, calls)) + multiset(Queue(StoreAfter(s, calls))) + multiset(AllLost(s, calls))
  {
    hide Moves, Value, Queue, Fit, Reports, Acknowledges, Loses, Depth, After, Allowed, Sound, Entered, Seen;
    hide Accepted, Acked, Lost;
    ghost var s := Value(backend);
    ghost var first := [Epoch(Queue(s), [])];
    BeginMoves(Queue(s));
    var p := new ReliablePublisher(metrics, backend, r, []);
    assert p.epochs == first && p !in Objects(backend);
    accepted := [];
    for i := 0 to |calls|
      invariant p.Valid() && p.cache == backend && p.hasMetrics == metrics && fresh(p)
      invariant Value(backend) == StoreAfter(s, calls[..i]) && accepted == AllReports(s, calls[..i])
      invariant Moves(first, p.epochs, accepted, AllAcks(s, calls[..i]), AllLost(s, calls[..i]))
      invariant metrics ==> p.cacheDepth == DepthAfter(s, r, calls[..i])
    {
      ghost var h, now, c := p.epochs, Value(backend), calls[i];
      var more;
      p, more := Serve(p, calls[i]);
      MovesOn(first, h, p.epochs, accepted, AllAcks(s, calls[..i]), AllLost(s, calls[..i]),
              more, Acknowledges(now, c), Loses(now, c));
      accepted := accepted + more;
      assert calls[..i + 1][..i] == calls[..i];
    }
    assert calls[..|calls|] == calls;
    history, depth := p.epochs, p.cacheDepth;
    MovesFromFirst(first, history, accepted, AllAcks(s, calls), AllLost(s, calls), Queue(Value(backend)));
  }

  lemma {:induction false} MovesFromFirst(first: seq<Epoch>, h: seq<Epoch>, accepted: seq<Message>,
                                          acked: seq<Message>, lost: seq<Message>, queue: seq<Message>)
    requires Moves(first, h, accepted, acked, lost) && Sound(h, queue)
    requires Accepted(first) == Acked(first) == Lost(first) == multiset{}
    ensures |h| > 0 && h[0].initial == first[0].initial
    ensures Accepted(h) == multiset(accepted) && Acked(h) == multiset(acked) && Lost(h) == multiset(lost)
    ensures multiset(h[0].initial) + multiset(accepted) <= multiset(acked) + multiset(queue) + multiset(lost)
  {
    hide Accepted, Acked, Lost, Ran, Latest;
    AtLeastOnceOverall(h);
  }
}
