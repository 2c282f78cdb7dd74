/**
 The reliable publisher (src/mqtt/reliable_publisher.cpp) as an object over either cache.
 The effects its calls have on the broker and the cache are recorded as a history of runs of
 the Delivery protocol, and Valid() says that this history ends in the queue that the cache
 really holds. Every call keeps it. When a call leaves the cache different from what the
 protocol makes of its result, a new run starts on what is there and the messages that went
 missing are lost; each call says exactly which those are. The broker's answers and how the
 system treats reads and writes are parameters of the calls.
 */
module Publisher {
  import opened Delivery
  import opened Histories
  import opened FileCaching
  import opened MessageCaching

  datatype PublishStatus = Published | Deferred | Failed

  // ----- the ways through publish -----

  function Confirming(s: State, m: Message): State { s.(direct := s.direct + [m], accepted := s.accepted + [m]) }

  /** A publish that turned to the cache: what was added to it, and whether that is a success. */
  function Turned(s: State, m: Message, added: seq<Message>, ok: bool): State {
    s.(cache := s.cache + added, deferred := s.deferred + added,
       accepted := if ok then s.accepted + [m] else s.accepted)
  }

  lemma TurnedIs(s: State, m: Message, added: seq<Message>, ok: bool)
    ensures |Turned(s, m, added, ok).deferred| == |s.deferred| + |added|
  {}

  function Acknowledge(m: Message): seq<Effect> { [CallPublish(m), BrokerAcks, PublishReturns] }

  function Defer(m: Message): seq<Effect> { [CallPublish(m), BrokerFails, AppendSucceeds, PublishReturns] }

  function Fail(m: Message, left: seq<Message>): seq<Effect> { [CallPublish(m), BrokerFails, AppendFails(left)] }

  lemma {:induction false} AcknowledgePath(s: State, m: Message)
    requires s.phase.Idle?
    ensures Execute(s, Acknowledge(m)) == Next(Confirming(s, m))
    ensures Faithful(Acknowledge(m)) && (Replayable(s) ==> Gains(s, Confirming(s, m), [m], [m]))
  {
    var t := s.(phase := Offering(m));
    var u := s.(phase := Returning(m), direct := s.direct + [m]);
    ThreeSteps(s, CallPublish(m), BrokerAcks, PublishReturns, t, u, Confirming(s, m));
    if Replayable(s) { QueueingGains(s, Confirming(s, m), [m], [m]); }
    hide Execute, Step, Faithful;
  }

  lemma {:induction false} FailPath(s: State, m: Message, left: seq<Message>)
    requires s.phase.Idle?
    ensures Execute(s, Fail(m, left)) == Next(Turned(s, m, left, false))
    ensures Faithful(Fail(m, left)) && (Replayable(s) ==> Gains(s, Turned(s, m, left, false), [], []))
  {
    var t, u := s.(phase := Offering(m)), s.(phase := Refused(m));
    ThreeSteps(s, CallPublish(m), BrokerFails, AppendFails(left), t, u, Turned(s, m, left, false));
    if Replayable(s) { QueueingGains(s, Turned(s, m, left, false), [], []); }
    hide Execute, Step, Faithful;
  }

  lemma {:induction false} DeferPath(s: State, m: Message)
    requires s.phase.Idle?
    ensures Execute(s, Defer(m)) == Next(Turned(s, m, [m], true))
    ensures Faithful(Defer(m)) && (Replayable(s) ==> Gains(s, Turned(s, m, [m], true), [m], []))
  {
    var t, u := s.(phase := Offering(m)), s.(phase := Refused(m));
    var v := s.(phase := Returning(m), cache := s.cache + [m], deferred := s.deferred + [m]);
    ThreeSteps(s, CallPublish(m), BrokerFails, AppendSucceeds, t, u, v);
    assert Step(v, PublishReturns) == Next(v.(phase := Idle, accepted := s.accepted + [m]));
    hide Execute, Step, Faithful;
    ExecuteSnoc(s, [CallPublish(m), BrokerFails, AppendSucceeds], PublishReturns);
    assert [CallPublish(m), BrokerFails, AppendSucceeds] + [PublishReturns] == Defer(m);
    if Replayable(s) { QueueingGains(s, Turned(s, m, [m], true), [m], []); }
  }

  /** The state inside the replay loop, after some acknowledgements. */
  function ReplayState(s: State, snapshot: seq<Message>, sent: nat): State {
    s.(phase := if sent < |snapshot| then Replaying(snapshot, sent) else Removing(sent),
       replays := s.replays + Range(s.removed, sent))
  }

  lemma ReplayPath(s: State, snapshot: seq<Message>, sent: nat)
    requires sent < |snapshot|
    ensures var now := ReplayState(s, snapshot, sent);
            && Step(now, BrokerAcks) == Next(ReplayState(s, snapshot, sent + 1))
            && Step(now, BrokerFails) == Next(now.(phase := if sent == 0 then Idle else Removing(sent)))
  {
    assert s.replays + Range(s.removed, sent) + [s.removed + sent] == s.replays + Range(s.removed, sent + 1);
  }

  /** What a flush comes to: the acknowledged messages are logged in order, and leave the cache
      or do not. */
  function Flushed(s: State, published: nat, dropped: bool): State {
    var t := s.(replays := s.replays + Range(s.removed, published));
    if dropped then t.(cache := Drop(s.cache, published), removed := s.removed + published) else t
  }

  lemma {:induction false} NoFlushPath(s: State)
    requires s.phase.Idle?
    ensures Execute(s, [CallFlush(0)]) == Next(Flushed(s, 0, false))
    ensures Faithful([CallFlush(0)])
  {
    ExecuteOne(s, CallFlush(0));
    assert s.replays + Range(s.removed, 0) == s.replays;
    hide Execute, Faithful;
  }

  lemma FlushBegins(s: State, messages: seq<Message>)
    requires s.phase.Idle? && 0 < |messages| && messages <= s.cache
    ensures Step(s, CallFlush(|messages|)) == Next(ReplayState(s, messages, 0))
  {
    assert Take(s.cache, |messages|) == messages;
    assert s.replays + Range(s.removed, 0) == s.replays;
  }

  lemma FlushEnds(s: State, messages: seq<Message>, published: nat, ok: bool)
    requires s.phase.Idle? && published <= |messages| <= |s.cache|
    ensures var t := ReplayState(s, messages, published).(
                       phase := if published == 0 then Idle else Removing(published));
            if published == 0 then t == Flushed(s, 0, false)
            else Step(t, if ok then RemoveSucceeds else RemoveFails) == Next(Flushed(s, published, ok))
  {}

  lemma {:induction false} FlushPath(s: State, messages: seq<Message>, published: nat, trace: seq<Effect>, ok: bool)
    requires s.phase.Idle? && 0 < |messages| && messages <= s.cache && published <= |messages|
    requires Execute(ReplayState(s, messages, 0), trace) ==
             Next(ReplayState(s, messages, published).(phase := if published == 0 then Idle else Removing(published)))
    requires Faithful(trace)
    ensures var es := [CallFlush(|messages|)] + trace;
            var all := if published == 0 then es else es + [if ok then RemoveSucceeds else RemoveFails];
            && Execute(s, all) == Next(Flushed(s, published, published > 0 && ok))
            && Faithful(all)
  {
    hide Step, Execute, Faithful, Flushed, ReplayState;
    FlushBegins(s, messages);
    FlushEnds(s, messages, published, ok);
    ExecuteOne(s, CallFlush(|messages|));
    ExecuteAppend(s, [CallFlush(|messages|)], trace);
    ExecuteSnoc(s, [CallFlush(|messages|)] + trace, if ok then RemoveSucceeds else RemoveFails);
  }

  // ----- what calls do to the history -----

  lemma {:induction false} ConfirmPasses(h: seq<Epoch>, queue: seq<Message>, m: Message)
    requires Sound(h, queue)
    ensures Passes(h, Advance(h, Acknowledge(m), queue), Confirming(Latest(h), m), queue, [m], [m])
    ensures |Confirming(Latest(h), m).deferred| == |Latest(h).deferred|
  {
    hide Execute, Faithful, Ran, Gains, Passes, Acknowledge, End;
    EndFacts(h[|h| - 1]);
    AcknowledgePath(Latest(h), m);
    AdvancePasses(h, Acknowledge(m), queue, [m], [m]);
  }

  lemma {:induction false} DeferPasses(h: seq<Epoch>, queue: seq<Message>, m: Message, found: seq<Message>)
    requires Sound(h, queue)
    ensures Passes(h, Advance(h, Defer(m), found), Turned(Latest(h), m, [m], true), found, [m], [])
  {
    hide Execute, Faithful, Ran, Gains, Passes, Defer, End;
    EndFacts(h[|h| - 1]);
    DeferPath(Latest(h), m);
    AdvancePasses(h, Defer(m), found, [m], []);
  }

  lemma {:induction false} FailPasses(h: seq<Epoch>, queue: seq<Message>, m: Message, left: seq<Message>,
                                      found: seq<Message>)
    requires Sound(h, queue)
    ensures Passes(h, Advance(h, Fail(m, left), found), Turned(Latest(h), m, left, false), found, [], [])
  {
    hide Execute, Faithful, Ran, Gains, Passes, Fail, End;
    EndFacts(h[|h| - 1]);
    FailPath(Latest(h), m, left);
    AdvancePasses(h, Fail(m, left), found, [], []);
  }

  /** The effects of a whole flush. */
  function FlushEffects(shown: nat, published: nat, trace: seq<Effect>, ok: bool): seq<Effect> {
    var es := [CallFlush(shown)] + trace;
    if published == 0 then es else es + [if ok then RemoveSucceeds else RemoveFails]
  }

  /** The trace of a replay loop that got so many acknowledgements. */
  ghost predicate Replayed(s: State, messages: seq<Message>, published: nat, trace: seq<Effect>) {
    && published <= |messages| && Faithful(trace)
    && if |messages| == 0 then trace == []
       else Execute(ReplayState(s, messages, 0), trace) ==
            Next(ReplayState(s, messages, published).(phase := if published == 0 then Idle else Removing(published)))
  }

  lemma {:induction false} FlushPasses(h: seq<Epoch>, queue: seq<Message>, messages: seq<Message>, published: nat,
                                       trace: seq<Effect>, ok: bool, found: seq<Message>)
    requires Sound(h, queue) && messages <= queue && Replayed(Latest(h), messages, published, trace)
    ensures Passes(h, Advance(h, FlushEffects(|messages|, published, trace, ok), found),
                   Flushed(Latest(h), published, published > 0 && ok), found, [], Take(queue, published))
  {
    hide Execute, Faithful, Ran, Gains, Passes, End, ReplayState, Step, Take;
    var s := Latest(h);
    EndFacts(h[|h| - 1]);
    if |messages| == 0 {
      NoFlushPath(s);
      assert FlushEffects(0, 0, trace, ok) == [CallFlush(0)];
    } else {
      FlushPath(s, messages, published, trace, ok);
    }
    FlushGains(s, Flushed(s, published, published > 0 && ok), published);
    AdvancePasses(h, FlushEffects(|messages|, published, trace, ok), found, [], Take(queue, published));
  }

  lemma {:induction false} StartSound(h: seq<Epoch>, found: seq<Message>)
    requires AllRan(h)
    ensures var more := h + [Epoch(found, [])];
            Sound(more, found) && Entered(more) == Entered(h)
  {
    StartAgain(h, found);
  }

  lemma {:induction false} SoundNonempty(h: seq<Epoch>, queue: seq<Message>)
    requires Sound(h, queue)
    ensures |h| > 0
  {}

  lemma TakesIs(s: Store, m: Message, w: Write)
    ensures Takes(s, m, w) <==> w.good && if s.Text? then CleanMessage(m) && w.opens else s.ready
  {}

  /** How many messages a flush gets acknowledged. */
  function Count(s: Store, r: Read, brokerLimit: nat): nat {
    if brokerLimit < |Seen(s, r)| then brokerLimit else |Seen(s, r)|
  }

  lemma {:induction false} NothingRemoved(s: Store, r: Read, succeeds: bool)
    ensures AfterRemoval(s, 0, r, succeeds) == s && Remaining(s, 0, false) == Queue(s) && Costs(Queue(s), Queue(s), [])
  {}

  lemma NothingReplayed(s: State)
    ensures Replayed(s, [], 0, [])
  {}

  class ReliablePublisher {
    const hasMetrics: bool
    const cache: Backend
    var cacheDepth: nat
    var enqueueTotal: nat
    var publishSuccesses: nat
    var publishFailures: nat
    var flushAttempts: nat
    ghost var epochs: seq<Epoch>   // everything that has happened to the cache, earlier processes included
    ghost var leftTotal: nat       // messages that failed appends of this process left in the cache
    ghost const earlier: int       // messages that entered the cache before this process

    /** The history is that of the cache, and what this process put into the cache is what it
        counted and what failed appends left. */
    ghost predicate Valid()
      reads this`epochs, this`enqueueTotal, this`leftTotal, Objects(cache)
    {
      && Fit(cache) && Sound(epochs, Queue(Value(cache)))
      && (hasMetrics ==> Entered(epochs) == earlier + enqueueTotal + leftTotal)
    }

    /** A process that starts on what earlier ones left. */
    constructor (metrics: bool, backend: Backend, r: Read, ghost past: seq<Epoch>)
      requires Fit(backend) && AllRan(past)
      ensures Valid() && cache == backend && hasMetrics == metrics && Value(cache) == old(Value(backend))
      ensures epochs == past + [Epoch(Queue(Value(cache)), [])]
      ensures metrics ==> cacheDepth == |Seen(Value(cache), r)|
    {
      hide Value, Queue, Fit, Seen, Entered, Sound, AllRan;
      ghost var store := Value(backend);
      StartSound(past, Queue(store));
      hasMetrics, cache, leftTotal, earlier := metrics, backend, 0, Entered(past);
      epochs := past + [Epoch(Queue(store), [])];
      enqueueTotal, publishSuccesses, publishFailures, flushAttempts := 0, 0, 0, 0;
      cacheDepth := 0;
      new;
      assert this !in Objects(cache);
      if hasMetrics {
        var messages := LoadAll(cache, r);
        cacheDepth := |messages|;
      }
    }

    /** The part of publish that turns to the cache, once the broker has refused. The cache is
        what the protocol makes of the result if and only if a stored message can be read back and
        a failed append does not run into another one; the messages lost are those named. */
    method Enqueue(m: Message, w: Write) returns (ok: bool)
      requires Fit(cache) && Sound(epochs, Queue(Value(cache))) && Possible(m, w)
      modifies this`epochs, Objects(cache)
      ensures var s := old(Value(cache));
              && Fit(cache) && ok == Takes(s, m, w) && Value(cache) == AfterAppend(s, m, w)
              && Passes(old(epochs), epochs, Turned(Latest(old(epochs)), m, Added(s, m, w), ok), Queue(Value(cache)),
                        if ok then [m] else [], [])
              && (Queue(Value(cache)) == Queue(s) + Added(s, m, w) <==> Adds(s, m, w))
              && Costs(Queue(s) + Added(s, m, w), Queue(Value(cache)), LostWrite(s, m, w))
              && (!ok ==> |Queue(Value(cache))| == |Queue(s)| + |LeftBy(s, m, w)|)
    {
      hide Value, Queue, Fit, Adds, Takes, LeftBy, LostWrite, Passes, Turned, Sound, Costs, AfterAppend;
      assert this !in Objects(cache);
      ghost var h, s := epochs, Value(cache);
      ok := Append(cache, m, w);
      ghost var found := Queue(Value(cache));
      if ok {
        DeferPasses(h, Queue(s), m, found);
        epochs := Advance(h, Defer(m), found);
      } else {
        FailPasses(h, Queue(s), m, Added(s, m, w), found);
        epochs := Advance(h, Fail(m, Added(s, m, w)), found);
      }
    }

    /** publish: the broker first, the cache only when it refuses. A right gauge stays right
        unless a deferred message's read falls short or a failed append leaves a message. */
    method Publish(m: Message, brokerAcks: bool, w: Write, r: Read) returns (result: PublishStatus)
      requires Valid() && Possible(m, w)
      modifies this, Objects(cache)
      ensures Valid()
      ensures var s := old(Value(cache));
              && result == (if brokerAcks then Published else if Takes(s, m, w) then Deferred else Failed)
              && (result.Deferred? <==>
                    !brokerAcks && w.good && (if s.Text? then CleanMessage(m) && w.opens else s.ready))
              && Value(cache) == (if brokerAcks then s else AfterAppend(s, m, w))
              && (result.Published? ==>
                    Passes(old(epochs), epochs, Confirming(Latest(old(epochs)), m), Queue(Value(cache)), [m], [m]))
              && (!result.Published? ==>
                    && Passes(old(epochs), epochs, Turned(Latest(old(epochs)), m, Added(s, m, w), result.Deferred?),
                              Queue(Value(cache)), if result.Deferred? then [m] else [], [])
                    && (Queue(Value(cache)) == Queue(s) + Added(s, m, w) <==> Adds(s, m, w))
                    && Costs(Queue(s) + Added(s, m, w), Queue(Value(cache)), LostWrite(s, m, w)))
              && (hasMetrics && old(cacheDepth) == |Queue(s)| ==>
                    (cacheDepth == |Queue(Value(cache))| <==>
                       || result.Published?
                       || (result.Deferred? && |Seen(Value(cache), r)| == |Queue(Value(cache))|)
                       || (result.Failed? && LeftBy(s, m, w) == [])))
      ensures cacheDepth == if hasMetrics && result.Deferred? then |Seen(Value(cache), r)| else old(cacheDepth)
      ensures publishSuccesses == old(publishSuccesses) + (if hasMetrics && brokerAcks then 1 else 0)
      ensures publishFailures == old(publishFailures) + (if hasMetrics && !brokerAcks then 1 else 0)
      ensures enqueueTotal == old(enqueueTotal) + (if hasMetrics && result.Deferred? then 1 else 0)
      ensures flushAttempts == old(flushAttempts)
    {
      hide Value, Queue, Fit, Seen, Adds, Takes, LeftBy, LostWrite, Costs, Passes, Sound, Entered, Latest, Turned;
      hide Confirming, AfterAppend, Advance, CleanMessage;
      TakesIs(Value(cache), m, w);
      assert this !in Objects(cache);
      ghost var h, s := epochs, Value(cache);
      if brokerAcks {
        if hasMetrics {
          publishSuccesses := publishSuccesses + 1;
        }
        SoundNonempty(h, Queue(s));
        ConfirmPasses(h, Queue(s), m);
        epochs := Advance(h, Acknowledge(m), Queue(s));
        PassesSound(h, epochs, Confirming(Latest(h), m), Queue(s), [m], [m]);
        return Published;
      }
      if hasMetrics {
        publishFailures := publishFailures + 1;
      }
      var ok := Enqueue(m, w);
      TurnedIs(Latest(h), m, Added(s, m, w), ok);
      PassesSound(h, epochs, Turned(Latest(h), m, Added(s, m, w), ok), Queue(Value(cache)),
                  if ok then [m] else [], []);
      if ok {
        if hasMetrics {
          enqueueTotal := enqueueTotal + 1;
          var messages := LoadAll(cache, r);
          cacheDepth := |messages|;
        }
        return Deferred;
      }
      leftTotal := leftTotal + |Added(s, m, w)|;
      return Failed;
    }

    /** The replay loop: messages are offered in order until the broker refuses one. */
    method Replay(messages: seq<Message>, brokerLimit: nat, ghost start: State)
      returns (published: nat, ghost trace: seq<Effect>)
      modifies this`publishSuccesses, this`publishFailures
      ensures published == if brokerLimit < |messages| then brokerLimit else |messages|
      ensures Replayed(start, messages, published, trace)
      ensures publishSuccesses == old(publishSuccesses) + (if hasMetrics then published else 0)
      ensures publishFailures == old(publishFailures) + (if hasMetrics && published < |messages| then 1 else 0)
    {
      hide Execute, Faithful, Step;
      published, trace := 0, [];
      ExecuteNothing(ReplayState(start, messages, 0));
      while published < |messages|
        invariant 0 <= published <= |messages| && published <= brokerLimit
        invariant Execute(ReplayState(start, messages, 0), trace) == Next(ReplayState(start, messages, published))
        invariant Faithful(trace) && (|messages| == 0 ==> trace == [])
        invariant publishSuccesses == old(publishSuccesses) + (if hasMetrics then published else 0)
        invariant publishFailures == old(publishFailures)
      {
        ReplayPath(start, messages, published);
        if published == brokerLimit {
          ExecuteSnoc(ReplayState(start, messages, 0), trace, BrokerFails);
          trace := trace + [BrokerFails];
          if hasMetrics {
            publishFailures := publishFailures + 1;
          }
          break;
        }
        ExecuteSnoc(ReplayState(start, messages, 0), trace, BrokerAcks);
        trace := trace + [BrokerAcks];
        if hasMetrics {
          publishSuccesses := publishSuccesses + 1;
        }
        published := published + 1;
      }
    }

    /** The end of a flush: what the broker acknowledged is removed. The cache is what the protocol
        makes of the result if and only if a removal saw the whole queue or took all of it. */
    method Dequeue(messages: seq<Message>, published: nat, ghost trace: seq<Effect>, reread: Read, succeeds: bool)
      returns (ok: bool)
      requires Fit(cache) && Sound(epochs, Queue(Value(cache))) && 0 < published && messages <= Queue(Value(cache))
      requires |messages| > 0 && Replayed(Latest(epochs), messages, published, trace)
      modifies this`epochs, Objects(cache)
      ensures Fit(cache) && Sound(epochs, Queue(Value(cache))) && Entered(epochs) == old(Entered(epochs))
      ensures var s := old(Value(cache));
              && ok == Removes(s, published, reread, succeeds)
              && Value(cache) == AfterRemoval(s, published, reread, succeeds)
              && Passes(old(epochs), epochs, Flushed(Latest(old(epochs)), published, ok), Queue(Value(cache)),
                        [], Take(Queue(s), published))
              && (Queue(Value(cache)) == Remaining(s, published, ok) <==> ok ==> Rereads(s, published, reread))
              && Costs(Remaining(s, published, ok), Queue(Value(cache)),
                       if ok then LostRemoval(s, published, reread) else [])
    {
      hide Value, Queue, Fit, Removes, Rereads, LostRemoval, Flushed, Passes, Sound, Entered, Take, Latest, Replayed;
      hide AfterRemoval, Remaining, Costs;
      assert this !in Objects(cache);
      ghost var s := Value(cache);
      ok := RemoveFirst(cache, published, reread, succeeds);
      RecordFlush(messages, published, trace, ok, Queue(s));
    }

    /** flush_cache: the broker acknowledges some number of messages and then refuses one.
        Exactly a prefix of the cache is acknowledged, in order; the same prefix is removed,
        or none of it when the removal fails. After a removal the cache is what the protocol says
        if and only if the removal saw the whole queue or took all of it; otherwise what it did
        not see is lost. */
    method FlushCache(r: Read, brokerLimit: nat, reread: Read, succeeds: bool) returns (published: nat)
      requires Valid()
      modifies this, Objects(cache)
      ensures Valid()
      ensures var s := old(Value(cache));
              && published == (if brokerLimit < |Seen(s, r)| then brokerLimit else |Seen(s, r)|)
              && Value(cache) == AfterRemoval(s, published, reread, succeeds)
              && var dropped := published > 0 && Removes(s, published, reread, succeeds);
              && Passes(old(epochs), epochs, Flushed(Latest(old(epochs)), published, dropped), Queue(Value(cache)),
                        [], Take(Queue(s), published))
              && (Queue(Value(cache)) == Remaining(s, published, dropped)
                  <==> dropped ==> Rereads(s, published, reread))
              && Costs(Remaining(s, published, dropped), Queue(Value(cache)),
                       if dropped then LostRemoval(s, published, reread) else [])
              && (hasMetrics ==> cacheDepth == |Seen(s, r)| - (if dropped then published else 0))
      ensures hasMetrics ==> flushAttempts == old(flushAttempts) + 1
      ensures hasMetrics ==> publishSuccesses == old(publishSuccesses) + published
      ensures hasMetrics ==>
                publishFailures == old(publishFailures) + (if published < |Seen(old(Value(cache)), r)| then 1 else 0)
      ensures enqueueTotal == old(enqueueTotal)
    {
      hide Value, Queue, Fit, Seen, Removes, Rereads, LostRemoval, Flushed, Passes, Sound, Entered, Take, Latest;
      hide Replayed, AfterRemoval, Remaining, Costs;
      assert this !in Objects(cache);
      if hasMetrics {
        flushAttempts := flushAttempts + 1;
      }
      ghost var h, s := epochs, Value(cache);
      NothingRemoved(s, reread, succeeds);
      ghost var trace;
      var messages := LoadAll(cache, r);
      if hasMetrics {
        cacheDepth := |messages|;
      }
      if |messages| == 0 {
        RecordFlush(messages, 0, [], false, Queue(s));
        return 0;
      }
      published, trace := Replay(messages, brokerLimit, Latest(h));
      if published == 0 {
        RecordFlush(messages, published, trace, false, Queue(s));
        return 0;
      }
      var ok := Dequeue(messages, published, trace, reread, succeeds);
      if !ok {
        return published;
      }
      if hasMetrics {
        cacheDepth := |messages| - published;
      }
    }

    /** Records a flush, and what it left in the cache. */
    ghost method RecordFlush(messages: seq<Message>, published: nat, trace: seq<Effect>, ok: bool, queue: seq<Message>)
      requires Sound(epochs, queue) && messages <= queue
      requires if |messages| == 0 then published == 0 && trace == []
               else Replayed(Latest(epochs), messages, published, trace)
      modifies this`epochs
      ensures Sound(epochs, Queue(Value(cache))) && Entered(epochs) == old(Entered(epochs))
      ensures Passes(old(epochs), epochs, Flushed(Latest(old(epochs)), published, published > 0 && ok),
                     Queue(Value(cache)), [], Take(queue, published))
    {
      hide Passes, Sound, Entered, Take, Latest, Value, Queue, Execute;
      assert this !in Objects(cache);
      var h, found := epochs, Queue(Value(cache));
      SoundNonempty(h, queue);
      NothingReplayed(Latest(h));
      FlushPasses(h, queue, messages, published, trace, ok, found);
      epochs := Advance(h, FlushEffects(|messages|, published, trace, ok), found);
      PassesSound(h, epochs, Flushed(Latest(h), published, published > 0 && ok), found, [], Take(queue, published));
    }

    /** At-least-once for everything that ever happened to the cache, earlier processes included:
        each message found at the beginning or accepted has been acknowledged, can be read back
        from the cache, or is one of those lost. */
    lemma Guarantee()
      requires Valid()
      ensures multiset(epochs[0].initial) + Accepted(epochs)
              <= Acked(epochs) + multiset(Queue(Value(cache))) + Lost(epochs)
    {
      hide Accepted, Acked, Lost, Ran, Latest;
      AtLeastOnceOverall(epochs);
    }

    /** Gauge conservation: what was there and what came in is what is there, what was removed and
        what went missing. */
    lemma GaugeConservation()
      requires Valid() && hasMetrics
      ensures |epochs[0].initial| + earlier + enqueueTotal + leftTotal
              == |Queue(Value(cache))| + Removed(epochs) + Shrunk(epochs)
    {
      hide Ran, Latest, Entered, Removed, Shrunk;
      CountOverall(epochs);
    }
  }
}
