/**
 The whole life of a cache: runs of the delivery protocol, one after the other, each starting on
 what it finds. Between two runs anything may have happened to the cache: nothing, when a process
 is simply started again; or a call that left it different from what the protocol makes of its
 result. What was in the cache and is no longer there when the next run starts counts as lost.
 At-least-once then holds without any condition, up to the messages so named.
 */
module Histories {
  import opened Delivery

  // ----- runs put together -----

  lemma {:induction false} ExecuteSnoc(s: State, es: seq<Effect>, e: Effect)
    ensures Execute(s, es + [e]) ==
            match Execute(s, es)
            case Stuck => Stuck
            case Next(t) => Step(t, e)
    ensures Faithful(es + [e]) <==> Faithful(es) && !e.RemoveWipes?
  {
    hide Step;
    assert (es + [e])[..|es|] == es;
  }

  lemma {:induction false} ExecuteNothing(s: State)
    ensures Execute(s, []) == Next(s) && Faithful([])
  {}

  lemma {:induction false} ExecuteOne(s: State, e: Effect)
    ensures Execute(s, [e]) == Step(s, e) && (Faithful([e]) <==> !e.RemoveWipes?)
  {
    hide Step, Execute, Faithful;
    ExecuteNothing(s);
    ExecuteSnoc(s, [], e);
    assert [] + [e] == [e];
  }

  /** A run followed by a run is a run. */
  lemma {:induction false} ExecuteAppend(s: State, es: seq<Effect>, more: seq<Effect>)
    requires Execute(s, es).Next?
    ensures Execute(s, es + more) == Execute(Execute(s, es).s, more)
    ensures Faithful(es + more) <==> Faithful(es) && Faithful(more)
    decreases |more|
  {
    hide Step, Execute, Faithful;
    if |more| == 0 {
      assert more == [] && es + more == es;
      ExecuteNothing(Execute(s, es).s);
    } else {
      var init, e := more[..|more| - 1], more[|more| - 1];
      assert more == init + [e] && es + more == (es + init) + [e];
      ExecuteAppend(s, es, init);
      ExecuteSnoc(s, es + init, e);
      ExecuteSnoc(Execute(s, es).s, init, e);
    }
  }

  lemma {:induction false} ThreeSteps(s: State, a: Effect, b: Effect, c: Effect, t: State, u: State, v: State)
    requires Step(s, a) == Next(t) && Step(t, b) == Next(u) && Step(u, c) == Next(v)
    ensures Execute(s, [a, b, c]) == Next(v)
    ensures Faithful([a, b, c]) <==> !a.RemoveWipes? && !b.RemoveWipes? && !c.RemoveWipes?
  {
    hide Step, Execute, Faithful;
    ExecuteOne(s, a);
    ExecuteSnoc(s, [a], b);
    assert [a] + [b] == [a, b];
    ExecuteSnoc(s, [a, b], c);
    assert [a, b] + [c] == [a, b, c];
  }

  // ----- histories -----

  /** A run of the protocol on what was in the cache. */
  datatype Epoch = Epoch(initial: seq<Message>, es: seq<Effect>)

  predicate Ran(e: Epoch) { Faithful(e.es) && Execute(Start(e.initial), e.es).Next? }

  predicate AllRan(h: seq<Epoch>) { forall i :: 0 <= i < |h| ==> Ran(h[i]) }

  /** Where a run has got to. */
  function End(e: Epoch): State {
    match Execute(Start(e.initial), e.es)
    case Next(s) => s
    case Stuck => Start(e.initial)
  }

  function Latest(h: seq<Epoch>): State { if |h| == 0 then Start([]) else End(h[|h| - 1]) }

  /** The history of a cache that holds this queue while no call is in progress. */
  ghost predicate Sound(h: seq<Epoch>, queue: seq<Message>) {
    |h| > 0 && AllRan(h) && Latest(h).phase.Idle? && Latest(h).cache == queue
  }

  /** A replay acknowledges something that was put into the cache. */
  predicate Replayable(s: State) { forall j :: 0 <= j < |s.replays| ==> s.replays[j] < |s.deferred| }

  /** What the broker has acknowledged, inside publish and by replays. */
  ghost function Acks(s: State): multiset<Message> {
    multiset(s.direct) + if Replayable(s) then multiset(ReplayedMessages(s.deferred, s.replays)) else multiset{}
  }

  lemma {:induction false} EndFacts(e: Epoch)
    requires Ran(e)
    ensures Replayable(End(e)) && End(e).removed <= |End(e).deferred|
    ensures End(e).cache == End(e).deferred[End(e).removed..]
    ensures multiset(e.initial) + multiset(End(e).accepted) <= Acks(End(e)) + multiset(End(e).cache)
  {
    AtLeastOnce(e.initial, e.es);
  }

  // ----- totals -----

  ghost function Accepted(h: seq<Epoch>): multiset<Message> {
    if |h| == 0 then multiset{} else Accepted(h[..|h| - 1]) + multiset(Latest(h).accepted)
  }

  ghost function Acked(h: seq<Epoch>): multiset<Message> {
    if |h| == 0 then multiset{} else Acked(h[..|h| - 1]) + Acks(Latest(h))
  }

  /** What a run left in the cache and the next one did not find there. */
  ghost function Lost(h: seq<Epoch>): multiset<Message> {
    if |h| <= 1 then multiset{}
    else Lost(h[..|h| - 1]) + (multiset(Latest(h[..|h| - 1]).cache) - multiset(h[|h| - 1].initial))
  }

  lemma AddBalance(i0: multiset<Message>, acc: multiset<Message>, acks: multiset<Message>, left: multiset<Message>,
                   lost: multiset<Message>, found: multiset<Message>, acc': multiset<Message>,
                   acks': multiset<Message>, left': multiset<Message>)
    requires i0 + acc <= acks + left + lost && found + acc' <= acks' + left'
    ensures i0 + (acc + acc') <= (acks + acks') + left' + (lost + (left - found))
  {
    forall m ensures (i0 + (acc + acc'))[m] <= ((acks + acks') + left' + (lost + (left - found)))[m] {
      assert (i0 + acc)[m] <= (acks + left + lost)[m];
      assert (found + acc')[m] <= (acks' + left')[m];
    }
  }

  lemma {:induction false} FirstTotals(h: seq<Epoch>)
    requires |h| == 1
    ensures Accepted(h) == multiset(Latest(h).accepted) && Acked(h) == Acks(Latest(h)) && Lost(h) == multiset{}
  {
    hide End, Acks;
    assert h[..0] == [];
  }

  /** At-least-once over every history, whatever happens to the cache between runs: each message
      found at the beginning or reported Published or Deferred has been acknowledged, is in the
      cache, or is one of those lost. */
  lemma {:induction false} AtLeastOnceOverall(h: seq<Epoch>)
    requires |h| > 0 && AllRan(h)
    ensures multiset(h[0].initial) + Accepted(h) <= Acked(h) + multiset(Latest(h).cache) + Lost(h)
  {
    hide Ran, End, Acks;
    var n := |h| - 1;
    var e, before := h[n], h[..n];
    EndFacts(e);
    if n == 0 {
      FirstTotals(h);
    } else {
      AtLeastOnceOverall(before);
      hide Accepted, Acked, Lost;
      AddBalance(multiset(h[0].initial), Accepted(before), Acked(before), multiset(Latest(before).cache), Lost(before),
                 multiset(e.initial), multiset(End(e).accepted), Acks(End(e)), multiset(End(e).cache));
      TotalsLast(h);
    }
  }

  lemma {:induction false} TotalsLast(h: seq<Epoch>)
    requires |h| > 0
    ensures var before := h[..|h| - 1];
            && Accepted(h) == Accepted(before) + multiset(Latest(h).accepted)
            && Acked(h) == Acked(before) + Acks(Latest(h))
            && (|h| > 1 ==> Lost(h) == Lost(before) + (multiset(Latest(before).cache) - multiset(h[|h| - 1].initial)))
            && (|h| == 1 ==> Lost(h) == multiset{})
            && Entered(h) == Entered(before) + (|Latest(h).deferred| - |h[|h| - 1].initial|)
  {
    hide End, Acks;
  }

  // ----- a history that goes on -----

  /** The last run goes on. */
  function Continue(h: seq<Epoch>, es: seq<Effect>): (r: seq<Epoch>)
    requires |h| > 0
    ensures |r| == |h| && r[..|h| - 1] == h[..|h| - 1]
  {
    var n := |h| - 1;
    h[..n] + [Epoch(h[n].initial, h[n].es + es)]
  }

  lemma {:induction false} ContinueRan(h: seq<Epoch>, es: seq<Effect>)
    requires |h| > 0 && AllRan(h) && Faithful(es) && Execute(Latest(h), es).Next?
    ensures AllRan(Continue(h, es)) && Latest(Continue(h, es)) == Execute(Latest(h), es).s
  {
    hide Execute, Faithful;
    var n, more := |h| - 1, Continue(h, es);
    assert Ran(h[n]);
    ExecuteAppend(Start(h[n].initial), h[n].es, es);
    forall i | 0 <= i < |more| ensures Ran(more[i]) { assert i < n ==> more[i] == h[i] && Ran(h[i]); }
  }

  /** What a stretch of a run adds to the totals. */
  ghost predicate Gains(s: State, t: State, accepted: seq<Message>, acked: seq<Message>) {
    multiset(t.accepted) == multiset(s.accepted) + multiset(accepted) && Acks(t) == Acks(s) + multiset(acked)
  }

  lemma {:induction false} ContinueTotals(h: seq<Epoch>, es: seq<Effect>, accepted: seq<Message>, acked: seq<Message>)
    requires |h| > 0 && Gains(Latest(h), Latest(Continue(h, es)), accepted, acked)
    ensures var more := Continue(h, es);
            && Accepted(more) == Accepted(h) + multiset(accepted) && Acked(more) == Acked(h) + multiset(acked)
            && Lost(more) == Lost(h)
            && Entered(more) == Entered(h) + (|Latest(more).deferred| - |Latest(h).deferred|)
  {
    hide End, Acks, Accepted, Acked, Lost, Entered, Latest;
    TotalsLast(h);
    TotalsLast(Continue(h, es));
    assert Continue(h, es)[|h| - 1].initial == h[|h| - 1].initial;
  }

  /** A process starts again, or a run is resumed on what is there. */
  lemma {:induction false} StartAgain(h: seq<Epoch>, found: seq<Message>)
    requires AllRan(h)
    ensures var more := h + [Epoch(found, [])];
            && Sound(more, found) && Latest(more) == Start(found)
            && Accepted(more) == Accepted(h) && Acked(more) == Acked(h) && Entered(more) == Entered(h)
            && (|h| > 0 ==> Lost(more) == Lost(h) + (multiset(Latest(h).cache) - multiset(found)))
            && (|h| == 0 ==> Lost(more) == multiset{})
  {
    var more := h + [Epoch(found, [])];
    StartRan(found);
    hide Ran, End, Acks, Accepted, Acked, Lost, Entered;
    forall i | 0 <= i < |more| ensures Ran(more[i]) { assert i < |h| ==> Ran(h[i]); }
    assert more[..|h|] == h;
    TotalsLast(more);
  }

  lemma StartRan(found: seq<Message>)
    ensures var e := Epoch(found, []);
            && Ran(e) && End(e) == Start(found) && Acks(End(e)) == multiset{} && multiset(End(e).accepted) == multiset{}
  {}

  /** Acknowledgements of messages queued earlier do not change when more is queued. */
  lemma {:induction false} QueueingGains(s: State, t: State, accepted: seq<Message>, acked: seq<Message>)
    requires Replayable(s) && t.replays == s.replays && s.deferred <= t.deferred
    requires t.accepted == s.accepted + accepted && t.direct == s.direct + acked
    ensures Gains(s, t, accepted, acked)
  {
    assert ReplayedMessages(t.deferred, t.replays) == ReplayedMessages(s.deferred, s.replays);
  }

  /** A flush acknowledges the front of the cache. */
  lemma {:induction false} FlushGains(s: State, t: State, n: nat)
    requires Replayable(s) && s.removed <= |s.deferred| && s.cache == s.deferred[s.removed..] && n <= |s.cache|
    requires t.direct == s.direct && t.deferred == s.deferred && t.replays == s.replays + Range(s.removed, n)
    requires t.accepted == s.accepted
    ensures Gains(s, t, [], Take(s.cache, n))
  {
    var front := Take(s.cache, n);
    assert front == s.cache[..n];
    assert ReplayedMessages(t.deferred, t.replays) == ReplayedMessages(s.deferred, s.replays) + front;
  }

  // ----- one call -----

  /** The history after a call: the last run goes on by its effects, and where the cache is not
      what the run makes of it a new run starts on what is found. */
  ghost function Advance(h: seq<Epoch>, es: seq<Effect>, found: seq<Message>): seq<Epoch>
    requires |h| > 0
  {
    var more := Continue(h, es);
    if Latest(more).cache == found then more else more + [Epoch(found, [])]
  }

  /** A history has gone on: its last run has reached a state, and the cache now holds a queue.
      The run is still going on exactly when that is the queue of the state; otherwise a new run
      has been started, and what is missing from the queue is lost. */
  ghost predicate Passes(h: seq<Epoch>, h': seq<Epoch>, s: State, found: seq<Message>,
                         accepted: seq<Message>, acked: seq<Message>)
  {
    && 0 < |h| <= |h'| <= |h| + 1 && h'[..|h| - 1] == h[..|h| - 1]
    && h'[|h| - 1].initial == h[|h| - 1].initial && h[|h| - 1].es <= h'[|h| - 1].es && End(h'[|h| - 1]) == s
    && (|h'| == |h| <==> s.cache == found) && Sound(h', found)
    && Lost(h') == Lost(h) + (multiset(s.cache) - multiset(found))
    && Accepted(h') == Accepted(h) + multiset(accepted) && Acked(h') == Acked(h) + multiset(acked)
    && Entered(h') == Entered(h) + (|s.deferred| - |Latest(h).deferred|)
  }

  lemma {:induction false} AdvancePasses(h: seq<Epoch>, es: seq<Effect>, found: seq<Message>,
                                         accepted: seq<Message>, acked: seq<Message>)
    requires |h| > 0 && AllRan(h) && Faithful(es) && Execute(Latest(h), es).Next?
    requires Execute(Latest(h), es).s.phase.Idle? && Gains(Latest(h), Execute(Latest(h), es).s, accepted, acked)
    ensures Passes(h, Advance(h, es, found), Execute(Latest(h), es).s, found, accepted, acked)
  {
    hide Execute, Faithful, Ran, Gains, Accepted, Acked, Lost, Entered, End;
    ContinueRan(h, es);
    ContinueTotals(h, es, accepted, acked);
    var more := Continue(h, es);
    if Latest(more).cache == found {
      assert multiset(found) - multiset(found) == multiset{};
    } else {
      StartAgain(more, found);
      assert (more + [Epoch(found, [])])[..|h| - 1] == h[..|h| - 1];
    }
  }

  lemma {:induction false} PassesSound(h: seq<Epoch>, h': seq<Epoch>, s: State, found: seq<Message>,
                                       accepted: seq<Message>, acked: seq<Message>)
    requires Passes(h, h', s, found, accepted, acked)
    ensures Sound(h', found) && (|h'| == |h| <==> s.cache == found)
    ensures Entered(h') == Entered(h) + (|s.deferred| - |Latest(h).deferred|)
  {
    hide Sound, Ran, End, Entered, Lost, Accepted, Acked;
  }

  // ----- counting -----

  /** How many messages were put into the cache. */
  function Entered(h: seq<Epoch>): int {
    if |h| == 0 then 0 else Entered(h[..|h| - 1]) + (|Latest(h).deferred| - |h[|h| - 1].initial|)
  }

  /** How many messages flushes removed. */
  function Removed(h: seq<Epoch>): nat {
    if |h| == 0 then 0 else Removed(h[..|h| - 1]) + Latest(h).removed
  }

  /** By how much the cache was shorter at the beginning of runs than at the end of those before. */
  function Shrunk(h: seq<Epoch>): int {
    if |h| <= 1 then 0 else Shrunk(h[..|h| - 1]) + (|Latest(h[..|h| - 1]).cache| - |h[|h| - 1].initial|)
  }

  /** What was there and what entered is what is there, what was removed, and what went missing. */
  lemma {:induction false} CountOverall(h: seq<Epoch>)
    requires |h| > 0 && AllRan(h)
    ensures |h[0].initial| + Entered(h) == |Latest(h).cache| + Removed(h) + Shrunk(h)
  {
    hide Ran, End, Acks;
    var n := |h| - 1;
    EndFacts(h[n]);
    if n > 0 {
      CountOverall(h[..n]);
    } else {
      assert h[..0] == [];
    }
  }
}
