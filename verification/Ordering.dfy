/**
 Exactly when delivery is in order, delivered once, and safe against a wiped cache
 (src/mqtt/reliable_publisher.cpp, src/cache/file_cache.cpp). Each property that does not
 hold of every run has a run in which it fails and the condition under which it holds. All
 conditions rest on one number that can be kept by watching the calls: how many messages at
 the front of the cache a flush has had acknowledged without getting to remove them.
 */
module Ordering {
  import opened Delivery

  function Max(a: nat, b: nat): nat { if a < b then b else a }

  /** Acknowledged messages still at the front of the cache when no flush is in progress: a
      failed removal or a crash leaves them there, a later removal takes them away. */
  function Unremoved(initial: seq<Message>, es: seq<Effect>): nat
    requires Execute(Start(initial), es).Next?
  {
    if |es| == 0 then 0
    else
      var before := es[..|es| - 1];
      Leaves(Execute(Start(initial), before).s, es[|es| - 1], Unremoved(initial, before))
  }

  function Leaves(s: State, e: Effect, before: nat): nat {
    match e
    case Crash => Max(before, Sent(s))
    case RemoveFails => Max(before, Sent(s))
    case RemoveSucceeds => if before > Sent(s) then before - Sent(s) else 0
    case _ => before
  }

  /** A run in which every flush with an acknowledgement gets to remove what was acknowledged. */
  ghost predicate Tidy(initial: seq<Message>, es: seq<Effect>) {
    forall k :: 0 <= k < |es| && (es[k].Crash? || es[k].RemoveFails?) && Execute(Start(initial), es[..k]).Next?
      ==> Sent(Execute(Start(initial), es[..k]).s) == 0
  }

  /** The replayed positions are those below n. */
  ghost predicate Segment(replays: seq<nat>, n: nat) {
    forall i: nat :: i in replays <==> i < n
  }

  lemma SegmentExtend(replays: seq<nat>, n: nat, k: nat)
    requires Segment(replays, n) && k <= n
    ensures Segment(replays + [k], Max(n, k + 1))
  {
    forall i: nat ensures i in replays + [k] <==> i < Max(n, k + 1) {
      assert i in replays + [k] <==> i in replays || i == k;
    }
  }

  /** How far a flush has got after an effect. */
  lemma SentStep(s: State, e: Effect)
    requires Step(s, e).Next? && !e.RemoveWipes?
    ensures Sent(Step(s, e).s) ==
            if s.phase.Replaying? && e.BrokerAcks? then Sent(s) + 1
            else if e.Crash? || e.RemoveFails? || e.RemoveSucceeds? then 0
            else Sent(s)
  {
    hide Take, Drop;
  }

  lemma LeavesFits(initial: seq<Message>, s: State, e: Effect, u: nat)
    requires Inv(initial, s) && Step(s, e).Next? && !e.RemoveWipes? && u <= |s.cache|
    ensures Leaves(s, e, u) <= |Step(s, e).s.cache|
  {
    hide ReplayInv, CountInv, Take;
  }

  lemma SegmentStep(initial: seq<Message>, s: State, e: Effect, u: nat)
    requires Inv(initial, s) && Step(s, e).Next? && !e.RemoveWipes?
    requires Segment(s.replays, s.removed + Max(u, Sent(s))) && u <= |s.cache|
    ensures var t, v := Step(s, e).s, Leaves(s, e, u);
            Segment(t.replays, t.removed + Max(v, Sent(t))) && v <= |t.cache|
  {
    LogStep(initial, s, e);
    SentStep(s, e);
    LeavesFits(initial, s, e, u);
    hide Segment, Inv, Step, Sent;
    if s.phase.Replaying? && e.BrokerAcks? {
      SegmentExtend(s.replays, s.removed + Max(u, Sent(s)), s.removed + Sent(s));
    }
  }

  lemma StartSegment(initial: seq<Message>)
    ensures Segment(Start(initial).replays, Start(initial).removed + Max(0, Sent(Start(initial))))
  {}

  /** In every run the acknowledged positions are an initial part of the queue, and its end is
      known from the calls alone. */
  lemma {:induction false} ExecuteSegment(initial: seq<Message>, es: seq<Effect>)
    requires Faithful(es) && Execute(Start(initial), es).Next?
    ensures var s, u := Execute(Start(initial), es).s, Unremoved(initial, es);
            Segment(s.replays, s.removed + Max(u, Sent(s))) && u <= |s.cache|
  {
    hide Step, Leaves, Segment, Inv, Max, Sent;
    if |es| == 0 {
      StartSegment(initial);
    } else {
      var before := es[..|es| - 1];
      ExecuteSegment(initial, before);
      ExecuteInv(initial, before);
      SegmentStep(initial, Execute(Start(initial), before).s, es[|es| - 1], Unremoved(initial, before));
    }
  }

  /** No flush of a tidy run leaves anything behind. */
  lemma {:induction false} TidyLeavesNothing(initial: seq<Message>, es: seq<Effect>)
    requires Tidy(initial, es) && Execute(Start(initial), es).Next?
    ensures Unremoved(initial, es) == 0
  {
    hide Step, Sent;
    if |es| > 0 {
      var n := |es| - 1;
      assert forall k :: 0 <= k < n ==> es[..n][..k] == es[..k] && es[..n][k] == es[k];
      TidyLeavesNothing(initial, es[..n]);
    }
  }

  // ----- global order -----

  /** A message queued earlier has not reached the broker yet. */
  ghost predicate SomeoneWaits(s: State) {
    exists i :: 0 <= i < |s.deferred| && i !in s.replays
  }

  lemma {:induction false} SomeoneWaitsExact(initial: seq<Message>, s: State, n: nat)
    requires Inv(initial, s) && Segment(s.replays, s.removed + n) && n <= |s.cache|
    ensures SomeoneWaits(s) <==> n < |s.cache|
    ensures s.cache == [] ==> Acknowledged(s, |s.deferred|)
  {
    hide CountInv, FlushInv, ReplayInv, Own;
    assert |s.deferred| == s.removed + |s.cache|;
    if n < |s.cache| { assert s.removed + n !in s.replays; }
  }

  /** While a message is being offered to the broker, one queued earlier is still waiting if and
      only if the cache holds more than what a flush failed to remove; in a tidy run, if and only
      if the cache is not empty. Publish does not look at the cache before it offers. */
  lemma {:induction false} OvertakesExact(initial: seq<Message>, es: seq<Effect>)
    requires Faithful(es) && Execute(Start(initial), es).Next? && Execute(Start(initial), es).s.phase.Offering?
    ensures var s := Execute(Start(initial), es).s;
            && (SomeoneWaits(s) <==> Unremoved(initial, es) < |s.cache|)
            && (Tidy(initial, es) ==> (SomeoneWaits(s) <==> s.cache != []))
            && (s.cache == [] ==> Acknowledged(s, |s.deferred|))
  {
    hide Execute, Inv, Segment, Tidy, SomeoneWaits, Faithful;
    ExecuteInv(initial, es);
    ExecuteSegment(initial, es);
    SomeoneWaitsExact(initial, Execute(Start(initial), es).s, Unremoved(initial, es));
    if Tidy(initial, es) { TidyLeavesNothing(initial, es); }
  }

  /** Effect k acknowledges a message inside publish. */
  predicate DirectAck(initial: seq<Message>, es: seq<Effect>, k: nat)
    requires k < |es|
  {
    var before := Execute(Start(initial), es[..k]);
    es[k].BrokerAcks? && before.Next? && before.s.phase.Offering?
  }

  /** A whole run is in global order, no message overtaking one queued before it, if and only if
      every direct acknowledgement meets a cache holding no more than a flush failed to remove. */
  lemma {:induction false} GlobalOrderExact(initial: seq<Message>, es: seq<Effect>)
    requires Faithful(es) && Execute(Start(initial), es).Next?
    ensures (forall k :: 0 <= k < |es| && DirectAck(initial, es, k) ==>
                           !SomeoneWaits(Execute(Start(initial), es[..k]).s))
       <==> (forall k :: 0 <= k < |es| && DirectAck(initial, es, k) ==>
                           |Execute(Start(initial), es[..k]).s.cache| <= Unremoved(initial, es[..k]))
  {
    hide Execute, SomeoneWaits, Tidy, Unremoved;
    forall k | 0 <= k < |es| && DirectAck(initial, es, k)
      ensures var s := Execute(Start(initial), es[..k]).s;
              SomeoneWaits(s) <==> Unremoved(initial, es[..k]) < |s.cache|
    {
      OvertakesExact(initial, es[..k]);
    }
  }

  /** Across direct and deferred messages there is no order: a later message can reach the
      broker while an earlier one waits in the cache. */
  lemma NoGlobalOrder(earlier: Message, later: Message)
    ensures var run := Execute(Start([earlier]), [CallPublish(later), BrokerAcks, PublishReturns]);
            && run.Next? && run.s.accepted == [later] && run.s.direct == [later]
            && run.s.replays == [] && run.s.cache == [earlier]
  {
    var es := [CallPublish(later), BrokerAcks, PublishReturns];
    var s0 := Start([earlier]);
    var s1 := Step(s0, es[0]).s;
    var s2 := Step(s1, es[1]).s;
    FollowPath([s0, s1, s2, Step(s2, es[2]).s], es);
  }

  lemma {:induction false} FollowPath(path: seq<State>, es: seq<Effect>)
    requires |path| == |es| + 1
    requires forall i :: 0 <= i < |es| ==> Step(path[i], es[i]) == Next(path[i + 1])
    ensures Execute(path[0], es) == Next(path[|es|])
    decreases |es|
  {
    hide Step;
    if |es| > 0 {
      FollowPath(path[..|es|], es[..|es| - 1]);
    }
  }

  // ----- repeated deliveries -----

  /** The message a flush is about to send has been acknowledged before if and only if an earlier
      flush had it acknowledged and did not get to remove it. */
  lemma {:induction false} RepeatExact(initial: seq<Message>, es: seq<Effect>)
    requires Faithful(es) && Execute(Start(initial), es).Next? && Execute(Start(initial), es).s.phase.Replaying?
    ensures var s := Execute(Start(initial), es).s;
            s.removed + s.phase.sent in s.replays <==> s.phase.sent < Unremoved(initial, es)
  {
    hide Execute, Unremoved;
    ExecuteSegment(initial, es);
  }

  /** Effect k acknowledges a message inside a flush. */
  predicate ReplayAck(initial: seq<Message>, es: seq<Effect>, k: nat)
    requires k < |es|
  {
    var before := Execute(Start(initial), es[..k]);
    es[k].BrokerAcks? && before.Next? && before.s.phase.Replaying?
  }

  /** No acknowledgement of a flush meets a message left behind by an earlier one. */
  ghost predicate NothingResent(initial: seq<Message>, es: seq<Effect>) {
    forall k :: 0 <= k < |es| && ReplayAck(initial, es, k) ==>
                  Unremoved(initial, es[..k]) <= Sent(Execute(Start(initial), es[..k]).s)
  }

  predicate Distinct(log: seq<nat>) {
    forall a, b :: 0 <= a < b < |log| ==> log[a] != log[b]
  }

  lemma DistinctSnoc(log: seq<nat>, n: nat)
    ensures Distinct(log + [n]) <==> Distinct(log) && n !in log
  {
    var more := log + [n];
    assert forall a :: 0 <= a < |log| ==> more[a] == log[a];
    assert more[|log|] == n;
  }

  lemma {:induction false} NothingResentSnoc(initial: seq<Message>, es: seq<Effect>)
    requires |es| > 0
    ensures var n := |es| - 1;
            NothingResent(initial, es) <==>
            && NothingResent(initial, es[..n])
            && (ReplayAck(initial, es, n) ==> Unremoved(initial, es[..n]) <= Sent(Execute(Start(initial), es[..n]).s))
  {
    hide Execute, Unremoved, Sent;
    var n := |es| - 1;
    var before := es[..n];
    forall k | 0 <= k < n
      ensures before[..k] == es[..k] && (ReplayAck(initial, before, k) <==> ReplayAck(initial, es, k))
    {
      assert before[..k] == es[..k];
    }
  }

  /** At most once: no deferred message is acknowledged twice in a run if and only if no flush
      sends a message that an earlier one had acknowledged and not removed. */
  lemma {:induction false} AtMostOnceExact(initial: seq<Message>, es: seq<Effect>)
    requires Faithful(es) && Execute(Start(initial), es).Next?
    ensures Distinct(Execute(Start(initial), es).s.replays) <==> NothingResent(initial, es)
  {
    hide NothingResent, Distinct, Inv, Step, Unremoved;
    if |es| == 0 {
      NothingYet(initial);
      assert es == [];
    } else {
      var before, e := es[..|es| - 1], es[|es| - 1];
      AtMostOnceExact(initial, before);
      ExecuteInv(initial, before);
      NothingResentSnoc(initial, es);
      var s := Execute(Start(initial), before).s;
      LogStep(initial, s, e);
      if ReplayAck(initial, es, |es| - 1) {
        RepeatExact(initial, before);
        DistinctSnoc(s.replays, s.removed + s.phase.sent);
      }
    }
  }

  lemma NothingYet(initial: seq<Message>)
    ensures NothingResent(initial, []) && Distinct(Start(initial).replays)
  {}

  /** In a tidy run the replays go through the queue once, from the front. */
  lemma {:induction false} TidyReplays(initial: seq<Message>, es: seq<Effect>)
    requires Faithful(es) && Tidy(initial, es) && Execute(Start(initial), es).Next?
    ensures var s := Execute(Start(initial), es).s;
            s.replays == Range(0, s.removed + Sent(s))
  {
    hide Step, Sent, Inv;
    if |es| > 0 {
      var n := |es| - 1;
      assert forall k :: 0 <= k < n ==> es[..n][..k] == es[..k] && es[..n][k] == es[k];
      TidyReplays(initial, es[..n]);
      ExecuteInv(initial, es[..n]);
      TidyStep(initial, Execute(Start(initial), es[..n]).s, es[n]);
    } else {
      StartReplays(initial);
    }
  }

  lemma StartReplays(initial: seq<Message>)
    ensures Start(initial).replays == Range(0, Start(initial).removed + Sent(Start(initial)))
  {}

  lemma TidyStep(initial: seq<Message>, s: State, e: Effect)
    requires Inv(initial, s) && Step(s, e).Next? && !e.RemoveWipes? && s.replays == Range(0, s.removed + Sent(s))
    requires e.Crash? || e.RemoveFails? ==> Sent(s) == 0
    ensures var t := Step(s, e).s;
            t.replays == Range(0, t.removed + Sent(t))
  {
    LogStep(initial, s, e);
    hide Inv;
  }

  /** A crash between acknowledgement and removal causes a second delivery. */
  lemma DuplicateAfterCrash(m: Message)
    ensures var run := Execute(Start([m]), [CallFlush(1), BrokerAcks, Crash, CallFlush(1), BrokerAcks]);
            run.Next? && run.s.replays == [0, 0]
  {
    var es := [CallFlush(1), BrokerAcks, Crash, CallFlush(1), BrokerAcks];
    var s0 := Start([m]);
    var s1 := Step(s0, es[0]).s;
    var s2 := Step(s1, es[1]).s;
    var s3 := Step(s2, es[2]).s;
    var s4 := Step(s3, es[3]).s;
    FollowPath([s0, s1, s2, s3, s4, Step(s4, es[4]).s], es);
  }

  // ----- a wiped cache -----

  /** A removal that rewrites the cache empty loses exactly the messages that lie behind those
      acknowledged by this flush or left behind by an earlier one. The delivery guarantee
      survives if and only if there are none; in a tidy run, if and only if the flush had the
      whole cache acknowledged. */
  lemma {:induction false} WipeExact(initial: seq<Message>, es: seq<Effect>)
    requires Faithful(es) && Execute(Start(initial), es).Next? && Execute(Start(initial), es).s.phase.Removing?
    ensures var s := Execute(Start(initial), es).s;
            var t := Step(s, RemoveWipes).s;
            var safe := Max(Unremoved(initial, es), s.phase.sent);
            && Step(s, RemoveWipes).Next? && t.cache == []
            && (forall i :: 0 <= i < |s.deferred| ==> (i !in t.replays <==> s.removed + safe <= i))
            && (Inv(initial, t) <==> |s.cache| == safe)
            && (Tidy(initial, es) ==> (Inv(initial, t) <==> |s.cache| == s.phase.sent))
  {
    hide Execute, Unremoved, Tidy, Faithful, Inv, Segment, Step;
    ExecuteInv(initial, es);
    ExecuteSegment(initial, es);
    var s, u := Execute(Start(initial), es).s, Unremoved(initial, es);
    CacheLength(initial, s);
    WipeStep(initial, s, s.removed + Max(u, s.phase.sent));
    if Tidy(initial, es) { TidyLeavesNothing(initial, es); }
  }

  lemma CacheLength(initial: seq<Message>, s: State)
    requires Inv(initial, s)
    ensures |s.deferred| == s.removed + |s.cache| && Sent(s) <= |s.cache|
  {}

  lemma WipeStep(initial: seq<Message>, s: State, n: nat)
    requires Inv(initial, s) && s.phase.Removing? && Segment(s.replays, n) && n <= |s.deferred|
    ensures var t := Step(s, RemoveWipes).s;
            && Step(s, RemoveWipes).Next? && t.cache == [] && t.replays == s.replays
            && (forall i :: 0 <= i < |s.deferred| ==> (i !in t.replays <==> n <= i))
            && (Inv(initial, t) <==> |s.deferred| == n)
  {
    hide InOrder;
    var t := Step(s, RemoveWipes).s;
    assert t.cache == t.deferred[t.removed..];
    assert Own(initial, t) == Own(initial, s);
    assert n !in t.replays && forall i :: 0 <= i < n ==> i in t.replays;
  }

  /** Faithful reads are needed: one removal that re-reads an unreadable file loses the
      messages behind the acknowledged ones. */
  lemma WipeLosesMessages(sent: Message, unsent: Message)
    ensures var run := Execute(Start([sent, unsent]), [CallFlush(2), BrokerAcks, BrokerFails, RemoveWipes]);
            run.Next? && run.s.cache == [] && run.s.replays == [0] && run.s.direct == []
  {
    var es := [CallFlush(2), BrokerAcks, BrokerFails, RemoveWipes];
    var s0 := Start([sent, unsent]);
    var s1 := Step(s0, es[0]).s;
    var s2 := Step(s1, es[1]).s;
    var s3 := Step(s2, es[2]).s;
    FollowPath([s0, s1, s2, s3, Step(s3, es[3]).s], es);
  }
}
