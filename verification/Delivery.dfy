/**
 At-least-once delivery as a protocol (src/mqtt/reliable_publisher.cpp). A state holds
 what survives a crash, the cache, together with histories kept for the statements; a run
 is any sequence of effects, the environment choosing the broker's answers, the outcome of
 every cache operation, and a crash between any two effects. Calls are serialised by the
 publisher's mutex, so at most one is in progress.
 */
module Delivery {

  datatype Message = Message(topic: string, payload: string)

  /** Where the call in progress, if any, has got to. */
  datatype Phase =
    | Idle
    | Offering(m: Message)                             // publish: waiting for the broker
    | Refused(m: Message)                              // publish: about to append to the cache
    | Returning(m: Message)                            // publish: about to report success
    | Replaying(snapshot: seq<Message>, sent: nat)     // flush: inside the replay loop
    | Removing(sent: nat)                              // flush: about to drop what was sent

  datatype State = State(
    phase: Phase,
    cache: seq<Message>,
    deferred: seq<Message>,   // everything ever put into the cache, in order
    removed: nat,             // how many of those have left it
    direct: seq<Message>,     // acknowledged by the broker inside publish
    replays: seq<nat>,        // positions in deferred acknowledged by replays, in order
    accepted: seq<Message>    // publish reported Published or Deferred
  )

  datatype Effect =
    | CallPublish(m: Message)
    | BrokerAcks
    | BrokerFails
    | AppendSucceeds
    | AppendFails(left: seq<Message>)   // refused or cut short, also by a crash; what is left behind reads as this
    | PublishReturns
    | CallFlush(seen: nat)              // the read of the cache shows its first messages only
    | RemoveSucceeds
    | RemoveFails
    | RemoveWipes                       // the file cache could not re-read its file and rewrote it empty
    | Crash

  datatype Outcome = Stuck | Next(s: State)

  /** The first n messages of a queue, or all of them. */
  function Take(q: seq<Message>, n: nat): seq<Message> {
    if n < |q| then q[..n] else q
  }

  /** What is left of a queue without its first n messages. */
  function Drop(q: seq<Message>, n: nat): seq<Message> {
    if n < |q| then q[n..] else []
  }

  /** Consecutive positions from a start. */
  function Range(start: nat, n: nat): (r: seq<nat>)
    ensures |r| == n && forall i :: 0 <= i < n ==> r[i] == start + i
  {
    seq(n, i requires 0 <= i < n => start + i)
  }

  /** One effect. Effects that the program text does not allow in a phase are stuck. */
  function Step(s: State, e: Effect): Outcome {
    match (s.phase, e)
    case (_, Crash) => Next(s.(phase := Idle))
    case (Idle, CallPublish(m)) => Next(s.(phase := Offering(m)))
    case (Offering(m), BrokerAcks) => Next(s.(phase := Returning(m), direct := s.direct + [m]))
    case (Offering(m), BrokerFails) => Next(s.(phase := Refused(m)))
    case (Refused(m), AppendSucceeds) =>
      Next(s.(phase := Returning(m), cache := s.cache + [m], deferred := s.deferred + [m]))
    case (Refused(m), AppendFails(left)) =>
      Next(s.(phase := Idle, cache := s.cache + left, deferred := s.deferred + left))
    case (Returning(m), PublishReturns) => Next(s.(phase := Idle, accepted := s.accepted + [m]))
    case (Idle, CallFlush(seen)) =>
      var snapshot := Take(s.cache, seen);
      if |snapshot| > 0 then Next(s.(phase := Replaying(snapshot, 0))) else Next(s)
    case (Replaying(snapshot, sent), BrokerAcks) =>
      Next(s.(phase := if sent + 1 < |snapshot| then Replaying(snapshot, sent + 1) else Removing(sent + 1),
              replays := s.replays + [s.removed + sent]))
    case (Replaying(snapshot, sent), BrokerFails) =>
      Next(s.(phase := if sent == 0 then Idle else Removing(sent)))
    case (Removing(sent), RemoveSucceeds) =>
      if sent <= |s.cache| then Next(s.(phase := Idle, cache := Drop(s.cache, sent), removed := s.removed + sent))
      else Stuck
    case (Removing(sent), RemoveFails) => Next(s.(phase := Idle))
    case (Removing(sent), RemoveWipes) => Next(s.(phase := Idle, cache := [], removed := |s.deferred|))
    case _ => Stuck
  }

  function Execute(s: State, es: seq<Effect>): Outcome {
    if |es| == 0 then Next(s)
    else
      match Execute(s, es[..|es| - 1])
      case Stuck => Stuck
      case Next(t) => Step(t, es[|es| - 1])
  }

  /** A process starting on the messages an earlier one left in the cache. */
  function Start(cache: seq<Message>): State {
    State(Idle, cache, cache, 0, [], [], [])
  }

  /** Cache reads are faithful: no removal rewrote the cache from a failed read. */
  predicate Faithful(es: seq<Effect>) {
    RemoveWipes !in es
  }

  // ----- the invariant -----

  /** Everything before position n has been acknowledged by a replay. */
  ghost predicate Acknowledged(s: State, n: nat) {
    forall i :: 0 <= i < n ==> i in s.replays
  }

  /** No position is replayed before the one queued ahead of it has been. */
  ghost predicate InOrder(replays: seq<nat>) {
    forall j :: 0 <= j < |replays| && replays[j] > 0 ==> replays[j] - 1 in replays[..j]
  }

  /** Messages this process put into the cache itself. */
  function Own(initial: seq<Message>, s: State): seq<Message>
    requires initial <= s.deferred
  {
    s.deferred[|initial|..]
  }

  /** The cache is the part of the queue that has not been removed. */
  ghost predicate QueueInv(initial: seq<Message>, s: State) {
    initial <= s.deferred && s.removed <= |s.deferred| && s.cache == s.deferred[s.removed..]
  }

  /** What has left the cache was acknowledged; replays follow the queue. */
  ghost predicate ReplayInv(s: State) {
    && Acknowledged(s, s.removed) && InOrder(s.replays)
    && (forall j :: 0 <= j < |s.replays| ==> s.replays[j] < |s.deferred|)
  }

  /** What a publish reported, or is about to, was acknowledged or queued. */
  ghost predicate CountInv(initial: seq<Message>, s: State)
    requires initial <= s.deferred
  {
    multiset(Reported(s)) <= multiset(s.direct) + multiset(Own(initial, s))
  }

  function Reported(s: State): seq<Message> {
    if s.phase.Returning? then s.accepted + [s.phase.m] else s.accepted
  }

  /** Messages the flush in progress has had acknowledged. */
  function Sent(s: State): nat {
    if s.phase.Replaying? || s.phase.Removing? then s.phase.sent else 0
  }

  /** A flush works on the front of the cache. */
  ghost predicate FlushInv(s: State) {
    && Acknowledged(s, s.removed + Sent(s)) && Sent(s) <= |s.cache|
    && (s.phase.Replaying? ==> s.phase.snapshot <= s.cache && s.phase.sent < |s.phase.snapshot|)
    && (s.phase.Removing? ==> 0 < s.phase.sent)
  }

  ghost predicate Inv(initial: seq<Message>, s: State) {
    QueueInv(initial, s) && ReplayInv(s) && CountInv(initial, s) && FlushInv(s)
  }

  lemma StartInv(initial: seq<Message>)
    ensures Inv(initial, Start(initial))
  {}

  lemma InOrderExtend(replays: seq<nat>, n: nat)
    requires InOrder(replays) && (n == 0 || n - 1 in replays)
    ensures InOrder(replays + [n])
  {
    var more := replays + [n];
    forall j | 0 <= j < |more| && more[j] > 0 ensures more[j] - 1 in more[..j] {
      assert more[..j] == if j < |replays| then replays[..j] else replays;
    }
  }

  lemma AcknowledgedFewer(s: State, n: nat, k: nat)
    requires Acknowledged(s, n) && k <= n
    ensures Acknowledged(s, k)
  {}

  lemma AcknowledgedNext(s: State, t: State, n: nat)
    requires Acknowledged(s, n) && t.replays == s.replays + [n]
    ensures (n == 0 || n - 1 in s.replays) && Acknowledged(t, n + 1)
  {
    assert t.replays[|s.replays|] == n;
  }

  /** Further replays keep what has been acknowledged. */
  lemma AcknowledgedLater(s: State, t: State, n: nat)
    requires Acknowledged(s, n) && s.replays <= t.replays
    ensures Acknowledged(t, n)
  {
    assert forall i :: i in s.replays ==> i in t.replays;
  }

  /** How an effect changes the queue: it grows at the end and shrinks at the front. */
  lemma QueueStep(initial: seq<Message>, s: State, e: Effect)
    requires QueueInv(initial, s) && Sent(s) <= |s.cache| && Step(s, e).Next? && !e.RemoveWipes?
    ensures QueueInv(initial, Step(s, e).s)
  {
    var t := Step(s, e).s;
    if t.deferred != s.deferred {
      var more := t.deferred[|s.deferred|..];
      assert t.deferred == s.deferred + more && t.deferred[..|s.deferred|] == s.deferred;
      assert t.cache == t.deferred[t.removed..];
    }
  }

  /** A replay acknowledges the next message of the flush; nothing else touches the log. */
  ghost predicate LogFollows(s: State, t: State, e: Effect) {
    && s.deferred <= t.deferred && Sent(s) <= |s.cache|
    && (if s.phase.Replaying? && e.BrokerAcks?
        then t.replays == s.replays + [s.removed + Sent(s)] && Sent(s) < |s.cache| && Sent(t) == Sent(s) + 1
        else t.replays == s.replays && Sent(t) <= Sent(s))
    && t.removed == s.removed + (if e.RemoveSucceeds? then Sent(s) else 0)
    && (e.RemoveSucceeds? ==> Sent(t) == 0)
  }

  lemma LogStep(initial: seq<Message>, s: State, e: Effect)
    requires Inv(initial, s) && Step(s, e).Next? && !e.RemoveWipes?
    ensures LogFollows(s, Step(s, e).s, e)
  {
    hide Acknowledged, CountInv, ReplayInv;
  }

  lemma LogKeeps(initial: seq<Message>, s: State, t: State, e: Effect)
    requires QueueInv(initial, s) && ReplayInv(s) && Acknowledged(s, s.removed + Sent(s)) && LogFollows(s, t, e)
    ensures ReplayInv(t) && Acknowledged(t, t.removed + Sent(t))
  {
    hide InOrder, Sent, Acknowledged;
    var n := s.removed + Sent(s);
    if t.replays != s.replays {
      AcknowledgedNext(s, t, n);
      InOrderExtend(s.replays, n);
    } else {
      AcknowledgedLater(s, t, n);
      AcknowledgedFewer(t, n, t.removed + Sent(t));
    }
    AcknowledgedFewer(t, t.removed + Sent(t), t.removed);
  }

  lemma ReplayStep(initial: seq<Message>, s: State, e: Effect)
    requires Inv(initial, s) && Step(s, e).Next? && !e.RemoveWipes?
    ensures ReplayInv(Step(s, e).s) && Acknowledged(Step(s, e).s, Step(s, e).s.removed + Sent(Step(s, e).s))
  {
    LogStep(initial, s, e);
    LogKeeps(initial, s, Step(s, e).s, e);
    hide *;
  }

  /** Whatever a publish newly reports has just been acknowledged or queued. */
  ghost predicate CountFollows(s: State, t: State) {
    && s.direct <= t.direct && s.deferred <= t.deferred
    && Reported(t) <= Reported(s) + t.direct[|s.direct|..] + t.deferred[|s.deferred|..]
  }

  lemma ReportStep(s: State, e: Effect)
    requires Step(s, e).Next? && !e.RemoveWipes?
    ensures CountFollows(s, Step(s, e).s)
  {
    hide Take, Drop;
  }

  lemma CountKeeps(initial: seq<Message>, s: State, t: State)
    requires initial <= s.deferred && CountInv(initial, s) && CountFollows(s, t)
    ensures initial <= t.deferred && CountInv(initial, t)
  {
    hide Reported;
    var acks, more := t.direct[|s.direct|..], t.deferred[|s.deferred|..];
    assert t.direct == s.direct + acks;
    assert Own(initial, t) == Own(initial, s) + more;
    Balance(Reported(t), Reported(s), s.direct, Own(initial, s), acks, more);
  }

  lemma Balance(now: seq<Message>, before: seq<Message>, direct: seq<Message>, own: seq<Message>,
                acks: seq<Message>, more: seq<Message>)
    requires multiset(before) <= multiset(direct) + multiset(own) && now <= before + acks + more
    ensures multiset(now) <= multiset(direct + acks) + multiset(own + more)
  {
    var all := before + acks + more;
    assert all == now + all[|now|..];
    assert multiset(now) <= multiset(all) == multiset(before) + multiset(acks) + multiset(more);
  }

  lemma FlushStep(initial: seq<Message>, s: State, e: Effect)
    requires Inv(initial, s) && Step(s, e).Next? && !e.RemoveWipes?
    requires Acknowledged(Step(s, e).s, Step(s, e).s.removed + Sent(Step(s, e).s))
    ensures FlushInv(Step(s, e).s)
  {
    hide Acknowledged, CountInv, ReplayInv;
  }

  lemma StepInv(initial: seq<Message>, s: State, e: Effect)
    requires Inv(initial, s) && Step(s, e).Next? && !e.RemoveWipes?
    ensures Inv(initial, Step(s, e).s)
  {
    QueueStep(initial, s, e);
    ReplayStep(initial, s, e);
    ReportStep(s, e);
    CountKeeps(initial, s, Step(s, e).s);
    FlushStep(initial, s, e);
    hide *;
  }

  /** Every reachable state, whatever the broker, the cache and crashes do. */
  lemma {:induction false} ExecuteInv(initial: seq<Message>, es: seq<Effect>)
    requires Faithful(es) && Execute(Start(initial), es).Next?
    ensures Inv(initial, Execute(Start(initial), es).s)
  {
    hide Inv, Step;
    if |es| == 0 {
      StartInv(initial);
    } else {
      ExecuteInv(initial, es[..|es| - 1]);
      StepInv(initial, Execute(Start(initial), es[..|es| - 1]).s, es[|es| - 1]);
    }
  }

  /** Every prefix of a run is a run, and may end in a crash: the statements about runs
      hold however far a call had got when the process died. */
  lemma {:induction false} CrashAnywhere(s: State, es: seq<Effect>, k: nat)
    requires k <= |es| && Execute(s, es).Next?
    ensures Execute(s, es[..k]).Next? && Execute(s, es[..k] + [Crash]).Next?
    decreases |es|
  {
    hide Step;
    if k < |es| {
      assert es[..|es| - 1][..k] == es[..k];
      CrashAnywhere(s, es[..|es| - 1], k);
    } else {
      assert es[..k] == es && (es + [Crash])[..|es|] == es;
      CrashPossible(Execute(s, es).s);
    }
  }

  lemma CrashPossible(s: State)
    ensures Step(s, Crash).Next?
  {}

  // ----- at least once -----

  /** The messages acknowledged by replays, in order of acknowledgement. */
  function ReplayedMessages(deferred: seq<Message>, replays: seq<nat>): seq<Message>
    requires forall j :: 0 <= j < |replays| ==> replays[j] < |deferred|
  {
    seq(|replays|, j requires 0 <= j < |replays| => deferred[replays[j]])
  }

  lemma Without(replays: seq<nat>, j: nat, i: nat)
    requires j < |replays| && i in replays && i != replays[j]
    ensures i in replays[..j] + replays[j + 1..]
  {
    var k :| 0 <= k < |replays| && replays[k] == i;
    assert (replays[..j] + replays[j + 1..])[if k < j then k else k - 1] == i;
  }

  /** Acknowledgements of n distinct positions are acknowledgements of n messages. */
  lemma {:induction false} AcknowledgedMessages(deferred: seq<Message>, replays: seq<nat>, n: nat)
    requires n <= |deferred| && forall j :: 0 <= j < |replays| ==> replays[j] < |deferred|
    requires forall i :: 0 <= i < n ==> i in replays
    ensures multiset(deferred[..n]) <= multiset(ReplayedMessages(deferred, replays))
    decreases n
  {
    if n > 0 {
      assert n - 1 in replays;
      var j :| 0 <= j < |replays| && replays[j] == n - 1;
      var fewer := replays[..j] + replays[j + 1..];
      forall i | 0 <= i < n - 1 ensures i in fewer {
        Without(replays, j, i);
      }
      AcknowledgedMessages(deferred, fewer, n - 1);
      OneMore(deferred, replays, j);
      assert deferred[..n] == deferred[..n - 1] + [deferred[n - 1]];
    }
  }

  lemma OneMore(deferred: seq<Message>, replays: seq<nat>, j: nat)
    requires j < |replays| && forall j :: 0 <= j < |replays| ==> replays[j] < |deferred|
    ensures multiset(ReplayedMessages(deferred, replays))
            == multiset(ReplayedMessages(deferred, replays[..j] + replays[j + 1..])) + multiset{deferred[replays[j]]}
  {
    var acks := ReplayedMessages(deferred, replays);
    assert ReplayedMessages(deferred, replays[..j] + replays[j + 1..]) == acks[..j] + acks[j + 1..];
    assert acks == acks[..j] + [acks[j]] + acks[j + 1..];
  }

  lemma CountMessages(initial: seq<Message>, own: seq<Message>, gone: seq<Message>, cache: seq<Message>,
                      accepted: seq<Message>, direct: seq<Message>, acks: seq<Message>)
    requires initial + own == gone + cache
    requires multiset(accepted) <= multiset(direct) + multiset(own) && multiset(gone) <= multiset(acks)
    ensures multiset(initial) + multiset(accepted) <= multiset(direct) + multiset(acks) + multiset(cache)
  {
    assert multiset(initial) + multiset(own) == multiset(initial + own) == multiset(gone + cache)
        == multiset(gone) + multiset(cache);
    var l, r := multiset(initial) + multiset(accepted), multiset(direct) + multiset(acks) + multiset(cache);
    forall m ensures l[m] <= r[m] {
      assert (multiset(initial) + multiset(own))[m] == (multiset(gone) + multiset(cache))[m];
      assert multiset(accepted)[m] <= (multiset(direct) + multiset(own))[m];
      assert multiset(gone)[m] <= multiset(acks)[m];
    }
  }

  /** At-least-once over every run: counted with multiplicity, each message for which publish
      reported Published or Deferred, and each message inherited from an earlier process, has
      been acknowledged by the broker or is still in the cache; and nothing has left the cache
      without having been acknowledged. */
  lemma {:induction false} AtLeastOnce(initial: seq<Message>, es: seq<Effect>)
    requires Faithful(es) && Execute(Start(initial), es).Next?
    ensures var s := Execute(Start(initial), es).s;
            && (forall j :: 0 <= j < |s.replays| ==> s.replays[j] < |s.deferred|)
            && multiset(initial) + multiset(s.accepted)
               <= multiset(s.direct) + multiset(ReplayedMessages(s.deferred, s.replays)) + multiset(s.cache)
            && s.removed <= |s.deferred| && s.cache == s.deferred[s.removed..] && Acknowledged(s, s.removed)
  {
    hide Execute;
    ExecuteInv(initial, es);
    var s := Execute(Start(initial), es).s;
    AcknowledgedMessages(s.deferred, s.replays, s.removed);
    assert initial + Own(initial, s) == s.deferred[..s.removed] + s.cache;
    CountMessages(initial, Own(initial, s), s.deferred[..s.removed], s.cache,
                  s.accepted, s.direct, ReplayedMessages(s.deferred, s.replays));
  }

  // ----- replay order -----

  /** Position in the log of the first acknowledgement of i. */
  function FirstReplay(replays: seq<nat>, i: nat): (j: nat)
    requires i in replays
    ensures j < |replays| && replays[j] == i && i !in replays[..j]
  {
    if replays[0] == i then 0
    else
      assert replays == [replays[0]] + replays[1..];
      var j := 1 + FirstReplay(replays[1..], i);
      assert replays[..j] == [replays[0]] + replays[1..][..j - 1];
      j
  }

  lemma {:induction false} FirstIsFirst(replays: seq<nat>, i: nat, k: nat)
    requires k < |replays| && replays[k] == i
    ensures FirstReplay(replays, i) <= k
    decreases k
  {
    if replays[0] != i { FirstIsFirst(replays[1..], i, k - 1); }
  }

  lemma {:induction false} EarlierReplayed(replays: seq<nat>, i: nat, j: nat)
    requires InOrder(replays) && j < |replays| && i < replays[j]
    ensures i in replays[..j]
    decreases j
  {
    var k :| 0 <= k < j && replays[..j][k] == replays[j] - 1;
    if i < replays[j] - 1 {
      EarlierReplayed(replays, i, k);
      assert forall x :: x in replays[..k] ==> x in replays[..j];
    }
  }

  /** Deferred messages are first acknowledged in the order they were queued, whatever failed
      removals and crashes cause to be sent again. */
  lemma {:induction false} ReplayOrder(initial: seq<Message>, es: seq<Effect>, a: nat, b: nat)
    requires Faithful(es) && Execute(Start(initial), es).Next?
    requires a < b && b in Execute(Start(initial), es).s.replays
    ensures var log := Execute(Start(initial), es).s.replays;
            a in log && FirstReplay(log, a) < FirstReplay(log, b)
  {
    hide Execute, FirstReplay;
    ExecuteInv(initial, es);
    var log := Execute(Start(initial), es).s.replays;
    var j := FirstReplay(log, b);
    EarlierReplayed(log, a, j);
    var k :| 0 <= k < j && log[..j][k] == a;
    assert log[k] == a;
    FirstIsFirst(log, a, k);
  }
}
