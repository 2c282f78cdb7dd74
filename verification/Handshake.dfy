/**
 The PUBACK handshake of src/mqtt/mqtt_client.cpp between calling threads and the network
 thread. A call tests the connection, locks the acknowledgement mutex, clears the set of
 acknowledged ids, sends, and waits on the condition variable, which releases the mutex;
 callbacks insert ids while nobody holds it. The library is assumed never to hand out an id that
 is still in flight or whose callback has not finished.
 */
module Handshake {

  datatype Phase =
    | Admitted           // found the client connected, waiting for the mutex
    | Locked             // mutex held, set cleared, message not sent yet
    | Sent(id: int)      // mutex still held
    | Waiting(id: int)   // inside wait_for, mutex released

  datatype State = State(
    connected: bool,
    ids: set<int>,                // acknowledged_message_ids_
    calls: map<nat, Phase>,       // calls in progress
    inFlight: map<int, nat>,      // sent and not acknowledged: whose message an id is
    callbacks: map<int, nat>,     // acknowledged by the broker, on_publish not run yet
    fired: set<nat>,              // calls for whose message on_publish has run
    results: map<nat, bool>       // what finished calls returned
  )

  datatype Effect =
    | Enter(n: nat)               // tests the connection
    | Lock(n: nat)                // locks the mutex and clears the set
    | SendSucceeds(n: nat, id: int)
    | SendFails(n: nat)
    | Wait(n: nat)
    | Wake(n: nat)                // predicate satisfied or timeout; decides the result
    | Puback(id: int)             // the broker acknowledges
    | OnPublish(id: int)
    | OnConnect(success: bool)
    | OnDisconnect

  datatype Outcome = Stuck | Next(s: State)

  const START: State := State(false, {}, map[], map[], map[], {}, map[])

  /** Between locking the mutex and waiting. */
  predicate Holding(p: Phase) { p.Locked? || p.Sent? }

  predicate MutexFree(s: State) {
    forall n :: n in s.calls ==> !Holding(s.calls[n])
  }

  function Step(s: State, e: Effect): Outcome {
    match e
    case Enter(n) =>
      if n in s.calls || n in s.results then Stuck
      else if !s.connected then Next(s.(results := s.results[n := false]))
      else Next(s.(calls := s.calls[n := Admitted]))
    case Lock(n) =>
      if n in s.calls && s.calls[n].Admitted? && MutexFree(s)
      then Next(s.(calls := s.calls[n := Locked], ids := {}))
      else Stuck
    case SendSucceeds(n, id) =>
      if n in s.calls && s.calls[n].Locked? && id !in s.inFlight && id !in s.callbacks
      then Next(s.(calls := s.calls[n := Sent(id)], inFlight := s.inFlight[id := n]))
      else Stuck
    case SendFails(n) =>
      if n in s.calls && s.calls[n].Locked?
      then Next(s.(calls := s.calls - {n}, results := s.results[n := false]))
      else Stuck
    case Wait(n) =>
      if n in s.calls && s.calls[n].Sent?
      then Next(s.(calls := s.calls[n := Waiting(s.calls[n].id)]))
      else Stuck
    case Wake(n) =>
      if n in s.calls && s.calls[n].Waiting? && MutexFree(s)
      then
        var id := s.calls[n].id;
        Next(s.(calls := s.calls - {n}, ids := s.ids - {id}, results := s.results[n := id in s.ids]))
      else Stuck
    case Puback(id) =>
      if id in s.inFlight
      then Next(s.(inFlight := s.inFlight - {id}, callbacks := s.callbacks[id := s.inFlight[id]]))
      else Stuck
    case OnPublish(id) =>
      if id in s.callbacks && MutexFree(s)
      then Next(s.(ids := s.ids + {id}, callbacks := s.callbacks - {id}, fired := s.fired + {s.callbacks[id]}))
      else Stuck
    case OnConnect(success) => Next(s.(connected := success))
    case OnDisconnect => Next(s.(connected := false))
  }

  function Execute(es: seq<Effect>): Outcome {
    if |es| == 0 then Next(START)
    else
      match Execute(es[..|es| - 1])
      case Stuck => Stuck
      case Next(t) => Step(t, es[|es| - 1])
  }

  /** Calls do not overlap, as under the publisher's mutex. */
  ghost predicate Serialized(es: seq<Effect>) {
    forall k :: 0 <= k < |es| && es[k].Enter? && Execute(es[..k]).Next? ==> |Execute(es[..k]).s.calls| == 0
  }

  /** The id is on its way for this call's message. */
  predicate Travelling(s: State, n: nat, id: int) {
    (id in s.inFlight && s.inFlight[id] == n) || (id in s.callbacks && s.callbacks[id] == n)
  }

  ghost predicate CallInv(s: State, n: nat)
    requires n in s.calls
  {
    && n !in s.results
    && match s.calls[n]
       case Admitted => n !in s.fired && (forall id :: !Travelling(s, n, id))
       case Locked => s.ids == {} && n !in s.fired && (forall id :: !Travelling(s, n, id))
       case Sent(id) => s.ids == {} && n !in s.fired && (forall i :: Travelling(s, n, i) ==> i == id) && Owner(s, n, id)
       case Waiting(id) =>
         && (n in s.fired <==> id in s.ids)
         && (forall i :: Travelling(s, n, i) ==> i == id)
         && Owner(s, n, id)
  }

  /** Whatever is on its way under this id is this call's message. */
  ghost predicate Owner(s: State, n: nat, id: int) {
    forall m :: Travelling(s, m, id) ==> m == n
  }

  ghost predicate Inv(s: State) {
    && (forall a, b :: a in s.calls && b in s.calls ==> a == b)
    && (forall n :: n in s.calls ==> CallInv(s, n))
    && (forall n :: n in s.results && s.results[n] ==> n in s.fired)
    && (forall n :: n !in s.calls && n !in s.results ==> n !in s.fired && forall id :: !Travelling(s, n, id))
    && s.inFlight.Keys !! s.callbacks.Keys
  }

  lemma EnterInv(s: State, n: nat)
    requires Inv(s) && |s.calls| == 0 && Step(s, Enter(n)).Next?
    ensures Inv(Step(s, Enter(n)).s)
  {
    var t := Step(s, Enter(n)).s;
    assert s.calls == map[];
    assert forall m, id :: Travelling(t, m, id) <==> Travelling(s, m, id);
  }

  lemma LockInv(s: State, n: nat)
    requires Inv(s) && Step(s, Lock(n)).Next?
    ensures Inv(Step(s, Lock(n)).s)
  {
    var t := Step(s, Lock(n)).s;
    assert CallInv(s, n);
    assert forall m, id :: Travelling(t, m, id) <==> Travelling(s, m, id);
  }

  lemma SendInv(s: State, n: nat, id: int)
    requires Inv(s) && Step(s, SendSucceeds(n, id)).Next?
    ensures Inv(Step(s, SendSucceeds(n, id)).s)
  {
    var t := Step(s, SendSucceeds(n, id)).s;
    assert CallInv(s, n);
    assert forall m, i :: Travelling(t, m, i) <==> Travelling(s, m, i) || (m == n && i == id);
  }

  lemma LeaveInv(s: State, e: Effect)
    requires Inv(s) && (e.SendFails? || e.Wake?) && Step(s, e).Next?
    ensures Inv(Step(s, e).s)
  {
    var t := Step(s, e).s;
    assert CallInv(s, e.n);
    assert forall m, i :: Travelling(t, m, i) <==> Travelling(s, m, i);
    assert t.calls == map[];
  }

  lemma PubackInv(s: State, id: int)
    requires Inv(s) && Step(s, Puback(id)).Next?
    ensures Inv(Step(s, Puback(id)).s)
  {
    var t := Step(s, Puback(id)).s;
    assert forall m, i :: Travelling(t, m, i) <==> Travelling(s, m, i);
    forall n | n in t.calls ensures CallInv(t, n) { assert CallInv(s, n); }
  }

  lemma OnPublishInv(s: State, id: int)
    requires Inv(s) && Step(s, OnPublish(id)).Next?
    ensures Inv(Step(s, OnPublish(id)).s)
  {
    var t := Step(s, OnPublish(id)).s;
    var owner := s.callbacks[id];
    assert Travelling(s, owner, id);
    assert forall m, i :: Travelling(t, m, i) ==> Travelling(s, m, i);
    forall n | n in t.calls ensures CallInv(t, n) { assert CallInv(s, n); }
  }

  lemma StepInv(s: State, e: Effect)
    requires Inv(s) && Step(s, e).Next? && (e.Enter? ==> |s.calls| == 0)
    ensures Inv(Step(s, e).s)
  {
    match e
    case Enter(n) => EnterInv(s, n);
    case Lock(n) => LockInv(s, n);
    case SendSucceeds(n, id) => SendInv(s, n, id);
    case SendFails(_) => LeaveInv(s, e);
    case Wake(_) => LeaveInv(s, e);
    case Puback(id) => PubackInv(s, id);
    case OnPublish(id) => OnPublishInv(s, id);
    case _ =>
      var t := Step(s, e).s;
      assert forall m, i :: Travelling(t, m, i) <==> Travelling(s, m, i);
      forall n | n in t.calls ensures CallInv(t, n) { assert CallInv(s, n); }
  }

  lemma {:induction false} ExecuteInv(es: seq<Effect>)
    requires Serialized(es) && Execute(es).Next?
    ensures Inv(Execute(es).s)
  {
    hide Step, Inv;
    if |es| == 0 {
      StartInv();
    } else {
      var init := es[..|es| - 1];
      assert forall k :: 0 <= k < |init| ==> init[..k] == es[..k] && init[k] == es[k];
      ExecuteInv(init);
      StepInv(Execute(init).s, es[|es| - 1]);
    }
  }

  lemma StartInv()
    ensures Inv(START)
  {}

  // ----- every run, overlapping calls included -----

  /** Nobody else is between locking the mutex and waiting. */
  predicate Alone(s: State, n: nat) {
    forall m :: m in s.calls && m != n ==> !Holding(s.calls[m])
  }

  /** While the mutex is held the set is empty; an id in the set is that of a message whose
      callback has run, because until then no other message can have it. */
  ghost predicate CallSafe(s: State, n: nat)
    requires n in s.calls
  {
    && n !in s.results
    && match s.calls[n]
       case Admitted => true
       case Locked => s.ids == {} && Alone(s, n)
       case Sent(id) => s.ids == {} && Alone(s, n) && Travelling(s, n, id)
       case Waiting(id) => (id in s.ids ==> n in s.fired) && (n in s.fired || Travelling(s, n, id))
  }

  ghost predicate SafeInv(s: State) {
    && (forall n :: n in s.calls ==> CallSafe(s, n))
    && (forall n :: n in s.results && s.results[n] ==> n in s.fired)
    && s.inFlight.Keys !! s.callbacks.Keys
  }

  lemma SafeStep(s: State, e: Effect)
    requires SafeInv(s) && Step(s, e).Next?
    ensures SafeInv(Step(s, e).s)
  {
    var t := Step(s, e).s;
    forall n | n in t.calls ensures CallSafe(t, n) {
      if n in s.calls { assert CallSafe(s, n); }
      if e.SendSucceeds? { assert CallSafe(s, e.n); }
      if e.Wait? { assert CallSafe(s, e.n); }
    }
    if e.Wake? { assert CallSafe(s, e.n); }
  }

  lemma {:induction false} ExecuteSafe(es: seq<Effect>)
    requires Execute(es).Next?
    ensures SafeInv(Execute(es).s)
  {
    hide Step, SafeInv;
    if |es| == 0 {
      StartSafe();
    } else {
      ExecuteSafe(es[..|es| - 1]);
      SafeStep(Execute(es[..|es| - 1]).s, es[|es| - 1]);
    }
  }

  lemma StartSafe()
    ensures SafeInv(START)
  {}

  /** In every run, however calls overlap: publish returned true only if on_publish ran for that
      call's own message. */
  lemma {:induction false} AcknowledgementSound(es: seq<Effect>, n: nat)
    requires Execute(es).Next? && n in Execute(es).s.results && Execute(es).s.results[n]
    ensures n in Execute(es).s.fired
  {
    hide Execute;
    ExecuteSafe(es);
  }

  /** Effect k is a call that clears the set. */
  predicate Clears(es: seq<Effect>, k: nat)
    requires k < |es|
  {
    es[k].Lock?
  }

  /** Effect k is a call that wakes up and takes this id out of the set. */
  predicate Takes(es: seq<Effect>, k: nat, id: int)
    requires k < |es|
  {
    && es[k].Wake? && Execute(es[..k]).Next?
    && es[k].n in Execute(es[..k]).s.calls && Execute(es[..k]).s.calls[es[k].n] == Waiting(id)
  }

  /** Effect k is the callback for this id, and nothing has erased it since. */
  ghost predicate Standing(es: seq<Effect>, k: nat, id: int)
    requires k < |es|
  {
    es[k] == OnPublish(id) && forall j :: k < j < |es| ==> !Clears(es, j) && !Takes(es, j, id)
  }

  ghost predicate Heard(es: seq<Effect>, id: int) {
    exists k :: 0 <= k < |es| && Standing(es, k, id)
  }

  lemma {:induction false} HeardSnoc(es: seq<Effect>, e: Effect, id: int)
    ensures var all := es + [e];
            Heard(all, id) <==> e == OnPublish(id) || (Heard(es, id) && !Clears(all, |es|) && !Takes(all, |es|, id))
  {
    hide Execute;
    var all := es + [e];
    forall j | 0 <= j < |es|
      ensures all[j] == es[j] && all[..j] == es[..j]
    {}
    assert forall j :: 0 <= j < |es| ==>
                         (Clears(all, j) <==> Clears(es, j)) && (Takes(all, j, id) <==> Takes(es, j, id));
    if e == OnPublish(id) {
      assert Standing(all, |es|, id);
    }
    if Heard(es, id) && !Clears(all, |es|) && !Takes(all, |es|, id) {
      var k :| 0 <= k < |es| && Standing(es, k, id);
      assert Standing(all, k, id);
    }
    if Heard(all, id) && e != OnPublish(id) {
      var k :| 0 <= k < |all| && Standing(all, k, id);
      assert Standing(es, k, id);
    }
  }

  lemma {:induction false} IdsHeard(es: seq<Effect>, id: int)
    requires Execute(es).Next?
    ensures id in Execute(es).s.ids <==> Heard(es, id)
  {
    hide Heard, Step;
    if |es| == 0 {
      NothingHeard(id);
      assert es == [];
    } else {
      var before, e := es[..|es| - 1], es[|es| - 1];
      assert es == before + [e];
      IdsHeard(before, id);
      HeardSnoc(before, e, id);
      IdsStep(Execute(before).s, e, id);
    }
  }

  lemma NothingHeard(id: int)
    ensures !Heard([], id) && START.ids == {}
  {}

  lemma IdsStep(s: State, e: Effect, id: int)
    requires Step(s, e).Next?
    ensures id in Step(s, e).s.ids <==>
            || e == OnPublish(id)
            || (id in s.ids && !e.Lock?
                && !(e.Wake? && e.n in s.calls && s.calls[e.n] == Waiting(id)))
  {}

  /** In every run: a call about to decide returns true if and only if a callback for its id ran
      since the last call cleared the set, and no other call waiting for that id has taken it. */
  lemma {:induction false} DecisionExact(es: seq<Effect>, n: nat)
    requires Execute(es).Next? && Step(Execute(es).s, Wake(n)).Next?
    ensures Step(Execute(es).s, Wake(n)).s.results[n] <==> Heard(es, Execute(es).s.calls[n].id)
  {
    hide Execute, Heard;
    IdsHeard(es, Execute(es).s.calls[n].id);
  }

  /** With serialised calls that is exactly when on_publish has run for the call's own message. */
  lemma {:induction false} AcknowledgementExact(es: seq<Effect>, n: nat)
    requires Serialized(es) && Execute(es).Next? && Step(Execute(es).s, Wake(n)).Next?
    ensures Step(Execute(es).s, Wake(n)).s.results[n] <==> n in Execute(es).s.fired
  {
    hide Execute;
    ExecuteInv(es);
    assert CallInv(Execute(es).s, n);
  }

  /** Effect k is a successful connection, and nothing has ended it since. */
  predicate StillUp(es: seq<Effect>, k: nat)
    requires k < |es|
  {
    es[k] == OnConnect(true) && forall j :: k < j < |es| ==> es[j] != OnConnect(false) && es[j] != OnDisconnect
  }

  ghost predicate Connected(es: seq<Effect>) {
    exists k :: 0 <= k < |es| && StillUp(es, k)
  }

  lemma {:induction false} ConnectedSnoc(es: seq<Effect>, e: Effect)
    ensures Connected(es + [e]) <==>
            e == OnConnect(true) || (Connected(es) && e != OnConnect(false) && e != OnDisconnect)
  {
    var all := es + [e];
    assert forall j :: 0 <= j < |es| ==> all[j] == es[j];
    if e == OnConnect(true) {
      assert StillUp(all, |es|);
    }
    if Connected(es) && e != OnConnect(false) && e != OnDisconnect {
      var k :| 0 <= k < |es| && StillUp(es, k);
      assert StillUp(all, k);
    }
    if Connected(all) && e != OnConnect(true) {
      var k :| 0 <= k < |all| && StillUp(all, k);
      assert StillUp(es, k) && all[|es|] == e;
    }
  }

  lemma {:induction false} ConnectedIs(es: seq<Effect>)
    requires Execute(es).Next?
    ensures Execute(es).s.connected <==> Connected(es)
  {
    hide Connected;
    if |es| == 0 {
      NeverConnected();
      assert es == [];
    } else {
      var before, e := es[..|es| - 1], es[|es| - 1];
      assert es == before + [e];
      ConnectedIs(before);
      ConnectedSnoc(before, e);
    }
  }

  lemma NeverConnected()
    ensures !Connected([])
  {}

  /** A call that enters returns false at once if and only if no connection has succeeded since the
      last one was lost or refused; otherwise it goes on to the mutex. */
  lemma {:induction false} EnterExact(es: seq<Effect>, n: nat)
    requires Execute(es).Next? && n !in Execute(es).s.calls && n !in Execute(es).s.results
    ensures var t := Step(Execute(es).s, Enter(n));
            && t.Next?
            && (n in t.s.results <==> !Connected(es)) && (n in t.s.results ==> !t.s.results[n])
            && (n in t.s.calls <==> Connected(es)) && (n in t.s.calls ==> t.s.calls[n] == Admitted)
  {
    hide Execute, Connected;
    ConnectedIs(es);
  }

  lemma {:induction false} FollowPath(path: seq<State>, es: seq<Effect>)
    requires |path| == |es| + 1 && path[0] == START
    requires forall i :: 0 <= i < |es| ==> Step(path[i], es[i]) == Next(path[i + 1])
    ensures Execute(es) == Next(path[|es|])
    decreases |es|
  {
    hide Step;
    if |es| > 0 {
      FollowPath(path[..|es|], es[..|es| - 1]);
    }
  }

  /** A call waiting with its acknowledgement already in the set. */
  function Answered(n: nat, id: int): State {
    State(true, {id}, map[n := Waiting(id)], map[], map[], {n}, map[])
  }

  /** A call that has sent its message and waits. */
  function Asking(n: nat, id: int): State {
    State(true, {}, map[n := Waiting(id)], map[id := n], map[], {}, map[])
  }

  lemma AskingSteps(n: nat, id: int) returns (path: seq<State>)
    ensures |path| == 6 && path[0] == START && path[5] == Asking(n, id)
    ensures Step(path[0], OnConnect(true)) == Next(path[1]) && Step(path[1], Enter(n)) == Next(path[2])
    ensures Step(path[2], Lock(n)) == Next(path[3]) && Step(path[3], SendSucceeds(n, id)) == Next(path[4])
    ensures Step(path[4], Wait(n)) == Next(path[5])
  {
    var s1 := START.(connected := true);
    var s2 := s1.(calls := map[n := Admitted]);
    var s3 := s1.(calls := map[n := Locked]);
    var s4 := s1.(calls := map[n := Sent(id)], inFlight := map[id := n]);
    path := [START, s1, s2, s3, s4, Asking(n, id)];
  }

  lemma AnsweredSteps(n: nat, id: int) returns (s: State)
    ensures Step(Asking(n, id), Puback(id)) == Next(s) && Step(s, OnPublish(id)) == Next(Answered(n, id))
  {
    s := Asking(n, id).(inFlight := map[], callbacks := map[id := n]);
  }

  lemma OverlapSteps(n: nat, id: int, other: nat) returns (path: seq<State>)
    requires n != other
    ensures |path| == 4
    ensures Step(Answered(n, id), Enter(other)) == Next(path[0]) && Step(path[0], Lock(other)) == Next(path[1])
    ensures Step(path[1], SendFails(other)) == Next(path[2]) && Step(path[2], Wake(n)) == Next(path[3])
    ensures n in path[3].fired && n in path[3].results && !path[3].results[n]
  {
    var s := Answered(n, id);
    var s1 := s.(calls := map[n := Waiting(id), other := Admitted]);
    var s2 := s.(calls := map[n := Waiting(id), other := Locked], ids := {});
    var s3 := s.(ids := {}, results := map[other := false]);
    path := [s1, s2, s3, s3.(calls := map[], results := map[other := false, n := false])];
  }

  /** The publisher's mutex is needed: another call's clear erases the acknowledgement of a
      waiting call, which then returns false although on_publish ran for its message. */
  lemma OverlapLosesAcknowledgement(n: nat, other: nat, id: int)
    requires n != other
    ensures var run := Execute([OnConnect(true), Enter(n), Lock(n), SendSucceeds(n, id), Wait(n), Puback(id),
                                OnPublish(id), Enter(other), Lock(other), SendFails(other), Wake(n)]);
            run.Next? && n in run.s.fired && n in run.s.results && !run.s.results[n]
  {
    hide Step, Execute, Asking, Answered;
    var front := AskingSteps(n, id);
    var middle := AnsweredSteps(n, id);
    var back := OverlapSteps(n, id, other);
    FollowPath(front + [middle, Answered(n, id)] + back,
               [OnConnect(true), Enter(n), Lock(n), SendSucceeds(n, id), Wait(n), Puback(id),
                OnPublish(id), Enter(other), Lock(other), SendFails(other), Wake(n)]);
  }
}
