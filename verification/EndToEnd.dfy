/**
 The delivery protocol over the PUBACK handshake: when the broker's answers are the results of
 MqttClient::publish (src/mqtt/mqtt_client.cpp), every message the protocol counts as acknowledged
 is one for which on_publish ran.
 */
module EndToEnd {
  import opened Delivery
  import opened Ordering
  import Handshake

  /** Effect k asks the broker, inside publish or inside a flush. */
  predicate Asks(initial: seq<Message>, es: seq<Effect>, k: nat)
    requires k < |es|
  {
    var before := Execute(Start(initial), es[..k]);
    && (es[k].BrokerAcks? || es[k].BrokerFails?) && before.Next?
    && (before.s.phase.Offering? || before.s.phase.Replaying?)
  }

  /** Each question is a call of MqttClient::publish of its own, and the answer is what that call
      returned. */
  ghost predicate Answered(initial: seq<Message>, es: seq<Effect>, calls: seq<nat>, results: map<nat, bool>) {
    && |calls| == |es|
    && (forall k :: 0 <= k < |es| && Asks(initial, es, k) ==>
                      calls[k] in results && (es[k].BrokerAcks? <==> results[calls[k]]))
    && (forall j, k :: 0 <= j < k < |es| && Asks(initial, es, j) && Asks(initial, es, k) ==> calls[j] != calls[k])
  }

  /** Where in the run the direct acknowledgements are, in order. */
  function DirectAt(initial: seq<Message>, es: seq<Effect>): seq<nat> {
    if |es| == 0 then []
    else
      var n := |es| - 1;
      DirectAt(initial, es[..n]) + if DirectAck(initial, es, n) then [n] else []
  }

  /** Where in the run the acknowledgements of replays are, in order. */
  function ReplayAt(initial: seq<Message>, es: seq<Effect>): seq<nat> {
    if |es| == 0 then []
    else
      var n := |es| - 1;
      ReplayAt(initial, es[..n]) + if ReplayAck(initial, es, n) then [n] else []
  }

  /** Positions of a run, from the front, each satisfying what is said of it. */
  ghost predicate Rising(positions: seq<nat>, n: nat) {
    && (forall j :: 0 <= j < |positions| ==> positions[j] < n)
    && (forall i, j :: 0 <= i < j < |positions| ==> positions[i] < positions[j])
  }

  lemma {:induction false} PositionsRise(initial: seq<Message>, es: seq<Effect>)
    ensures Rising(DirectAt(initial, es), |es|) && Rising(ReplayAt(initial, es), |es|)
  {
    hide DirectAck, ReplayAck;
    if |es| > 0 { PositionsRise(initial, es[..|es| - 1]); }
  }

  /** Effect k acknowledges this message inside publish. */
  predicate Confirms(initial: seq<Message>, es: seq<Effect>, k: nat, m: Message)
    requires k < |es|
  {
    DirectAck(initial, es, k) && Execute(Start(initial), es[..k]).s.phase.m == m
  }

  /** Effect k acknowledges this position of the queue inside a flush. */
  predicate Replays(initial: seq<Message>, es: seq<Effect>, k: nat, i: nat)
    requires k < |es|
  {
    && ReplayAck(initial, es, k)
    && var s := Execute(Start(initial), es[..k]).s;
    s.removed + s.phase.sent == i
  }

  /** The logs of a run are written by the effects at those positions, entry by entry. */
  ghost predicate LogsWritten(initial: seq<Message>, es: seq<Effect>, s: State, ds: seq<nat>, rs: seq<nat>) {
    && |ds| == |s.direct| && |rs| == |s.replays| && Rising(ds, |es|) && Rising(rs, |es|)
    && (forall j :: 0 <= j < |ds| ==> Confirms(initial, es, ds[j], s.direct[j]))
    && (forall j :: 0 <= j < |rs| ==> Replays(initial, es, rs[j], s.replays[j]))
  }

  /** How a single effect changes what counts as acknowledged. */
  lemma AcknowledgingStep(s: State, e: Effect)
    requires Step(s, e).Next?
    ensures var t := Step(s, e).s;
            && t.direct == (if e.BrokerAcks? && s.phase.Offering? then s.direct + [s.phase.m] else s.direct)
            && t.replays == (if e.BrokerAcks? && s.phase.Replaying? then s.replays + [s.removed + s.phase.sent]
                             else s.replays)
  {
    hide Take, Drop;
  }

  lemma {:induction false} WrittenLater(initial: seq<Message>, es: seq<Effect>, n: nat, s: State,
                                        ds: seq<nat>, rs: seq<nat>)
    requires n <= |es| && LogsWritten(initial, es[..n], s, ds, rs)
    ensures LogsWritten(initial, es, s, ds, rs)
  {
    hide Execute;
    assert forall k :: 0 <= k < n ==> es[..n][..k] == es[..k] && es[..n][k] == es[k];
    forall j | 0 <= j < |ds| ensures Confirms(initial, es, ds[j], s.direct[j]) {
      assert Confirms(initial, es[..n], ds[j], s.direct[j]);
    }
    forall j | 0 <= j < |rs| ensures Replays(initial, es, rs[j], s.replays[j]) {
      assert Replays(initial, es[..n], rs[j], s.replays[j]);
    }
  }

  lemma {:induction false} WrittenOn(initial: seq<Message>, es: seq<Effect>, s: State, t: State,
                                     ds: seq<nat>, rs: seq<nat>)
    requires |es| > 0 && LogsWritten(initial, es[..|es| - 1], s, ds, rs)
    requires var n := |es| - 1;
             && (if DirectAck(initial, es, n) then t.direct == s.direct + [Execute(Start(initial), es[..n]).s.phase.m]
                 else t.direct == s.direct)
             && (if ReplayAck(initial, es, n)
                 then var u := Execute(Start(initial), es[..n]).s;
                      t.replays == s.replays + [u.removed + u.phase.sent]
                 else t.replays == s.replays)
    ensures var n := |es| - 1;
            LogsWritten(initial, es, t, ds + if DirectAck(initial, es, n) then [n] else [],
                        rs + if ReplayAck(initial, es, n) then [n] else [])
  {
    WrittenLater(initial, es, |es| - 1, s, ds, rs);
    hide Execute;
  }

  lemma {:induction false} RunWrites(initial: seq<Message>, es: seq<Effect>)
    requires Execute(Start(initial), es).Next?
    ensures LogsWritten(initial, es, Execute(Start(initial), es).s, DirectAt(initial, es), ReplayAt(initial, es))
  {
    hide LogsWritten, Step;
    if |es| == 0 {
      NothingWritten(initial, es);
    } else {
      var n := |es| - 1;
      var s, t := Execute(Start(initial), es[..n]).s, Execute(Start(initial), es).s;
      RunWrites(initial, es[..n]);
      AcknowledgingStep(s, es[n]);
      WrittenOn(initial, es, s, t, DirectAt(initial, es[..n]), ReplayAt(initial, es[..n]));
    }
  }

  lemma NothingWritten(initial: seq<Message>, es: seq<Effect>)
    requires |es| == 0
    ensures LogsWritten(initial, es, Start(initial), [], [])
  {}

  /** Calls for whose messages on_publish ran, no two of them the same. */
  ghost predicate OwnCalls(calls: seq<nat>, ds: seq<nat>, rs: seq<nat>, fired: set<nat>)
    requires Rising(ds, |calls|) && Rising(rs, |calls|)
  {
    && (forall j :: 0 <= j < |ds| ==> calls[ds[j]] in fired)
    && (forall j :: 0 <= j < |rs| ==> calls[rs[j]] in fired)
    && (forall i, j :: 0 <= i < j < |ds| ==> calls[ds[i]] != calls[ds[j]])
    && (forall i, j :: 0 <= i < j < |rs| ==> calls[rs[i]] != calls[rs[j]])
    && (forall i, j :: 0 <= i < |ds| && 0 <= j < |rs| ==> calls[ds[i]] != calls[rs[j]])
  }

  lemma {:induction false} AnsweredFired(initial: seq<Message>, es: seq<Effect>, calls: seq<nat>,
                                         results: map<nat, bool>, fired: set<nat>, s: State,
                                         ds: seq<nat>, rs: seq<nat>)
    requires Answered(initial, es, calls, results) && LogsWritten(initial, es, s, ds, rs)
    requires forall n :: n in results && results[n] ==> n in fired
    ensures OwnCalls(calls, ds, rs, fired)
  {
    forall j | 0 <= j < |ds| ensures Asks(initial, es, ds[j]) && calls[ds[j]] in fired {
      assert Confirms(initial, es, ds[j], s.direct[j]);
    }
    forall j | 0 <= j < |rs| ensures Asks(initial, es, rs[j]) && calls[rs[j]] in fired {
      assert Replays(initial, es, rs[j], s.replays[j]);
    }
    forall i, j | 0 <= i < |ds| && 0 <= j < |rs| ensures calls[ds[i]] != calls[rs[j]] {
      assert Confirms(initial, es, ds[i], s.direct[i]) && Replays(initial, es, rs[j], s.replays[j]);
      assert ds[i] != rs[j];
    }
    hide Asks, Execute;
  }

  /** Every message counted as acknowledged, directly or by a replay, was acknowledged by a call of
      its own for whose message on_publish ran: the entries of both logs belong, one to one, to
      different calls in fired. */
  lemma {:induction false} AcknowledgedMeansFired(initial: seq<Message>, es: seq<Effect>, calls: seq<nat>,
                                                  steps: seq<Handshake.Effect>)
    requires Execute(Start(initial), es).Next? && Handshake.Execute(steps).Next?
    requires Answered(initial, es, calls, Handshake.Execute(steps).s.results)
    ensures var s, ds, rs := Execute(Start(initial), es).s, DirectAt(initial, es), ReplayAt(initial, es);
            LogsWritten(initial, es, s, ds, rs) && OwnCalls(calls, ds, rs, Handshake.Execute(steps).s.fired)
  {
    var s, ds, rs := Execute(Start(initial), es).s, DirectAt(initial, es), ReplayAt(initial, es);
    PositionsRise(initial, es);
    RunWrites(initial, es);
    hide Execute, Handshake.Execute, DirectAt, ReplayAt, Rising;
    var t := Handshake.Execute(steps).s;
    forall n | n in t.results && t.results[n] ensures n in t.fired {
      Handshake.AcknowledgementSound(steps, n);
    }
    AnsweredFired(initial, es, calls, t.results, t.fired, s, ds, rs);
  }
}
