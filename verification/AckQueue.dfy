/** The client's queue of sent messages that wait for the server's answer. Answers are matched in the
    order of sending; anything else empties the whole queue. The queue is a CQueue used with one priority,
    which Queue.SinglePriorityIsFifo shows to be first in, first out. */
module AckQueue {

  datatype ImType = Other | Chat | KeepAlive

  datatype Pending = Pending(id: string, sendtime: int)

  /** What became of a tracked message. Acked, Cleared and TimedOut reach the application's callback;
      Matched (an answered keepalive) and Dropped (the queue was emptied by CSocketInfo::clear) do not. */
  datatype Outcome =
    | Acked(id: string)
    | Matched(id: string)
    | Cleared(id: string)
    | TimedOut(id: string)
    | Dropped(id: string)

  datatype Kind = WorkClear | SendError | SendClosed | RecvClosed | Connected | SocketTimeout

  /** What happens to the queue. The id of KeepAliveArrives is the one that the constructor of CIm creates for the
      received message: an answer to a keepalive is parsed without reading an id from it. */
  datatype Event =
    | Sent(imtype: ImType, id: string, now: int)
    | AckArrives(id: string, islanchat: bool)
    | KeepAliveArrives(id: string)
    | Trouble(kind: Kind)
    | CheckTimeout(now: int, timeout: int)
    | Reset

  type Outcomes = seq<Outcome>

  function Tracked(t: ImType): bool {
    t == Chat || t == KeepAlive
  }

  function AllCleared(q: seq<Pending>): Outcomes {
    seq(|q|, i requires 0 <= i < |q| => Cleared(q[i].id))
  }

  function AllTimedOut(q: seq<Pending>): Outcomes {
    seq(|q|, i requires 0 <= i < |q| => TimedOut(q[i].id))
  }

  function AllDropped(q: seq<Pending>): Outcomes {
    seq(|q|, i requires 0 <= i < |q| => Dropped(q[i].id))
  }

  /** ClearQueue: pop the head; another id clears it and everything behind it, and resets the socket. */
  function Answer(q: seq<Pending>, id: string, how: Outcome): (seq<Pending>, Outcomes) {
    if q == [] then ([], [])
    else if q[0].id == id then (q[1..], [how])
    else ([], AllCleared(q))
  }

  function Step(q: seq<Pending>, e: Event): (seq<Pending>, Outcomes) {
    match e
    case Sent(imtype, id, now) => (if Tracked(imtype) then q + [Pending(id, now)] else q, [])
    case AckArrives(id, islanchat) => if islanchat then (q, []) else Answer(q, id, Acked(id))
    case KeepAliveArrives(id) => Answer(q, id, Matched(id))
    case Trouble(kind) => ([], if kind == SocketTimeout then AllTimedOut(q) else AllCleared(q))
    case CheckTimeout(now, timeout) =>
      if q != [] && now - q[0].sendtime > timeout then ([], AllTimedOut(q)) else (q, [])
    case Reset => ([], AllDropped(q))
  }

  /** What the application is told; a socket event is itself reported after the messages it emptied. */
  datatype Callback = OnAck(id: string) | OnClear(id: string) | OnTimeout(id: string) | OnEvent(kind: Kind)

  function Told(out: Outcomes): seq<Callback> {
    if out == [] then []
    else
      var o := out[|out| - 1];
      Told(out[..|out| - 1])
      + (match o case Acked(id) => [OnAck(id)] case Cleared(id) => [OnClear(id)] case TimedOut(id) => [OnTimeout(id)]
         case Matched(_) => [] case Dropped(_) => [])
  }

  lemma ToldOne(o: Outcome)
    ensures Told([o]) == match o case Acked(id) => [OnAck(id)] case Cleared(id) => [OnClear(id)]
                                 case TimedOut(id) => [OnTimeout(id)] case Matched(_) => [] case Dropped(_) => []
  {
    assert [o][..0] == [];
  }

  lemma {:induction false} DroppedSilently(q: seq<Pending>)
    ensures Told(AllDropped(q)) == []
  {
    if q != [] {
      var n := |q| - 1;
      DroppedSilently(q[..n]);
      assert AllDropped(q) == AllDropped(q[..n]) + [Dropped(q[n].id)];
      ToldOne(Dropped(q[n].id));
    }
  }

  lemma OneMoreTold(q: seq<Pending>, n: nat)
    requires n < |q|
    ensures Told(AllCleared(q[..n + 1])) == Told(AllCleared(q[..n])) + [OnClear(q[n].id)]
    ensures Told(AllTimedOut(q[..n + 1])) == Told(AllTimedOut(q[..n])) + [OnTimeout(q[n].id)]
  {
    ToldOne(Cleared(q[n].id));
    ToldOne(TimedOut(q[n].id));
    hide Told;
    assert AllCleared(q[..n + 1]) == AllCleared(q[..n]) + [Cleared(q[n].id)];
    assert AllTimedOut(q[..n + 1]) == AllTimedOut(q[..n]) + [TimedOut(q[n].id)];
  }

  lemma NobodyTold()
    ensures Told([]) == []
  {
  }

  lemma NoneCleared(q: seq<Pending>)
    ensures AllCleared(q[..0]) == [] && AllTimedOut(q[..0]) == []
  {
  }

  // ---- the module ----

  class CImModule {
    var ackqueue: seq<Pending>

    constructor ()
      ensures ackqueue == []
    {
      ackqueue := [];
    }

    /** Pops the head, or says that there is none. */
    method Pop() returns (some: bool, ackmsg: Pending)
      modifies this
      ensures some <==> old(ackqueue) != []
      ensures some ==> ackmsg == old(ackqueue)[0] && ackqueue == old(ackqueue)[1..]
      ensures !some ==> ackqueue == []
    {
      some, ackmsg := ackqueue != [], Pending("", 0);
      if some {
        ackmsg, ackqueue := ackqueue[0], ackqueue[1..];
      }
    }

    /** CSocketInfo::clear: the queue is emptied, and nobody is told. */
    method Clear()
      modifies this
      ensures (ackqueue, AllDropped(old(ackqueue))) == Step(old(ackqueue), Reset)
      ensures Told(Step(old(ackqueue), Reset).1) == []
    {
      DroppedSilently(ackqueue);
      var some, ackmsg := Pop();
      while some
        invariant !some ==> ackqueue == []
        decreases |ackqueue|, some
      {
        some, ackmsg := Pop();
      }
    }

    method AfterSend(imtype: ImType, id: string, now: int)
      modifies this
      ensures (ackqueue, []) == Step(old(ackqueue), Sent(imtype, id, now))
    {
      if imtype == Chat || imtype == KeepAlive {
        ackqueue := ackqueue + [Pending(id, now)];
      }
    }

    /** True when the answer is used up or unusable, false when it is the head's. */
    method ClearQueue(id: string, how: Outcome) returns (done: bool, calls: seq<Callback>)
      requires how.id == id && (how.Acked? || how.Matched?)
      modifies this
      ensures
        var (q, out) := Answer(old(ackqueue), id, how);
        && ackqueue == q
        && (!done <==> old(ackqueue) != [] && old(ackqueue)[0].id == id)
        && calls == if done then Told(out) else []
    {
      ghost var q := ackqueue;
      calls := [];
      var key, ackmsg := Pop();
      if !key {
        done := true;
      } else if ackmsg.id != id {
        var more := true;
        ghost var n := 0;
        while more
          invariant more ==> 0 <= n < |q| && ackmsg == q[n] && ackqueue == q[n + 1..]
          invariant !more ==> n == |q| && ackqueue == []
          invariant calls == Told(AllCleared(q[..n]))
          decreases |q| - n, more
        {
          OneMoreTold(q, n);
          calls := calls + [OnClear(ackmsg.id)];
          n := n + 1;
          more, ackmsg := Pop();
        }
        assert q[..n] == q;
        Clear();
        done := true;
      } else {
        done := false;
      }
    }

    method OnAck(id: string, islanchat: bool) returns (calls: seq<Callback>)
      modifies this
      ensures ackqueue == Step(old(ackqueue), AckArrives(id, islanchat)).0
      ensures calls == if islanchat then [Callback.OnAck(id)] else Told(Step(old(ackqueue), AckArrives(id, false)).1)
    {
      calls := [];
      if !islanchat {
        var done;
        done, calls := ClearQueue(id, Acked(id));
        if done {
          return;
        }
        ToldOne(Acked(id));
      }
      calls := calls + [Callback.OnAck(id)];
    }

    method OnKeepAlive(id: string) returns (calls: seq<Callback>)
      modifies this
      ensures (ackqueue, calls) ==
        (Step(old(ackqueue), KeepAliveArrives(id)).0, Told(Step(old(ackqueue), KeepAliveArrives(id)).1))
    {
      var done;
      done, calls := ClearQueue(id, Matched(id));
      ToldOne(Matched(id));
    }

    /** A socket event empties the queue with a callback for every message. */
    method OnTrouble(kind: Kind) returns (calls: seq<Callback>)
      modifies this
      ensures ackqueue == Step(old(ackqueue), Trouble(kind)).0
      ensures calls == Told(Step(old(ackqueue), Trouble(kind)).1) + [OnEvent(kind)]
    {
      hide Told, AllCleared, AllTimedOut;
      ghost var q := ackqueue;
      calls := [];
      NobodyTold();
      NoneCleared(q);
      var more, ackmsg := Pop();
      ghost var n := 0;
      while more
        invariant more ==> 0 <= n < |q| && ackmsg == q[n] && ackqueue == q[n + 1..]
        invariant !more ==> n == |q| && ackqueue == []
        invariant calls == Told(if kind == SocketTimeout then AllTimedOut(q[..n]) else AllCleared(q[..n]))
        decreases |q| - n, more
      {
        OneMoreTold(q, n);
        calls := calls + [if kind == SocketTimeout then OnTimeout(ackmsg.id) else OnClear(ackmsg.id)];
        n := n + 1;
        more, ackmsg := Pop();
      }
      assert q[..n] == q;
      calls := calls + [OnEvent(kind)];
    }

    /** The receive thread's look at the oldest message. */
    method Timeout(now: int, timeout: int) returns (calls: seq<Callback>)
      modifies this
      ensures ackqueue == Step(old(ackqueue), CheckTimeout(now, timeout)).0
      ensures
        var out := Step(old(ackqueue), CheckTimeout(now, timeout)).1;
        calls == Told(out) + (if out == [] then [] else [OnEvent(SocketTimeout)])
    {
      NobodyTold();
      calls := [];
      if ackqueue != [] && now - ackqueue[0].sendtime > timeout {
        calls := OnTrouble(SocketTimeout);
        Clear();
      }
    }
  }

  // ---- whole runs ----

  function RunAll(events: seq<Event>): (seq<Pending>, Outcomes) {
    if events == [] then ([], [])
    else
      var (q, out) := RunAll(events[..|events| - 1]);
      var (q', more) := Step(q, events[|events| - 1]);
      (q', out + more)
  }

  /** The ids of the tracked messages, in the order of sending. */
  function SentIds(events: seq<Event>): seq<string> {
    if events == [] then []
    else
      var e := events[|events| - 1];
      SentIds(events[..|events| - 1]) + (if e.Sent? && Tracked(e.imtype) then [e.id] else [])
  }

  function OutcomeIds(out: Outcomes): seq<string> {
    seq(|out|, i requires 0 <= i < |out| => out[i].id)
  }

  function Ids(q: seq<Pending>): seq<string> {
    seq(|q|, i requires 0 <= i < |q| => q[i].id)
  }

  lemma StepConserves(q: seq<Pending>, e: Event)
    ensures
      var (q', out) := Step(q, e);
      OutcomeIds(out) + Ids(q') == Ids(q) + (if e.Sent? && Tracked(e.imtype) then [e.id] else [])
  {
  }

  lemma OutcomeIdsSplit(a: Outcomes, b: Outcomes)
    ensures OutcomeIds(a + b) == OutcomeIds(a) + OutcomeIds(b)
  {
  }

  lemma RunStep(events: seq<Event>)
    requires events != []
    ensures
      var n := |events| - 1;
      var (q, out) := RunAll(events[..n]);
      RunAll(events).0 == Step(q, events[n]).0 && RunAll(events).1 == out + Step(q, events[n]).1
  {
    hide Step;
  }

  /** In every run the tracked ids are, in the order of sending, those that were given one outcome and then
      those still waiting: nothing is lost, answered twice or overtaken. */
  lemma {:induction false} EveryIdOneOutcome(events: seq<Event>)
    ensures SentIds(events) == OutcomeIds(RunAll(events).1) + Ids(RunAll(events).0)
  {
    if events != [] {
      hide Step, Ids, OutcomeIds, RunAll;
      var n := |events| - 1;
      EveryIdOneOutcome(events[..n]);
      var (q, out) := RunAll(events[..n]);
      RunStep(events);
      StepConserves(q, events[n]);
      var (q1, more) := Step(q, events[n]);
      OutcomeIdsSplit(out, more);
      Regroup(OutcomeIds(out), Ids(q), if events[n].Sent? && Tracked(events[n].imtype) then [events[n].id] else [],
              OutcomeIds(more), Ids(q1));
    }
  }

  lemma Regroup(a: seq<string>, b: seq<string>, x: seq<string>, c: seq<string>, d: seq<string>)
    requires c + d == b + x
    ensures (a + b) + x == (a + c) + d
  {
    assert (a + b) + x == a + (c + d);
  }

  /** An acknowledgement reaches the application exactly when it is for the message at the head. Any other id
      clears everything, and is itself never reported. */
  lemma AckIsForHead(q: seq<Pending>, id: string)
    ensures
      var (q', out) := Step(q, AckArrives(id, false));
      && (OnAck(id) in Told(out) <==> q != [] && q[0].id == id)
      && (q != [] && q[0].id != id ==> q' == [] && out == AllCleared(q))
  {
    if q != [] && q[0].id != id {
      NoAckTold(AllCleared(q));
    } else if q != [] {
      ToldOne(Acked(id));
    }
  }

  lemma {:induction false} NoAckTold(out: Outcomes)
    requires forall o | o in out :: !o.Acked?
    ensures forall c | c in Told(out) :: !c.OnAck?
  {
    if out != [] {
      NoAckTold(out[..|out| - 1]);
    }
  }

  function AcksOf(ids: seq<string>): seq<Event> {
    seq(|ids|, i requires 0 <= i < |ids| => AckArrives(ids[i], false))
  }

  function AllAcked(ids: seq<string>): Outcomes {
    seq(|ids|, i requires 0 <= i < |ids| => Acked(ids[i]))
  }

  function StepAll(q: seq<Pending>, events: seq<Event>): (seq<Pending>, Outcomes)
    decreases |events|
  {
    if events == [] then (q, [])
    else
      var (q1, out1) := Step(q, events[0]);
      var (q2, out2) := StepAll(q1, events[1..]);
      (q2, out1 + out2)
  }

  /** A series of acknowledgements is reported message by message exactly when it comes in the order of
      sending, without a gap. */
  lemma {:induction false} OnlyOrderedAcksCount(q: seq<Pending>, ids: seq<string>)
    ensures StepAll(q, AcksOf(ids)).1 == AllAcked(ids) <==> ids <= Ids(q)
    decreases |ids|
  {
    if ids == [] {
      assert AcksOf(ids) == [];
    } else {
      var e := AcksOf(ids)[0];
      assert AcksOf(ids)[1..] == AcksOf(ids[1..]);
      var (q1, out1) := Step(q, e);
      OnlyOrderedAcksCount(q1, ids[1..]);
      var rest := StepAll(q1, AcksOf(ids[1..])).1;
      if q != [] && q[0].id == ids[0] {
        assert Ids(q)[1..] == Ids(q[1..]);
        assert ids == [ids[0]] + ids[1..] && AllAcked(ids) == [Acked(ids[0])] + AllAcked(ids[1..]);
        assert Ids(q) == [ids[0]] + Ids(q[1..]);
        assert (out1 + rest)[1..] == rest && AllAcked(ids)[1..] == AllAcked(ids[1..]);
      } else {
        hide StepAll;
        if q == [] {
          EmptyAnswersNothing(ids);
        } else {
          assert (out1 + rest)[0] == Cleared(q[0].id);
          assert !(ids <= Ids(q)) by { assert Ids(q)[0] == q[0].id; }
        }
      }
    }
  }

  lemma {:induction false} EmptyAnswersNothing(ids: seq<string>)
    ensures StepAll([], AcksOf(ids)) == ([], [])
  {
    if ids == [] {
      assert AcksOf(ids) == [];
    } else {
      assert AcksOf(ids)[1..] == AcksOf(ids[1..]);
      var (q1, out1) := Step([], AcksOf(ids)[0]);
      assert q1 == [] && out1 == [];
      EmptyAnswersNothing(ids[1..]);
      assert out1 + out1 == [];
    }
  }

  /** An answer to a keepalive leaves the queue alone exactly when nothing waits; otherwise it clears everything,
      a tracked keepalive at the head included. */
  lemma KeepAliveAnswerClears(q: seq<Pending>, id: string)
    requires id !in Ids(q)
    ensures Step(q, KeepAliveArrives(id)) == ([], AllCleared(q))
    ensures Step(q, KeepAliveArrives(id)).0 == q <==> q == []
  {
    if q != [] {
      assert Ids(q)[0] == q[0].id;
    } else {
      assert AllCleared(q) == [];
    }
  }

  /** The id created for a received keepalive is that of no message sent. */
  ghost predicate FreshKeepAlives(events: seq<Event>) {
    forall i | 0 <= i < |events| && events[i].KeepAliveArrives? :: events[i].id !in SentIds(events)
  }

  lemma {:induction false} SentBefore(events: seq<Event>, n: nat)
    requires n <= |events|
    ensures forall id | id in SentIds(events[..n]) :: id in SentIds(events)
    decreases |events|
  {
    if n < |events| {
      assert events[..|events| - 1][..n] == events[..n];
      SentBefore(events[..|events| - 1], n);
    } else {
      assert events[..n] == events;
    }
  }

  lemma WaitingWasSent(events: seq<Event>, id: string)
    requires id in Ids(RunAll(events).0)
    ensures id in SentIds(events)
  {
    EveryIdOneOutcome(events);
  }

  /** In every run, every answer to a keepalive clears all that waits at that moment. */
  lemma EveryKeepAliveClears(events: seq<Event>, i: nat)
    requires FreshKeepAlives(events) && i < |events| && events[i].KeepAliveArrives?
    ensures
      var q := RunAll(events[..i]).0;
      && RunAll(events[..i + 1]) == ([], RunAll(events[..i]).1 + AllCleared(q))
      && (RunAll(events[..i + 1]).0 == q <==> q == [])
  {
    hide Step, RunAll, Ids, SentIds, AllCleared;
    var q := RunAll(events[..i]).0;
    if events[i].id in Ids(q) {
      WaitingWasSent(events[..i], events[i].id);
      SentBefore(events, i);
    }
    KeepAliveAnswerClears(q, events[i].id);
    assert events[..i + 1][..i] == events[..i];
    RunStep(events[..i + 1]);
  }

  /** So no keepalive is ever matched. */
  lemma {:induction false} NeverMatched(events: seq<Event>)
    requires FreshKeepAlives(events)
    ensures forall o | o in RunAll(events).1 :: !o.Matched?
  {
    if events != [] {
      var n := |events| - 1;
      SentBefore(events, n);
      assert FreshKeepAlives(events[..n]) by { hide SentIds; }
      NeverMatched(events[..n]);
      RunStep(events);
      assert events[..n + 1] == events;
      if events[n].KeepAliveArrives? {
        EveryKeepAliveClears(events, n);
      }
    }
  }

  // ---- what each event does, place by place ----

  /** Every waiting message is told the same way, in the order of sending. */
  ghost predicate ToldEach(calls: seq<Callback>, q: seq<Pending>, timedout: bool) {
    && |calls| == |q|
    && forall i | 0 <= i < |q| :: calls[i] == if timedout then OnTimeout(q[i].id) else OnClear(q[i].id)
  }

  /** The queue after an event, and the callbacks of the messages that waited. */
  ghost predicate Handled(q: seq<Pending>, e: Event, after: seq<Pending>, calls: seq<Callback>) {
    match e
    case Sent(imtype, id, now) => after == (if imtype.Other? then q else q + [Pending(id, now)]) && calls == []
    case AckArrives(id, islanchat) =>
      if islanchat || q == [] then after == q && calls == []
      else if q[0].id == id then after == q[1..] && calls == [OnAck(id)]
      else after == [] && ToldEach(calls, q, false)
    case KeepAliveArrives(id) =>
      if q == [] || q[0].id == id then after == (if q == [] then [] else q[1..]) && calls == []
      else after == [] && ToldEach(calls, q, false)
    case Trouble(kind) => after == [] && ToldEach(calls, q, kind.SocketTimeout?)
    case CheckTimeout(now, timeout) =>
      if q != [] && q[0].sendtime + timeout < now then after == [] && ToldEach(calls, q, true)
      else after == q && calls == []
    case Reset => after == [] && calls == []
  }

  lemma {:induction false} EachTold(q: seq<Pending>)
    ensures ToldEach(Told(AllCleared(q)), q, false) && ToldEach(Told(AllTimedOut(q)), q, true)
  {
    if q == [] {
      NobodyTold();
      NoneCleared(q);
      assert q[..0] == q;
    } else {
      var n := |q| - 1;
      EachTold(q[..n]);
      OneMoreTold(q, n);
      assert q[..n + 1] == q;
      hide Told, AllCleared, AllTimedOut;
      ToldOneMore(Told(AllCleared(q[..n])), q, false);
      ToldOneMore(Told(AllTimedOut(q[..n])), q, true);
    }
  }

  lemma ToldOneMore(calls: seq<Callback>, q: seq<Pending>, timedout: bool)
    requires q != [] && ToldEach(calls, q[..|q| - 1], timedout)
    ensures ToldEach(calls + [if timedout then OnTimeout(q[|q| - 1].id) else OnClear(q[|q| - 1].id)], q, timedout)
  {
  }

  /** Every event is handled so, whatever waits. */
  lemma EveryEventHandled(q: seq<Pending>, e: Event)
    ensures Handled(q, e, Step(q, e).0, Told(Step(q, e).1))
  {
    EachTold(q);
    DroppedSilently(q);
    NobodyTold();
    if e.AckArrives? {
      ToldOne(Acked(e.id));
    } else if e.KeepAliveArrives? {
      ToldOne(Matched(e.id));
    }
    hide Told, AllCleared, AllTimedOut, AllDropped, ToldEach;
  }

  /** A LAN acknowledgement leaves queue and outcomes of every run alone. */
  lemma LanAckChangesNothing(events: seq<Event>, id: string)
    ensures RunAll(events + [AckArrives(id, true)]).0 == RunAll(events).0
    ensures RunAll(events + [AckArrives(id, true)]).1 == RunAll(events).1
  {
    var e := AckArrives(id, true);
    assert (events + [e])[..|events|] == events;
    RunStep(events + [e]);
    hide RunAll;
  }

  /** The clock never goes back between sends. */
  ghost predicate Chronological(events: seq<Event>) {
    forall i, j | 0 <= i < j < |events| && events[i].Sent? && events[j].Sent? :: events[i].now <= events[j].now
  }

  ghost predicate OldestFirst(q: seq<Pending>) {
    forall i, j | 0 <= i < j < |q| :: q[i].sendtime <= q[j].sendtime
  }

  ghost predicate NoneAfter(q: seq<Pending>, bound: int) {
    forall i | 0 <= i < |q| :: q[i].sendtime <= bound
  }

  lemma {:induction false} WaitsOldestFirst(events: seq<Event>, bound: int)
    requires Chronological(events) && forall i | 0 <= i < |events| && events[i].Sent? :: events[i].now <= bound
    ensures OldestFirst(RunAll(events).0) && NoneAfter(RunAll(events).0, bound)
  {
    if events != [] {
      var n := |events| - 1;
      WaitsOldestFirst(events[..n], bound);
      if events[n].Sent? {
        WaitsOldestFirst(events[..n], events[n].now);
      }
      RunStep(events);
      hide RunAll, OldestFirst, NoneAfter, Step;
    }
  }

  lemma {:induction false} LastSend(events: seq<Event>) returns (bound: int)
    ensures forall i | 0 <= i < |events| && events[i].Sent? :: events[i].now <= bound
  {
    bound := 0;
    if events != [] {
      bound := LastSend(events[..|events| - 1]);
      var e := events[|events| - 1];
      if e.Sent? && e.now > bound {
        bound := e.now;
      }
    }
  }

  /** So in every run the look at the head finds out whether anything has waited too long: then everything that waits
      is reported, and otherwise nothing changes. */
  lemma TimesOutIff(events: seq<Event>, now: int, timeout: int)
    requires Chronological(events)
    ensures
      var q := RunAll(events).0;
      var (after, out) := Step(q, CheckTimeout(now, timeout));
      if exists p :: p in q && TooLong(p, now, timeout)
      then after == [] && ToldEach(Told(out), q, true)
      else after == q && out == []
  {
    var q := RunAll(events).0;
    var bound := LastSend(events);
    WaitsOldestFirst(events, bound);
    EachTold(q);
    HeadIsOldest(q, now, timeout);
    hide RunAll, Told, AllTimedOut, ToldEach, Chronological, NoneAfter, OldestFirst, TooLong;
  }

  predicate TooLong(p: Pending, now: int, timeout: int) {
    now - p.sendtime > timeout
  }

  lemma HeadIsOldest(q: seq<Pending>, now: int, timeout: int)
    requires OldestFirst(q)
    ensures (exists p :: p in q && TooLong(p, now, timeout)) <==> q != [] && now - q[0].sendtime > timeout
  {
    if p :| p in q && TooLong(p, now, timeout) {
      var i :| 0 <= i < |q| && q[i] == p;
      assert i > 0 ==> q[0].sendtime <= q[i].sendtime;
    }
    if q != [] && now - q[0].sendtime > timeout {
      assert q[0] in q && TooLong(q[0], now, timeout);
    }
  }
}
