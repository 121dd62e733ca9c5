/** The asynchronous logger: any thread pushes lines, one consumer peeks the oldest line, prints
    it, and only then pops it. */
module Logger {
  import opened Queue

  type Line = string

  /** Where the consumer loop stands between its three queue operations. */
  datatype Phase = Idle | Peeked(line: Line) | Printed(line: Line)

  datatype State = State(queue: Levels<Line>, phase: Phase, written: seq<Line>, freed: seq<Line>)

  /** A step of a producer, or one of the consumer's three steps. `isopen` says whether the log
      file could be opened. */
  datatype Step = DoLog(line: Line) | Peek | Print(isopen: bool) | Pop

  ghost function Next(s: State, step: Step): State {
    match step
    case DoLog(line) => s.(queue := Put(s.queue, line, 0, true))
    case Peek =>
      if s.phase.Idle? && !AllEmpty(s.queue) then
        s.(phase := Peeked(s.queue[TopKey(s.queue)][0]))
      else s
    case Print(isopen) =>
      if !s.phase.Peeked? then s
      else if isopen then s.(phase := Printed(s.phase.line), written := s.written + [s.phase.line])
      else s.(phase := Idle)
    case Pop =>
      if !s.phase.Printed? then s
      else
        var (q, out) := Apply(s.queue, PopOp);
        s.(queue := q, phase := Idle, freed := s.freed + out)
  }

  ghost function Run(s: State, steps: seq<Step>): State
    decreases |steps|
  {
    if steps == [] then s else Run(Next(s, steps[0]), steps[1..])
  }

  function Lines(steps: seq<Step>): seq<Line> {
    if steps == [] then []
    else (if steps[0].DoLog? then [steps[0].line] else []) + Lines(steps[1..])
  }

  const START: State := State(map[], Idle, [], [])

  /** Only priority 0 is used, and a line the consumer holds is still the front of the queue. */
  ghost predicate Inv(s: State) {
    && (forall k | k in s.queue && k != 0 :: s.queue[k] == [])
    && (!s.phase.Idle? ==> At(s.queue, 0) != [] && At(s.queue, 0)[0] == s.phase.line)
    && s.written == s.freed + (if s.phase.Printed? then [s.phase.line] else [])
  }

  /** Lines that are still to be printed: a printed line stays queued until the consumer pops it. */
  ghost function Waiting(s: State): seq<Line>
    requires Inv(s)
  {
    if s.phase.Printed? then At(s.queue, 0)[1..] else At(s.queue, 0)
  }

  ghost function Accounted(s: State): seq<Line>
    requires Inv(s)
  {
    s.written + Waiting(s)
  }

  lemma NextKeeps(s: State, step: Step)
    requires Inv(s)
    ensures Inv(Next(s, step))
    ensures Accounted(Next(s, step)) == Accounted(s) + Lines([step])
  {
    assert Lines([step]) == if step.DoLog? then [step.line] else [] by { assert [step][1..] == []; }
    match step {
      case DoLog(line) =>
        ApplyIsFifo(s.queue, PushOp(line, 0, true), 0);
        assert s.written + Waiting(Next(s, step)) == s.written + Waiting(s) + [line];
      case Peek =>
        if s.phase.Idle? && !AllEmpty(s.queue) { assert TopKey(s.queue) == 0; }
      case Print(isopen) =>
        if s.phase.Peeked? && isopen {
          assert At(s.queue, 0) == [s.phase.line] + At(s.queue, 0)[1..];
        }
      case Pop =>
        if s.phase.Printed? {
          assert !AllEmpty(s.queue) && TopKey(s.queue) == 0;
        }
    }
  }

  /** Exactly once, in order, under any interleaving: the lines written followed by the lines still
      waiting are the lines logged. A line is freed only after it was written, and the element popped
      is the one that was peeked; a failed open loses nothing. */
  lemma {:induction false} ExactlyOnce(s: State, steps: seq<Step>)
    requires Inv(s)
    ensures Inv(Run(s, steps))
    ensures Accounted(Run(s, steps)) == Accounted(s) + Lines(steps)
    decreases |steps|
  {
    hide Next, Inv, Accounted;
    if steps == [] {
      assert Accounted(s) + [] == Accounted(s);
    } else {
      NextKeeps(s, steps[0]);
      ExactlyOnce(Next(s, steps[0]), steps[1..]);
      LinesFirst(steps);
      Assoc(Accounted(s), Lines([steps[0]]), Lines(steps[1..]));
    }
  }

  lemma LinesFirst(steps: seq<Step>)
    requires steps != []
    ensures Lines(steps) == Lines([steps[0]]) + Lines(steps[1..])
  {
    assert [steps[0]][1..] == [];
  }

  lemma Assoc(a: seq<Line>, b: seq<Line>, c: seq<Line>)
    ensures (a + b) + c == a + (b + c)
  {
  }

  /** From an empty logger: whatever was logged is written or waiting, nothing else is, and freed
      lines are exactly the written ones that are no longer being held. */
  lemma LoggedIsWrittenOrWaiting(steps: seq<Step>)
    ensures Inv(Run(START, steps))
    ensures Run(START, steps).written + Waiting(Run(START, steps)) == Lines(steps)
    ensures Run(START, steps).phase.Idle? ==> Run(START, steps).freed == Run(START, steps).written
  {
    hide Next, Run;
    ExactlyOnce(START, steps);
  }

  /** Popping after printing is only right because every push goes to the back of priority 0: had a
      line of a higher priority arrived between peek and pop, it would be freed unprinted. */
  lemma HigherPriorityWouldBeLost()
    ensures
      var q := Put(map[], "old", 0, true);
      var q' := Put(q, "new", 1, true);
      !AllEmpty(q) && q[TopKey(q)][0] == "old" && Apply(q', PopOp).1 == ["new"]
  {
    var q := Put(map[], "old", 0, true);
    assert q[0] == ["old"];
    assert TopKey(q) == 0;
    var q' := Put(q, "new", 1, true);
    assert q'[1] == ["new"];
    assert TopKey(q') == 1;
  }

  /** One round of the consumer with a line waiting: when the file opens, the oldest line is written, taken off the
      queue and freed; when it does not, nothing has changed, and the line is there for the next round. */
  lemma RoundPrintsTheOldest(s: State, isopen: bool)
    requires Inv(s) && s.phase.Idle? && At(s.queue, 0) != []
    ensures
      var q, t := At(s.queue, 0), Next(Next(Next(s, Peek), Print(isopen)), Pop);
      && t.phase.Idle?
      && (isopen ==> t.written == s.written + [q[0]] && At(t.queue, 0) == q[1..] && t.freed == s.freed + [q[0]])
      && (!isopen ==> t == s)
  {
    assert !AllEmpty(s.queue) && TopKey(s.queue) == 0;
  }

  /** With nothing to print a round does nothing. */
  lemma NothingToPrint(s: State, isopen: bool)
    requires Inv(s) && s.phase.Idle? && At(s.queue, 0) == []
    ensures Next(Next(Next(s, Peek), Print(isopen)), Pop) == s
  {
  }

  class CLogger {
    const logqueue: CQueue<Line>
    var written: seq<Line>

    constructor ()
      ensures fresh(logqueue) && Usable(logqueue.queuemap) && Flatten(logqueue.queuemap) == [] && written == []
    {
      logqueue := new CQueue<Line>();
      written := [];
    }

    /** The consumer loop run on its own for |opens| rounds; opens[i] says whether the log file of
        round i could be opened. Written lines followed by queued lines never change, and each round
        with a waiting line and an open file writes one more. */
    method PrintLog(opens: seq<bool>)
      requires Usable(logqueue.queuemap)
      modifies this, logqueue
      ensures Usable(logqueue.queuemap)
      ensures written + Flatten(logqueue.queuemap) == old(written + Flatten(logqueue.queuemap))
      ensures |written| - |old(written)| == Rounds(opens, |old(Flatten(logqueue.queuemap))|)
    {
      hide *;
      var line: Line := "";
      var i := 0;
      assert opens[0..] == opens;
      while i < |opens|
        invariant 0 <= i <= |opens| && Usable(logqueue.queuemap)
        invariant written + Flatten(logqueue.queuemap) == old(written + Flatten(logqueue.queuemap))
        invariant |written| - |old(written)| + Rounds(opens[i..], |Flatten(logqueue.queuemap)|)
               == Rounds(opens, |old(Flatten(logqueue.queuemap))|)
      {
        RoundsNext(opens, i, |Flatten(logqueue.queuemap)|);
        var key: int;
        ghost var before := Flatten(logqueue.queuemap);
        key, line := logqueue.Pop(line, false);
        if key >= 0 && opens[i] {
          written := written + [line];
          key, line := logqueue.Pop(line, true);
          assert before == [before[0]] + before[1..];
        }
        i := i + 1;
      }
      NoRounds(opens, |Flatten(logqueue.queuemap)|);
    }
  }

  lemma RoundsNext(opens: seq<bool>, i: nat, n: nat)
    requires i < |opens|
    ensures Rounds(opens[i..], n) ==
      if n == 0 then 0 else if opens[i] then 1 + Rounds(opens[i + 1..], n - 1) else Rounds(opens[i + 1..], n)
    ensures Rounds(opens[i + 1..], 0) == 0
  {
    assert opens[i..][1..] == opens[i + 1..];
  }

  lemma NoRounds(opens: seq<bool>, n: nat)
    ensures Rounds(opens[|opens|..], n) == 0
  {
  }

  /** As many as there are rounds whose file opens, but no more than there are lines. */
  lemma {:induction false} RoundsAre(opens: seq<bool>, n: nat)
    ensures Rounds(opens, n) == if multiset(opens)[true] <= n then multiset(opens)[true] else n
  {
    if opens != [] {
      assert opens == [opens[0]] + opens[1..];
      RoundsAre(opens[1..], n);
      if n > 0 {
        RoundsAre(opens[1..], n - 1);
      }
    }
  }

  /** How many of n waiting lines get printed when round i opens its file iff opens[i]. */
  function Rounds(opens: seq<bool>, n: nat): nat {
    if opens == [] || n == 0 then 0
    else if opens[0] then 1 + Rounds(opens[1..], n - 1)
    else Rounds(opens[1..], n)
  }
}
