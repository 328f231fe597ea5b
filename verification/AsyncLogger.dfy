/** The asynchronous audit writer as a concurrent protocol: any number of
    producers, one bounded channel, one worker and a stop signal. Each step is
    one atomic action of some goroutine; a run is any interleaving of steps. */
module AsyncLogger {
  import opened Prelude

  const DEFAULT_BUFFER: nat := 1024

  /** Where the worker is: in the main select, draining after stop, or gone. */
  datatype Pc = Serving | Draining | Exited

  /** `accepted`, `handed`, `decided` and `drops` are the history of the run:
      events the channel took, events passed to the inner logger, Log calls
      past their select, and completed increments of the drop counter. */
  datatype State<E> = State(
    capacity: nat,
    buffer: seq<E>,
    inFlight: Option<E>,
    pc: Pc,
    stopped: bool,
    returned: bool,
    refusing: nat,
    accepted: seq<E>,
    handed: seq<E>,
    decided: nat,
    drops: nat)

  datatype Step<E> =
    | Accept(ev: E)     // Log: the channel has room
    | Refuse            // Log: the channel is full, the default case is taken
    | CountDrop         // Log: the counter is incremented under the mutex
    | Take              // worker: an event is received
    | HandOver          // worker: the inner Log call returns, whatever it returns
    | NoticeStop        // worker: the stop case of the main select is taken
    | Leave             // worker: the drain loop finds the channel empty
    | SignalStop        // Close: the stop channel is closed, at most once
    | Return            // Close: the wait for the worker ends

  function Start<E>(bufferSize: int): State<E>
  {
    State(if bufferSize <= 0 then DEFAULT_BUFFER else bufferSize, [], None, Serving, false, false, 0, [], [], 0, 0)
  }

  predicate Enabled<E>(s: State<E>, step: Step<E>)
  {
    match step
    case Accept(_) => |s.buffer| < s.capacity
    case Refuse => |s.buffer| >= s.capacity
    case CountDrop => s.refusing > 0
    case Take => s.pc != Exited && s.inFlight.None? && s.buffer != []
    case HandOver => s.inFlight.Some?
    case NoticeStop => s.pc == Serving && s.inFlight.None? && s.stopped
    case Leave => s.pc == Draining && s.inFlight.None? && s.buffer == []
    case SignalStop => true
    case Return => s.stopped && s.pc == Exited
  }

  function Apply<E>(s: State<E>, step: Step<E>): State<E>
    requires Enabled(s, step)
  {
    match step
    case Accept(ev) => s.(buffer := s.buffer + [ev], accepted := s.accepted + [ev], decided := s.decided + 1)
    case Refuse => s.(refusing := s.refusing + 1, decided := s.decided + 1)
    case CountDrop => s.(refusing := s.refusing - 1, drops := s.drops + 1)
    case Take => s.(buffer := s.buffer[1..], inFlight := Some(s.buffer[0]))
    case HandOver => s.(inFlight := None, handed := s.handed + [s.inFlight.value])
    case NoticeStop => s.(pc := Draining)
    case Leave => s.(pc := Exited)
    case SignalStop => s.(stopped := true)
    case Return => s.(returned := true)
  }

  predicate Possible<E>(s: State<E>, steps: seq<Step<E>>)
    decreases |steps|
  {
    |steps| == 0 || (Enabled(s, steps[0]) && Possible(Apply(s, steps[0]), steps[1..]))
  }

  function Exec<E>(s: State<E>, steps: seq<Step<E>>): State<E>
    requires Possible(s, steps)
    decreases |steps|
  {
    if |steps| == 0 then s else Exec(Apply(s, steps[0]), steps[1..])
  }

  /** What `Dropped` reports: a 64-bit counter. */
  function Dropped<E>(s: State<E>): nat
  {
    s.drops % 0x1_0000_0000_0000_0000
  }

  /** What the worker has taken and not yet handed over. */
  function Held<E>(s: State<E>): seq<E>
  {
    if s.inFlight.Some? then [s.inFlight.value] else []
  }

  // ---------------------------------------------------------------- conservation

  ghost predicate Inv<E>(s: State<E>)
  {
    && |s.buffer| <= s.capacity && s.capacity > 0
    && Placed(s) == s.accepted
    && |s.accepted| + s.refusing + s.drops == s.decided
    && (s.pc != Serving ==> s.stopped)
    && (s.pc == Exited ==> s.inFlight.None?)
    && (s.returned ==> s.pc == Exited)
  }

  /** The accepted events, told from where they are now. */
  function Placed<E>(s: State<E>): seq<E>
  {
    s.handed + Held(s) + s.buffer
  }

  lemma StepKeepsOrder<E>(s: State<E>, step: Step<E>)
    requires Enabled(s, step) && (s.pc == Exited ==> s.inFlight.None?)
    ensures Placed(Apply(s, step)) == Placed(s) + if step.Accept? then [step.ev] else []
  {
    if step.Take? { assert s.buffer == [s.buffer[0]] + s.buffer[1..]; }
  }

  lemma StepKeepsInv<E>(s: State<E>, step: Step<E>)
    requires Inv(s) && Enabled(s, step)
    ensures Inv(Apply(s, step))
    ensures s.accepted <= Apply(s, step).accepted && s.handed <= Apply(s, step).handed
  {
    hide Placed;
    StepKeepsOrder(s, step);
  }

  /** Conservation and order, in every interleaving: the events handed to the
      inner logger, then the one in flight, then the buffer, are the accepted
      events in order; every decided Log call is accepted, counted as dropped,
      or about to be counted; the buffer never exceeds its capacity. */
  lemma {:induction false} Conservation<E>(s: State<E>, steps: seq<Step<E>>)
    requires Inv(s) && Possible(s, steps)
    ensures Inv(Exec(s, steps))
    ensures s.accepted <= Exec(s, steps).accepted && s.handed <= Exec(s, steps).handed
    ensures var final := Exec(s, steps);
            Dropped(final) == (final.decided - |final.accepted| - final.refusing) % 0x1_0000_0000_0000_0000
    decreases |steps|
  {
    if |steps| > 0 {
      StepKeepsInv(s, steps[0]);
      Conservation(Apply(s, steps[0]), steps[1..]);
    }
  }

  /** A new logger: the configured buffer, 1024 if none is configured, and
      nothing in it. */
  lemma StartInv<E>(bufferSize: int)
    ensures Inv<E>(Start(bufferSize))
    ensures bufferSize > 0 ==> Start<E>(bufferSize).capacity == bufferSize
    ensures bufferSize <= 0 ==> Start<E>(bufferSize).capacity == 1024
    ensures Start<E>(bufferSize).accepted == [] && Start<E>(bufferSize).handed == [] && Start<E>(bufferSize).decided == 0
    ensures Start<E>(bufferSize).pc == Serving && !Start<E>(bufferSize).stopped
  {}

  lemma {:induction false} CapacityStays<E>(s: State<E>, steps: seq<Step<E>>)
    requires Possible(s, steps)
    ensures Exec(s, steps).capacity == s.capacity
    decreases |steps|
  {
    if |steps| > 0 { CapacityStays(Apply(s, steps[0]), steps[1..]); }
  }

  /** Log never waits: in every reachable state a call is accepted or refused,
      and which of the two is decided by the buffer alone. It is refused exactly
      when as many events as the buffer holds are accepted and not yet taken. */
  lemma LogDecides<E>(bufferSize: int, steps: seq<Step<E>>, ev: E)
    requires Possible(Start<E>(bufferSize), steps)
    ensures var s := Exec(Start<E>(bufferSize), steps);
            var room := if bufferSize > 0 then bufferSize else 1024;
            var untaken := |s.accepted| - |s.handed| - (if s.inFlight.Some? then 1 else 0);
            && (Enabled(s, Refuse) <==> untaken == room)
            && (Enabled(s, Accept(ev)) <==> untaken < room)
            && 0 <= untaken <= room
  {
    hide Possible, Exec;
    StartInv<E>(bufferSize);
    Conservation(Start<E>(bufferSize), steps);
    CapacityStays(Start<E>(bufferSize), steps);
    var s := Exec(Start<E>(bufferSize), steps);
    assert |Placed(s)| == |s.handed| + |Held(s)| + |s.buffer|;
  }

  lemma {:induction false} ExecConcat<E>(s: State<E>, a: seq<Step<E>>, b: seq<Step<E>>)
    requires Possible(s, a + b)
    ensures Possible(s, a) && Possible(Exec(s, a), b) && Exec(s, a + b) == Exec(Exec(s, a), b)
    decreases |a|
  {
    if |a| == 0 {
      assert a + b == b;
    } else {
      assert (a + b)[1..] == a[1..] + b && (a + b)[0] == a[0];
      ExecConcat(Apply(s, a[0]), a[1..], b);
    }
  }

  // ---------------------------------------------------------------- shutdown

  /** The worker exits only when nothing accepted is left behind; from then on
      nothing more is handed over. */
  lemma {:induction false} ExitFreezes<E>(s: State<E>, steps: seq<Step<E>>)
    requires Inv(s) && s.pc == Exited && Possible(s, steps)
    ensures Exec(s, steps).pc == Exited && Exec(s, steps).handed == s.handed
    decreases |steps|
  {
    if |steps| > 0 {
      StepKeepsInv(s, steps[0]);
      ExitFreezes(Apply(s, steps[0]), steps[1..]);
    }
  }

  /** If the worker is gone at the end, it had handed over at least what was
      accepted at any earlier moment when it was still running. */
  lemma {:induction false} ExitedHandedAll<E>(s: State<E>, steps: seq<Step<E>>)
    requires Inv(s) && s.pc != Exited && Possible(s, steps) && Exec(s, steps).pc == Exited
    ensures s.accepted <= Exec(s, steps).handed
    decreases |steps|
  {
    if |steps| > 0 {
      var t := Apply(s, steps[0]);
      StepKeepsInv(s, steps[0]);
      if t.pc == Exited {
        assert t.handed == s.accepted;
        ExitFreezes(t, steps[1..]);
      } else {
        ExitedHandedAll(t, steps[1..]);
      }
    }
  }

  /** Drain: in every run, when Close has returned, the events accepted before
      stop was first signalled have been handed to the inner logger, each
      exactly once and in order. */
  lemma DrainOnClose<E>(bufferSize: int, before: seq<Step<E>>, after: seq<Step<E>>)
    requires Possible(Start<E>(bufferSize), before + [SignalStop] + after)
    requires Exec(Start<E>(bufferSize), before + [SignalStop] + after).returned
    requires SignalStop !in before
    ensures Possible(Start<E>(bufferSize), before)
    ensures var final := Exec(Start<E>(bufferSize), before + [SignalStop] + after);
            Exec(Start<E>(bufferSize), before).accepted <= final.handed <= final.accepted
  {
    var s := Start<E>(bufferSize);
    StartInv<E>(bufferSize);
    assert before + [SignalStop] + after == before + ([SignalStop] + after);
    ExecConcat(s, before, [SignalStop] + after);
    Conservation(s, before);
    NotStopped(s, before);
    var mid := Exec(s, before);
    Conservation(mid, [SignalStop] + after);
    ExitedHandedAll(mid, [SignalStop] + after);
  }

  lemma {:induction false} NotStopped<E>(s: State<E>, steps: seq<Step<E>>)
    requires Inv(s) && !s.stopped && Possible(s, steps) && SignalStop !in steps
    ensures !Exec(s, steps).stopped
    decreases |steps|
  {
    if |steps| > 0 {
      assert steps[0] in steps;
      StepKeepsInv(s, steps[0]);
      NotStopped(Apply(s, steps[0]), steps[1..]);
    }
  }

  /** Log does not look at the stop signal: an event accepted once the worker
      is gone is never handed over, in any continuation. */
  lemma AcceptedAfterExitIsStranded<E>(s: State<E>, ev: E, steps: seq<Step<E>>)
    requires Inv(s) && s.pc == Exited && Enabled(s, Accept(ev)) && Possible(Apply(s, Accept(ev)), steps)
    ensures var final := Exec(Apply(s, Accept(ev)), steps);
            && |s.accepted| < |final.accepted| && final.accepted[|s.accepted|] == ev
            && |final.handed| <= |s.accepted|
  {
    StepKeepsInv(s, Accept(ev));
    var t := Apply(s, Accept(ev));
    Conservation(t, steps);
    ExitFreezes(t, steps);
    assert t.accepted[|s.accepted|] == ev;
  }

  // ---------------------------------------------------------------- what close leaves behind

  function AcceptedBy<E>(step: Step<E>): seq<E>
  {
    if step.Accept? then [step.ev] else []
  }

  /** The events of the accepted Log calls of a run, in order. */
  function Accepts<E>(steps: seq<Step<E>>): seq<E>
  {
    if |steps| == 0 then [] else AcceptedBy(steps[0]) + Accepts(steps[1..])
  }

  /** Some Log call is accepted after the drain loop has found the channel empty. */
  ghost predicate AcceptsAfterLeave<E(!new)>(steps: seq<Step<E>>)
  {
    exists i, j :: 0 <= i < j < |steps| && steps[i].Leave? && steps[j].Accept?
  }

  lemma StepAccepts<E>(s: State<E>, step: Step<E>)
    requires Enabled(s, step)
    ensures Apply(s, step).accepted == s.accepted + AcceptedBy(step)
  {}

  lemma StepLeaves<E>(s: State<E>, step: Step<E>)
    requires Inv(s) && Enabled(s, step) && s.pc != Exited
    ensures Apply(s, step).pc == Exited <==> step.Leave?
    ensures step.Leave? ==> Apply(s, step).handed == s.accepted
  {}

  lemma {:induction false} AcceptedAre<E>(s: State<E>, steps: seq<Step<E>>)
    requires Possible(s, steps)
    ensures Exec(s, steps).accepted == s.accepted + Accepts(steps)
    decreases |steps|
  {
    hide Enabled, Apply, AcceptedBy;
    if |steps| > 0 {
      StepAccepts(s, steps[0]);
      AcceptedAre(Apply(s, steps[0]), steps[1..]);
    }
  }

  lemma {:induction false} AcceptsNone<E>(steps: seq<Step<E>>)
    ensures Accepts(steps) == [] <==> forall j | 0 <= j < |steps| :: !steps[j].Accept?
    decreases |steps|
  {
    if |steps| > 0 {
      AcceptsNone(steps[1..]);
      assert forall j | 1 <= j < |steps| :: steps[j] == steps[1..][j - 1];
      assert steps == [steps[0]] + steps[1..];
    }
  }

  /** The worker leaves once; what it handed over is what was accepted before. */
  lemma {:induction false} LeavesOnce<E>(s: State<E>, steps: seq<Step<E>>) returns (k: nat)
    requires Inv(s) && s.pc != Exited && Possible(s, steps) && Exec(s, steps).pc == Exited
    ensures k < |steps| && steps[k].Leave? && forall i | 0 <= i < |steps| && steps[i].Leave? :: i == k
    ensures Exec(s, steps).handed == s.accepted + Accepts(steps[..k])
    decreases |steps|
  {
    hide Enabled, Apply, Inv, AcceptedBy;
    var t := Apply(s, steps[0]);
    StepKeepsInv(s, steps[0]);
    StepLeaves(s, steps[0]);
    StepAccepts(s, steps[0]);
    assert steps == [steps[0]] + steps[1..];
    if t.pc == Exited {
      k := 0;
      ExitFreezes(t, steps[1..]);
      NoLeave(t, steps[1..]);
      assert steps[..0] == [];
    } else {
      var k' := LeavesOnce(t, steps[1..]);
      k := k' + 1;
      assert steps[..k][0] == steps[0] && steps[..k][1..] == steps[1..][..k'];
    }
  }

  lemma {:induction false} NoLeave<E>(s: State<E>, steps: seq<Step<E>>)
    requires Inv(s) && s.pc == Exited && Possible(s, steps)
    ensures forall i | 0 <= i < |steps| :: !steps[i].Leave?
    decreases |steps|
  {
    if |steps| > 0 {
      StepKeepsInv(s, steps[0]);
      NoLeave(Apply(s, steps[0]), steps[1..]);
      assert steps == [steps[0]] + steps[1..];
    }
  }

  lemma {:induction false} AcceptsSplit<E>(a: seq<Step<E>>, b: seq<Step<E>>)
    ensures Accepts(a + b) == Accepts(a) + Accepts(b)
    decreases |a|
  {
    if |a| == 0 {
      assert a + b == b;
    } else {
      assert (a + b)[0] == a[0] && (a + b)[1..] == a[1..] + b;
      AcceptsSplit(a[1..], b);
    }
  }

  lemma SameRest<E>(a: seq<E>, b: seq<E>, c: seq<E>)
    requires a + b == a + c
    ensures b == c
  {
    assert b == (a + b)[|a|..] && c == (a + c)[|a|..];
  }

  lemma AcceptsAround<E>(steps: seq<Step<E>>, k: nat)
    requires k < |steps| && steps[k].Leave?
    ensures Accepts(steps) == Accepts(steps[..k]) + Accepts(steps[k + 1..])
  {
    hide Accepts;
    var a, b, c := steps[..k], [steps[k]], steps[k + 1..];
    AcceptsSplit(a, b + c);
    AcceptsSplit(b, c);
    LeaveAcceptsNothing(steps[k]);
    assert steps == a + (b + c) && [] + Accepts(c) == Accepts(c);
  }

  lemma LeaveAcceptsNothing<E>(step: Step<E>)
    requires step.Leave?
    ensures Accepts([step]) == []
  {
    assert [step][1..] == [] && Accepts<E>([]) == [];
  }

  /** Every run from the start in which the worker has ended, whether or not
      Close has returned: the worker handed over exactly the events accepted
      before it left, and the events accepted later are left in the channel. */
  lemma LeftBehind<E>(bufferSize: int, steps: seq<Step<E>>) returns (k: nat)
    requires Possible(Start<E>(bufferSize), steps) && Exec(Start<E>(bufferSize), steps).pc == Exited
    ensures k < |steps| && steps[k].Leave? && forall i | 0 <= i < |steps| && steps[i].Leave? :: i == k
    ensures Exec(Start<E>(bufferSize), steps).handed == Accepts(steps[..k])
    ensures Exec(Start<E>(bufferSize), steps).buffer == Accepts(steps[k + 1..])
  {
    hide Possible, Exec, Accepts;
    var s := Start<E>(bufferSize);
    StartInv<E>(bufferSize);
    k := LeavesOnce(s, steps);
    AcceptedAre(s, steps);
    Conservation(s, steps);
    AcceptsAround(steps, k);
    var final := Exec(s, steps);
    assert final.accepted == Accepts(steps) && final.handed == Accepts(steps[..k]);
    assert final.accepted == Placed(final) == final.handed + final.buffer;
    SameRest(final.handed, final.buffer, Accepts(steps[k + 1..]));
  }

  /** In such a run nothing accepted is lost if and only if no Log call is
      accepted after the worker has left. */
  lemma AllHandedIff<E(!new)>(bufferSize: int, steps: seq<Step<E>>)
    requires Possible(Start<E>(bufferSize), steps) && Exec(Start<E>(bufferSize), steps).pc == Exited
    ensures Exec(Start<E>(bufferSize), steps).handed == Exec(Start<E>(bufferSize), steps).accepted
            <==> !AcceptsAfterLeave(steps)
  {
    hide Accepts, Possible, Exec, Start;
    StartInv<E>(bufferSize);
    Conservation(Start<E>(bufferSize), steps);
    var k := LeftBehind(bufferSize, steps);
    var after := steps[k + 1..];
    AcceptsNone(after);
    assert forall j | 0 <= j < |after| :: after[j] == steps[k + 1 + j];
    assert forall j | k < j < |steps| :: steps[j] == after[j - k - 1];
  }

  /** Such a run exists for every buffer size: Close has returned, and the event
      is accepted and never handed over. */
  lemma LateEventIsLost<E(!new)>(bufferSize: int, ev: E)
    ensures var steps := [SignalStop, NoticeStop, Leave, Return, Accept(ev)];
            && Possible(Start<E>(bufferSize), steps)
            && var final := Exec(Start<E>(bufferSize), steps);
               final.returned && final.accepted == [ev] && final.handed == []
  {
    var s0 := Start<E>(bufferSize);
    var s1 := Apply(s0, SignalStop);
    var s2 := Apply(s1, NoticeStop);
    var s3 := Apply(s2, Leave);
    var s4 := Apply(s3, Return);
    var s5 := Apply(s4, Accept(ev));
    Chain(s4, s5, Accept(ev), []);
    Chain(s3, s5, Return, [Accept(ev)]);
    Chain(s2, s5, Leave, [Return, Accept(ev)]);
    Chain(s1, s5, NoticeStop, [Leave, Return, Accept(ev)]);
    Chain(s0, s5, SignalStop, [NoticeStop, Leave, Return, Accept(ev)]);
  }

  lemma Chain<E>(s: State<E>, final: State<E>, step: Step<E>, rest: seq<Step<E>>)
    requires Enabled(s, step) && Possible(Apply(s, step), rest) && Exec(Apply(s, step), rest) == final
    ensures Possible(s, [step] + rest) && Exec(s, [step] + rest) == final
  {
    assert ([step] + rest)[1..] == rest;
  }

  // ---------------------------------------------------------------- termination of the drain

  predicate IsWorkerStep<E>(step: Step<E>)
  {
    step.Take? || step.HandOver? || step.NoticeStop? || step.Leave?
  }

  /** Worker steps left until the worker is gone, if nothing more is accepted. */
  function Work<E>(s: State<E>): nat
  {
    2 * |s.buffer| + |Held(s)| + match s.pc case Serving => 2 case Draining => 1 case Exited => 0
  }

  function WorkerSteps<E>(steps: seq<Step<E>>): nat
  {
    if |steps| == 0 then 0 else (if IsWorkerStep(steps[0]) then 1 else 0) + WorkerSteps(steps[1..])
  }

  /** Once stopped, the worker can always move until it is gone. */
  lemma WorkerNotBlocked<E>(s: State<E>) returns (step: Step<E>)
    requires Inv(s) && s.stopped && s.pc != Exited
    ensures IsWorkerStep(step) && Enabled(s, step)
  {
    step := if s.inFlight.Some? then HandOver else if s.buffer != [] then Take
            else if s.pc == Serving then NoticeStop else Leave;
  }

  lemma StepWork<E>(s: State<E>, step: Step<E>)
    requires Inv(s) && s.pc != Exited && Enabled(s, step) && !step.Accept?
    ensures Work(s) > 0 && Work(Apply(s, step)) + (if IsWorkerStep(step) then 1 else 0) == Work(s)
    ensures Apply(s, step).pc == Exited ==> Apply(s, step).buffer == [] && Work(Apply(s, step)) == 0
  {}

  /** Every worker step uses up exactly one unit of work, and no other step but
      an accepted Log call adds any. So after stop, with no accepted calls, the
      worker takes at most `Work(s)` more steps, and is gone after that many. */
  lemma {:induction false} DrainTerminates<E>(s: State<E>, steps: seq<Step<E>>)
    requires Inv(s) && s.pc != Exited && Possible(s, steps)
    requires forall step | step in steps :: !step.Accept?
    ensures WorkerSteps(steps) + Work(Exec(s, steps)) == Work(s)
    ensures Exec(s, steps).pc == Exited <==> WorkerSteps(steps) == Work(s)
    decreases |steps|
  {
    hide Work, Apply, Enabled, Inv, IsWorkerStep;
    if |steps| > 0 {
      assert steps[0] in steps;
      StepKeepsInv(s, steps[0]);
      StepWork(s, steps[0]);
      var t := Apply(s, steps[0]);
      if t.pc == Exited {
        GoneStaysGone(t, steps[1..]);
      } else {
        DrainTerminates(t, steps[1..]);
      }
    } else {
      StillWorking(s);
    }
  }

  /** After stop, a run without accepted calls that leaves the worker nothing
      to do has taken exactly `Work(s)` worker steps and ended the worker. */
  lemma DrainEnds<E(!new)>(s: State<E>, steps: seq<Step<E>>)
    requires Inv(s) && s.stopped && s.pc != Exited && Possible(s, steps)
    requires forall step | step in steps :: !step.Accept?
    requires forall step: Step<E> | IsWorkerStep(step) :: !Enabled(Exec(s, steps), step)
    ensures Exec(s, steps).pc == Exited && Exec(s, steps).handed == Exec(s, steps).accepted
    ensures WorkerSteps(steps) == Work(s) == 2 * |s.buffer| + |Held(s)| + if s.pc == Serving then 2 else 1
  {
    var final := Exec(s, steps);
    DrainTerminates(s, steps);
    Conservation(s, steps);
    StaysStopped(s, steps);
    if final.pc != Exited {
      var step := WorkerNotBlocked(final);
    }
  }

  lemma {:induction false} StaysStopped<E>(s: State<E>, steps: seq<Step<E>>)
    requires s.stopped && Possible(s, steps)
    ensures Exec(s, steps).stopped
    decreases |steps|
  {
    if |steps| > 0 { StaysStopped(Apply(s, steps[0]), steps[1..]); }
  }

  lemma StillWorking<E>(s: State<E>)
    requires s.pc != Exited
    ensures Work(s) > 0
  {}

  lemma {:induction false} GoneStaysGone<E>(s: State<E>, steps: seq<Step<E>>)
    requires Inv(s) && s.pc == Exited && s.buffer == [] && Possible(s, steps)
    requires forall step | step in steps :: !step.Accept?
    ensures WorkerSteps(steps) == 0 == Work(Exec(s, steps)) && Exec(s, steps).pc == Exited
    decreases |steps|
  {
    if |steps| > 0 {
      assert steps[0] in steps;
      StepKeepsInv(s, steps[0]);
      GoneStaysGone(Apply(s, steps[0]), steps[1..]);
    }
  }
}
