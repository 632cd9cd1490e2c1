/** The hard per-unit timeout as a transition system: one child that may post,
    fail, hang or die at any moment, and the parent's polling loop. Every
    interleaving of their steps with the clock is a run.
 */
module HardTimeout {
  import opened Common

  /** What the child puts on the result queue. */
  datatype Report = Returned(value: string) | Raised(trace: string)

  datatype Status = OK | ERROR | TIMEOUT | CRASHED

  datatype Outcome = Outcome(status: Status, value: Option<string>, error: string, killed: bool)

  const POLL_SECONDS := 0.02

  /** Where the parent stands. */
  datatype Pc =
    | Polling
    | CheckingAlive
    | LastGet
    | CheckingClock
    | Sleeping(wake: real)
    | Killing
    | Joining(payload: Option<Report>)
    | Finished(outcome: Outcome)

  /** `buffer` holds what was put but not yet written by the queue's feeder,
      `pipe` what was written and not yet read, `posted` all that was ever
      written. `rounds` and `parentSteps` count what the parent has done. */
  datatype State = State(
    now: real, pc: Pc, rounds: nat, parentSteps: nat,
    alive: bool, done: bool, buffer: seq<Report>, pipe: seq<Report>, posted: seq<Report>)

  datatype Step =
    | Tick(delay: real)
    | Put(report: Report)
    | LosePut
    | Flush
    | Exit
    | Die
    | Parent(reaped: bool)

  function Start(): State {
    State(0.0, Polling, 0, 0, true, false, [], [], [])
  }

  // ----- the parent's loop, one step at a time -----

  function Interpret(payload: Option<Report>): Outcome {
    match payload
    case None => Outcome(CRASHED, None, "child exited without reporting a result", false)
    case Some(Returned(v)) => Outcome(OK, Some(v), "", false)
    case Some(Raised(trace)) => Outcome(ERROR, None, trace, false)
  }

  function TimedOut(reaped: bool): Outcome {
    Outcome(TIMEOUT, None, "unit exceeded its deadline and was killed" + if reaped then "" else " (child did not reap)", true)
  }

  predicate ParentEnabled(s: State) {
    match s.pc
    case Sleeping(wake) => wake <= s.now
    case Finished(_) => false
    case _ => true
  }

  /** The clock starts at zero, so the deadline is the timeout. */
  function ParentStep(s: State, timeout: real, reaped: bool): State
    requires ParentEnabled(s)
  {
    var t := s.(parentSteps := s.parentSteps + 1);
    match s.pc
    case Polling =>
      if s.pipe != [] then t.(pc := Joining(Some(s.pipe[0])), pipe := s.pipe[1..]) else t.(pc := CheckingAlive)
    case CheckingAlive =>
      t.(pc := if s.alive then CheckingClock else LastGet)
    case LastGet =>
      if s.pipe != [] then t.(pc := Joining(Some(s.pipe[0])), pipe := s.pipe[1..]) else t.(pc := Joining(None))
    case CheckingClock =>
      t.(pc := if timeout <= s.now then Killing else Sleeping(s.now + POLL_SECONDS))
    case Sleeping(_) =>
      t.(pc := Polling, rounds := s.rounds + 1)
    case Killing =>
      t.(pc := Finished(TimedOut(reaped)), alive := s.alive && !reaped)
    case Joining(payload) =>
      t.(pc := Finished(Interpret(payload)))
  }

  // ----- all steps -----

  /** When something other than the parent can move. */
  predicate Possible(s: State, step: Step) {
    match step
    case Tick(delay) => 0.0 < delay
    // the unit returned or raised, and its outcome was put on the queue
    case Put(_) => s.alive && !s.done
    // the feeder cannot serialise the value and drops it, or writes it to the pipe
    case LosePut | Flush => s.alive && s.buffer != []
    // a clean exit waits for the feeder
    case Exit => s.alive && s.done && s.buffer == []
    // a segmentation fault, an abort, an out-of-memory kill
    case Die => s.alive
    case Parent(_) => false
  }

  function Moved(s: State, step: Step): State
    requires Possible(s, step)
  {
    match step
    case Tick(delay) => s.(now := s.now + delay)
    case Put(r) => s.(done := true, buffer := s.buffer + [r])
    case LosePut => s.(buffer := s.buffer[1..])
    case Flush =>
      s.(buffer := s.buffer[1..], pipe := s.pipe + [s.buffer[0]], posted := s.posted + [s.buffer[0]])
    case Exit => s.(alive := false)
    case Die => s.(alive := false, buffer := [])
  }

  ghost predicate Next(s: State, s': State, step: Step, timeout: real) {
    match step
    case Parent(reaped) => ParentEnabled(s) && s' == ParentStep(s, timeout, reaped)
    case _ => Possible(s, step) && s' == Moved(s, step)
  }

  ghost predicate IsRun(run: seq<State>, steps: seq<Step>, timeout: real) {
    && 0.0 < timeout
    && |run| == |steps| + 1
    && run[0] == Start()
    && forall i | 0 <= i < |steps| :: Next(run[i], run[i + 1], steps[i], timeout)
  }

  // ----- invariant -----

  ghost predicate PutOnce(s: State) {
    && |s.posted| + |s.buffer| <= (if s.done then 1 else 0)
    && |s.pipe| <= |s.posted|
    && (s.pipe != [] ==> s.pipe == s.posted)
  }

  ghost predicate Told(s: State, r: Report) {
    s.posted == [r] && s.pipe == []
  }

  ghost predicate Honest(s: State, timeout: real) {
    match s.pc
    case Joining(Some(r)) => Told(s, r)
    case Joining(None) => !s.alive && s.posted == []
    case Killing => timeout <= s.now && s.pipe == s.posted
    case Finished(o) =>
      && (o.status == TIMEOUT ==> (o == TimedOut(true) || o == TimedOut(false)) && timeout <= s.now)
      && (o.status == OK ==> o.value.Some? && Told(s, Returned(o.value.value)) && o == Interpret(Some(Returned(o.value.value))))
      && (o.status == ERROR ==> Told(s, Raised(o.error)) && o == Interpret(Some(Raised(o.error))))
      && (o.status == CRASHED ==> !s.alive && s.posted == [] && o == Interpret(None))
    case LastGet => !s.alive && s.pipe == s.posted
    case _ => s.pipe == s.posted
  }

  /** Every full round takes at least the poll interval, and a round only
      starts before the deadline. */
  ghost predicate Paced(s: State, timeout: real) {
    && s.rounds as real * POLL_SECONDS <= s.now
    && (0 < s.rounds ==> (s.rounds - 1) as real * POLL_SECONDS < timeout)
    && (s.pc.Sleeping? ==> s.pc.wake >= (s.rounds + 1) as real * POLL_SECONDS && s.rounds as real * POLL_SECONDS < timeout)
  }

  ghost predicate Inv(s: State, timeout: real) {
    PutOnce(s) && Honest(s, timeout) && Paced(s, timeout)
  }

  lemma StepKeepsPutOnce(s: State, s': State, step: Step, timeout: real)
    requires PutOnce(s) && Next(s, s', step, timeout)
    ensures PutOnce(s')
  {
    match step
    case Parent(reaped) => ParentReads(s, timeout, reaped);
    case _ =>
  }

  lemma ParentReads(s: State, timeout: real, reaped: bool)
    requires ParentEnabled(s)
    ensures var s' := ParentStep(s, timeout, reaped);
            && s'.posted == s.posted && s'.buffer == s.buffer && s'.done == s.done
            && (s'.pipe == s.pipe || (s.pipe != [] && s'.pipe == s.pipe[1..]))
  {
  }

  lemma ParentKeepsHonest(s: State, timeout: real, reaped: bool)
    requires PutOnce(s) && Honest(s, timeout) && ParentEnabled(s)
    ensures Honest(ParentStep(s, timeout, reaped), timeout)
  {
  }

  lemma ParentKeepsPace(s: State, timeout: real, reaped: bool)
    requires Paced(s, timeout) && ParentEnabled(s)
    ensures Paced(ParentStep(s, timeout, reaped), timeout)
  {
  }

  lemma ChildKeepsHonest(s: State, s': State, step: Step, timeout: real)
    requires PutOnce(s) && Honest(s, timeout) && Next(s, s', step, timeout) && !step.Parent?
    ensures Honest(s', timeout)
  {
  }

  lemma {:induction false} StepKeepsInv(s: State, s': State, step: Step, timeout: real)
    requires Inv(s, timeout) && Next(s, s', step, timeout)
    ensures Inv(s', timeout)
  {
    StepKeepsPutOnce(s, s', step, timeout);
    if step.Parent? {
      ParentKeepsHonest(s, timeout, step.reaped);
      ParentKeepsPace(s, timeout, step.reaped);
    } else {
      ChildKeepsHonest(s, s', step, timeout);
    }
  }

  lemma {:induction false} RunKeepsInv(run: seq<State>, steps: seq<Step>, timeout: real, i: nat)
    requires IsRun(run, steps, timeout) && i < |run|
    ensures Inv(run[i], timeout)
  {
    if i != 0 {
      RunKeepsInv(run, steps, timeout, i - 1);
      StepKeepsInv(run[i - 1], run[i], steps[i - 1], timeout);
    }
  }

  /** Main result: whatever the interleaving, the supervisor's answer is what
      happened. A value or a trace is exactly the one the child posted; `CRASHED`
      means that the child is gone and never posted, even when it posted and
      exited between the parent's look at the queue and its look at the process;
      `TIMEOUT` comes after the deadline, and it alone kills. */
  lemma OutcomeIsHonest(run: seq<State>, steps: seq<Step>, timeout: real, i: nat)
    requires IsRun(run, steps, timeout) && i < |run| && run[i].pc.Finished?
    ensures var s, o := run[i], run[i].pc.outcome;
            && (o.status == OK ==> o.value.Some? && s.posted == [Returned(o.value.value)])
            && (o.status == ERROR ==> s.posted == [Raised(o.error)])
            && (o.status == CRASHED ==> !s.alive && s.posted == [])
            && (o.status == TIMEOUT ==> timeout <= s.now)
            && (o.killed <==> o.status == TIMEOUT)
            && (o.value.Some? <==> o.status == OK)
  {
    RunKeepsInv(run, steps, timeout, i);
  }

  /** The answer is final. */
  lemma {:induction false} OneOutcome(run: seq<State>, steps: seq<Step>, timeout: real, i: nat, j: nat)
    requires IsRun(run, steps, timeout) && i <= j < |run| && run[i].pc.Finished?
    ensures run[j].pc == run[i].pc
  {
    if i < j {
      OneOutcome(run, steps, timeout, i, j - 1);
      assert Next(run[j - 1], run[j], steps[j - 1], timeout);
    }
  }

  // ----- the loop ends -----

  function PcRank(pc: Pc): nat {
    match pc
    case Polling => 5
    case CheckingAlive => 4
    case CheckingClock => 3
    case LastGet => 2
    case Sleeping(_) => 2
    case Killing => 1
    case Joining(_) => 1
    case Finished(_) => 0
  }

  /** Parent steps still possible when at most `most` rounds are. */
  function Rank(s: State, most: nat): int {
    4 * (most - s.rounds) + PcRank(s.pc)
  }

  ghost predicate Bounded(s: State, timeout: real, most: nat) {
    s.rounds <= most && s.parentSteps + Rank(s, most) <= Rank(Start(), most)
  }

  lemma RoundsAreBounded(s: State, timeout: real, most: nat)
    requires Inv(s, timeout) && timeout <= most as real * POLL_SECONDS
    ensures s.rounds <= most && (s.pc.Sleeping? ==> s.rounds < most)
  {
  }

  lemma ParentRankFalls(s: State, timeout: real, reaped: bool, most: nat)
    requires ParentEnabled(s)
    ensures Rank(ParentStep(s, timeout, reaped), most) < Rank(s, most)
  {
  }

  lemma StepKeepsBound(s: State, s': State, step: Step, timeout: real, most: nat)
    requires Bounded(s, timeout, most) && Next(s, s', step, timeout) && s'.rounds <= most
    ensures Bounded(s', timeout, most)
  {
    if step.Parent? {
      ParentRankFalls(s, timeout, step.reaped, most);
      assert s'.parentSteps == s.parentSteps + 1;
    }
  }

  /** Main result: the parent's loop terminates. In any run it makes at most
      `4 * most + 5` steps, `most` being any number of poll intervals that covers
      the timeout. */
  lemma {:induction false} SupervisorTerminates(run: seq<State>, steps: seq<Step>, timeout: real, most: nat, i: nat)
    requires IsRun(run, steps, timeout) && i < |run| && timeout <= most as real * POLL_SECONDS
    ensures Bounded(run[i], timeout, most)
    ensures run[i].parentSteps <= 4 * most + 5
  {
    RunKeepsInv(run, steps, timeout, i);
    RoundsAreBounded(run[i], timeout, most);
    if i != 0 {
      SupervisorTerminates(run, steps, timeout, most, i - 1);
      StepKeepsBound(run[i - 1], run[i], steps[i - 1], timeout, most);
    }
  }

  lemma Append(run: seq<State>, steps: seq<Step>, timeout: real, s: State, step: Step)
    requires IsRun(run, steps, timeout) && Next(run[|steps|], s, step, timeout)
    ensures IsRun(run + [s], steps + [step], timeout)
  {
  }

  /** Progress: whatever the child did so far, the parent comes to an answer by its
      own steps and the passing of time alone. */
  lemma {:induction false} CanAnswer(run: seq<State>, steps: seq<Step>, timeout: real, most: nat)
    returns (run': seq<State>, steps': seq<Step>)
    requires IsRun(run, steps, timeout) && timeout <= most as real * POLL_SECONDS
    ensures IsRun(run', steps', timeout) && run <= run' && steps <= steps'
    ensures run'[|steps'|].pc.Finished?
    ensures forall j | |steps| <= j < |steps'| :: steps'[j].Parent? || steps'[j].Tick?
    decreases Rank(run[|steps|], most), if ParentEnabled(run[|steps|]) then 0 else 1
  {
    var s := run[|steps|];
    RunKeepsInv(run, steps, timeout, |steps|);
    RoundsAreBounded(s, timeout, most);
    if s.pc.Finished? {
      run', steps' := run, steps;
    } else {
      var step := if ParentEnabled(s) then Parent(true) else Tick(s.pc.wake - s.now);
      var next := if ParentEnabled(s) then ParentStep(s, timeout, true) else Moved(s, step);
      Append(run, steps, timeout, next, step);
      if ParentEnabled(s) {
        ParentRankFalls(s, timeout, true, most);
        RunKeepsInv(run + [next], steps + [step], timeout, |steps| + 1);
        RoundsAreBounded(next, timeout, most);
      }
      run', steps' := CanAnswer(run + [next], steps + [step], timeout, most);
      assert steps'[|steps|] == (steps + [step])[|steps|];
    }
  }

  // ----- what TIMEOUT means -----

  /** When the parent came to where it stands. */
  lemma {:induction false} Entered(run: seq<State>, steps: seq<Step>, timeout: real, i: nat) returns (j: nat)
    requires IsRun(run, steps, timeout) && i < |run| && run[i].pc != Polling
    ensures j < i && steps[j].Parent? && run[j].pc != run[i].pc
    ensures forall q | j < q <= i :: run[q].pc == run[i].pc
    ensures Next(run[j], run[j + 1], steps[j], timeout)
  {
    assert Next(run[i - 1], run[i], steps[i - 1], timeout);
    j := i - 1;
    if run[i - 1].pc == run[i].pc {
      j := Entered(run, steps, timeout, i - 1);
    }
  }

  ghost predicate Flushed(steps: seq<Step>, from: nat, to: nat) {
    exists j | from < j < to && j < |steps| :: steps[j] == Flush
  }

  ghost predicate Exited(steps: seq<Step>, from: nat, to: nat) {
    exists j | from < j < to && j < |steps| :: steps[j] == Exit || steps[j] == Die
  }

  lemma {:induction false} PostedSince(run: seq<State>, steps: seq<Step>, timeout: real, from: nat, i: nat)
    requires IsRun(run, steps, timeout) && from < i < |run| && steps[from].Parent? && run[from].posted == []
    ensures run[i].posted != [] <==> Flushed(steps, from, i)
  {
    var s, step := run[i - 1], steps[i - 1];
    assert Next(s, run[i], step, timeout);
    if step.Parent? {
      ParentReads(s, timeout, step.reaped);
    }
    if from < i - 1 {
      PostedSince(run, steps, timeout, from, i - 1);
      assert Flushed(steps, from, i) <==> Flushed(steps, from, i - 1) || step == Flush;
    }
  }

  lemma {:induction false} AliveSince(run: seq<State>, steps: seq<Step>, timeout: real, from: nat, i: nat)
    requires IsRun(run, steps, timeout) && from < i < |run| && steps[from].Parent? && run[from].alive
    requires forall q | from <= q < i :: run[q].pc == Killing ==> run[q + 1].pc == Killing
    ensures run[i].alive <==> !Exited(steps, from, i)
  {
    var s, step := run[i - 1], steps[i - 1];
    assert Next(s, run[i], step, timeout);
    if step.Parent? {
      assert run[i].alive == s.alive;
    }
    if from < i - 1 {
      AliveSince(run, steps, timeout, from, i - 1);
      assert Exited(steps, from, i) <==> Exited(steps, from, i - 1) || step == Exit || step == Die;
    }
  }

  /** The last look at the queue, the check of the process and the check of the
      clock after it, and the kill, all before step `i`. Nothing had been posted
      at the look and no other look followed; the child was alive at its check,
      and the deadline had passed at the check of the clock. From there on it is
      a matter of what the child did meanwhile. */
  ghost predicate TimeoutStory(run: seq<State>, steps: seq<Step>, timeout: real, i: nat, look: nat, check: nat, clock: nat, kill: nat)
    requires |run| == |steps| + 1 && i < |run|
  {
    && look < check < clock < kill < i
    && steps[look].Parent? && run[look].pc == Polling && run[look].posted == []
    && (forall q | look < q <= i :: run[q].pc != Polling && run[q].pc != LastGet)
    && (run[i].posted != [] <==> Flushed(steps, look, i))
    && steps[check].Parent? && run[check].pc == CheckingAlive && run[check].alive
    && steps[clock].Parent? && run[clock].pc == CheckingClock && timeout <= run[clock].now
    && (run[clock].alive <==> !Exited(steps, check, clock))
    && steps[kill].Parent? && run[kill].pc == Killing
    && (run[kill].alive <==> !Exited(steps, check, kill))
  }

  lemma CameFromKilling(run: seq<State>, steps: seq<Step>, timeout: real, i: nat) returns (j: nat)
    requires IsRun(run, steps, timeout) && i < |run| && run[i].pc.Finished? && run[i].pc.outcome.status == TIMEOUT
    ensures j < i && steps[j].Parent? && run[j].pc == Killing && forall q | j < q <= i :: run[q].pc == run[i].pc
  {
    j := Entered(run, steps, timeout, i);
  }

  lemma CameFromClock(run: seq<State>, steps: seq<Step>, timeout: real, i: nat) returns (j: nat)
    requires IsRun(run, steps, timeout) && i < |run| && run[i].pc == Killing
    ensures j < i && steps[j].Parent? && run[j].pc == CheckingClock && timeout <= run[j].now
    ensures forall q | j < q <= i :: run[q].pc == Killing
  {
    j := Entered(run, steps, timeout, i);
  }

  lemma CameFromCheck(run: seq<State>, steps: seq<Step>, timeout: real, i: nat) returns (j: nat)
    requires IsRun(run, steps, timeout) && i < |run| && run[i].pc == CheckingClock
    ensures j < i && steps[j].Parent? && run[j].pc == CheckingAlive && run[j].alive
    ensures forall q | j < q <= i :: run[q].pc == CheckingClock
  {
    j := Entered(run, steps, timeout, i);
  }

  lemma CameFromLook(run: seq<State>, steps: seq<Step>, timeout: real, i: nat) returns (j: nat)
    requires IsRun(run, steps, timeout) && i < |run| && run[i].pc == CheckingAlive
    ensures j < i && steps[j].Parent? && run[j].pc == Polling && run[j].posted == []
    ensures forall q | j < q <= i :: run[q].pc == CheckingAlive
  {
    j := Entered(run, steps, timeout, i);
    RunKeepsInv(run, steps, timeout, j);
  }

  /** Main result: behind every `TIMEOUT` there is that story. So a result was
      discarded exactly when the child wrote one after the last look at the queue,
      and the deadline passed with the child still alive exactly when the child
      did not exit after its last check. */
  lemma TimeoutMeans(run: seq<State>, steps: seq<Step>, timeout: real, i: nat)
    returns (look: nat, check: nat, clock: nat, kill: nat)
    requires IsRun(run, steps, timeout) && i < |run| && run[i].pc.Finished? && run[i].pc.outcome.status == TIMEOUT
    ensures TimeoutStory(run, steps, timeout, i, look, check, clock, kill)
  {
    kill := CameFromKilling(run, steps, timeout, i);
    clock := CameFromClock(run, steps, timeout, kill);
    check := CameFromCheck(run, steps, timeout, clock);
    look := CameFromLook(run, steps, timeout, check);
    PostedSince(run, steps, timeout, look, i);
    AliveSince(run, steps, timeout, check, clock);
    AliveSince(run, steps, timeout, check, kill);
  }

  /** A run in which that happens: the result is posted after the last look at the
      queue, the deadline passes, and the answer is `TIMEOUT`. */
  lemma TimeoutMayDiscardAResult(timeout: real, r: Report) returns (run: seq<State>, steps: seq<Step>)
    requires 0.0 < timeout
    ensures IsRun(run, steps, timeout)
    ensures var last := run[|run| - 1];
            last.pc == Finished(TimedOut(true)) && last.posted == [r] && last.pipe == [r]
  {
    steps := [Tick(timeout), Parent(true), Put(r), Flush, Parent(true), Parent(true), Parent(true)];
    var s0 := Start();
    var s1 := s0.(now := 0.0 + timeout);
    var s2 := ParentStep(s1, timeout, true);
    var s3 := s2.(done := true, buffer := [r]);
    var s4 := s3.(buffer := [], pipe := [r], posted := [r]);
    var s5 := ParentStep(s4, timeout, true);
    var s6 := ParentStep(s5, timeout, true);
    var s7 := ParentStep(s6, timeout, true);
    run := [s0, s1, s2, s3, s4, s5, s6, s7];
  }
}
