/** The supervisor's polling loop as it is written, run against a world that may
    move between any two of its calls.
 */
module SupervisorLoop {
  import opened Common
  import opened HardTimeout

  /** The child process, the result queue and the clock. Before each call that
      the parent makes, the moves that `schedule` names for it happen, those of
      them that are possible. The ghost fields record the run so far. */
  class World {
    const timeout: real
    const schedule: nat -> seq<Step>
    const reaps: bool
    var calls: nat
    var state: State
    ghost var run: seq<State>
    ghost var steps: seq<Step>

    ghost predicate Valid()
      reads this
    {
      IsRun(run, steps, timeout) && run[|steps|] == state
    }

    /** Where the parent stands, and how many rounds it has made. */
    ghost predicate At(pc: Pc, rounds: nat)
      reads this
    {
      Valid() && state.pc == pc && state.rounds == rounds
    }

    constructor (timeout: real, schedule: nat -> seq<Step>, reaps: bool)
      requires 0.0 < timeout
      ensures At(Polling, 0) && state == Start() && this.timeout == timeout
    {
      this.timeout, this.schedule, this.reaps := timeout, schedule, reaps;
      calls, state := 0, Start();
      run, steps := [Start()], [];
    }

    ghost method Record(step: Step)
      requires IsRun(run, steps, timeout) && Next(run[|steps|], state, step, timeout)
      modifies `run, `steps
      ensures Valid()
    {
      run, steps := run + [state], steps + [step];
    }

    method Move(step: Step)
      requires Valid() && Possible(state, step)
      modifies `state, `run, `steps
      ensures At(old(state.pc), old(state.rounds)) && state == Moved(old(state), step)
    {
      state := Moved(state, step);
      Record(step);
    }

    method Elapse()
      requires Valid()
      modifies `calls, `state, `run, `steps
      ensures At(old(state.pc), old(state.rounds))
    {
      var moves := schedule(calls);
      calls := calls + 1;
      for i := 0 to |moves|
        invariant At(old(state.pc), old(state.rounds))
      {
        if Possible(state, moves[i]) {
          Move(moves[i]);
        }
      }
    }

    method Act(reaped: bool)
      requires Valid() && ParentEnabled(state)
      modifies `state, `run, `steps
      ensures Valid() && state == ParentStep(old(state), timeout, reaped)
    {
      state := ParentStep(state, timeout, reaped);
      Record(Parent(reaped));
    }

    /** `result_q.get_nowait()` */
    method GetNowait() returns (payload: Option<Report>)
      requires Valid() && state.pc == Polling
      modifies `calls, `state, `run, `steps
      ensures At(if payload.Some? then Joining(payload) else CheckingAlive, old(state.rounds))
    {
      Elapse();
      payload := if state.pipe != [] then Some(state.pipe[0]) else None;
      Act(true);
    }

    /** `proc.is_alive()` */
    method IsAlive() returns (alive: bool)
      requires Valid() && state.pc == CheckingAlive
      modifies `calls, `state, `run, `steps
      ensures At(if alive then CheckingClock else LastGet, old(state.rounds))
    {
      Elapse();
      alive := state.alive;
      Act(true);
    }

    /** `result_q.get(timeout=0.5)`, after the exit was seen */
    method GetLast() returns (payload: Option<Report>)
      requires Valid() && state.pc == LastGet
      modifies `calls, `state, `run, `steps
      ensures At(Joining(payload), old(state.rounds))
    {
      Elapse();
      payload := if state.pipe != [] then Some(state.pipe[0]) else None;
      Act(true);
    }

    /** `time.monotonic() >= deadline` */
    method PastDeadline() returns (late: bool)
      requires Valid() && state.pc == CheckingClock
      modifies `calls, `state, `run, `steps
      ensures late ==> At(Killing, old(state.rounds))
      ensures !late ==> Valid() && state.pc.Sleeping? && state.rounds == old(state.rounds)
    {
      Elapse();
      late := timeout <= state.now;
      Act(true);
    }

    /** `time.sleep(_POLL_SECONDS)` */
    method Sleep()
      requires Valid() && state.pc.Sleeping?
      modifies `calls, `state, `run, `steps
      ensures At(Polling, old(state.rounds) + 1)
    {
      Elapse();
      if state.now < state.pc.wake {
        Move(Tick(state.pc.wake - state.now));
      }
      Act(true);
    }

    /** `_kill_tree(proc)`: true when the child was reaped in time */
    method KillTree() returns (reaped: bool)
      requires Valid() && state.pc == Killing
      modifies `calls, `state, `run, `steps
      ensures Valid() && state.pc == Finished(TimedOut(reaped))
    {
      Elapse();
      reaped := reaps;
      Act(reaped);
    }

    /** `proc.join(_REAP_SECONDS)` */
    method Join()
      requires Valid() && state.pc.Joining?
      modifies `calls, `state, `run, `steps
      ensures Valid() && state.pc == Finished(Interpret(old(state.pc).payload))
    {
      Elapse();
      Act(true);
    }
  }

  /** Main result: for every schedule the loop ends, its run is a run of the
      transition system, and its outcome is what happened in the world. */
  method RunWithHardTimeout(world: World) returns (outcome: Outcome)
    requires world.At(Polling, 0)
    modifies world
    ensures world.Valid() && world.state.pc == Finished(outcome)
    ensures outcome.status == OK ==> outcome.value.Some? && world.state.posted == [Returned(outcome.value.value)]
    ensures outcome.status == ERROR ==> world.state.posted == [Raised(outcome.error)]
    ensures outcome.status == CRASHED ==> !world.state.alive && world.state.posted == []
    ensures outcome.status == TIMEOUT ==> world.timeout <= world.state.now
    ensures outcome.status == TIMEOUT ==>
              exists look, check, clock, kill :: TimeoutStory(world.run, world.steps, world.timeout, |world.steps|, look, check, clock, kill)
    ensures outcome.killed <==> outcome.status == TIMEOUT
  {
    ghost var most := (world.timeout / POLL_SECONDS).Floor + 1;
    var payload: Option<Report> := None;
    var timedOut := false;
    var rounds := 0;
    while true
      invariant world.At(Polling, rounds) && !timedOut
      decreases most - rounds
    {
      RoundsRunOut(world, most);
      payload := world.GetNowait();
      if payload.Some? {
        break;
      }
      var alive := world.IsAlive();
      if !alive {
        payload := world.GetLast();
        break;
      }
      timedOut := world.PastDeadline();
      if timedOut {
        break;
      }
      world.Sleep();
      rounds := rounds + 1;
    }
    if timedOut {
      var reaped := world.KillTree();
      outcome := TimedOut(reaped);
    } else {
      world.Join();
      outcome := Interpret(payload);
    }
    OutcomeIsHonest(world.run, world.steps, world.timeout, |world.steps|);
    if timedOut {
      ghost var look, check, clock, kill := TimeoutMeans(world.run, world.steps, world.timeout, |world.steps|);
    }
  }

  lemma RoundsRunOut(world: World, most: int)
    requires world.Valid() && most == (world.timeout / POLL_SECONDS).Floor + 1
    ensures world.state.rounds <= most
  {
    var t := world.timeout;
    RunKeepsInv(world.run, world.steps, t, |world.steps|);
    assert t / POLL_SECONDS < most as real;
    RoundsAreBounded(world.state, t, most);
  }
}
