/** The question loop of the spawn harness as it is written, run against a worker
    process that may move between any two of the parent's calls.
 */
module WorkerLoop {
  import opened Common
  import opened WorkerProtocol

  /** The parent's handle on the worker: its process and the current queues, with
      all the queues that were abandoned. Before each call, the child makes those
      moves that `schedule` names and that are possible. The ghost fields record
      the run so far. */
  class Worker {
    const n: nat
    const schedule: nat -> seq<Step>
    var calls: nat
    var state: State
    ghost var run: seq<State>
    ghost var steps: seq<Step>

    ghost predicate Valid()
      reads this
    {
      IsRun(run, steps, n) && run[|steps|] == state && Inv(state, n)
    }

    constructor (n: nat, schedule: nat -> seq<Step>)
      ensures Valid() && state == Start() && this.n == n
    {
      this.n, this.schedule := n, schedule;
      calls, state := 0, Start();
      run, steps := [Start()], [];
    }

    method Take(step: Step)
      requires Valid() && Can(state, step)
      modifies `state, `run, `steps
      ensures Valid() && state == Do(old(state), step, n)
    {
      state := Do(state, step, n);
      Extend(run, steps, n, state, step);
      run, steps := run + [state], steps + [step];
      RunKeepsInv(run, steps, n, |steps|);
    }

    /** What the parent knows: no move of the child touches it. */
    ghost predicate SameParent(before: State)
      reads this
    {
      && state.pc == before.pc && state.i == before.i && state.pq == before.pq
      && state.skip == before.skip && state.timeouts == before.timeouts && state.errors == before.errors
    }

    method Elapse()
      requires Valid()
      modifies `calls, `state, `run, `steps
      ensures Valid() && SameParent(old(state))
    {
      var moves := schedule(calls);
      calls := calls + 1;
      for j := 0 to |moves|
        invariant Valid() && SameParent(old(state))
      {
        if IsChildStep(moves[j]) && Can(state, moves[j]) {
          Take(moves[j]);
        }
      }
    }

    /** The end of `_spawn`: wait for the worker to say that it is ready. */
    method AwaitReady() returns (ready: bool)
      requires Valid() && state.pc == Starting
      modifies `calls, `state, `run, `steps
      ensures Valid() && ready == (state.pc == LoopHead) && (!ready ==> state.pc == Failed)
      ensures state.i == old(state.i) && state.pq == old(state.pq)
      ensures state.skip == old(state.skip) && state.timeouts == old(state.timeouts) && state.errors == old(state.errors)
    {
      Elapse();
      Take(if Current(state).results == [] then StartTimeout else Await);
      ready := state.pc == LoopHead;
    }

    method Send()
      requires Valid() && state.pc == LoopHead && state.i < n
      modifies `calls, `state, `run, `steps
      ensures Valid() && state.pc == Receiving && state.i == old(state.i) && state.pq == old(state.pq)
      ensures state.skip == old(state.skip) && state.timeouts == old(state.timeouts) && state.errors == old(state.errors)
    {
      Elapse();
      Take(WorkerProtocol.Send);
    }

    /** A message, or nothing when the wait runs out. */
    method Recv() returns (m: Option<Msg>)
      requires Valid() && state.pc == Receiving
      modifies `calls, `state, `run, `steps
      ensures Valid()
      ensures m.None? ==> state.pc == TimingOut && state.i == old(state.i) && state.pq == old(state.pq)
                          && state.skip == old(state.skip) && state.timeouts == old(state.timeouts)
                          && state.errors == old(state.errors)
      ensures m.Some? ==> Answers(m.value, old(state.i)) && SameParent(Handle(old(state), m.value))
    {
      Elapse();
      if Current(state).results == [] {
        m := None;
        Take(ReceiveTimeout);
      } else {
        m := Some(Current(state).results[0]);
        Take(Receive);
      }
    }

    /** The worker is gone for good once this returns; until then it may still post. */
    method KillAfterTimeout()
      requires Valid() && state.pc == TimingOut
      modifies `calls, `state, `run, `steps
      ensures Valid() && state.pc == Respawning && state.i == old(state.i) && state.pq == old(state.pq)
      ensures state.skip == old(state.skip) + 1 && state.timeouts == old(state.timeouts) + 1
      ensures state.errors == old(state.errors)
    {
      Elapse();
      Take(Kill);
    }

    /** Both queues are replaced, and a new child gets the new ones. */
    method RespawnWorker() returns (ready: bool)
      requires Valid() && state.pc == Respawning
      modifies `calls, `state, `run, `steps
      ensures Valid() && ready == (state.pc == LoopHead) && (!ready ==> state.pc == Failed)
      ensures state.i == old(state.i) + 1 && state.pq == old(state.pq)
      ensures state.skip == old(state.skip) && state.timeouts == old(state.timeouts) && state.errors == old(state.errors)
    {
      Take(Respawn);
      ready := AwaitReady();
    }
  }

  /** What `main` hands on. */
  datatype Totals = Totals(pq: seq<Payload>, skip: nat, timeouts: nat, errors: nat)

  ghost predicate Increasing(pq: seq<Payload>, below: nat) {
    && (forall a, b | 0 <= a < b < |pq| :: pq[a].question < pq[b].question)
    && (forall a | 0 <= a < |pq| :: pq[a].question < below)
  }

  /** The totals in terms of the run: each payload is what a child answered, one
      for every evaluation received; timeouts are kills and errors are failures
      received. */
  ghost predicate Earned(t: Totals, run: seq<State>, steps: seq<Step>) {
    && (forall p | p in t.pq :: Answered(run, steps, p))
    && |t.pq| == |Receipts(run, steps, |steps|, IsEvaluated)|
    && t.timeouts == |Kills(steps, |steps|)|
    && t.errors == |Receipts(run, steps, |steps|, IsError)|
    && t.skip == t.timeouts + t.errors + |Receipts(run, steps, |steps|, IsFiltered)|
  }

  lemma TotalsAreEarned(run: seq<State>, steps: seq<Step>, n: nat, t: Totals)
    requires IsRun(run, steps, n)
    requires var s := run[|steps|]; t.pq == s.pq && t.skip == s.skip && t.timeouts == s.timeouts && t.errors == s.errors
    ensures Earned(t, run, steps)
  {
    RunKeepsInv(run, steps, n, |steps|);
    TotalsCount(run, steps, n, |steps|);
    forall p | p in t.pq
      ensures Answered(run, steps, p)
    {
      var k :| 0 <= k < |t.pq| && t.pq[k] == p;
      EveryPayloadWasAnswered(run, steps, n, |steps|, k);
    }
  }

  /** Main result: for every schedule the loop ends. Unless a start fails, every
      question was evaluated or skipped; the payloads are those of different
      questions, in order; no timeout and no error went uncounted. */
  method EvaluateAll(worker: Worker) returns (totals: Option<Totals>)
    requires worker.Valid() && worker.state == Start()
    modifies worker
    ensures worker.Valid()
    ensures totals.None? ==> worker.state.pc == Failed
    ensures totals.Some? ==>
              && var t := totals.value;
              && worker.state.pc == LoopHead && worker.state.i == worker.n
              && |t.pq| + t.skip == worker.n && t.timeouts + t.errors <= t.skip
              && Increasing(t.pq, worker.n) && t.pq == worker.state.pq
    ensures totals.Some? ==> Earned(totals.value, worker.run, worker.steps)
  {
    var pq: seq<Payload> := [];
    var skip, timeouts, errors := 0, 0, 0;
    var ready := worker.AwaitReady();
    if !ready {
      return None;
    }
    for i := 0 to worker.n
      invariant worker.Valid() && worker.state.pc == LoopHead && worker.state.i == i
      invariant pq == worker.state.pq && skip == worker.state.skip
      invariant timeouts == worker.state.timeouts && errors == worker.state.errors
    {
      worker.Send();
      var m := worker.Recv();
      if m.None? {
        worker.KillAfterTimeout();
        timeouts := timeouts + 1;
        skip := skip + 1;
        ready := worker.RespawnWorker();
        if !ready {
          return None;
        }
        continue;
      }
      match m.value
      case Ok(None) => skip := skip + 1;
      case Ok(Some(p)) => pq := pq + [p];
      case CudaOom =>
        errors := errors + 1;
        skip := skip + 1;
        ready := worker.RespawnWorker();
        if !ready {
          return None;
        }
      case Err =>
        errors := errors + 1;
        skip := skip + 1;
      case Ready =>
    }
    totals := Some(Totals(pq, skip, timeouts, errors));
    TotalsAreEarned(worker.run, worker.steps, worker.n, totals.value);
  }
}
