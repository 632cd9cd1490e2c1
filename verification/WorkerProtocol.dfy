/** The persistent-worker protocol of the spawn harness as a transition system:
    a child that loads, answers, fails, runs out of memory, hangs or dies, and a
    parent that sends one question at a time, gives up on it after a timeout and
    replaces both queues whenever it replaces the child.
 */
module WorkerProtocol {
  import opened Common

  /** What evaluating one question produced, tagged with the question. */
  datatype Payload = Payload(question: nat, answer: string)

  datatype Msg = Ready | Ok(payload: Option<Payload>) | Err | CudaOom

  /** One pair of queues. Tasks are question numbers. */
  datatype Channel = Channel(tasks: seq<nat>, results: seq<Msg>)

  datatype Status = Loading | Idle | Busy(question: nat) | Gone

  /** A child writes to the queues it was spawned with, for as long as it lives. */
  datatype Child = Child(gen: nat, status: Status)

  datatype Pc = Starting | LoopHead | Receiving | TimingOut | Respawning | Done | Failed

  datatype State = State(
    pc: Pc, i: nat, pq: seq<Payload>, skip: nat, timeouts: nat, errors: nat, filtered: nat,
    channels: seq<Channel>, child: Child)

  datatype Step =
    | Load
    | Take
    | Answer(answer: Option<string>)
    | Fail
    | OutOfMemory
    | Die
    | Await
    | StartTimeout
    | Send
    | Receive
    | ReceiveTimeout
    | Kill
    | Respawn

  function Start(): State {
    State(Starting, 0, [], 0, 0, 0, 0, [Channel([], [])], Child(0, Loading))
  }

  predicate Wired(s: State) {
    s.channels != [] && s.child.gen < |s.channels|
  }

  /** The queues the child holds. */
  function Held(s: State): Channel
    requires s.child.gen < |s.channels|
  {
    s.channels[s.child.gen]
  }

  /** The queues the parent holds. */
  function Current(s: State): Channel
    requires s.channels != []
  {
    s.channels[|s.channels| - 1]
  }

  function Posted(s: State, m: Msg, status: Status): State
    requires s.child.gen < |s.channels|
  {
    var c := Held(s);
    s.(channels := s.channels[s.child.gen := c.(results := c.results + [m])], child := s.child.(status := status))
  }

  function WithCurrent(s: State, c: Channel): State
    requires s.channels != []
  {
    s.(channels := s.channels[|s.channels| - 1 := c])
  }

  /** One turn of the parent's loop over a received message. An unexpected
      status is passed over without being counted. */
  function Handle(s: State, m: Msg): State {
    match m
    case Ok(None) => s.(pc := LoopHead, i := s.i + 1, skip := s.skip + 1, filtered := s.filtered + 1)
    case Ok(Some(p)) => s.(pc := LoopHead, i := s.i + 1, pq := s.pq + [p])
    case CudaOom => s.(pc := Respawning, errors := s.errors + 1, skip := s.skip + 1)
    case Err => s.(pc := LoopHead, i := s.i + 1, errors := s.errors + 1, skip := s.skip + 1)
    case Ready => s.(pc := LoopHead, i := s.i + 1)
  }

  predicate IsChildStep(step: Step) {
    step.Load? || step.Take? || step.Answer? || step.Fail? || step.OutOfMemory? || step.Die?
  }

  /** When a step can be taken. */
  predicate Can(s: State, step: Step)
    requires Wired(s)
  {
    match step
    // ----- the child -----
    case Load => s.child.status == Loading
    case Take => s.child.status == Idle && Held(s).tasks != []
    case Answer(_) | Fail | OutOfMemory => s.child.status.Busy?
    case Die => s.child.status != Gone
    // ----- the parent -----
    case Await => s.pc == Starting && Current(s).results != []
    case StartTimeout => s.pc == Starting && Current(s).results == []
    case Send => s.pc == LoopHead
    case Receive => s.pc == Receiving && Current(s).results != []
    // the wait ran out; until the kill the child may still post
    case ReceiveTimeout => s.pc == Receiving && Current(s).results == []
    case Kill => s.pc == TimingOut
    case Respawn => s.pc == Respawning
  }

  /** What it does. */
  function Do(s: State, step: Step, n: nat): State
    requires Wired(s) && Can(s, step)
  {
    match step
    case Load => Posted(s, Ready, Idle)
    case Take =>
      s.(channels := s.channels[s.child.gen := Held(s).(tasks := Held(s).tasks[1..])],
         child := s.child.(status := Busy(Held(s).tasks[0])))
    case Answer(a) => Posted(s, Ok(if a.Some? then Some(Payload(s.child.status.question, a.value)) else None), Idle)
    case Fail => Posted(s, Err, Idle)
    case OutOfMemory => Posted(s, CudaOom, Gone)
    case Die => s.(child := s.child.(status := Gone))
    case Await =>
      WithCurrent(s, Current(s).(results := Current(s).results[1..]))
      .(pc := if Current(s).results[0] == Ready then LoopHead else Failed)
    case StartTimeout => s.(pc := Failed, child := s.child.(status := Gone))
    case Send =>
      if s.i < n then WithCurrent(s, Current(s).(tasks := Current(s).tasks + [s.i])).(pc := Receiving)
      else s.(pc := Done, child := s.child.(status := Gone))
    case Receive => Handle(WithCurrent(s, Current(s).(results := Current(s).results[1..])), Current(s).results[0])
    case ReceiveTimeout => s.(pc := TimingOut)
    case Kill => s.(pc := Respawning, timeouts := s.timeouts + 1, skip := s.skip + 1, child := s.child.(status := Gone))
    case Respawn =>
      s.(pc := Starting, i := s.i + 1,
         channels := s.channels + [Channel([], [])], child := Child(|s.channels|, Loading))
  }

  ghost predicate Next(s: State, s': State, step: Step, n: nat) {
    Wired(s) && Can(s, step) && s' == Do(s, step, n)
  }

  ghost predicate IsRun(run: seq<State>, steps: seq<Step>, n: nat) {
    && |run| == |steps| + 1
    && run[0] == Start()
    && forall j | 0 <= j < |steps| :: Next(run[j], run[j + 1], steps[j], n)
  }

  // ----- invariant -----

  /** A message that answers question `q`. */
  predicate Answers(m: Msg, q: nat) {
    match m
    case Ready => false
    case Ok(Some(p)) => p.question == q
    case _ => true
  }

  /** The state of the exchange about question `s.i`. */
  ghost predicate Exchange(s: State)
    requires s.channels != []
  {
    var c := Current(s);
    match s.child.status
    case Loading => false
    case Idle => (c.tasks == [s.i] && c.results == []) || (c.tasks == [] && |c.results| == 1 && Answers(c.results[0], s.i) && c.results[0] != CudaOom)
    case Busy(q) => q == s.i && c.tasks == [] && c.results == []
    case Gone => (c.tasks == [s.i] && c.results == []) || (c.tasks == [] && (c.results == [] || (|c.results| == 1 && Answers(c.results[0], s.i))))
  }

  ghost predicate Protocol(s: State)
    requires s.channels != []
  {
    var c := Current(s);
    match s.pc
    case Starting =>
      && c.tasks == []
      && (match s.child.status
          case Loading => c.results == []
          case Idle => c.results == [Ready]
          case Busy(_) => false
          case Gone => c.results == [] || c.results == [Ready])
    case LoopHead => c.tasks == [] && c.results == [] && (s.child.status == Idle || s.child.status == Gone)
    case Receiving => Exchange(s)
    case TimingOut => Exchange(s)
    case Respawning => s.child.status == Gone
    case Done => s.child.status == Gone
    case Failed => s.child.status == Gone
  }

  /** Questions that are behind the parent, the one being replaced included. */
  function Handled(s: State): nat {
    if s.pc == Respawning then s.i + 1 else s.i
  }

  ghost predicate Accounted(s: State, n: nat) {
    && |s.pq| + s.skip == Handled(s) <= n
    && s.skip == s.timeouts + s.errors + s.filtered
    && (s.pc.Receiving? || s.pc.TimingOut? ==> s.i < n)
    && (s.pc == Done ==> s.i == n)
    && (forall j | 0 <= j < |s.pq| :: s.pq[j].question < Handled(s))
    && (forall j, k | 0 <= j < k < |s.pq| :: s.pq[j].question < s.pq[k].question)
  }

  ghost predicate Inv(s: State, n: nat) {
    && Wired(s)
    && s.child.gen == |s.channels| - 1
    && Protocol(s)
    && Accounted(s, n)
  }

  lemma ChildKeepsInv(s: State, s': State, step: Step, n: nat)
    requires Inv(s, n) && Next(s, s', step, n)
    requires IsChildStep(step)
    ensures Inv(s', n)
  {
    assert s'.channels != [];
  }

  lemma ParentKeepsInv(s: State, s': State, step: Step, n: nat)
    requires Inv(s, n) && Next(s, s', step, n)
    requires step.Await? || step.StartTimeout? || step.Send? || step.ReceiveTimeout? || step.Kill? || step.Respawn?
    ensures Inv(s', n)
  {
  }

  /** A received message answers the question just sent, and nothing else is under way. */
  lemma ReceiveKeepsInv(s: State, s': State, n: nat)
    requires Inv(s, n) && Next(s, s', Receive, n)
    ensures Inv(s', n)
    ensures Current(s).results[0] != Ready
    ensures s'.pq != s.pq ==> |s'.pq| == |s.pq| + 1 && s'.pq[..|s.pq|] == s.pq && s'.pq[|s.pq|].question == s.i
  {
  }

  lemma NextKeepsInv(s: State, s': State, step: Step, n: nat)
    requires Inv(s, n) && Next(s, s', step, n)
    ensures Inv(s', n)
  {
    match step
    case Receive => ReceiveKeepsInv(s, s', n);
    case Load | Take | Answer(_) | Fail | OutOfMemory | Die => ChildKeepsInv(s, s', step, n);
    case _ => ParentKeepsInv(s, s', step, n);
  }

  lemma {:induction false} RunKeepsInv(run: seq<State>, steps: seq<Step>, n: nat, j: nat)
    requires IsRun(run, steps, n) && j < |run|
    ensures Inv(run[j], n)
  {
    if j != 0 {
      RunKeepsInv(run, steps, n, j - 1);
      NextKeepsInv(run[j - 1], run[j], steps[j - 1], n);
    }
  }

  // ----- results -----

  /** Main result: in every run, a step that appends a payload during iteration
      `i` appends the evaluation of question `i`; a result that comes late is
      never taken for a later question. No other step touches the list. */
  lemma PayloadBelongsToItsIteration(run: seq<State>, steps: seq<Step>, n: nat, j: nat)
    requires IsRun(run, steps, n) && j < |steps| && run[j + 1].pq != run[j].pq
    ensures steps[j] == Receive && |run[j + 1].pq| == |run[j].pq| + 1 && run[j + 1].pq[..|run[j].pq|] == run[j].pq
    ensures run[j + 1].pq[|run[j].pq|].question == run[j].i
  {
    RunKeepsInv(run, steps, n, j);
    assert Next(run[j], run[j + 1], steps[j], n);
    if steps[j] == Receive {
      ReceiveKeepsInv(run[j], run[j + 1], n);
    }
  }

  /** The branch that skips an unexpected status is never taken. */
  lemma NoUnexpectedStatus(run: seq<State>, steps: seq<Step>, n: nat, j: nat)
    requires IsRun(run, steps, n) && j < |steps| && steps[j] == Receive
    ensures run[j].channels != [] && Current(run[j]).results != [] && Answers(Current(run[j]).results[0], run[j].i)
  {
    RunKeepsInv(run, steps, n, j);
    assert Next(run[j], run[j + 1], steps[j], n);
  }

  /** Main result: at every loop head each question handled was evaluated or
      skipped, once, in order; every skip has its reason. */
  lemma NothingIsLost(run: seq<State>, steps: seq<Step>, n: nat, j: nat)
    requires IsRun(run, steps, n) && j < |run| && run[j].pc in {LoopHead, Done}
    ensures var s := run[j];
            && |s.pq| + s.skip == s.i
            && s.skip == s.timeouts + s.errors + s.filtered
            && (s.pc == Done ==> |s.pq| + s.skip == n)
            && (forall a, b | 0 <= a < b < |s.pq| :: s.pq[a].question < s.pq[b].question)
            && (forall a | 0 <= a < |s.pq| :: s.pq[a].question < s.i)
  {
    RunKeepsInv(run, steps, n, j);
  }

  /** A result can arrive late, between the timeout and the kill. It stays on
      queues that nobody reads again: the next loop head has the same payloads,
      and the current queues are new and empty. */
  lemma LateResultIsAbandoned(run: seq<State>, steps: seq<Step>, n: nat, a: string)
    returns (s1: State, s2: State, s3: State)
    requires IsRun(run, steps, n)
    requires run[|steps|].pc == TimingOut && run[|steps|].child.status.Busy?
    ensures IsRun(run + [s1, s2, s3], steps + [Answer(Some(a)), Kill, Respawn], n)
    ensures var s := run[|steps|];
            && s3.pc == Starting && s3.i == s.i + 1 && s3.pq == s.pq
            && |s3.channels| == |s.channels| + 1 && Current(s3) == Channel([], [])
            && s.child.gen < |s.channels| && s3.channels[s.child.gen].results == [Ok(Some(Payload(s.i, a)))]
  {
    var s := run[|steps|];
    RunKeepsInv(run, steps, n, |steps|);
    s1 := Posted(s, Ok(Some(Payload(s.i, a))), Idle);
    s2 := s1.(pc := Respawning, timeouts := s1.timeouts + 1, skip := s1.skip + 1, child := s1.child.(status := Gone));
    s3 := s2.(pc := Starting, i := s2.i + 1,
              channels := s2.channels + [Channel([], [])], child := Child(|s2.channels|, Loading));
    assert Next(s, s1, Answer(Some(a)), n) && Next(s1, s2, Kill, n) && Next(s2, s3, Respawn, n);
    Extend(run, steps, n, s1, Answer(Some(a)));
    Extend(run + [s1], steps + [Answer(Some(a))], n, s2, Kill);
    Extend(run + [s1] + [s2], steps + [Answer(Some(a))] + [Kill], n, s3, Respawn);
    assert run + [s1] + [s2] + [s3] == run + [s1, s2, s3];
    assert steps + [Answer(Some(a))] + [Kill] + [Respawn] == steps + [Answer(Some(a)), Kill, Respawn];
  }

  lemma Extend(run: seq<State>, steps: seq<Step>, n: nat, s: State, step: Step)
    requires IsRun(run, steps, n) && Next(run[|steps|], s, step, n)
    ensures IsRun(run + [s], steps + [step], n)
  {
  }

  // ----- where the results come from -----

  /** The child of generation `g` answered with `p` before step `j`. */
  ghost predicate AnsweredBefore(run: seq<State>, steps: seq<Step>, j: nat, g: nat, p: Payload) {
    exists i: nat :: AnsweredAt(run, steps, i, g, p) && i < j
  }

  ghost predicate AnsweredAt(run: seq<State>, steps: seq<Step>, i: nat, g: nat, p: Payload) {
    && i < |steps| && i < |run|
    && steps[i] == Answer(Some(p.answer))
    && run[i].child == Child(g, Busy(p.question))
  }

  predicate Holding(s: State, g: nat, m: Msg) {
    g < |s.channels| && m in s.channels[g].results
  }

  /** A payload on a queue was there before, or is the answer just given. */
  lemma PayloadIsPosted(s: State, s': State, step: Step, n: nat, g: nat, p: Payload)
    requires Next(s, s', step, n) && Holding(s', g, Ok(Some(p)))
    ensures Holding(s, g, Ok(Some(p))) || (step == Answer(Some(p.answer)) && s.child == Child(g, Busy(p.question)))
  {
    match step
    case Load | Fail | OutOfMemory => PostedHolds(s, g, Ok(Some(p)), step, n);
    case Answer(_) => PostedHolds(s, g, Ok(Some(p)), step, n);
    case Await | Receive => RestHolds(s, s', step, n, g, Ok(Some(p)));
    case _ =>
  }

  lemma PostedHolds(s: State, g: nat, m: Msg, step: Step, n: nat)
    requires Wired(s) && Can(s, step) && (step.Load? || step.Answer? || step.Fail? || step.OutOfMemory?)
    requires Holding(Do(s, step, n), g, m)
    ensures Holding(s, g, m) || (g == s.child.gen && Do(s, step, n) == Posted(s, m, Do(s, step, n).child.status))
  {
    if g == s.child.gen {
      var posted := Do(s, step, n).channels[g].results;
      var k :| 0 <= k < |posted| && posted[k] == m;
      assert k < |Held(s).results| ==> Held(s).results[k] == m;
    }
  }

  lemma RestHolds(s: State, s': State, step: Step, n: nat, g: nat, m: Msg)
    requires Next(s, s', step, n) && (step.Await? || step.Receive?) && Holding(s', g, m)
    ensures Holding(s, g, m)
  {
    var k :| 0 <= k < |s'.channels[g].results| && s'.channels[g].results[k] == m;
    if g == |s.channels| - 1 {
      assert s'.channels[g].results == Current(s).results[1..];
      assert Current(s).results[k + 1] == m;
    } else {
      assert s'.channels[g] == s.channels[g];
    }
  }

  /** Whatever payload stands on a queue was put there by the child that holds it. */
  lemma {:induction false} PostedByItsChild(run: seq<State>, steps: seq<Step>, n: nat, j: nat, g: nat, p: Payload)
    requires IsRun(run, steps, n) && j < |run| && Holding(run[j], g, Ok(Some(p)))
    ensures AnsweredBefore(run, steps, j, g, p)
    decreases j
  {
    if j != 0 {
      assert Next(run[j - 1], run[j], steps[j - 1], n);
      PayloadIsPosted(run[j - 1], run[j], steps[j - 1], n, g, p);
      if Holding(run[j - 1], g, Ok(Some(p))) {
        PostedByItsChild(run, steps, n, j - 1, g, p);
      } else {
        assert AnsweredAt(run, steps, j - 1, g, p);
      }
    }
  }

  lemma GrowsByTheReceived(s: State, s': State, step: Step, n: nat)
    requires Inv(s, n) && Next(s, s', step, n) && s'.pq != s.pq
    ensures step == Receive && Current(s).results[0].Ok? && Current(s).results[0].payload.Some?
    ensures s'.pq == s.pq + [Current(s).results[0].payload.value]
    ensures Current(s).results[0].payload.value.question == s.i
  {
  }

  /** Main result: a step that appends to the payloads appends what the current
      child answered, at an earlier step, to the question of this iteration. */
  lemma PayloadIsTheChildsAnswer(run: seq<State>, steps: seq<Step>, n: nat, j: nat) returns (i: nat, a: string)
    requires IsRun(run, steps, n) && j < |steps| && run[j + 1].pq != run[j].pq
    ensures i < j && steps[i] == Answer(Some(a)) && run[i].child == Child(run[j].child.gen, Busy(run[j].i))
    ensures run[j + 1].pq == run[j].pq + [Payload(run[j].i, a)]
  {
    RunKeepsInv(run, steps, n, j);
    assert Next(run[j], run[j + 1], steps[j], n);
    GrowsByTheReceived(run[j], run[j + 1], steps[j], n);
    var m := Current(run[j]).results[0];
    assert m in Current(run[j]).results;
    PostedByItsChild(run, steps, n, j, run[j].child.gen, m.payload.value);
    i :| AnsweredAt(run, steps, i, run[j].child.gen, m.payload.value) && i < j;
    a := m.payload.value.answer;
  }

  /** Every payload of the totals is some child's answer to that payload's question. */
  ghost predicate Answered(run: seq<State>, steps: seq<Step>, p: Payload) {
    exists i | 0 <= i < |steps| && i < |run| ::
      steps[i] == Answer(Some(p.answer)) && run[i].child.status == Busy(p.question)
  }

  lemma {:induction false} EveryPayloadWasAnswered(run: seq<State>, steps: seq<Step>, n: nat, j: nat, k: nat)
    requires IsRun(run, steps, n) && j < |run| && k < |run[j].pq|
    ensures Answered(run, steps, run[j].pq[k])
    decreases j
  {
    if j != 0 {
      if run[j].pq == run[j - 1].pq {
        EveryPayloadWasAnswered(run, steps, n, j - 1, k);
      } else {
        var i, a := PayloadIsTheChildsAnswer(run, steps, n, j - 1);
        if k < |run[j - 1].pq| {
          EveryPayloadWasAnswered(run, steps, n, j - 1, k);
        }
      }
    }
  }

  // ----- what the totals count -----

  /** What the parent takes from its queue when it receives in state `s`. */
  function Received(s: State): Option<Msg> {
    if s.channels == [] || Current(s).results == [] then None else Some(Current(s).results[0])
  }

  ghost function Kills(steps: seq<Step>, j: nat): set<nat> {
    set i: nat | i < j && i < |steps| && steps[i] == Kill
  }

  /** The steps before `j` at which the parent received such a message. */
  ghost function Receipts(run: seq<State>, steps: seq<Step>, j: nat, such: Msg -> bool): set<nat> {
    set i: nat | i < j && i < |steps| && i < |run| && ReceivesAt(run, steps, i, such)
  }

  predicate ReceivesAt(run: seq<State>, steps: seq<Step>, i: nat, such: Msg -> bool) {
    i < |steps| && i < |run| && steps[i] == Receive && Received(run[i]).Some? && such(Received(run[i]).value)
  }

  predicate IsError(m: Msg) {
    m == Err || m == CudaOom
  }

  predicate IsFiltered(m: Msg) {
    m == Ok(None)
  }

  predicate IsEvaluated(m: Msg) {
    m.Ok? && m.payload.Some?
  }

  lemma ReceiptsStep(run: seq<State>, steps: seq<Step>, j: nat, such: Msg -> bool)
    requires j < |steps| && j < |run|
    ensures |Receipts(run, steps, j + 1, such)| ==
            |Receipts(run, steps, j, such)| + if ReceivesAt(run, steps, j, such) then 1 else 0
  {
    var before := Receipts(run, steps, j, such);
    assert Receipts(run, steps, j + 1, such) == if ReceivesAt(run, steps, j, such) then before + {j} else before;
  }

  lemma KillsStep(steps: seq<Step>, j: nat)
    requires j < |steps|
    ensures |Kills(steps, j + 1)| == |Kills(steps, j)| + if steps[j] == Kill then 1 else 0
  {
    assert Kills(steps, j + 1) == if steps[j] == Kill then Kills(steps, j) + {j} else Kills(steps, j);
  }

  lemma CountersMove(s: State, s': State, step: Step, n: nat)
    requires Inv(s, n) && Next(s, s', step, n)
    ensures s'.timeouts == s.timeouts + if step == Kill then 1 else 0
    ensures var m := if step == Receive then Received(s) else None;
            && s'.errors == s.errors + (if m.Some? && IsError(m.value) then 1 else 0)
            && s'.filtered == s.filtered + (if m.Some? && IsFiltered(m.value) then 1 else 0)
            && |s'.pq| == |s.pq| + (if m.Some? && IsEvaluated(m.value) then 1 else 0)
  {
  }

  /** The counters of state `j` are numbers of steps of the run before it. */
  ghost predicate CountersOf(run: seq<State>, steps: seq<Step>, j: nat)
    requires j < |run|
  {
    && run[j].timeouts == |Kills(steps, j)|
    && run[j].errors == |Receipts(run, steps, j, IsError)|
    && run[j].filtered == |Receipts(run, steps, j, IsFiltered)|
    && |run[j].pq| == |Receipts(run, steps, j, IsEvaluated)|
  }

  /** Main result: timeouts are the kills, errors the failures received, and
      there is one payload for every evaluation received. */
  lemma {:induction false} TotalsCount(run: seq<State>, steps: seq<Step>, n: nat, j: nat)
    requires IsRun(run, steps, n) && j < |run|
    ensures CountersOf(run, steps, j)
    decreases j
  {
    if j == 0 {
      assert Kills(steps, 0) == {};
      assert Receipts(run, steps, 0, IsError) == {} == Receipts(run, steps, 0, IsFiltered);
      assert Receipts(run, steps, 0, IsEvaluated) == {};
    } else {
      var i := j - 1;
      TotalsCount(run, steps, n, i);
      RunKeepsInv(run, steps, n, i);
      assert Next(run[i], run[j], steps[i], n);
      CountersMove(run[i], run[j], steps[i], n);
      KillsStep(steps, i);
      ReceiptsStep(run, steps, i, IsError);
      ReceiptsStep(run, steps, i, IsFiltered);
      ReceiptsStep(run, steps, i, IsEvaluated);
    }
  }

  // ----- a child that is lost is replaced -----

  /** The child of generation `g` is out of memory or killed: it has been
      replaced, is about to be, or its last message is still unread. */
  ghost predicate Retired(s: State, g: nat)
    requires s.channels != []
  {
    || g < s.child.gen
    || s.pc == Respawning
    || ((s.pc == Receiving || s.pc == TimingOut) && s.child.status == Gone && Current(s).results == [CudaOom])
  }

  lemma RetiredStays(s: State, s': State, step: Step, n: nat, g: nat)
    requires Inv(s, n) && Next(s, s', step, n) && g <= s.child.gen
    requires Retired(s, g) || step == OutOfMemory || step == Kill
    ensures g <= s'.child.gen && Inv(s', n) && Retired(s', g)
  {
    NextKeepsInv(s, s', step, n);
  }

  lemma {:induction false} StaysRetired(run: seq<State>, steps: seq<Step>, n: nat, i: nat, j: nat)
    requires IsRun(run, steps, n) && i < j < |run| && (steps[i] == OutOfMemory || steps[i] == Kill)
    ensures run[i].child.gen <= run[j].child.gen && run[j].channels != [] && Retired(run[j], run[i].child.gen)
    decreases j
  {
    RunKeepsInv(run, steps, n, j - 1);
    assert Next(run[j - 1], run[j], steps[j - 1], n);
    if i + 1 < j {
      StaysRetired(run, steps, n, i, j - 1);
    }
    RetiredStays(run[j - 1], run[j], steps[j - 1], n, run[i].child.gen);
  }

  /** Main result: no question is sent to a child that ran out of memory or was
      killed; at every loop head a younger one is in its place. */
  lemma LostChildIsReplaced(run: seq<State>, steps: seq<Step>, n: nat, i: nat, j: nat)
    requires IsRun(run, steps, n) && i < j < |run| && run[j].pc == LoopHead
    requires steps[i] == OutOfMemory || steps[i] == Kill
    ensures run[i].child.gen < run[j].child.gen
  {
    StaysRetired(run, steps, n, i, j);
  }
}
