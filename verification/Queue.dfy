/** The inference queue: a counter of requests in flight, and a semaphore of permits.

    Each action is one atomic access by one task; any interleaving is a run. Between the capacity
    check and the increment there is no await, so a task cannot be cancelled there, but other
    threads may act. Dropping a task's locals releases the permit first and the guard second. */
module Queue {
  import opened Prelude

  type Task = nat

  datatype Phase = Arrived | Checked | Waiting | Holding | Leaving | Rejected | Gone

  datatype State = State(waiting: int, permits: int, maxWaiting: nat, maxParallel: nat,
                         phase: map<Task, Phase>)

  datatype Action =
    | Arrive(task: Task)
    | Check(task: Task)
    | Enter(task: Task)
    | Acquire(task: Task)
    | ReleasePermit(task: Task)
    | DropGuard(task: Task)
    | SetMaxWaiting(max: nat)

  function New(maxWaiting: nat, maxParallel: nat): State {
    State(0, Max(maxParallel, 1), maxWaiting, Max(maxParallel, 1), map[])
  }

  predicate In(q: State, t: Task, p: Phase) {
    t in q.phase && q.phase[t] == p
  }

  /** The counter says there is no room. Zero means no limit. */
  predicate Full(q: State) {
    q.maxWaiting != 0 && q.waiting >= q.maxWaiting
  }

  predicate Enabled(q: State, a: Action) {
    match a
    case Arrive(t) => t !in q.phase
    case Check(t) => In(q, t, Arrived)
    case Enter(t) => In(q, t, Checked)
    case Acquire(t) => In(q, t, Waiting) && q.permits > 0
    case ReleasePermit(t) => In(q, t, Holding)
    case DropGuard(t) => In(q, t, Waiting) || In(q, t, Leaving)
    case SetMaxWaiting(_) => true
  }

  /** `DropGuard` from `Waiting` is a cancellation; `ReleasePermit` is the end of the inner call
      or a cancellation of it. */
  function Step(q: State, a: Action): State
    requires Enabled(q, a)
  {
    match a
    case Arrive(t) => q.(phase := q.phase[t := Arrived])
    case Check(t) => q.(phase := q.phase[t := if Full(q) then Rejected else Checked])
    case Enter(t) => q.(waiting := q.waiting + 1, phase := q.phase[t := Waiting])
    case Acquire(t) => q.(permits := q.permits - 1, phase := q.phase[t := Holding])
    case ReleasePermit(t) => q.(permits := q.permits + 1, phase := q.phase[t := Leaving])
    case DropGuard(t) => q.(waiting := q.waiting - 1, phase := q.phase[t := Gone])
    case SetMaxWaiting(max) => q.(maxWaiting := max)
  }

  // ---- the shared object ----

  /** `phase` is a ghost record of where the tasks are; the code has only the counters. */
  class InferenceQueue {
    var waiting: int
    var permits: int
    var maxWaiting: nat
    const maxParallel: nat
    ghost var phase: map<Task, Phase>

    ghost function View(): State
      reads this
    {
      State(waiting, permits, maxWaiting, maxParallel, phase)
    }

    constructor (maxWaiting: nat, maxParallel: nat)
      ensures View() == New(maxWaiting, maxParallel)
    {
      this.maxWaiting, this.maxParallel := maxWaiting, Max(maxParallel, 1);
      waiting, permits, phase := 0, Max(maxParallel, 1), map[];
    }

    method CheckCapacity(ghost t: Task) returns (ok: bool)
      requires In(View(), t, Arrived)
      modifies this`phase
      ensures View() == Step(old(View()), Check(t))
      ensures ok <==> old(maxWaiting) == 0 || old(waiting) < old(maxWaiting)
    {
      ok := true;
      if maxWaiting != 0 {
        if waiting >= maxWaiting {
          ok := false;
        }
      }
      phase := phase[t := if ok then Checked else Rejected];
    }

    method FetchAdd(ghost t: Task)
      requires In(View(), t, Checked)
      modifies this`waiting, this`phase
      ensures View() == Step(old(View()), Enter(t))
    {
      waiting := waiting + 1;
      phase := phase[t := Waiting];
    }

    /** The semaphore hands out a permit, or the task goes on waiting. */
    method TryAcquire(ghost t: Task) returns (got: bool)
      requires In(View(), t, Waiting)
      modifies this`permits, this`phase
      ensures got <==> old(permits) > 0
      ensures View() == if got then Step(old(View()), Acquire(t)) else old(View())
    {
      got := permits > 0;
      if got {
        permits := permits - 1;
        phase := phase[t := Holding];
      }
    }

    method DropPermit(ghost t: Task)
      requires In(View(), t, Holding)
      modifies this`permits, this`phase
      ensures View() == Step(old(View()), ReleasePermit(t))
    {
      permits := permits + 1;
      phase := phase[t := Leaving];
    }

    method DropWaitGuard(ghost t: Task)
      requires Enabled(View(), DropGuard(t))
      modifies this`waiting, this`phase
      ensures View() == Step(old(View()), DropGuard(t))
    {
      waiting := waiting - 1;
      phase := phase[t := Gone];
    }

    method SetMax(max: nat)
      modifies this`maxWaiting
      ensures View() == Step(old(View()), SetMaxWaiting(max))
    {
      maxWaiting := max;
    }
  }

  // ---- runs ----

  predicate CanRun(q: State, actions: seq<Action>)
    decreases |actions|
  {
    actions == [] || (Enabled(q, actions[0]) && CanRun(Step(q, actions[0]), actions[1..]))
  }

  function Run(q: State, actions: seq<Action>): State
    requires CanRun(q, actions)
    decreases |actions|
  {
    if actions == [] then q else Run(Step(q, actions[0]), actions[1..])
  }

  /** The tasks in one of these phases. */
  function Among(phase: map<Task, Phase>, kinds: set<Phase>): set<Task> {
    set t | t in phase && phase[t] in kinds
  }

  const GUARDED: set<Phase> := {Waiting, Holding, Leaving}

  /** The counter is the number of live guards, and permits plus holders are `maxParallel`. */
  ghost predicate Inv(q: State) {
    && q.waiting == |Among(q.phase, GUARDED)|
    && q.permits + |Among(q.phase, {Holding})| == q.maxParallel
    && q.permits >= 0
  }

  lemma AmongUpdate(phase: map<Task, Phase>, t: Task, p: Phase, kinds: set<Phase>)
    ensures Among(phase[t := p], kinds) ==
            if p in kinds then Among(phase, kinds) + {t} else Among(phase, kinds) - {t}
    ensures |Among(phase[t := p], kinds)| == |Among(phase, kinds)|
            + (if p in kinds then 1 else 0) - (if t in phase && phase[t] in kinds then 1 else 0)
  {
    var before, after := Among(phase, kinds), Among(phase[t := p], kinds);
    assert after == if p in kinds then before + {t} else before - {t};
  }

  lemma StepKeepsInv(q: State, a: Action)
    requires Inv(q) && Enabled(q, a)
    ensures Inv(Step(q, a))
  {
    if !a.SetMaxWaiting? {
      var p := Step(q, a).phase[a.task];
      assert Step(q, a).phase == q.phase[a.task := p];
      AmongUpdate(q.phase, a.task, p, GUARDED);
      AmongUpdate(q.phase, a.task, p, {Holding});
    }
  }

  /** In every interleaving, cancellation and limit changes included. */
  lemma {:induction false} RunKeepsInv(q: State, actions: seq<Action>)
    requires Inv(q) && CanRun(q, actions)
    ensures Inv(Run(q, actions))
    decreases |actions|
  {
    if actions != [] {
      StepKeepsInv(q, actions[0]);
      RunKeepsInv(Step(q, actions[0]), actions[1..]);
    }
  }

  /** From the start: counters are exact, never negative, and at most `maxParallel` tasks hold a
      permit at once. */
  lemma QueueCounters(maxWaiting: nat, maxParallel: nat, actions: seq<Action>)
    requires CanRun(New(maxWaiting, maxParallel), actions)
    ensures var q := Run(New(maxWaiting, maxParallel), actions);
      Inv(q) && q.waiting >= 0 && |Among(q.phase, {Holding})| <= q.maxParallel
  {
    assert Among(map[], GUARDED) == {} && Among(map[], {Holding}) == {};
    RunKeepsInv(New(maxWaiting, maxParallel), actions);
  }

  // ---- how far the counter can overshoot ----

  /** Tasks between the check and the increment. */
  function InBetween(q: State): set<Task> {
    Among(q.phase, {Checked})
  }

  /** The limit stays as it is, and never more than `threads` tasks are in between. */
  ghost predicate AtMost(q: State, actions: seq<Action>, threads: nat)
    requires CanRun(q, actions)
    decreases |actions|
  {
    && |InBetween(q)| <= threads
    && (actions != [] ==> !actions[0].SetMaxWaiting? && AtMost(Step(q, actions[0]), actions[1..], threads))
  }

  /** Those counted and those about to be. */
  function Committed(q: State): int {
    q.waiting + |InBetween(q)|
  }

  lemma StepBound(q: State, a: Action, threads: nat)
    requires Enabled(q, a) && !a.SetMaxWaiting? && q.maxWaiting > 0
    requires Committed(q) <= q.maxWaiting + threads - 1 && |InBetween(Step(q, a))| <= threads
    ensures Committed(Step(q, a)) <= q.maxWaiting + threads - 1
    ensures Step(q, a).maxWaiting == q.maxWaiting
  {
    AmongUpdate(q.phase, a.task, Step(q, a).phase[a.task], {Checked});
  }

  lemma {:induction false} RunBound(q: State, actions: seq<Action>, threads: nat)
    requires CanRun(q, actions) && AtMost(q, actions, threads)
    requires q.maxWaiting > 0 && Committed(q) <= q.maxWaiting + threads - 1
    ensures Run(q, actions).waiting <= q.maxWaiting + threads - 1
    decreases |actions|
  {
    if actions != [] {
      StepBound(q, actions[0], threads);
      RunBound(Step(q, actions[0]), actions[1..], threads);
    }
  }

  /** With a fixed nonzero limit the counter never exceeds it by `threads` or more. */
  lemma WaitingIsBounded(maxWaiting: nat, maxParallel: nat, actions: seq<Action>, threads: nat)
    requires maxWaiting > 0 && CanRun(New(maxWaiting, maxParallel), actions)
    requires AtMost(New(maxWaiting, maxParallel), actions, threads)
    ensures Run(New(maxWaiting, maxParallel), actions).waiting <= maxWaiting + threads - 1
  {
    assert InBetween(New(maxWaiting, maxParallel)) == {};
    RunBound(New(maxWaiting, maxParallel), actions, threads);
  }

  // ---- the bound is reached ----

  /** Tasks below `a` wait, tasks from `a` up to `b` are in between. */
  ghost predicate Lined(q: State, maxWaiting: nat, a: nat, b: nat) {
    && q.waiting == a && q.maxWaiting == maxWaiting
    && (forall t: Task :: t in q.phase <==> t < b)
    && (forall t: Task :: t in q.phase ==> q.phase[t] == if t < a then Waiting else Checked)
  }

  function Upto(a: nat, b: nat): (r: set<Task>)
    requires a <= b
    ensures forall t: Task :: t in r <==> a <= t < b
    ensures |r| == b - a
  {
    if a == b then {} else Upto(a, b - 1) + {b - 1}
  }

  lemma LinedInBetween(q: State, maxWaiting: nat, a: nat, b: nat, threads: nat)
    requires Lined(q, maxWaiting, a, b) && a <= b <= a + threads
    ensures |InBetween(q)| <= threads
  {
    assert InBetween(q) == Upto(a, b);
  }

  /** One more task passes the check while the counter is below the limit. */
  lemma OneMore(q: State, maxWaiting: nat, a: nat, b: nat, threads: nat) returns (r: State)
    requires Lined(q, maxWaiting, a, b) && a < maxWaiting && a <= b < a + threads
    ensures CanRun(q, [Arrive(b), Check(b)]) && AtMost(q, [Arrive(b), Check(b)], threads)
    ensures r == Run(q, [Arrive(b), Check(b)]) && Lined(r, maxWaiting, a, b + 1)
  {
    var q1 := Step(q, Arrive(b));
    r := Step(q1, Check(b));
    assert [Arrive(b), Check(b)][1..] == [Check(b)] && [Check(b)][1..] == [];
    assert CanRun(r, []) && CanRun(q1, [Check(b)]);
    LinedInBetween(q, maxWaiting, a, b, threads);
    AmongUpdate(q.phase, b, Arrived, {Checked});
    LinedInBetween(r, maxWaiting, a, b + 1, threads);
    assert AtMost(r, [], threads) && AtMost(q1, [Check(b)], threads);
    assert Run(r, []) == r && Run(q1, [Check(b)]) == r;
  }

  lemma {:induction false} RunConcat(q: State, x: seq<Action>, y: seq<Action>, threads: nat)
    requires CanRun(q, x) && CanRun(Run(q, x), y)
    requires AtMost(q, x, threads) && AtMost(Run(q, x), y, threads)
    ensures CanRun(q, x + y) && AtMost(q, x + y, threads) && Run(q, x + y) == Run(Run(q, x), y)
    decreases |x|
  {
    if x == [] {
      assert x + y == y;
    } else {
      RunConcat(Step(q, x[0]), x[1..], y, threads);
      assert (x + y)[0] == x[0] && (x + y)[1..] == x[1..] + y;
    }
  }

  /** The task at the head of those in between enters. */
  lemma OneEnters(q: State, maxWaiting: nat, a: nat, b: nat, threads: nat) returns (r: State)
    requires Lined(q, maxWaiting, a, b) && a < b <= a + threads
    ensures CanRun(q, [Enter(a)]) && AtMost(q, [Enter(a)], threads)
    ensures r == Run(q, [Enter(a)]) && Lined(r, maxWaiting, a + 1, b)
  {
    r := Step(q, Enter(a));
    assert [Enter(a)][1..] == [];
    LinedInBetween(q, maxWaiting, a, b, threads);
    LinedInBetween(r, maxWaiting, a + 1, b, threads);
    assert AtMost(r, [], threads);
  }

  /** `actions` is a legal run from the start that leads to a lined-up state. */
  ghost predicate Leads(maxWaiting: nat, maxParallel: nat, threads: nat, actions: seq<Action>, a: nat, b: nat) {
    var start := New(maxWaiting, maxParallel);
    && CanRun(start, actions) && AtMost(start, actions, threads)
    && Lined(Run(start, actions), maxWaiting, a, b)
  }

  /** Some run from the start leads there. */
  ghost predicate Reachable(maxWaiting: nat, maxParallel: nat, threads: nat, a: nat, b: nat) {
    exists actions :: Leads(maxWaiting, maxParallel, threads, actions, a, b)
  }

  lemma CheckNext(maxWaiting: nat, maxParallel: nat, threads: nat, a: nat, b: nat)
    requires Reachable(maxWaiting, maxParallel, threads, a, b) && a < maxWaiting && a <= b < a + threads
    ensures Reachable(maxWaiting, maxParallel, threads, a, b + 1)
  {
    var start := New(maxWaiting, maxParallel);
    var actions :| Leads(maxWaiting, maxParallel, threads, actions, a, b);
    var _ := OneMore(Run(start, actions), maxWaiting, a, b, threads);
    RunConcat(start, actions, [Arrive(b), Check(b)], threads);
    assert Leads(maxWaiting, maxParallel, threads, actions + [Arrive(b), Check(b)], a, b + 1);
  }

  lemma EnterNext(maxWaiting: nat, maxParallel: nat, threads: nat, a: nat, b: nat)
    requires Reachable(maxWaiting, maxParallel, threads, a, b) && a < b <= a + threads
    ensures Reachable(maxWaiting, maxParallel, threads, a + 1, b)
  {
    var start := New(maxWaiting, maxParallel);
    var actions :| Leads(maxWaiting, maxParallel, threads, actions, a, b);
    var _ := OneEnters(Run(start, actions), maxWaiting, a, b, threads);
    RunConcat(start, actions, [Enter(a)], threads);
    assert Leads(maxWaiting, maxParallel, threads, actions + [Enter(a)], a + 1, b);
  }

  /** Tasks arrive one after another until the counter is one below the limit. */
  lemma {:induction false} FillUp(maxWaiting: nat, maxParallel: nat, threads: nat, n: nat)
    requires n < maxWaiting && threads >= 1
    ensures Reachable(maxWaiting, maxParallel, threads, n, n)
  {
    if n == 0 {
      assert InBetween(New(maxWaiting, maxParallel)) == {};
      assert Leads(maxWaiting, maxParallel, threads, [], 0, 0);
    } else {
      FillUp(maxWaiting, maxParallel, threads, n - 1);
      CheckNext(maxWaiting, maxParallel, threads, n - 1, n - 1);
      EnterNext(maxWaiting, maxParallel, threads, n - 1, n);
    }
  }

  /** Then `n` tasks pass the check before any of them counts itself. */
  lemma {:induction false} AllCheck(maxWaiting: nat, maxParallel: nat, threads: nat, n: nat)
    requires maxWaiting >= 1 && threads >= 1 && n <= threads
    ensures Reachable(maxWaiting, maxParallel, threads, maxWaiting - 1, maxWaiting - 1 + n)
  {
    if n == 0 {
      FillUp(maxWaiting, maxParallel, threads, maxWaiting - 1);
    } else {
      AllCheck(maxWaiting, maxParallel, threads, n - 1);
      CheckNext(maxWaiting, maxParallel, threads, maxWaiting - 1, maxWaiting - 2 + n);
    }
  }

  /** Then `n` of them enter. */
  lemma {:induction false} AllEnter(maxWaiting: nat, maxParallel: nat, threads: nat, n: nat)
    requires maxWaiting >= 1 && threads >= 1 && n <= threads
    ensures Reachable(maxWaiting, maxParallel, threads, maxWaiting - 1 + n, maxWaiting - 1 + threads)
  {
    if n == 0 {
      AllCheck(maxWaiting, maxParallel, threads, threads);
    } else {
      AllEnter(maxWaiting, maxParallel, threads, n - 1);
      EnterNext(maxWaiting, maxParallel, threads, maxWaiting - 2 + n, maxWaiting - 1 + threads);
    }
  }

  /** The bound is the best one: some run reaches it. */
  lemma BoundIsReached(maxWaiting: nat, maxParallel: nat, threads: nat) returns (actions: seq<Action>)
    requires maxWaiting >= 1 && threads >= 1
    ensures CanRun(New(maxWaiting, maxParallel), actions)
    ensures AtMost(New(maxWaiting, maxParallel), actions, threads)
    ensures Run(New(maxWaiting, maxParallel), actions).waiting == maxWaiting + threads - 1
  {
    AllEnter(maxWaiting, maxParallel, threads, threads);
    actions :| Leads(maxWaiting, maxParallel, threads, actions, maxWaiting - 1 + threads, maxWaiting - 1 + threads);
  }
}
