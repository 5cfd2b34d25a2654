/** kt_pipeline: workers that take jobs through the steps of an ordered pipeline, as a transition system with one
    action for each of a worker's two critical sections. */
module KtPipeline {
  /** A worker is about to test under the lock whether it may start its step, waits on the condition variable, or works
      on its step outside the lock. */
  datatype Phase = Testing | Asleep | Working

  /** What a step returns for a job; zero stands for NULL, which ends the pipeline. */
  const NULL := 0

  /** `data` is what the last call returned to the worker. */
  datatype Worker = Worker(step: nat, index: nat, phase: Phase, data: int)

  /** `started[s]` lists the indices of the jobs that step s was called for, in order of time. */
  datatype Pipeline = Pipeline(nSteps: nat, next: nat, workers: seq<Worker>, started: seq<seq<nat>>)

  /** Worker w enters its next critical section; `data` is what the function has returned if the worker was at work, and
      `spurious` says whether the worker, if it is asleep, wakes up without a broadcast. */
  datatype Action = Action(w: nat, data: int, spurious: bool)

  /** kt_pipeline before the threads run. */
  function Initial(nThreads: nat, nSteps: nat): Pipeline {
    var n := if nThreads < 1 then 1 else nThreads;
    Pipeline(nSteps, n, seq(n, i requires 0 <= i < n => Worker(0, i, Testing, NULL)), seq(nSteps, _ => []))
  }

  /** Worker i is at the same step as w, or before it, with an earlier job. */
  predicate Blocks(p: Pipeline, i: nat, w: nat)
    requires i < |p.workers| && w < |p.workers|
  {
    i != w && p.workers[i].step <= p.workers[w].step && p.workers[i].index < p.workers[w].index
  }

  /** The test under the lock: nobody blocks w. */
  predicate Free(p: Pipeline, w: nat)
    requires w < |p.workers|
  {
    forall i :: 0 <= i < |p.workers| ==> !Blocks(p, i, w)
  }

  predicate Live(p: Pipeline, w: nat) {
    w < |p.workers| && p.workers[w].step < p.nSteps
  }

  /** The step after a step is done. */
  function After(p: Pipeline, w: nat, data: int): nat
    requires Live(p, w)
  {
    var s := p.workers[w].step;
    if s == p.nSteps - 1 || data != NULL then (s + 1) % p.nSteps else p.nSteps
  }

  function Start(p: Pipeline, w: nat): Pipeline
    requires Live(p, w) && |p.started| == p.nSteps
  {
    var l := p.workers[w];
    p.(workers := p.workers[w := l.(phase := Working)], started := p.started[l.step := p.started[l.step] + [l.index]])
  }

  function InPhase(p: Pipeline, w: nat, phase: Phase): Pipeline
    requires w < |p.workers|
  {
    p.(workers := p.workers[w := p.workers[w].(phase := phase)])
  }

  /** The broadcast. */
  function Woken(workers: seq<Worker>): (r: seq<Worker>)
    ensures |r| == |workers|
  {
    seq(|workers|, i requires 0 <= i < |workers| => if workers[i].phase.Asleep? then workers[i].(phase := Testing)
        else workers[i])
  }

  function Finish(p: Pipeline, w: nat, data: int): Pipeline
    requires Live(p, w)
  {
    var s := After(p, w, data);
    if s == 0 then p.(workers := Woken(p.workers[w := Worker(s, p.next, Testing, data)]), next := p.next + 1)
    else p.(workers := Woken(p.workers[w := Worker(s, p.workers[w].index, Testing, data)]))
  }

  /** One action; a worker that sleeps, or has left, does nothing. */
  function Step(p: Pipeline, a: Action): Pipeline
    requires |p.started| == p.nSteps
  {
    if !Live(p, a.w) then p
    else
      match p.workers[a.w].phase
      case Working => Finish(p, a.w, a.data)
      case Testing => if Free(p, a.w) then Start(p, a.w) else InPhase(p, a.w, Asleep)
      case Asleep => if a.spurious then InPhase(p, a.w, Testing) else p
  }

  /** What every action keeps. */
  ghost predicate Invariant(p: Pipeline) {
    && |p.started| == p.nSteps
    && (forall w {:trigger p.workers[w]} ::
        0 <= w < |p.workers|
        ==> p.workers[w].index < p.next && p.workers[w].step <= p.nSteps)
    && (forall v, w {:trigger p.workers[v], p.workers[w]} ::
        0 <= v < w < |p.workers|
        ==> p.workers[v].index != p.workers[w].index)
    && (forall w {:trigger Free(p, w)} ::
        0 <= w < |p.workers| && Live(p, w) && p.workers[w].phase.Working?
        ==> Free(p, w))
    && (forall w {:trigger Free(p, w)} ::
        0 <= w < |p.workers| && Live(p, w) && p.workers[w].phase.Asleep?
        ==> !Free(p, w))
    && (forall s {:trigger p.started[s]} :: 0 <= s < p.nSteps ==> StepInvariant(p, s))
  }

  /** Step s has seen increasing indices, and smaller ones than those that are still to come. */
  ghost predicate StepInvariant(p: Pipeline, s: nat)
    requires s < |p.started|
  {
    && Increasing(p.started[s])
    && (p.started[s] != [] ==> Last(p.started[s]) < p.next)
    && forall w {:trigger p.workers[w]} :: 0 <= w < |p.workers| && ToCome(p.workers[w], s) && p.started[s] != []
        ==> Last(p.started[s]) < p.workers[w].index
  }

  ghost predicate ToCome(l: Worker, s: nat) {
    l.step < s || (l.step == s && !l.phase.Working?)
  }

  function Last(s: seq<nat>): nat
    requires s != []
  {
    s[|s| - 1]
  }

  ghost predicate Increasing(s: seq<nat>) {
    forall i, j :: 0 <= i < j < |s| ==> s[i] < s[j]
  }

  lemma InitialHolds(nThreads: nat, nSteps: nat)
    ensures Invariant(Initial(nThreads, nSteps))
  {
    var p := Initial(nThreads, nSteps);
    forall s | 0 <= s < p.nSteps ensures StepInvariant(p, s) {
    }
  }

  /** What blocks a worker depends on steps and indices only. */
  lemma SameBlocks(p: Pipeline, p': Pipeline, v: nat)
    requires |p'.workers| == |p.workers| && v < |p.workers|
    requires forall i {:trigger p'.workers[i]} ::
               0 <= i < |p.workers| ==>
                   p'.workers[i].step == p.workers[i].step
                   && p'.workers[i].index == p.workers[i].index
    ensures Free(p', v) <==> Free(p, v)
  {
    forall i | 0 <= i < |p.workers| ensures Blocks(p', i, v) == Blocks(p, i, v) {
      assert p'.workers[i].step == p.workers[i].step && p'.workers[v].step == p.workers[v].step;
    }
    if !Free(p, v) {
      var i :| 0 <= i < |p.workers| && Blocks(p, i, v);
      assert Blocks(p', i, v);
    }
  }

  /** Starting needs no one with an earlier job at or before the step, and stays so while the worker works. */
  lemma StartKeeps(p: Pipeline, w: nat)
    requires Invariant(p) && Live(p, w) && !p.workers[w].phase.Working? && Free(p, w)
    ensures Invariant(Start(p, w))
  {
    var p', s := Start(p, w), p.workers[w].step;
    forall v | 0 <= v < |p'.workers| ensures Free(p', v) <==> Free(p, v) {
      SameBlocks(p, p', v);
    }
    forall r | 0 <= r < p.nSteps ensures StepInvariant(p', r) {
      assert StepInvariant(p, r);
      if r == s {
        forall v | 0 <= v < |p'.workers| && ToCome(p'.workers[v], s) ensures p.workers[w].index < p'.workers[v].index {
          assert !Blocks(p, v, w);
        }
      }
    }
  }

  /** A worker falls asleep because it is blocked, or wakes up. */
  lemma PhaseKeeps(p: Pipeline, w: nat, phase: Phase)
    requires Invariant(p) && Live(p, w) && !p.workers[w].phase.Working? && !phase.Working?
        && (phase.Asleep? ==> !Free(p, w))
    ensures Invariant(InPhase(p, w, phase))
  {
    var p' := InPhase(p, w, phase);
    forall v | 0 <= v < |p'.workers| ensures Free(p', v) <==> Free(p, v) {
      SameBlocks(p, p', v);
    }
    forall r | 0 <= r < p.nSteps ensures StepInvariant(p', r) {
      assert StepInvariant(p, r);
    }
  }

  lemma AfterIs(p: Pipeline, w: nat, data: int)
    requires Live(p, w)
    ensures var s := p.workers[w].step; After(p, w, data) == if s == p.nSteps - 1 then 0 else if data != NULL then s + 1
        else p.nSteps
  {
  }

  lemma FinishKeeps(p: Pipeline, w: nat, data: int)
    requires Invariant(p) && Live(p, w) && p.workers[w].phase.Working?
    ensures Invariant(Finish(p, w, data))
  {
    AfterIs(p, w, data);
    var p' := Finish(p, w, data);
    forall v | 0 <= v < |p'.workers| && Live(p', v) && p'.workers[v].phase.Working? ensures Free(p', v) {
      assert Free(p, v);
      forall i | 0 <= i < |p'.workers| ensures !Blocks(p', i, v) {
        assert !Blocks(p, i, v);
      }
    }
    forall r | 0 <= r < p.nSteps ensures StepInvariant(p', r) {
      assert StepInvariant(p, r);
    }
  }

  lemma StepKeeps(p: Pipeline, a: Action)
    requires Invariant(p)
    ensures Invariant(Step(p, a))
  {
    if Live(p, a.w) {
      match p.workers[a.w].phase
      case Working => FinishKeeps(p, a.w, a.data);
      case Testing =>
        if Free(p, a.w) {
          StartKeeps(p, a.w);
        } else {
          PhaseKeeps(p, a.w, Asleep);
        }
      case Asleep =>
        if a.spurious {
          PhaseKeeps(p, a.w, Testing);
        }
    }
  }

  /** The state after any interleaving of the workers' actions. */
  ghost function Run(p: Pipeline, actions: seq<Action>): (r: Pipeline)
    requires Invariant(p)
    ensures Invariant(r)
    decreases |actions|
  {
    if actions == [] then p
    else
      var q := Run(p, actions[..|actions| - 1]);
      StepKeeps(q, actions[|actions| - 1]);
      Step(q, actions[|actions| - 1])
  }

  /** In every reachable state no two workers work on the same step. */
  lemma OneWorkerPerStep(nThreads: nat, nSteps: nat, actions: seq<Action>, v: nat, w: nat)
    ensures Invariant(Initial(nThreads, nSteps))
    ensures var p := Run(Initial(nThreads, nSteps), actions);

                Live(p, v) && Live(p, w) && v != w && p.workers[v].phase.Working? && p.workers[w].phase.Working?
                ==> p.workers[v].step != p.workers[w].step
  {
    InitialHolds(nThreads, nSteps);
    var p := Run(Initial(nThreads, nSteps), actions);
    if Live(p, v) && Live(p, w) && v != w && p.workers[v].phase.Working? && p.workers[w].phase.Working? {
      assert Free(p, v) && Free(p, w);
      assert !Blocks(p, v, w) && !Blocks(p, w, v);
    }
  }

  /** Each step sees the jobs in increasing order of their indices. */
  lemma JobsInOrder(nThreads: nat, nSteps: nat, actions: seq<Action>, s: nat)
    ensures Invariant(Initial(nThreads, nSteps))
    ensures var p := Run(Initial(nThreads, nSteps), actions); s < |p.started| ==> Increasing(p.started[s])
  {
    InitialHolds(nThreads, nSteps);
    var p := Run(Initial(nThreads, nSteps), actions);
    if s < |p.started| {
      assert StepInvariant(p, s);
    }
  }

  /** No two workers ever hold the same index. */
  lemma IndicesUnique(nThreads: nat, nSteps: nat, actions: seq<Action>, v: nat, w: nat)
    ensures Invariant(Initial(nThreads, nSteps))
    ensures var p := Run(Initial(nThreads, nSteps), actions);
            v < |p.workers| && w < |p.workers| && v != w ==> p.workers[v].index != p.workers[w].index
  {
    InitialHolds(nThreads, nSteps);
  }

  /** The live worker with the least index is never blocked. */
  lemma LeastNeverBlocked(p: Pipeline, w: nat)
    requires Invariant(p) && Live(p, w)
    requires forall v :: 0 <= v < |p.workers| && Live(p, v) ==> p.workers[w].index <= p.workers[v].index
    ensures Free(p, w)
  {
  }

  lemma {:induction false} LeastIndex(p: Pipeline, n: nat) returns (w: nat)
    requires n <= |p.workers| && exists v :: 0 <= v < n && Live(p, v)
    ensures w < n && Live(p, w) && forall v :: 0 <= v < n && Live(p, v) ==> p.workers[w].index <= p.workers[v].index
  {
    w := n - 1;
    if exists v :: 0 <= v < n - 1 && Live(p, v) {
      w := LeastIndex(p, n - 1);
      if Live(p, n - 1) && p.workers[n - 1].index < p.workers[w].index {
        w := n - 1;
      }
    }
  }

  /** No wake-up is lost: in every reachable state each sleeping worker is blocked by one that has not left. */
  lemma NoLostWakeup(nThreads: nat, nSteps: nat, actions: seq<Action>, w: nat) returns (i: nat)
    ensures Invariant(Initial(nThreads, nSteps))
    ensures var p := Run(Initial(nThreads, nSteps), actions);
            Live(p, w) && p.workers[w].phase.Asleep? ==> Live(p, i) && Blocks(p, i, w)
  {
    InitialHolds(nThreads, nSteps);
    var p := Run(Initial(nThreads, nSteps), actions);
    i := 0;
    if Live(p, w) && p.workers[w].phase.Asleep? {
      assert !Free(p, w);
      i :| i < |p.workers| && Blocks(p, i, w);
    }
  }

  /** The pipeline never deadlocks: as long as a worker has not left, one that is not asleep changes the state by its
      next action. */
  lemma NeverStuck(nThreads: nat, nSteps: nat, actions: seq<Action>, some: nat) returns (w: nat)
    ensures Invariant(Initial(nThreads, nSteps))
    ensures var p := Run(Initial(nThreads, nSteps), actions);
            Live(p, some) ==> Live(p, w) && !p.workers[w].phase.Asleep? && forall a: Action ::
                a.w == w
                ==> Step(p, a).workers[w] != p.workers[w]
  {
    InitialHolds(nThreads, nSteps);
    var p := Run(Initial(nThreads, nSteps), actions);
    w := 0;
    if Live(p, some) {
      w := LeastIndex(p, |p.workers|);
      LeastNeverBlocked(p, w);
      forall a: Action | a.w == w ensures Step(p, a).workers[w] != p.workers[w] {
        if p.workers[w].phase.Testing? {
          assert Step(p, a).workers[w].phase.Working?;
        } else {
          assert !Step(p, a).workers[w].phase.Working?;
        }
      }
    }
  }

  /** A worker holds a job that its own step, or the step before, was called for; and no step was called for a job
      that the step before was not called for. */
  ghost predicate Flow(p: Pipeline) {
    && |p.started| == p.nSteps
    && (forall w {:trigger Live(p, w)} :: Live(p, w) ==> Carried(p, w))
    && (forall s, k {:trigger StartedBefore(p, s, k)} ::
        0 < s < p.nSteps && k in p.started[s]
        ==> StartedBefore(p, s, k))
  }

  ghost predicate StartedBefore(p: Pipeline, s: nat, k: nat)
    requires 0 < s <= |p.started|
  {
    k in p.started[s - 1]
  }

  ghost predicate Carried(p: Pipeline, w: nat)
    requires Live(p, w) && |p.started| == p.nSteps
  {
    var l := p.workers[w];
    if l.phase.Working? then l.index in p.started[l.step] else l.step > 0 ==> l.index in p.started[l.step - 1]
  }

  lemma FlowStart(p: Pipeline, w: nat)
    requires Flow(p) && Live(p, w) && !p.workers[w].phase.Working?
    ensures Flow(Start(p, w))
  {
    var p', s := Start(p, w), p.workers[w].step;
    assert Carried(p, w);
    forall v | Live(p', v) ensures Carried(p', v) {
      assert Live(p, v);
    }
    forall r, k | 0 < r < p.nSteps && k in p'.started[r] ensures StartedBefore(p', r, k) {
      assert k in p.started[r] || (r == s && k == p.workers[w].index);
      assert StartedBefore(p, r, k);
    }
  }

  lemma FlowPhase(p: Pipeline, w: nat, phase: Phase)
    requires Flow(p) && Live(p, w) && !p.workers[w].phase.Working? && !phase.Working?
    ensures Flow(InPhase(p, w, phase))
  {
    var p' := InPhase(p, w, phase);
    assert Carried(p, w);
    forall v | Live(p', v) ensures Carried(p', v) {
      assert Live(p, v) && Carried(p, v);
    }
    forall r, k | 0 < r < p.nSteps && k in p'.started[r] ensures StartedBefore(p', r, k) {
      assert StartedBefore(p, r, k);
    }
  }

  lemma FlowFinish(p: Pipeline, w: nat, data: int)
    requires Flow(p) && Live(p, w) && p.workers[w].phase.Working?
    ensures Flow(Finish(p, w, data))
  {
    AfterIs(p, w, data);
    var p' := Finish(p, w, data);
    assert Carried(p, w);
    forall v | Live(p', v) ensures Carried(p', v) {
      assert v != w ==> Live(p, v) && Carried(p, v);
    }
    forall r, k | 0 < r < p.nSteps && k in p'.started[r] ensures StartedBefore(p', r, k) {
      assert StartedBefore(p, r, k);
    }
  }

  lemma {:induction false} FlowRun(p: Pipeline, actions: seq<Action>)
    requires Invariant(p) && Flow(p)
    ensures Flow(Run(p, actions))
    decreases |actions|
  {
    if actions != [] {
      var q, a := Run(p, actions[..|actions| - 1]), actions[|actions| - 1];
      FlowRun(p, actions[..|actions| - 1]);
      if Live(q, a.w) {
        match q.workers[a.w].phase
        case Working => FlowFinish(q, a.w, a.data);
        case Testing =>
          if Free(q, a.w) {
            FlowStart(q, a.w);
          } else {
            FlowPhase(q, a.w, Asleep);
          }
        case Asleep => FlowPhase(q, a.w, Testing);
      }
    }
  }

  lemma {:induction false} StartedBack(p: Pipeline, r: nat, s: nat, k: nat)
    requires Flow(p) && r <= s < p.nSteps && k in p.started[s]
    ensures k in p.started[r]
    decreases s - r
  {
    if r < s {
      assert StartedBefore(p, s, k);
      StartedBack(p, r, s - 1, k);
    }
  }

  /** A job comes to a step only after it has been through all steps before. */
  lemma StepsInOrder(nThreads: nat, nSteps: nat, actions: seq<Action>, r: nat, s: nat, k: nat)
    requires r <= s < nSteps
    ensures Invariant(Initial(nThreads, nSteps))
    ensures var p := Run(Initial(nThreads, nSteps), actions);
        |p.started| == nSteps
        && (k in p.started[s] ==> k in p.started[r])
  {
    InitialHolds(nThreads, nSteps);
    FlowRun(Initial(nThreads, nSteps), actions);
    StepsKept(Initial(nThreads, nSteps), actions);
    hide Run, Invariant;
    var p := Run(Initial(nThreads, nSteps), actions);
    if k in p.started[s] {
      StartedBack(p, r, s, k);
    }
  }

  lemma {:induction false} StepsKept(p: Pipeline, actions: seq<Action>)
    requires Invariant(p)
    ensures Run(p, actions).nSteps == p.nSteps
    decreases |actions|
  {
    if actions != [] {
      StepsKept(p, actions[..|actions| - 1]);
    }
  }

  /** What the calls that have ended have returned: for each step, by the index of the job. */
  type Returned = seq<map<nat, int>>

  /** The result of a call is the data of the action by which its worker ends it. */
  ghost function Record(p: Pipeline, r: Returned, a: Action): Returned {
    if Live(p, a.w) && p.workers[a.w].phase.Working? && p.workers[a.w].step < |r| then
      var l := p.workers[a.w];
      var row: map<nat, int> := r[l.step][l.index := a.data];
      r[l.step := row]
    else r
  }

  /** The results of all calls that have ended in a run, read off its states and actions. */
  ghost function Results(p: Pipeline, actions: seq<Action>): Returned
    requires Invariant(p)
    decreases |actions|
  {
    if actions == [] then seq(p.nSteps, _ => map[])
    else
      var before := actions[..|actions| - 1];
      Record(Run(p, before), Results(p, before), actions[|actions| - 1])
  }

  ghost predicate Waits(p: Pipeline, w: nat, s: nat, k: nat) {
    Live(p, w) && !p.workers[w].phase.Working? && p.workers[w].step == s && p.workers[w].index == k
  }

  ghost predicate Works(p: Pipeline, w: nat, s: nat, k: nat) {
    Live(p, w) && p.workers[w].phase.Working? && p.workers[w].step == s && p.workers[w].index == k
  }

  ghost predicate Left(p: Pipeline, w: nat, k: nat) {
    w < |p.workers| && p.workers[w].step == p.nSteps && p.workers[w].index == k
  }

  /** Job k waits to enter step s, is in it, or has been dropped. */
  ghost predicate WaitsAt(p: Pipeline, s: nat, k: nat) {
    exists w: nat :: Waits(p, w, s, k)
  }

  ghost predicate WorksAt(p: Pipeline, s: nat, k: nat) {
    exists w: nat :: Works(p, w, s, k)
  }

  ghost predicate Gone(p: Pipeline, k: nat) {
    exists w: nat :: Left(p, w, k)
  }

  /** Step s, which is not the last one, has returned NULL for job k. */
  ghost predicate Dropped(r: Returned, s: nat, k: nat) {
    s + 1 < |r| && k in r[s] && r[s][k] == NULL
  }

  /** Where job k is as seen from step s. It has come to the first step once its index has been given out, and to any
      other once the step before has returned data; a step that has been called has returned or is at work, and not
      both. */
  ghost predicate Placed(p: Pipeline, r: Returned, s: nat, k: nat)
    requires |p.started| == p.nSteps == |r| && s < p.nSteps
  {
    && (s == 0 ==> (k in p.started[0] || WaitsAt(p, 0, k) <==> k < p.next))
    && (s > 0 ==> (k in p.started[s] || WaitsAt(p, s, k) <==> k in r[s - 1] && r[s - 1][k] != NULL))
    && (k in p.started[s] <==> k in r[s] || WorksAt(p, s, k))
    && !(k in r[s] && WorksAt(p, s, k))
  }

  /** A worker holds what the step before has returned for its job. */
  ghost predicate Holds(p: Pipeline, r: Returned, w: nat) {
    Live(p, w) && 0 < p.workers[w].step <= |r| ==>
      var l := p.workers[w];
      l.index in r[l.step - 1] && l.data == r[l.step - 1][l.index]
  }

  ghost predicate Tracked(p: Pipeline, r: Returned) {
    && |p.started| == p.nSteps == |r| && p.nSteps > 0
    && (forall s: nat, k: nat {:trigger Placed(p, r, s, k)} :: s < p.nSteps ==> Placed(p, r, s, k))
    && (forall w: nat {:trigger Holds(p, r, w)} :: Holds(p, r, w))
    && (forall s: nat, k: nat {:trigger Dropped(r, s, k)} :: Dropped(r, s, k) ==> Gone(p, k))
    && (forall k: nat {:trigger Gone(p, k)} :: Gone(p, k) ==> exists s: nat :: Dropped(r, s, k))
  }

  /** A job that waits for a step has not been at it. */
  lemma NotYet(p: Pipeline, w: nat)
    requires Invariant(p) && Live(p, w) && !p.workers[w].phase.Working?
    ensures p.workers[w].index !in p.started[p.workers[w].step]
  {
    var s, k := p.workers[w].step, p.workers[w].index;
    assert StepInvariant(p, s) && ToCome(p.workers[w], s);
    forall i | 0 <= i < |p.started[s]| ensures p.started[s][i] < k {
      assert p.started[s][i] <= Last(p.started[s]);
    }
  }

  /** A worker that starts changes the place of its own job only. */
  lemma StartMoves(p: Pipeline, w: nat, s: nat, k: nat)
    requires Invariant(p) && Live(p, w) && !p.workers[w].phase.Working?
    ensures var p', own := Start(p, w), s == p.workers[w].step && k == p.workers[w].index;
            && (WaitsAt(p', s, k) <==> WaitsAt(p, s, k) && !own) && (WorksAt(p', s, k) <==> WorksAt(p, s, k) || own)
            && (Gone(p', k) <==> Gone(p, k)) && (own ==> WaitsAt(p, s, k))
  {
    var p' := Start(p, w);
    assert Waits(p, w, p.workers[w].step, p.workers[w].index);
    assert Works(p', w, p.workers[w].step, p.workers[w].index);
    forall v: nat | v != w
      ensures Waits(p', v, s, k) == Waits(p, v, s, k) && Works(p', v, s, k) == Works(p, v, s, k)
      ensures Left(p', v, k) == Left(p, v, k)
    {
    }
    SamePlaces(p, p', w, s, k);
  }

  /** If only worker w has changed, the places of the others' jobs have not. */
  lemma SamePlaces(p: Pipeline, p': Pipeline, w: nat, s: nat, k: nat)
    requires forall v: nat :: v != w ==> Waits(p', v, s, k) == Waits(p, v, s, k)
    requires forall v: nat :: v != w ==> Works(p', v, s, k) == Works(p, v, s, k)
    requires forall v: nat :: v != w ==> Left(p', v, k) == Left(p, v, k)
    requires forall v: nat :: Waits(p, w, s, k) && Waits(p, v, s, k) ==> v == w
    requires forall v: nat :: Works(p, w, s, k) && Works(p, v, s, k) ==> v == w
    requires forall v: nat :: Left(p, w, k) && Left(p, v, k) ==> v == w
    ensures WaitsAt(p', s, k) <==> (WaitsAt(p, s, k) && !Waits(p, w, s, k)) || Waits(p', w, s, k)
    ensures WorksAt(p', s, k) <==> (WorksAt(p, s, k) && !Works(p, w, s, k)) || Works(p', w, s, k)
    ensures Gone(p', k) <==> (Gone(p, k) && !Left(p, w, k)) || Left(p', w, k)
  {
    hide Waits, Works, Left;
    if WaitsAt(p, s, k) {
      var v: nat :| Waits(p, v, s, k);
      assert v != w ==> Waits(p', v, s, k);
    }
    if WaitsAt(p', s, k) {
      var v: nat :| Waits(p', v, s, k);
      assert v != w ==> Waits(p, v, s, k);
    }
    if WorksAt(p, s, k) {
      var v: nat :| Works(p, v, s, k);
      assert v != w ==> Works(p', v, s, k);
    }
    if WorksAt(p', s, k) {
      var v: nat :| Works(p', v, s, k);
      assert v != w ==> Works(p, v, s, k);
    }
    if Gone(p, k) {
      var v: nat :| Left(p, v, k);
      assert v != w ==> Left(p', v, k);
    }
    if Gone(p', k) {
      var v: nat :| Left(p', v, k);
      assert v != w ==> Left(p, v, k);
    }
  }

  lemma StartTracked(p: Pipeline, r: Returned, w: nat)
    requires Invariant(p) && Tracked(p, r) && Live(p, w) && !p.workers[w].phase.Working?
    ensures Tracked(Start(p, w), r)
  {
    var p', s0, k0 := Start(p, w), p.workers[w].step, p.workers[w].index;
    NotYet(p, w);
    forall s: nat, k: nat | s < p.nSteps ensures Placed(p', r, s, k) {
      assert Placed(p, r, s, k);
      StartMoves(p, w, s, k);
    }
    forall v: nat ensures Holds(p', r, v) {
      assert Holds(p, r, v);
    }
    forall s: nat, k: nat | Dropped(r, s, k) ensures Gone(p', k) {
      StartMoves(p, w, s, k);
    }
    forall k: nat | Gone(p', k) ensures exists s: nat :: Dropped(r, s, k) {
      StartMoves(p, w, 0, k);
    }
  }

  lemma PhaseMoves(p: Pipeline, w: nat, phase: Phase, s: nat, k: nat)
    requires Invariant(p) && Live(p, w) && !p.workers[w].phase.Working? && !phase.Working?
    ensures var p' := InPhase(p, w, phase);
            WaitsAt(p', s, k) == WaitsAt(p, s, k) && WorksAt(p', s, k) == WorksAt(p, s, k) && Gone(p', k) == Gone(p, k)
  {
    var p' := InPhase(p, w, phase);
    forall v: nat
      ensures Waits(p', v, s, k) == Waits(p, v, s, k) && Works(p', v, s, k) == Works(p, v, s, k)
      ensures Left(p', v, k) == Left(p, v, k)
    {
    }
  }

  lemma PhaseTracked(p: Pipeline, r: Returned, w: nat, phase: Phase)
    requires Invariant(p) && Tracked(p, r) && Live(p, w) && !p.workers[w].phase.Working? && !phase.Working?
    ensures Tracked(InPhase(p, w, phase), r)
  {
    var p' := InPhase(p, w, phase);
    forall s: nat, k: nat | s < p.nSteps ensures Placed(p', r, s, k) {
      assert Placed(p, r, s, k);
      PhaseMoves(p, w, phase, s, k);
    }
    forall v: nat ensures Holds(p', r, v) {
      assert Holds(p, r, v);
    }
    forall s: nat, k: nat | Dropped(r, s, k) ensures Gone(p', k) {
      PhaseMoves(p, w, phase, s, k);
    }
    forall k: nat | Gone(p', k) ensures exists s: nat :: Dropped(r, s, k) {
      PhaseMoves(p, w, phase, 0, k);
    }
  }

  /** The place of the worker that has ended a call, if it stays. */
  ghost predicate Arrives(p: Pipeline, l: Worker, data: int, s: nat, k: nat) {
    if l.step == p.nSteps - 1 then s == 0 && k == p.next else data != NULL && s == l.step + 1 && k == l.index
  }

  /** Where the worker that has ended a call goes: with its job to the next step, with a new job to the first step, or
      away. */
  lemma FinishMoves(p: Pipeline, w: nat, data: int, s: nat, k: nat)
    requires Invariant(p) && Live(p, w) && p.workers[w].phase.Working?
    ensures var p', l := Finish(p, w, data), p.workers[w];
            var last := l.step == p.nSteps - 1;
            && (WaitsAt(p', s, k) <==> WaitsAt(p, s, k) || Arrives(p, l, data, s, k))
            && (WorksAt(p', s, k) <==> WorksAt(p, s, k) && !(s == l.step && k == l.index))
            && (Gone(p', k) <==> Gone(p, k) || (!last && data == NULL && k == l.index))
            && (s == l.step && k == l.index ==> WorksAt(p, s, k))
  {
    AfterIs(p, w, data);
    var p', l := Finish(p, w, data), p.workers[w];
    assert Works(p, w, l.step, l.index);
    forall v: nat | v != w
      ensures Waits(p', v, s, k) == Waits(p, v, s, k) && Works(p', v, s, k) == Works(p, v, s, k)
      ensures Left(p', v, k) == Left(p, v, k)
    {
    }
    SamePlaces(p, p', w, s, k);
  }

  lemma FinishHolds(p: Pipeline, r: Returned, w: nat, data: int, v: nat)
    requires Invariant(p) && Tracked(p, r) && Live(p, w) && p.workers[w].phase.Working?
    ensures Holds(Finish(p, w, data), Record(p, r, Action(w, data, false)), v)
  {
    AfterIs(p, w, data);
    assert Holds(p, r, v);
  }

  lemma FinishFrame(p: Pipeline, w: nat, data: int)
    requires Live(p, w)
    ensures var p' := Finish(p, w, data);
            && p'.nSteps == p.nSteps && p'.started == p.started
            && p'.next == if p.workers[w].step == p.nSteps - 1 then p.next + 1 else p.next
  {
    AfterIs(p, w, data);
  }

  lemma RecordAt(p: Pipeline, r: Returned, w: nat, data: int, s: nat, k: nat)
    requires Live(p, w) && p.workers[w].phase.Working? && |r| == p.nSteps && s < |r|
    ensures var r', own := Record(p, r, Action(w, data, false)), s == p.workers[w].step && k == p.workers[w].index;
            && |r'| == |r| && (k in r'[s] <==> k in r[s] || own)
            && (k in r'[s] ==> r'[s][k] == if own then data else r[s][k])
  {
  }

  lemma FinishPlaced(p: Pipeline, r: Returned, w: nat, data: int, s: nat, k: nat)
    requires Invariant(p) && Tracked(p, r) && Live(p, w) && p.workers[w].phase.Working? && s < p.nSteps
    ensures var p', r' := Finish(p, w, data), Record(p, r, Action(w, data, false));
            |p'.started| == p'.nSteps == |r'| == p.nSteps && Placed(p', r', s, k)
    ensures p.workers[w].index !in r[p.workers[w].step]
  {
    var l := p.workers[w];
    FinishFrame(p, w, data);
    FinishMoves(p, w, data, l.step, l.index);
    assert Placed(p, r, l.step, l.index) && Placed(p, r, s, k);
    FinishMoves(p, w, data, s, k);
    RecordAt(p, r, w, data, s, k);
    if s > 0 {
      RecordAt(p, r, w, data, s - 1, k);
      assert s - 1 == l.step && k == l.index ==> k !in r[s - 1];
    }
    hide Invariant, Tracked, Finish, Record, WaitsAt, WorksAt, Gone, Live;
  }

  lemma FinishTracked(p: Pipeline, r: Returned, w: nat, data: int)
    requires Invariant(p) && Tracked(p, r) && Live(p, w) && p.workers[w].phase.Working?
    ensures Tracked(Finish(p, w, data), Record(p, r, Action(w, data, false)))
  {
    var p', r', l := Finish(p, w, data), Record(p, r, Action(w, data, false)), p.workers[w];
    FinishPlaced(p, r, w, data, l.step, l.index);
    forall s: nat, k: nat | s < p.nSteps ensures Placed(p', r', s, k) {
      FinishPlaced(p, r, w, data, s, k);
    }
    forall v: nat ensures Holds(p', r', v) {
      FinishHolds(p, r, w, data, v);
    }
    hide Placed, Holds;
    forall s: nat, k: nat | Dropped(r', s, k) ensures Gone(p', k) {
      FinishMoves(p, w, data, s, k);
      assert Dropped(r, s, k) || (s == l.step && k == l.index);
    }
    forall k: nat | Gone(p', k) ensures exists s: nat :: Dropped(r', s, k) {
      FinishMoves(p, w, data, 0, k);
      if Gone(p, k) {
        var s: nat :| Dropped(r, s, k);
        assert Dropped(r', s, k);
      } else {
        assert Dropped(r', l.step, k);
      }
    }
  }

  lemma StepTracked(p: Pipeline, r: Returned, a: Action)
    requires Invariant(p) && Tracked(p, r)
    ensures Tracked(Step(p, a), Record(p, r, a))
  {
    hide Invariant, Tracked, Start, InPhase, Finish;
    if Live(p, a.w) {
      match p.workers[a.w].phase
      case Working => FinishTracked(p, r, a.w, a.data);
      case Testing =>
        if Free(p, a.w) {
          StartTracked(p, r, a.w);
        } else {
          PhaseTracked(p, r, a.w, Asleep);
        }
      case Asleep =>
        if a.spurious {
          PhaseTracked(p, r, a.w, Testing);
        }
    }
  }

  lemma InitialTracked(nThreads: nat, nSteps: nat)
    requires nSteps > 0
    ensures Tracked(Initial(nThreads, nSteps), seq(nSteps, _ => map[]))
  {
    var p, r: Returned := Initial(nThreads, nSteps), seq(nSteps, _ => map[]);
    forall s: nat, k: nat | s < p.nSteps ensures Placed(p, r, s, k) {
      assert s == 0 && k < p.next ==> Waits(p, k, 0, k);
    }
  }

  lemma {:induction false} RunTracked(nThreads: nat, nSteps: nat, actions: seq<Action>)
    requires nSteps > 0
    ensures Invariant(Initial(nThreads, nSteps))
    ensures var p := Initial(nThreads, nSteps); Tracked(Run(p, actions), Results(p, actions))
    decreases |actions|
  {
    InitialHolds(nThreads, nSteps);
    hide Tracked, Initial, Step, Record;
    if actions == [] {
      InitialTracked(nThreads, nSteps);
      InitialSteps(nThreads, nSteps);
    } else {
      var p, before := Initial(nThreads, nSteps), actions[..|actions| - 1];
      RunTracked(nThreads, nSteps, before);
      StepTracked(Run(p, before), Results(p, before), actions[|actions| - 1]);
    }
  }

  lemma InitialSteps(nThreads: nat, nSteps: nat)
    ensures Initial(nThreads, nSteps).nSteps == nSteps
  {
  }

  lemma {:induction false} WorkersKept(p: Pipeline, actions: seq<Action>)
    requires Invariant(p)
    ensures |Run(p, actions).workers| == |p.workers|
    decreases |actions|
  {
    if actions != [] {
      WorkersKept(p, actions[..|actions| - 1]);
    }
  }

  /** There are as many workers as threads were asked for, and at least one. */
  lemma WorkerCount(nThreads: nat, nSteps: nat, actions: seq<Action>)
    ensures Invariant(Initial(nThreads, nSteps))
    ensures |Run(Initial(nThreads, nSteps), actions).workers| == if nThreads == 0 then 1 else nThreads
  {
    InitialHolds(nThreads, nSteps);
    WorkersKept(Initial(nThreads, nSteps), actions);
  }

  /** No index is lost: at any time the first step has been called for every index given out so far, or a worker waits
      to call it, and for no other. */
  lemma EveryJobStarts(nThreads: nat, nSteps: nat, actions: seq<Action>, k: nat)
    requires nSteps > 0
    ensures Invariant(Initial(nThreads, nSteps))
    ensures var p := Run(Initial(nThreads, nSteps), actions);
            |p.started| > 0 && (k in p.started[0] || WaitsAt(p, 0, k) <==> k < p.next)
  {
    RunTracked(nThreads, nSteps, actions);
    var p := Initial(nThreads, nSteps);
    assert Placed(Run(p, actions), Results(p, actions), 0, k);
  }

  /** At any time a step after the first has been called for exactly those jobs for which the step before has returned
      data, or a worker waits to call it. */
  lemma DataGoesOn(nThreads: nat, nSteps: nat, actions: seq<Action>, s: nat, k: nat)
    requires 0 < s < nSteps
    ensures Invariant(Initial(nThreads, nSteps))
    ensures var p, r := Run(Initial(nThreads, nSteps), actions), Results(Initial(nThreads, nSteps), actions);
            |p.started| == |r| == nSteps
            && (k in p.started[s] || WaitsAt(p, s, k) <==> k in r[s - 1] && r[s - 1][k] != NULL)
  {
    RunTracked(nThreads, nSteps, actions);
    var p := Initial(nThreads, nSteps);
    StepsKept(p, actions);
    assert Placed(Run(p, actions), Results(p, actions), s, k);
  }

  /** What a call at a later step is given: what the step before has returned for the job, which is not NULL. */
  lemma DataHandedOver(nThreads: nat, nSteps: nat, actions: seq<Action>, w: nat)
    requires nSteps > 0
    ensures Invariant(Initial(nThreads, nSteps))
    ensures var p, r := Run(Initial(nThreads, nSteps), actions), Results(Initial(nThreads, nSteps), actions);
            Live(p, w) && p.workers[w].step > 0 ==>
              var l := p.workers[w];
              && l.step <= |r| && l.index in r[l.step - 1]
              && r[l.step - 1][l.index] == l.data != NULL
  {
    RunTracked(nThreads, nSteps, actions);
    var p, r := Run(Initial(nThreads, nSteps), actions), Results(Initial(nThreads, nSteps), actions);
    if Live(p, w) && p.workers[w].step > 0 {
      var l := p.workers[w];
      assert Holds(p, r, w) && Placed(p, r, l.step, l.index);
      assert Waits(p, w, l.step, l.index) || Works(p, w, l.step, l.index);
    }
  }

  /** At any time a worker that has left holds a job for which some step before the last has returned NULL, and each
      such job is held by a worker that has left. */
  lemma LeavesOnNull(nThreads: nat, nSteps: nat, actions: seq<Action>, k: nat)
    requires nSteps > 0
    ensures Invariant(Initial(nThreads, nSteps))
    ensures var p, r := Run(Initial(nThreads, nSteps), actions), Results(Initial(nThreads, nSteps), actions);
            (exists w: nat :: Left(p, w, k)) <==> exists s: nat :: Dropped(r, s, k)
  {
    RunTracked(nThreads, nSteps, actions);
    var p, r := Run(Initial(nThreads, nSteps), actions), Results(Initial(nThreads, nSteps), actions);
    if exists s: nat :: Dropped(r, s, k) {
      var s: nat :| Dropped(r, s, k);
      assert Gone(p, k);
    }
    if exists w: nat :: Left(p, w, k) {
      assert Gone(p, k);
    }
  }

  /** The workers of a pipeline of one step never leave. */
  lemma OneStepNeverEnds(nThreads: nat, actions: seq<Action>, w: nat)
    ensures Invariant(Initial(nThreads, 1))
    ensures var p := Run(Initial(nThreads, 1), actions); w < |p.workers| ==> Live(p, w)
  {
    RunTracked(nThreads, 1, actions);
    StepsKept(Initial(nThreads, 1), actions);
    var p, r := Run(Initial(nThreads, 1), actions), Results(Initial(nThreads, 1), actions);
    if w < |p.workers| && !Live(p, w) {
      LeavesOnNull(nThreads, 1, actions, p.workers[w].index);
      assert Left(p, w, p.workers[w].index);
    }
  }

  predicate AllLeft(p: Pipeline) {
    forall w: nat :: w < |p.workers| ==> !Live(p, w)
  }

  /** Once all workers have left, a job that has come to a step has been through it. */
  lemma ThroughStep(p: Pipeline, r: Returned, s: nat, k: nat)
    requires Tracked(p, r) && s < p.nSteps && AllLeft(p)
    requires if s == 0 then k < p.next else k in r[s - 1] && !Dropped(r, s - 1, k)
    ensures k in p.started[s] && k in r[s]
  {
    assert Placed(p, r, s, k);
    assert !WaitsAt(p, s, k) && !WorksAt(p, s, k);
  }

  lemma {:induction false} AllThrough(p: Pipeline, r: Returned, s: nat, k: nat)
    requires Tracked(p, r) && s < p.nSteps && AllLeft(p) && k < p.next
    requires forall t: nat :: t < s ==> !Dropped(r, t, k)
    ensures k in p.started[s] && k in r[s]
    decreases s
  {
    assert |p.started| == |r| == p.nSteps;
    hide Tracked, AllLeft, Dropped;
    if s > 0 {
      AllThrough(p, r, s - 1, k);
      assert !Dropped(r, s - 1, k);
    }
    ThroughStep(p, r, s, k);
  }

  /** Once all workers have left, every step has been called for each job for which no step before it has returned NULL,
      and every call has returned. */
  lemma AllCompleted(nThreads: nat, nSteps: nat, actions: seq<Action>, s: nat, k: nat)
    requires s < nSteps
    ensures Invariant(Initial(nThreads, nSteps))
    ensures var p, r := Run(Initial(nThreads, nSteps), actions), Results(Initial(nThreads, nSteps), actions);
            |p.started| == |r| == nSteps
            && (AllLeft(p) && k < p.next && (forall t: nat :: t < s ==> !Dropped(r, t, k))
                ==> k in p.started[s] && k in r[s])
  {
    RunTracked(nThreads, nSteps, actions);
    StepsKept(Initial(nThreads, nSteps), actions);
    InitialSteps(nThreads, nSteps);
    hide Invariant, Run, Results, Initial, AllLeft, Dropped;
    var p, r := Run(Initial(nThreads, nSteps), actions), Results(Initial(nThreads, nSteps), actions);
    if AllLeft(p) && k < p.next && forall t: nat :: t < s ==> !Dropped(r, t, k) {
      AllThrough(p, r, s, k);
    }
  }
}
