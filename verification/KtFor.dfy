/** kt_for: threads that take loop indices from their own counters and then from each other's, as a transition system
    with one action for each atomic fetch-and-add and each read of a counter. */
module KtFor {
  import opened Pigeonhole

  const LONG_MAX := 0x7FFF_FFFF_FFFF_FFFF

  /** What a thread does next: take an index from its own counter, call the function, look at counter j for the
      smallest one, or nothing more because it took an index beyond the end from counter `victim`. */
  datatype Phase = Own | Call(k: int, stolen: bool) | Scan(j: nat, min: int, least: int) | Done(victim: int)

  datatype Loop = Loop(n: int, counters: seq<int>, phases: seq<Phase>, calls: seq<int>)

  /** kt_for before the threads run. */
  function Initial(n: int, threads: nat): Loop {
    Loop(n, seq(threads, i requires 0 <= i < threads => i), seq(threads, _ => Own), [])
  }

  /** Thread w takes an index from counter v. */
  function Take(s: Loop, w: nat, v: nat, after: Phase): Loop
    requires w < |s.phases| && v < |s.counters|
  {
    s.(counters := s.counters[v := s.counters[v] + |s.counters|], phases := s.phases[w := after])
  }

  /** One action of thread w. */
  function Step(s: Loop, w: nat): Loop
    requires w < |s.phases| == |s.counters|
  {
    match s.phases[w]
    case Own =>
      var k := s.counters[w];
      Take(s, w, w, if k >= s.n then Scan(0, LONG_MAX, -1) else Call(k, false))
    case Call(k, stolen) =>
      s.(calls := s.calls + [k], phases := s.phases[w := if stolen then Scan(0, LONG_MAX, -1) else Own])
    case Scan(j, min, least) =>
      if j < |s.counters| then
        s.(phases := s.phases[w := if min > s.counters[j] then Scan(j + 1, s.counters[j], j)
            else Scan(j + 1, min, least)])
      else if 0 <= least < |s.counters| then
        var k := s.counters[least];
        Take(s, w, least, if k >= s.n then Done(least) else Call(k, true))
      else s
    case Done(_) => s
  }

  /** Which counter an index comes from: what is left after strides of t. */
  ghost function Residue(k: int, t: int): int
    requires t > 0
    decreases k
  {
    if k < t then k else Residue(k - t, t)
  }

  ghost predicate Strides(owner: int -> int, k: int, t: int) {
    owner(k + t) == owner(k)
  }

  ghost predicate OneStride(owner: int -> int, j: int, k: int, t: int) {
    0 <= j <= k < j + t && owner(j) == owner(k) ==> j == k
  }

  ghost predicate Residues(owner: int -> int, t: int) {
    && (forall k {:trigger owner(k)} :: 0 <= k ==> 0 <= owner(k) < t)
    && (forall k {:trigger Strides(owner, k, t)} :: 0 <= k ==> Strides(owner, k, t))
    && (forall k {:trigger owner(k)} :: 0 <= k < t ==> owner(k) == k)
    && (forall j, k {:trigger OneStride(owner, j, k, t)} :: OneStride(owner, j, k, t))
  }

  lemma {:induction false} ResidueRange(k: int, t: int)
    requires t > 0 && 0 <= k
    ensures 0 <= Residue(k, t) < t
    decreases k
  {
    if k >= t {
      ResidueRange(k - t, t);
    }
  }

  lemma {:induction false} ResidueGap(j: int, k: int, t: int)
    requires t > 0 && 0 <= j <= k < j + t && Residue(j, t) == Residue(k, t)
    ensures j == k
    decreases j
  {
    if j >= t {
      ResidueGap(j - t, k - t, t);
    }
  }

  ghost function Owner(t: int): int -> int
    requires t > 0
  {
    k => Residue(k, t)
  }

  lemma ResidueOwns(t: int)
    requires t > 0
    ensures Residues(Owner(t), t)
  {
    forall k | 0 <= k ensures 0 <= Owner(t)(k) < t {
      ResidueRange(k, t);
    }
    forall j, k ensures OneStride(Owner(t), j, k, t) {
      if 0 <= j <= k < j + t && Owner(t)(j) == Owner(t)(k) {
        ResidueGap(j, k, t);
      }
    }
  }

  ghost predicate Waiting(s: Loop, k: int) {
    exists w :: 0 <= w < |s.phases| && s.phases[w].Call? && s.phases[w].k == k
  }

  ghost predicate Issued(s: Loop, owner: int -> int, k: int) {
    0 <= k < s.n && 0 <= owner(k) < |s.counters| && k < s.counters[owner(k)]
  }

  /** The indices below the counters have been called, or are about to be, exactly once. */
  ghost predicate Once(s: Loop, owner: int -> int) {
    && Distinct(s.calls)
    && (forall k {:trigger k in s.calls} :: k in s.calls ==> Issued(s, owner, k))
    && (forall w {:trigger s.phases[w]} ::
        0 <= w < |s.phases| && s.phases[w].Call?
        ==> Issued(s, owner, s.phases[w].k) && s.phases[w].k !in s.calls)
    && (forall v, w {:trigger s.phases[v], s.phases[w]} ::
        0 <= v < w < |s.phases| && s.phases[v].Call? && s.phases[w].Call?
        ==> s.phases[v].k != s.phases[w].k)
    && (forall k {:trigger Issued(s, owner, k)} :: Issued(s, owner, k) ==> k in s.calls || Waiting(s, k))
  }

  ghost predicate PastOwn(p: Phase) {
    p.Scan? || p.Done? || (p.Call? && p.stolen)
  }

  /** How many threads have left after a failed take from counter v. */
  ghost function LeftAt(phases: seq<Phase>, v: int): (c: nat)
    ensures c <= |phases|
  {
    if phases == [] then 0
    else LeftAt(phases[..|phases| - 1], v) + (if phases[|phases| - 1] == Done(v) then 1 else 0)
  }

  lemma {:induction false} LeftAtUpdate(phases: seq<Phase>, w: nat, p: Phase, v: int)
    requires w < |phases|
    ensures LeftAt(phases[w := p], v)
        == LeftAt(phases, v) + (if p == Done(v) then 1 else 0) - (if phases[w] == Done(v) then 1 else 0)
  {
    var m := |phases| - 1;
    if w < m {
      assert phases[w := p][..m] == phases[..m][w := p];
      LeftAtUpdate(phases[..m], w, p, v);
    } else {
      assert phases[w := p][..m] == phases[..m];
    }
  }

  /** The failed takes from counter v: its own thread's, and those of the threads that left. */
  ghost function Failed(s: Loop, v: nat): nat
    requires v < |s.phases|
  {
    (if PastOwn(s.phases[v]) then 1 else 0) + LeftAt(s.phases, v)
  }

  ghost function Top(n: int): nat {
    if n < 0 then 0 else n
  }

  /** Each failed take has raised the counter by one stride beyond the end. */
  ghost predicate BoundAt(s: Loop, v: nat)
    requires v < |s.phases| == |s.counters|
  {
    s.counters[v] < Top(s.n) + |s.counters| * (1 + Failed(s, v))
  }

  ghost predicate PhaseAt(s: Loop, w: nat)
    requires w < |s.phases| == |s.counters|
  {
    && (PastOwn(s.phases[w]) ==> s.counters[w] >= s.n)
    && (s.phases[w].Scan? && s.phases[w].j > 0 ==> 0 <= s.phases[w].least < |s.counters|)
    && (s.phases[w].Scan? && s.phases[w].j == 0 ==> s.phases[w].min == LONG_MAX)
    && (s.phases[w].Scan? ==> s.phases[w].j <= |s.counters|)
  }

  ghost predicate Invariant(s: Loop, owner: int -> int) {
    && 0 < |s.counters| == |s.phases|
    && Residues(owner, |s.counters|)
    && (forall v {:trigger s.counters[v]} :: 0 <= v < |s.counters| ==> 0 <= s.counters[v] && owner(s.counters[v]) == v)
    && Once(s, owner)
    && (forall w {:trigger PhaseAt(s, w)} :: 0 <= w < |s.phases| ==> PhaseAt(s, w))
    && (forall v {:trigger BoundAt(s, v)} :: 0 <= v < |s.counters| ==> BoundAt(s, v))
  }

  /** The counters stay within the range of a long. */
  ghost predicate Fits(s: Loop) {
    Top(s.n) + |s.counters| * (|s.counters| + 2) <= LONG_MAX
  }

  lemma MulGrows(t: nat, a: nat, b: nat)
    requires a <= b
    ensures t * a <= t * b
  {
  }

  lemma CounterBound(s: Loop, owner: int -> int, v: nat)
    requires Invariant(s, owner) && v < |s.counters|
    ensures s.counters[v] < Top(s.n) + |s.counters| * (|s.counters| + 2)
  {
    assert BoundAt(s, v);
    MulGrows(|s.counters|, 1 + Failed(s, v), |s.counters| + 2);
  }

  lemma TakeOnce(s: Loop, owner: int -> int, w: nat, v: nat, after: Phase)
    requires Invariant(s, owner) && w < |s.phases| && v < |s.counters| && !s.phases[w].Call?
    requires if s.counters[v] < s.n then after.Call? && after.k == s.counters[v] else !after.Call?
    ensures Once(Take(s, w, v, after), owner)
  {
    var s', k := Take(s, w, v, after), s.counters[v];
    forall j ensures Issued(s', owner, j) <==> Issued(s, owner, j) || (j == k && k < s.n) {
      TakeIssues(s, owner, w, v, after, j);
    }
    forall j | Issued(s', owner, j) ensures j in s'.calls || Waiting(s', j) {
      if j == k && k < s.n {
        assert s'.phases[w] == after;
      } else if j !in s.calls {
        assert Waiting(s, j);
        var u :| 0 <= u < |s.phases| && s.phases[u].Call? && s.phases[u].k == j;
        assert s'.phases[u] == s.phases[u];
      }
    }
    assert !Issued(s, owner, k);
  }

  lemma TakeIssues(s: Loop, owner: int -> int, w: nat, v: nat, after: Phase, j: int)
    requires Invariant(s, owner) && w < |s.phases| && v < |s.counters|
    ensures Issued(Take(s, w, v, after), owner, j) <==>
        Issued(s, owner, j)
        || (j == s.counters[v] && s.counters[v] < s.n)
  {
    var k := s.counters[v];
    assert owner(k) == v;
    if 0 <= j && k <= j < k + |s.counters| && owner(j) == v {
      assert OneStride(owner, k, j, |s.counters|);
    }
  }

  lemma TakeBounds(s: Loop, owner: int -> int, w: nat, v: nat, after: Phase, u: nat)
    requires Invariant(s, owner) && w < |s.phases| && v < |s.counters| && u < |s.counters|
    requires PastOwn(after) == (PastOwn(s.phases[w]) || s.counters[v] >= s.n) && !s.phases[w].Done?
        && (w != v ==> PastOwn(s.phases[w]))
    requires s.counters[v] >= s.n ==> if PastOwn(s.phases[w]) then after == Done(v) else !after.Done? && w == v
    requires s.counters[v] < s.n ==> !after.Done?
    ensures BoundAt(Take(s, w, v, after), u)
  {
    var s', t := Take(s, w, v, after), |s.counters|;
    assert BoundAt(s, u);
    LeftAtUpdate(s.phases, w, after, u);
    if u == v {
      if s.counters[v] >= s.n {
        assert Failed(s', v) == Failed(s, v) + 1;
        assert t * (1 + (Failed(s, v) + 1)) == t * (1 + Failed(s, v)) + t;
      } else {
        MulGrows(t, 1, 1 + Failed(s', v));
      }
    } else {
      assert Failed(s', u) == Failed(s, u);
    }
  }

  lemma TakeKeeps(s: Loop, owner: int -> int, w: nat, v: nat, after: Phase)
    requires Invariant(s, owner) && w < |s.phases| && v < |s.counters| && !s.phases[w].Call? && !s.phases[w].Done?
    requires if s.counters[v] < s.n then after == Call(s.counters[v], PastOwn(s.phases[w]))
             else if PastOwn(s.phases[w]) then after == Done(v) else after == Scan(0, LONG_MAX, -1)
    requires w != v ==> PastOwn(s.phases[w])
    ensures Invariant(Take(s, w, v, after), owner)
  {
    var s' := Take(s, w, v, after);
    TakeOnce(s, owner, w, v, after);
    forall u | 0 <= u < |s'.counters| ensures 0 <= s'.counters[u] && owner(s'.counters[u]) == u {
      assert Strides(owner, s.counters[v], |s.counters|);
    }
    forall u | 0 <= u < |s'.phases| ensures PhaseAt(s', u) {
      assert PhaseAt(s, u);
    }
    forall u | 0 <= u < |s'.counters| ensures BoundAt(s', u) {
      TakeBounds(s, owner, w, v, after, u);
    }
  }

  lemma CallOnce(s: Loop, owner: int -> int, w: nat, after: Phase)
    requires Invariant(s, owner) && w < |s.phases| && s.phases[w].Call? && !after.Call?
    ensures Once(s.(calls := s.calls + [s.phases[w].k], phases := s.phases[w := after]), owner)
  {
    var k := s.phases[w].k;
    var s' := s.(calls := s.calls + [k], phases := s.phases[w := after]);
    forall j | Issued(s', owner, j) ensures j in s'.calls || Waiting(s', j) {
      assert Issued(s, owner, j);
      if j !in s.calls && j != k {
        var u :| 0 <= u < |s.phases| && s.phases[u].Call? && s.phases[u].k == j;
        assert s'.phases[u] == s.phases[u];
      }
    }
    forall j | j in s'.calls ensures Issued(s', owner, j) {
      assert j in s.calls || j == k;
      assert Issued(s, owner, j);
    }
  }

  lemma CallKeeps(s: Loop, owner: int -> int, w: nat)
    requires Invariant(s, owner) && w < |s.phases| && s.phases[w].Call?
    ensures Invariant(Step(s, w), owner)
  {
    var s' := Step(s, w);
    CallOnce(s, owner, w, s'.phases[w]);
    forall u | 0 <= u < |s'.phases| ensures PhaseAt(s', u) {
      assert PhaseAt(s, u);
    }
    forall u | 0 <= u < |s'.counters| ensures BoundAt(s', u) {
      assert BoundAt(s, u);
      LeftAtUpdate(s.phases, w, s'.phases[w], u);
    }
  }

  /** Looking at a counter. */
  lemma LookKeeps(s: Loop, owner: int -> int, w: nat)
    requires Invariant(s, owner) && Fits(s) && w < |s.phases| && s.phases[w].Scan? && s.phases[w].j < |s.counters|
    ensures Invariant(Step(s, w), owner)
  {
    var s' := Step(s, w);
    CounterBound(s, owner, s.phases[w].j);
    assert PhaseAt(s, w);
    forall u | 0 <= u < |s'.phases| ensures PhaseAt(s', u) {
      assert PhaseAt(s, u);
    }
    forall u | 0 <= u < |s'.counters| ensures BoundAt(s', u) {
      assert BoundAt(s, u);
      LeftAtUpdate(s.phases, w, s'.phases[w], u);
    }
    LookOnce(s, owner, w, s'.phases[w]);
  }

  lemma LookOnce(s: Loop, owner: int -> int, w: nat, after: Phase)
    requires Once(s, owner) && w < |s.phases| && !s.phases[w].Call? && !after.Call?
    ensures Once(s.(phases := s.phases[w := after]), owner)
  {
    var s' := s.(phases := s.phases[w := after]);
    forall k | Issued(s', owner, k) ensures k in s'.calls || Waiting(s', k) {
      assert Issued(s, owner, k);
      if k !in s.calls {
        var u :| 0 <= u < |s.phases| && s.phases[u].Call? && s.phases[u].k == k;
        assert s'.phases[u] == s.phases[u];
      }
    }
    forall k | k in s'.calls ensures Issued(s', owner, k) {
      assert Issued(s, owner, k);
    }
  }

  lemma StepKeeps(s: Loop, owner: int -> int, w: nat)
    requires Invariant(s, owner) && Fits(s) && w < |s.phases|
    ensures Invariant(Step(s, w), owner) && Fits(Step(s, w))
  {
    assert PhaseAt(s, w);
    match s.phases[w]
    case Own => TakeKeeps(s, owner, w, w, Step(s, w).phases[w]);
    case Call(k, stolen) => CallKeeps(s, owner, w);
    case Scan(j, min, least) =>
      if j < |s.counters| {
        LookKeeps(s, owner, w);
      } else {
        TakeKeeps(s, owner, w, least, Step(s, w).phases[w]);
      }
    case Done(_) =>
  }

  lemma InitialHolds(n: int, threads: nat)
    requires threads > 0
    ensures Invariant(Initial(n, threads), Owner(threads))
  {
    ResidueOwns(threads);
    var s := Initial(n, threads);
    forall v | 0 <= v < threads ensures BoundAt(s, v) {
      MulGrows(threads, 1, 1 + Failed(s, v));
    }
  }

  /** Every thread choice of the schedule exists. */
  ghost predicate Schedules(schedule: seq<nat>, threads: nat) {
    forall i :: 0 <= i < |schedule| ==> schedule[i] < threads
  }

  /** The state after any interleaving of the threads' actions. */
  ghost function Run(n: int, threads: nat, schedule: seq<nat>): (s: Loop)
    requires threads > 0 && Fits(Initial(n, threads)) && Schedules(schedule, threads)
    ensures Invariant(s, Owner(threads)) && Fits(s) && s.n == n && |s.counters| == threads
    decreases |schedule|
  {
    InitialHolds(n, threads);
    if schedule == [] then Initial(n, threads)
    else
      var r, w := Run(n, threads, schedule[..|schedule| - 1]), schedule[|schedule| - 1];
      StepKeeps(r, Owner(threads), w);
      Step(r, w)
  }

  /** When all threads have left, the function has been called exactly once for each index. */
  lemma ExactlyOnce(n: int, threads: nat, schedule: seq<nat>)
    requires threads > 0 && Fits(Initial(n, threads)) && Schedules(schedule, threads)
    ensures var s := Run(n, threads, schedule);
            (forall w :: 0 <= w < |s.phases| ==> s.phases[w].Done?)
                ==> Distinct(s.calls) && forall k :: k in s.calls <==> 0 <= k < n
  {
    var s, owner := Run(n, threads, schedule), Owner(threads);
    if forall w :: 0 <= w < |s.phases| ==> s.phases[w].Done? {
      forall k ensures k in s.calls <==> 0 <= k < n {
        if 0 <= k < n {
          assert 0 <= owner(k) < threads && PhaseAt(s, owner(k));
          assert Issued(s, owner, k) && !Waiting(s, k);
        }
        if k in s.calls {
          assert Issued(s, owner, k);
        }
      }
    }
  }

  /** At any time no index has been called twice, and only indices of the loop have been. */
  lemma NeverTwice(n: int, threads: nat, schedule: seq<nat>)
    requires threads > 0 && Fits(Initial(n, threads)) && Schedules(schedule, threads)
    ensures var s := Run(n, threads, schedule); Distinct(s.calls) && forall k :: k in s.calls ==> 0 <= k < n
  {
    var s := Run(n, threads, schedule);
    assert forall k :: k in s.calls ==> Issued(s, Owner(threads), k);
  }

  /** No counter ever reaches n + T * (T + 2). */
  lemma CountersBounded(n: int, threads: nat, schedule: seq<nat>, v: nat)
    requires threads > 0 && Fits(Initial(n, threads)) && Schedules(schedule, threads) && v < threads
    ensures Run(n, threads, schedule).counters[v] < Top(n) + threads * (threads + 2)
  {
    CounterBound(Run(n, threads, schedule), Owner(threads), v);
  }

  /** What the counters can still grow by below the bound b. */
  ghost function Slack(counters: seq<int>, b: int): int {
    if counters == [] then 0 else Slack(counters[..|counters| - 1], b) + (b - counters[|counters| - 1])
  }

  lemma {:induction false} SlackUpdate(counters: seq<int>, b: int, v: nat, c: int)
    requires v < |counters|
    ensures Slack(counters[v := c], b) == Slack(counters, b) + counters[v] - c
  {
    var m := |counters| - 1;
    if v < m {
      assert counters[v := c][..m] == counters[..m][v := c];
      SlackUpdate(counters[..m], b, v, c);
    } else {
      assert counters[v := c][..m] == counters[..m];
    }
  }

  lemma {:induction false} SlackPositive(counters: seq<int>, b: int)
    requires forall v :: 0 <= v < |counters| ==> counters[v] <= b
    ensures Slack(counters, b) >= 0
  {
    if counters != [] {
      SlackPositive(counters[..|counters| - 1], b);
    }
  }

  /** The actions that a thread can take before its next fetch-and-add. */
  ghost function Local(p: Phase, t: nat): int {
    match p
    case Own => 1
    case Call(_, _) => t + 2
    case Scan(j, _, _) => t + 1 - j
    case Done(_) => 0
  }

  ghost function Locals(phases: seq<Phase>, t: nat): int {
    if phases == [] then 0 else Locals(phases[..|phases| - 1], t) + Local(phases[|phases| - 1], t)
  }

  lemma {:induction false} LocalsUpdate(phases: seq<Phase>, t: nat, w: nat, p: Phase)
    requires w < |phases|
    ensures Locals(phases[w := p], t) == Locals(phases, t) - Local(phases[w], t) + Local(p, t)
  {
    var m := |phases| - 1;
    if w < m {
      assert phases[w := p][..m] == phases[..m][w := p];
      LocalsUpdate(phases[..m], t, w, p);
    } else {
      assert phases[w := p][..m] == phases[..m];
    }
  }

  lemma {:induction false} LocalsPositive(phases: seq<Phase>, t: nat)
    requires forall w :: 0 <= w < |phases| && phases[w].Scan? ==> phases[w].j <= t
    ensures Locals(phases, t) >= 0
  {
    if phases != [] {
      LocalsPositive(phases[..|phases| - 1], t);
    }
  }

  ghost function Limit(n: int, t: nat): int {
    Top(n) + t * (t + 2)
  }

  /** A bound on the number of actions that the threads can still take. */
  ghost function Remaining(s: Loop): int {
    Weighed(|s.counters|, Slack(s.counters, Limit(s.n, |s.counters|)), Locals(s.phases, |s.counters|))
  }

  ghost function Weighed(t: nat, slack: int, locals: int): int {
    (t + 2) * slack + locals
  }

  lemma WeighedDrops(t: nat, slack: int, locals: int, locals': int)
    requires t > 0 && locals' <= locals + t + 1
    ensures Weighed(t, slack - t, locals') < Weighed(t, slack, locals)
  {
    assert (t + 2) * (slack - t) == (t + 2) * slack - (t + 2) * t;
    MulGrows(t + 2, 1, t);
  }

  lemma RemainingNotNegative(s: Loop, owner: int -> int)
    requires Invariant(s, owner)
    ensures Remaining(s) >= 0
  {
    var t, b := |s.counters|, Limit(s.n, |s.counters|);
    forall v | 0 <= v < |s.counters| ensures s.counters[v] <= b {
      CounterBound(s, owner, v);
    }
    SlackPositive(s.counters, b);
    forall w | 0 <= w < |s.phases| && s.phases[w].Scan? ensures s.phases[w].j <= t {
      assert PhaseAt(s, w);
    }
    LocalsPositive(s.phases, t);
    MulGrows(t + 2, 0, Slack(s.counters, b));
  }

  /** Every action of a thread that has not left brings the end nearer: the threads can be joined. */
  lemma StepProgress(s: Loop, owner: int -> int, w: nat)
    requires Invariant(s, owner) && Fits(s) && w < |s.phases| && !s.phases[w].Done?
    ensures 0 <= Remaining(Step(s, w)) < Remaining(s)
  {
    StepKeeps(s, owner, w);
    RemainingNotNegative(Step(s, w), owner);
    assert PhaseAt(s, w);
    var p, t := Step(s, w).phases[w], |s.counters|;
    if s.phases[w].Own? || (s.phases[w].Scan? && s.phases[w].j == t) {
      TakeProgress(s, w, if s.phases[w].Own? then w else s.phases[w].least, p);
    } else {
      LocalProgress(s, w, Step(s, w));
    }
  }

  lemma LocalProgress(s: Loop, w: nat, s': Loop)
    requires w < |s.phases| == |s'.phases| && s'.n == s.n && s'.counters == s.counters
        && s'.phases == s.phases[w := s'.phases[w]]
    requires Local(s'.phases[w], |s.counters|) < Local(s.phases[w], |s.counters|)
    ensures Remaining(s') < Remaining(s)
  {
    LocalsUpdate(s.phases, |s.counters|, w, s'.phases[w]);
  }

  lemma TakeProgress(s: Loop, w: nat, v: nat, after: Phase)
    requires w < |s.phases| && v < |s.counters| && Local(after, |s.counters|) <= |s.counters| + 2
        && Local(s.phases[w], |s.counters|) >= 1
    ensures Remaining(Take(s, w, v, after)) < Remaining(s)
  {
    var t := |s.counters|;
    LocalsUpdate(s.phases, t, w, after);
    SlackUpdate(s.counters, Limit(s.n, t), v, s.counters[v] + t);
    WeighedDrops(t, Slack(s.counters, Limit(s.n, t)), Locals(s.phases, t), Locals(s.phases[w := after], t));
  }

  /** The loop without threads. */
  method Sequential(n: int) returns (calls: seq<int>)
    ensures |calls| == Top(n) && forall k :: 0 <= k < |calls| ==> calls[k] == k
  {
    calls := [];
    var j := 0;
    while j < n
      invariant 0 <= j <= Top(n) && |calls| == j
      invariant forall k :: 0 <= k < |calls| ==> calls[k] == k
    {
      calls := calls + [j];
      j := j + 1;
    }
  }
}
