/** The worker pool as a state machine over the steps of its threads, in every
    interleaving. */
module WorkerPools {
  import opened Options

  const COUNTER_RANGE: nat := 0x1_0000_0000_0000_0000

  datatype Worker = Fetching | Running(index: nat) | Done

  /** What the calling thread is doing. */
  datatype Caller = Spawning | Joining(joined: nat) | Returned

  /** How one call of a job ends, and what it has then written to its own slot. */
  datatype Attempt<R> = Completed(slot: R) | Threw(slot: R)

  /** One pool run: how many jobs, how many workers are created, and what calling
      job i does to its slot. */
  datatype Pool<!R> = Pool(jobCount: nat, workerCount: nat, job: (nat, R) -> Attempt<R>, initial: seq<R>)

  /** next is the shared counter; ran counts the ended runs of each index, thrown
      holds the indices whose exception was contained. */
  datatype State<R> = State(next: nat, workers: seq<Worker>, caller: Caller, slots: seq<R>, started: seq<nat>,
                            ran: multiset<nat>, thrown: set<nat>)

  datatype Action = Spawn | StopSpawning | Fetch(worker: nat) | Finish(worker: nat) | Join | Return

  /** What the code does: at least two threads, never more workers than jobs,
      at least one job. The counter is a 64-bit word. */
  predicate WellFormed<R>(p: Pool<R>) {
    && 0 < p.workerCount <= p.jobCount < COUNTER_RANGE && p.jobCount + p.workerCount <= COUNTER_RANGE
    && |p.initial| == p.jobCount
  }

  function WorkerCount(threadCount: nat, jobCount: nat): nat {
    if threadCount < jobCount then threadCount else jobCount
  }

  /** The pools the code makes with at least two threads, short of the counter's
      range. */
  lemma MadePoolsAreWellFormed<R>(threadCount: nat, p: Pool<R>)
    requires threadCount >= 2 && 0 < p.jobCount <= COUNTER_RANGE / 2 && |p.initial| == p.jobCount
    requires p.workerCount == WorkerCount(threadCount, p.jobCount)
    ensures WellFormed(p)
  {}

  function Start<R>(p: Pool<R>): State<R> {
    State(0, [], Spawning, p.initial, [], multiset{}, {})
  }

  /** The effect of an action, when it is enabled. */
  function Next<R>(p: Pool<R>, s: State<R>, a: Action): Option<State<R>> {
    match a
    case Spawn =>
      if s.caller == Spawning && |s.workers| < p.workerCount then Some(s.(workers := s.workers + [Fetching])) else None
    case StopSpawning =>
      if s.caller == Spawning && |s.workers| == p.workerCount then Some(s.(caller := Joining(0))) else None
    case Fetch(w) =>
      if w < |s.workers| && s.workers[w] == Fetching then
        var index := s.next;
        var s1 := s.(next := (s.next + 1) % COUNTER_RANGE);
        if index >= p.jobCount then Some(s1.(workers := s.workers[w := Done]))
        else Some(s1.(workers := s.workers[w := Running(index)], started := s.started + [index]))
      else None
    case Finish(w) =>
      if w < |s.workers| && s.workers[w].Running? && s.workers[w].index < |s.slots| then
        var i := s.workers[w].index;
        var attempt := p.job(i, s.slots[i]);
        Some(s.(workers := s.workers[w := Fetching], slots := s.slots[i := attempt.slot], ran := s.ran + multiset{i},
                thrown := if attempt.Threw? then s.thrown + {i} else s.thrown))
      else None
    case Join =>
      if s.caller.Joining? && s.caller.joined < p.workerCount && s.caller.joined < |s.workers| && s.workers[s.caller.joined] == Done
      then Some(s.(caller := Joining(s.caller.joined + 1))) else None
    case Return =>
      if s.caller == Joining(p.workerCount) then Some(s.(caller := Returned)) else None
  }

  /** A run: any sequence of enabled actions of any threads. */
  function Exec<R>(p: Pool<R>, s: State<R>, actions: seq<Action>): Option<State<R>> {
    if actions == [] then Some(s)
    else
      var before := Exec(p, s, actions[..|actions| - 1]);
      if before.None? then None else Next(p, before.value, actions[|actions| - 1])
  }

  function DoneCount(workers: seq<Worker>): (n: nat)
    ensures n <= |workers|
  {
    if workers == [] then 0 else DoneCount(workers[..|workers| - 1]) + if workers[|workers| - 1] == Done then 1 else 0
  }

  // ---------------------------------------------------------------------
  // What every step keeps.
  // ---------------------------------------------------------------------

  /** The counter has handed out the indices in order, and past the end once to
      each worker that is done. */
  ghost predicate CounterHolds<R>(p: Pool<R>, s: State<R>) {
    && |s.started| <= p.jobCount
    && (forall i :: 0 <= i < |s.started| ==> s.started[i] == i)
    && |s.workers| <= p.workerCount
    && s.next == (|s.started| + DoneCount(s.workers)) % COUNTER_RANGE
    && (forall w :: 0 <= w < |s.workers| && s.workers[w] == Done ==> |s.started| == p.jobCount)
  }

  /** Each index handed out is being run by exactly one worker or was run exactly
      once, and no other index was run. */
  ghost predicate RunsHold<R>(p: Pool<R>, s: State<R>) {
    && (forall w :: 0 <= w < |s.workers| && s.workers[w].Running? ==>
          s.workers[w].index < |s.started| && s.ran[s.workers[w].index] == 0)
    && (forall v, w :: 0 <= v < w < |s.workers| && s.workers[v].Running? && s.workers[w].Running? ==>
          s.workers[v].index != s.workers[w].index)
    && (forall i :: 0 <= i < |s.started| ==> s.ran[i] == 1 || IsRunning(s, i))
    && (forall i :: i in s.ran ==> 0 <= i < |s.started| && s.ran[i] == 1)
  }

  predicate IsRunning<R>(s: State<R>, i: int) {
    exists w :: 0 <= w < |s.workers| && s.workers[w].Running? && s.workers[w].index == i
  }

  /** A slot holds what its own job left there, and nothing else; the contained
      exceptions are those of the jobs that were run. */
  ghost predicate SlotsHold<R>(p: Pool<R>, s: State<R>) {
    && |p.initial| == p.jobCount && |s.slots| == p.jobCount
    && (forall i :: 0 <= i < p.jobCount ==>
      s.slots[i] == if s.ran[i] > 0 then p.job(i, p.initial[i]).slot else p.initial[i])
    && (forall i :: i in s.thrown <==> 0 <= i < p.jobCount && s.ran[i] > 0 && p.job(i, p.initial[i]).Threw?)
  }

  ghost predicate CallerHolds<R>(p: Pool<R>, s: State<R>) {
    && (s.caller != Spawning ==> |s.workers| == p.workerCount)
    && (s.caller.Joining? ==> s.caller.joined <= p.workerCount && forall w :: 0 <= w < s.caller.joined ==> s.workers[w] == Done)
    && (s.caller == Returned ==> forall w :: 0 <= w < p.workerCount ==> s.workers[w] == Done)
  }

  ghost predicate Invariant<R>(p: Pool<R>, s: State<R>) {
    WellFormed(p) && CounterHolds(p, s) && RunsHold(p, s) && SlotsHold(p, s) && CallerHolds(p, s)
  }

  lemma {:induction false} DoneCountUpdate(workers: seq<Worker>, w: nat, x: Worker)
    requires w < |workers| && workers[w] != Done
    ensures DoneCount(workers[w := x]) == DoneCount(workers) + if x == Done then 1 else 0
  {
    var n := |workers| - 1;
    if w < n {
      DoneCountUpdate(workers[..n], w, x);
      assert workers[w := x][..n] == workers[..n][w := x];
    } else {
      assert workers[w := x][..n] == workers[..n];
    }
  }

  lemma {:induction false} DoneCountBelow(workers: seq<Worker>, w: nat)
    requires w < |workers| && workers[w] != Done
    ensures DoneCount(workers) < |workers|
  {
    var n := |workers| - 1;
    if w < n {
      DoneCountBelow(workers[..n], w);
    }
  }

  /** The counter does not wrap while a worker still fetches. */
  lemma CounterIsExact<R>(p: Pool<R>, s: State<R>, w: nat)
    requires Invariant(p, s) && w < |s.workers| && s.workers[w] != Done
    ensures s.next == |s.started| + DoneCount(s.workers) < COUNTER_RANGE
    ensures s.next < p.jobCount ==> s.next == |s.started|
    ensures s.next >= p.jobCount ==> |s.started| == p.jobCount
  {
    DoneCountBelow(s.workers, w);
    SomeoneDone(s.workers);
  }

  lemma {:induction false} SomeoneDone(workers: seq<Worker>)
    ensures DoneCount(workers) > 0 ==> exists w :: 0 <= w < |workers| && workers[w] == Done
  {
    if workers != [] {
      var n := |workers| - 1;
      SomeoneDone(workers[..n]);
      if DoneCount(workers[..n]) > 0 {
        var w :| 0 <= w < n && workers[..n][w] == Done;
        assert workers[w] == Done;
      }
    }
  }

  lemma StartHolds<R>(p: Pool<R>)
    requires WellFormed(p)
    ensures Invariant(p, Start(p))
  {}

  lemma FetchKeeps<R>(p: Pool<R>, s: State<R>, w: nat)
    requires Invariant(p, s) && Next(p, s, Fetch(w)).Some?
    ensures Invariant(p, Next(p, s, Fetch(w)).value)
  {
    CounterIsExact(p, s, w);
    var t := Next(p, s, Fetch(w)).value;
    DoneCountUpdate(s.workers, w, t.workers[w]);
    FetchKeepsCounter(p, s, w, t);
    FetchKeepsRuns(p, s, w, t);
    assert SlotsHold(p, t) && CallerHolds(p, t);
  }

  lemma FetchKeepsCounter<R>(p: Pool<R>, s: State<R>, w: nat, t: State<R>)
    requires Invariant(p, s) && Next(p, s, Fetch(w)) == Some(t)
    requires s.next == |s.started| + DoneCount(s.workers) < COUNTER_RANGE
    requires s.next < p.jobCount ==> s.next == |s.started|
    requires s.next >= p.jobCount ==> |s.started| == p.jobCount
    requires DoneCount(t.workers) == DoneCount(s.workers) + if t.workers[w] == Done then 1 else 0
    ensures CounterHolds(p, t)
  {
    hide DoneCount, RunsHold, SlotsHold, CallerHolds;
    forall v | 0 <= v < |t.workers| && t.workers[v] == Done ensures |t.started| == p.jobCount {
      if v != w {
        assert s.workers[v] == Done;
      }
    }
  }

  lemma FetchKeepsRuns<R>(p: Pool<R>, s: State<R>, w: nat, t: State<R>)
    requires Invariant(p, s) && Next(p, s, Fetch(w)) == Some(t)
    requires s.next < p.jobCount ==> s.next == |s.started|
    ensures RunsHold(p, t)
  {
    hide DoneCount, SlotsHold, CallerHolds;
    forall i | 0 <= i < |t.started| ensures t.ran[i] == 1 || IsRunning(t, i) {
      if i < |s.started| {
        if s.ran[i] != 1 {
          var v :| 0 <= v < |s.workers| && s.workers[v].Running? && s.workers[v].index == i;
          assert t.workers[v] == s.workers[v];
        }
      } else {
        assert t.workers[w] == Running(i);
      }
    }
  }

  lemma FinishKeeps<R>(p: Pool<R>, s: State<R>, w: nat)
    requires Invariant(p, s) && Next(p, s, Finish(w)).Some?
    ensures Invariant(p, Next(p, s, Finish(w)).value)
  {
    var t := Next(p, s, Finish(w)).value;
    DoneCountUpdate(s.workers, w, Fetching);
    hide DoneCount;
    FinishKeepsRuns(p, s, w, t);
    assert CounterHolds(p, t) by {
      forall v | 0 <= v < |t.workers| && t.workers[v] == Done ensures |t.started| == p.jobCount {
        assert s.workers[v] == Done;
      }
    }
    assert SlotsHold(p, t) && CallerHolds(p, t);
  }

  lemma FinishKeepsRuns<R>(p: Pool<R>, s: State<R>, w: nat, t: State<R>)
    requires Invariant(p, s) && Next(p, s, Finish(w)) == Some(t)
    ensures RunsHold(p, t)
  {
    hide DoneCount, SlotsHold, CallerHolds, CounterHolds;
    var done := s.workers[w].index;
    forall i | 0 <= i < |t.started| ensures t.ran[i] == 1 || IsRunning(t, i) {
      if i != done && s.ran[i] != 1 {
        var v :| 0 <= v < |s.workers| && s.workers[v].Running? && s.workers[v].index == i;
        assert t.workers[v] == s.workers[v];
      }
    }
    forall v | 0 <= v < |t.workers| && t.workers[v].Running? ensures t.workers[v].index < |t.started| && t.ran[t.workers[v].index] == 0 {
      assert v != w && t.workers[v] == s.workers[v];
      assert s.workers[v].index != done;
    }
  }

  lemma SpawnKeeps<R>(p: Pool<R>, s: State<R>)
    requires Invariant(p, s) && Next(p, s, Spawn).Some?
    ensures Invariant(p, Next(p, s, Spawn).value)
  {
    var t := Next(p, s, Spawn).value;
    assert t.workers[..|s.workers|] == s.workers;
    assert CounterHolds(p, t) by {
      assert forall v :: 0 <= v < |t.workers| && t.workers[v] == Done ==> s.workers[v] == Done;
    }
    SpawnKeepsRuns(p, s, t);
    hide CounterHolds, RunsHold, DoneCount;
    assert SlotsHold(p, t) && CallerHolds(p, t);
  }

  lemma SpawnKeepsRuns<R>(p: Pool<R>, s: State<R>, t: State<R>)
    requires RunsHold(p, s) && Next(p, s, Spawn) == Some(t)
    ensures RunsHold(p, t)
  {
    assert forall v :: 0 <= v < |t.workers| && t.workers[v].Running? ==> v < |s.workers| && s.workers[v] == t.workers[v];
    forall i | 0 <= i < |t.started| ensures t.ran[i] == 1 || IsRunning(t, i) {
      if s.ran[i] != 1 {
        var v :| 0 <= v < |s.workers| && s.workers[v].Running? && s.workers[v].index == i;
        assert t.workers[v] == s.workers[v];
      }
    }
  }

  /** The caller's other steps touch nothing but itself. */
  lemma CallerStepKeeps<R>(p: Pool<R>, s: State<R>, a: Action)
    requires Invariant(p, s) && (a == StopSpawning || a == Join || a == Return) && Next(p, s, a).Some?
    ensures Invariant(p, Next(p, s, a).value)
  {
    var t := Next(p, s, a).value;
    assert t == s.(caller := t.caller);
    assert CallerHolds(p, t);
    hide CallerHolds, Next;
    assert CounterHolds(p, t) && SlotsHold(p, t);
    hide CounterHolds, SlotsHold;
    assert forall i :: IsRunning(s, i) <==> IsRunning(t, i);
    hide IsRunning;
  }

  /** Every step of every thread keeps the invariant. */
  lemma StepKeepsInvariant<R>(p: Pool<R>, s: State<R>, a: Action)
    requires Invariant(p, s) && Next(p, s, a).Some?
    ensures Invariant(p, Next(p, s, a).value)
  {
    hide Invariant, Next;
    match a {
      case Fetch(w) => FetchKeeps(p, s, w);
      case Finish(w) => FinishKeeps(p, s, w);
      case Spawn => SpawnKeeps(p, s);
      case _ => CallerStepKeeps(p, s, a);
    }
  }

  /** The invariant holds after every run, in every interleaving. */
  lemma {:induction false} RunKeepsInvariant<R>(p: Pool<R>, actions: seq<Action>)
    requires WellFormed(p) && Exec(p, Start(p), actions).Some?
    ensures Invariant(p, Exec(p, Start(p), actions).value)
  {
    if actions == [] {
      StartHolds(p);
    } else {
      var front := actions[..|actions| - 1];
      RunKeepsInvariant(p, front);
      StepKeepsInvariant(p, Exec(p, Start(p), front).value, actions[|actions| - 1]);
    }
  }

  /** At no point of any run has an index been handed out twice, run twice, or
      been run and still be running. */
  lemma NoIndexTwice<R>(p: Pool<R>, actions: seq<Action>)
    requires WellFormed(p) && Exec(p, Start(p), actions).Some?
    ensures var s := Exec(p, Start(p), actions).value;
      && (forall i, j :: 0 <= i < j < |s.started| ==> s.started[i] != s.started[j])
      && (forall i :: s.ran[i] <= 1)
      && (forall i :: IsRunning(s, i) ==> s.ran[i] == 0)
  {
    RunKeepsInvariant(p, actions);
    hide Exec;
  }

  // ---------------------------------------------------------------------
  // When the call returns.
  // ---------------------------------------------------------------------

  /** What the sequential loop leaves in the slots. */
  function Sequential<R>(p: Pool<R>): (r: seq<R>)
    requires |p.initial| == p.jobCount
    ensures |r| == p.jobCount
  {
    seq(p.jobCount, i requires 0 <= i < p.jobCount => p.job(i, p.initial[i]).slot)
  }

  /** When the call returns, each index below the job count was run exactly once
      and no other was, no worker is still running, and the slots are those the
      sequential loop leaves, whichever jobs threw: exactly their exceptions were
      contained. */
  lemma ReturnsWhenAllDone<R>(p: Pool<R>, actions: seq<Action>)
    requires WellFormed(p) && Exec(p, Start(p), actions).Some?
    requires Exec(p, Start(p), actions).value.caller == Returned
    ensures var s := Exec(p, Start(p), actions).value;
      && (forall i :: s.ran[i] == if 0 <= i < p.jobCount then 1 else 0)
      && (forall i :: !IsRunning(s, i))
      && s.slots == Sequential(p)
      && (forall i :: i in s.thrown <==> 0 <= i < p.jobCount && p.job(i, p.initial[i]).Threw?)
  {
    RunKeepsInvariant(p, actions);
    var s := Exec(p, Start(p), actions).value;
    hide Exec;
    assert s.workers[0] == Done;
    assert |s.started| == p.jobCount;
    assert forall w :: 0 <= w < |s.workers| ==> s.workers[w] == Done;
    assert forall i :: !IsRunning(s, i);
    forall i: nat ensures s.ran[i] == if 0 <= i < p.jobCount then 1 else 0 {
      assert i !in s.ran ==> s.ran[i] == 0;
      assert 0 <= i < p.jobCount ==> s.ran[i] == 1 || IsRunning(s, i);
    }
  }

  // ---------------------------------------------------------------------
  // Every run ends.
  // ---------------------------------------------------------------------

  function Weight(w: Worker): nat {
    match w
    case Fetching => 1
    case Running(_) => 2
    case Done => 0
  }

  function Weights(workers: seq<Worker>): nat {
    if workers == [] then 0 else Weights(workers[..|workers| - 1]) + Weight(workers[|workers| - 1])
  }

  /** The steps that are left at most. */
  function StepsLeft<R>(p: Pool<R>, s: State<R>): int {
    2 * (p.jobCount - |s.started|) + Weights(s.workers)
    + match s.caller
      case Spawning => 2 * (p.workerCount - |s.workers|) + p.workerCount + 2
      case Joining(k) => p.workerCount - k + 1
      case Returned => 0
  }

  lemma {:induction false} WeightsUpdate(workers: seq<Worker>, w: nat, x: Worker)
    requires w < |workers|
    ensures Weights(workers[w := x]) == Weights(workers) - Weight(workers[w]) + Weight(x)
  {
    var n := |workers| - 1;
    if w < n {
      WeightsUpdate(workers[..n], w, x);
      assert workers[w := x][..n] == workers[..n][w := x];
    } else {
      assert workers[w := x][..n] == workers[..n];
    }
  }

  /** Every step brings the end nearer. */
  lemma StepsDecrease<R>(p: Pool<R>, s: State<R>, a: Action)
    requires Invariant(p, s) && Next(p, s, a).Some?
    ensures 0 <= StepsLeft(p, Next(p, s, a).value) < StepsLeft(p, s)
  {
    StepKeepsInvariant(p, s, a);
    var t := Next(p, s, a).value;
    match a {
      case Spawn =>
        assert t.workers[..|s.workers|] == s.workers;
      case Fetch(w) =>
        CounterIsExact(p, s, w);
        WeightsUpdate(s.workers, w, t.workers[w]);
      case Finish(w) =>
        WeightsUpdate(s.workers, w, Fetching);
      case _ =>
    }
    hide RunsHold, SlotsHold, Weights, DoneCount;
  }

  /** No interleaving gets stuck before the call returns. */
  lemma SomeStepIsEnabled<R>(p: Pool<R>, s: State<R>) returns (a: Action)
    requires Invariant(p, s) && s.caller != Returned
    ensures Next(p, s, a).Some?
  {
    match s.caller {
      case Spawning => a := if |s.workers| < p.workerCount then Spawn else StopSpawning;
      case Joining(k) =>
        if k == p.workerCount {
          a := Return;
        } else {
          match s.workers[k] {
            case Done => a := Join;
            case Fetching => a := Fetch(k);
            case Running(_) => a := Finish(k);
          }
        }
    }
  }

  /** No run has more steps than there are to begin with; one that cannot go on
      has returned. */
  lemma {:induction false} RunsAreBounded<R>(p: Pool<R>, actions: seq<Action>)
    requires WellFormed(p) && Exec(p, Start(p), actions).Some?
    ensures |actions| + StepsLeft(p, Exec(p, Start(p), actions).value) <= 2 * p.jobCount + 3 * p.workerCount + 2
    ensures (forall a :: Next(p, Exec(p, Start(p), actions).value, a).None?) ==> Exec(p, Start(p), actions).value.caller == Returned
  {
    RunKeepsInvariant(p, actions);
    var s := Exec(p, Start(p), actions).value;
    if s.caller != Returned {
      var a := SomeStepIsEnabled(p, s);
    }
    hide Invariant, Next;
    if actions != [] {
      var front := actions[..|actions| - 1];
      RunsAreBounded(p, front);
      RunKeepsInvariant(p, front);
      StepsDecrease(p, Exec(p, Start(p), front).value, actions[|actions| - 1]);
    }
  }

  // ---------------------------------------------------------------------
  // The single-threaded branch.
  // ---------------------------------------------------------------------

  /** With at most one thread the jobs run on the calling thread in order; an
      exception does not end the loop. */
  method RunSequentially<R>(slots: array<R>, job: (nat, R) -> Attempt<R>) returns (ghost thrown: set<nat>)
    modifies slots
    ensures slots[..] == Sequential(Pool(slots.Length, 1, job, old(slots[..])))
    ensures forall i :: i in thrown <==> 0 <= i < slots.Length && job(i, old(slots[..])[i]).Threw?
  {
    thrown := {};
    for i := 0 to slots.Length
      invariant forall k :: 0 <= k < i ==> slots[k] == job(k, old(slots[..])[k]).slot
      invariant forall k :: i <= k < slots.Length ==> slots[k] == old(slots[..])[k]
      invariant forall k :: k in thrown <==> 0 <= k < i && job(k, old(slots[..])[k]).Threw?
    {
      var attempt := job(i, slots[i]);
      slots[i] := attempt.slot;
      if attempt.Threw? {
        thrown := thrown + {i};
      }
    }
  }
}
