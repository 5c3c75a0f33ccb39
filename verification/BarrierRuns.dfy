/** Whole runs of the barrier of AtomicInstructions/barrier_condition.c: what holds after every run, and that
    every run that is not woken early for ever comes to its end. */
module BarrierRuns {
  import opened Barrier

  ghost predicate Possible(s: State, run: seq<Action>)
    decreases |run|
  {
    run == [] || (Enabled(s, run[0]) && Possible(Next(s, run[0]), run[1..]))
  }

  ghost function After(s: State, run: seq<Action>): State
    requires Possible(s, run)
    decreases |run|
  {
    if run == [] then s else After(Next(s, run[0]), run[1..])
  }

  lemma {:induction false} RunKeeps(s: State, run: seq<Action>)
    requires Inv(s) && Possible(s, run)
    ensures Inv(After(s, run)) && |After(s, run).pc| == |s.pc| && After(s, run).rounds == s.rounds
    decreases |run|
  {
    if run != [] {
      StepKeeps(s, run[0]);
      RunKeeps(Next(s, run[0]), run[1..]);
    }
  }

  /** What `run` leads to from the start. */
  ghost predicate Reaches(threadnum: nat, rounds: nat, run: seq<Action>, s: State) {
    Possible(Initialize(threadnum, rounds), run) && After(Initialize(threadnum, rounds), run) == s
  }

  lemma ReachedInv(threadnum: nat, rounds: nat, run: seq<Action>, s: State)
    requires Reaches(threadnum, rounds, run, s)
    ensures Inv(s) && |s.pc| == threadnum && s.rounds == rounds
  {
    InitiallyInv(threadnum, rounds);
    RunKeeps(Initialize(threadnum, rounds), run);
  }

  // ----- safety -----------------------------------------------------------------------------------

  /** The unlocked assertion of line 57 never fails. */
  lemma AssertionHolds(threadnum: nat, rounds: nat, run: seq<Action>, s: State, t: nat)
    requires Reaches(threadnum, rounds, run, s) && t < threadnum
    ensures |s.iteration| == |s.pc| == threadnum && s.pc[t] != Failed
    ensures s.pc[t] == Checking ==> s.barrier_opening_count == s.iteration[t]
  {
    ReachedInv(threadnum, rounds, run, s);
    assert RoundOk(s, t);
  }

  /** Thread t has called wait_at_barrier(i) and counted itself on line 62. */
  predicate Counted(s: State, t: nat, i: nat)
    requires s.Thread(t)
  {
    s.iteration[t] > i || (s.iteration[t] == i && s.pc[t] !in {Outside, Checking, Locking, Counting})
  }

  /** Nobody returns from wait_at_barrier(i) before everybody has called it. */
  lemma NoEarlyReturn(threadnum: nat, rounds: nat, run: seq<Action>, s: State, t: nat, u: nat, i: nat)
    requires Reaches(threadnum, rounds, run, s) && t < threadnum && u < threadnum
    requires |s.iteration| == |s.pc| == threadnum && s.iteration[t] > i
    ensures Counted(s, u, i)
  {
    ReachedInv(threadnum, rounds, run, s);
    assert RoundOk(s, t) && RoundOk(s, u);
  }

  /** Any two threads are at most one round apart. */
  lemma RoundsClose(threadnum: nat, rounds: nat, run: seq<Action>, s: State, t: nat, u: nat)
    requires Reaches(threadnum, rounds, run, s) && t < threadnum && u < threadnum
    ensures |s.iteration| == |s.pc| == threadnum
    ensures s.iteration[t] <= s.iteration[u] + 1
  {
    ReachedInv(threadnum, rounds, run, s);
    assert RoundOk(s, t) && RoundOk(s, u);
  }

  /** A thread in the wait set waits for the round that is open, unless the opener is about to broadcast. */
  lemma WaitersAreCurrent(threadnum: nat, rounds: nat, run: seq<Action>, s: State, t: nat)
    requires Reaches(threadnum, rounds, run, s) && t < |s.pc| && s.pc[t] == Asleep
    ensures |s.iteration| == |s.pc|
    ensures s.iteration[t] == if HolderAt(s, Broadcasting) then s.barrier_opening_count - 1 else s.barrier_opening_count
  {
    ReachedInv(threadnum, rounds, run, s);
    assert RoundOk(s, t);
  }

  // ----- deadlock freedom -------------------------------------------------------------------------

  ghost predicate Finished(s: State) {
    forall t: nat :: s.Thread(t) ==> s.pc[t] == Outside && s.iteration[t] == s.rounds
  }

  ghost predicate CanStep(s: State) {
    exists t: nat :: s.Thread(t) && Enabled(s, Step(t))
  }

  /** Who can go on: every thread, in any order, that is neither asleep nor through its rounds, and for which
      the mutex is free if it needs it; and a sleeper may wake up for no reason at any time. */
  lemma WhoGoesOn(threadnum: nat, rounds: nat, run: seq<Action>, s: State, t: nat)
    requires Reaches(threadnum, rounds, run, s) && t < threadnum
    ensures |s.iteration| == |s.pc| == threadnum
    ensures Enabled(s, Step(t)) <==>
              && s.pc[t] != Asleep && (s.pc[t] == Outside ==> s.iteration[t] < rounds)
              && (s.pc[t] in {Locking, Relocking} ==> s.mutex == Free)
    ensures Enabled(s, WakeEarly(t)) <==> s.pc[t] == Asleep
  {
    ReachedInv(threadnum, rounds, run, s);
    assert RoundOk(s, t);
  }

  /** As long as some thread is not through its rounds, some thread can take a step without being woken for
      no reason. */
  lemma NeverStuck(threadnum: nat, rounds: nat, run: seq<Action>, s: State)
    requires Reaches(threadnum, rounds, run, s)
    ensures Finished(s) || CanStep(s)
  {
    ReachedInv(threadnum, rounds, run, s);
    if s.mutex.HeldBy? {
      assert RoundOk(s, s.mutex.thread);
      assert Enabled(s, Step(s.mutex.thread));
    } else if t: nat :| t < |s.pc| && s.pc[t] != Asleep && !(s.pc[t] == Outside && s.iteration[t] == s.rounds) {
      assert RoundOk(s, t);
      assert Enabled(s, Step(t));
    } else {
      WaitersOrDone(s);
    }
  }

  /** Threads that all sleep or are done are all done: had any slept, all would have arrived. */
  lemma WaitersOrDone(s: State)
    requires Inv(s) && s.mutex == Free
    requires forall t: nat :: t < |s.pc| ==> s.pc[t] == Asleep || (s.pc[t] == Outside && s.iteration[t] == s.rounds)
    ensures Finished(s)
  {
    assert forall t: nat :: t < |s.pc| ==> RoundOk(s, t);
    if t: nat :| t < |s.pc| && s.pc[t] == Asleep {
      assert RoundOk(s, t) && s.iteration[t] == s.barrier_opening_count < s.rounds;
      forall u: nat | u < |s.pc| ensures Arrived(s, u) {
        assert RoundOk(s, u);
      }
      AllArrived(s);
      assert false;
    }
  }

  lemma AllArrived(s: State)
    requires |s.iteration| == |s.pc| && forall u: nat :: u < |s.pc| ==> Arrived(s, u)
    ensures |ArrivedSet(s)| == |s.pc|
  {
    Members(|s.pc|);
    assert ArrivedSet(s) == Upto(|s.pc|);
  }

  function Upto(n: nat): (r: set<nat>) {
    if n == 0 then {} else Upto(n - 1) + {n - 1}
  }

  lemma {:induction false} Members(n: nat)
    ensures |Upto(n)| == n && forall t: nat :: t in Upto(n) <==> t < n
  {
    if n > 0 {
      Members(n - 1);
      assert Upto(n) == Upto(n - 1) + {n - 1};
    } else {
      assert Upto(n) == {};
    }
  }

  // ----- termination ------------------------------------------------------------------------------

  /** How many steps a thread has at most before it returns, if nobody wakes it early; `late` says that its
      round has been opened. */
  function Stage(p: Pc, late: bool): nat {
    match p
    case Outside => 13
    case Checking => 12
    case Locking => 11
    case Counting => 10
    case Resetting => 8
    case Opening => 7
    case Broadcasting => 6
    case Unlocking => 5
    case Sleeping => 9
    case Asleep => 8
    case Relocking => if late then 7 else 11
    case Rechecking => if late then 6 else 10
    case Leaving => 5
    case Failed => 0
  }

  function Rank(s: State, t: nat): nat
    requires s.Thread(t)
  {
    14 * (if s.rounds < s.iteration[t] then 0 else s.rounds - s.iteration[t])
    + Stage(s.pc[t], s.iteration[t] < s.barrier_opening_count)
  }

  /** The ranks of threads below k. */
  function Total(s: State, k: nat): nat
    requires |s.iteration| == |s.pc| && k <= |s.pc|
  {
    if k == 0 then 0 else Total(s, k - 1) + Rank(s, k - 1)
  }

  lemma {:induction false} TotalChanges(s: State, s': State, t: nat, d: int, k: nat)
    requires |s.iteration| == |s.pc| == |s'.pc| == |s'.iteration| && k <= |s.pc| && t < |s.pc|
    requires Rank(s', t) <= Rank(s, t) + d
    requires forall u: nat :: u < |s.pc| && u != t ==> Rank(s', u) <= Rank(s, u)
    ensures Total(s', k) <= Total(s, k) + if t < k then d else 0
  {
    if k > 0 {
      TotalChanges(s, s', t, d, k - 1);
    }
  }

  lemma RankOfOthers(s: State, a: Action, u: nat)
    requires Inv(s) && Enabled(s, a) && u < |s.pc| && u != a.thread
    ensures Rank(Next(s, a), u) <= Rank(s, u)
  {
    assert RoundOk(s, u) && RoundOk(s, a.thread);
  }

  lemma RankOfMover(s: State, a: Action)
    requires Inv(s) && Enabled(s, a)
    ensures Rank(Next(s, a), a.thread) <= Rank(s, a.thread) + if a.Step? then -1 else 3
  {
    assert RoundOk(s, a.thread);
  }

  /** How many of the actions wake a thread for no reason. */
  function Early(run: seq<Action>): nat {
    if run == [] then 0 else (if run[0].WakeEarly? then 1 else 0) + Early(run[1..])
  }

  lemma {:induction false} RunIsBounded(s: State, run: seq<Action>)
    requires Inv(s) && Possible(s, run)
    ensures Inv(After(s, run))
    ensures |run| + Total(After(s, run), |After(s, run).pc|) <= Total(s, |s.pc|) + 4 * Early(run)
    decreases |run|
  {
    if run != [] {
      var a, s' := run[0], Next(s, run[0]);
      StepKeeps(s, a);
      forall u: nat | u < |s.pc| && u != a.thread ensures Rank(s', u) <= Rank(s, u) {
        RankOfOthers(s, a, u);
      }
      RankOfMover(s, a);
      TotalChanges(s, s', a.thread, if a.Step? then -1 else 3, |s.pc|);
      RunIsBounded(s', run[1..]);
    }
  }

  lemma {:induction false} InitialTotal(threadnum: nat, rounds: nat, k: nat)
    requires k <= threadnum
    ensures Total(Initialize(threadnum, rounds), k) == k * (14 * rounds + 13)
  {
    if k > 0 {
      InitialTotal(threadnum, rounds, k - 1);
      assert k * (14 * rounds + 13) == (k - 1) * (14 * rounds + 13) + (14 * rounds + 13);
    }
  }

  /** Every run is finite but for early wake-ups, so with NeverStuck all threads get through all rounds. */
  lemma {:induction false} RunsEnd(threadnum: nat, rounds: nat, run: seq<Action>)
    requires Possible(Initialize(threadnum, rounds), run)
    ensures |run| <= threadnum * (14 * rounds + 13) + 4 * Early(run)
  {
    InitiallyInv(threadnum, rounds);
    RunIsBounded(Initialize(threadnum, rounds), run);
    InitialTotal(threadnum, rounds, threadnum);
  }
}
