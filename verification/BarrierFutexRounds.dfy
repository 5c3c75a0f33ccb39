/** What AtomicInstructions/barrier_futex.c does not guarantee: a thread that adds on line 82 and loads on
    line 83 may see the count of others, so two threads can open the same round.  Exactly with fewer than two
    threads every round opens once and no assertion fails. */
module BarrierFutexRounds {
  import opened BarrierFutex

  /** No round has been opened that some thread has not yet called. */
  ghost predicate RoundSafe(s: State) {
    forall t :: 0 <= t < |s.threads| ==> s.barrier_opening_count <= s.threads[t].iteration + 1
  }

  ghost predicate AlwaysSafe(threadnum: nat) {
    forall run :: Possible(Initialize(threadnum), run) ==> RoundSafe(After(Initialize(threadnum), run))
  }

  /** The assertions of lines 80, 109 and 110 hold in every run. */
  ghost predicate NeverStops(threadnum: nat) {
    forall run :: Possible(Initialize(threadnum), run) ==> !After(Initialize(threadnum), run).stopped
  }

  // ----- one thread ---------------------------------------------------------------------------------

  ghost predicate Solo(s: State) {
    && |s.threads| == 1 && !s.stopped
    && var th, c, n := s.threads[0], s.barrier_opening_count, s.threads_at_barrier;
       match th.pc
       case Outside => c == th.iteration && n == 0
       case Loading => c == th.iteration && n == 0
       case Checking => c == th.iteration == th.local_open_count && n == 0
       case Adding => c == th.iteration && n == 0
       case Counting => c == th.iteration && n == 1
       case Comparing => c == th.iteration && n == 1 == th.local_thread_count
       case Resetting => c == th.iteration
       case Opening => c == th.iteration && n == 0
       case Waking => c == th.iteration + 1 && n == 0
       case LoadingLast => c == th.iteration + 1 && n == 0
       case CheckingLast => c == th.iteration + 1 && n == 0 == th.local_thread_count
       case _ => false
  }

  lemma SoloStep(s: State, a: Action)
    requires Solo(s) && Enabled(s, a)
    ensures Solo(Next(s, a))
  {
    if a.Step? && s.threads[0].pc == Waking {
      NobodyAsleep(s, 0, a.woken);
      assert Queued(s) == {};
      WakesEverybody(s, a.woken);
    }
  }

  lemma {:induction false} SoloRun(s: State, run: seq<Action>)
    requires Solo(s) && Possible(s, run)
    ensures Solo(After(s, run))
    decreases |run|
  {
    if run != [] {
      SoloStep(s, run[0]);
      SoloRun(Next(s, run[0]), run[1..]);
    }
  }

  lemma {:induction false} NothingHappens(run: seq<Action>)
    requires Possible(Initialize(0), run)
    ensures run == []
  {
  }

  // ----- two threads or more ------------------------------------------------------------------------

  lemma {:induction false} Prepend(s: State, a: Action, run: seq<Action>)
    requires Enabled(s, a) && Possible(Next(s, a), run)
    ensures Possible(s, [a] + run) && After(s, [a] + run) == After(Next(s, a), run)
  {
    assert ([a] + run)[1..] == run;
  }

  /** Threads 0 and 1 as given, the first k of the others behind the add of line 82, the rest not started. */
  function Stage(n: nat, k: nat, zero: Thread, one: Thread, threads_at_barrier: int, opening: int): State {
    State(seq(n, i requires 0 <= i < n =>
                if i == 0 then zero else if i == 1 then one
                else if i < k then Thread(Counting, 0, 0, 0) else Thread(Outside, 0, 0, 0)),
          threads_at_barrier, opening, false)
  }

  function At(pc: Pc, seen: int): Thread {
    Thread(pc, 0, 0, seen)
  }

  lemma SetThread(n: nat, k: nat, zero: Thread, one: Thread, t: nat, th: Thread)
    requires 2 <= k <= n && t < n && (t >= 2 ==> t == k && th == At(Counting, 0))
    ensures Stage(n, k, zero, one, 0, 0).threads[t := th]
         == if t == 0 then Stage(n, k, th, one, 0, 0).threads
            else if t == 1 then Stage(n, k, zero, th, 0, 0).threads
            else Stage(n, k + 1, zero, one, 0, 0).threads
  {
  }

  /** One step of thread 0. */
  lemma ZeroSteps(n: nat, zero: Thread, one: Thread, count: int, opening: int,
                  zero': Thread, count': int, opening': int, run: seq<Action>)
    returns (longer: seq<Action>)
    requires n >= 2 && zero.pc !in {Asleep, Waking, Passing}
    requires Next(Stage(n, n, zero, one, count, opening), Step(0, {}))
          == Stage(n, n, zero, one, count', opening').Set(0, zero')
    requires Possible(Stage(n, n, zero', one, count', opening'), run)
    ensures Possible(Stage(n, n, zero, one, count, opening), longer)
    ensures After(Stage(n, n, zero, one, count, opening), longer)
         == After(Stage(n, n, zero', one, count', opening'), run)
  {
    SetThread(n, n, zero, one, 0, zero');
    Prepend(Stage(n, n, zero, one, count, opening), Step(0, {}), run);
    longer := [Step(0, {})] + run;
  }

  /** One step of thread 1. */
  lemma OneSteps(n: nat, zero: Thread, one: Thread, count: int, opening: int,
                 one': Thread, count': int, opening': int, run: seq<Action>)
    returns (longer: seq<Action>)
    requires n >= 2 && one.pc !in {Asleep, Waking, Passing}
    requires Next(Stage(n, n, zero, one, count, opening), Step(1, {}))
          == Stage(n, n, zero, one, count', opening').Set(1, one')
    requires Possible(Stage(n, n, zero, one', count', opening'), run)
    ensures Possible(Stage(n, n, zero, one, count, opening), longer)
    ensures After(Stage(n, n, zero, one, count, opening), longer)
         == After(Stage(n, n, zero, one', count', opening'), run)
  {
    SetThread(n, n, zero, one, 1, one');
    Prepend(Stage(n, n, zero, one, count, opening), Step(1, {}), run);
    longer := [Step(1, {})] + run;
  }

  /** Both threads open the round. */
  lemma BothCount(n: nat, run0: seq<Action>) returns (run: seq<Action>)
    requires n >= 2 && Possible(Stage(n, n, At(Waking, n), At(Waking, n), 0, 2), run0)
    ensures Possible(Stage(n, n, At(Opening, n), At(Opening, n), 0, 0), run)
    ensures After(Stage(n, n, At(Opening, n), At(Opening, n), 0, 0), run)
         == After(Stage(n, n, At(Waking, n), At(Waking, n), 0, 2), run0)
  {
    run := OneSteps(n, At(Waking, n), At(Opening, n), 0, 1, At(Waking, n), 0, 2, run0);
    run := ZeroSteps(n, At(Opening, n), At(Opening, n), 0, 0, At(Waking, n), 0, 1, run);
  }

  /** Both threads, having loaded threadnum, reset the count and open the round. */
  lemma BothOpen(n: nat, run0: seq<Action>) returns (run: seq<Action>)
    requires n >= 2 && Possible(Stage(n, n, At(Waking, n), At(Waking, n), 0, 2), run0)
    ensures Possible(Stage(n, n, At(Comparing, n), At(Comparing, n), n, 0), run)
    ensures After(Stage(n, n, At(Comparing, n), At(Comparing, n), n, 0), run)
         == After(Stage(n, n, At(Waking, n), At(Waking, n), 0, 2), run0)
  {
    run := BothCount(n, run0);
    run := OneSteps(n, At(Opening, n), At(Resetting, n), 0, 0, At(Opening, n), 0, 0, run);
    run := ZeroSteps(n, At(Resetting, n), At(Resetting, n), n, 0, At(Opening, n), 0, 0, run);
    run := OneSteps(n, At(Resetting, n), At(Comparing, n), n, 0, At(Resetting, n), n, 0, run);
    run := ZeroSteps(n, At(Comparing, n), At(Comparing, n), n, 0, At(Resetting, n), n, 0, run);
  }

  /** Thread 0 runs up to the load of line 83. */
  lemma ZeroArrives(n: nat, run0: seq<Action>) returns (run: seq<Action>)
    requires n >= 2 && Possible(Stage(n, n, At(Counting, 0), At(Outside, 0), n - 1, 0), run0)
    ensures Possible(Stage(n, n, At(Outside, 0), At(Outside, 0), n - 2, 0), run)
    ensures After(Stage(n, n, At(Outside, 0), At(Outside, 0), n - 2, 0), run)
         == After(Stage(n, n, At(Counting, 0), At(Outside, 0), n - 1, 0), run0)
  {
    var one := At(Outside, 0);
    run := ZeroSteps(n, At(Adding, 0), one, n - 2, 0, At(Counting, 0), n - 1, 0, run0);
    run := ZeroSteps(n, At(Checking, 0), one, n - 2, 0, At(Adding, 0), n - 2, 0, run);
    run := ZeroSteps(n, At(Loading, 0), one, n - 2, 0, At(Checking, 0), n - 2, 0, run);
    run := ZeroSteps(n, At(Outside, 0), one, n - 2, 0, At(Loading, 0), n - 2, 0, run);
  }

  /** Thread 1 runs up to the load of line 83: its assertion holds and it adds. */
  lemma OneAdds(n: nat, run0: seq<Action>) returns (run: seq<Action>)
    requires n >= 2 && Possible(Stage(n, n, At(Counting, 0), At(Counting, 0), n, 0), run0)
    ensures Possible(Stage(n, n, At(Counting, 0), At(Checking, 0), n - 1, 0), run)
    ensures After(Stage(n, n, At(Counting, 0), At(Checking, 0), n - 1, 0), run)
         == After(Stage(n, n, At(Counting, 0), At(Counting, 0), n, 0), run0)
  {
    run := OneSteps(n, At(Counting, 0), At(Adding, 0), n - 1, 0, At(Counting, 0), n, 0, run0);
    run := OneSteps(n, At(Counting, 0), At(Checking, 0), n - 1, 0, At(Adding, 0), n - 1, 0, run);
  }

  lemma OneArrives(n: nat, run0: seq<Action>) returns (run: seq<Action>)
    requires n >= 2 && Possible(Stage(n, n, At(Counting, 0), At(Counting, 0), n, 0), run0)
    ensures Possible(Stage(n, n, At(Counting, 0), At(Outside, 0), n - 1, 0), run)
    ensures After(Stage(n, n, At(Counting, 0), At(Outside, 0), n - 1, 0), run)
         == After(Stage(n, n, At(Counting, 0), At(Counting, 0), n, 0), run0)
  {
    run := OneAdds(n, run0);
    run := OneSteps(n, At(Counting, 0), At(Loading, 0), n - 1, 0, At(Checking, 0), n - 1, 0, run);
    run := OneSteps(n, At(Counting, 0), At(Outside, 0), n - 1, 0, At(Loading, 0), n - 1, 0, run);
  }

  /** Both load threadnum. */
  lemma BothLoad(n: nat, run0: seq<Action>) returns (run: seq<Action>)
    requires n >= 2 && Possible(Stage(n, n, At(Comparing, n), At(Comparing, n), n, 0), run0)
    ensures Possible(Stage(n, n, At(Counting, 0), At(Counting, 0), n, 0), run)
    ensures After(Stage(n, n, At(Counting, 0), At(Counting, 0), n, 0), run)
         == After(Stage(n, n, At(Comparing, n), At(Comparing, n), n, 0), run0)
  {
    run := OneSteps(n, At(Comparing, n), At(Counting, 0), n, 0, At(Comparing, n), n, 0, run0);
    run := ZeroSteps(n, At(Counting, 0), At(Counting, 0), n, 0, At(Comparing, n), n, 0, run);
  }

  /** One step of thread k from a state in which only that thread differs from `s`. */
  lemma OtherSteps(s: State, k: nat, th: Thread, s': State, run0: seq<Action>) returns (run: seq<Action>)
    requires k < |s.threads| && !s.stopped && th.pc !in {Asleep, Waking, Passing}
    requires Next(s.Set(k, th), Step(k, {})) == s' && Possible(s', run0)
    ensures Possible(s.Set(k, th), run) && After(s.Set(k, th), run) == After(s', run0)
  {
    Prepend(s.Set(k, th), Step(k, {}), run0);
    run := [Step(k, {})] + run0;
  }

  /** Thread k runs up to the load of line 83, threads 2 to k - 1 being there already. */
  lemma OtherArrives(n: nat, k: nat, run0: seq<Action>) returns (run: seq<Action>)
    requires 2 <= k < n
    requires Possible(Stage(n, k + 1, At(Outside, 0), At(Outside, 0), k - 1, 0), run0)
    ensures Possible(Stage(n, k, At(Outside, 0), At(Outside, 0), k - 2, 0), run)
    ensures After(Stage(n, k, At(Outside, 0), At(Outside, 0), k - 2, 0), run)
         == After(Stage(n, k + 1, At(Outside, 0), At(Outside, 0), k - 1, 0), run0)
  {
    var s := Stage(n, k, At(Outside, 0), At(Outside, 0), k - 2, 0);
    SetThread(n, k, At(Outside, 0), At(Outside, 0), k, At(Counting, 0));
    assert s.Set(k, At(Outside, 0)) == s;
    assert s.Set(k, At(Counting, 0)).(threads_at_barrier := k - 1)
        == Stage(n, k + 1, At(Outside, 0), At(Outside, 0), k - 1, 0);
    run := OtherSteps(s, k, At(Adding, 0), s.Set(k, At(Counting, 0)).(threads_at_barrier := k - 1), run0);
    run := OtherSteps(s, k, At(Checking, 0), s.Set(k, At(Adding, 0)), run);
    run := OtherSteps(s, k, At(Loading, 0), s.Set(k, At(Checking, 0)), run);
    run := OtherSteps(s, k, At(Outside, 0), s.Set(k, At(Loading, 0)), run);
  }

  lemma {:induction false} OthersArrive(n: nat, k: nat, run0: seq<Action>) returns (run: seq<Action>)
    requires 2 <= k <= n
    requires Possible(Stage(n, n, At(Outside, 0), At(Outside, 0), n - 2, 0), run0)
    ensures Possible(Stage(n, k, At(Outside, 0), At(Outside, 0), k - 2, 0), run)
    ensures After(Stage(n, k, At(Outside, 0), At(Outside, 0), k - 2, 0), run)
         == After(Stage(n, n, At(Outside, 0), At(Outside, 0), n - 2, 0), run0)
    decreases n - k
  {
    run := run0;
    if k < n {
      run := OthersArrive(n, k + 1, run0);
      run := OtherArrives(n, k, run);
    }
  }

  /** With two threads or more, a run of all of them that opens round 0 twice, and may go on with run0. */
  lemma TwiceOpen(n: nat, run0: seq<Action>) returns (run: seq<Action>)
    requires n >= 2 && Possible(Stage(n, n, At(Waking, n), At(Waking, n), 0, 2), run0)
    ensures Possible(Initialize(n), run)
    ensures After(Initialize(n), run) == After(Stage(n, n, At(Waking, n), At(Waking, n), 0, 2), run0)
  {
    run := BothOpen(n, run0);
    run := BothLoad(n, run);
    run := OneArrives(n, run);
    run := ZeroArrives(n, run);
    run := OthersArrive(n, 2, run);
    assert Initialize(n) == Stage(n, 2, At(Outside, 0), At(Outside, 0), 0, 0);
  }

  /** A thread that finds the count at 2 when it calls with 1 stops the process on line 80. */
  lemma LateCallStops(n: nat) returns (run: seq<Action>)
    requires n >= 2
    ensures Possible(Stage(n, n, Thread(Outside, 1, 0, 0), At(Waking, n), 0, 2), run)
    ensures After(Stage(n, n, Thread(Outside, 1, 0, 0), At(Waking, n), 0, 2), run).stopped
  {
    var last := Stage(n, n, Thread(Checking, 1, 2, 0), At(Waking, n), 0, 2);
    Prepend(last, Step(0, {}), []);
    run := [Step(0, {})] + [];
    assert After(last, run).stopped;
    run := ZeroSteps(n, Thread(Loading, 1, 0, 0), At(Waking, n), 0, 2, Thread(Checking, 1, 2, 0), 0, 2, run);
    run := ZeroSteps(n, Thread(Outside, 1, 0, 0), At(Waking, n), 0, 2, Thread(Loading, 1, 0, 0), 0, 2, run);
  }

  /** After round 0 was opened twice, thread 0 wakes, returns, calls with 1, and stops the process. */
  lemma ThenStops(n: nat) returns (run: seq<Action>)
    requires n >= 2
    ensures Possible(Stage(n, n, At(Waking, n), At(Waking, n), 0, 2), run)
    ensures After(Stage(n, n, At(Waking, n), At(Waking, n), 0, 2), run).stopped
  {
    run := LateCallStops(n);
    run := ZeroSteps(n, At(CheckingLast, 0), At(Waking, n), 0, 2, Thread(Outside, 1, 0, 0), 0, 2, run);
    run := ZeroSteps(n, At(LoadingLast, n), At(Waking, n), 0, 2, At(CheckingLast, 0), 0, 2, run);
    run := ZeroWakes(n, run);
  }

  /** Thread 0 calls futex_wake when nobody is asleep. */
  lemma ZeroWakes(n: nat, run0: seq<Action>) returns (run: seq<Action>)
    requires n >= 2 && Possible(Stage(n, n, At(LoadingLast, n), At(Waking, n), 0, 2), run0)
    ensures Possible(Stage(n, n, At(Waking, n), At(Waking, n), 0, 2), run)
    ensures After(Stage(n, n, At(Waking, n), At(Waking, n), 0, 2), run)
         == After(Stage(n, n, At(LoadingLast, n), At(Waking, n), 0, 2), run0)
  {
    var s := Stage(n, n, At(Waking, n), At(Waking, n), 0, 2);
    assert Queued(s) == {};
    assert Wake(s.threads, {}) == s.threads;
    SetThread(n, n, At(Waking, n), At(Waking, n), 0, At(LoadingLast, n));
    Prepend(s, Step(0, {}), run0);
    run := [Step(0, {})] + run0;
  }

  // ----- the exact condition ------------------------------------------------------------------------

  lemma FewThreads(n: nat)
    requires n < 2
    ensures AlwaysSafe(n) && NeverStops(n)
  {
    forall run | Possible(Initialize(n), run)
      ensures RoundSafe(After(Initialize(n), run)) && !After(Initialize(n), run).stopped
    {
      if n == 1 {
        SoloRun(Initialize(1), run);
      } else {
        NothingHappens(run);
      }
    }
  }

  /** Every round opens at most once in every run, exactly if there are fewer than two threads. */
  lemma SafeOnlyAlone(n: nat)
    ensures AlwaysSafe(n) <==> n < 2
  {
    if n < 2 {
      FewThreads(n);
    } else {
      var run := TwiceOpen(n, []);
      assert After(Initialize(n), run).threads[0].iteration == 0;
      assert !RoundSafe(After(Initialize(n), run));
    }
  }

  /** No assertion fails in any run, exactly if there are fewer than two threads. */
  lemma NeverStopsOnlyAlone(n: nat)
    ensures NeverStops(n) <==> n < 2
  {
    if n < 2 {
      FewThreads(n);
    } else {
      var run0 := ThenStops(n);
      var run := TwiceOpen(n, run0);
      assert After(Initialize(n), run).stopped;
    }
  }
}
