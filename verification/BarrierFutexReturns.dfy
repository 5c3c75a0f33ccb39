/** What AtomicInstructions/barrier_futex.c does guarantee any number of threads: nobody returns from a round
    that was not opened, nobody at all before everybody has called the first, and a thread whose round is open
    can always return. */
module BarrierFutexReturns {
  import opened BarrierFutex
  import opened Sets

  // ----- no return from a round that was not opened ---------------------------------------------------

  /** What a thread may have done by now: it has returned from `iteration` rounds. */
  ghost predicate Behind(th: Thread, rounds: int) {
    && th.iteration <= rounds
    && (th.pc in {Waking, LoadingLast, CheckingLast, Passing} ==> th.iteration < rounds)
    && (th.pc == Testing ==> th.local_open_count <= rounds)
  }

  ghost predicate AllBehind(s: State) {
    forall t :: 0 <= t < |s.threads| ==> Behind(s.threads[t], s.barrier_opening_count)
  }

  lemma BehindStep(s: State, a: Action)
    requires AllBehind(s) && Enabled(s, a)
    ensures AllBehind(Next(s, a))
  {
  }

  lemma {:induction false} BehindRun(s: State, run: seq<Action>)
    requires AllBehind(s) && Possible(s, run)
    ensures AllBehind(After(s, run)) && |After(s, run).threads| == |s.threads|
    decreases |run|
  {
    if run != [] {
      BehindStep(s, run[0]);
      BehindRun(Next(s, run[0]), run[1..]);
    }
  }

  /** In every run of any number of threads nobody has returned from wait_at_barrier(i) unless round i was
      opened, although a round may open twice. */
  lemma {:induction false} OpenedBeforeReturn(threadnum: nat, run: seq<Action>, t: nat, i: nat)
    requires Possible(Initialize(threadnum), run) && t < threadnum
    ensures t < |After(Initialize(threadnum), run).threads|
    ensures After(Initialize(threadnum), run).threads[t].iteration > i ==>
              After(Initialize(threadnum), run).barrier_opening_count > i
  {
    BehindRun(Initialize(threadnum), run);
    var s := After(Initialize(threadnum), run);
    assert Behind(s.threads[t], s.barrier_opening_count);
  }

  // ----- the first round ------------------------------------------------------------------------------

  /** The thread has counted itself on line 82, in its first round at the latest. */
  predicate Arrived(th: Thread) {
    th.iteration > 0 || th.pc !in {Outside, Loading, Checking, Adding}
  }

  function Arrivals(threads: seq<Thread>): set<nat> {
    set t: nat | t < |threads| && Arrived(threads[t])
  }

  /** While somebody has not arrived, nobody is past the test of line 85 with threadnum. */
  ghost predicate Early(th: Thread, arrivals: nat) {
    && th.iteration == 0
    && th.pc !in {Resetting, Opening, Waking, LoadingLast, CheckingLast, Passing}
    && (th.pc == Comparing ==> th.local_thread_count <= arrivals)
    && (th.pc == Testing ==> th.local_open_count == 0)
  }

  ghost predicate FirstRound(s: State) {
    |Arrivals(s.threads)| < |s.threads| ==>
      && s.barrier_opening_count == 0
      && s.threads_at_barrier == |Arrivals(s.threads)|
      && forall t :: 0 <= t < |s.threads| ==> Early(s.threads[t], |Arrivals(s.threads)|)
  }

  /** Nobody leaves the set of arrivals, and a step adds at most the acting thread. */
  lemma ArrivalsGrow(s: State, a: Action)
    requires Enabled(s, a)
    ensures |Next(s, a).threads| == |s.threads|
    ensures Arrivals(s.threads) <= Arrivals(Next(s, a).threads) <= Arrivals(s.threads) + {a.thread}
    ensures a.Step? && s.threads[a.thread].pc == Adding && s.threads[a.thread].iteration == 0 ==>
              a.thread !in Arrivals(s.threads) && a.thread in Arrivals(Next(s, a).threads)
    ensures !(a.Step? && s.threads[a.thread].pc == Adding) ==> Arrivals(Next(s, a).threads) == Arrivals(s.threads)
  {
  }

  lemma ArrivalsBound(threads: seq<Thread>)
    ensures |Arrivals(threads)| <= |threads|
    ensures |Arrivals(threads)| == |threads| ==> forall t :: 0 <= t < |threads| ==> Arrived(threads[t])
  {
    Below(Arrivals(threads), |threads|);
    if |Arrivals(threads)| == |threads| {
      forall t: nat | t < |threads| ensures Arrived(threads[t]) {
        assert t in Arrivals(threads);
      }
    }
  }

  /** The counts after a step, while somebody has still not arrived. */
  lemma EarlyStep(s: State, a: Action)
    requires FirstRound(s) && Enabled(s, a) && |Arrivals(Next(s, a).threads)| < |s.threads|
    ensures |Arrivals(s.threads)| < |s.threads| && |Next(s, a).threads| == |s.threads|
    ensures |Arrivals(s.threads)| <= |Arrivals(Next(s, a).threads)|
    ensures Next(s, a).barrier_opening_count == 0
    ensures Next(s, a).threads_at_barrier == |Arrivals(Next(s, a).threads)|
  {
    ArrivalsGrow(s, a);
    Subset(Arrivals(s.threads), Arrivals(Next(s, a).threads));
    assert Early(s.threads[a.thread], |Arrivals(s.threads)|);
    if a.Step? && s.threads[a.thread].pc == Adding {
      assert Arrivals(Next(s, a).threads) == Arrivals(s.threads) + {a.thread};
      assert |Arrivals(s.threads) + {a.thread}| == |Arrivals(s.threads)| + 1;
    }
  }

  lemma EarlyThread(s: State, a: Action, t: nat, n: nat, n': nat)
    requires Enabled(s, a) && t < |s.threads| == |Next(s, a).threads| && n <= n' < |s.threads|
    requires Early(s.threads[t], n) && Early(s.threads[a.thread], n)
    requires s.barrier_opening_count == 0 && s.threads_at_barrier == n
    ensures Early(Next(s, a).threads[t], n')
  {
  }

  lemma FirstRoundStep(s: State, a: Action)
    requires FirstRound(s) && Enabled(s, a)
    ensures FirstRound(Next(s, a)) && |Next(s, a).threads| == |s.threads|
  {
    var s' := Next(s, a);
    ArrivalsGrow(s, a);
    if |Arrivals(s'.threads)| < |s'.threads| {
      EarlyStep(s, a);
      forall t: nat | t < |s'.threads| ensures Early(s'.threads[t], |Arrivals(s'.threads)|) {
        EarlyThread(s, a, t, |Arrivals(s.threads)|, |Arrivals(s'.threads)|);
      }
    }
  }

  lemma {:induction false} FirstRoundRun(s: State, run: seq<Action>)
    requires FirstRound(s) && Possible(s, run)
    ensures FirstRound(After(s, run)) && |After(s, run).threads| == |s.threads|
    decreases |run|
  {
    if run != [] {
      FirstRoundStep(s, run[0]);
      FirstRoundRun(Next(s, run[0]), run[1..]);
    }
  }

  /** In every run of any number of threads nobody returns from wait_at_barrier(0), and nobody opens round 0,
      before every thread has called it and counted itself on line 82. */
  lemma {:induction false} FirstRoundWaits(threadnum: nat, run: seq<Action>, t: nat, u: nat)
    requires Possible(Initialize(threadnum), run) && t < threadnum && u < threadnum
    ensures var s := After(Initialize(threadnum), run);
            && t < |s.threads| && u < |s.threads|
            && (s.threads[t].iteration > 0 || s.barrier_opening_count > 0 ==> Arrived(s.threads[u]))
  {
    var s0 := Initialize(threadnum);
    assert Arrivals(s0.threads) == {};
    FirstRoundRun(s0, run);
    var s := After(s0, run);
    ArrivalsBound(s.threads);
    if |Arrivals(s.threads)| < |s.threads| {
      assert Early(s.threads[t], |Arrivals(s.threads)|);
    }
  }

  // ----- a thread whose round is open returns ---------------------------------------------------------

  /** Inside the loop of lines 95 to 105. */
  predicate Waits(pc: Pc) {
    pc in {Waiting, Asleep, Reloading, Testing, Passing}
  }

  /** A step of thread t with what futex_wake must wake. */
  ghost function Turn(s: State, t: nat): Action
    requires t < |s.threads|
  {
    Step(t, if s.threads[t].pc in {Waking, Passing} then Queued(s) else {})
  }

  /** Every thread that is not asleep has a step, and one that is may come back for no reason. */
  lemma CanStep(s: State, t: nat)
    requires !s.stopped && t < |s.threads|
    ensures s.threads[t].pc != Asleep ==> Enabled(s, Turn(s, t))
    ensures s.threads[t].pc == Asleep ==> Enabled(s, WakeEarly(t))
  {
    Below(Queued(s), |s.threads|);
  }

  lemma {:induction false} Longer(s: State, a: Action, run: seq<Action>)
    requires Enabled(s, a) && Possible(Next(s, a), run)
    ensures Possible(s, [a] + run) && After(s, [a] + run) == After(Next(s, a), run)
  {
    assert ([a] + run)[1..] == run;
  }

  /** A thread that has counted itself goes on to open the round exactly when the count it loads next is
      threadnum, and to wait otherwise. */
  lemma ThreadnumOpens(s: State, t: nat)
    requires !s.stopped && t < |s.threads| && s.threads[t].pc == Counting
    ensures Enabled(s, Step(t, {})) && Enabled(Next(s, Step(t, {})), Step(t, {}))
    ensures var s' := Next(Next(s, Step(t, {})), Step(t, {}));
            && |s'.threads| == |s.threads|
            && s'.threads[t].pc == if s.threads_at_barrier == |s.threads| then Resetting else Waiting
  {
  }

  /** The assertion of line 80 ends the process exactly when the opening count loaded on line 79 is not the
      round, and those of lines 109 and 110 exactly when the count loaded on line 108 is not from 0 to below
      threadnum; else the thread goes on to count itself, or returns. */
  lemma AssertionsStop(s: State, t: nat)
    requires !s.stopped && t < |s.threads| && s.threads[t].pc in {Loading, LoadingLast}
    ensures Enabled(s, Step(t, {})) && Enabled(Next(s, Step(t, {})), Step(t, {}))
    ensures var s', th := Next(Next(s, Step(t, {})), Step(t, {})), s.threads[t];
            && |s'.threads| == |s.threads|
            && (th.pc == Loading ==>
                  if s.barrier_opening_count == th.iteration then !s'.stopped && s'.threads[t].pc == Adding
                  else s'.stopped)
            && (th.pc == LoadingLast ==>
                  if 0 <= s.threads_at_barrier < |s.threads|
                  then !s'.stopped && s'.threads[t].pc == Outside && s'.threads[t].iteration == th.iteration + 1
                  else s'.stopped)
  {
  }

  /** How far a waiting thread is from its return, once its round is open. */
  function ToReturn(th: Thread): nat {
    match th.pc
    case Waiting => 4
    case Reloading => 3
    case Testing => if th.local_open_count > th.iteration then 2 else 5
    case _ => 1
  }

  /** A waiting thread that is not asleep, alone. */
  lemma {:induction false} WaiterReturns(s: State, t: nat) returns (run: seq<Action>)
    requires !s.stopped && t < |s.threads| && Waits(s.threads[t].pc) && s.threads[t].pc != Asleep
    requires s.threads[t].iteration < s.barrier_opening_count
    ensures |run| <= ToReturn(s.threads[t]) && Possible(s, run) && forall a :: a in run ==> a.Step? && a.thread == t
    ensures |After(s, run).threads| == |s.threads| && !After(s, run).stopped
    ensures var th := After(s, run).threads[t]; th.pc == Outside && th.iteration == s.threads[t].iteration + 1
    decreases ToReturn(s.threads[t])
  {
    var a := Turn(s, t);
    CanStep(s, t);
    var s' := Next(s, a);
    if s.threads[t].pc == Passing {
      run := [];
    } else {
      run := WaiterReturns(s', t);
    }
    Longer(s, a, run);
    run := [a] + run;
  }

  /** Whoever wakes the sleepers. */
  lemma WakesSleeper(s: State, t: nat, u: nat)
    requires !s.stopped && t < |s.threads| && u < |s.threads|
    requires s.threads[t].pc == Asleep && s.threads[u].pc == Waking
    ensures Enabled(s, Turn(s, u))
    ensures var s' := Next(s, Turn(s, u));
            && |s'.threads| == |s.threads| && !s'.stopped && s'.barrier_opening_count == s.barrier_opening_count
            && s'.threads[t] == s.threads[t].(pc := Reloading)
  {
    CanStep(s, u);
    assert t in Queued(s);
  }

  /** Any thread that waits although its round is open can return: in every reachable state at most six steps,
      of itself and of the thread that has yet to wake it, lead to its return. */
  lemma {:induction false} OpenRoundReturns(threadnum: nat, run0: seq<Action>, t: nat) returns (run: seq<Action>)
    requires Possible(Initialize(threadnum), run0) && t < threadnum
    requires var s := After(Initialize(threadnum), run0);
             && t < |s.threads| && !s.stopped && Waits(s.threads[t].pc)
             && s.threads[t].iteration < s.barrier_opening_count
    ensures var s := After(Initialize(threadnum), run0);
            && |run| <= 6 && Possible(s, run) && |After(s, run).threads| == |s.threads| && !After(s, run).stopped
            && After(s, run).threads[t].pc == Outside
            && After(s, run).threads[t].iteration == s.threads[t].iteration + 1
  {
    var s := After(Initialize(threadnum), run0);
    if s.threads[t].pc == Asleep {
      NoLostWakeUp(threadnum, run0, t);
      var u :| 0 <= u < |s.threads| && s.threads[u].pc == Waking;
      WakesSleeper(s, t, u);
      run := WaiterReturns(Next(s, Turn(s, u)), t);
      Longer(s, Turn(s, u), run);
      run := [Turn(s, u)] + run;
    } else {
      run := WaiterReturns(s, t);
    }
  }

  /** A thread whose round is not open does not return: it goes to sleep where it waits, and stays asleep
      until a wake-up. */
  lemma ClosedRoundSleeps(s: State, t: nat, a: Action)
    requires Enabled(s, a) && t < |s.threads| && s.threads[t].iteration == s.barrier_opening_count
    ensures s.threads[t].pc == Waiting && a == Step(t, {}) ==>
              Next(s, a).threads == s.threads[t := s.threads[t].(pc := Asleep)]
    ensures s.threads[t].pc == Asleep && a.Step? && t !in a.woken ==>
              t < |Next(s, a).threads| && Next(s, a).threads[t] == s.threads[t]
  {
  }
}
