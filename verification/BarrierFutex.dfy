/** The barrier of AtomicInstructions/barrier_futex.c with the futex calls of futex.c as a step system: no
    wake-up is lost, even when several threads open the same round. */
module BarrierFutex {
  import opened Sets

  /** Where a thread is; the comments give the line it is about to run. */
  datatype Pc =
    | Outside    // about to call wait_at_barrier
    | Loading    // 79
    | Checking   // 80
    | Adding     // 82
    | Counting   // 83
    | Comparing  // 85
    | Resetting  // 86
    | Opening    // 88
    | Waking     // 92
    | LoadingLast // 108
    | CheckingLast // 109 and 110
    | Waiting    // 97, before the kernel looks at the futex word
    | Asleep     // 97, queued on the futex
    | Reloading  // 99
    | Testing    // 100
    | Passing    // 101

  datatype Thread = Thread(pc: Pc, iteration: nat, local_open_count: int, local_thread_count: int)

  /** `stopped`: an assertion failed, which ends the whole process. */
  datatype State = State(threads: seq<Thread>, threads_at_barrier: int, barrier_opening_count: int, stopped: bool) {
    function Set(t: nat, th: Thread): State
      requires t < |threads|
    {
      this.(threads := threads[t := th])
    }
  }

  function Initialize(threadnum: nat): State {
    State(seq(threadnum, _ => Thread(Outside, 0, 0, 0)), 0, 0, false)
  }

  /** The threads queued on the futex. */
  function Queued(s: State): set<nat> {
    set t: nat | t < |s.threads| && s.threads[t].pc == Asleep
  }

  /** A step of thread t, which wakes the threads `woken` when it is a call of futex_wake; or a spurious
      return from futex_wait. */
  datatype Action = Step(thread: nat, woken: set<nat>) | WakeEarly(thread: nat)

  /** futex_wake wakes as many queued threads as there are, up to `nr`; the kernel chooses which. */
  ghost predicate MayWake(s: State, woken: set<nat>, nr: nat) {
    woken <= Queued(s) && |woken| == if |Queued(s)| < nr then |Queued(s)| else nr
  }

  ghost predicate Enabled(s: State, a: Action) {
    && !s.stopped && a.thread < |s.threads|
    && match a
       case WakeEarly(t) => s.threads[t].pc == Asleep
       case Step(t, woken) =>
         && s.threads[t].pc != Asleep
         && if s.threads[t].pc in {Waking, Passing} then MayWake(s, woken, |s.threads|) else woken == {}
  }

  function Wake(threads: seq<Thread>, woken: set<nat>): (r: seq<Thread>)
    ensures |r| == |threads|
    ensures forall t :: 0 <= t < |threads| ==>
              r[t] == if t in woken then threads[t].(pc := Reloading) else threads[t]
  {
    seq(|threads|, t requires 0 <= t < |threads| =>
      if t in woken then threads[t].(pc := Reloading) else threads[t])
  }

  ghost function Next(s: State, a: Action): State
    requires Enabled(s, a)
  {
    match a
    case WakeEarly(t) => s.Set(t, s.threads[t].(pc := Reloading))
    case Step(t, woken) => ThreadStep(s, t, woken)
  }

  ghost function ThreadStep(s: State, t: nat, woken: set<nat>): State
    requires Enabled(s, Step(t, woken))
  {
    var th := s.threads[t];
    match th.pc
    case Outside => s.Set(t, th.(pc := Loading))
    case Loading => s.Set(t, th.(pc := Checking, local_open_count := s.barrier_opening_count))
    case Checking =>
      if th.local_open_count == th.iteration then s.Set(t, th.(pc := Adding)) else s.(stopped := true)
    case Adding => s.Set(t, th.(pc := Counting)).(threads_at_barrier := s.threads_at_barrier + 1)
    case Counting => s.Set(t, th.(pc := Comparing, local_thread_count := s.threads_at_barrier))
    case Comparing => s.Set(t, th.(pc := if th.local_thread_count == |s.threads| then Resetting else Waiting))
    case Resetting => s.Set(t, th.(pc := Opening)).(threads_at_barrier := 0)
    case Opening => s.Set(t, th.(pc := Waking)).(barrier_opening_count := s.barrier_opening_count + 1)
    case Waking => s.(threads := Wake(s.threads, woken)).Set(t, th.(pc := LoadingLast))
    case LoadingLast => s.Set(t, th.(pc := CheckingLast, local_thread_count := s.threads_at_barrier))
    case CheckingLast =>
      if 0 <= th.local_thread_count < |s.threads|
      then s.Set(t, th.(pc := Outside, iteration := th.iteration + 1)) else s.(stopped := true)
    case Waiting => s.Set(t, th.(pc := if s.barrier_opening_count == th.iteration then Asleep else Reloading))
    case Reloading => s.Set(t, th.(pc := Testing, local_open_count := s.barrier_opening_count))
    case Testing => s.Set(t, th.(pc := if th.local_open_count > th.iteration then Passing else Waiting))
    case Passing =>
      s.(threads := Wake(s.threads, woken)).Set(t, th.(pc := Outside, iteration := th.iteration + 1))
  }

  // ----- runs -------------------------------------------------------------------------------------

  ghost predicate Possible(s: State, run: seq<Action>)
    decreases |run|
  {
    run == [] || (Enabled(s, run[0]) && Possible(Next(s, run[0]), run[1..]))
  }

  ghost function After(s: State, run: seq<Action>): State
    requires Possible(s, run)
    decreases |run|
  {
    if run == [] then s else After(Next(s, run[0]), run[1..])
  }

  // ----- no lost wake-up --------------------------------------------------------------------------

  /** Some thread has opened a round on line 88 and not yet called futex_wake on line 92. */
  ghost predicate WakeComing(s: State) {
    exists u :: 0 <= u < |s.threads| && s.threads[u].pc == Waking
  }

  /** Whoever sleeps although his round has been opened will be woken. */
  ghost predicate NoneForgotten(s: State) {
    forall t :: 0 <= t < |s.threads| && s.threads[t].pc == Asleep ==>
      s.threads[t].iteration == s.barrier_opening_count || WakeComing(s)
  }

  /** The opening count never goes back, and a sleeper went to sleep at the count of his round. */
  ghost predicate NoneAhead(s: State) {
    forall t :: 0 <= t < |s.threads| && s.threads[t].pc == Asleep ==>
      s.threads[t].iteration <= s.barrier_opening_count
  }

  /** A call of futex_wake for threadnum threads leaves nobody queued, whatever the kernel chooses. */
  lemma WakesEverybody(s: State, woken: set<nat>)
    requires MayWake(s, woken, |s.threads|)
    ensures woken == Queued(s)
  {
    Below(Queued(s), |s.threads|);
    Subset(woken, Queued(s));
  }

  /** After a wake no thread is asleep. */
  lemma NobodyAsleep(s: State, t: nat, woken: set<nat>)
    requires Enabled(s, Step(t, woken)) && s.threads[t].pc in {Waking, Passing}
    ensures Queued(Next(s, Step(t, woken))) == {}
  {
    WakesEverybody(s, woken);
    var s' := Next(s, Step(t, woken));
    forall u: nat | u < |s'.threads| ensures s'.threads[u].pc != Asleep {
      assert s.threads[u].pc == Asleep <==> u in Queued(s);
    }
  }

  lemma StepKeeps(s: State, a: Action)
    requires NoneForgotten(s) && NoneAhead(s) && Enabled(s, a)
    ensures NoneForgotten(Next(s, a)) && NoneAhead(Next(s, a)) && |Next(s, a).threads| == |s.threads|
  {
    var s', t := Next(s, a), a.thread;
    if a.Step? && s.threads[t].pc in {Waking, Passing} {
      NobodyAsleep(s, t, a.woken);
      assert forall u: nat :: u < |s'.threads| && s'.threads[u].pc == Asleep ==> u in Queued(s');
    } else if a.Step? && s.threads[t].pc == Opening {
      assert s'.threads[t].pc == Waking;
    } else if WakeComing(s) {
      var u :| 0 <= u < |s.threads| && s.threads[u].pc == Waking;
      assert s'.threads[u].pc == Waking;
    }
  }

  lemma {:induction false} RunKeeps(s: State, run: seq<Action>)
    requires NoneForgotten(s) && NoneAhead(s) && Possible(s, run)
    ensures NoneForgotten(After(s, run)) && NoneAhead(After(s, run)) && |After(s, run).threads| == |s.threads|
    decreases |run|
  {
    if run != [] {
      StepKeeps(s, run[0]);
      RunKeeps(Next(s, run[0]), run[1..]);
    }
  }

  /** After every run: a thread asleep with a value that is not the opening count any more is behind it, and
      some thread is between its increment on line 88 and its wake on line 92. */
  lemma {:induction false} NoLostWakeUp(threadnum: nat, run: seq<Action>, t: nat)
    requires Possible(Initialize(threadnum), run) && t < threadnum
    ensures var s := After(Initialize(threadnum), run);
            && t < |s.threads|
            && (s.threads[t].pc == Asleep && s.threads[t].iteration != s.barrier_opening_count ==>
                  s.threads[t].iteration < s.barrier_opening_count && WakeComing(s))
  {
    RunKeeps(Initialize(threadnum), run);
  }
}
