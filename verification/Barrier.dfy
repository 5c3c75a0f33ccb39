/** The reusable barrier of AtomicInstructions/barrier_condition.c as a step system: any number of threads,
    each calling wait_at_barrier with 0, 1, ... up to a number of rounds, with spurious wake-ups. */
module Barrier {
  import opened Sets

  /** Where a thread is; the comments give the line it is about to run. */
  datatype Pc =
    | Outside      // about to call wait_at_barrier, or done
    | Checking     // 57
    | Locking      // 61
    | Counting     // 62 and 63, holding the mutex
    | Resetting    // 65
    | Opening      // 66
    | Broadcasting // 68
    | Unlocking    // 70
    | Sleeping     // 75, still holding the mutex
    | Asleep       // 75, in the wait set of the condition variable
    | Relocking    // 75, awake, taking the mutex again
    | Rechecking   // 78
    | Leaving      // 81
    | Failed       // the assertion of line 57 failed

  datatype Mutex = Free | HeldBy(thread: nat)

  datatype State = State(rounds: nat, pc: seq<Pc>, iteration: seq<nat>, mutex: Mutex,
                         threads_at_barrier: int, barrier_opening_count: nat) {
    predicate Thread(t: nat) {
      t < |pc| && |iteration| == |pc|
    }

    /** Thread t goes to `p`. */
    function Go(t: nat, p: Pc): State
      requires Thread(t)
    {
      this.(pc := pc[t := p])
    }

    /** Thread t returns from wait_at_barrier, releasing the mutex. */
    function Return(t: nat): State
      requires Thread(t)
    {
      this.(pc := pc[t := Outside], iteration := iteration[t := iteration[t] + 1], mutex := Free)
    }
  }

  function Initialize(threadnum: nat, rounds: nat): State {
    State(rounds, seq(threadnum, _ => Outside), seq(threadnum, _ => 0), Free, 0, 0)
  }

  /** Thread t takes its next step, or is woken for no reason. */
  datatype Action = Step(thread: nat) | WakeEarly(thread: nat)

  predicate Enabled(s: State, a: Action) {
    && s.Thread(a.thread)
    && match a
       case WakeEarly(t) => s.pc[t] == Asleep
       case Step(t) =>
         match s.pc[t]
         case Outside => s.iteration[t] < s.rounds
         case Locking => s.mutex == Free
         case Relocking => s.mutex == Free
         case Asleep => false
         case Failed => false
         case _ => true
  }

  /** pthread_cond_broadcast: every thread of the wait set goes for the mutex. */
  function Woken(pc: seq<Pc>): (r: seq<Pc>)
    ensures |r| == |pc|
    ensures forall t :: 0 <= t < |pc| ==> r[t] == if pc[t] == Asleep then Relocking else pc[t]
  {
    seq(|pc|, t requires 0 <= t < |pc| => if pc[t] == Asleep then Relocking else pc[t])
  }

  function Next(s: State, a: Action): State
    requires Enabled(s, a)
  {
    match a
    case WakeEarly(t) => s.Go(t, Relocking)
    case Step(t) => ThreadStep(s, t)
  }

  function ThreadStep(s: State, t: nat): State
    requires Enabled(s, Step(t))
  {
    match s.pc[t]
    case Outside => s.Go(t, Checking)
    case Checking => s.Go(t, if s.barrier_opening_count == s.iteration[t] then Locking else Failed)
    case Locking => s.Go(t, Counting).(mutex := HeldBy(t))
    case Counting =>
      s.Go(t, if s.threads_at_barrier + 1 == |s.pc| then Resetting else Sleeping)
      .(threads_at_barrier := s.threads_at_barrier + 1)
    case Resetting => s.Go(t, Opening).(threads_at_barrier := 0)
    case Opening => s.Go(t, Broadcasting).(barrier_opening_count := s.barrier_opening_count + 1)
    case Broadcasting => s.(pc := Woken(s.pc)).Go(t, Unlocking)
    case Unlocking => s.Return(t)
    case Sleeping => s.Go(t, Asleep).(mutex := Free)
    case Relocking => s.Go(t, Rechecking).(mutex := HeldBy(t))
    case Rechecking => s.Go(t, if s.barrier_opening_count > s.iteration[t] then Leaving else Sleeping)
    case Leaving => s.Return(t)
  }

  // ----- invariant ------------------------------------------------------------------------------

  /** Between lines 61 and 70 or 81, except while waiting. */
  predicate Holds(p: Pc) {
    p in {Counting, Resetting, Opening, Broadcasting, Unlocking, Sleeping, Rechecking, Leaving}
  }

  /** Thread t has counted itself for the round that is open now. */
  predicate Arrived(s: State, t: nat)
    requires s.Thread(t)
  {
    && s.iteration[t] == s.barrier_opening_count
    && s.pc[t] in {Resetting, Sleeping, Asleep, Relocking, Rechecking}
  }

  function ArrivedSet(s: State): set<nat>
    requires |s.iteration| == |s.pc|
  {
    set t: nat | t < |s.pc| && Arrived(s, t)
  }

  /** How a thread's round number relates to the opening count. */
  ghost predicate RoundOk(s: State, t: nat)
    requires s.Thread(t)
  {
    var r, c := s.iteration[t], s.barrier_opening_count;
    && (Holds(s.pc[t]) <==> s.mutex == HeldBy(t))
    && r <= s.rounds && (r == s.rounds ==> s.pc[t] == Outside)
    && match s.pc[t]
       case Failed => false
       case Relocking => r == c || r + 1 == c
       case Rechecking => r == c || r + 1 == c
       case Asleep => if HolderAt(s, Broadcasting) then r + 1 == c else r == c
       case Broadcasting => r + 1 == c
       case Unlocking => r + 1 == c
       case Leaving => r + 1 == c
       case _ => r == c
  }

  /** The thread that holds the mutex stands at p. */
  predicate HolderAt(s: State, p: Pc) {
    s.mutex.HeldBy? && s.Thread(s.mutex.thread) && s.pc[s.mutex.thread] == p
  }

  /** threads_at_barrier counts the arrived threads, except between lines 65 and 66, when all have arrived. */
  ghost predicate CountOk(s: State)
    requires |s.iteration| == |s.pc|
  {
    if HolderAt(s, Opening) then
      s.threads_at_barrier == 0 && forall t: nat :: t < |s.pc| && t != s.mutex.thread ==> Arrived(s, t)
    else
      && s.threads_at_barrier == |ArrivedSet(s)|
      && (|s.pc| > 0 ==> (s.threads_at_barrier == |s.pc| <==> HolderAt(s, Resetting)))
  }

  ghost predicate Inv(s: State) {
    && |s.iteration| == |s.pc|
    && (s.mutex.HeldBy? ==> s.Thread(s.mutex.thread))
    && (forall t: nat :: t < |s.pc| ==> RoundOk(s, t))
    && CountOk(s)
  }

  lemma InitiallyInv(threadnum: nat, rounds: nat)
    ensures Inv(Initialize(threadnum, rounds))
  {
    var s := Initialize(threadnum, rounds);
    assert ArrivedSet(s) == {};
  }

  lemma ArrivedBelow(s: State)
    requires |s.iteration| == |s.pc|
    ensures |ArrivedSet(s)| <= |s.pc|
    ensures |ArrivedSet(s)| == |s.pc| ==> forall t: nat :: t < |s.pc| ==> Arrived(s, t)
  {
    Below(ArrivedSet(s), |s.pc|);
    assert forall t: nat :: t < |s.pc| && t in ArrivedSet(s) ==> Arrived(s, t);
  }

  // ----- every step keeps the invariant ---------------------------------------------------------

  lemma SameArrived(s: State, s': State)
    requires |s.iteration| == |s.pc| == |s'.pc| == |s'.iteration|
    requires forall t: nat :: t < |s.pc| ==> (Arrived(s', t) <==> Arrived(s, t))
    ensures ArrivedSet(s') == ArrivedSet(s)
  {
    assert forall t :: t in ArrivedSet(s') <==> t in ArrivedSet(s);
  }

  /** A step that moves one thread between places that count alike. */
  lemma MoveKeeps(s: State, a: Action)
    requires Inv(s) && Enabled(s, a)
    requires a.Step? ==> s.pc[a.thread] !in {Counting, Resetting, Opening, Broadcasting}
    ensures Inv(Next(s, a))
  {
    var s', t := Next(s, a), a.thread;
    forall u: nat | u < |s.pc| ensures RoundOk(s', u) {
      MoveKeepsRound(s, a, u);
    }
    assert RoundOk(s, t);
    SameArrived(s, s');
  }

  lemma MoveKeepsRound(s: State, a: Action, u: nat)
    requires Inv(s) && Enabled(s, a) && u < |s.pc|
    requires a.Step? ==> s.pc[a.thread] !in {Counting, Resetting, Opening, Broadcasting}
    ensures RoundOk(Next(s, a), u)
  {
    assert RoundOk(s, u) && RoundOk(s, a.thread);
  }

  lemma CountingKeeps(s: State, t: nat)
    requires Inv(s) && Enabled(s, Step(t)) && s.pc[t] == Counting
    ensures Inv(Next(s, Step(t)))
  {
    var s' := Next(s, Step(t));
    assert RoundOk(s, t);
    forall u: nat | u < |s.pc| ensures RoundOk(s', u) {
      assert RoundOk(s, u) && (u != t ==> s'.pc[u] == s.pc[u]);
    }
    assert ArrivedSet(s') == ArrivedSet(s) + {t};
  }

  lemma ResettingKeeps(s: State, t: nat)
    requires Inv(s) && Enabled(s, Step(t)) && s.pc[t] == Resetting
    ensures Inv(Next(s, Step(t)))
  {
    var s' := Next(s, Step(t));
    assert RoundOk(s, t);
    ArrivedBelow(s);
    forall u: nat | u < |s.pc| ensures RoundOk(s', u) {
      assert RoundOk(s, u) && (u != t ==> s'.pc[u] == s.pc[u]);
    }
    forall u: nat | u < |s.pc| && u != t ensures Arrived(s', u) {
      assert Arrived(s, u) && s'.pc[u] == s.pc[u];
    }
  }

  lemma OpeningKeeps(s: State, t: nat)
    requires Inv(s) && Enabled(s, Step(t)) && s.pc[t] == Opening
    ensures Inv(Next(s, Step(t)))
  {
    var s' := Next(s, Step(t));
    assert RoundOk(s, t);
    forall u: nat | u < |s.pc| ensures RoundOk(s', u) {
      assert RoundOk(s, u) && (u != t ==> Arrived(s, u) && s'.pc[u] == s.pc[u]);
    }
    forall u: nat | u < |s.pc| ensures !Arrived(s', u) {
      assert s.iteration[u] <= s.barrier_opening_count by {
        assert RoundOk(s, u);
      }
    }
    assert ArrivedSet(s') == {};
  }

  lemma BroadcastingKeeps(s: State, t: nat)
    requires Inv(s) && Enabled(s, Step(t)) && s.pc[t] == Broadcasting
    ensures Inv(Next(s, Step(t)))
  {
    var s' := Next(s, Step(t));
    assert RoundOk(s, t);
    forall u: nat | u < |s.pc| ensures RoundOk(s', u) {
      assert RoundOk(s, u) && (u != t ==> s'.pc[u] == if s.pc[u] == Asleep then Relocking else s.pc[u]);
    }
    SameArrived(s, s');
  }

  lemma StepKeeps(s: State, a: Action)
    requires Inv(s) && Enabled(s, a)
    ensures Inv(Next(s, a))
  {
    match a {
      case WakeEarly(t) => MoveKeeps(s, a);
      case Step(t) =>
        match s.pc[t] {
          case Counting => CountingKeeps(s, t);
          case Resetting => ResettingKeeps(s, t);
          case Opening => OpeningKeeps(s, t);
          case Broadcasting => BroadcastingKeeps(s, t);
          case _ => MoveKeeps(s, a);
        }
    }
  }
}
