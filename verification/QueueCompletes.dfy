/** Calls complete: a thread left alone returns from wherever it stands in its call, and a call made alone
    does to the queue what a first-in first-out queue does. */
module QueueCompletes {
  import opened Wrappers
  import opened Queue
  import opened QueueInvariant
  import opened QueueSteps
  import opened QueueRuns
  import opened QueueLinearizable
  import opened QueueProgress

  // ----- from anywhere in a call ------------------------------------------------------------------

  predicate AtReturn(l: Local) {
    l.EReturn? || l.DReturn?
  }

  /** How many steps a position is at most away from the top of its loop or from the return. */
  function Distance(l: Local): nat {
    match l
    case ESetValue(_, _) => 2
    case ESetNext(_, _) => 1
    case EReadNext(_, _, _) => 4
    case ECheckTail(_, _, _, _) => 3
    case ECasNext(_, _, _, _) => 2
    case EHelpTail(_, _, _, _) => 1
    case ECasTail(_, _) => 1
    case DReadTail(_) => 10
    case DReadNext(_, _) => 9
    case DCheckHead(_, _, _) => 8
    case DCompareValue1(_, _, _) => 7
    case DCompareValue2(_, _, _, _) => 6
    case DCompareNext1(_, _, _) => 5
    case DCompareNext2(_, _, _, _) => 4
    case DReadValue(_, _) => 3
    case DCasHead(_, _, _) => 2
    case DHelpTail(_, _, _) => 1
    case DFree(_, _) => 1
    case _ => 0
  }

  /** A step that is not the first of a round, or the return, brings the thread nearer to one of them. */
  lemma StepNearer(m: Memory, l: Local)
    requires Distance(l) > 0 && LocalStep(m, l).Moved?
    ensures Distance(LocalStep(m, l).local) < Distance(l)
    ensures !LocalStep(m, l).local.Idle? && !LocalStep(m, l).local.EMalloc?
  {
  }

  lemma PreAfter(m: Memory, v: View, l: Local)
    requires Pre(m, v, l) && !l.Idle? && !l.EMalloc?
    ensures LocalStep(m, l).Moved?
    ensures Pre(LocalStep(m, l).memory, NextView(m, v, l), LocalStep(m, l).local)
  {
    ActorStep(m, v, l);
  }

  /** A position at distance 0 inside a call is the top of a loop or a return. */
  lemma DistanceZero(l: Local)
    requires Distance(l) == 0 && !l.Idle? && !l.EMalloc?
    ensures LoopTop(l) || AtReturn(l)
  {
  }

  lemma {:induction false} ReachesTop(m: Memory, v: View, l: Local)
    returns (steps: nat, m': Memory, v': View, l': Local)
    requires Pre(m, v, l) && !l.Idle? && !l.EMalloc?
    ensures steps <= Distance(l) && Alone(m, l, steps) == Moved(m', l')
    ensures Pre(m', v', l') && (LoopTop(l') || AtReturn(l'))
    decreases Distance(l)
  {
    if Distance(l) == 0 {
      DistanceZero(l);
      steps, m', v', l' := 0, m, v, l;
    } else {
      PreAfter(m, v, l);
      StepNearer(m, l);
      var m1, l1 := LocalStep(m, l).memory, LocalStep(m, l).local;
      steps, m', v', l' := ReachesTop(m1, NextView(m, v, l), l1);
      steps := steps + 1;
    }
  }

  /** k steps alone and then j more. */
  lemma {:induction false} AloneJoin(m: Memory, l: Local, k: nat, m': Memory, l': Local, j: nat)
    requires Alone(m, l, k) == Moved(m', l')
    ensures Alone(m, l, k + j) == Alone(m', l', j)
    decreases k
  {
    if k > 0 {
      AloneJoin(LocalStep(m, l).memory, LocalStep(m, l).local, k - 1, m', l', j);
    }
  }

  /** A thread at the top of its loop that is left alone is at its return after at most sixteen steps. */
  lemma TopFinishes(m: Memory, v: View, l: Local) returns (steps: nat, m': Memory, l': Local)
    requires Pre(m, v, l) && (LoopTop(l) || AtReturn(l))
    ensures steps <= 16 && Alone(m, l, steps) == Moved(m', l') && AtReturn(l')
  {
    if l.EReadTail? {
      steps := EnqueueAlone(m, v, l.item, l.node, 0);
      m', l' := Appended(CaughtUp(m, Last(v.chain)), l.node), EReturn;
    } else if l.DReadHead? {
      steps := DequeueAlone(m, v, 0);
      m', l' := AfterDequeue(m, v), DReturn(FirstItem(m, v));
    } else {
      steps, m', l' := 0, m, l;
    }
  }

  /** From anywhere in a call, past malloc, to its end. */
  lemma Finishes(m: Memory, v: View, l: Local) returns (steps: nat, m': Memory)
    requires Pre(m, v, l) && !l.Idle? && !l.EMalloc?
    ensures steps <= 27 && Alone(m, l, steps) == Moved(m', Idle)
  {
    var k, m1, v1, l1 := ReachesTop(m, v, l);
    var j, m2, l2 := TopFinishes(m1, v1, l1);
    AloneJoin(m, l, k, m1, l1, j);
    AloneJoin(m, l, k + j, m2, l2, 1);
    steps, m' := k + j + 1, m2;
    ReturnEnds(m2, l2);
    DistanceBound(l);
  }

  lemma {:induction false} ReturnEnds(m: Memory, l: Local)
    requires AtReturn(l)
    ensures Alone(m, l, 1) == Moved(m, Idle)
  {
  }

  // ----- a thread alone in the whole system ---------------------------------------------------------

  function Steps(t: ThreadId, k: nat): seq<Action> {
    if k == 0 then [] else Steps(t, k - 1) + [Step(t)]
  }

  lemma {:induction false} ExecLast(s: State, run: seq<Action>, a: Action)
    requires Exec(s, run).Some?
    ensures Exec(s, run + [a]) == Next(Exec(s, run).value, a)
    ensures Exec(s, run + [a]).Some? ==>
              History(s, run + [a]) == History(s, run) + Visible(Exec(s, run).value, a)
  {
    assert (run + [a])[..|run|] == run;
  }

  /** The last of k + 1 steps alone. */
  lemma {:induction false} AloneLast(m: Memory, l: Local, k: nat)
    requires Alone(m, l, k + 1).Moved?
    ensures Alone(m, l, k).Moved?
    ensures !Alone(m, l, k).local.Idle? && !Alone(m, l, k).local.EMalloc?
    ensures Alone(m, l, k + 1) == LocalStep(Alone(m, l, k).memory, Alone(m, l, k).local)
    decreases k
  {
    if k > 0 {
      AloneLast(LocalStep(m, l).memory, LocalStep(m, l).local, k - 1);
    }
  }

  lemma ReturnIsLast(m: Memory, l: Local)
    requires !l.Idle? && !l.EMalloc? && LocalStep(m, l).Moved?
    ensures LocalStep(m, l).local.Idle? <==> AtReturn(l)
    ensures AtReturn(l) ==> LocalStep(m, l).memory == m
  {
  }

  lemma OneStepMore(s: State, threads: map<ThreadId, Local>, t: ThreadId, l: Local)
    requires t in threads && s.threads == threads[t := l] && !l.Idle? && !l.EMalloc?
    requires LocalStep(s.memory, l).Moved?
    ensures var o := LocalStep(s.memory, l); Next(s, Step(t)) == Some(State(o.memory, threads[t := o.local]))
    ensures !LocalStep(s.memory, l).local.Idle? ==> Visible(s, Step(t)) == []
  {
    ReturnIsLast(s.memory, l);
    var l' := LocalStep(s.memory, l).local;
    assert s.threads[t := l'] == threads[t := l'];
  }

  /** Steps of one thread alone, as part of a run: nothing is returned before the thread is idle again. */
  lemma {:induction false} AloneRun(s: State, run: seq<Action>, t: ThreadId, k: nat)
    requires Exec(s, run).Some? && t in Exec(s, run).value.threads
    requires var s' := Exec(s, run).value; Alone(s'.memory, s'.threads[t], k).Moved?
    ensures var s' := Exec(s, run).value; var o := Alone(s'.memory, s'.threads[t], k);
            && Exec(s, run + Steps(t, k)) == Some(State(o.memory, s'.threads[t := o.local]))
            && (!o.local.Idle? ==> History(s, run + Steps(t, k)) == History(s, run))
  {
    var s' := Exec(s, run).value;
    if k == 0 {
      assert run + Steps(t, 0) == run;
      assert s'.threads[t := s'.threads[t]] == s'.threads;
    } else {
      AloneLast(s'.memory, s'.threads[t], k - 1);
      AloneRun(s, run, t, k - 1);
      var o := Alone(s'.memory, s'.threads[t], k - 1);
      var before := run + Steps(t, k - 1);
      assert run + Steps(t, k) == before + [Step(t)];
      ExecLast(s, before, Step(t));
      OneStepMore(State(o.memory, s'.threads[t := o.local]), s'.threads, t, o.local);
    }
  }

  /** Any call completes: a thread inside a call, past malloc, that is left alone is idle again after at
      most twenty-seven steps, whatever it has read before. */
  lemma FinishesAlone(s: State, run: seq<Action>, t: ThreadId) returns (steps: nat)
    requires Initial(s) && Exec(s, run).Some? && t in Exec(s, run).value.threads
    requires var l := Exec(s, run).value.threads[t]; !l.Idle? && !l.EMalloc?
    ensures steps <= 27 && Exec(s, run + Steps(t, steps)).Some?
    ensures var s1 := Exec(s, run + Steps(t, steps)).value; t in s1.threads && s1.threads[t].Idle?
  {
    hide Inv, History, LocalStep, Alone;
    assert Pre(Exec(s, run).value.memory, RunView(s, run), Exec(s, run).value.threads[t]) by {
      PreOf(s, run, t);
    }
    var s' := Exec(s, run).value;
    var m2;
    steps, m2 := Finishes(s'.memory, RunView(s, run), s'.threads[t]);
    AloneRun(s, run, t, steps);
  }

  lemma {:induction false} PreOf(s: State, run: seq<Action>, t: ThreadId)
    requires Initial(s) && Exec(s, run).Some? && t in Exec(s, run).value.threads
    ensures Pre(Exec(s, run).value.memory, RunView(s, run), Exec(s, run).value.threads[t])
  {
    Reachable(s, run);
  }

  lemma DistanceBound(l: Local)
    ensures Distance(l) <= 10
  {
  }

  // ----- what a call made alone does ----------------------------------------------------------------

  /** The memory holds a queue of these values. */
  ghost predicate Holds(m: Memory, items: seq<int>) {
    exists chain :: Linked(m, chain) && Items(m, chain) == items
  }

  /** Lines 176 and 177. */
  function SetUp(m: Memory, x: int, n: NodeId): Memory
    requires n in m.nodes
  {
    SetNode(m, n, Node(x, m.nodes[n].next.(node := NULL)))
  }

  /** From malloc two steps lead to the top of the loop. */
  lemma SetUpRun(m: Memory, v: View, x: int, n: NodeId) returns (v': View)
    requires Pre(m, v, ESetValue(x, n))
    ensures n in m.nodes && Alone(m, ESetValue(x, n), 2) == Moved(SetUp(m, x, n), EReadTail(x, n))
    ensures v'.chain == v.chain && n !in v.chain && Pre(SetUp(m, x, n), v', EReadTail(x, n))
  {
    var l := ESetValue(x, n);
    PreAfter(m, v, l);
    assert n in Owned(l);
    var m1 := LocalStep(m, l).memory;
    PreAfter(m1, v, ESetNext(x, n));
    v' := NextView(m1, v, ESetNext(x, n));
    assert LocalStep(m1, ESetNext(x, n)).memory == SetUp(m, x, n);
    assert Alone(m1, ESetNext(x, n), 1) == Moved(SetUp(m, x, n), EReadTail(x, n));
  }

  lemma SetUpItems(m: Memory, chain: seq<NodeId>, x: int, n: NodeId)
    requires n in m.nodes && n !in chain
    ensures Items(SetUp(m, x, n), chain) == Items(m, chain)
  {
    if chain != [] {
      ValuesSame(m, SetUp(m, x, n), chain[1..]);
    }
  }

  /** A whole enqueue, alone, from malloc on: the value is the last of the queue. */
  lemma EnqueueRuns(m: Memory, v: View, x: int, n: NodeId) returns (steps: nat, m': Memory)
    requires Pre(m, v, ESetValue(x, n))
    ensures steps <= 12 && Alone(m, ESetValue(x, n), steps) == Moved(m', Idle)
    ensures Alone(m, ESetValue(x, n), steps - 1) == Moved(m', EReturn)
    ensures Holds(m', Items(m, v.chain) + [x])
  {
    var v2 := SetUpRun(m, v, x, n);
    var m2 := SetUp(m, x, n);
    var k := EnqueueAlone(m2, v2, x, n, 0);
    m' := Appended(CaughtUp(m2, Last(v.chain)), n);
    AloneJoin(m, ESetValue(x, n), 2, m2, EReadTail(x, n), k);
    AloneJoin(m, ESetValue(x, n), 2 + k, m', EReturn, 1);
    ReturnEnds(m', EReturn);
    steps := 2 + k + 1;
    SetUpItems(m, v.chain, x, n);
    AppendedHolds(m2, v2, x, n);
  }

  lemma AppendedHolds(m: Memory, v: View, x: int, n: NodeId)
    requires Pre(m, v, EReadTail(x, n))
    ensures CaughtUp(m, Last(v.chain)).tail.node in m.nodes
    ensures Holds(Appended(CaughtUp(m, Last(v.chain)), n), Items(m, v.chain) + [x])
  {
    var m' := Appended(CaughtUp(m, Last(v.chain)), n);
    var chain := v.chain + [n];
    assert n in Owned(EReadTail(x, n));
    forall i, j | 0 <= i < |chain| && j == i + 1 && j < |chain| ensures m'.nodes[chain[i]].next.node == chain[j] {
      if j < |v.chain| {
        assert chain[i] == v.chain[i] != Last(v.chain);
      }
    }
    assert Linked(m', chain);
    LinkItems(m, m', v.chain, n);
  }

  /** A whole dequeue, alone: the first value is answered and gone, or there is none. */
  lemma DequeueRuns(m: Memory, v: View) returns (steps: nat, m': Memory, answer: Option<int>)
    requires Pre(m, v, DReadHead)
    ensures 0 < steps <= 17 && Alone(m, DReadHead, steps) == Moved(m', Idle)
    ensures Alone(m, DReadHead, steps - 1) == Moved(m', DReturn(answer))
    ensures var items := Items(m, v.chain);
            if items == [] then answer == None && m' == m
            else answer == Some(items[0]) && Holds(m', items[1..])
  {
    var k := DequeueAlone(m, v, 0);
    m', answer := AfterDequeue(m, v), FirstItem(m, v);
    AloneJoin(m, DReadHead, k, m', DReturn(answer), 1);
    ReturnEnds(m', DReturn(answer));
    steps := k + 1;
    RemovedHolds(m, v);
  }

  lemma RemovedHolds(m: Memory, v: View)
    requires Pre(m, v, DReadHead)
    ensures |v.chain| <= 1 ==> Items(m, v.chain) == [] && FirstItem(m, v) == None
    ensures |v.chain| > 1 ==>
              && Items(m, v.chain) != [] && FirstItem(m, v) == Some(Items(m, v.chain)[0])
              && Holds(AfterDequeue(m, v), Items(m, v.chain)[1..])
  {
    if |v.chain| > 1 {
      var m', chain := AfterDequeue(m, v), v.chain[1..];
      assert m.nodes[v.chain[0]].next.node == v.chain[1];
      assert Last(chain) == Last(v.chain);
      assert Linked(m', chain);
      UnlinkItems(m, m', v.chain);
    }
  }

  /** The steps of a thread from a state of a run up to its return, and the return. */
  lemma {:induction false} RunToReturn(s: State, run: seq<Action>, t: ThreadId, steps: nat, m': Memory, l: Local)
    requires Exec(s, run).Some? && t in Exec(s, run).value.threads && steps > 0 && AtReturn(l)
    requires var s' := Exec(s, run).value;
             && Alone(s'.memory, s'.threads[t], steps - 1) == Moved(m', l)
             && Alone(s'.memory, s'.threads[t], steps) == Moved(m', Idle)
    ensures Exec(s, run + Steps(t, steps)) == Some(State(m', Exec(s, run).value.threads[t := Idle]))
    ensures History(s, run + Steps(t, steps)) == History(s, run) + Shown(t, l)
  {
    AloneRun(s, run, t, steps - 1);
    AloneRun(s, run, t, steps);
    var before := run + Steps(t, steps - 1);
    assert run + Steps(t, steps) == before + [Step(t)];
    ExecLast(s, before, Step(t));
  }

  /** Total correctness of enqueue.  From any reachable state, with other threads anywhere in their calls:
      an idle thread that calls enqueue and is left alone, whatever address malloc picks, is idle again
      after at most fourteen actions; it has returned, and the value is the last of the queue. */
  lemma {:induction false} EnqueueCompletes(s: State, run: seq<Action>, t: ThreadId, x: int, n: NodeId, junk: Node)
    returns (steps: nat)
    requires Initial(s) && Exec(s, run).Some? && t in Exec(s, run).value.threads
    requires Exec(s, run).value.threads[t].Idle? && MallocMay(Exec(s, run).value.memory, n)
    ensures steps <= 12
    ensures var run' := run + [Call(t, Enqueue(x))] + [Malloc(t, n, junk)] + Steps(t, steps);
            && Exec(s, run').Some? && Exec(s, run').value.threads == Exec(s, run).value.threads
            && History(s, run') == History(s, run) + [Invoke(t, Enqueue(x))] + [Return(t, Enqueued)]
            && Holds(Exec(s, run').value.memory,
                     Items(Exec(s, run).value.memory, RunView(s, run).chain) + [x])
  {
    var run1 := run + [Call(t, Enqueue(x))];
    var run2 := run1 + [Malloc(t, n, junk)];
    ExecLast(s, run, Call(t, Enqueue(x)));
    ExecLast(s, run1, Malloc(t, n, junk));
    CallView(s, run, Call(t, Enqueue(x)));
    CallView(s, run1, Malloc(t, n, junk));
    PreOf(s, run2, t);
    PreOf(s, run, t);
    MallocItems(Exec(s, run).value.memory, RunView(s, run), n, junk);
    var m';
    steps, m' := EnqueueRuns(Exec(s, run2).value.memory, RunView(s, run2), x, n);
    RunToReturn(s, run2, t, steps, m', EReturn);
    IdleAgain(Exec(s, run).value.threads, t, EMalloc(x), ESetValue(x, n));
  }

  /** Total correctness of dequeue: the same thread is idle again after at most eighteen actions; it has
      returned the first value, which is gone, or "empty" exactly when there was none. */
  lemma {:induction false} DequeueCompletes(s: State, run: seq<Action>, t: ThreadId) returns (steps: nat)
    requires Initial(s) && Exec(s, run).Some? && t in Exec(s, run).value.threads
    requires Exec(s, run).value.threads[t].Idle?
    ensures steps <= 17
    ensures var run' := run + [Call(t, Dequeue)] + Steps(t, steps);
            var items := Items(Exec(s, run).value.memory, RunView(s, run).chain);
            && Exec(s, run').Some? && Exec(s, run').value.threads == Exec(s, run).value.threads
            && History(s, run') == History(s, run) + [Invoke(t, Dequeue)]
                                   + [Return(t, if items == [] then WasEmpty else Dequeued(items[0]))]
            && Holds(Exec(s, run').value.memory, if items == [] then [] else items[1..])
  {
    var run1 := run + [Call(t, Dequeue)];
    ExecLast(s, run, Call(t, Dequeue));
    CallView(s, run, Call(t, Dequeue));
    PreOf(s, run1, t);
    var m', answer;
    steps, m', answer := DequeueRuns(Exec(s, run1).value.memory, RunView(s, run1));
    RunToReturn(s, run1, t, steps, m', DReturn(answer));
    IdleAgain(Exec(s, run).value.threads, t, DReadHead, DReadHead);
  }

  lemma {:induction false} CallView(s: State, run: seq<Action>, a: Action)
    requires Exec(s, run).Some? && Exec(s, run + [a]).Some? && !a.Step?
    ensures RunView(s, run + [a]) == RunView(s, run)
  {
    assert (run + [a])[..|run|] == run;
  }

  lemma MallocItems(m: Memory, v: View, n: NodeId, junk: Node)
    requires Linked(m, v.chain) && PoolOk(m, v) && MallocMay(m, n)
    ensures Items(MallocStep(m, n, junk), v.chain) == Items(m, v.chain)
  {
    ValuesSame(m, MallocStep(m, n, junk), v.chain[1..]);
  }

  lemma IdleAgain(threads: map<ThreadId, Local>, t: ThreadId, l: Local, l': Local)
    requires t in threads && threads[t].Idle?
    ensures threads[t := l][t := l'][t := Idle] == threads == threads[t := l][t := Idle]
  {
  }
}
