/** The invariant over whole runs: every reachable state of any number of threads. */
module QueueRuns {
  import opened Wrappers
  import opened Queue
  import opened QueueInvariant
  import opened QueueSteps

  function ViewAfter(s: State, v: View, a: Action): View {
    if a.Step? && a.t in s.threads then NextView(s.memory, v, s.threads[a.t]) else v
  }

  /** The acting thread: its step is possible and keeps its part of the invariant. */
  lemma ActorStep(m: Memory, v: View, l: Local)
    requires Pre(m, v, l) && !l.Idle? && !l.EMalloc?
    ensures LocalStep(m, l).Moved?
    ensures Guarantee(m, v, l, LocalStep(m, l).memory, NextView(m, v, l), LocalStep(m, l).local)
  {
    if IsEnqueueRead(l) {
      EnqueueRead(m, v, l);
      Stutter(m, v, l, LocalStep(m, l).local);
    } else if IsDequeueRead(l) {
      DequeueRead(m, v, l);
      Stutter(m, v, l, LocalStep(m, l).local);
    } else if IsCompareRead(l) {
      CompareRead(m, v, l);
      Stutter(m, v, l, LocalStep(m, l).local);
    } else if l.ESetValue? || l.ESetNext? {
      SetupStep(m, v, l);
    } else if l.EHelpTail? || l.ECasTail? || l.DHelpTail? {
      TailStep(m, v, l);
    } else if l.ECasNext? {
      LinkStep(m, v, l);
    } else if l.DCasHead? {
      UnlinkStep(m, v, l);
    } else {
      FreeStep(m, v, l);
    }
  }

  /** Every other thread: what it knows and owns survives the actor's step. */
  lemma OtherStable(m: Memory, v: View, l: Local, m': Memory, v': View, l': Local, other: Local)
    requires Pre(m, v, l) && ThreadOk(m, v, other) && Guarantee(m, v, l, m', v', l')
    requires Owned(l) !! Owned(other)
    ensures ThreadOk(m', v', other)
    ensures Owned(l') !! Owned(other)
  {
    if other.DReadTail? || other.DReadNext? || other.DCheckHead? || other.DCompareValue1? || other.DCompareValue2?
       || other.DCompareNext1? || other.DCompareNext2? || other.DHelpTail? || other.DReadValue? || other.DCasHead?
    {
      StableDequeue(m, v, m', v', other);
    } else {
      StableEnqueue(m, v, m', v', other);
    }
  }

  /** Every node still has its one place after the step. */
  lemma StepAccounts(s: State, v: View, t: ThreadId, m': Memory, v': View, l': Local)
    requires Partition(s, v) && t in s.threads
    requires Accounts(s.memory, v, Owned(s.threads[t]), m', v', Owned(l'))
    requires forall u :: u in s.threads && u != t ==> Owned(l') !! Owned(s.threads[u])
    ensures Partition(State(m', s.threads[t := l']), v')
  {
    var s' := State(m', s.threads[t := l']);
    forall n | n in m'.nodes && n !in v'.chain && n !in m'.freed
      ensures exists u :: u in s'.threads && n in Owned(s'.threads[u])
    {
      if n in Owned(l') {
        assert n in Owned(s'.threads[t]);
      } else {
        var u :| u in s.threads && n in Owned(s.threads[u]);
        assert n in Owned(s'.threads[u]);
      }
    }
  }

  /** A guaranteed step of thread t keeps the whole invariant. */
  lemma StepKeeps(s: State, v: View, t: ThreadId, m': Memory, v': View, l': Local)
    requires Inv(s, v) && t in s.threads
    requires Guarantee(s.memory, v, s.threads[t], m', v', l')
    ensures Inv(State(m', s.threads[t := l']), v')
  {
    var l := s.threads[t];
    forall u | u in s.threads && u != t
      ensures ThreadOk(m', v', s.threads[u]) && Owned(l') !! Owned(s.threads[u])
    {
      OtherStable(s.memory, v, l, m', v', l', s.threads[u]);
    }
    assert OwnedOk(m', v', l');
    StepAccounts(s, v, t, m', v', l');
  }

  lemma CallKeeps(s: State, v: View, t: ThreadId, op: Operation)
    requires Inv(s, v) && Next(s, Call(t, op)).Some?
    ensures Inv(Next(s, Call(t, op)).value, v)
  {
    var l := if op.Enqueue? then EMalloc(op.item) else DReadHead;
    Stutter(s.memory, v, s.threads[t], l);
    StepKeeps(s, v, t, s.memory, v, l);
    assert s.(threads := s.threads[t := l]) == State(s.memory, s.threads[t := l]);
  }

  lemma NextKeeps(s: State, v: View, a: Action)
    requires Inv(s, v) && Next(s, a).Some?
    ensures Inv(Next(s, a).value, ViewAfter(s, v, a))
  {
    var l := s.threads[a.t];
    match a
    case Call(t, op) => CallKeeps(s, v, t, op);
    case Malloc(t, address, junk) =>
      MallocKeeps(s.memory, v, l, address, junk);
      hide Inv, Guarantee;
      StepKeeps(s, v, t, MallocStep(s.memory, address, junk), v, ESetValue(l.item, address));
    case Step(t) =>
      ActorStep(s.memory, v, l);
      StepKeeps(s, v, t, LocalStep(s.memory, l).memory, NextView(s.memory, v, l), LocalStep(s.memory, l).local);
  }

  function InitialView(s: State): View {
    View([s.memory.head.node], {s.memory.head.node})
  }

  /** There is such a start, for any threads and any address of the dummy node. */
  lemma CanStart(address: NodeId, value: int, threads: set<ThreadId>) returns (s: State)
    requires address != NULL
    ensures Initial(s) && s.threads.Keys == threads && forall t :: t in threads ==> s.threads[t].Idle?
    ensures s.memory.nodes.Keys == {address} && s.memory.nodes[address] == Node(value, Pointer(NULL, 0))
  {
    var head := Pointer(address, 0);
    s := State(Memory(head, head, map[address := Node(value, Pointer(NULL, 0))], {}), map t | t in threads :: Idle);
  }

  lemma InitialInv(s: State)
    requires Initial(s)
    ensures Inv(s, InitialView(s))
  {
  }

  /** The view after a run, step by step. */
  function RunView(s: State, run: seq<Action>): View
    requires Exec(s, run).Some?
  {
    if run == [] then InitialView(s)
    else ViewAfter(Exec(s, run[..|run| - 1]).value, RunView(s, run[..|run| - 1]), run[|run| - 1])
  }

  /** Every reachable state satisfies the invariant. */
  lemma {:induction false} Reachable(s: State, run: seq<Action>)
    requires Initial(s) && Exec(s, run).Some?
    ensures Inv(Exec(s, run).value, RunView(s, run))
  {
    if run == [] {
      InitialInv(s);
    } else {
      Reachable(s, run[..|run| - 1]);
      NextKeeps(Exec(s, run[..|run| - 1]).value, RunView(s, run[..|run| - 1]), run[|run| - 1]);
    }
  }

  /** In every reachable state head never overtakes tail: some NULL-terminated acyclic list starts at
      head, and tail is its last or second-last node. */
  lemma {:induction false} HeadNeverOvertakesTail(s: State, run: seq<Action>)
    requires Initial(s) && Exec(s, run).Some?
    ensures exists chain :: Linked(Exec(s, run).value.memory, chain)
  {
    Reachable(s, run);
    assert Linked(Exec(s, run).value.memory, RunView(s, run).chain);
  }

  ghost predicate OwnedBySome(s: State, n: NodeId) {
    exists t :: t in s.threads && n in Owned(s.threads[t])
  }

  /** Node conservation: in every reachable state each node ever handed out by malloc is in exactly one
      of the list, the freed nodes and the nodes some thread owns, and it has at most one owner.  So the
      dummy a dequeue unlinks is freed once, by that dequeue. */
  lemma {:induction false} NodeConservation(s: State, run: seq<Action>)
    requires Initial(s) && Exec(s, run).Some?
    ensures var s' := Exec(s, run).value;
            exists chain :: Linked(s'.memory, chain) && forall n :: n in s'.memory.nodes ==>
              && (n in chain || n in s'.memory.freed || OwnedBySome(s', n))
              && !(n in chain && n in s'.memory.freed)
              && !(n in chain && OwnedBySome(s', n))
              && !(n in s'.memory.freed && OwnedBySome(s', n))
    ensures var s' := Exec(s, run).value;
            forall t, u :: t in s'.threads && u in s'.threads && t != u ==>
              Owned(s'.threads[t]) !! Owned(s'.threads[u])
  {
    Reachable(s, run);
    var s', chain := Exec(s, run).value, RunView(s, run).chain;
    forall n | n in s'.memory.nodes
      ensures n in chain || n in s'.memory.freed || OwnedBySome(s', n)
      ensures OwnedBySome(s', n) ==> n !in chain && n !in s'.memory.freed
    {
      if n !in chain && n !in s'.memory.freed {
        var t :| t in s'.threads && n in Owned(s'.threads[t]);
      }
    }
    assert Linked(s'.memory, chain);
  }

  /** Before `destroy`, with no thread inside a call, every node is in the list or already freed: the
      state the methods of QueueAlone start from. */
  lemma {:induction false} QuiescentNodes(s: State, run: seq<Action>)
    requires Initial(s) && Exec(s, run).Some?
    requires var s' := Exec(s, run).value; forall t :: t in s'.threads ==> s'.threads[t].Idle?
    ensures var s' := Exec(s, run).value;
            exists chain :: Accounted(s'.memory, chain, {})
  {
    Reachable(s, run);
    var s', v := Exec(s, run).value, RunView(s, run);
    forall n | n in s'.memory.nodes ensures n in v.chain || n in s'.memory.freed {
    }
    assert Accounted(s'.memory, v.chain, {});
  }

  /** No reachable state lets a thread follow a pointer out of the pool or fail an assertion, and every
      thread has an action in it: an idle one may call either operation, one at malloc gets any address
      malloc may give, and there is one, and every other has its step. */
  lemma {:induction false} NoFault(s: State, run: seq<Action>, t: ThreadId)
    requires Initial(s) && Exec(s, run).Some? && t in s.threads
    ensures t in Exec(s, run).value.threads
    ensures var s' := Exec(s, run).value;
            && (s'.threads[t].Idle? ==> forall op :: Next(s', Call(t, op)).Some?)
            && (s'.threads[t].EMalloc? ==>
                  && (exists n :: MallocMay(s'.memory, n))
                  && forall n, junk :: n != NULL && (n !in s'.memory.nodes || n in s'.memory.freed) ==>
                       Next(s', Malloc(t, n, junk)).Some?)
            && (!s'.threads[t].Idle? && !s'.threads[t].EMalloc? ==> Next(s', Step(t)).Some?)
  {
    ThreadsStay(s, run);
    Reachable(s, run);
    var s' := Exec(s, run).value;
    if !s'.threads[t].Idle? && !s'.threads[t].EMalloc? {
      StepsOn(s', RunView(s, run), t);
    } else if s'.threads[t].EMalloc? {
      var n := FreshAddress(s'.memory.nodes.Keys);
      assert MallocMay(s'.memory, n);
    }
  }

  /** A thread inside a call, not at malloc, has a step. */
  lemma StepsOn(s: State, v: View, t: ThreadId)
    requires Inv(s, v) && t in s.threads && !s.threads[t].Idle? && !s.threads[t].EMalloc?
    ensures Next(s, Step(t)).Some?
  {
    ActorStep(s.memory, v, s.threads[t]);
  }

  lemma {:induction false} ThreadsStay(s: State, run: seq<Action>)
    requires Exec(s, run).Some?
    ensures Exec(s, run).value.threads.Keys == s.threads.Keys
  {
    if run != [] {
      ThreadsStay(s, run[..|run| - 1]);
    }
  }

  lemma {:induction false} FreshAddress(used: set<NodeId>) returns (n: NodeId)
    ensures n != NULL && n !in used
  {
    var k := Bound(used);
    n := k + 1;
  }

  lemma {:induction false} Bound(used: set<NodeId>) returns (k: nat)
    ensures forall n :: n in used ==> n <= k
  {
    if used == {} {
      k := 0;
    } else {
      var x :| x in used;
      k := Bound(used - {x});
      forall n | n in used ensures n <= if x > k then x else k {
        assert n == x || n in used - {x};
      }
      k := if x > k then x else k;
    }
  }
}
