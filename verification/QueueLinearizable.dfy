/** Linearizability: the calls and returns of every run are those of an atomic FIFO queue. */
module QueueLinearizable {
  import opened Wrappers
  import opened Queue
  import opened QueueInvariant
  import opened QueueSteps
  import opened QueueRuns

  // ----- the specification: a queue whose operations take effect in one step -------------------

  datatype Response = Enqueued | Dequeued(item: int) | WasEmpty

  datatype Phase = Outside | Pending(op: Operation) | Answered(response: Response)

  datatype Atomic = Atomic(items: seq<int>, phases: map<ThreadId, Phase>)

  datatype AtomicAction =
    | Invoke(t: ThreadId, op: Operation)
    | TakeEffect(t: ThreadId)
    | Return(t: ThreadId, response: Response)

  /** The effect of a pending operation on the queue, and its answer. */
  function Effect(items: seq<int>, op: Operation): (seq<int>, Response) {
    match op
    case Enqueue(x) => (items + [x], Enqueued)
    case Dequeue => if items == [] then (items, WasEmpty) else (items[1..], Dequeued(items[0]))
  }

  function AtomicNext(a: Atomic, act: AtomicAction): Option<Atomic> {
    if act.t !in a.phases then None
    else
      var p := a.phases[act.t];
      match act
      case Invoke(t, op) =>
        if p.Outside? then Some(a.(phases := a.phases[t := Pending(op)])) else None
      case TakeEffect(t) =>
        if p.Pending?
        then Some(Atomic(Effect(a.items, p.op).0, a.phases[t := Answered(Effect(a.items, p.op).1)]))
        else None
      case Return(t, r) =>
        if p == Answered(r) then Some(a.(phases := a.phases[t := Outside])) else None
  }

  function AtomicExec(a: Atomic, run: seq<AtomicAction>): Option<Atomic> {
    if run == [] then Some(a)
    else
      match AtomicExec(a, run[..|run| - 1])
      case None => None
      case Some(a') => AtomicNext(a', run[|run| - 1])
  }

  // ----- what an observer sees ------------------------------------------------------------------

  /** The calls and returns of an atomic run, in order. */
  function AtomicHistory(run: seq<AtomicAction>): seq<AtomicAction> {
    if run == [] then []
    else AtomicHistory(run[..|run| - 1])
         + if run[|run| - 1].TakeEffect? then [] else [run[|run| - 1]]
  }

  /** The return a thread's step shows, if any. */
  function Shown(t: ThreadId, l: Local): seq<AtomicAction> {
    match l
    case EReturn => [Return(t, Enqueued)]
    case DReturn(None) => [Return(t, WasEmpty)]
    case DReturn(Some(x)) => [Return(t, Dequeued(x))]
    case _ => []
  }

  /** The call or return an action of the system shows, if any. */
  function Visible(s: State, a: Action): seq<AtomicAction> {
    match a
    case Call(t, op) => [Invoke(t, op)]
    case Malloc(_, _, _) => []
    case Step(t) => if t in s.threads then Shown(t, s.threads[t]) else []
  }

  /** The calls and returns of a run of the system, in order. */
  function History(s: State, run: seq<Action>): seq<AtomicAction>
    requires Exec(s, run).Some?
  {
    if run == [] then []
    else History(s, run[..|run| - 1]) + Visible(Exec(s, run[..|run| - 1]).value, run[|run| - 1])
  }

  // ----- the simulation -------------------------------------------------------------------------

  function ValueAt(m: Memory, n: NodeId): int {
    if n in m.nodes then m.nodes[n].value else 0
  }

  /** The values of a list of nodes, in order. */
  function Values(m: Memory, nodes: seq<NodeId>): seq<int> {
    if nodes == [] then [] else Values(m, nodes[..|nodes| - 1]) + [ValueAt(m, nodes[|nodes| - 1])]
  }

  /** The queue a memory holds: the values of the list after the dummy. */
  function Items(m: Memory, chain: seq<NodeId>): seq<int> {
    if chain == [] then [] else Values(m, chain[1..])
  }

  /** Which atomic phases a thread's position allows.  A dequeue that has read a null next pointer
      may or may not have taken effect already: only the later checks decide. */
  predicate Allows(m: Memory, l: Local, p: Phase) {
    match l
    case Idle => p == Outside
    case EMalloc(x) => p == Pending(Enqueue(x))
    case ESetValue(x, _) => p == Pending(Enqueue(x))
    case ESetNext(x, _) => p == Pending(Enqueue(x))
    case EReadTail(x, _) => p == Pending(Enqueue(x))
    case EReadNext(x, _, _) => p == Pending(Enqueue(x))
    case ECheckTail(x, _, _, _) => p == Pending(Enqueue(x))
    case ECasNext(x, _, _, _) => p == Pending(Enqueue(x))
    case EHelpTail(x, _, _, _) => p == Pending(Enqueue(x))
    case ECasTail(_, _) => p == Answered(Enqueued)
    case EReturn => p == Answered(Enqueued)
    case DCheckHead(head, _, next) =>
      p == Pending(Dequeue) || (p == Answered(WasEmpty) && next.node == NULL && m.head == head)
    case DCompareValue1(_, _, next) => p == Pending(Dequeue) || (p == Answered(WasEmpty) && next.node == NULL)
    case DCompareValue2(_, _, next, _) => p == Pending(Dequeue) || (p == Answered(WasEmpty) && next.node == NULL)
    case DCompareNext1(_, _, next) => p == Pending(Dequeue) || (p == Answered(WasEmpty) && next.node == NULL)
    case DCompareNext2(_, _, next, _) => p == Pending(Dequeue) || (p == Answered(WasEmpty) && next.node == NULL)
    case DFree(_, x) => p == Answered(Dequeued(x))
    case DReturn(None) => p == Answered(WasEmpty)
    case DReturn(Some(x)) => p == Answered(Dequeued(x))
    case _ => p == Pending(Dequeue)
  }

  ghost predicate Simulates(s: State, v: View, a: Atomic) {
    && a.items == Items(s.memory, v.chain)
    && a.phases.Keys == s.threads.Keys
    && forall t :: t in s.threads ==> Allows(s.memory, s.threads[t], a.phases[t])
  }

  ghost predicate SameValues(m: Memory, m': Memory, chain: seq<NodeId>) {
    forall i :: 0 <= i < |chain| ==> ValueAt(m', chain[i]) == ValueAt(m, chain[i])
  }

  lemma {:induction false} ValuesSame(m: Memory, m': Memory, nodes: seq<NodeId>)
    requires SameValues(m, m', nodes)
    ensures Values(m', nodes) == Values(m, nodes)
  {
    if nodes != [] {
      ValuesSame(m, m', nodes[..|nodes| - 1]);
    }
  }

  lemma {:induction false} ValuesTail(m: Memory, nodes: seq<NodeId>)
    requires nodes != []
    ensures Values(m, nodes) == [ValueAt(m, nodes[0])] + Values(m, nodes[1..])
  {
    var init := nodes[..|nodes| - 1];
    if init != [] {
      ValuesTail(m, init);
      assert init[1..] == nodes[1..][..|nodes| - 2];
    }
  }

  /** The atomic step that matches a thread's step, given the phase the thread has after it. */
  function Match(m: Memory, t: ThreadId, l: Local, after: Phase): (Phase, seq<AtomicAction>) {
    match l
    case ECasNext(x, _, tail, next) =>
      if tail.node in m.nodes && m.nodes[tail.node].next == next then (Pending(Enqueue(x)), [TakeEffect(t)])
      else (after, [])
    case EReturn => (Answered(Enqueued), [Return(t, Enqueued)])
    case DReadNext(_, _) => (Pending(Dequeue), if after.Answered? then [TakeEffect(t)] else [])
    case DCasHead(head, _, _) =>
      if m.head == head then (Pending(Dequeue), [TakeEffect(t)]) else (after, [])
    case DReturn(None) => (Answered(WasEmpty), [Return(t, WasEmpty)])
    case DReturn(Some(x)) => (Answered(Dequeued(x)), [Return(t, Dequeued(x))])
    case _ => (after, [])
  }

  /** The phase before the step is one the thread's position allowed. */
  lemma MatchAllowed(m: Memory, v: View, t: ThreadId, l: Local, after: Phase)
    requires Pre(m, v, l) && !l.Idle? && !l.EMalloc?
    requires LocalStep(m, l).Moved? && Allows(LocalStep(m, l).memory, LocalStep(m, l).local, after)
    ensures Allows(m, l, Match(m, t, l, after).0)
  {
    assert m.head.node in v.chain;
  }

  /** Another thread's earlier phase stays allowed when the actor's step is taken back. */
  lemma OtherAllowed(m: Memory, v: View, m': Memory, v': View, l: Local, p: Phase)
    requires LocalOk(m, v, l) && Rely(m, v, m', v') && Allows(m', l, p)
    ensures Allows(m, l, p)
  {
  }

  /** Only the dummy of an empty queue has no successor. */
  lemma DummyHasNext(m: Memory, chain: seq<NodeId>)
    requires Linked(m, chain) && |chain| > 1
    ensures m.nodes[m.head.node].next.node != NULL
  {
    assert m.nodes[chain[0]].next.node == chain[1];
  }

  /** Linking appends the node's value to the queue. */
  lemma LinkItems(m: Memory, m': Memory, chain: seq<NodeId>, n: NodeId)
    requires chain != [] && SameValues(m, m', chain)
    ensures Items(m', chain + [n]) == Items(m, chain) + [ValueAt(m', n)]
  {
    assert (chain + [n])[1..] == chain[1..] + [n];
    assert (chain[1..] + [n])[..|chain| - 1] == chain[1..];
    ValuesSame(m, m', chain[1..]);
  }

  /** Unlinking removes the first value of the queue. */
  lemma UnlinkItems(m: Memory, m': Memory, chain: seq<NodeId>)
    requires |chain| > 1 && SameValues(m, m', chain)
    ensures Items(m, chain) == [ValueAt(m, chain[1])] + Items(m', chain[1..])
  {
    ValuesTail(m, chain[1..]);
    ValuesSame(m, m', chain[1..][1..]);
  }

  /** How a step whose match takes effect, or has none, changes the atomic queue. */
  ghost predicate ItemsMatch(t: ThreadId, items: seq<int>, items': seq<int>, match_: (Phase, seq<AtomicAction>),
                             after: Phase) {
    if match_.1 == [TakeEffect(t)]
    then match_.0.Pending? && after.Answered? && Effect(items, match_.0.op) == (items', after.response)
    else items' == items
  }

  /** The atomic queue before and after a thread's step: unchanged, or changed by the effect of that
      thread's own operation. */
  ghost predicate ItemsFollow(m: Memory, v: View, t: ThreadId, l: Local, after: Phase)
    requires !l.Idle? && !l.EMalloc? && LocalStep(m, l).Moved?
  {
    ItemsMatch(t, Items(m, v.chain), Items(LocalStep(m, l).memory, NextView(m, v, l).chain),
               Match(m, t, l, after), after)
  }

  lemma LinkFollows(m: Memory, v: View, t: ThreadId, l: Local, after: Phase)
    requires Pre(m, v, l) && l.ECasNext? && m.nodes[l.tail.node].next == l.next && after == Answered(Enqueued)
    requires SameValues(m, CasNext(m, l.tail.node, l.next, l.node), v.chain)
    ensures ItemsFollow(m, v, t, l, after)
  {
    LinkItems(m, CasNext(m, l.tail.node, l.next, l.node), v.chain, l.node);
  }

  lemma UnlinkFollows(m: Memory, v: View, t: ThreadId, l: Local, after: Phase)
    requires Pre(m, v, l) && l.DCasHead? && m.head == l.head && after == Answered(Dequeued(l.result))
    ensures ItemsFollow(m, v, t, l, after)
  {
    Unlink(m, v, l.head, l.next);
    UnlinkItems(m, CasHead(m, l.head, l.next.node), v.chain);
  }

  /** Reading a null next while head is unchanged is where an empty answer takes effect. */
  lemma QuietFollows(m: Memory, v: View, t: ThreadId, l: Local, after: Phase)
    requires Pre(m, v, l) && !l.Idle? && !l.EMalloc?
    requires LocalStep(m, l).Moved? && Allows(LocalStep(m, l).memory, LocalStep(m, l).local, after)
    requires SameValues(m, LocalStep(m, l).memory, v.chain)
    requires NextView(m, v, l).chain == v.chain
    requires !LocalStep(m, l).local.ECasTail? && !LocalStep(m, l).local.DFree?
    ensures ItemsFollow(m, v, t, l, after)
  {
    ValuesSame(m, LocalStep(m, l).memory, v.chain[1..]);
    if |v.chain| > 1 {
      DummyHasNext(m, v.chain);
    }
  }

  lemma StepFollows(m: Memory, v: View, t: ThreadId, l: Local, after: Phase)
    requires Pre(m, v, l) && !l.Idle? && !l.EMalloc?
    requires LocalStep(m, l).Moved? && Allows(LocalStep(m, l).memory, LocalStep(m, l).local, after)
    requires SameValues(m, LocalStep(m, l).memory, v.chain)
    ensures ItemsFollow(m, v, t, l, after)
  {
    if l.ECasNext? && m.nodes[l.tail.node].next == l.next {
      LinkFollows(m, v, t, l, after);
    } else if l.DCasHead? && m.head == l.head {
      UnlinkFollows(m, v, t, l, after);
    } else {
      QuietFollows(m, v, t, l, after);
    }
  }

  /** A thread's step taken back, seen from the memory alone. */
  lemma BackwardMemory(m: Memory, v: View, t: ThreadId, l: Local, after: Phase)
    requires Pre(m, v, l) && !l.Idle? && !l.EMalloc? && LocalStep(m, l).Moved?
    requires Allows(LocalStep(m, l).memory, LocalStep(m, l).local, after)
    ensures Allows(m, l, Match(m, t, l, after).0)
    ensures ItemsFollow(m, v, t, l, after)
    ensures Rely(m, v, LocalStep(m, l).memory, NextView(m, v, l))
  {
    ActorStep(m, v, l);
    MatchAllowed(m, v, t, l, after);
    StepFollows(m, v, t, l, after);
  }

  /** Where an operation may take effect: an enqueue where its linking CAS succeeds, a dequeue where its
      unlinking CAS succeeds, or where it reads a null next while head is still its snapshot. */
  predicate EffectPoint(m: Memory, l: Local) {
    || (l.ECasNext? && l.tail.node in m.nodes && m.nodes[l.tail.node].next == l.next)
    || (l.DCasHead? && m.head == l.head)
    || (l.DReadNext? && l.head.node in m.nodes && m.nodes[l.head.node].next.node == NULL && m.head == l.head)
  }

  /** The atomic actions that stand for action a in state s: at most one, with the same call or return,
      and an operation takes effect only by a step of its own thread, at an effect point. */
  predicate StandsFor(s: State, a: Action, acts: seq<AtomicAction>) {
    && |acts| <= 1 && AtomicHistory(acts) == Visible(s, a)
    && forall x :: x in acts && x.TakeEffect? ==>
         a == Step(x.t) && x.t in s.threads && EffectPoint(s.memory, s.threads[x.t])
  }

  /** The atomic state before a thread's step. */
  function Before(m: Memory, v: View, t: ThreadId, l: Local, b': Atomic): Atomic
    requires t in b'.phases
  {
    Atomic(Items(m, v.chain), b'.phases[t := Match(m, t, l, b'.phases[t]).0])
  }

  lemma BeforeSimulates(s: State, v: View, t: ThreadId, b': Atomic)
    requires Inv(s, v) && Next(s, Step(t)).Some? && t in b'.phases
    requires Simulates(Next(s, Step(t)).value, ViewAfter(s, v, Step(t)), b')
    ensures Simulates(s, v, Before(s.memory, v, t, s.threads[t], b'))
    ensures ItemsFollow(s.memory, v, t, s.threads[t], b'.phases[t])
  {
    var m, l := s.memory, s.threads[t];
    BackwardMemory(m, v, t, l, b'.phases[t]);
    OthersAllowed(s, v, LocalStep(m, l).memory, NextView(m, v, l), t, b', Before(m, v, t, l, b'));
  }

  lemma BackwardThread(s: State, v: View, t: ThreadId, b': Atomic) returns (b: Atomic, acts: seq<AtomicAction>)
    requires Inv(s, v) && Next(s, Step(t)).Some?
    requires Simulates(Next(s, Step(t)).value, ViewAfter(s, v, Step(t)), b')
    ensures Simulates(s, v, b)
    ensures AtomicExec(b, acts) == Some(b') && StandsFor(s, Step(t), acts)
  {
    var m, l := s.memory, s.threads[t];
    BeforeSimulates(s, v, t, b');
    b, acts := Before(m, v, t, l, b'), Match(m, t, l, b'.phases[t]).1;
    MatchHistory(m, t, l, b'.phases[t], b, b');
  }

  lemma BackwardCall(s: State, v: View, a: Action, b': Atomic) returns (b: Atomic, acts: seq<AtomicAction>)
    requires a.Call? && Next(s, a).Some? && Simulates(Next(s, a).value, v, b')
    ensures Simulates(s, v, b)
    ensures AtomicExec(b, acts) == Some(b') && StandsFor(s, a, acts)
  {
    b, acts := Atomic(b'.items, b'.phases[a.t := Outside]), [Invoke(a.t, a.op)];
    assert acts[..0] == [];
    assert AtomicExec(b, acts) == AtomicNext(b, acts[0]);
    assert b.phases[a.t := Pending(a.op)] == b'.phases;
  }

  /** malloc, seen from the memory alone. */
  lemma BackwardNewNode(m: Memory, v: View, l: Local, address: NodeId, junk: Node)
    requires Pre(m, v, l) && l.EMalloc? && MallocMay(m, address)
    ensures Items(MallocStep(m, address, junk), v.chain) == Items(m, v.chain)
    ensures Rely(m, v, MallocStep(m, address, junk), v)
  {
    MallocKeeps(m, v, l, address, junk);
    ValuesSame(m, MallocStep(m, address, junk), v.chain[1..]);
  }

  lemma BackwardMalloc(s: State, v: View, a: Action, b: Atomic)
    requires a.Malloc? && Inv(s, v) && Next(s, a).Some? && Simulates(Next(s, a).value, v, b)
    ensures Simulates(s, v, b)
  {
    BackwardNewNode(s.memory, v, s.threads[a.t], a.address, a.junk);
    OthersAllowed(s, v, MallocStep(s.memory, a.address, a.junk), v, a.t, b, b);
  }

  /** The matching atomic actions lead to the later atomic state and show the same call or return. */
  lemma {:induction false} MatchHistory(m: Memory, t: ThreadId, l: Local, after: Phase, b: Atomic, b': Atomic)
    requires !l.Idle? && !l.EMalloc? && LocalStep(m, l).Moved?
    requires t in b'.phases && b'.phases[t] == after
    requires Allows(LocalStep(m, l).memory, LocalStep(m, l).local, after)
    requires b.phases == b'.phases[t := Match(m, t, l, after).0]
    requires ItemsMatch(t, b.items, b'.items, Match(m, t, l, after), after)
    ensures var acts := Match(m, t, l, after).1;
            && |acts| <= 1 && AtomicExec(b, acts) == Some(b')
            && AtomicHistory(acts) == Shown(t, l)
            && forall x :: x in acts && x.TakeEffect? ==> x.t == t && EffectPoint(m, l)
  {
    var acts := Match(m, t, l, after).1;
    assert b.phases[t := after] == b'.phases;
    if acts == [] {
      assert b.phases == b'.phases;
    } else {
      assert acts[..0] == [];
      assert AtomicExec(b, acts) == AtomicNext(b, acts[0]);
    }
  }

  /** One action of the system, matched backwards by at most one action of the atomic queue. */
  lemma BackwardStep(s: State, v: View, a: Action, b': Atomic) returns (b: Atomic, acts: seq<AtomicAction>)
    requires Inv(s, v) && Next(s, a).Some? && Simulates(Next(s, a).value, ViewAfter(s, v, a), b')
    ensures Simulates(s, v, b)
    ensures AtomicExec(b, acts) == Some(b') && StandsFor(s, a, acts)
  {
    match a
    case Call(t, op) =>
      b, acts := BackwardCall(s, v, a, b');
    case Malloc(t, address, junk) =>
      BackwardMalloc(s, v, a, b');
      b, acts := b', [];
    case Step(t) =>
      b, acts := BackwardThread(s, v, t, b');
  }

  lemma OthersAllowed(s: State, v: View, m': Memory, v': View, t: ThreadId, b': Atomic, b: Atomic)
    requires Inv(s, v) && Rely(s.memory, v, m', v')
    requires s.threads.Keys == b'.phases.Keys == b.phases.Keys
    requires forall u :: u in s.threads && u != t ==>
      b.phases[u] == b'.phases[u] && Allows(m', s.threads[u], b'.phases[u])
    ensures forall u :: u in s.threads && u != t ==> Allows(s.memory, s.threads[u], b.phases[u])
  {
    forall u | u in s.threads && u != t ensures Allows(s.memory, s.threads[u], b.phases[u]) {
      OtherAllowed(s.memory, v, m', v', s.threads[u], b.phases[u]);
    }
  }

  // ----- the theorem ----------------------------------------------------------------------------

  /** Before any call the atomic queue is empty and no thread is inside. */
  function InitialAtomic(s: State): Atomic {
    Atomic([], map t | t in s.threads :: Outside)
  }

  /** One more action at the end of a run. */
  lemma {:induction false} AtomicExecLast(a: Atomic, x: seq<AtomicAction>, act: AtomicAction)
    requires AtomicExec(a, x).Some?
    ensures AtomicExec(a, x + [act]) == AtomicNext(AtomicExec(a, x).value, act)
    ensures AtomicHistory(x + [act]) == AtomicHistory(x) + AtomicHistory([act])
  {
    assert (x + [act])[..|x|] == x;
    assert [act][..0] == [];
  }

  /** At most one more action: what one action of the system adds. */
  lemma {:induction false} AtomicExecConcat(a: Atomic, x: seq<AtomicAction>, y: seq<AtomicAction>)
    requires AtomicExec(a, x).Some? && |y| <= 1
    ensures AtomicExec(a, x + y) == AtomicExec(AtomicExec(a, x).value, y)
    ensures AtomicHistory(x + y) == AtomicHistory(x) + AtomicHistory(y)
  {
    if y == [] {
      assert x + y == x;
    } else {
      assert y == [y[0]] && y[..0] == [];
      AtomicExecLast(a, x, y[0]);
    }
  }

  /** The atomic actions for each action of a run, in order. */
  predicate StandForRun(s: State, run: seq<Action>, parts: seq<seq<AtomicAction>>)
    requires Exec(s, run).Some?
    decreases |run|
  {
    && |parts| == |run|
    && (run != [] ==>
          var before := run[..|run| - 1];
          && StandForRun(s, before, parts[..|run| - 1])
          && StandsFor(Exec(s, before).value, run[|run| - 1], parts[|run| - 1]))
  }

  function Join(parts: seq<seq<AtomicAction>>): seq<AtomicAction> {
    if parts == [] then [] else Join(parts[..|parts| - 1]) + parts[|parts| - 1]
  }

  /** Every atomic state the simulation allows at the end of a run is reached by an atomic run that
      stands for the run action by action, with the same calls and returns. */
  lemma {:induction false} BackwardRun(s: State, run: seq<Action>, b: Atomic) returns (parts: seq<seq<AtomicAction>>)
    requires Initial(s) && Exec(s, run).Some?
    requires Simulates(Exec(s, run).value, RunView(s, run), b)
    ensures StandForRun(s, run, parts) && AtomicExec(InitialAtomic(s), Join(parts)) == Some(b)
    ensures AtomicHistory(Join(parts)) == History(s, run)
  {
    if run == [] {
      parts := [];
      assert b == InitialAtomic(s);
    } else {
      var before := run[..|run| - 1];
      Reachable(s, before);
      var b0, last := BackwardStep(Exec(s, before).value, RunView(s, before), run[|run| - 1], b);
      var parts0 := BackwardRun(s, before, b0);
      AtomicExecConcat(InitialAtomic(s), Join(parts0), last);
      parts := parts0 + [last];
      assert parts[..|run| - 1] == parts0;
    }
  }

  /** The phase a position allows when nothing more is known. */
  function SomePhase(l: Local): Phase {
    match l
    case Idle => Outside
    case EMalloc(x) => Pending(Enqueue(x))
    case ESetValue(x, _) => Pending(Enqueue(x))
    case ESetNext(x, _) => Pending(Enqueue(x))
    case EReadTail(x, _) => Pending(Enqueue(x))
    case EReadNext(x, _, _) => Pending(Enqueue(x))
    case ECheckTail(x, _, _, _) => Pending(Enqueue(x))
    case ECasNext(x, _, _, _) => Pending(Enqueue(x))
    case EHelpTail(x, _, _, _) => Pending(Enqueue(x))
    case ECasTail(_, _) => Answered(Enqueued)
    case EReturn => Answered(Enqueued)
    case DFree(_, x) => Answered(Dequeued(x))
    case DReturn(None) => Answered(WasEmpty)
    case DReturn(Some(x)) => Answered(Dequeued(x))
    case _ => Pending(Dequeue)
  }

  lemma SomePhaseAllowed(m: Memory, l: Local)
    ensures Allows(m, l, SomePhase(l))
  {
  }

  /** Linearizability.  For every run of any number of threads there is a run of the atomic FIFO queue,
      started empty, with exactly the same calls, returns and answers in the same order, in which every
      operation takes effect by a step of its own thread at an effect point. */
  lemma {:induction false} Linearizable(s: State, run: seq<Action>)
    requires Initial(s) && Exec(s, run).Some?
    ensures exists parts ::
              && StandForRun(s, run, parts)
              && AtomicExec(InitialAtomic(s), Join(parts)).Some? && AtomicHistory(Join(parts)) == History(s, run)
  {
    Reachable(s, run);
    var s', v := Exec(s, run).value, RunView(s, run);
    var b := Atomic(Items(s'.memory, v.chain), map t | t in s'.threads :: SomePhase(s'.threads[t]));
    forall t | t in s'.threads ensures Allows(s'.memory, s'.threads[t], b.phases[t]) {
      SomePhaseAllowed(s'.memory, s'.threads[t]);
    }
    assert Simulates(s', v, b);
    var parts := BackwardRun(s, run, b);
  }
}
