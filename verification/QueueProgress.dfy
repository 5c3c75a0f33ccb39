/** No ABA, and lock-freedom: while a thread goes round its loop twice some operation takes effect, and a
    thread left alone finishes in two rounds. */
module QueueProgress {
  import opened Wrappers
  import opened Queue
  import opened QueueInvariant
  import opened QueueSteps
  import opened QueueRuns

  // ----- counters only rise --------------------------------------------------------------------

  /** How memory evolves: a pointer either keeps its value or its counter rises.  A node's next may
      also be nulled with its counter kept, when a recycled node is set up again. */
  ghost predicate Evolves(m: Memory, m': Memory) {
    && (m'.head == m.head || m'.head.counter > m.head.counter)
    && (m'.tail == m.tail || m'.tail.counter > m.tail.counter)
    && (forall n :: n in m.nodes ==>
          && n in m'.nodes
          && (|| m'.nodes[n].next == m.nodes[n].next
              || m'.nodes[n].next.counter > m.nodes[n].next.counter
              || m'.nodes[n].next == Pointer(NULL, m.nodes[n].next.counter)))
  }

  lemma NextEvolves(s: State, a: Action)
    requires Next(s, a).Some?
    ensures Evolves(s.memory, Next(s, a).value.memory)
  {
  }

  lemma {:induction false} ExecPrefix(s: State, run: seq<Action>, k: nat)
    requires Exec(s, run).Some? && k <= |run|
    ensures Exec(s, run[..k]).Some?
  {
    if k == |run| {
      assert run[..k] == run;
    } else {
      ExecPrefix(s, run[..|run| - 1], k);
      assert run[..|run| - 1][..k] == run[..k];
    }
  }

  /** The state after the first k actions of a run. */
  function At(s: State, run: seq<Action>, k: nat): State
    requires Exec(s, run).Some? && k <= |run|
  {
    ExecPrefix(s, run, k);
    Exec(s, run[..k]).value
  }

  lemma {:induction false} AtStep(s: State, run: seq<Action>, k: nat)
    requires Exec(s, run).Some? && k < |run|
    ensures Next(At(s, run, k), run[k]) == Some(At(s, run, k + 1))
  {
    ExecPrefix(s, run, k);
    ExecPrefix(s, run, k + 1);
    assert run[..k + 1][..k] == run[..k];
  }

  lemma {:induction false} RunEvolves(s: State, run: seq<Action>, i: nat, j: nat)
    requires Exec(s, run).Some? && i <= j <= |run|
    ensures Evolves(At(s, run, i).memory, At(s, run, j).memory)
    decreases j
  {
    if i < j {
      RunEvolves(s, run, i, j - 1);
      AtStep(s, run, j - 1);
      NextEvolves(At(s, run, j - 1), run[j - 1]);
    }
  }

  // ----- no ABA ----------------------------------------------------------------------------------

  /** A location a CAS will compare, with the value it expects there. */
  datatype Target = Head(p: Pointer) | Tail(p: Pointer) | NextOf(n: NodeId, p: Pointer)

  predicate Holds(m: Memory, target: Target) {
    match target
    case Head(p) => m.head == p
    case Tail(p) => m.tail == p
    case NextOf(n, p) => n in m.nodes && m.nodes[n].next == p
  }

  /** The thread holds the target's expected value as a snapshot it may still use in a CAS. */
  predicate Carries(l: Local, target: Target) {
    match target
    case Head(p) =>
      && (l.DReadTail? || l.DReadNext? || l.DCheckHead? || l.DCompareValue1? || l.DCompareValue2?
          || l.DCompareNext1? || l.DCompareNext2? || l.DHelpTail? || l.DReadValue? || l.DCasHead?)
      && l.head == p
    case Tail(p) =>
      && (l.EReadNext? || l.ECheckTail? || l.ECasNext? || l.EHelpTail? || l.ECasTail? || l.DReadNext?
          || l.DCheckHead? || l.DCompareValue1? || l.DCompareValue2? || l.DCompareNext1? || l.DCompareNext2?
          || l.DHelpTail?)
      && l.tail == p
    case NextOf(n, p) =>
      (l.ECheckTail? || l.ECasNext?) && l.tail.node == n && l.next == p && p.node == NULL
  }

  /** A snapshot is taken by the thread's own read of the target. */
  lemma TakenByRead(s: State, a: Action, t: ThreadId, target: Target)
    requires Next(s, a).Some? && t in s.threads
    requires Carries(Next(s, a).value.threads[t], target) && !Carries(s.threads[t], target)
    ensures a == Step(t) && Holds(s.memory, target)
  {
    if a == Step(t) {
      ReadTakes(s.memory, s.threads[t], target);
    }
  }

  lemma ReadTakes(m: Memory, l: Local, target: Target)
    requires !l.Idle? && !l.EMalloc? && LocalStep(m, l).Moved?
    requires Carries(LocalStep(m, l).local, target) && !Carries(l, target)
    ensures Holds(m, target)
  {
  }

  lemma {:induction false} NoneCarriedAtFirst(s: State, run: seq<Action>, t: ThreadId, target: Target)
    requires Initial(s) && Exec(s, run).Some?
    ensures t in At(s, run, 0).threads ==> !Carries(At(s, run, 0).threads[t], target)
  {
    assert At(s, run, 0) == s;
  }

  lemma {:induction false} TakenAt(s: State, run: seq<Action>, i: nat, t: ThreadId, target: Target)
    requires Exec(s, run).Some? && i < |run|
    requires t in At(s, run, i + 1).threads && Carries(At(s, run, i + 1).threads[t], target)
    ensures t in At(s, run, i).threads
    ensures Carries(At(s, run, i).threads[t], target)
         || (run[i] == Step(t) && Holds(At(s, run, i).memory, target))
  {
    AtStep(s, run, i);
    if !Carries(At(s, run, i).threads[t], target) {
      TakenByRead(At(s, run, i), run[i], t, target);
    }
  }

  /** When a thread carries a snapshot, some earlier step of its own read that value in the target. */
  lemma {:induction false} ReadBefore(s: State, run: seq<Action>, j: nat, t: ThreadId, target: Target)
    returns (i: nat)
    requires Initial(s) && Exec(s, run).Some? && j <= |run|
    requires t in At(s, run, j).threads && Carries(At(s, run, j).threads[t], target)
    ensures i < j && run[i] == Step(t) && Holds(At(s, run, i).memory, target)
    ensures t in At(s, run, i).threads && !Carries(At(s, run, i).threads[t], target)
    ensures forall k :: i < k <= j ==>
              t in At(s, run, k).threads && Carries(At(s, run, k).threads[t], target)
    decreases j
  {
    NoneCarriedAtFirst(s, run, t, target);
    TakenAt(s, run, j - 1, t, target);
    if Carries(At(s, run, j - 1).threads[t], target) {
      i := ReadBefore(s, run, j - 1, t, target);
    } else {
      i := j - 1;
    }
  }

  /** Action i is the read with which thread t takes its snapshot of the target. */
  predicate ReadsAt(s: State, run: seq<Action>, i: nat, t: ThreadId, target: Target)
    requires Exec(s, run).Some? && i < |run|
  {
    && run[i] == Step(t)
    && t in At(s, run, i).threads && !Carries(At(s, run, i).threads[t], target)
    && t in At(s, run, i + 1).threads && Carries(At(s, run, i + 1).threads[t], target)
  }

  /** No ABA.  If the target of a thread's CAS holds the expected value, it has held it continuously
      since the thread read it there, however often nodes were freed and recycled meanwhile. */
  lemma {:induction false} NoAba(s: State, run: seq<Action>, j: nat, t: ThreadId, target: Target)
    requires Initial(s) && Exec(s, run).Some? && j <= |run|
    requires t in At(s, run, j).threads && Carries(At(s, run, j).threads[t], target)
    requires Holds(At(s, run, j).memory, target)
    ensures exists i: nat :: i < j && ReadsAt(s, run, i, t, target)
                      && forall k :: i <= k <= j ==> Holds(At(s, run, k).memory, target)
  {
    var i := ReadBefore(s, run, j, t, target);
    assert ReadsAt(s, run, i, t, target);
    forall k | i <= k <= j ensures Holds(At(s, run, k).memory, target) {
      RunEvolves(s, run, i, k);
      RunEvolves(s, run, k, j);
    }
  }

  // ----- lock-freedom ------------------------------------------------------------------------------

  /** The thread's next step is a CAS that will succeed. */
  predicate Succeeds(m: Memory, l: Local) {
    || (l.ECasNext? && l.tail.node in m.nodes && m.nodes[l.tail.node].next == l.next)
    || ((l.EHelpTail? || l.ECasTail? || l.DHelpTail?) && m.tail == l.tail)
    || (l.DCasHead? && m.head == l.head)
  }

  predicate SucceedsAt(s: State, a: Action) {
    a.Step? && a.t in s.threads && Succeeds(s.memory, s.threads[a.t])
  }

  predicate LoopTop(l: Local) {
    l.EReadTail? || l.DReadHead?
  }

  /** Inside a round of the loop, with every snapshot still equal to the memory it was read from. */
  ghost predicate UpToDate(m: Memory, l: Local) {
    match l
    case EReadNext(_, _, tail) => m.tail == tail
    case ECheckTail(_, _, tail, next) =>
      m.tail == tail && tail.node in m.nodes && m.nodes[tail.node].next == next
    case ECasNext(_, _, tail, next) =>
      m.tail == tail && tail.node in m.nodes && m.nodes[tail.node].next == next
    case EHelpTail(_, _, tail, _) => m.tail == tail
    case DReadTail(head) => m.head == head
    case DReadNext(head, tail) => m.head == head && m.tail == tail
    case DCheckHead(head, tail, next) => CurrentNext(m, head, tail, next)
    case DCompareValue1(head, tail, next) => CurrentNext(m, head, tail, next)
    case DCompareValue2(head, tail, next, seen) =>
      CurrentNext(m, head, tail, next) && m.nodes[head.node].value == seen
    case DCompareNext1(head, tail, next) => CurrentNext(m, head, tail, next)
    case DCompareNext2(head, tail, next, seenNext) => CurrentNext(m, head, tail, next) && seenNext == next
    case DHelpTail(_, tail, _) => m.tail == tail
    case DReadValue(head, _) => m.head == head
    case DCasHead(head, _, _) => m.head == head
    case DReturn(_) => true
    case EReturn => true
    case DFree(_, _) => true
    case _ => false
  }

  ghost predicate CurrentNext(m: Memory, head: Pointer, tail: Pointer, next: Pointer) {
    m.head == head && m.tail == tail && head.node in m.nodes && m.nodes[head.node].next == next
  }

  /** The first step of a round takes a snapshot that is up to date. */
  lemma RoundStarts(m: Memory, v: View, l: Local)
    requires Pre(m, v, l) && LoopTop(l)
    ensures LocalStep(m, l).Moved? && UpToDate(LocalStep(m, l).memory, LocalStep(m, l).local)
  {
  }

  /** A thread with up-to-date snapshots does not go back to the top of its loop, unless its own CAS
      succeeds. */
  lemma OwnStepUpToDate(m: Memory, v: View, l: Local)
    requires Pre(m, v, l) && UpToDate(m, l)
    requires !l.EReturn? && !l.DReturn? && !Succeeds(m, l)
    ensures LocalStep(m, l).Moved? && UpToDate(LocalStep(m, l).memory, LocalStep(m, l).local)
  {
    assert m.tail.node in v.chain && m.head.node in v.chain;
    if l.DCheckHead? && l.head.node != l.tail.node {
      assert |v.chain| > 1 && m.nodes[v.chain[0]].next.node == v.chain[1];
    }
  }

  /** The step leaves head, tail and every node of the list as they are. */
  ghost predicate Quiet(m: Memory, v: View, m': Memory) {
    && m'.head == m.head && m'.tail == m.tail
    && forall n :: n in v.chain && n in m.nodes ==> n in m'.nodes && m'.nodes[n] == m.nodes[n]
  }

  /** Only a successful CAS changes the queue. */
  lemma OnlyCasChanges(s: State, v: View, a: Action)
    requires Inv(s, v) && Next(s, a).Some? && !SucceedsAt(s, a)
    ensures Quiet(s.memory, v, Next(s, a).value.memory)
  {
    var l := s.threads[a.t];
    assert ThreadOk(s.memory, v, l);
    if l.ESetValue? || l.ESetNext? {
      assert l.node in Owned(l);
    }
  }

  /** What a CAS that succeeds does in any reachable state: linking appends to the last node, to which
      tail points; a tail swing goes from the second-last node to the last; unlinking replaces the dummy
      by the second node, whose value the dequeue will return, with tail already past the dummy. */
  lemma {:induction false} SuccessfulCas(s: State, run: seq<Action>, t: ThreadId)
    requires Initial(s) && Exec(s, run).Some? && t in Exec(s, run).value.threads
    requires Succeeds(Exec(s, run).value.memory, Exec(s, run).value.threads[t])
    ensures exists chain :: Linked(Exec(s, run).value.memory, chain)
                         && RightPlace(Exec(s, run).value.memory, chain, Exec(s, run).value.threads[t])
  {
    Reachable(s, run);
    var s', v := Exec(s, run).value, RunView(s, run);
    var m, l := s'.memory, s'.threads[t];
    if l.EHelpTail? || l.DHelpTail? {
      SwingTail(m, v, l.tail, l.next.node);
    } else if l.ECasTail? {
      SwingTail(m, v, l.tail, l.node);
    } else if l.DCasHead? {
      Unlink(m, v, l.head, l.next);
    }
    assert RightPlace(m, v.chain, l);
  }

  ghost predicate RightPlace(m: Memory, chain: seq<NodeId>, l: Local)
    requires chain != []
  {
    match l
    case ECasNext(_, n, tail, _) => n !in chain && tail.node == Last(chain) == m.tail.node
    case EHelpTail(_, _, _, next) => SecondLast(m, chain) && next.node == Last(chain)
    case ECasTail(n, _) => SecondLast(m, chain) && n == Last(chain)
    case DHelpTail(_, _, next) => SecondLast(m, chain) && next.node == Last(chain)
    case DCasHead(head, next, result) =>
      && |chain| > 1 && head.node == chain[0] && next.node == chain[1] && m.tail.node != chain[0]
      && chain[1] in m.nodes && m.nodes[chain[1]].value == result
    case _ => true
  }

  ghost predicate SecondLast(m: Memory, chain: seq<NodeId>) {
    |chain| > 1 && m.tail.node == chain[|chain| - 2]
  }

  lemma QuietUpToDate(m: Memory, v: View, m': Memory, l: Local)
    requires Linked(m, v.chain) && Quiet(m, v, m') && UpToDate(m, l)
    ensures UpToDate(m', l)
  {
    assert m.tail.node in v.chain && m.head.node in v.chain;
  }

  lemma NextUpToDate(s: State, v: View, a: Action, t: ThreadId)
    requires Inv(s, v) && Next(s, a).Some? && !SucceedsAt(s, a) && t in s.threads
    requires UpToDate(s.memory, s.threads[t]) && !Next(s, a).value.threads[t].Idle?
    ensures UpToDate(Next(s, a).value.memory, Next(s, a).value.threads[t])
  {
    if a.t == t {
      OwnStepUpToDate(s.memory, v, s.threads[t]);
    } else {
      OnlyCasChanges(s, v, a);
      QuietUpToDate(s.memory, v, Next(s, a).value.memory, s.threads[t]);
    }
  }

  lemma {:induction false} ReachableAt(s: State, run: seq<Action>, k: nat)
    requires Initial(s) && Exec(s, run).Some? && k <= |run|
    ensures exists v :: Inv(At(s, run, k), v)
  {
    ExecPrefix(s, run, k);
    Reachable(s, run[..k]);
    assert Inv(At(s, run, k), RunView(s, run[..k]));
  }

  /** Action a is a CAS that succeeds and may send thread t back to the top of its loop: another
      thread's, or its own swing of a lagging tail. */
  predicate Disturbs(s: State, a: Action, t: ThreadId) {
    SucceedsAt(s, a) && (a.t != t || s.threads[t].EHelpTail? || s.threads[t].DHelpTail?)
  }

  /** Inside a round with every snapshot up to date, or past the linking CAS. */
  ghost predicate Within(m: Memory, l: Local) {
    UpToDate(m, l) || l.ECasTail?
  }

  lemma NextWithin(s: State, v: View, a: Action, t: ThreadId)
    requires Inv(s, v) && Next(s, a).Some? && !Disturbs(s, a, t) && t in s.threads
    requires Within(s.memory, s.threads[t]) && !Next(s, a).value.threads[t].Idle?
    ensures Within(Next(s, a).value.memory, Next(s, a).value.threads[t])
  {
    if !SucceedsAt(s, a) && UpToDate(s.memory, s.threads[t]) {
      NextUpToDate(s, v, a, t);
    }
  }

  /** One step of a run that does not disturb t: a round that has started stays up to date. */
  lemma RoundStep(s: State, a: Action, t: ThreadId)
    requires exists v :: Inv(s, v)
    requires Next(s, a).Some? && !Disturbs(s, a, t) && t in s.threads && !Next(s, a).value.threads[t].Idle?
    requires Within(s.memory, s.threads[t]) || (a == Step(t) && LoopTop(s.threads[t]))
    ensures Within(Next(s, a).value.memory, Next(s, a).value.threads[t])
  {
    var v :| Inv(s, v);
    if Within(s.memory, s.threads[t]) {
      NextWithin(s, v, a, t);
    } else {
      RoundStarts(s.memory, v, s.threads[t]);
    }
  }

  lemma {:induction false} RoundStepAt(s: State, run: seq<Action>, k: nat, t: ThreadId)
    requires Initial(s) && Exec(s, run).Some? && k < |run|
    requires t in At(s, run, k).threads && t in At(s, run, k + 1).threads && !At(s, run, k + 1).threads[t].Idle?
    requires !Disturbs(At(s, run, k), run[k], t)
    requires || Within(At(s, run, k).memory, At(s, run, k).threads[t])
             || (run[k] == Step(t) && LoopTop(At(s, run, k).threads[t]))
    ensures Within(At(s, run, k + 1).memory, At(s, run, k + 1).threads[t])
  {
    ReachableAt(s, run, k);
    AtStep(s, run, k);
    RoundStep(At(s, run, k), run[k], t);
  }

  /** From action i to action j thread t stays inside one call. */
  predicate OneCall(s: State, run: seq<Action>, i: nat, j: nat, t: ThreadId)
    requires Exec(s, run).Some? && j <= |run|
  {
    forall k :: i <= k <= j ==> t in At(s, run, k).threads && !At(s, run, k).threads[t].Idle?
  }

  lemma {:induction false} RoundStays(s: State, run: seq<Action>, i: nat, j: nat, t: ThreadId)
    requires Initial(s) && Exec(s, run).Some? && i < j <= |run| && OneCall(s, run, i, j, t)
    requires forall k :: i <= k < j ==> !Disturbs(At(s, run, k), run[k], t)
    requires run[i] == Step(t) && LoopTop(At(s, run, i).threads[t])
    ensures Within(At(s, run, j).memory, At(s, run, j).threads[t])
    decreases j
  {
    hide Disturbs, Within, LoopTop, Exec, Initial;
    if j > i + 1 {
      assert OneCall(s, run, i, j - 1, t);
      RoundStays(s, run, i, j - 1, t);
    }
    RoundStepAt(s, run, j - 1, t);
  }

  /** A thread that starts a round of its loop and comes back to the top within the same call does so only
      because a CAS succeeded meanwhile: another thread's, or its own swing of a lagging tail. */
  lemma {:induction false} RetryNeedsProgress(s: State, run: seq<Action>, i: nat, j: nat, t: ThreadId)
    requires Initial(s) && Exec(s, run).Some? && i < j <= |run|
    requires OneCall(s, run, i, j, t)
    requires run[i] == Step(t) && LoopTop(At(s, run, i).threads[t]) && LoopTop(At(s, run, j).threads[t])
    ensures exists k :: i <= k < j && Disturbs(At(s, run, k), run[k], t)
  {
    if forall k :: i <= k < j ==> !Disturbs(At(s, run, k), run[k], t) {
      RoundStays(s, run, i, j, t);
      assert false;
    }
  }

  /** Action a is the linking CAS of an enqueue or the unlinking CAS of a dequeue, and succeeds. */
  predicate TakesEffect(s: State, a: Action) {
    SucceedsAt(s, a) && (s.threads[a.t].ECasNext? || s.threads[a.t].DCasHead?)
  }

  /** Tail does not point to the last node. */
  predicate Lags(m: Memory) {
    m.tail.node in m.nodes && m.nodes[m.tail.node].next.node != NULL
  }

  /** A tail swing that succeeds finds tail lagging and leaves it on the last node. */
  lemma SwingEndsLag(s: State, v: View, a: Action)
    requires Inv(s, v) && Next(s, a).Some? && SucceedsAt(s, a) && !TakesEffect(s, a)
    ensures Lags(s.memory) && !Lags(Next(s, a).value.memory)
  {
    var m, l := s.memory, s.threads[a.t];
    assert ThreadOk(m, v, l);
    SwingTail(m, v, l.tail, if l.ECasTail? then l.node else l.next.node);
    assert m.nodes[v.chain[|v.chain| - 2]].next.node == v.chain[|v.chain| - 1];
  }

  /** Tail starts to lag only when an operation takes effect. */
  lemma NoLagStays(s: State, v: View, a: Action)
    requires Inv(s, v) && Next(s, a).Some? && !TakesEffect(s, a) && !Lags(s.memory)
    ensures !Lags(Next(s, a).value.memory)
  {
    if SucceedsAt(s, a) {
      SwingEndsLag(s, v, a);
    } else {
      OnlyCasChanges(s, v, a);
      assert s.memory.tail.node in v.chain;
    }
  }

  lemma {:induction false} NoLagBetween(s: State, run: seq<Action>, i: nat, j: nat)
    requires Initial(s) && Exec(s, run).Some? && i <= j <= |run| && !Lags(At(s, run, i).memory)
    requires forall k :: i <= k < j ==> !TakesEffect(At(s, run, k), run[k])
    ensures !Lags(At(s, run, j).memory)
    decreases j
  {
    if i < j {
      NoLagBetween(s, run, i, j - 1);
      ReachableAt(s, run, j - 1);
      AtStep(s, run, j - 1);
      var v :| Inv(At(s, run, j - 1), v);
      NoLagStays(At(s, run, j - 1), v, run[j - 1]);
    }
  }

  /** Between two tail swings that succeed some operation takes effect. */
  lemma {:induction false} EffectBetweenSwings(s: State, run: seq<Action>, i: nat, j: nat)
    requires Initial(s) && Exec(s, run).Some? && i < j < |run|
    requires SucceedsAt(At(s, run, i), run[i]) && !TakesEffect(At(s, run, i), run[i])
    requires SucceedsAt(At(s, run, j), run[j]) && !TakesEffect(At(s, run, j), run[j])
    ensures exists k :: i < k < j && TakesEffect(At(s, run, k), run[k])
  {
    SwingAt(s, run, i);
    SwingAt(s, run, j);
    if forall k :: i + 1 <= k < j ==> !TakesEffect(At(s, run, k), run[k]) {
      NoLagBetween(s, run, i + 1, j);
      assert false;
    }
  }

  lemma {:induction false} SwingAt(s: State, run: seq<Action>, i: nat)
    requires Initial(s) && Exec(s, run).Some? && i < |run|
    requires SucceedsAt(At(s, run, i), run[i]) && !TakesEffect(At(s, run, i), run[i])
    ensures Lags(At(s, run, i).memory) && !Lags(At(s, run, i + 1).memory)
  {
    ReachableAt(s, run, i);
    AtStep(s, run, i);
    var v :| Inv(At(s, run, i), v);
    SwingEndsLag(At(s, run, i), v, run[i]);
  }

  /** Lock-freedom.  While a thread goes round its loop twice within one call, some enqueue or dequeue
      takes effect. */
  lemma {:induction false} LockFree(s: State, run: seq<Action>, i: nat, j: nat, k: nat, t: ThreadId)
    requires Initial(s) && Exec(s, run).Some? && i < j < k <= |run| && OneCall(s, run, i, k, t)
    requires run[i] == Step(t) && LoopTop(At(s, run, i).threads[t])
    requires run[j] == Step(t) && LoopTop(At(s, run, j).threads[t]) && LoopTop(At(s, run, k).threads[t])
    ensures exists e :: i <= e < k && TakesEffect(At(s, run, e), run[e])
  {
    assert OneCall(s, run, i, j, t) && OneCall(s, run, j, k, t);
    RetryNeedsProgress(s, run, i, j, t);
    RetryNeedsProgress(s, run, j, k, t);
    var p :| i <= p < j && Disturbs(At(s, run, p), run[p], t);
    var q :| j <= q < k && Disturbs(At(s, run, q), run[q], t);
    if !TakesEffect(At(s, run, p), run[p]) && !TakesEffect(At(s, run, q), run[q]) {
      EffectBetweenSwings(s, run, p, q);
    }
  }

  // ----- a thread left alone -------------------------------------------------------------------------

  /** k steps of one thread, nobody else moving. */
  function Alone(m: Memory, l: Local, k: nat): Outcome
    decreases k
  {
    if k == 0 then Moved(m, l)
    else if l.Idle? || l.EMalloc? then Fault
    else
      match LocalStep(m, l)
      case Fault => Fault
      case Moved(m', l') => Alone(m', l', k - 1)
  }

  /** The memory after node n was linked behind tail and tail was swung to it. */
  function Appended(m: Memory, n: NodeId): Memory
    requires m.tail.node in m.nodes
  {
    CasTail(CasNext(m, m.tail.node, m.nodes[m.tail.node].next, n), m.tail, n)
  }

  /** With tail on the last node one round of enqueue is enough. */
  lemma {:induction false} EnqueueRound(m: Memory, v: View, x: int, n: NodeId, k: nat)
    requires Pre(m, v, EReadTail(x, n)) && m.tail.node == Last(v.chain)
    ensures Alone(m, EReadTail(x, n), k + 5) == Alone(Appended(m, n), EReturn, k)
  {
    var tail := m.tail;
    var next := m.nodes[tail.node].next;
    var m1 := CasNext(m, tail.node, next, n);
    var m2 := CasTail(m1, tail, n);
    assert Alone(m1, ECasTail(n, tail), k + 1) == Alone(m2, EReturn, k);
    assert Alone(m, ECasNext(x, n, tail, next), k + 2) == Alone(m2, EReturn, k);
    assert Alone(m, ECheckTail(x, n, tail, next), k + 3) == Alone(m2, EReturn, k);
    assert Alone(m, EReadNext(x, n, tail), k + 4) == Alone(m2, EReturn, k);
  }

  /** With tail lagging, one round swings it to the last node. */
  lemma {:induction false} EnqueueHelpRound(m: Memory, v: View, x: int, n: NodeId, k: nat)
    requires Pre(m, v, EReadTail(x, n)) && m.tail.node != Last(v.chain)
    ensures Alone(m, EReadTail(x, n), k + 4) == Alone(CasTail(m, m.tail, Last(v.chain)), EReadTail(x, n), k)
    ensures Pre(CasTail(m, m.tail, Last(v.chain)), v, EReadTail(x, n))
  {
    var tail := m.tail;
    var next := m.nodes[tail.node].next;
    var m1 := CasTail(m, tail, next.node);
    SwingTail(m, v, tail, next.node);
    assert Alone(m, EHelpTail(x, n, tail, next), k + 1) == Alone(m1, EReadTail(x, n), k);
    assert Alone(m, ECheckTail(x, n, tail, next), k + 2) == Alone(m1, EReadTail(x, n), k);
    assert Alone(m, EReadNext(x, n, tail), k + 3) == Alone(m1, EReadTail(x, n), k);
  }

  /** The memory with tail on the last node. */
  function CaughtUp(m: Memory, last: NodeId): Memory {
    if m.tail.node == last then m else CasTail(m, m.tail, last)
  }

  /** From any reachable memory an enqueue at the top of its loop, running alone, is at its return
      after one round (five steps), or after two (nine) when tail lags, with its node behind the last one;
      k more steps may follow. */
  lemma EnqueueAlone(m: Memory, v: View, x: int, n: NodeId, k: nat) returns (steps: nat)
    requires Pre(m, v, EReadTail(x, n))
    ensures steps == if m.tail.node == Last(v.chain) then 5 else 9
    ensures Alone(m, EReadTail(x, n), k + steps) == Alone(Appended(CaughtUp(m, Last(v.chain)), n), EReturn, k)
  {
    if m.tail.node == Last(v.chain) {
      EnqueueRound(m, v, x, n, k);
      steps := 5;
    } else {
      EnqueueHelpRound(m, v, x, n, k + 5);
      EnqueueRound(CasTail(m, m.tail, Last(v.chain)), v, x, n, k);
      steps := 9;
    }
  }

  /** The three reads that start a round of dequeue. */
  lemma {:induction false} SnapshotRun(m: Memory, head: Pointer, tail: Pointer, next: Pointer, k: nat)
    requires m.head == head && m.tail == tail && head.node in m.nodes && m.nodes[head.node].next == next
    ensures Alone(m, DReadHead, k + 3) == Alone(m, DCheckHead(head, tail, next), k)
  {
    assert Alone(m, DReadNext(head, tail), k + 1) == Alone(m, DCheckHead(head, tail, next), k);
    assert Alone(m, DReadTail(head), k + 2) == Alone(m, DCheckHead(head, tail, next), k);
  }

  /** The memory after the dummy was unlinked and freed. */
  function Removed(m: Memory): Memory
    requires m.head.node in m.nodes
  {
    CasHead(m, m.head, m.nodes[m.head.node].next.node).(freed := m.freed + {m.head.node})
  }

  /** Reading the value, the unlinking CAS and free. */
  lemma {:induction false} RemoveEnd(m: Memory, head: Pointer, next: Pointer, x: int, k: nat)
    requires m.head == head && head.node in m.nodes && m.nodes[head.node].next == next
    requires next.node in m.nodes && m.nodes[next.node].value == x
    ensures Alone(m, DReadValue(head, next), k + 3) == Alone(Removed(m), DReturn(Some(x)), k)
  {
    var m1 := CasHead(m, head, next.node);
    assert Alone(m1, DFree(head, x), k + 1) == Alone(Removed(m), DReturn(Some(x)), k);
    assert Alone(m, DCasHead(head, next, x), k + 2) == Alone(Removed(m), DReturn(Some(x)), k);
  }

  /** The steps of a round that finds tail past the dummy. */
  lemma {:induction false} RemoveRun(m: Memory, head: Pointer, tail: Pointer, next: Pointer, x: int, k: nat)
    requires m.head == head && m.tail == tail && head.node != NULL && tail.node != head.node
    requires head.node in m.nodes && m.nodes[head.node].next == next
    requires next.node != NULL && next.node in m.nodes && m.nodes[next.node].value == x
    ensures Alone(m, DReadHead, k + 7) == Alone(Removed(m), DReturn(Some(x)), k)
  {
    RemoveEnd(m, head, next, x, k);
    SnapshotRun(m, head, tail, next, k + 4);
    assert LocalStep(m, DCheckHead(head, tail, next)) == Moved(m, DReadValue(head, next));
    assert Alone(m, DCheckHead(head, tail, next), k + 4) == Alone(m, DReadValue(head, next), k + 3);
  }

  /** The second half of `equalchecker`, the two reads of next. */
  lemma {:induction false} CompareEnd(m: Memory, head: Pointer, tail: Pointer, next: Pointer, k: nat)
    requires head.node in m.nodes && tail.node == head.node && m.nodes[head.node].next == next
    ensures Alone(m, DCompareNext1(head, tail, next), k + 2) == Alone(m, AfterCompare(head, tail, next, true), k)
  {
    assert Alone(m, DCompareNext2(head, tail, next, next), k + 1)
        == Alone(m, AfterCompare(head, tail, next, true), k);
  }

  /** The steps of a round that finds tail on the dummy, up to the answer of `equalchecker`. */
  lemma {:induction false} CompareRun(m: Memory, head: Pointer, tail: Pointer, next: Pointer, k: nat)
    requires m.head == head && m.tail == tail && head.node != NULL && tail.node == head.node
    requires head.node in m.nodes && m.nodes[head.node].next == next
    ensures Alone(m, DReadHead, k + 8) == Alone(m, AfterCompare(head, tail, next, true), k)
  {
    var x := m.nodes[head.node].value;
    CompareEnd(m, head, tail, next, k);
    assert Alone(m, DCompareValue2(head, tail, next, x), k + 3) == Alone(m, DCompareNext1(head, tail, next), k + 2);
    assert Alone(m, DCompareValue1(head, tail, next), k + 4) == Alone(m, DCompareValue2(head, tail, next, x), k + 3);
    SnapshotRun(m, head, tail, next, k + 5);
    assert LocalStep(m, DCheckHead(head, tail, next)) == Moved(m, DCompareValue1(head, tail, next));
  }

  /** The value after the dummy, if there is one. */
  function FirstItem(m: Memory, v: View): Option<int> {
    if |v.chain| > 1 && v.chain[1] in m.nodes then Some(m.nodes[v.chain[1]].value) else None
  }

  /** With tail past the dummy one round of dequeue removes the first item. */
  lemma {:induction false} DequeueRound(m: Memory, v: View, k: nat)
    requires Pre(m, v, DReadHead) && m.tail.node != m.head.node
    ensures |v.chain| > 1 && m.head.node in m.nodes
    ensures Alone(m, DReadHead, k + 7) == Alone(Removed(m), DReturn(FirstItem(m, v)), k)
  {
    assert |v.chain| > 1 && m.nodes[v.chain[0]].next.node == v.chain[1];
    assert FirstItem(m, v) == Some(m.nodes[v.chain[1]].value);
    RemoveRun(m, m.head, m.tail, m.nodes[m.head.node].next, m.nodes[v.chain[1]].value, k);
  }

  /** With tail lagging on the dummy one round swings it. */
  lemma {:induction false} DequeueHelpRound(m: Memory, v: View, k: nat)
    requires Pre(m, v, DReadHead) && m.tail.node == m.head.node && |v.chain| > 1
    ensures |v.chain| == 2
    ensures Alone(m, DReadHead, k + 9) == Alone(CasTail(m, m.tail, v.chain[1]), DReadHead, k)
    ensures Pre(CasTail(m, m.tail, v.chain[1]), v, DReadHead)
  {
    var next := m.nodes[m.head.node].next;
    var m' := CasTail(m, m.tail, v.chain[1]);
    assert m.nodes[v.chain[0]].next.node == v.chain[1];
    CompareRun(m, m.head, m.tail, next, k + 1);
    SwingTail(m, v, m.tail, v.chain[1]);
    assert Alone(m, DHelpTail(m.head, m.tail, next), k + 1) == Alone(m', DReadHead, k);
  }

  /** The memory after a dequeue that ran alone: one of an empty queue leaves everything as it was. */
  function AfterDequeue(m: Memory, v: View): Memory {
    if |v.chain| <= 1 then m
    else
      var caughtUp := if m.tail.node == m.head.node then CasTail(m, m.tail, v.chain[1]) else m;
      if caughtUp.head.node in caughtUp.nodes then Removed(caughtUp) else caughtUp
  }

  /** From any reachable memory a dequeue at the top of its loop, running alone, is at its return
      after at most two rounds (sixteen steps), with the first item, or with empty exactly when the
      list is just the dummy; k more steps may follow. */
  lemma DequeueAlone(m: Memory, v: View, k: nat) returns (steps: nat)
    requires Pre(m, v, DReadHead)
    ensures steps <= 16
    ensures Alone(m, DReadHead, k + steps) == Alone(AfterDequeue(m, v), DReturn(FirstItem(m, v)), k)
  {
    if m.tail.node != m.head.node {
      DequeueRound(m, v, k);
      steps := 7;
    } else if |v.chain| > 1 {
      DequeueHelpRound(m, v, k + 7);
      DequeueRound(CasTail(m, m.tail, v.chain[1]), v, k);
      assert FirstItem(CasTail(m, m.tail, v.chain[1]), v) == FirstItem(m, v);
      steps := 16;
    } else {
      CompareRun(m, m.head, m.tail, m.nodes[m.head.node].next, k);
      assert FirstItem(m, v) == None;
      steps := 8;
      assert Alone(m, DReadHead, k + steps) == Alone(m, DReturn(None), k);
    }
  }
}
