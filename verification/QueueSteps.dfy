/** Each step of a thread keeps the invariant, and never faults. */
module QueueSteps {
  import opened Queue
  import opened QueueInvariant

  /** No node is lost, duplicated or taken from another thread when the acting thread's nodes change
      from `mine` to `mine'`. */
  ghost predicate Accounts(m: Memory, v: View, mine: set<NodeId>, m': Memory, v': View, mine': set<NodeId>) {
    && (forall n :: n in m.nodes && n !in v.chain && n !in mine && n !in m.freed ==>
          n in m'.nodes && m'.nodes[n] == m.nodes[n])
    && (forall n :: n in v'.chain ==> n in v.chain || n in mine)
    && m'.freed <= m.freed + mine
    && (forall n :: n in mine' ==> n in mine || n in v.chain || n in m.freed || n !in m.nodes)
    && (forall n :: n in mine' ==> n != NULL && n in m'.nodes && n !in m'.freed && n !in v'.chain)
    && (forall n :: n in m'.nodes ==>
          || n in v'.chain || n in m'.freed || n in mine'
          || (n in m.nodes && n !in v.chain && n !in m.freed && n !in mine))
  }

  /** What a thread's own step achieves and what it leaves alone. */
  ghost predicate Guarantee(m: Memory, v: View, l: Local, m': Memory, v': View, l': Local) {
    && Linked(m', v'.chain) && PoolOk(m', v') && LocalOk(m', v', l')
    && Rely(m, v, m', v')
    && Accounts(m, v, Owned(l), m', v', Owned(l'))
  }

  ghost predicate Pre(m: Memory, v: View, l: Local) {
    Linked(m, v.chain) && PoolOk(m, v) && ThreadOk(m, v, l)
  }

  /** A step that changes no memory and no ownership. */
  lemma Stutter(m: Memory, v: View, l: Local, l': Local)
    requires Pre(m, v, l) && LocalOk(m, v, l') && Owned(l') == Owned(l)
    ensures Guarantee(m, v, l, m, v, l')
  {
  }

  predicate IsEnqueueRead(l: Local) {
    l.EReadTail? || l.EReadNext? || l.ECheckTail? || l.EReturn?
  }

  predicate IsDequeueRead(l: Local) {
    l.DReadHead? || l.DReadTail? || l.DReadNext? || l.DCheckHead? || l.DReadValue? || l.DReturn?
  }

  predicate IsCompareRead(l: Local) {
    l.DCompareValue1? || l.DCompareValue2? || l.DCompareNext1? || l.DCompareNext2?
  }

  /** A read leaves the memory alone and teaches the thread something true. */
  ghost predicate GoodRead(m: Memory, v: View, l: Local)
    requires !l.Idle? && !l.EMalloc?
  {
    && LocalStep(m, l).Moved? && LocalStep(m, l).memory == m && NextView(m, v, l) == v
    && LocalOk(m, v, LocalStep(m, l).local)
    && Owned(LocalStep(m, l).local) == Owned(l)
  }

  lemma EnqueueRead(m: Memory, v: View, l: Local)
    requires Pre(m, v, l) && IsEnqueueRead(l)
    ensures GoodRead(m, v, l)
  {
    assert LocalStep(m, l).Moved?;
    assert Owned(LocalStep(m, l).local) == Owned(l);
    assert m.tail.node in v.chain;
  }

  /** No read of dequeue faults, or changes what the thread owns. */
  lemma DequeueMoves(m: Memory, v: View, l: Local)
    requires Pre(m, v, l) && IsDequeueRead(l)
    ensures LocalStep(m, l).Moved? && LocalStep(m, l).memory == m && NextView(m, v, l) == v
    ensures Owned(LocalStep(m, l).local) == Owned(l) == {}
  {
  }

  lemma DequeueRead(m: Memory, v: View, l: Local)
    requires Pre(m, v, l) && IsDequeueRead(l)
    ensures GoodRead(m, v, l)
  {
    DequeueMoves(m, v, l);
    assert m.tail.node in v.chain && m.head.node in v.chain;
  }

  lemma CompareMoves(m: Memory, v: View, l: Local)
    requires Pre(m, v, l) && IsCompareRead(l)
    ensures LocalStep(m, l).Moved? && LocalStep(m, l).memory == m && NextView(m, v, l) == v
    ensures Owned(LocalStep(m, l).local) == Owned(l) == {}
  {
  }

  /** `equalchecker` may answer false for equal pointers, but then either next was null when it was
      read, or head has moved and the unlinking CAS cannot succeed. */
  lemma CompareRead(m: Memory, v: View, l: Local)
    requires Pre(m, v, l) && IsCompareRead(l)
    ensures GoodRead(m, v, l)
    ensures LocalStep(m, l).local.DReadValue? ==> m.head != l.head
  {
    CompareMoves(m, v, l);
    assert m.tail.node in v.chain && m.head.node in v.chain;
  }

  /** `equalchecker` answers true exactly when both values and both next pointers it reads agree, NULL counting
      as equal to NULL whatever the counters. */
  lemma CompareAnswers(m: Memory, l: Local)
    requires LocalStepCompares(l) && l.tail.node in m.nodes
    ensures l.DCompareValue2? ==>
              (LocalStep(m, l) == Moved(m, AfterCompare(l.head, l.tail, l.next, false))
               <==> m.nodes[l.tail.node].value != l.seen)
    ensures l.DCompareNext2? ==>
              var p, q := l.seenNext, m.nodes[l.tail.node].next;
              LocalStep(m, l)
              == Moved(m, AfterCompare(l.head, l.tail, l.next, p == q || (p.node == NULL && q.node == NULL)))
  {
  }

  predicate LocalStepCompares(l: Local) {
    l.DCompareValue2? || l.DCompareNext2?
  }

  lemma SetValueStep(m: Memory, v: View, l: Local)
    requires Pre(m, v, l) && l.ESetValue?
    ensures LocalStep(m, l).Moved?
    ensures Guarantee(m, v, l, LocalStep(m, l).memory, NextView(m, v, l), LocalStep(m, l).local)
  {
    assert l.node in Owned(l);
  }

  lemma SetNextStep(m: Memory, v: View, l: Local)
    requires Pre(m, v, l) && l.ESetNext?
    ensures LocalStep(m, l).Moved?
    ensures Guarantee(m, v, l, LocalStep(m, l).memory, NextView(m, v, l), LocalStep(m, l).local)
  {
    assert l.node in Owned(l);
  }

  lemma SetupStep(m: Memory, v: View, l: Local)
    requires Pre(m, v, l) && (l.ESetValue? || l.ESetNext?)
    ensures LocalStep(m, l).Moved?
    ensures Guarantee(m, v, l, LocalStep(m, l).memory, NextView(m, v, l), LocalStep(m, l).local)
  {
    if l.ESetValue? {
      SetValueStep(m, v, l);
    } else {
      SetNextStep(m, v, l);
    }
  }

  /** Every tail swing that succeeds moves tail from the second-last node to the last. */
  lemma SwingTail(m: Memory, v: View, tail: Pointer, node: NodeId)
    requires Linked(m, v.chain) && PoolOk(m, v)
    requires node != NULL && (m.tail == tail ==> SeenNext(m, tail.node, Pointer(node, 0)))
    ensures Linked(CasTail(m, tail, node), v.chain) && Rely(m, v, CasTail(m, tail, node), v)
    ensures m.tail == tail ==>
              |v.chain| > 1 && m.tail.node == v.chain[|v.chain| - 2] && node == Last(v.chain)
  {
    if m.tail == tail {
      assert |v.chain| > 1 && m.tail.node == v.chain[|v.chain| - 2];
    }
  }

  /** A tail swing, successful or not, leaves every node where it is. */
  lemma SwingKeeps(m: Memory, v: View, l: Local, tail: Pointer, node: NodeId)
    requires Linked(m, v.chain) && PoolOk(m, v) && OwnedOk(m, v, l)
    requires node != NULL && (m.tail == tail ==> SeenNext(m, tail.node, Pointer(node, 0)))
    ensures var m' := CasTail(m, tail, node);
            && Linked(m', v.chain) && PoolOk(m', v) && Rely(m, v, m', v)
            && Accounts(m, v, Owned(l), m', v, Owned(l))
  {
    SwingTail(m, v, tail, node);
    assert CasTail(m, tail, node).nodes == m.nodes && CasTail(m, tail, node).freed == m.freed;
  }

  lemma EnqueueHelps(m: Memory, v: View, l: Local)
    requires Pre(m, v, l) && l.EHelpTail?
    ensures Guarantee(m, v, l, CasTail(m, l.tail, l.next.node), v, EReadTail(l.item, l.node))
  {
    SwingKeeps(m, v, l, l.tail, l.next.node);
    assert Owned(EReadTail(l.item, l.node)) == Owned(l);
  }

  lemma EnqueueSwings(m: Memory, v: View, l: Local)
    requires Pre(m, v, l) && l.ECasTail?
    ensures Guarantee(m, v, l, CasTail(m, l.tail, l.node), v, EReturn)
  {
    SwingKeeps(m, v, l, l.tail, l.node);
    assert Owned(EReturn) == Owned(l);
  }

  lemma DequeueHelps(m: Memory, v: View, l: Local)
    requires Pre(m, v, l) && l.DHelpTail?
    ensures Guarantee(m, v, l, CasTail(m, l.tail, l.next.node), v, DReadHead)
  {
    SwingKeeps(m, v, l, l.tail, l.next.node);
    assert Owned(DReadHead) == Owned(l);
  }

  lemma TailStep(m: Memory, v: View, l: Local)
    requires Pre(m, v, l) && (l.EHelpTail? || l.ECasTail? || l.DHelpTail?)
    ensures LocalStep(m, l).Moved?
    ensures Guarantee(m, v, l, LocalStep(m, l).memory, NextView(m, v, l), LocalStep(m, l).local)
  {
    match l
    case EHelpTail(_, _, _, _) => EnqueueHelps(m, v, l);
    case ECasTail(_, _) => EnqueueSwings(m, v, l);
    case DHelpTail(_, _, _) => DequeueHelps(m, v, l);
  }

  /** The linking CAS appends the enqueuer's node to the list, or changes nothing. */
  lemma Link(m: Memory, v: View, item: int, n: NodeId, tail: Pointer, next: Pointer)
    requires Linked(m, v.chain) && PoolOk(m, v) && Ready(m, v, item, n) && LinkSafe(m, v, tail, next)
    requires n !in v.chain && n !in m.freed && m.nodes[tail.node].next == next
    ensures var m', c := CasNext(m, tail.node, next, n), v.chain + [n];
            Linked(m', c) && PoolOk(m', v.(chain := c)) && Rely(m, v, m', v.(chain := c))
  {
    var m', c := CasNext(m, tail.node, next, n), v.chain + [n];
    assert Last(c) == n && c[|c| - 2] == tail.node;
    forall i, j | 0 <= i < |c| && j == i + 1 && j < |c| ensures m'.nodes[c[i]].next.node == c[j] {
      if i < |v.chain| - 1 {
        assert c[i] == v.chain[i] != Last(v.chain);
      }
    }
    assert Linked(m', c);
  }

  lemma LinkStep(m: Memory, v: View, l: Local)
    requires Pre(m, v, l) && l.ECasNext?
    ensures LocalStep(m, l).Moved?
    ensures Guarantee(m, v, l, LocalStep(m, l).memory, NextView(m, v, l), LocalStep(m, l).local)
  {
    assert l.node in Owned(l);
    if m.nodes[l.tail.node].next == l.next {
      Link(m, v, l.item, l.node, l.tail, l.next);
    } else {
      assert LocalStep(m, l).memory.nodes == m.nodes;
    }
  }

  /** The list without its dummy, and tail still inside. */
  lemma UnlinkLinked(m: Memory, v: View, head: Pointer, next: Pointer)
    requires Linked(m, v.chain) && PoolOk(m, v) && Unlinking(m, v, head, next) && m.head == head
    ensures |v.chain| > 1 && v.chain[1] == next.node && v.chain == [head.node] + v.chain[1..]
    ensures Linked(CasHead(m, head, next.node), v.chain[1..])
  {
    assert |v.chain| > 1 && next.node == v.chain[1];
    var c := v.chain[1..];
    assert Last(c) == Last(v.chain);
    assert |c| == 1 ==> v.chain[|v.chain| - 2] == head.node;
  }

  /** The unlinking CAS removes the dummy, and leaves tail inside the list. */
  lemma Unlink(m: Memory, v: View, head: Pointer, next: Pointer)
    requires Linked(m, v.chain) && PoolOk(m, v) && Unlinking(m, v, head, next) && m.head == head
    ensures |v.chain| > 1 && v.chain[1] == next.node
    ensures var m', c := CasHead(m, head, next.node), v.chain[1..];
            && Linked(m', c) && PoolOk(m', v.(chain := c)) && Rely(m, v, m', v.(chain := c))
            && Accounts(m, v, {}, m', v.(chain := c), {head.node})
  {
    UnlinkLinked(m, v, head, next);
    var c := v.chain[1..];
    assert forall n :: n in v.chain <==> n == head.node || n in c;
  }

  lemma UnlinkWins(m: Memory, v: View, head: Pointer, next: Pointer, result: int)
    requires Linked(m, v.chain) && PoolOk(m, v) && Unlinking(m, v, head, next) && m.head == head
    ensures Guarantee(m, v, DCasHead(head, next, result), CasHead(m, head, next.node),
                      v.(chain := v.chain[1..]), DFree(head, result))
  {
    assert Owned(DCasHead(head, next, result)) == {};
    assert Owned(DFree(head, result)) == {head.node};
    Unlink(m, v, head, next);
  }

  lemma UnlinkStep(m: Memory, v: View, l: Local)
    requires Pre(m, v, l) && l.DCasHead?
    ensures LocalStep(m, l).Moved?
    ensures Guarantee(m, v, l, LocalStep(m, l).memory, NextView(m, v, l), LocalStep(m, l).local)
  {
    if m.head == l.head {
      UnlinkWins(m, v, l.head, l.next, l.result);
    } else {
      Stutter(m, v, l, DReadHead);
      assert CasHead(m, l.head, l.next.node) == m;
    }
  }

  lemma FreeStep(m: Memory, v: View, l: Local)
    requires Pre(m, v, l) && l.DFree?
    ensures LocalStep(m, l).Moved?
    ensures Guarantee(m, v, l, LocalStep(m, l).memory, NextView(m, v, l), LocalStep(m, l).local)
  {
    assert l.head.node in Owned(l);
  }

  lemma MallocKeeps(m: Memory, v: View, l: Local, address: NodeId, junk: Node)
    requires Pre(m, v, l) && l.EMalloc? && MallocMay(m, address)
    ensures Guarantee(m, v, l, MallocStep(m, address, junk), v, ESetValue(l.item, address))
  {
  }
}
