/** What every step of the queue keeps, for any number of threads and with freed nodes recycled. */
module QueueInvariant {
  import opened Queue

  /** The proof's view of a memory: the nodes of the list from head to its end, and the nodes whose
      contents have been set up at least once (so that every pointer anyone can hold leads there). */
  datatype View = View(chain: seq<NodeId>, known: set<NodeId>)

  function Last(chain: seq<NodeId>): NodeId
    requires chain != []
  {
    chain[|chain| - 1]
  }

  /** `chain` is the NULL-terminated, acyclic list from head, and tail is its last or second-last node. */
  ghost predicate Linked(m: Memory, chain: seq<NodeId>) {
    && chain != []
    && chain[0] == m.head.node
    && (forall i :: 0 <= i < |chain| ==> chain[i] != NULL && chain[i] in m.nodes)
    && (forall i, j :: 0 <= i < j < |chain| ==> chain[i] != chain[j])
    && (forall i, j :: 0 <= i < |chain| && j == i + 1 && j < |chain| ==>
          m.nodes[chain[i]].next.node == chain[j])
    && m.nodes[Last(chain)].next.node == NULL
    && (m.tail.node == Last(chain) || (|chain| > 1 && m.tail.node == chain[|chain| - 2]))
  }

  /** The books of the pool: every node is in the list, freed, or held by a call, and only one of them. */
  ghost predicate Accounted(m: Memory, chain: seq<NodeId>, held: set<NodeId>) {
    && Linked(m, chain)
    && NULL !in m.nodes
    && m.nodes.Keys == (set n | n in chain) + m.freed + held
    && held !! m.freed
    && forall n :: n in chain ==> n !in m.freed && n !in held
  }

  ghost predicate PoolOk(m: Memory, v: View) {
    && NULL !in v.known
    && v.known <= m.nodes.Keys
    && m.freed <= v.known
    && NULL !in m.nodes
    && (forall n :: n in v.chain ==> n in v.known && n !in m.freed)
    && (forall n :: n in v.known ==> m.nodes[n].next.node == NULL || m.nodes[n].next.node in v.known)
  }

  /** The nodes only this thread may write or free: a node being enqueued, a dummy just unlinked. */
  function Owned(l: Local): set<NodeId> {
    match l
    case ESetValue(_, n) => {n}
    case ESetNext(_, n) => {n}
    case EReadTail(_, n) => {n}
    case EReadNext(_, n, _) => {n}
    case ECheckTail(_, n, _, _) => {n}
    case ECasNext(_, n, _, _) => {n}
    case EHelpTail(_, n, _, _) => {n}
    case DFree(head, _) => {head.node}
    case _ => {}
  }

  ghost predicate OwnedOk(m: Memory, v: View, l: Local) {
    forall n :: n in Owned(l) ==> n != NULL && n in m.nodes && n !in m.freed && n !in v.chain
  }

  ghost predicate HeadSnapshot(m: Memory, v: View, head: Pointer) {
    && head.node in v.known
    && head.counter <= m.head.counter
    && (head.counter == m.head.counter ==> head == m.head)
  }

  ghost predicate TailSnapshot(m: Memory, v: View, tail: Pointer) {
    && tail.node in v.known
    && tail.counter <= m.tail.counter
    && (tail.counter == m.tail.counter ==> tail == m.tail)
  }

  ghost predicate NextSnapshot(v: View, next: Pointer) {
    next.node == NULL || next.node in v.known
  }

  /** A node set up by its enqueuer and not yet linked. */
  ghost predicate Ready(m: Memory, v: View, item: int, n: NodeId) {
    n in v.known && n in m.nodes && m.nodes[n].value == item && m.nodes[n].next.node == NULL
  }

  /** `next` was read from node n: a non-null pointer is still there, a null one is still there or
      the counter has moved on. */
  ghost predicate SeenNext(m: Memory, n: NodeId, next: Pointer) {
    && n in m.nodes
    && if next.node != NULL then m.nodes[n].next.node == next.node
       else m.nodes[n].next == next || m.nodes[n].next.counter > next.counter
  }

  /** No ABA at the linking CAS: the target has moved on, or it is still the last node of the list,
      tail still points to it, and its next field has not changed since it was read. */
  ghost predicate LinkSafe(m: Memory, v: View, tail: Pointer, next: Pointer) {
    && v.chain != []
    && tail.node in m.nodes
    && next.node == NULL
    && (|| m.nodes[tail.node].next.counter > next.counter
        || (m.nodes[tail.node].next == next && tail.node == Last(v.chain) == m.tail.node))
  }

  /** The two snapshots dequeue took, and what holds of them while head or tail is unchanged. */
  ghost predicate HeadTail(m: Memory, v: View, head: Pointer, tail: Pointer) {
    && HeadSnapshot(m, v, head)
    && TailSnapshot(m, v, tail)
    && (m.head == head && head.node != tail.node ==> m.tail.node != head.node)
  }

  ghost predicate HeadTailNext(m: Memory, v: View, head: Pointer, tail: Pointer, next: Pointer) {
    && HeadTail(m, v, head, tail)
    && NextSnapshot(v, next)
    && (next.node != NULL && m.head == head ==>
          head.node in m.nodes && m.nodes[head.node].next.node == next.node)
    && (next.node != NULL && m.tail == tail && tail.node == head.node ==>
          tail.node in m.nodes && m.nodes[tail.node].next.node == next.node)
  }

  /** What holds of a thread's locals at each point of its call, whatever the other threads do. */
  ghost predicate LocalOk(m: Memory, v: View, l: Local) {
    match l
    case Idle => true
    case EMalloc(_) => true
    case ESetValue(_, n) => true
    case ESetNext(x, n) => n in m.nodes && m.nodes[n].value == x
    case EReadTail(x, n) => Ready(m, v, x, n)
    case EReadNext(x, n, tail) => Ready(m, v, x, n) && TailSnapshot(m, v, tail)
    case ECheckTail(x, n, tail, next) =>
      && Ready(m, v, x, n) && TailSnapshot(m, v, tail) && NextSnapshot(v, next)
      && (m.tail == tail ==> SeenNext(m, tail.node, next))
    case ECasNext(x, n, tail, next) =>
      Ready(m, v, x, n) && TailSnapshot(m, v, tail) && LinkSafe(m, v, tail, next)
    case EHelpTail(x, n, tail, next) =>
      && Ready(m, v, x, n) && TailSnapshot(m, v, tail) && NextSnapshot(v, next) && next.node != NULL
      && (m.tail == tail ==> SeenNext(m, tail.node, next))
    case ECasTail(n, tail) =>
      && TailSnapshot(m, v, tail) && n in v.known && n != NULL
      && (m.tail == tail ==> SeenNext(m, tail.node, Pointer(n, 0)))
    case EReturn => true
    case DReadHead => true
    case DReadTail(head) => HeadSnapshot(m, v, head)
    case DReadNext(head, tail) => HeadTail(m, v, head, tail)
    case DCheckHead(head, tail, next) => HeadTailNext(m, v, head, tail, next)
    case DCompareValue1(head, tail, next) => HeadTailNext(m, v, head, tail, next) && head.node == tail.node
    case DCompareValue2(head, tail, next, seen) =>
      && HeadTailNext(m, v, head, tail, next) && head.node == tail.node
      && (m.head == head && head.node in m.nodes ==> m.nodes[head.node].value == seen)
    case DCompareNext1(head, tail, next) => HeadTailNext(m, v, head, tail, next) && head.node == tail.node
    case DCompareNext2(head, tail, next, seenNext) =>
      && HeadTailNext(m, v, head, tail, next) && head.node == tail.node
      && (m.head == head && next.node != NULL && head.node in m.nodes ==>
            m.nodes[head.node].next == seenNext)
    case DHelpTail(head, tail, next) =>
      HeadTailNext(m, v, head, tail, next) && head.node == tail.node && next.node != NULL
    case DReadValue(head, next) => Unlinking(m, v, head, next)
    case DCasHead(head, next, result) =>
      && Unlinking(m, v, head, next)
      && (m.head == head ==> m.nodes[next.node].value == result)
    case DFree(head, _) => head.node in v.known
    case DReturn(_) => true
  }

  /** No ABA at the unlinking CAS: while head is unchanged, `next` follows it and tail is past it. */
  ghost predicate Unlinking(m: Memory, v: View, head: Pointer, next: Pointer) {
    && HeadSnapshot(m, v, head)
    && next.node != NULL && next.node in v.known && next.node in m.nodes
    && (m.head == head ==>
          head.node in m.nodes && m.nodes[head.node].next.node == next.node && m.tail.node != head.node)
  }

  ghost predicate ThreadOk(m: Memory, v: View, l: Local) {
    LocalOk(m, v, l) && OwnedOk(m, v, l)
  }

  /** Node conservation: each pool node is in exactly one of the list, the freed nodes, and the
      nodes owned by one thread. */
  ghost predicate Partition(s: State, v: View) {
    && (forall t, u :: t in s.threads && u in s.threads && t != u ==>
          Owned(s.threads[t]) !! Owned(s.threads[u]))
    && (forall n :: n in s.memory.nodes && n !in v.chain && n !in s.memory.freed ==>
          exists t :: t in s.threads && n in Owned(s.threads[t]))
  }

  ghost predicate Inv(s: State, v: View) {
    && Linked(s.memory, v.chain)
    && PoolOk(s.memory, v)
    && Partition(s, v)
    && forall t :: t in s.threads ==> ThreadOk(s.memory, v, s.threads[t])
  }

  /** How a step changes the view. */
  function NextView(m: Memory, v: View, l: Local): View {
    match l
    case ESetNext(_, n) => v.(known := v.known + {n})
    case ECasNext(_, n, tail, next) =>
      if tail.node in m.nodes && m.nodes[tail.node].next == next then v.(chain := v.chain + [n]) else v
    case DCasHead(head, _, _) =>
      if m.head == head && v.chain != [] then v.(chain := v.chain[1..]) else v
    case _ => v
  }

  /** What one step may do to the memory another thread sees. */
  ghost predicate Rely(m: Memory, v: View, m': Memory, v': View) {
    && v.chain != [] && v'.chain != []
    && v.known <= v'.known
    && (m'.head == m.head || m'.head.counter > m.head.counter)
    && (m'.tail == m.tail || m'.tail.counter > m.tail.counter)
    && (m'.tail != m.tail ==> m.tail.node != Last(v.chain) && m'.tail.node != m.head.node)
    && (forall n :: n in m.nodes ==> n in m'.nodes && m'.nodes[n].next.counter >= m.nodes[n].next.counter)
    && (forall n :: n in v.chain ==>
          && n in m.nodes && n in m'.nodes && m'.nodes[n].value == m.nodes[n].value
          && (|| m'.nodes[n].next == m.nodes[n].next
              || (m.nodes[n].next.node == NULL && m'.nodes[n].next.counter > m.nodes[n].next.counter)))
    && (|| Last(v'.chain) == Last(v.chain)
        || (&& Last(v.chain) in m.nodes && Last(v.chain) in m'.nodes
            && m'.nodes[Last(v.chain)].next.counter > m.nodes[Last(v.chain)].next.counter))
  }

  /** The step leaves the nodes in `mine` alone. */
  ghost predicate Untouched(m: Memory, m': Memory, mine: set<NodeId>) {
    forall n :: n in mine && n in m.nodes ==>
      n in m'.nodes && m'.nodes[n] == m.nodes[n] && (n in m'.freed ==> n in m.freed)
  }

  // ----- stability: another thread's step keeps what a thread knows ---------------------------

  lemma StableEnqueue(m: Memory, v: View, m': Memory, v': View, l: Local)
    requires Linked(m, v.chain) && PoolOk(m, v) && Linked(m', v'.chain) && PoolOk(m', v')
    requires Rely(m, v, m', v') && Untouched(m, m', Owned(l))
    requires ThreadOk(m, v, l)
    requires !l.DReadTail? && !l.DReadNext? && !l.DCheckHead? && !l.DCompareValue1? && !l.DCompareValue2?
    requires !l.DCompareNext1? && !l.DCompareNext2? && !l.DHelpTail? && !l.DReadValue? && !l.DCasHead?
    ensures LocalOk(m', v', l)
  {
    assert m.tail.node in v.chain;
  }

  lemma StableHeadTail(m: Memory, v: View, m': Memory, v': View, head: Pointer, tail: Pointer)
    requires Linked(m, v.chain) && Linked(m', v'.chain) && Rely(m, v, m', v')
    requires HeadTail(m, v, head, tail)
    ensures HeadTail(m', v', head, tail)
  {
  }

  lemma StableHeadTailNext(m: Memory, v: View, m': Memory, v': View,
                           head: Pointer, tail: Pointer, next: Pointer)
    requires Linked(m, v.chain) && Linked(m', v'.chain) && Rely(m, v, m', v')
    requires HeadTailNext(m, v, head, tail, next)
    ensures HeadTailNext(m', v', head, tail, next)
  {
    StableHeadTail(m, v, m', v', head, tail);
    assert m.tail.node in v.chain;
    assert m.head.node in v.chain;
  }

  lemma StableUnlinking(m: Memory, v: View, m': Memory, v': View, head: Pointer, next: Pointer)
    requires Linked(m, v.chain) && Linked(m', v'.chain) && Rely(m, v, m', v')
    requires Unlinking(m, v, head, next)
    ensures Unlinking(m', v', head, next)
    ensures m'.head == head ==> m.head == head && next.node in v.chain
  {
    assert m.head.node in v.chain;
    if m.head == head {
      assert |v.chain| > 1 && next.node == v.chain[1];
    }
  }

  lemma StableDequeue(m: Memory, v: View, m': Memory, v': View, l: Local)
    requires Linked(m, v.chain) && PoolOk(m, v) && Linked(m', v'.chain) && PoolOk(m', v')
    requires Rely(m, v, m', v')
    requires LocalOk(m, v, l)
    requires l.DReadTail? || l.DReadNext? || l.DCheckHead? || l.DCompareValue1? || l.DCompareValue2?
          || l.DCompareNext1? || l.DCompareNext2? || l.DHelpTail? || l.DReadValue? || l.DCasHead?
    ensures LocalOk(m', v', l)
  {
    assert m.head.node in v.chain;
    if l.DReadTail? {
    } else if l.DReadNext? {
      StableHeadTail(m, v, m', v', l.head, l.tail);
    } else if l.DReadValue? || l.DCasHead? {
      StableUnlinking(m, v, m', v', l.head, l.next);
    } else {
      StableHeadTailNext(m, v, m', v', l.head, l.tail, l.next);
    }
  }
}
