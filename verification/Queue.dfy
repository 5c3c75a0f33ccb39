/** The Michael-Scott queue of AtomicInstructions/queue.c as a step system.

    Any number of threads run `enqueue` and `dequeue`.  Every read or write of shared memory, every
    compare-and-swap, every malloc and every free is one step.  Nodes live in a type-stable pool: a
    freed node stays readable, malloc may hand it out again, and it then still carries the next
    counter (and the stale next pointer and value) of its previous life. */
module Queue {
  import opened Wrappers

  type NodeId = nat
  type ThreadId = nat

  const NULL: NodeId := 0

  datatype Pointer = Pointer(node: NodeId, counter: nat)
  datatype Node = Node(value: int, next: Pointer)

  /** The shared memory: the queue's two pointers and the pool of nodes malloc has ever returned. */
  datatype Memory = Memory(head: Pointer, tail: Pointer, nodes: map<NodeId, Node>, freed: set<NodeId>)

  datatype Operation = Enqueue(item: int) | Dequeue

  /** Where a thread stands in its current call; each constructor names its next shared access and
      holds the locals that are live there. */
  datatype Local =
    | Idle
    | EMalloc(item: int)
    | ESetValue(item: int, node: NodeId)
    | ESetNext(item: int, node: NodeId)
    | EReadTail(item: int, node: NodeId)
    | EReadNext(item: int, node: NodeId, tail: Pointer)
    | ECheckTail(item: int, node: NodeId, tail: Pointer, next: Pointer)
    | ECasNext(item: int, node: NodeId, tail: Pointer, next: Pointer)
    | EHelpTail(item: int, node: NodeId, tail: Pointer, next: Pointer)
    | ECasTail(node: NodeId, tail: Pointer)
    | EReturn
    | DReadHead
    | DReadTail(head: Pointer)
    | DReadNext(head: Pointer, tail: Pointer)
    | DCheckHead(head: Pointer, tail: Pointer, next: Pointer)
    | DCompareValue1(head: Pointer, tail: Pointer, next: Pointer)
    | DCompareValue2(head: Pointer, tail: Pointer, next: Pointer, seen: int)
    | DCompareNext1(head: Pointer, tail: Pointer, next: Pointer)
    | DCompareNext2(head: Pointer, tail: Pointer, next: Pointer, seenNext: Pointer)
    | DHelpTail(head: Pointer, tail: Pointer, next: Pointer)
    | DReadValue(head: Pointer, next: Pointer)
    | DCasHead(head: Pointer, next: Pointer, result: int)
    | DFree(head: Pointer, result: int)
    | DReturn(answer: Option<int>)

  datatype State = State(memory: Memory, threads: map<ThreadId, Local>)

  /** The scheduler's choices.  `Malloc` also chooses the address, and the contents an address has
      when it is handed out for the first time. */
  datatype Action =
    | Call(t: ThreadId, op: Operation)
    | Malloc(t: ThreadId, address: NodeId, junk: Node)
    | Step(t: ThreadId)

  datatype Outcome = Moved(memory: Memory, local: Local) | Fault

  // ----- the comparison helpers and the compare-and-swap -------------------------------------

  predicate CheckEquals(a: Pointer, b: Pointer) {
    if a.node == NULL && b.node == NULL then true
    else if a.node == NULL || b.node == NULL then false
    else a.counter == b.counter && a.node == b.node
  }

  /** The new contents of `source` after update_and_increment(&source, old, node). */
  function UpdateAndIncrement(source: Pointer, expected: Pointer, node: NodeId): Pointer {
    if source == expected then Pointer(node, expected.counter + 1) else source
  }

  function SetNode(m: Memory, n: NodeId, node: Node): Memory {
    m.(nodes := m.nodes[n := node])
  }

  function CasTail(m: Memory, expected: Pointer, node: NodeId): Memory {
    m.(tail := UpdateAndIncrement(m.tail, expected, node))
  }

  function CasHead(m: Memory, expected: Pointer, node: NodeId): Memory {
    m.(head := UpdateAndIncrement(m.head, expected, node))
  }

  function CasNext(m: Memory, at: NodeId, expected: Pointer, node: NodeId): Memory
    requires at in m.nodes
  {
    SetNode(m, at, m.nodes[at].(next := UpdateAndIncrement(m.nodes[at].next, expected, node)))
  }

  /** Where dequeue goes once `equalchecker` has answered. */
  function AfterCompare(head: Pointer, tail: Pointer, next: Pointer, equal: bool): Local {
    if equal then
      if next.node == NULL then DReturn(None) else DHelpTail(head, tail, next)
    else if next.node != NULL then DReadValue(head, next)
    else DReadHead
  }

  // ----- one step of one thread ---------------------------------------------------------------

  /** The step a thread takes next, other than a call or a malloc.  Following a pointer outside the
      pool, and a failing assertion, is a fault. */
  function LocalStep(m: Memory, l: Local): Outcome
    requires !l.Idle? && !l.EMalloc?
  {
    match l
    case ESetValue(x, n) =>
      if n in m.nodes then Moved(SetNode(m, n, m.nodes[n].(value := x)), ESetNext(x, n)) else Fault
    case ESetNext(x, n) =>
      if n in m.nodes
      then Moved(SetNode(m, n, m.nodes[n].(next := m.nodes[n].next.(node := NULL))), EReadTail(x, n))
      else Fault
    case EReadTail(x, n) => if m.tail.node == NULL then Fault else Moved(m, EReadNext(x, n, m.tail))
    case EReadNext(x, n, tail) =>
      if tail.node in m.nodes then Moved(m, ECheckTail(x, n, tail, m.nodes[tail.node].next)) else Fault
    case ECheckTail(x, n, tail, next) =>
      Moved(m, if !CheckEquals(tail, m.tail) then EReadTail(x, n)
               else if next.node == NULL then ECasNext(x, n, tail, next)
               else EHelpTail(x, n, tail, next))
    case ECasNext(x, n, tail, next) =>
      if tail.node !in m.nodes then Fault
      else Moved(CasNext(m, tail.node, next, n),
                 if m.nodes[tail.node].next == next then ECasTail(n, tail) else EReadTail(x, n))
    case EHelpTail(x, n, tail, next) => Moved(CasTail(m, tail, next.node), EReadTail(x, n))
    case ECasTail(n, tail) => Moved(CasTail(m, tail, n), EReturn)
    case EReturn => Moved(m, Idle)
    case DReadHead => Moved(m, DReadTail(m.head))
    case DReadTail(head) => Moved(m, DReadNext(head, m.tail))
    case DReadNext(head, tail) =>
      if head.node in m.nodes then Moved(m, DCheckHead(head, tail, m.nodes[head.node].next)) else Fault
    case DCheckHead(head, tail, next) =>
      Moved(m, if !CheckEquals(head, m.head) then DReadHead
               else if head.node == NULL && tail.node == NULL then AfterCompare(head, tail, next, true)
               else if head.node == NULL || tail.node == NULL || head.node != tail.node
               then AfterCompare(head, tail, next, false)
               else DCompareValue1(head, tail, next))
    case DCompareValue1(head, tail, next) =>
      if head.node in m.nodes
      then Moved(m, DCompareValue2(head, tail, next, m.nodes[head.node].value)) else Fault
    case DCompareValue2(head, tail, next, seen) =>
      if tail.node in m.nodes
      then Moved(m, if seen != m.nodes[tail.node].value then AfterCompare(head, tail, next, false)
                    else DCompareNext1(head, tail, next))
      else Fault
    case DCompareNext1(head, tail, next) =>
      if head.node in m.nodes
      then Moved(m, DCompareNext2(head, tail, next, m.nodes[head.node].next)) else Fault
    case DCompareNext2(head, tail, next, seenNext) =>
      if tail.node in m.nodes
      then Moved(m, AfterCompare(head, tail, next, CheckEquals(seenNext, m.nodes[tail.node].next)))
      else Fault
    case DHelpTail(head, tail, next) => Moved(CasTail(m, tail, next.node), DReadHead)
    case DReadValue(head, next) =>
      if next.node in m.nodes then Moved(m, DCasHead(head, next, m.nodes[next.node].value)) else Fault
    case DCasHead(head, next, result) =>
      Moved(CasHead(m, head, next.node), if m.head == head then DFree(head, result) else DReadHead)
    case DFree(head, result) => Moved(m.(freed := m.freed + {head.node}), DReturn(Some(result)))
    case DReturn(_) => Moved(m, Idle)
  }

  /** malloc: an address never handed out before with junk in it, or a freed node as it was left. */
  function MallocStep(m: Memory, address: NodeId, junk: Node): Memory {
    if address in m.nodes then m.(freed := m.freed - {address}) else SetNode(m, address, junk)
  }

  predicate MallocMay(m: Memory, address: NodeId) {
    address != NULL && (address in m.nodes ==> address in m.freed)
  }

  /** One action of the whole system; None when the action is not possible in `s`. */
  function Next(s: State, a: Action): Option<State> {
    if a.t !in s.threads then None
    else
      var l := s.threads[a.t];
      match a
      case Call(t, op) =>
        if !l.Idle? then None
        else Some(s.(threads := s.threads[t := if op.Enqueue? then EMalloc(op.item) else DReadHead]))
      case Malloc(t, address, junk) =>
        if !l.EMalloc? || !MallocMay(s.memory, address) then None
        else Some(State(MallocStep(s.memory, address, junk),
                        s.threads[t := ESetValue(l.item, address)]))
      case Step(t) =>
        if l.Idle? || l.EMalloc? then None
        else
          match LocalStep(s.memory, l)
          case Fault => None
          case Moved(m, l') => Some(State(m, s.threads[t := l']))
  }

  /** The state after a run; None when some action of it was not possible. */
  function Exec(s: State, run: seq<Action>): Option<State> {
    if run == [] then Some(s)
    else
      match Exec(s, run[..|run| - 1])
      case None => None
      case Some(s') => Next(s', run[|run| - 1])
  }

  /** initialize(): one dummy node, both counters zero, and no thread inside a call. */
  predicate Initial(s: State) {
    && s.memory.head.node != NULL
    && s.memory.head.counter == 0
    && s.memory.tail == s.memory.head
    && s.memory.nodes.Keys == {s.memory.head.node}
    && s.memory.nodes[s.memory.head.node].next == Pointer(NULL, 0)
    && s.memory.freed == {}
    && forall t :: t in s.threads ==> s.threads[t].Idle?
  }
}
