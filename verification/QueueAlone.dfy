/** The functions of AtomicInstructions/queue.c as they run in one thread, updating the queue and the
    pool in place: `initialize`, `destroy` (never called concurrently), and uninterrupted calls of
    `enqueue` and `dequeue`. */
module QueueAlone {
  import opened Wrappers
  import opened Queue
  import opened QueueInvariant
  import opened QueueLinearizable

  class LockFreeQueue {
    var head: Pointer
    var tail: Pointer
    var nodes: map<NodeId, Node>
    var freed: set<NodeId>
    ghost var chain: seq<NodeId>  // the list from head

    function TheMemory(): Memory
      reads this
    {
      Memory(head, tail, nodes, freed)
    }

    /** No call is under way, and every node is in the list or freed. */
    ghost predicate Valid()
      reads this
    {
      Accounted(TheMemory(), chain, {})
    }

    /** The queued values, oldest first. */
    ghost function Contents(): seq<int>
      reads this
    {
      Items(TheMemory(), chain)
    }

    constructor Initialize(address: NodeId, junk: Node)
      requires address != NULL
      ensures Valid() && Contents() == [] && chain == [address]
      ensures nodes.Keys == {address} && freed == {}
    {
      nodes := map[address := junk.(next := Pointer(NULL, 0))];
      head := Pointer(address, 0);
      tail := Pointer(address, 0);
      freed := {};
      chain := [address];
    }

    /** malloc, with the allocator's choice of address and of the junk in a fresh node. */
    method Malloc(address: NodeId, junk: Node)
      requires MallocMay(TheMemory(), address)
      modifies this`nodes, this`freed
      ensures TheMemory() == MallocStep(old(TheMemory()), address, junk)
    {
      if address in nodes {
        freed := freed - {address};
      } else {
        nodes := nodes[address := junk];
      }
    }

    /** free, of a node the caller holds and has not freed before. */
    method Free(n: NodeId)
      requires n in nodes && n !in freed
      modifies this`freed
      ensures freed == old(freed) + {n}
    {
      freed := freed + {n};
    }

    method UpdateAndIncrementTail(expected: Pointer, node: NodeId) returns (ok: bool)
      modifies this`tail
      ensures TheMemory() == CasTail(old(TheMemory()), expected, node)
      ensures ok == (old(tail) == expected)
    {
      ok := tail == expected;
      if ok {
        tail := Pointer(node, expected.counter + 1);
      }
    }

    method UpdateAndIncrementHead(expected: Pointer, node: NodeId) returns (ok: bool)
      modifies this`head
      ensures TheMemory() == CasHead(old(TheMemory()), expected, node)
      ensures ok == (old(head) == expected)
    {
      ok := head == expected;
      if ok {
        head := Pointer(node, expected.counter + 1);
      }
    }

    method UpdateAndIncrementNext(at: NodeId, expected: Pointer, node: NodeId) returns (ok: bool)
      requires at in nodes
      modifies this`nodes
      ensures TheMemory() == CasNext(old(TheMemory()), at, expected, node)
      ensures ok == (old(nodes)[at].next == expected)
    {
      ok := nodes[at].next == expected;
      if ok {
        nodes := nodes[at := nodes[at].(next := Pointer(node, expected.counter + 1))];
      }
    }

    /** Lines 174-177 of enqueue: a node outside the list, with the value and a null next pointer. */
    method NewNode(value: int, address: NodeId, junk: Node)
      requires Valid() && MallocMay(TheMemory(), address)
      modifies this`nodes, this`freed
      ensures Accounted(TheMemory(), chain, {address})
      ensures address in nodes && nodes[address].value == value && nodes[address].next.node == NULL
      ensures nodes.Keys == old(nodes.Keys) + {address} && freed == old(freed) - {address}
      ensures forall n :: n in old(nodes) && n != address ==> nodes[n] == old(nodes)[n]
    {
      Malloc(address, junk);
      nodes := nodes[address := nodes[address].(value := value)];
      nodes := nodes[address := nodes[address].(next := nodes[address].next.(node := NULL))];
    }

    /** Alone, enqueue appends its value, after swinging tail if it lags. */
    method Enqueue(value: int, address: NodeId, junk: Node)
      requires Valid() && MallocMay(TheMemory(), address)
      modifies this
      ensures Valid() && Contents() == old(Contents()) + [value]
      ensures chain == old(chain) + [address] && tail.node == address && head == old(head)
      ensures nodes.Keys == old(nodes.Keys) + {address} && freed == old(freed) - {address}
    {
      NewNode(value, address, junk);
      label ready:
      var last;
      while true
        invariant Linked(TheMemory(), chain) && chain == old(chain) && head == old(head)
        invariant nodes == old@ready(nodes) && freed == old@ready(freed)
        decreases tail.node != Last(chain)
      {
        last := tail;
        var next := nodes[last.node].next;
        if CheckEquals(last, tail) {
          if next.node == NULL {
            var ok := UpdateAndIncrementNext(last.node, next, address);
            if ok {
              break;
            }
          } else {
            var _ := UpdateAndIncrementTail(last, next.node);
          }
        }
      }
      var _ := UpdateAndIncrementTail(last, address);
      chain := chain + [address];
      Appended(old(TheMemory()), old@ready(TheMemory()), TheMemory(), old(chain), address);
    }

    /** `equalchecker` with nobody else running: the same node is equal to itself. */
    method EqualChecker(a: NodeId, b: NodeId) returns (equal: bool)
      requires (a == NULL || a in nodes) && (b == NULL || b in nodes)
      ensures equal == (a == b)
    {
      if a == NULL && b == NULL {
        return true;
      }
      if a == NULL || b == NULL {
        return false;
      }
      if a != b {
        return false;
      }
      if nodes[a].value != nodes[b].value {
        return false;
      }
      return CheckEquals(nodes[a].next, nodes[b].next);
    }

    /** Alone, dequeue removes the oldest value and frees the old dummy, or answers empty. */
    method Dequeue() returns (answer: Option<int>)
      requires Valid()
      modifies this
      ensures Valid()
      ensures old(Contents()) == [] ==> answer == None && Contents() == [] && freed == old(freed)
      ensures old(Contents()) != [] ==>
                && answer == Some(old(Contents())[0]) && Contents() == old(Contents())[1..]
                && freed == old(freed) + {old(head.node)}
      ensures nodes == old(nodes)
    {
      var value := 0;
      var dummy;
      while true
        invariant Linked(TheMemory(), chain) && chain == old(chain) && head == old(head)
        invariant nodes == old(nodes) && freed == old(freed)
        decreases tail.node == head.node
      {
        dummy := head;
        var last := tail;
        var next := nodes[dummy.node].next;
        SecondNode(TheMemory(), chain);
        if CheckEquals(dummy, head) {
          var equal := EqualChecker(dummy.node, last.node);
          if equal {
            if next.node == NULL {
              return None;
            }
            var _ := UpdateAndIncrementTail(last, next.node);
          } else if next.node != NULL {
            value := nodes[next.node].value;
            var ok := UpdateAndIncrementHead(dummy, next.node);
            if ok {
              break;
            }
          }
        }
      }
      chain := chain[1..];
      assert Last(chain) == Last(old(chain));
      AccountsUnlink(old(TheMemory()), TheMemory(), old(chain));
      Free(dummy.node);
      answer := Some(value);
      UnlinkItems(old(TheMemory()), TheMemory(), old(chain));
    }

    /** destroy terminates, and frees each node of the list once; then no node is left. */
    method Destroy()
      requires Valid()
      modifies this
      ensures freed == old(freed) + (set n | n in old(chain)) == nodes.Keys
      ensures head.node == NULL && nodes == old(nodes)
    {
      ghost var k := 0;
      while head.node != NULL
        invariant 0 <= k <= |chain| && chain == old(chain) && nodes == old(nodes)
        invariant head.node == if k < |chain| then chain[k] else NULL
        invariant freed == old(freed) + (set n | n in chain[..k])
        decreases |chain| - k
      {
        var toFree := head.node;
        head := nodes[toFree].next;
        Free(toFree);
        assert chain[..k + 1] == chain[..k] + [chain[k]];
        k := k + 1;
      }
      assert chain[..k] == chain;
    }
  }

  /** The successor of the dummy is the second node of the list, if there is one. */
  lemma SecondNode(m: Memory, chain: seq<NodeId>)
    requires Linked(m, chain)
    ensures m.nodes[m.head.node].next.node == if |chain| > 1 then chain[1] else NULL
  {
    if |chain| > 1 {
      assert m.nodes[chain[0]].next.node == chain[1];
    }
  }

  lemma AppendLinks(m: Memory, m': Memory, chain: seq<NodeId>, n: NodeId)
    requires chain != [] && m'.head == m.head && m'.tail.node == n
    requires n != NULL && n !in chain && n in m.nodes && m.nodes[n].next.node == NULL
    requires Linked(m.(tail := Pointer(Last(chain), 0)), chain)
    requires exists c :: m'.nodes == m.nodes[Last(chain) := m.nodes[Last(chain)].(next := Pointer(n, c))]
    ensures Linked(m', chain + [n])
  {
    var c := chain + [n];
    forall i, j | 0 <= i < |c| && j == i + 1 && j < |c| ensures m'.nodes[c[i]].next.node == c[j] {
      if j < |chain| {
        assert c[i] == chain[i] != Last(chain);
      }
    }
  }

  /** The node m1 holds apart becomes the last of the list. */
  lemma Appended(m0: Memory, m1: Memory, m: Memory, chain: seq<NodeId>, n: NodeId)
    requires chain != [] && SameValues(m0, m1, chain)
    requires Accounted(m1, chain, {n}) && m1.nodes[n].next.node == NULL
    requires m.head == m1.head && m.tail.node == n && m.freed == m1.freed
    requires exists c :: m.nodes == m1.nodes[Last(chain) := m1.nodes[Last(chain)].(next := Pointer(n, c))]
    ensures Accounted(m, chain + [n], {})
    ensures Items(m, chain + [n]) == Items(m0, chain) + [m1.nodes[n].value]
  {
    AppendLinks(m1, m, chain, n);
    LinkItems(m0, m, chain, n);
  }

  /** The unlinked dummy is held until it is freed. */
  lemma AccountsUnlink(m: Memory, m': Memory, chain: seq<NodeId>)
    requires Accounted(m, chain, {}) && |chain| > 1 && Linked(m', chain[1..])
    requires m'.nodes.Keys == m.nodes.Keys && m'.freed == m.freed
    ensures Accounted(m', chain[1..], {chain[0]})
    ensures Accounted(m'.(freed := m.freed + {chain[0]}), chain[1..], {})
  {
    assert forall n :: n in chain <==> n == chain[0] || n in chain[1..];
  }
}
