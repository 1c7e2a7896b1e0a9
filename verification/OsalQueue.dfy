/** The ring of list nodes behind the camera's frame and command queues
    (common/hardware/camera/OSAL_Queue.c).

    The abstract value of a queue is a bounded FIFO. `Push`, `Take` and `SetElem` say what one
    operation does to that FIFO; the class proves that the node ring refines them. A data
    pointer is modelled as `Option<T>`, a null pointer being `None`. */
module OsalQueue {
  import opened Options

  datatype OmxError = ErrorNone | ErrorInsufficientResources

  // ---------------------------------------------------------------- the bounded FIFO

  /** How many nodes OSAL_QueueCreate links for a given maxElem. */
  function NodeCount(maxElem: int): nat {
    if maxElem <= 2 then 1 else maxElem - 1
  }

  /** How many elements a queue created with maxElem can hold. */
  function Capacity(maxElem: int): nat {
    if maxElem <= 0 then 0 else NodeCount(maxElem)
  }

  /** A queue created for two or more elements has room for one less. */
  lemma RoomForOneLess(maxElem: int)
    ensures maxElem >= 2 ==> Capacity(maxElem) == NodeCount(maxElem) == maxElem - 1
    ensures maxElem == 1 ==> Capacity(maxElem) == NodeCount(maxElem) == 1
    ensures maxElem <= 0 ==> Capacity(maxElem) == 0
  {
  }

  function Push<T>(fifo: seq<T>, capacity: nat, x: T): seq<T> {
    if |fifo| < capacity then fifo + [x] else fifo
  }

  function Take<T>(fifo: seq<T>): seq<T> {
    if fifo == [] then [] else fifo[1..]
  }

  /** OSAL_QueueSetElem compares the new pointer with the head only. */
  function SetElem<T(==)>(fifo: seq<T>, capacity: nat, x: T): seq<T> {
    if |fifo| < capacity && fifo != [] && fifo[0] == x then fifo else Push(fifo, capacity, x)
  }

  predicate NoDuplicates<T(==)>(s: seq<T>) {
    forall i, j :: 0 <= i < j < |s| ==> s[i] != s[j]
  }

  /** SetElem is meant to keep equal pointers out of the queue. It does so exactly when the
      pointer is not already waiting behind the head. */
  lemma SetElemKeepsDuplicatesOutIff<T>(fifo: seq<T>, capacity: nat, x: T)
    requires NoDuplicates(fifo)
    ensures NoDuplicates(SetElem(fifo, capacity, x)) <==> (|fifo| >= capacity || x !in Take(fifo))
  {
    var after := SetElem(fifo, capacity, x);
    if |fifo| < capacity && x in Take(fifo) {
      var k :| 0 <= k < |fifo| - 1 && fifo[1..][k] == x;
      assert fifo[k + 1] == x;
      assert after[k + 1] == after[|fifo|];
    } else if after == fifo + [x] && fifo != [] {
      forall i | 0 <= i < |fifo| ensures fifo[i] != x {
        if i > 0 {
          assert fifo[1..][i - 1] == fifo[i];
        }
      }
    }
  }

  /** A concrete run in which SetElem stores the same pointer twice. */
  lemma SetElemDuplicateExample()
    ensures SetElem([7, 8], 4, 8) == [7, 8, 8]
    ensures !NoDuplicates(SetElem([7, 8], 4, 8))
  {
    var s := SetElem([7, 8], 4, 8);
    assert s[1] == s[2];
  }

  // ---------------------------------------------------------------- whole runs

  datatype Op<+T> = Put(x: T) | Get | Set(x: T)

  /** The queue together with everything it has ever accepted and handed out. */
  datatype History<T> = History(fifo: seq<T>, accepted: seq<T>, delivered: seq<T>)

  function Execute<T(==)>(h: History<T>, capacity: nat, op: Op<T>): History<T> {
    match op
    case Put(x) =>
      h.(fifo := Push(h.fifo, capacity, x),
         accepted := if |h.fifo| < capacity then h.accepted + [x] else h.accepted)
    case Get =>
      h.(fifo := Take(h.fifo),
         delivered := if h.fifo == [] then h.delivered else h.delivered + [h.fifo[0]])
    case Set(x) =>
      var after := SetElem(h.fifo, capacity, x);
      h.(fifo := after, accepted := if |after| == |h.fifo| then h.accepted else h.accepted + [x])
  }

  /** The history after a list of operations. */
  function Run<T(==)>(h: History<T>, capacity: nat, ops: seq<Op<T>>): History<T> {
    if ops == [] then h
    else Execute(Run(h, capacity, ops[..|ops| - 1]), capacity, ops[|ops| - 1])
  }

  /** What went in is what came out followed by what waits, so nothing is lost, duplicated or
      reordered; and the bound is respected. */
  predicate Balanced<T(==)>(h: History<T>, capacity: nat) {
    h.accepted == h.delivered + h.fifo && |h.fifo| <= capacity
  }

  lemma ExecuteBalanced<T>(h: History<T>, capacity: nat, op: Op<T>)
    requires Balanced(h, capacity)
    ensures Balanced(Execute(h, capacity, op), capacity)
  {
    if op.Get? {
      if h.fifo != [] {
        assert h.fifo == [h.fifo[0]] + h.fifo[1..];
        assert h.delivered + h.fifo == (h.delivered + [h.fifo[0]]) + h.fifo[1..];
      }
    } else {
      assert h.delivered + (h.fifo + [op.x]) == h.accepted + [op.x];
    }
  }

  lemma {:induction false} RunIsFifo<T>(h: History<T>, capacity: nat, ops: seq<Op<T>>)
    requires Balanced(h, capacity)
    ensures Balanced(Run(h, capacity, ops), capacity)
  {
    if ops == [] {
    } else {
      RunIsFifo(h, capacity, ops[..|ops| - 1]);
      ExecuteBalanced(Run(h, capacity, ops[..|ops| - 1]), capacity, ops[|ops| - 1]);
    }
  }

  /** The pointers among the results that are not null. */
  function Values<T>(results: seq<Option<T>>): seq<T> {
    if results == [] then []
    else
      Values(results[..|results| - 1])
      + (match results[|results| - 1] case None => [] case Some(x) => [x])
  }

  lemma OneMore<T>(h: History<T>, capacity: nat, ops: seq<Op<T>>, op: Op<T>, results: seq<Option<T>>, result: Option<T>)
    ensures Run(h, capacity, ops + [op]) == Execute(Run(h, capacity, ops), capacity, op)
    ensures Values(results + [result]) == Values(results) + (match result case None => [] case Some(x) => [x])
  {
    assert (ops + [op])[..|ops|] == ops && (results + [result])[..|results|] == results;
  }

  // ---------------------------------------------------------------- the node ring

  class QElem<T> {
    var data: Option<T>
    var qNext: QElem?<T>

    constructor ()
      ensures data == None && qNext == null
    {
      data, qNext := None, null;
    }
  }

  /** Position of the k-th slot after `head` in a ring of n nodes. */
  function Slot(head: nat, k: nat, n: nat): nat {
    if head + k < n then head + k else head + k - n
  }

  lemma SlotShift(head: nat, k: nat, n: nat)
    requires head < n && k < n
    ensures Slot(Slot(head, 1, n), k, n) == if k + 1 < n then Slot(head, k + 1, n) else head
  {
  }

  class Queue<T(==)> {
    var first: QElem?<T>
    var last: QElem?<T>
    var numElem: int
    var maxElem: int

    ghost var ring: seq<QElem<T>>
    ghost var head: nat
    ghost var past: History<T>  // its `fifo` is what the queue holds

    /** The nodes form one cycle, the occupied slots start at `first` and end before `last`. */
    ghost predicate Valid()
      reads this, ring
    {
      && NoDuplicates(ring)
      && |ring| == NodeCount(maxElem)
      && head < |ring|
      && (forall i :: 0 <= i < |ring| ==> ring[i].qNext == ring[Slot(i, 1, |ring|)])
      && |past.fifo| == numElem && Balanced(past, Capacity(maxElem))
      && first == ring[head]
      && last == ring[Slot(head, |past.fifo|, |ring|)]
      && (forall k :: 0 <= k < |ring| ==>
            ring[Slot(head, k, |ring|)].data == if k < |past.fifo| then Some(past.fifo[k]) else None)
    }

    /** OSAL_QueueCreate; `allocs` is the number of node allocations that succeed. On failure
        every node allocated so far is freed exactly once. */
    method QueueCreate(maxQueueElem: int, allocs: nat) returns (ret: OmxError, ghost freed: seq<QElem<T>>)
      modifies this
      ensures ret == ErrorNone <==> allocs >= NodeCount(maxQueueElem)
      ensures ret == ErrorNone ==> Valid() && fresh(ring) && maxElem == maxQueueElem && past == History([], [], []) && freed == []
      ensures ret != ErrorNone ==> first == null && |freed| == allocs && NoDuplicates(freed) && fresh(freed)
    {
      ret, freed := ErrorNone, [];
      maxElem := maxQueueElem;
      if allocs == 0 {
        first := null;
        return ErrorInsufficientResources, [];
      }
      var current := new QElem<T>();
      first, last := current, current;
      numElem := 0;
      ghost var nodes := [current];
      var i := 0;
      while i < maxElem - 2
        invariant 0 <= i && (i == 0 || i <= maxElem - 2)
        invariant |nodes| == i + 1 <= allocs && NoDuplicates(nodes) && fresh(nodes)
        invariant first == nodes[0] && last == nodes[0] && current == nodes[i] && current.qNext == null
        invariant forall k :: 0 <= k < i ==> nodes[k].qNext == nodes[k + 1]
        invariant forall k :: 0 <= k <= i ==> nodes[k].data == None
        invariant numElem == 0 && maxElem == maxQueueElem
      {
        if allocs == i + 1 {
          freed := FreeChain(nodes);
          return ErrorInsufficientResources, freed;
        }
        var newelem := new QElem<T>();
        current.qNext := newelem;
        current := newelem;
        nodes := nodes + [newelem];
        i := i + 1;
      }
      CloseRing(current, nodes);
    }

    /** The last step of OSAL_QueueCreate. */
    method CloseRing(current: QElem<T>, ghost nodes: seq<QElem<T>>)
      requires |nodes| == NodeCount(maxElem) && NoDuplicates(nodes) && current == nodes[|nodes| - 1]
      requires first == last == nodes[0] && numElem == 0
      requires forall k :: 0 <= k < |nodes| - 1 ==> nodes[k].qNext == nodes[k + 1]
      requires forall k :: 0 <= k < |nodes| ==> nodes[k].data == None
      modifies this`ring, this`head, this`past, current
      ensures Valid() && ring == nodes && past == History([], [], [])
    {
      current.qNext := first;
      ring, head, past := nodes, 0, History([], [], []);
    }

    /** The cleanup loop of a failed OSAL_QueueCreate. */
    method FreeChain(ghost nodes: seq<QElem<T>>) returns (ghost freed: seq<QElem<T>>)
      requires nodes != [] && first == nodes[0] && NoDuplicates(nodes)
      requires forall k :: 0 <= k < |nodes| - 1 ==> nodes[k].qNext == nodes[k + 1]
      requires nodes[|nodes| - 1].qNext == null
      modifies this`first
      ensures first == null && freed == nodes
    {
      freed := [];
      while first != null
        invariant |freed| <= |nodes| && freed == nodes[..|freed|]
        invariant first == if |freed| < |nodes| then nodes[|freed|] else null
        decreases |nodes| - |freed|
      {
        assert first !in freed;  // no node is read after it was freed
        var next := first.qNext;
        freed := freed + [first];
        first := next;
      }
    }

    /** OSAL_QueueTerminate: whatever the queue holds, each node is freed exactly once. */
    method QueueTerminate() returns (ghost freed: seq<QElem<T>>)
      requires Valid()
      modifies this`first
      ensures first == null
      ensures freed == ring[head..] + ring[..head] && NoDuplicates(freed)
      ensures multiset(freed) == multiset(ring)
    {
      ghost var order := ring[head..] + ring[..head];
      OrderFollowsLinks(order);
      freed := FreeRing(order);
    }

    /** The loop of OSAL_QueueTerminate and the free after it. */
    method FreeRing(ghost order: seq<QElem<T>>) returns (ghost freed: seq<QElem<T>>)
      requires |order| == NodeCount(maxElem) && NoDuplicates(order) && first == order[0]
      requires forall k :: 0 <= k < |order| - 1 ==> order[k].qNext == order[k + 1]
      modifies this`first
      ensures first == null && freed == order
    {
      freed := [];
      var i := 0;
      while i < maxElem - 2
        invariant 0 <= i < |order| && freed == order[..i] && first == order[i]
      {
        assert first !in freed;  // no node is read after it was freed
        var current := first.qNext;
        freed := freed + [first];
        first := current;
        i := i + 1;
      }
      if first != null {
        freed := freed + [first];
        first := null;
      }
    }

    /** Starting at the head and following qNext visits every node of the ring once. */
    lemma OrderFollowsLinks(order: seq<QElem<T>>)
      requires Valid() && order == ring[head..] + ring[..head]
      ensures NoDuplicates(order) && multiset(order) == multiset(ring)
      ensures |order| == |ring| && order[0] == first
      ensures forall k :: 0 <= k < |order| - 1 ==> order[k].qNext == order[k + 1]
    {
      assert ring == ring[..head] + ring[head..];
      forall k | 0 <= k < |order| ensures order[k] == ring[Slot(head, k, |ring|)] { }
      SlotsDistinct();
      forall k | 0 <= k < |order| - 1 ensures order[k].qNext == order[k + 1] {
        var p := Slot(head, k, |ring|);
        assert ring[p].qNext == ring[Slot(p, 1, |ring|)];
        assert Slot(p, 1, |ring|) == Slot(head, k + 1, |ring|);
      }
    }

    /** OSAL_Queue */
    method Enqueue(data: T) returns (r: int)
      requires Valid()
      modifies this, ring
      ensures Valid() && ring == old(ring) && maxElem == old(maxElem)
      ensures past == Execute(old(past), Capacity(maxElem), Put(data))
      ensures r == if |old(past.fifo)| < Capacity(maxElem) then 0 else -1
      ensures past.fifo == if r == 0 then old(past.fifo) + [data] else old(past.fifo)
    {
      FullAtHead();
      if last.data != None || numElem >= maxElem {
        return -1;
      }
      Store(data);
      return 0;
    }

    /** OSAL_Dequeue */
    method Dequeue() returns (data: Option<T>)
      requires Valid()
      modifies this, ring
      ensures Valid() && ring == old(ring) && maxElem == old(maxElem)
      ensures past == Execute(old(past), Capacity(maxElem), Get)
      ensures data == if old(past.fifo) == [] then None else Some(old(past.fifo)[0])
      ensures past.fifo == if old(past.fifo) == [] then [] else old(past.fifo)[1..]
    {
      FullAtHead();
      if first.data == None || numElem <= 0 {
        return None;
      }
      data := first.data;
      RemoveFirst();
    }

    /** The second half of OSAL_Dequeue. */
    method RemoveFirst()
      requires Valid() && past.fifo != []
      modifies this, ring
      ensures Valid() && ring == old(ring) && maxElem == old(maxElem)
      ensures past == Execute(old(past), Capacity(maxElem), Get)
    {
      SlotsDistinct();
      ghost var n, h := |ring|, head;
      first.data := None;
      first := first.qNext;
      numElem := numElem - 1;
      ExecuteBalanced(past, Capacity(maxElem), Get);
      past := Execute(past, Capacity(maxElem), Get);
      head := Slot(h, 1, n);
      forall k | 0 <= k < n
        ensures ring[Slot(head, k, n)].data == if k < |past.fifo| then Some(past.fifo[k]) else None
      {
        SlotShift(h, k, n);
        assert k + 1 < n ==> ring[Slot(h, k + 1, n)] != ring[Slot(h, 0, n)];
      }
      SlotShift(h, |past.fifo|, n);
    }

    /** OSAL_GetElemNum */
    method GetElemNum() returns (n: int)
      requires Valid()
      ensures n == |past.fifo|
    {
      n := numElem;
    }

    /** OSAL_QueueSetElem. The loop compares head and tail again and again without advancing;
        the tail slot is empty at that point. */
    method QueueSetElem(data: T) returns (r: int)
      requires Valid()
      modifies this, ring
      ensures Valid() && ring == old(ring) && maxElem == old(maxElem)
      ensures past == Execute(old(past), Capacity(maxElem), Set(data))
      ensures r == if |old(past.fifo)| < Capacity(maxElem) then 0 else -1
      // reported as queued exactly if there was room, and then it is in the queue: at the head, or stored behind the others
      ensures r == 0 ==> data in past.fifo
      ensures past.fifo == if r != 0 || (old(past.fifo) != [] && old(past.fifo)[0] == data) then old(past.fifo)
                           else old(past.fifo) + [data]
    {
      FullAtHead();
      if last.data != None || numElem >= maxElem {
        return -1;
      }
      assert ring[Slot(head, 0, |ring|)] == first;
      var i := 0;
      while i < numElem
        invariant 0 <= i
        invariant i > 0 ==> past.fifo != [] && past.fifo[0] != data
      {
        if first.data == Some(data) || last.data == Some(data) {
          return 0;
        }
        i := i + 1;
      }
      Store(data);
      return 0;
    }

    /** The common tail of OSAL_Queue and OSAL_QueueSetElem. */
    method Store(data: T)
      requires Valid() && |past.fifo| < Capacity(maxElem)
      modifies this, ring
      ensures Valid() && ring == old(ring) && maxElem == old(maxElem)
      ensures past == Execute(old(past), Capacity(maxElem), Put(data))
    {
      SlotsDistinct();
      last.data := Some(data);
      last := last.qNext;
      numElem := numElem + 1;
      ExecuteBalanced(past, Capacity(maxElem), Put(data));
      past := Execute(past, Capacity(maxElem), Put(data));
    }

    /** One operation; `result` is the pointer that Get returns, and None otherwise. */
    method PerformOne(op: Op<T>) returns (result: Option<T>)
      requires Valid()
      modifies this, ring
      ensures Valid() && ring == old(ring) && maxElem == old(maxElem)
      ensures past == Execute(old(past), Capacity(maxElem), op)
      ensures past.delivered == old(past.delivered) + (match result case None => [] case Some(x) => [x])
    {
      match op
      case Put(x) =>
        var _ := Enqueue(x);
        result := None;
      case Set(x) =>
        var _ := QueueSetElem(x);
        result := None;
      case Get => result := Dequeue();
    }

    /** Any run of operations on the ring is the run of a bounded FIFO; by Valid, everything accepted
        is what was delivered followed by what waits, and never more than fits. */
    method Perform(ops: seq<Op<T>>) returns (results: seq<Option<T>>)
      requires Valid()
      modifies this, ring
      ensures Valid() && ring == old(ring) && maxElem == old(maxElem)
      ensures past == Run(old(past), Capacity(maxElem), ops)
      ensures past.accepted == past.delivered + past.fifo && |past.fifo| <= Capacity(maxElem)
      ensures past.delivered == old(past.delivered) + Values(results)
    {
      results := [];
      var i := 0;
      while i < |ops|
        invariant 0 <= i <= |ops| && Valid() && ring == old(ring) && maxElem == old(maxElem)
        invariant past == Run(old(past), Capacity(maxElem), ops[..i])
        invariant past.delivered == old(past.delivered) + Values(results)
      {
        assert ops[..i + 1] == ops[..i] + [ops[i]];
        var result := PerformOne(ops[i]);
        OneMore(old(past), Capacity(maxElem), ops[..i], ops[i], results, result);
        results := results + [result];
        i := i + 1;
      }
      assert ops[..i] == ops;
    }

    /** The tail slot is occupied exactly when the ring is full. */
    lemma FullAtHead()
      requires Valid()
      ensures first.data == if past.fifo == [] then None else Some(past.fifo[0])
      ensures last.data == None <==> |past.fifo| < |ring|
    {
      assert ring[Slot(head, 0, |ring|)] == first;
      assert |past.fifo| < |ring| || last == first;
    }

    lemma SlotsDistinct()
      requires Valid()
      ensures forall j, k :: 0 <= j < k < |ring| ==>
                ring[Slot(head, j, |ring|)] != ring[Slot(head, k, |ring|)]
      ensures Slot(head, |ring|, |ring|) == head
    {
      forall j, k | 0 <= j < k < |ring|
        ensures ring[Slot(head, j, |ring|)] != ring[Slot(head, k, |ring|)]
      {
        var a, b := Slot(head, j, |ring|), Slot(head, k, |ring|);
        assert a != b && a < |ring| && b < |ring|;
        if a < b { assert ring[a] != ring[b]; } else { assert ring[b] != ring[a]; }
      }
    }
  }
}
