/**
 The linked queue of lib/queue on the heap, refined to a sequence: every operation, the recursive
 in-place reverse included, acts on the sequence view, also after a clear leaves `tail` stale.
 */
module LinkedQueue {
  import opened Options

  class Node<T> {
    var data: T
    var next: Node?<T>

    constructor (data: T)
      ensures this.data == data && next == null
    {
      this.data, next := data, null;
    }
  }

  function Reversed<T>(s: seq<T>): (r: seq<T>)
    ensures |r| == |s|
  {
    if s == [] then [] else Reversed(s[1..]) + [s[0]]
  }

  /** Reversing swaps the ends element by element, and undoes itself. */
  lemma {:induction false} ReversedConcat<T>(a: seq<T>, b: seq<T>)
    ensures Reversed(a + b) == Reversed(b) + Reversed(a)
  {
    if a == [] {
      assert a + b == b;
    } else {
      assert (a + b)[1..] == a[1..] + b;
      ReversedConcat(a[1..], b);
    }
  }

  lemma {:induction false} ReversedTwice<T>(s: seq<T>)
    ensures Reversed(Reversed(s)) == s
  {
    if s != [] {
      ReversedConcat(Reversed(s[1..]), [s[0]]);
      ReversedTwice(s[1..]);
      assert Reversed([s[0]]) == [s[0]];
    }
  }

  lemma {:induction false} ReversedAt<T>(s: seq<T>, i: nat)
    requires i < |s|
    ensures Reversed(s)[i] == s[|s| - 1 - i]
  {
    if i < |s| - 1 {
      ReversedAt(s[1..], i);
    }
  }

  class Queue<T> {
    var head: Node?<T>
    var tail: Node?<T>
    var size: nat
    ghost var nodes: seq<Node<T>>

    /** The nodes from `head` to null; `tail` is only meaningful while there are any. */
    ghost predicate Valid()
      reads this, nodes
    {
      size == |nodes|
      && (forall i, j :: 0 <= i < j < |nodes| ==> nodes[i] != nodes[j])
      && (if nodes == [] then head == null else
            head == nodes[0]
            && tail == nodes[|nodes| - 1]
            && nodes[|nodes| - 1].next == null
            && forall i {:trigger nodes[i].next} :: 0 <= i < |nodes| - 1 ==> nodes[i].next == nodes[i + 1])
    }

    ghost function Repr(): set<Node<T>>
      reads this
    {
      set n | n in nodes
    }

    ghost function Contents(): (s: seq<T>)
      reads this, nodes
      ensures |s| == |nodes|
    {
      seq(|nodes|, i requires 0 <= i < |nodes| reads this, nodes => nodes[i].data)
    }

    constructor ()
      ensures Valid() && Contents() == [] && nodes == []
    {
      head, tail, size, nodes := null, null, 0, [];
    }

    method Enqueue(data: T)
      requires Valid()
      modifies this, Repr()
      ensures Valid() && Contents() == old(Contents()) + [data]
      ensures fresh(Repr() - old(Repr()))
    {
      var toInsert := new Node(data);
      if size == 0 {
        head, tail := toInsert, toInsert;
      } else {
        tail.next := toInsert;
        tail := toInsert;
      }
      size := size + 1;
      nodes := nodes + [toInsert];
    }

    method Dequeue() returns (data: Option<T>)
      requires Valid()
      modifies this
      ensures Valid() && Repr() <= old(Repr())
      ensures old(Contents()) == [] ==> data == None && Contents() == [] && nodes == old(nodes)
      ensures old(Contents()) != [] ==> data == Some(old(Contents())[0]) && Contents() == old(Contents())[1..]
                                        && nodes == old(nodes)[1..]
    {
      if size == 0 {
        return None;
      }
      var toDelete := head;
      if size == 1 {
        data := Some(toDelete.data);
        head, tail := null, null;
        size := size - 1;
        nodes := [];
        return;
      }
      head := head.next;
      data := Some(toDelete.data);
      size := size - 1;
      nodes := nodes[1..];
    }

    method Front() returns (data: Option<T>)
      requires Valid()
      ensures data == if Contents() == [] then None else Some(Contents()[0])
    {
      if size == 0 {
        return None;
      }
      data := Some(head.data);
    }

    /** The recursive reverse: take the first element off, reverse the rest, put it at the end. */
    method Reverse()
      requires Valid()
      modifies this, Repr()
      ensures Valid() && Contents() == Reversed(old(Contents()))
      ensures fresh(Repr() - old(Repr()))
      decreases size
    {
      if size == 0 {
        return;
      }
      var data := Dequeue();
      Reverse();
      Enqueue(data.value);
    }

    /** clearQueue walks `head` off the list and never touches `tail`. */
    method Clear()
      requires Valid()
      modifies this
      ensures Valid() && Contents() == [] && nodes == []
    {
      while size != 0
        invariant Valid()
        decreases size
      {
        head := head.next;
        size := size - 1;
        nodes := nodes[1..];
      }
    }

    /** copyQueue: an equal queue without a node in common, the source untouched. */
    method Copy() returns (copy: Queue<T>)
      requires Valid()
      ensures fresh(copy) && copy.Valid() && copy.Contents() == old(Contents())
      ensures fresh(copy.Repr())
    {
      copy := new Queue<T>();
      var current := head;
      ghost var at := 0;
      while current != null
        invariant 0 <= at <= |nodes| && fresh(copy) && copy.Valid() && Valid() && nodes == old(nodes)
        invariant current == if at < |nodes| then nodes[at] else null
        invariant fresh(copy.Repr())
        invariant copy.Contents() == Contents()[..at]
        decreases |nodes| - at
      {
        copy.Enqueue(current.data);
        assert Contents()[..at + 1] == Contents()[..at] + [Contents()[at]];
        current := current.next;
        at := at + 1;
      }
    }
  }

  // ----- runs of operations -----

  /** Copying goes on with the copy. */
  datatype Operation<T> = EnqueueOp(data: T) | DequeueOp | FrontOp | ClearOp | ReverseOp | CopyOp

  /** What an operation does to a mathematical queue. */
  function Apply<T>(op: Operation<T>, s: seq<T>): seq<T> {
    match op
    case EnqueueOp(data) => s + [data]
    case DequeueOp => if s == [] then [] else s[1..]
    case ClearOp => []
    case ReverseOp => Reversed(s)
    case FrontOp => s
    case CopyOp => s
  }

  /** What an operation hands out: the first element for dequeue and front, if there is one. */
  function Result<T>(op: Operation<T>, s: seq<T>): Option<T> {
    if (op.DequeueOp? || op.FrontOp?) && s != [] then Some(s[0]) else None
  }

  function ApplyAll<T>(ops: seq<Operation<T>>, s: seq<T>): seq<T> {
    if ops == [] then s else ApplyAll(ops[1..], Apply(ops[0], s))
  }

  function Results<T>(ops: seq<Operation<T>>, s: seq<T>): seq<Option<T>> {
    if ops == [] then [] else [Result(ops[0], s)] + Results(ops[1..], Apply(ops[0], s))
  }

  /** One operation on the linked queue; the queue to go on with shares no node with others. */
  method Perform<T>(q: Queue<T>, op: Operation<T>) returns (r: Queue<T>, result: Option<T>)
    requires q.Valid()
    modifies q, q.Repr()
    ensures r.Valid() && r.Contents() == Apply(op, old(q.Contents())) && result == Result(op, old(q.Contents()))
    ensures (r == q || fresh(r)) && fresh(r.Repr() - old(q.Repr()))
  {
    r, result := q, None;
    match op {
      case EnqueueOp(data) => q.Enqueue(data);
      case DequeueOp => result := q.Dequeue();
      case FrontOp => result := q.Front();
      case ClearOp => q.Clear();
      case ReverseOp => q.Reverse();
      case CopyOp => r := q.Copy();
    }
  }

  /** Any run of operations on linked queues gives the results and the contents it gives on a sequence. */
  method Run<T>(q: Queue<T>, ops: seq<Operation<T>>) returns (r: Queue<T>, results: seq<Option<T>>)
    requires q.Valid()
    modifies q, q.Repr()
    ensures r.Valid() && r.Contents() == ApplyAll(ops, old(q.Contents()))
    ensures results == Results(ops, old(q.Contents()))
  {
    hide ApplyAll, Results, Apply, Result;
    r, results := q, [];
    var i := 0;
    assert ops[0..] == ops && [] + Results(ops, q.Contents()) == Results(ops, q.Contents());
    while i < |ops|
      modifies q, q.Repr()
      invariant 0 <= i <= |ops| && r.Valid()
      invariant (r == q || fresh(r)) && fresh(r.Repr() - old(q.Repr()))
      invariant ApplyAll(ops[i..], r.Contents()) == ApplyAll(ops, old(q.Contents()))
      invariant results + Results(ops[i..], r.Contents()) == Results(ops, old(q.Contents()))
    {
      OneMore(ops, i, r.Contents(), results);
      var result;
      r, result := Perform(r, ops[i]);
      results := results + [result];
      i := i + 1;
    }
    NoMore(ops, r.Contents(), results);
  }

  lemma OneMore<T>(ops: seq<Operation<T>>, i: nat, s: seq<T>, results: seq<Option<T>>)
    requires i < |ops|
    ensures var after := Apply(ops[i], s);
            && ApplyAll(ops[i..], s) == ApplyAll(ops[i + 1..], after)
            && results + Results(ops[i..], s) == results + [Result(ops[i], s)] + Results(ops[i + 1..], after)
  {
    hide Apply, Result;
    assert ops[i..][0] == ops[i] && ops[i..][1..] == ops[i + 1..];
  }

  lemma NoMore<T>(ops: seq<Operation<T>>, s: seq<T>, results: seq<Option<T>>)
    ensures ApplyAll(ops[|ops|..], s) == s && results + Results(ops[|ops|..], s) == results
  {
  }

  /** Dequeuing n times gives the first n elements in order: first in, first out. */
  function Drain<T>(n: nat, s: seq<T>): seq<T>
    requires n <= |s|
  {
    if n == 0 then [] else [s[0]] + Drain(n - 1, Apply(DequeueOp, s))
  }

  lemma {:induction false} FirstInFirstOut<T>(s: seq<T>, more: seq<T>)
    ensures Drain(|s|, s + more) == s
  {
    if s != [] {
      assert (s + more)[1..] == s[1..] + more;
      FirstInFirstOut(s[1..], more);
    }
  }
}
