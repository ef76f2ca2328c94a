/** The message queue: a doubly linked list between two sentinel nodes, filled behind the head
    and emptied before the tail. */
module Queue {
  import opened Bytes

  class Node {
    var prev: Node?
    var next: Node?
    const size: nat
    const data: array<Byte>

    ghost predicate Has(bytes: seq<Byte>)
      reads data
    {
      size == data.Length && data[..] == bytes
    }

    constructor Sentinel()
      ensures prev == null && next == null && fresh(data)
    {
      prev, next, size := null, null, 0;
      data := new Byte[0];
    }

    /** A node with its own copy of the bytes. */
    constructor Copy(from: seq<Byte>)
      ensures size == data.Length == |from| && data[..] == from && fresh(data)
    {
      size := |from|;
      data := new Byte[|from|](i requires 0 <= i < |from| => from[i]);
    }
  }

  class Queue {
    var head: Node
    var tail: Node
    var size: Uint

    /** All nodes from head to tail, and what has been put in and not taken out, oldest first. */
    ghost var spine: seq<Node>
    ghost var contents: seq<seq<Byte>>

    /** Nodes are distinct, and forward and backward links mirror each other. */
    ghost predicate Linked()
      reads this, spine
    {
      && |spine| >= 2 && spine[0] == head && spine[|spine| - 1] == tail
      && (forall i, j :: 0 <= i < j < |spine| ==> spine[i] != spine[j])
      && (forall i :: 0 <= i < |spine| - 1 ==> spine[i].next == spine[i + 1])
      && (forall i :: 0 < i < |spine| ==> spine[i].prev == spine[i - 1])
    }

    /** The nodes between the sentinels hold the contents, the newest next to the head. */
    ghost predicate Stored()
      reads this, set i | 0 <= i < |spine| :: spine[i].data
    {
      && |spine| == |contents| + 2 && size == |contents|
      && forall i :: 0 <= i < |contents| ==>
           spine[|contents| - i].Has(contents[i])
    }

    ghost predicate Valid()
      reads this, spine, set i | 0 <= i < |spine| :: spine[i].data
    {
      Linked() && Stored()
    }

    constructor Init()
      ensures Valid() && contents == []
      ensures fresh(spine) && forall n :: n in spine ==> fresh(n.data)
    {
      var h := new Node.Sentinel();
      var t := new Node.Sentinel();
      h.next := t;
      t.prev := h;
      head, tail, size := h, t, 0;
      spine, contents := [h, t], [];
    }

    method Enqueue(data: seq<Byte>)
      requires Valid() && |contents| + 1 < TWO32
      modifies this, spine
      ensures Valid() && contents == old(contents) + [data]
      ensures forall n :: n in spine ==> n in old(spine) || fresh(n)
    {
      ghost var was, before := spine, contents;
      var node := new Node.Copy(data);
      LinkIn(node);
      contents := contents + [data];
      size := size + 1;
      forall i | 0 <= i < |contents|
        ensures spine[|contents| - i].Has(contents[i])
      {
        if i < |before| {
          assert spine[|contents| - i] == was[|before| - i] && old(spine[|before| - i].Has(before[i]));
        }
      }
    }

    /** Put a node into the list behind the head. */
    method LinkIn(node: Node)
      requires Linked() && node !in spine
      modifies this`spine, spine, node
      ensures Linked() && spine == old(spine[..1] + [node] + spine[1..])
    {
      ghost var was := spine;
      assert head.next == was[1];
      head.next.prev := node;
      node.next := head.next;
      node.prev := head;
      head.next := node;
      spine := spine[..1] + [node] + spine[1..];
      assert forall i :: 2 <= i < |spine| ==> spine[i] == was[i - 1];
    }

    /** How many bytes the next entry needs. */
    method NextSize() returns (n: nat)
      requires Valid()
      ensures n == if contents == [] then 0 else |contents[0]|
    {
      if size == 0 {
        return 0;
      }
      assert tail.prev == spine[|contents| - 0] && spine[|contents| - 0].Has(contents[0]);
      return tail.prev.size;
    }

    /** The oldest entry into `dest`, or -1 if there is none. */
    method Dequeue(dest: array<Byte>) returns (retval: int)
      requires Valid()
      requires contents != [] ==> dest.Length >= |contents[0]|
      requires forall i :: 0 <= i < |spine| ==> spine[i].data != dest
      modifies this, spine, dest
      ensures Valid()
      ensures forall n :: n in spine ==> n in old(spine)
      ensures old(contents) == [] ==> retval == -1 && contents == [] && dest[..] == old(dest[..])
      ensures old(contents) != [] ==>
                && retval == |old(contents)[0]|
                && dest[..retval] == old(contents)[0]
                && contents == old(contents)[1..]
    {
      if size == 0 {
        return -1;
      }
      var last := tail.prev;
      assert last == spine[|contents| - 0] && last.Has(contents[0]);
      CopyIn(last.data[..], dest, 0);
      Unlink();
      return last.size;
    }

    /** Take the node before the tail out of the list. */
    method Unlink()
      requires Valid() && contents != []
      modifies this, spine
      ensures Valid() && contents == old(contents)[1..]
      ensures spine == old(spine[..|spine| - 2] + [tail])
    {
      ghost var was, before := spine, contents;
      assert tail.prev == was[|was| - 2] && tail.prev.prev == was[|was| - 3];
      tail.prev.prev.next := tail;
      tail.prev := tail.prev.prev;
      spine := spine[..|spine| - 2] + [tail];
      contents := contents[1..];
      size := size - 1;
      forall i | 0 <= i < |contents|
        ensures spine[|contents| - i].Has(contents[i])
      {
        var n := was[|before| - (i + 1)];
        assert spine[|contents| - i] == n && old(n.Has(before[i + 1]));
      }
    }
  }

  // ---------- Runs ----------

  datatype Op = Put(data: seq<Byte>) | Take

  /** The effect of one operation on what has come out and what is left, oldest first. */
  function Effect(out: seq<seq<Byte>>, left: seq<seq<Byte>>, op: Op): (seq<seq<Byte>>, seq<seq<Byte>>) {
    match op
    case Put(d) => (out, left + [d])
    case Take => if left == [] then (out, left) else (out + [left[0]], left[1..])
  }

  /** What has come out and what is left after a run of operations. */
  function After(ops: seq<Op>): (seq<seq<Byte>>, seq<seq<Byte>>) {
    if ops == [] then ([], [])
    else
      var before := After(ops[..|ops| - 1]);
      Effect(before.0, before.1, ops[|ops| - 1])
  }

  function PutIn(ops: seq<Op>): seq<seq<Byte>> {
    if ops == [] then []
    else PutIn(ops[..|ops| - 1]) + match ops[|ops| - 1] case Put(d) => [d] case Take => []
  }

  /** How many more puts than takes there are. */
  function Balance(ops: seq<Op>): int {
    if ops == [] then 0
    else Balance(ops[..|ops| - 1]) + if ops[|ops| - 1].Put? then 1 else -1
  }

  /** What comes out, followed by what is left, is what was put in, in order and unchanged. */
  lemma {:induction false} FirstInFirstOut(ops: seq<Op>)
    ensures After(ops).0 + After(ops).1 == PutIn(ops)
  {
    if ops != [] {
      FirstInFirstOut(ops[..|ops| - 1]);
    }
  }

  /** No more is left than must be: as much as the takes since some moment, each of which found
      an entry, could not keep up with, and never less. */
  lemma {:induction false} LeftIsBacklog(ops: seq<Op>) returns (since: nat)
    ensures since <= |ops| && |After(ops).1| == Balance(ops) - Balance(ops[..since])
    ensures forall i :: 0 <= i <= |ops| ==> |After(ops).1| >= Balance(ops) - Balance(ops[..i])
  {
    if ops == [] {
      since := 0;
    } else {
      var before, last := ops[..|ops| - 1], ops[|ops| - 1];
      since := LeftIsBacklog(before);
      assert forall i :: 0 <= i < |ops| ==> before[..i] == ops[..i];
      assert ops[..|ops|] == ops;
      if last.Take? && After(before).1 == [] {
        since := |ops|;
      }
    }
  }

  /** Carry one operation out; a take reports what it took. */
  method Step(q: Queue, op: Op) returns (out: seq<seq<Byte>>)
    requires q.Valid() && |q.contents| + 1 < TWO32
    modifies q, q.spine
    ensures q.Valid()
    ensures forall n :: n in q.spine ==> n in old(q.spine) || fresh(n)
    ensures op.Put? ==> out == [] && q.contents == old(q.contents) + [op.data]
    ensures op.Take? && old(q.contents) == [] ==> out == [] && q.contents == []
    ensures op.Take? && old(q.contents) != [] ==>
              out == [old(q.contents)[0]] && q.contents == old(q.contents)[1..]
  {
    out := [];
    match op
    case Put(d) =>
      q.Enqueue(d);
    case Take =>
      var room := q.NextSize();
      var dest := new Byte[room];
      var n := q.Dequeue(dest);
      if n >= 0 {
        out := [dest[..n]];
      }
  }

  /** Carry a run of operations out on one queue: every take takes the oldest entry. */
  method Perform(ops: seq<Op>) returns (out: seq<seq<Byte>>, q: Queue)
    requires |ops| < TWO32
    ensures q.Valid()
    ensures (out, q.contents) == After(ops)
    ensures out + q.contents == PutIn(ops)
  {
    q := new Queue.Init();
    out := [];
    for i := 0 to |ops|
      invariant q.Valid() && fresh(q) && forall k :: 0 <= k < |q.spine| ==> fresh(q.spine[k])
      invariant |q.contents| <= i
      invariant (out, q.contents) == After(ops[..i])
    {
      hide Queue.Linked, Queue.Stored;
      assert ops[..i + 1][..i] == ops[..i];
      ghost var was, left, nodes := out, q.contents, q.spine;
      var got := Step(q, ops[i]);
      out := out + got;
      assert got == [] ==> out == was;
      assert (out, q.contents) == Effect(was, left, ops[i]);
      forall k | 0 <= k < |q.spine|
        ensures fresh(q.spine[k])
      {
        assert q.spine[k] in q.spine;
        assert q.spine[k] in nodes ==> exists m :: 0 <= m < |nodes| && nodes[m] == q.spine[k];
      }
    }
    assert ops[..|ops|] == ops;
    FirstInFirstOut(ops);
  }
}
