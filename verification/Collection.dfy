/**
 The singly linked queue of src/utils/collection.c: elements are pushed at the
 head, popped from the tail, and addressed by their distance from the head.
 All indices and counts are 32-bit and wrap as in C.
 */
module Collection {

  const TWO_TO_THE_32: int := 0x1_0000_0000

  type uint32 = x: int | 0 <= x < TWO_TO_THE_32

  datatype Option<+T> = None | Some(value: T)

  /** What no step changes is the same at the end. */
  lemma {:induction false} Chain<T>(f: nat -> T, n: nat)
    requires forall i: nat :: i < n ==> f(i) == f(i + 1)
    ensures f(0) == f(n)
  {
    if n > 0 { Chain(f, n - 1); }
  }

  // ---------- Specification on sequences (newest element first) ----------

  /** What queue_count reports for n elements: the 32-bit counter wraps. */
  function Counted(n: nat): (c: uint32)
    ensures c <= n
    ensures n < TWO_TO_THE_32 ==> c == n
  {
    n % TWO_TO_THE_32
  }

  /** i + 1 in uint32 arithmetic. */
  function Increment(i: uint32): (r: uint32)
    ensures i + 1 < TWO_TO_THE_32 ==> r == i + 1
  {
    (i + 1) % TWO_TO_THE_32
  }

  /** The largest index queue_peek and queue_remove accept: count - 1 in uint32 arithmetic. */
  function LastIndex(n: nat): uint32 {
    (Counted(n) - 1) % TWO_TO_THE_32
  }

  /** Does queue_peek / queue_remove find an element at this index? */
  predicate InRange(n: nat, index: uint32)
    ensures InRange(n, index) ==> index < n
    ensures n <= TWO_TO_THE_32 ==> (InRange(n, index) <==> index < n)
  {
    n > 0 && index <= LastIndex(n)
  }

  /** Both subtractions in uint32 arithmetic, whatever the number of elements. */
  lemma InRangeIff(n: nat, index: uint32)
    ensures InRange(n, index) <==> n > 0 && index <= (n - 1) % TWO_TO_THE_32
  {
    assert n == n / TWO_TO_THE_32 * TWO_TO_THE_32 + Counted(n);
  }

  /** A loop bounded by queue_count never peeks out of range. */
  lemma VisitedInRange(n: nat)
    ensures forall i: uint32 :: i < Counted(n) ==> InRange(n, i)
  {
  }

  function PeekAt<T>(s: seq<T>, index: uint32): Option<T> {
    if InRange(|s|, index) then Some(s[index]) else None
  }

  function Without<T>(s: seq<T>, k: nat): (r: seq<T>)
    requires k < |s|
    ensures |r| == |s| - 1
    ensures forall i :: 0 <= i < |r| ==> r[i] == if i < k then s[i] else s[i + 1]
  {
    s[..k] + s[k + 1..]
  }

  /** The part of a list that a loop bounded by queue_count visits. */
  function Visited<T>(s: seq<T>): (r: seq<T>)
    ensures |s| < TWO_TO_THE_32 ==> r == s
  {
    s[..Counted(|s|)]
  }

  /** Oldest first: the order in which queue_pop hands the elements out. */
  function Reversed<T>(s: seq<T>): (r: seq<T>)
    ensures |r| == |s|
    ensures forall i :: 0 <= i < |s| ==> r[i] == s[|s| - 1 - i]
  {
    seq(|s|, i requires 0 <= i < |s| => s[|s| - 1 - i])
  }

  lemma ReversedPush<T>(x: T, s: seq<T>)
    ensures Reversed([x] + s) == Reversed(s) + [x]
  {
  }

  lemma ReversedPop<T>(s: seq<T>)
    requires s != []
    ensures Reversed(s)[0] == s[|s| - 1]
    ensures Reversed(s)[1..] == Reversed(s[..|s| - 1])
  {
  }

  // ---------- The linked list ----------

  class Element<T> {
    var data: T
    var next: Element?<T>

    constructor (data: T, next: Element?<T>)
      ensures this.data == data && this.next == next
    {
      this.data, this.next := data, next;
    }
  }

  class Queue<T> {
    var head: Element?<T>

    ghost var Contents: seq<T>
    ghost var Spine: seq<Element<T>>
    ghost var Repr: set<object>

    ghost predicate Valid()
      reads this, Repr
      ensures Valid() ==> this in Repr
    {
      this in Repr && |Spine| == |Contents| && head == At(0) && LinkedFrom(0)
    }

    /** From the k-th node on the chain is the spine, holds the contents and passes no node twice. */
    ghost predicate LinkedFrom(k: nat)
      reads this, Repr
      decreases |Spine| - k
    {
      k < |Spine| <= |Contents| ==>
        && Spine[k] in Repr && Spine[k].data == Contents[k] && Spine[k].next == At(k + 1)
        && (forall j :: k < j < |Spine| ==> Spine[j] != Spine[k])
        && LinkedFrom(k + 1)
    }

    /** The same, node by node. */
    ghost predicate Linked(k: nat)
      reads this, Repr
    {
      && |Spine| == |Contents|
      && (forall i :: k <= i < |Spine| ==> Spine[i] in Repr)
      && (forall i, j :: k <= i < j < |Spine| ==> Spine[i] != Spine[j])
      && (forall i :: k <= i < |Spine| ==> Spine[i].data == Contents[i])
      && (forall i {:trigger Spine[i].next} :: k <= i < |Spine| ==> Spine[i].next == At(i + 1))
    }

    lemma {:induction false} LinkedIff(k: nat)
      requires |Spine| == |Contents|
      ensures LinkedFrom(k) <==> Linked(k)
      decreases |Spine| - k
    {
      if k < |Spine| {
        LinkedIff(k + 1);
        assert Linked(k) ==> Spine[k].next == At(k + 1);
      }
    }

    /** The i-th node of the chain, null past its end. */
    ghost function At(i: nat): Element?<T>
      reads this
    {
      if i < |Spine| then Spine[i] else null
    }

    constructor ()
      ensures Valid() && fresh(Repr) && Contents == []
    {
      head := null;
      Contents, Spine, Repr := [], [], {this};
    }

    method Push(x: T)
      requires Valid()
      modifies Repr
      ensures Valid() && fresh(Repr - old(Repr))
      ensures Contents == [x] + old(Contents)
    {
      LinkedIff(0);
      var e := new Element(x, null);
      if head == null {
        head := e;
      } else {
        var tmp := head;
        head := e;
        e.next := tmp;
      }
      Contents, Spine, Repr := [x] + Contents, [e] + Spine, Repr + {e};
      LinkedIff(0);
    }

    method Pop() returns (r: Option<T>)
      requires Valid()
      modifies Repr
      ensures Valid() && Repr == old(Repr)
      ensures old(Contents) == [] ==> r == None && Contents == []
      ensures old(Contents) != [] ==>
                var last := |old(Contents)| - 1;
                r == Some(old(Contents)[last]) && Contents == old(Contents)[..last]
    {
      LinkedIff(0);
      var e := head;
      if e == null {
        return None;
      }
      var tmp: Element?<T> := null;
      ghost var k := 0;
      while e.next != null
        invariant k < |Spine| && e == Spine[k]
        invariant tmp == if k == 0 then null else Spine[k - 1]
        decreases |Spine| - k
      {
        tmp := e;
        e := e.next;
        k := k + 1;
      }
      r := Some(e.data);
      if tmp != null {
        tmp.next := null;
      } else {
        head := null;
      }
      Contents, Spine := Contents[..k], Spine[..k];
      LinkedIff(0);
    }

    method Remove(index: uint32) returns (r: Option<T>)
      requires Valid()
      modifies Repr
      ensures Valid() && Repr == old(Repr)
      ensures r == PeekAt(old(Contents), index)
      ensures Contents == if r.Some? then Without(old(Contents), index) else old(Contents)
    {
      LinkedIff(0);
      var count := Count();
      if index > (count - 1) % TWO_TO_THE_32 {
        return None;
      }
      var e := head;
      if e == null {
        return None;
      }
      var tmp: Element?<T> := null;
      var i := 0;
      while i < index
        invariant 0 <= i <= index < |Spine| && e == Spine[i]
        invariant tmp == if i == 0 then null else Spine[i - 1]
      {
        tmp := e;
        e := e.next;
        i := i + 1;
      }
      Unlink(tmp, e, i);
      r := Some(e.data);
    }

    /** Takes the k-th node e out of the chain; prev is the node before it, if any. */
    method Unlink(prev: Element?<T>, e: Element<T>, ghost k: nat)
      requires Valid() && k < |Spine| && e == Spine[k]
      requires prev == if k == 0 then null else Spine[k - 1]
      modifies this, if prev == null then {} else {prev}
      ensures Valid() && Repr == old(Repr)
      ensures Contents == Without(old(Contents), k)
      ensures e.data == old(e.data)
    {
      LinkedIff(0);
      ghost var spine := Without(Spine, k);
      assert forall i, j :: 0 <= i < j < |spine| ==> spine[i] != spine[j];
      if prev == null {
        head := e.next;
      } else {
        prev.next := e.next;
      }
      Contents, Spine := Without(Contents, k), spine;
      assert forall i :: 0 <= i < |Spine| ==> Spine[i] in Repr && Spine[i].data == Contents[i];
      assert forall i {:trigger Spine[i].next} :: 0 <= i < |Spine| ==> Spine[i].next == At(i + 1);
      LinkedIff(0);
    }

    method Peek(index: uint32) returns (r: Option<T>)
      requires Valid()
      ensures r == PeekAt(Contents, index)
    {
      LinkedIff(0);
      var count := Count();
      if index > (count - 1) % TWO_TO_THE_32 {
        return None;
      }
      var e := head;
      if e == null {
        return None;
      }
      var i := 0;
      while i < index && e != null
        invariant 0 <= i <= index < |Spine| && e == Spine[i]
      {
        e := e.next;
        i := i + 1;
      }
      return Some(e.data);
    }

    method Count() returns (n: uint32)
      requires Valid()
      ensures n == Counted(|Contents|)
    {
      LinkedIff(0);
      n := 0;
      var e := head;
      ghost var k: nat := 0;
      while e != null
        invariant k <= |Spine| && e == At(k) && n == Counted(k)
        decreases |Spine| - k
      {
        n := Increment(n);
        e := e.next;
        k := k + 1;
      }
    }
  }

  // ---------- First in, first out, over every run ----------

  datatype QueueOp<T> = PushOp(x: T) | PopOp

  datatype QueueRun<T> = QueueRun(contents: seq<T>, pushed: seq<T>, popped: seq<T>)

  /** One queue operation, with everything ever pushed and popped on record. */
  function QueueStep<T>(q: QueueRun<T>, op: QueueOp<T>): QueueRun<T> {
    match op
    case PushOp(x) => q.(contents := [x] + q.contents, pushed := q.pushed + [x])
    case PopOp =>
      if q.contents == [] then q
      else
        var last := |q.contents| - 1;
        q.(contents := q.contents[..last], popped := q.popped + [q.contents[last]])
  }

  function QueueAfter<T>(ops: seq<QueueOp<T>>): QueueRun<T> {
    if ops == [] then QueueRun([], [], [])
    else QueueStep(QueueAfter(ops[..|ops| - 1]), ops[|ops| - 1])
  }

  /** Whatever the run, what was popped followed by what is still queued is what was pushed, in order. */
  lemma {:induction false} FirstInFirstOut<T>(ops: seq<QueueOp<T>>)
    ensures var q := QueueAfter(ops); q.popped + Reversed(q.contents) == q.pushed
  {
    if ops != [] {
      FirstInFirstOut(ops[..|ops| - 1]);
      var q, op := QueueAfter(ops[..|ops| - 1]), ops[|ops| - 1];
      match op
      case PushOp(x) =>
        assert ([x] + q.contents)[1..] == q.contents;
        ReversedPush(x, q.contents);
        assert q.popped + (Reversed(q.contents) + [x]) == (q.popped + Reversed(q.contents)) + [x];
      case PopOp =>
        if q.contents != [] {
          ReversedPop(q.contents);
          var r := Reversed(q.contents);
          assert r == [r[0]] + r[1..];
        }
    }
  }

  /** Any sequence of operations on a new queue leaves the contents of the run, and pops what it pops. */
  method PerformOps<T>(ops: seq<QueueOp<T>>) returns (queue: Queue<T>, popped: seq<T>)
    ensures queue.Valid() && fresh(queue.Repr)
    ensures queue.Contents == QueueAfter(ops).contents && popped == QueueAfter(ops).popped
    decreases |ops|
  {
    if ops == [] {
      queue := new Queue();
      popped := [];
    } else {
      queue, popped := PerformOps(ops[..|ops| - 1]);
      match ops[|ops| - 1]
      case PushOp(x) => queue.Push(x);
      case PopOp =>
        var x := queue.Pop();
        if x.Some? { popped := popped + [x.value]; }
    }
  }
}
