/**
 The broker's objects with operations in between: subscribe and unsubscribe do what module
 FanOutRace applies to a list, and queue_msg and unsubscribe, run step by step with any of
 these in between, end as modules FanOutRace and UnsubscribeRace say.
 */
module BrokerRace {
  import opened Collection
  import opened Broker
  import opened BrokerRefinement
  import opened FanOutRace
  import opened UnsubscribeRace

  // ---------- Operations on the list ----------

  method DoOp<D>(m: MsgManager<D>, op: Op<TestCase<D>>)
    requires m.Valid()
    modifies m.tests.Repr
    ensures m.Valid() && fresh(m.tests.Repr - old(m.tests.Repr))
    ensures m.List() == Apply(old(m.List()), op)
  {
    match op
    case Sub(t) => m.Subscribe(t);
    case Unsub(t) => m.Unsubscribe(t);
  }

  /** Any operations, one after the other. */
  method DoOps<D>(m: MsgManager<D>, ops: seq<Op<TestCase<D>>>)
    requires m.Valid()
    modifies m.tests.Repr
    ensures m.Valid() && fresh(m.tests.Repr - old(m.tests.Repr))
    ensures m.List() == ApplyAll(old(m.List()), ops)
    decreases |ops|
  {
    if ops != [] {
      var n := |ops| - 1;
      DoOps(m, ops[..n]);
      DoOp(m, ops[n]);
    }
  }

  // ---------- unsubscribe, step by step ----------

  /** The loop from index i on, the list being as the previous round left it. */
  function Scan<T(==)>(list: seq<T>, between: Schedule<T>, late: seq<Op<T>>, t: T, count: uint32, i: uint32): Cancelled<T>
    requires i <= count
    decreases count - i
  {
    if i == count then Missed(list)
    else
      var now := ApplyAll(list, between(i));
      if PeekAt(now, i) == Some(t) then RemovedAt(ApplyAll(now, late), i) else Scan(now, between, late, t, count, i + 1)
  }

  /** How the loop ends if it stops at index k. */
  function StopsAt<T(==)>(list: seq<T>, between: Schedule<T>, late: seq<Op<T>>, count: uint32, k: uint32): Cancelled<T> {
    if k == count then Missed(After(list, between, count))
    else RemovedAt(ApplyAll(After(list, between, k + 1), late), k)
  }

  lemma ScanNext<T>(list: seq<T>, between: Schedule<T>, late: seq<Op<T>>, t: T, count: uint32, i: uint32)
    requires i < count
    ensures Scan(After(list, between, i), between, late, t, count, i)
            == if Peeked(list, between, i) == Some(t) then StopsAt(list, between, late, count, i)
               else Scan(After(list, between, i + 1), between, late, t, count, i + 1)
  {
    AfterNext(list, between, i);
  }

  /** Up to the first hit the rest of the loop is the same. */
  lemma ScanReaches<T>(list: seq<T>, between: Schedule<T>, late: seq<Op<T>>, t: T, count: uint32, k: uint32)
    requires k <= count && forall j: uint32 :: j < k ==> Peeked(list, between, j) != Some(t)
    ensures Scan(list, between, late, t, count, 0) == Scan(After(list, between, k), between, late, t, count, k)
  {
    var rest :=
      (i: nat) => if i <= count then Scan(After(list, between, i), between, late, t, count, i) else Missed(list);
    forall i: nat | i < k ensures rest(i) == rest(i + 1) {
      ScanNext(list, between, late, t, count, i);
    }
    Chain(rest, k);
  }

  lemma AfterNext<T>(list: seq<T>, between: Schedule<T>, n: nat)
    ensures After(list, between, n + 1) == ApplyAll(After(list, between, n), between(n))
  {
  }

  /** The loop is the unsubscribe of module UnsubscribeRace. */
  lemma ScanIs<T>(list: seq<T>, between: Schedule<T>, late: seq<Op<T>>, t: T)
    ensures Unsubscribe(list, between, late, t) == Scan(list, between, late, t, Counted(|list|), 0)
  {
    var count := Counted(|list|);
    var k := FirstHit(list, between, t, count, 0);
    ScanReaches(list, between, late, t, count, k);
    if k < count { ScanNext(list, between, late, t, count, k); }
  }

  /** i rounds of the scan have not met t, or round i has; whole is how the scan ends. */
  ghost predicate Looking<T>(whole: Cancelled<T>, between: Schedule<T>, late: seq<Op<T>>, t: T, count: uint32,
                             i: uint32, hit: bool, now: seq<T>) {
    && i <= count
    && whole == if hit then RemovedAt(ApplyAll(now, late), i) else Scan(now, between, late, t, count, i)
  }

  /** One round of the scan. */
  method ScanRound<D>(m: MsgManager<D>, t: TestCase<D>, between: Schedule<TestCase<D>>, ghost late: seq<Op<TestCase<D>>>,
                      i: uint32, count: uint32, ghost whole: Cancelled<TestCase<D>>, ghost now: seq<TestCase<D>>,
                      ghost area: set<object>)
    returns (hit: bool, ghost now': seq<TestCase<D>>, ghost area': set<object>)
    requires m.Valid() && m.tests.Repr <= area && m.List() == now
    requires Looking(whole, between, late, t, count, i, false, now) && i < count
    modifies area
    ensures m.Valid() && m.tests.Repr <= area' && fresh(area' - area) && m.List() == now'
    ensures Looking(whole, between, late, t, count, if hit then i else i + 1, hit, now')
  {
    DoOps(m, between(i));
    var elem := m.tests.Peek(i);
    hit, now', area' := elem == Some(t), m.List(), area + m.tests.Repr;
  }

  method RemoveLate<D>(m: MsgManager<D>, late: seq<Op<TestCase<D>>>, i: uint32) returns (gone: Option<TestCase<D>>)
    requires m.Valid()
    modifies m.tests.Repr
    ensures RemovedAt(ApplyAll(old(m.List()), late), i) == Took(gone, m.List())
  {
    DoOps(m, late);
    gone := m.tests.Remove(i);
  }

  lemma LookingEnds<T>(whole: Cancelled<T>, between: Schedule<T>, late: seq<Op<T>>, t: T, count: uint32,
                       i: uint32, hit: bool, now: seq<T>)
    requires Looking(whole, between, late, t, count, i, hit, now) && (hit || i == count)
    ensures whole == if hit then RemovedAt(ApplyAll(now, late), i) else Missed(now)
  {
  }

  /** The scan, with operations before each peek; whole is how it ends. */
  method ScanBetween<D>(m: MsgManager<D>, t: TestCase<D>, between: Schedule<TestCase<D>>, count: uint32,
                        ghost late: seq<Op<TestCase<D>>>, ghost whole: Cancelled<TestCase<D>>)
    returns (hit: bool, i: uint32, ghost area: set<object>)
    requires m.Valid() && Looking(whole, between, late, t, count, 0, false, m.List())
    modifies m.tests.Repr
    ensures m.Valid() && m.tests.Repr <= area && fresh(area - old(m.tests.Repr))
    ensures Looking(whole, between, late, t, count, i, hit, m.List()) && (hit || i == count)
  {
    ghost var now, start := m.List(), m.tests.Repr;
    hit, i, area := false, 0, start;
    while i < count && !hit
      invariant i <= count && m.List() == now
      invariant m.Valid() && m.tests.Repr <= area && fresh(area - start)
      invariant Looking(whole, between, late, t, count, i, hit, now)
      decreases count - i, !hit
    {
      hit, now, area := ScanRound(m, t, between, late, i, count, whole, now, area);
      if !hit { i := i + 1; }
    }
  }

  /** unsubscribe with operations before each peek, and late ones before the removal. */
  method UnsubscribeBetween<D>(m: MsgManager<D>, t: TestCase<D>, between: Schedule<TestCase<D>>,
                               late: seq<Op<TestCase<D>>>)
    returns (found: bool, gone: Option<TestCase<D>>)
    requires m.Valid()
    modifies m.tests.Repr
    ensures Unsubscribe(old(m.List()), between, late, t) == if found then Took(gone, m.List()) else Missed(m.List())
  {
    ScanIs(m.List(), between, late, t);
    ghost var list, area := m.List(), {};
    ghost var whole := Unsubscribe(list, between, late, t);
    var count := m.tests.Count();
    var i;
    found, i, area := ScanBetween(m, t, between, count, late, whole);
    LookingEnds(whole, between, late, t, count, i, found, m.List());
    gone := None;
    if found {
      gone := RemoveLate(m, late, i);
    }
  }

  // ---------- queue_msg, step by step ----------

  /** Each test's queue is the one before with its share of these copies, one per test they were sent to, appended. */
  ghost predicate Shared<D>(tests: seq<TestCase<D>>, before: seq<seq<Message<D>>>, sent: seq<TestCase<D>>,
                            copies: seq<Message<D>>)
    reads tests, set t | t in tests :: t.inbox
  {
    && |copies| == |sent| && |before| == |tests|
    && forall k :: 0 <= k < |tests| ==> tests[k].Pending() == Delivered(before[k], sent, copies, tests[k])
  }

  /** Copies of the data, all distinct and none of them part of a queue's own structure. */
  ghost predicate CopiesOf<D>(m: MsgManager<D>, tests: seq<TestCase<D>>, copies: seq<Message<D>>, data: D)
    reads m, m.tests, tests, set t | t in tests :: t.inbox, copies
  {
    Outside(m, tests, copies) && Distinct(copies) && forall c :: c in copies ==> c.data == data
  }

  method HandWired<D>(m: MsgManager<D>, tests: seq<TestCase<D>>, elem: TestCase<D>, msg: Message<D>,
                      ghost objs: seq<Message<D>>)
    returns (copy: Message<D>)
    requires Wired(m, tests) && Outside(m, tests, [msg]) && Outside(m, tests, objs) && elem in m.List()
    modifies elem.inbox.Repr
    ensures Wired(m, tests) && Outside(m, tests, [msg]) && Outside(m, tests, objs + [copy])
    ensures m.List() == old(m.List()) && m.tests.Repr == old(m.tests.Repr) && fresh(copy)
    ensures forall o :: o in objs ==> o.data == old(o.data)
    ensures copy.data == msg.data == old(msg.data)
    ensures elem.Pending() == old(elem.Pending()) + [copy]
    ensures forall t :: t in tests && t != elem ==> t.Pending() == old(t.Pending())
    ensures fresh(elem.inbox.Repr - old(elem.inbox.Repr))
    ensures forall t :: t in tests && t != elem ==> t.inbox.Repr == old(t.inbox.Repr)
  {
    assert msg in [msg];
    copy := m.HandCopy(elem, msg);
    assert forall t :: t in tests && t != elem ==> t.Valid() && t.inbox.Repr == old(t.inbox.Repr);
    assert Separate(tests);
  }

  lemma SharedNext<D>(tests: seq<TestCase<D>>, before: seq<seq<Message<D>>>, sent: seq<TestCase<D>>,
                      copies: seq<Message<D>>, queues: seq<seq<Message<D>>>, elem: TestCase<D>, copy: Message<D>)
    requires |copies| == |sent| && |before| == |queues| == |tests|
    requires forall k :: 0 <= k < |tests| ==> queues[k] == Delivered(before[k], sent, copies, tests[k])
    requires forall k :: 0 <= k < |tests| ==>
               tests[k].Pending() == if tests[k] == elem then queues[k] + [copy] else queues[k]
    ensures Shared(tests, before, sent + [elem], copies + [copy])
  {
    assert (sent + [elem])[..|sent|] == sent && (copies + [copy])[..|sent|] == copies;
  }

  ghost predicate Among<D>(copies: seq<Message<D>>, objs: set<object>) {
    forall c :: c in copies ==> c in objs
  }

  /** queue_msg under way. */
  ghost predicate Midway<D>(m: MsgManager<D>, tests: seq<TestCase<D>>, msg: Message<D>, data: D,
                            before: seq<seq<Message<D>>>, sent: seq<TestCase<D>>, copies: seq<Message<D>>)
    reads m, m.tests, m.tests.Repr, msg, tests, set t | t in tests :: t.inbox,
          set t, o | t in tests && o in t.inbox.Repr :: o, copies
  {
    && Wired(m, tests) && Outside(m, tests, [msg]) && msg.data == data
    && Shared(tests, before, sent, copies) && CopiesOf(m, tests, copies, data)
  }

  lemma CopiesNext<D>(m: MsgManager<D>, tests: seq<TestCase<D>>, copies: seq<Message<D>>, copy: Message<D>, data: D)
    requires Outside(m, tests, copies + [copy]) && Distinct(copies) && copy !in copies && copy.data == data
    requires forall c :: c in copies ==> c.data == data
    ensures CopiesOf(m, tests, copies + [copy], data)
  {
  }

  /** A copy more for the test found. */
  method HandFound<D>(m: MsgManager<D>, tests: seq<TestCase<D>>, elem: TestCase<D>, msg: Message<D>, ghost data: D,
                      ghost before: seq<seq<Message<D>>>, ghost sent: seq<TestCase<D>>, ghost copies: seq<Message<D>>)
    returns (copy: Message<D>)
    requires Midway(m, tests, msg, data, before, sent, copies) && elem in m.List()
    modifies elem.inbox.Repr
    ensures Midway(m, tests, msg, data, before, sent + [elem], copies + [copy]) && m.List() == old(m.List())
    ensures fresh(copy) && fresh(Footprint(m, tests) - old(Footprint(m, tests)))
  {
    ghost var queues := Pendings(tests);
    copy := HandWired(m, tests, elem, msg, copies);
    SharedNext(tests, before, sent, copies, queues, elem, copy);
    CopiesNext(m, tests, copies, copy, data);
  }

  method HandOne<D>(m: MsgManager<D>, tests: seq<TestCase<D>>, elem: TestCase<D>, msg: Message<D>, ghost data: D,
                    ghost before: seq<seq<Message<D>>>, ghost sent: seq<TestCase<D>>, ghost copies: seq<Message<D>>,
                    ghost made: set<object>, ghost area: set<object>)
    returns (ghost copies': seq<Message<D>>, ghost made': set<object>, ghost area': set<object>)
    requires Midway(m, tests, msg, data, before, sent, copies) && Among(copies, made) && Footprint(m, tests) <= area
    requires elem in m.List()
    modifies elem.inbox.Repr
    ensures Midway(m, tests, msg, data, before, sent + [elem], copies') && m.List() == old(m.List())
    ensures Among(copies', made') && fresh(made' - made)
    ensures Footprint(m, tests) <= area' && fresh(area' - area)
  {
    var copy := HandFound(m, tests, elem, msg, data, before, sent, copies);
    copies', made', area' := copies + [copy], made + {copy}, area + Footprint(m, tests);
  }

  ghost predicate OpsOf<T>(tests: seq<T>, ops: seq<Op<T>>) {
    forall i :: 0 <= i < |ops| ==> ops[i].test in tests
  }

  lemma {:induction false} ListedAreKnown<T>(list: seq<T>, ops: seq<Op<T>>, tests: seq<T>)
    requires OpsOf(tests, ops) && forall t :: t in list ==> t in tests
    ensures forall t :: t in ApplyAll(list, ops) ==> t in tests
  {
    if ops != [] { ListedAreKnown(list, ops[..|ops| - 1], tests); }
  }

  /** Operations on the list leave the tests' queues and the messages alone. */
  method OpsWired<D>(m: MsgManager<D>, tests: seq<TestCase<D>>, ops: seq<Op<TestCase<D>>>, ghost objs: seq<Message<D>>)
    requires Wired(m, tests) && Outside(m, tests, objs) && OpsOf(tests, ops)
    modifies m.tests.Repr
    ensures Wired(m, tests) && Outside(m, tests, objs) && fresh(m.tests.Repr - old(m.tests.Repr))
    ensures m.List() == ApplyAll(old(m.List()), ops)
    ensures forall t :: t in tests ==> t.Pending() == old(t.Pending()) && t.inbox.Repr == old(t.inbox.Repr)
    ensures forall o :: o in objs ==> o.data == old(o.data)
  {
    ListedAreKnown(m.List(), ops, tests);
    DoOps(m, ops);
  }

  /** The operations before one peek, which touch no test's queue and no message. */
  method OpsBetween<D>(m: MsgManager<D>, tests: seq<TestCase<D>>, ops: seq<Op<TestCase<D>>>, msg: Message<D>,
                       ghost data: D, ghost before: seq<seq<Message<D>>>, ghost sent: seq<TestCase<D>>,
                       ghost copies: seq<Message<D>>, ghost area: set<object>)
    returns (ghost area': set<object>)
    requires Midway(m, tests, msg, data, before, sent, copies) && OpsOf(tests, ops) && Footprint(m, tests) <= area
    modifies m.tests.Repr
    ensures Midway(m, tests, msg, data, before, sent, copies)
    ensures m.List() == ApplyAll(old(m.List()), ops)
    ensures Footprint(m, tests) <= area' && fresh(area' - area)
  {
    assert msg in [msg] + copies;
    OpsWired(m, tests, ops, [msg] + copies);
    assert forall c :: c in copies ==> c in [msg] + copies;
    area' := area + m.tests.Repr;
  }

  /** The peek of one round, and the copy handed to the test it finds. */
  method HandAt<D>(m: MsgManager<D>, tests: seq<TestCase<D>>, msg: Message<D>, i: uint32, ghost data: D,
                   ghost before: seq<seq<Message<D>>>, ghost sent: seq<TestCase<D>>, ghost copies: seq<Message<D>>,
                   ghost made: set<object>, ghost area: set<object>)
    returns (ok: bool, ghost sent': seq<TestCase<D>>, ghost copies': seq<Message<D>>, ghost made': set<object>,
             ghost area': set<object>)
    requires Midway(m, tests, msg, data, before, sent, copies) && Among(copies, made) && Footprint(m, tests) <= area
    modifies area
    ensures Midway(m, tests, msg, data, before, sent', copies')
    ensures m.List() == old(m.List())
    ensures var p := PeekAt(m.List(), i); ok == p.Some? && sent' == if ok then sent + [p.value] else sent
    ensures Among(copies', made') && fresh(made' - made)
    ensures Footprint(m, tests) <= area' && fresh(area' - area)
  {
    var elem := m.tests.Peek(i);
    ok, sent', copies', made', area' := elem.Some?, sent, copies, made, area;
    if ok {
      copies', made', area' := HandOne(m, tests, elem.value, msg, data, before, sent, copies, made, area);
      sent' := sent + [elem.value];
    }
  }

  /** The list and the tests served after i rounds of the loop, or at its end by a NULL dereference. */
  ghost predicate Underway<T>(list: seq<T>, between: Schedule<T>, i: uint32, crashed: bool, now: seq<T>, sent: seq<T>) {
    && |sent| == i <= Counted(|list|)
    && now == After(list, between, if crashed then i + 1 else i)
    && QueueMsg(list, between) == if crashed then NullPeek(sent) else FanOut(now, between, Counted(|list|), i, sent)
  }

  lemma UnderwayNext<T>(list: seq<T>, between: Schedule<T>, i: uint32, now: seq<T>, sent: seq<T>)
    requires Underway(list, between, i, false, now, sent) && i < Counted(|list|)
    ensures var now' := ApplyAll(now, between(i));
            match PeekAt(now', i)
            case None => Underway(list, between, i, true, now', sent)
            case Some(t) => Underway(list, between, i + 1, false, now', sent + [t])
  {
  }

  /** One round of the loop. */
  method FanOutRound<D>(m: MsgManager<D>, tests: seq<TestCase<D>>, between: Schedule<TestCase<D>>, msg: Message<D>,
                        i: uint32, ghost list: seq<TestCase<D>>, ghost now: seq<TestCase<D>>,
                        ghost data: D, ghost before: seq<seq<Message<D>>>, ghost sent: seq<TestCase<D>>,
                        ghost copies: seq<Message<D>>, ghost made: set<object>, ghost area: set<object>)
    returns (ok: bool, ghost now': seq<TestCase<D>>, ghost sent': seq<TestCase<D>>, ghost copies': seq<Message<D>>,
             ghost made': set<object>, ghost area': set<object>)
    requires Midway(m, tests, msg, data, before, sent, copies) && Among(copies, made) && Footprint(m, tests) <= area
    requires OpsOf(tests, between(i)) && m.List() == now && i < Counted(|list|)
    requires Underway(list, between, i, false, now, sent)
    modifies area
    ensures Midway(m, tests, msg, data, before, sent', copies') && m.List() == now'
    ensures Underway(list, between, if ok then i + 1 else i, !ok, now', sent')
    ensures Among(copies', made') && fresh(made' - made)
    ensures Footprint(m, tests) <= area' && fresh(area' - area)
  {
    UnderwayNext(list, between, i, now, sent);
    area' := OpsBetween(m, tests, between(i), msg, data, before, sent, copies, area);
    now' := m.List();
    ok, sent', copies', made', area' := HandAt(m, tests, msg, i, data, before, sent, copies, made, area');
  }

  lemma UnderwayEnds<T>(list: seq<T>, between: Schedule<T>, i: uint32, crashed: bool, now: seq<T>, sent: seq<T>)
    requires Underway(list, between, i, crashed, now, sent) && (crashed || i == Counted(|list|))
    ensures QueueMsg(list, between) == if crashed then NullPeek(sent) else Done(sent)
    ensures now == After(list, between, if crashed then |sent| + 1 else |sent|)
  {
  }

  /**
   The loop of queue_msg with operations before each peek: it ends as module FanOutRace says, and
   every test's queue has grown by its share of the copies, one for each test they were sent to.
   */
  method QueueMsgBetween<D>(m: MsgManager<D>, tests: seq<TestCase<D>>, msg: Message<D>,
                            between: Schedule<TestCase<D>>)
    returns (crashed: bool, ghost sent: seq<TestCase<D>>, ghost copies: seq<Message<D>>, ghost made: set<object>)
    requires Wired(m, tests) && Outside(m, tests, [msg]) && forall n: nat :: OpsOf(tests, between(n))
    modifies Footprint(m, tests)
    ensures QueueMsg(old(m.List()), between) == if crashed then NullPeek(sent) else Done(sent)
    ensures m.List() == After(old(m.List()), between, if crashed then |sent| + 1 else |sent|)
    ensures Midway(m, tests, msg, old(msg.data), old(Pendings(tests)), sent, copies)
    ensures Among(copies, made) && fresh(made)
  {
    ghost var list, now, before, data := m.List(), m.List(), Pendings(tests), msg.data;
    ghost var start, area := Footprint(m, tests), Footprint(m, tests);
    var count := m.tests.Count();
    var i: uint32 := 0;
    crashed, sent, copies, made := false, [], [], {};
    while i < count && !crashed
      invariant i <= count
      invariant Midway(m, tests, msg, data, before, sent, copies) && m.List() == now
      invariant Footprint(m, tests) <= area && fresh(area - start)
      invariant Among(copies, made) && fresh(made)
      invariant Underway(list, between, i, crashed, now, sent)
      decreases count - i, !crashed
    {
      var ok;
      ok, now, sent, copies, made, area :=
        FanOutRound(m, tests, between, msg, i, list, now, data, before, sent, copies, made, area);
      if ok { i := i + 1; } else { crashed := true; }
    }
    UnderwayEnds(list, between, i, crashed, now, sent);
  }
}
