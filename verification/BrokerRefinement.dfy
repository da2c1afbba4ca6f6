/**
 The objects of module Broker, driven by any sequence of events, go through the states of
 module BrokerRuns: tests are numbered by their place in a sequence of distinct test
 objects, message objects by the order in which they are made.
 */
module BrokerRefinement {
  import opened Collection
  import opened Broker
  import opened BrokerRuns

  // ---------- Objects and numbers ----------

  /** The list of test objects is the list of numbers. */
  ghost predicate Names<T>(tests: seq<T>, list: seq<T>, ids: seq<TestId>) {
    && |list| == |ids|
    && forall i :: 0 <= i < |ids| ==> ids[i] < |tests| && list[i] == tests[ids[i]]
  }

  /** A queue of message objects is the queue of numbered ones, contents included. */
  ghost predicate Holds<O, D>(objs: seq<O>, data: seq<D>, queue: seq<O>, ids: seq<Object<D>>)
    requires |objs| == |data|
  {
    && |queue| == |ids|
    && forall i :: 0 <= i < |ids| ==>
         ids[i].id < |objs| && queue[i] == objs[ids[i].id] && data[ids[i].id] == ids[i].data
  }

  // ---------- Each operation ----------

  lemma FirstListingNamed<T>(tests: seq<T>, list: seq<T>, ids: seq<TestId>, k: TestId)
    requires Distinct(tests) && Names(tests, list, ids) && k < |tests|
    ensures FirstListing(list, tests[k]) == FirstListing(ids, k)
  {
  }

  lemma WithoutNamed<T>(tests: seq<T>, list: seq<T>, ids: seq<TestId>, i: nat)
    requires Names(tests, list, ids) && i < |ids|
    ensures Names(tests, Without(list, i), Without(ids, i))
  {
  }

  lemma UnlistedNamed<T>(tests: seq<T>, list: seq<T>, ids: seq<TestId>, k: TestId)
    requires Distinct(tests) && Names(tests, list, ids) && k < |tests|
    ensures Names(tests, Unlisted(list, tests[k]), Unlisted(ids, k))
  {
    FirstListingNamed(tests, Visited(list), Visited(ids), k);
    var i := FirstListing(Visited(ids), k);
    if i < |Visited(ids)| { WithoutNamed(tests, list, ids, i); }
  }

  lemma HoldsOneMore<O, D>(objs: seq<O>, data: seq<D>, queue: seq<O>, ids: seq<Object<D>>, o: O, id: Object<D>)
    requires |objs| == |data| && Holds(objs, data, queue, ids)
    requires id.id < |objs| && o == objs[id.id] && data[id.id] == id.data
    ensures Holds(objs, data, queue + [o], ids + [id])
  {
  }

  /** The same copies handed out by object and by number. */
  lemma {:induction false} DeliveredHolds<T, O, D>(tests: seq<T>, list: seq<T>, ids: seq<TestId>, k: TestId,
                                                   objs: seq<O>, data: seq<D>, queue: seq<O>, numbered: seq<Object<D>>,
                                                    copies: seq<O>, numberedCopies: seq<Object<D>>)
    requires Distinct(tests) && Names(tests, list, ids) && k < |tests| && |objs| == |data|
    requires |copies| == |list| && Holds(objs, data, copies, numberedCopies)
    requires Holds(objs, data, queue, numbered)
    ensures Holds(objs, data, Delivered(queue, list, copies, tests[k]), Delivered(numbered, ids, numberedCopies, k))
  {
    if list != [] {
      var n := |list| - 1;
      DeliveredHolds(tests, list[..n], ids[..n], k, objs, data, queue, numbered, copies[..n], numberedCopies[..n]);
      if ids[n] == k {
        HoldsOneMore(objs, data, Delivered(queue, list[..n], copies[..n], tests[k]),
                     Delivered(numbered, ids[..n], numberedCopies[..n], k), copies[n], numberedCopies[n]);
      }
    }
  }

  /** More objects do not disturb the numbering of the ones there are. */
  lemma HoldsLater<O, D>(objs: seq<O>, data: seq<D>, moreObjs: seq<O>, moreData: seq<D>, queue: seq<O>,
                         ids: seq<Object<D>>)
    requires |objs| == |data| && |moreObjs| == |moreData| && Holds(objs, data, queue, ids)
    ensures Holds(objs + moreObjs, data + moreData, queue, ids)
  {
  }

  lemma CopiesHold<O, D>(objs: seq<O>, data: seq<D>, more: seq<O>, d: D)
    requires |objs| == |data| && more != []
    ensures Holds(objs + more, data + Repeat(d, |more|), more[1..], Copies(d, |objs| + 1, |more| - 1))
  {
  }

  /** What a publication makes of the state. */
  ghost predicate Published<D>(st: State<D>, d: D, st': State<D>) {
    var visited := Visited(st.list);
    var copies := Copies(d, st.next + 1, |visited|);
    && st'.list == st.list && st'.next == st.next + 1 + |visited|
    && forall k: TestId :: At(st'.inbox, k) == Delivered(At(st.inbox, k), visited, copies, k)
  }

  lemma StepPublishes<D>(st: State<D>, d: D)
    ensures Published(st, d, Step(st, Publish(d)))
  {
    forall k: TestId
      ensures var visited := Visited(st.list);
              At(Step(st, Publish(d)).inbox, k)
                  == Delivered(At(st.inbox, k), visited, Copies(d, st.next + 1, |visited|), k)
    {
      InboxAfterPublish(st, d, k);
    }
  }

  /** What popping makes of the state, as far as the objects show it. */
  ghost predicate Popping<D>(st: State<D>, k: TestId, st': State<D>) {
    && st'.list == st.list && st'.next == st.next
    && (forall j: TestId :: j != k ==> At(st'.inbox, j) == At(st.inbox, j))
    && var q := At(st.inbox, k); At(st'.inbox, k) == if Counted(|q|) == 0 then q else q[1..]
  }

  lemma StepPops<D>(st: State<D>, k: TestId)
    ensures Popping(st, k, Step(st, Event<D>.Take(k)))
  {
  }

  /** What it leaves in one test's queue: more are the message and its copies. */
  lemma PublishedTo<T, O, D>(tests: seq<T>, list: seq<T>, queue: seq<O>, objs: seq<O>, data: seq<D>, st: State<D>, d: D,
                             more: seq<O>, k: TestId, st': State<D>)
    requires Distinct(tests) && |objs| == |data| == st.next && Names(tests, list, st.list)
    requires k < |tests| && Holds(objs, data, queue, At(st.inbox, k)) && |more| == 1 + |Visited(list)|
    requires Published(st, d, st')
    ensures Holds(objs + more, data + Repeat(d, |more|), Delivered(queue, Visited(list), more[1..], tests[k]),
            At(st'.inbox, k))
  {
    var visited := Visited(st.list);
    CopiesHold(objs, data, more, d);
    HoldsLater(objs, data, more, Repeat(d, |more|), queue, At(st.inbox, k));
    DeliveredHolds(tests, Visited(list), visited, k, objs + more, data + Repeat(d, |more|),
                   queue, At(st.inbox, k), more[1..], Copies(d, st.next + 1, |visited|));
  }

  // ---------- The objects ----------

  /** The queue of every test is its own, apart from the others' and from the list. */
  ghost predicate Wired<D>(m: MsgManager<D>, tests: seq<TestCase<D>>)
    reads m, m.tests, m.tests.Repr, tests, set t | t in tests :: t.inbox, set t, o | t in tests
        && o in t.inbox.Repr :: o
  {
    && m.Valid() && Separate(tests) && Distinct(tests)
    && (forall t :: t in tests ==> t.inbox.Repr !! m.tests.Repr)
    && (forall t :: t in m.List() ==> t in tests)
  }

  /** The messages are no part of any queue's own structure. */
  ghost predicate Outside<D>(m: MsgManager<D>, tests: seq<TestCase<D>>, objs: seq<Message<D>>)
    reads m, m.tests, tests, set t | t in tests :: t.inbox
  {
    forall o :: o in objs ==> o !in m.tests.Repr && forall t :: t in tests ==> o !in t.inbox.Repr
  }

  ghost function Pendings<D>(tests: seq<TestCase<D>>): (p: seq<seq<Message<D>>>)
    reads tests, set t | t in tests :: t.inbox
    ensures |p| == |tests| && forall k :: 0 <= k < |tests| ==> p[k] == tests[k].Pending()
  {
    seq(|tests|, k requires 0 <= k < |tests| reads tests, set t | t in tests :: t.inbox => tests[k].Pending())
  }

  /** The contents of the messages made so far. */
  ghost predicate Contain<D>(objs: seq<Message<D>>, data: seq<D>)
    reads objs
  {
    |objs| == |data| && forall i :: 0 <= i < |objs| ==> objs[i].data == data[i]
  }

  lemma ContainMore<D>(objs: seq<Message<D>>, data: seq<D>, more: seq<Message<D>>, d: D)
    requires Contain(objs, data) && forall i :: 0 <= i < |more| ==> more[i].data == d
    ensures Contain(objs + more, data + Repeat(d, |more|))
  {
  }

  lemma DistinctBoth<T>(a: seq<T>, b: seq<T>)
    requires Distinct(a) && Distinct(b) && forall x :: x in b ==> x !in a
    ensures Distinct(a + b)
  {
    assert forall i :: 0 <= i < |b| ==> b[i] in b;
  }

  /** The broker, its tests and every message made so far are what the state says. */
  ghost predicate Shows<D>(m: MsgManager<D>, tests: seq<TestCase<D>>, objs: seq<Message<D>>, data: seq<D>, st: State<D>)
    reads m, m.tests, m.tests.Repr, objs, tests, set t | t in tests :: t.inbox,
          set t, o | t in tests && o in t.inbox.Repr :: o
  {
    && Wired(m, tests) && Outside(m, tests, objs)
    && Distinct(objs) && Contain(objs, data) && |objs| == st.next
    && Names(tests, m.List(), st.list)
    && forall k :: 0 <= k < |tests| ==> Holds(objs, data, tests[k].Pending(), At(st.inbox, k))
  }

  method SubscribeWired<D>(m: MsgManager<D>, tests: seq<TestCase<D>>, test: TestCase<D>, ghost objs: seq<Message<D>>)
    requires Wired(m, tests) && Outside(m, tests, objs) && test in tests
    modifies m.tests.Repr
    ensures Wired(m, tests) && Outside(m, tests, objs) && fresh(m.tests.Repr - old(m.tests.Repr))
    ensures m.List() == [test] + old(m.List())
    ensures forall t :: t in tests ==> t.Pending() == old(t.Pending())
    ensures forall o :: o in objs ==> o.data == old(o.data)
  {
    m.Subscribe(test);
  }

  method UnsubscribeWired<D>(m: MsgManager<D>, tests: seq<TestCase<D>>, test: TestCase<D>, ghost objs: seq<Message<D>>)
    requires Wired(m, tests) && Outside(m, tests, objs)
    modifies m.tests.Repr
    ensures Wired(m, tests) && Outside(m, tests, objs) && m.tests.Repr == old(m.tests.Repr)
    ensures m.List() == Unlisted(old(m.List()), test)
    ensures forall t :: t in tests ==> t.Pending() == old(t.Pending())
    ensures forall o :: o in objs ==> o.data == old(o.data)
  {
    m.Unsubscribe(test);
  }

  method TakeWired<D>(m: MsgManager<D>, tests: seq<TestCase<D>>, k: nat, ghost objs: seq<Message<D>>)
    returns (msg: Option<Message<D>>)
    requires Wired(m, tests) && Outside(m, tests, objs) && k < |tests|
    modifies tests[k].inbox.Repr
    ensures Wired(m, tests) && Outside(m, tests, objs)
    ensures m.List() == old(m.List()) && m.tests.Repr == old(m.tests.Repr)
    ensures forall t :: t in tests ==> t.inbox.Repr == old(t.inbox.Repr)
    ensures forall o :: o in objs ==> o.data == old(o.data)
    ensures var q := old(tests[k].Pending());
            if Counted(|q|) == 0 then msg == None && tests[k].Pending() == q
            else msg == Some(q[0]) && tests[k].Pending() == q[1..]
    ensures forall t :: t in tests && t != tests[k] ==> t.Pending() == old(t.Pending())
  {
    msg := tests[k].PopMsg();
  }

  /** queue_msg, and what it leaves alone: the tests that are not listed. */
  method QueueFramed<D>(m: MsgManager<D>, tests: seq<TestCase<D>>, msg: Message<D>)
        returns (ghost copies: seq<Message<D>>)
    requires Wired(m, tests) && Outside(m, tests, [msg])
    modifies set t, o | t in tests && o in t.inbox.Repr :: o
    ensures Wired(m, tests)
    ensures m.List() == old(m.List()) && m.tests.Repr == old(m.tests.Repr) && msg.data == old(msg.data)
    ensures forall t :: t in tests ==> fresh(t.inbox.Repr - old(t.inbox.Repr))
    ensures |copies| == |Visited(m.List())|
    ensures m.Apart(msg) && Distinct(copies)
    ensures forall i :: 0 <= i < |copies| ==> fresh(copies[i]) && copies[i].data == msg.data && m.Apart(copies[i])
    ensures forall t :: t in tests && t in m.List() ==>
              t.Pending() == Delivered(old(t.Pending()), Visited(m.List()), copies, t)
    ensures forall t :: t in tests && t !in m.List() ==>
              t.Pending() == old(t.Pending()) && t.inbox.Repr == old(t.inbox.Repr)
  {
    copies := m.QueueMsg(msg);
    assert forall t :: t in tests && t !in m.List() ==> t.Valid() && t.inbox.Repr == old(t.inbox.Repr);
    assert Separate(tests);
  }

  /** The same for all tests, listed or not. */
  method QueueWired<D>(m: MsgManager<D>, tests: seq<TestCase<D>>, msg: Message<D>)
        returns (ghost copies: seq<Message<D>>)
    requires Wired(m, tests) && Outside(m, tests, [msg])
    modifies set t, o | t in tests && o in t.inbox.Repr :: o
    ensures Wired(m, tests) && Outside(m, tests, [msg] + copies)
    ensures m.List() == old(m.List()) && m.tests.Repr == old(m.tests.Repr) && msg.data == old(msg.data)
    ensures forall t :: t in tests ==> fresh(t.inbox.Repr - old(t.inbox.Repr))
    ensures |copies| == |Visited(m.List())| && Distinct(copies)
    ensures forall i :: 0 <= i < |copies| ==> fresh(copies[i]) && copies[i].data == msg.data
    ensures forall t :: t in tests ==> t.Pending() == Delivered(old(t.Pending()), Visited(m.List()), copies, t)
  {
    copies := QueueFramed(m, tests, msg);
    forall t | t in tests && t !in m.List()
      ensures t.Pending() == Delivered(old(t.Pending()), Visited(m.List()), copies, t)
    {
      NotListedGetsNothing(old(t.Pending()), Visited(m.List()), copies, t);
    }
  }

  /** A message is made and published; more are the message and the copies made of it. */
  method PublishWired<D>(m: MsgManager<D>, tests: seq<TestCase<D>>, d: D, ghost objs: seq<Message<D>>)
    returns (ghost more: seq<Message<D>>)
    requires Wired(m, tests) && Outside(m, tests, objs)
    modifies set t, o | t in tests && o in t.inbox.Repr :: o
    ensures Wired(m, tests) && Outside(m, tests, objs + more)
    ensures m.List() == old(m.List()) && m.tests.Repr == old(m.tests.Repr)
    ensures forall t :: t in tests ==> fresh(t.inbox.Repr - old(t.inbox.Repr))
    ensures |more| == 1 + |Visited(m.List())| && forall i :: 0 <= i < |more| ==> fresh(more[i]) && more[i].data == d
    ensures Distinct(more)
    ensures forall o :: o in objs ==> o.data == old(o.data)
    ensures forall t :: t in tests ==> t.Pending() == Delivered(old(t.Pending()), Visited(m.List()), more[1..], t)
  {
    var msg := new Message(d);
    ghost var copies := QueueWired(m, tests, msg);
    more := [msg] + copies;
    assert more[1..] == copies;
  }

  // ---------- Events on the objects, events on the state ----------

  ghost function Footprint<D>(m: MsgManager<D>, tests: seq<TestCase<D>>): set<object>
    reads m, m.tests, tests, set t | t in tests :: t.inbox
  {
    m.tests.Repr + set t, o | t in tests && o in t.inbox.Repr :: o
  }

  method DoSubscribe<D>(m: MsgManager<D>, tests: seq<TestCase<D>>, k: TestId,
                        ghost objs: seq<Message<D>>, ghost data: seq<D>, ghost st: State<D>)
    requires Shows(m, tests, objs, data, st) && k < |tests|
    modifies m.tests.Repr
    ensures Shows(m, tests, objs, data, Step(st, Event<D>.Subscribe(k)))
    ensures fresh(Footprint(m, tests) - old(Footprint(m, tests)))
  {
    SubscribeWired(m, tests, tests[k], objs);
  }

  method DoUnsubscribe<D>(m: MsgManager<D>, tests: seq<TestCase<D>>, k: TestId,
                          ghost objs: seq<Message<D>>, ghost data: seq<D>, ghost st: State<D>)
    requires Shows(m, tests, objs, data, st) && k < |tests|
    modifies m.tests.Repr
    ensures Shows(m, tests, objs, data, Step(st, Event<D>.Unsubscribe(k)))
    ensures fresh(Footprint(m, tests) - old(Footprint(m, tests)))
  {
    UnlistedNamed(tests, m.List(), st.list, k);
    UnsubscribeWired(m, tests, tests[k], objs);
  }

  /** What queue_msg leaves behind is what the state says after a publication. */
  lemma PublishShown<D>(m: MsgManager<D>, tests: seq<TestCase<D>>, d: D, objs: seq<Message<D>>, data: seq<D>,
                        st: State<D>,
                        pending: seq<seq<Message<D>>>, more: seq<Message<D>>, st': State<D>)
    requires Wired(m, tests) && Outside(m, tests, objs + more) && Published(st, d, st')
    requires Distinct(objs) && Distinct(more) && forall o :: o in more ==> o !in objs
    requires Contain(objs, data) && |objs| == st.next && Names(tests, m.List(), st.list)
    requires |pending| == |tests| && forall k :: 0 <= k < |tests| ==> Holds(objs, data, pending[k], At(st.inbox, k))
    requires |more| == 1 + |Visited(m.List())| && forall i :: 0 <= i < |more| ==> more[i].data == d
    requires forall k :: 0 <= k < |tests| ==>
               tests[k].Pending() == Delivered(pending[k], Visited(m.List()), more[1..], tests[k])
    ensures Shows(m, tests, objs + more, data + Repeat(d, |more|), st')
  {
    ContainMore(objs, data, more, d);
    DistinctBoth(objs, more);
    forall k | 0 <= k < |tests|
      ensures Holds(objs + more, data + Repeat(d, |more|), tests[k].Pending(), At(st'.inbox, k))
    {
      PublishedTo(tests, m.List(), pending[k], objs, data, st, d, more, k, st');
    }
  }

  /** One object for the message and one per listing visited, numbered in that order. */
  method DoPublish<D>(m: MsgManager<D>, tests: seq<TestCase<D>>, d: D,
                      ghost objs: seq<Message<D>>, ghost data: seq<D>, ghost st: State<D>, ghost st': State<D>)
    returns (ghost more: seq<Message<D>>)
    requires Shows(m, tests, objs, data, st) && Published(st, d, st')
    modifies Footprint(m, tests)
    ensures more != [] && Shows(m, tests, objs + more, data + Repeat(d, |more|), st')
    ensures fresh(Footprint(m, tests) - old(Footprint(m, tests)))
  {
    ghost var pending := Pendings(tests);
    more := PublishWired(m, tests, d, objs);
    PublishShown(m, tests, d, objs, data, st, pending, more, st');
  }

  method DoTake<D>(m: MsgManager<D>, tests: seq<TestCase<D>>, k: TestId,
                   ghost objs: seq<Message<D>>, ghost data: seq<D>, ghost st: State<D>, ghost st': State<D>)
    returns (msg: Option<Message<D>>)
    requires Shows(m, tests, objs, data, st) && k < |tests| && Popping(st, k, st')
    modifies tests[k].inbox.Repr
    ensures Shows(m, tests, objs, data, st')
    ensures fresh(Footprint(m, tests) - old(Footprint(m, tests)))
    ensures TookOldest(objs, data, st, k, msg)
  {
    msg := TakeWired(m, tests, k, objs);
    assert Holds(objs, data, tests[k].Pending(), At(st'.inbox, k));
  }

  /** The message popped is the one the state has in front. */
  ghost predicate TookOldest<O, D>(objs: seq<O>, data: seq<D>, st: State<D>, k: TestId, msg: Option<O>) {
    var q := At(st.inbox, k);
    && (msg.Some? <==> Counted(|q|) != 0)
    && (msg.Some? ==> q[0].id < |objs| == |data| && msg.value == objs[q[0].id] && data[q[0].id] == q[0].data)
  }

  /** The tests that occur in an event exist. */
  predicate Known<D>(e: Event<D>, tests: nat) {
    match e
    case Subscribe(k) => k < tests
    case Unsubscribe(k) => k < tests
    case Publish(_) => true
    case Take(k) => k < tests
  }

  /** One event: what the objects do is one step of the run. */
  method Perform<D>(m: MsgManager<D>, tests: seq<TestCase<D>>, e: Event<D>,
                    ghost objs: seq<Message<D>>, ghost data: seq<D>, ghost st: State<D>)
    returns (msg: Option<Message<D>>, ghost more: seq<Message<D>>, ghost moreData: seq<D>)
    requires Shows(m, tests, objs, data, st) && Known(e, |tests|)
    modifies Footprint(m, tests)
    ensures moreData == (if e.Publish? then Repeat(e.data, |more|) else []) && |more| == |moreData|
    ensures e.Publish? <==> more != []
    ensures Shows(m, tests, objs + more, data + moreData, Step(st, e))
    ensures fresh(Footprint(m, tests) - old(Footprint(m, tests)))
    ensures if e.Take? then TookOldest(objs, data, st, e.test, msg) else msg == None
  {
    msg, more, moreData := None, [], [];
    assert objs + [] == objs && data + [] == data;
    match e
    case Subscribe(k) => DoSubscribe(m, tests, k, objs, data, st);
    case Unsubscribe(k) => DoUnsubscribe(m, tests, k, objs, data, st);
    case Publish(d) =>
      StepPublishes(st, d);
      more := DoPublish(m, tests, d, objs, data, st, Step(st, e));
      moreData := Repeat(d, |more|);
    case Take(k) =>
      StepPops(st, k);
      msg := DoTake(m, tests, k, objs, data, st, Step(st, e));
  }
}
