/**
 Any sequence of events, performed on a broker and its tests: at the end the objects are
 what the run of module BrokerRuns says, and no message object is at two places.
 */
module BrokerHeap {
  import opened Collection
  import opened Broker
  import opened BrokerRuns
  import opened BrokerObjects
  import opened BrokerRefinement

  // ---------- What has left the broker's reach ----------

  /** The messages passed to queue_msg, and those each test has popped, are what the state says. */
  ghost predicate Left<O, D>(objs: seq<O>, data: seq<D>, published: seq<O>, popped: seq<seq<O>>, st: State<D>) {
    && |objs| == |data|
    && Holds(objs, data, published, st.published)
    && forall k :: 0 <= k < |popped| ==> Holds(objs, data, popped[k], At(st.taken, k))
  }

  function Received<O, D>(popped: seq<seq<O>>, e: Event<D>, msg: Option<O>): (r: seq<seq<O>>)
    ensures |r| == |popped|
  {
    if msg.Some? && e.Take? && e.test < |popped| then popped[e.test := popped[e.test] + [msg.value]] else popped
  }

  lemma PoppedNext<O, D>(objs: seq<O>, data: seq<D>, more: seq<O>, moreData: seq<D>, popped: seq<seq<O>>, st: State<D>,
                         e: Event<D>, msg: Option<O>, k: nat)
    requires |objs| == |data| && |more| == |moreData| && Known(e, |popped|)
    requires k < |popped| && Holds(objs, data, popped[k], At(st.taken, k))
    requires if e.Take? then TookOldest(objs, data, st, e.test, msg) else msg == None
    ensures Holds(objs + more, data + moreData, Received(popped, e, msg)[k], At(Step(st, e).taken, k))
  {
    HoldsLater(objs, data, more, moreData, popped[k], At(st.taken, k));
  }

  lemma PublishedNext<O, D>(objs: seq<O>, data: seq<D>, more: seq<O>, moreData: seq<D>, published: seq<O>, st: State<D>,
                            e: Event<D>)
    requires |objs| == |data| == st.next && Holds(objs, data, published, st.published)
    requires moreData == (if e.Publish? then Repeat(e.data, |more|) else []) && |more| == |moreData|
    requires e.Publish? <==> more != []
    ensures Holds(objs + more, data + moreData, published + more[..if e.Publish? then 1 else 0], Step(st, e).published)
  {
    HoldsLater(objs, data, more, moreData, published, st.published);
    if e.Publish? {
      HoldsOneMore(objs + more, data + moreData, published, st.published, more[0], Object(st.next, e.data));
      assert more[..1] == [more[0]];
    } else {
      assert published + more[..0] == published;
    }
  }

  lemma LeftNext<O, D>(objs: seq<O>, data: seq<D>, more: seq<O>, moreData: seq<D>, published: seq<O>,
                       popped: seq<seq<O>>,
                       st: State<D>, e: Event<D>, msg: Option<O>)
    requires Left(objs, data, published, popped, st) && |objs| == st.next && Known(e, |popped|)
    requires moreData == (if e.Publish? then Repeat(e.data, |more|) else []) && |more| == |moreData|
    requires e.Publish? <==> more != []
    requires if e.Take? then TookOldest(objs, data, st, e.test, msg) else msg == None
    ensures Left(objs + more, data + moreData, published + more[..if e.Publish? then 1 else 0],
                 Received(popped, e, msg), Step(st, e))
  {
    PublishedNext(objs, data, more, moreData, published, st, e);
    forall k | 0 <= k < |popped|
      ensures Holds(objs + more, data + moreData, Received(popped, e, msg)[k], At(Step(st, e).taken, k))
    {
      PoppedNext(objs, data, more, moreData, popped, st, e, msg, k);
    }
  }

  // ---------- From numbers to objects ----------

  /**
   Every message object made is at exactly one place: it was published, or it is once among
   those one test was handed.
   */
  ghost predicate EachMessageOnce<O>(objs: seq<O>, published: seq<O>, handed: seq<seq<O>>) {
    && Distinct(objs) && Distinct(published)
    && (forall o :: o in published ==> o in objs)
    && (forall k :: 0 <= k < |handed| ==>
          Distinct(handed[k]) && forall o :: o in handed[k] ==> o in objs && o !in published)
    && (forall j, k :: 0 <= j < k < |handed| ==> forall o :: o in handed[j] ==> o !in handed[k])
    && (forall o :: o in objs ==> o in published || exists k :: 0 <= k < |handed| && o in handed[k])
  }

  lemma HeldAreDistinct<O, D>(objs: seq<O>, data: seq<D>, queue: seq<O>, ids: seq<Object<D>>)
    requires Distinct(objs) && |objs| == |data| && Holds(objs, data, queue, ids) && Increasing(ids)
    ensures Distinct(queue)
  {
  }

  lemma HeldApart<O, D>(objs: seq<O>, data: seq<D>, a: seq<O>, b: seq<O>, idsA: seq<Object<D>>, idsB: seq<Object<D>>)
    requires Distinct(objs) && |objs| == |data| && Holds(objs, data, a, idsA) && Holds(objs, data, b, idsB)
    requires Ids(idsA) !! Ids(idsB)
    ensures forall o :: o in a ==> o !in b
  {
    forall i, j | 0 <= i < |a| && 0 <= j < |b| ensures a[i] != b[j] {
      assert idsA[i].id in Ids(idsA) && idsB[j].id in Ids(idsB);
    }
  }

  /** An object is held exactly if its number is among those of the queue. */
  lemma HeldIff<O, D>(objs: seq<O>, data: seq<D>, queue: seq<O>, ids: seq<Object<D>>, id: nat)
    requires Distinct(objs) && |objs| == |data| && Holds(objs, data, queue, ids) && id < |objs|
    ensures objs[id] in queue <==> id in Ids(ids)
  {
    if objs[id] in queue {
      var i :| 0 <= i < |queue| && queue[i] == objs[id];
      assert ids[i].id == id;
    }
    if id in Ids(ids) {
      var i :| 0 <= i < |ids| && ids[i].id == id;
      assert queue[i] == objs[id];
    }
  }

  lemma OnceByNumber<O, D>(objs: seq<O>, data: seq<D>, published: seq<O>, handed: seq<seq<O>>, st: State<D>)
    requires Distinct(objs) && |objs| == |data| == st.next && EachObjectOnce(st)
    requires Holds(objs, data, published, st.published)
    requires forall k :: 0 <= k < |handed| ==> Holds(objs, data, handed[k], History(st, k))
    requires forall t: TestId :: t >= |handed| ==> History(st, t) == []
    ensures EachMessageOnce(objs, published, handed)
  {
    HeldAreDistinct(objs, data, published, st.published);
    forall k | 0 <= k < |handed|
      ensures Distinct(handed[k]) && forall o :: o in handed[k] ==> o in objs && o !in published
    {
      HeldAreDistinct(objs, data, handed[k], History(st, k));
      HeldApart(objs, data, handed[k], published, History(st, k), st.published);
    }
    forall j, k | 0 <= j < k < |handed| ensures forall o :: o in handed[j] ==> o !in handed[k] {
      HeldApart(objs, data, handed[j], handed[k], History(st, j), History(st, k));
    }
    forall o | o in objs ensures o in published || exists k :: 0 <= k < |handed| && o in handed[k] {
      var id :| 0 <= id < |objs| && objs[id] == o;
      PlaceOf(objs, data, published, handed, st, id);
    }
  }

  lemma PlaceOf<O, D>(objs: seq<O>, data: seq<D>, published: seq<O>, handed: seq<seq<O>>, st: State<D>, id: nat)
    requires Distinct(objs) && id < |objs| == |data| == st.next && EachObjectOnce(st)
    requires Holds(objs, data, published, st.published)
    requires forall k :: 0 <= k < |handed| ==> Holds(objs, data, handed[k], History(st, k))
    requires forall t: TestId :: t >= |handed| ==> History(st, t) == []
    ensures objs[id] in published || exists k :: 0 <= k < |handed| && objs[id] in handed[k]
  {
    if id in Ids(st.published) {
      HeldIff(objs, data, published, st.published, id);
    } else {
      var t: TestId :| id in Ids(History(st, t));
      assert t < |handed| by { assert Ids<D>([]) == {}; }
      HeldIff(objs, data, handed[t], History(st, t), id);
    }
  }

  /** Tests that do not exist are never listed and handed nothing. */
  lemma {:induction false} ListedAreKnown<D>(events: seq<Event<D>>, n: nat)
    requires forall i :: 0 <= i < |events| ==> Known(events[i], n)
    ensures forall t :: t in Run(Init(), events).list ==> t < n
  {
    if events != [] {
      ListedAreKnown(events[..|events| - 1], n);
    }
  }

  lemma UnlistedGetNothing<D>(st: State<D>, e: Event<D>, t: TestId)
    requires t !in st.list && History(st, t) == []
    ensures History(Step(st, e), t) == []
  {
    HistoryAfter(st, e, t);
    if e.Publish? {
      NotListedGetsNothing([], Visited(st.list), Copies(e.data, st.next + 1, |Visited(st.list)|), t);
    }
  }

  lemma {:induction false} OthersGetNothing<D>(events: seq<Event<D>>, n: nat, t: TestId)
    requires t >= n && forall i :: 0 <= i < |events| ==> Known(events[i], n)
    ensures History(Run(Init(), events), t) == []
  {
    if events != [] {
      var k := |events| - 1;
      OthersGetNothing(events[..k], n, t);
      ListedAreKnown(events[..k], n);
      UnlistedGetNothing(Run(Init(), events[..k]), events[k], t);
      RunNext(Init(), events);
    }
  }

  // ---------- Whole runs ----------

  ghost predicate Fresh<D>(tests: seq<TestCase<D>>)
    reads tests, set t | t in tests :: t.inbox
  {
    forall t :: t in tests ==> t.Pending() == []
  }

  lemma NothingYet<D>(m: MsgManager<D>, tests: seq<TestCase<D>>)
    requires Wired(m, tests) && m.List() == [] && Fresh(tests)
    ensures Shows(m, tests, [], [], Init())
  {
  }

  /** Performs an event and keeps account of what was published and popped. */
  method PerformNext<D>(m: MsgManager<D>, tests: seq<TestCase<D>>, e: Event<D>, popped: seq<seq<Message<D>>>,
                        ghost objs: seq<Message<D>>, ghost data: seq<D>, ghost published: seq<Message<D>>,
                        ghost st: State<D>, ghost area: set<object>)
    returns (popped': seq<seq<Message<D>>>, ghost objs': seq<Message<D>>, ghost data': seq<D>,
             ghost published': seq<Message<D>>, ghost area': set<object>)
    requires Shows(m, tests, objs, data, st) && Known(e, |tests|)
    requires |popped| == |tests| && Left(objs, data, published, popped, st)
    requires Footprint(m, tests) <= area
    modifies area
    ensures Shows(m, tests, objs', data', Step(st, e))
    ensures |popped'| == |tests| && Left(objs', data', published', popped', Step(st, e))
    ensures Footprint(m, tests) <= area' && fresh(area' - area)
  {
    var msg;
    ghost var more, moreData;
    msg, more, moreData := Perform(m, tests, e, objs, data, st);
    popped', objs', data' := Received(popped, e, msg), objs + more, data + moreData;
    published' := published + more[..if e.Publish? then 1 else 0];
    LeftNext(objs, data, more, moreData, published, popped, st, e, msg);
    area' := area + Footprint(m, tests);
  }

  lemma RunNext<D>(st: State<D>, events: seq<Event<D>>)
    requires events != []
    ensures var n := |events| - 1; Run(st, events) == Step(Run(st, events[..n]), events[n])
  {
  }

  /** Any sequence of events, performed from a broker without listings and tests without messages. */
  method PerformAll<D>(m: MsgManager<D>, tests: seq<TestCase<D>>, events: seq<Event<D>>, ghost area: set<object>)
    returns (popped: seq<seq<Message<D>>>, ghost objs: seq<Message<D>>, ghost data: seq<D>,
             ghost published: seq<Message<D>>, ghost st: State<D>, ghost area': set<object>)
    requires Wired(m, tests) && m.List() == [] && Fresh(tests)
    requires forall i :: 0 <= i < |events| ==> Known(events[i], |tests|)
    requires Footprint(m, tests) <= area
    modifies area
    ensures st == Run(Init(), events)
    ensures Shows(m, tests, objs, data, st)
    ensures |popped| == |tests| && Left(objs, data, published, popped, st)
    ensures Footprint(m, tests) <= area' && fresh(area' - area)
    decreases |events|
  {
    if events == [] {
      NothingYet(m, tests);
      popped, objs, data, published, st, area' := seq(|tests|, _ => []), [], [], [], Init(), area;
    } else {
      var n := |events| - 1;
      popped, objs, data, published, st, area' := PerformAll(m, tests, events[..n], area);
      popped, objs, data, published, area' :=
        PerformNext(m, tests, events[n], popped, objs, data, published, st, area');
      st := Step(st, events[n]);
      RunNext(Init(), events);
    }
  }

  /** What each test was handed: what it popped, then what still waits. */
  ghost function Handed<D>(tests: seq<TestCase<D>>, popped: seq<seq<Message<D>>>): (h: seq<seq<Message<D>>>)
    requires |popped| == |tests|
    reads tests, set t | t in tests :: t.inbox
    ensures |h| == |tests| && forall k :: 0 <= k < |tests| ==> h[k] == popped[k] + tests[k].Pending()
  {
    seq(|tests|, k requires 0 <= k < |tests| reads tests,
        set t | t in tests :: t.inbox => popped[k] + tests[k].Pending())
  }

  lemma HoldsBoth<O, D>(objs: seq<O>, data: seq<D>, a: seq<O>, b: seq<O>, idsA: seq<Object<D>>, idsB: seq<Object<D>>)
    requires |objs| == |data| && Holds(objs, data, a, idsA) && Holds(objs, data, b, idsB)
    ensures Holds(objs, data, a + b, idsA + idsB)
  {
  }

  /** At the end of a run: every test was handed its history, and nothing is at two places. */
  lemma HandedHeld<O, D>(objs: seq<O>, data: seq<D>, published: seq<O>, popped: seq<seq<O>>, pending: seq<seq<O>>,
                         handed: seq<seq<O>>, st: State<D>, events: seq<Event<D>>)
    requires st == Run(Init(), events) && forall i :: 0 <= i < |events| ==> Known(events[i], |handed|)
    requires Distinct(objs) && |objs| == st.next && Left(objs, data, published, popped, st)
    requires |popped| == |pending| == |handed|
    requires forall k :: 0 <= k < |handed| ==> handed[k] == popped[k] + pending[k]
    requires forall k :: 0 <= k < |handed| ==> Holds(objs, data, pending[k], At(st.inbox, k))
    ensures forall k :: 0 <= k < |handed| ==> Holds(objs, data, handed[k], History(st, k))
    ensures EachMessageOnce(objs, published, handed)
  {
    NoObjectSharedOrLost(events);
    forall k | 0 <= k < |handed| ensures Holds(objs, data, handed[k], History(st, k)) {
      HoldsBoth(objs, data, popped[k], pending[k], At(st.taken, k), At(st.inbox, k));
    }
    forall t: TestId | t >= |handed| ensures History(st, t) == [] {
      OthersGetNothing(events, |handed|, t);
    }
    OnceByNumber(objs, data, published, handed, st);
  }

  method AddTest<D>(m: MsgManager<D>, tests: seq<TestCase<D>>) returns (more: seq<TestCase<D>>)
    requires Wired(m, tests) && m.List() == [] && Fresh(tests)
    ensures |more| == |tests| + 1 && Wired(m, more) && m.List() == [] && Fresh(more)
    ensures fresh(Footprint(m, more) - old(Footprint(m, tests)))
  {
    var t := new TestCase<D>();
    more := tests + [t];
    assert Separate(more);
  }

  method BeginEmpty<D>() returns (m: MsgManager<D>)
    ensures Wired(m, []) && m.List() == [] && Fresh<D>([])
    ensures fresh(Footprint(m, []))
  {
    m := new MsgManager<D>();
  }

  /** A broker and n tests to begin with. */
  method Begin<D>(n: nat) returns (m: MsgManager<D>, tests: seq<TestCase<D>>, ghost area: set<object>)
    ensures |tests| == n && Wired(m, tests) && m.List() == [] && Fresh(tests)
    ensures Footprint(m, tests) <= area && fresh(area)
  {
    if n == 0 {
      m := BeginEmpty();
      tests, area := [], Footprint(m, []);
    } else {
      m, tests, area := Begin(n - 1);
      tests := AddTest(m, tests);
      area := area + Footprint(m, tests);
    }
  }

  /**
   A new broker and n new tests, and any sequence of events performed on them: what each test
   was handed, popped and waiting, is its history in the run, message by message, and of all
   message objects made each was either published or handed to one test, once.
   */
  method Exercise<D>(n: nat, events: seq<Event<D>>)
    returns (m: MsgManager<D>, tests: seq<TestCase<D>>, popped: seq<seq<Message<D>>>,
             ghost objs: seq<Message<D>>, ghost data: seq<D>, ghost published: seq<Message<D>>)
    requires forall i :: 0 <= i < |events| ==> Known(events[i], n)
    ensures |tests| == |popped| == n
    ensures var st := Run(Init(), events);
            && Shows(m, tests, objs, data, st)
            && Holds(objs, data, published, st.published)
            && (forall k :: 0 <= k < n ==> Holds(objs, data, Handed(tests, popped)[k], History(st, k)))
    ensures EachMessageOnce(objs, published, Handed(tests, popped))
  {
    ghost var area, st;
    m, tests, area := Begin(n);
    popped, objs, data, published, st, area := PerformAll(m, tests, events, area);
    HandedHeld(objs, data, published, popped, Pendings(tests), Handed(tests, popped), st, events);
  }
}
