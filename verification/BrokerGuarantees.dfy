/**
 What the broker guarantees over every run: exactly which contents each test
 receives, and that other tests' subscriptions and the order of the list make no
 difference to it.
 */
module BrokerGuarantees {
  import opened Collection
  import opened Broker
  import opened BrokerRuns

  // ---------- How often a test is listed, from its subscriptions alone ----------

  /** Subscriptions of t less its cancellations. */
  function Net<D>(events: seq<Event<D>>, t: TestId): int {
    if events == [] then 0
    else
      var e := events[|events| - 1];
      Net(events[..|events| - 1], t) + if e == Subscribe(t) then 1 else if e == Unsubscribe(t) then -1 else 0
  }

  /** The least value Net takes along the way, counting the start. */
  function Lowest<D>(events: seq<Event<D>>, t: TestId): (l: int)
    ensures l <= 0 && l <= Net(events, t)
  {
    if events == [] then 0
    else
      var before := Lowest(events[..|events| - 1], t);
      if Net(events, t) < before then Net(events, t) else before
  }

  lemma {:induction false} LowestIsMinimum<D>(events: seq<Event<D>>, t: TestId)
    ensures forall k :: 0 <= k <= |events| ==> Lowest(events, t) <= Net(events[..k], t)
    ensures exists k :: 0 <= k <= |events| && Lowest(events, t) == Net(events[..k], t)
  {
    assert events[..|events|] == events;
    if events == [] {
      assert Lowest(events, t) == Net(events[..0], t);
    } else {
      var n := |events| - 1;
      LowestIsMinimum(events[..n], t);
      assert forall k :: 0 <= k <= n ==> events[..n][..k] == events[..k];
      var k :| 0 <= k <= n && Lowest(events[..n], t) == Net(events[..n][..k], t);
      assert Lowest(events, t) == Net(events[..if Lowest(events, t) == Lowest(events[..n], t) then k else |events|], t);
    }
  }

  /**
   The listings left of k after these events: cancellations without a listing are not held against
   later subscriptions.
   */
  function Listings<D>(k: nat, events: seq<Event<D>>, t: TestId): nat {
    var shortfall := -(k + Lowest(events, t));
    k + Net(events, t) + if shortfall > 0 then shortfall else 0
  }

  lemma {:induction false} ListedInClosedForm<D>(v: View<D>, events: seq<Event<D>>, t: TestId)
    ensures ViewRun(v, events, t).listed == Listings(v.listed, events, t)
  {
    if events != [] {
      ListedInClosedForm(v, events[..|events| - 1], t);
    }
  }

  /** In every run from the empty broker: t is listed Net - Lowest times. */
  lemma ListedExactly<D>(events: seq<Event<D>>, t: TestId)
    requires Bounded(Init(), events)
    ensures multiset(Run(Init(), events).list)[t] == Net(events, t) - Lowest(events, t)
  {
    RunRefinesView(Init(), events, t);
    ListedInClosedForm(ViewOf(Init<D>(), t), events, t);
  }

  // ---------- What a test receives ----------

  /** The contents due to test t: every published message once per listing at that moment, in order. */
  function Due<D>(k: nat, events: seq<Event<D>>, t: TestId): seq<D> {
    if events == [] then []
    else
      var before, e := events[..|events| - 1], events[|events| - 1];
      Due(k, before, t) + if e.Publish? then Repeat(e.data, Listings(k, before, t)) else []
  }

  lemma {:induction false} ViewReceivesDue<D>(v: View<D>, events: seq<Event<D>>, t: TestId)
    ensures var w := ViewRun(v, events, t);
            w.taken + w.pending == v.taken + v.pending + Due(v.listed, events, t)
  {
    if events == [] {
      assert v.taken + v.pending + [] == v.taken + v.pending;
    } else {
      var before, e := events[..|events| - 1], events[|events| - 1];
      ViewReceivesDue(v, before, t);
      ListedInClosedForm(v, before, t);
      var w := ViewRun(v, before, t);
      match e
      case Publish(d) =>
        assert w.taken + (w.pending + Repeat(d, w.listed)) == (w.taken + w.pending) + Repeat(d, w.listed);
        assert v.taken + v.pending + (Due(v.listed, before, t) + Repeat(d, w.listed))
            == (v.taken + v.pending + Due(v.listed, before, t)) + Repeat(d, w.listed);
      case Take(x) =>
        if x == t && Counted(|w.pending|) != 0 {
          assert w.taken + w.pending == (w.taken + [w.pending[0]]) + w.pending[1..];
        }
        assert Due(v.listed, events, t) == Due(v.listed, before, t);
      case _ =>
        assert Due(v.listed, events, t) == Due(v.listed, before, t);
    }
  }

  /**
   Exact delivery, in every run from every state: what t has popped followed by what waits for it
   is what it had, then each published message as often as t was listed when it was published.
   */
  lemma ExactDelivery<D>(st: State<D>, events: seq<Event<D>>, t: TestId)
    requires Bounded(st, events)
    ensures var st' := Run(st, events);
            DataOf(At(st'.taken, t)) + DataOf(At(st'.inbox, t))
            == DataOf(At(st.taken, t)) + DataOf(At(st.inbox, t)) + Due(multiset(st.list)[t], events, t)
  {
    RunRefinesView(st, events, t);
    ViewReceivesDue(ViewOf(st, t), events, t);
  }

  // ---------- What makes no difference ----------

  /** The run without the subscriptions, cancellations and pops of tests other than t. */
  function Own<D>(events: seq<Event<D>>, t: TestId): seq<Event<D>> {
    if events == [] then []
    else
      var e := events[|events| - 1];
      Own(events[..|events| - 1], t) + if e.Publish? || e.test == t then [e] else []
  }

  lemma {:induction false} OwnEventsDecideView<D>(v: View<D>, events: seq<Event<D>>, t: TestId)
    ensures ViewRun(v, Own(events, t), t) == ViewRun(v, events, t)
  {
    if events != [] {
      var before, e := events[..|events| - 1], events[|events| - 1];
      OwnEventsDecideView(v, before, t);
      if e.Publish? || e.test == t {
        assert (Own(before, t) + [e])[..|Own(before, t)|] == Own(before, t);
      } else {
        assert Own(events, t) == Own(before, t);
      }
    }
  }

  /** What other tests subscribe, cancel and pop changes nothing for t. */
  lemma OtherTestsDoNotInterfere<D>(st: State<D>, events: seq<Event<D>>, t: TestId)
    requires Bounded(st, events) && Bounded(st, Own(events, t))
    ensures ViewOf(Run(st, Own(events, t)), t) == ViewOf(Run(st, events), t)
  {
    OwnEventsDecideView(ViewOf(st, t), events, t);
    RunRefinesView(st, events, t);
    RunRefinesView(st, Own(events, t), t);
  }

  lemma {:induction false} OwnListsOnlyT<D>(events: seq<Event<D>>, t: TestId)
    ensures forall x :: x in Run(Init(), Own(events, t)).list ==> x == t
  {
    if events != [] {
      var before, e := events[..|events| - 1], events[|events| - 1];
      var own := Own(before, t);
      OwnListsOnlyT(before, t);
      if e.Publish? || e.test == t {
        assert (own + [e])[..|own|] == own;
        var list, list' := Run(Init(), own).list, Run(Init(), own + [e]).list;
        assert forall x :: x in list' ==> x in list || x == t;
      } else {
        assert Own(events, t) == own;
      }
    }
  }

  lemma {:induction false} SameElements(list: seq<TestId>, t: TestId)
    requires forall x :: x in list ==> x == t
    ensures multiset(list)[t] == |list|
  {
    if list != [] {
      var n := |list| - 1;
      assert forall x :: x in list[..n] ==> x in list;
      assert list[n] in list;
      SameElements(list[..n], t);
      assert list == list[..n] + [list[n]];
    }
  }

  lemma BoundedAppend<D>(st: State<D>, events: seq<Event<D>>, e: Event<D>)
    requires Bounded(st, events) && |Run(st, events + [e]).list| < TWO_TO_THE_32
    ensures Bounded(st, events + [e])
  {
    var all := events + [e];
    forall k | 0 <= k <= |all| ensures |Run(st, all[..k]).list| < TWO_TO_THE_32 {
      if k <= |events| {
        assert all[..k] == events[..k];
      } else {
        assert all[..k] == all;
      }
    }
  }

  /** From the empty broker, t's own part of a run lists no more than the run does. */
  lemma {:induction false} OwnIsBounded<D>(events: seq<Event<D>>, t: TestId)
    requires Bounded(Init(), events)
    ensures Bounded(Init(), Own(events, t))
  {
    if events != [] {
      var before, e := events[..|events| - 1], events[|events| - 1];
      var own := Own(before, t);
      BoundedBefore(Init(), events);
      OwnIsBounded(before, t);
      if e.Publish? || e.test == t {
        assert own[..|own|] == own && (own + [e])[..|own|] == own;
        OtherTestsDoNotInterfere(Init(), before, t);
        StepRefinesView(Run(Init(), own), e, t);
        StepRefinesView(Run(Init(), before), e, t);
        OwnListsOnlyT(events, t);
        var list := Run(Init(), own + [e]).list;
        SameElements(list, t);
        assert |list| == multiset(Run(Init(), events).list)[t] <= |Run(Init(), events).list|;
        BoundedAppend(Init(), own, e);
      } else {
        assert Own(events, t) == own;
      }
    }
  }

  /** In every run from the empty broker the run itself is all that need be bounded. */
  lemma OtherTestsNeverInterfere<D>(events: seq<Event<D>>, t: TestId)
    requires Bounded(Init(), events)
    ensures ViewOf(Run(Init(), Own(events, t)), t) == ViewOf(Run(Init(), events), t)
  {
    OwnIsBounded(events, t);
    OtherTestsDoNotInterfere(Init(), events, t);
  }

  /** Two brokers whose lists are permutations of each other and whose queues hold the same contents. */
  ghost predicate SameToAll<D>(st: State<D>, st': State<D>) {
    && multiset(st.list) == multiset(st'.list)
    && forall t :: DataOf(At(st.taken, t)) == DataOf(At(st'.taken, t)) && DataOf(At(st.inbox, t))
        == DataOf(At(st'.inbox, t))
  }

  /** The order of the list makes no difference to any test, ever: it is a bag of subscriptions. */
  lemma {:induction false} ListIsABag<D>(st: State<D>, st': State<D>, events: seq<Event<D>>)
    requires SameToAll(st, st') && Bounded(st, events)
    ensures SameToAll(Run(st, events), Run(st', events))
  {
    if events != [] {
      var n := |events| - 1;
      BoundedBefore(st, events);
      ListIsABag(st, st', events[..n]);
      StepKeepsSame(Run(st, events[..n]), Run(st', events[..n]), events[n]);
    }
  }

  lemma StepKeepsSame<D>(st: State<D>, st': State<D>, e: Event<D>)
    requires SameToAll(st, st') && |st.list| < TWO_TO_THE_32
    ensures SameToAll(Step(st, e), Step(st', e))
  {
    assert |st'.list| == |multiset(st'.list)| == |multiset(st.list)| == |st.list|;
    var end, end' := Step(st, e), Step(st', e);
    forall t
      ensures multiset(end.list)[t] == multiset(end'.list)[t]
      ensures DataOf(At(end.taken, t)) == DataOf(At(end'.taken, t)) && DataOf(At(end.inbox, t))
              == DataOf(At(end'.inbox, t))
    {
      StepRefinesView(st, e, t);
      StepRefinesView(st', e, t);
      assert ViewOf(st, t) == ViewOf(st', t);
      assert ViewOf(end, t) == ViewOf(end', t);
    }
  }

  lemma SizeAfterPublish<D>(st: State<D>, d: D, t: TestId)
    ensures |At(Step(st, Publish(d)).inbox, t)| == |At(st.inbox, t)| + multiset(Visited(st.list))[t]
  {
    var visited := Visited(st.list);
    var copies := Copies(d, st.next + 1, |visited|);
    InboxAfterPublish(st, d, t);
    DeliveredData(At(st.inbox, t), visited, copies, t, d);
    assert |At(Step(st, Publish(d)).inbox, t)| == |DataOf(At(Step(st, Publish(d)).inbox, t))|;
  }

  /** With 2^32 listings the 32-bit count is 0 and a publication reaches nobody. */
  lemma FullListReachesNobody<D>(st: State<D>, d: D)
    requires |st.list| == TWO_TO_THE_32
    ensures forall t :: At(Step(st, Publish(d)).inbox, t) == At(st.inbox, t)
  {
    assert Visited(st.list) == [];
    forall t ensures At(Step(st, Publish(d)).inbox, t) == At(st.inbox, t) {
      InboxAfterPublish(st, d, t);
    }
  }

  lemma UnvisitedListing(list: seq<TestId>) returns (t: TestId)
    requires |list| >= TWO_TO_THE_32
    ensures multiset(list)[t] > multiset(Visited(list))[t]
  {
    var n := Counted(|list|);
    t := list[n];
    assert list == list[..n] + list[n..];
    assert t in list[n..];
  }

  /**
   A publication brings every test one copy per listing exactly when there are fewer than
   2^32 listings; at 2^32 the count is 0 and nobody receives anything.
   */
  lemma EveryListingServedIff<D>(st: State<D>, d: D)
    ensures (forall t :: |At(Step(st, Publish(d)).inbox, t)| == |At(st.inbox, t)| + multiset(st.list)[t])
       <==> |st.list| < TWO_TO_THE_32
    ensures |st.list| == TWO_TO_THE_32 ==> forall t :: At(Step(st, Publish(d)).inbox, t) == At(st.inbox, t)
  {
    if |st.list| < TWO_TO_THE_32 {
      forall t ensures |At(Step(st, Publish(d)).inbox, t)| == |At(st.inbox, t)| + multiset(st.list)[t] {
        SizeAfterPublish(st, d, t);
      }
    } else {
      var t := UnvisitedListing(st.list);
      SizeAfterPublish(st, d, t);
      if |st.list| == TWO_TO_THE_32 {
        FullListReachesNobody(st, d);
      }
    }
  }
}
