/**
 The message objects behind the contents: no two deliveries ever share one, none is
 lost, and none already delivered is touched again.
 */
module BrokerObjects {
  import opened Collection
  import opened Broker
  import opened BrokerRuns

  /** Everything ever handed to test t, oldest first: what it popped, then what still waits. */
  function History<D>(st: State<D>, t: TestId): seq<Object<D>> {
    At(st.taken, t) + At(st.inbox, t)
  }

  function Ids<D>(s: seq<Object<D>>): set<nat> {
    set i | 0 <= i < |s| :: s[i].id
  }

  ghost predicate Increasing<D>(s: seq<Object<D>>) {
    forall i, j :: 0 <= i < j < |s| ==> s[i].id < s[j].id
  }

  ghost predicate Below<D>(s: seq<Object<D>>, bound: nat) {
    forall id :: id in Ids(s) ==> id < bound
  }

  /**
   Every object made so far is at exactly one place: published, or once in the
   history of one test.
   */
  ghost predicate EachObjectOnce<D>(st: State<D>) {
    && Increasing(st.published) && Below(st.published, st.next)
    && (forall t :: Increasing(History(st, t)) && Below(History(st, t), st.next))
    && (forall t :: Ids(History(st, t)) !! Ids(st.published))
    && (forall t, u :: t != u ==> Ids(History(st, t)) !! Ids(History(st, u)))
    && (forall id: nat :: id < st.next ==> id in Ids(st.published) || exists t :: id in Ids(History(st, t)))
  }

  // ---------- The objects one publication hands out ----------

  lemma {:induction false} DeliveredAppends<T, C>(queue: seq<C>, list: seq<T>, copies: seq<C>, t: T)
    requires |copies| == |list|
    ensures Delivered(queue, list, copies, t) == queue + Delivered([], list, copies, t)
  {
    if list != [] {
      var n := |list| - 1;
      DeliveredAppends(queue, list[..n], copies[..n], t);
    }
  }

  /** The identities of the copies made at t's own positions of the list. */
  function ShareIds(list: seq<TestId>, first: nat, t: TestId): (r: set<nat>)
    ensures forall id :: id in r ==> first <= id < first + |list| && list[id - first] == t
  {
    set p | 0 <= p < |list| && list[p] == t :: first + p
  }

  /** Those are the copies test t receives, each once and in order. */
  lemma {:induction false} SharesOf<D>(list: seq<TestId>, d: D, first: nat, t: TestId)
    ensures var share := Delivered([], list, Copies(d, first, |list|), t);
            Increasing(share) && Ids(share) == ShareIds(list, first, t)
  {
    if list != [] {
      var n := |list| - 1;
      var copies := Copies(d, first, |list|);
      SharesOf(list[..n], d, first, t);
      assert copies[..n] == Copies(d, first, n);
      var before := Delivered([], list[..n], copies[..n], t);
      assert ShareIds(list, first, t) == ShareIds(list[..n], first, t) + if list[n] == t then {first + n} else {};
      AppendedInOrder(before, [copies[n]], first + n);
      assert Ids([copies[n]]) == {first + n} by { assert [copies[n]][0].id == first + n; }
    }
  }

  lemma AppendedInOrder<D>(a: seq<Object<D>>, b: seq<Object<D>>, bound: nat)
    requires Increasing(a) && Increasing(b)
    requires forall id :: id in Ids(a) ==> id < bound
    requires forall id :: id in Ids(b) ==> bound <= id
    ensures Increasing(a + b)
    ensures Ids(a + b) == Ids(a) + Ids(b)
  {
    assert forall i :: 0 <= i < |a| ==> a[i].id in Ids(a);
    assert forall i :: 0 <= i < |b| ==> b[i].id in Ids(b);
    IdsOfAppend(a, b);
  }

  lemma IdsOfAppend<D>(a: seq<Object<D>>, b: seq<Object<D>>)
    ensures Ids(a + b) == Ids(a) + Ids(b)
  {
    var c := a + b;
    forall id | id in Ids(a) ensures id in Ids(c) {
      var i :| 0 <= i < |a| && a[i].id == id;
      assert c[i].id == id;
    }
    forall id | id in Ids(b) ensures id in Ids(c) {
      var i :| 0 <= i < |b| && b[i].id == id;
      assert c[|a| + i].id == id;
    }
  }

  /** A publication extends t's history by its share of the copies; no other event changes any history. */
  lemma HistoryAfter<D>(st: State<D>, e: Event<D>, t: TestId)
    ensures var visited := Visited(st.list);
            History(Step(st, e), t) == History(st, t) +
              if e.Publish? then Delivered([], visited, Copies(e.data, st.next + 1, |visited|), t) else []
  {
    match e
    case Publish(d) =>
      var visited := Visited(st.list);
      InboxAfterPublish(st, d, t);
      DeliveredAppends(At(st.inbox, t), visited, Copies(d, st.next + 1, |visited|), t);
    case Take(x) =>
      var q := At(st.inbox, t);
      if x == t && Counted(|q|) != 0 {
        assert q == [q[0]] + q[1..];
      }
    case _ =>
  }

  /** After a publication, t's objects are those it had and its share of the copies. */
  lemma ObjectsAfterPublish<D>(st: State<D>, d: D, t: TestId)
    requires Increasing(History(st, t)) && Below(History(st, t), st.next)
    ensures var st' := Step(st, Publish(d));
            && Increasing(History(st', t)) && Below(History(st', t), st'.next)
            && Ids(History(st', t)) == Ids(History(st, t)) + ShareIds(Visited(st.list), st.next + 1, t)
  {
    var visited := Visited(st.list);
    SharesOf(visited, d, st.next + 1, t);
    HistoryAfter(st, Publish(d), t);
    AppendedInOrder(History(st, t), Delivered([], visited, Copies(d, st.next + 1, |visited|), t), st.next);
  }

  lemma PublishKeepsObjectsApart<D>(st: State<D>, d: D)
    requires EachObjectOnce(st)
    ensures var st' := Step(st, Publish(d));
            && (forall t :: Ids(History(st', t)) !! Ids(st'.published))
            && (forall t, u :: t != u ==> Ids(History(st', t)) !! Ids(History(st', u)))
  {
    var st' := Step(st, Publish(d));
    PublishedAfter(st, d);
    forall t ensures Ids(History(st', t)) !! Ids(st'.published) {
      ObjectsAfterPublish(st, d, t);
    }
    forall t, u | t != u ensures Ids(History(st', t)) !! Ids(History(st', u)) {
      ObjectsAfterPublish(st, d, t);
      ObjectsAfterPublish(st, d, u);
    }
  }

  lemma PublishedAfter<D>(st: State<D>, d: D)
    requires Increasing(st.published) && Below(st.published, st.next)
    ensures var published := Step(st, Publish(d)).published;
            Increasing(published) && Ids(published) == Ids(st.published) + {st.next}
  {
    assert Ids([Object(st.next, d)]) == {st.next} by { assert [Object(st.next, d)][0].id == st.next; }
    AppendedInOrder(st.published, [Object(st.next, d)], st.next);
  }

  lemma PublishKeepsEachObjectOnce<D>(st: State<D>, d: D)
    requires EachObjectOnce(st)
    ensures EachObjectOnce(Step(st, Publish(d)))
  {
    var st', visited, first := Step(st, Publish(d)), Visited(st.list), st.next + 1;
    PublishKeepsObjectsApart(st, d);
    PublishedAfter(st, d);
    forall t
      ensures Increasing(History(st', t)) && Below(History(st', t), st'.next)
    {
      ObjectsAfterPublish(st, d, t);
    }
    forall id: nat | id < st'.next ensures id in Ids(st'.published) || exists t :: id in Ids(History(st', t)) {
      if id > st.next {
        ObjectsAfterPublish(st, d, visited[id - first]);
        assert first + (id - first) in ShareIds(visited, first, visited[id - first]);
        assert id in Ids(History(st', visited[id - first]));
      } else if id < st.next && id !in Ids(st.published) {
        var t :| id in Ids(History(st, t));
        ObjectsAfterPublish(st, d, t);
        assert id in Ids(History(st', t));
      }
    }
  }

  lemma StepKeepsEachObjectOnce<D>(st: State<D>, e: Event<D>)
    requires EachObjectOnce(st)
    ensures EachObjectOnce(Step(st, e))
  {
    if e.Publish? {
      PublishKeepsEachObjectOnce(st, e.data);
    } else {
      var st' := Step(st, e);
      forall t ensures History(st', t) == History(st, t) {
        HistoryAfter(st, e, t);
      }
      forall id: nat | id < st'.next ensures id in Ids(st'.published) || exists t :: id in Ids(History(st', t)) {
        if id !in Ids(st.published) {
          var t :| id in Ids(History(st, t));
          assert id in Ids(History(st', t));
        }
      }
    }
  }

  /**
   In every run from the empty broker, with no bound on its length: all objects delivered
   or published are pairwise distinct, and every object made is one of them.
   */
  lemma {:induction false} NoObjectSharedOrLost<D>(events: seq<Event<D>>)
    ensures EachObjectOnce(Run(Init(), events))
  {
    if events == [] {
      var st := Init<D>();
      assert forall t :: History(st, t) == [];
    } else {
      var n := |events| - 1;
      NoObjectSharedOrLost(events[..n]);
      StepKeepsEachObjectOnce(Run(Init(), events[..n]), events[n]);
    }
  }

  /** What a test has been handed stays as it was, in place and contents, through every run. */
  lemma {:induction false} DeliveriesAreFinal<D>(st: State<D>, events: seq<Event<D>>, t: TestId)
    ensures History(st, t) <= History(Run(st, events), t)
  {
    if events != [] {
      var n := |events| - 1;
      DeliveriesAreFinal(st, events[..n], t);
      HistoryAfter(Run(st, events[..n]), events[n], t);
    }
  }

  // ---------- Conservation in numbers ----------

  /** The sum, over the publications of a run, of the listings each one visits. */
  function ListingsVisited<D>(st: State<D>, events: seq<Event<D>>): nat {
    if events == [] then 0
    else
      var before := events[..|events| - 1];
      ListingsVisited(st, before) + if events[|events| - 1].Publish? then |Visited(Run(st, before).list)| else 0
  }

  function Publications<D>(events: seq<Event<D>>): nat {
    if events == [] then 0
    else Publications(events[..|events| - 1]) + if events[|events| - 1].Publish? then 1 else 0
  }

  function TotalHanded<D>(st: State<D>, ts: seq<TestId>): nat {
    if ts == [] then 0 else TotalHanded(st, ts[..|ts| - 1]) + |History(st, ts[|ts| - 1])|
  }

  function TotalIn(bag: multiset<TestId>, ts: seq<TestId>): nat {
    if ts == [] then 0 else TotalIn(bag, ts[..|ts| - 1]) + bag[ts[|ts| - 1]]
  }

  lemma {:induction false} TotalIgnoresAbsent(bag: multiset<TestId>, ts: seq<TestId>, t: TestId)
    requires t !in ts
    ensures TotalIn(bag, ts) == TotalIn(bag[t := 0], ts)
  {
    if ts != [] {
      assert ts[|ts| - 1] in ts && forall x :: x in ts[..|ts| - 1] ==> x in ts;
      TotalIgnoresAbsent(bag, ts[..|ts| - 1], t);
    }
  }

  lemma {:induction false} TotalIsSize(bag: multiset<TestId>, ts: seq<TestId>)
    requires Distinct(ts) && forall x :: x in bag ==> x in ts
    ensures TotalIn(bag, ts) == |bag|
  {
    if ts == [] {
      assert bag == multiset{};
    } else {
      var n := |ts| - 1;
      var t := ts[n];
      TotalIgnoresAbsent(bag, ts[..n], t);
      assert forall x :: x in bag[t := 0] ==> x in ts[..n] by {
        assert ts == ts[..n] + [t];
      }
      TotalIsSize(bag[t := 0], ts[..n]);
    }
  }

  lemma {:induction false} HandedByPublish<D>(st: State<D>, d: D, ts: seq<TestId>)
    ensures TotalHanded(Step(st, Publish(d)), ts) == TotalHanded(st, ts) + TotalIn(multiset(Visited(st.list)), ts)
  {
    if ts != [] {
      var n := |ts| - 1;
      var visited := Visited(st.list);
      HandedByPublish(st, d, ts[..n]);
      HistoryAfter(st, Publish(d), ts[n]);
      DeliveredData([], visited, Copies(d, st.next + 1, |visited|), ts[n], d);
    }
  }

  lemma {:induction false} HandedOtherwise<D>(st: State<D>, e: Event<D>, ts: seq<TestId>)
    requires !e.Publish?
    ensures TotalHanded(Step(st, e), ts) == TotalHanded(st, ts)
  {
    if ts != [] {
      HandedOtherwise(st, e, ts[..|ts| - 1]);
      HistoryAfter(st, e, ts[|ts| - 1]);
    }
  }

  lemma {:induction false} NobodyHandedAtFirst<D>(ts: seq<TestId>)
    ensures TotalHanded<D>(Init(), ts) == 0
  {
    if ts != [] {
      NobodyHandedAtFirst<D>(ts[..|ts| - 1]);
    }
  }

  /** Only tests that subscribed are ever listed. */
  lemma {:induction false} ListedHaveSubscribed<D>(events: seq<Event<D>>, ts: seq<TestId>)
    requires forall i :: 0 <= i < |events| && events[i].Subscribe? ==> events[i].test in ts
    ensures forall x :: x in Run(Init(), events).list ==> x in ts
  {
    if events != [] {
      ListedHaveSubscribed(events[..|events| - 1], ts);
    }
  }

  /**
   Conservation, in every run from the empty broker: the objects made are the publications
   and one copy per listing visited, and the tests together were handed exactly those copies.
   */
  lemma {:induction false} CopiesAreConserved<D>(events: seq<Event<D>>, ts: seq<TestId>)
    requires Distinct(ts) && forall i :: 0 <= i < |events| && events[i].Subscribe? ==> events[i].test in ts
    ensures var st := Run(Init(), events);
            && st.next == Publications(events) + ListingsVisited(Init(), events)
            && TotalHanded(st, ts) == ListingsVisited(Init(), events)
  {
    if events == [] {
      NobodyHandedAtFirst<D>(ts);
    } else {
      var n := |events| - 1;
      var st, e := Run(Init(), events[..n]), events[n];
      CopiesAreConserved(events[..n], ts);
      ListedHaveSubscribed(events[..n], ts);
      if e.Publish? {
        HandedByPublish(st, e.data, ts);
        TotalIsSize(multiset(Visited(st.list)), ts);
      } else {
        HandedOtherwise(st, e, ts);
      }
    }
  }
}
