/**
 The broker over whole runs: what each test receives after any sequence of
 subscriptions, cancellations, publications and pops, starting anywhere.
 Tests and message objects are identified by numbers; the operations are those
 proved of the objects in module Broker.
 */
module BrokerRuns {
  import opened Collection
  import opened Broker

  datatype Event<D> =
    | Subscribe(test: TestId)
    | Unsubscribe(test: TestId)
    | Publish(data: D)
    | Take(test: TestId)

  /** A message object: its identity and its contents. */
  datatype Object<D> = Object(id: nat, data: D)

  /**
   The listed tests, each test's queue (oldest first) and the messages it has popped,
   the objects passed to queue_msg, and the identity of the next object to be made.
   */
  datatype State<D> = State(
    list: seq<TestId>,
    inbox: map<TestId, seq<Object<D>>>,
    taken: map<TestId, seq<Object<D>>>,
    published: seq<Object<D>>,
    next: nat)

  function Init<D>(): State<D> {
    State([], map[], map[], [], 0)
  }

  function At<D>(m: map<TestId, seq<Object<D>>>, t: TestId): seq<Object<D>> {
    if t in m then m[t] else []
  }

  /** n new objects with the same contents. */
  function Copies<D>(data: D, first: nat, n: nat): (c: seq<Object<D>>)
    ensures |c| == n && forall i :: 0 <= i < n ==> c[i] == Object(first + i, data)
  {
    seq(n, (i: nat) => Object(first + i, data))
  }

  function Step<D>(st: State<D>, e: Event<D>): State<D> {
    match e
    case Subscribe(t) => st.(list := [t] + st.list)
    case Unsubscribe(t) => st.(list := Unlisted(st.list, t))
    case Publish(d) =>
      var visited := Visited(st.list);
      var copies := Copies(d, st.next + 1, |visited|);
      st.(inbox := map t | t in st.inbox.Keys + (set u | u in visited) ::
                     Delivered(At(st.inbox, t), visited, copies, t),
          published := st.published + [Object(st.next, d)],
          next := st.next + 1 + |visited|)
    case Take(t) =>
      var q := At(st.inbox, t);
      if Counted(|q|) == 0 then st
      else st.(inbox := st.inbox[t := q[1..]], taken := st.taken[t := At(st.taken, t) + [q[0]]])
  }

  function Run<D>(st: State<D>, events: seq<Event<D>>): State<D> {
    if events == [] then st
    else Step(Run(st, events[..|events| - 1]), events[|events| - 1])
  }

  /** Fewer than 2^32 listings at every moment of the run, so that 32-bit counts are true counts. */
  ghost predicate Bounded<D>(st: State<D>, events: seq<Event<D>>) {
    forall k :: 0 <= k <= |events| ==> |Run(st, events[..k]).list| < TWO_TO_THE_32
  }

  lemma BoundedBefore<D>(st: State<D>, events: seq<Event<D>>)
    requires events != [] && Bounded(st, events)
    ensures Bounded(st, events[..|events| - 1])
    ensures |Run(st, events[..|events| - 1]).list| < TWO_TO_THE_32 && |Run(st, events).list| < TWO_TO_THE_32
  {
    var n := |events| - 1;
    assert forall k :: 0 <= k <= n ==> events[..n][..k] == events[..k];
    assert events[..|events|] == events;
  }

  // ---------- What one test sees ----------

  function DataOf<D>(s: seq<Object<D>>): (r: seq<D>)
    ensures |r| == |s| && forall i :: 0 <= i < |s| ==> r[i] == s[i].data
  {
    seq(|s|, i requires 0 <= i < |s| => s[i].data)
  }

  function Repeat<D>(d: D, n: nat): (r: seq<D>)
    ensures |r| == n && forall i :: 0 <= i < n ==> r[i] == d
  {
    seq(n, _ => d)
  }

  /** A test's own world: how often it is listed, what it has popped and what waits for it. */
  datatype View<D> = View(listed: nat, taken: seq<D>, pending: seq<D>)

  function ViewOf<D>(st: State<D>, t: TestId): View<D> {
    View(multiset(st.list)[t], DataOf(At(st.taken, t)), DataOf(At(st.inbox, t)))
  }

  /** How an event changes test t's world: other tests do not occur in it. */
  function ViewStep<D>(v: View<D>, e: Event<D>, t: TestId): View<D> {
    match e
    case Subscribe(x) => if x == t then v.(listed := v.listed + 1) else v
    case Unsubscribe(x) => if x == t && v.listed > 0 then v.(listed := v.listed - 1) else v
    case Publish(d) => v.(pending := v.pending + Repeat(d, v.listed))
    case Take(x) =>
      if x == t && Counted(|v.pending|) != 0
      then v.(taken := v.taken + [v.pending[0]], pending := v.pending[1..])
      else v
  }

  function ViewRun<D>(v: View<D>, events: seq<Event<D>>, t: TestId): View<D> {
    if events == [] then v
    else ViewStep(ViewRun(v, events[..|events| - 1], t), events[|events| - 1], t)
  }

  /** unsubscribe takes one listing of t away if there is one. */
  lemma UnlistedAsBag<T>(list: seq<T>, t: T)
    requires |list| < TWO_TO_THE_32
    ensures multiset(Unlisted(list, t)) == multiset(list) - multiset{t}
  {
    var i := FirstListing(list, t);
    if i < |list| {
      assert list == list[..i] + [t] + list[i + 1..];
    } else {
      assert list[..i] == list;
    }
  }

  lemma UnlistedCount<T>(list: seq<T>, x: T, t: T)
    requires |list| < TWO_TO_THE_32
    ensures var n := multiset(list)[t];
            multiset(Unlisted(list, x))[t] == if x == t && n > 0 then n - 1 else n
  {
    UnlistedAsBag(list, x);
  }

  /** Every listing of t brings it one copy. */
  lemma {:induction false} DeliveredData<D>(queue: seq<Object<D>>, list: seq<TestId>, copies: seq<Object<D>>,
                                            t: TestId, d: D)
    requires |copies| == |list| && forall i :: 0 <= i < |copies| ==> copies[i].data == d
    ensures DataOf(Delivered(queue, list, copies, t)) == DataOf(queue) + Repeat(d, multiset(list)[t])
  {
    if list != [] {
      var n := |list| - 1;
      DeliveredData(queue, list[..n], copies[..n], t, d);
      assert list == list[..n] + [list[n]];
    }
  }

  lemma {:induction false} NotListedGetsNothing<T, C>(queue: seq<C>, list: seq<T>, copies: seq<C>, t: T)
    requires |copies| == |list| && t !in list
    ensures Delivered(queue, list, copies, t) == queue
  {
    if list != [] {
      var n := |list| - 1;
      assert forall x :: x in list[..n] ==> x in list;
      NotListedGetsNothing(queue, list[..n], copies[..n], t);
    }
  }

  lemma InboxAfterPublish<D>(st: State<D>, d: D, t: TestId)
    ensures var visited := Visited(st.list);
            At(Step(st, Publish(d)).inbox, t)
            == Delivered(At(st.inbox, t), visited, Copies(d, st.next + 1, |visited|), t)
  {
    var visited := Visited(st.list);
    if t !in st.inbox && t !in visited {
      NotListedGetsNothing([], visited, Copies(d, st.next + 1, |visited|), t);
    }
  }

  lemma PublishRefinesView<D>(st: State<D>, d: D, t: TestId)
    requires |st.list| < TWO_TO_THE_32
    ensures ViewOf(Step(st, Publish(d)), t) == ViewStep(ViewOf(st, t), Publish(d), t)
  {
    InboxAfterPublish(st, d, t);
    DeliveredData(At(st.inbox, t), st.list, Copies(d, st.next + 1, |st.list|), t, d);
  }

  lemma TakeRefinesView<D>(st: State<D>, x: TestId, t: TestId)
    ensures ViewOf(Step(st, Take(x)), t) == ViewStep(ViewOf(st, t), Take(x), t)
  {
    var q := At(st.inbox, t);
    if x == t && Counted(|q|) != 0 {
      assert DataOf(At(st.taken, t) + [q[0]]) == DataOf(At(st.taken, t)) + [DataOf(q)[0]];
      assert DataOf(q[1..]) == DataOf(q)[1..];
    }
  }

  /** One event, seen by test t. */
  lemma StepRefinesView<D>(st: State<D>, e: Event<D>, t: TestId)
    requires |st.list| < TWO_TO_THE_32
    ensures ViewOf(Step(st, e), t) == ViewStep(ViewOf(st, t), e, t)
  {
    match e
    case Subscribe(x) =>
    case Unsubscribe(x) => UnlistedCount(st.list, x, t);
    case Publish(d) => PublishRefinesView(st, d, t);
    case Take(x) => TakeRefinesView(st, x, t);
  }

  /** Any run, seen by test t: the list of all tests refines t's own little machine. */
  lemma {:induction false} RunRefinesView<D>(st: State<D>, events: seq<Event<D>>, t: TestId)
    requires Bounded(st, events)
    ensures ViewOf(Run(st, events), t) == ViewRun(ViewOf(st, t), events, t)
  {
    if events != [] {
      var n := |events| - 1;
      BoundedBefore(st, events);
      RunRefinesView(st, events[..n], t);
      StepRefinesView(Run(st, events[..n]), events[n], t);
    }
  }
}
