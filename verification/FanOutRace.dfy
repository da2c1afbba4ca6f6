/**
 queue_msg takes no lock: it runs on the handler thread (src/messages/wlan_emu_msg_hdlr.cpp)
 while the thread that starts a test subscribes it and the test's own thread unsubscribes it.
 Here the loop of queue_msg is cut into one step per index, and any operations on the list may
 fall between the steps; each queue operation is taken to happen at once.
 */
module FanOutRace {
  import opened Collection
  import opened Broker
  import BrokerRuns

  datatype Op<T> = Sub(test: T) | Unsub(test: T)

  function Apply<T(==)>(list: seq<T>, op: Op<T>): seq<T> {
    match op
    case Sub(t) => [t] + list
    case Unsub(t) => Unlisted(list, t)
  }

  function ApplyAll<T(==)>(list: seq<T>, ops: seq<Op<T>>): seq<T> {
    if ops == [] then list else Apply(ApplyAll(list, ops[..|ops| - 1]), ops[|ops| - 1])
  }

  /** A cancellation takes the newest listing of the test away if there is one, and keeps the order of the rest. */
  lemma CancellationIs<T>(list: seq<T>, t: T)
    requires |list| < TWO_TO_THE_32
    ensures var after := Apply(list, Unsub(t));
            && (|after| < |list| <==> t in list)
            && (t !in list ==> after == list)
            && multiset(after) == multiset(list) - multiset{t}
            && (t in list ==>
                  exists i :: 0 <= i < |list| && list[i] == t && t !in list[..i] && after == list[..i] + list[i + 1..])
  {
    BrokerRuns.UnlistedAsBag(list, t);
    var i := FirstListing(list, t);
    if i < |list| {
      assert t !in list[..i] && Apply(list, Unsub(t)) == list[..i] + list[i + 1..];
    }
  }

  /** A subscription joins in front. */
  lemma SubscriptionIs<T>(list: seq<T>, t: T)
    ensures Apply(list, Sub(t)) == [t] + list
  {
  }

  /** The operations that fall before the peek of index i, since the count was taken. */
  type Schedule<!T> = nat -> seq<Op<T>>

  /** The list once the first n gaps between steps are over; the peek of index k finds it with n = k + 1. */
  function After<T(==)>(list: seq<T>, between: Schedule<T>, n: nat): seq<T> {
    if n == 0 then list else ApplyAll(After(list, between, n - 1), between(n - 1))
  }

  function Peeked<T(==)>(list: seq<T>, between: Schedule<T>, k: uint32): Option<T> {
    PeekAt(After(list, between, k + 1), k)
  }

  /** The tests that were sent a copy; NullPeek: the next peek found nothing and NULL was dereferenced. */
  datatype Outcome<T> = Done(sent: seq<T>) | NullPeek(sent: seq<T>)

  /** The loop of queue_msg from index i on, the list being as the previous round left it. */
  function FanOut<T(==)>(list: seq<T>, between: Schedule<T>, count: uint32, i: uint32, sent: seq<T>): Outcome<T>
    requires i <= count
    decreases count - i
  {
    if i == count then Done(sent)
    else
      var now := ApplyAll(list, between(i));
      match PeekAt(now, i)
      case None => NullPeek(sent)
      case Some(t) => FanOut(now, between, count, i + 1, sent + [t])
  }

  function QueueMsg<T(==)>(list: seq<T>, between: Schedule<T>): Outcome<T> {
    FanOut(list, between, Counted(|list|), 0, [])
  }

  // ---------- Every schedule ----------

  /** Done exactly when all of count peeks find a test; the copies sent are those of the peeks up to the first miss. */
  ghost predicate AsPeeked(o: Outcome<TestId>, list: seq<TestId>, between: Schedule<TestId>, count: uint32) {
    && |o.sent| <= count
    && (forall k: uint32 :: k < |o.sent| ==> Peeked(list, between, k) == Some(o.sent[k]))
    && (if o.Done? then |o.sent| == count else |o.sent| < count && Peeked(list, between, |o.sent|) == None)
  }

  lemma {:induction false} FanOutFrom(list: seq<TestId>, between: Schedule<TestId>, count: uint32, i: uint32,
                                      sent: seq<TestId>)
    requires i <= count && |sent| == i
    requires forall k: uint32 :: k < i ==> Peeked(list, between, k) == Some(sent[k])
    ensures AsPeeked(FanOut(After(list, between, i), between, count, i, sent), list, between, count)
    decreases count - i
  {
    var o := FanOut(After(list, between, i), between, count, i, sent);
    if i < count {
      var now, p := After(list, between, i + 1), Peeked(list, between, i);
      assert now == ApplyAll(After(list, between, i), between(i));
      if p.Some? {
        var more := sent + [p.value];
        assert o == FanOut(now, between, count, i + 1, more);
        forall k: uint32 | k < i + 1 ensures Peeked(list, between, k) == Some(more[k]) {
        }
        FanOutFrom(list, between, count, i + 1, more);
      } else {
        assert o == NullPeek(sent);
      }
    } else {
      assert o == Done(sent);
    }
  }

  /**
   Under every schedule: the loop completes exactly when every peek finds a test, and then
   it has sent exactly count copies; otherwise it dereferences NULL at the first index whose peek
   finds nothing, having sent as many copies. The k-th copy went to the test found at k.
   */
  lemma CompletesIff(list: seq<TestId>, between: Schedule<TestId>)
    ensures var o, count := QueueMsg(list, between), Counted(|list|);
            && (o.Done? <==> forall k: uint32 :: k < count ==> Peeked(list, between, k).Some?)
            && |o.sent| <= count && (o.Done? ==> |o.sent| == count)
            && (forall k: uint32 :: k < |o.sent| ==> Peeked(list, between, k) == Some(o.sent[k]))
            && (o.NullPeek? ==> |o.sent| < count && Peeked(list, between, |o.sent|) == None)
  {
    FanOutFrom(list, between, Counted(|list|), 0, []);
  }

  // ---------- How long the list is ----------

  function Subs(ops: seq<Op<TestId>>): nat {
    if ops == [] then 0 else Subs(ops[..|ops| - 1]) + if ops[|ops| - 1].Sub? then 1 else 0
  }

  /** The cancellations of tests that are listed when they come, where the scan looks. */
  function Removals(list: seq<TestId>, ops: seq<Op<TestId>>): nat {
    if ops == [] then 0
    else
      var before := ApplyAll(list, ops[..|ops| - 1]);
      var op := ops[|ops| - 1];
      Removals(list, ops[..|ops| - 1]) + if op.Unsub? && op.test in Visited(before) then 1 else 0
  }

  lemma LengthOfApply(list: seq<TestId>, op: Op<TestId>)
    ensures |Apply(list, op)|
         == |list| + (if op.Sub? then 1 else 0) - (if op.Unsub? && op.test in Visited(list) then 1 else 0)
  {
    if op.Unsub? {
      var i := FirstListing(Visited(list), op.test);
      assert i < |Visited(list)| ==> Visited(list)[i] in Visited(list);
    }
  }

  lemma {:induction false} LengthAfter(list: seq<TestId>, ops: seq<Op<TestId>>)
    ensures |ApplyAll(list, ops)| + Removals(list, ops) == |list| + Subs(ops)
  {
    if ops != [] {
      LengthAfter(list, ops[..|ops| - 1]);
      LengthOfApply(ApplyAll(list, ops[..|ops| - 1]), ops[|ops| - 1]);
    }
  }

  function SubsIn(between: Schedule<TestId>, n: nat): nat {
    if n == 0 then 0 else SubsIn(between, n - 1) + Subs(between(n - 1))
  }

  function RemovalsIn(list: seq<TestId>, between: Schedule<TestId>, n: nat): nat {
    if n == 0 then 0
    else RemovalsIn(list, between, n - 1) + Removals(After(list, between, n - 1), between(n - 1))
  }

  lemma {:induction false} LengthAfterGaps(list: seq<TestId>, between: Schedule<TestId>, n: nat)
    ensures |After(list, between, n)| + RemovalsIn(list, between, n) == |list| + SubsIn(between, n)
  {
    if n > 0 {
      LengthAfterGaps(list, between, n - 1);
      LengthAfter(After(list, between, n - 1), between(n - 1));
    }
  }

  /** The insertions so far, less the effective removals, leave index k in range at its peek. */
  predicate StillInRange(list: seq<TestId>, between: Schedule<TestId>, k: nat) {
    RemovalsIn(list, between, k + 1) + k < |list| + SubsIn(between, k + 1)
  }

  lemma PeekedIffInRange(list: seq<TestId>, between: Schedule<TestId>, k: uint32)
    requires |After(list, between, k + 1)| <= TWO_TO_THE_32
    ensures Peeked(list, between, k).Some? <==> StillInRange(list, between, k)
  {
    LengthAfterGaps(list, between, k + 1);
  }

  /**
   In counts: while no more than 2^32 listings are ever there, the loop completes exactly when
   the insertions less the effective removals leave every index in range at its peek.
   */
  lemma CompletesIffCounts(list: seq<TestId>, between: Schedule<TestId>)
    requires forall n: nat :: n <= |list| ==> |After(list, between, n)| <= TWO_TO_THE_32
    ensures QueueMsg(list, between).Done? <==>
            forall k: uint32 :: k < Counted(|list|) ==> StillInRange(list, between, k)
  {
    CompletesIff(list, between);
    forall k: uint32 | k < Counted(|list|)
      ensures Peeked(list, between, k).Some? <==> StillInRange(list, between, k)
    {
      PeekedIffInRange(list, between, k);
    }
  }

  /** While removals do not exceed insertions no peek misses, however many of both there are. */
  lemma CompletesUnderGrowth(list: seq<TestId>, between: Schedule<TestId>)
    requires forall n: nat :: n <= |list| ==> |After(list, between, n)| <= TWO_TO_THE_32
    requires forall n: nat :: n <= |list| ==> RemovalsIn(list, between, n) <= SubsIn(between, n)
    ensures QueueMsg(list, between).Done?
  {
    CompletesIffCounts(list, between);
    forall k: uint32 | k < Counted(|list|) ensures StillInRange(list, between, k) {
      assert RemovalsIn(list, between, k + 1) <= SubsIn(between, k + 1);
    }
  }

  // ---------- Only cancellations in between ----------

  ghost predicate NoSubs(ops: seq<Op<TestId>>) {
    forall i :: 0 <= i < |ops| ==> ops[i].Unsub?
  }

  lemma {:induction false} ShrinksOrStays(list: seq<TestId>, ops: seq<Op<TestId>>)
    requires NoSubs(ops)
    ensures |ApplyAll(list, ops)| < |list| || ApplyAll(list, ops) == list
  {
    if ops != [] {
      ShrinksOrStays(list, ops[..|ops| - 1]);
    }
  }

  /** Once shorter, a list that nobody joins stays shorter. */
  lemma {:induction false} ShrinksForGood(list: seq<TestId>, between: Schedule<TestId>, m: nat, n: nat)
    requires m <= n && forall k: nat :: NoSubs(between(k))
    ensures |After(list, between, n)| <= |After(list, between, m)|
    ensures |After(list, between, n)| < |list| || After(list, between, m) == list
    decreases n
  {
    if n > 0 {
      assert NoSubs(between(n - 1));
      ShrinksOrStays(After(list, between, n - 1), between(n - 1));
      ShrinksForGood(list, between, if m < n then m else n - 1, n - 1);
    }
  }

  /** No cancellation names a listed test. */
  ghost predicate Untouched(list: seq<TestId>, ops: seq<Op<TestId>>) {
    forall i :: 0 <= i < |ops| ==> ops[i].test !in list
  }

  lemma UntouchedNext(list: seq<TestId>, before: seq<TestId>, t: TestId)
    requires |list| < TWO_TO_THE_32 && (before == list || |before| < |list|)
    ensures Apply(before, Unsub(t)) == list <==> before == list && t !in list
  {
    CancellationIs(before, t);
  }

  lemma {:induction false} UntouchedIff(list: seq<TestId>, ops: seq<Op<TestId>>)
    requires |list| < TWO_TO_THE_32 && NoSubs(ops)
    ensures ApplyAll(list, ops) == list <==> Untouched(list, ops)
  {
    if ops != [] {
      var n := |ops| - 1;
      UntouchedIff(list, ops[..n]);
      ShrinksOrStays(list, ops[..n]);
      UntouchedNext(list, ApplyAll(list, ops[..n]), ops[n].test);
      assert ops[n] == Unsub(ops[n].test);
      assert ops == ops[..n] + [ops[n]];
    }
  }

  ghost predicate UntouchedTo(list: seq<TestId>, between: Schedule<TestId>, n: nat) {
    forall k: nat :: k < n ==> Untouched(list, between(k))
  }

  lemma UntouchedToNext(list: seq<TestId>, between: Schedule<TestId>, n: nat)
    ensures UntouchedTo(list, between, n + 1) <==> UntouchedTo(list, between, n) && Untouched(list, between(n))
  {
  }

  lemma {:induction false} UnchangedIff(list: seq<TestId>, between: Schedule<TestId>, n: nat)
    requires |list| < TWO_TO_THE_32 && forall k: nat :: NoSubs(between(k))
    ensures After(list, between, n) == list <==> UntouchedTo(list, between, n)
  {
    if n > 0 {
      var was := After(list, between, n - 1);
      UnchangedIff(list, between, n - 1);
      UntouchedToNext(list, between, n - 1);
      if was == list {
        UntouchedIff(list, between(n - 1));
        assert After(list, between, n) == ApplyAll(list, between(n - 1));
      } else {
        ShrinksForGood(list, between, n - 1, n);
      }
    }
  }

  lemma FoundAsListed(list: seq<TestId>, between: Schedule<TestId>)
    requires |list| < TWO_TO_THE_32
    requires forall k: uint32 :: k < |list| ==> Peeked(list, between, k) == Some(list[k])
    ensures QueueMsg(list, between) == Done(list)
  {
    CompletesIff(list, between);
    var sent := QueueMsg(list, between).sent;
    forall k | 0 <= k < |list| ensures sent[k] == list[k] {
      assert Peeked(list, between, k) == Some(sent[k]);
    }
  }

  lemma FoundIfUnchanged(list: seq<TestId>, between: Schedule<TestId>, k: uint32)
    requires k < |list| < TWO_TO_THE_32 && forall k: nat :: NoSubs(between(k))
    requires |After(list, between, |list|)| >= |list|
    ensures Peeked(list, between, k) == Some(list[k])
  {
    var now := After(list, between, k + 1);
    assert now == list by {
      ShrinksForGood(list, between, k + 1, |list|);
    }
    assert PeekAt(now, k) == Some(now[k]);
  }

  lemma ShortenedListIsMissed(list: seq<TestId>, between: Schedule<TestId>)
    requires |list| < TWO_TO_THE_32 && forall k: nat :: NoSubs(between(k))
    requires After(list, between, |list|) != list
    ensures QueueMsg(list, between).NullPeek?
  {
    CompletesIff(list, between);
    ShrinksForGood(list, between, |list|, |list|);
    assert Peeked(list, between, |list| - 1) == None;
  }

  /**
   With cancellations only, one that names a listed test before the last peek always ends in a
   NULL dereference; without one, every listing gets its copy.
   */
  lemma CompletesIffNothingRemoved(list: seq<TestId>, between: Schedule<TestId>)
    requires |list| < TWO_TO_THE_32 && forall k: nat :: NoSubs(between(k))
    ensures QueueMsg(list, between).Done? <==> After(list, between, |list|) == list
    ensures QueueMsg(list, between).Done? <==> UntouchedTo(list, between, |list|)
    ensures QueueMsg(list, between).Done? ==> QueueMsg(list, between).sent == list
  {
    UnchangedIff(list, between, |list|);
    if After(list, between, |list|) == list {
      forall k: uint32 | k < |list| ensures Peeked(list, between, k) == Some(list[k]) {
        FoundIfUnchanged(list, between, k);
      }
      FoundAsListed(list, between);
    } else {
      ShortenedListIsMissed(list, between);
    }
  }

  // ---------- Only subscriptions in between ----------

  ghost predicate OnlySubs(ops: seq<Op<TestId>>) {
    forall i :: 0 <= i < |ops| ==> ops[i].Sub?
  }

  lemma {:induction false} PushedInFront(list: seq<TestId>, ops: seq<Op<TestId>>) returns (newer: seq<TestId>)
    requires OnlySubs(ops)
    ensures |newer| == Subs(ops) && ApplyAll(list, ops) == newer + list
  {
    newer := [];
    if ops != [] {
      var older := PushedInFront(list, ops[..|ops| - 1]);
      var t := ops[|ops| - 1].test;
      newer := [t] + older;
      assert [t] + (older + list) == newer + list;
    }
  }

  /** The snapshot moves back by one place per subscription. */
  lemma {:induction false} SnapshotShifts(list: seq<TestId>, between: Schedule<TestId>, n: nat)
        returns (newer: seq<TestId>)
    requires forall k: nat :: OnlySubs(between(k))
    ensures |newer| == SubsIn(between, n) && After(list, between, n) == newer + list
  {
    newer := [];
    if n > 0 {
      assert OnlySubs(between(n - 1));
      var older := SnapshotShifts(list, between, n - 1);
      newer := PushedInFront(older + list, between(n - 1));
      assert newer + (older + list) == (newer + older) + list;
      newer := newer + older;
    }
  }

  lemma {:induction false} SubsGrow(between: Schedule<TestId>, m: nat, n: nat)
    requires m <= n
    ensures SubsIn(between, m) <= SubsIn(between, n)
    decreases n
  {
    if m < n {
      SubsGrow(between, m, n - 1);
    }
  }

  /** The place in the snapshot that the k-th copy goes to; negative for a test that came later. */
  function Place(between: Schedule<TestId>, k: nat): int {
    k - SubsIn(between, k + 1)
  }

  lemma PeekedBehind(list: seq<TestId>, between: Schedule<TestId>, k: uint32) returns (newer: seq<TestId>)
    requires k < |list| && forall n: nat :: OnlySubs(between(n))
    requires |list| + SubsIn(between, |list|) < TWO_TO_THE_32
    ensures |newer| == SubsIn(between, k + 1)
    ensures Peeked(list, between, k) == Some((newer + list)[k])
  {
    newer := SnapshotShifts(list, between, k + 1);
    SubsGrow(between, k + 1, |list|);
  }

  /** With subscriptions only, the loop completes, and the k-th copy goes to the k-th place. */
  lemma SentToPlace(list: seq<TestId>, between: Schedule<TestId>, k: uint32)
    requires forall n: nat :: OnlySubs(between(n))
    requires |list| + SubsIn(between, |list|) < TWO_TO_THE_32
    ensures QueueMsg(list, between).Done? && |QueueMsg(list, between).sent| == |list|
    ensures k < |list| && Place(between, k) >= 0 ==> QueueMsg(list, between).sent[k] == list[Place(between, k)]
  {
    CompletesIff(list, between);
    forall i: uint32 | i < |list| ensures Peeked(list, between, i).Some? {
      var _ := PeekedBehind(list, between, i);
    }
    if k < |list| {
      var newer := PeekedBehind(list, between, k);
      assert |newer| == k - Place(between, k);
    }
  }

  // ---------- Which listings are served, and how often ----------

  /** How many of the first m copies go to place j of the snapshot. */
  function CopiesTo(between: Schedule<TestId>, m: nat, j: nat): nat {
    if m == 0 then 0 else CopiesTo(between, m - 1, j) + if Place(between, m - 1) == j then 1 else 0
  }

  /** How many places, from the newest on, the first m copies have reached. */
  function Front(between: Schedule<TestId>, m: nat): nat {
    if m == 0 then 0 else Front(between, m - 1) + if Place(between, m - 1) == Front(between, m - 1) then 1 else 0
  }

  /** Places advance by at most one a step, so none is skipped. */
  lemma {:induction false} FrontLeads(between: Schedule<TestId>, m: nat)
    ensures Place(between, m) <= Front(between, m) <= m
    ensures m > 0 ==> Place(between, m - 1) < Front(between, m)
  {
    if m > 0 {
      FrontLeads(between, m - 1);
    }
  }

  /** The places served are exactly those the front has passed. */
  lemma {:induction false} ServedIffPassed(between: Schedule<TestId>, m: nat, j: nat)
    ensures CopiesTo(between, m, j) > 0 <==> j < Front(between, m)
  {
    if m > 0 {
      ServedIffPassed(between, m - 1, j);
      FrontLeads(between, m - 1);
    }
  }

  /** The front passes the last place exactly when there is no subscription in the gaps. */
  lemma {:induction false} FrontIsFullIff(between: Schedule<TestId>, m: nat)
    ensures Front(between, m) == m <==> SubsIn(between, m) == 0
    ensures SubsIn(between, m) == 0 ==> forall k: nat :: k < m ==> Place(between, k) == k
    ensures m <= Front(between, m) + SubsIn(between, m)
  {
    FrontLeads(between, m);
    if m > 0 {
      FrontIsFullIff(between, m - 1);
      FrontLeads(between, m - 1);
    }
  }

  lemma BagOfPrefix(s: seq<TestId>, m: nat)
    requires m < |s|
    ensures multiset(s[..m + 1]) == multiset(s[..m]) + multiset{s[m]}
  {
    assert s[..m + 1] == s[..m] + [s[m]];
  }

  /** The k-th copy went to its place in the snapshot, if it has one. */
  predicate Placed(list: seq<TestId>, between: Schedule<TestId>, sent: seq<TestId>, k: nat) {
    var p := Place(between, k);
    k < |sent| && (p >= 0 ==> p < |list| && sent[k] == list[p])
  }

  lemma BagOfSlice(s: seq<TestId>, m: nat, n: nat)
    requires m <= n <= |s|
    ensures multiset(s[..m]) <= multiset(s[..n])
  {
    assert s[..n] == s[..m] + s[m..n];
  }

  lemma PassOne(list: seq<TestId>, f: nat, sent: seq<TestId>, m: nat, passed: bool)
    requires m < |sent| && f <= |list| && multiset(list[..f]) <= multiset(sent[..m])
    requires passed ==> f < |list| && sent[m] == list[f]
    ensures multiset(list[..if passed then f + 1 else f]) <= multiset(sent[..m + 1])
  {
    BagOfPrefix(sent, m);
    if passed {
      BagOfPrefix(list, f);
    }
  }

  /** The tests sent the first m copies include, one for one, the listings the front has passed. */
  ghost predicate PassedSent(list: seq<TestId>, sent: seq<TestId>, f: nat, m: nat) {
    f <= m <= |sent| && f <= |list| && multiset(list[..f]) <= multiset(sent[..m])
  }

  lemma PassedSentNext(list: seq<TestId>, between: Schedule<TestId>, sent: seq<TestId>, m: nat)
    requires m < |sent| == |list| && Placed(list, between, sent, m)
    requires PassedSent(list, sent, Front(between, m), m)
    ensures PassedSent(list, sent, Front(between, m + 1), m + 1)
  {
    var f := Front(between, m);
    PassOne(list, f, sent, m, Place(between, m) == f);
  }

  lemma {:induction false} PassedAreSent(list: seq<TestId>, between: Schedule<TestId>, sent: seq<TestId>, m: nat)
    requires m <= |sent| == |list|
    requires forall k: nat :: k < m ==> Placed(list, between, sent, k)
    ensures PassedSent(list, sent, Front(between, m), m)
  {
    if m > 0 {
      PassedAreSent(list, between, sent, m - 1);
      PassedSentNext(list, between, sent, m - 1);
    }
  }

  /** Only subscriptions between the steps, and never 2^32 listings. */
  ghost predicate Growing(list: seq<TestId>, between: Schedule<TestId>) {
    (forall n: nat :: OnlySubs(between(n))) && |list| + SubsIn(between, |list|) < TWO_TO_THE_32
  }

  lemma SentAsPlaced(list: seq<TestId>, between: Schedule<TestId>)
    requires Growing(list, between)
    ensures var o := QueueMsg(list, between);
            && o.Done? && |o.sent| == |list|
            && forall k: nat :: k < |list| ==> Placed(list, between, o.sent, k)
  {
    SentToPlace(list, between, 0);
    forall k: nat | k < |list| ensures Placed(list, between, QueueMsg(list, between).sent, k) {
      SentToPlace(list, between, k);
    }
  }

  lemma PlacedServeAllButOldest(list: seq<TestId>, between: Schedule<TestId>, sent: seq<TestId>, n: nat)
    requires |sent| == |list| && n == SubsIn(between, |list|) <= |list|
    requires forall k: nat :: k < |list| ==> Placed(list, between, sent, k)
    ensures multiset(list[..|list| - n]) <= multiset(sent)
  {
    PassedAreSent(list, between, sent, |list|);
    FrontIsFullIff(between, |list|);
    BagOfSlice(list, |list| - n, Front(between, |list|));
    assert sent[..|list|] == sent;
  }

  /**
   With n subscriptions before the last peek, all listings of the snapshot but its n oldest
   are certain of a copy each.
   */
  lemma AllButOldestServed(list: seq<TestId>, between: Schedule<TestId>, n: nat)
    requires Growing(list, between) && n == SubsIn(between, |list|) <= |list|
    ensures multiset(list[..|list| - n]) <= multiset(QueueMsg(list, between).sent)
  {
    SentAsPlaced(list, between);
    PlacedServeAllButOldest(list, between, QueueMsg(list, between).sent, n);
  }

  /** A schedule that subscribes test x n times before the first peek. */
  function Upfront(x: TestId, n: nat): Schedule<TestId> {
    (gap: nat) => if gap == 0 then seq(n, _ => Sub(x)) else []
  }

  lemma {:induction false} UpfrontSubs(x: TestId, n: nat, m: nat)
    requires m > 0
    ensures SubsIn(Upfront(x, n), m) == n
    ensures forall gap: nat :: OnlySubs(Upfront(x, n)(gap))
  {
    if m == 1 {
      var list: seq<TestId> := [];
      var newer := PushedInFront(list, Upfront(x, n)(0));
      assert SubsIn(Upfront(x, n), 1) == Subs(Upfront(x, n)(0));
      SubsOfRepeat(x, n);
    } else {
      UpfrontSubs(x, n, m - 1);
    }
  }

  lemma {:induction false} SubsOfRepeat(x: TestId, n: nat)
    ensures Subs(seq(n, _ => Sub(x))) == n
  {
    var ops := seq(n, _ => Sub(x));
    if n > 0 {
      assert ops[..n - 1] == seq(n - 1, _ => Sub(x));
      SubsOfRepeat(x, n - 1);
    }
  }

  /** The first copy after such a schedule goes to x. */
  lemma UpfrontTakesACopy(list: seq<TestId>, x: TestId, n: nat)
    requires list != [] && n > 0 && |list| + n < TWO_TO_THE_32
    ensures Growing(list, Upfront(x, n)) && SubsIn(Upfront(x, n), |list|) == n
    ensures x in QueueMsg(list, Upfront(x, n)).sent
  {
    var between := Upfront(x, n);
    UpfrontSubs(x, n, |list|);
    SentAsPlaced(list, between);
    CompletesIff(list, between);
    RepeatInFront(list, x, n);
    assert After(list, between, 1) == ApplyAll(list, between(0));
    assert Peeked(list, between, 0) == Some(x);
    assert QueueMsg(list, between).sent[0] == x;
  }

  lemma {:induction false} RepeatInFront(list: seq<TestId>, x: TestId, n: nat)
    ensures var ops := seq(n, _ => Sub(x)); var now := ApplyAll(list, ops);
            |now| == n + |list| && (n > 0 ==> now[0] == x)
  {
    var ops := seq(n, _ => Sub(x));
    if n > 0 {
      assert ops[..n - 1] == seq(n - 1, _ => Sub(x));
      RepeatInFront(list, x, n - 1);
    }
  }

  ghost predicate EveryListingSent(list: seq<TestId>, between: Schedule<TestId>) {
    multiset(list) <= multiset(QueueMsg(list, between).sent)
  }

  /** A test that is not listed. */
  lemma {:induction false} Unlisting(list: seq<TestId>) returns (x: TestId)
    ensures forall t :: t in list ==> t < x
  {
    if list == [] {
      x := 0;
    } else {
      var n := |list| - 1;
      x := Unlisting(list[..n]);
      assert list == list[..n] + [list[n]];
      x := if list[n] < x then x else list[n] + 1;
    }
  }

  /**
   For every list and every n: all schedules with n subscriptions before the last peek send
   every listing its copy exactly when n is 0, or there is nothing to send.
   */
  lemma SnapshotServedIff(list: seq<TestId>, n: nat)
    requires |list| + n < TWO_TO_THE_32
    ensures (forall between: Schedule<TestId> :: Growing(list, between) && SubsIn(between, |list|) == n ==>
            EveryListingSent(list, between))
       <==> n == 0 || list == []
  {
    if n == 0 || list == [] {
      forall between: Schedule<TestId> | Growing(list, between) && SubsIn(between, |list|) == n
        ensures EveryListingSent(list, between)
      {
        if n == 0 {
          AllButOldestServed(list, between, 0);
          assert list[..|list|] == list;
        }
      }
    } else {
      var x := Unlisting(list);
      var between := Upfront(x, n);
      UpfrontTakesACopy(list, x, n);
      SentAsPlaced(list, between);
      NoRoomForAll(list, QueueMsg(list, between).sent, x);
      assert !EveryListingSent(list, between);
    }
  }

  /** As many copies as listings, one of them to a newcomer: somebody goes without. */
  lemma NoRoomForAll(list: seq<TestId>, sent: seq<TestId>, x: TestId)
    requires |sent| == |list| && x in sent && x !in list
    ensures !(multiset(list) <= multiset(sent))
  {
    var extra := multiset(sent) - multiset(list);
    assert x in extra;
    assert multiset(list) <= multiset(sent) ==> multiset(sent) == multiset(list) + extra;
  }
}
