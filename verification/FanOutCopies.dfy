/**
 How many copies a test is sent when subscriptions fall between the steps of queue_msg.
 */
module FanOutCopies {
  import opened Collection
  import opened Broker
  import opened FanOutRace

  // ---------- Who stands in front of the snapshot ----------

  /** No gap before the last peek subscribes this test. */
  ghost predicate NotSubscribed(between: Schedule<TestId>, m: nat, t: TestId) {
    forall n: nat :: n < m ==> Sub(t) !in between(n)
  }

  lemma {:induction false} NewerAreSubscribed(list: seq<TestId>, ops: seq<Op<TestId>>, newer: seq<TestId>)
    requires OnlySubs(ops) && ApplyAll(list, ops) == newer + list && |newer| == Subs(ops)
    ensures forall i :: 0 <= i < |newer| ==> Sub(newer[i]) in ops
  {
    if ops != [] {
      var before := ops[..|ops| - 1];
      var older := PushedInFront(list, before);
      NewerAreSubscribed(list, before, older);
      var t := ops[|ops| - 1].test;
      assert ops[|ops| - 1] == Sub(t);
      assert newer + list == ([t] + older) + list;
      assert newer == (newer + list)[..|newer|] == [t] + older;
      forall i | 0 <= i < |newer| ensures Sub(newer[i]) in ops {
        if i > 0 { assert newer[i] == older[i - 1] && Sub(older[i - 1]) in before; }
      }
    }
  }

  lemma {:induction false} NewcomersWereSubscribed(list: seq<TestId>, between: Schedule<TestId>, n: nat, t: TestId)
    requires forall k: nat :: OnlySubs(between(k))
    requires NotSubscribed(between, n, t)
    ensures var now := After(list, between, n); var more := SubsIn(between, n);
            |now| == more + |list| && now[more..] == list && t !in now[..more]
  {
    if n > 0 {
      assert OnlySubs(between(n - 1));
      NewcomersWereSubscribed(list, between, n - 1, t);
      var was, more := After(list, between, n - 1), SubsIn(between, n - 1);
      var newer := PushedInFront(was, between(n - 1));
      NewerAreSubscribed(was, between(n - 1), newer);
      var now := After(list, between, n);
      assert now == newer + was && was == was[..more] + list;
      assert now == (newer + was[..more]) + list;
      assert now[..|newer| + more] == newer + was[..more];
      assert forall i :: 0 <= i < |newer| ==> newer[i] != t;
    }
  }

  // ---------- The copies of one test ----------

  /** Of the first m copies, those that go to the listings of test t among the first n places. */
  function CopiesFor(list: seq<TestId>, between: Schedule<TestId>, m: nat, t: TestId, n: nat): nat
    requires n <= |list|
  {
    if n == 0 then 0
    else CopiesFor(list, between, m, t, n - 1) + if list[n - 1] == t then CopiesTo(between, m, n - 1) else 0
  }

  lemma {:induction false} CopiesForNext(list: seq<TestId>, between: Schedule<TestId>, m: nat, t: TestId, n: nat)
    requires n <= |list|
    ensures var p := Place(between, m);
            CopiesFor(list, between, m + 1, t, n)
            == CopiesFor(list, between, m, t, n) + if 0 <= p < n && list[p] == t then 1 else 0
  {
    if n > 0 {
      CopiesForNext(list, between, m, t, n - 1);
    }
  }

  lemma {:induction false} NoCopiesYet(list: seq<TestId>, between: Schedule<TestId>, t: TestId, n: nat)
    requires n <= |list|
    ensures CopiesFor(list, between, 0, t, n) == 0
  {
    if n > 0 {
      NoCopiesYet(list, between, t, n - 1);
    }
  }

  /** Does the k-th copy go to a listing of t? */
  ghost predicate GoesTo(list: seq<TestId>, between: Schedule<TestId>, sent: seq<TestId>, t: TestId, k: nat) {
    var p := Place(between, k);
    k < |sent| && (sent[k] == t <==> 0 <= p < |list| && list[p] == t)
  }

  lemma {:induction false} CopiesCounted(list: seq<TestId>, between: Schedule<TestId>, sent: seq<TestId>, m: nat,
                                         t: TestId)
    requires m <= |sent|
    requires forall k: nat :: k < m ==> GoesTo(list, between, sent, t, k)
    ensures multiset(sent[..m])[t] == CopiesFor(list, between, m, t, |list|)
  {
    if m > 0 {
      CopiesCounted(list, between, sent, m - 1, t);
      BagOfPrefix(sent, m - 1);
      CopiesForNext(list, between, m - 1, t, |list|);
      assert GoesTo(list, between, sent, t, m - 1);
    } else {
      NoCopiesYet(list, between, t, |list|);
    }
  }

  lemma SentByPlace(list: seq<TestId>, between: Schedule<TestId>, t: TestId, k: uint32)
    requires Growing(list, between) && k < |list| && NotSubscribed(between, |list|, t)
    ensures QueueMsg(list, between).Done? && |QueueMsg(list, between).sent| == |list|
    ensures GoesTo(list, between, QueueMsg(list, between).sent, t, k)
  {
    SentToPlace(list, between, k);
    CompletesIff(list, between);
    NewcomersWereSubscribed(list, between, k + 1, t);
    var now, more := After(list, between, k + 1), SubsIn(between, k + 1);
    assert Peeked(list, between, k) == Some(QueueMsg(list, between).sent[k]);
    assert QueueMsg(list, between).sent[k] == now[k];
    if k < more {
      assert now[k] == now[..more][k];
    }
  }

  /**
   A test not subscribed meanwhile is sent, for each of its listings, as many copies as peeks
   fall on its place: none from where the front ends, several where subscriptions push the
   listing back under the index.
   */
  lemma CopiesOfTest(list: seq<TestId>, between: Schedule<TestId>, t: TestId)
    requires Growing(list, between) && NotSubscribed(between, |list|, t)
    ensures var sent := QueueMsg<TestId>(list, between).sent;
            multiset(sent)[t] == CopiesFor(list, between, |list|, t, |list|)
  {
    var sent := QueueMsg<TestId>(list, between).sent;
    SentAsPlaced(list, between);
    forall k: nat | k < |list| ensures GoesTo(list, between, sent, t, k) {
      SentByPlace(list, between, t, k);
    }
    CopiesCounted(list, between, sent, |list|, t);
    assert sent[..|list|] == sent;
  }

  lemma {:induction false} CopiesForIff(list: seq<TestId>, between: Schedule<TestId>, m: nat, t: TestId, n: nat)
    requires n <= |list|
    ensures CopiesFor(list, between, m, t, n) > 0 <==> exists j :: 0 <= j < n && j < Front(between, m) && list[j] == t
  {
    if n > 0 {
      CopiesForIff(list, between, m, t, n - 1);
      ServedIffPassed(between, m, n - 1);
    }
  }

  /** It is sent a copy at all exactly when one of its listings is among the places passed. */
  lemma TestServedIff(list: seq<TestId>, between: Schedule<TestId>, t: TestId)
    requires Growing(list, between) && NotSubscribed(between, |list|, t)
    ensures t in QueueMsg(list, between).sent
       <==> exists j :: 0 <= j < |list| && j < Front(between, |list|) && list[j] == t
  {
    CopiesOfTest(list, between, t);
    CopiesForIff(list, between, |list|, t, |list|);
  }

  lemma {:induction false} OneListing(list: seq<TestId>, between: Schedule<TestId>, m: nat, j: nat, n: nat)
    requires n <= |list| && j < |list|
    requires forall i :: 0 <= i < |list| && i != j ==> list[i] != list[j]
    ensures CopiesFor(list, between, m, list[j], n) == if j < n then CopiesTo(between, m, j) else 0
  {
    if n > 0 {
      OneListing(list, between, m, j, n - 1);
    }
  }

  /** A test listed once, at place j: exactly as many copies as peeks fall on place j. */
  lemma CopiesOfListing(list: seq<TestId>, between: Schedule<TestId>, j: nat)
    requires Growing(list, between) && j < |list|
    requires forall i :: 0 <= i < |list| && i != j ==> list[i] != list[j]
    requires NotSubscribed(between, |list|, list[j])
    ensures multiset(QueueMsg(list, between).sent)[list[j]] == CopiesTo(between, |list|, j)
    ensures list[j] in QueueMsg(list, between).sent <==> j < Front(between, |list|)
  {
    CopiesOfTest(list, between, list[j]);
    OneListing(list, between, |list|, j, |list|);
    ServedIffPassed(between, |list|, j);
  }
}
