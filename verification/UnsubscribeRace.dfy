/**
 unsubscribe takes no lock either: it peeks at one index after another and removes by index what
 it found. Here any operations on the list may fall between its peeks, and between the peek that
 finds the test and the removal; each queue operation is taken to happen at once.
 */
module UnsubscribeRace {
  import opened Collection
  import opened Broker
  import opened FanOutRace
  import opened FanOutCopies

  /** What queue_remove took out, and what it left; Missed: no peek found the test. */
  datatype Cancelled<T> = Missed(list: seq<T>) | Took(gone: Option<T>, list: seq<T>)

  function RemovedAt<T>(list: seq<T>, index: uint32): Cancelled<T> {
    if InRange(|list|, index) then Took(Some(list[index]), Without(list, index)) else Took(None, list)
  }

  /** The loop from index i on: it stops at the first peek that finds t, at count if none does. */
  function FirstHit<T(==)>(list: seq<T>, between: Schedule<T>, t: T, count: uint32, i: uint32): (k: uint32)
    requires i <= count
    ensures i <= k <= count
    ensures k < count ==> Peeked(list, between, k) == Some(t)
    ensures forall j: uint32 :: i <= j < k ==> Peeked(list, between, j) != Some(t)
    decreases count - i
  {
    if i == count || Peeked(list, between, i) == Some(t) then i else FirstHit(list, between, t, count, i + 1)
  }

  /** late are the operations between the peek that finds t and the removal. */
  function Unsubscribe<T(==)>(list: seq<T>, between: Schedule<T>, late: seq<Op<T>>, t: T): Cancelled<T> {
    var count := Counted(|list|);
    var k := FirstHit(list, between, t, count, 0);
    if k == count then Missed(After(list, between, count))
    else RemovedAt(ApplyAll(After(list, between, k + 1), late), k)
  }

  // ---------- With subscriptions of other tests only ----------

  /** Only subscriptions, none of t, up to the removal, and never 2^32 listings. */
  ghost predicate OthersSubscribe(list: seq<TestId>, between: Schedule<TestId>, late: seq<Op<TestId>>, t: TestId) {
    && Growing(list, between) && NotSubscribed(between, |list|, t)
    && OnlySubs(late) && Sub(t) !in late
    && |list| + SubsIn(between, |list|) + Subs(late) < TWO_TO_THE_32
  }

  lemma HitIff(list: seq<TestId>, between: Schedule<TestId>, t: TestId, k: uint32)
    requires Growing(list, between) && NotSubscribed(between, |list|, t) && k < |list|
    ensures var p := Place(between, k);
            Peeked(list, between, k) == Some(t) <==> 0 <= p < |list| && list[p] == t
  {
    var newer := PeekedBehind(list, between, k);
    NewcomersWereSubscribed(list, between, k + 1, t);
    var now, more := After(list, between, k + 1), SubsIn(between, k + 1);
    SubsGrow(between, k + 1, |list|);
    if k < more { assert now[k] == now[..more][k]; } else { assert now[k] == now[more..][k - more]; }
  }

  lemma {:induction false} FrontGrows(between: Schedule<TestId>, m: nat, n: nat)
    requires m <= n
    ensures Front(between, m) <= Front(between, n)
  {
    if m < n { FrontGrows(between, m, n - 1); }
  }

  lemma {:induction false} VisitedAt(between: Schedule<TestId>, m: nat, j: nat) returns (k: nat)
    requires CopiesTo(between, m, j) > 0
    ensures k < m && Place(between, k) == j
  {
    if Place(between, m - 1) == j { k := m - 1; } else { k := VisitedAt(between, m - 1, j); }
  }

  lemma FirstIsNewest(list: seq<TestId>, t: TestId, j: nat)
    requires j < |list| && list[j] == t
    ensures FirstListing(list, t) <= j
  {
  }

  /** The place found is that of t's newest listing: an older one is reached only past it. */
  lemma HitIsNewest(list: seq<TestId>, between: Schedule<TestId>, t: TestId, k: uint32)
    requires Growing(list, between) && NotSubscribed(between, |list|, t) && k < |list|
    requires Peeked(list, between, k) == Some(t)
    requires forall j: uint32 :: j < k ==> Peeked(list, between, j) != Some(t)
    ensures Place(between, k) == FirstListing(list, t) < Front(between, |list|)
  {
    var p := FirstListing(list, t);
    HitIff(list, between, t, k);
    FirstIsNewest(list, t, Place(between, k));
    FrontLeads(between, k);
    FrontLeads(between, k + 1);
    FrontGrows(between, k + 1, |list|);
    if p < Place(between, k) {
      ServedIffPassed(between, k, p);
      var earlier := VisitedAt(between, k, p);
      HitIff(list, between, t, earlier);
    }
  }

  /** The scan finds t exactly if the front passes its newest listing, and then finds that one. */
  lemma HitsNewestListing(list: seq<TestId>, between: Schedule<TestId>, t: TestId)
    requires Growing(list, between) && NotSubscribed(between, |list|, t)
    ensures var k, p := FirstHit(list, between, t, |list|, 0), FirstListing(list, t);
            && (k < |list| <==> p < Front(between, |list|))
            && (k < |list| ==> Place(between, k) == p)
  {
    var k, p := FirstHit(list, between, t, |list|, 0), FirstListing(list, t);
    FrontLeads(between, |list|);
    if k < |list| {
      HitIsNewest(list, between, t, k);
    } else if p < Front(between, |list|) {
      ServedIffPassed(between, |list|, p);
      var hit := VisitedAt(between, |list|, p);
      HitIff(list, between, t, hit);
    }
  }

  /** What index k holds once more listings of other tests are pushed in front of a list with t's newest at k. */
  lemma PushedUnderTheIndex(later: seq<TestId>, newer: seq<TestId>, now: seq<TestId>, front: seq<TestId>,
                            list: seq<TestId>, t: TestId, k: nat)
    requires later == newer + now && now == front + list && t !in newer && t !in front
    requires FirstListing(list, t) < |list| && k == |front| + FirstListing(list, t)
    ensures var g, p := |newer|, FirstListing(list, t);
            && (later[k] == t <==> g == 0)
            && (p >= g ==> later[k] == list[p - g])
  {
    var g, p := |newer|, FirstListing(list, t);
    if k < g {
      assert later[k] == newer[k];
    } else {
      assert later[k] == now[k - g];
      if p < g { assert now[k - g] == front[k - g]; } else { assert now[k - g] == list[p - g]; }
    }
  }

  lemma FrontOf(list: seq<TestId>, between: Schedule<TestId>, t: TestId, n: nat) returns (front: seq<TestId>)
    requires Growing(list, between) && NotSubscribed(between, |list|, t) && n <= |list|
    ensures After(list, between, n) == front + list && t !in front
    ensures |front| == SubsIn(between, n) <= SubsIn(between, |list|)
  {
    NewcomersWereSubscribed(list, between, n, t);
    SubsGrow(between, n, |list|);
    var now := After(list, between, n);
    front := now[..SubsIn(between, n)];
    assert now == front + list;
  }

  lemma LateFront(now: seq<TestId>, late: seq<Op<TestId>>, t: TestId) returns (newer: seq<TestId>)
    requires OnlySubs(late) && Sub(t) !in late
    ensures ApplyAll(now, late) == newer + now && t !in newer && |newer| == Subs(late)
  {
    newer := PushedInFront(now, late);
    NewerAreSubscribed(now, late, newer);
    assert forall i :: 0 <= i < |newer| ==> Sub(newer[i]) in late;
  }

  /** What the index of t's newest listing holds after the late subscriptions. */
  lemma AtTheIndex(now: seq<TestId>, front: seq<TestId>, list: seq<TestId>, late: seq<Op<TestId>>, t: TestId, k: nat)
    requires now == front + list && t !in front && OnlySubs(late) && Sub(t) !in late
    requires FirstListing(list, t) < |list| && k == |front| + FirstListing(list, t)
    ensures var later, p, g := ApplyAll(now, late), FirstListing(list, t), Subs(late);
            && k < |later| == g + |front| + |list|
            && (later[k] == t <==> g == 0)
            && (p >= g ==> later[k] == list[p - g])
  {
    var newer := LateFront(now, late, t);
    PushedUnderTheIndex(ApplyAll(now, late), newer, now, front, list, t, k);
  }

  /** What a removal at that index takes out. */
  lemma TakenAt(list: seq<TestId>, between: Schedule<TestId>, late: seq<Op<TestId>>, t: TestId, k: uint32)
    requires OthersSubscribe(list, between, late, t) && k < |list|
    requires Place(between, k) == FirstListing(list, t) < |list|
    ensures var o, p, g := RemovedAt(ApplyAll(After(list, between, k + 1), late), k), FirstListing(list, t), Subs(late);
            && o.Took? && o.gone.Some?
            && (o.gone == Some(t) <==> g == 0)
            && (p >= g ==> o.gone == Some(list[p - g]))
  {
    var front := FrontOf(list, between, t, k + 1);
    AtTheIndex(After(list, between, k + 1), front, list, late, t, k);
  }

  /**
   While other tests subscribe, unsubscribe misses the test exactly when the front of the scan
   stays short of its newest listing. Otherwise it removes a listing, and it is one of the test's
   exactly when nothing was subscribed between the peek and the removal; after g subscriptions
   there it cancels the listing g places newer than the test's, if there is one, instead.
   */
  lemma UnsubscribeIsExactIff(list: seq<TestId>, between: Schedule<TestId>, late: seq<Op<TestId>>, t: TestId)
    requires OthersSubscribe(list, between, late, t)
    ensures var o, p, g := Unsubscribe(list, between, late, t), FirstListing(list, t), Subs(late);
            && (o.Missed? <==> p >= Front(between, |list|))
            && (o.Took? ==> o.gone.Some? && p < |list|)
            && (o.Took? ==> (o.gone == Some(t) <==> g == 0))
            && (o.Took? && p >= g ==> o.gone == Some(list[p - g]))
  {
    var k := FirstHit(list, between, t, |list|, 0);
    HitsNewestListing(list, between, t);
    FrontLeads(between, |list|);
    if k < |list| {
      TakenAt(list, between, late, t, k);
    }
  }

  // ---------- The list left behind ----------

  /** The tests these operations subscribe, newest first. */
  function NewestFirst(ops: seq<Op<TestId>>): (r: seq<TestId>)
    ensures |r| == |ops| && forall i :: 0 <= i < |r| ==> r[i] == ops[|ops| - 1 - i].test
  {
    if ops == [] then [] else [ops[|ops| - 1].test] + NewestFirst(ops[..|ops| - 1])
  }

  /** The tests subscribed in the first n gaps, newest first. */
  function Arrivals(between: Schedule<TestId>, n: nat): seq<TestId> {
    if n == 0 then [] else NewestFirst(between(n - 1)) + Arrivals(between, n - 1)
  }

  lemma {:induction false} JoinInFront(list: seq<TestId>, ops: seq<Op<TestId>>)
    requires OnlySubs(ops)
    ensures ApplyAll(list, ops) == NewestFirst(ops) + list
  {
    if ops != [] {
      var n := |ops| - 1;
      JoinInFront(list, ops[..n]);
      assert [ops[n].test] + (NewestFirst(ops[..n]) + list) == NewestFirst(ops) + list;
    }
  }

  lemma {:induction false} ArriveInFront(list: seq<TestId>, between: Schedule<TestId>, n: nat)
    requires forall k: nat :: OnlySubs(between(k))
    ensures After(list, between, n) == Arrivals(between, n) + list
  {
    if n > 0 {
      ArriveInFront(list, between, n - 1);
      JoinInFront(After(list, between, n - 1), between(n - 1));
      assert NewestFirst(between(n - 1)) + (Arrivals(between, n - 1) + list) == Arrivals(between, n) + list;
    }
  }

  /** The k-th of these listings, and no other, is taken out; the rest keep their order. */
  ghost predicate Lacks(o: Cancelled<TestId>, all: seq<TestId>, k: nat) {
    && k < |all| && o == Took(Some(all[k]), all[..k] + all[k + 1..])
    && multiset(o.list) == multiset(all) - multiset{all[k]}
  }

  lemma RemovedLacks(all: seq<TestId>, k: uint32)
    requires k < |all| < TWO_TO_THE_32
    ensures Lacks(RemovedAt(all, k), all, k)
  {
    assert all == all[..k] + [all[k]] + all[k + 1..];
    assert RemovedAt(all, k).list == all[..k] + all[k + 1..];
  }

  /** At the first round whose place is that of t's newest listing. */
  ghost predicate FirstRoundAt(between: Schedule<TestId>, k: nat, p: nat) {
    Place(between, k) == p && forall j: nat :: j < k ==> Place(between, j) != p
  }

  lemma LengthAtRemoval(list: seq<TestId>, between: Schedule<TestId>, late: seq<Op<TestId>>, t: TestId, k: uint32)
    requires OthersSubscribe(list, between, late, t) && k < |list|
    ensures k < |ApplyAll(After(list, between, k + 1), late)| < TWO_TO_THE_32
  {
    var front := FrontOf(list, between, t, k + 1);
    var newer := LateFront(After(list, between, k + 1), late, t);
  }

  lemma FirstHitRound(list: seq<TestId>, between: Schedule<TestId>, t: TestId, k: uint32)
    requires Growing(list, between) && NotSubscribed(between, |list|, t)
    requires k == FirstHit(list, between, t, |list|, 0) < |list|
    ensures FirstListing(list, t) < |list| && FirstRoundAt(between, k, FirstListing(list, t))
  {
    HitIff(list, between, t, k);
    HitIsNewest(list, between, t, k);
    forall j: nat | j < k ensures Place(between, j) != FirstListing(list, t) {
      HitIff(list, between, t, j);
    }
  }

  /** The list at the removal. */
  lemma ListAtRemoval(list: seq<TestId>, between: Schedule<TestId>, late: seq<Op<TestId>>, t: TestId, k: uint32)
    requires OthersSubscribe(list, between, late, t) && k < |list|
    ensures var all := NewestFirst(late) + (Arrivals(between, k + 1) + list);
            ApplyAll(After(list, between, k + 1), late) == all && k < |all| < TWO_TO_THE_32
  {
    ArriveInFront(list, between, k + 1);
    JoinInFront(After(list, between, k + 1), late);
    LengthAtRemoval(list, between, late, t, k);
  }

  lemma TakeLeaves(list: seq<TestId>, between: Schedule<TestId>, late: seq<Op<TestId>>, t: TestId, k: uint32)
    requires OthersSubscribe(list, between, late, t) && k < |list|
    ensures Lacks(RemovedAt(ApplyAll(After(list, between, k + 1), late), k),
                  NewestFirst(late) + (Arrivals(between, k + 1) + list), k)
  {
    ListAtRemoval(list, between, late, t, k);
    RemovedLacks(NewestFirst(late) + (Arrivals(between, k + 1) + list), k);
  }

  /**
   The list left behind: a scan that misses leaves every listing, and whoever joined in front of them,
   newest first; one that removes takes the listing at its index out of all that joined up to the
   removal and the first list.
   */
  lemma UnsubscribeLeaves(list: seq<TestId>, between: Schedule<TestId>, late: seq<Op<TestId>>, t: TestId)
    requires OthersSubscribe(list, between, late, t)
    ensures var o := Unsubscribe(list, between, late, t);
            && (o.Missed? ==> o.list == Arrivals(between, |list|) + list)
            && (o.Took? ==> exists k :: 0 <= k < |list| && FirstRoundAt(between, k, FirstListing(list, t))
                                        && Lacks(o, NewestFirst(late) + (Arrivals(between, k + 1) + list), k))
  {
    var k := FirstHit(list, between, t, |list|, 0);
    if k < |list| {
      FirstHitRound(list, between, t, k);
      TakeLeaves(list, between, late, t, k);
      assert Unsubscribe(list, between, late, t) == RemovedAt(ApplyAll(After(list, between, k + 1), late), k);
    } else {
      ArriveInFront(list, between, |list|);
    }
  }

  /** Left alone, it is the unsubscribe of the broker. */
  lemma AloneIsUnlisted(list: seq<TestId>, t: TestId)
    requires |list| < TWO_TO_THE_32
    ensures Unsubscribe(list, (n: nat) => [], [], t).list == Unlisted(list, t)
  {
    var between: Schedule<TestId> := (n: nat) => [];
    NothingHappens(list, between, |list|);
    var k := FirstHit(list, between, t, |list|, 0);
    assert forall j: uint32 :: j < |list| ==> Peeked(list, between, j) == Some(list[j]) by {
      forall j: uint32 | j < |list| ensures Peeked(list, between, j) == Some(list[j]) {
        NothingHappens(list, between, j + 1);
      }
    }
    assert k == FirstListing(list, t) by {
      if k < |list| { FirstIsNewest(list, t, k); }
    }
    NothingHappens(list, between, if k < |list| then k + 1 else k);
  }

  lemma {:induction false} NothingHappens(list: seq<TestId>, between: Schedule<TestId>, n: nat)
    requires forall k: nat :: between(k) == []
    ensures After(list, between, n) == list
  {
    if n > 0 { NothingHappens(list, between, n - 1); }
  }
}
