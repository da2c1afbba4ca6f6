/**
 The map of src/utils/collection.c: a queue of (key, value) pairs, newest first.
 A lookup compares with strncmp over the length of the requested key, so it
 finds the newest pair whose key STARTS WITH the requested one.
 */
module HashMap {
  import opened Collection

  datatype Entry<V> = Entry(key: string, value: V)

  /** strncmp(stored, key, strlen(key)) == 0 for NUL-free strings. */
  predicate Matches(stored: string, key: string) {
    key <= stored
  }

  /** The position of the newest matching entry; |s| when there is none. */
  function FirstMatch<V>(s: seq<Entry<V>>, key: string): (i: nat)
    ensures i <= |s|
    ensures i < |s| ==> Matches(s[i].key, key)
    ensures forall j :: 0 <= j < i ==> !Matches(s[j].key, key)
  {
    MatchFrom(s, key, 0)
  }

  function MatchFrom<V>(s: seq<Entry<V>>, key: string, from: nat): (i: nat)
    requires from <= |s|
    ensures from <= i <= |s|
    ensures i < |s| ==> Matches(s[i].key, key)
    ensures forall j :: from <= j < i ==> !Matches(s[j].key, key)
    decreases |s| - from
  {
    if from == |s| || Matches(s[from].key, key) then from else MatchFrom(s, key, from + 1)
  }

  /** What hash_map_get answers. */
  function Lookup<V>(s: seq<Entry<V>>, key: string): Option<V> {
    var i := FirstMatch(Visited(s), key);
    if i < |Visited(s)| then Some(s[i].value) else None
  }

  /** What hash_map_remove leaves behind. */
  function Removed<V>(s: seq<Entry<V>>, key: string): seq<Entry<V>> {
    var i := FirstMatch(Visited(s), key);
    if i < |Visited(s)| then Without(s, i) else s
  }

  /** The position of the newest entry holding this value; |s| when there is none. */
  function FirstHolding<V(==)>(s: seq<Entry<V>>, value: V): (i: nat)
    ensures i <= |s|
    ensures i < |s| ==> s[i].value == value
    ensures forall j :: 0 <= j < i ==> s[j].value != value
  {
    HoldingFrom(s, value, 0)
  }

  function HoldingFrom<V(==)>(s: seq<Entry<V>>, value: V, from: nat): (i: nat)
    requires from <= |s|
    ensures from <= i <= |s|
    ensures i < |s| ==> s[i].value == value
    ensures forall j :: from <= j < i ==> s[j].value != value
    decreases |s| - from
  {
    if from == |s| || s[from].value == value then from else HoldingFrom(s, value, from + 1)
  }

  /** What hash_map_get_first answers. */
  function First<V>(s: seq<Entry<V>>): Option<V> {
    if InRange(|s|, 0) then Some(s[0].value) else None
  }

  /** What hash_map_get_next answers: the value after the first place the given one occurs. */
  function Next<V(==)>(s: seq<Entry<V>>, value: V): Option<V> {
    var i := FirstHolding(Visited(s), value);
    if i < |Visited(s)| && InRange(|s|, Increment(i)) then Some(s[Increment(i)].value) else None
  }

  class HashMap<V(==)> {
    const queue: Queue<Entry<V>>

    ghost predicate Valid()
      reads this, queue, queue.Repr
    {
      queue.Valid() && this !in queue.Repr
    }

    /** The pairs on file, newest first. */
    ghost function Entries(): seq<Entry<V>>
      reads this, queue
    {
      queue.Contents
    }

    constructor ()
      ensures Valid() && fresh(queue.Repr) && Entries() == []
    {
      queue := new Queue();
    }

    method Put(key: string, value: V)
      requires Valid()
      modifies queue.Repr
      ensures Valid() && fresh(queue.Repr - old(queue.Repr))
      ensures Entries() == [Entry(key, value)] + old(Entries())
    {
      queue.Push(Entry(key, value));
    }

    /** The scan shared by get and remove. */
    method Find(key: string) returns (found: bool, i: uint32)
      requires Valid()
      ensures i == FirstMatch(Visited(Entries()), key)
      ensures found <==> i < |Visited(Entries())|
    {
      var count := queue.Count();
      VisitedInRange(|Entries()|);
      i := 0;
      while i < count
        invariant 0 <= i <= count
        invariant forall j :: 0 <= j < i ==> !Matches(Entries()[j].key, key)
      {
        var e := queue.Peek(i);
        if e.Some? && Matches(e.value.key, key) {
          return true, i;
        }
        i := i + 1;
      }
      return false, i;
    }

    method Get(key: string) returns (r: Option<V>)
      requires Valid()
      ensures r == Lookup(Entries(), key)
    {
      var found, i := Find(key);
      if !found {
        return None;
      }
      var e := queue.Peek(i);
      return Some(e.value.value);
    }

    method Remove(key: string) returns (r: Option<V>)
      requires Valid()
      modifies queue.Repr
      ensures Valid() && queue.Repr == old(queue.Repr)
      ensures r == Lookup(old(Entries()), key)
      ensures Entries() == Removed(old(Entries()), key)
    {
      var found, i := Find(key);
      if !found {
        return None;
      }
      var tmp := queue.Remove(i);
      return Some(tmp.value.value);
    }

    method GetFirst() returns (r: Option<V>)
      requires Valid()
      ensures r == First(Entries())
    {
      var e := queue.Peek(0);
      if e.None? {
        return None;
      }
      return Some(e.value.value);
    }

    method GetNext(value: V) returns (r: Option<V>)
      requires Valid()
      ensures r == Next(Entries(), value)
    {
      var count := queue.Count();
      VisitedInRange(|Entries()|);
      var i, found := 0, false;
      while i < count
        invariant 0 <= i <= count && !found
        invariant forall j :: 0 <= j < i ==> Entries()[j].value != value
      {
        var e := queue.Peek(i);
        if e.Some? && e.value.value == value {
          found := true;
          break;
        }
        i := i + 1;
      }
      assert i == FirstHolding(Visited(Entries()), value);
      if !found {
        return None;
      }
      var e := queue.Peek(Increment(i));
      if e.None? {
        return None;
      }
      return Some(e.value.value);
    }
  }

  // ---------- What a caller may rely on ----------

  /** The value a walk by get_first and get_next has in hand after k calls of get_next. */
  function WalkAt<V(==)>(s: seq<Entry<V>>, k: nat): Option<V> {
    if k == 0 then First(s)
    else
      var v := WalkAt(s, k - 1);
      if v.Some? then Next(s, v.value) else None
  }

  ghost predicate DistinctValues<V>(s: seq<Entry<V>>) {
    forall i, j :: 0 <= i < j < |s| ==> s[i].value != s[j].value
  }

  lemma NextOf<V>(s: seq<Entry<V>>, value: V)
    requires |s| < TWO_TO_THE_32
    ensures var i := FirstHolding(s, value);
            Next(s, value) == if i + 1 < |s| then Some(s[i + 1].value) else None
  {
  }

  lemma NextWhenDistinct<V>(s: seq<Entry<V>>, i: nat)
    requires i < |s| < TWO_TO_THE_32 && DistinctValues(s)
    ensures Next(s, s[i].value) == if i + 1 < |s| then Some(s[i + 1].value) else None
  {
    NextOf(s, s[i].value);
    assert FirstHolding(s, s[i].value) == i;
  }

  lemma {:induction false} WalkVisitsAll<V>(s: seq<Entry<V>>, k: nat)
    requires |s| < TWO_TO_THE_32 && DistinctValues(s)
    ensures WalkAt(s, k) == if k < |s| then Some(s[k].value) else None
  {
    if k > 0 {
      WalkVisitsAll(s, k - 1);
      if k <= |s| { NextWhenDistinct(s, k - 1); }
    }
  }

  /** A value held twice traps the walk in front of its second occurrence. */
  lemma {:induction false} WalkIsTrapped<V>(s: seq<Entry<V>>, i: nat, j: nat, k: nat)
    requires |s| < TWO_TO_THE_32 && i < j < |s| && s[i].value == s[j].value
    ensures var v := WalkAt(s, k); v.Some? && exists l :: 0 <= l < j && s[l].value == v.value
  {
    if k == 0 {
      assert WalkAt(s, 0) == Some(s[0].value);
    } else {
      WalkIsTrapped(s, i, j, k - 1);
      var v := WalkAt(s, k - 1).value;
      NextOf(s, v);
      var f := FirstHolding(s, v);
      assert f < j;
      assert s[if f + 1 < j then f + 1 else i].value == WalkAt(s, k).value;
    }
  }

  /** The walk over a map comes to an end exactly when no value is on file twice. */
  lemma WalkEndsIff<V>(s: seq<Entry<V>>)
    requires |s| < TWO_TO_THE_32
    ensures (exists k: nat :: WalkAt(s, k) == None) <==> DistinctValues(s)
  {
    if DistinctValues(s) {
      WalkVisitsAll(s, |s|);
    } else {
      var i, j :| 0 <= i < j < |s| && s[i].value == s[j].value;
      forall k: nat ensures WalkAt(s, k) != None {
        WalkIsTrapped(s, i, j, k);
      }
    }
  }

  /** The entry just filed is found, whatever else is on file. */
  lemma LookupAfterPut<V>(s: seq<Entry<V>>, key: string, value: V)
    requires |s| + 1 < TWO_TO_THE_32
    ensures Lookup([Entry(key, value)] + s, key) == Some(value)
    ensures Removed([Entry(key, value)] + s, key) == s
  {
    var t := [Entry(key, value)] + s;
  }

  /** A lookup is a lookup of equal keys exactly when no newer key merely starts with the requested one. */
  lemma LookupIsExactIff<V>(s: seq<Entry<V>>, key: string, i: nat)
    requires |s| < TWO_TO_THE_32
    requires i < |s| && s[i].key == key
    requires forall j :: 0 <= j < |s| && j != i ==> s[j].key != key
    requires forall j, k :: 0 <= j < k < |s| ==> s[j].value != s[k].value
    ensures Lookup(s, key) == Some(s[i].value) <==> forall j :: 0 <= j < i ==> !Matches(s[j].key, key)
    ensures Lookup(s, key) == Some(s[i].value) <==> Removed(s, key) == Without(s, i)
  {
    var f := FirstMatch(s, key);
    assert f <= i;
    if f < i {
      assert Without(s, i)[f] == s[f];
      if i < |s| - 1 || f < |s| - 1 { assert Without(s, f)[f] == s[f + 1]; }
    }
  }
}
