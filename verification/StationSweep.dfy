/**
 remove_all_sta of the gateway's manager (src/sta/wlan_emu_sta_mgr.cpp): walks the map with
 get_first and get_next while removing the stations of one test by key.
 */
module StationSweep {
  import opened Collection
  import opened Decimal
  import opened Keys
  import opened HashMap
  import opened Stations
  import opened StationTable

  // ---------- Specification ----------

  /** A manager between two operations, or where its process died; Unfinished if a loop takes longer. */
  datatype Status = Reached(t: Table, crashed: bool) | Unfinished

  /** The device is set free, then the newest entry that the key matches is dropped. */
  function Erased(t: Table, key: string, dev: uint32): Table
    requires dev < |t.busy|
  {
    Table(t.busy[dev := false], Removed(t.entries, key))
  }

  /** The same for a station whose key is printed anew. */
  function ErasedFrom(t: Table, s: Station, size: nat): Table
    requires size > 0 && s.dev < |t.busy|
  {
    Erased(t, StationKey(s.test, s.dev, size), s.dev)
  }

  /** The loop of remove_all_sta with sta in hand, for at most the given number of rounds. */
  function Sweep(t: Table, sta: Option<Station>, test: uint32, size: nat, rounds: nat): Status
    requires size > 0
    decreases rounds
  {
    if sta.None? then Reached(t, false)
    else if rounds == 0 || sta.value.dev >= |t.busy| then Unfinished
    else
      var next := Next(t.entries, sta.value);
      if sta.value.test != test then Sweep(t, next, test, size, rounds - 1)
      else if next.None? then Reached(t, true)
      else Sweep(ErasedFrom(t, sta.value, size), next, test, size, rounds - 1)
  }

  /** remove_all_sta, with one round per entry. */
  function Swept(t: Table, test: uint32, size: nat): (r: Status)
    requires size > 0
    ensures r.Reached? ==> |r.t.busy| == |t.busy|
  {
    SweepKeepsDevices(t, First(t.entries), test, size, |t.entries|);
    Sweep(t, First(t.entries), test, size, |t.entries|)
  }

  lemma {:induction false} SweepKeepsDevices(t: Table, sta: Option<Station>, test: uint32, size: nat, rounds: nat)
    requires size > 0
    ensures var r := Sweep(t, sta, test, size, rounds); r.Reached? ==> |r.t.busy| == |t.busy|
    decreases rounds
  {
    if sta.Some? && rounds > 0 && sta.value.dev < |t.busy| {
      var next := Next(t.entries, sta.value);
      SweepKeepsDevices(t, next, test, size, rounds - 1);
      SweepKeepsDevices(ErasedFrom(t, sta.value, size), next, test, size, rounds - 1);
    }
  }

  /** The entries of other tests, in their order. */
  function Kept(entries: seq<Entry<Station>>, test: uint32): seq<Entry<Station>> {
    if entries == [] then []
    else
      var last := |entries| - 1;
      Kept(entries[..last], test) + if entries[last].value.test == test then [] else [entries[last]]
  }

  /** The devices in use once those of the test's stations are free. */
  function Freed(busy: seq<bool>, entries: seq<Entry<Station>>, test: uint32): (r: seq<bool>)
    ensures |r| == |busy|
  {
    if entries == [] then busy
    else
      var last := |entries| - 1;
      var r := Freed(busy, entries[..last], test);
      var s := entries[last].value;
      if s.test == test && s.dev < |r| then r[s.dev := false] else r
  }

  /** The table once the n newest entries have been dealt with as the sweep intends. */
  function SweptTo(t: Table, test: uint32, n: nat): Table
    requires n <= |t.entries|
  {
    Table(Freed(t.busy, t.entries[..n], test), Kept(t.entries[..n], test) + t.entries[n..])
  }

  predicate OldestIsOf(t: Table, test: uint32) {
    t.entries != [] && t.entries[|t.entries| - 1].value.test == test
  }

  /** How many entries are dealt with when the sweep ends. */
  function Rounds(t: Table, test: uint32): (n: nat)
    ensures n <= |t.entries|
  {
    if OldestIsOf(t, test) then |t.entries| - 1 else |t.entries|
  }

  /** How the sweep is meant to end. */
  function SweepEnd(t: Table, test: uint32): Status {
    Reached(SweptTo(t, test, Rounds(t, test)), OldestIsOf(t, test))
  }

  /** A key made for the test leaves off within the test id, and the key of s starts alike. */
  predicate TestResembles(s: Station, test: uint32, size: nat)
    requires size > 0
  {
    |FormatD(test)| + 1 >= size && s.test != test && Stored(FormatD(test), size) <= FormatD(s.test)
  }

  predicate NoneNewer(t: Table, test: uint32, size: nat, n: nat)
    requires size > 0 && n <= |t.entries|
  {
    forall i :: 0 <= i < n ==> !TestResembles(t.entries[i].value, test, size)
  }

  /** No station the first n rounds remove has a newer one of another test that its key matches. */
  predicate ClearTo(t: Table, test: uint32, size: nat, n: nat)
    requires size > 0 && n <= |t.entries|
  {
    forall j :: 0 <= j < n && t.entries[j].value.test == test ==> NoneNewer(t, test, size, j)
  }

  predicate Clear(t: Table, test: uint32, size: nat)
    requires size > 0
  {
    ClearTo(t, test, size, Rounds(t, test))
  }

  // ---------- The walk, whatever the keys remove ----------

  /** The station the walk has in hand once n entries have been dealt with. */
  function At(t: Table, n: nat): Option<Station> {
    if n < |t.entries| then Some(t.entries[n].value) else None
  }

  ghost predicate Tidy(t: Table) {
    && |t.entries| < TWO_TO_THE_32
    && DistinctDevs(t.entries)
    && (forall i :: 0 <= i < |t.entries| ==> t.entries[i].value.dev < |t.busy|)
  }

  /** Of the n newest entries k are left, the older ones are untouched. */
  ghost predicate Along(t: Table, now: Table, n: nat, k: nat) {
    && k <= n <= |t.entries| < TWO_TO_THE_32
    && k <= |now.entries| && now.entries[k..] == t.entries[n..]
    && Tidy(now)
  }

  /** Among the k newest entries is one whose device was set free. */
  ghost predicate Spoiled(now: Table, k: int) {
    exists i :: 0 <= i < k <= |now.entries| && now.entries[i].value.dev < |now.busy|
        && !now.busy[now.entries[i].value.dev]
  }

  lemma WalkAdvances(t: Table, now: Table, n: nat, k: nat)
    requires Along(t, now, n, k) && n < |t.entries|
    ensures k < |now.entries| && now.entries[k] == t.entries[n]
    ensures now.entries[k + 1..] == t.entries[n + 1..]
    ensures FirstHolding(now.entries, t.entries[n].value) == k
    ensures Next(now.entries, t.entries[n].value) == At(t, n + 1)
  {
    assert now.entries[k..][0] == now.entries[k];
    assert FirstHolding(now.entries, t.entries[n].value) == k by {
      assert forall j :: 0 <= j < k ==> now.entries[j].value.dev != now.entries[k].value.dev;
    }
    NextOf(now.entries, t.entries[n].value);
    if n + 1 < |t.entries| {
      assert now.entries[k..][1] == t.entries[n..][1];
    }
  }

  lemma WalkSkips(t: Table, now: Table, n: nat, k: nat)
    requires Along(t, now, n, k) && n < |t.entries|
    ensures Along(t, now, n + 1, k + 1)
    ensures Spoiled(now, k) ==> Spoiled(now, k + 1)
  {
    WalkAdvances(t, now, n, k);
  }

  lemma OneLess(entries: seq<Entry<Station>>, f: nat, k: nat)
    requires f <= k < |entries| && DistinctDevs(entries)
    ensures var entries' := Without(entries, f);
            && DistinctDevs(entries')
            && entries'[k..] == entries[k + 1..]
            && (forall i :: 0 <= i < f ==> entries'[i] == entries[i])
            && (forall i :: f <= i < |entries'| ==> entries'[i] == entries[i + 1])
  {
    DevsWithout(entries, f);
  }

  /** A device set free stays so; a station that loses its device but not its entry is one more. */
  lemma FreedStayFree(now: Table, f: nat, k: nat)
    requires f <= k < |now.entries| && DistinctDevs(now.entries)
    requires now.entries[k].value.dev < |now.busy|
    ensures var now' := Table(now.busy[now.entries[k].value.dev := false], Without(now.entries, f));
            f < k || Spoiled(now, k) ==> Spoiled(now', k)
  {
    OneLess(now.entries, f, k);
    var now' := Table(now.busy[now.entries[k].value.dev := false], Without(now.entries, f));
    if f < k {
      assert now'.entries[k - 1] == now.entries[k];
    } else if Spoiled(now, k) {
      var i :| 0 <= i < k && now.entries[i].value.dev < |now.busy| && !now.busy[now.entries[i].value.dev];
      assert now'.entries[i] == now.entries[i];
    }
  }

  /** No newer entry's key starts with that of entry k. */
  ghost predicate FoundAt(entries: seq<Entry<Station>>, k: nat)
    requires k < |entries|
  {
    forall i :: 0 <= i < k ==> !Matches(entries[i].key, entries[k].key)
  }

  /** The key finds the station in hand, or a newer one. */
  lemma WalkErases(t: Table, now: Table, n: nat, k: nat)
    requires Along(t, now, n, k) && n < |t.entries|
    ensures k < |now.entries| && now.entries[k] == t.entries[n] && t.entries[n].value.dev < |now.busy|
    ensures var now' := Erased(now, t.entries[n].key, t.entries[n].value.dev);
            && Along(t, now', n + 1, k)
            && (Spoiled(now, k) ==> Spoiled(now', k))
            && (if FoundAt(now.entries, k) then now' == WithoutEntry(now, k) else Spoiled(now', k))
  {
    WalkAdvances(t, now, n, k);
    var f := FirstMatch(now.entries, t.entries[n].key);
    assert f <= k && (f == k <==> FoundAt(now.entries, k));
    OneLess(now.entries, f, k);
    FreedStayFree(now, f, k);
  }

  /** The table after n rounds, whatever the keys remove. */
  function After(t: Table, test: uint32, n: nat): Table
    requires n <= |t.entries|
  {
    if n == 0 then t
    else
      var now, e := After(t, test, n - 1), t.entries[n - 1];
      if e.value.test == test && e.value.dev < |now.busy| then Erased(now, e.key, e.value.dev) else now
  }

  /** How many of the n newest entries are then left. */
  function Left(t: Table, now: Table, n: nat): int {
    |now.entries| - (|t.entries| - n)
  }

  lemma AlongNext(t: Table, test: uint32, n: nat)
    requires n < |t.entries|
    requires var now := After(t, test, n); Left(t, now, n) >= 0 && Along(t, now, n, Left(t, now, n))
    ensures var now := After(t, test, n + 1); Left(t, now, n + 1) >= 0 && Along(t, now, n + 1, Left(t, now, n + 1))
  {
    var now := After(t, test, n);
    var k := Left(t, now, n);
    if t.entries[n].value.test == test {
      WalkErases(t, now, n, k);
    } else {
      WalkSkips(t, now, n, k);
    }
  }

  lemma {:induction false} AlongAfter(t: Table, test: uint32, n: nat)
    requires Tidy(t) && n <= |t.entries|
    ensures var now := After(t, test, n); Left(t, now, n) >= 0 && Along(t, now, n, Left(t, now, n))
  {
    if n > 0 {
      AlongAfter(t, test, n - 1);
      AlongNext(t, test, n - 1);
    }
  }

  lemma SpoiledIsUnsound(now: Table, k: nat, size: nat)
    requires size > 0 && Spoiled(now, k)
    ensures !Sound(now, size)
  {
    var i :| 0 <= i < k && now.entries[i].value.dev < |now.busy| && !now.busy[now.entries[i].value.dev];
    assert now.entries[i].value.dev as nat in Devs(now.entries);
  }

  // ---------- The walk as long as the keys remove what they should ----------

  lemma {:induction false} KeptAreOthers(entries: seq<Entry<Station>>, test: uint32)
    ensures forall e :: e in Kept(entries, test) <==> e in entries && e.value.test != test
    ensures |Kept(entries, test)| <= |entries|
  {
    if entries != [] {
      var last := |entries| - 1;
      KeptAreOthers(entries[..last], test);
      assert entries == entries[..last] + [entries[last]];
    }
  }

  /** An entry of another test stays where it is. */
  lemma SweepSkips(t: Table, test: uint32, n: nat)
    requires n < |t.entries| && t.entries[n].value.test != test
    ensures SweptTo(t, test, n + 1) == SweptTo(t, test, n)
    ensures |Kept(t.entries[..n + 1], test)| == |Kept(t.entries[..n], test)| + 1
  {
    assert t.entries[..n + 1][..n] == t.entries[..n];
    assert Kept(t.entries[..n], test) + [t.entries[n]] + t.entries[n + 1..]
        == Kept(t.entries[..n], test) + t.entries[n..];
  }

  /** An entry of the test goes, and its device with it. */
  lemma SweepRemoves(t: Table, test: uint32, n: nat)
    requires n < |t.entries| && t.entries[n].value.test == test && t.entries[n].value.dev < |t.busy|
    ensures var k := |Kept(t.entries[..n], test)|;
            && SweptTo(t, test, n + 1) == WithoutEntry(SweptTo(t, test, n), k)
            && |Kept(t.entries[..n + 1], test)| == k
  {
    var k := |Kept(t.entries[..n], test)|;
    assert t.entries[..n + 1][..n] == t.entries[..n];
    assert SweptTo(t, test, n).entries[k] == t.entries[n];
    assert SweptTo(t, test, n + 1).entries == Without(SweptTo(t, test, n).entries, k);
  }

  /** What the sweep is meant to do, completed or cut off, keeps the table sound and gives no lost device back. */
  lemma {:induction false} SweptToKeepsSound(t: Table, test: uint32, n: nat, size: nat)
    requires size > 0 && Sound(t, size) && n <= |t.entries|
    ensures Sound(SweptTo(t, test, n), size)
    ensures Leaked(SweptTo(t, test, n)) == Leaked(t)
  {
    if n == 0 {
      assert SweptTo(t, test, 0) == t by { assert t.entries[..0] == [] && t.entries[0..] == t.entries; }
    } else {
      SweptToKeepsSound(t, test, n - 1, size);
      if t.entries[n - 1].value.test == test {
        assert t.entries[n - 1].value.dev as nat in Devs(t.entries);
        SweepRemoves(t, test, n - 1);
        WithoutEntryKeepsSound(SweptTo(t, test, n - 1), |Kept(t.entries[..n - 1], test)|, size);
      } else {
        SweepSkips(t, test, n - 1);
      }
    }
  }

  lemma LeftAreKept(t: Table, test: uint32, n: nat)
    requires n <= |t.entries|
    ensures Left(t, SweptTo(t, test, n), n) == |Kept(t.entries[..n], test)|
  {
  }

  /** Entry n is the newest of those its key matches, of all entries of other tests. */
  ghost predicate NoneBefore(t: Table, test: uint32, n: nat)
    requires n < |t.entries|
  {
    forall i :: 0 <= i < n && t.entries[i].value.test != test ==> !Matches(t.entries[i].key, t.entries[n].key)
  }

  ghost predicate UnspoiltTo(t: Table, test: uint32, n: nat)
    requires n <= |t.entries|
  {
    forall j :: 0 <= j < n && t.entries[j].value.test == test ==> NoneBefore(t, test, j)
  }

  lemma FoundAmongKeptIff(t: Table, now: Table, test: uint32, n: nat)
    requires n < |t.entries| && now == SweptTo(t, test, n)
    ensures var k := |Kept(t.entries[..n], test)|;
            && k < |now.entries| && now.entries[k] == t.entries[n]
            && (FoundAt(now.entries, k) <==> NoneBefore(t, test, n))
  {
    var kept, k := Kept(t.entries[..n], test), |Kept(t.entries[..n], test)|;
    KeptAreOthers(t.entries[..n], test);
    forall i | 0 <= i < k ensures kept[i] == now.entries[i] && kept[i] in t.entries[..n] && kept[i].value.test != test {
      assert kept[i] in kept;
    }
    forall i | 0 <= i < n && t.entries[i].value.test != test ensures t.entries[i] in kept {
      assert t.entries[..n][i] == t.entries[i];
    }
  }

  ghost predicate AsMeantIff(t: Table, test: uint32, n: nat)
    requires n <= |t.entries|
  {
    var now := After(t, test, n);
    if UnspoiltTo(t, test, n) then now == SweptTo(t, test, n) else Spoiled(now, Left(t, now, n))
  }

  lemma AsMeantNext(t: Table, test: uint32, n: nat)
    requires Tidy(t) && n < |t.entries| && AsMeantIff(t, test, n)
    ensures AsMeantIff(t, test, n + 1)
  {
    var now := After(t, test, n);
    var k := Left(t, now, n);
    AlongAfter(t, test, n);
    LeftAreKept(t, test, n);
    assert UnspoiltTo(t, test, n + 1)
      <==> UnspoiltTo(t, test, n) && (t.entries[n].value.test == test ==> NoneBefore(t, test, n));
    if t.entries[n].value.test == test {
      WalkErases(t, now, n, k);
      if UnspoiltTo(t, test, n) {
        FoundAmongKeptIff(t, now, test, n);
        SweepRemoves(t, test, n);
      }
    } else {
      WalkSkips(t, now, n, k);
      if UnspoiltTo(t, test, n) { SweepSkips(t, test, n); }
    }
  }

  lemma AsMeantAtStart(t: Table, test: uint32)
    ensures AsMeantIff(t, test, 0)
  {
    assert t.entries[..0] == [] && t.entries[0..] == t.entries;
  }

  /**
   After every round: as intended if no key found another test's station; otherwise one is left whose
   device is free.
   */
  lemma {:induction false} AsMeantUpTo(t: Table, test: uint32, n: nat)
    requires Tidy(t) && n <= |t.entries|
    ensures AsMeantIff(t, test, n)
  {
    if n == 0 {
      AsMeantAtStart(t, test);
    } else {
      AsMeantUpTo(t, test, n - 1);
      AsMeantNext(t, test, n - 1);
    }
  }

  // ---------- The whole sweep ----------

  lemma SoundIsTidy(t: Table, size: nat)
    requires size > 0 && Sound(t, size)
    ensures Tidy(t)
  {
    FewerStationsThanDevices(t, size);
    forall i | 0 <= i < |t.entries| ensures t.entries[i].value.dev < |t.busy| {
      assert t.entries[i].value.dev as nat in Devs(t.entries);
    }
  }

  lemma SweepGoesOn(now: Table, sta: Option<Station>, test: uint32, size: nat, rounds: nat)
    requires size > 0 && rounds > 0 && sta.Some? && sta.value.dev < |now.busy|
    ensures var next, mine := Next(now.entries, sta.value), sta.value.test == test;
            Sweep(now, sta, test, size, rounds)
            == if mine && next.None? then Reached(now, true)
               else Sweep(if mine then ErasedFrom(now, sta.value, size) else now, next, test, size, rounds - 1)
  {
  }

  /** Round n: either the last one, in which NULL is dereferenced, or on to the next entry. */
  lemma AfterRound(t: Table, test: uint32, n: nat, size: nat)
    requires size > 0 && WellFiled(t.entries, size) && Tidy(t) && n < |t.entries|
    ensures var now, s := After(t, test, n), t.entries[n].value;
            && s.dev < |now.busy|
            && Next(now.entries, s) == At(t, n + 1)
            && (n == Rounds(t, test) <==> s.test == test && At(t, n + 1).None?)
            && After(t, test, n + 1) == if s.test == test then ErasedFrom(now, s, size) else now
  {
    var now := After(t, test, n);
    AlongAfter(t, test, n);
    WalkErases(t, now, n, Left(t, now, n));
    WalkAdvances(t, now, n, Left(t, now, n));
  }

  /** What is left of the loop after n rounds. */
  function Rest(t: Table, test: uint32, n: nat, size: nat): Status
    requires size > 0 && n <= |t.entries|
  {
    Sweep(After(t, test, n), At(t, n), test, size, |t.entries| - n)
  }

  lemma RestNext(t: Table, test: uint32, n: nat, size: nat)
    requires size > 0 && WellFiled(t.entries, size) && Tidy(t) && n < |t.entries|
    ensures Rest(t, test, n, size) == if n == Rounds(t, test)
            then Reached(After(t, test, n), true) else Rest(t, test, n + 1, size)
  {
    AfterRound(t, test, n, size);
    SweepGoesOn(After(t, test, n), At(t, n), test, size, |t.entries| - n);
  }

  lemma RestChain(t: Table, test: uint32, size: nat, n: nat)
    requires size > 0 && n <= |t.entries|
    requires forall i: nat :: i < n ==> Rest(t, test, i, size) == Rest(t, test, i + 1, size)
    ensures Rest(t, test, 0, size) == Rest(t, test, n, size)
  {
    Chain((i: nat) => if i <= |t.entries| then Rest(t, test, i, size) else Unfinished, n);
  }

  lemma RestIsTheSame(t: Table, test: uint32, size: nat)
    requires size > 0 && WellFiled(t.entries, size) && Tidy(t)
    ensures Rest(t, test, 0, size) == Rest(t, test, Rounds(t, test), size)
  {
    forall i: nat | i < Rounds(t, test) ensures Rest(t, test, i, size) == Rest(t, test, i + 1, size) {
      RestNext(t, test, i, size);
    }
    RestChain(t, test, size, Rounds(t, test));
  }

  /** The loop always ends, by NULL exactly when the oldest station is the test's. */
  lemma LoopEnds(t: Table, test: uint32, size: nat)
    requires size > 0 && Sound(t, size)
    ensures Swept(t, test, size) == Reached(After(t, test, Rounds(t, test)), OldestIsOf(t, test))
  {
    SoundIsTidy(t, size);
    RestIsTheSame(t, test, size);
    if OldestIsOf(t, test) { RestNext(t, test, |t.entries| - 1, size); }
    assert First(t.entries) == At(t, 0);
  }

  /** Which newer station of another test can the key of the one in hand be taken for? */
  lemma NoneBeforeIff(t: Table, test: uint32, n: nat, size: nat)
    requires size > 0 && WellFiled(t.entries, size) && n < |t.entries| && t.entries[n].value.test == test
    ensures NoneBefore(t, test, n) <==> NoneNewer(t, test, size, n)
  {
    var s := t.entries[n].value;
    assert t.entries[n] == Filed(s.test, s.dev, size);
    forall i | 0 <= i < n && t.entries[i].value.test != test
      ensures Matches(t.entries[i].key, t.entries[n].key) <==> TestResembles(t.entries[i].value, test, size)
    {
      KeyMatchesIff(t.entries, s, size, i);
    }
  }

  lemma UnspoiltIffClear(t: Table, test: uint32, n: nat, size: nat)
    requires size > 0 && WellFiled(t.entries, size) && n <= |t.entries|
    ensures UnspoiltTo(t, test, n) <==> ClearTo(t, test, size, n)
  {
    forall j | 0 <= j < n && t.entries[j].value.test == test
      ensures NoneBefore(t, test, j) <==> NoneNewer(t, test, size, j)
    {
      NoneBeforeIff(t, test, j, size);
    }
  }

  /**
   From a sound table the sweep always ends; in a dereference of NULL exactly when the oldest
   station on file is one of the test's. It does what it is meant to exactly when it is clear,
   and leaves a sound table exactly then.
   */
  lemma SweepIsExactIff(t: Table, test: uint32, size: nat)
    requires size > 0 && Sound(t, size)
    ensures var r := Swept(t, test, size);
            && r.Reached?
            && (r.crashed <==> OldestIsOf(t, test))
            && (r == SweepEnd(t, test) <==> Clear(t, test, size))
            && (Sound(r.t, size) <==> Clear(t, test, size))
            && (Clear(t, test, size) ==> Leaked(r.t) == Leaked(t))
  {
    var n := Rounds(t, test);
    var now := After(t, test, n);
    SoundIsTidy(t, size);
    LoopEnds(t, test, size);
    AlongAfter(t, test, n);
    AsMeantUpTo(t, test, n);
    UnspoiltIffClear(t, test, n, size);
    SweptToKeepsSound(t, test, n, size);
    if !Clear(t, test, size) { SpoiledIsUnsound(now, Left(t, now, n), size); }
  }

  /** A completed sweep frees exactly the devices of the test's stations. */
  lemma {:induction false} SweptMeans(t: Table, test: uint32, n: nat)
    requires n <= |t.entries| && Devs(t.entries) <= InUse(t.busy)
    ensures InUse(SweptTo(t, test, n).busy)
         == InUse(t.busy) - (set i | 0 <= i < n && t.entries[i].value.test == test :: t.entries[i].value.dev as nat)
  {
    if n == 0 {
      assert t.entries[..0] == [];
    } else {
      SweptMeans(t, test, n - 1);
      assert t.entries[..n][..n - 1] == t.entries[..n - 1];
      var r := Freed(t.busy, t.entries[..n - 1], test);
      var dev := t.entries[n - 1].value.dev;
      assert dev as nat in Devs(t.entries);
      assert InUse(r[dev := false]) == InUse(r) - {dev as nat};
    }
  }

  /** One station of the test: its device is set free, then the key is printed anew and looked up. */
  method Erase(m: StationManager, s: Station)
    requires m.Valid() && s.dev < m.count
    modifies m.staMap.queue.Repr, m.infos
    ensures m.Valid() && m.staMap.queue.Repr == old(m.staMap.queue.Repr)
    ensures m.State() == ErasedFrom(old(m.State()), s, m.keySize)
  {
    var key := m.PrintKey(s.dev, s.test);
    m.SetDev(s.dev, false);
    m.Forget(key);
  }

  /**
   One round of the loop: tmp is the station in hand, next the one the walk goes on to. The device
   information of a station removed is looked up under next, which is where NULL is dereferenced.
   */
  method Round(m: StationManager, tmp: Station, test: uint32) returns (next: Option<Station>, crashed: bool)
    requires m.Valid() && tmp.dev < m.count
    modifies m.staMap.queue.Repr, m.infos
    ensures m.Valid() && m.staMap.queue.Repr == old(m.staMap.queue.Repr)
    ensures next == Next(old(m.State()).entries, tmp)
    ensures crashed <==> tmp.test == test && next.None?
    ensures m.State() == if tmp.test == test && !crashed
            then ErasedFrom(old(m.State()), tmp, m.keySize) else old(m.State())
  {
    crashed := false;
    next := m.staMap.GetNext(tmp);
    if tmp.test == test {
      if next.None? {
        return next, true;
      }
      Erase(m, tmp);
    }
  }

  /**
   From a sound table: the sweep ends in a dereference of NULL exactly when the oldest station on
   file is one of the test's. Exactly when the sweep is clear, all of the test's stations but that
   one are gone, each removed by its own key, no other is touched, and the table is sound.
   */
  method RemoveAllSta(m: StationManager, test: uint32) returns (crashed: bool)
    requires m.Valid() && Sound(m.State(), m.keySize)
    modifies m.staMap.queue.Repr, m.infos
    ensures m.Valid() && m.staMap.queue.Repr == old(m.staMap.queue.Repr)
    ensures Reached(m.State(), crashed) == Swept(old(m.State()), test, m.keySize)
    ensures crashed <==> OldestIsOf(old(m.State()), test)
    ensures Reached(m.State(), crashed) == SweepEnd(old(m.State()), test) <==> Clear(old(m.State()), test, m.keySize)
    ensures Sound(m.State(), m.keySize) <==> Clear(old(m.State()), test, m.keySize)
  {
    SweepIsExactIff(m.State(), test, m.keySize);
    LoopEnds(m.State(), test, m.keySize);
    ghost var end := Swept(m.State(), test, m.keySize);
    crashed := SweepLoop(m, test);
    assert end == Reached(m.State(), crashed);
  }

  /** The round that deals with entry n of t, now being what the earlier ones have left. */
  method RoundAt(m: StationManager, tmp: Station, test: uint32, ghost t: Table, ghost n: nat, ghost now: Table)
    returns (next: Option<Station>, crashed: bool, ghost now': Table)
    requires m.Valid() && Sound(t, m.keySize) && n < |t.entries|
    requires m.State() == now && now == After(t, test, n) && tmp == t.entries[n].value
    modifies m.staMap.queue.Repr, m.infos
    ensures m.Valid() && m.staMap.queue.Repr == old(m.staMap.queue.Repr)
    ensures crashed <==> n == Rounds(t, test)
    ensures m.State() == now' && now' == After(t, test, if crashed then n else n + 1)
    ensures !crashed ==> next == At(t, n + 1)
  {
    SoundIsTidy(t, m.keySize);
    AfterRound(t, test, n, m.keySize);
    next, crashed := Round(m, tmp, test);
    now' := m.State();
  }

  method SweepLoop(m: StationManager, test: uint32) returns (crashed: bool)
    requires m.Valid() && Sound(m.State(), m.keySize)
    modifies m.staMap.queue.Repr, m.infos
    ensures m.Valid() && m.staMap.queue.Repr == old(m.staMap.queue.Repr)
    ensures var t := old(m.State()); crashed == OldestIsOf(t, test) && m.State() == After(t, test, Rounds(t, test))
  {
    ghost var t, now, n := m.State(), m.State(), 0;
    SoundIsTidy(t, m.keySize);
    var sta := m.staMap.GetFirst();
    while sta.Some?
      invariant m.Valid() && m.staMap.queue.Repr == old(m.staMap.queue.Repr)
      invariant m.State() == now
      invariant n <= Rounds(t, test) && now == After(t, test, n) && sta == At(t, n)
      decreases |t.entries| - n
    {
      sta, crashed, now := RoundAt(m, sta.value, test, t, n, now);
      if crashed {
        return true;
      }
      n := n + 1;
    }
    assert n == Rounds(t, test);
    return false;
  }
}
