/**
 What every operation keeps of the station table: which devices are occupied, which
 are lost, and when a key removes the station it was made for.
 */
module StationTable {
  import opened Collection
  import opened Decimal
  import opened Keys
  import opened HashMap
  import opened Stations

  // ---------- Devices as sets ----------

  function InUse(busy: seq<bool>): set<nat> {
    set d | 0 <= d < |busy| && busy[d]
  }

  function Devs(entries: seq<Entry<Station>>): set<nat> {
    set i | 0 <= i < |entries| :: entries[i].value.dev
  }

  function DevSet(devs: seq<uint32>): set<nat> {
    set i | 0 <= i < |devs| :: devs[i]
  }

  ghost predicate DistinctDevs(entries: seq<Entry<Station>>) {
    forall i, j :: 0 <= i < j < |entries| ==> entries[i].value.dev != entries[j].value.dev
  }

  lemma DevsCons(e: Entry<Station>, entries: seq<Entry<Station>>)
    ensures Devs([e] + entries) == {e.value.dev as nat} + Devs(entries)
    ensures DistinctDevs(entries) && e.value.dev !in Devs(entries) ==> DistinctDevs([e] + entries)
  {
    var s := [e] + entries;
    assert s[0] == e && s[1..] == entries;
    forall d | d in Devs(entries) ensures d in Devs(s) {
      var i :| 0 <= i < |entries| && entries[i].value.dev == d;
      assert s[i + 1].value.dev == d;
    }
  }

  lemma DevsWithout(entries: seq<Entry<Station>>, f: nat)
    requires f < |entries| && DistinctDevs(entries)
    ensures Devs(Without(entries, f)) == Devs(entries) - {entries[f].value.dev as nat}
    ensures DistinctDevs(Without(entries, f))
  {
    var s := Without(entries, f);
    forall d | d in Devs(entries) && d != entries[f].value.dev ensures d in Devs(s) {
      var i :| 0 <= i < |entries| && entries[i].value.dev == d;
      assert s[if i < f then i else i - 1].value.dev == d;
    }
  }

  lemma DevSetCons(devs: seq<uint32>)
    requires devs != []
    ensures DevSet(devs) == {devs[0] as nat} + DevSet(devs[1..])
  {
    forall d | d in DevSet(devs) ensures d in {devs[0] as nat} + DevSet(devs[1..]) {
      var i :| 0 <= i < |devs| && devs[i] == d;
      assert i > 0 ==> devs[1..][i - 1] == d;
    }
    assert forall i :: 0 <= i < |devs[1..]| ==> devs[1..][i] == devs[i + 1];
  }

  lemma {:induction false} DevsCount(entries: seq<Entry<Station>>)
    requires DistinctDevs(entries)
    ensures |Devs(entries)| == |entries|
  {
    if entries != [] {
      DevsCount(entries[1..]);
      assert entries == [entries[0]] + entries[1..];
      DevsCons(entries[0], entries[1..]);
    }
  }

  lemma {:induction false} InUseCount(busy: seq<bool>)
    ensures |InUse(busy)| <= |busy|
  {
    if busy != [] {
      var n := |busy| - 1;
      InUseCount(busy[..n]);
      assert InUse(busy) == InUse(busy[..n]) + if busy[n] then {n} else {};
    }
  }

  lemma {:induction false} SubsetCount(a: set<nat>, b: set<nat>)
    requires a <= b
    ensures |a| <= |b|
  {
    if a != {} {
      var x :| x in a;
      SubsetCount(a - {x}, b - {x});
    }
  }

  // ---------- The invariant ----------

  ghost predicate WellFiled(entries: seq<Entry<Station>>, size: nat)
    requires size > 0
  {
    forall i :: 0 <= i < |entries| ==> entries[i] == Filed(entries[i].value.test, entries[i].value.dev, size)
  }

  /** Every station on file is filed under its own key and has a device of its own, in use. */
  ghost predicate Sound(t: Table, size: nat)
    requires size > 0
  {
    && |t.busy| < TWO_TO_THE_32
    && WellFiled(t.entries, size)
    && DistinctDevs(t.entries)
    && Devs(t.entries) <= InUse(t.busy)
  }

  /** Devices in use without a station on file. */
  function Leaked(t: Table): set<nat> {
    InUse(t.busy) - Devs(t.entries)
  }

  /** No more stations than devices, so lookups see the whole map. */
  lemma FewerStationsThanDevices(t: Table, size: nat)
    requires size > 0 && Sound(t, size)
    ensures |t.entries| <= |t.busy|
  {
    DevsCount(t.entries);
    InUseCount(t.busy);
    SubsetCount(Devs(t.entries), InUse(t.busy));
  }

  /** The table without its i-th entry, whose device is free again; the same table past the end. */
  function WithoutEntry(t: Table, i: nat): Table {
    if i < |t.entries| && t.entries[i].value.dev < |t.busy|
    then Table(t.busy[t.entries[i].value.dev := false], Without(t.entries, i))
    else t
  }

  lemma WithoutEntryKeepsSound(t: Table, i: nat, size: nat)
    requires size > 0 && Sound(t, size)
    ensures Sound(WithoutEntry(t, i), size)
    ensures Leaked(WithoutEntry(t, i)) == Leaked(t)
  {
    if i < |t.entries| {
      DevsWithout(t.entries, i);
      var dev := t.entries[i].value.dev;
      assert dev as nat in Devs(t.entries);
      assert InUse(t.busy[dev := false]) == InUse(t.busy) - {dev as nat};
    }
  }

  lemma DroppedKeepsSound(t: Table, key: string, size: nat)
    requires size > 0 && Sound(t, size)
    ensures Sound(Dropped(t, key), size)
    ensures Leaked(Dropped(t, key)) == Leaked(t)
  {
    FewerStationsThanDevices(t, size);
    var f := FirstMatch(t.entries, key);
    WithoutEntryKeepsSound(t, f, size);
    assert Dropped(t, key) == t || Dropped(t, key) == WithoutEntry(t, f);
  }

  lemma AddedKeepsSound(t: Table, test: uint32, connected: bool, size: nat)
    requires size > 0 && Sound(t, size)
    ensures Sound(Added(t, test, connected, size), size)
    ensures Leaked(Added(t, test, connected, size)) == Leaked(t)
  {
    var dev := FirstFree(t.busy);
    if dev < |t.busy| && connected {
      DevsCons(Filed(test, dev, size), t.entries);
      assert InUse(t.busy[dev := true]) == InUse(t.busy) + {dev};
    }
  }

  // ---------- The gateway's two phases ----------

  lemma {:induction false} ClaimedDevices(busy: seq<bool>, clients: seq<Client>, devs: seq<uint32>)
    requires |busy| < TWO_TO_THE_32
    ensures var c := Claimed(busy, clients, devs);
            var more := c.devs[|devs|..];
            && InUse(c.busy) == InUse(busy) + DevSet(more)
            && InUse(busy) !! DevSet(more)
            && (forall i, j :: 0 <= i < j < |more| ==> more[i] != more[j])
    decreases |clients|
  {
    var dev := FirstFree(busy);
    var more := Claimed(busy, clients, devs).devs[|devs|..];
    if clients != [] && dev < |busy| {
      var busy' := busy[dev := true];
      assert InUse(busy') == InUse(busy) + {dev};
      if clients[0].prepared {
        ClaimedDevices(busy', clients[1..], devs + [dev]);
        assert more[0] == dev && more[1..] == Claimed(busy', clients[1..], devs + [dev]).devs[|devs| + 1..];
      } else {
        assert more == [dev];
      }
      DevSetCons(more);
      forall i | 1 <= i < |more| ensures more[i] as nat in DevSet(more[1..]) {
        assert more[1..][i - 1] == more[i];
      }
    }
  }

  ghost predicate AllConnect(clients: seq<Client>) {
    forall i :: 0 <= i < |clients| ==> clients[i].outcome == Connects
  }

  /** Phase 2 has filed stations of these devices only, and of all of them if so told. */
  ghost predicate FiledOnly(entries: seq<Entry<Station>>, devs: set<nat>, entries': seq<Entry<Station>>, all: bool,
                            size: nat)
    requires size > 0
  {
    && WellFiled(entries', size) && DistinctDevs(entries')
    && Devs(entries) <= Devs(entries') <= Devs(entries) + devs
    && (devs <= Devs(entries') <==> all)
  }

  lemma FiledFirst(entries: seq<Entry<Station>>, prepared: seq<Entry<Station>>, entries': seq<Entry<Station>>,
                   all: bool, size: nat)
    requires size > 0 && prepared != [] && DistinctDevs(prepared) && Devs(entries) !! Devs(prepared)
    requires FiledOnly([prepared[0]] + entries, Devs(prepared[1..]), entries', all, size)
    ensures FiledOnly(entries, Devs(prepared), entries', all, size)
  {
    assert prepared == [prepared[0]] + prepared[1..];
    DevsCons(prepared[0], prepared[1..]);
    DevsCons(prepared[0], entries);
  }

  lemma SkippedFirst(entries: seq<Entry<Station>>, prepared: seq<Entry<Station>>, entries': seq<Entry<Station>>,
                     all: bool, size: nat)
    requires size > 0 && prepared != [] && DistinctDevs(prepared) && Devs(entries) !! Devs(prepared)
    requires FiledOnly(entries, Devs(prepared[1..]), entries', all, size)
    ensures FiledOnly(entries, Devs(prepared), entries', false, size)
  {
    var dev := prepared[0].value.dev as nat;
    assert prepared == [prepared[0]] + prepared[1..];
    DevsCons(prepared[0], prepared[1..]);
    assert dev in Devs(prepared) && dev !in Devs(prepared[1..]);
    assert dev !in Devs(entries');
  }

  lemma FirstIsApart(entries: seq<Entry<Station>>, prepared: seq<Entry<Station>>, size: nat)
    requires size > 0 && WellFiled(entries, size) && DistinctDevs(entries)
    requires prepared != [] && WellFiled(prepared, size) && DistinctDevs(prepared) && Devs(entries) !! Devs(prepared)
    ensures WellFiled(prepared[1..], size) && DistinctDevs(prepared[1..])
    ensures WellFiled([prepared[0]] + entries, size) && DistinctDevs([prepared[0]] + entries)
    ensures Devs([prepared[0]] + entries) !! Devs(prepared[1..]) && Devs(entries) !! Devs(prepared[1..])
  {
    var e, rest := prepared[0], prepared[1..];
    assert prepared == [e] + rest;
    DevsCons(e, rest);
    assert e.value.dev as nat in Devs(prepared);
    DevsCons(e, entries);
  }

  /** Phase 2 files prepared stations only, and all of them exactly when every client connects. */
  lemma {:induction false} ConnectedStations(entries: seq<Entry<Station>>, prepared: seq<Entry<Station>>,
                                             clients: seq<Client>, size: nat)
    requires size > 0 && WellFiled(entries, size) && DistinctDevs(entries)
    requires WellFiled(prepared, size) && DistinctDevs(prepared) && |prepared| == |clients|
    requires Devs(entries) !! Devs(prepared)
    ensures FiledOnly(entries, Devs(prepared), Connected(entries, prepared, clients), AllConnect(clients), size)
    decreases |clients|
  {
    if clients != [] {
      FirstIsApart(entries, prepared, size);
      var rest := prepared[1..];
      assert AllConnect(clients) <==> clients[0].outcome == Connects && AllConnect(clients[1..]);
      match clients[0].outcome
      case Connects =>
        var e := prepared[0];
        ConnectedStations([e] + entries, rest, clients[1..], size);
        FiledFirst(entries, prepared, Connected([e] + entries, rest, clients[1..]), AllConnect(clients), size);
      case Refused =>
        ConnectedStations(entries, rest, clients[1..], size);
        SkippedFirst(entries, prepared, Connected(entries, rest, clients[1..]), AllConnect(clients[1..]), size);
      case Aborts =>
        assert prepared[0].value.dev as nat in Devs(prepared);
    }
  }

  lemma PreparedDevs(test: uint32, devs: seq<uint32>, size: nat)
    requires size > 0 && forall i, j :: 0 <= i < j < |devs| ==> devs[i] != devs[j]
    ensures var prepared := Prepared(test, devs, size);
            WellFiled(prepared, size) && DistinctDevs(prepared) && Devs(prepared) == DevSet(devs)
  {
    var prepared := Prepared(test, devs, size);
    assert forall i :: 0 <= i < |devs| ==> prepared[i].value.dev == devs[i];
  }

  // ---------- What the gateway's add_sta loses, in counts ----------

  function Unused(busy: seq<bool>): set<nat> {
    set d | 0 <= d < |busy| && !busy[d]
  }

  predicate AllPrepared(clients: seq<Client>) {
    forall i :: 0 <= i < |clients| ==> clients[i].prepared
  }

  /** The clients up to and including the first that cannot be prepared. */
  function Tried(clients: seq<Client>): (n: nat)
    ensures n <= |clients|
  {
    if clients == [] then 0 else if !clients[0].prepared then 1 else 1 + Tried(clients[1..])
  }

  /** The clients that connect before one aborts. */
  function Connecting(clients: seq<Client>): (n: nat)
    ensures n <= |clients|
  {
    if clients == [] || clients[0].outcome == Aborts then 0
    else Connecting(clients[1..]) + if clients[0].outcome == Connects then 1 else 0
  }

  function Min(a: nat, b: nat): nat {
    if a < b then a else b
  }

  /** The devices that stay taken without a station: free ones and clients are all it depends on. */
  function Lost(free: nat, clients: seq<Client>): nat {
    if |clients| <= free && AllPrepared(clients) then |clients| - Connecting(clients) else Min(Tried(clients), free)
  }

  lemma {:induction false} ClaimedCount(busy: seq<bool>, clients: seq<Client>, devs: seq<uint32>)
    requires |busy| < TWO_TO_THE_32
    ensures var c, free := Claimed(busy, clients, devs), |Unused(busy)|;
            && (c.complete <==> |clients| <= free && AllPrepared(clients))
            && |c.devs| == |devs| + Min(Tried(clients), free)
    decreases |clients|
  {
    var dev := FirstFree(busy);
    if clients != [] && dev < |busy| {
      assert Unused(busy) == Unused(busy[dev := true]) + {dev};
      if clients[0].prepared {
        ClaimedCount(busy[dev := true], clients[1..], devs + [dev]);
        assert AllPrepared(clients) <==> AllPrepared(clients[1..]);
      }
    } else {
      assert dev == |busy| ==> Unused(busy) == {};
    }
  }

  lemma {:induction false} ConnectedCount(entries: seq<Entry<Station>>, prepared: seq<Entry<Station>>,
                                          clients: seq<Client>)
    requires |prepared| == |clients|
    ensures |Connected(entries, prepared, clients)| == |entries| + Connecting(clients)
    decreases |clients|
  {
    if clients != [] {
      ConnectedCount(entries, prepared[1..], clients[1..]);
      ConnectedCount([prepared[0]] + entries, prepared[1..], clients[1..]);
    }
  }

  // ---------- Which client gets which device, and which place on file ----------

  /** Taken from the least on, and none skipped: increasing, free before, and with every smaller free device. */
  ghost predicate LeastFree(busy: seq<bool>, devs: seq<uint32>) {
    && (forall i :: 0 <= i < |devs| ==> devs[i] < |busy| && !busy[devs[i]])
    && (forall i, j :: 0 <= i < j < |devs| ==> devs[i] < devs[j])
    && (forall d: uint32 :: devs != [] && d <= devs[|devs| - 1] && d < |busy| && !busy[d] ==> d in devs)
  }

  lemma FirstFreeIsBelow(busy: seq<bool>, d: nat)
    requires d < |busy| && !busy[d]
    ensures FirstFree(busy) <= d
  {
  }

  /** These devices, the least free ones, were taken and nothing else changed. */
  ghost predicate TookLeast(busy: seq<bool>, busy': seq<bool>, devs: seq<uint32>) {
    && LeastFree(busy, devs) && |busy'| == |busy|
    && forall d: uint32 :: d < |busy| ==> (busy'[d] <==> busy[d] || d in devs)
  }

  lemma TookLeastCons(busy: seq<bool>, busy': seq<bool>, devs: seq<uint32>, dev: uint32)
    requires |busy| < TWO_TO_THE_32 && dev == FirstFree(busy) < |busy|
    requires TookLeast(busy[dev := true], busy', devs)
    ensures TookLeast(busy, busy', [dev] + devs)
  {
    var busy1, all := busy[dev := true], [dev] + devs;
    forall i | 0 <= i < |devs| ensures !busy[devs[i]] && dev < devs[i] {
      assert !busy1[devs[i]];
      FirstFreeIsBelow(busy, devs[i]);
    }
    forall d: uint32 | d <= all[|all| - 1] && d < |busy| && !busy[d] ensures d in all {
      FirstFreeIsBelow(busy, d);
      if d != dev { assert !busy1[d] && d in devs; }
    }
  }

  /** Phase 1 takes the least free devices, in order, and nothing else changes. */
  lemma {:induction false} ClaimedLeast(busy: seq<bool>, clients: seq<Client>, devs: seq<uint32>)
    requires |busy| < TWO_TO_THE_32
    ensures var c := Claimed(busy, clients, devs); TookLeast(busy, c.busy, c.devs[|devs|..])
    decreases |clients|
  {
    var dev := FirstFree(busy);
    var c := Claimed(busy, clients, devs);
    var more := c.devs[|devs|..];
    if clients != [] && dev < |busy| {
      var busy' := busy[dev := true];
      if clients[0].prepared {
        ClaimedLeast(busy', clients[1..], devs + [dev]);
        assert more[1..] == c.devs[|devs + [dev]|..];
      }
      assert more == [dev as uint32] + more[1..];
      TookLeastCons(busy, c.busy, more[1..], dev);
    }
  }

  /** From client from on: i connects, and none up to it makes phase 2 give up. */
  predicate Goes(clients: seq<Client>, from: nat, i: nat) {
    && from <= i < |clients| && clients[i].outcome == Connects
    && forall k :: from <= k < i ==> clients[k].outcome != Aborts
  }

  /** The clients that connect before one aborts, in order. */
  function Going(clients: seq<Client>, from: nat): seq<nat>
    decreases |clients| - from
  {
    if from >= |clients| || clients[from].outcome == Aborts then []
    else (if clients[from].outcome == Connects then [from] else []) + Going(clients, from + 1)
  }

  lemma GoesNext(clients: seq<Client>, from: nat, i: nat)
    requires from < |clients|
    ensures Goes(clients, from, i) <==> if i == from then clients[from].outcome == Connects
                                        else clients[from].outcome != Aborts && Goes(clients, from + 1, i)
  {
  }

  lemma {:induction false} GoingIff(clients: seq<Client>, from: nat)
    ensures var ids := Going(clients, from);
            && (forall i, j :: 0 <= i < j < |ids| ==> ids[i] < ids[j])
            && (forall i: nat :: i in ids <==> Goes(clients, from, i))
    decreases |clients| - from
  {
    if from < |clients| {
      GoingIff(clients, from + 1);
      var rest := Going(clients, from + 1);
      var first: seq<nat> := if clients[from].outcome == Connects then [from] else [];
      forall i | 0 <= i < |rest| ensures rest[i] > from {
        assert rest[i] in rest && Goes(clients, from + 1, rest[i]);
      }
      assert clients[from].outcome != Aborts ==> Going(clients, from) == first + rest;
      forall i: nat ensures i in Going(clients, from) <==> Goes(clients, from, i) {
        GoesNext(clients, from, i);
        assert i in rest <==> Goes(clients, from + 1, i);
      }
    }
  }

  /** These of the prepared stations are in front of the earlier entries, the last one newest. */
  ghost predicate FiledInOrder(entries: seq<Entry<Station>>, prepared: seq<Entry<Station>>, ids: seq<nat>,
                               entries': seq<Entry<Station>>) {
    var n := |ids|;
    && |entries'| == n + |entries| && entries'[n..] == entries
    && forall j :: 0 <= j < n ==> ids[j] < |prepared| && entries'[n - 1 - j] == prepared[ids[j]]
  }

  lemma FiledBefore(entries: seq<Entry<Station>>, prepared: seq<Entry<Station>>, i: nat, ids: seq<nat>,
                    entries': seq<Entry<Station>>)
    requires i < |prepared| && FiledInOrder([prepared[i]] + entries, prepared, ids, entries')
    ensures FiledInOrder(entries, prepared, [i] + ids, entries')
  {
    var n := |ids|;
    assert entries'[n + 1..] == entries'[n..][1..] == entries;
    assert entries'[n] == entries'[n..][0];
  }

  /** Phase 2, from any client on. */
  lemma {:induction false} ConnectedInOrder(entries: seq<Entry<Station>>, prepared: seq<Entry<Station>>,
                                            clients: seq<Client>, from: nat)
    requires from <= |prepared| == |clients|
    ensures FiledInOrder(entries, prepared, Going(clients, from), Connected(entries, prepared[from..], clients[from..]))
    decreases |clients| - from
  {
    if from < |clients| {
      ConnectedFrom(entries, prepared, clients, from);
      match clients[from].outcome
      case Connects =>
        ConnectedInOrder([prepared[from]] + entries, prepared, clients, from + 1);
        FiledBefore(entries, prepared, from, Going(clients, from + 1),
                    Connected(entries, prepared[from..], clients[from..]));
      case Refused => ConnectedInOrder(entries, prepared, clients, from + 1);
      case Aborts =>
    }
  }

  /**
   The gateway's add_sta: the i-th client's device is the i-th least free one, and those that connect
   before one aborts are filed, each on its device and under its key, the last one newest; nobody is
   filed unless phase 1 is complete.
   */
  lemma ClientsAddedInOrder(t: Table, test: uint32, clients: seq<Client>, size: nat)
    requires size > 0 && |t.busy| < TWO_TO_THE_32
    ensures var t', c := ClientsAdded(t, test, clients, size), Claimed(t.busy, clients, []);
            && TookLeast(t.busy, t'.busy, c.devs)
            && (if c.complete then FiledInOrder(t.entries, Prepared(test, c.devs, size), Going(clients, 0), t'.entries)
                else t'.entries == t.entries)
  {
    var c := Claimed(t.busy, clients, []);
    ClaimedLeast(t.busy, clients, []);
    assert c.devs[0..] == c.devs;
    if c.complete {
      var prepared := Prepared(test, c.devs, size);
      ConnectedInOrder(t.entries, prepared, clients, 0);
      assert prepared[0..] == prepared && clients[0..] == clients;
    }
  }

  lemma {:induction false} DevSetCount(devs: seq<uint32>)
    requires forall i, j :: 0 <= i < j < |devs| ==> devs[i] != devs[j]
    ensures |DevSet(devs)| == |devs|
  {
    if devs != [] {
      DevSetCons(devs);
      DevSetCount(devs[1..]);
      assert devs[0] as nat !in DevSet(devs[1..]);
    }
  }

  lemma LeakedCount(t: Table, size: nat)
    requires size > 0 && Sound(t, size)
    ensures |Leaked(t)| == |InUse(t.busy)| - |t.entries|
  {
    DevsCount(t.entries);
    assert InUse(t.busy) == Leaked(t) + Devs(t.entries);
  }

  lemma {:induction false} LosesNoneIff(free: nat, clients: seq<Client>)
    ensures Lost(free, clients) == 0
       <==> clients == [] || free == 0 || (|clients| <= free && AllPrepared(clients) && AllConnect(clients))
  {
    AllConnectIff(clients);
    assert clients != [] ==> Tried(clients) > 0;
  }

  lemma {:induction false} AllConnectIff(clients: seq<Client>)
    ensures Connecting(clients) == |clients| <==> AllConnect(clients)
  {
    if clients != [] {
      AllConnectIff(clients[1..]);
      assert AllConnect(clients) <==> clients[0].outcome == Connects && AllConnect(clients[1..]);
    }
  }

  /** Phase 1 takes as many devices as there are clients tried and devices free; phase 2 keeps the table sound. */
  lemma ClientsAddedIsSound(t: Table, test: uint32, clients: seq<Client>, size: nat)
    requires size > 0 && Sound(t, size)
    ensures var t', c := ClientsAdded(t, test, clients, size), Claimed(t.busy, clients, []);
            && Sound(t', size) && Leaked(t) <= Leaked(t')
            && |InUse(t'.busy)| == |InUse(t.busy)| + |c.devs|
            && |t'.entries| == |t.entries| + if c.complete then Connecting(clients) else 0
  {
    var c := Claimed(t.busy, clients, []);
    ClaimedDevices(t.busy, clients, []);
    assert c.devs[0..] == c.devs;
    DevSetCount(c.devs);
    if c.complete {
      PreparedDevs(test, c.devs, size);
      ConnectedStations(t.entries, Prepared(test, c.devs, size), clients, size);
      ConnectedCount(t.entries, Prepared(test, c.devs, size), clients);
    }
  }

  /**
   The gateway's add_sta keeps the table sound and never gives a device back. How many it loses
   depends on the number of free devices and on the clients alone; it loses none exactly when there
   are no clients or no free devices, or a device for every client and every client is prepared and
   connects.
   */
  lemma ClientsAddedKeepsSound(t: Table, test: uint32, clients: seq<Client>, size: nat)
    requires size > 0 && Sound(t, size)
    ensures var t', free := ClientsAdded(t, test, clients, size), |Unused(t.busy)|;
            && Sound(t', size)
            && Leaked(t) <= Leaked(t')
            && |Leaked(t')| == |Leaked(t)| + Lost(free, clients)
            && (Leaked(t') == Leaked(t) <==>
                clients == [] || free == 0 || (|clients| <= free && AllPrepared(clients) && AllConnect(clients)))
  {
    var t', free := ClientsAdded(t, test, clients, size), |Unused(t.busy)|;
    ClientsAddedIsSound(t, test, clients, size);
    ClaimedCount(t.busy, clients, []);
    if AllPrepared(clients) { AllTried(clients); }
    LeakedCount(t, size);
    LeakedCount(t', size);
    LosesNoneIff(free, clients);
    SameSizeIsSame(Leaked(t), Leaked(t'));
  }

  lemma {:induction false} AllTried(clients: seq<Client>)
    requires AllPrepared(clients)
    ensures Tried(clients) == |clients|
  {
    if clients != [] { AllTried(clients[1..]); }
  }

  lemma SameSizeIsSame(a: set<nat>, b: set<nat>)
    requires a <= b
    ensures a == b <==> |a| == |b|
  {
    if |a| == |b| && a != b {
      var x :| x in b && x !in a;
      SubsetCount(a, b - {x});
    }
  }

  // ---------- Does a key remove the station it was made for? ----------

  /** The table without the given station; the same table if it is not on file. */
  function Gone(t: Table, s: Station): Table {
    WithoutEntry(t, FirstHolding(t.entries, s))
  }

  predicate OnFile(t: Table, s: Station) {
    FirstHolding(t.entries, s) < |t.entries|
  }

  predicate RemovesExactly(t: Table, s: Station, size: nat)
    requires size > 0
  {
    Dropped(t, StationKey(s.test, s.dev, size)) == Gone(t, s)
  }

  /** The key of s fits into the buffer as a whole. */
  predicate Whole(s: Station, size: nat) {
    |StationText(s.test, s.dev)| < size
  }

  /** d' is d or its decimal text continues that of d, as %d prints the two. */
  predicate Continues(d': uint32, d: uint32) {
    ExtendsInt(ToInt32(d'), ToInt32(d))
  }

  /** No newer station of the same test has a device number that continues that of s. */
  predicate NoneContinues(t: Table, s: Station) {
    forall j :: 0 <= j < FirstHolding(t.entries, s) ==>
      !(t.entries[j].value.test == s.test && Continues(t.entries[j].value.dev, s.dev))
  }

  /** s' prints like s as far as the key of s, cut or whole, goes. */
  predicate Resembles(s': Station, s: Station, size: nat)
    requires size > 0
  {
    PrintsAlike(s'.test, s'.dev, s.test, s.dev, size)
  }

  predicate NoneResembles(entries: seq<Entry<Station>>, s: Station, size: nat)
    requires size > 0
  {
    forall j :: 0 <= j < FirstHolding(entries, s) ==> !Resembles(entries[j].value, s, size)
  }

  /** Whose keys does a station's key match? */
  lemma KeyMatchesIff(entries: seq<Entry<Station>>, s: Station, size: nat, j: nat)
    requires size > 0 && WellFiled(entries, size) && j < |entries|
    ensures Matches(entries[j].key, StationKey(s.test, s.dev, size)) <==> Resembles(entries[j].value, s, size)
  {
    var s' := entries[j].value;
    assert entries[j] == Filed(s'.test, s'.dev, size);
    StationKeyPrefixIff(s.test, s.dev, s'.test, s'.dev, size);
  }

  /** A whole key is taken for another's exactly when that continues it. */
  lemma WholeKeyResembles(t: Table, s: Station, size: nat)
    requires size > 0 && Whole(s, size)
    ensures NoneResembles(t.entries, s, size) <==> NoneContinues(t, s)
  {
    forall j | 0 <= j < |t.entries|
      ensures Resembles(t.entries[j].value, s, size)
         <==> t.entries[j].value.test == s.test && Continues(t.entries[j].value.dev, s.dev)
    {
      StationKeyPrefixIff(s.test, s.dev, t.entries[j].value.test, t.entries[j].value.dev, size);
    }
  }

  lemma DroppedAt(t: Table, s: Station, size: nat)
    requires size > 0 && Sound(t, size)
    ensures var key := StationKey(s.test, s.dev, size);
            Dropped(t, key) == if size == 1 then t else WithoutEntry(t, FirstMatch(t.entries, key))
  {
    FewerStationsThanDevices(t, size);
    var key := StationKey(s.test, s.dev, size);
    var f := FirstMatch(t.entries, key);
    if f < |t.entries| {
      assert t.entries[f].value.dev as nat in Devs(t.entries);
    }
  }

  /** Two removals give the same table only when they take the same entry. */
  lemma RemovedEntryIsDetermined(t: Table, size: nat, f: nat, p: nat)
    requires size > 0 && Sound(t, size) && f < p <= |t.entries|
    ensures WithoutEntry(t, f) != WithoutEntry(t, p)
    ensures WithoutEntry(t, f) != t
  {
    var dev := t.entries[f].value.dev;
    assert dev as nat in Devs(t.entries);
    assert !t.busy[dev := false][dev] && t.busy[dev];
  }

  /** The map finds s itself, or nothing if s is not on file, exactly when nothing newer resembles it. */
  lemma FindsItselfIff(entries: seq<Entry<Station>>, s: Station, size: nat)
    requires size > 0 && WellFiled(entries, size)
    ensures var p, f := FirstHolding(entries, s), FirstMatch(entries, StationKey(s.test, s.dev, size));
            f <= p && (f == p <==> NoneResembles(entries, s, size))
  {
    var key := StationKey(s.test, s.dev, size);
    var p, f := FirstHolding(entries, s), FirstMatch(entries, key);
    forall j | 0 <= j < |entries|
      ensures Matches(entries[j].key, key) <==> Resembles(entries[j].value, s, size)
    {
      KeyMatchesIff(entries, s, size, j);
    }
    assert p < |entries| ==> Matches(entries[p].key, key);
  }

  /**
   In a sound table, with a buffer of any size: removing by a station's key removes that
   station, or nothing if it is not on file, exactly when no newer station resembles it as far
   as the key goes. A buffer of one character holds the empty key, which removes nothing. A
   whole key is taken for another's exactly when a newer station of the same test has a device
   number that continues its own.
   */
  lemma RemovesExactlyIff(t: Table, s: Station, size: nat)
    requires size > 0 && Sound(t, size)
    ensures RemovesExactly(t, s, size) <==> if size == 1 then !OnFile(t, s) else NoneResembles(t.entries, s, size)
    ensures Whole(s, size) ==> (RemovesExactly(t, s, size) <==> NoneContinues(t, s))
  {
    var p, f := FirstHolding(t.entries, s), FirstMatch(t.entries, StationKey(s.test, s.dev, size));
    FindsItselfIff(t.entries, s, size);
    DroppedAt(t, s, size);
    if size == 1 {
      if p < |t.entries| { RemovedEntryIsDetermined(t, size, p, |t.entries|); }
    } else if f < p {
      RemovedEntryIsDetermined(t, size, f, p);
    }
    if Whole(s, size) { WholeKeyResembles(t, s, size); }
  }

  /**
   What the agent's add_sta did is undone by removing with the key it returned, unless the buffer holds
   only the empty key.
   */
  lemma AddThenRemoveRestoresIff(t: Table, test: uint32, size: nat)
    requires size > 0 && Sound(t, size) && FirstFree(t.busy) < |t.busy|
    ensures Dropped(Added(t, test, true, size), StationKey(test, FirstFree(t.busy), size)) == t <==> size > 1
  {
    var dev, t' := FirstFree(t.busy), Added(t, test, true, size);
    AddedKeepsSound(t, test, true, size);
    FewerStationsThanDevices(t', size);
    LookupAfterPut(t.entries, StationKey(test, dev, size), Station(test, dev));
    assert t'.busy[dev := false] == t.busy;
    assert t'.busy[dev] && !t.busy[dev];
  }

  /**
   disconnect_sta, reconnect_sta and send_heart_beat take the station from the map but the
   device from the text of the key. Both are those of s exactly when its key is whole and no
   newer station continues it; with a whole key the two agree under no other condition.
   */
  lemma StationAndDeviceAgreeIff(t: Table, s: Station, size: nat)
    requires size > 0 && Sound(t, size) && OnFile(t, s)
    ensures var key := StationKey(s.test, s.dev, size);
            var found := Lookup(t.entries, key);
            && found.Some?
            && (found.value == s && DevIdFromKey(key) == Some(s.dev) <==> Whole(s, size) && NoneContinues(t, s))
            && (Whole(s, size) ==> (DevIdFromKey(key) == Some(found.value.dev) <==> NoneContinues(t, s)))
  {
    FewerStationsThanDevices(t, size);
    FindsItselfIff(t.entries, s, size);
    StationKeyRoundTripIff(s.test, s.dev, size);
    if Whole(s, size) { WholeKeyResembles(t, s, size); }
  }
}
