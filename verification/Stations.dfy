/**
 The station managers of the gateway (src/sta/wlan_emu_sta_mgr.cpp) and of the
 external agent (src/external_agent_cci/wlan_ext_emu_sta_mgr.cpp): a table of
 devices, each free or in use, and a map from station keys to stations.
 What the wireless driver and the allocator answer inside an operation is input.
 */
module Stations {
  import opened Collection
  import opened Decimal
  import opened Keys
  import opened HashMap

  /** An emulated station: the test it belongs to and the device it occupies. */
  datatype Station = Station(test: uint32, dev: uint32)

  /** How connecting a prepared client ends: on file, skipped, or giving up on the rest. */
  datatype Outcome = Connects | Refused | Aborts

  datatype Client = Client(prepared: bool, outcome: Outcome)

  /** An entry of the interface table: does it name a VAP, does the driver know its radio, is its MAC zero? */
  datatype Interface = Interface(named: bool, mapped: bool, zeroMac: bool)

  // ---------- Specification ----------

  /** Which devices are in use, and the stations on file, newest first. */
  datatype Table = Table(busy: seq<bool>, entries: seq<Entry<Station>>)

  /** The table init leaves behind: every device free, no station on file. */
  function Fresh(n: nat): Table {
    Table(seq(n, _ => false), [])
  }

  /**
   The interfaces that become devices, from the given one on: those that name a VAP, for the agent
   only with a MAC, up to the first whose radio the driver does not know.
   */
  function Usable(interfaces: seq<Interface>, skipZeroMac: bool, from: nat): (r: seq<nat>)
    ensures |r| <= if from <= |interfaces| then |interfaces| - from else 0
    decreases |interfaces| - from
  {
    if from >= |interfaces| || (interfaces[from].named && !interfaces[from].mapped) then []
    else
      var rest := Usable(interfaces, skipZeroMac, from + 1);
      if interfaces[from].named && !(skipZeroMac && interfaces[from].zeroMac) then [from] + rest else rest
  }

  lemma UsableNext(interfaces: seq<Interface>, skipZeroMac: bool, done: seq<nat>, i: nat)
    requires i < |interfaces|
    ensures var f, whole := interfaces[i], done + Usable(interfaces, skipZeroMac, i);
            if f.named && !f.mapped then done == whole
            else if f.named && !(skipZeroMac && f.zeroMac)
                then done + [i] + Usable(interfaces, skipZeroMac, i + 1) == whole
            else done + Usable(interfaces, skipZeroMac, i + 1) == whole
  {
  }

  predicate MappedBetween(interfaces: seq<Interface>, from: nat, to: nat) {
    forall i :: from <= i < to <= |interfaces| && interfaces[i].named ==> interfaces[i].mapped
  }

  predicate BecomesDevice(interfaces: seq<Interface>, skipZeroMac: bool, from: nat, p: nat) {
    && from <= p < |interfaces| && interfaces[p].named && !(skipZeroMac && interfaces[p].zeroMac)
    && MappedBetween(interfaces, from, p + 1)
  }

  /** Which interfaces become devices, each once and in order. */
  lemma {:induction false} UsableIff(interfaces: seq<Interface>, skipZeroMac: bool, from: nat)
    ensures var r := Usable(interfaces, skipZeroMac, from);
            && (forall i, j :: 0 <= i < j < |r| ==> r[i] < r[j])
            && (forall p: nat :: p in r <==> BecomesDevice(interfaces, skipZeroMac, from, p))
    decreases |interfaces| - from
  {
    if from < |interfaces| {
      UsableIff(interfaces, skipZeroMac, from + 1);
      var rest := Usable(interfaces, skipZeroMac, from + 1);
      assert forall i :: 0 <= i < |rest| ==> rest[i] in rest;
      forall p: nat
        ensures p in Usable(interfaces, skipZeroMac, from) <==> BecomesDevice(interfaces, skipZeroMac, from, p)
      {
        BecomesDeviceNext(interfaces, skipZeroMac, from, p);
        assert p in rest <==> BecomesDevice(interfaces, skipZeroMac, from + 1, p);
      }
    }
  }

  /** The same, by whether it is the first of the interfaces or a later one. */
  predicate AsFirstOrLater(interfaces: seq<Interface>, skipZeroMac: bool, from: nat, p: nat)
    requires from < |interfaces|
  {
    var first := interfaces[from];
    if p == from then first.named && !(skipZeroMac && first.zeroMac) && first.mapped
    else BecomesDevice(interfaces, skipZeroMac, from + 1, p) && (first.named ==> first.mapped)
  }

  lemma BecomesDeviceNext(interfaces: seq<Interface>, skipZeroMac: bool, from: nat, p: nat)
    requires from < |interfaces|
    ensures BecomesDevice(interfaces, skipZeroMac, from, p) <==> AsFirstOrLater(interfaces, skipZeroMac, from, p)
  {
  }

  function FirstFree(busy: seq<bool>): (d: nat)
    ensures d <= |busy|
    ensures d < |busy| ==> !busy[d]
    ensures forall i :: 0 <= i < d ==> busy[i]
  {
    FreeFrom(busy, 0)
  }

  function FreeFrom(busy: seq<bool>, from: nat): (d: nat)
    requires from <= |busy|
    ensures from <= d <= |busy|
    ensures d < |busy| ==> !busy[d]
    ensures forall i :: from <= i < d ==> busy[i]
    decreases |busy| - from
  {
    if from == |busy| || !busy[from] then from else FreeFrom(busy, from + 1)
  }

  function Filed(test: uint32, dev: uint32, size: nat): Entry<Station>
    requires size > 0
  {
    Entry(StationKey(test, dev, size), Station(test, dev))
  }

  /** The agent's add_sta: the device is taken only once the driver has connected. */
  function Added(t: Table, test: uint32, connected: bool, size: nat): Table
    requires size > 0 && |t.busy| < TWO_TO_THE_32
  {
    var dev := FirstFree(t.busy);
    if dev == |t.busy| || !connected then t
    else Table(t.busy[dev := true], [Filed(test, dev, size)] + t.entries)
  }

  /**
   The table has one station more, of this test and under this key, in front of the earlier ones; its
   device is the least that was free and the only one whose state is another.
   */
  ghost predicate OneMore(t: Table, t': Table, test: uint32, key: string) {
    && |t'.entries| == |t.entries| + 1 && t'.entries[1..] == t.entries
    && t'.entries[0].key == key && t'.entries[0].value.test == test
    && |t'.busy| == |t.busy|
    && var dev := t'.entries[0].value.dev;
       && dev < |t.busy| && !t.busy[dev] && t'.busy[dev]
       && (forall d :: 0 <= d < dev ==> t.busy[d])
       && (forall d :: 0 <= d < |t.busy| && d != dev ==> t'.busy[d] == t.busy[d])
  }

  /** remove_sta: frees the device of whichever station the key finds, and forgets that station. */
  function Dropped(t: Table, key: string): Table {
    var found := Lookup(t.entries, key);
    if key == [] || found.None? || !InRange(|t.busy|, found.value.dev) then t
    else Table(t.busy[found.value.dev := false], Removed(t.entries, key))
  }

  /** What phase 1 of the gateway's add_sta has ready for phase 2: a station and its key per device. */
  function Prepared(test: uint32, devs: seq<uint32>, size: nat): (r: seq<Entry<Station>>)
    requires size > 0
    ensures |r| == |devs|
  {
    seq(|devs|, i requires 0 <= i < |devs| => Filed(test, devs[i], size))
  }

  lemma PreparedNext(test: uint32, devs: seq<uint32>, dev: uint32, size: nat)
    requires size > 0
    ensures Prepared(test, devs + [dev], size) == Prepared(test, devs, size) + [Filed(test, dev, size)]
  {
  }

  /** The entries new since then are filed under these keys. */
  ghost predicate NewKeys(entries: seq<Entry<Station>>, before: seq<Entry<Station>>, keys: seq<string>) {
    && |entries| == |keys| + |before| && entries[|keys|..] == before
    && forall i :: 0 <= i < |keys| ==> entries[i].key == keys[i]
  }

  lemma NewKeysNext(entries: seq<Entry<Station>>, before: seq<Entry<Station>>, keys: seq<string>, e: Entry<Station>)
    requires NewKeys(entries, before, keys)
    ensures NewKeys([e] + entries, before, [e.key] + keys)
  {
  }

  datatype Claim = Claim(busy: seq<bool>, devs: seq<uint32>, complete: bool)

  /**
   Phase 1 of the gateway's add_sta, devs being taken already: one more device per client,
   until one cannot be found or prepared.
   */
  function Claimed(busy: seq<bool>, clients: seq<Client>, devs: seq<uint32>): (c: Claim)
    requires |busy| < TWO_TO_THE_32
    ensures |c.busy| == |busy| && devs <= c.devs
    ensures c.complete ==> |c.devs| == |devs| + |clients|
    decreases |clients|
  {
    var dev := FirstFree(busy);
    if clients == [] then Claim(busy, devs, true)
    else if dev == |busy| then Claim(busy, devs, false)
    else if !clients[0].prepared then Claim(busy[dev := true], devs + [dev], false)
    else Claimed(busy[dev := true], clients[1..], devs + [dev])
  }

  /** Phase 2: connects the prepared clients one at a time. */
  function Connected(entries: seq<Entry<Station>>, prepared: seq<Entry<Station>>,
                     clients: seq<Client>): seq<Entry<Station>>
    requires |prepared| == |clients|
    decreases |clients|
  {
    if clients == [] then entries
    else
      match clients[0].outcome
      case Connects => Connected([prepared[0]] + entries, prepared[1..], clients[1..])
      case Refused => Connected(entries, prepared[1..], clients[1..])
      case Aborts => entries
  }

  lemma ConnectedFrom(entries: seq<Entry<Station>>, prepared: seq<Entry<Station>>, clients: seq<Client>, i: nat)
    requires i < |prepared| == |clients|
    ensures Connected(entries, prepared[i..], clients[i..])
         == if clients[i].outcome == Aborts then entries
            else Connected(if clients[i].outcome == Connects then [prepared[i]] + entries else entries,
                prepared[i + 1..], clients[i + 1..])
  {
    assert clients[i..][1..] == clients[i + 1..] && prepared[i..][1..] == prepared[i + 1..];
  }

  /** The gateway's add_sta: devices are taken before anything can fail. */
  function ClientsAdded(t: Table, test: uint32, clients: seq<Client>, size: nat): Table
    requires size > 0 && |t.busy| < TWO_TO_THE_32
  {
    var c := Claimed(t.busy, clients, []);
    Table(c.busy, if c.complete then Connected(t.entries, Prepared(test, c.devs, size), clients) else t.entries)
  }

  // ---------- The managers ----------

  class StaInfo {
    var inUse: bool
    const interface: nat

    constructor (interface: nat)
      ensures !inUse && this.interface == interface
    {
      this.inUse, this.interface := false, interface;
    }
  }

  /** Free devices for these interfaces; the last interface is device 0. */
  ghost predicate FreeDevices(infos: seq<StaInfo>, interfaces: seq<nat>)
    reads infos
  {
    && |infos| == |interfaces|
    && (forall j :: 0 <= j < |infos| ==> !infos[j].inUse && infos[j].interface == interfaces[|infos| - 1 - j])
    && (forall i, j :: 0 <= i < j < |infos| ==> infos[i] != infos[j])
  }

  method PushDevice(queue: Queue<StaInfo>, interface: nat, ghost interfaces: seq<nat>)
    requires queue.Valid() && FreeDevices(queue.Contents, interfaces)
    requires forall j :: 0 <= j < |queue.Contents| ==> queue.Contents[j] !in queue.Repr
    modifies queue.Repr
    ensures queue.Valid() && fresh(queue.Repr - old(queue.Repr))
    ensures |queue.Contents| == 1 + |old(queue.Contents)| && queue.Contents[1..] == old(queue.Contents)
            && fresh(queue.Contents[0])
    ensures FreeDevices(queue.Contents, interfaces + [interface])
    ensures forall j :: 0 <= j < |queue.Contents| ==> queue.Contents[j] !in queue.Repr
  {
    var info := new StaInfo(interface);
    queue.Push(info);
  }

  /** The devices init finds; it gives up at an interface whose radio is unknown. */
  method BuildDevices(interfaces: seq<Interface>, skipZeroMac: bool)
        returns (complete: bool, queue: Queue<StaInfo>, count: uint32)
    requires |interfaces| < TWO_TO_THE_31
    ensures fresh(queue) && queue.Valid() && fresh(queue.Repr) && fresh(queue.Contents) && count == |queue.Contents|
    ensures complete <==> forall i :: 0 <= i < |interfaces| && interfaces[i].named ==> interfaces[i].mapped
    ensures FreeDevices(queue.Contents, Usable(interfaces, skipZeroMac, 0))
    ensures forall j :: 0 <= j < count ==> queue.Contents[j] !in queue.Repr
  {
    queue := new Queue();
    count := 0;
    ghost var done: seq<nat> := [];
    var i := 0;
    while i < |interfaces|
      invariant 0 <= i <= |interfaces| && count <= i
      invariant fresh(queue) && queue.Valid() && fresh(queue.Repr) && fresh(queue.Contents) && |queue.Contents| == count
      invariant forall j :: 0 <= j < count ==> queue.Contents[j] !in queue.Repr
      invariant FreeDevices(queue.Contents, done)
      invariant done + Usable(interfaces, skipZeroMac, i) == Usable(interfaces, skipZeroMac, 0)
      invariant MappedBetween(interfaces, 0, i)
    {
      UsableNext(interfaces, skipZeroMac, done, i);
      if interfaces[i].named && !interfaces[i].mapped {
        return false, queue, count;
      }
      if interfaces[i].named && !(skipZeroMac && interfaces[i].zeroMac) {
        PushDevice(queue, i, done);
        done := done + [i];
        count := count + 1;
      }
      i := i + 1;
    }
    assert done == Usable(interfaces, skipZeroMac, 0);
    return true, queue, count;
  }

  class StationManager {
    const staMap: HashMap<Station>
    const devices: Queue<StaInfo>
    const count: uint32
    const keySize: nat
    const ready: bool
    ghost const infos: seq<StaInfo>

    ghost predicate Valid()
      reads this, staMap, staMap.queue, staMap.queue.Repr, devices, devices.Repr
    {
      && keySize > 0
      && staMap.Valid()
      && devices.Valid() && devices.Contents == infos && |infos| == count
      && devices.Repr !! staMap.queue.Repr && staMap !in devices.Repr
      && this !in devices.Repr && this !in staMap.queue.Repr
      && (forall i, j :: 0 <= i < j < count ==> infos[i] != infos[j])
      && (forall i :: 0 <= i < count ==> infos[i] !in devices.Repr && infos[i] !in staMap.queue.Repr)
    }

    ghost function Busy(): (b: seq<bool>)
      reads infos
      ensures |b| == |infos|
      ensures forall i :: 0 <= i < |b| ==> b[i] == infos[i].inUse
    {
      seq(|infos|, i requires 0 <= i < |infos| reads infos => infos[i].inUse)
    }

    ghost function State(): Table
      reads infos, staMap, staMap.queue
    {
      Table(Busy(), staMap.Entries())
    }

    /** init; ready tells whether it succeeded, the devices found before a failure stay. */
    constructor (interfaces: seq<Interface>, skipZeroMac: bool, keySize: nat)
      requires keySize > 0 && |interfaces| < TWO_TO_THE_31
      ensures Valid() && fresh(staMap.queue.Repr) && fresh(infos)
      ensures this.keySize == keySize
      ensures ready <==> forall i :: 0 <= i < |interfaces| && interfaces[i].named ==> interfaces[i].mapped
      ensures State() == Fresh(|Usable(interfaces, skipZeroMac, 0)|)
      ensures FreeDevices(infos, Usable(interfaces, skipZeroMac, 0))
    {
      var complete, queue, n := BuildDevices(interfaces, skipZeroMac);
      this.staMap := new HashMap<Station>();
      this.devices, this.count, this.keySize, this.ready := queue, n, keySize, complete;
      this.infos := queue.Contents;
    }

    /** The first free device; None stands for the -1 of find_first_free_dev. */
    method FindFirstFreeDev() returns (r: Option<uint32>)
      requires Valid()
      ensures var d := FirstFree(Busy()); r == if d < count then Some(d) else None
    {
      var i := 0;
      while i < count
        invariant 0 <= i <= count
        invariant forall j :: 0 <= j < i ==> Busy()[j]
      {
        var info := devices.Peek(i);
        if !info.value.inUse {
          assert FirstFree(Busy()) == i;
          return Some(i);
        }
        i := i + 1;
      }
      return None;
    }

    method SetDev(dev: uint32, inUse: bool)
      requires Valid() && dev < count
      modifies infos
      ensures Valid()
      ensures Busy() == old(Busy())[dev := inUse]
      ensures unchanged(staMap.queue)
    {
      var info := devices.Peek(dev);
      info.value.inUse := inUse;
      assert Busy() == old(Busy())[dev := inUse];
    }

    /** The station is filed under the key, in front of all others. */
    method File(key: string, sta: Station)
      requires Valid()
      modifies staMap.queue.Repr
      ensures Valid() && fresh(staMap.queue.Repr - old(staMap.queue.Repr))
      ensures staMap.Entries() == [Entry(key, sta)] + old(staMap.Entries())
      ensures Busy() == old(Busy())
    {
      staMap.Put(key, sta);
    }

    method PrintKey(dev: uint32, test: uint32) returns (key: string)
      requires Valid()
      ensures key == StationKey(test, dev, keySize)
    {
      var buffer := new char[keySize];
      CreateStationKey(buffer, dev, test);
      return CString(buffer[..]);
    }

    /** The agent's add_sta. */
    method AddSta(test: uint32, connected: bool) returns (rc: int, key: string)
      requires Valid()
      modifies staMap.queue.Repr, infos
      ensures Valid() && fresh(staMap.queue.Repr - old(staMap.queue.Repr))
      ensures State() == Added(old(State()), test, connected, keySize)
      ensures rc == if connected && FirstFree(old(Busy())) < count then 0 else -1
      ensures rc != 0 ==> State() == old(State())
      ensures rc == 0 ==> OneMore(old(State()), State(), test, key)
      ensures FirstFree(old(Busy())) < count ==> key == StationKey(test, FirstFree(old(Busy())), keySize)
    {
      key := [];
      var dev := FindFirstFreeDev();
      if dev.None? {
        return -1, key;
      }
      key := PrintKey(dev.value, test);
      if !connected {
        return -1, key;
      }
      Occupy(key, Station(test, dev.value));
      return 0, key;
    }

    method Occupy(key: string, sta: Station)
      requires Valid() && sta.dev < count
      modifies staMap.queue.Repr, infos
      ensures Valid() && fresh(staMap.queue.Repr - old(staMap.queue.Repr))
      ensures staMap.Entries() == [Entry(key, sta)] + old(staMap.Entries())
      ensures Busy() == old(Busy())[sta.dev := true]
    {
      File(key, sta);
      SetDev(sta.dev, true);
    }

    method RemoveSta(key: string)
      requires Valid()
      modifies staMap.queue.Repr, infos
      ensures Valid() && staMap.queue.Repr == old(staMap.queue.Repr)
      ensures State() == Dropped(old(State()), key)
    {
      if |key| == 0 {
        return;
      }
      var sta := staMap.Get(key);
      if sta.None? {
        return;
      }
      var info := devices.Peek(sta.value.dev);
      if info.None? {
        return;
      }
      SetDev(sta.value.dev, false);
      Forget(key);
    }

    /** The newest entry that the key matches is dropped; its device keeps its state. */
    method Forget(key: string)
      requires Valid()
      modifies staMap.queue.Repr
      ensures Valid() && staMap.queue.Repr == old(staMap.queue.Repr)
      ensures staMap.Entries() == Removed(old(staMap.Entries()), key)
      ensures Busy() == old(Busy())
    {
      var _ := staMap.Remove(key);
    }

    /** The gateway's add_sta; connected are the keys handed back in the caller's queue, newest first. */
    method AddClients(test: uint32, clients: seq<Client>) returns (rc: int, connected: seq<string>)
      requires Valid()
      modifies staMap.queue.Repr, infos
      ensures Valid() && fresh(staMap.queue.Repr - old(staMap.queue.Repr))
      ensures State() == ClientsAdded(old(State()), test, clients, keySize)
      ensures rc == 0 || rc == -1
      ensures rc == 0 <==> Claimed(old(Busy()), clients, []).complete
                           && forall i :: 0 <= i < |clients| ==> clients[i].outcome != Aborts
      ensures NewKeys(staMap.Entries(), old(staMap.Entries()), connected)
    {
      connected := [];
      var complete, prepared := ClaimDevices(test, clients);
      if !complete {
        return -1, connected;
      }
      rc, connected := ConnectClients(prepared, clients);
    }

    method ClaimDevice(test: uint32) returns (dev: Option<uint32>, key: string)
      requires Valid()
      modifies infos
      ensures Valid()
      ensures var d := FirstFree(old(Busy())); dev == if d == count then None else Some(d)
      ensures Busy() == if dev.None? then old(Busy()) else old(Busy())[dev.value := true]
      ensures dev.Some? ==> key == StationKey(test, dev.value, keySize)
    {
      key := [];
      dev := FindFirstFreeDev();
      if dev.Some? {
        SetDev(dev.value, true);
        key := PrintKey(dev.value, test);
      }
    }

    /** Phase 1. */
    method ClaimDevices(test: uint32, clients: seq<Client>) returns (complete: bool, prepared: seq<Entry<Station>>)
      requires Valid()
      modifies infos
      ensures Valid()
      ensures var c := Claimed(old(Busy()), clients, []);
              c.busy == Busy() && c.complete == complete && (complete ==> prepared == Prepared(test, c.devs, keySize))
    {
      prepared := [];
      ghost var devs: seq<uint32> := [];
      ghost var busy := Busy();
      ghost var whole := Claimed(busy, clients, []);
      var i := 0;
      while i < |clients|
        invariant 0 <= i <= |clients| && |devs| == i
        invariant Valid() && prepared == Prepared(test, devs, keySize)
        invariant Busy() == busy && Claimed(busy, clients[i..], devs) == whole
      {
        assert clients[i..][0] == clients[i] && clients[i..][1..] == clients[i + 1..];
        var dev, key := ClaimDevice(test);
        busy := Busy();
        if dev.None? {
          return false, prepared;
        }
        var e := Entry(key, Station(test, dev.value));
        PreparedNext(test, devs, dev.value, keySize);
        assert e == Filed(test, dev.value, keySize);
        devs := devs + [dev.value];
        if !clients[i].prepared {
          return false, prepared;
        }
        prepared := prepared + [e];
        i := i + 1;
      }
      return true, prepared;
    }

    /** A client that connects is filed, and its key joins the caller's queue. */
    method ConnectClient(outcome: Outcome, e: Entry<Station>, connected: seq<string>, ghost before: seq<Entry<Station>>)
      returns (aborts: bool, r: seq<string>)
      requires Valid() && NewKeys(staMap.Entries(), before, connected)
      modifies staMap.queue.Repr
      ensures Valid() && fresh(staMap.queue.Repr - old(staMap.queue.Repr))
      ensures staMap.Entries() == if outcome == Connects then [e] + old(staMap.Entries()) else old(staMap.Entries())
      ensures Busy() == old(Busy())
      ensures aborts <==> outcome == Aborts
      ensures NewKeys(staMap.Entries(), before, r)
    {
      aborts, r := outcome == Aborts, connected;
      if outcome == Connects {
        NewKeysNext(staMap.Entries(), before, connected, e);
        File(e.key, e.value);
        r := [e.key] + connected;
      }
    }

    /** Phase 2. */
    method ConnectClients(prepared: seq<Entry<Station>>, clients: seq<Client>) returns (rc: int, connected: seq<string>)
      requires Valid() && |prepared| == |clients|
      modifies staMap.queue.Repr
      ensures Valid() && fresh(staMap.queue.Repr - old(staMap.queue.Repr))
      ensures staMap.Entries() == Connected(old(staMap.Entries()), prepared, clients)
      ensures Busy() == old(Busy())
      ensures rc == 0 || rc == -1
      ensures rc == 0 <==> forall i :: 0 <= i < |clients| ==> clients[i].outcome != Aborts
      ensures NewKeys(staMap.Entries(), old(staMap.Entries()), connected)
    {
      ghost var before, now := staMap.Entries(), staMap.Entries();
      ghost var whole := Connected(before, prepared, clients);
      connected := [];
      var i := 0;
      while i < |prepared|
        invariant 0 <= i <= |prepared| && forall k :: 0 <= k < i ==> clients[k].outcome != Aborts
        invariant Valid() && fresh(staMap.queue.Repr - old(staMap.queue.Repr)) && Busy() == old(Busy())
        invariant staMap.Entries() == now && NewKeys(now, before, connected)
        invariant whole == Connected(now, prepared[i..], clients[i..])
      {
        ConnectedFrom(now, prepared, clients, i);
        var aborts;
        aborts, connected := ConnectClient(clients[i].outcome, prepared[i], connected, before);
        now := staMap.Entries();
        if aborts {
          return -1, connected;
        }
        i := i + 1;
      }
      return 0, connected;
    }
  }
}
