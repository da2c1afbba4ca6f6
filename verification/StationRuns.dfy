/**
 What holds of the station table over every run of the managers' operations:
 which devices are lost, when the table stays sound, and how large the key
 buffer and how small the number of devices must be for every key to remove
 the station it was made for.
 */
module StationRuns {
  import opened Collection
  import opened Decimal
  import opened Keys
  import opened HashMap
  import opened Stations
  import opened StationTable
  import opened StationSweep

  datatype Event =
    | AgentAdd(test: uint32, connected: bool)
    | GatewayAdd(test: uint32, clients: seq<Client>)
    | Remove(key: string)
    | RemoveAll(test: uint32)

  /** One operation on a table; a sweep can end the process. */
  function Done(t: Table, e: Event, size: nat): (r: Status)
    requires size > 0 && |t.busy| < TWO_TO_THE_32
    ensures r.Reached? ==> |r.t.busy| == |t.busy|
  {
    match e
    case AgentAdd(test, connected) => Reached(Added(t, test, connected, size), false)
    case GatewayAdd(test, clients) => Reached(ClientsAdded(t, test, clients, size), false)
    case Remove(key) => Reached(Dropped(t, key), false)
    case RemoveAll(test) => Swept(t, test, size)
  }

  /** Nothing happens after a crash. */
  function Step(r: Status, e: Event, size: nat): (r': Status)
    requires size > 0 && (r.Reached? ==> |r.t.busy| < TWO_TO_THE_32)
    ensures r.Reached? && r'.Reached? ==> |r'.t.busy| == |r.t.busy|
    ensures !r.Reached? ==> r' == r
  {
    if r.Reached? && !r.crashed then Done(r.t, e, size) else r
  }

  function Run(t: Table, events: seq<Event>, size: nat): (r: Status)
    requires size > 0 && |t.busy| < TWO_TO_THE_32
    ensures r.Reached? ==> |r.t.busy| == |t.busy|
  {
    if events == [] then Reached(t, false)
    else Step(Run(t, events[..|events| - 1], size), events[|events| - 1], size)
  }

  /**
   In every run the agent's add_sta changes nothing if the driver does not connect or no device is free;
   otherwise there is one station more, in front, on the least free device.
   */
  lemma AgentAddIs(t: Table, test: uint32, connected: bool, size: nat)
    requires size > 0 && |t.busy| < TWO_TO_THE_32
    ensures var r := Done(t, AgentAdd(test, connected), size);
            && r.Reached? && !r.crashed
            && (r.t == t <==> !connected || forall d :: 0 <= d < |t.busy| ==> t.busy[d])
            && (r.t != t ==> OneMore(t, r.t, test, StationKey(test, FirstFree(t.busy), size)))
  {
  }

  // ---------- Soundness over every run ----------

  ghost predicate SoundAt(r: Status, size: nat)
    requires size > 0
  {
    r.Reached? && Sound(r.t, size)
  }

  /** Not a sweep that would take other tests' stations. */
  predicate ClearStep(r: Status, e: Event, size: nat)
    requires size > 0
  {
    r.Reached? && !r.crashed && e.RemoveAll? ==> Clear(r.t, e.test, size)
  }

  lemma DoneIsSoundIff(t: Table, e: Event, size: nat)
    requires size > 0 && Sound(t, size)
    ensures var r, clear := Done(t, e, size), e.RemoveAll? ==> Clear(t, e.test, size);
            && (SoundAt(r, size) <==> clear)
            && (clear ==> Leaked(t) <= Leaked(r.t))
            && (clear && !e.GatewayAdd? ==> Leaked(r.t) == Leaked(t))
  {
    match e
    case AgentAdd(test, connected) => AddedKeepsSound(t, test, connected, size);
    case GatewayAdd(test, clients) => ClientsAddedKeepsSound(t, test, clients, size);
    case Remove(key) => DroppedKeepsSound(t, key, size);
    case RemoveAll(test) => SweepIsExactIff(t, test, size);
  }

  /** No operation but a sweep that is not clear spoils a sound table, and none gives a lost device back. */
  lemma StepIsSoundIff(r: Status, e: Event, size: nat)
    requires size > 0 && SoundAt(r, size)
    ensures SoundAt(Step(r, e, size), size) <==> ClearStep(r, e, size)
    ensures ClearStep(r, e, size) ==> Leaked(r.t) <= Leaked(Step(r, e, size).t)
    ensures ClearStep(r, e, size) && !e.GatewayAdd? ==> Leaked(Step(r, e, size).t) == Leaked(r.t)
  {
    if !r.crashed { DoneIsSoundIff(r.t, e, size); }
  }

  /** Every sweep among the first n events is clear when it starts. */
  ghost predicate ClearRun(t: Table, events: seq<Event>, size: nat, n: nat)
    requires size > 0 && |t.busy| < TWO_TO_THE_32 && n <= |events|
  {
    forall k :: 0 <= k < n ==> ClearStep(Run(t, events[..k], size), events[k], size)
  }

  /** The table is sound at the start and after each of the first n events. */
  ghost predicate SoundRun(t: Table, events: seq<Event>, size: nat, n: nat)
    requires size > 0 && |t.busy| < TWO_TO_THE_32 && n <= |events|
  {
    forall k :: 0 <= k <= n ==> SoundAt(Run(t, events[..k], size), size)
  }

  lemma RunLast(t: Table, events: seq<Event>, size: nat)
    requires size > 0 && |t.busy| < TWO_TO_THE_32 && events != []
    ensures var n := |events| - 1; Run(t, events, size) == Step(Run(t, events[..n], size), events[n], size)
  {
  }

  lemma RunOfPrefix(t: Table, events: seq<Event>, k: nat, size: nat)
    requires size > 0 && |t.busy| < TWO_TO_THE_32 && k < |events|
    ensures Run(t, events[..k + 1], size) == Step(Run(t, events[..k], size), events[k], size)
  {
    assert events[..k + 1][..k] == events[..k];
  }

  lemma SoundRunNext(t: Table, events: seq<Event>, size: nat, n: nat)
    requires size > 0 && |t.busy| < TWO_TO_THE_32 && n < |events|
    requires SoundRun(t, events, size, n) <==> ClearRun(t, events, size, n)
    ensures SoundRun(t, events, size, n + 1) <==> ClearRun(t, events, size, n + 1)
  {
    var r, r' := Run(t, events[..n], size), Run(t, events[..n + 1], size);
    RunOfPrefix(t, events, n, size);
    assert SoundRun(t, events, size, n + 1) <==> SoundRun(t, events, size, n) && SoundAt(r', size);
    assert ClearRun(t, events, size, n + 1) <==> ClearRun(t, events, size, n) && ClearStep(r, events[n], size);
    if SoundRun(t, events, size, n) {
      assert SoundAt(r, size);
      StepIsSoundIff(r, events[n], size);
    }
  }

  /** In every run from any sound table the table stays sound exactly as long as every sweep is clear. */
  lemma {:induction false} RunIsSoundIff(t: Table, events: seq<Event>, size: nat, n: nat)
    requires size > 0 && Sound(t, size) && n <= |events|
    ensures SoundRun(t, events, size, n) <==> ClearRun(t, events, size, n)
  {
    if n == 0 {
      assert events[..0] == [];
    } else {
      RunIsSoundIff(t, events, size, n - 1);
      SoundRunNext(t, events, size, n - 1);
    }
  }

  lemma SoundAfter(t: Table, events: seq<Event>, size: nat, n: nat)
    requires size > 0 && Sound(t, size) && n <= |events| && ClearRun(t, events, size, n)
    ensures SoundAt(Run(t, events[..n], size), size)
  {
    RunIsSoundIff(t, events, size, n);
    assert SoundRun(t, events, size, n);
  }

  function LeakedAt(r: Status): set<nat> {
    if r.Reached? then Leaked(r.t) else {}
  }

  lemma LostStayLost(t: Table, events: seq<Event>, size: nat, n: nat)
    requires size > 0 && Sound(t, size) && n < |events| && ClearRun(t, events, size, n + 1)
    ensures LeakedAt(Run(t, events[..n], size)) <= LeakedAt(Run(t, events[..n + 1], size))
  {
    var r, e := Run(t, events[..n], size), events[n];
    SoundAfter(t, events, size, n);
    assert ClearStep(r, e, size);
    StepIsSoundIff(r, e, size);
    RunOfPrefix(t, events, n, size);
  }

  lemma {:induction false} Grows(f: nat -> set<nat>, m: nat, n: nat)
    requires m <= n && forall k: nat :: m <= k < n ==> f(k) <= f(k + 1)
    ensures f(m) <= f(n)
  {
    if m < n { Grows(f, m, n - 1); }
  }

  lemma LeakedGrows(t: Table, events: seq<Event>, size: nat, m: nat, n: nat)
    requires size > 0 && Sound(t, size) && m <= n <= |events| && ClearRun(t, events, size, n)
    ensures LeakedAt(Run(t, events[..m], size)) <= LeakedAt(Run(t, events[..n], size))
  {
    var f := (k: nat) => if k <= |events| then LeakedAt(Run(t, events[..k], size)) else {};
    forall k: nat | m <= k < n ensures f(k) <= f(k + 1) {
      LostStayLost(t, events, size, k);
    }
    Grows(f, m, n);
  }

  /** In every run whose sweeps are clear, a device once lost is never handed out again. */
  lemma LostDevicesStayLost(t: Table, events: seq<Event>, size: nat, m: nat, n: nat)
    requires size > 0 && Sound(t, size) && m <= n <= |events| && ClearRun(t, events, size, n)
    ensures SoundAt(Run(t, events[..m], size), size) && SoundAt(Run(t, events[..n], size), size)
    ensures LeakedAt(Run(t, events[..m], size)) <= LeakedAt(Run(t, events[..n], size))
  {
    SoundAfter(t, events, size, m);
    SoundAfter(t, events, size, n);
    LeakedGrows(t, events, size, m, n);
  }

  /** The external agent's manager has neither the gateway's add_sta nor remove_all_sta. */
  predicate OfAgent(events: seq<Event>) {
    forall i :: 0 <= i < |events| ==> events[i].AgentAdd? || events[i].Remove?
  }

  /** The gateway's manager has not the agent's add_sta. */
  predicate OfGateway(events: seq<Event>) {
    forall i :: 0 <= i < |events| ==> !events[i].AgentAdd?
  }

  predicate Of(agent: bool, events: seq<Event>) {
    if agent then OfAgent(events) else OfGateway(events)
  }

  lemma {:induction false} AgentNeverLeaks(n: uint32, events: seq<Event>, size: nat)
    requires size > 0 && OfAgent(events)
    ensures var r := Run(Fresh(n), events, size); SoundAt(r, size) && !r.crashed && Leaked(r.t) == {}
  {
    if events != [] {
      var k := |events| - 1;
      AgentNeverLeaks(n, events[..k], size);
      StepIsSoundIff(Run(Fresh(n), events[..k], size), events[k], size);
    }
  }

  /** In every run of the agent's manager from init, the devices in use are exactly those of the stations on file. */
  lemma AgentLosesNoDevice(n: uint32, events: seq<Event>, size: nat)
    requires size > 0 && OfAgent(events)
    ensures var r := Run(Fresh(n), events, size); r.Reached? && InUse(r.t.busy) == Devs(r.t.entries)
  {
    AgentNeverLeaks(n, events, size);
    var t := Run(Fresh(n), events, size).t;
    assert InUse(t.busy) <= Devs(t.entries) + Leaked(t);
  }

  // ---------- Some runs of either manager ----------

  /** One station added, which the driver connects. */
  function Add(agent: bool, test: uint32): Event {
    if agent then AgentAdd(test, true) else GatewayAdd(test, [Client(true, Connects)])
  }

  /** Stations added one after the other. */
  function Adds(agent: bool, tests: seq<uint32>): (events: seq<Event>)
    ensures |events| == |tests| && Of(agent, events)
  {
    seq(|tests|, i requires 0 <= i < |tests| => Add(agent, tests[i]))
  }

  lemma AddsOfPrefix(agent: bool, tests: seq<uint32>)
    requires tests != []
    ensures var k := |tests| - 1;
            && Adds(agent, tests)[..k] == Adds(agent, tests[..k])
            && Adds(agent, tests)[k] == Add(agent, tests[k])
            && tests[..k] + [tests[k]] == tests
  {
  }

  /** While a device is free both managers file that station on the first free one. */
  lemma OneAdded(agent: bool, t: Table, test: uint32, size: nat)
    requires size > 0 && FirstFree(t.busy) < |t.busy| < TWO_TO_THE_32
    ensures Done(t, Add(agent, test), size) == Reached(Added(t, test, true, size), false)
  {
    var dev, clients := FirstFree(t.busy), [Client(true, Connects)];
    assert clients[1..] == [];
    assert Claimed(t.busy, clients, []) == Claim(t.busy[dev := true], [dev], true);
    var prepared := Prepared(test, [dev], size);
    assert prepared == [Filed(test, dev, size)] && prepared[1..] == [];
  }

  /** Devices below |tests| in use, by one station of each test, the last one newest. */
  ghost predicate Filled(t: Table, tests: seq<uint32>) {
    var k := |tests|;
    && |t.entries| == k <= |t.busy|
    && (forall d :: 0 <= d < |t.busy| ==> (t.busy[d] <==> d < k))
    && (forall j :: 0 <= j < k ==> t.entries[j].value.test == tests[k - 1 - j] && t.entries[j].value.dev == k - 1 - j)
  }

  lemma FilledStep(t: Table, tests: seq<uint32>, test: uint32, size: nat)
    requires size > 0 && Filled(t, tests) && |tests| < |t.busy| < TWO_TO_THE_32
    ensures FirstFree(t.busy) == |tests|
    ensures Filled(Added(t, test, true, size), tests + [test])
  {
    assert !t.busy[|tests|];
  }

  lemma FillingNext(agent: bool, r: Status, tests: seq<uint32>, test: uint32, size: nat)
    requires size > 0 && SoundAt(r, size) && !r.crashed && Filled(r.t, tests) && |tests| < |r.t.busy|
    ensures var r' := Step(r, Add(agent, test), size);
            SoundAt(r', size) && !r'.crashed && Filled(r'.t, tests + [test])
  {
    FilledStep(r.t, tests, test, size);
    OneAdded(agent, r.t, test, size);
    StepIsSoundIff(r, Add(agent, test), size);
  }

  /** After as many additions as there are tests given; the table is sound. */
  lemma {:induction false} Filling(agent: bool, n: uint32, tests: seq<uint32>, size: nat)
    requires size > 0 && |tests| <= n
    ensures var r := Run(Fresh(n), Adds(agent, tests), size);
            SoundAt(r, size) && !r.crashed && Filled(r.t, tests)
  {
    if tests != [] {
      var k := |tests| - 1;
      AddsOfPrefix(agent, tests);
      Filling(agent, n, tests[..k], size);
      FillingNext(agent, Run(Fresh(n), Adds(agent, tests[..k]), size), tests[..k], tests[k], size);
      RunLast(Fresh(n), Adds(agent, tests), size);
    }
  }

  // ---------- When is every sweep clear? ----------

  lemma TwelveCharactersTellTestsApart(s: Station, test: uint32, size: nat)
    requires size >= 12
    ensures !TestResembles(s, test, size)
  {
    FormatDLength(test);
    FormatDLength(s.test);
    if s.test != test && FormatD(test) == FormatD(s.test) { FormatDInjective(test, s.test); }
  }

  lemma ClearIfRoomy(t: Table, test: uint32, size: nat)
    requires size > 0 && Sound(t, size) && (|t.busy| <= 2 || size >= 12)
    ensures Clear(t, test, size)
  {
    FewerStationsThanDevices(t, size);
    if size >= 12 {
      forall s: Station ensures !TestResembles(s, test, size) {
        TwelveCharactersTellTestsApart(s, test, size);
      }
    }
    forall j | 0 <= j < Rounds(t, test) && t.entries[j].value.test == test ensures NoneNewer(t, test, size, j) {
    }
  }

  lemma {:induction false} EveryRunIsSound(n: uint32, events: seq<Event>, size: nat)
    requires size > 0 && (n <= 2 || size >= 12)
    ensures SoundAt(Run(Fresh(n), events, size), size)
  {
    if events != [] {
      var k := |events| - 1;
      var r, e := Run(Fresh(n), events[..k], size), events[k];
      EveryRunIsSound(n, events[..k], size);
      if !r.crashed && e.RemoveAll? { ClearIfRoomy(r.t, e.test, size); }
      StepIsSoundIff(r, e, size);
    }
  }

  const LONG: uint32 := 0x8000_0000

  lemma LongTestsResemble(s: Station, size: nat)
    requires 0 < size < 12 && s.test == LONG + 1
    ensures TestResembles(s, LONG, size)
  {
    ElevenCharacters();
    assert FormatD(LONG)[..size - 1] == FormatD(LONG)[..10][..size - 1];
    assert FormatD(LONG + 1)[..size - 1] == FormatD(LONG + 1)[..10][..size - 1];
  }

  /** Three stations of which a sweep takes the newest for one of its test's. */
  lemma UnclearTable(t: Table, tests: seq<uint32>, size: nat)
    requires 0 < size < 12 && Filled(t, tests) && |tests| == 3
    requires tests[0] == 0 && tests[1] == LONG && tests[2] == LONG + 1
    ensures !Clear(t, LONG, size)
  {
    LongTestsResemble(t.entries[0].value, size);
    assert t.entries[1].value.test == LONG && !NoneNewer(t, LONG, size, 1);
    assert t.entries[2].value.test == 0 && Rounds(t, LONG) == 3;
  }

  lemma UnclearSweepSpoils(t: Table, events: seq<Event>, test: uint32, size: nat)
    requires size > 0 && |t.busy| < TWO_TO_THE_32
    requires var r := Run(t, events, size); SoundAt(r, size) && !r.crashed && !Clear(r.t, test, size)
    ensures !SoundAt(Run(t, events + [RemoveAll(test)], size), size)
  {
    var all := events + [RemoveAll(test)];
    assert all[..|events|] == events;
    StepIsSoundIff(Run(t, events, size), RemoveAll(test), size);
  }

  lemma UnclearRun(n: uint32, tests: seq<uint32>, size: nat) returns (events: seq<Event>)
    requires 0 < size < 12 && |tests| == 3 <= n
    requires tests[0] == 0 && tests[1] == LONG && tests[2] == LONG + 1
    ensures OfGateway(events) && !SoundAt(Run(Fresh(n), events, size), size)
  {
    var adds := Adds(false, tests);
    Filling(false, n, tests, size);
    UnclearTable(Run(Fresh(n), adds, size).t, tests, size);
    UnclearSweepSpoils(Fresh(n), adds, LONG, size);
    events := adds + [RemoveAll(LONG)];
  }

  /**
   Every run of the gateway's manager leaves a sound table, sweeps included, exactly when there
   are at most two devices or twelve characters. The agent's always do.
   */
  lemma EveryRunIsSoundIff(n: uint32, size: nat)
    requires size > 0
    ensures (forall events: seq<Event> :: OfGateway(events) ==> SoundAt(Run(Fresh(n), events, size), size))
       <==> n <= 2 || size >= 12
    ensures forall events: seq<Event> :: OfAgent(events) ==> SoundAt(Run(Fresh(n), events, size), size)
  {
    forall events: seq<Event> | OfAgent(events) ensures SoundAt(Run(Fresh(n), events, size), size) {
      AgentNeverLeaks(n, events, size);
    }
    if n <= 2 || size >= 12 {
      forall events: seq<Event> ensures SoundAt(Run(Fresh(n), events, size), size) {
        EveryRunIsSound(n, events, size);
      }
    } else {
      var events := UnclearRun(n, [0, LONG, LONG + 1], size);
    }
  }

  // ---------- When does every key remove the station it was made for? ----------

  /** Removing by the key of s would be exact here, unless nothing is removed any more. */
  predicate ExactAt(r: Status, s: Station, size: nat)
    requires size > 0
  {
    r.Reached? && (r.crashed || RemovesExactly(r.t, s, size))
  }

  /** Fourteen characters tell one-digit devices apart. */
  lemma OneDigitResembles(s': Station, s: Station, size: nat)
    requires size >= 14 && s'.dev < 10 && s.dev < 10 && Resembles(s', s, size)
    ensures s' == s
  {
    FormatDLength(s.test);
    assert |FormatD(s.dev)| == |FormatD(s'.dev)| == 1;
    assert Stored(FormatD(s.dev), size - 1 - |FormatD(s.test)|) == FormatD(s.dev);
    FormatDInjective(s.dev, s'.dev);
  }

  /** Twelve characters tell tests apart. */
  lemma SameDeviceResembles(s': Station, s: Station, size: nat)
    requires size >= 12 && s'.dev == s.dev && Resembles(s', s, size)
    ensures s' == s
  {
    TwelveCharactersTellTestsApart(s', s.test, size);
  }

  lemma ExactIfRoomy(t: Table, s: Station, size: nat)
    requires size > 1 && Sound(t, size) && s.dev < |t.busy| <= 10
    requires size >= 14 || (|t.busy| == 1 && (size >= 12 || OnFile(t, s)))
    ensures RemovesExactly(t, s, size)
  {
    RemovesExactlyIff(t, s, size);
    FewerStationsThanDevices(t, size);
    forall j | 0 <= j < |t.entries| ensures t.entries[j].value.dev < |t.busy| {
      assert t.entries[j].value.dev as nat in Devs(t.entries);
    }
    forall j | 0 <= j < FirstHolding(t.entries, s) ensures !Resembles(t.entries[j].value, s, size) {
      if Resembles(t.entries[j].value, s, size) {
        if size >= 14 {
          OneDigitResembles(t.entries[j].value, s, size);
        } else {
          SameDeviceResembles(t.entries[j].value, s, size);
        }
      }
    }
  }

  /** With a buffer of one character the station just added is not removed by its key. */
  lemma EmptyKeyRemovesNothing(agent: bool, n: uint32)
    requires n >= 1
    ensures var r, s := Run(Fresh(n), Adds(agent, [0]), 1), Station(0, 0);
            r.Reached? && OnFile(r.t, s) && !ExactAt(r, s, 1)
  {
    Filling(agent, n, [0], 1);
    RemovesExactlyIff(Run(Fresh(n), Adds(agent, [0]), 1).t, Station(0, 0), 1);
  }

  lemma NewestResembles(t: Table, s: Station, size: nat)
    requires size > 1 && Sound(t, size) && t.entries != []
    requires t.entries[0].value != s && Resembles(t.entries[0].value, s, size)
    ensures !RemovesExactly(t, s, size)
  {
    RemovesExactlyIff(t, s, size);
    assert FirstHolding(t.entries, s) > 0;
  }

  lemma FilledHolds(t: Table, tests: seq<uint32>, d: nat)
    requires Filled(t, tests) && d < |tests|
    ensures d < TWO_TO_THE_32 && t.entries[|tests| - 1 - d].value == Station(tests[d], d)
    ensures OnFile(t, Station(tests[d], d))
  {
    assert t.entries[|tests| - 1 - d].value.dev == d;
  }

  /** The newest station on file is taken for s. */
  lemma NewestIsTaken(agent: bool, n: uint32, tests: seq<uint32>, s: Station, size: nat)
    requires size > 1 && 0 < |tests| <= n
    requires tests[|tests| - 1] != s.test || |tests| - 1 != s.dev
    requires PrintsAlike(tests[|tests| - 1], |tests| - 1, s.test, s.dev, size)
    ensures var r := Run(Fresh(n), Adds(agent, tests), size);
            && r.Reached? && !ExactAt(r, s, size)
            && (s.dev < |tests| && tests[s.dev] == s.test ==> OnFile(r.t, s))
  {
    Filling(agent, n, tests, size);
    var t := Run(Fresh(n), Adds(agent, tests), size).t;
    FilledHolds(t, tests, |tests| - 1);
    if s.dev < |tests| { FilledHolds(t, tests, s.dev); }
    NewestResembles(t, s, size);
  }

  /** A key made for the longest test id has no room for the device below 14 characters. */
  lemma LongTestLeavesNoRoom(d': uint32, d: uint32, size: nat)
    requires 1 < size <= 13
    ensures PrintsAlike(LONG, d', LONG, d, size)
  {
    ElevenCharacters();
  }

  lemma TenContinuesOne(size: nat)
    requires size > 0
    ensures PrintsAlike(0, 10, 0, 1, size)
  {
    assert Extends(10, 1) by { assert Extends(1, 1); }
    StationTextPrefixIff(0, 1, 0, 10);
    StationKeyPrefixIff(0, 1, 0, 10, size);
  }

  /** The sizes at which every removal is exact, of all the manager's devices or of stations on file alone. */
  predicate Roomy(n: uint32, size: nat) {
    n == 0 || (n == 1 && size >= 12) || (2 <= n <= 10 && size >= 14)
  }

  predicate RoomyOnFile(n: uint32, size: nat) {
    n == 0 || (n == 1 && size >= 2) || (2 <= n <= 10 && size >= 14)
  }

  lemma RemovalIsExact(n: uint32, events: seq<Event>, s: Station, size: nat)
    requires size > 0 && s.dev < n
    ensures var r := Run(Fresh(n), events, size);
            Roomy(n, size) || (RoomyOnFile(n, size) && r.Reached? && OnFile(r.t, s)) ==> ExactAt(r, s, size)
  {
    if RoomyOnFile(n, size) {
      var r := Run(Fresh(n), events, size);
      EveryRunIsSound(n, events, size);
      if Roomy(n, size) || OnFile(r.t, s) { ExactIfRoomy(r.t, s, size); }
    }
  }

  lemma InexactRemoval(agent: bool, n: uint32, size: nat) returns (events: seq<Event>, s: Station)
    requires size > 0 && !Roomy(n, size)
    ensures var r := Run(Fresh(n), events, size);
            && Of(agent, events) && s.dev < n
            && r.Reached? && !ExactAt(r, s, size) && (!RoomyOnFile(n, size) ==> OnFile(r.t, s))
  {
    var tests: seq<uint32>;
    if size == 1 {
      tests, s := [0], Station(0, 0);
      EmptyKeyRemovesNothing(agent, n);
    } else if n > 10 {
      tests, s := seq(11, _ => 0), Station(0, 1);
      TenContinuesOne(size);
    } else if n == 1 {
      tests, s := [LONG + 1], Station(LONG, 0);
      LongTestsResemble(Station(LONG + 1, 0), size);
    } else {
      tests, s := [LONG, LONG], Station(LONG, 0);
      LongTestLeavesNoRoom(1, 0, size);
    }
    events := Adds(agent, tests);
    if size > 1 { NewestIsTaken(agent, n, tests, s, size); }
  }

  /**
   Every removal by key is exact, after every run of either manager and for every station of one
   of its devices, on file or not, exactly when there are no devices, one and at least twelve
   characters, or at most ten and at least fourteen.
   */
  lemma EveryRemovalIsExactIff(agent: bool, n: uint32, size: nat)
    requires size > 0
    ensures (forall events: seq<Event>, s: Station ::
               Of(agent, events) && s.dev < n ==> ExactAt(Run(Fresh(n), events, size), s, size))
       <==> n == 0 || (n == 1 && size >= 12) || (2 <= n <= 10 && size >= 14)
  {
    if Roomy(n, size) {
      forall events: seq<Event>, s: Station | s.dev < n ensures ExactAt(Run(Fresh(n), events, size), s, size) {
        RemovalIsExact(n, events, s, size);
      }
    } else {
      var events, s := InexactRemoval(agent, n, size);
    }
  }

  ghost predicate ExactOnFileAt(r: Status, s: Station, size: nat)
    requires size > 0
  {
    r.Reached? && OnFile(r.t, s) ==> ExactAt(r, s, size)
  }

  /** In a run from init every station on file is on one of the manager's devices. */
  lemma OnFileHasDevice(t: Table, s: Station, size: nat)
    requires size > 0 && Sound(t, size) && OnFile(t, s)
    ensures s.dev < |t.busy|
  {
    assert t.entries[FirstHolding(t.entries, s)].value.dev as nat in Devs(t.entries);
  }

  /**
   For the stations on file alone: exactly when there are no devices, one and at least two
   characters, or at most ten and at least fourteen.
   */
  lemma EveryRemovalOnFileIsExactIff(agent: bool, n: uint32, size: nat)
    requires size > 0
    ensures (forall events: seq<Event>, s: Station ::
               Of(agent, events) ==> ExactOnFileAt(Run(Fresh(n), events, size), s, size))
       <==> n == 0 || (n == 1 && size >= 2) || (2 <= n <= 10 && size >= 14)
  {
    if RoomyOnFile(n, size) {
      forall events: seq<Event>, s: Station ensures ExactOnFileAt(Run(Fresh(n), events, size), s, size) {
        EveryRunIsSound(n, events, size);
        var r := Run(Fresh(n), events, size);
        if OnFile(r.t, s) {
          OnFileHasDevice(r.t, s, size);
          RemovalIsExact(n, events, s, size);
        }
      }
    } else {
      var events, s := InexactRemoval(agent, n, size);
      assert !ExactOnFileAt(Run(Fresh(n), events, size), s, size);
    }
  }
}
