/**
 The station managers of module Stations, driven by any sequence of events from init on, go through
 the tables of module StationRuns.
 */
module StationObjects {
  import opened Collection
  import opened Decimal
  import opened HashMap
  import opened Stations
  import opened StationTable
  import opened StationSweep
  import opened StationRuns

  /** One event: what the manager does is one step of the run. */
  method Perform(m: StationManager, e: Event) returns (crashed: bool)
    requires m.Valid() && (e.RemoveAll? ==> Sound(m.State(), m.keySize))
    modifies m.staMap.queue.Repr, m.infos
    ensures m.Valid() && fresh(m.staMap.queue.Repr - old(m.staMap.queue.Repr))
    ensures Reached(m.State(), crashed) == Done(old(m.State()), e, m.keySize)
  {
    crashed := false;
    match e
    case AgentAdd(test, connected) => var _, _ := m.AddSta(test, connected);
    case GatewayAdd(test, clients) => var _, _ := m.AddClients(test, clients);
    case Remove(key) => m.RemoveSta(key);
    case RemoveAll(test) => crashed := RemoveAllSta(m, test);
  }

  /** No sweep starts from a table that an earlier one has spoiled. */
  ghost predicate SweepsStartSound(t: Table, events: seq<Event>, size: nat)
    requires size > 0 && |t.busy| < TWO_TO_THE_32
  {
    forall k :: 0 <= k < |events| && events[k].RemoveAll? ==>
      var r := Run(t, events[..k], size); r.Reached? && !r.crashed ==> Sound(r.t, size)
  }

  /** That is so of a run whose sweeps, but for the last event, are all clear. */
  lemma ClearRunStartsSound(t: Table, events: seq<Event>, size: nat)
    requires size > 0 && Sound(t, size) && events != [] && ClearRun(t, events, size, |events| - 1)
    ensures SweepsStartSound(t, events, size)
  {
    forall k | 0 <= k < |events| ensures SoundAt(Run(t, events[..k], size), size) {
      SoundAfter(t, events, size, k);
    }
  }

  lemma StartsSoundBefore(t: Table, events: seq<Event>, size: nat)
    requires size > 0 && |t.busy| < TWO_TO_THE_32 && events != [] && SweepsStartSound(t, events, size)
    ensures var n := |events| - 1;
            && SweepsStartSound(t, events[..n], size)
            && var r := Run(t, events[..n], size);
               events[n].RemoveAll? && r.Reached? && !r.crashed ==> Sound(r.t, size)
  {
    var n := |events| - 1;
    forall k | 0 <= k < n ensures events[..n][..k] == events[..k] {
    }
  }

  /** Performs an event unless the process has died. */
  method PerformNext(m: StationManager, e: Event, crashed: bool, ghost r: Status, ghost area: set<object>)
    returns (crashed': bool, ghost area': set<object>)
    requires m.Valid() && m.staMap.queue.Repr <= area && r == Reached(m.State(), crashed)
    requires e.RemoveAll? && !crashed ==> Sound(m.State(), m.keySize)
    modifies area, m.infos
    ensures m.Valid() && m.staMap.queue.Repr <= area' && fresh(area' - area)
    ensures Reached(m.State(), crashed') == Step(r, e, m.keySize)
  {
    crashed', area' := crashed, area;
    if !crashed {
      crashed' := Perform(m, e);
      area' := area + m.staMap.queue.Repr;
    }
  }

  /** Any sequence of events. */
  method PerformAll(m: StationManager, events: seq<Event>, ghost area: set<object>)
    returns (crashed: bool, ghost area': set<object>)
    requires m.Valid() && m.staMap.queue.Repr <= area && SweepsStartSound(m.State(), events, m.keySize)
    modifies area, m.infos
    ensures m.Valid() && m.staMap.queue.Repr <= area' && fresh(area' - area)
    ensures Reached(m.State(), crashed) == Run(old(m.State()), events, m.keySize)
    decreases |events|
  {
    crashed, area' := false, area;
    if events != [] {
      var n := |events| - 1;
      ghost var t := m.State();
      StartsSoundBefore(t, events, m.keySize);
      crashed, area' := PerformAll(m, events[..n], area);
      RunLast(t, events, m.keySize);
      crashed, area' := PerformNext(m, events[n], crashed, Run(t, events[..n], m.keySize), area');
    }
  }

  /**
   A manager set up by init and any sequence of events performed on it, up to a sweep from a table that
   an earlier one has spoiled: its devices and stations are those at the end of the run, and the
   process has died exactly if it has in the run.
   */
  method Exercise(interfaces: seq<Interface>, skipZeroMac: bool, keySize: nat, events: seq<Event>)
    returns (m: StationManager, crashed: bool)
    requires keySize > 0 && |interfaces| < TWO_TO_THE_31
    requires SweepsStartSound(Fresh(|Usable(interfaces, skipZeroMac, 0)|), events, keySize)
    ensures m.Valid() && m.keySize == keySize
    ensures Reached(m.State(), crashed) == Run(Fresh(|Usable(interfaces, skipZeroMac, 0)|), events, keySize)
  {
    m := new StationManager(interfaces, skipZeroMac, keySize);
    ghost var area := m.staMap.queue.Repr;
    crashed, area := PerformAll(m, events, area);
  }
}
