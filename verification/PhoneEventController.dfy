/** The event-store code as it updates its files in place, proved against the
    functions of PhoneEvents. */
module PhoneEventController {
  import opened Options
  import opened PhoneEvents

  class Controller {
    var events: seq<Event>                    // network-events.json
    var policy: map<string, SavedChoice>      // upstream-policy.json
    var profiles: map<string, Profile>        // NetworkManager connection settings
    ghost var log: seq<string>                // ids appended since the beginning

    ghost function View(): Store
      reads this
    {
      Store(events, policy, profiles, log)
    }

    constructor ()
      ensures View() == EmptyStore()
    {
      events, policy, profiles, log := [], map[], map[], [];
    }

    method WriteStore(store: seq<Event>)
      modifies this`events
      ensures events == Trim(store)
    {
      events := if |store| > LOG_LIMIT then store[|store| - LOG_LIMIT..] else store;
    }

    static method Observe(e: Event, plan: Plan, action: Action, probe: Probe) returns (event: Event)
      ensures event == Merged(e, plan, action, probe)
    {
      event := e.(observed := e.observed + 1, action := action);
      event := event.(connection := if plan.connection != "" then plan.connection else event.connection);
      event := event.(connectionKnown := event.connection != "");
      event := event.(carrier := plan.carrier, operstate := plan.operstate, present := true);
      if probe.route != "" {
        event := event.(route := probe.route);
      }
    }

    method RecordPhoneTetherEvent(plan: Plan, action: Action, probe: Probe) returns (event: Event)
      modifies this`events, this`log
      ensures View() == Record(old(View()), plan, action, probe)
      ensures event == Recorded(old(events), plan, action, probe)
    {
      var store := events;
      for i := 0 to |store|
        invariant forall k :: 0 <= k < i ==> !Mergeable(store[k], plan)
      {
        if Mergeable(store[i], plan) {
          MergeIndexIs(store, plan, i);
          event := Observe(store[i], plan, action, probe);
          WriteStore(store[i := event]);
          return;
        }
      }
      MergeIndexIs(store, plan, |store|);
      event := Fresh(plan, action, probe);
      log := log + [event.id];
      WriteStore(store + [event]);
    }

    static method MarkPhoneEventPresence(store: seq<Event>, plans: seq<Plan>)
      returns (marked: seq<Event>, changed: bool)
      ensures marked == MarkPresence(store, plans)
      ensures changed <==> marked != store
    {
      marked, changed := store, false;
      for i := 0 to |store|
        invariant |marked| == |store|
        invariant forall k :: 0 <= k < i ==> marked[k] == Marked(store[k], plans)
        invariant forall k :: i <= k < |store| ==> marked[k] == store[k]
        invariant changed <==> exists k :: 0 <= k < i && Marked(store[k], plans) != store[k]
      {
        if store[i].kind.PhoneTether? {
          var present := exists p <- plans :: MatchesPlan(store[i], p);
          if store[i].present != present {
            marked := marked[i := store[i].(present := present)];
            changed := true;
          }
        }
      }
    }

    static method Prompts(store: seq<Event>) returns (pending: seq<Event>)
      ensures pending == PromptsOf(store)
    {
      pending := [];
      for i := 0 to |store|
        invariant pending == PromptsOf(store[..i])
      {
        assert store[..i + 1][..i] == store[..i];
        if store[i].status.Pending? {
          pending := pending + [store[i]];
        }
      }
      assert store[..|store|] == store;
    }

    method NetworkEventsJson(sightings: seq<Sighting>) returns (pending: seq<Event>)
      modifies this`events, this`log
      ensures View() == Scan(old(View()), sightings)
      ensures pending == PromptsOf(events)
    {
      var marked, changed := MarkPhoneEventPresence(events, Plans(sightings));
      if changed {
        WriteStore(marked);
      }
      assert View() == MarkedStore(old(View()), sightings);
      for i := 0 to |sightings|
        invariant ScanFrom(View(), sightings[i..]) == Scan(old(View()), sightings)
        invariant policy == old(policy) && profiles == old(profiles)
      {
        var plan := sightings[i].plan;
        ghost var before := View();
        if SavedPolicy(policy, plan).Prompt? {
          if !Suppressed(events, plan) {
            var _ := RecordPhoneTetherEvent(plan, ByScan, sightings[i].probe);
          }
        }
        assert View() == ScanOne(before, sightings[i..][0]);
        assert sightings[i..][1..] == sightings[i + 1..];
      }
      pending := Prompts(events);
    }

    method ApplyConnectionPolicy(connection: string, settings: Profile, nmOk: bool)
      modifies this`profiles
      ensures profiles == if nmOk then ApplyPolicy(old(profiles), connection, settings) else old(profiles)
    {
      if nmOk {
        profiles := ApplyPolicy(profiles, connection, settings);
      }
    }

    method PhoneTetherGuardApply(plan: Plan, probe: Probe, nmOk: bool) returns (applied: bool)
      modifies this
      ensures View() == GuardApply(old(View()), plan, probe, nmOk)
      ensures applied <==> plan.driver in PhoneDrivers() && nmOk
    {
      if plan.driver !in PhoneDrivers() {
        return false;
      }
      if SavedPolicy(policy, plan).Prompt? {
        var _ := RecordPhoneTetherEvent(plan, NoAction, probe);
      }
      ApplyConnectionPolicy(plan.connection, DemotePolicy(), nmOk);
      return nmOk;
    }

    static method UpdateEvent(store: seq<Event>, id: string, decision: Decision) returns (updated: seq<Event>)
      ensures var i := IdIndex(store, id);
              updated == if i < |store| then store[i := ResolvedBy(store[i], decision)] else store
    {
      for i := 0 to |store|
        invariant forall k :: 0 <= k < i ==> store[k].id != id
      {
        if store[i].id == id {
          IdIndexIs(store, id, i);
          return store[i := store[i].(status := Resolved, decision := Some(decision), present := true)];
        }
      }
      IdIndexIs(store, id, |store|);
      return store;
    }

    method UpstreamSelect(id: string, decision: Decision, nmOk: bool) returns (outcome: SelectOutcome)
      modifies this
      ensures (View(), outcome) == Select(old(View()), id, decision, nmOk)
    {
      if decision.Unknown? {
        return UnknownDecision;
      }
      var store := events;
      var i := IdIndex(store, id);
      if i == |store| {
        return UnknownEvent;
      }
      var event := store[i];
      if !event.kind.PhoneTether? {
        return UnsupportedType;
      }
      var connection := event.connection;
      if connection == "" && decision.UsesPhone() {
        return LinkNotReady;
      }
      if connection != "" && decision.Demotes() {
        ApplyConnectionPolicy(connection, DemotePolicy(), nmOk);
        if !nmOk {
          return PolicyFailed;
        }
      }
      if decision.AlwaysKeepCurrent? {
        policy := policy[PolicyKey(event.iface, connection, event.driver) := KeepCurrentUpstream];
      }
      if decision.AlwaysUsePhone? {
        policy := policy[PolicyKey(event.iface, connection, event.driver) := UsePhonePort];
      }
      var updated := UpdateEvent(store, id, decision);
      WriteStore(updated);
      return Selected(ResolvedBy(event, decision));
    }
  }
}
