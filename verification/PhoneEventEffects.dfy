/** What a recording, a scan, the guard and a decision do to each part of the store: the
    values, drivers, words and limits written out. */
module PhoneEventEffects {
  import opened Options
  import opened PhoneEvents

  // ---- Recording ----

  // A prompt of this interface whose connection can be the plan's.
  predicate OpenFor(e: Event, p: Plan) {
    && e.status.Pending? && e.kind.PhoneTether? && e.iface == p.iface
    && (e.connection == p.connection || e.connection == "" || p.connection == "")
  }

  // The last 80.
  ghost predicate LastEighty(events: seq<Event>, kept: seq<Event>) {
    if |events| <= 80 then kept == events else |kept| == 80 && kept == events[|events| - 80..]
  }

  lemma MergedIs(e: Event, p: Plan, action: Action, probe: Probe)
    requires OpenFor(e, p)
    ensures var c := if p.connection != "" then p.connection else e.connection;
      Merged(e, p, action, probe) ==
        Event(e.id, e.kind, Pending, e.iface, c, e.driver, c != "", p.carrier, p.operstate, true,
          e.observed + 1, action, if probe.route != "" then probe.route else e.route, e.decision)
  {
  }

  lemma RecordOf(s: Store, p: Plan, action: Action, probe: Probe, i: nat)
    requires i < |s.events| && i == MergeIndex(s.events, p)
    ensures Record(s, p, action, probe) == s.(events := Trim(s.events[i := Merged(s.events[i], p, action, probe)]))
  {
  }

  lemma TrimIsLast(events: seq<Event>)
    ensures LastEighty(events, Trim(events))
  {
  }

  /** A second sighting is noted in the first open prompt: a connection once known stays
      unless the plan knows one, everything seen is the newest, identity and status stay. */
  lemma RecordMerges(s: Store, p: Plan, action: Action, probe: Probe, i: nat, e: Event, t: Store)
    requires i < |s.events| && e == s.events[i] && OpenFor(e, p)
    requires forall k :: 0 <= k < i ==> !OpenFor(s.events[k], p)
    requires t == Record(s, p, action, probe)
    ensures var c := if p.connection != "" then p.connection else e.connection;
      LastEighty(
        s.events[i := Event(e.id, e.kind, Pending, e.iface, c, e.driver, c != "", p.carrier, p.operstate, true,
          e.observed + 1, action, if probe.route != "" then probe.route else e.route, e.decision)],
        t.events)
    ensures t.policy == s.policy && t.profiles == s.profiles && t.log == s.log
  {
    MergeIndexIs(s.events, p, i);
    RecordOf(s, p, action, probe, i);
    MergedIs(e, p, action, probe);
    TrimIsLast(s.events[i := Merged(e, p, action, probe)]);
  }

  /** Without an open prompt it is a new one, at the end. */
  lemma RecordAppends(s: Store, p: Plan, action: Action, probe: Probe, t: Store, f: Event)
    requires forall k :: 0 <= k < |s.events| ==> !OpenFor(s.events[k], p)
    requires t == Record(s, p, action, probe)
    requires f == Event(
      probe.stamp + "-" + p.iface, PhoneTether, Pending, p.iface, p.connection, p.driver, p.connection != "",
      p.carrier, p.operstate, true, 1, action, probe.route, None)
    ensures LastEighty(s.events + [f], t.events)
    ensures t.policy == s.policy && t.profiles == s.profiles && t.log == s.log + [f.id]
  {
    MergeIndexIs(s.events, p, |s.events|);
  }

  // ---- Asking ----

  // No policy is saved for the plan, or the saved one is to ask.
  predicate AsksFor(policy: map<string, SavedChoice>, p: Plan) {
    var key := p.driver + ":" + p.iface + ":" + p.connection;
    key !in policy || (policy[key] != KeepCurrentUpstream && policy[key] != UsePhonePort)
  }

  // An event of this interface and driver whose connection can be the plan's.
  predicate SameDeviceAs(e: Event, p: Plan) {
    && e.kind.PhoneTether? && e.iface == p.iface && e.driver == p.driver
    && (e.connection == p.connection || e.connection == "" || p.connection == "")
  }

  predicate Silenced(events: seq<Event>, p: Plan) {
    exists e <- events ::
      && SameDeviceAs(e, p) && e.status.Resolved? && e.present
      && e.decision in {Some(IgnoreOnce), Some(KeepCurrent), Some(UsePhoneOnce)}
  }

  lemma AsksIsPrompt(policy: map<string, SavedChoice>, p: Plan)
    ensures AsksFor(policy, p) <==> SavedPolicy(policy, p).Prompt?
  {
  }

  lemma SilencedIsSuppressed(events: seq<Event>, p: Plan)
    ensures Silenced(events, p) <==> Suppressed(events, p)
  {
    forall e <- events
      ensures MatchesPlan(e, p) && OneShotDecided(e) <==>
        && SameDeviceAs(e, p) && e.status.Resolved?
        && e.decision in {Some(IgnoreOnce), Some(KeepCurrent), Some(UsePhoneOnce)}
    {
    }
  }

  /** A scan marks every phone event by whether some plan is for its device, ... */
  lemma ScanMarks(events: seq<Event>, plans: seq<Plan>, i: nat)
    requires i < |events|
    ensures MarkPresence(events, plans)[i] ==
      if events[i].kind.PhoneTether?
      then events[i].(present := exists p <- plans :: SameDeviceAs(events[i], p)) else events[i]
  {
    assert forall p :: SameDeviceAs(events[i], p) <==> MatchesPlan(events[i], p);
  }

  /** ... and then records a device exactly when it is to ask and nothing silences it. */
  lemma ScanRecords(s: Store, x: Sighting)
    ensures ScanOne(s, x) ==
      if AsksFor(s.policy, x.plan) && !Silenced(s.events, x.plan) then Record(s, x.plan, ByScan, x.probe) else s
  {
    AsksIsPrompt(s.policy, x.plan);
    SilencedIsSuppressed(s.events, x.plan);
  }

  /** A scan answers with the prompts of the file, each where it stands. */
  lemma {:induction false} PromptsExactly(events: seq<Event>, e: Event)
    ensures e in PromptsOf(events) <==> e in events && e.status.Pending?
  {
    if events != [] {
      var n := |events| - 1;
      PromptsExactly(events[..n], e);
      assert events == events[..n] + [events[n]];
    }
  }

  lemma {:induction false} PromptsInOrder(events: seq<Event>, more: seq<Event>)
    ensures PromptsOf(events + more) == PromptsOf(events) + PromptsOf(more)
    decreases |more|
  {
    if more == [] {
      assert events + more == events;
    } else {
      var n := |more| - 1;
      PromptsInOrder(events, more[..n]);
      assert (events + more)[..|events| + n] == events + more[..n];
    }
  }

  // ---- Demoting ----

  // After the policy the connection is no default route and has the highest metric; its
  // other settings and the other connections are as before.
  ghost predicate DemotedOnly(before: map<string, Profile>, after: map<string, Profile>, connection: string) {
    && connection in after
    && Ipv4NeverDefault in after[connection] && after[connection][Ipv4NeverDefault] == "yes"
    && Ipv6NeverDefault in after[connection] && after[connection][Ipv6NeverDefault] == "yes"
    && Ipv4RouteMetric in after[connection] && after[connection][Ipv4RouteMetric] == "9000"
    && Ipv6RouteMetric in after[connection] && after[connection][Ipv6RouteMetric] == "9000"
    && (forall name: string ::
          OtherSetting(name) in after[connection] <==>
            connection in before && OtherSetting(name) in before[connection])
    && (forall name: string :: OtherSetting(name) in after[connection] ==>
          after[connection][OtherSetting(name)] == before[connection][OtherSetting(name)])
    && (forall c: string :: c != connection ==>
          (c in after <==> c in before) && (c in before ==> after[c] == before[c]))
  }

  lemma AppliedDemotes(profiles: map<string, Profile>, connection: string)
    ensures DemotedOnly(profiles, ApplyPolicy(profiles, connection, DemotePolicy()), connection)
  {
  }

  lemma PhoneDriversAre(driver: string)
    ensures driver in PhoneDrivers() <==> driver in {"ipheth", "rndis_host", "cdc_ether", "cdc_ncm"}
  {
  }

  /** The guard demotes the connection of a phone's driver exactly when nmcli works, ... */
  lemma GuardDemotes(s: Store, p: Plan, probe: Probe, nmOk: bool, t: Store)
    requires t == GuardApply(s, p, probe, nmOk)
    ensures if p.driver in {"ipheth", "rndis_host", "cdc_ether", "cdc_ncm"} && nmOk
      then DemotedOnly(s.profiles, t.profiles, p.connection) else t.profiles == s.profiles
  {
    AppliedDemotes(s.profiles, p.connection);
    GuardProfiles(s, p, probe, nmOk);
  }

  lemma RecordKeepsProfiles(s: Store, p: Plan, action: Action, probe: Probe)
    ensures Record(s, p, action, probe).profiles == s.profiles
  {
  }

  lemma GuardProfiles(s: Store, p: Plan, probe: Probe, nmOk: bool)
    ensures GuardApply(s, p, probe, nmOk).profiles ==
      if p.driver in {"ipheth", "rndis_host", "cdc_ether", "cdc_ncm"} && nmOk
      then ApplyPolicy(s.profiles, p.connection, DemotePolicy()) else s.profiles
  {
    PhoneDriversAre(p.driver);
    RecordKeepsProfiles(s, p, NoAction, probe);
  }

  /** ... and records it exactly when it is to ask. */
  lemma GuardRecords(s: Store, p: Plan, probe: Probe, nmOk: bool, t: Store, u: Store)
    requires t == GuardApply(s, p, probe, nmOk) && u == Record(s, p, NoAction, probe)
    ensures t.policy == s.policy
    ensures if p.driver in {"ipheth", "rndis_host", "cdc_ether", "cdc_ncm"} && AsksFor(s.policy, p)
      then t.events == u.events && t.log == u.log else t.events == s.events && t.log == s.log
  {
    AsksIsPrompt(s.policy, p);
    PhoneDriversAre(p.driver);
  }

  // ---- Deciding ----

  // What an accepted decision leaves, for event i and its device.
  ghost predicate Effect(s: Store, t: Store, i: nat, decision: Decision)
    requires i < |s.events|
  {
    var e := s.events[i];
    var key := e.driver + ":" + e.iface + ":" + e.connection;
    && LastEighty(s.events[i := e.(status := Resolved, decision := Some(decision), present := true)], t.events)
    && t.log == s.log
    && t.policy == (
         if decision == AlwaysKeepCurrent then s.policy[key := KeepCurrentUpstream]
         else if decision == AlwaysUsePhone then s.policy[key := UsePhonePort]
         else s.policy)
    && (if e.connection != "" && decision != IgnoreOnce then DemotedOnly(s.profiles, t.profiles, e.connection)
        else t.profiles == s.profiles)
  }

  // What stands in the way of a decision for a connection.
  predicate Refused(kind: Kind, connection: string, decision: Decision, nmOk: bool) {
    || decision.Unknown? || !kind.PhoneTether?
    || (connection == "" && decision in {UsePhoneOnce, AlwaysUsePhone})
    || (connection != "" && decision != IgnoreOnce && !nmOk)
  }

  /** A decision is refused, and changes nothing, when the word is unknown, the event is no
      phone's, a use of the phone finds no connection, or nmcli fails to demote one. */
  lemma RefusedExactlyWhen(s: Store, id: string, decision: Decision, nmOk: bool, i: nat, e: Event)
    requires i < |s.events| && e == s.events[i] && e.id == id && forall k :: 0 <= k < i ==> s.events[k].id != id
    ensures var (t, outcome) := Select(s, id, decision, nmOk);
      if decision.Unknown? then t == s && outcome.UnknownDecision?
      else if !e.kind.PhoneTether? then t == s && outcome.UnsupportedType?
      else if e.connection == "" && decision in {UsePhoneOnce, AlwaysUsePhone} then t == s && outcome.LinkNotReady?
      else if e.connection != "" && decision != IgnoreOnce && !nmOk then t == s && outcome.PolicyFailed?
      else outcome == Selected(e.(status := Resolved, decision := Some(decision), present := true))
  {
    IdIndexIs(s.events, id, i);
  }

  lemma Accepted(s: Store, id: string, decision: Decision, nmOk: bool, i: nat, e: Event)
    requires i < |s.events| && e == s.events[i] && i == IdIndex(s.events, id)
    requires !Refused(e.kind, e.connection, decision, nmOk)
    ensures Select(s, id, decision, nmOk).0 == s.(
      events := Trim(s.events[i := ResolvedBy(e, decision)]), policy := SavePolicy(s, e, decision),
      profiles := if e.connection != "" && decision != IgnoreOnce
        then ApplyPolicy(s.profiles, e.connection, DemotePolicy()) else s.profiles)
  {
  }

  /** What each of the five decisions does to the first event with the identifier, when it
      is accepted: every one but "ignore once" demotes a known connection. */
  lemma DecisionEffects(s: Store, id: string, decision: Decision, nmOk: bool, i: nat, e: Event, t: Store)
    requires i < |s.events| && e == s.events[i] && e.id == id && forall k :: 0 <= k < i ==> s.events[k].id != id
    requires !Refused(e.kind, e.connection, decision, nmOk) && t == Select(s, id, decision, nmOk).0
    ensures Effect(s, t, i, decision)
  {
    IdIndexIs(s.events, id, i);
    Accepted(s, id, decision, nmOk, i, e);
    AppliedDemotes(s.profiles, e.connection);
  }

  lemma UnknownIdRefused(s: Store, id: string, decision: Decision, nmOk: bool)
    requires forall k :: 0 <= k < |s.events| ==> s.events[k].id != id
    ensures Select(s, id, decision, nmOk) == (s, if decision.Unknown? then UnknownDecision else UnknownEvent)
  {
    IdIndexIs(s.events, id, |s.events|);
  }
}
