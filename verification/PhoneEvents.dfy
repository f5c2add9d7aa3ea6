/** The phone-tether event store of the proxy stack controller: a bounded log of
    events in one file, updated by interface scans, by the NetworkManager
    dispatcher guard and by the user's decisions. Each operation is a function
    from the stored state to the next one; PhoneEventController.dfy proves the
    in-place code against these functions. */
module PhoneEvents {
  import opened Options

  const LOG_LIMIT := 80

  function PhoneDrivers(): set<string> {
    {"ipheth", "rndis_host", "cdc_ether", "cdc_ncm"}
  }

  // The event type "phone_tether_detected", and whatever else a file may contain.
  datatype Kind = PhoneTether | OtherKind(name: string)

  datatype Status = Pending | Resolved

  // The five choices offered to the user; any other word is refused.
  datatype Decision =
    | KeepCurrent | UsePhoneOnce | IgnoreOnce | AlwaysKeepCurrent | AlwaysUsePhone
    | Unknown(word: string)
  {
    predicate OneShot() {
      IgnoreOnce? || KeepCurrent? || UsePhoneOnce?
    }

    predicate UsesPhone() {
      UsePhoneOnce? || AlwaysUsePhone?
    }

    predicate Demotes() {
      KeepCurrent? || AlwaysKeepCurrent? || UsesPhone()
    }
  }

  datatype SavedChoice = Prompt | KeepCurrentUpstream | UsePhonePort | Unrecognised(word: string)

  datatype Setting =
    | Ipv4NeverDefault | Ipv6NeverDefault | Ipv4RouteMetric | Ipv6RouteMetric
    | OtherSetting(name: string)

  type Profile = map<Setting, string>

  function DemotePolicy(): Profile {
    map[
      Ipv4NeverDefault := "yes",
      Ipv6NeverDefault := "yes",
      Ipv4RouteMetric := "9000",
      Ipv6RouteMetric := "9000"
    ]
  }

  // What the recorder notes as the dispatcher action: "scan", or nothing.
  datatype Action = ByScan | NoAction

  // `connection` is empty while NetworkManager has not bound a connection.
  datatype Event = Event(
    id: string, kind: Kind, status: Status,
    iface: string, connection: string, driver: string,
    connectionKnown: bool, carrier: bool, operstate: string, present: bool,
    observed: nat, action: Action, route: string, decision: Option<Decision>)

  datatype Plan = Plan(iface: string, connection: string, driver: string, carrier: bool, operstate: string)

  // What the controller reads from outside while recording: the clock and the default route.
  datatype Probe = Probe(stamp: string, route: string)

  datatype Sighting = Sighting(plan: Plan, probe: Probe)

  // The two state files, the NetworkManager profiles, and the history of every
  // event id ever appended (a history variable, stored nowhere).
  datatype Store = Store(
    events: seq<Event>,
    policy: map<string, SavedChoice>,
    profiles: map<string, Profile>,
    log: seq<string>)

  function EmptyStore(): Store {
    Store([], map[], map[], [])
  }

  // ---- Reading ----

  function PolicyKey(iface: string, connection: string, driver: string): string {
    driver + ":" + iface + ":" + connection
  }

  function SavedPolicy(policy: map<string, SavedChoice>, p: Plan): SavedChoice {
    var key := PolicyKey(p.iface, p.connection, p.driver);
    if key in policy && !policy[key].Unrecognised? then policy[key] else Prompt
  }

  predicate Compatible(c: string, d: string) {
    c == d || c == "" || d == ""
  }

  predicate MatchesPlan(e: Event, p: Plan) {
    && e.kind.PhoneTether?
    && e.iface == p.iface
    && e.driver == p.driver
    && Compatible(e.connection, p.connection)
  }

  predicate OneShotDecided(e: Event) {
    e.status.Resolved? && e.decision.Some? && e.decision.value.OneShot()
  }

  predicate Suppressed(events: seq<Event>, p: Plan) {
    exists e <- events :: MatchesPlan(e, p) && OneShotDecided(e) && e.present
  }

  // The merge test of the recorder; unlike MatchesPlan it does not compare drivers.
  predicate Mergeable(e: Event, p: Plan) {
    && e.status.Pending?
    && e.kind.PhoneTether?
    && e.iface == p.iface
    && Compatible(e.connection, p.connection)
  }

  function MergeIndex(events: seq<Event>, p: Plan): (i: nat)
    ensures i <= |events|
    ensures i < |events| ==> Mergeable(events[i], p)
  {
    if events == [] then 0
    else if Mergeable(events[0], p) then 0
    else 1 + MergeIndex(events[1..], p)
  }

  function IdIndex(events: seq<Event>, id: string): (i: nat)
    ensures i <= |events|
    ensures i < |events| ==> events[i].id == id
  {
    if events == [] then 0
    else if events[0].id == id then 0
    else 1 + IdIndex(events[1..], id)
  }

  lemma {:induction false} FirstMergeable(events: seq<Event>, p: Plan)
    ensures forall k :: 0 <= k < MergeIndex(events, p) ==> !Mergeable(events[k], p)
  {
    if events != [] {
      FirstMergeable(events[1..], p);
      assert forall k :: 1 <= k < |events| ==> events[k] == events[1..][k - 1];
    }
  }

  lemma {:induction false} FirstWithId(events: seq<Event>, id: string)
    ensures forall k :: 0 <= k < IdIndex(events, id) ==> events[k].id != id
  {
    if events != [] {
      FirstWithId(events[1..], id);
      assert forall k :: 1 <= k < |events| ==> events[k] == events[1..][k - 1];
    }
  }

  // The indices are where a loop that stops at the first hit stops.
  lemma {:induction false} MergeIndexIs(events: seq<Event>, p: Plan, i: nat)
    requires i <= |events| && (forall k :: 0 <= k < i ==> !Mergeable(events[k], p))
    requires i < |events| ==> Mergeable(events[i], p)
    ensures MergeIndex(events, p) == i
  {
    if i > 0 {
      MergeIndexIs(events[1..], p, i - 1);
    }
  }

  lemma {:induction false} IdIndexIs(events: seq<Event>, id: string, i: nat)
    requires i <= |events| && (forall k :: 0 <= k < i ==> events[k].id != id)
    requires i < |events| ==> events[i].id == id
    ensures IdIndex(events, id) == i
  {
    if i > 0 {
      IdIndexIs(events[1..], id, i - 1);
    }
  }

  function Plans(sightings: seq<Sighting>): (plans: seq<Plan>)
    ensures |plans| == |sightings|
    ensures forall i :: 0 <= i < |plans| ==> plans[i] == sightings[i].plan
  {
    seq(|sightings|, i requires 0 <= i < |sightings| => sightings[i].plan)
  }

  // The prompts, in order.
  function PromptsOf(events: seq<Event>): seq<Event> {
    if events == [] then []
    else
      var n := |events| - 1;
      PromptsOf(events[..n]) + if events[n].status.Pending? then [events[n]] else []
  }

  // ---- Writing ----

  function Trim<T>(s: seq<T>): (r: seq<T>)
    ensures |r| == if |s| > LOG_LIMIT then LOG_LIMIT else |s|
    ensures r == s[|s| - |r|..]
  {
    if |s| > LOG_LIMIT then s[|s| - LOG_LIMIT..] else s
  }

  function Merged(e: Event, p: Plan, action: Action, probe: Probe): Event {
    var connection := if p.connection != "" then p.connection else e.connection;
    e.(observed := e.observed + 1, action := action, connection := connection,
       connectionKnown := connection != "", carrier := p.carrier, operstate := p.operstate,
       present := true, route := if probe.route != "" then probe.route else e.route)
  }

  function Fresh(p: Plan, action: Action, probe: Probe): Event {
    Event(probe.stamp + "-" + p.iface, PhoneTether, Pending, p.iface, p.connection, p.driver,
          p.connection != "", p.carrier, p.operstate, true, 1, action, probe.route, None)
  }

  function Recorded(events: seq<Event>, p: Plan, action: Action, probe: Probe): Event {
    var i := MergeIndex(events, p);
    if i < |events| then Merged(events[i], p, action, probe) else Fresh(p, action, probe)
  }

  function Record(s: Store, p: Plan, action: Action, probe: Probe): Store {
    var i := MergeIndex(s.events, p);
    if i < |s.events| then
      s.(events := Trim(s.events[i := Merged(s.events[i], p, action, probe)]))
    else
      var e := Fresh(p, action, probe);
      s.(events := Trim(s.events + [e]), log := s.log + [e.id])
  }

  predicate Seen(e: Event, plans: seq<Plan>) {
    exists p <- plans :: MatchesPlan(e, p)
  }

  function Marked(e: Event, plans: seq<Plan>): Event {
    if e.kind.PhoneTether? then e.(present := Seen(e, plans)) else e
  }

  function MarkPresence(events: seq<Event>, plans: seq<Plan>): (r: seq<Event>)
    ensures |r| == |events|
    ensures forall i :: 0 <= i < |r| ==> r[i] == Marked(events[i], plans)
  {
    seq(|events|, i requires 0 <= i < |events| => Marked(events[i], plans))
  }

  function ScanOne(s: Store, x: Sighting): Store {
    if SavedPolicy(s.policy, x.plan).Prompt? && !Suppressed(s.events, x.plan)
    then Record(s, x.plan, ByScan, x.probe)
    else s
  }

  function ScanFrom(s: Store, sightings: seq<Sighting>): Store
    decreases |sightings|
  {
    if sightings == [] then s else ScanFrom(ScanOne(s, sightings[0]), sightings[1..])
  }

  // The scan writes the marked log back only when a flag changed; a write trims.
  function MarkedStore(s: Store, sightings: seq<Sighting>): Store {
    var marked := MarkPresence(s.events, Plans(sightings));
    if marked == s.events then s else s.(events := Trim(marked))
  }

  function Scan(s: Store, sightings: seq<Sighting>): Store {
    ScanFrom(MarkedStore(s, sightings), sightings)
  }

  function ApplyPolicy(profiles: map<string, Profile>, connection: string, settings: Profile)
    : map<string, Profile>
  {
    profiles[connection := (if connection in profiles then profiles[connection] else map[]) + settings]
  }

  // nmcli either applies the whole policy (`nmOk`) or changes nothing.
  function GuardApply(s: Store, p: Plan, probe: Probe, nmOk: bool): Store {
    if p.driver !in PhoneDrivers() then s
    else
      var t := if SavedPolicy(s.policy, p).Prompt? then Record(s, p, NoAction, probe) else s;
      if nmOk then t.(profiles := ApplyPolicy(t.profiles, p.connection, DemotePolicy())) else t
  }

  datatype SelectOutcome =
    | UnknownDecision | UnknownEvent | UnsupportedType | LinkNotReady | PolicyFailed
    | Selected(event: Event)

  function ResolvedBy(e: Event, decision: Decision): Event {
    e.(status := Resolved, decision := Some(decision), present := true)
  }

  function SavePolicy(s: Store, e: Event, decision: Decision): map<string, SavedChoice> {
    var key := PolicyKey(e.iface, e.connection, e.driver);
    if decision.AlwaysKeepCurrent? then s.policy[key := KeepCurrentUpstream]
    else if decision.AlwaysUsePhone? then s.policy[key := UsePhonePort]
    else s.policy
  }

  function Select(s: Store, id: string, decision: Decision, nmOk: bool): (Store, SelectOutcome) {
    var i := IdIndex(s.events, id);
    if decision.Unknown? then (s, UnknownDecision)
    else if i == |s.events| then (s, UnknownEvent)
    else
      var e := s.events[i];
      var demotes := e.connection != "" && decision.Demotes();
      if !e.kind.PhoneTether? then (s, UnsupportedType)
      else if e.connection == "" && decision.UsesPhone() then (s, LinkNotReady)
      else if demotes && !nmOk then (s, PolicyFailed)
      else
        (s.(events := Trim(s.events[i := ResolvedBy(e, decision)]),
            policy := SavePolicy(s, e, decision),
            profiles := if demotes then ApplyPolicy(s.profiles, e.connection, DemotePolicy()) else s.profiles),
         Selected(ResolvedBy(e, decision)))
  }

  // ---- Runs ----

  datatype Step =
    | ScanStep(sightings: seq<Sighting>)
    | GuardStep(plan: Plan, probe: Probe, nmOk: bool)
    | SelectStep(id: string, decision: Decision, nmOk: bool)

  function Apply(s: Store, step: Step): Store {
    match step
    case ScanStep(sightings) => Scan(s, sightings)
    case GuardStep(p, probe, nmOk) => GuardApply(s, p, probe, nmOk)
    case SelectStep(id, decision, nmOk) => Select(s, id, decision, nmOk).0
  }

  function Run(s: Store, steps: seq<Step>): Store
    decreases |steps|
  {
    if steps == [] then s else Run(Apply(s, steps[0]), steps[1..])
  }
}
