/** What every run of scans, guard applications and user decisions keeps, from
    the empty store on. */
module PhoneEventRuns {
  import opened PhoneEvents

  // ---- The invariant ----

  // Two prompts on one interface: both connections are known, and they differ.
  ghost predicate Distinguished(e: Event, f: Event) {
    && e.status.Pending? && f.status.Pending?
    && e.kind.PhoneTether? && f.kind.PhoneTether?
    && e.iface == f.iface
    ==> !Compatible(e.connection, f.connection)
  }

  ghost predicate PromptsDistinguished(events: seq<Event>) {
    forall i, j :: 0 <= i < j < |events| ==> Distinguished(events[i], events[j])
  }

  // The file holds the latest events: exactly as many as fit, in order of arrival.
  ghost predicate Latest(events: seq<Event>, log: seq<string>) {
    && |events| == (if |log| < LOG_LIMIT then |log| else LOG_LIMIT)
    && forall i :: 0 <= i < |events| ==> events[i].id == log[|log| - |events| + i]
  }

  ghost predicate HoldsLatest(s: Store) {
    Latest(s.events, s.log)
  }

  ghost predicate Inv(s: Store) {
    PromptsDistinguished(s.events) && HoldsLatest(s)
  }

  // Changing events in place keeps the invariant when no prompt appears or moves.
  ghost predicate NoNewPrompt(e: Event, f: Event) {
    && f.id == e.id
    && (f.status.Pending? ==>
          e.status.Pending? && f.kind == e.kind && f.iface == e.iface && f.connection == e.connection)
  }

  lemma NoNewPromptsKeepDistinguished(es: seq<Event>, fs: seq<Event>)
    requires |es| == |fs| && forall i :: 0 <= i < |es| ==> NoNewPrompt(es[i], fs[i])
    requires PromptsDistinguished(es)
    ensures PromptsDistinguished(fs)
  {
    forall i, j | 0 <= i < j < |fs|
      ensures Distinguished(fs[i], fs[j])
    {
      assert Distinguished(es[i], es[j]);
    }
  }

  lemma MergeKeepsDistinguished(events: seq<Event>, i: nat, f: Event)
    requires PromptsDistinguished(events) && i < |events|
    requires forall k :: 0 <= k < |events| && k != i ==> Distinguished(events[k], f) && Distinguished(f, events[k])
    ensures PromptsDistinguished(events[i := f])
  {
    var fs := events[i := f];
    forall j, k | 0 <= j < k < |fs|
      ensures Distinguished(fs[j], fs[k])
    {
      assert Distinguished(events[j], events[k]);
    }
  }

  lemma RecordKeepsDistinguished(s: Store, p: Plan, action: Action, probe: Probe)
    requires PromptsDistinguished(s.events)
    ensures PromptsDistinguished(Record(s, p, action, probe).events)
  {
    var i := MergeIndex(s.events, p);
    if i < |s.events| {
      var e := Merged(s.events[i], p, action, probe);
      forall k | 0 <= k < |s.events| && k != i
        ensures Distinguished(s.events[k], e) && Distinguished(e, s.events[k])
      {
        assert k < i ==> Distinguished(s.events[k], s.events[i]);
        assert i < k ==> Distinguished(s.events[i], s.events[k]);
      }
      MergeKeepsDistinguished(s.events, i, e);
    } else {
      var f := Fresh(p, action, probe);
      FirstMergeable(s.events, p);
      forall k | 0 <= k < |s.events|
        ensures Distinguished(s.events[k], f)
      {
        assert !Mergeable(s.events[k], p);
      }
      assert PromptsDistinguished(s.events + [f]);
    }
  }

  lemma AppendHoldsLatest(events: seq<Event>, log: seq<string>, e: Event)
    requires Latest(events, log)
    ensures Latest(Trim(events + [e]), log + [e.id])
  {
    var fs, ids := Trim(events + [e]), log + [e.id];
    var dropped := |events| + 1 - |fs|;
    forall i | 0 <= i < |fs|
      ensures fs[i].id == ids[|ids| - |fs| + i]
    {
      assert fs[i] == (events + [e])[dropped + i];
      if dropped + i < |events| {
        assert events[dropped + i].id == log[|log| - |events| + dropped + i];
      }
    }
  }

  lemma MergeHoldsLatest(events: seq<Event>, log: seq<string>, i: nat, e: Event)
    requires Latest(events, log) && i < |events| && e.id == events[i].id
    ensures Latest(Trim(events[i := e]), log)
  {
  }

  lemma RecordHoldsLatest(s: Store, p: Plan, action: Action, probe: Probe)
    requires HoldsLatest(s)
    ensures HoldsLatest(Record(s, p, action, probe))
  {
    var i := MergeIndex(s.events, p);
    if i < |s.events| {
      MergeHoldsLatest(s.events, s.log, i, Merged(s.events[i], p, action, probe));
    } else {
      AppendHoldsLatest(s.events, s.log, Fresh(p, action, probe));
    }
  }

  lemma RecordKeepsInv(s: Store, p: Plan, action: Action, probe: Probe)
    requires Inv(s)
    ensures Inv(Record(s, p, action, probe))
  {
    RecordKeepsDistinguished(s, p, action, probe);
    RecordHoldsLatest(s, p, action, probe);
  }

  lemma MarkedStoreEvents(s: Store, sightings: seq<Sighting>, t: Store)
    requires |s.events| <= LOG_LIMIT && t == MarkedStore(s, sightings)
    ensures t == s.(events := MarkPresence(s.events, Plans(sightings)))
  {
  }

  lemma MarkedStoreKeepsInv(s: Store, sightings: seq<Sighting>)
    requires Inv(s)
    ensures Inv(MarkedStore(s, sightings))
    ensures MarkedStore(s, sightings).events == MarkPresence(s.events, Plans(sightings))
  {
    var plans := Plans(sightings);
    var marked := MarkPresence(s.events, plans);
    assert MarkedStore(s, sightings).events == marked;
    NoNewPromptsKeepDistinguished(s.events, marked);
  }

  lemma {:induction false} ScanFromKeepsInv(s: Store, sightings: seq<Sighting>)
    requires Inv(s)
    ensures Inv(ScanFrom(s, sightings))
    decreases |sightings|
  {
    if sightings != [] {
      RecordKeepsInv(s, sightings[0].plan, ByScan, sightings[0].probe);
      ScanFromKeepsInv(ScanOne(s, sightings[0]), sightings[1..]);
    }
  }

  // A decision touches one event of the log, or none.
  lemma SelectTouchesOne(s: Store, id: string, decision: Decision, nmOk: bool)
    requires |s.events| <= LOG_LIMIT
    ensures var (t, outcome) := Select(s, id, decision, nmOk);
            var i := IdIndex(s.events, id);
            && t.log == s.log
            && (outcome.Selected? ==> i < |s.events| && t.events == s.events[i := ResolvedBy(s.events[i], decision)])
            && (!outcome.Selected? ==> t == s)
  {
  }

  lemma ResolvingKeepsInv(s: Store, t: Store, i: nat, decision: Decision)
    requires Inv(s) && i < |s.events| && t.log == s.log
    requires t.events == s.events[i := ResolvedBy(s.events[i], decision)]
    ensures Inv(t)
  {
    NoNewPromptsKeepDistinguished(s.events, t.events);
  }

  lemma SelectKeepsInv(s: Store, id: string, decision: Decision, nmOk: bool)
    requires Inv(s)
    ensures Inv(Select(s, id, decision, nmOk).0)
  {
    SelectTouchesOne(s, id, decision, nmOk);
    if Select(s, id, decision, nmOk).1.Selected? {
      ResolvingKeepsInv(s, Select(s, id, decision, nmOk).0, IdIndex(s.events, id), decision);
    }
  }

  ghost predicate SameLog(s: Store, t: Store) {
    s.events == t.events && s.log == t.log
  }

  lemma GuardRecords(s: Store, p: Plan, probe: Probe, nmOk: bool)
    ensures SameLog(GuardApply(s, p, probe, nmOk), s)
         || SameLog(GuardApply(s, p, probe, nmOk), Record(s, p, NoAction, probe))
  {
  }

  lemma GuardKeepsInv(s: Store, p: Plan, probe: Probe, nmOk: bool)
    requires Inv(s)
    ensures Inv(GuardApply(s, p, probe, nmOk))
  {
    RecordKeepsInv(s, p, NoAction, probe);
    GuardRecords(s, p, probe, nmOk);
  }

  lemma StepKeepsInv(s: Store, step: Step)
    requires Inv(s)
    ensures Inv(Apply(s, step))
  {
    match step
    case ScanStep(sightings) =>
      MarkedStoreKeepsInv(s, sightings);
      ScanFromKeepsInv(MarkedStore(s, sightings), sightings);
    case GuardStep(p, probe, nmOk) =>
      GuardKeepsInv(s, p, probe, nmOk);
    case SelectStep(id, decision, nmOk) =>
      SelectKeepsInv(s, id, decision, nmOk);
  }

  lemma {:induction false} RunKeepsInv(s: Store, steps: seq<Step>)
    requires Inv(s)
    ensures Inv(Run(s, steps))
    decreases |steps|
  {
    if steps != [] {
      StepKeepsInv(s, steps[0]);
      RunKeepsInv(Apply(s, steps[0]), steps[1..]);
    }
  }

  /** In every reachable store the prompts of one interface exclude each other and
      the file holds exactly the latest events; so a plan whose connection is known
      has at most one event to merge into. */
  lemma ReachableStores(steps: seq<Step>, p: Plan)
    ensures Inv(Run(EmptyStore(), steps))
    ensures p.connection != "" ==>
      forall i, j :: 0 <= i < j < |Run(EmptyStore(), steps).events| ==>
        !(Mergeable(Run(EmptyStore(), steps).events[i], p) && Mergeable(Run(EmptyStore(), steps).events[j], p))
  {
    RunKeepsInv(EmptyStore(), steps);
    var events := Run(EmptyStore(), steps).events;
    forall i, j | 0 <= i < j < |events| && p.connection != ""
      ensures !(Mergeable(events[i], p) && Mergeable(events[j], p))
    {
      assert Distinguished(events[i], events[j]);
    }
  }

  // ---- How one event evolves ----

  // Events are numbered by arrival; those below Base have been dropped.
  ghost function Base(s: Store): int {
    |s.log| - |s.events|
  }

  ghost predicate Held(s: Store, k: int) {
    Base(s) <= k < |s.log|
  }

  ghost function At(s: Store, k: int): Event
    requires Held(s, k)
  {
    s.events[k - Base(s)]
  }

  ghost predicate EventEvolves(e: Event, f: Event) {
    && f.id == e.id && f.kind == e.kind && f.iface == e.iface && f.driver == e.driver
    && f.observed >= e.observed
    && (e.connection != "" ==> f.connection == e.connection)
    && (e.status.Resolved? ==> f.status.Resolved? && f.connection == e.connection)
  }

  ghost predicate Evolves(s: Store, t: Store) {
    && s.log <= t.log
    && Base(s) <= Base(t)
    && forall k :: Held(s, k) && Held(t, k) ==> EventEvolves(At(s, k), At(t, k))
  }

  lemma EvolvesTransitive(s: Store, t: Store, u: Store)
    requires Evolves(s, t) && Evolves(t, u)
    ensures Evolves(s, u)
  {
    forall k | Held(s, k) && Held(u, k)
      ensures EventEvolves(At(s, k), At(u, k))
    {
      assert Held(t, k);
    }
  }

  lemma InPlaceEvolves(s: Store, t: Store)
    requires s.log == t.log && |s.events| == |t.events|
    requires forall i :: 0 <= i < |s.events| ==> EventEvolves(s.events[i], t.events[i])
    ensures Evolves(s, t)
  {
  }

  lemma TrimAppend(es: seq<Event>, f: Event, fs: seq<Event>)
    requires |es| <= LOG_LIMIT && fs == Trim(es + [f])
    ensures |fs| == (if |es| < LOG_LIMIT then |es| + 1 else LOG_LIMIT)
    ensures fs[|fs| - 1] == f
  {
    assert fs[|fs| - 1] == (es + [f])[|es|];
  }

  lemma TrimAppendAt(es: seq<Event>, f: Event, fs: seq<Event>, i: nat, j: nat)
    requires fs == Trim(es + [f]) && i < |es| && j < |fs| && i - j == |es| + 1 - |fs|
    ensures fs[j] == es[i]
  {
    assert fs[j] == (es + [f])[i];
  }

  lemma AppendKeeps(s: Store, t: Store, f: Event, k: int)
    requires t.log == s.log + [f.id] && t.events == Trim(s.events + [f])
    requires Held(s, k) && Held(t, k)
    ensures At(t, k) == At(s, k)
  {
    TrimAppendAt(s.events, f, t.events, k - Base(s), k - Base(t));
  }

  lemma KeepingEvolves(s: Store, t: Store)
    requires s.log <= t.log && Base(s) <= Base(t)
    requires forall k :: Held(s, k) && Held(t, k) ==> At(t, k) == At(s, k)
    ensures Evolves(s, t)
  {
  }

  lemma AppendHolds(s: Store, t: Store, f: Event)
    requires |s.events| <= |s.log| && |s.events| <= LOG_LIMIT
    requires t.log == s.log + [f.id] && t.events == Trim(s.events + [f])
    ensures s.log <= t.log && Base(s) <= Base(t)
    ensures Held(t, |s.log|) && At(t, |s.log|) == f
  {
    TrimAppend(s.events, f, t.events);
  }

  lemma AppendEvolves(s: Store, t: Store, f: Event)
    requires |s.events| <= |s.log| && |s.events| <= LOG_LIMIT
    requires t.log == s.log + [f.id] && t.events == Trim(s.events + [f])
    ensures Evolves(s, t)
    ensures forall k :: Held(s, k) && Held(t, k) ==> At(t, k) == At(s, k)
    ensures Held(t, |s.log|) && At(t, |s.log|) == f
  {
    AppendHolds(s, t, f);
    forall k | Held(s, k) && Held(t, k)
      ensures At(t, k) == At(s, k)
    {
      AppendKeeps(s, t, f, k);
    }
    KeepingEvolves(s, t);
  }

  // A record leaves every event alone except the one it merges into.
  ghost predicate RecordEffect(s: Store, t: Store, f: Event, p: Plan) {
    && Evolves(s, t)
    && (forall k :: Held(s, k) && Held(t, k) && !Mergeable(At(s, k), p) ==> At(t, k) == At(s, k))
    && (t.log == s.log
        || (t.log == s.log + [f.id] && Held(t, |s.log|) && At(t, |s.log|) == f))
  }

  lemma MergeEvolves(s: Store, t: Store, i: nat, e: Event, f: Event, p: Plan)
    requires i < |s.events| && Mergeable(s.events[i], p) && EventEvolves(s.events[i], e)
    requires t.events == s.events[i := e] && t.log == s.log
    ensures RecordEffect(s, t, f, p)
  {
    InPlaceEvolves(s, t);
  }

  lemma RecordEvolves(s: Store, p: Plan, action: Action, probe: Probe)
    requires HoldsLatest(s)
    ensures RecordEffect(s, Record(s, p, action, probe), Fresh(p, action, probe), p)
  {
    var t := Record(s, p, action, probe);
    var i := MergeIndex(s.events, p);
    if i < |s.events| {
      MergeEvolves(s, t, i, Merged(s.events[i], p, action, probe), Fresh(p, action, probe), p);
    } else {
      AppendEvolves(s, t, Fresh(p, action, probe));
    }
  }

  lemma PromptIn(events: seq<Event>, i: nat, p: Plan)
    requires i < |events| && Mergeable(events[i], p)
    ensures exists e <- events :: Mergeable(e, p)
  {
    assert events[i] in events;
  }

  // Afterwards there is a prompt for the plan, and it is a new one exactly when there
  // was none before.
  lemma RecordPrompts(s: Store, p: Plan, action: Action, probe: Probe)
    requires HoldsLatest(s)
    ensures var t := Record(s, p, action, probe);
      && (exists e <- t.events :: Mergeable(e, p))
      && (t.log != s.log <==> forall e <- s.events :: !Mergeable(e, p))
  {
    var i := MergeIndex(s.events, p);
    if i < |s.events| {
      PromptIn(s.events, i, p);
      PromptIn(s.events[i := Merged(s.events[i], p, action, probe)], i, p);
    } else {
      FirstMergeable(s.events, p);
      var f := Fresh(p, action, probe);
      var fs := Trim(s.events + [f]);
      assert fs[|fs| - 1] == f;
      PromptIn(fs, |fs| - 1, p);
    }
  }

  lemma MarkedStoreEvolves(s: Store, sightings: seq<Sighting>)
    requires Inv(s)
    ensures Evolves(s, MarkedStore(s, sightings))
  {
    MarkedStoreKeepsInv(s, sightings);
    var t := MarkedStore(s, sightings);
    forall i | 0 <= i < |s.events|
      ensures EventEvolves(s.events[i], t.events[i])
    {
      assert t.events[i] == Marked(s.events[i], Plans(sightings));
    }
    InPlaceEvolves(s, t);
  }

  lemma {:induction false} ScanFromEvolves(s: Store, sightings: seq<Sighting>)
    requires Inv(s)
    ensures Evolves(s, ScanFrom(s, sightings))
    decreases |sightings|
  {
    if sightings != [] {
      var t := ScanOne(s, sightings[0]);
      RecordEvolves(s, sightings[0].plan, ByScan, sightings[0].probe);
      RecordKeepsInv(s, sightings[0].plan, ByScan, sightings[0].probe);
      ScanFromEvolves(t, sightings[1..]);
      EvolvesTransitive(s, t, ScanFrom(s, sightings));
    }
  }

  lemma ScanEvolves(s: Store, sightings: seq<Sighting>)
    requires Inv(s)
    ensures Evolves(s, Scan(s, sightings))
  {
    var t := MarkedStore(s, sightings);
    MarkedStoreKeepsInv(s, sightings);
    MarkedStoreEvolves(s, sightings);
    ScanFromEvolves(t, sightings);
    EvolvesTransitive(s, t, Scan(s, sightings));
  }

  lemma SameLogEvolves(s: Store, t: Store, u: Store)
    requires Evolves(s, t) && SameLog(u, t)
    ensures Evolves(s, u)
  {
    forall k | Held(s, k) && Held(u, k)
      ensures EventEvolves(At(s, k), At(u, k))
    {
      assert Held(t, k) && At(t, k) == At(u, k);
    }
  }

  lemma GuardEvolves(s: Store, p: Plan, probe: Probe, nmOk: bool)
    requires Inv(s)
    ensures Evolves(s, GuardApply(s, p, probe, nmOk))
  {
    RecordEvolves(s, p, NoAction, probe);
    GuardRecords(s, p, probe, nmOk);
    InPlaceEvolves(s, s);
    SameLogEvolves(s, if SameLog(GuardApply(s, p, probe, nmOk), s) then s else Record(s, p, NoAction, probe),
                   GuardApply(s, p, probe, nmOk));
  }

  lemma SelectEvolves(s: Store, id: string, decision: Decision, nmOk: bool)
    requires Inv(s)
    ensures Evolves(s, Select(s, id, decision, nmOk).0)
  {
    SelectTouchesOne(s, id, decision, nmOk);
    InPlaceEvolves(s, Select(s, id, decision, nmOk).0);
  }

  lemma StepEvolves(s: Store, step: Step)
    requires Inv(s)
    ensures Evolves(s, Apply(s, step))
  {
    match step
    case ScanStep(sightings) => ScanEvolves(s, sightings);
    case GuardStep(p, probe, nmOk) => GuardEvolves(s, p, probe, nmOk);
    case SelectStep(id, decision, nmOk) => SelectEvolves(s, id, decision, nmOk);
  }

  /** Over any run no resolved event becomes pending again, no known connection is
      replaced, and nothing changes an event's id, interface or driver. */
  lemma {:induction false} RunEvolves(s: Store, steps: seq<Step>)
    requires Inv(s)
    ensures Evolves(s, Run(s, steps))
    decreases |steps|
  {
    if steps != [] {
      var t := Apply(s, steps[0]);
      StepKeepsInv(s, steps[0]);
      StepEvolves(s, steps[0]);
      RunEvolves(t, steps[1..]);
      EvolvesTransitive(s, t, Run(s, steps));
    }
  }
}
