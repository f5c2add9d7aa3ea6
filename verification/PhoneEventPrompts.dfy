/** When the user is asked again, when not, and what a decision does to routing. */
module PhoneEventPrompts {
  import opened PhoneEventRuns
  import opened PhoneEvents

  // ---- A one-shot decision silences later scans ----

  ghost predicate SameDevice(e: Event, f: Event) {
    e.iface == f.iface && e.driver == f.driver && Compatible(e.connection, f.connection)
  }

  /** Unplugging does not lift a one-shot decision: the scan refreshes presence
      before it looks for suppression, so for a plan in the scan the stored
      presence flag plays no part. */
  lemma SuppressionIgnoresStoredPresence(events: seq<Event>, plans: seq<Plan>, p: Plan)
    requires p in plans
    ensures Suppressed(MarkPresence(events, plans), p)
       <==> exists e <- events :: MatchesPlan(e, p) && OneShotDecided(e)
  {
    var marked := MarkPresence(events, plans);
    if e :| e in marked && MatchesPlan(e, p) && OneShotDecided(e) && e.present {
      var i :| 0 <= i < |marked| && marked[i] == e;
      assert MatchesPlan(events[i], p) && OneShotDecided(events[i]);
    }
    if e :| e in events && MatchesPlan(e, p) && OneShotDecided(e) {
      var i :| 0 <= i < |events| && events[i] == e;
      assert marked[i] == Marked(e, plans) && marked[i] in marked;
      assert Seen(e, plans);
    }
  }

  lemma ScanOneKeepsResolved(s: Store, x: Sighting, k: int)
    requires Inv(s) && Held(s, k) && At(s, k).status.Resolved?
    requires Held(ScanOne(s, x), k)
    ensures At(ScanOne(s, x), k) == At(s, k)
  {
    RecordEvolves(s, x.plan, ByScan, x.probe);
  }

  lemma {:induction false} ScanFromKeepsResolved(s: Store, sightings: seq<Sighting>, k: int)
    requires Inv(s) && Held(s, k) && Held(ScanFrom(s, sightings), k)
    requires At(s, k).status.Resolved?
    ensures At(ScanFrom(s, sightings), k) == At(s, k)
    decreases |sightings|
  {
    if sightings != [] {
      var t := ScanOne(s, sightings[0]);
      RecordEvolves(s, sightings[0].plan, ByScan, sightings[0].probe);
      RecordKeepsInv(s, sightings[0].plan, ByScan, sightings[0].probe);
      ScanFromEvolves(t, sightings[1..]);
      ScanOneKeepsResolved(s, sightings[0], k);
      ScanFromKeepsResolved(t, sightings[1..], k);
    }
  }

  // A decided event whose presence flag is set whenever the scan sees its device.
  ghost predicate Silences(e: Event, sightings: seq<Sighting>) {
    && e.kind.PhoneTether? && OneShotDecided(e)
    && forall x <- sightings :: MatchesPlan(e, x.plan) ==> e.present
  }

  lemma ScanOneSkipsDecided(s: Store, x: Sighting, k: int)
    requires Inv(s) && Held(s, k) && Silences(At(s, k), [x])
    ensures var t := ScanOne(s, x);
            t.log == s.log
            || (|t.log| == |s.log| + 1 && Held(t, |s.log|) && !SameDevice(At(s, k), At(t, |s.log|)))
  {
    var e := At(s, k);
    assert e in s.events;
    RecordEvolves(s, x.plan, ByScan, x.probe);
    if ScanOne(s, x) != s {
      assert !Suppressed(s.events, x.plan);
      assert x in [x];
      assert !MatchesPlan(e, x.plan);
    }
  }

  // No event that arrived between s and t is for the device of e.
  ghost predicate NoneNewFor(e: Event, s: Store, t: Store) {
    forall j :: |s.log| <= j < |t.log| ==> Held(t, j) && !SameDevice(e, At(t, j))
  }

  lemma ScanOneEvolves(s: Store, x: Sighting)
    requires Inv(s)
    ensures Inv(ScanOne(s, x)) && Evolves(s, ScanOne(s, x))
  {
    RecordEvolves(s, x.plan, ByScan, x.probe);
    RecordKeepsInv(s, x.plan, ByScan, x.probe);
  }

  lemma NoneNewExtends(e: Event, s: Store, t: Store, u: Store)
    requires Evolves(t, u) && NoneNewFor(e, t, u)
    requires t.log == s.log
          || (|t.log| == |s.log| + 1 && Held(t, |s.log|) && !SameDevice(e, At(t, |s.log|)) && Base(u) <= |s.log|)
    ensures NoneNewFor(e, s, u)
  {
    if t.log != s.log {
      StaysOtherDevice(e, t, u, |s.log|);
    }
  }

  lemma {:induction false} ScanFromSkipsDecided(s: Store, sightings: seq<Sighting>, k: int)
    requires Inv(s) && Held(s, k) && Held(ScanFrom(s, sightings), k)
    requires Silences(At(s, k), sightings)
    ensures NoneNewFor(At(s, k), s, ScanFrom(s, sightings))
    decreases |sightings|
  {
    if sightings != [] {
      var t := ScanOne(s, sightings[0]);
      ScanOneEvolves(s, sightings[0]);
      ScanFromEvolves(t, sightings[1..]);
      ScanOneKeepsResolved(s, sightings[0], k);
      ScanOneSkipsDecided(s, sightings[0], k);
      ScanFromSkipsDecided(t, sightings[1..], k);
      NoneNewExtends(At(s, k), s, t, ScanFrom(t, sightings[1..]));
    }
  }

  lemma StaysOtherDevice(e: Event, s: Store, t: Store, j: int)
    requires Evolves(s, t) && Held(s, j) && Base(t) <= j
    requires !SameDevice(e, At(s, j))
    ensures Held(t, j) && !SameDevice(e, At(t, j))
  {
    assert EventEvolves(At(s, j), At(t, j));
  }

  // Marking gives a decided event the presence flag that silences this scan.
  lemma MarkedSilences(e: Event, sightings: seq<Sighting>)
    requires e.kind.PhoneTether? && OneShotDecided(e)
    ensures Silences(Marked(e, Plans(sightings)), sightings)
  {
    forall x <- sightings | MatchesPlan(e, x.plan)
      ensures Seen(e, Plans(sightings))
    {
      var i :| 0 <= i < |sightings| && sightings[i] == x;
      assert Plans(sightings)[i] == x.plan;
    }
  }

  lemma MarkedInPlace(s: Store, t: Store, plans: seq<Plan>, k: int)
    requires Held(s, k) && t.log == s.log && t.events == MarkPresence(s.events, plans)
    ensures Held(t, k) && At(t, k) == Marked(At(s, k), plans)
  {
  }

  lemma MarkedAt(s: Store, sightings: seq<Sighting>, k: int, t: Store)
    requires Inv(s) && Held(s, k) && t == MarkedStore(s, sightings)
    ensures Held(t, k) && t.log == s.log && At(t, k) == Marked(At(s, k), Plans(sightings))
  {
    MarkedStoreEvents(s, sightings, t);
    MarkedInPlace(s, t, Plans(sightings), k);
  }

  lemma SameDeviceCarries(e: Event, f: Event, s: Store, t: Store, u: Store)
    requires s.log == t.log && NoneNewFor(f, t, u)
    requires e.iface == f.iface && e.driver == f.driver && e.connection == f.connection
    ensures NoneNewFor(e, s, u)
  {
  }

  lemma ScanSkipsDecided(s: Store, sightings: seq<Sighting>, k: int)
    requires Inv(s) && Held(s, k) && Held(Scan(s, sightings), k)
    requires At(s, k).kind.PhoneTether? && At(s, k).status.Resolved?
    ensures At(Scan(s, sightings), k).decision == At(s, k).decision
    ensures OneShotDecided(At(s, k)) ==> NoneNewFor(At(s, k), s, Scan(s, sightings))
  {
    var t := MarkedStore(s, sightings);
    MarkedStoreKeepsInv(s, sightings);
    MarkedAt(s, sightings, k, t);
    ScanFromKeepsResolved(t, sightings, k);
    if OneShotDecided(At(s, k)) {
      MarkedSilences(At(s, k), sightings);
      ScanFromSkipsDecided(t, sightings, k);
      SameDeviceCarries(At(s, k), At(t, k), s, t, Scan(s, sightings));
    }
  }

  predicate Redecides(step: Step, id: string) {
    step.SelectStep? && step.id == id
  }

  lemma ResolvedKept(s: Store, t: Store, u: Store, f: Event, p: Plan, k: int)
    requires RecordEffect(s, t, f, p) && (SameLog(u, s) || SameLog(u, t))
    requires Held(s, k) && Held(u, k) && At(s, k).status.Resolved?
    ensures At(u, k) == At(s, k)
  {
    if !SameLog(u, s) {
      assert Held(t, k) && !Mergeable(At(s, k), p);
    }
  }

  lemma GuardKeepsResolved(s: Store, p: Plan, probe: Probe, nmOk: bool, k: int)
    requires Inv(s) && Held(s, k) && Held(GuardApply(s, p, probe, nmOk), k)
    requires At(s, k).status.Resolved?
    ensures At(GuardApply(s, p, probe, nmOk), k) == At(s, k)
  {
    GuardRecords(s, p, probe, nmOk);
    RecordEvolves(s, p, NoAction, probe);
    ResolvedKept(s, Record(s, p, NoAction, probe), GuardApply(s, p, probe, nmOk), Fresh(p, NoAction, probe), p, k);
  }

  lemma SelectKeepsOthers(s: Store, id: string, decision: Decision, nmOk: bool, k: int)
    requires Inv(s) && Held(s, k) && At(s, k).id != id
    ensures Held(Select(s, id, decision, nmOk).0, k)
    ensures At(Select(s, id, decision, nmOk).0, k) == At(s, k)
  {
    SelectTouchesOne(s, id, decision, nmOk);
  }

  lemma StepKeepsDecision(s: Store, step: Step, k: int)
    requires Inv(s) && Held(s, k) && Held(Apply(s, step), k)
    requires At(s, k).kind.PhoneTether? && At(s, k).status.Resolved?
    requires !Redecides(step, At(s, k).id)
    ensures At(Apply(s, step), k).decision == At(s, k).decision
  {
    match step
    case ScanStep(sightings) =>
      ScanSkipsDecided(s, sightings, k);
    case GuardStep(p, probe, nmOk) =>
      GuardKeepsResolved(s, p, probe, nmOk, k);
    case SelectStep(id, decision, nmOk) =>
      SelectKeepsOthers(s, id, decision, nmOk, k);
  }

  lemma {:induction false} RunKeepsDecision(s: Store, steps: seq<Step>, k: int)
    requires Inv(s) && Held(s, k) && Held(Run(s, steps), k)
    requires At(s, k).kind.PhoneTether? && At(s, k).status.Resolved?
    requires forall step <- steps :: !Redecides(step, At(s, k).id)
    ensures EventEvolves(At(s, k), At(Run(s, steps), k))
    ensures At(Run(s, steps), k).decision == At(s, k).decision
    decreases |steps|
  {
    RunEvolves(s, steps);
    if steps != [] {
      var t := Apply(s, steps[0]);
      StepKeepsInv(s, steps[0]);
      StepEvolves(s, steps[0]);
      RunEvolves(t, steps[1..]);
      StepKeepsDecision(s, steps[0], k);
      RunKeepsDecision(t, steps[1..], k);
    }
  }

  // A held phone event that a one-shot decision has resolved.
  ghost predicate DecidedAt(s: Store, k: int, id: string) {
    && Inv(s) && Held(s, k) && At(s, k).id == id
    && At(s, k).kind.PhoneTether? && OneShotDecided(At(s, k))
  }

  // The decision is accepted, and its event is number k.
  ghost predicate DecidesOnce(s: Store, id: string, decision: Decision, nmOk: bool, decided: Store, k: int) {
    && Inv(s) && decision.OneShot() && k == Base(s) + IdIndex(s.events, id)
    && Select(s, id, decision, nmOk).1.Selected? && Select(s, id, decision, nmOk).0 == decided
  }

  lemma AcceptedKind(s: Store, id: string, decision: Decision, nmOk: bool)
    requires Select(s, id, decision, nmOk).1.Selected?
    ensures var i := IdIndex(s.events, id); i < |s.events| && s.events[i].kind.PhoneTether?
  {
  }

  lemma ResolvedAt(s: Store, t: Store, i: nat, decision: Decision, id: string)
    requires Inv(t) && i < |s.events| && |s.events| <= |s.log| && t.log == s.log && decision.OneShot()
    requires s.events[i].kind.PhoneTether? && s.events[i].id == id
    requires t.events == s.events[i := ResolvedBy(s.events[i], decision)]
    ensures DecidedAt(t, Base(s) + i, id)
  {
  }

  lemma SelectDecides(s: Store, id: string, decision: Decision, nmOk: bool, decided: Store, k: int)
    requires DecidesOnce(s, id, decision, nmOk, decided, k)
    ensures DecidedAt(decided, k, id)
  {
    var i := IdIndex(s.events, id);
    SelectTouchesOne(s, id, decision, nmOk);
    AcceptedKind(s, id, decision, nmOk);
    ResolvingKeepsInv(s, decided, i, decision);
    ResolvedAt(s, decided, i, decision, id);
  }

  lemma DecidedStaysSilent(
      s: Store, k: int, id: string, steps: seq<Step>, t: Store, sightings: seq<Sighting>, u: Store)
    requires DecidedAt(s, k, id) && forall step <- steps :: !Redecides(step, id)
    requires t == Run(s, steps) && u == Scan(t, sightings) && Held(t, k) && Held(u, k)
    ensures NoneNewFor(At(t, k), t, u)
  {
    RunKeepsInv(s, steps);
    RunKeepsDecision(s, steps, k);
    ScanSkipsDecided(t, sightings, k);
  }

  /** After a successful one-shot decision on an event, and any run that does not
      decide that event again, a scan adds no event for the same device for as long
      as the decided event is in the file. */
  lemma OneShotDecisionSilencesScans(
      s: Store, id: string, decision: Decision, nmOk: bool, decided: Store, k: int,
      steps: seq<Step>, t: Store, sightings: seq<Sighting>, u: Store)
    requires DecidesOnce(s, id, decision, nmOk, decided, k)
    requires forall step <- steps :: !Redecides(step, id)
    requires t == Run(decided, steps) && u == Scan(t, sightings) && Held(t, k) && Held(u, k)
    ensures NoneNewFor(At(t, k), t, u)
  {
    SelectDecides(s, id, decision, nmOk, decided, k);
    DecidedStaysSilent(decided, k, id, steps, t, sightings, u);
  }

  /** The dispatcher guard does not honour one-shot decisions: for a prompt-policy
      phone it always leaves a prompt behind, and it appends a new one exactly when
      no prompt can be merged into, whatever has been decided. */
  lemma GuardPromptsDespiteDecisions(s: Store, p: Plan, probe: Probe, nmOk: bool)
    requires Inv(s) && p.driver in PhoneDrivers() && SavedPolicy(s.policy, p).Prompt?
    ensures var t := GuardApply(s, p, probe, nmOk);
      && (exists e <- t.events :: Mergeable(e, p))
      && (t.log != s.log <==> forall e <- s.events :: !Mergeable(e, p))
  {
    RecordPrompts(s, p, NoAction, probe);
    GuardUnderPrompt(s, p, probe, nmOk);
  }

  lemma GuardUnderPrompt(s: Store, p: Plan, probe: Probe, nmOk: bool)
    requires p.driver in PhoneDrivers() && SavedPolicy(s.policy, p).Prompt?
    ensures SameLog(GuardApply(s, p, probe, nmOk), Record(s, p, NoAction, probe))
  {
  }

  // ---- A scan settles ----

  // The device has a prompt on its interface, or has been decided on.
  ghost predicate Covered(events: seq<Event>, p: Plan) {
    (exists e <- events :: Mergeable(e, p)) || Suppressed(events, p)
  }

  // Interfaces are directory names, so one scan lists each of them once.
  ghost predicate DistinctInterfaces(sightings: seq<Sighting>) {
    forall i, j :: 0 <= i < j < |sightings| ==> sightings[i].plan.iface != sightings[j].plan.iface
  }

  ghost predicate PromptsCovered(s: Store, sightings: seq<Sighting>) {
    forall x <- sightings :: SavedPolicy(s.policy, x.plan).Prompt? ==> Covered(s.events, x.plan)
  }

  // Without a drop, covered devices stay covered when each event keeps covering them.
  lemma CoverageCarries(es: seq<Event>, fs: seq<Event>, p: Plan)
    requires Covered(es, p) && |es| <= |fs|
    requires forall i :: 0 <= i < |es| ==>
      && (Mergeable(es[i], p) ==> Mergeable(fs[i], p))
      && (MatchesPlan(es[i], p) && OneShotDecided(es[i]) && es[i].present ==>
          MatchesPlan(fs[i], p) && OneShotDecided(fs[i]) && fs[i].present)
    ensures Covered(fs, p)
  {
    if e :| e in es && Mergeable(e, p) {
      var i :| 0 <= i < |es| && es[i] == e;
      assert Mergeable(fs[i], p);
    } else {
      var e :| e in es && MatchesPlan(e, p) && OneShotDecided(e) && e.present;
      var i :| 0 <= i < |es| && es[i] == e;
      assert fs[i] in fs;
    }
  }

  lemma MergeKeepsCovered(es: seq<Event>, i: nat, e: Event, p: Plan)
    requires i < |es| && es[i].iface != p.iface && Covered(es, p)
    ensures Covered(es[i := e], p)
  {
    CoverageCarries(es, es[i := e], p);
  }

  lemma AppendKeepsCovered(es: seq<Event>, f: Event, p: Plan)
    requires Covered(es, p)
    ensures Covered(es + [f], p)
  {
    CoverageCarries(es, es + [f], p);
  }

  lemma RecordKeepsCovered(s: Store, q: Plan, action: Action, probe: Probe, p: Plan)
    requires |s.events| < LOG_LIMIT && q.iface != p.iface && Covered(s.events, p)
    ensures Covered(Record(s, q, action, probe).events, p)
  {
    var i := MergeIndex(s.events, q);
    if i < |s.events| {
      MergeKeepsCovered(s.events, i, Merged(s.events[i], q, action, probe), p);
    } else {
      AppendKeepsCovered(s.events, Fresh(q, action, probe), p);
    }
  }

  lemma ScanOneKeepsCovered(s: Store, x: Sighting, p: Plan)
    requires |s.events| < LOG_LIMIT && x.plan.iface != p.iface && Covered(s.events, p)
    ensures Covered(ScanOne(s, x).events, p)
  {
    RecordKeepsCovered(s, x.plan, ByScan, x.probe, p);
  }

  lemma ScanOneCovers(s: Store, x: Sighting)
    requires |s.events| < LOG_LIMIT && SavedPolicy(s.policy, x.plan).Prompt?
    ensures Covered(ScanOne(s, x).events, x.plan)
  {
    if !Suppressed(s.events, x.plan) {
      var i := MergeIndex(s.events, x.plan);
      var t := Record(s, x.plan, ByScan, x.probe);
      assert Mergeable(t.events[i], x.plan);
    }
  }

  lemma {:induction false} ScanFromKeepsCovered(s: Store, sightings: seq<Sighting>, p: Plan)
    requires |s.events| + |sightings| <= LOG_LIMIT
    requires forall x <- sightings :: x.plan.iface != p.iface
    requires Covered(s.events, p)
    ensures Covered(ScanFrom(s, sightings).events, p)
    decreases |sightings|
  {
    if sightings != [] {
      ScanOneKeepsCovered(s, sightings[0], p);
      ScanFromKeepsCovered(ScanOne(s, sightings[0]), sightings[1..], p);
    }
  }

  lemma CoveredFromFirst(s: Store, sightings: seq<Sighting>)
    requires sightings != [] && PromptsCovered(s, sightings[1..])
    requires SavedPolicy(s.policy, sightings[0].plan).Prompt? ==> Covered(s.events, sightings[0].plan)
    ensures PromptsCovered(s, sightings)
  {
    assert forall x <- sightings :: x == sightings[0] || x in sightings[1..];
  }

  lemma {:induction false} ScanFromCovers(s: Store, sightings: seq<Sighting>)
    requires |s.events| + |sightings| <= LOG_LIMIT && DistinctInterfaces(sightings)
    ensures ScanFrom(s, sightings).policy == s.policy
    ensures PromptsCovered(ScanFrom(s, sightings), sightings)
    decreases |sightings|
  {
    if sightings != [] {
      var x, t := sightings[0], ScanOne(s, sightings[0]);
      if SavedPolicy(s.policy, x.plan).Prompt? {
        ScanOneCovers(s, x);
        ScanFromKeepsCovered(t, sightings[1..], x.plan);
      }
      ScanFromCovers(t, sightings[1..]);
      CoveredFromFirst(ScanFrom(t, sightings[1..]), sightings);
    }
  }

  // Nothing is appended, and no event changes its identity or its status.
  ghost predicate Quiet(s: Store, t: Store) {
    && t.log == s.log && t.policy == s.policy && |t.events| == |s.events|
    && forall i :: 0 <= i < |s.events| ==>
         t.events[i].id == s.events[i].id && t.events[i].status == s.events[i].status
  }

  // A covered device is either skipped or merged.
  lemma ScanOneMerges(s: Store, x: Sighting)
    requires |s.events| <= LOG_LIMIT
    requires SavedPolicy(s.policy, x.plan).Prompt? ==> Covered(s.events, x.plan)
    ensures ScanOne(s, x) == s
         || var i := MergeIndex(s.events, x.plan);
            i < |s.events|
            && ScanOne(s, x) == s.(events := s.events[i := Merged(s.events[i], x.plan, ByScan, x.probe)])
  {
    if ScanOne(s, x) != s {
      var e :| e in s.events && Mergeable(e, x.plan);
      assert exists k :: 0 <= k < |s.events| && s.events[k] == e;
      FirstMergeable(s.events, x.plan);
    }
  }

  lemma ScanOneQuiet(s: Store, x: Sighting)
    requires |s.events| <= LOG_LIMIT
    requires SavedPolicy(s.policy, x.plan).Prompt? ==> Covered(s.events, x.plan)
    ensures Quiet(s, ScanOne(s, x))
  {
    ScanOneMerges(s, x);
  }

  lemma QuietScanKeepsCovered(s: Store, x: Sighting, p: Plan)
    requires |s.events| <= LOG_LIMIT
    requires SavedPolicy(s.policy, x.plan).Prompt? ==> Covered(s.events, x.plan)
    requires p.iface != x.plan.iface && Covered(s.events, p)
    ensures Covered(ScanOne(s, x).events, p)
  {
    ScanOneMerges(s, x);
    CoverageCarries(s.events, ScanOne(s, x).events, p);
  }

  lemma {:induction false} ScanFromQuiet(s: Store, sightings: seq<Sighting>)
    requires |s.events| <= LOG_LIMIT && DistinctInterfaces(sightings) && PromptsCovered(s, sightings)
    ensures Quiet(s, ScanFrom(s, sightings))
    decreases |sightings|
  {
    if sightings != [] {
      var t := ScanOne(s, sightings[0]);
      ScanOneQuiet(s, sightings[0]);
      forall x <- sightings[1..] | SavedPolicy(t.policy, x.plan).Prompt?
        ensures Covered(t.events, x.plan)
      {
        QuietScanKeepsCovered(s, sightings[0], x.plan);
      }
      ScanFromQuiet(t, sightings[1..]);
    }
  }

  /** With room in the log, one scan leaves every present prompt-policy device with a
      prompt or with a decision, and scanning the same devices again (at any time,
      over any default route) appends nothing and changes no id or status. */
  lemma ScanSettles(s: Store, sightings: seq<Sighting>, again: seq<Sighting>)
    requires Inv(s) && |s.events| + |sightings| <= LOG_LIMIT && DistinctInterfaces(sightings)
    requires Plans(again) == Plans(sightings)
    ensures PromptsCovered(Scan(s, sightings), sightings)
    ensures Quiet(Scan(s, sightings), Scan(Scan(s, sightings), again))
  {
    MarkedStoreKeepsInv(s, sightings);
    ScanFromCovers(MarkedStore(s, sightings), sightings);
    StepKeepsInv(s, ScanStep(sightings));
    RescanQuiet(Scan(s, sightings), sightings, again);
  }

  lemma RescanQuiet(t: Store, sightings: seq<Sighting>, again: seq<Sighting>)
    requires Inv(t) && DistinctInterfaces(sightings) && PromptsCovered(t, sightings)
    requires Plans(again) == Plans(sightings)
    ensures Quiet(t, Scan(t, again))
  {
    var u := MarkedStore(t, again);
    MarkedStoreKeepsInv(t, again);
    SamePlansCovered(t, sightings, again);
    forall x <- again | SavedPolicy(t.policy, x.plan).Prompt?
      ensures Covered(u.events, x.plan)
    {
      var i :| 0 <= i < |again| && again[i] == x;
      assert Plans(again)[i] == x.plan;
      MarkingKeepsCovered(t.events, Plans(again), x.plan);
    }
    ScanFromQuiet(u, again);
  }

  lemma SamePlansCovered(t: Store, sightings: seq<Sighting>, again: seq<Sighting>)
    requires Plans(again) == Plans(sightings)
    requires DistinctInterfaces(sightings) && PromptsCovered(t, sightings)
    ensures DistinctInterfaces(again) && PromptsCovered(t, again)
  {
    assert forall i :: 0 <= i < |again| ==> again[i].plan == Plans(again)[i] == sightings[i].plan;
    assert forall i :: 0 <= i < |again| ==> sightings[i] in sightings;
  }

  lemma MarkingKeepsCovered(events: seq<Event>, plans: seq<Plan>, p: Plan)
    requires Covered(events, p) && p in plans
    ensures Covered(MarkPresence(events, plans), p)
  {
    var marked := MarkPresence(events, plans);
    forall i | 0 <= i < |events| && MatchesPlan(events[i], p)
      ensures marked[i].present
    {
      assert Seen(events[i], plans);
    }
    CoverageCarries(events, marked, p);
  }

  // ---- Decisions and routing ----

  ghost predicate Demoted(s: Store, connection: string) {
    && connection in s.profiles
    && forall k <- DemotePolicy() :: k in s.profiles[connection] && s.profiles[connection][k] == DemotePolicy()[k]
  }

  lemma {:induction false} ScanFromKeepsProfiles(s: Store, sightings: seq<Sighting>)
    ensures ScanFrom(s, sightings).profiles == s.profiles
    decreases |sightings|
  {
    if sightings != [] {
      ScanFromKeepsProfiles(ScanOne(s, sightings[0]), sightings[1..]);
    }
  }

  /** Nothing the controller does gives a demoted phone connection its default route back. */
  lemma {:induction false} RunKeepsDemoted(s: Store, steps: seq<Step>, connection: string)
    requires Demoted(s, connection)
    ensures Demoted(Run(s, steps), connection)
    decreases |steps|
  {
    if steps != [] {
      match steps[0] {
        case ScanStep(sightings) => ScanFromKeepsProfiles(MarkedStore(s, sightings), sightings);
        case GuardStep(_, _, _) =>
        case SelectStep(_, _, _) =>
      }
      RunKeepsDemoted(Apply(s, steps[0]), steps[1..], connection);
    }
  }

  /** A decision that makes the phone an upstream needs a known connection and leaves
      it demoted; any decision that is refused, or whose policy cannot be applied,
      changes nothing at all. */
  lemma DecisionOutcomes(s: Store, id: string, decision: Decision, nmOk: bool)
    ensures var (t, outcome) := Select(s, id, decision, nmOk);
      && (outcome.Selected? && decision.UsesPhone() ==>
            outcome.event.connection != "" && Demoted(t, outcome.event.connection))
      && (!outcome.Selected? ==> t == s)
      && (outcome.Selected? <==>
            var i := IdIndex(s.events, id);
            && !decision.Unknown? && i < |s.events| && s.events[i].kind.PhoneTether?
            && (decision.UsesPhone() ==> s.events[i].connection != "")
            && (decision.Demotes() && s.events[i].connection != "" ==> nmOk))
  {
  }

  // ---- Decisions for good ----

  ghost predicate NeverAsked(s: Store, p: Plan) {
    !SavedPolicy(s.policy, p).Prompt?
  }

  lemma {:induction false} ScanFromKeepsPolicy(s: Store, sightings: seq<Sighting>)
    ensures ScanFrom(s, sightings).policy == s.policy
    decreases |sightings|
  {
    if sightings != [] {
      ScanFromKeepsPolicy(ScanOne(s, sightings[0]), sightings[1..]);
    }
  }

  lemma SelectKeepsNeverAsked(s: Store, id: string, decision: Decision, nmOk: bool, p: Plan)
    requires NeverAsked(s, p)
    ensures NeverAsked(Select(s, id, decision, nmOk).0, p)
  {
    var i := IdIndex(s.events, id);
    if i < |s.events| {
      SavedOverwritten(s, s.events[i], decision, p);
    }
  }

  lemma SavedOverwritten(s: Store, e: Event, decision: Decision, p: Plan)
    requires NeverAsked(s, p)
    ensures NeverAsked(s.(policy := SavePolicy(s, e, decision)), p)
  {
  }

  lemma {:induction false} RunKeepsNeverAsked(s: Store, steps: seq<Step>, p: Plan)
    requires NeverAsked(s, p)
    ensures NeverAsked(Run(s, steps), p)
    decreases |steps|
  {
    if steps != [] {
      match steps[0] {
        case ScanStep(sightings) => ScanFromKeepsPolicy(MarkedStore(s, sightings), sightings);
        case GuardStep(_, _, _) =>
        case SelectStep(id, decision, nmOk) => SelectKeepsNeverAsked(s, id, decision, nmOk, p);
      }
      RunKeepsNeverAsked(Apply(s, steps[0]), steps[1..], p);
    }
  }

  function KeyOf(p: Plan): string {
    PolicyKey(p.iface, p.connection, p.driver)
  }

  function EventKey(e: Event): string {
    PolicyKey(e.iface, e.connection, e.driver)
  }

  // An "always" decision is accepted for event e.
  ghost predicate DecidesForGood(
      s: Store, id: string, decision: Decision, nmOk: bool, decided: Store, e: Event)
  {
    && (decision.AlwaysKeepCurrent? || decision.AlwaysUsePhone?)
    && Select(s, id, decision, nmOk).0 == decided && Select(s, id, decision, nmOk).1 == Selected(e)
  }

  lemma SelectSaves(s: Store, id: string, decision: Decision, nmOk: bool, decided: Store, e: Event)
    requires DecidesForGood(s, id, decision, nmOk, decided, e)
    ensures decided.policy == s.policy[EventKey(e) :=
      if decision.AlwaysKeepCurrent? then KeepCurrentUpstream else UsePhonePort]
  {
  }

  /** An "always" decision is remembered as what it says, for the plans with the policy
      key of its event and no others; every other decision saves nothing. */
  lemma AlwaysCoversExactlyWhen(
      s: Store, id: string, decision: Decision, nmOk: bool, decided: Store, e: Event, p: Plan)
    requires DecidesForGood(s, id, decision, nmOk, decided, e)
    ensures KeyOf(p) == EventKey(e) ==>
      SavedPolicy(decided.policy, p) == if decision.AlwaysKeepCurrent? then KeepCurrentUpstream else UsePhonePort
    ensures KeyOf(p) != EventKey(e) ==> SavedPolicy(decided.policy, p) == SavedPolicy(s.policy, p)
    ensures NeverAsked(decided, p) <==> NeverAsked(s, p) || KeyOf(p) == EventKey(e)
  {
    SelectSaves(s, id, decision, nmOk, decided, e);
  }

  lemma OtherDecisionsSaveNothing(s: Store, id: string, decision: Decision, nmOk: bool)
    requires !decision.AlwaysKeepCurrent? && !decision.AlwaysUsePhone?
    ensures Select(s, id, decision, nmOk).0.policy == s.policy
  {
  }

  lemma NeverAskedIsLeftAlone(t: Store, p: Plan, probe: Probe, guardOk: bool)
    requires NeverAsked(t, p)
    ensures ScanOne(t, Sighting(p, probe)) == t && SameLog(GuardApply(t, p, probe, guardOk), t)
  {
  }

  /** For a plan that an "always" decision covers, neither a scan nor the guard records
      anything from then on, over any run. */
  lemma AlwaysDecisionSticks(
      s: Store, id: string, decision: Decision, nmOk: bool, decided: Store, e: Event, p: Plan,
      steps: seq<Step>, t: Store, probe: Probe, guardOk: bool)
    requires DecidesForGood(s, id, decision, nmOk, decided, e)
    requires KeyOf(p) == EventKey(e) && t == Run(decided, steps)
    ensures ScanOne(t, Sighting(p, probe)) == t && SameLog(GuardApply(t, p, probe, guardOk), t)
  {
    AlwaysCoversExactlyWhen(s, id, decision, nmOk, decided, e, p);
    RunKeepsNeverAsked(decided, steps, p);
    NeverAskedIsLeftAlone(t, p, probe, guardOk);
  }

  /** A decision taken while the connection is still unknown covers nothing once it is
      known: the same phone is asked about again. */
  lemma UnboundDecisionAsksAgain(
      s: Store, id: string, decision: Decision, nmOk: bool, decided: Store, e: Event, p: Plan)
    requires DecidesForGood(s, id, decision, nmOk, decided, e) && !NeverAsked(s, p)
    requires e.connection == "" && p.connection != "" && p.iface == e.iface && p.driver == e.driver
    ensures !NeverAsked(decided, p)
  {
    KeysDiffer(p.driver + ":" + p.iface + ":", p.connection);
    AlwaysCoversExactlyWhen(s, id, decision, nmOk, decided, e, p);
  }

  lemma KeysDiffer(front: string, connection: string)
    requires connection != ""
    ensures front + connection != front + ""
  {
    assert |front + connection| != |front + ""|;
  }
}
