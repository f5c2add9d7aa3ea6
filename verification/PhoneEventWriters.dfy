/** The event file has no lock: the dashboard, the dispatcher and the command line
    each read it, compute, and replace it whole. A history lists every version of
    the file; each write may be based on any version that existed when it began. */
module PhoneEventWriters {
  import opened PhoneEvents
  import opened PhoneEventRuns

  datatype Write =
    | Mark(plans: seq<Plan>)
    | Observe(plan: Plan, action: Action, probe: Probe)
    | Resolve(id: string, decision: Decision)

  // The log before it is trimmed.
  function Untrimmed(events: seq<Event>, w: Write): seq<Event> {
    match w
    case Mark(plans) => MarkPresence(events, plans)
    case Observe(p, action, probe) =>
      var i := MergeIndex(events, p);
      if i < |events| then events[i := Merged(events[i], p, action, probe)]
      else events + [Fresh(p, action, probe)]
    case Resolve(id, decision) =>
      var i := IdIndex(events, id);
      if i < |events| then events[i := ResolvedBy(events[i], decision)] else events
  }

  function Rewrite(events: seq<Event>, w: Write): seq<Event> {
    Trim(Untrimmed(events, w))
  }

  // The writers of the file are the steps of the controller.
  lemma ObserveIsRecord(s: Store, p: Plan, action: Action, probe: Probe)
    ensures Rewrite(s.events, Observe(p, action, probe)) == Record(s, p, action, probe).events
  {
  }

  lemma MarkIsMark(s: Store, sightings: seq<Sighting>)
    requires |s.events| <= LOG_LIMIT
    ensures Rewrite(s.events, Mark(Plans(sightings))) == MarkedStore(s, sightings).events
  {
  }

  lemma ResolveIsSelect(s: Store, id: string, decision: Decision, nmOk: bool)
    requires |s.events| <= LOG_LIMIT && Select(s, id, decision, nmOk).1.Selected?
    ensures Rewrite(s.events, Resolve(id, decision)) == Select(s, id, decision, nmOk).0.events
  {
  }

  // Write i was based on version `writes[i].0` and produced version i + 1.
  ghost predicate Written(versions: seq<seq<Event>>, writes: seq<(nat, Write)>, i: nat)
    requires |versions| == |writes| + 1 && i < |writes|
  {
    writes[i].0 <= i && versions[i + 1] == Rewrite(versions[writes[i].0], writes[i].1)
  }

  ghost predicate History(versions: seq<seq<Event>>, writes: seq<(nat, Write)>) {
    && |versions| == |writes| + 1 && versions[0] == []
    && forall i :: 0 <= i < |writes| ==> Written(versions, writes, i)
  }

  lemma ResolveKeepsDistinguished(events: seq<Event>, i: nat, decision: Decision)
    requires PromptsDistinguished(events) && i < |events|
    ensures PromptsDistinguished(events[i := ResolvedBy(events[i], decision)])
  {
    NoNewPromptsKeepDistinguished(events, events[i := ResolvedBy(events[i], decision)]);
  }

  lemma TrimKeepsDistinguished(events: seq<Event>)
    requires PromptsDistinguished(events)
    ensures PromptsDistinguished(Trim(events)) && |Trim(events)| <= LOG_LIMIT
  {
  }

  lemma RewriteKeepsDistinguished(events: seq<Event>, w: Write)
    requires PromptsDistinguished(events)
    ensures PromptsDistinguished(Rewrite(events, w)) && |Rewrite(events, w)| <= LOG_LIMIT
  {
    match w
    case Mark(plans) =>
      NoNewPromptsKeepDistinguished(events, MarkPresence(events, plans));
      TrimKeepsDistinguished(MarkPresence(events, plans));
    case Observe(p, action, probe) =>
      var s := EmptyStore().(events := events);
      RecordKeepsDistinguished(s, p, action, probe);
      ObserveIsRecord(s, p, action, probe);
    case Resolve(id, decision) =>
      var i := IdIndex(events, id);
      if i < |events| {
        ResolveKeepsDistinguished(events, i, decision);
        TrimKeepsDistinguished(events[i := ResolvedBy(events[i], decision)]);
      } else {
        TrimKeepsDistinguished(events);
      }
  }

  /** However the writers interleave, every version of the file keeps its prompts
      apart and its length bounded. */
  lemma {:induction false} EveryVersionDistinguished(versions: seq<seq<Event>>, writes: seq<(nat, Write)>, n: nat)
    requires History(versions, writes) && n < |versions|
    ensures PromptsDistinguished(versions[n]) && |versions[n]| <= LOG_LIMIT
  {
    if n > 0 {
      assert Written(versions, writes, n - 1);
      EveryVersionDistinguished(versions, writes, writes[n - 1].0);
      RewriteKeepsDistinguished(versions[writes[n - 1].0], writes[n - 1].1);
    }
  }

  lemma HistoryExtends(versions: seq<seq<Event>>, writes: seq<(nat, Write)>, r: nat, w: Write, next: seq<Event>)
    requires History(versions, writes) && r < |versions| && next == Rewrite(versions[r], w)
    ensures History(versions + [next], writes + [(r, w)])
  {
    var vs, ws := versions + [next], writes + [(r, w)];
    forall i | 0 <= i < |ws|
      ensures Written(vs, ws, i)
    {
      if i < |writes| {
        assert Written(versions, writes, i) && ws[i] == writes[i];
      }
    }
  }

  // ---- What a write keeps of its base ----

  // How many of the oldest events a write drops.
  function Dropped(events: seq<Event>, w: Write): (d: nat)
    ensures d <= |Untrimmed(events, w)|
  {
    |Untrimmed(events, w)| - |Rewrite(events, w)|
  }

  // The write resolves event i of its base.
  predicate Resolves(events: seq<Event>, w: Write, i: nat) {
    w.Resolve? && i < |events| && i == IdIndex(events, w.id)
  }

  lemma UntrimmedStatus(events: seq<Event>, w: Write, i: nat)
    requires i < |events|
    ensures var fs := Untrimmed(events, w);
      && |events| <= |fs| && fs[i].id == events[i].id
      && (fs[i].status.Resolved? <==> events[i].status.Resolved? || Resolves(events, w, i))
  {
  }

  // Beyond the base there is at most a new prompt.
  lemma UntrimmedNew(events: seq<Event>, w: Write, i: nat)
    requires |events| <= i < |Untrimmed(events, w)|
    ensures Untrimmed(events, w)[i].status.Pending?
  {
  }

  /** An event that a write keeps is decided afterwards exactly when it was decided in
      the version the write is based on or the write decides it, and a prompt otherwise. */
  lemma DecidedExactlyWhen(events: seq<Event>, w: Write, i: nat)
    requires Dropped(events, w) <= i < |events|
    ensures var e := Rewrite(events, w)[i - Dropped(events, w)];
      && e.id == events[i].id
      && (e.status.Resolved? <==> events[i].status.Resolved? || Resolves(events, w, i))
  {
    UntrimmedStatus(events, w, i);
  }

  // ---- Decisions over a history ----

  ghost predicate Decided(events: seq<Event>, id: string) {
    exists i :: 0 <= i < |events| && events[i].id == id && events[i].status.Resolved?
  }

  // The write keeps the event of a decision its base holds, or makes the decision.
  ghost predicate Carries(events: seq<Event>, w: Write, id: string) {
    exists i :: Dropped(events, w) <= i < |events| && events[i].id == id
      && (events[i].status.Resolved? || Resolves(events, w, i))
  }

  lemma DecidedCarries(events: seq<Event>, w: Write, id: string, j: nat)
    requires j < |Rewrite(events, w)|
    requires Rewrite(events, w)[j].id == id && Rewrite(events, w)[j].status.Resolved?
    ensures Carries(events, w, id)
  {
    var i := j + Dropped(events, w);
    assert Rewrite(events, w)[j] == Untrimmed(events, w)[i];
    if i >= |events| {
      UntrimmedNew(events, w, i);
      assert false;
    }
    UntrimmedStatus(events, w, i);
  }

  lemma CarriedDecided(events: seq<Event>, w: Write, id: string, i: nat)
    requires Dropped(events, w) <= i < |events| && events[i].id == id
    requires events[i].status.Resolved? || Resolves(events, w, i)
    ensures Decided(Rewrite(events, w), id)
  {
    DecidedExactlyWhen(events, w, i);
    DecidedBy(Rewrite(events, w), id, i - Dropped(events, w));
  }

  lemma DecidedBy(events: seq<Event>, id: string, i: nat)
    requires i < |events| && events[i].id == id && events[i].status.Resolved?
    ensures Decided(events, id)
  {
  }

  lemma RewriteDecided(events: seq<Event>, w: Write, id: string)
    ensures Decided(Rewrite(events, w), id) <==> Carries(events, w, id)
  {
    if Decided(Rewrite(events, w), id) {
      var fs := Rewrite(events, w);
      var j :| 0 <= j < |fs| && fs[j].id == id && fs[j].status.Resolved?;
      DecidedCarries(events, w, id, j);
    }
    if Carries(events, w, id) {
      var i :| Dropped(events, w) <= i < |events| && events[i].id == id
        && (events[i].status.Resolved? || Resolves(events, w, i));
      CarriedDecided(events, w, id, i);
    }
  }

  /** A version of the file holds a decision exactly when its write made it, or kept it
      from the version it was based on. So a write loses a decision that the version
      before it holds exactly when it is based on a version without it (or drops it). */
  lemma DecisionsExactlyWhen(versions: seq<seq<Event>>, writes: seq<(nat, Write)>, j: nat, id: string)
    requires History(versions, writes) && j < |writes|
    ensures writes[j].0 <= j
    ensures Decided(versions[j + 1], id) <==> Carries(versions[writes[j].0], writes[j].1, id)
  {
    assert Written(versions, writes, j);
    RewriteDecided(versions[writes[j].0], writes[j].1, id);
  }

  // The write drops no event with the identifier.
  ghost predicate Retains(events: seq<Event>, w: Write, id: string) {
    forall i :: 0 <= i < Dropped(events, w) && i < |events| ==> events[i].id != id
  }

  // Write j is based on version n or a later one, and retains the identifier's events.
  ghost predicate Keeps(versions: seq<seq<Event>>, writes: seq<(nat, Write)>, j: nat, n: nat, id: string)
    requires |versions| == |writes| + 1 && j < |writes|
  {
    n <= writes[j].0 <= j && Retains(versions[writes[j].0], writes[j].1, id)
  }

  lemma RetainedCarries(events: seq<Event>, w: Write, id: string)
    requires Decided(events, id) && Retains(events, w, id)
    ensures Carries(events, w, id)
  {
    var i :| 0 <= i < |events| && events[i].id == id && events[i].status.Resolved?;
    assert i >= Dropped(events, w);
  }

  /** As long as no write drops it, a decision of version n is in every version from n on
      whose writes, from n on, read version n or a later one. Writes that are each based
      on the latest version do. */
  lemma DecisionStays(
      versions: seq<seq<Event>>, writes: seq<(nat, Write)>, n: nat, m: nat, id: string)
    requires History(versions, writes) && n <= m < |versions| && Decided(versions[n], id)
    requires forall j :: n <= j < m ==> Keeps(versions, writes, j, n, id)
    ensures Decided(versions[m], id)
  {
    var held, base := DecidedIn(versions, id), Bases(writes);
    forall j | n <= j < m
      ensures n <= base[j] <= j && (held[base[j]] ==> held[j + 1])
    {
      assert Keeps(versions, writes, j, n, id);
      StaysOnce(versions, writes, j, n, id, held, base);
    }
    Persists(held, base, n, m);
  }

  ghost function DecidedIn(versions: seq<seq<Event>>, id: string): (held: seq<bool>)
    ensures |held| == |versions| && forall k :: 0 <= k < |held| ==> (held[k] <==> Decided(versions[k], id))
  {
    seq(|versions|, k requires 0 <= k < |versions| => Decided(versions[k], id))
  }

  function Bases<W>(writes: seq<(nat, W)>): (base: seq<nat>)
    ensures |base| == |writes| && forall j :: 0 <= j < |base| ==> base[j] == writes[j].0
  {
    seq(|writes|, j requires 0 <= j < |writes| => writes[j].0)
  }

  // What each step takes over from an earlier one not before n stays from n on.
  lemma {:induction false} Persists(held: seq<bool>, base: seq<nat>, n: nat, m: nat)
    requires n <= m < |held| == |base| + 1 && held[n]
    requires forall j :: n <= j < m ==> n <= base[j] <= j && (held[base[j]] ==> held[j + 1])
    ensures held[m]
    decreases m
  {
    if n < m {
      assert n <= base[m - 1] <= m - 1;
      Persists(held, base, n, base[m - 1]);
    }
  }

  lemma StaysOnce(
      versions: seq<seq<Event>>, writes: seq<(nat, Write)>, j: nat, n: nat, id: string,
      held: seq<bool>, base: seq<nat>)
    requires History(versions, writes) && j < |writes| && Keeps(versions, writes, j, n, id)
    requires held == DecidedIn(versions, id) && base == Bases(writes)
    ensures n <= base[j] <= j && (held[base[j]] ==> held[j + 1])
  {
    if Decided(versions[writes[j].0], id) {
      RetainedCarries(versions[writes[j].0], writes[j].1, id);
      DecisionsExactlyWhen(versions, writes, j, id);
    }
  }

  /** Any history with a prompt can go on so that the condition fails: a decision on the
      prompt, then a write based on the version before it, bring it back as a prompt. */
  lemma StaleWriteRevivesPrompt(
      versions: seq<seq<Event>>, writes: seq<(nat, Write)>, p: Plan, action: Action, probe: Probe,
      decision: Decision, last: seq<Event>, i: nat)
    requires History(versions, writes) && last == versions[|writes|]
    requires i == MergeIndex(last, p) < |last| && i == IdIndex(last, last[i].id)
    ensures var decide, observe := Resolve(last[i].id, decision), Observe(p, action, probe);
            var decided, revived := Rewrite(last, decide), Rewrite(last, observe);
            && History(versions + [decided] + [revived], writes + [(|writes|, decide)] + [(|writes|, observe)])
            && |decided| == |revived| == |last|
            && decided[i].id == revived[i].id == last[i].id
            && decided[i].status.Resolved? && revived[i].status.Pending?
  {
    EveryVersionDistinguished(versions, writes, |writes|);
    var decide, observe := Resolve(last[i].id, decision), Observe(p, action, probe);
    var decided, revived := Rewrite(last, decide), Rewrite(last, observe);
    HistoryExtends(versions, writes, |writes|, decide, decided);
    HistoryExtends(versions + [decided], writes + [(|writes|, decide)], |writes|, observe, revived);
  }
}
