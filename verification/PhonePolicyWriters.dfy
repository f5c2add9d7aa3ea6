/** The file of "always" decisions has no lock either: each save reads it, changes one key
    and replaces it whole. A history lists every version of the file, beginning with any. */
module PhonePolicyWriters {
  import opened Options
  import opened PhoneEventPrompts
  import opened PhoneEvents
  import PhoneEventRuns
  import PhoneEventWriters

  type Policy = map<string, SavedChoice>

  datatype Save = Save(key: string, forPhone: bool) {
    function Choice(): SavedChoice {
      if forPhone then UsePhonePort else KeepCurrentUpstream
    }
  }

  function Saved(policy: Policy, save: Save): Policy {
    policy[save.key := save.Choice()]
  }

  // The writers of the file are the "always" decisions.
  lemma DecisionIsSave(s: Store, id: string, decision: Decision, nmOk: bool, decided: Store, e: Event)
    requires DecidesForGood(s, id, decision, nmOk, decided, e)
    ensures decided.policy == Saved(s.policy, Save(EventKey(e), decision.AlwaysUsePhone?))
  {
    SelectSaves(s, id, decision, nmOk, decided, e);
  }

  // Save i was based on version `saves[i].0` and produced version i + 1.
  ghost predicate Written(versions: seq<Policy>, saves: seq<(nat, Save)>, i: nat)
    requires |versions| == |saves| + 1 && i < |saves|
  {
    saves[i].0 <= i && versions[i + 1] == Saved(versions[saves[i].0], saves[i].1)
  }

  ghost predicate History(versions: seq<Policy>, saves: seq<(nat, Save)>) {
    && |versions| == |saves| + 1
    && forall i :: 0 <= i < |saves| ==> Written(versions, saves, i)
  }

  lemma HistoryExtends(versions: seq<Policy>, saves: seq<(nat, Save)>, r: nat, save: Save, next: Policy)
    requires History(versions, saves) && r < |versions| && next == Saved(versions[r], save)
    ensures History(versions + [next], saves + [(r, save)])
  {
    var vs, ws := versions + [next], saves + [(r, save)];
    forall i | 0 <= i < |ws|
      ensures Written(vs, ws, i)
    {
      if i < |saves| {
        assert Written(versions, saves, i) && ws[i] == saves[i];
      }
    }
  }

  // The latest save of the key among those that version n was made by: its own save, the
  // one that made its base, and so on.
  function Decisive(saves: seq<(nat, Save)>, n: nat, key: string): (r: Option<nat>)
    requires n <= |saves|
    ensures r.Some? ==> r.value < n && saves[r.value].1.key == key
  {
    if n == 0 || saves[n - 1].0 >= n then None
    else if saves[n - 1].1.key == key then Some(n - 1)
    else Decisive(saves, saves[n - 1].0, key)
  }

  /** In every history, what a version says about a plan is what the decisive save of the
      plan's key said; without one it is what the first version says. */
  lemma {:induction false} ChoiceExactlyWhen(versions: seq<Policy>, saves: seq<(nat, Save)>, n: nat, p: Plan)
    requires History(versions, saves) && n <= |saves|
    ensures SavedPolicy(versions[n], p) ==
      match Decisive(saves, n, KeyOf(p))
      case Some(j) => saves[j].1.Choice()
      case None => SavedPolicy(versions[0], p)
  {
    if n > 0 {
      assert Written(versions, saves, n - 1);
      ChoiceExactlyWhen(versions, saves, saves[n - 1].0, p);
    }
  }

  lemma SaveKeepsCovered(policy: Policy, save: Save, p: Plan)
    requires !SavedPolicy(policy, p).Prompt?
    ensures !SavedPolicy(Saved(policy, save), p).Prompt?
  {
  }

  ghost function CoveredIn(versions: seq<Policy>, p: Plan): (held: seq<bool>)
    ensures |held| == |versions|
    ensures forall k :: 0 <= k < |held| ==> (held[k] <==> !SavedPolicy(versions[k], p).Prompt?)
  {
    seq(|versions|, k requires 0 <= k < |versions| => !SavedPolicy(versions[k], p).Prompt?)
  }

  /** A plan that version n covers is covered by every version from n on whose saves, from
      n on, read version n or a later one: neither a scan nor the guard that reads such a
      version records anything for it. */
  lemma CoverStays(
      versions: seq<Policy>, saves: seq<(nat, Save)>, n: nat, m: nat, p: Plan,
      t: Store, probe: Probe, guardOk: bool)
    requires History(versions, saves) && n <= m < |versions| && !SavedPolicy(versions[n], p).Prompt?
    requires forall j :: n <= j < m ==> n <= saves[j].0
    requires t.policy == versions[m]
    ensures ScanOne(t, Sighting(p, probe)) == t
    ensures PhoneEventRuns.SameLog(GuardApply(t, p, probe, guardOk), t)
  {
    var held, base := CoveredIn(versions, p), PhoneEventWriters.Bases(saves);
    forall j | n <= j < m
      ensures n <= base[j] <= j && (held[base[j]] ==> held[j + 1])
    {
      assert Written(versions, saves, j);
      if held[base[j]] {
        SaveKeepsCovered(versions[saves[j].0], saves[j].1, p);
      }
    }
    PhoneEventWriters.Persists(held, base, n, m);
    NeverAskedIsLeftAlone(t, p, probe, guardOk);
  }

  /** Any history whose last version does not cover the plan can go on so that an "always"
      decision for it is lost: a save of another key, based on the version before the
      decision, makes both the scan and the guard ask again. */
  lemma StaleSaveForgets(
      versions: seq<Policy>, saves: seq<(nat, Save)>, p: Plan, save: Save, other: Save, last: Policy)
    requires History(versions, saves) && last == versions[|saves|] && SavedPolicy(last, p).Prompt?
    requires save.key == KeyOf(p) && other.key != save.key
    ensures var decided, after := Saved(last, save), Saved(last, other);
            && History(versions + [decided] + [after], saves + [(|saves|, save)] + [(|saves|, other)])
            && SavedPolicy(decided, p) == save.Choice()
            && SavedPolicy(after, p).Prompt?
  {
    HistoryExtends(versions, saves, |saves|, save, Saved(last, save));
    HistoryExtends(versions + [Saved(last, save)], saves + [(|saves|, save)], |saves|, other, Saved(last, other));
  }
}
