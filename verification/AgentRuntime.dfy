/** The agent's session, its recorded child process, and the watchdog. Files are
    optional values; the operating system is the set of live children. */
module AgentRuntime {
  import opened Options
  import opened SessionPorts

  // A recorded child; its pid may be missing or no number in a damaged file.
  datatype Child = Child(pid: Option<int>)

  // What a kill does: end the process, find none, be ignored, or raise an error.
  datatype Kill = Ends | NotFound | Ignored | Raises

  type Kills = int -> Kill

  // The session is the manifest's listeners.
  datatype State = State(
    session: Option<seq<Listener>>, token: bool, recorded: Option<seq<Child>>, live: set<int>)

  datatype Status = Running | Stale | Stopped

  function Children(s: State): seq<Child> {
    if s.recorded.Some? then s.recorded.value else []
  }

  predicate IsLive(c: Child, live: set<int>) {
    c.pid.Some? && c.pid.value in live
  }

  function RuntimeStatus(s: State): Status {
    if exists c <- Children(s) :: IsLive(c, s.live) then Running
    else if Children(s) != [] then Stale
    else Stopped
  }

  function Pids(children: seq<Child>): (pids: set<int>)
    ensures forall c <- children :: c.pid.Some? ==> c.pid.value in pids
  {
    set c <- children | c.pid.Some? :: c.pid.value
  }

  function Survivors(live: set<int>, children: seq<Child>, kills: Kills): set<int> {
    set pid <- live | !(pid in Pids(children) && kills(pid).Ends?)
  }

  function Stop(s: State, kills: Kills): State {
    s.(recorded := None, live := Survivors(s.live, Children(s), kills))
  }

  // The plan of the session's manifest is ok and names a LAN proxy.
  predicate Startable(session: Option<seq<Listener>>) {
    && session.Some?
    && (forall l <- session.value :: ValidListener(l))
    && exists l <- session.value :: l.id == LanProxy
  }

  // `asked`: a profile was opened and the start was asked for; `spawned` is None when
  // the process could not be started.
  function Start(s: State, asked: bool, kills: Kills, spawned: Option<int>): State {
    if !asked || !Startable(s.session) then s
    else
      var t := Stop(s, kills);
      if spawned.None? then t
      else t.(recorded := Some([Child(spawned)]), live := t.live + {spawned.value})
  }

  function StopSession(s: State, kills: Kills): State {
    Stop(s, kills).(session := None, token := false)
  }

  // What the watchdog finds: the USB stick missing or untrusted, and a profile source.
  datatype Surroundings = Surroundings(usbFailed: bool, profilePresent: bool)

  datatype Verdict = LockedRemoved | StaleCleaned | ProfileLostLocked | WatchOk

  function Watch(s: State, w: Surroundings): Verdict {
    if s.session.Some? && w.usbFailed then LockedRemoved
    else if RuntimeStatus(s).Stale? then StaleCleaned
    else if s.session.Some? && RuntimeStatus(s).Running? && !w.profilePresent then ProfileLostLocked
    else WatchOk
  }

  function Watchdog(s: State, w: Surroundings, kills: Kills): State {
    match Watch(s, w)
    case LockedRemoved => StopSession(s, kills)
    case StaleCleaned => Stop(s, kills)
    case ProfileLostLocked => StopSession(s, kills)
    case WatchOk => s
  }

  // ---- The code ----

  class Agent {
    var session: Option<seq<Listener>>
    var token: bool
    var recorded: Option<seq<Child>>
    var live: set<int>

    ghost function View(): State
      reads this
    {
      State(session, token, recorded, live)
    }

    method StopRuntime(kills: Kills) returns (ok: bool)
      modifies this`recorded, this`live
      ensures View() == Stop(old(View()), kills)
      ensures ok <==> forall c <- old(Children(View())) :: c.pid.Some? ==> !kills(c.pid.value).Raises?
    {
      var children := if recorded.Some? then recorded.value else [];
      ok := true;
      assert children[..0] == [] && Pids([]) == {};
      assert Survivors(live, [], kills) == live;
      for i := 0 to |children|
        invariant live == Survivors(old(live), children[..i], kills)
        invariant ok <==> forall k :: 0 <= k < i && children[k].pid.Some? ==> !kills(children[k].pid.value).Raises?
        invariant recorded == old(recorded)
      {
        var pid := children[i].pid;
        if pid.Some? {
          match kills(pid.value) {
            case Ends => live := live - {pid.value};
            case Raises => ok := false;
            case _ =>
          }
        }
        PidsAppend(children, i);
      }
      assert children[..|children|] == children;
      recorded := None;
    }

    static method HasChild(children: seq<Listener>, id: ListenerId) returns (found: bool)
      ensures found <==> exists l <- children :: l.id == id
    {
      for i := 0 to |children|
        invariant forall k :: 0 <= k < i ==> children[k].id != id
      {
        if children[i].id == id {
          assert children[i] in children;
          return true;
        }
      }
      return false;
    }

    method StartRuntime(asked: bool, kills: Kills, spawned: Option<int>) returns (ok: bool)
      modifies this`recorded, this`live
      ensures View() == Start(old(View()), asked, kills, spawned)
      ensures ok <==> asked && Startable(old(session)) && spawned.Some?
    {
      var plan := BuildRuntimePlan(if session.Some? then session.value else []);
      if !plan.ok || !asked {
        return false;
      }
      AllValid(if session.Some? then session.value else []);
      var lan := HasChild(plan.children, LanProxy);
      if !lan {
        return false;
      }
      assert Startable(session);
      var _ := StopRuntime(kills);
      if spawned.None? {
        return false;
      }
      live := live + {spawned.value};
      recorded := Some([Child(spawned)]);
      return true;
    }

    method Status() returns (status: Status)
      ensures status == RuntimeStatus(View())
    {
      var children := if recorded.Some? then recorded.value else [];
      var active, stale := 0, 0;
      for i := 0 to |children|
        invariant active + stale == i && active >= 0
        invariant active > 0 <==> exists k :: 0 <= k < i && IsLive(children[k], live)
      {
        if IsLive(children[i], live) {
          active := active + 1;
        } else {
          stale := stale + 1;
        }
      }
      assert active > 0 <==> exists c <- children :: IsLive(c, live);
      return if active > 0 then Running else if stale > 0 then Stale else Stopped;
    }

    method EndSession(kills: Kills)
      modifies this
      ensures View() == StopSession(old(View()), kills)
    {
      var _ := StopRuntime(kills);
      session := None;
      token := false;
    }

    method WatchdogOnce(w: Surroundings, kills: Kills) returns (verdict: Verdict)
      modifies this
      ensures View() == Watchdog(old(View()), w, kills)
      ensures verdict == Watch(old(View()), w)
    {
      var status := Status();
      if session.Some? && w.usbFailed {
        EndSession(kills);
        return LockedRemoved;
      }
      if status.Stale? {
        var _ := StopRuntime(kills);
        return StaleCleaned;
      }
      if session.Some? && status.Running? && !w.profilePresent {
        EndSession(kills);
        return ProfileLostLocked;
      }
      return WatchOk;
    }
  }

  lemma PidsAppend(children: seq<Child>, i: nat)
    requires i < |children|
    ensures Pids(children[..i + 1]) ==
      Pids(children[..i]) + if children[i].pid.Some? then {children[i].pid.value} else {}
  {
  }

  // ---- What the operations leave ----

  // Some recorded child is alive.
  predicate Runs(s: State) {
    s.recorded.Some? && exists c <- s.recorded.value :: c.pid.Some? && c.pid.value in s.live
  }

  // Every recorded child whose kill took effect is gone, nothing else is.
  ghost predicate Killed(s: State, t: State, kills: Kills) {
    forall pid :: pid in t.live <==>
      && pid in s.live
      && !(s.recorded.Some? && Child(Some(pid)) in s.recorded.value && kills(pid) == Ends)
  }

  lemma StopKills(s: State, kills: Kills)
    ensures Killed(s, Stop(s, kills), kills) && Stop(s, kills).recorded.None?
  {
  }

  /** Stopping a session kills its child and forgets the child, the session and the
      unlock token. */
  lemma SessionEnds(s: State, kills: Kills, t: State)
    requires t == StopSession(s, kills)
    ensures t.session.None? && !t.token && t.recorded.None? && Killed(s, t, kills)
  {
    StopKills(s, kills);
  }

  /** A start with a valid session replaces the recorded child by the one it spawns; any
      other start changes nothing. */
  lemma StartLeaves(s: State, asked: bool, kills: Kills, spawned: Option<int>, t: State, stopped: State)
    requires t == Start(s, asked, kills, spawned) && stopped == Stop(s, kills)
    ensures if asked && s.session.Some?
         && (forall l <- s.session.value :: l.host != "" && 1 <= l.port <= 65535)
         && (exists l <- s.session.value :: l.id == LanProxy) then
        && Killed(s, stopped, kills) && t.session == s.session && t.token == s.token
        && t.live == stopped.live + (if spawned.Some? then {spawned.value} else {})
        && t.recorded == (if spawned.Some? then Some([Child(spawned)]) else None)
      else t == s
  {
    StopKills(s, kills);
  }

  /** What a pass of the watchdog does: it ends a session whose USB stick fails, forgets
      dead children, ends a running session whose profile is gone, and otherwise changes
      nothing. */
  lemma WatchdogEffects(s: State, w: Surroundings, kills: Kills, t: State)
    requires t == Watchdog(s, w, kills)
    ensures if s.session.Some? && w.usbFailed then
        && Watch(s, w) == LockedRemoved
        && t.session.None? && !t.token && t.recorded.None? && Killed(s, t, kills)
      else if s.recorded.Some? && s.recorded.value != [] && !Runs(s) then
        && Watch(s, w) == StaleCleaned
        && t.session == s.session && t.token == s.token && t.recorded.None? && Killed(s, t, kills)
      else if s.session.Some? && Runs(s) && !w.profilePresent then
        && Watch(s, w) == ProfileLostLocked
        && t.session.None? && !t.token && t.recorded.None? && Killed(s, t, kills)
      else Watch(s, w) == WatchOk && t == s
  {
    StopKills(s, kills);
  }

  // ---- The watchdog converges ----

  ghost predicate Settled(s: State, w: Surroundings) {
    && !(s.session.Some? && w.usbFailed)
    && !RuntimeStatus(s).Stale?
    && !(s.session.Some? && RuntimeStatus(s).Running? && !w.profilePresent)
  }

  /** One pass settles everything, whatever the kills do: a settled state is exactly one
      the watchdog reports as ok and leaves alone. */
  lemma WatchdogConverges(s: State, w: Surroundings, kills: Kills, again: Kills)
    ensures var t := Watchdog(s, w, kills);
      Settled(t, w) && Watch(t, w).WatchOk? && Watchdog(t, w, again) == t
    ensures Watch(s, w).WatchOk? <==> Settled(s, w)
  {
  }

  // ---- Children are accounted for ----

  datatype Step =
    | StartStep(asked: bool, kills: Kills, spawned: Option<int>)
    | StopStep(kills: Kills)
    | SessionStep(created: Option<seq<Listener>>, kills: Kills)
    | WatchStep(surroundings: Surroundings, kills: Kills)
    | ExitStep(pid: int)
    | LoseStep   // session.json is lost or damaged

  function Do(s: State, step: Step): State {
    match step
    case StartStep(asked, kills, spawned) => Start(s, asked, kills, spawned)
    case StopStep(kills) => Stop(s, kills)
    case SessionStep(created, kills) => if created.Some? then s.(session := created) else StopSession(s, kills)
    case WatchStep(w, kills) => Watchdog(s, w, kills)
    case ExitStep(pid) => s.(live := s.live - {pid})
    case LoseStep => s.(session := None)
  }

  // The state after the first steps of a run.
  function After(steps: seq<Step>): State {
    if steps == [] then State(None, false, None, {})
    else Do(After(steps[..|steps| - 1]), steps[|steps| - 1])
  }

  // Every live child is recorded.
  ghost predicate Accounted(s: State) {
    s.live <= Pids(Children(s))
  }

  ghost predicate AtMostOne(s: State) {
    |Children(s)| <= 1
  }

  // Kills that end the process they are aimed at.
  ghost predicate Effective(step: Step) {
    match step
    case StartStep(_, kills, _) => forall pid :: kills(pid).Ends?
    case StopStep(kills) => forall pid :: kills(pid).Ends?
    case SessionStep(_, kills) => forall pid :: kills(pid).Ends?
    case WatchStep(_, kills) => forall pid :: kills(pid).Ends?
    case ExitStep(_) => true
    case LoseStep => true
  }

  /** A stop loses track of a live child exactly when a kill of a recorded live child
      does not end it: then the child runs on and no file names it. */
  lemma StopAccountsExactlyWhen(s: State, kills: Kills)
    requires Accounted(s)
    ensures Accounted(Stop(s, kills)) <==> forall pid <- s.live :: kills(pid).Ends?
    ensures Stop(s, kills).live == set pid <- s.live | !kills(pid).Ends?
  {
    var t := Stop(s, kills);
    assert Children(t) == [] && Pids([]) == {};
    assert Accounted(t) <==> t.live == {};
    forall pid <- s.live
      ensures pid in t.live <==> !kills(pid).Ends?
    {
    }
    if forall pid <- s.live :: kills(pid).Ends? {
      assert t.live == {};
    }
  }

  lemma StartAccounts(s: State, asked: bool, kills: Kills, spawned: Option<int>)
    requires Accounted(s) && forall pid <- s.live :: kills(pid).Ends?
    ensures Accounted(Start(s, asked, kills, spawned))
  {
    StopAccountsExactlyWhen(s, kills);
    assert Pids([Child(spawned)]) >= if spawned.Some? then {spawned.value} else {};
  }

  /** At most one child is ever recorded; if kills end what they are aimed at, every
      live child is recorded, however starts, stops, sessions, watchdog passes and
      exits follow each other. */
  lemma {:induction false} RunAccounts(steps: seq<Step>)
    ensures AtMostOne(After(steps))
    ensures (forall step <- steps :: Effective(step)) ==> Accounted(After(steps))
  {
    if steps != [] {
      var n := |steps| - 1;
      var s, step := After(steps[..n]), steps[n];
      RunAccounts(steps[..n]);
      assert forall x <- steps[..n] :: x in steps;
      if forall x <- steps :: Effective(x) {
        assert step in steps && Effective(step);
        StepAccounts(s, step);
      }
    }
  }

  lemma StepAccounts(s: State, step: Step)
    requires Accounted(s) && Effective(step)
    ensures Accounted(Do(s, step))
  {
    match step
    case StartStep(asked, kills, spawned) => StartAccounts(s, asked, kills, spawned);
    case StopStep(kills) => StopAccountsExactlyWhen(s, kills);
    case SessionStep(_, kills) => StopAccountsExactlyWhen(s, kills);
    case WatchStep(_, kills) => StopAccountsExactlyWhen(s, kills);
    case ExitStep(_) =>
    case LoseStep =>
  }

  // ---- What the watchdog shuts down ----

  // Whoever has a child on record has a session.
  ghost predicate Owned(s: State) {
    Children(s) != [] ==> s.session.Some?
  }

  /** Every removal of the session stops the runtime first, so unless the session file is
      lost, a recorded child belongs to a session. */
  lemma {:induction false} RunOwned(steps: seq<Step>)
    requires forall i :: 0 <= i < |steps| ==> !steps[i].LoseStep?
    ensures Owned(After(steps))
  {
    if steps != [] {
      RunOwned(steps[..|steps| - 1]);
      StepOwned(After(steps[..|steps| - 1]), steps[|steps| - 1]);
    }
  }

  lemma StepOwned(s: State, step: Step)
    requires Owned(s) && !step.LoseStep?
    ensures Owned(Do(s, step))
  {
  }

  // The USB stick or the profile is gone.
  predicate LockedOut(w: Surroundings) {
    w.usbFailed || !w.profilePresent
  }

  lemma PickOne<T(!new)>(s: set<T>) returns (x: T)
    requires s != {}
    ensures x in s
  {
    x :| x in s;
  }

  /** When the USB stick or the profile is gone, one pass ends every live child exactly
      when there is a session or no live child: a child without a session runs on. */
  lemma WatchdogClearsExactlyWhen(s: State, w: Surroundings, kills: Kills)
    requires Accounted(s) && LockedOut(w) && forall pid <- s.live :: kills(pid).Ends?
    ensures Watchdog(s, w, kills).live == {} <==> s.session.Some? || s.live == {}
  {
    StopAccountsExactlyWhen(s, kills);
    assert Stop(s, kills).live == {};
    if s.live != {} {
      var pid := PickOne(s.live);
      var c :| c in Children(s) && c.pid == Some(pid);
      assert IsLive(c, s.live);
    }
  }

  /** So over any run in which kills take effect and the session file is not lost, one
      pass without USB stick or profile leaves nothing running. */
  lemma LockedOutRunsNothing(steps: seq<Step>, w: Surroundings, kills: Kills)
    requires forall i :: 0 <= i < |steps| ==> !steps[i].LoseStep? && Effective(steps[i])
    requires LockedOut(w) && forall pid :: kills(pid).Ends?
    ensures Watchdog(After(steps), w, kills).live == {}
  {
    RunOwned(steps);
    RunAccounts(steps);
    assert forall step <- steps :: Effective(step);
    var s := After(steps);
    assert Children(s) == [] ==> Pids(Children(s)) == {};
    WatchdogClearsExactlyWhen(s, w, kills);
  }

  lemma StartedOnce(ls: seq<Listener>, pid: int, kills: Kills)
    requires Startable(Some(ls))
    ensures Start(State(Some(ls), false, None, {}), true, kills, Some(pid))
         == State(Some(ls), false, Some([Child(Some(pid))]), {pid})
  {
    assert Survivors({}, [], kills) == {};
    assert {} + {pid} == {pid};
  }

  /** A session file lost while its child runs is the case that fails: no pass will ever
      touch the child again, whatever is gone. */
  lemma LostSessionRunsOn(ls: seq<Listener>, pid: int, kills: Kills, w: Surroundings, again: Kills)
    requires Startable(Some(ls))
    ensures var s := After([SessionStep(Some(ls), kills)] + [StartStep(true, kills, Some(pid))] + [LoseStep]);
      s.live == {pid} && Watchdog(s, w, again) == s
  {
    var created, started := [SessionStep(Some(ls), kills)], [StartStep(true, kills, Some(pid))];
    assert created == [] + created;
    AfterAppend([], created[0]);
    AfterAppend(created, started[0]);
    AfterAppend(created + started, LoseStep);
    StartedOnce(ls, pid, kills);
    var s := After(created + started + [LoseStep]);
    assert IsLive(Children(s)[0], s.live) && Children(s)[0] in Children(s);
  }

  lemma AfterAppend(steps: seq<Step>, step: Step)
    ensures After(steps + [step]) == Do(After(steps), step)
  {
    assert (steps + [step])[..|steps|] == steps;
  }

  /** The manifest of a session can be started exactly when a LAN host was given and
      asked for. */
  lemma ManifestStartable(ls: seq<Listener>, lanHost: string, includeLan: bool)
    requires Answers(ls, Wanted(lanHost, includeLan)) && |ls| == |Wanted(lanHost, includeLan)|
    requires forall i :: 0 <= i < |ls| ==> 0 < ls[i].port <= 65535
    ensures Startable(Some(ls)) <==> includeLan && lanHost != []
  {
    PlanOfManifest(ls, lanHost, includeLan);
    ValidOnesValid(ls);
  }

  lemma {:induction false} ValidOnesValid(ls: seq<Listener>)
    ensures forall l <- ValidOnes(ls) :: ValidListener(l)
  {
    if ls != [] {
      ValidOnesValid(ls[..|ls| - 1]);
    }
  }
}
