/** The route cache that all handler threads share. A call reads the clock, looks
    the host up under the lock, computes without the lock, and stores under the
    lock again; between any two of these steps other threads may run. */
module RouteCache {
  import opened HostRouting
  import opened Options

  const CACHE_TTL: real := 300.0

  datatype Entry = Entry(at: real, decision: RouteDecision)

  type Cache = map<string, Entry>

  predicate Hit(cache: Cache, key: string, now: real) {
    key in cache && now - cache[key].at < CACHE_TTL
  }

  // ---- The code of one call ----

  class Shared {
    var cache: Cache

    // First critical section.
    method Lookup(key: string, now: real) returns (cached: Option<RouteDecision>)
      ensures cached == if Hit(cache, key, now) then Some(cache[key].decision) else None
    {
      if key in cache && now - cache[key].at < CACHE_TTL {
        return Some(cache[key].decision);
      }
      return None;
    }

    // Second critical section.
    method Insert(key: string, now: real, decision: RouteDecision)
      modifies this
      ensures cache == old(cache)[key := Entry(now, decision)]
    {
      cache := cache[key := Entry(now, decision)];
    }

    // A call that no other thread interrupts.
    method Route(host: string, now: real, cfg: Config, answer: Answer) returns (r: Option<RouteDecision>)
      modifies this
      ensures var key := Normalise(host);
        if key in old(cache) && now - old(cache)[key].at < 300.0 then
          r == Some(old(cache)[key].decision) && cache == old(cache)
        else
          && r == ChooseRoute(key, cfg, answer)
          && cache == if r.Some? then old(cache)[key := Entry(now, r.value)] else old(cache)
    {
      var key := Normalise(host);
      r := Lookup(key, now);
      if r.Some? {
        return;
      }
      r := ChooseRoute(key, cfg, answer);
      if r.Some? {
        Insert(key, now, r.value);
      }
    }
  }

  // ---- All calls together ----

  // What choose_route yields for a key and a DNS answer, under fixed networks and patterns.
  type Choice = (string, Answer) -> Option<RouteDecision>

  function ChoiceOf(cfg: Config): Choice {
    (key, answer) => ChooseRoute(key, cfg, answer)
  }

  datatype Thread =
    | Idle
    | Started(host: string, now: real)
    | Missed(host: string, now: real)
    | Computed(host: string, now: real, decision: RouteDecision)

  // A run of choose_route: for which key, by a call that started when, with what outcome.
  datatype Computation = Computation(key: string, start: real, answer: Answer, decision: RouteDecision)

  datatype Return = Return(host: string, now: real, decision: RouteDecision)

  // The computations and the results are history variables.
  datatype State = State(
    clock: real, cache: Cache, threads: map<nat, Thread>, log: seq<Computation>, results: seq<Return>)

  datatype Step =
    | Tick(elapsed: real)   // the wall clock may also be set back
    | Start(t: nat, host: string)
    | Look(t: nat)
    | Compute(t: nat, answer: Answer)
    | Store(t: nat)

  predicate Enabled(s: State, step: Step) {
    match step
    case Tick(_) => true
    case Start(t, _) => t !in s.threads || s.threads[t].Idle?
    case Look(t) => t in s.threads && s.threads[t].Started?
    case Compute(t, _) => t in s.threads && s.threads[t].Missed?
    case Store(t) => t in s.threads && s.threads[t].Computed?
  }

  function Do(s: State, step: Step, choice: Choice): State
    requires Enabled(s, step)
  {
    match step
    case Tick(elapsed) => s.(clock := s.clock + elapsed)
    case Start(t, host) => s.(threads := s.threads[t := Started(host, s.clock)])
    case Look(t) =>
      var Started(host, now) := s.threads[t];
      var key := Normalise(host);
      if Hit(s.cache, key, now) then
        s.(threads := s.threads[t := Idle], results := s.results + [Return(host, now, s.cache[key].decision)])
      else s.(threads := s.threads[t := Missed(host, now)])
    case Compute(t, answer) =>
      var Missed(host, now) := s.threads[t];
      var key := Normalise(host);
      var r := choice(key, answer);
      if r.None? then s.(threads := s.threads[t := Idle])
      else
        s.(threads := s.threads[t := Computed(host, now, r.value)],
           log := s.log + [Computation(key, now, answer, r.value)])
    case Store(t) =>
      var Computed(host, now, decision) := s.threads[t];
      s.(cache := s.cache[Normalise(host) := Entry(now, decision)],
         threads := s.threads[t := Idle],
         results := s.results + [Return(host, now, decision)])
  }

  function Init(): State {
    State(0.0, map[], map[], [], [])
  }

  ghost predicate IsRun(s: State, steps: seq<Step>, choice: Choice)
    decreases |steps|
  {
    steps != [] ==> Enabled(s, steps[0]) && IsRun(Do(s, steps[0], choice), steps[1..], choice)
  }

  ghost function After(s: State, steps: seq<Step>, choice: Choice): State
    requires IsRun(s, steps, choice)
    decreases |steps|
  {
    if steps == [] then s else After(Do(s, steps[0], choice), steps[1..], choice)
  }

  // ---- The invariant ----

  ghost predicate Logged(log: seq<Computation>, key: string, start: real, decision: RouteDecision) {
    exists c <- log :: c.key == key && c.start == start && c.decision == decision
  }

  // Some computation for the same host, begun less than the time to live before `now`.
  ghost predicate Fresh(log: seq<Computation>, r: Return) {
    exists c <- log ::
      c.key == Normalise(r.host) && c.decision == r.decision && r.now - c.start < CACHE_TTL
  }

  ghost predicate CacheLogged(cache: Cache, log: seq<Computation>) {
    forall key <- cache :: Logged(log, key, cache[key].at, cache[key].decision)
  }

  ghost predicate ThreadLogged(t: Thread, log: seq<Computation>) {
    t.Computed? ==> Logged(log, Normalise(t.host), t.now, t.decision)
  }

  ghost predicate ThreadsLogged(threads: map<nat, Thread>, log: seq<Computation>) {
    forall t <- threads :: ThreadLogged(threads[t], log)
  }

  ghost predicate LogGenuine(log: seq<Computation>, choice: Choice) {
    forall c <- log :: choice(c.key, c.answer) == Some(c.decision)
  }

  ghost predicate ResultsFresh(results: seq<Return>, log: seq<Computation>) {
    forall r <- results :: Fresh(log, r)
  }

  ghost predicate Inv(s: State, choice: Choice) {
    && CacheLogged(s.cache, s.log) && ThreadsLogged(s.threads, s.log)
    && LogGenuine(s.log, choice) && ResultsFresh(s.results, s.log)
  }

  lemma LogGrows(s: State, c: Computation, choice: Choice)
    requires Inv(s, choice) && choice(c.key, c.answer) == Some(c.decision)
    ensures Inv(s.(log := s.log + [c]), choice)
    ensures Logged(s.log + [c], c.key, c.start, c.decision)
  {
    var log := s.log + [c];
    assert c in log;
    assert forall d <- s.log :: d in log;
    assert forall key, start, decision :: Logged(s.log, key, start, decision) ==> Logged(log, key, start, decision);
    assert forall r :: Fresh(s.log, r) ==> Fresh(log, r);
  }

  lemma ThreadMoves(s: State, t: nat, thread: Thread, choice: Choice)
    requires Inv(s, choice) && ThreadLogged(thread, s.log)
    ensures Inv(s.(threads := s.threads[t := thread]), choice)
  {
  }

  lemma LoggedIsFresh(log: seq<Computation>, r: Return, key: string, at: real)
    requires key == Normalise(r.host) && Logged(log, key, at, r.decision) && r.now - at < CACHE_TTL
    ensures Fresh(log, r)
  {
  }

  lemma ResultsGrow(results: seq<Return>, log: seq<Computation>, r: Return)
    requires ResultsFresh(results, log) && Fresh(log, r)
    ensures ResultsFresh(results + [r], log)
  {
  }

  lemma ResultFresh(s: State, r: Return, at: real, choice: Choice)
    requires Inv(s, choice)
    requires Logged(s.log, Normalise(r.host), at, r.decision) && r.now - at < CACHE_TTL
    ensures Inv(s.(results := s.results + [r]), choice)
  {
    LoggedIsFresh(s.log, r, Normalise(r.host), at);
    ResultsGrow(s.results, s.log, r);
  }

  lemma LookKeepsInv(s: State, t: nat, choice: Choice)
    requires Inv(s, choice) && Enabled(s, Look(t))
    ensures Inv(Do(s, Look(t), choice), choice)
  {
    var Started(host, now) := s.threads[t];
    var key := Normalise(host);
    if Hit(s.cache, key, now) {
      ThreadMoves(s, t, Idle, choice);
      var u := s.(threads := s.threads[t := Idle]);
      ResultFresh(u, Return(host, now, s.cache[key].decision), s.cache[key].at, choice);
    } else {
      ThreadMoves(s, t, Missed(host, now), choice);
    }
  }

  lemma ComputeKeepsInv(s: State, t: nat, answer: Answer, choice: Choice)
    requires Inv(s, choice) && Enabled(s, Compute(t, answer))
    ensures Inv(Do(s, Compute(t, answer), choice), choice)
  {
    var Missed(host, now) := s.threads[t];
    var r := choice(Normalise(host), answer);
    if r.Some? {
      var c := Computation(Normalise(host), now, answer, r.value);
      LogGrows(s, c, choice);
      ThreadMoves(s.(log := s.log + [c]), t, Computed(host, now, r.value), choice);
    } else {
      ThreadMoves(s, t, Idle, choice);
    }
  }

  lemma CacheStores(s: State, key: string, at: real, decision: RouteDecision, choice: Choice)
    requires Inv(s, choice) && Logged(s.log, key, at, decision)
    ensures Inv(s.(cache := s.cache[key := Entry(at, decision)]), choice)
  {
  }

  lemma StoreKeepsInv(s: State, t: nat, choice: Choice)
    requires Inv(s, choice) && Enabled(s, Store(t))
    ensures Inv(Do(s, Store(t), choice), choice)
  {
    var Computed(host, now, decision) := s.threads[t];
    var key := Normalise(host);
    assert ThreadLogged(s.threads[t], s.log);
    CacheStores(s, key, now, decision, choice);
    var u := s.(cache := s.cache[key := Entry(now, decision)]);
    ThreadMoves(u, t, Idle, choice);
    var v := u.(threads := u.threads[t := Idle]);
    ResultFresh(v, Return(host, now, decision), now, choice);
  }

  lemma StepKeepsInv(s: State, step: Step, choice: Choice)
    requires Inv(s, choice) && Enabled(s, step)
    ensures Inv(Do(s, step, choice), choice)
  {
    match step
    case Tick(_) =>
    case Start(t, host) => ThreadMoves(s, t, Started(host, s.clock), choice);
    case Look(t) => LookKeepsInv(s, t, choice);
    case Compute(t, answer) => ComputeKeepsInv(s, t, answer, choice);
    case Store(t) => StoreKeepsInv(s, t, choice);
  }

  lemma {:induction false} RunKeepsInv(s: State, steps: seq<Step>, choice: Choice)
    requires Inv(s, choice) && IsRun(s, steps, choice)
    ensures Inv(After(s, steps, choice), choice)
    decreases |steps|
  {
    if steps != [] {
      StepKeepsInv(s, steps[0], choice);
      RunKeepsInv(Do(s, steps[0], choice), steps[1..], choice);
    }
  }

  /** However the threads interleave, every decision a call returns was computed by
      choose_route for the same host, by a call that began less than CACHE_TTL before
      this call's clock reading. */
  lemma EveryReturnIsFresh(steps: seq<Step>, cfg: Config, s: State, r: Return)
    requires IsRun(Init(), steps, ChoiceOf(cfg)) && s == After(Init(), steps, ChoiceOf(cfg)) && r in s.results
    ensures exists c <- s.log ::
      && c.key == Normalise(r.host) && r.now - c.start < 300.0 && c.decision == r.decision
      && ChooseRoute(r.host, cfg, c.answer) == Some(c.decision)
  {
    RunKeepsInv(Init(), steps, ChoiceOf(cfg));
    assert Fresh(s.log, r);
    var c :| c in s.log
      && c.key == Normalise(r.host) && c.decision == r.decision && r.now - c.start < CACHE_TTL;
    assert ChoiceOf(cfg)(c.key, c.answer) == Some(c.decision);
    ChooseRouteNormalises(r.host, cfg, c.answer);
  }

  // ---- Entries are used ----

  // What a look returns: an entry of the key that is younger than 300 seconds.
  lemma LookUses(s: State, u: nat, host: string, now: real, key: string, choice: Choice, after: State)
    requires Enabled(s, Look(u)) && s.threads[u] == Started(host, now) && key == Normalise(host)
    requires after == Do(s, Look(u), choice)
    ensures after.log == s.log && after.cache == s.cache
    ensures if key in s.cache && now - s.cache[key].at < 300.0 then
        after.threads[u] == Idle && after.results == s.results + [Return(host, now, s.cache[key].decision)]
      else after.threads[u] == Missed(host, now) && after.results == s.results
  {
  }

  lemma StoreEnters(s: State, t: nat, host: string, now: real, decision: RouteDecision, choice: Choice, stored: State)
    requires Enabled(s, Store(t)) && s.threads[t] == Computed(host, now, decision)
    requires stored == Do(s, Store(t), choice)
    ensures Normalise(host) in stored.cache && stored.cache[Normalise(host)] == Entry(now, decision)
    ensures stored.log == s.log && stored.clock == s.clock
    ensures stored.results == s.results + [Return(host, now, decision)]
    ensures forall u :: u != t ==> (u in stored.threads <==> u in s.threads)
    ensures forall u :: u != t && u in s.threads ==> stored.threads[u] == s.threads[u]
  {
  }

  /** A call that starts less than 300 seconds after the one that stored an entry of its
      key returns what that one did, without a computation; a later one computes. */
  lemma EntryUsedExactlyWhen(
      s: State, t: nat, host: string, now: real, decision: RouteDecision, u: nat, other: string, choice: Choice,
      stored: State, started: State, after: State)
    requires Enabled(s, Store(t)) && s.threads[t] == Computed(host, now, decision)
    requires u != t && (u !in s.threads || s.threads[u].Idle?) && Normalise(other) == Normalise(host)
    requires stored == Do(s, Store(t), choice)
    requires Enabled(stored, Start(u, other)) && started == Do(stored, Start(u, other), choice)
    requires Enabled(started, Look(u)) && after == Do(started, Look(u), choice)
    ensures after.log == s.log
    ensures if s.clock - now < 300.0 then
        && after.threads[u] == Idle
        && after.results == s.results + [Return(host, now, decision)] + [Return(other, s.clock, decision)]
      else after.threads[u] == Missed(other, s.clock) && after.results == s.results + [Return(host, now, decision)]
  {
    StoreEnters(s, t, host, now, decision, choice, stored);
    LookUses(started, u, other, s.clock, Normalise(host), choice, after);
  }

  // ---- Resolvers ----

  /** A change of DNS answers is seen everywhere once the old entries have expired: if
      every call that starts at `since` or later asks the new resolver, a call that
      starts a full time to live later returns the new choice. */
  lemma DnsChangeTakesEffect(
      steps: seq<Step>, cfg: Config, s: State, since: real, resolver: string -> Answer, r: Return)
    requires IsRun(Init(), steps, ChoiceOf(cfg)) && s == After(Init(), steps, ChoiceOf(cfg)) && r in s.results
    requires forall c <- s.log :: since <= c.start ==> c.answer == resolver(c.key)
    requires since + 300.0 <= r.now
    ensures ChooseRoute(r.host, cfg, resolver(Normalise(r.host))) == Some(r.decision)
  {
    EveryReturnIsFresh(steps, cfg, s, r);
  }

  /** With a resolver that never changes its answers the cache is invisible: every
      call returns what choose_route gives for its host. */
  lemma CacheIsTransparent(steps: seq<Step>, cfg: Config, s: State, resolver: string -> Answer, r: Return)
    requires IsRun(Init(), steps, ChoiceOf(cfg)) && s == After(Init(), steps, ChoiceOf(cfg)) && r in s.results
    requires forall c <- s.log :: c.answer == resolver(c.key)
    ensures ChooseRoute(r.host, cfg, resolver(Normalise(r.host))) == Some(r.decision)
  {
    EveryReturnIsFresh(steps, cfg, s, r);
  }
}
