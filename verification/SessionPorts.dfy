/** Port allocation, the session manifest, and the runtime plan made from it. */
module SessionPorts {

  const TRIES := 64

  function Loopback(): string {
    "127.0.0.1"
  }

  datatype ListenerId = Dashboard | Unlock | HttpProxy | SocksProxy | ControllerApi | LanProxy

  datatype Listener = Listener(id: ListenerId, host: string, port: int)

  datatype Allocation = Allocated(listener: Listener) | Exhausted(id: ListenerId)

  // The answers of the port allocator, call by call.
  type Draws = (string, nat) -> int

  class PortRegistry {
    const draws: Draws
    var calls: nat
    var taken: set<(string, int)>

    constructor (draws: Draws)
      ensures this.draws == draws && calls == 0 && taken == {}
    {
      this.draws := draws;
      calls := 0;
      taken := {};
    }

    // The first of up to 64 answers that is free; it fails only when none of them is.
    method Allocate(id: ListenerId, host: string) returns (r: Allocation)
      modifies this
      ensures match r
        case Allocated(l) =>
          && l.id == id && l.host == host && (host, l.port) !in old(taken)
          && taken == old(taken) + {(host, l.port)}
          && old(calls) < calls <= old(calls) + 64 && l.port == draws(host, calls - 1)
          && forall i :: old(calls) <= i < calls - 1 ==> (host, draws(host, i)) in old(taken)
        case Exhausted(x) =>
          && x == id && taken == old(taken) && calls == old(calls) + 64
          && forall i :: old(calls) <= i < calls ==> (host, draws(host, i)) in old(taken)
    {
      for i := 0 to TRIES
        invariant calls == old(calls) + i && taken == old(taken)
        invariant forall k :: old(calls) <= k < calls ==> (host, draws(host, k)) in taken
      {
        var port := draws(host, calls);
        calls := calls + 1;
        if (host, port) !in taken {
          taken := taken + {(host, port)};
          return Allocated(Listener(id, host, port));
        }
      }
      return Exhausted(id);
    }
  }

  datatype Manifest = Manifest(listeners: seq<Listener>) | Failed(id: ListenerId)

  // The default listeners, all on loopback.
  function Defaults(): seq<(ListenerId, string)> {
    [(Dashboard, Loopback()), (Unlock, Loopback()), (HttpProxy, Loopback()), (SocksProxy, Loopback()),
     (ControllerApi, Loopback())]
  }

  // What a manifest asks for: the default listeners, then the LAN one.
  function Wanted(lanHost: string, includeLan: bool): seq<(ListenerId, string)> {
    if includeLan && lanHost != [] then Defaults() + [(LanProxy, lanHost)] else Defaults()
  }

  ghost predicate Answers(listeners: seq<Listener>, wanted: seq<(ListenerId, string)>) {
    && |listeners| <= |wanted|
    && forall i :: 0 <= i < |listeners| ==> listeners[i].id == wanted[i].0 && listeners[i].host == wanted[i].1
  }

  ghost predicate DistinctSockets(listeners: seq<Listener>) {
    forall i, j :: 0 <= i < j < |listeners| ==>
      (listeners[i].host, listeners[i].port) != (listeners[j].host, listeners[j].port)
  }

  // Some stretch of 64 answers for this host was taken throughout.
  ghost predicate Starved(draws: Draws, host: string, from: int, used: set<(string, int)>) {
    forall i: nat :: from <= i < from + 64 ==> (host, draws(host, i)) in used
  }

  /** Either some listener finds 64 answers in a row taken, or the manifest has exactly
      the listeners wanted, on pairwise distinct sockets that were free before, with
      ports the allocator gave. */
  method BuildSessionManifest(registry: PortRegistry, lanHost: string, includeLan: bool) returns (m: Manifest)
    modifies registry
    ensures match m
      case Manifest(ls) =>
        && Answers(ls, Wanted(lanHost, includeLan)) && |ls| == |Wanted(lanHost, includeLan)|
        && DistinctSockets(ls)
        && (forall l <- ls :: (l.host, l.port) !in old(registry.taken))
        && (forall l <- ls :: exists k :: l.port == registry.draws(l.host, k))
      case Failed(id) =>
        exists i :: 0 <= i < |Wanted(lanHost, includeLan)| && Wanted(lanHost, includeLan)[i].0 == id
          && Starved(registry.draws, Wanted(lanHost, includeLan)[i].1, registry.calls - 64, registry.taken)
  {
    var wanted := Wanted(lanHost, includeLan);
    var listeners: seq<Listener> := [];
    for i := 0 to |wanted|
      invariant |listeners| == i && Answers(listeners, wanted) && DistinctSockets(listeners)
      invariant old(registry.taken) <= registry.taken
      invariant forall l <- listeners :: (l.host, l.port) in registry.taken - old(registry.taken)
      invariant forall l <- listeners :: exists k :: l.port == registry.draws(l.host, k)
    {
      var r := registry.Allocate(wanted[i].0, wanted[i].1);
      if r.Exhausted? {
        assert Starved(registry.draws, wanted[i].1, registry.calls - 64, registry.taken);
        return Failed(wanted[i].0);
      }
      assert forall k :: 0 <= k < i ==> listeners[k] in listeners;
      listeners := listeners + [r.listener];
    }
    return Manifest(listeners);
  }

  // ---- The runtime plan ----

  predicate ValidListener(l: Listener) {
    l.host != [] && 0 < l.port <= 65535
  }

  datatype Plan = Plan(ok: bool, children: seq<Listener>, errors: seq<ListenerId>)

  function ValidOnes(listeners: seq<Listener>): seq<Listener> {
    if listeners == [] then []
    else
      var n := |listeners| - 1;
      ValidOnes(listeners[..n]) + if ValidListener(listeners[n]) then [listeners[n]] else []
  }

  method BuildRuntimePlan(listeners: seq<Listener>) returns (p: Plan)
    ensures p.children == ValidOnes(listeners)
    ensures p.ok <==> forall l <- listeners :: l.host != "" && 1 <= l.port <= 65535
    ensures |p.children| + |p.errors| == |listeners|
  {
    var children: seq<Listener>, errors: seq<ListenerId> := [], [];
    for i := 0 to |listeners|
      invariant children == ValidOnes(listeners[..i])
      invariant |children| + |errors| == i
      invariant errors == [] <==> forall k :: 0 <= k < i ==> ValidListener(listeners[k])
    {
      assert listeners[..i + 1][..i] == listeners[..i];
      if ValidListener(listeners[i]) {
        children := children + [listeners[i]];
      } else {
        errors := errors + [listeners[i].id];
      }
    }
    assert listeners[..|listeners|] == listeners;
    return Plan(errors == [], children, errors);
  }

  lemma {:induction false} AllValid(listeners: seq<Listener>)
    requires forall i :: 0 <= i < |listeners| ==> ValidListener(listeners[i])
    ensures ValidOnes(listeners) == listeners
  {
    if listeners != [] {
      var n := |listeners| - 1;
      AllValid(listeners[..n]);
      assert listeners == listeners[..n] + [listeners[n]];
    }
  }

  /** The children of a plan are the listeners with a host and a port from 1 to 65535. */
  lemma {:induction false} ChildrenExactly(listeners: seq<Listener>, l: Listener)
    ensures l in ValidOnes(listeners) <==> l in listeners && l.host != "" && 1 <= l.port <= 65535
  {
    if listeners != [] {
      var n := |listeners| - 1;
      ChildrenExactly(listeners[..n], l);
      assert listeners == listeners[..n] + [listeners[n]];
    }
  }

  /** The listeners of a manifest, in order. */
  lemma ManifestListeners(ls: seq<Listener>, lanHost: string, includeLan: bool)
    requires Answers(ls, Wanted(lanHost, includeLan)) && |ls| == |Wanted(lanHost, includeLan)|
    ensures |ls| == if includeLan && lanHost != "" then 6 else 5
    ensures ls[0].id == Dashboard && ls[1].id == Unlock && ls[2].id == HttpProxy && ls[3].id == SocksProxy
    ensures ls[4].id == ControllerApi && forall i :: 0 <= i < 5 ==> ls[i].host == "127.0.0.1"
    ensures |ls| == 6 ==> ls[5].id == LanProxy && ls[5].host == lanHost
  {
    var wanted := Wanted(lanHost, includeLan);
    assert forall i :: 0 <= i < 5 ==> wanted[i] == Defaults()[i];
    assert ls[0].id == wanted[0].0 && ls[1].id == wanted[1].0 && ls[2].id == wanted[2].0;
    assert ls[3].id == wanted[3].0 && ls[4].id == wanted[4].0;
  }

  lemma WantedHosts(lanHost: string, includeLan: bool, i: nat)
    requires i < |Wanted(lanHost, includeLan)|
    ensures Wanted(lanHost, includeLan)[i].1 != []
    ensures Wanted(lanHost, includeLan)[i].0 == LanProxy <==> i == 5
  {
  }

  /** With an allocator that answers ports in 1..65535, the plan of a manifest has one
      child per listener, and a LAN proxy child exactly when a LAN host was given and
      asked for. */
  lemma {:induction false} PlanOfManifest(ls: seq<Listener>, lanHost: string, includeLan: bool)
    requires Answers(ls, Wanted(lanHost, includeLan)) && |ls| == |Wanted(lanHost, includeLan)|
    requires forall i :: 0 <= i < |ls| ==> 0 < ls[i].port <= 65535
    ensures ValidOnes(ls) == ls
    ensures (exists l <- ValidOnes(ls) :: l.id == LanProxy) <==> includeLan && lanHost != []
  {
    forall i: nat | i < |ls|
      ensures ValidListener(ls[i]) && (ls[i].id == LanProxy <==> i == 5)
    {
      WantedHosts(lanHost, includeLan, i);
    }
    AllValid(ls);
    if includeLan && lanHost != [] {
      assert ls[5] in ls;
    }
  }
}
