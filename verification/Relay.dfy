/** The two byte relays: the LAN bridge with its map of paired sockets, and the
    proxies' tunnel. What select, recv and sendall do is given by a schedule. */
module Relay {

  type Bytes = seq<bv8>

  datatype Side = Client | Upstream
  {
    function Peer(): Side {
      if Client? then Upstream else Client
    }
  }

  // recv returns bytes (none at the end of the stream) or fails.
  datatype Recv = Data(bytes: Bytes) | RecvError

  // sendall on a non-blocking socket sends everything, or a prefix and then fails.
  datatype Send = SendsAll | FailsAfter(sent: nat)

  // One readiness event, with what its recv and its sendall will do.
  datatype Ready = Ready(source: Side, recv: Recv, send: Send)

  datatype Outcome = Running | Ended | SendFailed

  // A byte string for each side.
  datatype Both = Both(client: Bytes, upstream: Bytes)
  {
    function Of(side: Side): Bytes {
      if side.Client? then client else upstream
    }

    function Add(side: Side, bytes: Bytes): Both {
      if side.Client? then Both(client + bytes, upstream) else Both(client, upstream + bytes)
    }
  }

  // Bytes read from each side and bytes delivered to each side, so far.
  datatype Flow = Flow(read: Both, delivered: Both, outcome: Outcome)

  function Start(): Flow {
    Flow(Both([], []), Both([], []), Running)
  }

  function Sent(bytes: Bytes, send: Send): Bytes {
    if send.FailsAfter? && send.sent < |bytes| then bytes[..send.sent] else bytes
  }

  // ---- What an event does ----

  predicate Ends(r: Ready) {
    r.recv.RecvError? || r.recv.bytes == []
  }

  function Handle(f: Flow, r: Ready): Flow {
    if !f.outcome.Running? then f
    else if Ends(r) then f.(outcome := Ended)
    else
      var side, bytes := r.source, r.recv.bytes;
      Flow(f.read.Add(side, bytes),
           f.delivered.Add(side.Peer(), Sent(bytes, r.send)),
           if r.send.FailsAfter? then SendFailed else Running)
  }

  function HandleAll(f: Flow, events: seq<Ready>): Flow {
    if events == [] then f
    else
      var n := |events| - 1;
      Handle(HandleAll(f, events[..n]), events[n])
  }

  // ---- The bridge ----

  const PAIRED: map<Side, Side> := map[Client := Upstream, Upstream := Client]

  // lan_tcp_bridge.relay once the upstream connection stands.
  class Bridge {
    var flow: Flow
    var sockets: map<Side, Side>
    var registered: set<Side>
    var closed: set<Side>

    ghost predicate Open()
      reads this
    {
      sockets == PAIRED && registered == {Client, Upstream} && closed == {}
    }

    ghost predicate Shut()
      reads this
    {
      sockets == map[] && registered == {} && closed == {Client, Upstream}
    }

    constructor ()
      ensures Open() && flow == Start()
    {
      flow := Start();
      sockets := PAIRED;
      registered := {Client, Upstream};
      closed := {};
    }

    // Unregister, forget and close a socket and its peer.
    method CloseBoth(source: Side)
      requires Open()
      modifies this
      ensures Shut() && flow == old(flow)
    {
      for i := 0 to 2
        invariant flow == old(flow)
        invariant i == 0 ==> Open()
        invariant i == 1 ==>
          sockets == map[source.Peer() := source] && registered == {source.Peer()} && closed == {source}
        invariant i == 2 ==> Shut()
      {
        var sock := if i == 0 then source else source.Peer();
        if sock in sockets {
          registered := registered - {sock};
          sockets := sockets - {sock};
          closed := closed + {sock};
        }
      }
    }

    // One pass over what select reported.
    method ServeRound(round: seq<Ready>)
      requires Open() && flow.outcome.Running?
      modifies this
      ensures flow == HandleAll(old(flow), round)
      ensures if flow.outcome.Ended? then Shut() else Open()
    {
      for i := 0 to |round|
        invariant Open() && flow.outcome.Running?
        invariant flow == HandleAll(old(flow), round[..i])
      {
        var source := round[i].source;
        assert source == Client || source == Upstream;
        var target := sockets[source];
        assert round[..i + 1][..i] == round[..i];
        if Ends(round[i]) {
          CloseBoth(source);
          flow := flow.(outcome := Ended);
          StopsAt(old(flow), round, i + 1);
          break;
        }
        var data := round[i].recv.bytes;
        flow := flow.(read := flow.read.Add(source, data),
                      delivered := flow.delivered.Add(target, Sent(data, round[i].send)));
        if round[i].send.FailsAfter? {
          flow := flow.(outcome := SendFailed);
          StopsAt(old(flow), round, i + 1);
          break;
        }
      }
      assert round[..|round|] == round;
    }

    // The whole relay, for as long as the schedule lasts. `heads` is the map of sockets at
    // each outer-loop head: the two-element involution, or empty. Whenever the relay
    // stops, both sockets are closed and unregistered.
    method Run(rounds: seq<seq<Ready>>) returns (ghost heads: seq<map<Side, Side>>)
      requires Open() && flow == Start()
      modifies this
      ensures flow == HandleAll(Start(), Flatten(rounds))
      ensures if flow.outcome.Running? then Open() else registered == {} && closed == {Client, Upstream}
      ensures 1 <= |heads| <= |rounds| + 1 && heads[0] == PAIRED
      ensures forall k :: 0 <= k < |heads| ==> heads[k] == PAIRED || (heads[k] == map[] && k == |heads| - 1)
    {
      var i := 0;
      heads := [sockets];
      while sockets != map[] && i < |rounds|
        invariant i <= |rounds|
        invariant flow == HandleAll(Start(), Flatten(rounds[..i]))
        invariant (Open() && flow.outcome.Running?) || (Shut() && flow.outcome.Ended?)
        invariant |heads| == i + 1 && heads[i] == sockets && heads[0] == PAIRED
        invariant forall k :: 0 <= k < i ==> heads[k] == PAIRED
        decreases |rounds| - i
      {
        ServeRound(rounds[i]);
        assert rounds[..i + 1][..i] == rounds[..i];
        HandleAllConcat(Start(), Flatten(rounds[..i]), rounds[i]);
        i := i + 1;
        if flow.outcome.SendFailed? {
          break;
        }
        heads := heads + [sockets];
      }
      assert rounds[..|rounds|] == rounds && Client in PAIRED;
      if !flow.outcome.Running? {
        FlattenSplit(rounds, i);
        HandleAllConcat(Start(), Flatten(rounds[..i]), Flatten(rounds[i..]));
        StoppedStays(flow, Flatten(rounds[i..]));
        // The finally clause: whatever is still in the map.
        registered := registered - sockets.Keys;
        closed := closed + sockets.Keys;
      }
    }
  }

  function Flatten(rounds: seq<seq<Ready>>): seq<Ready> {
    if rounds == [] then []
    else
      var n := |rounds| - 1;
      Flatten(rounds[..n]) + rounds[n]
  }

  lemma {:induction false} FlattenSplit(rounds: seq<seq<Ready>>, i: nat)
    requires i <= |rounds|
    ensures Flatten(rounds) == Flatten(rounds[..i]) + Flatten(rounds[i..])
    decreases |rounds|
  {
    if i == |rounds| {
      assert rounds[..i] == rounds;
    } else {
      var n := |rounds| - 1;
      FlattenSplit(rounds[..n], i);
      assert rounds[..n][..i] == rounds[..i] && rounds[..n][i..] == rounds[i..][..n - i];
    }
  }

  lemma {:induction false} HandleAllConcat(f: Flow, xs: seq<Ready>, ys: seq<Ready>)
    ensures HandleAll(f, xs + ys) == HandleAll(HandleAll(f, xs), ys)
    decreases |ys|
  {
    if ys == [] {
      assert xs + ys == xs;
    } else {
      var n := |ys| - 1;
      HandleAllConcat(f, xs, ys[..n]);
      assert (xs + ys)[..|xs| + n] == xs + ys[..n];
    }
  }

  lemma {:induction false} StoppedStays(f: Flow, events: seq<Ready>)
    requires !f.outcome.Running?
    ensures HandleAll(f, events) == f
    decreases |events|
  {
    if events != [] {
      StoppedStays(f, events[..|events| - 1]);
    }
  }

  lemma StopsAt(f: Flow, events: seq<Ready>, i: nat)
    requires i <= |events| && !HandleAll(f, events[..i]).outcome.Running?
    ensures HandleAll(f, events) == HandleAll(f, events[..i])
  {
    assert events == events[..i] + events[i..];
    HandleAllConcat(f, events[..i], events[i..]);
    StoppedStays(HandleAll(f, events[..i]), events[i..]);
  }

  // ---- The tunnel ----

  // What one select call reports to the tunnel; an empty report is its timeout.
  datatype Report = Report(readable: seq<Ready>, errored: bool)

  // The events the tunnel gets to see before it returns.
  function Visible(reports: seq<Report>): seq<Ready> {
    if reports == [] || reports[0].errored || reports[0].readable == [] then []
    else reports[0].readable + Visible(reports[1..])
  }

  method Tunnel(reports: seq<Report>) returns (flow: Flow)
    ensures flow == HandleAll(Start(), Visible(reports))
  {
    flow := Start();
    for i := 0 to |reports|
      invariant flow.outcome.Running?
      invariant HandleAll(flow, Visible(reports[i..])) == HandleAll(Start(), Visible(reports))
    {
      assert reports[i..][1..] == reports[i + 1..];
      if reports[i].errored || reports[i].readable == [] {
        return;
      }
      var readable := reports[i].readable;
      ghost var before := flow;
      HandleAllConcat(before, readable, Visible(reports[i + 1..]));
      for j := 0 to |readable|
        invariant flow.outcome.Running?
        invariant flow == HandleAll(before, readable[..j])
      {
        assert readable[..j + 1][..j] == readable[..j];
        flow := Handle(flow, readable[j]);
        if !flow.outcome.Running? {
          StopsAt(before, readable, j + 1);
          StoppedStays(flow, Visible(reports[i + 1..]));
          return;
        }
      }
      assert readable[..|readable|] == readable;
    }
  }

  // ---- What is delivered ----

  // The data one side sends in a run that does not stop.
  function DataFrom(side: Side, events: seq<Ready>): Bytes {
    if events == [] then []
    else
      var n := |events| - 1;
      DataFrom(side, events[..n])
      + if events[n].source == side && events[n].recv.Data? then events[n].recv.bytes else []
  }

  ghost predicate IsPrefix(a: Bytes, b: Bytes) {
    |a| <= |b| && a == b[..|a|]
  }

  // All that was read has been delivered, except that a failed send may have lost the
  // end of the last chunk, in one direction only.
  ghost predicate Faithful(f: Flow)
  {
    && (forall side: Side :: IsPrefix(f.delivered.Of(side.Peer()), f.read.Of(side)))
    && (if f.outcome.SendFailed? then exists side: Side :: f.delivered.Of(side.Peer()) == f.read.Of(side)
        else forall side: Side :: f.delivered.Of(side.Peer()) == f.read.Of(side))
  }

  /** For every schedule of readiness, end of stream, errors and partial sends. */
  lemma {:induction false} DeliveryFaithful(events: seq<Ready>)
    ensures Faithful(HandleAll(Start(), events))
  {
    if events != [] {
      var n := |events| - 1;
      DeliveryFaithful(events[..n]);
      HandleFaithful(HandleAll(Start(), events[..n]), events[n]);
    }
  }

  lemma HandleFaithful(f: Flow, r: Ready)
    requires Faithful(f)
    ensures Faithful(Handle(f, r))
  {
    var g := Handle(f, r);
    if f.outcome.Running? && !Ends(r) {
      var side := r.source;
      assert side.Peer().Peer() == side;
      assert f.delivered.Of(side.Peer().Peer()) == f.read.Of(side.Peer());
      assert IsPrefix(g.delivered.Of(side.Peer()), g.read.Of(side));
      forall x: Side
        ensures IsPrefix(g.delivered.Of(x.Peer()), g.read.Of(x))
      {
        assert x == side || x == side.Peer();
      }
      assert g.delivered.Of(side.Peer().Peer()) == g.read.Of(side.Peer());
    }
  }

  /** While the relay runs, each direction delivers exactly the data of its own events,
      in order: how the two directions interleave makes no difference. */
  lemma {:induction false} DirectionsIndependent(events: seq<Ready>, side: Side)
    requires HandleAll(Start(), events).outcome.Running?
    ensures HandleAll(Start(), events).delivered.Of(side.Peer()) == DataFrom(side, events)
    ensures HandleAll(Start(), events).read.Of(side) == DataFrom(side, events)
  {
    if events != [] {
      var n := |events| - 1;
      DirectionsIndependent(events[..n], side);
    }
  }

  // ---- When a relay stops ----

  // At least one byte arrives and all of it is sent on.
  predicate Passes(r: Ready) {
    r.recv.Data? && |r.recv.bytes| >= 1 && r.send.SendsAll?
  }

  /** A relay runs exactly as long as every event delivers at least one byte and sends
      all of it on. */
  lemma {:induction false} RunsExactlyWhen(events: seq<Ready>)
    ensures HandleAll(Start(), events).outcome.Running? <==>
      forall i :: 0 <= i < |events| ==>
        events[i].recv.Data? && |events[i].recv.bytes| >= 1 && events[i].send.SendsAll?
  {
    if events != [] {
      var n := |events| - 1;
      RunsExactlyWhen(events[..n]);
      assert forall i :: 0 <= i < n ==> events[..n][i] == events[i];
    }
  }

  /** The first event that does not pass stops it for good: at the end of a stream and at
      a failed recv with everything read before delivered, at a failed send with a prefix
      of the last chunk more. */
  lemma StopsExactlyAt(events: seq<Ready>, i: nat, side: Side, f: Flow)
    requires i < |events| && !Passes(events[i]) && forall j :: 0 <= j < i ==> Passes(events[j])
    requires f == HandleAll(Start(), events)
    ensures events[i].recv.RecvError? || events[i].recv.bytes == [] ==>
      f.outcome.Ended? && f.read.Of(side) == f.delivered.Of(side.Peer()) == DataFrom(side, events[..i])
    ensures events[i].recv.Data? && |events[i].recv.bytes| >= 1 ==>
      && f.outcome.SendFailed?
      && f.read.Of(side) == DataFrom(side, events[..i]) +
           (if side == events[i].source then events[i].recv.bytes else [])
      && f.delivered.Of(side.Peer()) == DataFrom(side, events[..i]) +
           (if side != events[i].source then []
            else if events[i].send.sent < |events[i].recv.bytes| then events[i].recv.bytes[..events[i].send.sent]
            else events[i].recv.bytes)
  {
    var before, r := events[..i], events[i];
    forall j | 0 <= j < i
      ensures before[j].recv.Data? && |before[j].recv.bytes| >= 1 && before[j].send.SendsAll?
    {
      assert Passes(events[j]);
    }
    RunsExactlyWhen(before);
    DirectionsIndependent(before, side);
    assert events[..i + 1][..i] == before;
    assert HandleAll(Start(), events[..i + 1]) == Handle(HandleAll(Start(), before), r);
    StopsAt(Start(), events, i + 1);
  }

  /** The tunnel sees the reports up to the first error or timeout. */
  lemma {:induction false} SeesUpTo(reports: seq<Report>, k: nat)
    requires k <= |reports| && (k < |reports| ==> reports[k].errored || reports[k].readable == [])
    requires forall i :: 0 <= i < k ==> !reports[i].errored && reports[i].readable != []
    ensures Visible(reports) == Flatten(Readables(reports[..k]))
  {
    if k > 0 {
      SeesUpTo(reports[1..], k - 1);
      var rounds := Readables(reports[..k]);
      assert reports[1..][..k - 1] == reports[..k][1..];
      assert Readables(reports[1..][..k - 1]) == rounds[1..];
      FlattenSplit(rounds, 1);
      assert Flatten(rounds[..1]) == rounds[0];
    }
  }

  function Readables(reports: seq<Report>): (rounds: seq<seq<Ready>>)
    ensures |rounds| == |reports| && forall i :: 0 <= i < |rounds| ==> rounds[i] == reports[i].readable
  {
    seq(|reports|, i requires 0 <= i < |reports| => reports[i].readable)
  }
}
