/** LAN gateway mode: the nftables table rendered for one client, what it does to
    packets, and the protocol that loads and removes it. */
module LanGateway {
  import opened Ipv4
  import opened Options

  const RESERVED: set<nat> := {22, 4077, 18180, 18181, 12345, 1053}
  const DNS_PORT := 1053
  const SPLIT_PORT := 12345

  // ---- Packets and rules ----

  datatype Proto = Tcp | Udp | OtherProto

  datatype Source = V4(ip: Address) | V6

  datatype Packet = Packet(iif: string, oif: string, src: Source, proto: Proto, dport: nat)

  datatype Match =
    | Iif(name: string) | Oif(name: string) | Src(ip: Address)
    | Dport(proto: Proto, port: nat) | TcpDportIn(ports: set<nat>) | L4(proto: Proto)
  {
    predicate Holds(p: Packet) {
      match this
      case Iif(name) => p.iif == name
      case Oif(name) => p.oif == name
      case Src(ip) => p.src == V4(ip)
      case Dport(proto, port) => p.proto == proto && p.dport == port
      case TcpDportIn(ports) => p.proto.Tcp? && p.dport in ports
      case L4(proto) => p.proto == proto
    }
  }

  datatype Verdict = Accept | Redirect(port: nat) | Masquerade | Reject

  datatype Rule = Rule(tests: seq<Match>, verdict: Verdict)
  {
    predicate Fires(p: Packet) {
      forall m <- tests :: m.Holds(p)
    }
  }

  datatype Table = Table(prerouting: seq<Rule>, postrouting: seq<Rule>, forwardGuard: seq<Rule>)

  // The first rule that fires decides; the chains' policy is accept.
  function Eval(rules: seq<Rule>, p: Packet): Verdict {
    if rules == [] then Accept
    else if rules[0].Fires(p) then rules[0].verdict
    else Eval(rules[1..], p)
  }

  function Render(client: Address, iface: string): Table {
    Table(
      [Rule([Iif(iface), Src(client), Dport(Udp, 53)], Redirect(DNS_PORT)),
       Rule([Iif(iface), Src(client), Dport(Tcp, 53)], Redirect(DNS_PORT)),
       Rule([Iif(iface), Src(client), TcpDportIn(RESERVED)], Accept),
       Rule([Iif(iface), Src(client), L4(Tcp)], Redirect(SPLIT_PORT))],
      [Rule([Src(client), Oif(iface)], Masquerade)],
      [Rule([Iif(iface), Src(client), Dport(Udp, 443)], Reject)])
  }

  lemma FiresThree(a: Match, b: Match, c: Match, v: Verdict, p: Packet)
    ensures Rule([a, b, c], v).Fires(p) <==> a.Holds(p) && b.Holds(p) && c.Holds(p)
  {
    var r := Rule([a, b, c], v);
    assert a in r.tests && b in r.tests && c in r.tests;
  }

  lemma FiresTwo(a: Match, b: Match, v: Verdict, p: Packet)
    ensures Rule([a, b], v).Fires(p) <==> a.Holds(p) && b.Holds(p)
  {
    var r := Rule([a, b], v);
    assert a in r.tests && b in r.tests;
  }

  lemma EvalFour(a: Rule, b: Rule, c: Rule, d: Rule, p: Packet)
    ensures Eval([a, b, c, d], p) ==
      if a.Fires(p) then a.verdict else if b.Fires(p) then b.verdict
      else if c.Fires(p) then c.verdict else if d.Fires(p) then d.verdict else Accept
  {
    assert [a, b, c, d][1..] == [b, c, d] && [b, c, d][1..] == [c, d] && [c, d][1..] == [d];
    assert Eval([d], p) == if d.Fires(p) then d.verdict else Accept;
    assert Eval([c, d], p) == if c.Fires(p) then c.verdict else Eval([d], p);
    assert Eval([b, c, d], p) == if b.Fires(p) then b.verdict else Eval([c, d], p);
  }

  // The ports of the host's own services.
  predicate OwnService(port: nat) {
    port == 22 || port == 4077 || port == 18180 || port == 18181 || port == 12345 || port == 1053
  }

  lemma ReservedPorts(port: nat)
    ensures port in RESERVED <==> OwnService(port)
  {
  }

  lemma PreroutingMeans(client: Address, iface: string, p: Packet, inbound: bool)
    requires inbound <==> p.iif == iface && p.src == V4(client)
    ensures Eval(Render(client, iface).prerouting, p) ==
      if !inbound then Accept
      else if p.proto.Udp? then (if p.dport == 53 then Redirect(1053) else Accept)
      else if !p.proto.Tcp? then Accept
      else if p.dport == 53 then Redirect(1053)
      else if p.dport in RESERVED then Accept
      else Redirect(12345)
  {
    var t := Render(client, iface);
    FiresThree(Iif(iface), Src(client), Dport(Udp, 53), Redirect(DNS_PORT), p);
    FiresThree(Iif(iface), Src(client), Dport(Tcp, 53), Redirect(DNS_PORT), p);
    FiresThree(Iif(iface), Src(client), TcpDportIn(RESERVED), Accept, p);
    FiresThree(Iif(iface), Src(client), L4(Tcp), Redirect(SPLIT_PORT), p);
    EvalFour(t.prerouting[0], t.prerouting[1], t.prerouting[2], t.prerouting[3], p);
  }

  /** What the rendered table does to every packet: the client's DNS goes to the split
      resolver, its TCP to the reserved ports is let through and all its other TCP goes
      to the split proxy; its forwarded UDP 443 is rejected; everything else, and every
      packet of any other source, passes. */
  lemma RenderedTableMeans(client: Address, iface: string, p: Packet)
    ensures var t := Render(client, iface);
      var inbound := p.iif == iface && p.src == V4(client);
      && Eval(t.prerouting, p) == (
           if !inbound then Accept
           else if p.proto.Udp? then (if p.dport == 53 then Redirect(1053) else Accept)
           else if !p.proto.Tcp? then Accept
           else if p.dport == 53 then Redirect(1053)
           else if OwnService(p.dport) then Accept
           else Redirect(12345))
      && Eval(t.postrouting, p) == (if p.src == V4(client) && p.oif == iface then Masquerade else Accept)
      && Eval(t.forwardGuard, p) == (if inbound && p.proto.Udp? && p.dport == 443 then Reject else Accept)
  {
    PreroutingMeans(client, iface, p, p.iif == iface && p.src == V4(client));
    ReservedPorts(p.dport);
    FiresThree(Iif(iface), Src(client), Dport(Udp, 443), Reject, p);
    FiresTwo(Src(client), Oif(iface), Masquerade, p);
  }

  // ---- Plans ----

  // What the plan reads from the system; None where the source finds an empty text.
  datatype Network = Network(
    server: Option<Address>, iface: string, gateway: Option<Address>, cidr: Option<Net>, client: Option<Address>)

  predicate IsInterfaceName(s: string) {
    s != [] && forall i :: 0 <= i < |s| ==>
      'A' <= s[i] <= 'Z' || 'a' <= s[i] <= 'z' || '0' <= s[i] <= '9'
      || s[i] == '_' || s[i] == '.' || s[i] == ':' || s[i] == '-'
  }

  predicate PlanOk(n: Network) {
    && n.server.Some? && IsInterfaceName(n.iface) && n.gateway.Some? && n.cidr.Some? && n.client.Some?
    && Contains(n.cidr.value, n.client.value)
    && n.client != n.server && n.client != n.gateway
  }

  /** The client of an ok plan is an address of the LAN's block, other than the host's and
      the router's; the block is the one that the plan's base lies in. */
  lemma PlanOkExactlyWhen(n: Network, net: Net, client: Address)
    requires n.cidr == Some(net) && n.client == Some(client) && net.bits <= 32
    ensures PlanOk(n) <==>
      && InBlock(net, client)
      && n.server.Some? && n.server.value != client && n.gateway.Some? && n.gateway.value != client
      && IsInterfaceName(n.iface)
  {
    ContainsExactly(net, client);
  }

  /** Nothing may be missing, and no interface name can leave its quotes in the table. */
  lemma PlanNeedsAll(n: Network)
    requires
      || n.server.None? || n.gateway.None? || n.cidr.None? || n.client.None? || n.iface == ""
      || '"' in n.iface || ' ' in n.iface || '\n' in n.iface || '{' in n.iface || '}' in n.iface || ';' in n.iface
    ensures !PlanOk(n)
  {
  }

  // ---- The protocol ----

  datatype Marker = Disabled | Enabled(client: Address, iface: string)

  datatype State = State(table: Option<Table>, marker: Marker)

  // What `nft delete table` does. Any failure whose text holds "No such file" is taken
  // for a missing table; any other, a timeout among them, may come after the table is gone.
  datatype Deletion = Deleted | NoSuchFile | DeleteFailed(gone: bool)
  {
    predicate Removes() {
      Deleted? || (DeleteFailed? && gone)
    }
  }

  // Loading a file is all or nothing, but a reported failure may come after it.
  datatype Loading = Loaded | LoadFailed(done: bool)
  {
    predicate Loads() {
      Loaded? || done
    }
  }

  // The outcomes of the commands one call runs.
  datatype Env = Env(root: bool, checkOk: bool, sysctlOk: bool, deletion: Deletion, loading: Loading)
  {
    // What an apply reports as success.
    predicate Reported() {
      sysctlOk && loading.Loaded? && !deletion.DeleteFailed?
    }
  }

  // Loading into a table that is still there appends to its chains.
  function Load(table: Option<Table>, t: Table): Table {
    match table
    case None => t
    case Some(u) =>
      Table(u.prerouting + t.prerouting, u.postrouting + t.postrouting, u.forwardGuard + t.forwardGuard)
  }

  function Delete(table: Option<Table>, env: Env): Option<Table> {
    if env.deletion.Removes() then None else table
  }

  // The guards before nft is allowed to change anything.
  predicate Admitted(n: Network, env: Env) {
    env.root && PlanOk(n) && env.checkOk
  }

  function Apply(s: State, n: Network, env: Env): State {
    if !Admitted(n, env) then s
    else
      var client := n.client.value;
      var left := Delete(s.table, env);
      var table := if env.loading.Loads() then Some(Load(left, Render(client, n.iface))) else left;
      State(table, if env.Reported() then Enabled(client, n.iface) else s.marker)
  }

  function Remove(s: State, env: Env): State {
    if !env.root then s
    else State(Delete(s.table, env), if env.deletion.DeleteFailed? then s.marker else Disabled)
  }

  datatype Step = ApplyStep(network: Network, env: Env) | RemoveStep(env: Env)

  function Do(s: State, step: Step): State {
    match step
    case ApplyStep(n, env) => Apply(s, n, env)
    case RemoveStep(env) => Remove(s, env)
  }

  function Init(): State {
    State(None, Disabled)
  }

  // The state after the first calls of a run.
  function After(steps: seq<Step>): State {
    if steps == [] then Init()
    else
      var n := |steps| - 1;
      Do(After(steps[..n]), steps[n])
  }

  class Controller {
    var table: Option<Table>     // what the kernel has loaded
    var marker: Marker           // lan_gateway_state.json

    method RootApply(n: Network, env: Env) returns (ok: bool)
      modifies this
      ensures State(table, marker) == Apply(old(State(table, marker)), n, env)
      ensures ok <==>
        && env.root && PlanOk(n) && env.checkOk
        && env.sysctlOk && env.loading.Loaded? && !env.deletion.DeleteFailed?
    {
      if !env.root || !PlanOk(n) || !env.checkOk {
        return false;
      }
      if env.deletion.Removes() {
        table := None;
      }
      if env.loading.Loads() {
        table := Some(Load(table, Render(n.client.value, n.iface)));
      }
      ok := env.sysctlOk && env.loading.Loaded?;
      if !env.deletion.Deleted? && !env.deletion.NoSuchFile? {
        ok := false;
      }
      if ok {
        marker := Enabled(n.client.value, n.iface);
      }
    }

    method RootRemove(env: Env) returns (ok: bool)
      modifies this
      ensures State(table, marker) == Remove(old(State(table, marker)), env)
      ensures ok <==> env.root && !env.deletion.DeleteFailed?
    {
      if !env.root {
        return false;
      }
      if env.deletion.Removes() {
        table := None;
      }
      ok := env.deletion.Deleted? || env.deletion.NoSuchFile?;
      if ok {
        marker := Disabled;
      }
    }
  }

  // ---- Whom any run can touch ----

  ghost predicate Selected(steps: seq<Step>, client: Address) {
    exists i :: 0 <= i < |steps| && steps[i].ApplyStep?
      && PlanOk(steps[i].network) && steps[i].network.client == Some(client)
  }

  // A rule that only fires for a selected client.
  ghost predicate RuleBound(r: Rule, steps: seq<Step>) {
    exists client :: Src(client) in r.tests && Selected(steps, client)
  }

  ghost predicate RulesBound(rules: seq<Rule>, steps: seq<Step>) {
    forall i :: 0 <= i < |rules| ==> RuleBound(rules[i], steps)
  }

  ghost predicate TableBound(t: Table, steps: seq<Step>) {
    RulesBound(t.prerouting, steps) && RulesBound(t.postrouting, steps) && RulesBound(t.forwardGuard, steps)
  }

  lemma RulesBoundGrow(rules: seq<Rule>, steps: seq<Step>, step: Step)
    requires RulesBound(rules, steps)
    ensures RulesBound(rules, steps + [step])
  {
    forall i | 0 <= i < |rules|
      ensures RuleBound(rules[i], steps + [step])
    {
      var client :| Src(client) in rules[i].tests && Selected(steps, client);
      var j :| 0 <= j < |steps| && steps[j].ApplyStep?
        && PlanOk(steps[j].network) && steps[j].network.client == Some(client);
      assert (steps + [step])[j] == steps[j];
      assert Selected(steps + [step], client);
    }
  }

  lemma RenderBound(client: Address, iface: string, steps: seq<Step>)
    requires Selected(steps, client)
    ensures TableBound(Render(client, iface), steps)
  {
    var t := Render(client, iface);
    assert forall i :: 0 <= i < 4 ==> t.prerouting[i].tests[1] == Src(client);
    assert t.postrouting[0].tests[0] == Src(client) && t.forwardGuard[0].tests[1] == Src(client);
  }

  lemma {:induction false} RunTableBound(steps: seq<Step>)
    ensures After(steps).table.Some? ==> TableBound(After(steps).table.value, steps)
  {
    if steps != [] {
      var n := |steps| - 1;
      var before, step := After(steps[..n]), steps[n];
      RunTableBound(steps[..n]);
      assert steps == steps[..n] + [step];
      if before.table.Some? {
        var t := before.table.value;
        RulesBoundGrow(t.prerouting, steps[..n], step);
        RulesBoundGrow(t.postrouting, steps[..n], step);
        RulesBoundGrow(t.forwardGuard, steps[..n], step);
      }
      if step.ApplyStep? && Admitted(step.network, step.env) {
        assert Selected(steps, step.network.client.value);
        RenderBound(step.network.client.value, step.network.iface, steps);
      }
    }
  }

  lemma {:induction false} BoundRulesPass(rules: seq<Rule>, steps: seq<Step>, p: Packet)
    requires RulesBound(rules, steps)
    requires p.src.V4? ==> !Selected(steps, p.src.ip)
    ensures Eval(rules, p) == Accept
  {
    if rules != [] {
      var client :| Src(client) in rules[0].tests && Selected(steps, client);
      assert !Src(client).Holds(p);
      assert RulesBound(rules[1..], steps);
      BoundRulesPass(rules[1..], steps, p);
    }
  }

  /** Whatever fails along the way, even deletions that leave old rules behind, a run
      never touches a packet whose source was not the client of an ok plan. */
  lemma OthersUntouched(steps: seq<Step>, p: Packet)
    requires p.src.V4? ==> !Selected(steps, p.src.ip)
    requires After(steps).table.Some?
    ensures var t := After(steps).table.value;
      Eval(t.prerouting, p) == Eval(t.postrouting, p) == Eval(t.forwardGuard, p) == Accept
  {
    RunTableBound(steps);
    var t := After(steps).table.value;
    BoundRulesPass(t.prerouting, steps, p);
    BoundRulesPass(t.postrouting, steps, p);
    BoundRulesPass(t.forwardGuard, steps, p);
  }

  // The address lies in the block around the plan's base, and is neither end of the link.
  ghost predicate InLan(n: Network, ip: Address) {
    && n.client == Some(ip) && n.server.Some? && n.server.value != ip && n.gateway.Some? && n.gateway.value != ip
    && n.cidr.Some? && (n.cidr.value.bits <= 32 ==> InBlock(n.cidr.value, ip))
  }

  lemma SelectedInLan(n: Network, ip: Address)
    requires PlanOk(n) && n.client == Some(ip)
    ensures InLan(n, ip)
  {
    if n.cidr.value.bits <= 32 {
      ContainsExactly(n.cidr.value, ip);
    }
  }

  /** So a packet that a run touches comes from the LAN of some apply, from its client. */
  lemma TouchedInLan(steps: seq<Step>, p: Packet) returns (i: nat)
    requires After(steps).table.Some?
    requires var t := After(steps).table.value;
      Eval(t.prerouting, p) != Accept || Eval(t.postrouting, p) != Accept || Eval(t.forwardGuard, p) != Accept
    ensures i < |steps| && steps[i].ApplyStep? && p.src.V4? && InLan(steps[i].network, p.src.ip)
  {
    if !p.src.V4? || !Selected(steps, p.src.ip) {
      OthersUntouched(steps, p);
      assert false;
    }
    i :| 0 <= i < |steps| && steps[i].ApplyStep?
      && PlanOk(steps[i].network) && steps[i].network.client == Some(p.src.ip);
    SelectedInLan(steps[i].network, p.src.ip);
  }

  /** In particular never the host's own packets nor the router's. */
  lemma HostAndRouterUntouched(steps: seq<Step>, host: Address, router: Address, p: Packet)
    requires forall i :: 0 <= i < |steps| && steps[i].ApplyStep? ==>
      steps[i].network.server == Some(host) && steps[i].network.gateway == Some(router)
    requires p.src == V4(host) || p.src == V4(router)
    requires After(steps).table.Some?
    ensures var t := After(steps).table.value;
      Eval(t.prerouting, p) == Eval(t.postrouting, p) == Eval(t.forwardGuard, p) == Accept
  {
    OthersUntouched(steps, p);
  }

  // ---- What is loaded ----

  // The deletion does what nft does on a working system: it deletes a table that is
  // there, and only misses one that is not.
  predicate Works(table: Option<Table>, deletion: Deletion) {
    deletion == if table.Some? then Deleted else NoSuchFile
  }

  // All deletions of the run work.
  ghost predicate DeletesWork(steps: seq<Step>) {
    steps == []
    || var n := |steps| - 1;
       DeletesWork(steps[..n]) && Works(After(steps[..n]).table, steps[n].env.deletion)
  }

  // Gets as far as deleting the table.
  predicate Changes(step: Step) {
    match step
    case ApplyStep(n, env) => Admitted(n, env)
    case RemoveStep(env) => env.root
  }

  function Loads(step: Step): Option<Table>
    requires Changes(step)
  {
    match step
    case ApplyStep(n, env) => if env.loading.Loads() then Some(Render(n.client.value, n.iface)) else None
    case RemoveStep(_) => None
  }

  // Call i is the last that changes anything; -1 when none does.
  ghost predicate LastChange(steps: seq<Step>, i: int) {
    && -1 <= i < |steps| && (i >= 0 ==> Changes(steps[i]))
    && forall j :: i < j < |steps| ==> !Changes(steps[j])
  }

  /** If deletions work, what is loaded is what the last call that got as far as deleting
      the table loaded: the rendering of its plan, or nothing when it was a removal or its
      load failed. Without such a call nothing is loaded. */
  lemma {:induction false} LoadedIsLastChange(steps: seq<Step>, i: int)
    requires DeletesWork(steps) && LastChange(steps, i)
    ensures After(steps).table == if i < 0 then None else Loads(steps[i])
  {
    if steps != [] && i < |steps| - 1 {
      assert !Changes(steps[|steps| - 1]);
      LoadedIsLastChange(steps[..|steps| - 1], i);
    }
  }

  // The marker says what is loaded.
  ghost predicate Agrees(s: State) {
    match s.marker
    case Disabled => s.table.None?
    case Enabled(client, iface) => s.table == Some(Render(client, iface))
  }

  lemma RenderInjective(c: Address, i: string, d: Address, j: string)
    requires Render(c, i) == Render(d, j)
    ensures c == d && i == j
  {
    var a, b := Render(c, i).postrouting[0], Render(d, j).postrouting[0];
    assert a.tests[0] == b.tests[0] && a.tests[1] == b.tests[1];
  }

  // A table loaded twice is no rendering.
  lemma DoubledIsNoRendering(t: Table, c: Address, i: string, d: Address, j: string)
    requires t == Load(Some(Render(d, j)), Render(c, i))
    ensures forall e, k :: t != Render(e, k)
  {
    assert |t.postrouting| == 2;
  }

  // A marked table that is still there when the new one is loaded.
  predicate Left(s: State, env: Env) {
    s.marker.Enabled? && !env.deletion.Removes()
  }

  /** When marker and table still agree after an apply, from a state in which they do,
      over every outcome of its commands: nothing was changed; or nothing was loaded, and
      either an old table is left or nothing was marked; or it was loaded on an empty
      slate, and either everything was reported well or the same client was marked. */
  lemma ApplyAgreesExactlyWhen(s: State, n: Network, env: Env)
    requires Agrees(s)
    ensures Agrees(Apply(s, n, env)) <==>
      || !Admitted(n, env)
      || (!env.loading.Loads() && (Left(s, env) || s.marker.Disabled?))
      || (env.loading.Loads() && !Left(s, env)
          && (env.Reported() || s.marker == Enabled(n.client.value, n.iface)))
  {
    if Admitted(n, env) && env.loading.Loads() {
      var c, i := n.client.value, n.iface;
      if Left(s, env) {
        DoubledIsNoRendering(Apply(s, n, env).table.value, c, i, s.marker.client, s.marker.iface);
      } else if s.marker.Enabled? && Render(s.marker.client, s.marker.iface) == Render(c, i) {
        RenderInjective(s.marker.client, s.marker.iface, c, i);
      }
    }
  }

  /** And after a remove: exactly when it was refused, truly found no table, deleted it
      and said so, or failed without effect. A "No such file" of another origin, such as
      nft itself missing, unmarks a table that stays loaded. */
  lemma RemoveAgreesExactlyWhen(s: State, env: Env)
    requires Agrees(s)
    ensures Agrees(Remove(s, env)) <==>
      !env.root || s.marker.Disabled? || env.deletion.Deleted? || env.deletion == DeleteFailed(false)
  {
  }

  /** A working remove leaves no table and no mark; one that is refused or fails without
      effect, and an apply whose check fails, change nothing. */
  lemma RemoveAndCheck(s: State, n: Network, env: Env)
    ensures env.root && Works(s.table, env.deletion) ==> Remove(s, env) == Init()
    ensures !env.root || env.deletion == DeleteFailed(false) ==> Remove(s, env) == s
    ensures !env.checkOk ==> Apply(s, n, env) == s
  {
  }
}
