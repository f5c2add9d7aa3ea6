/** The split proxy's choice between a direct connection and the upstream proxy. */
module HostRouting {
  import opened Ipv4
  import opened Options
  import opened Strings
  import opened Text

  // ---- Host names ----

  // str.lower on ISO-8859-1 text, which is what request heads are decoded to.
  function LowerChar(c: char): (d: char)
    ensures d == '.' <==> c == '.'
  {
    if 'A' <= c <= 'Z' || ('\U{c0}' <= c <= '\U{de}' && c != '\U{d7}') then c + '\U{20}' else c
  }

  function LowerLatin1(s: string): (r: string)
    ensures |r| == |s| && forall i :: 0 <= i < |s| ==> r[i] == LowerChar(s[i])
  {
    seq(|s|, i requires 0 <= i < |s| => LowerChar(s[i]))
  }

  predicate IsDot(c: char) {
    c == '.'
  }

  // host.lower().strip(".")
  function Normalise(host: string): string {
    Strip(LowerLatin1(host), IsDot)
  }

  lemma LowerCharFixed(c: char)
    ensures LowerChar(LowerChar(c)) == LowerChar(c)
  {
  }

  lemma LowerFixed(s: string)
    requires forall i :: 0 <= i < |s| ==> LowerChar(s[i]) == s[i]
    ensures LowerLatin1(s) == s
  {
  }

  lemma NormaliseIdempotent(host: string)
    ensures Normalise(Normalise(host)) == Normalise(host)
  {
    var left := StripStart(LowerLatin1(host), IsDot);
    var n := StripEnd(left, IsDot);
    forall i | 0 <= i < |n|
      ensures LowerChar(n[i]) == n[i]
    {
      assert n[i] == left[i] == LowerChar(host[|host| - |left| + i]);
      LowerCharFixed(host[|host| - |left| + i]);
    }
    LowerFixed(n);
    StripAgain(LowerLatin1(host), IsDot);
  }

  predicate EndsWith(s: string, t: string) {
    |t| <= |s| && s[|s| - |t|..] == t
  }

  predicate Matches(h: string, pattern: string) {
    h == pattern || EndsWith(h, "." + pattern)
  }

  predicate HostMatches(host: string, patterns: seq<string>) {
    exists p <- patterns :: Matches(Normalise(host), p)
  }

  function Labels(s: string): seq<string> {
    Split(s, '.')
  }

  predicate SuffixOf(xs: seq<string>, ys: seq<string>) {
    |xs| <= |ys| && ys[|ys| - |xs|..] == xs
  }

  lemma SuffixLabels(h: string, p: string)
    requires EndsWith(h, "." + p)
    ensures SuffixOf(Labels(p), Labels(h))
  {
    var a := h[..|h| - |p| - 1];
    assert h == a + ['.'] + p;
    SplitConcat(a, p, '.');
  }

  lemma LabelsSuffix(h: string, p: string, xs: seq<string>)
    requires Labels(h) == xs + Labels(p) && xs != []
    ensures EndsWith(h, "." + p)
  {
    JoinSplit(h, '.');
    JoinSplit(p, '.');
    JoinConcat(xs, Labels(p), '.');
    var front := Join(xs, '.');
    assert h == front + ("." + p);
    assert h[|front|..] == "." + p;
  }

  /** A pattern matches exactly when its labels are the last labels of the host. */
  lemma MatchesByLabels(h: string, p: string)
    ensures Matches(h, p) <==> SuffixOf(Labels(p), Labels(h))
  {
    if EndsWith(h, "." + p) {
      SuffixLabels(h, p);
    }
    if SuffixOf(Labels(p), Labels(h)) {
      var xs := Labels(h)[..|Labels(h)| - |Labels(p)|];
      assert Labels(h) == xs + Labels(p);
      if xs == [] {
        JoinSplit(h, '.');
        JoinSplit(p, '.');
      } else {
        LabelsSuffix(h, p, xs);
      }
    }
  }

  // ---- Addresses ----

  function PrivateNets(): seq<Net> {
    [
      Net(0x0000_0000, 8),  // 0.0.0.0/8
      Net(0x0a00_0000, 8),  // 10.0.0.0/8
      Net(0x6440_0000, 10), // 100.64.0.0/10
      Net(0x7f00_0000, 8),  // 127.0.0.0/8
      Net(0xa9fe_0000, 16), // 169.254.0.0/16
      Net(0xac10_0000, 12), // 172.16.0.0/12
      Net(0xc0a8_0000, 16), // 192.168.0.0/16
      Net(0xe000_0000, 4),  // 224.0.0.0/4
      Net(0xf000_0000, 4)   // 240.0.0.0/4
    ]
  }

  predicate InAny(ip: Address, nets: seq<Net>) {
    exists net <- nets :: Contains(net, ip)
  }

  datatype Mode = ViaProxy | ViaDirect

  datatype Reason =
    | ForceProxy | ForceDirect | PrivateIp | CnIp | ForeignIp | NonIpv4
    | DnsFailed(error: string) | DnsEmpty

  datatype RouteDecision = RouteDecision(mode: Mode, reason: Reason, ips: seq<string>)

  // What a text is to ipaddress.ip_address.
  datatype Literal = NotAnAddress | V4(ip: Address) | V6

  // The networks and patterns in force, and the reader of address texts.
  datatype Config = Config(
    private_: seq<Net>, cn: seq<Net>,
    forceDirect: seq<string>, forceProxy: seq<string>,
    read: string -> Literal)
  {
    predicate Direct(ip: Address) {
      InAny(ip, private_) || InAny(ip, cn)
    }

    function IpReason(ip: Address): Reason {
      if InAny(ip, private_) then PrivateIp else if InAny(ip, cn) then CnIp else ForeignIp
    }

    predicate DirectText(s: string) {
      read(s).V4? && Direct(read(s).ip)
    }

    predicate PrivateText(s: string) {
      read(s).V4? && InAny(read(s).ip, private_)
    }
  }

  function ReadAddress(s: string, isV6: string -> bool): Literal {
    var r := Parse(s);
    if r.Some? then V4(r.value) else if isV6(s) then V6 else NotAnAddress
  }

  // The program's own networks and reader; IPv6 literals are recognised by `isV6`.
  ghost predicate Configured(cfg: Config, isV6: string -> bool) {
    cfg.private_ == PrivateNets() && forall s :: cfg.read(s) == ReadAddress(s, isV6)
  }

  // The outcome of one DNS query.
  datatype Answer = Failed(error: string) | Addresses(ips: seq<string>)

  // Position of the first answer that is not an IPv4 address in a direct network.
  function FirstIndirect(ips: seq<string>, cfg: Config): (i: nat)
    ensures i <= |ips|
    ensures forall k :: 0 <= k < i ==> cfg.DirectText(ips[k])
    ensures i < |ips| ==> !cfg.DirectText(ips[i])
  {
    if ips == [] || !cfg.DirectText(ips[0]) then 0 else 1 + FirstIndirect(ips[1..], cfg)
  }

  predicate AllPrivate(ips: seq<string>, cfg: Config) {
    forall i :: 0 <= i < |ips| ==> cfg.PrivateText(ips[i])
  }

  predicate AllRead(ips: seq<string>, cfg: Config) {
    forall i :: 0 <= i < |ips| ==> !cfg.read(ips[i]).NotAnAddress?
  }

  function JudgeAnswers(ips: seq<string>, cfg: Config): Option<RouteDecision> {
    if !AllRead(ips, cfg) then None
    else
      var i := FirstIndirect(ips, cfg);
      if i < |ips| then Some(RouteDecision(ViaProxy, if cfg.read(ips[i]).V6? then NonIpv4 else ForeignIp, ips))
      else Some(RouteDecision(ViaDirect, if AllPrivate(ips, cfg) then PrivateIp else CnIp, ips))
  }

  function JudgeUnforced(h: string, cfg: Config, answer: Answer): Option<RouteDecision> {
    match cfg.read(h)
    case V6 => Some(RouteDecision(ViaProxy, NonIpv4, []))
    case V4(ip) =>
      // str(ip) is the literal itself: Ipv4.ParsedIsDotted.
      Some(RouteDecision(if cfg.Direct(ip) then ViaDirect else ViaProxy, cfg.IpReason(ip), [h]))
    case NotAnAddress =>
      match answer
      case Failed(error) => Some(RouteDecision(ViaProxy, DnsFailed(error), []))
      case Addresses(ips) =>
        if ips == [] then Some(RouteDecision(ViaProxy, DnsEmpty, [])) else JudgeAnswers(ips, cfg)
  }

  // None stands for the ValueError an unreadable answer raises.
  function ChooseRoute(host: string, cfg: Config, answer: Answer): Option<RouteDecision> {
    var h := Normalise(host);
    if HostMatches(h, cfg.forceProxy) then Some(RouteDecision(ViaProxy, ForceProxy, []))
    else if HostMatches(h, cfg.forceDirect) then Some(RouteDecision(ViaDirect, ForceDirect, []))
    else JudgeUnforced(h, cfg, answer)
  }

  lemma SameKeySameRoute(host: string, other: string, cfg: Config, answer: Answer)
    requires Normalise(host) == Normalise(other)
    ensures ChooseRoute(host, cfg, answer) == ChooseRoute(other, cfg, answer)
  {
  }

  lemma ChooseRouteNormalises(host: string, cfg: Config, answer: Answer)
    ensures ChooseRoute(Normalise(host), cfg, answer) == ChooseRoute(host, cfg, answer)
  {
    NormaliseIdempotent(host);
    SameKeySameRoute(Normalise(host), host, cfg, answer);
  }

  // The tail of choose_route: parse every answer, then walk the list.
  method JudgeAnswersLoop(ips: seq<string>, cfg: Config) returns (r: Option<RouteDecision>)
    requires ips != []
    ensures r == JudgeAnswers(ips, cfg)
  {
    for i := 0 to |ips|
      invariant forall k :: 0 <= k < i ==> !cfg.read(ips[k]).NotAnAddress?
    {
      if cfg.read(ips[i]).NotAnAddress? {
        return None;
      }
    }
    assert AllRead(ips, cfg);
    var allPrivate := true;
    for i := 0 to |ips|
      invariant forall k :: 0 <= k < i ==> cfg.DirectText(ips[k])
      invariant allPrivate <==> forall k :: 0 <= k < i ==> cfg.PrivateText(ips[k])
    {
      match cfg.read(ips[i])
      case NotAnAddress =>
        assert false;
      case V6 =>
        assert FirstIndirect(ips, cfg) == i;
        return Some(RouteDecision(ViaProxy, NonIpv4, ips));
      case V4(ip) =>
        var reason := cfg.IpReason(ip);
        if !cfg.Direct(ip) {
          assert FirstIndirect(ips, cfg) == i;
          return Some(RouteDecision(ViaProxy, reason, ips));
        }
        allPrivate := allPrivate && reason.PrivateIp?;
    }
    assert FirstIndirect(ips, cfg) == |ips|;
    return Some(RouteDecision(ViaDirect, if allPrivate then PrivateIp else CnIp, ips));
  }

  // ---- What the choice depends on ----

  // The address texts a host stands for: itself when it is a literal, else the answers.
  function AddressTexts(h: string, cfg: Config, answer: Answer): seq<string> {
    if !cfg.read(h).NotAnAddress? then [h]
    else if answer.Addresses? then answer.ips
    else []
  }

  ghost predicate AllDirect(ips: seq<string>, cfg: Config) {
    ips != [] && forall i :: 0 <= i < |ips| ==> cfg.DirectText(ips[i])
  }

  lemma UnforcedDirectExactlyWhen(h: string, cfg: Config, answer: Answer)
    requires JudgeUnforced(h, cfg, answer).Some?
    ensures JudgeUnforced(h, cfg, answer).value.mode.ViaDirect? <==> AllDirect(AddressTexts(h, cfg, answer), cfg)
  {
    var ips := AddressTexts(h, cfg, answer);
    if cfg.read(h).NotAnAddress? && ips != [] {
      assert FirstIndirect(ips, cfg) == |ips| <==> AllDirect(ips, cfg);
    } else if !cfg.read(h).NotAnAddress? {
      assert ips[0] == h;
    }
  }

  /** The route is direct exactly when no force-proxy pattern matches and either a
      force-direct pattern matches or the host's addresses are known and all lie in
      private or CN networks. */
  lemma DirectExactlyWhen(host: string, cfg: Config, answer: Answer)
    requires ChooseRoute(host, cfg, answer).Some?
    ensures ChooseRoute(host, cfg, answer).value.mode.ViaDirect? <==>
      && !HostMatches(host, cfg.forceProxy)
      && (HostMatches(host, cfg.forceDirect) || AllDirect(AddressTexts(Normalise(host), cfg, answer), cfg))
  {
    NormaliseIdempotent(host);
    var h := Normalise(host);
    if !HostMatches(h, cfg.forceProxy) && !HostMatches(h, cfg.forceDirect) {
      UnforcedDirectExactlyWhen(h, cfg, answer);
    }
  }

  lemma SameAnswersSameMode(h: string, cfg: Config, xs: seq<string>, ys: seq<string>)
    requires forall s :: s in xs <==> s in ys
    requires JudgeUnforced(h, cfg, Addresses(xs)).Some?
    ensures var r, q := JudgeUnforced(h, cfg, Addresses(xs)), JudgeUnforced(h, cfg, Addresses(ys));
            q.Some? && r.value.mode == q.value.mode
  {
    assert xs != [] ==> xs[0] in ys;
    assert ys != [] ==> ys[0] in xs;
    if cfg.read(h).NotAnAddress? && xs != [] {
      forall i | 0 <= i < |ys|
        ensures !cfg.read(ys[i]).NotAnAddress? && (AllDirect(xs, cfg) ==> cfg.DirectText(ys[i]))
      {
        assert ys[i] in xs;
      }
      forall i | 0 <= i < |xs|
        ensures AllDirect(ys, cfg) ==> cfg.DirectText(xs[i])
      {
        assert xs[i] in ys;
      }
      assert AllDirect(xs, cfg) <==> AllDirect(ys, cfg);
      UnforcedDirectExactlyWhen(h, cfg, Addresses(xs));
      UnforcedDirectExactlyWhen(h, cfg, Addresses(ys));
    }
  }

  /** Neither the order nor the repetition of DNS answers changes the mode. */
  lemma OrderAndRepeatsDoNotMatter(host: string, cfg: Config, xs: seq<string>, ys: seq<string>)
    requires forall s :: s in xs <==> s in ys
    requires ChooseRoute(host, cfg, Addresses(xs)).Some?
    ensures var r, q := ChooseRoute(host, cfg, Addresses(xs)), ChooseRoute(host, cfg, Addresses(ys));
            q.Some? && r.value.mode == q.value.mode
  {
    var h := Normalise(host);
    if !HostMatches(h, cfg.forceProxy) && !HostMatches(h, cfg.forceDirect) {
      SameAnswersSameMode(h, cfg, xs, ys);
    }
  }

  lemma WiderKeepsDirect(h: string, cfg: Config, wider: Config, answer: Answer)
    requires wider == cfg.(cn := wider.cn) && forall net <- cfg.cn :: net in wider.cn
    requires JudgeUnforced(h, cfg, answer).Some? && JudgeUnforced(h, cfg, answer).value.mode.ViaDirect?
    ensures JudgeUnforced(h, wider, answer).Some? && JudgeUnforced(h, wider, answer).value.mode.ViaDirect?
  {
    UnforcedDirectExactlyWhen(h, cfg, answer);
    var ips := AddressTexts(h, cfg, answer);
    assert forall ip: Address :: cfg.Direct(ip) ==> wider.Direct(ip);
    assert AllDirect(ips, wider);
    assert JudgeUnforced(h, wider, answer).Some?;
    UnforcedDirectExactlyWhen(h, wider, answer);
  }

  /** More CN networks never turn a direct route into a proxied one. */
  lemma MoreNetworksKeepDirect(host: string, cfg: Config, wider: Config, answer: Answer)
    requires wider == cfg.(cn := wider.cn) && forall net <- cfg.cn :: net in wider.cn
    requires ChooseRoute(host, cfg, answer).Some? && ChooseRoute(host, cfg, answer).value.mode.ViaDirect?
    ensures ChooseRoute(host, wider, answer).Some? && ChooseRoute(host, wider, answer).value.mode.ViaDirect?
  {
    var h := Normalise(host);
    if !HostMatches(h, cfg.forceProxy) && !HostMatches(h, cfg.forceDirect) {
      WiderKeepsDirect(h, cfg, wider, answer);
    }
  }

  // ---- The program's own networks ----

  lemma ListedNet(i: nat, ip: Address, nets: seq<Net>)
    requires i < |nets| && Contains(nets[i], ip)
    ensures InAny(ip, nets)
  {
  }

  lemma InNine(ip: Address, nets: seq<Net>)
    requires |nets| == 9
    ensures InAny(ip, nets) <==>
      || Contains(nets[0], ip) || Contains(nets[1], ip) || Contains(nets[2], ip)
      || Contains(nets[3], ip) || Contains(nets[4], ip) || Contains(nets[5], ip)
      || Contains(nets[6], ip) || Contains(nets[7], ip) || Contains(nets[8], ip)
  {
    if InAny(ip, nets) {
      var net :| net in nets && Contains(net, ip);
      var i: nat :| i < 9 && nets[i] == net;
    }
    if i: nat :| i < 9 && Contains(nets[i], ip) {
      ListedNet(i, ip, nets);
    }
  }

  lemma BlockOf(net: Net, n: Address, size: nat)
    requires net.bits <= 32 && size == Pow2(32 - net.bits) && net.base as int % size == 0
    ensures Contains(net, n) <==> net.base as int <= n as int < net.base as int + size
  {
    AlignedRange(net.base, net.bits, n);
  }

  // The blocks 0/8, 10/8, 100.64/10, 127/8, 169.254/16, 172.16/12, 192.168/16, 224/4, 240/4.
  predicate PrivateNumber(i: int) {
    || 0 <= i < 0x0100_0000
    || 0x0a00_0000 <= i < 0x0b00_0000
    || 0x6440_0000 <= i < 0x6480_0000
    || 0x7f00_0000 <= i < 0x8000_0000
    || 0xa9fe_0000 <= i < 0xa9ff_0000
    || 0xac10_0000 <= i < 0xac20_0000
    || 0xc0a8_0000 <= i < 0xc0a9_0000
    || 0xe000_0000 <= i < 0xf000_0000
    || 0xf000_0000 <= i < 0x1_0000_0000
  }

  /** Which addresses the private networks hold. */
  lemma PrivateExactlyWhen(n: Address, nets: seq<Net>)
    requires nets == PrivateNets()
    ensures InAny(n, nets) <==> PrivateNumber(n as int)
  {
    Powers();
    InNine(n, nets);
    BlockOf(nets[0], n, 0x100_0000);
    BlockOf(nets[1], n, 0x100_0000);
    BlockOf(nets[2], n, 0x40_0000);
    BlockOf(nets[3], n, 0x100_0000);
    BlockOf(nets[4], n, 0x1_0000);
    BlockOf(nets[5], n, 0x10_0000);
    BlockOf(nets[6], n, 0x1_0000);
    BlockOf(nets[7], n, 0x1000_0000);
    BlockOf(nets[8], n, 0x1000_0000);
  }

  // ---- Address literals ----

  // Nothing for lower() to change.
  ghost predicate Plain(s: string) {
    forall i :: 0 <= i < |s| ==> IsDigit(s[i]) || s[i] == '.'
  }

  lemma PlainConcat(a: string, b: string)
    requires Plain(a) && Plain(b)
    ensures Plain(a + b)
  {
  }

  lemma OctetPlain(n: nat)
    requires n < 256
    ensures Plain(OctetText(n)) && OctetText(n)[0] != '.' && OctetText(n)[|OctetText(n)| - 1] != '.'
  {
    assert forall c <- OctetText(n) :: IsDigit(c);
    assert OctetText(n)[0] in OctetText(n);
  }

  lemma DottedPlain(a: nat, b: nat, c: nat, d: nat)
    requires a < 256 && b < 256 && c < 256 && d < 256
    ensures var s := DottedOctets(a, b, c, d); s != [] && Plain(s) && s[0] != '.' && s[|s| - 1] != '.'
  {
    OctetPlain(a);
    OctetPlain(b);
    OctetPlain(c);
    OctetPlain(d);
    var t := OctetText(c) + ['.'] + OctetText(d);
    PlainConcat(OctetText(c) + ['.'], OctetText(d));
    PlainConcat(OctetText(b) + ['.'], t);
    PlainConcat(OctetText(a) + ['.'], OctetText(b) + ['.'] + t);
  }

  lemma PlainIsNormal(s: string)
    requires s != [] && Plain(s) && s[0] != '.' && s[|s| - 1] != '.'
    ensures Normalise(s) == s
  {
    forall i | 0 <= i < |s|
      ensures LowerChar(s[i]) == s[i]
    {
    }
    LowerFixed(s);
    StripFixes(s, IsDot);
  }

  lemma DottedIsNormal(n: Address)
    ensures Normalise(Dotted(n)) == Dotted(n)
  {
    var (a, b, c, d) := Octets(n);
    DottedPlain(a, b, c, d);
    PlainIsNormal(Dotted(n));
  }

  lemma ReadsDotted(n: Address, isV6: string -> bool)
    ensures ReadAddress(Dotted(n), isV6) == V4(n)
  {
    DottedRoundTrip(n);
  }

  lemma LiteralIsNormal(s: string)
    requires Parse(s).Some?
    ensures Normalise(s) == s
  {
    ParsedIsDotted(s);
    DottedIsNormal(Parse(s).value);
  }

  lemma ReadIsNormal(s: string, cfg: Config, isV6: string -> bool)
    requires Configured(cfg, isV6) && cfg.read(s).V4?
    ensures Normalise(s) == s
  {
    assert cfg.read(s) == ReadAddress(s, isV6);
    LiteralIsNormal(s);
  }

  lemma NoPattern(host: string, cfg: Config, answer: Answer)
    requires cfg.forceDirect == [] && cfg.forceProxy == []
    ensures ChooseRoute(host, cfg, answer) == JudgeUnforced(Normalise(host), cfg, answer)
  {
  }

  lemma LiteralJudged(s: string, n: Address, cfg: Config, answer: Answer, here: bool)
    requires cfg.read(s) == V4(n) && cfg.cn == [] && (here <==> InAny(n, cfg.private_))
    ensures JudgeUnforced(s, cfg, answer) ==
      Some(RouteDecision(if here then ViaDirect else ViaProxy, if here then PrivateIp else ForeignIp, [s]))
  {
  }

  lemma LiteralUnforced(s: string, n: Address, cfg: Config, answer: Answer, here: bool)
    requires Normalise(s) == s && cfg.read(s) == V4(n) && cfg.cn == []
    requires cfg.forceDirect == [] && cfg.forceProxy == []
    requires here <==> InAny(n, cfg.private_)
    ensures ChooseRoute(s, cfg, answer) ==
      Some(RouteDecision(if here then ViaDirect else ViaProxy, if here then PrivateIp else ForeignIp, [s]))
  {
    LiteralJudged(s, n, cfg, answer, here);
    NoPattern(s, cfg, answer);
  }

  /** A literal of a foreign address goes to the proxy, one of a private address direct,
      whatever the answers are. */
  lemma LiteralRoute(s: string, n: Address, cfg: Config, isV6: string -> bool, answer: Answer, here: bool)
    requires Configured(cfg, isV6) && cfg.read(s) == V4(n) && here == PrivateNumber(n as int)
    requires cfg.cn == [] && cfg.forceDirect == [] && cfg.forceProxy == []
    ensures ChooseRoute(s, cfg, answer) ==
      Some(RouteDecision(if here then ViaDirect else ViaProxy, if here then PrivateIp else ForeignIp, [s]))
  {
    ReadIsNormal(s, cfg, isV6);
    PrivateExactlyWhen(n, cfg.private_);
    LiteralUnforced(s, n, cfg, answer, here);
  }

  // ---- Names ----

  // No capitals, and nothing outside ASCII.
  ghost predicate IsLower(n: string) {
    IsAscii(n) && forall i :: 0 <= i < |n| ==> !('A' <= n[i] <= 'Z')
  }

  lemma VariantLowers(m: string, n: string)
    requires IsLower(n) && Cased(m, n)
    ensures LowerLatin1(m) == n
  {
  }

  lemma LowerConcat(a: string, b: string)
    ensures LowerLatin1(a + b) == LowerLatin1(a) + LowerLatin1(b)
  {
  }

  lemma DotsLower(dots: string)
    requires forall i :: 0 <= i < |dots| ==> dots[i] == '.'
    ensures LowerLatin1(dots) == dots
  {
  }

  /** Letter case and dots at the ends make no difference to a host. */
  lemma NormalForm(n: string, front: string, m: string, back: string)
    requires n != [] && n[0] != '.' && n[|n| - 1] != '.' && IsLower(n) && Cased(m, n)
    requires forall i :: 0 <= i < |front| ==> front[i] == '.'
    requires forall i :: 0 <= i < |back| ==> back[i] == '.'
    ensures Normalise(front + m + back) == n
  {
    VariantLowers(m, n);
    DotsLower(front);
    DotsLower(back);
    LowerConcat(front + m, back);
    LowerConcat(front, m);
    StripRuns(front, n, back, IsDot);
  }

  lemma AnyPattern(host: string, patterns: seq<string>)
    ensures HostMatches(host, patterns) <==>
      exists p <- patterns :: SuffixOf(Labels(p), Labels(Normalise(host)))
  {
    forall p <- patterns
      ensures Matches(Normalise(host), p) <==> SuffixOf(Labels(p), Labels(Normalise(host)))
    {
      MatchesByLabels(Normalise(host), p);
    }
  }

  /** A pattern whose labels end the host's decides alone: force-proxy before force-direct,
      and either before any address. */
  lemma ForcedRoute(host: string, p: string, cfg: Config, answer: Answer)
    requires SuffixOf(Labels(p), Labels(Normalise(host)))
    ensures p in cfg.forceProxy ==> ChooseRoute(host, cfg, answer) == Some(RouteDecision(ViaProxy, ForceProxy, []))
    ensures p in cfg.forceDirect && cfg.forceProxy == [] ==>
      ChooseRoute(host, cfg, answer) == Some(RouteDecision(ViaDirect, ForceDirect, []))
  {
    NormaliseIdempotent(host);
    AnyPattern(host, cfg.forceProxy);
    AnyPattern(host, cfg.forceDirect);
  }

  // The answers are the addresses in dotted form.
  ghost predicate Texts(ips: seq<string>, ns: seq<Address>) {
    |ips| == |ns| && forall i :: 0 <= i < |ns| ==> ips[i] == Dotted(ns[i])
  }

  lemma AnswerRead(s: string, n: Address, cfg: Config, isV6: string -> bool)
    requires Configured(cfg, isV6) && s == Dotted(n)
    ensures cfg.read(s) == V4(n)
    ensures cfg.PrivateText(s) <==> PrivateNumber(n as int)
    ensures cfg.DirectText(s) <==> PrivateNumber(n as int) || InAny(n, cfg.cn)
  {
    assert cfg.read(s) == ReadAddress(s, isV6);
    ReadsDotted(n, isV6);
    PrivateExactlyWhen(n, cfg.private_);
  }

  lemma JudgedBy(ips: seq<string>, cfg: Config, direct: bool, here: bool)
    requires forall i :: 0 <= i < |ips| ==> cfg.read(ips[i]).V4?
    requires direct <==> forall i :: 0 <= i < |ips| ==> cfg.DirectText(ips[i])
    requires here <==> forall i :: 0 <= i < |ips| ==> cfg.PrivateText(ips[i])
    ensures JudgeAnswers(ips, cfg) == Some(
      if direct then RouteDecision(ViaDirect, if here then PrivateIp else CnIp, ips)
      else RouteDecision(ViaProxy, ForeignIp, ips))
  {
  }

  lemma AnswersJudged(ips: seq<string>, ns: seq<Address>, cfg: Config, isV6: string -> bool, direct: bool, here: bool)
    requires Configured(cfg, isV6) && Texts(ips, ns) && ns != []
    requires direct <==> forall i :: 0 <= i < |ns| ==> PrivateNumber(ns[i] as int) || InAny(ns[i], cfg.cn)
    requires here <==> forall i :: 0 <= i < |ns| ==> PrivateNumber(ns[i] as int)
    ensures JudgeAnswers(ips, cfg) == Some(
      if direct then RouteDecision(ViaDirect, if here then PrivateIp else CnIp, ips)
      else RouteDecision(ViaProxy, ForeignIp, ips))
  {
    forall i | 0 <= i < |ips|
      ensures cfg.read(ips[i]).V4?
      ensures cfg.PrivateText(ips[i]) <==> PrivateNumber(ns[i] as int)
      ensures cfg.DirectText(ips[i]) <==> PrivateNumber(ns[i] as int) || InAny(ns[i], cfg.cn)
    {
      AnswerRead(ips[i], ns[i], cfg, isV6);
    }
    JudgedBy(ips, cfg, direct, here);
  }

  /** A name without a pattern goes where its addresses say, and to the proxy when it has
      none: direct exactly when each address is private or in a CN network. */
  lemma NameRoute(
      host: string, cfg: Config, isV6: string -> bool, error: string, ips: seq<string>, ns: seq<Address>,
      direct: bool, here: bool)
    requires Configured(cfg, isV6) && cfg.forceDirect == [] && cfg.forceProxy == []
    requires cfg.read(Normalise(host)).NotAnAddress? && Texts(ips, ns) && ns != []
    requires direct <==> forall i :: 0 <= i < |ns| ==> PrivateNumber(ns[i] as int) || InAny(ns[i], cfg.cn)
    requires here <==> forall i :: 0 <= i < |ns| ==> PrivateNumber(ns[i] as int)
    ensures ChooseRoute(host, cfg, Failed(error)) == Some(RouteDecision(ViaProxy, DnsFailed(error), []))
    ensures ChooseRoute(host, cfg, Addresses([])) == Some(RouteDecision(ViaProxy, DnsEmpty, []))
    ensures ChooseRoute(host, cfg, Addresses(ips)) == Some(
      if direct then RouteDecision(ViaDirect, if here then PrivateIp else CnIp, ips)
      else RouteDecision(ViaProxy, ForeignIp, ips))
  {
    NoPattern(host, cfg, Failed(error));
    NoPattern(host, cfg, Addresses([]));
    NoPattern(host, cfg, Addresses(ips));
    AnswersJudged(ips, ns, cfg, isV6, direct, here);
  }

  /** An IPv6 literal goes to the proxy, and an answer that is no address raises. */
  lemma OddRoute(host: string, cfg: Config, answer: Answer, ips: seq<string>, i: nat)
    requires cfg.forceDirect == [] && cfg.forceProxy == [] && i < |ips|
    ensures cfg.read(Normalise(host)).V6? ==>
      ChooseRoute(host, cfg, answer) == Some(RouteDecision(ViaProxy, NonIpv4, []))
    ensures cfg.read(Normalise(host)).NotAnAddress? && cfg.read(ips[i]).NotAnAddress? ==>
      ChooseRoute(host, cfg, Addresses(ips)) == None
  {
    NoPattern(host, cfg, answer);
    NoPattern(host, cfg, Addresses(ips));
  }

  /** Of the answers the first indirect one decides: an IPv6 address is reported as that. */
  lemma FirstIndirectDecides(host: string, cfg: Config, ips: seq<string>, i: nat)
    requires cfg.forceDirect == [] && cfg.forceProxy == [] && cfg.read(Normalise(host)).NotAnAddress?
    requires i < |ips| && !cfg.DirectText(ips[i]) && forall k :: 0 <= k < i ==> cfg.DirectText(ips[k])
    requires forall k :: 0 <= k < |ips| ==> !cfg.read(ips[k]).NotAnAddress?
    ensures ChooseRoute(host, cfg, Addresses(ips)) ==
      Some(RouteDecision(ViaProxy, if cfg.read(ips[i]).V6? then NonIpv4 else ForeignIp, ips))
  {
    NoPattern(host, cfg, Addresses(ips));
    assert FirstIndirect(ips, cfg) == i;
  }
}
