/** The proxy auto-configuration script handed to the phone: its string globs,
    compared with the address blocks they stand for. */
module Pac {
  import opened HostRouting
  import opened Ipv4

  // shExpMatch: '*' stands for any text, '?' for any one character.
  predicate Glob(s: string, g: string)
    decreases |g|, |s|
  {
    if g == [] then s == []
    else if g[0] == '*' then Glob(s, g[1..]) || (s != [] && Glob(s[1..], g))
    else s != [] && (g[0] == '?' || g[0] == s[0]) && Glob(s[1..], g[1..])
  }

  function ScriptGlobs(): seq<string> {
    [
      "10.*", "192.168.*", "172.16.*", "172.17.*", "172.18.*", "172.19.*", "172.2?.*", "172.30.*", "172.31.*"
    ]
  }

  predicate AnyGlob(host: string, globs: seq<string>) {
    globs != [] && (Glob(host, globs[0]) || AnyGlob(host, globs[1..]))
  }

  // FindProxyForURL answers "DIRECT".
  predicate PacDirect(host: string) {
    '.' !in host || EndsWith(host, ".local") || AnyGlob(host, ScriptGlobs())
  }

  // ---- Globs that end in ".*" ----

  lemma {:induction false} StarMatches(s: string)
    ensures Glob(s, ['*'])
    decreases |s|
  {
    if s != [] {
      StarMatches(s[1..]);
    } else {
      assert Glob(s, ['*'][1..]);
    }
  }

  predicate Literal(l: string) {
    forall i :: 0 <= i < |l| ==> l[i] != '*' && l[i] != '?'
  }

  lemma {:induction false} GlobLiteral(s: string, l: string, g: string)
    requires Literal(l)
    ensures Glob(s, l + g) <==> |l| <= |s| && s[..|l|] == l && Glob(s[|l|..], g)
    decreases |l|
  {
    if l == [] {
      assert l + g == g && s[0..] == s;
    } else {
      assert (l + g)[1..] == l[1..] + g && (l + g)[0] == l[0];
      if s != [] && s[0] == l[0] {
        GlobLiteral(s[1..], l[1..], g);
        assert l == [l[0]] + l[1..];
        if |l| <= |s| {
          assert s[1..][|l| - 1..] == s[|l|..];
          assert s[..|l|] == [s[0]] + s[1..][..|l| - 1];
        }
      }
    }
  }

  lemma GlobPrefix(s: string, l: string)
    requires Literal(l)
    ensures Glob(s, l + ['*']) <==> HasPrefix(s, l)
  {
    GlobLiteral(s, l, ['*']);
    if |l| <= |s| {
      StarMatches(s[|l|..]);
    }
  }

  // ---- Labels ----

  predicate Dotless(s: string) {
    forall i :: 0 <= i < |s| ==> s[i] != '.'
  }

  predicate HasPrefix(s: string, p: string) {
    |p| <= |s| && s[..|p|] == p
  }

  lemma DifferAt(s: string, p: string, i: nat)
    requires i < |s| && i < |p| && s[i] != p[i]
    ensures !HasPrefix(s, p)
  {
    if |p| <= |s| {
      assert s[..|p|][i] == s[i];
    }
  }

  lemma FirstLabel(a: string, rest: string, l: string)
    requires Dotless(a) && Dotless(l)
    ensures HasPrefix(a + ['.'] + rest, l + ['.']) <==> a == l
  {
    var s, p := a + ['.'] + rest, l + ['.'];
    if |a| < |l| {
      assert s[|a|] == '.' && p[|a|] == l[|a|];
      DifferAt(s, p, |a|);
    } else if |l| < |a| {
      assert p[|l|] == '.' && s[|l|] == a[|l|];
      DifferAt(s, p, |l|);
    } else {
      assert s[..|p|] == a + ['.'];
      assert s[..|p|][..|a|] == a && p[..|l|] == l;
    }
  }

  lemma OctetDotless(n: nat)
    requires n < 256
    ensures Dotless(OctetText(n))
  {
    forall i | 0 <= i < |OctetText(n)|
      ensures OctetText(n)[i] != '.'
    {
      assert OctetText(n)[i] in OctetText(n);
    }
  }

  lemma OctetIs(n: nat, m: nat)
    requires n < 256 && m < 256
    ensures OctetText(n) == OctetText(m) <==> n == m
  {
    OctetRoundTrip(n);
    OctetRoundTrip(m);
  }

  // One octet fixed: "a.*".
  lemma GlobOne(a: nat, b: nat, c: nat, d: nat, x: nat)
    requires a < 256 && b < 256 && c < 256 && d < 256 && x < 256
    ensures Glob(DottedOctets(a, b, c, d), OctetText(x) + ['.'] + ['*']) <==> a == x
  {
    var rest := OctetText(b) + ['.'] + (OctetText(c) + ['.'] + OctetText(d));
    var l := OctetText(x) + ['.'];
    OctetDotless(a);
    OctetDotless(x);
    OctetIs(a, x);
    LiteralOctet(x);
    GlobPrefix(DottedOctets(a, b, c, d), l);
    FirstLabel(OctetText(a), rest, OctetText(x));
  }

  lemma LiteralOctet(x: nat)
    requires x < 256
    ensures Literal(OctetText(x) + ['.'])
  {
    var t := OctetText(x);
    forall i | 0 <= i < |t|
      ensures t[i] != '*' && t[i] != '?'
    {
      assert t[i] in t;
    }
  }

  // Two octets fixed: "a.b.*".
  lemma GlobTwo(a: nat, b: nat, c: nat, d: nat, x: nat, y: nat)
    requires a < 256 && b < 256 && c < 256 && d < 256 && x < 256 && y < 256
    ensures Glob(DottedOctets(a, b, c, d), OctetText(x) + ['.'] + (OctetText(y) + ['.'] + ['*'])) <==> a == x && b == y
  {
    var tail := OctetText(c) + ['.'] + OctetText(d);
    var rest := OctetText(b) + ['.'] + tail;
    var s := DottedOctets(a, b, c, d);
    var lx, ly := OctetText(x) + ['.'], OctetText(y) + ['.'];
    OctetDotless(a);
    OctetDotless(b);
    OctetDotless(x);
    OctetDotless(y);
    OctetIs(a, x);
    OctetIs(b, y);
    LiteralOctet(x);
    LiteralOctet(y);
    GlobLiteral(s, lx, ly + ['*']);
    FirstLabel(OctetText(a), rest, OctetText(x));
    if a == x {
      assert s[|lx|..] == rest;
      GlobPrefix(rest, ly);
      FirstLabel(OctetText(b), tail, OctetText(y));
    }
  }

  // One octet fixed, then '2' and any one character: "a.2?.*".
  lemma GlobTwenties(a: nat, b: nat, c: nat, d: nat, x: nat)
    requires a < 256 && b < 256 && c < 256 && d < 256 && x < 256
    ensures Glob(DottedOctets(a, b, c, d), OctetText(x) + ['.'] + ['2', '?', '.', '*']) <==> a == x && 20 <= b <= 29
  {
    var tail := OctetText(c) + ['.'] + OctetText(d);
    var rest := OctetText(b) + ['.'] + tail;
    var s := DottedOctets(a, b, c, d);
    var lx := OctetText(x) + ['.'];
    OctetDotless(a);
    OctetDotless(x);
    OctetIs(a, x);
    LiteralOctet(x);
    GlobLiteral(s, lx, ['2', '?', '.', '*']);
    FirstLabel(OctetText(a), rest, OctetText(x));
    if a == x {
      assert s[|lx|..] == rest;
      GlobSecond(rest);
      OctetDotless(c);
      Twenties(b, tail);
    }
  }

  lemma GlobSecond(s: string)
    ensures Glob(s, ['2', '?', '.', '*']) <==> |s| >= 3 && s[0] == '2' && s[2] == '.'
  {
    GlobLiteral(s, ['2'], ['?', '.', '*']);
    assert ['2'] + ['?', '.', '*'] == ['2', '?', '.', '*'];
    if |s| >= 1 {
      var t := s[1..];
      assert s[..1] == [s[0]];
      assert ['?', '.', '*'][1..] == ['.'] + ['*'];
      if t != [] {
        GlobPrefix(t[1..], ['.']);
        assert |s| >= 3 ==> t[1..][..1] == [s[2]];
      }
    }
  }

  lemma Twenties(b: nat, tail: string)
    requires b < 256 && tail != [] && tail[0] != '.'
    ensures var s := OctetText(b) + ['.'] + tail; (|s| >= 3 && s[0] == '2' && s[2] == '.') <==> 20 <= b <= 29
  {
    var t := OctetText(b);
    var s := t + ['.'] + tail;
    OctetDotless(b);
    if |t| == 1 {
      assert s[2] == tail[0];
    } else if |t| == 2 {
      assert s[0] == Digit(b / 10) && s[2] == '.';
    } else {
      assert s[2] == t[2];
    }
  }

  // ---- Blocks ----

  predicate PrivateBlocks(a: nat, b: nat) {
    a == 10 || (a == 192 && b == 168) || (a == 172 && 16 <= b <= 31)
  }

  // The blocks of section 3 of RFC 1918.
  predicate InRfc1918(n: Address) {
    || FromOctets(10, 0, 0, 0) <= n <= FromOctets(10, 255, 255, 255)
    || FromOctets(172, 16, 0, 0) <= n <= FromOctets(172, 31, 255, 255)
    || FromOctets(192, 168, 0, 0) <= n <= FromOctets(192, 168, 255, 255)
  }

  lemma BlocksByOctets(n: Address)
    ensures InRfc1918(n) <==> PrivateBlocks(Octets(n).0, Octets(n).1)
  {
  }

  lemma AnyOfNine(host: string, g: seq<string>)
    requires |g| == 9
    ensures AnyGlob(host, g) <==>
      Glob(host, g[0]) || Glob(host, g[1]) || Glob(host, g[2]) || Glob(host, g[3]) || Glob(host, g[4])
      || Glob(host, g[5]) || Glob(host, g[6]) || Glob(host, g[7]) || Glob(host, g[8])
  {
    AnyFrom(host, g, 0);
    assert g[0..] == g;
  }

  lemma {:induction false} AnyFrom(host: string, g: seq<string>, i: nat)
    requires i <= |g|
    ensures AnyGlob(host, g[i..]) <==> exists k :: i <= k < |g| && Glob(host, g[k])
    decreases |g| - i
  {
    if i < |g| {
      assert g[i..][1..] == g[i + 1..];
      AnyFrom(host, g, i + 1);
    }
  }

  // The globs of the script, spelled by octets.
  lemma GlobTexts()
    ensures ScriptGlobs()[0] == OctetText(10) + ['.'] + ['*']
    ensures ScriptGlobs()[1] == OctetText(192) + ['.'] + (OctetText(168) + ['.'] + ['*'])
    ensures ScriptGlobs()[2] == OctetText(172) + ['.'] + (OctetText(16) + ['.'] + ['*'])
    ensures ScriptGlobs()[3] == OctetText(172) + ['.'] + (OctetText(17) + ['.'] + ['*'])
    ensures ScriptGlobs()[4] == OctetText(172) + ['.'] + (OctetText(18) + ['.'] + ['*'])
    ensures ScriptGlobs()[5] == OctetText(172) + ['.'] + (OctetText(19) + ['.'] + ['*'])
    ensures ScriptGlobs()[6] == OctetText(172) + ['.'] + ['2', '?', '.', '*']
    ensures ScriptGlobs()[7] == OctetText(172) + ['.'] + (OctetText(30) + ['.'] + ['*'])
    ensures ScriptGlobs()[8] == OctetText(172) + ['.'] + (OctetText(31) + ['.'] + ['*'])
  {
  }

  lemma GlobsMean(a: nat, b: nat, c: nat, d: nat)
    requires a < 256 && b < 256 && c < 256 && d < 256
    ensures AnyGlob(DottedOctets(a, b, c, d), ScriptGlobs()) <==> PrivateBlocks(a, b)
  {
    var s := DottedOctets(a, b, c, d);
    GlobTexts();
    AnyOfNine(s, ScriptGlobs());
    GlobOne(a, b, c, d, 10);
    GlobTwo(a, b, c, d, 192, 168);
    GlobTwo(a, b, c, d, 172, 16);
    GlobTwo(a, b, c, d, 172, 17);
    GlobTwo(a, b, c, d, 172, 18);
    GlobTwo(a, b, c, d, 172, 19);
    GlobTwenties(a, b, c, d, 172);
    GlobTwo(a, b, c, d, 172, 30);
    GlobTwo(a, b, c, d, 172, 31);
  }

  lemma LastDiffers(s: string, t: string)
    requires s != [] && t != [] && s[|s| - 1] != t[|t| - 1]
    ensures !EndsWith(s, t)
  {
    if |t| <= |s| {
      assert s[|s| - |t|..][|t| - 1] == s[|s| - 1];
    }
  }

  lemma DottedIsNoName(a: nat, b: nat, c: nat, d: nat)
    requires a < 256 && b < 256 && c < 256 && d < 256
    ensures var s := DottedOctets(a, b, c, d); '.' in s && !EndsWith(s, ".local")
  {
    var s, t := DottedOctets(a, b, c, d), OctetText(d);
    assert s[|OctetText(a)|] == '.';
    assert s[|s| - 1] == t[|t| - 1] && t[|t| - 1] in t;
    LastDiffers(s, ".local");
  }

  /** The script sends an IPv4 literal direct exactly when its number lies in the
      private blocks, and the split proxy calls every such address private. */
  lemma PacAgreesWithBlocks(n: Address)
    ensures PacDirect(Dotted(n)) <==> InRfc1918(n)
    ensures InRfc1918(n) ==> InAny(n, PrivateNets())
  {
    var (a, b, c, d) := Octets(n);
    BlocksByOctets(n);
    GlobsMean(a, b, c, d);
    DottedIsNoName(a, b, c, d);
    if InRfc1918(n) {
      BlocksAreNets(n);
    }
  }

  // ---- Any host ----

  // What follows "172." in a private address, and in some names.
  predicate PrivateSecond(t: string) {
    || HasPrefix(t, "16.") || HasPrefix(t, "17.") || HasPrefix(t, "18.") || HasPrefix(t, "19.")
    || (|t| >= 3 && t[0] == '2' && t[2] == '.')
    || HasPrefix(t, "30.") || HasPrefix(t, "31.")
  }

  lemma GlobSeventeen(s: string, l: string, g: string)
    requires Literal(l) && g == "172." + (l + ['*'])
    ensures Glob(s, g) <==> HasPrefix(s, "172.") && HasPrefix(s[4..], l)
  {
    GlobLiteral(s, "172.", l + ['*']);
    if |s| >= 4 {
      GlobPrefix(s[4..], l);
    }
  }

  lemma GlobSeventeenTwenties(s: string)
    ensures Glob(s, "172." + ['2', '?', '.', '*']) <==>
      HasPrefix(s, "172.") && |s| >= 7 && s[4] == '2' && s[6] == '.'
  {
    GlobLiteral(s, "172.", ['2', '?', '.', '*']);
    if |s| >= 4 {
      GlobSecond(s[4..]);
    }
  }

  // The globs of the script, spelled by their fixed parts.
  lemma GlobParts()
    ensures ScriptGlobs()[0] == "10." + ['*'] && ScriptGlobs()[1] == "192.168." + ['*']
    ensures ScriptGlobs()[2] == "172." + ("16." + ['*']) && ScriptGlobs()[3] == "172." + ("17." + ['*'])
    ensures ScriptGlobs()[4] == "172." + ("18." + ['*']) && ScriptGlobs()[5] == "172." + ("19." + ['*'])
    ensures ScriptGlobs()[6] == "172." + ['2', '?', '.', '*']
    ensures ScriptGlobs()[7] == "172." + ("30." + ['*']) && ScriptGlobs()[8] == "172." + ("31." + ['*'])
  {
  }

  lemma GlobsMatch(host: string, g: seq<string>)
    requires |g| == 9 && g[0] == "10." + ['*'] && g[1] == "192.168." + ['*']
    requires g[2] == "172." + ("16." + ['*']) && g[3] == "172." + ("17." + ['*'])
    requires g[4] == "172." + ("18." + ['*']) && g[5] == "172." + ("19." + ['*'])
    requires g[6] == "172." + ['2', '?', '.', '*']
    requires g[7] == "172." + ("30." + ['*']) && g[8] == "172." + ("31." + ['*'])
    ensures AnyGlob(host, g) <==>
      || HasPrefix(host, "10.") || HasPrefix(host, "192.168.")
      || (HasPrefix(host, "172.") && PrivateSecond(host[4..]))
  {
    AnyOfNine(host, g);
    GlobPrefix(host, "10.");
    GlobPrefix(host, "192.168.");
    GlobSeventeen(host, "16.", g[2]);
    GlobSeventeen(host, "17.", g[3]);
    GlobSeventeen(host, "18.", g[4]);
    GlobSeventeen(host, "19.", g[5]);
    GlobSeventeenTwenties(host);
    GlobSeventeen(host, "30.", g[7]);
    GlobSeventeen(host, "31.", g[8]);
  }

  /** The script looks at texts, not at numbers: it sends direct exactly the hosts that
      have no dot, end with ".local", or begin as a private address does. */
  lemma PacDirectExactlyWhen(host: string)
    ensures PacDirect(host) <==>
      || '.' !in host || EndsWith(host, ".local")
      || HasPrefix(host, "10.") || HasPrefix(host, "192.168.")
      || (HasPrefix(host, "172.") && PrivateSecond(host[4..]))
  {
    GlobParts();
    GlobsMatch(host, ScriptGlobs());
  }

  /** Names among them, such as 10.example.com. */
  lemma NamesSentDirect(rest: string)
    ensures PacDirect("10." + rest)
  {
    PacDirectExactlyWhen("10." + rest);
    assert ("10." + rest)[..3] == "10.";
  }

  // ---- The blocks as networks ----

  lemma BlockNumbers(n: Address)
    requires InRfc1918(n)
    ensures PrivateNumber(n as int)
  {
  }

  lemma BlocksAreNets(n: Address)
    requires InRfc1918(n)
    ensures InAny(n, PrivateNets())
  {
    BlockNumbers(n);
    PrivateExactlyWhen(n, PrivateNets());
  }

  // ---- The script and the proxy agree ----

  lemma LiteralDirect(s: string, n: Address, cfg: Config, answer: Answer)
    requires Normalise(s) == s && cfg.read(s) == V4(n) && InAny(n, cfg.private_)
    ensures var r := ChooseRoute(s, cfg, answer);
      r.Some? && (r.value.mode.ViaDirect? <==> !HostMatches(s, cfg.forceProxy))
  {
    assert cfg.DirectText(s);
    DirectExactlyWhen(s, cfg, answer);
  }

  /** A literal that the script sends direct goes direct at the proxy too, whatever the
      CN networks and answers, unless a force-proxy pattern names it. */
  lemma ProxyAgreesWithPac(n: Address, cfg: Config, isV6: string -> bool, answer: Answer)
    requires PacDirect(Dotted(n)) && Configured(cfg, isV6)
    ensures var r := ChooseRoute(Dotted(n), cfg, answer);
      r.Some? && (r.value.mode.ViaDirect? <==> !HostMatches(Dotted(n), cfg.forceProxy))
  {
    PacAgreesWithBlocks(n);
    ReadsDotted(n, isV6);
    DottedIsNormal(n);
    LiteralDirect(Dotted(n), n, cfg, answer);
  }
}
