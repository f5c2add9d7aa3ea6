/** Parsing a request head, and writing the head that goes to the origin server on
    a direct route. */
module HeadRewrite {
  import opened HeadFraming
  import opened Strings
  import opened Text

  function Crlf(): Bytes {
    ['\r', '\n']
  }

  // ---- Lines ----

  predicate BreakAt(s: Bytes, i: int) {
    0 <= i && i + 1 < |s| && s[i] == '\r' && s[i + 1] == '\n'
  }

  predicate StartsCrlf(s: Bytes) {
    BreakAt(s, 0)
  }

  ghost predicate NoCrlf(s: Bytes) {
    forall i :: !BreakAt(s, i)
  }

  lemma SliceHoldsNoCrlf(s: Bytes, i: nat, j: nat)
    requires i <= j <= |s| && NoCrlf(s)
    ensures NoCrlf(s[i..j])
  {
    forall k
      ensures !BreakAt(s[i..j], k)
    {
      assert !BreakAt(s, i + k);
    }
  }

  // text.split("\r\n")
  function Lines(s: Bytes): (lines: seq<Bytes>)
    ensures |lines| >= 1
  {
    if s == [] then [[]]
    else if StartsCrlf(s) then [[]] + Lines(s[2..])
    else Prefixed(s[0], Lines(s[1..]))
  }

  lemma ConsNoCrlf(c: char, l: Bytes)
    requires NoCrlf(l) && (c == '\r' && l != [] ==> l[0] != '\n')
    ensures NoCrlf([c] + l)
  {
    forall i
      ensures !BreakAt([c] + l, i)
    {
      assert !BreakAt(l, i - 1);
    }
  }

  lemma {:induction false} LinesHoldNoCrlf(s: Bytes)
    ensures Lines(s)[0] <= s
    ensures forall i :: 0 <= i < |Lines(s)| ==> NoCrlf(Lines(s)[i])
  {
    if s == [] {
    } else if StartsCrlf(s) {
      LinesHoldNoCrlf(s[2..]);
    } else {
      var rest := Lines(s[1..]);
      LinesHoldNoCrlf(s[1..]);
      assert rest[0] != [] ==> rest[0][0] == s[1];
      ConsNoCrlf(s[0], rest[0]);
    }
  }

  lemma {:induction false} LinesConcat(a: Bytes, b: Bytes)
    ensures Lines(a + Crlf() + b) == Lines(a) + Lines(b)
  {
    var s := a + Crlf() + b;
    if a == [] {
      assert s[2..] == b;
    } else if StartsCrlf(a) {
      assert s[2..] == a[2..] + Crlf() + b;
      LinesConcat(a[2..], b);
    } else {
      assert s[0] == a[0] && s[1] == if |a| > 1 then a[1] else '\r';
      assert s[1..] == a[1..] + Crlf() + b;
      LinesConcat(a[1..], b);
      PrefixedConcat(a[0], Lines(a[1..]), Lines(b));
    }
  }

  lemma {:induction false} LinesAlone(l: Bytes)
    requires NoCrlf(l)
    ensures Lines(l) == [l]
  {
    if l != [] {
      assert !BreakAt(l, 0);
      SliceHoldsNoCrlf(l, 1, |l|);
      assert l[1..|l|] == l[1..];
      LinesAlone(l[1..]);
      assert [l[0]] + l[1..] == l;
    }
  }

  lemma {:induction false} FindEndFront(l: Bytes, rest: Bytes)
    requires NoCrlf(l)
    ensures FindEnd(l + Crlf() + rest) ==
      if StartsCrlf(rest) then EndsAt(|l| + 4)
      else if FindEnd(rest).NoEnd? then NoEnd
      else EndsAt(|l| + 2 + FindEnd(rest).index)
  {
    var s := l + Crlf() + rest;
    if l == [] {
      assert s[1..][1..] == rest;
      assert !BlankLine(s[1..]);
      assert BlankLine(s) <==> StartsCrlf(rest) by {
        assert |rest| >= 2 ==> s[2] == rest[0] && s[3] == rest[1];
      }
    } else {
      assert !BlankLine(s) by {
        assert !BreakAt(l, 0);
        assert s[0] == l[0] && s[1] == if |l| > 1 then l[1] else '\r';
      }
      SliceHoldsNoCrlf(l, 1, |l|);
      assert l[1..|l|] == l[1..];
      assert s[1..] == l[1..] + Crlf() + rest;
      FindEndFront(l[1..], rest);
    }
  }

  // ---- Headers ----

  datatype Header = Header(name: Bytes, value: Bytes)

  function Colon(line: Bytes): (i: nat)
    ensures i <= |line|
    ensures forall k :: 0 <= k < i ==> line[k] != ':'
    ensures i < |line| ==> line[i] == ':'
  {
    if line == [] || line[0] == ':' then 0 else 1 + Colon(line[1..])
  }

  // What one line contributes.
  function ParseLine(line: Bytes): seq<Header> {
    var i := Colon(line);
    if i < |line| then [HeaderAt(line, i)] else []
  }

  function HeaderAt(line: Bytes, i: nat): Header
    requires i < |line|
  {
    Header(Strip(line[..i], IsSpace), StripStart(line[i + 1..], IsSpace))
  }

  // What the lines contribute, in order.
  function Gather<T>(lines: seq<Bytes>, parse: Bytes -> seq<T>): seq<T> {
    if lines == [] then []
    else
      var n := |lines| - 1;
      Gather(lines[..n], parse) + parse(lines[n])
  }

  function ParseLines(lines: seq<Bytes>): seq<Header> {
    Gather(lines, ParseLine)
  }

  function ParseHeaders(head: Bytes): (Bytes, seq<Header>) {
    var lines := Lines(head);
    (lines[0], ParseLines(lines[1..]))
  }

  method ParseHeadersLoop(head: Bytes) returns (requestLine: Bytes, headers: seq<Header>)
    ensures (requestLine, headers) == ParseHeaders(head)
  {
    var lines := Lines(head);
    requestLine := lines[0];
    headers := CollectHeaders(lines[1..]);
  }

  method CollectHeaders(lines: seq<Bytes>) returns (headers: seq<Header>)
    ensures headers == ParseLines(lines)
  {
    headers := [];
    for i := 0 to |lines|
      invariant headers == Gather(lines[..i], ParseLine)
    {
      var line := lines[i];
      assert lines[..i + 1][..i] == lines[..i];
      var c := Colon(line);
      if line == [] || c == |line| {
        continue;
      }
      headers := headers + [HeaderAt(line, c)];
    }
    assert lines[..|lines|] == lines;
  }

  ghost predicate NoColon(s: Bytes) {
    forall i :: 0 <= i < |s| ==> s[i] != ':'
  }

  lemma SliceKeeps(s: Bytes, i: nat, j: nat)
    requires i <= j <= |s|
    ensures NoCrlf(s) ==> NoCrlf(s[i..j])
    ensures NoColon(s) ==> NoColon(s[i..j])
  {
    var t := s[i..j];
    assert forall k :: 0 <= k < |t| ==> t[k] == s[i + k];
    if NoCrlf(s) {
      SliceHoldsNoCrlf(s, i, j);
    }
  }

  // What parsing a line leaves: nothing to strip, and no line break.
  ghost predicate Parsed(h: Header) {
    && Strip(h.name, IsSpace) == h.name && NoColon(h.name) && NoCrlf(h.name)
    && StripStart(h.value, IsSpace) == h.value && NoCrlf(h.value)
  }

  ghost predicate AllParsed(hs: seq<Header>) {
    forall h <- hs :: Parsed(h)
  }

  lemma StripParsed(s: Bytes)
    requires NoCrlf(s) && NoColon(s)
    ensures NoCrlf(Strip(s, IsSpace)) && NoColon(Strip(s, IsSpace))
  {
    var left := StripStart(s, IsSpace);
    SliceKeeps(s, |s| - |left|, |s|);
    assert s[|s| - |left|..|s|] == left;
    SliceKeeps(left, 0, |StripEnd(left, IsSpace)|);
    assert left[0..|StripEnd(left, IsSpace)|] == StripEnd(left, IsSpace);
  }

  lemma StripStartKeeps(s: Bytes)
    requires NoCrlf(s)
    ensures NoCrlf(StripStart(s, IsSpace))
  {
    var r := StripStart(s, IsSpace);
    SliceHoldsNoCrlf(s, |s| - |r|, |s|);
    assert s[|s| - |r|..|s|] == r;
  }

  lemma HeaderParsed(name: Bytes, value: Bytes)
    requires NoCrlf(name) && NoColon(name) && NoCrlf(value)
    ensures Parsed(Header(Strip(name, IsSpace), StripStart(value, IsSpace)))
  {
    StripParsed(name);
    StripAgain(name, IsSpace);
    StripAgain(value, IsSpace);
    StripStartKeeps(value);
  }

  lemma PartsKeep(line: Bytes, i: nat, name: Bytes, value: Bytes)
    requires i < |line| && NoCrlf(line) && NoColon(name)
    requires name == line[..i] && value == line[i + 1..]
    ensures Parsed(Header(Strip(name, IsSpace), StripStart(value, IsSpace)))
  {
    SliceHoldsNoCrlf(line, 0, i);
    SliceHoldsNoCrlf(line, i + 1, |line|);
    assert line[0..i] == name && line[i + 1..|line|] == value;
    HeaderParsed(name, value);
  }

  lemma HeaderAtParsed(line: Bytes, i: nat)
    requires i < |line| && NoCrlf(line) && NoColon(line[..i])
    ensures Parsed(HeaderAt(line, i))
  {
    PartsKeep(line, i, line[..i], line[i + 1..]);
  }

  lemma OneParsed(h: Header)
    requires Parsed(h)
    ensures AllParsed([h])
  {
  }

  lemma ParseLineParsed(line: Bytes)
    requires NoCrlf(line)
    ensures AllParsed(ParseLine(line))
  {
    var i := Colon(line);
    if i < |line| {
      assert forall k :: 0 <= k < i ==> line[..i][k] == line[k];
      HeaderAtParsed(line, i);
      OneParsed(HeaderAt(line, i));
    }
  }

  lemma {:induction false} ParseLinesParsed(lines: seq<Bytes>)
    requires forall i :: 0 <= i < |lines| ==> NoCrlf(lines[i])
    ensures AllParsed(ParseLines(lines))
  {
    if lines != [] {
      ParseLineParsed(lines[|lines| - 1]);
      ParseLinesParsed(lines[..|lines| - 1]);
    }
  }

  function HeaderLine(h: Header): Bytes {
    h.name + (": " + h.value)
  }

  lemma ColonAt(a: Bytes, b: Bytes)
    requires NoColon(a)
    ensures Colon(a + ([':'] + b)) == |a|
  {
    var s := a + ([':'] + b);
    assert forall k :: 0 <= k < |a| ==> s[k] == a[k];
    assert s[|a|] == ':';
  }

  lemma HeaderLineNoCrlf(h: Header)
    requires NoCrlf(h.name) && NoCrlf(h.value)
    ensures NoCrlf(HeaderLine(h))
  {
    var line, n := HeaderLine(h), |h.name|;
    forall i
      ensures !BreakAt(line, i)
    {
      assert !BreakAt(h.name, i) && !BreakAt(h.value, i - n - 2);
      assert line[n] == ':' && line[n + 1] == ' ';
    }
  }

  lemma HeaderAtColon(name: Bytes, value: Bytes)
    ensures HeaderAt(name + ([':'] + ([' '] + value)), |name|)
         == Header(Strip(name, IsSpace), StripStart(value, IsSpace))
  {
    var tail := [' '] + value;
    var line := name + ([':'] + tail);
    assert line[..|name|] == name && line[|name| + 1..] == tail;
    assert tail[1..] == value;
  }

  lemma HeaderLineRoundTrip(h: Header)
    requires Parsed(h)
    ensures ParseLine(HeaderLine(h)) == [h]
  {
    ColonAt(h.name, [' '] + h.value);
    HeaderAtColon(h.name, h.value);
    HeaderLineParts(h);
  }

  lemma HeaderLineParts(h: Header)
    ensures HeaderLine(h) == h.name + ([':'] + ([' '] + h.value))
  {
  }

  // ---- The head for the origin server ----

  function HopByHopWords(): seq<string> {
    [
      "connection", "keep-alive", "proxy-authenticate", "proxy-authorization", "proxy-connection",
      "te", "trailer", "transfer-encoding", "upgrade"
    ]
  }

  predicate IsHopByHop(name: Bytes) {
    exists w <- HopByHopWords() :: LowersToWord(name, w)
  }

  function CloseHeader(): Header {
    Header("Connection", "close")
  }

  // The headers whose names are not in `hop`.
  function EndToEnd(hs: seq<Header>, hop: Bytes -> bool): (r: seq<Header>)
    ensures forall h <- r :: h in hs && !hop(h.name)
  {
    if hs == [] then []
    else
      var n := |hs| - 1;
      EndToEnd(hs[..n], hop) + if hop(hs[n].name) then [] else [hs[n]]
  }

  function Hop(): Bytes -> bool {
    name => IsHopByHop(name)
  }

  function Outbound(hs: seq<Header>): seq<Header> {
    EndToEnd(hs, Hop()) + [CloseHeader()]
  }

  // Lines separated by line breaks.
  function JoinLines(ls: seq<Bytes>): Bytes
    requires ls != []
  {
    var n := |ls| - 1;
    if n == 0 then ls[0] else JoinLines(ls[..n]) + Crlf() + ls[n]
  }

  function Written<T>(hs: seq<T>, write: T -> Bytes): (ls: seq<Bytes>)
    ensures |ls| == |hs| && forall i :: 0 <= i < |ls| ==> ls[i] == write(hs[i])
  {
    seq(|hs|, i requires 0 <= i < |hs| => write(hs[i]))
  }

  // Gathering undoes writing when parsing undoes writing one by one.
  lemma {:induction false} GatherWritten<T>(hs: seq<T>, write: T -> Bytes, parse: Bytes -> seq<T>)
    requires forall i :: 0 <= i < |hs| ==> parse(write(hs[i])) == [hs[i]]
    ensures Gather(Written(hs, write), parse) == hs
  {
    if hs != [] {
      var n := |hs| - 1;
      GatherWritten(hs[..n], write, parse);
      assert Written(hs, write)[..n] == Written(hs[..n], write);
    }
  }

  function HeaderLines(hs: seq<Header>): seq<Bytes> {
    Written(hs, HeaderLine)
  }

  // The request line and the header lines.
  function Joined(line: Bytes, hs: seq<Header>): Bytes {
    JoinLines([line] + HeaderLines(hs))
  }

  lemma JoinLinesAppend(ls: seq<Bytes>, l: Bytes)
    requires ls != []
    ensures JoinLines(ls + [l]) == JoinLines(ls) + Crlf() + l
  {
    assert (ls + [l])[..|ls|] == ls;
  }

  lemma JoinedStep(line: Bytes, hs: seq<Header>, h: Header)
    ensures Joined(line, hs + [h]) + Crlf() == Joined(line, hs) + Crlf() + h.name + ": " + h.value + Crlf()
  {
    var ls := [line] + HeaderLines(hs);
    assert [line] + HeaderLines(hs + [h]) == ls + [HeaderLine(h)];
    JoinLinesAppend(ls, HeaderLine(h));
  }

  method OutboundHeaders(headers: seq<Header>) returns (outbound: seq<Header>)
    ensures outbound == Outbound(headers)
  {
    outbound := [];
    for i := 0 to |headers|
      invariant outbound == EndToEnd(headers[..i], Hop())
    {
      assert headers[..i + 1][..i] == headers[..i];
      if !IsHopByHop(headers[i].name) {
        outbound := outbound + [headers[i]];
      }
    }
    assert headers[..|headers|] == headers;
    outbound := outbound + [CloseHeader()];
  }

  method BuildHead(line: Bytes, headers: seq<Header>) returns (head: Bytes)
    ensures head == Joined(line, Outbound(headers)) + Crlf() + Crlf()
  {
    var outbound := OutboundHeaders(headers);
    head := line + Crlf();
    for i := 0 to |outbound|
      invariant head == Joined(line, outbound[..i]) + Crlf()
    {
      JoinedStep(line, outbound[..i], outbound[i]);
      assert outbound[..i + 1] == outbound[..i] + [outbound[i]];
      head := head + outbound[i].name + ": " + outbound[i].value + Crlf();
    }
    assert outbound[..|outbound|] == outbound;
    head := head + Crlf();
  }

  // Splitting undoes joining.
  lemma {:induction false} LinesOfJoined(ls: seq<Bytes>)
    requires ls != [] && forall i :: 0 <= i < |ls| ==> NoCrlf(ls[i])
    ensures Lines(JoinLines(ls)) == ls
  {
    var n := |ls| - 1;
    LinesAlone(ls[n]);
    if n > 0 {
      LinesOfJoined(ls[..n]);
      LinesConcat(JoinLines(ls[..n]), ls[n]);
    }
    assert ls == ls[..n] + [ls[n]];
  }

  lemma ParseHeaderLines(hs: seq<Header>)
    requires AllParsed(hs)
    ensures ParseLines(HeaderLines(hs)) == hs
  {
    forall i | 0 <= i < |hs|
      ensures ParseLine(HeaderLine(hs[i])) == [hs[i]]
    {
      assert hs[i] in hs;
      HeaderLineRoundTrip(hs[i]);
    }
    GatherWritten(hs, HeaderLine, ParseLine);
  }

  lemma HeaderLinesHaveNoBreak(line: Bytes, hs: seq<Header>)
    requires NoCrlf(line) && AllParsed(hs)
    ensures var ls := [line] + HeaderLines(hs);
            && (forall i :: 0 <= i < |ls| ==> NoCrlf(ls[i]))
            && (forall i :: 1 <= i < |ls| ==> |ls[i]| >= 2)
  {
    forall i | 0 <= i < |hs|
      ensures NoCrlf(HeaderLine(hs[i]))
    {
      assert hs[i] in hs;
      HeaderLineNoCrlf(hs[i]);
    }
  }

  lemma NoLeadingBreak(l: Bytes, rest: Bytes)
    requires NoCrlf(l) && |l| >= 2
    ensures !StartsCrlf(l + Crlf() + rest)
  {
    var s := l + Crlf() + rest;
    assert !BreakAt(l, 0);
    assert s[0] == l[0] && s[1] == l[1];
  }

  // Where the first blank line of a + Crlf() + rest ends when a holds none.
  ghost function EndAfter(n: nat, rest: Bytes): End {
    if StartsCrlf(rest) then EndsAt(n + 4)
    else if FindEnd(rest).NoEnd? then NoEnd
    else EndsAt(n + 2 + FindEnd(rest).index)
  }

  lemma EndAfterLine(n: nat, l: Bytes, rest: Bytes)
    requires NoCrlf(l) && |l| >= 2
    ensures EndAfter(n, l + Crlf() + rest) == EndAfter(n + 2 + |l|, rest)
  {
    NoLeadingBreak(l, rest);
    FindEndFront(l, rest);
  }

  lemma FirstLine(l: Bytes, rest: Bytes)
    requires NoCrlf(l)
    ensures FindEnd(l + Crlf() + rest) == EndAfter(|l|, rest)
  {
    FindEndFront(l, rest);
  }

  lemma {:induction false} FindEndOfJoined(ls: seq<Bytes>, rest: Bytes)
    requires ls != [] && forall i :: 0 <= i < |ls| ==> NoCrlf(ls[i])
    requires forall i :: 1 <= i < |ls| ==> |ls[i]| >= 2
    ensures FindEnd(JoinLines(ls) + Crlf() + rest) == EndAfter(|JoinLines(ls)|, rest)
  {
    var n := |ls| - 1;
    if n == 0 {
      FirstLine(ls[0], rest);
    } else {
      FindEndOfJoined(ls[..n], ls[n] + Crlf() + rest);
      OneLineMore(JoinLines(ls[..n]), ls[n], rest);
    }
  }

  lemma OneLineMore(front: Bytes, last: Bytes, rest: Bytes)
    requires NoCrlf(last) && |last| >= 2
    requires FindEnd(front + Crlf() + (last + Crlf() + rest)) == EndAfter(|front|, last + Crlf() + rest)
    ensures FindEnd((front + Crlf() + last) + Crlf() + rest) == EndAfter(|front + Crlf() + last|, rest)
  {
    EndAfterLine(|front|, last, rest);
    Reassociate(front, last, rest);
  }

  lemma Reassociate(a: Bytes, b: Bytes, c: Bytes)
    ensures a + Crlf() + b + Crlf() + c == a + Crlf() + (b + Crlf() + c)
  {
  }

  // ---- The main result ----

  lemma EndToEndParsed(hs: seq<Header>, hop: Bytes -> bool)
    requires AllParsed(hs)
    ensures AllParsed(EndToEnd(hs, hop))
  {
  }

  ghost predicate Letters(s: Bytes) {
    forall i :: 0 <= i < |s| ==> 'A' <= s[i] <= 'z'
  }

  lemma LettersParsed(name: Bytes, value: Bytes)
    requires Letters(name) && Letters(value)
    ensures Parsed(Header(name, value))
  {
    StripFixes(name, IsSpace);
    StripFixes(value, IsSpace);
  }

  lemma CloseParsed()
    ensures Parsed(CloseHeader())
  {
    LettersParsed("Connection", "close");
  }

  lemma CloseIsHopByHop()
    ensures IsHopByHop(CloseHeader().name)
  {
    assert LowersToWord(CloseHeader().name, HopByHopWords()[0]);
  }

  /** The head sent to the origin server, cut at its first blank line and parsed
      again, is the rewritten request line and the inbound headers without the
      hop-by-hop ones, in order, with one `Connection: close` at the end; the body
      follows untouched. */
  lemma RewrittenHeadParsesBack(inbound: Bytes, line: Bytes, body: Bytes)
    requires NoCrlf(line)
    ensures var outbound := Outbound(ParseHeaders(inbound).1);
            var (head, rest) := Partition(Joined(line, outbound) + Crlf() + Crlf() + body);
            ParseHeaders(head) == (line, outbound) && rest == body
  {
    var lines := Lines(inbound);
    LinesHoldNoCrlf(inbound);
    ParseLinesParsed(lines[1..]);
    EndToEndParsed(ParseHeaders(inbound).1, Hop());
    CloseParsed();
    HeadParsesBack(line, Outbound(ParseHeaders(inbound).1), body);
  }

  lemma HeadParsesBack(line: Bytes, hs: seq<Header>, body: Bytes)
    requires NoCrlf(line) && AllParsed(hs)
    ensures var (head, rest) := Partition(Joined(line, hs) + Crlf() + Crlf() + body);
            ParseHeaders(head) == (line, hs) && rest == body
  {
    HeaderLinesHaveNoBreak(line, hs);
    ParseHeaderLines(hs);
    LinesComeBack(line, HeaderLines(hs), body);
  }

  lemma LinesComeBack(line: Bytes, tail: seq<Bytes>, body: Bytes)
    requires var ls := [line] + tail;
            && (forall i :: 0 <= i < |ls| ==> NoCrlf(ls[i]))
            && (forall i :: 1 <= i < |ls| ==> |ls[i]| >= 2)
    ensures var head := JoinLines([line] + tail);
            && Partition(head + Crlf() + Crlf() + body) == (head, body)
            && Lines(head)[0] == line && Lines(head)[1..] == tail
  {
    var ls := [line] + tail;
    LinesOfJoined(ls);
    FindEndOfJoined(ls, Crlf() + body);
    CutsAt(JoinLines(ls), body);
  }

  lemma CutsAt(head: Bytes, body: Bytes)
    requires FindEnd(head + Crlf() + (Crlf() + body)) == EndsAt(|head| + 4)
    ensures Partition(head + Crlf() + Crlf() + body) == (head, body)
  {
    var raw := head + Crlf() + Crlf() + body;
    assert raw == head + Crlf() + (Crlf() + body);
    assert raw[..|head|] == head && raw[|head| + 4..] == body;
  }

  lemma EndToEndAppend(hs: seq<Header>, h: Header, hop: Bytes -> bool)
    ensures EndToEnd(hs + [h], hop) == EndToEnd(hs, hop) + if hop(h.name) then [] else [h]
  {
    assert (hs + [h])[..|hs|] == hs;
  }

  lemma {:induction false} EndToEndFixed(hs: seq<Header>, hop: Bytes -> bool)
    requires forall h <- hs :: !hop(h.name)
    ensures EndToEnd(hs, hop) == hs
  {
    if hs != [] {
      var n := |hs| - 1;
      var front, last := hs[..n], hs[n];
      assert last in hs && hs == front + [last];
      forall h <- front
        ensures !hop(h.name)
      {
        assert h in hs;
      }
      EndToEndFixed(front, hop);
    }
  }

  /** A second proxy that rewrites the rewritten head sends the same head again. */
  lemma RewritingTwiceIsOnce(hs: seq<Header>)
    ensures Outbound(Outbound(hs)) == Outbound(hs)
  {
    CloseIsHopByHop();
    EndToEndAppend(EndToEnd(hs, Hop()), CloseHeader(), Hop());
    EndToEndFixed(EndToEnd(hs, Hop()), Hop());
  }

  /** Only the last header of a rewritten head is hop-by-hop. */
  lemma OneHopByHopHeader(hs: seq<Header>, i: nat)
    requires i < |Outbound(hs)|
    ensures IsHopByHop(Outbound(hs)[i].name) <==> i == |Outbound(hs)| - 1
  {
    CloseIsHopByHop();
    var kept := EndToEnd(hs, Hop());
    if i < |kept| {
      assert kept[i] in kept && !Hop()(kept[i].name);
    }
  }

  // ---- Heads written out ----

  ghost predicate Spaces(s: Bytes) {
    forall i :: 0 <= i < |s| ==> IsSpace(s[i])
  }

  lemma StripAround(front: Bytes, name: Bytes, back: Bytes)
    requires Spaces(front) && Spaces(back) && name != [] && !IsSpace(name[0]) && !IsSpace(name[|name| - 1])
    ensures Strip(front + name + back, IsSpace) == name
  {
    StripRuns(front, name, back, IsSpace);
  }

  lemma HeaderAtParts(before: Bytes, after: Bytes)
    ensures HeaderAt(before + ([':'] + after), |before|)
         == Header(Strip(before, IsSpace), StripStart(after, IsSpace))
  {
    var line := before + ([':'] + after);
    assert line[..|before|] == before && line[|before| + 1..] == after;
  }

  /** A header line is a name, the first colon and a value, with any spaces around the
      name and in front of the value, or none: `Host:example.com` as well. */
  lemma LineParsed(front: Bytes, name: Bytes, back: Bytes, gap: Bytes, value: Bytes, line: Bytes)
    requires Spaces(front) && Spaces(back) && Spaces(gap) && NoColon(front + name + back)
    requires name != [] && !IsSpace(name[0]) && !IsSpace(name[|name| - 1])
    requires value != [] ==> !IsSpace(value[0])
    requires line == front + name + back + ([':'] + (gap + value))
    ensures ParseLine(line) == [Header(name, value)]
  {
    ColonAt(front + name + back, gap + value);
    HeaderAtParts(front + name + back, gap + value);
    StripAround(front, name, back);
    StripStartRun(gap, value, IsSpace);
  }

  /** A line without a colon is no header, ... */
  lemma LineSkipped(line: Bytes)
    ensures ParseLine(line) == [] <==> NoColon(line)
  {
    assert forall k :: 0 <= k < Colon(line) ==> line[k] != ':';
  }

  /** ... and a head is its request line and what its other lines contribute, in order. */
  lemma HeadParsed(line: Bytes, ls: seq<Bytes>, all: seq<Bytes>)
    requires all == [line] + ls && forall i :: 0 <= i < |all| ==> NoCrlf(all[i])
    ensures ParseHeaders(JoinLines(all)) == (line, ParseLines(ls))
  {
    LinesOfJoined(all);
    assert all[1..] == ls;
  }

  lemma LinesContribute(ls: seq<Bytes>, last: Bytes)
    ensures ParseLines([]) == []
    ensures ParseLines(ls + [last]) == ParseLines(ls) + ParseLine(last)
  {
    assert (ls + [last])[..|ls|] == ls;
  }

  lemma JoinedByBreaks(ls: seq<Bytes>, l: Bytes)
    requires ls != []
    ensures JoinLines([l]) == l
    ensures JoinLines(ls + [l]) == JoinLines(ls) + ['\r', '\n'] + l
  {
    JoinLinesAppend(ls, l);
  }

  /** The head sent on is the request line, then every header on a line of its own. */
  lemma HeadWritten(line: Bytes, hs: seq<Header>, h: Header)
    ensures Joined(line, []) == line
    ensures Joined(line, hs + [h]) == Joined(line, hs) + ['\r', '\n'] + (h.name + ([':', ' '] + h.value))
  {
    var ls := [line] + HeaderLines(hs);
    assert [line] + HeaderLines(hs + [h]) == ls + [HeaderLine(h)];
    assert [line] + HeaderLines([]) == [line];
    JoinedByBreaks(ls, HeaderLine(h));
  }

  // The names the program takes for hop-by-hop.
  predicate NamesHop(name: Bytes) {
    exists w <- [
      "connection", "keep-alive", "proxy-authenticate", "proxy-authorization", "proxy-connection",
      "te", "trailer", "transfer-encoding", "upgrade"
    ] :: Cased(name, w)
  }

  lemma HopIsNamed(name: Bytes)
    requires IsAscii(name)
    ensures IsHopByHop(name) <==> NamesHop(name)
  {
    forall w <- HopByHopWords()
      ensures LowersToWord(name, w) <==> Cased(name, w)
    {
      CasedLowers(name, w);
    }
  }

  /** Of the inbound headers exactly those with one of nine names are dropped, the others
      go on in order, and `Connection: close` is the last. */
  lemma SentOn(hs: seq<Header>, h: Header)
    requires IsAscii(h.name)
    ensures Outbound([]) == [Header("Connection", "close")]
    ensures Outbound(hs + [h]) ==
      if NamesHop(h.name) then Outbound(hs)
      else Outbound(hs)[..|Outbound(hs)| - 1] + [h, Header("Connection", "close")]
  {
    HopIsNamed(h.name);
    EndToEndAppend(hs, h, Hop());
    LastAppended(EndToEnd(hs, Hop()), h, CloseHeader());
    ClosesWith();
  }

  lemma ClosesWith()
    ensures CloseHeader() == Header("Connection", "close") && EndToEnd([], Hop()) == []
  {
  }

  lemma LastAppended(hs: seq<Header>, h: Header, c: Header)
    ensures (hs + [h]) + [c] == (hs + [c])[..|hs + [c]| - 1] + [h, c]
  {
  }

  // ---- The rule for proxies ----

  function AsciiLower(c: char): char {
    if 'A' <= c <= 'Z' then c + '\U{20}' else c
  }

  predicate SameName(a: Bytes, b: Bytes) {
    |a| == |b| && forall i :: 0 <= i < |a| ==> AsciiLower(a[i]) == AsciiLower(b[i])
  }

  // The header is a Connection header with this name among its options.
  predicate Nominates(h: Header, name: Bytes) {
    LowersToWord(h.name, "connection") && HasOption(Split(h.value, ','), name)
  }

  predicate HasOption(options: seq<Bytes>, name: Bytes) {
    exists o <- options :: SameName(Strip(o, IsSpace), name)
  }

  predicate Nominated(hs: seq<Header>, name: Bytes) {
    exists h <- hs :: Nominates(h, name)
  }

  lemma {:induction false} EndToEndHolds(hs: seq<Header>, hop: Bytes -> bool, h: Header)
    ensures h in EndToEnd(hs, hop) <==> h in hs && !hop(h.name)
  {
    if hs != [] {
      var n := |hs| - 1;
      EndToEndHolds(hs[..n], hop, h);
      assert hs == hs[..n] + [hs[n]];
    }
  }

  /** Section 7.6.1 of RFC 9110 has a proxy remove every header that a Connection header
      names. The rewriting does exactly when each such header is in its fixed list. */
  lemma NominatedRemovedExactlyWhen(hs: seq<Header>)
    ensures (forall h <- EndToEnd(hs, Hop()) :: !Nominated(hs, h.name)) <==>
      forall h <- hs :: Nominated(hs, h.name) ==> IsHopByHop(h.name)
  {
    forall h: Header
      ensures h in EndToEnd(hs, Hop()) <==> h in hs && !IsHopByHop(h.name)
    {
      EndToEndHolds(hs, Hop(), h);
    }
  }

  lemma NominatedForwarded(c: Header, h: Header)
    requires Nominates(c, h.name) && !IsHopByHop(h.name)
    ensures Nominated([c, h], h.name) && h in EndToEnd([c, h], Hop())
  {
    var hs := [c, h];
    assert hs[0] == c && hs[1] == h;
    EndToEndHolds(hs, Hop(), h);
  }

  lemma OneOption(options: seq<Bytes>, name: Bytes)
    requires options == [name] && Strip(name, IsSpace) == name
    ensures HasOption(options, name)
  {
    assert options[0] == name;
  }

  lemma ConnectionName()
    ensures LowersToWord("Connection", "connection")
  {
  }

  /** Any other header that a Connection header names goes on to the origin server. */
  lemma NominatedForwardedHappens(name: Bytes, value: Bytes)
    requires name != [] && ',' !in name && !IsSpace(name[0]) && !IsSpace(name[|name| - 1]) && !IsHopByHop(name)
    ensures var hs := [Header("Connection", name), Header(name, value)];
      Nominated(hs, name) && Header(name, value) in EndToEnd(hs, Hop())
  {
    SplitAlone(name, ',');
    StripFixes(name, IsSpace);
    OneOption(Split(name, ','), name);
    ConnectionName();
    NominatedForwarded(Header("Connection", name), Header(name, value));
  }

  predicate FramesBody(h: Header) {
    LowersToWord(h.name, "transfer-encoding")
  }

  /** It does remove Transfer-Encoding, though, while the body goes on untouched: the head
      sent on describes the body's framing only if the inbound one had no such header. */
  lemma FramingKeptExactlyWhen(hs: seq<Header>)
    ensures (forall h <- hs :: FramesBody(h) ==> h in EndToEnd(hs, Hop())) <==> forall h <- hs :: !FramesBody(h)
  {
    forall h <- hs | FramesBody(h)
      ensures h !in EndToEnd(hs, Hop())
    {
      EndToEndHolds(hs, Hop(), h);
      TransferEncodingIsHopByHop(h.name);
    }
  }

  lemma FramingLostHappens(value: Bytes)
    ensures var h := Header("Transfer-Encoding", value); FramesBody(h) && h !in Outbound([h])
  {
    var h := Header("Transfer-Encoding", value);
    TransferEncodingIsHopByHop(h.name);
    EndToEndHolds([h], Hop(), h);
    assert |h.name| != |CloseHeader().name|;
  }

  lemma TransferEncodingIsHopByHop(name: Bytes)
    requires LowersToWord(name, "transfer-encoding")
    ensures IsHopByHop(name)
  {
    assert HopByHopWords()[7] == "transfer-encoding";
  }

  // ---- Request lines ----

  ghost predicate NoSpace(s: Bytes) {
    forall i :: 0 <= i < |s| ==> !IsSpace(s[i])
  }

  /** A request line built from three words without white space, as split() yields
      them, holds no line break. */
  lemma RequestLineHasNoBreak(method_: Bytes, path: Bytes, version: Bytes)
    requires NoSpace(method_) && NoSpace(path) && NoSpace(version)
    ensures NoCrlf(method_ + (" " + (path + (" " + version))))
  {
  }
}
