# Verification of the home-proxy controller, proxies and agent

This project models, in Dafny 4.11, the stateful and text-handling core of a home
network proxy: the controller that watches for tethered phones and runs the LAN
gateway, the split HTTP proxy and its byte relays, and the agent that imports
profiles, starts the runtime and watches over it. `dafny verify dfyconfig.toml`
checks all of it.

Code that updates state in place is a class or a method with loops, proved equal to a
function of the old state; what the code is for is then proved about that function,
over every input, every run or every interleaving. Sockets, DNS, `nmcli`, `nft`,
`systemctl`, processes, clocks and files are the parameters of these functions: every
outcome they can have is quantified over.

| files | subject |
|---|---|
| `PhoneEvents`, `PhoneEventController`, `PhoneEventEffects`, `PhoneEventRuns`, `PhoneEventPrompts`, `PhoneEventWriters`, `PhoneEventHistories`, `PhonePolicyWriters` | the phone-tether event store: a bounded log updated by scans, by the dispatcher guard and by user decisions |
| `Options`, `Strings`, `Ipv4`, `HostRouting`, `RouteCache`, `Pac` | host matching, network arithmetic, the choice of a route, the cache all handler threads share, and the proxy auto-configuration script |
| `HeadFraming`, `HeadRewrite`, `Relay` | reading a request head in chunks, parsing and rewriting it, and relaying bytes both ways |
| `LanGateway` | the nftables table, its meaning for packets, and the apply/remove protocol |
| `Text`, `Json`, `Substitution`, `KeywordPatterns`, `Redaction` | redaction of log text and of JSON payloads |
| `RouteIds`, `Profiles`, `RoutePolicy`, `UpstreamProfile` | importing an upstream configuration as a profile, validating it, deciding routes under it |
| `SessionPorts`, `AgentRuntime` | port allocation, the runtime plan, the recorded child process and the watchdog |

## What the code does not do

Some statements one would expect are false of the code. Each is answered by the exact
condition under which it holds, or by what holds instead:

- A one-shot decision is not lifted by unplugging the phone, although the name of the
  test at `runtime/proxy-stack/tests/test_proxy_stack.py:426` says so: a scan refreshes
  presence before it looks for suppression (`PhoneEventPrompts.SuppressionIgnoresStoredPresence`).
- The dispatcher guard asks again whatever was decided once
  (`PhoneEventPrompts.GuardPromptsDespiteDecisions`), and an "always" decision taken while
  the connection is unknown covers nothing once it is known
  (`PhoneEventPrompts.AlwaysCoversExactlyWhen`, `PhoneEventPrompts.UnboundDecisionAsksAgain`).
- The event file has no lock. `PhoneEventRuns` and `PhoneEventPrompts` are about runs of
  undivided steps; of the invariants only these hold under every interleaving of unlocked
  writes: prompts of one interface exclude each other and the length is bounded
  (`PhoneEventWriters.EveryVersionDistinguished`), and every event has the id, interface and
  driver it was appended with (`PhoneEventHistories.EveryEventHasOrigin`). The others hold as
  far as the versions that the writes are based on allow:
  - A write keeps a decision exactly when its base holds it or the write makes it
    (`PhoneEventWriters.DecisionsExactlyWhen`); otherwise the event, if it is kept, is a prompt again
    (`PhoneEventWriters.StaleWriteRevivesPrompt`).
  - The file holds the latest events exactly as long as each write keeps of the ids of its
    base what it would keep of those of the file (`PhoneEventHistories.AllLatestExactlyWhen`);
    otherwise an append can be lost (`PhoneEventHistories.StaleAppendLosesEvent`).
  - A version knows a connection exactly when its write took it over, filled it in or appended
    it (`PhoneEventHistories.BoundExactlyWhen`); so a known one can be replaced
    (`PhoneEventHistories.StaleWriteRebinds`).
- The file of "always" decisions has no lock either. A version says about a plan what the last
  save of its key on the chain of bases said (`PhonePolicyWriters.ChoiceExactlyWhen`); a save of
  another key that is based on an older version loses the decision
  (`PhonePolicyWriters.StaleSaveForgets`).
- The LAN gateway's marker and the loaded table can disagree after a partly failed apply,
  after a removal that takes another failure for a missing table, and after a deletion or a
  load that is reported as failed and took effect all the same, as a timeout can
  (`LanGateway.ApplyAgreesExactlyWhen`, `LanGateway.RemoveAgreesExactlyWhen`).
- For a blank line that ends between 61442 and 65536 bytes, with more than 65536 bytes in the
  stream, it is the chunking that decides whether a head is accepted
  (`HeadFraming.AlwaysAcceptedExactlyWhen`, `HeadFraming.EverAcceptedExactlyWhen`).
- A header that an inbound Connection header names is forwarded unless it is in the fixed
  list, and Transfer-Encoding is removed while the body goes on untouched
  (`HeadRewrite.NominatedRemovedExactlyWhen`, `HeadRewrite.NominatedForwardedHappens`,
  `HeadRewrite.FramingKeptExactlyWhen`, `HeadRewrite.FramingLostHappens`; compare section 7.6.1
  of RFC 9110).
- The auto-configuration script compares texts, so it also sends names such as
  `10.example.com` direct (`Pac.PacDirectExactlyWhen`, `Pac.NamesSentDirect`).
- Redaction leaves a value in the text when a space follows its separator and an earlier
  match runs past its keyword, as in `token=password: value`
  (`Redaction.ValueHiddenExactlyWhen`, `Redaction.ValueLeftHappens`).
- `normalize_route_id` is not idempotent (`RouteIds.NormalizeAgain`, `RouteIds.CutAtHyphenHappens`).
- An import fails when a tag normalises to the name of a secret
  (`UpstreamProfile.ConvertsExactlyWhen`), and a validated profile can decide a route that
  does not exist (`RoutePolicy.DecisionExistsExactlyWhen`, `RoutePolicy.MissingDefaultHappens`).
- `stop_runtime` forgets a child whose kill did not end it
  (`AgentRuntime.StopAccountsExactlyWhen`). The watchdog leaves a running child alone when
  there is no session, which happens only when the session file is lost
  (`AgentRuntime.WatchdogClearsExactlyWhen`, `AgentRuntime.RunOwned`, `AgentRuntime.LostSessionRunsOn`).

## Model

| member | source | states |
|---|---|---|
| PhoneEventController.Controller.RecordPhoneTetherEvent | runtime/proxy-stack/proxy_stack.py:657-707 | the recorder's loop merges into the first compatible pending event of the interface, filling in an unknown connection, and otherwise appends a fresh one; the whole new store |
| PhoneEventController.Controller.MarkPhoneEventPresence | runtime/proxy-stack/proxy_stack.py:645-654 | every phone event's presence flag says whether some plan matches it, and the result says whether a flag changed |
| PhoneEventController.Controller.WriteStore | runtime/proxy-stack/proxy_stack.py:571-576 | a write keeps the last 80 events |
| PhoneEventController.Controller.NetworkEventsJson | runtime/proxy-stack/proxy_stack.py:839-857 | a scan marks presence, then records each prompt-policy device that no decision suppresses, and returns the pending events |
| PhoneEventController.Controller.PhoneTetherGuardApply | runtime/proxy-stack/proxy_stack.py:824-836 | the guard records under the prompt policy and demotes the connection; it reports success exactly when the driver is a phone's and the policy was applied |
| PhoneEventController.Controller.UpdateEvent | runtime/proxy-stack/proxy_stack.py:860-865 | resolves the first event with the id, and only that one |
| PhoneEventController.Controller.UpstreamSelect | runtime/proxy-stack/proxy_stack.py:868-904 | every refusal of a decision and the whole state after an accepted one |
| PhoneEventEffects.RecordMerges | runtime/proxy-stack/proxy_stack.py:662-685 | a sighting goes into the first pending phone event of its interface whose connection is the same or unknown on either side: every field of the event afterwards, and the last 80 events |
| PhoneEventEffects.RecordAppends | runtime/proxy-stack/proxy_stack.py:686-707 | without such an event a pending one is appended: every field of it, and the last 80 events |
| PhoneEventEffects.ScanMarks | runtime/proxy-stack/proxy_stack.py:621-654 | a scan marks each phone event as present exactly when a plan has its interface, driver and connection, or one of the connections is unknown |
| PhoneEventEffects.ScanRecords | runtime/proxy-stack/proxy_stack.py:845-849 | a scan records a plan exactly when the policy saved under its key is neither of the two choices and no present event of its device was resolved by one of the three one-shot words |
| PhoneEventEffects.PromptsExactly | runtime/proxy-stack/proxy_stack.py:854-854 | a scan answers with the pending events of the file |
| PhoneEventEffects.PromptsInOrder | runtime/proxy-stack/proxy_stack.py:854-854 | in their order, each as often as it stands there |
| PhoneEventEffects.GuardDemotes | runtime/proxy-stack/proxy_stack.py:828-836 | for one of the four drivers, if nmcli works, the guard leaves both never-default settings at "yes" and both metrics at "9000" and every other setting and connection alone; otherwise no profile changes |
| PhoneEventEffects.GuardRecords | runtime/proxy-stack/proxy_stack.py:824-836 | for one of the four drivers the guard records exactly when no choice is saved, and never touches the policies |
| PhoneEventEffects.RefusedExactlyWhen | runtime/proxy-stack/proxy_stack.py:868-885 | which decisions on which event are refused as what, in terms of the five words, and that a refusal changes nothing |
| PhoneEventEffects.DecisionEffects | runtime/proxy-stack/proxy_stack.py:882-904 | what each of the five decisions leaves of the events, the saved policies and the connection profiles when it is accepted |
| PhoneEventEffects.UnknownIdRefused | runtime/proxy-stack/proxy_stack.py:872-874 | a decision on an identifier that no event has changes nothing |
| PhoneEventRuns.ReachableStores | runtime/proxy-stack/proxy_stack.py:657-707 | in every store reachable by scans, guards and decisions, pending prompts of one interface exclude each other, so a plan with a known connection has at most one merge target |
| PhoneEventRuns.RunKeepsInv | runtime/proxy-stack/proxy_stack.py:571-576 | over any run of undivided steps the file's ids are exactly the latest min(n, 80) ids ever appended |
| PhoneEventRuns.RunEvolves | runtime/proxy-stack/proxy_stack.py:657-904 | over any run of undivided steps no resolved event becomes pending, no known connection is replaced, and no event changes its id, interface or driver |
| PhoneEventRuns.SelectTouchesOne | runtime/proxy-stack/proxy_stack.py:868-904 | a decision changes one event of the log and leaves the others and their order alone |
| PhoneEventPrompts.SuppressionIgnoresStoredPresence | runtime/proxy-stack/proxy_stack.py:633-654 | during a scan a plan is suppressed exactly when a matching one-shot decision is in the log, whatever its presence flag was: unplugging lifts nothing |
| PhoneEventPrompts.OneShotDecisionSilencesScans | runtime/proxy-stack/proxy_stack.py:839-904 | after a one-shot decision, and any run that does not decide the same event again, a scan adds no event for that device while the decision is retained |
| PhoneEventPrompts.GuardPromptsDespiteDecisions | runtime/proxy-stack/proxy_stack.py:828-836 | under the prompt policy the guard always leaves a pending prompt, decisions or not |
| PhoneEventPrompts.ScanSettles | runtime/proxy-stack/proxy_stack.py:839-857 | with room in the log, one scan leaves every present prompt-policy device prompted or suppressed, and a second scan adds no event and changes no id or status |
| PhoneEventPrompts.RunKeepsDemoted | runtime/proxy-stack/proxy_stack.py:27-38 | no run gives a demoted phone connection its default route back |
| PhoneEventPrompts.DecisionOutcomes | runtime/proxy-stack/proxy_stack.py:868-904 | a decision for the phone ends with a non-empty demoted connection; a refused decision or a failed policy changes nothing; exactly when a decision is accepted |
| PhoneEventPrompts.AlwaysCoversExactlyWhen | runtime/proxy-stack/proxy_stack.py:530-559 | an "always" decision is saved as what it says, for the plans with the policy key of its event and no others |
| PhoneEventPrompts.OtherDecisionsSaveNothing | runtime/proxy-stack/proxy_stack.py:889-892 | no other decision touches the saved policies |
| PhoneEventPrompts.AlwaysDecisionSticks | runtime/proxy-stack/proxy_stack.py:828-904 | for a plan it covers, neither scans nor the guard record anything from then on, over any run of undivided steps |
| PhoneEventPrompts.UnboundDecisionAsksAgain | runtime/proxy-stack/proxy_stack.py:530-531 | taken while the connection was unknown, it covers no plan of that phone once the connection is known |
| PhoneEventWriters.ObserveIsRecord | runtime/proxy-stack/proxy_stack.py:657-707 | the write of an observation is what the recorder does to the file |
| PhoneEventWriters.MarkIsMark | runtime/proxy-stack/proxy_stack.py:839-844 | the write of presence flags is what a scan does to the file |
| PhoneEventWriters.ResolveIsSelect | runtime/proxy-stack/proxy_stack.py:895-903 | the write of a decision is what an accepted selection does to the file |
| PhoneEventWriters.EveryVersionDistinguished | runtime/proxy-stack/proxy_stack.py:562-576 | with unlocked writers that each rewrite any earlier version, every version of the file still keeps its prompts apart and its length bounded |
| PhoneEventWriters.DecidedExactlyWhen | runtime/proxy-stack/proxy_stack.py:562-576 | an event a write keeps is decided afterwards exactly when it was in the version the write is based on or the write decides it, and a prompt otherwise |
| PhoneEventWriters.DecisionsExactlyWhen | runtime/proxy-stack/proxy_stack.py:562-576 | in every history of unlocked writes, a version holds a decision exactly when its write made it or kept it from its base |
| PhoneEventWriters.DecisionStays | runtime/proxy-stack/proxy_stack.py:562-576 | a decision stays for as long as every later write is based on a version from the decision on and none drops its event |
| PhoneEventWriters.StaleWriteRevivesPrompt | runtime/proxy-stack/proxy_stack.py:562-576 | every history with a prompt can go on with a decision and a write based on the version before it, which makes the decided event a prompt again |
| PhoneEventHistories.WrittenEvent | runtime/proxy-stack/proxy_stack.py:562-707 | what one write makes of an event it keeps, whatever version it is based on: the same identity, one observation more exactly if it merges, and its base's connection unless that was unknown and the write merges one in |
| PhoneEventHistories.EveryEventHasOrigin | runtime/proxy-stack/proxy_stack.py:562-707 | however unlocked writes interleave, every event of every version has the id, interface and driver that some earlier write appended it with |
| PhoneEventHistories.LatestExactlyWhen | runtime/proxy-stack/proxy_stack.py:562-576 | a write leaves a file of the latest events so exactly when the ids it keeps of its base are those it would keep of the file: all, or all but the oldest if it appends to a full log |
| PhoneEventHistories.AllLatestExactlyWhen | runtime/proxy-stack/proxy_stack.py:562-576 | in every history of unlocked writes, all versions hold the latest min(n, 80) ids in order of arrival exactly when each write meets that condition |
| PhoneEventHistories.StaleAppendLosesEvent | runtime/proxy-stack/proxy_stack.py:562-707 | every history with a file of the latest events and room in it can go on with two appends based on the same version, after which the first one's event is gone |
| PhoneEventHistories.BoundExactlyWhen | runtime/proxy-stack/proxy_stack.py:562-707 | in every history, a version holds a known connection of an event exactly when its write took it over from its base, filled it in where the base did not know it, or appended the event with it |
| PhoneEventHistories.ConnectionStays | runtime/proxy-stack/proxy_stack.py:562-707 | a known connection stays for as long as every later write is based on a version from then on and none drops its event |
| PhoneEventHistories.StaleWriteRebinds | runtime/proxy-stack/proxy_stack.py:562-707 | every history with a prompt of unknown connection can go on with two observations based on it that bind it to one connection and then to another |
| PhonePolicyWriters.DecisionIsSave | runtime/proxy-stack/proxy_stack.py:553-559 | an accepted "always" decision is one save: one key changed |
| PhonePolicyWriters.ChoiceExactlyWhen | runtime/proxy-stack/proxy_stack.py:534-559 | in every history of unlocked saves, a version says about a plan what the last save of the plan's key on its chain of bases said, or else what the first version said |
| PhonePolicyWriters.CoverStays | runtime/proxy-stack/proxy_stack.py:534-559 | a covered plan stays covered, and unrecorded by scan and guard, for as long as every later save is based on a version from then on |
| PhonePolicyWriters.StaleSaveForgets | runtime/proxy-stack/proxy_stack.py:553-559 | every history whose last version does not cover a plan can go on with an "always" decision for it and a save of another key based on the version before, after which it is asked again |
| HostRouting.NormaliseIdempotent | runtime/proxy-stack/iphone_lan_split_proxy.py:88-89 | normalising a host name twice is normalising it once |
| HostRouting.NormalForm | runtime/proxy-stack/iphone_lan_split_proxy.py:88-89 | ASCII case and dots at the ends of a host make no difference |
| HostRouting.MatchesByLabels | runtime/proxy-stack/iphone_lan_split_proxy.py:88-90 | a pattern matches exactly when its dot-separated labels are the last labels of the host |
| HostRouting.ForcedRoute | runtime/proxy-stack/iphone_lan_split_proxy.py:162-166 | a pattern whose labels end the host's decides alone, force-proxy before force-direct and both before any address |
| HostRouting.PrivateExactlyWhen | runtime/proxy-stack/iphone_lan_split_proxy.py:28-41 | the program's private networks hold exactly the addresses of nine ranges of numbers |
| HostRouting.LiteralRoute | runtime/proxy-stack/iphone_lan_split_proxy.py:168-173 | without patterns and CN networks an IPv4 literal goes direct exactly when its number lies in those ranges, and to the proxy as foreign otherwise |
| HostRouting.NameRoute | runtime/proxy-stack/iphone_lan_split_proxy.py:177-194 | a name without a pattern whose answers are IPv4 addresses goes direct exactly when each is private or in a CN network, and to the proxy with the failure named when there is none |
| HostRouting.OddRoute | runtime/proxy-stack/iphone_lan_split_proxy.py:168-184 | IPv6 literals go to the proxy, and an answer that is no address raises |
| HostRouting.FirstIndirectDecides | runtime/proxy-stack/iphone_lan_split_proxy.py:185-194 | among readable answers the first that is not direct gives the reason |
| HostRouting.JudgeAnswersLoop | runtime/proxy-stack/iphone_lan_split_proxy.py:184-194 | the loop over the answers stops at the first that is not a direct IPv4 address, and otherwise tells private from CN |
| HostRouting.DirectExactlyWhen | runtime/proxy-stack/iphone_lan_split_proxy.py:137-194 | a route is direct exactly when no force-proxy pattern matches and a force-direct one does or the addresses are known and all private or CN |
| HostRouting.OrderAndRepeatsDoNotMatter | runtime/proxy-stack/iphone_lan_split_proxy.py:178-194 | two lists with the same answers give the same mode |
| HostRouting.MoreNetworksKeepDirect | runtime/proxy-stack/iphone_lan_split_proxy.py:137-194 | adding CN networks never turns direct into proxy |
| Ipv4.DottedRoundTrip | runtime/proxy-stack/iphone_lan_split_proxy.py:168-173 | every address is read back from its dotted text |
| Ipv4.AlignedRange | runtime/proxy-stack/iphone_lan_split_proxy.py:137-142 | an aligned network of n fixed bits holds exactly the 2^(32 - n) addresses from its base on |
| Ipv4.DottedValue | runtime/proxy-stack/iphone_lan_split_proxy.py:168-173 | a dotted text is read as 16777216 a + 65536 b + 256 c + d |
| Ipv4.ParsedIsDotted | runtime/proxy-stack/iphone_lan_split_proxy.py:168-173 | a text that is read as an address is its dotted text, so a literal host is its own answer |
| RouteCache.Shared.Route | runtime/proxy-stack/iphone_lan_split_proxy.py:218-228 | an uninterrupted call: an entry younger than 300 seconds is returned, otherwise choose_route decides and its answer is entered |
| RouteCache.EntryUsedExactlyWhen | runtime/proxy-stack/iphone_lan_split_proxy.py:218-228 | a call that looks after another has stored for the same key returns that decision without a computation exactly when it started less than 300 seconds after that call |
| RouteCache.RunKeepsInv | runtime/proxy-stack/iphone_lan_split_proxy.py:218-228 | under every interleaving every cached, pending and returned decision is one that was computed for its key at its time |
| RouteCache.EveryReturnIsFresh | runtime/proxy-stack/iphone_lan_split_proxy.py:218-228 | every decision returned was computed by choose_route for the same host by a call begun less than the time to live before, even if the clock jumps |
| RouteCache.DnsChangeTakesEffect | runtime/proxy-stack/iphone_lan_split_proxy.py:218-228 | once calls ask a new resolver, every call a full time to live later returns the new choice |
| RouteCache.CacheIsTransparent | runtime/proxy-stack/iphone_lan_split_proxy.py:218-228 | with a fixed resolver every call returns choose_route of its host |
| Pac.PacAgreesWithBlocks | agent/runtime_launcher.py:379-387 | the script's globs choose DIRECT for a dotted address exactly when its number lies in the blocks of section 3 of RFC 1918, and the split proxy's own list calls each such address private |
| Pac.PacDirectExactlyWhen | agent/runtime_launcher.py:379-387 | the script sends any host direct exactly when it has no dot, ends with `.local`, or begins with `10.`, `192.168.`, or `172.` and then 16 to 19, 2 and any character, 30 or 31 and a dot |
| Pac.NamesSentDirect | agent/runtime_launcher.py:379-387 | names that begin so are among them |
| Pac.ProxyAgreesWithPac | runtime/proxy-stack/iphone_lan_split_proxy.py:155-173 | what the script sends direct the split proxy routes direct too, unless a force-proxy pattern names it |
| HeadFraming.RecvHeaders | runtime/proxy-stack/iphone_lan_split_proxy.py:105-114 | the receive loop with its limit, against a function of the chunks |
| HeadFraming.ReadsExactly | runtime/proxy-stack/iphone_lan_split_proxy.py:105-114 | the receive loop returns the concatenation of the fewest chunks that hold a blank line, or of all when none does, and fails exactly when that is longer than the limit |
| HeadFraming.FindEndExactly | runtime/proxy-stack/iphone_lan_split_proxy.py:105-107 | the blank line is the first CR LF CR LF of the text |
| HeadFraming.AcceptedHead | runtime/proxy-stack/iphone_lan_split_proxy.py:105-114 | an accepted head is the head of the stream, whatever the chunking; what was read beyond it, which ReadsExactly says, is the start of the body |
| HeadFraming.DecidedByStream | runtime/proxy-stack/phone_egress_http_proxy.py:20-32 | a blank line that ends by 61441 is accepted under every chunking, one that ends after 65536 under none, and a stream without one exactly up to 65536 bytes |
| HeadFraming.AlwaysAcceptedExactlyWhen | runtime/proxy-stack/iphone_lan_split_proxy.py:105-114 | every chunking of a stream is accepted exactly when the stream has at most 65536 bytes or its blank line ends by 61441 |
| HeadFraming.EverAcceptedExactlyWhen | runtime/proxy-stack/iphone_lan_split_proxy.py:105-114 | some chunking is accepted exactly when the stream or its blank line ends by 65536 |
| HeadRewrite.ParseHeadersLoop | runtime/proxy-stack/iphone_lan_split_proxy.py:93-102 | the parser's loop, which skips empty lines and lines without a colon |
| HeadRewrite.BuildHead | runtime/proxy-stack/iphone_lan_split_proxy.py:331-336 | the loops that drop hop-by-hop headers, add `Connection: close` and write the head |
| HeadRewrite.LineParsed | runtime/proxy-stack/iphone_lan_split_proxy.py:97-101 | a header line is read as the name before its first colon and the value behind it, with any spaces around them or none |
| HeadRewrite.LineSkipped | runtime/proxy-stack/iphone_lan_split_proxy.py:98-99 | a line is no header exactly when it has no colon |
| HeadRewrite.HeadParsed | runtime/proxy-stack/iphone_lan_split_proxy.py:93-102 | a head of lines is read as its first line and what the other lines contribute |
| HeadRewrite.LinesContribute | runtime/proxy-stack/iphone_lan_split_proxy.py:96-101 | in their order |
| HeadRewrite.HeadWritten | runtime/proxy-stack/iphone_lan_split_proxy.py:333-336 | the head sent on is the request line and each header as name, colon, blank and value on a line of its own |
| HeadRewrite.SentOn | runtime/proxy-stack/iphone_lan_split_proxy.py:43-53 | the headers sent on are the inbound ones without the nine names, in any case, in order, and `Connection: close` |
| HeadRewrite.RewrittenHeadParsesBack | runtime/proxy-stack/iphone_lan_split_proxy.py:331-359 | for every request, cutting the rewritten head at its first blank line and parsing it gives back the request line and exactly the inbound end-to-end headers in order plus `Connection: close`, and the body untouched |
| HeadRewrite.RewritingTwiceIsOnce | runtime/proxy-stack/iphone_lan_split_proxy.py:331-332 | a second proxy of the same kind sends the same headers |
| HeadRewrite.OneHopByHopHeader | runtime/proxy-stack/iphone_lan_split_proxy.py:43-53 | only the added last header is hop-by-hop |
| HeadRewrite.NominatedRemovedExactlyWhen | runtime/proxy-stack/iphone_lan_split_proxy.py:331-331 | every header that a Connection header names is removed, as section 7.6.1 of RFC 9110 asks, exactly when each is in the fixed list |
| HeadRewrite.NominatedForwardedHappens | runtime/proxy-stack/iphone_lan_split_proxy.py:331-331 | any other header that a Connection header names alone is forwarded |
| HeadRewrite.FramingKeptExactlyWhen | runtime/proxy-stack/iphone_lan_split_proxy.py:331-342 | the head keeps the Transfer-Encoding of the body it is sent with exactly when there is none |
| HeadRewrite.FramingLostHappens | runtime/proxy-stack/iphone_lan_split_proxy.py:331-342 | for every value, a request with a Transfer-Encoding header is such a case |
| HeadRewrite.RequestLineHasNoBreak | runtime/proxy-stack/iphone_lan_split_proxy.py:333-333 | a request line of three words without white space holds no line break |
| Relay.Bridge.CloseBoth | runtime/proxy-stack/lan_tcp_bridge.py:60-69 | an end of stream unregisters, forgets and closes both sockets |
| Relay.Bridge.ServeRound | runtime/proxy-stack/lan_tcp_bridge.py:51-73 | one pass over the ready sockets: what was read and delivered, and the map before and after |
| Relay.Bridge.Run | runtime/proxy-stack/lan_tcp_bridge.py:34-81 | for every schedule the map is the two-element involution or empty at each loop head, and once the relay stops both sockets are closed and unregistered |
| Relay.Tunnel | runtime/proxy-stack/iphone_lan_split_proxy.py:240-259 | the tunnel handles exactly the events reported before its first empty or failed select |
| Relay.SeesUpTo | runtime/proxy-stack/iphone_lan_split_proxy.py:245-248 | the tunnel sees the reports up to the first error or timeout, and all of those |
| Relay.RunsExactlyWhen | runtime/proxy-stack/lan_tcp_bridge.py:51-73 | a relay still runs exactly when each event so far delivered at least one byte and sent all of it on |
| Relay.StopsExactlyAt | runtime/proxy-stack/lan_tcp_bridge.py:51-73 | the first other event stops it: what each side has then read and been delivered, and with which outcome |
| Relay.DeliveryFaithful | runtime/proxy-stack/phone_egress_http_proxy.py:105-124 | for every schedule of readiness, end of stream, errors and partial sends, each side is delivered a prefix of what was read from the other, and all of it unless a send failed, then in one direction only |
| Relay.DirectionsIndependent | runtime/proxy-stack/lan_tcp_bridge.py:34-81 | while it runs each direction delivers exactly its own data in order, however the two interleave |
| LanGateway.RenderedTableMeans | runtime/proxy-stack/proxy_stack.py:1417-1446 | what the rendered table does to every packet of every source, protocol and port |
| LanGateway.PlanOkExactlyWhen | runtime/proxy-stack/proxy_stack.py:1136-1154 | a plan is ok exactly when its client is an address of the LAN's block other than the host's and the router's and the interface has a safe name |
| LanGateway.PlanNeedsAll | runtime/proxy-stack/proxy_stack.py:1116-1147 | nothing may be missing, and an interface name with a quote, blank, brace, semicolon or line break is refused |
| LanGateway.Controller.RootApply | runtime/proxy-stack/proxy_stack.py:1449-1488 | table and marker after every combination of command outcomes, included deletions that only claim a missing table and deletions and loads that fail with or without effect, and when success is reported |
| LanGateway.Controller.RootRemove | runtime/proxy-stack/proxy_stack.py:1491-1501 | table and marker after every outcome of the deletion, failures that took effect included, and when success is reported |
| LanGateway.OthersUntouched | runtime/proxy-stack/proxy_stack.py:1417-1501 | over any run, failures and doubled rules included, no packet whose source was not the client of an ok plan is touched |
| LanGateway.TouchedInLan | runtime/proxy-stack/proxy_stack.py:1136-1154 | a packet that a run touches has the client of some apply for its source, in the block of that apply's LAN |
| LanGateway.HostAndRouterUntouched | runtime/proxy-stack/proxy_stack.py:1136-1154 | in particular never the host's nor the router's own packets |
| LanGateway.LoadedIsLastChange | runtime/proxy-stack/proxy_stack.py:1449-1501 | if deletions work, after any run what is loaded is what the last call that got as far as the deletion loaded: the rendering of its plan, even if the load was reported as failed, or nothing |
| LanGateway.ApplyAgreesExactlyWhen | runtime/proxy-stack/proxy_stack.py:1470-1487 | when marker and table still agree after an apply: an if and only if over all outcomes of all its commands |
| LanGateway.RemoveAgreesExactlyWhen | runtime/proxy-stack/proxy_stack.py:1491-1501 | when they still agree after a removal, likewise |
| LanGateway.RemoveAndCheck | runtime/proxy-stack/proxy_stack.py:1462-1501 | a working removal leaves neither table nor mark; one that is refused or fails without effect, or an apply whose `nft -c` fails, changes nothing |
| KeywordPatterns.Pattern.MatchWordGroups | agent/session_store.py:16-18 | the matcher finds exactly the groups of the pattern: keyword, separator with spaces, maximal value |
| KeywordPatterns.Pattern.ReplacedIsMasked | agent/session_store.py:31-32 | replacing makes no new match: every leftmost match of the result carries the mask |
| KeywordPatterns.Pattern.MaskedIsFixed | agent/session_store.py:31-32 | a text whose matches all carry the mask is left alone |
| KeywordPatterns.Pattern.ReplaceAt | agent/session_store.py:31-32 | at a match, key and separator stay, the value becomes the mask, and the rest is replaced on its own |
| KeywordPatterns.Pattern.ReachedReplaced | agent/session_store.py:31-32 | where the leftmost scan reaches a position, what stands before it makes no difference to whether two texts are replaced alike |
| Redaction.KeywordRedacted | agent/session_store.py:16-32 | behind the first separator of a text, when it follows one of the seven words in any mixture of cases, the value up to a space, comma or quote becomes "[redacted]", and the rest is redacted on its own |
| Redaction.OthersLeftAlone | agent/session_store.py:16-32 | an ASCII text in which none of the words has a separator behind it is left alone |
| Redaction.RedactedTextIsMasked | agent/session_store.py:31-32 | redact_text is idempotent and leaves no value but the mask |
| Redaction.FixedExactlyWhenMasked | agent/session_store.py:31-32 | a text is left alone exactly when all its matches carry the mask |
| Redaction.ValueHiddenExactlyWhen | agent/session_store.py:16-32 | for a value anywhere in a line: redaction is the same for any two values if no space follows the separator or the scan reaches the keyword, and otherwise differs for any two characters |
| Redaction.ValueLeftHappens | agent/session_store.py:16-32 | the second case occurs |
| Redaction.FieldRedacted | agent/session_store.py:35-48 | of an object every key stays, and exactly the values under one of the six words, in any mixture of cases, become the mask as a whole |
| Redaction.RedactedPayloadIsClean | agent/session_store.py:35-48 | at any depth no sensitive key keeps another value, every string is masked, and keys, lengths and other values stay |
| Redaction.RedactPayloadIdempotent | agent/session_store.py:35-48 | redact_payload is idempotent, and its fixed points are exactly the clean payloads |
| SessionPorts.PortRegistry.Allocate | agent/port_registry.py:23-33 | the first free of up to 64 answers, or failure exactly when none is free |
| SessionPorts.BuildSessionManifest | agent/port_registry.py:42-66 | fails when some listener finds 64 answers taken; otherwise the listeners asked for, on pairwise distinct sockets that were free |
| SessionPorts.BuildRuntimePlan | agent/runtime_launcher.py:31-60 | the children are the valid listeners in order, and the plan is ok exactly when all are valid |
| SessionPorts.ChildrenExactly | agent/runtime_launcher.py:31-60 | the children of a plan are the listeners with a host and a port from 1 to 65535 |
| SessionPorts.ManifestListeners | agent/port_registry.py:11-56 | a manifest has the five listeners on 127.0.0.1 in their order, and the LAN proxy last exactly when a LAN host was given and included |
| SessionPorts.PlanOfManifest | agent/runtime_launcher.py:31-60 | the plan of a manifest has one child per listener, and a LAN proxy child exactly when a LAN host was given and included |
| AgentRuntime.Agent.StopRuntime | agent/runtime_launcher.py:155-180 | kills each recorded child, forgets all of them, and reports ok exactly when no kill raised |
| AgentRuntime.Agent.StartRuntime | agent/runtime_launcher.py:63-146 | when the plan of the session's manifest is ok and has a LAN proxy, stops what was recorded, then records the one child it spawned; otherwise changes nothing |
| AgentRuntime.Agent.Status | agent/runtime_launcher.py:194-220 | running when some recorded child lives, stale when there are records but none lives, else stopped |
| AgentRuntime.Agent.WatchdogOnce | agent/gateway_agent.py:218-261 | the watchdog's three remedies in order, and what each leaves |
| AgentRuntime.SessionEnds | agent/gateway_agent.py:206-215 | ending a session removes it and the unlock token, forgets the child, and ends exactly the live recorded children whose kill took effect |
| AgentRuntime.StartLeaves | agent/runtime_launcher.py:63-146 | a start with valid listeners, one of them the LAN proxy's, replaces the recorded child by the one it spawned; any other changes nothing |
| AgentRuntime.WatchdogEffects | agent/gateway_agent.py:218-261 | which remedy a pass takes and the whole state it leaves |
| AgentRuntime.WatchdogConverges | agent/gateway_agent.py:218-261 | one pass settles the state whatever the kills do, a second one changes nothing, and `watch_ok` is reported exactly in settled states |
| AgentRuntime.StopAccountsExactlyWhen | agent/runtime_launcher.py:155-180 | a stop keeps every live child on record exactly when every kill of a live child ends it |
| AgentRuntime.RunAccounts | agent/runtime_launcher.py:106-180 | over any run at most one child is recorded, and if kills take effect every live child is |
| AgentRuntime.RunOwned | agent/gateway_agent.py:206-215 | over any run in which the session file is not lost, a recorded child belongs to a session |
| AgentRuntime.WatchdogClearsExactlyWhen | agent/gateway_agent.py:218-261 | without USB stick or profile, one pass ends every live child exactly when there is a session or no live child |
| AgentRuntime.LockedOutRunsNothing | agent/gateway_agent.py:218-261 | so over any such run, if kills take effect, one pass then leaves nothing running |
| AgentRuntime.LostSessionRunsOn | agent/gateway_agent.py:229-247 | a session file lost while its child runs: no pass touches the child again |
| AgentRuntime.ManifestStartable | agent/runtime_launcher.py:93-101 | the manifest of a session can be started exactly when a LAN host was given and included |
| RouteIds.RouteIdShape | agent/upstream_profile.py:103-110 | ids have at most 48 characters over [a-z0-9_-] and start with a letter or an underscore |
| RouteIds.TagNormalizes | agent/upstream_profile.py:103-110 | the identifier of a tag is its words in lower case with a hyphen for each gap, "route-" in front of a digit, cut to 48 characters |
| RouteIds.NormalizeAgain | agent/upstream_profile.py:103-110 | normalising again changes nothing exactly when the cut does not fall right behind a hyphen; a fixed point is reached after two applications |
| RouteIds.CutAtHyphenHappens | agent/upstream_profile.py:110-110 | a family of tags for which it does fall there |
| RoutePolicy.DecisionExistsExactlyWhen | agent/route_policy.py:7-18 | for every valid profile and target, exactly when the decision is direct or an existing route |
| RoutePolicy.DecidedByRule | agent/route_policy.py:7-18 | the route decided is the one that the rule for the host names, or `direct` or `new` when there is none |
| RoutePolicy.MissingDefaultHappens | agent/route_policy.py:7-18 | a valid profile with one direct route decides a route for a foreign host that it does not have |
| Profiles.RouteValidExactlyWhen | agent/profile_schema.py:104-138 | what each type of route must have to be valid, with the prefixes written out |
| Profiles.ReferencesResolve | agent/profile_schema.py:124-172 | in a valid profile every route that a failover order, the split rules, the default region or a region names exists |
| Profiles.ValidityRequires | agent/profile_schema.py:55-78 | a valid profile has routes, titles for its regions and no secret at any depth of any of its parts |
| Profiles.SecretFreeExactlyWhen | agent/profile_schema.py:175-183 | the search finds no inline secret exactly when no path leads to a field with a secret's name and a value that is not empty |
| Profiles.SecretKeyIsNamed | agent/profile_schema.py:10-10 | an ASCII key names a secret exactly when it is one of six words in any mixture of cases |
| UpstreamProfile.CollectLoop | agent/upstream_profile.py:38-54 | the loop over the outbounds keeps the first of each usable identifier |
| UpstreamProfile.CollectedAreAsked | agent/upstream_profile.py:38-54 | exactly the identifiers asked for are collected |
| UpstreamProfile.TagAsks | agent/upstream_profile.py:39-46 | an outbound asks for what its tag normalises to, if anything is left, with the tag as its title |
| UpstreamProfile.FirstAskWins | agent/upstream_profile.py:44-54 | of several outbounds with one identifier the first gets it, and identifiers are distinct |
| UpstreamProfile.BuiltProfileValid | agent/profile_schema.py:55-183 | the profile built passes validation exactly when no identifier is a secret's name |
| UpstreamProfile.ConvertsExactlyWhen | agent/upstream_profile.py:29-100 | the conversion succeeds exactly when some tag is usable and none normalises to a secret's name |
| UpstreamProfile.ConvertFails | agent/upstream_profile.py:30-57 | what an import without outbounds or without a usable tag reports |
| UpstreamProfile.FinalTaken | agent/upstream_profile.py:59-62 | the default region is what `final` names if an outbound asks for that, else what the first usable tag asks for, and foreign targets go there |
| UpstreamProfile.ConvertedRoutes | agent/upstream_profile.py:64-79 | a converted profile has an adapter route for each tag, the failover between the first two and the LAN proxy |
| UpstreamProfile.ConvertedRegions | agent/upstream_profile.py:64-99 | its regions are the tags, and the rest is fixed but for the name, the count and the default region |
| UpstreamProfile.ConvertedProfileRoutes | agent/route_policy.py:7-18 | under a converted profile every target goes direct or over an existing route, foreign ones over the default region |

## Left out

- Sockets, DNS, `nmcli`, `nft`, `systemctl`, sysfs and the files themselves: outcomes of calls are parameters, a file is a value that is read and replaced whole.
- Event fields that no decision reads: timestamps, message text and the list of choices. Event ids come from a stamp the environment gives and are not assumed unique.
- PhoneEventPrompts.ScanSettles: requires the devices of one scan to have distinct interface names, because discovery lists each interface of sysfs once; the second scan must see the same plans.
- PhoneEventController.Controller.ApplyConnectionPolicy: one nmcli call either applies the whole policy or changes nothing.
- LanGateway.RenderedTableMeans: the table is a syntax tree of rules with first-match semantics per chain, not the text handed to nft; set elements and hook priorities are not modelled. The IPv6 reject rule that docs/LAN_GATEWAY.md describes is not in this code.
- LanGateway.Controller.RootApply: of the refusals only that they change nothing is modelled, not the texts they report.
- HostRouting.DirectExactlyWhen: IPv6 literals are recognised by a parameter; resolving a host is a parameter that fails or returns address texts; lower-casing follows ISO-8859-1, the encoding request heads are decoded with.
- HeadRewrite.RewrittenHeadParsesBack: the request line is a parameter without line breaks (RequestLineHasNoBreak says why split() gives one); urlsplit, the choice of the host header and parse_host_port are not modelled.
- Relay.Bridge.Run: waiting for readiness without end is the end of the schedule; connecting upstream, the allow list and logging are not modelled.
- RouteIds.RouteIdShape: lower-casing is modelled as far as the pattern [^a-zA-Z0-9_-] can see it.
- UpstreamProfile.ConvertsExactlyWhen: profile fields that the validator reads are typed; a value of a wrong type is rejected where the source raises.
- RoutePolicy.DecidedByRule: whether a target's host is private or has a domestic ending is a parameter.
- UpstreamProfile.FinalTaken: identifiers of other than ASCII tags are known only by their shape (RouteIds.RouteIdShape).
- AgentRuntime.RunAccounts: process ids of new children are not assumed fresh, since a live process with the same id would be recorded anyway; the runtime directory is stable.
- parse_patterns, load_networks, lan_proxy_child.py (a third relay of the same form), hotspot and phone-egress commands, status, self-check and coverage reports: they would only add easy members.
- profile_crypto, unlock_server, profile migration, SessionStore's file modes and fallbacks: the work is done in libraries or is a sequence of file calls.
- The user interfaces, Swift and Tauri code and the shell scripts.
