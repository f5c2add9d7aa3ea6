/** Turning an imported upstream configuration into a profile. */
module UpstreamProfile {
  import opened Json
  import opened Options
  import opened Profiles
  import opened RouteIds
  import opened RoutePolicy
  import opened Strings
  import opened Text

  // What the converter reads of an outbound: its tag, if it is a text.
  datatype Outbound = NotAnObject | Outbound(tag: Option<string>)

  datatype Upstream = Upstream(outbounds: Option<seq<Outbound>>, final: Option<string>)

  datatype Result = Ok(profile: Profile) | NoOutbounds | NoTags | Invalid

  datatype Tagged = Tagged(id: string, title: string)

  function FailoverName(): string {
    "failover"
  }

  function LanProxyName(): string {
    "lanProxy"
  }

  // The identifier and title an outbound asks for: none when its tag is blank or keeps
  // no character.
  function TagOf(o: Outbound): (t: Option<Tagged>)
    ensures t.Some? ==> t.value.id != [] && t.value.title != []
  {
    if o.NotAnObject? || o.tag.None? || Strip(o.tag.value, IsSpace) == [] then None
    else
      var id := NormalizeRouteId(o.tag.value);
      if id == [] then None else Some(Tagged(id, o.tag.value))
  }

  predicate Taken(tags: seq<Tagged>, id: string) {
    exists i :: 0 <= i < |tags| && tags[i].id == id
  }

  function Asks(outbounds: seq<Outbound>): (asks: seq<Option<Tagged>>)
    ensures |asks| == |outbounds|
  {
    seq(|outbounds|, i requires 0 <= i < |outbounds| => TagOf(outbounds[i]))
  }

  // The first tag wins where several normalise to the same identifier.
  function Collect(asks: seq<Option<Tagged>>): seq<Tagged> {
    if asks == [] then []
    else
      var n := |asks| - 1;
      var tags, t := Collect(asks[..n]), asks[n];
      if t.Some? && !Taken(tags, t.value.id) then tags + [t.value] else tags
  }

  function AdapterRoute(t: Tagged): Route {
    Route(Adapter, None, None, None, true, Some(AuthRefPrefix() + t.id), Obj([Field("label", Str(t.title))]))
  }

  function Adapters(tags: seq<Tagged>): (es: seq<Entry>)
    ensures |es| == |tags|
    ensures forall i :: 0 <= i < |tags| ==> es[i] == Entry(tags[i].id, AdapterRoute(tags[i]))
  {
    seq(|tags|, i requires 0 <= i < |tags| => Entry(tags[i].id, AdapterRoute(tags[i])))
  }

  function IndexOf(es: seq<Entry>, id: string): (i: nat)
    ensures i <= |es|
    ensures i < |es| ==> es[i].id == id
    ensures i == |es| ==> forall k :: 0 <= k < i ==> es[k].id != id
  {
    if es == [] || es[0].id == id then 0 else 1 + IndexOf(es[1..], id)
  }

  // Assigning a key of a dictionary.
  function SetRoute(es: seq<Entry>, id: string, route: Route): seq<Entry> {
    var i := IndexOf(es, id);
    if i < |es| then es[i := Entry(id, route)] else es + [Entry(id, route)]
  }

  function FailoverRoute(tags: seq<Tagged>, default_: string): Route {
    var order := if |tags| > 1 then [tags[0].id, tags[1].id] else [default_, default_];
    Route(Failover, None, Some(order), None, false, None, Obj([]))
  }

  function LanRoute(): Route {
    Route(LanProxy, None, None, Some(CnPrivateDirect), false, None, Obj([]))
  }

  function DefaultRegion(tags: seq<Tagged>, final: Option<string>): string
    requires tags != []
  {
    var id := if final.Some? then NormalizeRouteId(final.value) else tags[0].id;
    if Taken(tags, id) then id else tags[0].id
  }

  function Regions(tags: seq<Tagged>): (rs: seq<Region>)
    ensures |rs| == |tags|
    ensures forall i :: 0 <= i < |tags| ==> rs[i] == Region(Some(tags[i].id), Some(tags[i].title), Obj([]))
  {
    seq(|tags|, i requires 0 <= i < |tags| => Region(Some(tags[i].id), Some(tags[i].title), Obj([])))
  }

  function Privacy(): Json {
    Obj([Field("logs", Str("redacted")), Field("state", Str("tmpfs-or-usb"))])
  }

  function Remainder(tags: seq<Tagged>, default_: string, name: string): Json {
    Obj([Field("name", Str(name)),
         Field("adapterSources", Obj([Field("singBoxUpstream",
           Obj([Field("outboundCount", Num(|tags|)), Field("defaultRoute", Str(default_))]))]))])
  }

  function Routes(tags: seq<Tagged>, default_: string): seq<Entry> {
    SetRoute(SetRoute(Adapters(tags), FailoverName(), FailoverRoute(tags, default_)), LanProxyName(), LanRoute())
  }

  function BuildProfile(tags: seq<Tagged>, default_: string, name: string): Profile {
    Profile(2, Routes(tags, default_),
            Split(Some(CnPrivateDirect), To(DirectName()), To(DirectName()), To(default_), Obj([])),
            Ui(Some(default_), Regions(tags), Obj([])),
            Privacy(), Remainder(tags, default_, name))
  }

  function Convert(u: Upstream, name: string): Result {
    if u.outbounds.None? || u.outbounds.value == [] then NoOutbounds
    else
      ConvertTags(Collect(Asks(u.outbounds.value)), u.final, name)
  }

  function ConvertTags(tags: seq<Tagged>, final: Option<string>, name: string): Result {
    if tags == [] then NoTags
    else
      var p := BuildProfile(tags, DefaultRegion(tags, final), name);
      if ValidProfile(p) then Ok(p) else Invalid
  }

  lemma CollectStep(asks: seq<Option<Tagged>>, i: nat)
    requires i < |asks|
    ensures var tags, t := Collect(asks[..i]), asks[i];
            Collect(asks[..i + 1]) ==
              if t.Some? && !Taken(tags, t.value.id) then tags + [t.value] else tags
  {
    assert asks[..i + 1][..i] == asks[..i];
  }

  // The loop of upstream_to_profile.
  method CollectLoop(outbounds: seq<Outbound>) returns (tags: seq<Tagged>)
    ensures tags == Collect(Asks(outbounds))
  {
    tags := [];
    var seen: set<string> := {};
    ghost var asks := Asks(outbounds);
    for i := 0 to |outbounds|
      invariant tags == Collect(asks[..i])
      invariant forall id :: id in seen <==> Taken(tags, id)
    {
      CollectStep(asks, i);
      var t := TagOf(outbounds[i]);
      if t.None? || t.value.id in seen {
        continue;
      }
      TakenAppend(tags, t.value);
      seen := seen + {t.value.id};
      tags := tags + [t.value];
    }
    assert asks[..|outbounds|] == asks;
  }

  lemma TakenAppend(tags: seq<Tagged>, t: Tagged)
    ensures forall id :: Taken(tags + [t], id) <==> Taken(tags, id) || id == t.id
  {
    var all := tags + [t];
    assert all[|tags|] == t;
    forall id | Taken(tags, id)
      ensures Taken(all, id)
    {
      var i :| 0 <= i < |tags| && tags[i].id == id;
      assert all[i] == tags[i];
    }
  }

  // ---- The tags collected ----

  ghost predicate Asked(asks: seq<Option<Tagged>>, id: string) {
    exists j :: 0 <= j < |asks| && asks[j].Some? && asks[j].value.id == id
  }

  lemma AskedAppend(asks: seq<Option<Tagged>>, t: Option<Tagged>)
    ensures forall id :: Asked(asks + [t], id) <==> Asked(asks, id) || (t.Some? && t.value.id == id)
  {
    var all := asks + [t];
    assert all[|asks|] == t;
    forall id | Asked(asks, id)
      ensures Asked(all, id)
    {
      var j :| 0 <= j < |asks| && asks[j].Some? && asks[j].value.id == id;
      assert all[j] == asks[j];
    }
  }

  // Exactly the identifiers asked for are collected.
  lemma {:induction false} CollectedAreAsked(asks: seq<Option<Tagged>>)
    ensures forall id :: Taken(Collect(asks), id) <==> Asked(asks, id)
  {
    if asks != [] {
      var n := |asks| - 1;
      CollectedAreAsked(asks[..n]);
      AskedAppend(asks[..n], asks[n]);
      assert asks == asks[..n] + [asks[n]];
      if asks[n].Some? {
        TakenAppend(Collect(asks[..n]), asks[n].value);
      }
    }
  }

  lemma {:induction false} CollectedAreTitled(asks: seq<Option<Tagged>>)
    requires forall j :: 0 <= j < |asks| && asks[j].Some? ==> asks[j].value.id != [] && asks[j].value.title != []
    ensures forall i :: 0 <= i < |Collect(asks)| ==> Collect(asks)[i].id != [] && Collect(asks)[i].title != []
  {
    if asks != [] {
      CollectedAreTitled(asks[..|asks| - 1]);
    }
  }

  // ---- The profile built ----

  // No collected identifier is the name of a secret.
  ghost predicate NoSecretIds(tags: seq<Tagged>) {
    forall i :: 0 <= i < |tags| ==> !IsSecretKey(tags[i].id)
  }

  // What every secret's name looks like.
  lemma SecretKeyShape(key: string)
    requires IsSecretKey(key)
    ensures 4 <= |key| <= 10 && |key| != 7 && |key| != 9
    ensures key[0] in "pstacPSTAC" && (|key| == 5 ==> key[0] in "tT") && (|key| == 8 ==> key[0] in "pP")
  {
    var w :| w in SecretKeys() && LowersToWord(key, w);
    assert LowersTo(key[0], w[0]);
  }

  lemma PlainKey(key: string)
    requires key != []
    requires |key| > 10 || key[0] !in "pstacPSTAC" || (|key| == 5 && key[0] !in "tT")
    ensures !IsSecretKey(key)
  {
    if IsSecretKey(key) {
      SecretKeyShape(key);
    }
  }

  lemma PlainKeys()
    ensures !IsSecretKey("label") && !IsSecretKey("logs") && !IsSecretKey("state") && !IsSecretKey("name")
    ensures !IsSecretKey("adapterSources") && !IsSecretKey("singBoxUpstream")
    ensures !IsSecretKey("outboundCount") && !IsSecretKey("defaultRoute")
    ensures !IsSecretKey(FailoverName()) && !IsSecretKey(LanProxyName())
  {
    PlainKey("label");
    PlainKey("logs");
    PlainKey("state");
    PlainKey("name");
    PlainKey("adapterSources");
    PlainKey("singBoxUpstream");
    PlainKey("outboundCount");
    PlainKey("defaultRoute");
    PlainKey(FailoverName());
    PlainKey(LanProxyName());
  }

  lemma FixedPartsSecretFree(tags: seq<Tagged>, default_: string, name: string)
    ensures SecretFree(Privacy()) && SecretFree(Obj([]))
    ensures SecretFree(Remainder(tags, default_, name))
  {
    PlainKeys();
    var counts := Obj([Field("outboundCount", Num(|tags|)), Field("defaultRoute", Str(default_))]);
    assert SecretFree(counts);
    var sources := Obj([Field("singBoxUpstream", counts)]);
    assert SecretFree(sources);
  }

  lemma TitleSecretFree(t: Tagged)
    ensures SecretFree(AdapterRoute(t).rest)
  {
    PlainKeys();
  }

  lemma SetRouteEntries(es: seq<Entry>, id: string, route: Route)
    ensures var r := SetRoute(es, id, route);
      && |es| <= |r| <= |es| + 1
      && (forall i :: 0 <= i < |es| ==> r[i].id == es[i].id)
      && (forall i :: 0 <= i < |r| ==> r[i] == Entry(id, route) || (i < |es| && r[i] == es[i]))
  {
  }

  // Each entry is the failover route, the LAN route, or the adapter of its tag.
  lemma RouteEntries(tags: seq<Tagged>, d: string)
    ensures var r := Routes(tags, d);
      && |tags| <= |r|
      && (forall i :: 0 <= i < |tags| ==> r[i].id == tags[i].id)
      && (forall i :: 0 <= i < |r| ==>
            || r[i] == Entry(FailoverName(), FailoverRoute(tags, d))
            || r[i] == Entry(LanProxyName(), LanRoute())
            || (i < |tags| && r[i] == Entry(tags[i].id, AdapterRoute(tags[i]))))
  {
    var first := SetRoute(Adapters(tags), FailoverName(), FailoverRoute(tags, d));
    SetRouteEntries(Adapters(tags), FailoverName(), FailoverRoute(tags, d));
    SetRouteEntries(first, LanProxyName(), LanRoute());
  }

  lemma TakenHasRoute(tags: seq<Tagged>, d: string, id: string)
    requires Taken(tags, id)
    ensures HasRoute(Routes(tags, d), id)
  {
    RouteEntries(tags, d);
    var i :| 0 <= i < |tags| && tags[i].id == id;
    assert Routes(tags, d)[i].id == id;
  }

  ghost predicate Titled(tags: seq<Tagged>) {
    forall i :: 0 <= i < |tags| ==> tags[i].id != [] && tags[i].title != []
  }

  lemma FailoverValid(tags: seq<Tagged>, d: string)
    requires tags != [] && Taken(tags, d)
    ensures ValidRoute(Entry(FailoverName(), FailoverRoute(tags, d)), Routes(tags, d))
  {
    var order := FailoverRoute(tags, d).order.value;
    forall i | 0 <= i < |order|
      ensures HasRoute(Routes(tags, d), order[i])
    {
      assert |tags| > 1 ==> order[i] == tags[i].id;
      TakenHasRoute(tags, d, order[i]);
    }
  }

  lemma AdapterValid(t: Tagged, routes: seq<Entry>)
    requires t.id != []
    ensures ValidRoute(Entry(t.id, AdapterRoute(t)), routes)
  {
  }

  lemma RoutesValid(tags: seq<Tagged>, d: string)
    requires tags != [] && Titled(tags) && Taken(tags, d)
    ensures var r := Routes(tags, d); forall i :: 0 <= i < |r| ==> ValidRoute(r[i], r)
  {
    var r := Routes(tags, d);
    RouteEntries(tags, d);
    FailoverValid(tags, d);
    forall i | 0 <= i < |r|
      ensures ValidRoute(r[i], r)
    {
      if i < |tags| {
        AdapterValid(tags[i], r);
      }
    }
  }

  lemma RoutesSecretFree(tags: seq<Tagged>, d: string)
    ensures var r := Routes(tags, d);
      (forall i :: 0 <= i < |r| ==> EntrySecretFree(r[i])) <==> NoSecretIds(tags)
  {
    var r := Routes(tags, d);
    RouteEntries(tags, d);
    PlainKeys();
    FixedPartsSecretFree(tags, d, "");
    forall i | 0 <= i < |r|
      ensures i < |tags| ==> (EntrySecretFree(r[i]) <==> !IsSecretKey(tags[i].id))
      ensures i >= |tags| ==> EntrySecretFree(r[i])
    {
      if i < |tags| {
        TitleSecretFree(tags[i]);
      }
    }
  }

  lemma UiValid(tags: seq<Tagged>, d: string)
    requires Titled(tags) && Taken(tags, d)
    ensures ValidUi(Ui(Some(d), Regions(tags), Obj([])), Routes(tags, d))
    ensures UiSecretFree(Ui(Some(d), Regions(tags), Obj([])))
  {
    var regions := Regions(tags);
    TakenHasRoute(tags, d, d);
    FixedPartsSecretFree(tags, d, "");
    forall i | 0 <= i < |regions|
      ensures ValidRegion(regions[i], Routes(tags, d)) && SecretFree(regions[i].rest)
    {
      TakenHasRoute(tags, d, tags[i].id);
    }
  }

  lemma BuiltWellFormed(tags: seq<Tagged>, d: string, name: string)
    requires tags != [] && Titled(tags) && Taken(tags, d)
    ensures WellFormed(BuildProfile(tags, d, name))
  {
    RouteEntries(tags, d);
    RoutesValid(tags, d);
    UiValid(tags, d);
    TakenHasRoute(tags, d, d);
  }

  lemma BuiltSecretFree(tags: seq<Tagged>, d: string, name: string)
    requires Titled(tags) && Taken(tags, d)
    ensures NoInlineSecrets(BuildProfile(tags, d, name)) <==> NoSecretIds(tags)
  {
    RoutesSecretFree(tags, d);
    UiValid(tags, d);
    FixedPartsSecretFree(tags, d, name);
  }

  lemma BuiltProfileValid(tags: seq<Tagged>, d: string, name: string)
    requires tags != [] && Titled(tags) && Taken(tags, d)
    ensures ValidProfile(BuildProfile(tags, d, name)) <==> NoSecretIds(tags)
  {
    BuiltWellFormed(tags, d, name);
    BuiltSecretFree(tags, d, name);
  }

  lemma DefaultIsTaken(tags: seq<Tagged>, final: Option<string>)
    requires tags != []
    ensures Taken(tags, DefaultRegion(tags, final))
  {
    assert tags[0].id == tags[0].id;
  }

  lemma SecretIdsTaken(tags: seq<Tagged>)
    ensures NoSecretIds(tags) <==> forall id :: Taken(tags, id) ==> !IsSecretKey(id)
  {
    assert forall i :: 0 <= i < |tags| ==> Taken(tags, tags[i].id);
  }

  // ---- The main results ----

  lemma TagsConvertExactlyWhen(tags: seq<Tagged>, final: Option<string>, name: string)
    requires Titled(tags)
    ensures ConvertTags(tags, final, name).Ok? <==> tags != [] && NoSecretIds(tags)
  {
    if tags != [] {
      DefaultIsTaken(tags, final);
      BuiltProfileValid(tags, DefaultRegion(tags, final), name);
    }
  }

  lemma CollectedOrAsked(outbounds: seq<Outbound>)
    ensures var asks := Asks(outbounds);
      && Titled(Collect(asks))
      && (Collect(asks) != [] <==> exists id :: Asked(asks, id))
      && (NoSecretIds(Collect(asks)) <==> forall id :: Asked(asks, id) ==> !IsSecretKey(id))
  {
    var asks := Asks(outbounds);
    var tags := Collect(asks);
    CollectedAreAsked(asks);
    AsksTitled(outbounds);
    CollectedAreTitled(asks);
    SecretIdsTaken(tags);
    if tags != [] {
      DefaultIsTaken(tags, None);
    } else {
      assert forall id :: !Taken(tags, id);
    }
  }

  /** The conversion succeeds exactly when some outbound has a usable tag and none asks
      for an identifier that is the name of a secret. */
  lemma ConvertsExactlyWhen(outbounds: seq<Outbound>, final: Option<string>, name: string)
    ensures Convert(Upstream(Some(outbounds), final), name).Ok? <==>
      && (exists id :: Asked(Asks(outbounds), id))
      && (forall id :: Asked(Asks(outbounds), id) ==> !IsSecretKey(id))
  {
    CollectedOrAsked(outbounds);
    var tags := Collect(Asks(outbounds));
    TagsConvertExactlyWhen(tags, final, name);
    if outbounds != [] {
      assert Convert(Upstream(Some(outbounds), final), name) == ConvertTags(tags, final, name);
    } else {
      assert tags == [];
    }
  }

  lemma AsksTitled(outbounds: seq<Outbound>)
    ensures forall j :: 0 <= j < |outbounds| && Asks(outbounds)[j].Some? ==>
      Asks(outbounds)[j].value.id != [] && Asks(outbounds)[j].value.title != []
  {
    forall j | 0 <= j < |outbounds|
      ensures Asks(outbounds)[j] == TagOf(outbounds[j])
    {
    }
  }

  /** Under a converted profile every target goes direct or over an existing route, and
      a foreign one over the default region. */
  lemma ConvertedProfileRoutes(outbounds: seq<Outbound>, final: Option<string>, name: string, host: Host, p: Profile)
    requires Convert(Upstream(Some(outbounds), final), name) == Ok(p)
    ensures Exists(DecideRoute(host, p), p)
    ensures var tags := Collect(Asks(outbounds));
      tags != [] && DecideRoute(host, p) == Via(if host.ForeignHost? then DefaultRegion(tags, final) else DirectName())
  {
    DecisionExistsExactlyWhen(host, p);
  }

  // ---- What is taken from the import ----

  /** An outbound asks for what its tag normalises to, if anything is left of it. */
  lemma TagAsks(tag: string)
    ensures TagOf(NotAnObject) == TagOf(Outbound(None)) == None
    ensures TagOf(Outbound(Some(tag))) ==
      if NormalizeRouteId(tag) == [] then None else Some(Tagged(NormalizeRouteId(tag), tag))
  {
    BlankNormalizes(tag);
  }

  // No two tags have the same identifier.
  ghost predicate Distinct(tags: seq<Tagged>) {
    forall i, j :: 0 <= i < j < |tags| ==> tags[i].id != tags[j].id
  }

  /** The first outbound that asks for an identifier gets it, with its tag for a title. */
  lemma {:induction false} FirstAskWins(asks: seq<Option<Tagged>>, j: nat)
    requires j < |asks| && asks[j].Some?
    requires forall i :: 0 <= i < j && asks[i].Some? ==> asks[i].value.id != asks[j].value.id
    ensures asks[j].value in Collect(asks) && Distinct(Collect(asks))
  {
    var n := |asks| - 1;
    if j < n {
      FirstAskWins(asks[..n], j);
    } else {
      CollectedDistinct(asks[..n]);
      CollectedAreAsked(asks[..n]);
    }
    if asks[n].Some? && !Taken(Collect(asks[..n]), asks[n].value.id) {
      DistinctAppend(Collect(asks[..n]), asks[n].value);
    }
  }

  lemma DistinctAppend(tags: seq<Tagged>, t: Tagged)
    requires Distinct(tags) && !Taken(tags, t.id)
    ensures Distinct(tags + [t])
  {
  }

  lemma {:induction false} CollectedDistinct(asks: seq<Option<Tagged>>)
    ensures Distinct(Collect(asks))
  {
    if asks != [] {
      var n := |asks| - 1;
      CollectedDistinct(asks[..n]);
      if asks[n].Some? && !Taken(Collect(asks[..n]), asks[n].value.id) {
        DistinctAppend(Collect(asks[..n]), asks[n].value);
      }
    }
  }

  /** The first ask comes first. */
  lemma {:induction false} FirstAskFirst(asks: seq<Option<Tagged>>, j: nat)
    requires j < |asks| && asks[j].Some? && forall i :: 0 <= i < j ==> asks[i].None?
    ensures Collect(asks) != [] && Collect(asks)[0] == asks[j].value
  {
    var n := |asks| - 1;
    if j < n {
      FirstAskFirst(asks[..n], j);
    } else {
      NoneCollected(asks[..n]);
    }
  }

  lemma {:induction false} NoneCollected(asks: seq<Option<Tagged>>)
    requires forall i :: 0 <= i < |asks| ==> asks[i].None?
    ensures Collect(asks) == []
  {
    if asks != [] {
      NoneCollected(asks[..|asks| - 1]);
    }
  }

  /** The default region is what `final` names, if an outbound asks for that, and otherwise
      what the first outbound with a usable tag asks for; foreign targets go there. */
  lemma FinalTaken(
      outbounds: seq<Outbound>, final: Option<string>, name: string, p: Profile, j: nat, region: string)
    requires Convert(Upstream(Some(outbounds), final), name) == Ok(p)
    requires j < |outbounds| && TagOf(outbounds[j]).Some? && forall i :: 0 <= i < j ==> TagOf(outbounds[i]).None?
    requires region ==
      if final.Some? && Asked(Asks(outbounds), NormalizeRouteId(final.value)) then NormalizeRouteId(final.value)
      else TagOf(outbounds[j]).value.id
    ensures p.ui.Ui? && p.ui.defaultRegion == Some(region)
    ensures DecideRoute(ForeignHost, p) == Via(region)
  {
    var asks := Asks(outbounds);
    AsksAre(outbounds);
    CollectedAreAsked(asks);
    FirstAskFirst(asks, j);
    assert Taken(Collect(asks), Collect(asks)[0].id);
    ConvertedProfileRoutes(outbounds, final, name, ForeignHost, p);
  }

  lemma AsksAre(outbounds: seq<Outbound>)
    ensures forall j :: 0 <= j < |outbounds| ==> Asks(outbounds)[j] == TagOf(outbounds[j])
  {
  }

  /** A converted profile has a route through the adapter for each tag, then the failover
      between the first two and the LAN proxy; a tag `failover` loses its own route. */
  lemma ConvertedRoutes(outbounds: seq<Outbound>, final: Option<string>, name: string, p: Profile, tags: seq<Tagged>)
    requires Convert(Upstream(Some(outbounds), final), name) == Ok(p) && tags == Collect(Asks(outbounds))
    ensures |tags| <= |p.routes|
    ensures forall i :: 0 <= i < |tags| && tags[i].id != "failover" && tags[i].id != "lanProxy" ==>
      p.routes[i] == Entry(tags[i].id, Route(Adapter, None, None, None, true,
        Some("adapter:sing-box:" + tags[i].id), Obj([Field("label", Str(tags[i].title))])))
    ensures exists e <- p.routes ::
      && e.id == "failover" && e.route.Route? && e.route.kind == Failover
      && e.route.order == Some(
           if |tags| > 1 then [tags[0].id, tags[1].id]
           else [DefaultRegion(tags, final), DefaultRegion(tags, final)])
    ensures exists e <- p.routes ::
      && e.id == "lanProxy" && e.route.Route? && e.route.kind == LanProxy
      && e.route.policy == Some(CnPrivateDirect)
  {
    var d := DefaultRegion(tags, final);
    RouteEntries(tags, d);
    SetRouteHolds(Adapters(tags), FailoverName(), FailoverRoute(tags, d));
    var first := SetRoute(Adapters(tags), FailoverName(), FailoverRoute(tags, d));
    SetRouteHolds(first, LanProxyName(), LanRoute());
    SetRouteKeeps(first, LanProxyName(), LanRoute(), Entry(FailoverName(), FailoverRoute(tags, d)));
  }

  /** Its regions are the tags, and the rest is the same for every import but for the name,
      the number of tags and the default region. */
  lemma ConvertedRegions(outbounds: seq<Outbound>, final: Option<string>, name: string, p: Profile, tags: seq<Tagged>)
    requires Convert(Upstream(Some(outbounds), final), name) == Ok(p) && tags == Collect(Asks(outbounds))
    ensures p.ui.Ui? && |p.ui.regions| == |tags|
    ensures forall i :: 0 <= i < |tags| ==> p.ui.regions[i] == Region(Some(tags[i].id), Some(tags[i].title), Obj([]))
    ensures p.version == 2 && p.privacy == Obj([Field("logs", Str("redacted")), Field("state", Str("tmpfs-or-usb"))])
    ensures tags != [] && p.rest == Obj([
      Field("name", Str(name)),
      Field("adapterSources", Obj([Field("singBoxUpstream", Obj([
        Field("outboundCount", Num(|tags|)),
        Field("defaultRoute", Str(DefaultRegion(tags, final)))]))]))])
  {
  }

  /** What a failing import reports. */
  lemma ConvertFails(u: Upstream, name: string)
    ensures Convert(u, name).NoOutbounds? <==> u.outbounds == None || u.outbounds == Some([])
    ensures u.outbounds.Some? && u.outbounds.value != [] ==>
      (Convert(u, name).NoTags? <==> forall id :: !Asked(Asks(u.outbounds.value), id))
  {
    if u.outbounds.Some? {
      TagsFail(Collect(Asks(u.outbounds.value)), u.final, name);
      SomeCollected(u.outbounds.value);
    }
  }

  lemma TagsFail(tags: seq<Tagged>, final: Option<string>, name: string)
    ensures !ConvertTags(tags, final, name).NoOutbounds?
    ensures ConvertTags(tags, final, name).NoTags? <==> tags == []
  {
  }

  lemma SomeCollected(outbounds: seq<Outbound>)
    ensures Collect(Asks(outbounds)) == [] <==> forall id :: !Asked(Asks(outbounds), id)
  {
    CollectedOrAsked(outbounds);
  }

  lemma SetRouteHolds(es: seq<Entry>, id: string, route: Route)
    ensures Entry(id, route) in SetRoute(es, id, route)
  {
    var i, r := IndexOf(es, id), SetRoute(es, id, route);
    assert r[i] == Entry(id, route);
  }

  lemma SetRouteKeeps(es: seq<Entry>, id: string, route: Route, e: Entry)
    requires e in es && e.id != id
    ensures e in SetRoute(es, id, route)
  {
    var i :| 0 <= i < |es| && es[i] == e;
    assert SetRoute(es, id, route)[i] == e;
  }
}
