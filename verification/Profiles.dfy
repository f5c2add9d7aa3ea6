/** Profiles and their validation. The fields the validator reads are pulled out of
    the JSON object; what it only searches for inline secrets stays JSON (`rest`). */
module Profiles {
  import opened Json
  import opened Options
  import opened Text

  const SUPPORTED_VERSION := 2

  function SecretKeys(): seq<string> {
    ["password", "passwd", "secret", "token", "auth", "credential"]
  }

  function DirectName(): string {
    "direct"
  }

  function AuthRefPrefix(): string {
    "adapter:sing-box:"
  }

  datatype RouteType = Http | Socks | Failover | LanProxy | DirectType | Adapter | UnsupportedType

  datatype SplitPolicy = CnPrivateDirect | AllProxy | AllDirect | UnsupportedPolicy

  datatype Route =
    | Route(kind: RouteType, endpoint: Option<string>, order: Option<seq<string>>, policy: Option<SplitPolicy>,
            singBox: bool, authRef: Option<string>, rest: Json)
    | NotARoute(json: Json)

  datatype Entry = Entry(id: string, route: Route)

  // A split-rule target: absent, present but falsy, a non-empty text, anything else.
  datatype Target = Missing | Falsy | To(route: string) | NotText

  datatype Split =
    | NoSplit
    | FalsySplit
    | Split(policy: Option<SplitPolicy>, domestic: Target, private_: Target, foreign: Target, rest: Json)
    | NotASplit

  datatype Region = Region(id: Option<string>, title: Option<string>, rest: Json) | NotARegion

  datatype Ui = NoUi | Ui(defaultRegion: Option<string>, regions: seq<Region>, rest: Json) | NotAUi

  datatype Profile = Profile(version: int, routes: seq<Entry>, split: Split, ui: Ui, privacy: Json, rest: Json)

  predicate HasRoute(routes: seq<Entry>, id: string) {
    exists i :: 0 <= i < |routes| && routes[i].id == id
  }

  predicate StartsWith(s: string, p: string) {
    |p| <= |s| && s[..|p|] == p
  }

  predicate LocalOrUrl(s: string) {
    StartsWith(s, "http://") || StartsWith(s, "socks5://") || StartsWith(s, "127.0.0.1") || StartsWith(s, "localhost")
  }

  predicate ValidRoute(e: Entry, routes: seq<Entry>) {
    && e.id != [] && e.route.Route?
    && match e.route.kind
       case Http => e.route.endpoint.Some? && LocalOrUrl(e.route.endpoint.value)
       case Socks => e.route.endpoint.Some? && LocalOrUrl(e.route.endpoint.value)
       case Failover =>
         && e.route.order.Some? && |e.route.order.value| >= 2
         && forall i :: 0 <= i < |e.route.order.value| ==> HasRoute(routes, e.route.order.value[i])
       case LanProxy => e.route.policy.None? || !e.route.policy.value.UnsupportedPolicy?
       case DirectType => true
       case Adapter => e.route.singBox && e.route.authRef.Some? && StartsWith(e.route.authRef.value, AuthRefPrefix())
       case UnsupportedType => false
  }

  predicate ValidTarget(t: Target, routes: seq<Entry>) {
    match t
    case Missing => true
    case Falsy => true
    case To(route) => route == DirectName() || HasRoute(routes, route)
    case NotText => false
  }

  predicate ValidSplit(s: Split, routes: seq<Entry>) {
    match s
    case NoSplit => true
    case FalsySplit => true
    case NotASplit => false
    case Split(policy, domestic, private_, foreign, _) =>
      && (policy.None? || !policy.value.UnsupportedPolicy?)
      && ValidTarget(domestic, routes) && ValidTarget(private_, routes) && ValidTarget(foreign, routes)
  }

  predicate ValidRegion(r: Region, routes: seq<Entry>) {
    && r.Region? && r.id.Some? && HasRoute(routes, r.id.value)
    && r.title.Some? && r.title.value != []
  }

  predicate ValidUi(u: Ui, routes: seq<Entry>) {
    match u
    case NoUi => true
    case NotAUi => false
    case Ui(defaultRegion, regions, _) =>
      && (defaultRegion.None? || HasRoute(routes, defaultRegion.value))
      && forall i :: 0 <= i < |regions| ==> ValidRegion(regions[i], routes)
  }

  // ---- Inline secrets ----

  predicate IsSecretKey(key: string) {
    exists w <- SecretKeys() :: LowersToWord(key, w)
  }

  predicate Truthy(j: Json) {
    match j
    case Null => false
    case Bool(b) => b
    case Num(n) => n != 0
    case Str(s) => s != []
    case Arr(items) => items != []
    case Obj(fields) => fields != []
  }

  predicate SecretFree(j: Json) {
    match j
    case Obj(fields) =>
      forall i :: 0 <= i < |fields| ==>
        !(IsSecretKey(fields[i].key) && Truthy(fields[i].value)) && SecretFree(fields[i].value)
    case Arr(items) => forall i :: 0 <= i < |items| ==> SecretFree(items[i])
    case _ => true
  }

  // A route is a non-empty object, so its identifier must not be a secret's name.
  predicate EntrySecretFree(e: Entry) {
    match e.route
    case Route(_, _, _, _, _, _, rest) => !IsSecretKey(e.id) && SecretFree(rest)
    case NotARoute(json) => !(IsSecretKey(e.id) && Truthy(json)) && SecretFree(json)
  }

  predicate SplitSecretFree(s: Split) {
    s.Split? ==> SecretFree(s.rest)
  }

  predicate UiSecretFree(u: Ui) {
    u.Ui? ==>
      && SecretFree(u.rest)
      && forall i :: 0 <= i < |u.regions| ==> u.regions[i].Region? ==> SecretFree(u.regions[i].rest)
  }

  predicate NoInlineSecrets(p: Profile) {
    && (forall i :: 0 <= i < |p.routes| ==> EntrySecretFree(p.routes[i]))
    && SplitSecretFree(p.split) && UiSecretFree(p.ui) && SecretFree(p.privacy) && SecretFree(p.rest)
  }

  predicate WellFormed(p: Profile) {
    && p.version == SUPPORTED_VERSION
    && p.routes != []
    && (forall i :: 0 <= i < |p.routes| ==> ValidRoute(p.routes[i], p.routes))
    && ValidSplit(p.split, p.routes)
    && ValidUi(p.ui, p.routes)
    && (Truthy(p.privacy) ==> p.privacy.Obj?)
  }

  predicate ValidProfile(p: Profile) {
    WellFormed(p) && NoInlineSecrets(p)
  }

  // ---- What validation finds ----

  lemma SecretKeyIsNamed(key: string)
    requires IsAscii(key)
    ensures IsSecretKey(key) <==> NamesSecret(key)
  {
    forall w <- SecretKeys()
      ensures LowersToWord(key, w) <==> Cased(key, w)
    {
      CasedLowers(key, w);
    }
  }

  // What a path of positions leads to.
  ghost function At(j: Json, path: seq<nat>): Option<Json>
    decreases |path|
  {
    if path == [] then Some(j)
    else if j.Obj? && path[0] < |j.fields| then At(j.fields[path[0]].value, path[1..])
    else if j.Arr? && path[0] < |j.items| then At(j.items[path[0]], path[1..])
    else None
  }

  // The values that Python takes for false.
  predicate Empty(j: Json) {
    j == Null || j == Bool(false) || j == Num(0) || j == Str("") || j == Arr([]) || j == Obj([])
  }

  lemma EmptyIsFalsy(j: Json)
    ensures Truthy(j) <==> !Empty(j)
  {
  }

  // Field i of the object at the path has a secret's name and is not empty.
  ghost predicate ShowsSecret(j: Json, path: seq<nat>, i: nat) {
    var o := At(j, path);
    && o.Some? && o.value.Obj? && i < |o.value.fields|
    && IsSecretKey(o.value.fields[i].key) && !Empty(o.value.fields[i].value)
  }

  lemma {:induction false} FreeShowsNone(j: Json, path: seq<nat>, i: nat)
    requires SecretFree(j)
    ensures !ShowsSecret(j, path, i)
    decreases |path|
  {
    if path == [] {
      if j.Obj? && i < |j.fields| {
        EmptyIsFalsy(j.fields[i].value);
      }
    } else if j.Obj? && path[0] < |j.fields| {
      FreeShowsNone(j.fields[path[0]].value, path[1..], i);
    } else if j.Arr? && path[0] < |j.items| {
      FreeShowsNone(j.items[path[0]], path[1..], i);
    }
  }

  lemma {:induction false} SecretShown(j: Json) returns (path: seq<nat>, i: nat)
    requires !SecretFree(j)
    ensures ShowsSecret(j, path, i)
  {
    if j.Obj? {
      var k: nat :| k < |j.fields|
        && ((IsSecretKey(j.fields[k].key) && Truthy(j.fields[k].value)) || !SecretFree(j.fields[k].value));
      if IsSecretKey(j.fields[k].key) && Truthy(j.fields[k].value) {
        EmptyIsFalsy(j.fields[k].value);
        path, i := [], k;
      } else {
        path, i := SecretShown(j.fields[k].value);
        assert ([k] + path)[1..] == path;
        path := [k] + path;
      }
    } else {
      var k: nat :| k < |j.items| && !SecretFree(j.items[k]);
      path, i := SecretShown(j.items[k]);
      assert ([k] + path)[1..] == path;
      path := [k] + path;
    }
  }

  /** No inline secret is found exactly when there is none at any depth. */
  lemma SecretFreeExactlyWhen(j: Json)
    ensures SecretFree(j) <==> forall path, i :: !ShowsSecret(j, path, i)
  {
    if SecretFree(j) {
      forall path: seq<nat>, i: nat
        ensures !ShowsSecret(j, path, i)
      {
        FreeShowsNone(j, path, i);
      }
    } else {
      var path, i := SecretShown(j);
    }
  }

  ghost predicate Begins(s: Option<string>, fronts: seq<string>) {
    s.Some? && exists p <- fronts, rest: string :: s.value == p + rest
  }

  lemma StartIsFront(s: string, p: string)
    ensures StartsWith(s, p) <==> exists rest: string :: s == p + rest
  {
    if StartsWith(s, p) {
      assert s == p + s[|p|..];
    }
  }

  /** Which endpoints are local or URLs. */
  lemma EndpointsAccepted(s: string)
    ensures LocalOrUrl(s) <==> Begins(Some(s), ["http://", "socks5://", "127.0.0.1", "localhost"])
  {
    var fronts := ["http://", "socks5://", "127.0.0.1", "localhost"];
    assert fronts[0] in fronts && fronts[1] in fronts && fronts[2] in fronts && fronts[3] in fronts;
    StartIsFront(s, fronts[0]);
    StartIsFront(s, fronts[1]);
    StartIsFront(s, fronts[2]);
    StartIsFront(s, fronts[3]);
  }

  lemma AuthRefsAccepted(s: string)
    ensures StartsWith(s, AuthRefPrefix()) <==> Begins(Some(s), ["adapter:sing-box:"])
  {
    var fronts := ["adapter:sing-box:"];
    assert fronts[0] in fronts;
    StartIsFront(s, fronts[0]);
  }

  /** What each type of route must have. */
  lemma RouteValidExactlyWhen(e: Entry, routes: seq<Entry>)
    requires e.route.Route?
    ensures ValidRoute(e, routes) <==>
      && e.id != ""
      && (e.route.kind in {Http, Socks} ==>
            Begins(e.route.endpoint, ["http://", "socks5://", "127.0.0.1", "localhost"]))
      && (e.route.kind == Failover ==> e.route.order.Some? && InOrder(e.route.order.value, routes))
      && (e.route.kind == LanProxy ==> e.route.policy != Some(UnsupportedPolicy))
      && (e.route.kind == Adapter ==> e.route.singBox && Begins(e.route.authRef, ["adapter:sing-box:"]))
      && e.route.kind != UnsupportedType
  {
    match e.route.kind
    case Http =>
      if e.route.endpoint.Some? {
        EndpointsAccepted(e.route.endpoint.value);
      }
    case Socks =>
      if e.route.endpoint.Some? {
        EndpointsAccepted(e.route.endpoint.value);
      }
    case Failover =>
      if e.route.order.Some? {
        OrderAccepted(e.route.order.value, routes);
      }
    case Adapter =>
      if e.route.authRef.Some? {
        AuthRefsAccepted(e.route.authRef.value);
      }
    case _ =>
  }

  // At least two items, each the identifier of a route.
  ghost predicate InOrder(order: seq<string>, routes: seq<Entry>) {
    |order| >= 2 && forall id <- order :: exists f <- routes :: f.id == id
  }

  lemma OrderAccepted(order: seq<string>, routes: seq<Entry>)
    ensures |order| >= 2 && (forall i :: 0 <= i < |order| ==> HasRoute(routes, order[i])) <==>
      InOrder(order, routes)
  {
    forall id: string
      ensures HasRoute(routes, id) <==> exists f <- routes :: f.id == id
    {
      RouteIn(routes, id);
    }
    assert forall i :: 0 <= i < |order| ==> order[i] in order;
  }

  lemma RouteIn(routes: seq<Entry>, id: string)
    ensures HasRoute(routes, id) <==> exists f <- routes :: f.id == id
  {
    if HasRoute(routes, id) {
      var i :| 0 <= i < |routes| && routes[i].id == id;
      assert routes[i] in routes;
    }
  }

  // A route the profile has, or the direct one.
  predicate Resolves(p: Profile, id: string) {
    id == "direct" || exists e <- p.routes :: e.id == id
  }

  /** In a valid profile every reference leads to a route: those of a failover order, of
      the split rules, of the default region and of the regions. */
  lemma ReferencesResolve(p: Profile, id: string)
    requires ValidProfile(p)
    requires
      || (exists e <- p.routes :: e.route.Route? && e.route.kind == Failover
            && e.route.order.Some? && id in e.route.order.value)
      || (p.split.Split? && To(id) in {p.split.domestic, p.split.private_, p.split.foreign})
      || (p.ui.Ui? && p.ui.defaultRegion == Some(id))
      || (p.ui.Ui? && exists r <- p.ui.regions :: r.Region? && r.id == Some(id))
    ensures Resolves(p, id) && p.version == 2
  {
    if HasRoute(p.routes, id) {
      var i :| 0 <= i < |p.routes| && p.routes[i].id == id;
      assert p.routes[i] in p.routes;
    }
  }

  // What is kept as JSON of a profile.
  ghost predicate IsPart(j: Json, p: Profile) {
    || j == p.privacy || j == p.rest
    || (p.split.Split? && j == p.split.rest)
    || (p.ui.Ui? && j == p.ui.rest)
    || (p.ui.Ui? && exists r <- p.ui.regions :: r.Region? && j == r.rest)
    || (exists e <- p.routes :: e.route.Route? && j == e.route.rest)
  }

  /** Besides, a valid profile has a route and a title for each region, no route is named
      like a secret, and none of its parts shows a secret at any depth. */
  lemma ValidityRequires(p: Profile, j: Json, path: seq<nat>, i: nat)
    requires ValidProfile(p)
    ensures p.routes != [] && (Empty(p.privacy) || p.privacy.Obj?)
    ensures forall e <- p.routes :: e.id != "" && e.route.Route? && !IsSecretKey(e.id)
    ensures p.ui.Ui? ==> forall r <- p.ui.regions :: r.Region? && r.title.Some? && r.title.value != ""
    ensures IsPart(j, p) ==> !ShowsSecret(j, path, i)
  {
    EmptyIsFalsy(p.privacy);
    if IsPart(j, p) {
      FreeShowsNone(j, path, i);
    }
  }
}
