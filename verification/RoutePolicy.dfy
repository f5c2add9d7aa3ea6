/** Which route of a profile a target takes. */
module RoutePolicy {
  import opened Json
  import opened Options
  import opened Profiles

  function ForeignDefault(): string {
    "new"
  }

  // The name in a decision; NoName where the profile holds a falsy value, Raises
  // where the split rules are no object.
  datatype Routed = Raises | NoName | Via(route: string)

  // What is known of a target's host.
  datatype Host = PrivateHost | DomesticHost | ForeignHost

  function Pick(t: Target, default_: string): Routed {
    match t
    case Missing => Via(default_)
    case To(route) => Via(route)
    case _ => NoName
  }

  function DecideRoute(host: Host, p: Profile): Routed {
    match p.split
    case NoSplit => Via(if host.ForeignHost? then ForeignDefault() else DirectName())
    case FalsySplit => Raises
    case NotASplit => Raises
    case Split(policy, domestic, private_, foreign, _) =>
      if policy == Some(AllDirect) then Via(DirectName())
      else if policy == Some(AllProxy) then Pick(foreign, ForeignDefault())
      else
        match host
        case PrivateHost => Pick(private_, DirectName())
        case DomesticHost => Pick(domestic, DirectName())
        case ForeignHost => Pick(foreign, ForeignDefault())
  }

  predicate Exists(r: Routed, p: Profile) {
    r.Via? && (r.route == DirectName() || HasRoute(p.routes, r.route))
  }

  // The rule a host falls under, and whether its default is the direct route.
  function RuleFor(host: Host, s: Split): (Target, bool)
    requires s.Split?
  {
    if s.policy == Some(AllProxy) || host.ForeignHost? then (s.foreign, false)
    else if host.PrivateHost? then (s.private_, true)
    else (s.domestic, true)
  }

  /** For a valid profile the decision is `direct` or an existing route exactly when the
      rule that applies names one, or is missing and its default exists: the default for
      foreign hosts, `new`, need not. */
  lemma DecisionExistsExactlyWhen(host: Host, p: Profile)
    requires ValidProfile(p)
    ensures Exists(DecideRoute(host, p), p) <==>
      match p.split
      case NoSplit => !host.ForeignHost? || HasRoute(p.routes, ForeignDefault())
      case Split(policy, _, _, _, _) =>
        policy == Some(AllDirect)
        || var (rule, direct) := RuleFor(host, p.split);
           rule.To? || (rule.Missing? && (direct || HasRoute(p.routes, ForeignDefault())))
      case _ => false
  {
  }

  /** The route decided is the one the rule names, or its default. */
  lemma DecidedByRule(host: Host, p: Profile)
    requires p.split.Split?
    ensures p.split.policy == Some(AllDirect) ==> DecideRoute(host, p) == Via("direct")
    ensures p.split.policy != Some(AllDirect) ==>
      var (rule, direct) := RuleFor(host, p.split);
      DecideRoute(host, p) ==
        if rule.To? then Via(rule.route) else if rule.Missing? then Via(if direct then "direct" else "new") else NoName
  {
  }

  /** There is such a profile: one direct route and no split rules. */
  lemma MissingDefaultHappens(id: string, route: Route)
    requires id != [] && id != ForeignDefault() && !IsSecretKey(id)
    requires route == Route(DirectType, None, None, None, false, None, Null)
    ensures var p := Profile(2, [Entry(id, route)], NoSplit, NoUi, Null, Null);
      ValidProfile(p) && !Exists(DecideRoute(ForeignHost, p), p)
  {
    assert ForeignDefault()[0] != DirectName()[0];
  }
}
