/** Any Gateway API route kind at any served version, reduced to what the checks need (pkg/gatewayapi/route.go),
    and its rules kept apart (rules.go, rulenames.go). */
module Routes {
  import opened Manifests

  /** One backendRef with the name of the rule it came from. */
  datatype BackendRef = BackendRef(rule: Option<string>, ref: BackendReference) {
    function Namespace(routeNamespace: string): string {
      ref.namespace.GetOr(routeNamespace)
    }

    function Group(): string {
      ref.group.GetOr("")
    }

    function Kind(): string {
      ref.kind.GetOr("Service")
    }
  }

  datatype Route = Route(
    kind: string, namespace: string, name: string, labels: map<string, string>, hostnames: seq<string>,
    parentRefs: seq<ParentReference>, backendRefs: seq<BackendRef>)

  datatype Rule = Rule(index: int, name: Option<string>, backendRefs: seq<BackendReference>, filters: seq<string>)

  // What the extractors compute

  function Unwrap(refs: seq<FilteredBackend>): (r: seq<BackendReference>)
    ensures |r| == |refs| && forall i :: 0 <= i < |refs| ==> r[i] == refs[i].ref
  {
    if refs == [] then [] else Unwrap(refs[..|refs| - 1]) + [refs[|refs| - 1].ref]
  }

  function Tagged(rule: Option<string>, refs: seq<BackendReference>): (r: seq<BackendRef>)
    ensures |r| == |refs| && forall i :: 0 <= i < |refs| ==> r[i] == BackendRef(rule, refs[i])
  {
    if refs == [] then [] else Tagged(rule, refs[..|refs| - 1]) + [BackendRef(rule, refs[|refs| - 1])]
  }

  function HTTPBackends(rules: seq<HTTPRule>): seq<BackendRef> {
    if rules == [] then []
    else var r := rules[|rules| - 1]; HTTPBackends(rules[..|rules| - 1]) + Tagged(r.name, Unwrap(r.backendRefs))
  }

  function GRPCBackends(rules: seq<GRPCRule>): seq<BackendRef> {
    if rules == [] then []
    else var r := rules[|rules| - 1]; GRPCBackends(rules[..|rules| - 1]) + Tagged(r.name, Unwrap(r.backendRefs))
  }

  function StreamBackends(rules: seq<StreamRule>): seq<BackendRef> {
    if rules == [] then []
    else var r := rules[|rules| - 1]; StreamBackends(rules[..|rules| - 1]) + Tagged(r.name, r.backendRefs)
  }

  function NewRoute(kind: string, meta: Meta, hostnames: seq<string>, parentRefs: seq<ParentReference>,
                    backendRefs: seq<BackendRef>): Route {
    Route(kind, meta.namespace, meta.name, meta.labels, hostnames, parentRefs, backendRefs)
  }

  /** The route an object is, if it is one. */
  function RouteOf(obj: Object): Option<Route> {
    match obj
    case HTTPRouteV1(m, parents, hosts, rules) => Some(NewRoute(HTTP_ROUTE, m, hosts, parents, HTTPBackends(rules)))
    case HTTPRouteV1Beta1(m, parents, hosts, rules) =>
      Some(NewRoute(HTTP_ROUTE, m, hosts, parents, HTTPBackends(rules)))
    case GRPCRouteV1(m, parents, hosts, rules) => Some(NewRoute(GRPC_ROUTE, m, hosts, parents, GRPCBackends(rules)))
    case GRPCRouteV1Alpha2(m, parents, hosts, rules) =>
      Some(NewRoute(GRPC_ROUTE, m, hosts, parents, GRPCBackends(rules)))
    case TCPRouteV1(m, parents, rules) => Some(NewRoute(TCP_ROUTE, m, [], parents, StreamBackends(rules)))
    case TCPRouteV1Alpha2(m, parents, rules) => Some(NewRoute(TCP_ROUTE, m, [], parents, StreamBackends(rules)))
    case TLSRouteV1(m, parents, hosts, rules) => Some(NewRoute(TLS_ROUTE, m, hosts, parents, StreamBackends(rules)))
    case TLSRouteV1Alpha3(m, parents, hosts, rules) =>
      Some(NewRoute(TLS_ROUTE, m, hosts, parents, StreamBackends(rules)))
    case TLSRouteV1Alpha2(m, parents, hosts, rules) =>
      Some(NewRoute(TLS_ROUTE, m, hosts, parents, StreamBackends(rules)))
    case UDPRouteV1(m, parents, rules) => Some(NewRoute(UDP_ROUTE, m, [], parents, StreamBackends(rules)))
    case UDPRouteV1Alpha2(m, parents, rules) => Some(NewRoute(UDP_ROUTE, m, [], parents, StreamBackends(rules)))
    case _ => None
  }

  /** The routes of a manifest set, in its order. */
  function RoutesOf(ctx: Context): seq<Route> {
    if ctx == [] then []
    else
      var init := RoutesOf(ctx[..|ctx| - 1]);
      match RouteOf(ctx[|ctx| - 1])
      case Some(route) => init + [route]
      case None => init
  }

  /** `r` is one of the routes of the set, at position `i`. */
  ghost predicate IsRouteAt(ctx: Context, i: int, r: Route) {
    0 <= i < |ctx| && RouteOf(ctx[i]) == Some(r)
  }

  lemma {:induction false} RoutesOfAre(ctx: Context)
    ensures forall r :: r in RoutesOf(ctx) <==> exists i :: IsRouteAt(ctx, i, r)
  {
    if ctx != [] {
      var init, n := ctx[..|ctx| - 1], |ctx| - 1;
      RoutesOfAre(init);
      forall i, r
        ensures IsRouteAt(ctx, i, r) <==> IsRouteAt(init, i, r) || (i == n && RouteOf(ctx[n]) == Some(r))
      {
        assert 0 <= i < n ==> init[i] == ctx[i];
      }
      if RouteOf(ctx[n]).Some? {
        assert IsRouteAt(ctx, n, RouteOf(ctx[n]).value);
      }
    }
  }

  // The extractors themselves

  method Named(rule: Option<string>, backendRefs: seq<BackendReference>) returns (refs: seq<BackendRef>)
    ensures refs == Tagged(rule, backendRefs)
  {
    refs := [];
    for i := 0 to |backendRefs|
      invariant refs == Tagged(rule, backendRefs[..i])
    {
      assert backendRefs[..i + 1][..i] == backendRefs[..i];
      refs := refs + [BackendRef(rule, backendRefs[i])];
    }
    assert backendRefs[..|backendRefs|] == backendRefs;
  }

  lemma AppendTagged(before: seq<BackendRef>, rule: Option<string>, refs: seq<FilteredBackend>, j: nat)
    requires j < |refs|
    ensures before + Tagged(rule, Unwrap(refs[..j + 1]))
         == before + Tagged(rule, Unwrap(refs[..j])) + [BackendRef(rule, refs[j].ref)]
  {
    assert Unwrap(refs[..j + 1]) == Unwrap(refs[..j]) + [refs[j].ref];
  }

  lemma HTTPBackendsStep(rules: seq<HTTPRule>, i: nat)
    requires i < |rules|
    ensures HTTPBackends(rules[..i + 1])
         == HTTPBackends(rules[..i]) + Tagged(rules[i].name, Unwrap(rules[i].backendRefs))
  {
    assert rules[..i + 1][..i] == rules[..i];
  }

  method HTTPBackendRefs(rules: seq<HTTPRule>) returns (refs: seq<BackendRef>)
    ensures refs == HTTPBackends(rules)
  {
    assert HTTPBackends(rules[..0]) == [];
    hide HTTPBackends, Tagged, Unwrap;
    refs := [];
    for i := 0 to |rules|
      invariant refs == HTTPBackends(rules[..i])
    {
      var rule := rules[i];
      var before := refs;
      for j := 0 to |rule.backendRefs|
        invariant refs == before + Tagged(rule.name, Unwrap(rule.backendRefs[..j]))
      {
        AppendTagged(before, rule.name, rule.backendRefs, j);
        refs := refs + [BackendRef(rule.name, rule.backendRefs[j].ref)];
      }
      assert rule.backendRefs[..|rule.backendRefs|] == rule.backendRefs;
      HTTPBackendsStep(rules, i);
    }
    assert rules[..|rules|] == rules;
  }

  lemma GRPCBackendsStep(rules: seq<GRPCRule>, i: nat)
    requires i < |rules|
    ensures GRPCBackends(rules[..i + 1])
         == GRPCBackends(rules[..i]) + Tagged(rules[i].name, Unwrap(rules[i].backendRefs))
  {
    assert rules[..i + 1][..i] == rules[..i];
  }

  method GRPCBackendRefs(rules: seq<GRPCRule>) returns (refs: seq<BackendRef>)
    ensures refs == GRPCBackends(rules)
  {
    assert GRPCBackends(rules[..0]) == [];
    hide GRPCBackends, Tagged, Unwrap;
    refs := [];
    for i := 0 to |rules|
      invariant refs == GRPCBackends(rules[..i])
    {
      var rule := rules[i];
      var before := refs;
      for j := 0 to |rule.backendRefs|
        invariant refs == before + Tagged(rule.name, Unwrap(rule.backendRefs[..j]))
      {
        AppendTagged(before, rule.name, rule.backendRefs, j);
        refs := refs + [BackendRef(rule.name, rule.backendRefs[j].ref)];
      }
      assert rule.backendRefs[..|rule.backendRefs|] == rule.backendRefs;
      GRPCBackendsStep(rules, i);
    }
    assert rules[..|rules|] == rules;
  }

  method StreamBackendRefs(rules: seq<StreamRule>) returns (refs: seq<BackendRef>)
    ensures refs == StreamBackends(rules)
  {
    refs := [];
    for i := 0 to |rules|
      invariant refs == StreamBackends(rules[..i])
    {
      var tagged := Named(rules[i].name, rules[i].backendRefs);
      refs := refs + tagged;
      assert rules[..i + 1][..i] == rules[..i];
    }
    assert rules[..|rules|] == rules;
  }

  method AsRoute(obj: Object) returns (r: Option<Route>)
    ensures r == RouteOf(obj)
  {
    hide HTTPBackends, GRPCBackends, StreamBackends, Tagged, Unwrap, NewRoute;
    var refs: seq<BackendRef>;
    match obj {
      case HTTPRouteV1(m, parents, hosts, rules) =>
        refs := HTTPBackendRefs(rules);
        r := Some(NewRoute(HTTP_ROUTE, m, hosts, parents, refs));
      case HTTPRouteV1Beta1(m, parents, hosts, rules) =>
        refs := HTTPBackendRefs(rules);
        r := Some(NewRoute(HTTP_ROUTE, m, hosts, parents, refs));
      case GRPCRouteV1(m, parents, hosts, rules) =>
        refs := GRPCBackendRefs(rules);
        r := Some(NewRoute(GRPC_ROUTE, m, hosts, parents, refs));
      case GRPCRouteV1Alpha2(m, parents, hosts, rules) =>
        refs := GRPCBackendRefs(rules);
        r := Some(NewRoute(GRPC_ROUTE, m, hosts, parents, refs));
      case TCPRouteV1(m, parents, rules) =>
        refs := StreamBackendRefs(rules);
        r := Some(NewRoute(TCP_ROUTE, m, [], parents, refs));
      case TCPRouteV1Alpha2(m, parents, rules) =>
        refs := StreamBackendRefs(rules);
        r := Some(NewRoute(TCP_ROUTE, m, [], parents, refs));
      case TLSRouteV1(m, parents, hosts, rules) =>
        refs := StreamBackendRefs(rules);
        r := Some(NewRoute(TLS_ROUTE, m, hosts, parents, refs));
      case TLSRouteV1Alpha3(m, parents, hosts, rules) =>
        refs := StreamBackendRefs(rules);
        r := Some(NewRoute(TLS_ROUTE, m, hosts, parents, refs));
      case TLSRouteV1Alpha2(m, parents, hosts, rules) =>
        refs := StreamBackendRefs(rules);
        r := Some(NewRoute(TLS_ROUTE, m, hosts, parents, refs));
      case UDPRouteV1(m, parents, rules) =>
        refs := StreamBackendRefs(rules);
        r := Some(NewRoute(UDP_ROUTE, m, [], parents, refs));
      case UDPRouteV1Alpha2(m, parents, rules) =>
        refs := StreamBackendRefs(rules);
        r := Some(NewRoute(UDP_ROUTE, m, [], parents, refs));
      case _ =>
        r := None;
    }
  }

  method ListRoutes(ctx: Context) returns (routes: seq<Route>)
    ensures routes == RoutesOf(ctx)
  {
    routes := [];
    for i := 0 to |ctx|
      invariant routes == RoutesOf(ctx[..i])
    {
      assert ctx[..i + 1][..i] == ctx[..i];
      var route := AsRoute(ctx[i]);
      if route.Some? {
        routes := routes + [route.value];
      }
    }
    assert ctx[..|ctx|] == ctx;
  }

  // Rules

  function HTTPRuleList(rules: seq<HTTPRule>): seq<Rule> {
    if rules == [] then []
    else
      var n := |rules| - 1;
      HTTPRuleList(rules[..n]) + [Rule(n, rules[n].name, Unwrap(rules[n].backendRefs), rules[n].filters)]
  }

  function GRPCRuleList(rules: seq<GRPCRule>): seq<Rule> {
    if rules == [] then []
    else
      var n := |rules| - 1;
      GRPCRuleList(rules[..n]) + [Rule(n, rules[n].name, Unwrap(rules[n].backendRefs), rules[n].filters)]
  }

  function StreamRuleList(rules: seq<StreamRule>): seq<Rule> {
    if rules == [] then []
    else var n := |rules| - 1; StreamRuleList(rules[..n]) + [Rule(n, rules[n].name, rules[n].backendRefs, [])]
  }

  /** The rules of an object, in spec order; none when it is not a route. */
  function RuleList(obj: Object): seq<Rule> {
    match obj
    case HTTPRouteV1(_, _, _, rules) => HTTPRuleList(rules)
    case HTTPRouteV1Beta1(_, _, _, rules) => HTTPRuleList(rules)
    case GRPCRouteV1(_, _, _, rules) => GRPCRuleList(rules)
    case GRPCRouteV1Alpha2(_, _, _, rules) => GRPCRuleList(rules)
    case TCPRouteV1(_, _, rules) => StreamRuleList(rules)
    case TCPRouteV1Alpha2(_, _, rules) => StreamRuleList(rules)
    case TLSRouteV1(_, _, _, rules) => StreamRuleList(rules)
    case TLSRouteV1Alpha3(_, _, _, rules) => StreamRuleList(rules)
    case TLSRouteV1Alpha2(_, _, _, rules) => StreamRuleList(rules)
    case UDPRouteV1(_, _, rules) => StreamRuleList(rules)
    case UDPRouteV1Alpha2(_, _, rules) => StreamRuleList(rules)
    case _ => []
  }

  method Unwrapped(backendRefs: seq<FilteredBackend>) returns (refs: seq<BackendReference>)
    ensures refs == Unwrap(backendRefs)
  {
    refs := [];
    for i := 0 to |backendRefs|
      invariant refs == Unwrap(backendRefs[..i])
    {
      assert backendRefs[..i + 1][..i] == backendRefs[..i];
      refs := refs + [backendRefs[i].ref];
    }
    assert backendRefs[..|backendRefs|] == backendRefs;
  }

  method HTTPRules(rules: seq<HTTPRule>) returns (out: seq<Rule>)
    ensures out == HTTPRuleList(rules)
  {
    out := [];
    for i := 0 to |rules|
      invariant out == HTTPRuleList(rules[..i])
    {
      assert rules[..i + 1][..i] == rules[..i];
      var refs := Unwrapped(rules[i].backendRefs);
      out := out + [Rule(i, rules[i].name, refs, rules[i].filters)];
    }
    assert rules[..|rules|] == rules;
  }

  method GRPCRules(rules: seq<GRPCRule>) returns (out: seq<Rule>)
    ensures out == GRPCRuleList(rules)
  {
    out := [];
    for i := 0 to |rules|
      invariant out == GRPCRuleList(rules[..i])
    {
      assert rules[..i + 1][..i] == rules[..i];
      var refs := Unwrapped(rules[i].backendRefs);
      out := out + [Rule(i, rules[i].name, refs, rules[i].filters)];
    }
    assert rules[..|rules|] == rules;
  }

  method StreamRules(rules: seq<StreamRule>) returns (out: seq<Rule>)
    ensures out == StreamRuleList(rules)
  {
    out := [];
    for i := 0 to |rules|
      invariant out == StreamRuleList(rules[..i])
    {
      assert rules[..i + 1][..i] == rules[..i];
      out := out + [Rule(i, rules[i].name, rules[i].backendRefs, [])];
    }
    assert rules[..|rules|] == rules;
  }

  method RulesOf(obj: Object) returns (rules: seq<Rule>)
    ensures rules == RuleList(obj)
  {
    hide HTTPRuleList, GRPCRuleList, StreamRuleList;
    match obj {
      case HTTPRouteV1(_, _, _, specRules) => rules := HTTPRules(specRules);
      case HTTPRouteV1Beta1(_, _, _, specRules) => rules := HTTPRules(specRules);
      case GRPCRouteV1(_, _, _, specRules) => rules := GRPCRules(specRules);
      case GRPCRouteV1Alpha2(_, _, _, specRules) => rules := GRPCRules(specRules);
      case TCPRouteV1(_, _, specRules) => rules := StreamRules(specRules);
      case TCPRouteV1Alpha2(_, _, specRules) => rules := StreamRules(specRules);
      case TLSRouteV1(_, _, _, specRules) => rules := StreamRules(specRules);
      case TLSRouteV1Alpha3(_, _, _, specRules) => rules := StreamRules(specRules);
      case TLSRouteV1Alpha2(_, _, _, specRules) => rules := StreamRules(specRules);
      case UDPRouteV1(_, _, specRules) => rules := StreamRules(specRules);
      case UDPRouteV1Alpha2(_, _, specRules) => rules := StreamRules(specRules);
      case _ => rules := [];
    }
  }

  method RuleNames<T>(rules: seq<T>, nameOf: T -> Option<string>) returns (names: seq<Option<string>>)
    ensures |names| == |rules| && forall i :: 0 <= i < |rules| ==> names[i] == nameOf(rules[i])
  {
    names := [];
    for k := 0 to |rules|
      invariant |names| == k && forall i :: 0 <= i < k ==> names[i] == nameOf(rules[i])
    {
      names := names + [nameOf(rules[k])];
    }
  }

  ghost predicate AreNamesOf(names: seq<Option<string>>, rules: seq<Rule>) {
    |names| == |rules| && forall i :: 0 <= i < |names| ==> names[i] == rules[i].name
  }

  lemma NoNames()
    ensures AreNamesOf([], [])
  {
  }

  method HTTPRuleNames(rules: seq<HTTPRule>) returns (names: seq<Option<string>>)
    ensures AreNamesOf(names, HTTPRuleList(rules))
  {
    HTTPFlattens(rules);
    names := RuleNames(rules, (r: HTTPRule) => r.name);
  }

  method GRPCRuleNames(rules: seq<GRPCRule>) returns (names: seq<Option<string>>)
    ensures AreNamesOf(names, GRPCRuleList(rules))
  {
    GRPCFlattens(rules);
    names := RuleNames(rules, (r: GRPCRule) => r.name);
  }

  method StreamRuleNames(rules: seq<StreamRule>) returns (names: seq<Option<string>>)
    ensures AreNamesOf(names, StreamRuleList(rules))
  {
    StreamFlattens(rules);
    names := RuleNames(rules, (r: StreamRule) => r.name);
  }

  /** The name of every rule RulesOf lists, at the same position. */
  method RuleNamesOf(obj: Object) returns (names: seq<Option<string>>)
    ensures AreNamesOf(names, RuleList(obj))
  {
    hide AreNamesOf, HTTPRuleList, GRPCRuleList, StreamRuleList;
    match obj {
      case HTTPRouteV1(_, _, _, rules) => names := HTTPRuleNames(rules);
      case HTTPRouteV1Beta1(_, _, _, rules) => names := HTTPRuleNames(rules);
      case GRPCRouteV1(_, _, _, rules) => names := GRPCRuleNames(rules);
      case GRPCRouteV1Alpha2(_, _, _, rules) => names := GRPCRuleNames(rules);
      case TCPRouteV1(_, _, rules) => names := StreamRuleNames(rules);
      case TCPRouteV1Alpha2(_, _, rules) => names := StreamRuleNames(rules);
      case TLSRouteV1(_, _, _, rules) => names := StreamRuleNames(rules);
      case TLSRouteV1Alpha3(_, _, _, rules) => names := StreamRuleNames(rules);
      case TLSRouteV1Alpha2(_, _, _, rules) => names := StreamRuleNames(rules);
      case UDPRouteV1(_, _, rules) => names := StreamRuleNames(rules);
      case UDPRouteV1Alpha2(_, _, rules) => names := StreamRuleNames(rules);
      case _ =>
        names := [];
        NoNames();
    }
  }

  // The two readings of a route agree

  /** In-order flattening of rules, every backendRef tagged with its rule's name. */
  function Flatten(rules: seq<Rule>): seq<BackendRef> {
    if rules == [] then []
    else var r := rules[|rules| - 1]; Flatten(rules[..|rules| - 1]) + Tagged(r.name, r.backendRefs)
  }

  lemma {:induction false} HTTPFlattens(rules: seq<HTTPRule>)
    ensures Flatten(HTTPRuleList(rules)) == HTTPBackends(rules)
    ensures |HTTPRuleList(rules)| == |rules|
    ensures forall i :: 0 <= i < |rules| ==>
              HTTPRuleList(rules)[i].index == i && HTTPRuleList(rules)[i].name == rules[i].name
  {
    if rules != [] {
      HTTPFlattens(rules[..|rules| - 1]);
      assert HTTPRuleList(rules)[..|rules| - 1] == HTTPRuleList(rules[..|rules| - 1]);
    }
  }

  lemma {:induction false} GRPCFlattens(rules: seq<GRPCRule>)
    ensures Flatten(GRPCRuleList(rules)) == GRPCBackends(rules)
    ensures |GRPCRuleList(rules)| == |rules|
    ensures forall i :: 0 <= i < |rules| ==>
              GRPCRuleList(rules)[i].index == i && GRPCRuleList(rules)[i].name == rules[i].name
  {
    if rules != [] {
      GRPCFlattens(rules[..|rules| - 1]);
      assert GRPCRuleList(rules)[..|rules| - 1] == GRPCRuleList(rules[..|rules| - 1]);
    }
  }

  lemma {:induction false} StreamFlattens(rules: seq<StreamRule>)
    ensures Flatten(StreamRuleList(rules)) == StreamBackends(rules)
    ensures |StreamRuleList(rules)| == |rules|
    ensures forall i :: 0 <= i < |rules| ==>
              StreamRuleList(rules)[i].index == i && StreamRuleList(rules)[i].name == rules[i].name
  {
    if rules != [] {
      StreamFlattens(rules[..|rules| - 1]);
      assert StreamRuleList(rules)[..|rules| - 1] == StreamRuleList(rules[..|rules| - 1]);
    }
  }

  /** A rule's index is its position, and only routes have rules. */
  lemma RuleIndexIsPosition(obj: Object)
    ensures forall i :: 0 <= i < |RuleList(obj)| ==> RuleList(obj)[i].index == i
    ensures RouteOf(obj).None? ==> RuleList(obj) == []
  {
    hide Flatten, HTTPBackends, GRPCBackends, StreamBackends, HTTPRuleList, GRPCRuleList, StreamRuleList;
    match obj {
      case HTTPRouteV1(_, _, _, rules) => HTTPFlattens(rules);
      case HTTPRouteV1Beta1(_, _, _, rules) => HTTPFlattens(rules);
      case GRPCRouteV1(_, _, _, rules) => GRPCFlattens(rules);
      case GRPCRouteV1Alpha2(_, _, _, rules) => GRPCFlattens(rules);
      case TCPRouteV1(_, _, rules) => StreamFlattens(rules);
      case TCPRouteV1Alpha2(_, _, rules) => StreamFlattens(rules);
      case TLSRouteV1(_, _, _, rules) => StreamFlattens(rules);
      case TLSRouteV1Alpha3(_, _, _, rules) => StreamFlattens(rules);
      case TLSRouteV1Alpha2(_, _, _, rules) => StreamFlattens(rules);
      case UDPRouteV1(_, _, rules) => StreamFlattens(rules);
      case UDPRouteV1Alpha2(_, _, rules) => StreamFlattens(rules);
      case _ =>
    }
  }

  /** A route's flat backendRefs are its rules' backendRefs in order, each tagged with its rule's name. */
  lemma RulesAndRouteAgree(obj: Object)
    ensures RouteOf(obj).Some? ==> RouteOf(obj).value.backendRefs == Flatten(RuleList(obj))
  {
    hide Flatten, HTTPBackends, GRPCBackends, StreamBackends, HTTPRuleList, GRPCRuleList, StreamRuleList;
    match obj {
      case HTTPRouteV1(_, _, _, rules) => HTTPFlattens(rules);
      case HTTPRouteV1Beta1(_, _, _, rules) => HTTPFlattens(rules);
      case GRPCRouteV1(_, _, _, rules) => GRPCFlattens(rules);
      case GRPCRouteV1Alpha2(_, _, _, rules) => GRPCFlattens(rules);
      case TCPRouteV1(_, _, rules) => StreamFlattens(rules);
      case TCPRouteV1Alpha2(_, _, rules) => StreamFlattens(rules);
      case TLSRouteV1(_, _, _, rules) => StreamFlattens(rules);
      case TLSRouteV1Alpha3(_, _, _, rules) => StreamFlattens(rules);
      case TLSRouteV1Alpha2(_, _, _, rules) => StreamFlattens(rules);
      case UDPRouteV1(_, _, rules) => StreamFlattens(rules);
      case UDPRouteV1Alpha2(_, _, rules) => StreamFlattens(rules);
      case _ =>
    }
  }
}
