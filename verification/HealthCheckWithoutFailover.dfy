/** health-check-without-failover: a health check over a route whose only destination is a Backend with one endpoint
    (pkg/templates/healthcheckwithoutfailover/template.go). */
module HealthCheckWithoutFailover {
  import opened Manifests
  import opened Routes
  import opened PolicyCoverage
  import opened PolicyReach
  import ColdStartCoverage

  datatype Report = Report(coverage: CoveredRoute, backend: string, endpoint: Endpoint)

  predicate IsEnvoyGatewayBackendRef(ref: BackendReference) {
    ref.kind == Some("Backend") && ref.group == Some(ENVOY_GATEWAY_GROUP)
  }

  /** The first Backend of that namespace and name. */
  function FindBackend(ctx: Context, namespace: string, name: string): (r: Option<Object>)
    ensures r.Some? ==> r.value in ctx && r.value.Backend?
    ensures r.Some? ==> r.value.meta.namespace == namespace && r.value.meta.name == name
    ensures r.None? ==> forall o :: o in ctx && o.Backend? ==> !(o.meta.namespace == namespace && o.meta.name == name)
  {
    if ctx == [] then None
    else if ctx[0].Backend? && ctx[0].meta.namespace == namespace && ctx[0].meta.name == name then Some(ctx[0])
    else FindBackend(ctx[1..], namespace, name)
  }

  predicate InScope(c: CoveredRoute, i: int)
    requires 0 <= i < |c.route.backendRefs|
  {
    SectionCoversRule(c.ruleSection, c.route.backendRefs[i].rule)
  }

  /** Position `i` holds the one backendRef the coverage extends to. */
  predicate OnlyAt(c: CoveredRoute, i: int) {
    && 0 <= i < |c.route.backendRefs| && InScope(c, i)
    && forall j :: 0 <= j < |c.route.backendRefs| && InScope(c, j) ==> j == i
  }

  /** The Backend a lone backendRef resolves to, unless it resolves per request. */
  function Resolved(ctx: Context, c: CoveredRoute, ref: BackendRef): Option<Object> {
    if !IsEnvoyGatewayBackendRef(ref.ref) then None
    else
      match FindBackend(ctx, ref.Namespace(c.route.namespace), ref.ref.name)
      case Some(b) => if b.backend.backendType == Some("DynamicResolver") then None else Some(b)
      case None => None
  }

  method FindBackendIn(ctx: Context, namespace: string, name: string) returns (r: Option<Object>)
    ensures r == FindBackend(ctx, namespace, name)
  {
    for i := 0 to |ctx|
      invariant FindBackend(ctx, namespace, name) == FindBackend(ctx[i..], namespace, name)
    {
      assert ctx[i..][1..] == ctx[i + 1..];
      if !ctx[i].Backend? {
        continue;
      }
      if ctx[i].meta.namespace == namespace && ctx[i].meta.name == name {
        return Some(ctx[i]);
      }
    }
    return None;
  }

  /** A Backend comes back exactly when the coverage extends to a single backendRef and that resolves to it. */
  method SoleBackend(ctx: Context, c: CoveredRoute) returns (backend: Option<Object>, endpoints: nat)
    ensures backend.Some? ==> exists i :: OnlyAt(c, i) && Resolved(ctx, c, c.route.backendRefs[i]) == backend
    ensures backend.None? ==> forall i :: OnlyAt(c, i) ==> Resolved(ctx, c, c.route.backendRefs[i]).None?
    ensures backend.Some? ==> backend.value.Backend? && endpoints == |backend.value.backend.endpoints|
    ensures backend.None? ==> endpoints == 0
  {
    hide FindBackend, SectionCoversRule;
    var only := -1;
    for i := 0 to |c.route.backendRefs|
      invariant only == -1 ==> forall j :: 0 <= j < i ==> !InScope(c, j)
      invariant only != -1 ==> 0 <= only < i && InScope(c, only)
      invariant only != -1 ==> forall j :: 0 <= j < i && InScope(c, j) ==> j == only
    {
      if !SectionCoversRule(c.ruleSection, c.route.backendRefs[i].rule) {
        continue;
      }
      assert InScope(c, i);
      if only != -1 {
        return None, 0;
      }
      only := i;
    }
    if only == -1 {
      return None, 0;
    }
    assert OnlyAt(c, only);
    var ref := c.route.backendRefs[only];
    if !IsEnvoyGatewayBackendRef(ref.ref) {
      return None, 0;
    }
    var found := FindBackendIn(ctx, ref.Namespace(c.route.namespace), ref.ref.name);
    if found.None? {
      return None, 0;
    }
    if found.value.backend.backendType.Some? && found.value.backend.backendType.value == "DynamicResolver" {
      return None, 0;
    }
    return found, |found.value.backend.endpoints|;
  }

  /** `c` is reported: nothing displaces the policy there, and one endpoint is all there is. */
  ghost predicate Reported(ctx: Context, self: int, c: CoveredRoute, library: LabelLibrary, r: Report) {
    && !(c.inherited && MoreSpecific(ctx, c.route, None, self, library))
    && exists i :: && OnlyAt(c, i)
                   && var b := Resolved(ctx, c, c.route.backendRefs[i]);
                   && b.Some? && b.value.Backend? && |b.value.backend.endpoints| == 1
                   && r == Report(c, b.value.meta.name, b.value.backend.endpoints[0])
  }

  /** The reports of a policy are those of its covered routes, in coverage order. */
  ghost predicate ReportsOf(ctx: Context, self: int, covered: seq<CoveredRoute>, library: LabelLibrary,
                            diagnostics: seq<Report>)
    decreases |covered|
  {
    if covered == [] then diagnostics == []
    else
      var init, last := covered[..|covered| - 1], covered[|covered| - 1];
      || (&& diagnostics != []
          && Reported(ctx, self, last, library, diagnostics[|diagnostics| - 1])
          && ReportsOf(ctx, self, init, library, diagnostics[..|diagnostics| - 1]))
      || (&& (forall r :: !Reported(ctx, self, last, library, r))
          && ReportsOf(ctx, self, init, library, diagnostics))
  }

  method CheckFunc(ctx: Context, self: int, library: LabelLibrary) returns (diagnostics: seq<Report>)
    requires 0 <= self < |ctx|
    ensures !(ctx[self].BackendTrafficPolicy? && ColdStartCoverage.HasHealthCheck(ctx[self].policy)) ==>
              diagnostics == []
    ensures ctx[self].BackendTrafficPolicy? && ColdStartCoverage.HasHealthCheck(ctx[self].policy) ==>
              ReportsOf(ctx, self, Coverage(ctx, ctx[self].meta.namespace, ctx[self].policy, library), library,
                  diagnostics)
  {
    hide Coverage, Reported, ColdStartCoverage.HasHealthCheck;
    diagnostics := [];
    if !ctx[self].BackendTrafficPolicy? {
      return;
    }
    if !ColdStartCoverage.HasHealthCheck(ctx[self].policy) {
      return;
    }
    var covered := BackendTrafficPolicyCoverage(ctx, ctx[self].meta.namespace, ctx[self].policy, library);
    for i := 0 to |covered|
      invariant ReportsOf(ctx, self, covered[..i], library, diagnostics)
    {
      assert covered[..i + 1][..i] == covered[..i];
      var d := Judge(ctx, self, covered[i], library);
      if d.Some? {
        ghost var before := diagnostics;
        diagnostics := diagnostics + [d.value];
        assert diagnostics[..|before|] == before;
      }
    }
    assert covered[..|covered|] == covered;
  }

  method Judge(ctx: Context, self: int, c: CoveredRoute, library: LabelLibrary) returns (d: Option<Report>)
    ensures d.Some? ==> Reported(ctx, self, c, library, d.value)
    ensures d.None? ==> forall r :: !Reported(ctx, self, c, library, r)
  {
    hide MoreSpecific, Resolved, InScope;
    if c.inherited {
      var displaced := MoreSpecificPolicyCovers(ctx, c.route, None, self, library);
      if displaced {
        return None;
      }
    }
    var backend, endpoints := SoleBackend(ctx, c);
    if backend.None? || endpoints != 1 {
      return None;
    }
    return Some(Report(c, backend.value.meta.name, backend.value.backend.endpoints[0]));
  }

  /** A coverage extends to at most one lone backendRef, so at most one report can be made of it. */
  lemma ReportIsUnique(ctx: Context, self: int, c: CoveredRoute, library: LabelLibrary, r: Report, s: Report)
    requires Reported(ctx, self, c, library, r) && Reported(ctx, self, c, library, s)
    ensures r == s
  {
    hide MoreSpecific, Resolved;
  }

  // The whole route or one rule

  /** The policy has a reference to the route with exactly this section, or with none. */
  ghost predicate Names(obj: Object, route: Route, section: Option<string>) {
    && obj.BackendTrafficPolicy? && obj.meta.namespace == route.namespace
    && exists ref :: ref in RefsOf(obj.policy) && ref.kind == route.kind && ref.name == route.name
                     && ref.sectionName == section
  }

  lemma RoutesHaveRouteKinds(ctx: Context, route: Route)
    requires route in RoutesOf(ctx)
    ensures IsRouteKind(route.kind) && KeyOf(route) in KeysOf(RoutesOf(ctx))
  {
    RoutesOfAre(ctx);
    hide RoutesOf, HTTPBackends, GRPCBackends, StreamBackends;
  }

  lemma CoversOneRuleIff(ctx: Context, obj: Object, route: Route, rule: Option<string>, library: LabelLibrary)
    requires route in RoutesOf(ctx)
    ensures CoversDirectly(ctx, obj, route, rule, library) <==>
              Names(obj, route, None) || Names(obj, route, rule) || SelectsRoute(ctx, obj, route, library)
  {
    RoutesHaveRouteKinds(ctx, route);
    CoversDirectlyIff(ctx, obj, route, rule, library);
    hide RoutesOf, CoversDirectly, SelectsRoute, RefsOf, KeysOf, IsRouteKind;
  }

  /** Asking about the whole route, as this check does, and asking about one of its rules, as fqdn-backend-cold-start
      does, differ exactly when some other policy names the rule by section, and none names the route without a section
      or selects it by its labels. */
  lemma WholeRouteDiffersFromRuleIff(ctx: Context, route: Route, rule: Option<string>, self: int, library: LabelLibrary)
    requires route in RoutesOf(ctx)
    ensures MoreSpecific(ctx, route, None, self, library) != MoreSpecific(ctx, route, rule, self, library) <==>
              && rule.Some?
              && (exists i :: 0 <= i < |ctx| && i != self && Names(ctx[i], route, rule))
              && (forall i :: 0 <= i < |ctx| && i != self ==>
                                !Names(ctx[i], route, None) && !SelectsRoute(ctx, ctx[i], route, library))
  {
    hide RoutesOf, CoversDirectly, Names, SelectsRoute;
    forall i | 0 <= i < |ctx|
      ensures CoversDirectly(ctx, ctx[i], route, rule, library) <==>
                Names(ctx[i], route, None) || Names(ctx[i], route, rule) || SelectsRoute(ctx, ctx[i], route, library)
      ensures CoversDirectly(ctx, ctx[i], route, None, library) <==>
                Names(ctx[i], route, None) || SelectsRoute(ctx, ctx[i], route, library)
    {
      CoversOneRuleIff(ctx, ctx[i], route, rule, library);
      CoversOneRuleIff(ctx, ctx[i], route, None, library);
    }
  }
}
