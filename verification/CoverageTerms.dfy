/** What policies cover, displace and report, in terms of their own fields and those of routes
    (pkg/gatewayapi/policycoverage.go, pkg/templates/healthcheckwithoutfailover, gatewayservesnoroutes). */
module CoverageTerms {
  import opened Manifests
  import opened Routes
  import opened Parents
  import opened PolicyCoverage
  import opened PolicyReach
  import opened ReferenceTerms
  import ColdStartCoverage
  import GatewayServesNoRoutes
  import Failover = HealthCheckWithoutFailover

  predicate Is(r: Route, id: ObjectRef) {
    r.kind == id.kind && r.namespace == id.namespace && r.name == id.name
  }

  predicate KindOfRoute(kind: string) {
    || kind == "HTTPRoute" || kind == "GRPCRoute" || kind == "TCPRoute" || kind == "TLSRoute" || kind == "UDPRoute"
  }

  /** One of the policy's targetRefs, in either field. */
  predicate Targets(policy: PolicySpec, ref: PolicyTargetRef) {
    policy.targetRef == Some(ref) || ref in policy.targetRefs
  }

  // Targets

  /** A Gateway or ListenerSet takes in what attaches to it, at the listener if one is named; a route itself alone. */
  ghost predicate TargetTakes(ctx: Context, ns: string, ref: PolicyTargetRef, r: Route, inherited: bool,
                              section: Option<string>)
  {
    || (ref.kind == "Gateway" && inherited && section.None? && Reaches(ctx, ns, ref.name, ref.sectionName, r))
    || (ref.kind == "ListenerSet" && inherited && section.None?
        && NamesParent(r, "ListenerSet", ns, ref.name, ref.sectionName))
    || (KindOfRoute(ref.kind) && !inherited && section == ref.sectionName && Is(r, ObjectRef(ref.kind, ns, ref.name)))
  }

  ghost predicate TargetTakesOne(ctx: Context, ns: string, ref: PolicyTargetRef, id: ObjectRef, inherited: bool,
                                 section: Option<string>)
  {
    exists r :: r in RoutesOf(ctx) && Is(r, id) && TargetTakes(ctx, ns, ref, r, inherited, section)
  }

  lemma KeyIff(r: Route, id: ObjectRef)
    ensures Is(r, id) <==> KeyOf(r) == RouteKey(id.kind, id.namespace, id.name)
  {
  }

  lemma KeyInIff(routes: seq<Route>, id: ObjectRef)
    ensures RouteKey(id.kind, id.namespace, id.name) in KeysOf(routes) <==> exists r :: r in routes && Is(r, id)
  {
  }

  lemma RouteKindIff(kind: string)
    ensures IsRouteKind(kind) <==> KindOfRoute(kind)
    ensures IsParentKind(kind) <==> kind == "Gateway" || kind == "ListenerSet"
  {
  }

  /** A covered route of that identity, inherited or not, on that section. */
  predicate IsCover(c: CoveredRoute, id: ObjectRef, inherited: bool, section: Option<string>) {
    Is(c.route, id) && c.inherited == inherited && c.ruleSection == section
  }

  lemma GatewayTakesIff(ctx: Context, ns: string, name: string, listener: Option<string>, id: ObjectRef)
    ensures (exists r :: r in AttachedToGateway(ctx, ns, name, listener) && Is(r, id)) <==>
              exists r :: r in RoutesOf(ctx) && Is(r, id) && Reaches(ctx, ns, name, listener, r)
  {
    GatewayRoutesExact(ctx, ns, name, listener);
    var routes := AttachedToGateway(ctx, ns, name, listener);
    KeyInIff(routes, id);
    hide RoutesOf, AttachedToGateway, Reaches, Direct, KeysOf;
    if r :| r in RoutesOf(ctx) && Is(r, id) && Reaches(ctx, ns, name, listener, r) {
      KeyIff(r, id);
    }
  }

  lemma SetTakesIff(ctx: Context, ns: string, name: string, listener: Option<string>, r: Route)
    ensures r in Attached(RoutesOf(ctx), ParentQuery(LISTENER_SET, ns, name, listener)) <==>
              r in RoutesOf(ctx) && NamesParent(r, "ListenerSet", ns, name, listener)
  {
    AttachedAre(RoutesOf(ctx), ParentQuery(LISTENER_SET, ns, name, listener));
  }

  lemma RouteTakesIff(ctx: Context, ns: string, t: PolicyTarget, id: ObjectRef)
    requires KindOfRoute(t.kind)
    ensures (exists r :: r in TargetedBy(ctx, ns, t) && Is(r, id)) <==>
              exists r :: r in RoutesOf(ctx) && Is(r, id) && Is(r, ObjectRef(t.kind, ns, t.name))
  {
    RouteKindIff(t.kind);
    var first := FirstRoute(RoutesOf(ctx), RouteKey(t.kind, ns, t.name));
    hide RoutesOf, FirstRoute;
    if first.Some? {
      KeyIff(first.value, ObjectRef(t.kind, ns, t.name));
      assert first.value in TargetedBy(ctx, ns, t);
    }
    if r :| r in RoutesOf(ctx) && Is(r, id) && Is(r, ObjectRef(t.kind, ns, t.name)) {
      KeyIff(r, ObjectRef(t.kind, ns, t.name));
    }
  }

  lemma CoverFields(t: PolicyTarget, r: Route, id: ObjectRef, inherited: bool, section: Option<string>)
    ensures IsCover(CoverOf(t, r), id, inherited, section) <==>
              && Is(r, id) && inherited == (t.kind == "Gateway" || t.kind == "ListenerSet")
              && section == if inherited then None else t.sectionName
  {
  }

  lemma TargetIff(ctx: Context, ns: string, ref: PolicyTargetRef, id: ObjectRef, inherited: bool,
                  section: Option<string>)
    ensures (exists r :: r in TargetedBy(ctx, ns, TargetOf(ref)) && IsCover(CoverOf(TargetOf(ref), r), id, inherited,
              section)) <==>
              TargetTakesOne(ctx, ns, ref, id, inherited, section)
  {
    var t := TargetOf(ref);
    forall r
      ensures IsCover(CoverOf(t, r), id, inherited, section) <==>
                && Is(r, id) && inherited == (t.kind == "Gateway" || t.kind == "ListenerSet")
                && section == if inherited then None else t.sectionName
    {
      CoverFields(t, r, id, inherited, section);
    }
    hide IsCover, CoverOf, RoutesOf, AttachedToGateway, Attached, Reaches, NamesParent, FirstRoute, Is;
    RouteKindIff(t.kind);
    if t.kind == "Gateway" {
      GatewayTakesIff(ctx, ns, t.name, t.sectionName, id);
    } else if t.kind == "ListenerSet" {
      forall r
        ensures r in TargetedBy(ctx, ns, t) <==>
                  r in RoutesOf(ctx) && NamesParent(r, "ListenerSet", ns, t.name, t.sectionName)
      {
        SetTakesIff(ctx, ns, t.name, t.sectionName, r);
      }
    } else if KindOfRoute(t.kind) {
      RouteTakesIff(ctx, ns, t, id);
    }
  }

  // Selectors

  predicate SelectorTakes(sel: TargetSelector, ns: string, library: LabelLibrary, r: Route) {
    && (sel.group.None? || sel.group == Some("gateway.networking.k8s.io"))
    && KindOfRoute(sel.kind) && r.kind == sel.kind
    && (|| (r.namespace == ns && (sel.namespacesFrom.None? || sel.namespacesFrom == Some("Same")))
        || sel.namespacesFrom == Some("All"))
    && library.parses(sel.labels) && library.matches(sel.labels, r.labels)
  }

  lemma SelectorIff(sel: TargetSelector, ns: string, library: LabelLibrary, r: Route)
    ensures Selects(sel, ns, library, r) <==> SelectorTakes(sel, ns, library, r)
  {
    RouteKindIff(sel.kind);
  }

  /** Some route of that identity is selected: present, of the selector's kind, in a namespace it reaches, with labels
      that match. */
  ghost predicate SelectedOne(ctx: Context, ns: string, policy: PolicySpec, library: LabelLibrary, id: ObjectRef) {
    exists sel, r :: sel in policy.targetSelectors && r in RoutesOf(ctx) && Is(r, id)
                     && SelectorTakes(sel, ns, library, r)
  }

  ghost predicate TargetedOne(ctx: Context, ns: string, policy: PolicySpec, id: ObjectRef, inherited: bool,
                              section: Option<string>)
  {
    exists ref :: Targets(policy, ref) && TargetTakesOne(ctx, ns, ref, id, inherited, section)
  }

  // Coverage

  lemma RefsAreTargets(policy: PolicySpec)
    ensures forall ref :: ref in RefsOf(policy) <==> Targets(policy, ref)
  {
  }

  lemma ByTargetsIff(ctx: Context, ns: string, policy: PolicySpec, id: ObjectRef, inherited: bool,
                     section: Option<string>)
    ensures (exists c :: c in ByTargets(ctx, ns, TargetsOf(RefsOf(policy))) && IsCover(c, id, inherited, section)) <==>
              TargetedOne(ctx, ns, policy, id, inherited, section)
  {
    var refs := RefsOf(policy);
    var targets := TargetsOf(refs);
    RefsAreTargets(policy);
    ByTargetsAre(ctx, ns, targets);
    hide RefsOf, ByTargets, TargetedBy, CoverOf, IsCover, TargetTakesOne, Targets, TargetOf;
    if c :| c in ByTargets(ctx, ns, targets) && IsCover(c, id, inherited, section) {
      var t, r :| t in targets && r in TargetedBy(ctx, ns, t) && c == CoverOf(t, r);
      var i :| 0 <= i < |targets| && targets[i] == t;
      TargetIff(ctx, ns, refs[i], id, inherited, section);
      assert refs[i] in refs;
    }
    if ref :| Targets(policy, ref) && TargetTakesOne(ctx, ns, ref, id, inherited, section) {
      var i :| 0 <= i < |refs| && refs[i] == ref;
      assert targets[i] in targets;
      TargetIff(ctx, ns, ref, id, inherited, section);
      var r :| r in TargetedBy(ctx, ns, TargetOf(ref)) && IsCover(CoverOf(TargetOf(ref), r), id, inherited, section);
      assert CoverOf(TargetOf(ref), r) in ByTargets(ctx, ns, targets);
    }
  }

  lemma BySelectorsIff(ctx: Context, ns: string, policy: PolicySpec, library: LabelLibrary, id: ObjectRef,
                       inherited: bool, section: Option<string>)
    ensures (exists c :: c in BySelectors(ctx, ns, policy.targetSelectors, library)
                         && IsCover(c, id, inherited, section)) <==>
              !inherited && section.None? && SelectedOne(ctx, ns, policy, library, id)
  {
    BySelectorsAre(ctx, ns, policy.targetSelectors, library);
    hide BySelectors, RoutesOf, Is, Selects, SelectorTakes;
    forall sel, r
      ensures Selects(sel, ns, library, r) <==> SelectorTakes(sel, ns, library, r)
    {
      SelectorIff(sel, ns, library, r);
    }
    if sel, r :| sel in policy.targetSelectors && r in RoutesOf(ctx) && Is(r, id)
                 && SelectorTakes(sel, ns, library, r) {
      assert SelectionOf(r) in BySelectors(ctx, ns, policy.targetSelectors, library);
    }
  }

  /** A policy covers a route of that identity, inherited or directly and on that section, if and only if one of its
      targets takes it or, directly and as a whole, one of its selectors does. */
  lemma CoverageIff(ctx: Context, ns: string, policy: PolicySpec, library: LabelLibrary, id: ObjectRef,
                    inherited: bool, section: Option<string>)
    ensures (exists c :: c in Coverage(ctx, ns, policy, library) && IsCover(c, id, inherited, section)) <==>
              || TargetedOne(ctx, ns, policy, id, inherited, section)
              || (!inherited && section.None? && SelectedOne(ctx, ns, policy, library, id))
  {
    ByTargetsIff(ctx, ns, policy, id, inherited, section);
    BySelectorsIff(ctx, ns, policy, library, id, inherited, section);
    hide ByTargets, BySelectors, IsCover, TargetedOne, SelectedOne, TargetsOf, RefsOf;
  }

  // Displacement

  function IdOf(r: Route): ObjectRef {
    ObjectRef(r.kind, r.namespace, r.name)
  }

  /** The policy names the route in its own namespace, as a whole or by that section, or selects a route of its name. */
  ghost predicate NamesDirectly(ctx: Context, obj: Object, route: Route, rule: Option<string>, library: LabelLibrary) {
    && obj.BackendTrafficPolicy?
    && (|| (&& obj.meta.namespace == route.namespace
            && exists ref :: && Targets(obj.policy, ref) && ref.kind == route.kind && ref.name == route.name
                             && (ref.sectionName.None? || ref.sectionName == rule))
        || SelectedOne(ctx, obj.meta.namespace, obj.policy, library, IdOf(route)))
  }

  lemma SelectsRouteIff(ctx: Context, obj: Object, route: Route, library: LabelLibrary)
    requires obj.BackendTrafficPolicy?
    ensures SelectsRoute(ctx, obj, route, library) <==>
              SelectedOne(ctx, obj.meta.namespace, obj.policy, library, IdOf(route))
  {
    forall sel, r
      ensures Selects(sel, obj.meta.namespace, library, r) <==> SelectorTakes(sel, obj.meta.namespace, library, r)
      ensures KeyOf(r) == KeyOf(route) <==> Is(r, IdOf(route))
    {
      SelectorIff(sel, obj.meta.namespace, library, r);
    }
    hide RoutesOf, Selects, SelectorTakes, Is, KeyOf, IdOf;
  }

  lemma DirectIff(ctx: Context, obj: Object, route: Route, rule: Option<string>, library: LabelLibrary)
    requires route in RoutesOf(ctx)
    ensures CoversDirectly(ctx, obj, route, rule, library) <==> NamesDirectly(ctx, obj, route, rule, library)
  {
    Failover.CoversOneRuleIff(ctx, obj, route, rule, library);
    if obj.BackendTrafficPolicy? {
      SelectsRouteIff(ctx, obj, route, library);
      RefsAreTargets(obj.policy);
    }
    hide RoutesOf, CoversDirectly, SelectsRoute, SelectedOne, RefsOf, Targets;
  }

  /** Whether some other policy is more specific about a rule, or about the whole route. */
  lemma MoreSpecificIff(ctx: Context, route: Route, rule: Option<string>, self: int, library: LabelLibrary)
    requires route in RoutesOf(ctx)
    ensures MoreSpecific(ctx, route, rule, self, library) <==>
              exists i :: 0 <= i < |ctx| && i != self && NamesDirectly(ctx, ctx[i], route, rule, library)
  {
    hide RoutesOf, CoversDirectly, NamesDirectly;
    forall i | 0 <= i < |ctx|
      ensures CoversDirectly(ctx, ctx[i], route, rule, library) <==> NamesDirectly(ctx, ctx[i], route, rule, library)
    {
      DirectIff(ctx, ctx[i], route, rule, library);
    }
  }

  predicate ChecksHealth(obj: Object) {
    && obj.BackendTrafficPolicy? && obj.policy.healthCheck.Some?
    && (obj.policy.healthCheck.value.hasActive || obj.policy.healthCheck.value.hasPassive)
  }

  /** fqdn-backend-cold-start asks this of the other policies with an active or passive health check only. */
  lemma OverriddenIff(ctx: Context, route: Route, rule: Option<string>, self: int, library: LabelLibrary)
    requires route in RoutesOf(ctx)
    ensures ColdStartCoverage.Overridden(ctx, route, rule, self, library) <==>
              exists i :: && 0 <= i < |ctx| && i != self && ChecksHealth(ctx[i])
                          && NamesDirectly(ctx, ctx[i], route, rule, library)
  {
    hide RoutesOf, CoversDirectly, NamesDirectly;
    forall i | 0 <= i < |ctx|
      ensures CoversDirectly(ctx, ctx[i], route, rule, library) <==> NamesDirectly(ctx, ctx[i], route, rule, library)
    {
      DirectIff(ctx, ctx[i], route, rule, library);
    }
  }

  // health-check-without-failover

  predicate IsFirstBackend(ctx: Context, k: int, ns: string, name: string) {
    && 0 <= k < |ctx| && ctx[k].Backend? && ctx[k].meta.namespace == ns && ctx[k].meta.name == name
    && forall j :: 0 <= j < k ==> !(ctx[j].Backend? && ctx[j].meta.namespace == ns && ctx[j].meta.name == name)
  }

  lemma {:induction false} FindBackendIs(ctx: Context, ns: string, name: string)
    ensures Failover.FindBackend(ctx, ns, name).Some? ==>
              exists k :: IsFirstBackend(ctx, k, ns, name) && Failover.FindBackend(ctx, ns, name).value == ctx[k]
    ensures Failover.FindBackend(ctx, ns, name).None? ==> forall k :: !IsFirstBackend(ctx, k, ns, name)
  {
    if ctx != [] && !(ctx[0].Backend? && ctx[0].meta.namespace == ns && ctx[0].meta.name == name) {
      FindBackendIs(ctx[1..], ns, name);
      if k :| IsFirstBackend(ctx[1..], k, ns, name) && Failover.FindBackend(ctx[1..], ns, name) == Some(ctx[1..][k]) {
        assert forall j :: 0 < j <= k ==> ctx[j] == ctx[1..][j - 1];
        assert IsFirstBackend(ctx, k + 1, ns, name);
      }
    } else if ctx != [] {
      assert IsFirstBackend(ctx, 0, ns, name);
    }
  }

  /** The backendRef names an Envoy Gateway Backend, by its own namespace or the route's, that is not resolved per
      request. */
  predicate ResolvesTo(ctx: Context, route: Route, b: BackendRef, k: int) {
    && b.ref.kind == Some("Backend") && b.ref.group == Some("gateway.envoyproxy.io")
    && IsFirstBackend(ctx, k, if b.ref.namespace.Some? then b.ref.namespace.value else route.namespace, b.ref.name)
    && ctx[k].backend.backendType != Some("DynamicResolver")
  }

  lemma ResolvedIff(ctx: Context, c: CoveredRoute, b: BackendRef, o: Object)
    ensures Failover.Resolved(ctx, c, b) == Some(o) <==>
              exists k :: ResolvesTo(ctx, c.route, b, k) && ctx[k] == o
  {
    var ns := if b.ref.namespace.Some? then b.ref.namespace.value else c.route.namespace;
    FindBackendIs(ctx, ns, b.ref.name);
    hide Failover.FindBackend;
    forall k, k'
      ensures IsFirstBackend(ctx, k, ns, b.ref.name) && IsFirstBackend(ctx, k', ns, b.ref.name) ==> k == k'
    {
    }
  }

  predicate OfSection(route: Route, section: Option<string>, i: int)
    requires 0 <= i < |route.backendRefs|
  {
    section.None? || route.backendRefs[i].rule == section
  }

  /** The policy's section, if it has one, is the name of that backendRef's rule, and of no other's. */
  predicate IsLone(route: Route, section: Option<string>, i: int) {
    && 0 <= i < |route.backendRefs| && OfSection(route, section, i)
    && forall j :: 0 <= j < |route.backendRefs| && OfSection(route, section, j) ==> j == i
  }

  /** The lone backendRef resolves to a Backend, whose one endpoint is reported. */
  ghost predicate NamesEndpoint(ctx: Context, c: CoveredRoute, i: int, r: Failover.Report) {
    && IsLone(c.route, c.ruleSection, i)
    && exists k :: && ResolvesTo(ctx, c.route, c.route.backendRefs[i], k)
                   && ctx[k].backend.endpoints == [r.endpoint]
                   && r.coverage == c && r.backend == c.route.backendRefs[i].ref.name
  }

  ghost predicate LoneReport(ctx: Context, c: CoveredRoute, i: int, r: Failover.Report) {
    && Failover.OnlyAt(c, i)
    && var b := Failover.Resolved(ctx, c, c.route.backendRefs[i]);
    && b.Some? && b.value.Backend? && |b.value.backend.endpoints| == 1
    && r == Failover.Report(c, b.value.meta.name, b.value.backend.endpoints[0])
  }

  lemma LoneIff(c: CoveredRoute, i: int)
    ensures Failover.OnlyAt(c, i) <==> IsLone(c.route, c.ruleSection, i)
  {
    forall j | 0 <= j < |c.route.backendRefs|
      ensures Failover.InScope(c, j) <==> OfSection(c.route, c.ruleSection, j)
    {
    }
    hide Failover.InScope, OfSection;
  }

  lemma LoneReportIff(ctx: Context, c: CoveredRoute, i: int, r: Failover.Report)
    ensures LoneReport(ctx, c, i, r) <==> NamesEndpoint(ctx, c, i, r)
  {
    LoneIff(c, i);
    if IsLone(c.route, c.ruleSection, i) {
      var b := Failover.Resolved(ctx, c, c.route.backendRefs[i]);
      if b.Some? {
        ResolvedIff(ctx, c, c.route.backendRefs[i], b.value);
        if LoneReport(ctx, c, i, r) {
          var k :| ResolvesTo(ctx, c.route, c.route.backendRefs[i], k) && ctx[k] == b.value;
          assert ctx[k].backend.endpoints == [r.endpoint];
        }
      }
      if k :| ResolvesTo(ctx, c.route, c.route.backendRefs[i], k) && ctx[k].backend.endpoints == [r.endpoint] {
        ResolvedIff(ctx, c, c.route.backendRefs[i], ctx[k]);
      }
    }
    hide Failover.Resolved, Failover.OnlyAt;
  }

  /** A covered route is reported for the one endpoint of the Backend its lone backendRef resolves to, unless the
      coverage is inherited and another policy names or selects the route. */
  lemma FailoverReportIff(ctx: Context, self: int, c: CoveredRoute, library: LabelLibrary, r: Failover.Report)
    requires c.route in RoutesOf(ctx)
    ensures Failover.Reported(ctx, self, c, library, r) <==>
              && !(c.inherited && exists i :: && 0 <= i < |ctx| && i != self
                                              && NamesDirectly(ctx, ctx[i], c.route, None, library))
              && exists i :: NamesEndpoint(ctx, c, i, r)
  {
    hide *;
    MoreSpecificIff(ctx, c.route, None, self, library);
    ReportedParts(ctx, self, c, library, r);
    forall i
      ensures LoneReport(ctx, c, i, r) <==> NamesEndpoint(ctx, c, i, r)
    {
      LoneReportIff(ctx, c, i, r);
    }
  }

  lemma ReportedParts(ctx: Context, self: int, c: CoveredRoute, library: LabelLibrary, r: Failover.Report)
    ensures Failover.Reported(ctx, self, c, library, r) <==>
              && !(c.inherited && MoreSpecific(ctx, c.route, None, self, library))
              && exists i :: LoneReport(ctx, c, i, r)
  {
    hide MoreSpecific, Failover.Resolved;
    if i :| LoneReport(ctx, c, i, r) {
      assert Failover.OnlyAt(c, i);
    }
    if i :| Failover.OnlyAt(c, i) && LoneReport(ctx, c, i, r) {
    }
  }

  lemma TargetedArePresent(ctx: Context, ns: string, t: PolicyTarget)
    ensures forall r :: r in TargetedBy(ctx, ns, t) ==> r in RoutesOf(ctx)
  {
    GatewayRoutesExact(ctx, ns, t.name, t.sectionName);
    AttachedAre(RoutesOf(ctx), ParentQuery(LISTENER_SET, ns, t.name, t.sectionName));
    hide RoutesOf, AttachedToGateway, Attached, FirstRoute, Reaches, Direct;
  }

  lemma CoveredArePresent(ctx: Context, ns: string, policy: PolicySpec, library: LabelLibrary)
    ensures forall c :: c in Coverage(ctx, ns, policy, library) ==> c.route in RoutesOf(ctx)
  {
    var targets := TargetsOf(RefsOf(policy));
    ByTargetsAre(ctx, ns, targets);
    BySelectorsAre(ctx, ns, policy.targetSelectors, library);
    forall t
      ensures forall r :: r in TargetedBy(ctx, ns, t) ==> r in RoutesOf(ctx)
    {
      TargetedArePresent(ctx, ns, t);
    }
    hide ByTargets, BySelectors, TargetedBy, RoutesOf, RefsOf, Selects;
  }

  lemma {:induction false} ReportsAreOfCovered(ctx: Context, self: int, covered: seq<CoveredRoute>,
                                               library: LabelLibrary, diagnostics: seq<Failover.Report>)
    requires Failover.ReportsOf(ctx, self, covered, library, diagnostics)
    ensures forall r :: r in diagnostics <==> exists c :: c in covered && Failover.Reported(ctx, self, c, library, r)
  {
    hide Failover.Reported;
    if covered != [] {
      var n := |covered| - 1;
      var init, last := covered[..n], covered[n];
      assert forall c :: c in covered <==> c in init || c == last;
      if forall r :: !Failover.Reported(ctx, self, last, library, r) {
        ReportsAreOfCovered(ctx, self, init, library, diagnostics);
      } else {
        var k := |diagnostics| - 1;
        ReportsAreOfCovered(ctx, self, init, library, diagnostics[..k]);
        assert forall r :: r in diagnostics <==> r in diagnostics[..k] || r == diagnostics[k];
        forall r | Failover.Reported(ctx, self, last, library, r)
          ensures r == diagnostics[k]
        {
          Failover.ReportIsUnique(ctx, self, last, library, r, diagnostics[k]);
        }
      }
    }
  }

  /** What a policy that checks health reports: an endpoint for every covered route that has a lone one, unless the
      coverage is inherited and displaced. */
  lemma FailoverReportsAre(ctx: Context, self: int, library: LabelLibrary, diagnostics: seq<Failover.Report>)
    requires 0 <= self < |ctx| && ctx[self].BackendTrafficPolicy?
    requires Failover.ReportsOf(
               ctx, self, Coverage(ctx, ctx[self].meta.namespace, ctx[self].policy, library), library, diagnostics)
    ensures forall r :: r in diagnostics <==>
              && r.coverage in Coverage(ctx, ctx[self].meta.namespace, ctx[self].policy, library)
              && !(r.coverage.inherited && exists i :: && 0 <= i < |ctx| && i != self
                                                       && NamesDirectly(ctx, ctx[i], r.coverage.route, None, library))
              && exists i :: NamesEndpoint(ctx, r.coverage, i, r)
  {
    var covered := Coverage(ctx, ctx[self].meta.namespace, ctx[self].policy, library);
    ReportsAreOfCovered(ctx, self, covered, library, diagnostics);
    CoveredArePresent(ctx, ctx[self].meta.namespace, ctx[self].policy, library);
    hide Coverage, NamesDirectly, RoutesOf, Failover.ReportsOf, ResolvesTo, IsLone;
    forall c, r | c in covered
      ensures Failover.Reported(ctx, self, c, library, r) ==> r.coverage == c
    {
      hide Failover.Resolved, MoreSpecific, Failover.OnlyAt;
    }
    hide Failover.Reported, NamesEndpoint;
    forall c, r | c in covered
      ensures Failover.Reported(ctx, self, c, library, r) <==>
                && !(c.inherited && exists i :: && 0 <= i < |ctx| && i != self
                                                && NamesDirectly(ctx, ctx[i], c.route, None, library))
                && exists i :: NamesEndpoint(ctx, c, i, r)
    {
      FailoverReportIff(ctx, self, c, library, r);
    }
  }

  // gateway-serves-no-routes

  /** A ListenerSet of that Gateway by namespace and name alone, whatever group and kind it states. */
  predicate IsSetByName(obj: Object, namespace: string, name: string) {
    && obj.ListenerSetV1? && obj.setParent.name == name
    && (|| obj.setParent.namespace == Some(namespace)
        || (obj.setParent.namespace.None? && obj.meta.namespace == namespace))
  }

  ghost predicate NamesSetByName(ctx: Context, namespace: string, name: string, r: Route) {
    exists i :: 0 <= i < |ctx| && IsSetByName(ctx[i], namespace, name)
                && NamesParent(r, "ListenerSet", ctx[i].meta.namespace, ctx[i].meta.name, None)
  }

  /** A Gateway is reported if and only if there are routes, and none names it or a ListenerSet of its. */
  lemma ServesNoRoutesIff(ctx: Context, obj: Object)
    ensures GatewayServesNoRoutes.ServesNoRoutes(ctx, obj) <==>
              && (obj.GatewayV1? || obj.GatewayV1Beta1?) && RoutesOf(ctx) != []
              && forall r :: r in RoutesOf(ctx) ==>
                   && !NamesParent(r, "Gateway", obj.meta.namespace, obj.meta.name, None)
                   && !NamesSetByName(ctx, obj.meta.namespace, obj.meta.name, r)
  {
    hide RoutesOf, NamesParent, NamesSetByName, GatewayServesNoRoutes.NamesOneOf, GatewayServesNoRoutes.OwnedSets;
    forall r | obj.GatewayV1? || obj.GatewayV1Beta1?
      ensures GatewayServesNoRoutes.NamesOneOf(r, {GatewayServesNoRoutes.SelfRef(obj)}
                + GatewayServesNoRoutes.OwnedSets(ctx, GatewayServesNoRoutes.SelfRef(obj))) <==>
                || NamesParent(r, "Gateway", obj.meta.namespace, obj.meta.name, None)
                || NamesSetByName(ctx, obj.meta.namespace, obj.meta.name, r)
    {
      NamesAttachPoint(ctx, obj, r);
    }
  }

  lemma NamesAttachPoint(ctx: Context, obj: Object, r: Route)
    requires obj.GatewayV1? || obj.GatewayV1Beta1?
    ensures GatewayServesNoRoutes.NamesOneOf(r, {GatewayServesNoRoutes.SelfRef(obj)}
              + GatewayServesNoRoutes.OwnedSets(ctx, GatewayServesNoRoutes.SelfRef(obj))) <==>
              || NamesParent(r, "Gateway", obj.meta.namespace, obj.meta.name, None)
              || NamesSetByName(ctx, obj.meta.namespace, obj.meta.name, r)
  {
    var ns, name := obj.meta.namespace, obj.meta.name;
    var self := GatewayServesNoRoutes.SelfRef(obj);
    GatewayServesNoRoutes.NamesAttachPointIff(ctx, obj, r);
    ReachesIff(ctx, ns, name, None, r);
    forall i | 0 <= i < |ctx|
      ensures GatewayServesNoRoutes.OwnedBy(ctx[i], self) <==> IsSetByName(ctx[i], ns, name)
      ensures BelongsTo(ctx[i], ns, name) ==> IsSetByName(ctx[i], ns, name)
      ensures BelongsTo(ctx[i], ns, name) <==> IsSetOf(ctx[i], ns, name)
      ensures AttachesTo(r, SetQuery(ctx[i].meta)) <==>
                NamesParent(r, "ListenerSet", ctx[i].meta.namespace, ctx[i].meta.name, None)
    {
      SetIff(ctx[i], ns, name);
      AttachesToIff(r, SetQuery(ctx[i].meta));
    }
    hide GatewayServesNoRoutes.NamesOneOf, GatewayServesNoRoutes.OwnedSets, NamesParent, AttachesTo, BelongsTo,
         IsSetByName, GatewayServesNoRoutes.OwnedBy, IsSetOf, SetQuery;
  }
}
