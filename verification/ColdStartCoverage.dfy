/** The second coverage engine, private to fqdn-backend-cold-start (pkg/templates/fqdnbackendcoldstart/coverage.go).
    Every method is proved to compute what the shared engine of PolicyCoverage computes. */
module ColdStartCoverage {
  import opened Manifests
  import opened Routes
  import opened Parents
  import PolicyCoverage

  datatype TargetRef = TargetRef(kind: string, name: string, sectionName: Option<string>, viaSelector: bool)

  datatype CoveredRoute = CoveredRoute(ref: TargetRef, route: Route, inherited: bool, ruleSection: Option<string>)

  datatype ListenerSetRef = ListenerSetRef(namespace: string, name: string)

  datatype RouteKey = RouteKey(kind: string, namespace: string, name: string)

  function KeyOf(r: Route): RouteKey {
    RouteKey(r.kind, r.namespace, r.name)
  }

  predicate IsParentKind(kind: string) {
    kind == GATEWAY || kind == LISTENER_SET
  }

  predicate IsRouteKind(kind: string) {
    exists k :: k in ROUTE_KINDS && kind == k
  }

  predicate SectionCoversRule(section: Option<string>, rule: Option<string>) {
    if section.None? then true else rule.Some? && rule.value == section.value
  }

  predicate NamespaceSelected(from: Option<string>, policyNamespace: string, routeNamespace: string) {
    if from.None? || from.value == "Same" then routeNamespace == policyNamespace else from.value == "All"
  }

  // How the two engines' values correspond

  function Shared(c: CoveredRoute): PolicyCoverage.CoveredRoute {
    PolicyCoverage.CoveredRoute(SharedTarget(c.ref), c.route, c.inherited, c.ruleSection)
  }

  function SharedTarget(ref: TargetRef): PolicyCoverage.PolicyTarget {
    PolicyCoverage.PolicyTarget(ref.kind, ref.name, ref.sectionName, ref.viaSelector)
  }

  /** The same sequence, entry by entry. */
  ghost predicate SameCoverage(mine: seq<CoveredRoute>, theirs: seq<PolicyCoverage.CoveredRoute>) {
    |mine| == |theirs| && forall i :: 0 <= i < |mine| ==> Shared(mine[i]) == theirs[i]
  }

  lemma SameCoverageAppends(a: seq<CoveredRoute>, b: seq<CoveredRoute>,
                            a': seq<PolicyCoverage.CoveredRoute>, b': seq<PolicyCoverage.CoveredRoute>)
    requires SameCoverage(a, a') && SameCoverage(b, b')
    ensures SameCoverage(a + b, a' + b')
  {
    hide Shared;
  }

  // The engine

  method PolicyTargetRefs(policy: PolicySpec) returns (refs: seq<TargetRef>)
    ensures |refs| == |PolicyCoverage.RefsOf(policy)|
    ensures forall i :: 0 <= i < |refs| ==>
                          SharedTarget(refs[i]) == PolicyCoverage.TargetOf(PolicyCoverage.RefsOf(policy)[i])
  {
    refs := [];
    if policy.targetRef.Some? {
      var ref := policy.targetRef.value;
      refs := refs + [TargetRef(ref.kind, ref.name, ref.sectionName, false)];
    }
    ghost var first := |refs|;
    for i := 0 to |policy.targetRefs|
      invariant |refs| == first + i
      invariant forall k :: 0 <= k < |refs| ==>
                              SharedTarget(refs[k]) == PolicyCoverage.TargetOf(PolicyCoverage.RefsOf(policy)[k])
    {
      var r := policy.targetRefs[i];
      refs := refs + [TargetRef(r.kind, r.name, r.sectionName, false)];
    }
  }

  method RoutesAttachedTo(ctx: Context, parentKind: string, parentNamespace: string, parentName: string,
                          listener: Option<string>) returns (routes: seq<Route>)
    ensures routes == PolicyCoverage.Attached(
                        RoutesOf(ctx), PolicyCoverage.ParentQuery(parentKind, parentNamespace, parentName, listener))
  {
    hide RoutesOf;
    ghost var q := PolicyCoverage.ParentQuery(parentKind, parentNamespace, parentName, listener);
    var all := ListRoutes(ctx);
    routes := [];
    for i := 0 to |all|
      invariant routes == PolicyCoverage.Attached(all[..i], q)
    {
      assert all[..i + 1][..i] == all[..i];
      var parents := ParentsOf(all[i]);
      var found := false;
      for j := 0 to |parents|
        invariant !found
        invariant forall k :: 0 <= k < j ==>
          !(parents[k].Matches(parentKind, parentNamespace, parentName) && parents[k].CoversListener(listener))
      {
        if parents[j].Matches(parentKind, parentNamespace, parentName) && parents[j].CoversListener(listener) {
          found := true;
          break;
        }
      }
      assert found <==> PolicyCoverage.AttachesTo(all[i], q);
      if found {
        routes := routes + [all[i]];
      }
    }
    assert all[..|all|] == all;
  }

  ghost predicate SameSets(mine: seq<ListenerSetRef>, theirs: seq<ObjectRef>) {
    |mine| == |theirs| && forall i :: 0 <= i < |mine| ==>
        theirs[i] == ObjectRef(LISTENER_SET, mine[i].namespace, mine[i].name)
  }

  method ListenerSetsOfGateway(ctx: Context, gatewayNamespace: string, gatewayName: string)
    returns (sets: seq<ListenerSetRef>)
    ensures SameSets(sets, PolicyCoverage.SetsOf(ctx, gatewayNamespace, gatewayName))
  {
    sets := [];
    for i := 0 to |ctx|
      invariant SameSets(sets, PolicyCoverage.SetsOf(ctx[..i], gatewayNamespace, gatewayName))
    {
      assert ctx[..i + 1][..i] == ctx[..i];
      var obj := ctx[i];
      if !obj.ListenerSetV1? {
        continue;
      }
      var parent := obj.setParent;
      if parent.group.Some? && parent.group.value != GATEWAY_API_GROUP {
        continue;
      }
      if parent.kind.Some? && parent.kind.value != GATEWAY {
        continue;
      }
      var ns := obj.meta.namespace;
      if parent.namespace.Some? {
        ns := parent.namespace.value;
      }
      if ns == gatewayNamespace && parent.name == gatewayName {
        sets := sets + [ListenerSetRef(obj.meta.namespace, obj.meta.name)];
      }
    }
    assert ctx[..|ctx|] == ctx;
  }

  /** This engine's keys are the shared engine's keys. */
  ghost predicate SameKeys(mine: set<RouteKey>, theirs: set<PolicyCoverage.RouteKey>) {
    forall r: Route :: KeyOf(r) in mine <==> PolicyCoverage.KeyOf(r) in theirs
  }

  lemma KeysAgree(r: Route, s: Route)
    ensures KeyOf(r) == KeyOf(s) <==> PolicyCoverage.KeyOf(r) == PolicyCoverage.KeyOf(s)
  {
  }

  method RoutesAttachedToGateway(ctx: Context, gatewayNamespace: string, gatewayName: string, listener: Option<string>)
    returns (routes: seq<Route>)
    ensures routes == PolicyCoverage.AttachedToGateway(ctx, gatewayNamespace, gatewayName, listener)
  {
    hide RoutesOf, PolicyCoverage.Attached, PolicyCoverage.SetsOf, PolicyCoverage.Fresh, PolicyCoverage.KeysOf;
    routes := RoutesAttachedTo(ctx, GATEWAY, gatewayNamespace, gatewayName, listener);
    ghost var direct, directKeys := routes, PolicyCoverage.KeysOf(routes);
    var seen := Keys(routes);
    var sets := ListenerSetsOfGateway(ctx, gatewayNamespace, gatewayName);
    ghost var refs := PolicyCoverage.SetsOf(ctx, gatewayNamespace, gatewayName);
    ghost var done: seq<Route> := [];
    PolicyCoverage.FreshOfNone(directKeys);
    for i := 0 to |sets|
      invariant done == PolicyCoverage.ThroughSets(ctx, refs[..i])
      invariant routes == direct + PolicyCoverage.Fresh(done, directKeys)
      invariant SameKeys(seen, directKeys + PolicyCoverage.KeysOf(done))
    {
      assert refs[..i + 1][..i] == refs[..i];
      var attached := RoutesAttachedTo(ctx, LISTENER_SET, sets[i].namespace, sets[i].name, None);
      ghost var before := done;
      for j := 0 to |attached|
        invariant done == before + attached[..j]
        invariant routes == direct + PolicyCoverage.Fresh(done, directKeys)
        invariant SameKeys(seen, directKeys + PolicyCoverage.KeysOf(done))
      {
        var r := attached[j];
        PolicyCoverage.FreshStep(done, r, directKeys);
        OneMoreKey(seen, directKeys + PolicyCoverage.KeysOf(done), r);
        assert before + attached[..j + 1] == done + [r];
        assert directKeys + PolicyCoverage.KeysOf(done + [r])
            == directKeys + PolicyCoverage.KeysOf(done) + {PolicyCoverage.KeyOf(r)};
        done := done + [r];
        if KeyOf(r) in seen {
          assert seen + {KeyOf(r)} == seen;
          continue;
        }
        seen := seen + {KeyOf(r)};
        routes := routes + [r];
      }
      assert attached[..|attached|] == attached;
    }
    assert refs[..|sets|] == refs;
  }

  lemma OneMoreKey(mine: set<RouteKey>, theirs: set<PolicyCoverage.RouteKey>, r: Route)
    requires SameKeys(mine, theirs)
    ensures SameKeys(mine + {KeyOf(r)}, theirs + {PolicyCoverage.KeyOf(r)})
  {
    forall s: Route
      ensures KeyOf(s) in mine + {KeyOf(r)} <==> PolicyCoverage.KeyOf(s) in theirs + {PolicyCoverage.KeyOf(r)}
    {
      KeysAgree(r, s);
    }
  }

  method Keys(routes: seq<Route>) returns (seen: set<RouteKey>)
    ensures SameKeys(seen, PolicyCoverage.KeysOf(routes))
  {
    seen := {};
    for i := 0 to |routes|
      invariant SameKeys(seen, PolicyCoverage.KeysOf(routes[..i]))
    {
      OneMoreKey(seen, PolicyCoverage.KeysOf(routes[..i]), routes[i]);
      assert routes[..i + 1] == routes[..i] + [routes[i]];
      PolicyCoverage.FreshStep(routes[..i], routes[i], {});
      seen := seen + {KeyOf(routes[i])};
    }
    assert routes[..|routes|] == routes;
  }

  method FindRoute(ctx: Context, namespace: string, name: string, kind: string) returns (r: Option<Route>)
    ensures r == PolicyCoverage.FirstRoute(RoutesOf(ctx), PolicyCoverage.RouteKey(kind, namespace, name))
  {
    hide RoutesOf;
    var all := ListRoutes(ctx);
    ghost var key := PolicyCoverage.RouteKey(kind, namespace, name);
    for i := 0 to |all|
      invariant PolicyCoverage.FirstRoute(all, key) == PolicyCoverage.FirstRoute(all[i..], key)
    {
      assert all[i..][1..] == all[i + 1..];
      if all[i].kind == kind && all[i].namespace == namespace && all[i].name == name {
        return Some(all[i]);
      }
    }
    return None;
  }

  method ResolveRoutes(ctx: Context, policyNamespace: string, ref: TargetRef) returns (routes: seq<Route>)
    ensures routes == PolicyCoverage.TargetedBy(ctx, policyNamespace, SharedTarget(ref))
  {
    hide RoutesOf, PolicyCoverage.Attached, PolicyCoverage.AttachedToGateway, PolicyCoverage.FirstRoute;
    if ref.kind == GATEWAY {
      routes := RoutesAttachedToGateway(ctx, policyNamespace, ref.name, ref.sectionName);
    } else if ref.kind == LISTENER_SET {
      routes := RoutesAttachedTo(ctx, LISTENER_SET, policyNamespace, ref.name, ref.sectionName);
    } else {
      if !IsRouteKind(ref.kind) {
        return [];
      }
      var route := FindRoute(ctx, policyNamespace, ref.name, ref.kind);
      if route.None? {
        return [];
      }
      return [route.value];
    }
  }

  /** Walks the objects themselves rather than the list of routes. */
  method ResolveSelectedRoutes(ctx: Context, policyNamespace: string, sel: TargetSelector,
                               library: PolicyCoverage.LabelLibrary)
    returns (routes: seq<Route>)
    ensures routes == PolicyCoverage.SelectedBy(RoutesOf(ctx), policyNamespace, sel, library)
  {
    hide RouteOf, IsRouteKind, PolicyCoverage.IsRouteKind, NamespaceSelected, PolicyCoverage.TargetNamespaceSelected;
    RouteKindsAgree(sel.kind);
    routes := [];
    if sel.group.Some? && sel.group.value != GATEWAY_API_GROUP {
      PolicyCoverage.NothingSelected(RoutesOf(ctx), policyNamespace, sel, library);
      return;
    }
    if !IsRouteKind(sel.kind) {
      PolicyCoverage.NothingSelected(RoutesOf(ctx), policyNamespace, sel, library);
      return;
    }
    if !library.parses(sel.labels) {
      PolicyCoverage.NothingSelected(RoutesOf(ctx), policyNamespace, sel, library);
      return;
    }
    for i := 0 to |ctx|
      invariant routes == PolicyCoverage.SelectedBy(RoutesOf(ctx[..i]), policyNamespace, sel, library)
    {
      SelectedStep(ctx, i, policyNamespace, sel, library);
      var route := AsRoute(ctx[i]);
      if route.None? || route.value.kind != sel.kind {
        continue;
      }
      NamespacesAgree(sel.namespacesFrom, policyNamespace, route.value.namespace);
      if !NamespaceSelected(sel.namespacesFrom, policyNamespace, route.value.namespace) {
        continue;
      }
      if !library.matches(sel.labels, route.value.labels) {
        continue;
      }
      routes := routes + [route.value];
    }
    assert ctx[..|ctx|] == ctx;
  }

  lemma RouteKindsAgree(kind: string)
    ensures IsRouteKind(kind) <==> PolicyCoverage.IsRouteKind(kind)
  {
  }

  lemma NamespacesAgree(from: Option<string>, policyNamespace: string, routeNamespace: string)
    ensures NamespaceSelected(from, policyNamespace, routeNamespace)
       <==> PolicyCoverage.TargetNamespaceSelected(from, policyNamespace, routeNamespace)
  {
  }

  lemma SelectedStep(ctx: Context, i: nat, ns: string, sel: TargetSelector, library: PolicyCoverage.LabelLibrary)
    requires i < |ctx|
    ensures var before, after := PolicyCoverage.SelectedBy(RoutesOf(ctx[..i]), ns, sel, library),
                                 PolicyCoverage.SelectedBy(RoutesOf(ctx[..i + 1]), ns, sel, library);
            match RouteOf(ctx[i])
            case Some(r) =>
              after == if PolicyCoverage.Selects(sel, ns, library, r) then before + [r] else before
            case None => after == before
  {
    hide RouteOf, PolicyCoverage.Selects;
    assert ctx[..i + 1][..i] == ctx[..i];
    var routes := RoutesOf(ctx[..i]);
    if RouteOf(ctx[i]).Some? {
      assert (routes + [RouteOf(ctx[i]).value])[..|routes|] == routes;
    }
  }

  method CoverRef(ctx: Context, policyNamespace: string, ref: TargetRef) returns (covered: seq<CoveredRoute>)
    ensures var target := SharedTarget(ref);
            var routes := PolicyCoverage.TargetedBy(ctx, policyNamespace, target);
            SameCoverage(covered, PolicyCoverage.CoverAll(target, routes))
  {
    hide PolicyCoverage.TargetedBy;
    var inherited := IsParentKind(ref.kind);
    var ruleSection: Option<string> := None;
    if !inherited {
      ruleSection := ref.sectionName;
    }
    var routes := ResolveRoutes(ctx, policyNamespace, ref);
    covered := [];
    for j := 0 to |routes|
      invariant |covered| == j
      invariant forall k :: 0 <= k < j ==> Shared(covered[k]) == PolicyCoverage.CoverOf(SharedTarget(ref), routes[k])
    {
      covered := covered + [CoveredRoute(ref, routes[j], inherited, ruleSection)];
    }
  }

  method CoverSelector(ctx: Context, policyNamespace: string, sel: TargetSelector, library: PolicyCoverage.LabelLibrary)
    returns (covered: seq<CoveredRoute>)
    ensures var selected := PolicyCoverage.SelectedBy(RoutesOf(ctx), policyNamespace, sel, library);
            SameCoverage(covered, PolicyCoverage.SelectAll(selected))
  {
    hide RoutesOf, PolicyCoverage.SelectedBy;
    var routes := ResolveSelectedRoutes(ctx, policyNamespace, sel, library);
    covered := [];
    for j := 0 to |routes|
      invariant |covered| == j
      invariant forall k :: 0 <= k < j ==> Shared(covered[k]) == PolicyCoverage.SelectionOf(routes[k])
    {
      var ref := TargetRef(routes[j].kind, routes[j].name, None, true);
      covered := covered + [CoveredRoute(ref, routes[j], false, None)];
    }
  }

  /** The two engines agree: same targets, routes, inheritance and rule sections, in the same order. */
  method PolicyCoverageOf(ctx: Context, policyNamespace: string, policy: PolicySpec,
                          library: PolicyCoverage.LabelLibrary)
    returns (covered: seq<CoveredRoute>)
    ensures SameCoverage(covered, PolicyCoverage.Coverage(ctx, policyNamespace, policy, library))
  {
    hide PolicyCoverage.ByTargets, PolicyCoverage.BySelectors, PolicyCoverage.TargetedBy, SameCoverage, Shared;
    ghost var targets, selectors := PolicyCoverage.TargetsOf(PolicyCoverage.RefsOf(policy)), policy.targetSelectors;
    var refs := PolicyTargetRefs(policy);
    covered := [];
    NothingCovered(ctx, policyNamespace, targets, selectors, library);
    for i := 0 to |refs|
      invariant SameCoverage(covered, PolicyCoverage.ByTargets(ctx, policyNamespace, targets[..i]))
    {
      PolicyCoverage.ByTargetsStep(ctx, policyNamespace, targets, i);
      var more := CoverRef(ctx, policyNamespace, refs[i]);
      SameCoverageAppends(covered, more, PolicyCoverage.ByTargets(ctx, policyNamespace, targets[..i]),
                          PolicyCoverage.CoverAll(targets[i],
                              PolicyCoverage.TargetedBy(ctx, policyNamespace, targets[i])));
      covered := covered + more;
    }
    assert targets[..|refs|] == targets;
    var selected := SelectedCoverage(ctx, policyNamespace, policy.targetSelectors, library);
    SameCoverageAppends(covered, selected, PolicyCoverage.ByTargets(ctx, policyNamespace, targets),
                        PolicyCoverage.BySelectors(ctx, policyNamespace, selectors, library));
    covered := covered + selected;
  }

  method SelectedCoverage(ctx: Context, policyNamespace: string, selectors: seq<TargetSelector>,
                          library: PolicyCoverage.LabelLibrary)
    returns (covered: seq<CoveredRoute>)
    ensures SameCoverage(covered, PolicyCoverage.BySelectors(ctx, policyNamespace, selectors, library))
  {
    NothingCovered(ctx, policyNamespace, [], selectors, library);
    hide PolicyCoverage.BySelectors, PolicyCoverage.SelectedBy, RoutesOf, SameCoverage, Shared;
    covered := [];
    for i := 0 to |selectors|
      invariant SameCoverage(covered, PolicyCoverage.BySelectors(ctx, policyNamespace, selectors[..i], library))
    {
      PolicyCoverage.BySelectorsStep(ctx, policyNamespace, selectors, library, i);
      var more := CoverSelector(ctx, policyNamespace, selectors[i], library);
      SameCoverageAppends(covered, more, PolicyCoverage.BySelectors(ctx, policyNamespace, selectors[..i], library),
                          PolicyCoverage.SelectAll(PolicyCoverage.SelectedBy(RoutesOf(ctx), policyNamespace,
                              selectors[i], library)));
      covered := covered + more;
    }
    assert selectors[..|selectors|] == selectors;
  }

  lemma NothingCovered(ctx: Context, ns: string, targets: seq<PolicyCoverage.PolicyTarget>,
                       selectors: seq<TargetSelector>,
                       library: PolicyCoverage.LabelLibrary)
    ensures SameCoverage([], PolicyCoverage.ByTargets(ctx, ns, targets[..0]))
    ensures SameCoverage([], PolicyCoverage.BySelectors(ctx, ns, selectors[..0], library))
  {
  }

  // Overriding

  predicate HasHealthCheck(policy: PolicySpec) {
    policy.healthCheck.Some? && (policy.healthCheck.value.hasActive || policy.healthCheck.value.hasPassive)
  }

  /** Some other policy with a health check covers the rule directly. */
  predicate Overridden(ctx: Context, route: Route, rule: Option<string>, self: int,
                       library: PolicyCoverage.LabelLibrary) {
    exists i :: 0 <= i < |ctx| && i != self && ctx[i].BackendTrafficPolicy? && HasHealthCheck(ctx[i].policy)
                && PolicyCoverage.CoversDirectly(ctx, ctx[i], route, rule, library)
  }

  method IsOverridden(ctx: Context, route: Route, rule: Option<string>, self: int,
                      library: PolicyCoverage.LabelLibrary) returns (r: bool)
    ensures r == Overridden(ctx, route, rule, self, library)
  {
    hide PolicyCoverage.Coverage, HasHealthCheck, PolicyCoverage.Displaces;
    for i := 0 to |ctx|
      invariant forall k :: 0 <= k < i && k != self && ctx[k].BackendTrafficPolicy? && HasHealthCheck(ctx[k].policy) ==>
                              !PolicyCoverage.CoversDirectly(ctx, ctx[k], route, rule, library)
    {
      if !ctx[i].BackendTrafficPolicy? || i == self || !HasHealthCheck(ctx[i].policy) {
        continue;
      }
      ghost var shared := PolicyCoverage.Coverage(ctx, ctx[i].meta.namespace, ctx[i].policy, library);
      var covered := PolicyCoverageOf(ctx, ctx[i].meta.namespace, ctx[i].policy, library);
      for j := 0 to |covered|
        invariant forall k :: 0 <= k < j ==> !PolicyCoverage.Displaces(shared[k], route, rule)
      {
        DisplacesHere(covered[j], route, rule);
        if covered[j].inherited || KeyOf(covered[j].route) != KeyOf(route) {
          continue;
        }
        if SectionCoversRule(covered[j].ruleSection, rule) {
          assert shared[j] in shared;
          return true;
        }
      }
    }
    return false;
  }

  lemma DisplacesHere(c: CoveredRoute, route: Route, rule: Option<string>)
    ensures PolicyCoverage.Displaces(Shared(c), route, rule) <==>
              !c.inherited && KeyOf(c.route) == KeyOf(route) && SectionCoversRule(c.ruleSection, rule)
  {
    KeysAgree(c.route, route);
  }

  predicate OthersHaveHealthChecks(ctx: Context, self: int) {
    forall i :: 0 <= i < |ctx| && i != self && ctx[i].BackendTrafficPolicy? ==> HasHealthCheck(ctx[i].policy)
  }

  /** Being overridden here implies being displaced there, and the two agree when every other policy has a health
      check. */
  lemma OverriddenVersusMoreSpecific(ctx: Context, route: Route, rule: Option<string>, self: int,
                                     library: PolicyCoverage.LabelLibrary)
    ensures Overridden(ctx, route, rule, self, library) ==> PolicyCoverage.MoreSpecific(ctx, route, rule, self, library)
    ensures OthersHaveHealthChecks(ctx, self) ==>
              (Overridden(ctx, route, rule, self, library) <==>
                  PolicyCoverage.MoreSpecific(ctx, route, rule, self, library))
  {
    hide PolicyCoverage.Coverage, PolicyCoverage.Displaces;
  }
}
