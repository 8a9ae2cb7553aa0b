/** Which routes a BackendTrafficPolicy reaches: by naming them, by naming a Gateway or ListenerSet they attach to,
    or by selecting them with labels (pkg/gatewayapi/policycoverage.go). */
module PolicyCoverage {
  import opened Manifests
  import opened Routes
  import opened Parents

  /** metav1.LabelSelectorAsSelector and Selector.Matches, left to the library: whether a selector parses, and
      whether it matches a set of labels. */
  datatype LabelLibrary = LabelLibrary(
    parses: LabelSelector -> bool, matches: (LabelSelector, map<string, string>) -> bool)

  datatype PolicyTarget = PolicyTarget(kind: string, name: string, sectionName: Option<string>, viaSelector: bool)

  datatype CoveredRoute = CoveredRoute(
    target: PolicyTarget, route: Route, inherited: bool, ruleSection: Option<string>)

  /** Identifies a route for de-duplication. */
  datatype RouteKey = RouteKey(kind: string, namespace: string, name: string)

  function KeyOf(r: Route): RouteKey {
    RouteKey(r.kind, r.namespace, r.name)
  }

  function KeysOf(routes: seq<Route>): set<RouteKey> {
    set r | r in routes :: KeyOf(r)
  }

  predicate IsParentKind(kind: string) {
    kind == GATEWAY || kind == LISTENER_SET
  }

  predicate IsRouteKind(kind: string) {
    kind in ROUTE_KINDS
  }

  predicate SectionCoversRule(section: Option<string>, rule: Option<string>) {
    section.None? || section == rule
  }

  predicate TargetNamespaceSelected(from: Option<string>, policyNamespace: string, routeNamespace: string) {
    if from.None? || from.value == "Same" then routeNamespace == policyNamespace else from.value == "All"
  }

  // Routes attached to a parent

  /** A Gateway or ListenerSet, optionally narrowed to one of its listeners. */
  datatype ParentQuery = ParentQuery(kind: string, namespace: string, name: string, listener: Option<string>)

  predicate AttachesTo(route: Route, q: ParentQuery) {
    exists p :: p in ParentList(route) && p.Matches(q.kind, q.namespace, q.name) && p.CoversListener(q.listener)
  }

  function Attached(routes: seq<Route>, q: ParentQuery): seq<Route> {
    if routes == [] then []
    else
      var last := routes[|routes| - 1];
      Attached(routes[..|routes| - 1], q) + if AttachesTo(last, q) then [last] else []
  }

  method RoutesAttachedToParent(ctx: Context, q: ParentQuery) returns (attached: seq<Route>)
    ensures attached == Attached(RoutesOf(ctx), q)
  {
    hide RoutesOf;
    var routes := ListRoutes(ctx);
    attached := [];
    for i := 0 to |routes|
      invariant attached == Attached(routes[..i], q)
    {
      assert routes[..i + 1][..i] == routes[..i];
      var parents := ParentsOf(routes[i]);
      var found := false;
      for j := 0 to |parents|
        invariant !found
        invariant forall k :: 0 <= k < j ==>
          !(parents[k].Matches(q.kind, q.namespace, q.name) && parents[k].CoversListener(q.listener))
      {
        if parents[j].Matches(q.kind, q.namespace, q.name) && parents[j].CoversListener(q.listener) {
          found := true;
          break;
        }
      }
      assert found <==> AttachesTo(routes[i], q);
      if found {
        attached := attached + [routes[i]];
      }
    }
    assert routes[..|routes|] == routes;
  }

  // ListenerSets of a Gateway

  /** A ListenerSet whose parentRef names the Gateway, by group, kind, namespace and name. */
  predicate BelongsTo(obj: Object, gatewayNamespace: string, gatewayName: string) {
    && obj.ListenerSetV1?
    && obj.setParent.group.GetOr(GATEWAY_API_GROUP) == GATEWAY_API_GROUP
    && obj.setParent.kind.GetOr(GATEWAY) == GATEWAY
    && var parent := ListenerSetParent(obj.meta, obj.setParent);
      parent.namespace == gatewayNamespace && parent.name == gatewayName
  }

  function SetQuery(meta: Meta): ParentQuery {
    ParentQuery(LISTENER_SET, meta.namespace, meta.name, None)
  }

  function SetsOf(ctx: Context, gatewayNamespace: string, gatewayName: string): seq<ObjectRef> {
    if ctx == [] then []
    else
      var last := ctx[|ctx| - 1];
      SetsOf(ctx[..|ctx| - 1], gatewayNamespace, gatewayName)
      + if BelongsTo(last, gatewayNamespace, gatewayName) then
          [ObjectRef(LISTENER_SET, last.meta.namespace, last.meta.name)]
        else []
  }

  method ListenerSetsBelongingTo(ctx: Context, gatewayNamespace: string, gatewayName: string)
    returns (sets: seq<ObjectRef>)
    ensures sets == SetsOf(ctx, gatewayNamespace, gatewayName)
  {
    sets := [];
    for i := 0 to |ctx|
      invariant sets == SetsOf(ctx[..i], gatewayNamespace, gatewayName)
    {
      assert ctx[..i + 1][..i] == ctx[..i];
      var obj := ctx[i];
      if !obj.ListenerSetV1? {
        continue;
      }
      var parent := obj.setParent;
      if parent.group.Some? && parent.group.value != GATEWAY_API_GROUP {
        continue;
      }
      if parent.kind.Some? && parent.kind.value != GATEWAY {
        continue;
      }
      var got := ListenerSetParent(obj.meta, parent);
      if got.namespace == gatewayNamespace && got.name == gatewayName {
        sets := sets + [ObjectRef(LISTENER_SET, obj.meta.namespace, obj.meta.name)];
      }
    }
    assert ctx[..|ctx|] == ctx;
  }

  // Routes attached to a Gateway

  /** The routes of each ListenerSet in turn. */
  function ThroughSets(ctx: Context, sets: seq<ObjectRef>): seq<Route> {
    if sets == [] then []
    else
      var last := sets[|sets| - 1];
      ThroughSets(ctx, sets[..|sets| - 1])
      + Attached(RoutesOf(ctx), ParentQuery(LISTENER_SET, last.namespace, last.name, None))
  }

  /** The routes whose key is neither in `seen` nor carried by an earlier route. */
  function Fresh(routes: seq<Route>, seen: set<RouteKey>): seq<Route> {
    if routes == [] then []
    else
      var init, last := routes[..|routes| - 1], routes[|routes| - 1];
      Fresh(init, seen) + if KeyOf(last) in seen || KeyOf(last) in KeysOf(init) then [] else [last]
  }

  function Direct(ctx: Context, namespace: string, name: string, listener: Option<string>): seq<Route> {
    Attached(RoutesOf(ctx), ParentQuery(GATEWAY, namespace, name, listener))
  }

  function AttachedToGateway(ctx: Context, namespace: string, name: string, listener: Option<string>): seq<Route> {
    var direct := Direct(ctx, namespace, name, listener);
    direct + Fresh(ThroughSets(ctx, SetsOf(ctx, namespace, name)), KeysOf(direct))
  }

  lemma FreshStep(done: seq<Route>, r: Route, seen: set<RouteKey>)
    ensures Fresh([], seen) == [] && KeysOf([]) == {}
    ensures KeysOf(done + [r]) == KeysOf(done) + {KeyOf(r)}
    ensures KeyOf(r) in seen + KeysOf(done) ==> Fresh(done + [r], seen) == Fresh(done, seen)
    ensures KeyOf(r) !in seen + KeysOf(done) ==> Fresh(done + [r], seen) == Fresh(done, seen) + [r]
  {
    assert (done + [r])[..|done|] == done;
  }

  method RoutesAttachedToGateway(ctx: Context, namespace: string, name: string, listener: Option<string>)
    returns (routes: seq<Route>)
    ensures routes == AttachedToGateway(ctx, namespace, name, listener)
  {
    hide RoutesOf, Attached, SetsOf, Fresh, KeysOf;
    routes := RoutesAttachedToParent(ctx, ParentQuery(GATEWAY, namespace, name, listener));
    ghost var direct := routes;
    var seen := Keys(routes);
    var sets := ListenerSetsBelongingTo(ctx, namespace, name);
    ghost var done: seq<Route> := [];
    FreshOfNone(KeysOf(direct));
    for i := 0 to |sets|
      invariant done == ThroughSets(ctx, sets[..i])
      invariant routes == direct + Fresh(done, KeysOf(direct))
      invariant seen == KeysOf(direct) + KeysOf(done)
    {
      assert sets[..i + 1][..i] == sets[..i];
      var attached := RoutesAttachedToParent(ctx, ParentQuery(LISTENER_SET, sets[i].namespace, sets[i].name, None));
      ghost var before := done;
      for j := 0 to |attached|
        invariant done == before + attached[..j]
        invariant routes == direct + Fresh(done, KeysOf(direct))
        invariant seen == KeysOf(direct) + KeysOf(done)
      {
        var r := attached[j];
        FreshStep(done, r, KeysOf(direct));
        assert before + attached[..j + 1] == done + [r];
        done := done + [r];
        if KeyOf(r) in seen {
          continue;
        }
        seen := seen + {KeyOf(r)};
        routes := routes + [r];
      }
      assert attached[..|attached|] == attached;
    }
    assert sets[..|sets|] == sets;
  }

  lemma FreshOfNone(seen: set<RouteKey>)
    ensures Fresh([], seen) == [] && KeysOf([]) == {}
  {
  }

  method Keys(routes: seq<Route>) returns (seen: set<RouteKey>)
    ensures seen == KeysOf(routes)
  {
    seen := {};
    for i := 0 to |routes|
      invariant seen == KeysOf(routes[..i])
    {
      assert routes[..i + 1] == routes[..i] + [routes[i]];
      seen := seen + {KeyOf(routes[i])};
    }
    assert routes[..|routes|] == routes;
  }

  // Routes a target or a selector reaches

  function FirstRoute(routes: seq<Route>, key: RouteKey): (r: Option<Route>)
    ensures r.Some? ==> r.value in routes && KeyOf(r.value) == key
    ensures r.None? ==> forall x :: x in routes ==> KeyOf(x) != key
  {
    if routes == [] then None
    else if KeyOf(routes[0]) == key then Some(routes[0]) else FirstRoute(routes[1..], key)
  }

  function TargetedBy(ctx: Context, policyNamespace: string, target: PolicyTarget): seq<Route> {
    if target.kind == GATEWAY then AttachedToGateway(ctx, policyNamespace, target.name, target.sectionName)
    else if target.kind == LISTENER_SET then
      Attached(RoutesOf(ctx), ParentQuery(LISTENER_SET, policyNamespace, target.name, target.sectionName))
    else if !IsRouteKind(target.kind) then []
    else
      match FirstRoute(RoutesOf(ctx), RouteKey(target.kind, policyNamespace, target.name))
      case Some(r) => [r]
      case None => []
  }

  method RoutesTargetedBy(ctx: Context, policyNamespace: string, target: PolicyTarget) returns (routes: seq<Route>)
    ensures routes == TargetedBy(ctx, policyNamespace, target)
  {
    hide RoutesOf, Attached, AttachedToGateway;
    if target.kind == GATEWAY {
      routes := RoutesAttachedToGateway(ctx, policyNamespace, target.name, target.sectionName);
    } else if target.kind == LISTENER_SET {
      routes := RoutesAttachedToParent(ctx,
          ParentQuery(LISTENER_SET, policyNamespace, target.name, target.sectionName));
    } else {
      if !IsRouteKind(target.kind) {
        return [];
      }
      var all := ListRoutes(ctx);
      ghost var key := RouteKey(target.kind, policyNamespace, target.name);
      for i := 0 to |all|
        invariant FirstRoute(all, key) == FirstRoute(all[i..], key)
      {
        assert all[i..][1..] == all[i + 1..];
        if all[i].kind == target.kind && all[i].namespace == policyNamespace && all[i].name == target.name {
          return [all[i]];
        }
      }
      return [];
    }
  }

  predicate Selects(sel: TargetSelector, policyNamespace: string, library: LabelLibrary, route: Route) {
    && sel.group.GetOr(GATEWAY_API_GROUP) == GATEWAY_API_GROUP && IsRouteKind(sel.kind) && library.parses(sel.labels)
    && route.kind == sel.kind
    && TargetNamespaceSelected(sel.namespacesFrom, policyNamespace, route.namespace)
    && library.matches(sel.labels, route.labels)
  }

  function SelectedBy(routes: seq<Route>, policyNamespace: string, sel: TargetSelector,
                      library: LabelLibrary): seq<Route> {
    if routes == [] then []
    else
      var last := routes[|routes| - 1];
      SelectedBy(routes[..|routes| - 1], policyNamespace, sel, library)
      + if Selects(sel, policyNamespace, library, last) then [last] else []
  }

  lemma {:induction false} NothingSelected(routes: seq<Route>, policyNamespace: string, sel: TargetSelector,
                                           library: LabelLibrary)
    requires forall r :: r in routes ==> !Selects(sel, policyNamespace, library, r)
    ensures SelectedBy(routes, policyNamespace, sel, library) == []
  {
    if routes != [] {
      NothingSelected(routes[..|routes| - 1], policyNamespace, sel, library);
    }
  }

  method RoutesSelectedBy(ctx: Context, policyNamespace: string, sel: TargetSelector, library: LabelLibrary)
    returns (routes: seq<Route>)
    ensures routes == SelectedBy(RoutesOf(ctx), policyNamespace, sel, library)
  {
    hide RoutesOf;
    routes := [];
    if sel.group.Some? && sel.group.value != GATEWAY_API_GROUP {
      NothingSelected(RoutesOf(ctx), policyNamespace, sel, library);
      return;
    }
    if !IsRouteKind(sel.kind) {
      NothingSelected(RoutesOf(ctx), policyNamespace, sel, library);
      return;
    }
    if !library.parses(sel.labels) {
      NothingSelected(RoutesOf(ctx), policyNamespace, sel, library);
      return;
    }
    var all := ListRoutes(ctx);
    for i := 0 to |all|
      invariant routes == SelectedBy(all[..i], policyNamespace, sel, library)
    {
      assert all[..i + 1][..i] == all[..i];
      var route := all[i];
      if route.kind != sel.kind {
        continue;
      }
      if !TargetNamespaceSelected(sel.namespacesFrom, policyNamespace, route.namespace) {
        continue;
      }
      if !library.matches(sel.labels, route.labels) {
        continue;
      }
      routes := routes + [route];
    }
    assert all[..|all|] == all;
  }

  // Coverage

  function TargetOf(ref: PolicyTargetRef): PolicyTarget {
    PolicyTarget(ref.kind, ref.name, ref.sectionName, false)
  }

  function RefsOf(policy: PolicySpec): seq<PolicyTargetRef> {
    (if policy.targetRef.Some? then [policy.targetRef.value] else []) + policy.targetRefs
  }

  function TargetsOf(refs: seq<PolicyTargetRef>): (r: seq<PolicyTarget>)
    ensures |r| == |refs| && forall i :: 0 <= i < |r| ==> r[i] == TargetOf(refs[i])
  {
    seq(|refs|, i requires 0 <= i < |refs| => TargetOf(refs[i]))
  }

  method BackendTrafficPolicyTargets(policy: PolicySpec) returns (targets: seq<PolicyTarget>)
    ensures targets == TargetsOf(RefsOf(policy))
  {
    targets := [];
    if policy.targetRef.Some? {
      targets := targets + [TargetOf(policy.targetRef.value)];
    }
    ghost var first := |targets|;
    for i := 0 to |policy.targetRefs|
      invariant |targets| == first + i
      invariant forall k :: 0 <= k < |targets| ==> targets[k] == TargetOf(RefsOf(policy)[k])
    {
      targets := targets + [TargetOf(policy.targetRefs[i])];
    }
  }

  function CoverOf(target: PolicyTarget, route: Route): CoveredRoute {
    var inherited := IsParentKind(target.kind);
    CoveredRoute(target, route, inherited, if inherited then None else target.sectionName)
  }

  function SelectionOf(route: Route): CoveredRoute {
    CoveredRoute(PolicyTarget(route.kind, route.name, None, true), route, false, None)
  }

  function CoverAll(target: PolicyTarget, routes: seq<Route>): (r: seq<CoveredRoute>)
    ensures |r| == |routes| && forall i :: 0 <= i < |r| ==> r[i] == CoverOf(target, routes[i])
  {
    seq(|routes|, i requires 0 <= i < |routes| => CoverOf(target, routes[i]))
  }

  function SelectAll(routes: seq<Route>): (r: seq<CoveredRoute>)
    ensures |r| == |routes| && forall i :: 0 <= i < |r| ==> r[i] == SelectionOf(routes[i])
  {
    seq(|routes|, i requires 0 <= i < |routes| => SelectionOf(routes[i]))
  }

  function ByTargets(ctx: Context, policyNamespace: string, targets: seq<PolicyTarget>): seq<CoveredRoute> {
    if targets == [] then []
    else
      var last := targets[|targets| - 1];
      ByTargets(ctx, policyNamespace, targets[..|targets| - 1]) + CoverAll(last, TargetedBy(ctx, policyNamespace, last))
  }

  function BySelectors(ctx: Context, policyNamespace: string, selectors: seq<TargetSelector>,
                       library: LabelLibrary): seq<CoveredRoute> {
    if selectors == [] then []
    else
      var last := selectors[|selectors| - 1];
      BySelectors(ctx, policyNamespace, selectors[..|selectors| - 1], library)
      + SelectAll(SelectedBy(RoutesOf(ctx), policyNamespace, last, library))
  }

  function Coverage(ctx: Context, policyNamespace: string, policy: PolicySpec,
                    library: LabelLibrary): seq<CoveredRoute> {
    ByTargets(ctx, policyNamespace, TargetsOf(RefsOf(policy)))
    + BySelectors(ctx, policyNamespace, policy.targetSelectors, library)
  }

  lemma ByTargetsStep(ctx: Context, policyNamespace: string, targets: seq<PolicyTarget>, i: nat)
    requires i < |targets|
    ensures ByTargets(ctx, policyNamespace, targets[..0]) == []
    ensures ByTargets(ctx, policyNamespace, targets[..i + 1])
         == ByTargets(ctx, policyNamespace, targets[..i])
             + CoverAll(targets[i], TargetedBy(ctx, policyNamespace, targets[i]))
  {
    assert targets[..i + 1][..i] == targets[..i];
  }

  lemma BySelectorsStep(ctx: Context, policyNamespace: string, selectors: seq<TargetSelector>, library: LabelLibrary,
                        i: nat)
    requires i < |selectors|
    ensures BySelectors(ctx, policyNamespace, selectors[..i + 1], library)
         == BySelectors(ctx, policyNamespace, selectors[..i], library)
          + SelectAll(SelectedBy(RoutesOf(ctx), policyNamespace, selectors[i], library))
  {
    assert selectors[..i + 1][..i] == selectors[..i];
  }

  method CoveredByTarget(ctx: Context, policyNamespace: string, target: PolicyTarget)
    returns (covered: seq<CoveredRoute>)
    ensures covered == CoverAll(target, TargetedBy(ctx, policyNamespace, target))
  {
    hide TargetedBy;
    var inherited := IsParentKind(target.kind);
    var ruleSection: Option<string> := None;
    if !inherited {
      ruleSection := target.sectionName;
    }
    var routes := RoutesTargetedBy(ctx, policyNamespace, target);
    covered := [];
    for j := 0 to |routes|
      invariant |covered| == j && forall k :: 0 <= k < j ==> covered[k] == CoverOf(target, routes[k])
    {
      covered := covered + [CoveredRoute(target, routes[j], inherited, ruleSection)];
    }
  }

  method CoveredByTargets(ctx: Context, policyNamespace: string, targets: seq<PolicyTarget>)
    returns (covered: seq<CoveredRoute>)
    ensures covered == ByTargets(ctx, policyNamespace, targets)
  {
    assert ByTargets(ctx, policyNamespace, targets[..0]) == [];
    hide TargetedBy, ByTargets, CoverAll;
    covered := [];
    for i := 0 to |targets|
      invariant covered == ByTargets(ctx, policyNamespace, targets[..i])
    {
      ByTargetsStep(ctx, policyNamespace, targets, i);
      var more := CoveredByTarget(ctx, policyNamespace, targets[i]);
      covered := covered + more;
    }
    assert targets[..|targets|] == targets;
  }

  method CoveredBySelectors(ctx: Context, policyNamespace: string, selectors: seq<TargetSelector>,
                            library: LabelLibrary)
    returns (covered: seq<CoveredRoute>)
    ensures covered == BySelectors(ctx, policyNamespace, selectors, library)
  {
    assert BySelectors(ctx, policyNamespace, selectors[..0], library) == [];
    hide SelectedBy, BySelectors, RoutesOf;
    covered := [];
    for i := 0 to |selectors|
      invariant covered == BySelectors(ctx, policyNamespace, selectors[..i], library)
    {
      BySelectorsStep(ctx, policyNamespace, selectors, library, i);
      var routes := RoutesSelectedBy(ctx, policyNamespace, selectors[i], library);
      ghost var before := covered;
      for j := 0 to |routes|
        invariant covered == before + SelectAll(routes)[..j]
      {
        covered := covered + [SelectionOf(routes[j])];
      }
      assert SelectAll(routes)[..|routes|] == SelectAll(routes);
    }
    assert selectors[..|selectors|] == selectors;
  }

  method BackendTrafficPolicyCoverage(ctx: Context, policyNamespace: string, policy: PolicySpec, library: LabelLibrary)
    returns (covered: seq<CoveredRoute>)
    ensures covered == Coverage(ctx, policyNamespace, policy, library)
  {
    var targets := BackendTrafficPolicyTargets(policy);
    covered := CoveredByTargets(ctx, policyNamespace, targets);
    var selected := CoveredBySelectors(ctx, policyNamespace, policy.targetSelectors, library);
    covered := covered + selected;
  }

  // Overriding

  /** A covered route that names the rule of the route directly. */
  predicate Displaces(c: CoveredRoute, route: Route, rule: Option<string>) {
    !c.inherited && KeyOf(c.route) == KeyOf(route) && SectionCoversRule(c.ruleSection, rule)
  }

  predicate CoversDirectly(ctx: Context, obj: Object, route: Route, rule: Option<string>, library: LabelLibrary) {
    obj.BackendTrafficPolicy?
    && exists c :: c in Coverage(ctx, obj.meta.namespace, obj.policy, library) && Displaces(c, route, rule)
  }

  /** Some policy other than the one at position `self` covers the rule directly. */
  predicate MoreSpecific(ctx: Context, route: Route, rule: Option<string>, self: int, library: LabelLibrary) {
    exists i :: 0 <= i < |ctx| && i != self && CoversDirectly(ctx, ctx[i], route, rule, library)
  }

  method MoreSpecificPolicyCovers(ctx: Context, route: Route, rule: Option<string>, self: int, library: LabelLibrary)
    returns (r: bool)
    ensures r == MoreSpecific(ctx, route, rule, self, library)
  {
    hide Coverage, SectionCoversRule;
    for i := 0 to |ctx|
      invariant forall k :: 0 <= k < i && k != self ==> !CoversDirectly(ctx, ctx[k], route, rule, library)
    {
      if !ctx[i].BackendTrafficPolicy? || i == self {
        continue;
      }
      var covered := BackendTrafficPolicyCoverage(ctx, ctx[i].meta.namespace, ctx[i].policy, library);
      for j := 0 to |covered|
        invariant forall k :: 0 <= k < j ==> !Displaces(covered[k], route, rule)
      {
        if covered[j].inherited || KeyOf(covered[j].route) != KeyOf(route) {
          continue;
        }
        if SectionCoversRule(covered[j].ruleSection, rule) {
          assert Displaces(covered[j], route, rule) && covered[j] in covered;
          return true;
        }
      }
    }
    return false;
  }
}
