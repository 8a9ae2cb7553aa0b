/** What policy coverage means, stated without the loops (pkg/gatewayapi/policycoverage.go). */
module PolicyReach {
  import opened Manifests
  import opened Routes
  import opened Parents
  import opened PolicyCoverage
  import opened ReferenceTerms

  // What attaches to what

  /** One of the route's parentRefs is to that object and, if one is named, takes that listener in. */
  ghost predicate NamesParent(r: Route, kind: string, namespace: string, name: string, listener: Option<string>) {
    exists ref :: && ref in r.parentRefs && IsTo(ref, r.namespace, kind, namespace, name)
                  && (listener.Some? ==> TakesIn(ref, listener.value))
  }

  lemma AttachesToIff(r: Route, q: ParentQuery)
    ensures AttachesTo(r, q) <==> NamesParent(r, q.kind, q.namespace, q.name, q.listener)
  {
    forall ref
      ensures var p := Resolve(ref, r.namespace);
              p.Matches(q.kind, q.namespace, q.name) && p.CoversListener(q.listener) <==>
                IsTo(ref, r.namespace, q.kind, q.namespace, q.name)
                && (q.listener.Some? ==> TakesIn(ref, q.listener.value))
    {
      ResolveIs(ref, r.namespace, ObjectRef(q.kind, q.namespace, q.name), q.listener.GetOr(""));
    }
    hide Resolve, IsTo, TakesIn;
    if ref :| ref in r.parentRefs && IsTo(ref, r.namespace, q.kind, q.namespace, q.name)
              && (q.listener.Some? ==> TakesIn(ref, q.listener.value)) {
      var i :| 0 <= i < |r.parentRefs| && r.parentRefs[i] == ref;
      assert ParentList(r)[i] in ParentList(r);
    }
  }

  lemma {:induction false} AttachedAre(routes: seq<Route>, q: ParentQuery)
    ensures forall r :: r in Attached(routes, q) <==> r in routes && AttachesTo(r, q)
    ensures forall r :: r in Attached(routes, q) <==>
                          r in routes && NamesParent(r, q.kind, q.namespace, q.name, q.listener)
  {
    forall r
      ensures AttachesTo(r, q) <==> NamesParent(r, q.kind, q.namespace, q.name, q.listener)
    {
      AttachesToIff(r, q);
    }
    hide AttachesTo, NamesParent;
    if routes != [] {
      var n := |routes| - 1;
      AttachedAre(routes[..n], q);
      assert forall r :: r in routes <==> r in routes[..n] || r == routes[n];
    }
  }

  /** `r` attaches to a ListenerSet whose parent is the Gateway. */
  ghost predicate AttachesThroughSet(ctx: Context, namespace: string, name: string, r: Route) {
    exists i :: 0 <= i < |ctx| && BelongsTo(ctx[i], namespace, name) && AttachesTo(r, SetQuery(ctx[i].meta))
  }

  lemma {:induction false} SetsAre(ctx: Context, namespace: string, name: string)
    ensures forall s :: s in SetsOf(ctx, namespace, name) <==>
                          exists i :: 0 <= i < |ctx| && BelongsTo(ctx[i], namespace, name)
                                      && s == ObjectRef(LISTENER_SET, ctx[i].meta.namespace, ctx[i].meta.name)
  {
    hide BelongsTo;
    if ctx != [] {
      var n := |ctx| - 1;
      var init := ctx[..n];
      SetsAre(init, namespace, name);
      forall s
        ensures s in SetsOf(ctx, namespace, name) <==>
                  exists i :: 0 <= i < |ctx| && BelongsTo(ctx[i], namespace, name)
                              && s == ObjectRef(LISTENER_SET, ctx[i].meta.namespace, ctx[i].meta.name)
      {
        if i :| 0 <= i < |ctx| && BelongsTo(ctx[i], namespace, name)
                && s == ObjectRef(LISTENER_SET, ctx[i].meta.namespace, ctx[i].meta.name) {
          assert i < n ==> init[i] == ctx[i];
        }
        if s in SetsOf(init, namespace, name) {
          var i :| 0 <= i < |init| && BelongsTo(init[i], namespace, name)
                   && s == ObjectRef(LISTENER_SET, init[i].meta.namespace, init[i].meta.name);
          assert ctx[i] == init[i];
        }
      }
    }
  }

  lemma {:induction false} ThroughSetsAre(ctx: Context, sets: seq<ObjectRef>)
    ensures forall r :: r in ThroughSets(ctx, sets) <==>
                          && r in RoutesOf(ctx)
                          && exists s :: s in sets && AttachesTo(r,
                              ParentQuery(LISTENER_SET, s.namespace, s.name, None))
  {
    hide AttachesTo, RoutesOf;
    if sets != [] {
      var n := |sets| - 1;
      ThroughSetsAre(ctx, sets[..n]);
      AttachedAre(RoutesOf(ctx), ParentQuery(LISTENER_SET, sets[n].namespace, sets[n].name, None));
      assert forall s :: s in sets <==> s in sets[..n] || s == sets[n];
    }
  }

  /** Every route of `routes` with a key outside `seen` is represented once, by its first carrier. */
  lemma {:induction false} FreshAre(routes: seq<Route>, seen: set<RouteKey>)
    ensures forall r :: r in Fresh(routes, seen) ==> r in routes && KeyOf(r) !in seen
    ensures KeysOf(Fresh(routes, seen)) == KeysOf(routes) - seen
    ensures DistinctKeys(Fresh(routes, seen))
  {
    if routes != [] {
      var n := |routes| - 1;
      var init, last := routes[..n], routes[n];
      FreshAre(init, seen);
      assert routes == init + [last];
      FreshStep(init, last, seen);
      hide Fresh;
      OneMoreKey(Fresh(init, seen), last);
      OneMoreKey(init, last);
    }
  }

  lemma OneMoreKey(routes: seq<Route>, r: Route)
    ensures KeysOf(routes + [r]) == KeysOf(routes) + {KeyOf(r)}
    ensures DistinctKeys(routes) && KeyOf(r) !in KeysOf(routes) ==> DistinctKeys(routes + [r])
  {
    assert forall i :: 0 <= i < |routes| ==> KeyOf(routes[i]) in KeysOf(routes);
  }

  predicate DistinctKeys(routes: seq<Route>) {
    forall i, j :: 0 <= i < j < |routes| ==> KeyOf(routes[i]) != KeyOf(routes[j])
  }

  lemma ThroughSetsOfGateway(ctx: Context, namespace: string, name: string, r: Route)
    ensures r in ThroughSets(ctx, SetsOf(ctx, namespace, name)) <==>
              r in RoutesOf(ctx) && AttachesThroughSet(ctx, namespace, name, r)
  {
    hide AttachesTo, RoutesOf, SetsOf, ThroughSets, BelongsTo;
    SetsAre(ctx, namespace, name);
    ThroughSetsAre(ctx, SetsOf(ctx, namespace, name));
    if AttachesThroughSet(ctx, namespace, name, r) {
      var i :| 0 <= i < |ctx| && BelongsTo(ctx[i], namespace, name) && AttachesTo(r, SetQuery(ctx[i].meta));
      var s := ObjectRef(LISTENER_SET, ctx[i].meta.namespace, ctx[i].meta.name);
      assert s in SetsOf(ctx, namespace, name) && SetQuery(ctx[i].meta)
          == ParentQuery(LISTENER_SET, s.namespace, s.name, None);
    }
  }

  ghost predicate NamesSetOf(ctx: Context, namespace: string, name: string, r: Route) {
    exists i :: 0 <= i < |ctx| && IsSetOf(ctx[i], namespace, name)
                && NamesParent(r, "ListenerSet", ctx[i].meta.namespace, ctx[i].meta.name, None)
  }

  /** `r` names the Gateway on a covered listener, or names one of its ListenerSets. */
  ghost predicate Reaches(ctx: Context, namespace: string, name: string, listener: Option<string>, r: Route) {
    NamesParent(r, "Gateway", namespace, name, listener) || NamesSetOf(ctx, namespace, name, r)
  }

  lemma SetIff(obj: Object, namespace: string, name: string)
    ensures BelongsTo(obj, namespace, name) <==> IsSetOf(obj, namespace, name)
  {
  }

  lemma ReachesIff(ctx: Context, namespace: string, name: string, listener: Option<string>, r: Route)
    ensures AttachesTo(r, ParentQuery(GATEWAY, namespace, name, listener)) <==>
              NamesParent(r, "Gateway", namespace, name, listener)
    ensures AttachesThroughSet(ctx, namespace, name, r) <==> NamesSetOf(ctx, namespace, name, r)
  {
    AttachesToIff(r, ParentQuery(GATEWAY, namespace, name, listener));
    forall i | 0 <= i < |ctx|
      ensures BelongsTo(ctx[i], namespace, name) <==> IsSetOf(ctx[i], namespace, name)
      ensures AttachesTo(r, SetQuery(ctx[i].meta)) <==>
                NamesParent(r, "ListenerSet", ctx[i].meta.namespace, ctx[i].meta.name, None)
    {
      SetIff(ctx[i], namespace, name);
      AttachesToIff(r, SetQuery(ctx[i].meta));
    }
    hide AttachesTo, NamesParent, BelongsTo, IsSetOf;
  }

  /** The routes attached to a Gateway: the direct ones first, then, for keys not met yet, one route each. Nothing
      that does not reach the Gateway is listed, and every identity that does is. */
  lemma GatewayRoutesExact(ctx: Context, namespace: string, name: string, listener: Option<string>)
    ensures var routes := AttachedToGateway(ctx, namespace, name, listener);
            var direct := Direct(ctx, namespace, name, listener);
            && direct <= routes
            && DistinctKeys(routes[|direct|..])
            && KeysOf(routes[|direct|..]) !! KeysOf(direct)
            && (forall r :: r in routes ==> r in RoutesOf(ctx) && Reaches(ctx, namespace, name, listener, r))
            && (forall r :: r in RoutesOf(ctx) && Reaches(ctx, namespace, name, listener, r) ==>
                KeyOf(r) in KeysOf(routes))
  {
    hide AttachesTo, RoutesOf, SetsOf, ThroughSets, Fresh, AttachesThroughSet, NamesParent, NamesSetOf;
    var direct := Direct(ctx, namespace, name, listener);
    var through := ThroughSets(ctx, SetsOf(ctx, namespace, name));
    var added := Fresh(through, KeysOf(direct));
    var routes := AttachedToGateway(ctx, namespace, name, listener);
    assert routes == direct + added && routes[|direct|..] == added;
    AttachedAre(RoutesOf(ctx), ParentQuery(GATEWAY, namespace, name, listener));
    FreshAre(through, KeysOf(direct));
    KeysOfConcat(direct, added);
    forall r
      ensures r in through <==> r in RoutesOf(ctx) && AttachesThroughSet(ctx, namespace, name, r)
    {
      ThroughSetsOfGateway(ctx, namespace, name, r);
    }
    forall r
      ensures AttachesThroughSet(ctx, namespace, name, r) <==> NamesSetOf(ctx, namespace, name, r)
    {
      ReachesIff(ctx, namespace, name, listener, r);
    }
    forall r | r in RoutesOf(ctx) && Reaches(ctx, namespace, name, listener, r)
      ensures KeyOf(r) in KeysOf(routes)
    {
      assert r in direct || r in through;
    }
  }

  lemma KeysOfConcat(a: seq<Route>, b: seq<Route>)
    ensures KeysOf(a + b) == KeysOf(a) + KeysOf(b)
  {
  }

  // Unique identities

  lemma {:induction false} AttachedKeepsDistinct(routes: seq<Route>, q: ParentQuery)
    requires DistinctKeys(routes)
    ensures DistinctKeys(Attached(routes, q))
  {
    hide AttachesTo;
    if routes != [] {
      var n := |routes| - 1;
      AttachedKeepsDistinct(routes[..n], q);
      AttachedAre(routes[..n], q);
      var init := Attached(routes[..n], q);
      forall i | 0 <= i < |init|
        ensures KeyOf(init[i]) != KeyOf(routes[n])
      {
        assert init[i] in routes[..n];
      }
    }
  }

  /** When no two routes share an identity, no route is listed twice and the routes listed are exactly those that
      reach the Gateway. */
  lemma GatewayRoutesUnique(ctx: Context, namespace: string, name: string, listener: Option<string>)
    requires DistinctKeys(RoutesOf(ctx))
    ensures var routes := AttachedToGateway(ctx, namespace, name, listener);
            && DistinctKeys(routes)
            && forall r :: r in routes <==> r in RoutesOf(ctx) && Reaches(ctx, namespace, name, listener, r)
  {
    hide RoutesOf, Reaches, AttachedToGateway, AttachesTo;
    GatewayRoutesExact(ctx, namespace, name, listener);
    var routes, direct := AttachedToGateway(ctx, namespace, name, listener), Direct(ctx, namespace, name, listener);
    AttachedKeepsDistinct(RoutesOf(ctx), ParentQuery(GATEWAY, namespace, name, listener));
    assert routes == direct + routes[|direct|..];
    DistinctConcat(direct, routes[|direct|..]);
    forall r | r in RoutesOf(ctx) && Reaches(ctx, namespace, name, listener, r)
      ensures r in routes
    {
      var s :| s in routes && KeyOf(s) == KeyOf(r);
      assert s in RoutesOf(ctx);
    }
  }

  lemma DistinctConcat(a: seq<Route>, b: seq<Route>)
    requires DistinctKeys(a) && DistinctKeys(b) && KeysOf(a) !! KeysOf(b)
    ensures DistinctKeys(a + b)
  {
    forall i, j | 0 <= i < |a| && 0 <= j < |b|
      ensures KeyOf(a[i]) != KeyOf(b[j])
    {
      assert KeyOf(a[i]) in KeysOf(a) && KeyOf(b[j]) in KeysOf(b);
    }
  }

  /** Narrowing a Gateway target to one listener can only lose identities. */
  lemma NarrowingShrinks(ctx: Context, namespace: string, name: string, listener: Option<string>)
    ensures KeysOf(AttachedToGateway(ctx, namespace, name, listener))
         <= KeysOf(AttachedToGateway(ctx, namespace, name, None))
  {
    hide RoutesOf, AttachedToGateway, NamesSetOf;
    GatewayRoutesExact(ctx, namespace, name, listener);
    GatewayRoutesExact(ctx, namespace, name, None);
    var narrow := AttachedToGateway(ctx, namespace, name, listener);
    forall key | key in KeysOf(narrow)
      ensures key in KeysOf(AttachedToGateway(ctx, namespace, name, None))
    {
      var r :| r in narrow && KeyOf(r) == key;
      assert Reaches(ctx, namespace, name, None, r);
    }
  }

  // Direct coverage

  /** The policy names the route with a section that covers the rule. */
  ghost predicate NamesRule(obj: Object, route: Route, rule: Option<string>) {
    && obj.BackendTrafficPolicy? && obj.meta.namespace == route.namespace
    && exists ref :: ref in RefsOf(obj.policy) && ref.kind == route.kind && ref.name == route.name
                     && SectionCoversRule(ref.sectionName, rule)
  }

  /** One of the policy's selectors matches a route of that identity. */
  ghost predicate SelectsRoute(ctx: Context, obj: Object, route: Route, library: LabelLibrary) {
    && obj.BackendTrafficPolicy?
    && exists sel, r :: sel in obj.policy.targetSelectors && r in RoutesOf(ctx) && KeyOf(r) == KeyOf(route)
                        && Selects(sel, obj.meta.namespace, library, r)
  }

  lemma {:induction false} SelectedAre(routes: seq<Route>, ns: string, sel: TargetSelector, library: LabelLibrary)
    ensures forall r :: r in SelectedBy(routes, ns, sel, library) <==> r in routes && Selects(sel, ns, library, r)
  {
    hide Selects;
    if routes != [] {
      var n := |routes| - 1;
      SelectedAre(routes[..n], ns, sel, library);
      assert forall r :: r in routes <==> r in routes[..n] || r == routes[n];
    }
  }

  lemma {:induction false} ByTargetsAre(ctx: Context, ns: string, targets: seq<PolicyTarget>)
    ensures forall c :: c in ByTargets(ctx, ns, targets) <==>
                          exists t, r :: t in targets && r in TargetedBy(ctx, ns, t) && c == CoverOf(t, r)
  {
    hide TargetedBy, IsParentKind;
    if targets != [] {
      var n := |targets| - 1;
      ByTargetsAre(ctx, ns, targets[..n]);
      assert forall t :: t in targets <==> t in targets[..n] || t == targets[n];
      CoverAllAre(targets[n], TargetedBy(ctx, ns, targets[n]));
      hide CoverAll, CoverOf;
      ByTargetsStep(ctx, ns, targets, n);
      assert targets[..n + 1] == targets;
    }
  }

  lemma CoverAllAre(t: PolicyTarget, routes: seq<Route>)
    ensures forall c :: c in CoverAll(t, routes) <==> exists r :: r in routes && c == CoverOf(t, r)
  {
    hide CoverOf;
    forall r | r in routes
      ensures CoverOf(t, r) in CoverAll(t, routes)
    {
      var i :| 0 <= i < |routes| && routes[i] == r;
      assert CoverAll(t, routes)[i] == CoverOf(t, r);
    }
  }

  lemma SelectAllAre(routes: seq<Route>)
    ensures forall c :: c in SelectAll(routes) <==> exists r :: r in routes && c == SelectionOf(r)
  {
    hide SelectionOf;
    forall r | r in routes
      ensures SelectionOf(r) in SelectAll(routes)
    {
      var i :| 0 <= i < |routes| && routes[i] == r;
      assert SelectAll(routes)[i] == SelectionOf(r);
    }
  }

  lemma {:induction false} BySelectorsAre(ctx: Context, ns: string, selectors: seq<TargetSelector>,
                                          library: LabelLibrary)
    ensures forall c :: c in BySelectors(ctx, ns, selectors, library) <==>
                          exists sel, r :: && sel in selectors && r in RoutesOf(ctx) && Selects(sel, ns, library, r)
                                           && c == SelectionOf(r)
  {
    hide RoutesOf, SelectedBy, Selects, SelectionOf;
    if selectors != [] {
      var n := |selectors| - 1;
      BySelectorsAre(ctx, ns, selectors[..n], library);
      assert forall s :: s in selectors <==> s in selectors[..n] || s == selectors[n];
      SelectedAre(RoutesOf(ctx), ns, selectors[n], library);
      SelectAllAre(SelectedBy(RoutesOf(ctx), ns, selectors[n], library));
      hide SelectAll;
      BySelectorsStep(ctx, ns, selectors, library, n);
      assert selectors[..n + 1] == selectors;
    }
  }

  lemma RouteKindIsNoParent(kind: string)
    requires IsRouteKind(kind)
    ensures !IsParentKind(kind) && kind != GATEWAY && kind != LISTENER_SET
  {
  }

  /** A target displaces for a route's rule exactly when it names that route, which is present, and covers the rule. */
  lemma TargetDisplacesIff(ctx: Context, ns: string, t: PolicyTarget, route: Route, rule: Option<string>)
    requires IsRouteKind(route.kind)
    ensures (exists r :: r in TargetedBy(ctx, ns, t) && Displaces(CoverOf(t, r), route, rule)) <==>
              && KeyOf(route) == RouteKey(t.kind, ns, t.name) && KeyOf(route) in KeysOf(RoutesOf(ctx))
              && SectionCoversRule(t.sectionName, rule)
  {
    hide RoutesOf, AttachedToGateway, Attached, SectionCoversRule, IsRouteKind;
    RouteKindIsNoParent(route.kind);
    if !IsParentKind(t.kind) && IsRouteKind(t.kind) {
      var first := FirstRoute(RoutesOf(ctx), RouteKey(t.kind, ns, t.name));
      if first.Some? {
        assert TargetedBy(ctx, ns, t) == [first.value] && first.value in [first.value];
      }
    }
  }

  /** A policy covers a route's rule directly exactly when it names the route, which is present, with a section that
      covers the rule, or selects a route of that identity. */
  lemma CoversDirectlyIff(ctx: Context, obj: Object, route: Route, rule: Option<string>, library: LabelLibrary)
    requires IsRouteKind(route.kind)
    ensures CoversDirectly(ctx, obj, route, rule, library) <==>
              || (NamesRule(obj, route, rule) && KeyOf(route) in KeysOf(RoutesOf(ctx)))
              || SelectsRoute(ctx, obj, route, library)
  {
    if obj.BackendTrafficPolicy? {
      var ns, targets, selectors := obj.meta.namespace, TargetsOf(RefsOf(obj.policy)), obj.policy.targetSelectors;
      ByTargetsAre(ctx, ns, targets);
      BySelectorsAre(ctx, ns, selectors, library);
      NamedIff(ctx, obj, route, rule);
      SelectedIff(ctx, obj, route, rule, library);
      hide ByTargets, BySelectors, RoutesOf, NamesRule, SelectsRoute, Displaces;
      assert forall c :: c in Coverage(ctx, ns, obj.policy, library) <==>
        c in ByTargets(ctx, ns, targets) || c in BySelectors(ctx, ns, selectors, library);
    }
  }

  lemma NamedIff(ctx: Context, obj: Object, route: Route, rule: Option<string>)
    requires obj.BackendTrafficPolicy? && IsRouteKind(route.kind)
    ensures (exists c :: c in ByTargets(ctx, obj.meta.namespace, TargetsOf(RefsOf(obj.policy)))
              && Displaces(c, route, rule)) <==>
              NamesRule(obj, route, rule) && KeyOf(route) in KeysOf(RoutesOf(ctx))
  {
    hide RoutesOf, TargetedBy, Displaces, SectionCoversRule, CoverOf, RefsOf, IsRouteKind;
    var ns, refs := obj.meta.namespace, RefsOf(obj.policy);
    var targets := TargetsOf(refs);
    ByTargetsAre(ctx, ns, targets);
    hide ByTargets;
    if NamesRule(obj, route, rule) && KeyOf(route) in KeysOf(RoutesOf(ctx)) {
      var ref :| ref in refs && ref.kind == route.kind && ref.name == route.name
                 && SectionCoversRule(ref.sectionName, rule);
      var i :| 0 <= i < |refs| && refs[i] == ref;
      assert targets[i] in targets && targets[i] == TargetOf(ref);
      TargetDisplacesIff(ctx, ns, targets[i], route, rule);
      var r :| r in TargetedBy(ctx, ns, targets[i]) && Displaces(CoverOf(targets[i], r), route, rule);
      assert CoverOf(targets[i], r) in ByTargets(ctx, ns, targets);
    }
    if c :| c in ByTargets(ctx, ns, targets) && Displaces(c, route, rule) {
      var t, r :| t in targets && r in TargetedBy(ctx, ns, t) && c == CoverOf(t, r);
      TargetDisplacesIff(ctx, ns, t, route, rule);
      var i :| 0 <= i < |targets| && targets[i] == t;
      assert refs[i] in refs;
    }
  }

  lemma SelectedIff(ctx: Context, obj: Object, route: Route, rule: Option<string>, library: LabelLibrary)
    requires obj.BackendTrafficPolicy?
    ensures (exists c :: c in BySelectors(ctx, obj.meta.namespace, obj.policy.targetSelectors, library)
              && Displaces(c, route, rule)) <==>
              SelectsRoute(ctx, obj, route, library)
  {
    hide RoutesOf, Selects;
    var ns, selectors := obj.meta.namespace, obj.policy.targetSelectors;
    BySelectorsAre(ctx, ns, selectors, library);
    hide BySelectors;
    if SelectsRoute(ctx, obj, route, library) {
      var sel, r :| sel in selectors && r in RoutesOf(ctx) && KeyOf(r) == KeyOf(route) && Selects(sel, ns, library, r);
      assert SelectionOf(r) in BySelectors(ctx, ns, selectors, library) && Displaces(SelectionOf(r), route, rule);
    }
  }
}
