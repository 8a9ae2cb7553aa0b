/** gateway-serves-no-routes walks the attachment hierarchy a third time
    (pkg/templates/gatewayservesnoroutes/template.go). */
module GatewayServesNoRoutes {
  import opened Manifests
  import opened Routes
  import opened Parents
  import opened PolicyCoverage
  import opened PolicyReach

  /** A Gateway at either served version. */
  predicate IsGateway(obj: Object) {
    obj.GatewayV1? || obj.GatewayV1Beta1?
  }

  function SelfRef(obj: Object): ObjectRef {
    ObjectRef(GATEWAY, obj.meta.namespace, obj.meta.name)
  }

  function SetRef(obj: Object): ObjectRef {
    ObjectRef(LISTENER_SET, obj.meta.namespace, obj.meta.name)
  }

  /** A ListenerSet whose parentRef resolves to the Gateway, whatever group and kind it states. */
  predicate OwnedBy(obj: Object, gateway: ObjectRef) {
    obj.ListenerSetV1? && ListenerSetParent(obj.meta, obj.setParent) == gateway
  }

  ghost function OwnedSets(ctx: Context, gateway: ObjectRef): set<ObjectRef> {
    set i | 0 <= i < |ctx| && OwnedBy(ctx[i], gateway) :: SetRef(ctx[i])
  }

  /** A route has a Gateway API parentRef to one of the points. */
  ghost predicate NamesOneOf(route: Route, points: set<ObjectRef>) {
    exists p :: p in ParentList(route) && p.group == GATEWAY_API_GROUP && p.Owner() in points
  }

  ghost predicate ServesNoRoutes(ctx: Context, obj: Object) {
    && IsGateway(obj)
    && RoutesOf(ctx) != []
    && forall r :: r in RoutesOf(ctx) ==> !NamesOneOf(r, {SelfRef(obj)} + OwnedSets(ctx, SelfRef(obj)))
  }

  method ListenerSetsOf(ctx: Context, gateway: ObjectRef) returns (owned: set<ObjectRef>)
    ensures owned == OwnedSets(ctx, gateway)
  {
    owned := {};
    for i := 0 to |ctx|
      invariant owned == set k | 0 <= k < i && OwnedBy(ctx[k], gateway) :: SetRef(ctx[k])
    {
      if !ctx[i].ListenerSetV1? {
        continue;
      }
      if ListenerSetParent(ctx[i].meta, ctx[i].setParent) != gateway {
        continue;
      }
      owned := owned + {ObjectRef(LISTENER_SET, ctx[i].meta.namespace, ctx[i].meta.name)};
    }
  }

  method CheckFunc(ctx: Context, obj: Object) returns (reports: bool)
    ensures reports <==> ServesNoRoutes(ctx, obj)
  {
    hide RoutesOf, OwnedSets;
    if !IsGateway(obj) {
      return false;
    }
    var routes := ListRoutes(ctx);
    if |routes| == 0 {
      return false;
    }
    var self := SelfRef(obj);
    var owned := ListenerSetsOf(ctx, self);
    var attachPoints := {self} + owned;
    for i := 0 to |routes|
      invariant forall k :: 0 <= k < i ==> !NamesOneOf(routes[k], attachPoints)
    {
      var parents := ParentsOf(routes[i]);
      for j := 0 to |parents|
        invariant forall k :: 0 <= k < j ==>
                  !(parents[k].group == GATEWAY_API_GROUP && parents[k].Owner() in attachPoints)
      {
        if parents[j].group != GATEWAY_API_GROUP {
          continue;
        }
        if parents[j].Owner() in attachPoints {
          assert parents[j] in parents && routes[i] in routes;
          return false;
        }
      }
    }
    return true;
  }

  // Against policy coverage

  /** A route attached to a ListenerSet that resolves to the Gateway but states another group or kind of parent. */
  ghost predicate AttachesThroughForeignSet(ctx: Context, gateway: ObjectRef, r: Route) {
    exists i :: && 0 <= i < |ctx| && OwnedBy(ctx[i], gateway) && !BelongsTo(ctx[i], gateway.namespace, gateway.name)
                && AttachesTo(r, SetQuery(ctx[i].meta))
  }

  /** Naming one of the Gateway's attach points is reaching the Gateway, or reaching it through a foreign
      ListenerSet. */
  lemma NamesAttachPointIff(ctx: Context, obj: Object, r: Route)
    requires IsGateway(obj)
    ensures NamesOneOf(r, {SelfRef(obj)} + OwnedSets(ctx, SelfRef(obj))) <==>
              || Reaches(ctx, obj.meta.namespace, obj.meta.name, None, r)
              || AttachesThroughForeignSet(ctx, SelfRef(obj), r)
  {
    ReachesIff(ctx, obj.meta.namespace, obj.meta.name, None, r);
    hide IsGateway, ParentList, NamesParent, NamesSetOf;
    var self := SelfRef(obj);
    var owned := OwnedSets(ctx, self);
    if NamesOneOf(r, {self} + owned) {
      var p :| p in ParentList(r) && p.group == GATEWAY_API_GROUP && p.Owner() in {self} + owned;
      if p.Owner() == self {
        assert p.Matches(GATEWAY, self.namespace, self.name) && p.CoversListener(None);
      } else {
        var i :| 0 <= i < |ctx| && OwnedBy(ctx[i], self) && p.Owner() == SetRef(ctx[i]);
        assert p.Matches(LISTENER_SET, ctx[i].meta.namespace, ctx[i].meta.name) && p.CoversListener(None);
        assert AttachesTo(r, SetQuery(ctx[i].meta));
      }
    }
    if AttachesTo(r, ParentQuery(GATEWAY, self.namespace, self.name, None)) {
      var p :| p in ParentList(r) && p.Matches(GATEWAY, self.namespace, self.name);
      assert p.Owner() == self;
    }
    if i :| 0 <= i < |ctx| && OwnedBy(ctx[i], self) && AttachesTo(r, SetQuery(ctx[i].meta)) {
      var p :| p in ParentList(r) && p.Matches(LISTENER_SET, ctx[i].meta.namespace, ctx[i].meta.name);
      assert p.Owner() in owned;
    }
  }

  lemma EmptyIffNothingReaches(ctx: Context, namespace: string, name: string)
    ensures AttachedToGateway(ctx, namespace, name, None) == [] <==>
              forall r :: r in RoutesOf(ctx) ==> !Reaches(ctx, namespace, name, None, r)
  {
    hide RoutesOf, Reaches, AttachedToGateway;
    GatewayRoutesExact(ctx, namespace, name, None);
    var routes := AttachedToGateway(ctx, namespace, name, None);
    if routes != [] {
      assert routes[0] in routes;
    }
  }

  /** The check reports a Gateway exactly when the set has a route, policy coverage finds none attached, and none is
      attached to a ListenerSet that policy coverage does not count as the Gateway's. */
  lemma ReportsIffUncovered(ctx: Context, obj: Object)
    requires IsGateway(obj)
    ensures ServesNoRoutes(ctx, obj) <==>
              && RoutesOf(ctx) != []
              && AttachedToGateway(ctx, obj.meta.namespace, obj.meta.name, None) == []
              && forall r :: r in RoutesOf(ctx) ==> !AttachesThroughForeignSet(ctx, SelfRef(obj), r)
  {
    hide RoutesOf, Reaches, AttachedToGateway, NamesOneOf, AttachesThroughForeignSet, OwnedSets;
    EmptyIffNothingReaches(ctx, obj.meta.namespace, obj.meta.name);
    forall r
      ensures NamesOneOf(r, {SelfRef(obj)} + OwnedSets(ctx, SelfRef(obj))) <==>
                || Reaches(ctx, obj.meta.namespace, obj.meta.name, None, r)
                || AttachesThroughForeignSet(ctx, SelfRef(obj), r)
    {
      NamesAttachPointIff(ctx, obj, r);
    }
  }

  /** When every ListenerSet's parentRef is to a Gateway API Gateway, the two walks decide the same thing. */
  lemma ReportsIffNoRouteCovered(ctx: Context, obj: Object)
    requires IsGateway(obj)
    requires forall i :: 0 <= i < |ctx| && ctx[i].ListenerSetV1? ==>
               && ctx[i].setParent.group.GetOr(GATEWAY_API_GROUP) == GATEWAY_API_GROUP
               && ctx[i].setParent.kind.GetOr(GATEWAY) == GATEWAY
    ensures ServesNoRoutes(ctx, obj) <==>
              RoutesOf(ctx) != [] && AttachedToGateway(ctx, obj.meta.namespace, obj.meta.name, None) == []
  {
    hide RoutesOf, AttachedToGateway, ServesNoRoutes, AttachesTo;
    ReportsIffUncovered(ctx, obj);
  }

  /** The walks do differ: a ListenerSet naming the Gateway under another kind, and a route on that set, silence the
      check though coverage finds no route. */
  lemma ForeignSetSilences(gateway: Object, set_: Object, route: Object)
    requires gateway.GatewayV1? && set_.ListenerSetV1? && route.TCPRouteV1?
    requires set_.setParent.kind.Some? && set_.setParent.kind.value != GATEWAY && OwnedBy(set_, SelfRef(gateway))
    requires route.parentRefs
         == [ParentReference(None, Some(LISTENER_SET), Some(set_.meta.namespace), set_.meta.name, None)]
    ensures var ctx := [gateway, set_, route];
            && RoutesOf(ctx) != [] && AttachedToGateway(ctx, gateway.meta.namespace, gateway.meta.name, None) == []
            && !ServesNoRoutes(ctx, gateway)
  {
    hide AttachedToGateway, ServesNoRoutes, StreamBackends;
    var ctx, self := [gateway, set_, route], SelfRef(gateway);
    OnlyTheRoute(gateway, set_, route);
    var r := RouteOf(route).value;
    var p := ParentList(r)[0];
    assert p in ParentList(r) && p.Matches(LISTENER_SET, set_.meta.namespace, set_.meta.name) && p.CoversListener(None);
    assert AttachesTo(r, SetQuery(set_.meta)) && ctx[1] == set_;
    assert AttachesThroughForeignSet(ctx, self, r);
    ReportsIffUncovered(ctx, gateway);
    EmptyIffNothingReaches(ctx, gateway.meta.namespace, gateway.meta.name);
    assert !AttachesTo(r, ParentQuery(GATEWAY, self.namespace, self.name, None));
    ReachesIff(ctx, gateway.meta.namespace, gateway.meta.name, None, r);
  }

  lemma OnlyTheRoute(gateway: Object, set_: Object, route: Object)
    requires gateway.GatewayV1? && set_.ListenerSetV1? && route.TCPRouteV1?
    ensures RoutesOf([gateway, set_, route]) == [RouteOf(route).value]
  {
    hide StreamBackends;
    var ctx := [gateway, set_, route];
    assert ctx[..2] == [gateway, set_] && ctx[..2][..1] == [gateway] && [gateway][..0] == [];
    assert RoutesOf([gateway]) == [];
    assert RoutesOf(ctx[..2]) == [];
  }
}
