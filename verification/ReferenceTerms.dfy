/** Routes, their rules and the listeners they attach to, field by field in the manifests' own terms
    (pkg/gatewayapi/route.go, rules.go, parent.go). */
module ReferenceTerms {
  import opened Manifests
  import opened Routes
  import opened Parents

  // Routes

  predicate HasFields(r: Option<Route>, kind: string, meta: Meta, hostnames: seq<string>,
                      parentRefs: seq<ParentReference>)
  {
    && r.Some? && r.value.kind == kind && r.value.hostnames == hostnames && r.value.parentRefs == parentRefs
    && r.value.namespace == meta.namespace && r.value.name == meta.name && r.value.labels == meta.labels
  }

  /** Five kinds at eleven versions are routes, whose fields are their objects'; TCP and UDP routes have no
      hostnames. */
  lemma RouteFields(obj: Object)
    ensures obj.HTTPRouteV1? || obj.HTTPRouteV1Beta1? ==>
              HasFields(RouteOf(obj), "HTTPRoute", obj.meta, obj.hostnames, obj.parentRefs)
    ensures obj.GRPCRouteV1? || obj.GRPCRouteV1Alpha2? ==>
              HasFields(RouteOf(obj), "GRPCRoute", obj.meta, obj.hostnames, obj.parentRefs)
    ensures obj.TCPRouteV1? || obj.TCPRouteV1Alpha2? ==>
              HasFields(RouteOf(obj), "TCPRoute", obj.meta, [], obj.parentRefs)
    ensures obj.TLSRouteV1? || obj.TLSRouteV1Alpha3? || obj.TLSRouteV1Alpha2? ==>
              HasFields(RouteOf(obj), "TLSRoute", obj.meta, obj.hostnames, obj.parentRefs)
    ensures obj.UDPRouteV1? || obj.UDPRouteV1Alpha2? ==>
              HasFields(RouteOf(obj), "UDPRoute", obj.meta, [], obj.parentRefs)
    ensures RouteOf(obj).Some? <==> obj.HTTPRouteV1? || obj.HTTPRouteV1Beta1? || obj.GRPCRouteV1?
                                    || obj.GRPCRouteV1Alpha2? || obj.TCPRouteV1? || obj.TCPRouteV1Alpha2?
                                    || obj.TLSRouteV1? || obj.TLSRouteV1Alpha3? || obj.TLSRouteV1Alpha2?
                                    || obj.UDPRouteV1? || obj.UDPRouteV1Alpha2?
  {
    hide HTTPBackends, GRPCBackends, StreamBackends;
  }

  /** The rule at position `i` has this name, these filters and these backendRefs. */
  predicate IsRule(r: Rule, i: int, name: Option<string>, filters: seq<string>, refs: seq<FilteredBackend>) {
    && r.index == i && r.name == name && r.filters == filters && |r.backendRefs| == |refs|
    && forall j :: 0 <= j < |refs| ==> r.backendRefs[j] == refs[j].ref
  }

  lemma {:induction false} HTTPRulesAre(rules: seq<HTTPRule>)
    ensures |HTTPRuleList(rules)| == |rules|
    ensures forall i :: 0 <= i < |rules| ==>
              IsRule(HTTPRuleList(rules)[i], i, rules[i].name, rules[i].filters, rules[i].backendRefs)
  {
    if rules != [] {
      HTTPRulesAre(rules[..|rules| - 1]);
    }
  }

  lemma {:induction false} GRPCRulesAre(rules: seq<GRPCRule>)
    ensures |GRPCRuleList(rules)| == |rules|
    ensures forall i :: 0 <= i < |rules| ==>
              IsRule(GRPCRuleList(rules)[i], i, rules[i].name, rules[i].filters, rules[i].backendRefs)
  {
    if rules != [] {
      GRPCRulesAre(rules[..|rules| - 1]);
    }
  }

  /** TCP, TLS and UDP rules have neither filters nor wrapped backendRefs. */
  lemma {:induction false} StreamRulesAre(rules: seq<StreamRule>)
    ensures |StreamRuleList(rules)| == |rules|
    ensures forall i :: 0 <= i < |rules| ==>
              StreamRuleList(rules)[i] == Rule(i, rules[i].name, rules[i].backendRefs, [])
  {
    if rules != [] {
      StreamRulesAre(rules[..|rules| - 1]);
    }
  }

  /** The rules of an object are those of its spec, by version. */
  lemma RuleListIs(obj: Object)
    ensures obj.HTTPRouteV1? || obj.HTTPRouteV1Beta1? ==> RuleList(obj) == HTTPRuleList(obj.httpRules)
    ensures obj.GRPCRouteV1? || obj.GRPCRouteV1Alpha2? ==> RuleList(obj) == GRPCRuleList(obj.grpcRules)
    ensures RouteOf(obj).Some? && !obj.HTTPRouteV1? && !obj.HTTPRouteV1Beta1? && !obj.GRPCRouteV1?
            && !obj.GRPCRouteV1Alpha2? ==>
              RuleList(obj) == StreamRuleList(obj.streamRules)
  {
    hide HTTPBackends, GRPCBackends, StreamBackends, HTTPRuleList, GRPCRuleList, StreamRuleList;
  }

  /** How many backendRefs the first `i` rules have. */
  function Offset(rules: seq<Rule>, i: nat): nat
    requires i <= |rules|
  {
    if i == 0 then 0 else Offset(rules, i - 1) + |rules[i - 1].backendRefs|
  }

  lemma {:induction false} OffsetOfInit(rules: seq<Rule>, n: nat, i: nat)
    requires i <= n <= |rules|
    ensures Offset(rules[..n], i) == Offset(rules, i)
  {
    if i > 0 {
      OffsetOfInit(rules, n, i - 1);
    }
  }

  /** Where each backendRef of a rule lies in the flat list, and that the list has nothing else. */
  lemma {:induction false} FlatAt(rules: seq<Rule>, i: nat, j: nat)
    requires i < |rules| && j < |rules[i].backendRefs|
    ensures Offset(rules, i) + j < |Flatten(rules)| == Offset(rules, |rules|)
    ensures Flatten(rules)[Offset(rules, i) + j] == BackendRef(rules[i].name, rules[i].backendRefs[j])
  {
    var n := |rules| - 1;
    FlatLength(rules);
    FlatLength(rules[..n]);
    OffsetOfInit(rules, n, n);
    OffsetOfInit(rules, n, i);
    if i < n {
      FlatAt(rules[..n], i, j);
    }
  }

  lemma {:induction false} FlatLength(rules: seq<Rule>)
    ensures |Flatten(rules)| == Offset(rules, |rules|)
  {
    if rules != [] {
      FlatLength(rules[..|rules| - 1]);
      OffsetOfInit(rules, |rules| - 1, |rules| - 1);
    }
  }

  // parentRefs

  /** The parentRef, with what it leaves out read as the Gateway API does, is to that object. */
  predicate IsTo(ref: ParentReference, routeNamespace: string, kind: string, namespace: string, name: string) {
    && (ref.group.None? || ref.group == Some("gateway.networking.k8s.io"))
    && (ref.kind == Some(kind) || (ref.kind.None? && kind == "Gateway"))
    && (ref.namespace == Some(namespace) || (ref.namespace.None? && namespace == routeNamespace))
    && ref.name == name
  }

  /** It is to that listener of its parent, or to all of them. */
  predicate TakesIn(ref: ParentReference, listener: string) {
    ref.sectionName.None? || ref.sectionName == Some(listener)
  }

  lemma ResolveIs(ref: ParentReference, routeNamespace: string, owner: ObjectRef, listener: string)
    ensures var p := Resolve(ref, routeNamespace);
            && (IsTo(ref, routeNamespace, owner.kind, owner.namespace, owner.name) <==>
                  p.group == "gateway.networking.k8s.io" && p.Owner() == owner)
            && (TakesIn(ref, listener) <==> p.CoversListener(Some(listener)))
            && p.section == ref.sectionName && p.CoversListener(None)
  {
  }

  /** A ListenerSet whose parentRef, with what it leaves out read as the Gateway API does, is to that Gateway. */
  predicate IsSetOf(obj: Object, namespace: string, name: string) {
    && obj.ListenerSetV1?
    && (obj.setParent.group.None? || obj.setParent.group == Some("gateway.networking.k8s.io"))
    && (obj.setParent.kind.None? || obj.setParent.kind == Some("Gateway"))
    && (|| obj.setParent.namespace == Some(namespace)
        || (obj.setParent.namespace.None? && obj.meta.namespace == namespace))
    && obj.setParent.name == name
  }

  // Listeners

  predicate IsAttachPoint(obj: Object, kind: string, namespace: string, name: string) {
    && ((obj.GatewayV1? && kind == "Gateway") || (obj.ListenerSetV1? && kind == "ListenerSet"))
    && obj.meta.namespace == namespace && obj.meta.name == name
  }

  lemma AttachPointIff(obj: Object, owner: ObjectRef)
    ensures AttachPointOf(obj) == Some(owner) <==> IsAttachPoint(obj, owner.kind, owner.namespace, owner.name)
    ensures AttachPointOf(obj).Some? ==> obj.GatewayV1? || obj.ListenerSetV1?
  {
  }

  lemma KnownParentsAre(ctx: Context, owner: ObjectRef)
    ensures owner in KnownParents(ctx) <==>
              exists i :: 0 <= i < |ctx| && IsAttachPoint(ctx[i], owner.kind, owner.namespace, owner.name)
  {
    forall obj
      ensures AttachPointOf(obj) == Some(owner) <==> IsAttachPoint(obj, owner.kind, owner.namespace, owner.name)
    {
      AttachPointIff(obj, owner);
    }
    hide AttachPointOf, IsAttachPoint;
  }

  /** The listeners declared under one identity, end to end. */
  function SpecsUnder(ctx: Context, kind: string, namespace: string, name: string): seq<ListenerSpec> {
    if ctx == [] then []
    else
      var last := ctx[|ctx| - 1];
      SpecsUnder(ctx[..|ctx| - 1], kind, namespace, name)
      + if IsAttachPoint(last, kind, namespace, name) then last.listeners else []
  }

  predicate AreListeners(listeners: seq<Listener>, specs: seq<ListenerSpec>, owner: ObjectRef) {
    && |listeners| == |specs|
    && forall i :: 0 <= i < |specs| ==> IsListener(listeners[i], specs[i], owner)
  }

  predicate IsListener(l: Listener, spec: ListenerSpec, owner: ObjectRef) {
    && l.owner == owner && l.ownerKind == owner.kind && l.name == spec.name && l.hostname == spec.hostname
    && l.port == spec.port && l.protocol == spec.protocol && l.allowed == spec.allowedRoutes
  }

  /** The engine's listeners are those of every object of the identity, in order and field by field. */
  lemma {:induction false} ListenersAreSpecs(ctx: Context, owner: ObjectRef)
    ensures AreListeners(ListenersUnder(ctx, owner), SpecsUnder(ctx, owner.kind, owner.namespace, owner.name), owner)
  {
    if ctx != [] {
      ListenersAreSpecs(ctx[..|ctx| - 1], owner);
      OwnListeners(ctx[|ctx| - 1], owner);
      hide AttachPointOf, ListenerList, IsAttachPoint, IsListener;
    }
  }

  lemma OwnListeners(obj: Object, owner: ObjectRef)
    ensures AttachPointOf(obj) == Some(owner) <==> IsAttachPoint(obj, owner.kind, owner.namespace, owner.name)
    ensures AttachPointOf(obj) == Some(owner) ==> AreListeners(ListenerList(obj), obj.listeners, owner)
  {
    AttachPointIff(obj, owner);
  }
}
