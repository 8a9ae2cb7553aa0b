/** parentRefs, and the Gateways, ListenerSets and listeners they resolve to (pkg/gatewayapi/parent.go,
    pkg/gatewayapi/listenerselect.go). */
module Parents {
  import opened Manifests
  import opened Routes

  /** A parentRef with Gateway API's defaults applied; no section means every listener of the parent. */
  datatype Parent = Parent(group: string, kind: string, namespace: string, name: string, section: Option<string>) {
    predicate Matches(otherKind: string, otherNamespace: string, otherName: string) {
      group == GATEWAY_API_GROUP && kind == otherKind && namespace == otherNamespace && name == otherName
    }

    predicate CoversListener(listener: Option<string>) {
      listener.None? || section.None? || section == listener
    }

    function Owner(): ObjectRef {
      ObjectRef(kind, namespace, name)
    }
  }

  datatype Listener = Listener(
    owner: ObjectRef, name: string, hostname: Option<string>, port: int, protocol: string,
    allowed: Option<AllowedRoutes>, ownerKind: string)

  type ListenerIndex = map<ObjectRef, seq<Listener>>

  function Resolve(ref: ParentReference, routeNamespace: string): Parent {
    Parent(ref.group.GetOr(GATEWAY_API_GROUP), ref.kind.GetOr(GATEWAY), ref.namespace.GetOr(routeNamespace),
           ref.name, ref.sectionName)
  }

  function ParentList(route: Route): (parents: seq<Parent>)
    ensures |parents| == |route.parentRefs|
    ensures forall i :: 0 <= i < |parents| ==> parents[i] == Resolve(route.parentRefs[i], route.namespace)
  {
    seq(|route.parentRefs|, i requires 0 <= i < |route.parentRefs| => Resolve(route.parentRefs[i], route.namespace))
  }

  method ParentsOf(route: Route) returns (parents: seq<Parent>)
    ensures parents == ParentList(route)
  {
    parents := [];
    for i := 0 to |route.parentRefs|
      invariant |parents| == i
      invariant forall k :: 0 <= k < i ==> parents[k] == Resolve(route.parentRefs[k], route.namespace)
    {
      var ref := route.parentRefs[i];
      var p := Parent(GATEWAY_API_GROUP, GATEWAY, route.namespace, ref.name, ref.sectionName);
      if ref.group.Some? {
        p := p.(group := ref.group.value);
      }
      if ref.kind.Some? {
        p := p.(kind := ref.kind.value);
      }
      if ref.namespace.Some? {
        p := p.(namespace := ref.namespace.value);
      }
      parents := parents + [p];
    }
  }

  /** The identity of a v1 Gateway or a ListenerSet; a v1beta1 Gateway is not seen here. */
  function AttachPointOf(obj: Object): Option<ObjectRef> {
    match obj
    case GatewayV1(m, _) => Some(ObjectRef(GATEWAY, m.namespace, m.name))
    case ListenerSetV1(m, _, _) => Some(ObjectRef(LISTENER_SET, m.namespace, m.name))
    case _ => None
  }

  ghost function KnownParents(ctx: Context): set<ObjectRef> {
    set i | 0 <= i < |ctx| && AttachPointOf(ctx[i]).Some? :: AttachPointOf(ctx[i]).value
  }

  method GatewaysAndListenerSets(ctx: Context) returns (found: set<ObjectRef>)
    ensures found == KnownParents(ctx)
  {
    found := {};
    for i := 0 to |ctx|
      invariant found == set k | 0 <= k < i && AttachPointOf(ctx[k]).Some? :: AttachPointOf(ctx[k]).value
    {
      match AttachPointOf(ctx[i])
      case Some(ref) => found := found + {ref};
      case None =>
    }
  }

  /** The Gateway a ListenerSet attaches to, whatever group and kind its parentRef states. */
  function ListenerSetParent(meta: Meta, parent: SetParent): ObjectRef {
    ObjectRef(GATEWAY, parent.namespace.GetOr(meta.namespace), parent.name)
  }

  // Listeners

  function ListenerFrom(owner: ObjectRef, spec: ListenerSpec): Listener {
    Listener(owner, spec.name, spec.hostname, spec.port, spec.protocol, spec.allowedRoutes, owner.kind)
  }

  function ListenerList(obj: Object): (listeners: seq<Listener>)
    ensures AttachPointOf(obj).None? ==> listeners == []
    ensures AttachPointOf(obj).Some? ==>
              |listeners| == |obj.listeners|
              && forall i :: 0 <= i < |listeners| ==>
                  listeners[i] == ListenerFrom(AttachPointOf(obj).value, obj.listeners[i])
  {
    match AttachPointOf(obj)
    case Some(owner) =>
      seq(|obj.listeners|, i requires 0 <= i < |obj.listeners| => ListenerFrom(owner, obj.listeners[i]))
    case None => []
  }

  method ListenersOf(obj: Object) returns (listeners: seq<Listener>)
    ensures listeners == ListenerList(obj)
  {
    listeners := [];
    match AttachPointOf(obj)
    case Some(owner) =>
      for i := 0 to |obj.listeners|
        invariant |listeners| == i
        invariant forall k :: 0 <= k < i ==> listeners[k] == ListenerFrom(owner, obj.listeners[k])
      {
        listeners := listeners + [ListenerFrom(owner, obj.listeners[i])];
      }
    case None =>
  }

  /** Every listener declared under `owner`, in the order of the manifest set. */
  function ListenersUnder(ctx: Context, owner: ObjectRef): seq<Listener> {
    if ctx == [] then []
    else
      var last := ctx[|ctx| - 1];
      ListenersUnder(ctx[..|ctx| - 1], owner) + if AttachPointOf(last) == Some(owner) then ListenerList(last) else []
  }

  /** `index` lists, for exactly the owners that declare a listener, all the listeners they declare. */
  ghost predicate Indexes(index: ListenerIndex, ctx: Context) {
    forall o :: && (o in index <==> ListenersUnder(ctx, o) != [])
                && (o in index ==> index[o] == ListenersUnder(ctx, o))
  }

  function Entry(index: ListenerIndex, owner: ObjectRef): seq<Listener> {
    if owner in index then index[owner] else []
  }

  /** The index with the listeners of one object appended to the entry of their owner. */
  ghost function Appended(before: ListenerIndex, listeners: seq<Listener>): ListenerIndex {
    if listeners == [] then before
    else before[listeners[0].owner := Entry(before, listeners[0].owner) + listeners]
  }

  lemma AppendedStep(before: ListenerIndex, listeners: seq<Listener>, j: nat)
    requires j < |listeners| && listeners[j].owner == listeners[0].owner
    ensures var l, index := listeners[j], Appended(before, listeners[..j]);
            index[l.owner := Entry(index, l.owner) + [l]] == Appended(before, listeners[..j + 1])
  {
    var owner, index := listeners[0].owner, Appended(before, listeners[..j]);
    assert Entry(before, owner) + listeners[..j + 1] == Entry(before, owner) + listeners[..j] + [listeners[j]];
    assert Entry(index, owner) == Entry(before, owner) + listeners[..j];
  }

  lemma IndexStep(ctx: Context, i: nat, before: ListenerIndex)
    requires i < |ctx| && Indexes(before, ctx[..i])
    ensures Indexes(Appended(before, ListenerList(ctx[i])), ctx[..i + 1])
  {
    assert ctx[..i + 1][..i] == ctx[..i];
    var after := Appended(before, ListenerList(ctx[i]));
    forall o
      ensures o in after <==> ListenersUnder(ctx[..i + 1], o) != []
      ensures o in after ==> after[o] == ListenersUnder(ctx[..i + 1], o)
    {
      assert o in before <==> ListenersUnder(ctx[..i], o) != [];
    }
  }

  method ListenersByOwner(ctx: Context) returns (byOwner: ListenerIndex)
    ensures Indexes(byOwner, ctx)
  {
    byOwner := map[];
    assert Indexes(byOwner, ctx[..0]);
    hide Indexes, Appended;
    for i := 0 to |ctx|
      invariant Indexes(byOwner, ctx[..i])
    {
      var listeners := ListenersOf(ctx[i]);
      ghost var before := byOwner;
      for j := 0 to |listeners|
        invariant byOwner == Appended(before, listeners[..j])
      {
        var l := listeners[j];
        AppendedStep(before, listeners, j);
        byOwner := byOwner[l.owner := Entry(byOwner, l.owner) + [l]];
      }
      assert listeners[..|listeners|] == listeners;
      IndexStep(ctx, i, before);
    }
    assert ctx[..|ctx|] == ctx;
  }

  lemma {:induction false} ListenersUnderOwner(ctx: Context, owner: ObjectRef)
    ensures forall l :: l in ListenersUnder(ctx, owner) ==> l.owner == owner && l.ownerKind == owner.kind
    ensures ListenersUnder(ctx, owner) != [] ==> owner in KnownParents(ctx)
  {
    if ctx != [] {
      var init, n := ctx[..|ctx| - 1], |ctx| - 1;
      ListenersUnderOwner(init, owner);
      assert KnownParents(init) <= KnownParents(ctx) by {
        assert forall i :: 0 <= i < n ==> init[i] == ctx[i];
      }
      if AttachPointOf(ctx[n]) == Some(owner) {
        assert owner in KnownParents(ctx);
      }
    }
  }

  /** The first listener of that name. */
  function FirstNamed(listeners: seq<Listener>, name: string): (r: Option<Listener>)
    ensures r.None? <==> forall l :: l in listeners ==> l.name != name
    ensures r.Some? ==> r.value in listeners && r.value.name == name
  {
    if listeners == [] then None
    else if listeners[0].name == name then Some(listeners[0])
    else FirstNamed(listeners[1..], name)
  }

  /** The listeners a parentRef selects: the first one of the name it gives, or all when it names none. */
  function ListenersFor(byOwner: ListenerIndex, parent: Parent): seq<Listener> {
    var listeners := if parent.Owner() in byOwner then byOwner[parent.Owner()] else [];
    match parent.section
    case None => listeners
    case Some(name) => match FirstNamed(listeners, name) case Some(l) => [l] case None => []
  }
}
