/** What the attachment checks say of a parentRef, in terms of the fields of routes and listeners
    (pkg/gatewayapi/attach.go, pkg/templates). */
module ListenerTerms {
  import opened Manifests
  import opened Routes
  import opened Parents
  import opened Attach
  import opened AttachmentChecks
  import opened AttachmentDiagnosis
  import opened ListenerNames
  import opened ReferenceTerms

  // One listener

  predicate KnownProtocol(protocol: string) {
    protocol == "HTTP" || protocol == "HTTPS" || protocol == "TLS" || protocol == "TCP" || protocol == "UDP"
  }

  /** The kinds each protocol carries; of a protocol not known nothing is ruled out. */
  predicate CarriesKind(protocol: string, kind: string) {
    || !KnownProtocol(protocol)
    || (protocol, kind) in {
      ("HTTP", "HTTPRoute"), ("HTTP", "GRPCRoute"), ("HTTPS", "HTTPRoute"), ("HTTPS", "GRPCRoute"),
      ("TLS", "TLSRoute"), ("TCP", "TCPRoute"), ("UDP", "UDPRoute")}
  }

  predicate ListsKinds(l: Listener) {
    l.allowed.Some? && l.allowed.value.kinds != []
  }

  predicate IsOwnKind(g: RouteGroupKind) {
    g.group.None? || g.group == Some("gateway.networking.k8s.io")
  }

  predicate ListsKind(l: Listener, kind: string) {
    ListsKinds(l) && exists g :: g in l.allowed.value.kinds && IsOwnKind(g) && g.kind == kind
  }

  predicate ListsForeignKindsOnly(l: Listener) {
    ListsKinds(l) && forall g :: g in l.allowed.value.kinds ==> !IsOwnKind(g)
  }

  /** A list of kinds replaces what the protocol carries, unless it has none of the Gateway API's. */
  predicate TakesKind(l: Listener, kind: string) {
    if ListsKinds(l) then ListsKind(l, kind) || ListsForeignKindsOnly(l) else CarriesKind(l.protocol, kind)
  }

  /** Only a stated policy other than Same lets another namespace in. */
  predicate TakesNamespace(l: Listener, namespace: string) {
    || namespace == l.owner.namespace
    || (l.allowed.Some? && l.allowed.value.namespaces.Some? && l.allowed.value.namespaces.value.from.Some?
        && l.allowed.value.namespaces.value.from != Some("Same"))
  }

  lemma CarriesIff(l: Listener, kind: string)
    ensures Carries(l, kind) <==> CarriesKind(l.protocol, kind)
  {
  }

  lemma AcceptsIff(l: Listener, kind: string)
    ensures HasExplicitKinds(l) <==> ListsKinds(l)
    ensures Accepts(l, kind) <==> TakesKind(l, kind)
  {
    CarriesIff(l, kind);
    if ListsKinds(l) {
      forall g | g in l.allowed.value.kinds
        ensures IsOwnKind(g) ==> g.kind in OwnKinds(l.allowed.value.kinds)
      {
        assert IsOwnKind(g) <==> IsGatewayAPIKind(g);
      }
      if AcceptedKinds(l) != [] {
        assert AcceptedKinds(l)[0] in AcceptedKinds(l);
      }
    }
  }

  lemma AcceptsNamespaceIff(l: Listener, namespace: string)
    ensures AcceptsNamespace(l, namespace) <==> TakesNamespace(l, namespace)
    ensures !AcceptsNamespace(l, namespace) ==> NamespacePolicy(l) == "Same"
  {
  }

  // Hostnames

  predicate IsUnder(pattern: string, host: string, first: string, rest: string) {
    first != "" && rest != "" && pattern == "*." + rest && host == first + "." + rest
  }

  /** The host is the pattern, or has something in the place of its asterisk. */
  ghost predicate Under(pattern: string, host: string) {
    host == pattern || exists first, rest :: IsUnder(pattern, host, first, rest)
  }

  lemma CoversIff(pattern: string, host: string)
    ensures Covers(pattern, host) <==> Under(pattern, host)
  {
    if IsWildcard(pattern) && Covers(pattern, host) {
      var first, rest := host[..|host| - |pattern| + 1], pattern[2..];
      assert pattern == "*." + rest;
      assert host == first + "." + rest;
      assert IsUnder(pattern, host, first, rest);
    }
    if first, rest :| IsUnder(pattern, host, first, rest) {
      assert pattern[1..] == "." + rest;
      assert host[|host| - |pattern| + 1..] == "." + rest;
    }
  }

  lemma CoversHostOf(pattern: string, host: string)
    requires IsWildcard(host) && Covers(pattern, host)
    ensures Covers(pattern, HostOf(host))
  {
    assert HostOf(host)[1..] == host[1..];
    var n := |pattern| - 1;
    if IsWildcard(pattern) {
      assert HostOf(host)[|host| - n..] == host[|host| - n..];
    }
  }

  /** Two hostnames overlap if and only if some host is under both. */
  lemma OverlapIff(a: string, b: string)
    ensures HostnamesOverlap(a, b) <==> exists host :: Under(a, host) && Under(b, host)
  {
    OverlapIffCommonHost(a, b);
    hide HostnamesOverlap, Covers, IsWildcard;
    if host :| CommonHost(a, b, host) {
      CoversIff(a, host);
      CoversIff(b, host);
    }
    if host :| Under(a, host) && Under(b, host) {
      CoversIff(a, host);
      CoversIff(b, host);
      if IsWildcard(host) {
        CoversHostOf(a, host);
        CoversHostOf(b, host);
        HostOfIsCovered(host);
        assert CommonHost(a, b, HostOf(host));
      } else {
        assert CommonHost(a, b, host);
      }
    }
  }

  /** A host of the listener is a host of the route, where no hostname stands for all of them. */
  ghost predicate MeetsHost(l: Listener, hostnames: seq<string>) {
    || l.hostname.None? || l.hostname == Some("") || hostnames == []
    || exists h, host :: h in hostnames && Under(l.hostname.value, host) && Under(h, host)
  }

  lemma IntersectsIff(l: Listener, hostnames: seq<string>)
    ensures Intersects(l, hostnames) <==> MeetsHost(l, hostnames)
  {
    hide HostnamesOverlap, Under;
    if l.hostname.Some? {
      forall h
        ensures HostnamesOverlap(l.hostname.value, h) <==>
                  exists host :: Under(l.hostname.value, host) && Under(h, host)
      {
        OverlapIff(l.hostname.value, h);
      }
    }
  }

  // The listeners of one parentRef

  function OwnerOf(ref: ParentReference, namespace: string): ObjectRef {
    ObjectRef(ref.kind.GetOr("Gateway"), ref.namespace.GetOr(namespace), ref.name)
  }

  predicate IsOurs(ref: ParentReference) {
    ref.group.None? || ref.group == Some("gateway.networking.k8s.io")
  }

  predicate IsFirstNamed(listeners: seq<Listener>, i: int, name: string) {
    0 <= i < |listeners| && listeners[i].name == name && forall j :: 0 <= j < i ==> listeners[j].name != name
  }

  lemma {:induction false} FirstNamedIs(listeners: seq<Listener>, name: string)
    ensures FirstNamed(listeners, name).None? <==> forall i :: 0 <= i < |listeners| ==> listeners[i].name != name
    ensures FirstNamed(listeners, name).Some? ==>
              exists i :: IsFirstNamed(listeners, i, name) && FirstNamed(listeners, name).value == listeners[i]
  {
    if listeners != [] && listeners[0].name != name {
      FirstNamedIs(listeners[1..], name);
      if FirstNamed(listeners[1..], name).Some? {
        var i :| IsFirstNamed(listeners[1..], i, name) && FirstNamed(listeners[1..], name).value == listeners[1..][i];
        assert forall j :: 0 < j <= i ==> listeners[j] == listeners[1..][j - 1];
        assert IsFirstNamed(listeners, i + 1, name);
      }
    } else if listeners != [] {
      assert IsFirstNamed(listeners, 0, name);
    }
  }

  /** A parentRef without a section selects all listeners of the object it is to, else the first of the name. */
  lemma SelectedAre(ctx: Context, ref: ParentReference, namespace: string)
    ensures var listeners := ListenersUnder(ctx, OwnerOf(ref, namespace));
            var selected := Selected(ctx, Resolve(ref, namespace));
            if ref.sectionName.None? then selected == listeners
            else if exists l :: l in listeners && l.name == ref.sectionName.value then
              exists i :: IsFirstNamed(listeners, i, ref.sectionName.value) && selected == [listeners[i]]
            else selected == []
  {
    hide ListenersUnder, IsFirstNamed;
    if ref.sectionName.Some? {
      FirstNamedIs(ListenersUnder(ctx, OwnerOf(ref, namespace)), ref.sectionName.value);
    }
  }

  /** dangling-parent-ref: no object of the identity, though there are Gateways or ListenerSets. */
  lemma DanglingIff(ctx: Context, ref: ParentReference, namespace: string)
    ensures var row, owner := DanglingRow(ctx, Resolve(ref, namespace)), OwnerOf(ref, namespace);
            && (row == [] || row == [owner])
            && (row != [] <==>
                  && IsOurs(ref) && (exists i :: 0 <= i < |ctx| && (ctx[i].GatewayV1? || ctx[i].ListenerSetV1?))
                  && forall i :: 0 <= i < |ctx| ==> !IsAttachPoint(ctx[i], owner.kind, owner.namespace, owner.name))
  {
    var known, owner := KnownParents(ctx), OwnerOf(ref, namespace);
    KnownParentsAre(ctx, owner);
    assert known != {} <==> exists i :: 0 <= i < |ctx| && AttachPointOf(ctx[i]).Some? by {
      if o :| o in known {
      }
      if i :| 0 <= i < |ctx| && AttachPointOf(ctx[i]).Some? {
        assert AttachPointOf(ctx[i]).value in known;
      }
    }
    hide KnownParents, IsAttachPoint;
  }

  /** listener-not-found: the object declares listeners, none of them of that name; the reason has all their names. */
  lemma NotFoundIff(ctx: Context, ref: ParentReference, namespace: string)
    ensures var row, owner := NotFoundRow(ctx, Resolve(ref, namespace)), OwnerOf(ref, namespace);
            var specs := SpecsUnder(ctx, owner.kind, owner.namespace, owner.name);
            && (row == [] || row == [SortedNames(ListenersUnder(ctx, owner))])
            && (row != [] <==>
                  && IsOurs(ref) && ref.sectionName.Some? && specs != []
                  && forall i :: 0 <= i < |specs| ==> specs[i].name != ref.sectionName.value)
  {
    var owner := OwnerOf(ref, namespace);
    ListenersAreSpecs(ctx, owner);
    hide ListenersUnder, SpecsUnder, SortedNames;
    if ref.sectionName.Some? {
      FirstNamedIs(ListenersUnder(ctx, owner), ref.sectionName.value);
    }
  }

  /** A parentRef of another group is no business of the five checks. */
  lemma ForeignRefsAreSilent(ctx: Context, route: Route, ref: ParentReference)
    requires !IsOurs(ref)
    ensures var p := Resolve(ref, route.namespace);
            DanglingRow(ctx, p) == [] && NotFoundRow(ctx, p) == [] && Silent(ctx, route, p)
  {
  }

  // The three checks that judge listeners

  predicate LetsIn(l: Listener, route: Route) {
    TakesNamespace(l, route.namespace) && (!ListsKinds(l) || TakesKind(l, route.kind))
  }

  predicate Takes(l: Listener, route: Route) {
    TakesNamespace(l, route.namespace) && TakesKind(l, route.kind)
  }

  predicate CarriesFor(l: Listener, route: Route) {
    TakesNamespace(l, route.namespace) && CarriesKind(l.protocol, route.kind)
  }

  lemma StepsAre(l: Listener, route: Route)
    ensures LetsIn(l, route) <==> NotExcluded(l, route)
    ensures Takes(l, route) <==> TakesHere(l, route)
    ensures CarriesFor(l, route) <==> CarriesHere(l, route)
    ensures MeetsHost(l, route.hostnames) <==> Intersects(l, route.hostnames)
  {
    AcceptsNamespaceIff(l, route.namespace);
    AcceptsIff(l, route.kind);
    CarriesIff(l, route.kind);
    IntersectsIff(l, route.hostnames);
    hide TakesNamespace, TakesKind, CarriesKind, ListsKinds, MeetsHost, Accepts, AcceptsNamespace, Carries, Intersects,
         HasExplicitKinds;
  }

  /** The three checks are silent about a parentRef exactly when some selected listener lets the route in, some carries
      its kind, and some takes it and meets a hostname of it, unless none takes it. */
  lemma SilentTermsIff(ctx: Context, route: Route, ref: ParentReference)
    requires IsOurs(ref) && Selected(ctx, Resolve(ref, route.namespace)) != []
    ensures var listeners := Selected(ctx, Resolve(ref, route.namespace));
            Silent(ctx, route, Resolve(ref, route.namespace)) <==>
              && (exists l :: l in listeners && LetsIn(l, route))
              && (exists l :: l in listeners && CarriesFor(l, route))
              && (|| (exists l :: l in listeners && Takes(l, route) && MeetsHost(l, route.hostnames))
                  || forall l :: l in listeners ==> !Takes(l, route))
  {
    var p := Resolve(ref, route.namespace);
    SilentIff(ctx, route, p);
    hide LetsIn, Takes, CarriesFor, NotExcluded, TakesHere, CarriesHere, MeetsHost, Intersects, Selected, Silent;
    forall l
      ensures LetsIn(l, route) <==> NotExcluded(l, route)
      ensures Takes(l, route) <==> TakesHere(l, route)
      ensures CarriesFor(l, route) <==> CarriesHere(l, route)
      ensures MeetsHost(l, route.hostnames) <==> Intersects(l, route.hostnames)
    {
      StepsAre(l, route);
    }
  }

  /** A listener without allowedRoutes works for exactly the kinds of its protocol, from its own namespace, where the
      hostnames meet; with no other selected the checks are silent if and only if it does. */
  lemma PlainListenerSilentIff(ctx: Context, route: Route, ref: ParentReference, l: Listener)
    requires IsOurs(ref) && Selected(ctx, Resolve(ref, route.namespace)) == [l]
    requires l.allowed.None? && KnownProtocol(l.protocol)
    ensures Silent(ctx, route, Resolve(ref, route.namespace)) <==>
              && route.namespace == l.owner.namespace
              && (l.protocol, route.kind) in {
                   ("HTTP", "HTTPRoute"), ("HTTP", "GRPCRoute"), ("HTTPS", "HTTPRoute"), ("HTTPS", "GRPCRoute"),
                   ("TLS", "TLSRoute"), ("TCP", "TCPRoute"), ("UDP", "UDPRoute")}
              && MeetsHost(l, route.hostnames)
  {
    OneListenerSilentIffWorks(ctx, route, Resolve(ref, route.namespace), l);
    AcceptsNamespaceIff(l, route.namespace);
    AcceptsIff(l, route.kind);
    CarriesIff(l, route.kind);
    IntersectsIff(l, route.hostnames);
    hide Accepts, AcceptsNamespace, Carries, Intersects, HasExplicitKinds, MeetsHost, Silent, Selected;
  }

  // The reasons

  lemma {:induction false} ReasonsAre<R>(steps: seq<Step<R>>, r: R)
    ensures r in Reasons(steps) <==> exists i :: 0 <= i < |steps| && steps[i] == Because(r)
  {
    if steps != [] {
      var n := |steps| - 1;
      ReasonsAre(steps[..n], r);
      assert forall i :: 0 <= i < n ==> steps[..n][i] == steps[i];
      if i :| 0 <= i < |steps| && steps[i] == Because(r) {
        assert i < n ==> steps[..n][i] == Because(r);
      }
    }
  }

  lemma ExplainedIff<R(!new)>(steps: seq<Step<R>>, r: R)
    ensures r in Explain(steps) <==> Explain(steps) != [] && exists i :: 0 <= i < |steps| && steps[i] == Because(r)
  {
    ReasonsAre(steps, r);
  }

  /** route-not-permitted: a listener refuses the namespace, by its policy, or the kind, by its own list. */
  ghost predicate Refuses(l: Listener, route: Route, r: Refusal) {
    if !TakesNamespace(l, route.namespace) then r == NamespaceRefused(l.name, "Same", route.namespace)
    else
      && ListsKinds(l) && !TakesKind(l, route.kind) && r.KindRefused? && r.listener == l.name && r.kind == route.kind
      && forall k :: k in r.kinds <==> ListsKind(l, k)
  }

  lemma RefusalIs(l: Listener, route: Route)
    ensures AdmitStep(l, route).Because? ==> Refuses(l, route, AdmitStep(l, route).reason)
  {
    AcceptsNamespaceIff(l, route.namespace);
    AcceptsIff(l, route.kind);
    if ListsKinds(l) {
      forall g
        ensures IsOwnKind(g) <==> IsGatewayAPIKind(g)
      {
      }
    }
    hide AcceptsNamespace, NamespacePolicy, Accepts, TakesKind, TakesNamespace;
  }

  lemma RefusalsAre(ctx: Context, route: Route, p: Parent)
    ensures forall r :: r in RefusedRow(ctx, route, p) ==>
              exists l :: l in Selected(ctx, p) && Refuses(l, route, r)
  {
    var listeners := Selected(ctx, p);
    var steps := AdmitSteps(listeners, route);
    hide Selected, Refuses, AdmitStep, Explain;
    forall r | r in RefusedRow(ctx, route, p)
      ensures exists l :: l in listeners && Refuses(l, route, r)
    {
      ExplainedIff(steps, r);
      var i :| 0 <= i < |steps| && steps[i] == Because(r);
      RefusalIs(listeners[i], route);
    }
  }

  function CarriedKinds(protocol: string): seq<string> {
    match protocol
    case "HTTP" => ["HTTPRoute", "GRPCRoute"]
    case "HTTPS" => ["HTTPRoute", "GRPCRoute"]
    case "TLS" => ["TLSRoute"]
    case "TCP" => ["TCPRoute"]
    case "UDP" => ["UDPRoute"]
    case _ => []
  }

  /** protocol-mismatch: every reason is of a listener that lets the route in and whose protocol cannot carry it. */
  lemma MismatchesAre(ctx: Context, route: Route, p: Parent, m: Mismatch)
    ensures m in MismatchRow(ctx, route, p) <==>
              && MismatchRow(ctx, route, p) != []
              && exists l :: && l in Selected(ctx, p) && LetsIn(l, route) && !CarriesKind(l.protocol, route.kind)
                             && m == Mismatch(l.name, ListsKinds(l), route.kind, l.protocol, CarriedKinds(l.protocol))
  {
    var listeners := Selected(ctx, p);
    var steps := CarrySteps(listeners, route);
    ExplainedIff(steps, m);
    hide Selected, Explain, LetsIn, CarriesKind, CarryStep, CarriedKinds, ListsKinds;
    forall l
      ensures CarryStep(l, route) == Because(m) <==>
                LetsIn(l, route) && !CarriesKind(l.protocol, route.kind)
                && m == Mismatch(l.name, ListsKinds(l), route.kind, l.protocol, CarriedKinds(l.protocol))
    {
      MismatchIs(l, route, m);
    }
    if l :| l in listeners && CarryStep(l, route) == Because(m) {
      var i :| 0 <= i < |listeners| && listeners[i] == l;
      assert steps[i] == Because(m);
    }
  }

  lemma MismatchIs(l: Listener, route: Route, m: Mismatch)
    ensures CarryStep(l, route) == Because(m) <==>
              LetsIn(l, route) && !CarriesKind(l.protocol, route.kind)
              && m == Mismatch(l.name, ListsKinds(l), route.kind, l.protocol, CarriedKinds(l.protocol))
  {
    AcceptsNamespaceIff(l, route.namespace);
    AcceptsIff(l, route.kind);
    CarriesIff(l, route.kind);
    assert RouteKindsFor(l.protocol) == CarriedKinds(l.protocol);
    hide AcceptsNamespace, Accepts, TakesKind, TakesNamespace, Carries, CarriesKind, HasExplicitKinds, ListsKinds,
         RouteKindsFor, CarriedKinds;
  }

  /** hostname-never-matches: every reason is the hostname of a listener that takes the route and meets none of its. */
  lemma OffersAre(ctx: Context, route: Route, p: Parent, o: Offer)
    ensures o in NeverMatchesRow(ctx, route, p) <==>
              && NeverMatchesRow(ctx, route, p) != []
              && exists l :: && l in Selected(ctx, p) && Takes(l, route) && !MeetsHost(l, route.hostnames)
                             && l.hostname == Some(o.hostname) && l.name == o.listener
  {
    var listeners := Selected(ctx, p);
    var steps := MatchSteps(listeners, route);
    ExplainedIff(steps, o);
    hide Selected, Explain, Takes, MeetsHost, MatchStep;
    forall l
      ensures MatchStep(l, route) == Because(o) <==>
                Takes(l, route) && !MeetsHost(l, route.hostnames) && l.hostname == Some(o.hostname)
                && l.name == o.listener
    {
      OfferIs(l, route, o);
    }
    if l :| l in listeners && MatchStep(l, route) == Because(o) {
      var i :| 0 <= i < |listeners| && listeners[i] == l;
      assert steps[i] == Because(o);
    }
  }

  lemma OfferIs(l: Listener, route: Route, o: Offer)
    ensures MatchStep(l, route) == Because(o) <==>
              Takes(l, route) && !MeetsHost(l, route.hostnames) && l.hostname == Some(o.hostname)
              && l.name == o.listener
  {
    AcceptsNamespaceIff(l, route.namespace);
    AcceptsIff(l, route.kind);
    IntersectsIff(l, route.hostnames);
    hide AcceptsNamespace, Accepts, TakesKind, TakesNamespace, Intersects;
  }
}
