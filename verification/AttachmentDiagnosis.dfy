/** What the five attachment checks add up to: they never overlap, they never accuse a working attachment, and when
    exactly they stay silent about a broken one. */
module AttachmentDiagnosis {
  import opened Manifests
  import opened Routes
  import opened Parents
  import opened Attach
  import opened AttachmentChecks
  import opened ListenerNames

  ghost predicate FindingAt<R(!new)>(route: Route, rows: seq<seq<R>>, i: int, f: Finding<R>)
    requires |rows| <= |route.parentRefs|
  {
    0 <= i < |rows| && rows[i] != [] && f == Finding(route.kind, route.name, ParentList(route)[i], rows[i])
  }

  /** A check reports exactly the parentRefs whose row has a reason. */
  lemma {:induction false} FindingsAre<R(!new)>(route: Route, rows: seq<seq<R>>)
    requires |rows| <= |route.parentRefs|
    ensures forall f :: f in Findings(route, rows) <==> exists i :: FindingAt(route, rows, i, f)
  {
    if rows != [] {
      var n := |rows| - 1;
      FindingsAre(route, rows[..n]);
      forall f
        ensures f in Findings(route, rows) <==> exists i :: FindingAt(route, rows, i, f)
      {
        if f in Findings(route, rows[..n]) {
          var i :| FindingAt(route, rows[..n], i, f);
          assert FindingAt(route, rows, i, f);
        } else if f in Findings(route, rows) {
          assert FindingAt(route, rows, n, f);
        }
        if i :| FindingAt(route, rows, i, f) {
          assert i < n ==> FindingAt(route, rows[..n], i, f);
        }
      }
    }
  }

  // No overlap

  lemma ExplainEmptyIff<R(!new)>(steps: seq<Step<R>>)
    ensures Explain(steps) == [] <==> Settled(steps) || forall i :: 0 <= i < |steps| ==> !steps[i].Because?
  {
    ReasonsEmptyIff(steps);
  }

  lemma SelectedAreUnder(ctx: Context, p: Parent)
    ensures forall l :: l in Selected(ctx, p) ==> l in ListenersUnder(ctx, p.Owner())
    ensures Selected(ctx, p) != [] ==> p.Owner() in KnownParents(ctx)
  {
    ListenersUnderOwner(ctx, p.Owner());
  }

  /** A dangling parentRef selects no listener, so no other check has anything to judge. */
  lemma DanglingExcludesTheRest(ctx: Context, route: Route, p: Parent)
    requires DanglingRow(ctx, p) != []
    ensures NotFoundRow(ctx, p) == []
    ensures RefusedRow(ctx, route, p) == [] && MismatchRow(ctx, route, p) == [] && NeverMatchesRow(ctx, route, p) == []
  {
    hide KnownParents, Reasons, SortedNames;
    SelectedAreUnder(ctx, p);
    ListenersUnderOwner(ctx, p.Owner());
    SelectsNothing(ctx, route, p);
  }

  lemma SelectsNothing(ctx: Context, route: Route, p: Parent)
    requires Selected(ctx, p) == []
    ensures RefusedRow(ctx, route, p) == [] && MismatchRow(ctx, route, p) == [] && NeverMatchesRow(ctx, route, p) == []
  {
    hide Selected;
  }

  /** A listener that does not exist is not judged any further. */
  lemma NotFoundExcludesTheRest(ctx: Context, route: Route, p: Parent)
    requires NotFoundRow(ctx, p) != []
    ensures RefusedRow(ctx, route, p) == [] && MismatchRow(ctx, route, p) == [] && NeverMatchesRow(ctx, route, p) == []
  {
    SelectsNothing(ctx, route, p);
  }

  /** Listeners that all refuse the route leave the protocol and hostname checks nothing to say. */
  lemma RefusedExcludesTheRest(ctx: Context, route: Route, p: Parent)
    requires RefusedRow(ctx, route, p) != []
    ensures MismatchRow(ctx, route, p) == [] && NeverMatchesRow(ctx, route, p) == []
  {
    hide Selected, AcceptsNamespace, Accepts, Carries, Intersects, Reasons, HasExplicitKinds, Explain;
    var listeners := Selected(ctx, p);
    ExplainEmptyIff(AdmitSteps(listeners, route));
    ExplainEmptyIff(CarrySteps(listeners, route));
    ExplainEmptyIff(MatchSteps(listeners, route));
    forall i | 0 <= i < |listeners|
      ensures !CarryStep(listeners[i], route).Because? && !MatchStep(listeners[i], route).Because?
    {
      assert !AdmitSteps(listeners, route)[i].Settles?;
    }
  }

  function Count(b: bool): nat {
    if b then 1 else 0
  }

  /** For every manifest set, route and parentRef, at most one of dangling-parent-ref, listener-not-found,
      route-not-permitted and the pair protocol-mismatch, hostname-never-matches reports. */
  lemma AtMostOneCheckReports(ctx: Context, route: Route, p: Parent)
    ensures Count(DanglingRow(ctx, p) != []) + Count(NotFoundRow(ctx, p) != []) + Count(RefusedRow(ctx, route, p) != [])
          + Count(MismatchRow(ctx, route, p) != [] || NeverMatchesRow(ctx, route, p) != []) <= 1
  {
    hide DanglingRow, NotFoundRow, RefusedRow, MismatchRow, NeverMatchesRow;
    if DanglingRow(ctx, p) != [] {
      DanglingExcludesTheRest(ctx, route, p);
    } else if NotFoundRow(ctx, p) != [] {
      NotFoundExcludesTheRest(ctx, route, p);
    } else if RefusedRow(ctx, route, p) != [] {
      RefusedExcludesTheRest(ctx, route, p);
    }
  }

  // No false alarm, and no false calm

  /** The listener takes the route's namespace and kind, can carry it, and serves one of its hostnames. */
  predicate Works(l: Listener, route: Route) {
    && AcceptsNamespace(l, route.namespace) && Accepts(l, route.kind)
    && Carries(l, route.kind) && Intersects(l, route.hostnames)
  }

  ghost predicate Silent(ctx: Context, route: Route, p: Parent) {
    RefusedRow(ctx, route, p) == [] && MismatchRow(ctx, route, p) == [] && NeverMatchesRow(ctx, route, p) == []
  }

  predicate NotExcluded(l: Listener, route: Route) {
    AcceptsNamespace(l, route.namespace) && (!HasExplicitKinds(l) || Accepts(l, route.kind))
  }

  predicate CarriesHere(l: Listener, route: Route) {
    AcceptsNamespace(l, route.namespace) && Carries(l, route.kind)
  }

  predicate TakesHere(l: Listener, route: Route) {
    AcceptsNamespace(l, route.namespace) && Accepts(l, route.kind)
  }

  /** Each of the three questions finds some listener to say yes, not necessarily the same one; the hostname
      question is also dropped when no listener takes the route at all. */
  ghost predicate EachTestPassesSomewhere(listeners: seq<Listener>, route: Route) {
    && (exists l :: l in listeners && NotExcluded(l, route))
    && (exists l :: l in listeners && CarriesHere(l, route))
    && ((exists l :: l in listeners && TakesHere(l, route) && Intersects(l, route.hostnames))
        || forall l :: l in listeners ==> !TakesHere(l, route))
  }

  lemma AdmitSilentIff(listeners: seq<Listener>, route: Route)
    ensures Explain(AdmitSteps(listeners, route)) == [] <==>
              listeners == [] || exists l :: l in listeners && NotExcluded(l, route)
  {
    hide AcceptsNamespace, Accepts, HasExplicitKinds, Explain;
    var steps := AdmitSteps(listeners, route);
    ExplainEmptyIff(steps);
    assert forall i :: 0 <= i < |steps| ==> steps[i].Settles? || steps[i].Because?;
    assert forall i :: 0 <= i < |steps| ==> (steps[i].Settles? <==> NotExcluded(listeners[i], route));
    if l :| l in listeners && NotExcluded(l, route) {
      var i :| 0 <= i < |listeners| && listeners[i] == l;
      assert steps[i].Settles?;
    }
    assert listeners != [] ==> steps[0].Settles? || steps[0].Because?;
  }

  lemma CarrySilentIff(listeners: seq<Listener>, route: Route)
    requires exists l :: l in listeners && NotExcluded(l, route)
    ensures Explain(CarrySteps(listeners, route)) == [] <==> exists l :: l in listeners && CarriesHere(l, route)
  {
    hide AcceptsNamespace, Accepts, Carries, HasExplicitKinds, Explain;
    var steps := CarrySteps(listeners, route);
    ExplainEmptyIff(steps);
    assert forall i :: 0 <= i < |steps| ==> (steps[i].Settles? <==> CarriesHere(listeners[i], route));
    var a :| a in listeners && NotExcluded(a, route);
    var k :| 0 <= k < |listeners| && listeners[k] == a;
    assert steps[k].Settles? || steps[k].Because?;
    if l :| l in listeners && CarriesHere(l, route) {
      var i :| 0 <= i < |listeners| && listeners[i] == l;
      assert steps[i].Settles?;
    }
  }

  lemma MatchSilentIff(listeners: seq<Listener>, route: Route)
    ensures Explain(MatchSteps(listeners, route)) == [] <==>
              || (exists l :: l in listeners && TakesHere(l, route) && Intersects(l, route.hostnames))
              || (forall l :: l in listeners ==> !TakesHere(l, route))
  {
    hide AcceptsNamespace, Accepts, Intersects, Explain;
    var steps := MatchSteps(listeners, route);
    ExplainEmptyIff(steps);
    assert forall i :: 0 <= i < |steps| ==>
      (steps[i].Settles? <==> TakesHere(listeners[i], route) && Intersects(listeners[i], route.hostnames));
    assert forall i :: 0 <= i < |steps| ==> (steps[i].Passes? <==> !TakesHere(listeners[i], route));
    if l :| l in listeners && TakesHere(l, route) && Intersects(l, route.hostnames) {
      var i :| 0 <= i < |listeners| && listeners[i] == l;
      assert steps[i].Settles?;
    }
    if l :| l in listeners && TakesHere(l, route) {
      var i :| 0 <= i < |listeners| && listeners[i] == l;
      assert !steps[i].Passes?;
    }
  }

  /** The two checks of the pair both report a parentRef exactly when no selected listener's protocol carries the
      route, some selected listener takes it, and none that does meets its hostnames. */
  lemma PairOverlapsIff(ctx: Context, route: Route, p: Parent)
    ensures MismatchRow(ctx, route, p) != [] && NeverMatchesRow(ctx, route, p) != [] <==>
              && p.group == GATEWAY_API_GROUP && route.hostnames != []
              && (forall l :: l in Selected(ctx, p) ==> !CarriesHere(l, route))
              && (exists l :: l in Selected(ctx, p) && TakesHere(l, route))
              && (forall l :: l in Selected(ctx, p) && TakesHere(l, route) ==> !Intersects(l, route.hostnames))
  {
    var listeners := Selected(ctx, p);
    MatchSilentIff(listeners, route);
    hide Selected, Explain, AdmitSteps, CarrySteps, MatchSteps, CarriesHere, Intersects, HasExplicitKinds, Accepts,
         AcceptsNamespace;
    if exists l :: l in listeners && TakesHere(l, route) {
      CarrySilentIff(listeners, route);
    }
  }

  /** For instance: a single listener that allows a kind its protocol cannot carry, on another hostname. */
  lemma ProtocolAndHostnameBothReport(ctx: Context, route: Route, p: Parent, l: Listener)
    requires p.group == GATEWAY_API_GROUP && Selected(ctx, p) == [l] && route.hostnames != []
    requires AcceptsNamespace(l, route.namespace) && HasExplicitKinds(l) && Accepts(l, route.kind)
    requires !Carries(l, route.kind) && !Intersects(l, route.hostnames)
    ensures MismatchRow(ctx, route, p) != [] && NeverMatchesRow(ctx, route, p) != []
  {
    hide Selected, AcceptsNamespace, Accepts, Carries, Intersects, Reasons, HasExplicitKinds, Explain;
    ExplainEmptyIff(CarrySteps([l], route));
    ExplainEmptyIff(MatchSteps([l], route));
    assert CarrySteps([l], route)[0].Because? && MatchSteps([l], route)[0].Because?;
  }

  /** The checks stay silent about a parentRef exactly when each test passes on some selected listener. */
  lemma SilentIff(ctx: Context, route: Route, p: Parent)
    requires p.group == GATEWAY_API_GROUP && Selected(ctx, p) != []
    ensures Silent(ctx, route, p) <==> EachTestPassesSomewhere(Selected(ctx, p), route)
  {
    var listeners := Selected(ctx, p);
    AdmitSilentIff(listeners, route);
    MatchSilentIff(listeners, route);
    EveryListenerMeetsNoHostname(listeners, route);
    hide Selected, Explain, AdmitSteps, CarrySteps, MatchSteps, NotExcluded, CarriesHere, TakesHere, Intersects;
    if exists l :: l in listeners && NotExcluded(l, route) {
      CarrySilentIff(listeners, route);
    }
  }

  lemma EveryListenerMeetsNoHostname(listeners: seq<Listener>, route: Route)
    ensures route.hostnames == [] ==> forall l :: l in listeners ==> Intersects(l, route.hostnames)
  {
  }

  /** No false alarm: once a check gives a reason, no selected listener works for the route. */
  lemma NoFalseAlarm(ctx: Context, route: Route, p: Parent)
    requires p.group == GATEWAY_API_GROUP && !Silent(ctx, route, p)
    ensures forall l :: l in Selected(ctx, p) ==> !Works(l, route)
  {
    if Selected(ctx, p) != [] {
      SilentIff(ctx, route, p);
      hide Silent, Selected, AcceptsNamespace, Accepts, Carries, Intersects, HasExplicitKinds;
    }
  }

  /** With one listener selected silence is a promise: the listener works. */
  lemma OneListenerSilentIffWorks(ctx: Context, route: Route, p: Parent, l: Listener)
    requires p.group == GATEWAY_API_GROUP && Selected(ctx, p) == [l]
    ensures Silent(ctx, route, p) <==> Works(l, route)
  {
    SilentIff(ctx, route, p);
    CarriedWithoutOwnKinds(l, route);
    hide Silent, Selected, AcceptsNamespace, Accepts, Carries, Intersects, HasExplicitKinds;
    assert l in [l];
  }

  /** A listener without kinds of its own accepts exactly what its protocol carries. */
  lemma CarriedWithoutOwnKinds(l: Listener, route: Route)
    ensures !HasExplicitKinds(l) ==> (Accepts(l, route.kind) <==> Carries(l, route.kind))
  {
  }

  /** Over several listeners it is not: a TCP listener without kinds of its own and an HTTP listener that allows
      only GRPCRoute leave an HTTPRoute attached nowhere and reported by no check. */
  lemma SeveralListenersCanBeSilent(ctx: Context, route: Route, p: Parent, tcp: Listener, http: Listener)
    requires p.group == GATEWAY_API_GROUP && Selected(ctx, p) == [tcp, http] && route.kind == HTTP_ROUTE
    requires AcceptsNamespace(tcp, route.namespace) && AcceptsNamespace(http, route.namespace)
    requires tcp.protocol == "TCP" && !HasExplicitKinds(tcp)
    requires http.protocol == "HTTP" && http.allowed.Some?
    requires http.allowed.value.kinds == [RouteGroupKind(None, GRPC_ROUTE)]
    ensures Silent(ctx, route, p) && !Works(tcp, route) && !Works(http, route)
  {
    PlainTCP(tcp);
    HTTPForGRPCOnly(http);
    SilentIff(ctx, route, p);
    hide Silent, Selected, AcceptsNamespace, Accepts, Carries, Intersects;
    assert tcp in [tcp, http] && http in [tcp, http];
    assert NotExcluded(tcp, route) && CarriesHere(http, route);
  }

  lemma PlainTCP(l: Listener)
    requires l.protocol == "TCP" && !HasExplicitKinds(l)
    ensures !Accepts(l, HTTP_ROUTE)
  {
  }

  lemma HTTPForGRPCOnly(l: Listener)
    requires l.protocol == "HTTP" && l.allowed.Some? && l.allowed.value.kinds == [RouteGroupKind(None, GRPC_ROUTE)]
    ensures !Accepts(l, HTTP_ROUTE) && Carries(l, HTTP_ROUTE)
  {
    var kinds := l.allowed.value.kinds;
    assert OwnKinds(kinds[..0]) == [];
    assert AcceptedKinds(l) == [GRPC_ROUTE];
  }

  // What the checks do not see

  lemma KnownParentsWithout(before: Context, obj: Object, after: Context)
    requires AttachPointOf(obj).None?
    ensures KnownParents(before + [obj] + after) == KnownParents(before + after)
  {
    var ctx, less := before + [obj] + after, before + after;
    hide AttachPointOf;
    forall o
      ensures o in KnownParents(ctx) <==> o in KnownParents(less)
    {
      if o in KnownParents(ctx) {
        var i :| 0 <= i < |ctx| && AttachPointOf(ctx[i]) == Some(o);
        assert less[if i < |before| then i else i - 1] == ctx[i];
      }
      if o in KnownParents(less) {
        var i :| 0 <= i < |less| && AttachPointOf(less[i]) == Some(o);
        assert ctx[if i < |before| then i else i + 1] == less[i];
      }
    }
  }

  lemma {:induction false} ListenersWithout(before: Context, obj: Object, after: Context, owner: ObjectRef)
    requires AttachPointOf(obj).None?
    ensures ListenersUnder(before + [obj] + after, owner) == ListenersUnder(before + after, owner)
  {
    hide AttachPointOf, ListenerList;
    if after == [] {
      assert before + [obj] + after == before + [obj] && before + after == before;
      assert (before + [obj])[..|before|] == before;
    } else {
      var n := |after| - 1;
      ListenersWithout(before, obj, after[..n], owner);
      assert (before + [obj] + after)[..|before| + 1 + n] == before + [obj] + after[..n];
      assert (before + after)[..|before| + n] == before + after[..n];
    }
  }

  /** The checks judge a parentRef by the v1 Gateways and ListenerSets alone: no other object makes a difference. */
  lemma OnlyAttachPointsMatter(before: Context, obj: Object, after: Context, route: Route, p: Parent)
    requires AttachPointOf(obj).None?
    ensures var ctx, less := before + [obj] + after, before + after;
            && DanglingRow(ctx, p) == DanglingRow(less, p)
            && NotFoundRow(ctx, p) == NotFoundRow(less, p)
            && RefusedRow(ctx, route, p) == RefusedRow(less, route, p)
            && MismatchRow(ctx, route, p) == MismatchRow(less, route, p)
            && NeverMatchesRow(ctx, route, p) == NeverMatchesRow(less, route, p)
  {
    KnownParentsWithout(before, obj, after);
    ListenersWithout(before, obj, after, p.Owner());
    hide KnownParents, ListenersUnder, Explain, SortedNames, AttachPointOf;
  }

  /** So a parentRef to a Gateway that is there, but at v1beta1, is called dangling whenever the set has any v1
      Gateway or ListenerSet and no v1 object of that identity. */
  lemma BetaGatewayLooksDangling(before: Context, gateway: Object, after: Context, p: Parent)
    requires gateway.GatewayV1Beta1? && p.Matches(GATEWAY, gateway.meta.namespace, gateway.meta.name)
    ensures DanglingRow(before + [gateway] + after, p) != [] <==>
              KnownParents(before + after) != {} && p.Owner() !in KnownParents(before + after)
  {
    KnownParentsWithout(before, gateway, after);
    hide KnownParents;
  }
}
