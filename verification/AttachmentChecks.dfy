/** The five checks that say why a route does not attach: dangling-parent-ref, listener-not-found,
    route-not-permitted, protocol-mismatch and hostname-never-matches (pkg/templates). Each judges one parentRef at
    a time; a row holds its reasons for one parentRef, and an empty row reports nothing. */
module AttachmentChecks {
  import opened Manifests
  import opened Routes
  import opened Parents
  import opened Attach
  import opened ListenerNames

  /** What one listener contributes to a "why none" loop: it settles the matter, says nothing, or gives a reason. */
  datatype Step<+R> = Settles | Passes | Because(reason: R)

  datatype Refusal =
    | NamespaceRefused(listener: string, policy: string, routeNamespace: string)
    | KindRefused(listener: string, kinds: seq<string>, kind: string)

  datatype Mismatch = Mismatch(listener: string, allowsKind: bool, kind: string, protocol: string, carried: seq<string>)

  datatype Offer = Offer(listener: string, hostname: string)

  datatype Finding<+R> = Finding(routeKind: string, routeName: string, parent: Parent, reasons: seq<R>)

  function Reasons<R>(steps: seq<Step<R>>): seq<R> {
    if steps == [] then []
    else
      var last := steps[|steps| - 1];
      Reasons(steps[..|steps| - 1]) + if last.Because? then [last.reason] else []
  }

  ghost predicate Settled<R(!new)>(steps: seq<Step<R>>) {
    exists i :: 0 <= i < |steps| && steps[i].Settles?
  }

  /** Every reason, in order, unless some listener settles the matter. */
  ghost function Explain<R(!new)>(steps: seq<Step<R>>): seq<R> {
    if Settled(steps) then [] else Reasons(steps)
  }

  lemma {:induction false} ReasonsEmptyIff<R>(steps: seq<Step<R>>)
    ensures Reasons(steps) == [] <==> forall i :: 0 <= i < |steps| ==> !steps[i].Because?
  {
    if steps != [] {
      var init := steps[..|steps| - 1];
      ReasonsEmptyIff(init);
      assert forall i :: 0 <= i < |init| ==> init[i] == steps[i];
      assert steps[|steps| - 1].Because? ==> |Reasons(steps)| > 0;
    }
  }

  lemma ReasonsStep<R>(steps: seq<Step<R>>, i: nat)
    requires i < |steps|
    ensures steps[i].Because? ==> Reasons(steps[..i + 1]) == Reasons(steps[..i]) + [steps[i].reason]
    ensures !steps[i].Because? ==> Reasons(steps[..i + 1]) == Reasons(steps[..i])
  {
    assert steps[..i + 1][..i] == steps[..i];
  }

  // Per listener

  function AdmitStep(l: Listener, route: Route): Step<Refusal> {
    if !AcceptsNamespace(l, route.namespace) then
      Because(NamespaceRefused(l.name, NamespacePolicy(l), route.namespace))
    else if !HasExplicitKinds(l) then Settles
    else if !Accepts(l, route.kind) then Because(KindRefused(l.name, AcceptedKinds(l), route.kind))
    else Settles
  }

  predicate Carries(l: Listener, kind: string) {
    RouteKindsFor(l.protocol) == [] || kind in RouteKindsFor(l.protocol)
  }

  function CarryStep(l: Listener, route: Route): Step<Mismatch> {
    if !AcceptsNamespace(l, route.namespace) then Passes
    else if Carries(l, route.kind) then Settles
    else if HasExplicitKinds(l) && !Accepts(l, route.kind) then Passes
    else Because(Mismatch(l.name, HasExplicitKinds(l), route.kind, l.protocol, RouteKindsFor(l.protocol)))
  }

  function MatchStep(l: Listener, route: Route): Step<Offer> {
    if !AcceptsNamespace(l, route.namespace) then Passes
    else if !Accepts(l, route.kind) then Passes
    else if Intersects(l, route.hostnames) then Settles
    else Because(Offer(l.name, l.hostname.GetOr("")))
  }

  function AdmitSteps(listeners: seq<Listener>, route: Route): (r: seq<Step<Refusal>>)
    ensures |r| == |listeners| && forall i :: 0 <= i < |r| ==> r[i] == AdmitStep(listeners[i], route)
  {
    seq(|listeners|, i requires 0 <= i < |listeners| => AdmitStep(listeners[i], route))
  }

  function CarrySteps(listeners: seq<Listener>, route: Route): (r: seq<Step<Mismatch>>)
    ensures |r| == |listeners| && forall i :: 0 <= i < |r| ==> r[i] == CarryStep(listeners[i], route)
  {
    seq(|listeners|, i requires 0 <= i < |listeners| => CarryStep(listeners[i], route))
  }

  function MatchSteps(listeners: seq<Listener>, route: Route): (r: seq<Step<Offer>>)
    ensures |r| == |listeners| && forall i :: 0 <= i < |r| ==> r[i] == MatchStep(listeners[i], route)
  {
    seq(|listeners|, i requires 0 <= i < |listeners| => MatchStep(listeners[i], route))
  }

  method WhyNoneAdmit(listeners: seq<Listener>, route: Route) returns (reasons: seq<Refusal>)
    ensures reasons == Explain(AdmitSteps(listeners, route))
  {
    hide AcceptsNamespace, Accepts, AcceptedKinds, NamespacePolicy, Reasons;
    ghost var steps := AdmitSteps(listeners, route);
    ReasonsEmptyIff(steps[..0]);
    reasons := [];
    for i := 0 to |listeners|
      invariant forall k :: 0 <= k < i ==> !steps[k].Settles?
      invariant reasons == Reasons(steps[..i])
    {
      ReasonsStep(steps, i);
      var l := listeners[i];
      if !AcceptsNamespace(l, route.namespace) {
        reasons := reasons + [NamespaceRefused(l.name, NamespacePolicy(l), route.namespace)];
        continue;
      }
      if !HasExplicitKinds(l) {
        assert steps[i].Settles?;
        return [];
      }
      var accepted, kinds := AcceptsKind(l, route.kind);
      if !accepted {
        reasons := reasons + [KindRefused(l.name, kinds, route.kind)];
        continue;
      }
      assert steps[i].Settles?;
      return [];
    }
    assert steps[..|listeners|] == steps;
  }

  method WhyNoListenerCarries(listeners: seq<Listener>, route: Route) returns (reasons: seq<Mismatch>)
    ensures reasons == Explain(CarrySteps(listeners, route))
  {
    hide AcceptsNamespace, Accepts, AcceptedKinds, RouteKindsFor, Reasons;
    ghost var steps := CarrySteps(listeners, route);
    ReasonsEmptyIff(steps[..0]);
    reasons := [];
    for i := 0 to |listeners|
      invariant forall k :: 0 <= k < i ==> !steps[k].Settles?
      invariant reasons == Reasons(steps[..i])
    {
      ReasonsStep(steps, i);
      var l := listeners[i];
      if !AcceptsNamespace(l, route.namespace) {
        continue;
      }
      var carried := RouteKindsFor(l.protocol);
      if |carried| == 0 || route.kind in carried {
        assert steps[i].Settles?;
        return [];
      }
      if HasExplicitKinds(l) {
        var accepted, _ := AcceptsKind(l, route.kind);
        if !accepted {
          continue;
        }
        reasons := reasons + [Mismatch(l.name, true, route.kind, l.protocol, carried)];
        continue;
      }
      reasons := reasons + [Mismatch(l.name, false, route.kind, l.protocol, carried)];
    }
    assert steps[..|listeners|] == steps;
  }

  method WhyNoListenerMatches(listeners: seq<Listener>, route: Route) returns (offered: seq<Offer>)
    ensures offered == Explain(MatchSteps(listeners, route))
  {
    hide AcceptsNamespace, Accepts, Reasons;
    ghost var steps := MatchSteps(listeners, route);
    ReasonsEmptyIff(steps[..0]);
    offered := [];
    for i := 0 to |listeners|
      invariant forall k :: 0 <= k < i ==> !steps[k].Settles?
      invariant offered == Reasons(steps[..i])
    {
      ReasonsStep(steps, i);
      var l := listeners[i];
      if !AcceptsNamespace(l, route.namespace) {
        continue;
      }
      var accepted, _ := AcceptsKind(l, route.kind);
      if !accepted {
        continue;
      }
      var intersects := HostnamesIntersect(l, route.hostnames);
      if intersects {
        assert steps[i].Settles?;
        return [];
      }
      // Only a listener with a hostname fails to intersect.
      offered := offered + [Offer(l.name, l.hostname.value)];
    }
    assert steps[..|listeners|] == steps;
  }

  // Per parentRef

  /** The listeners a parentRef selects in this manifest set. */
  function Selected(ctx: Context, p: Parent): seq<Listener> {
    var listeners := ListenersUnder(ctx, p.Owner());
    match p.section
    case None => listeners
    case Some(name) => match FirstNamed(listeners, name) case Some(l) => [l] case None => []
  }

  lemma SelectedIsListenersFor(ctx: Context, byOwner: ListenerIndex, p: Parent)
    requires Indexes(byOwner, ctx)
    ensures ListenersFor(byOwner, p) == Selected(ctx, p)
  {
    assert p.Owner() in byOwner <==> ListenersUnder(ctx, p.Owner()) != [];
  }

  ghost function DanglingRow(ctx: Context, p: Parent): seq<ObjectRef> {
    var known := KnownParents(ctx);
    if p.group == GATEWAY_API_GROUP && known != {} && p.Owner() !in known then [p.Owner()] else []
  }

  ghost function NotFoundRow(ctx: Context, p: Parent): seq<seq<string>> {
    var listeners := ListenersUnder(ctx, p.Owner());
    if p.section.Some? && p.group == GATEWAY_API_GROUP && listeners != []
       && FirstNamed(listeners, p.section.value).None? then
      [SortedNames(listeners)]
    else []
  }

  ghost function RefusedRow(ctx: Context, route: Route, p: Parent): seq<Refusal> {
    if p.group == GATEWAY_API_GROUP then Explain(AdmitSteps(Selected(ctx, p), route)) else []
  }

  ghost function MismatchRow(ctx: Context, route: Route, p: Parent): seq<Mismatch> {
    if p.group == GATEWAY_API_GROUP then Explain(CarrySteps(Selected(ctx, p), route)) else []
  }

  ghost function NeverMatchesRow(ctx: Context, route: Route, p: Parent): seq<Offer> {
    if p.group == GATEWAY_API_GROUP && route.hostnames != [] then Explain(MatchSteps(Selected(ctx, p), route)) else []
  }

  /** The findings of a check: one per parentRef with a non-empty row, in order. */
  function Findings<R>(route: Route, rows: seq<seq<R>>): seq<Finding<R>>
    requires |rows| <= |route.parentRefs|
  {
    if rows == [] then []
    else
      var n := |rows| - 1;
      Findings(route, rows[..n])
      + if rows[n] == [] then [] else [Finding(route.kind, route.name, ParentList(route)[n], rows[n])]
  }

  lemma FindingsStep<R>(route: Route, rows: seq<seq<R>>, i: nat)
    requires i < |rows| <= |route.parentRefs|
    ensures Findings(route, rows[..0]) == []
    ensures rows[i] == [] ==> Findings(route, rows[..i + 1]) == Findings(route, rows[..i])
    ensures rows[i] != [] ==>
              Findings(route, rows[..i + 1])
              == Findings(route, rows[..i]) + [Finding(route.kind, route.name, ParentList(route)[i], rows[i])]
  {
    assert rows[..i + 1][..i] == rows[..i];
  }

  // The rows of a route

  ghost function DanglingRows(ctx: Context, route: Route): (r: seq<seq<ObjectRef>>)
    ensures |r| == |route.parentRefs| && forall i :: 0 <= i < |r| ==> r[i] == DanglingRow(ctx, ParentList(route)[i])
  {
    seq(|route.parentRefs|, i requires 0 <= i < |route.parentRefs| => DanglingRow(ctx, ParentList(route)[i]))
  }

  ghost function NotFoundRows(ctx: Context, route: Route): (r: seq<seq<seq<string>>>)
    ensures |r| == |route.parentRefs| && forall i :: 0 <= i < |r| ==> r[i] == NotFoundRow(ctx, ParentList(route)[i])
  {
    seq(|route.parentRefs|, i requires 0 <= i < |route.parentRefs| => NotFoundRow(ctx, ParentList(route)[i]))
  }

  ghost function RefusedRows(ctx: Context, route: Route): (r: seq<seq<Refusal>>)
    ensures |r| == |route.parentRefs| && forall i :: 0 <= i < |r| ==>
              r[i] == RefusedRow(ctx, route, ParentList(route)[i])
  {
    seq(|route.parentRefs|, i requires 0 <= i < |route.parentRefs| => RefusedRow(ctx, route, ParentList(route)[i]))
  }

  ghost function MismatchRows(ctx: Context, route: Route): (r: seq<seq<Mismatch>>)
    ensures |r| == |route.parentRefs| && forall i :: 0 <= i < |r| ==>
              r[i] == MismatchRow(ctx, route, ParentList(route)[i])
  {
    seq(|route.parentRefs|, i requires 0 <= i < |route.parentRefs| => MismatchRow(ctx, route, ParentList(route)[i]))
  }

  ghost function NeverMatchesRows(ctx: Context, route: Route): (r: seq<seq<Offer>>)
    ensures |r| == |route.parentRefs| && forall i :: 0 <= i < |r| ==>
              r[i] == NeverMatchesRow(ctx, route, ParentList(route)[i])
  {
    seq(|route.parentRefs|, i requires 0 <= i < |route.parentRefs| => NeverMatchesRow(ctx, route, ParentList(route)[i]))
  }

  // The checks

  method DanglingParentRef(ctx: Context, obj: Object) returns (diagnostics: seq<Finding<ObjectRef>>)
    ensures RouteOf(obj).None? ==> diagnostics == []
    ensures RouteOf(obj).Some? ==>
              diagnostics == Findings(RouteOf(obj).value, DanglingRows(ctx, RouteOf(obj).value))
  {
    hide KnownParents, Findings, RouteOf;
    diagnostics := [];
    var r := AsRoute(obj);
    if r.None? {
      return;
    }
    var route := r.value;
    ghost var rows := DanglingRows(ctx, route);
    var known := GatewaysAndListenerSets(ctx);
    if |known| == 0 {
      NoFindings(route, rows);
      return;
    }
    var parents := ParentsOf(route);
    FindingsStart(route, rows);
    for i := 0 to |parents|
      invariant diagnostics == Findings(route, rows[..i])
    {
      FindingsStep(route, rows, i);
      var p := parents[i];
      if p.group != GATEWAY_API_GROUP {
        continue;
      }
      if p.Owner() in known {
        continue;
      }
      diagnostics := diagnostics + [Finding(route.kind, route.name, p, [p.Owner()])];
    }
    assert rows[..|parents|] == rows;
  }

  lemma FindingsStart<R>(route: Route, rows: seq<seq<R>>)
    requires |rows| <= |route.parentRefs|
    ensures Findings(route, rows[..0]) == []
  {
  }

  lemma {:induction false} NoFindings<R>(route: Route, rows: seq<seq<R>>)
    requires |rows| <= |route.parentRefs| && forall i :: 0 <= i < |rows| ==> rows[i] == []
    ensures Findings(route, rows) == []
  {
    if rows != [] {
      NoFindings(route, rows[..|rows| - 1]);
    }
  }

  method ListenerNotFound(ctx: Context, obj: Object) returns (diagnostics: seq<Finding<seq<string>>>)
    ensures RouteOf(obj).None? ==> diagnostics == []
    ensures RouteOf(obj).Some? ==>
              diagnostics == Findings(RouteOf(obj).value, NotFoundRows(ctx, RouteOf(obj).value))
  {
    hide Findings, RouteOf, SortedNames, FirstNamed, ListenersUnder;
    diagnostics := [];
    var r := AsRoute(obj);
    if r.None? {
      return;
    }
    var route := r.value;
    ghost var rows := NotFoundRows(ctx, route);
    var byOwner := ListenersByOwner(ctx);
    var parents := ParentsOf(route);
    FindingsStart(route, rows);
    for i := 0 to |parents|
      invariant diagnostics == Findings(route, rows[..i])
    {
      FindingsStep(route, rows, i);
      var p := parents[i];
      if p.section.None? || p.group != GATEWAY_API_GROUP {
        continue;
      }
      assert p.Owner() in byOwner <==> ListenersUnder(ctx, p.Owner()) != [];
      if p.Owner() !in byOwner {
        continue;
      }
      var listeners := byOwner[p.Owner()];
      if FirstNamed(listeners, p.section.value).Some? {
        continue;
      }
      var names := SortNames(listeners);
      diagnostics := diagnostics + [Finding(route.kind, route.name, p, [names])];
    }
    assert rows[..|parents|] == rows;
  }

  method RouteNotPermitted(ctx: Context, obj: Object) returns (diagnostics: seq<Finding<Refusal>>)
    ensures RouteOf(obj).None? ==> diagnostics == []
    ensures RouteOf(obj).Some? ==>
              diagnostics == Findings(RouteOf(obj).value, RefusedRows(ctx, RouteOf(obj).value))
  {
    hide Findings, RouteOf, ListenersUnder, Explain, AdmitSteps;
    diagnostics := [];
    var r := AsRoute(obj);
    if r.None? {
      return;
    }
    var route := r.value;
    ghost var rows := RefusedRows(ctx, route);
    var byOwner := ListenersByOwner(ctx);
    var parents := ParentsOf(route);
    FindingsStart(route, rows);
    NothingToExplain(route);
    for i := 0 to |parents|
      invariant diagnostics == Findings(route, rows[..i])
    {
      FindingsStep(route, rows, i);
      var p := parents[i];
      if p.group != GATEWAY_API_GROUP {
        continue;
      }
      assert p.Owner() in byOwner <==> ListenersUnder(ctx, p.Owner()) != [];
      SelectedIsListenersFor(ctx, byOwner, p);
      if p.Owner() !in byOwner {
        continue;
      }
      var candidates := ListenersFor(byOwner, p);
      if |candidates| == 0 {
        continue;
      }
      var reasons := WhyNoneAdmit(candidates, route);
      if reasons != [] {
        diagnostics := diagnostics + [Finding(route.kind, route.name, p, reasons)];
      }
    }
    assert rows[..|parents|] == rows;
  }

  lemma NothingToExplain(route: Route)
    ensures Explain(AdmitSteps([], route)) == []
  {
  }

  method ProtocolMismatch(ctx: Context, obj: Object) returns (diagnostics: seq<Finding<Mismatch>>)
    ensures RouteOf(obj).None? ==> diagnostics == []
    ensures RouteOf(obj).Some? ==>
              diagnostics == Findings(RouteOf(obj).value, MismatchRows(ctx, RouteOf(obj).value))
  {
    hide Findings, RouteOf, ListenersFor, Selected, Explain, CarrySteps;
    diagnostics := [];
    var r := AsRoute(obj);
    if r.None? {
      return;
    }
    var route := r.value;
    ghost var rows := MismatchRows(ctx, route);
    var byOwner := ListenersByOwner(ctx);
    var parents := ParentsOf(route);
    FindingsStart(route, rows);
    for i := 0 to |parents|
      invariant diagnostics == Findings(route, rows[..i])
    {
      FindingsStep(route, rows, i);
      var p := parents[i];
      if p.group != GATEWAY_API_GROUP {
        continue;
      }
      SelectedIsListenersFor(ctx, byOwner, p);
      var reasons := WhyNoListenerCarries(ListenersFor(byOwner, p), route);
      if reasons == [] {
        continue;
      }
      diagnostics := diagnostics + [Finding(route.kind, route.name, p, reasons)];
    }
    assert rows[..|parents|] == rows;
  }

  /** A finding, and the hostnames the route asks for, as its message lists them. */
  datatype AskedFor = AskedFor(finding: Finding<Offer>, hostnames: seq<string>)

  function Asking(findings: seq<Finding<Offer>>, hostnames: seq<string>): (r: seq<AskedFor>)
    ensures |r| == |findings| && forall i :: 0 <= i < |r| ==> r[i] == AskedFor(findings[i], hostnames)
  {
    seq(|findings|, i requires 0 <= i < |findings| => AskedFor(findings[i], hostnames))
  }

  method HostnameNeverMatches(ctx: Context, obj: Object) returns (diagnostics: seq<AskedFor>)
    ensures RouteOf(obj).None? ==> diagnostics == []
    ensures RouteOf(obj).Some? ==>
              var route := RouteOf(obj).value;
              diagnostics == Asking(Findings(route, NeverMatchesRows(ctx, route)), route.hostnames)
  {
    hide Findings, RouteOf, ListenersFor, Selected, Explain, MatchSteps;
    diagnostics := [];
    var r := AsRoute(obj);
    if r.None? {
      return;
    }
    var route := r.value;
    ghost var rows := NeverMatchesRows(ctx, route);
    if |route.hostnames| == 0 {
      NoFindings(route, rows);
      return;
    }
    var byOwner := ListenersByOwner(ctx);
    var parents := ParentsOf(route);
    FindingsStart(route, rows);
    for i := 0 to |parents|
      invariant diagnostics == Asking(Findings(route, rows[..i]), route.hostnames)
    {
      FindingsStep(route, rows, i);
      var p := parents[i];
      if p.group != GATEWAY_API_GROUP {
        continue;
      }
      SelectedIsListenersFor(ctx, byOwner, p);
      var offered := WhyNoListenerMatches(ListenersFor(byOwner, p), route);
      if offered == [] {
        continue;
      }
      diagnostics := diagnostics + [AskedFor(Finding(route.kind, route.name, p, offered), route.hostnames)];
    }
    assert rows[..|parents|] == rows;
  }
}
