/** Everything the engine and the checks list comes in the order of what it is listed from. */
module OrderTerms {
  import opened Manifests
  import opened Routes
  import opened PolicyCoverage
  import opened Certificates
  import M = MissingReferenceGrant
  import C = MissingCertificateGrant
  import P = ConflictingPolicies

  /** The routes of a set are those of its objects, in order; so are the rest below. */
  lemma {:induction false} RoutesInOrder(a: seq<Object>, b: seq<Object>)
    ensures RoutesOf(a + b) == RoutesOf(a) + RoutesOf(b)
  {
    if b == [] {
      assert a + b == a;
    } else {
      RoutesInOrder(a, b[..|b| - 1]);
      assert (a + b)[..|a + b| - 1] == a + b[..|b| - 1];
    }
  }

  lemma {:induction false} AttachedInOrder(q: ParentQuery, a: seq<Route>, b: seq<Route>)
    ensures Attached(a + b, q) == Attached(a, q) + Attached(b, q)
  {
    if b == [] {
      assert a + b == a;
    } else {
      AttachedInOrder(q, a, b[..|b| - 1]);
      assert (a + b)[..|a + b| - 1] == a + b[..|b| - 1];
    }
  }

  lemma {:induction false} SelectedInOrder(ns: string, sel: TargetSelector, library: LabelLibrary, a: seq<Route>,
                                           b: seq<Route>)
    ensures SelectedBy(a + b, ns, sel, library) == SelectedBy(a, ns, sel, library) + SelectedBy(b, ns, sel, library)
  {
    if b == [] {
      assert a + b == a;
    } else {
      SelectedInOrder(ns, sel, library, a, b[..|b| - 1]);
      assert (a + b)[..|a + b| - 1] == a + b[..|b| - 1];
    }
  }

  lemma {:induction false} SetsInOrder(ns: string, name: string, a: seq<Object>, b: seq<Object>)
    ensures SetsOf(a + b, ns, name) == SetsOf(a, ns, name) + SetsOf(b, ns, name)
  {
    if b == [] {
      assert a + b == a;
    } else {
      SetsInOrder(ns, name, a, b[..|b| - 1]);
      assert (a + b)[..|a + b| - 1] == a + b[..|b| - 1];
    }
  }

  lemma {:induction false} TargetsInOrder(ctx: Context, ns: string, a: seq<PolicyTarget>, b: seq<PolicyTarget>)
    ensures ByTargets(ctx, ns, a + b) == ByTargets(ctx, ns, a) + ByTargets(ctx, ns, b)
  {
    hide TargetedBy, CoverAll;
    if b == [] {
      assert a + b == a;
    } else {
      TargetsInOrder(ctx, ns, a, b[..|b| - 1]);
      assert (a + b)[..|a + b| - 1] == a + b[..|b| - 1];
    }
  }

  lemma {:induction false} SelectorsInOrder(ctx: Context, ns: string, library: LabelLibrary, a: seq<TargetSelector>,
                                            b: seq<TargetSelector>)
    ensures BySelectors(ctx, ns, a + b, library) == BySelectors(ctx, ns, a, library) + BySelectors(ctx, ns, b, library)
  {
    hide RoutesOf, SelectedBy, SelectAll;
    if b == [] {
      assert a + b == a;
    } else {
      SelectorsInOrder(ctx, ns, library, a, b[..|b| - 1]);
      assert (a + b)[..|a + b| - 1] == a + b[..|b| - 1];
    }
  }

  lemma {:induction false} DenialsInOrder(ctx: Context, route: Route, a: seq<BackendRef>, b: seq<BackendRef>)
    ensures M.DenialsAmong(ctx, route, a + b) == M.DenialsAmong(ctx, route, a) + M.DenialsAmong(ctx, route, b)
  {
    hide M.IsDenied, M.DenialOf;
    if b == [] {
      assert a + b == a;
    } else {
      DenialsInOrder(ctx, route, a, b[..|b| - 1]);
      assert (a + b)[..|a + b| - 1] == a + b[..|b| - 1];
    }
  }

  lemma {:induction false} CertificateRefsInOrder(owner: ObjectRef, a: seq<ListenerSpec>, b: seq<ListenerSpec>)
    ensures RefsOfListeners(owner, a + b) == RefsOfListeners(owner, a) + RefsOfListeners(owner, b)
  {
    hide RefsOfListener;
    if b == [] {
      assert a + b == a;
    } else {
      CertificateRefsInOrder(owner, a, b[..|b| - 1]);
      assert (a + b)[..|a + b| - 1] == a + b[..|b| - 1];
    }
  }

  lemma {:induction false} CertificateDenialsInOrder(ctx: Context, a: seq<CertificateRef>, b: seq<CertificateRef>)
    ensures C.DenialsAmong(ctx, a + b) == C.DenialsAmong(ctx, a) + C.DenialsAmong(ctx, b)
  {
    hide C.IsDenied;
    if b == [] {
      assert a + b == a;
    } else {
      CertificateDenialsInOrder(ctx, a, b[..|b| - 1]);
      assert (a + b)[..|a + b| - 1] == a + b[..|b| - 1];
    }
  }

  lemma {:induction false} SlotReportsInOrder(ctx: Context, self: nat, a: seq<P.Target>, b: seq<P.Target>)
    requires self < |ctx|
    ensures P.ReportsAmong(ctx, self, a + b) == P.ReportsAmong(ctx, self, a) + P.ReportsAmong(ctx, self, b)
  {
    hide P.Speaks, P.Rivals;
    if b == [] {
      assert a + b == a;
    } else {
      SlotReportsInOrder(ctx, self, a, b[..|b| - 1]);
      assert (a + b)[..|a + b| - 1] == a + b[..|b| - 1];
    }
  }

  /** A target that names a route has the first of that identity. */
  lemma {:induction false} FirstRouteIs(routes: seq<Route>, key: RouteKey)
    ensures FirstRoute(routes, key).Some? ==>
              exists i :: && 0 <= i < |routes| && routes[i] == FirstRoute(routes, key).value
                          && forall j :: 0 <= j < i ==> KeyOf(routes[j]) != key
  {
    hide KeyOf;
    if routes != [] && KeyOf(routes[0]) != key && FirstRoute(routes, key).Some? {
      FirstRouteIs(routes[1..], key);
      var i :| && 0 <= i < |routes[1..]| && routes[1..][i] == FirstRoute(routes[1..], key).value
               && forall j :: 0 <= j < i ==> KeyOf(routes[1..][j]) != key;
      assert forall j :: 0 < j <= i ==> routes[j] == routes[1..][j - 1];
      assert routes[i + 1] == FirstRoute(routes, key).value;
    }
  }

  predicate IsFirstCarrier(routes: seq<Route>, i: int) {
    0 <= i < |routes| && forall j :: 0 <= j < i ==> KeyOf(routes[j]) != KeyOf(routes[i])
  }

  lemma FirstCarrierOfInit(routes: seq<Route>, i: int, n: nat)
    requires n + 1 == |routes|
    ensures IsFirstCarrier(routes, i) <==>
              IsFirstCarrier(routes[..n], i) || (i == n && KeyOf(routes[n]) !in KeysOf(routes[..n]))
  {
    hide KeyOf;
    var init := routes[..n];
    assert forall j :: 0 <= j < n ==> init[j] == routes[j] && KeyOf(init[j]) in KeysOf(init);
  }

  /** Of the routes of one identity de-duplication keeps the first. */
  lemma {:induction false} FreshAreFirst(routes: seq<Route>, seen: set<RouteKey>)
    ensures forall r :: r in Fresh(routes, seen) <==>
                          KeyOf(r) !in seen && exists i :: IsFirstCarrier(routes, i) && routes[i] == r
  {
    if routes != [] {
      var n := |routes| - 1;
      FreshAreFirst(routes[..n], seen);
      forall i
        ensures IsFirstCarrier(routes, i) <==>
                  IsFirstCarrier(routes[..n], i) || (i == n && KeyOf(routes[n]) !in KeysOf(routes[..n]))
        ensures IsFirstCarrier(routes[..n], i) ==> 0 <= i < n
      {
        FirstCarrierOfInit(routes, i, n);
      }
      hide IsFirstCarrier, KeyOf, KeysOf;
    }
  }
}
