/** The missing-reference-grant check: backendRefs into another namespace that no ReferenceGrant there permits
    (pkg/templates/missingreferencegrant). */
module MissingReferenceGrant {
  import opened Manifests
  import opened Routes

  /** A cross-namespace backendRef reduced to what a ReferenceGrant is matched on. */
  datatype Reference = Reference(fromKind: string, fromNamespace: string, toGroup: string, toKind: string,
      toName: string)

  /** One diagnostic: the reference, and the namespace it reaches into. */
  datatype Denial = Denied(ref: Reference, target: string)

  function GrantOf(obj: Object): Option<GrantSpec> {
    if obj.ReferenceGrantV1? || obj.ReferenceGrantV1Beta1? || obj.ReferenceGrantV1Alpha2? then Some(obj.grant) else None
  }

  /** The grants living in a namespace, in the order they were loaded. */
  function GrantsIn(ctx: Context, ns: string): seq<GrantSpec> {
    if ctx == [] then []
    else GrantsIn(ctx[..|ctx| - 1], ns) + GrantHere(ctx[|ctx| - 1], ns)
  }

  function GrantHere(obj: Object, ns: string): seq<GrantSpec> {
    if GrantOf(obj).Some? && obj.meta.namespace == ns then [GrantOf(obj).value] else []
  }

  function Lookup(byNamespace: map<string, seq<GrantSpec>>, ns: string): seq<GrantSpec> {
    if ns in byNamespace then byNamespace[ns] else []
  }

  lemma GrantsStep(ctx: Context, i: nat, ns: string)
    requires i < |ctx|
    ensures GrantHere(ctx[i], ns) == [] ==> GrantsIn(ctx[..i + 1], ns) == GrantsIn(ctx[..i], ns)
    ensures GrantHere(ctx[i], ns) != [] ==>
              GrantsIn(ctx[..i + 1], ns) == GrantsIn(ctx[..i], ns) + [GrantOf(ctx[i]).value]
  {
    assert ctx[..i + 1][..i] == ctx[..i];
  }

  /** The index has, under every namespace, the grants that live there; a namespace without grants has no entry. */
  method GrantsByNamespace(ctx: Context) returns (byNamespace: map<string, seq<GrantSpec>>)
    ensures forall ns :: Lookup(byNamespace, ns) == GrantsIn(ctx, ns)
    ensures forall ns :: ns in byNamespace ==> byNamespace[ns] != []
  {
    hide GrantsIn;
    byNamespace := map[];
    NoGrantsYet(ctx);
    for i := 0 to |ctx|
      invariant forall ns :: Lookup(byNamespace, ns) == GrantsIn(ctx[..i], ns)
      invariant forall ns :: ns in byNamespace ==> byNamespace[ns] != []
    {
      forall ns {
        GrantsStep(ctx, i, ns);
      }
      if GrantOf(ctx[i]).None? {
        continue;
      }
      var ns := ctx[i].meta.namespace;
      byNamespace := byNamespace[ns := Lookup(byNamespace, ns) + [GrantOf(ctx[i]).value]];
    }
    assert ctx[..|ctx|] == ctx;
  }

  lemma NoGrantsYet(ctx: Context)
    ensures forall ns :: GrantsIn(ctx[..0], ns) == []
  {
  }

  /** An entry of the grant lets routes of this kind and namespace refer. */
  predicate FromMatches(f: GrantFrom, ref: Reference) {
    f.group == GATEWAY_API_GROUP && f.kind == ref.fromKind && f.namespace == ref.fromNamespace
  }

  /** An entry of the grant covers the object; without a name it covers every object of its group and kind. */
  predicate ToMatches(t: GrantTo, ref: Reference) {
    t.group == ref.toGroup && t.kind == ref.toKind && (t.name.None? || t.name.value == ref.toName)
  }

  predicate Authorises(spec: GrantSpec, ref: Reference) {
    (exists f :: f in spec.from && FromMatches(f, ref)) && exists t :: t in spec.to && ToMatches(t, ref)
  }

  predicate Authorised(grants: seq<GrantSpec>, ref: Reference) {
    exists spec :: spec in grants && Authorises(spec, ref)
  }

  method MatchesFrom(from: seq<GrantFrom>, ref: Reference) returns (matched: bool)
    ensures matched <==> exists f :: f in from && FromMatches(f, ref)
  {
    for i := 0 to |from|
      invariant forall k :: 0 <= k < i ==> !FromMatches(from[k], ref)
    {
      if from[i].group == GATEWAY_API_GROUP && from[i].kind == ref.fromKind && from[i].namespace == ref.fromNamespace {
        assert from[i] in from && FromMatches(from[i], ref);
        return true;
      }
    }
    return false;
  }

  method MatchesTo(to: seq<GrantTo>, ref: Reference) returns (matched: bool)
    ensures matched <==> exists t :: t in to && ToMatches(t, ref)
  {
    for i := 0 to |to|
      invariant forall k :: 0 <= k < i ==> !ToMatches(to[k], ref)
    {
      var t := to[i];
      if t.group != ref.toGroup || t.kind != ref.toKind {
        continue;
      }
      if t.name.None? || t.name.value == ref.toName {
        assert t in to && ToMatches(t, ref);
        return true;
      }
    }
    return false;
  }

  method Permits(grants: seq<GrantSpec>, ref: Reference) returns (permitted: bool)
    ensures permitted <==> Authorised(grants, ref)
  {
    hide FromMatches, ToMatches;
    for i := 0 to |grants|
      invariant forall k :: 0 <= k < i ==> !Authorises(grants[k], ref)
    {
      var from := MatchesFrom(grants[i].from, ref);
      var to := MatchesTo(grants[i].to, ref);
      assert from && to <==> Authorises(grants[i], ref);
      hide Authorises;
      if from && to {
        assert grants[i] in grants;
        return true;
      }
    }
    return false;
  }

  function ReferenceOf(route: Route, b: BackendRef): Reference {
    Reference(route.kind, route.namespace, b.Group(), b.Kind(), b.ref.name)
  }

  /** The backendRef leaves the route's namespace, for one that has grants of which none lets it in. */
  predicate IsDenied(ctx: Context, route: Route, b: BackendRef) {
    var grants := GrantsIn(ctx, b.Namespace(route.namespace));
    && route.namespace != "" && b.Namespace(route.namespace) != route.namespace
    && grants != [] && !Authorised(grants, ReferenceOf(route, b))
  }

  function DenialOf(route: Route, b: BackendRef): Denial {
    Denied(ReferenceOf(route, b), b.Namespace(route.namespace))
  }

  function DenialsAmong(ctx: Context, route: Route, refs: seq<BackendRef>): seq<Denial> {
    if refs == [] then []
    else
      var b := refs[|refs| - 1];
      DenialsAmong(ctx, route, refs[..|refs| - 1]) + if IsDenied(ctx, route, b) then [DenialOf(route, b)] else []
  }

  /** The diagnostics for an object: one per denied backendRef of a route, in the order they are written. */
  function Denials(ctx: Context, obj: Object): seq<Denial> {
    if RouteOf(obj).None? then [] else DenialsAmong(ctx, RouteOf(obj).value, RouteOf(obj).value.backendRefs)
  }

  lemma DenialsStep(ctx: Context, route: Route, refs: seq<BackendRef>, i: nat)
    requires i < |refs|
    ensures var earlier := DenialsAmong(ctx, route, refs[..i]);
            && (IsDenied(ctx, route, refs[i]) ==>
                DenialsAmong(ctx, route, refs[..i + 1]) == earlier + [DenialOf(route, refs[i])])
            && (!IsDenied(ctx, route, refs[i]) ==> DenialsAmong(ctx, route, refs[..i + 1]) == earlier)
  {
    assert refs[..i + 1][..i] == refs[..i];
  }

  lemma {:induction false} NamelessNamespace(ctx: Context, route: Route, refs: seq<BackendRef>)
    ensures route.namespace == "" ==> DenialsAmong(ctx, route, refs) == []
  {
    hide GrantsIn;
    if refs != [] {
      NamelessNamespace(ctx, route, refs[..|refs| - 1]);
    }
  }

  method CheckFunc(ctx: Context, obj: Object) returns (diagnostics: seq<Denial>)
    ensures diagnostics == Denials(ctx, obj)
  {
    hide GrantsIn, RouteOf, DenialsAmong, Authorised;
    var asRoute := AsRoute(obj);
    if asRoute.None? {
      return [];
    }
    var route := asRoute.value;
    NamelessNamespace(ctx, route, route.backendRefs);
    if route.namespace == "" {
      return [];
    }
    var grants := GrantsByNamespace(ctx);
    diagnostics := [];
    NoneDeniedYet(ctx, route);
    for i := 0 to |route.backendRefs|
      invariant diagnostics == DenialsAmong(ctx, route, route.backendRefs[..i])
    {
      var b := route.backendRefs[i];
      DenialsStep(ctx, route, route.backendRefs, i);
      var target := b.Namespace(route.namespace);
      if target == route.namespace {
        continue;
      }
      if |Lookup(grants, target)| == 0 {
        continue;
      }
      var ref := Reference(route.kind, route.namespace, b.Group(), b.Kind(), b.ref.name);
      var permitted := Permits(Lookup(grants, target), ref);
      if permitted {
        continue;
      }
      diagnostics := diagnostics + [Denied(ref, target)];
    }
    assert route.backendRefs[..|route.backendRefs|] == route.backendRefs;
  }

  lemma NoneDeniedYet(ctx: Context, route: Route)
    ensures DenialsAmong(ctx, route, route.backendRefs[..0]) == []
  {
  }

  // Adding a grant

  lemma {:induction false} GrantsInAre(ctx: Context, ns: string)
    ensures forall spec :: spec in GrantsIn(ctx, ns) <==>
                             exists obj :: obj in ctx && obj.meta.namespace == ns && GrantOf(obj) == Some(spec)
  {
    hide GrantOf;
    if ctx != [] {
      var n := |ctx| - 1;
      GrantsInAre(ctx[..n], ns);
      assert forall obj :: obj in ctx <==> obj in ctx[..n] || obj == ctx[n];
    }
  }

  /** `more` has the objects of `ctx` and a ReferenceGrant besides, wherever in the set it was loaded. */
  ghost predicate AddsGrant(ctx: Context, more: Context, ns: string, spec: GrantSpec) {
    exists k :: GrantAddedAt(ctx, more, k, ns, spec)
  }

  predicate GrantAddedAt(ctx: Context, more: Context, k: int, ns: string, spec: GrantSpec) {
    && 0 <= k <= |ctx| && |more| == |ctx| + 1 && more[..k] == ctx[..k] && more[k + 1..] == ctx[k..]
    && more[k].meta.namespace == ns && GrantOf(more[k]) == Some(spec)
  }

  lemma AddedElements(ctx: Context, more: Context, k: int, ns: string, spec: GrantSpec)
    requires GrantAddedAt(ctx, more, k, ns, spec)
    ensures forall obj :: obj in more <==> obj in ctx || obj == more[k]
  {
    assert more == more[..k] + [more[k]] + more[k + 1..];
    assert ctx == ctx[..k] + ctx[k..];
  }

  lemma AddedGrants(ctx: Context, more: Context, ns: string, spec: GrantSpec, at: string)
    requires AddsGrant(ctx, more, ns, spec)
    ensures forall s :: s in GrantsIn(more, at) <==> s in GrantsIn(ctx, at) || (at == ns && s == spec)
  {
    var k :| GrantAddedAt(ctx, more, k, ns, spec);
    AddedElements(ctx, more, k, ns, spec);
    GrantsInAre(ctx, at);
    GrantsInAre(more, at);
    hide GrantsIn, GrantAddedAt;
    assert more[k].meta.namespace == ns && GrantOf(more[k]) == Some(spec) && more[k] in more by {
      AddedObject(ctx, more, k, ns, spec);
    }
    hide GrantOf;
  }

  lemma AddedObject(ctx: Context, more: Context, k: int, ns: string, spec: GrantSpec)
    requires GrantAddedAt(ctx, more, k, ns, spec)
    ensures 0 <= k < |more| && more[k].meta.namespace == ns && GrantOf(more[k]) == Some(spec)
  {
  }

  /** What a new grant does to one backendRef. Into a namespace that has a grant already, it can only lift a denial,
      and does so exactly when it authorises the reference. Into one that had none, it is the other way around: what
      was let pass for want of information is now denied unless the new grant authorises it. */
  lemma GrantAddedToOne(ctx: Context, more: Context, ns: string, spec: GrantSpec, route: Route, b: BackendRef)
    requires AddsGrant(ctx, more, ns, spec)
    ensures b.Namespace(route.namespace) != ns ==> (IsDenied(more, route, b) <==> IsDenied(ctx, route, b))
    ensures b.Namespace(route.namespace) == ns && GrantsIn(ctx, ns) != [] ==>
              (IsDenied(more, route, b) <==> IsDenied(ctx, route, b) && !Authorises(spec, ReferenceOf(route, b)))
    ensures b.Namespace(route.namespace) == ns && GrantsIn(ctx, ns) == [] ==>
              !IsDenied(ctx, route, b)
              && (IsDenied(more, route, b) <==>
                    route.namespace != "" && ns != route.namespace && !Authorises(spec, ReferenceOf(route, b)))
  {
    var target := b.Namespace(route.namespace);
    AddedGrants(ctx, more, ns, spec, target);
    hide GrantsIn, Authorises, AddsGrant;
    var before, after := GrantsIn(ctx, target), GrantsIn(more, target);
    assert before != [] ==> before[0] in before;
    assert after != [] ==> after[0] in after;
    assert target == ns ==> spec in after;
  }

  predicate Lifts(ns: string, spec: GrantSpec, d: Denial) {
    d.target == ns && Authorises(spec, d.ref)
  }

  function Unlifted(denials: seq<Denial>, ns: string, spec: GrantSpec): seq<Denial> {
    if denials == [] then []
    else
      var d := denials[|denials| - 1];
      Unlifted(denials[..|denials| - 1], ns, spec) + if Lifts(ns, spec, d) then [] else [d]
  }

  lemma {:induction false} GrantAddedToAll(ctx: Context, more: Context, ns: string, spec: GrantSpec, route: Route,
                                           refs: seq<BackendRef>)
    requires AddsGrant(ctx, more, ns, spec) && GrantsIn(ctx, ns) != []
    ensures DenialsAmong(more, route, refs) == Unlifted(DenialsAmong(ctx, route, refs), ns, spec)
  {
    hide GrantsIn, AddsGrant, IsDenied, Authorises;
    if refs == [] {
      NothingToLift(ns, spec);
    } else {
      var n := |refs| - 1;
      GrantAddedToAll(ctx, more, ns, spec, route, refs[..n]);
      GrantAddedToOne(ctx, more, ns, spec, route, refs[n]);
      UnliftedStep(DenialsAmong(ctx, route, refs[..n]), DenialOf(route, refs[n]), ns, spec);
      DenialsStep(ctx, route, refs, n);
      DenialsStep(more, route, refs, n);
      assert refs[..n + 1] == refs;
      hide DenialsAmong, Unlifted;
    }
  }

  lemma UnliftedStep(denials: seq<Denial>, d: Denial, ns: string, spec: GrantSpec)
    ensures Lifts(ns, spec, d) ==> Unlifted(denials + [d], ns, spec) == Unlifted(denials, ns, spec)
    ensures !Lifts(ns, spec, d) ==> Unlifted(denials + [d], ns, spec) == Unlifted(denials, ns, spec) + [d]
  {
    hide Lifts;
    assert (denials + [d])[..|denials|] == denials;
  }

  lemma {:induction false} UnliftedIsFewer(denials: seq<Denial>, ns: string, spec: GrantSpec)
    ensures |Unlifted(denials, ns, spec)| <= |denials|
    ensures forall d :: d in Unlifted(denials, ns, spec) <==> d in denials && !Lifts(ns, spec, d)
  {
    hide Lifts;
    if denials != [] {
      var n := |denials| - 1;
      UnliftedIsFewer(denials[..n], ns, spec);
      UnliftedStep(denials[..n], denials[n], ns, spec);
      assert denials == denials[..n] + [denials[n]];
      hide Unlifted;
    }
  }

  /** Adding a grant to a namespace that already has one never adds a report: what remains is what was reported
      before, in the same order, less what the new grant authorises. */
  lemma GrantNeverAddsReport(ctx: Context, more: Context, ns: string, spec: GrantSpec, obj: Object)
    requires AddsGrant(ctx, more, ns, spec) && GrantsIn(ctx, ns) != []
    ensures Denials(more, obj) == Unlifted(Denials(ctx, obj), ns, spec)
    ensures |Denials(more, obj)| <= |Denials(ctx, obj)|
    ensures forall d :: d in Denials(more, obj) <==> d in Denials(ctx, obj) && !Lifts(ns, spec, d)
  {
    hide RouteOf, DenialsAmong, GrantsIn, AddsGrant, Lifts, Unlifted;
    UnliftedIsFewer(Denials(ctx, obj), ns, spec);
    if RouteOf(obj).Some? {
      GrantAddedToAll(ctx, more, ns, spec, RouteOf(obj).value, RouteOf(obj).value.backendRefs);
    } else {
      NothingToLift(ns, spec);
    }
  }

  lemma NothingToLift(ns: string, spec: GrantSpec)
    ensures Unlifted([], ns, spec) == []
  {
  }
}
