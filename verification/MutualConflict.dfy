/** When a conflict between two HTTPRoutes does not depend on which of them is linted
    (pkg/templates/conflictingroutematch/template.go). */
module MutualConflict {
  import opened Manifests
  import opened Routes
  import opened Parents
  import opened Attach
  import opened RouteMatch
  import opened ConflictingRouteMatch
  import opened ConflictingRouteRun

  /** Whatever two HTTPRoutes are put beside the set, a conflict between them is seen from both. */
  ghost predicate ConflictsAreMutual(ctx: Context) {
    forall x, y :: SeesConflict(ctx, x, y) <==> SeesConflict(ctx, y, x)
  }

  ghost predicate SeesConflict(ctx: Context, x: Object, y: Object) {
    CandidateOf(x).Some? && CandidateOf(y).Some? && InConflict(ctx, CandidateOf(x).value, CandidateOf(y).value)
  }

  // A hostname that tells two listeners apart

  predicate Serves(host: string, h: string) {
    host == "" || HostnamesOverlap(host, h)
  }

  lemma ServableIsServes(l: Listener, h: string)
    requires h != ""
    ensures Servable(l, h) <==> Serves(HostOfListener(l), h)
  {
    assert h in [h];
  }

  /** A hostname the listener's own pattern does not meet. */
  lemma Unserved(host: string) returns (h: string)
    requires host != ""
    ensures h != "" && !HostnamesOverlap(host, h)
  {
    h := if IsWildcard(host) then "x" else if host == "x" then "y" else "x";
  }

  lemma EqualTails(a: string, b: string)
    requires a != "" && b != "" && a[0] == b[0]
    ensures a[1..] == b[1..] ==> a == b
  {
    assert a == [a[0]] + a[1..] && b == [b[0]] + b[1..];
  }

  /** Of two patterns that meet, one has a hostname the other does not cover. */
  lemma OnlyOneCovers(a: string, b: string) returns (h: string)
    requires a != b && HostnamesOverlap(a, b) && IsWildcard(a) && (IsWildcard(b) ==> |a| <= |b|)
    ensures h != "" && HostnamesOverlap(a, h) && !HostnamesOverlap(b, h)
  {
    h := "x" + a[1..];
    assert h[1..] == a[1..];
    if IsWildcard(b) {
      EqualTails(a, b);
    } else if h == b {
      h := "y" + a[1..];
      assert h[1..] == a[1..] && h[0] != b[0];
    }
  }

  lemma TellingHost(a: string, b: string) returns (h: string)
    requires a != b
    ensures h != "" && Serves(a, h) != Serves(b, h)
  {
    hide HostnamesOverlap;
    if a == "" {
      h := Unserved(b);
    } else if b == "" {
      h := Unserved(a);
    } else if !HostnamesOverlap(b, a) {
      h := a;
      HostOverlapsItself(a);
    } else {
      OverlapIsMutual(a, b);
      OneIsWildcard(a, b);
      if IsWildcard(a) && (IsWildcard(b) ==> |a| <= |b|) {
        h := OnlyOneCovers(a, b);
      } else {
        h := OnlyOneCovers(b, a);
      }
    }
  }

  lemma OverlapIsMutual(a: string, b: string)
    ensures HostnamesOverlap(a, b) <==> HostnamesOverlap(b, a)
  {
  }

  lemma OneIsWildcard(a: string, b: string)
    requires a != b && HostnamesOverlap(a, b)
    ensures IsWildcard(a) || IsWildcard(b)
  {
  }

  // Two routes that ask for it

  /** An HTTPRoute of a namespace, attached to one listener name under one owner, for one hostname. */
  function Asking(ns: string, owner: ObjectRef, name: string, h: string): Object {
    HTTPRouteV1(
      Meta(ns, "", map[], None),
          [ParentReference(None, Some(owner.kind), Some(owner.namespace), owner.name, Some(name))], [h],
      [HTTPRule(None, [], [], [])])
  }

  lemma AskingCandidate(ns: string, owner: ObjectRef, name: string, h: string)
    ensures var c := CandidateOf(Asking(ns, owner, name, h));
            && c.Some? && c.value.matches == [Canonical(EVERY_REQUEST)]
            && c.value.route.namespace == ns && c.value.route.hostnames == [h]
            && ParentList(c.value.route)
                == [Parent(GATEWAY_API_GROUP, owner.kind, owner.namespace, owner.name, Some(name))]
  {
    hide Canonical, HTTPBackends;
    var rules := [HTTPRule(None, [], [], [])];
    assert rules[..0] == [];
    assert MatchList(rules) == MatchList(rules[..0]) + RuleMatches(rules[0]);
  }

  lemma AskingAttaches(ctx: Context, ns: string, owner: ObjectRef, name: string, h: string, at: Attachment)
    ensures AttachedAt(CandidateOf(Asking(ns, owner, name, h)).value.route, ctx, at)
         == if at == Attachment(owner, name) then LastAdmitting(ListenersUnder(ctx, owner), name, ns) else None
  {
    AskingCandidate(ns, owner, name, h);
    var route := CandidateOf(Asking(ns, owner, name, h)).value.route;
    hide CandidateOf, LastAdmitting, ListenersUnder;
    var p := ParentList(route)[0];
    assert p in ParentList(route);
    assert Reaches(p, at) <==> at == Attachment(owner, name);
  }

  /** Two such routes conflict, seen from the first, exactly when its listener can serve the hostname. */
  lemma AskingConflict(ctx: Context, owner: ObjectRef, name: string, h: string, ns: string, ns': string)
    requires LastAdmitting(ListenersUnder(ctx, owner), name, ns).Some?
    requires LastAdmitting(ListenersUnder(ctx, owner), name, ns').Some?
    ensures SeesConflict(ctx, Asking(ns, owner, name, h), Asking(ns', owner, name, h)) <==>
              Servable(LastAdmitting(ListenersUnder(ctx, owner), name, ns).value, h)
  {
    hide Canonical, LastAdmitting, ListenersUnder, Servable, CandidateOf, AttachedAt;
    AskingCandidate(ns, owner, name, h);
    AskingCandidate(ns', owner, name, h);
    var a, b := CandidateOf(Asking(ns, owner, name, h)).value, CandidateOf(Asking(ns', owner, name, h)).value;
    var every := Canonical(EVERY_REQUEST);
    assert every in a.matches && every in b.matches && SharedKey(every.key, a.matches, b.matches);
    forall at
      ensures AttachedAt(a.route, ctx, at).Some? ==> at == Attachment(owner, name)
    {
      AskingAttaches(ctx, ns, owner, name, h, at);
    }
    AskingAttaches(ctx, ns, owner, name, h, Attachment(owner, name));
    AskingAttaches(ctx, ns', owner, name, h, Attachment(owner, name));
    assert BothClaim(ctx, a, b, Attachment(owner, name), h) <==>
           Servable(LastAdmitting(ListenersUnder(ctx, owner), name, ns).value, h);
  }

  /** Conflicts are mutual if and only if, wherever routes of two namespaces attach to listeners of one name, those
      listeners have the same hostname. */
  lemma MutualIffHostsAgree(ctx: Context)
    ensures ConflictsAreMutual(ctx) <==> HostsAgree(ctx)
  {
    hide InConflict, CandidateOf, SeesConflict, LastAdmitting, ListenersUnder, HostOfListener, Servable, Serves;
    if HostsAgree(ctx) {
      forall x, y
        ensures SeesConflict(ctx, x, y) <==> SeesConflict(ctx, y, x)
      {
        SeenFromBoth(ctx, x, y);
      }
    }
    if !HostsAgree(ctx) {
      var owner, name, ns, ns' :| !SameHostAdmitted(ListenersUnder(ctx, owner), name, ns, ns');
      var listeners := ListenersUnder(ctx, owner);
      var l, l' := LastAdmitting(listeners, name, ns).value, LastAdmitting(listeners, name, ns').value;
      var h := TellingHost(HostOfListener(l), HostOfListener(l'));
      ServableIsServes(l, h);
      ServableIsServes(l', h);
      AskingConflict(ctx, owner, name, h, ns, ns');
      AskingConflict(ctx, owner, name, h, ns', ns);
    }
  }

  lemma SeenFromBoth(ctx: Context, x: Object, y: Object)
    requires HostsAgree(ctx)
    ensures SeesConflict(ctx, x, y) <==> SeesConflict(ctx, y, x)
  {
    hide InConflict, CandidateOf, HostsAgree;
    if CandidateOf(x).Some? && CandidateOf(y).Some? {
      ConflictIsMutual(ctx, CandidateOf(x).value, CandidateOf(y).value);
    }
  }
}
