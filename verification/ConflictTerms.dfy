/** Which pairs conflicting-route-match reports, in terms of the two objects' fields
    (pkg/templates/conflictingroutematch/template.go). */
module ConflictTerms {
  import opened Manifests
  import opened Routes
  import opened Parents
  import opened Attach
  import opened RouteMatch
  import opened ConflictingRouteMatch
  import opened ConflictingRouteRun
  import opened AmbiguousRoutes
  import opened ReferenceTerms
  import opened ListenerTerms
  import opened MatchTerms
  import Counting
  import Strings

  // One route

  /** A rule declares its matches, and the empty match if it has none. */
  predicate Declares(obj: Object, m: HTTPRouteMatch)
    requires IsHTTPRoute(obj)
  {
    exists rule :: rule in obj.httpRules
                   && (m in rule.matches || (rule.matches == [] && m == HTTPRouteMatch(None, [], [], None)))
  }

  lemma {:induction false} DeclaredAre(rules: seq<HTTPRule>, m: HTTPRouteMatch)
    ensures m in Declared(rules) <==>
              exists rule :: rule in rules
                             && (m in rule.matches || (rule.matches == [] && m == HTTPRouteMatch(None, [], [], None)))
    ensures Declared(rules) == [] <==> rules == []
  {
    if rules != [] {
      var n := |rules| - 1;
      DeclaredAre(rules[..n], m);
      assert forall rule :: rule in rules <==> rule in rules[..n] || rule == rules[n];
    }
  }

  /** An HTTPRoute with a rule is a candidate, and nothing else is; its fields are the object's. */
  lemma CandidateIs(obj: Object)
    ensures CandidateOf(obj).Some? <==> IsHTTPRoute(obj) && obj.httpRules != []
    ensures CandidateOf(obj).Some? ==>
              var c := CandidateOf(obj).value;
              && c.id == ObjectRef("HTTPRoute", obj.meta.namespace, obj.meta.name)
              && c.route.namespace == obj.meta.namespace && c.route.parentRefs == obj.parentRefs
              && c.route.hostnames == obj.hostnames && c.matches == MatchList(obj.httpRules)
              && (c.hasCreated <==> obj.meta.created.Some?) && (c.hasCreated ==> Some(c.createdAt) == obj.meta.created)
  {
    RouteFields(obj);
    if IsHTTPRoute(obj) {
      ListedAreDeclared(obj.httpRules);
      DeclaredAre(obj.httpRules, EVERY_REQUEST);
    }
    hide MatchList, Declared, HTTPBackends, GRPCBackends, StreamBackends;
  }

  // Attaching

  predicate LetsHTTPIn(l: Listener, namespace: string) {
    TakesNamespace(l, namespace) && TakesKind(l, "HTTPRoute")
  }

  /** Of the listeners of that name that let the route in, the last one. */
  predicate IsLastLettingIn(listeners: seq<Listener>, i: int, name: string, namespace: string) {
    && 0 <= i < |listeners| && listeners[i].name == name && LetsHTTPIn(listeners[i], namespace)
    && forall j :: i < j < |listeners| ==> !(listeners[j].name == name && LetsHTTPIn(listeners[j], namespace))
  }

  /** One of the route's parentRefs takes the listener in, and `l` is the one it attaches through. */
  ghost predicate AttachesThrough(ctx: Context, obj: Object, at: Attachment, l: Listener)
    requires IsHTTPRoute(obj)
  {
    && (exists ref :: && ref in obj.parentRefs && TakesIn(ref, at.listener)
                      && IsTo(ref, obj.meta.namespace, at.owner.kind, at.owner.namespace, at.owner.name))
    && exists i :: IsLastLettingIn(ListenersUnder(ctx, at.owner), i, at.listener, obj.meta.namespace)
                   && ListenersUnder(ctx, at.owner)[i] == l
  }

  lemma AdmitsIff(l: Listener, namespace: string)
    ensures Admits(l, namespace) <==> LetsHTTPIn(l, namespace)
  {
    AcceptsIff(l, "HTTPRoute");
    AcceptsNamespaceIff(l, namespace);
    hide Accepts, AcceptsNamespace, TakesKind, TakesNamespace;
  }

  lemma IsLastOfInit(listeners: seq<Listener>, i: int, name: string, namespace: string)
    requires listeners != []
    ensures var n := |listeners| - 1;
            var taken := listeners[n].name == name && LetsHTTPIn(listeners[n], namespace);
            IsLastLettingIn(listeners, i, name, namespace) <==>
              if taken then i == n else IsLastLettingIn(listeners[..n], i, name, namespace)
  {
    hide LetsHTTPIn;
    var n := |listeners| - 1;
    assert forall j :: 0 <= j < n ==> listeners[..n][j] == listeners[j];
  }

  lemma {:induction false} LastAdmittingIs(listeners: seq<Listener>, name: string, namespace: string, l: Listener)
    ensures LastAdmitting(listeners, name, namespace) == Some(l) <==>
              exists i :: IsLastLettingIn(listeners, i, name, namespace) && listeners[i] == l
  {
    if listeners != [] {
      var n := |listeners| - 1;
      AdmitsIff(listeners[n], namespace);
      LastAdmittingIs(listeners[..n], name, namespace, l);
      LastIsInRange(listeners[..n], name, namespace);
      forall i
        ensures IsLastLettingIn(listeners, i, name, namespace) <==>
                  if listeners[n].name == name && LetsHTTPIn(listeners[n], namespace) then i == n
                  else IsLastLettingIn(listeners[..n], i, name, namespace)
      {
        IsLastOfInit(listeners, i, name, namespace);
      }
      hide Admits, LetsHTTPIn, IsLastLettingIn;
    }
  }

  lemma LastIsInRange(listeners: seq<Listener>, name: string, namespace: string)
    ensures forall i :: IsLastLettingIn(listeners, i, name, namespace) ==> 0 <= i < |listeners|
  {
    hide LetsHTTPIn;
  }

  lemma AttachedIff(ctx: Context, obj: Object, at: Attachment, l: Listener)
    requires CandidateOf(obj).Some?
    ensures IsHTTPRoute(obj)
    ensures AttachedAt(CandidateOf(obj).value.route, ctx, at) == Some(l) <==> AttachesThrough(ctx, obj, at, l)
  {
    CandidateIs(obj);
    LastAdmittingIs(ListenersUnder(ctx, at.owner), at.listener, obj.meta.namespace, l);
    var route := CandidateOf(obj).value.route;
    hide CandidateOf, ListenersUnder, LastAdmitting, IsLastLettingIn;
    ReachesIff(route, at);
  }

  lemma ReachesIff(route: Route, at: Attachment)
    ensures (exists p :: p in ParentList(route) && Reaches(p, at)) <==>
              exists ref :: && ref in route.parentRefs && TakesIn(ref, at.listener)
                            && IsTo(ref, route.namespace, at.owner.kind, at.owner.namespace, at.owner.name)
  {
    forall ref
      ensures Reaches(Resolve(ref, route.namespace), at) <==>
                TakesIn(ref, at.listener)
                && IsTo(ref, route.namespace, at.owner.kind, at.owner.namespace, at.owner.name)
    {
      ResolveIs(ref, route.namespace, at.owner, at.listener);
    }
    hide Resolve, Reaches, TakesIn, IsTo;
    if ref :| && ref in route.parentRefs && TakesIn(ref, at.listener)
              && IsTo(ref, route.namespace, at.owner.kind, at.owner.namespace, at.owner.name) {
      var i :| 0 <= i < |route.parentRefs| && route.parentRefs[i] == ref;
      assert ParentList(route)[i] in ParentList(route);
    }
  }

  // Two routes

  /** Both name the hostname, or neither names any. */
  predicate BothName(mine: seq<string>, theirs: seq<string>, h: string) {
    (h in mine && h in theirs) || (h == "" && mine == [] && theirs == [])
  }

  ghost predicate CanServe(l: Listener, h: string) {
    h == "" || MeetsHost(l, [h])
  }

  /** Both attach through the listener, both name the hostname, and the listener of the first can serve it. */
  ghost predicate BothAt(ctx: Context, x: Object, y: Object, at: Attachment, h: string)
    requires IsHTTPRoute(x) && IsHTTPRoute(y)
  {
    && BothName(x.hostnames, y.hostnames, h)
    && (exists l :: AttachesThrough(ctx, x, at, l) && CanServe(l, h))
    && exists l :: AttachesThrough(ctx, y, at, l)
  }

  lemma ContestedIff(h: string, mine: seq<string>, theirs: seq<string>)
    ensures Contested(h, mine, theirs) <==> BothName(mine, theirs, h)
  {
  }

  lemma ServableIff(l: Listener, h: string)
    ensures Servable(l, h) <==> CanServe(l, h)
  {
    IntersectsIff(l, [h]);
    hide Intersects, MeetsHost;
  }

  ghost predicate BothDeclare(x: Object, y: Object, key: string)
    requires IsHTTPRoute(x) && IsHTTPRoute(y)
  {
    (exists m :: Declares(x, m) && KeyOf(m) == key) && exists n :: Declares(y, n) && KeyOf(n) == key
  }

  ghost predicate Clash(ctx: Context, x: Object, y: Object) {
    && IsHTTPRoute(x) && IsHTTPRoute(y)
    && (exists at, h :: BothAt(ctx, x, y, at, h))
    && exists key :: BothDeclare(x, y, key)
  }

  lemma AttachedAtOne(ctx: Context, obj: Object, at: Attachment)
    requires CandidateOf(obj).Some?
    ensures IsHTTPRoute(obj) && CandidateOf(obj).value.route.hostnames == obj.hostnames
    ensures AttachedAt(CandidateOf(obj).value.route, ctx, at).Some? <==>
              exists l :: AttachesThrough(ctx, obj, at, l)
    ensures forall l :: AttachesThrough(ctx, obj, at, l) ==>
                          AttachedAt(CandidateOf(obj).value.route, ctx, at) == Some(l)
  {
    CandidateIs(obj);
    var found := AttachedAt(CandidateOf(obj).value.route, ctx, at);
    hide CandidateOf, AttachedAt, AttachesThrough;
    forall l
      ensures found == Some(l) <==> AttachesThrough(ctx, obj, at, l)
    {
      AttachedIff(ctx, obj, at, l);
    }
    if found.Some? {
      assert AttachesThrough(ctx, obj, at, found.value);
    }
  }

  lemma BothAtIff(ctx: Context, x: Object, y: Object, at: Attachment, h: string)
    requires CandidateOf(x).Some? && CandidateOf(y).Some?
    ensures IsHTTPRoute(x) && IsHTTPRoute(y)
    ensures BothClaim(ctx, CandidateOf(x).value, CandidateOf(y).value, at, h) <==> BothAt(ctx, x, y, at, h)
  {
    AttachedAtOne(ctx, x, at);
    AttachedAtOne(ctx, y, at);
    ContestedIff(h, x.hostnames, y.hostnames);
    var found := AttachedAt(CandidateOf(x).value.route, ctx, at);
    if found.Some? {
      ServableIff(found.value, h);
    }
    hide CandidateOf, AttachedAt, AttachesThrough, Contested, BothName, Servable, CanServe;
  }

  lemma BothDeclareIff(x: Object, y: Object, key: string)
    requires CandidateOf(x).Some? && CandidateOf(y).Some?
    ensures IsHTTPRoute(x) && IsHTTPRoute(y)
    ensures SharedKey(key, CandidateOf(x).value.matches, CandidateOf(y).value.matches) <==> BothDeclare(x, y, key)
  {
    CandidateIs(x);
    CandidateIs(y);
    HasKeyIff(x.httpRules, key);
    HasKeyIff(y.httpRules, key);
    hide CandidateOf, KeyOf, HasKey, MatchList, Declared, Declares;
    forall m
      ensures m in Declared(x.httpRules) <==> Declares(x, m)
      ensures m in Declared(y.httpRules) <==> Declares(y, m)
    {
      DeclaresIff(x, m);
      DeclaresIff(y, m);
    }
  }

  lemma DeclaresIff(obj: Object, m: HTTPRouteMatch)
    requires IsHTTPRoute(obj)
    ensures m in Declared(obj.httpRules) <==> Declares(obj, m)
  {
    DeclaredAre(obj.httpRules, m);
    hide Declared;
  }

  /** Two objects conflict if and only if both are HTTPRoutes that attach through one listener, name one hostname it can
      serve, or none at all, and declare a match each of one key. */
  lemma ClashIff(ctx: Context, x: Object, y: Object)
    ensures (CandidateOf(x).Some? && CandidateOf(y).Some?
             && InConflict(ctx, CandidateOf(x).value, CandidateOf(y).value)) <==> Clash(ctx, x, y)
  {
    CandidateIs(x);
    CandidateIs(y);
    if CandidateOf(x).Some? && CandidateOf(y).Some? {
      hide CandidateOf, BothClaim, BothAt, SharedKey, BothDeclare;
      forall at, h
        ensures BothClaim(ctx, CandidateOf(x).value, CandidateOf(y).value, at, h) <==> BothAt(ctx, x, y, at, h)
      {
        BothAtIff(ctx, x, y, at, h);
      }
      forall key
        ensures SharedKey(key, CandidateOf(x).value.matches, CandidateOf(y).value.matches) <==> BothDeclare(x, y, key)
      {
        BothDeclareIff(x, y, key);
      }
    } else {
      ClashingAreCandidates(ctx, x, y);
    }
  }

  lemma ClashingAreCandidates(ctx: Context, x: Object, y: Object)
    ensures Clash(ctx, x, y) ==> IsHTTPRoute(x) && IsHTTPRoute(y) && x.httpRules != [] && y.httpRules != []
  {
    hide BothAt, KeyOf;
  }

  // Who is reported

  /** Both objects state a creationTimestamp, and the two differ. */
  predicate AgeDecides(x: Object, y: Object) {
    x.meta.created.Some? && y.meta.created.Some? && x.meta.created != y.meta.created
  }

  predicate OtherRoute(x: Object, y: Object) {
    x.meta.namespace != y.meta.namespace || x.meta.name != y.meta.name
  }

  /** A pair is undecided if and only if the two conflict, under two names, and not both are dated, at different
      times. */
  lemma UndecidedIff(ctx: Context, i: int, j: int)
    ensures Undecided(ctx, i, j) <==>
              && 0 <= i < |ctx| && 0 <= j < |ctx|
              && OtherRoute(ctx[i], ctx[j]) && !AgeDecides(ctx[i], ctx[j]) && Clash(ctx, ctx[i], ctx[j])
  {
    if 0 <= i < |ctx| && 0 <= j < |ctx| {
      CandidateIs(ctx[i]);
      CandidateIs(ctx[j]);
      ClashIff(ctx, ctx[i], ctx[j]);
      hide CandidateOf, InConflict, Clash, IsHTTPRoute;
    }
  }

  /** By namespace, and in one namespace by name. */
  ghost predicate NamedBefore(x: Meta, y: Meta) {
    || Strings.ComesBefore(x.namespace, y.namespace)
    || (x.namespace == y.namespace && Strings.ComesBefore(x.name, y.name))
  }

  lemma SortsBeforeIff(a: ObjectRef, b: ObjectRef, x: Meta, y: Meta)
    requires a.namespace == x.namespace && a.name == x.name && b.namespace == y.namespace && b.name == y.name
    ensures SortsBefore(a, b) <==> NamedBefore(x, y)
    ensures SortsBefore(a, b) ==> a != b
  {
    Strings.LessIff(x.namespace, y.namespace);
    Strings.LessIff(x.name, y.name);
    Strings.LessTrichotomy(x.namespace, x.namespace);
    Strings.LessTrichotomy(x.name, x.name);
    hide Strings.ComesBefore, Strings.Less;
  }

  /** Of such a pair the object is reported whose namespace comes later, or whose name does in one namespace. */
  lemma ReportedTermsIff(ctx: Context, self: Object, other: Object)
    ensures Reported(ctx, self, other) <==>
              NamedBefore(other.meta, self.meta) && !AgeDecides(self, other) && Clash(ctx, self, other)
  {
    CandidateIs(self);
    CandidateIs(other);
    ClashIff(ctx, self, other);
    if CandidateOf(self).Some? && CandidateOf(other).Some? {
      SortsBeforeIff(CandidateOf(other).value.id, CandidateOf(self).value.id, other.meta, self.meta);
    }
    hide CandidateOf, InConflict, Clash, NamedBefore, SortsBefore, IsHTTPRoute;
  }

  /** The pairs of objects, by position, that a run has to report. */
  ghost function OpenPairs(ctx: Context): set<(int, int)> {
    set i, j | 0 <= i < |ctx| && 0 <= j < |ctx| && i < j && IsOpenPair(ctx, ctx[i], ctx[j]) :: (i, j)
  }

  ghost predicate IsOpenPair(ctx: Context, x: Object, y: Object) {
    OtherRoute(x, y) && !AgeDecides(x, y) && Clash(ctx, x, y)
  }

  /** So a run has one diagnostic for every pair that clashes, under two names, with no age to decide. */
  lemma RunCountsOpenPairs(ctx: Context)
    requires HostsAgree(ctx)
    ensures Counting.Total(ReportRows(ctx)) == |OpenPairs(ctx)|
  {
    ReportsCountUndecidedPairs(ctx);
    OpenPairsAre(ctx);
    hide HostsAgree, UndecidedPairs, OpenPairs;
  }

  lemma OpenPairsAre(ctx: Context)
    ensures UndecidedPairs(ctx) == OpenPairs(ctx)
  {
    forall i, j | 0 <= i < |ctx| && 0 <= j < |ctx|
      ensures Undecided(ctx, i, j) <==> IsOpenPair(ctx, ctx[i], ctx[j])
    {
      UndecidedIff(ctx, i, j);
    }
    hide IsOpenPair, Undecided;
  }

  // What is reported

  /** The first of two lists that differs decides. */
  ghost predicate FieldsBefore(a: seq<string>, b: seq<string>)
    requires |a| == |b|
  {
    exists k :: 0 <= k < |a| && a[..k] == b[..k] && Strings.ComesBefore(a[k], b[k])
  }

  /** Claims go by namespace, name and kind of the parent, then listener, then hostname. */
  function ClaimFields(at: Attachment, h: string): (fields: seq<string>)
    ensures |fields| == 5
  {
    [at.owner.namespace, at.owner.name, at.owner.kind, at.listener, h]
  }

  lemma FieldsBeforeStep(a: seq<string>, b: seq<string>)
    requires |a| == |b|
    ensures FieldsBefore(a, b) <==>
              a != [] && (Strings.ComesBefore(a[0], b[0]) || (a[0] == b[0] && FieldsBefore(a[1..], b[1..])))
  {
    hide Strings.ComesBefore;
    if k :| 0 <= k < |a| && a[..k] == b[..k] && Strings.ComesBefore(a[k], b[k]) {
      if k > 0 {
        assert a[..k][0] == b[..k][0];
        assert a[1..][..k - 1] == a[..k][1..] && b[1..][..k - 1] == b[..k][1..];
        assert a[1..][k - 1] == a[k] && b[1..][k - 1] == b[k];
      }
    }
    if a != [] && Strings.ComesBefore(a[0], b[0]) {
      assert a[..0] == b[..0];
    }
    if a != [] && a[0] == b[0] && FieldsBefore(a[1..], b[1..]) {
      var k :| 0 <= k < |a[1..]| && a[1..][..k] == b[1..][..k] && Strings.ComesBefore(a[1..][k], b[1..][k]);
      assert a[..k + 1] == [a[0]] + a[1..][..k] && b[..k + 1] == [b[0]] + b[1..][..k];
      assert a[k + 1] == a[1..][k] && b[k + 1] == b[1..][k];
    }
  }

  lemma FieldLess(a: string, b: string)
    ensures Strings.Less(a, b) <==> Strings.ComesBefore(a, b)
    ensures Strings.Less(a, b) ==> a != b
  {
    Strings.LessIff(a, b);
    Strings.LessTrichotomy(a, a);
  }

  lemma ClaimLessIff(at: Attachment, h: string, at': Attachment, h': string)
    ensures ClaimLess(at, h, at', h') <==> FieldsBefore(ClaimFields(at, h), ClaimFields(at', h'))
  {
    var a, b := at.owner, at'.owner;
    FieldLess(a.namespace, b.namespace);
    FieldLess(a.name, b.name);
    FieldLess(a.kind, b.kind);
    FieldLess(at.listener, at'.listener);
    FieldLess(h, h');
    FieldsBeforeStep(ClaimFields(at, h), ClaimFields(at', h'));
    FieldsBeforeStep([a.name, a.kind, at.listener, h], [b.name, b.kind, at'.listener, h']);
    FieldsBeforeStep([a.kind, at.listener, h], [b.kind, at'.listener, h']);
    FieldsBeforeStep([at.listener, h], [at'.listener, h']);
    FieldsBeforeStep([h], [h']);
    FieldsBeforeStep([], []);
    hide Strings.ComesBefore, Strings.Less, FieldsBefore;
    assert ClaimFields(at, h)[1..] == [a.name, a.kind, at.listener, h];
    assert ClaimFields(at', h')[1..] == [b.name, b.kind, at'.listener, h'];
    assert [a.name, a.kind, at.listener, h][1..] == [a.kind, at.listener, h];
    assert [b.name, b.kind, at'.listener, h'][1..] == [b.kind, at'.listener, h'];
    assert [a.kind, at.listener, h][1..] == [at.listener, h] && [b.kind, at'.listener, h'][1..] == [at'.listener, h'];
    assert [at.listener, h][1..] == [h] && [at'.listener, h'][1..] == [h'];
    assert [h][1..] == [] && [h'][1..] == [];
  }

  /** A report names both routes, the first claim of all they share and, of the matches whose key both declare, one of
      the first key. */
  lemma ReportIs(ctx: Context, x: Object, y: Object, r: Report)
    requires CandidateOf(x).Some? && CandidateOf(y).Some?
    requires IsReport(ctx, CandidateOf(x).value, CandidateOf(y).value, r)
    ensures r.selfName == x.meta.name && r.otherName == y.meta.name && r.otherNamespace == y.meta.namespace
    ensures IsHTTPRoute(x) && IsHTTPRoute(y) && BothAt(ctx, x, y, r.at, r.hostname)
    ensures forall at, h :: BothAt(ctx, x, y, at, h) ==>
                              !FieldsBefore(ClaimFields(at, h), ClaimFields(r.at, r.hostname))
    ensures exists m :: && Declares(x, m) && BothDeclare(x, y, KeyOf(m))
                        && (forall key :: BothDeclare(x, y, key) ==> !Strings.ComesBefore(key, KeyOf(m)))
                        && r.match_ == MatchDescription(
                             FilledType(m.path), FilledPath(m.path), m.method_, |m.headers|, |m.queryParams|)
  {
    CandidateIs(x);
    CandidateIs(y);
    var a, b := CandidateOf(x).value, CandidateOf(y).value;
    hide CandidateOf, BothClaim, BothAt, ClaimFields, FieldsBefore, ClaimLess, IsLeastMatchAt;
    BothAtIff(ctx, x, y, r.at, r.hostname);
    forall at, h | BothAt(ctx, x, y, at, h)
      ensures !FieldsBefore(ClaimFields(at, h), ClaimFields(r.at, r.hostname))
    {
      BothAtIff(ctx, x, y, at, h);
      ClaimLessIff(at, h, r.at, r.hostname);
    }
    var i :| 0 <= i < |a.matches| && IsLeastMatchAt(a.matches, b.matches, i) && a.matches[i].describe == r.match_;
    LeastKeyIs(x, y, i);
  }

  lemma LeastKeyIs(x: Object, y: Object, i: int)
    requires CandidateOf(x).Some? && CandidateOf(y).Some?
    requires var a, b := CandidateOf(x).value, CandidateOf(y).value;
             0 <= i < |a.matches| && IsLeastMatchAt(a.matches, b.matches, i)
    ensures IsHTTPRoute(x) && IsHTTPRoute(y)
    ensures exists m :: && Declares(x, m) && BothDeclare(x, y, KeyOf(m))
                        && (forall key :: BothDeclare(x, y, key) ==> !Strings.ComesBefore(key, KeyOf(m)))
                        && CandidateOf(x).value.matches[i].describe == MatchDescription(
                             FilledType(m.path), FilledPath(m.path), m.method_, |m.headers|, |m.queryParams|)
  {
    CandidateIs(x);
    CandidateIs(y);
    var a, b := CandidateOf(x).value, CandidateOf(y).value;
    ListedAreDeclared(x.httpRules);
    var m := Declared(x.httpRules)[i];
    DeclaresIff(x, m);
    DescriptionIs(m);
    hide CandidateOf, Declared, Declares, MatchList, BothDeclare, KeyOf, DescriptionOf, Strings.ComesBefore,
         Strings.Less, FilledType, FilledPath;
    assert a.matches[i].key == KeyOf(m);
    BothDeclareIff(x, y, KeyOf(m));
    forall key | BothDeclare(x, y, key)
      ensures !Strings.ComesBefore(key, KeyOf(m))
    {
      BothDeclareIff(x, y, key);
      Strings.LessIff(key, KeyOf(m));
      assert HasKey(a.matches, key);
    }
  }
}
