/** conflicting-route-match: two HTTPRoutes claiming the same hostname with the same match on the same listener
    (pkg/templates/conflictingroutematch/template.go). */
module ConflictingRouteMatch {
  import opened Manifests
  import opened Routes
  import opened Parents
  import opened Attach
  import opened RouteMatch
  import opened Bags
  import opened Sorting
  import Strings

  datatype Candidate = Candidate(
    id: ObjectRef, route: Route, matches: seq<HTTPMatch>, createdAt: int, hasCreated: bool)

  /** One listener a route attaches through. */
  datatype Attachment = Attachment(owner: ObjectRef, listener: string)

  /** What a diagnostic names. An empty hostname stands for every hostname the listener serves. */
  datatype Report = Report(
    selfName: string, otherName: string, otherNamespace: string, hostname: string, match_: MatchDescription,
    at: Attachment)

  /** Unix time of Go's zero time. */
  const ZERO_TIME := -62135596800

  ghost function CandidateOf(obj: Object): Option<Candidate> {
    match (RouteOf(obj), MatchesOf(obj))
    case (Some(route), Some(matches)) =>
      if matches == [] then None
      else Some(Candidate(ObjectRef(route.kind, route.namespace, route.name), route, matches,
                          obj.meta.created.GetOr(ZERO_TIME), obj.meta.created.Some?))
    case _ => None
  }

  method AsCandidate(obj: Object) returns (r: Option<Candidate>)
    ensures r == CandidateOf(obj)
  {
    var route := AsRoute(obj);
    if route.None? {
      return None;
    }
    var matches := HTTPMatchesOf(obj);
    if matches.None? || |matches.value| == 0 {
      return None;
    }
    var id := ObjectRef(route.value.kind, route.value.namespace, route.value.name);
    return Some(Candidate(id, route.value, matches.value, obj.meta.created.GetOr(ZERO_TIME), obj.meta.created.Some?));
  }

  predicate SeparatedByAge(a: Candidate, b: Candidate) {
    a.hasCreated && b.hasCreated && a.createdAt != b.createdAt
  }

  predicate SortsBefore(a: ObjectRef, b: ObjectRef) {
    if a.namespace != b.namespace then Strings.Less(a.namespace, b.namespace) else Strings.Less(a.name, b.name)
  }

  predicate AttachmentLess(a: Attachment, b: Attachment) {
    if a.owner != b.owner then
      if a.owner.namespace != b.owner.namespace then Strings.Less(a.owner.namespace, b.owner.namespace)
      else if a.owner.name != b.owner.name then Strings.Less(a.owner.name, b.owner.name)
      else Strings.Less(a.owner.kind, b.owner.kind)
    else
      Strings.Less(a.listener, b.listener)
  }

  lemma AttachmentsAreOrdered()
    ensures StrictTotalOrder(AttachmentLess)
  {
    forall a: Attachment, b: Attachment, c: Attachment
      ensures OrderLaws(AttachmentLess, a, b, c)
    {
      AttachmentTrichotomy(a, b);
      if AttachmentLess(a, b) && AttachmentLess(b, c) {
        AttachmentTransitive(a, b, c);
      }
    }
  }

  lemma AttachmentTrichotomy(a: Attachment, b: Attachment)
    ensures !AttachmentLess(a, a) && (a == b || AttachmentLess(a, b) || AttachmentLess(b, a))
  {
    Strings.LessTrichotomy(a.owner.namespace, b.owner.namespace);
    Strings.LessTrichotomy(a.owner.name, b.owner.name);
    Strings.LessTrichotomy(a.owner.kind, b.owner.kind);
    Strings.LessTrichotomy(a.listener, b.listener);
  }

  lemma FieldTransitive(a: string, b: string, c: string)
    ensures Strings.Less(a, b) && Strings.Less(b, c) ==> Strings.Less(a, c) && a != c
  {
    if Strings.Less(a, b) && Strings.Less(b, c) {
      Strings.LessTransitive(a, b, c);
      Strings.LessTrichotomy(a, c);
    }
  }

  lemma AttachmentTransitive(a: Attachment, b: Attachment, c: Attachment)
    requires AttachmentLess(a, b) && AttachmentLess(b, c)
    ensures AttachmentLess(a, c)
  {
    FieldTransitive(a.owner.namespace, b.owner.namespace, c.owner.namespace);
    FieldTransitive(a.owner.name, b.owner.name, c.owner.name);
    FieldTransitive(a.owner.kind, b.owner.kind, c.owner.kind);
    FieldTransitive(a.listener, b.listener, c.listener);
  }

  // Where a route attaches

  predicate Reaches(p: Parent, at: Attachment) {
    && p.group == GATEWAY_API_GROUP && p.Owner() == at.owner
    && (p.section.None? || p.section.value == at.listener)
  }

  predicate Admits(l: Listener, routeNamespace: string) {
    Accepts(l, HTTP_ROUTE) && AcceptsNamespace(l, routeNamespace)
  }

  function LastAdmitting(listeners: seq<Listener>, name: string, routeNamespace: string): Option<Listener> {
    if listeners == [] then None
    else
      var last := listeners[|listeners| - 1];
      if last.name == name && Admits(last, routeNamespace) then Some(last)
      else LastAdmitting(listeners[..|listeners| - 1], name, routeNamespace)
  }

  ghost function AttachedVia(parents: seq<Parent>, routeNamespace: string, ctx: Context,
                             at: Attachment): Option<Listener> {
    if exists p :: p in parents && Reaches(p, at) then
      LastAdmitting(ListenersUnder(ctx, at.owner), at.listener, routeNamespace)
    else None
  }

  /** The listener through which the route attaches at `at`: the last one of that name that admits it. */
  ghost function AttachedAt(route: Route, ctx: Context, at: Attachment): Option<Listener> {
    AttachedVia(ParentList(route), route.namespace, ctx, at)
  }

  function Lookup(found: map<Attachment, Listener>, at: Attachment): Option<Listener> {
    if at in found then Some(found[at]) else None
  }

  ghost predicate AreAttachments(found: map<Attachment, Listener>, route: Route, ctx: Context) {
    forall at :: Lookup(found, at) == AttachedAt(route, ctx, at)
  }

  method AttachmentsOf(route: Route, byOwner: ListenerIndex, ghost ctx: Context)
    returns (found: map<Attachment, Listener>)
    requires Indexes(byOwner, ctx)
    ensures AreAttachments(found, route, ctx)
  {
    var parents := ParentsOf(route);
    found := map[];
    for i := 0 to |parents|
      invariant forall at :: Lookup(found, at) == AttachedVia(parents[..i], route.namespace, ctx, at)
    {
      found := AttachThrough(found, parents[i], route.namespace, byOwner, ctx, parents[..i]);
      assert parents[..i + 1] == parents[..i] + [parents[i]];
    }
    assert parents[..|parents|] == parents;
  }

  /** One parentRef of attachmentsOf's loop. */
  method AttachThrough(before: map<Attachment, Listener>, parent: Parent, routeNamespace: string,
                       byOwner: ListenerIndex, ghost ctx: Context, ghost done: seq<Parent>)
    returns (found: map<Attachment, Listener>)
    requires Indexes(byOwner, ctx)
    requires forall at :: Lookup(before, at) == AttachedVia(done, routeNamespace, ctx, at)
    ensures forall at :: Lookup(found, at) == AttachedVia(done + [parent], routeNamespace, ctx, at)
  {
    hide Accepts, AcceptsNamespace;
    found := before;
    if parent.group == GATEWAY_API_GROUP {
      var listeners := if parent.Owner() in byOwner then byOwner[parent.Owner()] else [];
      assert listeners == ListenersUnder(ctx, parent.Owner());
      for j := 0 to |listeners|
        invariant forall at :: Lookup(found, at) == Overlaid(before, parent, listeners[..j], routeNamespace, at)
      {
        var l := listeners[j];
        forall at
          ensures Overlaid(before, parent, listeners[..j + 1], routeNamespace, at)
               == if Reaches(parent, at) && l.name == at.listener && Admits(l, routeNamespace) then Some(l)
                  else Overlaid(before, parent, listeners[..j], routeNamespace, at)
        {
          assert listeners[..j + 1][..j] == listeners[..j];
        }
        if parent.section.Some? && parent.section.value != l.name {
          continue;
        }
        var accepts, _ := AcceptsKind(l, HTTP_ROUTE);
        if !accepts {
          continue;
        }
        if !AcceptsNamespace(l, routeNamespace) {
          continue;
        }
        ghost var was := found;
        var at0 := Attachment(parent.Owner(), l.name);
        found := found[at0 := l];
        assert forall at :: Lookup(found, at) == if at == at0 then Some(l) else Lookup(was, at);
        assert forall at :: Reaches(parent, at) && at.listener == l.name <==> at == at0;
      }
      assert listeners[..|listeners|] == listeners;
    }
    forall at
      ensures Lookup(found, at) == AttachedVia(done + [parent], routeNamespace, ctx, at)
    {
      OneMoreParent(done, parent, at);
    }
  }

  lemma OneMoreParent(done: seq<Parent>, parent: Parent, at: Attachment)
    ensures (exists p :: p in done + [parent] && Reaches(p, at))
       <==> (exists p :: p in done && Reaches(p, at)) || Reaches(parent, at)
  {
    assert forall p :: p in done + [parent] <==> p in done || p == parent;
  }

  ghost function Overlaid(before: map<Attachment, Listener>, parent: Parent, listeners: seq<Listener>,
                          routeNamespace: string, at: Attachment): Option<Listener> {
    var l := LastAdmitting(listeners, at.listener, routeNamespace);
    if Reaches(parent, at) && l.Some? then l else Lookup(before, at)
  }

  // What a conflict is

  ghost predicate Contested(h: string, mine: seq<string>, theirs: seq<string>) {
    if mine == [] && theirs == [] then h == "" else h in mine && h in theirs
  }

  predicate Servable(l: Listener, h: string) {
    h == "" || Intersects(l, [h])
  }

  /** Both routes attach at `at`, both claim `h` with equal specificity, and the listener can serve it. */
  ghost predicate BothClaim(ctx: Context, self: Candidate, other: Candidate, at: Attachment, h: string) {
    && AttachedAt(self.route, ctx, at).Some?
    && AttachedAt(other.route, ctx, at).Some?
    && Contested(h, self.route.hostnames, other.route.hostnames)
    && Servable(AttachedAt(self.route, ctx, at).value, h)
  }

  predicate HasKey(matches: seq<HTTPMatch>, key: string) {
    exists m :: m in matches && m.key == key
  }

  ghost predicate SharedKey(key: string, mine: seq<HTTPMatch>, theirs: seq<HTTPMatch>) {
    HasKey(mine, key) && HasKey(theirs, key)
  }

  ghost predicate InConflict(ctx: Context, self: Candidate, other: Candidate) {
    && (exists at, h :: BothClaim(ctx, self, other, at, h))
    && (exists key :: SharedKey(key, self.matches, other.matches))
  }

  predicate ClaimLess(at: Attachment, h: string, at': Attachment, h': string) {
    AttachmentLess(at, at') || (at == at' && Strings.Less(h, h'))
  }

  ghost predicate LeastClaim(ctx: Context, self: Candidate, other: Candidate, at: Attachment, h: string) {
    && BothClaim(ctx, self, other, at, h)
    && forall at', h' :: BothClaim(ctx, self, other, at', h') ==> !ClaimLess(at', h', at, h)
  }

  /** The first of `mine` that carries the least key the two share. */
  ghost predicate IsLeastMatchAt(mine: seq<HTTPMatch>, theirs: seq<HTTPMatch>, i: int) {
    && 0 <= i < |mine|
    && HasKey(theirs, mine[i].key)
    && (forall j :: 0 <= j < |mine| && HasKey(theirs, mine[j].key) ==> !Strings.Less(mine[j].key, mine[i].key))
    && (forall j :: 0 <= j < i ==> mine[j].key != mine[i].key)
  }

  ghost predicate IsReport(ctx: Context, self: Candidate, other: Candidate, r: Report) {
    && r.selfName == self.id.name && r.otherName == other.id.name && r.otherNamespace == other.id.namespace
    && LeastClaim(ctx, self, other, r.at, r.hostname)
    && exists i :: 0 <= i < |self.matches| && IsLeastMatchAt(self.matches, other.matches, i)
        && self.matches[i].describe == r.match_
  }

  lemma LeastClaimIsUnique(ctx: Context, self: Candidate, other: Candidate, at: Attachment, h: string, at': Attachment,
                           h': string)
    requires LeastClaim(ctx, self, other, at, h) && LeastClaim(ctx, self, other, at', h')
    ensures at == at' && h == h'
  {
    hide BothClaim, AttachmentLess;
    AttachmentTrichotomy(at, at');
    Strings.LessTrichotomy(h, h');
  }

  lemma LeastMatchIsUnique(mine: seq<HTTPMatch>, theirs: seq<HTTPMatch>, i: int, j: int)
    requires IsLeastMatchAt(mine, theirs, i) && IsLeastMatchAt(mine, theirs, j)
    ensures i == j
  {
    hide HasKey;
    Strings.LessTrichotomy(mine[i].key, mine[j].key);
  }

  /** Whatever order Go walks its maps in, there is one report to make. */
  lemma ReportIsUnique(ctx: Context, self: Candidate, other: Candidate, r: Report, s: Report)
    requires IsReport(ctx, self, other, r) && IsReport(ctx, self, other, s)
    ensures r == s
  {
    hide LeastClaim, IsLeastMatchAt;
    LeastClaimIsUnique(ctx, self, other, r.at, r.hostname, s.at, s.hostname);
    var i :| 0 <= i < |self.matches| && IsLeastMatchAt(self.matches, other.matches, i)
             && self.matches[i].describe == r.match_;
    var j :| 0 <= j < |self.matches| && IsLeastMatchAt(self.matches, other.matches, j)
             && self.matches[j].describe == s.match_;
    LeastMatchIsUnique(self.matches, other.matches, i, j);
  }

  // Finding it

  method ContestedHostnames(mine: seq<string>, theirs: seq<string>) returns (contested: seq<string>)
    ensures Ascending(contested, Strings.Less)
    ensures forall h :: h in contested <==> Contested(h, mine, theirs)
  {
    if |mine| == 0 && |theirs| == 0 {
      return [""];
    }
    if |mine| == 0 || |theirs| == 0 {
      return [];
    }
    var seen := {};
    for i := 0 to |theirs|
      invariant forall h :: h in seen <==> h in theirs[..i]
    {
      seen := seen + {theirs[i]};
    }
    contested := [];
    for i := 0 to |mine|
      invariant forall h :: h in contested <==> h in mine[..i] && h in theirs
    {
      if mine[i] in seen {
        contested := contested + [mine[i]];
      }
    }
    ghost var unsorted := contested;
    StringsAreOrdered();
    contested := Sort(contested, Strings.Less);
    SameBagSameElements(contested, unsorted);
  }

  method IdenticalMatch(mine: seq<HTTPMatch>, theirs: seq<HTTPMatch>) returns (best: Option<HTTPMatch>)
    ensures best.None? <==> !exists key :: SharedKey(key, mine, theirs)
    ensures best.Some? ==> exists i :: 0 <= i < |mine| && IsLeastMatchAt(mine, theirs, i) && mine[i] == best.value
  {
    var seen := {};
    for i := 0 to |theirs|
      invariant forall key :: key in seen <==> HasKey(theirs[..i], key)
    {
      assert theirs[..i + 1] == theirs[..i] + [theirs[i]];
      assert theirs[i] in theirs[..i + 1];
      seen := seen + {theirs[i].key};
    }
    assert theirs[..|theirs|] == theirs;
    best := None;
    ghost var at := -1;
    for i := 0 to |mine|
      invariant best.None? ==> forall j :: 0 <= j < i ==> !HasKey(theirs, mine[j].key)
      invariant best.Some? ==> IsLeastMatchAt(mine[..i], theirs, at) && mine[at] == best.value
    {
      if mine[i].key !in seen {
        continue;
      }
      if best.None? || Strings.Less(mine[i].key, best.value.key) {
        if best.Some? {
          KeepsLeast(mine, theirs, at, i);
        }
        Strings.LessTrichotomy(mine[i].key, mine[i].key);
        best := Some(mine[i]);
        at := i;
      }
    }
    assert mine[..|mine|] == mine;
    if best.Some? {
      assert mine[at] in mine && SharedKey(best.value.key, mine, theirs);
    }
  }

  lemma KeepsLeast(mine: seq<HTTPMatch>, theirs: seq<HTTPMatch>, at: int, i: nat)
    requires i < |mine| && IsLeastMatchAt(mine[..i], theirs, at) && Strings.Less(mine[i].key, mine[at].key)
    ensures forall j :: 0 <= j < i && HasKey(theirs, mine[j].key) ==>
                          !Strings.Less(mine[j].key, mine[i].key) && mine[j].key != mine[i].key
  {
    forall j | 0 <= j < i && HasKey(theirs, mine[j].key)
      ensures !Strings.Less(mine[j].key, mine[i].key) && mine[j].key != mine[i].key
    {
      assert mine[..i][j] == mine[j];
      if Strings.Less(mine[j].key, mine[i].key) {
        Strings.LessTransitive(mine[j].key, mine[i].key, mine[at].key);
      }
    }
  }

  method SharedAttachments(mine: map<Attachment, Listener>, theirs: map<Attachment, Listener>)
    returns (shared: seq<Attachment>)
    ensures Ascending(shared, AttachmentLess)
    ensures forall at :: at in shared <==> at in mine && at in theirs
  {
    shared := [];
    var todo := mine.Keys;
    while todo != {}
      invariant todo <= mine.Keys
      invariant forall at :: at in shared <==> at in mine && at !in todo && at in theirs
    {
      var at :| at in todo;
      todo := todo - {at};
      if at in theirs {
        shared := shared + [at];
      }
    }
    ghost var unsorted := shared;
    AttachmentsAreOrdered();
    shared := Sort(shared, AttachmentLess);
    SameBagSameElements(shared, unsorted);
  }

  /** The first listener and hostname, in order, that the two routes contend on. */
  method FirstClaim(shared: seq<Attachment>, hostnames: seq<string>, mine: map<Attachment, Listener>)
    returns (r: Option<(Attachment, string)>)
    requires forall at :: at in shared ==> at in mine
    requires Ascending(shared, AttachmentLess) && Ascending(hostnames, Strings.Less)
    ensures r.None? <==> forall at, h :: at in shared && h in hostnames ==> !Servable(mine[at], h)
    ensures r.Some? ==>
              && r.value.0 in shared && r.value.1 in hostnames && Servable(mine[r.value.0], r.value.1)
              && forall at, h :: at in shared && h in hostnames && Servable(mine[at], h) ==>
                                   !ClaimLess(at, h, r.value.0, r.value.1)
  {
    hide Intersects;
    for i := 0 to |shared|
      invariant forall a, h :: 0 <= a < i && h in hostnames ==> !Servable(mine[shared[a]], h)
    {
      var listener := mine[shared[i]];
      for j := 0 to |hostnames|
        invariant forall b :: 0 <= b < j ==> !Servable(listener, hostnames[b])
      {
        var hostname := hostnames[j];
        if hostname != "" {
          var served := HostnamesIntersect(listener, [hostname]);
          if !served {
            continue;
          }
        }
        FirstIsLeastClaim(shared, hostnames, mine, i, j);
        assert Servable(mine[shared[i]], hostname);
        assert shared[i] in shared && hostname in hostnames;
        return Some((shared[i], hostname));
      }
    }
    return None;
  }

  lemma FirstIsLeastClaim(shared: seq<Attachment>, hostnames: seq<string>, mine: map<Attachment, Listener>, i: nat,
                          j: nat)
    requires forall at :: at in shared ==> at in mine
    requires Ascending(shared, AttachmentLess) && Ascending(hostnames, Strings.Less)
    requires i < |shared| && j < |hostnames|
    requires forall a, h :: 0 <= a < i && h in hostnames ==> !Servable(mine[shared[a]], h)
    requires forall b :: 0 <= b < j ==> !Servable(mine[shared[i]], hostnames[b])
    ensures forall at, h :: at in shared && h in hostnames && Servable(mine[at], h) ==>
                              !ClaimLess(at, h, shared[i], hostnames[j])
  {
    hide Servable, AttachmentLess;
    forall at, h | at in shared && h in hostnames && Servable(mine[at], h)
      ensures !ClaimLess(at, h, shared[i], hostnames[j])
    {
      var a :| 0 <= a < |shared| && shared[a] == at;
      var b :| 0 <= b < |hostnames| && hostnames[b] == h;
      AttachmentTrichotomy(at, at);
      Strings.LessTrichotomy(h, h);
    }
  }

  method Conflict(self: Candidate, other: Candidate, mine: map<Attachment, Listener>, byOwner: ListenerIndex,
                  ghost ctx: Context) returns (r: Option<Report>)
    requires Indexes(byOwner, ctx) && AreAttachments(mine, self.route, ctx)
    ensures r.Some? <==> InConflict(ctx, self, other)
    ensures r.Some? ==> IsReport(ctx, self, other, r.value)
  {
    hide Servable, ClaimLess, AttachedAt, AreAttachments, Contested, BothClaim, SharedKey, IsLeastMatchAt;
    var theirs := AttachmentsOf(other.route, byOwner, ctx);
    var shared := SharedAttachments(mine, theirs);
    var hostnames := ContestedHostnames(self.route.hostnames, other.route.hostnames);
    SharedAreClaims(ctx, self, other, mine, theirs, shared, hostnames);
    if |shared| == 0 || |hostnames| == 0 {
      return None;
    }
    var best := IdenticalMatch(self.matches, other.matches);
    if best.None? {
      return None;
    }
    var claim := FirstClaim(shared, hostnames, mine);
    if claim.None? {
      return None;
    }
    var (at, h) := claim.value;
    assert LeastClaim(ctx, self, other, at, h);
    return Some(Report(self.id.name, other.id.name, other.id.namespace, h, best.value.describe, at));
  }

  lemma SharedAreClaims(ctx: Context, self: Candidate, other: Candidate, mine: map<Attachment, Listener>,
                        theirs: map<Attachment, Listener>, shared: seq<Attachment>, hostnames: seq<string>)
    requires AreAttachments(mine, self.route, ctx) && AreAttachments(theirs, other.route, ctx)
    requires forall at :: at in shared <==> at in mine && at in theirs
    requires forall h :: h in hostnames <==> Contested(h, self.route.hostnames, other.route.hostnames)
    ensures forall at, h :: BothClaim(ctx, self, other, at, h) <==>
              at in shared && h in hostnames && Servable(mine[at], h)
  {
    hide Servable, AttachedAt;
    forall at
      ensures at in mine <==> AttachedAt(self.route, ctx, at).Some?
      ensures at in mine ==> mine[at] == AttachedAt(self.route, ctx, at).value
      ensures at in theirs <==> AttachedAt(other.route, ctx, at).Some?
    {
      assert Lookup(mine, at) == AttachedAt(self.route, ctx, at);
      assert Lookup(theirs, at) == AttachedAt(other.route, ctx, at);
    }
  }
}
