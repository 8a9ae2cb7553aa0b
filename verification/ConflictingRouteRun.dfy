/** A whole run of conflicting-route-match: who is reported, how often, and what a report means
    (pkg/templates/conflictingroutematch/template.go). */
module ConflictingRouteRun {
  import opened Manifests
  import opened Routes
  import opened Parents
  import opened Attach
  import opened RouteMatch
  import opened ConflictingRouteMatch
  import opened Sorting
  import Counting
  import Strings

  /** The check reports `self` against `other`: `self` sorts later, and no age decides between them. */
  ghost predicate Reported(ctx: Context, self: Object, other: Object) {
    && CandidateOf(self).Some? && CandidateOf(other).Some?
    && var a, b := CandidateOf(self).value, CandidateOf(other).value;
    && a.id != b.id
    && SortsBefore(b.id, a.id)
    && !SeparatedByAge(a, b)
    && InConflict(ctx, a, b)
  }

  /** The positions below `n` of the objects that `self` is reported against, in order. */
  ghost function Rivals(ctx: Context, self: Object, n: nat): seq<int>
    requires n <= |ctx|
  {
    if n == 0 then []
    else Rivals(ctx, self, n - 1) + if Reported(ctx, self, ctx[n - 1]) then [n - 1] else []
  }

  lemma {:induction false} RivalsAre(ctx: Context, self: Object, n: nat)
    requires n <= |ctx|
    ensures var r := Rivals(ctx, self, n);
            && (forall i, j :: 0 <= i < j < |r| ==> r[i] < r[j])
            && (forall k :: k in r <==> 0 <= k < n && Reported(ctx, self, ctx[k]))
  {
    hide Reported;
    if n > 0 {
      RivalsAre(ctx, self, n - 1);
      var r := Rivals(ctx, self, n - 1);
      assert forall i :: 0 <= i < |r| ==> r[i] in r;
    }
  }

  ghost predicate ReportsMatch(ctx: Context, self: Object, rivals: seq<int>, diagnostics: seq<Report>) {
    && |diagnostics| == |rivals|
    && forall k :: 0 <= k < |rivals| ==>
         && 0 <= rivals[k] < |ctx|
         && CandidateOf(self).Some? && CandidateOf(ctx[rivals[k]]).Some?
         && IsReport(ctx, CandidateOf(self).value, CandidateOf(ctx[rivals[k]]).value, diagnostics[k])
  }

  method CheckFunc(ctx: Context, object_: Object) returns (diagnostics: seq<Report>)
    ensures ReportsMatch(ctx, object_, Rivals(ctx, object_, |ctx|), diagnostics)
  {
    hide CandidateOf, IsReport, AreAttachments, Indexes, Rivals, Reported, ReportsMatch;
    var self := AsCandidate(object_);
    if self.None? {
      NoCandidateNoRivals(ctx, object_);
      NothingReported(ctx, object_);
      return [];
    }
    var byOwner := ListenersByOwner(ctx);
    var mine := AttachmentsOf(self.value.route, byOwner, ctx);
    if mine == map[] {
      NoAttachmentNoRivals(ctx, object_, mine);
      NothingReported(ctx, object_);
      return [];
    }
    diagnostics := CompareAll(ctx, object_, self.value, mine, byOwner);
  }

  method CompareAll(ctx: Context, ghost object_: Object, self: Candidate, mine: map<Attachment, Listener>,
                    byOwner: ListenerIndex) returns (diagnostics: seq<Report>)
    requires CandidateOf(object_) == Some(self)
    requires Indexes(byOwner, ctx) && AreAttachments(mine, self.route, ctx)
    ensures ReportsMatch(ctx, object_, Rivals(ctx, object_, |ctx|), diagnostics)
  {
    assert Rivals(ctx, object_, 0) == [];
    hide CandidateOf, IsReport, AreAttachments, Indexes, Rivals, Reported, ReportsMatch;
    NothingReported(ctx, object_);
    diagnostics := [];
    for i := 0 to |ctx|
      invariant ReportsMatch(ctx, object_, Rivals(ctx, object_, i), diagnostics)
    {
      RivalsStep(ctx, object_, i);
      var d := Judge(ctx, object_, self, ctx[i], mine, byOwner);
      if d.Some? {
        OneMoreReport(ctx, object_, Rivals(ctx, object_, i), diagnostics, i, d.value);
        diagnostics := diagnostics + [d.value];
      }
    }
  }

  /** The guards of the loop, in order, for one other object. */
  method Judge(ctx: Context, ghost object_: Object, self: Candidate, obj: Object, mine: map<Attachment, Listener>,
               byOwner: ListenerIndex) returns (d: Option<Report>)
    requires CandidateOf(object_) == Some(self)
    requires Indexes(byOwner, ctx) && AreAttachments(mine, self.route, ctx)
    ensures d.Some? <==> Reported(ctx, object_, obj)
    ensures d.Some? ==> IsReport(ctx, self, CandidateOf(obj).value, d.value)
  {
    ReportedIff(ctx, object_, obj);
    hide *;
    var other := AsCandidate(obj);
    if other.None? || other.value.id == self.id {
      return None;
    }
    if !SortsBefore(other.value.id, self.id) {
      return None;
    }
    if SeparatedByAge(self, other.value) {
      return None;
    }
    d := Conflict(self, other.value, mine, byOwner, ctx);
  }

  lemma ReportedIff(ctx: Context, self: Object, other: Object)
    requires CandidateOf(self).Some?
    ensures CandidateOf(other).None? ==> !Reported(ctx, self, other)
    ensures CandidateOf(other).Some? ==>
              var a, b := CandidateOf(self).value, CandidateOf(other).value;
              (Reported(ctx, self, other) <==>
                 a.id != b.id && SortsBefore(b.id, a.id) && !SeparatedByAge(a, b) && InConflict(ctx, a, b))
  {
    hide CandidateOf, InConflict, SortsBefore, SeparatedByAge;
  }

  lemma NothingReported(ctx: Context, self: Object)
    ensures ReportsMatch(ctx, self, [], [])
  {
  }

  lemma OneMoreReport(ctx: Context, self: Object, rivals: seq<int>, diagnostics: seq<Report>, i: nat, d: Report)
    requires ReportsMatch(ctx, self, rivals, diagnostics) && i < |ctx|
    requires CandidateOf(self).Some? && CandidateOf(ctx[i]).Some?
    requires IsReport(ctx, CandidateOf(self).value, CandidateOf(ctx[i]).value, d)
    ensures ReportsMatch(ctx, self, rivals + [i], diagnostics + [d])
  {
    hide CandidateOf, IsReport;
  }

  lemma RivalsStep(ctx: Context, self: Object, i: nat)
    requires i < |ctx|
    ensures Rivals(ctx, self, 0) == []
    ensures Reported(ctx, self, ctx[i]) ==> Rivals(ctx, self, i + 1) == Rivals(ctx, self, i) + [i]
    ensures !Reported(ctx, self, ctx[i]) ==> Rivals(ctx, self, i + 1) == Rivals(ctx, self, i)
  {
    hide Reported;
  }

  lemma {:induction false} NoRivals(ctx: Context, self: Object, n: nat)
    requires n <= |ctx| && forall k :: 0 <= k < n ==> !Reported(ctx, self, ctx[k])
    ensures Rivals(ctx, self, n) == []
  {
    hide Reported;
    if n > 0 {
      NoRivals(ctx, self, n - 1);
    }
  }

  lemma NoCandidateNoRivals(ctx: Context, self: Object)
    requires CandidateOf(self).None?
    ensures Rivals(ctx, self, |ctx|) == []
  {
    hide CandidateOf;
    NoRivals(ctx, self, |ctx|);
  }

  lemma UnattachedNoConflict(ctx: Context, a: Candidate, b: Candidate)
    requires forall at :: AttachedAt(a.route, ctx, at).None?
    ensures !InConflict(ctx, a, b)
  {
    hide AttachedAt, HasKey, Servable, Contested;
  }

  lemma NoAttachmentNoRivals(ctx: Context, self: Object, mine: map<Attachment, Listener>)
    requires CandidateOf(self).Some? && AreAttachments(mine, CandidateOf(self).value.route, ctx) && mine == map[]
    ensures Rivals(ctx, self, |ctx|) == []
  {
    hide CandidateOf, AttachedAt, InConflict;
    var a := CandidateOf(self).value;
    forall at
      ensures AttachedAt(a.route, ctx, at).None?
    {
      assert Lookup(mine, at).None?;
    }
    forall k | 0 <= k < |ctx|
      ensures !Reported(ctx, self, ctx[k])
    {
      if CandidateOf(ctx[k]).Some? {
        UnattachedNoConflict(ctx, a, CandidateOf(ctx[k]).value);
      }
    }
    NoRivals(ctx, self, |ctx|);
  }

  // Symmetry

  ghost predicate UniqueListenerNames(ctx: Context) {
    forall o: ObjectRef :: NamesUnique(ListenersUnder(ctx, o))
  }

  predicate NamesUnique(listeners: seq<Listener>) {
    forall i, j :: 0 <= i < j < |listeners| ==> listeners[i].name != listeners[j].name
  }

  lemma {:induction false} LastAdmittingIsNamed(listeners: seq<Listener>, name: string, ns: string)
    ensures var l := LastAdmitting(listeners, name, ns);
            l.Some? ==> exists i :: 0 <= i < |listeners| && listeners[i] == l.value && l.value.name == name
  {
    if listeners != [] {
      var n := |listeners| - 1;
      LastAdmittingIsNamed(listeners[..n], name, ns);
      var l := LastAdmitting(listeners[..n], name, ns);
      if l.Some? {
        var i :| 0 <= i < n && listeners[..n][i] == l.value;
        assert listeners[i] == l.value;
      }
    }
  }

  /** The hostname a listener serves; empty for all of them. */
  function HostOfListener(l: Listener): string {
    l.hostname.GetOr("")
  }

  /** Where the listeners of one name differ in which routes they admit, they do not differ in hostname. */
  ghost predicate HostsAgree(ctx: Context) {
    forall owner, name, ns, ns' :: SameHostAdmitted(ListenersUnder(ctx, owner), name, ns, ns')
  }

  predicate SameHostAdmitted(listeners: seq<Listener>, name: string, ns: string, ns': string) {
    var l, l' := LastAdmitting(listeners, name, ns), LastAdmitting(listeners, name, ns');
    l.Some? && l'.Some? ==> HostOfListener(l.value) == HostOfListener(l'.value)
  }

  lemma UniqueNamesAgree(ctx: Context)
    requires UniqueListenerNames(ctx)
    ensures HostsAgree(ctx)
  {
    forall owner, name, ns, ns'
      ensures SameHostAdmitted(ListenersUnder(ctx, owner), name, ns, ns')
    {
      var listeners := ListenersUnder(ctx, owner);
      assert NamesUnique(listeners);
      LastAdmittingIsNamed(listeners, name, ns);
      LastAdmittingIsNamed(listeners, name, ns');
    }
  }

  lemma ServableByHost(l: Listener, l': Listener, h: string)
    requires HostOfListener(l) == HostOfListener(l')
    ensures Servable(l, h) <==> Servable(l', h)
  {
    assert h in [h];
  }

  lemma ClaimIsMutual(ctx: Context, a: Candidate, b: Candidate, at: Attachment, h: string)
    requires HostsAgree(ctx) && BothClaim(ctx, a, b, at, h)
    ensures BothClaim(ctx, b, a, at, h)
  {
    hide Servable, HostOfListener, Reaches;
    var listeners := ListenersUnder(ctx, at.owner);
    assert SameHostAdmitted(listeners, at.listener, a.route.namespace, b.route.namespace);
    ServableByHost(AttachedAt(a.route, ctx, at).value, AttachedAt(b.route, ctx, at).value, h);
  }

  /** When same-named listeners agree on the hostname a conflict belongs to the pair, not to either route. */
  lemma ConflictIsMutual(ctx: Context, a: Candidate, b: Candidate)
    requires HostsAgree(ctx)
    ensures InConflict(ctx, a, b) <==> InConflict(ctx, b, a)
  {
    if InConflict(ctx, a, b) {
      ConflictIsMutualOneWay(ctx, a, b);
    }
    if InConflict(ctx, b, a) {
      ConflictIsMutualOneWay(ctx, b, a);
    }
  }

  lemma ConflictIsMutualOneWay(ctx: Context, a: Candidate, b: Candidate)
    requires HostsAgree(ctx) && InConflict(ctx, a, b)
    ensures InConflict(ctx, b, a)
  {
    hide BothClaim, HasKey;
    var at, h :| BothClaim(ctx, a, b, at, h);
    ClaimIsMutual(ctx, a, b, at, h);
    var key :| SharedKey(key, a.matches, b.matches);
    assert SharedKey(key, b.matches, a.matches);
  }

  /** Without unique names a conflict can depend on which route asks: each may attach through another listener of
      the same name, and only the asking route's listener is tried against the hostname. */
  lemma RepeatedNamesBreakSymmetry(gateway: Object, open: ListenerSpec, closed: ListenerSpec, a: Candidate,
                                   b: Candidate)
    requires gateway.GatewayV1? && gateway.listeners == [open, closed] && open.name == closed.name
    requires open.protocol == closed.protocol == "HTTP"
    requires open.allowedRoutes == Some(AllowedRoutes(Some(RouteNamespaces(Some("All"))), []))
    requires closed.allowedRoutes == None
    requires a.route.parentRefs == b.route.parentRefs
         == [ParentReference(None, None, Some(gateway.meta.namespace), gateway.meta.name, None)]
    requires b.route.namespace == gateway.meta.namespace != a.route.namespace
    requires a.route.hostnames == b.route.hostnames == [open.hostname.GetOr("")]
    requires open.hostname.Some? && closed.hostname.Some? && open.hostname.value != "" && closed.hostname.value != ""
    requires !HostnamesOverlap(closed.hostname.value, open.hostname.value)
    requires exists key :: SharedKey(key, a.matches, b.matches)
    ensures InConflict([gateway], a, b) && !InConflict([gateway], b, a)
  {
    hide SharedKey, HasKey;
    var ctx, host := [gateway], open.hostname.value;
    var owner := ObjectRef(GATEWAY, gateway.meta.namespace, gateway.meta.name);
    var at := Attachment(owner, open.name);
    var first, second := ListenerFrom(owner, open), ListenerFrom(owner, closed);
    assert ctx[..0] == [] && ListenersUnder([], owner) == [];
    assert ListenersUnder(ctx, owner) == [first, second];
    OnlyParent(a.route, owner, at);
    OnlyParent(b.route, owner, at);
    assert !Admits(second, a.route.namespace) && Admits(first, a.route.namespace) && Admits(second, b.route.namespace);
    assert [first, second][..1] == [first];
    assert LastAdmitting([first], open.name, a.route.namespace) == Some(first);
    assert LastAdmitting([first, second], open.name, a.route.namespace) == Some(first);
    assert ListenersUnder(ctx, at.owner) == [first, second];
    assert AttachedAt(a.route, ctx, at) == Some(first);
    assert AttachedAt(b.route, ctx, at) == Some(second);
    HostOverlapsItself(host);
    assert BothClaim(ctx, a, b, at, host);
    forall at', h
      ensures !BothClaim(ctx, b, a, at', h)
    {
      OnlyParent(b.route, owner, at');
      if AttachedAt(b.route, ctx, at').Some? && at' != at {
        LastAdmittingIsNamed([first, second], at'.listener, b.route.namespace);
      }
    }
  }

  lemma OnlyParent(route: Route, owner: ObjectRef, at: Attachment)
    requires owner.kind == GATEWAY
    requires route.parentRefs == [ParentReference(None, None, Some(owner.namespace), owner.name, None)]
    ensures (exists p :: p in ParentList(route) && Reaches(p, at)) <==> at.owner == owner
  {
    assert ParentList(route)[0] in ParentList(route);
  }

  lemma HostOverlapsItself(h: string)
    ensures HostnamesOverlap(h, h)
  {
  }

  // Counting

  lemma CandidateIsHTTPRoute(obj: Object)
    ensures CandidateOf(obj).Some? ==> CandidateOf(obj).value.id.kind == HTTP_ROUTE
  {
  }

  /** Different HTTPRoute identities sort strictly one way. */
  lemma SortsOneWay(a: ObjectRef, b: ObjectRef)
    requires a.kind == b.kind && a != b
    ensures SortsBefore(a, b) != SortsBefore(b, a)
  {
    Strings.LessTrichotomy(a.namespace, b.namespace);
    Strings.LessTrichotomy(a.name, b.name);
  }

  /** A pair of HTTPRoutes of different identity that no precedence rule decides between. */
  ghost predicate Undecided(ctx: Context, i: int, j: int) {
    && 0 <= i < |ctx| && 0 <= j < |ctx|
    && CandidateOf(ctx[i]).Some? && CandidateOf(ctx[j]).Some?
    && var a, b := CandidateOf(ctx[i]).value, CandidateOf(ctx[j]).value;
    && a.id != b.id && !SeparatedByAge(a, b) && InConflict(ctx, a, b)
  }

  ghost function UndecidedPairs(ctx: Context): set<(int, int)> {
    set i, j | 0 <= i < |ctx| && 0 <= j < |ctx| && i < j && Undecided(ctx, i, j) :: (i, j)
  }

  /** Exactly one member of an undecided pair is reported, the one that sorts later; nothing else is. */
  lemma ReportedOnceByLater(ctx: Context, i: int, j: int)
    requires HostsAgree(ctx) && 0 <= i < |ctx| && 0 <= j < |ctx|
    ensures Undecided(ctx, i, j) ==> Reported(ctx, ctx[i], ctx[j]) != Reported(ctx, ctx[j], ctx[i])
    ensures Reported(ctx, ctx[i], ctx[j]) <==>
              Undecided(ctx, i, j) && SortsBefore(CandidateOf(ctx[j]).value.id, CandidateOf(ctx[i]).value.id)
    ensures Undecided(ctx, i, j) <==> Undecided(ctx, j, i)
  {
    hide CandidateOf, InConflict, SortsBefore;
    CandidateIsHTTPRoute(ctx[i]);
    CandidateIsHTTPRoute(ctx[j]);
    if CandidateOf(ctx[i]).Some? && CandidateOf(ctx[j]).Some? {
      var a, b := CandidateOf(ctx[i]).value, CandidateOf(ctx[j]).value;
      ConflictIsMutual(ctx, a, b);
      if a.id != b.id {
        SortsOneWay(a.id, b.id);
      }
    }
  }

  ghost function ReportRow(ctx: Context, i: int): set<int>
    requires 0 <= i < |ctx|
  {
    set j | 0 <= j < |ctx| && Reported(ctx, ctx[i], ctx[j])
  }

  ghost function ReportRows(ctx: Context): seq<set<int>> {
    seq(|ctx|, i requires 0 <= i < |ctx| => ReportRow(ctx, i))
  }

  /** CheckFunc yields one diagnostic per entry of its object's row. */
  lemma RowIsRivals(ctx: Context, i: int)
    requires 0 <= i < |ctx|
    ensures |Rivals(ctx, ctx[i], |ctx|)| == |ReportRow(ctx, i)|
  {
    hide Reported, Rivals;
    RivalsAre(ctx, ctx[i], |ctx|);
    Counting.DistinctSize(Rivals(ctx, ctx[i], |ctx|), ReportRow(ctx, i));
  }

  lemma CellsAreReports(ctx: Context)
    ensures forall i, j :: (i, j) in Counting.Cells(ReportRows(ctx)) <==>
                             0 <= i < |ctx| && 0 <= j < |ctx| && Reported(ctx, ctx[i], ctx[j])
  {
    hide Reported;
    Counting.CellsAre(ReportRows(ctx));
    forall i, j
      ensures (i, j) in Counting.Cells(ReportRows(ctx)) <==>
                0 <= i < |ctx| && 0 <= j < |ctx| && Reported(ctx, ctx[i], ctx[j])
    {
      assert 0 <= i < |ctx| ==> ReportRows(ctx)[i] == ReportRow(ctx, i);
    }
  }

  lemma PairOfReport(ctx: Context, i: int, j: int)
    requires HostsAgree(ctx) && 0 <= i < |ctx| && 0 <= j < |ctx| && Reported(ctx, ctx[i], ctx[j])
    ensures SortedPair((i, j)) in UndecidedPairs(ctx) && !Reported(ctx, ctx[j], ctx[i])
  {
    hide Reported, Undecided, HostsAgree;
    ReportedOnceByLater(ctx, i, j);
    NotReportedAgainstItself(ctx, i);
  }

  lemma ReportOfPair(ctx: Context, i: int, j: int) returns (c: (int, int))
    requires HostsAgree(ctx) && (i, j) in UndecidedPairs(ctx)
    ensures 0 <= c.0 < |ctx| && 0 <= c.1 < |ctx| && Reported(ctx, ctx[c.0], ctx[c.1]) && SortedPair(c) == (i, j)
  {
    hide Reported, Undecided, HostsAgree;
    ReportedOnceByLater(ctx, i, j);
    c := if Reported(ctx, ctx[i], ctx[j]) then (i, j) else (j, i);
  }

  /** Over a whole run there are as many diagnostics as undecided pairs of HTTPRoutes. */
  lemma ReportsCountUndecidedPairs(ctx: Context)
    requires HostsAgree(ctx)
    ensures Counting.Total(ReportRows(ctx)) == |UndecidedPairs(ctx)|
  {
    hide Reported, UndecidedPairs, HostsAgree;
    var cells := Counting.Cells(ReportRows(ctx));
    Counting.TotalCountsCells(ReportRows(ctx));
    CellsAreReports(ctx);
    hide ReportRows;
    var toPair := map c | c in cells :: SortedPair(c);
    forall c | c in cells
      ensures SortedPair(c) in UndecidedPairs(ctx) && (c.1, c.0) !in cells
    {
      PairOfReport(ctx, c.0, c.1);
    }
    forall p | p in UndecidedPairs(ctx)
      ensures p in toPair.Values
    {
      var c := ReportOfPair(ctx, p.0, p.1);
      assert c in toPair && toPair[c] == p;
    }
    assert Counting.Injective(toPair) by {
      forall c, d | c in toPair && d in toPair && toPair[c] == toPair[d]
        ensures c == d
      {
        assert d == c || d == (c.1, c.0);
      }
    }
    assert toPair.Values == UndecidedPairs(ctx);
    Counting.SameSize(toPair, cells, UndecidedPairs(ctx));
  }

  function SortedPair(c: (int, int)): (int, int) {
    if c.0 < c.1 then c else (c.1, c.0)
  }

  lemma NotReportedAgainstItself(ctx: Context, i: int)
    requires 0 <= i < |ctx|
    ensures !Reported(ctx, ctx[i], ctx[i])
  {
  }
}
