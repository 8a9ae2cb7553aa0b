/** What a conflicting-route-match report says about the requests of the two routes
    (pkg/templates/conflictingroutematch/template.go). */
module AmbiguousRoutes {
  import opened Manifests
  import opened Routes
  import opened Parents
  import opened Attach
  import opened RouteMatch
  import opened MatchRequests
  import opened MatchPrecedence
  import opened ConflictingRouteMatch
  import opened ConflictingRouteRun
  import opened HostPrecedence
  import opened RequestPaths

  /** The matches the rules declare, or the match of a rule that declares none. */
  function Declared(rules: seq<HTTPRule>): seq<HTTPRouteMatch> {
    if rules == [] then [] else Declared(rules[..|rules| - 1]) + DeclaredBy(rules[|rules| - 1])
  }

  function DeclaredBy(rule: HTTPRule): seq<HTTPRouteMatch> {
    if rule.matches == [] then [EVERY_REQUEST] else rule.matches
  }

  lemma {:induction false} ListedAreDeclared(rules: seq<HTTPRule>)
    ensures |MatchList(rules)| == |Declared(rules)|
    ensures forall i :: 0 <= i < |Declared(rules)| ==> MatchList(rules)[i] == Canonical(Declared(rules)[i])
  {
    hide Canonical;
    if rules != [] {
      ListedAreDeclared(rules[..|rules| - 1]);
    }
  }

  predicate IsHTTPRoute(obj: Object) {
    obj.HTTPRouteV1? || obj.HTTPRouteV1Beta1?
  }

  lemma CandidateFields(obj: Object)
    requires CandidateOf(obj).Some?
    ensures IsHTTPRoute(obj)
    ensures CandidateOf(obj).value.matches == MatchList(obj.httpRules)
    ensures CandidateOf(obj).value.route.hostnames == obj.hostnames
  {
    hide MatchList, HTTPBackends, GRPCBackends, StreamBackends;
  }

  ghost predicate AllWellSpelled(rules: seq<HTTPRule>) {
    forall m :: m in Declared(rules) ==> WellSpelled(m)
  }

  /** The rules declare a match each, selecting exactly the same requests. */
  ghost predicate ShareAMatch(mine: seq<HTTPRule>, theirs: seq<HTTPRule>) {
    exists m, n :: m in Declared(mine) && n in Declared(theirs) && SelectTheSame(m, n)
  }

  lemma HasKeyIff(rules: seq<HTTPRule>, key: string)
    ensures HasKey(MatchList(rules), key) <==> exists m :: m in Declared(rules) && KeyOf(m) == key
  {
    ListedAreDeclared(rules);
    hide MatchList, Declared, KeyOf;
    if m :| m in Declared(rules) && KeyOf(m) == key {
      var i :| 0 <= i < |Declared(rules)| && Declared(rules)[i] == m;
      assert MatchList(rules)[i] in MatchList(rules);
    }
    if x :| x in MatchList(rules) && x.key == key {
      var i :| 0 <= i < |MatchList(rules)| && MatchList(rules)[i] == x;
      assert Declared(rules)[i] in Declared(rules);
    }
  }

  lemma KeysSharedIffMatchShared(mine: seq<HTTPRule>, theirs: seq<HTTPRule>)
    requires AllWellSpelled(mine) && AllWellSpelled(theirs)
    ensures (exists key :: SharedKey(key, MatchList(mine), MatchList(theirs))) <==> ShareAMatch(mine, theirs)
  {
    hide MatchList, Declared, KeyOf, SelectTheSame, WellSpelled, HasKey;
    if key :| SharedKey(key, MatchList(mine), MatchList(theirs)) {
      HasKeyIff(mine, key);
      HasKeyIff(theirs, key);
      var m :| m in Declared(mine) && KeyOf(m) == key;
      var n :| n in Declared(theirs) && KeyOf(n) == key;
      EqualKeysIffSameRequests(m, n);
    }
    if m, n :| m in Declared(mine) && n in Declared(theirs) && SelectTheSame(m, n) {
      EqualKeysIffSameRequests(m, n);
      HasKeyIff(mine, KeyOf(m));
      HasKeyIff(theirs, KeyOf(m));
      assert SharedKey(KeyOf(m), MatchList(mine), MatchList(theirs));
    }
  }

  /** A host some listener serves to both routes. */
  ghost predicate SharedByBoth(ctx: Context, a: Candidate, b: Candidate, at: Attachment, host: string) {
    && AttachedAt(a.route, ctx, at).Some? && AttachedAt(b.route, ctx, at).Some?
    && !IsWildcard(host) && ListenerServes(AttachedAt(a.route, ctx, at).value, host)
    && RouteClaims(a.route.hostnames, host) && RouteClaims(b.route.hostnames, host)
  }

  lemma ClaimIsSharedHost(ctx: Context, a: Candidate, b: Candidate, at: Attachment, h: string) returns (host: string)
    requires EarnestClaim(ctx, a, b, at, h)
    ensures SharedByBoth(ctx, a, b, at, host)
  {
    hide AttachedAt, Covers, HostnamesOverlap, ListenerServes, IsWildcard;
    var l := AttachedAt(a.route, ctx, at).value;
    var claimed := if a.route.hostnames == [] then [] else [h];
    assert Intersects(l, claimed);
    IntersectsIffSharedHost(l, claimed);
    host :| SharedHost(l, claimed, host);
    assert claimed != [] ==> Covers(h, host);
  }

  /** Two routes of well-spelled matches conflict exactly when they claim a hostname equally on a listener that can
      serve it, and each declares a match selecting exactly the requests of the other's. */
  lemma ConflictIffAmbiguous(ctx: Context, self: Object, other: Object)
    requires CandidateOf(self).Some? && CandidateOf(other).Some?
    requires IsHTTPRoute(self) ==> AllWellSpelled(self.httpRules)
    requires IsHTTPRoute(other) ==> AllWellSpelled(other.httpRules)
    ensures IsHTTPRoute(self) && IsHTTPRoute(other)
    ensures InConflict(ctx, CandidateOf(self).value, CandidateOf(other).value) <==>
              && (exists at, h :: BothClaim(ctx, CandidateOf(self).value, CandidateOf(other).value, at, h))
              && ShareAMatch(self.httpRules, other.httpRules)
  {
    hide CandidateOf, BothClaim, SharedKey, AllWellSpelled, ShareAMatch, MatchList;
    CandidateFields(self);
    CandidateFields(other);
    KeysSharedIffMatchShared(self.httpRules, other.httpRules);
  }

  /** Neither the hostnames nor the matches decide between the two routes: they are tied on some host at one listener,
      and their best matches are on some request. */
  ghost predicate Ambiguous(ctx: Context, self: Object, other: Object)
    requires CandidateOf(self).Some? && CandidateOf(other).Some? && IsHTTPRoute(self) && IsHTTPRoute(other)
  {
    && (exists at :: SomeHostTied(ctx, CandidateOf(self).value, CandidateOf(other).value, at))
    && LeftTied(Declared(self.httpRules), Declared(other.httpRules))
  }

  ghost predicate SomeOpenClaim(ctx: Context, a: Candidate, b: Candidate) {
    exists at :: SomeClaimOpen(ctx, a, b, at)
  }

  lemma OpenClaimIsClaim(ctx: Context, a: Candidate, b: Candidate)
    ensures SomeOpenClaim(ctx, a, b) ==> exists at, h :: BothClaim(ctx, a, b, at, h)
  {
    hide BothClaim, Decided;
  }

  lemma HostTiedIff(ctx: Context, a: Candidate, b: Candidate)
    ensures (exists at :: SomeHostTied(ctx, a, b, at)) <==> SomeOpenClaim(ctx, a, b)
  {
    forall at
      ensures SomeHostTied(ctx, a, b, at) <==> SomeClaimOpen(ctx, a, b, at)
    {
      TiedIffOpenClaim(ctx, a, b, at);
    }
    hide SomeHostTied, SomeClaimOpen;
  }

  /** Two routes are ambiguous exactly when some claim is open and two of their matches leave a request tied. */
  lemma AmbiguousIff(ctx: Context, self: Object, other: Object)
    requires CandidateOf(self).Some? && CandidateOf(other).Some? && IsHTTPRoute(self) && IsHTTPRoute(other)
    requires StandardPaths(Declared(self.httpRules)) && StandardPaths(Declared(other.httpRules))
    ensures Ambiguous(ctx, self, other) <==>
              && SomeOpenClaim(ctx, CandidateOf(self).value, CandidateOf(other).value)
              && exists m, n :: LeavesTie(Declared(self.httpRules), Declared(other.httpRules), m, n)
  {
    hide CandidateOf, Declared, StandardPaths, LeftTied, LeavesTie, SomeOpenClaim, SomeHostTied;
    HostTiedIff(ctx, CandidateOf(self).value, CandidateOf(other).value);
    LeftTiedIff(Declared(self.httpRules), Declared(other.httpRules));
  }

  /** The check is silent about an ambiguous pair exactly when no match of the one selects the requests of a match of
      the other. */
  lemma SilentIffNoMatchShared(ctx: Context, self: Object, other: Object)
    requires CandidateOf(self).Some? && CandidateOf(other).Some? && IsHTTPRoute(self) && IsHTTPRoute(other)
    requires AllWellSpelled(self.httpRules) && AllWellSpelled(other.httpRules) && Ambiguous(ctx, self, other)
    ensures !InConflict(ctx, CandidateOf(self).value, CandidateOf(other).value) <==>
              !ShareAMatch(self.httpRules, other.httpRules)
  {
    hide CandidateOf, AllWellSpelled, ShareAMatch, SomeHostTied, SomeOpenClaim, LeftTied, InConflict, BothClaim,
         Declared;
    HostTiedIff(ctx, CandidateOf(self).value, CandidateOf(other).value);
    OpenClaimIsClaim(ctx, CandidateOf(self).value, CandidateOf(other).value);
    ConflictIffAmbiguous(ctx, self, other);
  }

  /** And a conflict is of an ambiguous pair exactly when some claim is open: the shared match always leaves a request
      tied. */
  lemma ConflictIsAmbiguousIff(ctx: Context, self: Object, other: Object)
    requires CandidateOf(self).Some? && CandidateOf(other).Some? && IsHTTPRoute(self) && IsHTTPRoute(other)
    requires AllWellSpelled(self.httpRules) && AllWellSpelled(other.httpRules)
    requires StandardPaths(Declared(self.httpRules)) && StandardPaths(Declared(other.httpRules))
    requires InConflict(ctx, CandidateOf(self).value, CandidateOf(other).value)
    ensures Ambiguous(ctx, self, other) <==> SomeOpenClaim(ctx, CandidateOf(self).value, CandidateOf(other).value)
  {
    hide CandidateOf, LeftTied, LeavesTie, SomeOpenClaim, InConflict, BothClaim, Declared, SelectTheSame, WellSpelled,
         Ambiguous;
    var mine, theirs := Declared(self.httpRules), Declared(other.httpRules);
    AmbiguousIff(ctx, self, other);
    ConflictIffAmbiguous(ctx, self, other);
    var m, n :| m in mine && n in theirs && SelectTheSame(m, n);
    SharedMatchLeavesTie(mine, theirs, m, n);
  }

  function OneRule(m: HTTPRouteMatch): seq<HTTPRule> {
    [HTTPRule(None, [m], [], [])]
  }

  lemma OneKey(m: HTTPRouteMatch, n: HTTPRouteMatch)
    requires KeyOf(m) != KeyOf(n)
    ensures !exists key :: SharedKey(key, MatchList(OneRule(m)), MatchList(OneRule(n)))
  {
    DeclaredAlone(m);
    DeclaredAlone(n);
    hide KeyOf, HasKey, Declared, MatchList, OneRule;
    forall key
      ensures !SharedKey(key, MatchList(OneRule(m)), MatchList(OneRule(n)))
    {
      HasKeyIff(OneRule(m), key);
      HasKeyIff(OneRule(n), key);
    }
  }

  /** What is missed, for one: any match narrowed by one header on either side, of different names. Of requests with
      both headers nothing decides, and no key is shared. */
  lemma DifferentHeadersAreMissed(m: HTTPRouteMatch, a: ValueMatch, b: ValueMatch)
    requires StandardPath(m) && HeaderCondition(a).name != HeaderCondition(b).name
    ensures var mine, theirs := OneRule(m.(headers := [a])), OneRule(m.(headers := [b]));
            && LeftTied(Declared(mine), Declared(theirs)) && !ShareAMatch(mine, theirs)
            && (Separable(m.(headers := [a])) && Separable(m.(headers := [b])) ==>
                  !exists key :: SharedKey(key, MatchList(mine), MatchList(theirs)))
  {
    var x, y := m.(headers := [a]), m.(headers := [b]);
    DeclaredAlone(x);
    DeclaredAlone(y);
    hide Declared, OneRule, LeavesTie, LeftTied, SelectTheSame, SameEffect, Same, Separable, KeyOf, SharedKey,
         MatchList;
    NarrowedApart(m, a, b);
    LeftTiedIff([x], [y]);
    SelectTheSameIff(x, y);
    if Separable(x) && Separable(y) {
      KeyIsCanonical(x, y);
      OneKey(x, y);
    }
  }

  lemma DeclaredAlone(m: HTTPRouteMatch)
    ensures Declared(OneRule(m)) == [m]
  {
    var rules := OneRule(m);
    assert rules[..0] == [];
    assert Declared(rules) == Declared(rules[..0]) + DeclaredBy(rules[0]);
  }

  lemma RankedApart(m: HTTPRouteMatch, n: HTTPRouteMatch)
    ensures LeftTied([m], [n]) ==> EqualRank(m, n)
  {
    hide Selects, EqualRank, Standard;
  }

  lemma SpellingsRank(m: HTTPRouteMatch)
    requires PathType(m) == PATH_PREFIX && !EndsInTwoSlashes(PathValue(m))
    ensures !EqualRank(m, WithPath(m, OtherSpelling(PathValue(m))))
  {
    assert |OtherSpelling(PathValue(m))| != |PathValue(m)|;
  }

  /** A shared match is missed where one route spells a prefix with the trailing slash and the other without; the count
      of characters is then all that decides between them. */
  lemma TrailingSlashIsMissed(m: HTTPRouteMatch)
    requires PathType(m) == PATH_PREFIX && !EndsInTwoSlashes(PathValue(m))
    ensures var mine, theirs := OneRule(m), OneRule(WithPath(m, OtherSpelling(PathValue(m))));
            && ShareAMatch(mine, theirs) && !LeftTied(Declared(mine), Declared(theirs))
            && !exists key :: SharedKey(key, MatchList(mine), MatchList(theirs))
  {
    var n := WithPath(m, OtherSpelling(PathValue(m)));
    PrefixSpelledTwice(m);
    SpellingsRank(m);
    RankedApart(m, n);
    DeclaredAlone(m);
    DeclaredAlone(n);
    OneKey(m, n);
    hide KeyOf, SelectTheSame, Same, WithPath, SharedKey, Declared, OneRule, MatchList, LeftTied, OtherSpelling,
         EqualRank;
  }

  lemma NamedClaimIsEarnest(ctx: Context, a: Candidate, b: Candidate, at: Attachment, h: string)
    requires BothClaim(ctx, a, b, at, h) && "" !in a.route.hostnames
    ensures EarnestClaim(ctx, a, b, at, h)
  {
    hide AttachedAt, Servable;
  }

  /** End to end: a reported pair has two matches selecting exactly the same requests, and wherever its claim is in
      earnest a host that both claim; nothing decides between the routes exactly when some claim is open. */
  lemma ReportMeansAmbiguous(ctx: Context, self: Object, other: Object)
    requires Reported(ctx, self, other)
    requires IsHTTPRoute(self) ==> AllWellSpelled(self.httpRules)
    requires IsHTTPRoute(other) ==> AllWellSpelled(other.httpRules)
    ensures IsHTTPRoute(self) && IsHTTPRoute(other)
    ensures var a, b := CandidateOf(self).value, CandidateOf(other).value;
            forall at, h :: EarnestClaim(ctx, a, b, at, h) ==> exists host :: SharedByBoth(ctx, a, b, at, host)
    ensures "" !in self.hostnames ==>
              exists at, host :: SharedByBoth(ctx, CandidateOf(self).value, CandidateOf(other).value, at, host)
    ensures ShareAMatch(self.httpRules, other.httpRules)
    ensures StandardPaths(Declared(self.httpRules)) && StandardPaths(Declared(other.httpRules)) ==>
              (Ambiguous(ctx, self, other) <==> SomeOpenClaim(ctx, CandidateOf(self).value, CandidateOf(other).value))
  {
    hide CandidateOf, BothClaim, SharedByBoth, ShareAMatch, AllWellSpelled, MatchList, Declared, StandardPaths,
         Ambiguous, SomeOpenClaim, InConflict, EarnestClaim;
    CandidateFields(self);
    CandidateFields(other);
    ConflictIffAmbiguous(ctx, self, other);
    var a, b := CandidateOf(self).value, CandidateOf(other).value;
    forall at, h | EarnestClaim(ctx, a, b, at, h)
      ensures exists host :: SharedByBoth(ctx, a, b, at, host)
    {
      var host := ClaimIsSharedHost(ctx, a, b, at, h);
    }
    var at, h :| BothClaim(ctx, a, b, at, h);
    if "" !in self.hostnames {
      NamedClaimIsEarnest(ctx, a, b, at, h);
    }
    if StandardPaths(Declared(self.httpRules)) && StandardPaths(Declared(other.httpRules)) {
      ConflictIsAmbiguousIff(ctx, self, other);
    }
  }
}
