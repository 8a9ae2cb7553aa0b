/** Where hostname specificity decides between two routes, and where it leaves a conflict open (Gateway API,
    HTTPRouteSpec.hostnames; pkg/templates/conflictingroutematch/template.go). */
module HostPrecedence {
  import opened Manifests
  import opened Parents
  import opened Attach
  import opened ConflictingRouteMatch
  import opened Strings

  /** Of two hostnames matching a request the exact one wins, then the longer one. */
  predicate Beats(p: string, h: string) {
    if IsWildcard(p) == IsWildcard(h) then |p| > |h| else IsWildcard(h)
  }

  predicate BestFor(h: string, hostnames: seq<string>, host: string) {
    forall p :: p in hostnames && Covers(p, host) ==> !Beats(p, h)
  }

  /** The best hostname of either route for this host is as good as the other's. */
  ghost predicate Tied(mine: seq<string>, theirs: seq<string>, host: string) {
    || (mine == [] && theirs == [])
    || exists p, q :: p in mine && q in theirs && TiedBy(mine, theirs, host, p, q)
  }

  predicate TiedBy(mine: seq<string>, theirs: seq<string>, host: string, p: string, q: string) {
    && Covers(p, host) && Covers(q, host) && !Beats(p, q) && !Beats(q, p)
    && BestFor(p, mine, host) && BestFor(q, theirs, host)
  }

  lemma EquallyGoodAreEqual(p: string, q: string, host: string)
    requires Covers(p, host) && Covers(q, host) && !Beats(p, q) && !Beats(q, p)
    ensures p == q
  {
    if IsWildcard(p) && IsWildcard(q) {
      assert p[1..] == q[1..];
      assert p == [p[0]] + p[1..] && q == [q[0]] + q[1..];
    }
  }

  /** The hostname leaves the host to chance: both claim it so, and nothing either route has is better there. */
  predicate LeavesOpen(mine: seq<string>, theirs: seq<string>, h: string, host: string) {
    || (mine == [] && theirs == [])
    || (Covers(h, host) && BestFor(h, mine, host) && BestFor(h, theirs, host))
  }

  /** Routes are tied on a host exactly when some hostname they both spell leaves it open. */
  lemma TiedIff(mine: seq<string>, theirs: seq<string>, host: string)
    ensures Tied(mine, theirs, host) <==> exists h :: Contested(h, mine, theirs) && LeavesOpen(mine, theirs, h, host)
  {
    hide Covers, Beats;
    if mine == [] && theirs == [] {
      assert Contested("", mine, theirs);
    } else {
      if p, q :| p in mine && q in theirs && TiedBy(mine, theirs, host, p, q) {
        EquallyGoodAreEqual(p, q, host);
        assert Contested(p, mine, theirs);
      }
      if h :| Contested(h, mine, theirs) && LeavesOpen(mine, theirs, h, host) {
        assert TiedBy(mine, theirs, host, h, h);
      }
    }
  }

  // Which hostnames leave some served host open

  /** What a listener serves under a hostname that meets its own. */
  function Narrower(l: Listener, h: string): string {
    var own := l.hostname.GetOr("");
    if own == "" then h
    else if !IsWildcard(own) then own
    else if !IsWildcard(h) || |h| >= |own| then h
    else own
  }

  predicate CoversAll(p: string, narrow: string) {
    if IsWildcard(narrow) then IsWildcard(p) && HasDNSSuffix(narrow[1..], p[1..]) else Covers(p, narrow)
  }

  /** `p` is better than `h` and covers whatever the listener serves under it. */
  predicate Outdoes(l: Listener, p: string, h: string) {
    Beats(p, h) && CoversAll(p, Narrower(l, h))
  }

  predicate OpenAt(l: Listener, mine: seq<string>, theirs: seq<string>, h: string, host: string) {
    !IsWildcard(host) && ListenerServes(l, host) && LeavesOpen(mine, theirs, h, host)
  }

  /** Some hostname of either route outdoes this one. */
  ghost predicate Decided(l: Listener, mine: seq<string>, theirs: seq<string>, h: string) {
    exists p :: (p in mine || p in theirs) && Outdoes(l, p, h)
  }

  /** An empty hostname in a list is claimed as if it stood for everything served; where the listener names a host, it
      meets nothing there. */
  predicate Spurious(l: Listener, mine: seq<string>, h: string) {
    h == "" && mine != [] && l.hostname.GetOr("") != ""
  }

  lemma EmptyClaimSpuriousIff(l: Listener, mine: seq<string>)
    requires mine != []
    ensures Servable(l, "")
    ensures Spurious(l, mine, "") <==> !Intersects(l, [""])
  {
  }

  lemma ServedIsNarrower(l: Listener, h: string, host: string)
    requires Intersects(l, [h]) && !IsWildcard(host)
    ensures ListenerServes(l, host) && Covers(h, host) <==> Covers(Narrower(l, h), host)
  {
    var own := l.hostname.GetOr("");
    assert h in [h];
    if own != "" && IsWildcard(own) && IsWildcard(h) {
      WildcardsNest(own, h, host);
    }
  }

  lemma WildcardsNest(a: string, b: string, host: string)
    requires IsWildcard(a) && IsWildcard(b) && HostnamesOverlap(a, b)
    ensures WildcardMatches(a, host) && WildcardMatches(b, host) <==> WildcardMatches(if |b| >= |a| then b else a, host)
  {
    var (longer, shorter) := if |b| >= |a| then (b, a) else (a, b);
    if |a| == |b| {
      assert a[1..] == b[1..];
    }
    if HasDNSSuffix(host, longer[1..]) {
      SuffixTransitive(host, shorter[1..], longer[1..]);
    }
  }

  lemma CoveredByAll(p: string, narrow: string, host: string)
    requires CoversAll(p, narrow) && Covers(narrow, host)
    ensures Covers(p, host)
  {
    if IsWildcard(narrow) {
      SuffixTransitive(host, p[1..], narrow[1..]);
    }
  }

  function TotalLength(hostnames: seq<string>): nat {
    if hostnames == [] then 0 else |hostnames[0]| + TotalLength(hostnames[1..])
  }

  lemma {:induction false} NoneLonger(hostnames: seq<string>)
    ensures forall p :: p in hostnames ==> |p| <= TotalLength(hostnames)
  {
    if hostnames != [] {
      NoneLonger(hostnames[1..]);
      assert hostnames == [hostnames[0]] + hostnames[1..];
    }
  }

  /** A host under the pattern with a first label longer than `n`. */
  function HostUnder(pattern: string, n: nat): string {
    if IsWildcard(pattern) then Xs(n) + pattern[1..] else pattern
  }

  lemma HostUnderIsCovered(pattern: string, n: nat)
    ensures !IsWildcard(HostUnder(pattern, n)) && Covers(pattern, HostUnder(pattern, n))
  {
    if IsWildcard(pattern) {
      var host := HostUnder(pattern, n);
      assert host[0] == Xs(n)[0];
      assert host[|host| - |pattern| + 1..] == pattern[1..];
    }
  }

  /** A fresh label escapes every pattern that does not cover all. */
  lemma OnlyCoveredByAll(p: string, narrow: string, n: nat)
    requires |p| <= n && Covers(p, HostUnder(narrow, n))
    ensures CoversAll(p, narrow)
  {
    var host := HostUnder(narrow, n);
    if IsWildcard(narrow) {
      HostUnderIsCovered(narrow, n);
      assert IsWildcard(p);
      var at := |host| - |p| + 1;
      assert host[at..] == p[1..] && host[at] == '.';
      assert forall k :: 0 <= k < |Xs(n)| ==> host[k] == Xs(n)[k] && Xs(n)[k] in Xs(n);
      SuffixesOfOneHost(host, p[1..], narrow[1..]);
    }
  }

  /** A hostname both routes spell leaves some host the listener serves open if and only if no better one of either
      route covers everything the listener serves under it, and it is not empty where the listener names a host. */
  lemma OpenIffUndecided(l: Listener, mine: seq<string>, theirs: seq<string>, h: string)
    requires Contested(h, mine, theirs) && Servable(l, h)
    ensures (exists host :: OpenAt(l, mine, theirs, h, host)) <==>
              !Decided(l, mine, theirs, h) && !Spurious(l, mine, h)
  {
    SpuriousIsIdle(l, mine, theirs, h);
    hide Covers, IsWildcard, Beats, ListenerServes, HostUnder, CoversAll, Narrower;
    if mine == [] && theirs == [] {
      var host := SomeServedHost(l);
      assert OpenAt(l, mine, theirs, h, host);
    } else if !Spurious(l, mine, h) {
      var narrow, n := Narrower(l, h), TotalLength(mine) + TotalLength(theirs);
      var host := HostUnder(narrow, n);
      HostUnderIsCovered(narrow, n);
      ServedIsNarrower(l, h, host);
      NoneLonger(mine);
      NoneLonger(theirs);
      if !Decided(l, mine, theirs, h) {
        forall p | (p in mine || p in theirs) && Covers(p, host)
          ensures !Beats(p, h)
        {
          OnlyCoveredByAll(p, narrow, n);
        }
        assert OpenAt(l, mine, theirs, h, host);
      }
      forall p, other | OpenAt(l, mine, theirs, h, other) && (p in mine || p in theirs)
        ensures !Outdoes(l, p, h)
      {
        ServedIsNarrower(l, h, other);
        if CoversAll(p, narrow) {
          CoveredByAll(p, narrow, other);
        }
      }
    }
  }

  lemma SpuriousIsIdle(l: Listener, mine: seq<string>, theirs: seq<string>, h: string)
    requires Contested(h, mine, theirs)
    ensures Spurious(l, mine, h) ==> forall host :: !OpenAt(l, mine, theirs, h, host)
  {
  }

  lemma SomeServedHost(l: Listener) returns (host: string)
    ensures !IsWildcard(host) && ListenerServes(l, host)
  {
    var own := l.hostname.GetOr("");
    host := if own == "" then "x" else HostOf(own);
    HostOfIsCovered(own);
  }

  /** An exact hostname is never decided. */
  lemma ExactNamesStayOpen(l: Listener, mine: seq<string>, theirs: seq<string>, h: string)
    requires Contested(h, mine, theirs) && Servable(l, h) && h != "" && !IsWildcard(h)
    ensures !Decided(l, mine, theirs, h)
  {
    assert h in [h];
    assert Narrower(l, h) == h;
  }

  /** A wildcard is, on a listener of one exact hostname that either route also names. */
  lemma ExactListenerDecidesWildcards(l: Listener, mine: seq<string>, theirs: seq<string>, h: string)
    requires l.hostname.Some? && l.hostname.value != "" && !IsWildcard(l.hostname.value)
    requires IsWildcard(h) && (l.hostname.value in mine || l.hostname.value in theirs)
    ensures Decided(l, mine, theirs, h)
  {
    assert Outdoes(l, l.hostname.value, h);
  }

  /** The case in point: both claim the wildcard and it is reported, but the only host served is the rival's by name. */
  lemma WildcardReportedThoughDecided(l: Listener)
    requires l.hostname == Some("x.a.com")
    ensures var mine, theirs := ["*.a.com"], ["*.a.com", "x.a.com"];
            && Contested("*.a.com", mine, theirs) && Servable(l, "*.a.com")
            && forall host :: !OpenAt(l, mine, theirs, "*.a.com", host)
  {
    var mine, theirs := ["*.a.com"], ["*.a.com", "x.a.com"];
    assert "x.a.com"[1..] == ".a.com" == "*.a.com"[1..];
    assert HostnamesOverlap("x.a.com", "*.a.com");
    assert "*.a.com" in ["*.a.com"] && "x.a.com" in theirs && "*.a.com" in theirs;
    ExactListenerDecidesWildcards(l, mine, theirs, "*.a.com");
    OpenIffUndecided(l, mine, theirs, "*.a.com");
  }

  // Between two routes

  /** The routes attach to one listener, which serves the host, and neither hostname list decides it. */
  ghost predicate TiedAt(ctx: Context, a: Candidate, b: Candidate, at: Attachment, host: string) {
    && AttachedAt(a.route, ctx, at).Some? && AttachedAt(b.route, ctx, at).Some?
    && !IsWildcard(host) && ListenerServes(AttachedAt(a.route, ctx, at).value, host)
    && Tied(a.route.hostnames, b.route.hostnames, host)
  }

  /** What is claimed, and not as an empty hostname where the listener names a host. */
  ghost predicate EarnestClaim(ctx: Context, a: Candidate, b: Candidate, at: Attachment, h: string) {
    BothClaim(ctx, a, b, at, h) && !Spurious(AttachedAt(a.route, ctx, at).value, a.route.hostnames, h)
  }

  /** What is claimed in earnest, and outdone by no hostname of either route. */
  ghost predicate OpenClaim(ctx: Context, a: Candidate, b: Candidate, at: Attachment, h: string) {
    && EarnestClaim(ctx, a, b, at, h)
    && !Decided(AttachedAt(a.route, ctx, at).value, a.route.hostnames, b.route.hostnames, h)
  }

  ghost predicate SomeHostTied(ctx: Context, a: Candidate, b: Candidate, at: Attachment) {
    exists host :: TiedAt(ctx, a, b, at, host)
  }

  ghost predicate SomeClaimOpen(ctx: Context, a: Candidate, b: Candidate, at: Attachment) {
    exists h :: OpenClaim(ctx, a, b, at, h)
  }

  /** The hostnames leave some host undecided at a listener if and only if some claim the check finds there is outdone
      by no hostname of either route and not spurious: no such host is missed, and no other claim leaves one. */
  lemma TiedIffOpenClaim(ctx: Context, a: Candidate, b: Candidate, at: Attachment)
    ensures SomeHostTied(ctx, a, b, at) <==> SomeClaimOpen(ctx, a, b, at)
  {
    hide AttachedAt, Tied, Decided, LeavesOpen, Servable, ListenerServes;
    var mine, theirs := a.route.hostnames, b.route.hostnames;
    if host :| TiedAt(ctx, a, b, at, host) {
      var l := AttachedAt(a.route, ctx, at).value;
      TiedIff(mine, theirs, host);
      var h :| Contested(h, mine, theirs) && LeavesOpen(mine, theirs, h, host);
      OpenIsServable(l, mine, theirs, h, host);
      OpenIffUndecided(l, mine, theirs, h);
      assert OpenClaim(ctx, a, b, at, h);
    }
    if h :| OpenClaim(ctx, a, b, at, h) {
      var l := AttachedAt(a.route, ctx, at).value;
      OpenIffUndecided(l, mine, theirs, h);
      var host :| OpenAt(l, mine, theirs, h, host);
      TiedIff(mine, theirs, host);
      assert TiedAt(ctx, a, b, at, host);
    }
  }

  lemma OpenIsServable(l: Listener, mine: seq<string>, theirs: seq<string>, h: string, host: string)
    requires Contested(h, mine, theirs) && OpenAt(l, mine, theirs, h, host)
    ensures Servable(l, h)
  {
    hide IsWildcard, Beats;
    if h != "" {
      assert h in [h];
      assert SharedHost(l, [h], host);
      IntersectsIffSharedHost(l, [h]);
    }
  }
}
