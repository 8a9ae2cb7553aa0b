/** What precedence among hostnames and among matches comes to: a better hostname is a narrower one, and a better match
    comes first in the Gateway API's list of criteria (Gateway API, HTTPRouteRule.matches). */
module PrecedenceTerms {
  import opened Manifests
  import opened Strings
  import opened Attach
  import opened HostPrecedence
  import opened RequestPaths
  import opened MatchPrecedence
  import opened RouteMatch
  import opened MatchTerms

  // Hostnames

  /** Every host of `p` is one of `h`, and not the other way around. */
  ghost predicate IsNarrower(p: string, h: string) {
    (forall x :: Covers(p, x) ==> Covers(h, x)) && exists x :: Covers(h, x) && !Covers(p, x)
  }

  /** Of two hostnames that cover a host, one beats the other if and only if it covers fewer hosts. */
  lemma BetterIsNarrower(p: string, h: string, host: string)
    requires Covers(p, host) && Covers(h, host)
    ensures Beats(p, h) <==> IsNarrower(p, h)
  {
    if IsWildcard(p) && IsWildcard(h) {
      WildcardsCompare(p, h, host);
    } else if IsWildcard(h) {
      var x := HostUnder(h, |p|);
      HostUnderIsCovered(h, |p|);
      assert x != p;
    } else if IsWildcard(p) {
      var x := HostUnder(p, |h|);
      HostUnderIsCovered(p, |h|);
      assert x != h;
    }
  }

  lemma LongerIsWithin(p: string, h: string, host: string)
    requires IsWildcard(p) && IsWildcard(h) && Covers(p, host) && Covers(h, host) && |p| >= |h|
    ensures forall x :: Covers(p, x) ==> Covers(h, x)
  {
    SuffixesOfOneHost(host, h[1..], p[1..]);
    forall x | Covers(p, x)
      ensures Covers(h, x)
    {
      SuffixTransitive(x, h[1..], p[1..]);
    }
  }

  lemma ShorterReachesBeyond(p: string, h: string)
    requires IsWildcard(p) && IsWildcard(h) && |p| > |h|
    ensures exists x :: Covers(h, x) && !Covers(p, x)
  {
    var x := "x" + h[1..];
    assert x[1..] == h[1..] && |x| == |h|;
    assert Covers(h, x) && !Covers(p, x);
  }

  lemma WildcardsCompare(p: string, h: string, host: string)
    requires IsWildcard(p) && IsWildcard(h) && Covers(p, host) && Covers(h, host)
    ensures |p| > |h| <==> IsNarrower(p, h)
  {
    if |p| > |h| {
      LongerIsWithin(p, h, host);
      ShorterReachesBeyond(p, h);
    } else {
      LongerIsWithin(h, p, host);
    }
  }

  // Matches

  /** The criteria in their order: an exact path, the length of a prefix, a method, headers, parameters. */
  function Criteria(m: HTTPRouteMatch): (r: seq<nat>)
    ensures |r| == 5
  {
    [if FilledType(m.path) == "Exact" then 1 else 0,
     if FilledType(m.path) == "Exact" then 0 else |FilledPath(m.path)|,
     if m.method_.Some? then 1 else 0, |m.headers|, |m.queryParams|]
  }

  /** The first criterion on which they differ decides. */
  predicate DecidesAt(a: seq<nat>, b: seq<nat>, k: int)
    requires |a| == |b|
  {
    0 <= k < |a| && a[k] > b[k] && forall i :: 0 <= i < k ==> a[i] == b[i]
  }

  lemma OutranksIff(p: HTTPRouteMatch, m: HTTPRouteMatch)
    requires StandardPath(p) && StandardPath(m)
    ensures Outranks(p, m) <==> exists k :: DecidesAt(Criteria(p), Criteria(m), k)
  {
    FilledFields(p);
    FilledFields(m);
    hide FilledType, FilledPath, PathType, PathValue;
    var a, b := Criteria(p), Criteria(m);
    assert DecidesAt(a, b, 0) <==> a[0] > b[0];
    assert DecidesAt(a, b, 1) <==> a[0] == b[0] && a[1] > b[1];
    assert DecidesAt(a, b, 2) <==> a[0] == b[0] && a[1] == b[1] && a[2] > b[2];
    assert DecidesAt(a, b, 3) <==> a[0] == b[0] && a[1] == b[1] && a[2] == b[2] && a[3] > b[3];
    assert DecidesAt(a, b, 4) <==> a[0] == b[0] && a[1] == b[1] && a[2] == b[2] && a[3] == b[3] && a[4] > b[4];
    assert forall k :: DecidesAt(a, b, k) ==> k == 0 || k == 1 || k == 2 || k == 3 || k == 4;
    hide DecidesAt;
  }
}
