/** When a listener accepts a route, and when two hostnames can ever meet (pkg/gatewayapi/attach.go). */
module Attach {
  import opened Manifests
  import opened Parents
  import opened Strings

  function RouteKindsFor(protocol: string): seq<string> {
    if protocol == "HTTP" || protocol == "HTTPS" then [HTTP_ROUTE, GRPC_ROUTE]
    else if protocol == "TLS" then [TLS_ROUTE]
    else if protocol == "TCP" then [TCP_ROUTE]
    else if protocol == "UDP" then [UDP_ROUTE]
    else []
  }

  predicate HasExplicitKinds(l: Listener) {
    l.allowed.Some? && |l.allowed.value.kinds| > 0
  }

  predicate IsGatewayAPIKind(k: RouteGroupKind) {
    k.group.None? || k.group.value == GATEWAY_API_GROUP
  }

  /** The kinds of the Gateway API group among a listener's allowedRoutes.kinds. */
  function OwnKinds(kinds: seq<RouteGroupKind>): (r: seq<string>)
    ensures forall k :: k in r <==> exists g :: g in kinds && IsGatewayAPIKind(g) && g.kind == k
  {
    if kinds == [] then []
    else
      var n := |kinds| - 1;
      assert kinds == kinds[..n] + [kinds[n]];
      OwnKinds(kinds[..n]) + if IsGatewayAPIKind(kinds[n]) then [kinds[n].kind] else []
  }

  function AcceptedKinds(l: Listener): seq<string> {
    if HasExplicitKinds(l) then OwnKinds(l.allowed.value.kinds) else RouteKindsFor(l.protocol)
  }

  /** No accepted kind at all means that gwlint cannot tell, and is read as accepting anything. */
  predicate Accepts(l: Listener, kind: string) {
    AcceptedKinds(l) == [] || kind in AcceptedKinds(l)
  }

  method AcceptsKind(l: Listener, kind: string) returns (ok: bool, kinds: seq<string>)
    ensures ok == Accepts(l, kind) && kinds == AcceptedKinds(l)
  {
    var accepted := RouteKindsFor(l.protocol);
    if l.allowed.Some? && |l.allowed.value.kinds| > 0 {
      accepted := [];
      var own := l.allowed.value.kinds;
      for i := 0 to |own|
        invariant accepted == OwnKinds(own[..i])
      {
        assert own[..i + 1][..i] == own[..i];
        if own[i].group.Some? && own[i].group.value != GATEWAY_API_GROUP {
          continue;
        }
        accepted := accepted + [own[i].kind];
      }
      assert own[..|own|] == own;
    }
    if accepted == [] {
      return true, [];
    }
    for i := 0 to |accepted|
      invariant kind !in accepted[..i]
    {
      if accepted[i] == kind {
        return true, accepted;
      }
    }
    return false, accepted;
  }

  predicate AcceptsNamespace(l: Listener, routeNamespace: string) {
    if l.allowed.None? || l.allowed.value.namespaces.None? || l.allowed.value.namespaces.value.from.None? then
      routeNamespace == l.owner.namespace
    else if l.allowed.value.namespaces.value.from.value == "Same" then
      routeNamespace == l.owner.namespace
    else
      true
  }

  function NamespacePolicy(l: Listener): string {
    if l.allowed.None? || l.allowed.value.namespaces.None? then "Same"
    else l.allowed.value.namespaces.value.from.GetOr("Same")
  }

  /** Refusing a namespace takes the Same policy and another namespace. */
  lemma RefusesNamespaceIff(l: Listener, routeNamespace: string)
    ensures !AcceptsNamespace(l, routeNamespace) <==>
              NamespacePolicy(l) == "Same" && routeNamespace != l.owner.namespace
  {
  }

  // Hostnames

  predicate IsWildcard(h: string) {
    |h| > 2 && h[0] == '*' && h[1] == '.'
  }

  predicate HasDNSSuffix(host: string, suffix: string) {
    |host| >= |suffix| && host[|host| - |suffix|..] == suffix
  }

  predicate WildcardMatches(wildcard: string, host: string)
    requires wildcard != ""
  {
    var suffix := wildcard[1..];
    |host| > |suffix| && HasDNSSuffix(host, suffix)
  }

  predicate HostnamesOverlap(a: string, b: string) {
    if IsWildcard(a) && IsWildcard(b) then HasDNSSuffix(a[1..], b[1..]) || HasDNSSuffix(b[1..], a[1..])
    else if IsWildcard(a) then WildcardMatches(a, b)
    else if IsWildcard(b) then WildcardMatches(b, a)
    else a == b
  }

  /** The hosts a pattern stands for: itself, or everything longer under a wildcard's suffix. */
  predicate Covers(pattern: string, host: string) {
    if IsWildcard(pattern) then WildcardMatches(pattern, host) else host == pattern
  }

  ghost predicate CommonHost(a: string, b: string, host: string) {
    !IsWildcard(host) && Covers(a, host) && Covers(b, host)
  }

  /** A concrete host of a pattern: one more label in front of a wildcard's suffix, or the pattern itself. */
  function HostOf(pattern: string): string {
    if IsWildcard(pattern) then "x" + pattern[1..] else pattern
  }

  lemma HostOfIsCovered(pattern: string)
    ensures !IsWildcard(HostOf(pattern)) && Covers(pattern, HostOf(pattern))
  {
    if IsWildcard(pattern) {
      assert ("x" + pattern[1..])[1..] == pattern[1..];
    }
  }

  lemma SuffixesOfOneHost(host: string, s: string, t: string)
    requires HasDNSSuffix(host, s) && HasDNSSuffix(host, t) && |s| <= |t|
    ensures HasDNSSuffix(t, s)
  {
    assert t[|t| - |s|..] == host[|host| - |t|..][|t| - |s|..] == host[|host| - |s|..];
  }

  lemma SuffixTransitive(host: string, s: string, t: string)
    requires HasDNSSuffix(host, t) && HasDNSSuffix(t, s)
    ensures HasDNSSuffix(host, s)
  {
    assert t[|t| - |s|..] == host[|host| - |t|..][|t| - |s|..] == host[|host| - |s|..];
  }

  /** Comparing suffixes decides whether two infinite host sets meet. */
  lemma OverlapIffCommonHost(a: string, b: string)
    ensures HostnamesOverlap(a, b) <==> exists host :: CommonHost(a, b, host)
  {
    if IsWildcard(a) && IsWildcard(b) {
      if HostnamesOverlap(a, b) {
        var (longer, shorter) := if HasDNSSuffix(a[1..], b[1..]) then (a, b) else (b, a);
        HostOfIsCovered(longer);
        SuffixTransitive(HostOf(longer), shorter[1..], longer[1..]);
        assert CommonHost(a, b, HostOf(longer));
      }
      if host :| CommonHost(a, b, host) {
        if |a| <= |b| {
          SuffixesOfOneHost(host, a[1..], b[1..]);
        } else {
          SuffixesOfOneHost(host, b[1..], a[1..]);
        }
      }
    } else if HostnamesOverlap(a, b) {
      assert CommonHost(a, b, if IsWildcard(a) then b else a);
    }
  }

  predicate Intersects(l: Listener, routeHostnames: seq<string>) {
    l.hostname.None? || l.hostname.value == "" || |routeHostnames| == 0
    || exists h :: h in routeHostnames && HostnamesOverlap(l.hostname.value, h)
  }

  method HostnamesIntersect(l: Listener, routeHostnames: seq<string>) returns (r: bool)
    ensures r == Intersects(l, routeHostnames)
  {
    if l.hostname.None? || l.hostname.value == "" || |routeHostnames| == 0 {
      return true;
    }
    for i := 0 to |routeHostnames|
      invariant forall h :: h in routeHostnames[..i] ==> !HostnamesOverlap(l.hostname.value, h)
    {
      if HostnamesOverlap(l.hostname.value, routeHostnames[i]) {
        return true;
      }
    }
    return false;
  }

  predicate ListenerServes(l: Listener, host: string) {
    l.hostname.None? || l.hostname.value == "" || Covers(l.hostname.value, host)
  }

  predicate RouteClaims(routeHostnames: seq<string>, host: string) {
    |routeHostnames| == 0 || exists h :: h in routeHostnames && Covers(h, host)
  }

  ghost predicate SharedHost(l: Listener, routeHostnames: seq<string>, host: string) {
    !IsWildcard(host) && ListenerServes(l, host) && RouteClaims(routeHostnames, host)
  }

  /** A route can match traffic on a listener exactly when some host is both served and claimed; a side that names
      no host stands for all of them. */
  lemma IntersectsIffSharedHost(l: Listener, routeHostnames: seq<string>)
    ensures Intersects(l, routeHostnames) <==> exists host :: SharedHost(l, routeHostnames, host)
  {
    var open := l.hostname.None? || l.hostname.value == "";
    if Intersects(l, routeHostnames) {
      if open || |routeHostnames| == 0 {
        var pattern := if !open then l.hostname.value else if |routeHostnames| > 0 then routeHostnames[0] else "x";
        HostOfIsCovered(pattern);
        assert SharedHost(l, routeHostnames, HostOf(pattern));
      } else {
        var h :| h in routeHostnames && HostnamesOverlap(l.hostname.value, h);
        OverlapIffCommonHost(l.hostname.value, h);
        var host :| CommonHost(l.hostname.value, h, host);
        assert SharedHost(l, routeHostnames, host);
      }
    }
    if host :| SharedHost(l, routeHostnames, host) {
      if !open && |routeHostnames| > 0 {
        var h :| h in routeHostnames && Covers(h, host);
        assert CommonHost(l.hostname.value, h, host);
        OverlapIffCommonHost(l.hostname.value, h);
      }
    }
  }

  // Hostnames as lists of labels

  function Labels(h: string): seq<string> {
    Split(h, '.')
  }

  predicate NoEmptyLabel(h: string) {
    "" !in Labels(h)
  }

  /** A wildcard's remaining labels are a strict suffix of the host's labels: it stands for one or more labels. */
  predicate LabelsUnder(wildcard: string, host: string) {
    var rest, labels := Labels(wildcard)[1..], Labels(host);
    |labels| > |rest| && labels[|labels| - |rest|..] == rest
  }

  lemma WildcardLabels(wildcard: string)
    requires IsWildcard(wildcard)
    ensures Labels(wildcard) == ["*"] + Labels(wildcard[2..])
  {
    assert wildcard == "*" + ['.'] + wildcard[2..];
    SplitAtSeparator("*", wildcard[2..], '.');
    SplitSeparatorFree("*", '.');
  }

  lemma SuffixGivesLabels(wildcard: string, host: string)
    requires IsWildcard(wildcard) && HasDNSSuffix(host, wildcard[1..])
    ensures LabelsUnder(wildcard, host)
  {
    var r := wildcard[2..];
    WildcardLabels(wildcard);
    assert wildcard[1..] == ['.'] + r;
    var x := host[..|host| - |r| - 1];
    assert host == x + ['.'] + r;
    SplitAtSeparator(x, r, '.');
  }

  lemma LabelsGiveSuffix(wildcard: string, host: string)
    requires IsWildcard(wildcard) && LabelsUnder(wildcard, host)
    ensures HasDNSSuffix(host, wildcard[1..])
  {
    var r, labels := wildcard[2..], Labels(host);
    WildcardLabels(wildcard);
    var front := labels[..|labels| - |Labels(r)|];
    assert labels == front + Labels(r);
    JoinAppends(front, Labels(r), '.');
    SplitThenJoin(host, '.');
    SplitThenJoin(r, '.');
    assert host == Join(front, '.') + ['.'] + r;
    assert wildcard[1..] == ['.'] + r;
  }

  /** The byte test agrees with the label meaning on exactly the hosts other than the wildcard's bare suffix, whose
      first label is empty. */
  lemma ByteSuffixIsLabelSuffix(wildcard: string, host: string)
    requires IsWildcard(wildcard)
    ensures (WildcardMatches(wildcard, host) <==> LabelsUnder(wildcard, host)) <==> host != wildcard[1..]
  {
    if HasDNSSuffix(host, wildcard[1..]) {
      SuffixGivesLabels(wildcard, host);
    }
    if LabelsUnder(wildcard, host) {
      LabelsGiveSuffix(wildcard, host);
    }
  }

  /** The reading of a comment beside the code: a wildcard stands for exactly one label. */
  predicate OneLabelUnder(wildcard: string, host: string) {
    LabelsUnder(wildcard, host) && |Labels(host)| == |Labels(wildcard)|
  }

  /** That reading is right about exactly the hosts that have no more labels than the wildcard, or do not match. */
  lemma OneLabelReadingHoldsIff(wildcard: string, host: string)
    requires IsWildcard(wildcard) && NoEmptyLabel(host)
    ensures (WildcardMatches(wildcard, host) <==> OneLabelUnder(wildcard, host)) <==>
              !(LabelsUnder(wildcard, host) && |Labels(host)| > |Labels(wildcard)|)
  {
    CoverIsLabelsCover(wildcard, host);
    WildcardLabels(wildcard);
    assert Labels(wildcard)[1..] == Labels(wildcard[2..]);
  }

  /** It is wrong for every wildcard: a host with two labels in its place matches. */
  lemma WildcardSpansTwoLabels(wildcard: string, first: string, second: string)
    requires IsWildcard(wildcard) && '.' !in first && '.' !in second
    ensures var host := first + (['.'] + (second + wildcard[1..]));
            WildcardMatches(wildcard, host) && |Labels(host)| == |Labels(wildcard)| + 1
  {
    var rest := wildcard[2..];
    var inner := second + ['.'] + rest;
    assert second + wildcard[1..] == inner;
    var host := first + ['.'] + inner;
    assert first + (['.'] + (second + wildcard[1..])) == host;
    assert host[|host| - |wildcard| + 1..] == wildcard[1..];
    SplitAtSeparator(first, inner, '.');
    SplitAtSeparator(second, rest, '.');
    SplitSeparatorFree(first, '.');
    SplitSeparatorFree(second, '.');
    WildcardLabels(wildcard);
  }

  lemma WildcardCoversTwoLabels()
    ensures WildcardMatches("*.example.com", "a.b.example.com")
  {
    assert "*.example.com"[1..] == ".example.com" == "a.b.example.com"[3..];
  }

  lemma BareSuffixHasEmptyLabel(wildcard: string)
    requires IsWildcard(wildcard)
    ensures !NoEmptyLabel(wildcard[1..])
  {
    assert wildcard[1..] == "" + ['.'] + wildcard[2..];
    SplitAtSeparator("", wildcard[2..], '.');
    assert Labels(wildcard[1..])[0] == "";
  }

  predicate LabelsCover(pattern: string, host: string) {
    if IsWildcard(pattern) then LabelsUnder(pattern, host) else Labels(host) == Labels(pattern)
  }

  lemma CoverIsLabelsCover(pattern: string, host: string)
    requires NoEmptyLabel(host)
    ensures Covers(pattern, host) <==> LabelsCover(pattern, host)
  {
    if IsWildcard(pattern) {
      ByteSuffixIsLabelSuffix(pattern, host);
      BareSuffixHasEmptyLabel(pattern);
    } else {
      SplitThenJoin(host, '.');
      SplitThenJoin(pattern, '.');
    }
  }

  ghost predicate CommonName(a: string, b: string, host: string) {
    NoEmptyLabel(host) && !IsWildcard(host) && LabelsCover(a, host) && LabelsCover(b, host)
  }

  /** On hostnames without empty labels, overlap means: some well-formed hostname lies under both, label by label. */
  lemma OverlapIffCommonName(a: string, b: string)
    requires NoEmptyLabel(a) && NoEmptyLabel(b)
    ensures HostnamesOverlap(a, b) <==> exists host :: CommonName(a, b, host)
  {
    if HostnamesOverlap(a, b) {
      var host := OverlapWitness(a, b);
      assert CommonName(a, b, host) by {
        CoverIsLabelsCover(a, host);
        CoverIsLabelsCover(b, host);
      }
    }
    if host :| CommonName(a, b, host) {
      CoverIsLabelsCover(a, host);
      CoverIsLabelsCover(b, host);
      assert CommonHost(a, b, host);
      OverlapIffCommonHost(a, b);
    }
  }

  lemma HostOfHasNoEmptyLabel(pattern: string)
    requires NoEmptyLabel(pattern)
    ensures NoEmptyLabel(HostOf(pattern))
  {
    if IsWildcard(pattern) {
      WildcardLabels(pattern);
      assert HostOf(pattern) == "x" + ['.'] + pattern[2..];
      SplitAtSeparator("x", pattern[2..], '.');
      SplitSeparatorFree("x", '.');
      assert forall l :: l in Labels(pattern[2..]) ==> l in Labels(pattern);
    }
  }

  lemma OverlapWitness(a: string, b: string) returns (host: string)
    requires NoEmptyLabel(a) && NoEmptyLabel(b) && HostnamesOverlap(a, b)
    ensures CommonHost(a, b, host) && NoEmptyLabel(host)
  {
    if IsWildcard(a) && IsWildcard(b) {
      var (longer, shorter) := if HasDNSSuffix(a[1..], b[1..]) then (a, b) else (b, a);
      host := HostOf(longer);
      HostOfIsCovered(longer);
      HostOfHasNoEmptyLabel(longer);
      SuffixTransitive(host, shorter[1..], longer[1..]);
    } else {
      host := if IsWildcard(a) then b else a;
    }
  }
}
