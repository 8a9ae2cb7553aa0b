/** One HTTPRouteMatch flattened into a string that can be compared for equality (pkg/gatewayapi/routematch.go). */
module RouteMatch {
  import opened Manifests
  import opened Strings
  import opened Bags
  import opened Sorting

  /** What the description of a match names. */
  datatype MatchDescription = MatchDescription(
    pathType: string, pathValue: string, method_: Option<string>, headers: nat, params: nat)

  datatype HTTPMatch = HTTPMatch(key: string, describe: MatchDescription)

  function PathType(m: HTTPRouteMatch): string {
    if m.path.Some? then m.path.value.matchType.GetOr("PathPrefix") else "PathPrefix"
  }

  function PathValue(m: HTTPRouteMatch): string {
    if m.path.Some? then m.path.value.value.GetOr("/") else "/"
  }

  /** A header or query match with its default applied: type, name, value. */
  datatype Condition = Condition(matchType: string, name: string, value: string)

  function HeaderCondition(h: ValueMatch): Condition {
    Condition(h.matchType.GetOr("Exact"), Lower(h.name), h.value)
  }

  function ParamCondition(q: ValueMatch): Condition {
    Condition(q.matchType.GetOr("Exact"), q.name, q.value)
  }

  function Text(c: Condition): string {
    c.matchType + [':'] + (c.name + [':'] + c.value)
  }

  function Headers(m: HTTPRouteMatch): seq<Condition> {
    Map(HeaderCondition, m.headers)
  }

  function Params(m: HTTPRouteMatch): seq<Condition> {
    Map(ParamCondition, m.queryParams)
  }

  ghost function SortedTexts(conditions: seq<Condition>): seq<string> {
    StringsAreOrdered();
    Ordered(multiset(Map(Text, conditions)), Less)
  }

  // The labelled parts of a key

  function PathText(pathType: string, pathValue: string): string {
    "path=" + (pathType + [':'] + pathValue)
  }

  function MethodText(method_: string): string {
    "method=" + method_
  }

  function HeadersText(texts: seq<string>): string {
    "headers=" + Join(texts, ',')
  }

  function QueryText(texts: seq<string>): string {
    "query=" + Join(texts, ',')
  }

  function PathPart(m: HTTPRouteMatch): string {
    PathText(PathType(m), PathValue(m))
  }

  ghost function MethodPart(m: HTTPRouteMatch): Option<string> {
    if m.method_.Some? then Some(MethodText(m.method_.value)) else None
  }

  ghost function HeadersPart(m: HTTPRouteMatch): Option<string> {
    if |m.headers| > 0 then Some(HeadersText(SortedTexts(Headers(m)))) else None
  }

  ghost function QueryPart(m: HTTPRouteMatch): Option<string> {
    if |m.queryParams| > 0 then Some(QueryText(SortedTexts(Params(m)))) else None
  }

  function Listed(part: Option<string>): seq<string> {
    if part.Some? then [part.value] else []
  }

  /** Everything of the key but the path. */
  ghost function TailParts(m: HTTPRouteMatch): seq<string> {
    Listed(MethodPart(m)) + Listed(HeadersPart(m)) + Listed(QueryPart(m))
  }

  lemma ConcatAssociates<T>(a: seq<T>, b: seq<T>, c: seq<T>, d: seq<T>)
    ensures a + b + c + d == a + (b + c + d)
  {
  }

  ghost function KeyParts(m: HTTPRouteMatch): (parts: seq<string>)
    ensures parts == [PathPart(m)] + TailParts(m)
  {
    ConcatAssociates([PathPart(m)], Listed(MethodPart(m)), Listed(HeadersPart(m)), Listed(QueryPart(m)));
    [PathPart(m)] + Listed(MethodPart(m)) + Listed(HeadersPart(m)) + Listed(QueryPart(m))
  }

  ghost function KeyOf(m: HTTPRouteMatch): string {
    Join(KeyParts(m), ';')
  }

  function DescriptionOf(m: HTTPRouteMatch): MatchDescription {
    MatchDescription(PathType(m), PathValue(m), m.method_, |m.headers|, |m.queryParams|)
  }

  ghost function Canonical(m: HTTPRouteMatch): HTTPMatch {
    HTTPMatch(KeyOf(m), DescriptionOf(m))
  }

  method CanonicalHTTPMatch(m: HTTPRouteMatch) returns (r: HTTPMatch)
    ensures r == Canonical(m)
  {
    hide Join, SortedTexts, KeyOf, Canonical, TailParts, PathText, MethodText, HeadersText, QueryText;
    var pathType, pathValue := "PathPrefix", "/";
    if m.path.Some? {
      if m.path.value.matchType.Some? {
        pathType := m.path.value.matchType.value;
      }
      if m.path.value.value.Some? {
        pathValue := m.path.value.value.value;
      }
    }
    assert pathType == PathType(m) && pathValue == PathValue(m);
    var parts := [PathText(pathType, pathValue)];
    var describe := MatchDescription(pathType, pathValue, None, 0, 0);
    if m.method_.Some? {
      parts := parts + [MethodText(m.method_.value)];
      describe := describe.(method_ := m.method_);
    }
    assert parts == [PathPart(m)] + Listed(MethodPart(m));
    var headers := HeaderTexts(m.headers);
    var params := ParamTexts(m.queryParams);
    SortedTextsSize(Headers(m));
    SortedTextsSize(Params(m));
    if |headers| > 0 {
      parts := parts + [HeadersText(headers)];
      describe := describe.(headers := |headers|);
    }
    assert parts == [PathPart(m)] + Listed(MethodPart(m)) + Listed(HeadersPart(m));
    if |params| > 0 {
      parts := parts + [QueryText(params)];
      describe := describe.(params := |params|);
    }
    assert parts == KeyParts(m);
    CanonicalIs(m);
    r := HTTPMatch(Join(parts, ';'), describe);
  }

  lemma CanonicalIs(m: HTTPRouteMatch)
    ensures Canonical(m) == HTTPMatch(Join(KeyParts(m), ';'), DescriptionOf(m))
  {
  }

  method HeaderTexts(specs: seq<ValueMatch>) returns (headers: seq<string>)
    ensures headers == SortedTexts(Map(HeaderCondition, specs))
  {
    ghost var conditions := Map(HeaderCondition, specs);
    headers := [];
    for i := 0 to |specs|
      invariant headers == Map(Text, conditions[..i])
    {
      var h := specs[i];
      var matchType := "Exact";
      if h.matchType.Some? {
        matchType := h.matchType.value;
      }
      assert conditions[..i + 1][..i] == conditions[..i];
      headers := headers + [matchType + [':'] + (Lower(h.name) + [':'] + h.value)];
    }
    assert conditions[..|specs|] == conditions;
    StringsAreOrdered();
    headers := Sort(headers, Less);
  }

  method ParamTexts(specs: seq<ValueMatch>) returns (params: seq<string>)
    ensures params == SortedTexts(Map(ParamCondition, specs))
  {
    ghost var conditions := Map(ParamCondition, specs);
    params := [];
    for i := 0 to |specs|
      invariant params == Map(Text, conditions[..i])
    {
      var q := specs[i];
      var matchType := "Exact";
      if q.matchType.Some? {
        matchType := q.matchType.value;
      }
      assert conditions[..i + 1][..i] == conditions[..i];
      params := params + [matchType + [':'] + (q.name + [':'] + q.value)];
    }
    assert conditions[..|specs|] == conditions;
    StringsAreOrdered();
    params := Sort(params, Less);
  }

  lemma SortedTextsSize(conditions: seq<Condition>)
    ensures |SortedTexts(conditions)| == |conditions|
    ensures forall t :: t in SortedTexts(conditions) <==> t in Map(Text, conditions)
  {
    StringsAreOrdered();
    SameBagSameElements(SortedTexts(conditions), Map(Text, conditions));
  }

  // The matches of a route

  const EVERY_REQUEST := HTTPRouteMatch(None, [], [], None)

  ghost function RuleMatches(rule: HTTPRule): (r: seq<HTTPMatch>)
    ensures rule.matches == [] ==> r == [Canonical(EVERY_REQUEST)]
    ensures rule.matches != [] ==>
              |r| == |rule.matches| && forall k :: 0 <= k < |r| ==> r[k] == Canonical(rule.matches[k])
  {
    if rule.matches == [] then [Canonical(EVERY_REQUEST)]
    else seq(|rule.matches|, k requires 0 <= k < |rule.matches| => Canonical(rule.matches[k]))
  }

  ghost function MatchList(rules: seq<HTTPRule>): seq<HTTPMatch> {
    if rules == [] then [] else MatchList(rules[..|rules| - 1]) + RuleMatches(rules[|rules| - 1])
  }

  /** The matches of all rules of an HTTPRoute at either version. */
  ghost function MatchesOf(obj: Object): Option<seq<HTTPMatch>> {
    match obj
    case HTTPRouteV1(_, _, _, rules) => Some(MatchList(rules))
    case HTTPRouteV1Beta1(_, _, _, rules) => Some(MatchList(rules))
    case _ => None
  }

  method HTTPMatchesOf(obj: Object) returns (r: Option<seq<HTTPMatch>>)
    ensures r == MatchesOf(obj)
  {
    var rules: seq<HTTPRule>;
    match obj {
      case HTTPRouteV1(_, _, _, specRules) => rules := specRules;
      case HTTPRouteV1Beta1(_, _, _, specRules) => rules := specRules;
      case _ => return None;
    }
    var matches := MatchesOfRules(rules);
    r := Some(matches);
  }

  method MatchesOfRules(rules: seq<HTTPRule>) returns (matches: seq<HTTPMatch>)
    ensures matches == MatchList(rules)
  {
    assert MatchList(rules[..0]) == [];
    hide Canonical, RuleMatches, MatchList;
    matches := [];
    for i := 0 to |rules|
      invariant matches == MatchList(rules[..i])
    {
      MatchListStep(rules, i);
      var ofRule := MatchesOfRule(rules[i]);
      matches := matches + ofRule;
    }
    assert rules[..|rules|] == rules;
  }

  method MatchesOfRule(rule: HTTPRule) returns (matches: seq<HTTPMatch>)
    ensures matches == RuleMatches(rule)
  {
    hide Canonical;
    if |rule.matches| == 0 {
      var all := CanonicalHTTPMatch(EVERY_REQUEST);
      return [all];
    }
    matches := [];
    for j := 0 to |rule.matches|
      invariant |matches| == j && forall k :: 0 <= k < j ==> matches[k] == Canonical(rule.matches[k])
    {
      var one := CanonicalHTTPMatch(rule.matches[j]);
      matches := matches + [one];
    }
  }

  lemma MatchListStep(rules: seq<HTTPRule>, i: nat)
    requires i < |rules|
    ensures MatchList(rules[..i + 1]) == MatchList(rules[..i]) + RuleMatches(rules[i])
  {
    assert rules[..i + 1][..i] == rules[..i];
  }

  // What equal keys mean

  /** Same path, same method, and the same headers and query parameters whatever their order. */
  ghost predicate Same(m: HTTPRouteMatch, n: HTTPRouteMatch) {
    && PathType(m) == PathType(n)
    && PathValue(m) == PathValue(n)
    && m.method_ == n.method_
    && multiset(Headers(m)) == multiset(Headers(n))
    && multiset(Params(m)) == multiset(Params(n))
  }

  /** The order of headers and parameters and the case of header names never change the key. */
  lemma SameMatchesShareKey(m: HTTPRouteMatch, n: HTTPRouteMatch)
    requires Same(m, n)
    ensures KeyOf(m) == KeyOf(n)
  {
    MapKeepsBag(Text, Headers(m), Headers(n));
    MapKeepsBag(Text, Params(m), Params(n));
    assert |Headers(m)| == |multiset(Headers(m))| && |Headers(n)| == |multiset(Headers(n))|;
    assert |Params(m)| == |multiset(Params(m))| && |Params(n)| == |multiset(Params(n))|;
    hide Headers, Params, Text;
  }

  predicate Free(s: string) {
    ':' !in s && ',' !in s && ';' !in s
  }

  predicate SeparableCondition(c: Condition) {
    Free(c.matchType) && Free(c.name) && ',' !in c.value && ';' !in c.value
  }

  predicate SeparableValueMatch(v: ValueMatch) {
    Free(v.matchType.GetOr("Exact")) && Free(v.name) && ',' !in v.value && ';' !in v.value
  }

  /** No field holds a separator of the key that could be read as the end of that field. */
  predicate Separable(m: HTTPRouteMatch) {
    && Free(PathType(m)) && ';' !in PathValue(m)
    && ';' !in m.method_.GetOr("")
    && (forall h :: h in m.headers ==> SeparableValueMatch(h))
    && (forall q :: q in m.queryParams ==> SeparableValueMatch(q))
  }

  lemma SeparableConditions(m: HTTPRouteMatch)
    requires Separable(m)
    ensures forall c :: c in Headers(m) || c in Params(m) ==> SeparableCondition(c)
  {
    forall c | c in Headers(m)
      ensures SeparableCondition(c)
    {
      var i :| 0 <= i < |m.headers| && Headers(m)[i] == c;
      assert m.headers[i] in m.headers;
      LowerFacts(m.headers[i].name);
    }
    forall c | c in Params(m)
      ensures SeparableCondition(c)
    {
      var i :| 0 <= i < |m.queryParams| && Params(m)[i] == c;
      assert m.queryParams[i] in m.queryParams;
    }
  }

  function Parse(text: string): Condition {
    var rest := After(text, ':');
    Condition(Before(text, ':'), Before(rest, ':'), After(rest, ':'))
  }

  lemma ParseText(c: Condition)
    requires ':' !in c.matchType && ':' !in c.name
    ensures Parse(Text(c)) == c
  {
    CutAtFirst(c.matchType, c.name + [':'] + c.value, ':');
    CutAtFirst(c.name, c.value, ':');
  }

  /** The joined texts give the conditions back, as a bag. */
  lemma TextsDetermineBag(a: seq<Condition>, b: seq<Condition>)
    requires forall c :: c in a || c in b ==> SeparableCondition(c)
    requires (a == [] <==> b == []) && Join(SortedTexts(a), ',') == Join(SortedTexts(b), ',')
    ensures multiset(a) == multiset(b)
  {
    if a != [] {
      SortedTextsSize(a);
      SortedTextsSize(b);
      JoinedTextsFree(a);
      JoinedTextsFree(b);
      JoinThenSplit(SortedTexts(a), ',');
      JoinThenSplit(SortedTexts(b), ',');
      SortedTextsBag(a);
      SortedTextsBag(b);
      MapKeepsBag(Parse, Map(Text, a), Map(Text, b));
      ParseTexts(a);
      ParseTexts(b);
    }
  }

  lemma SortedTextsBag(a: seq<Condition>)
    ensures multiset(SortedTexts(a)) == multiset(Map(Text, a))
  {
    StringsAreOrdered();
  }

  lemma ParseTexts(a: seq<Condition>)
    requires forall c :: c in a ==> SeparableCondition(c)
    ensures Map(Parse, Map(Text, a)) == a
  {
    forall i | 0 <= i < |a|
      ensures Parse(Text(a[i])) == a[i]
    {
      assert a[i] in a;
      ParseText(a[i]);
    }
  }

  function PartStarting(parts: seq<string>, c: char): Option<string> {
    if parts == [] then None
    else if parts[0] != "" && parts[0][0] == c then Some(parts[0]) else PartStarting(parts[1..], c)
  }

  lemma TailPartsFound(m: HTTPRouteMatch)
    ensures PartStarting(TailParts(m), 'm') == MethodPart(m)
    ensures PartStarting(TailParts(m), 'h') == HeadersPart(m)
    ensures PartStarting(TailParts(m), 'q') == QueryPart(m)
  {
    ThreeParts(MethodPart(m), HeadersPart(m), QueryPart(m));
  }

  lemma ThreeParts(m: Option<string>, h: Option<string>, q: Option<string>)
    requires m.Some? ==> |m.value| > 0 && m.value[0] == 'm'
    requires h.Some? ==> |h.value| > 0 && h.value[0] == 'h'
    requires q.Some? ==> |q.value| > 0 && q.value[0] == 'q'
    ensures var parts := Listed(m) + Listed(h) + Listed(q);
            PartStarting(parts, 'm') == m && PartStarting(parts, 'h') == h && PartStarting(parts, 'q') == q
  {
    var hq := Listed(h) + Listed(q);
    var parts := Listed(m) + hq;
    assert Listed(m) + Listed(h) + Listed(q) == parts;
    assert q.Some? ==> Listed(q)[1..] == [];
    var onlyQ := Listed(q);
    assert PartStarting(onlyQ, 'm') == None && PartStarting(onlyQ, 'h') == None && PartStarting(onlyQ, 'q') == q;
    assert if h.Some? then hq[0] == h.value && hq[1..] == Listed(q) else hq == Listed(q);
    assert PartStarting(hq, 'm') == None && PartStarting(hq, 'h') == h && PartStarting(hq, 'q') == q;
    assert if m.Some? then parts[0] == m.value && parts[1..] == hq else parts == hq;
  }

  lemma TextFree(c: Condition, sep: char)
    requires sep == ',' || sep == ';'
    requires SeparableCondition(c)
    ensures sep !in Text(c)
  {
    var tail := c.name + [':'] + c.value;
    assert sep !in tail;
    assert sep !in c.matchType + [':'];
    assert Text(c) == c.matchType + [':'] + tail;
  }

  lemma JoinedTextsFree(conditions: seq<Condition>)
    requires forall c :: c in conditions ==> SeparableCondition(c)
    ensures ';' !in Join(SortedTexts(conditions), ',')
    ensures forall t :: t in SortedTexts(conditions) ==> ',' !in t
  {
    SortedTextsSize(conditions);
    forall t | t in SortedTexts(conditions)
      ensures ';' !in t && ',' !in t
    {
      var i :| 0 <= i < |conditions| && Map(Text, conditions)[i] == t;
      TextFree(conditions[i], ',');
      TextFree(conditions[i], ';');
    }
    JoinIsFreeOf(SortedTexts(conditions), ',', ';');
  }

  lemma KeyPartsFree(m: HTTPRouteMatch)
    requires Separable(m)
    ensures forall p :: p in KeyParts(m) ==> ';' !in p
  {
    SeparableConditions(m);
    JoinedTextsFree(Headers(m));
    JoinedTextsFree(Params(m));
    PrefixFree("path=", PathType(m) + [':'] + PathValue(m));
    if m.method_.Some? {
      PrefixFree("method=", m.method_.value);
    }
    PrefixFree("headers=", Join(SortedTexts(Headers(m)), ','));
    PrefixFree("query=", Join(SortedTexts(Params(m)), ','));
    PartsAmong(PathPart(m), MethodPart(m), HeadersPart(m), QueryPart(m));
  }

  lemma PrefixFree(prefix: string, s: string)
    requires ';' !in prefix && ';' !in s
    ensures ';' !in prefix + s
  {
  }

  lemma PartsAmong(p: string, m: Option<string>, h: Option<string>, q: Option<string>)
    requires ';' !in p
    requires (m.Some? ==> ';' !in m.value) && (h.Some? ==> ';' !in h.value) && (q.Some? ==> ';' !in q.value)
    ensures forall x :: x in [p] + (Listed(m) + Listed(h) + Listed(q)) ==> ';' !in x
  {
  }

  lemma SamePrefix(prefix: string, a: string, b: string)
    requires prefix + a == prefix + b
    ensures a == b
  {
    assert a == (prefix + a)[|prefix|..] && b == (prefix + b)[|prefix|..];
  }

  /** On separable matches the key is equal for exactly the same matches. */
  lemma KeyIsCanonical(m: HTTPRouteMatch, n: HTTPRouteMatch)
    requires Separable(m) && Separable(n)
    ensures KeyOf(m) == KeyOf(n) <==> Same(m, n)
  {
    if KeyOf(m) == KeyOf(n) {
      KeyPartsFree(m);
      KeyPartsFree(n);
      JoinThenSplit(KeyParts(m), ';');
      JoinThenSplit(KeyParts(n), ';');
      assert PathPart(m) == KeyParts(m)[0] == KeyParts(n)[0] == PathPart(n);
      assert TailParts(m) == KeyParts(m)[1..] == KeyParts(n)[1..] == TailParts(n);
      EqualPathParts(m, n);
      EqualTails(m, n);
    } else if Same(m, n) {
      SameMatchesShareKey(m, n);
    }
  }

  lemma EqualPathParts(m: HTTPRouteMatch, n: HTTPRouteMatch)
    requires ':' !in PathType(m) && ':' !in PathType(n) && PathPart(m) == PathPart(n)
    ensures PathType(m) == PathType(n) && PathValue(m) == PathValue(n)
  {
    SamePrefix("path=", PathType(m) + [':'] + PathValue(m), PathType(n) + [':'] + PathValue(n));
    CutAtFirst(PathType(m), PathValue(m), ':');
    CutAtFirst(PathType(n), PathValue(n), ':');
  }

  lemma EqualTails(m: HTTPRouteMatch, n: HTTPRouteMatch)
    requires Separable(m) && Separable(n) && TailParts(m) == TailParts(n)
    ensures m.method_ == n.method_
    ensures multiset(Headers(m)) == multiset(Headers(n)) && multiset(Params(m)) == multiset(Params(n))
  {
    TailPartsFound(m);
    TailPartsFound(n);
    SeparableConditions(m);
    SeparableConditions(n);
    if m.method_.Some? {
      SamePrefix("method=", m.method_.value, n.method_.value);
    }
    if |m.headers| > 0 {
      SamePrefix("headers=", Join(SortedTexts(Headers(m)), ','), Join(SortedTexts(Headers(n)), ','));
    }
    TextsDetermineBag(Headers(m), Headers(n));
    if |m.queryParams| > 0 {
      SamePrefix("query=", Join(SortedTexts(Params(m)), ','), Join(SortedTexts(Params(n)), ','));
    }
    TextsDetermineBag(Params(m), Params(n));
  }
}
