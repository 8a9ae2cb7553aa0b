/** Which requests a match selects, and exactly when its key says so (pkg/gatewayapi/routematch.go documents the key
    as equal for exactly the matches that select the same requests). */
module MatchRequests {
  import opened Manifests
  import opened Strings
  import opened Bags
  import opened Sorting
  import opened RouteMatch
  import opened RequestPaths

  /** A request, its header names in lower case as they compare (RFC 9110, section 5.1). */
  datatype Request = Request(path: string, method_: string, headers: map<string, string>, query: map<string, string>)

  /** How a path or a value compares with a pattern of a given type. */
  datatype Trial = Trial(path: (string, string, string) -> bool, value: (string, string, string) -> bool)

  /** Exact and PathPrefix mean what the Gateway API says; how other types compare is left to the implementation. */
  ghost predicate Standard(t: Trial) {
    && (forall value, got :: t.path(EXACT, value, got) <==> got == value)
    && (forall value, got :: t.path(PATH_PREFIX, value, got) <==> Elements(value) <= Elements(got))
    && (forall value, got :: t.value(EXACT, value, got) <==> got == value)
  }

  predicate Holds(c: Condition, values: map<string, string>, t: Trial) {
    c.name in values && t.value(c.matchType, c.value, values[c.name])
  }

  /** Of several conditions on one name only the first counts (Gateway API, HTTPRouteMatch). */
  predicate Counts(conditions: seq<Condition>, i: int)
    requires 0 <= i < |conditions|
  {
    forall j :: 0 <= j < i ==> conditions[j].name != conditions[i].name
  }

  predicate AllHold(conditions: seq<Condition>, values: map<string, string>, t: Trial) {
    forall i :: 0 <= i < |conditions| && Counts(conditions, i) ==> Holds(conditions[i], values, t)
  }

  predicate Selects(m: HTTPRouteMatch, r: Request, t: Trial) {
    && t.path(PathType(m), PathValue(m), r.path)
    && (m.method_.None? || m.method_.value == r.method_)
    && AllHold(Headers(m), r.headers, t)
    && AllHold(Params(m), r.query, t)
  }

  /** The two select the same requests, under every comparison that meets the standard. */
  ghost predicate SelectTheSame(m: HTTPRouteMatch, n: HTTPRouteMatch) {
    forall r, t :: Standard(t) ==> (Selects(m, r, t) <==> Selects(n, r, t))
  }

  // What selecting the same requests comes down to

  ghost function Counting(conditions: seq<Condition>): set<Condition> {
    set i | 0 <= i < |conditions| && Counts(conditions, i) :: conditions[i]
  }

  /** The same path, as spelled or as the same prefix, same method, and the same headers and parameters that count. */
  ghost predicate SameEffect(m: HTTPRouteMatch, n: HTTPRouteMatch) {
    && SamePath(PathType(m), PathValue(m), PathType(n), PathValue(n)) && m.method_ == n.method_
    && Counting(Headers(m)) == Counting(Headers(n)) && Counting(Params(m)) == Counting(Params(n))
  }

  lemma AllHoldIff(conditions: seq<Condition>, values: map<string, string>, t: Trial)
    ensures AllHold(conditions, values, t) <==> forall c :: c in Counting(conditions) ==> Holds(c, values, t)
  {
    hide Counts, Holds;
    forall i | 0 <= i < |conditions| && Counts(conditions, i)
      ensures conditions[i] in Counting(conditions)
    {
    }
  }

  lemma OneCountsPerName(conditions: seq<Condition>)
    ensures OnePerName(Counting(conditions))
  {
  }

  ghost predicate OnePerName(conditions: set<Condition>) {
    forall c, d :: c in conditions && d in conditions && c.name == d.name ==> c == d
  }

  // A request and a comparison that show what a match asks for

  function Values(conditions: seq<Condition>): string {
    if conditions == [] then "" else conditions[0].value + Values(conditions[1..])
  }

  lemma {:induction false} ValuesAreLonger(conditions: seq<Condition>)
    ensures forall c :: c in conditions ==> |c.value| <= |Values(conditions)|
  {
    if conditions != [] {
      ValuesAreLonger(conditions[1..]);
      assert conditions == [conditions[0]] + conditions[1..];
    }
  }

  /** Longer than any value of either match. */
  function Mark(m: HTTPRouteMatch, n: HTTPRouteMatch): string {
    Values(Headers(m)) + Values(Params(m)) + Values(Headers(n)) + Values(Params(n)) + "!"
  }

  ghost predicate Short(mark: string, conditions: set<Condition>) {
    forall c :: c in conditions ==> |c.value| < |mark|
  }

  lemma MarkIsLonger(m: HTTPRouteMatch, n: HTTPRouteMatch)
    ensures Short(Mark(m, n), Counting(Headers(m))) && Short(Mark(m, n), Counting(Params(m)))
    ensures Short(Mark(m, n), Counting(Headers(n))) && Short(Mark(m, n), Counting(Params(n)))
  {
    ValuesAreLonger(Headers(m));
    ValuesAreLonger(Params(m));
    ValuesAreLonger(Headers(n));
    ValuesAreLonger(Params(n));
    hide Values, Headers, Params;
  }

  ghost function ConditionOn(name: string, conditions: set<Condition>): Condition
    requires exists c :: c in conditions && c.name == name
  {
    var c :| c in conditions && c.name == name;
    c
  }

  /** An exact condition gets its value; any other one that names it and says where it stands in the request. */
  ghost function Meeting(mark: string, place: char, c: Condition): string {
    if c.matchType == EXACT then c.value else mark + ([place] + c.name)
  }

  ghost function Met(mark: string, place: char, conditions: set<Condition>): map<string, string> {
    map name | name in (set c | c in conditions :: c.name) :: Meeting(mark, place, ConditionOn(name, conditions))
  }

  /** Accepts a marked value for exactly the conditions given. */
  ghost predicate Recognizes(mark: string, headers: set<Condition>, params: set<Condition>, matchType: string,
                             value: string, got: string)
  {
    && |got| > |mark| && got[..|mark|] == mark
    && Condition(matchType, got[|mark| + 1..], value) in if got[|mark|] == 'h' then headers else params
  }

  ghost function Probe(m: HTTPRouteMatch, n: HTTPRouteMatch): Trial {
    var mark, headers, params := Mark(m, n), Counting(Headers(m)), Counting(Params(m));
    Trial((pathType, path, got) => Accepts(pathType, path, got, pathType == PathType(m) && path == PathValue(m)),
          (matchType, value, got) =>
            if matchType == EXACT then got == value else Recognizes(mark, headers, params, matchType, value, got))
  }

  lemma ProbeIsStandard(m: HTTPRouteMatch, n: HTTPRouteMatch)
    ensures Standard(Probe(m, n))
  {
    assert PATH_PREFIX != EXACT by {
      assert |PATH_PREFIX| != |EXACT|;
    }
    forall pathType, value, got {
      ProbePathIs(m, n, pathType, value, got);
    }
    hide Elements, Recognizes;
  }

  lemma ProbePathIs(m: HTTPRouteMatch, n: HTTPRouteMatch, pathType: string, value: string, got: string)
    ensures Probe(m, n).path(pathType, value, got)
         == Accepts(pathType, value, got, pathType == PathType(m) && value == PathValue(m))
  {
    hide Accepts;
  }

  function ProbePath(m: HTTPRouteMatch, n: HTTPRouteMatch): string {
    if PathType(m) == EXACT then PathValue(m)
    else Below(if PathType(m) == PATH_PREFIX then PathValue(m) else "/", |PathValue(n)|)
  }

  ghost function ProbeRequest(m: HTTPRouteMatch, n: HTTPRouteMatch, method_: string): Request {
    var mark := Mark(m, n);
    Request(ProbePath(m, n), method_, Met(mark, 'h', Counting(Headers(m))), Met(mark, 'q', Counting(Params(m))))
  }

  lemma RecognizedIff(mark: string, place: char, headers: set<Condition>, params: set<Condition>, c: Condition,
                      name: string)
    requires place == 'h' || place == 'q'
    ensures Recognizes(mark, headers, params, c.matchType, c.value, mark + ([place] + name)) <==>
              Condition(c.matchType, name, c.value) in if place == 'h' then headers else params
  {
    var got := mark + ([place] + name);
    assert got[|mark|] == place && got[|mark| + 1..] == name;
  }

  /** Among conditions with short values the request meets exactly those it was made for. */
  lemma MetIff(m: HTTPRouteMatch, n: HTTPRouteMatch, place: char, c: Condition)
    requires place == 'h' || place == 'q'
    requires |c.value| < |Mark(m, n)|
    ensures var conditions := Counting(if place == 'h' then Headers(m) else Params(m));
            Holds(c, Met(Mark(m, n), place, conditions), Probe(m, n)) <==> c in conditions
  {
    var mark, conditions := Mark(m, n), Counting(if place == 'h' then Headers(m) else Params(m));
    MarkIsLonger(m, n);
    OneCountsPerName(Headers(m));
    OneCountsPerName(Params(m));
    hide Counting, Mark, Headers, Params;
    if d :| d in conditions && d.name == c.name {
      assert ConditionOn(c.name, conditions) == d;
      RecognizedIff(mark, place, Counting(Headers(m)), Counting(Params(m)), c, d.name);
      MeetingIff(m, n, place, c, d);
    }
  }

  lemma MeetingIff(m: HTTPRouteMatch, n: HTTPRouteMatch, place: char, c: Condition, d: Condition)
    requires place == 'h' || place == 'q'
    requires |c.value| < |Mark(m, n)| && |d.value| < |Mark(m, n)| && c.name == d.name
    requires var conditions := Counting(if place == 'h' then Headers(m) else Params(m));
             d in conditions && OnePerName(conditions)
    ensures Probe(m, n).value(c.matchType, c.value, Meeting(Mark(m, n), place, d)) <==>
              c in Counting(if place == 'h' then Headers(m) else Params(m))
  {
    hide Counting, Mark, Headers, Params;
    RecognizedIff(Mark(m, n), place, Counting(Headers(m)), Counting(Params(m)), c, d.name);
  }

  ghost predicate PathShown(m: HTTPRouteMatch, n: HTTPRouteMatch) {
    Probe(m, n).path(PathType(n), PathValue(n), ProbePath(m, n))
  }

  lemma OwnPathShown(m: HTTPRouteMatch, n: HTTPRouteMatch)
    ensures Probe(m, n).path(PathType(m), PathValue(m), ProbePath(m, n))
  {
    BelowElements(PathValue(m), |PathValue(n)|);
    hide Elements, Below, Xs, Recognizes, Counting;
  }

  /** Each path accepts the other's probe exactly when the two are the same path. */
  lemma PathsShownIff(m: HTTPRouteMatch, n: HTTPRouteMatch)
    ensures PathShown(m, n) && PathShown(n, m) <==> SamePath(PathType(m), PathValue(m), PathType(n), PathValue(n))
  {
    BelowAccepted(PathValue(m), PathValue(n), |PathValue(n)|);
    BelowAccepted(PathValue(n), PathValue(m), |PathValue(m)|);
    PrefixBothWays(Elements(PathValue(m)), Elements(PathValue(n)));
    ProbePathIs(m, n, PathType(n), PathValue(n), ProbePath(m, n));
    ProbePathIs(n, m, PathType(m), PathValue(m), ProbePath(n, m));
    hide Elements, Xs, Recognizes, Counting;
  }

  lemma PrefixBothWays(a: seq<string>, b: seq<string>)
    ensures a <= b && b <= a <==> a == b
  {
    assert a <= b && b <= a ==> |a| == |b| && a == b[..|a|];
  }

  /** The probe selects a match exactly when it accepts its path, the match does not ask for another method, and it
      counts nothing the probed match does not. */
  lemma ProbeSelectsIff(m: HTTPRouteMatch, n: HTTPRouteMatch, k: HTTPRouteMatch, method_: string)
    requires k == m || k == n
    ensures Selects(k, ProbeRequest(m, n, method_), Probe(m, n)) <==>
              && Probe(m, n).path(PathType(k), PathValue(k), ProbePath(m, n))
              && (k.method_.None? || k.method_.value == method_)
              && Counting(Headers(k)) <= Counting(Headers(m)) && Counting(Params(k)) <= Counting(Params(m))
  {
    var r, t := ProbeRequest(m, n, method_), Probe(m, n);
    AllHoldIff(Headers(k), r.headers, t);
    AllHoldIff(Params(k), r.query, t);
    MarkIsLonger(m, n);
    forall c | c in Counting(Headers(k))
      ensures Holds(c, r.headers, t) <==> c in Counting(Headers(m))
    {
      MetIff(m, n, 'h', c);
    }
    forall c | c in Counting(Params(k))
      ensures Holds(c, r.query, t) <==> c in Counting(Params(m))
    {
      MetIff(m, n, 'q', c);
    }
    hide Counting, AllHold, Holds, Probe, Met, Mark, PathType, PathValue, Headers, Params, ProbePath, Accepts;
  }

  /** A method the match asks for, or one the other does not. */
  function MethodBetween(m: HTTPRouteMatch, n: HTTPRouteMatch): string {
    m.method_.GetOr(n.method_.GetOr("") + "!")
  }

  lemma SelectingTheSameShows(m: HTTPRouteMatch, n: HTTPRouteMatch)
    requires SelectTheSame(m, n)
    ensures PathShown(m, n)
    ensures n.method_.None? || n.method_.value == MethodBetween(m, n)
    ensures Counting(Headers(n)) <= Counting(Headers(m)) && Counting(Params(n)) <= Counting(Params(m))
  {
    hide Selects, Probe, ProbeRequest, Counting, PathType, PathValue, Headers, Params, ProbePath, Standard;
    var x := MethodBetween(m, n);
    ProbeIsStandard(m, n);
    OwnPathShown(m, n);
    ProbeSelectsIff(m, n, m, x);
    ProbeSelectsIff(m, n, n, x);
    assert Selects(m, ProbeRequest(m, n, x), Probe(m, n)) <==> Selects(n, ProbeRequest(m, n, x), Probe(m, n));
  }

  lemma SelectingIsMutual(m: HTTPRouteMatch, n: HTTPRouteMatch)
    ensures SelectTheSame(m, n) <==> SelectTheSame(n, m)
  {
    hide Selects, Standard;
  }

  /** For all matches: they select the same requests if and only if path, method and what counts are the same. */
  lemma SelectTheSameIff(m: HTTPRouteMatch, n: HTTPRouteMatch)
    ensures SelectTheSame(m, n) <==> SameEffect(m, n)
  {
    if SelectTheSame(m, n) {
      SelectingIsMutual(m, n);
      SelectingTheSameShows(m, n);
      SelectingTheSameShows(n, m);
      PathsShownIff(m, n);
      hide SelectTheSame, PathShown, SamePath, Counting, PathType, PathValue, Headers, Params;
    }
    if SameEffect(m, n) {
      forall r, t | Standard(t)
        ensures Selects(m, r, t) <==> Selects(n, r, t)
      {
        AllHoldIff(Headers(m), r.headers, t);
        AllHoldIff(Headers(n), r.headers, t);
        AllHoldIff(Params(m), r.query, t);
        AllHoldIff(Params(n), r.query, t);
        SamePathAccepted(m, n, r.path, t);
        hide Counting, AllHold, Holds, Standard, SamePath, PathType, PathValue, Headers, Params;
      }
    }
  }

  lemma SamePathAccepted(m: HTTPRouteMatch, n: HTTPRouteMatch, got: string, t: Trial)
    requires Standard(t) && SamePath(PathType(m), PathValue(m), PathType(n), PathValue(n))
    ensures t.path(PathType(m), PathValue(m), got) <==> t.path(PathType(n), PathValue(n), got)
  {
    hide Elements, PathType, PathValue;
  }

  // Names given twice

  predicate DistinctNames(conditions: seq<Condition>) {
    forall i, j :: 0 <= i < j < |conditions| ==> conditions[i].name != conditions[j].name
  }

  /** No name is given two different conditions. */
  predicate AgreeOnNames(conditions: seq<Condition>) {
    forall c, d :: c in conditions && d in conditions && c.name == d.name ==> c == d
  }

  /** A prefix is spelled without a trailing slash. */
  predicate PlainPath(m: HTTPRouteMatch) {
    PathType(m) == PATH_PREFIX ==> IsPlain(PathValue(m))
  }

  /** Its key means what it says: no separators in the fields, no header or parameter named twice, no prefix with a
      trailing slash. */
  ghost predicate WellSpelled(m: HTTPRouteMatch) {
    Separable(m) && DistinctNames(Headers(m)) && DistinctNames(Params(m)) && PlainPath(m)
  }

  /** The condition that counts for the name at `i`. */
  lemma {:induction false} FirstOfName(conditions: seq<Condition>, i: nat) returns (k: nat)
    requires i < |conditions|
    ensures k <= i && conditions[k].name == conditions[i].name && Counts(conditions, k)
  {
    if Counts(conditions, i) {
      k := i;
    } else {
      var j :| 0 <= j < i && conditions[j].name == conditions[i].name;
      k := FirstOfName(conditions, j);
    }
  }

  lemma CountingOfAgreeing(conditions: seq<Condition>)
    requires AgreeOnNames(conditions)
    ensures forall c :: c in Counting(conditions) <==> c in conditions
  {
    forall c | c in conditions
      ensures c in Counting(conditions)
    {
      var i :| 0 <= i < |conditions| && conditions[i] == c;
      var k := FirstOfName(conditions, i);
      assert conditions[k] in conditions;
    }
  }

  lemma DistinctNamesAgree(conditions: seq<Condition>)
    requires DistinctNames(conditions)
    ensures AgreeOnNames(conditions) && Distinct(conditions)
  {
  }

  lemma CountingDeterminesBag(a: seq<Condition>, b: seq<Condition>)
    requires DistinctNames(a) && DistinctNames(b)
    ensures Counting(a) == Counting(b) <==> multiset(a) == multiset(b)
  {
    DistinctNamesAgree(a);
    DistinctNamesAgree(b);
    CountingOfAgreeing(a);
    CountingOfAgreeing(b);
    hide Counting, DistinctNames, AgreeOnNames;
    if Counting(a) == Counting(b) {
      MultisetOfDistinct(a, Counting(a));
      MultisetOfDistinct(b, Counting(a));
    }
    if multiset(a) == multiset(b) {
      SameBagSameElements(a, b);
    }
  }

  lemma SameIsSameEffect(m: HTTPRouteMatch, n: HTTPRouteMatch)
    requires DistinctNames(Headers(m)) && DistinctNames(Headers(n))
    requires DistinctNames(Params(m)) && DistinctNames(Params(n))
    requires PlainPath(m) && PlainPath(n)
    ensures Same(m, n) <==> SameEffect(m, n)
  {
    if PathType(m) == PATH_PREFIX == PathType(n) {
      PlainSpellings(PathValue(m), PathValue(n));
    }
    hide Elements, IsPlain;
    CountingDeterminesBag(Headers(m), Headers(n));
    CountingDeterminesBag(Params(m), Params(n));
    hide Counting, DistinctNames, Headers, Params;
  }

  /** On matches without separators or repeated names the key keeps its promise, both ways. */
  lemma EqualKeysIffSameRequests(m: HTTPRouteMatch, n: HTTPRouteMatch)
    requires WellSpelled(m) && WellSpelled(n)
    ensures KeyOf(m) == KeyOf(n) <==> SelectTheSame(m, n)
  {
    hide KeyOf, Separable, Same, SameEffect, SelectTheSame, Headers, Params, DistinctNames;
    KeyIsCanonical(m, n);
    SameIsSameEffect(m, n);
    SelectTheSameIff(m, n);
  }

  // Equal keys, other requests

  function Swapped<T>(s: seq<T>, k: nat, j: nat): seq<T>
    requires k < j < |s|
  {
    s[k := s[j]][j := s[k]]
  }

  lemma SwappedBag<T>(s: seq<T>, k: nat, j: nat)
    requires k < j < |s|
    ensures multiset(Swapped(s, k, j)) == multiset(s)
  {
  }

  lemma SwapChangesCounting(a: seq<Condition>, k: nat, j: nat)
    requires k < j < |a| && a[k].name == a[j].name && a[k] != a[j] && Counts(a, k)
    ensures Counting(Swapped(a, k, j)) != Counting(a)
  {
    var b := Swapped(a, k, j);
    assert Counts(b, k);
    assert a[k] in Counting(a) && a[j] in Counting(b);
    OneCountsPerName(b);
    hide Counting;
  }

  /** Of a header given two ways, the one that counts and the other can change places: the key stays, the requests
      selected do not. */
  lemma RepeatedHeaderReordered(m: HTTPRouteMatch, k: nat, j: nat)
    requires k < j < |m.headers| && Counts(Headers(m), k)
    requires Headers(m)[k].name == Headers(m)[j].name && Headers(m)[k] != Headers(m)[j]
    ensures var n := m.(headers := Swapped(m.headers, k, j)); Same(m, n) && KeyOf(m) == KeyOf(n) && !SelectTheSame(m, n)
  {
    hide KeyOf, SameEffect, SelectTheSame, Counts, Map, Counting;
    var n := m.(headers := Swapped(m.headers, k, j));
    assert Headers(n) == Swapped(Headers(m), k, j);
    SwappedBag(Headers(m), k, j);
    SwapChangesCounting(Headers(m), k, j);
    hide Headers, Swapped;
    assert Params(n) == Params(m);
    SameMatchesShareKey(m, n);
    SelectTheSameIff(m, n);
    EffectNeedsCounting(m, n);
  }

  lemma EffectNeedsCounting(m: HTTPRouteMatch, n: HTTPRouteMatch)
    requires Counting(Headers(m)) != Counting(Headers(n)) || Counting(Params(m)) != Counting(Params(n))
    ensures !SameEffect(m, n)
  {
  }

  lemma RepeatedParamReordered(m: HTTPRouteMatch, k: nat, j: nat)
    requires k < j < |m.queryParams| && Counts(Params(m), k)
    requires Params(m)[k].name == Params(m)[j].name && Params(m)[k] != Params(m)[j]
    ensures var n := m.(queryParams := Swapped(m.queryParams, k, j));
            Same(m, n) && KeyOf(m) == KeyOf(n) && !SelectTheSame(m, n)
  {
    hide KeyOf, SameEffect, SelectTheSame, Counts, Map, Counting;
    var n := m.(queryParams := Swapped(m.queryParams, k, j));
    assert Params(n) == Swapped(Params(m), k, j);
    SwappedBag(Params(m), k, j);
    SwapChangesCounting(Params(m), k, j);
    hide Params, Swapped;
    assert Headers(n) == Headers(m);
    SameMatchesShareKey(m, n);
    SelectTheSameIff(m, n);
    EffectNeedsCounting(m, n);
  }

  lemma DisagreeingPair(a: seq<Condition>) returns (k: nat, j: nat)
    requires !AgreeOnNames(a)
    ensures k < j < |a| && a[k].name == a[j].name && a[k] != a[j] && Counts(a, k)
  {
    var c, d :| c in a && d in a && c.name == d.name && c != d;
    var i :| 0 <= i < |a| && a[i] == c;
    var l :| 0 <= l < |a| && a[l] == d;
    k := FirstOfName(a, i);
    j := if a[k] == c then l else i;
  }

  lemma AgreeingBags(a: seq<Condition>, b: seq<Condition>)
    requires AgreeOnNames(a) && multiset(a) == multiset(b)
    ensures Counting(a) == Counting(b)
  {
    SameBagSameElements(a, b);
    CountingOfAgreeing(a);
    CountingOfAgreeing(b);
    hide Counting;
  }

  lemma NoNewConditionsSeparable(m: HTTPRouteMatch, n: HTTPRouteMatch)
    requires Separable(m) && n == m.(headers := n.headers, queryParams := n.queryParams)
    requires forall h :: h in n.headers ==> h in m.headers
    requires forall q :: q in n.queryParams ==> q in m.queryParams
    ensures Separable(n)
  {
  }

  /** Equal keys mean equal requests for a separator-free match, against every other, if and only if it gives no name
      two different conditions. */
  lemma EqualKeysSufficeIff(m: HTTPRouteMatch)
    requires Separable(m)
    ensures (forall n :: Separable(n) && KeyOf(m) == KeyOf(n) ==> SelectTheSame(m, n)) <==>
              AgreeOnNames(Headers(m)) && AgreeOnNames(Params(m))
  {
    hide KeyOf, Separable, SelectTheSame, Counts, Counting, Map, Canonical;
    if AgreeOnNames(Headers(m)) && AgreeOnNames(Params(m)) {
      hide AgreeOnNames, Headers, Params, PathType, PathValue;
      forall n | Separable(n) && KeyOf(m) == KeyOf(n)
        ensures SelectTheSame(m, n)
      {
        KeyIsCanonical(m, n);
        AgreeingBags(Headers(m), Headers(n));
        AgreeingBags(Params(m), Params(n));
        SelectTheSameIff(m, n);
      }
    } else {
      var n := OrderMatters(m);
    }
  }

  /** Some other order of its headers or parameters. */
  lemma OrderMatters(m: HTTPRouteMatch) returns (n: HTTPRouteMatch)
    requires Separable(m) && !(AgreeOnNames(Headers(m)) && AgreeOnNames(Params(m)))
    ensures Separable(n) && KeyOf(m) == KeyOf(n) && !SelectTheSame(m, n)
  {
    hide KeyOf, Separable, SelectTheSame, Counts, Same, AgreeOnNames, Headers, Params;
    if !AgreeOnNames(Headers(m)) {
      var k, j := DisagreeingPair(Headers(m));
      SameSizes(m);
      RepeatedHeaderReordered(m, k, j);
      n := m.(headers := Swapped(m.headers, k, j));
    } else {
      var k, j := DisagreeingPair(Params(m));
      SameSizes(m);
      RepeatedParamReordered(m, k, j);
      n := m.(queryParams := Swapped(m.queryParams, k, j));
    }
    NoNewConditionsSeparable(m, n);
  }

  lemma SameSizes(m: HTTPRouteMatch)
    ensures |Headers(m)| == |m.headers| && |Params(m)| == |m.queryParams|
  {
  }

  // Same requests, other key

  function Without<T>(s: seq<T>, j: nat): seq<T>
    requires j < |s|
  {
    s[..j] + s[j + 1..]
  }

  lemma UncountedIsIdle(a: seq<Condition>, j: nat)
    requires j < |a| && !Counts(a, j)
    ensures Counting(Without(a, j)) == Counting(a)
  {
    var b := Without(a, j);
    assert forall i :: 0 <= i < |b| ==> b[i] == a[if i < j then i else i + 1];
    var first := FirstOfName(a, j);
    forall i | 0 <= i < |b|
      ensures Counts(b, i) <==> Counts(a, if i < j then i else i + 1)
    {
      var k := FirstOfName(a, if i < j then i else i + 1);
      assert b[if k < j then k else k - 1] == a[k];
    }
    forall c | c in Counting(a)
      ensures c in Counting(b)
    {
      var i :| 0 <= i < |a| && Counts(a, i) && a[i] == c;
      assert Counts(b, if i < j then i else i - 1);
    }
  }

  // The length of a joined text

  function Size(parts: seq<string>): nat {
    if parts == [] then 0 else |parts[0]| + 1 + Size(parts[1..])
  }

  lemma {:induction false} JoinSize(parts: seq<string>, sep: char)
    requires parts != []
    ensures |Join(parts, sep)| + 1 == Size(parts)
  {
    if |parts| > 1 {
      JoinSize(parts[1..], sep);
    }
  }

  lemma {:induction false} SizeAppends(a: seq<string>, b: seq<string>)
    ensures Size(a + b) == Size(a) + Size(b)
  {
    if a == [] {
      assert a + b == b;
    } else {
      assert (a + b)[1..] == a[1..] + b;
      SizeAppends(a[1..], b);
    }
  }

  lemma SizeWithout(s: seq<string>, j: nat)
    requires j < |s|
    ensures Size(s) == Size(Without(s, j)) + |s[j]| + 1
  {
    assert s == s[..j] + ([s[j]] + s[j + 1..]);
    SizeAppends(s[..j], [s[j]] + s[j + 1..]);
    SizeAppends(s[..j], s[j + 1..]);
    assert ([s[j]] + s[j + 1..])[1..] == s[j + 1..];
  }

  lemma {:induction false} SizeOfBag(s: seq<string>, t: seq<string>)
    requires multiset(s) == multiset(t)
    ensures Size(s) == Size(t)
  {
    SameBagSameElements(s, t);
    if s != [] {
      assert s[0] in s;
      var k :| 0 <= k < |t| && t[k] == s[0];
      RemoveOne(t, k);
      RemoveFirst(s);
      assert multiset(Without(t, k)) == multiset(t) - multiset{t[k]};
      SizeOfBag(s[1..], Without(t, k));
      SizeWithout(t, k);
    }
  }

  lemma JoinedTextsSize(a: seq<Condition>)
    requires a != []
    ensures |Join(SortedTexts(a), ',')| + 1 == Size(Map(Text, a))
  {
    hide Text, Join, SortedTexts, Map, Size;
    SortedTextsSize(a);
    JoinSize(SortedTexts(a), ',');
    SortedTextsBag(a);
    SizeOfBag(SortedTexts(a), Map(Text, a));
  }

  lemma SortedTextsSizeWithout(a: seq<Condition>, j: nat)
    requires j < |a| && |a| > 1
    ensures |Join(SortedTexts(Without(a, j)), ',')| < |Join(SortedTexts(a), ',')|
  {
    hide Text, Join, SortedTexts, Map, Size;
    JoinedTextsSize(a);
    JoinedTextsSize(Without(a, j));
    assert Map(Text, Without(a, j)) == Without(Map(Text, a), j);
    SizeWithout(Map(Text, a), j);
  }

  lemma KeySize(m: HTTPRouteMatch)
    ensures |KeyOf(m)| == |PathPart(m)| + Size(Listed(MethodPart(m))) + Size(Listed(HeadersPart(m)))
              + Size(Listed(QueryPart(m)))
  {
    hide MethodPart, HeadersPart, QueryPart, PathPart, Join;
    JoinSize(KeyParts(m), ';');
    SizeAppends([PathPart(m)], TailParts(m));
    SizeAppends(Listed(MethodPart(m)) + Listed(HeadersPart(m)), Listed(QueryPart(m)));
    SizeAppends(Listed(MethodPart(m)), Listed(HeadersPart(m)));
  }

  lemma SizeOfListed(p: Option<string>)
    ensures Size(Listed(p)) == if p.Some? then |p.value| + 1 else 0
  {
  }

  /** A header whose name was given before can be dropped: the requests selected stay, the key does not. */
  lemma RepeatedHeaderDropped(m: HTTPRouteMatch, j: nat)
    requires j < |m.headers| && !Counts(Headers(m), j)
    ensures var n := m.(headers := Without(m.headers, j)); SelectTheSame(m, n) && KeyOf(m) != KeyOf(n)
  {
    hide KeyOf, SelectTheSame, Join, SortedTexts, Map, Counting;
    var n := m.(headers := Without(m.headers, j));
    assert Headers(n) == Without(Headers(m), j);
    UncountedIsIdle(Headers(m), j);
    assert |Headers(m)| > 1;
    SortedTextsSizeWithout(Headers(m), j);
    hide Headers, Counts;
    SelectTheSameIff(m, n);
    KeySize(m);
    KeySize(n);
    SizeOfListed(HeadersPart(m));
    SizeOfListed(HeadersPart(n));
    hide Size;
  }

  lemma RepeatedParamDropped(m: HTTPRouteMatch, j: nat)
    requires j < |m.queryParams| && !Counts(Params(m), j)
    ensures var n := m.(queryParams := Without(m.queryParams, j)); SelectTheSame(m, n) && KeyOf(m) != KeyOf(n)
  {
    hide KeyOf, SelectTheSame, Join, SortedTexts, Map, Counting;
    var n := m.(queryParams := Without(m.queryParams, j));
    assert Params(n) == Without(Params(m), j);
    UncountedIsIdle(Params(m), j);
    assert |Params(m)| > 1;
    SortedTextsSizeWithout(Params(m), j);
    hide Params, Counts;
    SelectTheSameIff(m, n);
    KeySize(m);
    KeySize(n);
    SizeOfListed(QueryPart(m));
    SizeOfListed(QueryPart(n));
    hide Size;
  }

  lemma RepeatedName(a: seq<Condition>) returns (j: nat)
    requires !DistinctNames(a)
    ensures j < |a| && !Counts(a, j)
  {
    var i, k :| 0 <= i < k < |a| && a[i].name == a[k].name;
    j := k;
  }

  lemma SelectTheSameIsTransitive(a: HTTPRouteMatch, b: HTTPRouteMatch, c: HTTPRouteMatch)
    requires SelectTheSame(a, b) && SelectTheSame(b, c)
    ensures SelectTheSame(a, c)
  {
    hide Selects;
  }

  // Prefixes spelled two ways

  function WithPath(m: HTTPRouteMatch, path: string): HTTPRouteMatch {
    m.(path := Some(PathMatch(Some(PathType(m)), Some(path))))
  }

  /** Every prefix has another spelling, unless it ends in two slashes: with or without the trailing slash the requests
      selected are the same, and the key is not. */
  lemma PrefixSpelledTwice(m: HTTPRouteMatch)
    requires PathType(m) == PATH_PREFIX && !EndsInTwoSlashes(PathValue(m))
    ensures var n := WithPath(m, OtherSpelling(PathValue(m)));
            SelectTheSame(m, n) && !Same(m, n) && KeyOf(m) != KeyOf(n)
  {
    var v := PathValue(m);
    var n := WithPath(m, OtherSpelling(v));
    assert Headers(n) == Headers(m) && Params(n) == Params(m);
    assert |OtherSpelling(v)| != |v|;
    SpellingsIff(v, OtherSpelling(v));
    SelectTheSameIff(m, n);
    KeySize(m);
    KeySize(n);
    hide KeyOf, SelectTheSame, Join, SortedTexts, Map, Counting, Elements, Size, OtherSpelling, Headers, Params;
  }

  lemma OtherSpellingSeparable(m: HTTPRouteMatch, path: string)
    requires Separable(m) && (path <= PathValue(m) || path == PathValue(m) + "/")
    ensures Separable(WithPath(m, path))
  {
  }

  lemma OtherSpellingNear(v: string)
    ensures OtherSpelling(v) <= v || OtherSpelling(v) == v + "/"
  {
  }

  /** Every separator-free match selects what a well-spelled one does, and differs from it only if it is not
      well-spelled itself. */
  lemma {:induction false} WellSpelledTwin(m: HTTPRouteMatch) returns (n: HTTPRouteMatch)
    requires Separable(m)
    ensures WellSpelled(n) && SelectTheSame(m, n)
    ensures |n.headers| <= |m.headers| && |n.queryParams| <= |m.queryParams|
    ensures PlainPath(m) ==> PathValue(n) == PathValue(m)
    ensures !WellSpelled(m) ==>
              PathValue(n) != PathValue(m) || |n.headers| < |m.headers| || |n.queryParams| < |m.queryParams|
    decreases PlainPath(m) == false, |m.headers| + |m.queryParams|
  {
    hide KeyOf, Separable, SelectTheSame, Counts, Headers, Params, DistinctNames, IsPlain, OtherSpelling, Same;
    n := m;
    SameSizes(m);
    SelectsItself(m);
    if !PlainPath(m) {
      OtherIsPlain(PathValue(m));
      OtherSpellingNear(PathValue(m));
      PrefixSpelledTwice(m);
      var plain := WithPath(m, OtherSpelling(PathValue(m)));
      OtherSpellingSeparable(m, OtherSpelling(PathValue(m)));
      n := WellSpelledTwin(plain);
      SelectTheSameIsTransitive(m, plain, n);
    } else if !DistinctNames(Headers(m)) {
      var j := RepeatedName(Headers(m));
      RepeatedHeaderDropped(m, j);
      var less := m.(headers := Without(m.headers, j));
      NoNewConditionsSeparable(m, less);
      n := WellSpelledTwin(less);
      SelectTheSameIsTransitive(m, less, n);
    } else if !DistinctNames(Params(m)) {
      var j := RepeatedName(Params(m));
      RepeatedParamDropped(m, j);
      var less := m.(queryParams := Without(m.queryParams, j));
      NoNewConditionsSeparable(m, less);
      n := WellSpelledTwin(less);
      SelectTheSameIsTransitive(m, less, n);
    }
  }

  lemma SelectsItself(m: HTTPRouteMatch)
    ensures SelectTheSame(m, m)
  {
  }

  lemma SameHasSameSizes(m: HTTPRouteMatch, n: HTTPRouteMatch)
    ensures Same(m, n) ==>
              PathValue(m) == PathValue(n) && |m.headers| == |n.headers| && |m.queryParams| == |n.queryParams|
  {
    if Same(m, n) {
      SameBagSameElements(Headers(m), Headers(n));
      SameBagSameElements(Params(m), Params(n));
    }
  }

  ghost predicate KeepsPromise(m: HTTPRouteMatch, n: HTTPRouteMatch) {
    KeyOf(m) == KeyOf(n) <==> SelectTheSame(m, n)
  }

  /** A separator-free match keeps the promise against every well-spelled match if and only if it is well-spelled. */
  lemma PromiseKeptIffWellSpelled(m: HTTPRouteMatch)
    requires Separable(m)
    ensures (forall n :: WellSpelled(n) ==> KeepsPromise(m, n)) <==> WellSpelled(m)
  {
    hide KeyOf, Separable, SelectTheSame, WellSpelled, Headers, Params, Same;
    if WellSpelled(m) {
      forall n | WellSpelled(n)
        ensures KeepsPromise(m, n)
      {
        EqualKeysIffSameRequests(m, n);
      }
    } else {
      var n := WellSpelledTwin(m);
      WellSpelledIsSeparable(n);
      KeyIsCanonical(m, n);
      SameHasSameSizes(m, n);
      assert !KeepsPromise(m, n);
    }
  }

  lemma WellSpelledIsSeparable(m: HTTPRouteMatch)
    requires WellSpelled(m)
    ensures Separable(m)
  {
  }

  /** The match with its first header or parameter given once more. */
  lemma Stuttered(m: HTTPRouteMatch) returns (n: HTTPRouteMatch)
    requires Separable(m) && (m.headers != [] || m.queryParams != [])
    ensures Separable(n) && SelectTheSame(n, m) && KeyOf(n) != KeyOf(m)
  {
    hide KeyOf, SelectTheSame, Separable, PathType, PathValue;
    if m.headers != [] {
      n := m.(headers := [m.headers[0]] + m.headers);
      assert Headers(n)[1] == Headers(n)[0];
      RepeatedHeaderDropped(n, 1);
      assert Without(n.headers, 1) == m.headers;
    } else {
      n := m.(queryParams := [m.queryParams[0]] + m.queryParams);
      assert Params(n)[1] == Params(n)[0];
      RepeatedParamDropped(n, 1);
      assert Without(n.queryParams, 1) == m.queryParams;
    }
    NoNewConditionsSeparable(m, n);
  }

  lemma NothingCounts(a: seq<Condition>)
    ensures Counting(a) == {} <==> a == []
  {
    if a != [] {
      assert Counts(a, 0) && a[0] in Counting(a);
    }
  }

  /** Against every separator-free match it does so if and only if it has neither headers nor parameters, and its path
      is no prefix that has another spelling. */
  lemma PromiseKeptAmongAllIff(m: HTTPRouteMatch)
    requires Separable(m)
    ensures (forall n :: Separable(n) ==> KeepsPromise(m, n)) <==>
              && m.headers == [] && m.queryParams == []
              && (PathType(m) == PATH_PREFIX ==> EndsInTwoSlashes(PathValue(m)))
  {
    hide KeyOf, Separable, SelectTheSame, Same, SameEffect, EndsInTwoSlashes, OtherSpelling, WithPath;
    if m.headers != [] || m.queryParams != [] {
      var n := Stuttered(m);
      SelectingIsMutual(n, m);
      assert !KeepsPromise(m, n);
    } else if PathType(m) == PATH_PREFIX && !EndsInTwoSlashes(PathValue(m)) {
      OtherSpellingNear(PathValue(m));
      OtherSpellingSeparable(m, OtherSpelling(PathValue(m)));
      PrefixSpelledTwice(m);
      assert !KeepsPromise(m, WithPath(m, OtherSpelling(PathValue(m))));
    } else {
      forall n | Separable(n)
        ensures KeepsPromise(m, n)
      {
        KeyIsCanonical(m, n);
        SelectTheSameIff(m, n);
        NoConditionsSame(m, n);
      }
    }
  }

  lemma NoConditionsSame(m: HTTPRouteMatch, n: HTTPRouteMatch)
    requires m.headers == [] && m.queryParams == []
    requires PathType(m) == PATH_PREFIX ==> EndsInTwoSlashes(PathValue(m))
    ensures Same(m, n) <==> SameEffect(m, n)
  {
    SpellingsIff(PathValue(m), PathValue(n));
    SameSizes(m);
    SameSizes(n);
    NothingCounts(Headers(m));
    NothingCounts(Headers(n));
    NothingCounts(Params(m));
    NothingCounts(Params(n));
    hide Counting, Elements;
    EmptyBag(Headers(n));
    EmptyBag(Params(n));
  }

  lemma EmptyBag<T>(s: seq<T>)
    ensures multiset(s) == multiset{} <==> s == []
  {
    assert |multiset(s)| == |s|;
  }
}
