/** Which of two matches wins a request, and when the best matches of two routes are tied on one (Gateway API,
    HTTPRouteRule.matches; pkg/templates/conflictingroutematch/template.go). */
module MatchPrecedence {
  import opened Manifests
  import opened Strings
  import opened Bags
  import opened RouteMatch
  import opened RequestPaths
  import opened MatchRequests
  import Sizes = Counting

  /** A path type whose precedence the standard fixes. */
  predicate StandardPath(m: HTTPRouteMatch) {
    PathType(m) == EXACT || PathType(m) == PATH_PREFIX
  }

  ghost predicate StandardPaths(matches: seq<HTTPRouteMatch>) {
    forall m :: m in matches ==> StandardPath(m)
  }

  /** An exact path, then the longer prefix, a method, more headers, more parameters. */
  predicate Outranks(p: HTTPRouteMatch, m: HTTPRouteMatch) {
    if PathType(p) != PathType(m) then PathType(p) == EXACT
    else if PathType(p) == PATH_PREFIX && |PathValue(p)| != |PathValue(m)| then |PathValue(p)| > |PathValue(m)|
    else if p.method_.Some? != m.method_.Some? then p.method_.Some?
    else if |p.headers| != |m.headers| then |p.headers| > |m.headers|
    else |p.queryParams| > |m.queryParams|
  }

  predicate EqualRank(m: HTTPRouteMatch, n: HTTPRouteMatch) {
    !Outranks(m, n) && !Outranks(n, m)
  }

  /** Of a route's matches that select the request none is better. */
  ghost predicate IsBest(m: HTTPRouteMatch, matches: seq<HTTPRouteMatch>, r: Request, t: Trial) {
    && m in matches && Selects(m, r, t)
    && forall p :: p in matches && Selects(p, r, t) ==> !Outranks(p, m)
  }

  ghost predicate TiedOn(mine: seq<HTTPRouteMatch>, theirs: seq<HTTPRouteMatch>, r: Request, t: Trial) {
    exists m, n :: IsBest(m, mine, r, t) && IsBest(n, theirs, r, t) && EqualRank(m, n)
  }

  /** There is a request on which the best matches of the two routes are equally good. */
  ghost predicate LeftTied(mine: seq<HTTPRouteMatch>, theirs: seq<HTTPRouteMatch>) {
    exists r, t :: Standard(t) && TiedOn(mine, theirs, r, t)
  }

  // The condition on the matches

  ghost function BothHeaders(m: HTTPRouteMatch, n: HTTPRouteMatch): set<Condition> {
    Counting(Headers(m)) + Counting(Headers(n))
  }

  ghost function BothParams(m: HTTPRouteMatch, n: HTTPRouteMatch): set<Condition> {
    Counting(Params(m)) + Counting(Params(n))
  }

  /** No name is asked to have two values. */
  ghost predicate OneValuePerName(conditions: set<Condition>) {
    forall c, d :: c in conditions && d in conditions && c.name == d.name && c.matchType == d.matchType == EXACT ==>
                     c.value == d.value
  }

  ghost predicate Gives(conditions: set<Condition>, name: string, value: string) {
    Condition(EXACT, name, value) in conditions
  }

  /** The pattern is asked of another name that has this very value. */
  ghost predicate AskedOfValue(conditions: set<Condition>, matchType: string, pattern: string, value: string) {
    exists name :: Condition(matchType, name, pattern) in conditions && Gives(conditions, name, value)
  }

  /** Where the headers and parameters hold, this condition cannot fail: it is one of them, or they fix the value and
      ask the same pattern of it elsewhere. */
  ghost predicate Follows(c: Condition, here: set<Condition>, headers: set<Condition>, params: set<Condition>) {
    || c in here
    || (&& c.matchType != EXACT
        && exists v :: Gives(here, c.name, v)
                       && (|| AskedOfValue(headers, c.matchType, c.value, v)
                           || AskedOfValue(params, c.matchType, c.value, v)))
  }

  ghost predicate AllFollow(conditions: seq<Condition>, here: set<Condition>, headers: set<Condition>,
                            params: set<Condition>)
  {
    forall c :: c in Counting(conditions) ==> Follows(c, here, headers, params)
  }

  /** Every path of the one is a path of the other. */
  predicate PathWithin(p: HTTPRouteMatch, m: HTTPRouteMatch) {
    if PathType(m) == EXACT then PathType(p) == EXACT && PathValue(p) == PathValue(m)
    else PathType(p) == PATH_PREFIX && Elements(PathValue(p)) <= Elements(PathValue(m))
  }

  /** Whatever both m and n select, p selects. */
  ghost predicate AsksNoMore(p: HTTPRouteMatch, m: HTTPRouteMatch, n: HTTPRouteMatch) {
    var headers, params := BothHeaders(m, n), BothParams(m, n);
    && PathWithin(p, m) && (p.method_.None? || p.method_ == m.method_)
    && AllFollow(Headers(p), headers, headers, params) && AllFollow(Params(p), params, headers, params)
  }

  /** The two are equally good, some request meets both, and whatever is better asks for more. */
  ghost predicate LeavesTie(mine: seq<HTTPRouteMatch>, theirs: seq<HTTPRouteMatch>, m: HTTPRouteMatch,
                            n: HTTPRouteMatch)
  {
    && m in mine && n in theirs && EqualRank(m, n)
    && SamePath(PathType(m), PathValue(m), PathType(n), PathValue(n)) && m.method_ == n.method_
    && OneValuePerName(BothHeaders(m, n)) && OneValuePerName(BothParams(m, n))
    && forall p :: (p in mine || p in theirs) && Outranks(p, m) ==> !AsksNoMore(p, m, n)
  }

  // From a request to the condition

  lemma MeetsBoth(m: HTTPRouteMatch, n: HTTPRouteMatch, r: Request, t: Trial)
    requires Selects(m, r, t) && Selects(n, r, t)
    ensures forall c :: c in BothHeaders(m, n) ==> Holds(c, r.headers, t)
    ensures forall c :: c in BothParams(m, n) ==> Holds(c, r.query, t)
  {
    AllHoldIff(Headers(m), r.headers, t);
    AllHoldIff(Headers(n), r.headers, t);
    AllHoldIff(Params(m), r.query, t);
    AllHoldIff(Params(n), r.query, t);
    hide Counting, AllHold, Holds;
  }

  lemma MetHaveOneValue(conditions: set<Condition>, values: map<string, string>, t: Trial)
    requires Standard(t) && forall c :: c in conditions ==> Holds(c, values, t)
    ensures OneValuePerName(conditions)
    ensures forall name, v :: Gives(conditions, name, v) ==> name in values && values[name] == v
  {
    forall name, v | Gives(conditions, name, v)
      ensures name in values && values[name] == v
    {
      assert Holds(Condition(EXACT, name, v), values, t);
    }
    forall c, d | c in conditions && d in conditions && c.name == d.name && c.matchType == d.matchType == EXACT
      ensures c.value == d.value
    {
      assert Holds(c, values, t) && Holds(d, values, t);
    }
  }

  lemma AskedOfValueHolds(conditions: set<Condition>, values: map<string, string>, t: Trial, matchType: string,
                          pattern: string, v: string)
    requires Standard(t) && forall c :: c in conditions ==> Holds(c, values, t)
    ensures AskedOfValue(conditions, matchType, pattern, v) ==> t.value(matchType, pattern, v)
  {
    MetHaveOneValue(conditions, values, t);
    hide Standard, Gives;
    if name :| Condition(matchType, name, pattern) in conditions && Gives(conditions, name, v) {
      assert Holds(Condition(matchType, name, pattern), values, t);
    }
  }

  lemma FollowingHolds(c: Condition, here: set<Condition>, values: map<string, string>, headers: set<Condition>,
                       params: set<Condition>, r: Request, t: Trial)
    requires Standard(t) && Follows(c, here, headers, params)
    requires forall d :: d in here ==> Holds(d, values, t)
    requires forall d :: d in headers ==> Holds(d, r.headers, t)
    requires forall d :: d in params ==> Holds(d, r.query, t)
    ensures Holds(c, values, t)
  {
    hide Standard, AskedOfValue, Gives;
    if c !in here {
      var v :| Gives(here, c.name, v)
               && (AskedOfValue(headers, c.matchType, c.value, v) || AskedOfValue(params, c.matchType, c.value, v));
      MetHaveOneValue(here, values, t);
      AskedOfValueHolds(headers, r.headers, t, c.matchType, c.value, v);
      AskedOfValueHolds(params, r.query, t, c.matchType, c.value, v);
    }
  }

  /** Whatever asks no more is selected too. */
  lemma AskingNoMoreSelects(p: HTTPRouteMatch, m: HTTPRouteMatch, n: HTTPRouteMatch, r: Request, t: Trial)
    requires Standard(t) && StandardPath(m) && Selects(m, r, t) && Selects(n, r, t) && AsksNoMore(p, m, n)
    ensures Selects(p, r, t)
  {
    var headers, params := BothHeaders(m, n), BothParams(m, n);
    MeetsBoth(m, n, r, t);
    forall c | c in Counting(Headers(p))
      ensures Holds(c, r.headers, t)
    {
      FollowingHolds(c, headers, r.headers, headers, params, r, t);
    }
    forall c | c in Counting(Params(p))
      ensures Holds(c, r.query, t)
    {
      FollowingHolds(c, params, r.query, headers, params, r, t);
    }
    AllHoldIff(Headers(p), r.headers, t);
    AllHoldIff(Params(p), r.query, t);
    PathWithinAccepts(p, m, r.path, t);
    hide Counting, AllHold, Holds, BothHeaders, BothParams, PathWithin, Standard;
  }

  lemma PathWithinAccepts(p: HTTPRouteMatch, m: HTTPRouteMatch, got: string, t: Trial)
    requires Standard(t) && StandardPath(m) && PathWithin(p, m) && t.path(PathType(m), PathValue(m), got)
    ensures t.path(PathType(p), PathValue(p), got)
  {
    hide Elements, PathType, PathValue;
  }

  lemma EqualRankSamePath(m: HTTPRouteMatch, n: HTTPRouteMatch, r: Request, t: Trial)
    requires Standard(t) && StandardPath(m) && StandardPath(n) && EqualRank(m, n)
    requires Selects(m, r, t) && Selects(n, r, t)
    ensures SamePath(PathType(m), PathValue(m), PathType(n), PathValue(n)) && m.method_ == n.method_
  {
    if PathType(m) == PATH_PREFIX {
      EquallyLongPrefixes(PathValue(m), PathValue(n), r.path);
    }
    hide Elements, PathType, PathValue, AllHold;
  }

  lemma EqualRankOutranked(p: HTTPRouteMatch, m: HTTPRouteMatch, n: HTTPRouteMatch)
    requires StandardPath(m) && StandardPath(n) && EqualRank(m, n)
    ensures Outranks(p, m) <==> Outranks(p, n)
  {
    hide PathType, PathValue;
  }

  lemma TieGivesPair(mine: seq<HTTPRouteMatch>, theirs: seq<HTTPRouteMatch>, r: Request, t: Trial, m: HTTPRouteMatch,
                     n: HTTPRouteMatch)
    requires StandardPaths(mine) && StandardPaths(theirs) && Standard(t)
    requires IsBest(m, mine, r, t) && IsBest(n, theirs, r, t) && EqualRank(m, n)
    ensures LeavesTie(mine, theirs, m, n)
  {
    hide Selects, Standard, StandardPath, Outranks, AsksNoMore, OneValuePerName;
    MeetsBoth(m, n, r, t);
    MetHaveOneValue(BothHeaders(m, n), r.headers, t);
    MetHaveOneValue(BothParams(m, n), r.query, t);
    EqualRankSamePath(m, n, r, t);
    forall p | (p in mine || p in theirs) && Outranks(p, m)
      ensures !AsksNoMore(p, m, n)
    {
      EqualRankOutranked(p, m, n);
      if AsksNoMore(p, m, n) {
        AskingNoMoreSelects(p, m, n, r, t);
      }
    }
  }

  // From the condition to a request

  /** Everything the matches spell, end to end: longer than any of it. */
  function Bulk(matches: seq<HTTPRouteMatch>): string {
    if matches == [] then "" else Spelled(matches[0]) + Bulk(matches[1..])
  }

  function Spelled(m: HTTPRouteMatch): string {
    PathValue(m) + m.method_.GetOr("") + Values(Headers(m)) + Values(Params(m)) + "!"
  }

  ghost predicate Shorter(m: HTTPRouteMatch, mark: string) {
    && |PathValue(m)| < |mark| && |m.method_.GetOr("")| < |mark|
    && Short(mark, Counting(Headers(m))) && Short(mark, Counting(Params(m)))
  }

  lemma SpelledIsLonger(m: HTTPRouteMatch, mark: string)
    requires |mark| >= |Spelled(m)|
    ensures Shorter(m, mark)
  {
    ValuesAreLonger(Headers(m));
    ValuesAreLonger(Params(m));
    hide Values, Headers, Params, PathValue;
  }

  lemma {:induction false} BulkIsLonger(matches: seq<HTTPRouteMatch>)
    ensures forall m :: m in matches ==> |Spelled(m)| <= |Bulk(matches)|
  {
    hide Spelled;
    if matches != [] {
      BulkIsLonger(matches[1..]);
      assert matches == [matches[0]] + matches[1..];
    }
  }

  /** The value a witness gives to a name: the one it is asked to have, or a mark of its own. */
  ghost function ValueFor(conditions: set<Condition>, mark: string, place: char, name: string): string {
    if v :| Gives(conditions, name, v) then v else mark + ([place] + name)
  }

  lemma GivenValue(conditions: set<Condition>, mark: string, place: char, name: string, v: string)
    requires OneValuePerName(conditions) && Gives(conditions, name, v)
    ensures ValueFor(conditions, mark, place, name) == v
  {
    var w := ValueFor(conditions, mark, place, name);
    assert Gives(conditions, name, w);
    assert Condition(EXACT, name, v).name == Condition(EXACT, name, w).name;
  }

  lemma MarkedValue(conditions: set<Condition>, mark: string, place: char, name: string)
    requires Short(mark, conditions)
    ensures |ValueFor(conditions, mark, place, name)| < |mark| ==>
              Gives(conditions, name, ValueFor(conditions, mark, place, name))
    ensures |ValueFor(conditions, mark, place, name)| >= |mark| ==>
              ValueFor(conditions, mark, place, name) == mark + ([place] + name)
              && forall v :: !Gives(conditions, name, v)
  {
    var w := ValueFor(conditions, mark, place, name);
    if v :| Gives(conditions, name, v) {
      assert Gives(conditions, name, w);
      assert Condition(EXACT, name, w) in conditions;
    }
  }

  ghost function WitnessValues(conditions: set<Condition>, mark: string, place: char): map<string, string> {
    map name | name in (set c | c in conditions :: c.name) :: ValueFor(conditions, mark, place, name)
  }

  /** The pattern is asked of a name that the witness gives this value. */
  ghost predicate Asked(conditions: set<Condition>, mark: string, place: char, matchType: string, pattern: string,
                        got: string)
  {
    exists name :: Condition(matchType, name, pattern) in conditions && ValueFor(conditions, mark, place, name) == got
  }

  ghost function Witness(headers: set<Condition>, params: set<Condition>, mark: string): Trial {
    Trial((pathType, path, got) => Accepts(pathType, path, got, false),
          (matchType, pattern, got) =>
            if matchType == EXACT then got == pattern
            else
              || Asked(headers, mark, 'h', matchType, pattern, got)
              || Asked(params, mark, 'q', matchType, pattern, got))
  }

  lemma WitnessIsStandard(headers: set<Condition>, params: set<Condition>, mark: string)
    ensures Standard(Witness(headers, params, mark))
    ensures forall pathType, path, got ::
              Witness(headers, params, mark).path(pathType, path, got) == Accepts(pathType, path, got, false)
  {
    assert PATH_PREFIX != EXACT by {
      assert |PATH_PREFIX| != |EXACT|;
    }
    forall pathType, path, got
      ensures Witness(headers, params, mark).path(pathType, path, got) == Accepts(pathType, path, got, false)
    {
      hide Accepts;
    }
    hide Elements, Asked;
  }

  predicate IsPlace(place: char) {
    place == 'h' || place == 'q'
  }

  lemma SameTagged(mark: string, p: char, x: string, q: char, y: string)
    requires mark + ([p] + x) == mark + ([q] + y)
    ensures p == q && x == y
  {
    assert [p] + x == (mark + ([p] + x))[|mark|..] == [q] + y;
    assert ([p] + x)[0] == p && ([q] + y)[0] == q;
    assert ([p] + x)[1..] == x && ([q] + y)[1..] == y;
  }

  /** A pattern asked of a value the witness gives is asked of that name, or of the same given value. */
  lemma AskedIff(here: set<Condition>, place: char, there: set<Condition>, place': char, mark: string, c: Condition)
    requires Short(mark, here) && Short(mark, there) && OneValuePerName(here) && OneValuePerName(there)
    requires place == place' ==> here == there
    ensures Asked(there, mark, place', c.matchType, c.value, ValueFor(here, mark, place, c.name)) <==>
              || (place == place' && c in here)
              || exists v :: Gives(here, c.name, v) && AskedOfValue(there, c.matchType, c.value, v)
  {
    var got := ValueFor(here, mark, place, c.name);
    MarkedValue(here, mark, place, c.name);
    if name :| Condition(c.matchType, name, c.value) in there && ValueFor(there, mark, place', name) == got {
      MarkedValue(there, mark, place', name);
      if |got| >= |mark| {
        SameTagged(mark, place, c.name, place', name);
      } else {
        assert AskedOfValue(there, c.matchType, c.value, got);
      }
    }
    if place == place' && c in here {
      assert Condition(c.matchType, c.name, c.value) == c;
    }
    if v :| Gives(here, c.name, v) && AskedOfValue(there, c.matchType, c.value, v) {
      var name :| Condition(c.matchType, name, c.value) in there && Gives(there, name, v);
      GivenValue(here, mark, place, c.name, v);
      GivenValue(there, mark, place', name, v);
    }
  }

  lemma ExactMetIff(here: set<Condition>, mark: string, place: char, c: Condition)
    requires c.matchType == EXACT && |c.value| < |mark| && Short(mark, here) && OneValuePerName(here)
    ensures ValueFor(here, mark, place, c.name) == c.value <==> c in here
  {
    MarkedValue(here, mark, place, c.name);
    assert Condition(EXACT, c.name, c.value) == c;
    if c in here {
      GivenValue(here, mark, place, c.name, c.value);
    }
  }

  lemma WitnessHoldsIff(headers: set<Condition>, params: set<Condition>, mark: string, place: char, c: Condition)
    ensures var here := if place == 'h' then headers else params;
            var got := ValueFor(here, mark, place, c.name);
            Holds(c, WitnessValues(here, mark, place), Witness(headers, params, mark)) <==>
              && (exists d :: d in here && d.name == c.name)
              && if c.matchType == EXACT then got == c.value
                 else
                   || Asked(headers, mark, 'h', c.matchType, c.value, got)
                   || Asked(params, mark, 'q', c.matchType, c.value, got)
  {
    hide Asked, ValueFor;
  }

  /** The witness meets a condition exactly when it follows from those it was made for. */
  lemma WitnessMeetsIff(headers: set<Condition>, params: set<Condition>, mark: string, place: char, c: Condition)
    requires IsPlace(place) && |c.value| < |mark| && Short(mark, headers) && Short(mark, params)
    requires OneValuePerName(headers) && OneValuePerName(params)
    ensures var here := if place == 'h' then headers else params;
            Holds(c, WitnessValues(here, mark, place), Witness(headers, params, mark)) <==>
              Follows(c, here, headers, params)
  {
    var here := if place == 'h' then headers else params;
    WitnessHoldsIff(headers, params, mark, place, c);
    NamesAreGiven(here, c.name);
    if c.matchType == EXACT {
      ExactMetIff(here, mark, place, c);
    } else {
      AskedIff(here, place, headers, 'h', mark, c);
      AskedIff(here, place, params, 'q', mark, c);
    }
    hide Asked, AskedOfValue, ValueFor, OneValuePerName, Short, Holds, Witness, WitnessValues, Gives;
  }

  lemma NamesAreGiven(conditions: set<Condition>, name: string)
    ensures (exists v :: Gives(conditions, name, v)) ==> exists d :: d in conditions && d.name == name
  {
    if v :| Gives(conditions, name, v) {
      assert Condition(EXACT, name, v).name == name;
    }
  }

  function WitnessPath(m: HTTPRouteMatch, n: nat): string {
    if PathType(m) == EXACT then PathValue(m) else Below(PathValue(m), n)
  }

  ghost function WitnessRequest(m: HTTPRouteMatch, n: HTTPRouteMatch, mark: string): Request {
    Request(WitnessPath(m, |mark|), m.method_.GetOr(mark), WitnessValues(BothHeaders(m, n), mark, 'h'),
            WitnessValues(BothParams(m, n), mark, 'q'))
  }

  lemma WitnessPathIff(p: HTTPRouteMatch, m: HTTPRouteMatch, n: nat)
    requires StandardPath(p) && StandardPath(m) && |PathValue(p)| <= n && (Outranks(p, m) || PathType(p) == PathType(m))
    ensures Accepts(PathType(p), PathValue(p), WitnessPath(m, n), false) <==> PathWithin(p, m)
  {
    BelowAccepted(PathValue(m), PathValue(p), n);
    hide Elements, Below, PathType, PathValue;
  }

  lemma WitnessConditionsIff(conditions: seq<Condition>, headers: set<Condition>, params: set<Condition>, mark: string,
                             place: char)
    requires IsPlace(place) && Short(mark, Counting(conditions)) && Short(mark, headers) && Short(mark, params)
    requires OneValuePerName(headers) && OneValuePerName(params)
    ensures var here := if place == 'h' then headers else params;
            AllHold(conditions, WitnessValues(here, mark, place), Witness(headers, params, mark)) <==>
              AllFollow(conditions, here, headers, params)
  {
    var here := if place == 'h' then headers else params;
    var values, t := WitnessValues(here, mark, place), Witness(headers, params, mark);
    AllHoldIff(conditions, values, t);
    hide AllHold, Holds, Follows, Counting, Witness, WitnessValues, OneValuePerName;
    forall c | c in Counting(conditions)
      ensures Holds(c, values, t) <==> Follows(c, here, headers, params)
    {
      WitnessMeetsIff(headers, params, mark, place, c);
    }
  }

  /** A match that outranks m, or is m or n, is selected exactly when it asks no more than both. */
  lemma WitnessSelectsIff(p: HTTPRouteMatch, m: HTTPRouteMatch, n: HTTPRouteMatch, mark: string)
    requires StandardPath(p) && StandardPath(m) && (Outranks(p, m) || PathType(p) == PathType(m))
    requires Shorter(p, mark) && Shorter(m, mark) && Shorter(n, mark)
    requires OneValuePerName(BothHeaders(m, n)) && OneValuePerName(BothParams(m, n))
    ensures Selects(p, WitnessRequest(m, n, mark), Witness(BothHeaders(m, n), BothParams(m, n), mark)) <==>
              AsksNoMore(p, m, n)
  {
    var headers, params := BothHeaders(m, n), BothParams(m, n);
    BothShort(m, n, mark);
    WitnessIsStandard(headers, params, mark);
    WitnessPathIff(p, m, |mark|);
    WitnessConditionsIff(Headers(p), headers, params, mark, 'h');
    WitnessConditionsIff(Params(p), headers, params, mark, 'q');
    hide AllHold, AllFollow, Accepts, PathWithin, PathType, PathValue, Headers, Params, BothHeaders, BothParams,
         Witness, WitnessPath, WitnessValues, Standard, OneValuePerName, Outranks, Short, Counting;
  }

  lemma BothShort(m: HTTPRouteMatch, n: HTTPRouteMatch, mark: string)
    requires Shorter(m, mark) && Shorter(n, mark)
    ensures Short(mark, BothHeaders(m, n)) && Short(mark, BothParams(m, n))
  {
    hide Counting, Headers, Params;
  }

  lemma AsksNoMoreThanItself(k: HTTPRouteMatch, m: HTTPRouteMatch, n: HTTPRouteMatch)
    requires StandardPath(m) && (k == m || k == n) && m.method_ == n.method_
    requires SamePath(PathType(m), PathValue(m), PathType(n), PathValue(n))
    ensures AsksNoMore(k, m, n)
  {
    hide Counting, Elements, PathType, PathValue, Headers, Params;
  }

  lemma PairGivesTie(mine: seq<HTTPRouteMatch>, theirs: seq<HTTPRouteMatch>, m: HTTPRouteMatch, n: HTTPRouteMatch)
    requires StandardPaths(mine) && StandardPaths(theirs) && LeavesTie(mine, theirs, m, n)
    ensures LeftTied(mine, theirs)
  {
    var mark := Bulk(mine + theirs);
    BulkIsLonger(mine + theirs);
    forall p | p in mine + theirs {
      SpelledIsLonger(p, mark);
    }
    var r, t := WitnessRequest(m, n, mark), Witness(BothHeaders(m, n), BothParams(m, n), mark);
    WitnessIsStandard(BothHeaders(m, n), BothParams(m, n), mark);
    assert m in mine + theirs && n in mine + theirs;
    AsksNoMoreThanItself(m, m, n);
    AsksNoMoreThanItself(n, m, n);
    WitnessSelectsIff(m, m, n, mark);
    WitnessSelectsIff(n, m, n, mark);
    hide Selects, Outranks, StandardPath, Shorter, OneValuePerName, AsksNoMore, Witness, WitnessRequest, Standard, Bulk;
    forall p | (p in mine || p in theirs) && Outranks(p, m)
      ensures !Selects(p, r, t)
    {
      assert p in mine + theirs;
      WitnessSelectsIff(p, m, n, mark);
    }
    forall p
      ensures Outranks(p, m) <==> Outranks(p, n)
    {
      EqualRankOutranked(p, m, n);
    }
    assert IsBest(m, mine, r, t) && IsBest(n, theirs, r, t);
    assert TiedOn(mine, theirs, r, t);
  }

  /** For all matches of standard path types: some request is tied between the best matches of the two routes if and
      only if two equally good ones, on one path and method, can be met together, and whatever outranks them asks for
      more. */
  lemma LeftTiedIff(mine: seq<HTTPRouteMatch>, theirs: seq<HTTPRouteMatch>)
    requires StandardPaths(mine) && StandardPaths(theirs)
    ensures LeftTied(mine, theirs) <==> exists m, n :: LeavesTie(mine, theirs, m, n)
  {
    hide LeavesTie, IsBest, EqualRank, StandardPaths, Standard;
    if LeftTied(mine, theirs) {
      var r, t :| Standard(t) && TiedOn(mine, theirs, r, t);
      var m, n :| IsBest(m, mine, r, t) && IsBest(n, theirs, r, t) && EqualRank(m, n);
      TieGivesPair(mine, theirs, r, t, m, n);
    }
    if m, n :| LeavesTie(mine, theirs, m, n) {
      PairGivesTie(mine, theirs, m, n);
    }
  }

  // A match both routes have

  function Name(c: Condition): string {
    c.name
  }

  function Names(conditions: seq<Condition>): set<string> {
    set i | 0 <= i < |conditions| :: conditions[i].name
  }

  lemma DistinctNamesCount(conditions: seq<Condition>)
    requires DistinctNames(conditions)
    ensures |Names(conditions)| == |conditions|
  {
    Sizes.DistinctSize(Map(Name, conditions), Names(conditions));
  }

  lemma FewerNames(a: seq<Condition>, b: seq<Condition>)
    requires DistinctNames(a) && DistinctNames(b) && Names(a) <= Names(b)
    ensures |a| <= |b|
  {
    DistinctNamesCount(a);
    DistinctNamesCount(b);
    hide Names, DistinctNames;
    assert Names(b) == Names(a) + (Names(b) - Names(a));
  }

  /** Conditions that follow from others are on their names. */
  lemma FollowingNames(a: seq<Condition>, b: seq<Condition>, headers: set<Condition>, params: set<Condition>)
    requires DistinctNames(a) && AllFollow(a, Counting(b), headers, params)
    ensures Names(a) <= Names(b)
  {
    DistinctNamesAgree(a);
    CountingOfAgreeing(a);
    hide AskedOfValue;
    forall i | 0 <= i < |a|
      ensures a[i].name in Names(b)
    {
      assert a[i] in Counting(a);
      assert exists c :: c in Counting(b) && c.name == a[i].name;
    }
  }

  /** Nothing well-spelled outranks a match and asks no more than it does. */
  lemma OutrankingAsksMore(p: HTTPRouteMatch, m: HTTPRouteMatch, n: HTTPRouteMatch)
    requires WellSpelled(p) && WellSpelled(m) && StandardPath(m) && SameEffect(m, n) && Outranks(p, m)
    ensures !AsksNoMore(p, m, n)
  {
    if AsksNoMore(p, m, n) {
      assert BothHeaders(m, n) == Counting(Headers(m)) && BothParams(m, n) == Counting(Params(m));
      FollowingNames(Headers(p), Headers(m), BothHeaders(m, n), BothParams(m, n));
      FollowingNames(Params(p), Params(m), BothHeaders(m, n), BothParams(m, n));
      FewerNames(Headers(p), Headers(m));
      FewerNames(Params(p), Params(m));
      hide Names, DistinctNames, AllFollow, Counting;
      if PathType(p) == PATH_PREFIX {
        NestedPrefix(PathValue(p), PathValue(m));
        PlainSpellings(PathValue(p), PathValue(m));
      }
    }
  }

  lemma SameEffectSameRank(m: HTTPRouteMatch, n: HTTPRouteMatch)
    requires Same(m, n)
    ensures EqualRank(m, n)
  {
    SameHasSameSizes(m, n);
    hide Headers, Params;
  }

  lemma OwnConditionsAgree(conditions: seq<Condition>)
    ensures OneValuePerName(Counting(conditions))
  {
    OneCountsPerName(conditions);
    hide Counting;
  }

  /** Two well-spelled matches that select the same requests leave some request tied, whatever else the routes have. */
  lemma SharedMatchLeavesTie(mine: seq<HTTPRouteMatch>, theirs: seq<HTTPRouteMatch>, m: HTTPRouteMatch,
                             n: HTTPRouteMatch)
    requires m in mine && n in theirs && SelectTheSame(m, n) && StandardPath(m)
    requires forall p :: p in mine || p in theirs ==> WellSpelled(p)
    ensures LeavesTie(mine, theirs, m, n)
  {
    SelectTheSameIff(m, n);
    SameIsSameEffect(m, n);
    SameEffectSameRank(m, n);
    OwnConditionsAgree(Headers(m));
    OwnConditionsAgree(Params(m));
    assert BothHeaders(m, n) == Counting(Headers(m)) && BothParams(m, n) == Counting(Params(m));
    hide SelectTheSame, Same, Outranks, AsksNoMore, WellSpelled, Counting, OneValuePerName;
    forall p | (p in mine || p in theirs) && Outranks(p, m)
      ensures !AsksNoMore(p, m, n)
    {
      OutrankingAsksMore(p, m, n);
    }
  }

  lemma OneHeader(m: HTTPRouteMatch, a: ValueMatch)
    ensures var x := m.(headers := [a]);
            && Headers(x) == [HeaderCondition(a)] && Counting(Headers(x)) == {HeaderCondition(a)}
            && Params(x) == Params(m)
            && PathType(x) == PathType(m) && PathValue(x) == PathValue(m)
  {
    var x := m.(headers := [a]);
    assert Headers(x) == [HeaderCondition(a)];
    assert Counts(Headers(x), 0);
  }

  /** A match narrowed by a header on either side, of different names: the two are good for different requests, and tied
      on those with both headers. */
  lemma NarrowedApart(m: HTTPRouteMatch, a: ValueMatch, b: ValueMatch)
    requires StandardPath(m) && HeaderCondition(a).name != HeaderCondition(b).name
    ensures var x, y := m.(headers := [a]), m.(headers := [b]);
            LeavesTie([x], [y], x, y) && !SameEffect(x, y) && !Same(x, y)
  {
    var x, y := m.(headers := [a]), m.(headers := [b]);
    OneHeader(m, a);
    OneHeader(m, b);
    OwnConditionsAgree(Params(m));
    hide Counting, AsksNoMore, Elements, Headers, Params, PathType, PathValue, HeaderCondition;
    assert HeaderCondition(a) in multiset(Headers(x)) && HeaderCondition(a) !in multiset(Headers(y));
    assert HeaderCondition(a) in Counting(Headers(x)) && HeaderCondition(a) !in Counting(Headers(y));
    assert EqualRank(x, y);
  }
}
