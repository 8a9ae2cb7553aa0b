/** What a match says once its defaults are read in: its key, its description and the requests it selects, in terms of
    the fields a manifest states (pkg/gatewayapi/routematch.go). */
module MatchTerms {
  import opened Manifests
  import opened Strings
  import opened Bags
  import opened Sorting
  import opened RouteMatch
  import opened RequestPaths
  import opened MatchRequests

  // Header names

  function Folded(c: char): char {
    if 'A' <= c <= 'Z' then c - 'A' + 'a' else c
  }

  /** The same letters, but for the case of those of ASCII. */
  predicate EqualFold(a: string, b: string) {
    |a| == |b| && forall i :: 0 <= i < |a| ==> Folded(a[i]) == Folded(b[i])
  }

  lemma {:induction false} LowerAt(s: string)
    ensures forall i :: 0 <= i < |s| ==> Lower(s)[i] == Folded(s[i])
  {
    if s != "" {
      LowerAt(s[1..]);
      assert Lower(s)[1..] == Lower(s[1..]);
    }
  }

  /** Lowering makes names equal exactly when they differ in case alone. */
  lemma LowerFoldsCase(a: string, b: string)
    ensures Lower(a) == Lower(b) <==> EqualFold(a, b)
  {
    LowerAt(a);
    LowerAt(b);
    if EqualFold(a, b) {
      assert Lower(a) == Lower(b);
    }
  }

  // Defaults

  function FilledType(p: Option<PathMatch>): string {
    if p.Some? && p.value.matchType.Some? then p.value.matchType.value else "PathPrefix"
  }

  function FilledPath(p: Option<PathMatch>): string {
    if p.Some? && p.value.value.Some? then p.value.value.value else "/"
  }

  function FilledIn(v: ValueMatch): ValueMatch {
    if v.matchType.Some? then v else v.(matchType := Some("Exact"))
  }

  function AllFilledIn(vs: seq<ValueMatch>): (r: seq<ValueMatch>)
    ensures |r| == |vs| && forall i :: 0 <= i < |vs| ==> r[i] == FilledIn(vs[i])
  {
    seq(|vs|, i requires 0 <= i < |vs| => FilledIn(vs[i]))
  }

  /** The match with every default of the Gateway API written out. */
  function Filled(m: HTTPRouteMatch): HTTPRouteMatch {
    HTTPRouteMatch(
      Some(PathMatch(Some(FilledType(m.path)), Some(FilledPath(m.path)))), AllFilledIn(m.headers),
      AllFilledIn(m.queryParams), m.method_)
  }

  lemma FilledFields(m: HTTPRouteMatch)
    ensures PathType(m) == FilledType(m.path) == PathType(Filled(m))
    ensures PathValue(m) == FilledPath(m.path) == PathValue(Filled(m))
    ensures Headers(Filled(m)) == Headers(m) && Params(Filled(m)) == Params(m)
  {
    assert forall v :: HeaderCondition(FilledIn(v)) == HeaderCondition(v);
    assert forall v :: ParamCondition(FilledIn(v)) == ParamCondition(v);
  }

  /** Spelling out what a manifest leaves out changes neither the key nor the description of a match, nor the requests
      it selects. */
  lemma DefaultsAreNoDifference(m: HTTPRouteMatch)
    ensures KeyOf(Filled(m)) == KeyOf(m) && Canonical(Filled(m)) == Canonical(m)
    ensures SelectTheSame(Filled(m), m)
  {
    FilledFields(m);
    hide PathType, PathValue, Headers, Params, SortedTexts, FilledType, FilledPath;
  }

  /** A rule without matches, and one whose match is empty, select every request: its path starts with a slash. */
  lemma EveryRequestIsSelected(r: Request, t: Trial)
    requires Standard(t)
    ensures Selects(EVERY_REQUEST, r, t) <==> r.path == "" || r.path[0] == '/'
  {
    PrefixTakesInIff(t, "/", r.path);
    assert WithoutSlash("/") == "" && "" + "/" == "/";
    assert "/" <= WithoutSlash(r.path) <==> WithoutSlash(r.path) != "" && WithoutSlash(r.path)[0] == '/';
    assert Headers(EVERY_REQUEST) == [] && Params(EVERY_REQUEST) == [];
    hide Standard;
  }

  // What is selected

  predicate IsFirstOfName(names: seq<string>, i: int) {
    0 <= i < |names| && forall j :: 0 <= j < i ==> names[j] != names[i]
  }

  function NamesOf(vs: seq<ValueMatch>): (r: seq<string>)
    ensures |r| == |vs| && forall i :: 0 <= i < |vs| ==> r[i] == vs[i].name
  {
    seq(|vs|, i requires 0 <= i < |vs| => vs[i].name)
  }

  function LowerNamesOf(vs: seq<ValueMatch>): (r: seq<string>)
    ensures |r| == |vs| && forall i :: 0 <= i < |vs| ==> r[i] == Lower(vs[i].name)
  {
    seq(|vs|, i requires 0 <= i < |vs| => Lower(vs[i].name))
  }

  /** The first condition on each name holds of the values. */
  ghost predicate FirstOnesHold(vs: seq<ValueMatch>, names: seq<string>, values: map<string, string>, t: Trial)
    requires |names| == |vs|
  {
    forall i :: IsFirstOfName(names, i) ==>
                  names[i] in values && t.value(FilledIn(vs[i]).matchType.value, vs[i].value, values[names[i]])
  }

  lemma HeadersHoldIff(m: HTTPRouteMatch, values: map<string, string>, t: Trial)
    ensures AllHold(Headers(m), values, t) <==> FirstOnesHold(m.headers, LowerNamesOf(m.headers), values, t)
  {
    var names := LowerNamesOf(m.headers);
    forall i | 0 <= i < |m.headers|
      ensures Counts(Headers(m), i) <==> IsFirstOfName(names, i)
    {
    }
  }

  lemma ParamsHoldIff(m: HTTPRouteMatch, values: map<string, string>, t: Trial)
    ensures AllHold(Params(m), values, t) <==> FirstOnesHold(m.queryParams, NamesOf(m.queryParams), values, t)
  {
    var names := NamesOf(m.queryParams);
    forall i | 0 <= i < |m.queryParams|
      ensures Counts(Params(m), i) <==> IsFirstOfName(names, i)
    {
    }
  }

  /** A match selects a request on its path, its method, and the first header of each name, whatever its case, and
      parameter of each name, case and all. */
  lemma SelectsIff(m: HTTPRouteMatch, r: Request, t: Trial)
    ensures Selects(m, r, t) <==>
              && t.path(FilledType(m.path), FilledPath(m.path), r.path)
              && (m.method_.Some? ==> m.method_.value == r.method_)
              && FirstOnesHold(m.headers, LowerNamesOf(m.headers), r.headers, t)
              && FirstOnesHold(m.queryParams, NamesOf(m.queryParams), r.query, t)
  {
    FilledFields(m);
    HeadersHoldIff(m, r.headers, t);
    ParamsHoldIff(m, r.query, t);
    hide PathType, PathValue, Headers, Params, AllHold, FirstOnesHold, FilledType, FilledPath;
  }

  // The key

  function TextOf(name: string, v: ValueMatch): string {
    FilledIn(v).matchType.value + ":" + name + ":" + v.value
  }

  function HeaderTexts(vs: seq<ValueMatch>): (r: seq<string>)
    ensures |r| == |vs| && forall i :: 0 <= i < |vs| ==> r[i] == TextOf(Lower(vs[i].name), vs[i])
  {
    seq(|vs|, i requires 0 <= i < |vs| => TextOf(Lower(vs[i].name), vs[i]))
  }

  function ParamTexts(vs: seq<ValueMatch>): (r: seq<string>)
    ensures |r| == |vs| && forall i :: 0 <= i < |vs| ==> r[i] == TextOf(vs[i].name, vs[i])
  {
    seq(|vs|, i requires 0 <= i < |vs| => TextOf(vs[i].name, vs[i]))
  }

  ghost predicate IsSorted(texts: seq<string>, unsorted: seq<string>) {
    multiset(texts) == multiset(unsorted) && Ascending(texts, Less)
  }

  lemma TextIs(c: Condition)
    ensures Text(c) == c.matchType + ":" + c.name + ":" + c.value
  {
  }

  lemma TextsAre(m: HTTPRouteMatch)
    ensures Map(Text, Headers(m)) == HeaderTexts(m.headers)
    ensures Map(Text, Params(m)) == ParamTexts(m.queryParams)
  {
    hide Text, TextOf, Lower;
    forall i | 0 <= i < |m.headers|
      ensures Map(Text, Headers(m))[i] == HeaderTexts(m.headers)[i]
    {
      HeaderTextIs(m.headers[i]);
    }
    forall i | 0 <= i < |m.queryParams|
      ensures Map(Text, Params(m))[i] == ParamTexts(m.queryParams)[i]
    {
      ParamTextIs(m.queryParams[i]);
    }
  }

  lemma HeaderTextIs(h: ValueMatch)
    ensures Text(HeaderCondition(h)) == TextOf(Lower(h.name), h)
  {
    TextIs(HeaderCondition(h));
    hide Text;
  }

  lemma ParamTextIs(q: ValueMatch)
    ensures Text(ParamCondition(q)) == TextOf(q.name, q)
  {
    TextIs(ParamCondition(q));
    hide Text;
  }

  lemma SortedTextsAre(m: HTTPRouteMatch)
    ensures IsSorted(SortedTexts(Headers(m)), HeaderTexts(m.headers))
    ensures IsSorted(SortedTexts(Params(m)), ParamTexts(m.queryParams))
    ensures |SortedTexts(Headers(m))| == |m.headers| && |SortedTexts(Params(m))| == |m.queryParams|
  {
    StringsAreOrdered();
    TextsAre(m);
    SameBagSameSize(SortedTexts(Headers(m)), HeaderTexts(m.headers));
    SameBagSameSize(SortedTexts(Params(m)), ParamTexts(m.queryParams));
    hide Headers, Params, Text, Less;
  }

  lemma SameBagSameSize(s: seq<string>, t: seq<string>)
    ensures multiset(s) == multiset(t) ==> |s| == |t|
  {
    assert |s| == |multiset(s)| && |t| == |multiset(t)|;
  }

  function Listing(label_: string, texts: seq<string>): string {
    if texts == [] then "" else ";" + label_ + "=" + Join(texts, ',')
  }

  function Semi(part: Option<string>): string {
    if part.Some? then ";" + part.value else ""
  }

  lemma JoinListed(parts: seq<string>, part: Option<string>)
    requires parts != []
    ensures Join(parts + Listed(part), ';') == Join(parts, ';') + Semi(part)
  {
    if part.Some? {
      JoinAppends(parts, [part.value], ';');
    } else {
      assert parts + [] == parts;
    }
  }

  lemma PathPartIs(pathType: string, path: string)
    ensures PathText(pathType, path) == "path=" + pathType + ":" + path
  {
  }

  lemma ListPartsAre(texts: seq<string>)
    ensures texts != [] ==> ";" + HeadersText(texts) == Listing("headers", texts)
    ensures texts != [] ==> ";" + QueryText(texts) == Listing("query", texts)
  {
    hide Join;
  }

  lemma PartsAre(m: HTTPRouteMatch)
    ensures PathPart(m) == "path=" + FilledType(m.path) + ":" + FilledPath(m.path)
    ensures Semi(MethodPart(m)) == if m.method_.Some? then ";method=" + m.method_.value else ""
    ensures Semi(HeadersPart(m)) == Listing("headers", SortedTexts(Headers(m)))
    ensures Semi(QueryPart(m)) == Listing("query", SortedTexts(Params(m)))
  {
    FilledFields(m);
    SortedTextsAre(m);
    PathPartIs(PathType(m), PathValue(m));
    ListPartsAre(SortedTexts(Headers(m)));
    ListPartsAre(SortedTexts(Params(m)));
    MethodPartIs(m);
    hide SortedTexts, Headers, Params, PathType, PathValue, FilledType, FilledPath, IsSorted, HeadersText, QueryText,
         PathText, MethodPart;
  }

  lemma MethodPartIs(m: HTTPRouteMatch)
    ensures Semi(MethodPart(m)) == if m.method_.Some? then ";method=" + m.method_.value else ""
  {
  }

  /** The key to the letter: the path, then the method, headers and parameters there are, each list sorted. */
  lemma KeyIs(m: HTTPRouteMatch)
    ensures exists headers, params ::
              && IsSorted(headers, HeaderTexts(m.headers)) && IsSorted(params, ParamTexts(m.queryParams))
              && KeyOf(m) == "path=" + FilledType(m.path) + ":" + FilledPath(m.path)
                             + (if m.method_.Some? then ";method=" + m.method_.value else "")
                             + Listing("headers", headers) + Listing("query", params)
  {
    PartsAre(m);
    SortedTextsAre(m);
    hide SortedTexts, Headers, Params, PathPart, MethodPart, HeadersPart, QueryPart, IsSorted, Listing, Listed,
         Semi;
    var a, b, c := Listed(MethodPart(m)), Listed(HeadersPart(m)), Listed(QueryPart(m));
    assert KeyParts(m) == [PathPart(m)] + a + b + c by {
      ConcatAssociates([PathPart(m)], a, b, c);
    }
    JoinListed([PathPart(m)], MethodPart(m));
    JoinListed([PathPart(m)] + a, HeadersPart(m));
    JoinListed([PathPart(m)] + a + b, QueryPart(m));
    assert Join([PathPart(m)], ';') == PathPart(m);
    hide Join;
    assert IsSorted(SortedTexts(Headers(m)), HeaderTexts(m.headers));
  }

  lemma DescriptionIs(m: HTTPRouteMatch)
    ensures Canonical(m).describe
         == MatchDescription(FilledType(m.path), FilledPath(m.path), m.method_, |m.headers|, |m.queryParams|)
  {
    FilledFields(m);
  }

  // Prefixes

  function WithoutSlash(path: string): string {
    if path != "" && path[|path| - 1] == '/' then path[..|path| - 1] else path
  }

  lemma LongerSplitsLonger(a: string, b: string, sep: char)
    requires a + [sep] <= b
    ensures Split(a, sep) <= Split(b, sep)
  {
    var rest := b[|a| + 1..];
    assert b == a + [sep] + rest;
    SplitAtSeparator(a, rest, sep);
    hide Split;
  }

  lemma ShorterSplit(a: string, b: string, sep: char)
    requires Split(a, sep) <= Split(b, sep)
    ensures a == b || a + [sep] <= b
  {
    var front := Split(a, sep);
    var rest := Split(b, sep)[|front|..];
    assert Split(b, sep) == front + rest;
    SplitThenJoin(a, sep);
    SplitThenJoin(b, sep);
    hide Split, Join;
    if rest != [] {
      JoinAppends(front, rest, sep);
    } else {
      assert front + [] == front;
    }
  }

  /** A prefix takes in its own path and all below it, element by element, a trailing slash aside. */
  lemma PrefixTakesInIff(t: Trial, prefix: string, got: string)
    requires Standard(t)
    ensures t.path("PathPrefix", prefix, got) <==>
              || WithoutSlash(got) == WithoutSlash(prefix)
              || WithoutSlash(prefix) + "/" <= WithoutSlash(got)
    ensures t.path("Exact", prefix, got) <==> got == prefix
  {
    var a, b := WithoutSlash(prefix), WithoutSlash(got);
    if a + ['/'] <= b {
      LongerSplitsLonger(a, b, '/');
    }
    if Split(a, '/') <= Split(b, '/') {
      ShorterSplit(a, b, '/');
    }
    hide Split;
    assert Elements(prefix) <= Elements(got) <==> t.path(PATH_PREFIX, prefix, got);
    assert t.path(EXACT, prefix, got) <==> got == prefix;
  }
}
