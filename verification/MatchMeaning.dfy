/** Where different matches share a key, because a field can spell what the key puts between its parts
    (pkg/gatewayapi/routematch.go). */
module MatchMeaning {
  import opened Manifests
  import opened Strings
  import opened Bags
  import opened Sorting
  import opened RouteMatch

  predicate IsBarePath(m: HTTPRouteMatch) {
    m.method_.None? && m.headers == [] && m.queryParams == []
  }

  lemma EmptyTailIffBarePath(m: HTTPRouteMatch)
    ensures TailParts(m) == [] <==> IsBarePath(m)
  {
  }

  /** The match of a bare path whose value spells out the rest of m's key. */
  ghost function Swallowed(m: HTTPRouteMatch): HTTPRouteMatch {
    HTTPRouteMatch(
      Some(PathMatch(Some(PathType(m)), Some(PathValue(m) + [';'] + Join(TailParts(m), ';')))), [], [], None)
  }

  lemma SwallowedSharesKey(m: HTTPRouteMatch)
    requires !IsBarePath(m)
    ensures KeyOf(Swallowed(m)) == KeyOf(m) && !Same(m, Swallowed(m)) && PathType(Swallowed(m)) == PathType(m)
  {
    var n, tail := Swallowed(m), Join(TailParts(m), ';');
    hide Join, TailParts, KeyParts, KeyOf, PathText;
    KeyOfEither(m);
    KeyOfEither(n);
    PathPartExtends(PathType(m), PathValue(m), [';'] + tail);
    assert PathValue(n) == PathValue(m) + ([';'] + tail);
    assert PathPart(m) + [';'] + tail == PathPart(m) + ([';'] + tail);
    assert |PathValue(n)| > |PathValue(m)|;
  }

  lemma KeyOfEither(m: HTTPRouteMatch)
    ensures IsBarePath(m) ==> KeyOf(m) == PathPart(m)
    ensures !IsBarePath(m) ==> KeyOf(m) == PathPart(m) + [';'] + Join(TailParts(m), ';')
  {
    EmptyTailIffBarePath(m);
    hide TailParts, PathPart;
    assert KeyParts(m)[1..] == TailParts(m);
  }

  lemma PathPartExtends(pathType: string, value: string, more: string)
    ensures PathText(pathType, value + more) == PathText(pathType, value) + more
  {
    assert pathType + [':'] + (value + more) == pathType + [':'] + value + more;
  }

  // Bare paths

  predicate StartsWith(s: string, prefix: string) {
    |s| >= |prefix| && s[..|prefix|] == prefix
  }

  /** Two colons at `i` and `j` split the text into a type, a name and a value. */
  predicate SplitsAt(s: string, i: int, j: int) {
    0 <= i < j < |s| && s[i] == ':' && s[j] == ':'
  }

  predicate SplitsLowerAt(s: string, i: int, j: int) {
    SplitsAt(s, i, j) && Lower(s[i + 1..j]) == s[i + 1..j]
  }

  /** What follows the path in some key: a method, or headers with a lower-case name, or parameters. */
  ghost predicate ReadsAsTail(s: string) {
    || StartsWith(s, "method=")
    || (StartsWith(s, "headers=") && exists i, j :: SplitsLowerAt(s[8..], i, j))
    || (StartsWith(s, "query=") && exists i, j :: SplitsAt(s[6..], i, j))
  }

  /** The text from `k` on is a semicolon and a tail. */
  ghost predicate TailAt(path: string, k: int) {
    0 <= k < |path| && path[k] == ';' && ReadsAsTail(path[k + 1..])
  }

  lemma JoinStartsWithFirst(parts: seq<string>, sep: char) returns (more: string)
    requires parts != []
    ensures Join(parts, sep) == parts[0] + more
  {
    more := if |parts| == 1 then "" else [sep] + Join(parts[1..], sep);
    assert |parts| > 1 ==> parts[0] + [sep] + Join(parts[1..], sep) == parts[0] + more;
  }

  lemma TextSplits(c: Condition, more: string)
    ensures var s, i := Text(c) + more, |c.matchType|;
            SplitsAt(s, i, i + 1 + |c.name|) && s[i + 1..i + 1 + |c.name|] == c.name
  {
    var s := c.matchType + ([':'] + (c.name + ([':'] + (c.value + more))));
    assert Text(c) + more == s;
  }

  /** The text that sorts first, and what follows it. */
  lemma FirstText(conditions: seq<Condition>) returns (c: Condition, more: string)
    requires conditions != []
    ensures c in conditions && Join(SortedTexts(conditions), ',') == Text(c) + more
  {
    hide SortedTexts, Text, Join;
    var texts := SortedTexts(conditions);
    SortedTextsSize(conditions);
    more := JoinStartsWithFirst(texts, ',');
    assert texts[0] in texts;
    var i :| 0 <= i < |conditions| && Map(Text, conditions)[i] == texts[0];
    c := conditions[i];
  }

  lemma PrefixThen(prefix: string, a: string, b: string)
    ensures prefix + a + b == prefix + (a + b)
    ensures StartsWith(prefix + (a + b), prefix) && (prefix + (a + b))[|prefix|..] == a + b
  {
  }

  lemma HeaderNamesAreLower(m: HTTPRouteMatch, c: Condition)
    requires c in Headers(m)
    ensures Lower(c.name) == c.name
  {
    var i :| 0 <= i < |m.headers| && Headers(m)[i] == c;
    LowerFacts(m.headers[i].name);
  }

  lemma HeadersRead(n: HTTPRouteMatch, more: string)
    requires n.headers != []
    ensures ReadsAsTail(HeadersText(SortedTexts(Headers(n))) + more)
  {
    hide Join, Lower, Text, SortedTexts, SplitsAt, StartsWith, Headers;
    SameSize(n);
    var c, rest := FirstText(Headers(n));
    PrefixThen("headers=", Text(c) + rest, more);
    assert Text(c) + rest + more == Text(c) + (rest + more);
    TextSplits(c, rest + more);
    HeaderNamesAreLower(n, c);
    assert SplitsLowerAt(Text(c) + (rest + more), |c.matchType|, |c.matchType| + 1 + |c.name|);
  }

  lemma QueryReads(n: HTTPRouteMatch, more: string)
    requires n.queryParams != []
    ensures ReadsAsTail(QueryText(SortedTexts(Params(n))) + more)
  {
    hide Join, Lower, Text, SortedTexts, SplitsAt, StartsWith, Params;
    SameSize(n);
    var c, rest := FirstText(Params(n));
    PrefixThen("query=", Text(c) + rest, more);
    assert Text(c) + rest + more == Text(c) + (rest + more);
    TextSplits(c, rest + more);
  }

  lemma SameSize(m: HTTPRouteMatch)
    ensures |Headers(m)| == |m.headers| && |Params(m)| == |m.queryParams|
  {
  }

  lemma FirstTailPart(n: HTTPRouteMatch)
    requires !IsBarePath(n)
    ensures TailParts(n) != []
    ensures TailParts(n)[0] == if n.method_.Some? then MethodText(n.method_.value)
                               else if n.headers != [] then HeadersText(SortedTexts(Headers(n)))
                               else QueryText(SortedTexts(Params(n)))
  {
    hide MethodText, HeadersText, QueryText, SortedTexts;
  }

  /** Every match that is more than a path has such a tail. */
  lemma TailReads(n: HTTPRouteMatch)
    requires !IsBarePath(n)
    ensures ReadsAsTail(Join(TailParts(n), ';'))
  {
    hide Join, TailParts, HeadersText, QueryText, ReadsAsTail;
    FirstTailPart(n);
    var more := JoinStartsWithFirst(TailParts(n), ';');
    if n.method_.Some? {
      MethodReads(n.method_.value, more);
    } else if n.headers != [] {
      HeadersRead(n, more);
    } else {
      QueryReads(n, more);
    }
  }

  lemma MethodReads(method_: string, more: string)
    ensures ReadsAsTail(MethodText(method_) + more)
  {
    PrefixThen("method=", method_, more);
    hide SplitsAt, SplitsLowerAt;
  }

  function ValueMatchAt(s: string, i: int, j: int): ValueMatch
    requires SplitsAt(s, i, j)
  {
    ValueMatch(Some(s[..i]), s[i + 1..j], s[j + 1..])
  }

  lemma SplitTextIs(s: string, i: int, j: int)
    requires SplitsAt(s, i, j)
    ensures Text(Condition(s[..i], s[i + 1..j], s[j + 1..])) == s
  {
    assert s == s[..i] + ([':'] + (s[i + 1..j] + ([':'] + s[j + 1..])));
  }

  lemma TailOfHeader(n: HTTPRouteMatch, s: string, i: int, j: int)
    requires SplitsLowerAt(s, i, j) && n == HTTPRouteMatch(n.path, [ValueMatchAt(s, i, j)], [], None)
    ensures TailParts(n) == [HeadersText([s])]
  {
    hide Lower, Text, SortedTexts, HeadersText;
    assert Headers(n) == [Condition(s[..i], s[i + 1..j], s[j + 1..])];
    SplitTextIs(s, i, j);
    SortedTextOfOne(Headers(n)[0]);
  }

  lemma TailOfParam(n: HTTPRouteMatch, s: string, i: int, j: int)
    requires SplitsAt(s, i, j) && n == HTTPRouteMatch(n.path, [], [ValueMatchAt(s, i, j)], None)
    ensures TailParts(n) == [QueryText([s])]
  {
    hide Lower, Text, SortedTexts, QueryText;
    assert Params(n) == [Condition(s[..i], s[i + 1..j], s[j + 1..])];
    SplitTextIs(s, i, j);
    SortedTextOfOne(Params(n)[0]);
  }

  lemma PrefixRestored(s: string, prefix: string)
    requires StartsWith(s, prefix)
    ensures s == prefix + s[|prefix|..]
  {
  }

  /** And every such tail is some match's: its method, or the value of its only header or parameter, takes the rest. */
  lemma MatchWithTail(path: HTTPRouteMatch, tail: string) returns (n: HTTPRouteMatch)
    requires IsBarePath(path) && ReadsAsTail(tail)
    ensures PathType(n) == PathType(path) && PathValue(n) == PathValue(path)
    ensures !IsBarePath(n) && Join(TailParts(n), ';') == tail
  {
    hide SplitsAt, SortedTexts, Headers, Params;
    if StartsWith(tail, "method=") {
      PrefixRestored(tail, "method=");
      n := path.(method_ := Some(tail[7..]));
      assert TailParts(n) == [MethodText(tail[7..])];
    } else if StartsWith(tail, "headers=") {
      PrefixRestored(tail, "headers=");
      var i, j :| SplitsLowerAt(tail[8..], i, j);
      n := path.(headers := [ValueMatchAt(tail[8..], i, j)]);
      TailOfHeader(n, tail[8..], i, j);
    } else {
      PrefixRestored(tail, "query=");
      var i, j :| SplitsAt(tail[6..], i, j);
      n := path.(queryParams := [ValueMatchAt(tail[6..], i, j)]);
      TailOfParam(n, tail[6..], i, j);
    }
  }

  /** Equal keys: the path types agree, and the path values with the tails run into each other. */
  lemma SameKeyShifts(m: HTTPRouteMatch, n: HTTPRouteMatch)
    requires ':' !in PathType(m) && ':' !in PathType(n) && IsBarePath(m) && !IsBarePath(n)
    ensures KeyOf(m) == KeyOf(n) <==>
              PathType(m) == PathType(n) && PathValue(m) == PathValue(n) + ([';'] + Join(TailParts(n), ';'))
  {
    hide Join, TailParts, KeyOf, KeyParts;
    KeyOfEither(m);
    KeyOfEither(n);
    var more := [';'] + Join(TailParts(n), ';');
    PathPartExtends(PathType(n), PathValue(n), more);
    assert PathPart(n) + [';'] + Join(TailParts(n), ';') == PathPart(n) + more;
    PathTextsEqualIff(PathType(m), PathValue(m), PathType(n), PathValue(n) + more);
  }

  lemma PathTextsEqualIff(a: string, v: string, b: string, w: string)
    requires ':' !in a && ':' !in b
    ensures PathText(a, v) == PathText(b, w) <==> a == b && v == w
  {
    if PathText(a, v) == PathText(b, w) {
      SamePrefix("path=", a + [':'] + v, b + [':'] + w);
      CutAtFirst(a, v, ':');
      CutAtFirst(b, w, ':');
    }
  }

  lemma BarePathsSameIffKeys(m: HTTPRouteMatch, n: HTTPRouteMatch)
    requires ':' !in PathType(m) && ':' !in PathType(n) && IsBarePath(m) && IsBarePath(n)
    ensures KeyOf(m) == KeyOf(n) <==> Same(m, n)
  {
    hide Join, TailParts, KeyOf, KeyParts, PathText;
    KeyOfEither(m);
    KeyOfEither(n);
    PathTextsEqualIff(PathType(m), PathValue(m), PathType(n), PathValue(n));
  }

  /** Among all matches, the key singles a match out exactly when that match is a bare path of which nothing after a
      semicolon reads as more than a path: everything else can be spelled another way. */
  lemma KeyIdentifiesIffBarePath(m: HTTPRouteMatch)
    requires ':' !in PathType(m)
    ensures (forall n :: ':' !in PathType(n) && KeyOf(n) == KeyOf(m) ==> Same(m, n)) <==>
              IsBarePath(m) && forall k :: !TailAt(PathValue(m), k)
  {
    hide KeyOf, Same, TailParts, Join, ReadsAsTail;
    if !IsBarePath(m) {
      SwallowedSharesKey(m);
    } else if k :| TailAt(PathValue(m), k) {
      var n := CutAtTail(m, k);
    } else {
      forall n | ':' !in PathType(n) && KeyOf(n) == KeyOf(m)
        ensures Same(m, n)
      {
        if IsBarePath(n) {
          BarePathsSameIffKeys(m, n);
        } else {
          SameKeyShifts(m, n);
          TailReads(n);
          ShiftedIsTail(PathValue(m), PathValue(n), Join(TailParts(n), ';'));
        }
      }
    }
  }

  lemma ShiftedIsTail(path: string, shorter: string, tail: string)
    requires path == shorter + ([';'] + tail) && ReadsAsTail(tail)
    ensures TailAt(path, |shorter|)
  {
    hide ReadsAsTail;
    assert path[|shorter| + 1..] == tail;
  }

  lemma CutAtTail(m: HTTPRouteMatch, k: int) returns (n: HTTPRouteMatch)
    requires IsBarePath(m) && ':' !in PathType(m) && TailAt(PathValue(m), k)
    ensures ':' !in PathType(n) && KeyOf(n) == KeyOf(m) && !Same(m, n)
  {
    hide KeyOf, TailParts, Join, ReadsAsTail;
    var v := PathValue(m);
    var path := HTTPRouteMatch(Some(PathMatch(Some(PathType(m)), Some(v[..k]))), [], [], None);
    n := MatchWithTail(path, v[k + 1..]);
    SameKeyShifts(m, n);
    assert v == v[..k] + ([';'] + v[k + 1..]);
    assert |PathValue(n)| < |v|;
  }

  lemma SortedTextOfOne(c: Condition)
    ensures SortedTexts([c]) == [Text(c)]
  {
    SortedTextsSize([c]);
    assert Map(Text, [c]) == [Text(c)];
    assert SortedTexts([c])[0] in SortedTexts([c]);
  }

  /** Any match with two or more headers shares its key with one that has a single header, whose value holds a
      comma: excluding commas from header values is not a convenience. */
  lemma CommaInHeaderValueCollides(m: HTTPRouteMatch) returns (n: HTTPRouteMatch)
    requires |m.headers| >= 2
    ensures |n.headers| == 1 && ',' in n.headers[0].value && n == m.(headers := n.headers)
    ensures KeyOf(n) == KeyOf(m) && !Same(m, n)
  {
    var c, rest := LeastHeader(m);
    hide *;
    n := m.(headers := [ValueMatch(Some(c.matchType), c.name, c.value + ([','] + rest))]);
    OneHeaderForAll(m, n, c, rest);
  }

  /** The header whose text sorts first, and the text of the others. */
  lemma LeastHeader(m: HTTPRouteMatch) returns (c: Condition, rest: string)
    requires |m.headers| >= 2
    ensures Lower(c.name) == c.name && Join(SortedTexts(Headers(m)), ',') == Text(c) + ([','] + rest)
  {
    hide SortedTexts, Text;
    var texts := SortedTexts(Headers(m));
    SortedTextsSize(Headers(m));
    assert texts[0] in texts;
    var i :| 0 <= i < |m.headers| && Map(Text, Headers(m))[i] == texts[0];
    c, rest := Headers(m)[i], Join(texts[1..], ',');
    LowerFacts(m.headers[i].name);
    assert Text(c) + [','] + rest == Text(c) + ([','] + rest);
  }

  lemma OneHeaderForAll(m: HTTPRouteMatch, n: HTTPRouteMatch, c: Condition, rest: string)
    requires |m.headers| >= 2 && Lower(c.name) == c.name
    requires n == m.(headers := [ValueMatch(Some(c.matchType), c.name, c.value + ([','] + rest))])
    requires Join(SortedTexts(Headers(m)), ',') == Text(c) + ([','] + rest)
    ensures KeyOf(n) == KeyOf(m) && !Same(m, n)
  {
    var only := c.(value := c.value + ([','] + rest));
    assert Headers(n) == [only];
    SortedTextOfOne(only);
    TextExtends(c, [','] + rest);
    assert Join(SortedTexts(Headers(n)), ',') == Text(only);
    LongerBagDiffers(Headers(m), Headers(n));
    HeadersDecideKey(m, n);
  }

  lemma HeadersDecideKey(m: HTTPRouteMatch, n: HTTPRouteMatch)
    requires n == m.(headers := n.headers) && |n.headers| > 0 && |m.headers| > 0
    requires Join(SortedTexts(Headers(n)), ',') == Join(SortedTexts(Headers(m)), ',')
    ensures KeyOf(n) == KeyOf(m)
  {
    hide Join, SortedTexts, Headers, Map, PathText, MethodText, KeyOf;
    assert Params(n) == Params(m);
    PartsDecideKey(m, n);
  }

  lemma PartsDecideKey(m: HTTPRouteMatch, n: HTTPRouteMatch)
    requires PathPart(n) == PathPart(m) && MethodPart(n) == MethodPart(m)
    requires HeadersPart(n) == HeadersPart(m) && QueryPart(n) == QueryPart(m)
    ensures KeyOf(n) == KeyOf(m)
  {
    hide Join, PathPart, MethodPart, HeadersPart, QueryPart, TailParts;
    assert KeyParts(n) == KeyParts(m);
  }

  lemma TextExtends(c: Condition, more: string)
    ensures Text(c.(value := c.value + more)) == Text(c) + more
  {
  }
}
