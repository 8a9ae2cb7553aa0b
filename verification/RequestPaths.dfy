/** Request paths against path matches, as the Gateway API fixes it (HTTPPathMatch): Exact is equality; PathPrefix
    goes element by element between slashes, a trailing slash of the prefix ignored. */
module RequestPaths {
  import opened Strings

  const EXACT := "Exact"
  const PATH_PREFIX := "PathPrefix"

  function Trimmed(path: string): string {
    if EndsInSlash(path) then path[..|path| - 1] else path
  }

  predicate EndsInSlash(path: string) {
    path != "" && path[|path| - 1] == '/'
  }

  function Elements(path: string): seq<string> {
    Split(Trimmed(path), '/')
  }

  /** Only the types the standard leaves to the implementation are free. */
  predicate Accepts(pathType: string, value: string, got: string, otherwise: bool) {
    if pathType == EXACT then got == value
    else if pathType == PATH_PREFIX then Elements(value) <= Elements(got)
    else otherwise
  }

  predicate SamePath(pathType: string, value: string, pathType': string, value': string) {
    pathType == pathType' && if pathType == PATH_PREFIX then Elements(value) == Elements(value') else value == value'
  }

  // Spellings of one prefix

  /** Only a prefix that ends in two slashes has no other spelling. */
  predicate EndsInTwoSlashes(path: string) {
    EndsInSlash(path) && EndsInSlash(Trimmed(path))
  }

  /** The same elements, spelled the other way. */
  function OtherSpelling(path: string): string {
    if EndsInSlash(path) then Trimmed(path) else path + "/"
  }

  /** Of the two spellings, the one without a trailing slash; of the root, the slash. */
  predicate IsPlain(path: string) {
    path == "/" || EndsInTwoSlashes(path) || (path != "" && !EndsInSlash(path))
  }

  lemma SameElementsIff(v: string, w: string)
    ensures Elements(v) == Elements(w) <==> Trimmed(v) == Trimmed(w)
  {
    SplitThenJoin(Trimmed(v), '/');
    SplitThenJoin(Trimmed(w), '/');
  }

  lemma TrimmedSpelling(v: string)
    ensures EndsInSlash(v) ==> v == Trimmed(v) + "/"
    ensures EndsInSlash(v + "/") && Trimmed(v + "/") == v
  {
  }

  /** A prefix has exactly two spellings, or one when it ends in two slashes. */
  lemma SpellingsIff(v: string, w: string)
    ensures Elements(v) == Elements(w) <==> w == v || (!EndsInTwoSlashes(v) && w == OtherSpelling(v))
  {
    SameElementsIff(v, w);
    TrimmedSpelling(v);
    TrimmedSpelling(w);
    hide Elements;
  }

  lemma PlainSpellings(v: string, w: string)
    requires IsPlain(v) && IsPlain(w)
    ensures Elements(v) == Elements(w) <==> v == w
  {
    SpellingsIff(v, w);
    TrimmedSpelling(v);
    hide Elements;
  }

  lemma OtherIsPlain(v: string)
    requires !IsPlain(v)
    ensures !EndsInTwoSlashes(v) && IsPlain(OtherSpelling(v))
    ensures OtherSpelling(v) != v && Elements(OtherSpelling(v)) == Elements(v)
  {
    SpellingsIff(v, OtherSpelling(v));
    TrimmedSpelling(v);
    hide Elements;
  }

  // A path that tells prefixes apart

  /** One element below the prefix, longer than `n`. */
  function Below(prefix: string, n: nat): (path: string)
    ensures |path| > n
  {
    Trimmed(prefix) + ['/'] + Xs(n)
  }

  lemma BelowElements(prefix: string, n: nat)
    ensures Elements(Below(prefix, n)) == Elements(prefix) + [Xs(n)]
  {
    var path := Below(prefix, n);
    assert path[|path| - 1] == Xs(n)[n];
    SplitAtSeparator(Trimmed(prefix), Xs(n), '/');
    SplitSeparatorFree(Xs(n), '/');
  }

  lemma {:induction false} PieceNoLonger(s: string, sep: char)
    ensures forall p :: p in Split(s, sep) ==> |p| <= |s|
  {
    if s != "" {
      PieceNoLonger(s[1..], sep);
    }
  }

  /** A prefix accepts what lies far below another exactly when it is a prefix of that one. */
  lemma BelowAccepted(prefix: string, w: string, n: nat)
    requires |w| <= n
    ensures Elements(w) <= Elements(Below(prefix, n)) <==> Elements(w) <= Elements(prefix)
  {
    BelowElements(prefix, n);
    PieceNoLonger(Trimmed(w), '/');
    hide Xs, Below;
    var e, last := Elements(prefix), Xs(n);
    assert last !in Elements(w);
    hide Elements;
    PrefixWithout(Elements(w), e, last);
  }

  lemma PrefixOfOneMore(a: seq<string>, b: seq<string>, x: string)
    ensures a <= b + [x] <==> a <= b || a == b + [x]
  {
    assert a <= b + [x] && |a| == |b| + 1 ==> a == b + [x];
    assert a <= b ==> a <= b + [x];
  }

  lemma PrefixWithout(a: seq<string>, b: seq<string>, x: string)
    requires x !in a
    ensures a <= b + [x] <==> a <= b
  {
    PrefixOfOneMore(a, b, x);
    assert x in b + [x];
  }

  /** Of two prefixes of one path that are equally long, each is the other. */
  lemma EquallyLongPrefixes(v: string, w: string, path: string)
    requires Elements(v) <= Elements(path) && Elements(w) <= Elements(path) && |v| == |w|
    ensures Elements(v) == Elements(w)
  {
    if |Elements(v)| <= |Elements(w)| {
      assert Elements(v) == Elements(w)[..|Elements(v)|];
      NestedPrefix(v, w);
    } else {
      assert Elements(w) == Elements(v)[..|Elements(w)|];
      NestedPrefix(w, v);
    }
  }

  /** A prefix of more elements is longer, however the two end. */
  lemma NestedPrefix(v: string, w: string)
    requires Elements(v) <= Elements(w)
    ensures Elements(v) == Elements(w) || |v| < |w|
  {
    var rest := Elements(w)[|Elements(v)|..];
    assert Elements(w) == Elements(v) + rest;
    SplitThenJoin(Trimmed(v), '/');
    SplitThenJoin(Trimmed(w), '/');
    if rest != [] {
      JoinAppends(Elements(v), rest, '/');
      LongerBelow(v, w, Join(rest, '/'));
    }
  }

  lemma LongerBelow(v: string, w: string, more: string)
    requires Trimmed(w) == Trimmed(v) + ['/'] + more
    ensures |w| > |v|
  {
    assert more == "" ==> Trimmed(w)[|Trimmed(w)| - 1] == '/';
  }
}
