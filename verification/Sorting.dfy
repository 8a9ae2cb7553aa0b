/** Go's `sort` package, specified: a sort returns the one ascending arrangement of the elements it was given. */
module Sorting {
  import Strings

  /** What a strict total order promises about three elements. */
  ghost predicate OrderLaws<T>(less: (T, T) -> bool, a: T, b: T, c: T) {
    && !less(a, a)
    && (a == b || less(a, b) || less(b, a))
    && (less(a, b) && less(b, c) ==> less(a, c))
  }

  ghost predicate StrictTotalOrder<T(!new)>(less: (T, T) -> bool) {
    forall a, b, c {:trigger OrderLaws(less, a, b, c)} :: OrderLaws(less, a, b, c)
  }

  ghost predicate Ascending<T>(s: seq<T>, less: (T, T) -> bool) {
    forall i, j :: 0 <= i < j < |s| ==> !less(s[j], s[i])
  }

  ghost predicate Distinct<T>(s: seq<T>) {
    forall i, j :: 0 <= i < j < |s| ==> s[i] != s[j]
  }

  ghost predicate IsLeast<T>(x: T, m: multiset<T>, less: (T, T) -> bool) {
    x in m && forall y :: y in m ==> !less(y, x)
  }

  lemma {:induction false} LeastExists<T(!new)>(m: multiset<T>, less: (T, T) -> bool) returns (x: T)
    requires StrictTotalOrder(less) && m != multiset{}
    ensures IsLeast(x, m, less)
    decreases |m|
  {
    var e :| e in m;
    var rest := m - multiset{e};
    assert m == rest + multiset{e};
    assert OrderLaws(less, e, e, e);
    x := e;
    if rest != multiset{} {
      var y := LeastExists(rest, less);
      if less(y, e) {
        x := y;
        assert OrderLaws(less, y, e, y) && OrderLaws(less, y, y, y);
      } else {
        forall z | z in m
          ensures !less(z, e)
        {
          assert z == e || z in rest;
          assert OrderLaws(less, z, e, e) && OrderLaws(less, y, z, e) && OrderLaws(less, z, y, e);
        }
      }
    }
  }

  lemma PrependLeast<T(!new)>(x: T, rest: seq<T>, m: multiset<T>, less: (T, T) -> bool)
    requires IsLeast(x, m, less) && Ascending(rest, less) && multiset(rest) == m - multiset{x}
    ensures Ascending([x] + rest, less)
    ensures multiset([x] + rest) == m
  {
    forall j | 0 <= j < |rest|
      ensures !less(rest[j], x)
    {
      assert rest[j] in multiset(rest);
    }
  }

  /** The ascending arrangement of the elements of `m`. */
  ghost function Ordered<T(!new)>(m: multiset<T>, less: (T, T) -> bool): (s: seq<T>)
    requires StrictTotalOrder(less)
    ensures multiset(s) == m
    ensures Ascending(s, less)
    decreases |m|
  {
    if m == multiset{} then []
    else
      assert exists x :: IsLeast(x, m, less) by { var x := LeastExists(m, less); }
      var x :| IsLeast(x, m, less);
      var rest := Ordered(m - multiset{x}, less);
      PrependLeast(x, rest, m, less);
      [x] + rest
  }

  lemma FirstIsLeast<T(!new)>(s: seq<T>, less: (T, T) -> bool)
    requires StrictTotalOrder(less) && Ascending(s, less) && s != []
    ensures IsLeast(s[0], multiset(s), less)
  {
    assert OrderLaws(less, s[0], s[0], s[0]);
    forall y | y in multiset(s)
      ensures !less(y, s[0])
    {
      var i :| 0 <= i < |s| && s[i] == y;
    }
  }

  lemma {:induction false} AscendingUnique<T(!new)>(s: seq<T>, t: seq<T>, less: (T, T) -> bool)
    requires StrictTotalOrder(less)
    requires Ascending(s, less) && Ascending(t, less) && multiset(s) == multiset(t)
    ensures s == t
  {
    assert |s| == |multiset(s)| && |t| == |multiset(t)|;
    if s != [] {
      FirstIsLeast(s, less);
      FirstIsLeast(t, less);
      assert OrderLaws(less, s[0], t[0], s[0]);
      RemoveFirst(s);
      RemoveFirst(t);
      AscendingUnique(s[1..], t[1..], less);
      assert s == [s[0]] + s[1..] && t == [t[0]] + t[1..];
    }
  }

  lemma RemoveFirst<T>(s: seq<T>)
    requires s != []
    ensures multiset(s[1..]) == multiset(s) - multiset{s[0]}
  {
    assert s == [s[0]] + s[1..];
  }

  /** Whatever the algorithm, the order of the input or the choice between equals: an ascending arrangement of the
      same elements is the ordered one. */
  lemma AscendingIsOrdered<T(!new)>(s: seq<T>, less: (T, T) -> bool)
    requires StrictTotalOrder(less) && Ascending(s, less)
    ensures s == Ordered(multiset(s), less)
  {
    AscendingUnique(s, Ordered(multiset(s), less), less);
  }

  /** A set listed without repetition, in any order, sorts as the set does. */
  lemma {:induction false} MultisetOfDistinct<T(!new)>(s: seq<T>, elements: set<T>)
    requires Distinct(s) && forall x :: x in s <==> x in elements
    ensures multiset(s) == multiset(elements)
  {
    if s == [] {
      assert forall x :: x !in elements;
    } else {
      var x, rest := s[|s| - 1], s[..|s| - 1];
      assert s == rest + [x];
      MultisetOfDistinct(rest, elements - {x});
      assert multiset(elements) == multiset(elements - {x}) + multiset{x};
    }
  }

  lemma RepetitionCounts<T>(s: seq<T>, i: nat, j: nat)
    requires i < j < |s| && s[i] == s[j]
    ensures multiset(s)[s[i]] >= 2
  {
    var head, tail := s[..j], s[j..];
    assert s == head + tail;
    assert head[i] in multiset(head) && tail[0] in multiset(tail);
  }

  /** The ordering of a set lists every element once, each strictly before the next. */
  lemma OrderedSet<T(!new)>(elements: set<T>, less: (T, T) -> bool)
    requires StrictTotalOrder(less)
    ensures var s := Ordered(multiset(elements), less);
            Distinct(s) && (forall x :: x in s <==> x in elements)
            && forall i, j :: 0 <= i < j < |s| ==> less(s[i], s[j])
  {
    var s := Ordered(multiset(elements), less);
    assert forall x :: x in s <==> x in multiset(s);
    forall i, j | 0 <= i < j < |s|
      ensures s[i] != s[j] && less(s[i], s[j])
    {
      assert OrderLaws(less, s[i], s[j], s[i]);
      assert multiset(elements)[s[i]] <= 1;
      if s[i] == s[j] {
        RepetitionCounts(s, i, j);
      }
    }
  }

  /** sort.Strings and sort.Slice. */
  method Sort<T(!new)>(s: seq<T>, less: (T, T) -> bool) returns (r: seq<T>)
    requires StrictTotalOrder(less)
    ensures r == Ordered(multiset(s), less)
  {
    r := [];
    for i := 0 to |s|
      invariant Ascending(r, less) && multiset(r) == multiset(s[..i])
    {
      var k := |r|;
      while k > 0 && less(s[i], r[k - 1])
        invariant 0 <= k <= |r|
        invariant forall j :: k <= j < |r| ==> less(s[i], r[j])
      {
        k := k - 1;
      }
      assert s[..i + 1] == s[..i] + [s[i]];
      InsertKeepsOrder(r, k, s[i], less);
      InsertAddsOne(r, k, s[i]);
      r := r[..k] + [s[i]] + r[k..];
    }
    assert s[..|s|] == s;
    AscendingIsOrdered(r, less);
  }

  lemma InsertAddsOne<T>(r: seq<T>, k: nat, x: T)
    requires k <= |r|
    ensures multiset(r[..k] + [x] + r[k..]) == multiset(r) + multiset{x}
  {
    assert r == r[..k] + r[k..];
  }

  lemma InsertKeepsOrder<T(!new)>(r: seq<T>, k: nat, x: T, less: (T, T) -> bool)
    requires StrictTotalOrder(less) && Ascending(r, less) && k <= |r|
    requires forall j :: k <= j < |r| ==> less(x, r[j])
    requires k > 0 ==> !less(x, r[k - 1])
    ensures Ascending(r[..k] + [x] + r[k..], less)
  {
    forall j | 0 <= j < |r|
      ensures j < k ==> !less(x, r[j])
      ensures k <= j ==> !less(r[j], x)
    {
      assert OrderLaws(less, x, r[j], x) && OrderLaws(less, x, x, x);
      if j < k {
        assert OrderLaws(less, r[k - 1], x, r[j]) && OrderLaws(less, x, r[k - 1], r[j])
            && OrderLaws(less, x, r[j], r[k - 1]);
      }
    }
  }

  /** Ranging over a Go map, in whatever order it yields its keys. */
  method ListInAnyOrder<T(==,!new)>(s: set<T>) returns (r: seq<T>)
    ensures Distinct(r) && forall x :: x in r <==> x in s
  {
    r := [];
    var todo := s;
    while todo != {}
      invariant todo <= s
      invariant Distinct(r) && forall x :: x in r <==> x in s && x !in todo
    {
      var x :| x in todo;
      assert x !in r;
      todo := todo - {x};
      r := r + [x];
    }
  }

  /** Ranging over a map and then sorting loses the map's order. */
  method SortKeys<T(==,!new)>(s: set<T>, less: (T, T) -> bool) returns (r: seq<T>)
    requires StrictTotalOrder(less)
    ensures r == Ordered(multiset(s), less)
    ensures forall i :: 0 <= i < |r| ==> r[i] in s
  {
    var listed := ListInAnyOrder(s);
    MultisetOfDistinct(listed, s);
    r := Sort(listed, less);
    assert forall i :: 0 <= i < |r| ==> r[i] in multiset(r);
  }

  lemma StringsAreOrdered()
    ensures StrictTotalOrder(Strings.Less)
  {
    forall a: string, b: string, c: string
      ensures OrderLaws(Strings.Less, a, b, c)
    {
      Strings.LessTrichotomy(a, b);
      if Strings.Less(a, b) && Strings.Less(b, c) {
        Strings.LessTransitive(a, b, c);
      }
    }
  }

  predicate IntLess(a: int, b: int) {
    a < b
  }

  lemma IntsAreOrdered()
    ensures StrictTotalOrder(IntLess)
  {
    forall a: int, b: int, c: int
      ensures OrderLaws(IntLess, a, b, c)
    {
    }
  }
}
