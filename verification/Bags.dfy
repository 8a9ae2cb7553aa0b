/** Sequences seen as bags: what an element-by-element function or a filter keeps when the order changes. */
module Bags {

  function Map<A, B>(f: A -> B, s: seq<A>): (r: seq<B>)
    ensures |r| == |s| && forall i :: 0 <= i < |s| ==> r[i] == f(s[i])
  {
    if s == [] then [] else Map(f, s[..|s| - 1]) + [f(s[|s| - 1])]
  }

  lemma SameBagSameElements<T>(s: seq<T>, t: seq<T>)
    requires multiset(s) == multiset(t)
    ensures |s| == |t|
    ensures forall x :: x in s <==> x in t
  {
    assert |s| == |multiset(s)| && |t| == |multiset(t)|;
    assert forall x :: x in s <==> x in multiset(s);
    assert forall x :: x in t <==> x in multiset(t);
  }

  lemma LongerBagDiffers<T>(a: seq<T>, b: seq<T>)
    requires |a| > |b|
    ensures multiset(a) != multiset(b)
  {
    assert |multiset(a)| == |a| && |multiset(b)| == |b|;
  }

  lemma RemoveOne<T>(t: seq<T>, k: nat)
    requires k < |t|
    ensures multiset(t) == multiset(t[..k] + t[k + 1..]) + multiset{t[k]}
  {
    assert t == t[..k] + [t[k]] + t[k + 1..];
  }

  /** Applying a function element by element does not look at the order. */
  lemma {:induction false} MapKeepsBag<A(!new), B(!new)>(f: A -> B, s: seq<A>, t: seq<A>)
    requires multiset(s) == multiset(t)
    ensures multiset(Map(f, s)) == multiset(Map(f, t))
  {
    SameBagSameElements(s, t);
    if s != [] {
      var n := |s| - 1;
      assert s[n] in s && s[n] in t;
      var k :| 0 <= k < |t| && t[k] == s[n];
      var rest := t[..k] + t[k + 1..];
      RemoveOne(t, k);
      assert s == s[..n] + [s[n]];
      assert multiset(s[..n]) == multiset(s) - multiset{s[n]} == multiset(rest);
      MapKeepsBag(f, s[..n], rest);
      MapRemoves(f, t, k);
    }
  }

  lemma AppendBag<T>(s: seq<T>, x: T)
    ensures multiset(s + [x]) == multiset(s) + multiset{x}
  {
  }

  lemma MapAppends<A(!new), B(!new)>(f: A -> B, s: seq<A>, x: A)
    ensures multiset(Map(f, s + [x])) == multiset(Map(f, s)) + multiset{f(x)}
  {
    assert (s + [x])[..|s|] == s;
    AppendBag(Map(f, s), f(x));
  }

  lemma {:induction false} MapRemoves<A(!new), B(!new)>(f: A -> B, t: seq<A>, k: nat)
    requires k < |t|
    ensures multiset(Map(f, t)) == multiset(Map(f, t[..k] + t[k + 1..])) + multiset{f(t[k])}
  {
    hide Map;
    var n := |t| - 1;
    var init, last, rest := t[..n], t[n], t[..k] + t[k + 1..];
    assert t == init + [last];
    MapAppends(f, init, last);
    if k == n {
      assert rest == init;
    } else {
      var initRest := init[..k] + init[k + 1..];
      assert rest == initRest + [last];
      MapRemoves(f, init, k);
      MapAppends(f, initRest, last);
      AddInEitherOrder(multiset(Map(f, initRest)), f(t[k]), f(last));
    }
  }

  lemma AddInEitherOrder<T>(m: multiset<T>, x: T, y: T)
    ensures m + multiset{x} + multiset{y} == m + multiset{y} + multiset{x}
  {
  }
}
