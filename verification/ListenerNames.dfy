/** Naming listeners in a message: quoted and sorted. */
module ListenerNames {
  import opened Parents
  import opened Bags
  import opened Sorting
  import Strings

  function QuotedName(l: Listener): string {
    Strings.Quoted(l.name)
  }

  ghost function SortedNames(listeners: seq<Listener>): seq<string> {
    StringsAreOrdered();
    Ordered(multiset(Map(QuotedName, listeners)), Strings.Less)
  }

  method SortNames(listeners: seq<Listener>) returns (names: seq<string>)
    ensures names == SortedNames(listeners)
  {
    names := [];
    for i := 0 to |listeners|
      invariant names == Map(QuotedName, listeners[..i])
    {
      assert listeners[..i + 1][..i] == listeners[..i];
      names := names + [Strings.Quoted(listeners[i].name)];
    }
    assert listeners[..|listeners|] == listeners;
    StringsAreOrdered();
    names := Sort(names, Strings.Less);
  }

  /** The names listed are the names of the listeners, as many times as they occur. */
  lemma SortedNamesAre(listeners: seq<Listener>)
    ensures multiset(SortedNames(listeners)) == multiset(Map(QuotedName, listeners))
    ensures |SortedNames(listeners)| == |listeners|
    ensures forall l :: l in listeners ==> QuotedName(l) in SortedNames(listeners)
  {
    StringsAreOrdered();
    SameBagSameElements(SortedNames(listeners), Map(QuotedName, listeners));
    forall l | l in listeners
      ensures QuotedName(l) in Map(QuotedName, listeners)
    {
      var i :| 0 <= i < |listeners| && listeners[i] == l;
      assert Map(QuotedName, listeners)[i] == QuotedName(l);
    }
  }

  lemma SortedNamesIgnoreOrder(a: seq<Listener>, b: seq<Listener>)
    requires multiset(a) == multiset(b)
    ensures SortedNames(a) == SortedNames(b)
  {
    MapKeepsBag(QuotedName, a, b);
  }
}
