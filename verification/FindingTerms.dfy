/** What the findings of conflicting-listeners say and in which order they come, in terms of the listeners' own fields
    (pkg/templates/conflictinglisteners/template.go). */
module FindingTerms {
  import opened Manifests
  import opened Parents
  import opened Bags
  import opened Sorting
  import opened ListenerNames
  import opened ConflictingListeners
  import opened ListenerConflicts
  import Strings

  // What a finding says

  function InQuotes(name: string): string {
    "\"" + name + "\""
  }

  function HostOrEmpty(l: Listener): string {
    if l.hostname.Some? then l.hostname.value else ""
  }

  /** The names are the quoted names of the listeners on that port with that protocol and, if one is asked, that
      hostname. */
  ghost predicate AreNames(names: seq<string>, listeners: seq<Listener>, port: int, protocol: string,
                           hostname: Option<string>)
  {
    forall n :: n in names <==>
                  exists l :: && l in listeners && n == InQuotes(l.name) && l.port == port && l.protocol == protocol
                              && (hostname.None? || HostOrEmpty(l) == hostname.value)
  }

  ghost predicate SaysIt(f: Finding, listeners: seq<Listener>) {
    match f
    case Indistinct(_, port, key, names, byHostname) =>
      && AreNames(names, listeners, port, key.protocol, Some(key.hostname))
      && (byHostname <==> key.hostname != "" || key.protocol in {"HTTP", "HTTPS", "TLS"})
    case Unshareable(_, port, a, aNames, b, bNames, clash) =>
      && AreNames(aNames, listeners, port, a, None) && AreNames(bNames, listeners, port, b, None)
      && (clash == BesideRawTCP <==> a == "TCP" || b == "TCP")
  }

  lemma SortedAsMapped(listeners: seq<Listener>, n: string)
    ensures n in SortedNames(listeners) <==> n in Map(QuotedName, listeners)
  {
    SortedNamesAre(listeners);
    hide SortedNames, Map, QuotedName;
    SameBagSameElements(SortedNames(listeners), Map(QuotedName, listeners));
  }

  lemma Mapped<A, B>(f: A -> B, s: seq<A>, y: B)
    ensures y in Map(f, s) <==> exists x :: x in s && y == f(x)
  {
    hide Map;
    if y in Map(f, s) {
      var i :| 0 <= i < |s| && Map(f, s)[i] == y;
      assert s[i] in s;
    }
    if x :| x in s && y == f(x) {
      var i :| 0 <= i < |s| && s[i] == x;
      assert Map(f, s)[i] == y;
    }
  }

  lemma NamesOfGroup(listeners: seq<Listener>, n: string)
    ensures n in SortedNames(listeners) <==> exists l :: l in listeners && n == InQuotes(l.name)
  {
    SortedAsMapped(listeners, n);
    Mapped(QuotedName, listeners, n);
    hide SortedNames, Map;
  }

  lemma NamesOfKey(listeners: seq<Listener>, port: int, key: ListenerKey)
    ensures AreNames(SortedNames(Group(Group(listeners, OnPort(port)), OfKey(key))), listeners, port, key.protocol,
              Some(key.hostname))
  {
    var group := Group(Group(listeners, OnPort(port)), OfKey(key));
    GroupsAre(listeners, OnPort(port));
    GroupsAre(Group(listeners, OnPort(port)), OfKey(key));
    hide Group, SortedNames;
    forall n
      ensures n in SortedNames(group) <==> exists l :: l in group && n == InQuotes(l.name)
    {
      NamesOfGroup(group, n);
    }
  }

  lemma NamesOfProtocol(listeners: seq<Listener>, port: int, protocol: string)
    ensures AreNames(SortedNames(Group(Group(listeners, OnPort(port)), OfProtocol(protocol))), listeners, port,
              protocol, None)
  {
    var group := Group(Group(listeners, OnPort(port)), OfProtocol(protocol));
    GroupsAre(listeners, OnPort(port));
    GroupsAre(Group(listeners, OnPort(port)), OfProtocol(protocol));
    hide Group, SortedNames;
    forall n
      ensures n in SortedNames(group) <==> exists l :: l in group && n == InQuotes(l.name)
    {
      NamesOfGroup(group, n);
    }
  }

  // Order

  ghost predicate KeyBefore(a: ListenerKey, b: ListenerKey) {
    || Strings.ComesBefore(a.protocol, b.protocol)
    || (a.protocol == b.protocol && Strings.ComesBefore(a.hostname, b.hostname))
  }

  /** By port; on one port the indistinct ones first, by protocol and hostname, then the clashes by their protocols. */
  ghost predicate Precedes(f: Finding, g: Finding) {
    || f.port < g.port
    || (f.port == g.port
        && match (f, g)
           case (Indistinct(_, _, k, _, _), Indistinct(_, _, k', _, _)) => KeyBefore(k, k')
           case (Unshareable(_, _, a, _, b, _, _), Unshareable(_, _, a', _, b', _, _)) =>
             Strings.ComesBefore(a, a') || (a == a' && Strings.ComesBefore(b, b'))
           case _ => f.Indistinct?)
  }

  ghost predicate InOrder(findings: seq<Finding>) {
    forall i, j :: 0 <= i < j < |findings| ==> Precedes(findings[i], findings[j])
  }

  lemma NoneInOrder()
    ensures InOrder([])
  {
  }

  lemma InOrderConcat(s: seq<Finding>, t: seq<Finding>)
    requires InOrder(s) && InOrder(t) && forall f, g :: f in s && g in t ==> Precedes(f, g)
    ensures InOrder(s + t)
  {
    hide Precedes;
    forall i, j | 0 <= i < j < |s + t|
      ensures Precedes((s + t)[i], (s + t)[j])
    {
      if i < |s| <= j {
        assert s[i] in s && t[j - |s|] in t;
      }
    }
  }

  lemma KeyLessIff(a: ListenerKey, b: ListenerKey)
    ensures KeyLess(a, b) <==> KeyBefore(a, b)
  {
    Strings.LessIff(a.protocol, b.protocol);
    Strings.LessIff(a.hostname, b.hostname);
    Strings.LessTrichotomy(a.protocol, a.protocol);
    hide Strings.Less, Strings.ComesBefore;
  }

  lemma StringsInOrder(s: seq<string>)
    requires forall i, j :: 0 <= i < j < |s| ==> Strings.Less(s[i], s[j])
    ensures forall i, j :: 0 <= i < j < |s| ==> Strings.ComesBefore(s[i], s[j])
  {
    hide Strings.Less, Strings.ComesBefore;
    forall i, j | 0 <= i < j < |s|
      ensures Strings.ComesBefore(s[i], s[j])
    {
      Strings.LessIff(s[i], s[j]);
    }
  }

  lemma IndistinctInOrder(owner: ObjectRef, port: int, group: seq<Listener>)
    ensures InOrder(IndistinctFindings(owner, port, group, OrderedKeys(group)))
  {
    var keys := OrderedKeys(group);
    OrderedKeysAre(group);
    KeysAreOrdered();
    assert Ascending(keys, KeyLess);
    hide OrderedKeys, SortedNames, Group, KeyLess, KeyBefore;
    forall i, j | 0 <= i < j < |keys|
      ensures KeyBefore(keys[i], keys[j])
    {
      assert OrderLaws(KeyLess, keys[i], keys[j], keys[j]);
      KeyLessIff(keys[i], keys[j]);
    }
  }

  /** The clashes of one protocol come in the order of the others. */
  lemma {:induction false} ClashesWithInOrder(owner: ObjectRef, port: int, group: seq<Listener>, a: string,
                                              others: seq<string>)
    requires forall i, j :: 0 <= i < j < |others| ==> Strings.ComesBefore(others[i], others[j])
    ensures InOrder(ClashesWith(owner, port, group, a, others))
    ensures forall f :: f in ClashesWith(owner, port, group, a, others) ==>
                          f.Unshareable? && f.port == port && f.a == a && f.b in others
  {
    hide SortedNames, Group, Strings.ComesBefore, ProtocolsConflict;
    if others != [] {
      var n := |others| - 1;
      ClashesWithInOrder(owner, port, group, a, others[..n]);
      InOrderConcat(ClashesWith(owner, port, group, a, others[..n]),
                    ClashFindings(owner, port, group, a, others[n]));
    }
  }

  lemma {:induction false} ClashesAmongInOrder(owner: ObjectRef, port: int, group: seq<Listener>,
                                               protocols: seq<string>, n: nat)
    requires n <= |protocols|
    requires forall i, j :: 0 <= i < j < |protocols| ==> Strings.ComesBefore(protocols[i], protocols[j])
    ensures InOrder(ClashesAmong(owner, port, group, protocols, n))
    ensures forall f :: f in ClashesAmong(owner, port, group, protocols, n) ==>
                          f.Unshareable? && f.port == port && f.a in protocols[..n]
  {
    hide Strings.ComesBefore, ClashesWith, InOrder;
    NoneInOrder();
    if n > 0 {
      var before := ClashesAmong(owner, port, group, protocols, n - 1);
      ClashesAmongInOrder(owner, port, group, protocols, n - 1);
      var rest := protocols[n..];
      forall i, j | 0 <= i < j < |rest|
        ensures Strings.ComesBefore(rest[i], rest[j])
      {
        assert rest[i] == protocols[n + i] && rest[j] == protocols[n + j];
      }
      ClashesWithInOrder(owner, port, group, protocols[n - 1], rest);
      assert protocols[..n] == protocols[..n - 1] + [protocols[n - 1]];
      assert forall p :: p in protocols[..n] <==> p in protocols[..n - 1] || p == protocols[n - 1];
      InOrderConcat(before, ClashesWith(owner, port, group, protocols[n - 1], rest));
    }
  }

  lemma PortInOrder(owner: ObjectRef, port: int, group: seq<Listener>)
    ensures InOrder(PortFindings(owner, port, group))
    ensures forall f :: f in PortFindings(owner, port, group) ==> f.port == port
  {
    var protocols := OrderedProtocols(group);
    IndistinctInOrder(owner, port, group);
    OrderedProtocolsAre(group);
    FindingsHavePort(owner, port, group);
    hide OrderedKeys, OrderedProtocols, SortedNames, Group, Strings.Less, Strings.ComesBefore;
    StringsInOrder(protocols);
    ClashesAmongInOrder(owner, port, group, protocols, |protocols|);
    hide ClashesAmong, InOrder;
    assert [] == IndistinctFindings(owner, port, group, []);
    NoneInOrder();
    InOrderConcat(IndistinctFindings(owner, port, group, OrderedKeys(group)), ClashesOn(owner, port, group));
  }

  lemma {:induction false} PortsInOrder(owner: ObjectRef, listeners: seq<Listener>, ports: seq<int>)
    requires forall i, j :: 0 <= i < j < |ports| ==> ports[i] < ports[j]
    ensures InOrder(FindingsOn(owner, listeners, ports))
    ensures forall f :: f in FindingsOn(owner, listeners, ports) ==> f.port in ports
  {
    hide PortFindings, Group, InOrder;
    NoneInOrder();
    if ports != [] {
      var n := |ports| - 1;
      PortsInOrder(owner, listeners, ports[..n]);
      PortInOrder(owner, ports[n], Group(listeners, OnPort(ports[n])));
      assert forall p :: p in ports <==> p in ports[..n] || p == ports[n];
      InOrderConcat(FindingsOn(owner, listeners, ports[..n]),
                    PortFindings(owner, ports[n], Group(listeners, OnPort(ports[n]))));
    }
  }

  /** The findings come in one strict order, whatever the order of the listeners. */
  lemma FindingsInOrder(listeners: seq<Listener>)
    ensures InOrder(Findings(listeners))
  {
    NoneInOrder();
    OrderedPortsAre(listeners);
    IntsAreOrdered();
    assert Ascending(OrderedPorts(listeners), IntLess);
    hide FindingsOn, OrderedPorts, InOrder;
    if |listeners| >= 2 {
      PortsInOrder(listeners[0].owner, listeners, OrderedPorts(listeners));
    }
  }

  // All findings

  ghost predicate SaysKind(f: Finding, owner: ObjectRef) {
    && f.owner == owner
    && (f.Indistinct? ==> (f.byHostname <==> f.key.hostname != "" || f.key.protocol in {"HTTP", "HTTPS", "TLS"}))
    && (f.Unshareable? ==> (f.clash == BesideRawTCP <==> f.a == "TCP" || f.b == "TCP"))
  }

  lemma {:induction false} ClashesSay(owner: ObjectRef, port: int, group: seq<Listener>, a: string, others: seq<string>)
    requires a !in others
    ensures forall f :: f in ClashesWith(owner, port, group, a, others) ==>
                          f.Unshareable? && SaysKind(f, owner)
  {
    hide SortedNames, Group, ProtocolsConflict;
    if others != [] {
      var n := |others| - 1;
      ClashesSay(owner, port, group, a, others[..n]);
      ProtocolsConflictIff(a, others[n]);
    }
  }

  lemma {:induction false} ClashesAmongSay(owner: ObjectRef, port: int, group: seq<Listener>, protocols: seq<string>,
                                           n: nat)
    requires n <= |protocols| && Distinct(protocols)
    ensures forall f :: f in ClashesAmong(owner, port, group, protocols, n) ==>
                          f.Unshareable? && SaysKind(f, owner)
  {
    hide ClashesWith;
    if n > 0 {
      ClashesAmongSay(owner, port, group, protocols, n - 1);
      ClashesSay(owner, port, group, protocols[n - 1], protocols[n..]);
    }
  }

  lemma IndistinctSays(owner: ObjectRef, port: int, group: seq<Listener>, key: ListenerKey)
    ensures SaysKind(IndistinctFinding(owner, port, group, key), owner)
  {
    hide SortedNames, Group;
  }

  lemma IndistinctsSay(owner: ObjectRef, port: int, group: seq<Listener>, keys: seq<ListenerKey>)
    ensures forall f :: f in IndistinctFindings(owner, port, group, keys) ==> SaysKind(f, owner)
  {
    forall i | 0 <= i < |keys|
      ensures SaysKind(IndistinctFinding(owner, port, group, keys[i]), owner)
    {
      IndistinctSays(owner, port, group, keys[i]);
    }
    hide SaysKind, IndistinctFinding;
  }

  lemma PortSays(owner: ObjectRef, port: int, group: seq<Listener>)
    ensures forall f :: f in PortFindings(owner, port, group) ==> SaysKind(f, owner)
  {
    var protocols := OrderedProtocols(group);
    OrderedProtocolsAre(group);
    StrictlyOrderedIsDistinct(protocols);
    hide OrderedKeys, OrderedProtocols, SaysKind, IndistinctFindings, ClashesAmong;
    ClashesAmongSay(owner, port, group, protocols, |protocols|);
    IndistinctsSay(owner, port, group, OrderedKeys(group));
  }

  lemma {:induction false} PortsSay(owner: ObjectRef, listeners: seq<Listener>, ports: seq<int>)
    ensures forall f :: f in FindingsOn(owner, listeners, ports) ==> SaysKind(f, owner)
  {
    hide PortFindings, Group, SaysKind;
    if ports != [] {
      var n := |ports| - 1;
      PortsSay(owner, listeners, ports[..n]);
      PortSays(owner, ports[n], Group(listeners, OnPort(ports[n])));
    }
  }

  /** Every finding names the object, all the listeners concerned and no other, and the reason that applies. */
  lemma FindingsSay(listeners: seq<Listener>, f: Finding)
    requires f in Findings(listeners)
    ensures f.owner == listeners[0].owner && SaysIt(f, listeners)
  {
    var owner, ports := listeners[0].owner, OrderedPorts(listeners);
    PortsSay(owner, listeners, ports);
    NamesAreTheGroup(owner, listeners, ports);
    ClashNamesAreTheGroups(owner, listeners, ports);
    hide FindingsOn, OrderedPorts, Group, SortedNames, AreNames;
    match f
    case Indistinct(_, port, key, _, _) =>
      NamesOfKey(listeners, port, key);
    case Unshareable(_, port, a, _, b, _, _) =>
      NamesOfProtocol(listeners, port, a);
      NamesOfProtocol(listeners, port, b);
  }
}
