/** What the conflicting-listeners findings are, whatever the order of the listeners
    (pkg/templates/conflictinglisteners/template.go). */
module ListenerConflicts {
  import opened Manifests
  import opened Parents
  import opened ListenerNames
  import opened ConflictingListeners
  import opened Bags
  import opened Sorting
  import Strings

  // Order independence

  lemma {:induction false} GroupCounts(listeners: seq<Listener>, b: Bucket, l: Listener)
    ensures multiset(Group(listeners, b))[l] == if InBucket(l, b) then multiset(listeners)[l] else 0
  {
    hide InBucket;
    if listeners != [] {
      var n := |listeners| - 1;
      GroupCounts(listeners[..n], b, l);
      assert listeners == listeners[..n] + [listeners[n]];
      AppendBag(listeners[..n], listeners[n]);
      AppendBag(Group(listeners[..n], b), listeners[n]);
      GroupStep(listeners, n, b);
      assert listeners[..n + 1] == listeners;
      hide Group;
    }
  }

  lemma GroupIgnoresOrder(a: seq<Listener>, b: seq<Listener>, k: Bucket)
    requires multiset(a) == multiset(b)
    ensures multiset(Group(a, k)) == multiset(Group(b, k))
  {
    hide InBucket, Group;
    forall l: Listener
      ensures multiset(Group(a, k))[l] == multiset(Group(b, k))[l]
    {
      GroupCounts(a, k, l);
      GroupCounts(b, k, l);
    }
  }

  lemma KeysIgnoreOrder(a: seq<Listener>, b: seq<Listener>)
    requires multiset(a) == multiset(b)
    ensures OrderedKeys(a) == OrderedKeys(b)
    ensures OrderedProtocols(a) == OrderedProtocols(b) && OrderedPorts(a) == OrderedPorts(b)
  {
    hide Group, KeyOf;
    SameBagSameElements(a, b);
    assert Keys(a) == Keys(b) && Protocols(a) == Protocols(b) && Ports(a) == Ports(b);
    assert RepeatedKeys(a) == RepeatedKeys(b) by {
      forall k
        ensures |Group(a, OfKey(k))| == |Group(b, OfKey(k))|
      {
        GroupIgnoresOrder(a, b, OfKey(k));
        SameBagSameElements(Group(a, OfKey(k)), Group(b, OfKey(k)));
      }
    }
  }

  lemma NamesIgnoreOrder(a: seq<Listener>, b: seq<Listener>, k: Bucket)
    requires multiset(a) == multiset(b)
    ensures SortedNames(Group(a, k)) == SortedNames(Group(b, k))
  {
    GroupIgnoresOrder(a, b, k);
    SortedNamesIgnoreOrder(Group(a, k), Group(b, k));
  }

  lemma {:induction false} ClashesWithIgnoreOrder(owner: ObjectRef, port: int, a: seq<Listener>, b: seq<Listener>,
                                                  p: string, others: seq<string>)
    requires multiset(a) == multiset(b)
    ensures ClashesWith(owner, port, a, p, others) == ClashesWith(owner, port, b, p, others)
  {
    hide Group, SortedNames;
    if others != [] {
      var n := |others| - 1;
      ClashesWithIgnoreOrder(owner, port, a, b, p, others[..n]);
      NamesIgnoreOrder(a, b, OfProtocol(p));
      NamesIgnoreOrder(a, b, OfProtocol(others[n]));
    }
  }

  lemma {:induction false} ClashesAmongIgnoreOrder(owner: ObjectRef, port: int, a: seq<Listener>, b: seq<Listener>,
                                                   protocols: seq<string>, n: nat)
    requires multiset(a) == multiset(b) && n <= |protocols|
    ensures ClashesAmong(owner, port, a, protocols, n) == ClashesAmong(owner, port, b, protocols, n)
  {
    hide ClashesWith;
    if n > 0 {
      ClashesAmongIgnoreOrder(owner, port, a, b, protocols, n - 1);
      ClashesWithIgnoreOrder(owner, port, a, b, protocols[n - 1], protocols[n..]);
    }
  }

  lemma PortFindingsIgnoreOrder(owner: ObjectRef, port: int, a: seq<Listener>, b: seq<Listener>)
    requires multiset(a) == multiset(b)
    ensures PortFindings(owner, port, a) == PortFindings(owner, port, b)
  {
    hide Group, SortedNames, OrderedKeys, OrderedProtocols, ClashesAmong;
    SameBagSameElements(a, b);
    KeysIgnoreOrder(a, b);
    var keys, protocols := OrderedKeys(a), OrderedProtocols(a);
    ClashesAmongIgnoreOrder(owner, port, a, b, protocols, |protocols|);
    forall i | 0 <= i < |keys|
      ensures IndistinctFinding(owner, port, a, keys[i]) == IndistinctFinding(owner, port, b, keys[i])
    {
      NamesIgnoreOrder(a, b, OfKey(keys[i]));
    }
    assert IndistinctFindings(owner, port, a, keys) == IndistinctFindings(owner, port, b, keys);
  }

  lemma {:induction false} FindingsOnIgnoreOrder(owner: ObjectRef, a: seq<Listener>, b: seq<Listener>, ports: seq<int>)
    requires multiset(a) == multiset(b)
    ensures FindingsOn(owner, a, ports) == FindingsOn(owner, b, ports)
  {
    hide Group, PortFindings;
    if ports != [] {
      var n := |ports| - 1;
      FindingsOnIgnoreOrder(owner, a, b, ports[..n]);
      GroupIgnoresOrder(a, b, OnPort(ports[n]));
      PortFindingsIgnoreOrder(owner, ports[n], Group(a, OnPort(ports[n])), Group(b, OnPort(ports[n])));
    }
  }

  /** Reordering spec.listeners changes no finding, nor their order. */
  lemma FindingsIgnoreOrder(a: seq<Listener>, b: seq<Listener>, owner: ObjectRef)
    requires multiset(a) == multiset(b)
    requires forall l :: l in a ==> l.owner == owner
    ensures Findings(a) == Findings(b)
  {
    hide FindingsOn, OrderedPorts;
    SameBagSameElements(a, b);
    if |a| >= 2 {
      assert a[0] in a && b[0] in b;
      KeysIgnoreOrder(a, b);
      FindingsOnIgnoreOrder(owner, a, b, OrderedPorts(a));
    }
  }

  /** All listeners of one object have the same owner. */
  lemma OneOwner(obj: Object)
    ensures forall l :: l in ListenerList(obj) ==> AttachPointOf(obj) == Some(l.owner)
  {
  }

  lemma ListenersAreMapped(obj: Object, owner: ObjectRef)
    requires AttachPointOf(obj) == Some(owner)
    ensures ListenerList(obj) == Map(spec => ListenerFrom(owner, spec), obj.listeners)
  {
  }

  /** Two Gateways or ListenerSets of one identity that list the same listeners in different orders get the same
      findings, in the same order. */
  lemma ReorderedListenersSameFindings(x: Object, y: Object)
    requires AttachPointOf(x).Some? && AttachPointOf(x) == AttachPointOf(y)
    requires multiset(x.listeners) == multiset(y.listeners)
    ensures Findings(ListenerList(x)) == Findings(ListenerList(y))
  {
    hide Findings, ListenerFrom;
    var owner := AttachPointOf(x).value;
    var f := spec => ListenerFrom(owner, spec);
    ListenersAreMapped(x, owner);
    ListenersAreMapped(y, owner);
    MapKeepsBag(f, x.listeners, y.listeners);
    OneOwner(x);
    hide AttachPointOf;
    FindingsIgnoreOrder(ListenerList(x), ListenerList(y), owner);
  }

  // Partition

  function GroupSizes(listeners: seq<Listener>, ports: seq<int>): nat {
    if ports == [] then 0
    else GroupSizes(listeners, ports[..|ports| - 1]) + |Group(listeners, OnPort(ports[|ports| - 1]))|
  }

  lemma {:induction false} OneMoreListener(listeners: seq<Listener>, l: Listener, ports: seq<int>)
    requires Distinct(ports)
    ensures GroupSizes(listeners + [l], ports) == GroupSizes(listeners, ports) + if l.port in ports then 1 else 0
  {
    if ports != [] {
      var n := |ports| - 1;
      OneMoreListener(listeners, l, ports[..n]);
      assert (listeners + [l])[..|listeners|] == listeners;
      assert forall p :: p in ports <==> p in ports[..n] || p == ports[n];
    }
  }

  lemma {:induction false} GroupSizesCover(listeners: seq<Listener>, ports: seq<int>)
    requires Distinct(ports) && forall l :: l in listeners ==> l.port in ports
    ensures GroupSizes(listeners, ports) == |listeners|
  {
    if listeners == [] {
      NoSizes(ports);
    } else {
      var n := |listeners| - 1;
      GroupSizesCover(listeners[..n], ports);
      assert listeners == listeners[..n] + [listeners[n]];
      OneMoreListener(listeners[..n], listeners[n], ports);
    }
  }

  lemma {:induction false} NoSizes(ports: seq<int>)
    ensures GroupSizes([], ports) == 0
  {
    if ports != [] {
      NoSizes(ports[..|ports| - 1]);
    }
  }

  /** The ports split the listeners: every listener is in the group of its port, and the groups have as many
      listeners between them as there are. */
  lemma PortsPartition(listeners: seq<Listener>)
    ensures GroupSizes(listeners, OrderedPorts(listeners)) == |listeners|
    ensures forall l :: l in listeners ==> l.port in OrderedPorts(listeners) && l in Group(listeners, OnPort(l.port))
  {
    OrderedPortsAre(listeners);
    hide OrderedPorts, Group, GroupSizes;
    GroupSizesCover(listeners, OrderedPorts(listeners));
    forall l | l in listeners
      ensures l in Group(listeners, OnPort(l.port))
    {
      GroupsAre(listeners, OnPort(l.port));
    }
  }

  lemma OrderedPortsAre(listeners: seq<Listener>)
    ensures Distinct(OrderedPorts(listeners)) && forall p :: p in OrderedPorts(listeners) <==> p in Ports(listeners)
  {
    IntsAreOrdered();
    OrderedSet(Ports(listeners), IntLess);
  }

  lemma OrderedKeysAre(group: seq<Listener>)
    ensures Distinct(OrderedKeys(group)) && forall k :: k in OrderedKeys(group) <==> k in RepeatedKeys(group)
  {
    hide KeyLess, RepeatedKeys;
    KeysAreOrdered();
    OrderedSet(RepeatedKeys(group), KeyLess);
  }

  lemma OrderedProtocolsAre(group: seq<Listener>)
    ensures var s := OrderedProtocols(group);
            && (forall p :: p in s <==> p in Protocols(group))
            && forall i, j :: 0 <= i < j < |s| ==> Strings.Less(s[i], s[j])
  {
    StringsAreOrdered();
    OrderedSet(Protocols(group), Strings.Less);
  }

  // Exactly one finding per subject

  /** What a finding can be about: a key repeated on a port, or two protocols that share it, in either order. */
  datatype Subject = RepeatedKey(port: int, key: ListenerKey) | SharedPort(port: int, a: string, b: string)

  predicate Concerns(f: Finding, s: Subject) {
    match s
    case RepeatedKey(port, key) => f.Indistinct? && f.port == port && f.key == key
    case SharedPort(port, a, b) =>
      f.Unshareable? && f.port == port && ((f.a == a && f.b == b) || (f.a == b && f.b == a))
  }

  function CountOf(findings: seq<Finding>, s: Subject): nat {
    if findings == [] then 0
    else
      CountOf(findings[..|findings| - 1], s) + if Concerns(findings[|findings| - 1], s) then 1 else 0
  }

  lemma {:induction false} CountAppends(a: seq<Finding>, b: seq<Finding>, s: Subject)
    ensures CountOf(a + b, s) == CountOf(a, s) + CountOf(b, s)
  {
    hide Concerns;
    if b == [] {
      assert a + b == a;
    } else {
      var n := |b| - 1;
      CountAppends(a, b[..n], s);
      assert (a + b)[..|a| + n] == a + b[..n];
    }
  }

  lemma {:induction false} CountNone(findings: seq<Finding>, s: Subject)
    requires forall f :: f in findings ==> !Concerns(f, s)
    ensures CountOf(findings, s) == 0
  {
    hide Concerns;
    if findings != [] {
      CountNone(findings[..|findings| - 1], s);
    }
  }

  lemma {:induction false} FindingsHavePort(owner: ObjectRef, port: int, group: seq<Listener>)
    ensures forall f :: f in PortFindings(owner, port, group) ==> f.port == port
  {
    hide Group, SortedNames, OrderedKeys, OrderedProtocols, ProtocolsConflict;
    var protocols := OrderedProtocols(group);
    ClashesHavePort(owner, port, group, protocols, |protocols|);
  }

  lemma {:induction false} ClashesWithHavePort(owner: ObjectRef, port: int, group: seq<Listener>, a: string,
                                               others: seq<string>)
    ensures forall f :: f in ClashesWith(owner, port, group, a, others) ==> f.port == port && f.Unshareable?
  {
    hide Group, SortedNames, ProtocolsConflict;
    if others != [] {
      ClashesWithHavePort(owner, port, group, a, others[..|others| - 1]);
    }
  }

  lemma {:induction false} ClashesHavePort(owner: ObjectRef, port: int, group: seq<Listener>, protocols: seq<string>,
                                           n: nat)
    requires n <= |protocols|
    ensures forall f :: f in ClashesAmong(owner, port, group, protocols, n) ==> f.port == port && f.Unshareable?
  {
    hide ClashesWith;
    if n > 0 {
      ClashesHavePort(owner, port, group, protocols, n - 1);
      ClashesWithHavePort(owner, port, group, protocols[n - 1], protocols[n..]);
    }
  }

  /** Only the findings on the subject's own port can concern it. */
  lemma {:induction false} CountOnPorts(owner: ObjectRef, listeners: seq<Listener>, ports: seq<int>, s: Subject)
    requires Distinct(ports)
    ensures CountOf(FindingsOn(owner, listeners, ports), s)
         == if s.port in ports then CountOf(PortFindings(owner, s.port, Group(listeners, OnPort(s.port))), s) else 0
  {
    hide PortFindings, Group, CountOf;
    if ports == [] {
      CountNone([], s);
    } else {
      var n := |ports| - 1;
      CountOnPorts(owner, listeners, ports[..n], s);
      var more := PortFindings(owner, ports[n], Group(listeners, OnPort(ports[n])));
      CountAppends(FindingsOn(owner, listeners, ports[..n]), more, s);
      FindingsHavePort(owner, ports[n], Group(listeners, OnPort(ports[n])));
      if ports[n] != s.port {
        CountNone(more, s);
      }
      assert forall p :: p in ports <==> p in ports[..n] || p == ports[n];
    }
  }

  lemma {:induction false} CountKeys(owner: ObjectRef, port: int, group: seq<Listener>, keys: seq<ListenerKey>,
                                     key: ListenerKey)
    requires Distinct(keys)
    ensures CountOf(IndistinctFindings(owner, port, group, keys), RepeatedKey(port, key))
         == if key in keys then 1 else 0
  {
    hide SortedNames, Group;
    if keys != [] {
      var n := |keys| - 1;
      CountKeys(owner, port, group, keys[..n], key);
      assert IndistinctFindings(owner, port, group, keys)[..n] == IndistinctFindings(owner, port, group, keys[..n]);
      assert forall k :: k in keys <==> k in keys[..n] || k == keys[n];
    }
  }

  lemma CountRepeatedOn(owner: ObjectRef, port: int, group: seq<Listener>, key: ListenerKey)
    requires |group| >= 2
    ensures CountOf(PortFindings(owner, port, group), RepeatedKey(port, key))
         == if key in RepeatedKeys(group) then 1 else 0
  {
    hide OrderedKeys, RepeatedKeys, ClashesAmong, OrderedProtocols, CountOf, IndistinctFindings;
    var s, keys, protocols := RepeatedKey(port, key), OrderedKeys(group), OrderedProtocols(group);
    OrderedKeysAre(group);
    CountAppends(IndistinctFindings(owner, port, group, keys), ClashesOn(owner, port, group), s);
    CountKeys(owner, port, group, keys, key);
    ClashesHavePort(owner, port, group, protocols, |protocols|);
    CountNone(ClashesOn(owner, port, group), s);
  }

  predicate DoClash(a: string, b: string) {
    ProtocolsConflict(a, b).Some?
  }

  lemma {:induction false} CountClashesWith(owner: ObjectRef, port: int, group: seq<Listener>, p: string,
                                            others: seq<string>, a: string, b: string)
    requires Distinct(others) && p !in others && a != b
    ensures CountOf(ClashesWith(owner, port, group, p, others), SharedPort(port, a, b))
         == if ((p == a && b in others) || (p == b && a in others)) && DoClash(a, b) then 1 else 0
  {
    hide SortedNames, Group, ProtocolsConflict;
    var s := SharedPort(port, a, b);
    if others != [] {
      var n := |others| - 1;
      CountClashesWith(owner, port, group, p, others[..n], a, b);
      ClashIsMutual(a, b);
      assert forall q :: q in others <==> q in others[..n] || q == others[n];
      CountAppends(ClashesWith(owner, port, group, p, others[..n]), ClashFindings(owner, port, group, p, others[n]), s);
      CountOneClash(owner, port, group, p, others[n], a, b);
    }
  }

  lemma ClashIsMutual(a: string, b: string)
    requires a != b
    ensures DoClash(a, b) <==> DoClash(b, a)
  {
    ProtocolsConflictIff(a, b);
  }

  lemma CountOneClash(owner: ObjectRef, port: int, group: seq<Listener>, p: string, q: string, a: string, b: string)
    ensures CountOf(ClashFindings(owner, port, group, p, q), SharedPort(port, a, b))
         == if DoClash(p, q) && ((p == a && q == b) || (p == b && q == a)) then 1 else 0
  {
    hide SortedNames, Group, ProtocolsConflict;
    var f := ClashFindings(owner, port, group, p, q);
    assert f != [] ==> f[..0] == [];
  }

  lemma {:induction false} CountClashesAmong(owner: ObjectRef, port: int, group: seq<Listener>, protocols: seq<string>,
                                             n: nat, i: nat, j: nat)
    requires Distinct(protocols) && n <= |protocols| && i < j < |protocols|
    ensures CountOf(ClashesAmong(owner, port, group, protocols, n), SharedPort(port, protocols[i], protocols[j]))
         == if i < n && DoClash(protocols[i], protocols[j]) then 1 else 0
  {
    hide ClashesWith, CountOf, DoClash;
    var a, b := protocols[i], protocols[j];
    var s := SharedPort(port, a, b);
    if n == 0 {
      CountNone([], s);
    } else {
      CountClashesAmong(owner, port, group, protocols, n - 1, i, j);
      var p, others := protocols[n - 1], protocols[n..];
      CountAppends(ClashesAmong(owner, port, group, protocols, n - 1), ClashesWith(owner, port, group, p, others), s);
      CountClashesWith(owner, port, group, p, others, a, b);
      LaterEntries(protocols, n, i);
      LaterEntries(protocols, n, j);
    }
  }

  lemma LaterEntries(s: seq<string>, n: nat, i: nat)
    requires Distinct(s) && n <= |s| && i < |s|
    ensures s[i] in s[n..] <==> n <= i
  {
    assert n <= i ==> s[n..][i - n] == s[i];
  }

  lemma {:induction false} AbsentClash(owner: ObjectRef, port: int, group: seq<Listener>, protocols: seq<string>,
                                       n: nat, a: string, b: string)
    requires n <= |protocols| && Distinct(protocols) && a != b && (a !in protocols || b !in protocols)
    ensures CountOf(ClashesAmong(owner, port, group, protocols, n), SharedPort(port, a, b)) == 0
  {
    hide ClashesWith, CountOf, DoClash;
    var s := SharedPort(port, a, b);
    if n == 0 {
      CountNone([], s);
    } else {
      AbsentClash(owner, port, group, protocols, n - 1, a, b);
      var p, others := protocols[n - 1], protocols[n..];
      CountAppends(ClashesAmong(owner, port, group, protocols, n - 1), ClashesWith(owner, port, group, p, others), s);
      CountClashesWith(owner, port, group, p, others, a, b);
    }
  }

  lemma CountSharedOn(owner: ObjectRef, port: int, group: seq<Listener>, a: string, b: string)
    requires |group| >= 2 && a != b
    ensures CountOf(PortFindings(owner, port, group), SharedPort(port, a, b))
         == if a in Protocols(group) && b in Protocols(group) && DoClash(a, b) then 1 else 0
  {
    hide OrderedKeys, ClashesAmong, OrderedProtocols, Protocols, CountOf, DoClash, Strings.Less;
    var s, keys, protocols := SharedPort(port, a, b), OrderedKeys(group), OrderedProtocols(group);
    CountAppends(IndistinctFindings(owner, port, group, keys), ClashesOn(owner, port, group), s);
    CountNone(IndistinctFindings(owner, port, group, keys), s);
    OrderedProtocolsAre(group);
    StrictlyOrderedIsDistinct(protocols);
    if a in protocols && b in protocols {
      var i :| 0 <= i < |protocols| && protocols[i] == a;
      var j :| 0 <= j < |protocols| && protocols[j] == b;
      ClashIsMutual(a, b);
      if i < j {
        CountClashesAmong(owner, port, group, protocols, |protocols|, i, j);
      } else {
        CountClashesAmong(owner, port, group, protocols, |protocols|, j, i);
        CountEitherOrder(ClashesOn(owner, port, group), port, a, b);
      }
    } else {
      AbsentClash(owner, port, group, protocols, |protocols|, a, b);
    }
  }

  lemma StrictlyOrderedIsDistinct(s: seq<string>)
    requires forall i, j :: 0 <= i < j < |s| ==> Strings.Less(s[i], s[j])
    ensures Distinct(s)
  {
    forall i, j | 0 <= i < j < |s|
      ensures s[i] != s[j]
    {
      Strings.LessTrichotomy(s[i], s[j]);
    }
  }

  lemma {:induction false} CountEitherOrder(findings: seq<Finding>, port: int, a: string, b: string)
    ensures CountOf(findings, SharedPort(port, a, b)) == CountOf(findings, SharedPort(port, b, a))
  {
    if findings != [] {
      CountEitherOrder(findings[..|findings| - 1], port, a, b);
    }
  }

  // In terms of the listeners

  ghost predicate OnPortWithKey(listeners: seq<Listener>, i: int, port: int, key: ListenerKey) {
    0 <= i < |listeners| && listeners[i].port == port && KeyOf(listeners[i]) == key
  }

  /** Two listeners at different positions have this port and key. */
  ghost predicate Twice(listeners: seq<Listener>, port: int, key: ListenerKey) {
    exists i, j :: i != j && OnPortWithKey(listeners, i, port, key) && OnPortWithKey(listeners, j, port, key)
  }

  ghost predicate Once(listeners: seq<Listener>, port: int, key: ListenerKey) {
    exists i :: OnPortWithKey(listeners, i, port, key)
  }

  lemma OnceMore(init: seq<Listener>, last: Listener, port: int, key: ListenerKey)
    ensures var here := last.port == port && KeyOf(last) == key;
            && (Once(init + [last], port, key) <==> Once(init, port, key) || here)
            && (Twice(init + [last], port, key) <==> Twice(init, port, key) || (Once(init, port, key) && here))
  {
    var listeners, n := init + [last], |init|;
    var here := last.port == port && KeyOf(last) == key;
    forall i
      ensures OnPortWithKey(listeners, i, port, key) <==> OnPortWithKey(init, i, port, key) || (i == n && here)
    {
    }
    assert forall i :: OnPortWithKey(init, i, port, key) ==> i != n;
    hide OnPortWithKey, KeyOf;
    if here {
      assert OnPortWithKey(listeners, n, port, key);
    }
    if Once(init, port, key) {
      var i :| OnPortWithKey(init, i, port, key);
      assert OnPortWithKey(listeners, i, port, key);
    }
    if Twice(init, port, key) {
      var i, j :| i != j && OnPortWithKey(init, i, port, key) && OnPortWithKey(init, j, port, key);
      assert OnPortWithKey(listeners, i, port, key) && OnPortWithKey(listeners, j, port, key);
    }
  }

  function NestedSize(listeners: seq<Listener>, port: int, key: ListenerKey): nat {
    |Group(Group(listeners, OnPort(port)), OfKey(key))|
  }

  lemma NestedSizeStep(listeners: seq<Listener>, port: int, key: ListenerKey)
    requires listeners != []
    ensures var n := |listeners| - 1;
            NestedSize(listeners, port, key)
            == NestedSize(listeners[..n], port, key)
               + if listeners[n].port == port && KeyOf(listeners[n]) == key then 1 else 0
  {
    var n := |listeners| - 1;
    var group := Group(listeners[..n], OnPort(port));
    assert listeners[..n + 1] == listeners;
    GroupStep(listeners, n, OnPort(port));
    if listeners[n].port == port {
      var more := group + [listeners[n]];
      assert more[..|group|] == group && more[..|group| + 1] == more;
      GroupStep(more, |group|, OfKey(key));
    }
  }

  lemma {:induction false} NestedGroupSize(listeners: seq<Listener>, port: int, key: ListenerKey)
    ensures NestedSize(listeners, port, key) >= 1 <==> Once(listeners, port, key)
    ensures NestedSize(listeners, port, key) >= 2 <==> Twice(listeners, port, key)
  {
    if listeners != [] {
      var n := |listeners| - 1;
      hide KeyOf, Once, Twice, NestedSize;
      NestedGroupSize(listeners[..n], port, key);
      NestedSizeStep(listeners, port, key);
      OnceMore(listeners[..n], listeners[n], port, key);
      assert listeners == listeners[..n] + [listeners[n]];
    }
  }

  lemma FindingsCount(listeners: seq<Listener>, s: Subject)
    requires |listeners| >= 2
    ensures CountOf(Findings(listeners), s)
         == if |Group(listeners, OnPort(s.port))| < 2 then 0
            else CountOf(PortFindings(listeners[0].owner, s.port, Group(listeners, OnPort(s.port))), s)
  {
    hide Group, PortFindings, CountOf, OrderedPorts;
    OrderedPortsAre(listeners);
    CountOnPorts(listeners[0].owner, listeners, OrderedPorts(listeners), s);
    GroupsAre(listeners, OnPort(s.port));
    var group := Group(listeners, OnPort(s.port));
    PortFindingsAreNone(listeners[0].owner, s.port, group, s);
    if |group| >= 2 {
      assert group[0] in group;
    }
  }

  lemma PortFindingsAreNone(owner: ObjectRef, port: int, group: seq<Listener>, s: Subject)
    ensures |group| < 2 ==> CountOf(PortFindings(owner, port, group), s) == 0
  {
  }

  lemma {:induction false} GroupNoLarger(listeners: seq<Listener>, b: Bucket)
    ensures |Group(listeners, b)| <= |listeners|
  {
    if listeners != [] {
      GroupNoLarger(listeners[..|listeners| - 1], b);
    }
  }

  /** A port and key get exactly one indistinct finding when two listeners carry them, and none otherwise. */
  lemma OneFindingPerRepeatedKey(listeners: seq<Listener>, port: int, key: ListenerKey)
    ensures CountOf(Findings(listeners), RepeatedKey(port, key)) == if Twice(listeners, port, key) then 1 else 0
  {
    hide Group, PortFindings, FindingsOn, CountOf, KeyOf;
    var group := Group(listeners, OnPort(port));
    NestedGroupSize(listeners, port, key);
    GroupNoLarger(group, OfKey(key));
    GroupNoLarger(listeners, OnPort(port));
    if |listeners| < 2 {
      CountNone([], RepeatedKey(port, key));
    } else {
      FindingsCount(listeners, RepeatedKey(port, key));
      if |group| >= 2 {
        CountRepeatedOn(listeners[0].owner, port, group, key);
        KeyRepeatedIff(group, key);
      }
    }
  }

  lemma KeyRepeatedIff(group: seq<Listener>, key: ListenerKey)
    ensures key in RepeatedKeys(group) <==> |Group(group, OfKey(key))| > 1
  {
    GroupsAre(group, OfKey(key));
    hide Group;
    if |Group(group, OfKey(key))| > 1 {
      assert Group(group, OfKey(key))[0] in Group(group, OfKey(key));
    }
  }

  ghost predicate Speaks(listeners: seq<Listener>, port: int, protocol: string) {
    exists l :: l in listeners && l.port == port && l.protocol == protocol
  }

  /** Two different protocols present on a port get exactly one finding when they clash, and none otherwise. */
  lemma OneFindingPerClash(listeners: seq<Listener>, port: int, a: string, b: string)
    requires a != b
    ensures CountOf(Findings(listeners), SharedPort(port, a, b))
         == if Speaks(listeners, port, a) && Speaks(listeners, port, b) && CannotShare(a, b) then 1 else 0
  {
    ProtocolsConflictIff(a, b);
    assert DoClash(a, b) <==> CannotShare(a, b);
    hide Group, PortFindings, FindingsOn, CountOf, DoClash, CannotShare;
    var group := Group(listeners, OnPort(port));
    GroupsAre(listeners, OnPort(port));
    assert a in Protocols(group) <==> Speaks(listeners, port, a);
    assert b in Protocols(group) <==> Speaks(listeners, port, b);
    GroupNoLarger(listeners, OnPort(port));
    TwoProtocols(group, a, b);
    if |listeners| < 2 {
      CountNone([], SharedPort(port, a, b));
    } else {
      FindingsCount(listeners, SharedPort(port, a, b));
      if |group| >= 2 {
        CountSharedOn(listeners[0].owner, port, group, a, b);
      }
    }
  }

  lemma TwoProtocols(group: seq<Listener>, a: string, b: string)
    requires a != b
    ensures a in Protocols(group) && b in Protocols(group) ==> |group| >= 2
  {
    if a in Protocols(group) && b in Protocols(group) {
      var i :| 0 <= i < |group| && group[i].protocol == a;
      var j :| 0 <= j < |group| && group[j].protocol == b;
      assert i != j;
    }
  }

  /** The listeners an indistinct finding names are all the listeners of its port and key. */
  lemma {:induction false} NamesAreTheGroup(owner: ObjectRef, listeners: seq<Listener>, ports: seq<int>)
    ensures forall f :: f in FindingsOn(owner, listeners, ports) && f.Indistinct? ==>
                          f.names == SortedNames(Group(Group(listeners, OnPort(f.port)), OfKey(f.key)))
  {
    hide Group, SortedNames, OrderedKeys, OrderedProtocols, ClashesAmong;
    if ports != [] {
      var n := |ports| - 1;
      NamesAreTheGroup(owner, listeners, ports[..n]);
      var group := Group(listeners, OnPort(ports[n]));
      var protocols := OrderedProtocols(group);
      ClashesHavePort(owner, ports[n], group, protocols, |protocols|);
    }
  }

  ghost predicate NamesBoth(f: Finding, group: seq<Listener>) {
    f.Unshareable? ==>
      f.aNames == SortedNames(Group(group, OfProtocol(f.a))) && f.bNames == SortedNames(Group(group, OfProtocol(f.b)))
  }

  lemma {:induction false} ClashesWithNameBoth(owner: ObjectRef, port: int, group: seq<Listener>, a: string,
                                               others: seq<string>)
    ensures forall f :: f in ClashesWith(owner, port, group, a, others) ==> NamesBoth(f, group)
  {
    hide Group, SortedNames, ProtocolsConflict;
    if others != [] {
      ClashesWithNameBoth(owner, port, group, a, others[..|others| - 1]);
    }
  }

  lemma {:induction false} ClashesNameBoth(owner: ObjectRef, port: int, group: seq<Listener>, protocols: seq<string>,
                                           n: nat)
    requires n <= |protocols|
    ensures forall f :: f in ClashesAmong(owner, port, group, protocols, n) ==> NamesBoth(f, group)
  {
    hide ClashesWith, NamesBoth;
    if n > 0 {
      ClashesNameBoth(owner, port, group, protocols, n - 1);
      ClashesWithNameBoth(owner, port, group, protocols[n - 1], protocols[n..]);
    }
  }

  /** The listeners a protocol finding names are all the listeners of either protocol on its port. */
  lemma {:induction false} ClashNamesAreTheGroups(owner: ObjectRef, listeners: seq<Listener>, ports: seq<int>)
    ensures forall f :: f in FindingsOn(owner, listeners, ports) ==> NamesBoth(f, Group(listeners, OnPort(f.port)))
  {
    hide Group, SortedNames, OrderedKeys, OrderedProtocols, ClashesAmong, PortFindings;
    if ports != [] {
      var n := |ports| - 1;
      ClashNamesAreTheGroups(owner, listeners, ports[..n]);
      PortNamesBoth(owner, ports[n], Group(listeners, OnPort(ports[n])));
      FindingsHavePort(owner, ports[n], Group(listeners, OnPort(ports[n])));
      hide NamesBoth;
    }
  }

  lemma PortNamesBoth(owner: ObjectRef, port: int, group: seq<Listener>)
    ensures forall f :: f in PortFindings(owner, port, group) ==> NamesBoth(f, group)
  {
    hide Group, SortedNames, OrderedKeys, OrderedProtocols, ClashesAmong;
    var protocols := OrderedProtocols(group);
    ClashesNameBoth(owner, port, group, protocols, |protocols|);
  }

  lemma {:induction false} CountPositive(findings: seq<Finding>, s: Subject)
    ensures CountOf(findings, s) > 0 <==> exists f :: f in findings && Concerns(f, s)
  {
    hide Concerns;
    if findings != [] {
      var n := |findings| - 1;
      CountPositive(findings[..n], s);
      assert forall f :: f in findings <==> f in findings[..n] || f == findings[n];
    }
  }

  /** Both are on one port, with one protocol and one hostname, an unset one being the empty one. */
  predicate SamePlace(l: Listener, m: Listener) {
    && l.port == m.port && l.protocol == m.protocol
    && (if l.hostname.Some? then l.hostname.value else "") == (if m.hostname.Some? then m.hostname.value else "")
  }

  lemma SamePlaceIff(l: Listener, m: Listener)
    ensures SamePlace(l, m) <==> l.port == m.port && KeyOf(l) == KeyOf(m)
  {
  }

  /** An indistinct finding for the port, protocol and hostname of the listener, with its quoted name. */
  predicate Reports(f: Finding, l: Listener) {
    && f.Indistinct? && f.port == l.port && f.key.protocol == l.protocol
    && f.key.hostname == (if l.hostname.Some? then l.hostname.value else "")
    && "\"" + l.name + "\"" in f.names
  }

  lemma ReportsIff(f: Finding, l: Listener)
    ensures Reports(f, l) <==> f.Indistinct? && f.port == l.port && f.key == KeyOf(l) && QuotedName(l) in f.names
  {
  }

  lemma OwnFindingNamesIt(listeners: seq<Listener>, f: Finding, l: Listener)
    requires l in listeners && f in Findings(listeners) && Concerns(f, RepeatedKey(l.port, KeyOf(l)))
    ensures QuotedName(l) in f.names
  {
    hide KeyOf, QuotedName, Group, FindingsOn, SortedNames;
    NamesAreTheGroup(listeners[0].owner, listeners, OrderedPorts(listeners));
    var group := Group(listeners, OnPort(l.port));
    GroupsAre(listeners, OnPort(l.port));
    GroupsAre(group, OfKey(KeyOf(l)));
    SortedNamesAre(Group(group, OfKey(KeyOf(l))));
  }

  /** A listener is named in an indistinct finding exactly when another one has its port, protocol and hostname. */
  lemma NamedIffAnotherIsIndistinct(listeners: seq<Listener>, i: int)
    requires 0 <= i < |listeners|
    ensures (exists f :: f in Findings(listeners) && Reports(f, listeners[i])) <==>
              exists j :: 0 <= j < |listeners| && j != i && SamePlace(listeners[i], listeners[j])
  {
    var l := listeners[i];
    forall f
      ensures Reports(f, l) <==> f.Indistinct? && f.port == l.port && f.key == KeyOf(l) && QuotedName(l) in f.names
    {
      ReportsIff(f, l);
    }
    hide KeyOf, QuotedName, Findings, CountOf, Reports, SamePlace;
    var s := RepeatedKey(l.port, KeyOf(l));
    OneFindingPerRepeatedKey(listeners, l.port, KeyOf(l));
    CountPositive(Findings(listeners), s);
    forall j
      ensures OnPortWithKey(listeners, j, l.port, KeyOf(l)) <==> 0 <= j < |listeners| && SamePlace(l, listeners[j])
    {
      if 0 <= j < |listeners| {
        SamePlaceIff(l, listeners[j]);
      }
    }
    assert OnPortWithKey(listeners, i, l.port, KeyOf(l));
    if f :| f in Findings(listeners) && Concerns(f, s) {
      OwnFindingNamesIt(listeners, f, l);
      assert Reports(f, l);
    }
    hide OnPortWithKey;
  }
}
