/** conflicting-listeners: listeners of one object that share a port and cannot be told apart
    (pkg/templates/conflictinglisteners/template.go). */
module ConflictingListeners {
  import opened Manifests
  import opened Parents
  import opened ListenerNames
  import opened Sorting
  import Strings

  datatype ListenerKey = ListenerKey(protocol: string, hostname: string)

  /** An unset and an empty hostname are the same catch-all. */
  function KeyOf(l: Listener): ListenerKey {
    ListenerKey(l.protocol, l.hostname.GetOr(""))
  }

  predicate KeyLess(a: ListenerKey, b: ListenerKey) {
    if a.protocol != b.protocol then Strings.Less(a.protocol, b.protocol) else Strings.Less(a.hostname, b.hostname)
  }

  lemma KeysAreOrdered()
    ensures StrictTotalOrder(KeyLess)
  {
    forall a: ListenerKey, b: ListenerKey, c: ListenerKey
      ensures OrderLaws(KeyLess, a, b, c)
    {
      Strings.LessTrichotomy(a.protocol, b.protocol);
      Strings.LessTrichotomy(a.hostname, b.hostname);
      if KeyLess(a, b) && KeyLess(b, c) {
        KeysTransitive(a, b, c);
      }
    }
  }

  lemma KeysTransitive(a: ListenerKey, b: ListenerKey, c: ListenerKey)
    requires KeyLess(a, b) && KeyLess(b, c)
    ensures KeyLess(a, c)
  {
    if Strings.Less(a.protocol, b.protocol) && Strings.Less(b.protocol, c.protocol) {
      Strings.LessTransitive(a.protocol, b.protocol, c.protocol);
      Strings.LessTrichotomy(a.protocol, c.protocol);
    }
    if Strings.Less(a.hostname, b.hostname) && Strings.Less(b.hostname, c.hostname) {
      Strings.LessTransitive(a.hostname, b.hostname, c.hostname);
    }
  }

  datatype Class = Unknown | Plaintext | TLS | RawTCP | UDP

  function ClassOf(protocol: string): Class {
    if protocol == "HTTP" then Plaintext
    else if protocol == "HTTPS" || protocol == "TLS" then TLS
    else if protocol == "TCP" then RawTCP
    else if protocol == "UDP" then UDP
    else Unknown
  }

  predicate UsesHostname(protocol: string) {
    protocol == "HTTP" || protocol == "HTTPS" || protocol == "TLS"
  }

  /** Why two protocols cannot share a port. */
  datatype Clash = BesideRawTCP | PlaintextBesideTLS

  function ProtocolsConflict(a: string, b: string): Option<Clash> {
    var classA, classB := ClassOf(a), ClassOf(b);
    if classA == Unknown || classB == Unknown then None
    else if (classA == UDP) != (classB == UDP) then None
    else if classA == RawTCP || classB == RawTCP then Some(BesideRawTCP)
    else if classA == Plaintext || classB == Plaintext then Some(PlaintextBesideTLS)
    else None
  }

  /** The pairs of protocols that cannot share a port. */
  predicate CannotShare(a: string, b: string) {
    var pairs := {("TCP", "HTTP"), ("TCP", "HTTPS"), ("TCP", "TLS"), ("HTTP", "HTTPS"), ("HTTP", "TLS")};
    (a, b) in pairs || (b, a) in pairs
  }

  /** Different protocols clash whichever is named first: a raw TCP listener with every other TCP-based one, and
      plaintext HTTP with the TLS-based ones. */
  lemma ProtocolsConflictIff(a: string, b: string)
    requires a != b
    ensures ProtocolsConflict(a, b) == ProtocolsConflict(b, a)
    ensures ProtocolsConflict(a, b).Some? <==> CannotShare(a, b)
    ensures ProtocolsConflict(a, b) == Some(BesideRawTCP) <==> CannotShare(a, b) && (a == "TCP" || b == "TCP")
  {
  }

  /** What a finding names. `owner` is the kind and name of the object declaring the listeners. */
  datatype Finding =
    | Indistinct(owner: ObjectRef, port: int, key: ListenerKey, names: seq<string>, byHostname: bool)
    | Unshareable(owner: ObjectRef, port: int, a: string, aNames: seq<string>, b: string, bNames: seq<string>,
        clash: Clash)

  // Groups

  datatype Bucket = OnPort(port: int) | OfKey(key: ListenerKey) | OfProtocol(protocol: string)

  predicate InBucket(l: Listener, b: Bucket) {
    match b
    case OnPort(port) => l.port == port
    case OfKey(key) => KeyOf(l) == key
    case OfProtocol(protocol) => l.protocol == protocol
  }

  function Group(listeners: seq<Listener>, b: Bucket): seq<Listener> {
    if listeners == [] then []
    else
      var last := listeners[|listeners| - 1];
      Group(listeners[..|listeners| - 1], b) + if InBucket(last, b) then [last] else []
  }

  lemma GroupStep(listeners: seq<Listener>, i: nat, b: Bucket)
    requires i < |listeners|
    ensures InBucket(listeners[i], b) ==> Group(listeners[..i + 1], b) == Group(listeners[..i], b) + [listeners[i]]
    ensures !InBucket(listeners[i], b) ==> Group(listeners[..i + 1], b) == Group(listeners[..i], b)
  {
    assert listeners[..i + 1][..i] == listeners[..i];
  }

  lemma {:induction false} GroupsAre(listeners: seq<Listener>, b: Bucket)
    ensures forall l :: l in Group(listeners, b) <==> l in listeners && InBucket(l, b)
  {
    hide InBucket;
    if listeners != [] {
      var n := |listeners| - 1;
      GroupsAre(listeners[..n], b);
      assert forall l :: l in listeners <==> l in listeners[..n] || l == listeners[n];
    }
  }

  ghost function Ports(listeners: seq<Listener>): set<int> {
    set l | l in listeners :: l.port
  }

  ghost function Protocols(listeners: seq<Listener>): set<string> {
    set l | l in listeners :: l.protocol
  }

  ghost function Keys(listeners: seq<Listener>): set<ListenerKey> {
    set l | l in listeners :: KeyOf(l)
  }

  /** The keys more than one listener carries. */
  ghost function RepeatedKeys(listeners: seq<Listener>): set<ListenerKey> {
    set key | key in Keys(listeners) && |Group(listeners, OfKey(key))| > 1
  }

  // What is found

  ghost function IndistinctFinding(owner: ObjectRef, port: int, group: seq<Listener>, key: ListenerKey): Finding {
    Indistinct(owner, port, key, SortedNames(Group(group, OfKey(key))),
               key.hostname != "" || UsesHostname(key.protocol))
  }

  ghost function IndistinctFindings(owner: ObjectRef, port: int, group: seq<Listener>,
                                    keys: seq<ListenerKey>): (r: seq<Finding>)
    ensures |r| == |keys| && forall i :: 0 <= i < |r| ==> r[i] == IndistinctFinding(owner, port, group, keys[i])
  {
    seq(|keys|, i requires 0 <= i < |keys| => IndistinctFinding(owner, port, group, keys[i]))
  }

  ghost function OrderedKeys(group: seq<Listener>): seq<ListenerKey> {
    KeysAreOrdered();
    Ordered(multiset(RepeatedKeys(group)), KeyLess)
  }

  ghost function OrderedProtocols(group: seq<Listener>): seq<string> {
    StringsAreOrdered();
    Ordered(multiset(Protocols(group)), Strings.Less)
  }

  ghost function OrderedPorts(listeners: seq<Listener>): seq<int> {
    IntsAreOrdered();
    Ordered(multiset(Ports(listeners)), IntLess)
  }

  /** The finding on two protocols sharing the port, if they clash. */
  ghost function ClashFindings(owner: ObjectRef, port: int, group: seq<Listener>, a: string, b: string): seq<Finding> {
    match ProtocolsConflict(a, b)
    case Some(clash) =>
      [Unshareable(owner, port, a, SortedNames(Group(group, OfProtocol(a))), b,
          SortedNames(Group(group, OfProtocol(b))), clash)]
    case None => []
  }

  /** One protocol against each of `others` in turn. */
  ghost function ClashesWith(owner: ObjectRef, port: int, group: seq<Listener>, a: string,
                             others: seq<string>): seq<Finding> {
    if others == [] then []
    else
      ClashesWith(owner, port, group, a, others[..|others| - 1])
      + ClashFindings(owner, port, group, a, others[|others| - 1])
  }

  /** The first `n` protocols, each against those after it. */
  ghost function ClashesAmong(owner: ObjectRef, port: int, group: seq<Listener>, protocols: seq<string>,
                              n: nat): seq<Finding>
    requires n <= |protocols|
  {
    if n == 0 then []
    else
      ClashesAmong(owner, port, group, protocols, n - 1)
      + ClashesWith(owner, port, group, protocols[n - 1], protocols[n..])
  }

  ghost function ClashesOn(owner: ObjectRef, port: int, group: seq<Listener>): seq<Finding> {
    var protocols := OrderedProtocols(group);
    ClashesAmong(owner, port, group, protocols, |protocols|)
  }

  ghost function PortFindings(owner: ObjectRef, port: int, group: seq<Listener>): seq<Finding> {
    if |group| < 2 then []
    else IndistinctFindings(owner, port, group, OrderedKeys(group)) + ClashesOn(owner, port, group)
  }

  ghost function FindingsOn(owner: ObjectRef, listeners: seq<Listener>, ports: seq<int>): seq<Finding> {
    if ports == [] then []
    else
      var last := ports[|ports| - 1];
      FindingsOn(owner, listeners, ports[..|ports| - 1]) + PortFindings(owner, last, Group(listeners, OnPort(last)))
  }

  ghost function Findings(listeners: seq<Listener>): seq<Finding> {
    if |listeners| < 2 then [] else FindingsOn(listeners[0].owner, listeners, OrderedPorts(listeners))
  }

  // Finding it

  method GroupByPort(listeners: seq<Listener>) returns (byPort: map<int, seq<Listener>>)
    ensures byPort.Keys == Ports(listeners)
    ensures forall p :: p in byPort ==> byPort[p] == Group(listeners, OnPort(p))
  {
    GroupsOfNone();
    hide Group;
    byPort := map[];
    for i := 0 to |listeners|
      invariant byPort.Keys == Ports(listeners[..i])
      invariant forall p :: Group(listeners[..i], OnPort(p)) == if p in byPort then byPort[p] else []
    {
      forall p {
        GroupStep(listeners, i, OnPort(p));
      }
      var l := listeners[i];
      assert listeners[..i + 1] == listeners[..i] + [l];
      byPort := byPort[l.port := (if l.port in byPort then byPort[l.port] else []) + [l]];
    }
    assert listeners[..|listeners|] == listeners;
  }

  method GroupByKey(group: seq<Listener>) returns (byKey: map<ListenerKey, seq<Listener>>)
    ensures byKey.Keys == Keys(group)
    ensures forall k :: k in byKey ==> byKey[k] == Group(group, OfKey(k))
  {
    GroupsOfNone();
    hide Group;
    byKey := map[];
    for i := 0 to |group|
      invariant byKey.Keys == Keys(group[..i])
      invariant forall k :: Group(group[..i], OfKey(k)) == if k in byKey then byKey[k] else []
    {
      forall k {
        GroupStep(group, i, OfKey(k));
      }
      var l := group[i];
      assert group[..i + 1] == group[..i] + [l];
      byKey := byKey[KeyOf(l) := (if KeyOf(l) in byKey then byKey[KeyOf(l)] else []) + [l]];
    }
    assert group[..|group|] == group;
  }

  method GroupByProtocol(group: seq<Listener>) returns (byProtocol: map<string, seq<Listener>>)
    ensures byProtocol.Keys == Protocols(group)
    ensures forall p :: p in byProtocol ==> byProtocol[p] == Group(group, OfProtocol(p))
  {
    GroupsOfNone();
    hide Group;
    byProtocol := map[];
    for i := 0 to |group|
      invariant byProtocol.Keys == Protocols(group[..i])
      invariant forall p :: Group(group[..i], OfProtocol(p)) == if p in byProtocol then byProtocol[p] else []
    {
      forall p {
        GroupStep(group, i, OfProtocol(p));
      }
      var l := group[i];
      assert group[..i + 1] == group[..i] + [l];
      byProtocol := byProtocol[l.protocol := (if l.protocol in byProtocol then byProtocol[l.protocol] else []) + [l]];
    }
    assert group[..|group|] == group;
  }

  lemma GroupsOfNone()
    ensures forall b :: Group([], b) == []
  {
  }

  method SortRepeatedKeys(group: seq<Listener>, byKey: map<ListenerKey, seq<Listener>>) returns (keys: seq<ListenerKey>)
    requires byKey.Keys == Keys(group)
    requires forall k :: k in byKey ==> byKey[k] == Group(group, OfKey(k))
    ensures keys == OrderedKeys(group)
    ensures forall i :: 0 <= i < |keys| ==> keys[i] in byKey
  {
    hide KeyLess, Group;
    var repeated := set key | key in byKey.Keys && |byKey[key]| > 1;
    assert repeated == RepeatedKeys(group);
    KeysAreOrdered();
    keys := SortKeys(repeated, KeyLess);
  }

  method SortProtocols(group: seq<Listener>, byProtocol: map<string, seq<Listener>>) returns (protocols: seq<string>)
    requires byProtocol.Keys == Protocols(group)
    ensures protocols == OrderedProtocols(group)
    ensures forall i :: 0 <= i < |protocols| ==> protocols[i] in byProtocol
  {
    StringsAreOrdered();
    protocols := SortKeys(byProtocol.Keys, Strings.Less);
  }

  method SortPorts(listeners: seq<Listener>, byPort: map<int, seq<Listener>>) returns (ports: seq<int>)
    requires byPort.Keys == Ports(listeners)
    ensures ports == OrderedPorts(listeners)
    ensures forall i :: 0 <= i < |ports| ==> ports[i] in byPort
  {
    IntsAreOrdered();
    ports := SortKeys(byPort.Keys, IntLess);
  }

  method IndistinctListeners(owner: ObjectRef, port: int, group: seq<Listener>) returns (diagnostics: seq<Finding>)
    ensures diagnostics == IndistinctFindings(owner, port, group, OrderedKeys(group))
  {
    hide Group, OrderedKeys, SortedNames;
    var byKey := GroupByKey(group);
    var keys := SortRepeatedKeys(group, byKey);
    diagnostics := [];
    for i := 0 to |keys|
      invariant |diagnostics| == i
      invariant forall k :: 0 <= k < i ==> diagnostics[k] == IndistinctFinding(owner, port, group, keys[k])
    {
      var key := keys[i];
      var names := SortNames(byKey[key]);
      diagnostics := diagnostics
          + [Indistinct(owner, port, key, names, key.hostname != "" || UsesHostname(key.protocol))];
    }
  }

  method ProtocolConflicts(owner: ObjectRef, port: int, group: seq<Listener>) returns (diagnostics: seq<Finding>)
    ensures diagnostics == ClashesOn(owner, port, group)
  {
    hide Group, ClashesAmong, ClashesWith, OrderedProtocols;
    var byProtocol := GroupByProtocol(group);
    var protocols := SortProtocols(group, byProtocol);
    diagnostics := [];
    NoClashes(owner, port, group, protocols);
    for i := 0 to |protocols|
      invariant diagnostics == ClashesAmong(owner, port, group, protocols, i)
    {
      ClashesAmongStep(owner, port, group, protocols, i);
      var clashes := ConflictsWith(owner, port, group, byProtocol, protocols[i], protocols[i + 1..]);
      diagnostics := diagnostics + clashes;
    }
  }

  /** The inner loop of protocolConflicts: one protocol against those after it. */
  method ConflictsWith(owner: ObjectRef, port: int, ghost group: seq<Listener>, byProtocol: map<string, seq<Listener>>,
                       a: string, others: seq<string>) returns (diagnostics: seq<Finding>)
    requires forall p :: p in byProtocol ==> byProtocol[p] == Group(group, OfProtocol(p))
    requires a in byProtocol && forall i :: 0 <= i < |others| ==> others[i] in byProtocol
    ensures diagnostics == ClashesWith(owner, port, group, a, others)
  {
    assert ClashesWith(owner, port, group, a, others[..0]) == [];
    hide Group, SortedNames, ClashesWith, ProtocolsConflict;
    diagnostics := [];
    for j := 0 to |others|
      invariant diagnostics == ClashesWith(owner, port, group, a, others[..j])
    {
      ClashesWithStep(owner, port, group, a, others, j);
      var b := others[j];
      var conflict := ProtocolsConflict(a, b);
      if conflict.None? {
        continue;
      }
      var aNames := SortNames(byProtocol[a]);
      var bNames := SortNames(byProtocol[b]);
      diagnostics := diagnostics + [Unshareable(owner, port, a, aNames, b, bNames, conflict.value)];
    }
    assert others[..|others|] == others;
  }

  lemma NoClashes(owner: ObjectRef, port: int, group: seq<Listener>, protocols: seq<string>)
    ensures ClashesAmong(owner, port, group, protocols, 0) == []
  {
  }

  lemma ClashesAmongStep(owner: ObjectRef, port: int, group: seq<Listener>, protocols: seq<string>, i: nat)
    requires i < |protocols|
    ensures ClashesAmong(owner, port, group, protocols, i + 1)
         == ClashesAmong(owner, port, group, protocols, i)
          + ClashesWith(owner, port, group, protocols[i], protocols[i + 1..])
  {
  }

  lemma ClashesWithStep(owner: ObjectRef, port: int, group: seq<Listener>, a: string, others: seq<string>, k: nat)
    requires k < |others|
    ensures ProtocolsConflict(a, others[k]).None? ==>
              ClashesWith(owner, port, group, a, others[..k + 1]) == ClashesWith(owner, port, group, a, others[..k])
    ensures ProtocolsConflict(a, others[k]).Some? ==>
              ClashesWith(owner, port, group, a, others[..k + 1])
              == ClashesWith(owner, port, group, a, others[..k]) + ClashFindings(owner, port, group, a, others[k])
  {
    assert others[..k + 1][..k] == others[..k];
  }

  method CheckFunc(obj: Object) returns (diagnostics: seq<Finding>)
    ensures diagnostics == Findings(ListenerList(obj))
  {
    hide Group, PortFindings, FindingsOn, OrderedPorts;
    var listeners := ListenersOf(obj);
    if |listeners| < 2 {
      return [];
    }
    var owner := listeners[0].owner;
    var byPort := GroupByPort(listeners);
    var ports := SortPorts(listeners, byPort);
    NoFindings(owner, listeners);
    diagnostics := [];
    for i := 0 to |ports|
      invariant diagnostics == FindingsOn(owner, listeners, ports[..i])
    {
      FindingsOnStep(owner, listeners, ports, i);
      var more := OnOnePort(owner, ports[i], byPort[ports[i]]);
      diagnostics := diagnostics + more;
    }
    assert ports[..|ports|] == ports;
  }

  method OnOnePort(owner: ObjectRef, port: int, group: seq<Listener>) returns (diagnostics: seq<Finding>)
    ensures diagnostics == PortFindings(owner, port, group)
  {
    hide Group, ClashesOn, IndistinctFindings, OrderedKeys;
    if |group| < 2 {
      return [];
    }
    var indistinct := IndistinctListeners(owner, port, group);
    var clashes := ProtocolConflicts(owner, port, group);
    diagnostics := indistinct + clashes;
  }

  lemma NoFindings(owner: ObjectRef, listeners: seq<Listener>)
    ensures FindingsOn(owner, listeners, []) == []
  {
  }

  lemma FindingsOnStep(owner: ObjectRef, listeners: seq<Listener>, ports: seq<int>, i: nat)
    requires i < |ports|
    ensures FindingsOn(owner, listeners, ports[..i + 1])
         == FindingsOn(owner, listeners, ports[..i]) + PortFindings(owner, ports[i], Group(listeners, OnPort(ports[i])))
  {
    assert ports[..i + 1][..i] == ports[..i];
  }
}
