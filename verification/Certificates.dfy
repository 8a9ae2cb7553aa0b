/** The certificates TLS listeners refer to, and the Secrets they can resolve to (pkg/gatewayapi/certificate.go). */
module Certificates {
  import opened Manifests

  const CERT_MANAGER_GROUP := "cert-manager.io"
  const SECRET_KIND := "Secret"

  /** A listener certificateRef with its defaults applied. */
  datatype CertificateRef = CertificateRef(
    owner: ObjectRef, listener: string, group: string, kind: string, namespace: string, name: string)

  /** The Gateway, at either version, or ListenerSet whose listeners may terminate TLS. */
  function OwnerOf(obj: Object): Option<ObjectRef> {
    match obj
    case GatewayV1(m, _) => Some(ObjectRef(GATEWAY, m.namespace, m.name))
    case GatewayV1Beta1(m, _) => Some(ObjectRef(GATEWAY, m.namespace, m.name))
    case ListenerSetV1(m, _, _) => Some(ObjectRef(LISTENER_SET, m.namespace, m.name))
    case _ => None
  }

  /** A listener's certificateRefs matter when it sets TLS and does not pass it through. */
  predicate Terminates(listener: ListenerSpec) {
    listener.tls.Some? && listener.tls.value.mode.GetOr("Terminate") == "Terminate"
  }

  function Resolve(owner: ObjectRef, listener: string, ref: SecretReference): CertificateRef {
    CertificateRef(owner, listener, ref.group.GetOr(""), ref.kind.GetOr(SECRET_KIND),
                   ref.namespace.GetOr(owner.namespace), ref.name)
  }

  function RefsOfListener(owner: ObjectRef, listener: ListenerSpec): (refs: seq<CertificateRef>)
    ensures !Terminates(listener) ==> refs == []
    ensures Terminates(listener) ==>
              && |refs| == |listener.tls.value.certificateRefs|
              && forall i :: 0 <= i < |refs| ==>
                  refs[i] == Resolve(owner, listener.name, listener.tls.value.certificateRefs[i])
  {
    if Terminates(listener) then
      var declared := listener.tls.value.certificateRefs;
      seq(|declared|, i requires 0 <= i < |declared| => Resolve(owner, listener.name, declared[i]))
    else []
  }

  function RefsOfListeners(owner: ObjectRef, listeners: seq<ListenerSpec>): seq<CertificateRef> {
    if listeners == [] then []
    else RefsOfListeners(owner, listeners[..|listeners| - 1]) + RefsOfListener(owner, listeners[|listeners| - 1])
  }

  function TerminatingRefs(obj: Object): seq<CertificateRef> {
    match OwnerOf(obj)
    case Some(owner) => RefsOfListeners(owner, obj.listeners)
    case None => []
  }

  method CertificateRefsOf(owner: ObjectRef, listener: ListenerSpec) returns (refs: seq<CertificateRef>)
    ensures refs == RefsOfListener(owner, listener)
  {
    refs := [];
    if listener.tls.None? || (listener.tls.value.mode.Some? && listener.tls.value.mode.value != "Terminate") {
      return;
    }
    var declared := listener.tls.value.certificateRefs;
    for i := 0 to |declared|
      invariant |refs| == i && forall k :: 0 <= k < i ==> refs[k] == Resolve(owner, listener.name, declared[k])
    {
      var cert := CertificateRef(owner, listener.name, "", SECRET_KIND, owner.namespace, declared[i].name);
      if declared[i].group.Some? {
        cert := cert.(group := declared[i].group.value);
      }
      if declared[i].kind.Some? {
        cert := cert.(kind := declared[i].kind.value);
      }
      if declared[i].namespace.Some? {
        cert := cert.(namespace := declared[i].namespace.value);
      }
      refs := refs + [cert];
    }
  }

  method TerminatingCertificateRefs(obj: Object) returns (refs: seq<CertificateRef>)
    ensures refs == TerminatingRefs(obj)
  {
    hide RefsOfListener;
    refs := [];
    if OwnerOf(obj).None? {
      return;
    }
    var owner := OwnerOf(obj).value;
    for i := 0 to |obj.listeners|
      invariant refs == RefsOfListeners(owner, obj.listeners[..i])
    {
      assert obj.listeners[..i + 1][..i] == obj.listeners[..i];
      var ofListener := CertificateRefsOf(owner, obj.listeners[i]);
      refs := refs + ofListener;
    }
    assert obj.listeners[..|obj.listeners|] == obj.listeners;
  }

  /** `r` is one of the references of a terminating listener of the object. */
  ghost predicate IsTerminatingRef(owner: ObjectRef, listeners: seq<ListenerSpec>, r: CertificateRef) {
    exists l, ref :: && l in listeners && Terminates(l) && ref in l.tls.value.certificateRefs
                     && r == Resolve(owner, l.name, ref)
  }

  lemma RefOfListenerIff(owner: ObjectRef, l: ListenerSpec, r: CertificateRef)
    ensures r in RefsOfListener(owner, l) <==>
              Terminates(l) && exists ref :: ref in l.tls.value.certificateRefs && r == Resolve(owner, l.name, ref)
  {
    hide Resolve;
    if Terminates(l) {
      var declared := l.tls.value.certificateRefs;
      if ref :| ref in declared && r == Resolve(owner, l.name, ref) {
        var i :| 0 <= i < |declared| && declared[i] == ref;
        assert RefsOfListener(owner, l)[i] == r;
      }
    }
  }

  /** Exactly the references of the terminating listeners, each with its defaults. */
  lemma {:induction false} TerminatingRefsAre(owner: ObjectRef, listeners: seq<ListenerSpec>)
    ensures forall r :: r in RefsOfListeners(owner, listeners) <==> IsTerminatingRef(owner, listeners, r)
  {
    hide Resolve, Terminates, RefsOfListener;
    if listeners != [] {
      var n := |listeners| - 1;
      TerminatingRefsAre(owner, listeners[..n]);
      assert forall l :: l in listeners <==> l in listeners[..n] || l == listeners[n];
      forall r
        ensures r in RefsOfListeners(owner, listeners) <==> IsTerminatingRef(owner, listeners, r)
      {
        RefOfListenerIff(owner, listeners[n], r);
      }
    }
  }

  // Secrets

  /** The Secret an object is, or that cert-manager will make of it. */
  function SecretOf(obj: Object): Option<ObjectRef> {
    match obj
    case Secret(m) => Some(ObjectRef(SECRET_KIND, m.namespace, m.name))
    case Unstructured(m, group, kind, secretName) =>
      if group == CERT_MANAGER_GROUP && kind == "Certificate" && secretName.GetOr("") != "" then
        Some(ObjectRef(SECRET_KIND, m.namespace, secretName.value))
      else None
    case _ => None
  }

  ghost function KnownSecrets(ctx: Context): set<ObjectRef> {
    set obj | obj in ctx && SecretOf(obj).Some? :: SecretOf(obj).value
  }

  lemma KnownSecretsStep(ctx: Context, i: nat)
    requires i < |ctx|
    ensures KnownSecrets(ctx[..i + 1])
         == KnownSecrets(ctx[..i]) + if SecretOf(ctx[i]).Some? then {SecretOf(ctx[i]).value} else {}
  {
    hide SecretOf;
    assert forall obj :: obj in ctx[..i + 1] <==> obj in ctx[..i] || obj == ctx[i];
  }

  function CertManagerSecretName(obj: Object): (name: Option<string>)
    requires obj.Unstructured?
    ensures name.Some? <==> SecretOf(obj).Some?
    ensures name.Some? ==> SecretOf(obj).value.name == name.value
  {
    if obj.group != CERT_MANAGER_GROUP || obj.kind != "Certificate" then None
    else if obj.secretName.None? || obj.secretName.value == "" then None
    else obj.secretName
  }

  method CertificateSecrets(ctx: Context) returns (found: set<ObjectRef>)
    ensures found == KnownSecrets(ctx)
  {
    found := {};
    for i := 0 to |ctx|
      invariant found == KnownSecrets(ctx[..i])
    {
      KnownSecretsStep(ctx, i);
      match ctx[i] {
        case Secret(m) => found := found + {ObjectRef(SECRET_KIND, m.namespace, m.name)};
        case Unstructured(m, _, _, _) =>
          var name := CertManagerSecretName(ctx[i]);
          if name.Some? {
            found := found + {ObjectRef(SECRET_KIND, m.namespace, name.value)};
          }
        case _ =>
      }
    }
    assert ctx[..|ctx|] == ctx;
  }
}
