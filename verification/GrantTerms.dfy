/** Which references the two grant checks deny, in terms of the fields of grants, routes and listeners
    (pkg/templates/missingreferencegrant, pkg/templates/missingcertificategrant). */
module GrantTerms {
  import opened Manifests
  import opened Routes
  import opened Certificates
  import M = MissingReferenceGrant
  import C = MissingCertificateGrant

  // Grants

  /** A ReferenceGrant of any version, in that namespace. */
  predicate IsGrant(obj: Object, ns: string, spec: GrantSpec) {
    && (obj.ReferenceGrantV1? || obj.ReferenceGrantV1Beta1? || obj.ReferenceGrantV1Alpha2?)
    && obj.meta.namespace == ns && obj.grant == spec
  }

  ghost predicate HasGrant(ctx: Context, ns: string, spec: GrantSpec) {
    exists obj :: obj in ctx && IsGrant(obj, ns, spec)
  }

  /** The grant lets objects of that kind and namespace refer to that object: one entry on either side matches. */
  predicate Opens(spec: GrantSpec, fromKind: string, fromNamespace: string, group: string, kind: string, name: string) {
    && (exists f :: f in spec.from && f.group == "gateway.networking.k8s.io" && f.kind == fromKind
                    && f.namespace == fromNamespace)
    && exists t :: t in spec.to && t.group == group && t.kind == kind && (t.name.None? || t.name == Some(name))
  }

  ghost predicate IsOpened(ctx: Context, ns: string, fromKind: string, fromNamespace: string, group: string,
                           kind: string, name: string)
  {
    exists spec :: HasGrant(ctx, ns, spec) && Opens(spec, fromKind, fromNamespace, group, kind, name)
  }

  lemma GrantsInIff(ctx: Context, ns: string, spec: GrantSpec)
    ensures spec in M.GrantsIn(ctx, ns) <==> HasGrant(ctx, ns, spec)
  {
    M.GrantsInAre(ctx, ns);
    forall obj
      ensures IsGrant(obj, ns, spec) <==> obj.meta.namespace == ns && M.GrantOf(obj) == Some(spec)
    {
    }
    hide IsGrant, M.GrantOf, M.GrantsIn;
  }

  lemma AuthorisesIff(spec: GrantSpec, ref: M.Reference)
    ensures M.Authorises(spec, ref) <==>
              Opens(spec, ref.fromKind, ref.fromNamespace, ref.toGroup, ref.toKind, ref.toName)
  {
  }

  lemma AuthorisedIff(ctx: Context, ns: string, ref: M.Reference)
    ensures M.Authorised(M.GrantsIn(ctx, ns), ref) <==>
              IsOpened(ctx, ns, ref.fromKind, ref.fromNamespace, ref.toGroup, ref.toKind, ref.toName)
    ensures M.GrantsIn(ctx, ns) != [] <==> exists spec :: HasGrant(ctx, ns, spec)
  {
    forall spec
      ensures spec in M.GrantsIn(ctx, ns) <==> HasGrant(ctx, ns, spec)
      ensures M.Authorises(spec, ref) <==>
                Opens(spec, ref.fromKind, ref.fromNamespace, ref.toGroup, ref.toKind, ref.toName)
    {
      GrantsInIff(ctx, ns, spec);
      AuthorisesIff(spec, ref);
    }
    hide M.GrantsIn, M.Authorises, Opens, HasGrant;
    if M.GrantsIn(ctx, ns) != [] {
      assert M.GrantsIn(ctx, ns)[0] in M.GrantsIn(ctx, ns);
    }
  }

  // backendRefs

  function OrEmpty(o: Option<string>): string {
    if o.Some? then o.value else ""
  }

  function OrService(o: Option<string>): string {
    if o.Some? then o.value else "Service"
  }

  /** The backendRef states another namespace, which has grants, none of them open to the route. */
  ghost predicate IsShutOut(ctx: Context, route: Route, ref: BackendReference) {
    && route.namespace != "" && ref.namespace.Some? && ref.namespace.value != route.namespace
    && (exists spec :: HasGrant(ctx, ref.namespace.value, spec))
    && !IsOpened(ctx, ref.namespace.value, route.kind, route.namespace, OrEmpty(ref.group), OrService(ref.kind),
                 ref.name)
  }

  /** A backendRef is denied if and only if it is shut out; what it leaves out means the core group, a Service and the
      route's own namespace. */
  lemma BackendDeniedIff(ctx: Context, route: Route, b: BackendRef)
    ensures M.IsDenied(ctx, route, b) <==> IsShutOut(ctx, route, b.ref)
  {
    AuthorisedIff(ctx, b.Namespace(route.namespace), M.ReferenceOf(route, b));
    hide M.GrantsIn, M.Authorised, HasGrant, IsOpened;
  }

  ghost predicate IsDenialOf(ctx: Context, route: Route, ref: BackendReference, d: M.Denial) {
    && IsShutOut(ctx, route, ref) && Some(d.target) == ref.namespace
    && d.ref == M.Reference(route.kind, route.namespace, OrEmpty(ref.group), OrService(ref.kind), ref.name)
  }

  ghost function ShutOutAt(ctx: Context, route: Route, refs: seq<BackendRef>): set<int> {
    set i | 0 <= i < |refs| && IsShutOut(ctx, route, refs[i].ref)
  }

  lemma ShutOutStep(ctx: Context, route: Route, refs: seq<BackendRef>, n: nat)
    requires n + 1 == |refs|
    ensures |ShutOutAt(ctx, route, refs)|
         == |ShutOutAt(ctx, route, refs[..n])| + if IsShutOut(ctx, route, refs[n].ref) then 1 else 0
  {
    hide IsShutOut;
    assert ShutOutAt(ctx, route, refs)
        == ShutOutAt(ctx, route, refs[..n]) + if IsShutOut(ctx, route, refs[n].ref) then {n} else {};
  }

  lemma DenialsGrow(ctx: Context, route: Route, refs: seq<BackendRef>, n: nat)
    requires n + 1 == |refs|
    ensures M.DenialsAmong(ctx, route, refs)
         == M.DenialsAmong(ctx, route, refs[..n])
            + if IsShutOut(ctx, route, refs[n].ref) then [M.DenialOf(route, refs[n])] else []
  {
    BackendDeniedIff(ctx, route, refs[n]);
    hide IsShutOut, M.IsDenied, M.DenialOf;
  }

  /** A denial is made of exactly the backendRefs of the route that are shut out, one each. */
  lemma {:induction false} BackendDenialsAre(ctx: Context, route: Route, refs: seq<BackendRef>)
    ensures forall d :: d in M.DenialsAmong(ctx, route, refs) <==>
                          exists b :: b in refs && IsDenialOf(ctx, route, b.ref, d)
    ensures |M.DenialsAmong(ctx, route, refs)| == |ShutOutAt(ctx, route, refs)|
  {
    if refs != [] {
      var n := |refs| - 1;
      BackendDenialsAre(ctx, route, refs[..n]);
      DenialsGrow(ctx, route, refs, n);
      ShutOutStep(ctx, route, refs, n);
      DenialIs(ctx, route, refs[n]);
      hide IsShutOut, M.DenialsAmong, M.DenialOf, IsDenialOf, ShutOutAt;
      assert forall b :: b in refs <==> b in refs[..n] || b == refs[n];
    }
  }

  lemma DenialIs(ctx: Context, route: Route, b: BackendRef)
    ensures forall d :: IsDenialOf(ctx, route, b.ref, d) <==>
                          IsShutOut(ctx, route, b.ref) && d == M.DenialOf(route, b)
  {
    hide HasGrant, IsOpened;
  }

  // Certificates

  /** A Secret, or a Certificate of cert-manager that names one. */
  predicate IsOrMakesSecret(obj: Object) {
    || obj.Secret?
    || (obj.Unstructured? && obj.group == "cert-manager.io" && obj.kind == "Certificate"
        && obj.secretName.Some? && obj.secretName.value != "")
  }

  ghost predicate HasSecret(ctx: Context, ns: string) {
    exists obj :: obj in ctx && IsOrMakesSecret(obj) && obj.meta.namespace == ns
  }

  /** The certificate is in another namespace, which holds a Secret or a grant, and no grant there is open to it. */
  ghost predicate IsShutOutCertificate(ctx: Context, ref: CertificateRef) {
    && ref.namespace != ref.owner.namespace
    && (HasSecret(ctx, ref.namespace) || exists spec :: HasGrant(ctx, ref.namespace, spec))
    && !IsOpened(ctx, ref.namespace, ref.owner.kind, ref.owner.namespace, ref.group, ref.kind, ref.name)
  }

  lemma SecretsIff(ctx: Context, ns: string)
    ensures (exists secret :: secret in KnownSecrets(ctx) && secret.namespace == ns) <==> HasSecret(ctx, ns)
  {
    forall obj
      ensures SecretOf(obj).Some? <==> IsOrMakesSecret(obj)
      ensures SecretOf(obj).Some? ==> SecretOf(obj).value.namespace == obj.meta.namespace
    {
    }
    hide SecretOf, IsOrMakesSecret;
    if obj :| obj in ctx && IsOrMakesSecret(obj) && obj.meta.namespace == ns {
      assert SecretOf(obj).value in KnownSecrets(ctx);
    }
  }

  lemma ListedIff(ctx: Context, ns: string)
    ensures forall spec :: C.Grant(ns, spec) in C.GrantList(ctx) <==> HasGrant(ctx, ns, spec)
  {
    C.ScanMeetsIndex(ctx, ns);
    hide C.GrantList, M.GrantsIn, HasGrant;
    forall spec
      ensures spec in M.GrantsIn(ctx, ns) <==> HasGrant(ctx, ns, spec)
    {
      GrantsInIff(ctx, ns, spec);
    }
  }

  lemma DescribedIff(ctx: Context, ns: string)
    ensures C.Described(ctx, ns) <==> HasSecret(ctx, ns) || exists spec :: HasGrant(ctx, ns, spec)
  {
    SecretsIff(ctx, ns);
    ListedIff(ctx, ns);
    hide KnownSecrets, C.GrantList, HasSecret, HasGrant;
    if g :| g in C.GrantList(ctx) && g.namespace == ns {
      assert g == C.Grant(ns, g.spec);
    }
  }

  lemma CoveredIff(ctx: Context, ref: CertificateRef)
    ensures C.Covered(C.GrantList(ctx), ref) <==>
              IsOpened(ctx, ref.namespace, ref.owner.kind, ref.owner.namespace, ref.group, ref.kind, ref.name)
  {
    ListedIff(ctx, ref.namespace);
    forall g
      ensures C.Covers(g, ref) <==>
                g.namespace == ref.namespace
                && Opens(g.spec, ref.owner.kind, ref.owner.namespace, ref.group, ref.kind, ref.name)
    {
      CoversIff(g, ref);
    }
    hide C.GrantList, C.Covers, Opens, HasGrant;
    if g :| g in C.GrantList(ctx) && C.Covers(g, ref) {
      assert g == C.Grant(ref.namespace, g.spec);
    }
    if spec :| HasGrant(ctx, ref.namespace, spec)
               && Opens(spec, ref.owner.kind, ref.owner.namespace, ref.group, ref.kind, ref.name) {
      assert C.Grant(ref.namespace, spec) in C.GrantList(ctx);
    }
  }

  lemma CoversIff(g: C.Grant, ref: CertificateRef)
    ensures C.Covers(g, ref) <==>
              g.namespace == ref.namespace
              && Opens(g.spec, ref.owner.kind, ref.owner.namespace, ref.group, ref.kind, ref.name)
  {
  }

  lemma CertificateDeniedIff(ctx: Context, ref: CertificateRef)
    ensures C.IsDenied(ctx, ref) <==> IsShutOutCertificate(ctx, ref)
  {
    DescribedIff(ctx, ref.namespace);
    CoveredIff(ctx, ref);
    hide C.Described, C.Covered, HasSecret, IsOpened, HasGrant, C.GrantList;
  }

  /** A reference of a listener that terminates TLS, with what it leaves out read as the Gateway API does. */
  ghost predicate IsReferenceOf(owner: ObjectRef, listeners: seq<ListenerSpec>, r: CertificateRef) {
    exists l, ref :: && l in listeners && l.tls.Some? && ref in l.tls.value.certificateRefs
                     && (l.tls.value.mode.None? || l.tls.value.mode == Some("Terminate"))
                     && r == CertificateRef(
                          owner, l.name, OrEmpty(ref.group), if ref.kind.Some? then ref.kind.value else "Secret",
                          if ref.namespace.Some? then ref.namespace.value else owner.namespace, ref.name)
  }

  /** Gateways of both versions and ListenerSets have certificates, and nothing else does. */
  ghost predicate HasReference(obj: Object, r: CertificateRef) {
    || ((obj.GatewayV1? || obj.GatewayV1Beta1?)
        && IsReferenceOf(ObjectRef("Gateway", obj.meta.namespace, obj.meta.name), obj.listeners, r))
    || (obj.ListenerSetV1?
        && IsReferenceOf(ObjectRef("ListenerSet", obj.meta.namespace, obj.meta.name), obj.listeners, r))
  }

  lemma ReferencesAre(owner: ObjectRef, listeners: seq<ListenerSpec>, r: CertificateRef)
    ensures r in RefsOfListeners(owner, listeners) <==> IsReferenceOf(owner, listeners, r)
  {
    TerminatingRefsAre(owner, listeners);
    hide RefsOfListeners;
  }

  lemma TerminatingIff(obj: Object, r: CertificateRef)
    ensures r in TerminatingRefs(obj) <==> HasReference(obj, r)
  {
    if OwnerOf(obj).Some? {
      ReferencesAre(OwnerOf(obj).value, obj.listeners, r);
    }
    hide RefsOfListeners, IsReferenceOf;
  }

  lemma {:induction false} DenialsAreDenied(ctx: Context, refs: seq<CertificateRef>, r: CertificateRef)
    ensures multiset(C.DenialsAmong(ctx, refs))[r] == if C.IsDenied(ctx, r) then multiset(refs)[r] else 0
  {
    hide C.IsDenied;
    if refs != [] {
      var n := |refs| - 1;
      DenialsAreDenied(ctx, refs[..n], r);
      assert refs == refs[..n] + [refs[n]];
    }
  }

  /** A certificate is denied if and only if the object refers to it and it is shut out, as often as it does. */
  lemma CertificateDenialsAre(ctx: Context, obj: Object, r: CertificateRef)
    ensures r in C.Denials(ctx, obj) <==> HasReference(obj, r) && IsShutOutCertificate(ctx, r)
    ensures r in C.Denials(ctx, obj) ==> multiset(C.Denials(ctx, obj))[r] == multiset(TerminatingRefs(obj))[r]
  {
    TerminatingIff(obj, r);
    CertificateDeniedIff(ctx, r);
    DenialsAreDenied(ctx, TerminatingRefs(obj), r);
    hide C.DenialsAmong, TerminatingRefs, C.IsDenied, HasReference, IsShutOutCertificate;
  }
}
