/** The missing-certificate-grant check: listener certificates in another namespace that no ReferenceGrant there
    permits (pkg/templates/missingcertificategrant/template.go). It decides by scanning every grant what
    missing-reference-grant decides from its index. */
module MissingCertificateGrant {
  import opened Manifests
  import opened Certificates
  import opened Sorting
  import M = MissingReferenceGrant

  /** A ReferenceGrant: the namespace it protects and its spec. */
  datatype Grant = Grant(namespace: string, spec: GrantSpec)

  function GrantHere(obj: Object): seq<Grant> {
    if M.GrantOf(obj).Some? then [Grant(obj.meta.namespace, M.GrantOf(obj).value)] else []
  }

  function GrantList(ctx: Context): seq<Grant> {
    if ctx == [] then [] else GrantList(ctx[..|ctx| - 1]) + GrantHere(ctx[|ctx| - 1])
  }

  method ReferenceGrants(ctx: Context) returns (grants: seq<Grant>)
    ensures grants == GrantList(ctx)
  {
    grants := [];
    for i := 0 to |ctx|
      invariant grants == GrantList(ctx[..i])
    {
      assert ctx[..i + 1][..i] == ctx[..i];
      if M.GrantOf(ctx[i]).None? {
        continue;
      }
      grants := grants + [Grant(ctx[i].meta.namespace, M.GrantOf(ctx[i]).value)];
    }
    assert ctx[..|ctx|] == ctx;
  }

  predicate FromCovers(f: GrantFrom, owner: ObjectRef) {
    f.group == GATEWAY_API_GROUP && f.kind == owner.kind && f.namespace == owner.namespace
  }

  predicate ToCovers(t: GrantTo, ref: CertificateRef) {
    t.group == ref.group && t.kind == ref.kind && (t.name == None || t.name == Some(ref.name))
  }

  /** A grant of the certificate's namespace has an entry for the listener's owner and one for the certificate. */
  predicate Covers(g: Grant, ref: CertificateRef) {
    && g.namespace == ref.namespace
    && (exists f :: f in g.spec.from && FromCovers(f, ref.owner))
    && exists t :: t in g.spec.to && ToCovers(t, ref)
  }

  predicate Covered(grants: seq<Grant>, ref: CertificateRef) {
    exists g :: g in grants && Covers(g, ref)
  }

  method GrantAllowsFrom(from: seq<GrantFrom>, owner: ObjectRef) returns (allows: bool)
    ensures allows <==> exists f :: f in from && FromCovers(f, owner)
  {
    for i := 0 to |from|
      invariant forall k :: 0 <= k < i ==> !FromCovers(from[k], owner)
    {
      if from[i].group == GATEWAY_API_GROUP && from[i].kind == owner.kind && from[i].namespace == owner.namespace {
        assert from[i] in from && FromCovers(from[i], owner);
        return true;
      }
    }
    return false;
  }

  method GrantAllowsTo(to: seq<GrantTo>, ref: CertificateRef) returns (allows: bool)
    ensures allows <==> exists t :: t in to && ToCovers(t, ref)
  {
    for i := 0 to |to|
      invariant forall k :: 0 <= k < i ==> !ToCovers(to[k], ref)
    {
      var t := to[i];
      if t.group != ref.group || t.kind != ref.kind {
        continue;
      }
      if t.name.None? || t.name.value == ref.name {
        assert t in to && ToCovers(t, ref);
        return true;
      }
    }
    return false;
  }

  method Permitted(grants: seq<Grant>, ref: CertificateRef) returns (permitted: bool)
    ensures permitted <==> Covered(grants, ref)
  {
    hide FromCovers, ToCovers;
    for i := 0 to |grants|
      invariant forall k :: 0 <= k < i ==> !Covers(grants[k], ref)
    {
      if grants[i].namespace != ref.namespace {
        continue;
      }
      var from := GrantAllowsFrom(grants[i].spec.from, ref.owner);
      var to := GrantAllowsTo(grants[i].spec.to, ref);
      assert from && to <==> Covers(grants[i], ref);
      hide Covers;
      if from && to {
        assert grants[i] in grants;
        return true;
      }
    }
    return false;
  }

  /** The manifest set says enough about the namespace: it holds a Secret there, or a grant. */
  ghost predicate Described(ctx: Context, ns: string) {
    || (exists secret :: secret in KnownSecrets(ctx) && secret.namespace == ns)
    || exists g :: g in GrantList(ctx) && g.namespace == ns
  }

  /** The certificate lies in another namespace, one that is described, and no grant there covers it. */
  ghost predicate IsDenied(ctx: Context, ref: CertificateRef) {
    ref.namespace != ref.owner.namespace && Described(ctx, ref.namespace) && !Covered(GrantList(ctx), ref)
  }

  ghost function DenialsAmong(ctx: Context, refs: seq<CertificateRef>): seq<CertificateRef> {
    if refs == [] then []
    else
      var ref := refs[|refs| - 1];
      DenialsAmong(ctx, refs[..|refs| - 1]) + if IsDenied(ctx, ref) then [ref] else []
  }

  /** The diagnostics for an object: one per denied certificate of its terminating listeners, in order. */
  ghost function Denials(ctx: Context, obj: Object): seq<CertificateRef> {
    DenialsAmong(ctx, TerminatingRefs(obj))
  }

  method DescribedNamespaces(ctx: Context, grants: seq<Grant>) returns (described: set<string>)
    requires grants == GrantList(ctx)
    ensures forall ns :: ns in described <==> Described(ctx, ns)
  {
    hide GrantList, KnownSecrets;
    described := {};
    var found := CertificateSecrets(ctx);
    var secrets := ListInAnyOrder(found);
    for i := 0 to |secrets|
      invariant forall ns :: ns in described <==> exists k :: 0 <= k < i && secrets[k].namespace == ns
    {
      described := described + {secrets[i].namespace};
    }
    assert forall ns :: ns in described <==> exists secret :: secret in secrets && secret.namespace == ns;
    ghost var ofSecrets := described;
    for i := 0 to |grants|
      invariant forall ns :: ns in described <==> ns in ofSecrets || exists k :: 0 <= k < i && grants[k].namespace == ns
    {
      described := described + {grants[i].namespace};
    }
  }

  lemma DenialsStep(ctx: Context, refs: seq<CertificateRef>, i: nat)
    requires i < |refs|
    ensures DenialsAmong(ctx, refs[..0]) == []
    ensures IsDenied(ctx, refs[i]) ==> DenialsAmong(ctx, refs[..i + 1]) == DenialsAmong(ctx, refs[..i]) + [refs[i]]
    ensures !IsDenied(ctx, refs[i]) ==> DenialsAmong(ctx, refs[..i + 1]) == DenialsAmong(ctx, refs[..i])
  {
    hide IsDenied;
    assert refs[..i + 1][..i] == refs[..i];
  }

  method CheckFunc(ctx: Context, obj: Object) returns (diagnostics: seq<CertificateRef>)
    ensures diagnostics == Denials(ctx, obj)
  {
    hide GrantList, Covered, Described, TerminatingRefs;
    var certificateRefs := TerminatingCertificateRefs(obj);
    if |certificateRefs| == 0 {
      return [];
    }
    var grants := ReferenceGrants(ctx);
    var described := DescribedNamespaces(ctx, grants);
    DenialsStep(ctx, certificateRefs, 0);
    hide DenialsAmong;
    diagnostics := [];
    for i := 0 to |certificateRefs|
      invariant diagnostics == DenialsAmong(ctx, certificateRefs[..i])
    {
      var ref := certificateRefs[i];
      DenialsStep(ctx, certificateRefs, i);
      if ref.namespace == ref.owner.namespace {
        continue;
      }
      if ref.namespace !in described {
        continue;
      }
      var permitted := Permitted(grants, ref);
      if permitted {
        continue;
      }
      diagnostics := diagnostics + [ref];
    }
    assert certificateRefs[..|certificateRefs|] == certificateRefs;
  }

  // The two decisions agree

  /** A certificate reference put as the other check puts a backendRef. */
  function AsReference(ref: CertificateRef): M.Reference {
    M.Reference(ref.owner.kind, ref.owner.namespace, ref.group, ref.kind, ref.name)
  }

  lemma {:induction false} ScanMeetsIndex(ctx: Context, ns: string)
    ensures forall spec :: Grant(ns, spec) in GrantList(ctx) <==> spec in M.GrantsIn(ctx, ns)
  {
    hide M.GrantOf;
    if ctx != [] {
      ScanMeetsIndex(ctx[..|ctx| - 1], ns);
    }
  }

  lemma CoversIsAuthorises(g: Grant, ref: CertificateRef)
    ensures Covers(g, ref) <==> g.namespace == ref.namespace && M.Authorises(g.spec, AsReference(ref))
  {
    forall f
      ensures FromCovers(f, ref.owner) <==> M.FromMatches(f, AsReference(ref))
    {
    }
    forall t
      ensures ToCovers(t, ref) <==> M.ToMatches(t, AsReference(ref))
    {
    }
    hide FromCovers, ToCovers, M.FromMatches, M.ToMatches;
  }

  /** Looking the namespace up in the index and scanning every grant come to the same decision. */
  lemma IndexAgreesWithScan(ctx: Context, ref: CertificateRef)
    ensures M.Authorised(M.GrantsIn(ctx, ref.namespace), AsReference(ref)) <==> Covered(GrantList(ctx), ref)
  {
    ScanMeetsIndex(ctx, ref.namespace);
    hide GrantList, M.GrantsIn, Covers, M.Authorises;
    forall g {
      CoversIsAuthorises(g, ref);
    }
    if Covered(GrantList(ctx), ref) {
      var g :| g in GrantList(ctx) && Covers(g, ref);
      assert g == Grant(ref.namespace, g.spec);
    }
    if M.Authorised(M.GrantsIn(ctx, ref.namespace), AsReference(ref)) {
      var spec :| spec in M.GrantsIn(ctx, ref.namespace) && M.Authorises(spec, AsReference(ref));
      assert Covers(Grant(ref.namespace, spec), ref);
    }
  }

  /** So in a namespace that has a grant, a certificate is reported exactly when the other check would report a
      backendRef with the same ends. */
  lemma ReportedAsBackendWouldBe(ctx: Context, ref: CertificateRef)
    requires M.GrantsIn(ctx, ref.namespace) != []
    ensures IsDenied(ctx, ref) <==>
              ref.namespace != ref.owner.namespace && !M.Authorised(M.GrantsIn(ctx, ref.namespace), AsReference(ref))
  {
    IndexAgreesWithScan(ctx, ref);
    DescribedIff(ctx, ref.namespace);
    hide GrantList, M.GrantsIn, Covered, M.Authorised, Described;
  }

  /** A namespace without grants is described by its Secrets alone. */
  lemma DescribedIff(ctx: Context, ns: string)
    ensures Described(ctx, ns) <==>
              M.GrantsIn(ctx, ns) != [] || exists secret :: secret in KnownSecrets(ctx) && secret.namespace == ns
  {
    ScanMeetsIndex(ctx, ns);
    hide GrantList, M.GrantsIn, KnownSecrets;
    if g :| g in GrantList(ctx) && g.namespace == ns {
      assert g == Grant(ns, g.spec);
    }
    if M.GrantsIn(ctx, ns) != [] {
      assert M.GrantsIn(ctx, ns)[0] in M.GrantsIn(ctx, ns);
    }
  }

  // Adding a grant

  lemma GrantIsNoSecret(ctx: Context, more: Context, ns: string, spec: GrantSpec)
    requires M.AddsGrant(ctx, more, ns, spec)
    ensures KnownSecrets(more) == KnownSecrets(ctx)
  {
    var k :| M.GrantAddedAt(ctx, more, k, ns, spec);
    M.AddedElements(ctx, more, k, ns, spec);
    assert SecretOf(more[k]).None?;
    hide SecretOf;
  }

  lemma GrantAddedCovers(ctx: Context, more: Context, ns: string, spec: GrantSpec, ref: CertificateRef)
    requires M.AddsGrant(ctx, more, ns, spec)
    ensures Covered(GrantList(more), ref) <==>
              Covered(GrantList(ctx), ref) || (ref.namespace == ns && M.Authorises(spec, AsReference(ref)))
    ensures M.GrantsIn(more, ref.namespace) != [] <==> M.GrantsIn(ctx, ref.namespace) != [] || ref.namespace == ns
  {
    M.AddedGrants(ctx, more, ns, spec, ref.namespace);
    IndexAgreesWithScan(ctx, ref);
    IndexAgreesWithScan(more, ref);
    hide GrantList, M.GrantsIn, Covered, M.Authorises, M.AddsGrant;
    var before, after := M.GrantsIn(ctx, ref.namespace), M.GrantsIn(more, ref.namespace);
    assert before != [] ==> before[0] in before;
    assert after != [] ==> after[0] in after;
    assert ref.namespace == ns ==> spec in after;
  }

  /** What a new grant does to one certificate: nothing in another namespace; in a described one it lifts exactly what
      it authorises; in one that was not, it denies exactly what it does not authorise. */
  lemma GrantAddedToOne(ctx: Context, more: Context, ns: string, spec: GrantSpec, ref: CertificateRef)
    requires M.AddsGrant(ctx, more, ns, spec)
    ensures ref.namespace != ns ==> (IsDenied(more, ref) <==> IsDenied(ctx, ref))
    ensures ref.namespace == ns && Described(ctx, ns) ==>
              (IsDenied(more, ref) <==> IsDenied(ctx, ref) && !M.Authorises(spec, AsReference(ref)))
    ensures ref.namespace == ns && !Described(ctx, ns) ==>
              && !IsDenied(ctx, ref)
              && (IsDenied(more, ref) <==> ns != ref.owner.namespace && !M.Authorises(spec, AsReference(ref)))
  {
    GrantIsNoSecret(ctx, more, ns, spec);
    GrantAddedCovers(ctx, more, ns, spec, ref);
    DescribedIff(ctx, ref.namespace);
    DescribedIff(more, ref.namespace);
    UndescribedCoversNothing(ctx, ref);
    hide GrantList, M.GrantsIn, Covered, M.Authorises, M.AddsGrant, Described, KnownSecrets;
  }

  lemma UndescribedCoversNothing(ctx: Context, ref: CertificateRef)
    ensures Covered(GrantList(ctx), ref) ==> Described(ctx, ref.namespace)
  {
    hide GrantList, KnownSecrets;
  }

  predicate Lifts(ns: string, spec: GrantSpec, ref: CertificateRef) {
    ref.namespace == ns && M.Authorises(spec, AsReference(ref))
  }

  function Unlifted(denials: seq<CertificateRef>, ns: string, spec: GrantSpec): seq<CertificateRef> {
    if denials == [] then []
    else
      var ref := denials[|denials| - 1];
      Unlifted(denials[..|denials| - 1], ns, spec) + if Lifts(ns, spec, ref) then [] else [ref]
  }

  lemma UnliftedStep(denials: seq<CertificateRef>, ref: CertificateRef, ns: string, spec: GrantSpec)
    ensures Unlifted([], ns, spec) == []
    ensures Lifts(ns, spec, ref) ==> Unlifted(denials + [ref], ns, spec) == Unlifted(denials, ns, spec)
    ensures !Lifts(ns, spec, ref) ==> Unlifted(denials + [ref], ns, spec) == Unlifted(denials, ns, spec) + [ref]
  {
    hide Lifts;
    assert (denials + [ref])[..|denials|] == denials;
  }

  lemma {:induction false} GrantAddedToAll(ctx: Context, more: Context, ns: string, spec: GrantSpec,
                                           refs: seq<CertificateRef>)
    requires M.AddsGrant(ctx, more, ns, spec) && Described(ctx, ns)
    ensures DenialsAmong(more, refs) == Unlifted(DenialsAmong(ctx, refs), ns, spec)
  {
    hide M.AddsGrant, IsDenied, Described, M.Authorises;
    if refs != [] {
      var n := |refs| - 1;
      GrantAddedToAll(ctx, more, ns, spec, refs[..n]);
      GrantAddedToOne(ctx, more, ns, spec, refs[n]);
      UnliftedStep(DenialsAmong(ctx, refs[..n]), refs[n], ns, spec);
      DenialsStep(ctx, refs, n);
      DenialsStep(more, refs, n);
      assert refs[..n + 1] == refs;
      hide DenialsAmong, Unlifted;
    }
  }

  /** A new grant in a namespace that is described never adds a certificate report: what remains is what was reported
      before, in the same order, less what the grant authorises. */
  lemma GrantNeverAddsReport(ctx: Context, more: Context, ns: string, spec: GrantSpec, obj: Object)
    requires M.AddsGrant(ctx, more, ns, spec) && Described(ctx, ns)
    ensures Denials(more, obj) == Unlifted(Denials(ctx, obj), ns, spec)
  {
    hide TerminatingRefs, DenialsAmong, Described, M.AddsGrant, Unlifted;
    GrantAddedToAll(ctx, more, ns, spec, TerminatingRefs(obj));
  }
}
