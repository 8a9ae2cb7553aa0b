/** The last tiebreak between two routes, alphabetical by "{namespace}/{name}" (Gateway API, HTTPRouteRule.matches),
    and the order in which conflicting routes are reported (pkg/templates/conflictingroutematch/template.go). */
module Tiebreak {
  import opened Manifests
  import opened Strings
  import opened ConflictingRouteMatch
  import opened ConflictingRouteRun

  function FullName(id: ObjectRef): string {
    id.namespace + (['/'] + id.name)
  }

  /** One namespace continues another with a character that sorts below the slash. */
  predicate ContinuesBelowSlash(shorter: string, longer: string) {
    shorter < longer && longer[|shorter|] < '/'
  }

  predicate TwoFieldLess(ns: string, name: string, ns': string, name': string) {
    if ns != ns' then Less(ns, ns') else Less(name, name')
  }

  lemma ContinuesStep(a: string, b: string)
    requires a != "" && b != ""
    ensures ContinuesBelowSlash(a, b) <==> a[0] == b[0] && ContinuesBelowSlash(a[1..], b[1..])
  {
    if a[0] == b[0] && a[1..] < b[1..] {
      assert a == [a[0]] + a[1..] && b == [b[0]] + b[1..];
    }
  }

  /** Comparing field by field and comparing the joined names agree unless one namespace so continues the other. */
  lemma {:induction false} FieldsAgreeIff(ns: string, name: string, ns': string, name': string)
    requires '/' !in ns && '/' !in ns'
    ensures (TwoFieldLess(ns, name, ns', name') <==> Less(ns + (['/'] + name), ns' + (['/'] + name'))) <==>
              !ContinuesBelowSlash(ns, ns') && !ContinuesBelowSlash(ns', ns)
  {
    var s, s' := ns + (['/'] + name), ns' + (['/'] + name');
    if ns != "" && ns' != "" {
      assert s[0] == ns[0] && s[1..] == ns[1..] + (['/'] + name);
      assert s'[0] == ns'[0] && s'[1..] == ns'[1..] + (['/'] + name');
      ContinuesStep(ns, ns');
      ContinuesStep(ns', ns);
      assert ns == [ns[0]] + ns[1..] && ns' == [ns'[0]] + ns'[1..];
      if ns[0] == ns'[0] {
        FieldsAgreeIff(ns[1..], name, ns'[1..], name');
      }
    } else {
      assert s[1..] == if ns == "" then name else ns[1..] + (['/'] + name);
      assert s'[1..] == if ns' == "" then name' else ns'[1..] + (['/'] + name');
    }
  }

  /** The order of reporting is the tiebreak's if and only if neither namespace continues the other below the slash. A
      namespace holds no slash (RFC 1123 label). */
  lemma ReportOrderIsTiebreakIff(a: ObjectRef, b: ObjectRef)
    requires '/' !in a.namespace && '/' !in b.namespace
    ensures (SortsBefore(a, b) <==> Less(FullName(a), FullName(b))) <==>
              !ContinuesBelowSlash(a.namespace, b.namespace) && !ContinuesBelowSlash(b.namespace, a.namespace)
  {
    FieldsAgreeIff(a.namespace, a.name, b.namespace, b.name);
    hide ContinuesBelowSlash, Less;
  }

  /** A reported route is the one that loses the tiebreak, with the same exception. */
  lemma ReportedLosesIff(ctx: Context, self: Object, other: Object)
    requires Reported(ctx, self, other)
    requires var a, b := CandidateOf(self).value.id, CandidateOf(other).value.id;
             '/' !in a.namespace && '/' !in b.namespace
    ensures var a, b := CandidateOf(self).value.id, CandidateOf(other).value.id;
            Less(FullName(b), FullName(a)) <==>
              !ContinuesBelowSlash(a.namespace, b.namespace) && !ContinuesBelowSlash(b.namespace, a.namespace)
  {
    hide CandidateOf, InConflict, SeparatedByAge, ContinuesBelowSlash, Less, FullName, SortsBefore;
    ReportOrderIsTiebreakIff(CandidateOf(other).value.id, CandidateOf(self).value.id);
  }

  /** A namespace extended by a dash is such a case. */
  lemma DashedNamespaceWins(ns: string, more: string, name: string, name': string)
    requires '/' !in ns && '/' !in more
    ensures var a, b := ObjectRef(HTTP_ROUTE, ns, name), ObjectRef(HTTP_ROUTE, ns + "-" + more, name');
            SortsBefore(a, b) && Less(FullName(b), FullName(a))
  {
    var a, b := ObjectRef(HTTP_ROUTE, ns, name), ObjectRef(HTTP_ROUTE, ns + "-" + more, name');
    assert b.namespace[|ns|] == '-' && ns < b.namespace;
    ReportOrderIsTiebreakIff(a, b);
    LessTrichotomy(FullName(a), FullName(b));
    PrefixIsLess(ns, b.namespace);
    assert FullName(a)[|ns|] == '/' && FullName(b)[|ns|] == '-';
  }

  lemma {:induction false} PrefixIsLess(a: string, b: string)
    requires a < b
    ensures Less(a, b)
  {
    if a != "" {
      PrefixIsLess(a[1..], b[1..]);
    }
  }
}
