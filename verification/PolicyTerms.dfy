/** Which policies conflicting-policies reports, for which slots and against whom, in terms of their references and
    names (pkg/templates/conflictingpolicies/template.go). */
module PolicyTerms {
  import opened Manifests
  import opened Sorting
  import opened ConflictingPolicies
  import opened CoverageTerms
  import PolicyCoverage
  import Strings

  /** One of the policy's references names the slot, in the policy's own namespace; no section is the empty one. */
  ghost predicate Fills(obj: Object, t: Target) {
    && obj.BackendTrafficPolicy? && t.namespace == obj.meta.namespace
    && exists ref :: && Targets(obj.policy, ref) && ref.group == t.group && ref.kind == t.kind && ref.name == t.name
                     && (ref.sectionName == Some(t.section) || (ref.sectionName.None? && t.section == ""))
  }

  ghost predicate IsOther(ctx: Context, self: int, j: int, t: Target) {
    0 <= j < |ctx| && j != self && Fills(ctx[j], t)
  }

  ghost function OthersNamed(ctx: Context, self: int, t: Target, name: string): set<int> {
    set j | 0 <= j < |ctx| && IsOther(ctx, self, j, t) && ctx[j].meta.name == name
  }

  /** The name of every other claimant, as often as there are such, in ascending order. */
  ghost predicate AreOthers(names: seq<string>, ctx: Context, self: int, t: Target) {
    && (forall name :: multiset(names)[name] == |OthersNamed(ctx, self, t, name)|)
    && forall i, j :: 0 <= i < j < |names| ==> !Strings.ComesBefore(names[j], names[i])
  }

  lemma ClaimIff(obj: Object, t: Target)
    ensures Claims(obj, t) <==> Fills(obj, t)
  {
    ClaimsIff(obj);
    if obj.BackendTrafficPolicy? {
      RefsAreTargets(obj.policy);
    }
    hide Claims, PolicyCoverage.RefsOf, Targets;
  }

  lemma RivalIff(ctx: Context, self: int, j: int, t: Target)
    ensures IsRival(ctx, self, j, t) <==> IsOther(ctx, self, j, t)
  {
    if 0 <= j < |ctx| {
      ClaimIff(ctx[j], t);
    }
    hide Claims, Fills;
  }

  lemma OthersNamedStep(objects: seq<Object>, self: nat, t: Target, name: string, n: nat)
    requires n + 1 == |objects|
    ensures |OthersNamed(objects, self, t, name)|
         == |OthersNamed(objects[..n], self, t, name)|
            + if n != self && Fills(objects[n], t) && objects[n].meta.name == name then 1 else 0
  {
    hide Fills;
    var init := objects[..n];
    assert OthersNamed(objects, self, t, name)
        == OthersNamed(init, self, t, name)
           + if n != self && Fills(objects[n], t) && objects[n].meta.name == name then {n} else {};
  }

  lemma OthersStep(objects: seq<Object>, self: nat, t: Target, n: nat)
    requires n + 1 == |objects|
    ensures OthersAmong(objects, self, t)
         == OthersAmong(objects[..n], self, t)
            + if n != self && Fills(objects[n], t) then [objects[n].meta.name] else []
  {
    ClaimIff(objects[n], t);
    hide Claims, Fills;
  }

  lemma {:induction false} OthersCounted(objects: seq<Object>, self: nat, t: Target, name: string)
    ensures multiset(OthersAmong(objects, self, t))[name] == |OthersNamed(objects, self, t, name)|
  {
    if objects == [] {
      assert OthersNamed([], self, t, name) == {};
    } else {
      var n := |objects| - 1;
      OthersCounted(objects[..n], self, t, name);
      OthersNamedStep(objects, self, t, name, n);
      OthersStep(objects, self, t, n);
      hide OthersAmong, OthersNamed, Fills;
    }
  }

  lemma RivalsAreOthersNamed(ctx: Context, self: nat, t: Target, names: seq<string>)
    ensures names == Rivals(ctx, self, t) <==> AreOthers(names, ctx, self, t)
  {
    var others, rivals := OthersAmong(ctx, self, t), Rivals(ctx, self, t);
    StringsAreOrdered();
    assert multiset(rivals) == multiset(others) && Ascending(rivals, Strings.Less);
    hide OthersAmong, Rivals, OthersNamed;
    forall name
      ensures multiset(others)[name] == |OthersNamed(ctx, self, t, name)|
    {
      OthersCounted(ctx, self, t, name);
    }
    AscendingIff(rivals);
    AscendingIff(names);
    hide Strings.Less, Strings.ComesBefore;
    if AreOthers(names, ctx, self, t) {
      SameCounts(names, rivals);
      AscendingUnique(names, rivals, Strings.Less);
    }
  }

  lemma SameCounts(a: seq<string>, b: seq<string>)
    requires forall x :: multiset(a)[x] == multiset(b)[x]
    ensures multiset(a) == multiset(b)
  {
  }

  lemma AscendingIff(names: seq<string>)
    ensures Ascending(names, Strings.Less) <==>
              forall i, j :: 0 <= i < j < |names| ==> !Strings.ComesBefore(names[j], names[i])
  {
    forall i, j | 0 <= i < j < |names|
      ensures Strings.Less(names[j], names[i]) <==> Strings.ComesBefore(names[j], names[i])
    {
      Strings.LessIff(names[j], names[i]);
    }
    hide Strings.Less, Strings.ComesBefore;
  }

  /** A policy reports a slot if and only if it and another fill it, and none of the others has an earlier name; the
      report names them all. */
  lemma ReportTermsIff(ctx: Context, self: nat, r: Report)
    requires self < |ctx|
    ensures r in Reports(ctx, self) <==>
              && Fills(ctx[self], r.target)
              && (exists j :: IsOther(ctx, self, j, r.target))
              && (forall j :: IsOther(ctx, self, j, r.target) ==>
                                !Strings.ComesBefore(ctx[j].meta.name, ctx[self].meta.name))
              && AreOthers(r.rivals, ctx, self, r.target)
  {
    var t := r.target;
    ReportsAre(ctx, self);
    RivalsAreOthersNamed(ctx, self, t, r.rivals);
    ClaimIff(ctx[self], t);
    forall j
      ensures IsRival(ctx, self, j, t) <==> IsOther(ctx, self, j, t)
    {
      RivalIff(ctx, self, j, t);
    }
    forall j | 0 <= j < |ctx|
      ensures Strings.Less(ctx[j].meta.name, ctx[self].meta.name) <==>
                Strings.ComesBefore(ctx[j].meta.name, ctx[self].meta.name)
    {
      Strings.LessIff(ctx[j].meta.name, ctx[self].meta.name);
    }
    hide Reports, Rivals, AreOthers, Claims, Fills, Strings.Less, Strings.ComesBefore;
  }

  /** Two policies contest a slot if and only if both fill it. */
  lemma ContestedIff(ctx: Context, t: Target)
    ensures IsContested(ctx, t) <==>
              exists i, j :: && 0 <= i < |ctx| && 0 <= j < |ctx| && i != j && Fills(ctx[i], t) && Fills(ctx[j], t)
  {
    forall i, j
      ensures IsRival(ctx, i, j, t) <==> IsOther(ctx, i, j, t)
    {
      RivalIff(ctx, i, j, t);
    }
    hide IsRival, Fills;
    if i, j :| IsRival(ctx, -1, i, t) && IsRival(ctx, i, j, t) {
      assert IsOther(ctx, -1, i, t) && IsOther(ctx, i, j, t);
    }
    if i, j :| 0 <= i < |ctx| && 0 <= j < |ctx| && i != j && Fills(ctx[i], t) && Fills(ctx[j], t) {
      assert IsOther(ctx, -1, i, t) && IsOther(ctx, i, j, t);
    }
  }
}
