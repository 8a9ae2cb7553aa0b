/** The conflicting-policies check: BackendTrafficPolicies that claim the same attachment slot
    (pkg/templates/conflictingpolicies/template.go). */
module ConflictingPolicies {
  import opened Manifests
  import opened Sorting
  import Counting
  import PolicyCoverage
  import Strings

  /** An attachment slot. The namespace is the policy's own; a missing section is the empty one. */
  datatype Target = Target(group: string, kind: string, namespace: string, name: string, section: string)

  /** One diagnostic: the slot, and the other policies that claim it. */
  datatype Report = Contested(target: Target, rivals: seq<string>)

  function SlotOf(namespace: string, ref: PolicyTargetRef): Target {
    Target(ref.group, ref.kind, namespace, ref.name, ref.sectionName.GetOr(""))
  }

  function SlotsOf(namespace: string, refs: seq<PolicyTargetRef>): seq<Target> {
    if refs == [] then []
    else
      var earlier, t := SlotsOf(namespace, refs[..|refs| - 1]), SlotOf(namespace, refs[|refs| - 1]);
      if t in earlier then earlier else earlier + [t]
  }

  /** The distinct slots an object claims; none when it is not a BackendTrafficPolicy. */
  function Slots(obj: Object): seq<Target> {
    if obj.BackendTrafficPolicy? then SlotsOf(obj.meta.namespace, PolicyCoverage.RefsOf(obj.policy)) else []
  }

  lemma {:induction false} SlotsAre(namespace: string, refs: seq<PolicyTargetRef>)
    ensures Distinct(SlotsOf(namespace, refs))
    ensures forall t :: t in SlotsOf(namespace, refs) <==> exists ref :: ref in refs && SlotOf(namespace, ref) == t
  {
    hide SlotOf;
    if refs != [] {
      var n := |refs| - 1;
      SlotsAre(namespace, refs[..n]);
      assert forall ref :: ref in refs <==> ref in refs[..n] || ref == refs[n];
    }
  }

  lemma SlotsStep(namespace: string, refs: seq<PolicyTargetRef>, i: nat)
    requires i < |refs|
    ensures var earlier, t := SlotsOf(namespace, refs[..i]), SlotOf(namespace, refs[i]);
            && (t in earlier ==> SlotsOf(namespace, refs[..i + 1]) == earlier)
            && (t !in earlier ==> SlotsOf(namespace, refs[..i + 1]) == earlier + [t])
  {
    assert refs[..i + 1][..i] == refs[..i];
  }

  lemma NoSlotsYet(namespace: string, refs: seq<PolicyTargetRef>)
    ensures SlotsOf(namespace, refs[..0]) == []
  {
  }

  predicate Claims(obj: Object, t: Target) {
    t in Slots(obj)
  }

  /** A policy claims a slot in its own namespace exactly when one of its references, old style or new, names it;
      and however often it does, it claims the slot once. */
  lemma ClaimsIff(obj: Object)
    ensures Distinct(Slots(obj))
    ensures forall t :: Claims(obj, t) <==>
                          obj.BackendTrafficPolicy? && t.namespace == obj.meta.namespace
                          && exists ref :: ref in PolicyCoverage.RefsOf(obj.policy) && Names(ref, t)
  {
    if obj.BackendTrafficPolicy? {
      SlotsAre(obj.meta.namespace, PolicyCoverage.RefsOf(obj.policy));
      hide SlotsOf, PolicyCoverage.RefsOf;
      forall t, ref
        ensures SlotOf(obj.meta.namespace, ref) == t <==> t.namespace == obj.meta.namespace && Names(ref, t)
      {
      }
    }
  }

  predicate Names(ref: PolicyTargetRef, t: Target) {
    && ref.group == t.group && ref.kind == t.kind && ref.name == t.name
    && (ref.sectionName == Some(t.section) || (ref.sectionName == None && t.section == ""))
  }

  method TargetsOf(obj: Object) returns (targets: seq<Target>)
    requires obj.BackendTrafficPolicy?
    ensures targets == Slots(obj)
  {
    var refs := if obj.policy.targetRef.Some? then [obj.policy.targetRef.value] else [];
    refs := refs + obj.policy.targetRefs;
    assert refs == PolicyCoverage.RefsOf(obj.policy);
    hide SlotsOf, SlotOf, PolicyCoverage.RefsOf;
    NoSlotsYet(obj.meta.namespace, refs);
    var seen: set<Target> := {};
    targets := [];
    for i := 0 to |refs|
      invariant targets == SlotsOf(obj.meta.namespace, refs[..i])
      invariant forall t :: t in seen <==> t in targets
    {
      var t := SlotOf(obj.meta.namespace, refs[i]);
      SlotsStep(obj.meta.namespace, refs, i);
      if t in seen {
        continue;
      }
      seen := seen + {t};
      targets := targets + [t];
    }
    assert refs[..|refs|] == refs;
  }

  /** The names of the policies other than `self` that claim a slot, in the order they were loaded. */
  function OthersAmong(objects: seq<Object>, self: nat, t: Target): seq<string> {
    if objects == [] then []
    else
      var n := |objects| - 1;
      OthersAmong(objects[..n], self, t) + if n != self && Claims(objects[n], t) then [objects[n].meta.name] else []
  }

  ghost function Rivals(ctx: Context, self: nat, t: Target): seq<string> {
    StringsAreOrdered();
    Ordered(multiset(OthersAmong(ctx, self, t)), Strings.Less)
  }

  method OtherPoliciesTargeting(ctx: Context, self: nat, t: Target) returns (names: seq<string>)
    ensures names == Rivals(ctx, self, t)
  {
    hide Slots, Strings.Less;
    names := [];
    for i := 0 to |ctx|
      invariant names == OthersAmong(ctx[..i], self, t)
    {
      assert ctx[..i + 1][..i] == ctx[..i];
      if !ctx[i].BackendTrafficPolicy? || i == self {
        NotAPolicy(ctx[i], t);
        continue;
      }
      var targets := TargetsOf(ctx[i]);
      for k := 0 to |targets|
        invariant t !in targets[..k]
        invariant names == OthersAmong(ctx[..i], self, t)
      {
        if targets[k] == t {
          names := names + [ctx[i].meta.name];
          break;
        }
      }
    }
    assert ctx[..|ctx|] == ctx;
    StringsAreOrdered();
    names := Sort(names, Strings.Less);
  }

  lemma NotAPolicy(obj: Object, t: Target)
    ensures !obj.BackendTrafficPolicy? ==> !Claims(obj, t)
  {
  }

  method IsFirstByName(name: string, rivals: seq<string>) returns (first: bool)
    ensures first <==> forall r :: r in rivals ==> !Strings.Less(r, name)
  {
    for i := 0 to |rivals|
      invariant forall k :: 0 <= k < i ==> !Strings.Less(rivals[k], name)
    {
      if Strings.Less(rivals[i], name) {
        assert rivals[i] in rivals;
        return false;
      }
    }
    return true;
  }

  /** The policy at `i` claims the slot, another does too, and no other claimant has a lesser name. */
  ghost predicate Speaks(ctx: Context, i: int, t: Target) {
    && 0 <= i < |ctx| && Claims(ctx[i], t)
    && (exists j :: IsRival(ctx, i, j, t))
    && forall j :: IsRival(ctx, i, j, t) ==> !Strings.Less(ctx[j].meta.name, ctx[i].meta.name)
  }

  ghost predicate IsRival(ctx: Context, i: int, j: int, t: Target) {
    0 <= j < |ctx| && j != i && Claims(ctx[j], t)
  }

  ghost function ReportsAmong(ctx: Context, self: nat, targets: seq<Target>): seq<Report>
    requires self < |ctx|
  {
    if targets == [] then []
    else
      var t := targets[|targets| - 1];
      ReportsAmong(ctx, self, targets[..|targets| - 1])
      + if Speaks(ctx, self, t) then [Contested(t, Rivals(ctx, self, t))] else []
  }

  ghost function Reports(ctx: Context, self: nat): seq<Report>
    requires self < |ctx|
  {
    ReportsAmong(ctx, self, Slots(ctx[self]))
  }

  method CheckFunc(ctx: Context, self: nat) returns (diagnostics: seq<Report>)
    requires self < |ctx|
    ensures diagnostics == Reports(ctx, self)
  {
    hide Slots, Strings.Less, Rivals, Speaks;
    if !ctx[self].BackendTrafficPolicy? {
      NoSlots(ctx[self]);
      return [];
    }
    diagnostics := [];
    var targets := TargetsOf(ctx[self]);
    for i := 0 to |targets|
      invariant diagnostics == ReportsAmong(ctx, self, targets[..i])
    {
      var t := targets[i];
      assert targets[..i + 1][..i] == targets[..i];
      SpeaksByNames(ctx, self, t);
      var rivals := OtherPoliciesTargeting(ctx, self, t);
      if |rivals| == 0 {
        continue;
      }
      var first := IsFirstByName(ctx[self].meta.name, rivals);
      if !first {
        continue;
      }
      diagnostics := diagnostics + [Contested(t, rivals)];
    }
    assert targets[..|targets|] == targets;
  }

  lemma NoSlots(obj: Object)
    ensures !obj.BackendTrafficPolicy? ==> Slots(obj) == []
  {
  }

  lemma {:induction false} OthersAre(objects: seq<Object>, self: nat, t: Target)
    ensures forall name :: name in OthersAmong(objects, self, t) <==>
                             exists j :: IsRival(objects, self, j, t) && objects[j].meta.name == name
  {
    hide Claims;
    if objects != [] {
      var n := |objects| - 1;
      OthersAre(objects[..n], self, t);
      forall j
        ensures IsRival(objects, self, j, t) <==>
                  IsRival(objects[..n], self, j, t) || (j == n && n != self && Claims(objects[n], t))
      {
      }
      hide IsRival;
      forall name | name in OthersAmong(objects, self, t)
        ensures exists j :: IsRival(objects, self, j, t) && objects[j].meta.name == name
      {
        if name in OthersAmong(objects[..n], self, t) {
          var j :| IsRival(objects[..n], self, j, t) && objects[..n][j].meta.name == name;
          RivalInRange(objects[..n], self, j, t);
          assert IsRival(objects, self, j, t);
        } else {
          assert IsRival(objects, self, n, t);
        }
      }
      forall name | exists j :: IsRival(objects, self, j, t) && objects[j].meta.name == name
        ensures name in OthersAmong(objects, self, t)
      {
        var j :| IsRival(objects, self, j, t) && objects[j].meta.name == name;
        if IsRival(objects[..n], self, j, t) {
          RivalInRange(objects[..n], self, j, t);
        }
      }
    }
  }

  lemma RivalInRange(ctx: Context, i: int, j: int, t: Target)
    ensures IsRival(ctx, i, j, t) ==> 0 <= j < |ctx| && j != i && Claims(ctx[j], t)
  {
  }

  lemma RivalsAreOthers(ctx: Context, self: nat, t: Target)
    ensures forall name :: name in Rivals(ctx, self, t) <==> name in OthersAmong(ctx, self, t)
    ensures |Rivals(ctx, self, t)| == |OthersAmong(ctx, self, t)|
  {
    hide OthersAmong, Strings.Less;
    var names, others := Rivals(ctx, self, t), OthersAmong(ctx, self, t);
    assert multiset(names) == multiset(others) by {
      StringsAreOrdered();
    }
    assert |multiset(names)| == |names| && |multiset(others)| == |others|;
    assert forall x :: x in names <==> x in multiset(names);
    assert forall x :: x in others <==> x in multiset(others);
  }

  /** What the loop decides on names is what holds of the other claimants. */
  lemma SpeaksByNames(ctx: Context, self: nat, t: Target)
    requires self < |ctx|
    ensures Claims(ctx[self], t) ==>
              (Speaks(ctx, self, t) <==>
                 Rivals(ctx, self, t) != [] && forall r :: r in Rivals(ctx, self, t) ==>
                     !Strings.Less(r, ctx[self].meta.name))
  {
    RivalsAreOthers(ctx, self, t);
    OthersAre(ctx, self, t);
    hide OthersAmong, Rivals, Claims, Strings.Less;
    var names := Rivals(ctx, self, t);
    assert names != [] ==> names[0] in names;
    forall j | IsRival(ctx, self, j, t)
      ensures ctx[j].meta.name in names
    {
    }
  }

  // What a report says

  /** A policy reports exactly the slots it speaks for, each once, naming every other claimant in order. */
  lemma ReportsAre(ctx: Context, self: nat)
    requires self < |ctx|
    ensures forall r :: r in Reports(ctx, self) <==>
              Speaks(ctx, self, r.target) && r.rivals == Rivals(ctx, self, r.target)
    ensures |Reports(ctx, self)| == |SlotsReported(ctx, self)|
  {
    hide Strings.Less, Rivals, IsRival;
    ClaimsIff(ctx[self]);
    hide Slots;
    ReportsAmongAre(ctx, self, Slots(ctx[self]));
    SlotsReportedAre(ctx, self);
    var slots := SlotsOfReports(Reports(ctx, self));
    hide Speaks;
    forall t | Speaks(ctx, self, t)
      ensures t in slots
    {
      assert Contested(t, Rivals(ctx, self, t)) in Reports(ctx, self);
      var k :| 0 <= k < |slots| && Reports(ctx, self)[k] == Contested(t, Rivals(ctx, self, t));
      assert slots[k] == t;
    }
    forall k | 0 <= k < |slots|
      ensures Speaks(ctx, self, slots[k])
    {
      assert Reports(ctx, self)[k] in Reports(ctx, self);
    }
    Counting.DistinctSize(slots, SlotsReported(ctx, self));
  }

  ghost function SlotsReported(ctx: Context, self: nat): set<Target>
    requires self < |ctx|
  {
    set t | t in Slots(ctx[self]) && Speaks(ctx, self, t)
  }

  lemma SlotsReportedAre(ctx: Context, self: nat)
    requires self < |ctx|
    ensures forall t :: t in SlotsReported(ctx, self) <==> Speaks(ctx, self, t)
  {
    hide Slots, IsRival;
  }

  function SlotsOfReports(reports: seq<Report>): (r: seq<Target>)
    ensures |r| == |reports| && forall i :: 0 <= i < |r| ==> r[i] == reports[i].target
  {
    seq(|reports|, i requires 0 <= i < |reports| => reports[i].target)
  }

  lemma {:induction false} ReportsAmongAre(ctx: Context, self: nat, targets: seq<Target>)
    requires self < |ctx| && Distinct(targets)
    ensures forall r :: r in ReportsAmong(ctx, self, targets) <==>
                          r.target in targets && Speaks(ctx, self, r.target) && r.rivals == Rivals(ctx, self, r.target)
    ensures Distinct(SlotsOfReports(ReportsAmong(ctx, self, targets)))
  {
    hide Speaks, Rivals;
    if targets != [] {
      var n := |targets| - 1;
      ReportsAmongAre(ctx, self, targets[..n]);
      assert forall t :: t in targets <==> t in targets[..n] || t == targets[n];
      var earlier := ReportsAmong(ctx, self, targets[..n]);
      assert forall i :: 0 <= i < |earlier| ==> earlier[i] in earlier;
    }
  }

  // A whole run

  ghost predicate IsContested(ctx: Context, t: Target) {
    exists i, j :: IsRival(ctx, -1, i, t) && IsRival(ctx, i, j, t)
  }

  /** The slots claimed by two policies or more. */
  ghost function ContestedSlots(ctx: Context): set<Target> {
    set i, t | 0 <= i < |ctx| && t in Slots(ctx[i]) && IsContested(ctx, t) :: t
  }

  lemma ContestedSlotsAre(ctx: Context)
    ensures forall t :: t in ContestedSlots(ctx) <==> IsContested(ctx, t)
  {
    hide Slots;
    forall t | IsContested(ctx, t)
      ensures t in ContestedSlots(ctx)
    {
      var i, j :| IsRival(ctx, -1, i, t) && IsRival(ctx, i, j, t);
      assert t in Slots(ctx[i]);
    }
  }

  ghost function Rows(ctx: Context): (rows: seq<set<Target>>)
    ensures |rows| == |ctx| && forall i :: 0 <= i < |ctx| ==> rows[i] == SlotsReported(ctx, i)
  {
    seq(|ctx|, i requires 0 <= i < |ctx| => SlotsReported(ctx, i))
  }

  /** Two claimants carry the same name, and no claimant a lesser one. */
  ghost predicate LeastNameShared(ctx: Context, t: Target) {
    exists i, j :: IsRival(ctx, -1, i, t) && IsRival(ctx, i, j, t) && ctx[i].meta.name == ctx[j].meta.name
                   && forall k :: IsRival(ctx, -1, k, t) ==> !Strings.Less(ctx[k].meta.name, ctx[i].meta.name)
  }

  lemma TwoSpokesmenIff(ctx: Context, t: Target)
    ensures LeastNameShared(ctx, t) <==> exists i, j :: i != j && Speaks(ctx, i, t) && Speaks(ctx, j, t)
  {
    hide Claims, Strings.Less;
    StringsAreOrdered();
    if LeastNameShared(ctx, t) {
      var i, j :| IsRival(ctx, -1, i, t) && IsRival(ctx, i, j, t) && ctx[i].meta.name == ctx[j].meta.name
                  && forall k :: IsRival(ctx, -1, k, t) ==> !Strings.Less(ctx[k].meta.name, ctx[i].meta.name);
      assert IsRival(ctx, j, i, t);
      assert forall m, k :: IsRival(ctx, m, k, t) ==> IsRival(ctx, -1, k, t);
      assert Speaks(ctx, i, t) && Speaks(ctx, j, t);
    }
    if i, j :| i != j && Speaks(ctx, i, t) && Speaks(ctx, j, t) {
      assert IsRival(ctx, i, j, t) && IsRival(ctx, j, i, t) && IsRival(ctx, -1, i, t);
      assert OrderLaws(Strings.Less, ctx[i].meta.name, ctx[j].meta.name, ctx[i].meta.name);
      forall k | IsRival(ctx, -1, k, t)
        ensures !Strings.Less(ctx[k].meta.name, ctx[i].meta.name)
      {
        assert k == i || IsRival(ctx, i, k, t);
      }
    }
  }

  /** Of some claimants of a slot, one has a name no other's is less than. */
  lemma {:induction false} LeastClaimant(ctx: Context, t: Target, n: nat) returns (i: int)
    requires n <= |ctx|
    ensures i == -1 ==> forall j :: IsRival(ctx, -1, j, t) ==> j >= n
    ensures i != -1 ==> IsRival(ctx, -1, i, t)
    ensures i != -1 ==> forall j :: IsRival(ctx, -1, j, t) && j < n ==>
              !Strings.Less(ctx[j].meta.name, ctx[i].meta.name)
  {
    hide Claims, Strings.Less;
    StringsAreOrdered();
    if n == 0 {
      i := -1;
    } else {
      i := LeastClaimant(ctx, t, n - 1);
      var name := ctx[n - 1].meta.name;
      assert OrderLaws(Strings.Less, name, name, name);
      if IsRival(ctx, -1, n - 1, t) && (i == -1 || Strings.Less(name, ctx[i].meta.name)) {
        LessThanLeast(ctx, t, n, i);
        i := n - 1;
      }
    }
  }

  lemma LessThanLeast(ctx: Context, t: Target, n: nat, i: int)
    requires 0 < n <= |ctx| && (i == -1 || 0 <= i < |ctx|)
    requires i == -1 ==> forall j :: IsRival(ctx, -1, j, t) ==> j >= n - 1
    requires i != -1 ==> Strings.Less(ctx[n - 1].meta.name, ctx[i].meta.name)
    requires i != -1 ==> forall j :: IsRival(ctx, -1, j, t) && j < n - 1 ==>
              !Strings.Less(ctx[j].meta.name, ctx[i].meta.name)
    ensures forall j :: IsRival(ctx, -1, j, t) && j < n ==> !Strings.Less(ctx[j].meta.name, ctx[n - 1].meta.name)
  {
    hide Claims, Strings.Less;
    StringsAreOrdered();
    forall j | IsRival(ctx, -1, j, t) && j < n
      ensures !Strings.Less(ctx[j].meta.name, ctx[n - 1].meta.name)
    {
      assert OrderLaws(Strings.Less, ctx[j].meta.name, ctx[n - 1].meta.name, ctx[n - 1].meta.name);
      if i != -1 {
        assert OrderLaws(Strings.Less, ctx[j].meta.name, ctx[n - 1].meta.name, ctx[i].meta.name);
      }
    }
  }

  /** Every contested slot has a spokesman, and only contested slots have one. */
  lemma ContestedIffSpokenFor(ctx: Context, t: Target)
    ensures IsContested(ctx, t) <==> exists i :: Speaks(ctx, i, t)
  {
    hide Claims, Strings.Less;
    if IsContested(ctx, t) {
      var a, b :| IsRival(ctx, -1, a, t) && IsRival(ctx, a, b, t);
      var i := LeastClaimant(ctx, t, |ctx|);
      assert IsRival(ctx, -1, i, t);
      assert IsRival(ctx, i, a, t) || IsRival(ctx, i, b, t);
      forall j | IsRival(ctx, i, j, t)
        ensures !Strings.Less(ctx[j].meta.name, ctx[i].meta.name)
      {
        assert IsRival(ctx, -1, j, t);
      }
      assert Speaks(ctx, i, t);
    }
    if i :| Speaks(ctx, i, t) {
      var j :| IsRival(ctx, i, j, t);
      assert IsRival(ctx, -1, i, t);
    }
  }

  /** Over a whole run there are at least as many diagnostics as contested slots, and exactly as many if and only if
      no slot's least name is carried by two claimants. */
  lemma DiagnosticsVersusSlots(ctx: Context)
    ensures Counting.Total(Rows(ctx)) >= |ContestedSlots(ctx)|
    ensures Counting.Total(Rows(ctx)) == |ContestedSlots(ctx)| <==> forall t :: !LeastNameShared(ctx, t)
  {
    hide Speaks, IsContested, IsRival, LeastNameShared;
    var cells := Counting.Cells(Rows(ctx));
    Counting.TotalCountsCells(Rows(ctx));
    CellsAreSpokesmen(ctx);
    ContestedSlotsAre(ctx);
    hide Rows, ContestedSlots;
    var slotOf := map c | c in cells :: c.1;
    forall t | t in ContestedSlots(ctx)
      ensures t in slotOf.Values
    {
      ContestedIffSpokenFor(ctx, t);
      var i :| Speaks(ctx, i, t);
      assert (i, t) in slotOf && slotOf[(i, t)] == t;
    }
    forall c | c in slotOf
      ensures slotOf[c] in ContestedSlots(ctx)
    {
      assert Speaks(ctx, c.0, c.1);
      ContestedIffSpokenFor(ctx, c.1);
    }
    assert slotOf.Values == ContestedSlots(ctx);
    assert slotOf.Keys == cells;
    Counting.ImageSize(slotOf);
    InjectiveIffOneSpokesman(ctx, slotOf);
  }

  lemma InjectiveIffOneSpokesman(ctx: Context, slotOf: map<(int, Target), Target>)
    requires forall i, t :: (i, t) in slotOf <==> Speaks(ctx, i, t)
    requires forall c :: c in slotOf ==> slotOf[c] == c.1
    ensures Counting.Injective(slotOf) <==> forall t :: !LeastNameShared(ctx, t)
  {
    hide Speaks, LeastNameShared;
    forall t
      ensures LeastNameShared(ctx, t) <==> exists i, j :: i != j && Speaks(ctx, i, t) && Speaks(ctx, j, t)
    {
      TwoSpokesmenIff(ctx, t);
    }
    if Counting.Injective(slotOf) {
      forall t, i, j
        ensures Speaks(ctx, i, t) && Speaks(ctx, j, t) ==> i == j
      {
        var c, d := (i, t), (j, t);
        assert c in slotOf && d in slotOf ==> c == d;
      }
    } else {
      var c, d :| c in slotOf && d in slotOf && slotOf[c] == slotOf[d] && c != d;
      assert Speaks(ctx, c.0, c.1) && Speaks(ctx, d.0, c.1) && c.0 != d.0;
      assert LeastNameShared(ctx, c.1);
    }
  }

  lemma CellsAreSpokesmen(ctx: Context)
    ensures forall i, t :: (i, t) in Counting.Cells(Rows(ctx)) <==> Speaks(ctx, i, t)
  {
    hide SlotsReported;
    Counting.CellsAre(Rows(ctx));
    forall i, t
      ensures (i, t) in Counting.Cells(Rows(ctx)) <==> Speaks(ctx, i, t)
    {
      if 0 <= i < |ctx| {
        SlotsReportedAre(ctx, i);
      }
    }
  }

  /** No two policies of one namespace have the same name. */
  ghost predicate UniqueNames(ctx: Context) {
    forall i, j :: (0 <= i < j < |ctx| && ctx[i].BackendTrafficPolicy? && ctx[j].BackendTrafficPolicy?
                    && ctx[i].meta.namespace == ctx[j].meta.namespace) ==> ctx[i].meta.name != ctx[j].meta.name
  }

  lemma OneSpokesman(ctx: Context, t: Target, i: int, j: int)
    requires UniqueNames(ctx) && Speaks(ctx, i, t) && Speaks(ctx, j, t)
    ensures i == j
  {
    ClaimsIff(ctx[i]);
    ClaimsIff(ctx[j]);
    hide Claims, Strings.Less;
    assert i != j ==> IsRival(ctx, i, j, t) && IsRival(ctx, j, i, t);
    StringsAreOrdered();
    assert OrderLaws(Strings.Less, ctx[i].meta.name, ctx[j].meta.name, ctx[i].meta.name);
  }

  /** With names unique in every namespace, a run has one diagnostic for every slot claimed by two policies or more. */
  lemma OneDiagnosticPerContestedSlot(ctx: Context)
    requires UniqueNames(ctx)
    ensures Counting.Total(Rows(ctx)) == |ContestedSlots(ctx)|
  {
    hide Speaks, Rows, ContestedSlots, UniqueNames, LeastNameShared;
    DiagnosticsVersusSlots(ctx);
    forall t
      ensures !LeastNameShared(ctx, t)
    {
      TwoSpokesmenIff(ctx, t);
      if i, j :| i != j && Speaks(ctx, i, t) && Speaks(ctx, j, t) {
        OneSpokesman(ctx, t, i, j);
      }
    }
  }
}
