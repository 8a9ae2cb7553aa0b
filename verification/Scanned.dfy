/** What a run says it looked at (pkg/command/lint/scanned.go), and the merging of contexts before it (merge.go). */
module Scanned {
  import opened Manifests
  import opened Sorting
  import Strings

  datatype GroupVersionKind = GroupVersionKind(group: string, version: string, kind: string)

  datatype LintObject = LintObject(filePath: string, gvk: GroupVersionKind)

  datatype InvalidObject = InvalidObject(filePath: string)

  datatype LintContext = LintContext(objects: seq<LintObject>, invalidObjects: seq<InvalidObject>)

  /** An enabled check: the kinds its scope names, and the matcher kube-linter built from them. */
  datatype Check = Check(objectKinds: seq<string>, matches: GroupVersionKind -> bool)

  datatype ScanSummary = ScanSummary(
    objects: nat, files: nat, checked: nat, checkedByKind: map<string, nat>, looksFor: seq<string>, unparsed: nat)

  // Merging contexts

  class MergedLintContext {
    var objects: seq<LintObject>
    var invalidObjects: seq<InvalidObject>

    constructor ()
      ensures objects == [] && invalidObjects == []
    {
      objects := [];
      invalidObjects := [];
    }

    function Contents(): LintContext
      reads this
    {
      LintContext(objects, invalidObjects)
    }
  }

  function Merged(contexts: seq<LintContext>): LintContext {
    if contexts == [] then LintContext([], [])
    else
      var earlier, last := Merged(contexts[..|contexts| - 1]), contexts[|contexts| - 1];
      LintContext(earlier.objects + last.objects, earlier.invalidObjects + last.invalidObjects)
  }

  method MergeContexts(contexts: seq<LintContext>) returns (merged: MergedLintContext)
    ensures fresh(merged) && merged.Contents() == Merged(contexts)
  {
    merged := new MergedLintContext();
    for i := 0 to |contexts|
      invariant fresh(merged) && merged.Contents() == Merged(contexts[..i])
    {
      assert contexts[..i + 1][..i] == contexts[..i];
      merged.objects := merged.objects + contexts[i].objects;
      merged.invalidObjects := merged.invalidObjects + contexts[i].invalidObjects;
    }
    assert contexts[..|contexts|] == contexts;
  }

  // Counting

  /** What has been counted: `kinds` has the kind of every object some check applies to, as often as there are such
      objects. */
  datatype Tally = Tally(objects: nat, unparsed: nat, checked: nat, kinds: multiset<string>, files: set<string>)

  const NOTHING := Tally(0, 0, 0, multiset{}, {})

  function Add(a: Tally, b: Tally): Tally {
    Tally(a.objects + b.objects, a.unparsed + b.unparsed, a.checked + b.checked, a.kinds + b.kinds, a.files + b.files)
  }

  ghost predicate IsChecked(obj: LintObject, checks: seq<Check>) {
    exists k :: 0 <= k < |checks| && checks[k].matches(obj.gvk)
  }

  function PathOf(path: string): set<string> {
    if path == "" then {} else {path}
  }

  ghost function ObjectTally(obj: LintObject, checks: seq<Check>): Tally {
    if IsChecked(obj, checks) then Tally(1, 0, 1, multiset{obj.gvk.kind}, PathOf(obj.filePath))
    else Tally(1, 0, 0, multiset{}, PathOf(obj.filePath))
  }

  ghost function ObjectsTally(objects: seq<LintObject>, checks: seq<Check>): Tally {
    if objects == [] then NOTHING
    else Add(ObjectsTally(objects[..|objects| - 1], checks), ObjectTally(objects[|objects| - 1], checks))
  }

  ghost function InvalidTally(objects: seq<InvalidObject>): Tally {
    if objects == [] then NOTHING
    else
      Add(InvalidTally(objects[..|objects| - 1]), Tally(0, 1, 0, multiset{}, PathOf(objects[|objects| - 1].filePath)))
  }

  ghost function TallyOf(contexts: seq<LintContext>, checks: seq<Check>): Tally {
    if contexts == [] then NOTHING
    else
      var last := contexts[|contexts| - 1];
      Add(Add(TallyOf(contexts[..|contexts| - 1], checks), ObjectsTally(last.objects, checks)),
          InvalidTally(last.invalidObjects))
  }

  ghost function CountsOf(kinds: multiset<string>): (counts: map<string, nat>)
    ensures forall k :: k in counts <==> k in kinds
    ensures forall k :: k in counts ==> counts[k] == kinds[k]
  {
    map k | k in kinds :: kinds[k]
  }

  function ScopeKinds(checks: seq<Check>): set<string> {
    set i, j | 0 <= i < |checks| && 0 <= j < |checks[i].objectKinds| :: checks[i].objectKinds[j]
  }

  ghost function LooksFor(checks: seq<Check>): seq<string> {
    StringsAreOrdered();
    Ordered(multiset(ScopeKinds(checks)), Strings.Less)
  }

  ghost function Summary(contexts: seq<LintContext>, checks: seq<Check>): ScanSummary {
    var t := TallyOf(contexts, checks);
    ScanSummary(t.objects, |t.files|, t.checked, CountsOf(t.kinds), LooksFor(checks), t.unparsed)
  }

  method CollectScopeKinds(checks: seq<Check>) returns (kinds: set<string>)
    ensures kinds == ScopeKinds(checks)
  {
    kinds := {};
    for i := 0 to |checks|
      invariant kinds == set a, b | 0 <= a < i && 0 <= b < |checks[a].objectKinds| :: checks[a].objectKinds[b]
    {
      for j := 0 to |checks[i].objectKinds|
        invariant kinds == set a, b | 0 <= a <= i
                  && 0 <= b < (if a < i then |checks[a].objectKinds| else j) :: checks[a].objectKinds[b]
      {
        kinds := kinds + {checks[i].objectKinds[j]};
      }
    }
  }

  method SomeCheckMatches(obj: LintObject, checks: seq<Check>) returns (matched: bool)
    ensures matched <==> IsChecked(obj, checks)
  {
    for k := 0 to |checks|
      invariant forall j :: 0 <= j < k ==> !checks[j].matches(obj.gvk)
    {
      if checks[k].matches(obj.gvk) {
        return true;
      }
    }
    return false;
  }

  /** The running summary and the set of files seen hold exactly this tally. */
  ghost predicate Holds(s: ScanSummary, files: set<string>, t: Tally) {
    && s.objects == t.objects && s.unparsed == t.unparsed && s.checked == t.checked
    && s.checkedByKind == CountsOf(t.kinds) && files == t.files
  }

  function Counted(counts: map<string, nat>, kind: string): map<string, nat> {
    counts[kind := (if kind in counts then counts[kind] else 0) + 1]
  }

  lemma CountsOfMore(kinds: multiset<string>, kind: string)
    ensures CountsOf(kinds + multiset{kind}) == Counted(CountsOf(kinds), kind)
    ensures kinds + multiset{} == kinds
  {
    assert forall k :: k in kinds + multiset{kind} <==> k in kinds || k == kind;
    hide CountsOf;
  }

  lemma ObjectHeld(s: ScanSummary, files: set<string>, t: Tally, obj: LintObject, checks: seq<Check>)
    requires Holds(s, files, t)
    ensures var more, seen := Add(t, ObjectTally(obj, checks)), files + PathOf(obj.filePath);
            if IsChecked(obj, checks) then
              Holds(s.(objects := s.objects + 1, checked := s.checked + 1,
                       checkedByKind := Counted(s.checkedByKind, obj.gvk.kind)), seen, more)
            else Holds(s.(objects := s.objects + 1), seen, more)
  {
    hide IsChecked, CountsOf, Counted, PathOf;
    CountsOfMore(t.kinds, obj.gvk.kind);
  }

  lemma PathAdds(files: set<string>, path: string)
    ensures files + PathOf(path) == if path == "" then files else files + {path}
  {
  }

  method CountObject(s: ScanSummary, files: set<string>, obj: LintObject, checks: seq<Check>, ghost t: Tally)
    returns (s': ScanSummary, files': set<string>)
    requires Holds(s, files, t)
    ensures Holds(s', files', Add(t, ObjectTally(obj, checks))) && s'.looksFor == s.looksFor
  {
    ObjectHeld(s, files, t, obj, checks);
    PathAdds(files, obj.filePath);
    hide Holds, IsChecked, ObjectTally, Add, PathOf;
    s', files' := s.(objects := s.objects + 1), files;
    if obj.filePath != "" {
      files' := files' + {obj.filePath};
    }
    var matched := SomeCheckMatches(obj, checks);
    if matched {
      var kind := obj.gvk.kind;
      s' := s'.(checked := s.checked + 1, checkedByKind := Counted(s.checkedByKind, kind));
    }
  }

  lemma HeldIsSummary(s: ScanSummary, files: set<string>, contexts: seq<LintContext>, checks: seq<Check>)
    requires Holds(s, files, TallyOf(contexts, checks)) && s.looksFor == LooksFor(checks)
    ensures s.(files := |files|) == Summary(contexts, checks)
  {
    hide TallyOf, LooksFor, CountsOf;
  }

  method Summarize(contexts: seq<LintContext>, checks: seq<Check>) returns (s: ScanSummary)
    ensures s == Summary(contexts, checks)
  {
    hide *;
    var kinds := CollectScopeKinds(checks);
    StringsAreOrdered();
    var looksFor := SortKeys(kinds, Strings.Less);
    s := ScanSummary(0, 0, 0, map[], looksFor, 0);
    var files: set<string> := {};
    NothingTallied(contexts, checks, s);
    LooksForIs(checks);
    ghost var t := NOTHING;
    for i := 0 to |contexts|
      invariant t == TallyOf(contexts[..i], checks)
      invariant Holds(s, files, t) && s.looksFor == looksFor
    {
      var ctx := contexts[i];
      ghost var before := t;
      NothingAdded(before, ctx, checks);
      for j := 0 to |ctx.objects|
        invariant t == Add(before, ObjectsTally(ctx.objects[..j], checks))
        invariant Holds(s, files, t) && s.looksFor == looksFor
      {
        s, files := CountObject(s, files, ctx.objects[j], checks, t);
        ObjectsStep(before, ctx.objects, j, checks);
        t := Add(t, ObjectTally(ctx.objects[j], checks));
      }
      assert ctx.objects[..|ctx.objects|] == ctx.objects;
      ghost var between := t;
      NothingAdded(between, ctx, checks);
      for j := 0 to |ctx.invalidObjects|
        invariant t == Add(between, InvalidTally(ctx.invalidObjects[..j]))
        invariant Holds(s, files, t) && s.looksFor == looksFor
      {
        var path := ctx.invalidObjects[j].filePath;
        InvalidStep(between, ctx.invalidObjects, j);
        UnparsedHeld(s, files, t, path);
        PathAdds(files, path);
        t := Add(t, Tally(0, 1, 0, multiset{}, PathOf(path)));
        s := s.(unparsed := s.unparsed + 1);
        if path != "" {
          files := files + {path};
        }
      }
      assert ctx.invalidObjects[..|ctx.invalidObjects|] == ctx.invalidObjects;
      ContextsStep(contexts, i, checks);
    }
    assert contexts[..|contexts|] == contexts;
    HeldIsSummary(s, files, contexts, checks);
    s := s.(files := |files|);
  }

  lemma LooksForIs(checks: seq<Check>)
    ensures StrictTotalOrder(Strings.Less) && LooksFor(checks) == Ordered(multiset(ScopeKinds(checks)), Strings.Less)
  {
    StringsAreOrdered();
  }

  lemma NothingTallied(contexts: seq<LintContext>, checks: seq<Check>, s: ScanSummary)
    ensures TallyOf(contexts[..0], checks) == NOTHING
    ensures s == ScanSummary(0, 0, 0, map[], s.looksFor, 0) ==> Holds(s, {}, NOTHING)
  {
  }

  lemma AddNothing(t: Tally)
    ensures Add(t, NOTHING) == t && Add(NOTHING, t) == t
  {
  }

  lemma AddAssociates(a: Tally, b: Tally, c: Tally)
    ensures Add(Add(a, b), c) == Add(a, Add(b, c))
  {
  }

  lemma NothingAdded(t: Tally, ctx: LintContext, checks: seq<Check>)
    ensures Add(t, ObjectsTally(ctx.objects[..0], checks)) == t
    ensures Add(t, InvalidTally(ctx.invalidObjects[..0])) == t
  {
    AddNothing(t);
  }

  lemma ObjectsStep(t: Tally, objects: seq<LintObject>, j: nat, checks: seq<Check>)
    requires j < |objects|
    ensures Add(t, ObjectsTally(objects[..j + 1], checks))
         == Add(Add(t, ObjectsTally(objects[..j], checks)), ObjectTally(objects[j], checks))
  {
    hide Add, ObjectTally;
    assert objects[..j + 1][..j] == objects[..j];
    AddAssociates(t, ObjectsTally(objects[..j], checks), ObjectTally(objects[j], checks));
  }

  lemma InvalidStep(t: Tally, objects: seq<InvalidObject>, j: nat)
    requires j < |objects|
    ensures Add(t, InvalidTally(objects[..j + 1]))
         == Add(Add(t, InvalidTally(objects[..j])), Tally(0, 1, 0, multiset{}, PathOf(objects[j].filePath)))
  {
    hide Add, PathOf;
    assert objects[..j + 1][..j] == objects[..j];
    AddAssociates(t, InvalidTally(objects[..j]), Tally(0, 1, 0, multiset{}, PathOf(objects[j].filePath)));
  }

  lemma ContextsStep(contexts: seq<LintContext>, i: nat, checks: seq<Check>)
    requires i < |contexts|
    ensures TallyOf(contexts[..i + 1], checks)
         == Add(Add(TallyOf(contexts[..i], checks), ObjectsTally(contexts[i].objects, checks)),
                InvalidTally(contexts[i].invalidObjects))
  {
    hide Add, ObjectsTally, InvalidTally;
    assert contexts[..i + 1][..i] == contexts[..i];
  }

  lemma UnparsedHeld(s: ScanSummary, files: set<string>, t: Tally, path: string)
    requires Holds(s, files, t)
    ensures var more := Add(t, Tally(0, 1, 0, multiset{}, PathOf(path)));
            Holds(s.(unparsed := s.unparsed + 1), files + PathOf(path), more)
  {
    assert t.kinds + multiset{} == t.kinds;
  }

  // What the counts are of

  ghost function CheckedPositions(objects: seq<LintObject>, checks: seq<Check>): set<int> {
    set i | 0 <= i < |objects| && IsChecked(objects[i], checks)
  }

  ghost function PositionsOfKind(objects: seq<LintObject>, checks: seq<Check>, kind: string): set<int> {
    set i | 0 <= i < |objects| && IsChecked(objects[i], checks) && objects[i].gvk.kind == kind
  }

  ghost predicate NamesFile(ctx: LintContext, path: string) {
    && path != ""
    && ((exists obj :: obj in ctx.objects && obj.filePath == path)
        || exists obj :: obj in ctx.invalidObjects && obj.filePath == path)
  }

  lemma CheckedStep(objects: seq<LintObject>, checks: seq<Check>)
    requires objects != []
    ensures var n := |objects| - 1;
            |CheckedPositions(objects, checks)|
            == |CheckedPositions(objects[..n], checks)| + if IsChecked(objects[n], checks) then 1 else 0
  {
    hide IsChecked;
    var n := |objects| - 1;
    var checked := CheckedPositions(objects[..n], checks);
    assert n !in checked;
    assert CheckedPositions(objects, checks) == if IsChecked(objects[n], checks) then checked + {n} else checked;
  }

  lemma KindStep(objects: seq<LintObject>, checks: seq<Check>, kind: string)
    requires objects != []
    ensures var n := |objects| - 1;
            |PositionsOfKind(objects, checks, kind)|
            == |PositionsOfKind(objects[..n], checks, kind)|
               + if IsChecked(objects[n], checks) && objects[n].gvk.kind == kind then 1 else 0
  {
    hide IsChecked;
    var n := |objects| - 1;
    var ofKind := PositionsOfKind(objects[..n], checks, kind);
    assert n !in ofKind;
    assert PositionsOfKind(objects, checks, kind)
        == if IsChecked(objects[n], checks) && objects[n].gvk.kind == kind then ofKind + {n} else ofKind;
  }

  lemma {:induction false} ObjectsTallied(objects: seq<LintObject>, checks: seq<Check>, kind: string)
    ensures var t := ObjectsTally(objects, checks);
            && t.objects == |objects| && t.unparsed == 0
            && t.checked == |CheckedPositions(objects, checks)|
            && t.kinds[kind] == |PositionsOfKind(objects, checks, kind)|
  {
    hide IsChecked, PathOf;
    if objects != [] {
      ObjectsTallied(objects[..|objects| - 1], checks, kind);
      CheckedStep(objects, checks);
      KindStep(objects, checks, kind);
      hide CheckedPositions, PositionsOfKind;
    }
  }

  lemma FilesStep(objects: seq<LintObject>, checks: seq<Check>)
    requires objects != []
    ensures var n := |objects| - 1;
            ObjectsTally(objects, checks).files
                == ObjectsTally(objects[..n], checks).files + PathOf(objects[n].filePath)
  {
    hide IsChecked, PathOf;
  }

  lemma {:induction false} FilesTallied(objects: seq<LintObject>, checks: seq<Check>)
    ensures forall path :: path in ObjectsTally(objects, checks).files <==>
                             path != "" && exists obj :: obj in objects && obj.filePath == path
    ensures |ObjectsTally(objects, checks).files| <= |objects|
  {
    if objects != [] {
      var n := |objects| - 1;
      FilesTallied(objects[..n], checks);
      FilesStep(objects, checks);
      assert forall obj :: obj in objects <==> obj in objects[..n] || obj == objects[n];
      AtMostOneMore(ObjectsTally(objects[..n], checks).files, objects[n].filePath);
      hide ObjectsTally;
    }
  }

  lemma {:induction false} InvalidTallied(objects: seq<InvalidObject>)
    ensures var t := InvalidTally(objects);
            && t.objects == 0 && t.checked == 0 && t.kinds == multiset{} && t.unparsed == |objects|
            && |t.files| <= |objects|
            && forall path :: path in t.files <==> path != "" && exists obj :: obj in objects && obj.filePath == path
  {
    if objects != [] {
      var n := |objects| - 1;
      InvalidTallied(objects[..n]);
      assert forall obj :: obj in objects <==> obj in objects[..n] || obj == objects[n];
      AtMostOneMore(InvalidTally(objects[..n]).files, objects[n].filePath);
    }
  }

  lemma AtMostOneMore(files: set<string>, path: string)
    ensures |files + PathOf(path)| <= |files| + 1
  {
    assert files + PathOf(path) == if path == "" || path in files then files else files + {path};
  }

  // Merging changes no count

  lemma {:induction false} ObjectsTallyAppends(a: seq<LintObject>, b: seq<LintObject>, checks: seq<Check>)
    ensures ObjectsTally(a + b, checks) == Add(ObjectsTally(a, checks), ObjectsTally(b, checks))
  {
    hide Add, ObjectTally;
    if b == [] {
      assert a + b == a;
      AddNothing(ObjectsTally(a, checks));
    } else {
      var n := |b| - 1;
      ObjectsTallyAppends(a, b[..n], checks);
      assert (a + b)[..|a| + n] == a + b[..n];
      AddAssociates(ObjectsTally(a, checks), ObjectsTally(b[..n], checks), ObjectTally(b[n], checks));
    }
  }

  lemma {:induction false} InvalidTallyAppends(a: seq<InvalidObject>, b: seq<InvalidObject>)
    ensures InvalidTally(a + b) == Add(InvalidTally(a), InvalidTally(b))
  {
    hide Add, PathOf;
    if b == [] {
      assert a + b == a;
      AddNothing(InvalidTally(a));
    } else {
      var n := |b| - 1;
      InvalidTallyAppends(a, b[..n]);
      assert (a + b)[..|a| + n] == a + b[..n];
      AddAssociates(InvalidTally(a), InvalidTally(b[..n]), Tally(0, 1, 0, multiset{}, PathOf(b[n].filePath)));
    }
  }

  lemma {:induction false} TallyOfMerged(contexts: seq<LintContext>, checks: seq<Check>)
    ensures TallyOf(contexts, checks)
         == Add(ObjectsTally(Merged(contexts).objects, checks), InvalidTally(Merged(contexts).invalidObjects))
  {
    hide Add;
    if contexts == [] {
      AddNothing(NOTHING);
    } else {
      var n := |contexts| - 1;
      TallyOfMerged(contexts[..n], checks);
      var earlier, last := Merged(contexts[..n]), contexts[n];
      ObjectsTallyAppends(earlier.objects, last.objects, checks);
      InvalidTallyAppends(earlier.invalidObjects, last.invalidObjects);
      hide ObjectsTally, InvalidTally;
      Regroup(ObjectsTally(earlier.objects, checks), InvalidTally(earlier.invalidObjects),
              ObjectsTally(last.objects, checks), InvalidTally(last.invalidObjects));
    }
  }

  lemma Regroup(a: Tally, b: Tally, c: Tally, d: Tally)
    ensures Add(Add(Add(a, b), c), d) == Add(Add(a, c), Add(b, d))
  {
  }

  /** Counting over a list of contexts and counting over the one context they merge into give the same summary. */
  lemma MergingKeepsSummary(contexts: seq<LintContext>, checks: seq<Check>)
    ensures Summary([Merged(contexts)], checks) == Summary(contexts, checks)
  {
    TallyOfMerged(contexts, checks);
    TallyOfMerged([Merged(contexts)], checks);
    hide Add, ObjectsTally, InvalidTally, TallyOf, CountsOf, LooksFor;
    MergedAlone(Merged(contexts));
  }

  lemma MergedAlone(ctx: LintContext)
    ensures Merged([ctx]) == ctx
  {
    assert [ctx][..0] == [];
    assert Merged([]) == LintContext([], []);
  }

  lemma FilesCounted(contexts: seq<LintContext>, checks: seq<Check>)
    ensures forall path :: path in TallyOf(contexts, checks).files <==> NamesFile(Merged(contexts), path)
    ensures |TallyOf(contexts, checks).files| <= |Merged(contexts).objects| + |Merged(contexts).invalidObjects|
  {
    var all := Merged(contexts);
    TallyOfMerged(contexts, checks);
    FilesTallied(all.objects, checks);
    InvalidTallied(all.invalidObjects);
    hide ObjectsTally, InvalidTally, TallyOf, Merged;
    UnionSize(ObjectsTally(all.objects, checks).files, InvalidTally(all.invalidObjects).files);
  }

  lemma KindsCounted(contexts: seq<LintContext>, checks: seq<Check>, kind: string)
    ensures var t, all := TallyOf(contexts, checks), Merged(contexts);
            && t.objects == |all.objects| && t.unparsed == |all.invalidObjects|
            && t.checked == |CheckedPositions(all.objects, checks)|
            && t.kinds[kind] == |PositionsOfKind(all.objects, checks, kind)|
  {
    var all := Merged(contexts);
    TallyOfMerged(contexts, checks);
    ObjectsTallied(all.objects, checks, kind);
    InvalidTallied(all.invalidObjects);
    hide ObjectsTally, InvalidTally, TallyOf, Merged, CheckedPositions, PositionsOfKind;
  }

  /** What each figure counts, in terms of everything that was loaded. */
  lemma SummaryCounts(contexts: seq<LintContext>, checks: seq<Check>)
    ensures var s, all := Summary(contexts, checks), Merged(contexts);
            && s.objects == |all.objects| && s.unparsed == |all.invalidObjects|
            && s.checked == |CheckedPositions(all.objects, checks)| <= s.objects
            && s.files <= s.objects + s.unparsed
            && (exists files: set<string> ::
                  |files| == s.files && forall path :: path in files <==> NamesFile(all, path))
    ensures var counts := Summary(contexts, checks).checkedByKind;
            forall kind :: (if kind in counts then counts[kind] else 0)
                           == |PositionsOfKind(Merged(contexts).objects, checks, kind)|
  {
    hide TallyOf, LooksFor, Merged, PositionsOfKind, NamesFile;
    var t, all := TallyOf(contexts, checks), Merged(contexts);
    SomePositions(|all.objects|, CheckedPositions(all.objects, checks));
    hide CheckedPositions;
    KindsCounted(contexts, checks, "");
    FilesCounted(contexts, checks);
    assert |t.files| == Summary(contexts, checks).files;
    forall kind {
      KindsCounted(contexts, checks, kind);
    }
  }

  lemma {:induction false} SomePositions(n: nat, s: set<int>)
    requires forall i :: i in s ==> 0 <= i < n
    ensures |s| <= n
  {
    if n == 0 {
      assert forall i :: i !in s;
    } else {
      SomePositions(n - 1, s - {n - 1});
    }
  }

  lemma UnionSize<T>(a: set<T>, b: set<T>)
    ensures |a + b| <= |a| + |b|
  {
    assert |a + b| == |a| + |b - a| by { assert a + b == a + (b - a); }
    assert |b| == |b - a| + |b * a| by { assert b == (b - a) + (b * a); }
  }

  // Conservation

  function SumOver(counts: map<string, nat>, kinds: seq<string>): nat
    requires forall k :: k in kinds ==> k in counts
  {
    if kinds == [] then 0 else SumOver(counts, kinds[..|kinds| - 1]) + counts[kinds[|kinds| - 1]]
  }

  lemma {:induction false} CountsSum(kinds: multiset<string>, listed: seq<string>)
    requires Distinct(listed) && forall k :: k in listed <==> k in kinds
    ensures SumOver(CountsOf(kinds), listed) == |kinds|
  {
    if listed == [] {
      assert kinds == multiset{};
    } else {
      var n := |listed| - 1;
      var rest := kinds[listed[n] := 0];
      assert forall k :: k in listed <==> k in listed[..n] || k == listed[n];
      CountsSum(rest, listed[..n]);
      SumSame(CountsOf(rest), CountsOf(kinds), listed[..n]);
    }
  }

  lemma {:induction false} SumSame(a: map<string, nat>, b: map<string, nat>, listed: seq<string>)
    requires forall k :: k in listed ==> k in a && k in b && a[k] == b[k]
    ensures SumOver(a, listed) == SumOver(b, listed)
  {
    if listed != [] {
      SumSame(a, b, listed[..|listed| - 1]);
    }
  }

  lemma {:induction false} CheckedAreKinds(objects: seq<LintObject>, checks: seq<Check>)
    ensures ObjectsTally(objects, checks).checked == |ObjectsTally(objects, checks).kinds|
  {
    hide IsChecked;
    if objects != [] {
      CheckedAreKinds(objects[..|objects| - 1], checks);
    }
  }

  /** The breakdown by kind adds up to the number checked, in whatever order the kinds are listed. */
  lemma CheckedIsSumByKind(contexts: seq<LintContext>, checks: seq<Check>, listed: seq<string>)
    requires Distinct(listed) && forall k :: k in listed <==> k in Summary(contexts, checks).checkedByKind
    ensures SumOver(Summary(contexts, checks).checkedByKind, listed) == Summary(contexts, checks).checked
  {
    var all := Merged(contexts);
    TallyOfMerged(contexts, checks);
    CheckedAreKinds(all.objects, checks);
    InvalidTallied(all.invalidObjects);
    hide ObjectsTally, InvalidTally, TallyOf, LooksFor, Merged, CountsOf;
    CountsSum(TallyOf(contexts, checks).kinds, listed);
  }

  // The line the report ends with

  /** Commonest kind first, ties by name. */
  predicate ShownBefore(counts: map<string, nat>, a: string, b: string) {
    var m, n := if a in counts then counts[a] else 0, if b in counts then counts[b] else 0;
    if m != n then m > n else Strings.Less(a, b)
  }

  function KindOrder(counts: map<string, nat>): (string, string) -> bool {
    (a, b) => ShownBefore(counts, a, b)
  }

  lemma KindsAreOrdered(counts: map<string, nat>)
    ensures StrictTotalOrder(KindOrder(counts))
  {
    hide Strings.Less;
    StringsAreOrdered();
    forall a, b, c
      ensures OrderLaws(KindOrder(counts), a, b, c)
    {
      assert OrderLaws(Strings.Less, a, b, c);
    }
  }

  ghost function Breakdown(counts: map<string, nat>): seq<string> {
    KindsAreOrdered(counts);
    Ordered(multiset(counts.Keys), KindOrder(counts))
  }

  function WithCounts(counts: map<string, nat>, kinds: seq<string>): (parts: seq<(nat, string)>)
    requires forall k :: k in kinds ==> k in counts
    ensures |parts| == |kinds| && forall i :: 0 <= i < |kinds| ==> parts[i] == (counts[kinds[i]], kinds[i])
  {
    seq(|kinds|, i requires 0 <= i < |kinds| => (counts[kinds[i]], kinds[i]))
  }

  lemma BreakdownIs(counts: map<string, nat>)
    ensures Distinct(Breakdown(counts)) && forall k :: k in Breakdown(counts) <==> k in counts
    ensures forall i, j :: 0 <= i < j < |Breakdown(counts)| ==>
              ShownBefore(counts, Breakdown(counts)[i], Breakdown(counts)[j])
  {
    hide ShownBefore;
    KindsAreOrdered(counts);
    OrderedSet(counts.Keys, KindOrder(counts));
    assert forall a, b :: KindOrder(counts)(a, b) <==> ShownBefore(counts, a, b);
  }

  lemma BreakdownOrdered(counts: map<string, nat>)
    ensures StrictTotalOrder(KindOrder(counts))
    ensures Breakdown(counts) == Ordered(multiset(counts.Keys), KindOrder(counts))
  {
    KindsAreOrdered(counts);
  }

  lemma ArePartsOf(counts: map<string, nat>, kinds: seq<string>, parts: seq<(nat, string)>)
    requires forall k :: k in kinds ==> k in counts
    requires |parts| == |kinds| && forall j :: 0 <= j < |kinds| ==> parts[j] == (counts[kinds[j]], kinds[j])
    ensures parts == WithCounts(counts, kinds)
  {
  }

  /** The breakdown is one and the same whatever order the map yields its kinds in. */
  method ByKind(counts: map<string, nat>) returns (parts: seq<(nat, string)>)
    ensures (forall k :: k in Breakdown(counts) ==> k in counts) && parts == WithCounts(counts, Breakdown(counts))
  {
    hide ShownBefore, KindOrder;
    KindsAreOrdered(counts);
    BreakdownIs(counts);
    BreakdownOrdered(counts);
    hide *;
    var kinds := SortKeys(counts.Keys, KindOrder(counts));
    parts := [];
    for i := 0 to |kinds|
      invariant |parts| == i && forall j :: 0 <= j < i ==> parts[j] == (counts[kinds[j]], kinds[j])
    {
      parts := parts + [(counts[kinds[i]], kinds[i])];
    }
    ArePartsOf(counts, kinds, parts);
  }

  /** What the line says was checked. */
  datatype Headline =
    | NothingChecked(looksFor: seq<string>)
    | OneKind(count: nat, kind: string)
    | SeveralKinds(checked: nat, parts: seq<(nat, string)>)

  /** The line the report ends with; it speaks of unparsed objects only when there are any. */
  datatype Line = Line(headline: Headline, objects: nat, files: nat, unparsed: Option<nat>)

  lemma SomeKey(counts: map<string, nat>)
    requires counts != map[]
    ensures exists k :: k in counts
  {
    assert counts.Keys != {};
  }

  method SoleKind(byKind: map<string, nat>) returns (count: nat, kind: string)
    requires byKind != map[]
    ensures kind in byKind && count == byKind[kind]
  {
    var listed := ListInAnyOrder(byKind.Keys);
    SomeKey(byKind);
    kind := listed[0];
    count := byKind[kind];
  }

  method Render(s: ScanSummary) returns (line: Line)
    ensures line.objects == s.objects && line.files == s.files
    ensures line.unparsed == if s.unparsed > 0 then Some(s.unparsed) else None
    ensures s.checked == 0 ==> line.headline == NothingChecked(s.looksFor)
    ensures s.checked != 0 && |s.checkedByKind| == 1 ==>
              && line.headline.OneKind? && line.headline.kind in s.checkedByKind
              && line.headline.count == s.checkedByKind[line.headline.kind]
    ensures s.checked != 0 && |s.checkedByKind| != 1 ==>
              (forall k :: k in Breakdown(s.checkedByKind) ==> k in s.checkedByKind)
              && line.headline == SeveralKinds(s.checked, WithCounts(s.checkedByKind, Breakdown(s.checkedByKind)))
  {
    var headline;
    if s.checked == 0 {
      headline := NothingChecked(s.looksFor);
    } else if |s.checkedByKind| == 1 {
      var count, kind := SoleKind(s.checkedByKind);
      headline := OneKind(count, kind);
    } else {
      var parts := ByKind(s.checkedByKind);
      headline := SeveralKinds(s.checked, parts);
    }
    line := Line(headline, s.objects, s.files, None);
    if s.unparsed > 0 {
      line := line.(unparsed := Some(s.unparsed));
    }
  }

  function SumOfParts(parts: seq<(nat, string)>): nat {
    if parts == [] then 0 else SumOfParts(parts[..|parts| - 1]) + parts[|parts| - 1].0
  }

  lemma {:induction false} PartsSum(counts: map<string, nat>, kinds: seq<string>)
    requires forall k :: k in kinds ==> k in counts
    ensures SumOfParts(WithCounts(counts, kinds)) == SumOver(counts, kinds)
  {
    if kinds != [] {
      var n := |kinds| - 1;
      PartsSum(counts, kinds[..n]);
      assert WithCounts(counts, kinds)[..n] == WithCounts(counts, kinds[..n]);
    }
  }

  /** However the line is put, its figures account for every object checked; and it says nothing was checked exactly
      when no check applied to any object. */
  lemma LineAccountsForChecked(contexts: seq<LintContext>, checks: seq<Check>)
    ensures var s := Summary(contexts, checks);
            && (s.checked == 0 <==> forall obj :: obj in Merged(contexts).objects ==> !IsChecked(obj, checks))
            && (forall kind :: |s.checkedByKind| == 1 && kind in s.checkedByKind ==> s.checkedByKind[kind] == s.checked)
            && (forall k :: k in Breakdown(s.checkedByKind) ==> k in s.checkedByKind)
            && SumOfParts(WithCounts(s.checkedByKind, Breakdown(s.checkedByKind))) == s.checked
  {
    hide Summary, Merged, Breakdown, WithCounts, IsChecked;
    var s := Summary(contexts, checks);
    SummaryCounts(contexts, checks);
    NoneChecked(Merged(contexts).objects, checks);
    BreakdownIs(s.checkedByKind);
    CheckedIsSumByKind(contexts, checks, Breakdown(s.checkedByKind));
    PartsSum(s.checkedByKind, Breakdown(s.checkedByKind));
    forall kind | |s.checkedByKind| == 1 && kind in s.checkedByKind
      ensures s.checkedByKind[kind] == s.checked
    {
      OnlyKey(s.checkedByKind, kind);
      CheckedIsSumByKind(contexts, checks, [kind]);
      assert [kind][..0] == [];
    }
  }

  lemma OnlyKey(counts: map<string, nat>, kind: string)
    requires |counts| == 1 && kind in counts
    ensures forall k :: k in counts <==> k == kind
  {
    assert |counts.Keys - {kind}| == 0;
    assert counts.Keys == {kind} + (counts.Keys - {kind});
  }

  lemma NoneChecked(objects: seq<LintObject>, checks: seq<Check>)
    ensures |CheckedPositions(objects, checks)| == 0 <==> forall obj :: obj in objects ==> !IsChecked(obj, checks)
  {
    hide IsChecked;
    var positions := CheckedPositions(objects, checks);
    if |positions| == 0 {
      forall obj | obj in objects
        ensures !IsChecked(obj, checks)
      {
        var i :| 0 <= i < |objects| && objects[i] == obj;
        assert i !in positions;
      }
    } else {
      var i :| i in positions;
      assert objects[i] in objects;
    }
  }
}
