/** What a run says it looked at, in terms of the objects loaded and the checks enabled
    (pkg/command/lint/scanned.go, merge.go). */
module ScanTerms {
  import opened Manifests
  import opened Sorting
  import opened Scanned
  import Strings

  // Merging

  /** Merging is concatenation: nothing is lost, added or reordered. */
  lemma {:induction false} MergedAppends(a: seq<LintContext>, b: seq<LintContext>)
    ensures Merged(a + b).objects == Merged(a).objects + Merged(b).objects
    ensures Merged(a + b).invalidObjects == Merged(a).invalidObjects + Merged(b).invalidObjects
  {
    if b == [] {
      assert a + b == a;
    } else {
      var n := |b| - 1;
      MergedAppends(a, b[..n]);
      assert (a + b)[..|a + b| - 1] == a + b[..n];
    }
  }

  // Figures

  /** Some enabled check matches the object's group, version and kind. */
  ghost predicate IsLookedAt(obj: LintObject, checks: seq<Check>) {
    exists check :: check in checks && check.matches(obj.gvk)
  }

  ghost function LookedAt(objects: seq<LintObject>, checks: seq<Check>): set<int> {
    set i | 0 <= i < |objects| && IsLookedAt(objects[i], checks)
  }

  ghost function LookedAtOfKind(objects: seq<LintObject>, checks: seq<Check>, kind: string): set<int> {
    set i | 0 <= i < |objects| && IsLookedAt(objects[i], checks) && objects[i].gvk.kind == kind
  }

  lemma CheckedIff(obj: LintObject, checks: seq<Check>)
    ensures IsChecked(obj, checks) <==> IsLookedAt(obj, checks)
  {
    if check :| check in checks && check.matches(obj.gvk) {
      var k :| 0 <= k < |checks| && checks[k] == check;
    }
  }

  lemma PositionsAre(objects: seq<LintObject>, checks: seq<Check>, kind: string)
    ensures CheckedPositions(objects, checks) == LookedAt(objects, checks)
    ensures PositionsOfKind(objects, checks, kind) == LookedAtOfKind(objects, checks, kind)
  {
    forall obj
      ensures IsChecked(obj, checks) <==> IsLookedAt(obj, checks)
    {
      CheckedIff(obj, checks);
    }
    hide IsChecked, IsLookedAt;
  }

  /** A path some object, parsed or not, was loaded from. */
  ghost predicate IsLoadedFrom(contexts: seq<LintContext>, path: string) {
    && path != ""
    && exists ctx :: && ctx in contexts
                     && ((exists o :: o in ctx.objects && o.filePath == path)
                         || exists o :: o in ctx.invalidObjects && o.filePath == path)
  }

  lemma {:induction false} FilesAre(contexts: seq<LintContext>, path: string)
    ensures NamesFile(Merged(contexts), path) <==> IsLoadedFrom(contexts, path)
  {
    if contexts != [] {
      var n := |contexts| - 1;
      FilesAre(contexts[..n], path);
      FilesOfTwo(Merged(contexts[..n]), contexts[n], path);
      assert forall ctx :: ctx in contexts <==> ctx in contexts[..n] || ctx == contexts[n];
    }
  }

  lemma FilesOfTwo(a: LintContext, b: LintContext, path: string)
    ensures NamesFile(LintContext(a.objects + b.objects, a.invalidObjects + b.invalidObjects), path) <==>
              NamesFile(a, path) || NamesFile(b, path)
  {
  }

  /** What the summary counts: all objects, those some check looks at, in all and by kind, the unparsed ones, and the
      files they came from. */
  lemma SummaryTerms(contexts: seq<LintContext>, checks: seq<Check>)
    ensures var s, all := Summary(contexts, checks), Merged(contexts);
            && s.objects == |all.objects| && s.unparsed == |all.invalidObjects|
            && s.checked == |LookedAt(all.objects, checks)|
            && (forall kind :: (if kind in s.checkedByKind then s.checkedByKind[kind] else 0)
                               == |LookedAtOfKind(all.objects, checks, kind)|)
            && exists files: set<string> ::
                 |files| == s.files && forall path :: path in files <==> IsLoadedFrom(contexts, path)
  {
    var all := Merged(contexts);
    hide Summary, Merged, LookedAt, LookedAtOfKind, CheckedPositions, PositionsOfKind, NamesFile, IsLoadedFrom;
    SummaryCounts(contexts, checks);
    PositionsAre(all.objects, checks, "");
    forall kind
      ensures PositionsOfKind(all.objects, checks, kind) == LookedAtOfKind(all.objects, checks, kind)
    {
      PositionsAre(all.objects, checks, kind);
    }
    forall path
      ensures NamesFile(all, path) <==> IsLoadedFrom(contexts, path)
    {
      FilesAre(contexts, path);
    }
  }

  /** The kinds looked for are those some check names, each once, in ascending order. */
  lemma LooksForTerms(contexts: seq<LintContext>, checks: seq<Check>)
    ensures var kinds := Summary(contexts, checks).looksFor;
            && (forall k :: k in kinds <==> exists check :: check in checks && k in check.objectKinds)
            && forall i, j :: 0 <= i < j < |kinds| ==> Strings.ComesBefore(kinds[i], kinds[j])
  {
    StringsAreOrdered();
    OrderedSet(ScopeKinds(checks), Strings.Less);
    var kinds := LooksFor(checks);
    ScopeKindsAre(checks);
    hide LooksFor, ScopeKinds, TallyOf;
    forall i, j | 0 <= i < j < |kinds|
      ensures Strings.ComesBefore(kinds[i], kinds[j])
    {
      Strings.LessIff(kinds[i], kinds[j]);
    }
  }

  lemma ScopeKindsAre(checks: seq<Check>)
    ensures forall k :: k in ScopeKinds(checks) <==> exists check :: check in checks && k in check.objectKinds
  {
    forall k | exists check :: check in checks && k in check.objectKinds
      ensures k in ScopeKinds(checks)
    {
      var check :| check in checks && k in check.objectKinds;
      var i :| 0 <= i < |checks| && checks[i] == check;
      var j :| 0 <= j < |check.objectKinds| && check.objectKinds[j] == k;
      assert checks[i].objectKinds[j] == k;
    }
  }

  /** The breakdown names the kinds counted, the commonest first and those of one count by name. */
  lemma BreakdownTerms(counts: map<string, nat>)
    ensures var kinds := Breakdown(counts);
            && (forall k :: k in kinds <==> k in counts)
            && forall i, j :: 0 <= i < j < |kinds| ==>
                 && kinds[i] in counts && kinds[j] in counts
                 && (counts[kinds[i]] > counts[kinds[j]]
                     || (counts[kinds[i]] == counts[kinds[j]] && Strings.ComesBefore(kinds[i], kinds[j])))
  {
    BreakdownIs(counts);
    var kinds := Breakdown(counts);
    hide Breakdown, Strings.Less, Strings.ComesBefore;
    forall i, j | 0 <= i < j < |kinds|
      ensures kinds[i] in counts && kinds[j] in counts
      ensures counts[kinds[i]] > counts[kinds[j]]
              || (counts[kinds[i]] == counts[kinds[j]] && Strings.ComesBefore(kinds[i], kinds[j]))
    {
      assert kinds[i] in kinds && kinds[j] in kinds;
      Strings.LessIff(kinds[i], kinds[j]);
    }
  }
}
