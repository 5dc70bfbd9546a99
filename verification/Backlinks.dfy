// src/commands/backlinks.ts: finding missing back-links and inserting them.
module Backlinks {
  import opened Text

  // An entity mention: only people and companies are kept. The extractor of
  // mentions and the extractor of titles are parameters: any functions of a
  // page's text.
  datatype EntityDir = People | Companies

  datatype Ref = Ref(name: string, slug: string, dir: EntityDir)

  datatype Gap = Gap(sourcePage: string, targetPage: string, entityName: string, sourceTitle: string)

  const TIMELINE := "## Timeline"
  const SECTION := "\n## "

  function SlashCount(s: string): nat {
    if s == [] then 0 else SlashCount(s[..|s| - 1]) + if s[|s| - 1] == '/' then 1 else 0
  }

  function Basename(path: string): string {
    if path == [] || path[|path| - 1] == '/' then ""
    else Basename(path[..|path| - 1]) + [path[|path| - 1]]
  }

  // The first ".md" removed.
  function Slug(relPath: string): string {
    var i := IndexOf(relPath, ".md");
    if i < 0 then relPath else relPath[..i] + relPath[i + 3..]
  }

  predicate HasBacklink(targetContent: string, sourceFilename: string) {
    Contains(targetContent, sourceFilename)
  }

  function BuildBacklinkEntry(sourceTitle: string, sourcePath: string, date: string): string {
    "- **" + date + "** | Referenced in [" + sourceTitle + "](" + sourcePath + ")"
  }

  function TargetSlug(r: Ref): string {
    (if r.dir.People? then "people" else "companies") + "/" + r.slug
  }

  // ---- findBacklinkGaps ----

  // Pages by slug; a later page with the same slug replaces an earlier one.
  function PagesBySlug(listing: seq<string>): map<string, string> {
    if listing == [] then map[]
    else PagesBySlug(listing[..|listing| - 1])[Slug(listing[|listing| - 1]) := listing[|listing| - 1]]
  }

  function SlugsOf(refs: seq<Ref>): set<string> {
    set r | r in refs :: TargetSlug(r)
  }

  // Is this mention of the page a gap: its target exists and does not contain
  // the page's file name?
  predicate IsGap(files: map<string, string>, bySlug: map<string, string>, page: string, r: Ref) {
    && TargetSlug(r) in bySlug && bySlug[TargetSlug(r)] in files
    && !HasBacklink(files[bySlug[TargetSlug(r)]], Basename(page))
  }

  function GapOf(page: string, title: string, r: Ref): Gap {
    Gap(page, TargetSlug(r) + ".md", r.name, title)
  }

  // The gaps of one page, one per mentioned target.
  function PageGaps(files: map<string, string>, bySlug: map<string, string>, page: string, title: string, refs: seq<Ref>): seq<Gap> {
    if refs == [] then []
    else
      var k := |refs| - 1;
      PageGaps(files, bySlug, page, title, refs[..k])
        + if TargetSlug(refs[k]) !in SlugsOf(refs[..k]) && IsGap(files, bySlug, page, refs[k])
          then [GapOf(page, title, refs[k])] else []
  }

  ghost predicate Listed(files: map<string, string>, listing: seq<string>) {
    forall p :: p in listing ==> p in files
  }

  function GapsOf(files: map<string, string>, bySlug: map<string, string>, pages: seq<string>,
                  refsOf: string -> seq<Ref>, titleOf: string -> string): seq<Gap>
    requires Listed(files, pages)
  {
    if pages == [] then []
    else
      var k := |pages| - 1;
      GapsOf(files, bySlug, pages[..k], refsOf, titleOf)
        + PageGaps(files, bySlug, pages[k], titleOf(files[pages[k]]), refsOf(files[pages[k]]))
  }

  // All gaps of the brain.
  function Gaps(files: map<string, string>, listing: seq<string>, refsOf: string -> seq<Ref>, titleOf: string -> string): seq<Gap>
    requires Listed(files, listing)
  {
    GapsOf(files, PagesBySlug(listing), listing, refsOf, titleOf)
  }

  // ---- fixBacklinkGaps ----

  function EntryOf(gap: Gap, today: string): string {
    BuildBacklinkEntry(gap.sourceTitle, UpDirs(SlashCount(gap.targetPage)) + gap.sourcePage, today)
  }

  function UpDirs(depth: nat): string {
    if depth == 0 then "" else "../" + UpDirs(depth - 1)
  }

  // Where the next section begins after the first timeline heading, before any second one.
  function NextSectionAt(content: string): (r: int)
    requires Contains(content, TIMELINE)
    ensures r < 0 || (r < |content| && content[r] == '\n')
  {
    var head := IndexOf(content, TIMELINE);
    var rest := content[head + |TIMELINE|..];
    var second := IndexOf(rest, TIMELINE);
    var afterTimeline := if second < 0 then rest else rest[..second];
    var next := IndexOf(afterTimeline, SECTION);
    if next < 0 then -1
    else
      assert afterTimeline[next] == afterTimeline[next..next + |SECTION|][0];
      head + |TIMELINE| + next
  }

  function InsertEntry(content: string, entry: string): string {
    if Contains(content, TIMELINE) then
      var at := NextSectionAt(content);
      if at >= 0 then content[..at] + "\n" + entry + content[at..]
      else TrimEnd(content) + "\n" + entry + "\n"
    else TrimEnd(content) + "\n\n" + TIMELINE + "\n\n" + entry + "\n"
  }

  function InsertAll(content: string, gaps: seq<Gap>, today: string): string {
    if gaps == [] then content
    else InsertEntry(InsertAll(content, gaps[..|gaps| - 1], today), EntryOf(gaps[|gaps| - 1], today))
  }

  function GapsFor(gaps: seq<Gap>, target: string): seq<Gap> {
    if gaps == [] then []
    else GapsFor(gaps[..|gaps| - 1], target) + if gaps[|gaps| - 1].targetPage == target then [gaps[|gaps| - 1]] else []
  }

  // The files after a repair: each existing target takes its gaps in order.
  function FixAll(files: map<string, string>, gaps: seq<Gap>, today: string): map<string, string> {
    map p | p in files :: InsertAll(files[p], GapsFor(gaps, p), today)
  }

  function FixedCount(files: map<string, string>, gaps: seq<Gap>): nat {
    if gaps == [] then 0
    else FixedCount(files, gaps[..|gaps| - 1]) + if gaps[|gaps| - 1].targetPage in files then 1 else 0
  }

  lemma NextPage(files: map<string, string>, bySlug: map<string, string>, pages: seq<string>, i: nat,
                 refsOf: string -> seq<Ref>, titleOf: string -> string)
    requires Listed(files, pages) && i < |pages|
    ensures GapsOf(files, bySlug, pages[..i + 1], refsOf, titleOf) == GapsOf(files, bySlug, pages[..i], refsOf, titleOf)
      + PageGaps(files, bySlug, pages[i], titleOf(files[pages[i]]), refsOf(files[pages[i]]))
  {
    assert pages[..i + 1][..i] == pages[..i];
  }

  lemma NextMention(files: map<string, string>, bySlug: map<string, string>, page: string, title: string, refs: seq<Ref>, j: nat)
    requires j < |refs|
    ensures SlugsOf(refs[..j + 1]) == SlugsOf(refs[..j]) + {TargetSlug(refs[j])}
    ensures PageGaps(files, bySlug, page, title, refs[..j + 1]) == PageGaps(files, bySlug, page, title, refs[..j])
      + if TargetSlug(refs[j]) !in SlugsOf(refs[..j]) && IsGap(files, bySlug, page, refs[j]) then [GapOf(page, title, refs[j])] else []
  {
    assert refs[..j + 1][..j] == refs[..j];
    assert refs[..j + 1] == refs[..j] + [refs[j]];
  }

  method IndexPages(listing: seq<string>) returns (pagesBySlug: map<string, string>)
    ensures pagesBySlug == PagesBySlug(listing)
  {
    pagesBySlug := map[];
    for i := 0 to |listing|
      invariant pagesBySlug == PagesBySlug(listing[..i])
    {
      assert listing[..i + 1][..i] == listing[..i];
      pagesBySlug := pagesBySlug[Slug(listing[i]) := listing[i]];
    }
    assert listing[..|listing|] == listing;
  }

  class Brain {
    var files: map<string, string>

    constructor (files: map<string, string>)
      ensures this.files == files
    {
      this.files := files;
    }

    // listing is what the directory walk found, in its order.
    method FindBacklinkGaps(listing: seq<string>, refsOf: string -> seq<Ref>, titleOf: string -> string) returns (gaps: seq<Gap>)
      requires Listed(files, listing)
      ensures gaps == Gaps(files, listing, refsOf, titleOf)
    {
      gaps := [];
      var pagesBySlug := IndexPages(listing);
      for i := 0 to |listing|
        invariant gaps == GapsOf(files, pagesBySlug, listing[..i], refsOf, titleOf)
      {
        var page := listing[i];
        NextPage(files, pagesBySlug, listing, i, refsOf, titleOf);
        var pageGaps := FindPageGaps(pagesBySlug, page, titleOf(files[page]), refsOf(files[page]));
        gaps := gaps + pageGaps;
      }
      assert listing[..|listing|] == listing;
    }

    method FindPageGaps(pagesBySlug: map<string, string>, page: string, title: string, refs: seq<Ref>) returns (gaps: seq<Gap>)
      ensures gaps == PageGaps(files, pagesBySlug, page, title, refs)
    {
      gaps := [];
      var sourceFilename := Basename(page);
      var seen: set<string> := {};
      for j := 0 to |refs|
        invariant seen == SlugsOf(refs[..j])
        invariant gaps == PageGaps(files, pagesBySlug, page, title, refs[..j])
      {
        NextMention(files, pagesBySlug, page, title, refs, j);
        var targetSlug := TargetSlug(refs[j]);
        if targetSlug in seen {
          continue;
        }
        seen := seen + {targetSlug};
        if targetSlug !in pagesBySlug || pagesBySlug[targetSlug] !in files {
          continue;
        }
        if !HasBacklink(files[pagesBySlug[targetSlug]], sourceFilename) {
          gaps := gaps + [GapOf(page, title, refs[j])];
        }
      }
      assert refs[..|refs|] == refs;
    }

    method FixBacklinkGaps(gaps: seq<Gap>, today: string, dryRun: bool) returns (fixed: nat)
      modifies this`files
      ensures files == if dryRun then old(files) else FixAll(old(files), gaps, today)
      ensures fixed == FixedCount(old(files), gaps)
    {
      var targets, byTarget := GroupByTarget(gaps);
      fixed := 0;
      ghost var before := files;
      for t := 0 to |targets|
        invariant FixedSoFar(before, gaps, targets, byTarget, t, today, fixed)
        invariant files == if dryRun then before else FixIn(before, gaps, targets[..t], today)
      {
        NextTarget(before, gaps, targets, byTarget, t, today, fixed);
        var n := FixTarget(targets[t], byTarget[targets[t]], today, dryRun);
        fixed := fixed + n;
      }
      AllTargetsFixed(before, gaps, targets, byTarget, today, fixed);
    }

    // One target: its page is rewritten once, unless it is missing.
    method FixTarget(target: string, targetGaps: seq<Gap>, today: string, dryRun: bool) returns (fixed: nat)
      modifies this`files
      ensures target !in old(files) ==> files == old(files) && fixed == 0
      ensures target in old(files) ==> fixed == |targetGaps|
      ensures target in old(files) ==>
        files == if dryRun then old(files) else old(files)[target := InsertAll(old(files)[target], targetGaps, today)]
    {
      if target !in files {
        return 0;
      }
      var content := InsertEach(files[target], targetGaps, today);
      if !dryRun {
        files := files[target := content];
      }
      return |targetGaps|;
    }
  }

  method InsertEach(content: string, gaps: seq<Gap>, today: string) returns (r: string)
    ensures r == InsertAll(content, gaps, today)
  {
    r := content;
    for g := 0 to |gaps|
      invariant r == InsertAll(content, gaps[..g], today)
    {
      assert gaps[..g + 1][..g] == gaps[..g];
      r := InsertEntry(r, EntryOf(gaps[g], today));
    }
    assert gaps[..|gaps|] == gaps;
  }

  // The count when the first t targets have been processed.
  ghost predicate FixedSoFar(files: map<string, string>, gaps: seq<Gap>, targets: seq<string>, byTarget: map<string, seq<Gap>>,
                             t: nat, today: string, fixed: nat) {
    && Grouped(gaps, targets, byTarget) && t <= |targets|
    && fixed == CountIn(files, gaps, targets[..t])
  }

  lemma NextCount(files: map<string, string>, gaps: seq<Gap>, targets: seq<string>, t: nat)
    requires t < |targets|
    ensures CountIn(files, gaps, targets[..t + 1]) ==
      CountIn(files, gaps, targets[..t]) + if targets[t] in files then |GapsFor(gaps, targets[t])| else 0
  {
    assert targets[..t + 1][..t] == targets[..t];
  }

  // What processing one target changes.
  lemma NextTarget(files: map<string, string>, gaps: seq<Gap>, targets: seq<string>, byTarget: map<string, seq<Gap>>,
                   t: nat, today: string, fixed: nat)
    requires FixedSoFar(files, gaps, targets, byTarget, t, today, fixed) && t < |targets|
    ensures var target := targets[t];
      var before, after := FixIn(files, gaps, targets[..t], today), FixIn(files, gaps, targets[..t + 1], today);
      && target in byTarget && byTarget[target] == GapsFor(gaps, target)
      && (target in before <==> target in files)
      && (target !in files ==> after == before && FixedSoFar(files, gaps, targets, byTarget, t + 1, today, fixed))
      && (target in files ==>
        && before[target] == files[target]
        && after == before[target := InsertAll(files[target], GapsFor(gaps, target), today)]
        && FixedSoFar(files, gaps, targets, byTarget, t + 1, today, fixed + |byTarget[target]|))
  {
    assert targets[t] in targets;
    NextCount(files, gaps, targets, t);
    assert targets[..t + 1] == targets[..t] + [targets[t]];
    NextFixIn(files, gaps, targets[..t], targets[t], today);
  }

  lemma NextFixIn(files: map<string, string>, gaps: seq<Gap>, done: seq<string>, next: string, today: string)
    requires next !in done
    ensures var before, after := FixIn(files, gaps, done, today), FixIn(files, gaps, done + [next], today);
      && (next !in files ==> after == before)
      && (next in files ==> before[next] == files[next])
      && (next in files ==> after == before[next := InsertAll(files[next], GapsFor(gaps, next), today)])
  {
  }

  ghost predicate Grouped(gaps: seq<Gap>, targets: seq<string>, byTarget: map<string, seq<Gap>>) {
    && (forall i, j :: 0 <= i < j < |targets| ==> targets[i] != targets[j])
    && (forall t :: t in targets <==> t in byTarget)
    && (forall t :: GapsFor(gaps, t) == if t in byTarget then byTarget[t] else [])
  }

  lemma NextGrouped(gaps: seq<Gap>, i: nat)
    requires i < |gaps|
    ensures forall t :: GapsFor(gaps[..i + 1], t) == GapsFor(gaps[..i], t) + if gaps[i].targetPage == t then [gaps[i]] else []
  {
    assert gaps[..i + 1][..i] == gaps[..i];
  }

  // Gaps grouped by target page, targets in order of first appearance.
  method GroupByTarget(gaps: seq<Gap>) returns (targets: seq<string>, byTarget: map<string, seq<Gap>>)
    ensures Grouped(gaps, targets, byTarget)
  {
    targets, byTarget := [], map[];
    for i := 0 to |gaps|
      invariant Grouped(gaps[..i], targets, byTarget)
    {
      var target := gaps[i].targetPage;
      var existing := if target in byTarget then byTarget[target] else [];
      NextGrouped(gaps, i);
      if target !in byTarget {
        targets := targets + [target];
      }
      byTarget := byTarget[target := existing + [gaps[i]]];
    }
    assert gaps[..|gaps|] == gaps;
  }

  // The files, and the count, when only some targets have been processed.
  ghost function FixIn(files: map<string, string>, gaps: seq<Gap>, done: seq<string>, today: string): map<string, string> {
    map p | p in files :: if p in done then InsertAll(files[p], GapsFor(gaps, p), today) else files[p]
  }

  ghost function CountIn(files: map<string, string>, gaps: seq<Gap>, done: seq<string>): nat {
    if done == [] then 0
    else
      var t := done[|done| - 1];
      CountIn(files, gaps, done[..|done| - 1]) + if t in files then |GapsFor(gaps, t)| else 0
  }

  lemma AllTargetsFixed(files: map<string, string>, gaps: seq<Gap>, targets: seq<string>, byTarget: map<string, seq<Gap>>,
                        today: string, fixed: nat)
    requires FixedSoFar(files, gaps, targets, byTarget, |targets|, today, fixed)
    ensures FixIn(files, gaps, targets[..|targets|], today) == FixAll(files, gaps, today)
    ensures fixed == FixedCount(files, gaps)
  {
    assert targets[..|targets|] == targets;
    SumByTarget(files, gaps, targets);
    AllIn(files, gaps, targets, today);
  }

  lemma AllIn(files: map<string, string>, gaps: seq<Gap>, targets: seq<string>, today: string)
    requires forall t :: GapsFor(gaps, t) != [] ==> t in targets
    ensures FixIn(files, gaps, targets, today) == FixAll(files, gaps, today)
  {
    forall p | p in files && p !in targets ensures InsertAll(files[p], GapsFor(gaps, p), today) == files[p] {
      assert GapsFor(gaps, p) == [];
    }
  }

  // Counting gap by gap equals counting target by target.
  lemma {:induction false} SumByTarget(files: map<string, string>, gaps: seq<Gap>, targets: seq<string>)
    requires forall i, j :: 0 <= i < j < |targets| ==> targets[i] != targets[j]
    requires forall t :: GapsFor(gaps, t) != [] ==> t in targets
    ensures CountIn(files, gaps, targets) == FixedCount(files, gaps)
    decreases |gaps|
  {
    if gaps == [] {
      NothingToCount(files, targets);
    } else {
      var k := |gaps| - 1;
      var t := gaps[k].targetPage;
      assert GapsFor(gaps, t) != [];
      SumByTarget(files, gaps[..k], targets);
      OneMoreGap(files, gaps, targets);
    }
  }

  lemma {:induction false} NothingToCount(files: map<string, string>, done: seq<string>)
    ensures CountIn(files, [], done) == 0
  {
    if done != [] {
      NothingToCount(files, done[..|done| - 1]);
    }
  }

  lemma {:induction false} OneMoreGap(files: map<string, string>, gaps: seq<Gap>, done: seq<string>)
    requires gaps != []
    requires forall i, j :: 0 <= i < j < |done| ==> done[i] != done[j]
    ensures var k := |gaps| - 1;
      CountIn(files, gaps, done) == CountIn(files, gaps[..k], done)
        + if gaps[k].targetPage in done && gaps[k].targetPage in files then 1 else 0
  {
    if done != [] {
      OneMoreGap(files, gaps, done[..|done| - 1]);
      assert done == done[..|done| - 1] + [done[|done| - 1]];
    }
  }
}
