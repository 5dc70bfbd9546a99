// Repeating find-then-fix reaches a state without gaps.
module BacklinksFixpoint {
  import opened Collections
  import opened Text
  import opened Backlinks
  import opened BacklinksRepair

  // A page name as the walk lists it: one line, ending in ".md".
  predicate MarkdownName(page: string) {
    |page| >= 3 && page[|page| - 3..] == ".md" && '\n' !in page
  }

  ghost predicate MarkdownListing(files: map<string, string>, listing: seq<string>) {
    Listed(files, listing) && forall p :: p in listing ==> MarkdownName(p)
  }

  predicate InEntityDir(slug: string) {
    "people/" <= slug || "companies/" <= slug
  }

  // Can a mention resolve to this page? Only people and companies are
  // mentioned, and of several pages with one slug the last one counts.
  predicate Mentionable(listing: seq<string>, page: string) {
    && InEntityDir(Slug(page))
    && Slug(page) in PagesBySlug(listing) && PagesBySlug(listing)[Slug(page)] == page
  }

  // Every page that can be mentioned survives having its first ".md" removed
  // and ".md" put back at the end.
  ghost predicate Repairable(listing: seq<string>) {
    forall p :: p in listing && Mentionable(listing, p) ==> Slug(p) + ".md" == p
  }

  lemma FilenameIsSturdy(page: string)
    requires MarkdownName(page)
    ensures Sturdy(Basename(page))
  {
    BasenameIsSuffix(page);
    var b := Basename(page);
    assert page[|page| - 1] == page[|page| - 3..][2] == 'd';
    assert b != [] && b[|b| - 1] == 'd';
  }

  // ---- the gaps found ----

  lemma {:induction false} SlugResolves(listing: seq<string>, slug: string)
    requires slug in PagesBySlug(listing)
    ensures PagesBySlug(listing)[slug] in listing && Slug(PagesBySlug(listing)[slug]) == slug
  {
    var k := |listing| - 1;
    if slug != Slug(listing[k]) {
      SlugResolves(listing[..k], slug);
    }
  }

  lemma {:induction false} PageGapFacts(files: map<string, string>, bySlug: map<string, string>, page: string, title: string, refs: seq<Ref>, g: nat)
    requires g < |PageGaps(files, bySlug, page, title, refs)|
    ensures exists r :: r in refs && IsGap(files, bySlug, page, r) && PageGaps(files, bySlug, page, title, refs)[g] == GapOf(page, title, r)
  {
    var k := |refs| - 1;
    if g < |PageGaps(files, bySlug, page, title, refs[..k])| {
      PageGapFacts(files, bySlug, page, title, refs[..k], g);
      var r :| r in refs[..k] && IsGap(files, bySlug, page, r) && PageGaps(files, bySlug, page, title, refs[..k])[g] == GapOf(page, title, r);
      assert r in refs;
    } else {
      assert refs[k] in refs;
    }
  }

  // However often a page mentions a target, it yields at most one gap for it.
  lemma {:induction false} OneGapPerTarget(files: map<string, string>, bySlug: map<string, string>, page: string, title: string, refs: seq<Ref>, i: nat, j: nat)
    requires i < j < |PageGaps(files, bySlug, page, title, refs)|
    ensures var gaps := PageGaps(files, bySlug, page, title, refs); gaps[i].targetPage != gaps[j].targetPage
  {
    var k := |refs| - 1;
    var before := PageGaps(files, bySlug, page, title, refs[..k]);
    if j < |before| {
      OneGapPerTarget(files, bySlug, page, title, refs[..k], i, j);
    } else {
      PageGapFacts(files, bySlug, page, title, refs[..k], i);
      var r :| r in refs[..k] && IsGap(files, bySlug, page, r) && before[i] == GapOf(page, title, r);
      assert TargetSlug(r) in SlugsOf(refs[..k]);
      SameSuffix(TargetSlug(r), TargetSlug(refs[k]), ".md");
    }
  }

  lemma SameSuffix(a: string, b: string, suffix: string)
    ensures a + suffix == b + suffix ==> a == b
  {
    if a + suffix == b + suffix {
      assert (a + suffix)[..|a|] == a && (b + suffix)[..|b|] == b;
    }
  }

  lemma TargetInEntityDir(r: Ref)
    ensures InEntityDir(TargetSlug(r))
  {
    assert "people" + "/" == "people/" && "companies" + "/" == "companies/";
  }

  // A gap comes from a listed page that mentions a page lacking its name.
  ghost predicate GapFrom(files: map<string, string>, listing: seq<string>, gap: Gap, target: string) {
    && gap.sourcePage in listing && target in listing && target in files && Mentionable(listing, target)
    && gap.targetPage == Slug(target) + ".md"
    && !Contains(files[target], Basename(gap.sourcePage))
  }

  lemma {:induction false} GapFacts(files: map<string, string>, listing: seq<string>, pages: seq<string>,
                                    refsOf: string -> seq<Ref>, titleOf: string -> string, g: nat) returns (target: string)
    requires Listed(files, listing) && Listed(files, pages) && (forall p :: p in pages ==> p in listing)
    requires g < |GapsOf(files, PagesBySlug(listing), pages, refsOf, titleOf)|
    ensures GapFrom(files, listing, GapsOf(files, PagesBySlug(listing), pages, refsOf, titleOf)[g], target)
  {
    var bySlug := PagesBySlug(listing);
    var k := |pages| - 1;
    var before := |GapsOf(files, bySlug, pages[..k], refsOf, titleOf)|;
    if g < before {
      target := GapFacts(files, listing, pages[..k], refsOf, titleOf, g);
    } else {
      var page := pages[k];
      PageGapFacts(files, bySlug, page, titleOf(files[page]), refsOf(files[page]), g - before);
      var r :| r in refsOf(files[page]) && IsGap(files, bySlug, page, r)
        && PageGaps(files, bySlug, page, titleOf(files[page]), refsOf(files[page]))[g - before] == GapOf(page, titleOf(files[page]), r);
      SlugResolves(listing, TargetSlug(r));
      TargetInEntityDir(r);
      target := bySlug[TargetSlug(r)];
    }
  }

  // No gaps means every mention of a listed page is linked back, and conversely.
  lemma {:induction false} NoGapsOnPage(files: map<string, string>, bySlug: map<string, string>, page: string, title: string, refs: seq<Ref>)
    ensures PageGaps(files, bySlug, page, title, refs) == [] <==> forall r :: r in refs ==> !IsGap(files, bySlug, page, r)
  {
    if refs != [] {
      var k := |refs| - 1;
      NoGapsOnPage(files, bySlug, page, title, refs[..k]);
      assert refs == refs[..k] + [refs[k]];
      if TargetSlug(refs[k]) in SlugsOf(refs[..k]) {
        var r :| r in refs[..k] && TargetSlug(r) == TargetSlug(refs[k]);
        assert IsGap(files, bySlug, page, r) <==> IsGap(files, bySlug, page, refs[k]);
      }
    }
  }

  lemma {:induction false} NoGapsIff(files: map<string, string>, bySlug: map<string, string>, pages: seq<string>,
                                     refsOf: string -> seq<Ref>, titleOf: string -> string)
    requires Listed(files, pages)
    ensures GapsOf(files, bySlug, pages, refsOf, titleOf) == [] <==>
      forall p, r :: p in pages && r in refsOf(files[p]) ==> !IsGap(files, bySlug, p, r)
  {
    if pages != [] {
      var k := |pages| - 1;
      NoGapsIff(files, bySlug, pages[..k], refsOf, titleOf);
      NoGapsOnPage(files, bySlug, pages[k], titleOf(files[pages[k]]), refsOf(files[pages[k]]));
      assert pages == pages[..k] + [pages[k]];
    }
  }

  // ---- one round ----

  function Round(files: map<string, string>, listing: seq<string>, refsOf: string -> seq<Ref>, titleOf: string -> string, today: string): map<string, string>
    requires Listed(files, listing)
  {
    FixAll(files, Gaps(files, listing, refsOf, titleOf), today)
  }

  // Which pages contain the file name of which.
  ghost function Linked(files: map<string, string>, listing: seq<string>): set<(string, string)>
    requires Listed(files, listing)
  {
    set t, s | t in listing && s in listing && Contains(files[t], Basename(s)) :: (t, s)
  }

  lemma {:induction false} GapIsFor(gaps: seq<Gap>, g: nat) returns (i: nat)
    requires g < |gaps|
    ensures i < |GapsFor(gaps, gaps[g].targetPage)| && GapsFor(gaps, gaps[g].targetPage)[i] == gaps[g]
  {
    var k := |gaps| - 1;
    if g < k {
      i := GapIsFor(gaps[..k], g);
    } else {
      i := |GapsFor(gaps[..k], gaps[g].targetPage)|;
    }
  }

  // Links are never lost.
  lemma LinksGrow(files: map<string, string>, listing: seq<string>, gaps: seq<Gap>, today: string)
    requires MarkdownListing(files, listing)
    ensures Listed(FixAll(files, gaps, today), listing)
    ensures Linked(files, listing) <= Linked(FixAll(files, gaps, today), listing)
  {
    forall t, s | t in listing && s in listing && Contains(files[t], Basename(s))
      ensures Contains(FixAll(files, gaps, today)[t], Basename(s))
    {
      FilenameIsSturdy(s);
      InsertAllKeeps(files[t], GapsFor(gaps, t), today, Basename(s));
    }
  }

  // A gap whose target file exists is closed by the repair.
  lemma RepairCloses(files: map<string, string>, gaps: seq<Gap>, today: string, g: nat)
    requires g < |gaps| && gaps[g].targetPage in files && MarkdownName(gaps[g].sourcePage)
    ensures Contains(FixAll(files, gaps, today)[gaps[g].targetPage], Basename(gaps[g].sourcePage))
  {
    var target := gaps[g].targetPage;
    var i := GapIsFor(gaps, g);
    FilenameIsSturdy(gaps[g].sourcePage);
    InsertAllCloses(files[target], GapsFor(gaps, target), today, i);
  }

  // A round that finds a gap adds a link.
  lemma RoundAddsLink(files: map<string, string>, listing: seq<string>, refsOf: string -> seq<Ref>, titleOf: string -> string, today: string)
    requires MarkdownListing(files, listing) && Repairable(listing)
    ensures Listed(Round(files, listing, refsOf, titleOf, today), listing)
    ensures Linked(files, listing) <= Linked(Round(files, listing, refsOf, titleOf, today), listing)
    ensures Gaps(files, listing, refsOf, titleOf) != [] ==>
      |Linked(files, listing)| < |Linked(Round(files, listing, refsOf, titleOf, today), listing)|
  {
    var gaps := Gaps(files, listing, refsOf, titleOf);
    var after := FixAll(files, gaps, today);
    LinksGrow(files, listing, gaps, today);
    if gaps != [] {
      var target := GapFacts(files, listing, listing, refsOf, titleOf, 0);
      RepairCloses(files, gaps, today, 0);
      assert (target, gaps[0].sourcePage) in Linked(after, listing);
      assert (target, gaps[0].sourcePage) !in Linked(files, listing);
      StrictlyMore(Linked(files, listing), Linked(after, listing), (target, gaps[0].sourcePage));
    }
  }

  lemma StrictlyMore<T>(a: set<T>, b: set<T>, x: T)
    requires a <= b && x in b && x !in a
    ensures |a| < |b|
  {
    SubsetSize(a, b - {x});
  }

  // ---- all rounds ----

  // A fixed listing and fixed extractors; the date may change from round to round.
  datatype Setting = Setting(listing: seq<string>, refsOf: string -> seq<Ref>, titleOf: string -> string, dateOf: nat -> string)

  // The files after k rounds.
  function State(b: Setting, files: map<string, string>, k: nat): (r: map<string, string>)
    requires Listed(files, b.listing)
    ensures Listed(r, b.listing)
  {
    if k == 0 then files else Round(State(b, files, k - 1), b.listing, b.refsOf, b.titleOf, b.dateOf(k - 1))
  }

  ghost predicate Quiet(b: Setting, files: map<string, string>, k: nat)
    requires Listed(files, b.listing)
  {
    Gaps(State(b, files, k), b.listing, b.refsOf, b.titleOf) == []
  }

  ghost function LinkCount(b: Setting, files: map<string, string>, k: nat): nat
    requires Listed(files, b.listing)
  {
    |Linked(State(b, files, k), b.listing)|
  }

  lemma OneRound(b: Setting, files: map<string, string>, k: nat)
    requires MarkdownListing(files, b.listing) && Repairable(b.listing) && !Quiet(b, files, k)
    ensures LinkCount(b, files, k) < LinkCount(b, files, k + 1)
  {
    RoundAddsLink(State(b, files, k), b.listing, b.refsOf, b.titleOf, b.dateOf(k));
  }

  // The pairs of a set with a set.
  lemma {:induction false} PairsCount(a: set<string>, b: set<string>)
    ensures |set t, s | t in a && s in b :: (t, s)| == |a| * |b|
    decreases |a|
  {
    var pairs := set t, s | t in a && s in b :: (t, s);
    if a == {} {
      assert pairs == {};
    } else {
      var x :| x in a;
      PairsCount(a - {x}, b);
      var row := set s | s in b :: (x, s);
      RowCount(x, b);
      assert pairs == (set t, s | t in a - {x} && s in b :: (t, s)) + row;
      assert |a| * |b| == (|a| - 1) * |b| + |b|;
    }
  }

  lemma {:induction false} RowCount(x: string, b: set<string>)
    ensures |set s | s in b :: (x, s)| == |b|
    decreases |b|
  {
    var row := set s | s in b :: (x, s);
    if b == {} {
      assert row == {};
    } else {
      var y :| y in b;
      RowCount(x, b - {y});
      assert row == (set s | s in b - {y} :: (x, s)) + {(x, y)};
    }
  }

  function Squared(n: nat): nat {
    n * n
  }

  lemma SquaredMonotone(a: nat, b: nat)
    requires a <= b
    ensures Squared(a) <= Squared(b)
  {
    assert a * a <= a * b <= b * b;
  }

  lemma LinksBounded(files: map<string, string>, listing: seq<string>)
    requires Listed(files, listing)
    ensures |Linked(files, listing)| <= Squared(|listing|)
  {
    var pages := set p | p in listing;
    ElementsCount(listing);
    SquaredMonotone(|pages|, |listing|);
    PairsCount(pages, pages);
    SubsetSize(Linked(files, listing), set t, s | t in pages && s in pages :: (t, s));
  }

  lemma LinkCountBounded(b: Setting, files: map<string, string>, k: nat)
    requires Listed(files, b.listing)
    ensures LinkCount(b, files, k) <= Squared(|b.listing|)
  {
    LinksBounded(State(b, files, k), b.listing);
  }

  // As long as every round adds a link, a quiet state is at most |pages| squared
  // rounds off.
  lemma {:induction false} QuietFrom(b: Setting, files: map<string, string>, k: nat, left: nat) returns (q: nat)
    requires MarkdownListing(files, b.listing) && Repairable(b.listing)
    requires Squared(|b.listing|) <= LinkCount(b, files, k) + left
    ensures q <= k + left && Quiet(b, files, q)
    decreases left
  {
    if Quiet(b, files, k) {
      q := k;
    } else {
      OneRound(b, files, k);
      LinkCountBounded(b, files, k + 1);
      q := QuietFrom(b, files, k + 1, left - 1);
    }
  }

  // With such names, at most |pages| squared rounds leave no gap, whatever
  // the inserted entries themselves mention; and then nothing changes any more.
  lemma RepairTerminates(b: Setting, files: map<string, string>) returns (k: nat)
    requires MarkdownListing(files, b.listing) && Repairable(b.listing)
    ensures k <= Squared(|b.listing|)
    ensures Gaps(State(b, files, k), b.listing, b.refsOf, b.titleOf) == []
    ensures State(b, files, k + 1) == State(b, files, k)
  {
    k := QuietFrom(b, files, 0, Squared(|b.listing|));
    NothingToFix(State(b, files, k), b.dateOf(k));
  }

  lemma NothingToFix(files: map<string, string>, today: string)
    ensures FixAll(files, [], today) == files
  {
  }

  // ---- the condition on names is exact ----

  // No gap leads to this page: no page that can be mentioned gets this name
  // from its slug.
  ghost predicate Unreachable(listing: seq<string>, page: string) {
    forall q :: q in listing && Mentionable(listing, q) ==> Slug(q) + ".md" != page
  }

  lemma {:induction false} NoGapsFor(gaps: seq<Gap>, page: string)
    requires forall g :: 0 <= g < |gaps| ==> gaps[g].targetPage != page
    ensures GapsFor(gaps, page) == []
  {
    if gaps != [] {
      NoGapsFor(gaps[..|gaps| - 1], page);
    }
  }

  lemma RoundLeaves(b: Setting, files: map<string, string>, page: string, today: string)
    requires Listed(files, b.listing) && page in b.listing && Unreachable(b.listing, page)
    ensures page in Round(files, b.listing, b.refsOf, b.titleOf, today)
    ensures Round(files, b.listing, b.refsOf, b.titleOf, today)[page] == files[page]
  {
    var gaps := Gaps(files, b.listing, b.refsOf, b.titleOf);
    forall g | 0 <= g < |gaps| ensures gaps[g].targetPage != page {
      var target := GapFacts(files, b.listing, b.listing, b.refsOf, b.titleOf, g);
    }
    NoGapsFor(gaps, page);
  }

  // What every round keeps holds of every state.
  lemma {:induction false} RoundsKeep(b: Setting, files: map<string, string>, inv: map<string, string> -> bool, k: nat)
    requires Listed(files, b.listing) && inv(files)
    requires forall s, today :: Listed(s, b.listing) && inv(s) ==> inv(Round(s, b.listing, b.refsOf, b.titleOf, today))
    ensures inv(State(b, files, k))
  {
    if k > 0 {
      RoundsKeep(b, files, inv, k - 1);
    }
  }

  lemma StandingGap(b: Setting, files: map<string, string>, source: string, page: string, r: Ref)
    requires Listed(files, b.listing) && source in b.listing && page in b.listing && Mentionable(b.listing, page)
    requires r in b.refsOf(files[source]) && TargetSlug(r) == Slug(page) && !Contains(files[page], Basename(source))
    ensures Gaps(files, b.listing, b.refsOf, b.titleOf) != []
  {
    assert IsGap(files, PagesBySlug(b.listing), source, r);
    NoGapsIff(files, PagesBySlug(b.listing), b.listing, b.refsOf, b.titleOf);
  }

  // Whatever the extractor: a mention of one page in another, neither of which
  // any repair writes to, stays a gap in every round if it is one at first.
  lemma NeverRepaired(b: Setting, files: map<string, string>, source: string, page: string, r: Ref, k: nat)
    requires Listed(files, b.listing) && source in b.listing && page in b.listing && Mentionable(b.listing, page)
    requires Unreachable(b.listing, source) && Unreachable(b.listing, page)
    requires r in b.refsOf(files[source]) && TargetSlug(r) == Slug(page) && !Contains(files[page], Basename(source))
    ensures !Quiet(b, files, k)
  {
    var text, target := files[source], files[page];
    var inv := (s: map<string, string>) => source in s && page in s && s[source] == text && s[page] == target;
    forall s, today | Listed(s, b.listing) && inv(s) ensures inv(Round(s, b.listing, b.refsOf, b.titleOf, today)) {
      RoundLeaves(b, s, source, today);
      RoundLeaves(b, s, page, today);
    }
    RoundsKeep(b, files, inv, k);
    StandingGap(b, State(b, files, k), source, page, r);
  }

  // ---- a misnamed page that nothing leads to ----

  predicate EndsMd(s: string) {
    |s| >= 3 && s[|s| - 3..] == ".md"
  }

  // How often ".md" stands at the end.
  function Trail(s: string): nat {
    if EndsMd(s) then 1 + Trail(s[..|s| - 3]) else 0
  }

  lemma TrailAppend(s: string)
    ensures EndsMd(s + ".md") && Trail(s + ".md") == 1 + Trail(s)
  {
    assert (s + ".md")[..|s|] == s && (s + ".md")[|s|..] == ".md";
  }

  // Two occurrences of ".md" do not overlap.
  lemma NoOverlap(s: string, i: nat)
    requires EndsMd(s) && OccursAt(s, ".md", i)
    ensures i == |s| - 3 || i + 3 <= |s| - 3
  {
    assert s[|s| - 3] == s[|s| - 3..][0] == '.';
    assert s[i + 1] == s[i..i + 3][1] == 'm' && s[i + 2] == s[i..i + 3][2] == 'd';
  }

  lemma SlugAt(s: string, i: nat)
    requires IndexOf(s, ".md") == i && i + 3 <= |s|
    ensures Slug(s) == s[..i] + s[i + 3..]
  {
  }

  lemma CutEarlier(s: string, rest: string, i: nat)
    requires s == rest + ".md" && i + 3 <= |rest|
    ensures s[..i] + s[i + 3..] == rest[..i] + rest[i + 3..] + ".md"
  {
    assert s[..i] == rest[..i] && s[i + 3..] == rest[i + 3..] + ".md";
  }

  lemma SlugBeforeEnd(s: string, rest: string)
    requires EndsMd(s) && rest == s[..|s| - 3]
    ensures s == rest + ".md"
    ensures Slug(s) == rest || Slug(s) == Slug(rest) + ".md"
  {
    var i := IndexOf(s, ".md");
    assert OccursAt(s, ".md", |s| - 3);
    NoOverlap(s, i);
    SlugAt(s, i);
    if i + 3 <= |s| - 3 {
      SameFirst(s, rest, ".md");
      SlugAt(rest, i);
      CutEarlier(s, rest, i);
    } else {
      assert s[i + 3..] == "";
    }
  }

  // Removing an earlier ".md" takes none off the end.
  lemma {:induction false} SlugKeepsTrail(s: string)
    requires EndsMd(s) && Slug(s) + ".md" != s
    ensures Trail(Slug(s)) >= Trail(s)
    decreases |s|
  {
    var rest := s[..|s| - 3];
    SlugBeforeEnd(s, rest);
    TrailAppend(Slug(rest));
    if EndsMd(rest) {
      SlugKeepsTrail(rest);
    }
  }

  // A page takes the name of one that ends in ".md" less often, so among the
  // misnamed pages there is one whose name nothing leads to.
  lemma {:induction false} UnreachableMisnamed(listing: seq<string>, page: string) returns (p: string)
    requires forall q :: q in listing ==> MarkdownName(q)
    requires page in listing && Mentionable(listing, page) && Slug(page) + ".md" != page
    ensures p in listing && Mentionable(listing, p) && Slug(p) + ".md" != p && Unreachable(listing, p)
    decreases Trail(page)
  {
    if Unreachable(listing, page) {
      p := page;
    } else {
      var q :| q in listing && Mentionable(listing, q) && Slug(q) + ".md" == page;
      SlugKeepsTrail(q);
      TrailAppend(Slug(q));
      p := UnreachableMisnamed(listing, q);
    }
  }

  // ---- termination, exactly ----

  // The extractor finds a mention of the page in some text without its file name.
  ghost predicate CanMention(refsOf: string -> seq<Ref>, page: string) {
    exists text, r :: r in refsOf(text) && TargetSlug(r) == Slug(page) && !Contains(text, Basename(page))
  }

  ghost predicate AlwaysQuietens(listing: seq<string>, refsOf: string -> seq<Ref>) {
    forall b: Setting, files :: b.listing == listing && b.refsOf == refsOf && Listed(files, listing) ==>
      exists k: nat :: Quiet(b, files, k)
  }

  // A brain on which the repair never ends: a misnamed page that mentions
  // itself without its file name, all other pages blank.
  lemma MisnamedNeverRepaired(listing: seq<string>, refsOf: string -> seq<Ref>, page: string) returns (b: Setting, files: map<string, string>)
    requires page in listing && Mentionable(listing, page) && Unreachable(listing, page) && CanMention(refsOf, page)
    ensures b.listing == listing && b.refsOf == refsOf && Listed(files, listing)
    ensures forall k: nat :: !Quiet(b, files, k)
  {
    var text, r :| r in refsOf(text) && TargetSlug(r) == Slug(page) && !Contains(text, Basename(page));
    b := Setting(listing, refsOf, _ => "Untitled", _ => "2026-01-01");
    files := map p | p in listing :: if p == page then text else "";
    forall k: nat ensures !Quiet(b, files, k) {
      NeverRepaired(b, files, page, page, r, k);
    }
  }

  // For an extractor that can mention every misnamed page a mention could
  // resolve to: repeating find-then-fix comes to an end on all contents of the
  // pages exactly when there is no such page.
  lemma TerminatesIff(listing: seq<string>, refsOf: string -> seq<Ref>)
    requires forall p :: p in listing ==> MarkdownName(p)
    requires forall p :: p in listing && Mentionable(listing, p) && Slug(p) + ".md" != p ==> CanMention(refsOf, p)
    ensures AlwaysQuietens(listing, refsOf) <==> Repairable(listing)
  {
    if Repairable(listing) {
      forall b: Setting, files | b.listing == listing && b.refsOf == refsOf && Listed(files, listing)
        ensures exists k: nat :: Quiet(b, files, k)
      {
        var k := RepairTerminates(b, files);
        assert Quiet(b, files, k);
      }
    } else {
      var page :| page in listing && Mentionable(listing, page) && Slug(page) + ".md" != page;
      var p := UnreachableMisnamed(listing, page);
      var b, files := MisnamedNeverRepaired(listing, refsOf, p);
      assert Listed(files, listing);
    }
  }

  // ---- there are such pages ----

  lemma FirstMd(head: string, tail: string, s: string)
    requires s == head + ".md" + tail && '.' !in head
    ensures IndexOf(s, ".md") == |head| && Slug(s) == head + tail
  {
    assert s[|head|..|head| + 3] == ".md";
    assert OccursAt(s, ".md", |head|);
    forall i | 0 <= i < |head| ensures !OccursAt(s, ".md", i) {
      assert s[i] == head[i] && head[i] in head;
      if i + 3 <= |s| {
        assert s[i..i + 3][0] == s[i];
      }
    }
    assert s[..|head|] == head && s[|head| + 3..] == tail;
  }

  lemma NameOrder(head: string, tail: string)
    ensures head + tail + ".md" == head + ".md" + tail <==> tail + ".md" == ".md" + tail
  {
    assert head + tail + ".md" == head + (tail + ".md") && head + ".md" + tail == head + (".md" + tail);
    assert (head + (tail + ".md"))[|head|..] == tail + ".md";
    assert (head + (".md" + tail))[|head|..] == ".md" + tail;
  }

  lemma AlonePage(page: string)
    requires InEntityDir(Slug(page))
    ensures Mentionable([page], page)
  {
    assert [page][..0] == [];
    assert PagesBySlug([page]) == PagesBySlug([])[Slug(page) := page];
  }

  // A person's page with something between two ".md" is misnamed, unless that
  // something commutes with ".md".
  lemma MisnamedIff(name: string, tail: string, page: string)
    requires '.' !in name && page == "people/" + name + ".md" + tail
    ensures Slug(page) == "people/" + name + tail
    ensures Mentionable([page], page)
    ensures Repairable([page]) <==> tail + ".md" == ".md" + tail
  {
    var head := "people/" + name;
    forall c | c in head ensures c != '.' {
      assert c in "people/" || c in name;
    }
    FirstMd(head, tail, page);
    NameOrder(head, tail);
    assert head + tail == "people/" + (name + tail);
    AlonePage(page);
    assert page in [page];
  }

  lemma TailDiffers(tail: string)
    requires tail == ".b.md"
    ensures tail + ".md" != ".md" + tail && |tail| == 5 && tail[2..] == ".md" && '\n' !in tail
  {
    assert (tail + ".md")[1] == 'b' && (".md" + tail)[1] == 'm';
  }

  lemma OneLineParts(a: string, b: string, c: string, d: string)
    requires '\n' !in a && '\n' !in b && '\n' !in c && '\n' !in d
    ensures '\n' !in a + b + c + d
  {
  }

  lemma EndsLikeTail(front: string, tail: string)
    requires |tail| >= 3
    ensures (front + tail)[|front + tail| - 3..] == tail[|tail| - 3..]
  {
  }

  lemma ListedName(name: string, tail: string)
    requires '\n' !in name && '\n' !in tail && |tail| >= 3 && tail[|tail| - 3..] == ".md"
    ensures MarkdownName("people/" + name + ".md" + tail)
  {
    OneLineParts("people/", name, ".md", tail);
    EndsLikeTail("people/" + name + ".md", tail);
  }

  // The page people/a.md.b.md, whose slug is people/a.b.md, is one.
  lemma MisnamedPage(page: string, name: string, tail: string)
    requires name == "a" && tail == ".b.md" && page == "people/" + name + ".md" + tail
    ensures MarkdownName(page) && Slug(page) == "people/" + name + tail
    ensures Mentionable([page], page) && !Repairable([page])
  {
    TailDiffers(tail);
    ListedName(name, tail);
    MisnamedIff(name, tail, page);
  }
}
