// What the back-link finder reports and the repair writes, said on paths, file
// names and lines.
module BacklinksReport {
  import opened Text
  import opened Backlinks

  // ---- file names and slugs ----

  // The file name is the part after the last slash.
  ghost predicate IsFileName(path: string, name: string) {
    '/' !in name && (path == name || exists dir :: path == dir + "/" + name)
  }

  lemma BasenameStep(init: string, last: char)
    requires last != '/'
    ensures Basename(init + [last]) == Basename(init) + [last]
  {
    assert (init + [last])[..|init|] == init;
  }

  lemma BasenameOfDir(dir: string)
    ensures Basename(dir + "/") == ""
  {
    assert (dir + "/")[|dir|] == '/';
  }

  lemma {:induction false} BasenameOf(dir: string, name: string)
    requires '/' !in name
    ensures Basename(name) == name && Basename(dir + "/" + name) == name
  {
    if name == [] {
      BasenameOfDir(dir);
      assert dir + "/" + name == dir + "/";
    } else {
      var init, last := name[..|name| - 1], name[|name| - 1];
      assert last in name && forall c :: c in init ==> c in name;
      BasenameOf(dir, init);
      BasenameStep(init, last);
      BasenameStep(dir + "/" + init, last);
      assert name == init + [last] && dir + "/" + name == dir + "/" + init + [last];
    }
  }

  lemma FileNameIs(path: string, name: string)
    requires IsFileName(path, name)
    ensures Basename(path) == name
  {
    if path == name {
      BasenameOf("", name);
    } else {
      var dir :| path == dir + "/" + name;
      BasenameOf(dir, name);
    }
  }

  lemma {:induction false} FileNameExists(path: string)
    ensures IsFileName(path, Basename(path))
    decreases |path|
  {
    if path != [] {
      var init, last := path[..|path| - 1], path[|path| - 1];
      assert path == init + [last];
      if last == '/' {
        assert path == init + "/" + "";
      } else {
        FileNameExists(init);
        var b := Basename(init);
        if init != b {
          var dir :| init == dir + "/" + b;
          assert path == dir + "/" + (b + [last]);
        }
      }
    }
  }

  // The page a slug stands for: the last one listed that has it.
  ghost predicate StandsFor(listing: seq<string>, slug: string, page: string) {
    exists i :: 0 <= i < |listing| && LastWith(listing, slug, page, i)
  }

  ghost predicate LastWith(listing: seq<string>, slug: string, page: string, i: int)
    requires 0 <= i < |listing|
  {
    listing[i] == page && Slug(page) == slug && forall j :: i < j < |listing| ==> Slug(listing[j]) != slug
  }

  lemma StandsForLast(before: seq<string>, last: string, slug: string, page: string)
    ensures StandsFor(before + [last], slug, page) <==> if Slug(last) == slug then page == last else StandsFor(before, slug, page)
  {
    var listing := before + [last];
    if Slug(last) == slug {
      assert LastWith(listing, slug, last, |before|);
    } else {
      forall i | 0 <= i < |before| ensures LastWith(listing, slug, page, i) <==> LastWith(before, slug, page, i) {
        assert listing[i] == before[i];
        assert forall j :: i < j < |before| ==> listing[j] == before[j];
      }
    }
  }

  lemma {:induction false} StandsForIff(listing: seq<string>, slug: string, page: string)
    ensures StandsFor(listing, slug, page) <==> slug in PagesBySlug(listing) && PagesBySlug(listing)[slug] == page
  {
    if listing != [] {
      var before, last := listing[..|listing| - 1], listing[|listing| - 1];
      assert listing == before + [last];
      StandsForIff(before, slug, page);
      StandsForLast(before, last, slug, page);
    }
  }

  // ---- what a gap says ----

  // The path a mention leads to: people under people/, companies under companies/.
  ghost predicate LeadsTo(r: Ref, slug: string) {
    (r.dir == People && slug == "people/" + r.slug) || (r.dir == Companies && slug == "companies/" + r.slug)
  }

  lemma LeadsToTarget(r: Ref, slug: string)
    ensures LeadsTo(r, slug) <==> TargetSlug(r) == slug
  {
    assert "people" + "/" == "people/" && "companies" + "/" == "companies/";
  }

  // The k-th mention of the list is the first of its target.
  ghost predicate FirstMention(refs: seq<Ref>, k: int, slug: string) {
    && 0 <= k < |refs| && LeadsTo(refs[k], slug)
    && forall j :: 0 <= j < k ==> !LeadsTo(refs[j], slug)
  }

  lemma {:induction false} FindFirst(refs: seq<Ref>, r: Ref, slug: string) returns (k: nat)
    requires r in refs && LeadsTo(r, slug)
    ensures FirstMention(refs, k, slug)
  {
    var last := |refs| - 1;
    if j :| 0 <= j < last && LeadsTo(refs[j], slug) {
      k := FindFirst(refs[..last], refs[..last][j], slug);
    } else {
      k := last;
    }
  }

  lemma FirstIsUnseen(refs: seq<Ref>, k: nat, slug: string)
    requires k < |refs| && LeadsTo(refs[k], slug)
    ensures FirstMention(refs, k, slug) <==> TargetSlug(refs[k]) !in SlugsOf(refs[..k])
  {
    forall j | 0 <= j < k ensures LeadsTo(refs[j], slug) <==> TargetSlug(refs[j]) == TargetSlug(refs[k]) {
      LeadsToTarget(refs[j], slug);
      LeadsToTarget(refs[k], slug);
    }
    if TargetSlug(refs[k]) in SlugsOf(refs[..k]) {
      var r :| r in refs[..k] && TargetSlug(r) == TargetSlug(refs[k]);
      var j :| 0 <= j < k && refs[..k][j] == r;
      assert LeadsTo(refs[j], slug);
    } else {
      forall j | 0 <= j < k ensures !LeadsTo(refs[j], slug) {
        assert refs[j] in refs[..k];
      }
    }
  }

  lemma {:induction false} PageGapAt(files: map<string, string>, bySlug: map<string, string>, page: string, title: string, refs: seq<Ref>, k: nat)
    requires k < |refs| && TargetSlug(refs[k]) !in SlugsOf(refs[..k]) && IsGap(files, bySlug, page, refs[k])
    ensures GapOf(page, title, refs[k]) in PageGaps(files, bySlug, page, title, refs)
  {
    var last := |refs| - 1;
    if k < last {
      assert refs[..last][..k] == refs[..k];
      PageGapAt(files, bySlug, page, title, refs[..last], k);
    }
  }

  lemma {:induction false} PageGapFrom(files: map<string, string>, bySlug: map<string, string>, page: string, title: string, refs: seq<Ref>, gap: Gap)
    returns (k: nat)
    requires gap in PageGaps(files, bySlug, page, title, refs)
    ensures k < |refs| && TargetSlug(refs[k]) !in SlugsOf(refs[..k]) && IsGap(files, bySlug, page, refs[k])
    ensures gap == GapOf(page, title, refs[k])
  {
    k := |refs| - 1;
    if gap in PageGaps(files, bySlug, page, title, refs[..k]) {
      var last := k;
      k := PageGapFrom(files, bySlug, page, title, refs[..last], gap);
      assert refs[..last][..k] == refs[..k];
    }
  }

  ghost predicate OnPage(files: map<string, string>, bySlug: map<string, string>, p: string,
                        refsOf: string -> seq<Ref>, titleOf: string -> string, gap: Gap)
  {
    p in files && gap in PageGaps(files, bySlug, p, titleOf(files[p]), refsOf(files[p]))
  }

  lemma {:induction false} GapsOfPages(files: map<string, string>, bySlug: map<string, string>, pages: seq<string>,
                                       refsOf: string -> seq<Ref>, titleOf: string -> string, gap: Gap)
    requires Listed(files, pages)
    ensures gap in GapsOf(files, bySlug, pages, refsOf, titleOf) <==> exists p :: p in pages && OnPage(files, bySlug, p, refsOf, titleOf, gap)
  {
    if pages != [] {
      var k := |pages| - 1;
      GapsOfPages(files, bySlug, pages[..k], refsOf, titleOf, gap);
      assert pages == pages[..k] + [pages[k]];
      assert pages[k] in pages;
      assert gap in GapsOf(files, bySlug, pages, refsOf, titleOf) <==>
        gap in GapsOf(files, bySlug, pages[..k], refsOf, titleOf) || OnPage(files, bySlug, pages[k], refsOf, titleOf, gap);
    }
  }

  // Is this a gap to report: page p mentions, first as its k-th reference, a
  // listed page that does not contain p's file name?
  ghost predicate Missing(files: map<string, string>, listing: seq<string>, refsOf: string -> seq<Ref>, p: string, k: int, slug: string) {
    && p in listing && p in files && FirstMention(refsOf(files[p]), k, slug)
    && exists target, name ::
      StandsFor(listing, slug, target) && target in files && IsFileName(p, name) && !Contains(files[target], name)
  }

  lemma MissingIsGap(files: map<string, string>, listing: seq<string>, refsOf: string -> seq<Ref>, p: string, k: nat, slug: string)
    requires Listed(files, listing) && p in listing && k < |refsOf(files[p])| && LeadsTo(refsOf(files[p])[k], slug)
    ensures Missing(files, listing, refsOf, p, k, slug) <==>
      var refs := refsOf(files[p]);
      TargetSlug(refs[k]) !in SlugsOf(refs[..k]) && IsGap(files, PagesBySlug(listing), p, refs[k])
  {
    var refs := refsOf(files[p]);
    FirstIsUnseen(refs, k, slug);
    LeadsToTarget(refs[k], slug);
    FileNameExists(p);
    forall name | IsFileName(p, name) ensures name == Basename(p) {
      FileNameIs(p, name);
    }
    forall target ensures StandsFor(listing, slug, target) <==> slug in PagesBySlug(listing) && PagesBySlug(listing)[slug] == target {
      StandsForIff(listing, slug, target);
    }
    if IsGap(files, PagesBySlug(listing), p, refs[k]) {
      assert StandsFor(listing, slug, PagesBySlug(listing)[slug]);
    }
  }

  // From the mentioning page to the path of the mention, with the name given
  // there and the title of the mentioning page.
  ghost predicate Says(gap: Gap, files: map<string, string>, refsOf: string -> seq<Ref>, titleOf: string -> string, p: string, k: int, slug: string) {
    && p in files && 0 <= k < |refsOf(files[p])|
    && gap == Gap(p, slug + ".md", refsOf(files[p])[k].name, titleOf(files[p]))
  }

  // The gaps reported are exactly the missing links, once for each page and target.
  lemma ReportedExactly(files: map<string, string>, listing: seq<string>, refsOf: string -> seq<Ref>, titleOf: string -> string, gap: Gap)
    requires Listed(files, listing)
    ensures gap in Gaps(files, listing, refsOf, titleOf) <==>
      exists p, k, slug :: Missing(files, listing, refsOf, p, k, slug) && Says(gap, files, refsOf, titleOf, p, k, slug)
  {
    var bySlug := PagesBySlug(listing);
    GapsOfPages(files, bySlug, listing, refsOf, titleOf, gap);
    if gap in Gaps(files, listing, refsOf, titleOf) {
      var p :| p in listing && OnPage(files, bySlug, p, refsOf, titleOf, gap);
      var k := PageGapFrom(files, bySlug, p, titleOf(files[p]), refsOf(files[p]), gap);
      var slug := TargetSlug(refsOf(files[p])[k]);
      LeadsToTarget(refsOf(files[p])[k], slug);
      MissingIsGap(files, listing, refsOf, p, k, slug);
      assert Missing(files, listing, refsOf, p, k, slug) && Says(gap, files, refsOf, titleOf, p, k, slug);
    }
    if p, k, slug :| Missing(files, listing, refsOf, p, k, slug) && Says(gap, files, refsOf, titleOf, p, k, slug) {
      MissingIsGap(files, listing, refsOf, p, k, slug);
      LeadsToTarget(refsOf(files[p])[k], slug);
      PageGapAt(files, bySlug, p, titleOf(files[p]), refsOf(files[p]), k);
      assert OnPage(files, bySlug, p, refsOf, titleOf, gap);
    }
  }

  // In particular a mention of a listed person or company whose page lacks the
  // mentioning page's file name is reported.
  lemma MentionReported(files: map<string, string>, listing: seq<string>, refsOf: string -> seq<Ref>, titleOf: string -> string,
                        p: string, r: Ref, slug: string, target: string, name: string) returns (first: Ref)
    requires Listed(files, listing) && p in listing && r in refsOf(files[p]) && LeadsTo(r, slug)
    requires StandsFor(listing, slug, target) && target in files && IsFileName(p, name) && !Contains(files[target], name)
    ensures first in refsOf(files[p]) && LeadsTo(first, slug)
    ensures Gap(p, slug + ".md", first.name, titleOf(files[p])) in Gaps(files, listing, refsOf, titleOf)
  {
    var k := FindFirst(refsOf(files[p]), r, slug);
    first := refsOf(files[p])[k];
    var gap := Gap(p, slug + ".md", first.name, titleOf(files[p]));
    assert Missing(files, listing, refsOf, p, k, slug) && Says(gap, files, refsOf, titleOf, p, k, slug);
    ReportedExactly(files, listing, refsOf, titleOf, gap);
  }

  // ---- the entry written ----

  // The parts of a path between slashes.
  function Segments(path: string): (parts: seq<string>)
    ensures parts != []
  {
    if path == [] then [""]
    else
      var rest := Segments(path[1..]);
      if path[0] == '/' then [""] + rest else [[path[0]] + rest[0]] + rest[1..]
  }

  // Where a relative path leads from a directory.
  function Follow(dir: seq<string>, parts: seq<string>): seq<string>
    decreases |parts|
  {
    if parts == [] then dir
    else if parts[0] == ".." then Follow(if dir == [] then [] else dir[..|dir| - 1], parts[1..])
    else Follow(dir + [parts[0]], parts[1..])
  }

  lemma SegmentFirst(c: char, rest: string, parts: seq<string>)
    requires Segments(rest) == parts
    ensures Segments([c] + rest) == if c == '/' then [""] + parts else [[c] + parts[0]] + parts[1..]
  {
    assert ([c] + rest)[1..] == rest;
  }

  lemma UpSegment(rest: string)
    ensures Segments("../" + rest) == [".."] + Segments(rest)
  {
    var parts := Segments(rest);
    SegmentFirst('/', rest, parts);
    SegmentFirst('.', ['/'] + rest, [""] + parts);
    assert ([""] + parts)[1..] == parts && ['.'] + "" == ".";
    SegmentFirst('.', ['.'] + (['/'] + rest), ["."] + parts);
    assert (["."] + parts)[1..] == parts && ['.'] + "." == "..";
    assert "../" + rest == ['.'] + (['.'] + (['/'] + rest));
  }

  lemma {:induction false} SlashesAppend(a: string, b: string)
    ensures SlashCount(a + b) == SlashCount(a) + SlashCount(b)
  {
    if b == [] {
      assert a + b == a;
    } else {
      var init := b[..|b| - 1];
      SlashesAppend(a, init);
      assert (a + b)[..|a + b| - 1] == a + init;
    }
  }

  lemma {:induction false} SegmentsCounted(path: string)
    ensures |Segments(path)| == SlashCount(path) + 1
  {
    if path != [] {
      SegmentsCounted(path[1..]);
      SlashesAppend([path[0]], path[1..]);
      assert [path[0]] + path[1..] == path && [path[0]][..0] == [];
    }
  }

  lemma {:induction false} StraightOn(dir: seq<string>, parts: seq<string>)
    requires forall i :: 0 <= i < |parts| ==> parts[i] != ".."
    ensures Follow(dir, parts) == dir + parts
    decreases |parts|
  {
    if parts == [] {
      assert dir + parts == dir;
    } else {
      StraightOn(dir + [parts[0]], parts[1..]);
      assert dir + [parts[0]] + parts[1..] == dir + parts;
    }
  }

  lemma {:induction false} UpAndDown(dir: seq<string>, path: string)
    requires forall i :: 0 <= i < |Segments(path)| ==> Segments(path)[i] != ".."
    ensures Follow(dir, Segments(UpDirs(|dir|) + path)) == Segments(path)
    decreases |dir|
  {
    if dir == [] {
      assert UpDirs(0) + path == path;
      StraightOn([], Segments(path));
      assert [] + Segments(path) == Segments(path);
    } else {
      var up := dir[..|dir| - 1];
      UpAndDown(up, path);
      assert UpDirs(|dir|) + path == "../" + (UpDirs(|up|) + path);
      UpSegment(UpDirs(|up|) + path);
    }
  }

  // The entry is a dated line whose link, followed from the target page's
  // directory, leads to the mentioning page.
  lemma EntryLinksToSource(gap: Gap, today: string) returns (link: string)
    requires forall i :: 0 <= i < |Segments(gap.sourcePage)| ==> Segments(gap.sourcePage)[i] != ".."
    ensures EntryOf(gap, today) == "- **" + today + "** | Referenced in [" + gap.sourceTitle + "](" + link + ")"
    ensures var target := Segments(gap.targetPage);
      Follow(target[..|target| - 1], Segments(link)) == Segments(gap.sourcePage)
  {
    var target := Segments(gap.targetPage);
    SegmentsCounted(gap.targetPage);
    link := UpDirs(|target| - 1) + gap.sourcePage;
    UpAndDown(target[..|target| - 1], gap.sourcePage);
  }

  // ---- where the entry goes ----

  // One line at the end of a text, the last line break included.
  lemma EntryLine(t: string, entry: string)
    requires OneLine(entry)
    ensures Lines(t + "\n" + (entry + "\n" + "")) == Lines(t) + [entry, ""]
  {
    LinesOfLine("");
    LinesFirst(entry, "");
    LinesConcat(t, entry + "\n" + "");
    assert [entry] + [""] == [entry, ""];
  }

  lemma ThreeLines(heading: string)
    requires OneLine(heading)
    ensures Lines("" + "\n" + (heading + "\n" + "")) == ["", heading, ""]
  {
    LinesOfLine("");
    LinesFirst(heading, "");
    LinesFirst("", heading + "\n" + "");
    assert [heading] + [""] == [heading, ""] && [""] + [heading, ""] == ["", heading, ""];
  }

  lemma HeadingLines(t: string)
    ensures Lines(t + "\n" + ("" + "\n" + ("## Timeline" + "\n" + ""))) == Lines(t) + ["", "## Timeline", ""]
  {
    ThreeLines("## Timeline");
    LinesConcat(t, "" + "\n" + ("## Timeline" + "\n" + ""));
  }

  lemma NewTimelineText(t: string, entry: string)
    ensures t + "\n\n" + TIMELINE + "\n\n" + entry + "\n"
      == t + "\n" + ("" + "\n" + ("## Timeline" + "\n" + "")) + "\n" + (entry + "\n" + "")
  {
  }

  lemma InsertNewTimeline(content: string, entry: string)
    requires !Contains(content, "## Timeline")
    ensures InsertEntry(content, entry) == TrimEnd(content) + "\n\n" + TIMELINE + "\n\n" + entry + "\n"
  {
  }

  // On a page without a timeline, a timeline with the entry is added at the end.
  lemma NewTimelineAtEnd(content: string, entry: string)
    requires !Contains(content, "## Timeline") && OneLine(entry)
    ensures Lines(InsertEntry(content, entry)) == Lines(TrimEnd(content)) + ["", "## Timeline", ""] + [entry, ""]
  {
    var t := TrimEnd(content);
    InsertNewTimeline(content, entry);
    NewTimelineText(t, entry);
    HeadingLines(t);
    EntryLine(t + "\n" + ("" + "\n" + ("## Timeline" + "\n" + "")), entry);
  }

  lemma SectionPlace(content: string, head: int, rest: string, second: int)
    requires Contains(content, TIMELINE) && head == IndexOf(content, TIMELINE) && rest == content[head + |TIMELINE|..]
    requires second == IndexOf(rest, TIMELINE)
    ensures Contains(if second < 0 then rest else rest[..second], SECTION) <==> NextSectionAt(content) >= 0
  {
  }

  lemma NoSectionAfter(content: string, head: int)
    requires Contains(content, "## Timeline") && head == IndexOf(content, "## Timeline")
    requires var rest := content[head + 11..];
      var second := IndexOf(rest, "## Timeline");
      !Contains(if second < 0 then rest else rest[..second], "\n## ")
    ensures NextSectionAt(content) < 0
  {
    var rest := content[head + 11..];
    SectionPlace(content, head, rest, IndexOf(rest, TIMELINE));
  }

  lemma InsertLast(content: string, entry: string)
    requires Contains(content, TIMELINE) && NextSectionAt(content) < 0
    ensures InsertEntry(content, entry) == TrimEnd(content) + "\n" + entry + "\n"
  {
  }

  lemma EndText(t: string, entry: string)
    ensures t + "\n" + entry + "\n" == t + "\n" + (entry + "\n" + "")
  {
  }

  lemma LastEntryLines(content: string, entry: string)
    requires Contains(content, TIMELINE) && NextSectionAt(content) < 0 && OneLine(entry)
    ensures Lines(InsertEntry(content, entry)) == Lines(TrimEnd(content)) + [entry, ""]
  {
    InsertLast(content, entry);
    EndText(TrimEnd(content), entry);
    EntryLine(TrimEnd(content), entry);
  }

  // With a timeline and no section between its heading and the next heading of
  // the kind, or the end, the entry is added at the end.
  lemma EntryAtEnd(content: string, entry: string, head: int)
    requires Contains(content, "## Timeline") && head == IndexOf(content, "## Timeline") && OneLine(entry)
    requires var rest := content[head + 11..];
      var second := IndexOf(rest, "## Timeline");
      !Contains(if second < 0 then rest else rest[..second], "\n## ")
    ensures Lines(InsertEntry(content, entry)) == Lines(TrimEnd(content)) + [entry, ""]
  {
    NoSectionAfter(content, head);
    LastEntryLines(content, entry);
  }
}
