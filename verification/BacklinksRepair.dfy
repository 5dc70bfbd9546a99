// Back-link repair loses nothing, closes what it handles, and reaches a fixpoint.
module BacklinksRepair {
  import opened Text
  import opened Backlinks

  // ---- one insertion ----

  // A needle no insertion can break: non-empty, on one line, not ending in whitespace.
  ghost predicate Sturdy(needle: string) {
    needle != [] && OneLine(needle) && !IsWhitespace(needle[|needle| - 1])
  }

  lemma PrefixOfSuffix(s: string, prefix: string, pat: string, i: nat)
    requires prefix <= s && OccursAt(prefix, pat, i)
    ensures i <= |s| && pat <= s[i..]
  {
    assert s[i..][..|pat|] == prefix[i..i + |pat|];
  }

  lemma SuffixOfSuffix(s: string, a: nat, b: nat)
    requires a <= |s| && b <= |s| - a
    ensures s[a..][b..] == s[a + b..]
  {
  }

  // The section found after the timeline is one.
  lemma SectionThere(content: string)
    requires Contains(content, TIMELINE) && NextSectionAt(content) >= 0
    ensures SECTION <= content[NextSectionAt(content)..]
  {
    var from := IndexOf(content, TIMELINE) + |TIMELINE|;
    var rest := content[from..];
    var second := IndexOf(rest, TIMELINE);
    var afterTimeline := if second < 0 then rest else rest[..second];
    var next := IndexOf(afterTimeline, SECTION);
    PrefixOfSuffix(rest, afterTimeline, SECTION, next);
    SuffixOfSuffix(content, from, next);
  }

  predicate HasSection(content: string) {
    Contains(content, TIMELINE) && NextSectionAt(content) >= 0
  }

  lemma Holds(left: string, entry: string, right: string)
    ensures Contains(left + entry + right, entry)
  {
    assert OccursAt(entry, entry, 0);
    ContainsWithin(left, entry, right, entry);
  }

  lemma InsertAbove(content: string, entry: string, at: nat)
    requires HasSection(content) && at == NextSectionAt(content)
    ensures at <= |content| && InsertEntry(content, entry) == content[..at] + "\n" + entry + content[at..]
  {
  }

  lemma InsertAtEnd(content: string, entry: string) returns (inserted: string)
    requires Contains(content, TIMELINE) && !HasSection(content)
    ensures InsertEntry(content, entry) == TrimEnd(content) + "\n" + inserted
    ensures Contains(inserted, entry)
  {
    inserted := entry + "\n";
    Holds("", entry, "\n");
    assert "" + entry + "\n" == inserted;
    assert TrimEnd(content) + "\n" + inserted == TrimEnd(content) + "\n" + entry + "\n";
  }

  lemma NewTimeline(t: string, entry: string) returns (inserted: string)
    ensures t + "\n\n" + TIMELINE + "\n\n" + entry + "\n" == t + "\n" + inserted
    ensures Contains(inserted, entry)
  {
    inserted := "\n" + TIMELINE + "\n\n" + entry + "\n";
    Holds("\n" + TIMELINE + "\n\n", entry, "\n");
    assert t + "\n\n" + TIMELINE + "\n\n" + entry + "\n" == t + "\n" + inserted;
  }

  lemma InsertBelow(content: string, entry: string) returns (inserted: string)
    requires !HasSection(content)
    ensures InsertEntry(content, entry) == TrimEnd(content) + "\n" + inserted
    ensures Contains(inserted, entry)
  {
    if Contains(content, TIMELINE) {
      inserted := InsertAtEnd(content, entry);
    } else {
      inserted := NewTimeline(TrimEnd(content), entry);
    }
  }

  lemma TailIsBlank(content: string)
    ensures content == TrimEnd(content) + "" + content[|TrimEnd(content)|..]
    ensures forall i :: 0 <= i < |content[|TrimEnd(content)|..]| ==> IsWhitespace(content[|TrimEnd(content)|..][i])
  {
  }

  lemma ShapeAbove(content: string, entry: string) returns (kept: string, moved: string)
    requires HasSection(content)
    ensures content == kept + moved && SECTION <= moved
    ensures InsertEntry(content, entry) == kept + "\n" + entry + moved
  {
    var at := NextSectionAt(content);
    InsertAbove(content, entry, at);
    SectionThere(content);
    kept, moved := content[..at], content[at..];
  }

  lemma Itself(entry: string)
    ensures Contains(entry, entry)
  {
    ContainsAt(entry, entry, 0);
  }

  lemma NothingAround(kept: string, inserted: string, moved: string)
    ensures kept + moved == kept + moved + ""
    ensures kept + "\n" + inserted == kept + "\n" + inserted + ""
  {
  }

  // The shape of an insertion: a prefix kept, the rest either pushed down,
  // beginning with a section, or, when it was trailing whitespace, dropped.
  lemma InsertShape(content: string, entry: string) returns (kept: string, inserted: string, moved: string, dropped: string)
    ensures content == kept + moved + dropped
    ensures InsertEntry(content, entry) == kept + "\n" + inserted + moved
    ensures moved == [] || (SECTION <= moved && dropped == [])
    ensures moved == [] ==> kept == TrimEnd(content)
    ensures forall i :: 0 <= i < |dropped| ==> IsWhitespace(dropped[i])
    ensures Contains(inserted, entry)
  {
    if HasSection(content) {
      kept, moved := ShapeAbove(content, entry);
      inserted, dropped := entry, "";
      Itself(entry);
    } else {
      inserted := InsertBelow(content, entry);
      TailIsBlank(content);
      kept, moved, dropped := TrimEnd(content), "", content[|TrimEnd(content)|..];
    }
    NothingAround(kept, inserted, moved);
  }

  lemma SectionAfterTimeline(head: string, body: string, tail: string)
    requires IndexOf(head + TIMELINE + (body + SECTION + tail), TIMELINE) == |head|
    requires IndexOf(body + SECTION + tail, SECTION) == |body|
    requires var second := IndexOf(body + SECTION + tail, TIMELINE); second < 0 || second >= |body| + |SECTION|
    ensures NextSectionAt(head + TIMELINE + (body + SECTION + tail)) == |head| + |TIMELINE| + |body|
  {
    var rest := body + SECTION + tail;
    assert (head + TIMELINE + rest)[|head| + |TIMELINE|..] == rest;
    var second := IndexOf(rest, TIMELINE);
    SameFirst(rest, if second < 0 then rest else rest[..second], SECTION);
  }

  lemma CutBefore(left: string, body: string, tail: string, entry: string, content: string, at: nat)
    requires content == left + (body + SECTION + tail) && at == |left| + |body|
    ensures at <= |content| && content[..at] + "\n" + entry + content[at..] == left + body + "\n" + entry + (SECTION + tail)
  {
    assert content[..at] == left + body;
    assert content[at..] == SECTION + tail;
  }

  // With a section after the first timeline heading and no second heading
  // before it, the entry becomes the last line of the timeline section.
  lemma EntryEndsTimeline(content: string, head: string, body: string, tail: string, entry: string)
    requires content == head + TIMELINE + (body + SECTION + tail)
    requires IndexOf(content, TIMELINE) == |head|
    requires IndexOf(body + SECTION + tail, SECTION) == |body|
    requires var second := IndexOf(body + SECTION + tail, TIMELINE); second < 0 || second >= |body| + |SECTION|
    ensures InsertEntry(content, entry) == head + TIMELINE + body + "\n" + entry + (SECTION + tail)
  {
    var at := |head + TIMELINE| + |body|;
    SectionAfterTimeline(head, body, tail);
    InsertAbove(content, entry, at);
    CutBefore(head + TIMELINE, body, tail, entry, content, at);
  }

  // A one-line needle does not straddle a line break.
  lemma NoStraddle(kept: string, moved: string, needle: string)
    requires OneLine(needle) && moved != [] && moved[0] == '\n' && Contains(kept + moved, needle)
    ensures Contains(kept, needle) || Contains(moved, needle)
  {
    BesideNewline(kept + moved, needle, |kept|);
    assert (kept + moved)[..|kept|] == kept && (kept + moved)[|kept|..] == moved;
  }

  lemma {:induction false} DroppedTail(kept: string, dropped: string, needle: string)
    requires Sturdy(needle) && Contains(kept + dropped, needle)
    requires forall i :: 0 <= i < |dropped| ==> IsWhitespace(dropped[i])
    ensures Contains(kept, needle)
  {
    var s := kept + dropped;
    var i := IndexOf(s, needle);
    assert s[i..i + |needle|][|needle| - 1] == s[i + |needle| - 1];
    assert i + |needle| <= |kept|;
    assert kept[i..i + |needle|] == s[i..i + |needle|];
    ContainsAt(kept, needle, i);
  }

  lemma ShapeKeeps(kept: string, inserted: string, moved: string, dropped: string, needle: string)
    requires Sturdy(needle) && Contains(kept + moved + dropped, needle)
    requires moved == [] || (moved[0] == '\n' && dropped == [])
    requires forall i :: 0 <= i < |dropped| ==> IsWhitespace(dropped[i])
    ensures Contains(kept + "\n" + inserted + moved, needle)
  {
    if moved == [] {
      assert kept + moved + dropped == kept + dropped;
      DroppedTail(kept, dropped, needle);
    } else {
      assert kept + moved + dropped == kept + moved;
      NoStraddle(kept, moved, needle);
    }
    if Contains(kept, needle) {
      ContainsWithin("", kept, "\n" + inserted + moved, needle);
      assert kept + "\n" + inserted + moved == "" + kept + ("\n" + inserted + moved);
    } else {
      ContainsWithin(kept + "\n" + inserted, moved, "", needle);
      assert kept + "\n" + inserted + moved == kept + "\n" + inserted + moved + "";
    }
  }

  // No insertion destroys a sturdy needle.
  lemma InsertKeeps(content: string, entry: string, needle: string)
    requires Sturdy(needle) && Contains(content, needle)
    ensures Contains(InsertEntry(content, entry), needle)
  {
    var kept, inserted, moved, dropped := InsertShape(content, entry);
    assert moved != [] ==> moved[0] == SECTION[0];
    ShapeKeeps(kept, inserted, moved, dropped, needle);
  }

  // The entry is there afterwards, and whatever it mentions.
  lemma InsertAdds(content: string, entry: string, needle: string)
    requires Contains(entry, needle)
    ensures Contains(InsertEntry(content, entry), needle)
  {
    var kept, inserted, moved, dropped := InsertShape(content, entry);
    ContainsWithin(kept + "\n", inserted, moved, entry);
    ContainsTransitive(InsertEntry(content, entry), entry, needle);
  }

  // ---- many insertions ----

  // What holds after the g-th insertion and survives insertions holds after all.
  lemma {:induction false} HoldsAfterAll(content: string, gaps: seq<Gap>, today: string, g: nat, keep: string -> bool)
    requires g <= |gaps| && keep(InsertAll(content, gaps[..g], today))
    requires forall text, entry :: keep(text) ==> keep(InsertEntry(text, entry))
    ensures keep(InsertAll(content, gaps, today))
  {
    if g < |gaps| {
      assert gaps[..|gaps| - 1][..g] == gaps[..g];
      HoldsAfterAll(content, gaps[..|gaps| - 1], today, g, keep);
    } else {
      assert gaps[..g] == gaps;
    }
  }

  lemma InsertAllKeeps(content: string, gaps: seq<Gap>, today: string, needle: string)
    requires Sturdy(needle) && Contains(content, needle)
    ensures Contains(InsertAll(content, gaps, today), needle)
  {
    forall text, entry | Contains(text, needle) ensures Contains(InsertEntry(text, entry), needle) {
      InsertKeeps(text, entry, needle);
    }
    HoldsAfterAll(content, gaps, today, 0, text => Contains(text, needle));
  }

  lemma {:induction false} BasenameIsSuffix(path: string)
    ensures |Basename(path)| <= |path| && path[|path| - |Basename(path)|..] == Basename(path)
  {
    if path != [] && path[|path| - 1] != '/' {
      var k := |path| - 1;
      BasenameIsSuffix(path[..k]);
      var b := Basename(path[..k]);
      assert path[k + 1 - (|b| + 1)..] == path[..k][k - |b|..] + [path[k]];
    }
  }

  // An entry names its source file.
  lemma EntryNamesSource(gap: Gap, today: string)
    ensures Contains(EntryOf(gap, today), Basename(gap.sourcePage))
  {
    BasenameIsSuffix(gap.sourcePage);
    var b := Basename(gap.sourcePage);
    var p := gap.sourcePage;
    var up := UpDirs(SlashCount(gap.targetPage));
    var left := "- **" + today + "** | Referenced in [" + gap.sourceTitle + "](" + up + p[..|p| - |b|];
    assert p == p[..|p| - |b|] + b;
    assert EntryOf(gap, today) == left + b + ")";
    assert OccursAt(b, b, 0);
    ContainsWithin(left, b, ")", b);
  }

  lemma LastGapCloses(content: string, gap: Gap, today: string)
    ensures Contains(InsertEntry(content, EntryOf(gap, today)), Basename(gap.sourcePage))
  {
    EntryNamesSource(gap, today);
    InsertAdds(content, EntryOf(gap, today), Basename(gap.sourcePage));
  }

  // Every gap handled is closed, later insertions included.
  lemma InsertAllCloses(content: string, gaps: seq<Gap>, today: string, g: nat)
    requires g < |gaps| && Sturdy(Basename(gaps[g].sourcePage))
    ensures Contains(InsertAll(content, gaps, today), Basename(gaps[g].sourcePage))
  {
    var name := Basename(gaps[g].sourcePage);
    assert gaps[..g + 1][..g] == gaps[..g];
    LastGapCloses(InsertAll(content, gaps[..g], today), gaps[g], today);
    forall text, entry | Contains(text, name) ensures Contains(InsertEntry(text, entry), name) {
      InsertKeeps(text, entry, name);
    }
    HoldsAfterAll(content, gaps, today, g + 1, text => Contains(text, name));
  }

  // ---- lines survive in order ----

  // The lines of a text, up to the whitespace it ends in.
  function Body(s: string): seq<string> {
    Lines(TrimEnd(s))
  }

  ghost predicate Subsequence(a: seq<string>, b: seq<string>) {
    a == [] || (b != [] && ((a[0] == b[0] && Subsequence(a[1..], b[1..])) || Subsequence(a, b[1..])))
  }

  lemma {:induction false} SubsequenceSelf(a: seq<string>)
    ensures Subsequence(a, a)
  {
    if a != [] {
      SubsequenceSelf(a[1..]);
    }
  }

  lemma {:induction false} SubsequenceSkip(a: seq<string>, skip: seq<string>, b: seq<string>)
    requires Subsequence(a, b)
    ensures Subsequence(a, skip + b)
  {
    if skip == [] {
      assert skip + b == b;
    } else {
      SubsequenceSkip(a, skip[1..], b);
      assert (skip + b)[1..] == skip[1..] + b;
    }
  }

  lemma {:induction false} SubsequenceMiddle(a: seq<string>, x: seq<string>, b: seq<string>)
    ensures Subsequence(a + b, a + x + b)
  {
    if a == [] {
      SubsequenceSelf(b);
      SubsequenceSkip(b, x, b);
      assert a + b == b && a + x + b == x + b;
    } else {
      SubsequenceMiddle(a[1..], x, b);
      assert (a + b)[1..] == a[1..] + b && (a + x + b)[1..] == a[1..] + x + b;
    }
  }

  lemma {:induction false} SubsequenceTransitive(a: seq<string>, b: seq<string>, c: seq<string>)
    requires Subsequence(a, b) && Subsequence(b, c)
    ensures Subsequence(a, c)
    decreases |b| + |c|
  {
    if a != [] && b != [] {
      if b[0] == c[0] && Subsequence(b[1..], c[1..]) {
        if a[0] == b[0] && Subsequence(a[1..], b[1..]) {
          SubsequenceTransitive(a[1..], b[1..], c[1..]);
        } else {
          SubsequenceTransitive(a, b[1..], c[1..]);
        }
      } else {
        SubsequenceTransitive(a, b, c[1..]);
      }
    }
  }

  lemma TrimEndStep(s: string, rest: string, last: char)
    requires s == rest + [last]
    ensures TrimEnd(s) == if IsWhitespace(last) then TrimEnd(rest) else s
  {
    assert s[..|s| - 1] == rest;
  }

  lemma {:induction false} TrimEndOfConcat(a: string, b: string)
    ensures TrimEnd(a + b) == if TrimEnd(b) == [] then TrimEnd(a) else a + TrimEnd(b)
  {
    if b == [] {
      assert a + b == a;
    } else {
      var rest, last := b[..|b| - 1], b[|b| - 1];
      assert b == rest + [last] && a + b == a + rest + [last];
      TrimEndStep(b, rest, last);
      TrimEndStep(a + b, a + rest, last);
      if IsWhitespace(last) {
        TrimEndOfConcat(a, rest);
      }
    }
  }

  lemma FromLineBreak(left: string, moved: string)
    requires moved != [] && moved[0] == '\n'
    ensures left + moved == left + "\n" + moved[1..]
  {
  }

  lemma LinesBelow(kept: string, below: string)
    ensures Subsequence(Lines(kept), Lines(kept + "\n" + below))
  {
    LinesConcat(kept, below);
    SubsequenceMiddle(Lines(kept), Lines(below), []);
    assert Lines(kept) + [] == Lines(kept);
    assert Lines(kept) + Lines(below) + [] == Lines(kept) + Lines(below);
  }

  // Appended lines leave what was there.
  lemma AppendedBelow(kept: string, inserted: string)
    requires TrimEnd(kept) == kept
    ensures Subsequence(Lines(kept), Body(kept + "\n" + inserted))
  {
    var tail := TrimEnd("\n" + inserted);
    TrimEndOfConcat(kept, "\n" + inserted);
    assert kept + "\n" + inserted == kept + ("\n" + inserted);
    if tail == [] {
      SubsequenceSelf(Lines(kept));
    } else {
      FromLineBreak(kept, tail);
      LinesBelow(kept, tail[1..]);
    }
  }

  lemma SectionTrimmed(moved: string)
    requires SECTION <= moved
    ensures |TrimEnd(moved)| > 1 && TrimEnd(moved)[0] == '\n'
  {
    assert moved[1] == SECTION[1] == '#' && moved[0] == SECTION[0];
  }

  // Lines inserted above a section leave what was around them.
  lemma InsertedAbove(kept: string, inserted: string, moved: string)
    requires SECTION <= moved
    ensures Subsequence(Body(kept + moved), Body(kept + "\n" + inserted + moved))
  {
    var rest := TrimEnd(moved);
    SectionTrimmed(moved);
    TrimEndOfConcat(kept, moved);
    TrimEndOfConcat(kept + "\n" + inserted, moved);
    FromLineBreak(kept, rest);
    FromLineBreak(kept + "\n" + inserted, rest);
    LinesConcat(kept, rest[1..]);
    LinesConcat(kept + "\n" + inserted, rest[1..]);
    LinesConcat(kept, inserted);
    SubsequenceMiddle(Lines(kept), Lines(inserted), Lines(rest[1..]));
  }

  lemma InsertKeepsLines(content: string, entry: string)
    ensures Subsequence(Body(content), Body(InsertEntry(content, entry)))
  {
    var kept, inserted, moved, dropped := InsertShape(content, entry);
    if moved == [] {
      AppendedBelow(kept, inserted);
      assert kept + "\n" + inserted + moved == kept + "\n" + inserted;
    } else {
      InsertedAbove(kept, inserted, moved);
      assert kept + moved + dropped == kept + moved;
    }
  }

  // A repair keeps every line of a page exactly, blank ones included, and in
  // order, up to the whitespace the page ends in.
  lemma {:induction false} RepairKeepsLines(content: string, gaps: seq<Gap>, today: string)
    ensures Subsequence(Body(content), Body(InsertAll(content, gaps, today)))
  {
    if gaps == [] {
      SubsequenceSelf(Body(content));
    } else {
      var k := |gaps| - 1;
      var before := InsertAll(content, gaps[..k], today);
      RepairKeepsLines(content, gaps[..k], today);
      InsertKeepsLines(before, EntryOf(gaps[k], today));
      SubsequenceTransitive(Body(content), Body(before), Body(InsertAll(content, gaps, today)));
    }
  }
}
