// scripts/select-e2e.ts: which end-to-end tests a change set selects.
module SelectE2e {
  import opened Wrappers
  import opened Collections
  import opened Sorting
  import opened Glob

  predicate StartsWith(s: string, prefix: string) {
    prefix <= s
  }

  predicate EndsWith(s: string, suffix: string) {
    |suffix| <= |s| && s[|s| - |suffix|..] == suffix
  }

  const DOC_ROOT_FILES := ["README.md", "CLAUDE.md", "AGENTS.md", "CHANGELOG.md", "TODOS.md", "LICENSE", "VERSION"]

  predicate IsDocPath(p: string) {
    || p in DOC_ROOT_FILES
    || ('/' !in p && EndsWith(p, ".md"))
    || StartsWith(p, "docs/")
  }

  const ESCAPE_HATCH_FILES := [
    "src/schema.sql", "src/core/migrate.ts", "src/core/db.ts", "src/core/engine-factory.ts", "src/core/operations.ts",
    "package.json", "bun.lock", "Dockerfile.ci", "docker-compose.ci.yml", "scripts/ci-local.sh", "scripts/run-e2e.sh",
    "scripts/select-e2e.ts", "scripts/e2e-test-map.ts", "test/e2e/helpers.ts"]

  const ESCAPE_HATCH_PREFIXES := ["src/commands/migrations/", "test/e2e/fixtures/", "skills/", ".github/workflows/"]

  predicate IsEscapeHatch(p: string) {
    p in ESCAPE_HATCH_FILES || exists i :: 0 <= i < |ESCAPE_HATCH_PREFIXES| && StartsWith(p, ESCAPE_HATCH_PREFIXES[i])
  }

  predicate IsE2ETest(p: string) {
    StartsWith(p, "test/e2e/") && EndsWith(p, ".test.ts")
  }

  datatype Classification = Empty | DocOnly | Src

  method Classify(changedFiles: seq<string>) returns (c: Classification)
    ensures c == ClassOf(changedFiles)
  {
    if changedFiles == [] {
      return Empty;
    }
    for i := 0 to |changedFiles|
      invariant forall j :: 0 <= j < i ==> IsDocPath(changedFiles[j])
    {
      if !IsDocPath(changedFiles[i]) {
        return Src;
      }
    }
    return DocOnly;
  }

  function ClassOf(changedFiles: seq<string>): Classification {
    if changedFiles == [] then Empty
    else if forall f :: f in changedFiles ==> IsDocPath(f) then DocOnly
    else Src
  }

  // The map's entries, in the order the object lists them.
  type TestMap = seq<(string, seq<string>)>

  datatype Inputs = Inputs(changedFiles: seq<string>, allE2ETests: seq<string>, testMap: TestMap)

  // The tests the map assigns to a path.
  ghost predicate MapHits(testMap: TestMap, f: string, t: string) {
    exists i :: 0 <= i < |testMap| && GlobMatches(testMap[i].0, f) && t in testMap[i].1
  }

  // What one changed path asks for.
  ghost predicate AsksFor(testMap: TestMap, f: string, t: string) {
    && !IsDocPath(f)
    && if IsE2ETest(f) then t == f else MapHits(testMap, f, t)
  }

  ghost predicate Wanted(inputs: Inputs, t: string) {
    exists f :: f in inputs.changedFiles && AsksFor(inputs.testMap, f, t)
  }

  predicate MapSupported(testMap: TestMap) {
    forall i :: 0 <= i < |testMap| ==> Supported(testMap[i].0)
  }

  // The map is consulted for the first path that is neither documentation nor
  // itself a test; an unsupported glob then stops the selection.
  predicate ConsultsMap(changedFiles: seq<string>) {
    exists f :: f in changedFiles && !IsDocPath(f) && !IsE2ETest(f)
  }

  predicate HitsEscapeHatch(changedFiles: seq<string>) {
    exists f :: f in changedFiles && IsEscapeHatch(f)
  }

  ghost predicate StrictlySorted(s: seq<string>) {
    forall i, j :: 0 <= i < j < |s| ==> StringLeq(s[i], s[j]) && s[i] != s[j]
  }

  ghost predicate IsSortedUnion(inputs: Inputs, r: seq<string>) {
    StrictlySorted(r) && forall t :: t in r <==> Wanted(inputs, t)
  }

  // The selection, stated case by case.
  ghost predicate Selects(inputs: Inputs, r: Result<seq<string>, GlobError>) {
    var all := Ok(Sort(StringLeq, inputs.allE2ETests));
    match ClassOf(inputs.changedFiles)
    case Empty => r == all
    case DocOnly => r == Ok([])
    case Src =>
      if HitsEscapeHatch(inputs.changedFiles) then r == all
      else if ConsultsMap(inputs.changedFiles) && !MapSupported(inputs.testMap) then r.Err?
      else if forall t :: !Wanted(inputs, t) then r == all
      else r.Ok? && IsSortedUnion(inputs, r.value)
  }

  // A JavaScript Set, in insertion order.
  function AddToSet(s: seq<string>, t: string): seq<string> {
    if t in s then s else s + [t]
  }

  method SelectTests(inputs: Inputs) returns (r: Result<seq<string>, GlobError>)
    ensures Selects(inputs, r)
  {
    var cls := Classify(inputs.changedFiles);
    var allSorted := Sort(StringLeq, inputs.allE2ETests);
    if cls == Empty {
      return Ok(allSorted);
    }
    if cls == DocOnly {
      return Ok([]);
    }
    var escape := AnyEscapeHatch(inputs.changedFiles);
    if escape {
      return Ok(allSorted);
    }
    var union := UnionOf(inputs);
    if union.Err? {
      return Err(union.error);
    }
    var result := union.value;
    if result == [] {
      forall t ensures !Wanted(inputs, t) {
        assert t in result <==> Wanted(inputs, t);
      }
      return Ok(allSorted);
    }
    assert Wanted(inputs, result[0]);
    SortDistinct(result);
    return Ok(Sort(StringLeq, result));
  }

  method AnyEscapeHatch(changedFiles: seq<string>) returns (b: bool)
    ensures b == HitsEscapeHatch(changedFiles)
  {
    for i := 0 to |changedFiles|
      invariant forall j :: 0 <= j < i ==> !IsEscapeHatch(changedFiles[j])
    {
      if IsEscapeHatch(changedFiles[i]) {
        return true;
      }
    }
    return false;
  }

  // Asked for by one of the first n changed paths.
  ghost predicate WantedBy(inputs: Inputs, n: nat, t: string)
    requires n <= |inputs.changedFiles|
  {
    exists j :: 0 <= j < n && AsksFor(inputs.testMap, inputs.changedFiles[j], t)
  }

  lemma WantedByNext(inputs: Inputs, n: nat)
    requires n < |inputs.changedFiles|
    ensures forall t :: WantedBy(inputs, n + 1, t) <==> WantedBy(inputs, n, t) || AsksFor(inputs.testMap, inputs.changedFiles[n], t)
  {
  }

  lemma WantedByAll(inputs: Inputs)
    ensures forall t :: Wanted(inputs, t) <==> WantedBy(inputs, |inputs.changedFiles|, t)
  {
    forall t ensures Wanted(inputs, t) <==> WantedBy(inputs, |inputs.changedFiles|, t) {
      if WantedBy(inputs, |inputs.changedFiles|, t) {
        var j :| 0 <= j < |inputs.changedFiles| && AsksFor(inputs.testMap, inputs.changedFiles[j], t);
        assert inputs.changedFiles[j] in inputs.changedFiles;
      }
    }
  }

  method UnionOf(inputs: Inputs) returns (r: Result<seq<string>, GlobError>)
    ensures r.Err? <==> ConsultsMap(inputs.changedFiles) && !MapSupported(inputs.testMap)
    ensures r.Ok? ==> Distinct(r.value) && forall t :: t in r.value <==> Wanted(inputs, t)
  {
    var result := [];
    for i := 0 to |inputs.changedFiles|
      invariant Distinct(result)
      invariant forall t :: t in result <==> WantedBy(inputs, i, t)
      invariant MapSupported(inputs.testMap) || !ConsultsMap(inputs.changedFiles[..i])
    {
      var f := inputs.changedFiles[i];
      WantedByNext(inputs, i);
      assert inputs.changedFiles[..i + 1] == inputs.changedFiles[..i] + [f];
      if IsDocPath(f) {
        continue;
      }
      if IsE2ETest(f) {
        result := AddToSet(result, f);
        continue;
      }
      var hits := AddMapHits(inputs.testMap, f, result);
      if hits.Err? {
        assert f in inputs.changedFiles;
        return Err(hits.error);
      }
      result := hits.value;
    }
    assert inputs.changedFiles[..|inputs.changedFiles|] == inputs.changedFiles;
    WantedByAll(inputs);
    return Ok(result);
  }

  method AddMapHits(testMap: TestMap, f: string, before: seq<string>) returns (r: Result<seq<string>, GlobError>)
    requires Distinct(before)
    ensures r.Err? <==> !MapSupported(testMap)
    ensures r.Ok? ==> Distinct(r.value) && forall t :: t in r.value <==> t in before || MapHits(testMap, f, t)
  {
    var result := before;
    for i := 0 to |testMap|
      invariant Distinct(result)
      invariant forall j :: 0 <= j < i ==> Supported(testMap[j].0)
      invariant forall t :: t in result <==> t in before || exists j :: 0 <= j < i && GlobMatches(testMap[j].0, f) && t in testMap[j].1
    {
      var m := MatchGlob(testMap[i].0, f);
      if m.Err? {
        return Err(m.error);
      }
      if m.value {
        result := AddAll(result, testMap[i].1);
      }
    }
    return Ok(result);
  }

  method AddAll(before: seq<string>, tests: seq<string>) returns (r: seq<string>)
    requires Distinct(before)
    ensures Distinct(r) && forall t :: t in r <==> t in before || t in tests
  {
    r := before;
    for i := 0 to |tests|
      invariant Distinct(r)
      invariant forall t :: t in r <==> t in before || t in tests[..i]
    {
      assert tests[..i + 1] == tests[..i] + [tests[i]];
      r := AddToSet(r, tests[i]);
    }
    assert tests[..|tests|] == tests;
  }

  // ---- sorted lists of distinct strings ----

  lemma {:induction false} DistinctMultiset(s: seq<string>)
    requires Distinct(s)
    ensures multiset(s) == multiset(set t | t in s)
  {
    if s != [] {
      var k := |s| - 1;
      DistinctMultiset(s[..k]);
      assert s == s[..k] + [s[k]];
      assert (set t | t in s) == (set t | t in s[..k]) + {s[k]};
    }
  }

  lemma SortDistinct(s: seq<string>)
    requires Distinct(s)
    ensures StrictlySorted(Sort(StringLeq, s)) && forall t :: t in Sort(StringLeq, s) <==> t in s
  {
    var r := Sort(StringLeq, s);
    StringOrder();
    SortSorts(StringLeq, s);
    DistinctMultiset(s);
    forall i, j | 0 <= i < j < |r| ensures StringLeq(r[i], r[j]) && r[i] != r[j] {
      if r[i] == r[j] {
        TwoCopies(r, i, j);
      }
    }
    forall t ensures t in r <==> t in s {
      assert t in multiset(r) <==> t in multiset(s);
    }
  }

  lemma StrictlySortedUnique(a: seq<string>, b: seq<string>)
    requires StrictlySorted(a) && StrictlySorted(b) && forall t :: t in a <==> t in b
    ensures a == b
  {
    StringOrder();
    DistinctMultiset(a);
    DistinctMultiset(b);
    assert (set t | t in a) == (set t | t in b);
    assert TellsApart(StringLeq, a);
    SortedUnique(StringLeq, a, b);
  }

  // ---- properties of the selection ----

  // The case analysis determines the selection (up to which unsupported glob an
  // error names).
  lemma SelectionDetermined(inputs: Inputs, r: Result<seq<string>, GlobError>, r': Result<seq<string>, GlobError>)
    requires Selects(inputs, r) && Selects(inputs, r')
    ensures r == r' || (r.Err? && r'.Err?)
  {
    if r.Ok? && r'.Ok? && IsSortedUnion(inputs, r.value) && IsSortedUnion(inputs, r'.value) {
      StrictlySortedUnique(r.value, r'.value);
    }
  }

  // When there are tests at all, nothing is selected exactly for
  // documentation-only changes.
  lemma NothingSelectedIffDocOnly(inputs: Inputs, r: Result<seq<string>, GlobError>)
    requires Selects(inputs, r) && inputs.allE2ETests != []
    ensures r == Ok([]) <==> ClassOf(inputs.changedFiles) == DocOnly
  {
    assert |Sort(StringLeq, inputs.allE2ETests)| == |inputs.allE2ETests|;
    if ClassOf(inputs.changedFiles) == Src && r.Ok? && IsSortedUnion(inputs, r.value) {
      if t :| Wanted(inputs, t) {
        assert t in r.value;
      }
    }
  }

  predicate RootHatch(p: string) {
    p in ["package.json", "bun.lock", "Dockerfile.ci", "docker-compose.ci.yml"]
  }

  lemma HatchFile(p: string)
    requires p in ESCAPE_HATCH_FILES
    ensures RootHatch(p) || ('/' in p && p[0] != 'd')
  {
    if !RootHatch(p) {
      assert p[3] == '/' || p[4] == '/' || p[7] == '/';
    }
  }

  lemma HatchPrefix(prefix: string)
    requires prefix in ESCAPE_HATCH_PREFIXES
    ensures '/' in prefix && prefix[0] != 'd'
  {
    assert prefix[3] == '/' || prefix[4] == '/' || prefix[6] == '/' || prefix[7] == '/';
  }

  lemma FromPrefix(p: string, prefix: string)
    requires StartsWith(p, prefix) && '/' in prefix
    ensures '/' in p && p[0] == prefix[0]
  {
    var k :| 0 <= k < |prefix| && prefix[k] == '/';
    assert p[k] == prefix[k];
  }

  // Every escape hatch lies in a directory not called docs, or is one of four
  // files at the root.
  lemma HatchShape(p: string)
    requires IsEscapeHatch(p)
    ensures RootHatch(p) || ('/' in p && p[0] != 'd')
  {
    if p in ESCAPE_HATCH_FILES {
      HatchFile(p);
    } else {
      var i :| 0 <= i < |ESCAPE_HATCH_PREFIXES| && StartsWith(p, ESCAPE_HATCH_PREFIXES[i]);
      HatchPrefix(ESCAPE_HATCH_PREFIXES[i]);
      FromPrefix(p, ESCAPE_HATCH_PREFIXES[i]);
    }
  }

  lemma DocsDirectory(p: string)
    requires StartsWith(p, "docs/")
    ensures !RootHatch(p) && '/' in p && p[0] == 'd'
  {
    assert forall k :: 0 <= k < 5 ==> p[k] == "docs/"[k];
    assert p[3] == 's' && p[4] == '/';
  }

  lemma RootMarkdown(p: string)
    requires '/' !in p && EndsWith(p, ".md")
    ensures !RootHatch(p)
  {
    assert p[|p| - 1] == p[|p| - 3..][2] == 'd';
  }

  lemma NamedDocument(p: string)
    requires p in DOC_ROOT_FILES
    ensures !RootHatch(p) && '/' !in p
  {
  }

  lemma DocShape(p: string)
    requires IsDocPath(p)
    ensures !RootHatch(p) && ('/' !in p || p[0] == 'd')
  {
    if StartsWith(p, "docs/") {
      DocsDirectory(p);
    } else if p in DOC_ROOT_FILES {
      NamedDocument(p);
    } else {
      RootMarkdown(p);
    }
  }

  // Documentation never trips the escape hatch.
  lemma DocIsNoEscapeHatch(p: string)
    requires IsDocPath(p)
    ensures !IsEscapeHatch(p)
  {
    DocShape(p);
    if IsEscapeHatch(p) {
      HatchShape(p);
    }
  }

  // Two change sets with the same paths outside documentation, one of them not
  // documentation-only, select the same: order, repetition and documentation
  // never matter to a source change.
  lemma OnlySourcePathsMatter(a: Inputs, b: Inputs, ra: Result<seq<string>, GlobError>, rb: Result<seq<string>, GlobError>)
    requires Selects(a, ra) && Selects(b, rb)
    requires a.allE2ETests == b.allE2ETests && a.testMap == b.testMap
    requires ClassOf(a.changedFiles) == Src
    requires forall f :: !IsDocPath(f) ==> (f in a.changedFiles <==> f in b.changedFiles)
    ensures ra == rb || (ra.Err? && rb.Err?)
  {
    forall f | IsDocPath(f) ensures !IsEscapeHatch(f) {
      DocIsNoEscapeHatch(f);
    }
    assert HitsEscapeHatch(a.changedFiles) <==> HitsEscapeHatch(b.changedFiles);
    forall t ensures Wanted(a, t) <==> Wanted(b, t) {}
    if ra.Ok? && rb.Ok? && IsSortedUnion(a, ra.value) && IsSortedUnion(b, rb.value) {
      StrictlySortedUnique(ra.value, rb.value);
    }
  }

  // The fail-closed fallback, exactly: a source change with no escape hatch and
  // a readable map runs everything by default iff no path asks for a test.
  // So a path the map does not know adds nothing as soon as another path asks
  // for something, although the file's header promises that it selects all.
  lemma UnmappedPathIgnored(inputs: Inputs, f: string, r: Result<seq<string>, GlobError>, r': Result<seq<string>, GlobError>)
    requires !IsDocPath(f) && !IsEscapeHatch(f) && forall t :: !AsksFor(inputs.testMap, f, t)
    requires ClassOf(inputs.changedFiles) == Src && !HitsEscapeHatch(inputs.changedFiles) && MapSupported(inputs.testMap)
    requires Selects(inputs, r) && Selects(inputs.(changedFiles := inputs.changedFiles + [f]), r')
    ensures r' == r
    ensures (forall t :: !Wanted(inputs, t)) ==> r' == Ok(Sort(StringLeq, inputs.allE2ETests))
    ensures (exists t :: Wanted(inputs, t)) ==> r'.Ok? && IsSortedUnion(inputs, r'.value)
  {
    var more := inputs.(changedFiles := inputs.changedFiles + [f]);
    forall t ensures Wanted(inputs, t) <==> Wanted(more, t) {
      if Wanted(inputs, t) {
        var g :| g in inputs.changedFiles && AsksFor(inputs.testMap, g, t);
        assert g in more.changedFiles;
      }
    }
    assert !HitsEscapeHatch(more.changedFiles);
    if r.Ok? && r'.Ok? && IsSortedUnion(inputs, r.value) && IsSortedUnion(more, r'.value) {
      StrictlySortedUnique(r.value, r'.value);
    }
  }

  // What is true of the promise: with an unmapped source path in the change set
  // and a readable map, all tests run exactly when an escape hatch is hit, no path
  // asks for a test, or what the paths ask for happens to be all tests.
  lemma UnmappedForcesAllIff(inputs: Inputs, f: string, r: Result<seq<string>, GlobError>)
    requires f in inputs.changedFiles && !IsDocPath(f) && forall t :: !AsksFor(inputs.testMap, f, t)
    requires MapSupported(inputs.testMap) && Selects(inputs, r)
    ensures var all := Sort(StringLeq, inputs.allE2ETests);
      r == Ok(all) <==>
        || HitsEscapeHatch(inputs.changedFiles)
        || (forall t :: !Wanted(inputs, t))
        || IsSortedUnion(inputs, all)
  {
    assert ClassOf(inputs.changedFiles) == Src;
    if r.Ok? && IsSortedUnion(inputs, r.value) && IsSortedUnion(inputs, Sort(StringLeq, inputs.allE2ETests)) {
      StrictlySortedUnique(r.value, Sort(StringLeq, inputs.allE2ETests));
    }
  }

  // Nor does the selection grow with the change set: an unmapped path alone
  // runs everything, together with a mapped one only what that one asks for.
  lemma SelectionCanShrink(inputs: Inputs, f: string, g: string, alone: Result<seq<string>, GlobError>, both: Result<seq<string>, GlobError>)
    requires !IsDocPath(f) && !IsEscapeHatch(f) && forall t :: !AsksFor(inputs.testMap, f, t)
    requires !IsEscapeHatch(g) && (exists t :: AsksFor(inputs.testMap, g, t)) && MapSupported(inputs.testMap)
    requires Selects(inputs.(changedFiles := [f]), alone) && Selects(inputs.(changedFiles := [f, g]), both)
    ensures alone == Ok(Sort(StringLeq, inputs.allE2ETests))
    ensures both.Ok? && forall t :: t in both.value <==> AsksFor(inputs.testMap, g, t)
  {
    var one, two := inputs.(changedFiles := [f]), inputs.(changedFiles := [f, g]);
    forall t ensures !Wanted(one, t) && (Wanted(two, t) <==> AsksFor(inputs.testMap, g, t)) {
      if AsksFor(inputs.testMap, g, t) {
        assert g in two.changedFiles;
      }
    }
    assert f in one.changedFiles && f in two.changedFiles;
    var t :| AsksFor(inputs.testMap, g, t);
    assert Wanted(two, t);
  }

  // ---- the lists, by what they make happen ----

  ghost predicate IsHatch(p: string) {
    || p == "src/schema.sql" || p == "src/core/migrate.ts" || p == "src/core/db.ts" || p == "src/core/engine-factory.ts"
    || p == "src/core/operations.ts" || p == "package.json" || p == "bun.lock" || p == "Dockerfile.ci"
    || p == "docker-compose.ci.yml" || p == "scripts/ci-local.sh" || p == "scripts/run-e2e.sh" || p == "scripts/select-e2e.ts"
    || p == "scripts/e2e-test-map.ts" || p == "test/e2e/helpers.ts"
    || "src/commands/migrations/" <= p || "test/e2e/fixtures/" <= p || "skills/" <= p || ".github/workflows/" <= p
  }

  lemma HatchIff(p: string)
    ensures IsEscapeHatch(p) <==> IsHatch(p)
  {
    var ps := ESCAPE_HATCH_PREFIXES;
    assert |ps| == 4;
    assert ps[0] == "src/commands/migrations/" && ps[1] == "test/e2e/fixtures/" && ps[2] == "skills/" && ps[3] == ".github/workflows/";
    assert (exists i :: 0 <= i < |ps| && StartsWith(p, ps[i])) <==>
      StartsWith(p, ps[0]) || StartsWith(p, ps[1]) || StartsWith(p, ps[2]) || StartsWith(p, ps[3]);
  }

  ghost predicate IsDocument(p: string) {
    || p == "LICENSE" || p == "VERSION" || "docs/" <= p
    || ('/' !in p && exists stem :: p == stem + ".md")
  }

  lemma EndsWithIff(p: string, suffix: string)
    ensures EndsWith(p, suffix) <==> exists stem :: p == stem + suffix
  {
    if EndsWith(p, suffix) {
      assert p == p[..|p| - |suffix|] + suffix;
    }
    if stem :| p == stem + suffix {
      assert p[|p| - |suffix|..] == suffix;
    }
  }

  lemma NamedMarkdown(p: string)
    requires p in DOC_ROOT_FILES && p != "LICENSE" && p != "VERSION"
    ensures '/' !in p && EndsWith(p, ".md")
  {
  }

  lemma DocumentIff(p: string)
    ensures IsDocPath(p) <==> IsDocument(p)
  {
    EndsWithIff(p, ".md");
    if p in DOC_ROOT_FILES && p != "LICENSE" && p != "VERSION" {
      NamedMarkdown(p);
    }
  }

  // Only documentation changed: nothing runs. A source change that touches the
  // schema, the migrations, the build or the test fixtures runs everything.
  lemma ListsDecide(inputs: Inputs, r: Result<seq<string>, GlobError>)
    requires Selects(inputs, r)
    ensures inputs.changedFiles != [] && (forall f :: f in inputs.changedFiles ==> IsDocument(f)) ==> r == Ok([])
    ensures (exists f :: f in inputs.changedFiles && IsHatch(f)) ==> r == Ok(Sort(StringLeq, inputs.allE2ETests))
  {
    forall f ensures IsEscapeHatch(f) <==> IsHatch(f) {
      HatchIff(f);
    }
    forall f ensures IsDocPath(f) <==> IsDocument(f) {
      DocumentIff(f);
    }
    if f :| f in inputs.changedFiles && IsHatch(f) {
      assert IsEscapeHatch(f);
      if IsDocPath(f) {
        DocIsNoEscapeHatch(f);
      }
    }
  }

  lemma TestFileIff(f: string)
    ensures IsE2ETest(f) <==> exists stem :: f == "test/e2e/" + stem + ".test.ts"
  {
    if IsE2ETest(f) {
      assert f[8] == '/' && |f| >= 9 + 8;
      assert f == "test/e2e/" + f[9..|f| - 8] + ".test.ts";
    }
    if stem :| f == "test/e2e/" + stem + ".test.ts" {
      assert f[|f| - 8..] == ".test.ts";
    }
  }

  lemma TestParts(f: string, stem: string)
    requires f == "test/e2e/" + stem + ".test.ts"
    ensures |f| >= 17 && f[0] == 't' && '/' in f && f[|f| - 8] == '.' && f[9..] == stem + ".test.ts"
  {
    assert f[4] == '/';
    assert f[|f| - 8..] == ".test.ts";
  }

  lemma NoTestHatch(f: string)
    requires |f| >= 17 && f[0] == 't' && f[|f| - 8] == '.'
    ensures IsHatch(f) ==> "test/e2e/fixtures/" <= f
  {
    assert "src/commands/migrations/"[0] == 's' && "skills/"[0] == 's' && ".github/workflows/"[0] == '.';
    assert |"test/e2e/helpers.ts"| == 19 && "test/e2e/helpers.ts"[11] == 'l';
  }

  lemma FixturesTail(f: string, tail: string)
    requires f == "test/e2e/" + tail
    ensures "test/e2e/fixtures/" <= f <==> "fixtures/" <= tail
  {
    assert "test/e2e/fixtures/" == "test/e2e/" + "fixtures/";
    assert f[9..] == tail;
    if "test/e2e/fixtures/" <= f {
      assert f[9..18] == "fixtures/";
    }
  }

  lemma TestIsSource(f: string, stem: string)
    requires f == "test/e2e/" + stem + ".test.ts" && !("fixtures/" <= stem + ".test.ts")
    ensures !IsDocPath(f) && !IsEscapeHatch(f)
  {
    TestParts(f, stem);
    assert f == "test/e2e/" + (stem + ".test.ts");
    HatchIff(f);
    NoTestHatch(f);
    FixturesTail(f, stem + ".test.ts");
    if IsDocPath(f) {
      DocShape(f);
    }
  }

  ghost predicate PlainTest(inputs: Inputs, f: string) {
    inputs.changedFiles == [f] && IsE2ETest(f) && !IsDocPath(f) && !IsEscapeHatch(f)
  }

  lemma OnlyItself(inputs: Inputs, f: string, r: Result<seq<string>, GlobError>)
    requires PlainTest(inputs, f) && Selects(inputs, r)
    ensures r == Ok([f])
  {
    assert f in inputs.changedFiles;
    assert AsksFor(inputs.testMap, f, f) && Wanted(inputs, f);
    forall t | Wanted(inputs, t) ensures t == f {
      var g :| g in inputs.changedFiles && AsksFor(inputs.testMap, g, t);
    }
    assert StrictlySorted([f]);
    assert r.Ok? && IsSortedUnion(inputs, r.value);
    StrictlySortedUnique(r.value, [f]);
  }

  // A changed test file outside the fixtures, alone, selects itself.
  lemma ChangedTestSelectsItself(inputs: Inputs, f: string, stem: string, r: Result<seq<string>, GlobError>)
    requires f == "test/e2e/" + stem + ".test.ts" && !("fixtures/" <= stem + ".test.ts")
    requires inputs.changedFiles == [f] && Selects(inputs, r)
    ensures r == Ok([f])
  {
    TestFileIff(f);
    TestIsSource(f, stem);
    OnlyItself(inputs, f, r);
  }
}
