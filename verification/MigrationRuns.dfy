// The migration ledger over append histories, and over repeated runs.
module MigrationRuns {
  import opened Wrappers
  import opened Collections
  import opened Migrations

  // ---- what a history of entries means ----

  lemma {:induction false} TrailingAtLeast(es: seq<Entry>, n: nat)
    ensures TrailingPartials(es) >= n <==> n <= |es| && forall i :: |es| - n <= i < |es| ==> es[i].status == Partial
  {
    if es != [] && es[|es| - 1].status == Partial && n > 0 {
      TrailingAtLeast(es[..|es| - 1], n - 1);
    }
  }

  // Wedged: never completed, and the last three entries are partial.
  lemma WedgedExactly(es: seq<Entry>)
    ensures StatusOf(es) == Wedged <==>
      !Has(es, Complete) && |es| >= 3 && forall i :: |es| - 3 <= i < |es| ==> es[i].status == Partial
  {
    TrailingAtLeast(es, 3);
    if |es| >= 3 && forall i :: |es| - 3 <= i < |es| ==> es[i].status == Partial {
      assert es[|es| - 1].status == Partial;
    }
  }

  // A completed version stays completed whatever is appended, retries apart.
  lemma CompleteSurvives(es: seq<Entry>, more: seq<Entry>)
    requires StatusOf(es) == Applied && !Has(more, Retry)
    ensures StatusOf(es + more) == Applied
  {
    var all := es + more;
    var i :| 0 <= i < |es| && es[i].status == Complete;
    assert all[i].status == Complete;
    if more != [] {
      assert all[|all| - 1] == more[|more| - 1];
    } else {
      assert all == es;
    }
  }

  // One retry reopens any history.
  lemma RetryReopens(es: seq<Entry>, version: string)
    ensures StatusOf(es + [Entry(version, Retry)]) == Pending
  {
  }

  // On a version once completed, a retry buys exactly one attempt: the next
  // entry of whatever outcome makes it applied again.
  lemma RetryBuysOneAttempt(es: seq<Entry>, version: string, outcome: Mark)
    requires Has(es, Complete) && outcome != Retry
    ensures StatusOf(es + [Entry(version, Retry)]) == Pending
    ensures StatusOf(es + [Entry(version, Retry)] + [Entry(version, outcome)]) == Applied
  {
    var all := es + [Entry(version, Retry)] + [Entry(version, outcome)];
    var i :| 0 <= i < |es| && es[i].status == Complete;
    assert all[i].status == Complete;
  }

  // ---- one append ----

  lemma EntriesAfterAppend(ledger: seq<Entry>, e: Entry, v: string)
    ensures var after := EntriesOf(Append(ledger, e), v);
      || after == EntriesOf(ledger, v) + (if e.version == v then [e] else [])
      || (e.version == v && e.status == Complete && after == EntriesOf(ledger, v) && StatusOf(after) == Applied)
  {
    var prior := EntriesOf(ledger, e.version);
    if Append(ledger, e) == ledger + [e] {
      assert (ledger + [e])[..|ledger|] == ledger;
    } else {
      assert prior[|prior| - 1].status == Complete;
    }
  }

  // ---- --force-orchestrator changes exactly the wedged versions ----

  lemma RetryEntry(ledger: seq<Entry>, w: string, v: string)
    ensures EntriesOf(Append(ledger, Entry(w, Retry)), v) == EntriesOf(ledger, v) + if w == v then [Entry(w, Retry)] else []
  {
    assert (ledger + [Entry(w, Retry)])[..|ledger|] == ledger;
  }

  ghost function RetryFor(before: seq<Entry>, registry: seq<string>, v: string): seq<Entry> {
    if v in registry && StatusOf(EntriesOf(before, v)) == Wedged then [Entry(v, Retry)] else []
  }

  lemma RetryForNext(before: seq<Entry>, registry: seq<string>, v: string)
    requires registry != [] && Distinct(registry)
    ensures var k := |registry| - 1;
      RetryFor(before, registry, v) == RetryFor(before, registry[..k], v)
        + if registry[k] == v && StatusOf(EntriesOf(before, v)) == Wedged then [Entry(v, Retry)] else []
  {
    var k := |registry| - 1;
    assert registry == registry[..k] + [registry[k]];
    assert registry[k] !in registry[..k];
  }

  lemma {:induction false} RetryWedgedEntries(ledger: seq<Entry>, before: seq<Entry>, registry: seq<string>, v: string)
    requires Distinct(registry)
    ensures EntriesOf(RetryWedged(ledger, before, registry), v) == EntriesOf(ledger, v) + RetryFor(before, registry, v)
  {
    if registry != [] {
      var k := |registry| - 1;
      RetryWedgedEntries(ledger, before, registry[..k], v);
      RetryForNext(before, registry, v);
      RetryEntry(RetryWedged(ledger, before, registry[..k]), registry[k], v);
    }
  }

  lemma ForceOrchestratorExact(ledger: seq<Entry>, registry: seq<string>, v: string)
    requires Distinct(registry)
    ensures var was := StatusOf(EntriesOf(ledger, v));
      StatusOf(EntriesOf(RetryWedged(ledger, ledger, registry), v)) ==
        if v in registry && was == Wedged then Pending else was
  {
    RetryWedgedEntries(ledger, ledger, registry, v);
    RetryReopens(EntriesOf(ledger, v), v);
    assert EntriesOf(ledger, v) + [] == EntriesOf(ledger, v);
  }

  // ---- quiescence ----

  predicate Open(ledger: seq<Entry>, isFuture: string -> bool, v: string) {
    CategoryOf(ledger, isFuture, v) == Now(Pending) || CategoryOf(ledger, isFuture, v) == Now(Resumable)
  }

  // How many more partial outcomes an open version can take before it wedges.
  function Budget(ledger: seq<Entry>, isFuture: string -> bool, v: string): nat {
    if Open(ledger, isFuture, v) && TrailingPartials(EntriesOf(ledger, v)) <= MAX_CONSECUTIVE_PARTIALS
    then MAX_CONSECUTIVE_PARTIALS - TrailingPartials(EntriesOf(ledger, v)) else 0
  }

  function BudgetOf(ledger: seq<Entry>, isFuture: string -> bool): string -> nat {
    (v: string) => Budget(ledger, isFuture, v)
  }

  function SumOver(f: string -> nat, versions: seq<string>): nat {
    if versions == [] then 0 else SumOver(f, versions[..|versions| - 1]) + f(versions[|versions| - 1])
  }

  function TotalBudget(ledger: seq<Entry>, isFuture: string -> bool, registry: seq<string>): nat {
    SumOver(BudgetOf(ledger, isFuture), registry)
  }

  lemma {:induction false} SumOfOneChange(f: string -> nat, g: string -> nat, versions: seq<string>, v: string)
    requires (forall w :: w != v ==> g(w) == f(w)) && g(v) < f(v)
    ensures SumOver(g, versions) <= SumOver(f, versions)
    ensures v in versions ==> SumOver(g, versions) < SumOver(f, versions)
  {
    if versions != [] {
      var k := |versions| - 1;
      SumOfOneChange(f, g, versions[..k], v);
      assert versions == versions[..k] + [versions[k]];
    }
  }

  lemma {:induction false} SumAtMost(f: string -> nat, versions: seq<string>, most: nat)
    requires forall v :: f(v) <= most
    ensures SumOver(f, versions) <= most * |versions|
  {
    if versions != [] {
      SumAtMost(f, versions[..|versions| - 1], most);
      assert most * |versions| == most * (|versions| - 1) + most;
    }
  }

  lemma {:induction false} SumCounts(f: string -> nat, versions: seq<string>, v: string)
    requires v in versions
    ensures SumOver(f, versions) >= f(v)
  {
    var k := |versions| - 1;
    if versions[k] != v {
      assert v in versions[..k];
      SumCounts(f, versions[..k], v);
    }
  }

  lemma OpenHasBudget(ledger: seq<Entry>, isFuture: string -> bool, v: string)
    requires Open(ledger, isFuture, v)
    ensures Budget(ledger, isFuture, v) > 0
  {
  }

  lemma HasAppend(es: seq<Entry>, e: Entry, mark: Mark)
    ensures Has(es + [e], mark) <==> Has(es, mark) || e.status == mark
  {
    var all := es + [e];
    if Has(es, mark) {
      var i :| 0 <= i < |es| && es[i].status == mark;
      assert all[i].status == mark;
    }
    if e.status == mark {
      assert all[|es|].status == mark;
    }
  }

  lemma PartialSpends(es: seq<Entry>, e: Entry)
    requires e.status == Partial
    ensures TrailingPartials(es + [e]) == TrailingPartials(es) + 1
  {
    assert (es + [e])[..|es|] == es;
  }

  // A recorded attempt completes the version or adds to its trailing partials.
  lemma AttemptRecorded(ledger: seq<Entry>, v: string, mark: Mark)
    requires mark == Complete || mark == Partial
    ensures var es, after := EntriesOf(ledger, v), EntriesOf(Append(ledger, Entry(v, mark)), v);
      || StatusOf(after) == Applied
      || (mark == Partial && after == es + [Entry(v, mark)] && TrailingPartials(after) == TrailingPartials(es) + 1)
  {
    var es, e := EntriesOf(ledger, v), Entry(v, mark);
    EntriesAfterAppend(ledger, e, v);
    HasAppend(es, e, Complete);
    if mark == Partial {
      PartialSpends(es, e);
    }
  }

  lemma BudgetGone(ledger: seq<Entry>, isFuture: string -> bool, v: string)
    requires StatusOf(EntriesOf(ledger, v)) == Applied
    ensures Budget(ledger, isFuture, v) == 0
  {
  }

  lemma BudgetLess(before: seq<Entry>, after: seq<Entry>, isFuture: string -> bool, v: string)
    requires Open(before, isFuture, v)
    requires TrailingPartials(EntriesOf(after, v)) == TrailingPartials(EntriesOf(before, v)) + 1
    ensures Budget(after, isFuture, v) < Budget(before, isFuture, v)
  {
  }

  // An attempt that is recorded uses up budget of its own version only.
  lemma AttemptSpends(ledger: seq<Entry>, isFuture: string -> bool, v: string, mark: Mark)
    requires Open(ledger, isFuture, v) && (mark == Complete || mark == Partial)
    ensures Budget(Append(ledger, Entry(v, mark)), isFuture, v) < Budget(ledger, isFuture, v)
  {
    var after := Append(ledger, Entry(v, mark));
    OpenHasBudget(ledger, isFuture, v);
    AttemptRecorded(ledger, v, mark);
    if StatusOf(EntriesOf(after, v)) == Applied {
      BudgetGone(after, isFuture, v);
    } else {
      BudgetLess(ledger, after, isFuture, v);
    }
  }

  lemma OthersUntouched(ledger: seq<Entry>, isFuture: string -> bool, e: Entry, other: string)
    requires other != e.version
    ensures EntriesOf(Append(ledger, e), other) == EntriesOf(ledger, other)
    ensures Budget(Append(ledger, e), isFuture, other) == Budget(ledger, isFuture, other)
  {
    EntriesAfterAppend(ledger, e, other);
  }

  lemma TotalOfOneChange(before: seq<Entry>, after: seq<Entry>, isFuture: string -> bool, registry: seq<string>, v: string)
    requires forall w :: w != v ==> Budget(after, isFuture, w) == Budget(before, isFuture, w)
    requires Budget(after, isFuture, v) < Budget(before, isFuture, v)
    ensures TotalBudget(after, isFuture, registry) <= TotalBudget(before, isFuture, registry)
    ensures v in registry ==> TotalBudget(after, isFuture, registry) < TotalBudget(before, isFuture, registry)
  {
    SumOfOneChange(BudgetOf(before, isFuture), BudgetOf(after, isFuture), registry, v);
  }

  ghost predicate AllRecorded(attempt: string -> Attempt) {
    forall v :: attempt(v).persisted
  }

  ghost predicate OpenList(ledger: seq<Entry>, isFuture: string -> bool, registry: seq<string>, toRun: seq<string>) {
    && Distinct(toRun)
    && (forall i :: 0 <= i < |toRun| ==> toRun[i] in registry && Open(ledger, isFuture, toRun[i]))
  }

  lemma FirstAttempt(ledger: seq<Entry>, isFuture: string -> bool, registry: seq<string>, toRun: seq<string>, mark: Mark)
    requires toRun != [] && OpenList(ledger, isFuture, registry, toRun) && (mark == Complete || mark == Partial)
    ensures var after := Append(ledger, Entry(toRun[0], mark));
      && TotalBudget(after, isFuture, registry) < TotalBudget(ledger, isFuture, registry)
      && OpenList(after, isFuture, registry, toRun[1..])
  {
    var v := toRun[0];
    var after := Append(ledger, Entry(v, mark));
    forall w | w != v ensures EntriesOf(after, w) == EntriesOf(ledger, w) && Budget(after, isFuture, w) == Budget(ledger, isFuture, w) {
      OthersUntouched(ledger, isFuture, Entry(v, mark), w);
    }
    AttemptSpends(ledger, isFuture, v, mark);
    TotalOfOneChange(ledger, after, isFuture, registry, v);
    forall i | 1 <= i < |toRun| ensures Open(after, isFuture, toRun[i]) {
      assert toRun[0] != toRun[i];
      assert EntriesOf(after, toRun[i]) == EntriesOf(ledger, toRun[i]);
    }
  }

  // A run with something to do uses up budget, whatever the orchestrators
  // return or throw.
  lemma {:induction false} RunSpends(ledger: seq<Entry>, isFuture: string -> bool, registry: seq<string>, toRun: seq<string>, attempt: string -> Attempt)
    requires OpenList(ledger, isFuture, registry, toRun) && AllRecorded(attempt)
    ensures var after := RunAll(ledger, toRun, attempt).ledger;
      && TotalBudget(after, isFuture, registry) <= TotalBudget(ledger, isFuture, registry)
      && (toRun != [] ==> TotalBudget(after, isFuture, registry) < TotalBudget(ledger, isFuture, registry))
    decreases |toRun|
  {
    if toRun != [] {
      var a := attempt(toRun[0]);
      FirstAttempt(ledger, isFuture, registry, toRun, MarkOf(a.outcome));
      if !Stops(a) {
        RunSpends(Append(ledger, Entry(toRun[0], MarkOf(a.outcome))), isFuture, registry, toRun[1..], attempt);
      }
    }
  }

  lemma {:induction false} CategoryMembers(ledger: seq<Entry>, registry: seq<string>, isFuture: string -> bool, filter: Option<string>, c: Category)
    ensures forall v :: v in InCategory(ledger, registry, isFuture, filter, c) <==>
      v in registry && Selected(filter, v) && CategoryOf(ledger, isFuture, v) == c
  {
    if registry != [] {
      var k := |registry| - 1;
      CategoryMembers(ledger, registry[..k], isFuture, filter, c);
      assert registry == registry[..k] + [registry[k]];
    }
  }

  lemma {:induction false} CategoryDistinct(ledger: seq<Entry>, registry: seq<string>, isFuture: string -> bool, filter: Option<string>, c: Category)
    requires Distinct(registry)
    ensures Distinct(InCategory(ledger, registry, isFuture, filter, c))
  {
    if registry != [] {
      var k := |registry| - 1;
      CategoryDistinct(ledger, registry[..k], isFuture, filter, c);
      CategoryMembers(ledger, registry[..k], isFuture, filter, c);
      var before := InCategory(ledger, registry[..k], isFuture, filter, c);
      forall i | 0 <= i < |before| ensures before[i] != registry[k] {
        assert before[i] in before;
      }
    }
  }

  lemma DistinctConcat(a: seq<string>, b: seq<string>)
    requires Distinct(a) && Distinct(b) && forall v :: v in a ==> v !in b
    ensures Distinct(a + b)
  {
    forall i, j | 0 <= i < |a| && 0 <= j < |b| ensures a[i] != b[j] {
      assert a[i] in a && b[j] in b;
    }
  }

  lemma PlannedIsOpen(ledger: seq<Entry>, registry: seq<string>, isFuture: string -> bool, filter: Option<string>)
    requires Distinct(registry)
    ensures OpenList(ledger, isFuture, registry, ToRun(PlanOf(ledger, registry, isFuture, filter)))
    ensures forall v :: v in ToRun(PlanOf(ledger, registry, isFuture, filter)) <==>
      v in registry && Selected(filter, v) && Open(ledger, isFuture, v)
  {
    var plan := PlanOf(ledger, registry, isFuture, filter);
    CategoryMembers(ledger, registry, isFuture, filter, Now(Resumable));
    CategoryMembers(ledger, registry, isFuture, filter, Now(Pending));
    CategoryDistinct(ledger, registry, isFuture, filter, Now(Resumable));
    CategoryDistinct(ledger, registry, isFuture, filter, Now(Pending));
    DistinctConcat(plan.partial, plan.pending);
    var toRun := ToRun(plan);
    forall i | 0 <= i < |toRun| ensures toRun[i] in registry && Open(ledger, isFuture, toRun[i]) {
      assert toRun[i] in plan.partial || toRun[i] in plan.pending;
    }
  }

  // ---- what a run records ----

  // After this attempt the run goes no further.
  ghost predicate Ends(a: Attempt) {
    a.outcome == ReturnsFailed || a.outcome == Throws || !a.persisted
  }

  // What an attempt leaves in the ledger for its version: nothing if it could not
  // be written, a completed version if the orchestrator completed, and otherwise
  // the old entries and one partial.
  ghost predicate Recorded(before: seq<Entry>, after: seq<Entry>, v: string, a: Attempt) {
    var was, now := EntriesOf(before, v), EntriesOf(after, v);
    if !a.persisted then now == was
    else if a.outcome == ReturnsComplete then
      (now == was || now == was + [Entry(v, Complete)]) && now != [] && now[|now| - 1].status == Complete && StatusOf(now) == Applied
    else now == was + [Entry(v, Partial)]
  }

  ghost predicate SameFor(before: seq<Entry>, after: seq<Entry>, v: string) {
    EntriesOf(after, v) == EntriesOf(before, v)
  }

  lemma EndsWithComplete(es: seq<Entry>)
    requires es != [] && es[|es| - 1].status == Complete
    ensures StatusOf(es) == Applied
  {
    assert Has(es, Complete);
  }

  lemma AppendAt(ledger: seq<Entry>, e: Entry)
    ensures var was, now := EntriesOf(ledger, e.version), EntriesOf(Append(ledger, e), e.version);
      if e.status == Complete && was != [] && was[|was| - 1].status == Complete then now == was else now == was + [e]
  {
    assert (ledger + [e])[..|ledger|] == ledger;
  }

  // The ledger after the first attempt of a run.
  lemma FirstRecorded(ledger: seq<Entry>, toRun: seq<string>, attempt: string -> Attempt) returns (after: seq<Entry>)
    requires toRun != []
    ensures Recorded(ledger, after, toRun[0], attempt(toRun[0]))
    ensures forall v :: v != toRun[0] ==> SameFor(ledger, after, v)
    ensures RunAll(ledger, toRun, attempt) ==
      if Ends(attempt(toRun[0])) then RunResult(after, true) else RunAll(after, toRun[1..], attempt)
  {
    var a := attempt(toRun[0]);
    var e := Entry(toRun[0], MarkOf(a.outcome));
    after := if a.persisted then Append(ledger, e) else ledger;
    AppendAt(ledger, e);
    var now := EntriesOf(after, toRun[0]);
    if a.persisted && a.outcome == ReturnsComplete {
      EndsWithComplete(now);
    }
    forall v | v != toRun[0] ensures SameFor(ledger, after, v) {
      if a.persisted {
        EntriesAfterAppend(ledger, e, v);
      }
    }
  }

  // The attempts made: those of a prefix of the list that stops at the first one
  // that ends the run.
  ghost predicate Attempted(toRun: seq<string>, attempt: string -> Attempt, n: nat, failed: bool) {
    && n <= |toRun|
    && (forall i :: 0 <= i < n - 1 ==> !Ends(attempt(toRun[i])))
    && (if failed then n > 0 && Ends(attempt(toRun[n - 1])) else n == |toRun| && (n > 0 ==> !Ends(attempt(toRun[n - 1]))))
  }

  lemma AttemptedMore(toRun: seq<string>, attempt: string -> Attempt, n: nat, failed: bool)
    requires toRun != [] && !Ends(attempt(toRun[0])) && Attempted(toRun[1..], attempt, n, failed)
    ensures Attempted(toRun, attempt, n + 1, failed)
  {
    var rest := toRun[1..];
    forall i | 0 <= i < n ensures !Ends(attempt(toRun[i])) || (failed && i == n) {
      if i > 0 {
        assert toRun[i] == rest[i - 1];
      }
    }
    assert n > 0 ==> rest[n - 1] == toRun[n];
  }

  ghost predicate AllRecordedUpTo(before: seq<Entry>, after: seq<Entry>, toRun: seq<string>, attempt: string -> Attempt, n: nat)
    requires n <= |toRun|
  {
    && (forall i :: 0 <= i < n ==> Recorded(before, after, toRun[i], attempt(toRun[i])))
    && (forall v :: v !in toRun[..n] ==> SameFor(before, after, v))
  }

  lemma RecordedMore(before: seq<Entry>, middle: seq<Entry>, after: seq<Entry>, toRun: seq<string>, attempt: string -> Attempt, n: nat)
    requires toRun != [] && Distinct(toRun) && n < |toRun|
    requires Recorded(before, middle, toRun[0], attempt(toRun[0])) && forall v :: v != toRun[0] ==> SameFor(before, middle, v)
    requires AllRecordedUpTo(middle, after, toRun[1..], attempt, n)
    ensures AllRecordedUpTo(before, after, toRun, attempt, n + 1)
  {
    var rest := toRun[1..];
    assert toRun[..n + 1] == [toRun[0]] + rest[..n];
    forall i | 0 <= i < n + 1 ensures Recorded(before, after, toRun[i], attempt(toRun[i])) {
      if i == 0 {
        assert toRun[0] !in rest[..n];
        assert SameFor(middle, after, toRun[0]);
      } else {
        assert rest[i - 1] == toRun[i];
        assert SameFor(before, middle, toRun[i]);
      }
    }
    forall v | v !in toRun[..n + 1] ensures SameFor(before, after, v) {
      assert v != toRun[0] && v !in rest[..n];
      assert SameFor(before, middle, v) && SameFor(middle, after, v);
    }
  }

  // Over a whole run: each attempted version is recorded by its outcome, all
  // others keep their entries, and the run fails exactly when some attempt ends it.
  lemma {:induction false} RunRecords(ledger: seq<Entry>, toRun: seq<string>, attempt: string -> Attempt) returns (n: nat)
    requires Distinct(toRun)
    ensures var r := RunAll(ledger, toRun, attempt);
      && Attempted(toRun, attempt, n, r.failed)
      && AllRecordedUpTo(ledger, r.ledger, toRun, attempt, n)
    decreases |toRun|
  {
    if toRun == [] {
      n := 0;
    } else {
      var after := FirstRecorded(ledger, toRun, attempt);
      if Ends(attempt(toRun[0])) {
        n := 1;
        assert toRun[..1] == [toRun[0]];
      } else {
        n := RunRecords(after, toRun[1..], attempt);
        AttemptedMore(toRun, attempt, n, RunAll(ledger, toRun, attempt).failed);
        RecordedMore(ledger, after, RunAll(ledger, toRun, attempt).ledger, toRun, attempt, n);
        n := n + 1;
      }
    }
  }

  // The run fails iff one of the migrations it comes to fails, throws or cannot
  // be recorded.
  lemma FailsIff(ledger: seq<Entry>, toRun: seq<string>, attempt: string -> Attempt)
    requires Distinct(toRun)
    ensures RunAll(ledger, toRun, attempt).failed <==> exists i :: 0 <= i < |toRun| && Ends(attempt(toRun[i]))
  {
    var n := RunRecords(ledger, toRun, attempt);
    if i :| 0 <= i < |toRun| && Ends(attempt(toRun[i])) {
      assert RunAll(ledger, toRun, attempt).failed;
    }
  }

  // Who is in which list of the plan.
  lemma PlanExactly(ledger: seq<Entry>, registry: seq<string>, isFuture: string -> bool, filter: Option<string>, v: string)
    ensures var plan := PlanOf(ledger, registry, isFuture, filter);
      var named := v in registry && (filter == None || filter == Some("") || filter == Some(v));
      && (v in plan.skippedFuture <==> named && isFuture(v))
      && (v in plan.applied <==> named && !isFuture(v) && StatusOf(EntriesOf(ledger, v)) == Applied)
      && (v in plan.wedged <==> named && !isFuture(v) && StatusOf(EntriesOf(ledger, v)) == Wedged)
      && (v in ToRun(plan) <==> named && !isFuture(v) && StatusOf(EntriesOf(ledger, v)) in {Resumable, Pending})
  {
    CategoryMembers(ledger, registry, isFuture, filter, Future);
    CategoryMembers(ledger, registry, isFuture, filter, Now(Applied));
    CategoryMembers(ledger, registry, isFuture, filter, Now(Wedged));
    CategoryMembers(ledger, registry, isFuture, filter, Now(Resumable));
    CategoryMembers(ledger, registry, isFuture, filter, Now(Pending));
  }

  // ---- the order of a run ----

  // What a run in registry order would attempt.
  function OpenInOrder(ledger: seq<Entry>, registry: seq<string>, isFuture: string -> bool, filter: Option<string>): seq<string> {
    if registry == [] then []
    else
      var k := |registry| - 1;
      OpenInOrder(ledger, registry[..k], isFuture, filter)
        + if Selected(filter, registry[k]) && Open(ledger, isFuture, registry[k]) then [registry[k]] else []
  }

  ghost predicate IsAt(ledger: seq<Entry>, registry: seq<string>, isFuture: string -> bool, filter: Option<string>, i: int, s: Status) {
    0 <= i < |registry| && Selected(filter, registry[i]) && CategoryOf(ledger, isFuture, registry[i]) == Now(s)
  }

  ghost predicate PendingBeforePartial(ledger: seq<Entry>, registry: seq<string>, isFuture: string -> bool, filter: Option<string>) {
    exists i, j :: i < j && IsAt(ledger, registry, isFuture, filter, i, Pending) && IsAt(ledger, registry, isFuture, filter, j, Resumable)
  }

  lemma NextIsAt(ledger: seq<Entry>, registry: seq<string>, isFuture: string -> bool, filter: Option<string>)
    requires registry != []
    ensures forall i, s :: IsAt(ledger, registry, isFuture, filter, i, s) <==>
      || IsAt(ledger, registry[..|registry| - 1], isFuture, filter, i, s)
      || (i == |registry| - 1 && IsAt(ledger, registry, isFuture, filter, i, s))
  {
  }

  lemma SomeIsAt(ledger: seq<Entry>, registry: seq<string>, isFuture: string -> bool, filter: Option<string>, s: Status)
    ensures InCategory(ledger, registry, isFuture, filter, Now(s)) != [] <==> exists i :: IsAt(ledger, registry, isFuture, filter, i, s)
  {
    CategoryMembers(ledger, registry, isFuture, filter, Now(s));
    var some := InCategory(ledger, registry, isFuture, filter, Now(s));
    if some != [] {
      var v := FirstMember(some);
      var i :| 0 <= i < |registry| && registry[i] == v;
      assert IsAt(ledger, registry, isFuture, filter, i, s);
    }
    if i :| IsAt(ledger, registry, isFuture, filter, i, s) {
      assert registry[i] in some;
    }
  }

  // Appending to either list, seen from the joined list.
  lemma JoinedLists(partial: seq<string>, pending: seq<string>, inOrder: seq<string>, v: string)
    ensures partial + (pending + [v]) == inOrder + [v] <==> partial + pending == inOrder
    ensures pending == [] ==> (partial + [v] + pending == inOrder + [v] <==> partial + pending == inOrder)
    ensures pending != [] && pending[|pending| - 1] != v ==> partial + [v] + pending != inOrder + [v]
  {
    assert partial + (pending + [v]) == (partial + pending) + [v];
    var a, b := partial + pending, inOrder;
    if a + [v] == b + [v] {
      assert (a + [v])[..|a|] == a && (b + [v])[..|b|] == b;
    }
    if pending == [] {
      assert partial + [v] + pending == a + [v];
    } else if partial + [v] + pending == inOrder + [v] {
      assert (partial + [v] + pending)[|partial| + |pending|] == pending[|pending| - 1];
      assert (inOrder + [v])[|inOrder|] == v;
    }
  }

  lemma NothingBefore(ledger: seq<Entry>, registry: seq<string>, isFuture: string -> bool, filter: Option<string>)
    requires registry != []
    ensures PendingBeforePartial(ledger, registry, isFuture, filter) <==>
      || PendingBeforePartial(ledger, registry[..|registry| - 1], isFuture, filter)
      || (IsAt(ledger, registry, isFuture, filter, |registry| - 1, Resumable)
          && InCategory(ledger, registry[..|registry| - 1], isFuture, filter, Now(Pending)) != [])
  {
    var k := |registry| - 1;
    var before := registry[..k];
    NextIsAt(ledger, registry, isFuture, filter);
    SomeIsAt(ledger, before, isFuture, filter, Pending);
    if PendingBeforePartial(ledger, registry, isFuture, filter) {
      var i, j :| i < j && IsAt(ledger, registry, isFuture, filter, i, Pending) && IsAt(ledger, registry, isFuture, filter, j, Resumable);
      assert IsAt(ledger, before, isFuture, filter, i, Pending);
      assert j < k ==> IsAt(ledger, before, isFuture, filter, j, Resumable);
    }
    if PendingBeforePartial(ledger, before, isFuture, filter) {
      var i, j :| i < j && IsAt(ledger, before, isFuture, filter, i, Pending) && IsAt(ledger, before, isFuture, filter, j, Resumable);
      assert IsAt(ledger, registry, isFuture, filter, i, Pending) && IsAt(ledger, registry, isFuture, filter, j, Resumable);
    }
    if IsAt(ledger, registry, isFuture, filter, k, Resumable) && InCategory(ledger, before, isFuture, filter, Now(Pending)) != [] {
      var i :| IsAt(ledger, before, isFuture, filter, i, Pending);
      assert IsAt(ledger, registry, isFuture, filter, i, Pending);
    }
  }

  lemma OnlyPending(ledger: seq<Entry>, registry: seq<string>, isFuture: string -> bool, filter: Option<string>, v: string)
    requires CategoryOf(ledger, isFuture, v) != Now(Pending)
    ensures var pending := InCategory(ledger, registry, isFuture, filter, Now(Pending));
      pending != [] ==> pending[|pending| - 1] != v
  {
    CategoryMembers(ledger, registry, isFuture, filter, Now(Pending));
    var pending := InCategory(ledger, registry, isFuture, filter, Now(Pending));
    if pending != [] {
      assert pending[|pending| - 1] in pending;
    }
  }

  // A run attempts its migrations in registry order exactly when no pending one
  // stands before a partial one.
  lemma {:induction false} RunsInRegistryOrderIff(ledger: seq<Entry>, registry: seq<string>, isFuture: string -> bool, filter: Option<string>)
    ensures ToRun(PlanOf(ledger, registry, isFuture, filter)) == OpenInOrder(ledger, registry, isFuture, filter) <==>
      !PendingBeforePartial(ledger, registry, isFuture, filter)
  {
    if registry != [] {
      RunsInRegistryOrderIff(ledger, registry[..|registry| - 1], isFuture, filter);
      NothingBefore(ledger, registry, isFuture, filter);
      OneMoreRegistered(ledger, registry, isFuture, filter);
    }
  }

  ghost predicate Ordered(ledger: seq<Entry>, registry: seq<string>, isFuture: string -> bool, filter: Option<string>) {
    ToRun(PlanOf(ledger, registry, isFuture, filter)) == OpenInOrder(ledger, registry, isFuture, filter)
  }

  lemma OneMoreRegistered(ledger: seq<Entry>, registry: seq<string>, isFuture: string -> bool, filter: Option<string>)
    requires registry != []
    ensures Ordered(ledger, registry, isFuture, filter) <==>
      && Ordered(ledger, registry[..|registry| - 1], isFuture, filter)
      && !(IsAt(ledger, registry, isFuture, filter, |registry| - 1, Resumable)
           && InCategory(ledger, registry[..|registry| - 1], isFuture, filter, Now(Pending)) != [])
  {
    var k := |registry| - 1;
    var v := registry[k];
    var partial := InCategory(ledger, registry[..k], isFuture, filter, Now(Resumable));
    var pending := InCategory(ledger, registry[..k], isFuture, filter, Now(Pending));
    var inOrder := OpenInOrder(ledger, registry[..k], isFuture, filter);
    var plan := PlanOf(ledger, registry, isFuture, filter);
    JoinedLists(partial, pending, inOrder, v);
    if IsAt(ledger, registry, isFuture, filter, k, Pending) {
      assert plan.partial == partial + [] == partial && plan.pending == pending + [v];
    } else if IsAt(ledger, registry, isFuture, filter, k, Resumable) {
      assert plan.partial == partial + [v] && plan.pending == pending + [] == pending;
      OnlyPending(ledger, registry[..k], isFuture, filter, v);
    } else {
      assert plan.partial == partial + [] == partial && plan.pending == pending + [] == pending;
      assert OpenInOrder(ledger, registry, isFuture, filter) == inOrder + [] == inOrder;
    }
  }

  lemma OnePartial(version: string, ledger: seq<Entry>)
    requires ledger == [Entry(version, Partial)]
    ensures EntriesOf(ledger, version) == ledger && StatusOf(ledger) == Resumable
    ensures forall v :: v != version ==> EntriesOf(ledger, v) == []
  {
    assert ledger[..0] == [];
    assert ledger[0].status == Partial && !Has(ledger, Complete);
    assert TrailingPartials(ledger[..0]) == 0;
  }

  lemma TwoRegistered(ledger: seq<Entry>, a: string, b: string, isFuture: string -> bool, c: Category)
    ensures InCategory(ledger, [a, b], isFuture, None, c) ==
      (if CategoryOf(ledger, isFuture, a) == c then [a] else []) + (if CategoryOf(ledger, isFuture, b) == c then [b] else [])
  {
    assert [a, b][..1] == [a] && [a][..0] == [];
    assert InCategory(ledger, [a], isFuture, None, c) == [] + if CategoryOf(ledger, isFuture, a) == c then [a] else [];
  }

  // A partial migration registered after a pending one runs first.
  lemma PartialRunsFirst(ledger: seq<Entry>, isFuture: string -> bool, pending: string, partial: string)
    requires !isFuture(pending) && !isFuture(partial) && pending != partial
    requires ledger == [Entry(partial, Partial)]
    ensures ToRun(PlanOf(ledger, [pending, partial], isFuture, None)) == [partial, pending]
  {
    OnePartial(partial, ledger);
    TwoRegistered(ledger, pending, partial, isFuture, Now(Resumable));
    TwoRegistered(ledger, pending, partial, isFuture, Now(Pending));
  }

  // Every run with a non-empty list spends budget, filtered or not.
  lemma EveryRunSpends(ledger: seq<Entry>, registry: seq<string>, isFuture: string -> bool, filter: Option<string>, attempt: string -> Attempt)
    requires Distinct(registry)
    requires AllRecorded(attempt)
    ensures var toRun := ToRun(PlanOf(ledger, registry, isFuture, filter));
      var after := RunAll(ledger, toRun, attempt).ledger;
      && TotalBudget(after, isFuture, registry) <= TotalBudget(ledger, isFuture, registry)
      && (toRun != [] ==> TotalBudget(after, isFuture, registry) < TotalBudget(ledger, isFuture, registry))
  {
    PlannedIsOpen(ledger, registry, isFuture, filter);
    RunSpends(ledger, isFuture, registry, ToRun(PlanOf(ledger, registry, isFuture, filter)), attempt);
  }

  // The ledger after k unfiltered runs.
  function AfterRuns(ledger: seq<Entry>, registry: seq<string>, isFuture: string -> bool, attempts: nat -> string -> Attempt, k: nat): seq<Entry> {
    if k == 0 then ledger
    else
      var before := AfterRuns(ledger, registry, isFuture, attempts, k - 1);
      RunAll(before, ToRun(PlanOf(before, registry, isFuture, None)), attempts(k - 1)).ledger
  }

  ghost predicate Settled(ledger: seq<Entry>, isFuture: string -> bool, registry: seq<string>) {
    forall v :: v in registry ==>
      CategoryOf(ledger, isFuture, v) in {Future, Now(Applied), Now(Wedged)}
  }

  lemma BudgetAtMost(ledger: seq<Entry>, isFuture: string -> bool, registry: seq<string>)
    ensures TotalBudget(ledger, isFuture, registry) <= 3 * |registry|
  {
    SumAtMost(BudgetOf(ledger, isFuture), registry, 3);
  }

  lemma FirstMember(xs: seq<string>) returns (v: string)
    requires xs != []
    ensures v in xs
  {
    v := xs[0];
  }

  // An unfiltered run has nothing to do exactly when everything is settled.
  lemma NothingPlannedIffSettled(ledger: seq<Entry>, registry: seq<string>, isFuture: string -> bool)
    requires Distinct(registry)
    ensures ToRun(PlanOf(ledger, registry, isFuture, None)) == [] <==> Settled(ledger, isFuture, registry)
  {
    var toRun := ToRun(PlanOf(ledger, registry, isFuture, None));
    PlannedIsOpen(ledger, registry, isFuture, None);
    if Settled(ledger, isFuture, registry) {
      if toRun != [] {
        var v := FirstMember(toRun);
        assert false;
      }
    } else {
      var v :| v in registry && CategoryOf(ledger, isFuture, v) !in {Future, Now(Applied), Now(Wedged)};
      assert v in toRun;
    }
  }

  // Settled, or k units of the initial budget are gone.
  ghost predicate SettledOrSpent(ledger: seq<Entry>, isFuture: string -> bool, registry: seq<string>, k: nat) {
    Settled(ledger, isFuture, registry) || TotalBudget(ledger, isFuture, registry) + k <= 3 * |registry|
  }

  lemma OneMoreRun(ledger: seq<Entry>, registry: seq<string>, isFuture: string -> bool, attempt: string -> Attempt, k: nat)
    requires Distinct(registry) && AllRecorded(attempt) && SettledOrSpent(ledger, isFuture, registry, k)
    ensures SettledOrSpent(RunAll(ledger, ToRun(PlanOf(ledger, registry, isFuture, None)), attempt).ledger, isFuture, registry, k + 1)
  {
    EveryRunSpends(ledger, registry, isFuture, None, attempt);
    NothingPlannedIffSettled(ledger, registry, isFuture);
  }

  lemma AfterOneMore(ledger: seq<Entry>, registry: seq<string>, isFuture: string -> bool, attempts: nat -> string -> Attempt,
                     j: nat, before: seq<Entry>)
    requires before == AfterRuns(ledger, registry, isFuture, attempts, j)
    ensures AfterRuns(ledger, registry, isFuture, attempts, j + 1)
      == RunAll(before, ToRun(PlanOf(before, registry, isFuture, None)), attempts(j)).ledger
  {
  }

  // What every run takes from k to k + 1 holds after k runs.
  lemma {:induction false} AfterRunsHolds(ledger: seq<Entry>, registry: seq<string>, isFuture: string -> bool, attempts: nat -> string -> Attempt,
                                          k: nat, inv: (seq<Entry>, nat) -> bool)
    requires inv(ledger, 0)
    requires forall before, i: nat :: inv(before, i) ==>
      inv(RunAll(before, ToRun(PlanOf(before, registry, isFuture, None)), attempts(i)).ledger, i + 1)
    ensures inv(AfterRuns(ledger, registry, isFuture, attempts, k), k)
  {
    if k > 0 {
      var j := k - 1;
      AfterRunsHolds(ledger, registry, isFuture, attempts, j, inv);
      AfterOneMore(ledger, registry, isFuture, attempts, j, AfterRuns(ledger, registry, isFuture, attempts, j));
    }
  }

  lemma BudgetAfterRuns(ledger: seq<Entry>, registry: seq<string>, isFuture: string -> bool, attempts: nat -> string -> Attempt, k: nat)
    requires Distinct(registry) && forall i: nat :: AllRecorded(attempts(i))
    ensures SettledOrSpent(AfterRuns(ledger, registry, isFuture, attempts, k), isFuture, registry, k)
  {
    BudgetAtMost(ledger, isFuture, registry);
    var inv := (before: seq<Entry>, i: nat) => SettledOrSpent(before, isFuture, registry, i);
    forall before, i: nat | inv(before, i)
      ensures inv(RunAll(before, ToRun(PlanOf(before, registry, isFuture, None)), attempts(i)).ledger, i + 1)
    {
      OneMoreRun(before, registry, isFuture, attempts(i), i);
    }
    AfterRunsHolds(ledger, registry, isFuture, attempts, k, inv);
  }

  // After three runs per registered migration, with no retry marker written and
  // every append succeeding, each version is applied, wedged or still future.
  lemma QuiescentAfterRuns(ledger: seq<Entry>, registry: seq<string>, isFuture: string -> bool, attempts: nat -> string -> Attempt)
    requires Distinct(registry)
    requires forall i: nat :: AllRecorded(attempts(i))
    ensures Settled(AfterRuns(ledger, registry, isFuture, attempts, 3 * |registry|), isFuture, registry)
  {
    var k := 3 * |registry|;
    BudgetAfterRuns(ledger, registry, isFuture, attempts, k);
    var after := AfterRuns(ledger, registry, isFuture, attempts, k);
    if !Settled(after, isFuture, registry) {
      var v :| v in registry && CategoryOf(after, isFuture, v) !in {Future, Now(Applied), Now(Wedged)};
      OpenHasBudget(after, isFuture, v);
      BudgetCounts(after, isFuture, registry, v);
    }
  }

  lemma BudgetCounts(ledger: seq<Entry>, isFuture: string -> bool, registry: seq<string>, v: string)
    requires v in registry
    ensures TotalBudget(ledger, isFuture, registry) >= Budget(ledger, isFuture, v)
  {
    SumCounts(BudgetOf(ledger, isFuture), registry, v);
  }

  lemma NamedCategory(ledger: seq<Entry>, registry: seq<string>, isFuture: string -> bool, v: string, c: Category)
    requires v != ""
    ensures InCategory(ledger, registry, isFuture, Some(v), c) == [] <==> !(v in registry && CategoryOf(ledger, isFuture, v) == c)
  {
    CategoryMembers(ledger, registry, isFuture, Some(v), c);
    var named := InCategory(ledger, registry, isFuture, Some(v), c);
    if named != [] {
      var w := FirstMember(named);
      assert w == v;
    }
  }

  // A migration named explicitly is reported as not registered exactly when it
  // is not registered or wedged.
  lemma NamedNotFoundIff(ledger: seq<Entry>, registry: seq<string>, isFuture: string -> bool, v: string)
    requires v != ""
    ensures var plan := PlanOf(ledger, registry, isFuture, Some(v));
      plan.applied == [] && plan.partial == [] && plan.pending == [] && plan.skippedFuture == [] <==>
        v !in registry || CategoryOf(ledger, isFuture, v) == Now(Wedged)
  {
    NamedCategory(ledger, registry, isFuture, v, Now(Applied));
    NamedCategory(ledger, registry, isFuture, v, Now(Resumable));
    NamedCategory(ledger, registry, isFuture, v, Now(Pending));
    NamedCategory(ledger, registry, isFuture, v, Future);
  }
}
