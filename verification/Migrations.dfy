// src/commands/apply-migrations.ts: the append-only ledger of migration
// attempts, the status derived from it, the plan and the runner.
module Migrations {
  import opened Wrappers

  const MAX_CONSECUTIVE_PARTIALS := 3

  // Unknown stands for any other text a hand-edited ledger line may hold.
  datatype Mark = Complete | Partial | Retry | Unknown

  datatype Entry = Entry(version: string, status: Mark)

  datatype Status = Applied | Resumable | Pending | Wedged

  function EntriesOf(ledger: seq<Entry>, version: string): seq<Entry> {
    if ledger == [] then []
    else
      var k := |ledger| - 1;
      EntriesOf(ledger[..k], version) + if ledger[k].version == version then [ledger[k]] else []
  }

  predicate Has(es: seq<Entry>, mark: Mark) {
    exists i :: 0 <= i < |es| && es[i].status == mark
  }

  function TrailingPartials(es: seq<Entry>): (n: nat)
    ensures n <= |es|
  {
    if es == [] || es[|es| - 1].status != Partial then 0 else TrailingPartials(es[..|es| - 1]) + 1
  }

  function StatusOf(es: seq<Entry>): Status {
    if es == [] || es[|es| - 1].status == Retry then Pending
    else if Has(es, Complete) then Applied
    else if TrailingPartials(es) >= MAX_CONSECUTIVE_PARTIALS then Wedged
    else if Has(es, Partial) then Resumable
    else Pending
  }

  function Lookup(idx: map<string, seq<Entry>>, version: string): seq<Entry> {
    if version in idx then idx[version] else []
  }

  ghost predicate IsIndex(idx: map<string, seq<Entry>>, ledger: seq<Entry>) {
    forall v :: Lookup(idx, v) == EntriesOf(ledger, v)
  }

  method IndexCompleted(entries: seq<Entry>) returns (idx: map<string, seq<Entry>>)
    ensures IsIndex(idx, entries)
  {
    idx := map[];
    for i := 0 to |entries|
      invariant IsIndex(idx, entries[..i])
    {
      assert entries[..i + 1][..i] == entries[..i];
      var e := entries[i];
      idx := idx[e.version := Lookup(idx, e.version) + [e]];
    }
    assert entries[..|entries|] == entries;
  }

  method StatusForVersion(version: string, idx: map<string, seq<Entry>>) returns (s: Status)
    ensures s == StatusOf(Lookup(idx, version))
  {
    var entries := Lookup(idx, version);
    if entries == [] {
      return Pending;
    }
    if entries[|entries| - 1].status == Retry {
      return Pending;
    }
    if Has(entries, Complete) {
      return Applied;
    }
    var consecutive := 0;
    var i := |entries| - 1;
    assert entries[..|entries|] == entries;
    while i >= 0
      invariant -1 <= i < |entries|
      invariant consecutive + TrailingPartials(entries[..i + 1]) == TrailingPartials(entries)
      decreases i
    {
      assert entries[..i + 1][..i] == entries[..i];
      if entries[i].status != Partial {
        break;
      }
      consecutive := consecutive + 1;
      i := i - 1;
    }
    if consecutive >= MAX_CONSECUTIVE_PARTIALS {
      return Wedged;
    }
    return if Has(entries, Partial) then Resumable else Pending;
  }

  // ---- the plan ----

  datatype Plan = Plan(applied: seq<string>, partial: seq<string>, pending: seq<string>, skippedFuture: seq<string>, wedged: seq<string>)

  datatype Category = Future | Now(status: Status)

  // isFuture(v): is v newer than the installed version?
  function CategoryOf(ledger: seq<Entry>, isFuture: string -> bool, version: string): Category {
    if isFuture(version) then Future else Now(StatusOf(EntriesOf(ledger, version)))
  }

  // An absent or empty filter selects every migration.
  predicate Selected(filter: Option<string>, version: string) {
    filter.None? || filter.value == "" || version == filter.value
  }

  function InCategory(ledger: seq<Entry>, registry: seq<string>, isFuture: string -> bool, filter: Option<string>, c: Category): seq<string> {
    if registry == [] then []
    else
      var k := |registry| - 1;
      InCategory(ledger, registry[..k], isFuture, filter, c)
        + if Selected(filter, registry[k]) && CategoryOf(ledger, isFuture, registry[k]) == c then [registry[k]] else []
  }

  function PlanOf(ledger: seq<Entry>, registry: seq<string>, isFuture: string -> bool, filter: Option<string>): Plan {
    Plan(InCategory(ledger, registry, isFuture, filter, Now(Applied)),
         InCategory(ledger, registry, isFuture, filter, Now(Resumable)),
         InCategory(ledger, registry, isFuture, filter, Now(Pending)),
         InCategory(ledger, registry, isFuture, filter, Future),
         InCategory(ledger, registry, isFuture, filter, Now(Wedged)))
  }

  lemma NextCategories(ledger: seq<Entry>, registry: seq<string>, isFuture: string -> bool, filter: Option<string>, i: nat)
    requires i < |registry|
    ensures forall c :: (
      InCategory(ledger, registry[..i + 1], isFuture, filter, c) ==
        InCategory(ledger, registry[..i], isFuture, filter, c)
          + if Selected(filter, registry[i]) && CategoryOf(ledger, isFuture, registry[i]) == c then [registry[i]] else [])
  {
    assert registry[..i + 1][..i] == registry[..i];
  }

  // The plan with one more migration of the given category.
  function AddTo(plan: Plan, c: Category, m: string): Plan {
    match c
    case Future => plan.(skippedFuture := plan.skippedFuture + [m])
    case Now(Applied) => plan.(applied := plan.applied + [m])
    case Now(Resumable) => plan.(partial := plan.partial + [m])
    case Now(Wedged) => plan.(wedged := plan.wedged + [m])
    case Now(Pending) => plan.(pending := plan.pending + [m])
  }

  lemma NextPlan(ledger: seq<Entry>, registry: seq<string>, isFuture: string -> bool, filter: Option<string>, i: nat)
    requires i < |registry|
    ensures PlanOf(ledger, registry[..i + 1], isFuture, filter) ==
      if Selected(filter, registry[i])
      then AddTo(PlanOf(ledger, registry[..i], isFuture, filter), CategoryOf(ledger, isFuture, registry[i]), registry[i])
      else PlanOf(ledger, registry[..i], isFuture, filter)
  {
    NextCategories(ledger, registry, isFuture, filter, i);
  }

  method BuildPlan(ghost ledger: seq<Entry>, idx: map<string, seq<Entry>>, registry: seq<string>,
                   isFuture: string -> bool, filter: Option<string>) returns (plan: Plan)
    requires IsIndex(idx, ledger)
    ensures plan == PlanOf(ledger, registry, isFuture, filter)
  {
    plan := Plan([], [], [], [], []);
    for i := 0 to |registry|
      invariant plan == PlanOf(ledger, registry[..i], isFuture, filter)
    {
      var m := registry[i];
      NextPlan(ledger, registry, isFuture, filter, i);
      if !Selected(filter, m) {
        continue;
      }
      if isFuture(m) {
        plan := plan.(skippedFuture := plan.skippedFuture + [m]);
        continue;
      }
      var status := StatusForVersion(m, idx);
      assert Lookup(idx, m) == EntriesOf(ledger, m);
      match status {
        case Applied => plan := plan.(applied := plan.applied + [m]);
        case Resumable => plan := plan.(partial := plan.partial + [m]);
        case Wedged => plan := plan.(wedged := plan.wedged + [m]);
        case Pending => plan := plan.(pending := plan.pending + [m]);
      }
    }
    assert registry[..|registry|] == registry;
  }

  // ---- appending and running ----

  // appendCompletedMigration: a complete after a complete is not written again.
  function Append(ledger: seq<Entry>, e: Entry): seq<Entry> {
    var prior := EntriesOf(ledger, e.version);
    if e.status == Complete && prior != [] && prior[|prior| - 1].status == Complete then ledger else ledger + [e]
  }

  datatype Outcome = ReturnsComplete | ReturnsPartial | ReturnsFailed | Throws

  // What one orchestrator does, and whether the ledger write after it succeeds.
  datatype Attempt = Attempt(outcome: Outcome, persisted: bool)

  datatype RunResult = RunResult(ledger: seq<Entry>, failed: bool)

  function MarkOf(o: Outcome): Mark {
    if o == ReturnsComplete then Complete else Partial
  }

  predicate Stops(a: Attempt) {
    a.outcome.ReturnsFailed? || a.outcome.Throws? || !a.persisted
  }

  // The runner: each attempt is recorded; a failure, a throw or a failed write
  // ends the run.
  function RunAll(ledger: seq<Entry>, toRun: seq<string>, attempt: string -> Attempt): RunResult
    decreases |toRun|
  {
    if toRun == [] then RunResult(ledger, false)
    else
      var a := attempt(toRun[0]);
      var after := if a.persisted then Append(ledger, Entry(toRun[0], MarkOf(a.outcome))) else ledger;
      if Stops(a) then RunResult(after, true) else RunAll(after, toRun[1..], attempt)
  }

  function ToRun(plan: Plan): seq<string> {
    plan.partial + plan.pending
  }

  // A retry marker for every version wedged at the outset.
  function RetryWedged(ledger: seq<Entry>, before: seq<Entry>, registry: seq<string>): seq<Entry> {
    if registry == [] then ledger
    else
      var k := |registry| - 1;
      var rest := RetryWedged(ledger, before, registry[..k]);
      if StatusOf(EntriesOf(before, registry[k])) == Wedged then Append(rest, Entry(registry[k], Retry)) else rest
  }

  datatype Exit = Success | Failure | Usage

  class Ledger {
    var entries: seq<Entry>

    constructor (entries: seq<Entry>)
      ensures this.entries == entries
    {
      this.entries := entries;
    }

    method AppendCompleted(e: Entry)
      modifies this`entries
      ensures entries == Append(old(entries), e)
    {
      if e.status == Complete {
        var prior := EntriesOf(entries, e.version);
        if prior != [] && prior[|prior| - 1].status == Complete {
          return;
        }
      }
      entries := entries + [e];
    }

    // --force-retry
    method ForceRetry(registry: seq<string>, version: string) returns (exit: Exit)
      modifies this`entries
      ensures version !in registry ==> exit == Usage && entries == old(entries)
      ensures version in registry ==> exit == Success && entries == old(entries) + [Entry(version, Retry)]
    {
      if version !in registry {
        return Usage;
      }
      AppendCompleted(Entry(version, Retry));
      return Success;
    }

    // --force-orchestrator
    method ForceOrchestrator(registry: seq<string>) returns (resetCount: nat)
      modifies this`entries
      ensures entries == RetryWedged(old(entries), old(entries), registry)
      ensures |entries| == |old(entries)| + resetCount
    {
      var idx := IndexCompleted(entries);
      resetCount := 0;
      for i := 0 to |registry|
        invariant entries == RetryWedged(old(entries), old(entries), registry[..i])
        invariant |entries| == |old(entries)| + resetCount
      {
        assert registry[..i + 1][..i] == registry[..i];
        var status := StatusForVersion(registry[i], idx);
        assert Lookup(idx, registry[i]) == EntriesOf(old(entries), registry[i]);
        if status == Wedged {
          AppendCompleted(Entry(registry[i], Retry));
          resetCount := resetCount + 1;
        }
      }
      assert registry[..|registry|] == registry;
    }

    // A run proper. An explicitly named migration that is wedged is not among
    // the lists counted, and is reported as unregistered.
    method RunApplyMigrations(registry: seq<string>, isFuture: string -> bool, filter: Option<string>, attempt: string -> Attempt)
      returns (exit: Exit)
      modifies this`entries
      ensures var plan := PlanOf(old(entries), registry, isFuture, filter);
        var named := filter.Some? && filter.value != "";
        if named && plan.applied == [] && plan.partial == [] && plan.pending == [] && plan.skippedFuture == []
        then exit == Usage && entries == old(entries)
        else RunResult(entries, exit == Failure) == RunAll(old(entries), ToRun(plan), attempt) && exit != Usage
    {
      var idx := IndexCompleted(entries);
      var plan := BuildPlan(entries, idx, registry, isFuture, filter);
      if filter.Some? && filter.value != "" && |plan.applied| + |plan.partial| + |plan.pending| + |plan.skippedFuture| == 0 {
        return Usage;
      }
      var toRun := plan.partial + plan.pending;
      if toRun == [] {
        return Success;
      }
      var failed := RunEach(toRun, attempt);
      return if failed then Failure else Success;
    }

    // The runner loop.
    method RunEach(toRun: seq<string>, attempt: string -> Attempt) returns (failed: bool)
      modifies this`entries
      ensures RunResult(entries, failed) == RunAll(old(entries), toRun, attempt)
    {
      assert toRun[0..] == toRun;
      for i := 0 to |toRun|
        invariant RunAll(entries, toRun[i..], attempt) == RunAll(old(entries), toRun, attempt)
      {
        var m := toRun[i];
        assert toRun[i..][1..] == toRun[i + 1..];
        var a := attempt(m);
        if a.persisted {
          AppendCompleted(Entry(m, MarkOf(a.outcome)));
        }
        if Stops(a) {
          return true;
        }
      }
      return false;
    }
  }
}
