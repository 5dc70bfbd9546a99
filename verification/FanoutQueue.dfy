// Submission: dispatchPerSource and dispatchGlobalMaintenance against a queue
// that deduplicates by idempotency key (src/core/minions/queue.ts).
module FanoutQueue {
  import opened Wrappers
  import opened Text
  import opened Fanout
  import opened FanoutCooldown

  // The jobs the autopilot submits, by what identifies them.
  datatype Kind =
    | LegacyCycle(slot: string)
    | SourceCycle(sourceId: string, slot: string)
    | GlobalMaintenance(slot: string)

  function NameOf(k: Kind): string {
    if k.GlobalMaintenance? then "autopilot-global-maintenance" else "autopilot-cycle"
  }

  function KeyOf(k: Kind): string {
    match k
    case LegacyCycle(slot) => CYCLE + slot
    case SourceCycle(id, slot) => CYCLE + id + ":" + slot
    case GlobalMaintenance(slot) => GLOBAL + slot
  }

  const CYCLE := "autopilot-cycle:"
  const GLOBAL := "autopilot-global:"

  lemma Prefixes()
    ensures |CYCLE| == 16 && CYCLE[10] == 'c'
    ensures |GLOBAL| == 17 && GLOBAL[10] == 'g'
  {
  }

  lemma PrefixAndSlot(prefix: string, slot: string)
    ensures var s := prefix + slot;
      |s| == |prefix| + |slot| && s[|s| - |slot|..] == slot && forall i :: 0 <= i < |prefix| ==> s[i] == prefix[i]
  {
  }

  // The parts of a key can be read off it.
  lemma KeyShape(k: Kind)
    ensures var key := KeyOf(k);
      && |key| == |k.slot| + (if k.LegacyCycle? then 16 else if k.SourceCycle? then 17 + |k.sourceId| else 17)
      && key[|key| - |k.slot|..] == k.slot
      && key[10] == (if k.GlobalMaintenance? then 'g' else 'c')
      && (k.SourceCycle? ==> key[16..16 + |k.sourceId|] == k.sourceId)
  {
    Prefixes();
    match k {
      case LegacyCycle(slot) => PrefixAndSlot(CYCLE, slot);
      case SourceCycle(id, slot) => ConcatParts(CYCLE, id, ":", slot);
      case GlobalMaintenance(slot) => PrefixAndSlot(GLOBAL, slot);
    }
  }

  // With slots of one width the keys tell all jobs apart, even when source ids
  // contain colons.
  lemma KeysInjective(a: Kind, b: Kind)
    requires |a.slot| == |b.slot| && KeyOf(a) == KeyOf(b)
    ensures a == b
  {
    KeyShape(a);
    KeyShape(b);
  }

  // With slots of different widths they do not.
  lemma KeysCollideAcrossWidths(id: string, slot: string)
    ensures KeyOf(LegacyCycle(id + ":" + slot)) == KeyOf(SourceCycle(id, slot))
  {
    assert "autopilot-cycle:" + (id + ":" + slot) == "autopilot-cycle:" + id + ":" + slot;
  }

  datatype Status = Waiting | Active | Delayed | Completed | Failed | Dead | Cancelled

  // A row of the jobs table. A dead or cancelled row gives up its key when the
  // same key is submitted again.
  datatype Job = Job(kind: Kind, pull: bool, status: Status, holdsKey: bool)

  predicate Gone(j: Job) {
    j.status.Dead? || j.status.Cancelled?
  }

  predicate Holds(j: Job, key: string) {
    j.holdsKey && KeyOf(j.kind) == key
  }

  // The last row satisfying the key, or the last waiting row of the name.
  function HolderOf(rows: seq<Job>, key: string): (r: Option<nat>)
    ensures r.Some? ==> r.value < |rows| && Holds(rows[r.value], key)
    ensures r.None? ==> forall i :: 0 <= i < |rows| ==> !Holds(rows[i], key)
  {
    if rows == [] then None
    else if Holds(rows[|rows| - 1], key) then Some(|rows| - 1)
    else HolderOf(rows[..|rows| - 1], key)
  }

  function LatestWaiting(rows: seq<Job>, name: string): (r: Option<nat>)
    ensures r.Some? ==> r.value < |rows| && rows[r.value].status.Waiting? && NameOf(rows[r.value].kind) == name
  {
    if rows == [] then None
    else if rows[|rows| - 1].status.Waiting? && NameOf(rows[|rows| - 1].kind) == name then Some(|rows| - 1)
    else LatestWaiting(rows[..|rows| - 1], name)
  }

  datatype Added = Added(rows: seq<Job>, id: nat)

  function FreeKey(rows: seq<Job>, holder: Option<nat>): seq<Job>
    requires holder.Some? ==> holder.value < |rows|
  {
    if holder.Some? && Gone(rows[holder.value])
    then rows[holder.value := rows[holder.value].(holdsKey := false)]
    else rows
  }

  // Submission: an earlier live row with the key wins; then, when maxWaiting is
  // 1, a waiting row of the same name; otherwise a row is inserted.
  function AddTo(rows: seq<Job>, kind: Kind, pull: bool, maxWaitingOne: bool): Added {
    var holder := HolderOf(rows, KeyOf(kind));
    if holder.Some? && !Gone(rows[holder.value]) then Added(rows, holder.value)
    else
      var freed := FreeKey(rows, holder);
      var waiting := LatestWaiting(freed, NameOf(kind));
      if maxWaitingOne && waiting.Some? then Added(freed, waiting.value)
      else Added(freed + [Job(kind, pull, Waiting, true)], |freed|)
  }

  // All slots have one width, and no key is held twice.
  ghost predicate KeysApart(rows: seq<Job>, width: nat) {
    && (forall i :: 0 <= i < |rows| ==> |rows[i].kind.slot| == width)
    && (forall i, j :: 0 <= i < j < |rows| && rows[i].holdsKey && rows[j].holdsKey ==> rows[i].kind != rows[j].kind)
  }

  // And every standing row, neither dead nor cancelled, holds its key.
  ghost predicate Consistent(rows: seq<Job>, width: nat) {
    && KeysApart(rows, width)
    && (forall i :: 0 <= i < |rows| && !Gone(rows[i]) ==> rows[i].holdsKey)
  }

  lemma HeldBy(rows: seq<Job>, width: nat, kind: Kind, holder: Option<nat>)
    requires KeysApart(rows, width) && |kind.slot| == width && holder == HolderOf(rows, KeyOf(kind))
    ensures holder.Some? ==> rows[holder.value].kind == kind
    ensures forall i :: 0 <= i < |rows| && rows[i].holdsKey && rows[i].kind == kind ==> holder == Some(i)
  {
    if holder.Some? {
      KeysInjective(rows[holder.value].kind, kind);
    }
    forall i | 0 <= i < |rows| && rows[i].holdsKey && rows[i].kind == kind ensures holder == Some(i) {
      assert Holds(rows[i], KeyOf(kind));
    }
  }

  ghost predicate SameButKeys(rows: seq<Job>, rows': seq<Job>) {
    |rows'| == |rows| && forall i :: 0 <= i < |rows| ==> rows'[i].kind == rows[i].kind && rows'[i].status == rows[i].status
  }

  ghost predicate HeldByNone(rows: seq<Job>, kind: Kind) {
    forall i :: 0 <= i < |rows| && rows[i].holdsKey ==> rows[i].kind != kind
  }

  // A gone holder gives its key up; nobody holds it then.
  lemma Freed(rows: seq<Job>, width: nat, kind: Kind, holder: Option<nat>)
    requires KeysApart(rows, width) && |kind.slot| == width && holder == HolderOf(rows, KeyOf(kind))
    requires holder.Some? ==> Gone(rows[holder.value])
    ensures var freed := FreeKey(rows, holder);
      && KeysApart(freed, width) && SameButKeys(rows, freed) && HeldByNone(freed, kind)
      && (Consistent(rows, width) ==> Consistent(freed, width))
  {
    HeldBy(rows, width, kind, holder);
  }

  lemma Inserted(rows: seq<Job>, width: nat, kind: Kind, pull: bool)
    requires KeysApart(rows, width) && |kind.slot| == width && HeldByNone(rows, kind)
    ensures KeysApart(rows + [Job(kind, pull, Waiting, true)], width)
    ensures Consistent(rows, width) ==> Consistent(rows + [Job(kind, pull, Waiting, true)], width)
  {
  }

  // What any submission does: consistency survives, other rows are untouched,
  // and without maxWaiting the row returned is a standing job of the very kind
  // submitted, so distinct sources never coalesce.
  lemma AddKeepsConsistent(rows: seq<Job>, width: nat, kind: Kind, pull: bool, maxWaitingOne: bool)
    requires Consistent(rows, width) && |kind.slot| == width
    ensures var r := AddTo(rows, kind, pull, maxWaitingOne);
      && Consistent(r.rows, width)
      && |rows| <= |r.rows| <= |rows| + 1 && r.id < |r.rows|
      && (forall i :: 0 <= i < |rows| ==> r.rows[i].kind == rows[i].kind && r.rows[i].status == rows[i].status)
      && (!maxWaitingOne ==> r.rows[r.id].kind == kind && !Gone(r.rows[r.id]))
      && (maxWaitingOne ==> NameOf(r.rows[r.id].kind) == NameOf(kind) && !Gone(r.rows[r.id]))
  {
    var holder := HolderOf(rows, KeyOf(kind));
    if holder.Some? && !Gone(rows[holder.value]) {
      HeldBy(rows, width, kind, holder);
    } else {
      Freed(rows, width, kind, holder);
      Inserted(FreeKey(rows, holder), width, kind, pull);
    }
  }

  // ---- what a taken key does ----

  // The keys as the queue sees them.
  lemma KeyText(id: string, slot: string)
    ensures KeyOf(LegacyCycle(slot)) == "autopilot-cycle:" + slot
    ensures KeyOf(SourceCycle(id, slot)) == "autopilot-cycle:" + id + ":" + slot
    ensures KeyOf(GlobalMaintenance(slot)) == "autopilot-global:" + slot
  {
  }

  // The names of the jobs: cycles are what the failure record counts, global
  // maintenance is not.
  lemma NamesMatchRecord(kind: Kind, id: string, f: int)
    ensures NameOf(kind) == "autopilot-global-maintenance" <==> kind.GlobalMaintenance?
    ensures FailedThen(JobRow(NameOf(kind), "dead", Some(id), Some(f)), id, f) <==> !kind.GlobalMaintenance?
  {
    assert |"autopilot-cycle"| != |"autopilot-global-maintenance"|;
  }

  // A job submitted again: while its row is neither dead nor cancelled that row
  // is returned and nothing changes; otherwise the row loses its key to a new one.
  lemma ResubmitIff(rows: seq<Job>, width: nat, i: nat, kind: Kind, pull: bool)
    requires KeysApart(rows, width) && |kind.slot| == width
    requires i < |rows| && rows[i].holdsKey && rows[i].kind == kind
    ensures var r := AddTo(rows, kind, pull, false);
      if rows[i].status == Dead || rows[i].status == Cancelled
      then r == Added(rows[i := rows[i].(holdsKey := false)] + [Job(kind, pull, Waiting, true)], |rows|)
      else r == Added(rows, i)
  {
    HeldBy(rows, width, kind, HolderOf(rows, KeyOf(kind)));
  }

  // ---- what maxWaiting coalesces ----

  // A waiting row of the same job name: cycles of all sources share one, global
  // maintenance has its own.
  ghost predicate WaitsLike(j: Job, kind: Kind) {
    j.status.Waiting? && (j.kind.GlobalMaintenance? <==> kind.GlobalMaintenance?)
  }

  lemma {:induction false} NoneWaitsLater(rows: seq<Job>, name: string, i: nat)
    requires i < |rows| && rows[i].status.Waiting? && NameOf(rows[i].kind) == name
    ensures LatestWaiting(rows, name).Some? && i <= LatestWaiting(rows, name).value
  {
    var k := |rows| - 1;
    if !(rows[k].status.Waiting? && NameOf(rows[k].kind) == name) {
      NoneWaitsLater(rows[..k], name, i);
    }
  }

  lemma WaitingByName(rows: seq<Job>, kind: Kind)
    ensures var w := LatestWaiting(rows, NameOf(kind));
      && (w.Some? ==> WaitsLike(rows[w.value], kind) && forall i :: w.value < i < |rows| ==> !WaitsLike(rows[i], kind))
      && (w.None? ==> forall i :: 0 <= i < |rows| ==> !WaitsLike(rows[i], kind))
  {
    NamesDiffer();
    forall i | 0 <= i < |rows| && WaitsLike(rows[i], kind)
      ensures LatestWaiting(rows, NameOf(kind)).Some? && i <= LatestWaiting(rows, NameOf(kind)).value
    {
      NoneWaitsLater(rows, NameOf(kind), i);
    }
  }

  lemma NamesDiffer()
    ensures forall a: Kind, b: Kind :: NameOf(a) == NameOf(b) <==> (a.GlobalMaintenance? <==> b.GlobalMaintenance?)
  {
    assert |"autopilot-cycle"| != |"autopilot-global-maintenance"|;
  }

  // Submitted with maxWaiting and no standing holder of its key, a job is
  // inserted exactly when nothing of its name waits; otherwise the submission
  // returns the latest row of its name that does.
  lemma CoalescesIff(rows: seq<Job>, width: nat, kind: Kind, pull: bool)
    requires KeysApart(rows, width) && |kind.slot| == width
    requires forall i :: 0 <= i < |rows| && rows[i].holdsKey && rows[i].kind == kind ==> Gone(rows[i])
    ensures var r := AddTo(rows, kind, pull, true);
      (forall i :: 0 <= i < |rows| ==> !WaitsLike(rows[i], kind)) ==>
        && r.id == |rows| && |r.rows| == |rows| + 1 && r.rows[|rows|] == Job(kind, pull, Waiting, true)
        && SameButKeys(rows, r.rows[..|rows|])
    ensures var r := AddTo(rows, kind, pull, true);
      (exists i :: 0 <= i < |rows| && WaitsLike(rows[i], kind)) ==>
        && SameButKeys(rows, r.rows) && r.id < |rows| && WaitsLike(rows[r.id], kind)
        && forall i :: r.id < i < |rows| ==> !WaitsLike(rows[i], kind)
  {
    var holder := HolderOf(rows, KeyOf(kind));
    var freed := FreeKey(rows, holder);
    HeldBy(rows, width, kind, holder);
    Freed(rows, width, kind, holder);
    SameWaiting(rows, freed, NameOf(kind));
    WaitingByName(rows, kind);
    assert (freed + [Job(kind, pull, Waiting, true)])[..|rows|] == freed;
  }

  // ---- runs of submissions, worker transitions and operator retries ----

  // A worker moves standing rows to any status; an operator's retry makes a
  // failed or dead row wait again, with whatever is left of its key.
  datatype Event = Submit(kind: Kind, pull: bool, maxWaitingOne: bool) | Work(id: nat, status: Status) | Retry(id: nat)

  function Apply(rows: seq<Job>, e: Event): seq<Job> {
    match e
    case Submit(kind, pull, one) => AddTo(rows, kind, pull, one).rows
    case Work(id, status) =>
      if id < |rows| && !Gone(rows[id]) then rows[id := rows[id].(status := status)] else rows
    case Retry(id) =>
      if id < |rows| && (rows[id].status.Failed? || rows[id].status.Dead?) then rows[id := rows[id].(status := Waiting)] else rows
  }

  function Run(events: seq<Event>): seq<Job> {
    if events == [] then [] else Apply(Run(events[..|events| - 1]), events[|events| - 1])
  }

  // The row brought back, if any, still holds its key.
  predicate KeepsKey(rows: seq<Job>, e: Event) {
    e.Retry? && e.id < |rows| && rows[e.id].status.Dead? ==> rows[e.id].holdsKey
  }

  // A step keeps the queue consistent unless it brings back a row whose key is gone.
  lemma StepConsistentIff(rows: seq<Job>, e: Event, width: nat)
    requires Consistent(rows, width) && (e.Submit? ==> |e.kind.slot| == width)
    ensures Consistent(Apply(rows, e), width) <==> KeepsKey(rows, e)
  {
    if e.Submit? {
      AddKeepsConsistent(rows, width, e.kind, e.pull, e.maxWaitingOne);
    }
    if !KeepsKey(rows, e) {
      assert !Apply(rows, e)[e.id].holdsKey && !Gone(Apply(rows, e)[e.id]);
    }
  }

  ghost predicate OneWidth(events: seq<Event>, width: nat) {
    forall k :: 0 <= k < |events| && events[k].Submit? ==> |events[k].kind.slot| == width
  }

  // No event of the run brings back a row whose key is gone.
  ghost predicate RetriesKeepKeys(events: seq<Event>) {
    events == [] ||
      (RetriesKeepKeys(events[..|events| - 1]) && KeepsKey(Run(events[..|events| - 1]), events[|events| - 1]))
  }

  // Consistent after every event so far.
  ghost predicate AlwaysConsistent(events: seq<Event>, width: nat) {
    Consistent(Run(events), width) && (events != [] ==> AlwaysConsistent(events[..|events| - 1], width))
  }

  // A run stays consistent exactly when every retry of a dead row finds it with its key.
  lemma {:induction false} RunConsistentIff(events: seq<Event>, width: nat)
    requires OneWidth(events, width)
    ensures AlwaysConsistent(events, width) <==> RetriesKeepKeys(events)
  {
    if events != [] {
      var k := |events| - 1;
      RunConsistentIff(events[..k], width);
      if Consistent(Run(events[..k]), width) {
        StepConsistentIff(Run(events[..k]), events[k], width);
      }
    }
  }

  // Whatever ticks submit, workers do and operators retry, as long as no retry
  // brings back a row that has lost its key: there is never more than one
  // standing job for a source and slot, nor more than one global job for a slot.
  lemma OneStandingJobPerSourceAndSlot(events: seq<Event>, width: nat, i: nat, j: nat)
    requires OneWidth(events, width) && RetriesKeepKeys(events)
    requires i < j < |Run(events)|
    requires !Gone(Run(events)[i]) && !Gone(Run(events)[j])
    ensures Run(events)[i].kind != Run(events)[j].kind
  {
    RunConsistentIff(events, width);
  }

  // Retrying a dead row leaves one standing job per kind exactly when none of its
  // kind stands already, as is sure in a consistent queue if it has its key.
  lemma RetryUniqueIff(rows: seq<Job>, id: nat)
    requires OneStandingPerKind(rows) && id < |rows| && rows[id].status.Dead?
    ensures OneStandingPerKind(Apply(rows, Retry(id))) <==> !HasStandingJob(rows, rows[id].kind)
    ensures forall width :: Consistent(rows, width) && rows[id].holdsKey ==> !HasStandingJob(rows, rows[id].kind)
  {
    var after := Apply(rows, Retry(id));
    if HasStandingJob(rows, rows[id].kind) {
      var i :| 0 <= i < |rows| && rows[i].kind == rows[id].kind && !Gone(rows[i]);
      assert after[i].kind == after[id].kind && !Gone(after[i]) && !Gone(after[id]);
    }
  }

  // ---- at most one waiting global job ----

  ghost predicate OneGlobalWaiting(rows: seq<Job>) {
    forall i, j :: 0 <= i < j < |rows| && rows[i].kind.GlobalMaintenance? && rows[j].kind.GlobalMaintenance? ==>
      !(rows[i].status.Waiting? && rows[j].status.Waiting?)
  }

  // Global maintenance is submitted with maxWaiting, as the dispatcher does, and
  // nothing but a submission makes it wait.
  ghost predicate GlobalBackpressure(rows: seq<Job>, e: Event) {
    match e
    case Submit(kind, pull, one) => kind.GlobalMaintenance? ==> one
    case Work(id, status) => status.Waiting? && id < |rows| ==> rows[id].status.Waiting? || !rows[id].kind.GlobalMaintenance?
    case Retry(id) => id < |rows| ==> !rows[id].kind.GlobalMaintenance?
  }

  ghost predicate AllBackpressure(events: seq<Event>) {
    events == [] ||
      (AllBackpressure(events[..|events| - 1]) && GlobalBackpressure(Run(events[..|events| - 1]), events[|events| - 1]))
  }

  lemma GlobalSame(rows: seq<Job>, rows': seq<Job>)
    requires SameButKeys(rows, rows') && OneGlobalWaiting(rows)
    ensures OneGlobalWaiting(rows')
  {
  }

  lemma SubmitOneGlobal(rows: seq<Job>, width: nat, kind: Kind, pull: bool, one: bool)
    requires KeysApart(rows, width) && |kind.slot| == width && OneGlobalWaiting(rows) && (kind.GlobalMaintenance? ==> one)
    ensures OneGlobalWaiting(AddTo(rows, kind, pull, one).rows)
  {
    var holder := HolderOf(rows, KeyOf(kind));
    if holder.None? || Gone(rows[holder.value]) {
      var freed := FreeKey(rows, holder);
      Freed(rows, width, kind, holder);
      GlobalSame(rows, freed);
      WaitingByName(freed, kind);
    }
  }

  lemma StepOneGlobal(rows: seq<Job>, width: nat, e: Event)
    requires KeysApart(rows, width) && OneGlobalWaiting(rows) && GlobalBackpressure(rows, e)
    requires e.Submit? ==> |e.kind.slot| == width
    ensures OneGlobalWaiting(Apply(rows, e))
  {
    if e.Submit? {
      SubmitOneGlobal(rows, width, e.kind, e.pull, e.maxWaitingOne);
    }
  }

  // So over a run there is never more than one waiting global job.
  lemma {:induction false} RunOneGlobalWaiting(events: seq<Event>, width: nat)
    requires OneWidth(events, width) && AllBackpressure(events)
    ensures OneGlobalWaiting(Run(events))
  {
    if events != [] {
      var init, last := events[..|events| - 1], events[|events| - 1];
      RunOneGlobalWaiting(init, width);
      RunKeepsApart(init, width);
      StepOneGlobal(Run(init), width, last);
    }
  }

  // ---- one standing job per kind, exactly ----

  // A standing row of this kind has lost its key.
  ghost predicate Keyless(rows: seq<Job>, kind: Kind) {
    exists i :: 0 <= i < |rows| && rows[i].kind == kind && !Gone(rows[i]) && !rows[i].holdsKey
  }

  // The two ways to a second standing row: a retry beside one, and a submission
  // that cannot see one because its key is gone and that is not coalesced either.
  ghost predicate KeepsUnique(rows: seq<Job>, e: Event) {
    match e
    case Submit(kind, pull, one) => Keyless(rows, kind) ==> one && LatestWaiting(rows, NameOf(kind)).Some?
    case Work(id, status) => true
    case Retry(id) => id < |rows| && rows[id].status.Dead? ==> !HasStandingJob(rows, rows[id].kind)
  }

  lemma {:induction false} SameWaiting(rows: seq<Job>, rows': seq<Job>, name: string)
    requires SameButKeys(rows, rows')
    ensures LatestWaiting(rows', name) == LatestWaiting(rows, name)
  {
    if rows != [] {
      SameWaiting(rows[..|rows| - 1], rows'[..|rows| - 1], name);
    }
  }

  lemma AddKeepsApart(rows: seq<Job>, width: nat, kind: Kind, pull: bool, one: bool)
    requires KeysApart(rows, width) && |kind.slot| == width
    ensures KeysApart(AddTo(rows, kind, pull, one).rows, width)
  {
    var holder := HolderOf(rows, KeyOf(kind));
    if holder.None? || Gone(rows[holder.value]) {
      Freed(rows, width, kind, holder);
      Inserted(FreeKey(rows, holder), width, kind, pull);
    }
  }

  // Every event keeps the keys apart, retries without a key included.
  lemma StepKeepsApart(rows: seq<Job>, e: Event, width: nat)
    requires KeysApart(rows, width) && (e.Submit? ==> |e.kind.slot| == width)
    ensures KeysApart(Apply(rows, e), width)
  {
    if e.Submit? {
      AddKeepsApart(rows, width, e.kind, e.pull, e.maxWaitingOne);
    }
  }

  lemma InsertUniqueIff(rows: seq<Job>, job: Job)
    requires OneStandingPerKind(rows) && !Gone(job)
    ensures OneStandingPerKind(rows + [job]) <==> !HasStandingJob(rows, job.kind)
  {
    var after := rows + [job];
    if HasStandingJob(rows, job.kind) {
      var i :| 0 <= i < |rows| && rows[i].kind == job.kind && !Gone(rows[i]);
      assert after[i].kind == after[|rows|].kind && !Gone(after[i]);
    }
  }

  // What stands beside a live holder, and without one.
  lemma StandingOfKind(rows: seq<Job>, width: nat, kind: Kind, holder: Option<nat>)
    requires KeysApart(rows, width) && OneStandingPerKind(rows) && |kind.slot| == width
    requires holder == HolderOf(rows, KeyOf(kind))
    ensures holder.Some? && !Gone(rows[holder.value]) ==> !Keyless(rows, kind)
    ensures (holder.Some? ==> Gone(rows[holder.value])) ==> (Keyless(rows, kind) <==> HasStandingJob(rows, kind))
  {
    HeldBy(rows, width, kind, holder);
  }

  lemma StandingSame(rows: seq<Job>, rows': seq<Job>, kind: Kind)
    requires SameButKeys(rows, rows')
    ensures HasStandingJob(rows', kind) <==> HasStandingJob(rows, kind)
    ensures OneStandingPerKind(rows') <==> OneStandingPerKind(rows)
  {
    if HasStandingJob(rows, kind) {
      var i :| 0 <= i < |rows| && rows[i].kind == kind && !Gone(rows[i]);
      assert rows'[i].kind == kind && !Gone(rows'[i]);
    }
    forall i, j | 0 <= i < j < |rows|
      ensures !Gone(rows'[i]) && !Gone(rows'[j]) && rows'[i].kind == rows'[j].kind <==>
        !Gone(rows[i]) && !Gone(rows[j]) && rows[i].kind == rows[j].kind
    {
    }
  }

  lemma SubmitUniqueIff(rows: seq<Job>, width: nat, kind: Kind, pull: bool, one: bool)
    requires KeysApart(rows, width) && OneStandingPerKind(rows) && |kind.slot| == width
    ensures OneStandingPerKind(AddTo(rows, kind, pull, one).rows) <==>
      (Keyless(rows, kind) ==> one && LatestWaiting(rows, NameOf(kind)).Some?)
  {
    var holder := HolderOf(rows, KeyOf(kind));
    StandingOfKind(rows, width, kind, holder);
    if holder.None? || Gone(rows[holder.value]) {
      var freed := FreeKey(rows, holder);
      Freed(rows, width, kind, holder);
      SameWaiting(rows, freed, NameOf(kind));
      StandingSame(rows, freed, kind);
      InsertUniqueIff(freed, Job(kind, pull, Waiting, true));
    }
  }

  lemma StepUniqueIff(rows: seq<Job>, e: Event, width: nat)
    requires KeysApart(rows, width) && OneStandingPerKind(rows) && (e.Submit? ==> |e.kind.slot| == width)
    ensures OneStandingPerKind(Apply(rows, e)) <==> KeepsUnique(rows, e)
  {
    match e {
      case Submit(kind, pull, one) => SubmitUniqueIff(rows, width, kind, pull, one);
      case Work(id, status) =>
      case Retry(id) =>
        if id < |rows| && rows[id].status.Dead? {
          RetryUniqueIff(rows, id);
        }
    }
  }

  // One standing job per kind after every event so far.
  ghost predicate AlwaysUnique(events: seq<Event>) {
    OneStandingPerKind(Run(events)) && (events != [] ==> AlwaysUnique(events[..|events| - 1]))
  }

  ghost predicate AllKeepUnique(events: seq<Event>) {
    events == [] ||
      (AllKeepUnique(events[..|events| - 1]) && KeepsUnique(Run(events[..|events| - 1]), events[|events| - 1]))
  }

  lemma {:induction false} RunKeepsApart(events: seq<Event>, width: nat)
    requires OneWidth(events, width)
    ensures KeysApart(Run(events), width)
  {
    if events != [] {
      var k := |events| - 1;
      RunKeepsApart(events[..k], width);
      StepKeepsApart(Run(events[..k]), events[k], width);
    }
  }

  // Over any run, there is never more than one standing job for a source and
  // slot, nor more than one global job for a slot, exactly when every event
  // keeps it so: no retry beside a standing job, and no submission past one
  // that has lost its key.
  lemma {:induction false} RunUniqueIff(events: seq<Event>, width: nat)
    requires OneWidth(events, width)
    ensures AlwaysUnique(events) <==> AllKeepUnique(events)
  {
    if events != [] {
      var k := |events| - 1;
      RunUniqueIff(events[..k], width);
      RunKeepsApart(events[..k], width);
      if OneStandingPerKind(Run(events[..k])) {
        StepUniqueIff(Run(events[..k]), events[k], width);
      }
    }
  }

  ghost predicate OneStandingPerKind(rows: seq<Job>) {
    forall i, j :: 0 <= i < j < |rows| && !Gone(rows[i]) && !Gone(rows[j]) ==> rows[i].kind != rows[j].kind
  }

  ghost predicate HasStandingJob(rows: seq<Job>, kind: Kind) {
    exists i :: 0 <= i < |rows| && rows[i].kind == kind && !Gone(rows[i])
  }

  lemma NextRun(events: seq<Event>, k: nat, before: seq<Job>)
    requires k < |events| && Run(events[..k]) == before
    ensures Run(events[..k + 1]) == Apply(before, events[k])
  {
    assert events[..k + 1][..k] == events[..k];
  }

  lemma FirstSubmission(kind: Kind)
    ensures AddTo([], kind, false, false).rows == [Job(kind, false, Waiting, true)]
  {
  }

  lemma Resubmission(dead: Job, kind: Kind)
    requires dead == Job(kind, false, Dead, true)
    ensures AddTo([dead], kind, false, false).rows == [dead.(holdsKey := false), Job(kind, false, Waiting, true)]
  {
    assert Holds([dead][0], KeyOf(kind));
  }

  lemma Dies(kind: Kind, events: seq<Event>)
    requires |events| == 4 && events[0] == Submit(kind, false, false) && events[1] == Work(0, Dead)
    ensures Run(events[..2]) == [Job(kind, false, Dead, true)]
  {
    FirstSubmission(kind);
    NextRun(events, 0, []);
    NextRun(events, 1, [Job(kind, false, Waiting, true)]);
  }

  lemma DiesAndIsResubmitted(kind: Kind, events: seq<Event>)
    requires |events| == 4 && events[..3] == [Submit(kind, false, false), Work(0, Dead), Submit(kind, false, false)]
    ensures Run(events[..3]) == [Job(kind, false, Dead, false), Job(kind, false, Waiting, true)]
  {
    assert events[0] == events[..3][0] && events[1] == events[..3][1] && events[2] == events[..3][2];
    Dies(kind, events);
    Resubmission(Job(kind, false, Dead, true), kind);
    NextRun(events, 2, [Job(kind, false, Dead, true)]);
  }

  // A job that died, was submitted again and is then retried by hand stands twice.
  lemma RetryAfterResubmission(kind: Kind, events: seq<Event>)
    requires events == [Submit(kind, false, false), Work(0, Dead), Submit(kind, false, false), Retry(0)]
    ensures Run(events) == [Job(kind, false, Waiting, false), Job(kind, false, Waiting, true)]
  {
    DiesAndIsResubmitted(kind, events);
    NextRun(events, 3, Run(events[..3]));
    assert events[..4] == events;
  }

  // A second way: the successor has died too when the first job is brought back
  // without its key. Nothing stands twice then, but the next submission does not
  // see the job brought back.
  lemma {:induction false} SubmissionPastKeyless(kind: Kind, rows: seq<Job>)
    requires rows == [Job(kind, false, Dead, false), Job(kind, false, Dead, true)]
    ensures var revived := Apply(rows, Retry(0));
      && !KeepsKey(rows, Retry(0)) && OneStandingPerKind(revived)
      && Apply(revived, Submit(kind, false, false)) ==
        [Job(kind, false, Waiting, false), Job(kind, false, Dead, false), Job(kind, false, Waiting, true)]
  {
    var revived := Apply(rows, Retry(0));
    assert revived == [Job(kind, false, Waiting, false), Job(kind, false, Dead, true)];
    assert Holds(revived[1], KeyOf(kind));
    assert HolderOf(revived, KeyOf(kind)) == Some(1);
  }

  function TwiceDead(kind: Kind): seq<Event> {
    [Submit(kind, false, false), Work(0, Dead), Submit(kind, false, false), Work(1, Dead), Retry(0), Submit(kind, false, false)]
  }

  lemma TwiceDeadRuns(kind: Kind, events: seq<Event>)
    requires events == TwiceDead(kind)
    ensures Run(events[..1]) == [Job(kind, false, Waiting, true)]
    ensures Run(events[..2]) == [Job(kind, false, Dead, true)]
    ensures Run(events[..3]) == [Job(kind, false, Dead, false), Job(kind, false, Waiting, true)]
    ensures Run(events[..4]) == [Job(kind, false, Dead, false), Job(kind, false, Dead, true)]
  {
    FirstSubmission(kind);
    NextRun(events, 0, []);
    DiesAndIsResubmitted(kind, events[..4]);
    assert events[..4][..2] == events[..2] && events[..4][..3] == events[..3];
    Dies(kind, events[..4]);
    NextRun(events, 3, Run(events[..3]));
  }

  lemma {:induction false} UniqueUpTo(events: seq<Event>, k: nat)
    requires k <= |events| && forall i :: 0 <= i <= k ==> OneStandingPerKind(Run(events[..i]))
    ensures AlwaysUnique(events[..k])
  {
    if k > 0 {
      UniqueUpTo(events, k - 1);
      assert events[..k][..k - 1] == events[..k - 1];
    }
  }

  lemma FewStanding(rows: seq<Job>)
    requires |rows| <= 2 && (|rows| == 2 ==> Gone(rows[0]) || Gone(rows[1]))
    ensures OneStandingPerKind(rows)
  {
  }

  lemma RetriedWithoutKey(kind: Kind, events: seq<Event>, rows: seq<Job>)
    requires |events| >= 5 && events[4] == Retry(0) && rows == Run(events[..4])
    requires rows == [Job(kind, false, Dead, false), Job(kind, false, Dead, true)]
    ensures !RetriesKeepKeys(events[..5])
    ensures Run(events[..5]) == Apply(rows, Retry(0))
  {
    NextRun(events, 4, rows);
    assert events[..5][..4] == events[..4];
  }

  lemma TwiceDeadStanding(kind: Kind, events: seq<Event>, k: nat)
    requires events == TwiceDead(kind) && k <= 4
    ensures OneStandingPerKind(Run(events[..k]))
  {
    FewStanding([]);
    assert Run(events[..0]) == [];
    TwiceDeadRuns(kind, events);
    if k == 1 {
      FewStanding(Run(events[..1]));
    } else if k == 2 {
      FewStanding(Run(events[..2]));
    } else if k == 3 {
      FewStanding(Run(events[..3]));
    } else if k == 4 {
      FewStanding(Run(events[..4]));
    }
  }

  lemma TwiceDeadRetried(kind: Kind, events: seq<Event>)
    requires events == TwiceDead(kind)
    ensures !RetriesKeepKeys(events[..5]) && OneStandingPerKind(Run(events[..5]))
    ensures Run(events[..6]) ==
      [Job(kind, false, Waiting, false), Job(kind, false, Dead, false), Job(kind, false, Waiting, true)]
  {
    TwiceDeadRuns(kind, events);
    var rows := Run(events[..4]);
    SubmissionPastKeyless(kind, rows);
    RetriedWithoutKey(kind, events, rows);
    NextRun(events, 5, Run(events[..5]));
  }

  // So in this run a retry without a key leaves one standing job per kind after
  // every event, until the next submission makes a second one.
  lemma UniqueUntilSubmission(kind: Kind, events: seq<Event>)
    requires events == TwiceDead(kind)
    ensures AlwaysUnique(events[..5]) && !RetriesKeepKeys(events[..5])
    ensures Run(events[..6]) ==
      [Job(kind, false, Waiting, false), Job(kind, false, Dead, false), Job(kind, false, Waiting, true)]
  {
    TwiceDeadRetried(kind, events);
    forall i | 0 <= i <= 5 ensures OneStandingPerKind(Run(events[..i])) {
      if i <= 4 {
        TwiceDeadStanding(kind, events, i);
      }
    }
    UniqueUpTo(events, 5);
  }

  class MinionQueue {
    var rows: seq<Job>
    const width: nat

    ghost predicate Valid()
      reads this
    {
      Consistent(rows, width)
    }

    constructor (width: nat)
      ensures Valid() && rows == [] && this.width == width
    {
      this.rows := [];
      this.width := width;
    }

    method Add(kind: Kind, pull: bool, maxWaitingOne: bool) returns (id: nat)
      requires Valid() && |kind.slot| == width
      modifies this`rows
      ensures Valid()
      ensures Added(rows, id) == AddTo(old(rows), kind, pull, maxWaitingOne)
    {
      AddKeepsConsistent(rows, width, kind, pull, maxWaitingOne);
      var holder := HolderOf(rows, KeyOf(kind));
      if holder.Some? {
        if !Gone(rows[holder.value]) {
          return holder.value;
        }
        rows := rows[holder.value := rows[holder.value].(holdsKey := false)];
      }
      if maxWaitingOne {
        var waiting := LatestWaiting(rows, NameOf(kind));
        if waiting.Some? {
          return waiting.value;
        }
      }
      id := |rows|;
      rows := rows + [Job(kind, pull, Waiting, true)];
    }

    // An operator's retry: a failed or dead row waits again, as it is.
    method RetryJob(id: nat) returns (found: bool)
      modifies this`rows
      ensures rows == Apply(old(rows), Retry(id))
      ensures found <==> id < |old(rows)| && (old(rows)[id].status == Failed || old(rows)[id].status == Dead)
      ensures found ==> rows[id] == old(rows)[id].(status := Waiting)
    {
      if id >= |rows| || !(rows[id].status.Failed? || rows[id].status.Dead?) {
        return false;
      }
      rows := rows[id := rows[id].(status := Waiting)];
      return true;
    }
  }

  // ---- what a submitted cycle carries ----

  // A new row after a tick: the cycle of one of its sources, pulling exactly
  // when the source has a remote.
  ghost predicate CycleOf(j: Job, sources: seq<Source>, slot: string) {
    exists s :: s in sources && j == Job(SourceCycle(s.id, slot), s.remoteUrl != None && s.remoteUrl != Some(""), Waiting, true)
  }

  lemma {:induction false} SubmittedCycles(rows: seq<Job>, width: nat, sources: seq<Source>, slot: string)
    requires Consistent(rows, width) && |slot| == width
    ensures var after := SubmitAll(rows, sources, slot);
      && |rows| <= |after|
      && forall i :: |rows| <= i < |after| ==> CycleOf(after[i], sources, slot)
  {
    if sources != [] {
      var k := |sources| - 1;
      var before := SubmitAll(rows, sources[..k], slot);
      SubmittedCycles(rows, width, sources[..k], slot);
      SubmitAllConsistent(rows, width, sources[..k], slot);
      NewRow(before, width, sources[k], slot);
      var after := SubmitAll(rows, sources, slot);
      forall i | |rows| <= i < |after| ensures CycleOf(after[i], sources, slot) {
        if i < |before| {
          assert !Gone(before[i]);
          assert after[i] == before[i];
          var s :| s in sources[..k] && before[i] == Job(SourceCycle(s.id, slot), s.remoteUrl != None && s.remoteUrl != Some(""), Waiting, true);
          assert s in sources;
        } else {
          assert sources[k] in sources;
        }
      }
    }
  }

  lemma NewRow(rows: seq<Job>, width: nat, s: Source, slot: string)
    requires Consistent(rows, width) && |slot| == width
    ensures var after := AddTo(rows, SourceCycle(s.id, slot), PullOf(s), false).rows;
      && |rows| <= |after| <= |rows| + 1
      && (forall i :: 0 <= i < |rows| && !Gone(rows[i]) ==> after[i] == rows[i])
      && (|after| > |rows| ==> after[|rows|] == Job(SourceCycle(s.id, slot), s.remoteUrl != None && s.remoteUrl != Some(""), Waiting, true))
  {
  }

  // ---- dispatchPerSource ----

  datatype FanoutResult = FanoutResult(dispatched: seq<string>, skippedFresh: seq<string>, skippedCap: seq<string>,
                                       skippedCooldown: seq<string>, legacyFallback: bool)

  function IdsOf(sources: seq<Source>): (ids: seq<string>)
    ensures |ids| == |sources|
    ensures forall i :: 0 <= i < |ids| ==> ids[i] == sources[i].id
  {
    seq(|sources|, i requires 0 <= i < |sources| => sources[i].id)
  }

  function PullOf(s: Source): bool {
    s.remoteUrl.Some? && s.remoteUrl.value != ""
  }

  // The sources whose submission did not throw.
  function Submitted(dispatch: seq<Source>, throws: set<string>): seq<Source> {
    if dispatch == [] then []
    else
      var k := |dispatch| - 1;
      Submitted(dispatch[..k], throws) + if dispatch[k].id in throws then [] else [dispatch[k]]
  }

  function SubmitAll(rows: seq<Job>, sources: seq<Source>, slot: string): seq<Job> {
    if sources == [] then rows
    else
      var k := |sources| - 1;
      AddTo(SubmitAll(rows, sources[..k], slot), SourceCycle(sources[k].id, slot), PullOf(sources[k]), false).rows
  }

  // A failed read of the cooldown settings or of the job history disables the
  // cooldown for the tick: opts arrives with baseMin 0.
  method DispatchPerSource(queue: MinionQueue, sources: seq<Source>, idLeq: (string, string) -> bool, slot: string,
                           fanoutMax: nat, now: int, history: seq<JobRow>, opts: CooldownOpts, throws: set<string>)
    returns (r: FanoutResult)
    requires queue.Valid() && |slot| == queue.width
    modifies queue`rows
    ensures queue.Valid()
    ensures sources == [] ==>
      && r == FanoutResult([], [], [], [], true)
      && queue.rows == AddTo(old(queue.rows), LegacyCycle(slot), false, true).rows
    ensures sources != [] ==> exists failures ::
      && (forall id :: Lookup(failures, id) == if opts.baseMin > 0 then FailureSince(history, id, WindowStart(now, opts)) else None)
      && var sel := Select(idLeq, sources, fanoutMax, now, 60, failures, opts);
      && r == FanoutResult(IdsOf(Submitted(sel.dispatch, throws)), IdsOf(sel.skippedFresh), IdsOf(sel.skippedCap),
                           IdsOf(sel.skippedCooldown), false)
      && queue.rows == SubmitAll(old(queue.rows), Submitted(sel.dispatch, throws), slot)
  {
    if sources == [] {
      var id := queue.Add(LegacyCycle(slot), false, true);
      return FanoutResult([], [], [], [], true);
    }
    var failures: map<string, Failure> := map[];
    if opts.baseMin > 0 {
      failures := ReadRecentSourceFailures(history, WindowStart(now, opts), None);
    }
    assert forall id :: Lookup(failures, id) == if opts.baseMin > 0 then ReadFor(history, id, WindowStart(now, opts), None) else None;
    var sel := SelectSourcesForDispatch(idLeq, sources, fanoutMax, now, FULL_CYCLE_FLOOR_MIN, failures, opts);
    var dispatched := SubmitEach(queue, sel.dispatch, slot, throws);
    r := FanoutResult(dispatched, IdsOf(sel.skippedFresh), IdsOf(sel.skippedCap), IdsOf(sel.skippedCooldown), false);
  }

  // One failed submission does not stop the others.
  method SubmitEach(queue: MinionQueue, dispatch: seq<Source>, slot: string, throws: set<string>) returns (dispatched: seq<string>)
    requires queue.Valid() && |slot| == queue.width
    modifies queue`rows
    ensures queue.Valid()
    ensures dispatched == IdsOf(Submitted(dispatch, throws))
    ensures queue.rows == SubmitAll(old(queue.rows), Submitted(dispatch, throws), slot)
  {
    dispatched := [];
    for i := 0 to |dispatch|
      invariant queue.Valid()
      invariant dispatched == IdsOf(Submitted(dispatch[..i], throws))
      invariant queue.rows == SubmitAll(old(queue.rows), Submitted(dispatch[..i], throws), slot)
    {
      var src := dispatch[i];
      SubmitNext(old(queue.rows), dispatch, i, slot, throws);
      if src.id !in throws {
        var id := queue.Add(SourceCycle(src.id, slot), PullOf(src), false);
        dispatched := dispatched + [src.id];
      }
    }
    assert dispatch[..|dispatch|] == dispatch;
  }

  lemma SubmitNext(rows: seq<Job>, dispatch: seq<Source>, i: nat, slot: string, throws: set<string>)
    requires i < |dispatch|
    ensures var done, done' := Submitted(dispatch[..i], throws), Submitted(dispatch[..i + 1], throws);
      var src := dispatch[i];
      && (src.id in throws ==> done' == done)
      && (src.id !in throws ==> IdsOf(done') == IdsOf(done) + [src.id])
      && (src.id !in throws ==>
        SubmitAll(rows, done', slot) == AddTo(SubmitAll(rows, done, slot), SourceCycle(src.id, slot), PullOf(src), false).rows)
  {
    assert dispatch[..i + 1][..i] == dispatch[..i];
    var done, done' := Submitted(dispatch[..i], throws), Submitted(dispatch[..i + 1], throws);
    if dispatch[i].id !in throws {
      assert done' == done + [dispatch[i]];
      assert done'[..|done|] == done;
    }
  }

  lemma {:induction false} SubmitAllConsistent(rows: seq<Job>, width: nat, sources: seq<Source>, slot: string)
    requires Consistent(rows, width) && |slot| == width
    ensures Consistent(SubmitAll(rows, sources, slot), width)
  {
    if sources != [] {
      var k := |sources| - 1;
      SubmitAllConsistent(rows, width, sources[..k], slot);
      AddKeepsConsistent(SubmitAll(rows, sources[..k], slot), width, SourceCycle(sources[k].id, slot), PullOf(sources[k]), false);
    }
  }

  lemma AddGivesStandingJob(rows: seq<Job>, width: nat, kind: Kind, pull: bool, other: Kind)
    requires Consistent(rows, width) && |kind.slot| == width
    ensures HasStandingJob(AddTo(rows, kind, pull, false).rows, kind)
    ensures HasStandingJob(rows, other) ==> HasStandingJob(AddTo(rows, kind, pull, false).rows, other)
  {
    AddKeepsConsistent(rows, width, kind, pull, false);
    var after := AddTo(rows, kind, pull, false);
    assert after.rows[after.id].kind == kind;
    if HasStandingJob(rows, other) {
      var i :| 0 <= i < |rows| && rows[i].kind == other && !Gone(rows[i]);
      assert after.rows[i].kind == other;
    }
  }

  lemma StandingAfterLast(rows: seq<Job>, width: nat, sources: seq<Source>, slot: string, before: seq<Job>, kind: Kind)
    requires sources != [] && before == SubmitAll(rows, sources[..|sources| - 1], slot)
    requires Consistent(before, width) && |slot| == width
    requires HasStandingJob(before, kind) || kind == SourceCycle(sources[|sources| - 1].id, slot)
    ensures HasStandingJob(SubmitAll(rows, sources, slot), kind)
  {
    var last := sources[|sources| - 1];
    AddGivesStandingJob(before, width, SourceCycle(last.id, slot), PullOf(last), kind);
  }

  // After the tick every source reported as dispatched has a job of its own for
  // this slot that is neither dead nor cancelled, whatever else is queued.
  lemma {:induction false} DispatchedHaveJobs(rows: seq<Job>, width: nat, sources: seq<Source>, slot: string, s: Source)
    requires Consistent(rows, width) && |slot| == width && s in sources
    ensures HasStandingJob(SubmitAll(rows, sources, slot), SourceCycle(s.id, slot))
    decreases |sources|
  {
    var before := sources[..|sources| - 1];
    SubmitAllConsistent(rows, width, before, slot);
    if s in before {
      DispatchedHaveJobs(rows, width, before, slot, s);
    }
    StandingAfterLast(rows, width, sources, slot, SubmitAll(rows, before, slot), SourceCycle(s.id, slot));
  }

  // Ticks repeated within one slot insert nothing new while the jobs stand.
  lemma {:induction false} RepeatedTickCoalesces(rows: seq<Job>, width: nat, sources: seq<Source>, slot: string)
    requires Consistent(rows, width) && |slot| == width
    requires forall s :: s in sources ==> HasStandingJob(rows, SourceCycle(s.id, slot))
    ensures SubmitAll(rows, sources, slot) == rows
  {
    if sources != [] {
      var k := |sources| - 1;
      RepeatedTickCoalesces(rows, width, sources[..k], slot);
      var kind := SourceCycle(sources[k].id, slot);
      assert HasStandingJob(rows, kind);
      var i :| 0 <= i < |rows| && rows[i].kind == kind && !Gone(rows[i]);
      assert Holds(rows[i], KeyOf(kind));
      var holder := HolderOf(rows, KeyOf(kind));
      KeysInjective(rows[holder.value].kind, kind);
    }
  }

  // ---- dispatchGlobalMaintenance ----

  predicate IsGlobalMaintenanceStale(lastGlobalAt: Stamp, now: int, floorMin: int) {
    !lastGlobalAt.At? || now - lastGlobalAt.ms >= floorMin * MS_PER_MIN
  }

  method DispatchGlobalMaintenance(queue: MinionQueue, slot: string, lastGlobalAt: Stamp, now: int, floorMin: int) returns (dispatched: bool)
    requires queue.Valid() && |slot| == queue.width
    modifies queue`rows
    ensures queue.Valid()
    ensures dispatched <==> !lastGlobalAt.At? || now - lastGlobalAt.ms >= floorMin * 60_000
    ensures queue.rows == if dispatched then AddTo(old(queue.rows), GlobalMaintenance(slot), false, true).rows else old(queue.rows)
  {
    if !IsGlobalMaintenanceStale(lastGlobalAt, now, floorMin) {
      return false;
    }
    var id := queue.Add(GlobalMaintenance(slot), false, true);
    return true;
  }
}
