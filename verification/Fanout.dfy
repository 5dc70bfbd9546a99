// src/commands/autopilot-fanout.ts: which sources a tick dispatches.
// Instants are milliseconds since the epoch, windows are minutes.
module Fanout {
  import opened Wrappers
  import opened Collections
  import opened Sorting

  const FULL_CYCLE_FLOOR_MIN := 60
  const FAILURE_COOLDOWN_BASE_MIN := 10
  const FAILURE_COOLDOWN_CAP_MIN := 120
  const FAILURE_COOLDOWN_EXP_CAP := 4
  const MS_PER_MIN := 60_000

  // A timestamp field of a source's config: not a string, an empty string, a
  // string that is no date, or a date.
  datatype Stamp = Missing | Blank | Garbage | At(ms: int)

  datatype Source = Source(id: string, lastSourceCycleAt: Stamp, lastFullCycleAt: Stamp, remoteUrl: Option<string>)

  datatype Failure = Failure(count: int, lastFailedAt: int)

  datatype CooldownOpts = CooldownOpts(baseMin: int, capMin: int)

  function ReadLastFullCycleAt(src: Source): Option<int> {
    if src.lastFullCycleAt.At? then Some(src.lastFullCycleAt.ms) else None
  }

  predicate IsSourceStale(src: Source, now: int, floorMin: int) {
    match ReadLastFullCycleAt(src)
    case None => true
    case Some(last) => now - last >= floorMin * MS_PER_MIN
  }

  // The per-source stamp wins as soon as it is a non-empty string, a date or not.
  function ReadLastSuccessAt(src: Source): Option<int> {
    match src.lastSourceCycleAt
    case At(ms) => Some(ms)
    case Garbage => None
    case _ => ReadLastFullCycleAt(src)
  }

  function Pow2(e: nat): nat {
    if e == 0 then 1 else 2 * Pow2(e - 1)
  }

  function CooldownMinForCount(count: int, opts: CooldownOpts): int {
    if count <= 0 || opts.baseMin <= 0 then 0
    else MinInt(opts.baseMin * Pow2(MinInt(count - 1, FAILURE_COOLDOWN_EXP_CAP)), opts.capMin)
  }

  predicate IsInFailureCooldown(failure: Option<Failure>, lastSuccessAt: Option<int>, now: int, opts: CooldownOpts) {
    && opts.baseMin > 0
    && failure.Some? && failure.value.count > 0
    && !(lastSuccessAt.Some? && lastSuccessAt.value >= failure.value.lastFailedAt)
    && now - failure.value.lastFailedAt < CooldownMinForCount(failure.value.count, opts) * MS_PER_MIN
  }

  // ---- job history ----

  datatype JobRow = JobRow(name: string, status: string, sourceId: Option<string>, finishedAt: Option<int>)

  predicate IsFailureOf(row: JobRow, id: string, cutoff: int) {
    && row.name == "autopilot-cycle" && (row.status == "dead" || row.status == "failed")
    && row.sourceId == Some(id) && row.finishedAt.Some? && row.finishedAt.value > cutoff
  }

  function FailCount(rows: seq<JobRow>, id: string, cutoff: int): nat {
    if rows == [] then 0
    else FailCount(rows[..|rows| - 1], id, cutoff) + if IsFailureOf(rows[|rows| - 1], id, cutoff) then 1 else 0
  }

  function LatestFailure(rows: seq<JobRow>, id: string, cutoff: int): Option<int> {
    if rows == [] then None
    else
      var before := LatestFailure(rows[..|rows| - 1], id, cutoff);
      var row := rows[|rows| - 1];
      if !IsFailureOf(row, id, cutoff) then before
      else if before.Some? && before.value >= row.finishedAt.value then before
      else Some(row.finishedAt.value)
  }

  // The aggregate of the windowed query for one source; a blank id is skipped.
  function FailureSince(rows: seq<JobRow>, id: string, cutoff: int): Option<Failure> {
    var latest := LatestFailure(rows, id, cutoff);
    if id != "" && latest.Some? then Some(Failure(FailCount(rows, id, cutoff), latest.value)) else None
  }

  function Lookup<V>(m: map<string, V>, key: string): Option<V> {
    if key in m then Some(m[key]) else None
  }

  // What a read restricted to one source (or, with no or a blank id, to none) reports.
  function ReadFor(rows: seq<JobRow>, id: string, cutoff: int, only: Option<string>): Option<Failure> {
    if only.Some? && only.value != "" && id != only.value then None else FailureSince(rows, id, cutoff)
  }

  // One more row, seen from one source.
  lemma NextFailure(rows: seq<JobRow>, k: nat, id: string, cutoff: int)
    requires k < |rows|
    ensures var before := FailureSince(rows[..k], id, cutoff);
      FailureSince(rows[..k + 1], id, cutoff) ==
        if id == "" || !IsFailureOf(rows[k], id, cutoff) then before
        else if before.None? then Some(Failure(1, rows[k].finishedAt.value))
        else
          var last := rows[k].finishedAt.value;
          Some(Failure(before.value.count + 1, if before.value.lastFailedAt >= last then before.value.lastFailedAt else last))
  {
    assert rows[..k + 1][..k] == rows[..k];
    FailureCounted(rows[..k], id, cutoff);
  }

  // The grouped read, filling a map by source id.
  method ReadRecentSourceFailures(rows: seq<JobRow>, cutoff: int, only: Option<string>) returns (recent: map<string, Failure>)
    ensures forall id :: Lookup(recent, id) == ReadFor(rows, id, cutoff, only)
  {
    recent := map[];
    for k := 0 to |rows|
      invariant forall id :: Lookup(recent, id) == ReadFor(rows[..k], id, cutoff, only)
    {
      var row := rows[k];
      ghost var before := recent;
      if row.sourceId.Some? && IsFailureOf(row, row.sourceId.value, cutoff) {
        var id := row.sourceId.value;
        if id != "" && (only.None? || only.value == "" || only.value == id) {
          var last := row.finishedAt.value;
          if id in recent {
            var f := recent[id];
            recent := recent[id := Failure(f.count + 1, if f.lastFailedAt >= last then f.lastFailedAt else last)];
          } else {
            recent := recent[id := Failure(1, last)];
          }
        }
      }
      forall id ensures Lookup(recent, id) == ReadFor(rows[..k + 1], id, cutoff, only) {
        NextFailure(rows, k, id, cutoff);
        assert Lookup(before, id) == ReadFor(rows[..k], id, cutoff, only);
      }
    }
    assert rows[..|rows|] == rows;
  }

  lemma {:induction false} FailureCounted(rows: seq<JobRow>, id: string, cutoff: int)
    ensures LatestFailure(rows, id, cutoff).Some? <==> FailCount(rows, id, cutoff) > 0
    ensures LatestFailure(rows, id, cutoff).Some? ==> LatestFailure(rows, id, cutoff).value > cutoff
    ensures forall i :: 0 <= i < |rows| && IsFailureOf(rows[i], id, cutoff) ==>
      LatestFailure(rows, id, cutoff).Some? && rows[i].finishedAt.value <= LatestFailure(rows, id, cutoff).value
  {
    if rows != [] {
      FailureCounted(rows[..|rows| - 1], id, cutoff);
    }
  }

  // ---- selection ----

  datatype Selection = Selection(dispatch: seq<Source>, skippedFresh: seq<Source>, skippedCap: seq<Source>, skippedCooldown: seq<Source>)

  datatype Verdict = Fresh | Cooling | Eligible

  function Judge(s: Source, now: int, floorMin: int, failures: map<string, Failure>, opts: CooldownOpts): Verdict {
    if !IsSourceStale(s, now, floorMin) then Fresh
    else if IsInFailureCooldown(Lookup(failures, s.id), ReadLastSuccessAt(s), now, opts) then Cooling
    else Eligible
  }

  // No last full cycle sorts before any instant.
  predicate NoLater(a: Option<int>, b: Option<int>) {
    a.None? || (b.Some? && a.value <= b.value)
  }

  predicate Ahead(idLeq: (string, string) -> bool, a: Source, b: Source) {
    var la, lb := ReadLastFullCycleAt(a), ReadLastFullCycleAt(b);
    if la == lb then idLeq(a.id, b.id) else NoLater(la, lb)
  }

  // Oldest full cycle first; idLeq stands for the locale's order on ids.
  function OldestFirst(idLeq: (string, string) -> bool): (Source, Source) -> bool {
    (a: Source, b: Source) => Ahead(idLeq, a, b)
  }

  function Judged(sources: seq<Source>, v: Verdict, now: int, floorMin: int, failures: map<string, Failure>, opts: CooldownOpts): seq<Source> {
    if sources == [] then []
    else
      var k := |sources| - 1;
      Judged(sources[..k], v, now, floorMin, failures, opts)
        + if Judge(sources[k], now, floorMin, failures, opts) == v then [sources[k]] else []
  }

  function Queued(idLeq: (string, string) -> bool, sources: seq<Source>, now: int, floorMin: int,
                  failures: map<string, Failure>, opts: CooldownOpts): seq<Source> {
    Sort(OldestFirst(idLeq), Judged(sources, Eligible, now, floorMin, failures, opts))
  }

  function Select(idLeq: (string, string) -> bool, sources: seq<Source>, fanoutMax: nat, now: int, floorMin: int,
                  failures: map<string, Failure>, opts: CooldownOpts): Selection {
    var queue := Queued(idLeq, sources, now, floorMin, failures, opts);
    var cut := MinInt(fanoutMax, |queue|);
    Selection(queue[..cut], Judged(sources, Fresh, now, floorMin, failures, opts), queue[cut..],
              Judged(sources, Cooling, now, floorMin, failures, opts))
  }

  method SelectSourcesForDispatch(idLeq: (string, string) -> bool, sources: seq<Source>, fanoutMax: nat, now: int, floorMin: int,
                                  recentFailures: map<string, Failure>, opts: CooldownOpts) returns (r: Selection)
    ensures r == Select(idLeq, sources, fanoutMax, now, floorMin, recentFailures, opts)
  {
    var stale, upToDate, cooldown := [], [], [];
    for i := 0 to |sources|
      invariant stale == Judged(sources[..i], Eligible, now, floorMin, recentFailures, opts)
      invariant upToDate == Judged(sources[..i], Fresh, now, floorMin, recentFailures, opts)
      invariant cooldown == Judged(sources[..i], Cooling, now, floorMin, recentFailures, opts)
    {
      var s := sources[i];
      assert sources[..i + 1][..i] == sources[..i];
      if !IsSourceStale(s, now, floorMin) {
        upToDate := upToDate + [s];
        continue;
      }
      if IsInFailureCooldown(Lookup(recentFailures, s.id), ReadLastSuccessAt(s), now, opts) {
        cooldown := cooldown + [s];
        continue;
      }
      stale := stale + [s];
    }
    assert sources[..|sources|] == sources;
    stale := Sort(OldestFirst(idLeq), stale);
    var cut := if fanoutMax <= |stale| then fanoutMax else |stale|;
    r := Selection(stale[..cut], upToDate, stale[cut..], cooldown);
  }

  // ---- ticks ----

  // What stays the same over a run of ticks, and what one tick finds: the cap
  // is resolved anew at every tick.
  datatype Config = Config(idLeq: (string, string) -> bool, floorMin: int, opts: CooldownOpts)

  datatype Tick = Tick(now: int, fanoutMax: nat, sources: seq<Source>, rows: seq<JobRow>, failures: map<string, Failure>)

  function Selected(c: Config, t: Tick): Selection {
    Select(c.idLeq, t.sources, t.fanoutMax, t.now, c.floorMin, t.failures, c.opts)
  }

  ghost predicate Dispatches(c: Config, t: Tick, id: string) {
    exists s :: s in Selected(c, t).dispatch && s.id == id
  }

  lemma {:induction false} JudgedExactly(sources: seq<Source>, v: Verdict, now: int, floorMin: int,
                                         failures: map<string, Failure>, opts: CooldownOpts, s: Source)
    ensures s in Judged(sources, v, now, floorMin, failures, opts) <==>
      s in sources && Judge(s, now, floorMin, failures, opts) == v
  {
    if sources != [] {
      var k := |sources| - 1;
      assert sources == sources[..k] + [sources[k]];
      JudgedExactly(sources[..k], v, now, floorMin, failures, opts, s);
    }
  }

  lemma {:induction false} JudgedDisjointCover(sources: seq<Source>, now: int, floorMin: int, failures: map<string, Failure>, opts: CooldownOpts)
    ensures multiset(sources) == multiset(Judged(sources, Fresh, now, floorMin, failures, opts))
      + multiset(Judged(sources, Cooling, now, floorMin, failures, opts))
      + multiset(Judged(sources, Eligible, now, floorMin, failures, opts))
  {
    if sources != [] {
      var k := |sources| - 1;
      assert sources == sources[..k] + [sources[k]];
      JudgedDisjointCover(sources[..k], now, floorMin, failures, opts);
    }
  }

  lemma OldestFirstIsTotal(idLeq: (string, string) -> bool)
    requires TotalPreorder(idLeq)
    ensures TotalPreorder(OldestFirst(idLeq))
  {
    forall a, b ensures Ahead(idLeq, a, b) || Ahead(idLeq, b, a) {
      assert idLeq(a.id, b.id) || idLeq(b.id, a.id);
    }
    forall a, b, c | Ahead(idLeq, a, b) && Ahead(idLeq, b, c) ensures Ahead(idLeq, a, c) {
      AheadTransitive(idLeq, a, b, c);
    }
  }

  lemma AheadTransitive(idLeq: (string, string) -> bool, a: Source, b: Source, c: Source)
    requires TotalPreorder(idLeq) && Ahead(idLeq, a, b) && Ahead(idLeq, b, c)
    ensures Ahead(idLeq, a, c)
  {
    if ReadLastFullCycleAt(a) == ReadLastFullCycleAt(c) {
      assert ReadLastFullCycleAt(a) == ReadLastFullCycleAt(b);
      assert idLeq(a.id, b.id) && idLeq(b.id, c.id);
    }
  }

  lemma QueueMembers(idLeq: (string, string) -> bool, sources: seq<Source>, now: int, floorMin: int,
                     failures: map<string, Failure>, opts: CooldownOpts, s: Source)
    ensures s in Queued(idLeq, sources, now, floorMin, failures, opts) <==>
      s in sources && Judge(s, now, floorMin, failures, opts) == Eligible
  {
    var queue := Queued(idLeq, sources, now, floorMin, failures, opts);
    JudgedExactly(sources, Eligible, now, floorMin, failures, opts, s);
    assert s in queue <==> s in multiset(queue);
  }

  lemma QueueSorted(idLeq: (string, string) -> bool, sources: seq<Source>, now: int, floorMin: int,
                    failures: map<string, Failure>, opts: CooldownOpts)
    requires TotalPreorder(idLeq)
    ensures Sorted(OldestFirst(idLeq), Queued(idLeq, sources, now, floorMin, failures, opts))
  {
    OldestFirstIsTotal(idLeq);
    SortSorts(OldestFirst(idLeq), Judged(sources, Eligible, now, floorMin, failures, opts));
  }

  lemma CutInTwo(queue: seq<Source>, cut: nat)
    requires cut <= |queue|
    ensures multiset(queue) == multiset(queue[..cut]) + multiset(queue[cut..])
  {
    assert queue == queue[..cut] + queue[cut..];
  }

  // Every source is accounted for exactly once.
  lemma SelectionCovers(idLeq: (string, string) -> bool, sources: seq<Source>, fanoutMax: nat, now: int, floorMin: int,
                        failures: map<string, Failure>, opts: CooldownOpts)
    ensures var r := Select(idLeq, sources, fanoutMax, now, floorMin, failures, opts);
      multiset(sources) == multiset(r.dispatch) + multiset(r.skippedFresh) + multiset(r.skippedCap) + multiset(r.skippedCooldown)
  {
    var queue := Queued(idLeq, sources, now, floorMin, failures, opts);
    var cut := MinInt(fanoutMax, |queue|);
    JudgedDisjointCover(sources, now, floorMin, failures, opts);
    CutInTwo(queue, cut);
  }

  // The dispatched sources are exactly the fanoutMax oldest of the stale ones
  // that are not cooling.
  lemma SelectionIsOldest(idLeq: (string, string) -> bool, sources: seq<Source>, fanoutMax: nat, now: int, floorMin: int,
                          failures: map<string, Failure>, opts: CooldownOpts, s: Source)
    requires TotalPreorder(idLeq)
    ensures var r := Select(idLeq, sources, fanoutMax, now, floorMin, failures, opts);
      && (s in r.dispatch || s in r.skippedCap <==> s in sources && Judge(s, now, floorMin, failures, opts) == Eligible)
      && (s in r.skippedCap ==> |r.dispatch| == fanoutMax && forall d :: d in r.dispatch ==> Ahead(idLeq, d, s))
      && |r.dispatch| <= fanoutMax
  {
    var r := Select(idLeq, sources, fanoutMax, now, floorMin, failures, opts);
    var queue := Queued(idLeq, sources, now, floorMin, failures, opts);
    var cut := MinInt(fanoutMax, |queue|);
    assert queue == queue[..cut] + queue[cut..];
    QueueMembers(idLeq, sources, now, floorMin, failures, opts, s);
    QueueSorted(idLeq, sources, now, floorMin, failures, opts);
    if s in queue[cut..] {
      forall d | d in queue[..cut] ensures Ahead(idLeq, d, s) {
        SortedAcrossCut(OldestFirst(idLeq), queue, cut, d, s);
      }
    }
  }

  // ---- the selection, on the fields of the sources ----

  // Skipped as fresh are exactly the sources whose last full cycle is less than
  // the floor ago; all others have none, or one at least that old.
  lemma FreshExactly(idLeq: (string, string) -> bool, sources: seq<Source>, fanoutMax: nat, now: int, floorMin: int,
                     failures: map<string, Failure>, opts: CooldownOpts, s: Source)
    requires TotalPreorder(idLeq)
    ensures var r := Select(idLeq, sources, fanoutMax, now, floorMin, failures, opts);
      && (s in r.skippedFresh <==> s in sources && s.lastFullCycleAt.At? && now - s.lastFullCycleAt.ms < floorMin * 60_000)
      && (s in r.dispatch || s in r.skippedCap || s in r.skippedCooldown ==>
        s in sources && (s.lastFullCycleAt.At? ==> now - s.lastFullCycleAt.ms >= floorMin * 60_000))
  {
    JudgedExactly(sources, Fresh, now, floorMin, failures, opts, s);
    JudgedExactly(sources, Cooling, now, floorMin, failures, opts, s);
    SelectionIsOldest(idLeq, sources, fanoutMax, now, floorMin, failures, opts, s);
  }

  ghost predicate StampStands(t: Tick, id: string, stamped: int) {
    forall s :: s in t.sources && s.id == id ==> s.lastFullCycleAt.At? && s.lastFullCycleAt.ms >= stamped
  }

  // After a full cycle stamped at some instant, no tick of a run dispatches the
  // source before the floor has passed, while that stamp or a later one stands.
  lemma NotDispatchedWhileFresh(c: Config, ticks: seq<Tick>, id: string, stamped: int)
    requires TotalPreorder(c.idLeq)
    ensures forall k :: 0 <= k < |ticks| && StampStands(ticks[k], id, stamped) && ticks[k].now < stamped + c.floorMin * 60_000 ==>
      !Dispatches(c, ticks[k], id)
  {
    forall k, s | 0 <= k < |ticks| && s in Selected(c, ticks[k]).dispatch
      ensures s in ticks[k].sources && (s.lastFullCycleAt.At? ==> ticks[k].now - s.lastFullCycleAt.ms >= c.floorMin * 60_000)
    {
      var t := ticks[k];
      FreshExactly(c.idLeq, t.sources, t.fanoutMax, t.now, c.floorMin, t.failures, c.opts, s);
    }
  }

  // The last success: the per-source stamp, or the full-cycle stamp where there
  // is none. A per-source stamp that is no date hides the full-cycle stamp.
  lemma LastSuccessExactly(s: Source, ms: int)
    ensures ReadLastSuccessAt(s) == Some(ms) <==>
      || s.lastSourceCycleAt == At(ms)
      || ((s.lastSourceCycleAt == Missing || s.lastSourceCycleAt == Blank) && s.lastFullCycleAt == At(ms))
  {
  }

  // Held back are exactly the stale sources with a failure on record that no
  // success has followed and whose cooldown is not over.
  lemma CoolingExactly(idLeq: (string, string) -> bool, sources: seq<Source>, fanoutMax: nat, now: int, floorMin: int,
                       failures: map<string, Failure>, opts: CooldownOpts, s: Source)
    ensures var r := Select(idLeq, sources, fanoutMax, now, floorMin, failures, opts);
      s in r.skippedCooldown <==>
        && s in sources && (s.lastFullCycleAt.At? ==> now - s.lastFullCycleAt.ms >= floorMin * 60_000)
        && opts.baseMin > 0 && s.id in failures && failures[s.id].count > 0
        && (forall ms :: ms >= failures[s.id].lastFailedAt ==> ReadLastSuccessAt(s) != Some(ms))
        && now - failures[s.id].lastFailedAt < CooldownMinForCount(failures[s.id].count, opts) * 60_000
  {
    JudgedExactly(sources, Cooling, now, floorMin, failures, opts, s);
    var success := ReadLastSuccessAt(s);
    assert success.Some? ==> success == Some(success.value);
  }

  // The queue the cap cuts: sources without a full cycle first, then the oldest
  // full cycle, and the order of ids among equals.
  lemma OrderOnFields(idLeq: (string, string) -> bool, sources: seq<Source>, fanoutMax: nat, now: int, floorMin: int,
                      failures: map<string, Failure>, opts: CooldownOpts, i: nat, j: nat)
    requires TotalPreorder(idLeq)
    requires var r := Select(idLeq, sources, fanoutMax, now, floorMin, failures, opts); i < j < |r.dispatch + r.skippedCap|
    ensures var r := Select(idLeq, sources, fanoutMax, now, floorMin, failures, opts);
      var a, b := (r.dispatch + r.skippedCap)[i], (r.dispatch + r.skippedCap)[j];
      && (a.lastFullCycleAt.At? ==> b.lastFullCycleAt.At? && a.lastFullCycleAt.ms <= b.lastFullCycleAt.ms)
      && ((!a.lastFullCycleAt.At? && !b.lastFullCycleAt.At?) || a.lastFullCycleAt == b.lastFullCycleAt ==> idLeq(a.id, b.id))
  {
    var r := Select(idLeq, sources, fanoutMax, now, floorMin, failures, opts);
    var queue := Queued(idLeq, sources, now, floorMin, failures, opts);
    QueueSorted(idLeq, sources, now, floorMin, failures, opts);
    assert r.dispatch + r.skippedCap == queue;
    assert Ahead(idLeq, queue[i], queue[j]);
  }

  // A cycle of the source that ended dead or failed at that instant.
  ghost predicate FailedThen(row: JobRow, id: string, f: int) {
    row == JobRow("autopilot-cycle", "dead", Some(id), Some(f)) || row == JobRow("autopilot-cycle", "failed", Some(id), Some(f))
  }

  ghost predicate FailedAfter(row: JobRow, id: string, cutoff: int) {
    exists f :: f > cutoff && FailedThen(row, id, f)
  }

  ghost function FailedRows(rows: seq<JobRow>, id: string, cutoff: int): set<nat> {
    set i: nat | i < |rows| && FailedAfter(rows[i], id, cutoff)
  }

  lemma FailedAfterIff(row: JobRow, id: string, cutoff: int)
    ensures IsFailureOf(row, id, cutoff) <==> FailedAfter(row, id, cutoff)
  {
    if IsFailureOf(row, id, cutoff) {
      assert FailedThen(row, id, row.finishedAt.value);
    }
  }

  lemma {:induction false} LatestIsThere(rows: seq<JobRow>, id: string, cutoff: int) returns (i: nat)
    requires LatestFailure(rows, id, cutoff).Some?
    ensures i < |rows| && IsFailureOf(rows[i], id, cutoff) && rows[i].finishedAt == LatestFailure(rows, id, cutoff)
  {
    i := |rows| - 1;
    if !(IsFailureOf(rows[i], id, cutoff) && LatestFailure(rows, id, cutoff) == rows[i].finishedAt) {
      i := LatestIsThere(rows[..i], id, cutoff);
    }
  }

  // The failures on record: the dead and failed cycles of the source that
  // finished inside the window, their number and the latest of them.
  lemma FailuresExactly(rows: seq<JobRow>, id: string, cutoff: int)
    ensures FailCount(rows, id, cutoff) == |FailedRows(rows, id, cutoff)|
    ensures forall f :: LatestFailure(rows, id, cutoff) == Some(f) ==> IsLatest(rows, id, cutoff, f)
    ensures LatestFailure(rows, id, cutoff) == None ==> FailedRows(rows, id, cutoff) == {}
  {
    FailureCounted(rows, id, cutoff);
    CountIsSet(rows, id, cutoff);
    forall i: nat | i < |rows| ensures IsFailureOf(rows[i], id, cutoff) <==> FailedAfter(rows[i], id, cutoff) {
      FailedAfterIff(rows[i], id, cutoff);
    }
    assert FailedRows(rows, id, cutoff) == FailureRows(rows, id, cutoff);
    if LatestFailure(rows, id, cutoff).Some? {
      LatestIsLatest(rows, id, cutoff);
    }
  }

  ghost predicate IsLatest(rows: seq<JobRow>, id: string, cutoff: int, f: int) {
    && f > cutoff
    && (exists i :: 0 <= i < |rows| && FailedThen(rows[i], id, f))
    && (forall i, g :: 0 <= i < |rows| && FailedThen(rows[i], id, g) ==> g <= f)
  }

  lemma LatestIsLatest(rows: seq<JobRow>, id: string, cutoff: int)
    requires LatestFailure(rows, id, cutoff).Some?
    ensures IsLatest(rows, id, cutoff, LatestFailure(rows, id, cutoff).value)
  {
    FailureCounted(rows, id, cutoff);
    var i := LatestIsThere(rows, id, cutoff);
    assert FailedThen(rows[i], id, LatestFailure(rows, id, cutoff).value);
    forall j, g | 0 <= j < |rows| && FailedThen(rows[j], id, g) ensures g <= LatestFailure(rows, id, cutoff).value {
      if g > cutoff {
        assert IsFailureOf(rows[j], id, cutoff);
      }
    }
  }

  ghost function FailureRows(rows: seq<JobRow>, id: string, cutoff: int): set<nat> {
    set i: nat | i < |rows| && IsFailureOf(rows[i], id, cutoff)
  }

  lemma FailureRowsNext(rows: seq<JobRow>, id: string, cutoff: int, k: nat)
    requires |rows| == k + 1
    ensures k !in FailureRows(rows[..k], id, cutoff)
    ensures FailureRows(rows, id, cutoff) == FailureRows(rows[..k], id, cutoff) + if IsFailureOf(rows[k], id, cutoff) then {k} else {}
  {
    forall i: nat | i < k ensures rows[..k][i] == rows[i] {
    }
  }

  lemma {:induction false} CountIsSet(rows: seq<JobRow>, id: string, cutoff: int)
    ensures FailCount(rows, id, cutoff) == |FailureRows(rows, id, cutoff)|
  {
    if rows == [] {
      assert FailureRows(rows, id, cutoff) == {};
    } else {
      CountIsSet(rows[..|rows| - 1], id, cutoff);
      FailureRowsNext(rows, id, cutoff, |rows| - 1);
    }
  }
}
