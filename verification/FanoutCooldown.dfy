// The failure cooldown of src/commands/autopilot-fanout.ts, for one instant
// and over runs of ticks.
module FanoutCooldown {
  import opened Wrappers
  import opened Collections
  import opened Fanout

  lemma Pow2AtLeastOne(e: nat)
    ensures Pow2(e) >= 1
  {
  }

  // The cooldown never exceeds the cap, never undercuts min(base, cap), and
  // never shrinks as failures accumulate.
  lemma CooldownBounds(count: int, more: int, opts: CooldownOpts)
    requires 0 < count <= more && opts.baseMin > 0
    ensures MinInt(opts.baseMin, opts.capMin) <= CooldownMinForCount(count, opts) <= opts.capMin
    ensures CooldownMinForCount(count, opts) <= CooldownMinForCount(more, opts)
  {
    var a, b := MinInt(count - 1, FAILURE_COOLDOWN_EXP_CAP), MinInt(more - 1, FAILURE_COOLDOWN_EXP_CAP);
    Pow2AtLeastOne(a);
    Pow2Monotone(a, b);
    assert opts.baseMin * Pow2(a) >= opts.baseMin * 1;
    assert opts.baseMin * Pow2(b) >= opts.baseMin * Pow2(a);
  }

  lemma {:induction false} Pow2Monotone(a: nat, b: nat)
    requires a <= b
    ensures Pow2(a) <= Pow2(b)
  {
    if a < b {
      Pow2Monotone(a, b - 1);
    }
  }

  // The cooldown starts at the base and doubles with each failure, four times
  // at most, never past the cap.
  lemma CooldownDoubles(count: int, opts: CooldownOpts)
    requires count > 0 && opts.baseMin > 0 && opts.capMin > 0
    ensures CooldownMinForCount(1, opts) == MinInt(opts.baseMin, opts.capMin)
    ensures CooldownMinForCount(count + 1, opts) ==
      if count <= 4 then MinInt(2 * CooldownMinForCount(count, opts), opts.capMin)
      else CooldownMinForCount(count, opts)
  {
    assert Pow2(0) == 1;
    if count <= 4 {
      assert Pow2(count) == 2 * Pow2(count - 1);
      assert opts.baseMin * (2 * Pow2(count - 1)) == 2 * (opts.baseMin * Pow2(count - 1));
    }
  }

  // The default settings: ten minutes, doubling to two hours.
  lemma DefaultCooldowns()
    ensures var opts := CooldownOpts(FAILURE_COOLDOWN_BASE_MIN, FAILURE_COOLDOWN_CAP_MIN);
      && CooldownMinForCount(1, opts) == 10 && CooldownMinForCount(2, opts) == 20 && CooldownMinForCount(3, opts) == 40
      && CooldownMinForCount(4, opts) == 80 && CooldownMinForCount(5, opts) == 120 && CooldownMinForCount(0, opts) == 0
  {
    var opts := CooldownOpts(FAILURE_COOLDOWN_BASE_MIN, FAILURE_COOLDOWN_CAP_MIN);
    CooldownDoubles(1, opts);
    CooldownDoubles(2, opts);
    CooldownDoubles(3, opts);
    CooldownDoubles(4, opts);
  }

  function WindowStart(now: int, opts: CooldownOpts): int {
    now - opts.capMin * MS_PER_MIN
  }

  // The dispatch gate: the record the windowed read reports, at the same instant.
  predicate GateCools(rows: seq<JobRow>, src: Source, now: int, opts: CooldownOpts) {
    IsInFailureCooldown(FailureSince(rows, src.id, WindowStart(now, opts)), ReadLastSuccessAt(src), now, opts)
  }

  // The claim-time guard: no cooldown when disabled, its own read restricted to
  // the source, and the source row as it is now (none if the source is gone).
  method IsSourceInCooldown(rows: seq<JobRow>, sourceId: string, row: Option<Source>, now: int, opts: CooldownOpts) returns (cooling: bool)
    ensures row.Some? && row.value.id == sourceId ==> cooling == GateCools(rows, row.value, now, opts)
    ensures row.None? ==> cooling == IsInFailureCooldown(FailureSince(rows, sourceId, WindowStart(now, opts)), None, now, opts)
  {
    if opts.baseMin <= 0 {
      return false;
    }
    var failures := ReadRecentSourceFailures(rows, WindowStart(now, opts), Some(sourceId));
    assert Lookup(failures, sourceId) == ReadFor(rows, sourceId, WindowStart(now, opts), Some(sourceId));
    if sourceId !in failures {
      return false;
    }
    var lastSuccessAt := if row.Some? then ReadLastSuccessAt(row.value) else None;
    return IsInFailureCooldown(Some(failures[sourceId]), lastSuccessAt, now, opts);
  }

  // ---- what the look-back window can and cannot hide ----

  lemma {:induction false} WindowedCount(rows: seq<JobRow>, id: string, early: int, late: int)
    requires early <= late
    ensures FailCount(rows, id, late) <= FailCount(rows, id, early)
    ensures var a, b := LatestFailure(rows, id, early), LatestFailure(rows, id, late);
      b == if a.Some? && a.value > late then a else None
  {
    if rows != [] {
      WindowedCount(rows[..|rows| - 1], id, early, late);
    }
  }

  // Judged on any longer history, a source that is still cooling has its
  // latest failure inside the window, with the same instant; and the gate cools
  // exactly those of them whose cooldown, for the failures inside the window
  // alone, is not over.
  lemma WindowKeepsCoolingFailure(rows: seq<JobRow>, src: Source, now: int, opts: CooldownOpts, longAgo: int)
    requires longAgo <= WindowStart(now, opts)
    ensures var full := FailureSince(rows, src.id, longAgo);
      var windowed := FailureSince(rows, src.id, WindowStart(now, opts));
      && (IsInFailureCooldown(full, ReadLastSuccessAt(src), now, opts) ==>
        windowed.Some? && windowed.value.lastFailedAt == full.value.lastFailedAt && 0 < windowed.value.count <= full.value.count)
      && (GateCools(rows, src, now, opts) <==>
        && IsInFailureCooldown(full, ReadLastSuccessAt(src), now, opts)
        && now - full.value.lastFailedAt < CooldownMinForCount(windowed.value.count, opts) * MS_PER_MIN)
  {
    var full := FailureSince(rows, src.id, longAgo);
    var windowed := FailureSince(rows, src.id, WindowStart(now, opts));
    WindowedCount(rows, src.id, longAgo, WindowStart(now, opts));
    FailureCounted(rows, src.id, longAgo);
    FailureCounted(rows, src.id, WindowStart(now, opts));
    if IsInFailureCooldown(full, ReadLastSuccessAt(src), now, opts) {
      CooldownBounds(full.value.count, full.value.count, opts);
    }
    if GateCools(rows, src, now, opts) {
      CooldownBounds(windowed.value.count, full.value.count, opts);
    }
  }

  // The verdict of the full history back to longAgo.
  predicate FullHistoryCools(rows: seq<JobRow>, src: Source, now: int, opts: CooldownOpts, longAgo: int) {
    IsInFailureCooldown(FailureSince(rows, src.id, longAgo), ReadLastSuccessAt(src), now, opts)
  }

  // With these settings the look-back window never changes a verdict.
  ghost predicate WindowHarmless(opts: CooldownOpts) {
    forall rows, src, now, longAgo :: longAgo <= WindowStart(now, opts) ==>
      (FullHistoryCools(rows, src, now, opts, longAgo) <==> GateCools(rows, src, now, opts))
  }

  lemma FailureAdded(rows: seq<JobRow>, row: JobRow, id: string, cutoff: int)
    requires IsFailureOf(row, id, cutoff)
    ensures FailCount(rows + [row], id, cutoff) == FailCount(rows, id, cutoff) + 1
    ensures LatestFailure(rows, id, cutoff) == None ==> LatestFailure(rows + [row], id, cutoff) == row.finishedAt
    ensures LatestFailure(rows, id, cutoff).Some? && LatestFailure(rows, id, cutoff).value < row.finishedAt.value ==>
      LatestFailure(rows + [row], id, cutoff) == row.finishedAt
  {
    assert (rows + [row])[..|rows|] == rows;
  }

  lemma OtherAdded(rows: seq<JobRow>, row: JobRow, id: string, cutoff: int)
    requires !IsFailureOf(row, id, cutoff)
    ensures FailCount(rows + [row], id, cutoff) == FailCount(rows, id, cutoff)
    ensures LatestFailure(rows + [row], id, cutoff) == LatestFailure(rows, id, cutoff)
  {
    assert (rows + [row])[..|rows|] == rows;
  }

  function DeadCycle(id: string, at: int): JobRow {
    JobRow("autopilot-cycle", "dead", Some(id), Some(at))
  }

  // Two failures, one as old as the window and one as old as the base cooldown:
  // the full history still cools the source, the window releases it, having
  // forgotten the older failure.
  lemma WindowForgetsCount(src: Source, now: int, opts: CooldownOpts)
    requires src.id != "" && ReadLastSuccessAt(src) == None && 0 < opts.baseMin < opts.capMin
    ensures var rows := [DeadCycle(src.id, now - opts.capMin * MS_PER_MIN)] + [DeadCycle(src.id, now - opts.baseMin * MS_PER_MIN)];
      && !GateCools(rows, src, now, opts)
      && FullHistoryCools(rows, src, now, opts, WindowStart(now, opts) - 1)
  {
    var older := DeadCycle(src.id, now - opts.capMin * MS_PER_MIN);
    var recent := DeadCycle(src.id, now - opts.baseMin * MS_PER_MIN);
    var cut := WindowStart(now, opts);
    assert [] + [older] == [older];
    OtherAdded([], older, src.id, cut);
    FailureAdded([older], recent, src.id, cut);
    FailureAdded([], older, src.id, cut - 1);
    FailureAdded([older], recent, src.id, cut - 1);
    CooldownDoubles(1, opts);
  }

  // The window is harmless exactly when the base cooldown reaches the cap: then
  // every failure counts the same.
  lemma WindowHarmlessIff(opts: CooldownOpts)
    ensures WindowHarmless(opts) <==> opts.baseMin <= 0 || opts.baseMin >= opts.capMin
  {
    if 0 < opts.baseMin < opts.capMin {
      var src := Source("source", Missing, Missing, None);
      var rows := [DeadCycle(src.id, 0 - opts.capMin * MS_PER_MIN)] + [DeadCycle(src.id, 0 - opts.baseMin * MS_PER_MIN)];
      WindowForgetsCount(src, 0, opts);
      assert FullHistoryCools(rows, src, 0, opts, WindowStart(0, opts) - 1) && !GateCools(rows, src, 0, opts);
    } else {
      forall rows, src, now, longAgo | longAgo <= WindowStart(now, opts)
        ensures FullHistoryCools(rows, src, now, opts, longAgo) <==> GateCools(rows, src, now, opts)
      {
        if opts.baseMin > 0 {
          WindowKeepsCoolingFailure(rows, src, now, opts, longAgo);
          CapForAll(FailCount(rows, src.id, longAgo), opts);
          CapForAll(FailCount(rows, src.id, WindowStart(now, opts)), opts);
        }
      }
    }
  }

  // With the default settings it is not.
  lemma DefaultWindowForgets()
    ensures !WindowHarmless(CooldownOpts(FAILURE_COOLDOWN_BASE_MIN, FAILURE_COOLDOWN_CAP_MIN))
  {
    WindowHarmlessIff(CooldownOpts(FAILURE_COOLDOWN_BASE_MIN, FAILURE_COOLDOWN_CAP_MIN));
  }

  lemma CapForAll(count: int, opts: CooldownOpts)
    requires 0 < opts.baseMin && opts.capMin <= opts.baseMin
    ensures count > 0 ==> CooldownMinForCount(count, opts) == opts.capMin
  {
    if count > 0 {
      CooldownBounds(count, count, opts);
    }
  }

  // The map a tick's windowed read produces.
  ghost predicate WindowedRead(failures: map<string, Failure>, rows: seq<JobRow>, now: int, opts: CooldownOpts) {
    forall id :: Lookup(failures, id) == FailureSince(rows, id, WindowStart(now, opts))
  }

  // On the same history and at the same instant the dispatch gate and the
  // claim-time guard give one verdict, whether the cooldown is enabled or not.
  lemma GateAndGuardAgree(s: Source, rows: seq<JobRow>, failures: map<string, Failure>, now: int, floorMin: int, opts: CooldownOpts)
    requires opts.baseMin > 0 ==> WindowedRead(failures, rows, now, opts)
    requires IsSourceStale(s, now, floorMin)
    ensures Judge(s, now, floorMin, failures, opts) == Cooling <==> GateCools(rows, s, now, opts)
  {
    if opts.baseMin > 0 {
      assert Lookup(failures, s.id) == FailureSince(rows, s.id, WindowStart(now, opts));
    }
  }

  // ---- what a tick waits for ----

  predicate FailedAt(row: JobRow, id: string, f: int) {
    IsFailureOf(row, id, f - 1) && row.finishedAt == Some(f)
  }

  predicate Recovered(s: Source, f: int) {
    ReadLastSuccessAt(s).Some? && ReadLastSuccessAt(s).value >= f
  }

  // The failures of a source inside the window are cleared by a success or
  // have been waited out, doubling with their number.
  predicate WaitedOut(s: Source, rows: seq<JobRow>, now: int, opts: CooldownOpts) {
    var latest := LatestFailure(rows, s.id, WindowStart(now, opts));
    latest.Some? ==>
      || Recovered(s, latest.value)
      || now - latest.value >= CooldownMinForCount(FailCount(rows, s.id, WindowStart(now, opts)), opts) * MS_PER_MIN
  }

  // Exactly then the gate lets a stale source pass.
  lemma EligibleIff(s: Source, rows: seq<JobRow>, failures: map<string, Failure>, now: int, floorMin: int, opts: CooldownOpts)
    requires s.id != "" && opts.baseMin > 0 && WindowedRead(failures, rows, now, opts)
    requires IsSourceStale(s, now, floorMin)
    ensures Judge(s, now, floorMin, failures, opts) == Eligible <==> WaitedOut(s, rows, now, opts)
  {
    FailureCounted(rows, s.id, WindowStart(now, opts));
    assert Lookup(failures, s.id) == FailureSince(rows, s.id, WindowStart(now, opts));
  }

  // ---- runs, whatever cycles are still under way ----

  ghost predicate ReadsHistory(c: Config, t: Tick) {
    WindowedRead(t.failures, t.rows, t.now, c.opts)
  }

  ghost predicate Proper(c: Config, ticks: seq<Tick>) {
    && Sorting.TotalPreorder(c.idLeq) && c.opts.baseMin > 0
    && forall k :: 0 <= k < |ticks| ==> ReadsHistory(c, ticks[k])
  }

  function Gap(c: Config): int {
    MinInt(c.opts.baseMin, c.opts.capMin) * MS_PER_MIN
  }

  // The tick's history holds a failure finished at f, and no source row of the
  // tick carries a success stamped at or after it.
  ghost predicate Unrecovered(t: Tick, id: string, f: int) {
    && Failed(t.rows, id, f)
    && forall s :: s in t.sources && s.id == id ==> !Recovered(s, f)
  }

  lemma DispatchedWaitedOut(c: Config, t: Tick, s: Source)
    requires Sorting.TotalPreorder(c.idLeq) && c.opts.baseMin > 0 && ReadsHistory(c, t)
    requires s in Selected(c, t).dispatch && s.id != ""
    ensures s in t.sources && WaitedOut(s, t.rows, t.now, c.opts)
  {
    SelectionIsOldest(c.idLeq, t.sources, t.fanoutMax, t.now, c.floorMin, t.failures, c.opts, s);
    assert Judge(s, t.now, c.floorMin, t.failures, c.opts) == Eligible;
    EligibleIff(s, t.rows, t.failures, t.now, c.floorMin, c.opts);
  }

  // Each dispatch of a run has waited out the cooldown that the number of its
  // failures in the window asks for.
  lemma DispatchesWaitOutCooldown(c: Config, ticks: seq<Tick>, id: string)
    requires Proper(c, ticks) && id != ""
    ensures forall k, s :: 0 <= k < |ticks| && s in Selected(c, ticks[k]).dispatch && s.id == id ==>
      WaitedOut(s, ticks[k].rows, ticks[k].now, c.opts)
  {
    forall k, s | 0 <= k < |ticks| && s in Selected(c, ticks[k]).dispatch && s.id == id
      ensures WaitedOut(s, ticks[k].rows, ticks[k].now, c.opts)
    {
      DispatchedWaitedOut(c, ticks[k], s);
    }
  }

  lemma {:induction false} FailuresCounted(rows: seq<JobRow>, id: string, f: int, i: nat)
    requires i < |rows| && FailedAt(rows[i], id, f)
    ensures FailCount(rows, id, f - 1) >= FailCount(rows, id, f) + 1
  {
    var k := |rows| - 1;
    if i < k {
      FailuresCounted(rows[..k], id, f, i);
    } else {
      WindowedCount(rows[..k], id, f - 1, f);
    }
  }

  ghost predicate Failed(rows: seq<JobRow>, id: string, f: int) {
    exists i :: 0 <= i < |rows| && FailedAt(rows[i], id, f)
  }

  ghost predicate AllFailed(rows: seq<JobRow>, id: string, fs: seq<int>) {
    forall j :: 0 <= j < |fs| ==> Failed(rows, id, fs[j])
  }

  ghost predicate Ascending(fs: seq<int>) {
    forall i, j :: 0 <= i < j < |fs| ==> fs[i] < fs[j]
  }

  // Failures at different instants count separately.
  lemma {:induction false} ManyFailures(rows: seq<JobRow>, id: string, fs: seq<int>, cutoff: int)
    requires fs != [] && Ascending(fs) && cutoff < fs[0] && AllFailed(rows, id, fs)
    ensures FailCount(rows, id, cutoff) >= |fs|
  {
    assert Failed(rows, id, fs[0]);
    var i :| 0 <= i < |rows| && FailedAt(rows[i], id, fs[0]);
    FailuresCounted(rows, id, fs[0], i);
    WindowedCount(rows, id, cutoff, fs[0] - 1);
    if |fs| > 1 {
      ManyFailures(rows, id, fs[1..], fs[0]);
    }
  }

  // Failures in the window on record at a tick, the last not recovered from.
  ghost predicate OnRecord(c: Config, t: Tick, id: string, fs: seq<int>) {
    && fs != [] && Ascending(fs) && WindowStart(t.now, c.opts) < fs[0] && AllFailed(t.rows, id, fs)
    && Unrecovered(t, id, fs[|fs| - 1])
  }

  // Their number sets the wait.
  lemma WaitAfterFailures(c: Config, t: Tick, id: string, fs: seq<int>)
    requires Sorting.TotalPreorder(c.idLeq) && c.opts.baseMin > 0 && ReadsHistory(c, t)
    requires Dispatches(c, t, id) && id != "" && OnRecord(c, t, id, fs)
    ensures t.now >= fs[|fs| - 1] + CooldownMinForCount(|fs|, c.opts) * MS_PER_MIN
  {
    var s :| s in Selected(c, t).dispatch && s.id == id;
    var cutoff, last := WindowStart(t.now, c.opts), fs[|fs| - 1];
    DispatchedWaitedOut(c, t, s);
    ManyFailures(t.rows, id, fs, cutoff);
    var i :| 0 <= i < |t.rows| && FailedAt(t.rows[i], id, last);
    assert last >= fs[0];
    FailureCounted(t.rows, id, cutoff);
    CooldownBounds(|fs|, FailCount(t.rows, id, cutoff), c.opts);
  }

  // No dispatch of a run falls between a failure its tick can see, without a
  // later success, and min(base, cap) minutes after it.
  lemma NotDispatchedWhileCooling(c: Config, ticks: seq<Tick>, id: string, f: int)
    requires Proper(c, ticks) && id != ""
    ensures forall k :: 0 <= k < |ticks| && Unrecovered(ticks[k], id, f) && Dispatches(c, ticks[k], id) ==>
      ticks[k].now >= f + Gap(c)
  {
    forall k | 0 <= k < |ticks| && Unrecovered(ticks[k], id, f) && Dispatches(c, ticks[k], id)
      ensures ticks[k].now >= f + Gap(c)
    {
      if f > WindowStart(ticks[k].now, c.opts) {
        WaitAfterFailures(c, ticks[k], id, [f]);
        CooldownBounds(1, 1, c.opts);
      }
    }
  }

  // ---- how close two dispatches can be ----

  // Two ticks of one run: the source's rows move on, its successes are not
  // taken back, and what failed before the first tick was on record then.
  ghost predicate Evolves(a: Tick, b: Tick, sa: Source, sb: Source) {
    && a.now <= b.now && sa.id == sb.id && |a.rows| <= |b.rows|
    && (ReadLastSuccessAt(sa).Some? ==> ReadLastSuccessAt(sb).Some? && ReadLastSuccessAt(sa).value <= ReadLastSuccessAt(sb).value)
    && (forall i, f :: 0 <= i < |b.rows| && FailedAt(b.rows[i], sa.id, f) && f < a.now ==> i < |a.rows| && a.rows[i] == b.rows[i])
    && (forall i, f :: 0 <= i < |a.rows| && FailedAt(a.rows[i], sa.id, f) ==> b.rows[i] == a.rows[i])
  }

  lemma {:induction false} NoNewFailures(before: seq<JobRow>, after: seq<JobRow>, id: string, early: int, late: int)
    requires early <= late && |before| <= |after|
    requires forall i :: 0 <= i < |after| && IsFailureOf(after[i], id, late) ==> i < |before| && before[i] == after[i]
    ensures FailCount(after, id, late) <= FailCount(before, id, early)
  {
    if after != [] {
      var k := |after| - 1;
      if |before| == |after| {
        NoNewFailures(before[..k], after[..k], id, early, late);
      } else {
        NoNewFailures(before, after[..k], id, early, late);
      }
    }
  }

  // Without an unrecovered failure since the first tick, what the first tick
  // had waited out the second has too.
  lemma StillWaitedOut(opts: CooldownOpts, a: Tick, b: Tick, sa: Source, sb: Source)
    requires opts.baseMin > 0 && Evolves(a, b, sa, sb) && WaitedOut(sa, a.rows, a.now, opts)
    requires forall i, f :: 0 <= i < |b.rows| && FailedAt(b.rows[i], sb.id, f) && f >= a.now ==> Recovered(sb, f)
    ensures WaitedOut(sb, b.rows, b.now, opts)
  {
    var id, wa, wb := sa.id, WindowStart(a.now, opts), WindowStart(b.now, opts);
    var latest := LatestFailure(b.rows, id, wb);
    if latest.Some? && !Recovered(sb, latest.value) {
      FailureCounted(b.rows, id, wb);
      FailureCounted(a.rows, id, wa);
      var i := LatestIsThere(b.rows, id, wb);
      assert FailedAt(b.rows[i], sb.id, latest.value);
      assert i < |a.rows| && a.rows[i] == b.rows[i];
      forall j | 0 <= j < |b.rows| && IsFailureOf(b.rows[j], id, wb) ensures j < |a.rows| && a.rows[j] == b.rows[j] {
        assert FailedAt(b.rows[j], id, b.rows[j].finishedAt.value);
      }
      NoNewFailures(a.rows, b.rows, id, wa, wb);
      CooldownBounds(FailCount(b.rows, id, wb), FailCount(a.rows, id, wa), opts);
    }
  }

  // A source dispatched once and stale again less than min(base, cap) minutes
  // later passes the gate again exactly when the later tick sees no failure
  // finished since the first dispatch that was not recovered from: nothing has
  // failed yet, or a success cleared it.
  lemma CloseAgainIff(c: Config, a: Tick, b: Tick, sa: Source, sb: Source)
    requires Sorting.TotalPreorder(c.idLeq) && c.opts.baseMin > 0 && ReadsHistory(c, a) && ReadsHistory(c, b)
    requires sa in Selected(c, a).dispatch && sa.id != "" && Evolves(a, b, sa, sb)
    requires IsSourceStale(sb, b.now, c.floorMin) && b.now < a.now + Gap(c)
    ensures Judge(sb, b.now, c.floorMin, b.failures, c.opts) == Eligible <==>
      forall i, f :: 0 <= i < |b.rows| && FailedAt(b.rows[i], sb.id, f) && f >= a.now ==> Recovered(sb, f)
  {
    DispatchedWaitedOut(c, a, sa);
    EligibleIff(sb, b.rows, b.failures, b.now, c.floorMin, c.opts);
    if WaitedOut(sb, b.rows, b.now, c.opts) {
      forall i, f | 0 <= i < |b.rows| && FailedAt(b.rows[i], sb.id, f) && f >= a.now ensures Recovered(sb, f) {
        SeenInWindow(c.opts, b, sb, f, i);
      }
    } else {
      if forall i, f :: 0 <= i < |b.rows| && FailedAt(b.rows[i], sb.id, f) && f >= a.now ==> Recovered(sb, f) {
        StillWaitedOut(c.opts, a, b, sa, sb);
      }
    }
  }

  // A failure less than min(base, cap) minutes old is in the window, and only a
  // success lets its source pass.
  lemma SeenInWindow(opts: CooldownOpts, b: Tick, s: Source, f: int, i: nat)
    requires opts.baseMin > 0 && WaitedOut(s, b.rows, b.now, opts)
    requires i < |b.rows| && FailedAt(b.rows[i], s.id, f) && b.now < f + MinInt(opts.baseMin, opts.capMin) * MS_PER_MIN
    ensures Recovered(s, f)
  {
    var w := WindowStart(b.now, opts);
    FailureCounted(b.rows, s.id, w);
    assert IsFailureOf(b.rows[i], s.id, w);
    CooldownBounds(FailCount(b.rows, s.id, w), FailCount(b.rows, s.id, w), opts);
  }

  // So a cycle that outlives its tick does not stop the next dispatch: one
  // source that never completed, two ticks five minutes apart, and the job of
  // the first dispatch still active at the second.
  lemma OverlappingDispatches(c: Config, s: Source, a: Tick, b: Tick)
    requires Sorting.TotalPreorder(c.idLeq) && c.opts.baseMin > 0 && s.id != "" && s.lastFullCycleAt.Missing?
    requires a == Tick(a.now, 1, [s], [], map[])
    requires b == Tick(a.now + 5 * MS_PER_MIN, 1, [s], [JobRow("autopilot-cycle", "active", Some(s.id), None)], map[])
    ensures Proper(c, [a, b]) && Dispatches(c, a, s.id) && Dispatches(c, b, s.id)
  {
    OnlySource(c, s, a);
    OnlySource(c, s, b);
    ProperPair(c, a, b);
  }

  lemma ProperPair(c: Config, a: Tick, b: Tick)
    requires Sorting.TotalPreorder(c.idLeq) && c.opts.baseMin > 0 && ReadsHistory(c, a) && ReadsHistory(c, b)
    ensures Proper(c, [a, b])
  {
    var ticks := [a, b];
    forall k | 0 <= k < |ticks| ensures ReadsHistory(c, ticks[k]) {
      assert ticks[k] == a || ticks[k] == b;
    }
  }

  lemma NothingElseQueued(c: Config, s: Source, t: Tick)
    requires t.fanoutMax == 1 && t.sources == [s] && Judge(s, t.now, c.floorMin, t.failures, c.opts) == Eligible
    ensures s in Selected(c, t).dispatch
  {
    assert [s][..0] == [];
    assert Judged([s], Eligible, t.now, c.floorMin, t.failures, c.opts) == [] + [s];
    Sorting.SortOne(OldestFirst(c.idLeq), s);
    assert Selected(c, t).dispatch == [s][..1];
  }

  lemma {:induction false} NoneFailed(rows: seq<JobRow>, id: string, cutoff: int)
    requires forall i :: 0 <= i < |rows| ==> rows[i].finishedAt.None?
    ensures FailCount(rows, id, cutoff) == 0 && LatestFailure(rows, id, cutoff) == None
  {
    if rows != [] {
      NoneFailed(rows[..|rows| - 1], id, cutoff);
    }
  }

  // One stale source, jobs that have not finished at most: it is dispatched.
  lemma OnlySource(c: Config, s: Source, t: Tick)
    requires Sorting.TotalPreorder(c.idLeq) && c.opts.baseMin > 0 && s.id != "" && s.lastFullCycleAt.Missing?
    requires t.fanoutMax == 1 && t.sources == [s] && t.failures == map[]
    requires forall i :: 0 <= i < |t.rows| ==> t.rows[i].finishedAt.None?
    ensures ReadsHistory(c, t) && Dispatches(c, t, s.id)
  {
    forall id ensures Lookup(t.failures, id) == FailureSince(t.rows, id, WindowStart(t.now, c.opts)) {
      NoneFailed(t.rows, id, WindowStart(t.now, c.opts));
    }
    NoneFailed(t.rows, s.id, WindowStart(t.now, c.opts));
    EligibleIff(s, t.rows, t.failures, t.now, c.floorMin, c.opts);
    NothingElseQueued(c, s, t);
  }

  // ---- a storm: every dispatch has failed when the next one is decided ----

  // Dispatches of one source, in order, and when each of them failed. A later
  // dispatch has all the earlier failures on record, none recovered from.
  ghost predicate Storm(c: Config, ticks: seq<Tick>, id: string, ds: seq<nat>, fs: seq<int>) {
    && Proper(c, ticks) && id != "" && |ds| == |fs|
    && (forall i :: 0 <= i < |ds| ==> ds[i] < |ticks| && Dispatches(c, ticks[ds[i]], id) && ticks[ds[i]].now <= fs[i])
    && (forall i, j :: 0 <= i < j < |ds| ==> Unrecovered(ticks[ds[j]], id, fs[i]) && fs[i] <= ticks[ds[j]].now)
  }

  lemma StormGap(c: Config, ticks: seq<Tick>, id: string, ds: seq<nat>, fs: seq<int>, i: nat, j: nat)
    requires Storm(c, ticks, id, ds, fs) && i < j < |ds|
    ensures ticks[ds[j]].now >= fs[i] + Gap(c)
    ensures c.opts.capMin > 0 ==> fs[i] < fs[j]
  {
    assert Unrecovered(ticks[ds[j]], id, fs[i]);
    NotDispatchedWhileCooling(c, ticks, id, fs[i]);
  }

  // Its dispatches are at least min(base, cap) minutes apart, counted from
  // each failure, ...
  lemma StormIsSpaced(c: Config, ticks: seq<Tick>, id: string, ds: seq<nat>, fs: seq<int>)
    requires Storm(c, ticks, id, ds, fs)
    ensures forall i, j :: 0 <= i < j < |ds| ==> ticks[ds[i]].now + Gap(c) <= fs[i] + Gap(c) <= ticks[ds[j]].now
  {
    forall i, j | 0 <= i < j < |ds| ensures fs[i] + Gap(c) <= ticks[ds[j]].now {
      StormGap(c, ticks, id, ds, fs, i, j);
    }
  }

  lemma {:induction false} SpacedFits(times: seq<int>, gap: int, k: nat)
    requires k < |times| && forall i :: 0 < i < |times| ==> times[i - 1] + gap <= times[i]
    ensures times[0] + k * gap <= times[k]
  {
    if k > 0 {
      SpacedFits(times, gap, k - 1);
      assert k * gap == (k - 1) * gap + gap;
    }
  }

  function TimesOf(ticks: seq<Tick>, ds: seq<nat>): (times: seq<int>)
    requires forall i :: 0 <= i < |ds| ==> ds[i] < |ticks|
    ensures |times| == |ds| && forall i :: 0 <= i < |ds| ==> times[i] == ticks[ds[i]].now
  {
    seq(|ds|, i requires 0 <= i < |ds| => ticks[ds[i]].now)
  }

  lemma StormSteps(c: Config, ticks: seq<Tick>, id: string, ds: seq<nat>, fs: seq<int>, times: seq<int>, gap: int)
    requires Storm(c, ticks, id, ds, fs) && times == TimesOf(ticks, ds) && gap == Gap(c)
    ensures forall i :: 0 < i < |times| ==> times[i - 1] + gap <= times[i]
  {
    StormIsSpaced(c, ticks, id, ds, fs);
  }

  // ... so the time that passes bounds their number, ...
  lemma StormIsBounded(c: Config, ticks: seq<Tick>, id: string, ds: seq<nat>, fs: seq<int>, times: seq<int>, gap: int)
    requires Storm(c, ticks, id, ds, fs) && times == TimesOf(ticks, ds) && times != [] && gap == Gap(c)
    ensures times[0] + (|times| - 1) * gap <= times[|times| - 1]
  {
    StormSteps(c, ticks, id, ds, fs, times, gap);
    SpacedFits(times, gap, |times| - 1);
  }

  lemma FailuresAscend(c: Config, ticks: seq<Tick>, id: string, ds: seq<nat>, fs: seq<int>)
    requires Storm(c, ticks, id, ds, fs) && c.opts.capMin > 0
    ensures Ascending(fs)
  {
    forall x, y | 0 <= x < y < |fs| ensures fs[x] < fs[y] {
      StormGap(c, ticks, id, ds, fs, x, y);
    }
  }

  lemma FailuresSeen(c: Config, ticks: seq<Tick>, id: string, ds: seq<nat>, fs: seq<int>, i: nat, j: nat)
    requires Storm(c, ticks, id, ds, fs) && i <= j < |ds|
    ensures AllFailed(ticks[ds[j]].rows, id, fs[i..j])
  {
    var part, rows := fs[i..j], ticks[ds[j]].rows;
    forall x | 0 <= x < |part| ensures Failed(rows, id, part[x]) {
      assert Unrecovered(ticks[ds[j]], id, fs[i + x]);
    }
  }

  lemma AscendingSlice(fs: seq<int>, i: nat, j: nat)
    requires i <= j <= |fs| && Ascending(fs)
    ensures Ascending(fs[i..j])
  {
    var part := fs[i..j];
    forall x, y | 0 <= x < y < |part| ensures part[x] < part[y] {
      assert part[x] == fs[i + x] && part[y] == fs[i + y];
    }
  }

  lemma SeenFailures(c: Config, ticks: seq<Tick>, id: string, ds: seq<nat>, fs: seq<int>, i: nat, j: nat)
    requires Storm(c, ticks, id, ds, fs) && i < j < |ds| && c.opts.capMin > 0
    requires WindowStart(ticks[ds[j]].now, c.opts) < fs[i]
    ensures Dispatches(c, ticks[ds[j]], id) && ReadsHistory(c, ticks[ds[j]])
    ensures OnRecord(c, ticks[ds[j]], id, fs[i..j])
  {
    FailuresAscend(c, ticks, id, ds, fs);
    FailuresSeen(c, ticks, id, ds, fs, i, j);
    AscendingSlice(fs, i, j);
    assert Unrecovered(ticks[ds[j]], id, fs[j - 1]);
  }

  // The tick comes no earlier than the cooldown for all these failures allows.
  ghost predicate WaitedFor(c: Config, t: Tick, fs: seq<int>) {
    fs != [] ==> t.now >= fs[|fs| - 1] + CooldownMinForCount(|fs|, c.opts) * MS_PER_MIN
  }

  // ... and the wait doubles: when the failures of the dispatches from the i-th
  // on are still in the window of the j-th, that one has waited out the
  // cooldown for j - i failures.
  lemma StormBacksOff(c: Config, ticks: seq<Tick>, id: string, ds: seq<nat>, fs: seq<int>, i: nat, j: nat)
    requires Storm(c, ticks, id, ds, fs) && i < j < |ds| && c.opts.capMin > 0
    requires WindowStart(ticks[ds[j]].now, c.opts) < fs[i]
    ensures WaitedFor(c, ticks[ds[j]], fs[i..j])
  {
    SeenFailures(c, ticks, id, ds, fs, i, j);
    WaitAfterFailures(c, ticks[ds[j]], id, fs[i..j]);
  }
}
