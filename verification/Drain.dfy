// src/commands/autopilot.ts: the per-source drain jobs of a tick and their
// brain-wide daily cap.
module Drain {
  import opened Wrappers
  import opened Collections
  import opened Text

  const PER_RUN_USD := 0.3

  // Drain jobs already submitted, by source and the UTC day of their creation.
  datatype DrainJob = DrainJob(sourceId: string, day: string)

  datatype Source = Source(id: string, hasLocalPath: bool, backlog: Option<int>)

  function DrainKey(id: string, day: string): string {
    "autopilot-extract-atoms-drain:" + id + ":" + day
  }

  function MaxJobs(maxUsdPerDay: real): int {
    var n := (maxUsdPerDay / PER_RUN_USD).Floor;
    if n < 0 then 0 else n
  }

  function CountOn(jobs: seq<DrainJob>, day: string): nat {
    if jobs == [] then 0 else CountOn(jobs[..|jobs| - 1], day) + if jobs[|jobs| - 1].day == day then 1 else 0
  }

  predicate HasKey(jobs: seq<DrainJob>, key: string) {
    exists i :: 0 <= i < |jobs| && DrainKey(jobs[i].sourceId, jobs[i].day) == key
  }

  datatype Progress = Progress(jobs: seq<DrainJob>, submitted: int)

  datatype Config = Config(day: string, maxJobs: int, threshold: int)

  // One source of the loop. Once the count has reached the cap the loop is over
  // and nothing is submitted any more; a submission that throws is not counted.
  function DrainOne(c: Config, p: Progress, s: Source, throws: bool): Progress {
    if p.submitted >= c.maxJobs || !s.hasLocalPath || s.backlog.None? || s.backlog.value <= c.threshold
      || HasKey(p.jobs, DrainKey(s.id, c.day)) || throws
    then p
    else Progress(p.jobs + [DrainJob(s.id, c.day)], p.submitted + 1)
  }

  function DrainAll(c: Config, p: Progress, sources: seq<Source>, throws: set<string>): Progress {
    if sources == [] then p
    else
      var k := |sources| - 1;
      DrainOne(c, DrainAll(c, p, sources[..k], throws), sources[k], sources[k].id in throws)
  }

  // A tick: countReads says whether today's count could be read.
  function Tick(c: Config, jobs: seq<DrainJob>, sources: seq<Source>, throws: set<string>, countReads: bool): seq<DrainJob> {
    DrainAll(c, Progress(jobs, if countReads then CountOn(jobs, c.day) else 0), sources, throws).jobs
  }

  class JobTable {
    var jobs: seq<DrainJob>

    constructor ()
      ensures jobs == []
    {
      jobs := [];
    }

    method AutoDrain(c: Config, sources: seq<Source>, throws: set<string>, countReads: bool)
      modifies this`jobs
      ensures jobs == Tick(c, old(jobs), sources, throws, countReads)
    {
      var submittedToday := if countReads then CountOn(jobs, c.day) else 0;
      ghost var start := Progress(jobs, submittedToday);
      if submittedToday >= c.maxJobs {
        CapReached(c, start, sources, throws);
        return;
      }
      for i := 0 to |sources|
        invariant Progress(jobs, submittedToday) == DrainAll(c, start, sources[..i], throws)
      {
        if submittedToday >= c.maxJobs {
          CapReached(c, Progress(jobs, submittedToday), sources[i..], throws);
          DrainConcat(c, start, sources[..i], sources[i..], throws);
          assert sources[..i] + sources[i..] == sources;
          return;
        }
        var src := sources[i];
        assert sources[..i + 1][..i] == sources[..i];
        if !src.hasLocalPath || src.backlog.None? || src.backlog.value <= c.threshold {
          continue;
        }
        if HasKey(jobs, DrainKey(src.id, c.day)) {
          continue;
        }
        if src.id !in throws {
          jobs := jobs + [DrainJob(src.id, c.day)];
          submittedToday := submittedToday + 1;
        }
      }
      assert sources[..|sources|] == sources;
    }
  }

  lemma {:induction false} CapReached(c: Config, p: Progress, sources: seq<Source>, throws: set<string>)
    requires p.submitted >= c.maxJobs
    ensures DrainAll(c, p, sources, throws) == p
  {
    if sources != [] {
      CapReached(c, p, sources[..|sources| - 1], throws);
    }
  }

  lemma DrainLast(c: Config, p: Progress, sources: seq<Source>, throws: set<string>, init: seq<Source>, last: Source)
    requires sources == init + [last]
    ensures DrainAll(c, p, sources, throws) == DrainOne(c, DrainAll(c, p, init, throws), last, last.id in throws)
  {
    assert sources[..|sources| - 1] == init;
  }

  lemma {:induction false} DrainConcat(c: Config, p: Progress, a: seq<Source>, b: seq<Source>, throws: set<string>)
    ensures DrainAll(c, p, a + b, throws) == DrainAll(c, DrainAll(c, p, a, throws), b, throws)
    decreases |b|
  {
    if b == [] {
      assert a + b == a;
    } else {
      var init, last := b[..|b| - 1], b[|b| - 1];
      DrainConcat(c, p, a, init, throws);
      assert b == init + [last];
      assert a + b == (a + init) + [last];
      DrainLast(c, p, a + b, throws, a + init, last);
      DrainLast(c, DrainAll(c, p, a, throws), b, throws, init, last);
    }
  }

  // ---- a day ----

  ghost predicate OnePerSource(jobs: seq<DrainJob>) {
    forall i, j :: 0 <= i < j < |jobs| ==> jobs[i] != jobs[j]
  }

  lemma CountAppend(jobs: seq<DrainJob>, j: DrainJob, day: string)
    ensures CountOn(jobs + [j], day) == CountOn(jobs, day) + if j.day == day then 1 else 0
  {
    assert (jobs + [j])[..|jobs|] == jobs;
  }

  // Whatever happens, the count a tick keeps is the number of the day's jobs,
  // offset by what it failed to read, and no source gets a second job.
  lemma {:induction false} DrainKeeps(c: Config, p: Progress, sources: seq<Source>, throws: set<string>, offset: int)
    requires OnePerSource(p.jobs) && CountOn(p.jobs, c.day) == p.submitted + offset
    ensures var r := DrainAll(c, p, sources, throws);
      && OnePerSource(r.jobs)
      && CountOn(r.jobs, c.day) == r.submitted + offset
      && p.submitted <= r.submitted
      && (r.submitted <= c.maxJobs || r == p)
  {
    if sources != [] {
      var k := |sources| - 1;
      DrainKeeps(c, p, sources[..k], throws, offset);
      var before := DrainAll(c, p, sources[..k], throws);
      var s := sources[k];
      CountAppend(before.jobs, DrainJob(s.id, c.day), c.day);
      if !HasKey(before.jobs, DrainKey(s.id, c.day)) {
        forall i | 0 <= i < |before.jobs| ensures before.jobs[i] != DrainJob(s.id, c.day) {
          assert DrainKey(before.jobs[i].sourceId, before.jobs[i].day) != DrainKey(s.id, c.day);
        }
      }
    }
  }

  datatype TickInput = TickInput(sources: seq<Source>, threshold: int, throws: set<string>)

  // The ticks of one UTC day under one budget, each reading the count.
  function Day(day: string, maxJobs: int, jobs: seq<DrainJob>, ticks: seq<TickInput>): seq<DrainJob> {
    if ticks == [] then jobs
    else
      var k := |ticks| - 1;
      Tick(Config(day, maxJobs, ticks[k].threshold), Day(day, maxJobs, jobs, ticks[..k]), ticks[k].sources, ticks[k].throws, true)
  }

  lemma {:induction false} DayCounts(day: string, maxJobs: int, jobs: seq<DrainJob>, ticks: seq<TickInput>)
    requires OnePerSource(jobs) && CountOn(jobs, day) <= maxJobs
    ensures OnePerSource(Day(day, maxJobs, jobs, ticks))
    ensures CountOn(Day(day, maxJobs, jobs, ticks), day) <= maxJobs
  {
    if ticks != [] {
      var k := |ticks| - 1;
      var before := Day(day, maxJobs, jobs, ticks[..k]);
      DayCounts(day, maxJobs, jobs, ticks[..k]);
      DrainKeeps(Config(day, maxJobs, ticks[k].threshold), Progress(before, CountOn(before, day)), ticks[k].sources, ticks[k].throws, 0);
    }
  }

  // Over a day that starts within the cap, with no jobs in particular, the jobs
  // stay within the budget, and each source has at most one,
  // whatever the order of the sources and their backlogs.
  lemma DailyCap(day: string, maxUsdPerDay: real, jobs: seq<DrainJob>, ticks: seq<TickInput>)
    requires OnePerSource(jobs) && CountOn(jobs, day) <= MaxJobs(maxUsdPerDay) && maxUsdPerDay >= 0.0
    ensures var after := Day(day, MaxJobs(maxUsdPerDay), jobs, ticks);
      && (CountOn(after, day) as real) * 0.3 <= maxUsdPerDay
      && OnePerSource(after)
  {
    DayCounts(day, MaxJobs(maxUsdPerDay), jobs, ticks);
    var n := CountOn(Day(day, MaxJobs(maxUsdPerDay), jobs, ticks), day);
    var q := maxUsdPerDay / PER_RUN_USD;
    assert q * PER_RUN_USD == maxUsdPerDay && q >= 0.0;
    assert n as real <= MaxJobs(maxUsdPerDay) as real <= q;
  }

  // ---- exactly how many jobs a tick adds ----

  // Would the loop submit for this source if the cap allowed it?
  predicate Qualifies(c: Config, jobs: seq<DrainJob>, s: Source, throws: set<string>) {
    && s.hasLocalPath && s.backlog.Some? && s.backlog.value > c.threshold
    && !HasKey(jobs, DrainKey(s.id, c.day)) && s.id !in throws
  }

  function Qualifying(c: Config, jobs: seq<DrainJob>, sources: seq<Source>, throws: set<string>): nat {
    if sources == [] then 0
    else
      var k := |sources| - 1;
      Qualifying(c, jobs, sources[..k], throws) + if Qualifies(c, jobs, sources[k], throws) then 1 else 0
  }

  function IdOf(s: Source): string {
    s.id
  }

  // The keys a tick adds are those of its own sources.
  ghost predicate AddsOnly(c: Config, before: seq<DrainJob>, after: seq<DrainJob>, sources: seq<Source>) {
    && |before| <= |after| && after[..|before|] == before
    && forall i :: |before| <= i < |after| ==> after[i].day == c.day && exists k :: 0 <= k < |sources| && sources[k].id == after[i].sourceId
  }

  lemma {:induction false} DrainAddsOnly(c: Config, p: Progress, sources: seq<Source>, throws: set<string>)
    ensures AddsOnly(c, p.jobs, DrainAll(c, p, sources, throws).jobs, sources)
  {
    if sources != [] {
      var k := |sources| - 1;
      DrainAddsOnly(c, p, sources[..k], throws);
      var before, after := DrainAll(c, p, sources[..k], throws).jobs, DrainAll(c, p, sources, throws).jobs;
      forall i | |p.jobs| <= i < |after| ensures after[i].day == c.day && exists m :: 0 <= m < |sources| && sources[m].id == after[i].sourceId {
        if i < |before| {
          assert after[i] == before[i];
          var m :| 0 <= m < k && sources[..k][m].id == before[i].sourceId;
          assert sources[m].id == after[i].sourceId;
        } else {
          assert sources[k].id == after[i].sourceId;
        }
      }
    }
  }

  // A source's key is not taken by the other sources of its tick.
  lemma OwnKeyOnly(c: Config, before: seq<DrainJob>, after: seq<DrainJob>, sources: seq<Source>, s: Source)
    requires AddsOnly(c, before, after, sources)
    requires forall k :: 0 <= k < |sources| ==> sources[k].id != s.id
    ensures HasKey(after, DrainKey(s.id, c.day)) <==> HasKey(before, DrainKey(s.id, c.day))
  {
    var key := DrainKey(s.id, c.day);
    if HasKey(before, key) {
      var i :| 0 <= i < |before| && DrainKey(before[i].sourceId, before[i].day) == key;
      assert after[..|before|][i] == after[i];
    }
    if HasKey(after, key) {
      var i :| 0 <= i < |after| && DrainKey(after[i].sourceId, after[i].day) == key;
      if i < |before| {
        assert after[..|before|][i] == after[i];
      } else {
        SameKey(after[i], DrainJob(s.id, c.day));
      }
    }
  }

  // The counter ends at the cap or past every qualifying source.
  lemma {:induction false} DrainCount(c: Config, p: Progress, sources: seq<Source>, throws: set<string>)
    requires DistinctBy(sources, IdOf) && p.submitted <= c.maxJobs
    ensures DrainAll(c, p, sources, throws).submitted == MinInt(c.maxJobs, p.submitted + Qualifying(c, p.jobs, sources, throws))
  {
    if sources != [] {
      var k := |sources| - 1;
      DrainCount(c, p, sources[..k], throws);
      DrainAddsOnly(c, p, sources[..k], throws);
      OwnKeyOnly(c, p.jobs, DrainAll(c, p, sources[..k], throws).jobs, sources[..k], sources[k]);
    }
  }

  lemma CounterInStep(c: Config, start: Progress, sources: seq<Source>, throws: set<string>, offset: int)
    requires OnePerSource(start.jobs) && CountOn(start.jobs, c.day) == start.submitted + offset
    ensures OnePerSource(DrainAll(c, start, sources, throws).jobs)
    ensures CountOn(DrainAll(c, start, sources, throws).jobs, c.day) == DrainAll(c, start, sources, throws).submitted + offset
  {
    DrainKeeps(c, start, sources, throws, offset);
  }

  // A tick that starts counting from start adds all qualifying sources or what
  // the count leaves of the cap.
  lemma TickAdds(c: Config, jobs: seq<DrainJob>, start: int, sources: seq<Source>, throws: set<string>)
    requires OnePerSource(jobs) && DistinctBy(sources, IdOf) && start <= c.maxJobs
    ensures CountOn(DrainAll(c, Progress(jobs, start), sources, throws).jobs, c.day)
      == CountOn(jobs, c.day) + MinInt(c.maxJobs - start, Qualifying(c, jobs, sources, throws))
  {
    CounterInStep(c, Progress(jobs, start), sources, throws, CountOn(jobs, c.day) - start);
    DrainCount(c, Progress(jobs, start), sources, throws);
  }

  // A tick that cannot read the count still gives no source a second job, and
  // adds at most the cap, ...
  lemma BlindTick(c: Config, jobs: seq<DrainJob>, sources: seq<Source>, throws: set<string>)
    requires OnePerSource(jobs) && c.maxJobs >= 0
    ensures var after := Tick(c, jobs, sources, throws, false);
      && OnePerSource(after)
      && CountOn(after, c.day) <= CountOn(jobs, c.day) + c.maxJobs
  {
    DrainKeeps(c, Progress(jobs, 0), sources, throws, CountOn(jobs, c.day));
  }

  // ... but it keeps the daily cap exactly when no job of the day exists yet, or
  // no more sources qualify than the cap has left.
  lemma BlindTickKeepsCapIff(c: Config, jobs: seq<DrainJob>, sources: seq<Source>, throws: set<string>)
    requires OnePerSource(jobs) && DistinctBy(sources, IdOf) && CountOn(jobs, c.day) <= c.maxJobs
    ensures CountOn(Tick(c, jobs, sources, throws, false), c.day) <= c.maxJobs <==>
      CountOn(jobs, c.day) == 0 || Qualifying(c, jobs, sources, throws) <= c.maxJobs - CountOn(jobs, c.day)
  {
    TickAdds(c, jobs, 0, sources, throws);
  }

  // With the cap used up, one more qualifying source is enough to go over it.
  lemma BlindTickExceedsCap(c: Config, jobs: seq<DrainJob>, s: Source)
    requires OnePerSource(jobs) && CountOn(jobs, c.day) == c.maxJobs > 0
    requires Qualifies(c, jobs, s, {})
    ensures CountOn(Tick(c, jobs, [s], {}, false), c.day) == c.maxJobs + 1
    ensures Tick(c, jobs, [s], {}, true) == jobs
  {
    assert [s][..0] == [];
    assert Qualifying(c, jobs, [s], {}) == 1;
    TickAdds(c, jobs, 0, [s], {});
    CapReached(c, Progress(jobs, CountOn(jobs, c.day)), [s], {});
  }

  // With days of one width the key of a source is taken only by that source's
  // own job of that day.
  lemma KeyTakenBySourceOnly(jobs: seq<DrainJob>, id: string, day: string)
    requires forall i :: 0 <= i < |jobs| ==> |jobs[i].day| == |day|
    ensures HasKey(jobs, DrainKey(id, day)) <==> DrainJob(id, day) in jobs
  {
    forall i | 0 <= i < |jobs| && DrainKey(jobs[i].sourceId, jobs[i].day) == DrainKey(id, day)
      ensures jobs[i] == DrainJob(id, day)
    {
      SameKey(jobs[i], DrainJob(id, day));
    }
  }

  lemma SameKey(a: DrainJob, b: DrainJob)
    requires |a.day| == |b.day| && DrainKey(a.sourceId, a.day) == DrainKey(b.sourceId, b.day)
    ensures a == b
  {
    KeyParts(a);
    KeyParts(b);
  }

  lemma KeyParts(j: DrainJob)
    ensures var key := DrainKey(j.sourceId, j.day);
      && |key| == 31 + |j.sourceId| + |j.day|
      && key[30..30 + |j.sourceId|] == j.sourceId
      && key[|key| - |j.day|..] == j.day
  {
    var head := "autopilot-extract-atoms-drain:";
    assert |head| == 30;
    ConcatParts(head, j.sourceId, ":", j.day);
  }

  // ---- the cap and the count ----

  // The cap is the number of runs at thirty cents that the budget pays for.
  lemma MaxJobsExactly(maxUsdPerDay: real)
    ensures maxUsdPerDay >= 0.0 ==>
      MaxJobs(maxUsdPerDay) >= 0 && 0.3 * (MaxJobs(maxUsdPerDay) as real) <= maxUsdPerDay < 0.3 * ((MaxJobs(maxUsdPerDay) + 1) as real)
    ensures maxUsdPerDay < 0.0 ==> MaxJobs(maxUsdPerDay) == 0
  {
    var q := maxUsdPerDay / 0.3;
    assert q * 0.3 == maxUsdPerDay;
    assert q.Floor as real <= q < (q.Floor + 1) as real;
  }

  ghost function JobsOn(jobs: seq<DrainJob>, day: string): set<nat> {
    set i: nat | i < |jobs| && jobs[i].day == day
  }

  lemma JobsOnNext(jobs: seq<DrainJob>, day: string, k: nat)
    requires |jobs| == k + 1
    ensures k !in JobsOn(jobs[..k], day)
    ensures JobsOn(jobs, day) == JobsOn(jobs[..k], day) + if jobs[k].day == day then {k} else {}
  {
    forall i: nat | i < k ensures jobs[..k][i] == jobs[i] {
    }
  }

  // The count of a day is that of its jobs.
  lemma {:induction false} CountExactly(jobs: seq<DrainJob>, day: string)
    ensures CountOn(jobs, day) == |JobsOn(jobs, day)|
  {
    if jobs == [] {
      assert JobsOn(jobs, day) == {};
    } else {
      CountExactly(jobs[..|jobs| - 1], day);
      JobsOnNext(jobs, day, |jobs| - 1);
    }
  }
}
