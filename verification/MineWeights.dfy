// scripts/mine-shard-weights.ts: per-file weights from the file-start events
// of a CI log.
module MineWeights {

  datatype TimingEvent = TimingEvent(job: string, timestampMs: int, file: string)

  // The events of one job, in stream order.
  function JobStream(events: seq<TimingEvent>, job: string): seq<TimingEvent> {
    if events == [] then []
    else
      var k := |events| - 1;
      JobStream(events[..k], job) + if events[k].job == job then [events[k]] else []
  }

  // The places of a job's events.
  function Places(events: seq<TimingEvent>, job: string): (at: seq<nat>)
    ensures forall k :: 0 <= k < |at| ==> at[k] < |events|
  {
    if events == [] then []
    else
      var k := |events| - 1;
      Places(events[..k], job) + if events[k].job == job then [k] else []
  }

  // The places at lists exactly the job's events, in their order.
  ghost predicate PlacedAt(events: seq<TimingEvent>, job: string, at: seq<nat>, stream: seq<TimingEvent>) {
    && |at| == |stream|
    && (forall k :: 0 <= k < |at| ==> at[k] < |events| && events[at[k]].job == job && events[at[k]] == stream[k])
    && (forall j, k :: 0 <= j < k < |at| ==> at[j] < at[k])
    && (forall i :: 0 <= i < |events| && events[i].job == job ==> i in at)
  }

  lemma PlacedNext(events: seq<TimingEvent>, e: TimingEvent, job: string, at: seq<nat>, stream: seq<TimingEvent>)
    requires PlacedAt(events, job, at, stream)
    ensures e.job == job ==> PlacedAt(events + [e], job, at + [|events|], stream + [e])
    ensures e.job != job ==> PlacedAt(events + [e], job, at, stream)
  {
  }

  // A job's stream is its events, all of them and in their order.
  lemma {:induction false} StreamExactly(events: seq<TimingEvent>, job: string)
    ensures PlacedAt(events, job, Places(events, job), JobStream(events, job))
  {
    if events != [] {
      var init, last := events[..|events| - 1], events[|events| - 1];
      StreamExactly(init, job);
      PlacedNext(init, last, job, Places(init, job), JobStream(init, job));
      assert events == init + [last];
    }
  }

  // Some job started the file and, ms milliseconds later  // Some job started the file and, ms milliseconds later and not earlier, its next one.
  ghost predicate ObservedAt(events: seq<TimingEvent>, job: string, i: nat, file: string, ms: int) {
    var stream := JobStream(events, job);
    && i + 1 < |stream| && stream[i].file == file
    && ms == stream[i + 1].timestampMs - stream[i].timestampMs >= 0
  }

  ghost predicate Observed(events: seq<TimingEvent>, file: string, ms: int) {
    exists job, i :: ObservedAt(events, job, i, file, ms)
  }

  // The weights are, per file, the largest observation there is.
  ghost predicate IsMined(weights: map<string, int>, events: seq<TimingEvent>) {
    && (forall f :: f in weights ==> Observed(events, f, weights[f]))
    && (forall f, ms :: Observed(events, f, ms) ==> f in weights && ms <= weights[f])
  }

  // The same for the observations of the jobs already folded in, and of the
  // first few adjacent pairs of the current one.
  ghost predicate Folded(events: seq<TimingEvent>, done: seq<string>, current: string, pairs: nat,
                         job: string, i: nat, file: string, ms: int) {
    ObservedAt(events, job, i, file, ms) && (job in done || (job == current && i < pairs))
  }

  ghost predicate MinedSoFar(weights: map<string, int>, events: seq<TimingEvent>, done: seq<string>, current: string, pairs: nat) {
    && (forall f :: f in weights ==> exists job, i :: Folded(events, done, current, pairs, job, i, f, weights[f]))
    && (forall job, i, f, ms :: Folded(events, done, current, pairs, job, i, f, ms) ==> f in weights && ms <= weights[f])
  }

  lemma NextInStream(events: seq<TimingEvent>, k: nat)
    requires k < |events|
    ensures forall job :: JobStream(events[..k + 1], job) == JobStream(events[..k], job) + if events[k].job == job then [events[k]] else []
  {
    assert events[..k + 1][..k] == events[..k];
  }

  // Group events by job, in stream order.
  method GroupByJob(events: seq<TimingEvent>) returns (jobs: seq<string>, byJob: map<string, seq<TimingEvent>>)
    ensures forall job :: job in jobs <==> job in byJob
    ensures forall job :: JobStream(events, job) == if job in byJob then byJob[job] else []
  {
    byJob := map[];
    jobs := [];
    for k := 0 to |events|
      invariant forall job :: job in jobs <==> job in byJob
      invariant forall job :: JobStream(events[..k], job) == if job in byJob then byJob[job] else []
    {
      var e := events[k];
      NextInStream(events, k);
      if e.job !in byJob {
        byJob := byJob[e.job := []];
        jobs := jobs + [e.job];
      }
      byJob := byJob[e.job := byJob[e.job] + [e]];
    }
    assert events[..|events|] == events;
  }

  method ComputeWeights(events: seq<TimingEvent>) returns (weights: map<string, int>)
    ensures IsMined(weights, events)
  {
    var jobs, byJob := GroupByJob(events);
    weights := map[];
    for j := 0 to |jobs|
      invariant MinedSoFar(weights, events, jobs[..j], "", 0)
    {
      assert jobs[j] in byJob;
      NextJob(weights, events, jobs[..j], jobs[j]);
      weights := FoldJob(events, jobs[..j], jobs[j], byJob[jobs[j]], weights);
      JobDone(weights, events, jobs, j);
    }
    AllJobsDone(weights, events, jobs);
  }

  lemma NextJob(weights: map<string, int>, events: seq<TimingEvent>, done: seq<string>, job: string)
    requires MinedSoFar(weights, events, done, "", 0)
    ensures MinedSoFar(weights, events, done, job, 0)
  {
    forall f | f in weights ensures exists j, i :: Folded(events, done, job, 0, j, i, f, weights[f]) {
      var j, i :| Folded(events, done, "", 0, j, i, f, weights[f]);
      assert Folded(events, done, job, 0, j, i, f, weights[f]);
    }
    forall j: string, i: nat, f, ms | Folded(events, done, job, 0, j, i, f, ms) ensures f in weights && ms <= weights[f] {
      assert Folded(events, done, "", 0, j, i, f, ms);
    }
  }

  method FoldJob(ghost events: seq<TimingEvent>, ghost done: seq<string>, ghost job: string,
                 jobEvents: seq<TimingEvent>, weights: map<string, int>) returns (r: map<string, int>)
    requires jobEvents == JobStream(events, job) && MinedSoFar(weights, events, done, job, 0)
    ensures MinedSoFar(r, events, done, job, |jobEvents|)
  {
    r := weights;
    var i := 0;
    while i + 1 < |jobEvents|
      invariant 0 <= i <= |jobEvents|
      invariant MinedSoFar(r, events, done, job, i)
    {
      var file := jobEvents[i].file;
      var delta := jobEvents[i + 1].timestampMs - jobEvents[i].timestampMs;
      r := FoldIn(events, done, job, i, i + 1, r, file, delta);
      i := i + 1;
    }
    LastPairFolded(r, events, done, job, i, |jobEvents|);
  }

  lemma LastPairFolded(weights: map<string, int>, events: seq<TimingEvent>, done: seq<string>, job: string, i: nat, all: nat)
    requires |JobStream(events, job)| == all && i + 1 >= all >= i && MinedSoFar(weights, events, done, job, i)
    ensures MinedSoFar(weights, events, done, job, all)
  {
    forall f | f in weights ensures exists j, p :: Folded(events, done, job, all, j, p, f, weights[f]) {
      var j, p :| Folded(events, done, job, i, j, p, f, weights[f]);
      assert Folded(events, done, job, all, j, p, f, weights[f]);
    }
    forall j: string, p: nat, f, ms | Folded(events, done, job, all, j, p, f, ms) ensures f in weights && ms <= weights[f] {
      assert Folded(events, done, job, i, j, p, f, ms);
    }
  }

  // One adjacent pair: negative deltas are skipped, the larger value wins.
  method FoldIn(ghost events: seq<TimingEvent>, ghost done: seq<string>, ghost current: string, ghost i: nat, ghost next: nat,
                weights: map<string, int>, file: string, delta: int) returns (r: map<string, int>)
    requires next == i + 1
    requires var stream := JobStream(events, current);
      i + 1 < |stream| && stream[i].file == file && delta == stream[i + 1].timestampMs - stream[i].timestampMs
    requires MinedSoFar(weights, events, done, current, i)
    ensures MinedSoFar(r, events, done, current, next)
  {
    r := weights;
    if delta >= 0 && (file !in weights || delta > weights[file]) {
      r := weights[file := delta];
    }
    PairFolded(events, done, current, i, next, weights, file, delta, r);
  }

  // The pair that comes next, and the weights with it.
  ghost predicate NextPair(events: seq<TimingEvent>, current: string, i: nat, weights: map<string, int>, file: string, delta: int, r: map<string, int>) {
    var stream := JobStream(events, current);
    && i + 1 < |stream| && stream[i].file == file && delta == stream[i + 1].timestampMs - stream[i].timestampMs
    && r == if delta >= 0 && (file !in weights || delta > weights[file]) then weights[file := delta] else weights
  }

  lemma WeightsFolded(events: seq<TimingEvent>, done: seq<string>, current: string, i: nat, next: nat,
                      weights: map<string, int>, file: string, delta: int, r: map<string, int>, f: string)
    requires next == i + 1 && MinedSoFar(weights, events, done, current, i) && NextPair(events, current, i, weights, file, delta, r) && f in r
    ensures exists job, p :: Folded(events, done, current, next, job, p, f, r[f])
  {
    if f in weights && r[f] == weights[f] {
      StillFolded(events, done, current, i, next, weights, f);
    } else {
      assert Folded(events, done, current, next, current, i, file, delta);
    }
  }

  lemma FoldedWithin(events: seq<TimingEvent>, done: seq<string>, current: string, i: nat, next: nat,
                     weights: map<string, int>, file: string, delta: int, r: map<string, int>, job: string, p: nat, f: string, ms: int)
    requires next == i + 1 && MinedSoFar(weights, events, done, current, i) && NextPair(events, current, i, weights, file, delta, r)
    requires Folded(events, done, current, next, job, p, f, ms)
    ensures f in r && ms <= r[f]
  {
    if job in done || p < i {
      assert Folded(events, done, current, i, job, p, f, ms);
    }
  }

  lemma PairFolded(events: seq<TimingEvent>, done: seq<string>, current: string, i: nat, next: nat,
                   weights: map<string, int>, file: string, delta: int, r: map<string, int>)
    requires next == i + 1 && NextPair(events, current, i, weights, file, delta, r)
    requires MinedSoFar(weights, events, done, current, i)
    ensures MinedSoFar(r, events, done, current, next)
  {
    forall f | f in r ensures exists job, p :: Folded(events, done, current, next, job, p, f, r[f]) {
      WeightsFolded(events, done, current, i, next, weights, file, delta, r, f);
    }
    forall job: string, p: nat, f, ms | Folded(events, done, current, next, job, p, f, ms) ensures f in r && ms <= r[f] {
      FoldedWithin(events, done, current, i, next, weights, file, delta, r, job, p, f, ms);
    }
  }

  lemma StillFolded(events: seq<TimingEvent>, done: seq<string>, current: string, i: nat, next: nat, weights: map<string, int>, f: string)
    requires MinedSoFar(weights, events, done, current, i) && i <= next && f in weights
    ensures exists job, p :: Folded(events, done, current, next, job, p, f, weights[f])
  {
    var job, p :| Folded(events, done, current, i, job, p, f, weights[f]);
    assert Folded(events, done, current, next, job, p, f, weights[f]);
  }

  lemma JobDone(weights: map<string, int>, events: seq<TimingEvent>, jobs: seq<string>, j: nat)
    requires j < |jobs|
    requires MinedSoFar(weights, events, jobs[..j], jobs[j], |JobStream(events, jobs[j])|)
    ensures MinedSoFar(weights, events, jobs[..j + 1], "", 0)
  {
    var done, done', pairs := jobs[..j], jobs[..j + 1], |JobStream(events, jobs[j])|;
    assert done' == done + [jobs[j]];
    forall f | f in weights ensures exists job, i :: Folded(events, done', "", 0, job, i, f, weights[f]) {
      var job, i :| Folded(events, done, jobs[j], pairs, job, i, f, weights[f]);
      assert Folded(events, done', "", 0, job, i, f, weights[f]);
    }
    forall job: string, i: nat, f, ms | Folded(events, done', "", 0, job, i, f, ms) ensures f in weights && ms <= weights[f] {
      assert Folded(events, done, jobs[j], pairs, job, i, f, ms);
    }
  }

  lemma AllJobsDone(weights: map<string, int>, events: seq<TimingEvent>, jobs: seq<string>)
    requires forall job :: JobStream(events, job) != [] ==> job in jobs
    requires MinedSoFar(weights, events, jobs[..|jobs|], "", 0)
    ensures IsMined(weights, events)
  {
    assert jobs[..|jobs|] == jobs;
    forall f, ms | Observed(events, f, ms) ensures f in weights && ms <= weights[f] {
      var job, i :| ObservedAt(events, job, i, f, ms);
      assert Folded(events, jobs, "", 0, job, i, f, ms);
    }
    forall f | f in weights ensures Observed(events, f, weights[f]) {
      var job, i :| Folded(events, jobs, "", 0, job, i, f, weights[f]);
      assert ObservedAt(events, job, i, f, weights[f]);
    }
  }

  // However the jobs' lines are interleaved, the weights are the same.
  lemma InterleavingIrrelevant(a: seq<TimingEvent>, b: seq<TimingEvent>, wa: map<string, int>, wb: map<string, int>)
    requires forall job :: JobStream(a, job) == JobStream(b, job)
    requires IsMined(wa, a) && IsMined(wb, b)
    ensures wa == wb
  {
    forall f, ms ensures Observed(a, f, ms) <==> Observed(b, f, ms) {
      forall job, i ensures ObservedAt(a, job, i, f, ms) <==> ObservedAt(b, job, i, f, ms) {}
    }
    forall f ensures (f in wa <==> f in wb) && (f in wa ==> wa[f] == wb[f]) {
      if f in wa {
        assert Observed(b, f, wa[f]);
      }
      if f in wb {
        assert Observed(a, f, wb[f]);
      }
    }
  }

  // A job that shares no file with another job, starts each file once, and
  // never goes back in time.
  ghost predicate OwnJob(events: seq<TimingEvent>, job: string) {
    var stream := JobStream(events, job);
    && (forall i, j :: 0 <= i < j < |stream| ==> stream[i].file != stream[j].file)
    && (forall i :: 0 <= i < |stream| - 1 ==> stream[i].timestampMs <= stream[i + 1].timestampMs)
    && (forall other, i, j :: 0 <= i < |stream| && other != job && 0 <= j < |JobStream(events, other)| ==>
      JobStream(events, other)[j].file != stream[i].file)
  }

  // A file of such a job is observed in one place only.
  lemma OwnObservation(events: seq<TimingEvent>, job: string, i: nat, ms: int)
    requires OwnJob(events, job) && i + 1 < |JobStream(events, job)|
    requires Observed(events, JobStream(events, job)[i].file, ms)
    ensures ms == JobStream(events, job)[i + 1].timestampMs - JobStream(events, job)[i].timestampMs
  {
    var job', i' :| ObservedAt(events, job', i', JobStream(events, job)[i].file, ms);
    assert job' == job && i' == i;
  }

  lemma OwnWeight(events: seq<TimingEvent>, job: string, weights: map<string, int>, i: nat)
    requires OwnJob(events, job) && IsMined(weights, events) && i + 1 < |JobStream(events, job)|
    ensures var stream := JobStream(events, job);
      stream[i].file in weights && weights[stream[i].file] == stream[i + 1].timestampMs - stream[i].timestampMs
  {
    var stream := JobStream(events, job);
    var file, ms := stream[i].file, stream[i + 1].timestampMs - stream[i].timestampMs;
    assert ObservedAt(events, job, i, file, ms);
    assert Observed(events, file, ms);
    OwnObservation(events, job, i, weights[file]);
  }

  function WeightSum(stream: seq<TimingEvent>, weights: map<string, int>): int
    requires forall i :: 0 <= i < |stream| ==> stream[i].file in weights
  {
    if stream == [] then 0
    else WeightSum(stream[..|stream| - 1], weights) + weights[stream[|stream| - 1].file]
  }

  lemma {:induction false} SumOfDeltas(stream: seq<TimingEvent>, weights: map<string, int>, k: nat)
    requires k < |stream|
    requires forall i :: 0 <= i < k ==>
      (stream[i].file in weights && weights[stream[i].file] == stream[i + 1].timestampMs - stream[i].timestampMs)
    ensures WeightSum(stream[..k], weights) == stream[k].timestampMs - stream[0].timestampMs
  {
    if k > 0 {
      SumOfDeltas(stream, weights, k - 1);
      assert stream[..k][..k - 1] == stream[..k - 1];
    }
  }

  lemma LastHasNone(events: seq<TimingEvent>, job: string, weights: map<string, int>)
    requires OwnJob(events, job) && IsMined(weights, events) && JobStream(events, job) != []
    ensures JobStream(events, job)[|JobStream(events, job)| - 1].file !in weights
  {
    var stream := JobStream(events, job);
    var file := stream[|stream| - 1].file;
    forall ms ensures !Observed(events, file, ms) {
      forall other: string, i: nat ensures !ObservedAt(events, other, i, file, ms) {
      }
    }
  }

  // The weights of such a job add up to the time between its first and last
  // file; the last file, having no successor, gets no weight.
  lemma Telescopes(events: seq<TimingEvent>, job: string, weights: map<string, int>)
    requires OwnJob(events, job) && IsMined(weights, events) && JobStream(events, job) != []
    ensures var stream := JobStream(events, job);
      var last := |stream| - 1;
      && stream[last].file !in weights
      && (forall i :: 0 <= i < last ==> stream[i].file in weights)
      && WeightSum(stream[..last], weights) == stream[last].timestampMs - stream[0].timestampMs
  {
    var stream := JobStream(events, job);
    forall i | 0 <= i < |stream| - 1
      ensures stream[i].file in weights && weights[stream[i].file] == stream[i + 1].timestampMs - stream[i].timestampMs
    {
      OwnWeight(events, job, weights, i);
    }
    LastHasNone(events, job, weights);
    SumOfDeltas(stream, weights, |stream| - 1);
  }
}
