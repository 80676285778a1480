/**
  The sequential rules of the extraction pipeline: cutting the job list into
  batches and running them with an abort flag and progress reports, the text
  windows each strategy sends to the model, the job lists of the three phases,
  what a single job stores, and the choice of strategy.

  Jobs run concurrently inside a batch in the source; here a batch runs its jobs
  one after another, in job order. What a job's model call returns (an answer or
  a timeout) is an input.
*/
module Orchestrator {
  import opened Wrappers
  import Cancellation
  import Text
  import PyCsv
  import ResponseParser
  import ContentStore
  import Tables

  // ---------------------------------------------------------------- batches

  /** The concatenation of a list of sequences. */
  function Concat<T>(bs: seq<seq<T>>): seq<T>
    decreases |bs|
  {
    if bs == [] then [] else bs[0] + Concat(bs[1..])
  }

  /** `to_process[start : start + size]` for `start` in `range(0, len, size)`. */
  function Batches<T>(xs: seq<T>, size: nat): (bs: seq<seq<T>>)
    requires size >= 1
    ensures forall k :: 0 <= k < |bs| ==> 1 <= |bs[k]| <= size
    decreases |xs|
  {
    if xs == [] then []
    else if |xs| <= size then [xs]
    else [xs[..size]] + Batches(xs[size..], size)
  }

  /** The batches are consecutive pieces of the job list, in order, covering it exactly. */
  lemma {:induction false} BatchesConcat<T>(xs: seq<T>, size: nat)
    requires size >= 1
    ensures Concat(Batches(xs, size)) == xs
    decreases |xs|
  {
    if xs != [] && |xs| > size {
      BatchesConcat(xs[size..], size);
      assert xs[..size] + xs[size..] == xs;
    }
  }

  /** Every batch but the last is full. */
  lemma {:induction false} BatchesFull<T>(xs: seq<T>, size: nat)
    requires size >= 1
    ensures var bs := Batches(xs, size);
      forall k :: 0 <= k < |bs| - 1 ==> |bs[k]| == size
    decreases |xs|
  {
    if xs != [] && |xs| > size {
      var bs := Batches(xs, size);
      BatchesFull(xs[size..], size);
      assert forall k :: 1 <= k < |bs| ==> bs[k] == Batches(xs[size..], size)[k - 1];
    }
  }

  // -------------------------------------------------------------- scheduler

  /** How a job ends: normally (a parse failure included), or by raising; a timeout also sets the flag itself. */
  datatype JobEnd = Completed | Raised(timedOut: bool)

  /** A progress callback event: `done/total` as a percentage, or an error message. */
  datatype Report = Percent(done: nat, total: nat) | ErrorReport

  /**
    The scheduler's state: the abort flag, jobs started and finished, how many
    times the flag has been read, and the reports emitted.
  */
  datatype Run = Run(flag: bool, started: nat, completed: nat, polls: nat, reports: seq<Report>)

  /** The flag as read at the next poll: raised here, or by the outside by then. */
  predicate FlagUp(r: Run, external: Cancellation.Abort) {
    r.flag || Cancellation.SeenAt(external, r.polls)
  }

  /**
    `track_progress` for one job: a raising job reports an error and (with a callback)
    raises the flag; then the flag is read, and a percentage is reported only when it
    is still down.
  */
  function FinishJob(r: Run, e: JobEnd, total: nat, callback: bool, external: Cancellation.Abort): Run {
    var raised := e.Raised?;
    var r1 := r.(flag := r.flag || (raised && e.timedOut) || (raised && callback));
    var errors := if raised && callback then [ErrorReport] else [];
    var done := r.completed + 1;
    var flag := FlagUp(r1, external);
    var progress := if callback && !flag then [Percent(done, total)] else [];
    Run(flag, r.started, done, r.polls + 1, r.reports + errors + progress)
  }

  /** The jobs of one batch finishing, in order. */
  function RunBatch(r: Run, batch: seq<JobEnd>, total: nat, callback: bool, external: Cancellation.Abort): Run
    decreases |batch|
  {
    if batch == [] then r
    else RunBatch(FinishJob(r, batch[0], total, callback, external), batch[1..], total, callback, external)
  }

  /**
    The batch loop from batch `b` on. The flag is read before each batch and after
    each job; an outside stop is seen at every read from poll `external.poll` on.
  */
  function RunBatches(r: Run, bs: seq<seq<JobEnd>>, b: nat, total: nat, callback: bool,
                      external: Cancellation.Abort): Run
    decreases |bs| - b
  {
    if b >= |bs| then r
    else if FlagUp(r, external) then r.(flag := true, polls := r.polls + 1)
    else RunBatches(RunBatch(r.(started := r.started + |bs[b]|, polls := r.polls + 1), bs[b], total, callback, external),
                    bs, b + 1, total, callback, external)
  }

  /**
    `_run_async_tasks_in_batches`: with no jobs, a single 100% report; otherwise a 0%
    report, then the batches. `ends[j]` is how job `j` ends if it runs.
  */
  function RunInBatches(ends: seq<JobEnd>, size: nat, callback: bool, external: Cancellation.Abort): (r: Run)
    requires size >= 1
    ensures ends == [] ==> r.started == 0 && r.reports == (if callback then [Percent(1, 1)] else [])
    ensures !callback ==> r.reports == []
  {
    if ends == [] then Run(false, 0, 0, 0, if callback then [Percent(1, 1)] else [])
    else
      var r := RunBatches(Run(false, 0, 0, 0, if callback then [Percent(0, |ends|)] else []),
                          Batches(ends, size), 0, |ends|, callback, external);
      assert !callback ==> r.reports == [] by {
        if !callback {
          SilentBatches(Run(false, 0, 0, 0, []), Batches(ends, size), 0, |ends|, external);
        }
      }
      r
  }

  /** Without a callback nothing is reported. */
  lemma {:induction false} SilentBatches(r: Run, bs: seq<seq<JobEnd>>, b: nat, total: nat, external: Cancellation.Abort)
    requires r.reports == []
    ensures RunBatches(r, bs, b, total, false, external).reports == []
    decreases |bs| - b
  {
    if b < |bs| && !(FlagUp(r, external)) {
      var r' := r.(started := r.started + |bs[b]|, polls := r.polls + 1);
      SilentBatch(r', bs[b], total, external);
      SilentBatches(RunBatch(r', bs[b], total, false, external), bs, b + 1, total, external);
    }
  }

  lemma {:induction false} SilentBatch(r: Run, batch: seq<JobEnd>, total: nat, external: Cancellation.Abort)
    requires r.reports == []
    ensures RunBatch(r, batch, total, false, external).reports == []
    decreases |batch|
  {
    if batch != [] {
      SilentBatch(FinishJob(r, batch[0], total, false, external), batch[1..], total, external);
    }
  }

  // ------------------------------------------------------- progress reports

  /**
    What the report stream promises: every percentage is out of `total` and at most
    100%, percentages strictly increase, and after an error only errors follow.
  */
  predicate ProgressOk(reports: seq<Report>, total: nat) {
    && (forall i :: 0 <= i < |reports| && reports[i].Percent? ==>
          reports[i].total == total && reports[i].done <= total)
    && (forall i, j :: 0 <= i < j < |reports| && reports[i].Percent? && reports[j].Percent? ==>
          reports[i].done < reports[j].done)
    && (forall i, j :: 0 <= i < j < |reports| && reports[i].ErrorReport? ==> reports[j].ErrorReport?)
  }

  /** The state the batch loop keeps between jobs. */
  predicate Tracking(r: Run, total: nat, callback: bool) {
    && r.completed <= total
    && ProgressOk(r.reports, total)
    && (forall i :: 0 <= i < |r.reports| && r.reports[i].Percent? ==> r.reports[i].done <= r.completed)
    && (callback && ErrorReport in r.reports ==> r.flag)
  }

  lemma FinishJobTracks(r: Run, e: JobEnd, total: nat, callback: bool, external: Cancellation.Abort)
    requires Tracking(r, total, callback) && r.completed < total
    ensures var r' := FinishJob(r, e, total, callback, external);
      && Tracking(r', total, callback)
      && r'.completed == r.completed + 1 && r'.started == r.started
      && (r.flag ==> r'.flag)
      && (|r'.reports| > |r.reports| ==> callback)
  {
    var r' := FinishJob(r, e, total, callback, external);
    var errors := if e.Raised? && callback then [ErrorReport] else [];
    var progress := if callback && !r'.flag then [Percent(r.completed + 1, total)] else [];
    assert r'.reports == r.reports + errors + progress;
    if progress != [] {
      assert ErrorReport !in r.reports && errors == [];
    }
    forall i, j | 0 <= i < j < |r'.reports| && r'.reports[i].ErrorReport? ensures r'.reports[j].ErrorReport? {
      if j >= |r.reports| && i < |r.reports| {
        assert r.reports[i] == ErrorReport;
        assert ErrorReport in r.reports;
      }
    }
  }

  lemma {:induction false} RunBatchTracks(r: Run, batch: seq<JobEnd>, total: nat, callback: bool, external: Cancellation.Abort)
    requires Tracking(r, total, callback) && r.completed + |batch| <= total
    ensures var r' := RunBatch(r, batch, total, callback, external);
      && Tracking(r', total, callback)
      && r'.completed == r.completed + |batch| && r'.started == r.started
      && (r.flag ==> r'.flag)
    decreases |batch|
  {
    if batch != [] {
      FinishJobTracks(r, batch[0], total, callback, external);
      RunBatchTracks(FinishJob(r, batch[0], total, callback, external), batch[1..], total, callback, external);
    }
  }

  lemma ConcatSnoc<T>(bs: seq<seq<T>>, b: nat)
    requires b < |bs|
    ensures Concat(bs[..b + 1]) == Concat(bs[..b]) + bs[b]
  {
    ConcatAppend(bs[..b], [bs[b]]);
    assert bs[..b + 1] == bs[..b] + [bs[b]];
  }

  lemma {:induction false} ConcatAppend<T>(a: seq<seq<T>>, c: seq<seq<T>>)
    ensures Concat(a + c) == Concat(a) + Concat(c)
    decreases |a|
  {
    if a == [] {
      assert a + c == c;
    } else {
      assert (a + c)[1..] == a[1..] + c;
      ConcatAppend(a[1..], c);
    }
  }

  /**
    The batch loop keeps the report stream well-formed; the jobs started are always a
    run of whole batches from the front, each started job finishes, and the loop ends
    early only with the flag raised.
  */
  lemma {:induction false} RunBatchesTracks(r: Run, bs: seq<seq<JobEnd>>, b: nat, total: nat, callback: bool,
                                            external: Cancellation.Abort)
    requires b <= |bs| && total == |Concat(bs)|
    requires Tracking(r, total, callback) && r.started == r.completed == |Concat(bs[..b])|
    ensures var r' := RunBatches(r, bs, b, total, callback, external);
      && Tracking(r', total, callback)
      && r'.started == r'.completed
      && (exists k :: b <= k <= |bs| && r'.started == |Concat(bs[..k])|)
      && (r'.started < total ==> r'.flag)
    decreases |bs| - b
  {
    var r' := RunBatches(r, bs, b, total, callback, external);
    if b >= |bs| {
      assert bs[..b] == bs;
    } else if FlagUp(r, external) {
      assert r'.started == |Concat(bs[..b])|;
    } else {
      ConcatSnoc(bs, b);
      PrefixLength(bs, b + 1);
      var s := r.(started := r.started + |bs[b]|, polls := r.polls + 1);
      RunBatchTracks(s, bs[b], total, callback, external);
      RunBatchesTracks(RunBatch(s, bs[b], total, callback, external), bs, b + 1, total, callback, external);
    }
  }

  /** A prefix of the batches holds no more jobs than all of them. */
  lemma PrefixLength<T>(bs: seq<seq<T>>, k: nat)
    requires k <= |bs|
    ensures |Concat(bs[..k])| <= |Concat(bs)|
  {
    ConcatAppend(bs[..k], bs[k..]);
    assert bs[..k] + bs[k..] == bs;
  }

  /**
    The reports of a run: percentages out of the job count that never decrease and
    never pass 100%, no percentage after an error; the jobs started are whole
    batches from the front, all of them finish, and fewer than all start only when
    the flag was raised.
  */
  lemma RunInBatchesTracks(ends: seq<JobEnd>, size: nat, callback: bool, external: Cancellation.Abort)
    requires size >= 1 && ends != []
    ensures var r := RunInBatches(ends, size, callback, external);
      && ProgressOk(r.reports, |ends|)
      && r.started == r.completed <= |ends|
      && (exists k :: 0 <= k <= |Batches(ends, size)| && r.started == |Concat(Batches(ends, size)[..k])|)
      && (r.started < |ends| ==> r.flag)
  {
    var bs := Batches(ends, size);
    BatchesConcat(ends, size);
    var r0 := Run(false, 0, 0, 0, if callback then [Percent(0, |ends|)] else []);
    assert bs[..0] == [];
    RunBatchesTracks(r0, bs, 0, |ends|, callback, external);
  }

  // ---------------------------------------------------------- outside abort

  /**
    Once the outside abort is seen, the jobs still running in the batch finish but
    report only errors: no percentage follows, and the flag stays raised.
  */
  lemma {:induction false} OutsideAbortMutes(r: Run, batch: seq<JobEnd>, total: nat, callback: bool,
                                             external: Cancellation.Abort)
    requires Cancellation.SeenAt(external, r.polls)
    ensures var r' := RunBatch(r, batch, total, callback, external);
      && r.reports <= r'.reports
      && (forall i :: |r.reports| <= i < |r'.reports| ==> r'.reports[i].ErrorReport?)
      && r'.completed == r.completed + |batch|
      && (batch != [] ==> r'.flag)
    decreases |batch|
  {
    if batch != [] {
      var r1 := FinishJob(r, batch[0], total, callback, external);
      OutsideAbortMutes(r1, batch[1..], total, callback, external);
      var r' := RunBatch(r1, batch[1..], total, callback, external);
      assert r.reports <= r1.reports;
      forall i | |r.reports| <= i < |r'.reports| ensures r'.reports[i].ErrorReport? {
        if i < |r1.reports| { assert r'.reports[i] == r1.reports[i]; }
      }
    }
  }

  /**
    An outside abort seen at a batch check ends the loop there: nothing more starts,
    nothing more is reported, and the flag comes back raised.
  */
  lemma OutsideAbortStops(r: Run, bs: seq<seq<JobEnd>>, b: nat, total: nat, callback: bool,
                          external: Cancellation.Abort)
    requires b < |bs| && Cancellation.SeenAt(external, r.polls)
    ensures var r' := RunBatches(r, bs, b, total, callback, external);
      r'.flag && r'.started == r.started && r'.reports == r.reports
  {
  }

  // ----------------------------------------------------------- clean runs

  /** The report stream of an undisturbed run: 0%, then one step per finished job. */
  function Steps(done: nat, total: nat): (rs: seq<Report>)
    ensures |rs| == done + 1
    ensures forall k :: 0 <= k <= done ==> rs[k] == Percent(k, total)
  {
    seq(done + 1, k requires 0 <= k => Percent(k, total))
  }

  predicate NoRaise(ends: seq<JobEnd>) {
    forall j :: 0 <= j < |ends| ==> ends[j].Completed?
  }

  lemma {:induction false} CleanBatch(r: Run, batch: seq<JobEnd>, total: nat)
    requires NoRaise(batch) && !r.flag && r.reports == Steps(r.completed, total)
    ensures var r' := RunBatch(r, batch, total, true, Cancellation.Never);
      !r'.flag && r'.completed == r.completed + |batch| && r'.started == r.started
      && r'.reports == Steps(r'.completed, total)
    decreases |batch|
  {
    if batch != [] {
      var r1 := FinishJob(r, batch[0], total, true, Cancellation.Never);
      assert r1.reports == Steps(r.completed + 1, total);
      assert NoRaise(batch[1..]) by {
        assert forall j :: 0 <= j < |batch| - 1 ==> batch[1..][j] == batch[j + 1];
      }
      CleanBatch(r1, batch[1..], total);
    }
  }

  lemma {:induction false} CleanBatches(r: Run, bs: seq<seq<JobEnd>>, b: nat, total: nat)
    requires b <= |bs| && NoRaise(Concat(bs[b..]))
    requires !r.flag && r.reports == Steps(r.completed, total) && r.started == r.completed
    ensures var r' := RunBatches(r, bs, b, total, true, Cancellation.Never);
      !r'.flag && r'.started == r'.completed == r.completed + |Concat(bs[b..])|
      && r'.reports == Steps(r'.completed, total)
    decreases |bs| - b
  {
    if b < |bs| {
      NoRaiseSplit(bs, b);
      var s := r.(started := r.started + |bs[b]|, polls := r.polls + 1);
      CleanBatch(s, bs[b], total);
      CleanBatches(RunBatch(s, bs[b], total, true, Cancellation.Never), bs, b + 1, total);
    } else {
      assert bs[b..] == [];
    }
  }

  /** The jobs from batch `b` on are batch `b`'s followed by the rest. */
  lemma NoRaiseSplit(bs: seq<seq<JobEnd>>, b: nat)
    requires b < |bs| && NoRaise(Concat(bs[b..]))
    ensures NoRaise(bs[b]) && NoRaise(Concat(bs[b + 1..]))
    ensures |Concat(bs[b..])| == |bs[b]| + |Concat(bs[b + 1..])|
  {
    assert bs[b..] == [bs[b]] + bs[b + 1..];
    ConcatAppend([bs[b]], bs[b + 1..]);
    assert Concat([bs[b]]) == bs[b];
    var all := Concat(bs[b..]);
    var rest := Concat(bs[b + 1..]);
    assert all == bs[b] + rest;
    assert forall j :: 0 <= j < |bs[b]| ==> bs[b][j] == all[j];
    assert forall j :: 0 <= j < |rest| ==> rest[j] == all[|bs[b]| + j];
  }

  /**
    With a callback, no job raising and no external stop, every job runs, the flag
    stays down, and the reports are exactly 0%, 1/n, 2/n, ..., 100%.
  */
  lemma CleanRun(ends: seq<JobEnd>, size: nat)
    requires size >= 1 && ends != [] && NoRaise(ends)
    ensures var r := RunInBatches(ends, size, true, Cancellation.Never);
      !r.flag && r.started == |ends| && r.reports == Steps(|ends|, |ends|)
  {
    var bs := Batches(ends, size);
    BatchesConcat(ends, size);
    assert bs[0..] == bs;
    CleanBatches(Run(false, 0, 0, 0, [Percent(0, |ends|)]), bs, 0, |ends|);
  }

  // -------------------------------------------------------------- aborting

  /** From a batch in which a job raises (with a callback, or by timing out), the flag comes back raised. */
  lemma {:induction false} RaiseInBatch(r: Run, batch: seq<JobEnd>, total: nat, callback: bool, i: nat, external: Cancellation.Abort)
    requires i < |batch| && batch[i].Raised? && (callback || batch[i].timedOut)
    ensures RunBatch(r, batch, total, callback, external).flag
    decreases |batch|
  {
    var r1 := FinishJob(r, batch[0], total, callback, external);
    if i == 0 {
      FlagStays(r1, batch[1..], total, callback, external);
    } else {
      RaiseInBatch(r1, batch[1..], total, callback, i - 1, external);
    }
  }

  lemma {:induction false} FlagStays(r: Run, batch: seq<JobEnd>, total: nat, callback: bool, external: Cancellation.Abort)
    requires r.flag
    ensures RunBatch(r, batch, total, callback, external).flag
    decreases |batch|
  {
    if batch != [] {
      FlagStays(FinishJob(r, batch[0], total, callback, external), batch[1..], total, callback, external);
    }
  }

  /** Once the flag is raised after batch `b`, the loop starts nothing more. */
  lemma {:induction false} RaisedStops(r: Run, bs: seq<seq<JobEnd>>, b: nat, total: nat, callback: bool,
                                       external: Cancellation.Abort, k: nat)
    requires b <= k < |bs|
    requires exists i :: 0 <= i < |bs[k]| && bs[k][i].Raised? && (callback || bs[k][i].timedOut)
    requires r.started == |Concat(bs[..b])|
    ensures RunBatches(r, bs, b, total, callback, external).started <= |Concat(bs[..k + 1])|
    decreases |bs| - b
  {
    if !(FlagUp(r, external)) {
      ConcatSnoc(bs, b);
      var s := r.(started := r.started + |bs[b]|, polls := r.polls + 1);
      var r1 := RunBatch(s, bs[b], total, callback, external);
      assert r1.started == s.started by { StartedStays(s, bs[b], total, callback, external); }
      if b == k {
        var i :| 0 <= i < |bs[k]| && bs[k][i].Raised? && (callback || bs[k][i].timedOut);
        RaiseInBatch(s, bs[b], total, callback, i, external);
        assert RunBatches(r1, bs, b + 1, total, callback, external).started == r1.started;
      } else {
        RaisedStops(r1, bs, b + 1, total, callback, external, k);
      }
    } else {
      ConcatPrefixGrows(bs, b, k + 1);
    }
  }

  lemma {:induction false} StartedStays(r: Run, batch: seq<JobEnd>, total: nat, callback: bool, external: Cancellation.Abort)
    ensures RunBatch(r, batch, total, callback, external).started == r.started
    decreases |batch|
  {
    if batch != [] {
      StartedStays(FinishJob(r, batch[0], total, callback, external), batch[1..], total, callback, external);
    }
  }

  lemma ConcatPrefixGrows<T>(bs: seq<seq<T>>, a: nat, b: nat)
    requires a <= b <= |bs|
    ensures |Concat(bs[..a])| <= |Concat(bs[..b])|
  {
    ConcatAppend(bs[..a], bs[a..b]);
    assert bs[..a] + bs[a..b] == bs[..b];
  }

  /**
    A job that raises with a callback present, or times out, stops the schedule: no
    job of a later batch starts (the jobs started are at most the batches up to and
    including the one that raised).
  */
  lemma RaiseStops(ends: seq<JobEnd>, size: nat, callback: bool, external: Cancellation.Abort, k: nat, i: nat)
    requires size >= 1
    requires var bs := Batches(ends, size);
      k < |bs| && i < |bs[k]| && bs[k][i].Raised? && (callback || bs[k][i].timedOut)
    ensures RunInBatches(ends, size, callback, external).started <= |Concat(Batches(ends, size)[..k + 1])|
  {
    var bs := Batches(ends, size);
    assert ends != [];
    assert bs[..0] == [];
    RaisedStops(Run(false, 0, 0, 0, if callback then [Percent(0, |ends|)] else []), bs, 0, |ends|, callback, external, k);
  }

  // ---------------------------------------------------------------- windows

  /** Python's `s[-n:]`: the last `n` characters, except that `s[-0:]` is all of `s`. */
  function Tail(s: string, n: nat): (t: string)
    ensures |t| <= |s| && t == s[|s| - |t|..]
    ensures |t| == (if n == 0 || n >= |s| then |s| else n)
  {
    if n == 0 || n >= |s| then s else s[|s| - n..]
  }

  /** Python's `s[:n]`: the first `n` characters, or all of `s`. */
  function Head(s: string, n: nat): (h: string)
    ensures |h| <= |s| && h == s[..|h|]
    ensures |h| == (if n >= |s| then |s| else n)
  {
    if n >= |s| then s else s[..n]
  }

  /** `int(len(s) * overlap / chunk_size)` for non-negative values. */
  function OverlapLength(s: string, overlap: nat, chunkSize: nat): nat
    requires chunkSize >= 1
  {
    |s| * overlap / chunkSize
  }

  /**
    The single-phase window of chunk `i`: the end of the previous chunk, the chunk,
    and the start of the next one, each slice `OverlapLength` long.
  */
  function SinglePhaseWindow(ts: seq<string>, i: nat, overlap: nat, chunkSize: nat): string
    requires i < |ts| && chunkSize >= 1
  {
    var before := if i > 0 then Tail(ts[i - 1], OverlapLength(ts[i - 1], overlap, chunkSize)) else "";
    var after := if i < |ts| - 1 then Head(ts[i + 1], OverlapLength(ts[i + 1], overlap, chunkSize)) else "";
    before + ts[i] + after
  }

  /**
    The single-phase window is the chunk between a piece of the end of the previous
    chunk (nothing for the first) and a piece of the start of the next (nothing for
    the last).
  */
  lemma SinglePhaseWindowParts(ts: seq<string>, i: nat, overlap: nat, chunkSize: nat)
    requires i < |ts| && chunkSize >= 1
    ensures exists p, q :: (SinglePhaseWindow(ts, i, overlap, chunkSize) == p + ts[i] + q
      && (i == 0 ==> p == "") && (i > 0 ==> |p| <= |ts[i - 1]| && p == ts[i - 1][|ts[i - 1]| - |p|..])
      && (i == |ts| - 1 ==> q == "") && (i < |ts| - 1 ==> |q| <= |ts[i + 1]| && q == ts[i + 1][..|q|]))
  {
    var p := if i > 0 then Tail(ts[i - 1], OverlapLength(ts[i - 1], overlap, chunkSize)) else "";
    var q := if i < |ts| - 1 then Head(ts[i + 1], OverlapLength(ts[i + 1], overlap, chunkSize)) else "";
    assert SinglePhaseWindow(ts, i, overlap, chunkSize) == p + ts[i] + q;
  }

  /**
    The `s[-0:]` quirk: when the slice length rounds down to 0, the window takes the
    whole previous chunk, while the slice of the next chunk is empty.
  */
  lemma ZeroOverlapQuirk(ts: seq<string>, i: nat, overlap: nat, chunkSize: nat)
    requires 0 < i < |ts| - 1 && chunkSize >= 1
    requires OverlapLength(ts[i - 1], overlap, chunkSize) == 0 && OverlapLength(ts[i + 1], overlap, chunkSize) == 0
    ensures SinglePhaseWindow(ts, i, overlap, chunkSize) == ts[i - 1] + ts[i]
  {
  }

  /** The two-phase window: the whole previous chunk, the chunk, the whole next chunk, unseparated. */
  function TwoPhaseWindow(ts: seq<string>, i: nat): string
    requires i < |ts|
  {
    (if i > 0 then ts[i - 1] else "") + ts[i] + (if i < |ts| - 1 then ts[i + 1] else "")
  }

  /** The two-phase window is the concatenation of the chunks within one of `i`. */
  lemma TwoPhaseWindowSpan(ts: seq<string>, i: nat)
    requires i < |ts|
    ensures var lo := if i > 0 then i - 1 else 0;
      var hi := if i + 2 <= |ts| then i + 2 else |ts|;
      TwoPhaseWindow(ts, i) == Concat(ts[lo..hi])
  {
    var lo := if i > 0 then i - 1 else 0;
    var hi := if i + 2 <= |ts| then i + 2 else |ts|;
    var part := ts[lo..hi];
    var before: seq<string> := if i > 0 then [ts[i - 1]] else [];
    var after: seq<string> := if i < |ts| - 1 then [ts[i + 1]] else [];
    assert part == before + [ts[i]] + after;
    ConcatAppend(before + [ts[i]], after);
    ConcatAppend(before, [ts[i]]);
    assert Concat([ts[i]]) == ts[i];
    assert Concat(before) == (if i > 0 then ts[i - 1] else "") by {
      if i > 0 { assert Concat([ts[i - 1]]) == ts[i - 1]; }
    }
    assert Concat(after) == (if i < |ts| - 1 then ts[i + 1] else "") by {
      if i < |ts| - 1 { assert Concat([ts[i + 1]]) == ts[i + 1]; }
    }
  }

  // -------------------------------------------------------------- job lists

  /** `[i for i in range(lo, n) if keep(i)]`. */
  function Indices(lo: nat, n: nat, keep: nat -> bool): (r: seq<nat>)
    ensures forall k :: 0 <= k < |r| ==> lo <= r[k] < n && keep(r[k])
    ensures forall a, b :: 0 <= a < b < |r| ==> r[a] < r[b]
    ensures forall i :: lo <= i < n && keep(i) ==> i in r
    decreases n - lo
  {
    if lo >= n then []
    else if keep(lo) then [lo] + Indices(lo + 1, n, keep)
    else Indices(lo + 1, n, keep)
  }

  /** With nothing filtered out, the indices are all of `lo..n`. */
  lemma {:induction false} IndicesAll(lo: nat, n: nat, keep: nat -> bool)
    requires forall i :: lo <= i < n ==> keep(i)
    ensures |Indices(lo, n, keep)| == (if lo <= n then n - lo else 0)
    decreases n - lo
  {
    if lo < n {
      IndicesAll(lo + 1, n, keep);
    }
  }

  /** The pipeline settings the job lists read. */
  datatype Settings = Settings(chunkSize: nat, paddingSize: int, overlap: nat, optimizationOn: bool)

  /** One model request: the chunk it is for, the text it sends, the entity hints, the padding it sees. */
  datatype Job = Job(chunk: nat, text: string, entities: seq<string>, padding: int)

  /** A phase's outcome before scheduling: returned early, crashed, or a job list to run in batches. */
  datatype Phase = NotRun | Crash | Scheduled(jobs: seq<Job>)

  /** The jobs `make(i)` for the chunks `i < n` that `keep` selects, in chunk order. */
  function Indexed(n: nat, keep: nat -> bool, make: nat --> Job): seq<Job>
    requires forall i :: 0 <= i < n ==> make.requires(i)
  {
    var idx := Indices(0, n, keep);
    seq(|idx|, k requires 0 <= k < |idx| => make(idx[k]))
  }

  /** Does the job list hold a job for chunk `i`? */
  predicate HasJob(jobs: seq<Job>, i: nat) {
    exists k :: 0 <= k < |jobs| && jobs[k].chunk == i
  }

  /** Job lists are in chunk order, one job per chunk at most. */
  predicate ChunkOrdered(jobs: seq<Job>) {
    forall a, b :: 0 <= a < b < |jobs| ==> jobs[a].chunk < jobs[b].chunk
  }

  /** A job for chunk `i` exactly when `keep(i)`, in chunk order, each the job `make` builds for its chunk. */
  lemma IndexedExact(n: nat, keep: nat -> bool, make: nat --> Job)
    requires forall i :: 0 <= i < n ==> make.requires(i) && make(i).chunk == i
    ensures var js := Indexed(n, keep, make);
      && ChunkOrdered(js)
      && (forall i :: 0 <= i < n ==> (HasJob(js, i) <==> keep(i)))
      && (forall k :: 0 <= k < |js| ==> js[k].chunk < n && js[k] == make(js[k].chunk))
  {
    var js := Indexed(n, keep, make);
    var idx := Indices(0, n, keep);
    IndexedParts(n, keep, make);
    JobsOrdered(js, idx);
    JobsPresent(js, idx, n, keep);
  }

  lemma IndexedParts(n: nat, keep: nat -> bool, make: nat --> Job)
    requires forall i :: 0 <= i < n ==> make.requires(i) && make(i).chunk == i
    ensures var js, idx := Indexed(n, keep, make), Indices(0, n, keep);
      && |js| == |idx|
      && forall k :: 0 <= k < |js| ==> idx[k] < n && js[k] == make(idx[k]) && js[k].chunk == idx[k]
  {
  }

  lemma JobsOrdered(js: seq<Job>, idx: seq<nat>)
    requires |js| == |idx| && forall k :: 0 <= k < |js| ==> js[k].chunk == idx[k]
    requires forall a, b :: 0 <= a < b < |idx| ==> idx[a] < idx[b]
    ensures ChunkOrdered(js)
  {
  }

  lemma JobsPresent(js: seq<Job>, idx: seq<nat>, n: nat, keep: nat -> bool)
    requires |js| == |idx| && forall k :: 0 <= k < |js| ==> js[k].chunk == idx[k]
    requires forall k :: 0 <= k < |idx| ==> keep(idx[k])
    requires forall i :: 0 <= i < n && keep(i) ==> i in idx
    ensures forall i :: 0 <= i < n ==> (HasJob(js, i) <==> keep(i))
  {
    forall i | 0 <= i < n && keep(i) ensures HasJob(js, i) {
      var k :| 0 <= k < |idx| && idx[k] == i;
      assert js[k].chunk == i;
    }
  }

  /** With nothing filtered out, every chunk has a job. */
  lemma IndexedAll(n: nat, keep: nat -> bool, make: nat --> Job)
    requires forall i :: 0 <= i < n ==> make.requires(i) && keep(i)
    ensures |Indexed(n, keep, make)| == n
  {
    IndicesAll(0, n, keep);
  }

  /** `_L0_extract_graph`: one job per uncached chunk, with its single-phase window. */
  function SinglePhaseJobs(db: ContentStore.Db, document: int, config: int, ts: seq<string>, s: Settings): Phase
    requires s.chunkSize >= 1
  {
    if ts == [] then NotRun
    else
      Scheduled(Indexed(|ts|, i => !(s.optimizationOn && ContentStore.ResponseExists(db, document, i, config)),
        (i: nat) requires i < |ts| => Job(i, SinglePhaseWindow(ts, i, s.overlap, s.chunkSize), [], s.paddingSize)))
  }

  /** `_L1_extract_entities_from_chunks`: one job per chunk without a stored entity list, sent with padding 0. */
  function EntityPhaseJobs(db: ContentStore.Db, document: int, config: int, ts: seq<string>, s: Settings): Phase {
    if ts == [] then NotRun
    else
      Scheduled(Indexed(|ts|, i => !(s.optimizationOn && ContentStore.EntityResponseExists(db, document, i, config)),
        (i: nat) requires i < |ts| => Job(i, ts[i], [], 0)))
  }

  /** The entity hints of a chunk: `chunk_node_map[i] or []`. */
  function Hints(v: Option<seq<string>>): seq<string> {
    if v.Some? then v.value else []
  }

  /** A row's entity list, when it has one (`None` for an empty or unparsable row). */
  function RowEntities(row: Tables.Row<ContentStore.EntityResponse>): Option<seq<string>> {
    if row.val.nodes == "" then None else ResponseParser.ParseNodes(Some(row.val.nodes))
  }

  /**
    One step of `_build_chunk_node_map`: a row with an empty entity string is skipped;
    a chunk seen before is extended, which raises when either list is `None`.
  */
  function AddRow(m: map<int, Option<seq<string>>>, row: Tables.Row<ContentStore.EntityResponse>): Option<map<int, Option<seq<string>>>> {
    var c := row.val.chunk;
    if row.val.nodes == "" then Some(m)
    else
      var p := RowEntities(row);
      if c in m then
        if m[c].None? || p.None? then None else Some(m[c := Some(m[c].value + p.value)])
      else Some(m[c := p])
  }

  /** `_build_chunk_node_map`, left to right; `None` is the raised error. */
  function NodeMap(rows: seq<Tables.Row<ContentStore.EntityResponse>>): Option<map<int, Option<seq<string>>>>
    decreases |rows|
  {
    if rows == [] then Some(map[])
    else
      match NodeMap(rows[..|rows| - 1])
      case None => None
      case Some(m) => AddRow(m, rows[|rows| - 1])
  }

  /** Does some row with a non-empty entity string belong to chunk `c`? */
  predicate Listed(rows: seq<Tables.Row<ContentStore.EntityResponse>>, c: int) {
    exists j :: 0 <= j < |rows| && rows[j].val.chunk == c && rows[j].val.nodes != ""
  }

  /** Every non-empty entity string parses. */
  predicate AllParse(rows: seq<Tables.Row<ContentStore.EntityResponse>>) {
    forall j :: 0 <= j < |rows| && rows[j].val.nodes != "" ==> RowEntities(rows[j]).Some?
  }

  /** The entities of chunk `c`: every listed row's entities, in row order. */
  function EntitiesOf(rows: seq<Tables.Row<ContentStore.EntityResponse>>, c: int): seq<string>
    decreases |rows|
  {
    if rows == [] then []
    else
      var last := rows[|rows| - 1];
      EntitiesOf(rows[..|rows| - 1], c)
        + (if last.val.chunk == c && last.val.nodes != "" then Hints(RowEntities(last)) else [])
  }

  /**
    When every stored entity string parses, the map does not raise; its chunks are
    exactly the chunks with a non-empty row, each mapped to all its rows' entities in
    row order.
  */
  lemma {:induction false} NodeMapExact(rows: seq<Tables.Row<ContentStore.EntityResponse>>)
    requires AllParse(rows)
    ensures NodeMap(rows).Some?
    ensures forall c :: c in NodeMap(rows).value <==> Listed(rows, c)
    ensures forall c :: c in NodeMap(rows).value ==> NodeMap(rows).value[c] == Some(EntitiesOf(rows, c))
    decreases |rows|
  {
    if rows != [] {
      var init := rows[..|rows| - 1];
      assert AllParse(init) by {
        assert forall j :: 0 <= j < |init| ==> init[j] == rows[j];
      }
      NodeMapExact(init);
      AddRowExact(rows);
    }
  }

  /** The last row's step keeps the map exact. */
  lemma AddRowExact(rows: seq<Tables.Row<ContentStore.EntityResponse>>)
    requires rows != [] && AllParse(rows)
    requires var init := rows[..|rows| - 1];
      && NodeMap(init).Some?
      && (forall c :: c in NodeMap(init).value <==> Listed(init, c))
      && (forall c :: c in NodeMap(init).value ==> NodeMap(init).value[c] == Some(EntitiesOf(init, c)))
    ensures NodeMap(rows).Some?
    ensures forall c :: c in NodeMap(rows).value <==> Listed(rows, c)
    ensures forall c :: c in NodeMap(rows).value ==> NodeMap(rows).value[c] == Some(EntitiesOf(rows, c))
  {
    var init := rows[..|rows| - 1];
    var last := rows[|rows| - 1];
    var m := NodeMap(init).value;
    assert last.val.nodes != "" ==> RowEntities(last).Some?;
    assert NodeMap(rows) == AddRow(m, last);
    forall c ensures AddRow(m, last).Some?
      && (c in AddRow(m, last).value <==> Listed(rows, c))
      && (c in AddRow(m, last).value ==> AddRow(m, last).value[c] == Some(EntitiesOf(rows, c)))
    {
      if !Listed(init, c) {
        NotListedNone(init, c);
      }
      AddRowAt(m, last, c, Listed(init, c), EntitiesOf(init, c));
      ListedSnoc(rows, c);
    }
  }

  /** One chunk's entry after a row is added, in terms of its entry before. */
  lemma AddRowAt(m: map<int, Option<seq<string>>>, row: Tables.Row<ContentStore.EntityResponse>, c: int,
                 listed: bool, before: seq<string>)
    requires forall d :: d in m ==> m[d].Some?
    requires c in m <==> listed
    requires c in m ==> m[c] == Some(before)
    requires row.val.nodes != "" ==> RowEntities(row).Some?
    requires !listed ==> before == []
    ensures AddRow(m, row).Some?
    ensures var m' := AddRow(m, row).value;
      var mine := row.val.chunk == c && row.val.nodes != "";
      && (c in m' <==> listed || mine)
      && (c in m' ==> m'[c] == Some(before + (if mine then Hints(RowEntities(row)) else [])))
  {
    if row.val.chunk == c && row.val.nodes != "" {
      if !listed {
        assert before + Hints(RowEntities(row)) == Hints(RowEntities(row));
      }
    } else {
      assert before + [] == before;
    }
  }

  /** A chunk is listed in rows exactly when it is listed before the last row or by it. */
  lemma ListedSnoc(rows: seq<Tables.Row<ContentStore.EntityResponse>>, c: int)
    requires rows != []
    ensures var init := rows[..|rows| - 1]; var last := rows[|rows| - 1];
      Listed(rows, c) <==> Listed(init, c) || (last.val.chunk == c && last.val.nodes != "")
  {
    var init := rows[..|rows| - 1];
    assert forall j :: 0 <= j < |init| ==> init[j] == rows[j];
  }

  lemma {:induction false} NotListedNone(rows: seq<Tables.Row<ContentStore.EntityResponse>>, c: int)
    requires !Listed(rows, c)
    ensures EntitiesOf(rows, c) == []
    decreases |rows|
  {
    if rows != [] {
      var init := rows[..|rows| - 1];
      ListedSnoc(rows, c);
      NotListedNone(init, c);
    }
  }

  /**
    `_L2_extract_graph_big_context`: nothing when the flag is already raised or no
    entity list is stored; a crash when building the map raises; otherwise one job per
    uncached chunk that has entities, with its two-phase window and entity hints.
  */
  function RelationPhaseJobs(db: ContentStore.Db, document: int, config: int, ts: seq<string>, s: Settings,
                             aborted: bool): Phase
  {
    if aborted then NotRun
    else
      var rows := ContentStore.AllEntityResponsesFor(db, document, config);
      if rows == [] then NotRun
      else
        match NodeMap(rows)
        case None => Crash
        case Some(m) =>
          Scheduled(Indexed(|ts|, i => !(s.optimizationOn && ContentStore.ResponseExists(db, document, i, config)) && i in m,
            (i: nat) requires i < |ts| => Job(i, TwoPhaseWindow(ts, i), Hints(if i in m then m[i] else None), s.paddingSize)))
  }

  /**
    The single-phase jobs: a job for chunk `i` exactly when its response is not cached
    (or caching is off), in chunk order, each sending the chunk's window.
  */
  lemma SinglePhaseJobsExact(db: ContentStore.Db, document: int, config: int, ts: seq<string>, s: Settings)
    requires s.chunkSize >= 1 && ts != []
    ensures var p := SinglePhaseJobs(db, document, config, ts, s);
      && p.Scheduled? && ChunkOrdered(p.jobs)
      && (forall i :: 0 <= i < |ts| ==>
            (HasJob(p.jobs, i) <==> !(s.optimizationOn && ContentStore.ResponseExists(db, document, i, config))))
      && (forall k :: 0 <= k < |p.jobs| ==> (p.jobs[k].chunk < |ts|
            && p.jobs[k].text == SinglePhaseWindow(ts, p.jobs[k].chunk, s.overlap, s.chunkSize)))
  {
    IndexedExact(|ts|, i => !(s.optimizationOn && ContentStore.ResponseExists(db, document, i, config)),
      (i: nat) requires i < |ts| => Job(i, SinglePhaseWindow(ts, i, s.overlap, s.chunkSize), [], s.paddingSize));
  }

  /** With caching off, or with nothing stored, every chunk gets a single-phase job. */
  lemma SinglePhaseEveryChunk(db: ContentStore.Db, document: int, config: int, ts: seq<string>, s: Settings)
    requires s.chunkSize >= 1 && ts != [] && (!s.optimizationOn || db.Offline?)
    ensures var p := SinglePhaseJobs(db, document, config, ts, s);
      p.Scheduled? && |p.jobs| == |ts|
  {
    IndexedAll(|ts|, i => !(s.optimizationOn && ContentStore.ResponseExists(db, document, i, config)),
      (i: nat) requires i < |ts| => Job(i, SinglePhaseWindow(ts, i, s.overlap, s.chunkSize), [], s.paddingSize));
  }

  /** Phase one: a job per chunk without a stored entity list (or all, with caching off), each sent with padding 0. */
  lemma EntityPhaseJobsExact(db: ContentStore.Db, document: int, config: int, ts: seq<string>, s: Settings)
    requires ts != []
    ensures var p := EntityPhaseJobs(db, document, config, ts, s);
      && p.Scheduled? && ChunkOrdered(p.jobs)
      && (forall i :: 0 <= i < |ts| ==>
            (HasJob(p.jobs, i) <==> !(s.optimizationOn && ContentStore.EntityResponseExists(db, document, i, config))))
      && (forall k :: 0 <= k < |p.jobs| ==> (p.jobs[k].chunk < |ts| && p.jobs[k].text == ts[p.jobs[k].chunk]
            && p.jobs[k].padding == 0))
  {
    IndexedExact(|ts|, i => !(s.optimizationOn && ContentStore.EntityResponseExists(db, document, i, config)),
      (i: nat) requires i < |ts| => Job(i, ts[i], [], 0));
  }

  /**
    Phase two: a job for chunk `i` exactly when it is uncached and has an entry in the
    entity map; a chunk with no phase-one entities is skipped. Each job sends the
    two-phase window and the chunk's entities.
  */
  lemma RelationPhaseJobsExact(db: ContentStore.Db, document: int, config: int, ts: seq<string>, s: Settings)
    requires ContentStore.AllEntityResponsesFor(db, document, config) != []
    requires NodeMap(ContentStore.AllEntityResponsesFor(db, document, config)).Some?
    ensures var m := NodeMap(ContentStore.AllEntityResponsesFor(db, document, config)).value;
      var p := RelationPhaseJobs(db, document, config, ts, s, false);
      && p.Scheduled? && ChunkOrdered(p.jobs)
      && (forall i :: 0 <= i < |ts| ==>
            (HasJob(p.jobs, i) <==> !(s.optimizationOn && ContentStore.ResponseExists(db, document, i, config)) && i in m))
      && (forall k :: 0 <= k < |p.jobs| ==> (p.jobs[k].chunk < |ts| && p.jobs[k].chunk in m
            && p.jobs[k].text == TwoPhaseWindow(ts, p.jobs[k].chunk)
            && p.jobs[k].entities == Hints(m[p.jobs[k].chunk])))
  {
    var m := NodeMap(ContentStore.AllEntityResponsesFor(db, document, config)).value;
    IndexedExact(|ts|, i => !(s.optimizationOn && ContentStore.ResponseExists(db, document, i, config)) && i in m,
      (i: nat) requires i < |ts| => Job(i, TwoPhaseWindow(ts, i), Hints(if i in m then m[i] else None), s.paddingSize));
  }

  // ---------------------------------------------------------- running a job

  /**
    What the model call of a job gave: `wait_for` timed out; the call raised some other
    error (an error of the API client, its own request timeout included, or a reply
    without content); `execute` returned `None` (an API name it does not know); or an
    answer text.
  */
  datatype Reply = TimedOut | Failed | NoReply | Answer(text: string)

  /**
    `_process_chunk`: a timeout raises (and raises the flag); any other error of the call
    escapes as a raise without the flag; no reply fails inside the parser's `try`
    and is dropped, as is an answer that does not parse to two tables; otherwise the
    tables, rendered to CSV under their column names by `render`, are stored for the chunk.
  */
  function ProcessChunk(db: ContentStore.Db, document: int, chunk: int, config: int, reply: Reply,
                        render: (seq<ResponseParser.Node>, seq<ResponseParser.Edge>, seq<string>) -> (string, string))
    : (ContentStore.Db, JobEnd)
  {
    match reply
    case TimedOut => (db, Raised(true))
    case Failed => (db, Raised(false))
    case NoReply => (db, Completed)
    case Answer(text) =>
      match ResponseParser.ParseText(text)
      case Tables(ns, es, columns) =>
        var (nodes, edges) := render(ns, es, columns);
        (ContentStore.InsertResponse(db, document, chunk, config, nodes, edges).0, Completed)
      case _ => (db, Completed)
  }

  /**
    A chunk job raises exactly when the call timed out or failed, and sets the flag
    itself only for the timeout; without an answer that parses the store is left as
    it was; an answer that parses is stored, and `response_exists` then holds.
  */
  lemma ProcessChunkOutcome(db: ContentStore.Db, document: int, chunk: int, config: int, reply: Reply,
                            render: (seq<ResponseParser.Node>, seq<ResponseParser.Edge>, seq<string>) -> (string, string))
    ensures var (db', e) := ProcessChunk(db, document, chunk, config, reply, render);
      && (e.Raised? <==> reply.TimedOut? || reply.Failed?)
      && (e.Raised? ==> (e.timedOut <==> reply.TimedOut?))
      && (!reply.Answer? || !ResponseParser.ParseText(reply.text).Tables? ==> db' == db)
      && (reply.Answer? && ResponseParser.ParseText(reply.text).Tables? ==>
            (ContentStore.ResponseExists(db', document, chunk, config) <==> db.Online?))
  {
    if reply.Answer? && ResponseParser.ParseText(reply.text).Tables? {
      var t := ResponseParser.ParseText(reply.text);
      var (nodes, edges) := render(t.nodes, t.edges, t.nodeColumns);
      ContentStore.ResponseStored(db, document, chunk, config, nodes, edges);
    }
  }

  /**
    `_process_L1_chunk`: a timeout raises and sets the flag; any other error of the call
    raises without it; no reply or an answer with no entity list is dropped; otherwise
    the entities, each quoted and joined with `, `, are stored for the chunk.
  */
  function ProcessEntities(db: ContentStore.Db, document: int, chunk: int, config: int, reply: Reply)
    : (r: (ContentStore.Db, JobEnd))
    ensures r.1.Raised? <==> reply.TimedOut? || reply.Failed?
    ensures r.1.Raised? ==> (r.1.timedOut <==> reply.TimedOut?)
    ensures !reply.Answer? || ResponseParser.ParseNodes(Some(reply.text)).None? ==> r.0 == db
  {
    match reply
    case TimedOut => (db, Raised(true))
    case Failed => (db, Raised(false))
    case NoReply => (db, Completed)
    case Answer(text) =>
      match ResponseParser.ParseNodes(Some(text))
      case None => (db, Completed)
      case Some(ns) =>
        var listed := PyCsv.QuotedList(ns);
        if Text.Strip(listed) == [] then (db, Completed)
        else (ContentStore.InsertEntityResponse(db, document, chunk, config, listed).0, Completed)
  }

  /**
    An entity list stored by phase one is read back by phase two unchanged: after the
    job the chunk has a stored row whose entity string parses to the entities the
    answer gave (provided none contains a quote, which the list does not escape).
  */
  lemma EntitiesRoundTrip(db: ContentStore.Db, document: int, chunk: int, config: int, text: string)
    requires db.Online? && ContentStore.Valid(db.store)
    requires ResponseParser.ParseNodes(Some(text)).Some?
    requires forall k :: 0 <= k < |ResponseParser.ParseNodes(Some(text)).value| ==>
      '"' !in ResponseParser.ParseNodes(Some(text)).value[k]
    ensures var (db', e) := ProcessEntities(db, document, chunk, config, Answer(text));
      var t := db'.store.entityResponses;
      var key := ContentStore.ResponseKey(document, chunk, config);
      && e == Completed && ContentStore.EntityResponseExists(db', document, chunk, config)
      && ResponseParser.ParseNodes(Some(t[Tables.Find(t, ContentStore.EntityKey, key)].val.nodes))
         == ResponseParser.ParseNodes(Some(text))
  {
    var ns := ResponseParser.ParseNodes(Some(text)).value;
    var listed := PyCsv.QuotedList(ns);
    ResponseParser.QuotedListEnds(ns);
    ResponseParser.ParseNodesRoundTrip(ns);
    Text.StripStripped(listed);
    ContentStore.EntityResponseUpsert(db, document, chunk, config, listed);
  }

  // --------------------------------------------------------------- strategy

  datatype Strategy = SinglePhase | TwoPhase

  /** `generate_graph_async`: a positive padding size selects the two-phase path. */
  function StrategyFor(paddingSize: int): Strategy {
    if paddingSize > 0 then TwoPhase else SinglePhase
  }

  /**
    The phases one document goes through: phase one against the store as it is, then
    phase two against the store phase one left (`between`), with `aborted` the flag
    when phase two starts; or the single phase.
  */
  function DocumentPhases(db: ContentStore.Db, between: ContentStore.Db, document: int, config: int,
                          ts: seq<string>, s: Settings, aborted: bool): seq<Phase>
    requires StrategyFor(s.paddingSize) == SinglePhase ==> s.chunkSize >= 1
  {
    match StrategyFor(s.paddingSize)
    case TwoPhase =>
      [EntityPhaseJobs(db, document, config, ts, s), RelationPhaseJobs(between, document, config, ts, s, aborted)]
    case SinglePhase => [SinglePhaseJobs(db, document, config, ts, s)]
  }

  /**
    A positive padding runs two phases, otherwise one. Phase one's requests see
    padding 0, and phase two's see the configured padding again: the change is undone
    once phase one is over.
  */
  lemma DocumentPhasesPadding(db: ContentStore.Db, between: ContentStore.Db, document: int, config: int,
                              ts: seq<string>, s: Settings, aborted: bool)
    requires StrategyFor(s.paddingSize) == SinglePhase ==> s.chunkSize >= 1
    ensures var ps := DocumentPhases(db, between, document, config, ts, s, aborted);
      && (|ps| == 2 <==> s.paddingSize > 0) && (|ps| == 1 <==> s.paddingSize <= 0)
      && (s.paddingSize > 0 && ps[0].Scheduled? ==> forall k :: 0 <= k < |ps[0].jobs| ==> ps[0].jobs[k].padding == 0)
      && (s.paddingSize > 0 && ps[1].Scheduled? ==>
            forall k :: 0 <= k < |ps[1].jobs| ==> ps[1].jobs[k].padding == s.paddingSize)
  {
  }
}
