/**
 * The polling engine of the commit source as functions of its inputs: the
 * window planner, one iteration of the `run` loop, and a whole run over a
 * schedule of polls. Wall-clock readings and fetched commit lists are
 * parameters.
 */
module Polling {
  import opened Results
  import opened Entities
  import opened Translation

  /** The largest window one query covers: one hour, in milliseconds. */
  const HourMillis: int := 3600000

  /**
   * The end of the next query window starting at `since`: one hour later,
   * but never later than `now`; that is, the minimum of the two.
   */
  function UntilFor(since: int, now: int): (until: int)
    ensures until <= since + HourMillis && until <= now
    ensures until == since + HourMillis || until == now
    ensures since <= now ==> since <= until
  {
    var maybeUntil := since + HourMillis;
    if maybeUntil > now then now else maybeUntil
  }

  /**
   * Nothing guards against a cursor ahead of the clock: the window then ends
   * at `now`, before its start, and the cursor moves backwards.
   */
  lemma UntilForBehindCursor(since: int, now: int)
    requires now < since
    ensures UntilFor(since, now) == now < since
  {
  }

  /** What the source hands to the downstream pipeline. */
  datatype Output =
    | Emit(record: Commit, timestamp: int)
    | Watermark(timestamp: int)

  /** Every record, in order, each with its own timestamp. */
  function Emits(changes: seq<Commit>): (out: seq<Output>)
    ensures |out| == |changes|
    ensures forall i :: 0 <= i < |changes| ==> out[i] == Emit(changes[i], changes[i].timestamp)
  {
    if changes == [] then []
    else
      var last := changes[|changes| - 1];
      Emits(changes[..|changes| - 1]) + [Emit(last, last.timestamp)]
  }

  /** The watermark values of an output trace, in order. */
  function Watermarks(out: seq<Output>): seq<int>
  {
    if out == [] then []
    else
      var last := out[|out| - 1];
      Watermarks(out[..|out| - 1]) + (if last.Watermark? then [last.timestamp] else [])
  }

  lemma {:induction false} WatermarksAppend(a: seq<Output>, b: seq<Output>)
    ensures Watermarks(a + b) == Watermarks(a) + Watermarks(b)
    decreases |b|
  {
    if b == [] {
      assert a + b == a;
    } else {
      var b' := b[..|b| - 1];
      assert (a + b)[..|a + b| - 1] == a + b';
      WatermarksAppend(a, b');
    }
  }

  lemma {:induction false} WatermarksOfEmits(changes: seq<Commit>)
    ensures Watermarks(Emits(changes)) == []
    decreases |changes|
  {
    if changes != [] {
      var out := Emits(changes);
      assert out[..|out| - 1] == Emits(changes[..|changes| - 1]);
      WatermarksOfEmits(changes[..|changes| - 1]);
    }
  }

  /** The new cursor and the output of one completed iteration. */
  datatype Advance = Advance(lastTime: int, output: seq<Output>)

  /**
   * One pass of the `run` loop from cursor `lastTime` at wall-clock `now`,
   * where `fetched` is the drained result of the query for the window, or
   * `None` when the query fails. A completed pass emits one record per fetched
   * commit, each with its commit date, then moves the cursor to the window's
   * end and emits that as a watermark. A failed pass emits nothing and leaves
   * the cursor.
   */
  function Iteration(lastTime: int, now: int, fetched: Option<seq<GHCommit>>): (r: Result<Advance, Error>)
    ensures r.Success? <==>
      fetched.Some? && forall i :: 0 <= i < |fetched.value| ==> fetched.value[i].GHCommit?
    ensures r.Failure? ==> r.error == (if fetched.None? then FetchFailed else CommitPullFailed)
    ensures r.Success? ==> r.value.lastTime == UntilFor(lastTime, now)
    ensures r.Success? && lastTime <= now ==> lastTime <= r.value.lastTime <= now
  {
    var until := UntilFor(lastTime, now);
    match fetched
    case None => Failure(FetchFailed)
    case Some(raw) =>
      match TranslateAll(raw)
      case Failure(e) => Failure(e)
      case Success(changes) => Success(Advance(until, Emits(changes) + [Watermark(until)]))
  }

  /**
   * A completed iteration emits exactly one record per fetched commit, in
   * order, each translated from its commit and carrying the commit date, and
   * then one watermark equal to the new cursor; nothing else.
   */
  lemma IterationOutput(lastTime: int, now: int, fetched: Option<seq<GHCommit>>)
    requires Iteration(lastTime, now, fetched).Success?
    ensures var adv := Iteration(lastTime, now, fetched).value;
      && |adv.output| == |fetched.value| + 1
      && adv.output[|fetched.value|] == Watermark(adv.lastTime)
      && forall i :: 0 <= i < |fetched.value| ==>
           && adv.output[i].Emit?
           && adv.output[i].timestamp == fetched.value[i].commitDate
           && FromGHCommit(fetched.value[i]) == Success(adv.output[i].record)
  {
  }

  /** A completed iteration's only watermark is its new cursor, and it comes last. */
  lemma IterationWatermark(lastTime: int, now: int, fetched: Option<seq<GHCommit>>)
    requires Iteration(lastTime, now, fetched).Success?
    ensures var adv := Iteration(lastTime, now, fetched).value;
      Watermarks(adv.output) == [adv.lastTime]
  {
    var changes := TranslateAll(fetched.value).value;
    WatermarksAppend(Emits(changes), [Watermark(UntilFor(lastTime, now))]);
    WatermarksOfEmits(changes);
  }

  /** An empty fetch still advances the cursor and still emits a watermark. */
  lemma EmptyFetchAdvances(lastTime: int, now: int)
    ensures Iteration(lastTime, now, Some([])) ==
      Success(Advance(UntilFor(lastTime, now), [Watermark(UntilFor(lastTime, now))]))
  {
    assert TranslateAll([]) == Success([]);
    assert Emits([]) + [Watermark(UntilFor(lastTime, now))] == [Watermark(UntilFor(lastTime, now))];
  }

  /**
   * What one pass of the loop sees: the wall clock, the query's drained
   * result (`None` when it fails), whether the following sleep is interrupted,
   * and whether the host cancels the source before the loop's next check.
   */
  datatype Poll = Poll(now: int, fetched: Option<seq<GHCommit>>, interrupted: bool, cancelled: bool)

  /** The state and output left by a run: the cursor, the flag, and the error that ended it, if any. */
  datatype RunResult = RunResult(lastTime: int, running: bool, output: seq<Output>, failure: Option<Error>)

  /**
   * The `run` loop over a finite schedule of polls: it stops when the flag is
   * down, when the schedule is exhausted, or when an iteration fails (the
   * exception leaves `run`, and that iteration emits nothing). Otherwise its
   * output is the completed iterations' outputs in order. A failure leaves
   * the flag up.
   */
  function RunFrom(lastTime: int, running: bool, polls: seq<Poll>): (r: RunResult)
    ensures !running ==> r == RunResult(lastTime, false, [], None)
    ensures r.failure.Some? ==> running && r.running && polls != []
    decreases |polls|
  {
    if !running || polls == [] then RunResult(lastTime, running, [], None)
    else
      var p := polls[0];
      match Iteration(lastTime, p.now, p.fetched)
      case Failure(e) => RunResult(lastTime, running, [], Some(e))
      case Success(adv) =>
        var rest := RunFrom(adv.lastTime, !(p.interrupted || p.cancelled), polls[1..]);
        rest.(output := adv.output + rest.output)
  }

  /** A run result with `done` emitted before its output. */
  function After(done: seq<Output>, r: RunResult): RunResult
  {
    r.(output := done + r.output)
  }

  lemma AfterAfter(done: seq<Output>, more: seq<Output>, r: RunResult)
    ensures After(done, After(more, r)) == After(done + more, r)
  {
    assert done + (more + r.output) == (done + more) + r.output;
  }

  /** The clock readings of a schedule never go back, and the first is not behind the cursor. */
  ghost predicate ClockAhead(lastTime: int, polls: seq<Poll>)
  {
    && (polls != [] ==> lastTime <= polls[0].now)
    && forall i, j :: 0 <= i < j < |polls| ==> polls[i].now <= polls[j].now
  }

  ghost predicate NonDecreasing(s: seq<int>)
  {
    forall i, j :: 0 <= i < j < |s| ==> s[i] <= s[j]
  }

  lemma PrependLeast(u: int, ws: seq<int>, hi: int)
    requires NonDecreasing(ws)
    requires forall w :: w in ws ==> u <= w <= hi
    requires u <= hi
    ensures NonDecreasing([u] + ws)
    ensures forall w :: w in [u] + ws ==> u <= w <= hi
  {
    var s := [u] + ws;
    forall i, j | 0 <= i < j < |s| ensures s[i] <= s[j] {
      if i > 0 {
        assert s[i] == ws[i - 1] && s[j] == ws[j - 1];
      } else {
        assert s[j] == ws[j - 1] && s[j] in ws;
      }
    }
  }

  /**
   * With the clock never behind the cursor, a run never moves the cursor
   * backwards, and its watermarks are non-decreasing and lie between the
   * starting and the final cursor.
   */
  lemma {:induction false} RunMonotone(lastTime: int, running: bool, polls: seq<Poll>)
    requires ClockAhead(lastTime, polls)
    ensures var r := RunFrom(lastTime, running, polls);
      && lastTime <= r.lastTime
      && NonDecreasing(Watermarks(r.output))
      && forall w :: w in Watermarks(r.output) ==> lastTime <= w <= r.lastTime
    decreases |polls|
  {
    if running && polls != [] {
      var p := polls[0];
      var it := Iteration(lastTime, p.now, p.fetched);
      if it.Success? {
        var adv := it.value;
        var stop := p.interrupted || p.cancelled;
        var rest := RunFrom(adv.lastTime, !stop, polls[1..]);
        assert ClockAhead(adv.lastTime, polls[1..]) by {
          if |polls| > 1 {
            assert polls[1..][0] == polls[1];
          }
        }
        RunMonotone(adv.lastTime, !stop, polls[1..]);
        IterationWatermark(lastTime, p.now, p.fetched);
        WatermarksAppend(adv.output, rest.output);
        PrependLeast(adv.lastTime, Watermarks(rest.output), rest.lastTime);
        assert RunFrom(lastTime, running, polls) == rest.(output := adv.output + rest.output);
      }
    }
  }

  /** No record is emitted after a watermark that is later than the record's timestamp. */
  ghost predicate NoLateRecords(out: seq<Output>)
  {
    forall i, j :: 0 <= i < j < |out| && out[i].Watermark? && out[j].Emit? ==>
      out[i].timestamp <= out[j].timestamp
  }

  /** The query for a window starting at `since` answers only with commits dated at or after it. */
  ghost predicate FetchedFrom(since: int, fetched: Option<seq<GHCommit>>)
  {
    fetched.Some? ==> forall i :: 0 <= i < |fetched.value| && fetched.value[i].GHCommit? ==>
      since <= fetched.value[i].commitDate
  }

  /** Every query a run makes respects its window's start. */
  ghost predicate FetchesFromWindows(lastTime: int, running: bool, polls: seq<Poll>)
    decreases |polls|
  {
    if !running || polls == [] then true
    else
      var p := polls[0];
      && FetchedFrom(lastTime, p.fetched)
      && match Iteration(lastTime, p.now, p.fetched)
         case Failure(_) => true
         case Success(adv) => FetchesFromWindows(adv.lastTime, !(p.interrupted || p.cancelled), polls[1..])
  }

  lemma NoLateConcat(a: seq<Output>, b: seq<Output>, u: int)
    requires NoLateRecords(a) && NoLateRecords(b)
    requires forall i :: 0 <= i < |a| && a[i].Watermark? ==> a[i].timestamp <= u
    requires forall j :: 0 <= j < |b| && b[j].Emit? ==> u <= b[j].timestamp
    ensures NoLateRecords(a + b)
  {
    var s := a + b;
    forall i, j | 0 <= i < j < |s| && s[i].Watermark? && s[j].Emit?
      ensures s[i].timestamp <= s[j].timestamp
    {
      if j < |a| {
        assert s[i] == a[i] && s[j] == a[j];
      } else if i < |a| {
        assert s[i] == a[i] && s[j] == b[j - |a|];
      } else {
        assert s[i] == b[i - |a|] && s[j] == b[j - |a|];
      }
    }
  }

  /**
   * When every query answers with commits dated no earlier than its window's
   * start, and the clock is never behind the cursor, no record of a run is late:
   * each is at or after every watermark emitted before it, and none is earlier
   * than the starting cursor.
   */
  lemma {:induction false} RunNoLateRecords(lastTime: int, running: bool, polls: seq<Poll>)
    requires ClockAhead(lastTime, polls)
    requires FetchesFromWindows(lastTime, running, polls)
    ensures var out := RunFrom(lastTime, running, polls).output;
      && NoLateRecords(out)
      && forall j :: 0 <= j < |out| && out[j].Emit? ==> lastTime <= out[j].timestamp
    decreases |polls|
  {
    if running && polls != [] {
      var p := polls[0];
      var it := Iteration(lastTime, p.now, p.fetched);
      if it.Success? {
        var adv := it.value;
        var n := |p.fetched.value|;
        var stop := p.interrupted || p.cancelled;
        var rest := RunFrom(adv.lastTime, !stop, polls[1..]);
        assert ClockAhead(adv.lastTime, polls[1..]) by {
          if |polls| > 1 {
            assert polls[1..][0] == polls[1];
          }
        }
        RunNoLateRecords(adv.lastTime, !stop, polls[1..]);
        IterationOutput(lastTime, p.now, p.fetched);
        assert forall i :: 0 <= i < |adv.output| && adv.output[i].Watermark? ==> i == n;
        assert forall i :: 0 <= i < |adv.output| && adv.output[i].Emit? ==>
          i < n && lastTime <= adv.output[i].timestamp;
        NoLateConcat(adv.output, rest.output, adv.lastTime);
        assert RunFrom(lastTime, running, polls).output == adv.output + rest.output;
        var out := adv.output + rest.output;
        forall j | 0 <= j < |out| && out[j].Emit? ensures lastTime <= out[j].timestamp {
          if j >= |adv.output| {
            assert out[j] == rest.output[j - |adv.output|];
          }
        }
      }
    }
  }

  /**
   * A run never stops part-way through a window: whatever it emitted ends
   * with a watermark, so no record is left without one after it.
   */
  lemma {:induction false} RunEndsWithWatermark(lastTime: int, running: bool, polls: seq<Poll>)
    ensures var out := RunFrom(lastTime, running, polls).output;
      out != [] ==> out[|out| - 1].Watermark?
    decreases |polls|
  {
    if running && polls != [] {
      var p := polls[0];
      var it := Iteration(lastTime, p.now, p.fetched);
      if it.Success? {
        var rest := RunFrom(it.value.lastTime, !(p.interrupted || p.cancelled), polls[1..]);
        RunEndsWithWatermark(it.value.lastTime, !(p.interrupted || p.cancelled), polls[1..]);
        IterationOutput(lastTime, p.now, p.fetched);
        var out := it.value.output + rest.output;
        assert out[|out| - 1] == if rest.output == [] then it.value.output[|it.value.output| - 1]
                                 else rest.output[|rest.output| - 1];
      }
    }
  }

  /** Once the flag is down, no iteration starts: nothing is emitted and nothing changes. */
  lemma NotRunningIsInert(lastTime: int, polls: seq<Poll>)
    ensures RunFrom(lastTime, false, polls) == RunResult(lastTime, false, [], None)
  {
  }

  /**
   * A cancellation or an interrupted sleep in poll `k` ends the run there:
   * later polls are never used, and unless an iteration failed the flag is
   * down at the end.
   */
  lemma {:induction false} StopEndsRun(lastTime: int, running: bool, polls: seq<Poll>, k: nat)
    requires k < |polls| && (polls[k].interrupted || polls[k].cancelled)
    ensures RunFrom(lastTime, running, polls) == RunFrom(lastTime, running, polls[..k + 1])
    ensures var r := RunFrom(lastTime, running, polls);
      r.failure.None? ==> !r.running
    decreases k
  {
    if running {
      var p := polls[0];
      assert polls[..k + 1][0] == p;
      var it := Iteration(lastTime, p.now, p.fetched);
      if it.Success? {
        var stop := p.interrupted || p.cancelled;
        if k == 0 {
          assert stop;
          assert polls[..k + 1][1..] == [];
        } else {
          assert polls[1..][k - 1] == polls[k];
          StopEndsRun(it.value.lastTime, !stop, polls[1..], k - 1);
          assert polls[..k + 1][1..] == polls[1..][..k];
        }
      }
    }
  }
}
