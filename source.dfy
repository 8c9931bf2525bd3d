/**
 * The commit source as the object the host drives: its cursor and running
 * flag are fields updated in place, and the host's source context is an
 * object that collects what the source emits.
 */
module Source {
  import opened Results
  import opened Entities
  import opened Translation
  import opened Polling

  /** The poll interval the one-argument constructor uses, in milliseconds. */
  const DefaultPollIntervalMillis: int := 1000

  /** The host's intake for records and watermarks; `output` is everything handed to it so far. */
  class SourceContext {
    var output: seq<Output>

    constructor ()
      ensures output == []
    {
      output := [];
    }

    method CollectWithTimestamp(record: Commit, timestamp: int)
      modifies this
      ensures output == old(output) + [Emit(record, timestamp)]
    {
      output := output + [Emit(record, timestamp)];
    }

    method EmitWatermark(timestamp: int)
      modifies this
      ensures output == old(output) + [Watermark(timestamp)]
    {
      output := output + [Watermark(timestamp)];
    }
  }

  class GithubCommitSource {
    const repoName: string
    const pollIntervalMillis: int
    /** The cursor: commits before it have been emitted. */
    var lastTime: int
    var running: bool

    /** A source for `repoName` whose first window starts at `startTime`. */
    constructor (repoName: string, startTime: int, pollIntervalMillis: int)
      ensures this.repoName == repoName && this.pollIntervalMillis == pollIntervalMillis
      ensures lastTime == startTime && running
    {
      this.repoName := repoName;
      this.pollIntervalMillis := pollIntervalMillis;
      lastTime := startTime;
      running := true;
    }

    /** A source for `repoName` starting at the current time `now`, polling once a second. */
    constructor WithDefaults(repoName: string, now: int)
      ensures this.repoName == repoName && pollIntervalMillis == DefaultPollIntervalMillis
      ensures lastTime == now && running
    {
      this.repoName := repoName;
      pollIntervalMillis := DefaultPollIntervalMillis;
      lastTime := now;
      running := true;
    }

    /**
     * One pass of the `run` loop at wall-clock `now`, where `fetched` is the
     * drained answer to the window's query (`None` if the query failed). The
     * returned error is the exception that would leave `run`; in that case
     * neither the cursor nor the context has changed. Otherwise the records,
     * the cursor update and the watermark happen as one atomic step.
     */
    method Iterate(ctx: SourceContext, now: int, fetched: Option<seq<GHCommit>>) returns (failure: Option<Error>)
      modifies this`lastTime, ctx
      ensures var it := Iteration(old(lastTime), now, fetched);
        && (it.Failure? ==> failure == Some(it.error) && lastTime == old(lastTime) && ctx.output == old(ctx.output))
        && (it.Success? ==>
              failure == None && lastTime == it.value.lastTime && ctx.output == old(ctx.output) + it.value.output)
      ensures failure.None? && old(lastTime) <= now ==> old(lastTime) <= lastTime <= now
    {
      var until := UntilFor(lastTime, now);
      if fetched.None? {
        return Some(FetchFailed);
      }
      var translated := TranslateAll(fetched.value);
      if translated.Failure? {
        return Some(translated.error);
      }
      Publish(ctx, translated.value, until);
      failure := None;
    }

    /**
     * The critical section of an iteration, run under the checkpoint lock:
     * every record with its own timestamp, then the cursor moves to `until`
     * and a watermark equal to it follows.
     */
    method Publish(ctx: SourceContext, changes: seq<Commit>, until: int)
      modifies this`lastTime, ctx
      ensures lastTime == until
      ensures ctx.output == old(ctx.output) + (Emits(changes) + [Watermark(until)])
    {
      for i := 0 to |changes|
        invariant ctx.output == old(ctx.output) + Emits(changes[..i])
      {
        ctx.CollectWithTimestamp(changes[i], changes[i].timestamp);
      }
      assert changes[..|changes|] == changes;
      lastTime := until;
      ctx.EmitWatermark(lastTime);
    }

    /**
     * The `run` loop over a schedule of polls: it iterates while the flag is
     * up, lowers it when a sleep is interrupted or the host cancels, and stops
     * with the error of the first failed iteration.
     */
    method Run(ctx: SourceContext, polls: seq<Poll>) returns (failure: Option<Error>)
      modifies this`lastTime, this`running, ctx
      ensures var r := RunFrom(old(lastTime), old(running), polls);
        && lastTime == r.lastTime && running == r.running && failure == r.failure
        && ctx.output == old(ctx.output) + r.output
    {
      ghost var total := RunFrom(lastTime, running, polls);
      var i := 0;
      failure := None;
      while running && i < |polls|
        invariant 0 <= i <= |polls| && failure == None
        invariant After(old(ctx.output), total) == After(ctx.output, RunFrom(lastTime, running, polls[i..]))
      {
        var p := polls[i];
        assert polls[i..][0] == p && polls[i..][1..] == polls[i + 1..];
        ghost var it := Iteration(lastTime, p.now, p.fetched);
        ghost var stop := p.interrupted || p.cancelled;
        ghost var before := ctx.output;
        failure := Iterate(ctx, p.now, p.fetched);
        if failure.Some? {
          assert ctx.output + [] == ctx.output;
          return;
        }
        assert it.Success? && lastTime == it.value.lastTime && ctx.output == before + it.value.output;
        AfterAfter(before, it.value.output, RunFrom(lastTime, !stop, polls[i + 1..]));
        if p.interrupted {
          running := false;
        }
        if p.cancelled {
          Cancel();
        }
        assert running == !stop;
        i := i + 1;
      }
      assert RunFrom(lastTime, running, polls[i..]) == RunResult(lastTime, running, [], None);
      assert ctx.output + [] == ctx.output;
    }

    /** The host's request to stop: no new iteration starts afterwards. */
    method Cancel()
      modifies this`running
      ensures !running
    {
      running := false;
    }

    /** The checkpointed state: a one-element list holding the cursor. */
    method Snapshot() returns (state: seq<int>)
      ensures state == [lastTime]
    {
      state := [lastTime];
    }

    /**
     * Restoring from a checkpoint takes the first element of the list as the
     * cursor; an empty list fails and leaves the cursor alone.
     */
    method Restore(state: seq<int>) returns (failure: Option<Error>)
      modifies this`lastTime
      ensures |state| == 0 ==> failure == Some(NoStoredCursor) && lastTime == old(lastTime)
      ensures |state| > 0 ==> failure == None && lastTime == state[0]
    {
      if |state| == 0 {
        return Some(NoStoredCursor);
      }
      lastTime := state[0];
      failure := None;
    }
  }

  /**
   * A snapshot taken after restoring `[t]` holds `t`: restore and snapshot
   * are inverse on the one-element lists the source produces.
   */
  method RestoreThenSnapshot(src: GithubCommitSource, t: int) returns (state: seq<int>)
    modifies src`lastTime
    ensures src.lastTime == t && state == [t]
  {
    var failure := src.Restore([t]);
    state := src.Snapshot();
  }

  /** Restoring the same list twice leaves the source as restoring it once does. */
  method RestoreTwice(src: GithubCommitSource, state: seq<int>) returns (failure: Option<Error>)
    modifies src`lastTime
    ensures |state| == 0 ==> failure == Some(NoStoredCursor) && src.lastTime == old(src.lastTime)
    ensures |state| > 0 ==> failure == None && src.lastTime == state[0]
  {
    failure := src.Restore(state);
    failure := src.Restore(state);
  }
}
