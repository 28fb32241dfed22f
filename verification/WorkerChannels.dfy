/** What the channels of the bulk-insert protocol promise over whole runs: order,
    closing and sends on a closed one (generate/generate.go run and worker). */
module WorkerChannels {
  import opened WorkerProtocol
  import opened WorkerRuns

  // Counting the steps of a run.

  datatype Kind = Sends | Takes | Receives | Closes

  predicate Is(a: Action, kind: Kind) {
    match kind
    case Sends => a.Send?
    case Takes => a.Take?
    case Receives => a.Receive?
    case Closes => a.Close?
  }

  function Count(run: seq<Action>, kind: Kind): nat
    decreases |run|
  {
    if run == [] then 0
    else
      var last := |run| - 1;
      Count(run[..last], kind) + if Is(run[last], kind) then 1 else 0
  }

  /** The state before the last step, and the step. */
  lemma LastOfRun(c: Config, run: seq<Action>)
    requires run != [] && CanRun(c, Init(c), run)
    ensures
      var last := |run| - 1;
      CanRun(c, Init(c), run[..last]) && Enabled(c, After(c, Init(c), run[..last]), run[last])
      && After(c, Init(c), run) == Apply(c, After(c, Init(c), run[..last]), run[last])
  {
    LastStep(c, Init(c), run);
  }

  // Closing.

  /** The first close of a run closes the results, the second the jobs, the third
      the notifications, and there is no fourth; none comes before `run` has returned. */
  lemma {:induction false} ClosedIff(c: Config, run: seq<Action>)
    requires CanRun(c, Init(c), run)
    ensures
      var m, n := After(c, Init(c), run).main, Count(run, Closes);
      && n <= 3 && (n > 0 ==> !Running(m)) && (m.Done? <==> n == 3)
      && (ResultsClosed(m) <==> n >= 1) && (JobsClosed(m) <==> n >= 2) && (NotifyClosed(m) <==> n >= 3)
    decreases |run|
  {
    if run != [] {
      LastOfRun(c, run);
      ClosedIff(c, run[..|run| - 1]);
    }
  }

  /** A run ends in a panic exactly if its last step posts a result after the first
      close, or notifies after the third. */
  lemma {:induction false} PanicsIff(c: Config, run: seq<Action>)
    requires CanRun(c, Init(c), run)
    ensures After(c, Init(c), run).panicked <==>
      run != [] && var last := |run| - 1;
                   || (run[last].Post? && Count(run[..last], Closes) >= 1)
                   || (run[last].Notify? && Count(run[..last], Closes) == 3)
  {
    if run != [] {
      LastOfRun(c, run);
      ClosedIff(c, run[..|run| - 1]);
    }
  }

  // Order.

  /** Jobs are sent, and taken, in the order of their numbers: what is left in the
      channel is what was sent and not taken. */
  lemma {:induction false} JobsInOrder(c: Config, run: seq<Action>)
    requires CanRun(c, Init(c), run)
    ensures
      var s, taken := After(c, Init(c), run), Count(run, Takes);
      && s.sent == Count(run, Sends) <= |c.jobs| && |s.queue| == s.sent - taken
      && (forall i | 0 <= i < |s.queue| :: s.queue[i] == taken + i)
      && (c.jobs != [] ==> (s.main.Feeding? <==> s.sent < |c.jobs|))
    decreases |run|
  {
    if run != [] {
      LastOfRun(c, run);
      JobsInOrder(c, run[..|run| - 1]);
    }
  }

  /** The `n`-th job taken is job number `n`, and starts with its first attempt. */
  lemma NextJob(c: Config, run: seq<Action>, w: nat)
    requires CanRun(c, Init(c), run) && Enabled(c, After(c, Init(c), run), Take(w))
    ensures
      var s := After(c, Init(c), run);
      Count(run, Takes) < s.sent && Apply(c, s, Take(w)).workers[w] == Trying(Count(run, Takes), 0)
  {
    JobsInOrder(c, run);
  }

  /** The results that the workers have posted, in that order. */
  function PostedIn(c: Config, run: seq<Action>): seq<Posted>
    requires CanRun(c, Init(c), run)
    decreases |run|
  {
    if run == [] then []
    else
      LastOfRun(c, run);
      var last := |run| - 1;
      var before, s := PostedIn(c, run[..last]), After(c, Init(c), run[..last]);
      if run[last].Post? && Count(run[..last], Closes) == 0 then
        var worker := s.workers[run[last].w];
        before + [Posted(worker.job, worker.Notified?)]
      else before
  }

  /** Results are received in the order in which they were posted, and none is lost. */
  lemma {:induction false} ResultsInOrder(c: Config, run: seq<Action>)
    requires CanRun(c, Init(c), run)
    ensures
      var s := After(c, Init(c), run);
      PostedIn(c, run) == s.received + s.results && |s.received| == Count(run, Receives)
    decreases |run|
  {
    if run != [] {
      LastOfRun(c, run);
      ClosedIff(c, run[..|run| - 1]);
      ResultsInOrder(c, run[..|run| - 1]);
    }
  }

  // Returning and exiting.

  /** What `run` has received fits where it stands: only successes, and not all,
      while it runs; one success per job, or only successes before one error, afterwards. */
  ghost predicate FirstErrorEnds(jobs: nat, m: Main, received: seq<Posted>) {
    if Running(m) then |received| < jobs && AllOk(received)
    else if m.ok then |received| == jobs && AllOk(received)
    else received != [] && !received[|received| - 1].ok && AllOk(received[..|received| - 1])
  }

  lemma OneMoreReceived(jobs: nat, received: seq<Posted>, p: Posted)
    requires FirstErrorEnds(jobs, Collecting, received)
    ensures p.ok && |received| + 1 < jobs ==> FirstErrorEnds(jobs, Collecting, received + [p])
    ensures p.ok && |received| + 1 == jobs ==> FirstErrorEnds(jobs, ClosingResults(true), received + [p])
    ensures !p.ok ==> FirstErrorEnds(jobs, ClosingResults(false), received + [p])
  {
    assert (received + [p])[..|received|] == received;
  }

  /** `run` returns at the first error it receives, or when it has one success per job. */
  lemma {:induction false} ReturnsAtFirstError(c: Config, run: seq<Action>)
    requires CanRun(c, Init(c), run) && c.jobs != []
    ensures FirstErrorEnds(|c.jobs|, After(c, Init(c), run).main, After(c, Init(c), run).received)
    decreases |run|
  {
    if run != [] {
      LastOfRun(c, run);
      var before := After(c, Init(c), run[..|run| - 1]);
      ReturnsAtFirstError(c, run[..|run| - 1]);
      if run[|run| - 1].Receive? {
        OneMoreReceived(|c.jobs|, before.received, before.results[0]);
      }
    }
  }

  /** A worker ends for want of jobs only after the job channel has been closed and
      emptied, so no job is left behind in it. */
  lemma {:induction false} ExitedMeansDrained(c: Config, run: seq<Action>, w: nat)
    requires CanRun(c, Init(c), run) && w < c.workers && c.jobs != []
    ensures
      var s := After(c, Init(c), run);
      |s.workers| == c.workers && (s.workers[w].Exited? ==> s.queue == [] && Count(run, Closes) >= 2)
    decreases |run|
  {
    if run != [] {
      LastOfRun(c, run);
      ClosedIff(c, run[..|run| - 1]);
      ExitedMeansDrained(c, run[..|run| - 1], w);
    }
  }

  /** A worker waits only at an empty job channel that is open; everything else it
      does without waiting, whether `run` has returned or not. */
  lemma WaitsOnlyForJobs(c: Config, s: State, w: nat)
    requires c.jobs != [] && Reachable(c, s) && !s.panicked && w < |s.workers|
    ensures s.workers[w].Waiting? ==>
      && (Enabled(c, s, Take(w)) <==> s.queue != [])
      && (Enabled(c, s, Exit(w)) <==> s.queue == [] && (s.main.ClosingNotify? || s.main.Done?))
    ensures s.workers[w].Trying? ==> Enabled(c, s, Succeed(w))
    ensures s.workers[w].Committed? ==> Enabled(c, s, Notify(w))
    ensures s.workers[w].Notified? || s.workers[w].Failing? ==> Enabled(c, s, Post(w))
  {
    ReachableInv(c, s);
    ChannelsNeverBlock(c, s);
    if s.workers[w].Trying? {
      BusyIsInRange(c, s, w);
    }
  }

  /** Nobody is left behind: when nothing can go on any more, and no send has met a
      closed channel, `run` has returned, all channels are closed, and every worker has ended. */
  lemma NobodyLeftBehind(c: Config, run: seq<Action>, w: nat)
    requires c.jobs != [] && w < c.workers && CanRun(c, Init(c), run)
    requires !After(c, Init(c), run).panicked && forall a :: !Enabled(c, After(c, Init(c), run), a)
    ensures
      var s := After(c, Init(c), run);
      s.main.Done? && |s.workers| == c.workers && (s.workers[w].Dead? || (s.workers[w].Exited? && s.queue == []))
  {
    var s := After(c, Init(c), run);
    ReturnsIffWorkers(c, run);
    assert Reachable(c, s);
    ExitedMeansDrained(c, run, w);
    WaitsOnlyForJobs(c, s, w);
  }
}
