/** What holds over whole runs of the bulk-insert protocol. */
module WorkerRuns {
  import opened Text
  import opened WorkerProtocol

  predicate CanRun(c: Config, s: State, run: seq<Action>)
    decreases |run|
  {
    run == [] || (Enabled(c, s, run[0]) && CanRun(c, Apply(c, s, run[0]), run[1..]))
  }

  function After(c: Config, s: State, run: seq<Action>): State
    requires CanRun(c, s, run)
    decreases |run|
  {
    if run == [] then s else After(c, Apply(c, s, run[0]), run[1..])
  }

  lemma {:induction false} RunKeeps(c: Config, s: State, run: seq<Action>)
    requires Inv(c, s) && CanRun(c, s, run)
    ensures Inv(c, After(c, s, run))
    decreases |run|
  {
    if run != [] {
      StepKeeps(c, s, run[0]);
      RunKeeps(c, Apply(c, s, run[0]), run[1..]);
    }
  }

  ghost predicate Reachable(c: Config, s: State) {
    exists run: seq<Action> :: CanRun(c, Init(c), run) && After(c, Init(c), run) == s
  }

  lemma InitReachable(c: Config)
    ensures Reachable(c, Init(c))
  {
    assert CanRun(c, Init(c), []) && After(c, Init(c), []) == Init(c);
  }

  lemma {:induction false} OneStepMore(c: Config, s: State, run: seq<Action>, a: Action)
    requires CanRun(c, s, run) && Enabled(c, After(c, s, run), a)
    ensures CanRun(c, s, run + [a]) && After(c, s, run + [a]) == Apply(c, After(c, s, run), a)
    decreases |run|
  {
    if run != [] {
      OneStepMore(c, Apply(c, s, run[0]), run[1..], a);
      assert (run + [a])[1..] == run[1..] + [a];
    } else {
      assert (run + [a])[1..] == [];
    }
  }

  lemma ReachStep(c: Config, s: State, a: Action)
    requires Reachable(c, s) && Enabled(c, s, a)
    ensures Reachable(c, Apply(c, s, a))
  {
    var run: seq<Action> :| CanRun(c, Init(c), run) && After(c, Init(c), run) == s;
    OneStepMore(c, Init(c), run, a);
  }

  lemma ReachableInv(c: Config, s: State)
    requires c.jobs != [] && Reachable(c, s)
    ensures Inv(c, s)
  {
    var run: seq<Action> :| CanRun(c, Init(c), run) && After(c, Init(c), run) == s;
    InitInv(c);
    RunKeeps(c, Init(c), run);
  }

  // Channels and retries.

  /** In every reachable state every sent job is in exactly one place, posts at
      most one result and is tried at most six times; so neither channel ever
      overflows and no send on either has to wait. */
  lemma ChannelsNeverBlock(c: Config, s: State)
    requires c.jobs != [] && Reachable(c, s)
    ensures forall j: nat :: At(s, j) == (if j < s.sent then 1 else 0)
    ensures forall j: nat :: InAll(JobAt(j), s.results) + InAll(JobAt(j), s.received) <= 1
    ensures |s.queue| <= |c.jobs| && |s.results| + |s.received| <= |c.jobs|
    ensures forall w | 0 <= w < |s.workers| && s.workers[w].Trying? :: s.workers[w].tries <= 5
    ensures s.main.Feeding? && !s.panicked ==> Enabled(c, s, Send)
    ensures forall w | 0 <= w < |s.workers| && (s.workers[w].Notified? || s.workers[w].Failing?) && !s.panicked ::
      Enabled(c, s, Post(w))
  {
    ReachableInv(c, s);
    forall j: nat
      ensures InAll(JobAt(j), s.results) + InAll(JobAt(j), s.received) <= 1
    {
      assert At(s, j) <= 1;
    }
    forall w | 0 <= w < |s.workers| && (s.workers[w].Notified? || s.workers[w].Failing?)
      ensures |s.results| < |c.jobs|
    {
      WorkerMoves(Busy, s.workers, w, Waiting);
    }
  }

  // Retries over a run.

  /** A step of worker `w`. */
  predicate OfWorker(a: Action, w: nat) {
    !a.Send? && !a.Receive? && !a.Close? && a.w == w
  }

  /** What worker `w` did last. */
  function LastOf(run: seq<Action>, w: nat): Option<Action>
    decreases |run|
  {
    if run == [] then None
    else
      var last := |run| - 1;
      if OfWorker(run[last], w) then Some(run[last]) else LastOf(run[..last], w)
  }

  /** How many retryable errors in a row worker `w` has met up to now. */
  function ErrorsInARow(run: seq<Action>, w: nat): nat
    decreases |run|
  {
    if run == [] then 0
    else
      var last := |run| - 1;
      if run[last] == Fail(w, true) then ErrorsInARow(run[..last], w) + 1
      else if OfWorker(run[last], w) then 0
      else ErrorsInARow(run[..last], w)
  }

  lemma {:induction false} LastStep(c: Config, s: State, run: seq<Action>)
    requires run != [] && CanRun(c, s, run)
    ensures
      var last := |run| - 1;
      CanRun(c, s, run[..last]) && Enabled(c, After(c, s, run[..last]), run[last])
      && After(c, s, run) == Apply(c, After(c, s, run[..last]), run[last])
    decreases |run|
  {
    if |run| > 1 {
      LastStep(c, Apply(c, s, run[0]), run[1..]);
      assert run[1..][..|run| - 2] == run[..|run| - 1][1..];
    }
  }

  /** In every run: a worker has given up its job exactly if the last thing it met
      was a fatal error, or the sixth retryable error in a row. */
  lemma {:induction false} GivenUpIff(c: Config, run: seq<Action>, w: nat)
    requires CanRun(c, Init(c), run) && w < c.workers && !After(c, Init(c), run).panicked
    ensures
      var ws := After(c, Init(c), run).workers;
      && |ws| == c.workers
      && (ws[w].Trying? ==> ws[w].tries == ErrorsInARow(run, w) <= 5 && LastOf(run, w) != Some(Fail(w, false)))
      && (ws[w].Failing? <==> LastOf(run, w) == Some(Fail(w, false)) || ErrorsInARow(run, w) == 6)
    decreases |run|
  {
    if run != [] {
      LastStep(c, Init(c), run);
      GivenUpIff(c, run[..|run| - 1], w);
    }
  }

  // Rows.

  lemma {:induction false} RowsWithinSum(jobs: seq<nat>, s: State, n: nat)
    requires n <= |jobs|
    ensures RowsDone(jobs, s, n) <= Sum(jobs[..n])
    ensures (forall j | 0 <= j < n :: DoneTimes(s, j) > 0) ==> RowsDone(jobs, s, n) == Sum(jobs[..n])
  {
    if n > 0 {
      RowsWithinSum(jobs, s, n - 1);
      SumSnoc(jobs[..n - 1], jobs[n - 1]);
      assert jobs[..n] == jobs[..n - 1] + [jobs[n - 1]];
    }
  }

  lemma {:induction false} AllOkAllDone(ps: seq<Posted>, j: nat)
    requires AllOk(ps)
    ensures InAll(JobDone(j), ps) == InAll(JobAt(j), ps) && InAll(Failure, ps) == 0
  {
    if ps != [] {
      AllOkAllDone(ps[1..], j);
    }
  }

  lemma {:induction false} NobodyBusyNobodyHolds(ws: seq<Worker>, j: nat)
    requires InWorkers(Busy, ws) == 0
    ensures InWorkers(JobAt(j), ws) == 0
  {
    if ws != [] {
      NobodyBusyNobodyHolds(ws[1..], j);
    }
  }

  /** If each bulk insert is all or nothing, no interleaving and no pattern of
      retries commits more rows than were asked for, and a run that returns
      without error has committed exactly those. */
  lemma RowsCommitted(c: Config, s: State)
    requires c.jobs != [] && Reachable(c, s)
    ensures s.rows <= Sum(c.jobs)
    ensures !Running(s.main) && s.main.ok ==> s.rows == Sum(c.jobs)
  {
    ReachableInv(c, s);
    RowsWithinSum(c.jobs, s, |c.jobs|);
    assert c.jobs[..|c.jobs|] == c.jobs;
    if !Running(s.main) && s.main.ok {
      NobodyBusyAfterSuccess(c, s);
      forall j | 0 <= j < |c.jobs|
        ensures DoneTimes(s, j) > 0
      {
        assert At(s, j) == 1;
        NobodyBusyNobodyHolds(s.workers, j);
        AllOkAllDone(s.received, j);
      }
    }
  }

  lemma {:induction false} SomeFailure(ps: seq<Posted>, k: nat)
    requires k < |ps| && !ps[k].ok
    ensures InAll(Failure, ps) > 0
  {
    if k > 0 {
      SomeFailure(ps[1..], k - 1);
    }
  }

  /** `run` returns an error exactly when some worker has given up a job. */
  lemma ErrorIffWorkerDied(c: Config, s: State)
    requires c.jobs != [] && Reachable(c, s) && !Running(s.main)
    ensures !s.main.ok <==> InWorkers(Failure, s.workers) > 0
  {
    ReachableInv(c, s);
    if s.main.ok {
      NobodyBusyAfterSuccess(c, s);
      AllOkAllDone(s.received, 0);
    } else {
      SomeFailure(s.received, |s.received| - 1);
    }
  }

  // Closing the channels.

  /** After a return without error nothing can send on a channel any more: all
      that is left to do is to close the three channels and end the workers. */
  lemma ClosingIsSafe(c: Config, s: State, a: Action)
    requires c.jobs != [] && Reachable(c, s) && !Running(s.main) && s.main.ok
    ensures !s.panicked && (Enabled(c, s, a) ==> a.Close? || a.Exit?)
  {
    ReachableInv(c, s);
    NobodyBusyAfterSuccess(c, s);
  }

  // Progress.

  /** The steps worker `w` may still make by itself, and the result it will post. */
  function Effort(w: Worker): nat {
    match w
    case Waiting => 1
    case Trying(_, tries) => 6 + if tries <= MAX_RETRIES then MAX_RETRIES - tries else 0
    case Committed(_) => 5
    case Notified(_) => 4
    case Failing(_) => 4
    case Dead(_) => 0
    case Exited => 0
  }

  function Efforts(ws: seq<Worker>): nat {
    if ws == [] then 0 else Effort(ws[0]) + Efforts(ws[1..])
  }

  lemma {:induction false} EffortMoves(ws: seq<Worker>, w: nat, p: Worker)
    requires w < |ws|
    ensures Efforts(ws) >= Effort(ws[w])
    ensures Efforts(ws[w := p]) == Efforts(ws) - Effort(ws[w]) + Effort(p)
  {
    if w == 0 {
      assert ws[w := p][1..] == ws[1..];
    } else {
      EffortMoves(ws[1..], w - 1, p);
      assert ws[w := p][1..] == ws[1..][w - 1 := p];
    }
  }

  function MainSteps(m: Main): nat {
    match m
    case Feeding => 3
    case Collecting => 3
    case ClosingResults(_) => 3
    case ClosingJobs(_) => 2
    case ClosingNotify(_) => 1
    case Done(_) => 0
  }

  /** An upper bound on the steps still possible. */
  function Potential(c: Config, s: State): int {
    (|c.jobs| - s.sent) * (MAX_RETRIES + 8) + |s.queue| * (MAX_RETRIES + 7) + Efforts(s.workers) + 2 * |s.results|
    + MainSteps(s.main) + if s.panicked then 0 else 1
  }

  /** A step of worker `w`, seen from the sum. */
  lemma WorkerCosts(c: Config, s: State, t: State, w: nat, p: Worker)
    requires w < |s.workers| && t.workers == s.workers[w := p]
    requires t.sent == s.sent && t.main == s.main && t.panicked == s.panicked
    requires |t.queue| * (MAX_RETRIES + 7) + Effort(p) + 2 * |t.results|
           < |s.queue| * (MAX_RETRIES + 7) + Effort(s.workers[w]) + 2 * |s.results|
    ensures Potential(c, t) < Potential(c, s)
  {
    EffortMoves(s.workers, w, p);
  }

  lemma ChannelCosts(c: Config, s: State, a: Action)
    requires Inv(c, s) && Enabled(c, s, a) && (a.Send? || a.Receive? || a.Close?)
    ensures Potential(c, Apply(c, s, a)) < Potential(c, s)
  {
  }

  lemma WorkerActionCosts(c: Config, s: State, a: Action)
    requires TriesBounded(s) && Enabled(c, s, a) && (a.Take? || a.Succeed? || a.Fail? || a.Exit?)
    ensures Potential(c, Apply(c, s, a)) < Potential(c, s)
  {
    WorkerCosts(c, s, Apply(c, s, a), a.w, Apply(c, s, a).workers[a.w]);
  }

  lemma ReportCosts(c: Config, s: State, a: Action)
    requires Enabled(c, s, a) && (a.Notify? || a.Post?)
    ensures Potential(c, Apply(c, s, a)) < Potential(c, s)
  {
    if !Apply(c, s, a).panicked {
      WorkerCosts(c, s, Apply(c, s, a), a.w, Apply(c, s, a).workers[a.w]);
    }
  }

  /** Every step uses some of it up, whatever the interleaving. */
  lemma StepCosts(c: Config, s: State, a: Action)
    requires Inv(c, s) && Enabled(c, s, a)
    ensures Potential(c, Apply(c, s, a)) < Potential(c, s)
  {
    if a.Send? || a.Receive? || a.Close? {
      ChannelCosts(c, s, a);
    } else if a.Notify? || a.Post? {
      ReportCosts(c, s, a);
    } else {
      WorkerActionCosts(c, s, a);
    }
  }

  lemma {:induction false} RunCosts(c: Config, s: State, run: seq<Action>)
    requires Inv(c, s) && CanRun(c, s, run)
    ensures |run| + Potential(c, After(c, s, run)) <= Potential(c, s)
    decreases |run|
  {
    if run != [] {
      StepKeeps(c, s, run[0]);
      StepCosts(c, s, run[0]);
      RunCosts(c, Apply(c, s, run[0]), run[1..]);
    }
  }

  lemma {:induction false} FreshEffort(ws: seq<Worker>)
    requires forall w | 0 <= w < |ws| :: ws[w].Waiting?
    ensures Efforts(ws) == |ws|
  {
    if ws != [] {
      FreshEffort(ws[1..]);
    }
  }

  /** So no run is longer than thirteen steps a job, one a worker, and four. */
  lemma RunsAreBounded(c: Config, run: seq<Action>)
    requires c.jobs != [] && CanRun(c, Init(c), run)
    ensures |run| <= 13 * |c.jobs| + c.workers + 4
  {
    InitInv(c);
    RunCosts(c, Init(c), run);
    RunKeeps(c, Init(c), run);
    FreshEffort(Init(c).workers);
  }

  lemma {:induction false} SomebodyBusy(ws: seq<Worker>) returns (w: nat)
    requires InWorkers(Busy, ws) > 0
    ensures w < |ws| && InWorker(Busy, ws[w]) > 0
  {
    if InWorker(Busy, ws[0]) > 0 {
      w := 0;
    } else {
      var k := SomebodyBusy(ws[1..]);
      w := k + 1;
    }
  }

  lemma {:induction false} NoFailureNobodyDead(ws: seq<Worker>)
    requires InWorkers(Failure, ws) == 0
    ensures forall w | 0 <= w < |ws| :: !ws[w].Dead?
  {
    if ws != [] {
      NoFailureNobodyDead(ws[1..]);
    }
  }

  /** No deadlock: with at least one worker, `run` or some worker can go on until
      the return. A worker that died has posted an error, so `run` is not left waiting. */
  lemma NoDeadlock(c: Config, s: State) returns (a: Action)
    requires c.jobs != [] && c.workers >= 1 && Reachable(c, s)
    ensures s.panicked || s.main.Done? || Enabled(c, s, a)
  {
    ReachableInv(c, s);
    a := Close;
    if s.main.Feeding? {
      a := Send;
    } else if s.main.Collecting? {
      if s.results != [] {
        a := Receive;
      } else if InWorkers(Busy, s.workers) > 0 {
        var w := SomebodyBusy(s.workers);
        BusyIsInRange(c, s, w);
        a := match s.workers[w]
             case Trying(_, _) => Succeed(w)
             case Committed(_) => Notify(w)
             case _ => Post(w);
      } else {
        AllOkAllDone(s.received, 0);
        NoFailureNobodyDead(s.workers);
        NobodyIsBusy(s.workers);
        a := Take(0);
      }
    }
  }

  lemma {:induction false} NobodyIsBusy(ws: seq<Worker>)
    requires InWorkers(Busy, ws) == 0
    ensures forall w | 0 <= w < |ws| :: InWorker(Busy, ws[w]) == 0
  {
    if ws != [] {
      NobodyIsBusy(ws[1..]);
    }
  }

  lemma BusyIsInRange(c: Config, s: State, w: nat)
    requires Inv(c, s) && w < |s.workers| && InWorker(Busy, s.workers[w]) > 0
    ensures s.workers[w].job < |c.jobs|
  {
    WorkerMoves(JobAt(s.workers[w].job), s.workers, w, Waiting);
    assert At(s, s.workers[w].job) > 0;
  }

  lemma {:induction false} NothingReceived(c: Config, s: State, run: seq<Action>)
    requires Inv(c, s) && CanRun(c, s, run) && c.workers == 0 && s.results == [] && s.received == []
    ensures After(c, s, run).results == [] && After(c, s, run).received == []
    decreases |run|
  {
    if run != [] {
      StepKeeps(c, s, run[0]);
      NothingReceived(c, Apply(c, s, run[0]), run[1..]);
    }
  }

  /** `run` ends whatever the scheduling: every run is bounded, and one that
      cannot go on has returned (or hit a closed channel after an error) - exactly
      when there is a worker at all; without one, no run ever returns. */
  lemma ReturnsIffWorkers(c: Config, run: seq<Action>)
    requires c.jobs != [] && CanRun(c, Init(c), run)
    ensures c.workers >= 1 && (forall a :: !Enabled(c, After(c, Init(c), run), a)) ==>
      After(c, Init(c), run).main.Done? || After(c, Init(c), run).panicked
    ensures c.workers == 0 ==> Running(After(c, Init(c), run).main)
  {
    var s := After(c, Init(c), run);
    assert Reachable(c, s);
    if c.workers >= 1 {
      var a := NoDeadlock(c, s);
    } else {
      InitInv(c);
      NothingReceived(c, Init(c), run);
      RunKeeps(c, Init(c), run);
    }
  }
}
