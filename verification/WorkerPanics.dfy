/** When a worker can send on a closed channel: `run` closes the result channel
    on its way out, and after an error a worker may still have a job in its hands. */
module WorkerPanics {
  import opened WorkerProtocol
  import opened WorkerRuns

  // Necessary.

  /** Only an attempt to insert something can fail. */
  ghost predicate FailuresHaveRows(c: Config, ws: seq<Worker>) {
    forall w | 0 <= w < |ws| ::
      match ws[w]
      case Failing(job) => job < |c.jobs| && c.jobs[job] > 0
      case Dead(job) => job < |c.jobs| && c.jobs[job] > 0
      case _ => true
  }

  /** A worker that hits a closed channel still has its job. */
  ghost predicate PanicFits(c: Config, s: State) {
    FailuresHaveRows(c, s.workers) && (s.panicked ==> InWorkers(Busy, s.workers) > 0)
  }

  lemma StepKeepsPanicFits(c: Config, s: State, a: Action)
    requires PanicFits(c, s) && Enabled(c, s, a)
    ensures PanicFits(c, Apply(c, s, a))
  {
    match a
    case Notify(w) => WorkerMoves(Busy, s.workers, w, Waiting);
    case Post(w) => WorkerMoves(Busy, s.workers, w, Waiting);
    case _ =>
  }

  lemma {:induction false} RunKeepsPanicFits(c: Config, s: State, run: seq<Action>)
    requires PanicFits(c, s) && CanRun(c, s, run)
    ensures PanicFits(c, After(c, s, run))
    decreases |run|
  {
    if run != [] {
      StepKeepsPanicFits(c, s, run[0]);
      RunKeepsPanicFits(c, Apply(c, s, run[0]), run[1..]);
    }
  }

  lemma ReachablePanicFits(c: Config, s: State)
    requires Reachable(c, s)
    ensures PanicFits(c, s)
  {
    var run: seq<Action> :| CanRun(c, Init(c), run) && After(c, Init(c), run) == s;
    RunKeepsPanicFits(c, Init(c), run);
  }

  lemma {:induction false} SomebodyDead(ws: seq<Worker>) returns (w: nat)
    requires InWorkers(Failure, ws) > 0
    ensures w < |ws| && ws[w].Dead?
  {
    if ws[0].Dead? {
      w := 0;
    } else {
      var k := SomebodyDead(ws[1..]);
      w := k + 1;
    }
  }

  lemma PanicNeedsTwo(c: Config, s: State)
    requires c.jobs != [] && Reachable(c, s) && s.panicked
    ensures c.workers >= 2 && |c.jobs| >= 2 && exists j | 0 <= j < |c.jobs| :: c.jobs[j] > 0
  {
    ReachableInv(c, s);
    ReachablePanicFits(c, s);
    ErrorIffWorkerDied(c, s);
    var dead := SomebodyDead(s.workers);
    var busy := SomebodyBusy(s.workers);
    assert c.jobs[s.workers[dead].failed] > 0;
  }

  // Sufficient.

  function Rest(k: nat, n: nat): (rest: seq<nat>)
    requires k <= n
    ensures |rest| == n - k && forall i | 0 <= i < |rest| :: rest[i] == k + i
  {
    seq(n - k, i requires 0 <= i < n - k => k + i)
  }

  /** All jobs are sent, the first `k` are done and accounted for, nobody is at work. */
  ghost predicate DoneUpTo(c: Config, s: State, k: nat) {
    && k <= |c.jobs| && Reachable(c, s) && !s.panicked
    && s.main == Collecting && s.sent == |c.jobs| && s.queue == Rest(k, |c.jobs|)
    && s.workers == Init(c).workers && s.results == [] && |s.received| == k
  }

  lemma {:induction false} SendAll(c: Config, n: nat) returns (s: State)
    requires n <= |c.jobs| && c.jobs != []
    ensures Reachable(c, s) && !s.panicked && s.sent == n && s.queue == Rest(0, n)
    ensures s.main == (if n == |c.jobs| then Collecting else Feeding)
    ensures s.workers == Init(c).workers && s.results == [] && s.received == []
  {
    if n == 0 {
      s := Init(c);
      InitReachable(c);
    } else {
      var t := SendAll(c, n - 1);
      ReachStep(c, t, Send);
      s := Apply(c, t, Send);
    }
  }

  /** A worker takes the next job, the rest is as before. */
  ghost predicate OneAtWork(c: Config, s: State, k: nat, w: Worker) {
    && k < |c.jobs| && c.workers > 0 && Reachable(c, s) && !s.panicked
    && s.main == Collecting && s.sent == |c.jobs| && s.queue == Rest(k + 1, |c.jobs|)
    && s.workers == Init(c).workers[0 := w] && s.results == [] && |s.received| == k
  }

  lemma TakeNext(c: Config, s: State, k: nat) returns (t: State)
    requires DoneUpTo(c, s, k) && k < |c.jobs| && c.workers > 0
    ensures OneAtWork(c, t, k, Trying(k, 0))
  {
    ReachStep(c, s, Take(0));
    t := Apply(c, s, Take(0));
    assert s.queue[1..] == Rest(k + 1, |c.jobs|);
  }

  lemma InsertNext(c: Config, s: State, k: nat) returns (t: State)
    requires OneAtWork(c, s, k, Trying(k, 0))
    ensures OneAtWork(c, t, k, Notified(k))
  {
    ReachStep(c, s, Succeed(0));
    t := Apply(c, s, Succeed(0));
    ReachStep(c, t, Notify(0));
    t := Apply(c, t, Notify(0));
  }

  lemma PostNext(c: Config, s: State, k: nat) returns (t: State)
    requires OneAtWork(c, s, k, Notified(k)) && k + 1 < |c.jobs|
    ensures DoneUpTo(c, t, k + 1)
  {
    ReachStep(c, s, Post(0));
    t := Apply(c, s, Post(0));
    assert t.results == [Posted(k, true)] && t.workers == Init(c).workers;
    ReachStep(c, t, Receive);
    t := Apply(c, t, Receive);
  }

  lemma {:induction false} DoFirst(c: Config, k: nat) returns (s: State)
    requires k < |c.jobs| && c.workers > 0
    ensures DoneUpTo(c, s, k)
  {
    if k == 0 {
      s := SendAll(c, |c.jobs|);
    } else {
      var t := DoFirst(c, k - 1);
      t := TakeNext(c, t, k - 1);
      t := InsertNext(c, t, k - 1);
      s := PostNext(c, t, k - 1);
    }
  }

  /** Two workers hold the next two jobs. */
  ghost predicate TwoAtWork(c: Config, s: State, k: nat) {
    && k + 1 < |c.jobs| && c.workers >= 2 && Reachable(c, s) && !s.panicked
    && s.main == Collecting && s.results == [] && |s.received| == k
    && |s.workers| == c.workers && s.workers[0] == Trying(k, 0) && s.workers[1] == Trying(k + 1, 0)
  }

  lemma TakeTwo(c: Config, s: State, k: nat) returns (t: State)
    requires DoneUpTo(c, s, k) && k + 1 < |c.jobs| && c.workers >= 2
    ensures TwoAtWork(c, t, k)
  {
    ReachStep(c, s, Take(0));
    t := Apply(c, s, Take(0));
    ReachStep(c, t, Take(1));
    t := Apply(c, t, Take(1));
  }

  /** One of them fails; `run` returns and closes the result channel. */
  lemma FailOne(c: Config, s: State, k: nat, w: nat) returns (t: State)
    requires TwoAtWork(c, s, k) && w < 2 && c.jobs[k + w] > 0
    ensures Reachable(c, t) && !t.panicked && t.main == ClosingJobs(false)
    ensures |t.workers| == c.workers && t.workers[1 - w] == Trying(k + 1 - w, 0)
  {
    ReachStep(c, s, Fail(w, false));
    t := Apply(c, s, Fail(w, false));
    ReachStep(c, t, Post(w));
    t := Apply(c, t, Post(w));
    ReachStep(c, t, Receive);
    t := Apply(c, t, Receive);
    ReachStep(c, t, Close);
    t := Apply(c, t, Close);
  }

  /** The other one succeeds and posts its result on the closed channel. */
  lemma OtherPosts(c: Config, s: State, w: nat, j: nat) returns (t: State)
    requires Reachable(c, s) && !s.panicked && s.main == ClosingJobs(false)
    requires w < |s.workers| && s.workers[w] == Trying(j, 0) && j < |c.jobs|
    ensures Reachable(c, t) && t.panicked
  {
    ReachStep(c, s, Succeed(w));
    t := Apply(c, s, Succeed(w));
    ReachStep(c, t, Notify(w));
    t := Apply(c, t, Notify(w));
    ReachStep(c, t, Post(w));
    t := Apply(c, t, Post(w));
  }

  lemma TwoCanPanic(c: Config, j: nat) returns (s: State)
    requires c.workers >= 2 && |c.jobs| >= 2 && j < |c.jobs| && c.jobs[j] > 0
    ensures Reachable(c, s) && s.panicked
  {
    var k := if j + 1 < |c.jobs| then j else j - 1;
    s := DoFirst(c, k);
    s := TakeTwo(c, s, k);
    s := FailOne(c, s, k, j - k);
    s := OtherPosts(c, s, 1 - (j - k), k + 1 - (j - k));
  }

  /** Some interleaving makes a worker send on a closed channel exactly when
      there are two workers and two jobs, not all of them empty. */
  lemma PanicIff(c: Config)
    requires c.jobs != []
    ensures (exists s :: Reachable(c, s) && s.panicked)
       <==> c.workers >= 2 && |c.jobs| >= 2 && exists j | 0 <= j < |c.jobs| :: c.jobs[j] > 0
  {
    if s :| Reachable(c, s) && s.panicked {
      PanicNeedsTwo(c, s);
    }
    if c.workers >= 2 && |c.jobs| >= 2 && exists j | 0 <= j < |c.jobs| :: c.jobs[j] > 0 {
      var j :| 0 <= j < |c.jobs| && c.jobs[j] > 0;
      var s := TwoCanPanic(c, j);
    }
  }

  /** For the jobs that `run` makes of the rows asked for: exactly when there are
      at least two workers and enough rows for one full bulk. */
  lemma EarlyReturnCanPanic(c: Config, count: nat, bulksize: nat)
    requires bulksize > 0 && |c.jobs| == count / bulksize + 1
    requires forall i | 0 <= i < |c.jobs| - 1 :: c.jobs[i] == bulksize
    ensures (exists s :: Reachable(c, s) && s.panicked) <==> c.workers >= 2 && count >= bulksize
  {
    PanicIff(c);
    if count >= bulksize {
      assert c.jobs[0] == bulksize;
    }
  }
}
