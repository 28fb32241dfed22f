/** The bulk-insert protocol of generate/generate.go: run, worker, insert and
    notify as a transition system whose steps interleave in any order. */
module WorkerProtocol {

  // Cutting the rows into jobs.

  function Sum(s: seq<nat>): nat {
    if s == [] then 0 else s[0] + Sum(s[1..])
  }

  lemma {:induction false} SumSnoc(s: seq<nat>, x: nat)
    ensures Sum(s + [x]) == Sum(s) + x
  {
    if s != [] {
      SumSnoc(s[1..], x);
      assert (s + [x])[1..] == s[1..] + [x];
    }
  }

  lemma RestOfDivision(count: nat, bulksize: nat)
    requires bulksize > 0
    ensures 0 <= count - count / bulksize * bulksize < bulksize
  {
  }

  lemma {:induction false} SumOfEqual(s: seq<nat>, x: nat)
    requires forall i | 0 <= i < |s| :: s[i] == x
    ensures Sum(s) == |s| * x
  {
    if s != [] {
      SumOfEqual(s[1..], x);
    }
  }

  /** The jobs `run` sends: full bulks, then one job for the rest, which may be
      empty. Together they ask for exactly `count` rows. */
  method SplitJobs(count: nat, bulksize: nat) returns (jobs: seq<nat>)
    requires bulksize > 0
    ensures Sum(jobs) == count && |jobs| == count / bulksize + 1
    ensures forall i | 0 <= i < |jobs| - 1 :: jobs[i] == bulksize
    ensures jobs[|jobs| - 1] == count - count / bulksize * bulksize < bulksize
  {
    var completeInserts := count / bulksize;
    RestOfDivision(count, bulksize);
    var remainder := count - completeInserts * bulksize;
    jobs := [];
    for i := 0 to completeInserts
      invariant |jobs| == i && forall k | 0 <= k < i :: jobs[k] == bulksize
    {
      jobs := jobs + [bulksize];
    }
    SumOfEqual(jobs, bulksize);
    SumSnoc(jobs, remainder);
    jobs := jobs + [remainder];
  }

  const MAX_RETRIES: nat := 5

  datatype Attempt = Inserted | Retryable | Fatal

  /** The retry loop of a worker for one job, against any outcomes of the
      database: it succeeds exactly when an attempt within the first six is a
      success and only retryable errors came before it. */
  method InsertWithRetries(attempt: nat -> Attempt) returns (ok: bool, tries: nat)
    ensures ok <==> exists k | 0 <= k <= 5 :: attempt(k).Inserted? && forall j | 0 <= j < k :: attempt(j).Retryable?
    ensures tries <= 5 && (forall k | 0 <= k < tries :: attempt(k).Retryable?)
    ensures if ok then attempt(tries).Inserted? else attempt(tries).Fatal? || (attempt(tries).Retryable? && tries == 5)
  {
    tries := 0;
    while true
      invariant tries <= MAX_RETRIES && forall k | 0 <= k < tries :: attempt(k).Retryable?
      decreases MAX_RETRIES - tries
    {
      match attempt(tries)
      case Inserted =>
        return true, tries;
      case Fatal =>
        return false, tries;
      case Retryable =>
        if tries == MAX_RETRIES {
          return false, tries;
        }
        tries := tries + 1;
    }
  }

  // The transition system.

  datatype Config = Config(jobs: seq<nat>, workers: nat)

  datatype Worker =
    | Waiting                        // at the job channel
    | Trying(job: nat, tries: nat)   // in insert
    | Committed(job: nat)            // insert returned, notify not yet called
    | Notified(job: nat)             // about to post success
    | Failing(job: nat)              // about to post an error and return
    | Dead(failed: nat)              // returned after posting an error
    | Exited                         // returned because the job channel was closed

  /** A result on errChan, with the job it is about. */
  datatype Posted = Posted(job: nat, ok: bool)

  /** `run` returns once it leaves Collecting; the deferred closes follow, the
      result channel first, then the caller closes the notification channel. */
  datatype Main =
    | Feeding
    | Collecting
    | ClosingResults(ok: bool)
    | ClosingJobs(ok: bool)
    | ClosingNotify(ok: bool)
    | Done(ok: bool)

  datatype State = State(
    sent: nat,
    queue: seq<nat>,          // bulksizeJobs
    workers: seq<Worker>,
    results: seq<Posted>,     // errChan
    received: seq<Posted>,
    main: Main,
    rows: nat,                // rows committed to the table
    panicked: bool)

  datatype Action =
    | Send
    | Receive
    | Close
    | Take(w: nat)
    | Succeed(w: nat)
    | Fail(w: nat, retryable: bool)
    | Notify(w: nat)
    | Post(w: nat)
    | Exit(w: nat)

  predicate ResultsClosed(m: Main) {
    m.ClosingJobs? || m.ClosingNotify? || m.Done?
  }

  predicate JobsClosed(m: Main) {
    m.ClosingNotify? || m.Done?
  }

  predicate NotifyClosed(m: Main) {
    m.Done?
  }

  predicate Running(m: Main) {
    m.Feeding? || m.Collecting?
  }

  /** Both channels hold at most as many elements as there are jobs; a send on a
      full one, and a receive from an empty one, has to wait. */
  predicate Enabled(c: Config, s: State, a: Action) {
    !s.panicked &&
    match a
    case Send => s.main.Feeding? && s.sent < |c.jobs| && |s.queue| < |c.jobs|
    case Receive => s.main.Collecting? && s.results != []
    case Close => !Running(s.main) && !s.main.Done?
    case Take(w) => w < |s.workers| && s.workers[w].Waiting? && s.queue != []
    case Succeed(w) => w < |s.workers| && s.workers[w].Trying? && s.workers[w].job < |c.jobs|
    case Fail(w, _) =>
      w < |s.workers| && s.workers[w].Trying? && s.workers[w].job < |c.jobs| && c.jobs[s.workers[w].job] > 0
    case Notify(w) => w < |s.workers| && s.workers[w].Committed?
    case Post(w) => w < |s.workers| && (s.workers[w].Notified? || s.workers[w].Failing?)
                    && (ResultsClosed(s.main) || |s.results| < |c.jobs|)
    case Exit(w) => w < |s.workers| && s.workers[w].Waiting? && s.queue == [] && JobsClosed(s.main)
  }

  function Apply(c: Config, s: State, a: Action): State
    requires Enabled(c, s, a)
  {
    match a
    case Send =>
      s.(sent := s.sent + 1, queue := s.queue + [s.sent],
         main := if s.sent + 1 == |c.jobs| then Collecting else Feeding)
    case Receive =>
      s.(results := s.results[1..], received := s.received + [s.results[0]],
         main := if !s.results[0].ok then ClosingResults(false)
                 else if |s.received| + 1 == |c.jobs| then ClosingResults(true)
                 else Collecting)
    case Close =>
      s.(main := match s.main
                 case ClosingResults(ok) => ClosingJobs(ok)
                 case ClosingJobs(ok) => ClosingNotify(ok)
                 case ClosingNotify(ok) => Done(ok))
    case Take(w) =>
      s.(queue := s.queue[1..], workers := s.workers[w := Trying(s.queue[0], 0)])
    case Succeed(w) =>
      s.(workers := s.workers[w := Committed(s.workers[w].job)], rows := s.rows + c.jobs[s.workers[w].job])
    case Fail(w, retryable) =>
      var Trying(job, tries) := s.workers[w];
      s.(workers := s.workers[w := if !retryable || tries == MAX_RETRIES then Failing(job) else Trying(job, tries + 1)])
    case Notify(w) =>
      if NotifyClosed(s.main) then s.(panicked := true)
      else s.(workers := s.workers[w := Notified(s.workers[w].job)])
    case Post(w) =>
      if ResultsClosed(s.main) then s.(panicked := true)
      else
        var ok := s.workers[w].Notified?;
        s.(results := s.results + [Posted(s.workers[w].job, ok)],
           workers := s.workers[w := if ok then Waiting else Dead(s.workers[w].job)])
    case Exit(w) =>
      s.(workers := s.workers[w := Exited])
  }

  function Init(c: Config): State {
    State(0, [], seq(c.workers, _ => Waiting), [], [], Feeding, 0, false)
  }

  // Where the jobs are.

  /** What to count: the places job `j` is in, the places that show job `j`'s
      insert went through, jobs in a worker's hands, failures. */
  datatype View = JobAt(j: nat) | JobDone(j: nat) | Busy | Failure

  function InWorker(v: View, w: Worker): nat {
    var busy := w.Trying? || w.Committed? || w.Notified? || w.Failing?;
    match v
    case JobAt(j) => if busy && w.job == j then 1 else 0
    case JobDone(j) => if (w.Committed? || w.Notified?) && w.job == j then 1 else 0
    case Busy => if busy then 1 else 0
    case Failure => if w.Dead? then 1 else 0
  }

  function InPosted(v: View, p: Posted): nat {
    match v
    case JobAt(j) => if p.job == j then 1 else 0
    case JobDone(j) => if p.ok && p.job == j then 1 else 0
    case Busy => 0
    case Failure => if p.ok then 0 else 1
  }

  function InWorkers(v: View, ws: seq<Worker>): nat {
    if ws == [] then 0 else InWorker(v, ws[0]) + InWorkers(v, ws[1..])
  }

  function InAll(v: View, ps: seq<Posted>): nat {
    if ps == [] then 0 else InPosted(v, ps[0]) + InAll(v, ps[1..])
  }

  lemma {:induction false} WorkerMoves(v: View, ws: seq<Worker>, w: nat, p: Worker)
    requires w < |ws|
    ensures InWorkers(v, ws) >= InWorker(v, ws[w])
    ensures InWorkers(v, ws[w := p]) == InWorkers(v, ws) - InWorker(v, ws[w]) + InWorker(v, p)
  {
    if w == 0 {
      assert ws[w := p][1..] == ws[1..];
    } else {
      WorkerMoves(v, ws[1..], w - 1, p);
      assert ws[w := p][1..] == ws[1..][w - 1 := p];
    }
  }

  lemma {:induction false} OneMorePosted(v: View, ps: seq<Posted>, p: Posted)
    ensures InAll(v, ps + [p]) == InAll(v, ps) + InPosted(v, p)
  {
    if ps != [] {
      OneMorePosted(v, ps[1..], p);
      assert (ps + [p])[1..] == ps[1..] + [p];
    }
  }

  lemma {:induction false} DoneIsSomewhere(ws: seq<Worker>, ps: seq<Posted>, j: nat)
    ensures InWorkers(JobDone(j), ws) <= InWorkers(JobAt(j), ws)
    ensures InAll(JobDone(j), ps) <= InAll(JobAt(j), ps)
    decreases |ws| + |ps|
  {
    if ws != [] {
      DoneIsSomewhere(ws[1..], ps, j);
    }
    if ps != [] {
      DoneIsSomewhere(ws, ps[1..], j);
    }
  }

  /** In how many places job `j` is: queued, held by a worker, posted, received. */
  function At(s: State, j: nat): nat {
    multiset(s.queue)[j] + InWorkers(JobAt(j), s.workers) + InAll(JobAt(j), s.results) + InAll(JobAt(j), s.received)
  }

  /** How often job `j`'s insert has gone through. */
  function DoneTimes(s: State, j: nat): nat {
    InWorkers(JobDone(j), s.workers) + InAll(JobDone(j), s.results) + InAll(JobDone(j), s.received)
  }

  /** Every job that was sent is in exactly one place, a job not yet sent in none. */
  ghost predicate Conserved(s: State) {
    forall j: nat :: At(s, j) == if j < s.sent then 1 else 0
  }

  ghost predicate Counted(s: State) {
    |s.queue| + InWorkers(Busy, s.workers) + |s.results| + |s.received| == s.sent
  }

  /** Every worker that died has posted an error. */
  ghost predicate DeathsPosted(s: State) {
    InWorkers(Failure, s.workers) == InAll(Failure, s.results) + InAll(Failure, s.received)
  }

  ghost predicate TriesBounded(s: State) {
    forall w | 0 <= w < |s.workers| && s.workers[w].Trying? :: s.workers[w].tries <= MAX_RETRIES
  }

  ghost predicate ExitsFit(s: State) {
    forall w | 0 <= w < |s.workers| && s.workers[w].Exited? :: JobsClosed(s.main)
  }

  ghost predicate AllOk(ps: seq<Posted>) {
    forall k | 0 <= k < |ps| :: ps[k].ok
  }

  /** What `run` knows when it stands where it stands. */
  ghost predicate MainFits(c: Config, s: State) {
    if s.main.Feeding? then s.sent < |c.jobs| && s.received == []
    else if s.main.Collecting? then s.sent == |c.jobs| && |s.received| < |c.jobs| && AllOk(s.received)
    else if s.main.ok then s.sent == |c.jobs| && |s.received| == |c.jobs| && AllOk(s.received)
    else s.sent == |c.jobs| && s.received != [] && !s.received[|s.received| - 1].ok
  }

  /** The rows of the first `n` jobs whose insert has gone through. */
  function RowsDone(jobs: seq<nat>, s: State, n: nat): nat
    requires n <= |jobs|
  {
    if n == 0 then 0 else RowsDone(jobs, s, n - 1) + if DoneTimes(s, n - 1) > 0 then jobs[n - 1] else 0
  }

  ghost predicate Inv(c: Config, s: State) {
    && |s.workers| == c.workers && c.jobs != []
    && Conserved(s) && Counted(s) && DeathsPosted(s) && TriesBounded(s) && ExitsFit(s) && MainFits(c, s)
    && s.rows == RowsDone(c.jobs, s, |c.jobs|)
    && (s.panicked ==> !Running(s.main) && !s.main.ok)
  }

  lemma {:induction false} NobodyBusy(v: View, ws: seq<Worker>)
    requires forall w | 0 <= w < |ws| :: ws[w].Waiting?
    ensures InWorkers(v, ws) == 0
  {
    if ws != [] {
      NobodyBusy(v, ws[1..]);
    }
  }

  lemma {:induction false} NoRowsDone(jobs: seq<nat>, s: State, n: nat)
    requires n <= |jobs| && forall j: nat :: DoneTimes(s, j) == 0
    ensures RowsDone(jobs, s, n) == 0
  {
    if n > 0 {
      NoRowsDone(jobs, s, n - 1);
    }
  }

  lemma InitInv(c: Config)
    requires c.jobs != []
    ensures Inv(c, Init(c))
  {
    var s := Init(c);
    NobodyBusy(Busy, s.workers);
    NobodyBusy(Failure, s.workers);
    forall j: nat
      ensures At(s, j) == DoneTimes(s, j) == 0
    {
      NobodyBusy(JobAt(j), s.workers);
      NobodyBusy(JobDone(j), s.workers);
    }
    NoRowsDone(c.jobs, s, |c.jobs|);
  }

  /** Steps that complete no insert leave the account of rows alone. */
  lemma {:induction false} SameRowsDone(jobs: seq<nat>, s: State, t: State, n: nat)
    requires n <= |jobs| && forall j: nat :: DoneTimes(s, j) == DoneTimes(t, j)
    ensures RowsDone(jobs, s, n) == RowsDone(jobs, t, n)
  {
    if n > 0 {
      SameRowsDone(jobs, s, t, n - 1);
    }
  }

  lemma {:induction false} OneMoreJobDone(jobs: seq<nat>, s: State, t: State, k: nat, n: nat)
    requires n <= |jobs| && k < |jobs| && DoneTimes(s, k) == 0
    requires forall j: nat :: DoneTimes(t, j) == DoneTimes(s, j) + if j == k then 1 else 0
    ensures RowsDone(jobs, t, n) == RowsDone(jobs, s, n) + if k < n then jobs[k] else 0
  {
    if n > 0 {
      OneMoreJobDone(jobs, s, t, k, n - 1);
    }
  }

  /** A worker in its attempt number `t + 1` gives the job up exactly by a fatal
      error or by a retryable one at `t == 5`, and tries again by any other error. */
  lemma GivesUpIff(c: Config, s: State, a: Action, w: nat)
    requires Enabled(c, s, a) && w < |s.workers| && s.workers[w].Trying?
    ensures
      var Trying(job, t), after := s.workers[w], Apply(c, s, a).workers[w];
      && (after == Failing(job) <==> a == Fail(w, false) || (a == Fail(w, true) && t == 5))
      && (after == Trying(job, t + 1) <==> a == Fail(w, true) && t != 5)
      && (after == Committed(job) <==> a == Succeed(w))
  {
  }

  // Each kind of step keeps the invariant.

  lemma SendKeeps(c: Config, s: State)
    requires Inv(c, s) && Enabled(c, s, Send)
    ensures Inv(c, Apply(c, s, Send))
  {
    var t := Apply(c, s, Send);
    forall j: nat
      ensures At(t, j) == At(s, j) + if j == s.sent then 1 else 0
      ensures DoneTimes(t, j) == DoneTimes(s, j)
    {
      assert multiset(s.queue + [s.sent])[j] == multiset(s.queue)[j] + multiset{s.sent}[j];
    }
    SameRowsDone(c.jobs, s, t, |c.jobs|);
  }

  lemma ReceiveKeeps(c: Config, s: State)
    requires Inv(c, s) && Enabled(c, s, Receive)
    ensures Inv(c, Apply(c, s, Receive))
  {
    var p, t := s.results[0], Apply(c, s, Receive);
    OneMorePosted(Failure, s.received, p);
    forall j: nat
      ensures At(t, j) == At(s, j) && DoneTimes(t, j) == DoneTimes(s, j)
    {
      OneMorePosted(JobAt(j), s.received, p);
      OneMorePosted(JobDone(j), s.received, p);
    }
    SameRowsDone(c.jobs, s, t, |c.jobs|);
  }

  lemma CloseKeeps(c: Config, s: State)
    requires Inv(c, s) && Enabled(c, s, Close)
    ensures Inv(c, Apply(c, s, Close))
  {
    var t := Apply(c, s, Close);
    forall j: nat
      ensures At(t, j) == At(s, j) && DoneTimes(t, j) == DoneTimes(s, j)
    {
    }
    SameRowsDone(c.jobs, s, t, |c.jobs|);
  }

  lemma TakeMoves(s: State, w: nat, j: nat)
    requires w < |s.workers| && s.workers[w].Waiting? && s.queue != []
    ensures
      var t := s.(queue := s.queue[1..], workers := s.workers[w := Trying(s.queue[0], 0)]);
      At(t, j) == At(s, j) && DoneTimes(t, j) == DoneTimes(s, j)
  {
    var p := Trying(s.queue[0], 0);
    WorkerMoves(JobAt(j), s.workers, w, p);
    WorkerMoves(JobDone(j), s.workers, w, p);
    assert s.queue == [s.queue[0]] + s.queue[1..];
    assert multiset(s.queue)[j] == multiset{s.queue[0]}[j] + multiset(s.queue[1..])[j];
  }

  lemma TakeKeeps(c: Config, s: State, w: nat)
    requires Inv(c, s) && Enabled(c, s, Take(w))
    ensures Inv(c, Apply(c, s, Take(w)))
  {
    var t, p := Apply(c, s, Take(w)), Trying(s.queue[0], 0);
    WorkerMoves(Busy, s.workers, w, p);
    WorkerMoves(Failure, s.workers, w, p);
    forall j: nat
      ensures At(t, j) == At(s, j) && DoneTimes(t, j) == DoneTimes(s, j)
    {
      TakeMoves(s, w, j);
    }
    SameRowsDone(c.jobs, s, t, |c.jobs|);
  }

  /** A job that is being tried has not gone through before. */
  lemma TriedIsNotDone(s: State, w: nat)
    requires Conserved(s) && w < |s.workers| && s.workers[w].Trying?
    ensures DoneTimes(s, s.workers[w].job) == 0
  {
    var j := s.workers[w].job;
    var ws := s.workers[w := Waiting];
    WorkerMoves(JobAt(j), s.workers, w, Waiting);
    WorkerMoves(JobDone(j), s.workers, w, Waiting);
    DoneIsSomewhere(ws, s.results, j);
    DoneIsSomewhere(ws, s.received, j);
    assert At(s, j) <= 1;
  }

  lemma SucceedMoves(s: State, w: nat, rows: nat, j: nat)
    requires w < |s.workers| && s.workers[w].Trying?
    ensures
      var k := s.workers[w].job;
      var t := s.(workers := s.workers[w := Committed(k)], rows := rows);
      At(t, j) == At(s, j) && DoneTimes(t, j) == DoneTimes(s, j) + if j == k then 1 else 0
  {
    WorkerMoves(JobAt(j), s.workers, w, Committed(s.workers[w].job));
    WorkerMoves(JobDone(j), s.workers, w, Committed(s.workers[w].job));
  }

  lemma SucceedKeeps(c: Config, s: State, w: nat)
    requires Inv(c, s) && Enabled(c, s, Succeed(w))
    ensures Inv(c, Apply(c, s, Succeed(w)))
  {
    var t, k := Apply(c, s, Succeed(w)), s.workers[w].job;
    WorkerMoves(Busy, s.workers, w, Committed(k));
    WorkerMoves(Failure, s.workers, w, Committed(k));
    forall j: nat
      ensures At(t, j) == At(s, j) && DoneTimes(t, j) == DoneTimes(s, j) + if j == k then 1 else 0
    {
      SucceedMoves(s, w, t.rows, j);
    }
    TriedIsNotDone(s, w);
    OneMoreJobDone(c.jobs, s, t, k, |c.jobs|);
  }

  /** A worker step that neither completes, dies nor lets go of a job. */
  lemma WorkerGoesOn(c: Config, s: State, w: nat, p: Worker)
    requires Inv(c, s) && w < |s.workers|
    requires forall v: View :: InWorker(v, p) == InWorker(v, s.workers[w])
    requires (p.Trying? ==> p.tries <= MAX_RETRIES) && (p.Exited? ==> JobsClosed(s.main))
    ensures Inv(c, s.(workers := s.workers[w := p]))
  {
    var t := s.(workers := s.workers[w := p]);
    WorkerMoves(Busy, s.workers, w, p);
    WorkerMoves(Failure, s.workers, w, p);
    forall j: nat
      ensures At(t, j) == At(s, j) && DoneTimes(t, j) == DoneTimes(s, j)
    {
      WorkerMoves(JobAt(j), s.workers, w, p);
      WorkerMoves(JobDone(j), s.workers, w, p);
    }
    SameRowsDone(c.jobs, s, t, |c.jobs|);
  }

  lemma PanicKeeps(c: Config, s: State)
    requires Inv(c, s) && !Running(s.main) && !s.main.ok
    ensures Inv(c, s.(panicked := true))
  {
    var t := s.(panicked := true);
    forall j: nat
      ensures At(t, j) == At(s, j) && DoneTimes(t, j) == DoneTimes(s, j)
    {
    }
    SameRowsDone(c.jobs, s, t, |c.jobs|);
  }

  /** Once `run` has returned without error no worker has a job in its hands. */
  lemma NobodyBusyAfterSuccess(c: Config, s: State)
    requires Inv(c, s) && !Running(s.main) && s.main.ok
    ensures s.queue == [] && s.results == [] && InWorkers(Busy, s.workers) == 0
    ensures forall w | 0 <= w < |s.workers| :: InWorker(Busy, s.workers[w]) == 0
  {
    forall w | 0 <= w < |s.workers|
      ensures InWorker(Busy, s.workers[w]) == 0
    {
      WorkerMoves(Busy, s.workers, w, Waiting);
    }
  }

  lemma NotifyKeeps(c: Config, s: State, w: nat)
    requires Inv(c, s) && Enabled(c, s, Notify(w))
    ensures Inv(c, Apply(c, s, Notify(w)))
  {
    if !Running(s.main) && s.main.ok {
      NobodyBusyAfterSuccess(c, s);
    }
    if NotifyClosed(s.main) {
      PanicKeeps(c, s);
    } else {
      WorkerGoesOn(c, s, w, Notified(s.workers[w].job));
    }
  }

  lemma PostMoves(s: State, w: nat, j: nat, k: nat, ok: bool)
    requires w < |s.workers| && s.workers[w] == if ok then Notified(k) else Failing(k)
    ensures
      var t := s.(results := s.results + [Posted(k, ok)], workers := s.workers[w := if ok then Waiting else Dead(k)]);
      At(t, j) == At(s, j) && DoneTimes(t, j) == DoneTimes(s, j)
  {
    var p := if ok then Waiting else Dead(k);
    WorkerMoves(JobAt(j), s.workers, w, p);
    WorkerMoves(JobDone(j), s.workers, w, p);
    OneMorePosted(JobAt(j), s.results, Posted(k, ok));
    OneMorePosted(JobDone(j), s.results, Posted(k, ok));
  }

  lemma SuccessOrFailurePosted(c: Config, s: State, w: nat, k: nat, ok: bool)
    requires Inv(c, s) && w < |s.workers| && s.workers[w] == if ok then Notified(k) else Failing(k)
    ensures Inv(c, s.(results := s.results + [Posted(k, ok)],
                      workers := s.workers[w := if ok then Waiting else Dead(k)]))
  {
    var p := if ok then Waiting else Dead(k);
    var t := s.(results := s.results + [Posted(k, ok)], workers := s.workers[w := p]);
    WorkerMoves(Busy, s.workers, w, p);
    WorkerMoves(Failure, s.workers, w, p);
    OneMorePosted(Failure, s.results, Posted(k, ok));
    forall j: nat
      ensures At(t, j) == At(s, j) && DoneTimes(t, j) == DoneTimes(s, j)
    {
      PostMoves(s, w, j, k, ok);
    }
    SameRowsDone(c.jobs, s, t, |c.jobs|);
  }

  lemma PostKeeps(c: Config, s: State, w: nat)
    requires Inv(c, s) && Enabled(c, s, Post(w))
    ensures Inv(c, Apply(c, s, Post(w)))
  {
    if !Running(s.main) && s.main.ok {
      NobodyBusyAfterSuccess(c, s);
    }
    if ResultsClosed(s.main) {
      PanicKeeps(c, s);
    } else {
      SuccessOrFailurePosted(c, s, w, s.workers[w].job, s.workers[w].Notified?);
    }
  }

  lemma StepKeeps(c: Config, s: State, a: Action)
    requires Inv(c, s) && Enabled(c, s, a)
    ensures Inv(c, Apply(c, s, a))
  {
    match a
    case Send => SendKeeps(c, s);
    case Receive => ReceiveKeeps(c, s);
    case Close => CloseKeeps(c, s);
    case Take(w) => TakeKeeps(c, s, w);
    case Succeed(w) => SucceedKeeps(c, s, w);
    case Fail(w, _) => WorkerGoesOn(c, s, w, Apply(c, s, a).workers[w]);
    case Notify(w) => NotifyKeeps(c, s, w);
    case Post(w) => PostKeeps(c, s, w);
    case Exit(w) => WorkerGoesOn(c, s, w, Exited);
  }
}
