/**
 The bounded job queue of CTranslate2 with its workers and its counter of active jobs, as the steps that the
 lock makes atomic. Jobs are numbered; every interleaving is a sequence of steps.
 */
module JobQueue {

  datatype Worker = Idle | Busy(job: nat) | Exited

  /**
   `posting` are jobs whose post has begun (the counter already counts them) but that wait for a free slot.
   The history: jobs in the order they entered the queue, jobs in the order workers took them with the worker,
   destroyed jobs, and for each exited worker how many jobs had entered when it left.
   */
  datatype State = State(maximum: nat, queue: seq<nat>, closed: bool, workers: seq<Worker>, posting: set<nat>,
                         counter: int, entered: seq<nat>, taken: seq<(nat, nat)>, destroyed: set<nat>,
                         exits: map<nat, nat>)

  datatype Step =
    | BeginPost(job: nat)   // set_job_counter
    | Put(job: nat)         // the wait for a free slot is over
    | Get(worker: nat)      // the wait for a job is over, and there is one
    | Exit(worker: nat)     // the wait is over, the queue is closed and empty
    | Finish(worker: nat)   // the job has run and is destroyed
    | Close

  function Start(maximum: nat, workers: nat): State {
    State(maximum, [], false, seq(workers, (w: nat) => Idle), {}, 0, [], [], {}, map[])
  }

  predicate Known(s: State, job: nat) {
    job in s.posting || job in s.entered
  }

  predicate Enabled(s: State, e: Step) {
    match e
    case BeginPost(job) => !Known(s, job)
    case Put(job) => job in s.posting && |s.queue| < s.maximum
    case Get(w) => w < |s.workers| && s.workers[w] == Idle && s.queue != []
    case Exit(w) => w < |s.workers| && s.workers[w] == Idle && s.queue == [] && s.closed
    case Finish(w) => w < |s.workers| && s.workers[w].Busy?
    case Close => true
  }

  function Apply(s: State, e: Step): State
    requires Enabled(s, e)
  {
    match e
    case BeginPost(job) => s.(posting := s.posting + {job}, counter := s.counter + 1)
    case Put(job) => s.(posting := s.posting - {job}, queue := s.queue + [job], entered := s.entered + [job])
    case Get(w) => s.(queue := s.queue[1..], workers := s.workers[w := Busy(s.queue[0])],
                      taken := s.taken + [(s.queue[0], w)])
    case Exit(w) => s.(workers := s.workers[w := Exited], exits := s.exits[w := |s.entered|])
    case Finish(w) => s.(workers := s.workers[w := Idle], destroyed := s.destroyed + {s.workers[w].job},
                         counter := s.counter - 1)
    case Close => s.(closed := true)
  }

  // ---------------------------------------------------------------------------------------------
  // The invariant
  // ---------------------------------------------------------------------------------------------

  function Jobs(taken: seq<(nat, nat)>): (jobs: seq<nat>)
    ensures |jobs| == |taken|
  {
    seq(|taken|, (i: nat) requires i < |taken| => taken[i].0)
  }

  predicate Distinct(s: seq<nat>) {
    forall i, j :: 0 <= i < j < |s| ==> s[i] != s[j]
  }

  function BusyCount(workers: seq<Worker>): nat {
    if workers == [] then 0 else BusyCount(workers[..|workers| - 1]) + if workers[|workers| - 1].Busy? then 1 else 0
  }

  /** First in, first out: what entered is what was taken, then what is still queued. */
  predicate Fifo(s: State) {
    s.entered == Jobs(s.taken) + s.queue
  }

  ghost predicate BusyOk(s: State) {
    forall w {:trigger s.workers[w]} :: 0 <= w < |s.workers| && s.workers[w].Busy? ==>
      && s.workers[w].job !in s.destroyed
      && exists i :: 0 <= i < |s.taken| && s.taken[i] == (s.workers[w].job, w)
  }

  /** A worker that left did so from a closed and drained queue. */
  ghost predicate ExitsOk(s: State) {
    && (forall w: nat {:trigger s.workers[w]} :: w < |s.workers| ==> (s.workers[w] == Exited <==> w in s.exits))
    && forall w :: w in s.exits ==> s.closed && s.exits[w] <= |s.taken|
  }

  predicate AllExited(s: State) {
    |s.workers| > 0 && forall w {:trigger s.workers[w]} :: 0 <= w < |s.workers| ==> s.workers[w] == Exited
  }

  /** The exit of worker `w` saw `n` jobs. */
  ghost predicate ExitSaw(s: State, w: nat, n: nat) {
    w in s.exits && s.exits[w] == n
  }

  /** The last worker to leave left when every job that is ever taken had been taken. */
  ghost predicate LastExitOk(s: State) {
    AllExited(s) ==> exists w :: ExitSaw(s, w, |s.taken|)
  }

  ghost predicate Inv(s: State) {
    && |s.queue| <= s.maximum
    && Fifo(s) && Distinct(s.entered)
    && (forall job :: job in s.posting ==> job !in s.entered)
    && (forall job :: job in s.destroyed ==> job in Jobs(s.taken))
    && s.counter == |s.posting| + |s.queue| + BusyCount(s.workers)
    && |s.destroyed| + BusyCount(s.workers) == |s.taken|
    && BusyOk(s) && ExitsOk(s) && LastExitOk(s)
  }

  lemma {:induction false} BusyUpdate(workers: seq<Worker>, w: nat, v: Worker)
    requires w < |workers|
    ensures BusyCount(workers[w := v]) == BusyCount(workers) - (if workers[w].Busy? then 1 else 0)
             + (if v.Busy? then 1 else 0)
  {
    var u := workers[w := v];
    if w < |workers| - 1 {
      BusyUpdate(workers[..|workers| - 1], w, v);
      assert u[..|u| - 1] == workers[..|workers| - 1][w := v];
    } else {
      assert u[..|u| - 1] == workers[..|workers| - 1];
    }
  }

  lemma {:induction false} StartHolds(maximum: nat, workers: nat)
    ensures Inv(Start(maximum, workers))
  {
    NoneBusy(workers);
    assert Jobs([]) == [];
    assert workers > 0 ==> Start(maximum, workers).workers[0] == Idle;
  }

  lemma {:induction false} NoneBusy(workers: nat)
    ensures BusyCount(seq(workers, (w: nat) => Idle)) == 0
  {
    var s := seq(workers, (w: nat) => Idle);
    if workers > 0 {
      NoneBusy(workers - 1);
      assert s[..workers - 1] == seq(workers - 1, (w: nat) => Idle);
    }
  }

  /** A queued job has not been taken. */
  lemma {:induction false} HeadIsNew(s: State)
    requires Fifo(s) && Distinct(s.entered) && s.queue != []
    ensures s.queue[0] !in Jobs(s.taken)
  {
    assert s.entered[|s.taken|] == s.queue[0];
    forall k | 0 <= k < |s.taken|
      ensures Jobs(s.taken)[k] != s.queue[0]
    {
      assert s.entered[k] == Jobs(s.taken)[k];
    }
  }

  lemma {:induction false} GetBusy(s: State, w: nat)
    requires Inv(s) && Enabled(s, Get(w))
    ensures BusyOk(Apply(s, Get(w)))
  {
    var t := Apply(s, Get(w));
    HeadIsNew(s);
    assert t.taken[|s.taken|] == (s.queue[0], w);
    forall v | 0 <= v < |t.workers| && t.workers[v].Busy?
      ensures t.workers[v].job !in t.destroyed
      ensures exists i :: 0 <= i < |t.taken| && t.taken[i] == (t.workers[v].job, v)
    {
      if v != w {
        var i :| 0 <= i < |s.taken| && s.taken[i] == (s.workers[v].job, v);
        assert t.taken[i] == s.taken[i];
      }
    }
  }

  lemma {:induction false} GetKeeps(s: State, w: nat)
    requires Inv(s) && Enabled(s, Get(w))
    ensures Inv(Apply(s, Get(w)))
  {
    var t := Apply(s, Get(w));
    BusyUpdate(s.workers, w, Busy(s.queue[0]));
    assert Jobs(t.taken) == Jobs(s.taken) + [s.queue[0]];
    assert s.queue == [s.queue[0]] + t.queue;
    GetBusy(s, w);
    assert t.workers[w].Busy?;
  }

  lemma {:induction false} FinishKeeps(s: State, w: nat)
    requires Inv(s) && Enabled(s, Finish(w))
    ensures Inv(Apply(s, Finish(w)))
  {
    var t := Apply(s, Finish(w));
    var job := s.workers[w].job;
    BusyUpdate(s.workers, w, Idle);
    assert t.workers[w] == Idle;
    var i :| 0 <= i < |s.taken| && s.taken[i] == (job, w);
    assert Jobs(s.taken)[i] == job;
    forall v | 0 <= v < |t.workers| && t.workers[v].Busy?
      ensures t.workers[v].job !in t.destroyed
    {
      var k :| 0 <= k < |s.taken| && s.taken[k] == (s.workers[v].job, v);
      assert s.entered[k] == s.taken[k].0 && s.entered[i] == s.taken[i].0;
    }
  }

  lemma {:induction false} ExitKeeps(s: State, w: nat)
    requires Inv(s) && Enabled(s, Exit(w))
    ensures Inv(Apply(s, Exit(w)))
  {
    BusyUpdate(s.workers, w, Exited);
    assert |s.entered| == |s.taken|;
    assert ExitSaw(Apply(s, Exit(w)), w, |s.taken|);
  }

  lemma {:induction false} PutKeeps(s: State, job: nat)
    requires Inv(s) && Enabled(s, Put(job))
    ensures Inv(Apply(s, Put(job)))
  {
    ExitsStay(s, Apply(s, Put(job)));
  }

  lemma {:induction false} ExitsStay(s: State, t: State)
    requires LastExitOk(s) && t.workers == s.workers && t.exits == s.exits && t.taken == s.taken
    ensures LastExitOk(t)
  {
    if AllExited(t) {
      var w :| ExitSaw(s, w, |s.taken|);
      assert ExitSaw(t, w, |t.taken|);
    }
  }

  lemma {:induction false} StepKeeps(s: State, e: Step)
    requires Inv(s) && Enabled(s, e)
    ensures Inv(Apply(s, e))
  {
    match e
    case BeginPost(_) => ExitsStay(s, Apply(s, e));
    case Put(job) => PutKeeps(s, job);
    case Get(w) => GetKeeps(s, w);
    case Exit(w) => ExitKeeps(s, w);
    case Finish(w) => FinishKeeps(s, w);
    case Close => ExitsStay(s, Apply(s, e));
  }

  // ---------------------------------------------------------------------------------------------
  // Every interleaving
  // ---------------------------------------------------------------------------------------------

  ghost predicate CanRun(s: State, es: seq<Step>)
    decreases |es|
  {
    es == [] || (Enabled(s, es[0]) && CanRun(Apply(s, es[0]), es[1..]))
  }

  ghost function Run(s: State, es: seq<Step>): State
    requires CanRun(s, es)
    decreases |es|
  {
    if es == [] then s else Run(Apply(s, es[0]), es[1..])
  }

  lemma {:induction false} RunKeeps(s: State, es: seq<Step>)
    requires Inv(s) && CanRun(s, es)
    ensures Inv(Run(s, es))
    decreases |es|
  {
    if es != [] {
      StepKeeps(s, es[0]);
      RunKeeps(Apply(s, es[0]), es[1..]);
    }
  }

  /** What every interleaving keeps: the bound, the order, one worker per job, and the counter. */
  lemma {:induction false} EveryInterleaving(maximum: nat, workers: nat, es: seq<Step>)
    requires CanRun(Start(maximum, workers), es)
    ensures var s := Run(Start(maximum, workers), es);
            && |s.queue| <= maximum
            && s.entered == Jobs(s.taken) + s.queue && Distinct(Jobs(s.taken))
            && s.counter == |s.posting| + |s.entered| - |s.destroyed|
            && s.destroyed <= set job | job in Jobs(s.taken)
  {
    StartHolds(maximum, workers);
    RunKeeps(Start(maximum, workers), es);
    var s := Run(Start(maximum, workers), es);
    RunBound(Start(maximum, workers), es);
    forall i, j | 0 <= i < j < |s.taken|
      ensures Jobs(s.taken)[i] != Jobs(s.taken)[j]
    {
      assert s.entered[i] == Jobs(s.taken)[i] && s.entered[j] == Jobs(s.taken)[j];
    }
  }

  lemma {:induction false} RunBound(s: State, es: seq<Step>)
    requires CanRun(s, es)
    ensures Run(s, es).maximum == s.maximum
    decreases |es|
  {
    if es != [] {
      RunBound(Apply(s, es[0]), es[1..]);
    }
  }

  /** Jobs that entered before some worker left have all been taken; if none entered later, the queue is empty. */
  lemma {:induction false} DrainedAtExit(maximum: nat, workers: nat, es: seq<Step>, w: nat)
    requires CanRun(Start(maximum, workers), es) && w in Run(Start(maximum, workers), es).exits
    ensures var s := Run(Start(maximum, workers), es);
            && s.closed && s.exits[w] <= |s.taken|
            && (|s.entered| == s.exits[w] ==> s.queue == [])
  {
    StartHolds(maximum, workers);
    RunKeeps(Start(maximum, workers), es);
  }

  /**
   When all workers have left, the queue is empty exactly if some worker saw every job that entered: a job that was
   put after the last worker left stays.
   */
  lemma {:induction false} EmptyExactlyIf(maximum: nat, workers: nat, es: seq<Step>)
    requires CanRun(Start(maximum, workers), es) && AllExited(Run(Start(maximum, workers), es))
    ensures var s := Run(Start(maximum, workers), es);
            s.queue == [] <==> exists w :: ExitSaw(s, w, |s.entered|)
  {
    StartHolds(maximum, workers);
    RunKeeps(Start(maximum, workers), es);
    var s := Run(Start(maximum, workers), es);
    var last :| ExitSaw(s, last, |s.taken|);
  }

  /** Such a run: the job is accepted, and stays queued. */
  lemma {:induction false} LatePutStays()
    ensures var es := [Close, Exit(0), BeginPost(7), Put(7)];
            CanRun(Start(1, 1), es) && Run(Start(1, 1), es).queue == [7] && Run(Start(1, 1), es).workers == [Exited]
  {
    var s0 := Start(1, 1);
    var s1 := Apply(s0, Close);
    var s2 := Apply(s1, Exit(0));
    var s3 := Apply(s2, BeginPost(7));
    var s4 := Apply(s3, Put(7));
    assert s2.workers == [Exited] && s4.queue == [7];
    assert CanRun(s4, []) && CanRun(s3, [Put(7)]) && CanRun(s2, [BeginPost(7), Put(7)]);
    assert [Exit(0), BeginPost(7), Put(7)][1..] == [BeginPost(7), Put(7)];
    assert CanRun(s1, [Exit(0), BeginPost(7), Put(7)]);
    assert [Close, Exit(0), BeginPost(7), Put(7)][1..] == [Exit(0), BeginPost(7), Put(7)];
    assert Run(s3, [Put(7)]) == Run(s4, []) == s4;
    assert Run(s2, [BeginPost(7), Put(7)]) == s4;
    assert Run(s1, [Exit(0), BeginPost(7), Put(7)]) == s4;
  }

  // ---------------------------------------------------------------------------------------------
  // The shared fields
  // ---------------------------------------------------------------------------------------------

  /** The queue's fields; each method is a critical section, entered when its wait is over. */
  class Queue {
    var jobs: seq<nat>
    const maximum: nat
    var requestEnd: bool

    constructor (maximum: nat)
      ensures jobs == [] && this.maximum == maximum && !requestEnd
    {
      jobs, requestEnd := [], false;
      this.maximum := maximum;
    }

    /** The fields as part of a state. */
    ghost predicate Shows(s: State)
      reads this
    {
      jobs == s.queue && maximum == s.maximum && requestEnd == s.closed
    }

    method Put(job: nat, ghost s: State)
      requires Shows(s) && Enabled(s, Step.Put(job))
      modifies this`jobs
      ensures Shows(Apply(s, Step.Put(job)))
    {
      jobs := jobs + [job];
    }

    predicate CanGetJob()
      reads this
    {
      jobs != [] || requestEnd
    }

    /** A job if there is one, whether or not the queue is closed; none makes the worker leave. */
    method Get(ghost s: State, worker: nat) returns (has: bool, job: nat)
      requires Shows(s) && CanGetJob() && worker < |s.workers| && s.workers[worker] == Idle
      modifies this`jobs
      ensures has == (s.queue != [])
      ensures if has then Enabled(s, Step.Get(worker)) && Shows(Apply(s, Step.Get(worker)))
              && Apply(s, Step.Get(worker)).workers[worker] == Busy(job)
              else Enabled(s, Exit(worker)) && Shows(Apply(s, Exit(worker)))
    {
      if jobs != [] {
        job := jobs[0];
        jobs := jobs[1..];
        return true, job;
      }
      return false, 0;
    }

    method Close(ghost s: State)
      requires Shows(s)
      modifies this`requestEnd
      ensures Shows(Apply(s, Step.Close))
    {
      if requestEnd {
        return;
      }
      requestEnd := true;
    }
  }
}
