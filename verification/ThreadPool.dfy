/** The worker pool of httplib.h. Every lock-protected section, every notification and every end of a job is one
    step; the lemmas speak of all interleavings of any number of enqueuers and workers. */
module ThreadPool {

  /** Where a worker is: about to take the lock, waiting on the condition, running a job, or gone. */
  datatype Worker = Awake | Asleep | Running(job: nat) | Exited

  /** Jobs are named by the order in which they were accepted. `owed` and `owedAll` are the notifications that
      callers still have to send after leaving the lock; `late` remembers an enqueue after shutdown began. */
  datatype Pool = Pool(
    limit: nat, jobs: seq<nat>, shutdown: bool, workers: seq<Worker>,
    accepted: nat, started: seq<nat>, finished: seq<nat>, owed: nat, owedAll: bool, late: bool)

  datatype Step =
    | Enqueue
    | NotifyOne(woken: nat)
    | NotifyNobody
    | Shutdown
    | NotifyAll
    | Section(i: nat)
    | WakeSpuriously(i: nat)
    | Finish(i: nat)

  function Initial(n: nat, limit: nat): Pool {
    Pool(limit, [], false, seq(n, _ => Awake), 0, [], [], 0, false, false)
  }

  /** The refusal in `enqueue`. */
  predicate Full(limit: nat, jobs: seq<nat>) { limit > 0 && |jobs| >= limit }

  predicate Enabled(s: Pool, step: Step) {
    match step
    case Enqueue => true
    case NotifyOne(w) => s.owed > 0 && w < |s.workers| && s.workers[w] == Asleep
    case NotifyNobody => s.owed > 0 && forall i :: 0 <= i < |s.workers| ==> s.workers[i] != Asleep
    case Shutdown => true
    case NotifyAll => s.owedAll
    case Section(i) => i < |s.workers| && s.workers[i] == Awake
    case WakeSpuriously(i) => i < |s.workers| && s.workers[i] == Asleep
    case Finish(i) => i < |s.workers| && s.workers[i].Running?
  }

  function WakeAll(ws: seq<Worker>): (r: seq<Worker>)
    ensures |r| == |ws|
    ensures forall i :: 0 <= i < |ws| ==> r[i] == if ws[i] == Asleep then Awake else ws[i]
  {
    seq(|ws|, i requires 0 <= i < |ws| => if ws[i] == Asleep then Awake else ws[i])
  }

  function Apply(s: Pool, step: Step): Pool
    requires Enabled(s, step)
  {
    match step
    case Enqueue =>
      if Full(s.limit, s.jobs) then s
      else s.(jobs := s.jobs + [s.accepted], accepted := s.accepted + 1, owed := s.owed + 1, late := s.late || s.shutdown)
    case NotifyOne(w) => s.(owed := s.owed - 1, workers := s.workers[w := Awake])
    case NotifyNobody => s.(owed := s.owed - 1)
    case Shutdown => s.(shutdown := true, owedAll := true)
    case NotifyAll => s.(owedAll := false, workers := WakeAll(s.workers))
    case Section(i) =>
      if s.jobs == [] && !s.shutdown then s.(workers := s.workers[i := Asleep])
      else if s.jobs == [] then s.(workers := s.workers[i := Exited])
      else s.(jobs := s.jobs[1..], started := s.started + [s.jobs[0]], workers := s.workers[i := Running(s.jobs[0])])
    case WakeSpuriously(i) => s.(workers := s.workers[i := Awake])
    case Finish(i) => s.(finished := s.finished + [s.workers[i].job], workers := s.workers[i := Awake])
  }

  predicate ValidRun(s: Pool, run: seq<Step>)
    decreases |run|
  {
    run == [] || (Enabled(s, run[0]) && ValidRun(Apply(s, run[0]), run[1..]))
  }

  function After(s: Pool, run: seq<Step>): Pool
    requires ValidRun(s, run)
    decreases |run|
  {
    if run == [] then s else After(Apply(s, run[0]), run[1..])
  }

  // ---------------------------------------------------------------- invariants

  /** The names of all accepted jobs, in order of acceptance. */
  function UpTo(n: nat): (r: seq<nat>)
    ensures |r| == n && forall i :: 0 <= i < n ==> r[i] == i
  {
    seq(n, i => i)
  }

  ghost function RunningJobs(ws: seq<Worker>): multiset<nat> {
    if ws == [] then multiset{}
    else RunningJobs(ws[..|ws| - 1]) + JobOf(ws[|ws| - 1])
  }

  ghost function JobOf(w: Worker): multiset<nat> { if w.Running? then multiset{w.job} else multiset{} }

  predicate AllExited(s: Pool) { forall i :: 0 <= i < |s.workers| ==> s.workers[i] == Exited }

  predicate Active(w: Worker) { w == Awake || w.Running? }

  /** Accepted jobs are the started ones followed by the queued ones; started ones run or have finished. */
  ghost predicate Conserved(s: Pool) {
    && s.started + s.jobs == UpTo(s.accepted)
    && RunningJobs(s.workers) + multiset(s.finished) == multiset(s.started)
    && (s.limit > 0 ==> |s.jobs| <= s.limit)
  }

  /** A worker leaves only an empty queue behind, and no wake-up is lost. */
  predicate Alive(s: Pool) {
    && ((exists i :: 0 <= i < |s.workers| && s.workers[i] == Exited) ==> s.shutdown && (s.late || s.jobs == []))
    && (s.jobs != [] ==> s.owed > 0 || AllExited(s) || exists i :: 0 <= i < |s.workers| && Active(s.workers[i]))
    && (s.shutdown ==> s.owedAll || forall i :: 0 <= i < |s.workers| ==> s.workers[i] != Asleep)
  }

  lemma {:induction false} RunningUpdate(ws: seq<Worker>, i: nat, w: Worker)
    requires i < |ws| && ws[i].Running? != w.Running?
    ensures w.Running? ==> RunningJobs(ws[i := w]) == RunningJobs(ws) + multiset{w.job}
    ensures ws[i].Running? ==> RunningJobs(ws) == RunningJobs(ws[i := w]) + multiset{ws[i].job}
  {
    hide RunningJobs;
    var n, vs := |ws| - 1, ws[i := w];
    RunningSnoc(ws);
    RunningSnoc(vs);
    if i < n {
      RunningUpdate(ws[..n], i, w);
      assert vs[..n] == ws[..n][i := w] && vs[n] == ws[n];
      hide JobOf;
      if w.Running? {
        Swap(RunningJobs(ws[..n]), multiset{w.job}, JobOf(ws[n]));
      } else {
        Swap(RunningJobs(vs[..n]), multiset{ws[i].job}, JobOf(ws[n]));
      }
    } else {
      assert vs[..n] == ws[..n] && vs[n] == w;
    }
  }

  lemma RunningSnoc(ws: seq<Worker>)
    requires ws != []
    ensures RunningJobs(ws) == RunningJobs(ws[..|ws| - 1]) + JobOf(ws[|ws| - 1])
  {
  }

  lemma Swap(a: multiset<nat>, b: multiset<nat>, c: multiset<nat>)
    ensures (a + b) + c == (a + c) + b
  {
  }

  lemma {:induction false} RunningSame(ws: seq<Worker>, vs: seq<Worker>)
    requires |ws| == |vs|
    requires forall i :: 0 <= i < |ws| ==> vs[i] == ws[i] || (!vs[i].Running? && !ws[i].Running?)
    ensures RunningJobs(ws) == RunningJobs(vs)
  {
    if ws != [] {
      RunningSame(ws[..|ws| - 1], vs[..|ws| - 1]);
    }
  }

  /** A worker that starts a job. */
  lemma ConservedStart(s: Pool, i: nat)
    requires Conserved(s) && i < |s.workers| && s.workers[i] == Awake && s.jobs != []
    ensures Conserved(Apply(s, Section(i)))
  {
    hide UpTo, RunningJobs;
    var job := s.jobs[0];
    RunningUpdate(s.workers, i, Running(job));
    TakeFirst(s.started, s.jobs);
    Swap(RunningJobs(s.workers), multiset(s.finished), multiset{job});
  }

  lemma TakeFirst(started: seq<nat>, jobs: seq<nat>)
    requires jobs != []
    ensures (started + [jobs[0]]) + jobs[1..] == started + jobs
    ensures multiset(started + [jobs[0]]) == multiset(started) + multiset{jobs[0]}
  {
    assert jobs == [jobs[0]] + jobs[1..];
  }

  /** A worker that ends its job. */
  lemma ConservedFinish(s: Pool, i: nat)
    requires Conserved(s) && i < |s.workers| && s.workers[i].Running?
    ensures Conserved(Apply(s, Finish(i)))
  {
    var job := s.workers[i].job;
    RunningUpdate(s.workers, i, Awake);
    assert multiset(s.finished + [job]) == multiset(s.finished) + multiset{job};
  }

  lemma QueueLast(started: seq<nat>, jobs: seq<nat>, n: nat)
    requires started + jobs == UpTo(n)
    ensures started + (jobs + [n]) == UpTo(n + 1)
  {
    assert started + (jobs + [n]) == (started + jobs) + [n];
  }

  lemma ConservedStep(s: Pool, step: Step)
    requires Conserved(s) && Enabled(s, step)
    ensures Conserved(Apply(s, step))
  {
    hide UpTo, RunningJobs;
    if step.Enqueue? {
      QueueLast(s.started, s.jobs, s.accepted);
    } else if step.Section? && s.jobs != [] {
      ConservedStart(s, step.i);
    } else if step.Finish? {
      ConservedFinish(s, step.i);
    } else {
      RunningSame(s.workers, Apply(s, step).workers);
    }
  }

  lemma AliveStep(s: Pool, step: Step)
    requires Alive(s) && Enabled(s, step)
    ensures Alive(Apply(s, step))
  {
    hide Active;
    if step.Enqueue? || step.Shutdown? {
      AliveCaller(s, step);
    } else if step.NotifyAll? {
      AliveAll(s);
    } else if step.NotifyNobody? {
      AliveNobody(s);
    } else {
      AliveOne(s, step);
    }
  }

  lemma AliveCaller(s: Pool, step: Step)
    requires Alive(s) && (step.Enqueue? || step.Shutdown?)
    ensures Alive(Apply(s, step))
  {
  }

  lemma AliveAll(s: Pool)
    requires Alive(s) && Enabled(s, NotifyAll)
    ensures Alive(Apply(s, NotifyAll))
  {
    var t := Apply(s, NotifyAll);
    assert forall i :: 0 <= i < |s.workers| ==> (t.workers[i] == Exited <==> s.workers[i] == Exited);
    assert forall i :: 0 <= i < |s.workers| && Active(s.workers[i]) ==> Active(t.workers[i]);
  }

  lemma AliveNobody(s: Pool)
    requires Alive(s) && Enabled(s, NotifyNobody)
    ensures Alive(Apply(s, NotifyNobody))
  {
    assert forall i :: 0 <= i < |s.workers| ==> s.workers[i] == Exited || Active(s.workers[i]);
  }

  /** A step that sets one worker. */
  lemma AliveOne(s: Pool, step: Step)
    requires Alive(s) && Enabled(s, step)
    requires step.NotifyOne? || step.Section? || step.WakeSpuriously? || step.Finish?
    ensures Alive(Apply(s, step))
  {
    var i, t := if step.NotifyOne? then step.woken else step.i, Apply(s, step);
    assert t.workers == s.workers[i := t.workers[i]];
    assert t.jobs != [] ==> Active(t.workers[i]);
  }

  lemma InitialHolds(n: nat, limit: nat)
    ensures Conserved(Initial(n, limit)) && Alive(Initial(n, limit))
  {
    var s := Initial(n, limit);
    var none: seq<Worker> := seq(n, _ => Asleep);
    RunningSame(s.workers, none);
    NothingRuns(none);
    assert [] + [] == UpTo(0);
  }

  lemma {:induction false} NothingRuns(ws: seq<Worker>)
    requires forall i :: 0 <= i < |ws| ==> !ws[i].Running?
    ensures RunningJobs(ws) == multiset{}
  {
    if ws != [] {
      NothingRuns(ws[..|ws| - 1]);
    }
  }

  lemma {:induction false} InvariantOverRuns(s: Pool, run: seq<Step>)
    requires Conserved(s) && Alive(s) && ValidRun(s, run)
    ensures Conserved(After(s, run)) && Alive(After(s, run))
    ensures |After(s, run).workers| == |s.workers| && After(s, run).limit == s.limit
    decreases |run|
  {
    if run != [] {
      ConservedStep(s, run[0]);
      AliveStep(s, run[0]);
      StepKeepsShape(s, run[0]);
      hide Apply, Enabled, Conserved, Alive;
      InvariantOverRuns(Apply(s, run[0]), run[1..]);
    }
  }

  lemma StepKeepsShape(s: Pool, step: Step)
    requires Enabled(s, step)
    ensures |Apply(s, step).workers| == |s.workers| && Apply(s, step).limit == s.limit
  {
  }

  // ---------------------------------------------------------------- shutdown

  /** Nothing is handed in once shutdown has begun. */
  predicate NoneAfterShutdown(begun: bool, run: seq<Step>) {
    forall j :: 0 <= j < |run| && run[j] == Enqueue ==> !begun && Shutdown !in run[..j]
  }

  /** The flag is up exactly from the call of `shutdown` on, and an enqueue is late exactly behind that. */
  lemma {:induction false} ShutdownSeen(s: Pool, run: seq<Step>)
    requires ValidRun(s, run)
    ensures After(s, run).shutdown <==> s.shutdown || Shutdown in run
    ensures NoneAfterShutdown(s.shutdown, run) ==> After(s, run).late == s.late
    decreases |run|
  {
    if run != [] {
      var t, rest := Apply(s, run[0]), run[1..];
      assert t.shutdown <==> s.shutdown || run[0] == Shutdown;
      assert run[0] != Enqueue || !s.shutdown ==> t.late == s.late;
      assert run == [run[0]] + rest;
      if NoneAfterShutdown(s.shutdown, run) {
        assert run[..0] == [];
        forall j | 0 <= j < |rest| && rest[j] == Enqueue ensures !t.shutdown && Shutdown !in rest[..j] {
          assert run[j + 1] == Enqueue && run[..j + 1] == [run[0]] + rest[..j];
        }
      }
      hide Apply, Enabled;
      ShutdownSeen(t, rest);
    }
  }

  function Notifications(run: seq<Step>): nat {
    if run == [] then 0 else (if run[0].NotifyOne? || run[0].NotifyNobody? then 1 else 0) + Notifications(run[1..])
  }

  /** One notification goes with every accepted job: so many have been sent or are still owed. */
  lemma {:induction false} NotifiedOnce(s: Pool, run: seq<Step>)
    requires ValidRun(s, run)
    ensures Notifications(run) + After(s, run).owed - s.owed == After(s, run).accepted - s.accepted
    decreases |run|
  {
    if run != [] {
      NotifiedStep(s, run[0]);
      hide Apply, Enabled;
      NotifiedOnce(Apply(s, run[0]), run[1..]);
    }
  }

  lemma NotifiedStep(s: Pool, step: Step)
    requires Enabled(s, step)
    ensures var t := Apply(s, step);
            (if step.NotifyOne? || step.NotifyNobody? then 1 else 0) + t.owed - s.owed == t.accepted - s.accepted
  {
  }

  // ---------------------------------------------------------------- the results

  /** Over every run: accepted jobs start once each and in order of acceptance, every started job is running or
      has finished and none is both or twice, and the queue never exceeds a nonzero limit. */
  lemma JobsRunOnce(n: nat, limit: nat, run: seq<Step>)
    requires ValidRun(Initial(n, limit), run)
    ensures var s := After(Initial(n, limit), run);
            && s.started + s.jobs == UpTo(s.accepted)
            && RunningJobs(s.workers) + multiset(s.finished) == multiset(s.started)
            && (forall j :: multiset(s.finished)[j] + RunningJobs(s.workers)[j] <= 1)
            && (limit > 0 ==> |s.jobs| <= limit)
  {
    InitialHolds(n, limit);
    InvariantOverRuns(Initial(n, limit), run);
    var s := After(Initial(n, limit), run);
    forall j: nat ensures multiset(s.started)[j] <= 1 {
      StartedOnce(s.accepted, |s.started|, j);
      assert s.started == UpTo(s.accepted)[..|s.started|];
    }
    assert forall j :: multiset(s.finished)[j] + RunningJobs(s.workers)[j] == multiset(s.started)[j];
  }

  lemma {:induction false} StartedOnce(n: nat, k: nat, j: nat)
    requires k <= n
    ensures multiset(UpTo(n)[..k])[j] == if j < k then 1 else 0
  {
    if k > 0 {
      StartedOnce(n, k - 1, j);
      assert UpTo(n)[..k] == UpTo(n)[..k - 1] + [k - 1];
    }
  }

  /** Once all workers are gone nothing is ever started again. */
  lemma {:induction false} ExitedForGood(s: Pool, run: seq<Step>)
    requires AllExited(s) && ValidRun(s, run)
    ensures AllExited(After(s, run)) && After(s, run).started == s.started
    decreases |run|
  {
    if run != [] {
      assert AllExited(Apply(s, run[0]));
      ExitedForGood(Apply(s, run[0]), run[1..]);
    }
  }

  /** At the end, with no job running, the finished ones are the started ones. */
  lemma FinishedAreStarted(s: Pool, j: nat)
    requires Conserved(s) && AllExited(s)
    ensures multiset(s.finished) == multiset(s.started) && |s.started| + |s.jobs| == s.accepted
    ensures j in s.finished <==> j < |s.started|
  {
    NothingRuns(s.workers);
    assert multiset(s.finished) == multiset(s.started);
    assert |s.started + s.jobs| == s.accepted;
    assert forall i :: 0 <= i < |s.started| ==> s.started[i] == (s.started + s.jobs)[i] == i;
    assert j in s.finished <==> j in multiset(s.finished);
    assert j in s.started <==> j in multiset(s.started);
    if j < |s.started| {
      assert s.started[j] == j;
    }
  }

  /** The last worker leaves an empty queue, so whatever was accepted while one was there has started by then. */
  lemma {:induction false} StartedByExit(s: Pool, run: seq<Step>, a: nat)
    requires Conserved(s) && Alive(s) && ValidRun(s, run) && AllExited(After(s, run))
    requires a <= s.accepted && (AllExited(s) ==> |s.started| >= a)
    ensures |After(s, run).started| >= a
    decreases |run|
  {
    if run != [] {
      ConservedStep(s, run[0]);
      AliveStep(s, run[0]);
      LastExit(s, run[0]);
      hide Apply, Enabled, Conserved, Alive, AllExited;
      StartedByExit(Apply(s, run[0]), run[1..], a);
    }
  }

  lemma LastExit(s: Pool, step: Step)
    requires Conserved(s) && Enabled(s, step)
    ensures var t := Apply(s, step);
            && t.accepted >= s.accepted && |t.started| >= |s.started|
            && (AllExited(s) ==> AllExited(t) && t.started == s.started)
            && (AllExited(t) && !AllExited(s) ==> t.jobs == s.jobs == [] && |t.started| == t.accepted)
            && (AllExited(s) ==> s.jobs <= t.jobs)
  {
    var t := Apply(s, step);
    assert |s.started + s.jobs| == s.accepted;
    if AllExited(t) && !AllExited(s) {
      var i :| 0 <= i < |s.workers| && s.workers[i] != Exited;
      assert t.workers[i] == Exited;
      assert step == Section(i);
    }
  }

  /** Exactly which jobs run: a job accepted in state `s` of any run has finished at the end of any continuation with
      all workers exited if and only if some worker had not exited in `s`. */
  lemma JobRunsExactly(n: nat, limit: nat, before: seq<Step>, after: seq<Step>)
    requires ValidRun(Initial(n, limit), before)
    requires var s := After(Initial(n, limit), before);
             (s.limit == 0 || |s.jobs| < s.limit) && ValidRun(Apply(s, Enqueue), after) && AllExited(After(Apply(s, Enqueue), after))
    ensures var s := After(Initial(n, limit), before);
            s.accepted in After(Apply(s, Enqueue), after).finished <==> !AllExited(s)
  {
    InitialHolds(n, limit);
    InvariantOverRuns(Initial(n, limit), before);
    var s := After(Initial(n, limit), before);
    var t := Apply(s, Enqueue);
    ConservedStep(s, Enqueue);
    AliveStep(s, Enqueue);
    InvariantOverRuns(t, after);
    FinishedAreStarted(After(t, after), s.accepted);
    assert |s.started + s.jobs| == s.accepted;
    assert t.workers == s.workers;
    if AllExited(s) {
      ExitedForGood(t, after);
    } else {
      StartedByExit(t, after, t.accepted);
    }
  }

  /** Every job of the run was accepted while a worker was there. */
  predicate NoneTooLate(s: Pool, run: seq<Step>)
    requires ValidRun(s, run)
    decreases |run|
  {
    run == [] || ((run[0] == Enqueue && AllExited(s) ==> 0 < s.limit <= |s.jobs|) && NoneTooLate(Apply(s, run[0]), run[1..]))
  }

  lemma {:induction false} LeftOverExactly(s: Pool, run: seq<Step>)
    requires Conserved(s) && Alive(s) && ValidRun(s, run) && AllExited(After(s, run)) && (AllExited(s) ==> s.jobs == [])
    ensures After(s, run).jobs == [] <==> NoneTooLate(s, run)
    decreases |run|
  {
    if run != [] {
      var t := Apply(s, run[0]);
      ConservedStep(s, run[0]);
      AliveStep(s, run[0]);
      LastExit(s, run[0]);
      if run[0] == Enqueue && AllExited(s) && (s.limit == 0 || |s.jobs| < s.limit) {
        StaysQueued(t, run[1..]);
      } else {
        assert AllExited(s) ==> t.jobs == [];
        hide Apply, Enabled, Conserved, Alive, AllExited;
        LeftOverExactly(t, run[1..]);
      }
    }
  }

  lemma {:induction false} StaysQueued(s: Pool, run: seq<Step>)
    requires Conserved(s) && AllExited(s) && ValidRun(s, run)
    ensures s.jobs <= After(s, run).jobs
    decreases |run|
  {
    if run != [] {
      ConservedStep(s, run[0]);
      LastExit(s, run[0]);
      hide Apply, Enabled, Conserved, AllExited;
      StaysQueued(Apply(s, run[0]), run[1..]);
    }
  }

  /** When all workers have exited, every accepted job has finished if and only if none was accepted after the last
      of them had gone. That nothing was enqueued after shutdown began is enough. */
  lemma AllFinished(n: nat, limit: nat, run: seq<Step>)
    requires ValidRun(Initial(n, limit), run) && AllExited(After(Initial(n, limit), run))
    ensures var s := After(Initial(n, limit), run);
            && (multiset(s.finished) == multiset(UpTo(s.accepted)) <==> NoneTooLate(Initial(n, limit), run))
            && (n >= 1 && NoneAfterShutdown(false, run) ==> NoneTooLate(Initial(n, limit), run))
  {
    ShutdownSeen(Initial(n, limit), run);
    hide NoneAfterShutdown;
    InitialHolds(n, limit);
    InvariantOverRuns(Initial(n, limit), run);
    var s := After(Initial(n, limit), run);
    LeftOverExactly(Initial(n, limit), run);
    FinishedAreStarted(s, 0);
    assert n >= 1 ==> s.workers[0] == Exited;
    assert multiset(s.started + s.jobs) == multiset(s.started) + multiset(s.jobs);
    if s.jobs != [] {
      assert |multiset(s.jobs)| > 0;
    } else {
      assert s.started + s.jobs == s.started;
    }
  }

  /** Nothing more to do for workers or notifiers, short of a spurious wake-up. */
  predicate Quiet(s: Pool) {
    && s.owed == 0 && !s.owedAll
    && forall i :: 0 <= i < |s.workers| ==> !Active(s.workers[i])
  }

  /** No wake-up is lost: a pool with workers comes to rest only with an empty queue, and after shutdown only
      when all workers have exited, so that joining them returns. */
  lemma NoLostWakeup(n: nat, limit: nat, run: seq<Step>)
    requires n >= 1 && ValidRun(Initial(n, limit), run)
    requires Quiet(After(Initial(n, limit), run))
    ensures var s := After(Initial(n, limit), run);
            && (s.jobs != [] || Shutdown in run ==> AllExited(s))
            && (s.jobs != [] ==> !NoneAfterShutdown(false, run))
  {
    ShutdownSeen(Initial(n, limit), run);
    hide NoneAfterShutdown;
    InitialHolds(n, limit);
    InvariantOverRuns(Initial(n, limit), run);
    var s := After(Initial(n, limit), run);
    if s.jobs != [] {
      assert s.workers[0] == Exited;
    }
    if s.shutdown {
      forall i | 0 <= i < |s.workers| ensures s.workers[i] == Exited {
        assert !Active(s.workers[i]);
      }
    }
  }

  // ---------------------------------------------------------------- coming to rest

  /** A step that the pool takes by itself: nobody hands in a job or shuts down, and no worker wakes for nothing. */
  predicate OwnStep(step: Step) { step.NotifyOne? || step.NotifyNobody? || step.NotifyAll? || step.Section? || step.Finish? }

  predicate OwnRun(run: seq<Step>) { forall i :: 0 <= i < |run| ==> OwnStep(run[i]) }

  function Weight(w: Worker): nat { match w case Awake => 1 case Running(_) => 2 case _ => 0 }

  function Weights(ws: seq<Worker>): nat {
    if ws == [] then 0 else Weights(ws[..|ws| - 1]) + Weight(ws[|ws| - 1])
  }

  /** How many steps of its own the pool can take at most. */
  function Work(s: Pool): nat {
    2 * |s.jobs| + 2 * s.owed + (if s.owedAll then |s.workers| + 1 else 0) + Weights(s.workers)
  }

  lemma {:induction false} WeightsUpdate(ws: seq<Worker>, i: nat, w: Worker)
    requires i < |ws|
    ensures Weights(ws[i := w]) + Weight(ws[i]) == Weights(ws) + Weight(w)
  {
    var n, vs := |ws| - 1, ws[i := w];
    if i < n {
      WeightsUpdate(ws[..n], i, w);
      assert vs[..n] == ws[..n][i := w];
    } else {
      assert vs[..n] == ws[..n];
    }
  }

  lemma {:induction false} WeightsWoken(ws: seq<Worker>)
    ensures Weights(WakeAll(ws)) <= Weights(ws) + |ws|
  {
    if ws != [] {
      var n := |ws| - 1;
      WeightsWoken(ws[..n]);
      assert WakeAll(ws)[..n] == WakeAll(ws[..n]);
    }
  }

  lemma WorkShrinks(s: Pool, step: Step)
    requires Enabled(s, step) && OwnStep(step)
    ensures Work(Apply(s, step)) < Work(s)
  {
    hide Weights, WakeAll;
    match step
    case NotifyOne(w) => WeightsUpdate(s.workers, w, Awake);
    case NotifyAll => WeightsWoken(s.workers);
    case Section(i) => WeightsUpdate(s.workers, i, Apply(s, step).workers[i]);
    case Finish(i) => WeightsUpdate(s.workers, i, Awake);
    case _ =>
  }

  /** In every state that is not quiet some step of the pool's own can be taken, and in a quiet one none. */
  lemma CanGoOn(s: Pool)
    ensures (exists step :: OwnStep(step) && Enabled(s, step)) <==> !Quiet(s)
  {
    if s.owed > 0 {
      if i :| 0 <= i < |s.workers| && s.workers[i] == Asleep {
        assert Enabled(s, NotifyOne(i));
      } else {
        assert Enabled(s, NotifyNobody);
      }
    } else if s.owedAll {
      assert Enabled(s, NotifyAll);
    } else if i :| 0 <= i < |s.workers| && Active(s.workers[i]) {
      assert Enabled(s, Section(i)) || Enabled(s, Finish(i));
    }
  }

  lemma {:induction false} OwnRunShort(s: Pool, run: seq<Step>)
    requires ValidRun(s, run) && OwnRun(run)
    ensures |run| <= Work(s) && After(s, run).accepted == s.accepted && After(s, run).late == s.late
    ensures After(s, run).shutdown == s.shutdown
    decreases |run|
  {
    if run != [] {
      WorkShrinks(s, run[0]);
      OwnKeeps(s, run[0]);
      hide Apply, Enabled, Work;
      OwnRunShort(Apply(s, run[0]), run[1..]);
    }
  }

  lemma OwnKeeps(s: Pool, step: Step)
    requires Enabled(s, step) && OwnStep(step)
    ensures var t := Apply(s, step); t.accepted == s.accepted && t.late == s.late && t.shutdown == s.shutdown
  {
  }

  /** Left to itself, the pool comes to rest from every state of every run within a bounded number of steps, whoever
      is scheduled when; by then every accepted job has finished, unless one was handed in after shutdown began,
      and after a shutdown all workers have exited. */
  lemma EveryJobFinishes(n: nat, limit: nat, before: seq<Step>, run: seq<Step>)
    requires n >= 1 && ValidRun(Initial(n, limit), before)
    requires var s := After(Initial(n, limit), before); ValidRun(s, run) && OwnRun(run)
    ensures var s := After(Initial(n, limit), before); var t := After(s, run);
            && |run| <= Work(s)
            && (|run| == Work(s) ==> Quiet(t))
            && (Quiet(t) && NoneAfterShutdown(false, before) ==> multiset(t.finished) == multiset(UpTo(s.accepted)))
            && (Quiet(t) && Shutdown in before ==> AllExited(t))
  {
    ShutdownSeen(Initial(n, limit), before);
    hide NoneAfterShutdown;
    var s := After(Initial(n, limit), before);
    var t := After(s, run);
    InitialHolds(n, limit);
    InvariantOverRuns(Initial(n, limit), before);
    InvariantOverRuns(s, run);
    OwnRunShort(s, run);
    CanGoOn(t);
    hide Conserved, Alive, Quiet, Enabled, Apply, ValidRun, After, Work, OwnRun, AllExited;
    if |run| == Work(s) && !Quiet(t) {
      var step :| OwnStep(step) && Enabled(t, step);
      OneMore(s, run, step);
      OwnRunShort(s, run + [step]);
    }
    if Quiet(t) {
      AtRest(t);
    }
  }

  lemma {:induction false} OneMore(s: Pool, run: seq<Step>, step: Step)
    requires ValidRun(s, run) && Enabled(After(s, run), step) && OwnRun(run) && OwnStep(step)
    ensures ValidRun(s, run + [step]) && OwnRun(run + [step])
    decreases |run|
  {
    hide Apply, Enabled;
    if run != [] {
      OneMore(Apply(s, run[0]), run[1..], step);
      assert (run + [step])[1..] == run[1..] + [step];
    } else {
      assert run + [step] == [step] && [step][1..] == [];
    }
  }

  /** What a quiet pool with a worker looks like. */
  lemma AtRest(t: Pool)
    requires Conserved(t) && Alive(t) && Quiet(t) && t.workers != []
    ensures !t.late ==> multiset(t.finished) == multiset(UpTo(t.accepted))
    ensures t.shutdown ==> AllExited(t)
  {
    NothingRuns(t.workers);
    if t.shutdown {
      forall i | 0 <= i < |t.workers| ensures t.workers[i] == Exited {
        assert !Active(t.workers[i]);
      }
    }
    var w := t.workers[0];
    assert !Active(w) && (w == Exited || w == Asleep);
    if !t.late {
      assert t.started + [] == t.started;
    }
  }

  /** `enqueue` does not look at the shutdown flag: a job handed in after the workers left is accepted, and in
      no continuation does it start. */
  lemma LateJobIsLost(s: Pool, run: seq<Step>)
    requires AllExited(s) && (s.limit == 0 || |s.jobs| < s.limit) && Conserved(s)
    requires ValidRun(Apply(s, Enqueue), run)
    ensures After(Apply(s, Enqueue), run).started == s.started
    ensures s.accepted in Apply(s, Enqueue).jobs && s.accepted !in After(Apply(s, Enqueue), run).started
  {
    var t := Apply(s, Enqueue);
    assert t.jobs[|s.jobs|] == s.accepted;
    ExitedForGood(t, run);
    assert forall i :: 0 <= i < |s.started| ==> s.started[i] == UpTo(s.accepted)[i];
  }

  // ---------------------------------------------------------------- the object

  /** `ThreadPool`'s shared state and the sections that run under its mutex. */
  class Queue {
    var jobs: seq<nat>
    var shutdown: bool
    const maxQueuedRequests: nat

    constructor (maxQueuedRequests: nat)
      ensures jobs == [] && !shutdown && this.maxQueuedRequests == maxQueuedRequests
    {
      this.maxQueuedRequests := maxQueuedRequests;
      jobs, shutdown := [], false;
    }

    /** The shared part of a pool state. */
    predicate Shows(s: Pool)
      reads this
    {
      s.jobs == jobs && s.shutdown == shutdown && s.limit == maxQueuedRequests
    }

    method EnqueueJob(fn: nat, ghost s: Pool) returns (ok: bool)
      requires Shows(s) && fn == s.accepted
      modifies this`jobs
      ensures Shows(Apply(s, Enqueue))
      ensures ok <==> s.limit == 0 || |s.jobs| < s.limit
    {
      if maxQueuedRequests > 0 && |jobs| >= maxQueuedRequests { return false; }
      jobs := jobs + [fn];
      ok := true;
    }

    method BeginShutdown(ghost s: Pool)
      requires Shows(s)
      modifies this`shutdown
      ensures Shows(Apply(s, Shutdown))
    {
      shutdown := true;
    }

    /** A worker's section under the lock, up to the wait or the end of the section. */
    method Take(i: nat, ghost s: Pool) returns (w: Worker)
      requires Shows(s) && Enabled(s, Section(i))
      modifies this`jobs
      ensures Shows(Apply(s, Section(i))) && w == Apply(s, Section(i)).workers[i]
    {
      if jobs == [] && !shutdown { return Asleep; }
      if shutdown && jobs == [] { return Exited; }
      w := Running(jobs[0]);
      jobs := jobs[1..];
    }
  }
}
