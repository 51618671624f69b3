/** Every interleaving of the pool's workers, its outside pushers and one `join`, with the
    stop flag unset. The queue is the first-in first-out sequence that module TaskRing's
    shared state is proved to be; each step is one locked section, one unlocked read or one
    action of a task. */
module ThreadPoolRuns {

  /** Where a worker stands in `thread_body`: before its locked section, inside its task,
      after it, between its two unlocked reads of the join flag and of the count, or gone. */
  datatype Phase<T> = Idle | Running(task: T) | Ran | SawJoin | Exited

  datatype Pool<T> = Pool(queue: seq<T>, joined: bool, workers: seq<Phase<T>>,
                          pushLog: seq<T>, startLog: seq<T>, done: multiset<T>)

  datatype Event<T> =
    | OutsidePush(task: T)
    | TaskPush(w: nat, task: T)
    | Join
    | Take(w: nat)
    | LeaveEmpty(w: nat)
    | Finish(w: nat)
    | ReadJoin(w: nat)
    | ReadCount(w: nat)

  ghost function Start<T>(workers: nat): Pool<T> {
    Pool([], false, seq(workers, _ => Idle), [], [], multiset{})
  }

  ghost function Push<T>(s: Pool<T>, x: T): Pool<T> {
    s.(queue := s.queue + [x], pushLog := s.pushLog + [x])
  }

  ghost function SetPhase<T>(s: Pool<T>, w: nat, ph: Phase<T>): Pool<T>
    requires w < |s.workers|
  {
    s.(workers := s.workers[w := ph])
  }

  ghost predicate At<T(!new)>(s: Pool<T>, w: nat, ph: Phase<T>) {
    w < |s.workers| && s.workers[w] == ph
  }

  ghost predicate Next<T(!new)>(s: Pool<T>, ev: Event<T>, s': Pool<T>) {
    match ev
    case OutsidePush(x) => s' == Push(s, x)
    case TaskPush(w, x) => w < |s.workers| && s.workers[w].Running? && s' == Push(s, x)
    case Join => s' == s.(joined := true)
    case Take(w) =>
      && At(s, w, Idle) && s.queue != []
      && s' == SetPhase(s, w, Running(s.queue[0])).(queue := s.queue[1..], startLog := s.startLog + [s.queue[0]])
    case LeaveEmpty(w) => At(s, w, Idle) && s.joined && s.queue == [] && s' == SetPhase(s, w, Exited)
    case Finish(w) =>
      && w < |s.workers| && s.workers[w].Running?
      && s' == SetPhase(s, w, Ran).(done := s.done + multiset{s.workers[w].task})
    case ReadJoin(w) => At(s, w, Ran) && s' == SetPhase(s, w, if s.joined then SawJoin else Idle)
    case ReadCount(w) => At(s, w, SawJoin) && s' == SetPhase(s, w, if s.queue == [] then Exited else Idle)
  }

  ghost predicate IsRun<T(!new)>(xs: seq<Pool<T>>, evs: seq<Event<T>>, workers: nat) {
    && |xs| == |evs| + 1
    && xs[0] == Start(workers)
    && forall i | 0 <= i < |evs| :: Next(xs[i], evs[i], xs[i + 1])
  }

  // ---- Conservation

  ghost function One<T>(ph: Phase<T>): multiset<T> {
    if ph.Running? then multiset{ph.task} else multiset{}
  }

  ghost function InTasks<T>(workers: seq<Phase<T>>): multiset<T> {
    if workers == [] then multiset{}
    else InTasks(workers[..|workers| - 1]) + One(workers[|workers| - 1])
  }

  lemma {:induction false} InTasksUpdate<T>(workers: seq<Phase<T>>, w: nat, ph: Phase<T>)
    requires w < |workers|
    ensures InTasks(workers[w := ph]) + One(workers[w]) == InTasks(workers) + One(ph)
    decreases |workers|
  {
    hide One;
    var n := |workers| - 1;
    if w == n {
      assert workers[w := ph][..n] == workers[..n];
    } else {
      InTasksUpdate(workers[..n], w, ph);
      var updated := workers[w := ph];
      assert updated[..n] == workers[..n][w := ph];
      assert InTasks(updated) == InTasks(updated[..n]) + One(workers[n]);
      assert InTasks(workers) == InTasks(workers[..n]) + One(workers[n]);
      AddToBoth(InTasks(updated[..n]), One(workers[w]), InTasks(workers[..n]), One(ph), One(workers[n]));
    }
  }

  lemma AddToBoth<T>(a: multiset<T>, b: multiset<T>, c: multiset<T>, d: multiset<T>, e: multiset<T>)
    requires a + b == c + d
    ensures (a + e) + b == (c + e) + d
  {
    assert (a + e) + b == (a + b) + e;
  }

  lemma {:induction false} NoneInTasks<T(!new)>(workers: seq<Phase<T>>)
    requires forall w | 0 <= w < |workers| :: !workers[w].Running?
    ensures InTasks(workers) == multiset{}
  {
    if workers != [] {
      NoneInTasks(workers[..|workers| - 1]);
    }
  }

  ghost predicate Conserved<T>(s: Pool<T>) {
    && s.pushLog == s.startLog + s.queue
    && multiset(s.startLog) == InTasks(s.workers) + s.done
  }

  /** A worker that has seen the join flag, or left, proves that it is set. */
  ghost predicate JoinSeen<T(!new)>(s: Pool<T>) {
    forall w | 0 <= w < |s.workers| && (s.workers[w].SawJoin? || s.workers[w].Exited?) :: s.joined
  }

  /** A worker that changes phase without starting or ending a task. */
  lemma PhaseConserves<T(!new)>(s: Pool<T>, w: nat, ph: Phase<T>)
    requires Conserved(s) && w < |s.workers| && One(s.workers[w]) == One(ph)
    ensures Conserved(SetPhase(s, w, ph))
  {
    hide One, InTasks;
    InTasksUpdate(s.workers, w, ph);
    Cancel(InTasks(s.workers[w := ph]), InTasks(s.workers), One(ph));
  }

  lemma Cancel<T>(a: multiset<T>, b: multiset<T>, c: multiset<T>)
    requires a + c == b + c
    ensures a == b
  {
    assert (a + c) - c == a;
    assert (b + c) - c == b;
  }

  lemma TakeConserves<T(!new)>(s: Pool<T>, w: nat)
    requires Conserved(s) && At(s, w, Idle) && s.queue != []
    ensures Conserved(SetPhase(s, w, Running(s.queue[0])).(queue := s.queue[1..], startLog := s.startLog + [s.queue[0]]))
  {
    hide InTasks;
    var x := s.queue[0];
    InTasksUpdate(s.workers, w, Running(x));
    assert InTasks(s.workers[w := Running(x)]) == InTasks(s.workers) + multiset{x};
    assert s.queue == [x] + s.queue[1..];
    assert s.startLog + ([x] + s.queue[1..]) == (s.startLog + [x]) + s.queue[1..];
  }

  lemma FinishConserves<T(!new)>(s: Pool<T>, w: nat)
    requires Conserved(s) && w < |s.workers| && s.workers[w].Running?
    ensures Conserved(SetPhase(s, w, Ran).(done := s.done + multiset{s.workers[w].task}))
  {
    hide InTasks;
    var x := s.workers[w].task;
    InTasksUpdate(s.workers, w, Ran);
    assert InTasks(s.workers) == InTasks(s.workers[w := Ran]) + multiset{x};
  }

  lemma PushConserves<T(!new)>(s: Pool<T>, x: T)
    requires Conserved(s)
    ensures Conserved(Push(s, x))
  {
    hide InTasks;
    assert s.startLog + (s.queue + [x]) == s.startLog + s.queue + [x];
  }

  lemma NextConserves<T(!new)>(s: Pool<T>, ev: Event<T>, s': Pool<T>)
    requires Conserved(s) && Next(s, ev, s')
    ensures Conserved(s')
  {
    hide Conserved, InTasks;
    match ev
    case OutsidePush(x) => PushConserves(s, x);
    case TaskPush(w, x) => PushConserves(s, x);
    case Join => JoinConserves(s);
    case Take(w) => TakeConserves(s, w);
    case Finish(w) => FinishConserves(s, w);
    case LeaveEmpty(w) => PhaseConserves(s, w, Exited);
    case ReadJoin(w) => PhaseConserves(s, w, s'.workers[w]);
    case ReadCount(w) => PhaseConserves(s, w, s'.workers[w]);
  }

  lemma JoinConserves<T(!new)>(s: Pool<T>)
    requires Conserved(s)
    ensures Conserved(s.(joined := true))
  {
  }

  lemma NextKeepsJoinSeen<T(!new)>(s: Pool<T>, ev: Event<T>, s': Pool<T>)
    requires JoinSeen(s) && Next(s, ev, s')
    ensures JoinSeen(s') && |s'.workers| == |s.workers|
  {
  }

  lemma {:induction false} RunInvariant<T(!new)>(xs: seq<Pool<T>>, evs: seq<Event<T>>, workers: nat, n: nat)
    requires IsRun(xs, evs, workers) && n < |xs|
    ensures Conserved(xs[n]) && JoinSeen(xs[n]) && |xs[n].workers| == workers
  {
    hide Next, Conserved, JoinSeen;
    if n == 0 {
      StartIsFine<T>(workers);
    } else {
      RunInvariant(xs, evs, workers, n - 1);
      assert Next(xs[n - 1], evs[n - 1], xs[n]);
      NextConserves(xs[n - 1], evs[n - 1], xs[n]);
      NextKeepsJoinSeen(xs[n - 1], evs[n - 1], xs[n]);
    }
  }

  lemma StartIsFine<T(!new)>(workers: nat)
    ensures Conserved(Start<T>(workers)) && JoinSeen(Start<T>(workers)) && |Start<T>(workers).workers| == workers
  {
    NoneInTasks(Start<T>(workers).workers);
  }

  /** Over every run the pushed tasks are exactly those queued, running or done, each as
      often as it was pushed, and they start in the order they were pushed. */
  lemma EveryTaskAccountedFor<T(!new)>(xs: seq<Pool<T>>, evs: seq<Event<T>>, workers: nat, n: nat)
    requires IsRun(xs, evs, workers) && n < |xs|
    ensures xs[n].pushLog == xs[n].startLog + xs[n].queue
    ensures multiset(xs[n].pushLog) == multiset(xs[n].queue) + InTasks(xs[n].workers) + xs[n].done
  {
    RunInvariant(xs, evs, workers, n);
  }

  // ---- Completion

  ghost predicate AllExited<T(!new)>(s: Pool<T>) {
    forall w | 0 <= w < |s.workers| :: s.workers[w].Exited?
  }

  /** The last worker to leave saw an empty queue, and afterwards nothing is taken. */
  lemma NextOnceExited<T(!new)>(s: Pool<T>, ev: Event<T>, s': Pool<T>)
    requires Next(s, ev, s') && |s.workers| > 0
    ensures AllExited(s) ==> AllExited(s') && s.queue <= s'.queue
    ensures AllExited(s) && ev.OutsidePush? ==> s'.queue != []
    ensures AllExited(s') && !AllExited(s) ==> s'.queue == []
    ensures AllExited(s') && AllExited(s) && !ev.OutsidePush? ==> s'.queue == s.queue
  {
    if AllExited(s') && !AllExited(s) {
      var w :| 0 <= w < |s.workers| && !s.workers[w].Exited?;
      assert s'.workers[w].Exited?;
    }
    if AllExited(s) {
      assert s.workers[0].Exited?;
    }
  }

  /** Some outside push came when every worker had already left. */
  ghost predicate PushedTooLate<T(!new)>(xs: seq<Pool<T>>, evs: seq<Event<T>>, n: nat)
    requires |xs| == |evs| + 1 && n < |xs|
  {
    exists i :: 0 <= i < n && evs[i].OutsidePush? && AllExited(xs[i])
  }

  lemma {:induction false} QueueAtTheEnd<T(!new)>(xs: seq<Pool<T>>, evs: seq<Event<T>>, workers: nat, n: nat)
    requires IsRun(xs, evs, workers) && n < |xs| && workers > 0
    ensures PushedTooLate(xs, evs, n) ==> AllExited(xs[n])
    ensures AllExited(xs[n]) ==> (xs[n].queue == [] <==> !PushedTooLate(xs, evs, n))
  {
    hide Next, AllExited;
    if n == 0 {
      NoneExitedAtStart<T>(workers);
    } else {
      QueueAtTheEnd(xs, evs, workers, n - 1);
      RunInvariant(xs, evs, workers, n - 1);
      assert Next(xs[n - 1], evs[n - 1], xs[n]);
      NextOnceExited(xs[n - 1], evs[n - 1], xs[n]);
      LatePushStep(xs, evs, n);
    }
  }

  lemma NoneExitedAtStart<T(!new)>(workers: nat)
    requires workers > 0
    ensures !AllExited(Start<T>(workers))
  {
    assert Start<T>(workers).workers[0] == Idle;
  }

  lemma LatePushStep<T(!new)>(xs: seq<Pool<T>>, evs: seq<Event<T>>, n: nat)
    requires |xs| == |evs| + 1 && 0 < n < |xs|
    ensures PushedTooLate(xs, evs, n) <==>
      PushedTooLate(xs, evs, n - 1) || (evs[n - 1].OutsidePush? && AllExited(xs[n - 1]))
  {
    hide AllExited;
    if PushedTooLate(xs, evs, n) {
      var i :| 0 <= i < n && evs[i].OutsidePush? && AllExited(xs[i]);
      if i < n - 1 {
        assert PushedTooLate(xs, evs, n - 1);
      }
    }
  }

  /** Once every worker has left, every pushed task has run exactly as often as it was
      pushed if and only if no outside push came after the last worker left; this covers
      the tasks that running tasks push. */
  lemma AllRunExactlyOnce<T(!new)>(xs: seq<Pool<T>>, evs: seq<Event<T>>, workers: nat, n: nat)
    requires IsRun(xs, evs, workers) && n < |xs| && workers > 0 && AllExited(xs[n])
    ensures xs[n].done == multiset(xs[n].pushLog) <==> !PushedTooLate(xs, evs, n)
  {
    EveryTaskAccountedFor(xs, evs, workers, n);
    QueueAtTheEnd(xs, evs, workers, n);
    NoneInTasks(xs[n].workers);
    if xs[n].queue != [] {
      assert xs[n].queue[0] in multiset(xs[n].queue);
      assert |multiset(xs[n].pushLog)| == |xs[n].queue| + |xs[n].done|;
    }
  }

  /** Callers that stop pushing before `join` get every task run. */
  lemma JoinRunsEverything<T(!new)>(xs: seq<Pool<T>>, evs: seq<Event<T>>, workers: nat, n: nat)
    requires IsRun(xs, evs, workers) && n < |xs| && workers > 0 && AllExited(xs[n])
    requires forall i | 0 <= i < n && evs[i].OutsidePush? :: !xs[i].joined
    ensures xs[n].done == multiset(xs[n].pushLog) && xs[n].queue == []
  {
    forall i | 0 <= i < n && evs[i].OutsidePush?
      ensures !AllExited(xs[i])
    {
      RunInvariant(xs, evs, workers, i);
      assert !xs[i].joined;
      assert !xs[i].workers[0].Exited?;
    }
    AllRunExactlyOnce(xs, evs, workers, n);
    QueueAtTheEnd(xs, evs, workers, n);
  }

  /** The condition is not idle: a push after the last worker left is reachable, and the
      task is then never run. */
  lemma LatePushIsReachable<T(!new)>(x: T) returns (xs: seq<Pool<T>>, evs: seq<Event<T>>)
    ensures IsRun(xs, evs, 1) && AllExited(xs[|evs|]) && PushedTooLate(xs, evs, |evs|)
    ensures xs[|evs|].queue == [x] && xs[|evs|].done == multiset{}
  {
    var s0 := Start<T>(1);
    var s1 := s0.(joined := true);
    var s2 := SetPhase(s1, 0, Exited);
    var s3 := Push(s2, x);
    xs, evs := [s0, s1, s2, s3], [Join, LeaveEmpty(0), OutsidePush(x)];
    assert Next(s0, Join, s1) && Next(s1, LeaveEmpty(0), s2) && Next(s2, OutsidePush(x), s3);
    assert evs[2].OutsidePush? && AllExited(xs[2]);
  }
}
