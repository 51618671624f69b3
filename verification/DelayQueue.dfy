/** The timed queue of delay_queue.hpp: one object whose methods are the sections that run
    under its mutex, and the runs of any number of threads over it. Waking up is left to
    the environment: a waiting thread may wake for any reason, or for none. */
module DelayQueues {
  import opened PriorityQueues
  import opened Wrappers

  datatype Entry<E> = Entry(value: E, due: int) {
    predicate Expired(now: int): (r: bool)
      ensures r <==> due <= now
    {
      due - now <= 0
    }
  }

  /** The heap compares remaining delays; with one clock reading that compares deadlines. */
  function Sooner<E>(): (Entry<E>, Entry<E>) -> bool {
    (a: Entry<E>, b: Entry<E>) => a.due < b.due
  }

  datatype Outcome<E> = Returned(entry: Entry<E>) | Threw | Waits

  /** The variables that the mutex guards. */
  datatype Guarded<E(==)> = Guarded(held: multiset<Entry<E>>, interrupted: bool, nrWaiting: nat)

  /** One pass of the loop in `pop`, from taking the mutex to giving it up. */
  ghost predicate Attempt<E(!new)>(s: Guarded<E>, now: int, o: Outcome<E>, s': Guarded<E>) {
    if s.interrupted then
      o == Threw && s' == s.(interrupted := s.nrWaiting != 0)
    else if exists e :: e in s.held && e.Expired(now) then
      && o.Returned? && o.entry in s.held && o.entry.Expired(now)
      && (forall e | e in s.held :: o.entry.due <= e.due)
      && s' == s.(held := s.held - multiset{o.entry})
    else
      o == Waits && s' == s.(nrWaiting := s.nrWaiting + 1)
  }

  // ---- The queue object

  class DelayQueue<E(!new)> {
    const q: PriorityQueue<Entry<E>>
    var interrupted: bool
    var nrWaiting: nat

    ghost predicate Valid()
      reads this, q
    {
      q.Valid() && q.better == Sooner()
    }

    ghost function State(): Guarded<E>
      reads this, q
    {
      Guarded(multiset(q.v), interrupted, nrWaiting)
    }

    constructor ()
      ensures Valid() && fresh(q) && State() == Guarded(multiset{}, false, 0)
    {
      q := new PriorityQueue(Sooner());
      interrupted, nrWaiting := false, 0;
    }

    /** `push`. Its test of whether to notify reads what stands at the old top's address after
        the heap has changed: `stale` is what is found there if the vector has moved its
        storage. If it has not, the new top stands there, and no entry is sooner than that. */
    method Push(value: E, delay: int, now: int, stale: Option<Entry<E>>) returns (notified: bool)
      requires Valid()
      modifies q
      ensures Valid()
      ensures State() == old(State()).(held := old(State()).held + multiset{Entry(value, now + delay)})
      ensures notified <==> old(State()).held == multiset{} || (stale.Some? && now + delay < stale.value.due)
    {
      hide Heap, StrictWeak;
      var delayed := Entry(value, now + delay);
      var first := q.v != [];
      ghost var u := q.v;
      q.Push(delayed);
      var top := if stale.Some? then stale.value else q.Top();
      NoneSooner(q.v, q.Top(), now);
      EmptyHeld(u);
      assert delayed in multiset(q.v);
      notified := !first || delayed.due < top.due;
    }

    method Interrupt()
      requires Valid()
      modifies `interrupted
      ensures Valid()
      ensures State() == if old(nrWaiting) > 0 then old(State()).(interrupted := true) else old(State())
    {
      if nrWaiting > 0 {
        interrupted := true;
      }
    }

    /** The loop body of `pop`; `Waits` stands for giving the mutex up on the condition. */
    method TryPop(now: int) returns (o: Outcome<E>)
      requires Valid()
      modifies this, q
      ensures Valid() && Attempt(old(State()), now, o, State())
      ensures !old(interrupted) ==> (o.Returned? <==> exists e :: e in old(State()).held && e.due <= now)
    {
      hide Heap, StrictWeak;
      if interrupted {
        interrupted := nrWaiting != 0;
        return Threw;
      }
      if q.v == [] {
        nrWaiting := nrWaiting + 1;
        return Waits;
      }
      ghost var u := q.v;
      var first := q.Top();
      NoneSooner(u, first, now);
      if !first.Expired(now) {
        nrWaiting := nrWaiting + 1;
        return Waits;
      }
      assert u[0] in multiset(u);
      var actual := q.Pop();
      NoneSooner(u, actual, now);
      return Returned(actual);
    }

    /** What a thread does once its wait is over. */
    method Resume(now: int) returns (o: Outcome<E>)
      requires Valid() && nrWaiting > 0
      modifies this, q
      ensures Valid() && Attempt(old(State()).(nrWaiting := old(nrWaiting) - 1), now, o, State())
    {
      nrWaiting := nrWaiting - 1;
      o := TryPop(now);
    }
  }

  lemma EmptyHeld<E>(u: seq<Entry<E>>)
    ensures multiset(u) == multiset{} <==> u == []
  {
    if u != [] {
      assert u[0] in multiset(u);
    }
  }

  lemma NoneSooner<E>(u: seq<Entry<E>>, best: Entry<E>, now: int)
    requires Best(Sooner(), u, best)
    ensures forall e | e in multiset(u) :: best.due <= e.due && (e.Expired(now) ==> best.Expired(now))
  {
    forall e | e in multiset(u)
      ensures best.due <= e.due
    {
      var k :| 0 <= k < |u| && u[k] == e;
      assert !Sooner()(u[k], best);
    }
  }

  // ---- Threads over the queue

  type Tid = nat

  datatype Event<E> =
    | PopEv(t: Tid, now: int, o: Outcome<E>)
    | WakeEv(t: Tid, now: int, o: Outcome<E>)
    | PushEv(value: E, delay: int, now: int)
    | InterruptEv

  /** `waiting` holds the threads inside a wait, `marked` those of them that some interrupt
      found there; `pushed` and `returned` record the entries that went in and out. */
  datatype System<E(==)> = System(s: Guarded<E>, waiting: set<Tid>, marked: set<Tid>,
                              pushed: multiset<Entry<E>>, returned: multiset<Entry<E>>)

  ghost function Start<E>(): System<E> {
    System(Guarded(multiset{}, false, 0), {}, {}, multiset{}, multiset{})
  }

  ghost function Out<E>(o: Outcome<E>): multiset<Entry<E>> {
    if o.Returned? then multiset{o.entry} else multiset{}
  }

  ghost predicate Next<E(!new)>(x: System<E>, ev: Event<E>, x': System<E>) {
    match ev
    case PopEv(t, now, o) =>
      && t !in x.waiting
      && Attempt(x.s, now, o, x'.s)
      && x' == System(x'.s, if o.Waits? then x.waiting + {t} else x.waiting, x.marked, x.pushed, x.returned + Out(o))
    case WakeEv(t, now, o) =>
      && t in x.waiting && x.s.nrWaiting > 0
      && Attempt(x.s.(nrWaiting := x.s.nrWaiting - 1), now, o, x'.s)
      && x' == System(x'.s, if o.Waits? then x.waiting else x.waiting - {t}, x.marked - {t}, x.pushed, x.returned + Out(o))
    case PushEv(value, delay, now) =>
      var e := Entry(value, now + delay);
      x' == x.(s := x.s.(held := x.s.held + multiset{e}), pushed := x.pushed + multiset{e})
    case InterruptEv =>
      x' == if x.s.nrWaiting > 0 then x.(s := x.s.(interrupted := true), marked := x.waiting) else x
  }

  /** While an interrupt is pending, the waiting threads are exactly the marked ones and
      there is at least one; entries are only ever held or returned. */
  ghost predicate Inv<E>(x: System<E>) {
    && x.s.nrWaiting == |x.waiting|
    && (x.s.interrupted ==> x.waiting != {} && x.marked == x.waiting)
    && (!x.s.interrupted ==> x.marked == {})
    && x.pushed == x.s.held + x.returned
  }

  lemma AttemptCases<E(!new)>(s: Guarded<E>, now: int, o: Outcome<E>, s': Guarded<E>)
    requires Attempt(s, now, o, s')
    ensures s.held == s'.held + Out(o)
    ensures s.interrupted <==> o == Threw
    ensures s'.interrupted <==> s.interrupted && s.nrWaiting != 0
    ensures s'.nrWaiting == s.nrWaiting + if o.Waits? then 1 else 0
  {
  }

  lemma PopKeepsInv<E(!new)>(x: System<E>, ev: Event<E>, x': System<E>)
    requires Inv(x) && Next(x, ev, x') && ev.PopEv?
    ensures Inv(x') && (x.s.interrupted ==> ev.o == Threw) && x'.marked == x.marked
  {
    hide Attempt;
    AttemptCases(x.s, ev.now, ev.o, x'.s);
    assert |x.waiting + {ev.t}| == |x.waiting| + 1;
    assert x'.pushed == x'.s.held + x'.returned;
  }

  lemma WakeKeepsInv<E(!new)>(x: System<E>, ev: Event<E>, x': System<E>)
    requires Inv(x) && Next(x, ev, x') && ev.WakeEv?
    ensures Inv(x') && (x.s.interrupted ==> ev.o == Threw) && x'.marked == x.marked - {ev.t}
  {
    hide Attempt;
    AttemptCases(x.s.(nrWaiting := x.s.nrWaiting - 1), ev.now, ev.o, x'.s);
    assert |x.waiting - {ev.t}| == |x.waiting| - 1;
    assert x'.pushed == x'.s.held + x'.returned;
  }

  lemma NextKeepsInv<E(!new)>(x: System<E>, ev: Event<E>, x': System<E>)
    requires Inv(x) && Next(x, ev, x')
    ensures Inv(x')
    ensures x.s.interrupted && (ev.PopEv? || ev.WakeEv?) ==> ev.o == Threw
    ensures forall t | t in x.marked && t !in x'.marked :: ev == WakeEv(t, ev.now, Threw)
  {
    hide Attempt;
    match ev
    case PopEv(t, now, o) => PopKeepsInv(x, ev, x');
    case WakeEv(t, now, o) => WakeKeepsInv(x, ev, x');
    case PushEv(value, delay, now) =>
    case InterruptEv =>
  }

  ghost predicate IsRun<E(!new)>(xs: seq<System<E>>, evs: seq<Event<E>>) {
    && |xs| == |evs| + 1
    && xs[0] == Start()
    && forall i | 0 <= i < |evs| :: Next(xs[i], evs[i], xs[i + 1])
  }

  lemma {:induction false} RunKeepsInv<E(!new)>(xs: seq<System<E>>, evs: seq<Event<E>>, n: nat)
    requires IsRun(xs, evs) && n < |xs|
    ensures Inv(xs[n])
  {
    hide Next;
    if n > 0 {
      RunKeepsInv(xs, evs, n - 1);
      assert Next(xs[n - 1], evs[n - 1], xs[n]);
      NextKeepsInv(xs[n - 1], evs[n - 1], xs[n]);
    }
  }

  /** Over every run: nothing pushed is lost or returned twice, and a pending interrupt
      always has a waiting thread left to take it. */
  lemma EntriesConserved<E(!new)>(xs: seq<System<E>>, evs: seq<Event<E>>, n: nat)
    requires IsRun(xs, evs) && n < |xs|
    ensures xs[n].pushed == xs[n].s.held + xs[n].returned
    ensures xs[n].s.nrWaiting == |xs[n].waiting|
    ensures xs[n].s.interrupted ==> xs[n].waiting != {}
  {
    RunKeepsInv(xs, evs, n);
  }

  /** A pop returns only what has expired, and nothing held is due earlier. */
  lemma ReturnsEarliestExpired<E(!new)>(xs: seq<System<E>>, evs: seq<Event<E>>, i: nat)
    requires IsRun(xs, evs) && i < |evs|
    requires (evs[i].PopEv? || evs[i].WakeEv?) && evs[i].o.Returned?
    ensures
      var e := evs[i].o.entry;
      && e.due <= evs[i].now && e in xs[i].s.held
      && (forall d | d in xs[i].s.held :: e.due <= d.due)
      && xs[i + 1].s.held == xs[i].s.held - multiset{e}
  {
    assert Next(xs[i], evs[i], xs[i + 1]);
  }

  lemma InterruptMarks<E(!new)>(x: System<E>, x': System<E>, t: Tid)
    requires Inv(x) && Next(x, InterruptEv, x') && t in x.waiting
    ensures t in x'.marked
  {
  }

  lemma MarkedStays<E(!new)>(x: System<E>, ev: Event<E>, x': System<E>, t: Tid)
    requires Inv(x) && Next(x, ev, x') && t in x.marked
    ensures t in x.waiting && x.s.interrupted
    ensures ev.WakeEv? || ev.PopEv? ==> ev.o == Threw
    ensures !(ev.WakeEv? && ev.t == t) ==> t in x'.marked
  {
    hide Next;
    NextKeepsInv(x, ev, x');
  }

  /** Every thread that an interrupt found waiting throws when it next runs, however many
      other events come between, and until it has, no thread gets an entry. */
  lemma {:induction false} InterruptReachesEveryWaiter<E(!new)>(xs: seq<System<E>>, evs: seq<Event<E>>, i: nat, j: nat, t: Tid)
    requires IsRun(xs, evs) && i < j < |evs|
    requires evs[i] == InterruptEv && t in xs[i].waiting
    requires forall k | i < k < j :: !(evs[k].WakeEv? && evs[k].t == t)
    ensures t in xs[j].marked && t in xs[j].waiting && xs[j].s.interrupted
    ensures evs[j].WakeEv? || evs[j].PopEv? ==> evs[j].o == Threw
    decreases j
  {
    hide Next, Inv;
    RunKeepsInv(xs, evs, j - 1);
    RunKeepsInv(xs, evs, j);
    assert Next(xs[j - 1], evs[j - 1], xs[j]);
    assert Next(xs[j], evs[j], xs[j + 1]);
    if j == i + 1 {
      InterruptMarks(xs[i], xs[j], t);
    } else {
      InterruptReachesEveryWaiter(xs, evs, i, j - 1, t);
      MarkedStays(xs[j - 1], evs[j - 1], xs[j], t);
    }
    MarkedStays(xs[j], evs[j], xs[j + 1], t);
  }
}
