/** The spinning reader/writer lock of rwsmutex.hpp: any number of threads, each step one
    atomic action on `ww`, `w`, `r` or `f`. A thread whose spin test fails takes no step. */
module RwsMutexes {

  /** Where a thread stands. Writers go Announced, SawNoReaders, Counted, Queued, Writing,
      Released; readers go Admitted, Joined, Reading. */
  datatype Phase =
    | Out
    | Announced      // ++ww done, spinning on r
    | SawNoReaders   // r was 0, ++w not done yet
    | Counted        // ++w done, --ww not done yet
    | Queued         // spinning on f
    | Writing        // f was clear and is now set
    | Released       // f cleared, --w not done yet
    | Admitted       // ww was 0, ++r not done yet
    | Joined         // ++r done, spinning on w
    | Reading        // w was 0

  datatype Lock = Lock(ww: int, w: int, r: int, f: bool, threads: seq<Phase>)

  datatype Event = BeginWrite(t: nat) | BeginRead(t: nat) | Advance(t: nat) | BeginReadAtomically(t: nat)

  function Start(n: nat): Lock {
    Lock(0, 0, 0, false, seq(n, _ => Out))
  }

  function Moved(s: Lock, t: nat, ph: Phase): Lock
    requires t < |s.threads|
  {
    s.(threads := s.threads[t := ph])
  }

  predicate CanAdvance(s: Lock, t: nat)
    requires t < |s.threads|
  {
    match s.threads[t]
    case Out => false
    case Announced => s.r == 0
    case Queued => !s.f
    case Joined => s.w == 0
    case _ => true
  }

  function Advanced(s: Lock, t: nat): Lock
    requires t < |s.threads| && CanAdvance(s, t)
  {
    match s.threads[t]
    case Announced => Moved(s, t, SawNoReaders)
    case SawNoReaders => Moved(s, t, Counted).(w := s.w + 1)
    case Counted => Moved(s, t, Queued).(ww := s.ww - 1)
    case Queued => Moved(s, t, Writing).(f := true)
    case Writing => Moved(s, t, Released).(f := false)
    case Released => Moved(s, t, Out).(w := s.w - 1)
    case Admitted => Moved(s, t, Joined).(r := s.r + 1)
    case Joined => Moved(s, t, Reading)
    case Reading => Moved(s, t, Out).(r := s.r - 1)
  }

  /** `BeginRead` and the following `Advance` are the source's two separate actions, the
      test of `ww` and the increment of `r`; `BeginReadAtomically` takes them as one. */
  ghost predicate Next(s: Lock, ev: Event, s': Lock) {
    && ev.t < |s.threads|
    && match ev
       case BeginWrite(t) => s.threads[t] == Out && s' == Moved(s, t, Announced).(ww := s.ww + 1)
       case BeginRead(t) => s.threads[t] == Out && s.ww == 0 && s' == Moved(s, t, Admitted)
       case Advance(t) => CanAdvance(s, t) && s' == Advanced(s, t)
       case BeginReadAtomically(t) => s.threads[t] == Out && s.ww == 0 && s' == Moved(s, t, Joined).(r := s.r + 1)
  }

  ghost predicate IsRun(xs: seq<Lock>, evs: seq<Event>) {
    && |xs| == |evs| + 1
    && forall i | 0 <= i < |evs| :: Next(xs[i], evs[i], xs[i + 1])
  }

  // ---- The counters count

  function Count(threads: seq<Phase>, stages: set<Phase>): nat {
    if threads == [] then 0
    else Count(threads[..|threads| - 1], stages) + if threads[|threads| - 1] in stages then 1 else 0
  }

  lemma {:induction false} CountUpdate(threads: seq<Phase>, stages: set<Phase>, t: nat, ph: Phase)
    requires t < |threads|
    ensures Count(threads[t := ph], stages) ==
      Count(threads, stages) + (if ph in stages then 1 else 0) - (if threads[t] in stages then 1 else 0)
  {
    var n := |threads| - 1;
    var updated := threads[t := ph];
    if t == n {
      assert updated[..n] == threads[..n];
    } else {
      CountUpdate(threads[..n], stages, t, ph);
      assert updated[..n] == threads[..n][t := ph];
    }
  }

  lemma {:induction false} CountSome(threads: seq<Phase>, stages: set<Phase>)
    ensures Count(threads, stages) == 0 <==> forall t | 0 <= t < |threads| :: threads[t] !in stages
  {
    if threads != [] {
      CountSome(threads[..|threads| - 1], stages);
    }
  }

  lemma {:induction false} CountOne(threads: seq<Phase>, stages: set<Phase>, t: nat, u: nat)
    requires t < u < |threads| && threads[t] in stages && threads[u] in stages
    ensures Count(threads, stages) >= 2
  {
    CountSome(threads[..u], stages);
    assert threads[..u][t] in stages;
    CountPrefix(threads, stages, u);
  }

  lemma {:induction false} CountPrefix(threads: seq<Phase>, stages: set<Phase>, u: nat)
    requires u < |threads| && threads[u] in stages
    ensures Count(threads, stages) >= Count(threads[..u], stages) + 1
  {
    var n := |threads| - 1;
    if u < n {
      CountPrefix(threads[..n], stages, u);
      assert threads[..n][..u] == threads[..u];
    }
  }

  const BLOCKING: set<Phase> := {Announced, SawNoReaders, Counted}
  const WRITERS: set<Phase> := {Counted, Queued, Writing, Released}
  const READERS: set<Phase> := {Joined, Reading}
  const INSIDE: set<Phase> := {Writing}

  ghost predicate Counters(s: Lock) {
    && s.ww == Count(s.threads, BLOCKING)
    && s.w == Count(s.threads, WRITERS)
    && s.r == Count(s.threads, READERS)
    && (if s.f then 1 else 0) == Count(s.threads, INSIDE)
  }

  lemma NextKeepsCounters(s: Lock, ev: Event, s': Lock)
    requires Counters(s) && Next(s, ev, s')
    ensures Counters(s')
  {
    hide Count;
    var ph := s'.threads[ev.t];
    CountUpdate(s.threads, BLOCKING, ev.t, ph);
    CountUpdate(s.threads, WRITERS, ev.t, ph);
    CountUpdate(s.threads, READERS, ev.t, ph);
    CountUpdate(s.threads, INSIDE, ev.t, ph);
  }

  lemma {:induction false} StartCounters(n: nat)
    ensures Counters(Start(n))
  {
    CountSome(Start(n).threads, BLOCKING);
    CountSome(Start(n).threads, WRITERS);
    CountSome(Start(n).threads, READERS);
    CountSome(Start(n).threads, INSIDE);
  }

  lemma {:induction false} RunKeepsCounters(xs: seq<Lock>, evs: seq<Event>, n: nat, k: nat)
    requires IsRun(xs, evs) && xs[0] == Start(n) && k < |xs|
    ensures Counters(xs[k])
  {
    hide Counters, Next;
    if k == 0 {
      StartCounters(n);
    } else {
      RunKeepsCounters(xs, evs, n, k - 1);
      assert Next(xs[k - 1], evs[k - 1], xs[k]);
      NextKeepsCounters(xs[k - 1], evs[k - 1], xs[k]);
    }
  }

  /** In every reachable state of the lock as written, at most one writer is inside. */
  lemma OneWriter(xs: seq<Lock>, evs: seq<Event>, n: nat, k: nat, t: nat, u: nat)
    requires IsRun(xs, evs) && xs[0] == Start(n) && k < |xs|
    requires t < |xs[k].threads| && u < |xs[k].threads|
    requires xs[k].threads[t] == Writing && xs[k].threads[u] == Writing
    ensures t == u
  {
    RunKeepsCounters(xs, evs, n, k);
    if t < u {
      CountOne(xs[k].threads, INSIDE, t, u);
    } else if u < t {
      CountOne(xs[k].threads, INSIDE, u, t);
    }
  }

  // ---- Readers against writers

  ghost predicate Some(s: Lock, ph: Phase) {
    exists t :: 0 <= t < |s.threads| && s.threads[t] == ph
  }

  /** No writer stands between its test of `r` and its increment of `w`. */
  ghost predicate WindowShut(s: Lock) {
    !Some(s, SawNoReaders)
  }

  /** What keeps readers and writers apart: a writer in the window has no readers to wait
      for, and a reader that is reading has no writers counted. */
  ghost predicate Apart(s: Lock) {
    && Counters(s)
    && (s.r > 0 ==> WindowShut(s))
    && (Some(s, Reading) ==> s.w == 0)
  }

  /** The reader's increment of `r`, coming as an action of its own. */
  predicate JoinsLate(s: Lock, ev: Event) {
    ev.Advance? && ev.t < |s.threads| && s.threads[ev.t] == Admitted
  }

  lemma NothingOf(s: Lock, ph: Phase, stages: set<Phase>)
    requires ph in stages && Some(s, ph)
    ensures Count(s.threads, stages) > 0
  {
    CountSome(s.threads, stages);
  }

  lemma MovedSome(s: Lock, s': Lock, t: nat, ph: Phase)
    requires t < |s.threads| == |s'.threads| && s'.threads == s.threads[t := s'.threads[t]]
    ensures Some(s', ph) ==> s'.threads[t] == ph || Some(s, ph)
  {
  }

  /** Every step keeps them apart, except that the late increment of `r` does so exactly
      when the window is shut. */
  lemma NextKeepsApart(s: Lock, ev: Event, s': Lock)
    requires Apart(s) && Next(s, ev, s')
    ensures Apart(s') <==> !JoinsLate(s, ev) || WindowShut(s)
  {
    hide Count;
    NextKeepsCounters(s, ev, s');
    MovedSome(s, s', ev.t, SawNoReaders);
    MovedSome(s, s', ev.t, Reading);
    if Some(s, SawNoReaders) {
      NothingOf(s, SawNoReaders, BLOCKING);
    }
    if Some(s, Reading) {
      NothingOf(s, Reading, READERS);
    }
    if JoinsLate(s, ev) && !WindowShut(s) {
      var u :| 0 <= u < |s.threads| && s.threads[u] == SawNoReaders;
      assert s'.threads[u] == SawNoReaders;
    }
  }

  /** Over every run of the code in which no reader increments `r` while a writer is in the
      window, no reader reads while a writer writes. */
  lemma {:induction false} RunKeepsApart(xs: seq<Lock>, evs: seq<Event>, n: nat, k: nat)
    requires IsRun(xs, evs) && xs[0] == Start(n) && k < |xs|
    requires forall i | 0 <= i < k :: JoinsLate(xs[i], evs[i]) ==> WindowShut(xs[i])
    ensures Apart(xs[k]) && !(Some(xs[k], Reading) && Some(xs[k], Writing))
  {
    hide Next, Counters, JoinsLate, WindowShut;
    if k == 0 {
      StartApart(n);
    } else {
      RunKeepsApart(xs, evs, n, k - 1);
      assert Next(xs[k - 1], evs[k - 1], xs[k]);
      NextKeepsApart(xs[k - 1], evs[k - 1], xs[k]);
    }
    ApartExcludes(xs[k]);
  }

  lemma ApartExcludes(s: Lock)
    requires Apart(s)
    ensures !(Some(s, Reading) && Some(s, Writing))
  {
    if Some(s, Writing) {
      NothingOf(s, Writing, WRITERS);
    }
  }

  /** With reader admission in one step, exclusion holds over every run. */
  lemma AtomicAdmissionExcludes(xs: seq<Lock>, evs: seq<Event>, n: nat, k: nat)
    requires IsRun(xs, evs) && xs[0] == Start(n) && k < |xs|
    requires forall i | 0 <= i < |evs| :: !evs[i].BeginRead?
    ensures !(Some(xs[k], Reading) && Some(xs[k], Writing))
  {
    forall i | 0 <= i < k
      ensures !JoinsLate(xs[i], evs[i])
    {
      NobodyAdmitted(xs, evs, n, i);
    }
    RunKeepsApart(xs, evs, n, k);
  }

  lemma {:induction false} NobodyAdmitted(xs: seq<Lock>, evs: seq<Event>, n: nat, k: nat)
    requires IsRun(xs, evs) && xs[0] == Start(n) && k < |xs|
    requires forall i | 0 <= i < |evs| :: !evs[i].BeginRead?
    ensures !Some(xs[k], Admitted)
  {
    if k > 0 {
      NobodyAdmitted(xs, evs, n, k - 1);
      assert Next(xs[k - 1], evs[k - 1], xs[k]);
      MovedSome(xs[k - 1], xs[k], evs[k - 1].t, Admitted);
    }
  }

  // ---- The open window loses exclusion

  ghost predicate Reaches(s: Lock, s': Lock, steps: nat)
    decreases steps
  {
    if steps == 0 then s' == s
    else exists ev, m :: Next(s, ev, m) && Reaches(m, s', steps - 1)
  }

  lemma StepThen(s: Lock, ev: Event, m: Lock, s': Lock, steps: nat)
    requires Next(s, ev, m) && Reaches(m, s', steps)
    ensures Reaches(s, s', steps + 1)
  {
  }

  /** Steps that a counted writer still has before it is out. */
  function Togo(ph: Phase): nat {
    match ph
    case Counted => 4
    case Queued => 3
    case Writing => 2
    case Released => 1
    case _ => 0
  }

  function TogoAll(threads: seq<Phase>): nat {
    if threads == [] then 0 else TogoAll(threads[..|threads| - 1]) + Togo(threads[|threads| - 1])
  }

  lemma {:induction false} TogoUpdate(threads: seq<Phase>, t: nat, ph: Phase)
    requires t < |threads|
    ensures TogoAll(threads[t := ph]) == TogoAll(threads) + Togo(ph) - Togo(threads[t])
  {
    var n := |threads| - 1;
    var updated := threads[t := ph];
    if t == n {
      assert updated[..n] == threads[..n];
    } else {
      TogoUpdate(threads[..n], t, ph);
      assert updated[..n] == threads[..n][t := ph];
    }
  }

  /** A joined reader waits, a writer waits in the window. */
  ghost predicate Poised(s: Lock, reader: nat, writer: nat) {
    && Counters(s) && reader < |s.threads| && writer < |s.threads|
    && s.threads[reader] == Joined && s.threads[writer] == SawNoReaders
  }

  lemma SomeWriterCanLeave(s: Lock) returns (t: nat)
    requires Counters(s) && s.w > 0
    ensures t < |s.threads| && s.threads[t] in WRITERS && CanAdvance(s, t)
  {
    CountSome(s.threads, WRITERS);
    CountSome(s.threads, INSIDE);
    if s.f {
      t :| 0 <= t < |s.threads| && s.threads[t] in INSIDE;
    } else {
      t :| 0 <= t < |s.threads| && s.threads[t] in WRITERS;
    }
  }

  lemma LeaveStep(s: Lock, reader: nat, writer: nat, t: nat)
    requires Poised(s, reader, writer) && t < |s.threads| && s.threads[t] in WRITERS && CanAdvance(s, t)
    ensures Next(s, Advance(t), Advanced(s, t))
    ensures Poised(Advanced(s, t), reader, writer) && TogoAll(Advanced(s, t).threads) < TogoAll(s.threads)
  {
    hide Count;
    NextKeepsCounters(s, Advance(t), Advanced(s, t));
    TogoUpdate(s.threads, t, Advanced(s, t).threads[t]);
  }

  /** The writers already counted can all finish while those two stand still. */
  lemma {:induction false} WritersLeave(s: Lock, reader: nat, writer: nat) returns (s': Lock, steps: nat)
    requires Poised(s, reader, writer)
    ensures Reaches(s, s', steps) && Poised(s', reader, writer) && s'.w == 0
    decreases TogoAll(s.threads)
  {
    hide Next, Poised;
    if s.w == 0 {
      s', steps := s, 0;
    } else {
      CountNonNegative(s, reader, writer);
      var t := SomeWriterCanLeave(s);
      LeaveStep(s, reader, writer, t);
      s', steps := WritersLeave(Advanced(s, t), reader, writer);
      StepThen(s, Advance(t), Advanced(s, t), s', steps);
      steps := steps + 1;
    }
  }

  lemma CountNonNegative(s: Lock, reader: nat, writer: nat)
    requires Poised(s, reader, writer)
    ensures Counters(s) && s.w >= 0
  {
  }

  lemma BothEnter(s: Lock, reader: nat, writer: nat)
    requires Poised(s, reader, writer) && s.w == 0
    ensures exists s' :: Reaches(s, s', 4) && Some(s', Reading) && Some(s', Writing)
  {
    hide Count, Reaches;
    NoneInside(s);
    var a := Moved(s, reader, Reading);
    var b := Moved(a, writer, Counted).(w := a.w + 1);
    var c := Moved(b, writer, Queued).(ww := b.ww - 1);
    var d := Moved(c, writer, Writing).(f := true);
    assert Next(s, Advance(reader), a) && Next(a, Advance(writer), b);
    assert Next(b, Advance(writer), c) && Next(c, Advance(writer), d);
    FourSteps(s, Advance(reader), a, Advance(writer), b, Advance(writer), c, Advance(writer), d);
    assert d.threads[reader] == Reading && d.threads[writer] == Writing;
  }

  lemma NoneInside(s: Lock)
    requires Counters(s) && s.w == 0
    ensures !s.f
  {
    CountSome(s.threads, INSIDE);
    CountSome(s.threads, WRITERS);
  }

  lemma FourSteps(s: Lock, e1: Event, a: Lock, e2: Event, b: Lock, e3: Event, c: Lock, e4: Event, d: Lock)
    requires Next(s, e1, a) && Next(a, e2, b) && Next(b, e3, c) && Next(c, e4, d)
    ensures Reaches(s, d, 4)
  {
    hide Next;
    assert Reaches(d, d, 0);
    StepThen(c, e4, d, d, 0);
    StepThen(b, e3, c, d, 1);
    StepThen(a, e2, b, d, 2);
    StepThen(s, e1, a, d, 3);
  }

  lemma {:induction false} ReachesTrans(s: Lock, m: Lock, s': Lock, i: nat, j: nat)
    requires Reaches(s, m, i) && Reaches(m, s', j)
    ensures Reaches(s, s', i + j)
    decreases i
  {
    hide Next;
    if i > 0 {
      var ev, k :| Next(s, ev, k) && Reaches(k, m, i - 1);
      ReachesTrans(k, m, s', i - 1, j);
      StepThen(s, ev, k, s', i - 1 + j);
    }
  }

  /** With the two actions apart the exclusion fails: whenever an admitted reader has yet to
      increment `r` while a writer is in the window, the lock can go on to a state in which
      a reader reads while a writer writes. */
  lemma OpenWindowLosesExclusion(s: Lock, reader: nat, writer: nat)
    requires Apart(s) && reader < |s.threads| && writer < |s.threads|
    requires s.threads[reader] == Admitted && s.threads[writer] == SawNoReaders
    ensures exists s', steps: nat :: Reaches(s, s', steps) && Some(s', Reading) && Some(s', Writing)
  {
    hide Count, Some, Reaches;
    var m := Advanced(s, reader);
    assert Next(s, Advance(reader), m);
    NextKeepsCounters(s, Advance(reader), m);
    var p, i := WritersLeave(m, reader, writer);
    StepThen(s, Advance(reader), m, p, i);
    BothEnter(p, reader, writer);
    var s' :| Reaches(p, s', 4) && Some(s', Reading) && Some(s', Writing);
    ReachesTrans(s, p, s', i + 1, 4);
  }

  /** Such a state is reached by two threads from the start. */
  lemma WindowIsReachable() returns (s: Lock)
    ensures Reaches(Start(2), s, 3) && Apart(s)
    ensures |s.threads| == 2 && s.threads[0] == Admitted && s.threads[1] == SawNoReaders
  {
    hide Count, Apart;
    var s0 := Start(2);
    var a := Moved(s0, 0, Admitted);
    var b := Moved(a, 1, Announced).(ww := 1);
    s := Moved(b, 1, SawNoReaders);
    assert Next(s0, BeginRead(0), a) && Next(a, BeginWrite(1), b) && Next(b, Advance(1), s);
    assert Reaches(s, s, 0);
    StepThen(b, Advance(1), s, s, 0);
    StepThen(a, BeginWrite(1), b, s, 1);
    StepThen(s0, BeginRead(0), a, s, 2);
    StartApart(2);
    NextKeepsApart(s0, BeginRead(0), a);
    NextKeepsApart(a, BeginWrite(1), b);
    NextKeepsApart(b, Advance(1), s);
  }

  lemma StartApart(n: nat)
    ensures Apart(Start(n))
  {
    StartCounters(n);
  }
}
