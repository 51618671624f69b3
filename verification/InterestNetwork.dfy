/** Dissemination of interests over a fixed graph, in any order of events. */
module InterestNetwork {
  import opened Blocks
  import opened Topology
  import opened InterestHelpers

  /** `air` holds every (poster, interest) ever announced; `created` records who created a
      local interest in which type, at any time. */
  datatype Net = Net(tables: map<NodeId, seq<Interest>>, air: set<(NodeId, Interest)>, created: set<(NodeId, ContentType)>)

  datatype Event =
    | Create(n: NodeId, kind: ContentType)
    | Clear(n: NodeId)
    | Announce(n: NodeId, i: nat, ttl: nat)
    | Deliver(from: NodeId, e: Interest, n: NodeId)
    | Expire(n: NodeId, i: nat)

  function SetTable(s: Net, n: NodeId, t: seq<Interest>): Net {
    s.(tables := s.tables[n := t])
  }

  function Start(): Net { Net(map[], {}, {}) }

  predicate Enabled(g: Graph, s: Net, ev: Event) {
    match ev
    case Create(n, kind) => true
    case Clear(n) => true
    case Announce(n, i, ttl) => i < |TableOf(s.tables, n)|
    case Deliver(from, e, n) => (from, e) in s.air && (from, n) in g
    case Expire(n, i) => i < |TableOf(s.tables, n)|
  }

  /** An announced entry goes to the back of the table with the time to live it has left;
      an expired one is dropped. */
  function After(s: Net, ev: Event): Net {
    match ev
    case Create(n, kind) => SetTable(s, n, WithLocal(TableOf(s.tables, n), kind)).(created := s.created + {(n, kind)})
    case Clear(n) => SetTable(s, n, WithoutLocals(TableOf(s.tables, n)))
    case Announce(n, i, ttl) =>
      var t := TableOf(s.tables, n);
      if i < |t| then
        var e := t[i].(ttl := ttl);
        SetTable(s, n, Without(t, i) + [e]).(air := s.air + {(n, e)})
      else s
    case Deliver(from, e, n) =>
      SetTable(s, n, Learned(TableOf(s.tables, n), e.(hops := (e.hops + 1) % HOPS_MODULUS)))
    case Expire(n, i) =>
      var t := TableOf(s.tables, n);
      if i < |t| then SetTable(s, n, Without(t, i)) else s
  }

  ghost predicate Next(g: Graph, s: Net, ev: Event, s': Net) {
    Enabled(g, s, ev) && s' == After(s, ev)
  }

  /** Some node within `h` links created an interest in the type. */
  ghost predicate Justified(g: Graph, s: Net, n: NodeId, e: Interest) {
    e.hops < HOPS_MODULUS && exists c :: (c, e.kind) in s.created && n in Ball(g, c, e.hops)
  }

  ghost predicate Sound(g: Graph, s: Net) {
    && (forall n, e | e in TableOf(s.tables, n) :: Justified(g, s, n, e))
    && (forall a | a in s.air :: Justified(g, s, a.0, a.1))
    && (forall n: NodeId :: OnePerKind(TableOf(s.tables, n)))
  }

  /** A delivery that wraps the counter to 0 at a node that never created such an interest:
      the node would take the interest for its own. */
  predicate Wraps(s: Net, ev: Event) {
    ev.Deliver? && ev.e.hops == HOPS_MODULUS - 1 && (ev.n, ev.e.kind) !in s.created
  }

  lemma MoreCreated(g: Graph, s: Net, s': Net, n: NodeId, e: Interest, e': Interest)
    requires Justified(g, s, n, e) && s.created <= s'.created && e'.kind == e.kind && e'.hops == e.hops
    ensures Justified(g, s', n, e')
  {
    var c :| (c, e.kind) in s.created && n in Ball(g, c, e.hops);
    assert (c, e'.kind) in s'.created;
  }

  lemma OwnJustified(g: Graph, s: Net, n: NodeId, e: Interest)
    requires (n, e.kind) in s.created && e.hops == 0
    ensures Justified(g, s, n, e)
  {
    assert n in Ball(g, n, 0);
  }

  lemma AirSound(g: Graph, s: Net, s': Net)
    requires Sound(g, s) && s.created <= s'.created
    ensures forall a | a in s.air :: Justified(g, s', a.0, a.1)
    ensures forall n, e | e in TableOf(s.tables, n) :: Justified(g, s', n, e)
  {
    hide Justified, OnePerKind;
    forall a | a in s.air
      ensures Justified(g, s', a.0, a.1)
    {
      MoreCreated(g, s, s', a.0, a.1, a.1);
    }
    forall n, e | e in TableOf(s.tables, n)
      ensures Justified(g, s', n, e)
    {
      MoreCreated(g, s, s', n, e, e);
    }
  }

  lemma TablesStayTidy(s: Net, s': Net, n: NodeId, t: seq<Interest>)
    requires forall m: NodeId :: OnePerKind(TableOf(s.tables, m))
    requires OnePerKind(t) && s'.tables == s.tables[n := t]
    ensures forall m: NodeId :: OnePerKind(TableOf(s'.tables, m))
  {
    hide OnePerKind;
    forall m: NodeId
      ensures OnePerKind(TableOf(s'.tables, m))
    {
      assert OnePerKind(TableOf(s.tables, m));
    }
  }

  lemma CreateSound(g: Graph, s: Net, ev: Event, s': Net)
    requires Sound(g, s) && Next(g, s, ev, s') && ev.Create?
    ensures Sound(g, s')
  {
    hide Justified, OnePerKind, WithLocal;
    AirSound(g, s, s');
    LocalKeepsOnePerKind(TableOf(s.tables, ev.n), ev.kind);
    forall n, e | e in TableOf(s'.tables, n)
      ensures Justified(g, s', n, e)
    {
      if n == ev.n {
        WithLocalFrom(TableOf(s.tables, n), ev.kind, e);
        if e !in TableOf(s.tables, n) {
          OwnJustified(g, s', n, e);
        }
      } else {
        assert e in TableOf(s.tables, n);
      }
    }
    TablesStayTidy(s, s', ev.n, WithLocal(TableOf(s.tables, ev.n), ev.kind));
  }

  lemma ClearSound(g: Graph, s: Net, ev: Event, s': Net)
    requires Sound(g, s) && Next(g, s, ev, s') && ev.Clear?
    ensures Sound(g, s')
  {
    hide Justified, OnePerKind, WithoutLocals;
    AirSound(g, s, s');
    ClearKeepsOnePerKind(TableOf(s.tables, ev.n));
    forall n, e | e in TableOf(s'.tables, n)
      ensures Justified(g, s', n, e)
    {
      assert e in TableOf(s.tables, n);
    }
    TablesStayTidy(s, s', ev.n, WithoutLocals(TableOf(s.tables, ev.n)));
  }

  lemma AnnounceSound(g: Graph, s: Net, ev: Event, s': Net)
    requires Sound(g, s) && Next(g, s, ev, s') && ev.Announce?
    ensures Sound(g, s')
  {
    hide Justified;
    AirSound(g, s, s');
    var t := TableOf(s.tables, ev.n);
    assert t[ev.i] in t;
    MoreCreated(g, s, s', ev.n, t[ev.i], t[ev.i].(ttl := ev.ttl));
    forall n, e | e in TableOf(s'.tables, n)
      ensures Justified(g, s', n, e)
    {
      if e !in TableOf(s.tables, n) {
        assert n == ev.n && e == t[ev.i].(ttl := ev.ttl);
      }
    }
    OneRemoved(t, ev.i);
    OneBack(t, ev.i, ev.ttl);
    TablesStayTidy(s, s', ev.n, Without(t, ev.i) + [t[ev.i].(ttl := ev.ttl)]);
  }

  lemma OneRemoved(t: seq<Interest>, i: nat)
    requires i < |t| && OnePerKind(t)
    ensures OnePerKind(Without(t, i)) && forall e | e in Without(t, i) :: e in t
  {
  }

  lemma OneBack(t: seq<Interest>, i: nat, ttl: nat)
    requires i < |t| && OnePerKind(t)
    ensures OnePerKind(Without(t, i) + [t[i].(ttl := ttl)])
  {
    OneRemoved(t, i);
  }

  lemma ExpireSound(g: Graph, s: Net, ev: Event, s': Net)
    requires Sound(g, s) && Next(g, s, ev, s') && ev.Expire?
    ensures Sound(g, s')
  {
    hide Justified, OnePerKind, Without;
    AirSound(g, s, s');
    OneRemoved(TableOf(s.tables, ev.n), ev.i);
    forall n, e | e in TableOf(s'.tables, n)
      ensures Justified(g, s', n, e)
    {
      assert e in TableOf(s.tables, n);
    }
    TablesStayTidy(s, s', ev.n, Without(TableOf(s.tables, ev.n), ev.i));
  }

  lemma BumpedJustified(g: Graph, s: Net, from: NodeId, e: Interest, n: NodeId)
    requires Justified(g, s, from, e) && (from, n) in g
    requires e.hops != HOPS_MODULUS - 1 || (n, e.kind) in s.created
    ensures Justified(g, s, n, e.(hops := (e.hops + 1) % HOPS_MODULUS))
  {
    if e.hops != HOPS_MODULUS - 1 {
      var c :| (c, e.kind) in s.created && from in Ball(g, c, e.hops);
      BallStep(g, c, e.hops, from, n);
      assert (e.hops + 1) % HOPS_MODULUS == e.hops + 1;
    } else {
      OwnJustified(g, s, n, e.(hops := 0));
    }
  }

  lemma DeliverSound(g: Graph, s: Net, ev: Event, s': Net)
    requires Sound(g, s) && Next(g, s, ev, s') && ev.Deliver? && !Wraps(s, ev)
    ensures Sound(g, s')
  {
    hide Justified, OnePerKind, Learned;
    AirSound(g, s, s');
    var t := TableOf(s.tables, ev.n);
    var b := ev.e.(hops := (ev.e.hops + 1) % HOPS_MODULUS);
    LearnKeepsOnePerKind(t, b);
    assert Justified(g, s', ev.from, ev.e);
    BumpedJustified(g, s', ev.from, ev.e, ev.n);
    forall n, e | e in TableOf(s'.tables, n)
      ensures Justified(g, s', n, e)
    {
      if n == ev.n {
        LearnedFrom(t, b, e);
        if e !in t && e != b {
          var f :| f in t && f.kind == b.kind && e == f.UpdatedWith(b);
          MeetJustified(g, s', n, f, b);
        }
      } else {
        assert e in TableOf(s.tables, n);
      }
    }
    TablesStayTidy(s, s', ev.n, Learned(t, b));
  }

  lemma MeetJustified(g: Graph, s: Net, n: NodeId, f: Interest, b: Interest)
    requires Justified(g, s, n, f) && Justified(g, s, n, b) && f.kind == b.kind
    ensures Justified(g, s, n, f.UpdatedWith(b))
  {
  }

  lemma WrapBreaks(g: Graph, s: Net, ev: Event, s': Net)
    requires Sound(g, s) && Next(g, s, ev, s') && Wraps(s, ev)
    ensures !Sound(g, s')
  {
    var b := ev.e.(hops := 0);
    LearnedHolds(TableOf(s.tables, ev.n), b);
    var k := Find(TableOf(s.tables, ev.n), b.kind);
    var e := if k < |TableOf(s.tables, ev.n)| then TableOf(s.tables, ev.n)[k].UpdatedWith(b) else b;
    assert e in TableOf(s'.tables, ev.n) && e.hops == 0 && e.kind == b.kind;
    forall c | (c, e.kind) in s'.created
      ensures ev.n !in Ball(g, c, 0)
    {
    }
  }

  /** Every step keeps interest hop counts sound, except exactly the deliveries that wrap. */
  lemma NextKeepsSound(g: Graph, s: Net, ev: Event, s': Net)
    requires Sound(g, s) && Next(g, s, ev, s')
    ensures Sound(g, s') <==> !Wraps(s, ev)
  {
    hide Sound, Next;
    match ev
    case Create(n, kind) => CreateSound(g, s, ev, s');
    case Clear(n) => ClearSound(g, s, ev, s');
    case Announce(n, i, ttl) => AnnounceSound(g, s, ev, s');
    case Expire(n, i) => ExpireSound(g, s, ev, s');
    case Deliver(from, e, n) =>
      if Wraps(s, ev) {
        WrapBreaks(g, s, ev, s');
      } else {
        DeliverSound(g, s, ev, s');
      }
  }

  ghost predicate IsRun(g: Graph, xs: seq<Net>, evs: seq<Event>) {
    && |xs| == |evs| + 1 && xs[0] == Start()
    && forall i | 0 <= i < |evs| :: Next(g, xs[i], evs[i], xs[i + 1])
  }

  lemma {:induction false} RunSound(g: Graph, xs: seq<Net>, evs: seq<Event>, k: nat)
    requires IsRun(g, xs, evs) && k < |xs| && forall i | 0 <= i < k :: !Wraps(xs[i], evs[i])
    ensures Sound(g, xs[k])
  {
    hide Next, Wraps;
    if k > 0 {
      RunSound(g, xs, evs, k - 1);
      assert Next(g, xs[k - 1], evs[k - 1], xs[k]);
      NextKeepsSound(g, xs[k - 1], evs[k - 1], xs[k]);
    }
  }

  // ---- Forgetting

  ghost predicate Knows(s: Net, n: NodeId, kind: ContentType) {
    exists e :: e in TableOf(s.tables, n) && e.kind == kind
  }

  /** The node's interest in the type expires, or it is the node's own and is cleared. */
  ghost predicate Forgets(s: Net, ev: Event, n: NodeId, kind: ContentType) {
    var t := TableOf(s.tables, n);
    || (ev.Expire? && ev.n == n && ev.i < |t| && t[ev.i].kind == kind)
    || (ev == Clear(n) && exists e :: e in t && e.kind == kind && e.hops == 0)
  }

  lemma OtherTables(s: Net, ev: Event, n: NodeId)
    requires ev.n != n
    ensures TableOf(After(s, ev).tables, n) == TableOf(s.tables, n)
  {
    hide Learned, WithLocal, WithoutLocals, Without;
  }

  /** A type that is known stays known, except exactly when its interest expires or is
      cleared. */
  lemma KnownStays(g: Graph, s: Net, ev: Event, s': Net, n: NodeId, kind: ContentType)
    requires Next(g, s, ev, s') && OnePerKind(TableOf(s.tables, n)) && Knows(s, n, kind)
    ensures Knows(s', n, kind) <==> !Forgets(s, ev, n, kind)
  {
    hide Learned, WithLocal, WithoutLocals, Without, OnePerKind;
    var t := TableOf(s.tables, n);
    var e :| e in t && e.kind == kind;
    if ev.n != n {
      OtherTables(s, ev, n);
    } else {
      KnownInTable(t, e);
      match ev
      case Create(_, k) => CreatedKnown(t, k, e);
      case Clear(_) => ClearedKnown(t, e);
      case Announce(_, i, ttl) => AnnouncedKnown(t, i, ttl, e);
      case Deliver(_, _, _) => HeardKnown(t, ev.e.(hops := (ev.e.hops + 1) % HOPS_MODULUS), e);
      case Expire(_, i) => ExpiredKnown(t, i, e);
    }
  }

  lemma CreatedKnown(t: seq<Interest>, kind: ContentType, e: Interest)
    requires OnePerKind(t) && e in t
    ensures exists f :: f in WithLocal(t, kind) && f.kind == e.kind
  {
    CreatedOnly(t, kind);
    OthersAre(t, kind);
    hide WithLocal, Others;
    assert kind != e.kind ==> e in WithLocal(t, kind);
    assert kind == e.kind ==> e in WithLocal(t, kind) || Interest(kind, 60000, 0) in WithLocal(t, kind);
  }

  lemma ClearedKnown(t: seq<Interest>, e: Interest)
    requires OnePerKind(t) && e in t
    ensures (exists f :: f in WithoutLocals(t) && f.kind == e.kind) <==> e.hops != 0
  {
    ClearKeepsOnePerKind(t);
    KnownInTable(t, e);
    hide WithoutLocals;
  }

  lemma HeardKnown(t: seq<Interest>, heard: Interest, e: Interest)
    requires OnePerKind(t) && e in t
    ensures exists f :: f in Learned(t, heard) && f.kind == e.kind
  {
    KnownInTable(t, e);
    LearnedKeepsUp(t, heard, e);
    hide Learned;
  }

  lemma KnownInTable(t: seq<Interest>, e: Interest)
    requires OnePerKind(t) && e in t
    ensures KeepsUp(t, e) && forall f | f in t && f.kind == e.kind :: f == e
  {
    forall f | f in t && f.kind == e.kind
      ensures f == e
    {
      OnlyOne(t, f, e);
    }
  }

  lemma AnnouncedKnown(t: seq<Interest>, i: nat, ttl: nat, e: Interest)
    requires i < |t| && e in t
    ensures exists f :: f in Without(t, i) + [t[i].(ttl := ttl)] && f.kind == e.kind
  {
    var after := Without(t, i) + [t[i].(ttl := ttl)];
    var k :| 0 <= k < |t| && t[k] == e;
    if k == i {
      assert after[|after| - 1].kind == e.kind;
    } else {
      assert e in Without(t, i);
      assert e in after;
    }
  }

  lemma ExpiredKnown(t: seq<Interest>, i: nat, e: Interest)
    requires OnePerKind(t) && i < |t| && e in t
    ensures (exists f :: f in Without(t, i) && f.kind == e.kind) <==> t[i].kind != e.kind
  {
    if t[i].kind != e.kind {
      assert e in Without(t, i);
    }
  }

  lemma NextTidy(g: Graph, s: Net, ev: Event, s': Net)
    requires Next(g, s, ev, s') && forall n: NodeId :: OnePerKind(TableOf(s.tables, n))
    ensures forall n: NodeId :: OnePerKind(TableOf(s'.tables, n))
  {
    hide OnePerKind, Without, WithLocal, WithoutLocals, Learned;
    var t := TableOf(s.tables, ev.n);
    match ev
    case Create(n, kind) =>
      LocalKeepsOnePerKind(t, kind);
      TablesStayTidy(s, s', n, WithLocal(t, kind));
    case Clear(n) =>
      ClearKeepsOnePerKind(t);
      TablesStayTidy(s, s', n, WithoutLocals(t));
    case Announce(n, i, ttl) =>
      OneBack(t, i, ttl);
      TablesStayTidy(s, s', n, Without(t, i) + [t[i].(ttl := ttl)]);
    case Deliver(_, e, n) =>
      var b := e.(hops := (e.hops + 1) % HOPS_MODULUS);
      LearnKeepsOnePerKind(t, b);
      TablesStayTidy(s, s', n, Learned(t, b));
    case Expire(n, i) =>
      OneRemoved(t, i);
      TablesStayTidy(s, s', n, Without(t, i));
  }

  lemma {:induction false} RunTidy(g: Graph, xs: seq<Net>, evs: seq<Event>, k: nat)
    requires IsRun(g, xs, evs) && k < |xs|
    ensures forall n: NodeId :: OnePerKind(TableOf(xs[k].tables, n))
  {
    hide Next;
    if k > 0 {
      RunTidy(g, xs, evs, k - 1);
      assert Next(g, xs[k - 1], evs[k - 1], xs[k]);
      NextTidy(g, xs[k - 1], evs[k - 1], xs[k]);
    }
  }

  /** Over every run, wraps or not, a type once known stays known up to the first event that
      forgets it. */
  lemma {:induction false} KnownUntilForgotten(g: Graph, xs: seq<Net>, evs: seq<Event>, j: nat, k: nat, n: NodeId, kind: ContentType)
    requires IsRun(g, xs, evs) && j <= k < |xs|
    requires Knows(xs[j], n, kind) && forall i | j <= i < k :: !Forgets(xs[i], evs[i], n, kind)
    ensures Knows(xs[k], n, kind)
    decreases k
  {
    hide Next, Knows, Forgets, OnePerKind;
    if k > j {
      KnownUntilForgotten(g, xs, evs, j, k - 1, n, kind);
      RunTidy(g, xs, evs, k - 1);
      assert Next(g, xs[k - 1], evs[k - 1], xs[k]);
      KnownStays(g, xs[k - 1], evs[k - 1], xs[k], n, kind);
    }
  }

  /** In every reachable state, short of a wrap, a node holds at most one interest a type,
      and an entry or announcement with hop count `h` stems from a node within `h` links that
      created it; hop count 0 means the node created it itself. */
  lemma HopCountsAreDistances(g: Graph, xs: seq<Net>, evs: seq<Event>, k: nat, n: NodeId, e: Interest)
    requires IsRun(g, xs, evs) && k < |xs| && forall i | 0 <= i < k :: !Wraps(xs[i], evs[i])
    requires e in TableOf(xs[k].tables, n) || (n, e) in xs[k].air
    ensures exists c :: (c, e.kind) in xs[k].created && n in Ball(g, c, e.hops)
    ensures e.Local() ==> (n, e.kind) in xs[k].created
    ensures OnePerKind(TableOf(xs[k].tables, n))
  {
    RunSound(g, xs, evs, k);
    assert Justified(g, xs[k], n, e);
  }
}
