/** Dissemination of content metadata over a fixed graph: what hop counts mean in every
    reachable state, and what full rounds of announcements converge to. */
module MetadataNetwork {
  import opened Topology
  import opened Blocks
  import opened ContentHelpers

  // ---- Steps, in any order

  /** `air` holds every (poster, metadata) ever posted: a message may be heard late, more
      than once, or never. `published` records who created which content. */
  datatype Net = Net(local: map<NodeId, seq<Metadata>>, rmt: map<NodeId, seq<Metadata>>,
                     air: set<(NodeId, Metadata)>, published: set<(NodeId, Hash)>)

  datatype Event =
    | Create(n: NodeId, m: Metadata)
    | Post(n: NodeId, m: Metadata)
    | Deliver(from: NodeId, m: Metadata, n: NodeId, expiry: int)
    | Drop(n: NodeId, i: nat)

  ghost function Start(): Net { Net(map[], map[], {}, {}) }

  ghost predicate Enabled(g: Graph, s: Net, ev: Event) {
    match ev
    case Create(n, m) => m.publisher == n && m.hops == 0
    case Post(n, m) => m in TableOf(s.local, n) || m in TableOf(s.rmt, n)
    case Deliver(from, m, n, expiry) => (from, m) in s.air && (from, n) in g
    case Drop(n, i) => i < |TableOf(s.rmt, n)|
  }

  /** `Create` is `create_new`; `Post` is one item of `announce_metadata`, from either table;
      `Deliver` is `receive` at a node that hears the poster and counts the rest of the life
      from then on; `Drop` forgets expired metadata. */
  function After(s: Net, ev: Event): Net {
    match ev
    case Create(n, m) =>
      s.(local := s.local[n := TableOf(s.local, n) + [m]], published := s.published + {(n, m.hash)})
    case Post(n, m) => s.(air := s.air + {(n, m)})
    case Deliver(from, m, n, expiry) => s.(rmt := s.rmt[n := Received(n, TableOf(s.rmt, n), m.(expiry := expiry))])
    case Drop(n, i) =>
      var t := TableOf(s.rmt, n);
      if i < |t| then s.(rmt := s.rmt[n := t[..i] + t[i + 1..]]) else s
  }

  ghost predicate Next(g: Graph, s: Net, ev: Event, s': Net) {
    Enabled(g, s, ev) && s' == After(s, ev)
  }

  // ---- Soundness of hop counts

  /** Some publisher of `hash` is within distance `h` of `n`. */
  ghost predicate SourceWithin(g: Graph, s: Net, hash: Hash, h: nat, n: NodeId) {
    exists p :: (p, hash) in s.published && n in Ball(g, p, h)
  }

  ghost predicate Justified(g: Graph, s: Net, n: NodeId, m: Metadata) {
    m.hops < HOPS_MODULUS && (m.publisher, m.hash) in s.published && SourceWithin(g, s, m.hash, m.hops, n)
  }

  ghost predicate Sound(g: Graph, s: Net) {
    && (forall n, m | m in TableOf(s.local, n) :: m.publisher == n && m.hops == 0 && (n, m.hash) in s.published)
    && (forall n, m | m in TableOf(s.rmt, n) :: Justified(g, s, n, m))
    && (forall a | a in s.air :: Justified(g, s, a.0, a.1))
  }

  /** The one delivery that can break soundness: the 8-bit counter wraps from 255 to 0 at a
      node that neither published the content nor skips its own announcement. */
  predicate Wraps(s: Net, ev: Event) {
    ev.Deliver? && ev.m.hops == HOPS_MODULUS - 1 && ev.m.publisher != ev.n && (ev.n, ev.m.hash) !in s.published
  }

  lemma MorePublished(g: Graph, s: Net, s': Net, n: NodeId, m: Metadata)
    requires Justified(g, s, n, m) && s.published <= s'.published
    ensures Justified(g, s', n, m)
  {
    var p :| (p, m.hash) in s.published && n in Ball(g, p, m.hops);
    assert (p, m.hash) in s'.published;
  }

  lemma CreateSound(g: Graph, s: Net, ev: Event, s': Net)
    requires Sound(g, s) && Next(g, s, ev, s') && ev.Create?
    ensures Sound(g, s')
  {
    hide Justified;
    forall n, m | m in TableOf(s'.rmt, n)
      ensures Justified(g, s', n, m)
    {
      MorePublished(g, s, s', n, m);
    }
    forall a | a in s'.air
      ensures Justified(g, s', a.0, a.1)
    {
      MorePublished(g, s, s', a.0, a.1);
    }
    forall n, m | m in TableOf(s'.local, n)
      ensures m.publisher == n && m.hops == 0 && (n, m.hash) in s'.published
    {
      if n != ev.n || m != ev.m {
        assert m in TableOf(s.local, n);
      }
    }
  }

  lemma PostSound(g: Graph, s: Net, ev: Event, s': Net)
    requires Sound(g, s) && Next(g, s, ev, s') && ev.Post?
    ensures Sound(g, s')
  {
    if ev.m in TableOf(s.local, ev.n) {
      assert ev.n in Ball(g, ev.n, 0);
      assert SourceWithin(g, s', ev.m.hash, 0, ev.n);
    }
    forall n, m | m in TableOf(s'.rmt, n)
      ensures Justified(g, s', n, m)
    {
      MorePublished(g, s, s', n, m);
    }
    forall a | a in s.air
      ensures Justified(g, s', a.0, a.1)
    {
      MorePublished(g, s, s', a.0, a.1);
    }
    if ev.m in TableOf(s.rmt, ev.n) {
      MorePublished(g, s, s', ev.n, ev.m);
    }
  }

  lemma DropSound(g: Graph, s: Net, ev: Event, s': Net)
    requires Sound(g, s) && Next(g, s, ev, s') && ev.Drop?
    ensures Sound(g, s')
  {
    hide Justified;
    forall n, m | m in TableOf(s'.rmt, n)
      ensures Justified(g, s', n, m)
    {
      assert m in TableOf(s.rmt, n);
      MorePublished(g, s, s', n, m);
    }
    forall a | a in s'.air
      ensures Justified(g, s', a.0, a.1)
    {
      MorePublished(g, s, s', a.0, a.1);
    }
  }

  /** Counting a link that really was crossed keeps an announcement justified. */
  lemma BumpedJustified(g: Graph, s: Net, from: NodeId, m: Metadata, n: NodeId)
    requires Justified(g, s, from, m) && (from, n) in g
    requires m.hops != HOPS_MODULUS - 1 || (n, m.hash) in s.published
    ensures Justified(g, s, n, m.(hops := (m.hops + 1) % HOPS_MODULUS))
  {
    if m.hops != HOPS_MODULUS - 1 {
      var p :| (p, m.hash) in s.published && from in Ball(g, p, m.hops);
      BallStep(g, p, m.hops, from, n);
      assert (m.hops + 1) % HOPS_MODULUS == m.hops + 1;
    } else {
      assert n in Ball(g, n, 0);
    }
  }

  lemma ReceivedJustified(g: Graph, s: Net, n: NodeId, m: Metadata, e: Metadata)
    requires forall d | d in TableOf(s.rmt, n) :: Justified(g, s, n, d)
    requires m.publisher != n ==> Justified(g, s, n, m.(hops := (m.hops + 1) % HOPS_MODULUS))
    requires e in Received(n, TableOf(s.rmt, n), m)
    ensures Justified(g, s, n, e)
  {
    if m.publisher != n {
      DiscoveredFrom(TableOf(s.rmt, n), m.(hops := (m.hops + 1) % HOPS_MODULUS), e);
    }
  }

  lemma SamePublished(g: Graph, s: Net, s': Net, n: NodeId, m: Metadata)
    requires s.published == s'.published
    ensures Justified(g, s, n, m) <==> Justified(g, s', n, m)
  {
    if Justified(g, s, n, m) {
      MorePublished(g, s, s', n, m);
    }
    if Justified(g, s', n, m) {
      MorePublished(g, s', s, n, m);
    }
  }

  lemma HeardJustified(g: Graph, s: Net, ev: Event)
    requires Sound(g, s) && Enabled(g, s, ev) && ev.Deliver?
    ensures Justified(g, s, ev.from, ev.m.(expiry := ev.expiry))
  {
    var a := (ev.from, ev.m);
    assert a in s.air;
    assert Justified(g, s, a.0, a.1);
  }

  lemma DeliverSound(g: Graph, s: Net, ev: Event, s': Net)
    requires Sound(g, s) && Next(g, s, ev, s') && ev.Deliver? && !Wraps(s, ev)
    ensures Sound(g, s')
  {
    hide Justified, Received;
    var m := ev.m.(expiry := ev.expiry);
    HeardJustified(g, s, ev);
    if m.publisher != ev.n {
      BumpedJustified(g, s, ev.from, m, ev.n);
    }
    forall n, m | m in TableOf(s'.rmt, n)
      ensures Justified(g, s', n, m)
    {
      if n == ev.n {
        ReceivedJustified(g, s, n, ev.m.(expiry := ev.expiry), m);
      } else {
        assert m in TableOf(s.rmt, n);
      }
      SamePublished(g, s, s', n, m);
    }
    forall a | a in s'.air
      ensures Justified(g, s', a.0, a.1)
    {
      SamePublished(g, s, s', a.0, a.1);
    }
  }

  lemma WrappedEntry(g: Graph, s: Net, ev: Event, s': Net) returns (e: Metadata)
    requires Next(g, s, ev, s') && Wraps(s, ev)
    ensures s'.published == s.published
    ensures e in TableOf(s'.rmt, ev.n) && e.hash == ev.m.hash && e.hops == 0
  {
    var t := TableOf(s.rmt, ev.n);
    var m := ev.m.(hops := 0, expiry := ev.expiry);
    DiscoveredHops(t, m, m.hash);
    EntryWithHops(TableOf(s'.rmt, ev.n), m.hash, 0);
    e :| e in TableOf(s'.rmt, ev.n) && e.hash == m.hash && e.hops == 0;
  }

  lemma NotJustified(g: Graph, s: Net, n: NodeId, e: Metadata)
    requires e.hops == 0 && (n, e.hash) !in s.published
    ensures !Justified(g, s, n, e)
  {
    forall p | (p, e.hash) in s.published
      ensures n !in Ball(g, p, 0)
    {
    }
  }

  /** After the wrap the receiver gives the hash hop count 0, as if it were its publisher. */
  lemma WrapBreaks(g: Graph, s: Net, ev: Event, s': Net)
    requires Next(g, s, ev, s') && Wraps(s, ev)
    ensures !Sound(g, s')
  {
    var e := WrappedEntry(g, s, ev, s');
    NotJustified(g, s', ev.n, e);
  }

  lemma {:induction false} EntryWithHops(t: seq<Metadata>, hash: Hash, h: nat)
    requires HopsOf(t, hash) == Known(h)
    ensures exists e :: e in t && e.hash == hash && e.hops == h
  {
    if t[0].hash == hash {
      assert t[0] in t;
    } else {
      EntryWithHops(t[1..], hash, h);
      var e :| e in t[1..] && e.hash == hash && e.hops == h;
      assert e in t;
    }
  }

  /** Every step keeps hop counts sound, except exactly the deliveries that wrap. */
  lemma NextKeepsSound(g: Graph, s: Net, ev: Event, s': Net)
    requires Sound(g, s) && Next(g, s, ev, s')
    ensures Sound(g, s') <==> !Wraps(s, ev)
  {
    hide Sound, Next;
    match ev
    case Create(n, m) => CreateSound(g, s, ev, s');
    case Post(n, m) => PostSound(g, s, ev, s');
    case Drop(n, i) => DropSound(g, s, ev, s');
    case Deliver(from, m, n, expiry) =>
      if Wraps(s, ev) {
        WrapBreaks(g, s, ev, s');
      } else {
        DeliverSound(g, s, ev, s');
      }
  }

  ghost predicate IsRun(g: Graph, xs: seq<Net>, evs: seq<Event>) {
    && |xs| == |evs| + 1 && xs[0] == Start()
    && forall i | 0 <= i < |evs| :: Next(g, xs[i], evs[i], xs[i + 1])
  }

  lemma {:induction false} RunSound(g: Graph, xs: seq<Net>, evs: seq<Event>, k: nat)
    requires IsRun(g, xs, evs) && k < |xs| && forall i | 0 <= i < k :: !Wraps(xs[i], evs[i])
    ensures Sound(g, xs[k])
  {
    hide Next, Wraps;
    if k > 0 {
      RunSound(g, xs, evs, k - 1);
      assert Next(g, xs[k - 1], evs[k - 1], xs[k]);
      NextKeepsSound(g, xs[k - 1], evs[k - 1], xs[k]);
    } else {
      StartSound(g);
    }
  }

  lemma StartSound(g: Graph)
    ensures Sound(g, Start())
  {
  }

  /** In every reachable state, short of a wrap, a remote entry or a message with hop count
      `h` has a publisher of its hash within `h` links; and when the content has only one
      publisher, that is the publisher the entry names. */
  lemma HopCountsAreDistances(g: Graph, xs: seq<Net>, evs: seq<Event>, k: nat, n: NodeId, m: Metadata)
    requires IsRun(g, xs, evs) && k < |xs| && forall i | 0 <= i < k :: !Wraps(xs[i], evs[i])
    requires m in TableOf(xs[k].rmt, n) || (n, m) in xs[k].air
    ensures SourceWithin(g, xs[k], m.hash, m.hops, n)
    ensures (forall p, q | (p, m.hash) in xs[k].published && (q, m.hash) in xs[k].published :: p == q) ==>
      n in Ball(g, m.publisher, m.hops)
  {
    RunSound(g, xs, evs, k);
    assert Justified(g, xs[k], n, m);
    var p :| (p, m.hash) in xs[k].published && n in Ball(g, p, m.hops);
    assert (m.publisher, m.hash) in xs[k].published;
  }

  // ---- Two publishers of one content

  /** The steps of the run below. */
  function StoryEvent(hash: Hash, i: nat): Event {
    var a := Metadata(hash, ["t"], 0, 0, 10000);
    var c := Metadata(hash, ["t"], 3, 0, 10000);
    match i
    case 0 => Create(0, a)
    case 1 => Post(0, a)
    case 2 => Deliver(0, a, 1, 10000)
    case 3 => Post(1, a.(hops := 1))
    case 4 => Deliver(1, a.(hops := 1), 2, 10000)
    case 5 => Create(3, c)
    case 6 => Post(3, c)
    case _ => Deliver(3, c, 2, 10000)
  }

  function Story(hash: Hash, i: nat): Net {
    if i == 0 then Net(map[], map[], {}, {}) else After(Story(hash, i - 1), StoryEvent(hash, i - 1))
  }

  const LINE: set<(NodeId, NodeId)> := {(0, 1), (1, 2), (3, 2)}

  lemma StoryTables(hash: Hash)
    ensures
      var a := Metadata(hash, ["t"], 0, 0, 10000);
      && TableOf(Story(hash, 1).local, 0) == [a]
      && (0, a) in Story(hash, 2).air
      && TableOf(Story(hash, 3).rmt, 1) == [a.(hops := 1)]
      && (1, a.(hops := 1)) in Story(hash, 4).air
      && TableOf(Story(hash, 5).rmt, 2) == [a.(hops := 2)]
  {
    var a := Metadata(hash, ["t"], 0, 0, 10000);
    var s1 := Story(hash, 1);
    assert s1 == After(Story(hash, 0), Create(0, a));
    var s2 := Story(hash, 2);
    assert s2 == After(s1, Post(0, a));
    var s3 := Story(hash, 3);
    assert s3 == After(s2, Deliver(0, a, 1, 10000));
    var s4 := Story(hash, 4);
    assert s4 == After(s3, Post(1, a.(hops := 1)));
    var s5 := Story(hash, 5);
    assert s5 == After(s4, Deliver(1, a.(hops := 1), 2, 10000));
    assert TableOf(s5.rmt, 2) == Received(2, [], a.(hops := 1));
  }

  lemma StoryEnds(hash: Hash)
    ensures
      var a, c := Metadata(hash, ["t"], 0, 0, 10000), Metadata(hash, ["t"], 3, 0, 10000);
      && TableOf(Story(hash, 6).local, 3) == [c]
      && (3, c) in Story(hash, 7).air
      && TableOf(Story(hash, 8).rmt, 2) == [a.(hops := 1)]
  {
    StoryTables(hash);
    var a, c := Metadata(hash, ["t"], 0, 0, 10000), Metadata(hash, ["t"], 3, 0, 10000);
    var s5, s6, s7, s8 := Story(hash, 5), Story(hash, 6), Story(hash, 7), Story(hash, 8);
    assert s6 == After(s5, Create(3, c));
    NoLocalsAtThree(hash);
    assert s7 == After(s6, Post(3, c));
    assert s8 == After(s7, Deliver(3, c, 2, 10000));
    assert TableOf(s8.rmt, 2) == Received(2, [a.(hops := 2)], c);
    assert Discovered([a.(hops := 2)], c.(hops := 1)) == [a.(hops := 1)] + [a.(hops := 2)][1..];
  }

  lemma NoLocalsAtThree(hash: Hash)
    ensures TableOf(Story(hash, 5).local, 3) == []
  {
    hide Received;
    var s1, s2, s3, s4, s5 := Story(hash, 1), Story(hash, 2), Story(hash, 3), Story(hash, 4), Story(hash, 5);
    assert s1 == After(Story(hash, 0), StoryEvent(hash, 0));
    assert s2 == After(s1, StoryEvent(hash, 1));
    assert s3 == After(s2, StoryEvent(hash, 2));
    assert s4 == After(s3, StoryEvent(hash, 3));
    assert s5 == After(s4, StoryEvent(hash, 4));
  }

  lemma StoryIsRun(hash: Hash, i: nat)
    requires i < 8
    ensures Next(LINE, Story(hash, i), StoryEvent(hash, i), Story(hash, i + 1))
  {
    hide After, Story, Received;
    StoryTables(hash);
    StoryEnds(hash);
    StoryUnfolds(hash, i);
  }

  lemma StoryUnfolds(hash: Hash, i: nat)
    ensures Story(hash, i + 1) == After(Story(hash, i), StoryEvent(hash, i))
  {
  }

  /** The publisher that an entry names can be farther away than its hop count: on the links
      0 - 1 - 2 - 3, node 2 first hears of the content from 0 and then, nearer, from 3, and
      only the hop count is replaced. */
  lemma NamedPublisherCanBeFarther(hash: Hash) returns (xs: seq<Net>, evs: seq<Event>, e: Metadata)
    ensures IsRun(LINE, xs, evs) && |evs| == 8 && forall i | 0 <= i < 8 :: !Wraps(xs[i], evs[i])
    ensures e in TableOf(xs[8].rmt, 2) && e.hash == hash && e.publisher == 0
    ensures 2 !in Ball(LINE, 0, e.hops)
  {
    hide Ball, Story, StoryEvent, Next, Wraps;
    xs, evs := seq(9, i requires 0 <= i => Story(hash, i)), seq(8, i requires 0 <= i => StoryEvent(hash, i));
    StoryStarts(hash);
    forall i: nat | i < 8
      ensures Next(LINE, xs[i], evs[i], xs[i + 1]) && !Wraps(xs[i], evs[i])
    {
      StoryIsRun(hash, i);
      NoStoryWrap(hash, i);
    }
    StoryEnds(hash);
    e := Metadata(hash, ["t"], 0, 1, 10000);
    TwoIsTwoAway();
  }

  lemma StoryStarts(hash: Hash)
    ensures Story(hash, 0) == Start()
  {
  }

  lemma NoStoryWrap(hash: Hash, i: nat)
    ensures !Wraps(Story(hash, i), StoryEvent(hash, i))
  {
    hide Story;
  }

  lemma TwoIsTwoAway()
    ensures 2 !in Ball(LINE, 0, 1)
  {
    assert Ball(LINE, 0, 0) == {0};
    assert 2 !in Hearers(LINE, {0});
  }
}
