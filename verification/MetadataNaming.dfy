/** Does an entry's hop count bound the distance to the publisher that it names? Exactly
    which deliveries keep that. */
module MetadataNaming {
  import opened Topology
  import opened Blocks
  import opened ContentHelpers
  import opened MetadataNetwork

  /** The publisher that `m` names is within its hop count of `n`. */
  ghost predicate Named(g: Graph, n: NodeId, m: Metadata) {
    m.hops < HOPS_MODULUS && n in Ball(g, m.publisher, m.hops)
  }

  /** That holds everywhere, and no node holds a remote entry for its own content. */
  ghost predicate NamedSound(g: Graph, s: Net) {
    && (forall n, m | m in TableOf(s.local, n) :: m.publisher == n && m.hops == 0)
    && (forall n, m | m in TableOf(s.rmt, n) :: GoodEntry(g, n, m))
    && (forall a | a in s.air :: Named(g, a.0, a.1))
  }

  /** The position of the first entry for `hash`, or the length of the table. */
  function Position(t: seq<Metadata>, hash: Hash): (i: nat)
    ensures i <= |t| && (i < |t| ==> t[i].hash == hash)
    ensures forall j | 0 <= j < i :: t[j].hash != hash
  {
    if t == [] then 0 else if t[0].hash == hash then 0 else 1 + Position(t[1..], hash)
  }

  /** A delivery that lowers an entry whose own publisher is farther away than the counted
      hops, or that adds an entry whose counter has wrapped. */
  ghost predicate BadDelivery(g: Graph, s: Net, ev: Event) {
    && ev.Deliver? && ev.m.publisher != ev.n
    && var t, h := TableOf(s.rmt, ev.n), (ev.m.hops + 1) % HOPS_MODULUS;
    && var i := Position(t, ev.m.hash);
    if i < |t| then h < t[i].hops && ev.n !in Ball(g, t[i].publisher, h) else ev.m.hops == HOPS_MODULUS - 1
  }

  /** What the receiver makes of the message. */
  function Counted(ev: Event): Metadata
    requires ev.Deliver?
  {
    ev.m.(hops := (ev.m.hops + 1) % HOPS_MODULUS, expiry := ev.expiry)
  }

  /** What a delivery from another publisher does to the table. */
  lemma DeliveredIs(t: seq<Metadata>, m: Metadata)
    ensures
      var i := Position(t, m.hash);
      Discovered(t, m) ==
        if i == |t| then t + [m] else if m.hops < t[i].hops then t[i := t[i].(hops := m.hops)] else t
  {
    var i := Position(t, m.hash);
    if i == |t| {
      DiscoveredNew(t, m);
    } else {
      DiscoveredAt(t, m, i);
    }
  }

  lemma CreateKeepsNames(g: Graph, s: Net, ev: Event, s': Net)
    requires NamedSound(g, s) && Next(g, s, ev, s') && ev.Create?
    ensures NamedSound(g, s')
  {
    hide Named;
    forall n, m | m in TableOf(s'.local, n)
      ensures m.publisher == n && m.hops == 0
    {
      if n != ev.n || m != ev.m {
        assert m in TableOf(s.local, n);
      }
    }
  }

  lemma PostKeepsNames(g: Graph, s: Net, ev: Event, s': Net)
    requires NamedSound(g, s) && Next(g, s, ev, s') && ev.Post?
    ensures NamedSound(g, s')
  {
    if ev.m in TableOf(s.local, ev.n) {
      assert ev.n in Ball(g, ev.n, 0);
    }
    assert Named(g, ev.n, ev.m);
    hide Named;
  }

  lemma DropKeepsNames(g: Graph, s: Net, ev: Event, s': Net)
    requires NamedSound(g, s) && Next(g, s, ev, s') && ev.Drop?
    ensures NamedSound(g, s')
  {
    hide Named;
    forall n, m | m in TableOf(s'.rmt, n)
      ensures m in TableOf(s.rmt, n)
    {
    }
  }

  lemma BumpedNamed(g: Graph, from: NodeId, m: Metadata, n: NodeId)
    requires Named(g, from, m) && (from, n) in g && m.hops != HOPS_MODULUS - 1
    ensures Named(g, n, m.(hops := (m.hops + 1) % HOPS_MODULUS))
  {
    BallStep(g, m.publisher, m.hops, from, n);
  }

  lemma HomeOnly(g: Graph, p: NodeId, n: NodeId)
    ensures n in Ball(g, p, 0) <==> n == p
  {
  }

  ghost predicate GoodEntry(g: Graph, n: NodeId, e: Metadata) { Named(g, n, e) && e.publisher != n }

  /** The table after a discovery, entry by entry. */
  lemma TableNamed(g: Graph, n: NodeId, t: seq<Metadata>, b: Metadata)
    requires forall e | e in t :: GoodEntry(g, n, e)
    ensures
      var i := Position(t, b.hash);
      (forall e | e in Discovered(t, b) :: GoodEntry(g, n, e)) <==>
        if i == |t| then GoodEntry(g, n, b) else b.hops < t[i].hops ==> GoodEntry(g, n, t[i].(hops := b.hops))
  {
    var i := Position(t, b.hash);
    var t' := Discovered(t, b);
    DeliveredIs(t, b);
    hide Position, Discovered, GoodEntry;
    if i == |t| {
      assert t'[i] == b;
    } else if b.hops < t[i].hops {
      assert t'[i] == t[i].(hops := b.hops);
    }
  }

  lemma DeliveredNamed(g: Graph, s: Net, ev: Event, s': Net)
    requires NamedSound(g, s) && Next(g, s, ev, s') && ev.Deliver? && ev.m.publisher != ev.n
    ensures (forall e | e in TableOf(s'.rmt, ev.n) :: GoodEntry(g, ev.n, e)) <==> !BadDelivery(g, s, ev)
  {
    var t, b := TableOf(s.rmt, ev.n), Counted(ev);
    assert TableOf(s'.rmt, ev.n) == Discovered(t, b);
    MessageNamed(g, s, ev);
    GoodNow(g, s, ev.n);
    TableNamed(g, ev.n, t, b);
    BadMeans(g, s, ev);
  }

  lemma GoodNow(g: Graph, s: Net, n: NodeId)
    requires NamedSound(g, s)
    ensures forall e | e in TableOf(s.rmt, n) :: GoodEntry(g, n, e)
  {
    hide Named;
  }

  lemma MessageNamed(g: Graph, s: Net, ev: Event)
    requires NamedSound(g, s) && Enabled(g, s, ev) && ev.Deliver? && ev.m.publisher != ev.n
    ensures ev.m.hops < HOPS_MODULUS
    ensures Named(g, ev.n, Counted(ev)) <==> ev.m.hops != HOPS_MODULUS - 1
  {
    var a := (ev.from, ev.m);
    assert a in s.air;
    if ev.m.hops != HOPS_MODULUS - 1 {
      BumpedNamed(g, ev.from, ev.m, ev.n);
    } else {
      HomeOnly(g, ev.m.publisher, ev.n);
    }
  }

  lemma BadMeans(g: Graph, s: Net, ev: Event)
    requires ev.Deliver? && ev.m.publisher != ev.n && ev.m.hops < HOPS_MODULUS
    requires forall e | e in TableOf(s.rmt, ev.n) :: GoodEntry(g, ev.n, e)
    requires Named(g, ev.n, Counted(ev)) <==> ev.m.hops != HOPS_MODULUS - 1
    ensures
      var t, b := TableOf(s.rmt, ev.n), Counted(ev);
      var i := Position(t, b.hash);
      !BadDelivery(g, s, ev) <==>
        if i == |t| then GoodEntry(g, ev.n, b) else b.hops < t[i].hops ==> GoodEntry(g, ev.n, t[i].(hops := b.hops))
  {
    hide Ball, Position;
    var t := TableOf(s.rmt, ev.n);
    var i := Position(t, ev.m.hash);
    if i < |t| {
      assert GoodEntry(g, ev.n, t[i]);
    }
  }

  lemma DeliverKeepsRest(g: Graph, s: Net, ev: Event, s': Net)
    requires NamedSound(g, s) && Next(g, s, ev, s') && ev.Deliver?
    ensures NamedSound(g, s') <==> forall e | e in TableOf(s'.rmt, ev.n) :: GoodEntry(g, ev.n, e)
  {
    hide GoodEntry, Named, Received;
    assert s'.local == s.local && s'.air == s.air;
    forall n: NodeId | n != ev.n
      ensures TableOf(s'.rmt, n) == TableOf(s.rmt, n)
    {
    }
  }

  /** Every step keeps named publishers within their hop counts, except exactly the bad
      deliveries. */
  lemma NextKeepsNames(g: Graph, s: Net, ev: Event, s': Net)
    requires NamedSound(g, s) && Next(g, s, ev, s')
    ensures NamedSound(g, s') <==> !BadDelivery(g, s, ev)
  {
    hide NamedSound;
    match ev
    case Create(n, m) => CreateKeepsNames(g, s, ev, s');
    case Post(n, m) => PostKeepsNames(g, s, ev, s');
    case Drop(n, i) => DropKeepsNames(g, s, ev, s');
    case Deliver(from, m, n, expiry) =>
      DeliverKeepsRest(g, s, ev, s');
      if m.publisher != n {
        DeliveredNamed(g, s, ev, s');
      } else {
        NothingReceived(g, s, ev, s');
      }
  }

  lemma NothingReceived(g: Graph, s: Net, ev: Event, s': Net)
    requires NamedSound(g, s) && Next(g, s, ev, s') && ev.Deliver? && ev.m.publisher == ev.n
    ensures forall e | e in TableOf(s'.rmt, ev.n) :: GoodEntry(g, ev.n, e)
  {
    hide Named;
    assert TableOf(s'.rmt, ev.n) == TableOf(s.rmt, ev.n);
  }

  lemma StartNamed(g: Graph)
    ensures NamedSound(g, Start())
  {
  }

  /** Over a run, named publishers stay within their hop counts up to state `k` if and only
      if none of the first `k` steps is a bad delivery. */
  lemma {:induction false} RunKeepsNames(g: Graph, xs: seq<Net>, evs: seq<Event>, k: nat)
    requires IsRun(g, xs, evs) && k < |xs|
    ensures (forall i | 0 <= i <= k :: NamedSound(g, xs[i])) <==> forall i | 0 <= i < k :: !BadDelivery(g, xs[i], evs[i])
  {
    hide NamedSound, BadDelivery, Next;
    if k == 0 {
      StartNamed(g);
    } else {
      RunKeepsNames(g, xs, evs, k - 1);
      assert Next(g, xs[k - 1], evs[k - 1], xs[k]);
      if NamedSound(g, xs[k - 1]) {
        NextKeepsNames(g, xs[k - 1], evs[k - 1], xs[k]);
      }
    }
  }

  /** So in every state before the first bad delivery an entry or message with hop count `h`
      has the publisher it names within `h` links. */
  lemma NamedWithinHops(g: Graph, xs: seq<Net>, evs: seq<Event>, k: nat, n: NodeId, m: Metadata)
    requires IsRun(g, xs, evs) && k < |xs| && forall i | 0 <= i < k :: !BadDelivery(g, xs[i], evs[i])
    requires m in TableOf(xs[k].rmt, n) || (n, m) in xs[k].air
    ensures n in Ball(g, m.publisher, m.hops)
  {
    hide BadDelivery, IsRun;
    RunKeepsNames(g, xs, evs, k);
    assert NamedSound(g, xs[k]);
    var a := (n, m);
    assert a in xs[k].air ==> Named(g, a.0, a.1);
  }

  /** Hearing of an entry's own publisher is always safe, short of a wrap. */
  lemma SamePublisherIsSafe(g: Graph, s: Net, ev: Event)
    requires NamedSound(g, s) && ev.Deliver? && Enabled(g, s, ev) && ev.m.hops != HOPS_MODULUS - 1
    requires
      var t := TableOf(s.rmt, ev.n);
      var i := Position(t, ev.m.hash);
      i < |t| ==> t[i].publisher == ev.m.publisher
    ensures !BadDelivery(g, s, ev)
  {
    var a := (ev.from, ev.m);
    assert a in s.air;
    BumpedNamed(g, ev.from, ev.m, ev.n);
  }

  /** The run with two publishers ends with a bad delivery, its only one. */
  lemma StoryEndsBadly(hash: Hash)
    ensures BadDelivery(LINE, Story(hash, 7), StoryEvent(hash, 7))
    ensures forall i | 0 <= i < 7 :: !BadDelivery(LINE, Story(hash, i), StoryEvent(hash, i))
  {
    hide BadDelivery, Story;
    LastIsBad(hash);
    forall i | 0 <= i < 7
      ensures !BadDelivery(LINE, Story(hash, i), StoryEvent(hash, i))
    {
      FirstAreGood(hash, i);
    }
  }

  lemma LastIsBad(hash: Hash)
    ensures BadDelivery(LINE, Story(hash, 7), StoryEvent(hash, 7))
  {
    hide Story, Ball;
    LastTable(hash);
    TwoIsTwoAway();
    var t := TableOf(Story(hash, 7).rmt, 2);
    assert t[0].hash == hash && Position(t, hash) == 0;
  }

  lemma FirstAreGood(hash: Hash, i: nat)
    requires i < 7
    ensures !BadDelivery(LINE, Story(hash, i), StoryEvent(hash, i))
  {
    hide Story, Ball;
    EarlyTables(hash);
  }

  lemma LastTable(hash: Hash)
    ensures TableOf(Story(hash, 7).rmt, 2) == [Metadata(hash, ["t"], 0, 2, 10000)]
  {
    StoryTables(hash);
    var s5, s6, s7 := Story(hash, 5), Story(hash, 6), Story(hash, 7);
    assert s6 == After(s5, StoryEvent(hash, 5));
    assert s7 == After(s6, StoryEvent(hash, 6));
  }

  lemma EarlyTables(hash: Hash)
    ensures TableOf(Story(hash, 2).rmt, 1) == [] && TableOf(Story(hash, 4).rmt, 2) == []
  {
    var s0, s1, s2, s3, s4 := Story(hash, 0), Story(hash, 1), Story(hash, 2), Story(hash, 3), Story(hash, 4);
    assert s1 == After(s0, StoryEvent(hash, 0));
    assert s2 == After(s1, StoryEvent(hash, 1));
    assert s3 == After(s2, StoryEvent(hash, 2));
    assert s4 == After(s3, StoryEvent(hash, 3));
  }
}
