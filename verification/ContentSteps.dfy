/** The content helper's methods are steps of the network: what `create_new`,
    `announce_metadata` and `receive` do to a node's tables is what the events do. */
module ContentSteps {
  import opened Topology
  import opened Blocks
  import opened ContentHelpers
  import MetadataNetwork
  import MetadataRounds

  type Net = MetadataNetwork.Net
  type Event = MetadataNetwork.Event

  /** The metadata in a node's local table. */
  function Locals(lmt: seq<LocalMetadata>): (r: seq<Metadata>)
    ensures |r| == |lmt| && forall i | 0 <= i < |r| :: r[i] == lmt[i].data
  {
    seq(|lmt|, i requires 0 <= i < |lmt| => lmt[i].data)
  }

  /** The network's tables for node `n` are these. */
  ghost predicate Shows(s: Net, n: NodeId, lmt: seq<LocalMetadata>, rmt: seq<Metadata>) {
    TableOf(s.local, n) == Locals(lmt) && TableOf(s.rmt, n) == rmt
  }

  function AfterAll(s: Net, evs: seq<Event>): Net {
    if evs == [] then s else MetadataNetwork.After(AfterAll(s, evs[..|evs| - 1]), evs[|evs| - 1])
  }

  /** Each event can happen when its turn comes. */
  ghost predicate EnabledAll(g: Graph, s: Net, evs: seq<Event>) {
    forall i | 0 <= i < |evs| :: MetadataNetwork.Enabled(g, AfterAll(s, evs[..i]), evs[i])
  }

  lemma {:induction false} AfterMore(s: Net, evs: seq<Event>, more: seq<Event>)
    ensures AfterAll(s, evs + more) == AfterAll(AfterAll(s, evs), more)
    decreases |more|
  {
    if more == [] {
      assert evs + more == evs;
    } else {
      var n := |more| - 1;
      AfterMore(s, evs, more[..n]);
      PrefixOfSum(evs, more, n);
      hide MetadataNetwork.After;
    }
  }

  lemma PrefixOfSum(evs: seq<Event>, more: seq<Event>, i: nat)
    requires i <= |more|
    ensures (evs + more)[..|evs| + i] == evs + more[..i]
    ensures forall j | 0 <= j < |evs| :: (evs + more)[..j] == evs[..j]
  {
  }

  lemma EnabledFront(g: Graph, s: Net, evs: seq<Event>, more: seq<Event>, i: nat)
    requires EnabledAll(g, s, evs) && i < |evs|
    ensures MetadataNetwork.Enabled(g, AfterAll(s, (evs + more)[..i]), (evs + more)[i])
  {
    hide AfterAll, MetadataNetwork.Enabled;
    PrefixOfSum(evs, more, 0);
  }

  lemma EnabledBack(g: Graph, s: Net, evs: seq<Event>, more: seq<Event>, k: nat)
    requires EnabledAll(g, AfterAll(s, evs), more) && k < |more|
    ensures MetadataNetwork.Enabled(g, AfterAll(s, (evs + more)[..|evs| + k]), (evs + more)[|evs| + k])
  {
    hide AfterAll, MetadataNetwork.Enabled;
    PrefixOfSum(evs, more, k);
    AfterMore(s, evs, more[..k]);
  }

  lemma EnabledMore(g: Graph, s: Net, evs: seq<Event>, more: seq<Event>)
    requires EnabledAll(g, s, evs) && EnabledAll(g, AfterAll(s, evs), more)
    ensures EnabledAll(g, s, evs + more)
  {
    forall i | 0 <= i < |evs + more|
      ensures MetadataNetwork.Enabled(g, AfterAll(s, (evs + more)[..i]), (evs + more)[i])
    {
      hide *;
      if i < |evs| {
        EnabledFront(g, s, evs, more, i);
      } else {
        EnabledBack(g, s, evs, more, i - |evs|);
      }
    }
    hide AfterAll, MetadataNetwork.Enabled;
  }

  lemma EnabledOne(g: Graph, s: Net, ev: Event)
    requires MetadataNetwork.Enabled(g, s, ev)
    ensures EnabledAll(g, s, [ev]) && AfterAll(s, [ev]) == MetadataNetwork.After(s, ev)
  {
    var evs := [ev];
    assert evs[..0] == [];
  }

  lemma NoEvents(g: Graph, s: Net)
    ensures EnabledAll(g, s, []) && AfterAll(s, []) == s
  {
  }

  // ---- Creating

  /** `create_new` is one `Create` that any state allows. */
  lemma CreateIsStep(g: Graph, s: Net, n: NodeId, lmt: seq<LocalMetadata>, rmt: seq<Metadata>, m: Metadata, now: int)
    requires Shows(s, n, lmt, rmt) && m.publisher == n && m.hops == 0
    ensures MetadataNetwork.Enabled(g, s, MetadataNetwork.Create(n, m))
    ensures Shows(MetadataNetwork.After(s, MetadataNetwork.Create(n, m)), n, lmt + [LocalMetadata(m, now, now)], rmt)
  {
    assert Locals(lmt) + [m] == Locals(lmt + [LocalMetadata(m, now, now)]);
  }

  // ---- Receiving

  /** A piece that was sent at `sent`, with the life it then had left, and is heard at `now`. */
  function Heard(m: Metadata, sent: int, now: int): Metadata {
    m.(expiry := now + if sent >= m.expiry then 0 else m.expiry - sent)
  }

  function HeardAll(ms: seq<Metadata>, sent: int, now: int): (r: seq<Metadata>)
    ensures |r| == |ms| && forall i | 0 <= i < |r| :: r[i] == Heard(ms[i], sent, now)
  {
    seq(|ms|, i requires 0 <= i < |ms| => Heard(ms[i], sent, now))
  }

  /** A message is as many deliveries as it has pieces. */
  function Deliveries(from: NodeId, n: NodeId, ms: seq<Metadata>, sent: int, now: int): (evs: seq<Event>)
    ensures |evs| == |ms|
  {
    seq(|ms|, i requires 0 <= i < |ms| => MetadataNetwork.Deliver(from, ms[i], n, Heard(ms[i], sent, now).expiry))
  }

  /** `receive` is the delivery of every piece in order, each with the life it has left;
      nothing but the receiver's remote table changes. */
  lemma {:induction false} ReceiveIsDeliveries(g: Graph, s: Net, from: NodeId, n: NodeId, ms: seq<Metadata>, sent: int, now: int)
    requires (from, n) in g && forall m | m in ms :: (from, m) in s.air
    ensures EnabledAll(g, s, Deliveries(from, n, ms, sent, now))
    ensures
      var s' := AfterAll(s, Deliveries(from, n, ms, sent, now));
      && TableOf(s'.rmt, n) == ReceivedAll(n, TableOf(s.rmt, n), HeardAll(ms, sent, now))
      && (forall k: NodeId | k != n :: TableOf(s'.rmt, k) == TableOf(s.rmt, k))
      && s'.local == s.local && s'.air == s.air && s'.published == s.published
    decreases |ms|
  {
    if ms == [] {
      assert Deliveries(from, n, ms, sent, now) == [];
      NoEvents(g, s);
    } else {
      var k := |ms| - 1;
      var init, m := Deliveries(from, n, ms[..k], sent, now), Heard(ms[k], sent, now);
      var ev := MetadataNetwork.Deliver(from, ms[k], n, m.expiry);
      ReceiveIsDeliveries(g, s, from, n, ms[..k], sent, now);
      DeliveriesLast(from, n, ms, sent, now);
      HeardLast(n, TableOf(s.rmt, n), ms, sent, now);
      assert ms[k] in ms;
      hide AfterAll, EnabledAll, Deliveries, Received, ReceivedAll, HeardAll;
      DeliverOne(g, AfterAll(s, init), from, n, ms[k], m.expiry);
      EnabledMore(g, s, init, [ev]);
      AfterMore(s, init, [ev]);
    }
  }

  lemma HeardLast(n: NodeId, rmt: seq<Metadata>, ms: seq<Metadata>, sent: int, now: int)
    requires ms != []
    ensures
      var k := |ms| - 1;
      ReceivedAll(n, rmt, HeardAll(ms, sent, now)) ==
        Received(n, ReceivedAll(n, rmt, HeardAll(ms[..k], sent, now)), Heard(ms[k], sent, now))
  {
    var k, heard := |ms| - 1, HeardAll(ms, sent, now);
    assert heard[..k] == HeardAll(ms[..k], sent, now);
  }

  lemma DeliveriesLast(from: NodeId, n: NodeId, ms: seq<Metadata>, sent: int, now: int)
    requires ms != []
    ensures
      var k := |ms| - 1;
      Deliveries(from, n, ms, sent, now) ==
        Deliveries(from, n, ms[..k], sent, now) + [MetadataNetwork.Deliver(from, ms[k], n, Heard(ms[k], sent, now).expiry)]
  {
  }

  lemma DeliverOne(g: Graph, s: Net, from: NodeId, n: NodeId, m: Metadata, expiry: int)
    requires (from, n) in g && (from, m) in s.air
    ensures
      var ev := MetadataNetwork.Deliver(from, m, n, expiry);
      var s' := AfterAll(s, [ev]);
      && EnabledAll(g, s, [ev]) && TableOf(s'.rmt, n) == Received(n, TableOf(s.rmt, n), m.(expiry := expiry))
      && (forall k: NodeId | k != n :: TableOf(s'.rmt, k) == TableOf(s.rmt, k))
      && s'.local == s.local && s'.air == s.air && s'.published == s.published
  {
    EnabledOne(g, s, MetadataNetwork.Deliver(from, m, n, expiry));
  }

  // ---- Announcing

  function Posts(n: NodeId, ms: seq<Metadata>): (evs: seq<Event>)
    ensures |evs| == |ms|
  {
    seq(|ms|, i requires 0 <= i < |ms| => MetadataNetwork.Post(n, ms[i]))
  }

  lemma {:induction false} PostsArePosted(g: Graph, s: Net, n: NodeId, ms: seq<Metadata>)
    requires forall m | m in ms :: m in TableOf(s.local, n) || m in TableOf(s.rmt, n)
    ensures EnabledAll(g, s, Posts(n, ms))
    ensures
      var s' := AfterAll(s, Posts(n, ms));
      && s'.local == s.local && s'.rmt == s.rmt && s'.published == s.published
      && forall a :: a in s'.air <==> a in s.air || (a.0 == n && a.1 in ms)
    decreases |ms|
  {
    var evs := Posts(n, ms);
    if ms == [] {
      assert evs == [];
      NoEvents(g, s);
    } else {
      var k := |ms| - 1;
      var init := Posts(n, ms[..k]);
      PostsArePosted(g, s, n, ms[..k]);
      var ev := MetadataNetwork.Post(n, ms[k]);
      assert evs == init + [ev];
      assert ms == ms[..k] + [ms[k]];
      assert ms[k] in ms;
      hide AfterAll, EnabledAll;
      EnabledOne(g, AfterAll(s, init), ev);
      EnabledMore(g, s, init, [ev]);
      AfterMore(s, init, [ev]);
    }
  }

  /** `s'` differs from `s` in the remote table of `n` only, which is `rmt` there. */
  ghost predicate OnlyTable(s: Net, s': Net, n: NodeId, rmt: seq<Metadata>) {
    TableOf(s'.rmt, n) == rmt && s'.local == s.local && s'.air == s.air && s'.published == s.published
  }

  lemma OnlyTableTwice(s: Net, s1: Net, s2: Net, n: NodeId, rmt1: seq<Metadata>, rmt2: seq<Metadata>)
    requires OnlyTable(s, s1, n, rmt1) && OnlyTable(s1, s2, n, rmt2)
    ensures OnlyTable(s, s2, n, rmt2)
  {
  }

  lemma DropOne(g: Graph, s: Net, n: NodeId, rmt: seq<Metadata>, kept: seq<Metadata>)
    requires rmt != [] && TableOf(s.rmt, n) == rmt + kept
    ensures
      var k := |rmt| - 1;
      var evs := [MetadataNetwork.Drop(n, k)];
      && EnabledAll(g, s, evs) && OnlyTable(s, AfterAll(s, evs), n, rmt[..k] + kept)
      && TableOf(AfterAll(s, evs).rmt, n) == rmt[..k] + kept
  {
    EnabledOne(g, s, MetadataNetwork.Drop(n, |rmt| - 1));
  }

  /** Dropping the expired entries of `rmt` one by one, the last one first. */
  lemma {:induction false} DropsToFresh(g: Graph, s: Net, n: NodeId, rmt: seq<Metadata>, kept: seq<Metadata>, now: int) returns (evs: seq<Event>)
    requires TableOf(s.rmt, n) == rmt + kept
    ensures EnabledAll(g, s, evs) && OnlyTable(s, AfterAll(s, evs), n, Fresh(rmt, now) + kept)
    decreases |rmt|
  {
    hide AfterAll, EnabledAll, Fresh, OnlyTable;
    if rmt == [] {
      evs := [];
      NothingToDrop(g, s, n, kept, now);
    } else {
      var k := |rmt| - 1;
      if now >= rmt[k].expiry {
        FreshDropped(rmt, now);
        var first := [MetadataNetwork.Drop(n, k)];
        DropOne(g, s, n, rmt, kept);
        var s1 := AfterAll(s, first);
        var rest := DropsToFresh(g, s1, n, rmt[..k], kept, now);
        evs := first + rest;
        EnabledMore(g, s, first, rest);
        AfterMore(s, first, rest);
        OnlyTableTwice(s, s1, AfterAll(s1, rest), n, rmt[..k] + kept, Fresh(rmt[..k], now) + kept);
      } else {
        FreshKept(rmt, kept, now);
        evs := DropsToFresh(g, s, n, rmt[..k], [rmt[k]] + kept, now);
      }
    }
  }

  lemma NothingToDrop(g: Graph, s: Net, n: NodeId, kept: seq<Metadata>, now: int)
    requires TableOf(s.rmt, n) == [] + kept
    ensures EnabledAll(g, s, []) && OnlyTable(s, AfterAll(s, []), n, Fresh([], now) + kept)
  {
    NoEvents(g, s);
    assert Fresh([], now) == [];
  }

  lemma FreshDropped(rmt: seq<Metadata>, now: int)
    requires rmt != [] && now >= rmt[|rmt| - 1].expiry
    ensures Fresh(rmt, now) == Fresh(rmt[..|rmt| - 1], now)
  {
    FreshLast(rmt, now);
    hide Fresh;
  }

  lemma FreshKept(rmt: seq<Metadata>, kept: seq<Metadata>, now: int)
    requires rmt != [] && now < rmt[|rmt| - 1].expiry
    ensures
      var k := |rmt| - 1;
      && rmt + kept == rmt[..k] + ([rmt[k]] + kept)
      && Fresh(rmt, now) + kept == Fresh(rmt[..k], now) + ([rmt[k]] + kept)
  {
    FreshLast(rmt, now);
    hide Fresh;
    assert rmt == rmt[..|rmt| - 1] + [rmt[|rmt| - 1]];
  }

  lemma FreshLast(rmt: seq<Metadata>, now: int)
    requires rmt != []
    ensures
      var k := |rmt| - 1;
      Fresh(rmt, now) == Fresh(rmt[..k], now) + if now >= rmt[k].expiry then [] else [rmt[k]]
  {
  }

  /** `announce_metadata` drops the expired entries and posts the message, piece by piece. */
  lemma AnnounceIsSteps(g: Graph, s: Net, n: NodeId, lmt: seq<LocalMetadata>, rmt: seq<Metadata>, now: int, interesting: Metadata -> bool)
    returns (evs: seq<Event>)
    requires Shows(s, n, lmt, rmt)
    ensures EnabledAll(g, s, evs)
    ensures
      var s' := AfterAll(s, evs);
      && Shows(s', n, AfterAnnounce(lmt, now), Fresh(rmt, now)) && s'.published == s.published
      && forall a :: a in s'.air <==> a in s.air || (a.0 == n && a.1 in DueLocals(lmt, now) + Interesting(Fresh(rmt, now), interesting))
  {
    var left, msg := Fresh(rmt, now), DueLocals(lmt, now) + Interesting(Fresh(rmt, now), interesting);
    assert rmt + [] == rmt && left + [] == left;
    var drops := DropsToFresh(g, s, n, rmt, [], now);
    var s1 := AfterAll(s, drops);
    AnnouncedFrom(lmt, left, now, interesting);
    hide AfterAll, EnabledAll, Fresh, DueLocals, Interesting;
    forall m | m in msg
      ensures m in TableOf(s1.local, n) || m in TableOf(s1.rmt, n)
    {
      if m in DueLocals(lmt, now) {
        var l :| l in lmt && now >= l.nextAnnounce && l.data == m;
        InLocals(lmt, l);
      }
    }
    PostsArePosted(g, s1, n, msg);
    evs := drops + Posts(n, msg);
    EnabledMore(g, s, drops, Posts(n, msg));
    AfterMore(s, drops, Posts(n, msg));
    AnnouncedLocals(lmt, now);
  }

  lemma InLocals(lmt: seq<LocalMetadata>, l: LocalMetadata)
    requires l in lmt
    ensures l.data in Locals(lmt)
  {
    var i :| 0 <= i < |lmt| && lmt[i] == l;
    assert Locals(lmt)[i] == l.data;
  }

  lemma {:induction false} AnnouncedLocals(lmt: seq<LocalMetadata>, now: int)
    ensures Locals(AfterAnnounce(lmt, now)) == Locals(lmt)
  {
    if lmt != [] {
      var k := |lmt| - 1;
      AnnouncedLocals(lmt[..k], now);
      var after := AfterAnnounce(lmt, now);
      assert after[..k] == AfterAnnounce(lmt[..k], now);
      assert after[k].data == lmt[k].data;
      assert Locals(after)[..k] == Locals(after[..k]) == Locals(lmt[..k]) == Locals(lmt)[..k];
      assert Locals(after) == Locals(after)[..k] + [after[k].data];
      assert Locals(lmt) == Locals(lmt)[..k] + [lmt[k].data];
    }
  }

  /** When every local entry is due and every remote one is fresh and interesting, the
      message holds exactly what a node announces in a full round. */
  lemma AnnouncesInFull(s: MetadataRounds.Tables, q: NodeId, lmt: seq<LocalMetadata>, rmt: seq<Metadata>, now: int,
                        interesting: Metadata -> bool)
    requires TableOf(s.local, q) == Locals(lmt) && TableOf(s.rmt, q) == rmt
    requires (forall l | l in lmt :: now >= l.nextAnnounce) && forall m | m in rmt :: now < m.expiry && interesting(m)
    ensures forall m :: m in DueLocals(lmt, now) + Interesting(Fresh(rmt, now), interesting) <==> MetadataRounds.Announces(s, q, m)
  {
    hide DueLocals, Interesting, Fresh;
    AllFresh(rmt, now);
    AnnouncedFrom(lmt, rmt, now, interesting);
    forall m
      ensures m in DueLocals(lmt, now) <==> m in Locals(lmt)
    {
      if m in Locals(lmt) {
        var i :| 0 <= i < |Locals(lmt)| && Locals(lmt)[i] == m;
        assert lmt[i] in lmt;
      }
      if m in DueLocals(lmt, now) {
        var l :| l in lmt && now >= l.nextAnnounce && l.data == m;
        InLocals(lmt, l);
      }
    }
  }

  lemma {:induction false} AllFresh(rmt: seq<Metadata>, now: int)
    requires forall m | m in rmt :: now < m.expiry
    ensures Fresh(rmt, now) == rmt
  {
    if rmt != [] {
      var k := |rmt| - 1;
      AllFresh(rmt[..k], now);
      assert rmt[k] in rmt;
      assert rmt == rmt[..k] + [rmt[k]];
    }
  }

  // ---- From publishing to hearing

  /** What one node publishes and announces, another that hears it knows at one link. */
  method PublishAndHear(a: ContentHelper, b: ContentHelper, hash: Hash, types: seq<ContentType>, now: int, later: int,
                        arrival: int, interesting: Metadata -> bool)
    returns (m: Metadata, msg: seq<Metadata>)
    requires a != b && a.id != b.id && now <= later
    modifies a, b
    ensures m in msg && m.hash == hash && m.publisher == a.id
    ensures HopsOf(b.rmt, hash).Known? && HopsOf(b.rmt, hash).count <= 1
  {
    hide DueLocals, Interesting, Fresh, ReceivedAll, HopsOf;
    m := a.CreateNew(hash, types, now);
    AnnouncedFrom(a.lmt, a.rmt, later, interesting);
    assert a.lmt[|a.lmt| - 1] in a.lmt;
    msg := a.Announce(later, interesting);
    assert m in msg;
    var heard := HeardAll(msg, later, arrival);
    ghost var i: nat :| i < |msg| && msg[i] == m;
    assert heard[i] in heard;
    MetadataRounds.ReceivedAllLeast(b.id, b.rmt, heard, hash);
    b.Receive(heard);
    assert MetadataRounds.Counts(b.id, hash, heard[i]) && MetadataRounds.Bumped(heard[i]) == 1;
  }
}
