/** Runs of content helper objects in which hop counts stop meaning distances. */
module ContentRuns {
  import opened Topology
  import opened Blocks
  import opened ContentHelpers
  import opened ContentSteps
  import MetadataNetwork

  /** What a node looks for whose one interest is in `kind`. */
  function Wants(kind: ContentType): Metadata -> bool { (m: Metadata) => kind in m.types }

  /** A node that holds an interest in `kind` announces what it knows, and the message is
      heard by another. */
  method Tell(a: ContentHelper, b: ContentHelper, kind: ContentType, sent: int, arrival: int)
    requires a != b
    modifies a, b`rmt
    ensures a.rmt == Fresh(old(a.rmt), sent) && a.lmt == AfterAnnounce(old(a.lmt), sent)
    ensures
      var msg := DueLocals(old(a.lmt), sent) + Interesting(Fresh(old(a.rmt), sent), Wants(kind));
      b.rmt == ReceivedAll(b.id, old(b.rmt), HeardAll(msg, sent, arrival))
  {
    hide DueLocals, Interesting, Fresh, AfterAnnounce, ReceivedAll, HeardAll;
    var msg := a.Announce(sent, Wants(kind));
    b.Receive(HeardAll(msg, sent, arrival));
  }

  /** One piece of metadata after one link. */
  function OneHop(m: Metadata, sent: int, arrival: int): Metadata {
    m.(expiry := arrival + m.expiry - sent, hops := (m.hops + 1) % HOPS_MODULUS)
  }

  lemma OneHeard(id: NodeId, rmt: seq<Metadata>, m: Metadata, sent: int, arrival: int)
    requires m.publisher != id && sent < m.expiry
    ensures ReceivedAll(id, rmt, HeardAll([m], sent, arrival)) == Discovered(rmt, OneHop(m, sent, arrival))
  {
    hide Discovered;
    var ms := HeardAll([m], sent, arrival);
    assert ms[..0] == [];
  }

  /** A node tells another of what it just created. */
  method TellNew(a: ContentHelper, b: ContentHelper, m: Metadata, kind: ContentType, sent: int, arrival: int)
    requires a != b && a.lmt == [LocalMetadata(m, sent, sent)] && a.rmt == []
    requires m.publisher != b.id && sent < m.expiry
    modifies a, b`rmt
    ensures a.rmt == [] && b.rmt == Discovered(old(b.rmt), OneHop(m, sent, arrival))
  {
    LocalMessage(m, sent, kind);
    OneHeard(b.id, b.rmt, m, sent, arrival);
    hide *;
    Tell(a, b, kind, sent, arrival);
  }

  lemma LocalMessage(m: Metadata, sent: int, kind: ContentType)
    ensures DueLocals([LocalMetadata(m, sent, sent)], sent) + Interesting(Fresh([], sent), Wants(kind)) == [m]
    ensures Fresh([], sent) == []
  {
    var l := LocalMetadata(m, sent, sent);
    assert [l][..0] == [];
  }

  /** A node tells another of the only content that it has heard of. */
  method TellOn(a: ContentHelper, b: ContentHelper, m: Metadata, kind: ContentType, sent: int, arrival: int)
    requires a != b && a.lmt == [] && a.rmt == [m]
    requires m.publisher != b.id && sent < m.expiry && kind in m.types
    modifies a, b`rmt
    ensures a.lmt == [] && a.rmt == [m] && b.rmt == Discovered(old(b.rmt), OneHop(m, sent, arrival))
  {
    RemoteMessage(m, sent, kind);
    OneHeard(b.id, b.rmt, m, sent, arrival);
    hide *;
    Tell(a, b, kind, sent, arrival);
  }

  lemma RemoteMessage(m: Metadata, sent: int, kind: ContentType)
    requires sent < m.expiry && kind in m.types
    ensures DueLocals([], sent) + Interesting(Fresh([m], sent), Wants(kind)) == [m]
    ensures Fresh([m], sent) == [m] && AfterAnnounce([], sent) == []
  {
    assert [m][..0] == [];
  }

  /** A node whose only entry has expired drops it. */
  method Forget(b: ContentHelper, kind: ContentType, sent: int)
    requires b.lmt == [] && (b.rmt == [] || (|b.rmt| == 1 && sent >= b.rmt[0].expiry))
    modifies b
    ensures b.lmt == [] && b.rmt == []
  {
    NothingLeft(b.rmt, sent);
    hide *;
    var _ := b.Announce(sent, Wants(kind));
  }

  lemma NothingLeft(rmt: seq<Metadata>, sent: int)
    requires rmt == [] || (|rmt| == 1 && sent >= rmt[0].expiry)
    ensures Fresh(rmt, sent) == [] && AfterAnnounce([], sent) == []
  {
    if rmt != [] {
      assert rmt[..0] == [];
    }
  }

  // ---- Two publishers of one content

  /** On the links 0 to 1, 1 to 2 and 3 to 2, with one millisecond a link, node 2 ends with
      an entry that names 0 and has hop count 1, though 0 is two links away. */
  method TwoPublishers(hash: Hash, kind: ContentType) returns (nodes: seq<ContentHelper>)
    ensures |nodes| == 4 && forall i | 0 <= i < 4 :: nodes[i].id == i
    ensures nodes[2].rmt == [Metadata(hash, [kind], 0, 1, 10002)]
    ensures 2 !in Ball(MetadataNetwork.LINE, 0, 1)
  {
    MetadataNetwork.TwoIsTwoAway();
    hide Ball;
    var n0 := new ContentHelper(0);
    var n1 := new ContentHelper(1);
    var n2 := new ContentHelper(2);
    var n3 := new ContentHelper(3);
    var a := n0.CreateNew(hash, [kind], 0);
    TellNew(n0, n1, a, kind, 0, 1);
    TellOn(n1, n2, a.(hops := 1, expiry := 10001), kind, 1, 2);
    var c := n3.CreateNew(hash, [kind], 2);
    TellNew(n3, n2, c, kind, 2, 3);
    nodes := [n0, n1, n2, n3];
  }

  // ---- Two nodes that keep telling each other

  /** 0 publishes, 1 hears it, and 1 and 2 tell each other in the last millisecond before
      their entries expire, each after dropping what it knew before. After 255 such turns the
      hop count is 0 at a node that published nothing, whatever the delay of a message is. */
  method Echo(hash: Hash, kind: ContentType, delay: int) returns (a: ContentHelper, b: ContentHelper)
    requires delay > 0
    ensures a.id != 0 && a.lmt == [] && |a.rmt| == 1
    ensures a.rmt[0].hash == hash && a.rmt[0].publisher == 0 && a.rmt[0].hops == 0
  {
    var origin := new ContentHelper(0);
    a := new ContentHelper(1);
    b := new ContentHelper(2);
    var m := origin.CreateNew(hash, [kind], 0);
    TellNew(origin, a, m, kind, 0, delay);
    var turn, expiry := 1, delay + 10000;
    while turn < HOPS_MODULUS
      invariant 1 <= turn <= HOPS_MODULUS && a != b && a.id != 0 && b.id != 0 && fresh(a) && fresh(b)
      invariant a.lmt == [] && b.lmt == [] && a.rmt == [Metadata(hash, [kind], 0, turn % HOPS_MODULUS, expiry)]
      invariant b.rmt == [] || (|b.rmt| == 1 && b.rmt[0].expiry <= expiry - 1)
    {
      var sent := expiry - 1;
      Forget(b, kind, sent);
      TellOn(a, b, a.rmt[0], kind, sent, sent + delay);
      a, b := b, a;
      turn, expiry := turn + 1, sent + delay + 1;
    }
  }

  // ---- One content announced twice

  /** Created at 0 and announced at `first` and at `second`, a content is in the second
      message just if as much time has passed since the first as from 0 to that, but at least
      one second and at most one minute. */
  method AnnounceTwice(hash: Hash, kind: ContentType, first: nat, second: nat) returns (m: Metadata, msg: seq<Metadata>)
    requires first <= second
    ensures m == Metadata(hash, [kind], 0, 0, 10000)
    ensures msg == if second - first >= (if first < 1000 then 1000 else if first > 60000 then 60000 else first) then [m] else []
  {
    var a := new ContentHelper(0);
    m := a.CreateNew(hash, [kind], 0);
    NothingRemote(first, kind);
    NothingRemote(second, kind);
    hide Fresh, Interesting, AfterAnnounce, DueLocals;
    var _ := a.Announce(first, Wants(kind));
    assert Rescheduled(LocalMetadata(m, 0, 0), first, a.lmt[0]);
    OneLocal(a.lmt, second);
    msg := a.Announce(second, Wants(kind));
  }

  lemma NothingRemote(now: int, kind: ContentType)
    ensures Fresh([], now) == [] && Interesting([], Wants(kind)) == []
  {
  }

  lemma OneLocal(lmt: seq<LocalMetadata>, now: int)
    requires |lmt| == 1
    ensures DueLocals(lmt, now) == if now >= lmt[0].nextAnnounce then [lmt[0].data] else []
  {
    assert lmt[..0] == [];
  }
}
