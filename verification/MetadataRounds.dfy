/** Full rounds of metadata announcements: every node announces everything it knows and
    every announcement is heard, in any order. Nothing expires and every node is interested. */
module MetadataRounds {
  import opened Topology
  import opened Blocks
  import opened ContentHelpers

  datatype Tables = Tables(local: map<NodeId, seq<Metadata>>, rmt: map<NodeId, seq<Metadata>>)

  ghost predicate Announces(s: Tables, q: NodeId, m: Metadata) {
    m in TableOf(s.local, q) || m in TableOf(s.rmt, q)
  }

  /** `inbox` is what `n` hears in a round, in some order. */
  ghost predicate Hears(g: Graph, s: Tables, n: NodeId, inbox: seq<Metadata>) {
    forall m :: m in inbox <==> exists q :: (q, n) in g && Announces(s, q, m)
  }

  /** One node's part of a round. */
  ghost predicate HeardAll(g: Graph, s: Tables, s': Tables, n: NodeId) {
    exists inbox :: Hears(g, s, n, inbox) && TableOf(s'.rmt, n) == ReceivedAll(n, TableOf(s.rmt, n), inbox)
  }

  ghost predicate Round(g: Graph, s: Tables, s': Tables) {
    s'.local == s.local && forall n: NodeId :: HeardAll(g, s, s', n)
  }

  // ---- The least of what is heard

  /** An announcement of `hash` that `n` does not skip. */
  predicate Counts(n: NodeId, hash: Hash, m: Metadata) {
    m.hash == hash && m.publisher != n
  }

  function Bumped(m: Metadata): nat { (m.hops + 1) % HOPS_MODULUS }

  /** `res` is the least of `init` and the bumped hop counts of what counts among `ms`. */
  ghost predicate IsLeast(res: Hops, init: Hops, n: NodeId, hash: Hash, ms: seq<Metadata>) {
    && (res == Unknown <==> init == Unknown && forall m | m in ms :: !Counts(n, hash, m))
    && (res.Known? ==>
      && (res == init || exists m :: m in ms && Counts(n, hash, m) && Bumped(m) == res.count)
      && (init.Known? ==> res.count <= init.count)
      && (forall m | m in ms && Counts(n, hash, m) :: res.count <= Bumped(m)))
  }

  lemma {:induction false} ReceivedAllLeast(n: NodeId, rmt: seq<Metadata>, ms: seq<Metadata>, hash: Hash)
    ensures IsLeast(HopsOf(ReceivedAll(n, rmt, ms), hash), HopsOf(rmt, hash), n, hash, ms)
  {
    hide HopsOf, Bumped;
    if ms != [] {
      var before, m := ms[..|ms| - 1], ms[|ms| - 1];
      ReceivedAllLeast(n, rmt, before, hash);
      ReceivedHops(n, ReceivedAll(n, rmt, before), m, hash);
      LeastStep(HopsOf(ReceivedAll(n, rmt, before), hash), HopsOf(rmt, hash), n, hash, before, m);
      assert ms == before + [m];
    }
  }

  lemma ReceivedHops(n: NodeId, rmt: seq<Metadata>, m: Metadata, hash: Hash)
    ensures HopsOf(Received(n, rmt, m), hash) == if Counts(n, hash, m) then Least(HopsOf(rmt, hash), Bumped(m)) else HopsOf(rmt, hash)
  {
    if m.publisher != n {
      DiscoveredHops(rmt, m.(hops := Bumped(m)), hash);
    }
  }

  lemma LeastStep(res: Hops, init: Hops, n: NodeId, hash: Hash, ms: seq<Metadata>, m: Metadata)
    requires IsLeast(res, init, n, hash, ms)
    ensures IsLeast(if Counts(n, hash, m) then Least(res, Bumped(m)) else res, init, n, hash, ms + [m])
  {
    hide Bumped, Counts;
    var all := ms + [m];
    assert forall x :: x in all <==> x in ms || x == m;
    assert m in all;
  }

  // ---- Where publishers stay

  /** Every entry for `hash` names a publisher, and never the node `n` itself. */
  ghost predicate NamesOthers(rmt: seq<Metadata>, hash: Hash, ps: set<NodeId>, n: NodeId) {
    forall m | m in rmt && m.hash == hash :: m.publisher in ps && m.publisher != n
  }

  ghost predicate Names(ms: seq<Metadata>, hash: Hash, ps: set<NodeId>) {
    forall m | m in ms && m.hash == hash :: m.publisher in ps
  }

  lemma {:induction false} ReceivedAllNames(n: NodeId, rmt: seq<Metadata>, ms: seq<Metadata>, hash: Hash, ps: set<NodeId>)
    requires NamesOthers(rmt, hash, ps, n) && Names(ms, hash, ps) && OnePerHash(rmt)
    ensures NamesOthers(ReceivedAll(n, rmt, ms), hash, ps, n) && OnePerHash(ReceivedAll(n, rmt, ms))
    decreases |ms|
  {
    hide OnePerHash;
    if ms != [] {
      var before, m := ms[..|ms| - 1], ms[|ms| - 1];
      ReceivedAllNames(n, rmt, before, hash, ps);
      var t := ReceivedAll(n, rmt, before);
      var b := m.(hops := Bumped(m));
      assert m in ms;
      DiscoverKeepsOnePerHash(t, b);
      forall e | e in Received(n, t, m) && e.hash == hash
        ensures e.publisher in ps && e.publisher != n
      {
        if m.publisher != n {
          DiscoveredFrom(t, b, e);
        }
      }
    }
  }

  // ---- The state after k rounds

  /** The nodes of `ps`, and no others, publish `hash`. */
  ghost predicate PublishedBy(s: Tables, ps: set<NodeId>, hash: Hash) {
    && (forall n, m | m in TableOf(s.local, n) && m.hash == hash :: n in ps && m.publisher == n && m.hops == 0)
    && (forall p | p in ps :: exists m :: m in TableOf(s.local, p) && m.hash == hash)
    && (forall n: NodeId :: NamesOthers(TableOf(s.rmt, n), hash, ps, n) && OnePerHash(TableOf(s.rmt, n)))
  }

  /** Every node within `k` links of a publisher knows `hash` by its distance to the nearest
      one; no other node knows it. */
  ghost predicate KnownByDistance(g: Graph, s: Tables, ps: set<NodeId>, hash: Hash, k: nat) {
    forall n: NodeId, d: nat | n !in ps ::
      HopsOf(TableOf(s.rmt, n), hash) == Known(d) <==> AtDistance(g, ps, n, d) && d <= k
  }

  /** The publisher that an entry names, outside the publishers, is within its hop count. */
  ghost predicate NamesNear(g: Graph, s: Tables, ps: set<NodeId>, hash: Hash) {
    forall n: NodeId | n !in ps :: NamedNear(g, n, TableOf(s.rmt, n), hash)
  }

  ghost predicate NamedNear(g: Graph, n: NodeId, rmt: seq<Metadata>, hash: Hash) {
    forall m | m in rmt && m.hash == hash :: n in Ball(g, m.publisher, m.hops)
  }

  /** A node 255 links away is heard by one that publishes nothing, or a node 254 links away
      by a publisher that would repeat what it hears of another publisher as near. */
  ghost predicate Overflows(g: Graph, ps: set<NodeId>) {
    exists l :: l in g && (FarLink(g, ps, l) || EchoLink(g, ps, l))
  }

  ghost predicate FarLink(g: Graph, ps: set<NodeId>, l: (NodeId, NodeId)) {
    l.1 !in ps && AtDistance(g, ps, l.0, HOPS_MODULUS - 1)
  }

  ghost predicate EchoLink(g: Graph, ps: set<NodeId>, l: (NodeId, NodeId)) {
    && l.1 in ps && AtDistance(g, ps, l.0, HOPS_MODULUS - 2)
    && exists p :: p in ps && p != l.1 && l.0 in Ball(g, p, HOPS_MODULUS - 2)
  }

  /** What a publisher has heard of the others' content, and repeats. */
  ghost predicate EchoesFit(g: Graph, s: Tables, ps: set<NodeId>, hash: Hash, k: nat) {
    forall p | p in ps && HopsOf(TableOf(s.rmt, p), hash).Known? ::
      var c := HopsOf(TableOf(s.rmt, p), hash).count;
      0 < k && c <= k && (c < HOPS_MODULUS - 1 || Overflows(g, ps))
  }

  ghost predicate Settled(g: Graph, s: Tables, ps: set<NodeId>, hash: Hash, k: nat) {
    && PublishedBy(s, ps, hash) && KnownByDistance(g, s, ps, hash, k) && EchoesFit(g, s, ps, hash, k)
    && NamesNear(g, s, ps, hash)
  }

  lemma RoundKeepsPublishers(g: Graph, s: Tables, s': Tables, ps: set<NodeId>, hash: Hash)
    requires PublishedBy(s, ps, hash) && Round(g, s, s')
    ensures PublishedBy(s', ps, hash)
  {
    hide HopsOf, OnePerHash;
    forall n: NodeId
      ensures NamesOthers(TableOf(s'.rmt, n), hash, ps, n) && OnePerHash(TableOf(s'.rmt, n))
    {
      var inbox := InboxOf(g, s, s', n);
      InboxNames(g, s, n, inbox, ps, hash);
      ReceivedAllNames(n, TableOf(s.rmt, n), inbox, hash, ps);
    }
  }

  lemma InboxNames(g: Graph, s: Tables, n: NodeId, inbox: seq<Metadata>, ps: set<NodeId>, hash: Hash)
    requires PublishedBy(s, ps, hash) && Hears(g, s, n, inbox)
    ensures Names(inbox, hash, ps)
  {
    hide HopsOf, OnePerHash;
    forall m | m in inbox && m.hash == hash
      ensures m.publisher in ps
    {
      var q :| (q, n) in g && Announces(s, q, m);
    }
  }

  lemma AtHome(g: Graph, ps: set<NodeId>, p: NodeId)
    requires p in ps
    ensures AtDistance(g, ps, p, 0)
  {
  }

  /** What a node announces: from elsewhere its distance, from a publisher at least 0. */
  lemma AnnouncedHops(g: Graph, s: Tables, ps: set<NodeId>, hash: Hash, k: nat, q: NodeId, m: Metadata) returns (e: nat)
    requires Settled(g, s, ps, hash, k)
    requires Announces(s, q, m) && m.hash == hash
    ensures AtDistance(g, ps, q, e) && e <= m.hops <= k && m.publisher in ps
    ensures q !in ps ==> e == m.hops
    ensures q in ps && m.publisher != q ==> HopsOf(TableOf(s.rmt, q), hash) == Known(m.hops)
    ensures q in ps && !Overflows(g, ps) ==> m.hops < HOPS_MODULUS - 1
  {
    hide AtDistance, Overflows;
    HopsOfEntry(TableOf(s.rmt, q), hash);
    if q in ps {
      e := 0;
      AtHome(g, ps, q);
    } else {
      e := m.hops;
    }
  }

  lemma SomeoneAnnounces(g: Graph, s: Tables, ps: set<NodeId>, hash: Hash, k: nat, q: NodeId, d: nat) returns (m: Metadata)
    requires Settled(g, s, ps, hash, k)
    requires AtDistance(g, ps, q, d) && d <= k
    ensures Announces(s, q, m) && m.hash == hash && m.hops == d
    ensures q in ps ==> m.publisher == q
  {
    hide AtDistance, EchoesFit;
    if q in ps {
      AtHome(g, ps, q);
      DistanceUnique(g, ps, q, d, 0);
      m :| m in TableOf(s.local, q) && m.hash == hash;
    } else {
      assert HopsOf(TableOf(s.rmt, q), hash) == Known(d);
      HopsOfEntry(TableOf(s.rmt, q), hash);
      m :| m in TableOf(s.rmt, q) && m.hash == hash;
    }
  }

  /** A node that hears one at distance `d` is itself within `d + 1`. */
  lemma HearerDistance(g: Graph, ps: set<NodeId>, q: NodeId, n: NodeId, d: nat) returns (e: nat)
    requires AtDistance(g, ps, q, d) && (q, n) in g
    ensures AtDistance(g, ps, n, e) && e <= d + 1
  {
    NearStep(g, ps, d, q, n);
    e := HasDistance(g, ps, n, d + 1);
  }

  lemma OverflowSeen(g: Graph, ps: set<NodeId>, q: NodeId, n: NodeId)
    requires (q, n) in g && n !in ps && AtDistance(g, ps, q, HOPS_MODULUS - 1)
    ensures Overflows(g, ps)
  {
    hide AtDistance;
    assert FarLink(g, ps, (q, n));
  }

  lemma EchoSeen(g: Graph, ps: set<NodeId>, q: NodeId, n: NodeId, p: NodeId)
    requires (q, n) in g && n in ps && p in ps && p != n && AtDistance(g, ps, q, HOPS_MODULUS - 2)
    requires q in Ball(g, p, HOPS_MODULUS - 2)
    ensures Overflows(g, ps)
  {
    hide AtDistance, Ball;
    assert EchoLink(g, ps, (q, n));
  }

  /** Without an overflow no node is 256 links away. */
  lemma {:induction false} NothingFar(g: Graph, ps: set<NodeId>, n: NodeId, d: nat)
    requires !Overflows(g, ps) && AtDistance(g, ps, n, d)
    ensures d < HOPS_MODULUS
    decreases d
  {
    hide AtDistance, Overflows;
    if d >= HOPS_MODULUS {
      var q := NearerNeighbour(g, ps, n, d);
      if d == HOPS_MODULUS {
        NotPublisher(g, ps, n, d);
        OverflowSeen(g, ps, q, n);
      } else {
        NothingFar(g, ps, q, d - 1);
      }
    }
  }

  lemma NotPublisher(g: Graph, ps: set<NodeId>, n: NodeId, d: nat)
    requires AtDistance(g, ps, n, d) && d > 0
    ensures n !in ps
  {
    if n in ps {
      AtHome(g, ps, n);
      DistanceUnique(g, ps, n, 0, d);
    }
  }

  /** Nothing that is announced wraps at a node that publishes nothing. */
  lemma NoWrap(g: Graph, s: Tables, ps: set<NodeId>, hash: Hash, k: nat, q: NodeId, n: NodeId, m: Metadata)
    requires Settled(g, s, ps, hash, k) && Announces(s, q, m) && m.hash == hash
    requires (k < HOPS_MODULUS - 1 || !Overflows(g, ps)) && (q, n) in g && n !in ps
    ensures m.hops < HOPS_MODULUS - 1
  {
    hide AtDistance, Overflows, Settled, Announces;
    var e := AnnouncedHops(g, s, ps, hash, k, q, m);
    if k >= HOPS_MODULUS - 1 && q !in ps {
      NothingFar(g, ps, q, e);
      if e == HOPS_MODULUS - 1 {
        OverflowSeen(g, ps, q, n);
      }
    }
  }

  /** One node in one round. */
  lemma NodeRound(g: Graph, s: Tables, ps: set<NodeId>, hash: Hash, k: nat, n: NodeId, inbox: seq<Metadata>)
    requires Settled(g, s, ps, hash, k) && Hears(g, s, n, inbox) && n !in ps
    requires k < HOPS_MODULUS - 1 || !Overflows(g, ps)
    ensures forall d: nat ::
      HopsOf(ReceivedAll(n, TableOf(s.rmt, n), inbox), hash) == Known(d) <==> AtDistance(g, ps, n, d) && d <= k + 1
  {
    hide AtDistance, HopsOf, Overflows, Settled, Announces;
    var init, res := HopsOf(TableOf(s.rmt, n), hash), HopsOf(ReceivedAll(n, TableOf(s.rmt, n), inbox), hash);
    ReceivedAllLeast(n, TableOf(s.rmt, n), inbox, hash);
    if res.Known? {
      NodeAtMost(g, s, ps, hash, k, n, inbox, res);
    }
    forall d: nat | AtDistance(g, ps, n, d) && d <= k + 1
      ensures res.Known? && res.count <= d
    {
      NodeAtLeast(g, s, ps, hash, k, n, inbox, d, res);
    }
    forall d: nat | AtDistance(g, ps, n, d) && d <= k + 1
      ensures res == Known(d)
    {
      var e: nat :| AtDistance(g, ps, n, e) && e <= res.count && e <= k + 1;
      DistanceUnique(g, ps, n, d, e);
    }
    if res.Known? {
      var e: nat :| AtDistance(g, ps, n, e) && e <= res.count && e <= k + 1;
      assert res == Known(e);
    }
  }

  /** The result is no less than the distance. */
  lemma NodeAtMost(g: Graph, s: Tables, ps: set<NodeId>, hash: Hash, k: nat, n: NodeId, inbox: seq<Metadata>, res: Hops)
    requires Settled(g, s, ps, hash, k) && Hears(g, s, n, inbox) && n !in ps
    requires k < HOPS_MODULUS - 1 || !Overflows(g, ps)
    requires IsLeast(res, HopsOf(TableOf(s.rmt, n), hash), n, hash, inbox) && res.Known?
    ensures exists e: nat :: AtDistance(g, ps, n, e) && e <= res.count && e <= k + 1
  {
    hide AtDistance, HopsOf, Overflows, PublishedBy, EchoesFit, Announces;
    if res == HopsOf(TableOf(s.rmt, n), hash) {
      assert AtDistance(g, ps, n, res.count) && res.count <= k;
    } else {
      hide Settled;
      var m :| m in inbox && Counts(n, hash, m) && Bumped(m) == res.count;
      var q :| (q, n) in g && Announces(s, q, m);
      var d := AnnouncedHops(g, s, ps, hash, k, q, m);
      NoWrap(g, s, ps, hash, k, q, n, m);
      var e := HearerDistance(g, ps, q, n, d);
    }
  }

  /** The result is no more than the distance. */
  lemma NodeAtLeast(g: Graph, s: Tables, ps: set<NodeId>, hash: Hash, k: nat, n: NodeId, inbox: seq<Metadata>, d: nat, res: Hops)
    requires Settled(g, s, ps, hash, k) && Hears(g, s, n, inbox) && n !in ps
    requires k < HOPS_MODULUS - 1 || !Overflows(g, ps)
    requires IsLeast(res, HopsOf(TableOf(s.rmt, n), hash), n, hash, inbox)
    requires AtDistance(g, ps, n, d) && d <= k + 1
    ensures res.Known? && res.count <= d
  {
    hide AtDistance, HopsOf, Overflows, Settled, Announces;
    NotHome(g, ps, n, d);
    var q := NearerNeighbour(g, ps, n, d);
    var m := SomeoneAnnounces(g, s, ps, hash, k, q, d - 1);
    var e := AnnouncedHops(g, s, ps, hash, k, q, m);
    assert m in inbox && Counts(n, hash, m);
    NoWrap(g, s, ps, hash, k, q, n, m);
    assert Bumped(m) == d;
  }

  lemma NotHome(g: Graph, ps: set<NodeId>, n: NodeId, d: nat)
    requires AtDistance(g, ps, n, d) && n !in ps
    ensures d > 0
  {
  }

  /** What a node that publishes nothing announces names a publisher within the hop count. */
  lemma AnnouncedNear(g: Graph, s: Tables, ps: set<NodeId>, hash: Hash, k: nat, q: NodeId, m: Metadata)
    requires Settled(g, s, ps, hash, k) && Announces(s, q, m) && m.hash == hash && q !in ps
    ensures q in Ball(g, m.publisher, m.hops)
  {
    hide AtDistance, HopsOf, Overflows, EchoesFit, KnownByDistance, Ball, OnePerHash, NamesOthers;
    assert NamedNear(g, q, TableOf(s.rmt, q), hash);
  }

  /** When nothing that counts is nearer than `c`, a known hash keeps its entry, and an
      unknown one gets one piece of what is heard. */
  lemma {:induction false} EntriesFrom(n: NodeId, rmt: seq<Metadata>, ms: seq<Metadata>, hash: Hash, c: nat)
    requires forall e | e in rmt && e.hash == hash :: e.hops == c
    requires forall m | m in ms && Counts(n, hash, m) :: c <= Bumped(m) && (HopsOf(rmt, hash) == Unknown ==> Bumped(m) == c)
    ensures forall e | e in ReceivedAll(n, rmt, ms) && e.hash == hash ::
      e.hops == c && (e in rmt || FromOne(n, rmt, ms, hash, e))
    decreases |ms|
  {
    hide HopsOf, Bumped;
    if ms != [] {
      var before, m := ms[..|ms| - 1], ms[|ms| - 1];
      EntriesFrom(n, rmt, before, hash, c);
      ReceivedAllLeast(n, rmt, before, hash);
      var t := ReceivedAll(n, rmt, before);
      assert ReceivedAll(n, rmt, ms) == Received(n, t, m);
      assert m in ms && forall x | x in before :: x in ms;
      hide ReceivedAll, Received;
      forall e | e in Received(n, t, m) && e.hash == hash
        ensures e.hops == c && (e in rmt || FromOne(n, rmt, ms, hash, e))
      {
        EntryStep(n, rmt, t, m, hash, c, e);
      }
    }
  }

  /** The entry stems from a piece that counts, as the first to tell of the hash. */
  ghost predicate FromOne(n: NodeId, rmt: seq<Metadata>, ms: seq<Metadata>, hash: Hash, e: Metadata) {
    HopsOf(rmt, hash) == Unknown && exists m :: m in ms && Counts(n, hash, m) && e == m.(hops := Bumped(m))
  }

  lemma HeardIs(n: NodeId, t: seq<Metadata>, m: Metadata)
    requires m.publisher != n
    ensures Received(n, t, m) == Discovered(t, m.(hops := Bumped(m)))
  {
  }

  lemma EntryStep(n: NodeId, rmt: seq<Metadata>, t: seq<Metadata>, m: Metadata, hash: Hash, c: nat, e: Metadata)
    requires forall x | x in t && x.hash == hash :: x.hops == c
    requires HopsOf(rmt, hash).Known? ==> HopsOf(t, hash).Known?
    requires Counts(n, hash, m) ==> c <= Bumped(m) && (HopsOf(rmt, hash) == Unknown ==> Bumped(m) == c)
    requires e in Received(n, t, m) && e.hash == hash
    ensures e in t || (Counts(n, hash, m) && HopsOf(rmt, hash) == Unknown && e == m.(hops := Bumped(m)) && e.hops == c)
  {
    hide HopsOf, Discovered, Bumped;
    if m.publisher != n {
      var b := m.(hops := Bumped(m));
      HeardIs(n, t, m);
      DiscoveredFrom(t, b, e);
      HopsOfEntry(t, hash);
      if Counts(n, hash, m) && HopsOf(t, hash).Known? {
        DiscoveredNoCloser(t, b);
      }
    }
  }

  /** One publisher in one round. */
  lemma EchoRound(g: Graph, s: Tables, ps: set<NodeId>, hash: Hash, k: nat, p: NodeId, inbox: seq<Metadata>)
    requires Settled(g, s, ps, hash, k) && Hears(g, s, p, inbox) && p in ps
    requires k < HOPS_MODULUS - 1 || !Overflows(g, ps)
    ensures
      var res := HopsOf(ReceivedAll(p, TableOf(s.rmt, p), inbox), hash);
      res.Known? ==> res.count <= k + 1 && (res.count < HOPS_MODULUS - 1 || Overflows(g, ps))
  {
    hide AtDistance, HopsOf, Overflows, Announces, PublishedBy, KnownByDistance;
    var init, res := HopsOf(TableOf(s.rmt, p), hash), HopsOf(ReceivedAll(p, TableOf(s.rmt, p), inbox), hash);
    ReceivedAllLeast(p, TableOf(s.rmt, p), inbox, hash);
    if res.Known? && res != init {
      var m :| m in inbox && Counts(p, hash, m) && Bumped(m) == res.count;
      var q :| (q, p) in g && Announces(s, q, m);
      EchoHeard(g, s, ps, hash, k, p, inbox, res, m, q);
    }
  }

  lemma EchoHeard(g: Graph, s: Tables, ps: set<NodeId>, hash: Hash, k: nat, p: NodeId, inbox: seq<Metadata>, res: Hops,
                  m: Metadata, q: NodeId)
    requires Settled(g, s, ps, hash, k) && Hears(g, s, p, inbox) && p in ps
    requires IsLeast(res, HopsOf(TableOf(s.rmt, p), hash), p, hash, inbox) && res.Known?
    requires Counts(p, hash, m) && Bumped(m) == res.count && (q, p) in g && Announces(s, q, m)
    ensures res.count <= k + 1 && (res.count < HOPS_MODULUS - 1 || Overflows(g, ps))
  {
    hide AtDistance, HopsOf, Overflows, Settled, Announces;
    var e := AnnouncedHops(g, s, ps, hash, k, q, m);
    if !Overflows(g, ps) && q != p {
      if q in ps {
        AtHome(g, ps, q);
        var l := SomeoneAnnounces(g, s, ps, hash, k, q, 0);
        assert l in inbox && Counts(p, hash, l);
        assert Bumped(l) == 1;
      } else {
        NothingFar(g, ps, q, e);
        if m.hops == HOPS_MODULUS - 2 {
          AnnouncedNear(g, s, ps, hash, k, q, m);
          EchoSeen(g, ps, q, p, m.publisher);
        }
      }
    }
  }

  /** The names at one node after one round. */
  lemma NodeNames(g: Graph, s: Tables, ps: set<NodeId>, hash: Hash, k: nat, n: NodeId, inbox: seq<Metadata>)
    requires Settled(g, s, ps, hash, k) && Hears(g, s, n, inbox) && n !in ps
    requires k < HOPS_MODULUS - 1 || !Overflows(g, ps)
    ensures NamedNear(g, n, ReceivedAll(n, TableOf(s.rmt, n), inbox), hash)
  {
    var rmt := TableOf(s.rmt, n);
    assert OnePerHash(rmt) && NamedNear(g, n, rmt, hash);
    HopsOfEntry(rmt, hash);
    hide AtDistance, HopsOf, Overflows, Settled, Announces, Ball, OnePerHash, ReceivedAll, Bumped;
    var c := if HopsOf(rmt, hash).Known? then HopsOf(rmt, hash).count else k + 1;
    forall m | m in inbox && Counts(n, hash, m)
      ensures c <= Bumped(m) && (HopsOf(rmt, hash) == Unknown ==> Bumped(m) == c && n in Ball(g, m.publisher, c))
    {
      var q :| (q, n) in g && Announces(s, q, m);
      HeardNoNearer(g, s, ps, hash, k, n, q, m);
    }
    EntriesFrom(n, rmt, inbox, hash, c);
  }

  /** What a node hears is no nearer than what it knows, and from one link farther than the
      last round if it knows nothing. */
  lemma HeardNoNearer(g: Graph, s: Tables, ps: set<NodeId>, hash: Hash, k: nat, n: NodeId, q: NodeId, m: Metadata)
    requires Settled(g, s, ps, hash, k) && Announces(s, q, m) && m.hash == hash && (q, n) in g && n !in ps
    requires k < HOPS_MODULUS - 1 || !Overflows(g, ps)
    ensures
      var known := HopsOf(TableOf(s.rmt, n), hash);
      if known.Known? then known.count <= Bumped(m) else Bumped(m) == k + 1 && n in Ball(g, m.publisher, k + 1)
  {
    hide AtDistance, HopsOf, Overflows, Settled, Announces, Ball;
    var e := AnnouncedHops(g, s, ps, hash, k, q, m);
    NoWrap(g, s, ps, hash, k, q, n, m);
    var d := HearerDistance(g, ps, q, n, e);
    KnownAt(g, s, ps, hash, k, n, d);
    if HopsOf(TableOf(s.rmt, n), hash) == Unknown {
      assert e == m.hops == k;
      FirstHeardNear(g, s, ps, hash, k, q, m);
      BallStep(g, m.publisher, k, q, n);
    }
  }

  lemma KnownAt(g: Graph, s: Tables, ps: set<NodeId>, hash: Hash, k: nat, n: NodeId, d: nat)
    requires Settled(g, s, ps, hash, k) && n !in ps && AtDistance(g, ps, n, d)
    ensures HopsOf(TableOf(s.rmt, n), hash) == if d <= k then Known(d) else Unknown
  {
    hide AtDistance, HopsOf, Overflows, EchoesFit, PublishedBy, NamesNear;
    var known := HopsOf(TableOf(s.rmt, n), hash);
    if known.Known? {
      assert known == Known(known.count);
      DistanceUnique(g, ps, n, d, known.count);
    }
  }

  lemma FirstHeardNear(g: Graph, s: Tables, ps: set<NodeId>, hash: Hash, k: nat, q: NodeId, m: Metadata)
    requires Settled(g, s, ps, hash, k) && Announces(s, q, m) && m.hash == hash && m.hops == k
    requires AtDistance(g, ps, q, k)
    ensures q in Ball(g, m.publisher, k)
  {
    hide AtDistance, HopsOf, Overflows, Announces, PublishedBy, KnownByDistance, NamesNear;
    if q in ps {
      AtHome(g, ps, q);
      DistanceUnique(g, ps, q, k, 0);
      var e := AnnouncedHops(g, s, ps, hash, k, q, m);
      AtItself(g, q);
    } else {
      AnnouncedNear(g, s, ps, hash, k, q, m);
    }
  }

  lemma RoundStep(g: Graph, s: Tables, s': Tables, ps: set<NodeId>, hash: Hash, k: nat)
    requires Settled(g, s, ps, hash, k) && Round(g, s, s')
    requires k < HOPS_MODULUS - 1 || !Overflows(g, ps)
    ensures Settled(g, s', ps, hash, k + 1)
  {
    assert PublishedBy(s', ps, hash) by {
      RoundKeepsPublishers(g, s, s', ps, hash);
    }
    hide AtDistance, HopsOf, Overflows, PublishedBy, NamedNear;
    forall n: NodeId | n !in ps
      ensures NamedNear(g, n, TableOf(s'.rmt, n), hash)
    {
      var inbox := InboxOf(g, s, s', n);
      NodeNames(g, s, ps, hash, k, n, inbox);
    }
    forall n: NodeId, d: nat | n !in ps
      ensures HopsOf(TableOf(s'.rmt, n), hash) == Known(d) <==> AtDistance(g, ps, n, d) && d <= k + 1
    {
      var inbox := InboxOf(g, s, s', n);
      NodeRound(g, s, ps, hash, k, n, inbox);
    }
    forall p | p in ps && HopsOf(TableOf(s'.rmt, p), hash).Known?
      ensures HopsOf(TableOf(s'.rmt, p), hash).count <= k + 1
      ensures HopsOf(TableOf(s'.rmt, p), hash).count < HOPS_MODULUS - 1 || Overflows(g, ps)
    {
      var inbox := InboxOf(g, s, s', p);
      EchoRound(g, s, ps, hash, k, p, inbox);
    }
  }

  /** Content just created at the nodes of `ps`: nobody has heard of it. */
  ghost predicate JustCreated(s: Tables, ps: set<NodeId>, hash: Hash) {
    PublishedBy(s, ps, hash) && forall n: NodeId :: HopsOf(TableOf(s.rmt, n), hash) == Unknown
  }

  lemma CreatedSettled(g: Graph, s: Tables, ps: set<NodeId>, hash: Hash)
    requires JustCreated(s, ps, hash)
    ensures Settled(g, s, ps, hash, 0)
  {
    hide HopsOf;
    forall n: NodeId | n !in ps
      ensures NamedNear(g, n, TableOf(s.rmt, n), hash)
    {
      HopsOfEntry(TableOf(s.rmt, n), hash);
    }
  }

  ghost predicate AreRounds(g: Graph, xs: seq<Tables>) {
    forall i | 0 <= i < |xs| - 1 :: Round(g, xs[i], xs[i + 1])
  }

  lemma {:induction false} RoundsConverge(g: Graph, xs: seq<Tables>, ps: set<NodeId>, hash: Hash, k: nat)
    requires k < |xs| && AreRounds(g, xs) && JustCreated(xs[0], ps, hash)
    requires k < HOPS_MODULUS || !Overflows(g, ps)
    ensures Settled(g, xs[k], ps, hash, k)
  {
    hide Settled, Overflows, Round;
    if k == 0 {
      CreatedSettled(g, xs[0], ps, hash);
    } else {
      RoundsConverge(g, xs, ps, hash, k - 1);
      assert Round(g, xs[k - 1], xs[k]);
      RoundStep(g, xs[k - 1], xs[k], ps, hash, k - 1);
    }
  }

  /** Some publisher is within distance `d` of `n`, and none is nearer. */
  ghost predicate NearestAt(g: Graph, ps: set<NodeId>, n: NodeId, d: nat) {
    (exists p :: p in ps && n in Ball(g, p, d)) && (d > 0 ==> forall p | p in ps :: n !in Ball(g, p, d - 1))
  }

  lemma NearestIsDistance(g: Graph, ps: set<NodeId>, n: NodeId, d: nat)
    ensures NearestAt(g, ps, n, d) <==> AtDistance(g, ps, n, d)
  {
    hide Near, Ball;
    NearIsBalls(g, ps, d, n);
    if d > 0 {
      NearIsBalls(g, ps, d - 1, n);
    }
  }

  /** After `k` full rounds a node within `k` links of a publisher holds exactly one entry for
      the content, with the distance to the nearest publisher as its hop count and the name of
      such a publisher, whatever `k` is, so further rounds do not change the count; and nodes
      farther away hold none. The counter is 8 bits wide, so this is for 255 rounds, or for
      all without an overflow. */
  lemma ConvergesToDistance(g: Graph, xs: seq<Tables>, ps: set<NodeId>, hash: Hash, n: NodeId, d: nat, k: nat)
    requires k < |xs| && AreRounds(g, xs) && JustCreated(xs[0], ps, hash) && n !in ps && NearestAt(g, ps, n, d)
    requires k < HOPS_MODULUS || !Overflows(g, ps)
    ensures d <= k ==> HoldsOne(TableOf(xs[k].rmt, n), hash, d)
    ensures forall m | m in TableOf(xs[k].rmt, n) && m.hash == hash :: m.publisher in ps && n in Ball(g, m.publisher, d)
    ensures d > k ==> forall m | m in TableOf(xs[k].rmt, n) :: m.hash != hash
  {
    NearestIsDistance(g, ps, n, d);
    hide AtDistance, NearestAt, AreRounds, Overflows, EchoesFit, Ball;
    RoundsConverge(g, xs, ps, hash, k);
    var t := TableOf(xs[k].rmt, n);
    assert NamedNear(g, n, t, hash) && NamesOthers(t, hash, ps, n);
    HopsOfEntry(t, hash);
    assert HopsOf(t, hash) == Known(d) <==> d <= k;
    if d <= k {
      EntryAt(t, hash, d);
    } else if HopsOf(t, hash).Known? {
      DistanceUnique(g, ps, n, d, HopsOf(t, hash).count);
    }
  }

  /** The table has exactly one entry for `hash`, and its hop count is `d`. */
  ghost predicate HoldsOne(t: seq<Metadata>, hash: Hash, d: nat) {
    exists i: nat ::
      && i < |t| && t[i].hash == hash && t[i].hops == d
      && forall j: nat | j < |t| && t[j].hash == hash :: j == i
  }

  lemma EntryAt(t: seq<Metadata>, hash: Hash, d: nat)
    requires HopsOf(t, hash) == Known(d) && OnePerHash(t)
    ensures HoldsOne(t, hash, d)
  {
    HopsOfEntry(t, hash);
    var e :| e in t && e.hash == hash;
    var i: nat :| i < |t| && t[i] == e;
    forall j: nat | j < |t| && t[j].hash == hash
      ensures j == i
    {
    }
  }

  /** With one publisher the second kind of overflow cannot be. */
  lemma OnePublisherOverflow(g: Graph, p: NodeId)
    ensures Overflows(g, {p}) <==> exists l :: l in g && FarLink(g, {p}, l)
  {
    hide AtDistance, FarLink;
  }

  /** The bound is sharp: after 255 rounds, one more gives hop count 0 to every node that
      publishes nothing and hears a node 255 links away. */
  lemma OverflowResetsHops(g: Graph, xs: seq<Tables>, ps: set<NodeId>, hash: Hash, q: NodeId, n: NodeId)
    requires |xs| == HOPS_MODULUS + 1 && AreRounds(g, xs) && JustCreated(xs[0], ps, hash)
    requires (q, n) in g && n !in ps && AtDistance(g, ps, q, HOPS_MODULUS - 1)
    ensures HopsOf(TableOf(xs[HOPS_MODULUS].rmt, n), hash) == Known(0)
    ensures !KnownByDistance(g, xs[HOPS_MODULUS], ps, hash, HOPS_MODULUS)
  {
    hide AtDistance, HopsOf, Overflows, Round, Settled;
    var k := HOPS_MODULUS - 1;
    RoundsConverge(g, xs, ps, hash, k);
    assert Round(g, xs[k], xs[k + 1]);
    var inbox := InboxOf(g, xs[k], xs[k + 1], n);
    var m := SomeoneAnnounces(g, xs[k], ps, hash, k, q, k);
    var e := AnnouncedHops(g, xs[k], ps, hash, k, q, m);
    assert m in inbox && Counts(n, hash, m) && Bumped(m) == 0;
    ReceivedAllLeast(n, TableOf(xs[k].rmt, n), inbox, hash);
    if KnownByDistance(g, xs[k + 1], ps, hash, k + 1) {
      NotHome(g, ps, n, 0);
    }
  }

  lemma InboxOf(g: Graph, s: Tables, s': Tables, n: NodeId) returns (inbox: seq<Metadata>)
    requires Round(g, s, s')
    ensures Hears(g, s, n, inbox) && TableOf(s'.rmt, n) == ReceivedAll(n, TableOf(s.rmt, n), inbox)
  {
    hide Hears;
    assert HeardAll(g, s, s', n);
    inbox :| Hears(g, s, n, inbox) && TableOf(s'.rmt, n) == ReceivedAll(n, TableOf(s.rmt, n), inbox);
  }
}
