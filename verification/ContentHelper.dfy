/** One node's metadata tables, from contenthelperimpl.cpp. */
module ContentHelpers {
  import opened Blocks
  import opened Sequences
  import opened Topology

  /** The parts of a content's metadata that dissemination looks at. `hops` is an 8-bit
      counter. */
  datatype Metadata = Metadata(hash: Hash, types: seq<ContentType>, publisher: NodeId, hops: nat, expiry: int)

  datatype LocalMetadata = LocalMetadata(data: Metadata, lastRequested: int, nextAnnounce: int) {
    /** `announced`: the next announcement is as far off as the last request, within limits. */
    function Announced(now: int): LocalMetadata {
      var delay := now - lastRequested;
      var delay := if delay > 60000 then 60000 else delay;
      var delay := if delay < 1000 then 1000 else delay;
      this.(nextAnnounce := now + delay)
    }
  }

  // ---- Discovering

  /** `discover`: the remote table after one piece of metadata. */
  function Discovered(rmt: seq<Metadata>, m: Metadata): (r: seq<Metadata>)
    ensures |rmt| <= |r| <= |rmt| + 1
  {
    if rmt == [] then [m]
    else if rmt[0].hash == m.hash then
      if m.hops < rmt[0].hops then [rmt[0].(hops := m.hops)] + rmt[1..] else rmt
    else [rmt[0]] + Discovered(rmt[1..], m)
  }

  /** `receive`, for one piece of metadata: own content is ignored, the link is counted. */
  function Received(id: NodeId, rmt: seq<Metadata>, m: Metadata): seq<Metadata> {
    if m.publisher == id then rmt else Discovered(rmt, m.(hops := (m.hops + 1) % HOPS_MODULUS))
  }

  function ReceivedAll(id: NodeId, rmt: seq<Metadata>, ms: seq<Metadata>): seq<Metadata> {
    if ms == [] then rmt else Received(id, ReceivedAll(id, rmt, ms[..|ms| - 1]), ms[|ms| - 1])
  }

  ghost predicate OnePerHash(rmt: seq<Metadata>) {
    forall i, j | 0 <= i < j < |rmt| :: rmt[i].hash != rmt[j].hash
  }

  lemma {:induction false} DiscoveredHashes(rmt: seq<Metadata>, m: Metadata)
    ensures forall e | e in Discovered(rmt, m) :: e.hash == m.hash || exists f :: f in rmt && f.hash == e.hash
  {
    if rmt != [] && rmt[0].hash != m.hash {
      DiscoveredHashes(rmt[1..], m);
      forall e | e in Discovered(rmt, m)
        ensures e.hash == m.hash || exists f :: f in rmt && f.hash == e.hash
      {
        if e == rmt[0] {
          assert e in rmt;
        } else if e.hash != m.hash {
          var f :| f in rmt[1..] && f.hash == e.hash;
          assert f in rmt;
        }
      }
    } else if rmt != [] {
      forall e | e in Discovered(rmt, m)
        ensures e.hash == m.hash || exists f :: f in rmt && f.hash == e.hash
      {
        if e.hash != m.hash {
          assert e in rmt;
        }
      }
    }
  }

  lemma {:induction false} DiscoverKeepsOnePerHash(rmt: seq<Metadata>, m: Metadata)
    requires OnePerHash(rmt)
    ensures OnePerHash(Discovered(rmt, m))
  {
    if rmt != [] && rmt[0].hash != m.hash {
      DiscoverKeepsOnePerHash(rmt[1..], m);
      DiscoveredHashes(rmt[1..], m);
      var rest := Discovered(rmt[1..], m);
      forall j | 0 <= j < |rest|
        ensures rmt[0].hash != rest[j].hash
      {
        assert rest[j] in rest;
        if rest[j].hash != m.hash {
          var f :| f in rmt[1..] && f.hash == rest[j].hash;
          var k :| 0 <= k < |rmt[1..]| && rmt[1..][k] == f;
          assert rmt[k + 1] == f;
        }
      }
    }
  }

  /** Where an entry of the new table comes from. */
  lemma {:induction false} DiscoveredFrom(rmt: seq<Metadata>, m: Metadata, e: Metadata)
    requires e in Discovered(rmt, m)
    ensures e in rmt || e == m || exists f :: f in rmt && f.hash == m.hash && m.hops < f.hops && e == f.(hops := m.hops)
  {
    if rmt != [] && rmt[0].hash != m.hash {
      if e != rmt[0] {
        DiscoveredFrom(rmt[1..], m, e);
        if e !in rmt[1..] && e != m {
          var f :| f in rmt[1..] && f.hash == m.hash && m.hops < f.hops && e == f.(hops := m.hops);
          assert f in rmt;
        }
      }
    } else if rmt != [] {
      assert rmt[0] in rmt;
    }
  }

  /** Nothing changes when the hash is known at no more hops. */
  lemma {:induction false} DiscoveredNoCloser(rmt: seq<Metadata>, m: Metadata)
    requires exists e :: e in rmt && e.hash == m.hash
    requires forall e | e in rmt && e.hash == m.hash :: e.hops <= m.hops
    ensures Discovered(rmt, m) == rmt
  {
    if rmt[0].hash == m.hash {
      assert rmt[0] in rmt;
    } else {
      DiscoveredNoCloser(rmt[1..], m);
      assert rmt == [rmt[0]] + rmt[1..];
    }
  }

  // ---- The hop count that a table gives a hash

  datatype Hops = Unknown | Known(count: nat)

  function HopsOf(rmt: seq<Metadata>, hash: Hash): Hops {
    if rmt == [] then Unknown
    else if rmt[0].hash == hash then Known(rmt[0].hops)
    else HopsOf(rmt[1..], hash)
  }

  function Least(a: Hops, b: nat): Hops {
    if a.Known? && a.count <= b then a else Known(b)
  }

  lemma {:induction false} DiscoveredHops(rmt: seq<Metadata>, m: Metadata, hash: Hash)
    ensures HopsOf(Discovered(rmt, m), hash) == if m.hash == hash then Least(HopsOf(rmt, hash), m.hops) else HopsOf(rmt, hash)
  {
    if rmt != [] && rmt[0].hash != m.hash {
      DiscoveredHops(rmt[1..], m, hash);
      assert Discovered(rmt, m)[1..] == Discovered(rmt[1..], m);
    } else if rmt != [] {
      assert Discovered(rmt, m)[1..] == rmt[1..];
    }
  }

  lemma {:induction false} HopsOfEntry(rmt: seq<Metadata>, hash: Hash)
    ensures HopsOf(rmt, hash).Known? <==> exists e :: e in rmt && e.hash == hash
    ensures OnePerHash(rmt) ==> forall e | e in rmt && e.hash == hash :: HopsOf(rmt, hash) == Known(e.hops)
  {
    if rmt != [] {
      HopsOfEntry(rmt[1..], hash);
      if rmt[0].hash == hash {
        assert rmt[0] in rmt;
        forall e | e in rmt && e.hash == hash && OnePerHash(rmt)
          ensures e == rmt[0]
        {
          var k :| 0 <= k < |rmt| && rmt[k] == e;
        }
      } else if exists e :: e in rmt[1..] && e.hash == hash {
        var e :| e in rmt[1..] && e.hash == hash;
        assert e in rmt;
      }
    }
  }

  predicate FirstWith(rmt: seq<Metadata>, hash: Hash, i: nat) {
    i < |rmt| && rmt[i].hash == hash && forall k | 0 <= k < i :: rmt[k].hash != hash
  }

  ghost predicate NoneBy(rmt: seq<Metadata>, id: NodeId) {
    forall e | e in rmt :: e.publisher != id
  }

  /** A node never takes its own content for that of another, whatever it is told. */
  lemma {:induction false} NeverOwn(id: NodeId, rmt: seq<Metadata>, ms: seq<Metadata>)
    requires NoneBy(rmt, id)
    ensures NoneBy(ReceivedAll(id, rmt, ms), id)
    ensures (forall m | m in ms :: m.publisher == id) ==> ReceivedAll(id, rmt, ms) == rmt
    decreases |ms|
  {
    hide Discovered;
    if ms != [] {
      var n := |ms| - 1;
      var before, m := ReceivedAll(id, rmt, ms[..n]), ms[n];
      NeverOwn(id, rmt, ms[..n]);
      assert m in ms;
      if m.publisher != id {
        var bumped := m.(hops := (m.hops + 1) % HOPS_MODULUS);
        forall e | e in Discovered(before, bumped)
          ensures e.publisher != id
        {
          DiscoveredFrom(before, bumped, e);
        }
      }
    }
  }

  // ---- The helper object

  class ContentHelper {
    const id: NodeId
    var lmt: seq<LocalMetadata>
    var rmt: seq<Metadata>

    constructor (id: NodeId)
      ensures this.id == id && lmt == [] && rmt == []
    {
      this.id := id;
      lmt, rmt := [], [];
    }

    /** `create_new`, for content whose hash is `hash`. It is due from now on, after all that
        was created before. */
    method CreateNew(hash: Hash, types: seq<ContentType>, now: int) returns (m: Metadata)
      modifies `lmt
      ensures m == Metadata(hash, types, id, 0, now + 10000)
      ensures lmt == old(lmt) + [LocalMetadata(m, now, now)]
      ensures forall later | now <= later :: DueLocals(lmt, later) == DueLocals(old(lmt), later) + [m]
    {
      m := Metadata(hash, types, id, 0, now + 10000);
      lmt := lmt + [LocalMetadata(m, now, now)];
    }

    /** `discover`: true when the metadata was added or brought a hop count down. */
    method Discover(m: Metadata) returns (changed: bool)
      modifies `rmt
      ensures rmt == Discovered(old(rmt), m)
      ensures changed <==> rmt != old(rmt)
      ensures (forall k | 0 <= k < |old(rmt)| :: old(rmt)[k].hash != m.hash) ==> rmt == old(rmt) + [m]
      ensures forall i: nat | FirstWith(old(rmt), m.hash, i) ::
        |rmt| == |old(rmt)| && rmt[..i] == old(rmt)[..i] && rmt[i + 1..] == old(rmt)[i + 1..]
        && rmt[i] == old(rmt)[i].(hops := if m.hops < old(rmt)[i].hops then m.hops else old(rmt)[i].hops)
    {
      hide Discovered;
      var i := 0;
      ghost var all := rmt;
      while i < |rmt|
        invariant 0 <= i <= |rmt| && rmt == all
        invariant forall k | 0 <= k < i :: all[k].hash != m.hash
      {
        if rmt[i].hash == m.hash {
          DiscoveredAt(all, m, i);
          assert forall k: nat | FirstWith(all, m.hash, k) :: k == i;
          if m.hops < rmt[i].hops {
            rmt := rmt[i := rmt[i].(hops := m.hops)];
            assert rmt[i] != all[i];
            return true;
          }
          return false;
        }
        i := i + 1;
      }
      DiscoveredNew(all, m);
      rmt := rmt + [m];
      return true;
    }

    /** `receive(ContentAnn)`. */
    method Receive(msg: seq<Metadata>)
      modifies `rmt
      ensures rmt == ReceivedAll(id, old(rmt), msg)
      ensures NoneBy(old(rmt), id) ==> NoneBy(rmt, id)
    {
      hide NoneBy, FirstWith;
      if NoneBy(rmt, id) {
        NeverOwn(id, rmt, msg);
      }
      var i := 0;
      assert msg[..0] == [];
      while i < |msg|
        invariant 0 <= i <= |msg|
        invariant rmt == ReceivedAll(id, old(rmt), msg[..i])
      {
        assert msg[..i + 1][..i] == msg[..i];
        var metadata := msg[i];
        if metadata.publisher != id {
          metadata := metadata.(hops := (metadata.hops + 1) % HOPS_MODULUS);
          var _ := Discover(metadata);
        }
        i := i + 1;
      }
      assert msg[..i] == msg;
    }

    /** `announce_metadata`: due local metadata, then remote metadata that has not expired
        and that some known interest asks for; expired remote metadata is dropped. */
    method Announce(now: int, interesting: Metadata -> bool) returns (msg: seq<Metadata>)
      modifies this
      ensures msg == DueLocals(old(lmt), now) + Interesting(Fresh(old(rmt), now), interesting)
      ensures rmt == Fresh(old(rmt), now) && lmt == AfterAnnounce(old(lmt), now)
      ensures forall i | 0 <= i < |old(lmt)| :: Rescheduled(old(lmt)[i], now, lmt[i])
    {
      AfterAnnounceIs(lmt, now);
      var locals := AnnounceLocals(now);
      var remotes := AnnounceRemotes(now, interesting);
      msg := locals + remotes;
    }

    method AnnounceLocals(now: int) returns (msg: seq<Metadata>)
      modifies `lmt
      ensures msg == DueLocals(old(lmt), now) && lmt == AfterAnnounce(old(lmt), now)
    {
      hide DueLocals, AfterAnnounce, LocalMetadata.Announced;
      msg := [];
      ghost var locals := lmt;
      var i := 0;
      NothingDue(locals, now);
      while i < |lmt|
        invariant 0 <= i <= |lmt| == |locals|
        invariant lmt == AfterAnnounce(locals[..i], now) + locals[i..]
        invariant msg == DueLocals(locals[..i], now)
      {
        DueStep(locals, now, i);
        if now >= lmt[i].nextAnnounce {
          msg := msg + [lmt[i].data];
          lmt := lmt[i := lmt[i].Announced(now)];
        }
        i := i + 1;
      }
      assert locals[..i] == locals;
    }

    method AnnounceRemotes(now: int, interesting: Metadata -> bool) returns (msg: seq<Metadata>)
      modifies `rmt
      ensures msg == Interesting(Fresh(old(rmt), now), interesting) && rmt == Fresh(old(rmt), now)
    {
      hide Fresh, Interesting;
      msg := [];
      ghost var all := rmt;
      ghost var seen := 0;
      var i := 0;
      NothingFresh(all, now, interesting);
      while i < |rmt|
        invariant 0 <= i <= |rmt| && 0 <= seen <= |all|
        invariant rmt == Fresh(all[..seen], now) + all[seen..] && i == |Fresh(all[..seen], now)|
        invariant msg == Interesting(Fresh(all[..seen], now), interesting)
        decreases |rmt| - i
      {
        FreshStep(all, now, interesting, seen);
        if now >= rmt[i].expiry {
          rmt := rmt[..i] + rmt[i + 1..];
        } else {
          if interesting(rmt[i]) {
            msg := msg + [rmt[i]];
          }
          i := i + 1;
        }
        seen := seen + 1;
      }
      assert all[..seen] == all;
    }
  }

  lemma {:induction false} DiscoveredAt(rmt: seq<Metadata>, m: Metadata, i: nat)
    requires i < |rmt| && rmt[i].hash == m.hash && forall k | 0 <= k < i :: rmt[k].hash != m.hash
    ensures Discovered(rmt, m) == if m.hops < rmt[i].hops then rmt[i := rmt[i].(hops := m.hops)] else rmt
  {
    if i > 0 {
      DiscoveredAt(rmt[1..], m, i - 1);
      assert rmt == [rmt[0]] + rmt[1..];
    }
  }

  lemma {:induction false} DiscoveredNew(rmt: seq<Metadata>, m: Metadata)
    requires forall k | 0 <= k < |rmt| :: rmt[k].hash != m.hash
    ensures Discovered(rmt, m) == rmt + [m]
  {
    if rmt != [] {
      DiscoveredNew(rmt[1..], m);
      assert rmt == [rmt[0]] + rmt[1..];
    }
  }

  // ---- What an announcement holds

  function DueLocals(lmt: seq<LocalMetadata>, now: int): seq<Metadata> {
    if lmt == [] then []
    else
      var l := lmt[|lmt| - 1];
      DueLocals(lmt[..|lmt| - 1], now) + if now >= l.nextAnnounce then [l.data] else []
  }

  function AfterAnnounce(lmt: seq<LocalMetadata>, now: int): (r: seq<LocalMetadata>)
    ensures |r| == |lmt|
  {
    if lmt == [] then []
    else
      var l := lmt[|lmt| - 1];
      AfterAnnounce(lmt[..|lmt| - 1], now) + [if now >= l.nextAnnounce then l.Announced(now) else l]
  }

  function Fresh(rmt: seq<Metadata>, now: int): seq<Metadata> {
    if rmt == [] then []
    else
      var m := rmt[|rmt| - 1];
      Fresh(rmt[..|rmt| - 1], now) + if now >= m.expiry then [] else [m]
  }

  function Interesting(rmt: seq<Metadata>, interesting: Metadata -> bool): seq<Metadata> {
    if rmt == [] then []
    else
      var m := rmt[|rmt| - 1];
      Interesting(rmt[..|rmt| - 1], interesting) + if interesting(m) then [m] else []
  }

  /** What an announcement at `now` makes of a local entry: one that is due comes up again
      after as long as it has not been asked for, but no sooner than in a second and no later
      than in a minute; any other is left alone. */
  ghost predicate Rescheduled(was: LocalMetadata, now: int, after: LocalMetadata) {
    && after.data == was.data && after.lastRequested == was.lastRequested
    && (now < was.nextAnnounce ==> after == was)
    && (now >= was.nextAnnounce ==>
      var delay, quiet := after.nextAnnounce - now, now - was.lastRequested;
      && 1000 <= delay <= 60000 && (1000 <= quiet <= 60000 ==> delay == quiet)
      && (quiet < 1000 ==> delay == 1000) && (quiet > 60000 ==> delay == 60000))
  }

  lemma {:induction false} AfterAnnounceIs(lmt: seq<LocalMetadata>, now: int)
    ensures forall i | 0 <= i < |lmt| :: Rescheduled(lmt[i], now, AfterAnnounce(lmt, now)[i])
  {
    if lmt != [] {
      AfterAnnounceIs(lmt[..|lmt| - 1], now);
      hide Rescheduled;
      AnnouncedIs(lmt[|lmt| - 1], now);
    }
  }

  lemma AnnouncedIs(l: LocalMetadata, now: int)
    ensures Rescheduled(l, now, if now >= l.nextAnnounce then l.Announced(now) else l)
  {
  }

  function IsDue(now: int): LocalMetadata -> bool { (l: LocalMetadata) => l.nextAnnounce <= now }

  function Data(): LocalMetadata -> Metadata { (l: LocalMetadata) => l.data }

  function IsFresh(now: int): Metadata -> bool { (m: Metadata) => now < m.expiry }

  /** The due local entries are posted, each once and in their order. */
  lemma {:induction false} DueInOrder(lmt: seq<LocalMetadata>, now: int)
    ensures Selected(DueLocals(lmt, now), lmt, IsDue(now), Data())
  {
    hide Selected;
    if lmt == [] {
      SelectedNone(IsDue(now), Data());
    } else {
      var n := |lmt| - 1;
      var l := lmt[n];
      DueInOrder(lmt[..n], now);
      SelectedPush(DueLocals(lmt[..n], now), lmt[..n], l, IsDue(now), Data());
      assert lmt == lmt[..n] + [l];
      assert DueLocals(lmt, now) == DueLocals(lmt[..n], now) + if IsDue(now)(l) then [Data()(l)] else [];
    }
  }

  /** The remote entries whose time has not come stay, in their order. */
  lemma {:induction false} FreshInOrder(rmt: seq<Metadata>, now: int)
    ensures Selected(Fresh(rmt, now), rmt, IsFresh(now), Same())
  {
    hide Selected;
    if rmt == [] {
      SelectedNone(IsFresh(now), Same());
    } else {
      var n := |rmt| - 1;
      FreshInOrder(rmt[..n], now);
      SelectedPush(Fresh(rmt[..n], now), rmt[..n], rmt[n], IsFresh(now), Same());
      assert rmt == rmt[..n] + [rmt[n]];
      assert Fresh(rmt, now) == Fresh(rmt[..n], now) + if IsFresh(now)(rmt[n]) then [Same()(rmt[n])] else [];
    }
  }

  /** The interesting ones among them are posted, each once and in their order. */
  lemma {:induction false} InterestingInOrder(rmt: seq<Metadata>, interesting: Metadata -> bool)
    ensures Selected(Interesting(rmt, interesting), rmt, interesting, Same())
  {
    hide Selected;
    if rmt == [] {
      SelectedNone(interesting, Same<Metadata>());
    } else {
      var n := |rmt| - 1;
      InterestingInOrder(rmt[..n], interesting);
      SelectedPush(Interesting(rmt[..n], interesting), rmt[..n], rmt[n], interesting, Same());
      assert rmt == rmt[..n] + [rmt[n]];
      assert Interesting(rmt, interesting) == Interesting(rmt[..n], interesting) + if interesting(rmt[n]) then [Same()(rmt[n])] else [];
    }
  }

  // ---- How often a content is announced

  /** The local table after announcements at these times. */
  function AfterTimes(lmt: seq<LocalMetadata>, times: seq<int>): (r: seq<LocalMetadata>)
    ensures |r| == |lmt|
  {
    if times == [] then lmt else AfterAnnounce(AfterTimes(lmt, times[..|times| - 1]), times[|times| - 1])
  }

  /** Entry `i` is posted by the `k`-th announcement. */
  ghost predicate PostedAt(lmt: seq<LocalMetadata>, times: seq<int>, i: nat, k: nat)
    requires i < |lmt| && k < |times|
  {
    times[k] >= AfterTimes(lmt, times[..k])[i].nextAnnounce
  }

  ghost predicate InTime(times: seq<int>) {
    forall j, k | 0 <= j < k < |times| :: times[j] <= times[k]
  }

  lemma NextTime(lmt: seq<LocalMetadata>, times: seq<int>, i: nat, k: nat)
    requires i < |lmt| && k < |times|
    ensures Rescheduled(AfterTimes(lmt, times[..k])[i], times[k], AfterTimes(lmt, times[..k + 1])[i])
  {
    hide Rescheduled;
    assert times[..k + 1][..k] == times[..k];
    AfterAnnounceIs(AfterTimes(lmt, times[..k]), times[k]);
  }

  lemma {:induction false} NotSooner(lmt: seq<LocalMetadata>, times: seq<int>, i: nat, j: nat, k: nat)
    requires InTime(times) && i < |lmt| && j < k <= |times| && PostedAt(lmt, times, i, j)
    ensures AfterTimes(lmt, times[..k])[i].nextAnnounce >= times[j] + 1000
    decreases k
  {
    NextTime(lmt, times, i, k - 1);
    if k > j + 1 {
      NotSooner(lmt, times, i, j, k - 1);
    }
  }

  /** However often a node announces, no entry is posted twice within a second. */
  lemma SecondsApart(lmt: seq<LocalMetadata>, times: seq<int>, i: nat, j: nat, k: nat)
    requires InTime(times) && i < |lmt| && j < k < |times| && PostedAt(lmt, times, i, j) && PostedAt(lmt, times, i, k)
    ensures times[k] - times[j] >= 1000
  {
    NotSooner(lmt, times, i, j, k);
  }

  lemma {:induction false} UntilPosted(lmt: seq<LocalMetadata>, times: seq<int>, i: nat, j: nat, k: nat)
    requires i < |lmt| && j < k <= |times| && PostedAt(lmt, times, i, j)
    requires forall m | j < m < k :: !PostedAt(lmt, times, i, m)
    ensures AfterTimes(lmt, times[..k])[i].nextAnnounce <= times[j] + 60000
    decreases k
  {
    NextTime(lmt, times, i, k - 1);
    if k > j + 1 {
      assert !PostedAt(lmt, times, i, k - 1);
      UntilPosted(lmt, times, i, j, k - 1);
    }
  }

  /** And one that was posted is posted again by the first announcement from a minute later
      on, if not before. */
  lemma WithinAMinute(lmt: seq<LocalMetadata>, times: seq<int>, i: nat, j: nat, k: nat)
    requires i < |lmt| && j < k < |times| && PostedAt(lmt, times, i, j) && times[k] - times[j] >= 60000
    ensures exists m :: j < m <= k && PostedAt(lmt, times, i, m)
  {
    if forall m | j < m < k :: !PostedAt(lmt, times, i, m) {
      UntilPosted(lmt, times, i, j, k);
      assert PostedAt(lmt, times, i, k);
    }
  }

  lemma NothingDue(lmt: seq<LocalMetadata>, now: int)
    ensures DueLocals(lmt[..0], now) == [] && AfterAnnounce(lmt[..0], now) + lmt[0..] == lmt
  {
  }

  lemma DueStep(lmt: seq<LocalMetadata>, now: int, i: nat)
    requires i < |lmt|
    ensures
      var after, l := AfterAnnounce(lmt[..i], now), lmt[i];
      var all := after + lmt[i..];
      && all[i] == l
      && AfterAnnounce(lmt[..i + 1], now) + lmt[i + 1..] == (if now >= l.nextAnnounce then all[i := l.Announced(now)] else all)
      && DueLocals(lmt[..i + 1], now) == DueLocals(lmt[..i], now) + if now >= l.nextAnnounce then [l.data] else []
  {
    hide LocalMetadata.Announced;
    assert lmt[..i + 1][..i] == lmt[..i];
  }

  lemma NothingFresh(all: seq<Metadata>, now: int, interesting: Metadata -> bool)
    ensures Fresh(all[..0], now) == [] && Interesting([], interesting) == [] && [] + all[0..] == all
  {
  }

  lemma FreshStep(all: seq<Metadata>, now: int, interesting: Metadata -> bool, seen: nat)
    requires seen < |all|
    ensures
      var before, m := Fresh(all[..seen], now), all[seen];
      var list := before + all[seen..];
      && list[|before|] == m
      && (if now >= m.expiry then
            && Fresh(all[..seen + 1], now) == before
            && list[..|before|] + list[|before| + 1..] == before + all[seen + 1..]
          else
            && Fresh(all[..seen + 1], now) == before + [m]
            && list == before + [m] + all[seen + 1..]
            && Interesting(before + [m], interesting) == Interesting(before, interesting) + if interesting(m) then [m] else [])
  {
    assert all[..seen + 1][..seen] == all[..seen];
    var before, m := Fresh(all[..seen], now), all[seen];
    assert Fresh(all[..seen + 1], now) == before + if now >= m.expiry then [] else [m];
    assert (before + [m])[..|before|] == before;
    hide Fresh;
    assert all[seen..] == [m] + all[seen + 1..];
    assert before + ([m] + all[seen + 1..]) == before + [m] + all[seen + 1..];
  }

  /** Exactly the due locals and the fresh, interesting remotes are announced. */
  lemma {:induction false} AnnouncedFrom(lmt: seq<LocalMetadata>, rmt: seq<Metadata>, now: int, interesting: Metadata -> bool)
    ensures forall m :: m in DueLocals(lmt, now) <==> exists l :: l in lmt && now >= l.nextAnnounce && l.data == m
    ensures forall m :: m in Interesting(rmt, interesting) <==> m in rmt && interesting(m)
    decreases |lmt| + |rmt|
  {
    if lmt != [] {
      var n := |lmt| - 1;
      AnnouncedFrom(lmt[..n], rmt, now, interesting);
      forall m
        ensures m in DueLocals(lmt, now) <==> exists l :: l in lmt && now >= l.nextAnnounce && l.data == m
      {
        if l :| l in lmt && now >= l.nextAnnounce && l.data == m {
          assert l in lmt[..n] || l == lmt[n];
        }
        if m in DueLocals(lmt[..n], now) {
          var l :| l in lmt[..n] && now >= l.nextAnnounce && l.data == m;
          assert l in lmt;
        }
        assert lmt[n] in lmt;
      }
    } else if rmt != [] {
      var n := |rmt| - 1;
      AnnouncedFrom(lmt, rmt[..n], now, interesting);
      assert rmt == rmt[..n] + [rmt[n]];
    }
  }
}
