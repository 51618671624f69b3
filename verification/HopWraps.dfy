/** The counter's wrap is reachable: on three nodes, of which two keep telling each other of
    what both have dropped, the hop count climbs to 255 and then wraps. */
module HopWraps {
  import opened Topology
  import opened Blocks
  import opened ContentHelpers
  import M = MetadataNetwork
  import H = InterestHelpers
  import I = InterestNetwork

  /** 1 hears 0, and 1 and 2 hear each other. */
  const ECHO: set<(NodeId, NodeId)> := {(0, 1), (1, 2), (2, 1)}

  /** The one of the two that holds the count `h`, and the other. */
  function Holder(h: nat): NodeId { if h % 2 == 1 then 1 else 2 }

  function Listener(h: nat): NodeId { Holder(h + 1) }

  // ---- Metadata

  /** Announced in the last millisecond of its life and heard half a second later, every
      copy lives that half second longer than the one it was made from. */
  function Copy(hash: Hash, h: nat): Metadata { Metadata(hash, ["t"], 0, h, Expiry(h)) }

  function Expiry(h: nat): int { 10000 + 500 * h }

  /** The content of 0 is known with `h` hops at the one node and no more than one hop less at
      the other, and the former has announced it. */
  ghost predicate ClimbedTo(s: M.Net, hash: Hash, h: nat) {
    && TableOf(s.rmt, Holder(h)) == [Copy(hash, h)]
    && (Holder(h), Copy(hash, h)) in s.air
    && (TableOf(s.rmt, Listener(h)) == [] || (h > 0 && TableOf(s.rmt, Listener(h)) == [Copy(hash, h - 1)]))
    && s.published == {(0, hash)}
  }

  ghost predicate Quiet(xs: seq<M.Net>, evs: seq<M.Event>) {
    |xs| == |evs| + 1 && forall i | 0 <= i < |evs| :: !M.Wraps(xs[i], evs[i])
  }

  lemma Extend(xs: seq<M.Net>, evs: seq<M.Event>, ev: M.Event) returns (xs': seq<M.Net>, evs': seq<M.Event>)
    requires M.IsRun(ECHO, xs, evs) && M.Enabled(ECHO, xs[|evs|], ev)
    ensures evs' == evs + [ev] && xs' == xs + [M.After(xs[|evs|], ev)] && M.IsRun(ECHO, xs', evs')
    ensures Quiet(xs, evs) && !M.Wraps(xs[|evs|], ev) ==> Quiet(xs', evs')
  {
    hide M.Enabled, M.After, M.Wraps;
    evs', xs' := evs + [ev], xs + [M.After(xs[|evs|], ev)];
    forall i | 0 <= i < |evs'|
      ensures M.Next(ECHO, xs'[i], evs'[i], xs'[i + 1])
    {
      if i < |evs| {
        assert M.Next(ECHO, xs[i], evs[i], xs[i + 1]);
      }
    }
  }

  lemma FirstHop(hash: Hash) returns (xs: seq<M.Net>, evs: seq<M.Event>)
    ensures M.IsRun(ECHO, xs, evs) && Quiet(xs, evs) && ClimbedTo(xs[|evs|], hash, 1)
  {
    xs, evs := [M.Start()], [];
    assert M.IsRun(ECHO, xs, evs) && Quiet(xs, evs);
    hide M.IsRun, Quiet, Discovered;
    xs, evs := Extend(xs, evs, M.Create(0, Copy(hash, 0)));
    xs, evs := Extend(xs, evs, M.Post(0, Copy(hash, 0)));
    var s := xs[|evs|];
    assert TableOf(s.rmt, 1) == [] && TableOf(s.rmt, 2) == [] && s.published == {(0, hash)};
    FirstHeard(hash);
    xs, evs := Extend(xs, evs, M.Deliver(0, Copy(hash, 0), 1, Expiry(1)));
    xs, evs := Extend(xs, evs, M.Post(1, Copy(hash, 1)));
  }

  lemma FirstHeard(hash: Hash)
    ensures Discovered([], Copy(hash, 1)) == [Copy(hash, 1)]
  {
  }

  lemma NextHeard(hash: Hash, h: nat)
    requires h < HOPS_MODULUS - 1
    ensures Received(Listener(h), [], Copy(hash, h).(expiry := Expiry(h + 1))) == [Copy(hash, h + 1)]
  {
  }

  /** One more hop: the listener forgets, hears and announces. */
  lemma Climb(hash: Hash, h: nat, xs: seq<M.Net>, evs: seq<M.Event>) returns (xs': seq<M.Net>, evs': seq<M.Event>)
    requires 0 < h < HOPS_MODULUS - 1
    requires M.IsRun(ECHO, xs, evs) && Quiet(xs, evs) && ClimbedTo(xs[|evs|], hash, h)
    ensures M.IsRun(ECHO, xs', evs') && Quiet(xs', evs') && ClimbedTo(xs'[|evs'|], hash, h + 1)
  {
    assert |xs| == |evs| + 1 && Holder(h + 2) == Holder(h);
    hide M.IsRun, Quiet;
    var a, b := Holder(h), Listener(h);
    xs', evs' := xs, evs;
    if TableOf(xs[|evs|].rmt, b) != [] {
      assert TableOf(xs[|evs|].rmt, b)[..0] + TableOf(xs[|evs|].rmt, b)[1..] == [];
      xs', evs' := Extend(xs', evs', M.Drop(b, 0));
    }
    var s := xs'[|evs'|];
    assert TableOf(s.rmt, b) == [] && ClimbedTo(s, hash, h);
    NextHeard(hash, h);
    hide Received;
    xs', evs' := Extend(xs', evs', M.Deliver(a, Copy(hash, h), b, Expiry(h + 1)));
    assert TableOf(xs'[|evs'|].rmt, b) == [Copy(hash, h + 1)];
    xs', evs' := Extend(xs', evs', M.Post(b, Copy(hash, h + 1)));
  }

  lemma {:induction false} ClimbTo(hash: Hash, h: nat) returns (xs: seq<M.Net>, evs: seq<M.Event>)
    requires 0 < h < HOPS_MODULUS
    ensures M.IsRun(ECHO, xs, evs) && Quiet(xs, evs) && ClimbedTo(xs[|evs|], hash, h)
  {
    if h == 1 {
      xs, evs := FirstHop(hash);
    } else {
      xs, evs := ClimbTo(hash, h - 1);
      xs, evs := Climb(hash, h - 1, xs, evs);
    }
  }

  /** A run from the start whose last step wraps the counter, and no step before it does: up
      to it every hop count is sound, and after it not. */
  lemma WrapIsReachable(hash: Hash) returns (xs: seq<M.Net>, evs: seq<M.Event>)
    ensures M.IsRun(ECHO, xs, evs) && evs != []
    ensures
      var k := |evs| - 1;
      && (forall i | 0 <= i < k :: !M.Wraps(xs[i], evs[i])) && M.Wraps(xs[k], evs[k])
      && M.Sound(ECHO, xs[k]) && !M.Sound(ECHO, xs[k + 1])
  {
    hide M.Sound, M.Next, M.After;
    var h := HOPS_MODULUS - 1;
    xs, evs := ClimbTo(hash, h);
    var s, k := xs[|evs|], |evs|;
    M.RunSound(ECHO, xs, evs, k);
    var ev := M.Deliver(Holder(h), Copy(hash, h), Listener(h), Expiry(h + 1));
    assert M.Wraps(s, ev);
    var before, seen := xs, evs;
    assert forall i | 0 <= i < k :: !M.Wraps(before[i], seen[i]);
    xs, evs := Extend(xs, evs, ev);
    assert M.Next(ECHO, xs[k], evs[k], xs[k + 1]);
    M.NextKeepsSound(ECHO, xs[k], evs[k], xs[k + 1]);
  }

  // ---- Interests

  /** The creator's own is announced with its full life, any other in its last millisecond. */
  function Wish(kind: ContentType, h: nat): H.Interest { H.Interest(kind, LifeLeft(h), h) }

  function LifeLeft(h: nat): nat { if h == 0 then H.INITIAL_TTL else 1 }

  ghost predicate WishClimbedTo(s: I.Net, kind: ContentType, h: nat) {
    && TableOf(s.tables, Holder(h)) == [Wish(kind, h)]
    && (Holder(h), Wish(kind, h)) in s.air
    && (TableOf(s.tables, Listener(h)) == [] || (h > 0 && TableOf(s.tables, Listener(h)) == [Wish(kind, h - 1)]))
    && s.created == {(0, kind)}
  }

  ghost predicate WishQuiet(xs: seq<I.Net>, evs: seq<I.Event>) {
    |xs| == |evs| + 1 && forall i | 0 <= i < |evs| :: !I.Wraps(xs[i], evs[i])
  }

  lemma WishExtend(xs: seq<I.Net>, evs: seq<I.Event>, ev: I.Event) returns (xs': seq<I.Net>, evs': seq<I.Event>)
    requires I.IsRun(ECHO, xs, evs) && I.Enabled(ECHO, xs[|evs|], ev)
    ensures evs' == evs + [ev] && xs' == xs + [I.After(xs[|evs|], ev)] && I.IsRun(ECHO, xs', evs')
    ensures WishQuiet(xs, evs) && !I.Wraps(xs[|evs|], ev) ==> WishQuiet(xs', evs')
  {
    hide I.Enabled, I.After, I.Wraps;
    evs', xs' := evs + [ev], xs + [I.After(xs[|evs|], ev)];
    forall i | 0 <= i < |evs'|
      ensures I.Next(ECHO, xs'[i], evs'[i], xs'[i + 1])
    {
      if i < |evs| {
        assert I.Next(ECHO, xs[i], evs[i], xs[i + 1]);
      }
    }
  }

  lemma EmptyTables(kind: ContentType)
    ensures H.WithLocal([], kind) == [Wish(kind, 0)]
  {
  }

  /** An only entry that is announced stays where it is. */
  lemma OnlyEntry(e: H.Interest, ttl: nat)
    ensures H.Without([e], 0) == [] && H.Without([e], 0) + [e.(ttl := ttl)] == [e.(ttl := ttl)]
  {
  }

  lemma WishHeard(e: H.Interest)
    ensures H.Learned([], e) == [e]
  {
  }

  lemma FirstWish(kind: ContentType) returns (xs: seq<I.Net>, evs: seq<I.Event>)
    ensures I.IsRun(ECHO, xs, evs) && WishQuiet(xs, evs) && WishClimbedTo(xs[|evs|], kind, 1)
  {
    xs, evs := [I.Start()], [];
    assert I.IsRun(ECHO, xs, evs) && WishQuiet(xs, evs);
    hide I.IsRun, WishQuiet, H.Learned, H.WithLocal, H.Without;
    EmptyTables(kind);
    var first := Wish(kind, 0).(hops := 1);
    OnlyEntry(Wish(kind, 0), LifeLeft(0));
    OnlyEntry(first, LifeLeft(1));
    WishHeard(first);
    xs, evs := WishExtend(xs, evs, I.Create(0, kind));
    xs, evs := WishExtend(xs, evs, I.Announce(0, 0, LifeLeft(0)));
    var s := xs[|evs|];
    assert TableOf(s.tables, 1) == [] && TableOf(s.tables, 2) == [] && s.created == {(0, kind)};
    assert (0, Wish(kind, 0)) in s.air;
    xs, evs := WishExtend(xs, evs, I.Deliver(0, Wish(kind, 0), 1));
    assert TableOf(xs[|evs|].tables, 1) == [first];
    xs, evs := WishExtend(xs, evs, I.Announce(1, 0, LifeLeft(1)));
  }

  /** The listener has forgotten. */
  ghost predicate WishWaits(s: I.Net, kind: ContentType, h: nat) {
    && TableOf(s.tables, Holder(h)) == [Wish(kind, h)] && TableOf(s.tables, Listener(h)) == []
    && (Holder(h), Wish(kind, h)) in s.air && s.created == {(0, kind)}
  }

  /** The listener has heard. */
  ghost predicate WishKnown(s: I.Net, kind: ContentType, h: nat) {
    && TableOf(s.tables, Holder(h)) == [Wish(kind, h)] && TableOf(s.tables, Listener(h)) == [Wish(kind, h + 1)]
    && s.created == {(0, kind)}
  }

  lemma ForgetStep(s: I.Net, kind: ContentType, h: nat)
    requires WishClimbedTo(s, kind, h) && TableOf(s.tables, Listener(h)) != []
    ensures I.Enabled(ECHO, s, I.Expire(Listener(h), 0)) && WishWaits(I.After(s, I.Expire(Listener(h), 0)), kind, h)
  {
    hide H.Without;
    OnlyEntry(Wish(kind, h - 1), 0);
  }

  lemma HearStep(s: I.Net, kind: ContentType, h: nat)
    requires WishWaits(s, kind, h) && 0 < h < HOPS_MODULUS - 1
    ensures
      var ev := I.Deliver(Holder(h), Wish(kind, h), Listener(h));
      I.Enabled(ECHO, s, ev) && !I.Wraps(s, ev) && WishKnown(I.After(s, ev), kind, h)
  {
    hide H.Learned;
    WishHeard(Wish(kind, h + 1));
    assert Wish(kind, h).(hops := (h + 1) % HOPS_MODULUS) == Wish(kind, h + 1);
  }

  lemma TellStep(s: I.Net, kind: ContentType, h: nat)
    requires WishKnown(s, kind, h)
    ensures
      var ev := I.Announce(Listener(h), 0, LifeLeft(h + 1));
      I.Enabled(ECHO, s, ev) && WishClimbedTo(I.After(s, ev), kind, h + 1)
  {
    hide H.Without;
    OnlyEntry(Wish(kind, h + 1), LifeLeft(h + 1));
    assert Holder(h + 2) == Holder(h);
  }

  lemma WishClimb(kind: ContentType, h: nat, xs: seq<I.Net>, evs: seq<I.Event>) returns (xs': seq<I.Net>, evs': seq<I.Event>)
    requires 0 < h < HOPS_MODULUS - 1
    requires I.IsRun(ECHO, xs, evs) && WishQuiet(xs, evs) && WishClimbedTo(xs[|evs|], kind, h)
    ensures I.IsRun(ECHO, xs', evs') && WishQuiet(xs', evs') && WishClimbedTo(xs'[|evs'|], kind, h + 1)
  {
    assert |xs| == |evs| + 1;
    xs', evs' := xs, evs;
    if TableOf(xs[|evs|].tables, Listener(h)) != [] {
      ForgetStep(xs[|evs|], kind, h);
      xs', evs' := WishExtend(xs', evs', I.Expire(Listener(h), 0));
    }
    assert WishWaits(xs'[|evs'|], kind, h);
    hide I.IsRun, WishQuiet, I.After, I.Enabled, I.Wraps, WishWaits, WishKnown, WishClimbedTo;
    HearStep(xs'[|evs'|], kind, h);
    xs', evs' := WishExtend(xs', evs', I.Deliver(Holder(h), Wish(kind, h), Listener(h)));
    TellStep(xs'[|evs'|], kind, h);
    NoDelivery(xs'[|evs'|], Listener(h), LifeLeft(h + 1));
    xs', evs' := WishExtend(xs', evs', I.Announce(Listener(h), 0, LifeLeft(h + 1)));
  }

  lemma NoDelivery(s: I.Net, n: NodeId, ttl: nat)
    ensures !I.Wraps(s, I.Announce(n, 0, ttl))
  {
  }

  lemma {:induction false} WishClimbTo(kind: ContentType, h: nat) returns (xs: seq<I.Net>, evs: seq<I.Event>)
    requires 0 < h < HOPS_MODULUS
    ensures I.IsRun(ECHO, xs, evs) && WishQuiet(xs, evs) && WishClimbedTo(xs[|evs|], kind, h)
  {
    if h == 1 {
      xs, evs := FirstWish(kind);
    } else {
      xs, evs := WishClimbTo(kind, h - 1);
      xs, evs := WishClimb(kind, h - 1, xs, evs);
    }
  }

  /** The same for interests: the last step makes a node take another's interest for its
      own. */
  lemma InterestWrapIsReachable(kind: ContentType) returns (xs: seq<I.Net>, evs: seq<I.Event>)
    ensures I.IsRun(ECHO, xs, evs) && evs != []
    ensures
      var k := |evs| - 1;
      && (forall i | 0 <= i < k :: !I.Wraps(xs[i], evs[i])) && I.Wraps(xs[k], evs[k])
      && I.Sound(ECHO, xs[k]) && !I.Sound(ECHO, xs[k + 1])
  {
    hide I.Sound, I.Next, I.After;
    var h := HOPS_MODULUS - 1;
    xs, evs := WishClimbTo(kind, h);
    var s, k := xs[|evs|], |evs|;
    I.RunSound(ECHO, xs, evs, k);
    var ev := I.Deliver(Holder(h), Wish(kind, h), Listener(h));
    assert I.Wraps(s, ev);
    var before, seen := xs, evs;
    assert forall i | 0 <= i < k :: !I.Wraps(before[i], seen[i]);
    xs, evs := WishExtend(xs, evs, ev);
    assert I.Next(ECHO, xs[k], evs[k], xs[k + 1]);
    I.NextKeepsSound(ECHO, xs[k], evs[k], xs[k + 1]);
  }
}
