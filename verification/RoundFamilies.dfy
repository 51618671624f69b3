/** Full rounds can always be had, and on a line of 257 nodes they overflow the counter. */
module RoundFamilies {
  import opened Topology
  import opened Blocks
  import opened ContentHelpers
  import opened MetadataRounds

  // ---- Every state has a next round

  lemma {:induction false} Listed(ms: set<Metadata>) returns (list: seq<Metadata>)
    ensures forall m :: m in list <==> m in ms
  {
    if ms == {} {
      list := [];
    } else {
      var m :| m in ms;
      var rest := Listed(ms - {m});
      list := rest + [m];
    }
  }

  /** What the node hears is finite, so it can be put into an order. */
  lemma SomeInbox(g: Graph, s: Tables, n: NodeId) returns (inbox: seq<Metadata>)
    ensures Hears(g, s, n, inbox)
  {
    var heard := set l, m | l in g && l.1 == n && m in TableOf(s.local, l.0) + TableOf(s.rmt, l.0) :: m;
    inbox := Listed(heard);
    forall m
      ensures m in inbox <==> exists q :: (q, n) in g && Announces(s, q, m)
    {
      if q :| (q, n) in g && Announces(s, q, m) {
        var l := (q, n);
        assert l in g && l.1 == n && m in TableOf(s.local, l.0) + TableOf(s.rmt, l.0);
      }
      if m in inbox {
        var l :| l in g && l.1 == n && m in TableOf(s.local, l.0) + TableOf(s.rmt, l.0);
        assert l == (l.0, n) && Announces(s, l.0, m);
      }
    }
  }

  lemma InboxExists(g: Graph, s: Tables, n: NodeId)
    ensures exists inbox :: Hears(g, s, n, inbox)
  {
    var inbox := SomeInbox(g, s, n);
  }

  ghost function Inbox(g: Graph, s: Tables, n: NodeId): (inbox: seq<Metadata>)
    ensures Hears(g, s, n, inbox)
  {
    InboxExists(g, s, n);
    var inbox :| Hears(g, s, n, inbox);
    inbox
  }

  /** The nodes that hear anything. */
  ghost function Receivers(g: Graph): set<NodeId> { set l | l in g :: l.1 }

  ghost function NextRound(g: Graph, s: Tables): Tables {
    Tables(s.local, map n | n in Receivers(g) + s.rmt.Keys :: ReceivedAll(n, TableOf(s.rmt, n), Inbox(g, s, n)))
  }

  lemma RoundExists(g: Graph, s: Tables)
    ensures Round(g, s, NextRound(g, s))
  {
    var s' := NextRound(g, s);
    hide Hears;
    forall n: NodeId
      ensures HeardAll(g, s, s', n)
    {
      var inbox := Inbox(g, s, n);
      HeardFrom(g, s, n, inbox);
      assert TableOf(s'.rmt, n) == ReceivedAll(n, TableOf(s.rmt, n), inbox);
    }
  }

  lemma HeardFrom(g: Graph, s: Tables, n: NodeId, inbox: seq<Metadata>)
    requires Hears(g, s, n, inbox)
    ensures inbox != [] ==> n in Receivers(g)
  {
    if inbox != [] {
      assert inbox[0] in inbox;
      var q :| (q, n) in g && Announces(s, q, inbox[0]);
      var l := (q, n);
      assert l in g && l.1 == n;
    }
  }

  /** `k` rounds from a state. */
  ghost function Rounds(g: Graph, s: Tables, k: nat): (xs: seq<Tables>)
    ensures |xs| == k + 1 && xs[0] == s
  {
    if k == 0 then [s]
    else
      var xs := Rounds(g, s, k - 1);
      xs + [NextRound(g, xs[k - 1])]
  }

  lemma {:induction false} RoundsAreRounds(g: Graph, s: Tables, k: nat)
    ensures AreRounds(g, Rounds(g, s, k))
  {
    hide Round, NextRound;
    if k > 0 {
      RoundsAreRounds(g, s, k - 1);
      RoundExists(g, Rounds(g, s, k - 1)[k - 1]);
    }
  }

  // ---- A line that is too long

  /** 0 is heard by 1, 1 by 2, and so on to `k`. */
  ghost function Line(k: nat): (g: Graph)
    ensures forall l :: l in g <==> l.0 < k && l.1 == l.0 + 1
  {
    if k == 0 then {} else Line(k - 1) + {(k - 1, k)}
  }

  lemma HearersOnLine(k: nat, s: set<NodeId>, n: NodeId)
    ensures n in Hearers(Line(k), s) <==> 0 < n <= k && n - 1 in s
  {
    if 0 < n <= k && n - 1 in s {
      var l := (n - 1, n);
      assert l in Line(k) && l.0 in s && l.1 == n;
    }
  }

  lemma {:induction false} NearOnLine(k: nat, h: nat, n: NodeId)
    ensures n in Near(Line(k), {0}, h) <==> n <= h && n <= k
  {
    hide Line, Hearers;
    if h > 0 {
      NearOnLine(k, h - 1, n);
      HearersOnLine(k, Near(Line(k), {0}, h - 1), n);
      if n > 0 {
        NearOnLine(k, h - 1, n - 1);
      }
    }
  }

  ghost function Published(hash: Hash): Tables {
    Tables(map[0 := [Metadata(hash, ["t"], 0, 0, 10000)]], map[])
  }

  lemma PublishedIsNew(hash: Hash)
    ensures JustCreated(Published(hash), {0}, hash)
  {
    var m := Metadata(hash, ["t"], 0, 0, 10000);
    assert m in TableOf(Published(hash).local, 0);
  }

  /** 256 rounds on the line of 257 nodes leave the last node with hop count 0. */
  lemma OverflowHappens(hash: Hash) returns (xs: seq<Tables>)
    ensures |xs| == 257 && AreRounds(Line(256), xs) && JustCreated(xs[0], {0}, hash)
    ensures AtDistance(Line(256), {0}, 256, 256)
    ensures HopsOf(TableOf(xs[256].rmt, 256), hash) == Known(0)
  {
    var g, k := Line(HOPS_MODULUS), HOPS_MODULUS;
    xs := Rounds(g, Published(hash), k);
    RoundsAreRounds(g, Published(hash), k);
    PublishedIsNew(hash);
    NearOnLine(k, k, k);
    NearOnLine(k, k - 1, k);
    NearOnLine(k, k - 1, k - 1);
    NearOnLine(k, k - 2, k - 1);
    hide Near, Line, Rounds, HopsOf, JustCreated, AreRounds;
    var l := (k - 1, k);
    assert l in g;
    OverflowResetsHops(g, xs, {0}, hash, k - 1, k);
  }
}
