/** The fixed connectivity graph that announcements travel over. */
module Topology {
  import opened Blocks

  /** Hop counters are 8 bits wide. */
  const HOPS_MODULUS: nat := 256

  /** What a node holds. */
  function TableOf<T>(tables: map<NodeId, seq<T>>, n: NodeId): seq<T> {
    if n in tables then tables[n] else []
  }

  /** (a, b) is a link when b hears what a posts. */
  type Graph = set<(NodeId, NodeId)>

  /** The nodes that hear some node of `s`. */
  ghost function Hearers(g: Graph, s: set<NodeId>): set<NodeId> {
    set l | l in g && l.0 in s :: l.1
  }

  /** The nodes within distance `h` of some node of `sources`. */
  ghost function Near(g: Graph, sources: set<NodeId>, h: nat): set<NodeId> {
    if h == 0 then sources else Near(g, sources, h - 1) + Hearers(g, Near(g, sources, h - 1))
  }

  /** The nodes within distance `h` of `p`. */
  ghost function Ball(g: Graph, p: NodeId, h: nat): set<NodeId> {
    Near(g, {p}, h)
  }

  lemma NearStep(g: Graph, sources: set<NodeId>, h: nat, a: NodeId, b: NodeId)
    requires a in Near(g, sources, h) && (a, b) in g
    ensures b in Near(g, sources, h + 1)
  {
    assert b in Hearers(g, Near(g, sources, h));
  }

  lemma BallStep(g: Graph, p: NodeId, h: nat, a: NodeId, b: NodeId)
    requires a in Ball(g, p, h) && (a, b) in g
    ensures b in Ball(g, p, h + 1)
  {
    NearStep(g, {p}, h, a, b);
  }

  lemma {:induction false} NearGrows(g: Graph, sources: set<NodeId>, h: nat, k: nat)
    requires h <= k
    ensures Near(g, sources, h) <= Near(g, sources, k)
    decreases k
  {
    if h < k {
      NearGrows(g, sources, h, k - 1);
    }
  }

  lemma {:induction false} MoreSources(g: Graph, some: set<NodeId>, all: set<NodeId>, h: nat)
    requires some <= all
    ensures Near(g, some, h) <= Near(g, all, h)
  {
    if h > 0 {
      MoreSources(g, some, all, h - 1);
    }
  }

  lemma {:induction false} SomeSource(g: Graph, sources: set<NodeId>, h: nat, n: NodeId) returns (p: NodeId)
    requires n in Near(g, sources, h)
    ensures p in sources && n in Ball(g, p, h)
  {
    hide Ball;
    if h == 0 {
      p := n;
      AtItself(g, n);
    } else if n in Near(g, sources, h - 1) {
      p := SomeSource(g, sources, h - 1, n);
      BallGrows(g, p, h - 1);
    } else {
      var l :| l in g && l.0 in Near(g, sources, h - 1) && l.1 == n;
      p := SomeSource(g, sources, h - 1, l.0);
      BallStep(g, p, h - 1, l.0, n);
    }
  }

  lemma AtItself(g: Graph, p: NodeId)
    ensures p in Ball(g, p, 0)
  {
  }

  lemma BallGrows(g: Graph, p: NodeId, h: nat)
    ensures Ball(g, p, h) <= Ball(g, p, h + 1)
  {
    NearGrows(g, {p}, h, h + 1);
  }

  /** Near the sources means near one of them. */
  lemma NearIsBalls(g: Graph, sources: set<NodeId>, h: nat, n: NodeId)
    ensures n in Near(g, sources, h) <==> exists p :: p in sources && n in Ball(g, p, h)
  {
    hide Near;
    if n in Near(g, sources, h) {
      var p := SomeSource(g, sources, h, n);
    }
    if p :| p in sources && n in Ball(g, p, h) {
      MoreSources(g, {p}, sources, h);
    }
  }

  /** `n` is at distance exactly `d` from the nearest source. */
  ghost predicate AtDistance(g: Graph, sources: set<NodeId>, n: NodeId, d: nat) {
    n in Near(g, sources, d) && (d > 0 ==> n !in Near(g, sources, d - 1))
  }

  lemma {:induction false} HasDistance(g: Graph, sources: set<NodeId>, n: NodeId, h: nat) returns (d: nat)
    requires n in Near(g, sources, h)
    ensures d <= h && AtDistance(g, sources, n, d)
  {
    if h > 0 && n in Near(g, sources, h - 1) {
      d := HasDistance(g, sources, n, h - 1);
    } else {
      d := h;
    }
  }

  lemma DistanceUnique(g: Graph, sources: set<NodeId>, n: NodeId, d: nat, e: nat)
    requires AtDistance(g, sources, n, d) && AtDistance(g, sources, n, e)
    ensures d == e
  {
    if d < e {
      NearGrows(g, sources, d, e - 1);
    } else if e < d {
      NearGrows(g, sources, e, d - 1);
    }
  }

  /** A node that is no source has a link from a node one closer. */
  lemma NearerNeighbour(g: Graph, sources: set<NodeId>, n: NodeId, d: nat) returns (q: NodeId)
    requires AtDistance(g, sources, n, d) && d > 0
    ensures (q, n) in g && AtDistance(g, sources, q, d - 1)
  {
    var l :| l in g && l.0 in Near(g, sources, d - 1) && l.1 == n;
    q := l.0;
    if d >= 2 {
      StaysOut(g, sources, d - 2, q, n);
    }
  }

  lemma StaysOut(g: Graph, sources: set<NodeId>, h: nat, a: NodeId, b: NodeId)
    requires (a, b) in g && b !in Near(g, sources, h + 1)
    ensures a !in Near(g, sources, h)
  {
    hide Near;
    if a in Near(g, sources, h) {
      NearStep(g, sources, h, a, b);
    }
  }
}
