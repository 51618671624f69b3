/** The tick of `BlockResponseScheduler`: which blocks are frozen, released and broadcast,
    given any feasible answer of the integer solver. */
module BlockResponseScheduler {
  import opened Blocks
  import opened LpMeaning
  import opened LpObjective
  import opened LpSolver
  import opened Sequences

  const MAX_TTL: nat := 20
  const STORAGE: nat := 256
  const BANDWIDTH: nat := 20

  /** What the request tables of the neighbours say when the tick starts. */
  datatype Demand = Demand(neighbors: nat, utility: (nat, BlockRef) -> real, ttl: (nat, BlockRef) -> int)

  ghost predicate Compiled(p: Problem, mip: Mip)
    requires p.Shaped()
  {
    && |mip.ia| == |mip.ja| == |mip.arr|
    && mip.rowUpper == Upper(p) && IsObjective(p, mip.objective) && mip.Entries() == Matrix(p)
  }

  /** All that is assumed of the solver: its answers to compiled programs are feasible. */
  ghost predicate Oracle(solver: Mip -> seq<int>) {
    forall p: Problem, mip: Mip | p.Shaped() && Compiled(p, mip) :: Feasible(mip, solver(mip))
  }

  /** That can be met: every compiled program has a feasible point. */
  lemma CachingNothingIsFeasible(p: Problem, mip: Mip)
    requires p.Shaped() && Compiled(p, mip)
    ensures Feasible(mip, seq(p.Cols(), _ => 0))
  {
    hide Compiled, GoodSchedule, Feasible;
    var x := seq(p.Cols(), _ => 0);
    NothingIsGood(p, x);
    CompiledParts(p, mip);
    CompiledMeansProblem(p, mip, x);
  }

  lemma CompiledParts(p: Problem, mip: Mip)
    requires p.Shaped() && Compiled(p, mip)
    ensures |mip.ia| == |mip.ja| == |mip.arr|
    ensures mip.rowUpper == Upper(p) && IsObjective(p, mip.objective) && mip.Entries() == Matrix(p)
  {
  }

  lemma NothingIsGood(p: Problem, x: seq<int>)
    requires |x| == p.Cols() && forall i | 0 <= i < |x| :: x[i] == 0
    ensures Binary(p, x) && GoodSchedule(p, x)
  {
    hide At;
    forall c: nat, t: nat | c < p.blocks && t <= p.maxTtl + 1
      ensures At(p, x, c, t) == 0
    {
      ZeroAt(p, x, c, t);
    }
    forall t: nat | t <= p.maxTtl + 1
      ensures CachedAt(p, x, t, p.blocks) <= p.storage
    {
      NothingCached(p, x, t, p.blocks);
    }
    forall t: nat | t <= p.maxTtl
      ensures DroppedAt(p, x, t, p.blocks) <= p.bandwidth
    {
      NothingDropped(p, x, t, p.blocks);
    }
  }

  lemma ZeroAt(p: Problem, x: seq<int>, c: nat, t: nat)
    requires |x| == p.Cols() && c < p.blocks && t <= p.maxTtl + 1 && forall i | 0 <= i < |x| :: x[i] == 0
    ensures At(p, x, c, t) == 0
  {
    ColInRange(p, c, t);
  }

  lemma {:induction false} NothingCached(p: Problem, x: seq<int>, t: nat, n: nat)
    requires |x| == p.Cols() && t <= p.maxTtl + 1 && n <= p.blocks && forall i | 0 <= i < |x| :: x[i] == 0
    ensures CachedAt(p, x, t, n) == 0
  {
    hide At;
    if n > 0 {
      NothingCached(p, x, t, n - 1);
      ZeroAt(p, x, n - 1, t);
    }
  }

  lemma {:induction false} NothingDropped(p: Problem, x: seq<int>, t: nat, n: nat)
    requires |x| == p.Cols() && t <= p.maxTtl && n <= p.blocks && forall i | 0 <= i < |x| :: x[i] == 0
    ensures DroppedAt(p, x, t, n) == 0
  {
    hide At;
    if n > 0 {
      NothingDropped(p, x, t, n - 1);
      ZeroAt(p, x, n - 1, t);
      ZeroAt(p, x, n - 1, t + 1);
    }
  }

  // ---- The tables handed to the solver

  /** The tick's problem for blocks numbered by `order`. */
  ghost predicate Describes(p: Problem, order: seq<BlockRef>, d: Demand) {
    && p.Shaped() && p.maxTtl == 20 && p.storage == 256 && p.bandwidth == 20
    && p.blocks == |order| && p.neighbors == d.neighbors
    && forall k: nat, c: nat | k < d.neighbors && c < |order| ::
      p.utility[k][c] == d.utility(k, order[c]) && p.ttl[k][c] == d.ttl(k, order[c])
  }

  method FillTables(order: seq<BlockRef>, d: Demand) returns (p: Problem)
    ensures Describes(p, order, d)
  {
    var ttls: seq<seq<int>> := seq(d.neighbors, _ => seq(|order|, _ => -1));
    var utils: seq<seq<real>> := seq(d.neighbors, _ => seq(|order|, _ => 0.0));
    var c := 0;
    while c < |order|
      invariant 0 <= c <= |order|
      invariant |ttls| == |utils| == d.neighbors
      invariant forall k | 0 <= k < d.neighbors :: |ttls[k]| == |utils[k]| == |order|
      invariant forall k: nat, j: nat | k < d.neighbors && j < c ::
        utils[k][j] == d.utility(k, order[j]) && ttls[k][j] == d.ttl(k, order[j])
    {
      var i := 0;
      while i < d.neighbors
        invariant 0 <= i <= d.neighbors
        invariant |ttls| == |utils| == d.neighbors
        invariant forall k | 0 <= k < d.neighbors :: |ttls[k]| == |utils[k]| == |order|
        invariant forall k: nat, j: nat | k < d.neighbors && j < c ::
          utils[k][j] == d.utility(k, order[j]) && ttls[k][j] == d.ttl(k, order[j])
        invariant forall k: nat | k < i ::
          utils[k][c] == d.utility(k, order[c]) && ttls[k][c] == d.ttl(k, order[c])
      {
        utils := utils[i := utils[i][c := d.utility(i, order[c])]];
        ttls := ttls[i := ttls[i][c := d.ttl(i, order[c])]];
        i := i + 1;
      }
      c := c + 1;
    }
    p := Problem(MAX_TTL, |order|, STORAGE, BANDWIDTH, d.neighbors, ttls, utils);
  }

  /** The map and the sequence are each other's inverses. */
  ghost predicate Numbers(m: map<BlockRef, nat>, order: seq<BlockRef>) {
    && Distinct(order)
    && (forall c | 0 <= c < |order| :: order[c] in m && m[order[c]] == c)
    && (forall b | b in m :: 0 <= m[b] < |order| && order[m[b]] == b)
  }

  lemma NumbersPush(m: map<BlockRef, nat>, order: seq<BlockRef>, b: BlockRef)
    requires Numbers(m, order) && b !in Elems(order)
    ensures Numbers(m[b := |order|], order + [b])
  {
    ElemsPush(order, b);
    assert b !in order;
    var m', order' := m[b := |order|], order + [b];
    forall c | 0 <= c < |order'|
      ensures order'[c] in m' && m'[order'[c]] == c
    {
      if c < |order| {
        assert order'[c] == order[c];
        assert order[c] != b;
      }
    }
  }

  lemma NothingNumbered()
    ensures Numbers(map[], []) && Elems<BlockRef>([]) == {}
  {
  }

  // ---- The scheduler object

  class Scheduler {
    var blockToSchedule: set<BlockRef>
    var blockArrivedBuf: set<BlockRef>
    var blockToSeq: map<BlockRef, nat>

    constructor ()
      ensures blockToSchedule == {} && blockArrivedBuf == {}
    {
      blockToSchedule, blockArrivedBuf, blockToSeq := {}, {}, map[];
    }

    method AddResponse(block: BlockRef)
      modifies `blockArrivedBuf
      ensures blockArrivedBuf == old(blockArrivedBuf) + {block}
    {
      blockArrivedBuf := blockArrivedBuf + {block};
    }

    ghost predicate Numbered(order: seq<BlockRef>)
      reads `blockToSeq
    {
      Numbers(blockToSeq, order)
    }

    /** Numbers the blocks in whatever order the container yields them. */
    method NumberBlocks() returns (order: seq<BlockRef>)
      modifies `blockToSeq
      ensures Numbered(order) && Elems(order) == blockToSchedule && Numbering(order, blockToSchedule)
    {
      hide Numbers, Elems;
      order := [];
      blockToSeq := map[];
      NothingNumbered();
      var left := blockToSchedule;
      while left != {}
        invariant Numbered(order) && Elems(order) + left == blockToSchedule && Elems(order) !! left
        decreases |left|
      {
        var b :| b in left;
        NumbersPush(blockToSeq, order, b);
        blockToSeq := blockToSeq[b := |order|];
        ElemsPush(order, b);
        order := order + [b];
        left := left - {b};
      }
      NumberedOnce(blockToSeq, order);
    }

    /** `get_blockid`: a search through the map. */
    method GetBlockId(number: nat, ghost order: seq<BlockRef>) returns (b: BlockRef)
      requires Numbered(order) && number < |order|
      ensures b == order[number]
    {
      assert order[number] in blockToSeq.Keys;
      var left := blockToSeq.Keys;
      while left != {}
        invariant left <= blockToSeq.Keys && order[number] in left
        decreases |left|
      {
        b :| b in left;
        if blockToSeq[b] == number {
          return;
        }
        left := left - {b};
      }
    }

    /** `sched`: merges the arrivals, asks the solver, and sorts the blocks by its answer. */
    method Tick(d: Demand, solver: Mip -> seq<int>)
      returns (freeze: seq<BlockRef>, unfreeze: seq<BlockRef>, broadcast: seq<BlockRef>)
      requires Oracle(solver)
      modifies this
      ensures blockArrivedBuf == {}
      ensures Distinct(freeze + unfreeze) && Elems(freeze + unfreeze) == old(blockToSchedule + blockArrivedBuf)
      ensures Distinct(broadcast) && Elems(broadcast) <= Elems(freeze)
      ensures |freeze| <= 256 && |broadcast| <= 20
      ensures blockToSchedule == old(blockToSchedule + blockArrivedBuf) - Elems(broadcast)
      ensures old(blockToSchedule + blockArrivedBuf) != {} ==>
        exists order, p, mip ::
          && Describes(p, order, d) && Compiled(p, mip) && Numbering(order, old(blockToSchedule + blockArrivedBuf))
          && FollowsAnswer(p, solver(mip), order, freeze, broadcast)
    {
      hide *;
      blockToSchedule := blockToSchedule + blockArrivedBuf;
      blockArrivedBuf := {};
      freeze, unfreeze, broadcast := [], [], [];
      if blockToSchedule == {} {
        NoBlocks();
        return;
      }
      var order := NumberBlocks();
      var p := FillTables(order, d);
      ProblemShape(p, order, d);
      var mip := Compile(p);
      AskOracle(p, mip, solver);
      var x := solver(mip);
      var sched := new int[p.blocks, p.maxTtl + 2];
      Decode(p, x, sched);
      freeze, unfreeze, broadcast := Sort(order, p, x, sched);
    }

    /** The loop over the decoded answer. */
    method Sort(order: seq<BlockRef>, p: Problem, ghost x: seq<int>, sched: array2<int>)
      returns (freeze: seq<BlockRef>, unfreeze: seq<BlockRef>, broadcast: seq<BlockRef>)
      requires Numbered(order) && Elems(order) == blockToSchedule
      requires p.maxTtl == MAX_TTL && p.storage == STORAGE && p.bandwidth == BANDWIDTH && p.blocks == |order|
      requires Binary(p, x) && GoodSchedule(p, x)
      requires sched.Length0 == p.blocks && sched.Length1 == p.maxTtl + 2
      requires forall c: nat, t: nat | c < p.blocks && t <= p.maxTtl + 1 :: sched[c, t] == At(p, x, c, t)
      modifies `blockToSchedule
      ensures Distinct(freeze + unfreeze) && Elems(freeze + unfreeze) == old(blockToSchedule)
      ensures Distinct(broadcast) && Elems(broadcast) <= Elems(freeze)
      ensures |freeze| <= 256 && |broadcast| <= 20
      ensures blockToSchedule == old(blockToSchedule) - Elems(broadcast)
      ensures FollowsAnswer(p, x, order, freeze, broadcast)
    {
      hide At, GoodSchedule, Distinct, Elems, CachedAt, DroppedAt, Split, Numbers, FollowsAnswer, CachedNow, LeavingNow;
      NobodyNow(p, x, order);
      freeze, unfreeze, broadcast := [], [], [];
      var c := 0;
      FirstOf(order);
      NoRows(p, x);
      while c < |order|
        invariant 0 <= c <= |order|
        invariant Split(order[..c], freeze, unfreeze, broadcast)
        invariant |freeze| == CachedAt(p, x, 0, c) && |broadcast| == DroppedAt(p, x, 0, c)
        invariant freeze == CachedNow(p, x, order, c) && broadcast == LeavingNow(p, x, order, c)
        invariant blockToSchedule == old(blockToSchedule) - Elems(broadcast)
        invariant Numbered(order)
      {
        var b := GetBlockId(c, order);
        BitAt(p, x, c, 0);
        BitAt(p, x, c, 1);
        NoReturn(p, x, c, 0);
        CountStep(p, x, c);
        NowStep(p, x, order, c);
        SplitStep(order, c, freeze, unfreeze, broadcast);
        if sched[c, 0] == 1 {
          freeze := freeze + [b];
          if sched[c, 1] == 0 {
            ElemsPush(broadcast, b);
            broadcast := broadcast + [b];
            blockToSchedule := blockToSchedule - {b};
          }
        } else {
          unfreeze := unfreeze + [b];
        }
        c := c + 1;
      }
      assert order[..c] == order;
      WithinBounds(p, x);
      NumberedDistinct(blockToSeq, order);
      SplitMeans(order, freeze, unfreeze, broadcast);
      AnswerFollowed(p, x, order);
    }
  }

  /** The blocks that the answer caches at time 0, among the first `n`. */
  function CachedNow(p: Problem, x: seq<int>, order: seq<BlockRef>, n: nat): seq<BlockRef>
    requires |x| == p.Cols() && |order| == p.blocks && n <= |order|
  {
    if n == 0 then [] else CachedNow(p, x, order, n - 1) + if At(p, x, n - 1, 0) == 1 then [order[n - 1]] else []
  }

  /** Those of them that it no longer caches at time 1. */
  function LeavingNow(p: Problem, x: seq<int>, order: seq<BlockRef>, n: nat): seq<BlockRef>
    requires |x| == p.Cols() && |order| == p.blocks && n <= |order|
  {
    if n == 0 then []
    else
      LeavingNow(p, x, order, n - 1) +
        if At(p, x, n - 1, 0) == 1 && At(p, x, n - 1, 1) == 0 then [order[n - 1]] else []
  }

  lemma NobodyNow(p: Problem, x: seq<int>, order: seq<BlockRef>)
    requires |x| == p.Cols() && |order| == p.blocks
    ensures CachedNow(p, x, order, 0) == [] && LeavingNow(p, x, order, 0) == []
  {
  }

  lemma NowStep(p: Problem, x: seq<int>, order: seq<BlockRef>, c: nat)
    requires |x| == p.Cols() && |order| == p.blocks && c < |order|
    ensures CachedNow(p, x, order, c + 1) ==
      if At(p, x, c, 0) == 1 then CachedNow(p, x, order, c) + [order[c]] else CachedNow(p, x, order, c)
    ensures LeavingNow(p, x, order, c + 1) ==
      if At(p, x, c, 0) == 1 && At(p, x, c, 1) == 0 then LeavingNow(p, x, order, c) + [order[c]] else LeavingNow(p, x, order, c)
  {
    hide At;
  }

  /** A block is frozen just if the answer caches it now, and broadcast just if the answer
      then drops it at once. */
  ghost predicate FollowsAnswer(p: Problem, x: seq<int>, order: seq<BlockRef>, freeze: seq<BlockRef>, broadcast: seq<BlockRef>) {
    && |x| == p.Cols() && |order| == p.blocks
    && (forall c | 0 <= c < |order| :: order[c] in freeze <==> At(p, x, c, 0) == 1)
    && (forall c | 0 <= c < |order| :: order[c] in broadcast <==> At(p, x, c, 0) == 1 && At(p, x, c, 1) == 0)
  }

  lemma {:induction false} NowMeans(p: Problem, x: seq<int>, order: seq<BlockRef>, n: nat, b: BlockRef)
    requires |x| == p.Cols() && |order| == p.blocks && n <= |order|
    ensures b in CachedNow(p, x, order, n) <==> exists c :: 0 <= c < n && order[c] == b && At(p, x, c, 0) == 1
    ensures b in LeavingNow(p, x, order, n) <==>
      exists c :: 0 <= c < n && order[c] == b && At(p, x, c, 0) == 1 && At(p, x, c, 1) == 0
  {
    hide At;
    if n > 0 {
      NowMeans(p, x, order, n - 1, b);
      assert order[n - 1] in order;
    }
  }

  lemma AnswerFollowed(p: Problem, x: seq<int>, order: seq<BlockRef>)
    requires |x| == p.Cols() && |order| == p.blocks && Distinct(order)
    ensures FollowsAnswer(p, x, order, CachedNow(p, x, order, |order|), LeavingNow(p, x, order, |order|))
  {
    hide At, CachedNow, LeavingNow;
    forall c | 0 <= c < |order|
      ensures order[c] in CachedNow(p, x, order, |order|) <==> At(p, x, c, 0) == 1
      ensures order[c] in LeavingNow(p, x, order, |order|) <==> At(p, x, c, 0) == 1 && At(p, x, c, 1) == 0
    {
      NowMeans(p, x, order, |order|, order[c]);
    }
  }

  /** The blocks to schedule, each once, in the order of their numbers. */
  ghost predicate Numbering(order: seq<BlockRef>, blocks: set<BlockRef>) {
    Distinct(order) && Elems(order) == blocks
  }

  lemma NumberedOnce(m: map<BlockRef, nat>, order: seq<BlockRef>)
    requires Numbers(m, order)
    ensures Numbering(order, Elems(order))
  {
    hide Elems;
  }

  lemma NumberedDistinct(m: map<BlockRef, nat>, order: seq<BlockRef>)
    requires Numbers(m, order)
    ensures Distinct(order)
  {
  }

  lemma NoBlocks()
    ensures Distinct<BlockRef>([]) && Elems<BlockRef>([] + []) == {} && Distinct<BlockRef>([] + []) && Elems<BlockRef>([]) == {}
  {
  }

  lemma ProblemShape(p: Problem, order: seq<BlockRef>, d: Demand)
    requires Describes(p, order, d)
    ensures p.Shaped() && p.maxTtl == MAX_TTL && p.storage == STORAGE && p.bandwidth == BANDWIDTH && p.blocks == |order|
  {
  }

  lemma AskOracle(p: Problem, mip: Mip, solver: Mip -> seq<int>)
    requires Oracle(solver) && p.Shaped() && |mip.ia| == |mip.ja| == |mip.arr|
    requires mip.rowUpper == Upper(p) && IsObjective(p, mip.objective) && mip.Entries() == Matrix(p)
    ensures Compiled(p, mip)
    ensures Binary(p, solver(mip)) && GoodSchedule(p, solver(mip)) && |solver(mip)| == p.Cols()
  {
    hide Upper, Matrix, GoodSchedule, IsObjective, Feasible;
    assert Compiled(p, mip);
    CompiledMeansProblem(p, mip, solver(mip));
  }

  /** `done` is sorted into frozen and unfrozen blocks, and the broadcast ones are frozen. */
  ghost predicate Split(done: seq<BlockRef>, freeze: seq<BlockRef>, unfreeze: seq<BlockRef>, broadcast: seq<BlockRef>) {
    && multiset(freeze) + multiset(unfreeze) == multiset(done)
    && multiset(broadcast) <= multiset(freeze)
  }

  lemma FirstOf(order: seq<BlockRef>)
    ensures Split(order[..0], [], [], []) && Elems<BlockRef>([]) == {}
  {
  }

  lemma SplitStep(order: seq<BlockRef>, c: nat, freeze: seq<BlockRef>, unfreeze: seq<BlockRef>, broadcast: seq<BlockRef>)
    requires c < |order| && Split(order[..c], freeze, unfreeze, broadcast)
    ensures Split(order[..c + 1], freeze + [order[c]], unfreeze, broadcast)
    ensures Split(order[..c + 1], freeze + [order[c]], unfreeze, broadcast + [order[c]])
    ensures Split(order[..c + 1], freeze, unfreeze + [order[c]], broadcast)
  {
    assert order[..c + 1] == order[..c] + [order[c]];
  }

  lemma NoRows(p: Problem, x: seq<int>)
    requires |x| == p.Cols()
    ensures CachedAt(p, x, 0, 0) == 0 && DroppedAt(p, x, 0, 0) == 0
  {
  }

  lemma CountStep(p: Problem, x: seq<int>, c: nat)
    requires |x| == p.Cols() && c < p.blocks
    ensures CachedAt(p, x, 0, c + 1) == CachedAt(p, x, 0, c) + At(p, x, c, 0)
    ensures DroppedAt(p, x, 0, c + 1) == DroppedAt(p, x, 0, c) + (At(p, x, c, 0) - At(p, x, c, 1))
  {
    hide At;
  }

  lemma WithinBounds(p: Problem, x: seq<int>)
    requires |x| == p.Cols() && GoodSchedule(p, x)
    ensures CachedAt(p, x, 0, p.blocks) <= p.storage && DroppedAt(p, x, 0, p.blocks) <= p.bandwidth
  {
  }

  lemma {:induction false} DistinctMeans(s: seq<BlockRef>)
    ensures Distinct(s) <==> forall b | b in multiset(s) :: multiset(s)[b] == 1
  {
    if s != [] {
      var n := |s| - 1;
      DistinctMeans(s[..n]);
      assert s == s[..n] + [s[n]];
      assert multiset(s) == multiset(s[..n]) + multiset{s[n]};
      if Distinct(s) {
        assert s[n] !in s[..n];
      } else if Distinct(s[..n]) {
        assert s[n] in s[..n];
        assert multiset(s)[s[n]] > 1;
      } else {
        var b :| b in multiset(s[..n]) && multiset(s[..n])[b] != 1;
        assert multiset(s)[b] != 1;
      }
    }
  }

  lemma SplitMeans(order: seq<BlockRef>, freeze: seq<BlockRef>, unfreeze: seq<BlockRef>, broadcast: seq<BlockRef>)
    requires Distinct(order) && Split(order, freeze, unfreeze, broadcast)
    ensures Distinct(freeze + unfreeze) && Elems(freeze + unfreeze) == Elems(order)
    ensures Distinct(broadcast) && Elems(broadcast) <= Elems(freeze)
  {
    hide Distinct;
    DistinctMeans(order);
    DistinctMeans(freeze + unfreeze);
    DistinctMeans(broadcast);
    assert multiset(freeze + unfreeze) == multiset(order);
    SameElems(freeze + unfreeze, order);
    forall b | b in multiset(broadcast)
      ensures multiset(broadcast)[b] == 1 && b in multiset(freeze)
    {
      assert multiset(broadcast)[b] <= multiset(freeze)[b] <= multiset(order)[b];
    }
    forall b | b in Elems(broadcast)
      ensures b in Elems(freeze)
    {
      assert b in multiset(broadcast);
    }
  }

  lemma SameElems(s: seq<BlockRef>, u: seq<BlockRef>)
    requires multiset(s) == multiset(u)
    ensures Elems(s) == Elems(u)
  {
    forall b | b in Elems(s)
      ensures b in Elems(u)
    {
      assert b in multiset(s);
    }
    forall b | b in Elems(u)
      ensures b in Elems(s)
    {
      assert b in multiset(u);
    }
  }

  // ---- Runs of arrivals and ticks

  datatype Event = Arrive(block: BlockRef) | TickNow(demand: Demand)

  /** The blocks that have arrived and were not broadcast since their latest arrival. */
  ghost function Pending(events: seq<Event>, broadcasts: seq<seq<BlockRef>>): set<BlockRef>
    requires |events| == |broadcasts|
  {
    if events == [] then {}
    else
      var n := |events| - 1;
      var before := Pending(events[..n], broadcasts[..n]);
      match events[n]
      case Arrive(b) => before + {b}
      case TickNow(_) => before - Elems(broadcasts[n])
  }

  ghost predicate GoodTick(events: seq<Event>, broadcasts: seq<seq<BlockRef>>, i: nat)
    requires i < |events| == |broadcasts|
  {
    if events[i].TickNow? then
      Elems(broadcasts[i]) <= Pending(events[..i], broadcasts[..i]) && Distinct(broadcasts[i]) && |broadcasts[i]| <= 20
    else broadcasts[i] == []
  }

  lemma PendingStep(events: seq<Event>, broadcasts: seq<seq<BlockRef>>, i: nat, out: seq<BlockRef>)
    requires i < |events| && |broadcasts| == i
    ensures Pending(events[..i + 1], broadcasts + [out]) ==
      match events[i] {
        case Arrive(b) => Pending(events[..i], broadcasts) + {b}
        case TickNow(_) => Pending(events[..i], broadcasts) - Elems(out)
      }
  {
    assert events[..i + 1][..i] == events[..i];
    assert (broadcasts + [out])[..i] == broadcasts;
  }

  method Handle(s: Scheduler, ev: Event, solver: Mip -> seq<int>) returns (out: seq<BlockRef>)
    requires Oracle(solver)
    modifies s
    ensures Elems(out) <= old(s.blockToSchedule + s.blockArrivedBuf) && Distinct(out) && |out| <= BANDWIDTH
    ensures s.blockToSchedule + s.blockArrivedBuf ==
      match ev {
        case Arrive(b) => old(s.blockToSchedule + s.blockArrivedBuf) + {b}
        case TickNow(_) => old(s.blockToSchedule + s.blockArrivedBuf) - Elems(out)
      }
    ensures ev.Arrive? ==> out == []
  {
    hide Oracle, Distinct;
    NoBlocks();
    match ev
    case Arrive(b) =>
      s.AddResponse(b);
      out := [];
    case TickNow(d) =>
      var freeze, unfreeze;
      freeze, unfreeze, out := s.Tick(d, solver);
      assert Elems(freeze) <= Elems(freeze + unfreeze);
  }

  /** Over every run of arrivals and ticks the scheduler holds exactly the blocks that have
      arrived and were not broadcast since. */
  method Run(events: seq<Event>, solver: Mip -> seq<int>)
    returns (broadcasts: seq<seq<BlockRef>>, scheduled: set<BlockRef>, buffered: set<BlockRef>)
    requires Oracle(solver)
    ensures |broadcasts| == |events| && scheduled + buffered == Pending(events, broadcasts)
    ensures forall i | 0 <= i < |events| :: GoodTick(events, broadcasts, i)
  {
    hide Oracle, Distinct, Elems, Pending;
    var s := new Scheduler();
    broadcasts := [];
    var i := 0;
    NonePending(events);
    while i < |events|
      invariant 0 <= i <= |events| && |broadcasts| == i && fresh(s)
      invariant s.blockToSchedule + s.blockArrivedBuf == Pending(events[..i], broadcasts)
      invariant forall j | 0 <= j < i :: GoodTick(events[..i], broadcasts, j)
    {
      ghost var before := broadcasts;
      var out := Handle(s, events[i], solver);
      broadcasts := broadcasts + [out];
      PendingStep(events, before, i, out);
      assert events[..i + 1] == events[..i] + [events[i]];
      GoodTicksStep(events[..i], before, events[i], out, events[..i + 1], broadcasts);
      i := i + 1;
    }
    assert events[..i] == events;
    scheduled, buffered := s.blockToSchedule, s.blockArrivedBuf;
  }

  lemma NonePending(events: seq<Event>)
    ensures Pending(events[..0], []) == {}
  {
  }

  lemma GoodTicksStep(events: seq<Event>, broadcasts: seq<seq<BlockRef>>, ev: Event, out: seq<BlockRef>,
                      events': seq<Event>, broadcasts': seq<seq<BlockRef>>)
    requires |events| == |broadcasts| && events' == events + [ev] && broadcasts' == broadcasts + [out]
    requires forall j | 0 <= j < |events| :: GoodTick(events, broadcasts, j)
    requires Elems(out) <= Pending(events, broadcasts) && Distinct(out) && |out| <= BANDWIDTH
    requires ev.Arrive? ==> out == []
    ensures forall j | 0 <= j < |events'| :: GoodTick(events', broadcasts', j)
  {
    hide Elems, Distinct, Pending;
    forall j | 0 <= j < |events'|
      ensures GoodTick(events', broadcasts', j)
    {
      assert events'[..j] == events[..j];
      assert broadcasts'[..j] == broadcasts[..j];
      if j < |events| {
        assert GoodTick(events, broadcasts, j);
      } else {
        assert events[..j] == events && broadcasts[..j] == broadcasts;
      }
    }
  }

  /** Nothing is forgotten: a block that arrived is still held or was broadcast afterwards. */
  lemma {:induction false} NothingForgotten(events: seq<Event>, broadcasts: seq<seq<BlockRef>>, i: nat)
    requires |events| == |broadcasts| && i < |events| && events[i].Arrive?
    ensures
      || events[i].block in Pending(events, broadcasts)
      || exists j :: i < j < |events| && events[j].TickNow? && events[i].block in Elems(broadcasts[j])
  {
    var n := |events| - 1;
    if i < n {
      NothingForgotten(events[..n], broadcasts[..n], i);
      if events[i].block !in Pending(events[..n], broadcasts[..n]) {
        var j :| i < j < n && events[j].TickNow? && events[i].block in Elems(broadcasts[..n][j]);
        assert events[i].block in Elems(broadcasts[j]);
      }
    }
  }
}
