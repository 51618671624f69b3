/** The joint scheduling program that lpsolver.hpp compiles for an integer solver: rows,
    columns, objective and sparse matrix, what they mean, and the decoding of an answer.
    The solver itself is an oracle: an answer is any 0/1 vector that meets the bounds. */
module LpMeaning {
  import opened Arithmetic


  /** The arguments of `solve`. Utilities are real numbers here. */
  datatype Problem = Problem(maxTtl: nat, blocks: nat, storage: nat, bandwidth: nat, neighbors: nat,
                             ttl: seq<seq<int>>, utility: seq<seq<real>>)
  {
    /** The two tables have an entry for every neighbour and block. */
    ghost predicate Shaped() {
      && |ttl| == neighbors == |utility|
      && forall k | 0 <= k < neighbors :: |ttl[k]| == blocks == |utility[k]|
    }

    /** Variables for each block: time 0 to maxTtl + 1. */
    function Times(): nat { maxTtl + 2 }

    function Cols(): nat { Times() * blocks }

    function Rows(): nat { (maxTtl + 2) + (maxTtl + 1) + blocks * (maxTtl + 1) }

    /** The 1-based column of block `c` at time `t`. */
    function Col(c: nat, t: nat): nat { 1 + c * (maxTtl + 2) + t }
  }

  datatype Entry = Entry(row: nat, col: nat, coef: int)

  datatype Mip = Mip(rowUpper: seq<int>, objective: seq<real>, ia: seq<nat>, ja: seq<nat>, arr: seq<int>) {
    function Entries(): seq<Entry>
      requires |ia| == |ja| == |arr|
    {
      seq(|ia|, k requires 0 <= k < |ia| => Entry(ia[k], ja[k], arr[k]))
    }
  }

  // ---- The schedule that a vector of columns stands for

  ghost predicate Binary(p: Problem, x: seq<int>) {
    |x| == p.Cols() && forall i | 0 <= i < |x| :: x[i] == 0 || x[i] == 1
  }

  lemma ColInRange(p: Problem, c: nat, t: nat)
    requires c < p.blocks && t <= p.maxTtl + 1
    ensures 1 <= p.Col(c, t) <= p.Cols()
  {
    MulMonotone(c + 1, p.blocks, p.maxTtl + 2);
  }

  /** Is block `c` cached at time `t`? */
  function At(p: Problem, x: seq<int>, c: nat, t: nat): int
    requires |x| == p.Cols() && c < p.blocks && t <= p.maxTtl + 1
  {
    ColInRange(p, c, t);
    x[p.Col(c, t) - 1]
  }

  /** The column index and its decoding by division undo each other. */
  lemma DecodeCol(p: Problem, c: nat, t: nat)
    requires t <= p.maxTtl + 1
    ensures (p.Col(c, t) - 1) / (p.maxTtl + 2) == c && (p.Col(c, t) - 1) % (p.maxTtl + 2) == t
  {
    DivModUnique(c * (p.maxTtl + 2) + t, p.maxTtl + 2, c, t);
  }

  lemma EncodeCol(p: Problem, it: nat)
    requires it < p.Cols()
    ensures it / (p.maxTtl + 2) < p.blocks && it % (p.maxTtl + 2) <= p.maxTtl + 1
    ensures p.Col(it / (p.maxTtl + 2), it % (p.maxTtl + 2)) == it + 1
  {
    var d := p.maxTtl + 2;
    var q := it / d;
    assert it == q * d + it % d;
    if q >= p.blocks {
      MulMonotone(p.blocks, q, d);
    }
  }

  /** Blocks cached at time `t`, among the first `n`. */
  function CachedAt(p: Problem, x: seq<int>, t: nat, n: nat): int
    requires |x| == p.Cols() && n <= p.blocks && t <= p.maxTtl + 1
  {
    if n == 0 then 0 else CachedAt(p, x, t, n - 1) + At(p, x, n - 1, t)
  }

  /** Blocks that leave between times `t` and `t + 1`, less those that come, among the first `n`. */
  function DroppedAt(p: Problem, x: seq<int>, t: nat, n: nat): int
    requires |x| == p.Cols() && n <= p.blocks && t <= p.maxTtl
  {
    if n == 0 then 0 else DroppedAt(p, x, t, n - 1) + (At(p, x, n - 1, t) - At(p, x, n - 1, t + 1))
  }

  /** What the scheduler wants of a schedule: room, bandwidth, and no block coming back. */
  ghost predicate GoodSchedule(p: Problem, x: seq<int>)
    requires |x| == p.Cols()
  {
    && (forall t: nat | t <= p.maxTtl + 1 :: CachedAt(p, x, t, p.blocks) <= p.storage)
    && (forall t: nat | t <= p.maxTtl :: DroppedAt(p, x, t, p.blocks) <= p.bandwidth)
    && (forall c: nat, t: nat | c < p.blocks && t <= p.maxTtl :: At(p, x, c, t + 1) <= At(p, x, c, t))
  }

  // ---- The matrix as the source's loops leave it

  function StorageRow(p: Problem, t: nat, c: nat): seq<Entry> {
    if c == 0 then [] else StorageRow(p, t, c - 1) + [Entry(1 + t, p.Col(c - 1, t), 1)]
  }

  function StorageRows(p: Problem, t: nat): seq<Entry> {
    if t == 0 then [] else StorageRows(p, t - 1) + StorageRow(p, t - 1, p.blocks)
  }

  function BandwidthRow(p: Problem, t: nat, c: nat): seq<Entry> {
    if c == 0 then []
    else
      var row := p.maxTtl + 3 + t;
      BandwidthRow(p, t, c - 1) + [Entry(row, p.Col(c - 1, t), 1), Entry(row, p.Col(c - 1, t) + 1, -1)]
  }

  function BandwidthRows(p: Problem, t: nat): seq<Entry> {
    if t == 0 then [] else BandwidthRows(p, t - 1) + BandwidthRow(p, t - 1, p.blocks)
  }

  function OrderIndex(p: Problem, c: nat, t: nat): nat { 2 * p.maxTtl + 4 + c * (p.maxTtl + 1) + t }

  function OrderRow(p: Problem, c: nat, t: nat): seq<Entry> {
    if t == 0 then []
    else
      var row := OrderIndex(p, c, t - 1);
      OrderRow(p, c, t - 1) + [Entry(row, p.Col(c, t - 1), -1), Entry(row, p.Col(c, t - 1) + 1, 1)]
  }

  function OrderRows(p: Problem, c: nat): seq<Entry> {
    if c == 0 then [] else OrderRows(p, c - 1) + OrderRow(p, c - 1, p.maxTtl + 1)
  }

  function Matrix(p: Problem): seq<Entry> {
    StorageRows(p, p.maxTtl + 2) + BandwidthRows(p, p.maxTtl + 1) + OrderRows(p, p.blocks)
  }

  function Upper(p: Problem): seq<int> {
    seq(p.maxTtl + 2, _ => p.storage) + seq(p.maxTtl + 1, _ => p.bandwidth) + seq(p.blocks * (p.maxTtl + 1), _ => 0)
  }

  // ---- Meaning of the matrix

  /** The left-hand side of row `r` for a vector of columns. */
  function Activity(es: seq<Entry>, x: seq<int>, r: nat): int {
    if es == [] then 0
    else
      var n := |es| - 1;
      Activity(es[..n], x, r) +
        if es[n].row == r && 1 <= es[n].col <= |x| then es[n].coef * x[es[n].col - 1] else 0
  }

  lemma ActivityStep(es: seq<Entry>, e: Entry, x: seq<int>, r: nat)
    ensures Activity(es + [e], x, r) ==
      Activity(es, x, r) + if e.row == r && 1 <= e.col <= |x| then e.coef * x[e.col - 1] else 0
  {
    assert (es + [e])[..|es|] == es;
  }

  lemma {:induction false} ActivitySplit(es: seq<Entry>, fs: seq<Entry>, x: seq<int>, r: nat)
    ensures Activity(es + fs, x, r) == Activity(es, x, r) + Activity(fs, x, r)
    decreases |fs|
  {
    if fs == [] {
      assert es + fs == es;
    } else {
      var n := |fs| - 1;
      ActivitySplit(es, fs[..n], x, r);
      assert es + fs == (es + fs[..n]) + [fs[n]];
      assert fs == fs[..n] + [fs[n]];
      ActivityStep(es + fs[..n], fs[n], x, r);
      ActivityStep(fs[..n], fs[n], x, r);
    }
  }

  lemma {:induction false} StorageRowMeans(p: Problem, x: seq<int>, t: nat, c: nat, r: nat)
    requires |x| == p.Cols() && t <= p.maxTtl + 1 && c <= p.blocks
    ensures Activity(StorageRow(p, t, c), x, r) == if r == 1 + t then CachedAt(p, x, t, c) else 0
  {
    hide Activity;
    if c > 0 {
      StorageRowMeans(p, x, t, c - 1, r);
      ColInRange(p, c - 1, t);
      ActivityStep(StorageRow(p, t, c - 1), Entry(1 + t, p.Col(c - 1, t), 1), x, r);
    } else {
      NoActivity(x, r);
    }
  }

  lemma NoActivity(x: seq<int>, r: nat)
    ensures Activity([], x, r) == 0
  {
  }

  lemma {:induction false} StorageRowsMean(p: Problem, x: seq<int>, t: nat, r: nat)
    requires |x| == p.Cols() && t <= p.maxTtl + 2
    ensures Activity(StorageRows(p, t), x, r) == if 1 <= r <= t then CachedAt(p, x, r - 1, p.blocks) else 0
  {
    hide Activity, StorageRow, CachedAt;
    if t > 0 {
      StorageRowsMean(p, x, t - 1, r);
      StorageRowMeans(p, x, t - 1, p.blocks, r);
      ActivitySplit(StorageRows(p, t - 1), StorageRow(p, t - 1, p.blocks), x, r);
    } else {
      NoActivity(x, r);
    }
  }

  lemma {:induction false} BandwidthRowMeans(p: Problem, x: seq<int>, t: nat, c: nat, r: nat)
    requires |x| == p.Cols() && t <= p.maxTtl && c <= p.blocks
    ensures Activity(BandwidthRow(p, t, c), x, r) == if r == p.maxTtl + 3 + t then DroppedAt(p, x, t, c) else 0
  {
    hide Activity;
    if c > 0 {
      BandwidthRowMeans(p, x, t, c - 1, r);
      ColInRange(p, c - 1, t);
      ColInRange(p, c - 1, t + 1);
      TwoEntries(BandwidthRow(p, t, c - 1), Entry(p.maxTtl + 3 + t, p.Col(c - 1, t), 1),
                 Entry(p.maxTtl + 3 + t, p.Col(c - 1, t) + 1, -1), x, r);
    } else {
      NoActivity(x, r);
    }
  }

  lemma TwoEntries(es: seq<Entry>, e: Entry, f: Entry, x: seq<int>, r: nat)
    requires e.row == f.row && 1 <= e.col <= |x| && 1 <= f.col <= |x|
    ensures Activity(es + [e, f], x, r) ==
      Activity(es, x, r) + if e.row == r then e.coef * x[e.col - 1] + f.coef * x[f.col - 1] else 0
  {
    hide Activity;
    ActivityStep(es, e, x, r);
    ActivityStep(es + [e], f, x, r);
    assert es + [e, f] == es + [e] + [f];
  }

  lemma {:induction false} BandwidthRowsMean(p: Problem, x: seq<int>, t: nat, r: nat)
    requires |x| == p.Cols() && t <= p.maxTtl + 1
    ensures Activity(BandwidthRows(p, t), x, r) ==
      if p.maxTtl + 3 <= r < p.maxTtl + 3 + t then DroppedAt(p, x, r - (p.maxTtl + 3), p.blocks) else 0
  {
    hide Activity, BandwidthRow, DroppedAt;
    if t > 0 {
      BandwidthRowsMean(p, x, t - 1, r);
      BandwidthRowMeans(p, x, t - 1, p.blocks, r);
      ActivitySplit(BandwidthRows(p, t - 1), BandwidthRow(p, t - 1, p.blocks), x, r);
    } else {
      NoActivity(x, r);
    }
  }

  lemma {:induction false} OrderRowMeans(p: Problem, x: seq<int>, c: nat, t: nat, r: nat)
    requires |x| == p.Cols() && c < p.blocks && t <= p.maxTtl + 1
    ensures
      var s := r - OrderIndex(p, c, 0);
      Activity(OrderRow(p, c, t), x, r) == if 0 <= s < t then At(p, x, c, s + 1) - At(p, x, c, s) else 0
  {
    hide Activity;
    if t > 0 {
      OrderRowMeans(p, x, c, t - 1, r);
      ColInRange(p, c, t - 1);
      ColInRange(p, c, t);
      TwoEntries(OrderRow(p, c, t - 1), Entry(OrderIndex(p, c, t - 1), p.Col(c, t - 1), -1),
                 Entry(OrderIndex(p, c, t - 1), p.Col(c, t - 1) + 1, 1), x, r);
    } else {
      NoActivity(x, r);
    }
  }

  /** Row `OrderIndex(c, t)` holds the change of block `c` from `t` to `t + 1`, and no row
      outside these has an entry here. */
  lemma {:induction false} OrderRowsMean(p: Problem, x: seq<int>, n: nat, r: nat)
    requires |x| == p.Cols() && n <= p.blocks
    ensures r < OrderIndex(p, 0, 0) || r >= OrderIndex(p, n, 0) ==> Activity(OrderRows(p, n), x, r) == 0
    ensures forall c: nat, t: nat | c < n && t <= p.maxTtl && r == OrderIndex(p, c, t) ::
      Activity(OrderRows(p, n), x, r) == At(p, x, c, t + 1) - At(p, x, c, t)
  {
    hide Activity, OrderRow, At;
    if n > 0 {
      OrderRowsMean(p, x, n - 1, r);
      OrderRowMeans(p, x, n - 1, p.maxTtl + 1, r);
      ActivitySplit(OrderRows(p, n - 1), OrderRow(p, n - 1, p.maxTtl + 1), x, r);
      OrderIndexGrows(p, n - 1);
      forall c: nat, t: nat | c < n && t <= p.maxTtl && r == OrderIndex(p, c, t)
        ensures Activity(OrderRows(p, n), x, r) == At(p, x, c, t + 1) - At(p, x, c, t)
      {
        if c < n - 1 {
          MulMonotone(c + 1, n - 1, p.maxTtl + 1);
          assert (c + 1) * (p.maxTtl + 1) == c * (p.maxTtl + 1) + (p.maxTtl + 1);
        }
      }
    } else {
      NoActivity(x, r);
    }
  }

  lemma OrderIndexGrows(p: Problem, c: nat)
    ensures OrderIndex(p, c + 1, 0) == OrderIndex(p, c, 0) + p.maxTtl + 1
    ensures OrderIndex(p, c, 0) >= OrderIndex(p, 0, 0)
  {
    assert (c + 1) * (p.maxTtl + 1) == c * (p.maxTtl + 1) + (p.maxTtl + 1);
  }

  ghost predicate MeetsRows(es: seq<Entry>, upper: seq<int>, x: seq<int>) {
    forall r: nat | 1 <= r <= |upper| :: Activity(es, x, r) <= upper[r - 1]
  }

  lemma RowsOfUpper(p: Problem)
    ensures |Upper(p)| == p.Rows() == OrderIndex(p, p.blocks, 0) - 1
    ensures forall t: nat | t <= p.maxTtl + 1 :: Upper(p)[t] == p.storage
    ensures forall i: nat | p.maxTtl + 2 <= i < 2 * p.maxTtl + 3 :: Upper(p)[i] == p.bandwidth
    ensures forall i: nat | 2 * p.maxTtl + 3 <= i < p.Rows() :: Upper(p)[i] == 0
  {
  }

  /** The row that each of the three kinds of constraint compiles to. */
  lemma MatrixRows(p: Problem, x: seq<int>, r: nat)
    requires |x| == p.Cols() && 1 <= r < OrderIndex(p, p.blocks, 0)
    ensures r <= p.maxTtl + 2 ==> Activity(Matrix(p), x, r) == CachedAt(p, x, r - 1, p.blocks)
    ensures p.maxTtl + 3 <= r <= 2 * p.maxTtl + 3 ==>
      Activity(Matrix(p), x, r) == DroppedAt(p, x, r - (p.maxTtl + 3), p.blocks)
    ensures r >= 2 * p.maxTtl + 4 ==> forall c: nat, t: nat | c < p.blocks && t <= p.maxTtl && r == OrderIndex(p, c, t) ::
      Activity(Matrix(p), x, r) == At(p, x, c, t + 1) - At(p, x, c, t)
  {
    hide Activity, StorageRows, BandwidthRows, OrderRows, At, CachedAt, DroppedAt;
    StorageRowsMean(p, x, p.maxTtl + 2, r);
    BandwidthRowsMean(p, x, p.maxTtl + 1, r);
    OrderRowsMean(p, x, p.blocks, r);
    ActivitySplit(StorageRows(p, p.maxTtl + 2), BandwidthRows(p, p.maxTtl + 1), x, r);
    ActivitySplit(StorageRows(p, p.maxTtl + 2) + BandwidthRows(p, p.maxTtl + 1), OrderRows(p, p.blocks), x, r);
  }

  /** Every row past the first two groups is the order row of some block and time. */
  lemma OrderRowOf(p: Problem, r: nat) returns (c: nat, t: nat)
    requires OrderIndex(p, 0, 0) <= r < OrderIndex(p, p.blocks, 0)
    ensures c < p.blocks && t <= p.maxTtl && r == OrderIndex(p, c, t)
  {
    var d := p.maxTtl + 1;
    var n := r - OrderIndex(p, 0, 0);
    c, t := n / d, n % d;
    assert n == c * d + t;
    if c >= p.blocks {
      MulMonotone(p.blocks, c, d);
    }
  }

  lemma OrderIndexInRange(p: Problem, c: nat, t: nat)
    requires c < p.blocks && t <= p.maxTtl
    ensures 2 * p.maxTtl + 4 <= OrderIndex(p, c, t) < OrderIndex(p, p.blocks, 0)
  {
    MulMonotone(c + 1, p.blocks, p.maxTtl + 1);
    OrderIndexGrows(p, c);
  }

  /** The compilation preserves meaning: a vector meets every row bound exactly when the
      schedule it stands for keeps within room and bandwidth and no block comes back. */
  lemma RowsMeanSchedule(p: Problem, x: seq<int>)
    requires |x| == p.Cols()
    ensures MeetsRows(Matrix(p), Upper(p), x) <==> GoodSchedule(p, x)
  {
    if MeetsRows(Matrix(p), Upper(p), x) {
      RowsGiveSchedule(p, x);
    }
    if GoodSchedule(p, x) {
      ScheduleGivesRows(p, x);
    }
  }

  lemma RowsGiveSchedule(p: Problem, x: seq<int>)
    requires |x| == p.Cols() && MeetsRows(Matrix(p), Upper(p), x)
    ensures GoodSchedule(p, x)
  {
    hide Activity, Matrix, Upper, CachedAt, DroppedAt, At, OrderIndex;
    RowsOfUpper(p);
    forall t: nat | t <= p.maxTtl + 1
      ensures CachedAt(p, x, t, p.blocks) <= p.storage
    {
      BigRows(p, t + 1);
      MatrixRows(p, x, t + 1);
    }
    forall t: nat | t <= p.maxTtl
      ensures DroppedAt(p, x, t, p.blocks) <= p.bandwidth
    {
      var r := p.maxTtl + 3 + t;
      BigRows(p, r);
      MatrixRows(p, x, r);
      assert Upper(p)[r - 1] == p.bandwidth;
    }
    forall c: nat, t: nat | c < p.blocks && t <= p.maxTtl
      ensures At(p, x, c, t + 1) <= At(p, x, c, t)
    {
      OrderIndexInRange(p, c, t);
      MatrixRows(p, x, OrderIndex(p, c, t));
    }
  }

  lemma BigRows(p: Problem, r: nat)
    requires r <= 2 * p.maxTtl + 3
    ensures r < OrderIndex(p, p.blocks, 0)
  {
  }

  lemma ScheduleGivesRows(p: Problem, x: seq<int>)
    requires |x| == p.Cols() && GoodSchedule(p, x)
    ensures MeetsRows(Matrix(p), Upper(p), x)
  {
    hide Activity, Matrix, Upper, CachedAt, DroppedAt, At;
    RowsOfUpper(p);
    forall r: nat | 1 <= r <= |Upper(p)|
      ensures Activity(Matrix(p), x, r) <= Upper(p)[r - 1]
    {
      MatrixRows(p, x, r);
      if r <= p.maxTtl + 2 {
        assert Upper(p)[r - 1] == p.storage;
      } else if r <= 2 * p.maxTtl + 3 {
        assert Upper(p)[r - 1] == p.bandwidth;
        var t: nat := r - (p.maxTtl + 3);
        assert DroppedAt(p, x, t, p.blocks) <= p.bandwidth;
      } else {
        var c, t := OrderRowOf(p, r);
        assert Upper(p)[r - 1] == 0;
        assert At(p, x, c, t + 1) <= At(p, x, c, t);
      }
    }
  }

  /** The blocks among the first `n` that are cached at time `t`. */
  ghost function Cached(p: Problem, x: seq<int>, t: nat, n: nat): set<nat>
    requires |x| == p.Cols() && n <= p.blocks && t <= p.maxTtl + 1
  {
    set c: nat | c < n && At(p, x, c, t) == 1
  }

  /** The blocks among the first `n` that are cached at time `t` and not at `t + 1`. */
  ghost function Leaving(p: Problem, x: seq<int>, t: nat, n: nat): set<nat>
    requires |x| == p.Cols() && n <= p.blocks && t <= p.maxTtl
  {
    set c: nat | c < n && At(p, x, c, t) == 1 && At(p, x, c, t + 1) == 0
  }

  lemma BinaryAt(p: Problem, x: seq<int>, c: nat, t: nat)
    requires Binary(p, x) && c < p.blocks && t <= p.maxTtl + 1
    ensures At(p, x, c, t) == 0 || At(p, x, c, t) == 1
  {
    ColInRange(p, c, t);
  }

  lemma LeavingStep(p: Problem, x: seq<int>, t: nat, n: nat)
    requires |x| == p.Cols() && 0 < n <= p.blocks && t <= p.maxTtl
    ensures |Leaving(p, x, t, n)| == |Leaving(p, x, t, n - 1)| +
      if At(p, x, n - 1, t) == 1 && At(p, x, n - 1, t + 1) == 0 then 1 else 0
  {
    hide At;
    assert Leaving(p, x, t, n) ==
      if At(p, x, n - 1, t) == 1 && At(p, x, n - 1, t + 1) == 0 then Leaving(p, x, t, n - 1) + {n - 1}
      else Leaving(p, x, t, n - 1);
  }

  lemma CachedStep(p: Problem, x: seq<int>, t: nat, n: nat)
    requires |x| == p.Cols() && 0 < n <= p.blocks && t <= p.maxTtl + 1
    ensures |Cached(p, x, t, n)| == |Cached(p, x, t, n - 1)| + if At(p, x, n - 1, t) == 1 then 1 else 0
  {
    hide At;
    assert Cached(p, x, t, n) ==
      if At(p, x, n - 1, t) == 1 then Cached(p, x, t, n - 1) + {n - 1} else Cached(p, x, t, n - 1);
  }

  /** For a 0/1 vector whose blocks never come back, what row group two bounds is the number
      of blocks that leave. */
  lemma {:induction false} DroppedCounts(p: Problem, x: seq<int>, t: nat, n: nat)
    requires Binary(p, x) && GoodSchedule(p, x) && t <= p.maxTtl && n <= p.blocks
    ensures DroppedAt(p, x, t, n) == |Leaving(p, x, t, n)|
  {
    hide At, Leaving, GoodSchedule;
    if n > 0 {
      DroppedCounts(p, x, t, n - 1);
      BinaryAt(p, x, n - 1, t);
      BinaryAt(p, x, n - 1, t + 1);
      NoReturn(p, x, n - 1, t);
      LeavingStep(p, x, t, n);
    } else {
      NoneYet(p, x, t);
    }
  }

  lemma NoReturn(p: Problem, x: seq<int>, c: nat, t: nat)
    requires |x| == p.Cols() && GoodSchedule(p, x) && c < p.blocks && t <= p.maxTtl
    ensures At(p, x, c, t + 1) <= At(p, x, c, t)
  {
  }

  lemma NoneYet(p: Problem, x: seq<int>, t: nat)
    requires |x| == p.Cols() && t <= p.maxTtl
    ensures Leaving(p, x, t, 0) == {}
  {
  }

  lemma NoneCachedYet(p: Problem, x: seq<int>, t: nat)
    requires |x| == p.Cols() && t <= p.maxTtl + 1
    ensures Cached(p, x, t, 0) == {}
  {
  }

  lemma {:induction false} CachedCounts(p: Problem, x: seq<int>, t: nat, n: nat)
    requires Binary(p, x) && t <= p.maxTtl + 1 && n <= p.blocks
    ensures CachedAt(p, x, t, n) == |Cached(p, x, t, n)|
  {
    hide At, Cached;
    if n > 0 {
      CachedCounts(p, x, t, n - 1);
      BinaryAt(p, x, n - 1, t);
      CachedStep(p, x, t, n);
    } else {
      NoneCachedYet(p, x, t);
    }
  }

  // ---- The matrix is one the solver accepts

  predicate Before(a: Entry, b: Entry) {
    a.row < b.row || (a.row == b.row && a.col < b.col)
  }

  /** Entries are listed row by row and column by column, so no cell appears twice. */
  ghost predicate Increasing(es: seq<Entry>) {
    forall i, j | 0 <= i < j < |es| :: Before(es[i], es[j])
  }

  ghost predicate AllBefore(es: seq<Entry>, e: Entry) {
    forall i | 0 <= i < |es| :: Before(es[i], e)
  }

  ghost predicate InRange(p: Problem, es: seq<Entry>) {
    forall i | 0 <= i < |es| :: 1 <= es[i].row <= p.Rows() && 1 <= es[i].col <= p.Cols()
  }

  ghost predicate Tidy(p: Problem, es: seq<Entry>, next: Entry) {
    Increasing(es) && AllBefore(es, next) && InRange(p, es)
  }

  lemma TidyAppend(p: Problem, es: seq<Entry>, e: Entry, next: Entry)
    requires Tidy(p, es, e) && Before(e, next)
    requires 1 <= e.row <= p.Rows() && 1 <= e.col <= p.Cols()
    ensures Tidy(p, es + [e], next)
  {
  }

  lemma TidyWeaken(p: Problem, es: seq<Entry>, a: Entry, b: Entry)
    requires Tidy(p, es, a) && (Before(a, b) || (a.row, a.col) == (b.row, b.col))
    ensures Tidy(p, es, b)
  {
  }

  lemma TidyEmpty(p: Problem, next: Entry)
    ensures Tidy(p, [], next)
  {
  }

  lemma TidyPair(p: Problem, es: seq<Entry>, row: nat, col: nat, a: int, b: int, next: Entry)
    requires Tidy(p, es, Entry(row, col, 0)) && Before(Entry(row, col + 1, 0), next)
    requires 1 <= row <= p.Rows() && 1 <= col && col + 1 <= p.Cols()
    ensures Tidy(p, es + [Entry(row, col, a), Entry(row, col + 1, b)], next)
  {
    hide Tidy;
    TidyWeaken(p, es, Entry(row, col, 0), Entry(row, col, a));
    TidyAppend(p, es, Entry(row, col, a), Entry(row, col + 1, b));
    TidyAppend(p, es + [Entry(row, col, a)], Entry(row, col + 1, b), next);
    assert es + [Entry(row, col, a), Entry(row, col + 1, b)] == es + [Entry(row, col, a)] + [Entry(row, col + 1, b)];
  }

  lemma ColGrows(p: Problem, c: nat, t: nat)
    ensures p.Col(c + 1, t) == p.Col(c, t) + p.maxTtl + 2 && p.Col(c, t + 1) == p.Col(c, t) + 1
    ensures p.Col(c, t) >= 1
  {
    assert (c + 1) * (p.maxTtl + 2) == c * (p.maxTtl + 2) + (p.maxTtl + 2);
  }

  function StorageUpTo(p: Problem, t: nat, c: nat): seq<Entry> {
    StorageRows(p, t) + StorageRow(p, t, c)
  }

  lemma StorageUnfold(p: Problem, t: nat, c: nat)
    ensures c > 0 ==> StorageUpTo(p, t, c) == StorageUpTo(p, t, c - 1) + [Entry(1 + t, p.Col(c - 1, t), 1)]
    ensures t > 0 ==> StorageUpTo(p, t, 0) == StorageUpTo(p, t - 1, p.blocks)
    ensures StorageUpTo(p, 0, 0) == [] && StorageUpTo(p, t, 0) == StorageRows(p, t)
  {
  }

  lemma {:induction false} StorageTidy(p: Problem, t: nat, c: nat)
    requires t <= p.maxTtl + 1 && c <= p.blocks
    ensures Tidy(p, StorageUpTo(p, t, c), Entry(1 + t, p.Col(c, t), 0))
    decreases t, c
  {
    hide Tidy, StorageUpTo, StorageRows, StorageRow, Problem.Col;
    StorageUnfold(p, t, c);
    if c > 0 {
      StorageTidy(p, t, c - 1);
      ColInRange(p, c - 1, t);
      ColGrows(p, c - 1, t);
      var e := Entry(1 + t, p.Col(c - 1, t), 1);
      TidyWeaken(p, StorageUpTo(p, t, c - 1), Entry(1 + t, p.Col(c - 1, t), 0), e);
      TidyAppend(p, StorageUpTo(p, t, c - 1), e, Entry(1 + t, p.Col(c, t), 0));
    } else if t > 0 {
      StorageTidy(p, t - 1, p.blocks);
      TidyWeaken(p, StorageUpTo(p, t, c), Entry(t, p.Col(p.blocks, t - 1), 0), Entry(1 + t, p.Col(0, t), 0));
    } else {
      TidyEmpty(p, Entry(1, p.Col(0, 0), 0));
    }
  }

  function BandwidthUpTo(p: Problem, t: nat, c: nat): seq<Entry> {
    StorageRows(p, p.maxTtl + 2) + (BandwidthRows(p, t) + BandwidthRow(p, t, c))
  }

  lemma BandwidthUnfold(p: Problem, t: nat, c: nat)
    ensures c > 0 ==>
      var row := p.maxTtl + 3 + t;
      BandwidthUpTo(p, t, c) == BandwidthUpTo(p, t, c - 1) + [Entry(row, p.Col(c - 1, t), 1), Entry(row, p.Col(c - 1, t) + 1, -1)]
    ensures t > 0 ==> BandwidthUpTo(p, t, 0) == BandwidthUpTo(p, t - 1, p.blocks)
    ensures BandwidthUpTo(p, 0, 0) == StorageUpTo(p, p.maxTtl + 1, p.blocks)
  {
    hide Problem.Col;
    if c > 0 {
      var row := p.maxTtl + 3 + t;
      assert BandwidthRow(p, t, c) == BandwidthRow(p, t, c - 1) + [Entry(row, p.Col(c - 1, t), 1), Entry(row, p.Col(c - 1, t) + 1, -1)];
    }
  }

  lemma {:induction false} BandwidthTidy(p: Problem, t: nat, c: nat)
    requires t <= p.maxTtl && c <= p.blocks
    ensures Tidy(p, BandwidthUpTo(p, t, c), Entry(p.maxTtl + 3 + t, p.Col(c, t), 0))
    decreases t, c
  {
    hide Tidy, BandwidthUpTo, BandwidthRows, BandwidthRow, StorageUpTo, Problem.Col;
    var row := p.maxTtl + 3 + t;
    BandwidthUnfold(p, t, c);
    if c > 0 {
      BandwidthTidy(p, t, c - 1);
      ColInRange(p, c - 1, t);
      ColInRange(p, c - 1, t + 1);
      ColGrows(p, c - 1, t);
      TidyPair(p, BandwidthUpTo(p, t, c - 1), row, p.Col(c - 1, t), 1, -1, Entry(row, p.Col(c, t), 0));
    } else if t > 0 {
      BandwidthTidy(p, t - 1, p.blocks);
      TidyWeaken(p, BandwidthUpTo(p, t, c), Entry(row - 1, p.Col(p.blocks, t - 1), 0), Entry(row, p.Col(0, t), 0));
    } else {
      StorageTidy(p, p.maxTtl + 1, p.blocks);
      TidyWeaken(p, BandwidthUpTo(p, 0, 0), Entry(p.maxTtl + 2, p.Col(p.blocks, p.maxTtl + 1), 0), Entry(row, p.Col(0, 0), 0));
    }
  }

  function OrderUpTo(p: Problem, c: nat, t: nat): seq<Entry> {
    StorageRows(p, p.maxTtl + 2) + BandwidthRows(p, p.maxTtl + 1) + (OrderRows(p, c) + OrderRow(p, c, t))
  }

  lemma OrderUnfoldTime(p: Problem, c: nat, t: nat)
    requires t > 0
    ensures
      var row := OrderIndex(p, c, t - 1);
      OrderUpTo(p, c, t) == OrderUpTo(p, c, t - 1) + [Entry(row, p.Col(c, t - 1), -1), Entry(row, p.Col(c, t - 1) + 1, 1)]
  {
    hide Problem.Col, OrderIndex, StorageRows, BandwidthRows, OrderRows;
    var row := OrderIndex(p, c, t - 1);
    var es := [Entry(row, p.Col(c, t - 1), -1), Entry(row, p.Col(c, t - 1) + 1, 1)];
    assert OrderRow(p, c, t) == OrderRow(p, c, t - 1) + es;
    Associate(OrderRows(p, c), OrderRow(p, c, t - 1), es);
    Associate(StorageRows(p, p.maxTtl + 2) + BandwidthRows(p, p.maxTtl + 1), OrderRows(p, c) + OrderRow(p, c, t - 1), es);
  }

  lemma Associate(a: seq<Entry>, b: seq<Entry>, c: seq<Entry>)
    ensures a + (b + c) == (a + b) + c
  {
  }

  lemma OrderUnfoldBlock(p: Problem, c: nat)
    ensures c > 0 ==> OrderUpTo(p, c, 0) == OrderUpTo(p, c - 1, p.maxTtl + 1)
    ensures Matrix(p) == OrderUpTo(p, p.blocks, 0)
  {
    hide StorageRows, BandwidthRows;
    assert OrderRow(p, c, 0) == [] && OrderRow(p, p.blocks, 0) == [];
    assert OrderRows(p, c) + [] == OrderRows(p, c) && OrderRows(p, p.blocks) + [] == OrderRows(p, p.blocks);
  }

  lemma OrderUnfoldFirst(p: Problem)
    ensures OrderUpTo(p, 0, 0) == BandwidthUpTo(p, p.maxTtl, p.blocks)
  {
    hide StorageRows, BandwidthRow;
    var head := StorageRows(p, p.maxTtl + 2) + BandwidthRows(p, p.maxTtl + 1);
    assert OrderRows(p, 0) + OrderRow(p, 0, 0) == [];
    assert head + [] == head;
    assert BandwidthRows(p, p.maxTtl + 1) == BandwidthRows(p, p.maxTtl) + BandwidthRow(p, p.maxTtl, p.blocks);
  }

  lemma OrderIndexNext(p: Problem, c: nat, t: nat)
    ensures OrderIndex(p, c, t + 1) == OrderIndex(p, c, t) + 1
    ensures OrderIndex(p, c + 1, 0) == OrderIndex(p, c, p.maxTtl + 1)
    ensures OrderIndex(p, 0, 0) == 2 * p.maxTtl + 4
  {
    OrderIndexGrows(p, c);
  }

  lemma {:induction false} OrderTidy(p: Problem, c: nat, t: nat)
    requires c < p.blocks && t <= p.maxTtl + 1
    ensures Tidy(p, OrderUpTo(p, c, t), Entry(OrderIndex(p, c, t), 1, 0))
    decreases c, t
  {
    hide Tidy, OrderUpTo, BandwidthUpTo, Matrix, OrderIndex, Problem.Col, Upper;
    if t > 0 {
      OrderUnfoldTime(p, c, t);
      OrderTidy(p, c, t - 1);
      ColInRange(p, c, t - 1);
      ColInRange(p, c, t);
      ColGrows(p, c, t - 1);
      OrderIndexInRange(p, c, t - 1);
      OrderIndexNext(p, c, t - 1);
      RowsOfUpper(p);
      var row := OrderIndex(p, c, t - 1);
      TidyWeaken(p, OrderUpTo(p, c, t - 1), Entry(row, 1, 0), Entry(row, p.Col(c, t - 1), 0));
      TidyPair(p, OrderUpTo(p, c, t - 1), row, p.Col(c, t - 1), -1, 1, Entry(row + 1, 1, 0));
    } else if c > 0 {
      OrderUnfoldBlock(p, c);
      OrderTidy(p, c - 1, p.maxTtl + 1);
      OrderIndexNext(p, c - 1, 0);
    } else {
      OrderUnfoldFirst(p);
      BandwidthTidy(p, p.maxTtl, p.blocks);
      OrderIndexNext(p, 0, 0);
      TidyWeaken(p, OrderUpTo(p, 0, 0), Entry(2 * p.maxTtl + 3, p.Col(p.blocks, p.maxTtl), 0), Entry(OrderIndex(p, 0, 0), 1, 0));
    }
  }

  /** Every index of the matrix is in range and no cell is given twice. */
  lemma MatrixWellFormed(p: Problem)
    ensures InRange(p, Matrix(p)) && Increasing(Matrix(p))
    ensures forall i, j | 0 <= i < j < |Matrix(p)| ::
      (Matrix(p)[i].row, Matrix(p)[i].col) != (Matrix(p)[j].row, Matrix(p)[j].col)
  {
    hide OrderUpTo, BandwidthUpTo, Matrix;
    OrderUnfoldBlock(p, p.blocks);
    OrderUnfoldFirst(p);
    if p.blocks > 0 {
      OrderTidy(p, p.blocks - 1, p.maxTtl + 1);
    } else {
      BandwidthTidy(p, p.maxTtl, p.blocks);
    }
    forall i, j | 0 <= i < j < |Matrix(p)|
      ensures (Matrix(p)[i].row, Matrix(p)[i].col) != (Matrix(p)[j].row, Matrix(p)[j].col)
    {
      assert Before(Matrix(p)[i], Matrix(p)[j]);
    }
  }
}
