/** The loops of `LPSolver::solve`: the program handed to the solver and the decoding of
    its answer. Loops of the source that fill one part of the program are one method each. */
module LpSolver {
  import opened LpMeaning
  import opened LpObjective

  function Zip(ia: seq<nat>, ja: seq<nat>, arr: seq<int>): (es: seq<Entry>)
    requires |ia| == |ja| == |arr|
    ensures |es| == |ia|
  {
    Mip([], [], ia, ja, arr).Entries()
  }

  lemma ZipPush(ia: seq<nat>, ja: seq<nat>, arr: seq<int>, e: Entry)
    requires |ia| == |ja| == |arr|
    ensures Zip(ia + [e.row], ja + [e.col], arr + [e.coef]) == Zip(ia, ja, arr) + [e]
  {
  }

  lemma ZipPushTwo(ia: seq<nat>, ja: seq<nat>, arr: seq<int>, e: Entry, f: Entry)
    requires |ia| == |ja| == |arr|
    ensures Zip(ia + [e.row] + [f.row], ja + [e.col] + [f.col], arr + [e.coef] + [f.coef]) == Zip(ia, ja, arr) + [e, f]
  {
  }

  lemma Onward(base: seq<Entry>, a: seq<Entry>, b: seq<Entry>)
    ensures base + (a + b) == base + a + b && base + [] == base
  {
  }

  /** The bounds of the rows, in the order of `row_index`. */
  method RowBounds(p: Problem) returns (upper: seq<int>)
    ensures upper == Upper(p)
  {
    upper := [];
    var i := 0;
    while i <= p.maxTtl + 1
      invariant 0 <= i <= p.maxTtl + 2
      invariant upper == seq(i, _ => p.storage)
    {
      upper := upper + [p.storage];
      i := i + 1;
    }
    i := 0;
    while i <= p.maxTtl
      invariant 0 <= i <= p.maxTtl + 1
      invariant upper == seq(p.maxTtl + 2, _ => p.storage) + seq(i, _ => p.bandwidth)
    {
      upper := upper + [p.bandwidth];
      i := i + 1;
    }
    upper := OrderBounds(p, upper);
  }

  method OrderBounds(p: Problem, before: seq<int>) returns (upper: seq<int>)
    ensures upper == before + seq(p.blocks * (p.maxTtl + 1), _ => 0)
  {
    upper := before;
    var i := 0;
    while i < p.blocks
      invariant 0 <= i <= p.blocks
      invariant upper == before + seq(i * (p.maxTtl + 1), _ => 0)
    {
      var j := 0;
      while j <= p.maxTtl
        invariant 0 <= j <= p.maxTtl + 1
        invariant upper == before + seq(i * (p.maxTtl + 1) + j, _ => 0)
      {
        upper := upper + [0];
        j := j + 1;
      }
      assert (i + 1) * (p.maxTtl + 1) == i * (p.maxTtl + 1) + (p.maxTtl + 1);
      i := i + 1;
    }
  }

  /** One coefficient of the objective. */
  method ColumnUtility(p: Problem, c: nat, t: nat) returns (coef: real)
    requires p.Shaped() && c < p.blocks
    ensures coef == Coef(p, c, t)
  {
    var total := 0.0;
    var k := 0;
    if t == 0 {
      while k < p.neighbors
        invariant 0 <= k <= p.neighbors
        invariant total == TotalUtility(p, k, c, 0)
      {
        total := total + p.utility[k][c];
        k := k + 1;
      }
      coef := total;
    } else {
      while k < p.neighbors
        invariant 0 <= k <= p.neighbors
        invariant total == TotalUtility(p, k, c, t)
      {
        if p.ttl[k][c] == -1 {
        } else if p.ttl[k][c] + 1 == t {
          total := total + p.utility[k][c];
        }
        k := k + 1;
      }
      coef := (-1.0) * total;
    }
  }

  /** The column loops: variable x[c][t] gets the next index. */
  method ColumnObjective(p: Problem) returns (objective: seq<real>)
    requires p.Shaped()
    ensures IsObjective(p, objective)
  {
    hide Coef;
    objective := [];
    var c := 0;
    while c < p.blocks
      invariant 0 <= c <= p.blocks
      invariant |objective| == c * (p.maxTtl + 2)
      invariant Filled(p, objective, c, 0)
    {
      var t := 0;
      while t <= p.maxTtl + 1
        invariant 0 <= t <= p.maxTtl + 2
        invariant |objective| == c * (p.maxTtl + 2) + t
        invariant Filled(p, objective, c, t)
      {
        var coef := ColumnUtility(p, c, t);
        FillOne(p, objective, c, t, coef);
        objective := objective + [coef];
        t := t + 1;
      }
      NextBlock(p, objective, c);
      c := c + 1;
    }
    AllFilled(p, objective);
  }

  /** The columns before that of block `c` at time `t` have their coefficients. */
  ghost predicate Filled(p: Problem, objective: seq<real>, c: nat, t: nat)
    requires p.Shaped()
  {
    forall d: nat, s: nat | d < p.blocks && s <= p.maxTtl + 1 && (d < c || (d == c && s < t)) ::
      p.Col(d, s) <= |objective| && objective[p.Col(d, s) - 1] == Coef(p, d, s)
  }

  lemma FillOne(p: Problem, objective: seq<real>, c: nat, t: nat, coef: real)
    requires p.Shaped() && Filled(p, objective, c, t) && c < p.blocks && t <= p.maxTtl + 1
    requires |objective| == c * (p.maxTtl + 2) + t && coef == Coef(p, c, t)
    ensures Filled(p, objective + [coef], c, t + 1)
  {
    hide Coef;
    forall d: nat, s: nat | d < p.blocks && s <= p.maxTtl + 1 && (d < c || (d == c && s < t + 1))
      ensures p.Col(d, s) <= |objective| + 1 && (objective + [coef])[p.Col(d, s) - 1] == Coef(p, d, s)
    {
      if d < c || s < t {
        assert p.Col(d, s) <= |objective| && objective[p.Col(d, s) - 1] == Coef(p, d, s);
      } else {
        assert d == c && s == t;
      }
    }
  }

  lemma NextBlock(p: Problem, objective: seq<real>, c: nat)
    requires p.Shaped() && Filled(p, objective, c, p.maxTtl + 2)
    requires |objective| == c * (p.maxTtl + 2) + (p.maxTtl + 2)
    ensures Filled(p, objective, c + 1, 0) && |objective| == (c + 1) * (p.maxTtl + 2)
  {
    hide Coef, Problem.Col;
  }

  lemma AllFilled(p: Problem, objective: seq<real>)
    requires p.Shaped() && Filled(p, objective, p.blocks, 0) && |objective| == p.blocks * (p.maxTtl + 2)
    ensures IsObjective(p, objective)
  {
    hide Coef, Problem.Col;
  }

  method StorageMatrix(p: Problem) returns (ia: seq<nat>, ja: seq<nat>, arr: seq<int>)
    ensures |ia| == |ja| == |arr| && Zip(ia, ja, arr) == StorageRows(p, p.maxTtl + 2)
  {
    hide Zip, Problem.Col;
    ia, ja, arr := [], [], [];
    NothingZipped();
    var t := 0;
    while t <= p.maxTtl + 1
      invariant 0 <= t <= p.maxTtl + 2 && |ia| == |ja| == |arr|
      invariant Zip(ia, ja, arr) == StorageRows(p, t)
    {
      var c := 0;
      while c < p.blocks
        invariant 0 <= c <= p.blocks && |ia| == |ja| == |arr|
        invariant Zip(ia, ja, arr) == StorageRows(p, t) + StorageRow(p, t, c)
      {
        var e := Entry(1 + t, 1 + c * (p.maxTtl + 2) + t, 1);
        ColIs(p, c, t);
        ZipPush(ia, ja, arr, e);
        Onward(StorageRows(p, t), StorageRow(p, t, c), [e]);
        ia := ia + [1 + t];
        ja := ja + [1 + c * (p.maxTtl + 2) + t];
        arr := arr + [1];
        c := c + 1;
      }
      t := t + 1;
    }
  }

  lemma ColIs(p: Problem, c: nat, t: nat)
    ensures p.Col(c, t) == 1 + c * (p.maxTtl + 2) + t
  {
  }

  lemma NothingZipped()
    ensures Zip([], [], []) == []
  {
  }

  method BandwidthMatrix(p: Problem, ia0: seq<nat>, ja0: seq<nat>, arr0: seq<int>)
    returns (ia: seq<nat>, ja: seq<nat>, arr: seq<int>)
    requires |ia0| == |ja0| == |arr0|
    ensures |ia| == |ja| == |arr| && Zip(ia, ja, arr) == Zip(ia0, ja0, arr0) + BandwidthRows(p, p.maxTtl + 1)
  {
    hide Zip, Problem.Col;
    ia, ja, arr := ia0, ja0, arr0;
    ghost var base := Zip(ia0, ja0, arr0);
    Onward(base, [], []);
    var t := 0;
    while t <= p.maxTtl
      invariant 0 <= t <= p.maxTtl + 1 && |ia| == |ja| == |arr|
      invariant Zip(ia, ja, arr) == base + BandwidthRows(p, t)
    {
      var c := 0;
      while c < p.blocks
        invariant 0 <= c <= p.blocks && |ia| == |ja| == |arr|
        invariant Zip(ia, ja, arr) == base + BandwidthRows(p, t) + BandwidthRow(p, t, c)
      {
        ghost var e := Entry(p.maxTtl + 3 + t, 1 + c * (p.maxTtl + 2) + t, 1);
        ghost var f := Entry(p.maxTtl + 3 + t, 1 + c * (p.maxTtl + 2) + t + 1, -1);
        ColIs(p, c, t);
        ZipPushTwo(ia, ja, arr, e, f);
        Onward(base + BandwidthRows(p, t), BandwidthRow(p, t, c), [e, f]);
        ia := ia + [p.maxTtl + 3 + t];
        ia := ia + [p.maxTtl + 3 + t];
        ja := ja + [1 + c * (p.maxTtl + 2) + t];
        ja := ja + [1 + c * (p.maxTtl + 2) + t + 1];
        arr := arr + [1];
        arr := arr + [-1];
        c := c + 1;
      }
      Onward(base, BandwidthRows(p, t), BandwidthRow(p, t, p.blocks));
      t := t + 1;
    }
  }

  lemma OrderStep(p: Problem, base: seq<Entry>, ia: seq<nat>, ja: seq<nat>, arr: seq<int>, c: nat, t: nat, row: nat, col: nat)
    requires |ia| == |ja| == |arr| && row == OrderIndex(p, c, t) && col == p.Col(c, t)
    requires Zip(ia, ja, arr) == base + OrderRows(p, c) + OrderRow(p, c, t)
    ensures Zip(ia + [row] + [row], ja + [col] + [col + 1], arr + [-1] + [1]) == base + OrderRows(p, c) + OrderRow(p, c, t + 1)
  {
    var e, f := Entry(row, col, -1), Entry(row, col + 1, 1);
    assert OrderRow(p, c, t + 1) == OrderRow(p, c, t) + [e, f];
    hide Zip, OrderRow, OrderRows, OrderIndex, Problem.Col;
    ZipPushTwo(ia, ja, arr, e, f);
    Onward(base + OrderRows(p, c), OrderRow(p, c, t), [e, f]);
  }

  method OrderMatrix(p: Problem, ia0: seq<nat>, ja0: seq<nat>, arr0: seq<int>)
    returns (ia: seq<nat>, ja: seq<nat>, arr: seq<int>)
    requires |ia0| == |ja0| == |arr0|
    ensures |ia| == |ja| == |arr| && Zip(ia, ja, arr) == Zip(ia0, ja0, arr0) + OrderRows(p, p.blocks)
  {
    hide Zip, Problem.Col, OrderIndex;
    ia, ja, arr := ia0, ja0, arr0;
    ghost var base := Zip(ia0, ja0, arr0);
    Onward(base, [], []);
    var c := 0;
    while c < p.blocks
      invariant 0 <= c <= p.blocks && |ia| == |ja| == |arr|
      invariant Zip(ia, ja, arr) == base + OrderRows(p, c)
    {
      var t := 0;
      while t <= p.maxTtl
        invariant 0 <= t <= p.maxTtl + 1 && |ia| == |ja| == |arr|
        invariant Zip(ia, ja, arr) == base + OrderRows(p, c) + OrderRow(p, c, t)
      {
        var row: nat := 2 * p.maxTtl + 4 + c * (p.maxTtl + 1) + t;
        var col: nat := 1 + c * (p.maxTtl + 2) + t;
        ColIs(p, c, t);
        OrderIndexIs(p, c, t);
        OrderStep(p, base, ia, ja, arr, c, t, row, col);
        ia := ia + [row];
        ia := ia + [row];
        ja := ja + [col];
        ja := ja + [col + 1];
        arr := arr + [-1];
        arr := arr + [1];
        t := t + 1;
      }
      Onward(base, OrderRows(p, c), OrderRow(p, c, p.maxTtl + 1));
      c := c + 1;
    }
  }

  lemma OrderIndexIs(p: Problem, c: nat, t: nat)
    ensures OrderIndex(p, c, t) == 2 * p.maxTtl + 4 + c * (p.maxTtl + 1) + t
  {
  }

  /** Everything that is handed to the solver. */
  method Compile(p: Problem) returns (mip: Mip)
    requires p.Shaped()
    ensures mip.rowUpper == Upper(p) && IsObjective(p, mip.objective)
    ensures |mip.ia| == |mip.ja| == |mip.arr| && mip.Entries() == Matrix(p)
  {
    hide Upper, IsObjective, Zip, StorageRows, BandwidthRows, OrderRows;
    var upper := RowBounds(p);
    var objective := ColumnObjective(p);
    var ia, ja, arr := StorageMatrix(p);
    ia, ja, arr := BandwidthMatrix(p, ia, ja, arr);
    ia, ja, arr := OrderMatrix(p, ia, ja, arr);
    mip := Mip(upper, objective, ia, ja, arr);
    ZipIsEntries(mip);
  }

  lemma ZipIsEntries(mip: Mip)
    requires |mip.ia| == |mip.ja| == |mip.arr|
    ensures mip.Entries() == Zip(mip.ia, mip.ja, mip.arr)
  {
  }

  /** An answer of the oracle: 0/1 columns that meet every row of the given program. */
  ghost predicate Feasible(mip: Mip, x: seq<int>)
    requires |mip.ia| == |mip.ja| == |mip.arr|
  {
    && |x| == |mip.objective|
    && (forall i | 0 <= i < |x| :: x[i] == 0 || x[i] == 1)
    && MeetsRows(mip.Entries(), mip.rowUpper, x)
  }

  /** The compiled program means the scheduling problem: its answers are exactly the 0/1
      vectors whose schedules keep within room and bandwidth and bring no block back, and
      the solver's objective is the utility of the pairs served. */
  lemma CompiledMeansProblem(p: Problem, mip: Mip, x: seq<int>)
    requires p.Shaped() && |mip.ia| == |mip.ja| == |mip.arr|
    requires mip.rowUpper == Upper(p) && IsObjective(p, mip.objective) && mip.Entries() == Matrix(p)
    ensures Feasible(mip, x) <==> Binary(p, x) && GoodSchedule(p, x)
    ensures Feasible(mip, x) ==> Value(mip.objective, x, p.Cols()) == Earned(p, x, p.blocks)
  {
    hide Upper, Matrix, MeetsRows, GoodSchedule, Value, Earned, IsObjective;
    ObjectiveLength(p, mip.objective);
    if |x| == p.Cols() {
      RowsMeanSchedule(p, x);
    }
    if Feasible(mip, x) {
      ObjectiveIsEarned(p, mip.objective, x);
    }
  }

  /** The decoding loop fills the caller's table. */
  method Decode(p: Problem, result: seq<int>, sched: array2<int>)
    requires |result| == p.Cols() && sched.Length0 == p.blocks && sched.Length1 == p.maxTtl + 2
    modifies sched
    ensures forall c: nat, t: nat | c < p.blocks && t <= p.maxTtl + 1 :: sched[c, t] == At(p, result, c, t)
  {
    hide At;
    var it := 0;
    while it < p.Cols()
      invariant 0 <= it <= p.Cols()
      invariant forall c: nat, t: nat | c < p.blocks && t <= p.maxTtl + 1 && p.Col(c, t) <= it :: sched[c, t] == At(p, result, c, t)
    {
      var c, t := it / (p.maxTtl + 2), it % (p.maxTtl + 2);
      EncodeCol(p, it);
      sched[c, t] := result[it];
      DecodedAt(p, result, c, t, it);
      forall d: nat, s: nat | d < p.blocks && s <= p.maxTtl + 1 && p.Col(d, s) == it + 1
        ensures d == c && s == t
      {
        DecodeCol(p, d, s);
      }
      it := it + 1;
    }
    forall c: nat, t: nat | c < p.blocks && t <= p.maxTtl + 1
      ensures p.Col(c, t) <= p.Cols()
    {
      ColInRange(p, c, t);
    }
  }

  lemma DecodedAt(p: Problem, result: seq<int>, c: nat, t: nat, it: nat)
    requires |result| == p.Cols() && c < p.blocks && t <= p.maxTtl + 1 && p.Col(c, t) == it + 1 <= p.Cols()
    ensures At(p, result, c, t) == result[it]
  {
  }
}
