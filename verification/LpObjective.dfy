/** The objective that lpsolver.hpp generates, and what it is worth on a good schedule. */
module LpObjective {
  import opened LpMeaning

  function Scale(a: real, v: int): real { a * (v as real) }

  lemma ScaleSum(a: real, b: real, v: int)
    ensures Scale(a + b, v) == Scale(a, v) + Scale(b, v)
  {
  }

  lemma ScaleBit(a: real, v: int)
    requires v == 0 || v == 1
    ensures Scale(a, v) == if v == 1 then a else 0.0
  {
  }

  /** Does the loop over neighbours add utility[k][c] for the variable at time `t`? */
  predicate Matches(p: Problem, k: nat, c: nat, t: nat)
    requires p.Shaped() && k < p.neighbors && c < p.blocks
  {
    t == 0 || (p.ttl[k][c] != -1 && p.ttl[k][c] + 1 == t)
  }

  function TotalUtility(p: Problem, n: nat, c: nat, t: nat): real
    requires p.Shaped() && n <= p.neighbors && c < p.blocks
  {
    if n == 0 then 0.0
    else TotalUtility(p, n - 1, c, t) + if Matches(p, n - 1, c, t) then p.utility[n - 1][c] else 0.0
  }

  /** The generated coefficient of block `c` at time `t`. */
  function Coef(p: Problem, c: nat, t: nat): real
    requires p.Shaped() && c < p.blocks
  {
    if t == 0 then TotalUtility(p, p.neighbors, c, 0) else (-1.0) * TotalUtility(p, p.neighbors, c, t)
  }

  /** The objective over the first `n` columns. */
  function Value(objective: seq<real>, x: seq<int>, n: nat): real
    requires n <= |objective| == |x|
  {
    if n == 0 then 0.0 else Value(objective, x, n - 1) + Scale(objective[n - 1], x[n - 1])
  }

  ghost predicate IsObjective(p: Problem, objective: seq<real>)
    requires p.Shaped()
  {
    && |objective| == p.Cols()
    && forall c: nat, t: nat | c < p.blocks && t <= p.maxTtl + 1 ::
      p.Col(c, t) <= p.Cols() && objective[p.Col(c, t) - 1] == Coef(p, c, t)
  }

  // ---- What a schedule earns

  /** Neighbour `k` is served block `c`: it is cached at the start and, if the neighbour's
      deadline lies within the horizon, dropped no later than the deadline. */
  ghost predicate Served(p: Problem, x: seq<int>, k: nat, c: nat)
    requires p.Shaped() && |x| == p.Cols() && k < p.neighbors && c < p.blocks
  {
    && At(p, x, c, 0) == 1
    && (0 <= p.ttl[k][c] <= p.maxTtl ==> At(p, x, c, p.ttl[k][c] + 1) == 0)
  }

  ghost function EarnedFor(p: Problem, x: seq<int>, c: nat, n: nat): real
    requires p.Shaped() && |x| == p.Cols() && c < p.blocks && n <= p.neighbors
  {
    if n == 0 then 0.0
    else EarnedFor(p, x, c, n - 1) + if Served(p, x, n - 1, c) then p.utility[n - 1][c] else 0.0
  }

  ghost function Earned(p: Problem, x: seq<int>, n: nat): real
    requires p.Shaped() && |x| == p.Cols() && n <= p.blocks
  {
    if n == 0 then 0.0 else Earned(p, x, n - 1) + EarnedFor(p, x, n - 1, p.neighbors)
  }

  // ---- The objective of one pair, one block, all blocks

  function Share(p: Problem, k: nat, c: nat, t: nat): real
    requires p.Shaped() && k < p.neighbors && c < p.blocks
  {
    if !Matches(p, k, c, t) then 0.0 else if t == 0 then p.utility[k][c] else -p.utility[k][c]
  }

  function ShareSum(p: Problem, n: nat, c: nat, t: nat): real
    requires p.Shaped() && n <= p.neighbors && c < p.blocks
  {
    if n == 0 then 0.0 else ShareSum(p, n - 1, c, t) + Share(p, n - 1, c, t)
  }

  lemma {:induction false} CoefIsShareSum(p: Problem, n: nat, c: nat, t: nat)
    requires p.Shaped() && n <= p.neighbors && c < p.blocks
    ensures ShareSum(p, n, c, t) == if t == 0 then TotalUtility(p, n, c, t) else -TotalUtility(p, n, c, t)
  {
    if n > 0 {
      CoefIsShareSum(p, n - 1, c, t);
    }
  }

  /** Neighbour `k`'s part of block `c` over the first `n` times. */
  function PairValue(p: Problem, x: seq<int>, k: nat, c: nat, n: nat): real
    requires p.Shaped() && |x| == p.Cols() && k < p.neighbors && c < p.blocks && n <= p.maxTtl + 2
  {
    if n == 0 then 0.0 else PairValue(p, x, k, c, n - 1) + Scale(Share(p, k, c, n - 1), At(p, x, c, n - 1))
  }

  lemma {:induction false} PairValueIs(p: Problem, x: seq<int>, k: nat, c: nat, n: nat)
    requires p.Shaped() && Binary(p, x) && k < p.neighbors && c < p.blocks && n <= p.maxTtl + 2
    ensures PairValue(p, x, k, c, n) ==
      (if n > 0 && At(p, x, c, 0) == 1 then p.utility[k][c] else 0.0) -
      (if 0 <= p.ttl[k][c] < n - 1 && At(p, x, c, p.ttl[k][c] + 1) == 1 then p.utility[k][c] else 0.0)
  {
    hide Scale, At, Binary;
    if n > 0 {
      PairValueIs(p, x, k, c, n - 1);
      BitAt(p, x, c, n - 1);
      ScaleBit(Share(p, k, c, n - 1), At(p, x, c, n - 1));
    }
  }

  lemma BitAt(p: Problem, x: seq<int>, c: nat, t: nat)
    requires Binary(p, x) && c < p.blocks && t <= p.maxTtl + 1
    ensures |x| == p.Cols() && (At(p, x, c, t) == 0 || At(p, x, c, t) == 1)
  {
    BinaryAt(p, x, c, t);
  }

  /** Over a schedule in which no block comes back a pair is worth its utility if served. */
  lemma PairEarns(p: Problem, x: seq<int>, k: nat, c: nat)
    requires p.Shaped() && Binary(p, x) && GoodSchedule(p, x) && k < p.neighbors && c < p.blocks
    ensures PairValue(p, x, k, c, p.maxTtl + 2) == if Served(p, x, k, c) then p.utility[k][c] else 0.0
  {
    hide At, PairValue;
    PairValueIs(p, x, k, c, p.maxTtl + 2);
    if 0 <= p.ttl[k][c] <= p.maxTtl {
      NeverReturns(p, x, c, p.ttl[k][c] + 1);
      BitAt(p, x, c, p.ttl[k][c] + 1);
      BitAt(p, x, c, 0);
    }
  }

  lemma {:induction false} NeverReturns(p: Problem, x: seq<int>, c: nat, t: nat)
    requires |x| == p.Cols() && GoodSchedule(p, x) && c < p.blocks && t <= p.maxTtl + 1
    ensures At(p, x, c, t) <= At(p, x, c, 0)
  {
    hide At;
    if t > 0 {
      NeverReturns(p, x, c, t - 1);
      NoReturn(p, x, c, t - 1);
    }
  }

  function PairSum(p: Problem, x: seq<int>, c: nat, n: nat, k: nat): real
    requires p.Shaped() && |x| == p.Cols() && k <= p.neighbors && c < p.blocks && n <= p.maxTtl + 2
  {
    if k == 0 then 0.0 else PairSum(p, x, c, n, k - 1) + PairValue(p, x, k - 1, c, n)
  }

  lemma {:induction false} PairSumStep(p: Problem, x: seq<int>, c: nat, n: nat, k: nat)
    requires p.Shaped() && |x| == p.Cols() && k <= p.neighbors && c < p.blocks && 0 < n <= p.maxTtl + 2
    ensures PairSum(p, x, c, n, k) == PairSum(p, x, c, n - 1, k) + Scale(ShareSum(p, k, c, n - 1), At(p, x, c, n - 1))
  {
    hide Scale, At, Share;
    if k > 0 {
      PairSumStep(p, x, c, n, k - 1);
      ScaleSum(ShareSum(p, k - 1, c, n - 1), Share(p, k - 1, c, n - 1), At(p, x, c, n - 1));
    } else {
      ScaleNothing(At(p, x, c, n - 1));
    }
  }

  lemma ScaleNothing(v: int)
    ensures Scale(0.0, v) == 0.0
  {
  }

  function BlockValue(p: Problem, x: seq<int>, c: nat, n: nat): real
    requires p.Shaped() && |x| == p.Cols() && c < p.blocks && n <= p.maxTtl + 2
  {
    if n == 0 then 0.0 else BlockValue(p, x, c, n - 1) + Scale(Coef(p, c, n - 1), At(p, x, c, n - 1))
  }

  /** Summing over times and then neighbours is summing over neighbours and then times. */
  lemma {:induction false} BlockValueIsPairSum(p: Problem, x: seq<int>, c: nat, n: nat)
    requires p.Shaped() && |x| == p.Cols() && c < p.blocks && n <= p.maxTtl + 2
    ensures BlockValue(p, x, c, n) == PairSum(p, x, c, n, p.neighbors)
  {
    hide Scale, At;
    if n > 0 {
      BlockValueIsPairSum(p, x, c, n - 1);
      PairSumStep(p, x, c, n, p.neighbors);
      CoefIsShareSum(p, p.neighbors, c, n - 1);
    } else {
      EmptyPairSum(p, x, c, p.neighbors);
    }
  }

  lemma {:induction false} EmptyPairSum(p: Problem, x: seq<int>, c: nat, k: nat)
    requires p.Shaped() && |x| == p.Cols() && k <= p.neighbors && c < p.blocks
    ensures PairSum(p, x, c, 0, k) == 0.0
  {
    if k > 0 {
      EmptyPairSum(p, x, c, k - 1);
    }
  }

  lemma {:induction false} PairSumEarns(p: Problem, x: seq<int>, c: nat, k: nat)
    requires p.Shaped() && Binary(p, x) && GoodSchedule(p, x) && k <= p.neighbors && c < p.blocks
    ensures PairSum(p, x, c, p.maxTtl + 2, k) == EarnedFor(p, x, c, k)
  {
    hide Served, PairValue, GoodSchedule;
    if k > 0 {
      PairSumEarns(p, x, c, k - 1);
      PairEarns(p, x, k - 1, c);
    }
  }

  lemma {:induction false} ValueOfBlock(p: Problem, objective: seq<real>, x: seq<int>, c: nat, n: nat)
    requires p.Shaped() && IsObjective(p, objective) && |x| == p.Cols() && c < p.blocks && n <= p.maxTtl + 2
    requires p.Col(c, n) - 1 <= p.Cols() && p.Col(c, 0) - 1 <= p.Cols()
    ensures Value(objective, x, p.Col(c, n) - 1) == Value(objective, x, p.Col(c, 0) - 1) + BlockValue(p, x, c, n)
  {
    hide Scale, Coef, Problem.Col;
    if n > 0 {
      ColGrows(p, c, n - 1);
      ColGrows(p, c, 0);
      ColInRange(p, c, n - 1);
      ValueOfBlock(p, objective, x, c, n - 1);
    }
  }

  lemma {:induction false} ValueOfBlocks(p: Problem, objective: seq<real>, x: seq<int>, n: nat)
    requires p.Shaped() && IsObjective(p, objective) && Binary(p, x) && GoodSchedule(p, x) && n <= p.blocks
    requires p.Col(n, 0) - 1 <= p.Cols()
    ensures Value(objective, x, p.Col(n, 0) - 1) == Earned(p, x, n)
  {
    hide Value, BlockValue, PairSum, EarnedFor, IsObjective, GoodSchedule;
    if n > 0 {
      ColInRange(p, n - 1, 0);
      ColGrows(p, n - 1, 0);
      ValueOfBlocks(p, objective, x, n - 1);
      ValueOfBlock(p, objective, x, n - 1, p.maxTtl + 2);
      BlockValueIsPairSum(p, x, n - 1, p.maxTtl + 2);
      PairSumEarns(p, x, n - 1, p.neighbors);
    } else {
      ObjectiveLength(p, objective);
      NothingValued(objective, x);
    }
  }

  lemma NothingValued(objective: seq<real>, x: seq<int>)
    requires |objective| == |x|
    ensures Value(objective, x, 0) == 0.0
  {
  }

  /** For every feasible point the generated objective is the utility of the pairs served. */
  lemma ObjectiveIsEarned(p: Problem, objective: seq<real>, x: seq<int>)
    requires p.Shaped() && IsObjective(p, objective) && Binary(p, x)
    requires MeetsRows(Matrix(p), Upper(p), x)
    ensures Value(objective, x, p.Cols()) == Earned(p, x, p.blocks)
  {
    hide MeetsRows, Matrix, Upper, Value, Earned, IsObjective, GoodSchedule;
    RowsMeanSchedule(p, x);
    LastCol(p);
    ObjectiveLength(p, objective);
    ValueOfBlocks(p, objective, x, p.blocks);
  }

  lemma ObjectiveLength(p: Problem, objective: seq<real>)
    requires p.Shaped() && IsObjective(p, objective)
    ensures |objective| == p.Cols()
  {
  }

  lemma LastCol(p: Problem)
    ensures p.Col(p.blocks, 0) - 1 == p.Cols()
  {
  }

  // ---- Bounds

  ghost predicate NonNegative(p: Problem)
    requires p.Shaped()
  {
    forall k, c | 0 <= k < p.neighbors && 0 <= c < p.blocks :: p.utility[k][c] >= 0.0
  }

  function AllUtility(p: Problem, n: nat): real
    requires p.Shaped() && n <= p.blocks
  {
    if n == 0 then 0.0 else AllUtility(p, n - 1) + TotalUtility(p, p.neighbors, n - 1, 0)
  }

  lemma {:induction false} EarnedForBounds(p: Problem, x: seq<int>, c: nat, n: nat)
    requires p.Shaped() && |x| == p.Cols() && c < p.blocks && n <= p.neighbors && NonNegative(p)
    ensures 0.0 <= EarnedFor(p, x, c, n) <= TotalUtility(p, n, c, 0)
  {
    hide Served;
    if n > 0 {
      EarnedForBounds(p, x, c, n - 1);
    }
  }

  lemma {:induction false} EarnedBounds(p: Problem, x: seq<int>, n: nat)
    requires p.Shaped() && |x| == p.Cols() && n <= p.blocks && NonNegative(p)
    ensures 0.0 <= Earned(p, x, n) <= AllUtility(p, n)
  {
    hide EarnedFor, TotalUtility;
    if n > 0 {
      EarnedBounds(p, x, n - 1);
      EarnedForBounds(p, x, n - 1, p.neighbors);
    }
  }

  /** With non-negative utilities a feasible point is worth between nothing and everything. */
  lemma ObjectiveBounds(p: Problem, objective: seq<real>, x: seq<int>)
    requires p.Shaped() && IsObjective(p, objective) && Binary(p, x) && NonNegative(p)
    requires MeetsRows(Matrix(p), Upper(p), x)
    ensures 0.0 <= Value(objective, x, p.Cols()) <= AllUtility(p, p.blocks)
  {
    hide MeetsRows, Matrix, Upper, Value, Earned, AllUtility;
    ObjectiveLength(p, objective);
    ObjectiveIsEarned(p, objective, x);
    EarnedBounds(p, x, p.blocks);
  }
}
