/** Known answers for SHA-256: digests of given messages as literal bytes, and where its
    constants come from. Nothing here is computed by the functions that it checks. */
module KnownDigests {
  import opened Fips180
  import Sha256
  import Sha256Stream

  // ---- Computations by rows of eight

  datatype Eight = Eight(x0: Word, x1: Word, x2: Word, x3: Word, x4: Word, x5: Word, x6: Word, x7: Word) {
    function Words(): (ws: seq<Word>)
      ensures |ws| == 8
    {
      [x0, x1, x2, x3, x4, x5, x6, x7]
    }
  }

  /** Eight words of a schedule, and the registers `a` and `e` after each of eight rounds. */
  datatype Row = Row(w: Eight, a: Eight, e: Eight) {
    /** The registers after the row: the other six are earlier `a` and `e`. */
    function Last(): Regs { Regs(a.x7, a.x6, a.x5, a.x4, e.x7, e.x6, e.x5, e.x4) }

    /** Eight rounds from `r` with these constants give these registers. */
    predicate Rounded(k: Eight, r: Regs) {
      var r1 := Regs(a.x0, r.a, r.b, r.c, e.x0, r.e, r.f, r.g);
      var r2 := Regs(a.x1, a.x0, r.a, r.b, e.x1, e.x0, r.e, r.f);
      var r3 := Regs(a.x2, a.x1, a.x0, r.a, e.x2, e.x1, e.x0, r.e);
      var r4 := Regs(a.x3, a.x2, a.x1, a.x0, e.x3, e.x2, e.x1, e.x0);
      var r5 := Regs(a.x4, a.x3, a.x2, a.x1, e.x4, e.x3, e.x2, e.x1);
      var r6 := Regs(a.x5, a.x4, a.x3, a.x2, e.x5, e.x4, e.x3, e.x2);
      var r7 := Regs(a.x6, a.x5, a.x4, a.x3, e.x6, e.x5, e.x4, e.x3);
      && Round(r, k.x0, w.x0) == r1 && Round(r1, k.x1, w.x1) == r2 && Round(r2, k.x2, w.x2) == r3
      && Round(r3, k.x3, w.x3) == r4 && Round(r4, k.x4, w.x4) == r5 && Round(r5, k.x5, w.x5) == r6
      && Round(r6, k.x6, w.x6) == r7 && Round(r7, k.x7, w.x7) == Last()
    }

    /** The row that comes after rows `u` and `v`. */
    predicate Next(k: Eight, u: Row, v: Row) {
      Extended(u.w, v.w, w) && Rounded(k, v.Last())
    }
  }

  /** `z` is the schedule word whose predecessors by 2, 7, 15 and 16 places are these. */
  predicate NextWord(z: Word, by2: Word, by7: Word, by15: Word, by16: Word) {
    z == Sum4(SmallSigma1(by2), by7, SmallSigma0(by15), by16)
  }

  /** Eight schedule words from the sixteen before them. */
  predicate Extended(u: Eight, v: Eight, y: Eight) {
    && NextWord(y.x0, v.x6, v.x1, u.x1, u.x0) && NextWord(y.x1, v.x7, v.x2, u.x2, u.x1)
    && NextWord(y.x2, y.x0, v.x3, u.x3, u.x2) && NextWord(y.x3, y.x1, v.x4, u.x4, u.x3)
    && NextWord(y.x4, y.x2, v.x5, u.x5, u.x4) && NextWord(y.x5, y.x3, v.x6, u.x6, u.x5)
    && NextWord(y.x6, y.x4, v.x7, u.x7, u.x6) && NextWord(y.x7, y.x5, y.x0, v.x0, u.x7)
  }

  predicate Follows(ws: seq<Word>, t: nat)
    requires 16 <= t < |ws|
  {
    NextWord(ws[t], ws[t - 2], ws[t - 7], ws[t - 15], ws[t - 16])
  }

  lemma WordIs(block: seq<Byte>, t: nat)
    requires |block| == 64 && 16 <= t < 64
    ensures Follows(Schedule(block, 64), t)
  {
    hide SmallSigma0, SmallSigma1, Sum4;
    Sha256.SchedulePrefix(block, t, 64);
    Sha256.SchedulePrefix(block, t + 1, 64);
    assert Schedule(block, 64)[..t + 1][t] == Schedule(block, 64)[t];
  }

  /** The words stand in `ws` from place `n` on. */
  predicate Stand(ws: seq<Word>, n: nat, w: Eight)
    requires n + 8 <= |ws|
  {
    && w.x0 == ws[n] && w.x1 == ws[n + 1] && w.x2 == ws[n + 2] && w.x3 == ws[n + 3]
    && w.x4 == ws[n + 4] && w.x5 == ws[n + 5] && w.x6 == ws[n + 6] && w.x7 == ws[n + 7]
  }

  lemma EightWords(block: seq<Byte>, n: nat, u: Eight, v: Eight, y: Eight)
    requires |block| == 64 && n + 24 <= 64 && Extended(u, v, y)
    requires Stand(Schedule(block, 64), n, u) && Stand(Schedule(block, 64), n + 8, v)
    ensures Stand(Schedule(block, 64), n + 16, y)
  {
    hide Follows, Extended, Schedule, Stand;
    forall t | n + 16 <= t < n + 24
      ensures Follows(Schedule(block, 64), t)
    {
      WordIs(block, t);
    }
    FollowsFrom(Schedule(block, 64), n, u, v, y);
  }

  lemma FollowsFrom(ws: seq<Word>, n: nat, u: Eight, v: Eight, y: Eight)
    requires n + 24 <= |ws| && Extended(u, v, y) && Stand(ws, n, u) && Stand(ws, n + 8, v)
    requires forall t | n + 16 <= t < n + 24 :: Follows(ws, t)
    ensures Stand(ws, n + 16, y)
  {
    hide SmallSigma0, SmallSigma1, Sum4;
    assert Follows(ws, n + 16) && Follows(ws, n + 17) && Follows(ws, n + 18) && Follows(ws, n + 19);
    assert Follows(ws, n + 20) && Follows(ws, n + 21) && Follows(ws, n + 22) && Follows(ws, n + 23);
  }

  /** The constants of one row. */
  ghost predicate Constants(j: nat, k: Eight)
    requires j < 8
  {
    KRow(j) == k.Words()
  }

  /** A whole computation for one block: its rows and the constants, written down. */
  ghost predicate Trace(init: Regs, block: seq<Byte>, rows: seq<Row>, ks: seq<Eight>) {
    && |block| == 64 && |rows| == |ks| == 8
    && Loaded(block, rows[0].w, 0) && Loaded(block, rows[1].w, 8)
    && rows[0].Rounded(ks[0], init) && rows[1].Rounded(ks[1], rows[0].Last())
    && (forall j | 2 <= j < 8 :: rows[j].Next(ks[j], rows[j - 2], rows[j - 1]))
    && forall j | 0 <= j < 8 :: Constants(j, ks[j])
  }

  /** The registers before row `j`. */
  function Start(init: Regs, rows: seq<Row>, j: nat): Regs
    requires j <= |rows|
  {
    if j == 0 then init else rows[j - 1].Last()
  }

  function WordsOf(rows: seq<Row>, j: nat): (ws: seq<Word>)
    requires j <= |rows|
    ensures |ws| == 8 * j
  {
    if j == 0 then [] else WordsOf(rows, j - 1) + rows[j - 1].w.Words()
  }

  predicate Loaded(block: seq<Byte>, w: Eight, t: nat)
    requires 4 * t + 32 <= |block|
  {
    && w.x0 == WordAt(block, t) && w.x1 == WordAt(block, t + 1) && w.x2 == WordAt(block, t + 2)
    && w.x3 == WordAt(block, t + 3) && w.x4 == WordAt(block, t + 4) && w.x5 == WordAt(block, t + 5)
    && w.x6 == WordAt(block, t + 6) && w.x7 == WordAt(block, t + 7)
  }

  lemma {:induction false} LoadedWords(block: seq<Byte>, n: nat)
    requires |block| == 64 && n <= 16
    ensures |Schedule(block, n)| == n && forall t | 0 <= t < n :: Schedule(block, n)[t] == WordAt(block, t)
  {
    hide WordAt;
    if n > 0 {
      LoadedWords(block, n - 1);
    }
  }

  lemma FirstWord(block: seq<Byte>, t: nat)
    requires |block| == 64 && t < 16
    ensures Schedule(block, 64)[t] == WordAt(block, t)
  {
    hide WordAt, Schedule;
    LoadedWords(block, 16);
    Sha256.SchedulePrefix(block, 16, 64);
    assert Schedule(block, 64)[t] == Schedule(block, 64)[..16][t];
  }

  lemma FirstStand(block: seq<Byte>, w: Eight, t: nat)
    requires |block| == 64 && t <= 8 && Loaded(block, w, t)
    ensures Stand(Schedule(block, 64), t, w)
  {
    hide WordAt, Schedule;
    FirstWord(block, t);
    FirstWord(block, t + 1);
    FirstWord(block, t + 2);
    FirstWord(block, t + 3);
    FirstWord(block, t + 4);
    FirstWord(block, t + 5);
    FirstWord(block, t + 6);
    FirstWord(block, t + 7);
  }

  lemma {:induction false} TraceStands(init: Regs, block: seq<Byte>, rows: seq<Row>, ks: seq<Eight>, j: nat)
    requires Trace(init, block, rows, ks) && j < 8
    ensures Stand(Schedule(block, 64), 8 * j, rows[j].w)
  {
    hide WordAt, Extended, Schedule, Row.Rounded, NextWord, Start, WordsOf, Stand, Loaded, Constants;
    if j < 2 {
      FirstStand(block, rows[j].w, 8 * j);
    } else {
      TraceStands(init, block, rows, ks, j - 2);
      TraceStands(init, block, rows, ks, j - 1);
      assert rows[j].Next(ks[j], rows[j - 2], rows[j - 1]);
      EightWords(block, 8 * j - 16, rows[j - 2].w, rows[j - 1].w, rows[j].w);
    }
  }

  lemma {:induction false} TraceWords(init: Regs, block: seq<Byte>, rows: seq<Row>, ks: seq<Eight>, j: nat)
    requires Trace(init, block, rows, ks) && j <= 8
    ensures WordsOf(rows, j) == Schedule(block, 64)[..8 * j]
  {
    hide WordAt, Extended, Schedule, Row.Rounded, Row.Next, NextWord, Start, Loaded, Constants, Stand, Eight.Words;
    if j > 0 {
      TraceWords(init, block, rows, ks, j - 1);
      TraceStands(init, block, rows, ks, j - 1);
      Joined(Schedule(block, 64), 8 * j - 8, rows[j - 1].w);
    }
  }

  lemma Joined(ws: seq<Word>, n: nat, w: Eight)
    requires n + 8 <= |ws| && Stand(ws, n, w)
    ensures ws[..n] + w.Words() == ws[..n + 8]
  {
    assert w.Words() == ws[n..n + 8];
  }

  lemma EightRounded(row: Row, j: nat, k: Eight, r: Regs)
    requires j < 8 && Constants(j, k) && row.Rounded(k, r)
    ensures Rounds(r, KRow(j), row.w.Words()) == row.Last()
  {
    hide Round, Rounds, KRow;
    Sha256.EightRounds(r, KRow(j), row.w.Words());
  }

  lemma {:induction false} TraceRounds(init: Regs, block: seq<Byte>, rows: seq<Row>, ks: seq<Eight>, j: nat)
    requires Trace(init, block, rows, ks) && j <= 8
    ensures Rounds(init, K(j), WordsOf(rows, j)) == Start(init, rows, j)
  {
    hide Round, Rounds, KRow, Extended, WordAt, Schedule, Row.Rounded, Row.Last, Loaded, Constants, Eight.Words;
    if j == 0 {
      NoRounds(init);
    } else {
      TraceRounds(init, block, rows, ks, j - 1);
      var row := rows[j - 1];
      assert j > 2 ==> row.Next(ks[j - 1], rows[j - 3], rows[j - 2]);
      EightRounded(row, j - 1, ks[j - 1], Start(init, rows, j - 1));
      RoundsSplit(init, K(j - 1), WordsOf(rows, j - 1), KRow(j - 1), row.w.Words());
    }
  }

  lemma NoRounds(init: Regs)
    ensures Rounds(init, [], []) == init
  {
  }

  /** A computation written down row by row is the compression of its block. */
  lemma TraceCompresses(init: Regs, block: seq<Byte>, rows: seq<Row>, ks: seq<Eight>)
    requires Trace(init, block, rows, ks)
    ensures Compress(init, block) == AddRegs(init, rows[7].Last())
  {
    hide Rounds, AddRegs, Schedule, Extended, WordAt, Row.Rounded, Row.Last, Loaded, Constants;
    TraceWords(init, block, rows, ks, 8);
    assert Schedule(block, 64)[..64] == Schedule(block, 64);
    TraceRounds(init, block, rows, ks, 8);
  }

  // ---- Rows from literal words

  /** One round, on words. */
  predicate Step(k: Word, w: Word, a: Word, b: Word, c: Word, d: Word, e: Word, f: Word, g: Word, h: Word, a': Word, e': Word) {
    var t1 := Sum4(h, Plus(BigSigma1(e), Ch(e, f, g)), k, w);
    e' == Plus(d, t1) && a' == Plus(t1, Plus(BigSigma0(a), Maj(a, b, c)))
  }

  lemma StepIsRound(k: Word, w: Word, a: Word, b: Word, c: Word, d: Word, e: Word, f: Word, g: Word, h: Word, a': Word, e': Word)
    requires Step(k, w, a, b, c, d, e, f, g, h, a', e')
    ensures Round(Regs(a, b, c, d, e, f, g, h), k, w) == Regs(a', a, b, c, e', e, f, g)
  {
    hide Sum4, Plus, BigSigma0, BigSigma1, Ch, Maj;
  }

  lemma RowOf(k0: Word, k1: Word, k2: Word, k3: Word, k4: Word, k5: Word, k6: Word, k7: Word,
              w0: Word, w1: Word, w2: Word, w3: Word, w4: Word, w5: Word, w6: Word, w7: Word,
              a: Word, b: Word, c: Word, d: Word, e: Word, f: Word, g: Word, h: Word,
              a0: Word, a1: Word, a2: Word, a3: Word, a4: Word, a5: Word, a6: Word, a7: Word,
              e0: Word, e1: Word, e2: Word, e3: Word, e4: Word, e5: Word, e6: Word, e7: Word)
    requires Step(k0, w0, a, b, c, d, e, f, g, h, a0, e0) && Step(k1, w1, a0, a, b, c, e0, e, f, g, a1, e1)
    requires Step(k2, w2, a1, a0, a, b, e1, e0, e, f, a2, e2) && Step(k3, w3, a2, a1, a0, a, e2, e1, e0, e, a3, e3)
    requires Step(k4, w4, a3, a2, a1, a0, e3, e2, e1, e0, a4, e4) && Step(k5, w5, a4, a3, a2, a1, e4, e3, e2, e1, a5, e5)
    requires Step(k6, w6, a5, a4, a3, a2, e5, e4, e3, e2, a6, e6) && Step(k7, w7, a6, a5, a4, a3, e6, e5, e4, e3, a7, e7)
    ensures
      var row := Row(Eight(w0, w1, w2, w3, w4, w5, w6, w7), Eight(a0, a1, a2, a3, a4, a5, a6, a7),
                     Eight(e0, e1, e2, e3, e4, e5, e6, e7));
      row.Rounded(Eight(k0, k1, k2, k3, k4, k5, k6, k7), Regs(a, b, c, d, e, f, g, h))
  {
    hide Step, Round;
    StepIsRound(k0, w0, a, b, c, d, e, f, g, h, a0, e0);
    StepIsRound(k1, w1, a0, a, b, c, e0, e, f, g, a1, e1);
    StepIsRound(k2, w2, a1, a0, a, b, e1, e0, e, f, a2, e2);
    StepIsRound(k3, w3, a2, a1, a0, a, e2, e1, e0, e, a3, e3);
    StepIsRound(k4, w4, a3, a2, a1, a0, e3, e2, e1, e0, a4, e4);
    StepIsRound(k5, w5, a4, a3, a2, a1, e4, e3, e2, e1, a5, e5);
    StepIsRound(k6, w6, a5, a4, a3, a2, e5, e4, e3, e2, a6, e6);
    StepIsRound(k7, w7, a6, a5, a4, a3, e6, e5, e4, e3, a7, e7);
  }

  lemma WordsFrom(u0: Word, u1: Word, u2: Word, u3: Word, u4: Word, u5: Word, u6: Word, u7: Word,
                  v0: Word, v1: Word, v2: Word, v3: Word, v4: Word, v5: Word, v6: Word, v7: Word,
                  y0: Word, y1: Word, y2: Word, y3: Word, y4: Word, y5: Word, y6: Word, y7: Word)
    requires NextWord(y0, v6, v1, u1, u0) && NextWord(y1, v7, v2, u2, u1) && NextWord(y2, y0, v3, u3, u2)
    requires NextWord(y3, y1, v4, u4, u3) && NextWord(y4, y2, v5, u5, u4) && NextWord(y5, y3, v6, u6, u5)
    requires NextWord(y6, y4, v7, u7, u6) && NextWord(y7, y5, y0, v0, u7)
    ensures Extended(Eight(u0, u1, u2, u3, u4, u5, u6, u7), Eight(v0, v1, v2, v3, v4, v5, v6, v7),
                     Eight(y0, y1, y2, y3, y4, y5, y6, y7))
  {
    hide NextWord;
  }

  // ---- The constants

  /** The constants as they are published. */
  function Cubic(j: nat): Eight
    requires j < 8
  {
    match j
    case 0 => Eight(0x428a2f98, 0x71374491, 0xb5c0fbcf, 0xe9b5dba5, 0x3956c25b, 0x59f111f1, 0x923f82a4, 0xab1c5ed5)
    case 1 => Eight(0xd807aa98, 0x12835b01, 0x243185be, 0x550c7dc3, 0x72be5d74, 0x80deb1fe, 0x9bdc06a7, 0xc19bf174)
    case 2 => Eight(0xe49b69c1, 0xefbe4786, 0x0fc19dc6, 0x240ca1cc, 0x2de92c6f, 0x4a7484aa, 0x5cb0a9dc, 0x76f988da)
    case 3 => Eight(0x983e5152, 0xa831c66d, 0xb00327c8, 0xbf597fc7, 0xc6e00bf3, 0xd5a79147, 0x06ca6351, 0x14292967)
    case 4 => Eight(0x27b70a85, 0x2e1b2138, 0x4d2c6dfc, 0x53380d13, 0x650a7354, 0x766a0abb, 0x81c2c92e, 0x92722c85)
    case 5 => Eight(0xa2bfe8a1, 0xa81a664b, 0xc24b8b70, 0xc76c51a3, 0xd192e819, 0xd6990624, 0xf40e3585, 0x106aa070)
    case 6 => Eight(0x19a4c116, 0x1e376c08, 0x2748774c, 0x34b0bcb5, 0x391c0cb3, 0x4ed8aa4a, 0x5b9cca4f, 0x682e6ff3)
    case 7 => Eight(0x748f82ee, 0x78a5636f, 0x84c87814, 0x8cc70208, 0x90befffa, 0xa4506ceb, 0xbef9a3f7, 0xc67178f2)
  }

  function CubicRows(): (ks: seq<Eight>)
    ensures |ks| == 8 && forall j | 0 <= j < 8 :: ks[j] == Cubic(j)
  {
    seq(8, j requires 0 <= j < 8 => Cubic(j))
  }

  lemma CubicsAreConstants()
    ensures forall j | 0 <= j < 8 :: Constants(j, Cubic(j))
  {
    forall j | 0 <= j < 8
      ensures Constants(j, Cubic(j))
    {
      assert j == 0 || j == 1 || j == 2 || j == 3 || j == 4 || j == 5 || j == 6 || j == 7;
    }
  }

  // ---- Where the constants come from

  /** `k` is the first 32 bits of the fraction of the cube root of `p`, whose whole part is `c`. */
  predicate CubeFraction(p: nat, c: nat, k: nat) {
    var n := c * 0x1_0000_0000 + k;
    n * n * n <= p * 0x1_0000_0000_0000_0000_0000_0000 < (n + 1) * (n + 1) * (n + 1)
  }

  predicate SquareFraction(p: nat, c: nat, k: nat) {
    var n := c * 0x1_0000_0000 + k;
    n * n <= p * 0x1_0000_0000_0000_0000 < (n + 1) * (n + 1)
  }

  lemma CubeRoots0()
    ensures CubeFraction(2, 1, KRow(0)[0] as nat) && CubeFraction(3, 1, KRow(0)[1] as nat)
    ensures CubeFraction(5, 1, KRow(0)[2] as nat) && CubeFraction(7, 1, KRow(0)[3] as nat)
    ensures CubeFraction(11, 2, KRow(0)[4] as nat) && CubeFraction(13, 2, KRow(0)[5] as nat)
    ensures CubeFraction(17, 2, KRow(0)[6] as nat) && CubeFraction(19, 2, KRow(0)[7] as nat)
  {
  }

  lemma CubeRoots1()
    ensures CubeFraction(23, 2, KRow(1)[0] as nat) && CubeFraction(29, 3, KRow(1)[1] as nat)
    ensures CubeFraction(31, 3, KRow(1)[2] as nat) && CubeFraction(37, 3, KRow(1)[3] as nat)
    ensures CubeFraction(41, 3, KRow(1)[4] as nat) && CubeFraction(43, 3, KRow(1)[5] as nat)
    ensures CubeFraction(47, 3, KRow(1)[6] as nat) && CubeFraction(53, 3, KRow(1)[7] as nat)
  {
  }

  lemma CubeRoots2()
    ensures CubeFraction(59, 3, KRow(2)[0] as nat) && CubeFraction(61, 3, KRow(2)[1] as nat)
    ensures CubeFraction(67, 4, KRow(2)[2] as nat) && CubeFraction(71, 4, KRow(2)[3] as nat)
    ensures CubeFraction(73, 4, KRow(2)[4] as nat) && CubeFraction(79, 4, KRow(2)[5] as nat)
    ensures CubeFraction(83, 4, KRow(2)[6] as nat) && CubeFraction(89, 4, KRow(2)[7] as nat)
  {
  }

  lemma CubeRoots3()
    ensures CubeFraction(97, 4, KRow(3)[0] as nat) && CubeFraction(101, 4, KRow(3)[1] as nat)
    ensures CubeFraction(103, 4, KRow(3)[2] as nat) && CubeFraction(107, 4, KRow(3)[3] as nat)
    ensures CubeFraction(109, 4, KRow(3)[4] as nat) && CubeFraction(113, 4, KRow(3)[5] as nat)
    ensures CubeFraction(127, 5, KRow(3)[6] as nat) && CubeFraction(131, 5, KRow(3)[7] as nat)
  {
  }

  lemma CubeRoots4()
    ensures CubeFraction(137, 5, KRow(4)[0] as nat) && CubeFraction(139, 5, KRow(4)[1] as nat)
    ensures CubeFraction(149, 5, KRow(4)[2] as nat) && CubeFraction(151, 5, KRow(4)[3] as nat)
    ensures CubeFraction(157, 5, KRow(4)[4] as nat) && CubeFraction(163, 5, KRow(4)[5] as nat)
    ensures CubeFraction(167, 5, KRow(4)[6] as nat) && CubeFraction(173, 5, KRow(4)[7] as nat)
  {
  }

  lemma CubeRoots5()
    ensures CubeFraction(179, 5, KRow(5)[0] as nat) && CubeFraction(181, 5, KRow(5)[1] as nat)
    ensures CubeFraction(191, 5, KRow(5)[2] as nat) && CubeFraction(193, 5, KRow(5)[3] as nat)
    ensures CubeFraction(197, 5, KRow(5)[4] as nat) && CubeFraction(199, 5, KRow(5)[5] as nat)
    ensures CubeFraction(211, 5, KRow(5)[6] as nat) && CubeFraction(223, 6, KRow(5)[7] as nat)
  {
  }

  lemma CubeRoots6()
    ensures CubeFraction(227, 6, KRow(6)[0] as nat) && CubeFraction(229, 6, KRow(6)[1] as nat)
    ensures CubeFraction(233, 6, KRow(6)[2] as nat) && CubeFraction(239, 6, KRow(6)[3] as nat)
    ensures CubeFraction(241, 6, KRow(6)[4] as nat) && CubeFraction(251, 6, KRow(6)[5] as nat)
    ensures CubeFraction(257, 6, KRow(6)[6] as nat) && CubeFraction(263, 6, KRow(6)[7] as nat)
  {
  }

  lemma CubeRoots7()
    ensures CubeFraction(269, 6, KRow(7)[0] as nat) && CubeFraction(271, 6, KRow(7)[1] as nat)
    ensures CubeFraction(277, 6, KRow(7)[2] as nat) && CubeFraction(281, 6, KRow(7)[3] as nat)
    ensures CubeFraction(283, 6, KRow(7)[4] as nat) && CubeFraction(293, 6, KRow(7)[5] as nat)
    ensures CubeFraction(307, 6, KRow(7)[6] as nat) && CubeFraction(311, 6, KRow(7)[7] as nat)
  {
  }

  lemma SquareRoots()
    ensures SquareFraction(2, 1, INITIAL_HASH.a as nat)
    ensures SquareFraction(3, 1, INITIAL_HASH.b as nat)
    ensures SquareFraction(5, 2, INITIAL_HASH.c as nat)
    ensures SquareFraction(7, 2, INITIAL_HASH.d as nat)
    ensures SquareFraction(11, 3, INITIAL_HASH.e as nat)
    ensures SquareFraction(13, 3, INITIAL_HASH.f as nat)
    ensures SquareFraction(17, 4, INITIAL_HASH.g as nat)
    ensures SquareFraction(19, 4, INITIAL_HASH.h as nat)
  {
  }

  // ---- Messages and their padding

  lemma ZeroByte(n: nat)
    requires n == 0
    ensures n as Byte == 0
  {
  }

  lemma ShortParts(bits: nat, high: nat, low: nat)
    requires bits == 256 * high + low && high < 256 && low < 256
    ensures bits / 0x100_0000_0000_0000 % 256 == 0 && bits / 0x1_0000_0000_0000 % 256 == 0
    ensures bits / 0x100_0000_0000 % 256 == 0 && bits / 0x1_0000_0000 % 256 == 0
    ensures bits / 0x100_0000 % 256 == 0 && bits / 0x1_0000 % 256 == 0
    ensures bits / 0x100 % 256 == high && bits % 256 == low
  {
    assert bits / 0x1_0000 == 0 && bits / 0x100 == high;
  }

  lemma ShortLength(bits: nat, high: nat, low: nat)
    requires bits == 256 * high + low && high < 256 && low < 256
    ensures LengthBytes(bits) == [0, 0, 0, 0, 0, 0, high as Byte, low as Byte]
  {
    ShortParts(bits, high, low);
    ZeroByte(bits / 0x100_0000_0000_0000 % 256);
  }

  /** Word `t` of a block, from its four bytes. */
  lemma WordFrom(block: seq<Byte>, t: nat, b0: Byte, b1: Byte, b2: Byte, b3: Byte)
    requires 4 * t + 4 <= |block| && block[4 * t] == b0 && block[4 * t + 1] == b1
    requires block[4 * t + 2] == b2 && block[4 * t + 3] == b3
    ensures WordAt(block, t) == WordOf(b0, b1, b2, b3)
  {
  }

  lemma ZeroWords(block: seq<Byte>, from: nat, to: nat)
    requires from <= to && 4 * to <= |block| && forall i | 4 * from <= i < 4 * to :: block[i] == 0
    ensures forall t | from <= t < to :: WordAt(block, t) == 0
  {
    forall t | from <= t < to
      ensures WordAt(block, t) == 0
    {
      WordFrom(block, t, 0, 0, 0, 0);
      assert WordOf(0, 0, 0, 0) == 0;
    }
  }

  lemma LengthIs(bits: nat, high: Byte, low: Byte)
    requires bits == 256 * (high as nat) + low as nat
    ensures LengthBytes(bits) == [0, 0, 0, 0, 0, 0, high, low]
  {
    ShortLength(bits, high as nat, low as nat);
    hide LengthBytes;
  }

  /** Where the parts of a padded message stand: `high` and `low` are its length in bits. */
  lemma PaddedBytes(message: seq<Byte>, n: nat, z: nat, high: Byte, low: Byte, b: seq<Byte>)
    requires n == |message| && b == message + Padding(n)
    requires LengthBytes(8 * n) == [0, 0, 0, 0, 0, 0, high, low] && 8 * n < 0x1_0000 && z == ZeroCount(n)
    ensures
      && |b| == n + z + 9 && b[..n] == message && b[n] == 0x80
      && (forall i | n < i < n + z + 7 :: b[i] == 0) && b[n + z + 7] == high && b[n + z + 8] == low
  {
    var length := [0, 0, 0, 0, 0, 0, high, low];
    PaddingIs(n, z, length);
    hide *;
    InParts(message, z, length, high, low);
  }

  lemma PaddingIs(n: nat, z: nat, length: seq<Byte>)
    requires 8 * n < 0x1_0000 && z == ZeroCount(n) && length == LengthBytes(8 * n)
    ensures Padding(n) == [0x80] + Zeros(z) + length && |Zeros(z)| == z && forall i | 0 <= i < z :: Zeros(z)[i] == 0
  {
    hide LengthBytes;
    assert 8 * n % TWO_64 == 8 * n;
  }

  lemma InParts(message: seq<Byte>, z: nat, length: seq<Byte>, high: Byte, low: Byte)
    requires length == [0, 0, 0, 0, 0, 0, high, low]
    requires |Zeros(z)| == z && forall i | 0 <= i < z :: Zeros(z)[i] == 0
    ensures
      var n, b := |message|, message + ([0x80] + Zeros(z) + length);
      && |b| == n + z + 9 && b[..n] == message && b[n] == 0x80
      && (forall i | n < i < n + z + 7 :: b[i] == 0) && b[n + z + 7] == high && b[n + z + 8] == low
  {
    hide Zeros;
    var n, b := |message|, message + ([0x80] + Zeros(z) + length);
    assert |length| == 8 && length[6] == high && length[7] == low;
    assert forall k | 0 <= k < 6 :: length[k] == 0;
    assert forall i | n < i <= n + z :: b[i] == Zeros(z)[i - n - 1];
    assert forall i | n + z < i < n + z + 9 :: b[i] == length[i - n - z - 1];
  }

  lemma EightBytes(r: Regs)
    ensures
      BytesOf(WordSeq(r)) ==
        WordBytes(r.a) + WordBytes(r.b) + WordBytes(r.c) + WordBytes(r.d)
        + WordBytes(r.e) + WordBytes(r.f) + WordBytes(r.g) + WordBytes(r.h)
  {
    hide BytesOf, WordBytes;
    BytesOfEight(WordSeq(r));
  }

  lemma BytesOfEight(ws: seq<Word>)
    requires |ws| == 8
    ensures
      BytesOf(ws) ==
        WordBytes(ws[0]) + WordBytes(ws[1]) + WordBytes(ws[2]) + WordBytes(ws[3])
        + WordBytes(ws[4]) + WordBytes(ws[5]) + WordBytes(ws[6]) + WordBytes(ws[7])
  {
    hide BytesOf, WordBytes;
    BytesOfFour(ws);
    BytesOfAll(ws);
    Sha256Stream.BytesOfStep(ws, 4);
    Sha256Stream.BytesOfStep(ws, 5);
    Sha256Stream.BytesOfStep(ws, 6);
    Sha256Stream.BytesOfStep(ws, 7);
  }

  lemma BytesOfAll(ws: seq<Word>)
    ensures BytesOf(ws[..|ws|]) == BytesOf(ws)
  {
    assert ws[..|ws|] == ws;
  }

  lemma BytesOfFour(ws: seq<Word>)
    requires |ws| >= 4
    ensures BytesOf(ws[..4]) == WordBytes(ws[0]) + WordBytes(ws[1]) + WordBytes(ws[2]) + WordBytes(ws[3])
  {
    assert BytesOf(ws[..0]) == [];
    hide WordBytes, BytesOf;
    Sha256Stream.BytesOfStep(ws, 0);
    Sha256Stream.BytesOfStep(ws, 1);
    Sha256Stream.BytesOfStep(ws, 2);
    Sha256Stream.BytesOfStep(ws, 3);
    assert [] + WordBytes(ws[0]) == WordBytes(ws[0]);
  }

  // ---- "abc"

  const ABC: seq<Byte> := [0x61, 0x62, 0x63]

  lemma AbcLength()
    ensures LengthBytes(24) == [0, 0, 0, 0, 0, 0, 0, 24] && ZeroCount(3) == 52
  {
    LengthIs(24, 0, 24);
  }

  lemma AbcBytes(block: seq<Byte>)
    requires block == ABC + Padding(3)
    ensures |block| == 64 && block[0] == 0x61 && block[1] == 0x62 && block[2] == 0x63 && block[3] == 0x80
    ensures (forall i | 4 <= i < 63 :: block[i] == 0) && block[63] == 24
  {
    assert |ABC| == 3 && ABC[0] == 0x61 && ABC[1] == 0x62 && ABC[2] == 0x63;
    AbcLength();
    hide LengthBytes, Padding, ZeroCount;
    PaddedBytes(ABC, 3, 52, 0, 24, block);
    hide *;
    assert block[0] == block[..3][0] && block[1] == block[..3][1] && block[2] == block[..3][2];
  }

  lemma AbcLoaded(block: seq<Byte>)
    requires block == ABC + Padding(3)
    ensures |block| == 64 && Loaded(block, Abc(0).w, 0) && Loaded(block, Abc(1).w, 8)
  {
    AbcBytes(block);
    AbcWords();
    hide Padding, WordAt, WordOf, Abc;
    WordFrom(block, 0, 0x61, 0x62, 0x63, 0x80);
    ZeroWords(block, 1, 15);
    WordFrom(block, 15, 0, 0, 0, 24);
  }

  lemma AbcWords()
    ensures Abc(0).w == Eight(WordOf(0x61, 0x62, 0x63, 0x80), 0, 0, 0, 0, 0, 0, 0)
    ensures Abc(1).w == Eight(0, 0, 0, 0, 0, 0, 0, WordOf(0, 0, 0, 24))
  {
  }

  /** The computation for "abc". */
  function Abc(j: nat): Row
    requires j < 8
  {
    match j
    case 0 => Row(Eight(0x61626380, 0x00000000, 0x00000000, 0x00000000, 0x00000000, 0x00000000, 0x00000000, 0x00000000),
                  Eight(0x5d6aebcd, 0x5a6ad9ad, 0xc8c347a7, 0xd550f666, 0x04409a6a, 0x2b4209f5, 0xe5030380, 0x85a07b5f),
                  Eight(0xfa2a4622, 0x78ce7989, 0xf92939eb, 0x24e00850, 0x43ada245, 0x714260ad, 0x9b27a401, 0x0c657a79))
    case 1 => Row(Eight(0x00000000, 0x00000000, 0x00000000, 0x00000000, 0x00000000, 0x00000000, 0x00000000, 0x00000018),
                  Eight(0x8e04ecb9, 0x8c87346b, 0x4798a3f4, 0xf71fc5a9, 0x87912990, 0xd932eb16, 0xc0645fde, 0xb0fa238e),
                  Eight(0x32ca2d8c, 0x1cc92596, 0x436b23e8, 0x816fd6e9, 0x1e578218, 0x745a48de, 0x0b92f20c, 0x07590dcd))
    case 2 => Row(Eight(0x61626380, 0x000f0000, 0x7da86405, 0x600003c6, 0x3e9d7b78, 0x0183fc00, 0x12dcbfdb, 0xe2e2c38e),
                  Eight(0x21da9a9b, 0xc2fbd9d1, 0xfe777bbf, 0xe1f20c33, 0x9dc68b63, 0xc2606d6d, 0xa7a3623f, 0xc5d53d8d),
                  Eight(0x8034229c, 0x846ee454, 0xcc899961, 0xb0638179, 0x8ada8930, 0xe1257970, 0x49f5114a, 0xaa47c347))
    case 3 => Row(Eight(0xc8215c1a, 0xb73679a2, 0xe5bc3909, 0x32663c5b, 0x9d209d67, 0xec8726cb, 0x702138a4, 0xd3b7973b),
                  Eight(0x1c2c2838, 0xcde8037d, 0xb62ec4bc, 0x77d37528, 0x363482c9, 0xa0060b30, 0xea992a22, 0x73b33bf5),
                  Eight(0x2823ef91, 0x14383d8e, 0xc74c6516, 0xedffbff8, 0x6112a3b7, 0xade79437, 0x0109ab3a, 0xba591112))
    case 4 => Row(Eight(0x93f5997f, 0x3b68ba73, 0xaff4ffc1, 0xf10a5c62, 0x0a8b3996, 0x72af830a, 0x9409e33e, 0x24641522),
                  Eight(0x98e12507, 0xfe604df5, 0xa9a7738c, 0x65a0cfe4, 0x41a65cb1, 0x34df1604, 0x6dc57a8a, 0x79ea687a),
                  Eight(0x9cd9f5f6, 0x59249dd3, 0x085f3833, 0xf4b002d6, 0x0772a26b, 0xa507a53d, 0xf0781bc8, 0x1efbc0a0))
    case 5 => Row(Eight(0x9f47bf94, 0xf0a64f5a, 0x3e246a79, 0x27333ba3, 0x0c4763f2, 0x840abf27, 0x7a290d5d, 0x065c43da),
                  Eight(0xd6670766, 0xdf46652f, 0x17aa0dfe, 0x9d4baf93, 0x26628815, 0x72ab4b91, 0xa14c14b0, 0x4172328d),
                  Eight(0x26352d63, 0x838b2711, 0xdecd4715, 0xfda24c2e, 0xa80f11f0, 0xb7755da1, 0xd57b94a9, 0xfecf0bc6))
    case 6 => Row(Eight(0xfb3e89cb, 0xcc7617db, 0xb9e66c34, 0xa9993667, 0x84badedd, 0xc21462bc, 0x1487472c, 0xb20f7a99),
                  Eight(0x05757ceb, 0xf11bfaa8, 0x7a0508a1, 0x886e7a22, 0x101fd28f, 0xf5702fdb, 0x3ec45cdb, 0x38cc9913),
                  Eight(0xbd714038, 0x6e5c390c, 0x52f1ccf7, 0x49231c1e, 0x529e7d00, 0x9f4787c3, 0xe50e1b4f, 0x54cb266b))
    case 7 => Row(Eight(0xef57b9cd, 0xebe6b238, 0x9fe3095e, 0x78bc8d4b, 0xa43fcf15, 0x668b2ff8, 0xeeaba2cc, 0x12b1edeb),
                  Eight(0xfcd1887b, 0xc062d46f, 0xffb70472, 0xb6ae8fff, 0xb85e2ce9, 0x04d24d6c, 0xd39a2165, 0x506e3058),
                  Eight(0x9b5e906c, 0x7e44008e, 0x6d83bfc6, 0xb21bad3d, 0x961f4894, 0x948d25b6, 0xfb121210, 0x5ef50f24))
  }

  lemma AbcRow0()
    ensures Abc(0).Rounded(Cubic(0), INITIAL_HASH)
  {
    RowOf(0x428a2f98, 0x71374491, 0xb5c0fbcf, 0xe9b5dba5, 0x3956c25b, 0x59f111f1, 0x923f82a4, 0xab1c5ed5,
          0x61626380, 0x00000000, 0x00000000, 0x00000000, 0x00000000, 0x00000000, 0x00000000, 0x00000000,
          0x6a09e667, 0xbb67ae85, 0x3c6ef372, 0xa54ff53a, 0x510e527f, 0x9b05688c, 0x1f83d9ab, 0x5be0cd19,
          0x5d6aebcd, 0x5a6ad9ad, 0xc8c347a7, 0xd550f666, 0x04409a6a, 0x2b4209f5, 0xe5030380, 0x85a07b5f,
          0xfa2a4622, 0x78ce7989, 0xf92939eb, 0x24e00850, 0x43ada245, 0x714260ad, 0x9b27a401, 0x0c657a79);
    hide Step, NextWord, Row.Rounded, Extended;
  }

  lemma AbcRow1()
    ensures Abc(1).Rounded(Cubic(1), Abc(0).Last())
  {
    RowOf(0xd807aa98, 0x12835b01, 0x243185be, 0x550c7dc3, 0x72be5d74, 0x80deb1fe, 0x9bdc06a7, 0xc19bf174,
          0x00000000, 0x00000000, 0x00000000, 0x00000000, 0x00000000, 0x00000000, 0x00000000, 0x00000018,
          0x85a07b5f, 0xe5030380, 0x2b4209f5, 0x04409a6a, 0x0c657a79, 0x9b27a401, 0x714260ad, 0x43ada245,
          0x8e04ecb9, 0x8c87346b, 0x4798a3f4, 0xf71fc5a9, 0x87912990, 0xd932eb16, 0xc0645fde, 0xb0fa238e,
          0x32ca2d8c, 0x1cc92596, 0x436b23e8, 0x816fd6e9, 0x1e578218, 0x745a48de, 0x0b92f20c, 0x07590dcd);
    hide Step, NextWord, Row.Rounded, Extended;
  }

  lemma AbcRow2()
    ensures Abc(2).Next(Cubic(2), Abc(0), Abc(1))
  {
    RowOf(0xe49b69c1, 0xefbe4786, 0x0fc19dc6, 0x240ca1cc, 0x2de92c6f, 0x4a7484aa, 0x5cb0a9dc, 0x76f988da,
          0x61626380, 0x000f0000, 0x7da86405, 0x600003c6, 0x3e9d7b78, 0x0183fc00, 0x12dcbfdb, 0xe2e2c38e,
          0xb0fa238e, 0xc0645fde, 0xd932eb16, 0x87912990, 0x07590dcd, 0x0b92f20c, 0x745a48de, 0x1e578218,
          0x21da9a9b, 0xc2fbd9d1, 0xfe777bbf, 0xe1f20c33, 0x9dc68b63, 0xc2606d6d, 0xa7a3623f, 0xc5d53d8d,
          0x8034229c, 0x846ee454, 0xcc899961, 0xb0638179, 0x8ada8930, 0xe1257970, 0x49f5114a, 0xaa47c347);
    WordsFrom(0x61626380, 0x00000000, 0x00000000, 0x00000000, 0x00000000, 0x00000000, 0x00000000, 0x00000000,
              0x00000000, 0x00000000, 0x00000000, 0x00000000, 0x00000000, 0x00000000, 0x00000000, 0x00000018,
              0x61626380, 0x000f0000, 0x7da86405, 0x600003c6, 0x3e9d7b78, 0x0183fc00, 0x12dcbfdb, 0xe2e2c38e);
    hide Step, NextWord, Row.Rounded, Extended;
  }

  lemma AbcRow3()
    ensures Abc(3).Next(Cubic(3), Abc(1), Abc(2))
  {
    RowOf(0x983e5152, 0xa831c66d, 0xb00327c8, 0xbf597fc7, 0xc6e00bf3, 0xd5a79147, 0x06ca6351, 0x14292967,
          0xc8215c1a, 0xb73679a2, 0xe5bc3909, 0x32663c5b, 0x9d209d67, 0xec8726cb, 0x702138a4, 0xd3b7973b,
          0xc5d53d8d, 0xa7a3623f, 0xc2606d6d, 0x9dc68b63, 0xaa47c347, 0x49f5114a, 0xe1257970, 0x8ada8930,
          0x1c2c2838, 0xcde8037d, 0xb62ec4bc, 0x77d37528, 0x363482c9, 0xa0060b30, 0xea992a22, 0x73b33bf5,
          0x2823ef91, 0x14383d8e, 0xc74c6516, 0xedffbff8, 0x6112a3b7, 0xade79437, 0x0109ab3a, 0xba591112);
    WordsFrom(0x00000000, 0x00000000, 0x00000000, 0x00000000, 0x00000000, 0x00000000, 0x00000000, 0x00000018,
              0x61626380, 0x000f0000, 0x7da86405, 0x600003c6, 0x3e9d7b78, 0x0183fc00, 0x12dcbfdb, 0xe2e2c38e,
              0xc8215c1a, 0xb73679a2, 0xe5bc3909, 0x32663c5b, 0x9d209d67, 0xec8726cb, 0x702138a4, 0xd3b7973b);
    hide Step, NextWord, Row.Rounded, Extended;
  }

  lemma AbcRow4()
    ensures Abc(4).Next(Cubic(4), Abc(2), Abc(3))
  {
    RowOf(0x27b70a85, 0x2e1b2138, 0x4d2c6dfc, 0x53380d13, 0x650a7354, 0x766a0abb, 0x81c2c92e, 0x92722c85,
          0x93f5997f, 0x3b68ba73, 0xaff4ffc1, 0xf10a5c62, 0x0a8b3996, 0x72af830a, 0x9409e33e, 0x24641522,
          0x73b33bf5, 0xea992a22, 0xa0060b30, 0x363482c9, 0xba591112, 0x0109ab3a, 0xade79437, 0x6112a3b7,
          0x98e12507, 0xfe604df5, 0xa9a7738c, 0x65a0cfe4, 0x41a65cb1, 0x34df1604, 0x6dc57a8a, 0x79ea687a,
          0x9cd9f5f6, 0x59249dd3, 0x085f3833, 0xf4b002d6, 0x0772a26b, 0xa507a53d, 0xf0781bc8, 0x1efbc0a0);
    WordsFrom(0x61626380, 0x000f0000, 0x7da86405, 0x600003c6, 0x3e9d7b78, 0x0183fc00, 0x12dcbfdb, 0xe2e2c38e,
              0xc8215c1a, 0xb73679a2, 0xe5bc3909, 0x32663c5b, 0x9d209d67, 0xec8726cb, 0x702138a4, 0xd3b7973b,
              0x93f5997f, 0x3b68ba73, 0xaff4ffc1, 0xf10a5c62, 0x0a8b3996, 0x72af830a, 0x9409e33e, 0x24641522);
    hide Step, NextWord, Row.Rounded, Extended;
  }

  lemma AbcRow5()
    ensures Abc(5).Next(Cubic(5), Abc(3), Abc(4))
  {
    RowOf(0xa2bfe8a1, 0xa81a664b, 0xc24b8b70, 0xc76c51a3, 0xd192e819, 0xd6990624, 0xf40e3585, 0x106aa070,
          0x9f47bf94, 0xf0a64f5a, 0x3e246a79, 0x27333ba3, 0x0c4763f2, 0x840abf27, 0x7a290d5d, 0x065c43da,
          0x79ea687a, 0x6dc57a8a, 0x34df1604, 0x41a65cb1, 0x1efbc0a0, 0xf0781bc8, 0xa507a53d, 0x0772a26b,
          0xd6670766, 0xdf46652f, 0x17aa0dfe, 0x9d4baf93, 0x26628815, 0x72ab4b91, 0xa14c14b0, 0x4172328d,
          0x26352d63, 0x838b2711, 0xdecd4715, 0xfda24c2e, 0xa80f11f0, 0xb7755da1, 0xd57b94a9, 0xfecf0bc6);
    WordsFrom(0xc8215c1a, 0xb73679a2, 0xe5bc3909, 0x32663c5b, 0x9d209d67, 0xec8726cb, 0x702138a4, 0xd3b7973b,
              0x93f5997f, 0x3b68ba73, 0xaff4ffc1, 0xf10a5c62, 0x0a8b3996, 0x72af830a, 0x9409e33e, 0x24641522,
              0x9f47bf94, 0xf0a64f5a, 0x3e246a79, 0x27333ba3, 0x0c4763f2, 0x840abf27, 0x7a290d5d, 0x065c43da);
    hide Step, NextWord, Row.Rounded, Extended;
  }

  lemma AbcRow6()
    ensures Abc(6).Next(Cubic(6), Abc(4), Abc(5))
  {
    RowOf(0x19a4c116, 0x1e376c08, 0x2748774c, 0x34b0bcb5, 0x391c0cb3, 0x4ed8aa4a, 0x5b9cca4f, 0x682e6ff3,
          0xfb3e89cb, 0xcc7617db, 0xb9e66c34, 0xa9993667, 0x84badedd, 0xc21462bc, 0x1487472c, 0xb20f7a99,
          0x4172328d, 0xa14c14b0, 0x72ab4b91, 0x26628815, 0xfecf0bc6, 0xd57b94a9, 0xb7755da1, 0xa80f11f0,
          0x05757ceb, 0xf11bfaa8, 0x7a0508a1, 0x886e7a22, 0x101fd28f, 0xf5702fdb, 0x3ec45cdb, 0x38cc9913,
          0xbd714038, 0x6e5c390c, 0x52f1ccf7, 0x49231c1e, 0x529e7d00, 0x9f4787c3, 0xe50e1b4f, 0x54cb266b);
    WordsFrom(0x93f5997f, 0x3b68ba73, 0xaff4ffc1, 0xf10a5c62, 0x0a8b3996, 0x72af830a, 0x9409e33e, 0x24641522,
              0x9f47bf94, 0xf0a64f5a, 0x3e246a79, 0x27333ba3, 0x0c4763f2, 0x840abf27, 0x7a290d5d, 0x065c43da,
              0xfb3e89cb, 0xcc7617db, 0xb9e66c34, 0xa9993667, 0x84badedd, 0xc21462bc, 0x1487472c, 0xb20f7a99);
    hide Step, NextWord, Row.Rounded, Extended;
  }

  lemma AbcRow7()
    ensures Abc(7).Next(Cubic(7), Abc(5), Abc(6))
  {
    RowOf(0x748f82ee, 0x78a5636f, 0x84c87814, 0x8cc70208, 0x90befffa, 0xa4506ceb, 0xbef9a3f7, 0xc67178f2,
          0xef57b9cd, 0xebe6b238, 0x9fe3095e, 0x78bc8d4b, 0xa43fcf15, 0x668b2ff8, 0xeeaba2cc, 0x12b1edeb,
          0x38cc9913, 0x3ec45cdb, 0xf5702fdb, 0x101fd28f, 0x54cb266b, 0xe50e1b4f, 0x9f4787c3, 0x529e7d00,
          0xfcd1887b, 0xc062d46f, 0xffb70472, 0xb6ae8fff, 0xb85e2ce9, 0x04d24d6c, 0xd39a2165, 0x506e3058,
          0x9b5e906c, 0x7e44008e, 0x6d83bfc6, 0xb21bad3d, 0x961f4894, 0x948d25b6, 0xfb121210, 0x5ef50f24);
    WordsFrom(0x9f47bf94, 0xf0a64f5a, 0x3e246a79, 0x27333ba3, 0x0c4763f2, 0x840abf27, 0x7a290d5d, 0x065c43da,
              0xfb3e89cb, 0xcc7617db, 0xb9e66c34, 0xa9993667, 0x84badedd, 0xc21462bc, 0x1487472c, 0xb20f7a99,
              0xef57b9cd, 0xebe6b238, 0x9fe3095e, 0x78bc8d4b, 0xa43fcf15, 0x668b2ff8, 0xeeaba2cc, 0x12b1edeb);
    hide Step, NextWord, Row.Rounded, Extended;
  }

  lemma AbcCompressed(block: seq<Byte>)
    requires |block| == 64 && Loaded(block, Abc(0).w, 0) && Loaded(block, Abc(1).w, 8)
    ensures Compress(INITIAL_HASH, block) == AddRegs(INITIAL_HASH, Abc(7).Last())
  {
    hide WordAt, Row.Rounded, Row.Next, Row.Last, Abc, Cubic, Loaded, Compress, AddRegs, Constants;
    var rows := seq(8, j requires 0 <= j < 8 => Abc(j));
    AbcRow0();
    AbcRow1();
    AbcRow2();
    AbcRow3();
    AbcRow4();
    AbcRow5();
    AbcRow6();
    AbcRow7();
    forall j | 2 <= j < 8
      ensures rows[j].Next(CubicRows()[j], rows[j - 2], rows[j - 1])
    {
      assert j == 2 || j == 3 || j == 4 || j == 5 || j == 6 || j == 7;
    }
    CubicsAreConstants();
    TraceCompresses(INITIAL_HASH, block, rows, CubicRows());
  }

  lemma AbcSum()
    ensures AddRegs(INITIAL_HASH, Abc(7).Last()) == Regs(0xba7816bf, 0x8f01cfea, 0x414140de, 0x5dae2223,
                        0xb00361a3, 0x96177a9c, 0xb410ff61, 0xf20015ad)
  {
    assert Plus(0x6a09e667, 0x506e3058) == 0xba7816bf && Plus(0xbb67ae85, 0xd39a2165) == 0x8f01cfea;
    assert Plus(0x3c6ef372, 0x04d24d6c) == 0x414140de && Plus(0xa54ff53a, 0xb85e2ce9) == 0x5dae2223;
    assert Plus(0x510e527f, 0x5ef50f24) == 0xb00361a3 && Plus(0x9b05688c, 0xfb121210) == 0x96177a9c;
    assert Plus(0x1f83d9ab, 0x948d25b6) == 0xb410ff61 && Plus(0x5be0cd19, 0x961f4894) == 0xf20015ad;
    hide Plus;
  }

  const ABC_DIGEST: seq<Byte> :=
    [0xba, 0x78, 0x16, 0xbf] + [0x8f, 0x01, 0xcf, 0xea]
    + [0x41, 0x41, 0x40, 0xde] + [0x5d, 0xae, 0x22, 0x23]
    + [0xb0, 0x03, 0x61, 0xa3] + [0x96, 0x17, 0x7a, 0x9c]
    + [0xb4, 0x10, 0xff, 0x61] + [0xf2, 0x00, 0x15, 0xad]

  lemma AbcDigestBytes()
    ensures BytesOf(WordSeq(Regs(0xba7816bf, 0x8f01cfea, 0x414140de, 0x5dae2223,
                        0xb00361a3, 0x96177a9c, 0xb410ff61, 0xf20015ad))) == ABC_DIGEST
  {
    EightBytes(Regs(0xba7816bf, 0x8f01cfea, 0x414140de, 0x5dae2223,
                        0xb00361a3, 0x96177a9c, 0xb410ff61, 0xf20015ad));
    assert WordBytes(0xba7816bf) == [0xba, 0x78, 0x16, 0xbf];
    assert WordBytes(0x8f01cfea) == [0x8f, 0x01, 0xcf, 0xea];
    assert WordBytes(0x414140de) == [0x41, 0x41, 0x40, 0xde];
    assert WordBytes(0x5dae2223) == [0x5d, 0xae, 0x22, 0x23];
    assert WordBytes(0xb00361a3) == [0xb0, 0x03, 0x61, 0xa3];
    assert WordBytes(0x96177a9c) == [0x96, 0x17, 0x7a, 0x9c];
    assert WordBytes(0xb410ff61) == [0xb4, 0x10, 0xff, 0x61];
    assert WordBytes(0xf20015ad) == [0xf2, 0x00, 0x15, 0xad];
    hide WordBytes, BytesOf;
  }

  /** The digest of "abc". */
  lemma AbcDigest()
    ensures Digest(ABC) == ABC_DIGEST
  {
    var block := ABC + Padding(3);
    AbcLoaded(block);
    AbcCompressed(block);
    AbcSum();
    AbcDigestBytes();
    hide Padding, Compress, AddRegs, BytesOf, Abc, Row.Last, Loaded, HashBlocks;
    HashOneBlock(INITIAL_HASH, block);
  }

  // ---- "abcdbcdecdefdefgefghfghighijhijkijkljklmklmnlmnomnopnopq"

  const LONG0: seq<Byte> := [0x61, 0x62, 0x63, 0x64, 0x62, 0x63, 0x64, 0x65, 0x63, 0x64, 0x65, 0x66, 0x64, 0x65, 0x66, 0x67]
  const LONG1: seq<Byte> := [0x65, 0x66, 0x67, 0x68, 0x66, 0x67, 0x68, 0x69, 0x67, 0x68, 0x69, 0x6a, 0x68, 0x69, 0x6a, 0x6b]
  const LONG2: seq<Byte> := [0x69, 0x6a, 0x6b, 0x6c, 0x6a, 0x6b, 0x6c, 0x6d, 0x6b, 0x6c, 0x6d, 0x6e, 0x6c, 0x6d, 0x6e, 0x6f]
  const LONG3: seq<Byte> := [0x6d, 0x6e, 0x6f, 0x70, 0x6e, 0x6f, 0x70, 0x71]
  const LONG := LONG0 + LONG1 + LONG2 + LONG3

  const MIDDLE := Regs(0x85e655d6, 0x417a1795, 0x3363376a, 0x624cde5c,
                        0x76e09589, 0xcac5f811, 0xcc4b32c1, 0xf20e533a)

  /** The computation for the first block of it. */
  function Long(j: nat): Row
    requires j < 8
  {
    match j
    case 0 => Row(Eight(0x61626364, 0x62636465, 0x63646566, 0x64656667, 0x65666768, 0x66676869, 0x6768696a, 0x68696a6b),
                  Eight(0x5d6aebb1, 0x2f2d5fcf, 0x97651825, 0x4a8d64d5, 0xf921c212, 0x55c8ef48, 0x485835b7, 0xd237e6db),
                  Eight(0xfa2a4606, 0x4eb1cfce, 0x62d5c49e, 0x6494841b, 0x05c4f88a, 0x7ff91c94, 0x39a5b2ca, 0xa401d211))
    case 1 => Row(Eight(0x696a6b6c, 0x6a6b6c6d, 0x6b6c6d6e, 0x6c6d6e6f, 0x6d6e6f70, 0x6e6f7071, 0x80000000, 0x00000000),
                  Eight(0x359f2bce, 0x3a474b2b, 0xb8e2b4cb, 0x1762215c, 0x101a4861, 0xd68e6457, 0xdd16cbb3, 0xc3486194),
                  Eight(0xc09ffec4, 0x9037b3b8, 0x443ed29e, 0xee1c97a8, 0x839a0fc9, 0x9243f8af, 0x9162aded, 0x1496a54f))
    case 2 => Row(Eight(0xeb8012ad, 0xa7c3ae92, 0x76e93ba2, 0xba42e743, 0x92a92204, 0xd847e75e, 0x9e160036, 0xb280a7cb),
                  Eight(0xb9dcacb1, 0x046a193e, 0xf402f058, 0x2139187b, 0xd70ac17d, 0x1b2b66b8, 0xae2e2d4f, 0x59fce6b9),
                  Eight(0xd4f64250, 0x885370b6, 0x6f433549, 0x7c304206, 0x7cc6b262, 0xd560b028, 0xf074fc95, 0xa2c7d51d))
    case 3 => Row(Eight(0xddeb1516, 0xf36586f4, 0x969cd048, 0xe959d99d, 0x6accc0ec, 0xf54cb098, 0x2af1b2da, 0xee59c4c9),
                  Eight(0x4a885065, 0x573221da, 0x128661da, 0x73f858af, 0x74bcf468, 0xdf7151a0, 0xeb43f3ed, 0x5581ab07),
                  Eight(0x763597fb, 0x36e74eb4, 0x1162d575, 0xe77c797f, 0x72abaecd, 0x7629c961, 0x0635d880, 0xdf980085))
    case 4 => Row(Eight(0xa835e16a, 0x1dff4429, 0xd6e15959, 0xc397cd6e, 0x6f1801ca, 0x21574205, 0x35ff7a84, 0x9743ee78),
                  Eight(0x9fc905c8, 0x9ce5a62f, 0x1df8e885, 0x0786dce8, 0x2c55d3a6, 0xa985b4be, 0x91ac9d5d, 0x7e4d30b8),
                  Eight(0xa94d2af1, 0x6ef3b6bd, 0x2a9e048e, 0xde2a21d1, 0xb067c1af, 0xf72bf353, 0x68d8d590, 0x9f5b9b6d))
    case 5 => Row(Eight(0xe44183e7, 0x0d09f00d, 0x9c89af54, 0x042d5bef, 0x71f134d0, 0x0f94f463, 0x7e49dc63, 0x6f65c997),
                  Eight(0x7e056794, 0x508a16ab, 0xb62c7013, 0x167361de, 0xde71e2f2, 0x18f0d19d, 0x165be9cd, 0x13d82741),
                  Eight(0x423b26c0, 0x45459d97, 0x80a92a00, 0x41dd3844, 0xff61c636, 0x6b88472c, 0xa483f080, 0xa7802a4d))
    case 6 => Row(Eight(0x0b706583, 0x179312ca, 0x503054e9, 0xba125c39, 0x7e9392c9, 0xd5cbaa1e, 0x78e0585d, 0xf6e7611c),
                  Eight(0x017b9d99, 0x543c99a1, 0x758ca97a, 0x81c1cde0, 0xb8d55619, 0x1d6de87a, 0xf907b313, 0x9e57c4a0),
                  Eight(0xaeb10b60, 0x16f134b6, 0x100cf2ea, 0x5c47eb7b, 0x1c806a61, 0x3443bed4, 0x61a41711, 0xeec13548))
    case 7 => Row(Eight(0x8ac830ce, 0x8b47a303, 0xfd6e627f, 0x8c6e2c6a, 0x4001adf1, 0x1a3dd097, 0xa9df6f62, 0x6aa60a39),
                  Eight(0x71629856, 0x7c015a2c, 0x921fccb6, 0xe18f259a, 0xbcfce922, 0xf6f443f8, 0x86126910, 0x1bdc6f6f),
                  Eight(0x2f6c8c4e, 0xcb9d3dd0, 0x43d8a034, 0x51e15869, 0x962d8621, 0xacc75916, 0x2fc08f85, 0x25d2430a))
  }

  lemma LongRow0()
    ensures Long(0).Rounded(Cubic(0), INITIAL_HASH)
  {
    RowOf(0x428a2f98, 0x71374491, 0xb5c0fbcf, 0xe9b5dba5, 0x3956c25b, 0x59f111f1, 0x923f82a4, 0xab1c5ed5,
          0x61626364, 0x62636465, 0x63646566, 0x64656667, 0x65666768, 0x66676869, 0x6768696a, 0x68696a6b,
          0x6a09e667, 0xbb67ae85, 0x3c6ef372, 0xa54ff53a, 0x510e527f, 0x9b05688c, 0x1f83d9ab, 0x5be0cd19,
          0x5d6aebb1, 0x2f2d5fcf, 0x97651825, 0x4a8d64d5, 0xf921c212, 0x55c8ef48, 0x485835b7, 0xd237e6db,
          0xfa2a4606, 0x4eb1cfce, 0x62d5c49e, 0x6494841b, 0x05c4f88a, 0x7ff91c94, 0x39a5b2ca, 0xa401d211);
    hide Step, NextWord, Row.Rounded, Extended;
  }

  lemma LongRow1()
    ensures Long(1).Rounded(Cubic(1), Long(0).Last())
  {
    RowOf(0xd807aa98, 0x12835b01, 0x243185be, 0x550c7dc3, 0x72be5d74, 0x80deb1fe, 0x9bdc06a7, 0xc19bf174,
          0x696a6b6c, 0x6a6b6c6d, 0x6b6c6d6e, 0x6c6d6e6f, 0x6d6e6f70, 0x6e6f7071, 0x80000000, 0x00000000,
          0xd237e6db, 0x485835b7, 0x55c8ef48, 0xf921c212, 0xa401d211, 0x39a5b2ca, 0x7ff91c94, 0x05c4f88a,
          0x359f2bce, 0x3a474b2b, 0xb8e2b4cb, 0x1762215c, 0x101a4861, 0xd68e6457, 0xdd16cbb3, 0xc3486194,
          0xc09ffec4, 0x9037b3b8, 0x443ed29e, 0xee1c97a8, 0x839a0fc9, 0x9243f8af, 0x9162aded, 0x1496a54f);
    hide Step, NextWord, Row.Rounded, Extended;
  }

  lemma LongRow2()
    ensures Long(2).Next(Cubic(2), Long(0), Long(1))
  {
    RowOf(0xe49b69c1, 0xefbe4786, 0x0fc19dc6, 0x240ca1cc, 0x2de92c6f, 0x4a7484aa, 0x5cb0a9dc, 0x76f988da,
          0xeb8012ad, 0xa7c3ae92, 0x76e93ba2, 0xba42e743, 0x92a92204, 0xd847e75e, 0x9e160036, 0xb280a7cb,
          0xc3486194, 0xdd16cbb3, 0xd68e6457, 0x101a4861, 0x1496a54f, 0x9162aded, 0x9243f8af, 0x839a0fc9,
          0xb9dcacb1, 0x046a193e, 0xf402f058, 0x2139187b, 0xd70ac17d, 0x1b2b66b8, 0xae2e2d4f, 0x59fce6b9,
          0xd4f64250, 0x885370b6, 0x6f433549, 0x7c304206, 0x7cc6b262, 0xd560b028, 0xf074fc95, 0xa2c7d51d);
    WordsFrom(0x61626364, 0x62636465, 0x63646566, 0x64656667, 0x65666768, 0x66676869, 0x6768696a, 0x68696a6b,
              0x696a6b6c, 0x6a6b6c6d, 0x6b6c6d6e, 0x6c6d6e6f, 0x6d6e6f70, 0x6e6f7071, 0x80000000, 0x00000000,
              0xeb8012ad, 0xa7c3ae92, 0x76e93ba2, 0xba42e743, 0x92a92204, 0xd847e75e, 0x9e160036, 0xb280a7cb);
    hide Step, NextWord, Row.Rounded, Extended;
  }

  lemma LongRow3()
    ensures Long(3).Next(Cubic(3), Long(1), Long(2))
  {
    RowOf(0x983e5152, 0xa831c66d, 0xb00327c8, 0xbf597fc7, 0xc6e00bf3, 0xd5a79147, 0x06ca6351, 0x14292967,
          0xddeb1516, 0xf36586f4, 0x969cd048, 0xe959d99d, 0x6accc0ec, 0xf54cb098, 0x2af1b2da, 0xee59c4c9,
          0x59fce6b9, 0xae2e2d4f, 0x1b2b66b8, 0xd70ac17d, 0xa2c7d51d, 0xf074fc95, 0xd560b028, 0x7cc6b262,
          0x4a885065, 0x573221da, 0x128661da, 0x73f858af, 0x74bcf468, 0xdf7151a0, 0xeb43f3ed, 0x5581ab07,
          0x763597fb, 0x36e74eb4, 0x1162d575, 0xe77c797f, 0x72abaecd, 0x7629c961, 0x0635d880, 0xdf980085);
    WordsFrom(0x696a6b6c, 0x6a6b6c6d, 0x6b6c6d6e, 0x6c6d6e6f, 0x6d6e6f70, 0x6e6f7071, 0x80000000, 0x00000000,
              0xeb8012ad, 0xa7c3ae92, 0x76e93ba2, 0xba42e743, 0x92a92204, 0xd847e75e, 0x9e160036, 0xb280a7cb,
              0xddeb1516, 0xf36586f4, 0x969cd048, 0xe959d99d, 0x6accc0ec, 0xf54cb098, 0x2af1b2da, 0xee59c4c9);
    hide Step, NextWord, Row.Rounded, Extended;
  }

  lemma LongRow4()
    ensures Long(4).Next(Cubic(4), Long(2), Long(3))
  {
    RowOf(0x27b70a85, 0x2e1b2138, 0x4d2c6dfc, 0x53380d13, 0x650a7354, 0x766a0abb, 0x81c2c92e, 0x92722c85,
          0xa835e16a, 0x1dff4429, 0xd6e15959, 0xc397cd6e, 0x6f1801ca, 0x21574205, 0x35ff7a84, 0x9743ee78,
          0x5581ab07, 0xeb43f3ed, 0xdf7151a0, 0x74bcf468, 0xdf980085, 0x0635d880, 0x7629c961, 0x72abaecd,
          0x9fc905c8, 0x9ce5a62f, 0x1df8e885, 0x0786dce8, 0x2c55d3a6, 0xa985b4be, 0x91ac9d5d, 0x7e4d30b8,
          0xa94d2af1, 0x6ef3b6bd, 0x2a9e048e, 0xde2a21d1, 0xb067c1af, 0xf72bf353, 0x68d8d590, 0x9f5b9b6d);
    WordsFrom(0xeb8012ad, 0xa7c3ae92, 0x76e93ba2, 0xba42e743, 0x92a92204, 0xd847e75e, 0x9e160036, 0xb280a7cb,
              0xddeb1516, 0xf36586f4, 0x969cd048, 0xe959d99d, 0x6accc0ec, 0xf54cb098, 0x2af1b2da, 0xee59c4c9,
              0xa835e16a, 0x1dff4429, 0xd6e15959, 0xc397cd6e, 0x6f1801ca, 0x21574205, 0x35ff7a84, 0x9743ee78);
    hide Step, NextWord, Row.Rounded, Extended;
  }

  lemma LongRow5()
    ensures Long(5).Next(Cubic(5), Long(3), Long(4))
  {
    RowOf(0xa2bfe8a1, 0xa81a664b, 0xc24b8b70, 0xc76c51a3, 0xd192e819, 0xd6990624, 0xf40e3585, 0x106aa070,
          0xe44183e7, 0x0d09f00d, 0x9c89af54, 0x042d5bef, 0x71f134d0, 0x0f94f463, 0x7e49dc63, 0x6f65c997,
          0x7e4d30b8, 0x91ac9d5d, 0xa985b4be, 0x2c55d3a6, 0x9f5b9b6d, 0x68d8d590, 0xf72bf353, 0xb067c1af,
          0x7e056794, 0x508a16ab, 0xb62c7013, 0x167361de, 0xde71e2f2, 0x18f0d19d, 0x165be9cd, 0x13d82741,
          0x423b26c0, 0x45459d97, 0x80a92a00, 0x41dd3844, 0xff61c636, 0x6b88472c, 0xa483f080, 0xa7802a4d);
    WordsFrom(0xddeb1516, 0xf36586f4, 0x969cd048, 0xe959d99d, 0x6accc0ec, 0xf54cb098, 0x2af1b2da, 0xee59c4c9,
              0xa835e16a, 0x1dff4429, 0xd6e15959, 0xc397cd6e, 0x6f1801ca, 0x21574205, 0x35ff7a84, 0x9743ee78,
              0xe44183e7, 0x0d09f00d, 0x9c89af54, 0x042d5bef, 0x71f134d0, 0x0f94f463, 0x7e49dc63, 0x6f65c997);
    hide Step, NextWord, Row.Rounded, Extended;
  }

  lemma LongRow6()
    ensures Long(6).Next(Cubic(6), Long(4), Long(5))
  {
    RowOf(0x19a4c116, 0x1e376c08, 0x2748774c, 0x34b0bcb5, 0x391c0cb3, 0x4ed8aa4a, 0x5b9cca4f, 0x682e6ff3,
          0x0b706583, 0x179312ca, 0x503054e9, 0xba125c39, 0x7e9392c9, 0xd5cbaa1e, 0x78e0585d, 0xf6e7611c,
          0x13d82741, 0x165be9cd, 0x18f0d19d, 0xde71e2f2, 0xa7802a4d, 0xa483f080, 0x6b88472c, 0xff61c636,
          0x017b9d99, 0x543c99a1, 0x758ca97a, 0x81c1cde0, 0xb8d55619, 0x1d6de87a, 0xf907b313, 0x9e57c4a0,
          0xaeb10b60, 0x16f134b6, 0x100cf2ea, 0x5c47eb7b, 0x1c806a61, 0x3443bed4, 0x61a41711, 0xeec13548);
    WordsFrom(0xa835e16a, 0x1dff4429, 0xd6e15959, 0xc397cd6e, 0x6f1801ca, 0x21574205, 0x35ff7a84, 0x9743ee78,
              0xe44183e7, 0x0d09f00d, 0x9c89af54, 0x042d5bef, 0x71f134d0, 0x0f94f463, 0x7e49dc63, 0x6f65c997,
              0x0b706583, 0x179312ca, 0x503054e9, 0xba125c39, 0x7e9392c9, 0xd5cbaa1e, 0x78e0585d, 0xf6e7611c);
    hide Step, NextWord, Row.Rounded, Extended;
  }

  lemma LongRow7()
    ensures Long(7).Next(Cubic(7), Long(5), Long(6))
  {
    RowOf(0x748f82ee, 0x78a5636f, 0x84c87814, 0x8cc70208, 0x90befffa, 0xa4506ceb, 0xbef9a3f7, 0xc67178f2,
          0x8ac830ce, 0x8b47a303, 0xfd6e627f, 0x8c6e2c6a, 0x4001adf1, 0x1a3dd097, 0xa9df6f62, 0x6aa60a39,
          0x9e57c4a0, 0xf907b313, 0x1d6de87a, 0xb8d55619, 0xeec13548, 0x61a41711, 0x3443bed4, 0x1c806a61,
          0x71629856, 0x7c015a2c, 0x921fccb6, 0xe18f259a, 0xbcfce922, 0xf6f443f8, 0x86126910, 0x1bdc6f6f,
          0x2f6c8c4e, 0xcb9d3dd0, 0x43d8a034, 0x51e15869, 0x962d8621, 0xacc75916, 0x2fc08f85, 0x25d2430a);
    WordsFrom(0xe44183e7, 0x0d09f00d, 0x9c89af54, 0x042d5bef, 0x71f134d0, 0x0f94f463, 0x7e49dc63, 0x6f65c997,
              0x0b706583, 0x179312ca, 0x503054e9, 0xba125c39, 0x7e9392c9, 0xd5cbaa1e, 0x78e0585d, 0xf6e7611c,
              0x8ac830ce, 0x8b47a303, 0xfd6e627f, 0x8c6e2c6a, 0x4001adf1, 0x1a3dd097, 0xa9df6f62, 0x6aa60a39);
    hide Step, NextWord, Row.Rounded, Extended;
  }

  lemma LongCompressed(block: seq<Byte>)
    requires |block| == 64 && Loaded(block, Long(0).w, 0) && Loaded(block, Long(1).w, 8)
    ensures Compress(INITIAL_HASH, block) == AddRegs(INITIAL_HASH, Long(7).Last())
  {
    hide WordAt, Row.Rounded, Row.Next, Row.Last, Long, Cubic, Loaded, Compress, AddRegs, Constants;
    var rows := seq(8, j requires 0 <= j < 8 => Long(j));
    LongRow0();
    LongRow1();
    LongRow2();
    LongRow3();
    LongRow4();
    LongRow5();
    LongRow6();
    LongRow7();
    forall j | 2 <= j < 8
      ensures rows[j].Next(CubicRows()[j], rows[j - 2], rows[j - 1])
    {
      assert j == 2 || j == 3 || j == 4 || j == 5 || j == 6 || j == 7;
    }
    CubicsAreConstants();
    TraceCompresses(INITIAL_HASH, block, rows, CubicRows());
  }

  /** The computation for the second block. */
  function Rest(j: nat): Row
    requires j < 8
  {
    match j
    case 0 => Row(Eight(0x00000000, 0x00000000, 0x00000000, 0x00000000, 0x00000000, 0x00000000, 0x00000000, 0x00000000),
                  Eight(0x7c20c838, 0x7c3c0f86, 0xfd1eebdc, 0xf268faa9, 0x185a5d79, 0x3eeb6c06, 0x89bba3f1, 0xbf9a93a0),
                  Eight(0x4670ae6e, 0x8c51be64, 0xaf71b9ea, 0xe20362ef, 0x8dff3001, 0xfe20cda6, 0x0a34df03, 0x059abdd1))
    case 1 => Row(Eight(0x00000000, 0x00000000, 0x00000000, 0x00000000, 0x00000000, 0x00000000, 0x00000000, 0x000001c0),
                  Eight(0x2c096744, 0x2d964e86, 0x5b35025b, 0x5eb4ec40, 0x35ee996d, 0xd74080fa, 0x0cea5cbc, 0x16a8cc79),
                  Eight(0xabfa465b, 0xaa27ed82, 0x10e77723, 0xe11b4548, 0x5c24e2a2, 0x68aa893f, 0x60356548, 0x0fcb1f6f))
    case 2 => Row(Eight(0x00000000, 0x00d80000, 0x00000000, 0x00003677, 0x00000000, 0x1df5600d, 0x000001c0, 0x1c00501c),
                  Eight(0xf16f634e, 0x23dcb6c2, 0xdcff40fd, 0x76f1a2bc, 0x20aad899, 0xd44dc81a, 0xf13ae55b, 0xa4195b91),
                  Eight(0x8b21cdc1, 0xca9182d3, 0x69bf7b95, 0x0dc84bb1, 0xcc4769f2, 0x5bace62d, 0x966aa287, 0xeddbd6ed))
    case 3 => Row(Eight(0x01b00000, 0x220a8d94, 0x0000a365, 0x177017e7, 0x63d38035, 0x090ab713, 0x4c7539ca, 0x0f19a8c9),
                  Eight(0x4984fa79, 0xaa6cb982, 0x9450fbbc, 0x0d936bab, 0xd958b529, 0x1cfa5eb0, 0x02ef3a5f, 0xb0eab1c5),
                  Eight(0xa530d939, 0x0b5eeea4, 0x09166dda, 0x6e495d4b, 0xc2fa99b1, 0x6c49db9f, 0x5da10665, 0xf6d93952))
    case 4 => Row(Eight(0x5df4b0c4, 0xe257036a, 0xc97bb6f1, 0xc5b46f4d, 0xf8253c4e, 0xa558d189, 0x78696285, 0xed07117f),
                  Eight(0x0bfba73c, 0x4bd1df96, 0x9907f1b6, 0xecde4e0d, 0x2f11c939, 0xd949682b, 0xadca7a96, 0x221b8a5a),
                  Eight(0x8b99e3a9, 0x905e44ac, 0x66c3043d, 0x5dc119e6, 0xfed4ce1d, 0x32d99008, 0xc6cce4ff, 0x0b82c5eb))
    case 5 => Row(Eight(0x107358f6, 0x390ae496, 0x565010a2, 0xc51d7d44, 0x9e74c972, 0x6614b561, 0x30fc129d, 0x9ac684a8),
                  Eight(0x12d97845, 0x2c794876, 0x8300fca2, 0xf2ad6322, 0x0f154e11, 0x104a7db4, 0x0b3303a7, 0xd7354d5b),
                  Eight(0xe4213ca2, 0xff6759ba, 0xe0e3457c, 0xcc48c7f3, 0x6f9517cb, 0x5348e8f6, 0xbbe1c39a, 0xaad55b6b))
    case 6 => Row(Eight(0x2b658dbd, 0xe290f793, 0x9eebb24c, 0x9713b5de, 0x41061ab7, 0xe022e23b, 0x0772079e, 0x7de22d9c),
                  Eight(0xb736d7a6, 0x2748e5ec, 0xd8aabcf9, 0x1a6bcf6a, 0x4eca6fa0, 0xec02560a, 0xd9f0c115, 0x92952710),
                  Eight(0x68f25260, 0xd4b58576, 0x27844711, 0xff5e99d0, 0x989ed071, 0x7151df8e, 0x624150c4, 0x226806d6))
    case 7 => Row(Eight(0xc8b83778, 0x75a79849, 0xd93dbddb, 0x0a036c9d, 0xcb4f6ac6, 0x823f97e2, 0xea2f2a7a, 0xb9018b52),
                  Eight(0x20d4d0e4, 0x4348eb1f, 0x286fe5f0, 0x1c4cddd9, 0xa9f181dd, 0xb25cef29, 0x908c2123, 0x9ea7148b),
                  Eight(0x4e515a4d, 0xc21eddf9, 0x54076664, 0xf487a853, 0x27ccb387, 0x2aa1bb13, 0x9a392956, 0x2c5c4ed0))
  }

  lemma RestRow0()
    ensures Rest(0).Rounded(Cubic(0), MIDDLE)
  {
    RowOf(0x428a2f98, 0x71374491, 0xb5c0fbcf, 0xe9b5dba5, 0x3956c25b, 0x59f111f1, 0x923f82a4, 0xab1c5ed5,
          0x00000000, 0x00000000, 0x00000000, 0x00000000, 0x00000000, 0x00000000, 0x00000000, 0x00000000,
          0x85e655d6, 0x417a1795, 0x3363376a, 0x624cde5c, 0x76e09589, 0xcac5f811, 0xcc4b32c1, 0xf20e533a,
          0x7c20c838, 0x7c3c0f86, 0xfd1eebdc, 0xf268faa9, 0x185a5d79, 0x3eeb6c06, 0x89bba3f1, 0xbf9a93a0,
          0x4670ae6e, 0x8c51be64, 0xaf71b9ea, 0xe20362ef, 0x8dff3001, 0xfe20cda6, 0x0a34df03, 0x059abdd1);
    hide Step, NextWord, Row.Rounded, Extended;
  }

  lemma RestRow1()
    ensures Rest(1).Rounded(Cubic(1), Rest(0).Last())
  {
    RowOf(0xd807aa98, 0x12835b01, 0x243185be, 0x550c7dc3, 0x72be5d74, 0x80deb1fe, 0x9bdc06a7, 0xc19bf174,
          0x00000000, 0x00000000, 0x00000000, 0x00000000, 0x00000000, 0x00000000, 0x00000000, 0x000001c0,
          0xbf9a93a0, 0x89bba3f1, 0x3eeb6c06, 0x185a5d79, 0x059abdd1, 0x0a34df03, 0xfe20cda6, 0x8dff3001,
          0x2c096744, 0x2d964e86, 0x5b35025b, 0x5eb4ec40, 0x35ee996d, 0xd74080fa, 0x0cea5cbc, 0x16a8cc79,
          0xabfa465b, 0xaa27ed82, 0x10e77723, 0xe11b4548, 0x5c24e2a2, 0x68aa893f, 0x60356548, 0x0fcb1f6f);
    hide Step, NextWord, Row.Rounded, Extended;
  }

  lemma RestRow2()
    ensures Rest(2).Next(Cubic(2), Rest(0), Rest(1))
  {
    RowOf(0xe49b69c1, 0xefbe4786, 0x0fc19dc6, 0x240ca1cc, 0x2de92c6f, 0x4a7484aa, 0x5cb0a9dc, 0x76f988da,
          0x00000000, 0x00d80000, 0x00000000, 0x00003677, 0x00000000, 0x1df5600d, 0x000001c0, 0x1c00501c,
          0x16a8cc79, 0x0cea5cbc, 0xd74080fa, 0x35ee996d, 0x0fcb1f6f, 0x60356548, 0x68aa893f, 0x5c24e2a2,
          0xf16f634e, 0x23dcb6c2, 0xdcff40fd, 0x76f1a2bc, 0x20aad899, 0xd44dc81a, 0xf13ae55b, 0xa4195b91,
          0x8b21cdc1, 0xca9182d3, 0x69bf7b95, 0x0dc84bb1, 0xcc4769f2, 0x5bace62d, 0x966aa287, 0xeddbd6ed);
    WordsFrom(0x00000000, 0x00000000, 0x00000000, 0x00000000, 0x00000000, 0x00000000, 0x00000000, 0x00000000,
              0x00000000, 0x00000000, 0x00000000, 0x00000000, 0x00000000, 0x00000000, 0x00000000, 0x000001c0,
              0x00000000, 0x00d80000, 0x00000000, 0x00003677, 0x00000000, 0x1df5600d, 0x000001c0, 0x1c00501c);
    hide Step, NextWord, Row.Rounded, Extended;
  }

  lemma RestRow3()
    ensures Rest(3).Next(Cubic(3), Rest(1), Rest(2))
  {
    RowOf(0x983e5152, 0xa831c66d, 0xb00327c8, 0xbf597fc7, 0xc6e00bf3, 0xd5a79147, 0x06ca6351, 0x14292967,
          0x01b00000, 0x220a8d94, 0x0000a365, 0x177017e7, 0x63d38035, 0x090ab713, 0x4c7539ca, 0x0f19a8c9,
          0xa4195b91, 0xf13ae55b, 0xd44dc81a, 0x20aad899, 0xeddbd6ed, 0x966aa287, 0x5bace62d, 0xcc4769f2,
          0x4984fa79, 0xaa6cb982, 0x9450fbbc, 0x0d936bab, 0xd958b529, 0x1cfa5eb0, 0x02ef3a5f, 0xb0eab1c5,
          0xa530d939, 0x0b5eeea4, 0x09166dda, 0x6e495d4b, 0xc2fa99b1, 0x6c49db9f, 0x5da10665, 0xf6d93952);
    WordsFrom(0x00000000, 0x00000000, 0x00000000, 0x00000000, 0x00000000, 0x00000000, 0x00000000, 0x000001c0,
              0x00000000, 0x00d80000, 0x00000000, 0x00003677, 0x00000000, 0x1df5600d, 0x000001c0, 0x1c00501c,
              0x01b00000, 0x220a8d94, 0x0000a365, 0x177017e7, 0x63d38035, 0x090ab713, 0x4c7539ca, 0x0f19a8c9);
    hide Step, NextWord, Row.Rounded, Extended;
  }

  lemma RestRow4()
    ensures Rest(4).Next(Cubic(4), Rest(2), Rest(3))
  {
    RowOf(0x27b70a85, 0x2e1b2138, 0x4d2c6dfc, 0x53380d13, 0x650a7354, 0x766a0abb, 0x81c2c92e, 0x92722c85,
          0x5df4b0c4, 0xe257036a, 0xc97bb6f1, 0xc5b46f4d, 0xf8253c4e, 0xa558d189, 0x78696285, 0xed07117f,
          0xb0eab1c5, 0x02ef3a5f, 0x1cfa5eb0, 0xd958b529, 0xf6d93952, 0x5da10665, 0x6c49db9f, 0xc2fa99b1,
          0x0bfba73c, 0x4bd1df96, 0x9907f1b6, 0xecde4e0d, 0x2f11c939, 0xd949682b, 0xadca7a96, 0x221b8a5a,
          0x8b99e3a9, 0x905e44ac, 0x66c3043d, 0x5dc119e6, 0xfed4ce1d, 0x32d99008, 0xc6cce4ff, 0x0b82c5eb);
    WordsFrom(0x00000000, 0x00d80000, 0x00000000, 0x00003677, 0x00000000, 0x1df5600d, 0x000001c0, 0x1c00501c,
              0x01b00000, 0x220a8d94, 0x0000a365, 0x177017e7, 0x63d38035, 0x090ab713, 0x4c7539ca, 0x0f19a8c9,
              0x5df4b0c4, 0xe257036a, 0xc97bb6f1, 0xc5b46f4d, 0xf8253c4e, 0xa558d189, 0x78696285, 0xed07117f);
    hide Step, NextWord, Row.Rounded, Extended;
  }

  lemma RestRow5()
    ensures Rest(5).Next(Cubic(5), Rest(3), Rest(4))
  {
    RowOf(0xa2bfe8a1, 0xa81a664b, 0xc24b8b70, 0xc76c51a3, 0xd192e819, 0xd6990624, 0xf40e3585, 0x106aa070,
          0x107358f6, 0x390ae496, 0x565010a2, 0xc51d7d44, 0x9e74c972, 0x6614b561, 0x30fc129d, 0x9ac684a8,
          0x221b8a5a, 0xadca7a96, 0xd949682b, 0x2f11c939, 0x0b82c5eb, 0xc6cce4ff, 0x32d99008, 0xfed4ce1d,
          0x12d97845, 0x2c794876, 0x8300fca2, 0xf2ad6322, 0x0f154e11, 0x104a7db4, 0x0b3303a7, 0xd7354d5b,
          0xe4213ca2, 0xff6759ba, 0xe0e3457c, 0xcc48c7f3, 0x6f9517cb, 0x5348e8f6, 0xbbe1c39a, 0xaad55b6b);
    WordsFrom(0x01b00000, 0x220a8d94, 0x0000a365, 0x177017e7, 0x63d38035, 0x090ab713, 0x4c7539ca, 0x0f19a8c9,
              0x5df4b0c4, 0xe257036a, 0xc97bb6f1, 0xc5b46f4d, 0xf8253c4e, 0xa558d189, 0x78696285, 0xed07117f,
              0x107358f6, 0x390ae496, 0x565010a2, 0xc51d7d44, 0x9e74c972, 0x6614b561, 0x30fc129d, 0x9ac684a8);
    hide Step, NextWord, Row.Rounded, Extended;
  }

  lemma RestRow6()
    ensures Rest(6).Next(Cubic(6), Rest(4), Rest(5))
  {
    RowOf(0x19a4c116, 0x1e376c08, 0x2748774c, 0x34b0bcb5, 0x391c0cb3, 0x4ed8aa4a, 0x5b9cca4f, 0x682e6ff3,
          0x2b658dbd, 0xe290f793, 0x9eebb24c, 0x9713b5de, 0x41061ab7, 0xe022e23b, 0x0772079e, 0x7de22d9c,
          0xd7354d5b, 0x0b3303a7, 0x104a7db4, 0x0f154e11, 0xaad55b6b, 0xbbe1c39a, 0x5348e8f6, 0x6f9517cb,
          0xb736d7a6, 0x2748e5ec, 0xd8aabcf9, 0x1a6bcf6a, 0x4eca6fa0, 0xec02560a, 0xd9f0c115, 0x92952710,
          0x68f25260, 0xd4b58576, 0x27844711, 0xff5e99d0, 0x989ed071, 0x7151df8e, 0x624150c4, 0x226806d6);
    WordsFrom(0x5df4b0c4, 0xe257036a, 0xc97bb6f1, 0xc5b46f4d, 0xf8253c4e, 0xa558d189, 0x78696285, 0xed07117f,
              0x107358f6, 0x390ae496, 0x565010a2, 0xc51d7d44, 0x9e74c972, 0x6614b561, 0x30fc129d, 0x9ac684a8,
              0x2b658dbd, 0xe290f793, 0x9eebb24c, 0x9713b5de, 0x41061ab7, 0xe022e23b, 0x0772079e, 0x7de22d9c);
    hide Step, NextWord, Row.Rounded, Extended;
  }

  lemma RestRow7()
    ensures Rest(7).Next(Cubic(7), Rest(5), Rest(6))
  {
    RowOf(0x748f82ee, 0x78a5636f, 0x84c87814, 0x8cc70208, 0x90befffa, 0xa4506ceb, 0xbef9a3f7, 0xc67178f2,
          0xc8b83778, 0x75a79849, 0xd93dbddb, 0x0a036c9d, 0xcb4f6ac6, 0x823f97e2, 0xea2f2a7a, 0xb9018b52,
          0x92952710, 0xd9f0c115, 0xec02560a, 0x4eca6fa0, 0x226806d6, 0x624150c4, 0x7151df8e, 0x989ed071,
          0x20d4d0e4, 0x4348eb1f, 0x286fe5f0, 0x1c4cddd9, 0xa9f181dd, 0xb25cef29, 0x908c2123, 0x9ea7148b,
          0x4e515a4d, 0xc21eddf9, 0x54076664, 0xf487a853, 0x27ccb387, 0x2aa1bb13, 0x9a392956, 0x2c5c4ed0);
    WordsFrom(0x107358f6, 0x390ae496, 0x565010a2, 0xc51d7d44, 0x9e74c972, 0x6614b561, 0x30fc129d, 0x9ac684a8,
              0x2b658dbd, 0xe290f793, 0x9eebb24c, 0x9713b5de, 0x41061ab7, 0xe022e23b, 0x0772079e, 0x7de22d9c,
              0xc8b83778, 0x75a79849, 0xd93dbddb, 0x0a036c9d, 0xcb4f6ac6, 0x823f97e2, 0xea2f2a7a, 0xb9018b52);
    hide Step, NextWord, Row.Rounded, Extended;
  }

  lemma RestCompressed(block: seq<Byte>)
    requires |block| == 64 && Loaded(block, Rest(0).w, 0) && Loaded(block, Rest(1).w, 8)
    ensures Compress(MIDDLE, block) == AddRegs(MIDDLE, Rest(7).Last())
  {
    hide WordAt, Row.Rounded, Row.Next, Row.Last, Rest, Cubic, Loaded, Compress, AddRegs, Constants;
    var rows := seq(8, j requires 0 <= j < 8 => Rest(j));
    RestRow0();
    RestRow1();
    RestRow2();
    RestRow3();
    RestRow4();
    RestRow5();
    RestRow6();
    RestRow7();
    forall j | 2 <= j < 8
      ensures rows[j].Next(CubicRows()[j], rows[j - 2], rows[j - 1])
    {
      assert j == 2 || j == 3 || j == 4 || j == 5 || j == 6 || j == 7;
    }
    CubicsAreConstants();
    TraceCompresses(MIDDLE, block, rows, CubicRows());
  }

  lemma LongSum()
    ensures AddRegs(INITIAL_HASH, Long(7).Last()) == MIDDLE
  {
    assert Plus(0x6a09e667, 0x1bdc6f6f) == 0x85e655d6 && Plus(0xbb67ae85, 0x86126910) == 0x417a1795;
    assert Plus(0x3c6ef372, 0xf6f443f8) == 0x3363376a && Plus(0xa54ff53a, 0xbcfce922) == 0x624cde5c;
    assert Plus(0x510e527f, 0x25d2430a) == 0x76e09589 && Plus(0x9b05688c, 0x2fc08f85) == 0xcac5f811;
    assert Plus(0x1f83d9ab, 0xacc75916) == 0xcc4b32c1 && Plus(0x5be0cd19, 0x962d8621) == 0xf20e533a;
    hide Plus;
  }

  lemma RestSum()
    ensures AddRegs(MIDDLE, Rest(7).Last()) == Regs(0x248d6a61, 0xd20638b8, 0xe5c02693, 0x0c3e6039,
                        0xa33ce459, 0x64ff2167, 0xf6ecedd4, 0x19db06c1)
  {
    assert Plus(0x85e655d6, 0x9ea7148b) == 0x248d6a61 && Plus(0x417a1795, 0x908c2123) == 0xd20638b8;
    assert Plus(0x3363376a, 0xb25cef29) == 0xe5c02693 && Plus(0x624cde5c, 0xa9f181dd) == 0x0c3e6039;
    assert Plus(0x76e09589, 0x2c5c4ed0) == 0xa33ce459 && Plus(0xcac5f811, 0x9a392956) == 0x64ff2167;
    assert Plus(0xcc4b32c1, 0x2aa1bb13) == 0xf6ecedd4 && Plus(0xf20e533a, 0x27ccb387) == 0x19db06c1;
    hide Plus;
  }

  const LONG_DIGEST: seq<Byte> :=
    [0x24, 0x8d, 0x6a, 0x61] + [0xd2, 0x06, 0x38, 0xb8]
    + [0xe5, 0xc0, 0x26, 0x93] + [0x0c, 0x3e, 0x60, 0x39]
    + [0xa3, 0x3c, 0xe4, 0x59] + [0x64, 0xff, 0x21, 0x67]
    + [0xf6, 0xec, 0xed, 0xd4] + [0x19, 0xdb, 0x06, 0xc1]

  lemma LongDigestBytes()
    ensures BytesOf(WordSeq(Regs(0x248d6a61, 0xd20638b8, 0xe5c02693, 0x0c3e6039,
                        0xa33ce459, 0x64ff2167, 0xf6ecedd4, 0x19db06c1))) == LONG_DIGEST
  {
    EightBytes(Regs(0x248d6a61, 0xd20638b8, 0xe5c02693, 0x0c3e6039,
                        0xa33ce459, 0x64ff2167, 0xf6ecedd4, 0x19db06c1));
    assert WordBytes(0x248d6a61) == [0x24, 0x8d, 0x6a, 0x61];
    assert WordBytes(0xd20638b8) == [0xd2, 0x06, 0x38, 0xb8];
    assert WordBytes(0xe5c02693) == [0xe5, 0xc0, 0x26, 0x93];
    assert WordBytes(0x0c3e6039) == [0x0c, 0x3e, 0x60, 0x39];
    assert WordBytes(0xa33ce459) == [0xa3, 0x3c, 0xe4, 0x59];
    assert WordBytes(0x64ff2167) == [0x64, 0xff, 0x21, 0x67];
    assert WordBytes(0xf6ecedd4) == [0xf6, 0xec, 0xed, 0xd4];
    assert WordBytes(0x19db06c1) == [0x19, 0xdb, 0x06, 0xc1];
    hide WordBytes, BytesOf;
  }

  lemma LongLength()
    ensures LengthBytes(448) == [0, 0, 0, 0, 0, 0, 1, 0xc0] && ZeroCount(56) == 63
  {
    LengthIs(448, 1, 0xc0);
  }

  lemma LongBytes(data: seq<Byte>)
    requires data == LONG + Padding(56)
    ensures |data| == 128 && data[..56] == LONG && data[56] == 0x80
    ensures (forall i | 57 <= i < 126 :: data[i] == 0) && data[126] == 1 && data[127] == 0xc0
  {
    assert |LONG| == 56;
    LongLength();
    hide LengthBytes, Padding, ZeroCount;
    PaddedBytes(LONG, 56, 63, 1, 0xc0, data);
    hide *;
  }

  lemma PieceWord(data: seq<Byte>, at: nat, piece: seq<Byte>, i: nat, b0: Byte, b1: Byte, b2: Byte, b3: Byte)
    requires 4 * at + |piece| <= |data| && data[4 * at..4 * at + |piece|] == piece && 4 * i + 4 <= |piece|
    requires piece[4 * i] == b0 && piece[4 * i + 1] == b1 && piece[4 * i + 2] == b2 && piece[4 * i + 3] == b3
    ensures WordAt(data, at + i) == WordOf(b0, b1, b2, b3)
  {
    hide WordOf;
    assert forall k | 0 <= k < |piece| :: data[4 * at + k] == piece[k];
    WordFrom(data, at + i, b0, b1, b2, b3);
  }

  lemma LongPieces(data: seq<Byte>)
    requires |data| >= 56 && data[..56] == LONG
    ensures data[0..16] == LONG0 && data[16..32] == LONG1 && data[32..48] == LONG2 && data[48..56] == LONG3
  {
    assert |LONG0| == |LONG1| == |LONG2| == 16 && |LONG3| == 8;
    hide *;
    assert data[..56][0..16] == LONG0 && data[..56][16..32] == LONG1 && data[..56][32..48] == LONG2 && data[..56][48..56] == LONG3;
  }

  lemma LongWords0(data: seq<Byte>)
    requires |data| >= 56 && data[..56] == LONG
    ensures WordAt(data, 0) == WordOf(0x61, 0x62, 0x63, 0x64)
    ensures WordAt(data, 1) == WordOf(0x62, 0x63, 0x64, 0x65)
    ensures WordAt(data, 2) == WordOf(0x63, 0x64, 0x65, 0x66)
    ensures WordAt(data, 3) == WordOf(0x64, 0x65, 0x66, 0x67)
  {
    hide WordOf, WordAt;
    LongPieces(data);
    PieceWord(data, 0, LONG0, 0, 0x61, 0x62, 0x63, 0x64);
    PieceWord(data, 0, LONG0, 1, 0x62, 0x63, 0x64, 0x65);
    PieceWord(data, 0, LONG0, 2, 0x63, 0x64, 0x65, 0x66);
    PieceWord(data, 0, LONG0, 3, 0x64, 0x65, 0x66, 0x67);
  }

  lemma LongWords1(data: seq<Byte>)
    requires |data| >= 56 && data[..56] == LONG
    ensures WordAt(data, 4) == WordOf(0x65, 0x66, 0x67, 0x68)
    ensures WordAt(data, 5) == WordOf(0x66, 0x67, 0x68, 0x69)
    ensures WordAt(data, 6) == WordOf(0x67, 0x68, 0x69, 0x6a)
    ensures WordAt(data, 7) == WordOf(0x68, 0x69, 0x6a, 0x6b)
  {
    hide WordOf, WordAt;
    LongPieces(data);
    PieceWord(data, 4, LONG1, 0, 0x65, 0x66, 0x67, 0x68);
    PieceWord(data, 4, LONG1, 1, 0x66, 0x67, 0x68, 0x69);
    PieceWord(data, 4, LONG1, 2, 0x67, 0x68, 0x69, 0x6a);
    PieceWord(data, 4, LONG1, 3, 0x68, 0x69, 0x6a, 0x6b);
  }

  lemma LongWords2(data: seq<Byte>)
    requires |data| >= 56 && data[..56] == LONG
    ensures WordAt(data, 8) == WordOf(0x69, 0x6a, 0x6b, 0x6c)
    ensures WordAt(data, 9) == WordOf(0x6a, 0x6b, 0x6c, 0x6d)
    ensures WordAt(data, 10) == WordOf(0x6b, 0x6c, 0x6d, 0x6e)
    ensures WordAt(data, 11) == WordOf(0x6c, 0x6d, 0x6e, 0x6f)
  {
    hide WordOf, WordAt;
    LongPieces(data);
    PieceWord(data, 8, LONG2, 0, 0x69, 0x6a, 0x6b, 0x6c);
    PieceWord(data, 8, LONG2, 1, 0x6a, 0x6b, 0x6c, 0x6d);
    PieceWord(data, 8, LONG2, 2, 0x6b, 0x6c, 0x6d, 0x6e);
    PieceWord(data, 8, LONG2, 3, 0x6c, 0x6d, 0x6e, 0x6f);
  }

  lemma LongWords3(data: seq<Byte>)
    requires |data| >= 56 && data[..56] == LONG
    ensures WordAt(data, 12) == WordOf(0x6d, 0x6e, 0x6f, 0x70)
    ensures WordAt(data, 13) == WordOf(0x6e, 0x6f, 0x70, 0x71)
  {
    hide WordOf, WordAt;
    LongPieces(data);
    PieceWord(data, 12, LONG3, 0, 0x6d, 0x6e, 0x6f, 0x70);
    PieceWord(data, 12, LONG3, 1, 0x6e, 0x6f, 0x70, 0x71);
  }

  lemma LongRows()
    ensures Long(0).w == Eight(WordOf(0x61, 0x62, 0x63, 0x64), WordOf(0x62, 0x63, 0x64, 0x65),
            WordOf(0x63, 0x64, 0x65, 0x66), WordOf(0x64, 0x65, 0x66, 0x67),
            WordOf(0x65, 0x66, 0x67, 0x68), WordOf(0x66, 0x67, 0x68, 0x69),
            WordOf(0x67, 0x68, 0x69, 0x6a), WordOf(0x68, 0x69, 0x6a, 0x6b))
    ensures Long(1).w == Eight(WordOf(0x69, 0x6a, 0x6b, 0x6c), WordOf(0x6a, 0x6b, 0x6c, 0x6d),
            WordOf(0x6b, 0x6c, 0x6d, 0x6e), WordOf(0x6c, 0x6d, 0x6e, 0x6f),
            WordOf(0x6d, 0x6e, 0x6f, 0x70), WordOf(0x6e, 0x6f, 0x70, 0x71),
            WordOf(0x80, 0x00, 0x00, 0x00), WordOf(0x00, 0x00, 0x00, 0x00))
    ensures Rest(0).w == Eight(0, 0, 0, 0, 0, 0, 0, 0) && Rest(1).w == Eight(0, 0, 0, 0, 0, 0, 0, WordOf(0, 0, 1, 0xc0))
  {
  }

  lemma LongLoaded(data: seq<Byte>)
    requires data == LONG + Padding(56)
    ensures |data| == 128 && Loaded(data[..64], Long(0).w, 0) && Loaded(data[..64], Long(1).w, 8)
    ensures Loaded(data[64..], Rest(0).w, 0) && Loaded(data[64..], Rest(1).w, 8)
  {
    LongBytes(data);
    LongRows();
    var first, rest := data[..64], data[64..];
    hide Padding, WordAt, WordOf, Long, Rest;
    assert first[..56] == LONG;
    LongWords0(first);
    LongWords1(first);
    LongWords2(first);
    LongWords3(first);
    WordFrom(first, 14, 0x80, 0, 0, 0);
    WordFrom(first, 15, 0, 0, 0, 0);
    ZeroWords(rest, 0, 15);
    WordFrom(rest, 15, 0, 0, 1, 0xc0);
  }

  /** The digest of a message of two blocks. */
  lemma LongDigest()
    ensures Digest(LONG) == LONG_DIGEST
  {
    var data := LONG + Padding(56);
    LongLoaded(data);
    LongCompressed(data[..64]);
    LongSum();
    RestCompressed(data[64..]);
    RestSum();
    LongDigestBytes();
    hide Padding, Compress, AddRegs, BytesOf, Long, Rest, Row.Last, Loaded;
    TwoBlocks(INITIAL_HASH, data);
  }

  lemma TwoBlocks(init: Regs, data: seq<Byte>)
    requires |data| == 128
    ensures HashBlocks(init, data) == Compress(Compress(init, data[..64]), data[64..])
  {
    hide Compress;
    HashOneBlock(Compress(init, data[..64]), data[64..]);
  }

  // ---- The hasher object

  const ABC_TEXT :=
    "ba7816bf" + "8f01cfea"
    + "414140de" + "5dae2223"
    + "b00361a3" + "96177a9c"
    + "b410ff61" + "f20015ad"

  lemma AbcText0(p: seq<Byte>)
    ensures Sha256Stream.HexString(p + [0xba, 0x78, 0x16, 0xbf]) == Sha256Stream.HexString(p) + "ba7816bf"
  {
    Sha256Stream.HexOfFour(p, 0xba, 0x78, 0x16, 0xbf);
    hide Sha256Stream.HexString;
    assert Sha256Stream.ByteHex(0xba) == "ba" && Sha256Stream.ByteHex(0x78) == "78";
    assert Sha256Stream.ByteHex(0x16) == "16" && Sha256Stream.ByteHex(0xbf) == "bf";
  }

  lemma AbcText1(p: seq<Byte>)
    ensures Sha256Stream.HexString(p + [0x8f, 0x01, 0xcf, 0xea]) == Sha256Stream.HexString(p) + "8f01cfea"
  {
    Sha256Stream.HexOfFour(p, 0x8f, 0x01, 0xcf, 0xea);
    hide Sha256Stream.HexString;
    assert Sha256Stream.ByteHex(0x8f) == "8f" && Sha256Stream.ByteHex(0x01) == "01";
    assert Sha256Stream.ByteHex(0xcf) == "cf" && Sha256Stream.ByteHex(0xea) == "ea";
  }

  lemma AbcText2(p: seq<Byte>)
    ensures Sha256Stream.HexString(p + [0x41, 0x41, 0x40, 0xde]) == Sha256Stream.HexString(p) + "414140de"
  {
    Sha256Stream.HexOfFour(p, 0x41, 0x41, 0x40, 0xde);
    hide Sha256Stream.HexString;
    assert Sha256Stream.ByteHex(0x41) == "41" && Sha256Stream.ByteHex(0x41) == "41";
    assert Sha256Stream.ByteHex(0x40) == "40" && Sha256Stream.ByteHex(0xde) == "de";
  }

  lemma AbcText3(p: seq<Byte>)
    ensures Sha256Stream.HexString(p + [0x5d, 0xae, 0x22, 0x23]) == Sha256Stream.HexString(p) + "5dae2223"
  {
    Sha256Stream.HexOfFour(p, 0x5d, 0xae, 0x22, 0x23);
    hide Sha256Stream.HexString;
    assert Sha256Stream.ByteHex(0x5d) == "5d" && Sha256Stream.ByteHex(0xae) == "ae";
    assert Sha256Stream.ByteHex(0x22) == "22" && Sha256Stream.ByteHex(0x23) == "23";
  }

  lemma AbcText4(p: seq<Byte>)
    ensures Sha256Stream.HexString(p + [0xb0, 0x03, 0x61, 0xa3]) == Sha256Stream.HexString(p) + "b00361a3"
  {
    Sha256Stream.HexOfFour(p, 0xb0, 0x03, 0x61, 0xa3);
    hide Sha256Stream.HexString;
    assert Sha256Stream.ByteHex(0xb0) == "b0" && Sha256Stream.ByteHex(0x03) == "03";
    assert Sha256Stream.ByteHex(0x61) == "61" && Sha256Stream.ByteHex(0xa3) == "a3";
  }

  lemma AbcText5(p: seq<Byte>)
    ensures Sha256Stream.HexString(p + [0x96, 0x17, 0x7a, 0x9c]) == Sha256Stream.HexString(p) + "96177a9c"
  {
    Sha256Stream.HexOfFour(p, 0x96, 0x17, 0x7a, 0x9c);
    hide Sha256Stream.HexString;
    assert Sha256Stream.ByteHex(0x96) == "96" && Sha256Stream.ByteHex(0x17) == "17";
    assert Sha256Stream.ByteHex(0x7a) == "7a" && Sha256Stream.ByteHex(0x9c) == "9c";
  }

  lemma AbcText6(p: seq<Byte>)
    ensures Sha256Stream.HexString(p + [0xb4, 0x10, 0xff, 0x61]) == Sha256Stream.HexString(p) + "b410ff61"
  {
    Sha256Stream.HexOfFour(p, 0xb4, 0x10, 0xff, 0x61);
    hide Sha256Stream.HexString;
    assert Sha256Stream.ByteHex(0xb4) == "b4" && Sha256Stream.ByteHex(0x10) == "10";
    assert Sha256Stream.ByteHex(0xff) == "ff" && Sha256Stream.ByteHex(0x61) == "61";
  }

  lemma AbcText7(p: seq<Byte>)
    ensures Sha256Stream.HexString(p + [0xf2, 0x00, 0x15, 0xad]) == Sha256Stream.HexString(p) + "f20015ad"
  {
    Sha256Stream.HexOfFour(p, 0xf2, 0x00, 0x15, 0xad);
    hide Sha256Stream.HexString;
    assert Sha256Stream.ByteHex(0xf2) == "f2" && Sha256Stream.ByteHex(0x00) == "00";
    assert Sha256Stream.ByteHex(0x15) == "15" && Sha256Stream.ByteHex(0xad) == "ad";
  }

  /** That digest in hexadecimal. */
  lemma AbcText()
    ensures Sha256Stream.HexString(ABC_DIGEST) == ABC_TEXT
  {
    var p0: seq<Byte> := [] + [0xba, 0x78, 0x16, 0xbf];
    var p1: seq<Byte> := p0 + [0x8f, 0x01, 0xcf, 0xea];
    var p2: seq<Byte> := p1 + [0x41, 0x41, 0x40, 0xde];
    var p3: seq<Byte> := p2 + [0x5d, 0xae, 0x22, 0x23];
    var p4: seq<Byte> := p3 + [0xb0, 0x03, 0x61, 0xa3];
    var p5: seq<Byte> := p4 + [0x96, 0x17, 0x7a, 0x9c];
    var p6: seq<Byte> := p5 + [0xb4, 0x10, 0xff, 0x61];
    var p7: seq<Byte> := p6 + [0xf2, 0x00, 0x15, 0xad];
    assert Sha256Stream.HexString([]) == "" && ABC_DIGEST == p7;
    hide Sha256Stream.HexString;
    AbcText0([]);
    AbcText1(p0);
    AbcText2(p1);
    AbcText3(p2);
    AbcText4(p3);
    AbcText5(p4);
    AbcText6(p5);
    AbcText7(p6);
  }

  /** "abc", its digest in mid-stream, and the rest of the longer message. */
  method HashBoth() returns (text: string, digest: seq<Byte>)
    ensures text == ABC_TEXT && digest == LONG_DIGEST
  {
    AbcDigest();
    AbcText();
    LongDigest();
    StartsWithAbc();
    hide *;
    var hasher := new Sha256Stream.Hasher();
    hasher.Add(LONG[..3]);
    assert hasher.fed == ABC;
    text := hasher.GetHashHex();
    hasher.Add(LONG[3..]);
    assert hasher.fed == LONG;
    var dst := new Byte[32];
    hasher.GetHash(dst);
    digest := dst[..32];
  }

  lemma StartsWithAbc()
    ensures |LONG| == 56 && LONG[..3] == ABC && ABC + LONG[3..] == LONG && [] + ABC == ABC
  {
    assert |LONG0| == 16 && LONG0[..3] == ABC;
    assert LONG[..16] == LONG0;
    assert LONG[..3] == LONG[..16][..3];
  }
}
