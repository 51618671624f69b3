/** The streaming hasher of sha256.cpp: words are mixed with the register names rotated
    instead of the registers, and bytes are buffered until a block is full. */
module Sha256 {
  import opened Fips180

  // ---- Helpers of the compression function

  function LittleEndian(b0: Byte, b1: Byte, b2: Byte, b3: Byte): Word {
    ((b3 as Word) << 24) | ((b2 as Word) << 16) | ((b1 as Word) << 8) | (b0 as Word)
  }

  function Swap(x: Word): Word {
    (x >> 24) | ((x >> 8) & 0x0000FF00) | ((x << 8) & 0x00FF0000) | (x << 24)
  }

  /** A word loaded by a little-endian host and swapped is the big-endian word. */
  lemma SwapLoads(b0: Byte, b1: Byte, b2: Byte, b3: Byte)
    ensures Swap(LittleEndian(b0, b1, b2, b3)) == WordOf(b0, b1, b2, b3)
  {
  }

  function F1(e: Word, f: Word, g: Word): Word {
    var term1 := Xor3(RotR(e, 6), RotR(e, 11), RotR(e, 25));
    var term2 := (e & f) ^ (!e & g);
    Plus(term1, term2)
  }

  function F2(a: Word, b: Word, c: Word): Word {
    var term1 := Xor3(RotR(a, 2), RotR(a, 13), RotR(a, 22));
    var term2 := ((a | b) & c) | (a & b);
    Plus(term1, term2)
  }

  /** The rewritten majority agrees with the standard's, bit for bit. */
  lemma RewrittenMaj(a: Word, b: Word, c: Word)
    ensures ((a | b) & c) | (a & b) == Maj(a, b, c)
  {
  }

  /** One line of the unrolled rounds is one uniform round: `d` and `h` are the two
      registers it writes, and renaming shifts the other six. */
  lemma LineIsRound(r: Regs, k: Word, w: Word)
    ensures
      var x := Sum4(r.h, F1(r.e, r.f, r.g), k, w);
      var y := F2(r.a, r.b, r.c);
      Round(r, k, w) == Regs(Plus(x, y), r.a, r.b, r.c, Plus(r.d, x), r.e, r.f, r.g)
  {
    RewrittenMaj(r.a, r.b, r.c);
    assert F1(r.e, r.f, r.g) == Plus(BigSigma1(r.e), Ch(r.e, r.f, r.g));
  }

  lemma {:induction false} RoundsStep(r: Regs, ks: seq<Word>, ws: seq<Word>, n: nat)
    requires n < |ks| == |ws|
    ensures Rounds(r, ks[..n + 1], ws[..n + 1]) == Round(Rounds(r, ks[..n], ws[..n]), ks[n], ws[n])
  {
    hide Round;
    assert ks[..n + 1][..n] == ks[..n];
    assert ws[..n + 1][..n] == ws[..n];
  }

  lemma EightRounds(r: Regs, ks: seq<Word>, ws: seq<Word>)
    requires |ks| == |ws| == 8
    ensures
      var r4 := Round(Round(Round(Round(r, ks[0], ws[0]), ks[1], ws[1]), ks[2], ws[2]), ks[3], ws[3]);
      Rounds(r, ks, ws) == Round(Round(Round(Round(r4, ks[4], ws[4]), ks[5], ws[5]), ks[6], ws[6]), ks[7], ws[7])
  {
    hide Round;
    forall n: nat | n < 8
      ensures Rounds(r, ks[..n + 1], ws[..n + 1]) == Round(Rounds(r, ks[..n], ws[..n]), ks[n], ws[n])
    {
      RoundsStep(r, ks, ws, n);
    }
    assert ks[..8] == ks && ws[..8] == ws;
  }

  /** The eight lines that the source repeats for each row of constants. After eight
      lines every register is back under its own name. */
  method EightLines(r: Regs, ks: seq<Word>, ws: seq<Word>) returns (q: Regs)
    requires |ks| == |ws| == 8
    ensures q == Rounds(r, ks, ws)
  {
    hide *;
    var Regs(a, b, c, d, e, f, g, h) := r;
    var x, y;
    x := Sum4(h, F1(e, f, g), ks[0], ws[0]); y := F2(a, b, c); d := Plus(d, x); h := Plus(x, y);
    ghost var r1 := Round(r, ks[0], ws[0]);
    LineIsRound(r, ks[0], ws[0]);
    assert r1 == Regs(h, a, b, c, d, e, f, g);
    x := Sum4(g, F1(d, e, f), ks[1], ws[1]); y := F2(h, a, b); c := Plus(c, x); g := Plus(x, y);
    ghost var r2 := Round(r1, ks[1], ws[1]);
    LineIsRound(r1, ks[1], ws[1]);
    assert r2 == Regs(g, h, a, b, c, d, e, f);
    x := Sum4(f, F1(c, d, e), ks[2], ws[2]); y := F2(g, h, a); b := Plus(b, x); f := Plus(x, y);
    ghost var r3 := Round(r2, ks[2], ws[2]);
    LineIsRound(r2, ks[2], ws[2]);
    assert r3 == Regs(f, g, h, a, b, c, d, e);
    x := Sum4(e, F1(b, c, d), ks[3], ws[3]); y := F2(f, g, h); a := Plus(a, x); e := Plus(x, y);
    ghost var r4 := Round(r3, ks[3], ws[3]);
    LineIsRound(r3, ks[3], ws[3]);
    assert r4 == Regs(e, f, g, h, a, b, c, d);
    x := Sum4(d, F1(a, b, c), ks[4], ws[4]); y := F2(e, f, g); h := Plus(h, x); d := Plus(x, y);
    ghost var r5 := Round(r4, ks[4], ws[4]);
    LineIsRound(r4, ks[4], ws[4]);
    assert r5 == Regs(d, e, f, g, h, a, b, c);
    x := Sum4(c, F1(h, a, b), ks[5], ws[5]); y := F2(d, e, f); g := Plus(g, x); c := Plus(x, y);
    ghost var r6 := Round(r5, ks[5], ws[5]);
    LineIsRound(r5, ks[5], ws[5]);
    assert r6 == Regs(c, d, e, f, g, h, a, b);
    x := Sum4(b, F1(g, h, a), ks[6], ws[6]); y := F2(c, d, e); f := Plus(f, x); b := Plus(x, y);
    ghost var r7 := Round(r6, ks[6], ws[6]);
    LineIsRound(r6, ks[6], ws[6]);
    assert r7 == Regs(b, c, d, e, f, g, h, a);
    x := Sum4(a, F1(f, g, h), ks[7], ws[7]); y := F2(b, c, d); e := Plus(e, x); a := Plus(x, y);
    ghost var r8 := Round(r7, ks[7], ws[7]);
    LineIsRound(r7, ks[7], ws[7]);
    assert r8 == Regs(a, b, c, d, e, f, g, h);
    EightRounds(r, ks, ws);
    q := Regs(a, b, c, d, e, f, g, h);
  }

  lemma SumReversed(x: Word, y: Word, z: Word, w: Word)
    ensures Sum4(x, y, z, w) == Sum4(w, z, y, x)
  {
  }

  /** One of the six loops that extend the message schedule by eight words. */
  method Extend(words: array<Word>, from: nat, to: nat, ghost block: seq<Byte>)
    requires |block| == 64 == words.Length
    requires 16 <= from <= to <= 64
    requires words[..from] == Schedule(block, from)
    modifies words
    ensures words[..to] == Schedule(block, to)
  {
    hide SmallSigma0, SmallSigma1, Sum4, Schedule;
    var i := from;
    while i < to
      invariant from <= i <= to
      invariant words[..i] == Schedule(block, i)
    {
      ghost var p := words[..i];
      words[i] := Sum4(words[i - 16], SmallSigma0(words[i - 15]), words[i - 7], SmallSigma1(words[i - 2]));
      ScheduleStep(block, p);
      assert words[..i + 1] == p + [words[i]];
      i := i + 1;
    }
  }

  lemma {:induction false} ScheduleStep(block: seq<Byte>, p: seq<Word>)
    requires |block| == 64 && |p| >= 16 && p == Schedule(block, |p|)
    ensures
      var i := |p|;
      Schedule(block, i + 1) == p + [Sum4(p[i - 16], SmallSigma0(p[i - 15]), p[i - 7], SmallSigma1(p[i - 2]))]
  {
    hide SmallSigma0, SmallSigma1, Sum4;
    var i := |p|;
    SumReversed(p[i - 16], SmallSigma0(p[i - 15]), p[i - 7], SmallSigma1(p[i - 2]));
  }

  /** The constants written into the eight rows of the unrolled code are the standard's. */
  function Row(j: nat): (row: seq<Word>)
    requires j < 8
    ensures row == KRow(j)
  {
    match j
    case 0 => [0x428a2f98, 0x71374491, 0xb5c0fbcf, 0xe9b5dba5, 0x3956c25b, 0x59f111f1, 0x923f82a4, 0xab1c5ed5]
    case 1 => [0xd807aa98, 0x12835b01, 0x243185be, 0x550c7dc3, 0x72be5d74, 0x80deb1fe, 0x9bdc06a7, 0xc19bf174]
    case 2 => [0xe49b69c1, 0xefbe4786, 0x0fc19dc6, 0x240ca1cc, 0x2de92c6f, 0x4a7484aa, 0x5cb0a9dc, 0x76f988da]
    case 3 => [0x983e5152, 0xa831c66d, 0xb00327c8, 0xbf597fc7, 0xc6e00bf3, 0xd5a79147, 0x06ca6351, 0x14292967]
    case 4 => [0x27b70a85, 0x2e1b2138, 0x4d2c6dfc, 0x53380d13, 0x650a7354, 0x766a0abb, 0x81c2c92e, 0x92722c85]
    case 5 => [0xa2bfe8a1, 0xa81a664b, 0xc24b8b70, 0xc76c51a3, 0xd192e819, 0xd6990624, 0xf40e3585, 0x106aa070]
    case 6 => [0x19a4c116, 0x1e376c08, 0x2748774c, 0x34b0bcb5, 0x391c0cb3, 0x4ed8aa4a, 0x5b9cca4f, 0x682e6ff3]
    case 7 => [0x748f82ee, 0x78a5636f, 0x84c87814, 0x8cc70208, 0x90befffa, 0xa4506ceb, 0xbef9a3f7, 0xc67178f2]
  }

  lemma {:induction false} SchedulePrefix(block: seq<Byte>, m: nat, n: nat)
    requires |block| == 64 && m <= n
    ensures Schedule(block, n)[..m] == Schedule(block, m)
  {
    if m == n {
      assert Schedule(block, n)[..m] == Schedule(block, n);
    } else {
      SchedulePrefix(block, m, n - 1);
      assert Schedule(block, n)[..n - 1] == Schedule(block, n - 1);
      assert Schedule(block, n)[..m] == Schedule(block, n)[..n - 1][..m];
    }
  }

  lemma RowExtendsRounds(r: Regs, j: nat, block: seq<Byte>, words: seq<Word>)
    requires j < 8 && |block| == 64
    requires words == Schedule(block, 8 * (j + 1))
    ensures Rounds(Rounds(r, K(j), words[..8 * j]), KRow(j), words[8 * j..]) == Rounds(r, K(j + 1), words)
  {
    hide Round, KRow;
    assert words == words[..8 * j] + words[8 * j..];
    RoundsSplit(r, K(j), words[..8 * j], KRow(j), words[8 * j..]);
  }

  /** One row of rounds of `processBlock`: it reads eight scheduled words in place. */
  method RoundRow(q: Regs, j: nat, words: array<Word>, ghost r: Regs, ghost block: seq<Byte>) returns (q': Regs)
    requires j < 8 && |block| == 64 == words.Length
    requires words[..8 * (j + 1)] == Schedule(block, 8 * (j + 1))
    requires q == Rounds(r, K(j), Schedule(block, 8 * j))
    ensures q' == Rounds(r, K(j + 1), Schedule(block, 8 * (j + 1)))
  {
    hide Round, KRow, Schedule, Rounds, K;
    SchedulePrefix(block, 8 * j, 8 * (j + 1));
    q' := EightLines(q, Row(j), words[8 * j..8 * (j + 1)]);
    ghost var ws := words[..8 * (j + 1)];
    assert ws[..8 * j] == words[..8 * j] && ws[8 * j..] == words[8 * j..8 * (j + 1)];
    RowExtendsRounds(r, j, block, ws);
  }

  method LoadWords(words: array<Word>, block: seq<Byte>)
    requires |block| == 64 == words.Length
    modifies words
    ensures words[..16] == Schedule(block, 16)
  {
    hide LittleEndian, WordOf, Swap;
    var i := 0;
    while i < 16
      invariant 0 <= i <= 16
      invariant words[..i] == Schedule(block, i)
    {
      ghost var p := words[..i];
      words[i] := Swap(LittleEndian(block[4 * i], block[4 * i + 1], block[4 * i + 2], block[4 * i + 3]));
      SwapLoads(block[4 * i], block[4 * i + 1], block[4 * i + 2], block[4 * i + 3]);
      assert words[..i + 1] == p + [WordAt(block, i)];
      i := i + 1;
    }
  }

  lemma NoRounds(r: Regs, block: seq<Byte>)
    requires |block| == 64
    ensures Rounds(r, K(0), Schedule(block, 0)) == r
  {
  }

  /** All of `processBlock` before the hash is updated. */
  method BlockRounds(r: Regs, block: seq<Byte>) returns (q: Regs)
    requires |block| == 64
    ensures q == Rounds(r, K(8), Schedule(block, 64))
  {
    hide Round, KRow, Schedule, Rounds, K;
    var words := new Word[64];
    LoadWords(words, block);
    SchedulePrefix(block, 8, 16);
    assert words[..16][..8] == words[..8];
    NoRounds(r, block);
    q := RoundRow(r, 0, words, r, block);
    q := RoundRow(q, 1, words, r, block);
    Extend(words, 16, 24, block);
    q := RoundRow(q, 2, words, r, block);
    Extend(words, 24, 32, block);
    q := RoundRow(q, 3, words, r, block);
    Extend(words, 32, 40, block);
    q := RoundRow(q, 4, words, r, block);
    Extend(words, 40, 48, block);
    q := RoundRow(q, 5, words, r, block);
    Extend(words, 48, 56, block);
    q := RoundRow(q, 6, words, r, block);
    Extend(words, 56, 64, block);
    q := RoundRow(q, 7, words, r, block);
  }
}
