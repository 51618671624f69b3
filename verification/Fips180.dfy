/** SHA-256 as FIPS 180-4 defines it: plain functions over words, blocks and messages.
    Nothing here follows the implementation; module Sha256 is proved against it. */
module Fips180 {

  type Word = bv32
  type Byte = bv8

  const BLOCK_SIZE: nat := 64

  // ---- Words (section 3.2; every sum is modulo 2^32)

  function RotR(x: Word, n: Word): Word
    requires 0 < n < 32
  {
    (x >> n) | (x << (32 - n))
  }

  function Plus(x: Word, y: Word): Word { x + y }

  function Sum4(x: Word, y: Word, z: Word, w: Word): Word { x + y + z + w }

  function Xor3(x: Word, y: Word, z: Word): Word { x ^ y ^ z }

  // ---- Functions (section 4.1.2)

  function Ch(x: Word, y: Word, z: Word): Word { (x & y) ^ (!x & z) }

  function Maj(x: Word, y: Word, z: Word): Word { (x & y) ^ (x & z) ^ (y & z) }

  function BigSigma0(x: Word): Word { Xor3(RotR(x, 2), RotR(x, 13), RotR(x, 22)) }

  function BigSigma1(x: Word): Word { Xor3(RotR(x, 6), RotR(x, 11), RotR(x, 25)) }

  function SmallSigma0(x: Word): Word { Xor3(RotR(x, 7), RotR(x, 18), x >> 3) }

  function SmallSigma1(x: Word): Word { Xor3(RotR(x, 17), RotR(x, 19), x >> 10) }

  // ---- Constants (section 4.2.2, one row of eight at a time)

  function KRow(j: nat): (row: seq<Word>)
    requires j < 8
    ensures |row| == 8
  {
    match j
    case 0 => [0x428a2f98, 0x71374491, 0xb5c0fbcf, 0xe9b5dba5, 0x3956c25b, 0x59f111f1, 0x923f82a4, 0xab1c5ed5]
    case 1 => [0xd807aa98, 0x12835b01, 0x243185be, 0x550c7dc3, 0x72be5d74, 0x80deb1fe, 0x9bdc06a7, 0xc19bf174]
    case 2 => [0xe49b69c1, 0xefbe4786, 0x0fc19dc6, 0x240ca1cc, 0x2de92c6f, 0x4a7484aa, 0x5cb0a9dc, 0x76f988da]
    case 3 => [0x983e5152, 0xa831c66d, 0xb00327c8, 0xbf597fc7, 0xc6e00bf3, 0xd5a79147, 0x06ca6351, 0x14292967]
    case 4 => [0x27b70a85, 0x2e1b2138, 0x4d2c6dfc, 0x53380d13, 0x650a7354, 0x766a0abb, 0x81c2c92e, 0x92722c85]
    case 5 => [0xa2bfe8a1, 0xa81a664b, 0xc24b8b70, 0xc76c51a3, 0xd192e819, 0xd6990624, 0xf40e3585, 0x106aa070]
    case 6 => [0x19a4c116, 0x1e376c08, 0x2748774c, 0x34b0bcb5, 0x391c0cb3, 0x4ed8aa4a, 0x5b9cca4f, 0x682e6ff3]
    case 7 => [0x748f82ee, 0x78a5636f, 0x84c87814, 0x8cc70208, 0x90befffa, 0xa4506ceb, 0xbef9a3f7, 0xc67178f2]
  }

  /** The first `rows` rows of the constant table. */
  function K(rows: nat): (ks: seq<Word>)
    requires rows <= 8
    ensures |ks| == 8 * rows
  {
    if rows == 0 then [] else K(rows - 1) + KRow(rows - 1)
  }

  // ---- The compression function (section 6.2.2)

  datatype Regs = Regs(a: Word, b: Word, c: Word, d: Word, e: Word, f: Word, g: Word, h: Word)

  function WordOf(b0: Byte, b1: Byte, b2: Byte, b3: Byte): Word {
    ((b0 as Word) << 24) | ((b1 as Word) << 16) | ((b2 as Word) << 8) | (b3 as Word)
  }

  /** Word `t` of a block parsed into big-endian words (section 5.2.1). */
  function WordAt(block: seq<Byte>, t: nat): Word
    requires 4 * t + 4 <= |block|
  {
    WordOf(block[4 * t], block[4 * t + 1], block[4 * t + 2], block[4 * t + 3])
  }

  /** The first `n` words of the message schedule. */
  function Schedule(block: seq<Byte>, n: nat): (ws: seq<Word>)
    requires |block| == BLOCK_SIZE
    ensures |ws| == n
  {
    if n == 0 then []
    else
      var p := Schedule(block, n - 1);
      if n <= 16 then p + [WordAt(block, n - 1)]
      else p + [Sum4(SmallSigma1(p[n - 3]), p[n - 8], SmallSigma0(p[n - 16]), p[n - 17])]
  }

  function Round(r: Regs, k: Word, w: Word): Regs {
    var t1 := Sum4(r.h, Plus(BigSigma1(r.e), Ch(r.e, r.f, r.g)), k, w);
    var t2 := Plus(BigSigma0(r.a), Maj(r.a, r.b, r.c));
    Regs(Plus(t1, t2), r.a, r.b, r.c, Plus(r.d, t1), r.e, r.f, r.g)
  }

  function Rounds(r: Regs, ks: seq<Word>, ws: seq<Word>): Regs
    requires |ks| == |ws|
  {
    if ks == [] then r
    else
      var n := |ks| - 1;
      Round(Rounds(r, ks[..n], ws[..n]), ks[n], ws[n])
  }

  function AddRegs(r: Regs, s: Regs): Regs {
    Regs(Plus(r.a, s.a), Plus(r.b, s.b), Plus(r.c, s.c), Plus(r.d, s.d),
         Plus(r.e, s.e), Plus(r.f, s.f), Plus(r.g, s.g), Plus(r.h, s.h))
  }

  function Compress(hash: Regs, block: seq<Byte>): Regs
    requires |block| == BLOCK_SIZE
  {
    AddRegs(hash, Rounds(hash, K(8), Schedule(block, 64)))
  }

  // ---- Padding and the digest (sections 5.1.1, 5.3.3 and 6.2)

  const INITIAL_HASH := Regs(0x6a09e667, 0xbb67ae85, 0x3c6ef372, 0xa54ff53a,
                             0x510e527f, 0x9b05688c, 0x1f83d9ab, 0x5be0cd19)

  const TWO_64: nat := 0x1_0000_0000_0000_0000

  function Zeros(n: nat): seq<Byte> { seq(n, _ => 0) }

  /** A length in bits as eight big-endian bytes; it is taken modulo 2^64. */
  function LengthBytes(bits: nat): (bs: seq<Byte>)
    ensures |bs| == 8
  {
    [(bits / 0x100_0000_0000_0000 % 256) as Byte, (bits / 0x1_0000_0000_0000 % 256) as Byte,
     (bits / 0x100_0000_0000 % 256) as Byte, (bits / 0x1_0000_0000 % 256) as Byte,
     (bits / 0x100_0000 % 256) as Byte, (bits / 0x1_0000 % 256) as Byte,
     (bits / 0x100 % 256) as Byte, (bits % 256) as Byte]
  }

  /** The number of zero bytes after the 0x80 byte: the least that leaves room for
      exactly the eight length bytes in the last block. */
  function ZeroCount(length: nat): nat { (119 - length % 64) % 64 }

  lemma ZeroCountIsLeast(length: nat, k: nat)
    ensures (length + 1 + ZeroCount(length)) % 64 == 56
    ensures (length + 1 + k) % 64 == 56 ==> ZeroCount(length) <= k
  {
    var q, r, m := length / 64, length % 64, (length + 1 + k) / 64;
    assert length == 64 * q + r && ZeroCount(length) == if r <= 55 then 55 - r else 119 - r;
    hide ZeroCount;
    assert k < 55 - r ==> length + 1 + k < 64 * q + 56;
    assert length + 1 + ZeroCount(length) == 64 * (if r <= 55 then q else q + 1) + 56;
  }

  function Padding(length: nat): (p: seq<Byte>)
    ensures |p| == 1 + ZeroCount(length) + 8
  {
    [0x80 as Byte] + Zeros(ZeroCount(length)) + LengthBytes(8 * length % TWO_64)
  }

  /** The number with these digits to the base 256, the highest first. */
  function Joined(digits: seq<nat>): nat {
    if digits == [] then 0 else 256 * Joined(digits[..|digits| - 1]) + digits[|digits| - 1]
  }

  lemma DigitsFrom(digits: seq<nat>, k: nat)
    requires k < |digits| && digits[k] < 256
    ensures Joined(digits[..k + 1]) / 256 == Joined(digits[..k]) && Joined(digits[..k + 1]) % 256 == digits[k]
  {
    assert digits[..k + 1][..k] == digits[..k];
  }

  lemma Shifted(bits: nat)
    ensures bits / 0x1_0000 == bits / 256 / 256 && bits / 0x100_0000 == bits / 256 / 256 / 256
  {
  }

  predicate EightDigits(d: seq<nat>) { |d| == 8 && forall i | 0 <= i < 8 :: d[i] < 256 }

  function AsBytes(d: seq<nat>): seq<Byte>
    requires EightDigits(d)
  {
    [d[0] as Byte, d[1] as Byte, d[2] as Byte, d[3] as Byte, d[4] as Byte, d[5] as Byte, d[6] as Byte, d[7] as Byte]
  }

  lemma HighDigits(d: seq<nat>)
    requires EightDigits(d)
    ensures
      var bits := Joined(d);
      && bits / 0x100_0000_0000_0000 % 256 == d[0] && bits / 0x1_0000_0000_0000 % 256 == d[1]
      && bits / 0x100_0000_0000 % 256 == d[2] && bits / 0x1_0000_0000 % 256 == d[3]
      && bits < 0x1_0000_0000_0000_0000
  {
    var half := Joined(d[..4]);
    LowDigits(d);
    DigitsFrom(d, 3);
    DigitsFrom(d, 2);
    DigitsFrom(d, 1);
    DigitsFrom(d, 0);
    assert Joined(d[..0]) == 0;
    hide Joined;
    Shifted(half);
    HighPart(Joined(d), half);
  }

  lemma HighPart(bits: nat, half: nat)
    requires bits / 0x1_0000_0000 == half
    ensures bits / 0x100_0000_0000 == half / 256 && bits / 0x1_0000_0000_0000 == half / 0x1_0000
    ensures bits / 0x100_0000_0000_0000 == half / 0x100_0000
    ensures half / 0x100_0000 < 256 ==> bits < 0x1_0000_0000_0000_0000
  {
  }

  lemma LowDigits(d: seq<nat>)
    requires EightDigits(d)
    ensures
      var bits := Joined(d);
      && bits / 0x100_0000 % 256 == d[4] && bits / 0x1_0000 % 256 == d[5] && bits / 0x100 % 256 == d[6] && bits % 256 == d[7]
      && bits / 0x1_0000_0000 == Joined(d[..4])
  {
    assert d[..8] == d;
    DigitsFrom(d, 7);
    DigitsFrom(d, 6);
    DigitsFrom(d, 5);
    DigitsFrom(d, 4);
    hide Joined;
    Shifted(Joined(d));
    assert Joined(d) / 0x1_0000_0000 == Joined(d) / 0x100_0000 / 256;
  }

  /** The length field is a big-endian number of eight bytes. */
  lemma LengthBytesAre(d: seq<nat>)
    requires EightDigits(d)
    ensures LengthBytes(Joined(d)) == AsBytes(d)
  {
    HighDigits(d);
    LowDigits(d);
    hide Joined;
  }

  /** A 1 bit, zeros up to 448 modulo 512 bits, and the length in bits as a big-endian number,
      whichever of below 2^64 it is. */
  lemma PaddingMeans(length: nat, d: seq<nat>)
    requires EightDigits(d) && 8 * length == Joined(d)
    ensures
      var p := Padding(length);
      var n := |p| - 8;
      && p[0] == 0x80 && (forall i | 0 < i < n :: p[i] == 0) && (length + n) % 64 == 56 && n <= 64
      && p[n..] == AsBytes(d)
  {
    HighDigits(d);
    LengthBytesAre(d);
    assert 8 * length % TWO_64 == 8 * length;
    hide LengthBytes, Joined, Padding, EightDigits, AsBytes;
    PaddingParts(length, LengthBytes(8 * length));
  }

  lemma PaddingParts(length: nat, end: seq<Byte>)
    requires end == LengthBytes(8 * length % TWO_64)
    ensures
      var p := Padding(length);
      var n := |p| - 8;
      && p[0] == 0x80 && (forall i | 0 < i < n :: p[i] == 0) && (length + n) % 64 == 56 && n <= 64 && p[n..] == end
  {
    ZeroCountIsLeast(length, 0);
    assert ZeroCount(length) < 64;
    hide LengthBytes, ZeroCount;
    var p, z := Padding(length), Zeros(ZeroCount(length));
    assert p == [0x80] + z + end;
    assert forall i | 0 < i < |p| - 8 :: p[i] == z[i - 1];
  }

  /** The hash value after every whole block of `data`. */
  function HashBlocks(hash: Regs, data: seq<Byte>): Regs
    decreases |data|
  {
    if |data| < 64 then hash
    else HashBlocks(Compress(hash, data[..64]), data[64..])
  }

  function ByteOf(x: Word, shift: Word): Byte
    requires shift <= 24
  {
    ((x >> shift) & 0xFF) as Byte
  }

  function WordBytes(x: Word): seq<Byte> {
    [ByteOf(x, 24), ByteOf(x, 16), ByteOf(x, 8), ByteOf(x, 0)]
  }

  function WordSeq(r: Regs): (ws: seq<Word>)
    ensures |ws| == 8
  {
    [r.a, r.b, r.c, r.d, r.e, r.f, r.g, r.h]
  }

  function BytesOf(ws: seq<Word>): (bs: seq<Byte>)
    ensures |bs| == 4 * |ws|
  {
    if ws == [] then [] else BytesOf(ws[..|ws| - 1]) + WordBytes(ws[|ws| - 1])
  }

  /** The message digest (section 6.2). */
  function Digest(message: seq<Byte>): (d: seq<Byte>)
    ensures |d| == 32
  {
    BytesOf(WordSeq(HashBlocks(INITIAL_HASH, message + Padding(|message|))))
  }

  // ---- Consequences used by the streaming implementation

  lemma {:induction false} RoundsSplit(r: Regs, ks: seq<Word>, ws: seq<Word>, ls: seq<Word>, vs: seq<Word>)
    requires |ks| == |ws| && |ls| == |vs|
    ensures Rounds(Rounds(r, ks, ws), ls, vs) == Rounds(r, ks + ls, ws + vs)
    decreases |ls|
  {
    hide Round;
    if ls == [] {
      assert ks + ls == ks && ws + vs == ws;
    } else {
      var n := |ls| - 1;
      RoundsSplit(r, ks, ws, ls[..n], vs[..n]);
      assert (ks + ls)[..|ks| + n] == ks + ls[..n];
      assert (ws + vs)[..|ks| + n] == ws + vs[..n];
    }
  }

  lemma {:induction false} HashBlocksSplit(hash: Regs, a: seq<Byte>, b: seq<Byte>)
    requires |a| % 64 == 0
    ensures HashBlocks(HashBlocks(hash, a), b) == HashBlocks(hash, a + b)
    decreases |a|
  {
    hide Compress;
    if |a| < 64 {
      assert a + b == b;
    } else {
      HashBlocksSplit(Compress(hash, a[..64]), a[64..], b);
      assert (a + b)[..64] == a[..64];
      assert (a + b)[64..] == a[64..] + b;
    }
  }

  lemma HashOneBlock(hash: Regs, block: seq<Byte>)
    requires |block| == 64
    ensures HashBlocks(hash, block) == Compress(hash, block)
  {
    assert block[..64] == block;
    assert block[64..] == [];
  }
}
