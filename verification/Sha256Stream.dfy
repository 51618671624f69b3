/** The hasher object of sha256.cpp: bytes arrive in pieces of any size, and the digest
    of everything so far can be asked for at any moment without disturbing the stream. */
module Sha256Stream {
  import opened Fips180
  import Sha256

  // ---- Facts about padding

  lemma LengthModulo(n: nat, m: nat)
    requires m <= n
    ensures 8 * (((n - m) % TWO_64 + m) % TWO_64) % TWO_64 == 8 * n % TWO_64
  {
    var q := (n - m) / TWO_64;
    var r := (n - m) % TWO_64;
    assert n - m == q * TWO_64 + r;
    var q' := (r + m) / TWO_64;
    var r' := (r + m) % TWO_64;
    assert n == (q + q') * TWO_64 + r';
    assert 8 * n == 8 * r' + (8 * (q + q')) * TWO_64;
    ModuloShift(8 * r', 8 * (q + q'));
  }

  lemma {:induction false} ModuloShift(a: nat, k: nat)
    ensures (a + k * TWO_64) % TWO_64 == a % TWO_64
  {
    if k != 0 {
      ModuloShift(a, k - 1);
      assert a + k * TWO_64 == (a + (k - 1) * TWO_64) + TWO_64;
    }
  }

  lemma CountModulo(n: nat)
    ensures (n % TWO_64 + 64) % TWO_64 == (n + 64) % TWO_64
  {
    var q, r := n / TWO_64, n % TWO_64;
    assert n + 64 == (r + 64) + q * TWO_64;
    ModuloShift(r + 64, q);
  }

  lemma StillWhole(n: nat)
    requires n % 64 == 0
    ensures (n + 64) % 64 == 0
  {
  }

  lemma AppendBlock(message: seq<Byte>, block: seq<Byte>)
    requires |message| % 64 == 0 && |block| == 64
    ensures HashBlocks(INITIAL_HASH, message + block) == Compress(HashBlocks(INITIAL_HASH, message), block)
  {
    hide HashBlocks, Compress;
    HashOneBlock(HashBlocks(INITIAL_HASH, message), block);
    HashBlocksSplit(INITIAL_HASH, message, block);
  }

  /** The tail of a message with its padding, cut into one or two blocks. */
  lemma PaddingFromTail(message: seq<Byte>, tail: seq<Byte>, hash: Regs)
    requires |tail| < 64 && |tail| <= |message| && (|message| - |tail|) % 64 == 0
    requires tail == message[|message| - |tail|..]
    requires hash == HashBlocks(INITIAL_HASH, message[..|message| - |tail|])
    ensures HashBlocks(hash, tail + Padding(|message|)) == HashBlocks(INITIAL_HASH, message + Padding(|message|))
    ensures ZeroCount(|message|) == if |tail| <= 55 then 55 - |tail| else 119 - |tail|
  {
    hide Padding, HashBlocks;
    var q := |message| - |tail|;
    HashBlocksSplit(INITIAL_HASH, message[..q], tail + Padding(|message|));
    SplitBefore(message, q, Padding(|message|));
  }

  lemma SplitBefore(message: seq<Byte>, q: nat, end: seq<Byte>)
    requires q <= |message|
    ensures message + end == message[..q] + (message[q..] + end)
  {
  }

  /** The source's bit arithmetic for where the length field goes. */
  method PaddedBytes(bufferSize: nat) returns (paddedLength: nat)
    requires bufferSize < 64
    ensures paddedLength == if bufferSize <= 55 then 56 else 120
  {
    paddedLength := bufferSize * 8;
    paddedLength := paddedLength + 1;
    var lower11Bits := paddedLength % 512;
    if lower11Bits <= 448 {
      paddedLength := paddedLength + (448 - lower11Bits);
    } else {
      paddedLength := paddedLength + (512 + 448 - lower11Bits);
    }
    paddedLength := paddedLength / 8;
  }

  /** Clears a range of a block. */
  method Fill(block: array<Byte>, from: nat, to: nat)
    requires from <= to <= block.Length
    modifies block
    ensures block[..from] == old(block[..from]) && block[from..to] == Zeros(to - from)
    ensures block[to..] == old(block[to..])
  {
    var i := from;
    while i < to
      invariant from <= i <= to
      invariant block[..from] == old(block[..from]) && block[to..] == old(block[to..])
      invariant forall j :: from <= j < i ==> block[j] == 0
    {
      block[i] := 0;
      i := i + 1;
    }
  }

  method WriteLength(block: array<Byte>, at: nat, bits: nat)
    requires at + 8 == block.Length
    modifies block
    ensures block[..at] == old(block[..at]) && block[at..] == LengthBytes(bits)
  {
    block[at], block[at + 1], block[at + 2], block[at + 3] :=
      (bits / 0x100_0000_0000_0000 % 256) as Byte, (bits / 0x1_0000_0000_0000 % 256) as Byte,
      (bits / 0x100_0000_0000 % 256) as Byte, (bits / 0x1_0000_0000 % 256) as Byte;
    block[at + 4], block[at + 5], block[at + 6], block[at + 7] :=
      (bits / 0x100_0000 % 256) as Byte, (bits / 0x1_0000 % 256) as Byte,
      (bits / 0x100 % 256) as Byte, (bits % 256) as Byte;
  }

  lemma OneBlock(tail: seq<Byte>, length: nat, block: seq<Byte>)
    requires |tail| <= 55 && |block| == 64 && ZeroCount(length) == 55 - |tail|
    requires block[..|tail|] == tail && block[|tail|] == 0x80
    requires block[|tail| + 1..56] == Zeros(55 - |tail|)
    requires block[56..] == LengthBytes(8 * length % TWO_64)
    ensures block == tail + Padding(length)
  {
    hide LengthBytes, ZeroCount, Zeros;
    assert block == block[..|tail|] + [block[|tail|]] + block[|tail| + 1..56] + block[56..];
  }

  lemma TwoBlocks(tail: seq<Byte>, length: nat, block: seq<Byte>, extra: seq<Byte>)
    requires 55 < |tail| < 64 && |block| == 64 == |extra| && ZeroCount(length) == 119 - |tail|
    requires block[..|tail|] == tail && block[|tail|] == 0x80
    requires block[|tail| + 1..] == Zeros(63 - |tail|) && extra[..56] == Zeros(56)
    requires extra[56..] == LengthBytes(8 * length % TWO_64)
    ensures block + extra == tail + Padding(length)
  {
    hide LengthBytes, ZeroCount;
    assert Zeros(119 - |tail|) == Zeros(63 - |tail|) + Zeros(56);
    assert block == block[..|tail|] + [block[|tail|]] + block[|tail| + 1..];
    assert extra == extra[..56] + extra[56..];
  }

  /** The writes of `processBuffer`. The source's branch for a full buffer is never
      taken: a full buffer is flushed by `add`. */
  method WritePadding(buffer: array<Byte>, extra: array<Byte>, bufferSize: nat, msgBits: nat, ghost length: nat)
    returns (overflow: bool)
    requires buffer.Length == 64 == extra.Length && buffer != extra && bufferSize < 64
    requires msgBits == 8 * length % TWO_64
    requires ZeroCount(length) == if bufferSize <= 55 then 55 - bufferSize else 119 - bufferSize
    modifies buffer, extra
    ensures buffer[..bufferSize] == old(buffer[..bufferSize])
    ensures old(buffer[..bufferSize]) + Padding(length) == if overflow then buffer[..] + extra[..] else buffer[..]
  {
    hide LengthBytes, Padding, Zeros, ZeroCount;
    ghost var tail := buffer[..bufferSize];
    var paddedLength := PaddedBytes(bufferSize);
    buffer[bufferSize] := 0x80;
    if paddedLength < 64 {
      Fill(buffer, bufferSize + 1, paddedLength);
      ghost var padded := buffer[..paddedLength];
      assert padded[..bufferSize] == tail && padded[bufferSize] == 0x80 by {
        assert padded[..bufferSize] == buffer[..bufferSize + 1][..bufferSize];
        assert padded[bufferSize] == buffer[..bufferSize + 1][bufferSize];
      }
      WriteLength(buffer, paddedLength, msgBits);
      assert buffer[..paddedLength] == padded && buffer[bufferSize] == padded[bufferSize];
      assert buffer[..bufferSize] == padded[..bufferSize];
      OneBlock(tail, length, buffer[..]);
      overflow := false;
    } else {
      Fill(buffer, bufferSize + 1, 64);
      Fill(extra, 0, paddedLength - 64);
      WriteLength(extra, paddedLength - 64, msgBits);
      TwoBlocks(tail, length, buffer[..], extra[..]);
      overflow := true;
    }
  }

  // ---- Digests as text

  const HEX_DIGITS := "0123456789abcdef"

  function HexDigit(x: Word): char { HEX_DIGITS[(x & 15) as int] }

  /** Two characters a byte, the high half first. */
  function ByteHex(b: Byte): (s: string)
    ensures |s| == 2
  {
    [HexDigit((b as Word) >> 4), HexDigit(b as Word)]
  }

  function HexString(bytes: seq<Byte>): (s: string)
    ensures |s| == 2 * |bytes|
  {
    if bytes == [] then "" else HexString(bytes[..|bytes| - 1]) + ByteHex(bytes[|bytes| - 1])
  }

  lemma NoHex()
    ensures HexString(BytesOf([])) == ""
  {
  }

  lemma BytesOfStep(ws: seq<Word>, i: nat)
    requires i < |ws|
    ensures BytesOf(ws[..i + 1]) == BytesOf(ws[..i]) + WordBytes(ws[i])
  {
    assert ws[..i + 1][..i] == ws[..i];
  }

  lemma HexAppend(bytes: seq<Byte>, b: Byte)
    ensures HexString(bytes + [b]) == HexString(bytes) + ByteHex(b)
  {
    hide ByteHex;
    assert (bytes + [b])[..|bytes|] == bytes;
  }

  lemma HexOfFour(p: seq<Byte>, b3: Byte, b2: Byte, b1: Byte, b0: Byte)
    ensures HexString(p + [b3, b2, b1, b0]) == HexString(p) + (ByteHex(b3) + ByteHex(b2) + ByteHex(b1) + ByteHex(b0))
  {
    hide *;
    HexAppend(p, b3);
    HexAppend(p + [b3], b2);
    HexAppend(p + [b3] + [b2], b1);
    HexAppend(p + [b3] + [b2] + [b1], b0);
    assert p + [b3, b2, b1, b0] == p + [b3] + [b2] + [b1] + [b0];
  }

  lemma DigitOfEqual(x: Word, y: Word)
    requires x & 15 == y & 15
    ensures HexDigit(x) == HexDigit(y)
  {
  }

  lemma PairOfByte3(x: Word)
    ensures ByteHex(ByteOf(x, 24)) == [HexDigit(x >> 28), HexDigit(x >> 24)]
  {
    hide HexDigit;
    DigitOfEqual((ByteOf(x, 24) as Word) >> 4, x >> 28);
    DigitOfEqual(ByteOf(x, 24) as Word, x >> 24);
  }

  lemma PairOfByte2(x: Word)
    ensures ByteHex(ByteOf(x, 16)) == [HexDigit(x >> 20), HexDigit(x >> 16)]
  {
    hide HexDigit;
    DigitOfEqual((ByteOf(x, 16) as Word) >> 4, x >> 20);
    DigitOfEqual(ByteOf(x, 16) as Word, x >> 16);
  }

  lemma PairOfByte1(x: Word)
    ensures ByteHex(ByteOf(x, 8)) == [HexDigit(x >> 12), HexDigit(x >> 8)]
  {
    hide HexDigit;
    DigitOfEqual((ByteOf(x, 8) as Word) >> 4, x >> 12);
    DigitOfEqual(ByteOf(x, 8) as Word, x >> 8);
  }

  lemma PairOfByte0(x: Word)
    ensures ByteHex(ByteOf(x, 0)) == [HexDigit(x >> 4), HexDigit(x)]
  {
    hide HexDigit;
    DigitOfEqual((ByteOf(x, 0) as Word) >> 4, x >> 4);
    DigitOfEqual(ByteOf(x, 0) as Word, x);
  }

  function WordHex(x: Word): string {
    [HexDigit(x >> 28), HexDigit(x >> 24), HexDigit(x >> 20), HexDigit(x >> 16),
     HexDigit(x >> 12), HexDigit(x >> 8), HexDigit(x >> 4), HexDigit(x)]
  }

  /** The source's eight nibbles of a word are the digits of its four bytes. */
  lemma WordHexPairs(x: Word)
    ensures WordHex(x) == ByteHex(ByteOf(x, 24)) + ByteHex(ByteOf(x, 16)) + ByteHex(ByteOf(x, 8)) + ByteHex(ByteOf(x, 0))
  {
    hide ByteOf, HexDigit, ByteHex;
    PairOfByte3(x);
    PairOfByte2(x);
    PairOfByte1(x);
    PairOfByte0(x);
  }

  lemma HexOfWordBytes(x: Word, p: seq<Byte>)
    ensures HexString(p + WordBytes(x)) == HexString(p) + WordHex(x)
  {
    hide ByteOf, HexString, ByteHex, WordHex;
    HexOfFour(p, ByteOf(x, 24), ByteOf(x, 16), ByteOf(x, 8), ByteOf(x, 0));
    WordHexPairs(x);
  }

  lemma HexOfWord(ws: seq<Word>, i: nat)
    requires i < |ws|
    ensures HexString(BytesOf(ws[..i + 1])) == HexString(BytesOf(ws[..i])) + WordHex(ws[i])
  {
    hide WordBytes, HexString, WordHex;
    BytesOfStep(ws, i);
    HexOfWordBytes(ws[i], BytesOf(ws[..i]));
  }

  method PutWord(dst: array<Byte>, at: nat, x: Word)
    requires at + 4 <= dst.Length
    modifies dst
    ensures dst[..at] == old(dst[..at]) && dst[at..at + 4] == WordBytes(x) && dst[at + 4..] == old(dst[at + 4..])
  {
    hide ByteOf;
    dst[at], dst[at + 1], dst[at + 2], dst[at + 3] := ByteOf(x, 24), ByteOf(x, 16), ByteOf(x, 8), ByteOf(x, 0);
  }

  // ---- The hasher

  class Hasher {
    var numBytes: nat
    var bufferSize: nat
    const buffer: array<Byte>
    const hash: array<Word>
    /** Every byte added since the last reset. */
    ghost var fed: seq<Byte>

    ghost predicate Shape()
    {
      buffer.Length == 64 && hash.Length == 8 && buffer as object != hash
    }

    function HashState(): Regs
      requires hash.Length == 8
      reads hash
    {
      Regs(hash[0], hash[1], hash[2], hash[3], hash[4], hash[5], hash[6], hash[7])
    }

    /** The object stands for `message`: its whole blocks are in the hash value, the rest
        is in the buffer. */
    ghost predicate Absorbed(message: seq<Byte>)
      requires Shape()
      reads `numBytes, `bufferSize, buffer, hash
    {
      && bufferSize <= 64 && bufferSize <= |message|
      && (|message| - bufferSize) % 64 == 0
      && numBytes == (|message| - bufferSize) % TWO_64
      && buffer[..bufferSize] == message[|message| - bufferSize..]
      && HashState() == HashBlocks(INITIAL_HASH, message[..|message| - bufferSize])
    }

    ghost predicate Valid()
      reads this, buffer, hash
    {
      Shape() && bufferSize < 64 && Absorbed(fed)
    }

    constructor ()
      ensures Valid() && fed == [] && fresh(buffer) && fresh(hash)
    {
      buffer := new Byte[64];
      hash := new Word[8];
      numBytes, bufferSize := 0, 0;
      new;
      Reset();
    }

    method Reset()
      requires Shape()
      modifies this, hash
      ensures Valid() && fed == []
    {
      numBytes, bufferSize, fed := 0, 0, [];
      hash[0], hash[1], hash[2], hash[3] := 0x6a09e667, 0xbb67ae85, 0x3c6ef372, 0xa54ff53a;
      hash[4], hash[5], hash[6], hash[7] := 0x510e527f, 0x9b05688c, 0x1f83d9ab, 0x5be0cd19;
    }

    /** `processBlock`: one application of the compression function. */
    method ProcessBlock(block: seq<Byte>)
      requires Shape() && |block| == 64
      modifies hash
      ensures HashState() == Compress(old(HashState()), block)
    {
      hide K, Schedule, Rounds, Plus;
      var q := Sha256.BlockRounds(HashState(), block);
      hash[0], hash[1], hash[2], hash[3] :=
        Plus(hash[0], q.a), Plus(hash[1], q.b), Plus(hash[2], q.c), Plus(hash[3], q.d);
      hash[4], hash[5], hash[6], hash[7] :=
        Plus(hash[4], q.e), Plus(hash[5], q.f), Plus(hash[6], q.g), Plus(hash[7], q.h);
    }

    /** m_buffer[m_bufferSize++] = b */
    method BufferByte(b: Byte, ghost message: seq<Byte>)
      requires Shape() && bufferSize < 64 && Absorbed(message)
      modifies this`bufferSize, buffer
      ensures Absorbed(message + [b]) && bufferSize == old(bufferSize) + 1
    {
      hide HashBlocks, HashState;
      buffer[bufferSize] := b;
      bufferSize := bufferSize + 1;
      ghost var q := |message| - old(bufferSize);
      assert (message + [b])[..q] == message[..q];
      assert buffer[..bufferSize] == old(buffer[..bufferSize]) + [b];
      assert (message + [b])[q..] == message[q..] + [b];
    }

    /** The full buffer becomes a block. */
    method FlushBuffer(ghost message: seq<Byte>)
      requires Shape() && bufferSize == 64 && Absorbed(message)
      modifies this`bufferSize, this`numBytes, hash
      ensures Absorbed(message) && bufferSize == 0
    {
      hide HashBlocks, Compress, HashState, Absorbed;
      ghost var q := |message| - 64;
      WholeBuffer(message);
      AppendBlock(message[..q], message[q..]);
      ghost var h := HashState();
      ProcessBlock(buffer[..]);
      CountModulo(q);
      StillWhole(q);
      numBytes := (numBytes + 64) % TWO_64;
      bufferSize := 0;
      assert message[..q] + message[q..] == message;
      NothingBuffered(message);
    }

    lemma WholeBuffer(message: seq<Byte>)
      requires Shape() && bufferSize == 64 && Absorbed(message)
      ensures |message| >= 64 && |message| % 64 == 0 && numBytes == (|message| - 64) % TWO_64
      ensures buffer[..] == message[|message| - 64..]
      ensures HashState() == HashBlocks(INITIAL_HASH, message[..|message| - 64])
    {
      hide HashBlocks, HashState;
      assert buffer[..64] == buffer[..];
    }

    lemma EmptyBuffer(message: seq<Byte>)
      requires Shape() && bufferSize == 0 && Absorbed(message)
      ensures |message| % 64 == 0 && numBytes == |message| % TWO_64
      ensures HashState() == HashBlocks(INITIAL_HASH, message)
    {
      hide HashBlocks, HashState;
      assert message[..|message|] == message;
    }

    lemma NothingBuffered(message: seq<Byte>)
      requires Shape() && bufferSize == 0 && |message| % 64 == 0 && numBytes == |message| % TWO_64
      requires HashState() == HashBlocks(INITIAL_HASH, message)
      ensures Absorbed(message)
    {
      hide HashBlocks, HashState;
      assert message[..|message|] == message;
    }

    /** A block taken straight from the input. */
    method TakeBlock(block: seq<Byte>, ghost message: seq<Byte>)
      requires Shape() && bufferSize == 0 && |block| == 64 && Absorbed(message)
      modifies this`numBytes, hash
      ensures Absorbed(message + block) && bufferSize == 0
    {
      hide HashBlocks, Compress, HashState, Absorbed;
      EmptyBuffer(message);
      AppendBlock(message, block);
      ProcessBlock(block);
      ghost var n, after := |message|, message + block;
      CountModulo(n);
      StillWhole(n);
      numBytes := (numBytes + 64) % TWO_64;
      assert |after| == n + 64;
      NothingBuffered(after);
    }

    method Add(data: seq<Byte>)
      requires Valid()
      modifies this, buffer, hash
      ensures Valid() && fed == old(fed) + data
    {
      hide Absorbed;
      ghost var base := fed;
      fed := base + data;
      var current := 0;
      var left := |data|;
      assert base + data[..0] == base;
      if bufferSize > 0 {
        while left > 0 && bufferSize < 64
          invariant fed == base + data && 0 <= current && 0 <= left && current + left == |data| && 0 < bufferSize <= 64
          invariant Absorbed(base + data[..current])
        {
          BufferByte(data[current], base + data[..current]);
          assert base + data[..current] + [data[current]] == base + data[..current + 1];
          current, left := current + 1, left - 1;
        }
      }
      if bufferSize == 64 {
        FlushBuffer(base + data[..current]);
      }
      if left == 0 {
        assert base + data[..current] == fed;
        return;
      }
      while left >= 64
        invariant fed == base + data && 0 <= current && 0 <= left && current + left == |data| && bufferSize == 0
        invariant Absorbed(base + data[..current])
      {
        TakeBlock(data[current..current + 64], base + data[..current]);
        assert base + data[..current] + data[current..current + 64] == base + data[..current + 64];
        current, left := current + 64, left - 64;
      }
      while left > 0
        invariant fed == base + data && 0 <= current && 0 <= left && current + left == |data| && bufferSize + left < 64
        invariant Absorbed(base + data[..current])
      {
        BufferByte(data[current], base + data[..current]);
        assert base + data[..current] + [data[current]] == base + data[..current + 1];
        current, left := current + 1, left - 1;
      }
      assert base + data[..current] == fed;
    }

    /** The block in the buffer and, if the padding flowed over, the extra one. */
    method ProcessLast(block: seq<Byte>, extra: seq<Byte>)
      requires Shape() && |block| == 64 && |extra| in {0, 64}
      modifies hash
      ensures HashState() == HashBlocks(old(HashState()), block + extra)
    {
      hide HashBlocks, Compress, HashState;
      ghost var h := HashState();
      HashOneBlock(h, block);
      ProcessBlock(block);
      if |extra| > 0 {
        HashOneBlock(HashState(), extra);
        HashBlocksSplit(h, block, extra);
        ProcessBlock(extra);
      } else {
        assert block + extra == block;
      }
    }

    /** `processBuffer`: pads the tail into one or two blocks and compresses them. */
    method ProcessBuffer()
      requires Valid()
      modifies buffer, hash
      ensures HashState() == HashBlocks(INITIAL_HASH, fed + Padding(|fed|))
      ensures buffer[..bufferSize] == old(buffer[..bufferSize])
    {
      hide HashBlocks, Compress, HashState, Padding;
      ghost var tail := buffer[..bufferSize];
      PaddingFromTail(fed, tail, HashState());
      LengthModulo(|fed|, bufferSize);
      var extra := new Byte[64];
      var msgBits := 8 * ((numBytes + bufferSize) % TWO_64) % TWO_64;
      var overflow := WritePadding(buffer, extra, bufferSize, msgBits, |fed|);
      if overflow {
        ProcessLast(buffer[..], extra[..]);
      } else {
        assert buffer[..] + [] == buffer[..];
        ProcessLast(buffer[..], []);
      }
    }

    method SaveHash() returns (oldHash: array<Word>)
      requires Shape()
      ensures fresh(oldHash) && oldHash[..] == hash[..] && oldHash.Length == 8
    {
      oldHash := new Word[8];
      var i := 0;
      while i < 8
        invariant 0 <= i <= 8
        invariant oldHash[..i] == hash[..i]
        invariant hash[..] == old(hash[..])
      {
        oldHash[i] := hash[i];
        i := i + 1;
      }
      assert oldHash[..8] == oldHash[..] && hash[..8] == hash[..];
    }

    lemma StateFromWords(ws: seq<Word>)
      requires Shape() && hash[..] == ws
      ensures WordSeq(HashState()) == ws
    {
      assert WordSeq(HashState()) == hash[..];
    }

    /** `getHash(dst)`: the digest of everything added so far; the stream goes on. */
    method GetHash(dst: array<Byte>)
      requires Valid() && dst.Length >= 32 && dst != buffer && dst as object != hash
      modifies buffer, hash, dst
      ensures Valid() && dst[..32] == Digest(fed) && dst[32..] == old(dst[32..])
    {
      hide HashBlocks, Compress, HashState, Padding, WordBytes, BytesOf;
      var oldHash := SaveHash();
      ghost var state := hash[..];
      StateFromWords(state);
      ProcessBuffer();
      ghost var ws := hash[..];
      StateFromWords(ws);
      CopyDigest(dst, oldHash);
      StateFromWords(state);
    }

    /** Writes the words out and puts the saved ones back. */
    method CopyDigest(dst: array<Byte>, oldHash: array<Word>)
      requires Shape() && oldHash.Length == 8 && dst.Length >= 32
      requires oldHash != hash && dst as object != hash && dst as object != oldHash
      modifies hash, dst
      ensures dst[..32] == BytesOf(old(hash[..])) && dst[32..] == old(dst[32..])
      ensures hash[..] == oldHash[..]
    {
      hide WordBytes, BytesOf;
      ghost var ws := hash[..];
      assert BytesOf(ws[..0]) == dst[..0];
      var i := 0;
      while i < 8
        invariant 0 <= i <= 8
        invariant oldHash[..] == old(oldHash[..])
        invariant dst[..4 * i] == BytesOf(ws[..i])
        invariant dst[32..] == old(dst[32..])
        invariant hash[..i] == oldHash[..i] && hash[i..] == ws[i..]
      {
        assert hash[i] == ws[i];
        ghost var tail := dst[4 * i + 4..];
        PutWord(dst, 4 * i, hash[i]);
        assert dst[32..] == tail[28 - 4 * i..];
        BytesOfStep(ws, i);
        assert dst[..4 * i + 4] == dst[..4 * i] + dst[4 * i..4 * i + 4];
        hash[i] := oldHash[i];
        i := i + 1;
      }
      assert ws[..8] == ws && hash[..8] == hash[..] && oldHash[..8] == oldHash[..];
    }

    /** `getHash()`: the same digest in hexadecimal. */
    method GetHashHex() returns (text: string)
      requires Valid()
      modifies buffer, hash
      ensures Valid() && text == HexString(Digest(fed))
    {
      hide HashBlocks, Compress, HashState, Padding, HexString, BytesOf;
      var oldHash := SaveHash();
      ghost var state := hash[..];
      StateFromWords(state);
      ProcessBuffer();
      ghost var ws := hash[..];
      StateFromWords(ws);
      text := CopyHex(oldHash);
      StateFromWords(state);
    }

    method CopyHex(oldHash: array<Word>) returns (text: string)
      requires Shape() && oldHash.Length == 8 && oldHash != hash
      modifies hash
      ensures text == HexString(BytesOf(old(hash[..])))
      ensures hash[..] == oldHash[..]
    {
      hide HexString, BytesOf, WordHex;
      ghost var ws := hash[..];
      text := "";
      var i := 0;
      NoHex();
      assert ws[..0] == [];
      while i < 8
        invariant 0 <= i <= 8
        invariant oldHash[..] == old(oldHash[..])
        invariant text == HexString(BytesOf(ws[..i]))
        invariant hash[..i] == oldHash[..i] && hash[i..] == ws[i..]
      {
        assert hash[i] == ws[i];
        text := text + WordHex(hash[i]);
        HexOfWord(ws, i);
        hash[i] := oldHash[i];
        i := i + 1;
      }
      assert ws[..8] == ws && hash[..8] == hash[..] && oldHash[..8] == oldHash[..];
    }

    /** `operator()`: hashes one memory block. */
    method HashOf(data: seq<Byte>) returns (text: string)
      requires Valid()
      modifies this, buffer, hash
      ensures Valid() && fed == data && text == HexString(Digest(data))
    {
      Reset();
      Add(data);
      text := GetHashHex();
    }
  }

  // ---- What every stream computes

  function Concat(pieces: seq<seq<Byte>>): seq<Byte> {
    if pieces == [] then [] else Concat(pieces[..|pieces| - 1]) + pieces[|pieces| - 1]
  }

  ghost predicate DigestAfter(pieces: seq<seq<Byte>>, i: nat, text: string)
    requires i < |pieces|
  {
    text == HexString(Digest(Concat(pieces[..i + 1])))
  }

  method AddAndPeek(hasher: Hasher, pieces: seq<seq<Byte>>, i: nat, peek: bool) returns (text: string)
    requires i < |pieces| && hasher.Valid() && hasher.fed == Concat(pieces[..i])
    modifies hasher, hasher.buffer, hasher.hash
    ensures hasher.Valid() && hasher.fed == Concat(pieces[..i + 1])
    ensures peek ==> DigestAfter(pieces, i, text)
  {
    hide *;
    ConcatStep(pieces, i);
    hasher.Add(pieces[i]);
    text := "";
    if peek {
      text := hasher.GetHashHex();
      DigestIs(pieces, i, text);
    }
  }

  method FinalDigest(hasher: Hasher) returns (digest: seq<Byte>)
    requires hasher.Valid()
    modifies hasher.buffer, hasher.hash
    ensures digest == Digest(hasher.fed)
  {
    hide *;
    var dst := new Byte[32];
    hasher.GetHash(dst);
    digest := dst[..32];
  }

  lemma NoPieces(pieces: seq<seq<Byte>>)
    ensures Concat(pieces[..0]) == []
  {
  }

  lemma ConcatStep(pieces: seq<seq<Byte>>, i: nat)
    requires i < |pieces|
    ensures Concat(pieces[..i + 1]) == Concat(pieces[..i]) + pieces[i]
  {
    assert pieces[..i + 1][..i] == pieces[..i];
  }

  lemma DigestIs(pieces: seq<seq<Byte>>, i: nat, text: string)
    requires i < |pieces| && text == HexString(Digest(Concat(pieces[..i + 1])))
    ensures DigestAfter(pieces, i, text)
  {
  }

  /** Any split of a message into `add` calls, with the digest asked for after the pieces
      that `peek` selects: every digest is that of the bytes added so far. */
  method HashPieces(pieces: seq<seq<Byte>>, peek: nat -> bool) returns (digest: seq<Byte>, texts: seq<string>)
    ensures digest == Digest(Concat(pieces))
    ensures |texts| == |pieces|
    ensures forall i | 0 <= i < |pieces| && peek(i) :: DigestAfter(pieces, i, texts[i])
  {
    hide *;
    var hasher := new Hasher();
    texts := [];
    var i := 0;
    NoPieces(pieces);
    while i < |pieces|
      invariant 0 <= i <= |pieces| == |texts| + (|pieces| - i)
      invariant hasher.Valid() && hasher.fed == Concat(pieces[..i])
      invariant fresh(hasher) && fresh(hasher.buffer) && fresh(hasher.hash)
      invariant forall j | 0 <= j < i && peek(j) :: DigestAfter(pieces, j, texts[j])
    {
      var text := AddAndPeek(hasher, pieces, i, peek(i));
      texts := texts + [text];
      i := i + 1;
    }
    assert pieces[..i] == pieces;
    digest := FinalDigest(hasher);
  }
}
