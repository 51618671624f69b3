/** The unbounded content cache of contentcache.cpp: a slot allocator, the blocks that
    contents are divided into, and the queries over them. */
module ContentCaches {
  import opened Blocks
  import opened Sequences
  import opened Units
  import opened Wrappers
  import Arithmetic
  import Fips180

  type Byte = Fips180.Byte

  const BLOCK_SIZE: nat := 1024

  /** Block indices are 16 bits wide. */
  const INDEX_MODULUS: nat := 65536

  datatype Slot = Slot(blockIndex: nat, data: seq<Byte>, size: nat, expectedSize: nat) {
    predicate Shaped() { |data| == BLOCK_SIZE && size <= BLOCK_SIZE && blockIndex < INDEX_MODULUS }

    function Block(): seq<Byte>
      requires size <= |data|
    {
      data[..size]
    }

    predicate Complete() { size >= expectedSize }

    /** The slot says block 0, holds these bytes, and is complete if enough of them came. */
    predicate Holding(src: seq<Byte>, expected: nat) {
      |data| == 1024 && size == |src| <= 1024 && data[..|src|] == src && expectedSize == expected && blockIndex == 0
    }
  }

  /** A new element of the slot vector is value-initialized. */
  const EMPTY_SLOT: Slot := Slot(0, Fips180.Zeros(BLOCK_SIZE), 0, 0)

  function BlockCount(size: nat): (n: nat)
    requires size > 0
    ensures (n - 1) * 1024 < size <= n * 1024
  {
    1 + (size - 1) / BLOCK_SIZE
  }

  /** `1 + (size - 1) / block_size` in 64 bits: for empty data the subtraction wraps around. */
  function SlotsWanted(size: nat): nat {
    if size == 0 then 1 + 0xFFFF_FFFF_FFFF_FFFF / BLOCK_SIZE else BlockCount(size)
  }

  lemma RoundedUp(size: Counter, blockSize: Counter)
    requires size > 0 && blockSize > 0
    ensures
      var n := (1 + (size + MODULUS_32 - 1) % MODULUS_32 / blockSize) % MODULUS_32;
      (n - 1) * blockSize < size <= n * blockSize
  {
    assert (size + MODULUS_32 - 1) % MODULUS_32 == size - 1;
    var q := (size - 1) / blockSize;
    Arithmetic.DivBetween(size - 1, blockSize, q);
    Arithmetic.DivAtMost(size - 1, blockSize, 1);
    assert (1 + q) % MODULUS_32 == 1 + q;
  }

  lemma RoundedFromNothing(blockSize: Counter)
    requires blockSize > 0
    ensures
      var n := (1 + (MODULUS_32 - 1) % MODULUS_32 / blockSize) % MODULUS_32;
      (n - 1) * blockSize < 0 <= n * blockSize <==> blockSize == 1
  {
    var q := (MODULUS_32 - 1) / blockSize;
    if blockSize > 1 {
      Arithmetic.DivAtMost(MODULUS_32 - 1, blockSize, 2);
      assert (1 + q) % MODULUS_32 == 1 + q;
      Arithmetic.MulMonotone(0, q, blockSize);
    } else {
      assert q == MODULUS_32 - 1;
    }
  }

  type Counter = n: nat | n < MODULUS_32

  /** What a content's metadata says of its data. */
  datatype Description = Description(hash: Hash, size: Counter, blockSize: Counter) {
    /** `block_count`, in 32 bits; a block size of 0 is divided by. */
    function Blocks(): (n: Option<Counter>)
      ensures n.Some? <==> blockSize > 0
    {
      if blockSize == 0 then None
      else Some((1 + (size + MODULUS_32 - 1) % MODULUS_32 / blockSize) % MODULUS_32)
    }

    /** That many blocks hold the data and fewer do not, unless the data is empty: only with
        blocks of one byte is no block counted for it. */
    lemma CountFits()
      requires blockSize > 0
      ensures var n := Blocks().value; ((n - 1) * blockSize < size <= n * blockSize <==> size > 0 || blockSize == 1)
    {
      if size > 0 {
        RoundedUp(size, blockSize);
      } else {
        RoundedFromNothing(blockSize);
      }
      assert Blocks().value == (1 + (size + MODULUS_32 - 1) % MODULUS_32 / blockSize) % MODULUS_32;
    }
  }

  function Min(a: nat, b: nat): nat { if a < b then a else b }

  // ---- Index lists

  /** Free and occupied indices together are exactly the slots, each once. */
  ghost predicate Partition(free: seq<nat>, occupied: seq<nat>, slots: nat) {
    && Distinct(free + occupied)
    && forall i: nat :: i in free + occupied <==> i < slots
  }

  /** Each content has its own occupied slots. */
  ghost predicate Owned(content: map<Hash, seq<nat>>, occupied: seq<nat>) {
    && (forall h | h in content :: Distinct(content[h]) && forall i | i in content[h] :: i in occupied)
    && (forall h, k, i | h in content && k in content && i in content[h] && i in content[k] :: h == k)
  }

  /** Moving the free indices to the head of the occupied list. */
  lemma TakePartition(free: seq<nat>, occupied: seq<nat>, slots: nat, count: nat)
    requires Partition(free, occupied, slots) && count <= |free|
    ensures
      var k := |free| - count;
      Partition(free[..k], free[k..] + occupied, slots) && Distinct(free[k..]) && forall i | i in free[k..] :: i !in occupied
  {
    var k := |free| - count;
    assert free + occupied == free[..k] + (free[k..] + occupied);
    forall i, j | 0 <= i < j < |free[k..]|
      ensures free[k..][i] != free[k..][j]
    {
      assert (free + occupied)[k + i] == free[k..][i] && (free + occupied)[k + j] == free[k..][j];
    }
    forall i | i in free[k..]
      ensures i !in occupied
    {
      var a :| 0 <= a < |free[k..]| && free[k..][a] == i;
      assert (free + occupied)[k + a] == i;
      forall b | 0 <= b < |occupied|
        ensures occupied[b] != i
      {
        assert (free + occupied)[|free| + b] == occupied[b];
      }
    }
  }

  lemma GrowPartition(free: seq<nat>, occupied: seq<nat>, slots: nat)
    requires Partition(free, occupied, slots)
    ensures Partition(free + [slots], occupied, slots + 1)
  {
    var all, more := free + occupied, (free + [slots]) + occupied;
    forall i, j | 0 <= i < j < |more|
      ensures more[i] != more[j]
    {
      var i' := if i < |free| then i else i - 1;
      var j' := if j < |free| then j else j - 1;
      if i != |free| && j != |free| {
        assert more[i] == all[i'] && more[j] == all[j'];
      } else if i == |free| {
        assert more[j] == all[j'] && all[j'] in all;
      } else {
        assert more[i] == all[i'] && all[i'] in all;
      }
    }
    forall i: nat
      ensures i in more <==> i < slots + 1
    {
      assert i in more <==> i in all || i == slots;
    }
  }

  lemma AddContent(content: map<Hash, seq<nat>>, occupied: seq<nat>, hash: Hash, idxs: seq<nat>)
    requires Owned(content, occupied) && hash !in content
    requires Distinct(idxs) && forall i | i in idxs :: i !in occupied
    ensures Owned(content[hash := idxs], idxs + occupied)
  {
    hide Distinct;
    var c := content[hash := idxs];
    forall h, k, i | h in c && k in c && i in c[h] && i in c[k]
      ensures h == k
    {
      if h != hash {
        assert i in content[h];
      }
    }
  }

  // ---- Finding blocks

  ghost predicate InSlots(slots: seq<Slot>, idxs: seq<nat>) {
    forall k | 0 <= k < |idxs| :: idxs[k] < |slots| && slots[idxs[k]].Shaped()
  }

  /** The position in `idxs` of the slot for block `index`, or the length of the list. */
  ghost function FindIn(slots: seq<Slot>, idxs: seq<nat>, index: nat): (k: nat)
    requires InSlots(slots, idxs)
    ensures k <= |idxs|
    ensures k < |idxs| ==> slots[idxs[k]].blockIndex == index
    ensures forall j | 0 <= j < k :: slots[idxs[j]].blockIndex != index
  {
    if idxs == [] then 0
    else if slots[idxs[0]].blockIndex == index then 0
    else 1 + FindIn(slots, idxs[1..], index)
  }

  ghost function BlockAt(slots: seq<Slot>, idxs: seq<nat>, index: nat): (b: seq<Byte>)
    requires InSlots(slots, idxs)
    ensures |b| <= BLOCK_SIZE
  {
    var k := FindIn(slots, idxs, index);
    if k < |idxs| then slots[idxs[k]].Block() else []
  }

  /** The blocks found under indices 0 to n - 1, one after the other. */
  ghost function ReadBack(slots: seq<Slot>, idxs: seq<nat>, n: nat): (bytes: seq<Byte>)
    requires InSlots(slots, idxs)
    ensures |bytes| <= n * BLOCK_SIZE
  {
    if n == 0 then [] else ReadBack(slots, idxs, n - 1) + BlockAt(slots, idxs, n - 1)
  }

  ghost predicate SameSlots(slots: seq<Slot>, slots': seq<Slot>, idxs: seq<nat>) {
    forall k | 0 <= k < |idxs| :: idxs[k] < |slots| && idxs[k] < |slots'| && slots'[idxs[k]] == slots[idxs[k]]
  }

  lemma SameBlock(slots: seq<Slot>, slots': seq<Slot>, idxs: seq<nat>, index: nat)
    requires InSlots(slots, idxs) && InSlots(slots', idxs) && SameSlots(slots, slots', idxs)
    ensures FindIn(slots', idxs, index) == FindIn(slots, idxs, index)
    ensures BlockAt(slots', idxs, index) == BlockAt(slots, idxs, index)
  {
    hide FindIn;
    var a, b := FindIn(slots', idxs, index), FindIn(slots, idxs, index);
  }

  /** Two caches that agree on a content's slots read the same. */
  lemma {:induction false} SameReadBack(slots: seq<Slot>, slots': seq<Slot>, idxs: seq<nat>, n: nat)
    requires InSlots(slots, idxs) && InSlots(slots', idxs) && SameSlots(slots, slots', idxs)
    ensures ReadBack(slots', idxs, n) == ReadBack(slots, idxs, n)
  {
    hide BlockAt, InSlots, SameSlots;
    if n > 0 {
      SameReadBack(slots, slots', idxs, n - 1);
      SameBlock(slots, slots', idxs, n - 1);
    }
  }

  /** Slot `k` of the list holds piece `k` of the data. */
  ghost predicate Holds(slots: seq<Slot>, idxs: seq<nat>, data: seq<Byte>, k: nat)
    requires k < |idxs| && idxs[k] < |slots| && |data| > 0
  {
    var s := slots[idxs[k]];
    var lo, hi := Min(k * BLOCK_SIZE, |data|), Min((k + 1) * BLOCK_SIZE, |data|);
    s.Shaped() && s.blockIndex == k && s.Block() == data[lo..hi] && s.size == s.expectedSize
  }

  /** The list has one slot for each piece of the data, in order. */
  ghost predicate HoldsAll(slots: seq<Slot>, idxs: seq<nat>, data: seq<Byte>) {
    |data| > 0 && |idxs| == BlockCount(|data|) && forall k | 0 <= k < |idxs| :: idxs[k] < |slots| && Holds(slots, idxs, data, k)
  }

  lemma PieceFound(slots: seq<Slot>, idxs: seq<nat>, data: seq<Byte>, n: nat)
    requires |data| > 0 && n < |idxs| && InSlots(slots, idxs)
    requires forall k | 0 <= k < |idxs| :: Holds(slots, idxs, data, k)
    ensures BlockAt(slots, idxs, n) == data[Min(n * BLOCK_SIZE, |data|)..Min((n + 1) * BLOCK_SIZE, |data|)]
  {
    hide FindIn;
    assert Holds(slots, idxs, data, n);
    var k := FindIn(slots, idxs, n);
    if k < |idxs| {
      assert Holds(slots, idxs, data, k);
    }
  }

  lemma {:induction false} ReadBackPieces(slots: seq<Slot>, idxs: seq<nat>, data: seq<Byte>, n: nat)
    requires |data| > 0 && n <= |idxs| && InSlots(slots, idxs)
    requires forall k | 0 <= k < |idxs| :: Holds(slots, idxs, data, k)
    ensures ReadBack(slots, idxs, n) == data[..Min(n * BLOCK_SIZE, |data|)]
  {
    hide BlockAt, Holds, InSlots;
    if n > 0 {
      ReadBackPieces(slots, idxs, data, n - 1);
      PieceFound(slots, idxs, data, n - 1);
      var lo, hi := Min((n - 1) * BLOCK_SIZE, |data|), Min(n * BLOCK_SIZE, |data|);
      assert data[..hi] == data[..lo] + data[lo..hi];
    }
  }

  lemma PiecesCover(data: seq<Byte>)
    requires |data| > 0
    ensures BlockCount(|data|) * BLOCK_SIZE >= |data|
    ensures (BlockCount(|data|) - 1) * BLOCK_SIZE < |data|
    ensures BlockCount(|data|) <= INDEX_MODULUS <==> |data| <= INDEX_MODULUS * BLOCK_SIZE
  {
  }

  /** What one pass of the storing loop puts into a slot. */
  function Filled(s: Slot, index: nat, piece: seq<Byte>): Slot
    requires |piece| <= |s.data|
  {
    Slot(index, piece + s.data[|piece|..], |piece|, |piece|)
  }

  /** The slots of `idxs`, all new, that already hold the first `n` pieces of the data. */
  ghost predicate Written(slots: seq<Slot>, before: seq<Slot>, idxs: seq<nat>, data: seq<Byte>, n: nat)
    requires |data| > 0
  {
    && |slots| == |before| && n <= |idxs| && (forall i | 0 <= i < |slots| :: slots[i].Shaped())
    && (forall k | 0 <= k < |idxs| :: idxs[k] < |slots|)
    && (forall i | 0 <= i < |slots| && i !in idxs :: slots[i] == before[i])
    && (|idxs| <= INDEX_MODULUS ==> forall k | 0 <= k < n :: Holds(slots, idxs, data, k))
  }

  lemma WriteOne(slots: seq<Slot>, before: seq<Slot>, idxs: seq<nat>, data: seq<Byte>, n: nat)
    requires |data| > 0 && Written(slots, before, idxs, data, n) && n < |idxs| && Distinct(idxs)
    requires n * BLOCK_SIZE < |data|
    ensures
      var lo, hi := n * BLOCK_SIZE, Min((n + 1) * BLOCK_SIZE, |data|);
      var at := idxs[n % INDEX_MODULUS];
      at < |slots| && Written(slots[at := Filled(slots[at], n % INDEX_MODULUS, data[lo..hi])], before, idxs, data, n + 1)
  {
    var lo, hi := n * BLOCK_SIZE, Min((n + 1) * BLOCK_SIZE, |data|);
    var at := idxs[n % INDEX_MODULUS];
    assert slots[at].Shaped();
    var filled := Filled(slots[at], n % INDEX_MODULUS, data[lo..hi]);
    assert filled.Block() == data[lo..hi];
    var slots' := slots[at := filled];
    forall i | 0 <= i < |slots'|
      ensures slots'[i].Shaped()
    {
    }
    if |idxs| <= INDEX_MODULUS {
      forall k | 0 <= k < n + 1
        ensures Holds(slots', idxs, data, k)
      {
        if k < n {
          assert Holds(slots, idxs, data, k);
        }
      }
    }
  }

  /** A fresh slot once a single block has been copied into it. */
  function NewBlock(src: seq<Byte>, expectedSize: nat): Slot
    requires |src| <= BLOCK_SIZE
  {
    Slot(EMPTY_SLOT.blockIndex, src + EMPTY_SLOT.data[|src|..], |src|, expectedSize)
  }

  lemma NewBlockShaped(src: seq<Byte>, expectedSize: nat)
    requires |src| <= BLOCK_SIZE
    ensures NewBlock(src, expectedSize).Holding(src, expectedSize)
    ensures
      var s := NewBlock(src, expectedSize);
      && s == Slot(EMPTY_SLOT.blockIndex, src + EMPTY_SLOT.data[|src|..], |src|, expectedSize)
      && s.Shaped() && s.blockIndex == 0 && s.Block() == src
  {
  }

  // ---- The cache object

  class ContentCache {
    var slots: seq<Slot>
    var occupied: seq<nat>
    var free: seq<nat>
    var content: map<Hash, seq<nat>>

    /** An unbounded cache grows by exactly what it needs, so it never keeps a free slot. */
    ghost predicate Valid()
      reads this
    {
      && free == [] && Partition(free, occupied, |slots|) && Owned(content, occupied)
      && (forall i | 0 <= i < |slots| :: slots[i].Shaped())
    }

    constructor ()
      ensures Valid() && slots == [] && content == map[]
    {
      slots, occupied, free, content := [], [], [], map[];
    }

    lemma ContentInSlots(h: Hash)
      requires Valid() && h in content
      ensures InSlots(slots, content[h])
    {
      var idxs := content[h];
      forall k | 0 <= k < |idxs|
        ensures idxs[k] < |slots| && slots[idxs[k]].Shaped()
      {
        assert idxs[k] in idxs;
        assert idxs[k] in free + occupied;
      }
    }

    /** Two contents never share a slot, and no slot is both free and in use. */
    lemma SlotsNotShared(h: Hash, k: Hash, i: nat)
      requires Valid() && h in content && k in content && i in content[h] && h != k
      ensures i !in content[k] && i in occupied && i !in free && i < |slots|
    {
      assert i in free + occupied;
    }

    method GrowToFit(count: nat)
      requires Partition(free, occupied, |slots|)
      modifies `slots, `free
      ensures Partition(free, occupied, |slots|)
      ensures
        var added := if count <= |old(free)| then 0 else count - |old(free)|;
        && slots == old(slots) + seq(added, _ => EMPTY_SLOT)
        && free == old(free) + seq(added, i => old(|slots|) + i)
    {
      hide Partition;
      if count <= |free| {
        assert slots + [] == slots && free + [] == free;
        return;
      }
      var slotsToAdd := count - |free|;
      var newIdx := |slots|;
      ghost var base, before := free, slots;
      slots := slots + seq(slotsToAdd, _ => EMPTY_SLOT);
      var i := 0;
      assert base + seq(0, j => newIdx + j) == base;
      while i < slotsToAdd
        invariant 0 <= i <= slotsToAdd
        invariant slots == before + seq(slotsToAdd, _ => EMPTY_SLOT)
        invariant free == base + seq(i, j => |before| + j) && newIdx == |before| + i
        invariant Partition(free, occupied, newIdx)
      {
        GrowPartition(free, occupied, newIdx);
        free := free + [newIdx];
        newIdx := newIdx + 1;
        i := i + 1;
      }
    }

    /** `ensure_capacity` and `reserve_slots` of an unbounded cache. */
    method ReserveSlots(count: nat) returns (idxs: seq<nat>)
      requires Valid()
      modifies `slots, `free, `occupied
      ensures Partition(free, occupied, |slots|) && free == []
      ensures slots == old(slots) + seq(count, _ => EMPTY_SLOT)
      ensures idxs == seq(count, i => old(|slots|) + i) && occupied == idxs + old(occupied)
      ensures Distinct(idxs) && forall i | i in idxs :: i !in old(occupied)
    {
      hide Partition, Distinct;
      if |free| < count {
        GrowToFit(count);
      }
      assert slots == old(slots) + seq(count, _ => EMPTY_SLOT);
      assert free == seq(count, i => old(|slots|) + i);
      TakePartition(free, occupied, |slots|, count);
      var begin := |free| - count;
      idxs := free[begin..];
      occupied := free[begin..] + occupied;
      free := free[..begin];
    }

    /** The loop of `store(src, size)`: the 16-bit block index counts the slots filled. */
    method WriteBlocks(idxs: seq<nat>, data: seq<Byte>)
      requires |data| > 0 && |idxs| == BlockCount(|data|) && Distinct(idxs)
      requires Written(slots, slots, idxs, data, 0)
      modifies `slots
      ensures Written(slots, old(slots), idxs, data, |idxs|)
    {
      hide Written, Distinct;
      ghost var before := slots;
      ghost var n := 0;
      var read := 0;
      var blockIndex := 0;
      PiecesCover(data);
      while read != |data|
        invariant 0 <= n <= |idxs| && read == Min(n * BLOCK_SIZE, |data|)
        invariant blockIndex == n % INDEX_MODULUS
        invariant Written(slots, before, idxs, data, n)
        decreases |data| - read
      {
        assert n < |idxs|;
        var toRead := Min(BLOCK_SIZE, |data| - read);
        WriteOne(slots, before, idxs, data, n);
        WrittenShape(slots, before, idxs, data, n);
        var at := idxs[blockIndex];
        assert read + toRead == Min((n + 1) * BLOCK_SIZE, |data|);
        slots := slots[at := Filled(slots[at], blockIndex, data[read..read + toRead])];
        blockIndex := (blockIndex + 1) % INDEX_MODULUS;
        read := read + toRead;
        n := n + 1;
      }
      assert n == |idxs|;
    }

    /** `store(src, size)`: divides new data into blocks; data known by its hash is left as
        it is. Data of more than 65536 blocks reads back incompletely, because the block
        index wraps. `None` stands for not returning: empty data wants more slots than a
        vector can have, and known data must have as many as wanted. */
    method Store(data: seq<Byte>) returns (stored: Option<Hash>)
      requires Valid()
      modifies this
      ensures Valid()
      ensures
        var hash := Fips180.Digest(data);
        if hash in old(content) || data == [] then
          && slots == old(slots) && content == old(content)
          && stored == if hash in content && |content[hash]| == SlotsWanted(|data|) then Some(hash) else None
        else
          && stored == Some(hash) && content.Keys == old(content).Keys + {hash} && |content[hash]| == BlockCount(|data|)
          && InSlots(slots, content[hash])
          && (|data| <= 65536 * 1024 ==> HoldsAll(slots, content[hash], data))
          && (ReadBack(slots, content[hash], Min(BlockCount(|data|), 65536)) == data <==> |data| <= 65536 * 1024)
      ensures forall h | h in old(content) :: h in content && content[h] == old(content[h]) && SameSlots(old(slots), slots, content[h])
    {
      hide Fips180.Digest, Partition, Written, Owned, HoldsAll, ReadBack, InSlots, Distinct, BlockCount, SlotsWanted;
      var blockCount := SlotsWanted(|data|);
      var hash := Fips180.Digest(data);
      if hash in content {
        NothingMoved();
        if |content[hash]| != blockCount {
          return None;
        }
        return Some(hash);
      }
      if data == [] {
        NothingMoved();
        return None;
      }
      OldInRange();
      WantedIsCount(|data|);
      var taken := ReserveSlots(blockCount);
      ghost var before := slots;
      NewSlotsReady(slots, old(|slots|), taken, data);
      OldSlotsApart(taken, content, old(occupied));
      AddContent(content, old(occupied), hash, taken);
      WriteBlocks(taken, data);
      WrittenKeeps(slots, before, taken, data, old(slots), content);
      WrittenReads(slots, before, taken, data);
      content := content[hash := taken];
      return Some(hash);
    }

    lemma OldInRange()
      requires Valid()
      ensures forall h, i | h in content && i in content[h] :: i < |slots|
    {
      forall h, i | h in content && i in content[h]
        ensures i < |slots|
      {
        assert i in free + occupied;
      }
    }

    lemma NothingMoved()
      requires Valid()
      ensures forall h | h in content :: SameSlots(slots, slots, content[h])
    {
      forall h | h in content
        ensures SameSlots(slots, slots, content[h])
      {
        ContentInSlots(h);
      }
    }

    /** `find`: the slot of a block, looked for in the order of the content's list. */
    method Find(ref: BlockRef) returns (idx: Option<nat>)
      requires Valid()
      ensures ref.hash in content ==> InSlots(slots, content[ref.hash])
      ensures idx == if ref.hash in content && FindIn(slots, content[ref.hash], ref.index) < |content[ref.hash]|
                     then Some(content[ref.hash][FindIn(slots, content[ref.hash], ref.index)]) else None
    {
      hide FindIn, Partition, Owned;
      if ref.hash !in content {
        return None;
      }
      ContentInSlots(ref.hash);
      var idxs := content[ref.hash];
      var k := 0;
      while k < |idxs|
        invariant 0 <= k <= |idxs| && FindIn(slots, idxs, ref.index) >= k
      {
        if slots[idxs[k]].blockIndex == ref.index {
          return Some(idxs[k]);
        }
        k := k + 1;
      }
      return None;
    }

    /** `reserve_slot`. */
    method ReserveSlot() returns (idx: nat)
      requires Valid()
      modifies `slots, `free, `occupied
      ensures Partition(free, occupied, |slots|) && free == []
      ensures slots == old(slots) + [EMPTY_SLOT] && idx == old(|slots|) && occupied == [idx] + old(occupied)
      ensures idx !in old(occupied)
    {
      hide Partition;
      if |free| < 1 {
        GrowToFit(1);
      }
      assert free == [|old(slots)|];
      TakePartition(free, occupied, |slots|, 1);
      idx := free[|free| - 1];
      assert free[|free| - 1..] == [idx];
      free := free[..|free| - 1];
      occupied := [idx] + occupied;
    }

    /** `store(ref, ...)` for a single block. The new slot's block index is never written, so
        the block can be found again under its own index only if that index is 0. */
    method StoreBlock(ref: BlockRef, expectedSize: nat, src: seq<Byte>) returns (idx: Option<nat>)
      requires Valid() && |src| <= BLOCK_SIZE
      modifies this
      ensures Valid() && ref.hash in content && InSlots(slots, content[ref.hash])
      ensures
        var before := if ref.hash in old(content) then old(content[ref.hash]) else [];
        if exists k :: 0 <= k < |before| && before[k] < |old(slots)| && old(slots)[before[k]].blockIndex == ref.index then
          idx == None && slots == old(slots) && content[ref.hash] == before
        else
          && idx == Some(|old(slots)|) && content[ref.hash] == before + [idx.value]
          && slots == old(slots) + [NewBlock(src, expectedSize)]
          && slots[idx.value].Holding(src, expectedSize)
          && (FindIn(slots, content[ref.hash], ref.index) < |content[ref.hash]| <==> ref.index == 0)
      ensures content.Keys == old(content).Keys + {ref.hash}
      ensures forall h | h in old(content) && h != ref.hash :: content[h] == old(content[h])
    {
      hide Partition, Owned, FindIn, InSlots, Distinct;
      EnsureList(ref.hash);
      ContentInSlots(ref.hash);
      var idxs := content[ref.hash];
      OldInRange();
      var present := HasIndex(slots, idxs, ref.index);
      if present {
        return None;
      }
      var at := AppendBlock(ref, expectedSize, src);
      return Some(at);
    }

    method AppendBlock(ref: BlockRef, expectedSize: nat, src: seq<Byte>) returns (at: nat)
      requires Valid() && |src| <= BLOCK_SIZE && ref.hash in content && InSlots(slots, content[ref.hash])
      requires forall k | 0 <= k < |content[ref.hash]| :: slots[content[ref.hash][k]].blockIndex != ref.index
      modifies this
      ensures Valid() && at == |old(slots)| && slots == old(slots) + [NewBlock(src, expectedSize)]
      ensures content == old(content)[ref.hash := old(content)[ref.hash] + [at]]
      ensures InSlots(slots, content[ref.hash])
      ensures FindIn(slots, content[ref.hash], ref.index) < |content[ref.hash]| <==> ref.index == 0
    {
      hide Partition, Owned, FindIn, InSlots, Distinct, NewBlock;
      ghost var idxs := content[ref.hash];
      at := ReserveSlot();
      AddToContent(content, old(occupied), ref.hash, at);
      content := content[ref.hash := content[ref.hash] + [at]];
      NewBlockShaped(src, expectedSize);
      slots := slots[at := Slot(slots[at].blockIndex, src + slots[at].data[|src|..], |src|, expectedSize)];
      assert slots == old(slots) + [NewBlock(src, expectedSize)];
      LastFound(old(slots), slots, idxs, at, ref.index);
    }

    /** operator[] of the content map adds an empty list for an unknown hash. */
    method EnsureList(hash: Hash)
      requires Valid()
      modifies `content
      ensures Valid() && hash in content
      ensures content == if hash in old(content) then old(content) else old(content)[hash := []]
    {
      if hash !in content {
        content := content[hash := []];
      }
    }

    /** `validate_data`; `None` when it divides by zero or its assertion about the total size
        fails. */
    method ValidateData(m: Description) returns (ok: Option<bool>)
      requires Valid()
      ensures m.hash in content ==> InSlots(slots, content[m.hash])
      ensures ok == if m.hash !in content then Some(false)
                    else if m.blockSize == 0 then None
                    else if |content[m.hash]| != m.Blocks().value then Some(false)
                    else if SizeSum(slots, content[m.hash]) == m.size then Some(true) else None
    {
      hide Partition, Owned, InSlots;
      if m.hash !in content {
        return Some(false);
      }
      ContentInSlots(m.hash);
      if m.blockSize == 0 {
        return None;
      }
      var idxs := content[m.hash];
      if |idxs| != m.Blocks().value {
        return Some(false);
      }
      var total := SumSizes(slots, idxs);
      if total != m.size {
        return None;
      }
      return Some(true);
    }

    /** `missing_blocks`; `None` when it divides by zero, writes outside its table or wants
        room for a negative number of indices. The indices it returns are cut to 16 bits, so
        the list is the one that is wanted if and only if there are at most 65536 blocks. */
    method MissingBlocks(m: Description) returns (missing: Option<seq<nat>>, ghost all: seq<nat>)
      requires Valid()
      ensures m.hash in content ==> InSlots(slots, content[m.hash])
      ensures missing.Some? <==> m.blockSize > 0 && (m.hash in content ==> FitsTable(slots, content[m.hash], m.Blocks().value))
      ensures missing.Some? ==>
        var n := m.Blocks().value;
        && ListsMissing(all, slots, content, m.hash, n) && missing.value == Cut(all)
        && (ListsMissing(missing.value, slots, content, m.hash, n) <==> n <= 65536)
    {
      hide Partition, Owned, InSlots, Has, Increasing, Cut, ListsMissing, FitsTable, Description.Blocks;
      all := [];
      if m.hash in content {
        ContentInSlots(m.hash);
      }
      if m.blockSize == 0 {
        return None, all;
      }
      var blockCount := m.Blocks().value;
      var flags := new bool[blockCount](_ => true);
      if m.hash in content {
        var fits := MarkPresent(slots, content[m.hash], flags);
        if !fits {
          return None, all;
        }
      }
      ghost var absent := flags[..];
      assert forall i: nat | i < blockCount :: absent[i] <==> !(m.hash in content && Has(slots, content[m.hash], i));
      var list: seq<nat> := [];
      var i := 0;
      NothingIncreasing();
      NothingCut();
      while i < blockCount
        invariant 0 <= i <= blockCount
        invariant Increasing(all) && (forall j | j in all :: j < i) && list == Cut(all)
        invariant flags[..] == absent
        invariant forall j: nat :: j in all <==> j < i && absent[j]
      {
        if flags[i] {
          IncreasingPush(all, i);
          CutPush(all, i);
          list, all := list + [i % INDEX_MODULUS], all + [i];
        }
        i := i + 1;
      }
      ListsThem(all, slots, content, m.hash, blockCount);
      CutFits(all, slots, content, m.hash, blockCount);
      missing := Some(list);
    }
  }

  /** The sizes of the slots, added up. */
  ghost function SizeSum(slots: seq<Slot>, idxs: seq<nat>): nat
    requires InSlots(slots, idxs)
  {
    if idxs == [] then 0 else SizeSum(slots, idxs[..|idxs| - 1]) + slots[idxs[|idxs| - 1]].size
  }

  method SumSizes(slots: seq<Slot>, idxs: seq<nat>) returns (total: nat)
    requires InSlots(slots, idxs)
    ensures total == SizeSum(slots, idxs)
  {
    total := 0;
    var k := 0;
    while k < |idxs|
      invariant 0 <= k <= |idxs| && total == SizeSum(slots, idxs[..k])
    {
      assert idxs[..k + 1][..k] == idxs[..k];
      total := total + slots[idxs[k]].size;
      k := k + 1;
    }
    assert idxs[..k] == idxs;
  }

  lemma {:induction false} PieceSizes(slots: seq<Slot>, idxs: seq<nat>, data: seq<Byte>, n: nat)
    requires |data| > 0 && n <= |idxs| && InSlots(slots, idxs)
    requires forall k | 0 <= k < |idxs| :: Holds(slots, idxs, data, k)
    ensures SizeSum(slots, idxs[..n]) == Min(n * BLOCK_SIZE, |data|)
  {
    if n > 0 {
      PieceSizes(slots, idxs, data, n - 1);
      assert idxs[..n][..n - 1] == idxs[..n - 1];
      assert Holds(slots, idxs, data, n - 1);
      var s := slots[idxs[n - 1]];
      var lo, hi := Min((n - 1) * BLOCK_SIZE, |data|), Min(n * BLOCK_SIZE, |data|);
      assert |s.Block()| == s.size && |data[lo..hi]| == hi - lo;
    }
  }

  /** The assertion in `validate_data` never fails for data that `store(src, size)` left. */
  lemma StoredSizesAddUp(slots: seq<Slot>, idxs: seq<nat>, data: seq<Byte>)
    requires HoldsAll(slots, idxs, data)
    ensures InSlots(slots, idxs) && SizeSum(slots, idxs) == |data|
  {
    hide BlockCount, SizeSum;
    assert InSlots(slots, idxs) by {
      forall k | 0 <= k < |idxs|
        ensures idxs[k] < |slots| && slots[idxs[k]].Shaped()
      {
        assert Holds(slots, idxs, data, k);
      }
    }
    hide Holds;
    PieceSizes(slots, idxs, data, |idxs|);
    assert idxs[..|idxs|] == idxs;
    PiecesCover(data);
  }

  lemma WantedIsCount(size: nat)
    requires size > 0
    ensures SlotsWanted(size) == BlockCount(size)
  {
  }

  lemma NewSlotsReady(slots: seq<Slot>, first: nat, taken: seq<nat>, data: seq<Byte>)
    requires |data| > 0 && |slots| == first + |taken| && taken == seq(|taken|, i => first + i)
    requires forall i | 0 <= i < first :: slots[i].Shaped()
    requires forall i | first <= i < |slots| :: slots[i] == EMPTY_SLOT
    ensures Written(slots, slots, taken, data, 0)
  {
    hide Holds;
    assert EMPTY_SLOT.Shaped();
  }

  lemma OldSlotsApart(taken: seq<nat>, content: map<Hash, seq<nat>>, occupied: seq<nat>)
    requires Owned(content, occupied) && (forall i | i in taken :: i !in occupied)
    ensures forall h, i | h in content && i in content[h] :: i !in taken
  {
  }

  lemma WrittenShape(slots: seq<Slot>, before: seq<Slot>, idxs: seq<nat>, data: seq<Byte>, n: nat)
    requires |data| > 0 && Written(slots, before, idxs, data, n)
    ensures |slots| == |before| && InSlots(slots, idxs) && forall i | 0 <= i < |slots| :: slots[i].Shaped()
  {
    hide Holds;
  }

  lemma WrittenKeeps(slots: seq<Slot>, before: seq<Slot>, taken: seq<nat>, data: seq<Byte>, original: seq<Slot>, content: map<Hash, seq<nat>>)
    requires |data| > 0 && Written(slots, before, taken, data, |taken|)
    requires |original| <= |before| && forall i | 0 <= i < |original| :: before[i] == original[i]
    requires forall h, i | h in content && i in content[h] :: i !in taken && i < |original|
    ensures forall h | h in content :: SameSlots(original, slots, content[h])
    ensures |slots| == |before| && InSlots(slots, taken) && forall i | 0 <= i < |slots| :: slots[i].Shaped()
  {
    hide Holds;
    forall h | h in content
      ensures SameSlots(original, slots, content[h])
    {
      forall k | 0 <= k < |content[h]|
        ensures content[h][k] < |original| && content[h][k] < |slots| && slots[content[h][k]] == original[content[h][k]]
      {
        var i := content[h][k];
        assert i in content[h];
        assert i !in taken && i < |original|;
        assert slots[i] == before[i];
        assert before[i] == original[i];
      }
    }
  }

  lemma WrittenReads(slots: seq<Slot>, before: seq<Slot>, taken: seq<nat>, data: seq<Byte>)
    requires |data| > 0 && |taken| == BlockCount(|data|) && Written(slots, before, taken, data, |taken|)
    ensures InSlots(slots, taken)
    ensures |data| <= INDEX_MODULUS * BLOCK_SIZE ==> HoldsAll(slots, taken, data)
    ensures ReadBack(slots, taken, Min(|taken|, INDEX_MODULUS)) == data <==> |data| <= INDEX_MODULUS * BLOCK_SIZE
  {
    hide Holds, ReadBack;
    PiecesCover(data);
    WrittenShape(slots, before, taken, data, |taken|);
    if |taken| <= INDEX_MODULUS {
      ReadBackPieces(slots, taken, data, |taken|);
      assert data[..|data|] == data;
    } else {
      assert |ReadBack(slots, taken, INDEX_MODULUS)| <= INDEX_MODULUS * BLOCK_SIZE;
    }
  }

  method HasIndex(slots: seq<Slot>, idxs: seq<nat>, index: nat) returns (present: bool)
    requires InSlots(slots, idxs)
    ensures present <==> exists k :: 0 <= k < |idxs| && slots[idxs[k]].blockIndex == index
  {
    var k := 0;
    while k < |idxs|
      invariant 0 <= k <= |idxs|
      invariant forall j | 0 <= j < k :: slots[idxs[j]].blockIndex != index
    {
      if slots[idxs[k]].blockIndex == index {
        return true;
      }
      k := k + 1;
    }
    return false;
  }

  lemma AddToContent(content: map<Hash, seq<nat>>, occupied: seq<nat>, hash: Hash, at: nat)
    requires Owned(content, occupied) && hash in content && at !in occupied
    ensures Owned(content[hash := content[hash] + [at]], [at] + occupied)
  {
    var idxs := content[hash] + [at];
    var c := content[hash := idxs];
    forall i | 0 <= i < |content[hash]|
      ensures content[hash][i] != at
    {
      assert content[hash][i] in content[hash];
    }
    assert Distinct(idxs);
    forall h, k, i | h in c && k in c && i in c[h] && i in c[k]
      ensures h == k
    {
      if i != at {
        assert i in content[h];
      }
    }
  }

  lemma LastFound(before: seq<Slot>, slots: seq<Slot>, idxs: seq<nat>, at: nat, index: nat)
    requires InSlots(before, idxs) && at == |before| && |slots| == at + 1 && slots[at].Shaped() && slots[at].blockIndex == 0
    requires forall i | 0 <= i < |before| :: slots[i] == before[i]
    requires forall k | 0 <= k < |idxs| :: before[idxs[k]].blockIndex != index
    ensures InSlots(slots, idxs + [at])
    ensures FindIn(slots, idxs + [at], index) < |idxs + [at]| <==> index == 0
  {
    hide FindIn;
    var all := idxs + [at];
    forall k | 0 <= k < |all|
      ensures all[k] < |slots| && slots[all[k]].Shaped()
    {
    }
    assert all[|idxs|] == at;
    forall k | 0 <= k < |idxs|
      ensures slots[all[k]].blockIndex != index
    {
      assert all[k] == idxs[k];
    }
    var k := FindIn(slots, all, index);
  }

  // ---- Which blocks are there

  /** Some complete slot of the list holds block `index`. */
  ghost predicate Has(slots: seq<Slot>, idxs: seq<nat>, index: nat)
    requires InSlots(slots, idxs)
  {
    exists k :: 0 <= k < |idxs| && slots[idxs[k]].Complete() && slots[idxs[k]].blockIndex == index
  }

  ghost function CompleteCount(slots: seq<Slot>, idxs: seq<nat>): (c: nat)
    requires InSlots(slots, idxs)
    ensures c <= |idxs|
  {
    if idxs == [] then 0
    else
      CompleteCount(slots, idxs[..|idxs| - 1]) + if slots[idxs[|idxs| - 1]].Complete() then 1 else 0
  }

  /** The complete slots are no more than `n` and their indices below it. */
  ghost predicate FitsTable(slots: seq<Slot>, idxs: seq<nat>, n: nat)
    requires InSlots(slots, idxs)
  {
    && (forall k | 0 <= k < |idxs| && slots[idxs[k]].Complete() :: slots[idxs[k]].blockIndex < n)
    && CompleteCount(slots, idxs) <= n
  }

  /** The loop over the slots; false when it leaves the table or counts more complete slots
      than the table has. */
  method MarkPresent(slots: seq<Slot>, idxs: seq<nat>, flags: array<bool>) returns (fits: bool)
    requires InSlots(slots, idxs)
    requires forall i | 0 <= i < flags.Length :: flags[i]
    modifies flags
    ensures fits <==> FitsTable(slots, idxs, flags.Length)
    ensures fits ==> forall i: nat | i < flags.Length :: flags[i] <==> !Has(slots, idxs, i)
  {
    hide CompleteCount;
    var k, blockCount := 0, flags.Length;
    NoneComplete(slots, idxs);
    while k < |idxs|
      invariant 0 <= k <= |idxs| && blockCount == flags.Length - CompleteCount(slots, idxs[..k])
      invariant forall j | 0 <= j < k && slots[idxs[j]].Complete() :: slots[idxs[j]].blockIndex < flags.Length
      invariant forall i: nat | i < flags.Length ::
        flags[i] <==> forall j | 0 <= j < k :: !(slots[idxs[j]].Complete() && slots[idxs[j]].blockIndex == i)
    {
      OneCounted(slots, idxs, k);
      if slots[idxs[k]].size < slots[idxs[k]].expectedSize {
      } else {
        if slots[idxs[k]].blockIndex >= flags.Length {
          return false;
        }
        flags[slots[idxs[k]].blockIndex] := false;
        blockCount := blockCount - 1;
      }
      k := k + 1;
    }
    assert idxs[..k] == idxs;
    return blockCount >= 0;
  }

  lemma NoneComplete(slots: seq<Slot>, idxs: seq<nat>)
    requires InSlots(slots, idxs)
    ensures CompleteCount(slots, idxs[..0]) == 0
  {
  }

  lemma OneCounted(slots: seq<Slot>, idxs: seq<nat>, k: nat)
    requires k < |idxs| && InSlots(slots, idxs)
    ensures
      CompleteCount(slots, idxs[..k + 1]) == CompleteCount(slots, idxs[..k]) + if slots[idxs[k]].Complete() then 1 else 0
  {
    assert idxs[..k + 1][..k] == idxs[..k];
  }

  ghost predicate Increasing(s: seq<nat>) {
    forall i, j | 0 <= i < j < |s| :: s[i] < s[j]
  }

  lemma NothingIncreasing()
    ensures Increasing([])
  {
  }

  /** The indices below `n` without a complete slot, each once, in order. */
  ghost predicate ListsMissing(list: seq<nat>, slots: seq<Slot>, content: map<Hash, seq<nat>>, hash: Hash, n: nat)
    requires hash in content ==> InSlots(slots, content[hash])
  {
    && Increasing(list)
    && forall i: nat :: i in list <==> i < n && !(hash in content && Has(slots, content[hash], i))
  }

  lemma ListsThem(list: seq<nat>, slots: seq<Slot>, content: map<Hash, seq<nat>>, hash: Hash, n: nat)
    requires hash in content ==> InSlots(slots, content[hash])
    requires Increasing(list)
    requires forall i: nat :: i in list <==> i < n && !(hash in content && Has(slots, content[hash], i))
    ensures ListsMissing(list, slots, content, hash, n)
  {
  }

  /** Block indices have 16 bits. */
  function Cut(list: seq<nat>): (r: seq<nat>)
    ensures |r| == |list| && forall i | 0 <= i < |r| :: r[i] == list[i] % INDEX_MODULUS
  {
    seq(|list|, i requires 0 <= i < |list| => list[i] % INDEX_MODULUS)
  }

  lemma NothingCut()
    ensures Cut([]) == []
  {
  }

  lemma CutPush(list: seq<nat>, i: nat)
    ensures Cut(list + [i]) == Cut(list) + [i % INDEX_MODULUS]
  {
  }

  /** A slot has a 16-bit index, so from block 65536 on everything is missing. */
  lemma CutFits(all: seq<nat>, slots: seq<Slot>, content: map<Hash, seq<nat>>, hash: Hash, n: nat)
    requires hash in content ==> InSlots(slots, content[hash])
    requires ListsMissing(all, slots, content, hash, n)
    ensures ListsMissing(Cut(all), slots, content, hash, n) <==> n <= INDEX_MODULUS
  {
    hide Cut, Increasing;
    if n <= INDEX_MODULUS {
      forall i | 0 <= i < |all|
        ensures all[i] % INDEX_MODULUS == all[i]
      {
        assert all[i] in all;
      }
      assert Cut(all) == all;
    } else {
      assert !(hash in content && Has(slots, content[hash], INDEX_MODULUS));
      forall i | 0 <= i < |Cut(all)|
        ensures Cut(all)[i] != INDEX_MODULUS
      {
      }
      assert INDEX_MODULUS !in Cut(all);
    }
  }

  /** An unknown content with 65537 blocks: the list starts with 0 and ends with 0. */
  lemma UnknownContentWraps(all: seq<nat>, slots: seq<Slot>, content: map<Hash, seq<nat>>, hash: Hash, n: nat)
    requires hash !in content && ListsMissing(all, slots, content, hash, n)
    ensures |all| == n && forall i | 0 <= i < n :: all[i] == i
    ensures n == INDEX_MODULUS + 1 ==> Cut(all)[0] == 0 && Cut(all)[INDEX_MODULUS] == 0
  {
    AllBelow(all, n);
  }

  lemma LastIn(s: seq<nat>)
    ensures s == [] || s[|s| - 1] in s
  {
  }

  lemma FirstIn(s: seq<nat>)
    ensures s == [] || s[0] in s
  {
  }

  lemma {:induction false} AllBelow(all: seq<nat>, n: nat)
    requires Increasing(all) && forall i: nat :: i in all <==> i < n
    ensures |all| == n && forall i | 0 <= i < n :: all[i] == i
  {
    if n == 0 {
      FirstIn(all);
    } else {
      var k := |all| - 1;
      assert n - 1 in all;
      var at :| 0 <= at < |all| && all[at] == n - 1;
      LastIn(all);
      var init := all[..k];
      forall i: nat
        ensures i in init <==> i < n - 1
      {
        if i in init {
          assert i in all;
        }
        if i < n - 1 {
          assert i in all;
          var j :| 0 <= j < |all| && all[j] == i;
          assert init[j] == i;
        }
      }
      AllBelow(init, n - 1);
    }
  }

  lemma IncreasingPush(s: seq<nat>, x: nat)
    requires Increasing(s) && forall j | j in s :: j < x
    ensures Increasing(s + [x])
  {
    forall i | 0 <= i < |s|
      ensures s[i] < x
    {
      assert s[i] in s;
    }
  }

  /** The slots of a content are all complete and stand for different blocks below `n`. */
  ghost predicate Sound(slots: seq<Slot>, idxs: seq<nat>, n: nat) {
    && InSlots(slots, idxs)
    && (forall k | 0 <= k < |idxs| :: slots[idxs[k]].Complete() && slots[idxs[k]].blockIndex < n)
    && (forall j, k | 0 <= j < k < |idxs| :: slots[idxs[j]].blockIndex != slots[idxs[k]].blockIndex)
  }

  ghost function IndicesOf(slots: seq<Slot>, idxs: seq<nat>): (r: seq<nat>)
    requires InSlots(slots, idxs)
    ensures |r| == |idxs| && forall k | 0 <= k < |r| :: r[k] == slots[idxs[k]].blockIndex
  {
    seq(|idxs|, k requires 0 <= k < |idxs| => slots[idxs[k]].blockIndex)
  }

  ghost function Range(n: nat): (r: set<nat>)
    ensures forall i: nat :: i in r <==> i < n
    ensures |r| == n
  {
    if n == 0 then {} else Range(n - 1) + {n - 1}
  }

  lemma SubsetOfSameSize(a: set<nat>, b: set<nat>)
    requires a <= b && |a| == |b|
    ensures a == b
  {
    assert |b - a| == |b| - |a|;
    assert b == a + (b - a);
  }

  lemma SoundNames(slots: seq<Slot>, idxs: seq<nat>, n: nat)
    requires Sound(slots, idxs, n)
    ensures InSlots(slots, idxs) && Distinct(IndicesOf(slots, idxs)) && forall i | i in IndicesOf(slots, idxs) :: i < n
  {
  }

  lemma HasIsNamed(slots: seq<Slot>, idxs: seq<nat>, n: nat, i: nat)
    requires Sound(slots, idxs, n)
    ensures Has(slots, idxs, i) <==> i in IndicesOf(slots, idxs)
  {
    hide IndicesOf;
    var named := IndicesOf(slots, idxs);
    if Has(slots, idxs, i) {
      var k :| 0 <= k < |idxs| && slots[idxs[k]].Complete() && slots[idxs[k]].blockIndex == i;
      assert named[k] == i;
    }
    if i in named {
      var k :| 0 <= k < |named| && named[k] == i;
      assert slots[idxs[k]].Complete();
    }
  }

  /** As many slots as blocks means that no block is missing, and the other way round. */
  lemma CountDecides(slots: seq<Slot>, idxs: seq<nat>, n: nat)
    requires Sound(slots, idxs, n)
    ensures |idxs| == n <==> forall i: nat | i < n :: Has(slots, idxs, i)
  {
    hide IndicesOf, Sound, Has, Elems, InSlots, Range, Distinct;
    SoundNames(slots, idxs, n);
    var named := IndicesOf(slots, idxs);
    var have, all := Elems(named), Range(n);
    DistinctSize(named);
    forall i: nat
      ensures Has(slots, idxs, i) <==> i in have
    {
      HasIsNamed(slots, idxs, n, i);
    }
    if |idxs| == n {
      SubsetOfSameSize(have, all);
    }
    if forall i: nat | i < n :: Has(slots, idxs, i) {
      assert have == all;
    }
  }

  /** When a content's slots are complete and stand for different blocks in range, the two
      queries agree: the data is refused exactly when a block is missing. */
  method QueriesAgree(cache: ContentCache, m: Description) returns (valid: Option<bool>, missing: seq<nat>)
    requires cache.Valid() && m.hash in cache.content && m.blockSize > 0
    requires Sound(cache.slots, cache.content[m.hash], m.Blocks().value)
    ensures valid == Some(false) <==> missing != []
    ensures valid == Some(true) <==> missing == [] && SizeSum(cache.slots, cache.content[m.hash]) == m.size
    ensures valid == Some(false) <==> |cache.content[m.hash]| != m.Blocks().value
  {
    hide ListsMissing, Cut, SizeSum, Description.Blocks, Sound, FitsTable, Has;
    ghost var all;
    var list;
    var blockCount := m.Blocks().value;
    valid := cache.ValidateData(m);
    SoundFits(cache.slots, cache.content[m.hash], blockCount);
    list, all := cache.MissingBlocks(m);
    missing := list.value;
    CountDecides(cache.slots, cache.content[m.hash], blockCount);
    NoneListed(all, cache.slots, cache.content, m.hash, blockCount);
  }

  /** Different indices below `n` are no more than `n`. */
  lemma SoundFits(slots: seq<Slot>, idxs: seq<nat>, n: nat)
    requires Sound(slots, idxs, n)
    ensures InSlots(slots, idxs) && FitsTable(slots, idxs, n)
  {
    hide IndicesOf, Elems, Range, Distinct, CompleteCount;
    SoundNames(slots, idxs, n);
    var named := IndicesOf(slots, idxs);
    DistinctSize(named);
    assert Elems(named) <= Range(n);
    SubsetIsSmaller(Elems(named), Range(n));
  }

  lemma SubsetIsSmaller(a: set<nat>, b: set<nat>)
    requires a <= b
    ensures |a| <= |b|
  {
    assert |b - a| == |b| - |a|;
  }

  lemma NoneListed(all: seq<nat>, slots: seq<Slot>, content: map<Hash, seq<nat>>, hash: Hash, n: nat)
    requires hash in content && InSlots(slots, content[hash]) && ListsMissing(all, slots, content, hash, n)
    ensures all == [] <==> forall i: nat | i < n :: Has(slots, content[hash], i)
  {
    if all != [] {
      assert all[0] in all;
    }
  }

  /** Data that was just stored is valid and nothing of it is missing. */
  method StoreThenQuery(cache: ContentCache, data: seq<Byte>) returns (valid: Option<bool>, missing: seq<nat>)
    requires cache.Valid() && Fips180.Digest(data) !in cache.content && 0 < |data| <= INDEX_MODULUS * BLOCK_SIZE
    modifies cache
    ensures cache.Valid() && valid == Some(true) && missing == []
  {
    hide Fips180.Digest, ReadBack, Partition, Owned, HoldsAll, SameSlots, SizeSum, Sound, BlockCount;
    var stored := cache.Store(data);
    var hash := Fips180.Digest(data);
    StoredIsSound(cache.slots, cache.content[hash], data);
    StoredSizesAddUp(cache.slots, cache.content[hash], data);
    CountOfStored(cache.slots, cache.content[hash], data);
    CountInBlocks(hash, |data|);
    valid, missing := QueriesAgree(cache, Description(hash, |data|, BLOCK_SIZE));
  }

  lemma CountInBlocks(hash: Hash, size: nat)
    requires 0 < size < MODULUS_32
    ensures Description(hash, size, BLOCK_SIZE).Blocks() == Some(BlockCount(size))
  {
  }

  lemma CountOfStored(slots: seq<Slot>, idxs: seq<nat>, data: seq<Byte>)
    requires HoldsAll(slots, idxs, data)
    ensures |data| > 0 && |idxs| == BlockCount(|data|) && InSlots(slots, idxs)
    ensures forall i: nat | i < |idxs| :: Has(slots, idxs, i)
  {
    StoredIsSound(slots, idxs, data);
    hide HoldsAll;
    CountDecides(slots, idxs, |idxs|);
  }

  /** What `store(src, size)` leaves behind satisfies that condition. */
  lemma StoredIsSound(slots: seq<Slot>, idxs: seq<nat>, data: seq<Byte>)
    requires HoldsAll(slots, idxs, data)
    ensures Sound(slots, idxs, BlockCount(|data|))
  {
    hide BlockCount;
    forall k | 0 <= k < |idxs|
      ensures idxs[k] < |slots| && slots[idxs[k]].Shaped() && slots[idxs[k]].Complete() && slots[idxs[k]].blockIndex == k
    {
      assert Holds(slots, idxs, data, k);
    }
  }

  // ---- Runs

  ghost predicate Readable(cache: ContentCache, data: seq<Byte>)
    reads cache
    requires |data| > 0
  {
    var h := Fips180.Digest(data);
    && h in cache.content && InSlots(cache.slots, cache.content[h])
    && ReadBack(cache.slots, cache.content[h], BlockCount(|data|)) == data
  }

  /** Contents stored one after the other, none of them with the digest of another, all
      read back unchanged at the end. */
  method StoreAll(items: seq<seq<Byte>>) returns (cache: ContentCache)
    requires forall i | 0 <= i < |items| :: 0 < |items[i]| <= INDEX_MODULUS * BLOCK_SIZE
    requires forall i, j | 0 <= i < j < |items| :: Fips180.Digest(items[i]) != Fips180.Digest(items[j])
    ensures cache.Valid() && fresh(cache)
    ensures forall i | 0 <= i < |items| :: Readable(cache, items[i])
  {
    hide Fips180.Digest, ReadBack, BlockCount, Partition, Owned;
    cache := new ContentCache();
    var i := 0;
    while i < |items|
      invariant 0 <= i <= |items| && cache.Valid() && fresh(cache)
      invariant forall h :: h in cache.content <==> exists j :: 0 <= j < i && Fips180.Digest(items[j]) == h
      invariant forall j | 0 <= j < i :: Readable(cache, items[j])
    {
      StoreOne(cache, items, i);
      i := i + 1;
    }
  }

  method StoreOne(cache: ContentCache, items: seq<seq<Byte>>, i: nat)
    requires i < |items| && cache.Valid()
    requires forall j | 0 <= j < |items| :: 0 < |items[j]| <= INDEX_MODULUS * BLOCK_SIZE
    requires forall j, k | 0 <= j < k < |items| :: Fips180.Digest(items[j]) != Fips180.Digest(items[k])
    requires forall h :: h in cache.content <==> exists j :: 0 <= j < i && Fips180.Digest(items[j]) == h
    requires forall j | 0 <= j < i :: Readable(cache, items[j])
    modifies cache
    ensures cache.Valid()
    ensures forall h :: h in cache.content <==> exists j :: 0 <= j < i + 1 && Fips180.Digest(items[j]) == h
    ensures forall j | 0 <= j < i + 1 :: Readable(cache, items[j])
  {
    hide Fips180.Digest, ReadBack, BlockCount, Partition, Owned, InSlots, SameSlots, HoldsAll;
    ghost var slots, content := cache.slots, cache.content;
    var stored := cache.Store(items[i]);
    var hash := Fips180.Digest(items[i]);
    assert hash !in content;
    FewBlocks(items[i]);
    forall h
      ensures h in cache.content <==> exists j :: 0 <= j < i + 1 && Fips180.Digest(items[j]) == h
    {
      if h == hash {
        assert Fips180.Digest(items[i]) == h;
      } else if j :| 0 <= j < i + 1 && Fips180.Digest(items[j]) == h {
        assert 0 <= j < i && Fips180.Digest(items[j]) == h;
      }
    }
    forall j | 0 <= j < i
      ensures Readable(cache, items[j])
    {
      var h := Fips180.Digest(items[j]);
      assert h in content && cache.content[h] == content[h];
      cache.ContentInSlots(h);
      SameReadBack(slots, cache.slots, content[h], BlockCount(|items[j]|));
    }
  }

  lemma FewBlocks(data: seq<Byte>)
    requires 0 < |data| <= INDEX_MODULUS * BLOCK_SIZE
    ensures Min(BlockCount(|data|), INDEX_MODULUS) == BlockCount(|data|)
  {
    PiecesCover(data);
  }

  // ---- Runs of single-block stores

  datatype Piece = Piece(ref: BlockRef, expectedSize: nat, src: seq<Byte>)

  /** The position of the first piece of the content, or the number of pieces. */
  ghost function FirstOf(pieces: seq<Piece>, hash: Hash): (i: nat)
    ensures i <= |pieces| && (i < |pieces| ==> pieces[i].ref.hash == hash)
    ensures forall j | 0 <= j < i :: pieces[j].ref.hash != hash
  {
    if pieces == [] then 0 else if pieces[0].ref.hash == hash then 0 else 1 + FirstOf(pieces[1..], hash)
  }

  /** Each content that came has its first piece first, and every slot says block 0. */
  ghost predicate FirstAnswers(slots: seq<Slot>, content: map<Hash, seq<nat>>, pieces: seq<Piece>) {
    forall h ::
      && (h in content <==> FirstOf(pieces, h) < |pieces|)
      && (h in content ==> AllZero(slots, content[h]) && FirstHolds(slots, content[h], pieces[FirstOf(pieces, h)].src))
  }

  ghost predicate AllZero(slots: seq<Slot>, idxs: seq<nat>) {
    forall k | 0 <= k < |idxs| :: idxs[k] < |slots| && slots[idxs[k]].blockIndex == 0
  }

  ghost predicate FirstHolds(slots: seq<Slot>, idxs: seq<nat>, src: seq<Byte>) {
    idxs != [] && idxs[0] < |slots| && slots[idxs[0]].size <= |slots[idxs[0]].data| && slots[idxs[0]].Block() == src
  }

  /** Whether piece `i` is stored: any piece is, but for a block 0 of a content of which some
      block has come before. */
  ghost predicate Accepted(pieces: seq<Piece>, i: nat)
    requires i < |pieces|
  {
    FirstOf(pieces[..i], pieces[i].ref.hash) == i || pieces[i].ref.index != 0
  }

  /** After any run of single-block stores into an empty cache, block 0 of a content is
      whatever piece of it came first, under whatever index, no other block of it is found,
      and later blocks 0 were refused. */
  method StorePieces(pieces: seq<Piece>) returns (cache: ContentCache, stored: seq<bool>)
    requires forall i | 0 <= i < |pieces| :: |pieces[i].src| <= BLOCK_SIZE
    ensures cache.Valid() && fresh(cache)
    ensures |stored| == |pieces| && forall i | 0 <= i < |pieces| :: stored[i] <==> Accepted(pieces, i)
    ensures FirstAnswers(cache.slots, cache.content, pieces)
  {
    hide FirstOf, FirstAnswers, Accepted, Partition, Owned;
    cache := new ContentCache();
    stored := [];
    var i := 0;
    NoPieces(pieces);
    while i < |pieces|
      invariant 0 <= i <= |pieces| && |stored| == i && cache.Valid() && fresh(cache)
      invariant forall j | 0 <= j < i :: stored[j] <==> Accepted(pieces, j)
      invariant FirstAnswers(cache.slots, cache.content, pieces[..i])
    {
      var ok := StorePiece(cache, pieces, i);
      stored := stored + [ok];
      i := i + 1;
    }
    assert pieces[..i] == pieces;
  }

  lemma NoPieces(pieces: seq<Piece>)
    ensures FirstAnswers([], map[], pieces[..0])
  {
  }

  method StorePiece(cache: ContentCache, pieces: seq<Piece>, i: nat) returns (ok: bool)
    requires i < |pieces| && |pieces[i].src| <= BLOCK_SIZE
    requires cache.Valid() && FirstAnswers(cache.slots, cache.content, pieces[..i])
    modifies cache
    ensures cache.Valid() && FirstAnswers(cache.slots, cache.content, pieces[..i + 1])
    ensures ok <==> Accepted(pieces, i)
  {
    hide FirstOf, FirstAnswers, Accepted, Partition, Owned, InSlots, FindIn;
    var piece := pieces[i];
    ghost var slots, content := cache.slots, cache.content;
    cache.OldInRange();
    NewBlockShaped(piece.src, piece.expectedSize);
    var idx := cache.StoreBlock(piece.ref, piece.expectedSize, piece.src);
    ok := idx != None;
    ghost var before := if piece.ref.hash in content then content[piece.ref.hash] else [];
    PieceStored(slots, content, pieces, i, before);
    FirstStays(slots, content, cache.slots, cache.content, pieces, i);
  }

  /** Every slot says 0, so only block 0 is ever found. */
  lemma PieceStored(slots: seq<Slot>, content: map<Hash, seq<nat>>, pieces: seq<Piece>, i: nat, before: seq<nat>)
    requires i < |pieces| && FirstAnswers(slots, content, pieces[..i])
    requires before == if pieces[i].ref.hash in content then content[pieces[i].ref.hash] else []
    ensures
      Accepted(pieces, i) <==>
        !exists k :: 0 <= k < |before| && before[k] < |slots| && slots[before[k]].blockIndex == pieces[i].ref.index
    ensures !Accepted(pieces, i) ==> pieces[i].ref.hash in content
  {
    hide FirstOf;
    var h := pieces[i].ref.hash;
    assert h in content <==> FirstOf(pieces[..i], h) < i;
    if h in content && pieces[i].ref.index == 0 {
      assert before[0] < |slots| && slots[before[0]].blockIndex == 0;
    }
  }

  lemma FirstOfNext(pieces: seq<Piece>, i: nat, h: Hash)
    requires i < |pieces|
    ensures FirstOf(pieces[..i + 1], h) ==
      if FirstOf(pieces[..i], h) < i then FirstOf(pieces[..i], h) else if pieces[i].ref.hash == h then i else i + 1
  {
    hide FirstOf;
    var a, b := FirstOf(pieces[..i], h), FirstOf(pieces[..i + 1], h);
    if b < i {
      assert pieces[..i][b] == pieces[..i + 1][b];
    }
    if a < i {
      assert pieces[..i + 1][a] == pieces[..i][a];
    }
    if a == i && b == i + 1 {
      assert pieces[..i + 1][i] == pieces[i];
    }
  }

  lemma FirstStays(slots: seq<Slot>, content: map<Hash, seq<nat>>, slots': seq<Slot>, content': map<Hash, seq<nat>>,
                   pieces: seq<Piece>, i: nat)
    requires i < |pieces| && FirstAnswers(slots, content, pieces[..i])
    requires |pieces[i].src| <= BLOCK_SIZE
    requires content'.Keys == content.Keys + {pieces[i].ref.hash}
    requires |slots| <= |slots'| && forall k | 0 <= k < |slots| :: slots'[k] == slots[k]
    requires forall h | h in content && h != pieces[i].ref.hash :: content'[h] == content[h]
    requires
      var h := pieces[i].ref.hash;
      var before := if h in content then content[h] else [];
      || (h in content && content'[h] == before)
      || (content'[h] == before + [|slots|] && |slots'| == |slots| + 1 && slots'[|slots|].blockIndex == 0
          && slots'[|slots|].size <= |slots'[|slots|].data| && slots'[|slots|].Block() == pieces[i].src)
    ensures FirstAnswers(slots', content', pieces[..i + 1])
  {
    hide FirstOf, AllZero, FirstHolds;
    forall h
      ensures h in content' <==> FirstOf(pieces[..i + 1], h) < i + 1
      ensures h in content' ==>
        AllZero(slots', content'[h]) && FirstHolds(slots', content'[h], pieces[..i + 1][FirstOf(pieces[..i + 1], h)].src)
    {
      FirstOfNext(pieces, i, h);
      if h in content {
        var f := FirstOf(pieces[..i], h);
        assert pieces[..i + 1][f] == pieces[..i][f];
        OneMore(slots, slots', content[h], content'[h], pieces[f].src);
      } else if h in content' {
        OneSlot(slots', content'[h], pieces[i].src);
      }
    }
  }

  lemma OneMore(slots: seq<Slot>, slots': seq<Slot>, idxs: seq<nat>, idxs': seq<nat>, src: seq<Byte>)
    requires AllZero(slots, idxs) && FirstHolds(slots, idxs, src)
    requires |slots| <= |slots'| && forall k | 0 <= k < |slots| :: slots'[k] == slots[k]
    requires idxs' == idxs || (idxs' == idxs + [|slots|] && |slots'| == |slots| + 1 && slots'[|slots|].blockIndex == 0)
    ensures AllZero(slots', idxs') && FirstHolds(slots', idxs', src)
  {
  }

  lemma OneSlot(slots: seq<Slot>, idxs: seq<nat>, src: seq<Byte>)
    requires |idxs| == 1 && idxs[0] < |slots| && slots[idxs[0]].blockIndex == 0
    requires slots[idxs[0]].size <= |slots[idxs[0]].data| && slots[idxs[0]].Block() == src
    ensures AllZero(slots, idxs) && FirstHolds(slots, idxs, src)
  {
  }

  /** What `find` makes of it: block 0 is the first piece, and there is no other. */
  lemma FirstIsFound(slots: seq<Slot>, content: map<Hash, seq<nat>>, pieces: seq<Piece>, hash: Hash, index: nat)
    requires FirstAnswers(slots, content, pieces) && hash in content && InSlots(slots, content[hash])
    ensures FirstOf(pieces, hash) < |pieces|
    ensures FindIn(slots, content[hash], index) < |content[hash]| <==> index == 0
    ensures BlockAt(slots, content[hash], 0) == pieces[FirstOf(pieces, hash)].src
  {
    hide FirstOf;
    var idxs := content[hash];
    assert AllZero(slots, idxs) && FirstHolds(slots, idxs, pieces[FirstOf(pieces, hash)].src);
    var k, zero := FindIn(slots, idxs, index), FindIn(slots, idxs, 0);
    hide FindIn;
    assert zero == 0;
  }

  /** Whole blocks without an index: what is kept when a block is stored again and again. */
  ghost predicate Repeats(slots: seq<Slot>, idxs: seq<nat>) {
    forall k | 0 <= k < |idxs| :: idxs[k] < |slots| && slots[idxs[k]].Complete() && slots[idxs[k]].blockIndex == 0
  }

  lemma {:induction false} RepeatsCount(slots: seq<Slot>, idxs: seq<nat>)
    requires InSlots(slots, idxs) && Repeats(slots, idxs)
    ensures CompleteCount(slots, idxs) == |idxs|
  {
    if idxs != [] {
      RepeatsCount(slots, idxs[..|idxs| - 1]);
    }
  }

  lemma OneMoreRepeat(slots: seq<Slot>, idxs: seq<nat>, src: seq<Byte>)
    requires Repeats(slots, idxs) && |src| <= BLOCK_SIZE
    ensures Repeats(slots + [NewBlock(src, |src|)], idxs + [|slots|])
    ensures forall k | 0 <= k < |idxs| :: slots[idxs[k]].blockIndex == 0
  {
  }

  /** A whole block that is not the first of its content can be stored any number of times,
      each time as a new slot; once there are more of them than the content has blocks, what
      is missing of it can no longer be asked for. */
  method StoreRepeatedly(m: Description, index: nat, src: seq<Byte>, times: nat) returns (missing: Option<seq<nat>>)
    requires index > 0 && |src| <= BLOCK_SIZE && m.blockSize > 0
    ensures missing.Some? <==> times <= m.Blocks().value
  {
    hide Partition, Owned, FindIn, Repeats, NewBlock, InSlots, FitsTable, ListsMissing, Cut, Description.Blocks;
    var cache := new ContentCache();
    var i := 0;
    while i < times
      invariant 0 <= i <= times && cache.Valid() && fresh(cache)
      invariant cache.content.Keys == if i == 0 then {} else {m.hash}
      invariant i > 0 ==> |cache.content[m.hash]| == i && Repeats(cache.slots, cache.content[m.hash])
    {
      ghost var before := if i == 0 then [] else cache.content[m.hash];
      NoRepeats(cache.slots);
      OneMoreRepeat(cache.slots, before, src);
      var idx := cache.StoreBlock(BlockRef(m.hash, index), |src|, src);
      i := i + 1;
    }
    ghost var all;
    missing, all := cache.MissingBlocks(m);
    if times > 0 {
      RepeatsFit(cache.slots, cache.content[m.hash], m.Blocks().value);
    }
  }

  lemma NoRepeats(slots: seq<Slot>)
    ensures Repeats(slots, [])
  {
  }

  lemma RepeatsFit(slots: seq<Slot>, idxs: seq<nat>, n: nat)
    requires InSlots(slots, idxs) && Repeats(slots, idxs) && idxs != []
    ensures FitsTable(slots, idxs, n) <==> |idxs| <= n
  {
    RepeatsCount(slots, idxs);
    assert slots[idxs[0]].Complete();
  }

  /** Of the first block of a content, `src` came where `expected` bytes should: it is missing
      until all of it came, and only the bytes that came count towards the size of the data. */
  method StorePart(m: Description, expected: nat, src: seq<Byte>) returns (valid: Option<bool>, missing: Option<seq<nat>>)
    requires |src| <= BLOCK_SIZE && m.blockSize > 0
    ensures valid == if m.Blocks().value != 1 then Some(false) else if m.size == |src| then Some(true) else None
    ensures missing.Some? <==> m.Blocks().value > 0 || |src| < expected
    ensures missing.Some? && m.Blocks().value <= 65536 ==> (0 in missing.value <==> |src| < expected && m.Blocks().value > 0)
  {
    hide Partition, Owned, FindIn, NewBlock, InSlots, FitsTable, ListsMissing, Cut, SizeSum, Has, Description.Blocks;
    var cache := new ContentCache();
    var idx := cache.StoreBlock(BlockRef(m.hash, 0), expected, src);
    PartOnly(cache.slots, cache.content[m.hash], src, expected, m.Blocks().value);
    valid := cache.ValidateData(m);
    ghost var all;
    missing, all := cache.MissingBlocks(m);
    if missing.Some? && m.Blocks().value <= INDEX_MODULUS {
      FirstListed(missing.value, cache.slots, cache.content, m.hash, m.Blocks().value);
    }
  }

  lemma PartOnly(slots: seq<Slot>, idxs: seq<nat>, src: seq<Byte>, expected: nat, n: nat)
    requires |idxs| == 1 && InSlots(slots, idxs) && slots[idxs[0]].Holding(src, expected)
    ensures SizeSum(slots, idxs) == |src| && (Has(slots, idxs, 0) <==> |src| >= expected)
    ensures FitsTable(slots, idxs, n) <==> n > 0 || |src| < expected
  {
    var s := slots[idxs[0]];
    assert idxs[..0] == [] && s.size == |src|;
    assert CompleteCount(slots, idxs) == if s.Complete() then 1 else 0;
    assert Has(slots, idxs, 0) <==> s.Complete();
  }

  lemma FirstListed(list: seq<nat>, slots: seq<Slot>, content: map<Hash, seq<nat>>, hash: Hash, n: nat)
    requires hash in content && InSlots(slots, content[hash]) && ListsMissing(list, slots, content, hash, n)
    ensures 0 in list <==> n > 0 && !Has(slots, content[hash], 0)
  {
  }
}
