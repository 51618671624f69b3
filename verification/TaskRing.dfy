/** The growing and shrinking ring of tasks in threadpool.cpp and threadpool.hpp. */
module TaskRing {

  // ---- Capacities

  ghost function Pow2(k: nat): (p: nat)
    ensures p >= 1
  {
    if k == 0 then 1 else 2 * Pow2(k - 1)
  }

  ghost predicate IsPowerOfTwo(n: nat) {
    exists k: nat :: n == Pow2(k)
  }

  /** A number that halves down to one. */
  predicate OneBit(n: nat) {
    n == 1 || (n > 0 && n % 2 == 0 && OneBit(n / 2))
  }

  lemma {:induction false} OneBitIsPowerOfTwo(n: nat)
    ensures OneBit(n) <==> IsPowerOfTwo(n)
  {
    if n > 1 && n % 2 == 0 {
      OneBitIsPowerOfTwo(n / 2);
      PowerHalves(n);
    } else if n == 1 {
      assert n == Pow2(0);
    } else {
      NotAPower(n);
    }
  }

  lemma PowerHalves(n: nat)
    requires n > 1 && n % 2 == 0
    ensures IsPowerOfTwo(n) <==> IsPowerOfTwo(n / 2)
  {
    if IsPowerOfTwo(n) {
      var k: nat :| n == Pow2(k);
      assert n / 2 == Pow2(k - 1);
    }
    if IsPowerOfTwo(n / 2) {
      var k: nat :| n / 2 == Pow2(k);
      assert n == Pow2(k + 1);
    }
  }

  lemma NotAPower(n: nat)
    requires n == 0 || (n > 1 && n % 2 == 1)
    ensures !IsPowerOfTwo(n)
  {
    forall k: nat
      ensures n != Pow2(k)
    {
      if k > 0 {
        assert Pow2(k) == 2 * Pow2(k - 1);
      }
    }
  }

  /** The power of two of the highest set bit. */
  function TopBit(n: nat): (b: nat)
    requires n > 0
    ensures b <= n < 2 * b
  {
    if n == 1 then 1 else 2 * TopBit(n / 2)
  }

  lemma MulTwo(p: nat, b: nat)
    ensures p * (2 * b) == (2 * p) * b
  {
  }

  lemma TopBitHalves(n: nat)
    requires n > 0
    ensures TopBit(n) == if n / 2 == 0 then 1 else 2 * TopBit(n / 2)
  {
  }

  lemma TopBitStep(power: nat, n: nat)
    requires n > 0
    ensures power * TopBit(n) == if n / 2 == 0 then power else (2 * power) * TopBit(n / 2)
  {
    TopBitHalves(n);
    if n / 2 != 0 {
      hide TopBit;
      MulTwo(power, TopBit(n / 2));
    }
  }

  lemma {:induction false} TopBitIsPower(n: nat)
    requires n > 0
    ensures IsPowerOfTwo(TopBit(n))
  {
    if n == 1 {
      assert TopBit(n) == Pow2(0);
    } else {
      TopBitIsPower(n / 2);
      var k: nat :| TopBit(n / 2) == Pow2(k);
      assert TopBit(n) == Pow2(k + 1);
    }
  }

  // ---- Machine words

  /** The number that a word stands for. */
  function NatOf(c: bv64): nat {
    if c == 0 then 0 else 2 * NatOf(c >> 1) + if c & 1 == 1 then 1 else 0
  }

  lemma NothingLeft(c: bv64)
    requires c >> 1 == 0 && c & 1 == 0
    ensures c == 0
  {
  }

  lemma {:induction false} NatOfZero(c: bv64)
    ensures NatOf(c) == 0 <==> c == 0
  {
    if c != 0 {
      if c >> 1 == 0 && c & 1 == 0 {
        NothingLeft(c);
      }
      if c >> 1 != 0 {
        NatOfZero(c >> 1);
      }
    }
  }

  lemma LowBit(c: bv64)
    ensures c & 1 == 0 || c & 1 == 1
  {
  }

  lemma Halved(c: bv64)
    ensures NatOf(c >> 1) == NatOf(c) / 2 && (c & 1 == 1 <==> NatOf(c) % 2 == 1)
  {
    LowBit(c);
    if c == 0 {
      ZeroShift();
    }
  }

  lemma ZeroShift()
    ensures (0 as bv64) >> 1 == 0 && (0 as bv64) & 1 == 0
  {
  }

  /** The source's test for a power of two. */
  predicate ClearsToZero(c: bv64) { c & (c - 1) == 0 }

  lemma OddClears(c: bv64)
    requires c & 1 == 1
    ensures ClearsToZero(c) <==> c == 1
  {
  }

  lemma EvenClears(c: bv64)
    requires c & 1 == 0 && c != 0
    ensures ClearsToZero(c) <==> ClearsToZero(c >> 1)
    ensures c >> 1 != 0
  {
  }

  lemma OneIs(c: bv64)
    requires c & 1 == 1
    ensures c == 1 <==> c >> 1 == 0
  {
  }

  /** Clearing the lowest set bit leaves nothing exactly for powers of two. */
  lemma {:induction false} BitTest(c: bv64)
    requires c != 0
    ensures ClearsToZero(c) <==> IsPowerOfTwo(NatOf(c))
  {
    BitTestHalves(c);
    OneBitIsPowerOfTwo(NatOf(c));
  }

  lemma {:induction false} BitTestHalves(c: bv64)
    requires c != 0
    ensures ClearsToZero(c) <==> OneBit(NatOf(c))
  {
    hide ClearsToZero;
    Halved(c);
    NatOfZero(c);
    LowBit(c);
    if c & 1 == 1 {
      OddClears(c);
      OneIs(c);
      NatOfZero(c >> 1);
    } else {
      EvenClears(c);
      BitTestHalves(c >> 1);
    }
  }

  /** The constructor's rounding. Its comment says "round up"; it rounds down, except that
      zero becomes 16. The result is the number 1 << sh, doubled as sh is counted. */
  method RoundCapacity(requested: bv64) returns (c: nat)
    ensures IsPowerOfTwo(c)
    ensures requested == 0 ==> c == 16
    ensures requested != 0 ==> c <= NatOf(requested) < 2 * c
  {
    hide TopBit, IsPowerOfTwo, NatOf, ClearsToZero;
    var capacity := requested;
    if capacity == 0 {
      capacity := 16;
      Sixteen();
    }
    BitTest(capacity);
    NatOfZero(capacity);
    c := NatOf(capacity);
    if !ClearsToZero(capacity) {
      TopBitIsPower(c);
      c := HighestBit(capacity);
    }
  }

  /** The loop that counts the shifts. */
  method HighestBit(capacity: bv64) returns (power: nat)
    requires NatOf(capacity) > 0
    ensures power == TopBit(NatOf(capacity))
  {
    hide TopBit, NatOf;
    power := 1;
    var current := capacity;
    var shifted := current >> 1;
    Halved(current);
    while shifted != 0
      invariant NatOf(current) > 0 && NatOf(shifted) == NatOf(current) / 2
      invariant power * TopBit(NatOf(current)) == TopBit(NatOf(capacity))
      decreases NatOf(current)
    {
      NatOfZero(shifted);
      TopBitStep(power, NatOf(current));
      power := 2 * power;
      current := shifted;
      shifted := current >> 1;
      Halved(current);
    }
    NatOfZero(shifted);
    TopBitStep(power, NatOf(current));
  }

  lemma Sixteen()
    ensures NatOf(1) == 1 && NatOf(16) == 16 && ClearsToZero(16)
  {
    assert NatOf(1) == 1 by {
      assert (1 as bv64) >> 1 == 0;
    }
    assert NatOf(2) == 2;
    assert NatOf(4) == 4;
    assert NatOf(8) == 8;
  }

  /** Rounding up, as documented, would give the least power of two that is large enough;
      the code agrees with that exactly on powers of two. */
  lemma RoundsUpOnlyPowers(requested: nat, c: nat, up: nat)
    requires requested > 0 && IsPowerOfTwo(c) && c <= requested < 2 * c
    requires IsPowerOfTwo(up) && requested <= up < 2 * requested
    ensures c == up <==> IsPowerOfTwo(requested)
  {
    if IsPowerOfTwo(requested) {
      OnePowerBetween(c, requested);
      OnePowerBetween(requested, up);
    }
  }

  lemma OnePowerBetween(a: nat, b: nat)
    requires IsPowerOfTwo(a) && IsPowerOfTwo(b) && a <= b < 2 * a
    ensures a == b
  {
    var i: nat :| a == Pow2(i);
    var j: nat :| b == Pow2(j);
    PowersGrow(i, j);
    PowersGrow(j, i);
  }

  lemma {:induction false} PowersGrow(i: nat, j: nat)
    ensures i < j ==> 2 * Pow2(i) <= Pow2(j)
    decreases j
  {
    if i < j - 1 {
      PowersGrow(i, j - 1);
    }
  }

  // ---- Rings

  /** The `len` elements from `off` on, going round the end of `s`. */
  function Ring<T>(s: seq<T>, off: nat, len: nat): (r: seq<T>)
    requires off < |s| && len <= |s|
    ensures |r| == len
  {
    if off + len <= |s| then s[off..off + len] else s[off..] + s[..off + len - |s|]
  }

  function Wrap(i: nat, size: nat): nat
    requires size > 0 && i < 2 * size
  {
    if i < size then i else i - size
  }

  lemma WrapIsModulo(i: nat, size: nat)
    requires size > 0 && i < 2 * size
    ensures Wrap(i, size) == i % size
  {
    if i >= size {
      assert i == size + (i - size);
    }
  }

  /** Writing behind the last element appends it. */
  lemma RingPush<T>(s: seq<T>, off: nat, len: nat, x: T)
    requires off < |s| && len < |s|
    ensures Ring(s[Wrap(off + len, |s|) := x], off, len + 1) == Ring(s, off, len) + [x]
  {
  }

  lemma RingTake<T>(s: seq<T>, off: nat, len: nat)
    requires off < |s| && 0 < len <= |s|
    ensures Ring(s, off, len) == [s[off]] + Ring(s, Wrap(off + 1, |s|), len - 1)
  {
    var tail := Ring(s, Wrap(off + 1, |s|), len - 1);
    if off + len <= |s| {
      assert s[off..off + len] == [s[off]] + s[off + 1..off + len];
      assert tail == s[off + 1..off + len];
    } else if off + 1 < |s| {
      assert s[off..] == [s[off]] + s[off + 1..];
      assert tail == s[off + 1..] + s[..off + len - |s|];
    } else {
      assert s[off..] == [s[off]] && tail == s[..len - 1];
    }
  }

  /** `ringmove`: copies a ring to the front of another array. */
  method RingMove<T>(dst: array<T>, src: array<T>, from: nat, len: nat)
    requires dst != src && from < src.Length && len <= src.Length && len <= dst.Length
    modifies dst
    ensures dst[..len] == Ring(src[..], from, len)
  {
    var sz := src.Length;
    var off := from;
    var d := 0;
    while d < len
      invariant 0 <= d <= len
      invariant off == Wrap(from + d, sz) && off < sz
      invariant forall i | 0 <= i < d :: dst[i] == src[Wrap(from + i, sz)]
    {
      dst[d] := src[off];
      d, off := d + 1, off + 1;
      if off == sz {
        off := 0;
      }
    }
  }

  ghost predicate Sized(minCapacity: nat, size: nat) {
    exists k: nat :: size == minCapacity * Pow2(k)
  }

  lemma SizedSteps(minCapacity: nat, size: nat)
    ensures Sized(minCapacity, minCapacity)
    ensures Sized(minCapacity, size) ==> Sized(minCapacity, 2 * size) && size >= minCapacity
  {
    assert minCapacity == minCapacity * Pow2(0);
    if Sized(minCapacity, size) {
      var k: nat :| size == minCapacity * Pow2(k);
      assert 2 * size == minCapacity * Pow2(k + 1);
    }
  }

  // ---- The shared state of the pool

  class SharedState<T(0)> {
    const minCapacity: nat
    var tasks: array<T>
    var p: nat
    var t: nat
    var count: nat
    var scaled: bool

    ghost predicate Valid()
      reads this
    {
      && IsPowerOfTwo(minCapacity)
      && Sized(minCapacity, tasks.Length)
      && (scaled <==> tasks.Length > minCapacity)
      && t < tasks.Length && count <= tasks.Length
      && p == Wrap(t + count, tasks.Length)
    }

    /** The queued tasks, oldest first. */
    ghost function Contents(): (c: seq<T>)
      requires t < tasks.Length && count <= tasks.Length
      reads this, tasks
      ensures |c| == count
    {
      Ring(tasks[..], t, count)
    }

    constructor (capacity: bv64)
      ensures Valid() && Contents() == [] && fresh(tasks)
      ensures capacity != 0 ==> minCapacity <= NatOf(capacity) < 2 * minCapacity
      ensures count == 0 && t == 0 && tasks.Length == minCapacity
    {
      var c := RoundCapacity(capacity);
      minCapacity := c;
      tasks := new T[c];
      p, t, count, scaled := 0, 0, 0, false;
      new;
      SizedSteps(c, c);
    }

    /** What `Valid` says of the indices, as the code's authors would write it. */
    lemma IndicesAgree()
      requires Valid()
      ensures p == (t + count) % tasks.Length
    {
      WrapIsModulo(t + count, tasks.Length);
    }

    method Resize(len: nat)
      requires t < tasks.Length && count <= tasks.Length && 0 < len && count <= len
      modifies this
      ensures fresh(tasks) && tasks.Length == len
      ensures t == 0 && p == count && count == old(count) && scaled == old(scaled)
      ensures Contents() == old(Contents())
    {
      var tNew := new T[len];
      RingMove(tNew, tasks, t, count);
      tasks := tNew;
      t := 0;
      p := count;
    }

    /** The size that a pusher read before it took the lock still serves. */
    ghost predicate SizeServes(sz: nat)
      reads this
    {
      count == sz || (count < tasks.Length && (p + 1 == tasks.Length <==> p + 1 == sz))
    }

    /** The locked part of `push_back`, with the size that was read before the lock was
        taken. Others may have changed the array since, and the task is appended if and only
        if the size still serves. */
    method PushSized(task: T, sizeRead: nat)
      requires Valid() && sizeRead > 0 && Sized(minCapacity, sizeRead)
      modifies this, tasks
      ensures Valid() && Contents() == old(Contents()) + [task] <==> old(SizeServes(sizeRead))
      ensures tasks == old(tasks) || fresh(tasks)
      ensures tasks.Length == if old(count) == sizeRead then 2 * sizeRead else old(tasks.Length)
      ensures count == old(count) + 1 && t == if old(count) == sizeRead then 0 else old(t)
    {
      hide Sized, IsPowerOfTwo, Ring;
      var sz := sizeRead;
      SizedSteps(minCapacity, sz);
      if count == sz {
        Resize(sz * 2);
        scaled := true;
        sz := sz * 2;
      }
      ghost var was := tasks[..];
      if count < tasks.Length {
        RingPush(was, t, count, task);
      }
      tasks[p] := task;
      assert tasks[..] == was[p := task];
      p := p + 1;
      if p == sz {
        p := 0;
      }
      count := count + 1;
    }

    /** `push_back` when nobody comes between the reading of the size and the lock. */
    method PushBack(task: T)
      requires Valid()
      modifies this, tasks
      ensures Valid() && Contents() == old(Contents()) + [task]
      ensures tasks == old(tasks) || fresh(tasks)
      ensures tasks.Length == if old(count) == old(tasks.Length) then 2 * old(tasks.Length) else old(tasks.Length)
      ensures count == old(count) + 1 && t == if old(count) == old(tasks.Length) then 0 else old(t)
    {
      PushSized(task, tasks.Length);
    }

    /** The part of `thread_body` that takes the next task. */
    method Take() returns (task: T)
      requires Valid() && count > 0
      modifies this, tasks
      ensures Valid() && [task] + Contents() == old(Contents())
      ensures tasks == old(tasks) || fresh(tasks)
      ensures tasks.Length == if old(scaled) && count < minCapacity / 2 then minCapacity else old(tasks.Length)
      ensures count == old(count) - 1 && (!(old(scaled) && count < minCapacity / 2) ==> t == Wrap(old(t) + 1, tasks.Length))
    {
      hide Sized, IsPowerOfTwo, Ring;
      RingTake(tasks[..], t, count);
      task := tasks[t];
      t := t + 1;
      if t == tasks.Length {
        t := 0;
      }
      count := count - 1;
      if scaled && count < minCapacity / 2 {
        SizedSteps(minCapacity, minCapacity);
        Resize(minCapacity);
        scaled := false;
      }
    }
  }

  /** A pool of capacity 1 in which a pusher reads the size 1, four tasks are pushed by
      others and taken, and the size that was read no longer serves. */
  method StaleSizeIsReachable() returns (s: SharedState<int>)
    ensures fresh(s) && s.Valid() && s.minCapacity == 1 && s.count == 0 && !s.SizeServes(1)
  {
    Sixteen();
    hide Sized, IsPowerOfTwo, Ring, NatOf, Pow2, ClearsToZero;
    s := new SharedState<int>(1);
    var sizeRead := s.tasks.Length;
    s.PushBack(10);
    s.PushBack(11);
    s.PushBack(12);
    var task := s.Take();
    task := s.Take();
    task := s.Take();
    s.PushBack(13);
    task := s.Take();
    assert sizeRead == 1 && s.t == 0 && s.tasks.Length == 4;
  }

  // ---- Runs

  datatype Op<T> = Pushes(task: T) | Takes

  /** The queue a pool would have with unbounded room; a take of an empty queue is where a
      worker waits instead. */
  function Fifo<T>(ops: seq<Op<T>>): seq<T> {
    if ops == [] then []
    else
      var q := Fifo(ops[..|ops| - 1]);
      match ops[|ops| - 1]
      case Pushes(x) => q + [x]
      case Takes => if q == [] then [] else q[1..]
  }

  /** Operation `i` hands out the head of the queue if it is a take and there is one, and
      nothing otherwise. */
  ghost predicate HandsOut<T>(ops: seq<Op<T>>, i: nat, out: seq<T>)
    requires i < |ops|
  {
    var q := Fifo(ops[..i]);
    out == if ops[i].Takes? && q != [] then [q[0]] else []
  }

  /** Every run of pushes and takes, through wrap-around, doubling and shrinking, hands out
      the tasks of a plain first-in first-out queue. */
  method Run<T(0)>(capacity: bv64, ops: seq<Op<T>>) returns (taken: seq<seq<T>>, queued: seq<T>)
    ensures |taken| == |ops| && queued == Fifo(ops)
    ensures forall i | 0 <= i < |ops| :: HandsOut(ops, i, taken[i])
  {
    hide Ring, Fifo, IsPowerOfTwo, HandsOut;
    var s := new SharedState<T>(capacity);
    taken, queued := [], [];
    NoOps(ops);
    var i := 0;
    while i < |ops|
      invariant 0 <= i <= |ops| && |taken| == i
      invariant fresh(s) && fresh(s.tasks) && s.Valid()
      invariant queued == s.Contents() == Fifo(ops[..i])
      invariant forall j | 0 <= j < i :: HandsOut(ops, j, taken[j])
    {
      ghost var before := queued;
      var out := DoOp(s, ops[i]);
      OpStep(ops, i, out, before, s.Contents());
      queued := Fifo(ops[..i + 1]);
      taken := taken + [out];
      i := i + 1;
    }
    assert ops[..i] == ops;
  }

  method DoOp<T(0)>(s: SharedState<T>, op: Op<T>) returns (out: seq<T>)
    requires s.Valid()
    modifies s, s.tasks
    ensures s.Valid() && (s.tasks == old(s.tasks) || fresh(s.tasks))
    ensures op.Pushes? ==> out == [] && s.Contents() == old(s.Contents()) + [op.task]
    ensures op.Takes? ==> out + s.Contents() == old(s.Contents()) && (out == [] <==> old(s.Contents()) == [])
    ensures |out| <= 1
  {
    out := [];
    match op
    case Pushes(x) => s.PushBack(x);
    case Takes =>
      if s.count > 0 {
        var x := s.Take();
        out := [x];
      }
  }

  lemma NoOps<T>(ops: seq<Op<T>>)
    ensures Fifo(ops[..0]) == []
  {
  }

  /** What an operation hands out and leaves is what the queue does. */
  lemma OpStep<T>(ops: seq<Op<T>>, i: nat, out: seq<T>, before: seq<T>, after: seq<T>)
    requires i < |ops| && before == Fifo(ops[..i]) && |out| <= 1
    requires ops[i].Pushes? ==> out == [] && after == before + [ops[i].task]
    requires ops[i].Takes? ==> out + after == before && (out == [] <==> before == [])
    ensures HandsOut(ops, i, out) && after == Fifo(ops[..i + 1])
  {
    assert ops[..i + 1][..i] == ops[..i];
    if ops[i].Takes? && out != [] {
      assert before[0] == out[0] && before[1..] == after;
    }
  }
}
