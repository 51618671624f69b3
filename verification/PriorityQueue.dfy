/** The binary heap of priority_queue.hpp. */
module PriorityQueues {

  // ---- Orders

  /** What the C++ library asks of a comparator: a strict weak ordering. */
  ghost predicate StrictWeak<T(!new)>(better: (T, T) -> bool) {
    && (forall a, b :: better(a, b) ==> !better(b, a))
    && (forall a, b, c :: !better(a, b) && !better(b, c) ==> !better(a, c))
  }

  ghost predicate Best<T>(better: (T, T) -> bool, v: seq<T>, x: T) {
    forall k | 0 <= k < |v| :: !better(v[k], x)
  }

  ghost predicate Sorted<T>(better: (T, T) -> bool, v: seq<T>) {
    forall i, j | 0 <= i < j < |v| :: !better(v[j], v[i])
  }

  // ---- Heaps in a sequence

  function Parent(i: nat): nat
    requires i > 0
  {
    (i + 1) / 2 - 1
  }

  ghost predicate Settled<T>(better: (T, T) -> bool, v: seq<T>, j: nat)
    requires 0 < j < |v|
  {
    !better(v[j], v[Parent(j)])
  }

  ghost predicate Heap<T>(better: (T, T) -> bool, v: seq<T>) {
    forall j | 0 < j < |v| :: Settled(better, v, j)
  }

  /** A heap but for the edge above `i`. */
  ghost predicate HeapAbove<T>(better: (T, T) -> bool, v: seq<T>, i: nat) {
    && i < |v|
    && (forall j | 0 < j < |v| && j != i :: Settled(better, v, j))
    && (forall j | 0 < j < |v| && i > 0 && Parent(j) == i :: !better(v[j], v[Parent(i)]))
  }

  /** A heap but for the edges below `i`. */
  ghost predicate HeapBelow<T>(better: (T, T) -> bool, v: seq<T>, i: nat) {
    && i < |v|
    && (forall j | 0 < j < |v| && Parent(j) != i :: Settled(better, v, j))
    && (forall j | 0 < j < |v| && i > 0 && Parent(j) == i :: !better(v[j], v[Parent(i)]))
  }

  function Swap<T>(v: seq<T>, i: nat, j: nat): (w: seq<T>)
    requires i < |v| && j < |v|
    ensures |w| == |v|
  {
    v[i := v[j]][j := v[i]]
  }

  lemma SwapKeeps<T>(v: seq<T>, i: nat, j: nat)
    requires i < |v| && j < |v|
    ensures multiset(Swap(v, i, j)) == multiset(v)
  {
  }

  lemma SiftUpStep<T(!new)>(better: (T, T) -> bool, v: seq<T>, i: nat)
    requires StrictWeak(better) && HeapAbove(better, v, i) && i > 0
    requires better(v[i], v[Parent(i)])
    ensures HeapAbove(better, Swap(v, i, Parent(i)), Parent(i))
  {
    var p := Parent(i);
    var w := Swap(v, i, p);
    forall j | 0 < j < |v| && j != p
      ensures Settled(better, w, j)
    {
      if j == i {
      } else if Parent(j) == i {
        assert !better(v[j], v[p]);
      } else if Parent(j) == p {
        assert Settled(better, v, j);
      } else {
        assert Settled(better, v, j);
      }
    }
    if p > 0 {
      assert Settled(better, v, p);
      forall j | 0 < j < |v| && Parent(j) == p
        ensures !better(w[j], w[Parent(p)])
      {
        if j != i {
          assert Settled(better, v, j);
        }
      }
    }
  }

  lemma SiftDownStep<T(!new)>(better: (T, T) -> bool, v: seq<T>, i: nat, best: nat)
    requires StrictWeak(better) && HeapBelow(better, v, i)
    requires 0 < best < |v| && Parent(best) == i
    requires forall j | 0 < j < |v| && Parent(j) == i :: !better(v[j], v[best])
    requires better(v[best], v[i])
    ensures HeapBelow(better, Swap(v, best, i), best)
  {
    var w := Swap(v, best, i);
    forall j | 0 < j < |v| && Parent(j) != best
      ensures Settled(better, w, j)
    {
      if Parent(j) == i {
      } else if j == i {
        assert !better(v[best], v[Parent(i)]);
      } else {
        assert Settled(better, v, j);
      }
    }
    forall j | 0 < j < |v| && Parent(j) == best
      ensures !better(w[j], w[i])
    {
      assert Settled(better, v, j);
    }
  }

  /** Nothing in a heap is better than its root. */
  lemma {:induction false} RootIsBest<T(!new)>(better: (T, T) -> bool, v: seq<T>, k: nat)
    requires StrictWeak(better) && Heap(better, v) && k < |v|
    ensures !better(v[k], v[0])
    decreases k
  {
    if k > 0 {
      assert Settled(better, v, k);
      RootIsBest(better, v, Parent(k));
    }
  }

  // ---- The queue object

  class PriorityQueue<T(!new)> {
    const better: (T, T) -> bool
    var v: seq<T>

    ghost predicate Valid()
      reads this
    {
      StrictWeak(better) && Heap(better, v)
    }

    constructor (better: (T, T) -> bool)
      requires StrictWeak(better)
      ensures Valid() && v == [] && this.better == better
    {
      this.better := better;
      v := [];
    }

    method Push(t: T)
      requires Valid()
      modifies this
      ensures Valid() && multiset(v) == old(multiset(v)) + multiset{t}
      ensures |v| == old(|v|) + 1
    {
      hide Settled;
      ghost var u := v;
      v := v + [t];
      var i := |v| - 1;
      AppendIsHeapAbove(better, u, t);
      while i > 0 && better(v[i], v[Parent(i)])
        invariant 0 <= i < |v| == |u| + 1
        invariant HeapAbove(better, v, i)
        invariant multiset(v) == multiset(u) + multiset{t}
        decreases i
      {
        SiftUpStep(better, v, i);
        SwapKeeps(v, i, Parent(i));
        v := Swap(v, i, Parent(i));
        i := Parent(i);
      }
      SettledUp(better, v, i);
    }

    function Top(): (t: T)
      requires Valid() && v != []
      reads this
      ensures Best(better, v, t)
    {
      assert forall k: nat | k < |v| :: !better(v[k], v[0]) by {
        forall k: nat | k < |v| ensures !better(v[k], v[0]) { RootIsBest(better, v, k); }
      }
      v[0]
    }

    method Pop() returns (popped: T)
      requires Valid() && v != []
      modifies this
      ensures Valid() && Best(better, old(v), popped)
      ensures popped in multiset(old(v)) && multiset(v) == old(multiset(v)) - multiset{popped}
      ensures |v| == old(|v|) - 1
    {
      popped := Top();
      if |v| == 1 {
        v := v[..0];
        return;
      }
      ghost var u := v;
      v := Swap(v, |v| - 1, 0);
      v := v[..|v| - 1];
      DropRoot(better, u, v);
      SiftDown();
    }

    /** The loop of `pop`: promotes the best child until the element that took the root's
        place has found its own. */
    method SiftDown()
      requires StrictWeak(better) && HeapBelow(better, v, 0)
      modifies this
      ensures Valid() && multiset(v) == old(multiset(v)) && |v| == old(|v|)
    {
      hide StrictWeak, Heap, HeapBelow, Swap;
      ghost var w := v;
      var sz := |v|;
      var i := 0;
      while true
        invariant 0 <= i <= sz == |v|
        invariant HeapBelow(better, v, i)
        invariant multiset(v) == multiset(w)
        decreases sz - i
      {
        InRange(better, v, i);
        var best := (i + 1) * 2 - 1;
        if best >= sz {
          break;
        }
        if best + 1 < sz && better(v[best + 1], v[best]) {
          best := best + 1;
        }
        BestChild(better, v, i, best);
        if !better(v[best], v[i]) {
          break;
        }
        SiftDownStep(better, v, i, best);
        SwapKeeps(v, best, i);
        v := Swap(v, best, i);
        i := best;
      }
      SettledDown(better, v, i);
    }
  }

  lemma InRange<T>(better: (T, T) -> bool, v: seq<T>, i: nat)
    requires HeapBelow(better, v, i)
    ensures i < |v|
  {
  }

  lemma AppendIsHeapAbove<T>(better: (T, T) -> bool, v: seq<T>, t: T)
    requires Heap(better, v)
    ensures HeapAbove(better, v + [t], |v|)
  {
    forall j | 0 < j < |v|
      ensures Settled(better, v + [t], j)
    {
      assert Settled(better, v, j);
    }
  }

  lemma SettledUp<T>(better: (T, T) -> bool, v: seq<T>, i: nat)
    requires HeapAbove(better, v, i)
    requires i > 0 ==> !better(v[i], v[Parent(i)])
    ensures Heap(better, v)
  {
  }

  lemma BestChild<T(!new)>(better: (T, T) -> bool, v: seq<T>, i: nat, best: nat)
    requires StrictWeak(better) && i < |v| && best < |v|
    requires
      var left := (i + 1) * 2 - 1;
      best == if left + 1 < |v| && better(v[left + 1], v[left]) then left + 1 else left
    ensures best > i && Parent(best) == i
    ensures forall j | 0 < j < |v| && Parent(j) == i :: !better(v[j], v[best])
  {
    forall j | 0 < j < |v| && Parent(j) == i
      ensures j == 2 * i + 1 || j == 2 * i + 2
    {
    }
  }

  lemma SettledDown<T(!new)>(better: (T, T) -> bool, v: seq<T>, i: nat)
    requires HeapBelow(better, v, i)
    requires
      var left := (i + 1) * 2 - 1;
      left < |v| ==>
        var best := if left + 1 < |v| && better(v[left + 1], v[left]) then left + 1 else left;
        !better(v[best], v[i])
    requires StrictWeak(better)
    ensures Heap(better, v)
  {
    var left := (i + 1) * 2 - 1;
    if left < |v| {
      var best := if left + 1 < |v| && better(v[left + 1], v[left]) then left + 1 else left;
      BestChild(better, v, i, best);
    }
    forall j | 0 < j < |v|
      ensures Settled(better, v, j)
    {
    }
  }

  lemma DropRoot<T(!new)>(better: (T, T) -> bool, u: seq<T>, w: seq<T>)
    requires Heap(better, u) && |u| > 1
    requires w == Swap(u, |u| - 1, 0)[..|u| - 1]
    ensures HeapBelow(better, w, 0)
    ensures multiset(w) == multiset(u) - multiset{u[0]}
  {
    forall j | 0 < j < |w| && Parent(j) != 0
      ensures Settled(better, w, j)
    {
      assert Settled(better, u, j);
    }
    SwapKeeps(u, |u| - 1, 0);
    var s := Swap(u, |u| - 1, 0);
    assert s == w + [u[0]];
  }

  // ---- Runs

  datatype Op<T> = PushOp(t: T) | PopOp

  /** What the queue holds after `ops`, when the pops among them returned `outs`. */
  ghost function Held<T>(ops: seq<Op<T>>, outs: seq<T>): multiset<T>
    requires |ops| == |outs|
  {
    if ops == [] then multiset{}
    else
      var n := |ops| - 1;
      var held := Held(ops[..n], outs[..n]);
      match ops[n]
      case PushOp(t) => held + multiset{t}
      case PopOp => held - multiset{outs[n]}
  }

  function Size<T>(ops: seq<Op<T>>): int {
    if ops == [] then 0 else Size(ops[..|ops| - 1]) + if ops[|ops| - 1].PushOp? then 1 else -1
  }

  /** No pop is asked of an empty queue: the source reads its first element unchecked. */
  ghost predicate NeverPopsEmpty<T>(ops: seq<Op<T>>) {
    forall i | 0 <= i < |ops| && ops[i].PopOp? :: Size(ops[..i]) > 0
  }

  ghost predicate PopsTheBest<T(!new)>(better: (T, T) -> bool, ops: seq<Op<T>>, outs: seq<T>, i: nat)
    requires i < |ops| == |outs| && ops[i].PopOp?
  {
    && outs[i] in Held(ops[..i], outs[..i])
    && forall x | x in Held(ops[..i], outs[..i]) :: !better(x, outs[i])
  }

  lemma HeldStep<T>(ops: seq<Op<T>>, outs: seq<T>, i: nat, out: T)
    requires i < |ops| && |outs| == i
    ensures Size(ops[..i + 1]) == Size(ops[..i]) + if ops[i].PushOp? then 1 else -1
    ensures Held(ops[..i + 1], outs + [out]) == match ops[i] {
              case PushOp(t) => Held(ops[..i], outs) + multiset{t}
              case PopOp => Held(ops[..i], outs) - multiset{out}
            }
  {
    assert ops[..i + 1][..i] == ops[..i];
    assert (outs + [out])[..i] == outs;
  }

  method Step<T(!new)>(q: PriorityQueue<T>, op: Op<T>, default: T) returns (out: T)
    requires q.Valid() && (op.PopOp? ==> q.v != [])
    modifies q
    ensures q.Valid()
    ensures multiset(q.v) == match op {
              case PushOp(t) => old(multiset(q.v)) + multiset{t}
              case PopOp => old(multiset(q.v)) - multiset{out}
            }
    ensures |q.v| == old(|q.v|) + if op.PushOp? then 1 else -1
    ensures op.PopOp? ==> out in old(multiset(q.v)) && forall x | x in old(multiset(q.v)) :: !q.better(x, out)
  {
    match op
    case PushOp(t) =>
      q.Push(t);
      out := default;
    case PopOp =>
      out := q.Pop();
  }

  /** Over any run of pushes and pops each pop returns a held element that no held element
      is better than, and nothing is lost or invented. */
  method Run<T(!new)>(better: (T, T) -> bool, ops: seq<Op<T>>, default: T) returns (outs: seq<T>, left: seq<T>)
    requires StrictWeak(better) && NeverPopsEmpty(ops)
    ensures |outs| == |ops| && multiset(left) == Held(ops, outs) && Heap(better, left)
    ensures forall i | 0 <= i < |ops| && ops[i].PopOp? :: PopsTheBest(better, ops, outs, i)
  {
    hide Held, Size, Heap, StrictWeak, PopsTheBest;
    var q := new PriorityQueue(better);
    outs := [];
    var i := 0;
    NothingHeld(ops);
    while i < |ops|
      invariant 0 <= i <= |ops| && |outs| == i
      invariant q.Valid() && q.better == better && fresh(q)
      invariant multiset(q.v) == Held(ops[..i], outs) && |q.v| == Size(ops[..i])
      invariant forall j | 0 <= j < i && ops[j].PopOp? :: PopsTheBest(better, ops[..i], outs, j)
    {
      ghost var before := outs;
      assert ops[i].PopOp? ==> Size(ops[..i]) > 0;
      var out := Step(q, ops[i], default);
      outs := outs + [out];
      HeldStep(ops, before, i, out);
      PopStep(better, ops, before, i, out);
      i := i + 1;
    }
    assert ops[..i] == ops;
    left := q.v;
  }

  lemma NothingHeld<T>(ops: seq<Op<T>>)
    ensures Held<T>(ops[..0], []) == multiset{} && Size(ops[..0]) == 0
  {
  }

  lemma PopStep<T(!new)>(better: (T, T) -> bool, ops: seq<Op<T>>, outs: seq<T>, i: nat, out: T)
    requires i < |ops| && |outs| == i
    requires forall j | 0 <= j < i && ops[j].PopOp? :: PopsTheBest(better, ops[..i], outs, j)
    requires ops[i].PopOp? ==> out in Held(ops[..i], outs) && forall x | x in Held(ops[..i], outs) :: !better(x, out)
    ensures forall j | 0 <= j < i + 1 && ops[j].PopOp? :: PopsTheBest(better, ops[..i + 1], outs + [out], j)
  {
    hide Held;
    forall j | 0 <= j < i + 1 && ops[j].PopOp?
      ensures PopsTheBest(better, ops[..i + 1], outs + [out], j)
    {
      assert ops[..i + 1][..j] == ops[..i][..j];
      assert (outs + [out])[..j] == outs[..j];
      if j < i {
        assert PopsTheBest(better, ops[..i], outs, j);
      } else {
        assert ops[..i][..j] == ops[..i] && outs[..j] == outs;
      }
    }
  }

  /** Popping until empty yields a sorted permutation of what was held. */
  method Drain<T(!new)>(q: PriorityQueue<T>) returns (out: seq<T>)
    requires q.Valid()
    modifies q
    ensures q.Valid() && q.v == []
    ensures Sorted(q.better, out) && multiset(out) == old(multiset(q.v))
  {
    hide Heap, StrictWeak, Sorted, NoneBetter, Best;
    NothingSorted(q.better, q.v);
    out := [];
    while q.v != []
      invariant q.Valid()
      invariant multiset(out) + multiset(q.v) == old(multiset(q.v))
      invariant Sorted(q.better, out) && NoneBetter(q.better, out, q.v)
      decreases |q.v|
    {
      ghost var before := q.v;
      var x := q.Pop();
      assert multiset(before) == multiset(q.v) + multiset{x};
      NextSorted(q.better, out, before, q.v, x);
      out := out + [x];
    }
  }

  /** Nothing left is better than what is already out. */
  ghost predicate NoneBetter<T(!new)>(better: (T, T) -> bool, out: seq<T>, rest: seq<T>) {
    forall i, x | 0 <= i < |out| && x in rest :: !better(x, out[i])
  }

  lemma NothingSorted<T(!new)>(better: (T, T) -> bool, rest: seq<T>)
    ensures Sorted(better, []) && NoneBetter(better, [], rest)
  {
  }

  lemma NextSorted<T(!new)>(better: (T, T) -> bool, out: seq<T>, before: seq<T>, rest: seq<T>, x: T)
    requires Sorted(better, out) && NoneBetter(better, out, before) && Best(better, before, x)
    requires multiset(before) == multiset(rest) + multiset{x}
    ensures Sorted(better, out + [x]) && NoneBetter(better, out + [x], rest)
  {
    forall y | y in rest
      ensures y in before
    {
      assert y in multiset(rest) && y in multiset(before);
    }
    assert x in multiset(before) && x in before;
  }

  method SortThrough<T(!new)>(better: (T, T) -> bool, xs: seq<T>) returns (out: seq<T>)
    requires StrictWeak(better)
    ensures Sorted(better, out) && multiset(out) == multiset(xs)
  {
    hide Heap, StrictWeak, Sorted;
    var q := new PriorityQueue(better);
    var i := 0;
    while i < |xs|
      invariant 0 <= i <= |xs| && q.Valid() && q.better == better && fresh(q)
      invariant multiset(q.v) == multiset(xs[..i])
    {
      q.Push(xs[i]);
      assert xs[..i + 1] == xs[..i] + [xs[i]];
      i := i + 1;
    }
    assert xs[..i] == xs;
    out := Drain(q);
  }
}
