/** Sequences without repetition. */
module Sequences {

  ghost predicate Distinct<T>(s: seq<T>) {
    forall i, j | 0 <= i < j < |s| :: s[i] != s[j]
  }

  ghost function Elems<T(!new)>(s: seq<T>): (r: set<T>)
    ensures forall x :: x in r <==> x in s
  {
    set x | x in s
  }

  lemma ElemsPush<T(!new)>(s: seq<T>, x: T)
    ensures Elems(s + [x]) == Elems(s) + {x}
    ensures Distinct(s) && x !in s ==> Distinct(s + [x])
  {
  }

  lemma {:induction false} DistinctSize<T(!new)>(s: seq<T>)
    requires Distinct(s)
    ensures |Elems(s)| == |s|
  {
    if s != [] {
      var n := |s| - 1;
      DistinctSize(s[..n]);
      assert s == s[..n] + [s[n]];
      ElemsPush(s[..n], s[n]);
      assert s[n] !in Elems(s[..n]);
    }
  }

  // ---- Filtering

  /** `idx` is the places of `s` at which `keep` holds, in order. */
  ghost predicate Picks<T>(idx: seq<nat>, s: seq<T>, keep: T -> bool) {
    && (forall a, b | 0 <= a < b < |idx| :: idx[a] < idx[b])
    && forall i: nat :: i in idx <==> i < |s| && keep(s[i])
  }

  /** `r` is made from the elements of `s` that `keep` selects, one from each, in order. */
  ghost predicate Selected<T, U>(r: seq<U>, s: seq<T>, keep: T -> bool, make: T -> U) {
    exists idx :: Picks(idx, s, keep) && MadeFrom(r, s, idx, make)
  }

  ghost predicate MadeFrom<T, U>(r: seq<U>, s: seq<T>, idx: seq<nat>, make: T -> U) {
    |r| == |idx| && forall k | 0 <= k < |r| :: idx[k] < |s| && r[k] == make(s[idx[k]])
  }

  function Same<T>(): T -> T { x => x }

  lemma SelectedNone<T, U>(keep: T -> bool, make: T -> U)
    ensures Selected([], [], keep, make)
  {
    var idx: seq<nat> := [];
    assert Picks(idx, [], keep) && MadeFrom([], [], idx, make);
  }

  lemma PicksPush<T>(idx: seq<nat>, s: seq<T>, x: T, keep: T -> bool)
    requires Picks(idx, s, keep)
    ensures Picks(idx + if keep(x) then [|s|] else [], s + [x], keep)
  {
    var all, last := s + [x], if keep(x) then [|s|] else [];
    forall i: nat
      ensures i in idx + last <==> i < |all| && keep(all[i])
    {
      assert i in idx <==> i < |s| && keep(s[i]);
    }
    forall a, b | 0 <= a < b < |idx + last|
      ensures (idx + last)[a] < (idx + last)[b]
    {
      assert idx[a] in idx;
    }
  }

  lemma SelectedPush<T, U>(r: seq<U>, s: seq<T>, x: T, keep: T -> bool, make: T -> U)
    requires Selected(r, s, keep, make)
    ensures Selected(r + if keep(x) then [make(x)] else [], s + [x], keep, make)
  {
    var idx: seq<nat> :| Picks(idx, s, keep) && MadeFrom(r, s, idx, make);
    PicksPush(idx, s, x, keep);
    hide Picks;
    assert MadeFrom(r + if keep(x) then [make(x)] else [], s + [x], idx + if keep(x) then [|s|] else [], make);
  }
}
