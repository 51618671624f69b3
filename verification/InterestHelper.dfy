/** One node's interest table, from interesthelperimpl.cpp and interest.hpp. */
module InterestHelpers {
  import opened Blocks
  import opened Sequences
  import opened Topology

  /** `hops` is an 8-bit counter; 0 marks the node's own interests. */
  datatype Interest = Interest(kind: ContentType, ttl: nat, hops: nat) {
    predicate Local() { hops == 0 }
    predicate CloserThan(i: Interest) { hops < i.hops }
    predicate NewerThan(i: Interest) { ttl > i.ttl }

    /** `update_with`: the lower hop count and the longer time to live. */
    function UpdatedWith(i: Interest): Interest {
      var a := if i.CloserThan(this) then this.(hops := i.hops) else this;
      if i.NewerThan(a) then a.(ttl := i.ttl) else a
    }

    /** The better of both in each respect, whichever is held and whichever is heard. */
    lemma UpdateIsMeet(i: Interest)
      requires kind == i.kind
      ensures UpdatedWith(i).hops == (if hops <= i.hops then hops else i.hops)
      ensures UpdatedWith(i).ttl == (if ttl >= i.ttl then ttl else i.ttl)
      ensures UpdatedWith(i) == i.UpdatedWith(this) && UpdatedWith(i).UpdatedWith(i) == UpdatedWith(i)
    {
    }
  }

  const INITIAL_TTL: nat := 60000

  /** The position of the entry for `kind`, or the length of the table. */
  function Find(table: seq<Interest>, kind: ContentType): (i: nat)
    ensures i <= |table|
    ensures i < |table| ==> table[i].kind == kind
    ensures forall j | 0 <= j < i :: table[j].kind != kind
  {
    if table == [] then 0 else if table[0].kind == kind then 0 else 1 + Find(table[1..], kind)
  }

  function Without(table: seq<Interest>, i: nat): seq<Interest>
    requires i < |table|
  {
    table[..i] + table[i + 1..]
  }

  /** `learn_remote`: an updated entry moves to the front, an unknown one is put there. */
  function Learned(table: seq<Interest>, i: Interest): seq<Interest> {
    var k := Find(table, i.kind);
    if k == |table| then [i] + table
    else if table[k].UpdatedWith(i) != table[k] then [table[k].UpdatedWith(i)] + Without(table, k)
    else table
  }

  /** `create_local`, for one type. */
  function WithLocal(table: seq<Interest>, kind: ContentType): seq<Interest> {
    var k := Find(table, kind);
    if k == |table| then [Interest(kind, INITIAL_TTL, 0)] + table
    else if table[k].Local() then table
    else [Interest(kind, INITIAL_TTL, 0)] + Without(table, k)
  }

  /** `clear_local`. */
  function WithoutLocals(table: seq<Interest>): seq<Interest> {
    if table == [] then []
    else
      var last := table[|table| - 1];
      WithoutLocals(table[..|table| - 1]) + if last.Local() then [] else [last]
  }

  // ---- What becomes of the other interests

  /** The interests in other types, in their order. */
  function Others(table: seq<Interest>, kind: ContentType): seq<Interest> {
    if table == [] then []
    else
      var n := |table| - 1;
      Others(table[..n], kind) + if table[n].kind == kind then [] else [table[n]]
  }

  lemma {:induction false} OthersAre(table: seq<Interest>, kind: ContentType)
    ensures forall e :: e in Others(table, kind) <==> e in table && e.kind != kind
  {
    if table != [] {
      var n := |table| - 1;
      OthersAre(table[..n], kind);
      assert table == table[..n] + [table[n]];
    }
  }

  lemma OthersPush(table: seq<Interest>, e: Interest, kind: ContentType)
    ensures Others(table + [e], kind) == Others(table, kind) + if e.kind == kind then [] else [e]
  {
    assert (table + [e])[..|table|] == table;
  }

  lemma LastOfSum(a: seq<Interest>, b: seq<Interest>)
    requires b != []
    ensures var n := |b| - 1; a + b == (a + b[..n]) + [b[n]]
  {
  }

  /** Entries in other types at the back stay behind the rest. */
  lemma {:induction false} OthersBehind(a: seq<Interest>, b: seq<Interest>, kind: ContentType)
    requires forall k | 0 <= k < |b| :: b[k].kind != kind
    ensures Others(a + b, kind) == Others(a, kind) + b
    decreases |b|
  {
    hide Others;
    if b == [] {
      assert a + b == a && Others(a, kind) + b == Others(a, kind);
    } else {
      var n := |b| - 1;
      OthersBehind(a, b[..n], kind);
      LastOfSum(a, b);
      LastOfSum(Others(a, kind), b);
      OthersPush(a + b[..n], b[n], kind);
    }
  }

  lemma NoOthers(table: seq<Interest>, kind: ContentType)
    requires forall k | 0 <= k < |table| :: table[k].kind != kind
    ensures Others(table, kind) == table
  {
    OthersBehind([], table, kind);
    assert [] + table == table && Others([], kind) == [];
  }

  /** Where the type is held only once, the others are the table without that entry. */
  lemma OthersAround(table: seq<Interest>, k: nat)
    requires OnePerKind(table) && k < |table|
    ensures Others(table, table[k].kind) == Without(table, k)
  {
    OnlyHere(table, k);
    hide Others, OnePerKind;
    OthersInParts(table[..k], table[k], table[k + 1..]);
  }

  lemma OnlyHere(table: seq<Interest>, k: nat)
    requires OnePerKind(table) && k < |table|
    ensures table == (table[..k] + [table[k]]) + table[k + 1..]
    ensures forall e | e in table[..k] :: e.kind != table[k].kind
    ensures forall e | e in table[k + 1..] :: e.kind != table[k].kind
  {
  }

  lemma OthersInParts(front: seq<Interest>, e: Interest, back: seq<Interest>)
    requires (forall f | f in front :: f.kind != e.kind) && forall f | f in back :: f.kind != e.kind
    ensures Others((front + [e]) + back, e.kind) == front + back
  {
    hide Others;
    OthersPush(front, e, e.kind);
    NoOthers(front, e.kind);
    OthersBehind(front + [e], back, e.kind);
    assert front + [] == front;
  }

  /** The table after hearing of `i`: an unknown type comes first; of a known one the lower hop
      count and the longer life are kept, at the front if that changes anything; and the
      interests in other types stay in their order. */
  ghost predicate LearnsOnly(table: seq<Interest>, i: Interest, after: seq<Interest>) {
    && ((forall f | f in table :: f.kind != i.kind) ==> after == [i] + table)
    && forall f | f in table && f.kind == i.kind ::
      var meet := Interest(i.kind, if f.ttl >= i.ttl then f.ttl else i.ttl, if f.hops <= i.hops then f.hops else i.hops);
      after == if meet == f then table else [meet] + Others(table, i.kind)
  }

  lemma LearnedOnly(table: seq<Interest>, i: Interest)
    requires OnePerKind(table)
    ensures LearnsOnly(table, i, Learned(table, i))
  {
    hide Find, Others;
    var k := Find(table, i.kind);
    if k < |table| {
      assert table[k] in table;
      OthersAround(table, k);
    }
  }

  /** The table after the node takes an interest of its own: nothing new if it had one, and
      else that first and the interests in other types behind it in their order. */
  ghost predicate CreatesOnly(table: seq<Interest>, kind: ContentType, after: seq<Interest>) {
    if exists f :: f in table && f.kind == kind && f.hops == 0 then after == table
    else after == [Interest(kind, 60000, 0)] + Others(table, kind)
  }

  lemma CreatedOnly(table: seq<Interest>, kind: ContentType)
    requires OnePerKind(table)
    ensures CreatesOnly(table, kind, WithLocal(table, kind))
  {
    hide Find, Others;
    var k := Find(table, kind);
    if k < |table| {
      assert table[k] in table;
      OthersAround(table, k);
    } else {
      NoOthers(table, kind);
    }
  }

  function Remote(): Interest -> bool { (e: Interest) => e.hops != 0 }

  /** Clearing leaves exactly the remote interests, in their order. */
  lemma {:induction false} ClearedInOrder(table: seq<Interest>)
    ensures Selected(WithoutLocals(table), table, Remote(), Same())
  {
    hide Selected;
    if table == [] {
      SelectedNone(Remote(), Same());
    } else {
      var n := |table| - 1;
      ClearedInOrder(table[..n]);
      SelectedPush(WithoutLocals(table[..n]), table[..n], table[n], Remote(), Same());
      assert table == table[..n] + [table[n]];
      assert WithoutLocals(table) == WithoutLocals(table[..n]) + if Remote()(table[n]) then [Same()(table[n])] else [];
    }
  }

  /** Some entry is at least as good as `e` in its type. */
  ghost predicate KeepsUp(table: seq<Interest>, e: Interest) {
    exists f :: f in table && f.kind == e.kind && f.hops <= e.hops && f.ttl >= e.ttl
  }

  lemma LearnedKeepsUp(table: seq<Interest>, i: Interest, e: Interest)
    requires OnePerKind(table) && KeepsUp(table, e)
    ensures KeepsUp(Learned(table, i), e)
    ensures e in table && i.kind != e.kind ==> e in Learned(table, i)
  {
    LearnedOnly(table, i);
    hide Learned;
    if e in table && i.kind != e.kind {
      StaysBeside(table, i, Learned(table, i), e);
    }
    var f :| f in table && f.kind == e.kind && f.hops <= e.hops && f.ttl >= e.ttl;
    if f.kind == i.kind {
      var meet := Interest(i.kind, if f.ttl >= i.ttl then f.ttl else i.ttl, if f.hops <= i.hops then f.hops else i.hops);
      hide OnePerKind, Others;
      assert meet in Learned(table, i);
    } else {
      StaysBeside(table, i, Learned(table, i), f);
    }
  }

  lemma StaysBeside(table: seq<Interest>, i: Interest, after: seq<Interest>, f: Interest)
    requires LearnsOnly(table, i, after) && f in table && f.kind != i.kind
    ensures f in after
  {
    OthersAre(table, i.kind);
    hide Others;
  }

  lemma OnlyOne(table: seq<Interest>, f: Interest, x: Interest)
    requires OnePerKind(table) && f in table && x in table && f.kind == x.kind
    ensures f == x
  {
  }

  /** However much is heard, every interest is still known at no more hops and with no less
      life, and one in a type that was not heard is left as it was. */
  lemma {:induction false} HearingKeepsUp(table: seq<Interest>, heard: seq<Interest>, e: Interest)
    requires OnePerKind(table) && e in table
    ensures OnePerKind(LearnedAll(table, heard)) && KeepsUp(LearnedAll(table, heard), e)
    ensures (forall i | i in heard :: i.kind != e.kind) ==> e in LearnedAll(table, heard)
    decreases |heard|
  {
    hide Learned, OnePerKind;
    if heard != [] {
      var n := |heard| - 1;
      var i := heard[n].(hops := (heard[n].hops + 1) % HOPS_MODULUS);
      HearingKeepsUp(table, heard[..n], e);
      LearnKeepsOnePerKind(LearnedAll(table, heard[..n]), i);
      LearnedKeepsUp(LearnedAll(table, heard[..n]), i, e);
    }
  }

  /** Every interest is still known at no more hops and with no less life, and unchanged if its
      type was not heard. */
  ghost predicate AllKept(table: seq<Interest>, heard: seq<Interest>, after: seq<Interest>) {
    forall e | e in table :: KeepsUp(after, e) && ((forall i | i in heard :: i.kind != e.kind) ==> e in after)
  }

  lemma AllKeepUp(table: seq<Interest>, heard: seq<Interest>)
    requires OnePerKind(table)
    ensures AllKept(table, heard, LearnedAll(table, heard))
  {
    hide LearnedAll, KeepsUp, OnePerKind;
    forall e | e in table
      ensures KeepsUp(LearnedAll(table, heard), e)
      ensures (forall i | i in heard :: i.kind != e.kind) ==> e in LearnedAll(table, heard)
    {
      HearingKeepsUp(table, heard, e);
    }
  }

  // ---- One entry a type

  ghost predicate OnePerKind(table: seq<Interest>) {
    forall i, j | 0 <= i < j < |table| :: table[i].kind != table[j].kind
  }

  lemma LearnKeepsOnePerKind(table: seq<Interest>, i: Interest)
    requires OnePerKind(table)
    ensures OnePerKind(Learned(table, i))
  {
    hide Find;
  }

  lemma LocalKeepsOnePerKind(table: seq<Interest>, kind: ContentType)
    requires OnePerKind(table)
    ensures OnePerKind(WithLocal(table, kind))
  {
    hide Find;
  }

  lemma {:induction false} ClearKeepsOnePerKind(table: seq<Interest>)
    requires OnePerKind(table)
    ensures OnePerKind(WithoutLocals(table))
    ensures forall e :: e in WithoutLocals(table) <==> e in table && !e.Local()
  {
    if table != [] {
      var n := |table| - 1;
      ClearKeepsOnePerKind(table[..n]);
      assert table == table[..n] + [table[n]];
      var kept := WithoutLocals(table[..n]);
      forall i | 0 <= i < |kept|
        ensures kept[i].kind != table[n].kind
      {
        assert kept[i] in table[..n];
      }
    }
  }

  /** Where the entries of the table come from. */
  lemma LearnedFrom(table: seq<Interest>, i: Interest, e: Interest)
    requires e in Learned(table, i)
    ensures e in table || e == i || exists f :: f in table && f.kind == i.kind && e == f.UpdatedWith(i)
  {
    hide Find;
    var k := Find(table, i.kind);
    if k < |table| && e !in table {
      assert table[k] in table;
    }
  }

  lemma WithLocalFrom(table: seq<Interest>, kind: ContentType, e: Interest)
    requires e in WithLocal(table, kind)
    ensures e in table || e == Interest(kind, INITIAL_TTL, 0)
  {
    hide Find;
  }

  /** After learning, the type is held with the least hop count seen. */
  lemma LearnedHolds(table: seq<Interest>, i: Interest)
    ensures
      var k, t := Find(table, i.kind), Learned(table, i);
      exists e :: e in t && e == if k < |table| then table[k].UpdatedWith(i) else i
  {
    hide Find;
    var k := Find(table, i.kind);
    var e := if k < |table| then table[k].UpdatedWith(i) else i;
    if k < |table| {
      assert table[k] in table;
    }
    assert e in Learned(table, i);
  }

  lemma NoneHeard(table: seq<Interest>, heard: seq<Interest>)
    ensures LearnedAll(table, heard[..0]) == table
  {
  }

  lemma OneMoreHeard(table: seq<Interest>, heard: seq<Interest>, i: nat)
    requires i < |heard|
    ensures
      var bumped := heard[i].(hops := (heard[i].hops + 1) % HOPS_MODULUS);
      LearnedAll(table, heard[..i + 1]) == Learned(LearnedAll(table, heard[..i]), bumped)
  {
    hide Learned;
    assert heard[..i + 1][..i] == heard[..i];
  }

  // ---- The helper object

  class InterestHelper {
    var interests: seq<Interest>

    ghost predicate Valid()
      reads this
    {
      OnePerKind(interests)
    }

    constructor ()
      ensures Valid() && interests == []
    {
      interests := [];
    }

    method LearnRemote(interest: Interest)
      requires Valid()
      modifies this
      ensures Valid() && interests == Learned(old(interests), interest)
      ensures LearnsOnly(old(interests), interest, interests)
    {
      hide Find, LearnsOnly;
      LearnedOnly(interests, interest);
      LearnKeepsOnePerKind(interests, interest);
      var idx := 0;
      while idx < |interests|
        invariant 0 <= idx <= |interests| && interests == old(interests)
        invariant Find(interests, interest.kind) >= idx
      {
        if interests[idx].kind == interest.kind {
          assert Find(interests, interest.kind) == idx;
          var updated := interests[idx].UpdatedWith(interest);
          if updated != interests[idx] {
            interests := [updated] + (interests[..idx] + interests[idx + 1..]);
          }
          return;
        }
        idx := idx + 1;
      }
      interests := [interest] + interests;
    }

    /** `receive(InterestAnn)`: every interest heard came over one more link. */
    method Receive(heard: seq<Interest>)
      requires Valid()
      modifies this
      ensures Valid() && interests == LearnedAll(old(interests), heard)
      ensures AllKept(old(interests), heard, interests)
    {
      AllKeepUp(interests, heard);
      hide LearnedAll, Learned, AllKept, LearnsOnly, OnePerKind;
      ghost var start := interests;
      NoneHeard(start, heard);
      var i := 0;
      while i < |heard|
        invariant 0 <= i <= |heard| && Valid()
        invariant interests == LearnedAll(start, heard[..i])
      {
        OneMoreHeard(start, heard, i);
        LearnRemote(heard[i].(hops := (heard[i].hops + 1) % HOPS_MODULUS));
        i := i + 1;
      }
      assert heard[..i] == heard;
    }

    method CreateLocal(kind: ContentType)
      requires Valid()
      modifies this
      ensures Valid() && interests == WithLocal(old(interests), kind)
      ensures CreatesOnly(old(interests), kind, interests)
    {
      hide Find, CreatesOnly;
      CreatedOnly(interests, kind);
      LocalKeepsOnePerKind(interests, kind);
      var idx := 0;
      while idx < |interests|
        invariant 0 <= idx <= |interests| && interests == old(interests)
        invariant Find(interests, kind) >= idx
      {
        if interests[idx].kind == kind {
          assert Find(interests, kind) == idx;
          if interests[idx].Local() {
            return;
          }
          interests := interests[..idx] + interests[idx + 1..];
          break;
        }
        idx := idx + 1;
      }
      interests := [Interest(kind, INITIAL_TTL, 0)] + interests;
    }

    method ClearLocal()
      requires Valid()
      modifies this
      ensures Valid() && interests == WithoutLocals(old(interests))
    {
      hide WithoutLocals, OnePerKind;
      assert OnePerKind(WithoutLocals(interests)) by {
        ClearKeepsOnePerKind(interests);
      }
      ghost var all := interests;
      ghost var seen := 0;
      var i := 0;
      NothingCleared(all);
      while i < |interests|
        invariant 0 <= i <= |interests| && 0 <= seen <= |all|
        invariant interests == WithoutLocals(all[..seen]) + all[seen..] && i == |WithoutLocals(all[..seen])|
        decreases |interests| - i
      {
        ClearStep(all, seen);
        if interests[i].Local() {
          interests := interests[..i] + interests[i + 1..];
        } else {
          i := i + 1;
        }
        seen := seen + 1;
      }
      AllSeen(all, seen);
    }

    /** `contains_any`. */
    method ContainsAny(kinds: seq<ContentType>) returns (any: bool)
      ensures any <==> exists e, k :: e in interests && k in kinds && e.kind == k
    {
      var i := 0;
      while i < |interests|
        invariant 0 <= i <= |interests|
        invariant forall e, k | e in interests[..i] && k in kinds :: e.kind != k
      {
        var j := 0;
        while j < |kinds|
          invariant 0 <= j <= |kinds|
          invariant forall k | k in kinds[..j] :: interests[i].kind != k
        {
          if interests[i].kind == kinds[j] {
            assert interests[i] in interests && kinds[j] in kinds;
            return true;
          }
          assert kinds[..j + 1] == kinds[..j] + [kinds[j]];
          j := j + 1;
        }
        assert kinds[..j] == kinds;
        assert interests[..i + 1] == interests[..i] + [interests[i]];
        i := i + 1;
      }
      assert interests[..i] == interests;
      return false;
    }
  }

  function LearnedAll(table: seq<Interest>, heard: seq<Interest>): seq<Interest> {
    if heard == [] then table
    else
      var i := heard[|heard| - 1];
      Learned(LearnedAll(table, heard[..|heard| - 1]), i.(hops := (i.hops + 1) % HOPS_MODULUS))
  }

  lemma NothingCleared(all: seq<Interest>)
    ensures WithoutLocals(all[..0]) == [] && [] + all[0..] == all
  {
  }

  lemma AllSeen(all: seq<Interest>, seen: nat)
    requires seen <= |all| && |WithoutLocals(all[..seen]) + all[seen..]| <= |WithoutLocals(all[..seen])|
    ensures WithoutLocals(all[..seen]) + all[seen..] == WithoutLocals(all)
  {
    hide WithoutLocals;
    assert all[seen..] == [] && all[..seen] == all;
  }

  lemma ClearStep(all: seq<Interest>, seen: nat)
    requires seen < |all|
    ensures
      var kept, e := WithoutLocals(all[..seen]), all[seen];
      var list := kept + all[seen..];
      && list[|kept|] == e
      && (if e.Local() then
            && WithoutLocals(all[..seen + 1]) == kept
            && list[..|kept|] + list[|kept| + 1..] == kept + all[seen + 1..]
          else
            && WithoutLocals(all[..seen + 1]) == kept + [e]
            && list == kept + [e] + all[seen + 1..])
      && |list| == |kept| + |all| - seen
  {
    assert all[..seen + 1][..seen] == all[..seen];
  }
}
