/** The request tables of `BlockRequestScheduler`: what each neighbour wants, until when, and
    how its wishes are weighed. Utilities are real numbers. The clock is an argument; like
    the source's it counts nanoseconds. */
module BlockRequestScheduler {
  import opened Arithmetic
  import opened Blocks
  import opened Sequences
  import opened Units

  datatype Position = Position(x: real, y: real)

  /** A request as it arrives, with a relative time to live. */
  datatype Request = Request(block: BlockRef, utility: real, ttlMs: nat, requester: NodeId, position: Position)

  /** A request as it is kept, with an absolute deadline. */
  datatype Desc = Desc(block: BlockRef, utility: real, expire: int, node: NodeId, requester: NodeId, position: Position)

  function Describe(node: NodeId, r: Request, now: int): Desc {
    Desc(r.block, r.utility, now + r.ttlMs * NANOS_IN_A_MILLI, node, r.requester, r.position)
  }

  // ---- Inserting

  /** The descriptors that an insertion leaves in place, in their order. */
  function Kept(list: seq<Desc>, block: BlockRef, now: int): (kept: seq<Desc>)
    ensures forall d | d in kept :: d in list && d.block != block && d.expire >= now
    ensures forall d | d in list && d.block != block && d.expire >= now :: d in kept
  {
    if list == [] then []
    else
      var n := |list| - 1;
      var d := list[n];
      if d.block == block || d.expire < now then Kept(list[..n], block, now) else Kept(list[..n], block, now) + [d]
  }

  function StaysBeside(block: BlockRef, now: int): Desc -> bool { (d: Desc) => d.block != block && now <= d.expire }

  /** They are those of other blocks that have not expired, in their order. */
  lemma {:induction false} KeptInOrder(list: seq<Desc>, block: BlockRef, now: int)
    ensures Selected(Kept(list, block, now), list, StaysBeside(block, now), Same())
  {
    hide Selected;
    if list == [] {
      SelectedNone(StaysBeside(block, now), Same());
    } else {
      var n := |list| - 1;
      KeptInOrder(list[..n], block, now);
      SelectedPush(Kept(list[..n], block, now), list[..n], list[n], StaysBeside(block, now), Same());
      assert Kept(list, block, now) == Kept(list[..n], block, now) + if StaysBeside(block, now)(list[n]) then [Same()(list[n])] else [];
      assert list == list[..n] + [list[n]];
    }
  }

  /** No two descriptors are for the same block. */
  ghost predicate OnePerBlock(list: seq<Desc>) {
    forall i, j | 0 <= i < j < |list| :: list[i].block != list[j].block
  }

  lemma {:induction false} KeptOnePerBlock(list: seq<Desc>, block: BlockRef, now: int)
    requires OnePerBlock(list)
    ensures OnePerBlock(Kept(list, block, now))
  {
    if list != [] {
      var n := |list| - 1;
      KeptOnePerBlock(list[..n], block, now);
      forall d | d in Kept(list[..n], block, now)
        ensures d.block != list[n].block
      {
        assert d in list[..n];
      }
    }
  }

  type Table = map<NodeId, seq<Desc>>

  function Inserted(t: Table, d: Desc, now: int): Table {
    t[d.node := (if d.node in t then Kept(t[d.node], d.block, now) else []) + [d]]
  }

  ghost predicate TableOnePerBlock(t: Table) {
    forall n | n in t :: OnePerBlock(t[n])
  }

  lemma InsertKeepsOnePerBlock(t: Table, d: Desc, now: int)
    requires TableOnePerBlock(t)
    ensures TableOnePerBlock(Inserted(t, d, now))
  {
    if d.node in t {
      KeptOnePerBlock(t[d.node], d.block, now);
      var kept := Kept(t[d.node], d.block, now);
      forall i | 0 <= i < |kept|
        ensures kept[i].block != d.block
      {
        assert kept[i] in kept;
      }
    }
  }

  // ---- Weighing

  function Total(list: seq<Desc>): real {
    if list == [] then 0.0 else Total(list[..|list| - 1]) + list[|list| - 1].utility
  }

  lemma NoTotal(list: seq<Desc>)
    ensures Total(list[..0]) == 0.0
  {
  }

  lemma TotalStep(list: seq<Desc>, i: nat)
    requires i < |list|
    ensures Total(list[..i + 1]) == Total(list[..i]) + list[i].utility
  {
    assert list[..i + 1][..i] == list[..i];
  }

  /** A quotient of floating-point numbers; dividing by zero gives no number. */
  datatype Quotient = Number(value: real) | NotANumber

  function Divide(a: real, b: real): Quotient {
    if b == 0.0 then NotANumber else Number(a / b)
  }

  /** Where the descriptor for `block` stands, or the length of the list. */
  function Find(list: seq<Desc>, block: BlockRef): (i: nat)
    ensures i <= |list|
    ensures i < |list| ==> list[i].block == block
    ensures forall j | 0 <= j < i :: list[j].block != block
  {
    if list == [] then 0 else if list[0].block == block then 0 else 1 + Find(list[1..], block)
  }

  /** What `get_utility` answers for a list with one descriptor a block. */
  function Weight(list: seq<Desc>, block: BlockRef, now: int): Quotient {
    var i := Find(list, block);
    if i < |list| && list[i].expire < now then Number(0.0)
    else Divide(if i < |list| then list[i].utility else 0.0, Total(list))
  }

  /** No descriptor of the list is for the block. */
  ghost predicate NotWanted(list: seq<Desc>, block: BlockRef) {
    forall d | d in list :: d.block != block
  }

  /** What an answer for `block` must be, and the list that is left: 0 for a block that is not
      wanted, unless there is nothing to divide by; 0 for one whose descriptor has expired,
      which goes; and otherwise the number that, times the sum of the utilities, gives the
      block's. */
  ghost predicate Answers(list: seq<Desc>, block: BlockRef, now: int, weight: Quotient, left: seq<Desc>) {
    && (NotWanted(list, block) ==> left == list && weight == if Total(list) == 0.0 then NotANumber else Number(0.0))
    && (forall i | 0 <= i < |list| && list[i].block == block && list[i].expire < now ::
      left == list[..i] + list[i + 1..] && weight == Number(0.0))
    && forall d | d in list && d.block == block && d.expire >= now ::
      && left == list && (Total(list) == 0.0 ==> weight == NotANumber)
      && (Total(list) != 0.0 ==> weight.Number? && weight.value * Total(list) == d.utility)
  }

  /** What the definitions say, by where the block stands. */
  lemma AnswerHere(list: seq<Desc>, block: BlockRef, now: int)
    ensures
      var i := Find(list, block);
      if i < |list| && list[i].expire < now then
        Weight(list, block, now) == Number(0.0) && Asked(list, block, now) == list[..i] + list[i + 1..]
      else
        && Weight(list, block, now) == Divide(if i < |list| then list[i].utility else 0.0, Total(list))
        && Asked(list, block, now) == list
  {
  }

  lemma FoundHere(list: seq<Desc>, block: BlockRef, i: nat)
    requires OnePerBlock(list) && i < |list| && list[i].block == block
    ensures Find(list, block) == i
  {
    hide Find;
  }

  lemma WeightOfEntry(list: seq<Desc>, k: nat, now: int)
    requires OnePerBlock(list) && k < |list| && Total(list) != 0.0
    ensures Find(list, list[k].block) == k
    ensures Weight(list, list[k].block, now) == Number(if list[k].expire < now then 0.0 else list[k].utility / Total(list))
  {
    hide Find, Total;
    if Find(list, list[k].block) < k {
      assert false;
    }
  }

  // ---- Asking for every entry, one after the other

  /** The list that `get_utility` leaves: an expired target is erased. */
  function Asked(list: seq<Desc>, block: BlockRef, now: int): seq<Desc> {
    var i := Find(list, block);
    if i < |list| && list[i].expire < now then list[..i] + list[i + 1..] else list
  }

  lemma WeightAnswers(list: seq<Desc>, block: BlockRef, now: int)
    requires OnePerBlock(list)
    ensures Answers(list, block, now, Weight(list, block, now), Asked(list, block, now))
  {
    hide Find, Total;
    forall i | 0 <= i < |list| && list[i].block == block
      ensures Find(list, block) == i
    {
      FoundHere(list, block, i);
    }
  }

  function AskedTable(t: Table, node: NodeId, block: BlockRef, now: int): Table {
    if node in t then t[node := Asked(t[node], block, now)] else t
  }

  function Plus(a: Quotient, b: Quotient): Quotient {
    if a.Number? && b.Number? then Number(a.value + b.value) else NotANumber
  }

  /** The sum of the answers when `get_utility` is asked for the entries of `order`. */
  function AnswerSum(list: seq<Desc>, order: seq<Desc>, now: int): Quotient {
    if order == [] then Number(0.0)
    else Plus(Weight(list, order[0].block, now), AnswerSum(Asked(list, order[0].block, now), order[1..], now))
  }

  predicate Expired(d: Desc, now: int) { d.expire < now }

  /** The utility of the entries that have expired, and of those that have not. */
  function ExpiredIn(order: seq<Desc>, now: int): real {
    if order == [] then 0.0 else (if Expired(order[0], now) then order[0].utility else 0.0) + ExpiredIn(order[1..], now)
  }

  function LiveIn(order: seq<Desc>, now: int): real {
    if order == [] then 0.0 else (if Expired(order[0], now) then 0.0 else order[0].utility) + LiveIn(order[1..], now)
  }

  /** What the answers come to: an entry is divided by the live utility and by what has
      expired but is only asked for later. */
  function Shares(order: seq<Desc>, live: real, now: int): real
    requires Dividable(order, live, now)
  {
    if order == [] then 0.0
    else
      assert Dividable(order[1..], live, now) by { DividableTail(order, live, now); }
      assert live + ExpiredIn(order[0..], now) != 0.0 && order[0..] == order;
      (if Expired(order[0], now) then 0.0 else order[0].utility / (live + ExpiredIn(order, now))) + Shares(order[1..], live, now)
  }

  /** No answer divides by zero. */
  ghost predicate Dividable(order: seq<Desc>, live: real, now: int) {
    forall k | 0 <= k <= |order| :: live + ExpiredIn(order[k..], now) != 0.0
  }

  lemma DividableTail(order: seq<Desc>, live: real, now: int)
    requires order != [] && Dividable(order, live, now)
    ensures Dividable(order[1..], live, now)
  {
    hide ExpiredIn;
    forall k | 0 <= k <= |order[1..]|
      ensures live + ExpiredIn(order[1..][k..], now) != 0.0
    {
      var m := k + 1;
      assert order[1..][k..] == order[m..];
    }
  }

  function Removed(list: seq<Desc>, i: nat): seq<Desc>
    requires i < |list|
  {
    list[..i] + list[i + 1..]
  }

  lemma {:induction false} TotalRemoved(list: seq<Desc>, i: nat)
    requires i < |list|
    ensures Total(Removed(list, i)) == Total(list) - list[i].utility
    decreases |list|
  {
    var n := |list| - 1;
    var rest := Removed(list, i);
    if i == n {
      assert rest == list[..n];
    } else {
      TotalRemoved(list[..n], i);
      assert rest[..n - 1] == Removed(list[..n], i);
      assert rest[n - 1] == list[n];
    }
  }

  lemma RemovedOnePerBlock(list: seq<Desc>, i: nat)
    requires i < |list| && OnePerBlock(list)
    ensures OnePerBlock(Removed(list, i))
    ensures forall d | d in list && d != list[i] :: d in Removed(list, i)
    ensures multiset(Removed(list, i)) == multiset(list) - multiset{list[i]}
  {
    assert list == list[..i] + [list[i]] + list[i + 1..];
  }

  /** Every entry of `order` is still in the list, and what the list holds beyond them has
      not expired. */
  ghost predicate InStep(list: seq<Desc>, order: seq<Desc>, live: real, now: int) {
    && OnePerBlock(list) && OnePerBlock(order)
    && (forall k | 0 <= k < |order| :: order[k] in list)
    && Total(list) == live + ExpiredIn(order, now)
  }

  lemma AskOne(list: seq<Desc>, order: seq<Desc>, live: real, now: int)
    requires order != [] && InStep(list, order, live, now) && live + ExpiredIn(order, now) != 0.0
    ensures InStep(Asked(list, order[0].block, now), order[1..], live, now)
    ensures Weight(list, order[0].block, now) ==
      Number(if Expired(order[0], now) then 0.0 else order[0].utility / (live + ExpiredIn(order, now)))
  {
    hide Find, Total, Weight, Removed;
    var d := order[0];
    var i :| 0 <= i < |list| && list[i] == d;
    WeightOfEntry(list, i, now);
    if Expired(d, now) {
      TotalRemoved(list, i);
      RemovedOnePerBlock(list, i);
      assert Asked(list, d.block, now) == Removed(list, i) by {
        AskedRemoves(list, i, now);
      }
    }
    assert forall k | 0 <= k < |order[1..]| :: order[1..][k] == order[k + 1] && order[k + 1] != d;
  }

  lemma AskedKeepsOnePerBlock(t: Table, node: NodeId, block: BlockRef, now: int)
    requires TableOnePerBlock(t)
    ensures TableOnePerBlock(AskedTable(t, node, block, now))
  {
    if node in t {
      hide Find;
      var list := t[node];
      var i := Find(list, block);
      if i < |list| && list[i].expire < now {
        RemovedOnePerBlock(list, i);
      }
    }
  }

  lemma AskedRemoves(list: seq<Desc>, i: nat, now: int)
    requires OnePerBlock(list) && i < |list| && Expired(list[i], now) && Find(list, list[i].block) == i
    ensures Asked(list, list[i].block, now) == Removed(list, i)
  {
  }

  lemma {:induction false} AnswersAreShares(list: seq<Desc>, order: seq<Desc>, live: real, now: int)
    requires InStep(list, order, live, now) && Dividable(order, live, now)
    ensures AnswerSum(list, order, now) == Number(Shares(order, live, now))
    decreases |order|
  {
    hide InStep, Weight, Asked, ExpiredIn;
    if order != [] {
      DividableTail(order, live, now);
      assert order[0..] == order;
      AskOne(list, order, live, now);
      AnswersAreShares(Asked(list, order[0].block, now), order[1..], live, now);
    }
  }

  lemma OneLessEach(list: seq<Desc>, order: seq<Desc>, i: nat)
    requires multiset(list) == multiset(order) && i < |list| && order != [] && list[i] == order[0]
    ensures multiset(Removed(list, i)) == multiset(order[1..])
  {
    assert list == list[..i] + [list[i]] + list[i + 1..];
    assert order == [order[0]] + order[1..];
    assert multiset(Removed(list, i)) == multiset(list) - multiset{list[i]};
  }

  lemma {:induction false} PermutedTotal(list: seq<Desc>, order: seq<Desc>, now: int)
    requires OnePerBlock(list) && multiset(list) == multiset(order)
    ensures Total(list) == LiveIn(order, now) + ExpiredIn(order, now)
    decreases |order|
  {
    if order == [] {
      assert |multiset(list)| == 0;
    } else {
      var d := order[0];
      assert d in multiset(list);
      var i :| 0 <= i < |list| && list[i] == d;
      TotalRemoved(list, i);
      RemovedOnePerBlock(list, i);
      OneLessEach(list, order, i);
      hide OnePerBlock, Removed;
      PermutedTotal(Removed(list, i), order[1..], now);
    }
  }

  ghost predicate NonNegative(order: seq<Desc>) {
    forall d | d in order :: d.utility >= 0.0
  }

  /** Some expired entry of positive utility is asked for after a live one. */
  ghost predicate ExpiredAskedLate(order: seq<Desc>, now: int) {
    exists i, j :: 0 <= i < j < |order| && LiveWeight(order[i], now) && ExpiredWeight(order[j], now)
  }

  predicate LiveWeight(d: Desc, now: int) { !Expired(d, now) && d.utility > 0.0 }

  predicate ExpiredWeight(d: Desc, now: int) { Expired(d, now) && d.utility > 0.0 }

  lemma {:induction false} ExpiredInIs(order: seq<Desc>, now: int)
    requires NonNegative(order)
    ensures ExpiredIn(order, now) >= 0.0
    ensures ExpiredIn(order, now) > 0.0 <==> exists j :: 0 <= j < |order| && ExpiredWeight(order[j], now)
  {
    if order != [] {
      var tail := order[1..];
      assert order[0] in order;
      assert forall d | d in tail :: d in order;
      ExpiredInIs(tail, now);
      if j :| 0 <= j < |tail| && ExpiredWeight(tail[j], now) {
        assert ExpiredWeight(order[j + 1], now);
      }
      if j :| 0 <= j < |order| && ExpiredWeight(order[j], now) {
        if j > 0 {
          assert ExpiredWeight(tail[j - 1], now);
        }
      }
    }
  }

  lemma LateStep(order: seq<Desc>, now: int)
    requires order != []
    ensures ExpiredAskedLate(order, now) <==>
      ExpiredAskedLate(order[1..], now) ||
      (LiveWeight(order[0], now) && exists j :: 0 <= j < |order[1..]| && ExpiredWeight(order[1..][j], now))
  {
    var tail := order[1..];
    if i, j :| 0 <= i < j < |order| && LiveWeight(order[i], now) && ExpiredWeight(order[j], now) {
      assert ExpiredWeight(tail[j - 1], now);
      if i > 0 {
        assert LiveWeight(tail[i - 1], now);
      }
    }
    if i, j :| 0 <= i < j < |tail| && LiveWeight(tail[i], now) && ExpiredWeight(tail[j], now) {
      assert LiveWeight(order[i + 1], now) && ExpiredWeight(order[j + 1], now);
    }
    if LiveWeight(order[0], now) {
      if j :| 0 <= j < |tail| && ExpiredWeight(tail[j], now) {
        assert ExpiredWeight(order[j + 1], now);
      }
    }
  }

  lemma SameSign(x: real, y: real)
    requires y > 0.0
    ensures x * y >= 0.0 <==> x >= 0.0
    ensures x * y == 0.0 <==> x == 0.0
  {
  }

  lemma SmallerShare(u: real, live: real, expired: real)
    requires u >= 0.0 && live > 0.0 && expired >= 0.0
    ensures u / (live + expired) <= u / live
    ensures u / (live + expired) == u / live <==> u == 0.0 || expired == 0.0
  {
    var a, b := u / (live + expired), u / live;
    assert a * (live + expired) == u && b * live == u;
    assert (b - a) * (live + expired) == b * expired;
    SameSign(b, live);
    SameSign(b - a, live + expired);
    if expired > 0.0 {
      SameSign(b, expired);
    }
  }

  lemma AddQuotients(a: real, b: real, t: real)
    requires t != 0.0
    ensures a / t + b / t == (a + b) / t
    ensures 0.0 / t == 0.0
  {
  }

  lemma PositiveDividable(order: seq<Desc>, live: real, now: int)
    requires NonNegative(order) && live > 0.0
    ensures Dividable(order, live, now)
  {
    forall k | 0 <= k <= |order|
      ensures live + ExpiredIn(order[k..], now) != 0.0
    {
      assert forall d | d in order[k..] :: d in order;
      ExpiredInIs(order[k..], now);
    }
  }

  /** The shares come to at most the live part, and to all of it just if no expired utility
      is asked for late. */
  lemma {:induction false} SharesBound(order: seq<Desc>, live: real, now: int)
    requires NonNegative(order) && live > 0.0 && Dividable(order, live, now)
    ensures Shares(order, live, now) <= LiveIn(order, now) / live
    ensures Shares(order, live, now) == LiveIn(order, now) / live <==> !ExpiredAskedLate(order, now)
  {
    hide ExpiredIn, ExpiredAskedLate, Dividable;
    if order == [] {
      NothingLate(order, now);
    } else {
      var d, tail := order[0], order[1..];
      assert d in order && forall e | e in tail :: e in order;
      DividableTail(order, live, now);
      SharesBound(tail, live, now);
      LateStep(order, now);
      ExpiredInIs(tail, now);
      if !Expired(d, now) {
        ExpiredInStep(order, now);
      }
      AddQuotients(if Expired(d, now) then 0.0 else d.utility, LiveIn(tail, now), live);
      SmallerShare(d.utility, live, ExpiredIn(tail, now));
    }
  }

  lemma NothingLate(order: seq<Desc>, now: int)
    requires order == []
    ensures !ExpiredAskedLate(order, now)
  {
  }

  lemma ExpiredInStep(order: seq<Desc>, now: int)
    requires order != [] && !Expired(order[0], now)
    ensures ExpiredIn(order, now) == ExpiredIn(order[1..], now)
  {
  }

  /** Asking a neighbour's entries one after the other, in any order, gives answers that add
      up to one exactly when no expired entry of positive utility is asked for after a live
      one of positive utility. */
  lemma AnswersSumToOne(list: seq<Desc>, order: seq<Desc>, now: int)
    requires OnePerBlock(list) && multiset(order) == multiset(list)
    requires NonNegative(list) && LiveIn(order, now) > 0.0
    ensures AnswerSum(list, order, now) == Number(1.0) <==> !ExpiredAskedLate(order, now)
  {
    hide AnswerSum, Shares, ExpiredAskedLate, LiveIn, Dividable, InStep;
    StartInStep(list, order, now);
    var live := LiveIn(order, now);
    PositiveDividable(order, live, now);
    AnswersAreShares(list, order, live, now);
    SharesBound(order, live, now);
    assert live / live == 1.0;
  }

  /** It can be missed: a live and an expired entry of the same utility, asked in that order,
      come to a half. */
  lemma AnswersCanMissOne(live: Desc, expired: Desc, now: int)
    requires live.utility == 1.0 == expired.utility && live.expire >= now > expired.expire && live.block != expired.block
    ensures AnswerSum([live, expired], [live, expired], now) == Number(0.5)
    ensures ExpiredAskedLate([live, expired], now)
  {
    var list := [live, expired];
    assert list[..1] == [live] && list[1..] == [expired] && list[..0] == [];
    TwoTotal(live, expired);
    assert Weight(list, live.block, now) == Number(0.5);
    assert Asked(list, live.block, now) == list;
    assert Find(list, expired.block) == 1;
    assert Weight(list, expired.block, now) == Number(0.0);
    var rest := Asked(list, expired.block, now);
    assert AnswerSum(rest, [expired][1..], now) == Number(0.0);
    assert AnswerSum(list, [expired], now) == Number(0.0);
    assert LiveWeight(list[0], now) && ExpiredWeight(list[1], now);
  }

  lemma TwoTotal(a: Desc, b: Desc)
    ensures Total([a, b]) == a.utility + b.utility
  {
    var list := [a, b];
    assert list[..1] == [a] && [a][..0] == [];
    NoTotal([a]);
  }

  lemma StartInStep(list: seq<Desc>, order: seq<Desc>, now: int)
    requires OnePerBlock(list) && multiset(order) == multiset(list)
    ensures InStep(list, order, LiveIn(order, now), now)
    ensures NonNegative(list) ==> NonNegative(order)
  {
    hide Total, ExpiredIn, LiveIn;
    PermutedTotal(list, order, now);
    forall k | 0 <= k < |order|
      ensures order[k] in list
    {
      assert order[k] in multiset(order);
    }
    PermutedOnePerBlock(list, order);
  }

  lemma {:induction false} PermutedOnePerBlock(list: seq<Desc>, order: seq<Desc>)
    requires OnePerBlock(list) && multiset(order) == multiset(list)
    ensures OnePerBlock(order)
    decreases |order|
  {
    hide Removed;
    if order != [] {
      var d, tail := order[0], order[1..];
      assert order == [d] + tail;
      assert d in multiset(list);
      var i :| 0 <= i < |list| && list[i] == d;
      RemovedOnePerBlock(list, i);
      assert multiset(tail) == multiset(order) - multiset{d};
      PermutedOnePerBlock(Removed(list, i), tail);
      forall k | 0 <= k < |tail|
        ensures tail[k].block != d.block
      {
        assert tail[k] in multiset(tail);
        RemovedHas(list, i, tail[k]);
      }
      hide OnePerBlock;
      ConsOnePerBlock(d, tail);
    }
  }

  lemma ConsOnePerBlock(d: Desc, tail: seq<Desc>)
    requires OnePerBlock(tail) && forall k | 0 <= k < |tail| :: tail[k].block != d.block
    ensures OnePerBlock([d] + tail)
  {
  }

  lemma RemovedHas(list: seq<Desc>, i: nat, d: Desc)
    requires OnePerBlock(list) && i < |list| && d in Removed(list, i)
    ensures d in list && d.block != list[i].block
  {
  }

  /** In particular the answers add up to one when nothing has expired. */
  lemma NoneExpiredSumToOne(list: seq<Desc>, order: seq<Desc>, now: int)
    requires OnePerBlock(list) && multiset(order) == multiset(list) && Total(list) != 0.0
    requires forall d | d in list :: d.expire >= now
    ensures AnswerSum(list, order, now) == Number(1.0)
  {
    hide AnswerSum, Dividable, InStep, Total, LiveIn, ExpiredIn, Shares;
    StartInStep(list, order, now);
    var live := LiveIn(order, now);
    forall k | 0 <= k < |order|
      ensures !Expired(order[k], now)
    {
      assert order[k] in multiset(order);
    }
    NoneExpired(order, now);
    PermutedTotal(list, order, now);
    LiveDividable(order, live, now);
    AnswersAreShares(list, order, live, now);
    LiveShares(order, live, now);
    assert live / live == 1.0;
  }

  lemma {:induction false} NoneExpired(order: seq<Desc>, now: int)
    requires forall k | 0 <= k < |order| :: !Expired(order[k], now)
    ensures ExpiredIn(order, now) == 0.0
  {
    if order != [] {
      NoneExpired(order[1..], now);
    }
  }

  lemma LiveDividable(order: seq<Desc>, live: real, now: int)
    requires live != 0.0 && forall k | 0 <= k < |order| :: !Expired(order[k], now)
    ensures Dividable(order, live, now)
  {
    forall k | 0 <= k <= |order|
      ensures live + ExpiredIn(order[k..], now) != 0.0
    {
      NoneExpired(order[k..], now);
    }
  }

  lemma {:induction false} LiveShares(order: seq<Desc>, live: real, now: int)
    requires live != 0.0 && Dividable(order, live, now) && forall k | 0 <= k < |order| :: !Expired(order[k], now)
    ensures Shares(order, live, now) == LiveIn(order, now) / live
  {
    hide Dividable, ExpiredIn;
    if order != [] {
      DividableTail(order, live, now);
      NoneExpired(order, now);
      LiveShares(order[1..], live, now);
      AddQuotients(order[0].utility, LiveIn(order[1..], now), live);
    }
  }

  // ---- Asking for any blocks

  /** The sum of the answers when `get_utility` is asked for these blocks in turn. */
  function BlockSum(list: seq<Desc>, blocks: seq<BlockRef>, now: int): Quotient {
    if blocks == [] then Number(0.0)
    else Plus(Weight(list, blocks[0], now), BlockSum(Asked(list, blocks[0], now), blocks[1..], now))
  }

  /** The utility that the list gives the block, 0 if it is not wanted. */
  function UtilityOf(list: seq<Desc>, block: BlockRef): real {
    var i := Find(list, block);
    if i < |list| then list[i].utility else 0.0
  }

  function UtilitySum(list: seq<Desc>, blocks: seq<BlockRef>): real {
    if blocks == [] then 0.0 else UtilityOf(list, blocks[0]) + UtilitySum(list, blocks[1..])
  }

  ghost predicate AllLive(list: seq<Desc>, now: int) {
    forall d | d in list :: d.expire >= now
  }

  lemma {:induction false} SumOfParts(list: seq<Desc>, blocks: seq<BlockRef>, now: int)
    requires AllLive(list, now) && Total(list) != 0.0
    ensures BlockSum(list, blocks, now) == Number(UtilitySum(list, blocks) / Total(list))
  {
    hide Find, Total, Weight, Asked, UtilityOf, AllLive;
    if blocks != [] {
      LiveAnswer(list, blocks[0], now);
      SumOfParts(list, blocks[1..], now);
      AddQuotients(UtilityOf(list, blocks[0]), UtilitySum(list, blocks[1..]), Total(list));
    }
  }

  lemma LiveAnswer(list: seq<Desc>, block: BlockRef, now: int)
    requires AllLive(list, now) && Total(list) != 0.0
    ensures Weight(list, block, now) == Number(UtilityOf(list, block) / Total(list)) && Asked(list, block, now) == list
  {
    hide Find, Total;
    var i := Find(list, block);
    assert i < |list| ==> list[i] in list;
  }

  /** One more descriptor adds its utility where its block is asked for. */
  lemma {:induction false} OneMoreWanted(list: seq<Desc>, d: Desc, blocks: seq<BlockRef>)
    requires NotWanted(list, d.block) && Distinct(blocks)
    ensures UtilitySum(list + [d], blocks) == UtilitySum(list, blocks) + if d.block in blocks then d.utility else 0.0
  {
    hide Find;
    if blocks != [] {
      var b := blocks[0];
      forall i, j | 0 <= i < j < |blocks[1..]|
        ensures blocks[1..][i] != blocks[1..][j]
      {
        assert blocks[i + 1] != blocks[j + 1];
      }
      assert forall k | 0 <= k < |blocks[1..]| :: blocks[1..][k] == blocks[k + 1];
      assert d.block in blocks <==> d.block == b || d.block in blocks[1..];
      OneMoreWanted(list, d, blocks[1..]);
      UtilityAdded(list, d, b);
    }
  }

  lemma UtilityAdded(list: seq<Desc>, d: Desc, b: BlockRef)
    requires NotWanted(list, d.block)
    ensures UtilityOf(list + [d], b) == if b == d.block then d.utility else UtilityOf(list, b)
  {
    hide Find;
    var all := list + [d];
    var i, j := Find(list, b), Find(all, b);
    assert forall k | 0 <= k < |list| :: all[k] == list[k] && list[k] in list;
    assert all[|list|] == d;
    if b == d.block {
      assert i == j == |list|;
    } else if i < |list| {
      assert j == i;
    }
  }

  lemma {:induction false} EachWantedOnce(list: seq<Desc>, blocks: seq<BlockRef>)
    requires OnePerBlock(list) && Distinct(blocks) && forall d | d in list :: d.block in blocks
    ensures UtilitySum(list, blocks) == Total(list)
  {
    hide Find, Distinct;
    if list == [] {
      NothingWanted(blocks);
    } else {
      var init, d := list[..|list| - 1], list[|list| - 1];
      assert list == init + [d];
      EachWantedOnce(init, blocks);
      OneMoreWanted(init, d, blocks);
    }
  }

  lemma {:induction false} NothingWanted(blocks: seq<BlockRef>)
    ensures UtilitySum([], blocks) == 0.0
  {
    if blocks != [] {
      NothingWanted(blocks[1..]);
    }
  }

  /** Asked for any set of blocks that contains all that a neighbour wants, each once, the
      answers add up to 1. */
  lemma AnyBlocksSumToOne(list: seq<Desc>, blocks: seq<BlockRef>, now: int)
    requires OnePerBlock(list) && AllLive(list, now) && Total(list) != 0.0
    requires Distinct(blocks) && forall d | d in list :: d.block in blocks
    ensures BlockSum(list, blocks, now) == Number(1.0)
  {
    hide Total, UtilitySum, BlockSum;
    SumOfParts(list, blocks, now);
    EachWantedOnce(list, blocks);
    assert Total(list) / Total(list) == 1.0;
  }

  // ---- Forwarding

  /** A request as it is passed on: its position goes along, and the constant that the
      source passes on is the hop count 0. */
  datatype Forwarded = Forwarded(block: BlockRef, utility: real, ttlMs: nat, requester: NodeId, position: Position, hops: nat)

  /** The time left as it is written into a request: microseconds, then milliseconds, each
      rounded down, in 32 bits. */
  function MillisLeft(left: nat): nat { left / NANOS_IN_A_MICRO / 1000 % MODULUS_32 }

  function Forward(d: Desc, now: int): Forwarded
    requires d.expire >= now
  {
    Forwarded(d.block, d.utility, MillisLeft(d.expire - now), d.requester, d.position, 0)
  }

  /** Requests that are passed on, and how. */
  function StillWanted(now: int): Desc -> bool { (d: Desc) => now <= d.expire }

  function Passed(now: int): Desc -> Forwarded {
    (d: Desc) => Forwarded(d.block, d.utility, if now <= d.expire then MillisLeft(d.expire - now) else 0, d.requester, d.position, 0)
  }

  function ToForward(queue: seq<Desc>, now: int): seq<Forwarded> {
    if queue == [] then []
    else
      var d := queue[|queue| - 1];
      ToForward(queue[..|queue| - 1], now) + if d.expire >= now then [Forward(d, now)] else []
  }

  /** What is passed on comes from the requests that have not expired, in their order. */
  lemma {:induction false} ForwardedInOrder(queue: seq<Desc>, now: int)
    ensures Selected(ToForward(queue, now), queue, StillWanted(now), Passed(now))
  {
    hide Selected, MillisLeft;
    if queue == [] {
      SelectedNone(StillWanted(now), Passed(now));
    } else {
      var n := |queue| - 1;
      var d := queue[n];
      ForwardedInOrder(queue[..n], now);
      SelectedPush(ToForward(queue[..n], now), queue[..n], d, StillWanted(now), Passed(now));
      assert queue == queue[..n] + [d];
      assert ToForward(queue, now) == ToForward(queue[..n], now) + if StillWanted(now)(d) then [Passed(now)(d)] else [];
    }
  }

  /** Forwarding loses less than a millisecond of a request's life, and never adds to it,
      unless more than 32 bits of milliseconds are left. */
  lemma ForwardedLife(d: Desc, now: int)
    requires d.expire >= now
    ensures
      var left := d.expire - now;
      (0 <= left - Forward(d, now).ttlMs * NANOS_IN_A_MILLI < NANOS_IN_A_MILLI) <==> left < MODULUS_32 * NANOS_IN_A_MILLI
  {
    var left: nat := d.expire - now;
    MillisLeftIs(left);
    hide MillisLeft;
    var m := left / NANOS_IN_A_MILLI;
    assert 0 <= left - m * NANOS_IN_A_MILLI < NANOS_IN_A_MILLI;
    assert m < MODULUS_32 <==> left < MODULUS_32 * NANOS_IN_A_MILLI;
  }

  lemma MillisLeftIs(left: nat)
    ensures MillisLeft(left) == left / NANOS_IN_A_MILLI % MODULUS_32
  {
    assert left / NANOS_IN_A_MICRO / 1000 == left / NANOS_IN_A_MILLI;
  }

  // ---- The time left in scheduling intervals

  /** What `get_ttl` answers when `left` nanoseconds remain: microseconds cut to 32 bits and
      divided, without sign, by an interval that counts milliseconds, read as an `int`. */
  function TtlAnswer(left: nat, interval: nat): int
    requires interval > 0
  {
    AsInt(left / NANOS_IN_A_MICRO % MODULUS_32 / interval)
  }

  function AsInt(u: nat): int {
    if u >= 0x8000_0000 then u - MODULUS_32 else u
  }

  /** The whole scheduling intervals left, which the scheduling problem wants. */
  function IntervalsLeft(left: nat, interval: nat): nat
    requires interval > 0
  {
    left / (interval * NANOS_IN_A_MILLI)
  }

  /** The answer is right exactly when what is left of the microseconds after the cut does
      not become negative, and a thousand times it is the microseconds that were there, up
      to one interval. `a` counts the wraps; without one, less than a thousandth of an
      interval must be left. */
  lemma TtlCountsIntervals(left: nat, interval: nat)
    requires interval > 0
    ensures
      var micros := left / NANOS_IN_A_MICRO;
      var a, b := micros / MODULUS_32, micros % MODULUS_32;
      TtlAnswer(left, interval) == IntervalsLeft(left, interval) <==>
        b / interval < 0x8000_0000 && 0 <= a * MODULUS_32 - 999 * b + 1000 * (b % interval) < 1000 * interval
    ensures left / NANOS_IN_A_MICRO < MODULUS_32 ==>
      (TtlAnswer(left, interval) == IntervalsLeft(left, interval) <==> left / NANOS_IN_A_MICRO < interval)
  {
    AnswerWithWraps(left, interval);
    if left / NANOS_IN_A_MICRO < MODULUS_32 {
      EarlyAnswer(left, interval);
    }
  }

  lemma AnswerWithWraps(left: nat, interval: nat)
    requires interval > 0
    ensures
      var micros := left / NANOS_IN_A_MICRO;
      var a, b := micros / MODULUS_32, micros % MODULUS_32;
      TtlAnswer(left, interval) == IntervalsLeft(left, interval) <==>
        b / interval < 0x8000_0000 && 0 <= a * MODULUS_32 - 999 * b + 1000 * (b % interval) < 1000 * interval
  {
    var micros := left / NANOS_IN_A_MICRO;
    var b := micros % MODULUS_32;
    TtlParts(left, interval);
    MicrosEnough(left, interval);
    hide TtlAnswer, IntervalsLeft, AsInt;
    DivAtMost(b, interval, 1);
    QuotientsAgree(micros, 1000 * interval, b / interval);
    InputsOnly(micros, interval);
  }

  lemma QuotientsAgree(micros: nat, d: nat, q: nat)
    requires d > 0 && q < MODULUS_32
    ensures AsInt(q) == micros / d <==> q < 0x8000_0000 && q * d <= micros < (q + 1) * d
  {
    AsIntIs(q, micros / d);
    hide AsInt;
    DivBetween(micros, d, q);
  }

  lemma InputsOnly(micros: nat, interval: nat)
    requires interval > 0
    ensures
      var a, b := micros / MODULUS_32, micros % MODULUS_32;
      var q := b / interval;
      q * (1000 * interval) <= micros < (q + 1) * (1000 * interval) <==>
        0 <= a * MODULUS_32 - 999 * b + 1000 * (b % interval) < 1000 * interval
  {
    var a, b := micros / MODULUS_32, micros % MODULUS_32;
    var q, r := b / interval, b % interval;
    assert b == q * interval + r;
    Thousandfold(q, interval);
  }

  lemma Thousandfold(q: nat, interval: nat)
    ensures q * (1000 * interval) == 1000 * (q * interval)
    ensures (q + 1) * (1000 * interval) == 1000 * (q * interval) + 1000 * interval
  {
  }

  lemma EarlyAnswer(left: nat, interval: nat)
    requires interval > 0 && left / NANOS_IN_A_MICRO < MODULUS_32
    ensures TtlAnswer(left, interval) == IntervalsLeft(left, interval) <==> left / NANOS_IN_A_MICRO < interval
  {
    var micros := left / NANOS_IN_A_MICRO;
    TtlParts(left, interval);
    MicrosEnough(left, interval);
    DivAtMost(micros, interval, 1);
    DivZero(micros, interval);
    Thousandth(micros, interval);
    hide TtlAnswer, IntervalsLeft;
    OwnThousandth(micros / interval);
  }

  lemma TtlParts(left: nat, interval: nat)
    requires interval > 0
    ensures TtlAnswer(left, interval) == AsInt(left / NANOS_IN_A_MICRO % MODULUS_32 / interval)
    ensures left / NANOS_IN_A_MICRO < MODULUS_32 ==> left / NANOS_IN_A_MICRO % MODULUS_32 == left / NANOS_IN_A_MICRO
  {
  }

  lemma OwnThousandth(q: nat)
    requires q < MODULUS_32
    ensures AsInt(q) == q / 1000 <==> q == 0
  {
  }

  lemma AsIntIs(q: nat, n: nat)
    requires q < MODULUS_32
    ensures AsInt(q) == n <==> q < 0x8000_0000 && n == q
  {
  }

  lemma Thousandth(micros: nat, interval: nat)
    requires interval > 0
    ensures micros / (1000 * interval) == micros / interval / 1000
  {
    DivTwice(micros, interval, 1000);
    assert interval * 1000 == 1000 * interval;
  }

  lemma MicrosEnough(left: nat, interval: nat)
    requires interval > 0
    ensures IntervalsLeft(left, interval) == left / NANOS_IN_A_MICRO / (1000 * interval)
  {
    DivTwice(left, NANOS_IN_A_MICRO, 1000 * interval);
    assert NANOS_IN_A_MICRO * (1000 * interval) == interval * NANOS_IN_A_MILLI;
  }

  /** With less than 2^32 microseconds left, about 71 minutes, the answer counts thousandths
      of intervals; an interval of one millisecond must not count up to the sign bit. */
  lemma TtlCountsThousandths(left: nat, interval: nat)
    requires interval > 0 && left < MODULUS_32 * NANOS_IN_A_MICRO
    ensures
      TtlAnswer(left, interval) >= 0 && TtlAnswer(left, interval) / 1000 == IntervalsLeft(left, interval)
      <==> interval > 1 || left / NANOS_IN_A_MICRO < 0x8000_0000
  {
    var micros := left / NANOS_IN_A_MICRO;
    TtlParts(left, interval);
    MicrosEnough(left, interval);
    Thousandth(micros, interval);
    hide TtlAnswer, IntervalsLeft;
    if interval > 1 {
      DivAtMost(micros, interval, 2);
    }
  }

  /** Only deadlines within the next 21 thousandths of an interval get into the scheduling
      problem's horizon of 20 steps. */
  lemma TtlInHorizon(left: nat, interval: nat, horizon: nat)
    requires interval > 0 && horizon < 0x8000_0000 && left < MODULUS_32 * NANOS_IN_A_MICRO
    ensures 0 <= TtlAnswer(left, interval) <= horizon <==> left / NANOS_IN_A_MICRO < (horizon + 1) * interval
  {
    var micros := left / NANOS_IN_A_MICRO;
    TtlParts(left, interval);
    DivAtMost(micros, interval, 1);
    DivAbove(micros, interval, horizon);
  }

  // ---- The scheduler object

  class Scheduler {
    var table: Table
    var queue: seq<Desc>

    ghost predicate Valid()
      reads this
    {
      TableOnePerBlock(table)
    }

    constructor ()
      ensures Valid() && table == map[] && queue == []
    {
      table, queue := map[], [];
    }

    /** `insert_request`: replaces the neighbour's descriptor for the block and prunes its
        expired ones. */
    method InsertRequest(node: NodeId, request: Request, now: int)
      requires Valid()
      modifies this
      ensures Valid()
      ensures table == Inserted(old(table), Describe(node, request, now), now)
      ensures queue == old(queue) + [Describe(node, request, now)]
      ensures
        var d := queue[|old(queue)|];
        && node in table && table[node] != [] && d == table[node][|table[node]| - 1]
        && d.block == request.block && d.utility == request.utility && d.expire - now == request.ttlMs * 1_000_000
        && d.node == node && d.requester == request.requester && d.position == request.position
    {
      var desc := Describe(node, request, now);
      InsertKeepsOnePerBlock(table, desc, now);
      queue := queue + [desc];
      if node !in table {
        table := table[node := []];
        table := table[node := table[node] + [desc]];
      } else {
        var list := Prune(table[node], desc.block, now);
        table := table[node := list + [desc]];
      }
    }

    /** `get_utility`: the neighbour's weight for a block; an expired entry is dropped. */
    method GetUtility(node: NodeId, block: BlockRef, now: int) returns (weight: Quotient)
      requires Valid()
      modifies `table
      ensures Valid()
      ensures weight == if node in old(table) then Weight(old(table[node]), block, now) else Number(0.0)
      ensures table == AskedTable(old(table), node, block, now)
      ensures node in old(table) ==> node in table && Answers(old(table[node]), block, now, weight, table[node])
    {
      AskedKeepsOnePerBlock(table, node, block, now);
      if node !in table {
        return Number(0.0);
      }
      var list := table[node];
      assert OnePerBlock(list);
      WeightAnswers(list, block, now);
      AnswerHere(list, block, now);
      hide Find, Total, Answers, TableOnePerBlock, OnePerBlock, Weight, Asked;
      var expired;
      weight, expired := Weigh(list, block, now);
      if expired < |list| {
        table := table[node := list[..expired] + list[expired + 1..]];
      }
      assert table[node] == Asked(list, block, now);
      assert table == AskedTable(old(table), node, block, now);
    }

    /** Asks for every entry of a neighbour at one moment, as a tick that schedules all its
        blocks does. */
    method AskAll(node: NodeId, order: seq<Desc>, now: int) returns (sum: Quotient)
      requires Valid() && node in table
      modifies `table
      ensures Valid() && sum == AnswerSum(old(table[node]), order, now)
      ensures multiset(order) == old(multiset(table[node])) && NonNegative(old(table[node])) && LiveIn(order, now) > 0.0 ==>
        (sum == Number(1.0) <==> !ExpiredAskedLate(order, now))
    {
      hide AnswerSum, Weight, Asked, ExpiredAskedLate, LiveIn;
      sum := Number(0.0);
      ghost var start := table[node];
      var i := 0;
      AnswersNow(table[node], order, now, sum);
      while i < |order|
        invariant 0 <= i <= |order| && Valid() && node in table
        invariant AnswerSum(start, order, now) == Plus(sum, AnswerSum(table[node], order[i..], now))
      {
        AnswersStep(table[node], order[i..], now, sum);
        assert order[i..][1..] == order[i + 1..];
        ghost var before := table[node];
        var weight := GetUtility(node, order[i].block, now);
        assert table[node] == Asked(before, order[i].block, now);
        sum := Plus(sum, weight);
        i := i + 1;
      }
      AnswersDone(table[node], order[i..], now);
      if multiset(order) == multiset(start) && NonNegative(start) && LiveIn(order, now) > 0.0 {
        AnswersSumToOne(start, order, now);
      }
    }

    /** Asks for any blocks in turn, as a tick does for each neighbour. */
    method AskBlocks(node: NodeId, blocks: seq<BlockRef>, now: int) returns (sum: Quotient)
      requires Valid() && node in table
      modifies `table
      ensures Valid() && sum == BlockSum(old(table[node]), blocks, now)
      ensures
        var list := old(table[node]);
        AllLive(list, now) && Total(list) != 0.0 && Distinct(blocks) && (forall d | d in list :: d.block in blocks)
        ==> sum == Number(1.0)
    {
      hide Weight, Asked, BlockSum, Total, Answers, Distinct;
      sum := Number(0.0);
      ghost var start := table[node];
      var i := 0;
      BlocksNow(table[node], blocks, now);
      while i < |blocks|
        invariant 0 <= i <= |blocks| && Valid() && node in table
        invariant BlockSum(start, blocks, now) == Plus(sum, BlockSum(table[node], blocks[i..], now))
      {
        BlocksStep(table[node], blocks[i..], now, sum);
        assert blocks[i..][1..] == blocks[i + 1..];
        ghost var before := table[node];
        var weight := GetUtility(node, blocks[i], now);
        assert table[node] == Asked(before, blocks[i], now);
        sum := Plus(sum, weight);
        i := i + 1;
      }
      BlocksDone(table[node], blocks[i..], now);
      if AllLive(start, now) && Total(start) != 0.0 && Distinct(blocks) && forall d | d in start :: d.block in blocks {
        AnyBlocksSumToOne(start, blocks, now);
      }
    }

    /** `get_ttl`: the source's number for the time left, or -1 for an unknown or passed
        deadline. */
    method GetTtl(node: NodeId, block: BlockRef, now: int, interval: nat) returns (ttl: int)
      requires Valid() && interval > 0
      ensures
        var list := if node in table then table[node] else [];
        var i := Find(list, block);
        ttl == if i < |list| && list[i].expire > now then TtlAnswer(list[i].expire - now, interval) else -1
    {
      if node !in table {
        return -1;
      }
      var list := table[node];
      var i := 0;
      while i < |list|
        invariant 0 <= i <= |list|
        invariant Find(list, block) >= i
      {
        if list[i].block == block {
          if list[i].expire > now {
            var timeSpan := (list[i].expire - now) / NANOS_IN_A_MICRO % MODULUS_32;
            return AsInt(timeSpan / interval);
          }
          return -1;
        }
        i := i + 1;
      }
      return -1;
    }

    /** `fwd_requests`: takes at most `max` requests off the queue and passes on those that
        have not expired. */
    method ForwardRequests(max: nat, now: int) returns (out: seq<Forwarded>)
      modifies `queue
      ensures
        var n := if max <= |old(queue)| then max else |old(queue)|;
        && queue == old(queue)[n..] && out == ToForward(old(queue)[..n], now)
        && Selected(out, old(queue)[..n], StillWanted(now), Passed(now))
    {
      out := [];
      ghost var all := queue;
      var left := max;
      var taken := 0;
      while queue != [] && left > 0
        invariant 0 <= taken <= |all| && taken + left == max && queue == all[taken..]
        invariant out == ToForward(all[..taken], now)
        decreases left
      {
        var desc := queue[0];
        assert all[..taken + 1][..taken] == all[..taken] && desc == all[taken];
        if desc.expire >= now {
          out := out + [Forward(desc, now)];
        }
        queue := queue[1..];
        left, taken := left - 1, taken + 1;
      }
      ForwardedInOrder(all[..taken], now);
    }
  }

  /** A request that is inserted into an empty scheduler and forwarded at once goes out with
      everything that it came with, and the milliseconds it may live in 32 bits. */
  method InsertThenForward(node: NodeId, request: Request, now: int) returns (out: seq<Forwarded>)
    ensures
      out == [Forwarded(request.block, request.utility, request.ttlMs % 0x1_0000_0000, request.requester, request.position, 0)]
  {
    hide Inserted, ToForward, Selected;
    var s := new Scheduler();
    s.InsertRequest(node, request, now);
    ghost var d := s.queue[0];
    assert s.queue == [d] && s.queue[..1] == [d];
    MillisKept(d, now, request.ttlMs);
    OneForwarded(d, now);
    hide MillisLeft;
    out := s.ForwardRequests(10, now);
  }

  lemma MillisKept(d: Desc, now: int, ttlMs: nat)
    requires d.expire - now == ttlMs * 1_000_000
    ensures MillisLeft(d.expire - now) == ttlMs % 0x1_0000_0000
  {
    assert ttlMs * 1_000_000 / 1000 == ttlMs * 1000;
  }

  lemma OneForwarded(d: Desc, now: int)
    requires d.expire >= now
    ensures ToForward([d], now) == [Forwarded(d.block, d.utility, MillisLeft(d.expire - now), d.requester, d.position, 0)]
  {
    assert [d][..0] == [];
  }

  /** Asked for its block, such a request is the neighbour's whole interest up to the last
      moment of its `ttlMs` milliseconds, and none after that. */
  method InsertThenAsk(node: NodeId, request: Request, now: int, later: int) returns (weight: Quotient)
    requires request.utility != 0.0
    ensures weight == Number(if later - now <= request.ttlMs * 1_000_000 then 1.0 else 0.0)
  {
    var s := new Scheduler();
    s.InsertRequest(node, request, now);
    ghost var d := s.queue[0];
    assert s.table[node] == [d];
    hide Inserted, Weight, Total, Answers, AskedTable;
    weight := s.GetUtility(node, request.block, later);
    OnlyAnswer(d, later, weight, s.table[node]);
  }

  lemma OnlyAnswer(d: Desc, now: int, weight: Quotient, left: seq<Desc>)
    requires d.utility != 0.0 && Answers([d], d.block, now, weight, left)
    ensures weight == Number(if now <= d.expire then 1.0 else 0.0)
  {
    var list := [d];
    assert list[..0] == [] && d in list && list[0] == d;
    assert Total(list) == d.utility;
    if now <= d.expire {
      assert weight.value * Total(list) == d.utility;
      Cancelled(weight.value, d.utility, Total(list));
    }
  }

  lemma Cancelled(q: real, u: real, total: real)
    requires total == u != 0.0 && q * total == u
    ensures q == 1.0
  {
    assert (q - 1.0) * u == 0.0;
  }

  /** The loop of `get_utility`; `expired` is where it stops at an expired descriptor for the
      block, or the length of the list. */
  method Weigh(list: seq<Desc>, block: BlockRef, now: int) returns (weight: Quotient, expired: nat)
    requires OnePerBlock(list)
    ensures weight == Weight(list, block, now)
    ensures expired == if Find(list, block) < |list| && list[Find(list, block)].expire < now then Find(list, block) else |list|
  {
    AnswerHere(list, block, now);
    hide Find, Total, Weight, Asked;
    NoTotal(list);
    var total, target := 0.0, 0.0;
    var i := 0;
    while i < |list|
      invariant 0 <= i <= |list| && total == Total(list[..i])
      invariant target == if Find(list, block) < i then list[Find(list, block)].utility else 0.0
      invariant Find(list, block) < i ==> list[Find(list, block)].expire >= now
    {
      TotalStep(list, i);
      if list[i].block == block {
        FoundHere(list, block, i);
        if list[i].expire < now {
          return Number(0.0), i;
        }
        target := list[i].utility;
      }
      total := total + list[i].utility;
      i := i + 1;
    }
    assert list[..i] == list;
    return Divide(target, total), i;
  }

  lemma AnswersNow(list: seq<Desc>, order: seq<Desc>, now: int, zero: Quotient)
    requires zero == Number(0.0)
    ensures AnswerSum(list, order, now) == Plus(zero, AnswerSum(list, order[0..], now))
  {
    assert order[0..] == order;
  }

  lemma BlocksNow(list: seq<Desc>, blocks: seq<BlockRef>, now: int)
    ensures BlockSum(list, blocks, now) == Plus(Number(0.0), BlockSum(list, blocks[0..], now))
  {
    assert blocks[0..] == blocks;
  }

  lemma BlocksStep(list: seq<Desc>, blocks: seq<BlockRef>, now: int, sum: Quotient)
    requires blocks != []
    ensures Plus(sum, BlockSum(list, blocks, now)) ==
      Plus(Plus(sum, Weight(list, blocks[0], now)), BlockSum(Asked(list, blocks[0], now), blocks[1..], now))
  {
  }

  lemma BlocksDone(list: seq<Desc>, blocks: seq<BlockRef>, now: int)
    requires blocks == []
    ensures BlockSum(list, blocks, now) == Number(0.0)
  {
  }

  lemma AnswersStep(list: seq<Desc>, order: seq<Desc>, now: int, sum: Quotient)
    requires order != []
    ensures Plus(sum, AnswerSum(list, order, now)) ==
      Plus(Plus(sum, Weight(list, order[0].block, now)), AnswerSum(Asked(list, order[0].block, now), order[1..], now))
  {
  }

  lemma AnswersDone(list: seq<Desc>, order: seq<Desc>, now: int)
    requires order == []
    ensures AnswerSum(list, order, now) == Number(0.0)
  {
  }

  /** The loop of `insert_request`, erasing as it goes. */
  method Prune(start: seq<Desc>, block: BlockRef, now: int) returns (list: seq<Desc>)
    ensures list == Kept(start, block, now)
  {
    hide Kept;
    list := start;
    var i := 0;
    ghost var seen := 0;
    KeptNothing(start, block, now);
    while i < |list|
      invariant 0 <= i <= |list| && 0 <= seen <= |start|
      invariant list == Kept(start[..seen], block, now) + start[seen..]
      invariant i == |Kept(start[..seen], block, now)|
      decreases |list| - i
    {
      PruneStep(start, block, now, seen);
      if list[i].block == block {
        list := list[..i] + list[i + 1..];
      } else if list[i].expire < now {
        list := list[..i] + list[i + 1..];
      } else {
        i := i + 1;
      }
      seen := seen + 1;
    }
    assert start[..seen] == start;
  }

  lemma KeptNothing(start: seq<Desc>, block: BlockRef, now: int)
    ensures Kept(start[..0], block, now) == [] && [] + start[0..] == start
  {
  }

  lemma PruneStep(start: seq<Desc>, block: BlockRef, now: int, seen: nat)
    requires seen < |start|
    ensures
      var kept := Kept(start[..seen], block, now);
      var list := kept + start[seen..];
      var d := start[seen];
      && list[|kept|] == d
      && (if d.block == block || d.expire < now then
            && Kept(start[..seen + 1], block, now) == kept
            && list[..|kept|] + list[|kept| + 1..] == kept + start[seen + 1..]
          else
            && Kept(start[..seen + 1], block, now) == kept + [d]
            && list == kept + [d] + start[seen + 1..])
  {
    assert start[..seen + 1][..seen] == start[..seen];
  }

  // ---- Runs of insertions and askings

  datatype Event =
    | Insert(node: NodeId, request: Request, now: int)
    | Ask(node: NodeId, block: BlockRef, now: int)

  function Stepped(t: Table, ev: Event): Table {
    match ev
    case Insert(node, request, now) => Inserted(t, Describe(node, request, now), now)
    case Ask(node, block, now) => AskedTable(t, node, block, now)
  }

  function TableAfter(run: seq<Event>): Table {
    if run == [] then map[] else Stepped(TableAfter(run[..|run| - 1]), run[|run| - 1])
  }

  /** The event puts `d` into the list of neighbour `n`. */
  predicate Puts(ev: Event, n: NodeId, d: Desc) {
    ev.Insert? && ev.node == n && Describe(ev.node, ev.request, ev.now) == d
  }

  /** The event takes `d` out of the list of neighbour `n`: an insertion for the same block, or
      one of the neighbour after the deadline, or an asking for it after the deadline. */
  predicate Takes(ev: Event, n: NodeId, d: Desc) {
    && ev.node == n
    && match ev
       case Insert(_, request, now) => request.block == d.block || d.expire < now
       case Ask(_, block, now) => block == d.block && d.expire < now
  }

  lemma {:induction false} RunOnePerBlock(run: seq<Event>)
    ensures TableOnePerBlock(TableAfter(run))
  {
    if run != [] {
      var k := |run| - 1;
      RunOnePerBlock(run[..k]);
      hide TableOnePerBlock, Inserted, AskedTable;
      match run[k]
      case Insert(node, request, now) =>
        InsertKeepsOnePerBlock(TableAfter(run[..k]), Describe(node, request, now), now);
      case Ask(node, block, now) =>
        AskedKeepsOnePerBlock(TableAfter(run[..k]), node, block, now);
    }
  }

  lemma InsertedHas(t: Table, d: Desc, now: int, n: NodeId, e: Desc)
    ensures n in Inserted(t, d, now) && e in Inserted(t, d, now)[n] <==>
      (n == d.node && e == d) ||
      (n in t && e in t[n] && (n == d.node ==> e.block != d.block && e.expire >= now))
  {
  }

  lemma AskedHas(list: seq<Desc>, block: BlockRef, now: int, e: Desc)
    requires OnePerBlock(list)
    ensures e in Asked(list, block, now) <==> e in list && !(e.block == block && e.expire < now)
  {
    hide Find;
    var i := Find(list, block);
    if i < |list| && list[i].expire < now {
      RemovedOnePerBlock(list, i);
      assert list == list[..i] + [list[i]] + list[i + 1..];
      if e in Removed(list, i) {
        RemovedHas(list, i, e);
      }
    }
  }

  lemma StepHas(t: Table, ev: Event, n: NodeId, e: Desc)
    requires TableOnePerBlock(t)
    ensures n in Stepped(t, ev) && e in Stepped(t, ev)[n] <==>
      Puts(ev, n, e) || (n in t && e in t[n] && !Takes(ev, n, e))
  {
    hide Inserted, Asked;
    match ev
    case Insert(node, request, now) =>
      InsertedHas(t, Describe(node, request, now), now, n, e);
    case Ask(node, block, now) =>
      if node in t {
        AskedHas(t[node], block, now, e);
      }
  }

  /** Event `i` put `e` there and nothing has taken it out since. */
  ghost predicate LeftBy(run: seq<Event>, i: nat, n: NodeId, e: Desc)
    requires i < |run|
  {
    Puts(run[i], n, e) && forall j | i < j < |run| :: !Takes(run[j], n, e)
  }

  /** After any run of insertions and askings a neighbour's list holds exactly the descriptors
      that an insertion put there and no later event took out. */
  lemma {:induction false} ListHoldsNewest(run: seq<Event>, n: NodeId, e: Desc)
    ensures n in TableAfter(run) && e in TableAfter(run)[n] <==> exists i :: 0 <= i < |run| && LeftBy(run, i, n, e)
  {
    if run != [] {
      var m := |run| - 1;
      var before := run[..m];
      ListHoldsNewest(before, n, e);
      RunOnePerBlock(before);
      StepHas(TableAfter(before), run[m], n, e);
      hide Stepped, Puts, Takes;
      forall i | 0 <= i < m
        ensures LeftBy(run, i, n, e) <==> LeftBy(before, i, n, e) && !Takes(run[m], n, e)
      {
        LeftStep(run, i, n, e);
      }
      assert LeftBy(run, m, n, e) <==> Puts(run[m], n, e);
    }
  }

  lemma LeftStep(run: seq<Event>, i: nat, n: NodeId, e: Desc)
    requires i < |run| - 1
    ensures
      var m := |run| - 1;
      LeftBy(run, i, n, e) <==> LeftBy(run[..m], i, n, e) && !Takes(run[m], n, e)
  {
    var before := run[..|run| - 1];
    hide Puts, Takes;
    assert forall j | i <= j < |before| :: before[j] == run[j];
  }
}
