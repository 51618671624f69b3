/** How an interest helper prints its table into an announcement, and how another node reads
    it back. */
module InterestPacking {
  import opened Sequences
  import opened Wrappers
  import opened WireFormat
  import opened WireRecords
  import opened WireRoundTrip
  import opened WireStreams

  /** An announcement has at most this many bytes of data; its buffer has twice as many. */
  const MAX_SIZE: nat := 1024

  function Printed(i: InterestRecord): (bytes: seq<Byte>)
    ensures |bytes| >= 6
  {
    FormatOf(i);
    PrintedSize(i);
    Encode(INTEREST, InterestValue(i))
  }

  lemma FormatOf(i: InterestRecord)
    ensures HasFormat(INTEREST, InterestValue(i)) && !HasFlag(InterestValue(i))
    ensures WithinLimits(INTEREST, InterestValue(i)) <==> |i.kind| <= MAX_TEXT
  {
    InterestFits(i);
  }

  lemma PrintedSize(i: InterestRecord)
    requires HasFormat(INTEREST, InterestValue(i))
    ensures |Encode(INTEREST, InterestValue(i))| >= 6
  {
    var k := Both(Unsigned(W32), Unsigned(W8));
    assert |Encode(k, Pair(Num(i.ttlMs), Num(i.hops)))| == 5;
    assert |TextHeader(|i.kind|)| >= 1;
  }

  // ---- What is printed where

  predicate Live(i: InterestRecord) { i.ttlMs > 0 }

  function LiveOf(table: seq<InterestRecord>): (r: seq<InterestRecord>)
    ensures |r| <= |table| && forall i | i in r :: Live(i) && i in table
  {
    if table == [] then []
    else
      var last := table[|table| - 1];
      LiveOf(table[..|table| - 1]) + if Live(last) then [last] else []
  }

  function HasLife(): InterestRecord -> bool { (i: InterestRecord) => i.ttlMs != 0 }

  /** Just those with life left, each once and in their order. */
  lemma {:induction false} LiveInOrder(table: seq<InterestRecord>)
    ensures Selected(LiveOf(table), table, HasLife(), Same())
  {
    hide Selected;
    if table == [] {
      SelectedNone(HasLife(), Same<InterestRecord>());
    } else {
      var n := |table| - 1;
      LiveInOrder(table[..n]);
      SelectedPush(LiveOf(table[..n]), table[..n], table[n], HasLife(), Same());
      assert table == table[..n] + [table[n]];
      assert LiveOf(table) == LiveOf(table[..n]) + if HasLife()(table[n]) then [Same()(table[n])] else [];
    }
  }

  function Total(sent: seq<InterestRecord>): (n: nat)
    ensures n >= 6 * |sent|
  {
    if sent == [] then 0 else Total(sent[..|sent| - 1]) + |Printed(sent[|sent| - 1])|
  }

  /** Where the next interest is printed. After each one the position moves on by the total
      size so far, and not by the size of that one. */
  function Position(sent: seq<InterestRecord>): (n: nat)
    ensures n >= Total(sent)
  {
    if sent == [] then 0 else Position(sent[..|sent| - 1]) + Total(sent)
  }

  ghost predicate Room(size: nat, sent: seq<InterestRecord>) {
    sent != [] ==>
      var init := sent[..|sent| - 1];
      Room(size, init) && Position(init) + |Printed(sent[|sent| - 1])| <= size
  }

  function Overwrite(b: seq<Byte>, at: nat, bytes: seq<Byte>): (r: seq<Byte>)
    requires at + |bytes| <= |b|
    ensures |r| == |b|
  {
    b[..at] + bytes + b[at + |bytes|..]
  }

  /** The buffer after printing these. */
  ghost function Packed(b: seq<Byte>, sent: seq<InterestRecord>): (r: seq<Byte>)
    requires Room(|b|, sent)
    ensures |r| == |b|
  {
    if sent == [] then b
    else
      var init := sent[..|sent| - 1];
      Overwrite(Packed(b, init), Position(init), Printed(sent[|sent| - 1]))
  }

  predicate Printable(sent: seq<InterestRecord>) {
    forall i | 0 <= i < |sent| :: |sent[i].kind| <= MAX_TEXT
  }

  /** The data of an announcement of these, printed into a buffer that held `b`. */
  ghost function Message(b: seq<Byte>, sent: seq<InterestRecord>): seq<Byte>
    requires Room(|b|, sent)
  {
    TotalInside(|b|, sent);
    Packed(b, sent)[..Total(sent)]
  }

  lemma TotalInside(size: nat, sent: seq<InterestRecord>)
    requires Room(size, sent)
    ensures Total(sent) <= size
  {
  }

  lemma OneMore(b: seq<Byte>, sent: seq<InterestRecord>, i: InterestRecord)
    requires Room(|b|, sent) && Position(sent) + |Printed(i)| <= |b|
    ensures Room(|b|, sent + [i]) && Packed(b, sent + [i]) == Overwrite(Packed(b, sent), Position(sent), Printed(i))
    ensures Total(sent + [i]) == Total(sent) + |Printed(i)| && Position(sent + [i]) == Position(sent) + Total(sent + [i])
  {
    assert (sent + [i])[..|sent|] == sent;
  }

  /** What is printed for the next interest does not reach into the message so far. */
  lemma BehindTotal(b: seq<Byte>, sent: seq<InterestRecord>, bytes: seq<Byte>)
    requires Room(|b|, sent) && Position(sent) + |bytes| <= |b|
    ensures Overwrite(Packed(b, sent), Position(sent), bytes)[..Total(sent)] == Packed(b, sent)[..Total(sent)]
  {
    hide Room, Packed, Total, Position;
  }

  lemma OneVisited(table: seq<InterestRecord>, v: nat, sent: seq<InterestRecord>)
    requires v < |table|
    ensures LiveOf(table[..v + 1]) == LiveOf(table[..v]) + if Live(table[v]) then [table[v]] else []
    ensures
      var queue := table[v..] + sent;
      queue[0] == table[v] && queue[1..] == table[v + 1..] + sent && queue[1..] + [table[v]] == table[v + 1..] + (sent + [table[v]])
  {
    assert table[..v + 1][..v] == table[..v];
  }

  lemma NothingSent(b: seq<Byte>, table: seq<InterestRecord>)
    ensures LiveOf(table[..0]) == [] && Room(|b|, []) && Packed(b, []) == b && Total([]) == Position([]) == 0
    ensures table[0..] + [] == table && Printable([])
  {
  }

  /** The bytes that the printer writes, or none if it stops. */
  method Print(i: InterestRecord, space: nat) returns (bytes: Option<seq<Byte>>)
    ensures bytes == if |i.kind| <= MAX_TEXT && |Printed(i)| <= space then Some(Printed(i)) else None
  {
    FormatOf(i);
    hide Encode, HasFormat, WithinLimits, HasFlag;
    var buffer := new Byte[space];
    var output := new BinaryOutput(buffer);
    assert |output.Contents()| == output.cur == 0;
    var ok := output.Put(INTEREST, InterestValue(i));
    assert ok ==> output.Contents() == Printed(i);
    bytes := if ok then Some(buffer[..output.cur]) else None;
  }

  /** Prints one interest at position `data`; none if an assertion of the printer fails or
      it would not lie inside the buffer. */
  method PrintAt(buffer: array<Byte>, data: nat, size: nat, i: InterestRecord, ghost before: seq<Byte>, ghost sent: seq<InterestRecord>)
    returns (wrote: Option<nat>)
    requires Room(buffer.Length, sent) && |before| == buffer.Length && buffer[..] == Packed(before, sent)
    requires data == Position(sent) && size == Total(sent) <= buffer.Length
    modifies buffer
    ensures wrote == if |i.kind| <= MAX_TEXT && data + |Printed(i)| <= buffer.Length then Some(|Printed(i)|) else None
    ensures buffer[..size] == old(buffer[..size])
    ensures wrote == None ==> buffer[..] == old(buffer[..])
    ensures wrote != None ==> Room(buffer.Length, sent + [i]) && buffer[..] == Packed(before, sent + [i])
    ensures wrote != None ==>
      Total(sent + [i]) == size + wrote.value && Position(sent + [i]) == data + Total(sent + [i])
  {
    hide Total, Position, Room, Packed, Printed, Overwrite;
    var printed := Print(i, buffer.Length - size);
    if printed == None || data + |printed.value| > buffer.Length {
      return None;
    }
    OneMore(before, sent, i);
    BehindTotal(before, sent, printed.value);
    WriteAt(buffer, data, printed.value);
    assert buffer[..size] == buffer[..][..size];
    return Some(|printed.value|);
  }

  method WriteAt(buffer: array<Byte>, at: nat, bytes: seq<Byte>)
    requires at + |bytes| <= buffer.Length
    modifies buffer
    ensures buffer[..] == Overwrite(old(buffer[..]), at, bytes)
  {
    forall i | 0 <= i < |bytes| {
      buffer[at + i] := bytes[i];
    }
  }

  lemma PrintableMore(sent: seq<InterestRecord>, i: InterestRecord)
    requires Printable(sent) && |i.kind| <= MAX_TEXT
    ensures Printable(sent + [i])
  {
  }

  lemma MessageIs(b: seq<Byte>, sent: seq<InterestRecord>)
    requires Room(|b|, sent)
    ensures Total(sent) <= |b| && Message(b, sent) == Packed(b, sent)[..Total(sent)]
  {
  }

  /** `announce`, for a table whose entries have the life they have left: from the front,
      expired entries are dropped, and live ones printed and put at the back, until the next
      one would make the message too large. `ok` is false when an assertion of the printer
      fails or an interest is printed outside the buffer. The first `visited` entries are the
      ones that were dropped or sent. */
  method Announce(table: seq<InterestRecord>, buffer: array<Byte>)
    returns (ok: bool, table': seq<InterestRecord>, ann: InterestAnn, ghost visited: nat)
    requires buffer.Length == 2048
    modifies buffer
    ensures visited <= |table|
    ensures
      var sent := LiveOf(table[..visited]);
      && Room(buffer.Length, sent) && Total(sent) <= 1024 && table' == table[visited..] + sent
      && ann.count == |sent| && ann.data == Message(old(buffer[..]), sent) && Printable(sent)
      && (visited == |table| || Total(sent) == 1024 || Live(table[visited]))
      && (visited < |table| && Total(sent) < 1024 ==>
        var i := table[visited];
        && Live(i) && (ok <==> |i.kind| <= MAX_TEXT && Position(sent) + |Printed(i)| <= buffer.Length)
        && (ok ==> Total(sent) + |Printed(i)| > 1024))
      && (visited == |table| || Total(sent) == 1024 ==> ok)
    ensures Selected(LiveOf(table[..visited]), table[..visited], HasLife(), Same())
  {
    hide Selected, LiveOf, Total, Position, Room, Packed, Printed, Overwrite, Message, Printable;
    var queue, count, size, data := table, 0, 0, 0;
    ghost var before, sent := buffer[..], [];
    visited := 0;
    NothingSent(before, table);
    ok := true;
    while count < |queue|
      invariant 0 <= visited <= |table| && sent == LiveOf(table[..visited]) && queue == table[visited..] + sent
      invariant count == |sent| && size == Total(sent) < MAX_SIZE && data == Position(sent)
      invariant Room(buffer.Length, sent) && buffer[..] == Packed(before, sent) && Printable(sent)
      decreases |queue| - count
    {
      OneVisited(table, visited, sent);
      var i := queue[0];
      if !Live(i) {
        queue := queue[1..];
        visited := visited + 1;
        continue;
      }
      var wrote := PrintAt(buffer, data, size, i, before, sent);
      if wrote == None {
        ok := false;
        break;
      }
      if size + wrote.value > MAX_SIZE {
        break;
      }
      PrintableMore(sent, i);
      size, count, sent := size + wrote.value, count + 1, sent + [i];
      data := data + size;
      queue := queue[1..] + [i];
      visited := visited + 1;
      if size == MAX_SIZE {
        break;
      }
    }
    table' := queue;
    LiveInOrder(table[..visited]);
    MessageIs(before, sent);
    ann := InterestAnn(count, buffer[..size]);
  }

  // ---- Reading it back

  /** `receive`: as many interests as the announcement says, read one after the other. */
  method Receive(ann: InterestAnn) returns (r: Option<seq<Value>>)
    ensures r == Read(ann.count, ann.data)
  {
    hide Decode, DecodeItems;
    var input := new BinaryInput(ann.data);
    r := input.GetItems(INTEREST, ann.count);
  }

  /** The values that are read, whatever follows them. */
  function Read(count: nat, data: seq<Byte>): Option<seq<Value>> {
    match DecodeItems(INTEREST, count, data)
    case None => None
    case Some(t) => Some(t.0)
  }

  lemma AllFit(sent: seq<InterestRecord>)
    requires Printable(sent)
    ensures AllEncodable(INTEREST, InterestValues(sent)) && !HasFlag(Items(InterestValues(sent)))
  {
    hide HasFormat, WithinLimits;
    forall i | 0 <= i < |sent|
      ensures Encodable(INTEREST, InterestValues(sent)[i]) && !HasFlag(InterestValues(sent)[i])
    {
      FormatOf(sent[i]);
    }
  }

  /** Interests printed one after the other are read back as they were, whatever follows. */
  lemma RowReadBack(sent: seq<InterestRecord>, rest: seq<Byte>)
    requires Printable(sent)
    ensures AllEncodable(INTEREST, InterestValues(sent))
    ensures Read(|sent|, EncodeItems(INTEREST, InterestValues(sent)) + rest) == Some(InterestValues(sent))
    ensures forall other | InterestValues(other) == InterestValues(sent) :: other == sent
  {
    AllFit(sent);
    hide EncodeItems, DecodeItems, HasFlag, Flip;
    ItemsBack(INTEREST, InterestValues(sent), rest);
    FlipsFlags(Items(InterestValues(sent)));
    forall other | InterestValues(other) == InterestValues(sent)
      ensures other == sent
    {
      assert |other| == |InterestValues(other)| == |sent|;
      forall i | 0 <= i < |sent|
        ensures other[i] == sent[i]
      {
        assert InterestValues(other)[i] == InterestValues(sent)[i];
      }
    }
  }

  lemma {:induction false} PositionGrows(sent: seq<InterestRecord>, k: nat)
    requires k <= |sent|
    ensures Position(sent[..k]) <= Position(sent) && Total(sent[..k]) <= Total(sent)
  {
    if k < |sent| {
      PositionGrows(sent[..|sent| - 1], k);
      assert sent[..|sent| - 1][..k] == sent[..k];
    } else {
      assert sent[..k] == sent;
    }
  }

  /** What is printed later goes behind the position. */
  lemma {:induction false} StartKept(b: seq<Byte>, sent: seq<InterestRecord>, k: nat)
    requires k <= |sent| && Room(|b|, sent)
    ensures Room(|b|, sent[..k])
    ensures forall j: nat | j < Position(sent[..k]) && j < |b| :: Packed(b, sent)[j] == Packed(b, sent[..k])[j]
  {
    if k < |sent| {
      var init := sent[..|sent| - 1];
      StartKept(b, init, k);
      PositionGrows(init, k);
      assert init[..k] == sent[..k];
    } else {
      assert sent[..k] == sent;
    }
  }

  lemma OneInRow(b: seq<Byte>, x: InterestRecord)
    requires Room(|b|, [x])
    ensures Total([x]) == Position([x]) == |Printed(x)| <= |b| && Packed(b, [x])[..Total([x])] == Printed(x)
    ensures forall j | Total([x]) <= j < |b| :: Packed(b, [x])[j] == b[j]
  {
    hide Printed;
    assert [x][..0] == [];
  }

  /** The first two stand in a row, and what follows them is as the buffer was. */
  lemma TwoInRow(b: seq<Byte>, x: InterestRecord, y: InterestRecord)
    requires Room(|b|, [x, y])
    ensures
      var w, row := |Printed(x)|, Printed(x) + Printed(y);
      && Total([x, y]) == |row| <= |b| && Position([x, y]) == w + |row|
      && Packed(b, [x, y])[..|row|] == row && forall j | |row| <= j < |b| :: Packed(b, [x, y])[j] == b[j]
  {
    assert [x, y][..1] == [x];
    assert Room(|b|, [x]);
    OneInRow(b, x);
    hide Printed, Room;
    var p, q := Packed(b, [x]), Packed(b, [x, y]);
    assert q == Overwrite(p, |Printed(x)|, Printed(y));
    assert q[..|Printed(x)|] == p[..|Printed(x)|];
  }

  /** Up to two interests are printed one after the other, whatever the buffer held. */
  lemma FewInRow(b: seq<Byte>, sent: seq<InterestRecord>)
    requires Room(|b|, sent) && |sent| <= 2 && Printable(sent)
    ensures AllEncodable(INTEREST, InterestValues(sent)) && Message(b, sent) == EncodeItems(INTEREST, InterestValues(sent))
  {
    AllFit(sent);
    hide Room, Packed, Encode;
    if |sent| == 1 {
      assert sent == [sent[0]];
      OneInRow(b, sent[0]);
    } else if |sent| == 2 {
      assert sent == [sent[0], sent[1]];
      TwoInRow(b, sent[0], sent[1]);
    }
    RowOfFew(sent);
  }

  lemma RowOfFew(sent: seq<InterestRecord>)
    requires |sent| <= 2 && AllEncodable(INTEREST, InterestValues(sent))
    ensures
      EncodeItems(INTEREST, InterestValues(sent)) ==
        if |sent| == 0 then [] else if |sent| == 1 then Printed(sent[0]) else Printed(sent[0]) + Printed(sent[1])
  {
    hide Encode, HasFormat;
    var vs := InterestValues(sent);
    if |sent| == 1 {
      assert vs[1..] == [];
      assert EncodeItems(INTEREST, vs[1..]) == [];
    } else if |sent| == 2 {
      assert vs[1..][1..] == [] && vs[1..][0] == vs[1];
      assert EncodeItems(INTEREST, vs[1..][1..]) == [];
      assert EncodeItems(INTEREST, vs[1..]) == Printed(sent[1]);
    }
  }

  const NOTHING: InterestRecord := InterestRecord([], 0, 0)

  lemma {:induction false} ZeroBytes(w: nat)
    ensures BigEndian(0, w) == seq(w, _ => 0)
  {
    if w > 0 {
      ZeroBytes(w - 1);
    }
  }

  lemma {:induction false} NothingPrinted()
    ensures Printed(NOTHING) == [0, 0, 0, 0, 0, 0]
  {
    ZeroBytes(1);
    ZeroBytes(4);
    hide BigEndian;
    assert Encode(Text, Bytes([])) == TextHeader(0) + [] == [0];
    var life := Pair(Num(0), Num(0));
    assert Encode(INTEREST.second, life) == BigEndian(0, 4) + BigEndian(0, 1) == [0, 0, 0, 0, 0];
  }

  /** The third interest is looked for where nothing was printed. */
  lemma {:induction false} ThirdIsNothing(b: seq<Byte>, sent: seq<InterestRecord>) returns (tail: seq<Byte>)
    requires Room(|b|, sent) && |sent| > 2 && Empty(b)
    ensures Message(b, sent) == Printed(sent[0]) + (Printed(sent[1]) + (Printed(NOTHING) + tail))
  {
    var row := Printed(sent[0]) + Printed(sent[1]);
    RowThenOld(b, sent);
    NothingPrinted();
    hide Room, Packed, Printed, Total, Position, Message;
    var m := Message(b, sent);
    assert m[|row|..][..6] == Printed(NOTHING);
    tail := m[|row|..][6..];
    InParts(m, Printed(sent[0]), Printed(sent[1]), Printed(NOTHING));
  }

  lemma InParts(m: seq<Byte>, p: seq<Byte>, q: seq<Byte>, r: seq<Byte>)
    requires |m| >= |p + q| + |r| && m[..|p + q|] == p + q && m[|p + q|..][..|r|] == r
    ensures m == p + (q + (r + m[|p + q|..][|r|..]))
  {
    var tail := m[|p + q|..][|r|..];
    assert m == m[..|p + q|] + m[|p + q|..];
    assert m[|p + q|..] == r + tail;
    assert (p + q) + (r + tail) == p + (q + (r + tail));
  }

  lemma {:induction false} RowThenOld(b: seq<Byte>, sent: seq<InterestRecord>)
    requires Room(|b|, sent) && |sent| > 2
    ensures
      var m, row := Message(b, sent), Printed(sent[0]) + Printed(sent[1]);
      |m| >= |row| + 6 && m[..|row|] == row && forall j | |row| <= j < |row| + 6 :: m[j] == b[j]
  {
    var first := sent[..2];
    assert first == [sent[0], sent[1]];
    StartKept(b, sent, 2);
    TwoInRow(b, sent[0], sent[1]);
    ThirdAdds(sent);
    hide Room, Packed, Printed, Total, Position;
    var row, p, q := Printed(sent[0]) + Printed(sent[1]), Packed(b, sent), Packed(b, first);
    forall j: nat | j < |row|
      ensures p[j] == row[j]
    {
      assert p[j] == q[j] == q[..|row|][j];
    }
  }

  lemma ThirdAdds(sent: seq<InterestRecord>)
    requires |sent| > 2
    ensures Total(sent) >= Total(sent[..2]) + 6
  {
    PositionGrows(sent, 3);
    assert sent[..3][..2] == sent[..2];
  }

  lemma PrintedBack(i: InterestRecord, rest: seq<Byte>)
    requires |i.kind| <= MAX_TEXT
    ensures Decode(INTEREST, Printed(i) + rest) == Some((InterestValue(i), rest))
  {
    FormatOf(i);
    hide Decode, Encode, HasFlag, HasFormat, WithinLimits;
    RoundTrip(INTEREST, InterestValue(i), rest);
  }

  /** Every announcement of these is read back as they were if and only if they are at most
      two: into a buffer of zeros, a third is read as one with no type and no life. */
  lemma {:induction false} ReadBackIfTwo(sent: seq<InterestRecord>)
    requires Printable(sent) && Room(2048, sent) && forall i | i in sent :: Live(i)
    ensures (forall b: seq<Byte> | |b| == 2048 :: Read(|sent|, Message(b, sent)) == Some(InterestValues(sent))) <==>
      |sent| <= 2
  {
    hide Read, Message, Room, EncodeItems;
    if |sent| <= 2 {
      forall b: seq<Byte> | |b| == 2 * MAX_SIZE
        ensures Read(|sent|, Message(b, sent)) == Some(InterestValues(sent))
      {
        FewReadBack(b, sent);
      }
    } else {
      var b: seq<Byte> := seq(2 * MAX_SIZE, _ => 0);
      ThirdMisread(b, sent);
    }
  }

  lemma FewReadBack(b: seq<Byte>, sent: seq<InterestRecord>)
    requires Printable(sent) && Room(|b|, sent) && |sent| <= 2
    ensures Read(|sent|, Message(b, sent)) == Some(InterestValues(sent))
  {
    hide Read, Message, Room, EncodeItems;
    FewInRow(b, sent);
    RowReadBack(sent, []);
    assert Message(b, sent) + [] == Message(b, sent);
  }

  lemma ThirdMisread(b: seq<Byte>, sent: seq<InterestRecord>)
    requires Printable(sent) && Room(|b|, sent) && |sent| > 2 && Live(sent[2])
    requires Empty(b)
    ensures Read(|sent|, Message(b, sent)) != Some(InterestValues(sent))
  {
    var tail := ThirdIsNothing(b, sent);
    hide Message, Room, Printed, Decode;
    var n := |sent|;
    var third := Printed(NOTHING) + tail;
    var second := Printed(sent[1]) + third;
    PrintedBack(sent[0], second);
    PrintedBack(sent[1], third);
    PrintedBack(NOTHING, tail);
    var r := DecodeItems(INTEREST, n, Printed(sent[0]) + second);
    if r.Some? {
      ThirdOf(n, Printed(sent[0]) + second, second, third, tail, InterestValue(sent[0]), InterestValue(sent[1]), InterestValue(NOTHING));
      assert InterestValues(sent)[2] == InterestValue(sent[2]);
    }
  }

  lemma ThirdOf(n: nat, a: seq<Byte>, b: seq<Byte>, c: seq<Byte>, d: seq<Byte>, u: Value, v: Value, w: Value)
    requires n > 2 && Decode(INTEREST, a) == Some((u, b)) && Decode(INTEREST, b) == Some((v, c))
    requires Decode(INTEREST, c) == Some((w, d)) && DecodeItems(INTEREST, n, a).Some?
    ensures |DecodeItems(INTEREST, n, a).value.0| > 2 && DecodeItems(INTEREST, n, a).value.0[2] == w
  {
    hide Decode;
    assert DecodeItems(INTEREST, n - 1, b).Some?;
    assert DecodeItems(INTEREST, n - 2, c).Some?;
  }

  /** What one node announces and another reads: the interests that were sent, if they are at
      most two, and something else if they are more and the buffer was empty. */
  method AnnounceAndHear(table: seq<InterestRecord>, buffer: array<Byte>)
    returns (table': seq<InterestRecord>, sent: seq<InterestRecord>, heard: Option<seq<Value>>)
    requires buffer.Length == 2 * MAX_SIZE
    modifies buffer
    ensures sent <= LiveOf(table)
    ensures |sent| <= 2 ==> heard == Some(InterestValues(sent))
    ensures |sent| > 2 && old(Empty(buffer[..])) ==> heard != Some(InterestValues(sent))
  {
    hide LiveOf, Room, Message, Read, Printable, InterestValues, Empty, Selected, Total, Position, Printed;
    ghost var b := buffer[..];
    var ok, ann;
    ghost var visited;
    ok, table', ann, visited := Announce(table, buffer);
    sent := table'[|table'| - ann.count..];
    LiveSoFar(table, visited);
    heard := Receive(ann);
    if |sent| <= 2 {
      FewReadBack(b, sent);
    } else if Empty(b) {
      ThirdMisread(b, sent);
    }
  }

  ghost predicate Empty(b: seq<Byte>) {
    forall j | 0 <= j < |b| :: b[j] == 0
  }

  lemma {:induction false} LiveSoFar(table: seq<InterestRecord>, v: nat)
    requires v <= |table|
    ensures LiveOf(table[..v]) <= LiveOf(table)
  {
    if v < |table| {
      var init := table[..|table| - 1];
      LiveSoFar(init, v);
      assert init[..v] == table[..v];
    } else {
      assert table[..v] == table;
    }
  }
}
