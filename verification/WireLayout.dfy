/** The bytes of every record, written out without the formats that print them. */
module WireLayout {
  import opened WireFormat
  import opened WireRecords
  import Arithmetic
  import WireStreams

  function Two(t: U16): seq<Byte> { [t / 0x100, t % 0x100] }

  function Four(t: U32): seq<Byte> { [t / 0x100_0000, t / 0x1_0000 % 0x100, t / 0x100 % 0x100, t % 0x100] }

  function High(t: U64): U32 { t / 0x1_0000_0000 }

  function Low(t: U64): U32 { t % 0x1_0000_0000 }

  function Eight(t: U64): seq<Byte> { Four(High(t)) + Four(Low(t)) }

  type ShortText = s: seq<Byte> | |s| < 32768

  /** The size in one byte up to 126, and from there on in two, the first of which starts with
      a 1; then the text. */
  function TextBytes(s: ShortText): seq<Byte> {
    (if |s| < 127 then [|s|] else [128 + |s| / 256, |s| % 256]) + s
  }

  function Point(v: Vec2d): seq<Byte> { Eight(v.x) + Eight(v.y) }

  function RefBytes(b: RefRecord): seq<Byte> { b.hash + Two(b.index) }

  function Ids(ids: seq<U16>): seq<Byte> { if ids == [] then [] else Two(ids[0]) + Ids(ids[1..]) }

  function ArgsBytes(a: BlockRequestArgs): seq<Byte> {
    RefBytes(a.block) + (Four(a.utility) + (Four(a.ttlMs) + (Two(a.requester) + (Point(a.requesterPosition) + [a.hopsFromBlock]))))
  }

  function AllArgs(args: seq<BlockRequestArgs>): seq<Byte> { if args == [] then [] else ArgsBytes(args[0]) + AllArgs(args[1..]) }

  predicate Brief(texts: seq<seq<Byte>>) { forall i | 0 <= i < |texts| :: |texts[i]| < 32768 }

  function Texts(texts: seq<seq<Byte>>): seq<Byte>
    requires Brief(texts)
  {
    if texts == [] then [] else TextBytes(texts[0]) + Texts(texts[1..])
  }

  predicate Listable(m: ContentMetadata) { |m.types| < 256 && Brief(m.types) && |m.name| < 32768 }

  function MetadataBytes(m: ContentMetadata): seq<Byte>
    requires Listable(m)
  {
    m.hash + (Four(m.size) + (Four(m.blockSize) + (([|m.types|] + Texts(m.types)) + (TextBytes(m.name)
      + (Point(m.origin) + (Two(m.publisher) + (Eight(m.publishTimeMs) + ([m.hops] + Four(m.ttlMs)))))))))
  }

  function AllMetadata(ms: seq<ContentMetadata>): seq<Byte>
    requires forall i | 0 <= i < |ms| :: Listable(ms[i])
  {
    if ms == [] then [] else MetadataBytes(ms[0]) + AllMetadata(ms[1..])
  }

  // ---- Fields

  /** The value has the format, and these are its bytes. */
  ghost predicate Prints(f: Format, v: Value, bytes: seq<Byte>) {
    HasFormat(f, v) && Encode(f, v) == bytes
  }

  lemma PrintsNumber8(t: U8)
    ensures Prints(Unsigned(W8), Num(t), [t])
  {
    assert BigEndian(t, 1) == BigEndian(t / 256, 0) + [t % 256];
  }

  lemma PrintsNumber16(t: U16)
    ensures Prints(Unsigned(W16), Num(t), Two(t))
  {
    WireStreams.TwoBytes(t);
  }

  lemma PrintsNumber32(t: U32)
    ensures Prints(Unsigned(W32), Num(t), Four(t))
  {
    WireStreams.FourBytes(t);
    hide BigEndian;
  }

  lemma PrintsNumber64(t: U64)
    ensures Prints(Unsigned(W64), Num(t), Eight(t))
  {
    WireStreams.EightBytes(t);
    HighBytes(t);
    LowBytes(t);
    hide BigEndian, High, Low;
    var a, b := Four(High(t)), Four(Low(t));
    assert BigEndian(t, 8) == a + b;
  }

  lemma HighBytes(t: U64)
    ensures
      var h := High(t);
      && h / 0x100_0000 == t / 0x100_0000_0000_0000 % 0x100 && h / 0x1_0000 % 0x100 == t / 0x1_0000_0000_0000 % 0x100
      && h / 0x100 % 0x100 == t / 0x100_0000_0000 % 0x100 && h % 0x100 == t / 0x1_0000_0000 % 0x100
  {
    assert High(t) / 0x1_0000 == t / 0x1_0000_0000_0000 && High(t) / 0x100 == t / 0x100_0000_0000;
  }

  lemma LowBytes(t: U64)
    ensures
      var l := Low(t);
      && l / 0x100_0000 == t / 0x100_0000 % 0x100 && l / 0x1_0000 % 0x100 == t / 0x1_0000 % 0x100
      && l / 0x100 % 0x100 == t / 0x100 % 0x100 && l % 0x100 == t % 0x100
  {
    var h: nat, l: nat := High(t), Low(t);
    HighAndLow(t);
    hide *;
    LowByte3(h, l);
    LowByte2(h, l);
    LowByte1(h, l);
    SameByte(0x100_0000 * h, l);
  }

  lemma HighAndLow(t: U64)
    ensures t == 0x1_0000_0000 * High(t) + Low(t)
  {
  }

  lemma LowByte3(h: nat, l: U32)
    ensures (0x1_0000_0000 * h + l) / 0x100_0000 % 0x100 == l / 0x100_0000
  {
    Arithmetic.DivModUnique(0x1_0000_0000 * h + l, 0x100_0000, 0x100 * h + l / 0x100_0000, l % 0x100_0000);
    SameByte(h, l / 0x100_0000);
  }

  lemma LowByte2(h: nat, l: U32)
    ensures (0x1_0000_0000 * h + l) / 0x1_0000 % 0x100 == l / 0x1_0000 % 0x100
  {
    Arithmetic.DivModUnique(0x1_0000_0000 * h + l, 0x1_0000, 0x1_0000 * h + l / 0x1_0000, l % 0x1_0000);
    SameByte(0x100 * h, l / 0x1_0000);
  }

  lemma LowByte1(h: nat, l: U32)
    ensures (0x1_0000_0000 * h + l) / 0x100 % 0x100 == l / 0x100 % 0x100
  {
    Arithmetic.DivModUnique(0x1_0000_0000 * h + l, 0x100, 0x100_0000 * h + l / 0x100, l % 0x100);
    SameByte(0x1_0000 * h, l / 0x100);
  }

  lemma SameByte(a: nat, m: nat)
    ensures (0x100 * a + m) % 0x100 == m % 0x100
  {
    Arithmetic.DivModUnique(0x100 * a + m, 0x100, a + m / 0x100, m % 0x100);
  }

  lemma PrintsText(s: ShortText)
    ensures Prints(Text, Bytes(s), TextBytes(s))
  {
    WireStreams.HeaderIs(|s|);
  }

  lemma PrintsBoth(f: Format, v: Value, a: seq<Byte>, g: Format, w: Value, b: seq<Byte>)
    requires Prints(f, v, a) && Prints(g, w, b)
    ensures Prints(Both(f, g), Pair(v, w), a + b)
  {
  }

  ghost predicate PrintsItems(e: Format, vs: seq<Value>, bytes: seq<Byte>) {
    (forall i | 0 <= i < |vs| :: HasFormat(e, vs[i])) && EncodeItems(e, vs) == bytes
  }

  lemma PrintsNothing(e: Format)
    ensures PrintsItems(e, [], [])
  {
  }

  lemma PrintsMore(e: Format, v: Value, a: seq<Byte>, vs: seq<Value>, b: seq<Byte>)
    requires Prints(e, v, a) && PrintsItems(e, vs, b)
    ensures PrintsItems(e, [v] + vs, a + b)
  {
    hide Encode, HasFormat;
    assert ([v] + vs)[1..] == vs;
  }

  lemma PrintsMany(e: Format, vs: seq<Value>, bytes: seq<Byte>)
    requires PrintsItems(e, vs, bytes) && |vs| < 256
    ensures Prints(Many(e), Items(vs), [|vs|] + bytes)
  {
    hide EncodeItems;
    assert BigEndian(|vs|, 1) == BigEndian(|vs| / 256, 0) + [|vs| % 256];
  }

  lemma PrintsPoint(v: Vec2d)
    ensures Prints(VEC2D, VecValue(v), Point(v))
  {
    hide Prints, Eight;
    PrintsNumber64(v.x);
    PrintsNumber64(v.y);
    PrintsBoth(Unsigned(W64), Num(v.x), Eight(v.x), Unsigned(W64), Num(v.y), Eight(v.y));
  }

  lemma PrintsHash(h: HashBytes)
    ensures Prints(HASH, Bytes(h), h)
  {
  }

  lemma PrintsRef(b: RefRecord)
    ensures Prints(BLOCK_REF, RefValue(b), RefBytes(b))
  {
    hide Prints;
    PrintsHash(b.hash);
    PrintsNumber16(b.index);
    PrintsBoth(HASH, Bytes(b.hash), b.hash, Unsigned(W16), Num(b.index), Two(b.index));
  }

  // ---- Records

  lemma {:induction false} PrintsIds(ids: seq<U16>)
    ensures PrintsItems(NODE_ID, NodeIdValues(ids), Ids(ids))
  {
    hide Prints, PrintsItems, Two;
    if ids == [] {
      PrintsNothing(NODE_ID);
      assert NodeIdValues(ids) == [];
    } else {
      PrintsNumber16(ids[0]);
      PrintsIds(ids[1..]);
      PrintsMore(NODE_ID, Num(ids[0]), Two(ids[0]), NodeIdValues(ids[1..]), Ids(ids[1..]));
      assert NodeIdValues(ids) == [Num(ids[0])] + NodeIdValues(ids[1..]);
    }
  }

  /** A header is the sender in two bytes, the number of recipients in one, and theirs. */
  lemma HeaderLayout(h: MessageHeader)
    requires |h.recipients| < 256
    ensures Prints(HEADER, HeaderValue(h), Two(h.sender) + ([|h.recipients|] + Ids(h.recipients)))
  {
    hide Prints, PrintsItems, Two, Ids;
    PrintsNumber16(h.sender);
    PrintsIds(h.recipients);
    PrintsMany(NODE_ID, NodeIdValues(h.recipients), Ids(h.recipients));
    PrintsBoth(NODE_ID, Num(h.sender), Two(h.sender), Many(NODE_ID), Items(NodeIdValues(h.recipients)), [|h.recipients|] + Ids(h.recipients));
  }

  lemma PrintsArgs(a: BlockRequestArgs)
    ensures Prints(REQUEST_ARGS, ArgsValue(a), ArgsBytes(a))
  {
    hide Prints, Two, Four, Point, RefBytes;
    PrintsRef(a.block);
    PrintsNumber32(a.utility);
    PrintsNumber32(a.ttlMs);
    PrintsNumber16(a.requester);
    PrintsPoint(a.requesterPosition);
    PrintsNumber8(a.hopsFromBlock);
    var v1, b1 := Pair(VecValue(a.requesterPosition), Num(a.hopsFromBlock)), Point(a.requesterPosition) + [a.hopsFromBlock];
    var v2, b2 := Pair(Num(a.requester), v1), Two(a.requester) + b1;
    var v3, b3 := Pair(Num(a.ttlMs), v2), Four(a.ttlMs) + b2;
    var v4, b4 := Pair(Num(a.utility), v3), Four(a.utility) + b3;
    var f1 := Both(VEC2D, Unsigned(W8));
    var f2 := Both(NODE_ID, f1);
    var f3 := Both(Unsigned(W32), f2);
    PrintsBoth(VEC2D, VecValue(a.requesterPosition), Point(a.requesterPosition), Unsigned(W8), Num(a.hopsFromBlock), [a.hopsFromBlock]);
    PrintsBoth(NODE_ID, Num(a.requester), Two(a.requester), f1, v1, b1);
    PrintsBoth(Unsigned(W32), Num(a.ttlMs), Four(a.ttlMs), f2, v2, b2);
    PrintsBoth(Unsigned(W32), Num(a.utility), Four(a.utility), f3, v3, b3);
    PrintsBoth(BLOCK_REF, RefValue(a.block), RefBytes(a.block), Both(Unsigned(W32), f3), v4, b4);
  }

  lemma {:induction false} PrintsAllArgs(args: seq<BlockRequestArgs>)
    ensures PrintsItems(REQUEST_ARGS, RequestValue(BlockRequest(args)).items, AllArgs(args))
  {
    hide Prints, PrintsItems, ArgsBytes, ArgsValue;
    var values := RequestValue(BlockRequest(args)).items;
    if args == [] {
      PrintsNothing(REQUEST_ARGS);
      assert values == [];
    } else {
      var rest := RequestValue(BlockRequest(args[1..])).items;
      PrintsArgs(args[0]);
      PrintsAllArgs(args[1..]);
      PrintsMore(REQUEST_ARGS, ArgsValue(args[0]), ArgsBytes(args[0]), rest, AllArgs(args[1..]));
      assert values == [ArgsValue(args[0])] + rest;
    }
  }

  /** A block request is its number of entries and, for each, the 32 bytes of the hash, the
      index, the utility, the time to live, the requester, its position and the hops. */
  lemma RequestLayout(r: BlockRequest)
    requires |r.requests| < 256
    ensures Prints(BLOCK_REQUEST, RequestValue(r), [|r.requests|] + AllArgs(r.requests))
  {
    hide Prints, PrintsItems, AllArgs;
    PrintsAllArgs(r.requests);
    assert r == BlockRequest(r.requests);
    PrintsMany(REQUEST_ARGS, RequestValue(r).items, AllArgs(r.requests));
  }

  lemma PrintsBlob(w: Width, s: seq<Byte>, size: seq<Byte>)
    requires |s| < w.Limit() && size == BigEndian(|s|, w.Bytes())
    ensures Prints(Blob(w), Bytes(s), size + s)
  {
  }

  lemma TwoAreBigEndian(t: U16)
    ensures Two(t) == BigEndian(t, 2)
  {
    WireStreams.TwoBytes(t);
  }

  lemma FourAreBigEndian(t: U32)
    ensures Four(t) == BigEndian(t, 4)
  {
    WireStreams.FourBytes(t);
    hide BigEndian;
  }

  /** A block response is the block, the size of the data in four bytes, and the data. */
  lemma ResponseLayout(r: BlockResponse)
    ensures Prints(BLOCK_RESPONSE, ResponseValue(r), RefBytes(r.block) + (Four(|r.data|) + r.data))
  {
    FourAreBigEndian(|r.data|);
    hide Prints, Four, RefBytes, BigEndian, RefValue;
    PrintsRef(r.block);
    PrintsBlob(W32, r.data, Four(|r.data|));
    PrintsBoth(BLOCK_REF, RefValue(r.block), RefBytes(r.block), Blob(W32), Bytes(r.data), Four(|r.data|) + r.data);
  }

  /** An interest announcement is the count in one byte, the size in two, and the data. */
  lemma InterestAnnLayout(a: InterestAnn)
    ensures Prints(INTEREST_ANN, InterestAnnValue(a), [a.count] + (Two(|a.data|) + a.data))
  {
    TwoAreBigEndian(|a.data|);
    hide Prints, Two, BigEndian;
    PrintsNumber8(a.count);
    PrintsBlob(W16, a.data, Two(|a.data|));
    PrintsBoth(Unsigned(W8), Num(a.count), [a.count], Blob(W16), Bytes(a.data), Two(|a.data|) + a.data);
  }

  /** An interest is its type as text, its life in four bytes and its hops. */
  lemma InterestLayout(i: InterestRecord)
    requires |i.kind| < 32768
    ensures Prints(INTEREST, InterestValue(i), TextBytes(i.kind) + (Four(i.ttlMs) + [i.hops]))
  {
    hide Prints, Four, TextBytes;
    PrintsText(i.kind);
    PrintsNumber32(i.ttlMs);
    PrintsNumber8(i.hops);
    PrintsBoth(Unsigned(W32), Num(i.ttlMs), Four(i.ttlMs), Unsigned(W8), Num(i.hops), [i.hops]);
    PrintsBoth(Text, Bytes(i.kind), TextBytes(i.kind), INTEREST.second, InterestValue(i).snd, Four(i.ttlMs) + [i.hops]);
  }

  lemma {:induction false} PrintsTexts(texts: seq<seq<Byte>>)
    requires Brief(texts)
    ensures PrintsItems(Text, TextValues(texts), Texts(texts))
  {
    hide Prints, PrintsItems, TextBytes;
    if texts == [] {
      PrintsNothing(Text);
      assert TextValues(texts) == [];
    } else {
      PrintsText(texts[0]);
      PrintsTexts(texts[1..]);
      PrintsMore(Text, Bytes(texts[0]), TextBytes(texts[0]), TextValues(texts[1..]), Texts(texts[1..]));
      assert TextValues(texts) == [Bytes(texts[0])] + TextValues(texts[1..]);
    }
  }

  lemma PrintsPublished(m: ContentMetadata)
    ensures Prints(PUBLISHED, PublishedValue(m), Two(m.publisher) + (Eight(m.publishTimeMs) + ([m.hops] + Four(m.ttlMs))))
  {
    hide Prints, Two, Four, Eight;
    PrintsNumber16(m.publisher);
    PrintsNumber64(m.publishTimeMs);
    PrintsNumber8(m.hops);
    PrintsNumber32(m.ttlMs);
    var v1, b1 := Pair(Num(m.hops), Num(m.ttlMs)), [m.hops] + Four(m.ttlMs);
    PrintsBoth(Unsigned(W8), Num(m.hops), [m.hops], Unsigned(W32), Num(m.ttlMs), Four(m.ttlMs));
    PrintsBoth(Unsigned(W64), Num(m.publishTimeMs), Eight(m.publishTimeMs), Both(Unsigned(W8), Unsigned(W32)), v1, b1);
    PrintsBoth(NODE_ID, Num(m.publisher), Two(m.publisher), PUBLISHED.second, PublishedValue(m).snd, Eight(m.publishTimeMs) + b1);
  }

  lemma PrintsMetadata(m: ContentMetadata)
    requires Listable(m)
    ensures Prints(METADATA, MetadataValue(m), MetadataBytes(m))
  {
    hide Prints, PrintsItems, Two, Four, Eight, Point, TextBytes, Texts, PublishedValue, VecValue, TextValues;
    var p := Two(m.publisher) + (Eight(m.publishTimeMs) + ([m.hops] + Four(m.ttlMs)));
    PrintsHash(m.hash);
    PrintsNumber32(m.size);
    PrintsNumber32(m.blockSize);
    PrintsTexts(m.types);
    PrintsMany(Text, TextValues(m.types), Texts(m.types));
    PrintsText(m.name);
    PrintsPoint(m.origin);
    PrintsPublished(m);
    var f1 := Both(VEC2D, PUBLISHED);
    var f2 := Both(Text, f1);
    var f3 := Both(Many(Text), f2);
    var v1, b1 := Pair(VecValue(m.origin), PublishedValue(m)), Point(m.origin) + p;
    var v2, b2 := Pair(Bytes(m.name), v1), TextBytes(m.name) + b1;
    var v3, b3 := Pair(Items(TextValues(m.types)), v2), ([|m.types|] + Texts(m.types)) + b2;
    var v4, b4 := Pair(Num(m.blockSize), v3), Four(m.blockSize) + b3;
    PrintsBoth(VEC2D, VecValue(m.origin), Point(m.origin), PUBLISHED, PublishedValue(m), p);
    PrintsBoth(Text, Bytes(m.name), TextBytes(m.name), f1, v1, b1);
    PrintsBoth(Many(Text), Items(TextValues(m.types)), [|m.types|] + Texts(m.types), f2, v2, b2);
    PrintsBoth(Unsigned(W32), Num(m.blockSize), Four(m.blockSize), f3, v3, b3);
    PrintsBoth(Unsigned(W32), Num(m.size), Four(m.size), Both(Unsigned(W32), f3), v4, b4);
    PrintsBoth(HASH, Bytes(m.hash), m.hash, METADATA.second, Pair(Num(m.size), v4), Four(m.size) + b4);
  }

  lemma {:induction false} PrintsAllMetadata(ms: seq<ContentMetadata>)
    requires forall i | 0 <= i < |ms| :: Listable(ms[i])
    ensures PrintsItems(METADATA, ContentAnnValue(ContentAnn(ms)).items, AllMetadata(ms))
  {
    hide Prints, PrintsItems, MetadataBytes, MetadataValue, Listable;
    var values := ContentAnnValue(ContentAnn(ms)).items;
    if ms == [] {
      PrintsNothing(METADATA);
      assert values == [];
    } else {
      var rest := ContentAnnValue(ContentAnn(ms[1..])).items;
      PrintsMetadata(ms[0]);
      PrintsAllMetadata(ms[1..]);
      PrintsMore(METADATA, MetadataValue(ms[0]), MetadataBytes(ms[0]), rest, AllMetadata(ms[1..]));
      assert values == [MetadataValue(ms[0])] + rest;
    }
  }

  /** A content announcement is its number of records and, for each, the hash, the sizes of
      data and blocks, the types, the name, the origin, the publisher, the time of publication,
      the hops and the life left. */
  lemma ContentAnnLayout(a: ContentAnn)
    requires |a.metadata| < 256 && forall i | 0 <= i < |a.metadata| :: Listable(a.metadata[i])
    ensures Prints(CONTENT_ANN, ContentAnnValue(a), [|a.metadata|] + AllMetadata(a.metadata))
  {
    hide Prints, PrintsItems, AllMetadata, Listable;
    PrintsAllMetadata(a.metadata);
    assert a == ContentAnn(a.metadata);
    PrintsMany(METADATA, ContentAnnValue(a).items, AllMetadata(a.metadata));
  }

  /** A beacon is the position and one byte, 1 for a response. */
  lemma BeaconLayout(b: Beacon)
    ensures Prints(BEACON, BeaconValue(b), Point(b.position) + [if b.isResponse then 1 else 0])
  {
    PrintsFlag(b.isResponse);
    hide Prints, Point;
    PrintsPoint(b.position);
    PrintsBoth(VEC2D, VecValue(b.position), Point(b.position), Flag, Bool(b.isResponse), [if b.isResponse then 1 else 0]);
  }

  lemma PrintsFlag(b: bool)
    ensures Prints(Flag, Bool(b), [if b then 1 else 0])
  {
  }

  /** Signed numbers are in two's complement. */
  lemma SignedLayout(n: int)
    requires -0x8000 <= n < 0x8000
    ensures Prints(Signed(W16), Num(n), Two(if n < 0 then n + 0x1_0000 else n))
  {
    WireStreams.TwoBytes(if n < 0 then n + 0x1_0000 else n);
  }
}
