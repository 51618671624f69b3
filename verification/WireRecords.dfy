/** The records that travel in messages, field by field in their wire order. */
module WireRecords {
  import opened Units
  import opened WireFormat
  import opened Wrappers
  import opened WireRoundTrip

  type U8 = x: nat | x < 0x100
  type U16 = x: nat | x < 0x1_0000
  type U32 = x: nat | x < 0x1_0000_0000
  type U64 = x: nat | x < 0x1_0000_0000_0000_0000
  type HashBytes = h: seq<Byte> | |h| == 32 witness seq(32, _ => 0)
  type Data16 = d: seq<Byte> | |d| < 0x1_0000
  type Data32 = d: seq<Byte> | |d| < 0x1_0000_0000

  // Floating point fields are their bit patterns.

  datatype Vec2d = Vec2d(x: U64, y: U64)

  datatype RefRecord = RefRecord(hash: HashBytes, index: U16)

  datatype MessageHeader = MessageHeader(sender: U16, recipients: seq<U16>)

  /** The two local flags of a request are not on the wire. */
  datatype BlockRequestArgs = BlockRequestArgs(block: RefRecord, utility: U32, ttlMs: U32, requester: U16,
    requesterPosition: Vec2d, hopsFromBlock: U8)

  datatype BlockRequest = BlockRequest(requests: seq<BlockRequestArgs>)

  datatype BlockResponse = BlockResponse(block: RefRecord, data: Data32)

  datatype InterestRecord = InterestRecord(kind: seq<Byte>, ttlMs: U32, hops: U8)

  datatype InterestAnn = InterestAnn(count: U8, data: Data16)

  /** The remaining lifetime stands where the source writes its derived pseudo-field. */
  datatype ContentMetadata = ContentMetadata(hash: HashBytes, size: U32, blockSize: U32, types: seq<seq<Byte>>, name: seq<Byte>,
    origin: Vec2d, publisher: U16, publishTimeMs: U64, hops: U8, ttlMs: U32)

  datatype ContentAnn = ContentAnn(metadata: seq<ContentMetadata>)

  datatype Beacon = Beacon(position: Vec2d, isResponse: bool)

  const NODE_ID := Unsigned(W16)
  const HASH := Raw(32)
  const VEC2D := Both(Unsigned(W64), Unsigned(W64))
  const BLOCK_REF := Both(HASH, Unsigned(W16))
  const HEADER := Both(NODE_ID, Many(NODE_ID))
  const REQUEST_ARGS := Both(BLOCK_REF, Both(Unsigned(W32), Both(Unsigned(W32), Both(NODE_ID, Both(VEC2D, Unsigned(W8))))))
  const BLOCK_REQUEST := Many(REQUEST_ARGS)
  const BLOCK_RESPONSE := Both(BLOCK_REF, Blob(W32))
  const INTEREST := Both(Text, Both(Unsigned(W32), Unsigned(W8)))
  const INTEREST_ANN := Both(Unsigned(W8), Blob(W16))
  const PUBLISHED := Both(NODE_ID, Both(Unsigned(W64), Both(Unsigned(W8), Unsigned(W32))))
  const METADATA := Both(HASH, Both(Unsigned(W32), Both(Unsigned(W32), Both(Many(Text), Both(Text, Both(VEC2D, PUBLISHED))))))
  const CONTENT_ANN := Many(METADATA)
  const BEACON := Both(VEC2D, Flag)

  // ---- Records as values, and back

  function NodeIdValues(ids: seq<U16>): (r: seq<Value>)
    ensures |r| == |ids| && forall i | 0 <= i < |r| :: r[i] == Num(ids[i])
  {
    seq(|ids|, i requires 0 <= i < |ids| => Num(ids[i]))
  }

  function TextValues(texts: seq<seq<Byte>>): (r: seq<Value>)
    ensures |r| == |texts| && forall i | 0 <= i < |r| :: r[i] == Bytes(texts[i])
  {
    seq(|texts|, i requires 0 <= i < |texts| => Bytes(texts[i]))
  }

  function VecValue(v: Vec2d): Value { Pair(Num(v.x), Num(v.y)) }

  function RefValue(b: RefRecord): Value { Pair(Bytes(b.hash), Num(b.index)) }

  function HeaderValue(h: MessageHeader): Value {
    Pair(Num(h.sender), Items(NodeIdValues(h.recipients)))
  }

  function ArgsValue(a: BlockRequestArgs): Value {
    Pair(RefValue(a.block), Pair(Num(a.utility), Pair(Num(a.ttlMs), Pair(Num(a.requester),
      Pair(VecValue(a.requesterPosition), Num(a.hopsFromBlock))))))
  }

  function RequestValue(r: BlockRequest): Value {
    Items(seq(|r.requests|, i requires 0 <= i < |r.requests| => ArgsValue(r.requests[i])))
  }

  function ResponseValue(r: BlockResponse): Value {
    Pair(RefValue(r.block), Bytes(r.data))
  }

  function InterestValue(i: InterestRecord): Value {
    Pair(Bytes(i.kind), Pair(Num(i.ttlMs), Num(i.hops)))
  }

  function InterestValues(interests: seq<InterestRecord>): (r: seq<Value>)
    ensures |r| == |interests| && forall i | 0 <= i < |r| :: r[i] == InterestValue(interests[i])
  {
    seq(|interests|, i requires 0 <= i < |interests| => InterestValue(interests[i]))
  }

  function InterestAnnValue(a: InterestAnn): Value {
    Pair(Num(a.count), Bytes(a.data))
  }

  function PublishedValue(m: ContentMetadata): Value {
    Pair(Num(m.publisher), Pair(Num(m.publishTimeMs), Pair(Num(m.hops), Num(m.ttlMs))))
  }

  function MetadataValue(m: ContentMetadata): Value {
    Pair(Bytes(m.hash), Pair(Num(m.size), Pair(Num(m.blockSize), Pair(Items(TextValues(m.types)), Pair(Bytes(m.name),
      Pair(VecValue(m.origin), PublishedValue(m)))))))
  }

  function ContentAnnValue(a: ContentAnn): Value {
    Items(seq(|a.metadata|, i requires 0 <= i < |a.metadata| => MetadataValue(a.metadata[i])))
  }

  function BeaconValue(b: Beacon): Value {
    Pair(VecValue(b.position), Bool(b.isResponse))
  }

  /** A value with the metadata's fields within the printer's limits. */
  predicate Printable(m: ContentMetadata) {
    |m.name| <= 32767 && |m.types| <= 255 && forall i | 0 <= i < |m.types| :: |m.types[i]| <= 32767
  }

  // ---- Round trips

  /** The printer accepts the value, and its bytes followed by any others are read back as
      that value and those others. */
  ghost predicate Survives(f: Format, v: Value, rest: seq<Byte>) {
    && Encodable(f, v)
    && Decode(f, Encode(f, v) + rest) == Some((v, rest))
  }

  /** The value has the format and no flag, and is within the limits just if `fits`. */
  ghost predicate Fits(f: Format, v: Value, fits: bool) {
    HasFormat(f, v) && !HasFlag(v) && (WithinLimits(f, v) <==> fits)
  }

  lemma NumFits(w: Width, n: nat)
    requires n < w.Limit()
    ensures Fits(Unsigned(w), Num(n), true)
  {
  }

  lemma TextFits(s: seq<Byte>)
    ensures Fits(Text, Bytes(s), |s| <= MAX_TEXT)
  {
  }

  lemma PairFits(a: Format, x: Value, p: bool, b: Format, y: Value, q: bool)
    requires Fits(a, x, p) && Fits(b, y, q)
    ensures Fits(Both(a, b), Pair(x, y), p && q)
  {
  }

  lemma ItemsFit(e: Format, vs: seq<Value>, fit: seq<bool>)
    requires |fit| == |vs| && forall i | 0 <= i < |vs| :: Fits(e, vs[i], fit[i])
    ensures Fits(Many(e), Items(vs), |vs| <= 255 && forall i | 0 <= i < |fit| :: fit[i])
  {
    forall i | 0 <= i < |vs|
      ensures HasFormat(e, vs[i]) && !HasFlag(vs[i]) && (WithinLimits(e, vs[i]) <==> fit[i])
    {
      assert Fits(e, vs[i], fit[i]);
    }
  }

  lemma SurvivesIfFits(f: Format, v: Value, fits: bool, rest: seq<Byte>)
    requires Fits(f, v, fits)
    ensures Survives(f, v, rest) <==> fits
  {
    hide Encode, Decode, HasFlag;
    if fits {
      RoundTrip(f, v, rest);
    }
  }

  lemma VecFits(v: Vec2d)
    ensures Fits(VEC2D, VecValue(v), true)
  {
    hide Fits;
    NumFits(W64, v.x);
    NumFits(W64, v.y);
    PairFits(Unsigned(W64), Num(v.x), true, Unsigned(W64), Num(v.y), true);
  }

  lemma RefFits(b: RefRecord)
    ensures Fits(BLOCK_REF, RefValue(b), true)
  {
    NumFits(W16, b.index);
    PairFits(HASH, Bytes(b.hash), true, Unsigned(W16), Num(b.index), true);
  }

  /** A message header is printed and read back exactly when it has at most 255 recipients,
      and its value stands for no other header. */
  lemma HeaderSurvives(h: MessageHeader, rest: seq<Byte>)
    ensures Survives(HEADER, HeaderValue(h), rest) <==> |h.recipients| <= 255
    ensures forall g: MessageHeader | HeaderValue(g) == HeaderValue(h) :: g == h
  {
    hide Fits, Survives;
    var items := NodeIdValues(h.recipients);
    var fit := seq(|items|, _ => true);
    forall i | 0 <= i < |items|
      ensures Fits(NODE_ID, items[i], fit[i])
    {
      NumFits(W16, h.recipients[i]);
    }
    ItemsFit(NODE_ID, items, fit);
    NumFits(W16, h.sender);
    PairFits(NODE_ID, Num(h.sender), true, Many(NODE_ID), Items(items), |items| <= MAX_ITEMS);
    SurvivesIfFits(HEADER, HeaderValue(h), |h.recipients| <= MAX_ITEMS, rest);
    forall g: MessageHeader | HeaderValue(g) == HeaderValue(h)
      ensures g == h
    {
      var other := NodeIdValues(g.recipients);
      assert forall i | 0 <= i < |other| :: Num(g.recipients[i]) == other[i] && Num(h.recipients[i]) == items[i];
      assert g.recipients == h.recipients;
    }
  }

  lemma ArgsFit(a: BlockRequestArgs)
    ensures Fits(REQUEST_ARGS, ArgsValue(a), true)
  {
    hide Fits;
    RefFits(a.block);
    VecFits(a.requesterPosition);
    NumFits(W32, a.utility);
    NumFits(W32, a.ttlMs);
    NumFits(W16, a.requester);
    NumFits(W8, a.hopsFromBlock);
    var place := Pair(VecValue(a.requesterPosition), Num(a.hopsFromBlock));
    var who := Pair(Num(a.requester), place);
    var ttl := Pair(Num(a.ttlMs), who);
    PairFits(VEC2D, VecValue(a.requesterPosition), true, Unsigned(W8), Num(a.hopsFromBlock), true);
    PairFits(NODE_ID, Num(a.requester), true, Both(VEC2D, Unsigned(W8)), place, true);
    PairFits(Unsigned(W32), Num(a.ttlMs), true, Both(NODE_ID, Both(VEC2D, Unsigned(W8))), who, true);
    PairFits(Unsigned(W32), Num(a.utility), true, Both(Unsigned(W32), Both(NODE_ID, Both(VEC2D, Unsigned(W8)))), ttl, true);
    PairFits(BLOCK_REF, RefValue(a.block), true, REQUEST_ARGS.second, ArgsValue(a).snd, true);
  }

  lemma ArgsApart(a: BlockRequestArgs, b: BlockRequestArgs)
    requires ArgsValue(a) == ArgsValue(b)
    ensures a == b
  {
  }

  /** A block request survives exactly when it holds at most 255 requests. */
  lemma RequestSurvives(r: BlockRequest, rest: seq<Byte>)
    ensures Survives(BLOCK_REQUEST, RequestValue(r), rest) <==> |r.requests| <= 255
    ensures forall q: BlockRequest | RequestValue(q) == RequestValue(r) :: q == r
  {
    hide ArgsValue, Fits, Survives;
    var items := RequestValue(r).items;
    var fit := seq(|items|, _ => true);
    forall i | 0 <= i < |items|
      ensures Fits(REQUEST_ARGS, items[i], fit[i])
    {
      ArgsFit(r.requests[i]);
    }
    ItemsFit(REQUEST_ARGS, items, fit);
    SurvivesIfFits(BLOCK_REQUEST, RequestValue(r), |items| <= MAX_ITEMS, rest);
    forall q: BlockRequest | RequestValue(q) == RequestValue(r)
      ensures q == r
    {
      assert |q.requests| == |RequestValue(q).items| == |r.requests|;
      forall i | 0 <= i < |q.requests|
        ensures q.requests[i] == r.requests[i]
      {
        assert ArgsValue(q.requests[i]) == RequestValue(q).items[i] == items[i] == ArgsValue(r.requests[i]);
        ArgsApart(q.requests[i], r.requests[i]);
      }
    }
  }

  lemma TypesFit(types: seq<seq<Byte>>)
    ensures Fits(Many(Text), Items(TextValues(types)), |types| <= 255 && forall i | 0 <= i < |types| :: |types[i]| <= MAX_TEXT)
  {
    hide Fits;
    var items := TextValues(types);
    var fit := seq(|types|, i requires 0 <= i < |types| => |types[i]| <= MAX_TEXT);
    forall i | 0 <= i < |items|
      ensures Fits(Text, items[i], fit[i])
    {
      TextFits(types[i]);
    }
    ItemsFit(Text, items, fit);
    assert (forall i | 0 <= i < |fit| :: fit[i]) <==> forall i | 0 <= i < |types| :: |types[i]| <= MAX_TEXT by {
      assert forall i | 0 <= i < |types| :: fit[i] <==> |types[i]| <= MAX_TEXT;
    }
  }

  lemma PublishedFits(m: ContentMetadata)
    ensures Fits(PUBLISHED, PublishedValue(m), true)
  {
    hide Fits;
    NumFits(W16, m.publisher);
    NumFits(W64, m.publishTimeMs);
    NumFits(W8, m.hops);
    NumFits(W32, m.ttlMs);
    var life := Pair(Num(m.hops), Num(m.ttlMs));
    PairFits(Unsigned(W8), Num(m.hops), true, Unsigned(W32), Num(m.ttlMs), true);
    PairFits(Unsigned(W64), Num(m.publishTimeMs), true, Both(Unsigned(W8), Unsigned(W32)), life, true);
    PairFits(NODE_ID, Num(m.publisher), true, PUBLISHED.second, PublishedValue(m).snd, true);
  }

  lemma MetadataFits(m: ContentMetadata)
    ensures Fits(METADATA, MetadataValue(m), Printable(m))
  {
    hide Fits, PublishedValue, VecValue, TextValues;
    VecFits(m.origin);
    PublishedFits(m);
    TypesFit(m.types);
    TextFits(m.name);
    NumFits(W32, m.size);
    NumFits(W32, m.blockSize);
    var v := MetadataValue(m);
    var named := |m.name| <= MAX_TEXT;
    var typed := |m.types| <= MAX_ITEMS && forall i | 0 <= i < |m.types| :: |m.types[i]| <= MAX_TEXT;
    var f3 := Both(Many(Text), Both(Text, Both(VEC2D, PUBLISHED)));
    var v3 := Pair(Items(TextValues(m.types)), Pair(Bytes(m.name), Pair(VecValue(m.origin), PublishedValue(m))));
    PairFits(VEC2D, VecValue(m.origin), true, PUBLISHED, PublishedValue(m), true);
    PairFits(Text, Bytes(m.name), named, Both(VEC2D, PUBLISHED), v3.snd.snd, true);
    PairFits(Many(Text), Items(TextValues(m.types)), typed, f3.second, v3.snd, named);
    PairFits(Unsigned(W32), Num(m.blockSize), true, f3, v3, typed && named);
    PairFits(Unsigned(W32), Num(m.size), true, Both(Unsigned(W32), f3), Pair(Num(m.blockSize), v3), typed && named);
    HashFits(m.hash);
    PairFits(HASH, Bytes(m.hash), true, METADATA.second, v.snd, typed && named);
  }

  lemma HashFits(h: HashBytes)
    ensures Fits(HASH, Bytes(h), true)
  {
  }

  lemma MetadataApart(a: ContentMetadata, b: ContentMetadata)
    requires MetadataValue(a) == MetadataValue(b)
    ensures a == b
  {
    var s, t := TextValues(a.types), TextValues(b.types);
    assert s == t;
    assert forall i | 0 <= i < |s| :: Bytes(a.types[i]) == s[i] && Bytes(b.types[i]) == t[i];
    assert a.types == b.types;
  }

  /** A content announcement survives exactly when it holds at most 255 records, each with at
      most 255 types and no string over 32767 bytes. */
  lemma ContentAnnSurvives(a: ContentAnn, rest: seq<Byte>)
    ensures (Survives(CONTENT_ANN, ContentAnnValue(a), rest)
      <==> |a.metadata| <= 255 && forall i | 0 <= i < |a.metadata| :: Printable(a.metadata[i]))
    ensures forall b: ContentAnn | ContentAnnValue(b) == ContentAnnValue(a) :: b == a
  {
    hide MetadataValue, Printable, Fits, Survives;
    var items := ContentAnnValue(a).items;
    var fit := seq(|items|, i requires 0 <= i < |items| => Printable(a.metadata[i]));
    forall i | 0 <= i < |items|
      ensures Fits(METADATA, items[i], fit[i])
    {
      MetadataFits(a.metadata[i]);
    }
    ItemsFit(METADATA, items, fit);
    var fits := |items| <= MAX_ITEMS && forall i | 0 <= i < |fit| :: fit[i];
    SurvivesIfFits(CONTENT_ANN, ContentAnnValue(a), fits, rest);
    assert forall i | 0 <= i < |items| :: fit[i] <==> Printable(a.metadata[i]);
    forall b: ContentAnn | ContentAnnValue(b) == ContentAnnValue(a)
      ensures b == a
    {
      assert |b.metadata| == |ContentAnnValue(b).items| == |a.metadata|;
      forall i | 0 <= i < |b.metadata|
        ensures b.metadata[i] == a.metadata[i]
      {
        assert MetadataValue(b.metadata[i]) == ContentAnnValue(b).items[i] == items[i] == MetadataValue(a.metadata[i]);
        MetadataApart(b.metadata[i], a.metadata[i]);
      }
    }
  }

  lemma InterestFits(i: InterestRecord)
    ensures Fits(INTEREST, InterestValue(i), |i.kind| <= MAX_TEXT)
  {
    hide Fits;
    TextFits(i.kind);
    NumFits(W32, i.ttlMs);
    NumFits(W8, i.hops);
    PairFits(Unsigned(W32), Num(i.ttlMs), true, Unsigned(W8), Num(i.hops), true);
    PairFits(Text, Bytes(i.kind), |i.kind| <= MAX_TEXT, INTEREST.second, InterestValue(i).snd, true);
  }

  lemma BlobFits(w: Width, d: seq<Byte>)
    requires |d| < w.Limit()
    ensures Fits(Blob(w), Bytes(d), true)
  {
  }

  // ---- Lifetimes

  /** The pseudo-field of a content that expires at `expiry`, printed at `now`: the whole
      milliseconds left, in 32 bits. Clocks count nanoseconds. */
  function LifeOnWire(expiry: int, now: int): U32 {
    if now >= expiry then 0 else (expiry - now) / NANOS_IN_A_MILLI % MODULUS_32
  }

  /** The expiry time of a content read at `now`. */
  function LifeRead(ttlMs: U32, now: int): int { now + ttlMs * NANOS_IN_A_MILLI }

  /** The receiver grants the life that was left when the message was printed, to the
      millisecond, if and only if 32 bits of milliseconds hold it; so the deadline moves by
      the time under way. */
  lemma LifeIsKept(expiry: int, sent: int, heard: int)
    requires sent <= expiry
    ensures
      var left, granted := expiry - sent, LifeRead(LifeOnWire(expiry, sent), heard) - heard;
      0 <= left - granted < NANOS_IN_A_MILLI <==> left < MODULUS_32 * NANOS_IN_A_MILLI
    ensures expiry - sent < MODULUS_32 * NANOS_IN_A_MILLI && heard - sent >= NANOS_IN_A_MILLI ==>
      LifeRead(LifeOnWire(expiry, sent), heard) > expiry
  {
  }

  /** Block responses and interest announcements always survive. */
  lemma BulkDataSurvives(r: BlockResponse, a: InterestAnn, rest: seq<Byte>)
    ensures Survives(BLOCK_RESPONSE, ResponseValue(r), rest)
    ensures Survives(INTEREST_ANN, InterestAnnValue(a), rest)
  {
    hide Fits, Survives, RefValue;
    RefFits(r.block);
    BlobFits(W32, r.data);
    PairFits(BLOCK_REF, RefValue(r.block), true, Blob(W32), Bytes(r.data), true);
    SurvivesIfFits(BLOCK_RESPONSE, ResponseValue(r), true, rest);
    NumFits(W8, a.count);
    BlobFits(W16, a.data);
    PairFits(Unsigned(W8), Num(a.count), true, Blob(W16), Bytes(a.data), true);
    SurvivesIfFits(INTEREST_ANN, InterestAnnValue(a), true, rest);
  }

  /** A beacon is always read back as a response if it was none, and the other way round. */
  lemma BeaconComesBackInverted(b: Beacon, rest: seq<Byte>)
    ensures Encodable(BEACON, BeaconValue(b))
    ensures Decode(BEACON, Encode(BEACON, BeaconValue(b)) + rest) == Some((BeaconValue(b.(isResponse := !b.isResponse)), rest))
    ensures !Survives(BEACON, BeaconValue(b), rest)
  {
    hide Decode, Encode;
    assert Encodable(VEC2D, VecValue(b.position)) && Flip(VecValue(b.position)) == VecValue(b.position);
    ReadsBack(BEACON, BeaconValue(b), rest);
  }
}
