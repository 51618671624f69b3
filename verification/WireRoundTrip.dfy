/** Printer and parser undo each other, and exactly how far they do. */
module WireRoundTrip {
  import opened WireFormat
  import opened Wrappers

  // ---- What was printed is read back

  lemma TakePrefix(a: seq<Byte>, rest: seq<Byte>)
    ensures Take(|a|, a + rest) == Some((a, rest))
  {
    var b := a + rest;
    assert b[..|a|] == a && b[|a|..] == rest;
  }

  lemma NumberBack(t: nat, w: Width, rest: seq<Byte>)
    requires t < w.Limit()
    ensures TakeNumber(w.Bytes(), BigEndian(t, w.Bytes()) + rest) == Some((t, rest))
  {
    hide BigEndian, FromBytes;
    LimitIsPower(w);
    BytesOfNumber(t, w.Bytes());
    TakePrefix(BigEndian(t, w.Bytes()), rest);
  }

  lemma SignedBack(n: int, w: Width)
    requires w.SignedRange(n)
    ensures FromUnsigned(ToUnsigned(n, w), w) == n
  {
  }

  lemma TextSizeBack(size: nat, rest: seq<Byte>)
    requires size <= MAX_TEXT
    ensures TakeTextSize(TextHeader(size) + rest) == Some((size, rest))
  {
    var b := TextHeader(size) + rest;
    if size >= SHORT_TEXT {
      var t := size + 0x8000;
      assert BigEndian(t, 2) == [t / 256, t % 256] by {
        assert BigEndian(t / 256, 1) == BigEndian(t / 256 / 256, 0) + [t / 256 % 256];
      }
      assert b == [t / 256, t % 256] + rest;
      assert b[2..] == rest;
    } else {
      assert BigEndian(size, 1) == BigEndian(size / 256, 0) + [size % 256];
      assert b == [size] + rest;
      assert b[1..] == rest;
    }
  }

  lemma SizedBack(size: Parsed<nat>, bytes: seq<Byte>, rest: seq<Byte>)
    requires size == Some((|bytes|, bytes + rest))
    ensures TakeSized(size) == Some((Bytes(bytes), rest))
  {
    TakePrefix(bytes, rest);
  }

  ghost predicate AllEncodable(e: Format, vs: seq<Value>) {
    (forall i | 0 <= i < |vs| :: HasFormat(e, vs[i])) && (forall i | 0 <= i < |vs| :: WithinLimits(e, vs[i]))
  }

  lemma FlipCons(v: Value, vs: seq<Value>)
    ensures Flip(Items([v] + vs)).items == [Flip(v)] + Flip(Items(vs)).items
  {
  }

  lemma EncodeCons(e: Format, v: Value, vs: seq<Value>, rest: seq<Byte>)
    requires Encodable(e, v) && AllEncodable(e, vs)
    ensures AllEncodable(e, [v] + vs)
    ensures EncodeItems(e, [v] + vs) + rest == Encode(e, v) + (EncodeItems(e, vs) + rest)
  {
    hide Encode;
    assert ([v] + vs)[1..] == vs;
  }

  /** Reading an encoding followed by any other bytes gives the value with its flags
      inverted, and exactly those other bytes. */
  lemma {:induction false} ReadsBack(f: Format, v: Value, rest: seq<Byte>)
    requires Encodable(f, v)
    ensures Decode(f, Encode(f, v) + rest) == Some((Flip(v), rest))
    decreases f, 0
  {
    hide BigEndian, Take, TakeNumber, TakeSized, TakeTextSize, TextHeader;
    match f
    case Unsigned(w) =>
      NumberBack(v.n, w, rest);
    case Signed(w) =>
      NumberBack(ToUnsigned(v.n, w), w, rest);
      SignedBack(v.n, w);
    case Flag =>
      assert ([if v.b then 1 else 0] + rest)[1..] == rest;
    case Text =>
      assert TextHeader(|v.bytes|) + v.bytes + rest == TextHeader(|v.bytes|) + (v.bytes + rest);
      TextSizeBack(|v.bytes|, v.bytes + rest);
      SizedBack(TakeTextSize(Encode(f, v) + rest), v.bytes, rest);
    case Raw(k) =>
      TakePrefix(v.bytes, rest);
    case Blob(w) =>
      var size := BigEndian(|v.bytes|, w.Bytes());
      assert size + v.bytes + rest == size + (v.bytes + rest);
      NumberBack(|v.bytes|, w, v.bytes + rest);
      SizedBack(TakeNumber(w.Bytes(), Encode(f, v) + rest), v.bytes, rest);
    case Many(e) =>
      ManyBack(e, v.items, rest);
    case Both(a, b) =>
      var first, second := Encode(a, v.fst), Encode(b, v.snd);
      assert first + second + rest == first + (second + rest);
      ReadsBack(a, v.fst, second + rest);
      ReadsBack(b, v.snd, rest);
  }

  lemma {:induction false} ManyBack(e: Format, vs: seq<Value>, rest: seq<Byte>)
    requires Encodable(Many(e), Items(vs))
    ensures Decode(Many(e), Encode(Many(e), Items(vs)) + rest) == Some((Flip(Items(vs)), rest))
    decreases e, |vs| + 2
  {
    hide BigEndian, Take, TakeNumber, TakeSized, TakeTextSize, TextHeader;
    var size, body := BigEndian(|vs|, 1), EncodeItems(e, vs);
    assert size + body + rest == size + (body + rest);
    NumberBack(|vs|, W8, body + rest);
    ItemsBack(e, vs, rest);
  }

  lemma {:induction false} ItemsBack(e: Format, vs: seq<Value>, rest: seq<Byte>)
    requires AllEncodable(e, vs)
    ensures DecodeItems(e, |vs|, EncodeItems(e, vs) + rest) == Some((Flip(Items(vs)).items, rest))
    decreases e, |vs| + 1
  {
    hide Encode, Decode, Flip;
    if vs == [] {
      assert EncodeItems(e, vs) + rest == rest;
    } else {
      var head, tail := Encode(e, vs[0]), EncodeItems(e, vs[1..]);
      assert head + tail + rest == head + (tail + rest);
      ReadsBack(e, vs[0], tail + rest);
      ItemsBack(e, vs[1..], rest);
      assert [vs[0]] + vs[1..] == vs;
      FlipCons(vs[0], vs[1..]);
    }
  }

  /** The round trip returns the very value that was written exactly when it holds no
      boolean. */
  lemma RoundTrip(f: Format, v: Value, rest: seq<Byte>)
    requires Encodable(f, v)
    ensures Decode(f, Encode(f, v) + rest) == Some((v, rest)) <==> !HasFlag(v)
  {
    hide Decode, Encode, Flip, HasFlag;
    ReadsBack(f, v, rest);
    FlipsFlags(v);
  }

  /** One stream of bytes is the encoding of at most one value. */
  lemma Unambiguous(f: Format, v: Value, rest: seq<Byte>, v': Value, rest': seq<Byte>)
    requires Encodable(f, v) && Encodable(f, v') && Encode(f, v) + rest == Encode(f, v') + rest'
    ensures v == v' && rest == rest'
  {
    hide Decode, Encode, Flip;
    ReadsBack(f, v, rest);
    ReadsBack(f, v', rest');
    FlipTwice(v);
    FlipTwice(v');
  }

  // ---- Truncated input

  ghost predicate Extends<T>(p: Parsed<T>, q: Parsed<T>, more: seq<Byte>) {
    p.Some? ==> q == Some((p.value.0, p.value.1 + more))
  }

  lemma TakeExtends(n: nat, b: seq<Byte>, more: seq<Byte>)
    ensures Extends(Take(n, b), Take(n, b + more), more)
    ensures Extends(TakeNumber(n, b), TakeNumber(n, b + more), more)
  {
    if n <= |b| {
      assert (b + more)[..n] == b[..n] && (b + more)[n..] == b[n..] + more;
    }
  }

  lemma TextSizeExtends(b: seq<Byte>, more: seq<Byte>)
    ensures Extends(TakeTextSize(b), TakeTextSize(b + more), more)
  {
    if |b| > 0 {
      assert (b + more)[1..] == b[1..] + more;
      if |b| > 1 {
        assert (b + more)[2..] == b[2..] + more;
      }
    }
  }

  lemma SizedExtends(p: Parsed<nat>, q: Parsed<nat>, more: seq<Byte>)
    requires Extends(p, q, more)
    ensures Extends(TakeSized(p), TakeSized(q), more)
  {
    if p.Some? {
      TakeExtends(p.value.0, p.value.1, more);
    }
  }

  /** What is read does not depend on the bytes after it. */
  lemma {:induction false} DecodeExtends(f: Format, b: seq<Byte>, more: seq<Byte>)
    ensures Extends(Decode(f, b), Decode(f, b + more), more)
    decreases f, 0
  {
    hide Take, TakeNumber, TakeSized, TakeTextSize;
    match f
    case Unsigned(w) =>
      TakeExtends(w.Bytes(), b, more);
    case Signed(w) =>
      TakeExtends(w.Bytes(), b, more);
    case Flag =>
      if |b| > 0 {
        assert (b + more)[1..] == b[1..] + more;
      }
    case Text =>
      TextSizeExtends(b, more);
      SizedExtends(TakeTextSize(b), TakeTextSize(b + more), more);
    case Raw(k) =>
      TakeExtends(k, b, more);
    case Blob(w) =>
      TakeExtends(w.Bytes(), b, more);
      SizedExtends(TakeNumber(w.Bytes(), b), TakeNumber(w.Bytes(), b + more), more);
    case Many(e) =>
      TakeExtends(1, b, more);
      var t := TakeNumber(1, b);
      if t.Some? {
        ItemsExtend(e, t.value.0, t.value.1, more);
      }
    case Both(x, y) =>
      DecodeExtends(x, b, more);
      var t := Decode(x, b);
      if t.Some? {
        DecodeExtends(y, t.value.1, more);
      }
  }

  lemma {:induction false} ItemsExtend(e: Format, n: nat, b: seq<Byte>, more: seq<Byte>)
    ensures Extends(DecodeItems(e, n, b), DecodeItems(e, n, b + more), more)
    decreases e, n + 1
  {
    hide Decode;
    if n > 0 {
      DecodeExtends(e, b, more);
      var t := Decode(e, b);
      if t.Some? {
        ItemsExtend(e, n - 1, t.value.1, more);
      }
    }
  }

  /** An encoding cut short is never read as a value. */
  lemma TruncatedFails(f: Format, v: Value, n: nat)
    requires Encodable(f, v) && n < |Encode(f, v)|
    ensures Decode(f, Encode(f, v)[..n]) == None
  {
    hide Decode, Encode, Flip;
    var bytes := Encode(f, v);
    assert bytes[..n] + bytes[n..] == bytes && bytes + [] == bytes;
    DecodeExtends(f, bytes[..n], bytes[n..]);
    ReadsBack(f, v, []);
  }

  // ---- What was read is printed back

  /** The bytes read are the ones the printer would choose: each string has the header
      that its size gets, and each flag is 0 or 1. */
  predicate Plain(f: Format, b: seq<Byte>)
    requires Decode(f, b).Some?
    decreases f, 0
  {
    match f
    case Flag => b[0] <= 1
    case Text => b[0] < SHORT_TEXT || (b[0] >= 0x80 && TakeTextSize(b).value.0 >= SHORT_TEXT)
    case Many(e) => PlainItems(e, TakeNumber(1, b).value.0, TakeNumber(1, b).value.1)
    case Both(x, y) => Plain(x, b) && Plain(y, Decode(x, b).value.1)
    case _ => true
  }

  predicate PlainItems(e: Format, n: nat, b: seq<Byte>)
    requires DecodeItems(e, n, b).Some?
    decreases e, n + 1
  {
    n == 0 || (Plain(e, b) && PlainItems(e, n - 1, Decode(e, b).value.1))
  }

  lemma NumberRead(w: Width, b: seq<Byte>)
    requires TakeNumber(w.Bytes(), b).Some?
    ensures
      var t := TakeNumber(w.Bytes(), b).value;
      t.0 < w.Limit() && BigEndian(t.0, w.Bytes()) + t.1 == b
  {
    hide BigEndian, FromBytes;
    var k := w.Bytes();
    LimitIsPower(w);
    NumberOfBytes(b[..k]);
    assert b[..k] + b[k..] == b;
  }

  lemma SignedRead(t: nat, w: Width)
    requires t < w.Limit()
    ensures w.SignedRange(FromUnsigned(t, w)) && ToUnsigned(FromUnsigned(t, w), w) == t
  {
  }

  lemma TextSizeRead(b: seq<Byte>)
    requires TakeTextSize(b).Some?
    ensures
      var t := TakeTextSize(b).value;
      && t.0 <= MAX_TEXT
      && ((b[0] < SHORT_TEXT || (b[0] >= 0x80 && t.0 >= SHORT_TEXT)) ==> TextHeader(t.0) + t.1 == b)
  {
    var t := TakeTextSize(b).value;
    if b[0] >= 0x80 && t.0 >= SHORT_TEXT {
      var n := t.0 + 0x8000;
      assert n / 256 == b[0] && n % 256 == b[1];
      assert BigEndian(n / 256, 1) == BigEndian(n / 256 / 256, 0) + [n / 256 % 256];
      assert BigEndian(n, 2) == [b[0], b[1]];
      assert [b[0], b[1]] + b[2..] == b;
    } else if b[0] < SHORT_TEXT {
      assert BigEndian(t.0, 1) == BigEndian(t.0 / 256, 0) + [t.0 % 256];
      assert [b[0]] + b[1..] == b;
    }
  }

  lemma SizedRead(p: Parsed<nat>, header: seq<Byte>, b: seq<Byte>)
    requires TakeSized(p).Some? && header + p.value.1 == b
    ensures TakeSized(p).value.0.Bytes?
    ensures
      var t := TakeSized(p).value;
      |t.0.bytes| == p.value.0 && header + t.0.bytes + t.1 == b
  {
    var s := p.value;
    assert s.1[..s.0] + s.1[s.0..] == s.1;
    assert header + s.1[..s.0] + s.1[s.0..] == header + s.1;
  }

  /** Whatever the parser accepts, with its flags inverted back, is a value the printer
      accepts, and printing that gives the same bytes if they were the printer's own choice. */
  lemma {:induction false} PlainIsReprinted(f: Format, b: seq<Byte>)
    requires Decode(f, b).Some?
    ensures Reprinted(f, b)
    decreases f, 0
  {
    hide BigEndian, Take, TakeNumber, TakeSized, TakeTextSize, TextHeader, FromUnsigned, ToUnsigned;
    match f
    case Unsigned(w) =>
      NumberRead(w, b);
    case Signed(w) =>
      NumberRead(w, b);
      SignedRead(TakeNumber(w.Bytes(), b).value.0, w);
    case Flag =>
      assert [b[0]] + b[1..] == b;
    case Text =>
      TextRead(b);
    case Raw(k) =>
      RawRead(k, b);
    case Blob(w) =>
      BlobRead(w, b);
    case Many(e) =>
      var t := TakeNumber(1, b).value;
      ItemsReprinted(e, t.0, t.1);
      ManyRead(e, b);
    case Both(x, y) =>
      PlainIsReprinted(x, b);
      PlainIsReprinted(y, Decode(x, b).value.1);
      BothRead(x, y, b);
  }

  ghost predicate Reprinted(f: Format, b: seq<Byte>)
    requires Decode(f, b).Some?
  {
    var t := Decode(f, b).value;
    Encodable(f, Flip(t.0)) && (Plain(f, b) ==> Encode(f, Flip(t.0)) + t.1 == b)
  }

  ghost predicate AllReprinted(e: Format, n: nat, b: seq<Byte>)
    requires DecodeItems(e, n, b).Some?
  {
    var t := DecodeItems(e, n, b).value;
    var flipped := Flip(Items(t.0)).items;
    |t.0| == n && AllEncodable(e, flipped) && (PlainItems(e, n, b) ==> EncodeItems(e, flipped) + t.1 == b)
  }

  lemma BothRead(x: Format, y: Format, b: seq<Byte>)
    requires Decode(Both(x, y), b).Some? && Reprinted(x, b) && Reprinted(y, Decode(x, b).value.1)
    ensures Reprinted(Both(x, y), b)
  {
    hide BigEndian, Take, TakeNumber, TakeSized, TakeTextSize, TextHeader, FromUnsigned, ToUnsigned, EncodeItems, DecodeItems, PlainItems;
    var t := Decode(x, b).value;
    var r := Decode(y, t.1).value;
    var first, second := Encode(x, Flip(t.0)), Encode(y, Flip(r.0));
    assert first + second + r.1 == first + (second + r.1);
  }

  lemma ManyRead(e: Format, b: seq<Byte>)
    requires Decode(Many(e), b).Some? && AllReprinted(e, TakeNumber(1, b).value.0, TakeNumber(1, b).value.1)
    ensures Reprinted(Many(e), b)
  {
    hide BigEndian, TakeNumber, Flip;
    NumberRead(W8, b);
    var t := TakeNumber(1, b).value;
    var r := DecodeItems(e, t.0, t.1).value;
    FlipsItems(r.0);
    var body := EncodeItems(e, Flip(Items(r.0)).items);
    assert BigEndian(t.0, 1) + body + r.1 == BigEndian(t.0, 1) + (body + r.1);
  }

  lemma FlipsItems(vs: seq<Value>)
    ensures Flip(Items(vs)) == Items(Flip(Items(vs)).items)
  {
  }

  lemma TextRead(b: seq<Byte>)
    requires Decode(Text, b).Some?
    ensures
      var t := Decode(Text, b).value;
      Encodable(Text, t.0) && Flip(t.0) == t.0 && (Plain(Text, b) ==> Encode(Text, t.0) + t.1 == b)
  {
    hide TextHeader;
    TextSizeRead(b);
    if Plain(Text, b) {
      SizedRead(TakeTextSize(b), TextHeader(TakeTextSize(b).value.0), b);
    }
  }

  lemma RawRead(k: nat, b: seq<Byte>)
    requires Decode(Raw(k), b).Some?
    ensures
      var t := Decode(Raw(k), b).value;
      Encodable(Raw(k), t.0) && Flip(t.0) == t.0 && Encode(Raw(k), t.0) + t.1 == b
  {
    assert b[..k] + b[k..] == b;
  }

  lemma BlobRead(w: Width, b: seq<Byte>)
    requires Decode(Blob(w), b).Some?
    ensures
      var t := Decode(Blob(w), b).value;
      Encodable(Blob(w), t.0) && Flip(t.0) == t.0 && Encode(Blob(w), t.0) + t.1 == b
  {
    hide BigEndian, TakeNumber;
    NumberRead(w, b);
    var p := TakeNumber(w.Bytes(), b);
    SizedRead(p, BigEndian(p.value.0, w.Bytes()), b);
  }

  lemma {:induction false} ItemsReprinted(e: Format, n: nat, b: seq<Byte>)
    requires DecodeItems(e, n, b).Some?
    ensures AllReprinted(e, n, b)
    decreases e, n + 1
  {
    hide Encode, Decode, Plain, Flip, AllEncodable;
    if n > 0 {
      PlainIsReprinted(e, b);
      var t := Decode(e, b).value;
      ItemsReprinted(e, n - 1, t.1);
      var r := DecodeItems(e, n - 1, t.1).value;
      FlipCons(t.0, r.0);
      EncodeCons(e, Flip(t.0), Flip(Items(r.0)).items, r.1);
    } else {
      NoItems(e);
    }
  }

  lemma NoItems(e: Format)
    ensures Flip(Items([])).items == [] && AllEncodable(e, [])
  {
  }

  // ---- Printed bytes are plain

  lemma TextIsPlain(size: nat, rest: seq<Byte>)
    requires size <= MAX_TEXT
    ensures
      var b := TextHeader(size) + rest;
      b[0] < SHORT_TEXT || (b[0] >= 0x80 && size >= SHORT_TEXT)
  {
    if size >= SHORT_TEXT {
      var t := size + 0x8000;
      assert BigEndian(t / 256, 1) == BigEndian(t / 256 / 256, 0) + [t / 256 % 256];
      assert BigEndian(t, 2)[0] == t / 256;
    }
  }

  lemma {:induction false} PrintedIsPlain(f: Format, v: Value, rest: seq<Byte>)
    requires Encodable(f, v)
    ensures Decode(f, Encode(f, v) + rest) == Some((Flip(v), rest)) && Plain(f, Encode(f, v) + rest)
    decreases f, 0
  {
    hide BigEndian, Take, TakeNumber, TakeSized, TakeTextSize, TextHeader, Decode;
    ReadsBack(f, v, rest);
    match f
    case Text =>
      assert TextHeader(|v.bytes|) + v.bytes + rest == TextHeader(|v.bytes|) + (v.bytes + rest);
      TextSizeBack(|v.bytes|, v.bytes + rest);
      TextIsPlain(|v.bytes|, v.bytes + rest);
    case Many(e) =>
      var size, body := BigEndian(|v.items|, 1), EncodeItems(e, v.items);
      assert size + body + rest == size + (body + rest);
      NumberBack(|v.items|, W8, body + rest);
      PrintedItemsPlain(e, v.items, rest);
    case Both(x, y) =>
      var first, second := Encode(x, v.fst), Encode(y, v.snd);
      assert first + second + rest == first + (second + rest);
      PrintedIsPlain(x, v.fst, second + rest);
      PrintedIsPlain(y, v.snd, rest);
    case _ =>
  }

  lemma {:induction false} PrintedItemsPlain(e: Format, vs: seq<Value>, rest: seq<Byte>)
    requires AllEncodable(e, vs)
    ensures DecodeItems(e, |vs|, EncodeItems(e, vs) + rest).Some? && PlainItems(e, |vs|, EncodeItems(e, vs) + rest)
    decreases e, |vs| + 1
  {
    hide Encode, Decode, Flip, Plain;
    ItemsBack(e, vs, rest);
    if vs != [] {
      var head, tail := Encode(e, vs[0]), EncodeItems(e, vs[1..]);
      assert head + tail + rest == head + (tail + rest);
      PrintedIsPlain(e, vs[0], tail + rest);
      PrintedItemsPlain(e, vs[1..], rest);
    }
  }

  /** The value whose flags are inverted back is printed as the bytes that were parsed exactly
      when every string header and every flag among them is the one the printer chooses. */
  lemma InvertedReprint(f: Format, b: seq<Byte>)
    requires Decode(f, b).Some?
    ensures
      var (v, rest) := Decode(f, b).value;
      Encodable(f, Flip(v)) && (Encode(f, Flip(v)) + rest == b <==> Plain(f, b))
  {
    hide Decode, Encode, Plain, Flip;
    PlainIsReprinted(f, b);
    var (v, rest) := Decode(f, b).value;
    PrintedIsPlain(f, Flip(v), rest);
  }

  /** Inverting flags changes neither the type of a value nor its sizes. */
  lemma {:induction false} FlipKeepsFormat(f: Format, v: Value)
    requires Encodable(f, Flip(v))
    ensures Encodable(f, v)
    decreases f
  {
    match f
    case Many(e) =>
      var flipped := Flip(v).items;
      forall i | 0 <= i < |v.items|
        ensures Encodable(e, v.items[i])
      {
        assert flipped[i] == Flip(v.items[i]);
        FlipKeepsFormat(e, v.items[i]);
      }
    case Both(x, y) =>
      FlipKeepsFormat(x, v.fst);
      FlipKeepsFormat(y, v.snd);
    case _ =>
  }

  /** Printing the value that was parsed gives back the same bytes exactly when it holds no
      boolean and every string header among them is the one the printer chooses. */
  lemma Reprint(f: Format, b: seq<Byte>)
    requires Decode(f, b).Some?
    ensures
      var (v, rest) := Decode(f, b).value;
      Encodable(f, v) && (Encode(f, v) + rest == b <==> Plain(f, b) && !HasFlag(v))
  {
    hide Decode, Encode, Plain, Flip, HasFlag, Encodable;
    var (v, rest) := Decode(f, b).value;
    InvertedReprint(f, b);
    FlipKeepsFormat(f, v);
    FlipsFlags(v);
    if HasFlag(v) {
      ReadsBack(f, v, rest);
    }
  }
}
