/** What the binary format writes and reads: a format for each type that can be put on the
    wire, the bytes it becomes, and the value that bytes are read back as. */
module WireFormat {
  import opened Wrappers

  type Byte = x: nat | x < 256

  datatype Width = W8 | W16 | W32 | W64 {
    function Bytes(): nat {
      match this
      case W8 => 1
      case W16 => 2
      case W32 => 4
      case W64 => 8
    }

    /** The first number that does not fit. */
    function Limit(): nat {
      match this
      case W8 => 0x100
      case W16 => 0x1_0000
      case W32 => 0x1_0000_0000
      case W64 => 0x1_0000_0000_0000_0000
    }

    predicate SignedRange(n: int) {
      0 <= 2 * n + Limit() && 2 * n < Limit()
    }
  }

  /** `Raw` is a fixed number of bytes, `Blob` a size field followed by that many bytes, and
      a record is its fields one after the other, joined by `Both`. */
  datatype Format =
    | Unsigned(width: Width)
    | Signed(width: Width)
    | Flag
    | Text
    | Raw(count: nat)
    | Blob(width: Width)
    | Many(elem: Format)
    | Both(first: Format, second: Format)

  datatype Value =
    | Num(n: int)
    | Bool(b: bool)
    | Bytes(bytes: seq<Byte>)
    | Items(items: seq<Value>)
    | Pair(fst: Value, snd: Value)

  const MAX_TEXT: nat := 32767
  const SHORT_TEXT: nat := 127
  const MAX_ITEMS: nat := 255

  /** The value is one of the type's values. */
  predicate HasFormat(f: Format, v: Value)
    decreases f
  {
    match f
    case Unsigned(w) => v.Num? && 0 <= v.n < w.Limit()
    case Signed(w) => v.Num? && w.SignedRange(v.n)
    case Flag => v.Bool?
    case Text => v.Bytes?
    case Raw(k) => v.Bytes? && |v.bytes| == k
    case Blob(w) => v.Bytes? && |v.bytes| < w.Limit()
    case Many(e) => v.Items? && forall i | 0 <= i < |v.items| :: HasFormat(e, v.items[i])
    case Both(a, b) => v.Pair? && HasFormat(a, v.fst) && HasFormat(b, v.snd)
  }

  /** The printer asserts these limits on strings and vectors. */
  predicate WithinLimits(f: Format, v: Value)
    requires HasFormat(f, v)
    decreases f
  {
    match f
    case Text => |v.bytes| <= MAX_TEXT
    case Many(e) => |v.items| <= MAX_ITEMS && forall i | 0 <= i < |v.items| :: WithinLimits(e, v.items[i])
    case Both(a, b) => WithinLimits(a, v.fst) && WithinLimits(b, v.snd)
    case _ => true
  }

  predicate Encodable(f: Format, v: Value) {
    HasFormat(f, v) && WithinLimits(f, v)
  }

  // ---- Numbers

  /** The `w` low bytes of a number, the highest first. */
  function BigEndian(t: nat, w: nat): (r: seq<Byte>)
    ensures |r| == w
  {
    if w == 0 then [] else BigEndian(t / 256, w - 1) + [t % 256]
  }

  function FromBytes(b: seq<Byte>): nat {
    if b == [] then 0 else 256 * FromBytes(b[..|b| - 1]) + b[|b| - 1]
  }

  function Power(w: nat): nat {
    if w == 0 then 1 else 256 * Power(w - 1)
  }

  lemma LimitIsPower(w: Width)
    ensures w.Limit() == Power(w.Bytes())
  {
    assert Power(2) == 0x1_0000;
    assert Power(4) == 256 * (256 * Power(2));
    assert Power(6) == 256 * (256 * Power(4));
    assert Power(8) == 256 * (256 * Power(6));
  }

  lemma {:induction false} BytesOfNumber(t: nat, w: nat)
    requires t < Power(w)
    ensures FromBytes(BigEndian(t, w)) == t
  {
    if w > 0 {
      BytesOfNumber(t / 256, w - 1);
      var r := BigEndian(t, w);
      assert r[..w - 1] == BigEndian(t / 256, w - 1);
    }
  }

  lemma {:induction false} NumberOfBytes(b: seq<Byte>)
    ensures FromBytes(b) < Power(|b|) && BigEndian(FromBytes(b), |b|) == b
  {
    if b != [] {
      var init, last := b[..|b| - 1], b[|b| - 1];
      NumberOfBytes(init);
      var n := FromBytes(init);
      assert (256 * n + last) / 256 == n && (256 * n + last) % 256 == last;
      assert b == init + [last];
    }
  }

  /** The conversions between a signed type and the unsigned type of the same width. */
  function ToUnsigned(n: int, w: Width): (t: nat)
    requires w.SignedRange(n)
    ensures t < w.Limit()
  {
    if n < 0 then n + w.Limit() else n
  }

  function FromUnsigned(t: nat, w: Width): int {
    if 2 * t >= w.Limit() then t - w.Limit() else t
  }

  // ---- Printing

  function TextHeader(size: nat): seq<Byte> {
    if size >= SHORT_TEXT then BigEndian(size + 0x8000, 2) else BigEndian(size, 1)
  }

  function Encode(f: Format, v: Value): (bytes: seq<Byte>)
    requires HasFormat(f, v)
    decreases f, 0
  {
    match f
    case Unsigned(w) => BigEndian(v.n, w.Bytes())
    case Signed(w) => BigEndian(ToUnsigned(v.n, w), w.Bytes())
    case Flag => [if v.b then 1 else 0]
    case Text => TextHeader(|v.bytes|) + v.bytes
    case Raw(_) => v.bytes
    case Blob(w) => BigEndian(|v.bytes|, w.Bytes()) + v.bytes
    case Many(e) => BigEndian(|v.items|, 1) + EncodeItems(e, v.items)
    case Both(a, b) => Encode(a, v.fst) + Encode(b, v.snd)
  }

  function EncodeItems(e: Format, vs: seq<Value>): seq<Byte>
    requires forall i | 0 <= i < |vs| :: HasFormat(e, vs[i])
    decreases e, |vs| + 1
  {
    if vs == [] then [] else Encode(e, vs[0]) + EncodeItems(e, vs[1..])
  }

  // ---- Parsing

  type Parsed<T> = Option<(T, seq<Byte>)>

  /** The next `n` bytes and what follows them, unless fewer are left. */
  function Take(n: nat, b: seq<Byte>): Parsed<seq<Byte>> {
    if |b| < n then None else Some((b[..n], b[n..]))
  }

  function TakeNumber(w: nat, b: seq<Byte>): Parsed<nat> {
    match Take(w, b)
    case None => None
    case Some(t) => Some((FromBytes(t.0), t.1))
  }

  /** A first byte with its high bit set is the high byte of a two-byte size. */
  function TakeTextSize(b: seq<Byte>): Parsed<nat> {
    if |b| == 0 then None
    else if b[0] < 0x80 then Some((b[0], b[1..]))
    else if |b| == 1 then None
    else
      var high: nat := b[0] - 0x80;
      Some((256 * high + b[1], b[2..]))
  }

  function TakeSized(size: Parsed<nat>): Parsed<Value> {
    match size
    case None => None
    case Some(s) =>
      match Take(s.0, s.1)
      case None => None
      case Some(t) => Some((Bytes(t.0), t.1))
  }

  function Decode(f: Format, b: seq<Byte>): Parsed<Value>
    decreases f, 0
  {
    match f
    case Unsigned(w) =>
      (match TakeNumber(w.Bytes(), b)
       case None => None
       case Some(t) => Some((Num(t.0), t.1)))
    case Signed(w) =>
      (match TakeNumber(w.Bytes(), b)
       case None => None
       case Some(t) => Some((Num(FromUnsigned(t.0, w)), t.1)))
    case Flag => if |b| == 0 then None else Some((Bool(b[0] != 1), b[1..]))
    case Text => TakeSized(TakeTextSize(b))
    case Raw(k) =>
      (match Take(k, b)
       case None => None
       case Some(t) => Some((Bytes(t.0), t.1)))
    case Blob(w) => TakeSized(TakeNumber(w.Bytes(), b))
    case Many(e) =>
      (match TakeNumber(1, b)
       case None => None
       case Some(t) =>
         match DecodeItems(e, t.0, t.1)
         case None => None
         case Some(r) => Some((Items(r.0), r.1)))
    case Both(x, y) =>
      match Decode(x, b)
      case None => None
      case Some(t) =>
        match Decode(y, t.1)
        case None => None
        case Some(r) => Some((Pair(t.0, r.0), r.1))
  }

  function DecodeItems(e: Format, n: nat, b: seq<Byte>): Parsed<seq<Value>>
    decreases e, n + 1
  {
    if n == 0 then Some(([], b)) else
    match Decode(e, b)
    case None => None
    case Some(t) =>
      match DecodeItems(e, n - 1, t.1)
      case None => None
      case Some(r) => Some(([t.0] + r.0, r.1))
  }

  // ---- What reading back does to a value

  /** The parser reads a boolean byte as true unless it is 1, so every flag is inverted. */
  function Flip(v: Value): (r: Value)
    ensures r.Items? == v.Items? && (v.Items? ==> |r.items| == |v.items|)
    decreases v
  {
    match v
    case Bool(b) => Bool(!b)
    case Items(vs) => Items(seq(|vs|, i requires 0 <= i < |vs| => Flip(vs[i])))
    case Pair(x, y) => Pair(Flip(x), Flip(y))
    case _ => v
  }

  predicate HasFlag(v: Value)
    decreases v
  {
    match v
    case Bool(_) => true
    case Items(vs) => exists i | 0 <= i < |vs| :: HasFlag(vs[i])
    case Pair(x, y) => HasFlag(x) || HasFlag(y)
    case _ => false
  }

  lemma {:induction false} FlipsFlags(v: Value)
    ensures Flip(v) == v <==> !HasFlag(v)
    decreases v
  {
    match v
    case Items(vs) =>
      forall i | 0 <= i < |vs|
        ensures Flip(vs[i]) == vs[i] <==> !HasFlag(vs[i])
      {
        FlipsFlags(vs[i]);
      }
      var flipped := Flip(v).items;
      assert forall i | 0 <= i < |vs| :: flipped[i] == Flip(vs[i]);
      if !HasFlag(v) {
        assert flipped == vs;
      }
    case Pair(x, y) =>
      FlipsFlags(x);
      FlipsFlags(y);
    case _ =>
  }

  lemma {:induction false} FlipTwice(v: Value)
    ensures Flip(Flip(v)) == v
    decreases v
  {
    match v
    case Items(vs) =>
      forall i | 0 <= i < |vs|
        ensures Flip(Flip(vs[i])) == vs[i]
      {
        FlipTwice(vs[i]);
      }
      assert Flip(Flip(v)).items == vs;
    case Pair(x, y) =>
      FlipTwice(x);
      FlipTwice(y);
    case _ =>
  }
}
