/** The printer and the parser of binaryoutput.cpp and binaryinput.cpp. A failed assertion
    of the source stops the program there; here it is the result `ok == false` or `None`. */
module WireStreams {
  import opened WireFormat
  import opened Wrappers
  import WireRoundTrip

  // ---- Shifts, as the source writes them

  lemma TwoBytes(t: nat)
    requires t < 0x1_0000
    ensures BigEndian(t, 2) == [t / 0x100 % 256, t % 256]
  {
    assert BigEndian(t / 256, 1) == BigEndian(t / 256 / 256, 0) + [t / 256 % 256];
  }

  lemma {:induction false} ShiftTwo(t: nat, w: nat)
    ensures BigEndian(t, w + 2) == BigEndian(t / 0x1_0000, w) + [t / 0x100 % 256, t % 256]
  {
    assert BigEndian(t, w + 2) == BigEndian(t / 256, w + 1) + [t % 256];
    assert BigEndian(t / 256, w + 1) == BigEndian(t / 256 / 256, w) + [t / 256 % 256];
    assert t / 256 / 256 == t / 0x1_0000;
  }

  lemma FourBytes(t: nat)
    ensures BigEndian(t, 4) == [t / 0x100_0000 % 256, t / 0x1_0000 % 256, t / 0x100 % 256, t % 256]
  {
    var u := t / 0x1_0000;
    ShiftTwo(t, 2);
    ShiftTwo(u, 0);
    assert u / 0x100 == t / 0x100_0000;
  }

  lemma EightBytes(t: nat)
    ensures BigEndian(t, 8) ==
      [t / 0x100_0000_0000_0000 % 256, t / 0x1_0000_0000_0000 % 256, t / 0x100_0000_0000 % 256, t / 0x1_0000_0000 % 256,
       t / 0x100_0000 % 256, t / 0x1_0000 % 256, t / 0x100 % 256, t % 256]
  {
    hide BigEndian;
    var u := t / 0x1_0000;
    var s := u / 0x1_0000;
    ShiftTwo(t, 6);
    ShiftTwo(u, 4);
    FourBytes(s);
    assert u / 0x100 == t / 0x100_0000;
    assert s == t / 0x1_0000_0000;
    assert s / 0x100 == t / 0x100_0000_0000;
    assert s / 0x1_0000 == t / 0x1_0000_0000_0000;
    assert s / 0x100_0000 == t / 0x100_0000_0000_0000;
  }

  /** Shifting bytes apart and joining them bit by bit adds them up, because no two of them
      share a bit. */
  function Join2(a: nat, b: nat): nat { 0x100 * a + b }

  function Join4(a: nat, b: nat, c: nat, d: nat): nat { 0x100_0000 * a + 0x1_0000 * b + 0x100 * c + d }

  function Join8(a: nat, b: nat, c: nat, d: nat, e: nat, f: nat, g: nat, h: nat): nat {
    0x100_0000_0000_0000 * a + 0x1_0000_0000_0000 * b + 0x100_0000_0000 * c + 0x1_0000_0000 * d
    + 0x100_0000 * e + 0x1_0000 * f + 0x100 * g + h
  }

  lemma JoinTwo(b: seq<Byte>)
    requires |b| >= 2
    ensures FromBytes(b) == 0x1_0000 * FromBytes(b[..|b| - 2]) + Join2(b[|b| - 2], b[|b| - 1])
  {
    var init := b[..|b| - 1];
    assert init[..|init| - 1] == b[..|b| - 2];
    assert FromBytes(init) == 256 * FromBytes(init[..|init| - 1]) + init[|init| - 1];
  }

  lemma NoBytes(b: seq<Byte>)
    requires |b| == 0
    ensures FromBytes(b) == 0
  {
  }

  lemma JoinOne(b: seq<Byte>)
    requires |b| == 1
    ensures FromBytes(b) == b[0]
  {
    NoBytes(b[..0]);
  }

  lemma JoinFour(b: seq<Byte>)
    requires |b| == 4
    ensures FromBytes(b) == Join4(b[0], b[1], b[2], b[3])
  {
    hide FromBytes;
    JoinTwo(b);
    var c := b[..2];
    JoinTwo(c);
    NoBytes(c[..0]);
  }

  lemma JoinEight(b: seq<Byte>)
    requires |b| == 8
    ensures FromBytes(b) == Join8(b[0], b[1], b[2], b[3], b[4], b[5], b[6], b[7])
  {
    hide FromBytes;
    JoinTwo(b);
    var c := b[..6];
    JoinTwo(c);
    var d := c[..4];
    JoinFour(d);
    assert c[4] == b[4] && c[5] == b[5] && d[0] == b[0] && d[1] == b[1] && d[2] == b[2] && d[3] == b[3];
    assert c[..|c| - 2] == d && b[..|b| - 2] == c;
  }

  // ---- Printing

  lemma EncodeNext(e: Format, vs: seq<Value>, i: nat)
    requires i < |vs| && forall j | 0 <= j < |vs| :: HasFormat(e, vs[j])
    ensures EncodeItems(e, vs[i..]) == Encode(e, vs[i]) + EncodeItems(e, vs[i + 1..])
  {
    hide Encode, HasFormat;
    assert vs[i..][1..] == vs[i + 1..];
  }

  lemma RestFits(out: seq<Byte>, next: seq<Byte>, rest: seq<Byte>, all: seq<Byte>)
    requires out + (next + rest) == all
    ensures (out + next) + rest == all && |out| + |next| <= |all|
  {
  }

  ghost predicate AllWithin(e: Format, vs: seq<Value>)
    requires forall i | 0 <= i < |vs| :: HasFormat(e, vs[i])
  {
    forall i | 0 <= i < |vs| :: WithinLimits(e, vs[i])
  }

  /** The size of a text in one byte below 127, and from there on in two, the first of which
      starts with a 1. */
  lemma HeaderIs(size: nat)
    requires size <= 32767
    ensures TextHeader(size) == if size < 127 then [size] else [128 + size / 256, size % 256]
  {
    if size < 127 {
      assert BigEndian(size, 1) == BigEndian(size / 256, 0) + [size % 256];
    } else {
      TwoBytes(size + 0x8000);
      assert (size + 0x8000) / 256 == 128 + size / 256;
    }
  }

  lemma Appended(a: seq<Byte>, b: seq<Byte>, c: seq<Byte>)
    ensures a + b + c == a + (b + c) && a <= a + b && a <= a + (b + c)
  {
  }

  class BinaryOutput {
    const buffer: array<Byte>
    var cur: nat

    ghost predicate Valid()
      reads this
    {
      cur <= buffer.Length
    }

    /** The bytes written so far. */
    ghost function Contents(): seq<Byte>
      requires Valid()
      reads this, buffer
    {
      buffer[..cur]
    }

    constructor (buffer: array<Byte>)
      ensures Valid() && this.buffer == buffer && Contents() == []
    {
      this.buffer, cur := buffer, 0;
    }

    function Remaining(): nat
      requires Valid()
      reads this
    {
      buffer.Length - cur
    }

    method Write(bytes: seq<Byte>) returns (ok: bool)
      requires Valid()
      modifies this, buffer
      ensures Valid() && (ok <==> |bytes| <= old(Remaining()))
      ensures Contents() == if ok then old(Contents()) + bytes else old(Contents())
      ensures buffer[cur..] == old(buffer[..])[cur..]
    {
      if |bytes| > Remaining() {
        return false;
      }
      forall i | 0 <= i < |bytes| {
        buffer[cur + i] := bytes[i];
      }
      cur := cur + |bytes|;
      return true;
    }

    method PutU8(t: nat) returns (ok: bool)
      requires Valid() && t < 0x100
      modifies this, buffer
      ensures Valid() && (ok <==> 1 <= old(Remaining()))
      ensures Contents() == if ok then old(Contents()) + BigEndian(t, 1) else old(Contents())
    {
      assert BigEndian(t, 1) == BigEndian(t / 256, 0) + [t % 256];
      ok := Write([t]);
    }

    method PutU16(t: nat) returns (ok: bool)
      requires Valid() && t < 0x1_0000
      modifies this, buffer
      ensures Valid() && (ok <==> 2 <= old(Remaining()))
      ensures Contents() == if ok then old(Contents()) + BigEndian(t, 2) else old(Contents())
    {
      TwoBytes(t);
      ok := Write([t / 0x100 % 256, t % 256]);
    }

    method PutU32(t: nat) returns (ok: bool)
      requires Valid() && t < 0x1_0000_0000
      modifies this, buffer
      ensures Valid() && (ok <==> 4 <= old(Remaining()))
      ensures Contents() == if ok then old(Contents()) + BigEndian(t, 4) else old(Contents())
    {
      hide BigEndian;
      FourBytes(t);
      ok := Write([t / 0x100_0000 % 256, t / 0x1_0000 % 256, t / 0x100 % 256, t % 256]);
    }

    method PutU64(t: nat) returns (ok: bool)
      requires Valid() && t < 0x1_0000_0000_0000_0000
      modifies this, buffer
      ensures Valid() && (ok <==> 8 <= old(Remaining()))
      ensures Contents() == if ok then old(Contents()) + BigEndian(t, 8) else old(Contents())
    {
      hide BigEndian;
      EightBytes(t);
      ok := Write([t / 0x100_0000_0000_0000 % 256, t / 0x1_0000_0000_0000 % 256, t / 0x100_0000_0000 % 256,
                   t / 0x1_0000_0000 % 256, t / 0x100_0000 % 256, t / 0x1_0000 % 256, t / 0x100 % 256, t % 256]);
    }

    method PutUnsigned(w: Width, t: nat) returns (ok: bool)
      requires Valid() && t < w.Limit()
      modifies this, buffer
      ensures Valid() && (ok <==> w.Bytes() <= old(Remaining()))
      ensures Contents() == if ok then old(Contents()) + BigEndian(t, w.Bytes()) else old(Contents())
    {
      hide BigEndian;
      match w
      case W8 => ok := PutU8(t);
      case W16 => ok := PutU16(t);
      case W32 => ok := PutU32(t);
      case W64 => ok := PutU64(t);
    }

    method PutText(s: seq<Byte>) returns (ok: bool)
      requires Valid()
      modifies this, buffer
      ensures Valid() && (ok <==> |s| <= MAX_TEXT && |TextHeader(|s|) + s| <= old(Remaining()))
      ensures old(Contents()) <= Contents()
      ensures ok ==> Contents() == old(Contents()) + (TextHeader(|s|) + s)
      ensures ok <==> |s| <= 32767 && |s| + (if |s| < 127 then 1 else 2) <= old(Remaining())
      ensures ok ==> Contents() == old(Contents()) + ((if |s| < 127 then [|s|] else [128 + |s| / 256, |s| % 256]) + s)
    {
      if |s| <= 32767 {
        HeaderIs(|s|);
      }
      hide BigEndian;
      if |s| > MAX_TEXT {
        return false;
      }
      Appended(Contents(), TextHeader(|s|), s);
      if |s| >= SHORT_TEXT {
        ok := PutU16(|s| + 0x8000);
      } else {
        ok := PutU8(|s|);
      }
      if ok {
        ok := Write(s);
      }
    }

    method PutBlob(w: Width, s: seq<Byte>) returns (ok: bool)
      requires Valid() && |s| < w.Limit()
      modifies this, buffer
      ensures Valid() && (ok <==> w.Bytes() + |s| <= old(Remaining()))
      ensures old(Contents()) <= Contents()
      ensures ok ==> Contents() == old(Contents()) + (BigEndian(|s|, w.Bytes()) + s)
    {
      hide BigEndian, Width.Limit, Width.Bytes;
      Appended(Contents(), BigEndian(|s|, w.Bytes()), s);
      ok := PutUnsigned(w, |s|);
      if ok {
        ok := Write(s);
      }
    }

    method PutLeaf(f: Format, v: Value) returns (ok: bool)
      requires Valid() && HasFormat(f, v) && !f.Many? && !f.Both?
      modifies this, buffer
      ensures Valid() && (ok <==> WithinLimits(f, v) && |Encode(f, v)| <= old(Remaining()))
      ensures old(Contents()) <= Contents()
      ensures ok ==> Contents() == old(Contents()) + Encode(f, v)
    {
      hide BigEndian, TextHeader;
      match f
      case Unsigned(w) =>
        ok := PutUnsigned(w, v.n);
      case Signed(w) =>
        ok := PutUnsigned(w, ToUnsigned(v.n, w));
      case Flag =>
        ok := Write([if v.b then 1 else 0]);
      case Text =>
        ok := PutText(v.bytes);
      case Raw(_) =>
        ok := Write(v.bytes);
      case Blob(w) =>
        ok := PutBlob(w, v.bytes);
    }

    /** The insertion operator for every type: it stops the program exactly when the value
        is over a limit or its encoding does not fit, and otherwise appends the encoding. */
    method Put(f: Format, v: Value) returns (ok: bool)
      requires Valid() && HasFormat(f, v)
      modifies this, buffer
      ensures Valid() && (ok <==> WithinLimits(f, v) && |Encode(f, v)| <= old(Remaining()))
      ensures old(Contents()) <= Contents()
      ensures ok ==> Contents() == old(Contents()) + Encode(f, v)
      decreases f, 1
    {
      if f.Many? {
        ok := PutVector(f.elem, v.items);
      } else if f.Both? {
        ok := PutBoth(f, f.first, f.second, v.fst, v.snd);
      } else {
        hide Encode, WithinLimits, HasFormat;
        ok := PutLeaf(f, v);
      }
    }

    method PutBoth(ghost f: Format, a: Format, b: Format, x: Value, y: Value) returns (ok: bool)
      requires Valid() && f == Both(a, b) && HasFormat(a, x) && HasFormat(b, y)
      modifies this, buffer
      ensures Valid() && (ok <==> WithinLimits(a, x) && WithinLimits(b, y) && |Encode(a, x) + Encode(b, y)| <= old(Remaining()))
      ensures old(Contents()) <= Contents()
      ensures ok ==> Contents() == old(Contents()) + (Encode(a, x) + Encode(b, y))
      decreases f, 0
    {
      hide Encode, WithinLimits, HasFormat;
      ok := Put(a, x);
      if ok {
        ok := Put(b, y);
      }
    }

    method PutVector(e: Format, vs: seq<Value>) returns (ok: bool)
      requires Valid() && forall i | 0 <= i < |vs| :: HasFormat(e, vs[i])
      modifies this, buffer
      ensures Valid()
      ensures ok <==> |vs| <= MAX_ITEMS && AllWithin(e, vs) && |BigEndian(|vs|, 1) + EncodeItems(e, vs)| <= old(Remaining())
      ensures old(Contents()) <= Contents()
      ensures ok ==> Contents() == old(Contents()) + (BigEndian(|vs|, 1) + EncodeItems(e, vs))
      decreases e, 3
    {
      hide Encode, EncodeItems, WithinLimits, HasFormat, AllWithin, BigEndian;
      if |vs| > MAX_ITEMS {
        return false;
      }
      ok := PutU8(|vs|);
      if ok {
        ok := PutItems(e, vs);
      }
    }

    /** The loop over the elements. */
    method PutItems(e: Format, vs: seq<Value>) returns (ok: bool)
      requires Valid() && forall i | 0 <= i < |vs| :: HasFormat(e, vs[i])
      modifies this, buffer
      ensures Valid() && (ok <==> AllWithin(e, vs) && |EncodeItems(e, vs)| <= old(Remaining()))
      ensures old(Contents()) <= Contents()
      ensures ok ==> Contents() == old(Contents()) + EncodeItems(e, vs)
      decreases e, 2
    {
      hide Encode, EncodeItems, HasFormat, WithinLimits;
      var i := 0;
      ghost var all := old(Contents()) + EncodeItems(e, vs);
      ok := true;
      assert vs[0..] == vs;
      while i < |vs|
        invariant 0 <= i <= |vs| && Valid() && old(Contents()) <= Contents()
        invariant Contents() + EncodeItems(e, vs[i..]) == all
        invariant forall j | 0 <= j < i :: WithinLimits(e, vs[j])
      {
        EncodeNext(e, vs, i);
        RestFits(Contents(), Encode(e, vs[i]), EncodeItems(e, vs[i + 1..]), all);
        ok := Put(e, vs[i]);
        if !ok {
          return;
        }
        i := i + 1;
      }
      NothingLeft(e, vs[i..]);
    }
  }

  lemma NothingLeft(e: Format, vs: seq<Value>)
    requires vs == []
    ensures EncodeItems(e, vs) == []
  {
  }

  // ---- Parsing

  lemma FirstByte(b: seq<Byte>)
    requires |b| > 0
    ensures TakeNumber(1, b) == Some((b[0], b[1..]))
  {
    JoinOne(b[..1]);
  }

  lemma DecodeNext(e: Format, n: nat, b: seq<Byte>)
    requires n > 0
    ensures DecodeItems(e, n, b) ==
      match Decode(e, b)
      case None => None
      case Some(t) => Prefixed([t.0], DecodeItems(e, n - 1, t.1))
  {
    hide Decode;
  }

  ghost function Prefixed(vs: seq<Value>, p: Parsed<seq<Value>>): Parsed<seq<Value>> {
    match p
    case None => None
    case Some(t) => Some((vs + t.0, t.1))
  }

  lemma PrefixedTwice(vs: seq<Value>, v: Value, p: Parsed<seq<Value>>)
    ensures Prefixed(vs, Prefixed([v], p)) == Prefixed(vs + [v], p)
  {
    if p.Some? {
      assert vs + ([v] + p.value.0) == vs + [v] + p.value.0;
    }
  }

  lemma NoMore(e: Format, vs: seq<Value>, b: seq<Byte>)
    ensures DecodeItems(e, 0, b) == Some(([], b)) && Prefixed(vs, DecodeItems(e, 0, b)) == Some((vs, b))
  {
    assert vs + [] == vs;
  }

  lemma NoPrefix(p: Parsed<seq<Value>>)
    ensures Prefixed([], p) == p
  {
    if p.Some? {
      assert [] + p.value.0 == p.value.0;
    }
  }

  class BinaryInput {
    const src: seq<Byte>
    var pos: nat

    ghost predicate Valid()
      reads this
    {
      pos <= |src|
    }

    /** The bytes not read yet. */
    ghost function Rest(): seq<Byte>
      requires Valid()
      reads this
    {
      src[pos..]
    }

    /** What a read gave: the value and the new rest, or a failed assertion. */
    ghost predicate Gave<T(!new)>(r: Option<T>, expected: Parsed<T>)
      requires Valid()
      reads this
    {
      match expected
      case None => r == None
      case Some(t) => r == Some(t.0) && Rest() == t.1
    }

    constructor (src: seq<Byte>)
      ensures Valid() && this.src == src && Rest() == src
    {
      this.src, pos := src, 0;
    }

    method Read(n: nat) returns (r: Option<seq<Byte>>)
      requires Valid()
      modifies this
      ensures Valid() && Gave(r, Take(n, old(Rest())))
    {
      if |src| - pos < n {
        return None;
      }
      r := Some(src[pos..pos + n]);
      assert src[pos..][..n] == r.value && src[pos..][n..] == src[pos + n..];
      pos := pos + n;
    }

    method GetU8() returns (r: Option<nat>)
      requires Valid()
      modifies this
      ensures Valid() && Gave(r, TakeNumber(1, old(Rest())))
    {
      hide FromBytes, TakeNumber;
      if pos == |src| {
        TooFew(1, Rest());
        return None;
      }
      FirstByte(Rest());
      pos := pos + 1;
      return Some(src[pos - 1]);
    }

    method GetU16() returns (r: Option<nat>)
      requires Valid()
      modifies this
      ensures Valid() && Gave(r, TakeNumber(2, old(Rest())))
    {
      hide FromBytes;
      var b := Read(2);
      if b == None {
        return None;
      }
      JoinTwo(b.value);
      NoBytes(b.value[..0]);
      return Some(Join2(b.value[0], b.value[1]));
    }

    method GetU32() returns (r: Option<nat>)
      requires Valid()
      modifies this
      ensures Valid() && Gave(r, TakeNumber(4, old(Rest())))
    {
      hide FromBytes;
      var b := Read(4);
      if b == None {
        return None;
      }
      JoinFour(b.value);
      return Some(Join4(b.value[0], b.value[1], b.value[2], b.value[3]));
    }

    method GetU64() returns (r: Option<nat>)
      requires Valid()
      modifies this
      ensures Valid() && Gave(r, TakeNumber(8, old(Rest())))
    {
      hide FromBytes, Join8;
      var read := Read(8);
      if read == None {
        return None;
      }
      var b := read.value;
      JoinEight(b);
      return Some(Join8(b[0], b[1], b[2], b[3], b[4], b[5], b[6], b[7]));
    }

    method GetUnsigned(w: Width) returns (r: Option<nat>)
      requires Valid()
      modifies this
      ensures Valid() && Gave(r, TakeNumber(w.Bytes(), old(Rest())))
    {
      hide TakeNumber;
      match w
      case W8 => r := GetU8();
      case W16 => r := GetU16();
      case W32 => r := GetU32();
      case W64 => r := GetU64();
    }

    method GetTextSize() returns (r: Option<nat>)
      requires Valid()
      modifies this
      ensures Valid() && Gave(r, TakeTextSize(old(Rest())))
    {
      hide FromBytes, TakeNumber;
      if pos < |src| {
        FirstByte(Rest());
      } else {
        TooFew(1, Rest());
      }
      var size := GetU8();
      if size == None {
        return None;
      }
      if size.value < 0x80 {
        return size;
      }
      if pos < |src| {
        FirstByte(Rest());
      } else {
        TooFew(1, Rest());
      }
      var low := GetU8();
      if low == None {
        return None;
      }
      return Some(256 * (size.value - 0x80) + low.value);
    }

    method GetSized(ghost before: Parsed<nat>, size: Option<nat>) returns (r: Option<Value>)
      requires Valid() && Gave(size, before)
      modifies this
      ensures Valid() && Gave(r, TakeSized(before))
    {
      if size == None {
        return None;
      }
      var b := Read(size.value);
      if b == None {
        return None;
      }
      return Some(Bytes(b.value));
    }

    method GetLeaf(f: Format) returns (r: Option<Value>)
      requires Valid() && !f.Many? && !f.Both?
      modifies this
      ensures Valid() && Gave(r, Decode(f, old(Rest())))
    {
      hide TakeNumber, TakeTextSize, TakeSized, FromUnsigned;
      match f
      case Unsigned(w) =>
        var t := GetUnsigned(w);
        r := if t == None then None else Some(Num(t.value));
      case Signed(w) =>
        var t := GetUnsigned(w);
        r := if t == None then None else Some(Num(FromUnsigned(t.value, w)));
      case Flag =>
        if pos == |src| {
          return None;
        }
        pos := pos + 1;
        return Some(Bool(src[pos - 1] != 1));
      case Text =>
        var size := GetTextSize();
        r := GetSized(TakeTextSize(old(Rest())), size);
      case Raw(k) =>
        var b := Read(k);
        r := if b == None then None else Some(Bytes(b.value));
      case Blob(w) =>
        var size := GetUnsigned(w);
        r := GetSized(TakeNumber(w.Bytes(), old(Rest())), size);
    }

    /** The reader's `get` for every type. */
    method Get(f: Format) returns (r: Option<Value>)
      requires Valid()
      modifies this
      ensures Valid() && Gave(r, Decode(f, old(Rest())))
      decreases f, 0
    {
      hide TakeNumber;
      if f.Many? {
        var vs := Fill(f.elem);
        r := if vs == None then None else Some(Items(vs.value));
      } else if f.Both? {
        var first := Get(f.first);
        if first == None {
          return None;
        }
        var second := Get(f.second);
        r := if second == None then None else Some(Pair(first.value, second.value));
      } else {
        hide Decode;
        r := GetLeaf(f);
      }
    }

    /** The elements of a vector, after their number. */
    method Fill(e: Format) returns (r: Option<seq<Value>>)
      requires Valid()
      modifies this
      ensures Valid() && Gave(r, DecodeMany(e, old(Rest())))
      decreases e, 2
    {
      hide TakeNumber, Decode, DecodeItems;
      var size := GetU8();
      if size == None {
        return None;
      }
      r := GetItems(e, size.value);
    }

    /** `n` values, one after the other. */
    method GetItems(e: Format, n: nat) returns (r: Option<seq<Value>>)
      requires Valid()
      modifies this
      ensures Valid() && Gave(r, DecodeItems(e, n, old(Rest())))
      decreases e, 1
    {
      hide Decode, DecodeItems, Prefixed;
      ghost var all := DecodeItems(e, n, Rest());
      var vs: seq<Value>, i := [], 0;
      NoPrefix(all);
      while i < n
        invariant 0 <= i <= n && Valid()
        invariant Prefixed(vs, DecodeItems(e, n - i, Rest())) == all
      {
        DecodeNext(e, n - i, Rest());
        ghost var next := Decode(e, Rest());
        if next.Some? {
          PrefixedTwice(vs, next.value.0, DecodeItems(e, n - i - 1, next.value.1));
        } else {
          NothingPrefixed(vs);
        }
        var v := Get(e);
        if v == None {
          return None;
        }
        vs := vs + [v.value];
        i := i + 1;
      }
      NoMore(e, vs, Rest());
      return Some(vs);
    }
  }

  lemma NothingPrefixed(vs: seq<Value>)
    ensures Prefixed(vs, None) == None
  {
  }

  lemma TooFew(n: nat, b: seq<Byte>)
    requires |b| < n
    ensures TakeNumber(n, b) == None
  {
  }

  ghost function DecodeMany(e: Format, b: seq<Byte>): Parsed<seq<Value>> {
    match TakeNumber(1, b)
    case None => None
    case Some(t) => DecodeItems(e, t.0, t.1)
  }

  // ---- Printer and parser together

  /** Written into a buffer that is large enough and read from it, a value comes back with
      its flags inverted, and nothing is left. */
  method ThereAndBack(f: Format, v: Value, buffer: array<Byte>) returns (r: Option<Value>)
    requires Encodable(f, v) && |Encode(f, v)| <= buffer.Length
    modifies buffer
    ensures r == Some(Flip(v))
    ensures r == Some(v) <==> !HasFlag(v)
  {
    hide Encode, Decode, Flip, HasFlag, Encodable;
    assert HasFormat(f, v) && WithinLimits(f, v) by {
      EncodableParts(f, v);
    }
    var output := new BinaryOutput(buffer);
    var ok := output.Put(f, v);
    assert [] + Encode(f, v) == Encode(f, v);
    var input := new BinaryInput(buffer[..output.cur]);
    assert Encode(f, v) + [] == Encode(f, v);
    WireRoundTrip.ReadsBack(f, v, []);
    FlipsFlags(v);
    r := input.Get(f);
  }

  lemma EncodableParts(f: Format, v: Value)
    requires Encodable(f, v)
    ensures HasFormat(f, v) && WithinLimits(f, v)
  {
  }
}
