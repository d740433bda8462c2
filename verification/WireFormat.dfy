/** The bytes themselves: what the codec writes, and what it makes of bytes no encoder wrote,
    after netidx-core/src/pack.rs. */
module WireFormat {
  import opened Bytes
  import opened Varint
  import opened Pack
  import opened Evolution

  // ----- numbers -----

  lemma {:induction false} LessSnoc(a: Key, x: byte, b: Key, y: byte)
    requires |a| == |b| && (Less(a, b) || (a == b && x < y))
    ensures Less(a + [x], b + [y])
  {
    if a != [] {
      assert (a + [x])[1..] == a[1..] + [x] && (b + [y])[1..] == b[1..] + [y];
      if a[0] == b[0] { LessSnoc(a[1..], x, b[1..], y); }
    }
  }

  /** Fixed width numbers are written most significant byte first: their bytes sort as they do. */
  lemma {:induction false} BigEndianOrder(w: nat, n: nat, m: nat)
    requires n < m < Pow256(w)
    ensures Less(BigEndian(w, n), BigEndian(w, m))
  {
    if w > 0 {
      var a, b := BigEndian(w - 1, n / 256), BigEndian(w - 1, m / 256);
      if n / 256 < m / 256 { BigEndianOrder(w - 1, n / 256, m / 256); }
      LessSnoc(a, n % 256, b, m % 256);
    }
  }

  lemma DivDiv(n: nat, p: nat)
    requires p >= 1
    ensures (n / 128) / p == n / (128 * p)
  {
    var q := n / (128 * p);
    var r := n % (128 * p);
    assert n == 128 * p * q + r;
    assert n / 128 == p * q + r / 128 by { assert 128 * (p * q) + r == n; }
    assert r / 128 < p;
    DivUnique(n / 128, p, q, r / 128);
  }

  lemma DivUnique(n: nat, p: nat, q: nat, r: nat)
    requires n == p * q + r && r < p
    ensures n / p == q
  {
    var k, m := n / p, n % p;
    assert n == p * k + m && m < p;
    if k < q {
      Stretch(p, k, q);
    } else if q < k {
      Stretch(p, q, k);
    }
  }

  lemma Stretch(p: nat, a: nat, b: nat)
    requires a < b
    ensures p * b >= p * a + p
  {
    assert p * b == p * a + p * (b - a);
    MulAtLeast(b - a, p);
    assert p * (b - a) == (b - a) * p;
  }

  /** A varint holds seven bits to the byte, least significant first, and every byte but the last
      has its top bit set. */
  lemma {:induction false} VarintLayout(n: nat, i: nat)
    requires i < |VarintBytes(n)|
    ensures VarintBytes(n)[i] % 128 == (n / Pow128(i)) % 128
    ensures VarintBytes(n)[i] >= 128 <==> i + 1 < |VarintBytes(n)|
    decreases n
  {
    if i == 0 {
      assert n / 1 == n;
    } else {
      VarintLayout(n / 128, i - 1);
      DivDiv(n, Pow128(i - 1));
    }
  }

  lemma {:induction false} GatherOpen(b: seq<byte>, i: nat, acc: nat)
    requires i <= 10 && forall k | 0 <= k < |b| && k < 10 - i :: b[k] >= 128
    ensures Gather(b, i, acc) == if |b| < 10 - i then None else Some(Err(InvalidFormat, b[10 - i..]))
    decreases 10 - i
  {
    if i < 10 && b != [] {
      GatherOpen(b[1..], i + 1, acc + Group(b[0], i));
      if |b| >= 10 - i { assert b[1..][10 - (i + 1)..] == b[10 - i..]; }
    }
  }

  /** Bytes that never end a varint: too few are a short buffer and stay, ten are not a varint
      and go. */
  lemma VarintMalformed(b: seq<byte>)
    requires forall k | 0 <= k < |b| && k < 10 :: b[k] >= 128
    ensures DecodeVarint(b) == if |b| < 10 then Err(BufferShort, b) else Err(InvalidFormat, b[10..])
  {
    GatherOpen(b, 0, 0);
  }

  /** A varint need not be the shortest. */
  lemma VarintOverlong(v: nat, rest: seq<byte>)
    requires v < 128
    ensures DecodeVarint([v + 128, 0] + rest) == Ok(v, rest)
  {
    var b := [v + 128, 0] + rest;
    assert b[1..] == [0] + rest && b[1..][1..] == rest;
    assert Pow128(0) == 1 && Pow128(1) == 128;
    assert Group(b[0], 0) == v && Group(b[1], 1) == 0;
    assert Gather(b[1..], 1, v) == Some(Ok(v, rest));
  }

  // ----- examples of what is written -----

  lemma SmallVarint(n: nat)
    requires n < 128
    ensures VarintBytes(n) == [n] && VarintLen(n) == 1
  {
    VarintLenExact(n);
  }

  /** Booleans and options start with 0 or 1, numbers are big endian, texts and vectors start with
      their length, and a pair is one after the other. */
  lemma PlainExamples(flag: bool, c: byte)
    requires c < 128
    ensures Encode(Flag, VBool(false)) == [0] && Encode(Flag, VBool(true)) == [1]
    ensures Encode(Opt(Flag), VNone) == [0]
    ensures Encode(Opt(Flag), VSome(VBool(true))) == [1, 1]
    ensures Typed(Fixed(2), VInt(258)) && Encode(Fixed(2), VInt(258)) == [1, 2]
    ensures Typed(Text, VText([c])) && Encode(Text, VText([c])) == [1, c]
    ensures Encode(Pair(Flag, Opt(Flag)), VPair(VBool(true), VNone)) == [1, 0]
  {
    SmallVarint(1);
    assert ValidUtf8([c]) by { assert [c][1..] == []; }
    assert Pow256(1) == 256 && Pow256(2) == 65536;
    assert BigEndian(0, 0) == [] && BigEndian(1, 1) == [1];
  }

  lemma VectorExample()
    ensures var v := VVec(Cons(VBool(true), Cons(VBool(false), Nil)));
            Typed(Vec(Flag, 1), v) && Encode(Vec(Flag, 1), v) == [2, 1, 0]
  {
    var one := Cons(VBool(false), Nil);
    var two := Cons(VBool(true), one);
    assert Count(Nil) == 0 && Count(one) == 1 && Count(two) == 2;
    assert TypedItems(Flag, Nil) && TypedItems(Flag, one) && TypedItems(Flag, two);
    assert EncodeItems(Flag, Nil) == [] && EncodeItems(Flag, one) == [0] && EncodeItems(Flag, two) == [1, 0];
    SmallVarint(2);
  }

  lemma FrameOfSmall(n: nat)
    requires n < 100
    ensures LenWrappedLen(n) == n + 1
  {
    SmallVarint(n);
    SmallVarint(n + 1);
  }

  /** An empty wrapped struct is the single byte 1. */
  lemma EmptyFrame()
    ensures Typed(Record(true, FNil), VRecord(Nil)) && Encode(Record(true, FNil), VRecord(Nil)) == [1]
  {
    assert TypedFields(FNil, Nil) && LenFields(FNil, Nil) == 0 && EncodeFields(FNil, Nil) == [];
    FrameOfSmall(0);
    SmallVarint(1);
  }

  /** Two fields, of which the second is skipped. */
  function TwoFields(d: Value): Fields {
    FCons(Required, Flag, d, FCons(Skipped, Flag, d, FNil))
  }

  function TwoValues(flag: bool, hidden: bool): Values {
    Cons(VBool(flag), Cons(VBool(hidden), Nil))
  }

  lemma TwoFieldFacts(d: Value, flag: bool, hidden: bool)
    ensures TypedFields(TwoFields(d), TwoValues(flag, hidden))
    ensures LenFields(TwoFields(d), TwoValues(flag, hidden)) == 1
    ensures EncodeFields(TwoFields(d), TwoValues(flag, hidden)) == [if flag then 1 else 0]
  {
    var last, one := FCons(Skipped, Flag, d, FNil), Cons(VBool(hidden), Nil);
    assert TypedFields(FNil, Nil) && TypedFields(last, one);
    assert LenFields(FNil, Nil) == 0 && LenFields(last, one) == 0;
    assert EncodeFields(FNil, Nil) == [] && EncodeFields(last, one) == [];
    assert Encode(Flag, VBool(flag)) == [if flag then 1 else 0];
  }

  /** A wrapped struct starts with the length of the whole frame; skipped fields do not show. */
  lemma StructExample(d: Value, flag: bool, hidden: bool)
    ensures var fs, vs := TwoFields(d), TwoValues(flag, hidden);
            && TypedFields(fs, vs)
            && Encode(Record(true, fs), VRecord(vs)) == [2, if flag then 1 else 0]
            && Encode(Record(false, fs), VRecord(vs)) == [if flag then 1 else 0]
  {
    TwoFieldFacts(d, flag, hidden);
    FrameOfSmall(1);
    SmallVarint(2);
  }

  /** The tag of a wrapped case comes first in its frame. */
  lemma CaseExample(t: byte, d: Value, flag: bool, hidden: bool)
    ensures var s, v := Enum(true, CCons(t, TwoFields(d), CNil), None), VEnum(t, TwoValues(flag, hidden));
            Typed(s, v) && Encode(s, v) == [3, t, if flag then 1 else 0]
  {
    TwoFieldFacts(d, flag, hidden);
    var cs, vs := CCons(t, TwoFields(d), CNil), TwoValues(flag, hidden);
    assert TypedCase(cs, t, vs) && LenCase(cs, t, vs) == 1;
    assert EncodeCase(cs, t, vs) == [if flag then 1 else 0];
    FrameOfSmall(2);
    SmallVarint(3);
  }

  // ----- bytes no encoder wrote -----

  lemma TagByte(b: seq<byte>)
    requires b != []
    ensures DecodeFixed(1, b) == Ok(b[0], b[1..])
  {
    OneByte(b[0], b[1..]);
    assert [b[0]] + b[1..] == b;
  }

  /** A boolean or option that starts with neither 0 nor 1 is an unknown tag. */
  lemma UnknownByte(e: Schema, b: seq<byte>)
    requires b != [] && b[0] > 1
    ensures Decode(Flag, b) == Err(UnknownTag, b[1..]) && Decode(Opt(e), b) == Err(UnknownTag, b[1..])
  {
    TagByte(b);
  }

  /** An unknown case is an error, unless the enum names a case for it. */
  lemma UnknownCase(cs: Cases, other: Option<byte>, b: seq<byte>)
    requires b != [] && FindFields(cs, b[0]).None?
    ensures Decode(Enum(false, cs, other), b) ==
            if other.Some? then Ok(VEnum(other.value, Nil), b[1..]) else Err(UnknownTag, b[1..])
  {
    TagByte(b);
    CaseByFields(cs, b[0], b[1..]);
  }

  /** A number that is cut off stays in the buffer; a text longer than the buffer is too big; one
      that is not UTF-8 is consumed and refused. */
  lemma CutOff(w: nat, b: seq<byte>, len: nat, r: seq<byte>)
    ensures |b| < w ==> Decode(Fixed(w), b) == Err(BufferShort, b)
    ensures DecodeVarint(b) == Ok(len, r) && len > |r| ==> Decode(Text, b) == Err(TooBig, r)
    ensures DecodeVarint(b) == Ok(len, r) && len <= |r| && !ValidUtf8(r[..len]) ==>
              Decode(Text, b) == Err(InvalidFormat, r[len..])
  {}

  /** A default stands in for a field exactly when its buffer is too short; any other error of a
      field, defaulted or not, is the error of the record. */
  lemma DefaultOnlyWhenShort(s: Schema, d: Value, b: seq<byte>)
    ensures var r, f := Decode(s, b), DecodeFields(FCons(Defaulted, s, d, FNil), b);
            && (r.Ok? ==> f == Ok(Cons(r.value, Nil), r.rest))
            && (r.Err? && r.error == BufferShort ==> f == Ok(Cons(d, Nil), r.rest))
            && (r.Err? && r.error != BufferShort ==> f.Err? && f.error == r.error)
    ensures Decode(s, b).Err? ==>
              DecodeFields(FCons(Required, s, d, FNil), b) == Err(Decode(s, b).error, Decode(s, b).rest)
  {
    assert DecodeFields(FNil, Decode(s, b).rest) == Ok(Nil, Decode(s, b).rest);
  }

  /** The first error of a part is the error of the whole. */
  lemma FirstErrorWins(x: Schema, y: Schema, b: seq<byte>, n: nat, more: Fields)
    requires Decode(x, b).Err?
    ensures Decode(Pair(x, y), b) == Decode(x, b) && Decode(Opt(x), [1] + b) == Decode(x, b)
    ensures n > 0 ==> DecodeItems(x, n, b) == Err(Decode(x, b).error, Decode(x, b).rest)
    ensures DecodeFields(FCons(Required, x, VNone, more), b) == Err(Decode(x, b).error, Decode(x, b).rest)
  {
    OneByte(1, b);
  }

  lemma {:induction false} ItemsFailAt(e: Schema, vs: Values, n: nat, b: seq<byte>)
    requires TypedItems(e, vs) && AllComeBack(e, vs) && n > 0 && Decode(e, b).Err?
    ensures DecodeItems(e, Count(vs) + n, EncodeItems(e, vs) + b) == Err(Decode(e, b).error, Decode(e, b).rest)
    decreases vs
  {
    if vs.Nil? {
      assert EncodeItems(e, vs) + b == b;
    } else {
      var rest := EncodeItems(e, vs.tail) + b;
      Associative(Encode(e, vs.head), EncodeItems(e, vs.tail), b);
      assert Decode(e, Encode(e, vs.head) + rest) == Ok(vs.head, rest);
      ItemsFailAt(e, vs.tail, n, b);
    }
  }

  /** A frame of length zero is a short buffer. */
  lemma ZeroFrame(s: Schema, rest: seq<byte>)
    requires Wrapped(s)
    ensures Decode(s, [0] + rest) == Err(BufferShort, rest)
  {
    SmallVarint(0);
    VarintRoundTrip(0, rest);
    DecodeIsFramed(s, [0] + rest);
  }

  /** Of a frame that is cut off, the decoder sees what there is, and leaves nothing. */
  lemma TruncatedFrame(s: Schema, b: seq<byte>, len: nat, r: seq<byte>)
    requires Wrapped(s) && DecodeVarint(b) == Ok(len, r) && len >= 1 && len - VarintLen(len) > |r|
    ensures Decode(s, b) == CloseFrame(DecodeInner(s, r), [])
  {
    HeaderFits(len);
    DecodeIsFramed(s, b);
  }

  // ----- UTF-8 -----

  /** The characters UTF-8 can encode. */
  type Scalar = c: nat | c <= 0x10FFFF && !(0xD800 <= c <= 0xDFFF)

  function Utf8One(c: Scalar): seq<byte> {
    if c < 0x80 then [c]
    else if c < 0x800 then [0xC0 + c / 64, 0x80 + c % 64]
    else if c < 0x10000 then [0xE0 + c / 4096, 0x80 + c / 64 % 64, 0x80 + c % 64]
    else [0xF0 + c / 262144, 0x80 + c / 4096 % 64, 0x80 + c / 64 % 64, 0x80 + c % 64]
  }

  function Utf8(s: seq<Scalar>): seq<byte> {
    if s == [] then [] else Utf8One(s[0]) + Utf8(s[1..])
  }

  lemma Utf8OneValid(c: Scalar, rest: seq<byte>)
    requires ValidUtf8(rest)
    ensures ValidUtf8(Utf8One(c) + rest)
  {
    var b := Utf8One(c) + rest;
    assert b[|Utf8One(c)|..] == rest;
  }

  lemma {:induction false} Utf8Valid(s: seq<Scalar>)
    ensures ValidUtf8(Utf8(s))
  {
    if s != [] {
      Utf8Valid(s[1..]);
      Utf8OneValid(s[0], Utf8(s[1..]));
    }
  }

  lemma Two(x: nat, y: nat) returns (c: Scalar)
    requires 0xC2 <= x <= 0xDF && 0x80 <= y <= 0xBF
    ensures Utf8One(c) == [x, y]
  {
    c := (x - 0xC0) * 64 + (y - 0x80);
  }

  lemma Three(x: nat, y: nat, z: nat) returns (c: Scalar)
    requires 0xE0 <= x <= 0xEF && 0x80 <= y <= 0xBF && 0x80 <= z <= 0xBF
    requires (x == 0xE0 ==> y >= 0xA0) && (x == 0xED ==> y <= 0x9F)
    ensures Utf8One(c) == [x, y, z]
  {
    var n := (x - 0xE0) * 4096 + (y - 0x80) * 64 + (z - 0x80);
    assert n / 64 == (x - 0xE0) * 64 + (y - 0x80) && n / 4096 == x - 0xE0;
    c := n;
  }

  lemma Four(x: nat, y: nat, z: nat, w: nat) returns (c: Scalar)
    requires 0xF0 <= x <= 0xF4 && 0x80 <= y <= 0xBF && 0x80 <= z <= 0xBF && 0x80 <= w <= 0xBF
    requires (x == 0xF0 ==> y >= 0x90) && (x == 0xF4 ==> y <= 0x8F)
    ensures Utf8One(c) == [x, y, z, w]
  {
    var n := (x - 0xF0) * 262144 + (y - 0x80) * 4096 + (z - 0x80) * 64 + (w - 0x80);
    assert n / 64 == (x - 0xF0) * 4096 + (y - 0x80) * 64 + (z - 0x80);
    assert n / 4096 == (x - 0xF0) * 64 + (y - 0x80) && n / 262144 == x - 0xF0;
    c := n;
  }

  lemma {:induction false} Utf8Read(b: seq<byte>) returns (s: seq<Scalar>)
    requires ValidUtf8(b)
    ensures b == Utf8(s)
    decreases |b|
  {
    if b == [] {
      s := [];
    } else {
      var c: Scalar;
      var n: nat;
      if b[0] <= 0x7F { c, n := b[0], 1; }
      else if b[0] <= 0xDF { c := Two(b[0], b[1]); n := 2; }
      else if b[0] <= 0xEF { c := Three(b[0], b[1], b[2]); n := 3; }
      else { c := Four(b[0], b[1], b[2], b[3]); n := 4; }
      assert Utf8One(c) == b[..n];
      var rest := Utf8Read(b[n..]);
      s := [c] + rest;
      assert s[1..] == rest && b == b[..n] + b[n..];
    }
  }

  /** A text is accepted exactly when it is the UTF-8 of some characters. */
  lemma Utf8Exact(b: seq<byte>)
    ensures ValidUtf8(b) <==> exists s: seq<Scalar> :: b == Utf8(s)
  {
    if ValidUtf8(b) {
      var s := Utf8Read(b);
      assert b == Utf8(s);
    } else if s: seq<Scalar> :| b == Utf8(s) {
      Utf8Valid(s);
    }
  }
}
