/** The Pack codec and what its derive generates, after netidx-core/src/pack.rs and
    netidx-derive/src/lib.rs, as an interpreter of schemas. */
module Pack {
  import opened Bytes
  import opened Varint

  /** Required fields fail on a short buffer, defaulted ones then take their default, skipped
      ones are never written and always read as their default. */
  datatype FieldKind = Required | Defaulted | Skipped

  datatype Schema =
    | Fixed(width: nat)
    | Var
    | Text
    | Flag
    | Opt(elem: Schema)
    | Pair(fst: Schema, snd: Schema)
    | Vec(elem: Schema, size: nat)
    | Record(wrapped: bool, fields: Fields)
    | Enum(wrapped: bool, cases: Cases, other: Option<byte>)

  datatype Fields = FNil | FCons(kind: FieldKind, schema: Schema, default: Value, rest: Fields)

  datatype Cases = CNil | CCons(tag: byte, fields: Fields, rest: Cases)

  datatype Value =
    | VInt(n: nat)
    | VText(text: seq<byte>)
    | VBool(flag: bool)
    | VNone
    | VSome(v: Value)
    | VPair(a: Value, b: Value)
    | VVec(items: Values)
    | VRecord(items: Values)
    | VEnum(tag: byte, items: Values)

  datatype Values = Nil | Cons(head: Value, tail: Values)

  function Count(vs: Values): nat {
    match vs
    case Nil => 0
    case Cons(_, t) => 1 + Count(t)
  }

  function Concat(vs: Values, ws: Values): Values {
    match vs
    case Nil => ws
    case Cons(h, t) => Cons(h, Concat(t, ws))
  }

  function Push(vs: Values, x: Value): Values {
    Concat(vs, Cons(x, Nil))
  }

  lemma {:induction false} PushConcat(vs: Values, x: Value, ws: Values)
    ensures Concat(Push(vs, x), ws) == Concat(vs, Cons(x, ws))
    decreases vs
  {
    if vs.Cons? { PushConcat(vs.tail, x, ws); }
  }

  // ----- leaves -----

  function Pow256(w: nat): (r: nat)
    ensures r >= 1
  {
    if w == 0 then 1 else 256 * Pow256(w - 1)
  }

  function BigEndian(w: nat, n: nat): (b: seq<byte>)
    ensures |b| == w
  {
    if w == 0 then [] else BigEndian(w - 1, n / 256) + [n % 256]
  }

  function FromBigEndian(b: seq<byte>): nat {
    if b == [] then 0 else FromBigEndian(b[..|b| - 1]) * 256 + b[|b| - 1]
  }

  lemma {:induction false} BigEndianRoundTrip(w: nat, n: nat)
    requires n < Pow256(w)
    ensures FromBigEndian(BigEndian(w, n)) == n
  {
    if w > 0 {
      BigEndianRoundTrip(w - 1, n / 256);
      assert BigEndian(w, n)[..w - 1] == BigEndian(w - 1, n / 256);
    }
  }

  predicate Tail(b: seq<byte>, i: nat) {
    i < |b| && 0x80 <= b[i] <= 0xBF
  }

  /** Well-formed UTF-8, section 4 of RFC 3629. */
  predicate ValidUtf8(b: seq<byte>) {
    b == [] ||
    if b[0] <= 0x7F then ValidUtf8(b[1..])
    else if 0xC2 <= b[0] <= 0xDF then Tail(b, 1) && ValidUtf8(b[2..])
    else if 0xE0 <= b[0] <= 0xEF then
      Tail(b, 1) && Tail(b, 2) && (b[0] == 0xE0 ==> b[1] >= 0xA0) && (b[0] == 0xED ==> b[1] <= 0x9F) &&
      ValidUtf8(b[3..])
    else if 0xF0 <= b[0] <= 0xF4 then
      Tail(b, 1) && Tail(b, 2) && Tail(b, 3) && (b[0] == 0xF0 ==> b[1] >= 0x90) &&
      (b[0] == 0xF4 ==> b[1] <= 0x8F) && ValidUtf8(b[4..])
    else false
  }

  // ----- values of a schema -----

  ghost predicate Typed(s: Schema, v: Value)
    decreases s, 0
  {
    match s
    case Fixed(w) => v.VInt? && v.n < Pow256(w)
    case Var => v.VInt? && v.n < U64
    case Text => v.VText? && ValidUtf8(v.text)
    case Flag => v.VBool?
    case Opt(e) => v.VNone? || (v.VSome? && Typed(e, v.v))
    case Pair(a, b) => v.VPair? && Typed(a, v.a) && Typed(b, v.b)
    case Vec(e, _) => v.VVec? && Count(v.items) < U64 && TypedItems(e, v.items)
    case Record(_, fs) => v.VRecord? && TypedFields(fs, v.items)
    case Enum(_, cs, _) => v.VEnum? && TypedCase(cs, v.tag, v.items)
  }

  ghost predicate TypedItems(e: Schema, vs: Values)
    decreases e, Count(vs) + 1
  {
    vs.Nil? || (Typed(e, vs.head) && TypedItems(e, vs.tail))
  }

  ghost predicate TypedFields(fs: Fields, vs: Values)
    decreases fs, 0
  {
    match fs
    case FNil => vs.Nil?
    case FCons(_, s, _, rest) => vs.Cons? && Typed(s, vs.head) && TypedFields(rest, vs.tail)
  }

  ghost predicate TypedCase(cs: Cases, tag: byte, vs: Values)
    decreases cs, 0
  {
    match cs
    case CNil => false
    case CCons(t, fs, rest) => if t == tag then TypedFields(fs, vs) else TypedCase(rest, tag, vs)
  }

  // ----- encoded_len -----

  function FrameLen(wrapped: bool, n: nat): nat {
    if wrapped then LenWrappedLen(n) else n
  }

  ghost function EncodedLen(s: Schema, v: Value): nat
    requires Typed(s, v)
    decreases s, 0
  {
    match s
    case Fixed(w) => w
    case Var => VarintLen(v.n)
    case Text => VarintLen(|v.text|) + |v.text|
    case Flag => 1
    case Opt(e) => if v.VNone? then 1 else 1 + EncodedLen(e, v.v)
    case Pair(a, b) => EncodedLen(a, v.a) + EncodedLen(b, v.b)
    case Vec(e, _) => VarintLen(Count(v.items)) + LenItems(e, v.items)
    case Record(wrapped, fs) => FrameLen(wrapped, LenFields(fs, v.items))
    case Enum(wrapped, cs, _) => FrameLen(wrapped, 1 + LenCase(cs, v.tag, v.items))
  }

  ghost function LenItems(e: Schema, vs: Values): nat
    requires TypedItems(e, vs)
    decreases e, Count(vs) + 1
  {
    match vs
    case Nil => 0
    case Cons(h, t) => EncodedLen(e, h) + LenItems(e, t)
  }

  ghost function LenFields(fs: Fields, vs: Values): nat
    requires TypedFields(fs, vs)
    decreases fs, 0
  {
    match fs
    case FNil => 0
    case FCons(k, s, _, rest) => (if k.Skipped? then 0 else EncodedLen(s, vs.head)) + LenFields(rest, vs.tail)
  }

  ghost function LenCase(cs: Cases, tag: byte, vs: Values): nat
    requires TypedCase(cs, tag, vs)
    decreases cs, 0
  {
    if cs.tag == tag then LenFields(cs.fields, vs) else LenCase(cs.rest, tag, vs)
  }

  // ----- encode -----

  ghost function Frame(wrapped: bool, len: nat, body: seq<byte>): seq<byte> {
    if wrapped then VarintBytes(len) + body else body
  }

  ghost function Encode(s: Schema, v: Value): seq<byte>
    requires Typed(s, v)
    decreases s, 0
  {
    match s
    case Fixed(w) => BigEndian(w, v.n)
    case Var => VarintBytes(v.n)
    case Text => VarintBytes(|v.text|) + v.text
    case Flag => [if v.flag then 1 else 0]
    case Opt(e) => if v.VNone? then [0] else [1] + Encode(e, v.v)
    case Pair(a, b) => Encode(a, v.a) + Encode(b, v.b)
    case Vec(e, _) => VarintBytes(Count(v.items)) + EncodeItems(e, v.items)
    case Record(wrapped, fs) => Frame(wrapped, EncodedLen(s, v), EncodeFields(fs, v.items))
    case Enum(wrapped, cs, _) => Frame(wrapped, EncodedLen(s, v), [v.tag] + EncodeCase(cs, v.tag, v.items))
  }

  ghost function EncodeItems(e: Schema, vs: Values): seq<byte>
    requires TypedItems(e, vs)
    decreases e, Count(vs) + 1
  {
    match vs
    case Nil => []
    case Cons(h, t) => Encode(e, h) + EncodeItems(e, t)
  }

  ghost function EncodeFields(fs: Fields, vs: Values): seq<byte>
    requires TypedFields(fs, vs)
    decreases fs, 0
  {
    match fs
    case FNil => []
    case FCons(k, s, _, rest) =>
      if k.Skipped? then EncodeFields(rest, vs.tail) else Encode(s, vs.head) + EncodeFields(rest, vs.tail)
  }

  ghost function EncodeCase(cs: Cases, tag: byte, vs: Values): seq<byte>
    requires TypedCase(cs, tag, vs)
    decreases cs, 0
  {
    if cs.tag == tag then EncodeFields(cs.fields, vs) else EncodeCase(cs.rest, tag, vs)
  }

  // ----- decode -----

  const MAX_VEC: nat := 2 * 1024 * 1024 * 1024

  datatype Opened = Opened(inner: seq<byte>, after: seq<byte>) | Unopened(error: PackError, rest: seq<byte>)

  /** The head of len_wrapped_decode: the bytes the frame may use and those after it. */
  function OpenFrame(b: seq<byte>): Opened {
    match DecodeVarint(b)
    case Err(e, rest) => Unopened(e, rest)
    case Ok(len, rest) =>
      if len < 1 then Unopened(BufferShort, rest)
      else
        HeaderFits(len);
        var n := len - VarintLen(len);
        if n <= |rest| then Opened(rest[..n], rest[n..]) else Opened(rest, [])
  }

  function IntOf(d: Decoded<nat>): Decoded<Value> {
    if d.Ok? then Ok(VInt(d.value), d.rest) else Err(d.error, d.rest)
  }

  function SomeOf(d: Decoded<Value>): Decoded<Value> {
    if d.Ok? then Ok(VSome(d.value), d.rest) else Err(d.error, d.rest)
  }

  function PairOf(v: Value, d: Decoded<Value>): Decoded<Value> {
    if d.Ok? then Ok(VPair(v, d.value), d.rest) else Err(d.error, d.rest)
  }

  function VecOf(d: Decoded<Values>): Decoded<Value> {
    if d.Ok? then Ok(VVec(d.value), d.rest) else Err(d.error, d.rest)
  }

  function RecordOf(d: Decoded<Values>): Decoded<Value> {
    if d.Ok? then Ok(VRecord(d.value), d.rest) else Err(d.error, d.rest)
  }

  function EnumOf(tag: byte, d: Decoded<Values>): Decoded<Value> {
    if d.Ok? then Ok(VEnum(tag, d.value), d.rest) else Err(d.error, d.rest)
  }

  function ConsOf(v: Value, d: Decoded<Values>): Decoded<Values> {
    if d.Ok? then Ok(Cons(v, d.value), d.rest) else Err(d.error, d.rest)
  }

  /** The tail of len_wrapped_decode: whatever the inner decoder did, go on after the frame. */
  function CloseFrame<T>(r: Decoded<T>, after: seq<byte>): Decoded<T> {
    r.(rest := after)
  }

  function DecodeFixed(w: nat, b: seq<byte>): Decoded<nat> {
    if |b| < w then Err(BufferShort, b) else Ok(FromBigEndian(b[..w]), b[w..])
  }

  function DecodeText(b: seq<byte>): Decoded<Value> {
    match DecodeVarint(b)
    case Err(e, rest) => Err(e, rest)
    case Ok(len, rest) =>
      if len > |rest| then Err(TooBig, rest)
      else if ValidUtf8(rest[..len]) then Ok(VText(rest[..len]), rest[len..])
      else Err(InvalidFormat, rest[len..])
  }

  predicate TooMany(count: nat, size: nat, remaining: nat) {
    Times(count, size) > MAX_VEC || Times(count, size) > remaining * 256
  }

  /** The product, by repeated addition; check_sz stops it at the largest usize. */
  function Times(count: nat, size: nat): nat {
    if count == 0 then 0 else Times(count - 1, size) + size
  }

  function SaturatingMul(a: nat, b: nat): nat {
    if a * b < U64 then a * b else U64 - 1
  }

  lemma {:induction false} TimesIsProduct(count: nat, size: nat)
    ensures Times(count, size) == count * size
  {
    if count > 0 { TimesIsProduct(count - 1, size); }
  }

  /** check_sz refuses the same counts although its product saturates. */
  lemma CheckSize(count: nat, size: nat, remaining: nat)
    ensures TooMany(count, size, remaining) <==>
            var sz := SaturatingMul(count, size);
            sz > MAX_VEC || sz > remaining * 256
  {
    TimesIsProduct(count, size);
  }

  function Decode(s: Schema, b: seq<byte>): Decoded<Value>
    decreases s, 0
  {
    match s
    case Fixed(w) => IntOf(DecodeFixed(w, b))
    case Var => IntOf(DecodeVarint(b))
    case Text => DecodeText(b)
    case Flag =>
      (match DecodeFixed(1, b)
       case Err(e, rest) => Err(e, rest)
       case Ok(n, rest) => if n == 0 then Ok(VBool(false), rest)
                           else if n == 1 then Ok(VBool(true), rest)
                           else Err(UnknownTag, rest))
    case Opt(e) =>
      (match DecodeFixed(1, b)
       case Err(err, rest) => Err(err, rest)
       case Ok(n, rest) => if n == 0 then Ok(VNone, rest)
                           else if n == 1 then SomeOf(Decode(e, rest))
                           else Err(UnknownTag, rest))
    case Pair(x, y) =>
      (match Decode(x, b)
       case Err(e, rest) => Err(e, rest)
       case Ok(v, rest) => PairOf(v, Decode(y, rest)))
    case Vec(e, size) =>
      (match DecodeVarint(b)
       case Err(err, rest) => Err(err, rest)
       case Ok(n, rest) => if TooMany(n, size, |rest|) then Err(TooBig, rest)
                           else VecOf(DecodeItems(e, n, rest)))
    case Record(wrapped, fs) =>
      if !wrapped then RecordOf(DecodeFields(fs, b))
      else (match OpenFrame(b)
            case Unopened(e, rest) => Err(e, rest)
            case Opened(inner, after) => CloseFrame(RecordOf(DecodeFields(fs, inner)), after))
    case Enum(wrapped, cs, other) =>
      if !wrapped then DecodeTagged(cs, other, b)
      else (match OpenFrame(b)
            case Unopened(e, rest) => Err(e, rest)
            case Opened(inner, after) => CloseFrame(DecodeTagged(cs, other, inner), after))
  }

  function DecodeItems(e: Schema, n: nat, b: seq<byte>): Decoded<Values>
    decreases e, n + 1
  {
    if n == 0 then Ok(Nil, b)
    else match Decode(e, b)
      case Err(err, rest) => Err(err, rest)
      case Ok(v, rest) => ConsOf(v, DecodeItems(e, n - 1, rest))
  }

  function DecodeFields(fs: Fields, b: seq<byte>): Decoded<Values>
    decreases fs, 0
  {
    match fs
    case FNil => Ok(Nil, b)
    case FCons(Skipped, _, d, more) => ConsOf(d, DecodeFields(more, b))
    case FCons(k, s, d, more) =>
      match Decode(s, b)
      case Ok(v, rest) => ConsOf(v, DecodeFields(more, rest))
      case Err(e, rest) =>
        if k.Defaulted? && e == BufferShort then ConsOf(d, DecodeFields(more, rest))
        else Err(e, rest)
  }

  function DecodeTagged(cs: Cases, other: Option<byte>, b: seq<byte>): Decoded<Value>
    decreases cs, 1
  {
    match DecodeFixed(1, b)
    case Err(e, rest) => Err(e, rest)
    case Ok(tag, rest) =>
      match DecodeCase(cs, tag, rest)
      case Some(r) => r
      case None => if other.Some? then Ok(VEnum(other.value, Nil), rest) else Err(UnknownTag, rest)
  }

  function DecodeCase(cs: Cases, tag: nat, b: seq<byte>): Option<Decoded<Value>>
    decreases cs, 0
  {
    match cs
    case CNil => None
    case CCons(t, fs, more) =>
      if t == tag then Some(EnumOf(t, DecodeFields(fs, b))) else DecodeCase(more, tag, b)
  }

  // ----- encode writes encoded_len bytes -----

  /** Rust objects and buffers hold at most isize::MAX bytes. */
  const MAX_LEN: nat := 0x7FFF_FFFF_FFFF_FFFF

  lemma FrameLength(wrapped: bool, body: seq<byte>)
    requires FrameLen(wrapped, |body|) <= MAX_LEN
    ensures |Frame(wrapped, FrameLen(wrapped, |body|), body)| == FrameLen(wrapped, |body|)
  {
    if wrapped { LenWrappedFixpoint(|body|); }
  }

  /** encode writes exactly encoded_len bytes, at any nesting. */
  lemma {:induction false} ExactLength(s: Schema, v: Value)
    requires Typed(s, v) && EncodedLen(s, v) <= MAX_LEN
    ensures |Encode(s, v)| == EncodedLen(s, v)
    decreases s, 0
  {
    match s
    case Fixed(_) =>
    case Var => VarintLenExact(v.n);
    case Text => VarintLenExact(|v.text|);
    case Flag =>
    case Opt(e) => if v.VSome? { ExactLength(e, v.v); }
    case Pair(a, b) => ExactLength(a, v.a); ExactLength(b, v.b);
    case Vec(e, _) => VarintLenExact(Count(v.items)); ExactItems(e, v.items);
    case Record(wrapped, fs) =>
      ExactFields(fs, v.items);
      FrameLength(wrapped, EncodeFields(fs, v.items));
    case Enum(wrapped, cs, _) =>
      ExactCase(cs, v.tag, v.items);
      FrameLength(wrapped, [v.tag] + EncodeCase(cs, v.tag, v.items));
  }

  lemma {:induction false} ExactItems(e: Schema, vs: Values)
    requires TypedItems(e, vs) && LenItems(e, vs) <= MAX_LEN
    ensures |EncodeItems(e, vs)| == LenItems(e, vs)
    decreases e, Count(vs) + 1
  {
    if vs.Cons? {
      ExactLength(e, vs.head);
      ExactItems(e, vs.tail);
    }
  }

  lemma {:induction false} ExactFields(fs: Fields, vs: Values)
    requires TypedFields(fs, vs) && LenFields(fs, vs) <= MAX_LEN
    ensures |EncodeFields(fs, vs)| == LenFields(fs, vs)
    decreases fs, 0
  {
    if fs.FCons? {
      if !fs.kind.Skipped? { ExactLength(fs.schema, vs.head); }
      ExactFields(fs.rest, vs.tail);
    }
  }

  lemma {:induction false} ExactCase(cs: Cases, tag: byte, vs: Values)
    requires TypedCase(cs, tag, vs) && LenCase(cs, tag, vs) <= MAX_LEN
    ensures |EncodeCase(cs, tag, vs)| == LenCase(cs, tag, vs)
    decreases cs, 0
  {
    if cs.tag == tag { ExactFields(cs.fields, vs); } else { ExactCase(cs.rest, tag, vs); }
  }

  // ----- buffers -----

  lemma Associative(a: seq<byte>, b: seq<byte>, c: seq<byte>)
    ensures (a + b) + c == a + (b + c)
  {}

  lemma SuffixTrans(a: seq<byte>, b: seq<byte>, c: seq<byte>)
    requires IsSuffix(a, b) && IsSuffix(b, c)
    ensures IsSuffix(a, c)
  {
    assert c[|c| - |a|..] == c[|c| - |b|..][|b| - |a|..];
  }

  lemma FixedSuffix(w: nat, b: seq<byte>)
    ensures IsSuffix(DecodeFixed(w, b).rest, b)
  {}

  lemma OpenSuffix(b: seq<byte>)
    ensures OpenFrame(b).Opened? ==> IsSuffix(OpenFrame(b).after, b)
    ensures OpenFrame(b).Unopened? ==> IsSuffix(OpenFrame(b).rest, b)
  {
    var r := DecodeVarint(b);
    if OpenFrame(b).Opened? {
      HeaderFits(r.value);
      assert OpenFrame(b).after == r.rest[|r.rest| - |OpenFrame(b).after|..];
      SuffixTrans(OpenFrame(b).after, r.rest, b);
    }
  }

  /** On any bytes, a decoder that succeeds or fails only ever moves forward in its buffer. */
  lemma {:induction false} DecodeSuffix(s: Schema, b: seq<byte>)
    ensures IsSuffix(Decode(s, b).rest, b)
    decreases s, 0
  {
    match s
    case Fixed(w) => FixedSuffix(w, b);
    case Var =>
    case Text => TextSuffix(b);
    case Flag => FixedSuffix(1, b);
    case Opt(e) =>
      FixedSuffix(1, b);
      var rest := DecodeFixed(1, b).rest;
      DecodeSuffix(e, rest);
      SuffixTrans(Decode(e, rest).rest, rest, b);
    case Pair(x, y) =>
      DecodeSuffix(x, b);
      var rest := Decode(x, b).rest;
      DecodeSuffix(y, rest);
      SuffixTrans(Decode(y, rest).rest, rest, b);
    case Vec(e, _) =>
      var r := DecodeVarint(b);
      if r.Ok? {
        ItemsSuffix(e, r.value, r.rest);
        SuffixTrans(DecodeItems(e, r.value, r.rest).rest, r.rest, b);
      }
    case Record(wrapped, fs) =>
      if wrapped { OpenSuffix(b); } else { FieldsSuffix(fs, b); }
    case Enum(wrapped, cs, other) =>
      if wrapped { OpenSuffix(b); } else { TaggedSuffix(cs, other, b); }
  }

  lemma TextSuffix(b: seq<byte>)
    ensures IsSuffix(DecodeText(b).rest, b)
  {
    var r := DecodeVarint(b);
    if r.Ok? && r.value <= |r.rest| { SuffixTrans(r.rest[r.value..], r.rest, b); }
  }

  lemma {:induction false} ItemsSuffix(e: Schema, n: nat, b: seq<byte>)
    ensures IsSuffix(DecodeItems(e, n, b).rest, b)
    decreases e, n + 1
  {
    if n > 0 {
      DecodeSuffix(e, b);
      var rest := Decode(e, b).rest;
      ItemsSuffix(e, n - 1, rest);
      SuffixTrans(DecodeItems(e, n - 1, rest).rest, rest, b);
    }
  }

  lemma {:induction false} FieldsSuffix(fs: Fields, b: seq<byte>)
    ensures IsSuffix(DecodeFields(fs, b).rest, b)
    decreases fs, 0
  {
    if fs.FCons? {
      if fs.kind.Skipped? {
        FieldsSuffix(fs.rest, b);
      } else {
        DecodeSuffix(fs.schema, b);
        var rest := Decode(fs.schema, b).rest;
        FieldsSuffix(fs.rest, rest);
        SuffixTrans(DecodeFields(fs.rest, rest).rest, rest, b);
      }
    }
  }

  lemma TaggedSuffix(cs: Cases, other: Option<byte>, b: seq<byte>)
    ensures IsSuffix(DecodeTagged(cs, other, b).rest, b)
    decreases cs, 1
  {
    FixedSuffix(1, b);
    var r := DecodeFixed(1, b);
    if r.Ok? {
      CaseSuffix(cs, r.value, r.rest);
      var c := DecodeCase(cs, r.value, r.rest);
      if c.Some? { SuffixTrans(c.value.rest, r.rest, b); }
    }
  }

  lemma {:induction false} CaseSuffix(cs: Cases, tag: nat, b: seq<byte>)
    ensures DecodeCase(cs, tag, b).Some? ==> IsSuffix(DecodeCase(cs, tag, b).value.rest, b)
    decreases cs, 0
  {
    if cs.CCons? {
      if cs.tag == tag { FieldsSuffix(cs.fields, b); } else { CaseSuffix(cs.rest, tag, b); }
    }
  }

  // ----- frames -----

  predicate Wrapped(s: Schema) {
    (s.Record? || s.Enum?) && s.wrapped
  }

  /** What a decoder of a wrapped type makes of the bytes inside a frame. */
  function DecodeInner(s: Schema, inner: seq<byte>): Decoded<Value>
    requires Wrapped(s)
  {
    if s.Record? then RecordOf(DecodeFields(s.fields, inner))
    else DecodeTagged(s.cases, s.other, inner)
  }

  ghost function Body(s: Schema, v: Value): seq<byte>
    requires Wrapped(s) && Typed(s, v)
  {
    if s.Record? then EncodeFields(s.fields, v.items) else [v.tag] + EncodeCase(s.cases, v.tag, v.items)
  }

  /** Resynchronisation on any bytes: when the whole announced frame is in the buffer, the
      decoder sees its body and no more, and goes on right after it however that went. The
      frame spans exactly the announced length when its header is the shortest one. */
  lemma FrameResync(s: Schema, b: seq<byte>, len: nat, r: seq<byte>)
    requires Wrapped(s) && DecodeVarint(b) == Ok(len, r) && len >= 1
    requires len - VarintLen(len) <= |r|
    ensures VarintLen(len) <= len
    ensures var n := len - VarintLen(len);
            Decode(s, b) == DecodeInner(s, r[..n]).(rest := r[n..])
    ensures |b| - |Decode(s, b).rest| == len <==> |b| - |r| == VarintLen(len)
  {
    HeaderFits(len);
  }

  /** len_wrapped_decode: what a frame's decoder makes of any bytes. */
  function Framed(s: Schema, b: seq<byte>): Decoded<Value>
    requires Wrapped(s)
  {
    match OpenFrame(b)
    case Unopened(e, rest) => Err(e, rest)
    case Opened(inner, after) => CloseFrame(DecodeInner(s, inner), after)
  }

  lemma DecodeIsFramed(s: Schema, b: seq<byte>)
    requires Wrapped(s)
    ensures Decode(s, b) == Framed(s, b)
  {
    match OpenFrame(b)
    case Unopened(_, _) =>
    case Opened(inner, after) => DecodeFramed(s, b, inner, after);
  }

  lemma DecodeFramed(s: Schema, b: seq<byte>, inner: seq<byte>, after: seq<byte>)
    requires Wrapped(s) && OpenFrame(b) == Opened(inner, after)
    ensures Decode(s, b) == CloseFrame(DecodeInner(s, inner), after)
  {
    if s.Record? {
      assert Decode(s, b) == CloseFrame(RecordOf(DecodeFields(s.fields, inner)), after);
    } else {
      assert Decode(s, b) == CloseFrame(DecodeTagged(s.cases, s.other, inner), after);
    }
  }

  lemma FrameOpens(body: seq<byte>, rest: seq<byte>)
    requires |body| + 20 < U64
    ensures OpenFrame(Frame(true, LenWrappedLen(|body|), body) + rest) == Opened(body, rest)
  {
    var len := LenWrappedLen(|body|);
    LenWrappedFixpoint(|body|);
    assert Frame(true, len, body) + rest == VarintBytes(len) + (body + rest);
    VarintRoundTrip(len, body + rest);
    assert (body + rest)[..|body|] == body && (body + rest)[|body|..] == rest;
  }

  lemma FrameOpensEncoded(s: Schema, v: Value, rest: seq<byte>)
    requires Wrapped(s) && Typed(s, v) && EncodedLen(s, v) <= MAX_LEN
    ensures OpenFrame(Encode(s, v) + rest) == Opened(Body(s, v), rest)
  {
    var body := Body(s, v);
    if s.Record? { ExactFields(s.fields, v.items); } else { ExactCase(s.cases, v.tag, v.items); }
    assert Encode(s, v) == Frame(true, LenWrappedLen(|body|), body);
    FrameOpens(body, rest);
  }

  /** A frame is self-contained: a reader with any other wrapped type, related to the
      writer's or not, sees the body only and leaves exactly what follows the frame. */
  lemma FrameIndependent(w: Schema, r: Schema, v: Value, rest: seq<byte>)
    requires Wrapped(w) && Typed(w, v) && EncodedLen(w, v) <= MAX_LEN && Wrapped(r)
    ensures Decode(r, Encode(w, v) + rest) == DecodeInner(r, Body(w, v)).(rest := rest)
  {
    var b := Encode(w, v) + rest;
    assert OpenFrame(b) == Opened(Body(w, v), rest) by { FrameOpensEncoded(w, v, rest); }
    DecodeFramed(r, b, Body(w, v), rest);
  }

  datatype Message = Message(schema: Schema, value: Value)

  ghost predicate Sendable(m: Message) {
    Wrapped(m.schema) && Typed(m.schema, m.value) && EncodedLen(m.schema, m.value) <= MAX_LEN
  }

  ghost predicate AllSendable(ms: seq<Message>) {
    forall i | 0 <= i < |ms| :: Sendable(ms[i])
  }

  ghost function Stream(ms: seq<Message>): seq<byte>
    requires AllSendable(ms)
  {
    if ms == [] then [] else Sent(ms[0]) + Stream(ms[1..])
  }

  /** Decode one value after another, going on after failures. */
  function DecodeStream(readers: seq<Schema>, b: seq<byte>): (seq<Decoded<Value>>, seq<byte>) {
    if readers == [] then ([], b) else
      var d := Decode(readers[0], b);
      var (ds, rest) := DecodeStream(readers[1..], d.rest);
      ([d] + ds, rest)
  }

  /** The same value or the same error, wherever decoding stopped. */
  predicate SameOutcome(d: Decoded<Value>, e: Decoded<Value>) {
    if e.Ok? then d.Ok? && d.value == e.value else d.Err? && d.error == e.error
  }

  ghost function Sent(m: Message): seq<byte>
    requires Sendable(m)
  {
    Encode(m.schema, m.value)
  }

  lemma OneOfStream(m: Message, r: Schema, more: seq<byte>)
    requires Sendable(m) && Wrapped(r)
    ensures Decode(r, Sent(m) + more).rest == more
    ensures SameOutcome(Decode(r, Sent(m) + more), Decode(r, Sent(m)))
  {
    FrameIndependent(m.schema, r, m.value, more);
    FrameIndependent(m.schema, r, m.value, []);
    assert Sent(m) + [] == Sent(m);
  }

  lemma StreamCons(ms: seq<Message>, rest: seq<byte>)
    requires ms != [] && AllSendable(ms)
    ensures Stream(ms) + rest == Sent(ms[0]) + (Stream(ms[1..]) + rest)
  {
    Associative(Sent(ms[0]), Stream(ms[1..]), rest);
  }

  /** Readers that fail on some messages of a stream still read every other message as if it
      were alone, and end where the stream ends. */
  lemma {:induction false} StreamResync(ms: seq<Message>, readers: seq<Schema>, rest: seq<byte>)
    requires AllSendable(ms)
    requires |readers| == |ms| && forall i | 0 <= i < |readers| :: Wrapped(readers[i])
    ensures var (ds, left) := DecodeStream(readers, Stream(ms) + rest);
            left == rest && |ds| == |ms| &&
            forall i | 0 <= i < |ms| :: SameOutcome(ds[i], Decode(readers[i], Sent(ms[i])))
  {
    if ms != [] {
      var more := Stream(ms[1..]) + rest;
      StreamCons(ms, rest);
      OneOfStream(ms[0], readers[0], more);
      StreamResync(ms[1..], readers[1..], rest);
    }
  }

  // ----- decoding from nothing -----

  /** Whether a decoder needs at least one byte; only records without frames may not. */
  predicate Needy(s: Schema)
    decreases s
  {
    match s
    case Fixed(w) => w > 0
    case Pair(a, b) => Needy(a) || Needy(b)
    case Record(wrapped, fs) => wrapped || !AllOptional(fs)
    case _ => true
  }

  predicate AllOptional(fs: Fields)
    decreases fs
  {
    fs.FNil? || ((!fs.kind.Required? || !Needy(fs.schema)) && AllOptional(fs.rest))
  }

  function EmptyValue(s: Schema): Value
    requires !Needy(s)
    decreases s
  {
    match s
    case Fixed(_) => VInt(0)
    case Pair(a, b) => VPair(EmptyValue(a), EmptyValue(b))
    case Record(_, fs) => VRecord(Fill(fs))
  }

  /** The values optional fields take when the buffer is exhausted: the default, unless the
      field's type can be decoded from nothing. */
  function Fill(fs: Fields): Values
    requires AllOptional(fs)
    decreases fs
  {
    match fs
    case FNil => Nil
    case FCons(k, s, d, rest) => Cons(if k.Skipped? || Needy(s) then d else EmptyValue(s), Fill(rest))
  }

  lemma {:induction false} DecodeEmpty(s: Schema)
    ensures Decode(s, []) == if Needy(s) then Err(BufferShort, []) else Ok(EmptyValue(s), [])
    decreases s
  {
    match s
    case Pair(a, b) => DecodeEmpty(a); DecodeEmpty(b);
    case Record(wrapped, fs) => DecodeFieldsEmpty(fs);
    case _ =>
  }

  /** On an exhausted buffer a record decodes exactly when each field may be missing. */
  lemma {:induction false} DecodeFieldsEmpty(fs: Fields)
    ensures DecodeFields(fs, []) == if AllOptional(fs) then Ok(Fill(fs), []) else Err(BufferShort, [])
    decreases fs
  {
    if fs.FCons? {
      DecodeEmpty(fs.schema);
      DecodeFieldsEmpty(fs.rest);
    }
  }

  /** On an exhausted buffer a field marked default takes its default exactly when its type
      needs a byte or decodes from nothing to that very value. */
  lemma DefaultTakenIff(s: Schema, d: Value)
    ensures var r := DecodeFields(FCons(Defaulted, s, d, FNil), []);
            r.Ok? && r.rest == [] && (r.value == Cons(d, Nil) <==> Needy(s) || EmptyValue(s) == d)
  {
    var fs := FCons(Defaulted, s, d, FNil);
    assert AllOptional(FNil) && AllOptional(fs) && Fill(FNil) == Nil;
    DecodeFieldsEmpty(fs);
  }

  /** A record without a frame whose one flag is false by default, as a field whose default has
      the flag set: the flag comes back false. */
  lemma DefaultNotTaken()
    ensures var s := Record(false, FCons(Defaulted, Flag, VBool(false), FNil));
            var d := VRecord(Cons(VBool(true), Nil));
            Typed(s, d) && !Needy(s) && EmptyValue(s) == VRecord(Cons(VBool(false), Nil)) &&
            DecodeFields(FCons(Defaulted, s, d, FNil), []).Ok? &&
            DecodeFields(FCons(Defaulted, s, d, FNil), []).value != Cons(d, Nil)
  {
    var inner := FCons(Defaulted, Flag, VBool(false), FNil);
    var s := Record(false, inner);
    var d := VRecord(Cons(VBool(true), Nil));
    assert TypedFields(FNil, Nil) && Typed(Flag, VBool(true));
    assert TypedFields(inner, Cons(VBool(true), Nil));
    assert AllOptional(FNil) && AllOptional(inner) && Fill(FNil) == Nil;
    assert Fill(inner) == Cons(VBool(false), Nil);
    DefaultTakenIff(s, d);
  }

  // ----- the loops -----

  lemma {:induction false} InnerSuffix(s: Schema, b: seq<byte>)
    requires Wrapped(s)
    ensures IsSuffix(DecodeInner(s, b).rest, b)
  {
    if s.Record? { FieldsSuffix(s.fields, b); } else { TaggedSuffix(s.cases, s.other, b); }
  }

  /** len_wrapped_decode over a buffer is the decoder of a wrapped type. */
  method LenWrappedDecode(s: Schema, buf: Buffer) returns (r: Decoded<Value>)
    requires Wrapped(s)
    modifies buf
    ensures r == Decode(s, old(buf.bytes)) && buf.bytes == r.rest
  {
    DecodeIsFramed(s, buf.bytes);
    r := TakeFrame(s, buf);
  }

  /** Limit the buffer to the frame, decode, then drop what is left of the frame. */
  method TakeFrame(s: Schema, buf: Buffer) returns (r: Decoded<Value>)
    requires Wrapped(s)
    modifies buf
    ensures r == Framed(s, old(buf.bytes)) && buf.bytes == r.rest
  {
    ghost var b := buf.bytes;
    var header := DecodeVarintLoop(buf);
    if header.Err? {
      return Err(header.error, header.rest);
    }
    var len := header.value;
    if len < 1 {
      return Err(BufferShort, buf.bytes);
    }
    HeaderFits(len);
    var take := len - VarintLen(len);
    var limit := if take <= |buf.bytes| then take else |buf.bytes|;
    var inner := DecodeInner(s, buf.bytes[..limit]);
    InnerSuffix(s, buf.bytes[..limit]);
    var left := |inner.rest|;
    SliceTwice(header.rest, limit - left, left);
    buf.Advance(limit - left);
    if left > 0 {
      buf.Advance(left);
    }
    assert buf.bytes == header.rest[limit..];
    FramedBody(s, b, limit);
    r := CloseFrame(inner, buf.bytes);
  }

  lemma FramedBody(s: Schema, b: seq<byte>, limit: nat)
    requires Wrapped(s) && DecodeVarint(b).Ok? && DecodeVarint(b).value >= 1
    requires var h := DecodeVarint(b);
             var n := h.value - VarintLen(h.value);
             limit == if n <= |h.rest| then n else |h.rest|
    ensures Framed(s, b) ==
            CloseFrame(DecodeInner(s, DecodeVarint(b).rest[..limit]), DecodeVarint(b).rest[limit..])
  {
    var h := DecodeVarint(b);
    HeaderFits(h.value);
    assert limit == |h.rest| ==> h.rest[..limit] == h.rest && h.rest[limit..] == [];
  }

  lemma SliceTwice(b: seq<byte>, m: nat, n: nat)
    requires m + n <= |b|
    ensures b[m..][n..] == b[m + n..]
  {}

  function Pushed(data: Values, d: Decoded<Values>): Decoded<Values> {
    match d
    case Ok(vs, rest) => Ok(Concat(data, vs), rest)
    case Err(e, rest) => Err(e, rest)
  }

  lemma PushStep(e: Schema, n: nat, b: seq<byte>, data: Values, x: Decoded<Value>, ahead: Decoded<Values>)
    requires n > 0 && ahead == DecodeItems(e, n, b) && x == Decode(e, b)
    ensures x.Ok? ==> Pushed(data, ahead) == Pushed(Push(data, x.value), DecodeItems(e, n - 1, x.rest))
    ensures x.Err? ==> Pushed(data, ahead) == Err(x.error, x.rest)
  {
    if x.Ok? {
      var d := DecodeItems(e, n - 1, x.rest);
      if d.Ok? { PushConcat(data, x.value, d.value); }
    }
  }

  lemma {:induction false} ConcatNil(vs: Values)
    ensures Concat(vs, Nil) == vs
  {
    if vs.Cons? { ConcatNil(vs.tail); }
  }

  method DecodeValue(s: Schema, buf: Buffer) returns (r: Decoded<Value>)
    modifies buf
    ensures r == Decode(s, old(buf.bytes)) && buf.bytes == r.rest
  {
    r := Decode(s, buf.bytes);
    DecodeSuffix(s, buf.bytes);
    buf.Advance(|buf.bytes| - |r.rest|);
  }

  /** The loop of decode for Vec: push elements until the count is met or one fails. */
  method DecodeElements(e: Schema, elts: nat, buf: Buffer) returns (r: Decoded<Values>)
    modifies buf
    ensures r == DecodeItems(e, elts, old(buf.bytes)) && buf.bytes == r.rest
  {
    var data := Nil;
    ghost var all := DecodeItems(e, elts, buf.bytes);
    ghost var ahead, left := all, elts;
    for i := 0 to elts
      invariant left == elts - i
      invariant ahead == DecodeItems(e, left, buf.bytes)
      invariant Pushed(data, ahead) == all
    {
      ghost var b := buf.bytes;
      var x := DecodeValue(e, buf);
      PushStep(e, left, b, data, x, ahead);
      if x.Err? {
        return Err(x.error, x.rest);
      }
      data := Push(data, x.value);
      left := left - 1;
      ahead := DecodeItems(e, left, x.rest);
    }
    ConcatNil(data);
    r := Ok(data, buf.bytes);
  }

  method DecodeVec(e: Schema, size: nat, buf: Buffer) returns (r: Decoded<Value>)
    modifies buf
    ensures r == Decode(Vec(e, size), old(buf.bytes)) && buf.bytes == r.rest
  {
    var header := DecodeVarintLoop(buf);
    if header.Err? {
      return Err(header.error, header.rest);
    }
    if TooMany(header.value, size, |buf.bytes|) {
      return Err(TooBig, buf.bytes);
    }
    var items := DecodeElements(e, header.value, buf);
    r := VecOf(items);
  }

  // ----- values encode refuses -----

  /** encode fails with TooBig on a vector of more than MAX_VEC bytes of elements in memory,
      and otherwise writes the bytes of Encode. */
  ghost predicate Encodable(s: Schema, v: Value)
    requires Typed(s, v)
    decreases s, 0
  {
    match s
    case Opt(e) => v.VNone? || Encodable(e, v.v)
    case Pair(a, b) => Encodable(a, v.a) && Encodable(b, v.b)
    case Vec(e, size) => Times(Count(v.items), size) <= MAX_VEC && EncodableItems(e, v.items)
    case Record(_, fs) => EncodableFields(fs, v.items)
    case Enum(_, cs, _) => EncodableCase(cs, v.tag, v.items)
    case _ => true
  }

  ghost predicate EncodableItems(e: Schema, vs: Values)
    requires TypedItems(e, vs)
    decreases e, Count(vs) + 1
  {
    vs.Nil? || (Encodable(e, vs.head) && EncodableItems(e, vs.tail))
  }

  ghost predicate EncodableFields(fs: Fields, vs: Values)
    requires TypedFields(fs, vs)
    decreases fs, 0
  {
    fs.FNil? || ((fs.kind.Skipped? || Encodable(fs.schema, vs.head)) && EncodableFields(fs.rest, vs.tail))
  }

  ghost predicate EncodableCase(cs: Cases, tag: byte, vs: Values)
    requires TypedCase(cs, tag, vs)
    decreases cs, 0
  {
    if cs.tag == tag then EncodableFields(cs.fields, vs) else EncodableCase(cs.rest, tag, vs)
  }

  // ----- decoders return values of their type -----

  /** Defaults have their field's type, and the other case is a unit case of the enum. */
  ghost predicate Sound(s: Schema)
    decreases s
  {
    match s
    case Opt(e) => Sound(e)
    case Pair(a, b) => Sound(a) && Sound(b)
    case Vec(e, _) => Sound(e)
    case Record(_, fs) => SoundFields(fs)
    case Enum(_, cs, other) => SoundCases(cs) && (other.Some? ==> TypedCase(cs, other.value, Nil))
    case _ => true
  }

  ghost predicate SoundFields(fs: Fields)
    decreases fs
  {
    fs.FNil? || (Sound(fs.schema) && Typed(fs.schema, fs.default) && SoundFields(fs.rest))
  }

  ghost predicate SoundCases(cs: Cases)
    decreases cs
  {
    cs.CNil? || (SoundFields(cs.fields) && SoundCases(cs.rest))
  }

  lemma {:induction false} FromBigEndianBound(b: seq<byte>)
    ensures FromBigEndian(b) < Pow256(|b|)
  {
    if b != [] { FromBigEndianBound(b[..|b| - 1]); }
  }

  /** Whatever the bytes, a decoder that succeeds returns a value of its type. */
  lemma {:induction false} DecodeTyped(s: Schema, b: seq<byte>)
    requires Sound(s)
    ensures Decode(s, b).Ok? ==> Typed(s, Decode(s, b).value)
    decreases s, 0
  {
    match s
    case Fixed(w) => if |b| >= w { FromBigEndianBound(b[..w]); }
    case Var =>
    case Text =>
    case Flag =>
    case Opt(e) => DecodeTyped(e, DecodeFixed(1, b).rest);
    case Pair(x, y) => DecodeTyped(x, b); DecodeTyped(y, Decode(x, b).rest);
    case Vec(e, _) => if DecodeVarint(b).Ok? { ItemsTyped(e, DecodeVarint(b).value, DecodeVarint(b).rest); }
    case Record(wrapped, fs) =>
      if !wrapped { FieldsTyped(fs, b); }
      else if OpenFrame(b).Opened? { FieldsTyped(fs, OpenFrame(b).inner); }
    case Enum(wrapped, cs, other) =>
      if !wrapped { TaggedTyped(cs, other, b); }
      else if OpenFrame(b).Opened? { TaggedTyped(cs, other, OpenFrame(b).inner); }
  }

  lemma {:induction false} ItemsTyped(e: Schema, n: nat, b: seq<byte>)
    requires Sound(e)
    ensures DecodeItems(e, n, b).Ok? ==>
              TypedItems(e, DecodeItems(e, n, b).value) && Count(DecodeItems(e, n, b).value) == n
    decreases e, n + 1
  {
    if n > 0 {
      DecodeTyped(e, b);
      ItemsTyped(e, n - 1, Decode(e, b).rest);
    }
  }

  lemma {:induction false} FieldsTyped(fs: Fields, b: seq<byte>)
    requires SoundFields(fs)
    ensures DecodeFields(fs, b).Ok? ==> TypedFields(fs, DecodeFields(fs, b).value)
    decreases fs, 0
  {
    if fs.FCons? {
      if fs.kind.Skipped? {
        FieldsTyped(fs.rest, b);
      } else {
        DecodeTyped(fs.schema, b);
        FieldsTyped(fs.rest, Decode(fs.schema, b).rest);
      }
    }
  }

  lemma TaggedTyped(cs: Cases, other: Option<byte>, b: seq<byte>)
    requires SoundCases(cs) && (other.Some? ==> TypedCase(cs, other.value, Nil))
    ensures var d := DecodeTagged(cs, other, b);
            d.Ok? ==> d.value.VEnum? && TypedCase(cs, d.value.tag, d.value.items)
    decreases cs, 1
  {
    var t := DecodeFixed(1, b);
    if t.Ok? { CaseTyped(cs, t.value, t.rest); }
  }

  lemma {:induction false} CaseTyped(cs: Cases, tag: nat, b: seq<byte>)
    requires SoundCases(cs)
    ensures var d := DecodeCase(cs, tag, b);
            d.Some? && d.value.Ok? ==>
              d.value.value.VEnum? && d.value.value.tag == tag && TypedCase(cs, tag, d.value.value.items)
    decreases cs, 0
  {
    if cs.CCons? {
      if cs.tag == tag { FieldsTyped(cs.fields, b); } else { CaseTyped(cs.rest, tag, b); }
    }
  }
}
