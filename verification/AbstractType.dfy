/** Abstract values, extensible by UUID, after netidx-value/src/abstract_type.rs. */
module AbstractType {
  import opened Bytes
  import opened Varint
  import opened Pack
  import opened Evolution

  type Uuid = n: nat | n < Pow256(16)

  type TypeId = nat

  /** How a registered type is packed; UnknownAbstractType takes all there is. */
  datatype Codec = Opaque | Packed(schema: Schema)

  datatype Vtable = Vtable(tid: TypeId, codec: Codec)

  /** The boxed content: the raw bytes of an UnknownAbstractType, or a known type's value. */
  datatype Content = Raw(bytes: seq<byte>) | Known(value: Value)

  datatype Abstract = Abstract(id: Uuid, vtable: Vtable, content: Content)

  lemma UnknownIdFits()
    ensures 0xc39b292bfb9446a6817696b15e7beb17 < Pow256(16)
  {
    assert Pow256(4) == 0x1_0000_0000;
    assert Pow256(8) == 0x1_0000_0000_0000_0000;
    assert Pow256(12) == 0x1_0000_0000_0000_0000_0000_0000;
  }

  function UnknownId(): Uuid {
    UnknownIdFits();
    0xc39b292bfb9446a6817696b15e7beb17
  }

  /** Its bytes on the wire. */
  lemma UnknownIdBytes(n: nat)
    requires n == UnknownId()
    ensures BigEndian(16, n) == [195, 155, 41, 43, 251, 148, 70, 166, 129, 118, 150, 177, 94, 123, 235, 23]
  {
    var c := n / 0x1_0000_0000;
    var b := c / 0x1_0000_0000;
    var a := b / 0x1_0000_0000;
    IdBytes(a, b, c, n);
  }

  lemma IdBytes(a: nat, b: nat, c: nat, n: nat)
    requires a == 0xc39b292b && b == a * 0x1_0000_0000 + 0xfb9446a6
    requires c == b * 0x1_0000_0000 + 0x817696b1 && n == c * 0x1_0000_0000 + 0x5e7beb17
    ensures BigEndian(16, n) == [195, 155, 41, 43, 251, 148, 70, 166, 129, 118, 150, 177, 94, 123, 235, 23]
  {
    var none: seq<byte>, z: nat := [], 0;
    assert BigEndian(z, z) == none;
    FourBytes(0, z, 195, 155, 41, 43);
    FourBytes(4, a, 251, 148, 70, 166);
    FourBytes(8, b, 129, 118, 150, 177);
    FourBytes(12, c, 94, 123, 235, 23);
  }

  lemma NextByte(w: nat, n: nat, x: byte)
    ensures BigEndian(w + 1, n * 256 + x) == BigEndian(w, n) + [x]
  {}

  lemma FourBytes(w: nat, n: nat, a: byte, b: byte, c: byte, d: byte)
    ensures BigEndian(w + 4, n * 0x1_0000_0000 + a * 0x100_0000 + b * 0x1_0000 + c * 0x100 + d) ==
            BigEndian(w, n) + [a, b, c, d]
  {
    var p, q, r := n * 256 + a, (n * 256 + a) * 256 + b, ((n * 256 + a) * 256 + b) * 256 + c;
    NextByte(w, n, a);
    NextByte(w + 1, p, b);
    NextByte(w + 2, q, c);
    NextByte(w + 3, r, d);
    assert r * 256 + d == n * 0x1_0000_0000 + a * 0x100_0000 + b * 0x1_0000 + c * 0x100 + d;
    assert BigEndian(w, n) + [a] + [b] + [c] + [d] == BigEndian(w, n) + [a, b, c, d];
  }

  const UNKNOWN: Vtable := Vtable(0, Opaque)

  // ----- the registry -----

  datatype RegistryError = IdTaken | TypeTaken

  datatype Registered = Accepted(vtable: Vtable) | Refused(error: RegistryError)

  datatype Tables = Tables(byUuid: map<Uuid, Vtable>, byTid: map<TypeId, Uuid>)

  /** Ids and types are in one-to-one correspondence. */
  ghost predicate Inverse(t: Tables) {
    && (forall id <- t.byUuid :: t.byUuid[id].tid in t.byTid && t.byTid[t.byUuid[id].tid] == id)
    && (forall tid <- t.byTid :: t.byTid[tid] in t.byUuid && t.byUuid[t.byTid[tid]].tid == tid)
  }

  class Registry {
    var byUuid: map<Uuid, Vtable>
    var byTid: map<TypeId, Uuid>

    ghost function Contents(): Tables
      reads this
    {
      Tables(byUuid, byTid)
    }

    constructor ()
      ensures Contents() == Initial()
    {
      byUuid := map[];
      byTid := map[];
      new;
      var _ := Insert(UnknownId(), UNKNOWN);
    }

    method Insert(id: Uuid, vt: Vtable) returns (r: Registered)
      modifies this
      ensures Contents() == Register(old(Contents()), id, vt)
      ensures r == Answer(old(Contents()), id, vt)
    {
      if id in byUuid {
        if byUuid[id].tid != vt.tid {
          return Refused(IdTaken);
        }
        return Accepted(byUuid[id]);
      }
      if vt.tid in byTid {
        return Refused(TypeTaken);
      }
      byTid := byTid[vt.tid := id];
      byUuid := byUuid[id := vt];
      r := Accepted(vt);
    }
  }

  function Register(t: Tables, id: Uuid, vt: Vtable): Tables {
    if id in t.byUuid || vt.tid in t.byTid then t
    else Tables(t.byUuid[id := vt], t.byTid[vt.tid := id])
  }

  function Answer(t: Tables, id: Uuid, vt: Vtable): Registered {
    if id in t.byUuid then
      if t.byUuid[id].tid == vt.tid then Accepted(t.byUuid[id]) else Refused(IdTaken)
    else if vt.tid in t.byTid then Refused(TypeTaken)
    else Accepted(vt)
  }

  function Initial(): Tables {
    Register(Tables(map[], map[]), UnknownId(), UNKNOWN)
  }

  function RegisterAll(t: Tables, calls: seq<(Uuid, Vtable)>): Tables
    decreases calls
  {
    if calls == [] then t else RegisterAll(Register(t, calls[0].0, calls[0].1), calls[1..])
  }

  /** A type stands for one way of packing, wherever it is registered. */
  ghost predicate OneCodec(t: Tables, vt: Vtable) {
    vt.tid in t.byTid && t.byTid[vt.tid] in t.byUuid ==> t.byUuid[t.byTid[vt.tid]] == vt
  }

  /** Registration succeeds exactly when it binds the id and the type to each other, it is
      idempotent, and it keeps the correspondence and all earlier bindings. */
  lemma RegisterLaws(t: Tables, id: Uuid, vt: Vtable)
    requires Inverse(t) && OneCodec(t, vt)
    ensures var u := Register(t, id, vt);
            && Inverse(u)
            && (forall i <- t.byUuid :: i in u.byUuid && u.byUuid[i] == t.byUuid[i])
            && (Answer(t, id, vt) == Accepted(vt) <==> id in u.byUuid && u.byUuid[id] == vt)
            && (Answer(t, id, vt).Refused? <==>
                (id in t.byUuid && t.byUuid[id] != vt) || (vt.tid in t.byTid && t.byTid[vt.tid] != id))
            && Register(u, id, vt) == u
            && Answer(u, id, vt) == Answer(t, id, vt)
  {}

  /** In every reachable registry ids and types correspond one to one, the first binding of an
      id stays, and unknown types stay decodable. */
  lemma {:induction false} RegistryReachable(t: Tables, calls: seq<(Uuid, Vtable)>)
    requires Inverse(t) && UnknownId() in t.byUuid && t.byUuid[UnknownId()] == UNKNOWN
    ensures var u := RegisterAll(t, calls);
            && Inverse(u)
            && (forall i <- t.byUuid :: i in u.byUuid && u.byUuid[i] == t.byUuid[i])
            && UnknownId() in u.byUuid && u.byUuid[UnknownId()] == UNKNOWN
    decreases calls
  {
    if calls != [] {
      RegistryReachable(Register(t, calls[0].0, calls[0].1), calls[1..]);
    }
  }

  // ----- packing -----

  ghost predicate Fits(a: Abstract) {
    match a.vtable.codec
    case Opaque => a.content.Raw?
    case Packed(s) => a.content.Known? && Sound(s) && WellFormed(s) && Typed(s, a.content.value)
  }

  ghost function ContentLen(a: Abstract): nat
    requires Fits(a)
  {
    match a.vtable.codec
    case Opaque => |a.content.bytes|
    case Packed(s) => EncodedLen(s, a.content.value)
  }

  ghost function ContentBytes(a: Abstract): seq<byte>
    requires Fits(a)
  {
    match a.vtable.codec
    case Opaque => a.content.bytes
    case Packed(s) => Encode(s, a.content.value)
  }

  ghost function AbstractLen(a: Abstract): nat
    requires Fits(a)
  {
    LenWrappedLen(16 + ContentLen(a))
  }

  ghost function EncodeAbstract(a: Abstract): seq<byte>
    requires Fits(a)
  {
    Frame(true, AbstractLen(a), BigEndian(16, a.id) + ContentBytes(a))
  }

  ghost predicate Usable(t: Tables) {
    && UnknownId() in t.byUuid && t.byUuid[UnknownId()] == UNKNOWN
    && forall id <- t.byUuid :: t.byUuid[id].codec.Packed? ==>
         Sound(t.byUuid[id].codec.schema) && WellFormed(t.byUuid[id].codec.schema)
  }

  function DecodeContent(t: Tables, id: Uuid, b: seq<byte>): Decoded<Abstract>
    requires UnknownId() in t.byUuid
  {
    if id !in t.byUuid then Ok(Abstract(id, t.byUuid[UnknownId()], Raw(b)), [])
    else match t.byUuid[id].codec
      case Opaque => Ok(Abstract(id, t.byUuid[id], Raw(b)), [])
      case Packed(s) =>
        match Decode(s, b)
        case Ok(v, rest) => Ok(Abstract(id, t.byUuid[id], Known(v)), rest)
        case Err(e, rest) => Err(e, rest)
  }

  function DecodeBody(t: Tables, inner: seq<byte>): Decoded<Abstract>
    requires UnknownId() in t.byUuid
  {
    if |inner| < 16 then Err(BufferShort, inner)
    else
      FromBigEndianBound(inner[..16]);
      DecodeContent(t, FromBigEndian(inner[..16]), inner[16..])
  }

  function DecodeAbstract(t: Tables, b: seq<byte>): Decoded<Abstract>
    requires UnknownId() in t.byUuid
  {
    match OpenFrame(b)
    case Unopened(e, rest) => Err(e, rest)
    case Opened(inner, after) => CloseFrame(DecodeBody(t, inner), after)
  }

  /** What a program that receives and forwards the bytes sends on. */
  ghost function Hop(t: Tables, b: seq<byte>): Option<seq<byte>>
    requires Usable(t)
  {
    match DecodeAbstract(t, b)
    case Err(_, _) => None
    case Ok(a, _) =>
      DecodeFits(t, b);
      Some(EncodeAbstract(a))
  }

  ghost function Relay(ts: seq<Tables>, b: seq<byte>): Option<seq<byte>>
    requires forall i | 0 <= i < |ts| :: Usable(ts[i])
  {
    if ts == [] then Some(b)
    else match Hop(ts[0], b)
      case None => None
      case Some(c) => Relay(ts[1..], c)
  }

  lemma DecodeFits(t: Tables, b: seq<byte>)
    requires Usable(t)
    ensures DecodeAbstract(t, b).Ok? ==> Fits(DecodeAbstract(t, b).value)
  {
    if OpenFrame(b).Opened? && |OpenFrame(b).inner| >= 16 {
      var inner := OpenFrame(b).inner;
      var id := FromBigEndian(inner[..16]);
      if id in t.byUuid && t.byUuid[id].codec.Packed? {
        DecodeTyped(t.byUuid[id].codec.schema, inner[16..]);
      }
    }
  }

  lemma BodyLength(a: Abstract)
    requires Fits(a) && AbstractLen(a) <= MAX_LEN
    ensures |BigEndian(16, a.id) + ContentBytes(a)| == 16 + ContentLen(a)
  {
    if a.vtable.codec.Packed? { ExactLength(a.vtable.codec.schema, a.content.value); }
  }

  lemma DecodeEncoded(t: Tables, a: Abstract, rest: seq<byte>)
    requires UnknownId() in t.byUuid && Fits(a) && AbstractLen(a) <= MAX_LEN
    ensures DecodeAbstract(t, EncodeAbstract(a) + rest) ==
            CloseFrame(DecodeContent(t, a.id, ContentBytes(a)), rest)
  {
    var body := BigEndian(16, a.id) + ContentBytes(a);
    BodyLength(a);
    FrameOpens(body, rest);
    assert body[..16] == BigEndian(16, a.id) && body[16..] == ContentBytes(a);
    BigEndianRoundTrip(16, a.id);
  }

  /** The program does not know the id, or knows it as the very same type. */
  ghost predicate Transparent(t: Tables, a: Abstract) {
    a.id in t.byUuid ==> t.byUuid[a.id].codec == Opaque || t.byUuid[a.id].codec == a.vtable.codec
  }

  ghost predicate Accepts(t: Tables, a: Abstract)
    requires Fits(a)
  {
    a.id in t.byUuid && t.byUuid[a.id].codec.Packed? && t.byUuid[a.id].codec == a.vtable.codec ==>
      Sized(a.vtable.codec.schema, a.content.value, 0)
  }

  /** A transparent program sends on the very bytes it received, unless it knows the type and
      the value fails its size check. */
  lemma HopIdentical(t: Tables, a: Abstract)
    requires Usable(t) && Fits(a) && AbstractLen(a) <= MAX_LEN && Transparent(t, a)
    ensures Hop(t, EncodeAbstract(a)) == if Accepts(t, a) then Some(EncodeAbstract(a)) else None
  {
    var b := ContentBytes(a);
    DecodeEncoded(t, a, []);
    assert EncodeAbstract(a) + [] == EncodeAbstract(a);
    DecodeFits(t, EncodeAbstract(a));
    BodyLength(a);
    if a.id in t.byUuid && t.byUuid[a.id].codec.Packed? {
      var s, v := a.vtable.codec.schema, a.content.value;
      RoundTrip(s, v, []);
      assert b + [] == b;
      ResetBytes(s, v);
    }
  }

  /** Opaque relay: any number of programs that do not know the type, or know the same one,
      pass the frame on unchanged. */
  lemma {:induction false} RelayIdentical(ts: seq<Tables>, a: Abstract)
    requires Fits(a) && AbstractLen(a) <= MAX_LEN
    requires forall i | 0 <= i < |ts| :: Usable(ts[i]) && Transparent(ts[i], a) && Accepts(ts[i], a)
    ensures Relay(ts, EncodeAbstract(a)) == Some(EncodeAbstract(a))
  {
    if ts != [] {
      HopIdentical(ts[0], a);
      RelayIdentical(ts[1..], a);
    }
  }

  /** And a last program that knows the type, in this or another compatible version, reads
      what the sender wrote as if there had been no one in between. */
  lemma RelayRecovers(ts: seq<Tables>, last: Tables, a: Abstract, rest: seq<byte>)
    requires Fits(a) && AbstractLen(a) <= MAX_LEN && a.vtable.codec.Packed?
    requires forall i | 0 <= i < |ts| :: Usable(ts[i]) && Transparent(ts[i], a) && Accepts(ts[i], a)
    requires Usable(last) && a.id in last.byUuid && last.byUuid[a.id].codec.Packed?
    requires Compatible(a.vtable.codec.schema, last.byUuid[a.id].codec.schema)
    ensures Relay(ts, EncodeAbstract(a)).Some?
    ensures var d := DecodeAbstract(last, Relay(ts, EncodeAbstract(a)).value + rest);
            match Translate(a.vtable.codec.schema, last.byUuid[a.id].codec.schema, a.content.value, 0)
            case Good(x) => d == Ok(Abstract(a.id, last.byUuid[a.id], Known(x)), rest)
            case Oversized => d == Err(TooBig, rest)
            case Unknown => d == Err(UnknownTag, rest)
  {
    RelayIdentical(ts, a);
    DecodeEncoded(last, a, rest);
    var s, v := a.vtable.codec.schema, a.content.value;
    BodyLength(a);
    Exact(s, last.byUuid[a.id].codec.schema, v, []);
    assert Encode(s, v) + [] == Encode(s, v);
  }
}
