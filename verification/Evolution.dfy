/** What a reader makes of the bytes of a writer whose schema is an older or newer version of
    its own, after the attributes of the Pack derive in netidx-derive/src/lib.rs. */
module Evolution {
  import opened Bytes
  import opened Varint
  import opened Pack

  predicate AllSkipped(fs: Fields) {
    fs.FNil? || (fs.kind.Skipped? && AllSkipped(fs.rest))
  }

  function FindFields(cs: Cases, tag: nat): Option<Fields> {
    match cs
    case CNil => None
    case CCons(t, fs, rest) => if t == tag then Some(fs) else FindFields(rest, tag)
  }

  /** The reader's schema is a version of the writer's: the same shape, except that a wrapped
      record or case may end in fields the other side does not have, the reader's extra ones
      being optional, that skipped fields and in-memory sizes are each side's own business,
      and that cases may be added and removed. */
  predicate Compatible(w: Schema, r: Schema)
    decreases w, 0
  {
    match w
    case Fixed(n) => r.Fixed? && r.width == n
    case Var => r.Var?
    case Text => r.Text?
    case Flag => r.Flag?
    case Opt(e) => r.Opt? && Compatible(e, r.elem)
    case Pair(a, b) => r.Pair? && Compatible(a, r.fst) && Compatible(b, r.snd)
    case Vec(e, _) => r.Vec? && Compatible(e, r.elem)
    case Record(wrapped, fs) => r.Record? && r.wrapped == wrapped && CompatibleFields(fs, r.fields, wrapped)
    case Enum(wrapped, cs, _) => r.Enum? && r.wrapped == wrapped && CompatibleCases(cs, r.cases, r.other, wrapped)
  }

  predicate CompatibleFields(fs: Fields, gs: Fields, wrapped: bool)
    decreases fs, gs
  {
    if gs.FNil? then wrapped || AllSkipped(fs)
    else if gs.kind.Skipped? then CompatibleFields(fs, gs.rest, wrapped)
    else if fs.FNil? then wrapped && AllOptional(gs)
    else if fs.kind.Skipped? then CompatibleFields(fs.rest, gs, wrapped)
    else Compatible(fs.schema, gs.schema) && CompatibleFields(fs.rest, gs.rest, wrapped)
  }

  /** A case the reader lacks is an unknown tag, or becomes its other case, whose leftovers
      need a frame. */
  predicate CompatibleCases(cs: Cases, ds: Cases, other: Option<byte>, wrapped: bool)
    decreases cs, 0
  {
    cs.CNil? ||
    ((match FindFields(ds, cs.tag)
      case Some(gs) => CompatibleFields(cs.fields, gs, wrapped)
      case None => other.Some? ==> wrapped || AllSkipped(cs.fields)) &&
     CompatibleCases(cs.rest, ds, other, wrapped))
  }

  /** The reader's view of a written value, or why it has none. */
  datatype Outcome<+T> = Good(value: T) | Oversized | Unknown

  function SomeOnto(o: Outcome<Value>): Outcome<Value> {
    if o.Good? then Good(VSome(o.value)) else o
  }

  function PairOnto(v: Value, o: Outcome<Value>): Outcome<Value> {
    if o.Good? then Good(VPair(v, o.value)) else o
  }

  function ConsOnto(v: Value, o: Outcome<Values>): Outcome<Values> {
    if o.Good? then Good(Cons(v, o.value)) else o
  }

  function VecOnto(o: Outcome<Values>): Outcome<Value> {
    match o
    case Good(x) => Good(VVec(x))
    case Oversized => Oversized
    case Unknown => Unknown
  }

  function RecordOnto(o: Outcome<Values>): Outcome<Value> {
    match o
    case Good(x) => Good(VRecord(x))
    case Oversized => Oversized
    case Unknown => Unknown
  }

  function EnumOnto(tag: byte, o: Outcome<Values>): Outcome<Value> {
    match o
    case Good(x) => Good(VEnum(tag, x))
    case Oversized => Oversized
    case Unknown => Unknown
  }

  /** Translate a value of the writer's schema to the reader's, when k more bytes follow in
      the same frame; no bytes are involved, but for the size check of vectors. */
  ghost function Translate(w: Schema, r: Schema, v: Value, k: nat): Outcome<Value>
    requires Typed(w, v) && Compatible(w, r)
    decreases w, 0
  {
    match w
    case Opt(e) => if v.VNone? then Good(v) else SomeOnto(Translate(e, r.elem, v.v, k))
    case Pair(a, b) =>
      (match Translate(a, r.fst, v.a, EncodedLen(b, v.b) + k)
       case Good(x) => PairOnto(x, Translate(b, r.snd, v.b, k))
       case Oversized => Oversized
       case Unknown => Unknown)
    case Vec(e, _) =>
      if TooMany(Count(v.items), r.size, LenItems(e, v.items) + k) then Oversized
      else VecOnto(TranslateItems(e, r.elem, v.items, k))
    case Record(wrapped, fs) =>
      RecordOnto(TranslateFields(fs, r.fields, wrapped, v.items, if wrapped then 0 else k))
    case Enum(wrapped, cs, _) =>
      TranslateCase(cs, r.cases, r.other, wrapped, v.tag, v.items, if wrapped then 0 else k)
    case _ => Good(v)
  }

  ghost function TranslateItems(e: Schema, r: Schema, vs: Values, k: nat): Outcome<Values>
    requires TypedItems(e, vs) && Compatible(e, r)
    decreases e, Count(vs) + 1
  {
    match vs
    case Nil => Good(Nil)
    case Cons(h, t) =>
      match Translate(e, r, h, LenItems(e, t) + k)
      case Good(x) => ConsOnto(x, TranslateItems(e, r, t, k))
      case Oversized => Oversized
      case Unknown => Unknown
  }

  ghost function TranslateFields(fs: Fields, gs: Fields, wrapped: bool, vs: Values, k: nat): Outcome<Values>
    requires TypedFields(fs, vs) && CompatibleFields(fs, gs, wrapped)
    decreases fs, gs
  {
    if gs.FNil? then Good(Nil)
    else if gs.kind.Skipped? then ConsOnto(gs.default, TranslateFields(fs, gs.rest, wrapped, vs, k))
    else if fs.FNil? then Good(Fill(gs))
    else if fs.kind.Skipped? then TranslateFields(fs.rest, gs, wrapped, vs.tail, k)
    else
      match Translate(fs.schema, gs.schema, vs.head, LenFields(fs.rest, vs.tail) + k)
      case Good(x) => ConsOnto(x, TranslateFields(fs.rest, gs.rest, wrapped, vs.tail, k))
      case Oversized => Oversized
      case Unknown => Unknown
  }

  ghost function TranslateCase(
    cs: Cases, ds: Cases, other: Option<byte>, wrapped: bool, tag: byte, vs: Values, k: nat
  ): Outcome<Value>
    requires TypedCase(cs, tag, vs) && CompatibleCases(cs, ds, other, wrapped)
    decreases cs, 0
  {
    if cs.tag != tag then TranslateCase(cs.rest, ds, other, wrapped, tag, vs, k)
    else match FindFields(ds, tag)
      case Some(gs) => EnumOnto(tag, TranslateFields(cs.fields, gs, wrapped, vs, k))
      case None => if other.Some? then Good(VEnum(other.value, Nil)) else Unknown
  }

  /** A decoder did what the translation says and stopped at rest. */
  predicate Matches<T(==)>(d: Decoded<T>, o: Outcome<T>, rest: seq<byte>) {
    match o
    case Good(v) => d == Ok(v, rest)
    case Oversized => d.Err? && d.error == TooBig
    case Unknown => d.Err? && d.error == UnknownTag
  }

  /** The same inside a frame, where it does not matter where the decoder stopped. */
  predicate MatchesFields(d: Decoded<Values>, o: Outcome<Values>, wrapped: bool, rest: seq<byte>) {
    if wrapped && o.Good? then d.Ok? && d.value == o.value else Matches(d, o, rest)
  }

  /** The codec is exact across versions: decoding what any compatible writer wrote gives the
      translated value and leaves what followed, or fails for the reason the translation
      gives, at any nesting of records, cases, options, pairs and vectors. */
  lemma {:induction false} Exact(w: Schema, r: Schema, v: Value, rest: seq<byte>)
    requires Typed(w, v) && Compatible(w, r) && EncodedLen(w, v) <= MAX_LEN
    ensures Matches(Decode(r, Encode(w, v) + rest), Translate(w, r, v, |rest|), rest)
    decreases w, 1
  {
    match w
    case Fixed(n) => ExactFixed(n, v, rest);
    case Var => VarintRoundTrip(v.n, rest);
    case Text => ExactText(v, rest);
    case Flag => ExactFlag(v, rest);
    case Opt(e) => ExactOpt(e, r, v, rest);
    case Pair(a, b) => ExactPair(a, b, r, v, rest);
    case Vec(e, n) => ExactVec(e, n, r, v, rest);
    case Record(wrapped, fs) => ExactRecord(wrapped, fs, r, v, rest);
    case Enum(wrapped, cs, other) => ExactEnum(wrapped, cs, other, r, v, rest);
  }

  lemma ExactFixed(n: nat, v: Value, rest: seq<byte>)
    requires Typed(Fixed(n), v)
    ensures Decode(Fixed(n), Encode(Fixed(n), v) + rest) == Ok(v, rest)
  {
    var b := Encode(Fixed(n), v) + rest;
    assert b[..n] == BigEndian(n, v.n) && b[n..] == rest;
    BigEndianRoundTrip(n, v.n);
  }

  lemma ExactText(v: Value, rest: seq<byte>)
    requires Typed(Text, v) && EncodedLen(Text, v) <= MAX_LEN
    ensures Decode(Text, Encode(Text, v) + rest) == Ok(v, rest)
  {
    var t := v.text;
    assert Encode(Text, v) + rest == VarintBytes(|t|) + (t + rest);
    VarintRoundTrip(|t|, t + rest);
    assert (t + rest)[..|t|] == t && (t + rest)[|t|..] == rest;
  }

  lemma OneByte(x: byte, rest: seq<byte>)
    ensures DecodeFixed(1, [x] + rest) == Ok(x, rest)
  {
    var b := [x] + rest;
    assert b[..1] == [x] && b[1..] == rest;
    assert FromBigEndian([x]) == x by { assert [x][..0] == []; }
  }

  lemma ExactFlag(v: Value, rest: seq<byte>)
    requires Typed(Flag, v)
    ensures Decode(Flag, Encode(Flag, v) + rest) == Ok(v, rest)
  {
    OneByte(if v.flag then 1 else 0, rest);
  }

  lemma ExactOpt(e: Schema, r: Schema, v: Value, rest: seq<byte>)
    requires Typed(Opt(e), v) && Compatible(Opt(e), r) && EncodedLen(Opt(e), v) <= MAX_LEN
    ensures Matches(Decode(r, Encode(Opt(e), v) + rest), Translate(Opt(e), r, v, |rest|), rest)
    decreases Opt(e), 0
  {
    if v.VNone? {
      OneByte(0, rest);
    } else {
      var more := Encode(e, v.v) + rest;
      assert Encode(Opt(e), v) + rest == [1] + more;
      OneByte(1, more);
      Exact(e, r.elem, v.v, rest);
    }
  }

  lemma ExactPair(a: Schema, b: Schema, r: Schema, v: Value, rest: seq<byte>)
    requires Typed(Pair(a, b), v) && Compatible(Pair(a, b), r) && EncodedLen(Pair(a, b), v) <= MAX_LEN
    ensures Matches(Decode(r, Encode(Pair(a, b), v) + rest), Translate(Pair(a, b), r, v, |rest|), rest)
    decreases Pair(a, b), 0
  {
    var more := Encode(b, v.b) + rest;
    assert Encode(Pair(a, b), v) + rest == Encode(a, v.a) + more;
    ExactLength(b, v.b);
    Exact(a, r.fst, v.a, more);
    Exact(b, r.snd, v.b, rest);
    PairStep(r, Encode(a, v.a) + more, more, rest,
             Translate(a, r.fst, v.a, EncodedLen(b, v.b) + |rest|), Translate(b, r.snd, v.b, |rest|));
  }

  lemma PairStep(r: Schema, b: seq<byte>, more: seq<byte>, rest: seq<byte>, o: Outcome<Value>, p: Outcome<Value>)
    requires r.Pair? && Matches(Decode(r.fst, b), o, more) && Matches(Decode(r.snd, more), p, rest)
    ensures Matches(Decode(r, b),
                    match o
                    case Good(x) => PairOnto(x, p)
                    case Oversized => Oversized
                    case Unknown => Unknown, rest)
  {}

  lemma ExactVec(e: Schema, n: nat, r: Schema, v: Value, rest: seq<byte>)
    requires Typed(Vec(e, n), v) && Compatible(Vec(e, n), r) && EncodedLen(Vec(e, n), v) <= MAX_LEN
    ensures Matches(Decode(r, Encode(Vec(e, n), v) + rest), Translate(Vec(e, n), r, v, |rest|), rest)
    decreases Vec(e, n), 0
  {
    var more := EncodeItems(e, v.items) + rest;
    assert Encode(Vec(e, n), v) + rest == VarintBytes(Count(v.items)) + more;
    VarintRoundTrip(Count(v.items), more);
    ExactItems(e, v.items);
    ItemsExact(e, r.elem, v.items, rest);
  }

  lemma {:induction false} ItemsExact(e: Schema, r: Schema, vs: Values, rest: seq<byte>)
    requires TypedItems(e, vs) && Compatible(e, r) && LenItems(e, vs) <= MAX_LEN
    ensures Matches(DecodeItems(r, Count(vs), EncodeItems(e, vs) + rest), TranslateItems(e, r, vs, |rest|), rest)
    decreases e, Count(vs) + 2
  {
    if vs.Nil? {
      assert EncodeItems(e, vs) + rest == rest;
    } else {
      var b, more := EncodeItems(e, vs) + rest, EncodeItems(e, vs.tail) + rest;
      ItemsHead(e, r, vs, rest);
      ItemsExact(e, r, vs.tail, rest);
      ItemsCons(e, r, vs, b, more, rest);
    }
  }

  lemma ItemsHead(e: Schema, r: Schema, vs: Values, rest: seq<byte>)
    requires vs.Cons? && TypedItems(e, vs) && Compatible(e, r) && LenItems(e, vs) <= MAX_LEN
    ensures Matches(Decode(r, EncodeItems(e, vs) + rest),
                    Translate(e, r, vs.head, LenItems(e, vs.tail) + |rest|), EncodeItems(e, vs.tail) + rest)
    decreases e, Count(vs) + 1
  {
    var head, tail := Encode(e, vs.head), EncodeItems(e, vs.tail);
    Associative(head, tail, rest);
    ExactItems(e, vs.tail);
    Exact(e, r, vs.head, tail + rest);
  }

  lemma ItemsCons(e: Schema, r: Schema, vs: Values, b: seq<byte>, more: seq<byte>, rest: seq<byte>)
    requires vs.Cons? && TypedItems(e, vs) && Compatible(e, r)
    requires Matches(Decode(r, b), Translate(e, r, vs.head, LenItems(e, vs.tail) + |rest|), more)
    requires Matches(DecodeItems(r, Count(vs.tail), more), TranslateItems(e, r, vs.tail, |rest|), rest)
    ensures Matches(DecodeItems(r, Count(vs), b), TranslateItems(e, r, vs, |rest|), rest)
  {
    ItemsStep(r, Count(vs.tail), b, more, rest,
              Translate(e, r, vs.head, LenItems(e, vs.tail) + |rest|), TranslateItems(e, r, vs.tail, |rest|));
  }

  lemma ItemsStep(
    r: Schema, n: nat, b: seq<byte>, more: seq<byte>, rest: seq<byte>, o: Outcome<Value>, os: Outcome<Values>
  )
    requires Matches(Decode(r, b), o, more) && Matches(DecodeItems(r, n, more), os, rest)
    ensures Matches(DecodeItems(r, n + 1, b),
                    match o
                    case Good(x) => ConsOnto(x, os)
                    case Oversized => Oversized
                    case Unknown => Unknown, rest)
  {}

  lemma {:induction false} FieldsExact(fs: Fields, gs: Fields, wrapped: bool, vs: Values, rest: seq<byte>)
    requires TypedFields(fs, vs) && CompatibleFields(fs, gs, wrapped) && LenFields(fs, vs) <= MAX_LEN
    requires wrapped ==> rest == []
    ensures MatchesFields(DecodeFields(gs, EncodeFields(fs, vs) + rest),
                          TranslateFields(fs, gs, wrapped, vs, |rest|), wrapped, rest)
    decreases fs, gs
  {
    if gs.FNil? {
      if !wrapped { SkippedAreSilent(fs, vs); assert [] + rest == rest; }
    } else if gs.kind.Skipped? {
      FieldsExact(fs, gs.rest, wrapped, vs, rest);
    } else if fs.FNil? {
      assert EncodeFields(fs, vs) + rest == [];
      DecodeFieldsEmpty(gs);
    } else if fs.kind.Skipped? {
      FieldsExact(fs.rest, gs, wrapped, vs.tail, rest);
    } else {
      var more := EncodeFields(fs.rest, vs.tail) + rest;
      assert EncodeFields(fs, vs) + rest == Encode(fs.schema, vs.head) + more;
      ExactFields(fs.rest, vs.tail);
      Exact(fs.schema, gs.schema, vs.head, more);
      FieldsExact(fs.rest, gs.rest, wrapped, vs.tail, rest);
    }
  }

  lemma {:induction false} SkippedAreSilent(fs: Fields, vs: Values)
    requires TypedFields(fs, vs) && AllSkipped(fs)
    ensures EncodeFields(fs, vs) == []
  {
    if fs.FCons? { SkippedAreSilent(fs.rest, vs.tail); }
  }

  lemma ExactRecord(wrapped: bool, fs: Fields, r: Schema, v: Value, rest: seq<byte>)
    requires Typed(Record(wrapped, fs), v) && Compatible(Record(wrapped, fs), r)
    requires EncodedLen(Record(wrapped, fs), v) <= MAX_LEN
    ensures Matches(Decode(r, Encode(Record(wrapped, fs), v) + rest),
                    Translate(Record(wrapped, fs), r, v, |rest|), rest)
    decreases Record(wrapped, fs), 0
  {
    if wrapped {
      FrameIndependent(Record(wrapped, fs), r, v, rest);
      FieldsExact(fs, r.fields, wrapped, v.items, []);
      assert EncodeFields(fs, v.items) + [] == EncodeFields(fs, v.items);
    } else {
      FieldsExact(fs, r.fields, wrapped, v.items, rest);
    }
  }

  lemma {:induction false} CaseByFields(ds: Cases, tag: byte, b: seq<byte>)
    ensures match FindFields(ds, tag)
            case None => DecodeCase(ds, tag, b) == None
            case Some(gs) => DecodeCase(ds, tag, b) == Some(EnumOf(tag, DecodeFields(gs, b)))
  {
    if ds.CCons? && ds.tag != tag { CaseByFields(ds.rest, tag, b); }
  }

  lemma ExactEnum(wrapped: bool, cs: Cases, other: Option<byte>, r: Schema, v: Value, rest: seq<byte>)
    requires Typed(Enum(wrapped, cs, other), v) && Compatible(Enum(wrapped, cs, other), r)
    requires EncodedLen(Enum(wrapped, cs, other), v) <= MAX_LEN
    ensures Matches(Decode(r, Encode(Enum(wrapped, cs, other), v) + rest),
                    Translate(Enum(wrapped, cs, other), r, v, |rest|), rest)
    decreases Enum(wrapped, cs, other), 0
  {
    var payload := EncodeCase(cs, v.tag, v.items);
    if wrapped {
      FrameIndependent(Enum(wrapped, cs, other), r, v, rest);
      CaseExact(cs, r.cases, r.other, wrapped, v.tag, v.items, []);
      assert [v.tag] + (payload + []) == [v.tag] + payload;
    } else {
      CaseExact(cs, r.cases, r.other, wrapped, v.tag, v.items, rest);
      assert [v.tag] + (payload + rest) == [v.tag] + payload + rest;
    }
  }

  predicate MatchesCase(d: Decoded<Value>, o: Outcome<Value>, wrapped: bool, rest: seq<byte>) {
    if wrapped && o.Good? then d.Ok? && d.value == o.value else Matches(d, o, rest)
  }

  lemma {:induction false} CaseExact(
    cs: Cases, ds: Cases, other: Option<byte>, wrapped: bool, tag: byte, vs: Values, rest: seq<byte>
  )
    requires TypedCase(cs, tag, vs) && CompatibleCases(cs, ds, other, wrapped) && LenCase(cs, tag, vs) <= MAX_LEN
    requires wrapped ==> rest == []
    ensures MatchesCase(DecodeTagged(ds, other, [tag] + (EncodeCase(cs, tag, vs) + rest)),
                        TranslateCase(cs, ds, other, wrapped, tag, vs, |rest|), wrapped, rest)
    decreases cs, 0
  {
    if cs.tag != tag {
      CaseExact(cs.rest, ds, other, wrapped, tag, vs, rest);
    } else {
      var b := EncodeFields(cs.fields, vs) + rest;
      OneByte(tag, b);
      CaseByFields(ds, tag, b);
      match FindFields(ds, tag)
      case Some(gs) => FieldsExact(cs.fields, gs, wrapped, vs, rest);
      case None => if !wrapped && other.Some? { SkippedAreSilent(cs.fields, vs); assert b == rest; }
    }
  }

  // ----- one schema on both sides -----

  /** Every case is the first with its tag; the derive refuses repeated tags. */
  predicate Entries(cs: Cases, ds: Cases) {
    cs.CNil? || (FindFields(ds, cs.tag) == Some(cs.fields) && Entries(cs.rest, ds))
  }

  predicate WellFormed(s: Schema)
    decreases s
  {
    match s
    case Opt(e) => WellFormed(e)
    case Pair(a, b) => WellFormed(a) && WellFormed(b)
    case Vec(e, _) => WellFormed(e)
    case Record(_, fs) => WellFormedFields(fs)
    case Enum(_, cs, _) => Entries(cs, cs) && WellFormedCases(cs)
    case _ => true
  }

  predicate WellFormedFields(fs: Fields)
    decreases fs
  {
    fs.FNil? || (WellFormed(fs.schema) && WellFormedFields(fs.rest))
  }

  predicate WellFormedCases(cs: Cases)
    decreases cs
  {
    cs.CNil? || (WellFormedFields(cs.fields) && WellFormedCases(cs.rest))
  }

  /** check_sz passes for every vector of the value when k bytes follow in the same frame:
      its elements take up at most 2 GiB in memory, and at most 256 bytes for each byte left. */
  ghost predicate Sized(s: Schema, v: Value, k: nat)
    requires Typed(s, v)
    decreases s, 0
  {
    match s
    case Opt(e) => v.VNone? || Sized(e, v.v, k)
    case Pair(a, b) => Sized(a, v.a, EncodedLen(b, v.b) + k) && Sized(b, v.b, k)
    case Vec(e, size) => !TooMany(Count(v.items), size, LenItems(e, v.items) + k) && SizedItems(e, v.items, k)
    case Record(wrapped, fs) => SizedFields(fs, v.items, if wrapped then 0 else k)
    case Enum(wrapped, cs, _) => SizedCase(cs, v.tag, v.items, if wrapped then 0 else k)
    case _ => true
  }

  ghost predicate SizedItems(e: Schema, vs: Values, k: nat)
    requires TypedItems(e, vs)
    decreases e, Count(vs) + 1
  {
    vs.Nil? || (Sized(e, vs.head, LenItems(e, vs.tail) + k) && SizedItems(e, vs.tail, k))
  }

  ghost predicate SizedFields(fs: Fields, vs: Values, k: nat)
    requires TypedFields(fs, vs)
    decreases fs, 0
  {
    fs.FNil? ||
    ((fs.kind.Skipped? || Sized(fs.schema, vs.head, LenFields(fs.rest, vs.tail) + k)) &&
     SizedFields(fs.rest, vs.tail, k))
  }

  ghost predicate SizedCase(cs: Cases, tag: byte, vs: Values, k: nat)
    requires TypedCase(cs, tag, vs)
    decreases cs, 0
  {
    if cs.tag == tag then SizedFields(cs.fields, vs, k) else SizedCase(cs.rest, tag, vs, k)
  }

  /** The value with every skipped field reset to its default, at any depth. */
  ghost function Reset(s: Schema, v: Value): Value
    requires Typed(s, v)
    decreases s, 0
  {
    match s
    case Opt(e) => if v.VNone? then v else VSome(Reset(e, v.v))
    case Pair(a, b) => VPair(Reset(a, v.a), Reset(b, v.b))
    case Vec(e, _) => VVec(ResetItems(e, v.items))
    case Record(_, fs) => VRecord(ResetFields(fs, v.items))
    case Enum(_, cs, _) => VEnum(v.tag, ResetCase(cs, v.tag, v.items))
    case _ => v
  }

  ghost function ResetItems(e: Schema, vs: Values): Values
    requires TypedItems(e, vs)
    decreases e, Count(vs) + 1
  {
    match vs
    case Nil => Nil
    case Cons(h, t) => Cons(Reset(e, h), ResetItems(e, t))
  }

  ghost function ResetFields(fs: Fields, vs: Values): Values
    requires TypedFields(fs, vs)
    decreases fs, 0
  {
    match fs
    case FNil => Nil
    case FCons(k, s, d, rest) => Cons(if k.Skipped? then d else Reset(s, vs.head), ResetFields(rest, vs.tail))
  }

  ghost function ResetCase(cs: Cases, tag: byte, vs: Values): Values
    requires TypedCase(cs, tag, vs)
    decreases cs, 0
  {
    if cs.tag == tag then ResetFields(cs.fields, vs) else ResetCase(cs.rest, tag, vs)
  }

  function Append(fs: Fields, gs: Fields): Fields {
    match fs
    case FNil => gs
    case FCons(k, s, d, rest) => FCons(k, s, d, Append(rest, gs))
  }

  function Prepend(vs: Values, o: Outcome<Values>): Outcome<Values> {
    match o
    case Good(ws) => Good(Concat(vs, ws))
    case Oversized => Oversized
    case Unknown => Unknown
  }

  lemma {:induction false} AppendTyped(fs: Fields, gs: Fields, vs: Values, ws: Values)
    requires TypedFields(fs, vs) && TypedFields(gs, ws)
    ensures TypedFields(Append(fs, gs), Concat(vs, ws))
    ensures LenFields(Append(fs, gs), Concat(vs, ws)) == LenFields(fs, vs) + LenFields(gs, ws)
    decreases fs
  {
    if fs.FCons? { AppendTyped(fs.rest, gs, vs.tail, ws); }
  }

  lemma {:induction false} AppendNil(fs: Fields, vs: Values)
    ensures Append(fs, FNil) == fs && Concat(vs, Nil) == vs
    decreases fs, vs
  {
    if fs.FCons? { AppendNil(fs.rest, vs); }
    if vs.Cons? { AppendNil(fs, vs.tail); }
  }

  lemma {:induction false} SkipLeft(fs: Fields, gs: Fields, wrapped: bool)
    requires fs.FCons? && fs.kind.Skipped? && CompatibleFields(fs.rest, gs, wrapped)
    ensures CompatibleFields(fs, gs, wrapped)
    decreases gs
  {
    if gs.FCons? && gs.kind.Skipped? { SkipLeft(fs, gs.rest, wrapped); }
  }

  lemma {:induction false} SkipLeftTranslate(fs: Fields, gs: Fields, wrapped: bool, vs: Values, k: nat)
    requires fs.FCons? && fs.kind.Skipped? && CompatibleFields(fs.rest, gs, wrapped)
    requires CompatibleFields(fs, gs, wrapped) && TypedFields(fs, vs)
    ensures TranslateFields(fs, gs, wrapped, vs, k) == TranslateFields(fs.rest, gs, wrapped, vs.tail, k)
    decreases gs
  {
    if gs.FCons? && gs.kind.Skipped? { SkipLeftTranslate(fs, gs.rest, wrapped, vs, k); }
  }

  lemma {:induction false} SelfCompatible(s: Schema)
    requires WellFormed(s)
    ensures Compatible(s, s)
    decreases s
  {
    match s
    case Opt(e) => SelfCompatible(e);
    case Pair(a, b) => SelfCompatible(a); SelfCompatible(b);
    case Vec(e, _) => SelfCompatible(e);
    case Record(wrapped, fs) => PrefixCompatible(fs, FNil, FNil, wrapped); AppendNil(fs, Nil);
    case Enum(wrapped, cs, other) => SelfCompatibleCases(cs, cs, other, wrapped);
    case _ =>
  }

  /** Records that share their first fields are compatible when what follows is. */
  lemma {:induction false} PrefixCompatible(fs: Fields, ws: Fields, gs: Fields, wrapped: bool)
    requires WellFormedFields(fs) && CompatibleFields(ws, gs, wrapped)
    ensures CompatibleFields(Append(fs, ws), Append(fs, gs), wrapped)
    decreases fs
  {
    if fs.FCons? {
      PrefixCompatible(fs.rest, ws, gs, wrapped);
      if fs.kind.Skipped? {
        SkipLeft(Append(fs, ws), Append(fs.rest, gs), wrapped);
      } else {
        SelfCompatible(fs.schema);
      }
    }
  }

  lemma {:induction false} SelfCompatibleCases(cs: Cases, ds: Cases, other: Option<byte>, wrapped: bool)
    requires WellFormedCases(cs) && Entries(cs, ds)
    ensures CompatibleCases(cs, ds, other, wrapped)
    decreases cs
  {
    if cs.CCons? {
      PrefixCompatible(cs.fields, FNil, FNil, wrapped);
      AppendNil(cs.fields, Nil);
      SelfCompatibleCases(cs.rest, ds, other, wrapped);
    }
  }

  ghost function SizedOr<T>(sized: bool, o: Outcome<T>): Outcome<T> {
    if sized then o else Oversized
  }

  lemma {:induction false} SelfTranslate(s: Schema, v: Value, k: nat)
    requires WellFormed(s) && Compatible(s, s) && Typed(s, v)
    ensures Translate(s, s, v, k) == SizedOr(Sized(s, v, k), Good(Reset(s, v)))
    decreases s, 1
  {
    match s
    case Opt(e) => if v.VSome? { SelfTranslate(e, v.v, k); }
    case Pair(a, b) =>
      SelfTranslate(a, v.a, EncodedLen(b, v.b) + k);
      SelfTranslate(b, v.b, k);
    case Vec(e, _) => SelfTranslateItems(e, v.items, k);
    case Record(wrapped, fs) => SelfTranslateFields(fs, wrapped, v.items, if wrapped then 0 else k);
    case Enum(wrapped, cs, other) =>
      SelfTranslateCase(cs, cs, other, wrapped, v.tag, v.items, if wrapped then 0 else k);
    case _ =>
  }

  lemma {:induction false} SelfTranslateItems(e: Schema, vs: Values, k: nat)
    requires WellFormed(e) && Compatible(e, e) && TypedItems(e, vs)
    ensures TranslateItems(e, e, vs, k) == SizedOr(SizedItems(e, vs, k), Good(ResetItems(e, vs)))
    decreases e, Count(vs) + 2
  {
    if vs.Cons? {
      SelfTranslate(e, vs.head, LenItems(e, vs.tail) + k);
      SelfTranslateItems(e, vs.tail, k);
    }
  }

  lemma SelfTranslateFields(fs: Fields, wrapped: bool, vs: Values, k: nat)
    requires WellFormedFields(fs) && TypedFields(fs, vs) && CompatibleFields(fs, fs, wrapped)
    ensures TranslateFields(fs, fs, wrapped, vs, k) == SizedOr(SizedFields(fs, vs, k), Good(ResetFields(fs, vs)))
    decreases fs, 3
  {
    PrefixCompatible(fs, FNil, FNil, wrapped);
    AppendTyped(fs, FNil, vs, Nil);
    PrefixTranslate(fs, FNil, FNil, wrapped, vs, Nil, k);
    AppendNil(fs, vs);
    AppendNil(fs, ResetFields(fs, vs));
  }

  /** The shared fields translate to themselves, whatever follows them on either side. */
  lemma {:induction false} PrefixTranslate(
    fs: Fields, ws: Fields, gs: Fields, wrapped: bool, vs: Values, us: Values, k: nat
  )
    requires WellFormedFields(fs) && TypedFields(fs, vs) && TypedFields(ws, us) && CompatibleFields(ws, gs, wrapped)
    requires CompatibleFields(Append(fs, ws), Append(fs, gs), wrapped)
    requires TypedFields(Append(fs, ws), Concat(vs, us))
    ensures TranslateFields(Append(fs, ws), Append(fs, gs), wrapped, Concat(vs, us), k) ==
            SizedOr(SizedFields(fs, vs, LenFields(ws, us) + k),
                    Prepend(ResetFields(fs, vs), TranslateFields(ws, gs, wrapped, us, k)))
    decreases fs, 2
  {
    if fs.FCons? {
      AppendTyped(fs.rest, ws, vs.tail, us);
      PrefixCompatible(fs.rest, ws, gs, wrapped);
      PrefixTranslate(fs.rest, ws, gs, wrapped, vs.tail, us, k);
      var tail := TranslateFields(Append(fs.rest, ws), Append(fs.rest, gs), wrapped, Concat(vs.tail, us), k);
      var after := LenFields(ws, us) + k;
      var end := TranslateFields(ws, gs, wrapped, us, k);
      if fs.kind.Skipped? {
        SkipLeft(Append(fs, ws), Append(fs.rest, gs), wrapped);
        SkipLeftTranslate(Append(fs, ws), Append(fs.rest, gs), wrapped, Concat(vs, us), k);
        SkipBoth(Append(fs, ws), Append(fs, gs), wrapped, Concat(vs, us), k, tail);
        ResetSkipped(fs, vs, after, end);
      } else {
        SelfCompatible(fs.schema);
        var left := LenFields(fs.rest, vs.tail) + after;
        SelfTranslate(fs.schema, vs.head, left);
        KeepBoth(Append(fs, ws), Append(fs, gs), wrapped, Concat(vs, us), k, left, tail);
        ResetKept(fs, vs, after, end);
      }
    }
  }

  lemma ResetSkipped(fs: Fields, vs: Values, k: nat, end: Outcome<Values>)
    requires fs.FCons? && fs.kind.Skipped? && TypedFields(fs, vs)
    ensures SizedOr(SizedFields(fs, vs, k), Prepend(ResetFields(fs, vs), end)) ==
            ConsOnto(fs.default, SizedOr(SizedFields(fs.rest, vs.tail, k), Prepend(ResetFields(fs.rest, vs.tail), end)))
  {}

  lemma ResetKept(fs: Fields, vs: Values, k: nat, end: Outcome<Values>)
    requires fs.FCons? && !fs.kind.Skipped? && TypedFields(fs, vs)
    ensures SizedOr(SizedFields(fs, vs, k), Prepend(ResetFields(fs, vs), end)) ==
            if Sized(fs.schema, vs.head, LenFields(fs.rest, vs.tail) + k) then
              ConsOnto(Reset(fs.schema, vs.head),
                       SizedOr(SizedFields(fs.rest, vs.tail, k), Prepend(ResetFields(fs.rest, vs.tail), end)))
            else Oversized
  {}

  lemma SkipBoth(fs: Fields, gs: Fields, wrapped: bool, vs: Values, k: nat, tail: Outcome<Values>)
    requires fs.FCons? && fs.kind.Skipped? && gs.FCons? && gs.kind.Skipped?
    requires TypedFields(fs, vs) && CompatibleFields(fs, gs, wrapped)
    requires TranslateFields(fs, gs.rest, wrapped, vs, k) == tail
    ensures TranslateFields(fs, gs, wrapped, vs, k) == ConsOnto(gs.default, tail)
  {}

  lemma KeepBoth(
    fs: Fields, gs: Fields, wrapped: bool, vs: Values, k: nat, left: nat, tail: Outcome<Values>
  )
    requires fs.FCons? && !fs.kind.Skipped? && gs.FCons? && !gs.kind.Skipped?
    requires TypedFields(fs, vs) && CompatibleFields(fs, gs, wrapped)
    requires left == LenFields(fs.rest, vs.tail) + k
    requires TranslateFields(fs.rest, gs.rest, wrapped, vs.tail, k) == tail
    ensures TranslateFields(fs, gs, wrapped, vs, k) ==
            match Translate(fs.schema, gs.schema, vs.head, left)
            case Good(x) => ConsOnto(x, tail)
            case Oversized => Oversized
            case Unknown => Unknown
  {}

  lemma {:induction false} SelfTranslateCase(
    cs: Cases, ds: Cases, other: Option<byte>, wrapped: bool, tag: byte, vs: Values, k: nat
  )
    requires WellFormedCases(cs) && Entries(cs, ds) && TypedCase(cs, tag, vs)
    requires CompatibleCases(cs, ds, other, wrapped)
    ensures TranslateCase(cs, ds, other, wrapped, tag, vs, k) ==
            SizedOr(SizedCase(cs, tag, vs, k), Good(VEnum(tag, ResetCase(cs, tag, vs))))
    decreases cs, 1
  {
    if cs.tag == tag {
      SelfTranslateFields(cs.fields, wrapped, vs, k);
    } else {
      SelfTranslateCase(cs.rest, ds, other, wrapped, tag, vs, k);
    }
  }

  /** Round trip: the decoder returns the encoded value and leaves what follows exactly when
      the size check passes and skipped fields hold their defaults; a value that fails the
      size check is refused, and skipped fields come back as their defaults. */
  lemma RoundTrip(s: Schema, v: Value, rest: seq<byte>)
    requires WellFormed(s) && Typed(s, v) && EncodedLen(s, v) <= MAX_LEN
    ensures var d := Decode(s, Encode(s, v) + rest);
            && (if Sized(s, v, |rest|) then d == Ok(Reset(s, v), rest) else d.Err? && d.error == TooBig)
            && (d == Ok(v, rest) <==> Sized(s, v, |rest|) && Reset(s, v) == v)
  {
    SelfCompatible(s);
    Exact(s, s, v, rest);
    SelfTranslate(s, v, |rest|);
  }

  /** The schema of a reader whose elements take up no memory, so that no size check fails. */
  function Unsized(s: Schema): Schema
    decreases s
  {
    match s
    case Opt(e) => Opt(Unsized(e))
    case Pair(a, b) => Pair(Unsized(a), Unsized(b))
    case Vec(e, _) => Vec(Unsized(e), 0)
    case Record(wrapped, fs) => Record(wrapped, UnsizedFields(fs))
    case Enum(wrapped, cs, other) => Enum(wrapped, UnsizedCases(cs), other)
    case _ => s
  }

  function UnsizedFields(fs: Fields): Fields
    decreases fs
  {
    match fs
    case FNil => FNil
    case FCons(k, s, d, rest) => FCons(k, Unsized(s), d, UnsizedFields(rest))
  }

  function UnsizedCases(cs: Cases): Cases
    decreases cs
  {
    match cs
    case CNil => CNil
    case CCons(t, fs, rest) => CCons(t, UnsizedFields(fs), UnsizedCases(rest))
  }

  /** Sizes in memory show neither in the bytes nor in what is reset. */
  lemma {:induction false} UnsizedSame(s: Schema, v: Value)
    requires Typed(s, v)
    ensures Typed(Unsized(s), v) && EncodedLen(Unsized(s), v) == EncodedLen(s, v)
    ensures Encode(Unsized(s), v) == Encode(s, v) && Reset(Unsized(s), v) == Reset(s, v)
    decreases s, 0
  {
    match s
    case Opt(e) => if v.VSome? { UnsizedSame(e, v.v); }
    case Pair(a, b) => UnsizedSame(a, v.a); UnsizedSame(b, v.b);
    case Vec(e, _) => UnsizedSameItems(e, v.items);
    case Record(_, fs) => UnsizedSameFields(fs, v.items);
    case Enum(_, cs, _) => UnsizedSameCase(cs, v.tag, v.items);
    case _ =>
  }

  lemma {:induction false} UnsizedSameItems(e: Schema, vs: Values)
    requires TypedItems(e, vs)
    ensures var u := Unsized(e);
            TypedItems(u, vs) && LenItems(u, vs) == LenItems(e, vs) &&
            EncodeItems(u, vs) == EncodeItems(e, vs) && ResetItems(u, vs) == ResetItems(e, vs)
    decreases e, Count(vs) + 1
  {
    if vs.Cons? { UnsizedSame(e, vs.head); UnsizedSameItems(e, vs.tail); }
  }

  lemma {:induction false} UnsizedSameFields(fs: Fields, vs: Values)
    requires TypedFields(fs, vs)
    ensures var us := UnsizedFields(fs);
            TypedFields(us, vs) && LenFields(us, vs) == LenFields(fs, vs) &&
            EncodeFields(us, vs) == EncodeFields(fs, vs) && ResetFields(us, vs) == ResetFields(fs, vs)
    decreases fs, 0
  {
    if fs.FCons? { UnsizedSame(fs.schema, vs.head); UnsizedSameFields(fs.rest, vs.tail); }
  }

  lemma {:induction false} UnsizedSameCase(cs: Cases, tag: byte, vs: Values)
    requires TypedCase(cs, tag, vs)
    ensures var us := UnsizedCases(cs);
            TypedCase(us, tag, vs) && LenCase(us, tag, vs) == LenCase(cs, tag, vs) &&
            EncodeCase(us, tag, vs) == EncodeCase(cs, tag, vs) && ResetCase(us, tag, vs) == ResetCase(cs, tag, vs)
    decreases cs, 0
  {
    if cs.tag == tag { UnsizedSameFields(cs.fields, vs); } else { UnsizedSameCase(cs.rest, tag, vs); }
  }

  lemma {:induction false} UnsizedSized(s: Schema, v: Value, k: nat)
    requires Typed(Unsized(s), v)
    ensures Sized(Unsized(s), v, k)
    decreases s, 0
  {
    match s
    case Opt(e) => if v.VSome? { UnsizedSized(e, v.v, k); }
    case Pair(a, b) =>
      UnsizedSized(a, v.a, EncodedLen(Unsized(b), v.b) + k);
      UnsizedSized(b, v.b, k);
    case Vec(e, _) =>
      TimesIsProduct(Count(v.items), 0);
      UnsizedSizedItems(e, v.items, k);
    case Record(wrapped, fs) => UnsizedSizedFields(fs, v.items, if wrapped then 0 else k);
    case Enum(wrapped, cs, _) => UnsizedSizedCase(cs, v.tag, v.items, if wrapped then 0 else k);
    case _ =>
  }

  lemma {:induction false} UnsizedSizedItems(e: Schema, vs: Values, k: nat)
    requires TypedItems(Unsized(e), vs)
    ensures SizedItems(Unsized(e), vs, k)
    decreases e, Count(vs) + 1
  {
    if vs.Cons? {
      UnsizedSized(e, vs.head, LenItems(Unsized(e), vs.tail) + k);
      UnsizedSizedItems(e, vs.tail, k);
    }
  }

  lemma {:induction false} UnsizedSizedFields(fs: Fields, vs: Values, k: nat)
    requires TypedFields(UnsizedFields(fs), vs)
    ensures SizedFields(UnsizedFields(fs), vs, k)
    decreases fs, 0
  {
    if fs.FCons? {
      UnsizedSized(fs.schema, vs.head, LenFields(UnsizedFields(fs.rest), vs.tail) + k);
      UnsizedSizedFields(fs.rest, vs.tail, k);
    }
  }

  lemma {:induction false} UnsizedSizedCase(cs: Cases, tag: byte, vs: Values, k: nat)
    requires TypedCase(UnsizedCases(cs), tag, vs)
    ensures SizedCase(UnsizedCases(cs), tag, vs, k)
    decreases cs, 0
  {
    if cs.tag == tag { UnsizedSizedFields(cs.fields, vs, k); } else { UnsizedSizedCase(cs.rest, tag, vs, k); }
  }

  lemma {:induction false} UnsizedWellFormed(s: Schema)
    requires WellFormed(s)
    ensures WellFormed(Unsized(s))
    decreases s
  {
    match s
    case Opt(e) => UnsizedWellFormed(e);
    case Pair(a, b) => UnsizedWellFormed(a); UnsizedWellFormed(b);
    case Vec(e, _) => UnsizedWellFormed(e);
    case Record(_, fs) => UnsizedWellFormedFields(fs);
    case Enum(_, cs, _) => UnsizedWellFormedCases(cs); UnsizedEntries(cs, cs);
    case _ =>
  }

  lemma {:induction false} UnsizedWellFormedFields(fs: Fields)
    requires WellFormedFields(fs)
    ensures WellFormedFields(UnsizedFields(fs))
    decreases fs
  {
    if fs.FCons? { UnsizedWellFormed(fs.schema); UnsizedWellFormedFields(fs.rest); }
  }

  lemma {:induction false} UnsizedWellFormedCases(cs: Cases)
    requires WellFormedCases(cs)
    ensures WellFormedCases(UnsizedCases(cs))
    decreases cs
  {
    if cs.CCons? { UnsizedWellFormedFields(cs.fields); UnsizedWellFormedCases(cs.rest); }
  }

  lemma {:induction false} UnsizedFind(cs: Cases, tag: nat)
    ensures FindFields(UnsizedCases(cs), tag) ==
            match FindFields(cs, tag) case None => None case Some(fs) => Some(UnsizedFields(fs))
  {
    if cs.CCons? && cs.tag != tag { UnsizedFind(cs.rest, tag); }
  }

  lemma {:induction false} UnsizedEntries(cs: Cases, ds: Cases)
    requires Entries(cs, ds)
    ensures Entries(UnsizedCases(cs), UnsizedCases(ds))
    decreases cs
  {
    if cs.CCons? { UnsizedFind(ds, cs.tag); UnsizedEntries(cs.rest, ds); }
  }

  /** Every encoding can be read back, by a reader that spends no memory on elements. */
  lemma UnsizedRoundTrip(s: Schema, v: Value, rest: seq<byte>)
    requires WellFormed(s) && Typed(s, v) && EncodedLen(s, v) <= MAX_LEN
    ensures Decode(Unsized(s), Encode(s, v) + rest) == Ok(Reset(s, v), rest)
  {
    UnsizedSame(s, v);
    UnsizedSized(s, v, |rest|);
    UnsizedWellFormed(s);
    RoundTrip(Unsized(s), v, rest);
  }

  /** Encodings are uniquely decodable: no value's encoding runs on into another's, and equal
      bytes mean values that are equal up to their skipped fields. */
  lemma PrefixCode(s: Schema, v: Value, w: Value, a: seq<byte>, b: seq<byte>)
    requires WellFormed(s) && Typed(s, v) && Typed(s, w)
    requires EncodedLen(s, v) <= MAX_LEN && EncodedLen(s, w) <= MAX_LEN
    requires Encode(s, v) + a == Encode(s, w) + b
    ensures Reset(s, v) == Reset(s, w) && a == b
  {
    UnsizedRoundTrip(s, v, a);
    UnsizedRoundTrip(s, w, b);
  }

  // ----- re-encoding -----

  /** Resetting skipped fields keeps the type and the bytes. */
  lemma {:induction false} ResetBytes(s: Schema, v: Value)
    requires Sound(s) && Typed(s, v)
    ensures Typed(s, Reset(s, v))
    ensures EncodedLen(s, Reset(s, v)) == EncodedLen(s, v) && Encode(s, Reset(s, v)) == Encode(s, v)
    decreases s, 0
  {
    match s
    case Opt(e) => if v.VSome? { ResetBytes(e, v.v); }
    case Pair(a, b) => ResetBytes(a, v.a); ResetBytes(b, v.b);
    case Vec(e, _) => ResetBytesItems(e, v.items);
    case Record(_, fs) => ResetBytesFields(fs, v.items);
    case Enum(_, cs, _) => ResetBytesCase(cs, v.tag, v.items);
    case _ =>
  }

  lemma {:induction false} ResetBytesItems(e: Schema, vs: Values)
    requires Sound(e) && TypedItems(e, vs)
    ensures var rs := ResetItems(e, vs);
            TypedItems(e, rs) && Count(rs) == Count(vs) &&
            LenItems(e, rs) == LenItems(e, vs) && EncodeItems(e, rs) == EncodeItems(e, vs)
    decreases e, Count(vs) + 1
  {
    if vs.Cons? { ResetBytes(e, vs.head); ResetBytesItems(e, vs.tail); }
  }

  lemma {:induction false} ResetBytesFields(fs: Fields, vs: Values)
    requires SoundFields(fs) && TypedFields(fs, vs)
    ensures var rs := ResetFields(fs, vs);
            TypedFields(fs, rs) && LenFields(fs, rs) == LenFields(fs, vs) &&
            EncodeFields(fs, rs) == EncodeFields(fs, vs)
    decreases fs, 0
  {
    if fs.FCons? { ResetBytes(fs.schema, vs.head); ResetBytesFields(fs.rest, vs.tail); }
  }

  lemma {:induction false} ResetBytesCase(cs: Cases, tag: byte, vs: Values)
    requires SoundCases(cs) && TypedCase(cs, tag, vs)
    ensures var rs := ResetCase(cs, tag, vs);
            TypedCase(cs, tag, rs) && LenCase(cs, tag, rs) == LenCase(cs, tag, vs) &&
            EncodeCase(cs, tag, rs) == EncodeCase(cs, tag, vs)
    decreases cs, 0
  {
    if cs.tag == tag { ResetBytesFields(cs.fields, vs); } else { ResetBytesCase(cs.rest, tag, vs); }
  }

  /** What the decoder's size check accepts, the encoder accepted. */
  lemma {:induction false} SizedEncodable(s: Schema, v: Value, k: nat)
    requires Typed(s, v) && Sized(s, v, k)
    ensures Encodable(s, v)
    decreases s, 0
  {
    match s
    case Opt(e) => if v.VSome? { SizedEncodable(e, v.v, k); }
    case Pair(a, b) =>
      SizedEncodable(a, v.a, EncodedLen(b, v.b) + k);
      SizedEncodable(b, v.b, k);
    case Vec(e, _) => SizedEncodableItems(e, v.items, k);
    case Record(wrapped, fs) => SizedEncodableFields(fs, v.items, if wrapped then 0 else k);
    case Enum(wrapped, cs, _) => SizedEncodableCase(cs, v.tag, v.items, if wrapped then 0 else k);
    case _ =>
  }

  lemma {:induction false} SizedEncodableItems(e: Schema, vs: Values, k: nat)
    requires TypedItems(e, vs) && SizedItems(e, vs, k)
    ensures EncodableItems(e, vs)
    decreases e, Count(vs) + 1
  {
    if vs.Cons? {
      SizedEncodable(e, vs.head, LenItems(e, vs.tail) + k);
      SizedEncodableItems(e, vs.tail, k);
    }
  }

  lemma {:induction false} SizedEncodableFields(fs: Fields, vs: Values, k: nat)
    requires TypedFields(fs, vs) && SizedFields(fs, vs, k)
    ensures EncodableFields(fs, vs)
    decreases fs, 0
  {
    if fs.FCons? {
      if !fs.kind.Skipped? { SizedEncodable(fs.schema, vs.head, LenFields(fs.rest, vs.tail) + k); }
      SizedEncodableFields(fs.rest, vs.tail, k);
    }
  }

  lemma {:induction false} SizedEncodableCase(cs: Cases, tag: byte, vs: Values, k: nat)
    requires TypedCase(cs, tag, vs) && SizedCase(cs, tag, vs, k)
    ensures EncodableCase(cs, tag, vs)
    decreases cs, 0
  {
    if cs.tag == tag {
      SizedEncodableFields(cs.fields, vs, k);
    } else {
      SizedEncodableCase(cs.rest, tag, vs, k);
    }
  }

  predicate NoSkips(s: Schema)
    decreases s
  {
    match s
    case Opt(e) => NoSkips(e)
    case Pair(a, b) => NoSkips(a) && NoSkips(b)
    case Vec(e, _) => NoSkips(e)
    case Record(_, fs) => NoSkipsFields(fs)
    case Enum(_, cs, _) => NoSkipsCases(cs)
    case _ => true
  }

  predicate NoSkipsFields(fs: Fields)
    decreases fs
  {
    fs.FNil? || (!fs.kind.Skipped? && NoSkips(fs.schema) && NoSkipsFields(fs.rest))
  }

  predicate NoSkipsCases(cs: Cases)
    decreases cs
  {
    cs.CNil? || (NoSkipsFields(cs.fields) && NoSkipsCases(cs.rest))
  }

  lemma {:induction false} ResetNothing(s: Schema, v: Value)
    requires NoSkips(s) && Typed(s, v)
    ensures Reset(s, v) == v
    decreases s, 0
  {
    match s
    case Opt(e) => if v.VSome? { ResetNothing(e, v.v); }
    case Pair(a, b) => ResetNothing(a, v.a); ResetNothing(b, v.b);
    case Vec(e, _) => ResetNoItems(e, v.items);
    case Record(_, fs) => ResetNoFields(fs, v.items);
    case Enum(_, cs, _) => ResetNoCase(cs, v.tag, v.items);
    case _ =>
  }

  lemma {:induction false} ResetNoItems(e: Schema, vs: Values)
    requires NoSkips(e) && TypedItems(e, vs)
    ensures ResetItems(e, vs) == vs
    decreases e, Count(vs) + 1
  {
    if vs.Cons? { ResetNothing(e, vs.head); ResetNoItems(e, vs.tail); }
  }

  lemma {:induction false} ResetNoFields(fs: Fields, vs: Values)
    requires NoSkipsFields(fs) && TypedFields(fs, vs)
    ensures ResetFields(fs, vs) == vs
    decreases fs, 0
  {
    if fs.FCons? { ResetNothing(fs.schema, vs.head); ResetNoFields(fs.rest, vs.tail); }
  }

  lemma {:induction false} ResetNoCase(cs: Cases, tag: byte, vs: Values)
    requires NoSkipsCases(cs) && TypedCase(cs, tag, vs)
    ensures ResetCase(cs, tag, vs) == vs
    decreases cs, 0
  {
    if cs.tag == tag { ResetNoFields(cs.fields, vs); } else { ResetNoCase(cs.rest, tag, vs); }
  }

  // ----- added fields -----

  /** An old reader drops the fields a newer writer added and consumes their bytes. */
  lemma OldReader(fs: Fields, added: Fields, vs: Values, us: Values, rest: seq<byte>)
    requires WellFormedFields(fs) && TypedFields(fs, vs) && TypedFields(added, us)
    requires TypedFields(Append(fs, added), Concat(vs, us))
    requires EncodedLen(Record(true, Append(fs, added)), VRecord(Concat(vs, us))) <= MAX_LEN
    requires SizedFields(fs, vs, LenFields(added, us))
    ensures Decode(Record(true, fs), Encode(Record(true, Append(fs, added)), VRecord(Concat(vs, us))) + rest) ==
            Ok(VRecord(ResetFields(fs, vs)), rest)
  {
    var w, v := Record(true, Append(fs, added)), VRecord(Concat(vs, us));
    PrefixCompatible(fs, added, FNil, true);
    AppendNil(fs, ResetFields(fs, vs));
    assert Translate(w, Record(true, fs), v, |rest|) == Good(VRecord(ResetFields(fs, vs))) by {
      PrefixTranslate(fs, added, FNil, true, vs, us, 0);
    }
    Exact(w, Record(true, fs), v, rest);
  }

  lemma {:induction false} DecodeAppend(fs: Fields, gs: Fields, b: seq<byte>)
    ensures DecodeFields(Append(fs, gs), b) ==
            match DecodeFields(fs, b)
            case Err(e, rest) => Err(e, rest)
            case Ok(vs, rest) => Pushed(vs, DecodeFields(gs, rest))
    decreases fs
  {
    if fs.FCons? {
      if fs.kind.Skipped? {
        DecodeAppend(fs.rest, gs, b);
      } else {
        DecodeAppend(fs.rest, gs, Decode(fs.schema, b).rest);
      }
    }
  }

  lemma FieldsAlone(fs: Fields, vs: Values)
    requires WellFormedFields(fs) && TypedFields(fs, vs) && LenFields(fs, vs) <= MAX_LEN && SizedFields(fs, vs, 0)
    ensures DecodeFields(fs, EncodeFields(fs, vs)) == Ok(ResetFields(fs, vs), [])
  {
    PrefixCompatible(fs, FNil, FNil, false);
    AppendNil(fs, vs);
    FieldsExact(fs, fs, false, vs, []);
    SelfTranslateFields(fs, false, vs, 0);
    assert EncodeFields(fs, vs) + [] == EncodeFields(fs, vs);
  }

  lemma NewFields(fs: Fields, added: Fields, vs: Values)
    requires WellFormedFields(fs) && TypedFields(fs, vs) && LenFields(fs, vs) <= MAX_LEN && SizedFields(fs, vs, 0)
    ensures DecodeFields(Append(fs, added), EncodeFields(fs, vs)) ==
            if AllOptional(added) then Ok(Concat(ResetFields(fs, vs), Fill(added)), []) else Err(BufferShort, [])
  {
    FieldsAlone(fs, vs);
    DecodeAppend(fs, added, EncodeFields(fs, vs));
    DecodeFieldsEmpty(added);
  }

  /** A new reader accepts what an older writer wrote exactly when every added field may be
      missing, and then fills those in; otherwise the buffer is too short for it. */
  lemma NewReader(fs: Fields, added: Fields, vs: Values, rest: seq<byte>)
    requires WellFormedFields(fs) && TypedFields(fs, vs)
    requires EncodedLen(Record(true, fs), VRecord(vs)) <= MAX_LEN
    requires SizedFields(fs, vs, 0)
    ensures Decode(Record(true, Append(fs, added)), Encode(Record(true, fs), VRecord(vs)) + rest) ==
            if AllOptional(added) then Ok(VRecord(Concat(ResetFields(fs, vs), Fill(added))), rest)
            else Err(BufferShort, rest)
  {
    NewFields(fs, added, vs);
    FrameIndependent(Record(true, fs), Record(true, Append(fs, added)), VRecord(vs), rest);
  }

  // ----- the size check -----

  /** An element that is one flag on the wire and holds a skipped field in memory. */
  function Bulky(hidden: Schema, default: Value): Schema {
    Record(false, FCons(Required, Flag, VBool(false), FCons(Skipped, hidden, default, FNil)))
  }

  function BulkyValue(flag: bool, default: Value): Value {
    VRecord(Cons(VBool(flag), Cons(default, Nil)))
  }

  lemma BulkyFacts(hidden: Schema, default: Value, flag: bool, k: nat)
    requires Typed(hidden, default)
    ensures var e, v := Bulky(hidden, default), BulkyValue(flag, default);
            Typed(e, v) && EncodedLen(e, v) == 1 && Encodable(e, v) && Sized(e, v, k) && Reset(e, v) == v
  {
    var last := FCons(Skipped, hidden, default, FNil);
    var vs := Cons(default, Nil);
    assert TypedFields(FNil, Nil) && TypedFields(last, vs);
    assert LenFields(FNil, Nil) == 0 && LenFields(last, vs) == 0;
    assert EncodableFields(FNil, Nil) && EncodableFields(last, vs);
    assert SizedFields(FNil, Nil, k) && SizedFields(last, vs, k);
    assert ResetFields(FNil, Nil) == Nil && ResetFields(last, vs) == vs;
    var fs, ws := FCons(Required, Flag, VBool(false), last), Cons(VBool(flag), vs);
    assert Typed(Flag, ws.head) && EncodedLen(Flag, ws.head) == 1 && Encodable(Flag, ws.head);
    assert Sized(Flag, ws.head, k) && Reset(Flag, ws.head) == ws.head;
    assert TypedFields(fs, ws) && LenFields(fs, ws) == 1 && EncodableFields(fs, ws);
    assert SizedFields(fs, ws, k) && ResetFields(fs, ws) == ws;
  }

  lemma OneItem(e: Schema, x: Value, size: nat, k: nat)
    requires Typed(e, x) && EncodedLen(e, x) == 1 && Encodable(e, x) && Sized(e, x, k) && Reset(e, x) == x
    requires size <= MAX_VEC
    ensures var s, v := Vec(e, size), VVec(Cons(x, Nil));
            && Typed(s, v) && Encodable(s, v) && EncodedLen(s, v) == 2 && Reset(s, v) == v
            && (Sized(s, v, k) <==> size <= 256 * (1 + k))
  {
    var items := Cons(x, Nil);
    assert Count(Nil) == 0 && Count(items) == 1;
    assert TypedItems(e, Nil) && TypedItems(e, items);
    assert LenItems(e, Nil) == 0 && LenItems(e, items) == 1;
    assert EncodableItems(e, Nil) && EncodableItems(e, items);
    assert SizedItems(e, Nil, k) && SizedItems(e, items, k);
    assert ResetItems(e, Nil) == Nil && ResetItems(e, items) == items;
    assert Times(0, size) == 0 && Times(1, size) == size;
    VarintLenExact(1);
  }

  /** A vector of one element that is a byte on the wire comes back exactly when the element's
      size in memory is at most 256 for each byte that is left: with nothing behind it, a type
      of more than 256 bytes is written and then refused. */
  lemma LargeElement(hidden: Schema, default: Value, size: nat, flag: bool, rest: seq<byte>)
    requires WellFormed(hidden) && Typed(hidden, default) && size <= MAX_VEC
    ensures var s, v := Vec(Bulky(hidden, default), size), VVec(Cons(BulkyValue(flag, default), Nil));
            && Typed(s, v) && Encodable(s, v)
            && var d := Decode(s, Encode(s, v) + rest);
               if size <= 256 * (1 + |rest|) then d == Ok(v, rest) else d.Err? && d.error == TooBig
  {
    var e, x := Bulky(hidden, default), BulkyValue(flag, default);
    BulkyFacts(hidden, default, flag, |rest|);
    OneItem(e, x, size, |rest|);
    assert WellFormedFields(FNil) && WellFormedFields(FCons(Skipped, hidden, default, FNil)) && WellFormed(e);
    RoundTrip(Vec(e, size), VVec(Cons(x, Nil)), rest);
  }

  // ----- vectors, with the numbers written out -----

  /** An element that is read back by itself, whatever follows it. */
  ghost predicate ComesBack(e: Schema, x: Value)
    requires Typed(e, x)
  {
    forall more :: Decode(e, Encode(e, x) + more) == Ok(x, more)
  }

  ghost predicate AllComeBack(e: Schema, vs: Values)
    requires TypedItems(e, vs)
  {
    vs.Nil? || (ComesBack(e, vs.head) && AllComeBack(e, vs.tail))
  }

  lemma {:induction false} ItemsComeBack(e: Schema, vs: Values, rest: seq<byte>)
    requires TypedItems(e, vs) && AllComeBack(e, vs)
    ensures DecodeItems(e, Count(vs), EncodeItems(e, vs) + rest) == Ok(vs, rest)
    decreases vs
  {
    if vs.Nil? {
      assert EncodeItems(e, vs) + rest == rest;
    } else {
      var more := EncodeItems(e, vs.tail) + rest;
      Associative(Encode(e, vs.head), EncodeItems(e, vs.tail), rest);
      assert Decode(e, Encode(e, vs.head) + more) == Ok(vs.head, more);
      ItemsComeBack(e, vs.tail, rest);
    }
  }

  /** A vector of elements that come back by themselves comes back exactly when they take at
      most 2 GiB in memory and at most 256 bytes for each byte left in the buffer, and is too
      big otherwise; the first of these is also what encode asks for. */
  lemma VectorExact(e: Schema, size: nat, items: Values, rest: seq<byte>)
    requires Typed(Vec(e, size), VVec(items)) && LenItems(e, items) <= MAX_LEN && AllComeBack(e, items)
    ensures var n := Count(items);
            Decode(Vec(e, size), Encode(Vec(e, size), VVec(items)) + rest) ==
            if n * size <= 0x8000_0000 && n * size <= 256 * (LenItems(e, items) + |rest|)
            then Ok(VVec(items), rest)
            else Err(TooBig, EncodeItems(e, items) + rest)
    ensures Encodable(Vec(e, size), VVec(items)) <==>
            Count(items) * size <= 0x8000_0000 && EncodableItems(e, items)
  {
    var n, more := Count(items), EncodeItems(e, items) + rest;
    Associative(VarintBytes(n), EncodeItems(e, items), rest);
    VarintRoundTrip(n, more);
    TimesIsProduct(n, size);
    ExactItems(e, items);
    ItemsComeBack(e, items, rest);
  }

  ghost predicate NotBulky(e: Schema, size: nat, vs: Values)
    requires TypedItems(e, vs)
  {
    vs.Nil? || (size <= 256 * EncodedLen(e, vs.head) && NotBulky(e, size, vs.tail))
  }

  lemma {:induction false} NotBulkySum(e: Schema, size: nat, vs: Values)
    requires TypedItems(e, vs) && NotBulky(e, size, vs)
    ensures Times(Count(vs), size) <= 256 * LenItems(e, vs)
    decreases vs
  {
    if vs.Cons? { NotBulkySum(e, size, vs.tail); }
  }

  /** So elements of at most 256 bytes in memory for each byte on the wire always come back, up
      to 2 GiB of them and wherever the vector stands. */
  lemma CompactVector(e: Schema, size: nat, items: Values, rest: seq<byte>)
    requires Typed(Vec(e, size), VVec(items)) && LenItems(e, items) <= MAX_LEN && AllComeBack(e, items)
    requires NotBulky(e, size, items) && Count(items) * size <= 0x8000_0000
    ensures Decode(Vec(e, size), Encode(Vec(e, size), VVec(items)) + rest) == Ok(VVec(items), rest)
  {
    VectorExact(e, size, items, rest);
    NotBulkySum(e, size, items);
    TimesIsProduct(Count(items), size);
  }

  lemma FixedComesBack(w: nat, x: Value)
    requires Typed(Fixed(w), x)
    ensures ComesBack(Fixed(w), x)
  {
    forall more ensures Decode(Fixed(w), Encode(Fixed(w), x) + more) == Ok(x, more) {
      ExactFixed(w, x, more);
    }
  }
}
