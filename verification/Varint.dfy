/** Variable length integers and zigzag, after netidx-core/src/pack.rs. */
module Varint {
  import opened Bytes

  datatype PackError = UnknownTag | TooBig | InvalidFormat | BufferShort

  /** A decoder's outcome with what is left of its buffer, also after a failure. */
  datatype Decoded<+T> = Ok(value: T, rest: seq<byte>) | Err(error: PackError, rest: seq<byte>)

  const U64: nat := 0x1_0000_0000_0000_0000

  type u64 = n: nat | n < U64

  function Pow128(k: nat): (r: nat)
    ensures r >= 1
  {
    if k == 0 then 1 else 128 * Pow128(k - 1)
  }

  lemma Pow128Values()
    ensures Pow128(9) == 0x8000_0000_0000_0000 && Pow128(10) > U64
  {
    assert Pow128(2) == 16384;
    assert Pow128(4) == 268435456;
    assert Pow128(6) == 0x400_0000_0000;
    assert Pow128(8) == 0x100_0000_0000_0000;
  }

  lemma {:induction false} Pow128Monotone(a: nat, b: nat)
    requires a <= b
    ensures Pow128(a) <= Pow128(b)
  {
    if a < b { Pow128Monotone(a, b - 1); }
  }

  /** LEB128: seven bits per byte, least significant first, the top bit marks more. */
  function VarintBytes(n: nat): (b: seq<byte>)
    ensures |b| >= 1
  {
    if n < 128 then [n] else [n % 128 + 128] + VarintBytes(n / 128)
  }

  class Buffer {
    var bytes: seq<byte>

    constructor (bytes: seq<byte>)
      ensures this.bytes == bytes
    {
      this.bytes := bytes;
    }

    method PutU8(x: byte)
      modifies this
      ensures bytes == old(bytes) + [x]
    {
      bytes := bytes + [x];
    }

    method Advance(n: nat)
      requires n <= |bytes|
      modifies this
      ensures bytes == old(bytes)[n..]
    {
      bytes := bytes[n..];
    }
  }

  /** At most ten rounds are enough for every u64. */
  method EncodeVarint(value: u64, buf: Buffer)
    modifies buf
    ensures buf.bytes == old(buf.bytes) + VarintBytes(value)
  {
    var v: nat := value;
    for i := 0 to 10
      invariant v * Pow128(i) <= value
      invariant buf.bytes + VarintBytes(v) == old(buf.bytes) + VarintBytes(value)
      invariant i == 10 ==> false
    {
      if v < 128 {
        buf.PutU8(v);
        return;
      }
      ghost var was := v;
      assert VarintBytes(v) == [v % 128 + 128] + VarintBytes(v / 128);
      buf.PutU8(v % 128 + 128);
      v := v / 128;
      ShiftDown(was, i, value);
      assert i < 9 by { if i == 9 { Pow128Values(); } }
    }
  }

  lemma ShiftDown(v: nat, i: nat, bound: nat)
    requires v * Pow128(i) <= bound
    ensures (v / 128) * Pow128(i + 1) <= bound
  {
    assert (v / 128) * 128 <= v;
    assert (v / 128) * (128 * Pow128(i)) == ((v / 128) * 128) * Pow128(i) <= v * Pow128(i);
  }

  /** The low seven bits of the i-th byte, moved to their place in a 64-bit word. */
  function Group(x: byte, i: nat): nat {
    ((x % 128) * Pow128(i)) % U64
  }

  /** decode_varint after i bytes with the bits gathered so far; b is what follows. The
      shifted group never meets bits gathered before, so or is addition. A short buffer is
      not consumed, ten bytes without an end are. */
  function Gather(b: seq<byte>, i: nat, value: nat): (r: Option<Decoded<nat>>)
    requires i <= 10
    ensures r.Some? ==> IsSuffix(r.value.rest, b)
  {
    if i == 10 then Some(Err(InvalidFormat, b))
    else if b == [] then None
    else
      var v := value + Group(b[0], i);
      if b[0] <= 127 then Some(Ok(v, b[1..])) else
        var r := Gather(b[1..], i + 1, v);
        assert r.Some? ==> b[|b| - |r.value.rest|..] == b[1..][|b[1..]| - |r.value.rest|..];
        r
  }

  predicate IsSuffix(a: seq<byte>, b: seq<byte>) {
    |a| <= |b| && a == b[|b| - |a|..]
  }

  function DecodeVarint(b: seq<byte>): (r: Decoded<nat>)
    ensures IsSuffix(r.rest, b)
    ensures r.Ok? ==> r.value < U64
  {
    GatherBound(b, 0, 0);
    match Gather(b, 0, 0)
    case None => Err(BufferShort, b)
    case Some(r) => r
  }

  /** Bits gathered before byte i stay below position 7i, and all within the word. */
  ghost predicate Gathered(i: nat, value: nat) {
    if i >= 10 then value < U64 else value < Pow128(i)
  }

  lemma GroupFits(x: byte, i: nat, value: nat)
    requires i < 10 && Gathered(i, value)
    ensures Gathered(i + 1, value + Group(x, i))
  {
    Pow128Values();
    if i < 9 {
      var g := (x % 128) * Pow128(i);
      assert g <= 127 * Pow128(i);
      Pow128Monotone(i + 1, 9);
      SmallMod(g);
    } else {
      TopGroup(x % 128);
    }
  }

  lemma SmallMod(n: nat)
    requires n < U64
    ensures n % U64 == n
  {}

  lemma {:induction false} GatherBound(b: seq<byte>, i: nat, value: nat)
    requires i <= 10 && Gathered(i, value)
    ensures Gather(b, i, value).Some? && Gather(b, i, value).value.Ok? ==>
              Gather(b, i, value).value.value < U64
  {
    if i < 10 && b != [] {
      GroupFits(b[0], i, value);
      GatheredInWord(i + 1, value + Group(b[0], i));
      if b[0] > 127 {
        GatherBound(b[1..], i + 1, value + Group(b[0], i));
      }
    }
  }

  lemma GatheredInWord(i: nat, value: nat)
    requires Gathered(i, value)
    ensures value < U64
  {
    if i < 10 {
      Pow128Values();
      Pow128Monotone(i, 9);
    }
  }

  lemma TopGroup(x: nat)
    requires x < 128
    ensures (x * 0x8000_0000_0000_0000) % U64 == (x % 2) * 0x8000_0000_0000_0000
  {
    var h := x / 2;
    assert x == 2 * h + x % 2;
    assert x * 0x8000_0000_0000_0000 == h * U64 + (x % 2) * 0x8000_0000_0000_0000;
  }

  /** The loop of decode_varint over a buffer. */
  method DecodeVarintLoop(buf: Buffer) returns (r: Decoded<nat>)
    modifies buf
    ensures r == DecodeVarint(old(buf.bytes)) && buf.bytes == r.rest
  {
    var bytes := buf.bytes;
    var value: nat := 0;
    assert bytes[0..] == bytes;
    for i := 0 to 10
      invariant buf.bytes == bytes && i <= |bytes|
      invariant Gather(bytes[i..], i, value) == Gather(bytes, 0, 0)
    {
      if i >= |bytes| {
        return Err(BufferShort, bytes);
      }
      var byte := bytes[i];
      assert bytes[i..][0] == byte && bytes[i..][1..] == bytes[i + 1..];
      value := value + Group(byte, i);
      if byte <= 0x7F {
        buf.Advance(i + 1);
        return Ok(value, buf.bytes);
      }
    }
    buf.Advance(10);
    return Err(InvalidFormat, buf.bytes);
  }

  lemma MulAtLeast(m: nat, p: nat)
    requires m >= 1
    ensures m * p >= p
  {}

  lemma PlaceBelow10(m: nat, i: nat)
    requires m >= 1 && m * Pow128(i) < U64
    ensures i < 10
  {
    if i >= 10 {
      Pow128Values();
      Pow128Monotone(10, i);
      MulAtLeast(m, Pow128(i));
    }
  }

  /** The low group and the rest of a number, each at its place. */
  lemma GroupSplit(m: nat, i: nat, acc: nat)
    requires acc + m * Pow128(i) < U64
    ensures Group(m % 128, i) == Group(m % 128 + 128, i) == (m % 128) * Pow128(i)
    ensures m * Pow128(i) == (m % 128) * Pow128(i) + (m / 128) * Pow128(i + 1)
  {
    var P, lo, hi := Pow128(i), m % 128, m / 128;
    assert m == lo + 128 * hi;
    assert m * P == lo * P + hi * (128 * P);
    assert hi * (128 * P) >= 0;
    assert lo % 128 == lo && (lo + 128) % 128 == lo;
    SmallMod(lo * P);
  }

  lemma {:induction false} GatherInverts(m: nat, rest: seq<byte>, i: nat, acc: nat, total: nat)
    requires total == acc + m * Pow128(i) < U64 && i < 10
    ensures Gather(VarintBytes(m) + rest, i, acc) == Some(Ok(total, rest))
    decreases m
  {
    var b := VarintBytes(m) + rest;
    GroupSplit(m, i, acc);
    if m < 128 {
      assert b == [m] + rest;
    } else {
      PlaceBelow10(m / 128, i + 1);
      assert b == [m % 128 + 128] + (VarintBytes(m / 128) + rest);
      GatherInverts(m / 128, rest, i + 1, acc + Group(m % 128 + 128, i), total);
    }
  }

  /** Every u64 comes back from its encoding, and nothing after it is touched. */
  lemma VarintRoundTrip(n: u64, rest: seq<byte>)
    ensures DecodeVarint(VarintBytes(n) + rest) == Ok(n, rest)
  {
    assert n * Pow128(0) == n;
    GatherInverts(n, rest, 0, 0, n);
  }

  // ----- the closed form of the length -----

  /** The position of the highest bit set. */
  function Log2(n: nat): nat
    requires n >= 1
  {
    if n == 1 then 0 else 1 + Log2(n / 2)
  }

  function OrOne(n: nat): nat {
    if n % 2 == 0 then n + 1 else n
  }

  /** Leading zeros of a 64-bit word; xor with 63 complements a number below 64. */
  function LeadingZeros(n: nat): int
    requires n >= 1
  {
    63 - Log2(n)
  }

  function VarintLen(n: nat): nat {
    ((63 - LeadingZeros(OrOne(n))) * 9 + 73) / 64
  }

  lemma Log2Div4(n: nat)
    requires n >= 4
    ensures Log2(n) == 2 + Log2(n / 4)
  {
    assert n / 2 / 2 == n / 4;
  }

  lemma Log2Div128(n: nat)
    requires n >= 128
    ensures Log2(n) == 7 + Log2(n / 128)
  {
    Log2Div4(n);
    Log2Div4(n / 4);
    assert n / 4 / 4 == n / 16;
    Log2Div4(n / 16);
    assert n / 16 / 4 == n / 64 && n / 64 / 2 == n / 128;
  }

  lemma {:induction false} BytesByLog2(n: nat)
    ensures |VarintBytes(n)| == if n == 0 then 1 else Log2(n) / 7 + 1
    decreases n
  {
    if n >= 128 {
      Log2Div128(n);
      BytesByLog2(n / 128);
    } else if n > 0 {
      SmallLog2(n);
    }
  }

  lemma SmallLog2(n: nat)
    requires 1 <= n < 128
    ensures Log2(n) < 7
  {
    Log2Bound(n, 7);
  }

  function Pow2(k: nat): nat {
    if k == 0 then 1 else 2 * Pow2(k - 1)
  }

  lemma {:induction false} Log2Bound(n: nat, k: nat)
    requires n >= 1 && k >= 1 && n < Pow2(k)
    ensures Log2(n) < k
  {
    if n > 1 {
      assert Pow2(1) == 2;
      Log2Bound(n / 2, k - 1);
    }
  }

  lemma Pow2Values()
    ensures Pow2(7) == 128 && Pow2(64) == U64
  {
    assert Pow2(8) == 256;
    Pow2Add(8, 8);
    Pow2Add(16, 16);
    Pow2Add(32, 32);
  }

  lemma {:induction false} Pow2Add(a: nat, b: nat)
    ensures Pow2(a + b) == Pow2(a) * Pow2(b)
  {
    if b > 0 { Pow2Add(a, b - 1); }
  }

  lemma Log2OrOne(n: nat)
    ensures Log2(OrOne(n)) == if n == 0 then 0 else Log2(n)
  {
    if n % 2 == 0 { assert (n + 1) / 2 == n / 2; }
  }

  lemma Log2Under64(n: u64)
    requires n >= 1
    ensures Log2(n) <= 63
  {
    Pow2Values();
    Log2Bound(n, 64);
  }

  /** The multiply-and-shift formula counts the bytes for every u64. */
  lemma VarintLenExact(n: u64)
    ensures VarintLen(n) == |VarintBytes(n)|
  {
    BytesByLog2(n);
    Log2OrOne(n);
    if n > 0 { Log2Under64(n); }
    Sevenths(Log2(OrOne(n)));
  }

  lemma Sevenths(l: nat)
    requires l <= 63
    ensures (l * 9 + 73) / 64 == l / 7 + 1
  {}

  lemma {:induction false} ByteBounds(n: nat)
    ensures n < Pow128(|VarintBytes(n)|)
    ensures n >= 1 ==> Pow128(|VarintBytes(n)| - 1) <= n
    decreases n
  {
    if n >= 128 { ByteBounds(n / 128); }
  }

  lemma {:induction false} BytesAtMost(n: nat, k: nat)
    requires k >= 1 && n < Pow128(k)
    ensures |VarintBytes(n)| <= k
    decreases n
  {
    if n >= 128 {
      assert k > 1 by { assert Pow128(1) == 128; }
      BytesAtMost(n / 128, k - 1);
    }
  }

  lemma BytesMonotone(a: nat, b: nat)
    requires a <= b
    ensures |VarintBytes(a)| <= |VarintBytes(b)|
  {
    ByteBounds(b);
    BytesAtMost(a, |VarintBytes(b)|);
  }

  lemma {:induction false} Pow128Room(k: nat)
    requires k >= 1
    ensures Pow128(k) + k + 1 < Pow128(k + 1)
  {
    if k > 1 { Pow128Room(k - 1); }
  }

  /** The length of a frame that holds n bytes and its own length. */
  function LenWrappedLen(n: nat): nat {
    n + VarintLen(n + VarintLen(n))
  }

  /** Adding a header can lengthen the header by one byte at most, and then no further. */
  lemma HeaderSettles(n: nat)
    ensures var k := |VarintBytes(n)|;
            var m := |VarintBytes(n + k)|;
            k <= m <= k + 1 && |VarintBytes(n + m)| == m
  {
    var k := |VarintBytes(n)|;
    ByteBounds(n);
    Pow128Room(k);
    BytesMonotone(n, n + k);
    BytesAtMost(n + k, k + 1);
    BytesMonotone(n + k, n + k + 1);
    BytesAtMost(n + k + 1, k + 1);
  }

  lemma HeaderLeast(n: nat, x: nat)
    requires x == n + |VarintBytes(x)|
    ensures n + |VarintBytes(n + |VarintBytes(n)|)| <= x
  {
    BytesMonotone(n, x);
    BytesMonotone(n + |VarintBytes(n)|, x);
  }

  lemma LenWrappedBytes(n: nat)
    requires n + 20 < U64
    ensures LenWrappedLen(n) == n + |VarintBytes(n + |VarintBytes(n)|)| <= n + 10
  {
    VarintLenExact(n);
    BytesUnder64(n);
    VarintLenExact(n + |VarintBytes(n)|);
    BytesUnder64(n + |VarintBytes(n)|);
  }

  /** len_wrapped_len is the least solution of: length = body + header of the length. */
  lemma LenWrappedFixpoint(n: nat)
    requires n + 20 < U64
    ensures LenWrappedLen(n) < U64 && n + VarintLen(LenWrappedLen(n)) == LenWrappedLen(n)
    ensures VarintLen(LenWrappedLen(n)) == |VarintBytes(LenWrappedLen(n))|
    ensures forall x: u64 :: x == n + VarintLen(x) ==> LenWrappedLen(n) <= x
  {
    LenWrappedBytes(n);
    HeaderSettles(n);
    VarintLenExact(LenWrappedLen(n));
    forall x: u64 | x == n + VarintLen(x) ensures LenWrappedLen(n) <= x {
      VarintLenExact(x);
      HeaderLeast(n, x);
    }
  }

  lemma BytesUnder64(n: u64)
    ensures |VarintBytes(n)| <= 10
  {
    Pow128Values();
    BytesAtMost(n, 10);
  }

  /** So the subtraction in len_wrapped_decode never goes below zero. */
  lemma HeaderFits(n: u64)
    requires n >= 1
    ensures 1 <= VarintLen(n) <= n && VarintLen(n) <= 10
  {
    VarintLenExact(n);
    BytesUnder64(n);
    HeaderShort(n);
  }

  lemma {:induction false} HeaderShort(n: nat)
    requires n >= 1
    ensures |VarintBytes(n)| <= n
    decreases n
  {
    if n >= 128 { HeaderShort(n / 128); }
  }

  // ----- zigzag -----

  const U32: nat := 0x1_0000_0000

  predicate IsWord(word: nat) {
    word == U32 || word == U64
  }

  /** i32_zz and i64_zz for words of the given size: the doubled number, wrapped to the word,
      xor the sign spread over the word, which complements it when the number is negative. */
  function Zz(n: int, word: nat): int
    requires IsWord(word)
  {
    var doubled := (2 * n) % word;
    if n < 0 then word - 1 - doubled else doubled
  }

  /** i32_uzz and i64_uzz: half the word, complemented when its low bit is set. */
  function Uzz(u: nat, word: nat): int
    requires IsWord(word)
  {
    if u % 2 == 1 then -(u / 2) - 1 else u / 2
  }

  predicate Signed(n: int, word: nat) {
    0 <= 2 * n + word && 2 * n < word
  }

  /** Zigzag is a bijection between signed and unsigned words that keeps small numbers small. */
  lemma Zigzag(n: int, u: nat, word: nat)
    requires IsWord(word) && Signed(n, word) && u < word
    ensures 0 <= Zz(n, word) < word && Uzz(Zz(n, word), word) == n
    ensures Signed(Uzz(u, word), word) && Zz(Uzz(u, word), word) == u
    ensures Zz(n, word) == if n < 0 then -2 * n - 1 else 2 * n
  {
    assert n < 0 ==> (2 * n) % word == 2 * n + word;
  }
}
