/** The matching of globs as documented in netidx-netproto/src/glob.rs, and exactly when two
    globs have a common match. Characters are bytes. */
module GlobMatch {
  import opened Bytes
  import opened Paths
  import opened Glob

  /** One character of a set, or any number of them. */
  datatype Token = One(chars: set<byte>) | Many(chars: set<byte>)

  type Pattern = seq<Token>

  ghost predicate Match(ts: Pattern, text: Key)
    decreases |ts| + |text|
  {
    if ts == [] then text == []
    else if ts[0].One? then text != [] && text[0] in ts[0].chars && Match(ts[1..], text[1..])
    else Match(ts[1..], text) || (text != [] && text[0] in ts[0].chars && Match(ts, text[1..]))
  }

  // ----- common matches -----

  predicate Share(a: Token, b: Token) {
    exists c <- a.chars :: c in b.chars
  }

  /** Whether two patterns have a common match, without looking for one. */
  predicate Overlap(ts: Pattern, us: Pattern)
    decreases |ts| + |us|
  {
    || (ts == [] && us == [])
    || (ts != [] && ts[0].Many? && Overlap(ts[1..], us))
    || (us != [] && us[0].Many? && Overlap(ts, us[1..]))
    || (ts != [] && us != [] && (ts[0].One? || us[0].One?) && Share(ts[0], us[0]) &&
        Overlap(if ts[0].One? then ts[1..] else ts, if us[0].One? then us[1..] else us))
  }

  lemma {:induction false} MatchOverlaps(ts: Pattern, us: Pattern, text: Key)
    requires Match(ts, text) && Match(us, text)
    ensures Overlap(ts, us)
    decreases |ts| + |us| + |text|
  {
    if ts != [] && ts[0].Many? && Match(ts[1..], text) {
      MatchOverlaps(ts[1..], us, text);
    } else if us != [] && us[0].Many? && Match(us[1..], text) {
      MatchOverlaps(ts, us[1..], text);
    } else if ts != [] && us != [] {
      assert text[0] in ts[0].chars && text[0] in us[0].chars;
      MatchOverlaps(if ts[0].One? then ts[1..] else ts, if us[0].One? then us[1..] else us, text[1..]);
    }
  }

  lemma Extend(ts: Pattern, c: byte, rest: Key)
    requires ts != [] && c in ts[0].chars && Match(if ts[0].One? then ts[1..] else ts, rest)
    ensures Match(ts, [c] + rest)
  {
    assert ([c] + rest)[1..] == rest;
  }

  lemma {:induction false} OverlapMatches(ts: Pattern, us: Pattern) returns (text: Key)
    requires Overlap(ts, us)
    ensures Match(ts, text) && Match(us, text)
    decreases |ts| + |us|
  {
    if ts == [] && us == [] {
      text := [];
    } else if ts != [] && ts[0].Many? && Overlap(ts[1..], us) {
      text := OverlapMatches(ts[1..], us);
    } else if us != [] && us[0].Many? && Overlap(ts, us[1..]) {
      text := OverlapMatches(ts, us[1..]);
    } else {
      var c :| c in ts[0].chars && c in us[0].chars;
      var rest := OverlapMatches(if ts[0].One? then ts[1..] else ts, if us[0].One? then us[1..] else us);
      Extend(ts, c, rest);
      Extend(us, c, rest);
      text := [c] + rest;
    }
  }

  ghost predicate Common(ts: Pattern, us: Pattern, text: Key) {
    Match(ts, text) && Match(us, text)
  }

  /** Two patterns have a common match exactly when they overlap. */
  lemma OverlapExact(ts: Pattern, us: Pattern)
    ensures Overlap(ts, us) <==> exists text :: Common(ts, us, text)
  {
    if Overlap(ts, us) {
      var text := OverlapMatches(ts, us);
      assert Common(ts, us, text);
    } else if text :| Common(ts, us, text) {
      MatchOverlaps(ts, us, text);
    }
  }

  // ----- reading a glob -----

  const QUERY: byte := 63
  const STAR: byte := 42
  const OPEN_BRACE: byte := 123
  const CLOSE_BRACE: byte := 125
  const OPEN_CLASS: byte := 91
  const CLOSE_CLASS: byte := 93
  const BANG: byte := 33
  const COMMA: byte := 44
  const DASH: byte := 45

  function Below(n: nat): (s: set<byte>)
    requires n <= 256
    ensures forall c: byte :: c in s <==> c < n
  {
    if n == 0 then {} else Below(n - 1) + {n - 1}
  }

  function All(): set<byte> {
    Below(256)
  }

  /** What ? and * stand for; the documentation excludes the separator. */
  function Wild(crosses: bool): set<byte> {
    if crosses then All() else All() - {SEP}
  }

  function IndexOf(s: Key, c: byte, from: nat): (r: Option<nat>)
    ensures r.Some? ==> from <= r.value < |s| && s[r.value] == c
    decreases |s| - from
  {
    if from >= |s| then None else if s[from] == c then Some(from) else IndexOf(s, c, from + 1)
  }

  /** The characters of a class, with ranges such as a-z. */
  function Members(s: Key): set<byte> {
    if s == [] then {}
    else if |s| >= 3 && s[1] == DASH then (Below((s[2] as nat) + 1) - Below(s[0])) + Members(s[3..])
    else {s[0]} + Members(s[1..])
  }

  /** The class after an opening bracket, with what follows it: [ab] or [!ab], not empty. */
  function Class(s: Key): (r: Option<(Token, Key)>)
    ensures r.Some? ==> r.value.0.One? && |r.value.1| < |s|
  {
    var negated := s != [] && s[0] == BANG;
    var from := if negated then 1 else 0;
    match IndexOf(s, CLOSE_CLASS, from + 1)
    case None => None
    case Some(j) =>
      var members := Members(s[from..j]);
      Some((One(if negated then All() - members else members), s[j + 1..]))
  }

  /** One alternative between braces, up to the comma or brace that ends it: braces do not
      nest, and ** has no place in them. */
  function Piece(s: Key, crosses: bool): (r: Option<(Pattern, Key)>)
    ensures r.Some? ==> 0 < |r.value.1| <= |s| && r.value.1[0] in {COMMA, CLOSE_BRACE}
    decreases |s|
  {
    if s == [] || s[0] == OPEN_BRACE then None
    else if s[0] in {COMMA, CLOSE_BRACE} then Some(([], s))
    else
      match Single(s, crosses)
      case None => None
      case Some((t, rest)) =>
        match Piece(rest, crosses)
        case None => None
        case Some((ts, after)) => Some(([t] + ts, after))
  }

  /** A single token that is neither ** nor an alternation. */
  function Single(s: Key, crosses: bool): (r: Option<(Token, Key)>)
    requires s != [] && s[0] != OPEN_BRACE
    ensures r.Some? ==> |r.value.1| < |s|
  {
    if s[0] == ESC then if |s| < 2 then None else Some((One({s[1]}), s[2..]))
    else if s[0] == QUERY then Some((One(Wild(crosses)), s[1..]))
    else if s[0] == STAR then
      if |s| >= 2 && s[1] == STAR then None else Some((Many(Wild(crosses)), s[1..]))
    else if s[0] == OPEN_CLASS then Class(s[1..])
    else Some((One({s[0]}), s[1..]))
  }

  /** The alternatives after an opening brace, with what follows the closing one. */
  function Alternatives(s: Key, crosses: bool): (r: Option<(seq<Pattern>, Key)>)
    ensures r.Some? ==> |r.value.1| < |s|
    decreases |s|
  {
    match Piece(s, crosses)
    case None => None
    case Some((ts, rest)) =>
      if rest[0] == CLOSE_BRACE then Some(([ts], rest[1..]))
      else
        match Alternatives(rest[1..], crosses)
        case None => None
        case Some((more, after)) => Some(([ts] + more, after))
  }

  function Prefixed(ts: Pattern, ps: seq<Pattern>): seq<Pattern> {
    seq(|ps|, i requires 0 <= i < |ps| => ts + ps[i])
  }

  function Product(heads: seq<Pattern>, tails: seq<Pattern>): seq<Pattern> {
    if heads == [] then [] else Prefixed(heads[0], tails) + Product(heads[1..], tails)
  }

  /** All the patterns a glob stands for, or none when it is not legal. ** stands alone between
      separators: before one it is nothing or any text that ends in a separator, at the end
      it is any text. */
  function Read(raw: Key, afterSep: bool, crosses: bool): Option<seq<Pattern>>
    decreases |raw|
  {
    if raw == [] then Some([[]])
    else if raw[0] == STAR && |raw| >= 2 && raw[1] == STAR then
      if !afterSep then None
      else if |raw| == 2 then Some([[Many(All())]])
      else if raw[2] != SEP then None
      else
        match Read(raw[3..], true, crosses)
        case None => None
        case Some(ps) => Some(ps + Prefixed([Many(All()), One({SEP})], ps))
    else if raw[0] == OPEN_BRACE then
      match Alternatives(raw[1..], crosses)
      case None => None
      case Some((heads, rest)) =>
        match Read(rest, false, crosses)
        case None => None
        case Some(tails) => Some(Product(heads, tails))
    else
      match Single(raw, crosses)
      case None => None
      case Some((t, rest)) =>
        match Read(rest, raw[0] == SEP, crosses)
        case None => None
        case Some(ps) => Some(Prefixed([t], ps))
  }

  function Patterns(raw: Key, crosses: bool): seq<Pattern> {
    match Read(raw, false, crosses)
    case None => []
    case Some(ps) => ps
  }

  ghost predicate MatchSome(ps: seq<Pattern>, text: Key) {
    exists i | 0 <= i < |ps| :: Match(ps[i], text)
  }

  /** A glob set matches a text when one of its globs does. */
  ghost predicate SetMatches(globs: seq<Key>, crosses: bool, text: Key) {
    exists i | 0 <= i < |globs| :: MatchSome(Patterns(globs[i], crosses), text)
  }

  // ----- sets -----

  predicate SomeOverlap(ps: seq<Pattern>, qs: seq<Pattern>) {
    exists i, j | 0 <= i < |ps| && 0 <= j < |qs| :: Overlap(ps[i], qs[j])
  }

  predicate SetsOverlap(globs: seq<Key>, others: seq<Key>, crosses: bool) {
    exists i, j | 0 <= i < |globs| && 0 <= j < |others| ::
      SomeOverlap(Patterns(globs[i], crosses), Patterns(others[j], crosses))
  }

  lemma SomeOverlapExact(ps: seq<Pattern>, qs: seq<Pattern>)
    ensures SomeOverlap(ps, qs) <==> exists text :: MatchSome(ps, text) && MatchSome(qs, text)
  {
    if SomeOverlap(ps, qs) {
      var i, j :| 0 <= i < |ps| && 0 <= j < |qs| && Overlap(ps[i], qs[j]);
      var text := OverlapMatches(ps[i], qs[j]);
      assert MatchSome(ps, text) && MatchSome(qs, text);
    }
    if text :| MatchSome(ps, text) && MatchSome(qs, text) {
      var i :| 0 <= i < |ps| && Match(ps[i], text);
      var j :| 0 <= j < |qs| && Match(qs[j], text);
      MatchOverlaps(ps[i], qs[j], text);
    }
  }

  /** Two sets of globs match a common text exactly when they overlap, which can be decided
      before any text is seen. So the answer true is wrong exactly when they overlap. */
  lemma SetsOverlapExact(globs: seq<Key>, others: seq<Key>, crosses: bool)
    ensures SetsOverlap(globs, others, crosses) <==>
            exists text :: SetMatches(globs, crosses, text) && SetMatches(others, crosses, text)
  {
    if SetsOverlap(globs, others, crosses) {
      var i, j :| 0 <= i < |globs| && 0 <= j < |others| &&
        SomeOverlap(Patterns(globs[i], crosses), Patterns(others[j], crosses));
      SomeOverlapExact(Patterns(globs[i], crosses), Patterns(others[j], crosses));
      var text :| MatchSome(Patterns(globs[i], crosses), text) && MatchSome(Patterns(others[j], crosses), text);
      assert SetMatches(globs, crosses, text) && SetMatches(others, crosses, text);
    }
    if text :| SetMatches(globs, crosses, text) && SetMatches(others, crosses, text) {
      var i :| 0 <= i < |globs| && MatchSome(Patterns(globs[i], crosses), text);
      var j :| 0 <= j < |others| && MatchSome(Patterns(others[j], crosses), text);
      SomeOverlapExact(Patterns(globs[i], crosses), Patterns(others[j], crosses));
    }
  }

  // ----- the documented matching is one of those DisjointSound speaks of -----

  ghost function Documented(crosses: bool): (Key, Key) -> bool {
    (raw, text) =>
      (Read(raw, true, crosses).Some? && MatchSome(Read(raw, true, crosses).value, text)) ||
      (Read(raw, false, crosses).Some? && MatchSome(Read(raw, false, crosses).value, text))
  }

  lemma PrefixedOne(c: byte, ps: seq<Pattern>, text: Key)
    requires MatchSome(Prefixed([One({c})], ps), text)
    ensures text != [] && text[0] == c && MatchSome(ps, text[1..])
  {
    var i :| 0 <= i < |ps| && Match(Prefixed([One({c})], ps)[i], text);
    assert ([One({c})] + ps[i])[1..] == ps[i];
  }

  lemma {:induction false} DocumentedMatches(raw: Key, afterSep: bool, crosses: bool, text: Key)
    requires Read(raw, afterSep, crosses).Some? && MatchSome(Read(raw, afterSep, crosses).value, text)
    ensures Matches(Documented(crosses), raw, text)
    decreases |raw|
  {
    if raw == [] {
      assert Match([], text);
    } else if !IsMeta(raw[0]) {
      var (t, rest) := Single(raw, crosses).value;
      var ps := Read(rest, raw[0] == SEP, crosses).value;
      PrefixedOne(if raw[0] == ESC then raw[1] else raw[0], ps, text);
      DocumentedMatches(rest, raw[0] == SEP, crosses, text[1..]);
    }
  }

  /** For globs whose plain prefixes hold no escapes the answer true is right. */
  lemma DocumentedSound(globs: seq<Key>, others: seq<Key>, crosses: bool)
    requires PlainSets(globs) && PlainSets(others) && AllApart(globs, others)
    ensures !SetsOverlap(globs, others, crosses)
  {
    SetsOverlapExact(globs, others, crosses);
    if text :| SetMatches(globs, crosses, text) && SetMatches(others, crosses, text) {
      DocumentedSet(globs, crosses, text);
      DocumentedSet(others, crosses, text);
      DisjointSound(Documented(crosses), globs, others, text);
    }
  }

  lemma DocumentedSet(globs: seq<Key>, crosses: bool, text: Key)
    requires SetMatches(globs, crosses, text)
    ensures MatchesAny(Documented(crosses), globs, text)
  {
    var i :| 0 <= i < |globs| && MatchSome(Patterns(globs[i], crosses), text);
    DocumentedMatches(globs[i], false, crosses, text);
  }

  // ----- globs without special characters -----

  /** The text a glob without unescaped special characters stands for. */
  function Literal(raw: Key): Option<Key>
    decreases |raw|
  {
    if raw == [] then Some([])
    else if IsMeta(raw[0]) || (raw[0] == ESC && |raw| < 2) then None
    else
      var n := if raw[0] == ESC then 2 else 1;
      match Literal(raw[n..])
      case None => None
      case Some(t) => Some([raw[n - 1]] + t)
  }

  function Spelled(t: Key): Pattern {
    if t == [] then [] else [One({t[0]})] + Spelled(t[1..])
  }

  lemma {:induction false} ReadLiteral(raw: Key, afterSep: bool, crosses: bool)
    requires Literal(raw).Some?
    ensures Read(raw, afterSep, crosses) == Some([Spelled(Literal(raw).value)])
    decreases |raw|
  {
    if raw != [] {
      var n := if raw[0] == ESC then 2 else 1;
      var t := Literal(raw[n..]).value;
      ReadLiteral(raw[n..], raw[0] == SEP, crosses);
      assert Single(raw, crosses) == Some((One({raw[n - 1]}), raw[n..]));
      assert ([raw[n - 1]] + t)[1..] == t;
      assert Prefixed([One({raw[n - 1]})], [Spelled(t)]) == [Spelled([raw[n - 1]] + t)];
    }
  }

  lemma SameHead(a: Key, b: Key)
    requires a != [] && b != []
    ensures a == b <==> a[0] == b[0] && a[1..] == b[1..]
  {
    assert a == [a[0]] + a[1..] && b == [b[0]] + b[1..];
  }

  lemma {:induction false} MatchSpelled(t: Key, text: Key)
    ensures Match(Spelled(t), text) <==> text == t
    decreases |t|
  {
    if t != [] {
      var ts := Spelled(t);
      assert ts[0] == One({t[0]}) && ts[1..] == Spelled(t[1..]);
      if text != [] {
        MatchSpelled(t[1..], text[1..]);
        SameHead(t, text);
      }
    }
  }

  lemma MatchLiteral(raw: Key, crosses: bool, text: Key)
    requires Literal(raw).Some?
    ensures MatchSome(Patterns(raw, crosses), text) <==> text == Literal(raw).value
  {
    ReadLiteral(raw, false, crosses);
    var t := Literal(raw).value;
    assert Patterns(raw, crosses)[0] == Spelled(t);
    MatchSpelled(t, text);
    if text == t { assert Match(Patterns(raw, crosses)[0], text); }
  }

  /** Such globs overlap exactly when they spell the same text. */
  lemma LiteralExact(a: Key, b: Key, crosses: bool)
    requires Literal(a).Some? && Literal(b).Some?
    ensures SetsOverlap([a], [b], crosses) <==> Literal(a) == Literal(b)
  {
    SetsOverlapExact([a], [b], crosses);
    var x, y := Literal(a).value, Literal(b).value;
    forall text
      ensures SetMatches([a], crosses, text) <==> text == x
      ensures SetMatches([b], crosses, text) <==> text == y
    {
      MatchLiteral(a, crosses, text);
      MatchLiteral(b, crosses, text);
      assert [a][0] == a && [b][0] == b;
    }
    if x == y { assert SetMatches([a], crosses, x) && SetMatches([b], crosses, x); }
  }

  /** Escapes are compared as they are written: a character and its escaped spelling count as
      disjoint, and overlap. */
  lemma EscapesUnsound(c: byte, crosses: bool)
    requires !IsMeta(c) && c != ESC
    ensures AllApart([[SEP, ESC, c]], [[SEP, c]]) && SetsOverlap([[SEP, ESC, c]], [[SEP, c]], crosses)
  {
    var a: Key, b: Key, d: Key, e: Key := [SEP, ESC, c], [SEP, c], [ESC, c], [c];
    PlainLiteral(a);
    PlainLiteral(b);
    assert a[..2] == [SEP, ESC];
    assert a[1..] == d && d[2..] == [] && b[1..] == e && e[1..] == [];
    assert Literal([]) == Some([]);
    assert Literal(e) == Some([c] + []) && Literal(d) == Some([c] + []);
    LiteralExact(a, b, crosses);
  }

  // ----- what each construct matches -----

  lemma PrefixedSingle(ts: Pattern, p: Pattern, r: Pattern)
    requires ts + p == r
    ensures Prefixed(ts, [p]) == [r]
  {
    assert Prefixed(ts, [p])[0] == ts + p;
  }

  lemma PrefixedPair(ts: Pattern, p: Pattern, q: Pattern, r: Pattern, s: Pattern)
    requires ts + p == r && ts + q == s
    ensures Prefixed(ts, [p, q]) == [r, s]
  {
    assert Prefixed(ts, [p, q])[0] == ts + p && Prefixed(ts, [p, q])[1] == ts + q;
  }

  lemma ReadOne(raw: Key, t: Token, crosses: bool)
    requires raw != [] && raw[0] != OPEN_BRACE && !(raw[0] == STAR && |raw| >= 2 && raw[1] == STAR)
    requires Single(raw, crosses) == Some((t, []))
    ensures Patterns(raw, crosses) == [[t]]
  {
    assert Read([], raw[0] == SEP, crosses) == Some([[]]);
    PrefixedSingle([t], [], [t]);
  }

  lemma {:induction false} MatchMany(chars: set<byte>, text: Key)
    ensures Match([Many(chars)], text) <==> forall i | 0 <= i < |text| :: text[i] in chars
    decreases |text|
  {
    var ts := [Many(chars)];
    assert ts[1..] == [];
    if text != [] {
      MatchMany(chars, text[1..]);
      assert text == [text[0]] + text[1..];
      assert !Match([], text);
      if forall i | 0 <= i < |text[1..]| :: text[1..][i] in chars {
        assert forall i | 1 <= i < |text| :: text[i] == text[1..][i - 1];
      }
    } else {
      assert Match([], text);
    }
  }

  lemma MatchOne(chars: set<byte>, text: Key)
    ensures Match([One(chars)], text) <==> |text| == 1 && text[0] in chars
  {
    var ts := [One(chars)];
    assert ts[1..] == [];
    if text != [] { assert Match([], text[1..]) <==> |text| == 1; }
  }

  lemma MatchSingle(t: Token, text: Key)
    ensures MatchSome([[t]], text) <==> Match([t], text)
  {
    assert [[t]][0] == [t];
  }

  /** ? is one character, * any number of them, none of them a separator. */
  lemma WildcardsMatch(text: Key, crosses: bool)
    ensures MatchSome(Patterns([QUERY], crosses), text) <==> |text| == 1 && (crosses || text[0] != SEP)
    ensures MatchSome(Patterns([STAR], crosses), text) <==> crosses || SEP !in text
  {
    var q: Key, s: Key := [QUERY], [STAR];
    assert q[1..] == [] && s[1..] == [];
    ReadOne(q, One(Wild(crosses)), crosses);
    ReadOne(s, Many(Wild(crosses)), crosses);
    MatchSingle(One(Wild(crosses)), text);
    MatchSingle(Many(Wild(crosses)), text);
    MatchOne(Wild(crosses), text);
    MatchMany(Wild(crosses), text);
    if !crosses && SEP in text {
      var i :| 0 <= i < |text| && text[i] == SEP;
    }
  }

  lemma ClassOf(raw: Key, chars: set<byte>, crosses: bool, text: Key)
    requires raw != [] && raw[0] == OPEN_CLASS && Class(raw[1..]) == Some((One(chars), []))
    ensures MatchSome(Patterns(raw, crosses), text) <==> |text| == 1 && text[0] in chars
  {
    ReadOne(raw, One(chars), crosses);
    MatchSingle(One(chars), text);
    MatchOne(chars, text);
  }

  /** [ab] is a or b, [!ab] is any other character, and [a-b] is one of those from a to b. */
  lemma ClassesMatch(a: byte, b: byte, text: Key, crosses: bool)
    requires a != BANG && b != CLOSE_CLASS
    ensures MatchSome(Patterns([OPEN_CLASS, a, b, CLOSE_CLASS], crosses), text) <==>
            |text| == 1 && (text[0] == a || text[0] == b)
    ensures MatchSome(Patterns([OPEN_CLASS, BANG, a, b, CLOSE_CLASS], crosses), text) <==>
            |text| == 1 && text[0] != a && text[0] != b
    ensures MatchSome(Patterns([OPEN_CLASS, a, DASH, b, CLOSE_CLASS], crosses), text) <==>
            |text| == 1 && a <= text[0] <= b
  {
    PairClass(a, b, text, crosses);
    OtherClass(a, b, text, crosses);
    RangeClass(a, b, text, crosses);
  }

  lemma PairClass(a: byte, b: byte, text: Key, crosses: bool)
    requires a != BANG && b != CLOSE_CLASS
    ensures MatchSome(Patterns([OPEN_CLASS, a, b, CLOSE_CLASS], crosses), text) <==>
            |text| == 1 && (text[0] == a || text[0] == b)
  {
    var x: Key, raw: Key := [a, b, CLOSE_CLASS], [OPEN_CLASS, a, b, CLOSE_CLASS];
    assert IndexOf(x, CLOSE_CLASS, 1) == Some(2);
    assert x[0..2] == [a, b] && x[3..] == [] && raw[1..] == x;
    MembersTwo(a, b);
    ClassOf(raw, {a, b}, crosses, text);
  }

  lemma OtherClass(a: byte, b: byte, text: Key, crosses: bool)
    requires b != CLOSE_CLASS
    ensures MatchSome(Patterns([OPEN_CLASS, BANG, a, b, CLOSE_CLASS], crosses), text) <==>
            |text| == 1 && text[0] != a && text[0] != b
  {
    var x: Key, raw: Key := [BANG, a, b, CLOSE_CLASS], [OPEN_CLASS, BANG, a, b, CLOSE_CLASS];
    assert IndexOf(x, CLOSE_CLASS, 2) == Some(3);
    assert x[1..3] == [a, b] && x[4..] == [] && raw[1..] == x;
    MembersTwo(a, b);
    ClassOf(raw, All() - {a, b}, crosses, text);
  }

  lemma RangeClass(a: byte, b: byte, text: Key, crosses: bool)
    requires a != BANG && b != CLOSE_CLASS
    ensures MatchSome(Patterns([OPEN_CLASS, a, DASH, b, CLOSE_CLASS], crosses), text) <==>
            |text| == 1 && a <= text[0] <= b
  {
    var x: Key, raw: Key := [a, DASH, b, CLOSE_CLASS], [OPEN_CLASS, a, DASH, b, CLOSE_CLASS];
    assert IndexOf(x, CLOSE_CLASS, 2) == Some(3);
    assert IndexOf(x, CLOSE_CLASS, 1) == Some(3);
    assert x[0..3] == [a, DASH, b] && x[4..] == [] && raw[1..] == x;
    MembersRange(a, b);
    ClassOf(raw, Below((b as nat) + 1) - Below(a), crosses, text);
  }

  lemma MembersTwo(a: byte, b: byte)
    ensures Members([a, b]) == {a, b}
  {
    var s: Key, t: Key := [a, b], [b];
    assert s[1..] == t && t[1..] == [];
    assert Members(t) == {b};
  }

  lemma MembersRange(a: byte, b: byte)
    ensures Members([a, DASH, b]) == Below((b as nat) + 1) - Below(a)
  {
    var s: Key := [a, DASH, b];
    assert s[3..] == [];
  }

  /** {a,b} is a or b. */
  lemma BracesMatch(a: byte, b: byte, text: Key, crosses: bool)
    requires !IsMeta(a) && !IsMeta(b) && {a, b} !! {ESC, COMMA, CLOSE_BRACE}
    ensures MatchSome(Patterns([OPEN_BRACE, a, COMMA, b, CLOSE_BRACE], crosses), text) <==> text == [a] || text == [b]
  {
    var raw: Key := [OPEN_BRACE, a, COMMA, b, CLOSE_BRACE];
    var s: Key, t: Key := raw[1..], [b, CLOSE_BRACE];
    assert s[1..] == [COMMA, b, CLOSE_BRACE] && s[1..][1..] == t && t[1..] == [CLOSE_BRACE] && t[1..][1..] == [];
    assert s[1] == COMMA && t[1] == CLOSE_BRACE;
    PieceOne(b, t, crosses);
    PieceOne(a, s, crosses);
    assert Alternatives(t, crosses) == Some(([[One({b})]], []));
    assert [[One({a})]] + [[One({b})]] == [[One({a})], [One({b})]];
    assert Alternatives(s, crosses) == Some(([[One({a})], [One({b})]], []));
    var heads: seq<Pattern> := [[One({a})], [One({b})]];
    ProductTwo([One({a})], [One({b})]);
    assert Read([], false, crosses) == Some([[]]);
    assert Read(raw, false, crosses) == Some(Product(heads, [[]]));
    assert Patterns(raw, crosses) == heads;
    MatchOne({a}, text);
    MatchOne({b}, text);
    assert heads[0] == [One({a})] && heads[1] == [One({b})];
    if text == [a] { assert Match(heads[0], text); }
    if text == [b] { assert Match(heads[1], text); }
  }

  lemma PieceOne(a: byte, s: Key, crosses: bool)
    requires !IsMeta(a) && a !in {ESC, COMMA, CLOSE_BRACE}
    requires |s| >= 2 && s[0] == a && s[1] in {COMMA, CLOSE_BRACE}
    ensures Piece(s, crosses) == Some(([One({a})], s[1..]))
  {
    assert Piece(s[1..], crosses) == Some(([], s[1..]));
    assert Single(s, crosses) == Some((One({a}), s[1..]));
    var none: Pattern := [];
    assert [One({a})] + none == [One({a})];
  }

  lemma ProductTwo(x: Pattern, y: Pattern)
    ensures Product([x, y], [[]]) == [x, y]
  {
    var hs: seq<Pattern>, e: seq<Pattern> := [x, y], [[]];
    assert hs[1..] == [y] && [y][1..] == [];
    PrefixedSingle(x, [], x);
    PrefixedSingle(y, [], y);
    assert Product([], e) == [];
    assert Product([y], e) == [y];
  }

  lemma {:induction false} MatchAnyThen(ts: Pattern, text: Key)
    ensures Match([Many(All())] + ts, text) <==> exists k | 0 <= k <= |text| :: Match(ts, text[k..])
    decreases |text|
  {
    var us := [Many(All())] + ts;
    assert us[1..] == ts && text[0..] == text;
    if text != [] {
      MatchAnyThen(ts, text[1..]);
      if Match(us, text[1..]) {
        var k :| 0 <= k <= |text[1..]| && Match(ts, text[1..][k..]);
        assert text[1..][k..] == text[k + 1..];
      }
      if exists k | 0 <= k <= |text| :: Match(ts, text[k..]) {
        var k :| 0 <= k <= |text| && Match(ts, text[k..]);
        if k > 0 { assert text[1..][k - 1..] == text[k..]; }
      }
    }
  }

  /** A final ** is everything below. */
  lemma DeepMatch(text: Key, crosses: bool)
    ensures MatchSome(Patterns([SEP, STAR, STAR], crosses), text) <==> text != [] && text[0] == SEP
  {
    var raw: Key, r: Key := [SEP, STAR, STAR], [STAR, STAR];
    assert raw[1..] == r;
    var all := Many(All());
    assert Read(r, true, crosses) == Some([[all]]);
    PrefixedSingle([One({SEP})], [all], [One({SEP}), all]);
    var ps := Patterns(raw, crosses);
    assert ps == [[One({SEP}), all]] && ps[0][1..] == [all];
    if text != [] { MatchMany(All(), text[1..]); }
    if Match(ps[0], text) { assert MatchSome(ps, text); }
  }

  /** A ** in the middle and then f: every path whose last component is f. */
  lemma DeepEndMatch(f: byte, text: Key, crosses: bool)
    requires !IsMeta(f) && f != ESC && f != SEP
    ensures MatchSome(Patterns([SEP, STAR, STAR, SEP, f], crosses), text) <==>
            |text| >= 2 && text[0] == SEP && text[|text| - 2] == SEP && text[|text| - 1] == f
  {
    var raw: Key := [SEP, STAR, STAR, SEP, f];
    var one, sep, all := One({f}), One({SEP}), Many(All());
    DeepEndRead(f, crosses);
    var ps := Patterns(raw, crosses);
    assert ps[0] == [sep, one] && ps[1] == [sep, all, sep, one];
    ShortEnd(f, text);
    LongEnd(f, text);
    if Match(ps[0], text) || Match(ps[1], text) { assert MatchSome(ps, text); }
  }

  lemma DeepEndRead(f: byte, crosses: bool)
    requires !IsMeta(f) && f != ESC && f != SEP
    ensures Patterns([SEP, STAR, STAR, SEP, f], crosses) ==
            [[One({SEP}), One({f})], [One({SEP}), Many(All()), One({SEP}), One({f})]]
  {
    var raw: Key, r: Key, e: Key := [SEP, STAR, STAR, SEP, f], [STAR, STAR, SEP, f], [f];
    var one, sep, all := One({f}), One({SEP}), Many(All());
    assert raw[1..] == r && r[3..] == e && e[1..] == [];
    assert Read([], false, crosses) == Some([[]]);
    PrefixedSingle([one], [], [one]);
    assert Read(e, true, crosses) == Some([[one]]);
    PrefixedSingle([all, sep], [one], [all, sep, one]);
    assert [[one]] + [[all, sep, one]] == [[one], [all, sep, one]];
    assert Read(r, true, crosses) == Some([[one], [all, sep, one]]);
    PrefixedPair([sep], [one], [all, sep, one], [sep, one], [sep, all, sep, one]);
  }

  lemma ShortEnd(f: byte, text: Key)
    ensures Match([One({SEP}), One({f})], text) <==> text == [SEP, f]
  {
    var ts := [One({SEP}), One({f})];
    assert ts[1..] == [One({f})];
    if text != [] { MatchOne({f}, text[1..]); }
  }

  lemma LongEnd(f: byte, text: Key)
    ensures Match([One({SEP}), Many(All()), One({SEP}), One({f})], text) <==>
            |text| >= 3 && text[0] == SEP && text[|text| - 2] == SEP && text[|text| - 1] == f
  {
    var ts, us := [One({SEP}), Many(All()), One({SEP}), One({f})], [One({SEP}), One({f})];
    assert ts[1..] == [Many(All())] + us;
    if text != [] {
      var t := text[1..];
      MatchAnyThen(us, t);
      forall k | 0 <= k <= |t| ensures Match(us, t[k..]) <==> t[k..] == [SEP, f] {
        ShortEnd(f, t[k..]);
      }
      if |t| >= 2 && t[|t| - 2] == SEP && t[|t| - 1] == f {
        assert t[|t| - 2..] == [SEP, f];
      }
      if k :| 0 <= k <= |t| && t[k..] == [SEP, f] {
        assert |t| - k == 2 && t[k] == t[k..][0] && t[k + 1] == t[k..][1];
      }
    }
  }
}
