/** Disjointness of glob sets by their plain prefixes, after netidx-netproto/src/glob.rs. */
module Glob {
  import opened Bytes
  import opened Paths

  /** ? * { [ */
  predicate IsMeta(c: byte) {
    c == 63 || c == 42 || c == 123 || c == 91
  }

  /** The index of the first special character, escaped or not. */
  function FindMeta(s: Key): (r: Option<nat>)
    ensures r.Some? ==> r.value < |s| && IsMeta(s[r.value])
    ensures forall j | 0 <= j < (if r.Some? then r.value else |s|) :: !IsMeta(s[j])
  {
    if s == [] then None
    else if IsMeta(s[0]) then Some(0)
    else match FindMeta(s[1..])
      case None => None
      case Some(i) => Some(i + 1)
  }

  /** After an escaped special character the search goes on in the rest, and the index it
      returns is one into that rest. */
  function FirstGlobChar(s: Key): (r: Option<nat>)
    ensures r.Some? ==> r.value < |s|
  {
    match FindMeta(s)
    case None => None
    case Some(i) => if Escaped(s, i) then FirstGlobChar(s[i + 1..]) else Some(i)
  }

  /** The loop finds the first special character that is not escaped, but counts its index
      from behind the last escaped one before it. */
  method FirstGlobCharLoop(raw: Key) returns (r: Option<nat>)
    ensures r == FirstGlobChar(raw) == Counted(raw)
    ensures r == FirstSpecial(raw, 0) <==> !EscapedFirst(raw)
  {
    FirstGlobCharIs(raw);
    FirstGlobCharExact(raw);
    var s := raw;
    while true
      invariant FirstGlobChar(s) == FirstGlobChar(raw)
      decreases |s|
    {
      if s == [] {
        return None;
      }
      match FindMeta(s) {
        case None => return None;
        case Some(i) =>
          if Escaped(s, i) {
            s := s[i + 1..];
          } else {
            return Some(i);
          }
      }
    }
  }

  /** The index of the first special character that is not escaped, which is what the
      documentation promises. */
  function FirstSpecial(s: Key, from: nat): (r: Option<nat>)
    requires from <= |s|
    ensures r.Some? ==> r.value < |s|
    decreases |s| - from
  {
    if from == |s| then None
    else if IsMeta(s[from]) && !Escaped(s, from) then Some(from)
    else FirstSpecial(s, from + 1)
  }

  /** Where the search stands after the escaped special characters below position n. */
  function SkippedTo(s: Key, n: nat): (k: nat)
    requires n <= |s|
    ensures k <= n
  {
    if n == 0 then 0 else if IsMeta(s[n - 1]) then n else SkippedTo(s, n - 1)
  }

  lemma {:induction false} SkippedToSome(s: Key, n: nat)
    requires n <= |s|
    ensures SkippedTo(s, n) > 0 <==> exists j | 0 <= j < n :: IsMeta(s[j])
  {
    if n > 0 { SkippedToSome(s, n - 1); }
  }

  lemma MetaEndsRun(s: Key, i: nat, j: nat)
    requires i < |s| && IsMeta(s[i]) && i + 1 + j <= |s|
    ensures Escaped(s[i + 1..], j) == Escaped(s, i + 1 + j)
  {
    var a, b := s[..i + 1], s[i + 1..];
    assert s == a + b;
    EscapedSuffix(a, b, j);
  }

  ghost predicate IsFirstSpecial(s: Key, from: nat, r: Option<nat>) {
    && (r.Some? ==> from <= r.value < |s| && IsMeta(s[r.value]) && !Escaped(s, r.value))
    && forall j | from <= j < (if r.Some? && r.value <= |s| then r.value else |s|) :: IsMeta(s[j]) ==> Escaped(s, j)
  }

  lemma {:induction false} FirstSpecialIs(s: Key, from: nat)
    requires from <= |s|
    ensures IsFirstSpecial(s, from, FirstSpecial(s, from))
    decreases |s| - from
  {
    if from < |s| && (IsMeta(s[from]) ==> Escaped(s, from)) { FirstSpecialIs(s, from + 1); }
  }

  lemma {:induction false} FirstSpecialSame(s: Key, from: nat, r: Option<nat>)
    requires from <= |s| && IsFirstSpecial(s, from, r)
    ensures FirstSpecial(s, from) == r
    decreases |s| - from
  {
    if from < |s| && (IsMeta(s[from]) ==> Escaped(s, from)) { FirstSpecialSame(s, from + 1, r); }
  }

  /** The first special character of the rest, seen from the whole. */
  lemma FirstSpecialRest(s: Key, i: nat)
    requires i < |s| && IsMeta(s[i]) && Escaped(s, i) && FindMeta(s) == Some(i)
    ensures FirstSpecial(s, 0) ==
            match FirstSpecial(s[i + 1..], 0) case None => None case Some(k) => Some(i + 1 + k)
  {
    var t := s[i + 1..];
    forall j | 0 <= j < |t| ensures Escaped(t, j) == Escaped(s, i + 1 + j) && t[j] == s[i + 1 + j] {
      MetaEndsRun(s, i, j);
    }
    FirstSpecialIs(t, 0);
    var r := match FirstSpecial(t, 0) case None => None case Some(k) => Some(i + 1 + k);
    forall j | 0 <= j < (if r.Some? then r.value else |s|) && IsMeta(s[j]) ensures Escaped(s, j) {
      if j > i { assert t[j - i - 1] == s[j]; }
    }
    FirstSpecialSame(s, 0, r);
  }

  lemma {:induction false} SkippedToRest(s: Key, i: nat, n: nat)
    requires i < |s| && i + 1 + n <= |s| && IsMeta(s[i])
    ensures SkippedTo(s, i + 1 + n) == i + 1 + SkippedTo(s[i + 1..], n)
    decreases n
  {
    if n > 0 { SkippedToRest(s, i, n - 1); }
  }

  /** The index of the first special character, counted from behind the last escaped one
      before it. */
  function Counted(s: Key): Option<nat> {
    match FirstSpecial(s, 0)
    case None => None
    case Some(k) => Some(k - SkippedTo(s, k))
  }

  lemma CountedRest(s: Key, i: nat)
    requires i < |s| && IsMeta(s[i])
    requires FirstSpecial(s, 0) ==
             match FirstSpecial(s[i + 1..], 0) case None => None case Some(k) => Some(i + 1 + k)
    ensures Counted(s) == Counted(s[i + 1..])
  {
    match FirstSpecial(s[i + 1..], 0)
    case None =>
    case Some(k) =>
      SkippedToRest(s, i, k);
      CountedShift(s, s[i + 1..], i, k);
  }

  lemma CountedShift(s: Key, t: Key, i: nat, k: nat)
    requires i + 1 + k <= |s| && k <= |t|
    requires FirstSpecial(s, 0) == Some(i + 1 + k) && FirstSpecial(t, 0) == Some(k)
    requires SkippedTo(s, i + 1 + k) == i + 1 + SkippedTo(t, k)
    ensures Counted(s) == Counted(t)
  {}

  lemma CountedFirst(s: Key, i: nat)
    requires FindMeta(s) == Some(i) && i < |s| && !Escaped(s, i)
    ensures Counted(s) == Some(i)
  {
    FirstSpecialSame(s, 0, Some(i));
    SkippedToNone(s, i);
  }

  /** What is returned on every text. */
  lemma {:induction false} FirstGlobCharIs(s: Key)
    ensures FirstGlobChar(s) == Counted(s)
    decreases |s|
  {
    match FindMeta(s)
    case None => FirstSpecialSame(s, 0, None);
    case Some(i) =>
      if Escaped(s, i) {
        FirstGlobCharIs(s[i + 1..]);
        FirstSpecialRest(s, i);
        CountedRest(s, i);
      } else {
        CountedFirst(s, i);
      }
  }

  lemma {:induction false} SkippedToNone(s: Key, n: nat)
    requires n <= |s| && forall j | 0 <= j < n :: !IsMeta(s[j])
    ensures SkippedTo(s, n) == 0
  {
    if n > 0 { SkippedToNone(s, n - 1); }
  }

  /** An escaped special character comes before the first one that is not escaped. */
  predicate EscapedFirst(s: Key) {
    var r := FirstSpecial(s, 0);
    r.Some? && exists j | 0 <= j < r.value :: IsMeta(s[j])
  }

  /** The index is the documented one exactly when no escaped special character precedes it,
      and then the plain string is all the text before it. */
  lemma FirstGlobCharExact(s: Key)
    ensures FirstGlobChar(s) == FirstSpecial(s, 0) <==> !EscapedFirst(s)
    ensures FirstGlobChar(s).None? <==> FirstSpecial(s, 0).None?
  {
    FirstGlobCharIs(s);
    var r := FirstSpecial(s, 0);
    if r.Some? { SkippedToSome(s, r.value); }
  }

  /** `&raw[..i]` panics inside a character: at a continuation byte of UTF-8. */
  predicate OnBoundary(s: Key, i: nat)
    requires i <= |s|
  {
    i == |s| || !(0x80 <= s[i] < 0xC0)
  }

  /** plain() panics when the index falls inside a character. */
  predicate PlainPanics(raw: Key) {
    var r := FirstGlobChar(raw);
    r.Some? && !OnBoundary(raw, r.value)
  }

  function Plain(raw: Key): Key {
    match FirstGlobChar(raw)
    case None => raw
    case Some(i) => raw[..i]
  }

  /** It panics exactly when an escaped special character comes first and the index counted
      from behind it, used from the start, falls inside a character. */
  lemma PlainPanicsExact(raw: Key)
    ensures Counted(raw).Some? ==> Counted(raw).value <= |raw|
    ensures PlainPanics(raw) <==> EscapedFirst(raw) && !OnBoundary(raw, Counted(raw).value)
  {
    FirstSpecialIs(raw, 0);
    FirstGlobCharExact(raw);
    FirstGlobCharIs(raw);
  }

  /** On /a\*bc? the index is 2 instead of 6. */
  lemma EscapedFirstWitness()
    ensures var raw: Key := [SEP, 97, ESC, 42, 98, 99, 63];
            FirstGlobChar(raw) == Some(2) && FirstSpecial(raw, 0) == Some(6)
  {
    var raw: Key := [SEP, 97, ESC, 42, 98, 99, 63];
    assert FindMeta(raw[3..]) == Some(0) && FindMeta(raw[2..]) == Some(1) && FindMeta(raw[1..]) == Some(2);
    assert Escaped(raw, 3);
    FirstSpecialSame(raw, 0, Some(6));
    FirstGlobCharIs(raw);
    assert SkippedTo(raw, 4) == 4;
  }

  /** On /é\*ab? the index is 2, in the middle of the é. */
  lemma PlainPanicsWitness()
    ensures PlainPanics([SEP, 0xC3, 0xA9, ESC, 42, 97, 98, 63])
  {
    var raw: Key := [SEP, 0xC3, 0xA9, ESC, 42, 97, 98, 63];
    assert Escaped(raw, 4);
    FirstSpecialSame(raw, 0, Some(7));
    FirstGlobCharIs(raw);
    assert SkippedTo(raw, 5) == 5;
  }

  predicate Comparable(a: Key, b: Key) {
    IsPrefix(a, b) || IsPrefix(b, a)
  }

  predicate Apart(plain: Key, others: seq<Key>) {
    forall j | 0 <= j < |others| :: !Comparable(plain, Plain(others[j]))
  }

  predicate AllApart(globs: seq<Key>, others: seq<Key>) {
    forall i | 0 <= i < |globs| :: Apart(Plain(globs[i]), others)
  }

  datatype Answer = Says(disjoint: bool) | Panic

  predicate SomePanics(globs: seq<Key>) {
    exists i | 0 <= i < |globs| :: PlainPanics(globs[i])
  }

  /** The inner loop: one plain prefix against all the others. */
  method Compare(plain0: Key, others: seq<Key>) returns (r: Answer)
    ensures r == Says(true) <==> Apart(plain0, others) && !SomePanics(others)
    ensures r == Says(false) ==> !Apart(plain0, others)
    ensures r == Panic ==> SomePanics(others)
  {
    for j := 0 to |others|
      invariant forall k | 0 <= k < j :: !Comparable(plain0, Plain(others[k])) && !PlainPanics(others[k])
    {
      if PlainPanics(others[j]) {
        return Panic;
      }
      var plain1 := Plain(others[j]);
      if IsPrefix(plain1, plain0) || IsPrefix(plain0, plain1) || plain0 == plain1 {
        assert Comparable(plain0, plain1);
        return Says(false);
      }
    }
    return Says(true);
  }

  /** True is answered exactly when every plain prefix can be taken and all are incomparable;
      false or a panic only for a reason. */
  method Disjoint(globs: seq<Key>, others: seq<Key>) returns (r: Answer)
    ensures r == Says(true) <==>
            AllApart(globs, others) && !SomePanics(globs) && (globs == [] || !SomePanics(others))
    ensures r == Says(false) ==> !AllApart(globs, others)
    ensures r == Panic ==> SomePanics(globs) || SomePanics(others)
  {
    for i := 0 to |globs|
      invariant forall k | 0 <= k < i :: Apart(Plain(globs[k]), others) && !PlainPanics(globs[k])
      invariant i > 0 ==> !SomePanics(others)
    {
      if PlainPanics(globs[i]) {
        return Panic;
      }
      r := Compare(Plain(globs[i]), others);
      if r != Says(true) {
        return;
      }
    }
    return Says(true);
  }

  /** What a pattern matches, given what patterns that start with a special character match:
      an escape makes the next character stand for itself, any other stands for itself. */
  ghost predicate Matches(special: (Key, Key) -> bool, raw: Key, text: Key)
    decreases |raw|
  {
    if raw == [] then text == []
    else if IsMeta(raw[0]) then special(raw, text)
    else if raw[0] == ESC then
      |raw| >= 2 && text != [] && text[0] == raw[1] && Matches(special, raw[2..], text[1..])
    else text != [] && text[0] == raw[0] && Matches(special, raw[1..], text[1..])
  }

  ghost predicate MatchesAny(special: (Key, Key) -> bool, globs: seq<Key>, text: Key) {
    exists i | 0 <= i < |globs| :: Matches(special, globs[i], text)
  }

  predicate NoEscape(s: Key) {
    forall i | 0 <= i < |s| :: s[i] != ESC
  }

  /** A plain prefix without escapes has no special characters either, although its length
      may come from a later part of the pattern. */
  lemma PlainHasNoMeta(raw: Key)
    requires NoEscape(Plain(raw))
    ensures IsPrefix(Plain(raw), raw) && forall i | 0 <= i < |Plain(raw)| :: !IsMeta(raw[i])
  {
    var p := Plain(raw);
    assert p == raw[..|p|];
    var m := FindMeta(raw);
    assert m.Some? && Escaped(raw, m.value) ==> raw[m.value - 1] == ESC;
    assert m.Some? ==> |p| <= m.value;
  }

  lemma {:induction false} LiteralPrefix(special: (Key, Key) -> bool, raw: Key, text: Key, n: nat)
    requires n <= |raw| && NoEscape(raw[..n]) && forall i | 0 <= i < n :: !IsMeta(raw[i])
    requires Matches(special, raw, text)
    ensures IsPrefix(raw[..n], text)
    decreases n
  {
    if n > 0 {
      assert raw[0] == raw[..n][0];
      assert raw[1..][..n - 1] == raw[..n][1..];
      LiteralPrefix(special, raw[1..], text[1..], n - 1);
      assert text[..n] == [text[0]] + text[1..][..n - 1];
      assert raw[..n] == [raw[0]] + raw[1..][..n - 1];
    }
  }

  lemma PrefixesCompare(a: Key, b: Key, t: Key)
    requires IsPrefix(a, t) && IsPrefix(b, t)
    ensures Comparable(a, b)
  {
    if |a| <= |b| { assert b[..|a|] == t[..|a|]; } else { assert a[..|b|] == t[..|b|]; }
  }

  ghost predicate PlainSets(globs: seq<Key>) {
    forall i | 0 <= i < |globs| :: NoEscape(Plain(globs[i]))
  }

  /** Soundness, whatever the special characters stand for: sets whose plain prefixes hold no
      escapes and are pairwise incomparable never match the same text. */
  lemma DisjointSound(special: (Key, Key) -> bool, globs: seq<Key>, others: seq<Key>, text: Key)
    requires PlainSets(globs) && PlainSets(others)
    requires AllApart(globs, others)
    ensures !(MatchesAny(special, globs, text) && MatchesAny(special, others, text))
  {
    if MatchesAny(special, globs, text) && MatchesAny(special, others, text) {
      var i :| 0 <= i < |globs| && Matches(special, globs[i], text);
      var j :| 0 <= j < |others| && Matches(special, others[j], text);
      PlainPrefix(special, globs[i], text);
      PlainPrefix(special, others[j], text);
      assert Apart(Plain(globs[i]), others);
      PrefixesCompare(Plain(globs[i]), Plain(others[j]), text);
    }
  }

  lemma PlainPrefix(special: (Key, Key) -> bool, raw: Key, text: Key)
    requires NoEscape(Plain(raw)) && Matches(special, raw, text)
    ensures IsPrefix(Plain(raw), text)
  {
    PlainHasNoMeta(raw);
    var n := |Plain(raw)|;
    assert Plain(raw) == raw[..n];
    LiteralPrefix(special, raw, text, n);
  }

  lemma PlainLiteral(raw: Key)
    requires forall i | 0 <= i < |raw| :: !IsMeta(raw[i])
    ensures Plain(raw) == raw
  {}

  // ----- globs without escapes -----

  lemma FirstGlobCharUnescaped(raw: Key)
    requires NoEscape(raw)
    ensures FirstGlobChar(raw) == FindMeta(raw)
  {
    var m := FindMeta(raw);
    if m.Some? { assert !Escaped(raw, m.value); }
  }

  /** Without escapes the plain string is the longest prefix that holds none of ? * { and [. */
  lemma PlainLongest(raw: Key)
    requires NoEscape(raw)
    ensures IsPrefix(Plain(raw), raw)
    ensures forall i | 0 <= i < |Plain(raw)| :: raw[i] !in {63, 42, 123, 91}
    ensures |Plain(raw)| < |raw| ==> raw[|Plain(raw)|] in {63, 42, 123, 91}
  {
    FirstGlobCharUnescaped(raw);
  }

  /** A text that a glob of the same spelling matches and nothing else. */
  predicate IsPlainText(raw: Key) {
    forall i | 0 <= i < |raw| :: raw[i] !in {63, 42, 123, 91, 92}
  }

  /** For plain texts the answer is true exactly when no text of one set is a prefix of a text
      of the other, and nothing panics. */
  lemma PlainTextsExact(globs: seq<Key>, others: seq<Key>)
    requires forall i | 0 <= i < |globs| :: IsPlainText(globs[i])
    requires forall j | 0 <= j < |others| :: IsPlainText(others[j])
    ensures !SomePanics(globs) && !SomePanics(others)
    ensures AllApart(globs, others) <==>
            forall i, j | 0 <= i < |globs| && 0 <= j < |others| ::
              !IsPrefix(globs[i], others[j]) && !IsPrefix(others[j], globs[i])
  {
    forall i | 0 <= i < |globs| ensures Plain(globs[i]) == globs[i] && !PlainPanics(globs[i]) {
      PlainTextIs(globs[i]);
    }
    forall j | 0 <= j < |others| ensures Plain(others[j]) == others[j] && !PlainPanics(others[j]) {
      PlainTextIs(others[j]);
    }
    if AllApart(globs, others) {
      forall i, j | 0 <= i < |globs| && 0 <= j < |others|
        ensures !IsPrefix(globs[i], others[j]) && !IsPrefix(others[j], globs[i])
      {
        assert Apart(Plain(globs[i]), others);
        assert !Comparable(Plain(globs[i]), Plain(others[j]));
      }
    }
  }

  lemma PlainTextIs(raw: Key)
    requires IsPlainText(raw)
    ensures Plain(raw) == raw && !PlainPanics(raw)
  {
    PlainLongest(raw);
    FirstGlobCharUnescaped(raw);
    if |Plain(raw)| == |raw| { assert Plain(raw) == raw; }
  }
}
