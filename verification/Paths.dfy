/** Path text, after netidx-core/src/path.rs: separators, escapes, the byte test
    for ancestry, and the printer and parser of paths. A path is a byte string;
    both special characters are ASCII, so they never occur inside a longer UTF-8
    sequence and every statement about bytes is one about text. */
module Paths {
  import opened Bytes

  const SEP: byte := 47
  const ESC: byte := 92
  const ROOT: Key := [SEP]

  predicate IsAbsolute(s: Key) {
    |s| > 0 && s[0] == SEP
  }

  type Path = p: Key | IsAbsolute(p) witness ROOT

  /** Position i is escaped when the run of escape characters just before it is odd. */
  predicate Escaped(s: Key, i: nat)
    requires i <= |s|
  {
    i > 0 && s[i - 1] == ESC && !Escaped(s, i - 1)
  }

  /** The text ends in an escape that has nothing to act on. */
  predicate Dangling(s: Key) {
    Escaped(s, |s|)
  }

  predicate SepAt(s: Key, i: nat)
    requires i < |s|
  {
    s[i] == SEP && !Escaped(s, i)
  }

  ghost predicate NoSep(s: Key) {
    forall i :: 0 <= i < |s| ==> !SepAt(s, i)
  }

  lemma {:induction false} EscapedPrefix(a: Key, b: Key, i: nat)
    requires i <= |a|
    ensures Escaped(a + b, i) == Escaped(a, i)
  {
    if i > 0 { EscapedPrefix(a, b, i - 1); }
  }

  lemma {:induction false} EscapedSuffix(a: Key, b: Key, i: nat)
    requires !Dangling(a) && i <= |b|
    ensures Escaped(a + b, |a| + i) == Escaped(b, i)
  {
    if i == 0 { EscapedPrefix(a, b, |a|); } else { EscapedSuffix(a, b, i - 1); }
  }

  /** Separators of a concatenation are those of its halves. */
  lemma SepAtConcat(a: Key, b: Key)
    ensures forall i :: 0 <= i < |a| ==> SepAt(a + b, i) == SepAt(a, i)
    ensures !Dangling(a) ==> forall i :: 0 <= i < |b| ==> SepAt(a + b, |a| + i) == SepAt(b, i)
  {
    forall i | 0 <= i < |a| ensures SepAt(a + b, i) == SepAt(a, i) {
      EscapedPrefix(a, b, i);
    }
    if !Dangling(a) {
      forall i | 0 <= i < |b| ensures SepAt(a + b, |a| + i) == SepAt(b, i) {
        EscapedSuffix(a, b, i);
      }
    }
  }

  lemma DanglingConcat(a: Key, b: Key)
    requires !Dangling(a)
    ensures Dangling(a + b) == Dangling(b)
  {
    EscapedSuffix(a, b, |b|);
  }

  /** The last separator before position n. */
  function LastSepBelow(s: Key, n: nat): (r: Option<nat>)
    requires n <= |s|
    ensures r.Some? ==> r.value < n && SepAt(s, r.value)
    ensures r.Some? ==> forall j :: r.value < j < n ==> !SepAt(s, j)
    ensures r.None? ==> forall j :: 0 <= j < n ==> !SepAt(s, j)
  {
    if n == 0 then None
    else if SepAt(s, n - 1) then Some(n - 1)
    else LastSepBelow(s, n - 1)
  }

  function Rfind(s: Key): (r: Option<nat>)
    ensures r.None? <==> NoSep(s)
  {
    LastSepBelow(s, |s|)
  }

  /** The library's search for the last occurrence of the separator byte, escaped or not. */
  function RfindByte(s: Key): (r: Option<nat>)
    ensures r.Some? ==> r.value < |s| && s[r.value] == SEP && forall j :: r.value < j < |s| ==> s[j] != SEP
    ensures r.None? ==> forall j :: 0 <= j < |s| ==> s[j] != SEP
  {
    if s == [] then None
    else if s[|s| - 1] == SEP then Some(|s| - 1)
    else RfindByte(s[..|s| - 1])
  }

  /** rfind_sep: cut the text at each escaped separator until an unescaped one is last. */
  method RfindSep(s: Key) returns (r: Option<nat>)
    ensures r == Rfind(s)
  {
    if |s| == 0 {
      return None;
    }
    var cur := s;
    while true
      invariant IsPrefix(cur, s)
      invariant forall j :: |cur| <= j < |s| ==> !SepAt(s, j)
      decreases |cur|
    {
      SepAtConcat(cur, s[|cur|..]);
      assert cur + s[|cur|..] == s;
      match RfindByte(cur) {
        case None =>
          assert forall j :: 0 <= j < |s| ==> !SepAt(s, j);
          return None;
        case Some(i) =>
          if !Escaped(cur, i) {
            assert SepAt(cur, i) && SepAt(s, i);
            assert forall j :: i < j < |s| ==> !SepAt(s, j);
            return Some(i);
          }
          assert !SepAt(cur, i) && !SepAt(s, i);
          cur := cur[..i];
      }
    }
  }

  /** Cut a text at its unescaped separators. */
  function Split(s: Key): (ps: seq<Key>)
    ensures |ps| >= 1
    decreases |s|
  {
    match Rfind(s)
    case None => [s]
    case Some(i) => Split(s[..i]) + [s[i + 1..]]
  }

  function Join(ps: seq<Key>): Key
    requires |ps| >= 1
  {
    if |ps| == 1 then ps[0] else Join(ps[..|ps| - 1]) + [SEP] + ps[|ps| - 1]
  }

  function Skip<T>(xs: seq<T>, n: nat): seq<T> {
    if n <= |xs| then xs[n..] else []
  }

  function Parts(s: Key): seq<Key> {
    Skip(Split(s), if s == ROOT then 2 else if IsAbsolute(s) then 1 else 0)
  }

  predicate IsParent(parent: Key, other: Key) {
    parent == ROOT ||
    (IsPrefix(parent, other) && (|other| == |parent| || other[|parent|] == SEP))
  }

  ghost predicate PartsPrefix(p: Key, q: Key) {
    Parts(p) <= Parts(q)
  }

  lemma PrefixRest<T>(x: seq<T>, y: seq<T>)
    requires x <= y
    ensures y == x + y[|x|..]
  {}

  lemma NotDanglingSep(a: Key)
    ensures !Dangling(a + [SEP])
  {}

  lemma RfindUnique(s: Key, i: nat)
    requires i < |s| && SepAt(s, i)
    requires forall j :: i < j < |s| ==> !SepAt(s, j)
    ensures Rfind(s) == Some(i)
  {
    assert !NoSep(s);
  }

  lemma RfindGlue(a: Key, b: Key)
    requires !Dangling(a)
    ensures Rfind(a + [SEP] + b) == Some(match Rfind(b) case None => |a| case Some(i) => |a| + 1 + i)
  {
    var h := a + [SEP];
    NotDanglingSep(a);
    SepAtConcat(h, b);
    EscapedPrefix(a, [SEP], |a|);
    assert SepAt(h, |a|);
    forall j | |h| <= j < |h + b| ensures SepAt(h + b, j) == SepAt(b, j - |h|) {
      assert SepAt(h + b, |h| + (j - |h|)) == SepAt(b, j - |h|);
    }
    RfindUnique(h + b, match Rfind(b) case None => |a| case Some(i) => |h| + i);
  }

  /** Cutting commutes with gluing at an unescaped separator. */
  lemma {:induction false} SplitGlue(a: Key, b: Key)
    requires !Dangling(a)
    ensures Split(a + [SEP] + b) == Split(a) + Split(b)
    decreases |b|
  {
    var s := a + [SEP] + b;
    RfindGlue(a, b);
    match Rfind(b) {
      case None =>
        assert s[..|a|] == a && s[|a| + 1..] == b;
      case Some(i) =>
        var k := |a| + 1 + i;
        assert s[..k] == a + [SEP] + b[..i] && s[k + 1..] == b[i + 1..];
        SplitGlue(a, b[..i]);
        assert Split(s) == Split(a) + Split(b[..i]) + [b[i + 1..]];
    }
  }

  lemma JoinSnoc(ps: seq<Key>, x: Key)
    requires |ps| >= 1
    ensures Join(ps + [x]) == Join(ps) + [SEP] + x
  {
    assert (ps + [x])[..|ps|] == ps;
  }

  lemma {:induction false} JoinSplit(s: Key)
    ensures Join(Split(s)) == s
    decreases |s|
  {
    match Rfind(s) {
      case None =>
      case Some(i) =>
        var a, b := s[..i], s[i + 1..];
        JoinSplit(a);
        JoinSnoc(Split(a), b);
        CutAt(s, i);
    }
  }

  lemma CutAt(s: Key, i: nat)
    requires i < |s| && s[i] == SEP
    ensures s == s[..i] + [SEP] + s[i + 1..]
  {}

  lemma {:induction false} JoinConcat(u: seq<Key>, v: seq<Key>)
    requires |u| >= 1 && |v| >= 1
    ensures Join(u + v) == Join(u) + [SEP] + Join(v)
    decreases |v|
  {
    var w := u + v;
    if |v| == 1 {
      assert w[..|w| - 1] == u;
    } else {
      assert w[..|w| - 1] == u + v[..|v| - 1];
      JoinConcat(u, v[..|v| - 1]);
    }
  }

  lemma SplitInjective(a: Key, b: Key)
    requires Split(a) == Split(b)
    ensures a == b
  {
    JoinSplit(a);
    JoinSplit(b);
  }

  /** A cut of Split is always made at an unescaped separator. */
  lemma {:induction false} CutIsSep(s: Key, a: Key, v: seq<Key>)
    requires |v| >= 1 && Split(s) == Split(a) + v
    ensures |a| < |s| && SepAt(s, |a|)
    decreases |s|
  {
    match Rfind(s) {
      case None =>
        assert false;
      case Some(i) =>
        var t, w := s[..i], v[..|v| - 1];
        var n := |Split(s)| - 1;
        assert Split(t) == Split(s)[..n] == (Split(a) + v)[..n] == Split(a) + w;
        if |v| == 1 {
          SplitInjective(t, a);
        } else {
          CutIsSep(t, a, w);
          assert s == t + s[i..];
          SepAtConcat(t, s[i..]);
        }
    }
  }

  lemma SplitAbsolute(s: Key)
    requires IsAbsolute(s)
    ensures Split(s) == [[]] + Split(s[1..])
    ensures Parts(s) == if s == ROOT then [] else Split(s[1..])
  {
    assert s == [] + [SEP] + s[1..];
    SplitGlue([], s[1..]);
    assert NoSep([]);
    assert Split([]) == [[]];
  }

  /** A text whose pieces are a prefix of another's is a prefix of it, up to a separator. */
  lemma SplitPrefix(a: Key, b: Key) returns (c: Key)
    requires Split(a) <= Split(b)
    ensures a == b || b == a + [SEP] + c
  {
    var u, w := Split(a), Split(b);
    PrefixRest(u, w);
    c := [];
    if |u| == |w| {
      SplitInjective(a, b);
    } else {
      var v := w[|u|..];
      JoinConcat(u, v);
      JoinSplit(a);
      JoinSplit(b);
      c := Join(v);
    }
  }

  lemma GluedParent(a: Key, c: Key)
    ensures IsParent([SEP] + a, [SEP] + (a + [SEP] + c))
    ensures IsParent([SEP] + a, [SEP] + a)
  {
    assert [SEP] + (a + [SEP] + c) == ([SEP] + a) + ([SEP] + c);
  }

  /** Prefix-closed parts always pass the byte test. */
  lemma PrefixImpliesParent(p: Key, q: Key)
    requires IsAbsolute(p) && IsAbsolute(q) && PartsPrefix(p, q)
    ensures IsParent(p, q)
  {
    if p != ROOT {
      SplitAbsolute(p);
      SplitAbsolute(q);
      var c := SplitPrefix(p[1..], q[1..]);
      assert p == [SEP] + p[1..] && q == [SEP] + q[1..];
      GluedParent(p[1..], c);
    }
  }

  lemma CutAfter(a: Key, s: Key)
    requires Split(a) < Split(s)
    ensures |a| < |s| && SepAt(s, |a|)
  {
    PrefixRest(Split(a), Split(s));
    CutIsSep(s, a, Split(s)[|Split(a)|..]);
  }

  /** Gluing at a separator keeps the pieces exactly when no dangling escape swallows it. */
  lemma GluePrefix(a: Key, b: Key)
    ensures Split(a) <= Split(a + [SEP] + b) <==> !Dangling(a)
  {
    var s := a + [SEP] + b;
    if !Dangling(a) {
      SplitGlue(a, b);
    } else if Split(a) == Split(s) {
      SplitInjective(a, s);
    } else if Split(a) <= Split(s) {
      CutAfter(a, s);
      assert a + ([SEP] + b) == s;
      EscapedPrefix(a, [SEP] + b, |a|);
    }
  }

  lemma StrictParentParts(p: Key, q: Key)
    requires IsAbsolute(p) && IsAbsolute(q) && IsParent(p, q) && p != ROOT && p != q
    ensures PartsPrefix(p, q) <==> !Dangling(p)
  {
    var a, b := p[1..], q[|p| + 1..];
    assert p == [SEP] + a;
    assert q == p + [SEP] + b;
    assert q[1..] == a + [SEP] + b;
    DanglingConcat([SEP], a);
    GluePrefix(a, b);
    SplitAbsolute(p);
    SplitAbsolute(q);
  }

  /** The byte test agrees with the reading of paths as lists of parts, except in
      one family: the candidate parent ends in a dangling escape and the other path
      continues with the separator that this escape swallows. */
  lemma ParentIffPartsPrefix(p: Key, q: Key)
    requires IsAbsolute(p) && IsAbsolute(q)
    ensures !Dangling(p) ==> (IsParent(p, q) <==> PartsPrefix(p, q))
    ensures (IsParent(p, q) <==> PartsPrefix(p, q)) <==> !(Dangling(p) && p != q && IsParent(p, q))
  {
    if p == ROOT {
      SplitAbsolute(p);
    } else if IsParent(p, q) && p != q {
      StrictParentParts(p, q);
    } else if PartsPrefix(p, q) {
      PrefixImpliesParent(p, q);
    }
  }

  lemma DanglingParentCounterexample()
    ensures var p, q := [SEP, 97, ESC], [SEP, 97, ESC, SEP, 98];
            IsParent(p, q) && !PartsPrefix(p, q)
  {
    var p: Key, q: Key := [SEP, 97, ESC], [SEP, 97, ESC, SEP, 98];
    assert q[..3] == p;
    assert !Escaped(p, 2) && Dangling(p);
    ParentIffPartsPrefix(p, q);
  }

  /** On absolute paths the byte test is a partial order with the root below all,
      and the ancestors of any path form a chain. */
  lemma ParentOrder(p: Key, q: Key, r: Key)
    requires IsAbsolute(p) && IsAbsolute(q) && IsAbsolute(r)
    ensures IsParent(p, p) && IsParent(ROOT, p)
    ensures IsParent(p, q) && IsParent(q, p) ==> p == q
    ensures IsParent(p, q) && IsParent(q, r) ==> IsParent(p, r)
    ensures IsParent(p, r) && IsParent(q, r) ==> IsParent(p, q) || IsParent(q, p)
    ensures IsParent(p, q) ==> IsPrefix(p, q)
  {
    if IsParent(p, q) && IsParent(q, r) && p != ROOT && q != ROOT {
      assert r[..|q|][..|p|] == r[..|p|];
      if |p| < |q| { assert r[|p|] == r[..|q|][|p|]; }
    }
    if IsParent(p, r) && IsParent(q, r) && p != ROOT && q != ROOT {
      if |p| <= |q| {
        assert r[..|q|][..|p|] == r[..|p|];
        if |p| < |q| { assert r[|p|] == r[..|q|][|p|]; }
      } else {
        assert r[..|p|][..|q|] == r[..|q|];
        assert r[|q|] == r[..|p|][|q|];
      }
    }
  }

  function Dirname(s: Key): Option<Key> {
    match Rfind(s)
    case None => None
    case Some(i) => if i == 0 then None else Some(s[..i])
  }

  function Basename(s: Key): Option<Key> {
    match Rfind(s)
    case None => if |s| > 0 then Some(s) else None
    case Some(i) => if |s| <= 1 then None else Some(s[i + 1..])
  }

  /** The basename is the last piece of any text but the empty one and the root, which have none. */
  lemma BasenameIs(s: Key)
    ensures Basename(s) == if s == [] || s == ROOT then None else Some(Split(s)[|Split(s)| - 1])
  {
    if s == ROOT { SplitAbsolute(s); }
  }

  /** The dirname is what stands before it, if anything does. */
  lemma DirnameIs(s: Key)
    ensures Dirname(s) ==
            var init := Split(s)[..|Split(s)| - 1];
            if init == [] || Join(init) == [] then None else Some(Join(init))
  {
    match Rfind(s) {
      case None =>
      case Some(i) =>
        JoinSplit(s[..i]);
        assert Split(s)[..|Split(s)| - 1] == Split(s[..i]);
    }
  }

  /** Absolute and without a dangling escape: the paths on which ancestry is structural. */
  ghost predicate Clean(p: Key) {
    IsAbsolute(p) && !Dangling(p)
  }

  lemma DirnameStep(p: Key, c: Key)
    requires Clean(p) && Clean(c) && IsParent(c, p) && c != p
    ensures match Dirname(p)
            case None => c == ROOT
            case Some(d) => IsParent(c, d)
  {
    if c != ROOT {
      assert p == c + p[|c|..];
      EscapedPrefix(c, p[|c|..], |c|);
      assert SepAt(p, |c|);
      var i := Rfind(p).value;
      assert p[..i][..|c|] == c;
    }
  }

  lemma DirnameClean(p: Key)
    requires IsAbsolute(p) && Dirname(p).Some?
    ensures Clean(Dirname(p).value) && IsParent(Dirname(p).value, p)
    ensures |Dirname(p).value| < |p|
  {
    var i := Rfind(p).value;
    assert p == p[..i] + p[i..];
    EscapedPrefix(p[..i], p[i..], i);
  }

  /** r is the greatest clean common ancestor of a and b. */
  ghost predicate IsGreatestCommonAncestor(r: Key, a: Key, b: Key) {
    Clean(r) && IsParent(r, a) && IsParent(r, b) &&
    forall c :: Clean(c) && IsParent(c, a) && IsParent(c, b) ==> IsParent(c, r)
  }

  method Lcp(path0: Key, path1: Key) returns (r: Key)
    ensures Clean(path0) && Clean(path1) ==> IsGreatestCommonAncestor(r, path0, path1)
  {
    var p0, p1 := path1, path0;
    if |path0| <= |path1| {
      p0, p1 := path0, path1;
    }
    ghost var low, high := p0, p1;
    while true
      invariant Clean(path0) && Clean(path1) ==> Clean(p0) && IsParent(p0, low)
      invariant Clean(path0) && Clean(path1) ==>
                  forall c :: Clean(c) && IsParent(c, low) && IsParent(c, high) ==> IsParent(c, p0)
      decreases |p0|
    {
      if IsParent(p0, p1) {
        return p0;
      }
      ghost var cur := p0;
      if Clean(path0) && Clean(path1) {
        forall c | Clean(c) && IsParent(c, low) && IsParent(c, high)
          ensures match Dirname(cur) case None => c == ROOT case Some(d) => IsParent(c, d)
        {
          DirnameStep(cur, c);
        }
      }
      match Dirname(p0) {
        case None =>
          return ROOT;
        case Some(d) =>
          if Clean(path0) && Clean(path1) {
            DirnameClean(p0);
            ParentOrder(d, p0, low);
          }
          p0 := d;
      }
    }
  }

  // ----- canonical form -----

  ghost predicate IsCanonical(s: Key) {
    forall i :: 0 <= i < |Parts(s)| ==> Parts(s)[i] != []
  }

  method CheckCanonical(s: Key) returns (r: bool)
    ensures r <==> IsCanonical(s)
  {
    var ps := Parts(s);
    for i := 0 to |ps|
      invariant forall j :: 0 <= j < i ==> ps[j] != []
    {
      if ps[i] == [] {
        return false;
      }
    }
    return true;
  }

  function NonEmpty(ps: seq<Key>): (r: seq<Key>)
    ensures forall i :: 0 <= i < |r| ==> r[i] != []
  {
    if ps == [] then []
    else NonEmpty(ps[..|ps| - 1]) + (if ps[|ps| - 1] == [] then [] else [ps[|ps| - 1]])
  }

  lemma NonEmptySnoc(ps: seq<Key>, x: Key)
    ensures NonEmpty(ps + [x]) == if x == [] then NonEmpty(ps) else NonEmpty(ps) + [x]
  {
    assert (ps + [x])[..|ps|] == ps;
  }

  function JoinAll(ps: seq<Key>): Key {
    if ps == [] then [] else Join(ps)
  }

  function Canonical(s: Key): Key {
    (if IsAbsolute(s) then [SEP] else []) + JoinAll(NonEmpty(Parts(s)))
  }

  lemma JoinAllSnoc(ps: seq<Key>, x: Key)
    ensures JoinAll(ps + [x]) == if ps == [] then x else JoinAll(ps) + [SEP] + x
  {
    if ps == [] { assert ps + [x] == [x]; } else { JoinSnoc(ps, x); }
  }

  method Canonize(s: Key) returns (res: Key)
    ensures res == Canonical(s)
  {
    res := [];
    if |s| > 0 {
      if s[0] == SEP {
        res := [SEP];
      }
      var body := AppendParts(Parts(s));
      res := res + body;
    } else {
      assert Split([]) == [[]];
      assert NonEmpty([[]]) == [];
    }
  }

  /** The loop of canonize over the nonempty parts. */
  method AppendParts(ps: seq<Key>) returns (res: Key)
    ensures res == JoinAll(NonEmpty(ps))
  {
    res := [];
    var first := true;
    for i := 0 to |ps|
      invariant res == JoinAll(NonEmpty(ps[..i]))
      invariant first <==> NonEmpty(ps[..i]) == []
    {
      assert ps[..i + 1] == ps[..i] + [ps[i]];
      NonEmptySnoc(ps[..i], ps[i]);
      if ps[i] != [] {
        JoinAllSnoc(NonEmpty(ps[..i]), ps[i]);
        if first {
          first := false;
        } else {
          res := res + [SEP];
        }
        res := res + ps[i];
      }
    }
    assert ps[..|ps|] == ps;
  }

  /** Pieces as Split makes them: no separator inside, and only the last may dangle. */
  ghost predicate ArePieces(ps: seq<Key>) {
    (forall i :: 0 <= i < |ps| ==> NoSep(ps[i])) &&
    (forall i :: 0 <= i < |ps| - 1 ==> !Dangling(ps[i]))
  }

  lemma {:induction false} SplitPieces(s: Key)
    ensures ArePieces(Split(s))
    ensures Dangling(Split(s)[|Split(s)| - 1]) == Dangling(s)
    decreases |s|
  {
    match Rfind(s) {
      case None =>
      case Some(i) =>
        SplitPieces(s[..i]);
        CutFacts(s, i);
        PiecesSnoc(Split(s[..i]), s[i + 1..]);
    }
  }

  lemma PiecesSnoc(ps: seq<Key>, x: Key)
    requires ArePieces(ps) && ps != [] && !Dangling(ps[|ps| - 1]) && NoSep(x)
    ensures ArePieces(ps + [x])
  {}

  /** What a cut at the last separator leaves on either side. */
  lemma CutFacts(s: Key, i: nat)
    requires Rfind(s) == Some(i) && i < |s|
    ensures !Dangling(s[..i]) && NoSep(s[i + 1..]) && Dangling(s[i + 1..]) == Dangling(s)
  {
    var a, b := s[..i], s[i + 1..];
    CutAt(s, i);
    assert s == a + s[i..];
    EscapedPrefix(a, s[i..], i);
    NotDanglingSep(a);
    DanglingConcat(a + [SEP], b);
    SepAtConcat(a + [SEP], b);
    assert forall j :: 0 <= j < |b| ==> SepAt(s, |a + [SEP]| + j) == SepAt(b, j);
  }

  lemma {:induction false} JoinDangling(ps: seq<Key>)
    requires |ps| >= 1
    ensures Dangling(Join(ps)) == Dangling(ps[|ps| - 1])
  {
    if |ps| > 1 {
      var h := Join(ps[..|ps| - 1]) + [SEP];
      NotDanglingSep(Join(ps[..|ps| - 1]));
      DanglingConcat(h, ps[|ps| - 1]);
    }
  }

  lemma {:induction false} SplitJoin(ps: seq<Key>)
    requires |ps| >= 1 && ArePieces(ps)
    ensures Split(Join(ps)) == ps
  {
    if |ps| == 1 {
      assert Rfind(ps[0]).None?;
      assert ps == [ps[0]];
    } else {
      var init, last := ps[..|ps| - 1], ps[|ps| - 1];
      SplitJoin(init);
      JoinDangling(init);
      SplitGlue(Join(init), last);
      assert Rfind(last).None?;
      assert ps == init + [last];
    }
  }

  lemma {:induction false} NonEmptyPieces(ps: seq<Key>)
    requires ArePieces(ps)
    ensures ArePieces(NonEmpty(ps))
    ensures ps != [] && !Dangling(ps[|ps| - 1]) ==>
              forall i :: 0 <= i < |NonEmpty(ps)| ==> !Dangling(NonEmpty(ps)[i])
  {
    if ps != [] {
      NonEmptyPieces(ps[..|ps| - 1]);
    }
  }

  lemma PartsArePieces(s: Key)
    ensures ArePieces(Parts(s))
  {
    SplitPieces(s);
  }

  /** Nonempty pieces joined, with or without the leading separator, read back as themselves. */
  lemma PartsOfJoin(ps: seq<Key>)
    requires ps != [] && ArePieces(ps) && Join(ps) != []
    ensures Parts([SEP] + Join(ps)) == ps
    ensures ps[0] != [] ==> !IsAbsolute(Join(ps)) && Parts(Join(ps)) == ps
  {
    var t := Join(ps);
    SplitJoin(ps);
    SplitAbsolute([SEP] + t);
    assert ([SEP] + t)[1..] == t;
    if ps[0] != [] {
      JoinHead(ps);
      assert !SepAt(ps[0], 0);
    }
  }

  lemma {:induction false} JoinHead(ps: seq<Key>)
    requires |ps| >= 1 && ps[0] != []
    ensures Join(ps) != [] && Join(ps)[0] == ps[0][0]
  {
    if |ps| > 1 { JoinHead(ps[..|ps| - 1]); }
  }

  lemma {:induction false} RelativeHead(s: Key)
    requires s != [] && !IsAbsolute(s)
    ensures Split(s)[0] != []
    decreases |s|
  {
    match Rfind(s) {
      case None =>
      case Some(i) => RelativeHead(s[..i]);
    }
  }

  lemma {:induction false} NonEmptyKeeps(ps: seq<Key>, i: nat)
    requires i < |ps| && ps[i] != []
    ensures NonEmpty(ps) != []
  {
    if i < |ps| - 1 { NonEmptyKeeps(ps[..|ps| - 1], i); }
  }

  /** canonize keeps exactly the nonempty parts, in order; only the empty text,
      whose single part is empty, is an exception. */
  lemma CanonicalParts(s: Key)
    ensures Parts(Canonical(s)) == NonEmpty(Parts(s)) <==> s != []
    ensures IsAbsolute(Canonical(s)) == IsAbsolute(s)
    ensures Canonical(s) == [] <==> s == []
  {
    var ps := NonEmpty(Parts(s));
    PartsArePieces(s);
    NonEmptyPieces(Parts(s));
    if s == [] {
      assert Split([]) == [[]];
      assert NonEmpty([[]]) == [];
    } else if ps == [] {
      if !IsAbsolute(s) {
        RelativeHead(s);
        NonEmptyKeeps(Parts(s), 0);
        assert false;
      }
      SplitAbsolute(ROOT);
    } else {
      JoinHead(ps);
      PartsOfJoin(ps);
      assert [] + Join(ps) == Join(ps);
    }
  }

  lemma {:induction false} NonEmptyIdempotent(ps: seq<Key>)
    requires forall i :: 0 <= i < |ps| ==> ps[i] != []
    ensures NonEmpty(ps) == ps
  {
    if ps != [] { NonEmptyIdempotent(ps[..|ps| - 1]); }
  }

  lemma CanonicalIdempotent(s: Key)
    ensures Canonical(Canonical(s)) == Canonical(s)
    ensures s != [] ==> IsCanonical(Canonical(s))
  {
    CanonicalParts(s);
    if s != [] {
      NonEmptyIdempotent(NonEmpty(Parts(s)));
    }
  }

  lemma CanonicalFixed(s: Key)
    requires IsCanonical(s)
    ensures Canonical(s) == s
  {
    NonEmptyIdempotent(Parts(s));
    if IsAbsolute(s) { JoinPartsAbsolute(s); } else { JoinPartsRelative(s); }
  }

  lemma JoinPartsAbsolute(s: Key)
    requires IsAbsolute(s)
    ensures [SEP] + JoinAll(Parts(s)) == s
  {
    SplitAbsolute(s);
    JoinSplit(s[1..]);
    assert s == [SEP] + s[1..];
  }

  lemma JoinPartsRelative(s: Key)
    requires !IsAbsolute(s)
    ensures [] + JoinAll(Parts(s)) == s
  {
    JoinSplit(s);
    assert Parts(s) == Split(s);
  }

  /** Path::from: canonical text is kept, any other is canonized. */
  method From(s: Key) returns (r: Key)
    ensures r == Canonical(s)
  {
    var ok := CheckCanonical(s);
    if ok {
      CanonicalFixed(s);
      r := s;
    } else {
      r := Canonize(s);
    }
  }

  function Append(self: Key, other: Key): Key {
    if |other| == 0 then self else Canonical(self + [SEP] + other)
  }

  /** Appending adds the nonempty parts of the text, however it is written, to those of the path. */
  lemma AppendKeepsParts(a: Key, b: Key)
    requires IsAbsolute(a) && !Dangling(a) && b != []
    ensures Parts(Append(a, b)) == NonEmpty(Parts(a)) + NonEmpty(Split(b))
    ensures IsAbsolute(Append(a, b))
  {
    CanonicalParts(a + [SEP] + b);
    SplitAfter(a, b);
    NonEmptyConcat(Split(a[1..]), Split(b));
    NonEmptyTail(a);
  }

  lemma SplitAfter(a: Key, b: Key)
    requires IsAbsolute(a) && !Dangling(a) && b != []
    ensures Parts(a + [SEP] + b) == Split(a[1..]) + Split(b)
  {
    var s := a + [SEP] + b;
    SplitAbsolute(s);
    assert s[1..] == a[1..] + [SEP] + b;
    DanglingConcat([SEP], a[1..]);
    assert [SEP] + a[1..] == a;
    SplitGlue(a[1..], b);
  }

  lemma NonEmptyTail(a: Key)
    requires IsAbsolute(a)
    ensures NonEmpty(Split(a[1..])) == NonEmpty(Parts(a))
  {
    SplitAbsolute(a);
    if a == ROOT {
      var e: seq<Key> := [[]];
      assert a[1..] == [] && Split([]) == e && e[..0] == [];
      assert NonEmpty(e) == [];
    }
  }

  lemma {:induction false} NonEmptyConcat(u: seq<Key>, v: seq<Key>)
    ensures NonEmpty(u + v) == NonEmpty(u) + NonEmpty(v)
  {
    if v == [] {
      assert u + v == u;
    } else {
      var init, last := v[..|v| - 1], v[|v| - 1];
      NonEmptyConcat(u, init);
      assert u + v == (u + init) + [last] && v == init + [last];
      NonEmptySnoc(u + init, last);
      NonEmptySnoc(init, last);
    }
  }

  /** The last separator of an absolute path leaves its last part after it. */
  lemma LastPart(p: Key)
    requires IsAbsolute(p) && p != ROOT
    ensures Rfind(p).Some?
    ensures Parts(p) != [] && Parts(p)[|Parts(p)| - 1] == p[Rfind(p).value + 1..]
  {
    assert SepAt(p, 0);
    SplitAbsolute(p);
  }

  /** Taking a canonical absolute path apart and appending the pieces restores it. */
  lemma AppendDirnameBasename(p: Key)
    requires IsAbsolute(p) && IsCanonical(p) && p != ROOT
    ensures Basename(p).Some?
    ensures Append(match Dirname(p) case Some(d) => d case None => ROOT, Basename(p).value) == p
  {
    LastPart(p);
    var i := Rfind(p).value;
    var b := p[i + 1..];
    if i == 0 {
      assert p == [SEP] + b;
      SepAtConcat([SEP], b);
      forall j | 0 <= j < |b| ensures !SepAt(b, j) { assert SepAt(p, |[SEP]| + j) == SepAt(b, j); }
      RootAppend(b);
    } else {
      assert p[..i] + [SEP] + b == p;
      CanonicalFixed(p);
    }
  }

  lemma RootAppend(b: Key)
    requires NoSep(b) && b != []
    ensures Append(ROOT, b) == [SEP] + b
  {
    var s := ROOT + [SEP] + b;
    SplitAbsolute(s);
    assert s[1..] == [] + [SEP] + b;
    SplitGlue([], b);
    assert Split([]) == [[]] && Split(b) == [b];
    assert Parts(s) == [[], b];
    assert [[], b][..1] == [[]];
    assert NonEmpty([[]]) == [] && NonEmpty([[], b]) == [b];
  }

  // ----- printing and parsing components -----

  function EscapeByte(c: byte): Key {
    if c == ESC || c == SEP then [ESC, c] else [c]
  }

  function Escape(s: Key): Key {
    if s == [] then [] else EscapeByte(s[0]) + Escape(s[1..])
  }

  function Unescape(s: Key): Key {
    if s == [] then []
    else if s[0] == ESC && |s| > 1 then [s[1]] + Unescape(s[2..])
    else [s[0]] + Unescape(s[1..])
  }

  lemma {:induction false} UnescapeEscape(s: Key)
    ensures Unescape(Escape(s)) == s
  {
    if s != [] {
      UnescapeEscape(s[1..]);
      var e := Escape(s);
      assert e[|EscapeByte(s[0])|..] == Escape(s[1..]);
    }
  }

  /** Unescaping drops escapes only. */
  lemma {:induction false} UnescapePlain(s: Key)
    requires ESC !in s
    ensures Unescape(s) == s
  {
    if s != [] {
      assert s == [s[0]] + s[1..];
      UnescapePlain(s[1..]);
    }
  }

  /** An escaped component has no separator left and no dangling escape. */
  lemma {:induction false} EscapeSafe(s: Key)
    ensures NoSep(Escape(s)) && !Dangling(Escape(s))
  {
    if s != [] {
      var a, b := EscapeByte(s[0]), Escape(s[1..]);
      EscapeSafe(s[1..]);
      if |a| == 2 { assert !Escaped(a, 0) && Escaped(a, 1); }
      assert NoSep(a) && !Dangling(a);
      SepAtConcat(a, b);
      DanglingConcat(a, b);
      forall i | 0 <= i < |a + b| ensures !SepAt(a + b, i) {
        if i >= |a| { assert SepAt(a + b, |a| + (i - |a|)) == SepAt(b, i - |a|); }
      }
    }
  }

  /** How many bytes of a component must be escaped. */
  ghost function Special(s: Key): nat {
    if s == [] then 0 else Special(s[1..]) + (if s[0] == SEP || s[0] == ESC then 1 else 0)
  }

  /** Escaping adds one byte for each separator and each escape, and nothing else; so a
      component without them is printed as it is, and only such a one. */
  lemma {:induction false} EscapeLength(s: Key)
    ensures |Escape(s)| == |s| + Special(s)
    ensures Escape(s) == s <==> SEP !in s && ESC !in s
  {
    if s != [] {
      EscapeLength(s[1..]);
      assert s == [s[0]] + s[1..];
      SpecialNone(s);
      if Special(s) == 0 {
        assert Escape(s) == [s[0]] + Escape(s[1..]);
      }
    }
  }

  lemma {:induction false} SpecialNone(s: Key)
    ensures Special(s) == 0 <==> SEP !in s && ESC !in s
  {
    if s != [] {
      SpecialNone(s[1..]);
      assert s == [s[0]] + s[1..];
    }
  }

  /** Every escaped spelling of a component is at least as long. */
  lemma {:induction false} EscapeShortest(e: Key)
    requires NoSep(e) && !Dangling(e)
    ensures |e| >= |Escape(Unescape(e))|
    decreases |e|
  {
    EscapeLength(Unescape(e));
    if e != [] {
      if e[0] == ESC {
        assert |e| >= 2 by { assert Escaped(e, 1) by { assert !Escaped(e, 0); } }
        UnescapeTail(e, 2);
        EscapeShortest(e[2..]);
        EscapeLength(Unescape(e[2..]));
        assert Unescape(e)[1..] == Unescape(e[2..]);
      } else {
        UnescapeTail(e, 1);
        EscapeShortest(e[1..]);
        EscapeLength(Unescape(e[1..]));
        assert Unescape(e)[1..] == Unescape(e[1..]);
        assert e[0] != SEP by { assert !SepAt(e, 0); assert !Escaped(e, 0); }
      }
    }
  }

  lemma UnescapeTail(e: Key, n: nat)
    requires n <= |e| && NoSep(e) && !Dangling(e)
    requires (n == 1 && e[0] != ESC) || (n == 2 && e[0] == ESC)
    ensures NoSep(e[n..]) && !Dangling(e[n..])
  {
    var a, b := e[..n], e[n..];
    assert e == a + b;
    assert !Dangling(a) by {
      assert !Escaped(a, 0);
      if n == 2 { assert Escaped(a, 1); }
    }
    SepAtConcat(a, b);
    DanglingConcat(a, b);
    forall i | 0 <= i < |b| ensures !SepAt(b, i) {
      assert SepAt(e, |a| + i) == SepAt(b, i);
    }
  }

  function EscapeAll(cs: seq<Key>): (r: seq<Key>)
    ensures |r| == |cs| && forall i :: 0 <= i < |cs| ==> r[i] == Escape(cs[i])
  {
    seq(|cs|, i requires 0 <= i < |cs| => Escape(cs[i]))
  }

  function UnescapeAll(ps: seq<Key>): (r: seq<Key>)
    ensures |r| == |ps| && forall i :: 0 <= i < |ps| ==> r[i] == Unescape(ps[i])
  {
    seq(|ps|, i requires 0 <= i < |ps| => Unescape(ps[i]))
  }

  ghost function Printed(cs: seq<Key>): Key {
    [SEP] + JoinAll(EscapeAll(cs))
  }

  /** What the printing loop has pushed after the components es. */
  ghost function Pushed(es: seq<Key>): Key {
    if es == [] then [SEP] else Pushed(es[..|es| - 1]) + es[|es| - 1] + [SEP]
  }

  lemma {:induction false} PushedJoin(es: seq<Key>)
    requires es != []
    ensures Pushed(es) == [SEP] + Join(es) + [SEP]
  {
    if |es| > 1 { PushedJoin(es[..|es| - 1]); }
  }

  /** FromIterator: each component escaped and followed by a separator, the last one popped. */
  method FromIter(cs: seq<Key>) returns (buf: Key)
    ensures buf == Printed(cs)
  {
    buf := [SEP];
    ghost var es := EscapeAll(cs);
    for i := 0 to |cs|
      invariant buf == Pushed(es[..i])
    {
      assert es[..i + 1][..i] == es[..i];
      buf := buf + Escape(cs[i]);
      buf := buf + [SEP];
    }
    assert es[..|cs|] == es;
    if es != [] { PushedJoin(es); }
    if |buf| > 1 {
      buf := buf[..|buf| - 1];
    }
  }

  /** Printing components and parsing the path gives the components back, for every
      list of components but the single empty one, which prints as the root. */
  lemma PrintParse(cs: seq<Key>)
    ensures UnescapeAll(Parts(Printed(cs))) == cs <==> cs != [[]]
    ensures (forall i :: 0 <= i < |cs| ==> cs[i] != []) ==> IsCanonical(Printed(cs))
  {
    var es := EscapeAll(cs);
    if cs == [] {
      SplitAbsolute(ROOT);
    } else if cs == [[]] {
      assert es == [[]];
      SplitAbsolute(ROOT);
    } else {
      forall i | 0 <= i < |es| ensures NoSep(es[i]) && !Dangling(es[i]) { EscapeSafe(cs[i]); }
      EscapedJoinNonEmpty(cs);
      PartsOfJoin(es);
      forall i | 0 <= i < |cs| ensures UnescapeAll(es)[i] == cs[i] { UnescapeEscape(cs[i]); }
    }
  }

  lemma EscapedJoinNonEmpty(cs: seq<Key>)
    requires cs != [] && cs != [[]]
    ensures Join(EscapeAll(cs)) != []
  {
    if |cs| == 1 {
      assert cs == [cs[0]];
    }
  }
}
