/** Byte strings and their lexicographic order, the order in which sled and
    BTreeMap enumerate keys and in which Rust compares strings. */
module Bytes {
  datatype Option<+T> = None | Some(value: T)

  type byte = x: int | 0 <= x < 256

  type Key = seq<byte>

  predicate Less(a: Key, b: Key) {
    if b == [] then false
    else if a == [] then true
    else a[0] < b[0] || (a[0] == b[0] && Less(a[1..], b[1..]))
  }

  predicate AtMost(a: Key, b: Key) {
    a == b || Less(a, b)
  }

  predicate IsPrefix(a: Key, b: Key) {
    |a| <= |b| && b[..|a|] == a
  }

  lemma {:induction false} LessIrreflexive(a: Key)
    ensures !Less(a, a)
  {
    if a != [] {
      LessIrreflexive(a[1..]);
    }
  }

  lemma {:induction false} LessTransitive(a: Key, b: Key, c: Key)
    requires Less(a, b) && Less(b, c)
    ensures Less(a, c)
  {
    if a != [] && a[0] == b[0] && b[0] == c[0] {
      LessTransitive(a[1..], b[1..], c[1..]);
    }
  }

  lemma {:induction false} LessTotal(a: Key, b: Key)
    ensures a == b || Less(a, b) || Less(b, a)
  {
    if a != [] && b != [] && a[0] == b[0] {
      LessTotal(a[1..], b[1..]);
      if a[1..] == b[1..] {
        assert a == [a[0]] + a[1..] && b == [b[0]] + b[1..];
      }
    }
  }

  /** A proper prefix sorts before every one of its extensions. */
  lemma {:induction false} PrefixLess(a: Key, b: Key)
    requires IsPrefix(a, b) && a != b
    ensures Less(a, b)
  {
    if a != [] {
      assert a[0] == b[..|a|][0];
      assert a[1..] == b[1..][..|a| - 1] by {
        assert b[..|a|][1..] == b[1..|a|];
      }
      PrefixLess(a[1..], b[1..]);
    }
  }

  ghost predicate IsLeast(s: set<Key>, m: Key) {
    m in s && forall k <- s :: AtMost(m, k)
  }

  ghost predicate IsGreatest(s: set<Key>, m: Key) {
    m in s && forall k <- s :: AtMost(k, m)
  }

  lemma {:induction false} LeastExists(s: set<Key>) returns (m: Key)
    requires s != {}
    ensures IsLeast(s, m)
  {
    var k :| k in s;
    var rest := s - {k};
    if rest == {} {
      m := k;
      assert s == {k};
    } else {
      m := LeastExists(rest);
      LessTotal(k, m);
      if Less(k, m) {
        forall j | j in s ensures AtMost(k, j) {
          if j != k && m != j { assert j in rest; LessTransitive(k, m, j); }
        }
        m := k;
      }
    }
  }

  lemma {:induction false} GreatestExists(s: set<Key>) returns (m: Key)
    requires s != {}
    ensures IsGreatest(s, m)
  {
    var k :| k in s;
    var rest := s - {k};
    if rest == {} {
      m := k;
      assert s == {k};
    } else {
      m := GreatestExists(rest);
      LessTotal(k, m);
      if Less(m, k) {
        forall j | j in s ensures AtMost(j, k) {
          if j != k && j != m { assert j in rest; LessTransitive(j, m, k); }
        }
        m := k;
      }
    }
  }

  lemma HasLeast(s: set<Key>)
    requires s != {}
    ensures exists m :: IsLeast(s, m)
  {
    var _ := LeastExists(s);
  }

  lemma LeastUnique(s: set<Key>, a: Key, b: Key)
    requires IsLeast(s, a) && IsLeast(s, b)
    ensures a == b
  {
    if a != b {
      LessTransitive(a, b, a);
      LessIrreflexive(a);
    }
  }

  ghost function Least(s: set<Key>): (m: Key)
    requires s != {}
    ensures IsLeast(s, m)
  {
    HasLeast(s);
    var m :| IsLeast(s, m);
    m
  }

  /** The elements of a finite key set in ascending order: what a full scan yields. */
  ghost function Ascending(s: set<Key>): (r: seq<Key>)
    ensures forall k :: k in r <==> k in s
    ensures |r| == |s|
  {
    if s == {} then [] else
      var m := Least(s);
      [m] + Ascending(s - {m})
  }

  lemma AscendingStep(s: set<Key>, m: Key)
    requires IsLeast(s, m)
    ensures Ascending(s) == [m] + Ascending(s - {m})
  {
    LeastUnique(s, m, Least(s));
  }

  /** And it is strictly ascending. */
  lemma {:induction false} AscendingSorted(s: set<Key>, i: nat, j: nat)
    requires i < j < |s|
    ensures Less(Ascending(s)[i], Ascending(s)[j])
    decreases |s|
  {
    var m := Least(s);
    var rest := Ascending(s - {m});
    assert Ascending(s) == [m] + rest;
    if i > 0 {
      AscendingSorted(s - {m}, i - 1, j - 1);
    } else {
      assert rest[j - 1] in rest;
    }
  }
}
