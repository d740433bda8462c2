/** Stable sorting by key, as sort_by of a Rust slice does. */
module Sorting {
  import opened Bytes

  datatype Keyed<+T> = Keyed(key: Key, item: T)

  ghost predicate Sorted<T>(s: seq<Keyed<T>>) {
    forall i, j | 0 <= i < j < |s| :: AtMost(s[i].key, s[j].key)
  }

  /** The elements with one key, in order. */
  ghost function With<T>(s: seq<Keyed<T>>, k: Key): seq<Keyed<T>> {
    if s == [] then []
    else if s[0].key == k then [s[0]] + With(s[1..], k)
    else With(s[1..], k)
  }

  ghost predicate SamePerKey<T>(s: seq<Keyed<T>>, t: seq<Keyed<T>>) {
    forall k :: With(s, k) == With(t, k)
  }

  function InsertSorted<T>(x: Keyed<T>, s: seq<Keyed<T>>): seq<Keyed<T>> {
    if s == [] then [x]
    else if Less(s[0].key, x.key) then [s[0]] + InsertSorted(x, s[1..])
    else [x] + s
  }

  /** What sort_by computes: ascending by key, equal keys in their former order. */
  function StableSort<T>(s: seq<Keyed<T>>): seq<Keyed<T>> {
    if s == [] then [] else InsertSorted(s[0], StableSort(s[1..]))
  }

  lemma AtMostTransitive(a: Key, b: Key, c: Key)
    requires AtMost(a, b) && AtMost(b, c)
    ensures AtMost(a, c)
  {
    if a != b && b != c { LessTransitive(a, b, c); }
  }

  lemma SortedCons<T>(x: Keyed<T>, s: seq<Keyed<T>>)
    requires Sorted(s) && (s != [] ==> AtMost(x.key, s[0].key))
    ensures Sorted([x] + s)
  {
    var t := [x] + s;
    forall i, j | 0 <= i < j < |t| ensures AtMost(t[i].key, t[j].key) {
      if i == 0 {
        if j > 1 { AtMostTransitive(x.key, s[0].key, s[j - 1].key); }
      } else {
        assert AtMost(s[i - 1].key, s[j - 1].key);
      }
    }
  }

  lemma {:induction false} InsertSortedKeeps<T>(x: Keyed<T>, s: seq<Keyed<T>>)
    requires Sorted(s)
    ensures Sorted(InsertSorted(x, s)) && InsertSorted(x, s) != []
    ensures InsertSorted(x, s)[0] == x || (s != [] && InsertSorted(x, s)[0] == s[0])
    decreases s
  {
    if s != [] {
      if Less(s[0].key, x.key) {
        InsertSortedKeeps(x, s[1..]);
        SortedCons(s[0], InsertSorted(x, s[1..]));
      } else {
        LessTotal(s[0].key, x.key);
        SortedCons(x, s);
      }
    }
  }

  lemma {:induction false} InsertWith<T>(x: Keyed<T>, s: seq<Keyed<T>>, k: Key)
    ensures With(InsertSorted(x, s), k) == With([x] + s, k)
    decreases s
  {
    var t := [x] + s;
    assert t[1..] == s;
    if s != [] && Less(s[0].key, x.key) {
      InsertWith(x, s[1..], k);
      LessIrreflexive(x.key);
      var u := [x] + s[1..];
      assert u[1..] == s[1..];
      var r := [s[0]] + InsertSorted(x, s[1..]);
      assert r[1..] == InsertSorted(x, s[1..]);
    } else {
      assert InsertSorted(x, s) == t;
    }
  }

  /** Sorting leaves the elements of every key as they were. */
  lemma {:induction false} SortLaws<T>(s: seq<Keyed<T>>)
    ensures Sorted(StableSort(s)) && SamePerKey(StableSort(s), s)
  {
    if s != [] {
      SortLaws(s[1..]);
      var t := StableSort(s[1..]);
      InsertSortedKeeps(s[0], t);
      forall k ensures With(StableSort(s), k) == With(s, k) {
        InsertWith(s[0], t, k);
        var u := [s[0]] + t;
        assert u[1..] == t;
      }
    }
  }

  lemma {:induction false} WithMember<T>(s: seq<Keyed<T>>, k: Key)
    ensures With(s, k) == [] <==> forall i | 0 <= i < |s| :: s[i].key != k
    decreases s
  {
    if s != [] {
      WithMember(s[1..], k);
      if s[0].key != k && With(s[1..], k) == [] {
        forall i | 0 <= i < |s| ensures s[i].key != k {
          if i > 0 { assert s[i] == s[1..][i - 1]; }
        }
      }
    }
  }
}
