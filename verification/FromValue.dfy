/** The named field extraction generated by the FromValue derive of netidx-derive/src/lib.rs. */
module FromValue {
  import opened Bytes
  import opened Sorting

  /** A field that is not skipped, by its wire name: what a missing key means, and from_value
      of its type. */
  datatype Field<!V, U> = Field(optional: bool, default: U, convert: V -> Option<U>)

  datatype Failure = Missing(name: Key) | Unconvertible(name: Key)

  datatype Result<+T> = Done(value: T) | Failed(failure: Failure)

  // ----- the plain meaning -----

  /** The first pair with a key. */
  function Find<V>(ps: seq<Keyed<V>>, k: Key): Option<V> {
    if ps == [] then None else if ps[0].key == k then Some(ps[0].item) else Find(ps[1..], k)
  }

  /** A field's value by plain lookup. */
  function Lookup<V, U>(name: Key, f: Field<V, U>, ps: seq<Keyed<V>>): Result<U> {
    match Find(ps, name)
    case None => if f.optional then Done(f.default) else Failed(Missing(name))
    case Some(v) =>
      match f.convert(v)
      case None => Failed(Unconvertible(name))
      case Some(u) => Done(u)
  }

  function Without<V>(ps: seq<Keyed<V>>, k: Key): seq<Keyed<V>> {
    if ps == [] then [] else if ps[0].key == k then ps[1..] else [ps[0]] + Without(ps[1..], k)
  }

  function Prepend<U>(u: U, r: Result<seq<U>>): Result<seq<U>> {
    match r
    case Done(us) => Done([u] + us)
    case Failed(e) => Failed(e)
  }

  /** Each field in turn takes the first pair with its name that no earlier field took. */
  function Extracted<V, U>(fs: seq<Keyed<Field<V, U>>>, ps: seq<Keyed<V>>): Result<seq<U>>
    decreases fs
  {
    if fs == [] then Done([])
    else match Lookup(fs[0].key, fs[0].item, ps)
      case Failed(e) => Failed(e)
      case Done(u) => Prepend(u, Extracted(fs[1..], Without(ps, fs[0].key)))
  }

  lemma {:induction false} FindWith<V>(ps: seq<Keyed<V>>, k: Key)
    ensures Find(ps, k) == if With(ps, k) == [] then None else Some(With(ps, k)[0].item)
  {
    if ps != [] && ps[0].key != k { FindWith(ps[1..], k); }
  }

  lemma {:induction false} WithoutWith<V>(ps: seq<Keyed<V>>, k: Key, j: Key)
    ensures With(Without(ps, k), j) == if j == k && With(ps, k) != [] then With(ps, k)[1..] else With(ps, j)
  {
    if ps != [] && ps[0].key != k {
      WithoutWith(ps[1..], k, j);
      var r := [ps[0]] + Without(ps[1..], k);
      assert r[1..] == Without(ps[1..], k);
    } else if ps != [] {
      assert With(ps, k)[1..] == With(ps[1..], k);
    }
  }

  /** The meaning depends only on the pairs of each key, so sorting does not change it. */
  lemma {:induction false} ExtractedPerKey<V, U>(fs: seq<Keyed<Field<V, U>>>, ps: seq<Keyed<V>>, qs: seq<Keyed<V>>)
    requires SamePerKey(ps, qs)
    ensures Extracted(fs, ps) == Extracted(fs, qs)
    decreases fs
  {
    if fs != [] {
      var k := fs[0].key;
      FindWith(ps, k);
      FindWith(qs, k);
      forall j ensures With(Without(ps, k), j) == With(Without(qs, k), j) {
        WithoutWith(ps, k, j);
        WithoutWith(qs, k, j);
      }
      ExtractedPerKey(fs[1..], Without(ps, k), Without(qs, k));
    }
  }

  // ----- the merge join -----

  ghost predicate Below<T>(k: Key, s: seq<Keyed<T>>) {
    forall i | 0 <= i < |s| :: Less(k, s[i].key)
  }

  lemma {:induction false} NotFound<V>(ps: seq<Keyed<V>>, k: Key)
    requires forall i | 0 <= i < |ps| :: ps[i].key != k
    ensures Find(ps, k) == None && Without(ps, k) == ps
    decreases ps
  {
    if ps != [] { NotFound(ps[1..], k); }
  }

  lemma BelowNotFound<V>(ps: seq<Keyed<V>>, k: Key)
    requires Below(k, ps)
    ensures Find(ps, k) == None && Without(ps, k) == ps
  {
    LessIrreflexive(k);
    NotFound(ps, k);
  }

  /** A pair below every remaining name is never looked at. */
  lemma {:induction false} SkipPair<V, U>(fs: seq<Keyed<Field<V, U>>>, ps: seq<Keyed<V>>)
    requires ps != [] && Below(ps[0].key, fs)
    ensures Extracted(fs, ps) == Extracted(fs, ps[1..])
    decreases fs
  {
    if fs != [] {
      LessIrreflexive(ps[0].key);
      var k := fs[0].key;
      var qs := Without(ps, k);
      assert qs[0] == ps[0] && qs[1..] == Without(ps[1..], k);
      SkipPair(fs[1..], qs);
    }
  }

  function Onto<U>(out: seq<U>, r: Result<seq<U>>): Result<seq<U>> {
    match r
    case Done(us) => Done(out + us)
    case Failed(e) => Failed(e)
  }

  lemma OntoPrepend<U>(out: seq<U>, u: U, r: Result<seq<U>>)
    ensures Onto(out, Prepend(u, r)) == Onto(out + [u], r)
  {
    if r.Done? { assert out + ([u] + r.value) == out + [u] + r.value; }
  }

  lemma SortedTail<T>(s: seq<Keyed<T>>, i: nat, k: Key)
    requires Sorted(s) && i <= |s| && (i < |s| ==> Less(k, s[i].key))
    ensures Below(k, s[i..])
  {
    forall j | i <= j < |s| ensures Less(k, s[j].key) {
      if j > i && s[i].key != s[j].key { LessTransitive(k, s[i].key, s[j].key); }
    }
  }

  lemma BelowAll<T>(k: Key, s: seq<Keyed<T>>, i: nat)
    requires Sorted(s) && i < |s| && Less(k, s[i].key)
    ensures Below(k, s[i..])
  {
    SortedTail(s, i, k);
  }

  /** One generated loop: advance the iterator to the field's name. */
  method Seek<V, U>(fs: seq<Keyed<Field<V, U>>>, f: nat, ps: seq<Keyed<V>>, from: nat) returns (i: nat)
    requires Sorted(fs) && Sorted(ps) && f < |fs| && from <= |ps|
    ensures from <= i <= |ps| && (i < |ps| ==> !Less(ps[i].key, fs[f].key))
    ensures Extracted(fs[f..], ps[i..]) == Extracted(fs[f..], ps[from..])
  {
    i := from;
    ghost var gs := fs[f..];
    ghost var r := Extracted(gs, ps[from..]);
    while i < |ps| && Less(ps[i].key, fs[f].key)
      invariant from <= i <= |ps|
      invariant Extracted(gs, ps[i..]) == r
    {
      BelowAll(ps[i].key, fs, f);
      SkipAt(gs, ps, i);
      i := i + 1;
    }
  }

  lemma SkipAt<V, U>(fs: seq<Keyed<Field<V, U>>>, ps: seq<Keyed<V>>, i: nat)
    requires i < |ps| && Below(ps[i].key, fs)
    ensures Extracted(fs, ps[i..]) == Extracted(fs, ps[i + 1..])
  {
    SkipPair(fs, ps[i..]);
    assert ps[i..][1..] == ps[i + 1..];
  }

  lemma ExtractedHit<V, U>(fs: seq<Keyed<Field<V, U>>>, ps: seq<Keyed<V>>)
    requires fs != [] && ps != [] && ps[0].key == fs[0].key
    ensures Extracted(fs, ps) ==
            match fs[0].item.convert(ps[0].item)
            case None => Failed(Unconvertible(fs[0].key))
            case Some(u) => Prepend(u, Extracted(fs[1..], ps[1..]))
  {}

  lemma ExtractedMiss<V, U>(fs: seq<Keyed<Field<V, U>>>, ps: seq<Keyed<V>>)
    requires fs != [] && Below(fs[0].key, ps)
    ensures Extracted(fs, ps) ==
            if fs[0].item.optional then Prepend(fs[0].item.default, Extracted(fs[1..], ps))
            else Failed(Missing(fs[0].key))
  {
    BelowNotFound(ps, fs[0].key);
  }

  /** The generated code, field by field over one pass of the sorted pairs. */
  method MergeJoin<V, U>(fs: seq<Keyed<Field<V, U>>>, ps: seq<Keyed<V>>) returns (r: Result<seq<U>>)
    requires Sorted(fs) && Sorted(ps)
    ensures r == Extracted(fs, ps)
  {
    var i: nat := 0;
    var out: seq<U> := [];
    ghost var ahead := Extracted(fs, ps);
    assert fs[0..] == fs && ps[0..] == ps;
    OntoNothing(ahead);
    for f := 0 to |fs|
      invariant i <= |ps|
      invariant ahead == Extracted(fs[f..], ps[i..])
      invariant Onto(out, ahead) == Extracted(fs, ps)
    {
      i := Seek(fs, f, ps, i);
      ghost var gs, qs := fs[f..], ps[i..];
      assert gs[1..] == fs[f + 1..];
      if i < |ps| && ps[i].key == fs[f].key {
        ExtractedHit(gs, qs);
        assert qs[1..] == ps[i + 1..];
        match fs[f].item.convert(ps[i].item) {
          case None => return Failed(Unconvertible(fs[f].key));
          case Some(u) =>
            ahead := Extracted(gs[1..], qs[1..]);
            OntoPrepend(out, u, ahead);
            out := out + [u];
            i := i + 1;
        }
      } else {
        if i < |ps| { LessTotal(ps[i].key, fs[f].key); }
        SortedTail(ps, i, fs[f].key);
        ExtractedMiss(gs, qs);
        if !fs[f].item.optional {
          return Failed(Missing(fs[f].key));
        }
        ahead := Extracted(gs[1..], qs);
        OntoPrepend(out, fs[f].item.default, ahead);
        out := out + [fs[f].item.default];
      }
    }
    assert ahead == Done([]) && out + [] == out;
    r := Done(out);
  }

  lemma OntoNothing<U>(r: Result<seq<U>>)
    ensures Onto([], r) == r
  {
    if r.Done? { assert [] + r.value == r.value; }
  }

  /** from_value of a struct with named fields, declared in any order, over pairs in any
      order and with any other keys among them. */
  method FromPairs<V, U>(declared: seq<Keyed<Field<V, U>>>, pairs: seq<Keyed<V>>) returns (r: Result<seq<U>>)
    ensures r == Extracted(StableSort(declared), pairs)
  {
    var fs, ps := StableSort(declared), StableSort(pairs);
    SortLaws(declared);
    SortLaws(pairs);
    r := MergeJoin(fs, ps);
    ExtractedPerKey(fs, ps, pairs);
  }

  // ----- distinct names -----

  ghost predicate Distinct<T>(s: seq<Keyed<T>>) {
    forall i, j | 0 <= i < j < |s| :: s[i].key != s[j].key
  }

  lemma {:induction false} FindWithout<V>(ps: seq<Keyed<V>>, k: Key, j: Key)
    requires j != k
    ensures Find(Without(ps, k), j) == Find(ps, j)
  {
    if ps != [] && ps[0].key != k {
      FindWithout(ps[1..], k, j);
      var r := [ps[0]] + Without(ps[1..], k);
      assert r[1..] == Without(ps[1..], k);
    }
  }

  ghost predicate FailsAt<V, U>(fs: seq<Keyed<Field<V, U>>>, ps: seq<Keyed<V>>, i: nat)
    requires i < |fs|
  {
    Lookup(fs[i].key, fs[i].item, ps).Failed?
  }

  /** With distinct names every field is what plain lookup of the first pair with its name
      gives; extraction fails exactly when some field does, with the first such failure. */
  lemma {:induction false} DistinctPlain<V, U>(fs: seq<Keyed<Field<V, U>>>, ps: seq<Keyed<V>>)
    requires Distinct(fs)
    ensures match Extracted(fs, ps)
            case Done(us) =>
              |us| == |fs| && forall i | 0 <= i < |fs| :: Lookup(fs[i].key, fs[i].item, ps) == Done(us[i])
            case Failed(e) =>
              exists i | 0 <= i < |fs| :: Lookup(fs[i].key, fs[i].item, ps) == Failed(e) &&
                forall j | 0 <= j < i :: !FailsAt(fs, ps, j)
    decreases fs
  {
    if fs != [] {
      var k := fs[0].key;
      var qs := Without(ps, k);
      DistinctPlain(fs[1..], qs);
      forall i | 1 <= i < |fs|
        ensures Lookup(fs[i].key, fs[i].item, ps) == Lookup(fs[1..][i - 1].key, fs[1..][i - 1].item, qs)
      {
        FindWithout(ps, k, fs[i].key);
      }
      var r := Extracted(fs[1..], qs);
      if Lookup(k, fs[0].item, ps).Failed? {
        assert FailsAt(fs, ps, 0);
      } else if r.Failed? {
        var i :| 0 <= i < |fs[1..]| && Lookup(fs[1..][i].key, fs[1..][i].item, qs) == Failed(r.failure) &&
          forall j | 0 <= j < i :: !FailsAt(fs[1..], qs, j);
        assert Lookup(fs[i + 1].key, fs[i + 1].item, ps) == Failed(r.failure);
        forall j | 0 <= j < i + 1 ensures !FailsAt(fs, ps, j) {
          if j > 0 { assert !FailsAt(fs[1..], qs, j - 1); }
        }
      }
    }
  }

  ghost predicate Single<T>(s: seq<Keyed<T>>) {
    forall k :: |With(s, k)| <= 1
  }

  lemma {:induction false} DistinctSingle<T>(s: seq<Keyed<T>>)
    requires Distinct(s)
    ensures Single(s)
    decreases s
  {
    if s != [] {
      var t := s[1..];
      forall i, j | 0 <= i < j < |t| ensures t[i].key != t[j].key {
        assert s[i + 1].key != s[j + 1].key;
      }
      DistinctSingle(t);
      forall i | 0 <= i < |t| ensures t[i].key != s[0].key {
        assert s[0].key != s[i + 1].key;
      }
      WithMember(t, s[0].key);
    }
  }

  lemma {:induction false} SingleDistinct<T>(s: seq<Keyed<T>>)
    requires Single(s)
    ensures Distinct(s)
    decreases s
  {
    if s != [] {
      var t := s[1..];
      forall k ensures |With(t, k)| <= 1 {
        assert |With(s, k)| <= 1;
      }
      SingleDistinct(t);
      assert |With(s, s[0].key)| <= 1;
      WithMember(t, s[0].key);
      forall i, j | 0 <= i < j < |s| ensures s[i].key != s[j].key {
        assert s[j] == t[j - 1];
        if i > 0 { assert s[i] == t[i - 1]; }
      }
    }
  }

  /** Sorted names are distinct exactly when the declared ones are, so DistinctPlain speaks
      about FromPairs. */
  lemma DistinctSorted<T>(s: seq<Keyed<T>>)
    ensures Distinct(StableSort(s)) <==> Distinct(s)
  {
    SortLaws(s);
    if Distinct(s) {
      DistinctSingle(s);
      SingleDistinct(StableSort(s));
    }
    if Distinct(StableSort(s)) {
      DistinctSingle(StableSort(s));
      SingleDistinct(s);
    }
  }

  // ----- the same by positions -----

  /** Position j holds the first pair with the name. */
  ghost predicate FirstAt<V>(ps: seq<Keyed<V>>, name: Key, j: int) {
    0 <= j < |ps| && ps[j].key == name && forall k | 0 <= k < j :: ps[k].key != name
  }

  ghost predicate Absent<V>(ps: seq<Keyed<V>>, name: Key) {
    forall k | 0 <= k < |ps| :: ps[k].key != name
  }

  lemma {:induction false} FindFirst<V>(ps: seq<Keyed<V>>, name: Key)
    ensures Find(ps, name).None? <==> Absent(ps, name)
    ensures forall j | FirstAt(ps, name, j) :: Find(ps, name) == Some(ps[j].item)
    decreases ps
  {
    if ps != [] && ps[0].key != name {
      FindFirst(ps[1..], name);
      assert forall k | 1 <= k < |ps| :: ps[k] == ps[1..][k - 1];
      if Absent(ps[1..], name) {
        assert Absent(ps, name);
      } else {
        var k :| 0 <= k < |ps[1..]| && ps[1..][k].key == name;
        assert ps[k + 1].key == name;
      }
      forall j | FirstAt(ps, name, j) ensures Find(ps, name) == Some(ps[j].item) {
        assert FirstAt(ps[1..], name, j - 1);
      }
    }
  }

  /** What a field may hold: a converted value of the first pair with its name, or, exactly when
      there is none and the field is optional, its default. */
  ghost predicate Holds<V, U>(f: Keyed<Field<V, U>>, ps: seq<Keyed<V>>, u: U) {
    && (Absent(ps, f.key) ==> f.item.optional && u == f.item.default)
    && forall j | FirstAt(ps, f.key, j) :: f.item.convert(ps[j].item) == Some(u)
  }

  /** Why a field may fail: its name is missing and it is required, or the first pair with its
      name does not convert. */
  ghost predicate FailsFor<V, U>(f: Keyed<Field<V, U>>, ps: seq<Keyed<V>>, e: Failure) {
    if Absent(ps, f.key) then e == Missing(f.key) && !f.item.optional
    else e == Unconvertible(f.key) && forall j | FirstAt(ps, f.key, j) :: f.item.convert(ps[j].item).None?
  }

  lemma LookupMeans<V, U>(f: Keyed<Field<V, U>>, ps: seq<Keyed<V>>)
    ensures match Lookup(f.key, f.item, ps)
            case Done(u) => Holds(f, ps, u)
            case Failed(e) => FailsFor(f, ps, e)
  {
    FindFirst(ps, f.key);
  }

  /** Extraction with distinct names, said of positions only. */
  lemma DistinctMeans<V, U>(fs: seq<Keyed<Field<V, U>>>, ps: seq<Keyed<V>>)
    requires Distinct(fs)
    ensures match Extracted(fs, ps)
            case Done(us) => |us| == |fs| && forall i | 0 <= i < |fs| :: Holds(fs[i], ps, us[i])
            case Failed(e) => exists i | 0 <= i < |fs| :: FailsFor(fs[i], ps, e)
  {
    DistinctPlain(fs, ps);
    forall i | 0 <= i < |fs|
      ensures match Lookup(fs[i].key, fs[i].item, ps)
              case Done(u) => Holds(fs[i], ps, u)
              case Failed(e) => FailsFor(fs[i], ps, e)
    {
      LookupMeans(fs[i], ps);
    }
  }

  // ----- names must be distinct -----

  /** Every field by plain lookup, up to the first failure. */
  function PlainAll<V, U>(fs: seq<Keyed<Field<V, U>>>, ps: seq<Keyed<V>>): Result<seq<U>>
    decreases fs
  {
    if fs == [] then Done([])
    else match Lookup(fs[0].key, fs[0].item, ps)
      case Failed(e) => Failed(e)
      case Done(u) => Prepend(u, PlainAll(fs[1..], ps))
  }

  ghost predicate AlwaysPlain<V(!new), U>(fs: seq<Keyed<Field<V, U>>>) {
    forall ps: seq<Keyed<V>> :: Extracted(fs, ps) == PlainAll(fs, ps)
  }

  /** The sample of each name converts for every field with that name, and to something else
      than the default of an optional one. */
  ghost predicate Samples<V, U>(fs: seq<Keyed<Field<V, U>>>, sample: Key -> V) {
    forall i | 0 <= i < |fs| ::
      var c := fs[i].item.convert(sample(fs[i].key));
      c.Some? && (fs[i].item.optional ==> c.value != fs[i].item.default)
  }

  lemma {:induction false} PlainWithout<V, U>(fs: seq<Keyed<Field<V, U>>>, ps: seq<Keyed<V>>, k: Key)
    requires forall i | 0 <= i < |fs| :: fs[i].key != k
    ensures PlainAll(fs, Without(ps, k)) == PlainAll(fs, ps)
    decreases fs
  {
    if fs != [] {
      FindWithout(ps, k, fs[0].key);
      PlainWithout(fs[1..], ps, k);
    }
  }

  lemma {:induction false} DistinctIsPlain<V, U>(fs: seq<Keyed<Field<V, U>>>, ps: seq<Keyed<V>>)
    requires Distinct(fs)
    ensures Extracted(fs, ps) == PlainAll(fs, ps)
    decreases fs
  {
    if fs != [] {
      var k := fs[0].key;
      DistinctIsPlain(fs[1..], Without(ps, k));
      PlainWithout(fs[1..], ps, k);
    }
  }

  /** One pair with the sample of each name. */
  ghost predicate OneEach<V, U>(fs: seq<Keyed<Field<V, U>>>, sample: Key -> V, ps: seq<Keyed<V>>) {
    forall i | 0 <= i < |fs| :: With(ps, fs[i].key) == [Keyed(fs[i].key, sample(fs[i].key))]
  }

  function SamplePairs<V, U>(fs: seq<Keyed<Field<V, U>>>, sample: Key -> V): seq<Keyed<V>> {
    if fs == [] then []
    else
      var rest := SamplePairs(fs[1..], sample);
      if Find(rest, fs[0].key).Some? then rest else [Keyed(fs[0].key, sample(fs[0].key))] + rest
  }

  lemma {:induction false} SamplePairsWith<V, U>(fs: seq<Keyed<Field<V, U>>>, sample: Key -> V, k: Key)
    ensures With(SamplePairs(fs, sample), k) ==
            if exists i | 0 <= i < |fs| :: fs[i].key == k then [Keyed(k, sample(k))] else []
    decreases fs
  {
    if fs != [] {
      var rest := SamplePairs(fs[1..], sample);
      SamplePairsWith(fs[1..], sample, k);
      SamplePairsWith(fs[1..], sample, fs[0].key);
      FindWith(rest, fs[0].key);
      var more := [Keyed(fs[0].key, sample(fs[0].key))] + rest;
      assert more[1..] == rest;
      assert forall i | 1 <= i < |fs| :: fs[i] == fs[1..][i - 1];
      if exists i | 0 <= i < |fs| :: fs[i].key == k {
        var i :| 0 <= i < |fs| && fs[i].key == k;
        if i > 0 { assert fs[1..][i - 1].key == k; }
      }
    }
  }

  lemma {:induction false} PlainSamples<V, U>(
    fs: seq<Keyed<Field<V, U>>>, sample: Key -> V, ps: seq<Keyed<V>>
  ) returns (us: seq<U>)
    requires Samples(fs, sample) && OneEach(fs, sample, ps)
    ensures PlainAll(fs, ps) == Done(us) && |us| == |fs|
    ensures forall i | 0 <= i < |fs| :: fs[i].item.convert(sample(fs[i].key)) == Some(us[i])
    decreases fs
  {
    if fs == [] {
      us := [];
    } else {
      FindWith(ps, fs[0].key);
      var rest := PlainSamples(fs[1..], sample, ps);
      us := [fs[0].item.convert(sample(fs[0].key)).value] + rest;
    }
  }

  /** A field whose name is used up fails, or takes its default. */
  lemma {:induction false} Starved<V, U>(fs: seq<Keyed<Field<V, U>>>, ps: seq<Keyed<V>>, m: nat)
    requires m < |fs| && With(ps, fs[m].key) == []
    ensures var r := Extracted(fs, ps);
            r.Done? ==> |r.value| == |fs| && fs[m].item.optional && r.value[m] == fs[m].item.default
    decreases fs
  {
    var r := Extracted(fs, ps);
    if r.Done? {
      var rest := Extracted(fs[1..], Without(ps, fs[0].key));
      ExtractedLength(fs[1..], Without(ps, fs[0].key));
      if m == 0 {
        FindWith(ps, fs[0].key);
      } else {
        WithoutWith(ps, fs[0].key, fs[m].key);
        Starved(fs[1..], Without(ps, fs[0].key), m - 1);
      }
    }
  }

  lemma {:induction false} ExtractedLength<V, U>(fs: seq<Keyed<Field<V, U>>>, ps: seq<Keyed<V>>)
    ensures Extracted(fs, ps).Done? ==> |Extracted(fs, ps).value| == |fs|
    decreases fs
  {
    if fs != [] { ExtractedLength(fs[1..], Without(ps, fs[0].key)); }
  }

  /** The first field takes the only pair with its name, so a later one with that name gets
      nothing. */
  lemma SharedStarves<V, U>(fs: seq<Keyed<Field<V, U>>>, sample: Key -> V, ps: seq<Keyed<V>>, m: nat)
    requires Samples(fs, sample) && OneEach(fs, sample, ps)
    requires 1 <= m < |fs| && fs[m].key == fs[0].key
    ensures Extracted(fs, ps) != PlainAll(fs, ps)
  {
    var us := PlainSamples(fs, sample, ps);
    var qs := Without(ps, fs[0].key);
    WithoutWith(ps, fs[0].key, fs[0].key);
    Starved(fs[1..], qs, m - 1);
  }

  /** Whenever two fields share a name, wherever they are, extraction differs from plain lookup
      on the pairs that hold one sample for each name. */
  lemma {:induction false} SharedDiffers<V, U>(fs: seq<Keyed<Field<V, U>>>, sample: Key -> V, ps: seq<Keyed<V>>)
    requires Samples(fs, sample) && OneEach(fs, sample, ps) && !Distinct(fs)
    ensures Extracted(fs, ps) != PlainAll(fs, ps)
    decreases fs
  {
    var k := fs[0].key;
    if m :| 1 <= m < |fs| && fs[m].key == k {
      SharedStarves(fs, sample, ps, m);
    } else {
      var qs := Without(ps, k);
      forall i | 0 <= i < |fs[1..]| ensures With(qs, fs[1..][i].key) == With(ps, fs[1..][i].key) {
        assert fs[1..][i] == fs[i + 1];
        WithoutWith(ps, k, fs[i + 1].key);
      }
      assert !Distinct(fs[1..]) by {
        var i, j :| 0 <= i < j < |fs| && fs[i].key == fs[j].key;
        assert fs[1..][i - 1].key == fs[1..][j - 1].key;
      }
      SharedDiffers(fs[1..], sample, qs);
      PlainWithout(fs[1..], ps, k);
      FindWith(ps, k);
      PrependInjective(fs[0].item.convert(sample(k)).value, Extracted(fs[1..], qs), PlainAll(fs[1..], ps));
    }
  }

  lemma PrependInjective<U>(u: U, a: Result<seq<U>>, b: Result<seq<U>>)
    requires a != b
    ensures Prepend(u, a) != Prepend(u, b)
  {
    if a.Done? && b.Done? {
      assert ([u] + a.value)[1..] == a.value && ([u] + b.value)[1..] == b.value;
    }
  }

  /** Extraction is plain lookup on all pairs exactly when the names are distinct. */
  lemma PlainIffDistinct<V(!new), U>(fs: seq<Keyed<Field<V, U>>>, sample: Key -> V)
    requires Samples(fs, sample)
    ensures AlwaysPlain(fs) <==> Distinct(fs)
  {
    if Distinct(fs) {
      forall ps: seq<Keyed<V>> ensures Extracted(fs, ps) == PlainAll(fs, ps) {
        DistinctIsPlain(fs, ps);
      }
    } else {
      var ps := SamplePairs(fs, sample);
      forall i | 0 <= i < |fs| ensures With(ps, fs[i].key) == [Keyed(fs[i].key, sample(fs[i].key))] {
        SamplePairsWith(fs, sample, fs[i].key);
      }
      SharedDiffers(fs, sample, ps);
    }
  }

  lemma {:induction false} WithIn<T>(s: seq<Keyed<T>>, x: Keyed<T>)
    ensures x in With(s, x.key) <==> x in s
    decreases s
  {
    if s != [] {
      WithIn(s[1..], x);
      assert s == [s[0]] + s[1..];
    }
  }

  lemma SamplesSorted<V, U>(fs: seq<Keyed<Field<V, U>>>, sample: Key -> V)
    requires Samples(fs, sample)
    ensures Samples(StableSort(fs), sample)
  {
    var gs := StableSort(fs);
    SortLaws(fs);
    forall i | 0 <= i < |gs|
      ensures var c := gs[i].item.convert(sample(gs[i].key));
              c.Some? && (gs[i].item.optional ==> c.value != gs[i].item.default)
    {
      WithIn(gs, gs[i]);
      assert With(gs, gs[i].key) == With(fs, gs[i].key);
      WithIn(fs, gs[i]);
      var j :| 0 <= j < |fs| && fs[j] == gs[i];
    }
  }

  /** from_value of a struct, which sorts its declared fields first, is plain lookup on all pairs
      exactly when the declared names are distinct. */
  lemma DeclaredPlainIff<V(!new), U>(declared: seq<Keyed<Field<V, U>>>, sample: Key -> V)
    requires Samples(declared, sample)
    ensures AlwaysPlain(StableSort(declared)) <==> Distinct(declared)
  {
    SamplesSorted(declared, sample);
    PlainIffDistinct(StableSort(declared), sample);
    DistinctSorted(declared);
  }

  // ----- writing -----

  /** What the IntoValue derive writes: one pair for each field, in the order of the fields. */
  function IntoPairs<V, U>(fs: seq<Keyed<Field<V, U>>>, into: seq<V>): seq<Keyed<V>>
    requires |fs| == |into|
  {
    seq(|fs|, i requires 0 <= i < |fs| => Keyed(fs[i].key, into[i]))
  }

  lemma {:induction false} FindAt<V>(ps: seq<Keyed<V>>, i: nat)
    requires Distinct(ps) && i < |ps|
    ensures Find(ps, ps[i].key) == Some(ps[i].item)
    decreases ps
  {
    if i > 0 {
      FindAt(ps[1..], i - 1);
      assert ps[0].key != ps[i].key;
    }
  }

  /** A struct comes back from the pairs it was written as, and from any permutation of them
      with other keys mixed in, as long as each key's pairs are the same. */
  lemma WriteRead<V, U>(fs: seq<Keyed<Field<V, U>>>, us: seq<U>, into: seq<V>, ps: seq<Keyed<V>>)
    requires Distinct(fs) && |us| == |into| == |fs|
    requires forall i | 0 <= i < |fs| :: fs[i].item.convert(into[i]) == Some(us[i])
    requires forall i | 0 <= i < |fs| :: With(ps, fs[i].key) == With(IntoPairs(fs, into), fs[i].key)
    ensures Extracted(fs, ps) == Done(us)
  {
    DistinctPlain(fs, ps);
    var qs := IntoPairs(fs, into);
    forall i | 0 <= i < |fs| ensures Lookup(fs[i].key, fs[i].item, ps) == Done(us[i]) {
      FindAt(qs, i);
      FindWith(qs, fs[i].key);
      FindWith(ps, fs[i].key);
    }
    var r := Extracted(fs, ps);
    assert r.Done? && r.value == us;
  }
}
