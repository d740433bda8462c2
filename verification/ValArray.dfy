/** Zero copy slices of slices, after netidx-value/src/array.rs. */
module ValArray {
  import opened Bytes
  import opened Varint

  datatype Bound = Unbounded | Included(i: u64) | Excluded(i: u64)

  /** A Value takes up more than one byte, so a slice of them is at most this long. */
  const MAX_VALUES: nat := 0x7FFF_FFFF_FFFF_FFFF

  type Base<T> = s: seq<T> | |s| <= MAX_VALUES

  datatype Array<T> = Whole(base: Base<T>) | Slice(base: Base<T>, start: Bound, end: Bound)

  /** Addition and subtraction of usize in a release build. */
  function Plus(a: u64, b: u64): u64 { (a + b) % U64 }
  function Minus(a: u64, b: u64): u64 { (a - b) % U64 }

  // ----- ranges as positions -----

  function From(b: Bound): nat {
    match b
    case Unbounded => 0
    case Included(i) => i
    case Excluded(i) => i + 1
  }

  function To(b: Bound, len: nat): nat {
    match b
    case Unbounded => len
    case Included(i) => i + 1
    case Excluded(i) => i
  }

  /** Indexing by a pair of bounds does not panic. */
  predicate Fits(start: Bound, end: Bound, len: nat) {
    From(start) <= To(end, len) <= len
  }

  function Lo<T>(a: Array<T>): nat {
    if a.Whole? then 0 else From(a.start)
  }

  function Hi<T>(a: Array<T>): nat {
    if a.Whole? then |a.base| else To(a.end, |a.base|)
  }

  predicate Valid<T>(a: Array<T>) {
    Lo(a) <= Hi(a) <= |a.base|
  }

  /** Deref. */
  function View<T>(a: Array<T>): (v: seq<T>)
    requires Valid(a)
    ensures |v| == Hi(a) - Lo(a)
  {
    a.base[Lo(a)..Hi(a)]
  }

  // ----- subslice -----

  predicate CheckBounds(len: nat, start: Bound, end: Bound)
    requires len < U64
  {
    && (match start
        case Unbounded => true
        case Excluded(i) => i <= Minus(len, 1)
        case Included(i) => i <= len)
    && (match end
        case Unbounded => true
        case Excluded(i) => i <= len
        case Included(i) => i < len)
    && (if start.Unbounded? || end.Unbounded? then true
        else if start.Excluded? && end.Excluded? then end.i > start.i
        else end.i >= start.i)
  }

  /** The new start, with the position and the offset that the end is computed from. */
  datatype Begin = Begin(at: u64, offset: u64, bound: Bound)

  function NewStart(parent: Bound, start: Bound, max: u64): Option<Begin> {
    match (parent, start)
    case (Unbounded, Unbounded) => Some(Begin(0, 0, Unbounded))
    case (Unbounded, Excluded(i)) => if i >= max then None else Some(Begin(i, i, Excluded(i)))
    case (Unbounded, Included(i)) => if i > max then None else Some(Begin(i, i, Included(i)))
    case (Excluded(i), Unbounded) => Some(Begin(i, 0, Excluded(i)))
    case (Excluded(i), Included(j)) => var s := Plus(i, j); if s >= max then None else Some(Begin(s, j, Excluded(s)))
    case (Excluded(i), Excluded(j)) => var s := Plus(i, j); if s >= max then None else Some(Begin(s, j, Excluded(s)))
    case (Included(i), Unbounded) => Some(Begin(i, 0, Included(i)))
    case (Included(i), Included(j)) => var s := Plus(i, j); if s > max then None else Some(Begin(s, j, Included(s)))
    case (Included(i), Excluded(j)) => var s := Plus(i, j); if s >= max then None else Some(Begin(s, j, Excluded(s)))
  }

  function NewEnd(parent: Bound, end: Bound, b: Begin, max: u64): Option<Bound> {
    if end.Unbounded? then Some(parent)
    else if end.i < b.offset then None
    else
      var r := Plus(b.at, Minus(end.i, b.offset));
      match (parent, end)
      case (Unbounded, Excluded(_)) => if r > max then None else Some(Excluded(r))
      case (Unbounded, Included(_)) => if r > max then None else Some(Included(r))
      case (Excluded(i), Excluded(_)) => if r > i then None else Some(Excluded(r))
      case (Excluded(i), Included(_)) => if r >= i then None else Some(Included(r))
      case (Included(i), Excluded(_)) => if r > Plus(i, 1) then None else Some(Excluded(r))
      case (Included(i), Included(_)) => if r > i then None else Some(Included(r))
  }

  function Subslice<T>(a: Array<T>, start: Bound, end: Bound): Option<Array<T>> {
    match a
    case Whole(base) => if CheckBounds(|base|, start, end) then Some(Slice(base, start, end)) else None
    case Slice(base, pstart, pend) =>
      if start.Excluded? && end.Excluded? && end.i <= start.i then None
      else if start.Included? && end.Included? && end.i < start.i then None
      else
        var max: u64 := match pend case Unbounded => |base| case Excluded(i) => i case Included(i) => i;
        match NewStart(pstart, start, max)
        case None => None
        case Some(b) =>
          match NewEnd(pend, end, b, max)
          case None => None
          case Some(e) => Some(Slice(base, b.bound, e))
  }

  // ----- what it should do -----

  /** The result is the requested range of the parent's view, or there is none when the view
      does not have that range. */
  predicate Correct<T(==)>(a: Array<T>, start: Bound, end: Bound)
    requires Valid(a)
  {
    match Subslice(a, start, end)
    case None => !Fits(start, end, |View(a)|)
    case Some(r) =>
      Fits(start, end, |View(a)|) && r.base == a.base && r.Slice? &&
      Lo(r) == Lo(a) + From(start) && Hi(r) == Lo(a) + To(end, |View(a)|)
  }

  lemma CorrectView<T>(a: Array<T>, start: Bound, end: Bound)
    requires Valid(a) && Correct(a, start, end) && Subslice(a, start, end).Some?
    ensures var r := Subslice(a, start, end).value;
            Valid(r) && View(r) == View(a)[From(start)..To(end, |View(a)|)]
  {
    SliceOfSlice(a.base, Lo(a), Hi(a), From(start), To(end, |View(a)|));
  }

  lemma SliceOfSlice<T>(s: seq<T>, lo: nat, hi: nat, x: nat, y: nat)
    requires lo <= hi <= |s| && x <= y <= hi - lo
    ensures s[lo..hi][x..y] == s[lo + x..lo + y]
  {
    var r := s[lo..hi];
    assert forall i | x <= i < y :: r[i] == s[lo + i];
  }

  predicate Ordered(start: Bound, end: Bound) {
    if start.Unbounded? || end.Unbounded? then true
    else if start.Excluded? && end.Excluded? then end.i > start.i
    else end.i >= start.i
  }

  lemma PlusExact(a: u64, b: u64)
    ensures Plus(a, b) == if a + b < U64 then a + b else a + b - U64
  {}

  lemma MinusExact(a: u64, b: u64)
    requires b <= a
    ensures Minus(a, b) == a - b
  {}

  // ----- the checks of a slice of a slice, as arithmetic on its bounds -----

  function Index(b: Bound, otherwise: u64): u64 {
    if b.Unbounded? then otherwise else b.i
  }

  /** The position a new bound is counted from: one short of the first element when the
      slice's own start is exclusive. */
  function Anchor<T>(a: Array<T>): u64
    requires a.Slice?
  {
    Index(a.start, 0)
  }

  /** The largest position that is let through: one short when the own end is inclusive. */
  function Max<T>(a: Array<T>): u64
    requires a.Slice?
  {
    Index(a.end, |a.base|)
  }

  predicate StartPasses<T>(a: Array<T>, start: Bound)
    requires a.Slice?
  {
    start.Unbounded? ||
    if a.start.Excluded? || start.Excluded? then Plus(Anchor(a), start.i) < Max(a)
    else Plus(Anchor(a), start.i) <= Max(a)
  }

  predicate EndPasses<T>(a: Array<T>, end: Bound)
    requires a.Slice?
  {
    end.Unbounded? ||
    if a.end.Unbounded? then Plus(Anchor(a), end.i) <= |a.base|
    else To(Slid(a, end), 0) <= Hi(a)
  }

  /** A requested end, moved by the position it is counted from. */
  function Slid<T>(a: Array<T>, end: Bound): Bound
    requires a.Slice?
  {
    match end
    case Unbounded => a.end
    case Included(i) => Included(Plus(Anchor(a), i))
    case Excluded(i) => Excluded(Plus(Anchor(a), i))
  }

  function SlidStart<T>(a: Array<T>, start: Bound): Bound
    requires a.Slice?
  {
    match start
    case Unbounded => a.start
    case Included(i) => if a.start.Excluded? then Excluded(Plus(Anchor(a), i)) else Included(Plus(Anchor(a), i))
    case Excluded(i) => Excluded(Plus(Anchor(a), i))
  }

  predicate Passes<T>(a: Array<T>, start: Bound, end: Bound)
    requires a.Slice?
  {
    Ordered(start, end) && StartPasses(a, start) && EndPasses(a, end)
  }

  lemma NewStartSlides<T>(a: Array<T>, start: Bound)
    requires a.Slice? && Valid(a)
    ensures var b := NewStart(a.start, start, Max(a));
            b.Some? <==> StartPasses(a, start)
    ensures var b := NewStart(a.start, start, Max(a));
            b.Some? ==> b.value == Begin(Plus(Anchor(a), Index(start, 0)), Index(start, 0), SlidStart(a, start))
  {
    PlusExact(Anchor(a), Index(start, 0));
  }

  lemma EndIndex(anchor: u64, offset: u64, i: u64)
    requires anchor <= MAX_VALUES && offset <= i
    ensures Plus(Plus(anchor, offset), Minus(i, offset)) == Plus(anchor, i)
  {
    PlusExact(anchor, offset);
    MinusExact(i, offset);
    PlusExact(Plus(anchor, offset), i - offset);
    PlusExact(anchor, i);
  }

  lemma NewEndSlides<T>(a: Array<T>, end: Bound, b: Begin)
    requires a.Slice? && Valid(a) && b.at == Plus(Anchor(a), b.offset)
    ensures NewEnd(a.end, end, b, Max(a)) ==
            if !end.Unbounded? && end.i < b.offset then None
            else if EndPasses(a, end) then Some(Slid(a, end))
            else None
  {
    if !end.Unbounded? && end.i >= b.offset {
      EndIndex(Anchor(a), b.offset, end.i);
      if a.end.Included? { PlusExact(a.end.i, 1); }
    }
  }

  lemma SliceSlides<T>(a: Array<T>, start: Bound, end: Bound)
    requires a.Slice? && Valid(a)
    ensures Subslice(a, start, end) ==
            if Passes(a, start, end) then Some(Slice(a.base, SlidStart(a, start), Slid(a, end))) else None
  {
    NewStartSlides(a, start);
    var b := NewStart(a.start, start, Max(a));
    if b.Some? { NewEndSlides(a, end, b.value); }
  }

  // ----- exactly when it does what it should -----

  /** An empty range written with an inclusive end, such as 3..=2. */
  predicate EmptyInclusive(start: Bound, end: Bound, len: nat) {
    start.Included? && end.Included? && start.i == end.i + 1 && start.i <= len
  }

  /** An exclusive start in an empty base, where the length minus one wraps around. */
  predicate EmptyBase<T>(a: Array<T>, start: Bound, end: Bound) {
    a.Whole? && |a.base| == 0 && start.Excluded? && end.Unbounded?
  }

  /** An inclusive end one past the last element, in a slice that runs to the end of its base. */
  predicate PastLast<T>(a: Array<T>, start: Bound, end: Bound, len: nat) {
    a.Slice? && a.end.Unbounded? && end.Included? && end.i == len && From(start) <= len
  }

  /** The empty tail of a slice whose own end is inclusive. */
  predicate EmptyTail<T>(a: Array<T>, start: Bound, end: Bound, len: nat) {
    a.Slice? && a.end.Included? && !start.Unbounded? && From(start) == len && Fits(start, end, len)
  }

  /** Bounds that are counted from one short of the first element. */
  predicate Shifted<T>(a: Array<T>, start: Bound, end: Bound) {
    a.Slice? && a.start.Excluded? && (start.Excluded? || !end.Unbounded?)
  }

  /** A bound so large that adding the slice's own start to it wraps around. */
  predicate Wraps<T>(a: Array<T>, start: Bound, end: Bound) {
    a.Slice? &&
    ((!start.Unbounded? && Anchor(a) + start.i >= U64) || (!end.Unbounded? && Anchor(a) + end.i >= U64))
  }

  predicate Misses<T>(a: Array<T>, start: Bound, end: Bound)
    requires Valid(a)
  {
    var len := |View(a)|;
    || EmptyInclusive(start, end, len)
    || EmptyBase(a, start, end)
    || PastLast(a, start, end, len)
    || EmptyTail(a, start, end, len)
    || (Wraps(a, start, end) && Passes(a, start, end))
    || (Shifted(a, start, end) && (Passes(a, start, end) || Fits(start, end, len)))
  }

  lemma WholeExact<T>(a: Array<T>, start: Bound, end: Bound)
    requires a.Whole?
    ensures Correct(a, start, end) <==>
            !EmptyInclusive(start, end, |View(a)|) && !EmptyBase(a, start, end)
  {
    var len := |a.base|;
    if len > 0 { MinusExact(len, 1); }
    assert CheckBounds(len, start, end) && !EmptyBase(a, start, end) ==> Fits(start, end, len);
    assert Fits(start, end, len) && !EmptyInclusive(start, end, len) ==> CheckBounds(len, start, end);
  }

  /** Positions of the result when no sum wraps. */
  lemma SlidExact<T>(a: Array<T>, start: Bound, end: Bound)
    requires a.Slice? && Valid(a) && !Wraps(a, start, end)
    ensures !start.Unbounded? ==> Plus(Anchor(a), start.i) == Anchor(a) + start.i
    ensures !end.Unbounded? ==> Plus(Anchor(a), end.i) == Anchor(a) + end.i
    ensures From(SlidStart(a, start)) ==
            Lo(a) + From(start) - (if a.start.Excluded? && start.Excluded? then 1 else 0)
    ensures To(Slid(a, end), |a.base|) ==
            Lo(a) + To(end, |View(a)|) - (if a.start.Excluded? && !end.Unbounded? then 1 else 0)
  {
    if !start.Unbounded? { PlusExact(Anchor(a), start.i); }
    if !end.Unbounded? { PlusExact(Anchor(a), end.i); }
  }

  lemma UnshiftedExact<T>(a: Array<T>, start: Bound, end: Bound)
    requires a.Slice? && Valid(a) && !Wraps(a, start, end) && !Shifted(a, start, end)
    ensures Correct(a, start, end) <==> !Misses(a, start, end)
  {
    SliceSlides(a, start, end);
    SlidExact(a, start, end);
  }

  lemma ShiftedExact<T>(a: Array<T>, start: Bound, end: Bound)
    requires a.Slice? && Valid(a) && !Wraps(a, start, end) && Shifted(a, start, end)
    ensures Correct(a, start, end) <==> !Misses(a, start, end)
  {
    SliceSlides(a, start, end);
    SlidExact(a, start, end);
  }

  lemma WrapsExact<T>(a: Array<T>, start: Bound, end: Bound)
    requires a.Slice? && Valid(a) && Wraps(a, start, end)
    ensures Correct(a, start, end) <==> !Misses(a, start, end)
  {
    SliceSlides(a, start, end);
    if !start.Unbounded? { PlusExact(Anchor(a), start.i); }
    if !end.Unbounded? { PlusExact(Anchor(a), end.i); }
  }

  /** One call, on any array or slice and with any bounds: the result is right, in success and
      in failure, exactly outside six families of requests. */
  lemma SubsliceExact<T>(a: Array<T>, start: Bound, end: Bound)
    requires Valid(a)
    ensures Correct(a, start, end) <==> !Misses(a, start, end)
  {
    if a.Whole? {
      WholeExact(a, start, end);
    } else if Wraps(a, start, end) {
      WrapsExact(a, start, end);
    } else if Shifted(a, start, end) {
      ShiftedExact(a, start, end);
    } else {
      UnshiftedExact(a, start, end);
    }
  }

  // ----- the same without wrapping, position by position -----

  /** What a slice of a slice accepts and where it then lies, when no sum wraps: bounds are added
      to the index of the own start, whichever kind that is; a start must stay below the index of
      the own end if it or the own start is exclusive, and may reach it otherwise; an end must
      not pass the own end, but for an inclusive one in a slice that runs to the end of its base,
      which may name the length. */
  lemma AcceptsExactly<T>(base: Base<T>, p: Bound, q: Bound, start: Bound, end: Bound)
    requires Valid(Slice(base, p, q)) && !Wraps(Slice(base, p, q), start, end)
    ensures var anchor := if p.Unbounded? then 0 else p.i;
            var limit := if q.Unbounded? then |base| else q.i;
            var r := Subslice(Slice(base, p, q), start, end);
            && (r.Some? <==>
                  && Ordered(start, end)
                  && (start.Unbounded? || anchor + start.i < limit ||
                      (anchor + start.i == limit && !p.Excluded? && !start.Excluded?))
                  && (end.Unbounded? || anchor + end.i < limit ||
                      (anchor + end.i == limit && !(q.Excluded? && end.Included?)) ||
                      (anchor + end.i == limit + 1 && q.Included? && end.Excluded?)))
            && (r.Some? ==>
                  && Lo(r.value) ==
                     (if start.Unbounded? then Lo(Slice(base, p, q))
                      else anchor + start.i + (if p.Excluded? || start.Excluded? then 1 else 0))
                  && Hi(r.value) ==
                     (if end.Unbounded? then Hi(Slice(base, p, q))
                      else anchor + end.i + (if end.Included? then 1 else 0)))
  {
    var a := Slice(base, p, q);
    SliceSlides(a, start, end);
    SlidExact(a, start, end);
  }

  // ----- slices of slices -----

  datatype Range = Range(start: Bound, end: Bound)

  function SubsliceAll<T>(a: Array<T>, rs: seq<Range>): Option<Array<T>>
    decreases rs
  {
    if rs == [] then Some(a)
    else match Subslice(a, rs[0].start, rs[0].end)
      case None => None
      case Some(b) => SubsliceAll(b, rs[1..])
  }

  /** The same on plain sequences. */
  function RangeAll<T>(v: seq<T>, rs: seq<Range>): Option<seq<T>>
    decreases rs
  {
    if rs == [] then Some(v)
    else
      var r := rs[0];
      if !Fits(r.start, r.end, |v|) then None else RangeAll(v[From(r.start)..To(r.end, |v|)], rs[1..])
  }

  /** Every call of a nest is made on a slice that can be looked at and does what it should. */
  ghost predicate AllCorrect<T>(a: Array<T>, rs: seq<Range>)
    decreases rs
  {
    Valid(a) &&
    (rs == [] ||
     (Correct(a, rs[0].start, rs[0].end) &&
      match Subslice(a, rs[0].start, rs[0].end)
      case None => true
      case Some(b) => AllCorrect(b, rs[1..])))
  }

  ghost predicate NoneMisses<T>(a: Array<T>, rs: seq<Range>)
    decreases rs
  {
    Valid(a) &&
    (rs == [] ||
     (!Misses(a, rs[0].start, rs[0].end) &&
      match Subslice(a, rs[0].start, rs[0].end)
      case None => true
      case Some(b) => NoneMisses(b, rs[1..])))
  }

  /** Nested slicing composes at any depth and with any bounds: all calls are right exactly
      when none is in one of the families, and then the nest succeeds exactly when each range
      fits the view it is taken of, its view is the range of the range, and it never leaves
      the base. */
  lemma {:induction false} NestedExact<T>(a: Array<T>, rs: seq<Range>)
    requires Valid(a)
    ensures AllCorrect(a, rs) <==> NoneMisses(a, rs)
    ensures NoneMisses(a, rs) ==>
              match SubsliceAll(a, rs)
              case None => RangeAll(View(a), rs) == None
              case Some(b) => b.base == a.base && Valid(b) && RangeAll(View(a), rs) == Some(View(b))
    decreases rs
  {
    if rs != [] {
      SubsliceExact(a, rs[0].start, rs[0].end);
      var b := Subslice(a, rs[0].start, rs[0].end);
      if b.Some? && Correct(a, rs[0].start, rs[0].end) {
        CorrectView(a, rs[0].start, rs[0].end);
        NestedExact(b.value, rs[1..]);
      }
    }
  }

  /** Ranges a..b, a.., ..b and .. */
  predicate HalfOpen(start: Bound, end: Bound) {
    !start.Excluded? && !end.Included?
  }

  predicate HalfOpenArray<T>(a: Array<T>) {
    Valid(a) && (a.Slice? ==> HalfOpen(a.start, a.end))
  }

  /** Half-open slices of half-open slices stay half-open and miss only where a sum wraps. */
  lemma HalfOpenExact<T>(a: Array<T>, start: Bound, end: Bound)
    requires HalfOpenArray(a) && HalfOpen(start, end)
    ensures Correct(a, start, end) <==> !(Wraps(a, start, end) && Passes(a, start, end))
    ensures Subslice(a, start, end).Some? && Correct(a, start, end) ==>
              HalfOpenArray(Subslice(a, start, end).value)
  {
    SubsliceExact(a, start, end);
    if a.Slice? { SliceSlides(a, start, end); }
  }

  ghost predicate Bounded(rs: seq<Range>) {
    forall i | 0 <= i < |rs| ::
      HalfOpen(rs[i].start, rs[i].end) &&
      Index(rs[i].start, 0) <= MAX_VALUES + 1 && Index(rs[i].end, 0) <= MAX_VALUES + 1
  }

  /** So half-open ranges with bounds up to 2^63 never miss, at any depth. */
  lemma {:induction false} HalfOpenNest<T>(a: Array<T>, rs: seq<Range>)
    requires HalfOpenArray(a) && Bounded(rs)
    ensures NoneMisses(a, rs)
    decreases rs
  {
    if rs != [] {
      HalfOpenExact(a, rs[0].start, rs[0].end);
      SubsliceExact(a, rs[0].start, rs[0].end);
      var b := Subslice(a, rs[0].start, rs[0].end);
      if b.Some? {
        assert Bounded(rs[1..]);
        HalfOpenNest(b.value, rs[1..]);
      }
    }
  }

  // ----- instances -----

  /** After an exclusive start, ..1 of a two element view is empty instead of one element. */
  lemma ExcludedParent<T>(x: T, y: T, z: T)
    ensures var a := Slice([x, y, z], Excluded(0), Unbounded);
            Valid(a) && View(a) == [y, z] &&
            Subslice(a, Unbounded, Excluded(1)) == Some(Slice([x, y, z], Excluded(0), Excluded(1))) &&
            View(Slice([x, y, z], Excluded(0), Excluded(1))) == []
  {}

  /** 0..=2 of a two element tail is accepted and then cannot be looked at. */
  lemma PastLastAccepted<T>(x: T, y: T, z: T)
    ensures var a := Slice([x, y, z], Included(1), Unbounded);
            var r := Subslice(a, Included(0), Included(2));
            Valid(a) && |View(a)| == 2 && r.Some? && !Valid(r.value)
  {
    assert Plus(1, 0) == 1 && Plus(1, Minus(2, 0)) == 3;
  }

  /** The end of an inclusive slice is taken for exclusive: its empty tail is refused. */
  lemma IncludedParent<T>(x: T, y: T)
    ensures var a := Slice([x, y], Unbounded, Included(1));
            Valid(a) && View(a) == [x, y] && Subslice(a, Included(2), Unbounded) == None
  {}
}
