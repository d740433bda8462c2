/** The container's cache of published values, after netidx-container/src/lib.rs. The
    database commits on its own task; the container learns of it from a queue of updates
    that lags behind, yet reads the database directly when a path is requested. The
    publisher may drop an idle value at any time and reports it by an event. */
module PublishedCache {
  import opened Bytes
  import opened Paths
  import opened Store
  import Gc = TombstoneGc

  type Id = nat

  /** What the container and its publisher hold. published is what subscribers reach. */
  datatype Front = Front(
    nextId: Id,
    published: map<Path, Id>,
    vals: map<Id, Value>,
    events: seq<Id>,
    byPath: map<Path, Id>,
    byId: map<Id, Path>)

  function NewFront(): Front {
    Front(0, map[], map[], [], map[], map[])
  }

  /** publish_data: refused when the publisher already has the path. */
  function PublishData(f: Front, p: Path, v: Value): Front {
    if p in f.published then f
    else f.(nextId := f.nextId + 1,
            published := f.published[p := f.nextId],
            vals := f.vals[f.nextId := v],
            byPath := f.byPath[p := f.nextId],
            byId := f.byId[f.nextId := p])
  }

  /** The value a path should show: its live value, or Null when it has none. */
  function Shown(c: Option<Datum>): Value {
    if c.Some? && c.value.Data? then c.value.value else Null
  }

  /** process_publish_request: admit says that an absent path is neither locked nor in the api. */
  function Request(f: Front, p: Path, c: Option<Datum>, admit: bool): Front {
    if (c.Some? && c.value.Data?) || admit then PublishData(f, p, Shown(c)) else f
  }

  /** The publisher drops a value, unless it is gone already, and reports it. */
  function Destroy(f: Front, p: Path, id: Id): Front {
    if p in f.published && f.published[p] == id
    then f.(published := f.published - {p}, events := f.events + [id])
    else f
  }

  /** process_publish_event for a destroyed value. */
  function Destroyed(f: Front, id: Id): Front {
    if id in f.byId then f.(byPath := f.byPath - {f.byId[id]}, byId := f.byId - {id}) else f
  }

  /** One entry of process_update. */
  function ApplyEvent(f: Front, e: Event): Front {
    if e.path !in f.byPath then f
    else
      var id := f.byPath[e.path];
      match e.kind
      case Deleted =>
        Destroy(f.(byPath := f.byPath - {e.path}, byId := f.byId - {id}), e.path, id)
      case Inserted(v) => f.(vals := f.vals[id := v])
      case Updated(v) => f.(vals := f.vals[id := v])
  }

  function ApplyAll(f: Front, evs: seq<Event>): Front {
    if evs == [] then f else ApplyEvent(ApplyAll(f, evs[..|evs| - 1]), evs[|evs| - 1])
  }

  // ----- the whole system -----

  /** pending: updates of the transaction being committed; queue: sent, not yet processed. */
  datatype State = State(data: Tree, pending: seq<Event>, queue: seq<Event>, front: Front)

  datatype Step =
    | Commit(op: DataOp)
    | EndTxn(update: seq<Event>)
    | Collect(key: Path)
    | Publish(path: Path, admit: bool)
    | Drop(path: Path)
    | SeeDestroyed
    | Process

  /** A parallel commit may reorder the updates of different paths. */
  ghost predicate Enabled(s: State, step: Step) {
    step.EndTxn? ==> forall p: Path :: EventsOn(step.update, p) == EventsOn(s.pending, p)
  }

  ghost function Next(s: State, step: Step): State {
    match step
    case Commit(op) => s.(data := Exec(s.data, op), pending := s.pending + Emit(s.data, op))
    case EndTxn(u) => s.(pending := [], queue := s.queue + u)
    case Collect(k) => s.(data := Gc.Cas(s.data, k))
    case Publish(p, admit) => s.(front := Request(s.front, p, Cell(s.data, p), admit))
    case Drop(p) =>
      if p in s.front.published then s.(front := Destroy(s.front, p, s.front.published[p])) else s
    case SeeDestroyed =>
      if s.front.events == [] then s
      else s.(front := Destroyed(s.front.(events := s.front.events[1..]), s.front.events[0]))
    case Process =>
      if s.queue == [] then s
      else s.(queue := s.queue[1..], front := ApplyEvent(s.front, s.queue[0]))
  }

  ghost function RunSteps(s: State, steps: seq<Step>): State {
    if steps == [] then s else Next(RunSteps(s, steps[..|steps| - 1]), steps[|steps| - 1])
  }

  ghost predicate IsRun(s: State, steps: seq<Step>) {
    steps == [] ||
    (IsRun(s, steps[..|steps| - 1]) && Enabled(RunSteps(s, steps[..|steps| - 1]), steps[|steps| - 1]))
  }

  /** Every write to a path asks for an update, as those of process_writes and the RPCs do. */
  ghost predicate NoSilentWrites(steps: seq<Step>, p: Path) {
    forall i :: 0 <= i < |steps| && steps[i].Commit? && steps[i].op.SetData? && steps[i].op.path == p ==>
                  steps[i].op.update
  }

  /** A request that would publish a path whose own destroyed value is still indexed. */
  predicate Early(f: Front, p: Path, c: Option<Datum>, admit: bool) {
    ((c.Some? && c.value.Data?) || admit) && p in f.byPath && p !in f.published
  }

  /** No request is early, as the biased select of the run loop, which takes destroy events
      first, aims for. */
  ghost predicate EventsFirst(s: State, steps: seq<Step>) {
    steps == [] ||
    (EventsFirst(s, steps[..|steps| - 1]) &&
     (steps[|steps| - 1].Publish? ==>
        var mid := RunSteps(s, steps[..|steps| - 1]);
        var p := steps[|steps| - 1].path;
        !Early(mid.front, p, Cell(mid.data, p), steps[|steps| - 1].admit)))
  }

  function Initial(data: Tree): State {
    State(data, [], [], NewFront())
  }

  ghost predicate Drained(s: State) {
    s.pending == [] && s.queue == []
  }

  // ----- the invariant -----

  ghost function Waiting(s: State, p: Path): seq<UpdateKind> {
    EventsOn(s.queue + s.pending, p)
  }

  /** The last update sent for a path tells what the database holds. */
  ghost predicate Settles(k: UpdateKind, c: Option<Datum>) {
    match k
    case Deleted => !(c.Some? && c.value.Data?)
    case Inserted(v) => c == Some(Data(v))
    case Updated(v) => c == Some(Data(v))
  }

  ghost predicate IdsSound(f: Front) {
    (forall p <- f.byPath :: f.byPath[p] in f.vals && f.byPath[p] < f.nextId) &&
    (forall p, q | p in f.byPath && q in f.byPath && f.byPath[p] == f.byPath[q] :: p == q)
  }

  ghost predicate PathSound(s: State, p: Path) {
    (Waiting(s, p) != [] ==> Settles(Waiting(s, p)[|Waiting(s, p)| - 1], Cell(s.data, p))) &&
    (Waiting(s, p) == [] && p in s.front.byPath && s.front.byPath[p] in s.front.vals ==>
       s.front.vals[s.front.byPath[p]] == Shown(Cell(s.data, p)))
  }

  /** Everything the coherence of one path rests on; writes to other paths do not matter. */
  ghost predicate SoundAt(s: State, p: Path) {
    IdsSound(s.front) && PathSound(s, p)
  }

  lemma CommitWaiting(s: State, op: DataOp, p: Path)
    ensures Waiting(Next(s, Commit(op)), p) ==
            if op.path == p then Waiting(s, p) + ToSeq(EmitKind(Cell(s.data, p), op)) else Waiting(s, p)
  {
    var s' := Next(s, Commit(op));
    var evs := Emit(s.data, op);
    assert s'.queue + s'.pending == (s.queue + s.pending) + evs;
    EventsOnConcat(s.queue + s.pending, evs, p);
    EventsOnEmit(s.data, op, p);
  }

  lemma CommitSound(s: State, op: DataOp, p: Path)
    requires SoundAt(s, p) && (op.SetData? && op.path == p ==> op.update)
    ensures SoundAt(Next(s, Commit(op)), p)
  {
    CommitWaiting(s, op, p);
    var s' := Next(s, Commit(op));
    if op.path != p {
      assert Waiting(s', p) == Waiting(s, p) && Cell(s'.data, p) == Cell(s.data, p);
    } else {
      CellSettles(Waiting(s, p), Cell(s.data, p), op);
      assert Cell(s'.data, p) == Some(Written(op));
    }
  }

  /** An operation's update, or the lack of one, tells what it leaves at its path. */
  lemma CellSettles(before: seq<UpdateKind>, c: Option<Datum>, op: DataOp)
    requires op.SetData? ==> op.update
    requires before != [] ==> Settles(before[|before| - 1], c)
    ensures var after := before + ToSeq(EmitKind(c, op));
            if after == [] then Shown(Some(Written(op))) == Shown(c)
            else Settles(after[|after| - 1], Some(Written(op)))
  {}

  lemma EndTxnSound(s: State, u: seq<Event>, p: Path)
    requires SoundAt(s, p) && Enabled(s, EndTxn(u))
    ensures SoundAt(Next(s, EndTxn(u)), p)
  {
    var s' := Next(s, EndTxn(u));
    assert s'.queue + s'.pending == s.queue + u;
    EventsOnConcat(s.queue, u, p);
    EventsOnConcat(s.queue, s.pending, p);
    assert EventsOn(u, p) == EventsOn(s.pending, p);
  }

  lemma CollectSound(s: State, k: Path, p: Path)
    requires SoundAt(s, p)
    ensures SoundAt(Next(s, Collect(k)), p)
  {}

  lemma PublishSound(s: State, r: Path, admit: bool, p: Path)
    requires SoundAt(s, p)
    ensures SoundAt(Next(s, Publish(r, admit)), p)
  {}

  lemma DropSound(s: State, step: Step, p: Path)
    requires SoundAt(s, p) && (step.Drop? || step.SeeDestroyed?)
    ensures SoundAt(Next(s, step), p)
  {}

  lemma ProcessWaiting(s: State, p: Path)
    requires s.queue != []
    ensures Waiting(s, p) ==
            (if s.queue[0].path == p then [s.queue[0].kind] else []) + Waiting(Next(s, Process), p)
  {
    var s' := Next(s, Process);
    var e := s.queue[0];
    assert s.queue + s.pending == [e] + (s'.queue + s'.pending);
    EventsOnConcat([e], s'.queue + s'.pending, p);
    assert [e][..0] == [] && EventsOn([], p) == [];
    assert EventsOn([e], p) == if e.path == p then [e.kind] else [];
  }

  lemma ProcessSound(s: State, p: Path)
    requires SoundAt(s, p) && s.queue != []
    ensures SoundAt(Next(s, Process), p)
  {
    ProcessWaiting(s, p);
  }

  lemma {:induction false} RunSound(s: State, steps: seq<Step>, p: Path)
    requires SoundAt(s, p) && IsRun(s, steps) && NoSilentWrites(steps, p)
    ensures SoundAt(RunSteps(s, steps), p)
  {
    if steps != [] {
      var init, last := steps[..|steps| - 1], steps[|steps| - 1];
      RunSound(s, init, p);
      var mid := RunSteps(s, init);
      match last {
        case Commit(op) => CommitSound(mid, op, p);
        case EndTxn(u) => EndTxnSound(mid, u, p);
        case Collect(k) => CollectSound(mid, k, p);
        case Publish(r, admit) => PublishSound(mid, r, admit, p);
        case Drop(_) => DropSound(mid, last, p);
        case SeeDestroyed => DropSound(mid, last, p);
        case Process => if mid.queue != [] { ProcessSound(mid, p); }
      }
    }
  }

  /** Cache coherence: whatever the interleaving of commits, collection, requests that read
      ahead of the queue, destroyed values and queued updates, once the queue is drained a
      path the container still holds shows the database's live value, or Null. */
  lemma CacheCoherent(data: Tree, steps: seq<Step>, p: Path)
    requires IsRun(Initial(data), steps) && NoSilentWrites(steps, p)
    requires Drained(RunSteps(Initial(data), steps))
    ensures var s := RunSteps(Initial(data), steps);
            p in s.front.byPath ==>
              s.front.byPath[p] in s.front.vals &&
              s.front.vals[s.front.byPath[p]] == Shown(Cell(s.data, p))
  {
    RunSound(Initial(data), steps, p);
    var s := RunSteps(Initial(data), steps);
    assert s.queue + s.pending == [];
  }

  // ----- what subscribers see -----

  /** The two indexes are inverse, and anything published is indexed; an indexed path that is
      no longer published has its destroy event on the way. */
  ghost predicate Agrees(f: Front) {
    (forall p <- f.published :: p in f.byPath && f.byPath[p] == f.published[p]) &&
    (forall p <- f.byPath ::
       f.byPath[p] in f.byId && f.byId[f.byPath[p]] == p && (p in f.published || f.byPath[p] in f.events)) &&
    (forall id <- f.byId :: f.byId[id] in f.byPath && f.byPath[f.byId[id]] == id && id < f.nextId) &&
    (forall id <- f.events :: id < f.nextId && (id in f.byId ==> f.byId[id] !in f.published))
  }

  /** A request keeps the indexes in order exactly when it is not early. */
  lemma RequestAgrees(f: Front, p: Path, c: Option<Datum>, admit: bool)
    requires Agrees(f)
    ensures Agrees(Request(f, p, c, admit)) <==> !Early(f, p, c, admit)
  {
    if Early(f, p, c, admit) {
      var g := Request(f, p, c, admit);
      assert f.byPath[p] in g.byId && g.byId[f.byPath[p]] == p;
    }
  }

  lemma DestroyAgrees(f: Front, p: Path)
    requires Agrees(f) && p in f.published
    ensures Agrees(Destroy(f, p, f.published[p]))
  {}

  lemma DestroyedAgrees(f: Front)
    requires Agrees(f) && f.events != []
    ensures Agrees(Destroyed(f.(events := f.events[1..]), f.events[0]))
  {
    var id, rest := f.events[0], f.events[1..];
    assert f.events == [id] + rest;
    assert forall x :: x in f.events <==> x == id || x in rest;
    if id in f.byId { ForgetAgrees(f, id, rest); } else { SkipAgrees(f, id, rest); }
  }

  lemma ForgetAgrees(f: Front, id: Id, rest: seq<Id>)
    requires Agrees(f) && id in f.byId && forall x :: x in f.events <==> x == id || x in rest
    ensures Agrees(f.(events := rest, byPath := f.byPath - {f.byId[id]}, byId := f.byId - {id}))
  {}

  lemma SkipAgrees(f: Front, id: Id, rest: seq<Id>)
    requires Agrees(f) && id !in f.byId && forall x :: x in f.events <==> x == id || x in rest
    ensures Agrees(f.(events := rest))
  {}

  lemma ApplyEventAgrees(f: Front, e: Event)
    requires Agrees(f)
    ensures Agrees(ApplyEvent(f, e))
  {}

  lemma {:induction false} RunAgrees(s: State, steps: seq<Step>)
    requires Agrees(s.front) && EventsFirst(s, steps)
    ensures Agrees(RunSteps(s, steps).front)
  {
    if steps != [] {
      var init, last := steps[..|steps| - 1], steps[|steps| - 1];
      RunAgrees(s, init);
      var mid := RunSteps(s, init);
      match last {
        case Commit(_) =>
        case EndTxn(_) =>
        case Collect(_) =>
        case Publish(p, admit) => RequestAgrees(mid.front, p, Cell(mid.data, p), admit);
        case Drop(p) => if p in mid.front.published { DestroyAgrees(mid.front, p); }
        case SeeDestroyed => if mid.front.events != [] { DestroyedAgrees(mid.front); }
        case Process => if mid.queue != [] { ApplyEventAgrees(mid.front, mid.queue[0]); }
      }
    }
  }

  /** If no request is early, then what subscribers reach is coherent as well,
      and the container's two indexes stay inverse to each other. */
  lemma SubscribersCoherent(data: Tree, steps: seq<Step>)
    requires IsRun(Initial(data), steps) && EventsFirst(Initial(data), steps)
    ensures Agrees(RunSteps(Initial(data), steps).front)
    ensures var s := RunSteps(Initial(data), steps);
            Drained(s) ==>
              forall p <- s.front.published :: NoSilentWrites(steps, p) ==>
                s.front.published[p] in s.front.vals &&
                s.front.vals[s.front.published[p]] == Shown(Cell(s.data, p))
  {
    RunAgrees(Initial(data), steps);
    var s := RunSteps(Initial(data), steps);
    forall p: Path | Drained(s) && NoSilentWrites(steps, p)
      ensures p in s.front.byPath ==>
                s.front.byPath[p] in s.front.vals &&
                s.front.vals[s.front.byPath[p]] == Shown(Cell(s.data, p))
    {
      CacheCoherent(data, steps, p);
    }
  }

  /** What a request leaves: a path with live data, or an absent one that may be published, is
      published and, if it was not before, shows that value; no other path changes. */
  lemma RequestServes(f: Front, p: Path, c: Option<Datum>, admit: bool, q: Path)
    ensures var g := Request(f, p, c, admit);
            && (p in g.published <==> p in f.published || admit || (c.Some? && c.value.Data?))
            && (p !in f.published && p in g.published ==>
                  p in g.byPath && g.byPath[p] == g.published[p] && g.byPath[p] in g.vals &&
                  g.vals[g.byPath[p]] == (if c.Some? && c.value.Data? then c.value.value else Null))
            && (p in f.published ==> g == f)
            && (q != p ==> (q in g.published <==> q in f.published) && (q in g.byPath <==> q in f.byPath))
            && (q != p && q in f.published ==> g.published[q] == f.published[q])
            && (q != p && q in f.byPath ==> g.byPath[q] == f.byPath[q])
            && (forall id <- f.vals :: id in g.vals && (id < f.nextId ==> g.vals[id] == f.vals[id]))
  {}

  // ----- both conditions are needed -----

  lemma RunSnoc(s: State, steps: seq<Step>, step: Step)
    requires IsRun(s, steps) && Enabled(RunSteps(s, steps), step)
    ensures IsRun(s, steps + [step]) && RunSteps(s, steps + [step]) == Next(RunSteps(s, steps), step)
  {
    assert (steps + [step])[..|steps|] == steps;
  }

  /** Any single silent write can leave a held path stale, with nothing on the way that would
      repair it; only a later write with update does. */
  lemma SilentWriteStale(p: Path, w: Value, v: Value) returns (steps: seq<Step>)
    requires w != v
    ensures IsRun(Initial(map[]), steps) && Drained(RunSteps(Initial(map[]), steps))
    ensures steps != [] && steps[|steps| - 1] == Commit(SetData(false, p, v)) && NoSilentWrites(steps[..|steps| - 1], p)
    ensures var s := RunSteps(Initial(map[]), steps);
            p in s.front.byPath && s.front.byPath[p] in s.front.vals &&
            s.front.vals[s.front.byPath[p]] == w && Shown(Cell(s.data, p)) == v
  {
    var s := Initial(map[]);
    var a := Commit(SetData(true, p, w));
    var b := EndTxn([Event(p, Inserted(w))]);
    steps := [];
    RunSnoc(s, steps, a);
    steps := steps + [a];
    assert RunSteps(s, steps).pending == [Event(p, Inserted(w))];
    RunSnoc(s, steps, b);
    steps := steps + [b];
    RunSnoc(s, steps, Process);
    steps := steps + [Process];
    RunSnoc(s, steps, Publish(p, true));
    steps := steps + [Publish(p, true)];
    var c := Commit(SetData(false, p, v));
    RunSnoc(s, steps, c);
    assert (steps + [c])[..|steps|] == steps;
    steps := steps + [c];
  }

  /** From any drained state in which a path is sound, a silent write leaves a held path
      coherent exactly when it writes what the path already shows. */
  lemma SilentWriteExact(s: State, p: Path, v: Value)
    requires SoundAt(s, p) && Drained(s) && p in s.front.byPath
    ensures var s' := Next(s, Commit(SetData(false, p, v)));
            Drained(s') && s'.front == s.front && s.front.byPath[p] in s.front.vals &&
            (s'.front.vals[s'.front.byPath[p]] == Shown(Cell(s'.data, p)) <==> v == Shown(Cell(s.data, p)))
  {
    assert s.queue + s.pending == [];
  }

  /** What subscribers of a path see is tied to an id that no other path's updates touch. */
  ghost predicate Shows(f: Front, p: Path, id: Id, v: Value) {
    && p in f.published && f.published[p] == id && id < f.nextId
    && id in f.vals && f.vals[id] == v
    && (forall q <- f.byPath :: q != p ==> f.byPath[q] != id)
  }

  /** Published but not indexed, a path shows the same value until it is dropped. */
  ghost predicate Stray(f: Front, p: Path, id: Id, v: Value) {
    Shows(f, p, id, v) && p !in f.byPath
  }

  /** Its index entry, if any, will go with a destroy event that is on the way. */
  ghost predicate Doomed(f: Front, p: Path, id: Id, v: Value) {
    Shows(f, p, id, v) && (p in f.byPath ==> exists o <- f.events :: o in f.byId && f.byId[o] == p)
  }

  lemma EarlyDooms(f: Front, p: Path, c: Option<Datum>, admit: bool)
    requires Agrees(f) && Early(f, p, c, admit)
    ensures Doomed(Request(f, p, c, admit), p, f.nextId, Shown(c))
  {
    var g := Request(f, p, c, admit);
    var o := f.byPath[p];
    assert o in g.events && o in g.byId && g.byId[o] == p;
  }

  lemma DestroyedDooms(f: Front, p: Path, id: Id, v: Value)
    requires Doomed(f, p, id, v) && f.events != []
    ensures Doomed(Destroyed(f.(events := f.events[1..]), f.events[0]), p, id, v)
  {
    var rest := f.events[1..];
    assert f.events == [f.events[0]] + rest;
    if p in f.byPath {
      var o :| o in f.events && o in f.byId && f.byId[o] == p;
      assert o == f.events[0] || o in rest;
    }
  }

  lemma ProcessStray(s: State, p: Path, id: Id, v: Value)
    requires Stray(s.front, p, id, v) && s.queue != []
    ensures var n := Next(s, Process);
            Stray(n.front, p, id, v) && |n.queue| < |s.queue| && n.pending == s.pending && n.data == s.data
  {}

  /** No write is silent, on any path. */
  ghost predicate Loud(steps: seq<Step>) {
    forall i :: 0 <= i < |steps| && steps[i].Commit? && steps[i].op.SetData? ==> steps[i].op.update
  }

  lemma RunOne(s: State, step: Step)
    requires Enabled(s, step)
    ensures IsRun(s, [step]) && RunSteps(s, [step]) == Next(s, step)
  {
    RunSnoc(s, [], step);
    assert [] + [step] == [step];
  }

  lemma SeeDooms(s: State, p: Path, id: Id, v: Value)
    requires Doomed(s.front, p, id, v) && p in s.front.byPath
    ensures var n := Next(s, SeeDestroyed);
            Doomed(n.front, p, id, v) && |n.front.events| < |s.front.events|
  {
    DestroyedDooms(s.front, p, id, v);
  }

  /** Let destroy events be seen until the path is no longer indexed. */
  lemma {:induction false} SeeAll(s: State, before: seq<Step>, p: Path, id: Id, v: Value) returns (steps: seq<Step>)
    requires IsRun(s, before) && Doomed(RunSteps(s, before).front, p, id, v)
    ensures before <= steps && IsRun(s, steps) && (Loud(before) ==> Loud(steps))
    ensures Stray(RunSteps(s, steps).front, p, id, v)
    decreases |RunSteps(s, before).front.events|
  {
    var cur := RunSteps(s, before);
    if p !in cur.front.byPath {
      steps := before;
    } else {
      SeeDooms(cur, p, id, v);
      RunSnoc(s, before, SeeDestroyed);
      steps := SeeAll(s, before + [SeeDestroyed], p, id, v);
    }
  }

  /** Process the whole queue. */
  lemma {:induction false} ProcessAll(s: State, before: seq<Step>, p: Path, id: Id, v: Value) returns (steps: seq<Step>)
    requires IsRun(s, before) && Stray(RunSteps(s, before).front, p, id, v)
    ensures before <= steps && IsRun(s, steps) && (Loud(before) ==> Loud(steps))
    ensures var start, end := RunSteps(s, before), RunSteps(s, steps);
            Stray(end.front, p, id, v) && end.queue == [] && end.pending == start.pending && end.data == start.data
    decreases |RunSteps(s, before).queue|
  {
    var start := RunSteps(s, before);
    if start.queue == [] {
      steps := before;
    } else {
      ProcessStray(start, p, id, v);
      RunSnoc(s, before, Process);
      steps := ProcessAll(s, before + [Process], p, id, v);
    }
  }

  /** Write a new value to a stray path and let the update pass. */
  lemma WritePast(s: State, before: seq<Step>, p: Path, id: Id, w: Value, v: Value) returns (steps: seq<Step>)
    requires IsRun(s, before) && Stray(RunSteps(s, before).front, p, id, w)
    ensures before <= steps && IsRun(s, steps) && Stray(RunSteps(s, steps).front, p, id, w)
    ensures RunSteps(s, steps).pending == [] && Cell(RunSteps(s, steps).data, p) == Some(Data(v))
    ensures Loud(before) ==> Loud(steps)
  {
    var a := Commit(SetData(true, p, v));
    RunSnoc(s, before, a);
    steps := before + [a];
    var b := EndTxn(RunSteps(s, steps).pending);
    RunSnoc(s, steps, b);
    steps := steps + [b];
  }

  ghost predicate Undropped(steps: seq<Step>, p: Path) {
    forall i | 0 <= i < |steps| :: steps[i] != Drop(p)
  }

  /** A stray value outlasts every step but being dropped itself. */
  lemma StrayStep(s: State, step: Step, p: Path, id: Id, v: Value)
    requires Stray(s.front, p, id, v) && step != Drop(p)
    ensures Stray(Next(s, step).front, p, id, v)
  {}

  lemma {:induction false} StrayForever(s: State, steps: seq<Step>, p: Path, id: Id, v: Value)
    requires Stray(s.front, p, id, v) && Undropped(steps, p)
    ensures Stray(RunSteps(s, steps).front, p, id, v)
  {
    if steps != [] {
      var init, last := steps[..|steps| - 1], steps[|steps| - 1];
      StrayForever(s, init, p, id, v);
      StrayStep(RunSteps(s, init), last, p, id, v);
    }
  }

  /** From any state whose indexes are in order, an early request can be followed so that
      subscribers are left with a value that the container no longer updates, whatever
      happens next, until the publisher drops it; no write on the way is silent. */
  lemma EarlyRequestStale(s: State, p: Path, admit: bool, v: Value) returns (steps: seq<Step>)
    requires Agrees(s.front) && Early(s.front, p, Cell(s.data, p), admit)
    ensures steps != [] && steps[0] == Publish(p, admit)
    ensures IsRun(s, steps) && Loud(steps)
    ensures var end := RunSteps(s, steps);
            Drained(end) && Stray(end.front, p, s.front.nextId, Shown(Cell(s.data, p))) &&
            Shown(Cell(end.data, p)) == v
    ensures forall more: seq<Step> :: Undropped(more, p) ==>
              Stray(RunSteps(RunSteps(s, steps), more).front, p, s.front.nextId, Shown(Cell(s.data, p)))
  {
    var w := Shown(Cell(s.data, p));
    RunOne(s, Publish(p, admit));
    steps := [Publish(p, admit)];
    EarlyDooms(s.front, p, Cell(s.data, p), admit);
    steps := SeeAll(s, steps, p, s.front.nextId, w);
    steps := WritePast(s, steps, p, s.front.nextId, w, v);
    steps := ProcessAll(s, steps, p, s.front.nextId, w);
    forall more: seq<Step> | Undropped(more, p)
      ensures Stray(RunSteps(RunSteps(s, steps), more).front, p, s.front.nextId, w)
    {
      StrayForever(RunSteps(s, steps), more, p, s.front.nextId, w);
    }
  }

  /** Such a state is reachable: published and then dropped, a path is still indexed. */
  lemma EarlyReachable(p: Path)
    ensures var steps := [Publish(p, true), Drop(p)];
            var s := RunSteps(Initial(map[]), steps);
            IsRun(Initial(map[]), steps) && Agrees(s.front) && Early(s.front, p, Cell(s.data, p), true)
  {
    var s := Initial(map[]);
    var a, b := Publish(p, true), Drop(p);
    RunOne(s, a);
    RunSnoc(s, [a], b);
    assert [a] + [b] == [a, b];
    assert Next(s, a).front == Front(1, map[p := 0], map[0 := Null], [], map[p := 0], map[0 := p]);
    assert Next(Next(s, a), b).front == Front(1, map[], map[0 := Null], [0], map[p := 0], map[0 := p]);
  }
}
