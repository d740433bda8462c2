/** The data tree of the container, after netidx-container/src/db.rs: values with
    tombstones, the updates an operation emits, and the parallel commit. */
module Store {
  import opened Bytes
  import opened Paths

  /** The container looks at a value only to tell Null from the rest. */
  datatype Value = Null | Payload(repr: seq<byte>)

  /** Tombstone is the source's Datum::Deleted. */
  datatype Datum = Data(value: Value) | Tombstone

  datatype UpdateKind = Deleted | Inserted(value: Value) | Updated(value: Value)

  datatype Event = Event(path: Path, kind: UpdateKind)

  type Tree = map<Path, Datum>

  datatype DataOp = SetData(update: bool, path: Path, value: Value) | Remove(path: Path)

  function Written(op: DataOp): Datum {
    match op
    case SetData(_, _, v) => Data(v)
    case Remove(_) => Tombstone
  }

  function Cell(t: Tree, p: Path): Option<Datum> {
    if p in t then Some(t[p]) else None
  }

  /** The update an operation pushes, given what it overwrote. */
  function EmitKind(was: Option<Datum>, op: DataOp): Option<UpdateKind> {
    match op
    case Remove(_) =>
      if was.Some? && was.value.Data? then Some(Deleted) else None
    case SetData(update, _, v) =>
      if !update then None
      else if was.Some? && was.value.Data? then Some(Updated(v))
      else Some(Inserted(v))
  }

  function Exec(t: Tree, op: DataOp): Tree {
    t[op.path := Written(op)]
  }

  function Emit(t: Tree, op: DataOp): seq<Event> {
    match EmitKind(Cell(t, op.path), op)
    case None => []
    case Some(k) => [Event(op.path, k)]
  }

  function Run(t: Tree, ops: seq<DataOp>): Tree {
    if ops == [] then t else Exec(Run(t, ops[..|ops| - 1]), ops[|ops| - 1])
  }

  function Out(t: Tree, ops: seq<DataOp>): seq<Event> {
    if ops == [] then []
    else Out(t, ops[..|ops| - 1]) + Emit(Run(t, ops[..|ops| - 1]), ops[|ops| - 1])
  }

  lemma RunSnoc(t: Tree, ops: seq<DataOp>, op: DataOp)
    ensures Run(t, ops + [op]) == Exec(Run(t, ops), op)
    ensures Out(t, ops + [op]) == Out(t, ops) + Emit(Run(t, ops), op)
  {
    assert (ops + [op])[..|ops|] == ops;
  }

  lemma {:induction false} RunConcat(t: Tree, a: seq<DataOp>, b: seq<DataOp>)
    ensures Run(t, a + b) == Run(Run(t, a), b)
  {
    if b == [] {
      assert a + b == a;
    } else {
      assert (a + b)[..|a + b| - 1] == a + b[..|b| - 1];
      RunConcat(t, a, b[..|b| - 1]);
    }
  }

  // ----- the view of one path -----

  ghost function On(ops: seq<DataOp>, p: Path): seq<DataOp> {
    if ops == [] then []
    else if ops[|ops| - 1].path == p then On(ops[..|ops| - 1], p) + [ops[|ops| - 1]]
    else On(ops[..|ops| - 1], p)
  }

  ghost function EventsOn(evs: seq<Event>, p: Path): seq<UpdateKind> {
    if evs == [] then []
    else if evs[|evs| - 1].path == p then EventsOn(evs[..|evs| - 1], p) + [evs[|evs| - 1].kind]
    else EventsOn(evs[..|evs| - 1], p)
  }

  lemma {:induction false} EventsOnConcat(a: seq<Event>, b: seq<Event>, p: Path)
    ensures EventsOn(a + b, p) == EventsOn(a, p) + EventsOn(b, p)
  {
    if b == [] {
      assert a + b == a;
    } else {
      assert (a + b)[..|a + b| - 1] == a + b[..|b| - 1];
      EventsOnConcat(a, b[..|b| - 1], p);
    }
  }

  lemma OnSnoc(ops: seq<DataOp>, op: DataOp, p: Path)
    ensures On(ops + [op], p) == if op.path == p then On(ops, p) + [op] else On(ops, p)
  {
    assert (ops + [op])[..|ops|] == ops;
  }

  /** A cell after a list of operations on its path. */
  ghost function CellAfter(c: Option<Datum>, ops: seq<DataOp>): Option<Datum> {
    if ops == [] then c else Some(Written(ops[|ops| - 1]))
  }

  ghost function ToSeq<T>(o: Option<T>): seq<T> {
    match o
    case None => []
    case Some(x) => [x]
  }

  ghost function CellOut(c: Option<Datum>, ops: seq<DataOp>): seq<UpdateKind> {
    if ops == [] then []
    else CellOut(c, ops[..|ops| - 1]) + ToSeq(EmitKind(CellAfter(c, ops[..|ops| - 1]), ops[|ops| - 1]))
  }

  lemma CellSnoc(c: Option<Datum>, ops: seq<DataOp>, op: DataOp)
    ensures CellOut(c, ops + [op]) == CellOut(c, ops) + ToSeq(EmitKind(CellAfter(c, ops), op))
  {
    assert (ops + [op])[..|ops|] == ops;
  }

  lemma EventsOnEmit(t: Tree, op: DataOp, p: Path)
    ensures EventsOn(Emit(t, op), p) == if op.path == p then ToSeq(EmitKind(Cell(t, p), op)) else []
  {
    var evs := Emit(t, op);
    if evs != [] {
      assert EventsOn(evs[..0], p) == [];
    }
  }

  lemma {:induction false} CellAtPath(t: Tree, ops: seq<DataOp>, p: Path)
    ensures Cell(Run(t, ops), p) == CellAfter(Cell(t, p), On(ops, p))
  {
    if ops != [] {
      CellAtPath(t, ops[..|ops| - 1], p);
    }
  }

  /** What happens at a path depends only on its cell and on its own operations. */
  lemma {:induction false} EventsAtPath(t: Tree, ops: seq<DataOp>, p: Path)
    ensures EventsOn(Out(t, ops), p) == CellOut(Cell(t, p), On(ops, p))
  {
    if ops != [] {
      var init, last := ops[..|ops| - 1], ops[|ops| - 1];
      var mid := Run(t, init);
      EventsAtPath(t, init, p);
      CellAtPath(t, init, p);
      EventsOnConcat(Out(t, init), Emit(mid, last), p);
      EventsOnEmit(mid, last, p);
      if last.path == p {
        CellSnoc(Cell(t, p), On(init, p), last);
        assert On(ops, p) == On(init, p) + [last];
      } else {
        assert On(ops, p) == On(init, p);
      }
    }
  }

  ghost predicate SamePerPath(sched: seq<DataOp>, ops: seq<DataOp>) {
    forall p: Path :: On(sched, p) == On(ops, p)
  }

  lemma TreeExtensional(t: Tree, t': Tree)
    requires forall p: Path :: Cell(t, p) == Cell(t', p)
    ensures t == t'
  {
    forall p: Path ensures p in t <==> p in t' {
      assert Cell(t, p) == Cell(t', p);
    }
    forall p | p in t ensures t[p] == t'[p] {
      assert Cell(t, p) == Cell(t', p);
    }
  }

  /** The data part of the parallel commit is serializable: every interleaving that keeps
      each path's own order leaves the tree of the submission order and emits, path by
      path, the same updates. */
  lemma ParallelCommitSerializable(t: Tree, sched: seq<DataOp>, ops: seq<DataOp>)
    requires SamePerPath(sched, ops)
    ensures Run(t, sched) == Run(t, ops)
    ensures forall p: Path :: EventsOn(Out(t, sched), p) == EventsOn(Out(t, ops), p)
  {
    forall p: Path
      ensures Cell(Run(t, sched), p) == Cell(Run(t, ops), p)
      ensures EventsOn(Out(t, sched), p) == EventsOn(Out(t, ops), p)
    {
      assert On(sched, p) == On(ops, p);
      CellAtPath(t, sched, p);
      CellAtPath(t, ops, p);
      EventsAtPath(t, sched, p);
      EventsAtPath(t, ops, p);
    }
    TreeExtensional(Run(t, sched), Run(t, ops));
  }
}

/** Tombstone collection runs beside the commits and never shows. The machine below takes
    subtree removal apart into its scan, key by key, and its removals, and lets the
    collector's compare-and-swap happen between any two of these steps. */
module TombstoneGc {
  import opened Bytes
  import opened Paths
  import opened Store

  type Live = map<Path, Value>

  ghost function LiveOf(t: Tree): Live {
    map p | p in t && t[p].Data? :: t[p].value
  }

  datatype Op = Single(op: DataOp) | RemoveSubtree(root: Path)

  // ----- the reference: operations on live values only -----

  ghost function Under(live: Live, root: Path): set<Path> {
    set p | p in live && IsParent(root, p)
  }

  ghost function InOrder(s: set<Path>): (r: seq<Path>) {
    var ks := Ascending(s);
    assert forall i :: 0 <= i < |ks| ==> ks[i] in s;
    ks
  }

  ghost function Deletions(ps: seq<Path>): seq<Event> {
    seq(|ps|, i requires 0 <= i < |ps| => Event(ps[i], Deleted))
  }

  ghost function LiveExec(live: Live, op: Op): Live {
    match op
    case Single(SetData(_, p, v)) => live[p := v]
    case Single(Remove(p)) => live - {p}
    case RemoveSubtree(r) => live - Under(live, r)
  }

  ghost function LiveEmit(live: Live, op: Op): seq<Event> {
    match op
    case Single(SetData(update, p, v)) =>
      if !update then [] else [Event(p, if p in live then Updated(v) else Inserted(v))]
    case Single(Remove(p)) => if p in live then [Event(p, Deleted)] else []
    case RemoveSubtree(r) => Deletions(InOrder(Under(live, r)))
  }

  ghost function LiveRun(live: Live, ops: seq<Op>): Live {
    if ops == [] then live else LiveExec(LiveRun(live, ops[..|ops| - 1]), ops[|ops| - 1])
  }

  ghost function LiveOut(live: Live, ops: seq<Op>): seq<Event> {
    if ops == [] then []
    else LiveOut(live, ops[..|ops| - 1]) + LiveEmit(LiveRun(live, ops[..|ops| - 1]), ops[|ops| - 1])
  }

  // ----- the machine -----

  datatype Cursor = Start | After(key: Key)

  datatype Task =
    | Idle
    | Scanning(root: Path, cursor: Cursor, found: seq<Path>)
    | Draining(paths: seq<Path>)

  datatype Machine = Machine(data: Tree, task: Task, out: seq<Event>)

  datatype Step =
    | Begin(op: Op)
    | Advance
    | Collect(key: Path)

  predicate Ahead(cursor: Cursor, k: Key) {
    cursor.After? ==> Less(cursor.key, k)
  }

  ghost function ScanRest(t: Tree, root: Path, cursor: Cursor): set<Key> {
    set k | k in t && IsPrefix(root, k) && Ahead(cursor, k)
  }

  ghost function Apply1(m: Machine, op: DataOp): Machine {
    m.(data := Exec(m.data, op), out := m.out + Emit(m.data, op))
  }

  /** One step of the committing thread. */
  ghost function Progress(m: Machine): Machine {
    match m.task
    case Idle => m
    case Scanning(root, cursor, found) =>
      var rest := ScanRest(m.data, root, cursor);
      if rest == {} then m.(task := Draining(found))
      else
        var k := Least(rest);
        m.(task := Scanning(root, After(k), if IsParent(root, k) then found + [k] else found))
    case Draining(paths) =>
      if paths == [] then m.(task := Idle)
      else Apply1(m, Remove(paths[0])).(task := Draining(paths[1..]))
  }

  /** compare_and_swap of a tombstone the collector has read against nothing. */
  ghost function Cas(t: Tree, key: Path): Tree {
    if key in t && t[key] == Tombstone then t - {key} else t
  }

  ghost function Next(m: Machine, step: Step): Machine {
    match step
    case Begin(Single(op)) => Apply1(m, op)
    case Begin(RemoveSubtree(r)) => m.(task := Scanning(r, Start, []))
    case Advance => Progress(m)
    case Collect(k) => m.(data := Cas(m.data, k))
  }

  ghost function RunMachine(m: Machine, steps: seq<Step>): Machine {
    if steps == [] then m else Next(RunMachine(m, steps[..|steps| - 1]), steps[|steps| - 1])
  }

  /** Operations begin only when the previous one is done. */
  ghost predicate Legal(m: Machine, steps: seq<Step>) {
    steps == [] ||
    (Legal(m, steps[..|steps| - 1]) &&
     (steps[|steps| - 1].Begin? ==> RunMachine(m, steps[..|steps| - 1]).task.Idle?))
  }

  ghost function Begun(steps: seq<Step>): seq<Op> {
    if steps == [] then []
    else if steps[|steps| - 1].Begin? then Begun(steps[..|steps| - 1]) + [steps[|steps| - 1].op]
    else Begun(steps[..|steps| - 1])
  }

  // ----- refinement -----

  /** The removals still owed by the operation under way. */
  ghost function Owed(m: Machine): seq<Path> {
    match m.task
    case Idle => []
    case Draining(paths) => paths
    case Scanning(root, cursor, found) => found + InOrder(LiveAhead(LiveOf(m.data), root, cursor))
  }

  ghost function LiveAhead(live: Live, root: Path, cursor: Cursor): set<Path> {
    set p | p in live && IsParent(root, p) && Ahead(cursor, p)
  }

  ghost function DrainOut(live: Live, ps: seq<Path>): seq<Event> {
    if ps == [] then []
    else (if ps[0] in live then [Event(ps[0], Deleted)] else []) + DrainOut(live - {ps[0]}, ps[1..])
  }

  ghost function DrainLive(live: Live, ps: seq<Path>): Live {
    live - set p | p in ps
  }

  /** Where the machine will be, in live values and updates, once its operation is done. */
  ghost function GoalLive(m: Machine): Live {
    DrainLive(LiveOf(m.data), Owed(m))
  }

  ghost function GoalOut(m: Machine): seq<Event> {
    m.out + DrainOut(LiveOf(m.data), Owed(m))
  }

  ghost predicate SameGoal(m: Machine, m': Machine) {
    GoalLive(m) == GoalLive(m') && GoalOut(m) == GoalOut(m')
  }

  lemma {:induction false} DrainSkip(live: Live, a: seq<Path>, k: Path, b: seq<Path>)
    requires k !in live
    ensures DrainOut(live, a + [k] + b) == DrainOut(live, a + b)
    ensures DrainLive(live, a + [k] + b) == DrainLive(live, a + b)
  {
    if a == [] {
      assert a + [k] + b == [k] + b && a + b == b;
      assert live - {k} == live;
    } else {
      assert (a + [k] + b)[1..] == a[1..] + [k] + b && (a + b)[1..] == a[1..] + b;
      DrainSkip(live - {a[0]}, a[1..], k, b);
    }
  }

  lemma {:induction false} DrainAscending(live: Live, s: set<Path>)
    requires s <= live.Keys
    ensures DrainOut(live, InOrder(s)) == Deletions(InOrder(s))
  {
    if s != {} {
      var m := Least(s);
      var rest := InOrder(s - {m});
      assert InOrder(s) == [m] + rest;
      DrainAscending(live - {m}, s - {m});
      assert Deletions([m] + rest) == [Event(m, Deleted)] + Deletions(rest);
    }
  }

  lemma {:induction false} DeletionsOn(s: set<Path>, q: Path)
    ensures EventsOn(Deletions(InOrder(s)), q) == if q in s then [Deleted] else []
    decreases |s|
  {
    if s == {} {
      assert InOrder(s) == [] && Deletions([]) == [];
    } else {
      var m := Least(s);
      var rest := InOrder(s - {m});
      assert InOrder(s) == [m] + rest;
      assert Deletions([m] + rest) == [Event(m, Deleted)] + Deletions(rest);
      DeletionsOn(s - {m}, q);
      EventsOnConcat([Event(m, Deleted)], Deletions(rest), q);
      assert [Event(m, Deleted)][..0] == [];
      assert EventsOn([Event(m, Deleted)], q) == if m == q then [Deleted] else [];
    }
  }

  /** What one step of the collector does: the tombstone of its key goes, live data stays, and
      no other key, update or task changes. */
  lemma CollectEffect(m: Machine, k: Path, q: Path)
    ensures var n := Next(m, Collect(k));
            && n.out == m.out && n.task == m.task
            && (q != k ==> Cell(n.data, q) == Cell(m.data, q))
            && (Cell(n.data, k) == None <==> Cell(m.data, k) == None || Cell(m.data, k) == Some(Tombstone))
            && (Cell(m.data, k).Some? && Cell(m.data, k).value.Data? ==> Cell(n.data, k) == Cell(m.data, k))
  {}

  /** The live values and nothing else. */
  ghost function Pure(t: Tree): Tree {
    map p | p in t && t[p].Data? :: t[p]
  }

  ghost function CollectAll(keys: seq<Path>): seq<Step> {
    seq(|keys|, i requires 0 <= i < |keys| => Collect(keys[i]))
  }

  lemma {:induction false} PassCell(m: Machine, keys: seq<Path>, q: Path)
    ensures var n := RunMachine(m, CollectAll(keys));
            n.out == m.out && n.task == m.task &&
            Cell(n.data, q) == if q in keys then Cell(Pure(m.data), q) else Cell(m.data, q)
  {
    if keys == [] {
      assert CollectAll(keys) == [];
    } else {
      var init, last := keys[..|keys| - 1], keys[|keys| - 1];
      assert CollectAll(keys)[..|keys| - 1] == CollectAll(init);
      assert keys == init + [last];
      PassCell(m, init, q);
      CollectEffect(RunMachine(m, CollectAll(init)), last, q);
    }
  }

  /** A pass over every key leaves no tombstone, and exactly the live values. */
  lemma PassCollectsAll(m: Machine, keys: seq<Path>)
    requires forall k <- m.data :: k in keys
    ensures RunMachine(m, CollectAll(keys)).data == Pure(m.data)
    ensures forall k <- RunMachine(m, CollectAll(keys)).data :: RunMachine(m, CollectAll(keys)).data[k] != Tombstone
  {
    forall q: Path ensures Cell(RunMachine(m, CollectAll(keys)).data, q) == Cell(Pure(m.data), q) {
      PassCell(m, keys, q);
    }
    TreeExtensional(RunMachine(m, CollectAll(keys)).data, Pure(m.data));
  }

  lemma CollectKeepsGoal(m: Machine, key: Path)
    ensures SameGoal(Next(m, Collect(key)), m)
    ensures LiveOf(Next(m, Collect(key)).data) == LiveOf(m.data)
  {
    assert LiveOf(Cas(m.data, key)) == LiveOf(m.data);
  }

  /** The removals owed after the scan has met key k. */
  lemma OwedAfterKey(live: Live, root: Path, cursor: Cursor, found: seq<Path>, rest: set<Key>, k: Path)
    requires LiveAhead(live, root, cursor) <= rest && IsLeast(rest, k) && Ahead(cursor, k)
    ensures var ahead, ahead' := LiveAhead(live, root, cursor), LiveAhead(live, root, After(k));
            if k in ahead then found + [k] + InOrder(ahead') == found + InOrder(ahead)
            else ahead' == ahead
    ensures k !in LiveAhead(live, root, cursor) && IsParent(root, k) ==> k !in live
  {
    var ahead := LiveAhead(live, root, cursor);
    AheadShrinks(live, root, cursor, k, rest);
    if k in ahead {
      AscendingStep(ahead, k);
      assert InOrder(ahead) == [k] + InOrder(ahead - {k});
    }
  }

  lemma ScanKeepsGoal(m: Machine)
    requires m.task.Scanning?
    ensures SameGoal(Progress(m), m)
  {
    var Scanning(root, cursor, found) := m.task;
    var live := LiveOf(m.data);
    var rest := ScanRest(m.data, root, cursor);
    var ahead := LiveAhead(live, root, cursor);
    forall p | p in ahead ensures p in rest { ParentOrder(root, p, p); }
    if rest == {} {
      assert ahead == {};
      assert Owed(Progress(m)) == Owed(m);
    } else {
      var k: Path := Least(rest);
      OwedAfterKey(live, root, cursor, found, rest, k);
      if k in ahead || !IsParent(root, k) {
        assert Owed(Progress(m)) == Owed(m);
      } else {
        DrainSkip(live, found, k, InOrder(ahead));
      }
    }
  }

  lemma AheadShrinks(live: Live, root: Path, cursor: Cursor, k: Key, rest: set<Key>)
    requires LiveAhead(live, root, cursor) <= rest && IsLeast(rest, k) && Ahead(cursor, k)
    ensures LiveAhead(live, root, After(k)) == LiveAhead(live, root, cursor) - {k}
    ensures k in LiveAhead(live, root, cursor) ==> IsLeast(LiveAhead(live, root, cursor), k)
  {
    forall p: Path
      ensures p in LiveAhead(live, root, After(k)) <==> p in LiveAhead(live, root, cursor) && p != k
    {
      LessIrreflexive(k);
      if Less(k, p) && cursor.After? { LessTransitive(cursor.key, k, p); }
      if p in LiveAhead(live, root, cursor) { assert AtMost(k, p); }
    }
  }

  lemma DrainStep(live: Live, ps: seq<Path>)
    requires ps != []
    ensures DrainLive(live, ps) == DrainLive(live - {ps[0]}, ps[1..])
  {
    assert ps == [ps[0]] + ps[1..];
  }

  lemma DrainKeepsGoal(m: Machine)
    requires m.task.Draining?
    ensures SameGoal(Progress(m), m)
  {
    var paths := m.task.paths;
    if paths != [] {
      var live := LiveOf(m.data);
      assert LiveOf(Exec(m.data, Remove(paths[0]))) == live - {paths[0]};
      DrainStep(live, paths);
      assert Owed(Progress(m)) == paths[1..];
      var evs := Emit(m.data, Remove(paths[0]));
      assert evs == if paths[0] in live then [Event(paths[0], Deleted)] else [];
      ConcatAssociative(m.out, evs, DrainOut(live - {paths[0]}, paths[1..]));
    }
  }

  lemma BeginSingle(m: Machine, op: DataOp)
    requires m.task.Idle?
    ensures GoalLive(Next(m, Begin(Single(op)))) == LiveExec(LiveOf(m.data), Single(op))
    ensures GoalOut(Next(m, Begin(Single(op)))) == m.out + LiveEmit(LiveOf(m.data), Single(op))
  {
    assert LiveOf(Exec(m.data, op)) == LiveExec(LiveOf(m.data), Single(op));
  }

  lemma BeginSubtree(m: Machine, r: Path)
    requires m.task.Idle?
    ensures GoalLive(Next(m, Begin(RemoveSubtree(r)))) == LiveExec(LiveOf(m.data), RemoveSubtree(r))
    ensures GoalOut(Next(m, Begin(RemoveSubtree(r)))) == m.out + LiveEmit(LiveOf(m.data), RemoveSubtree(r))
  {
    var live := LiveOf(m.data);
    var under := Under(live, r);
    assert LiveAhead(live, r, Start) == under;
    DrainAscending(live, under);
    DrainSet(live, under);
    assert Owed(Next(m, Begin(RemoveSubtree(r)))) == InOrder(under);
  }

  lemma DrainSet(live: Live, s: set<Path>)
    ensures DrainLive(live, InOrder(s)) == live - s
  {
    assert (set p | p in InOrder(s)) == s;
  }

  lemma BeginReaches(m: Machine, op: Op)
    requires m.task.Idle?
    ensures GoalLive(Next(m, Begin(op))) == LiveExec(GoalLive(m), op)
    ensures GoalOut(Next(m, Begin(op))) == GoalOut(m) + LiveEmit(GoalLive(m), op)
  {
    IdleGoal(m);
    match op {
      case Single(o) => BeginSingle(m, o);
      case RemoveSubtree(r) => BeginSubtree(m, r);
    }
  }

  lemma StepKeepsGoal(m: Machine, step: Step)
    requires !step.Begin?
    ensures SameGoal(Next(m, step), m)
  {
    match step {
      case Advance =>
        match m.task {
          case Idle =>
          case Scanning(_, _, _) => ScanKeepsGoal(m);
          case Draining(_) => DrainKeepsGoal(m);
        }
      case Collect(k) => CollectKeepsGoal(m, k);
    }
  }

  lemma IdleGoal(m: Machine)
    requires m.task.Idle?
    ensures GoalLive(m) == LiveOf(m.data) && GoalOut(m) == m.out
  {}

  lemma LiveSnoc(live: Live, ops: seq<Op>, op: Op)
    ensures LiveRun(live, ops + [op]) == LiveExec(LiveRun(live, ops), op)
    ensures LiveOut(live, ops + [op]) == LiveOut(live, ops) + LiveEmit(LiveRun(live, ops), op)
  {
    assert (ops + [op])[..|ops|] == ops;
  }

  /** The machine is on its way to where the reference run of ops ends. */
  ghost predicate Tracks(m: Machine, live: Live, out: seq<Event>, ops: seq<Op>) {
    GoalLive(m) == LiveRun(live, ops) && GoalOut(m) == out + LiveOut(live, ops)
  }

  lemma BeginTracks(m: Machine, op: Op, live: Live, out: seq<Event>, ops: seq<Op>)
    requires m.task.Idle? && Tracks(m, live, out, ops)
    ensures Tracks(Next(m, Begin(op)), live, out, ops + [op])
  {
    BeginReaches(m, op);
    ReferenceSnoc(GoalLive(m), GoalOut(m), op, live, out, ops);
  }

  lemma ReferenceSnoc(l: Live, o: seq<Event>, op: Op, live: Live, out: seq<Event>, ops: seq<Op>)
    requires l == LiveRun(live, ops) && o == out + LiveOut(live, ops)
    ensures LiveExec(l, op) == LiveRun(live, ops + [op])
    ensures o + LiveEmit(l, op) == out + LiveOut(live, ops + [op])
  {
    LiveSnoc(live, ops, op);
    ConcatAssociative(out, LiveOut(live, ops), LiveEmit(l, op));
  }

  lemma ConcatAssociative<T>(a: seq<T>, b: seq<T>, c: seq<T>)
    ensures a + (b + c) == a + b + c
  {}

  lemma StepTracks(m: Machine, step: Step, live: Live, out: seq<Event>, ops: seq<Op>)
    requires !step.Begin? && Tracks(m, live, out, ops)
    ensures Tracks(Next(m, step), live, out, ops)
  {
    StepKeepsGoal(m, step);
  }

  lemma {:induction false} RunTracks(m: Machine, steps: seq<Step>)
    requires m.task.Idle? && Legal(m, steps)
    ensures Tracks(RunMachine(m, steps), LiveOf(m.data), m.out, Begun(steps))
  {
    if steps == [] {
      IdleGoal(m);
    } else {
      var init, last := steps[..|steps| - 1], steps[|steps| - 1];
      RunTracks(m, init);
      if last.Begin? {
        BeginTracks(RunMachine(m, init), last.op, LiveOf(m.data), m.out, Begun(init));
      } else {
        StepTracks(RunMachine(m, init), last, LiveOf(m.data), m.out, Begun(init));
      }
    }
  }

  /** However tombstone collection interleaves with the steps of the operations, when the
      last operation is done the live values and the whole stream of updates are those of
      the operations run one after another on live values alone. */
  lemma GcInvisible(m: Machine, steps: seq<Step>)
    requires m.task.Idle? && Legal(m, steps) && RunMachine(m, steps).task.Idle?
    ensures LiveOf(RunMachine(m, steps).data) == LiveRun(LiveOf(m.data), Begun(steps))
    ensures RunMachine(m, steps).out == m.out + LiveOut(LiveOf(m.data), Begun(steps))
  {
    RunTracks(m, steps);
    IdleGoal(RunMachine(m, steps));
  }

  /** Two runs of the same operations agree wherever collection happened in either. */
  lemma GcUnobservable(m: Machine, a: seq<Step>, b: seq<Step>)
    requires m.task.Idle? && Legal(m, a) && Legal(m, b) && Begun(a) == Begun(b)
    requires RunMachine(m, a).task.Idle? && RunMachine(m, b).task.Idle?
    ensures LiveOf(RunMachine(m, a).data) == LiveOf(RunMachine(m, b).data)
    ensures RunMachine(m, a).out == RunMachine(m, b).out
  {
    GcInvisible(m, a);
    GcInvisible(m, b);
  }

  // ----- collection beside a parallel commit -----

  ghost function Singles(ops: seq<DataOp>): seq<Op> {
    if ops == [] then [] else Singles(ops[..|ops| - 1]) + [Single(ops[|ops| - 1])]
  }

  lemma SingleOnLive(t: Tree, op: DataOp)
    ensures LiveOf(Exec(t, op)) == LiveExec(LiveOf(t), Single(op))
    ensures Emit(t, op) == LiveEmit(LiveOf(t), Single(op))
  {
    assert LiveOf(Exec(t, op)) == LiveExec(LiveOf(t), Single(op));
  }

  lemma {:induction false} SinglesOnLive(t: Tree, ops: seq<DataOp>)
    ensures LiveRun(LiveOf(t), Singles(ops)) == LiveOf(Run(t, ops))
    ensures LiveOut(LiveOf(t), Singles(ops)) == Out(t, ops)
  {
    if ops != [] {
      var init, last := ops[..|ops| - 1], ops[|ops| - 1];
      SinglesOnLive(t, init);
      SingleOnLive(Run(t, init), last);
      LiveSnoc(LiveOf(t), Singles(init), Single(last));
    }
  }

  /** A parallel commit with collection between its operations: in any interleaving that keeps
      each path's own order, the live values and each path's updates are those of the
      submission order without collection. */
  lemma ParallelCommitWithGc(m: Machine, steps: seq<Step>, sched: seq<DataOp>, ops: seq<DataOp>)
    requires m.task.Idle? && Legal(m, steps) && RunMachine(m, steps).task.Idle?
    requires Begun(steps) == Singles(sched) && SamePerPath(sched, ops)
    ensures LiveOf(RunMachine(m, steps).data) == LiveOf(Run(m.data, ops))
    ensures forall p: Path ::
              EventsOn(RunMachine(m, steps).out, p) == EventsOn(m.out, p) + EventsOn(Out(m.data, ops), p)
  {
    GcInvisible(m, steps);
    SinglesOnLive(m.data, sched);
    ParallelCommitSerializable(m.data, sched, ops);
    forall p: Path
      ensures EventsOn(RunMachine(m, steps).out, p) == EventsOn(m.out, p) + EventsOn(Out(m.data, ops), p)
    {
      EventsOnConcat(m.out, Out(m.data, sched), p);
    }
  }
}
