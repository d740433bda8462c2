/** The committing side of netidx-container/src/db.rs: the operations on the two trees
    and the two ways a transaction is committed. */
module ContainerDb {
  import opened Bytes
  import opened Paths
  import opened Store
  import LockTree
  import Gc = TombstoneGc

  datatype TxnOp =
    | TSet(update: bool, path: Path, value: Value)
    | TRemove(path: Path)
    | TLock(path: Path)
    | TUnlock(path: Path)
    | TRemoveSubtree(path: Path)

  predicate IsSimple(op: TxnOp) {
    !op.TRemoveSubtree?
  }

  // ----- what a list of operations asks of each tree -----

  ghost function DataPart1(op: TxnOp): Option<DataOp> {
    match op
    case TSet(u, p, v) => Some(DataOp.SetData(u, p, v))
    case TRemove(p) => Some(DataOp.Remove(p))
    case _ => None
  }

  ghost function LockPart1(op: TxnOp): Option<LockTree.LockOp> {
    match op
    case TLock(p) => Some(LockTree.LockOp(p, true))
    case TUnlock(p) => Some(LockTree.LockOp(p, false))
    case _ => None
  }

  ghost function LivePart1(op: TxnOp): Option<Gc.Op> {
    match op
    case TSet(u, p, v) => Some(Gc.Single(DataOp.SetData(u, p, v)))
    case TRemove(p) => Some(Gc.Single(DataOp.Remove(p)))
    case TRemoveSubtree(p) => Some(Gc.RemoveSubtree(p))
    case _ => None
  }

  ghost function Pick<T>(ops: seq<TxnOp>, part: TxnOp -> Option<T>): seq<T> {
    if ops == [] then []
    else match part(ops[|ops| - 1])
      case None => Pick(ops[..|ops| - 1], part)
      case Some(x) => Pick(ops[..|ops| - 1], part) + [x]
  }

  ghost function DataPart(ops: seq<TxnOp>): seq<DataOp> {
    Pick(ops, DataPart1)
  }

  ghost function LockPart(ops: seq<TxnOp>): seq<LockTree.LockOp> {
    Pick(ops, LockPart1)
  }

  ghost function LivePart(ops: seq<TxnOp>): seq<Gc.Op> {
    Pick(ops, LivePart1)
  }

  function OpsOn(ops: seq<TxnOp>, p: Path): seq<TxnOp> {
    if ops == [] then []
    else if ops[|ops| - 1].path == p then OpsOn(ops[..|ops| - 1], p) + [ops[|ops| - 1]]
    else OpsOn(ops[..|ops| - 1], p)
  }

  lemma PickSnoc<T>(ops: seq<TxnOp>, op: TxnOp, part: TxnOp -> Option<T>)
    ensures Pick(ops + [op], part) ==
            match part(op) case None => Pick(ops, part) case Some(x) => Pick(ops, part) + [x]
  {
    assert (ops + [op])[..|ops|] == ops;
  }

  lemma OpsOnSnoc(ops: seq<TxnOp>, op: TxnOp, p: Path)
    ensures OpsOn(ops + [op], p) == if op.path == p then OpsOn(ops, p) + [op] else OpsOn(ops, p)
  {
    assert (ops + [op])[..|ops|] == ops;
  }

  lemma {:induction false} DataPartOn(ops: seq<TxnOp>, p: Path)
    ensures Store.On(DataPart(ops), p) == DataPart(OpsOn(ops, p))
  {
    if ops != [] {
      var init, last := ops[..|ops| - 1], ops[|ops| - 1];
      DataPartOn(init, p);
      if DataPart1(last).Some? { Store.OnSnoc(DataPart(init), DataPart1(last).value, p); }
      if last.path == p {
        PickSnoc(OpsOn(init, p), last, DataPart1);
      } else {
        assert OpsOn(ops, p) == OpsOn(init, p);
      }
    }
  }

  lemma {:induction false} LockPartOn(ops: seq<TxnOp>, p: Path)
    ensures LockTree.On(LockPart(ops), p) == LockPart(OpsOn(ops, p))
  {
    if ops != [] {
      var init, last := ops[..|ops| - 1], ops[|ops| - 1];
      LockPartOn(init, p);
      if LockPart1(last).Some? { LockTree.OnSnoc(LockPart(init), LockPart1(last).value, p); }
      if last.path == p {
        PickSnoc(OpsOn(init, p), last, LockPart1);
      } else {
        assert OpsOn(ops, p) == OpsOn(init, p);
      }
    }
  }

  /** The same groups per path, in whatever order the groups ran. */
  ghost predicate IsSchedule(sched: seq<TxnOp>, txn: seq<TxnOp>) {
    forall p: Path :: OpsOn(sched, p) == OpsOn(txn, p)
  }

  lemma ScheduleParts(sched: seq<TxnOp>, txn: seq<TxnOp>)
    requires IsSchedule(sched, txn)
    ensures Store.SamePerPath(DataPart(sched), DataPart(txn))
    ensures LockTree.SamePerPath(LockPart(sched), LockPart(txn))
  {
    forall p: Path
      ensures Store.On(DataPart(sched), p) == Store.On(DataPart(txn), p)
      ensures LockTree.On(LockPart(sched), p) == LockTree.On(LockPart(txn), p)
    {
      DataPartOn(sched, p);
      DataPartOn(txn, p);
      LockPartOn(sched, p);
      LockPartOn(txn, p);
      assert OpsOn(sched, p) == OpsOn(txn, p);
    }
  }

  // ----- the effect of a list of operations, on trees and on live values -----

  datatype Effect = Effect(data: Tree, out: seq<Event>, locked: LockTree.Tree)

  datatype LiveEffect = LiveEffect(live: Gc.Live, out: seq<Event>, locked: LockTree.Tree)

  ghost function LockStep(t: LockTree.Tree, op: TxnOp): LockTree.Tree {
    match LockPart1(op)
    case None => t
    case Some(o) => LockTree.Apply(t, o)
  }

  ghost function Step(e: Effect, op: TxnOp): Effect {
    match DataPart1(op)
    case None => e.(locked := LockStep(e.locked, op))
    case Some(o) => Effect(Exec(e.data, o), e.out + Emit(e.data, o), LockStep(e.locked, op))
  }

  ghost function LiveStep(e: LiveEffect, op: TxnOp): LiveEffect {
    match LivePart1(op)
    case None => e.(locked := LockStep(e.locked, op))
    case Some(o) =>
      LiveEffect(Gc.LiveExec(e.live, o), e.out + Gc.LiveEmit(e.live, o), LockStep(e.locked, op))
  }

  ghost function RunOps(e: Effect, ops: seq<TxnOp>): Effect {
    if ops == [] then e else Step(RunOps(e, ops[..|ops| - 1]), ops[|ops| - 1])
  }

  ghost function RunLive(e: LiveEffect, ops: seq<TxnOp>): LiveEffect {
    if ops == [] then e else LiveStep(RunLive(e, ops[..|ops| - 1]), ops[|ops| - 1])
  }

  lemma RunOpsSnoc(e: Effect, ops: seq<TxnOp>, op: TxnOp)
    ensures RunOps(e, ops + [op]) == Step(RunOps(e, ops), op)
  {
    assert (ops + [op])[..|ops|] == ops;
  }

  lemma RunOpsNext(e: Effect, before: seq<TxnOp>, ops: seq<TxnOp>, i: nat)
    requires i < |ops|
    ensures RunOps(e, before + ops[..i + 1]) == Step(RunOps(e, before + ops[..i]), ops[i])
  {
    assert before + ops[..i + 1] == (before + ops[..i]) + [ops[i]];
    RunOpsSnoc(e, before + ops[..i], ops[i]);
  }

  lemma RunLiveSnoc(e: LiveEffect, ops: seq<TxnOp>, op: TxnOp)
    ensures RunLive(e, ops + [op]) == LiveStep(RunLive(e, ops), op)
  {
    assert (ops + [op])[..|ops|] == ops;
  }

  lemma {:induction false} RunOpsData(e: Effect, ops: seq<TxnOp>)
    requires e.out == []
    ensures RunOps(e, ops).data == Store.Run(e.data, DataPart(ops))
    ensures RunOps(e, ops).out == Store.Out(e.data, DataPart(ops))
  {
    if ops != [] {
      var init, last := ops[..|ops| - 1], ops[|ops| - 1];
      RunOpsData(e, init);
      if DataPart1(last).Some? { Store.RunSnoc(e.data, DataPart(init), DataPart1(last).value); }
    }
  }

  lemma {:induction false} RunOpsLocks(e: Effect, ops: seq<TxnOp>)
    ensures RunOps(e, ops).locked == LockTree.Run(e.locked, LockPart(ops))
  {
    if ops != [] {
      var init, last := ops[..|ops| - 1], ops[|ops| - 1];
      RunOpsLocks(e, init);
      if LockPart1(last).Some? { LockTree.RunSnoc(e.locked, LockPart(init), LockPart1(last).value); }
    }
  }

  lemma {:induction false} RunLiveParts(e: LiveEffect, ops: seq<TxnOp>)
    ensures RunLive(e, ops).live == Gc.LiveRun(e.live, LivePart(ops))
    ensures RunLive(e, ops).out == e.out + Gc.LiveOut(e.live, LivePart(ops))
  {
    if ops != [] {
      var init, last := ops[..|ops| - 1], ops[|ops| - 1];
      RunLiveParts(e, init);
      match LivePart1(last) {
        case None =>
        case Some(o) =>
          Gc.ReferenceSnoc(RunLive(e, init).live, RunLive(e, init).out, o, e.live, e.out, LivePart(init));
      }
    }
  }

  lemma {:induction false} RunLiveLocks(e: LiveEffect, ops: seq<TxnOp>)
    ensures RunLive(e, ops).locked == LockTree.Run(e.locked, LockPart(ops))
  {
    if ops != [] {
      var init, last := ops[..|ops| - 1], ops[|ops| - 1];
      RunLiveLocks(e, init);
      if LockPart1(last).Some? { LockTree.RunSnoc(e.locked, LockPart(init), LockPart1(last).value); }
    }
  }

  ghost function Listed1(op: TxnOp, lock: bool): seq<Path> {
    if (lock && op.TLock?) || (!lock && op.TUnlock?) then [op.path] else []
  }

  /** The paths a list of operations locks, or unlocks. */
  ghost function Listed(ops: seq<TxnOp>, lock: bool): seq<Path> {
    LockTree.PathsOf(LockPart(ops), lock)
  }

  lemma ListedSnoc(ops: seq<TxnOp>, op: TxnOp, lock: bool)
    ensures Listed(ops + [op], lock) == Listed(ops, lock) + Listed1(op, lock)
  {
    PickSnoc(ops, op, LockPart1);
    match LockPart1(op)
    case None =>
    case Some(o) => LockTree.PathsOfSnoc(LockPart(ops), o, lock);
  }

  // ----- what a transaction does, said of its operations -----

  /** The operation decides what is live at a path. */
  ghost predicate Touches(op: TxnOp, q: Path) {
    match op
    case TSet(_, p, _) => p == q
    case TRemove(p) => p == q
    case TRemoveSubtree(r) => IsParent(r, q)
    case _ => false
  }

  ghost function LastTouch(txn: seq<TxnOp>, q: Path): Option<TxnOp> {
    if txn == [] then None
    else if Touches(txn[|txn| - 1], q) then Some(txn[|txn| - 1])
    else LastTouch(txn[..|txn| - 1], q)
  }

  /** What is live at a path is the business of the last operation that touches it: a set leaves
      its value, a removal leaves nothing. */
  ghost function LiveAfter(v: Option<Value>, txn: seq<TxnOp>, q: Path): Option<Value> {
    match LastTouch(txn, q)
    case None => v
    case Some(op) => if op.TSet? then Some(op.value) else None
  }

  /** The update of a path by one operation: a set reports, if asked, whether it found a live
      value, a removal reports that it did. */
  ghost function Update1(had: bool, op: TxnOp, q: Path): seq<UpdateKind> {
    if !Touches(op, q) then []
    else if !op.TSet? then if had then [Deleted] else []
    else if !op.update then []
    else [if had then Updated(op.value) else Inserted(op.value)]
  }

  ghost function UpdatesAt(v: Option<Value>, txn: seq<TxnOp>, q: Path): seq<UpdateKind> {
    if txn == [] then []
    else
      var init := txn[..|txn| - 1];
      UpdatesAt(v, init, q) + Update1(LiveAfter(v, init, q).Some?, txn[|txn| - 1], q)
  }

  ghost function ValueAt(live: Gc.Live, q: Path): Option<Value> {
    if q in live then Some(live[q]) else None
  }

  ghost function LiveCell(c: Option<Datum>): Option<Value> {
    if c.Some? && c.value.Data? then Some(c.value.value) else None
  }

  /** What a path holds after operations on single paths: a removal leaves a tombstone. */
  ghost function CellAfterAll(c: Option<Datum>, txn: seq<TxnOp>, q: Path): Option<Datum> {
    match LastTouch(txn, q)
    case None => c
    case Some(op) => Some(if op.TSet? then Data(op.value) else Tombstone)
  }

  lemma SingleLaw(live: Gc.Live, o: DataOp, q: Path)
    ensures ValueAt(Gc.LiveExec(live, Gc.Single(o)), q) ==
            if o.path != q then ValueAt(live, q) else if o.SetData? then Some(o.value) else None
    ensures EventsOn(Gc.LiveEmit(live, Gc.Single(o)), q) ==
            if o.path != q || (o.SetData? && !o.update) || (o.Remove? && q !in live) then []
            else if o.Remove? then [Deleted]
            else [if q in live then Updated(o.value) else Inserted(o.value)]
  {
    var evs := Gc.LiveEmit(live, Gc.Single(o));
    if evs != [] { assert EventsOn(evs[..0], q) == []; }
  }

  lemma SubtreeLaw(live: Gc.Live, r: Path, q: Path)
    ensures ValueAt(Gc.LiveExec(live, Gc.RemoveSubtree(r)), q) == if IsParent(r, q) then None else ValueAt(live, q)
    ensures EventsOn(Gc.LiveEmit(live, Gc.RemoveSubtree(r)), q) ==
            if IsParent(r, q) && q in live then [Deleted] else []
  {
    Gc.DeletionsOn(Gc.Under(live, r), q);
  }

  ghost function Live1(v: Option<Value>, op: TxnOp, q: Path): Option<Value> {
    if !Touches(op, q) then v else if op.TSet? then Some(op.value) else None
  }

  lemma LiveAfterStep(v: Option<Value>, txn: seq<TxnOp>, q: Path)
    requires txn != []
    ensures LiveAfter(v, txn, q) == Live1(LiveAfter(v, txn[..|txn| - 1], q), txn[|txn| - 1], q)
  {}

  lemma LiveStepValue(e: LiveEffect, op: TxnOp, q: Path)
    ensures ValueAt(LiveStep(e, op).live, q) == Live1(ValueAt(e.live, q), op, q)
  {
    match LivePart1(op)
    case None =>
    case Some(o) => if o.Single? { SingleLaw(e.live, o.op, q); } else { SubtreeLaw(e.live, o.root, q); }
  }

  lemma LiveStepUpdates(e: LiveEffect, op: TxnOp, q: Path)
    ensures EventsOn(LiveStep(e, op).out, q) == EventsOn(e.out, q) + Update1(q in e.live, op, q)
  {
    match LivePart1(op)
    case None =>
    case Some(o) =>
      EventsOnConcat(e.out, Gc.LiveEmit(e.live, o), q);
      if o.Single? { SingleLaw(e.live, o.op, q); } else { SubtreeLaw(e.live, o.root, q); }
  }

  /** The sequential commit at every path: what is live. */
  lemma {:induction false} LiveLaw(e: LiveEffect, txn: seq<TxnOp>, q: Path)
    ensures ValueAt(RunLive(e, txn).live, q) == LiveAfter(ValueAt(e.live, q), txn, q)
  {
    if txn != [] {
      LiveLaw(e, txn[..|txn| - 1], q);
      LiveStepValue(RunLive(e, txn[..|txn| - 1]), txn[|txn| - 1], q);
      LiveAfterStep(ValueAt(e.live, q), txn, q);
    }
  }

  /** The sequential commit at every path: what is reported. */
  lemma {:induction false} UpdatesLaw(e: LiveEffect, txn: seq<TxnOp>, q: Path)
    requires e.out == []
    ensures EventsOn(RunLive(e, txn).out, q) == UpdatesAt(ValueAt(e.live, q), txn, q)
  {
    if txn != [] {
      var init := txn[..|txn| - 1];
      UpdatesLaw(e, init, q);
      LiveLaw(e, init, q);
      LiveStepUpdates(RunLive(e, init), txn[|txn| - 1], q);
    }
  }

  ghost predicate Committed(before: Gc.Live, after: Gc.Live, out: seq<Event>, txn: seq<TxnOp>) {
    forall q: Path ::
      ValueAt(after, q) == LiveAfter(ValueAt(before, q), txn, q) &&
      EventsOn(out, q) == UpdatesAt(ValueAt(before, q), txn, q)
  }

  lemma ComplexCommits(e: LiveEffect, txn: seq<TxnOp>)
    requires e.out == []
    ensures Committed(e.live, RunLive(e, txn).live, RunLive(e, txn).out, txn)
  {
    forall q: Path
      ensures ValueAt(RunLive(e, txn).live, q) == LiveAfter(ValueAt(e.live, q), txn, q)
      ensures EventsOn(RunLive(e, txn).out, q) == UpdatesAt(ValueAt(e.live, q), txn, q)
    {
      LiveLaw(e, txn, q);
      UpdatesLaw(e, txn, q);
    }
  }

  ghost function Cell1(c: Option<Datum>, op: TxnOp, q: Path): Option<Datum> {
    if !Touches(op, q) then c else Some(if op.TSet? then Data(op.value) else Tombstone)
  }

  lemma CellAfterStep(c: Option<Datum>, txn: seq<TxnOp>, q: Path)
    requires txn != []
    ensures CellAfterAll(c, txn, q) == Cell1(CellAfterAll(c, txn[..|txn| - 1], q), txn[|txn| - 1], q)
  {}

  lemma CellStep(t: Tree, op: TxnOp, q: Path)
    requires IsSimple(op)
    ensures match DataPart1(op)
            case None => Cell1(Cell(t, q), op, q) == Cell(t, q)
            case Some(o) => Cell(Exec(t, o), q) == Cell1(Cell(t, q), op, q)
  {}

  lemma DataPartStep(t: Tree, txn: seq<TxnOp>)
    requires txn != []
    ensures var init := txn[..|txn| - 1];
            Store.Run(t, DataPart(txn)) ==
            match DataPart1(txn[|txn| - 1])
            case None => Store.Run(t, DataPart(init))
            case Some(o) => Exec(Store.Run(t, DataPart(init)), o)
  {
    var o := DataPart1(txn[|txn| - 1]);
    if o.Some? { Store.RunSnoc(t, DataPart(txn[..|txn| - 1]), o.value); }
  }

  /** Operations on single paths at every path: what is stored. */
  lemma {:induction false} CellLaw(t: Tree, txn: seq<TxnOp>, q: Path)
    requires AllSimple(txn)
    ensures Cell(Store.Run(t, DataPart(txn)), q) == CellAfterAll(Cell(t, q), txn, q)
  {
    if txn != [] {
      var init, last := txn[..|txn| - 1], txn[|txn| - 1];
      assert AllSimple(init) && IsSimple(last);
      CellLaw(t, init, q);
      CellStep(Store.Run(t, DataPart(init)), last, q);
      DataPartStep(t, txn);
      CellAfterStep(Cell(t, q), txn, q);
    }
  }

  ghost predicate AllSimple(txn: seq<TxnOp>) {
    forall i | 0 <= i < |txn| :: IsSimple(txn[i])
  }

  lemma LiveCellAfter(c: Option<Datum>, txn: seq<TxnOp>, q: Path)
    ensures LiveCell(CellAfterAll(c, txn, q)) == LiveAfter(LiveCell(c), txn, q)
  {}

  /** Operations on single paths at every path: what is reported. */
  lemma {:induction false} EmitLaw(t: Tree, txn: seq<TxnOp>, q: Path)
    requires AllSimple(txn)
    ensures EventsOn(Store.Out(t, DataPart(txn)), q) == UpdatesAt(LiveCell(Cell(t, q)), txn, q)
  {
    if txn != [] {
      var init, last := txn[..|txn| - 1], txn[|txn| - 1];
      assert AllSimple(init) && IsSimple(last);
      EmitLaw(t, init, q);
      CellLaw(t, init, q);
      LiveCellAfter(Cell(t, q), init, q);
      if DataPart1(last).Some? { EmitStep(t, DataPart(init), DataPart1(last).value, last, q); }
    }
  }

  lemma EmitOne(t: Tree, o: DataOp, op: TxnOp, q: Path)
    requires DataPart1(op) == Some(o)
    ensures EventsOn(Emit(t, o), q) == Update1(LiveCell(Cell(t, q)).Some?, op, q)
  {
    EventsOnEmit(t, o, q);
    if o.path == q { assert Touches(op, q); } else { assert !Touches(op, q); }
  }

  lemma EmitStep(t: Tree, ops: seq<DataOp>, o: DataOp, op: TxnOp, q: Path)
    requires DataPart1(op) == Some(o)
    ensures EventsOn(Store.Out(t, ops + [o]), q) ==
            EventsOn(Store.Out(t, ops), q) + Update1(LiveCell(Cell(Store.Run(t, ops), q)).Some?, op, q)
  {
    var mid := Store.Run(t, ops);
    var out, evs := Store.Out(t, ops), Emit(mid, o);
    assert Store.Out(t, ops + [o]) == out + evs by { Store.RunSnoc(t, ops, o); }
    EventsOnConcat(out, evs, q);
    EmitOne(mid, o, op, q);
  }

  ghost predicate CommittedCells(before: Tree, after: Tree, out: seq<Event>, txn: seq<TxnOp>) {
    forall q: Path ::
      Cell(after, q) == CellAfterAll(Cell(before, q), txn, q) &&
      EventsOn(out, q) == UpdatesAt(LiveCell(Cell(before, q)), txn, q)
  }

  lemma SimpleCommits(t: Tree, out: seq<Event>, txn: seq<TxnOp>)
    requires AllSimple(txn) && MergedData(out, Store.Out(t, DataPart(txn)), {})
    ensures CommittedCells(t, Store.Run(t, DataPart(txn)), out, txn)
  {
    forall q: Path
      ensures Cell(Store.Run(t, DataPart(txn)), q) == CellAfterAll(Cell(t, q), txn, q)
      ensures EventsOn(out, q) == UpdatesAt(LiveCell(Cell(t, q)), txn, q)
    {
      CellLaw(t, txn, q);
      EmitLaw(t, txn, q);
      assert EventsOn(out, q) == EventsOn(Store.Out(t, DataPart(txn)), q);
    }
  }

  /** The last operation of a transaction and the locks: locking or unlocking a path gives its
      state to exactly the paths below it that no deeper entry covers, anything else leaves the
      tree alone. */
  lemma LockLaw(t: LockTree.Tree, txn: seq<TxnOp>, op: TxnOp, q: Path)
    ensures var before, after := LockTree.Run(t, LockPart(txn)), LockTree.Run(t, LockPart(txn + [op]));
            match op
            case TLock(p) =>
              LockTree.Status(after, q) ==
              (if IsParent(p, q) && LockTree.DeepestAtOrAbove(before, p, q) then true
               else LockTree.Status(before, q))
            case TUnlock(p) =>
              LockTree.Status(after, q) ==
              (if IsParent(p, q) && LockTree.DeepestAtOrAbove(before, p, q) then false
               else LockTree.Status(before, q))
            case _ => after == before
  {
    PickSnoc(txn, op, LockPart1);
    match LockPart1(op)
    case None =>
    case Some(o) =>
      LockTree.RunSnoc(t, LockPart(txn), o);
      LockTree.ApplyEffect(LockTree.Run(t, LockPart(txn)), o, q);
  }

  /** The last lock or unlock of a path or of one above it. */
  ghost function LastLock(txn: seq<TxnOp>, q: Path): Option<TxnOp> {
    if txn == [] then None
    else
      var last := txn[|txn| - 1];
      if (last.TLock? || last.TUnlock?) && IsParent(last.path, q) then Some(last)
      else LastLock(txn[..|txn| - 1], q)
  }

  /** Over whole transactions: a path that is not locked or unlocked, nor any above it, is as it
      was, and one that is itself locked or unlocked last is as asked. */
  lemma {:induction false} LastLockLaw(t: LockTree.Tree, txn: seq<TxnOp>, q: Path)
    ensures var after := LockTree.Status(LockTree.Run(t, LockPart(txn)), q);
            match LastLock(txn, q)
            case None => after == LockTree.Status(t, q)
            case Some(op) => op.path == q ==> after == op.TLock?
  {
    if txn != [] {
      var init, last := txn[..|txn| - 1], txn[|txn| - 1];
      assert txn == init + [last];
      LastLockLaw(t, init, q);
      LockLaw(t, init, last, q);
      if (last.TLock? || last.TUnlock?) && last.path == q {
        var before := LockTree.Run(t, LockPart(init));
        ParentOrder(q, q, q);
        assert LockTree.DeepestAtOrAbove(before, q, q);
      }
    }
  }

  /** Exactly the locked paths are listed as locked, and the unlocked ones as unlocked. */
  lemma {:induction false} ListedLaw(txn: seq<TxnOp>, p: Path)
    ensures p in Listed(txn, true) <==> TLock(p) in txn
    ensures p in Listed(txn, false) <==> TUnlock(p) in txn
  {
    if txn != [] {
      var init, last := txn[..|txn| - 1], txn[|txn| - 1];
      assert txn == init + [last];
      ListedLaw(init, p);
      ListedSnoc(init, last, true);
      ListedSnoc(init, last, false);
    }
  }

  /** The updates a transaction hands to the container. */
  class Update {
    var data: seq<Event>
    var locked: seq<Path>
    var unlocked: seq<Path>

    constructor ()
      ensures data == [] && locked == [] && unlocked == []
    {
      data, locked, unlocked := [], [], [];
    }
  }

  class Db {
    var data: Tree
    var locked: LockTree.Tree

    constructor (data: Tree, locked: LockTree.Tree)
      ensures this.data == data && this.locked == locked
    {
      this.data, this.locked := data, locked;
    }

    method Remove(pending: Update, path: Path)
      modifies this`data, pending`data
      ensures data == Exec(old(data), DataOp.Remove(path))
      ensures pending.data == old(pending.data) + Emit(old(data), DataOp.Remove(path))
    {
      var was := Cell(data, path);
      data := data[path := Tombstone];
      match was {
        case Some(Data(_)) => pending.data := pending.data + [Event(path, Deleted)];
        case Some(Tombstone) =>
        case None =>
      }
    }

    method SetData(pending: Update, update: bool, path: Path, value: Value)
      modifies this`data, pending`data
      ensures data == Exec(old(data), DataOp.SetData(update, path, value))
      ensures pending.data == old(pending.data) + Emit(old(data), DataOp.SetData(update, path, value))
    {
      var was := Cell(data, path);
      data := data[path := Data(value)];
      var up := match was
        case None => Inserted(value)
        case Some(Data(_)) => Updated(value)
        case Some(Tombstone) => Inserted(value);
      if update {
        pending.data := pending.data + [Event(path, up)];
      }
    }

    method SetLocked(pending: Update, path: Path)
      modifies this`locked, pending`locked
      ensures locked == LockTree.Apply(old(locked), LockTree.LockOp(path, true))
      ensures pending.locked == old(pending.locked) + [path]
    {
      var inherited := LockTree.IsLocked(locked, path, true);
      if inherited {
        locked := locked - {path};
      } else {
        locked := locked[path := true];
      }
      pending.locked := pending.locked + [path];
    }

    method SetUnlocked(pending: Update, path: Path)
      modifies this`locked, pending`unlocked
      ensures locked == LockTree.Apply(old(locked), LockTree.LockOp(path, false))
      ensures pending.unlocked == old(pending.unlocked) + [path]
    {
      var inherited := LockTree.IsLocked(locked, path, true);
      if !inherited {
        locked := locked - {path};
      } else {
        locked := locked[path := false];
      }
      pending.unlocked := pending.unlocked + [path];
    }

    /** The scan of remove_subtree: the keys under path, in order. */
    method ScanSubtree(path: Path, ghost out: seq<Event>) returns (paths: seq<Path>)
      ensures Gc.SameGoal(Gc.Machine(data, Gc.Draining(paths), out),
                          Gc.Machine(data, Gc.Scanning(path, Gc.Start, []), out))
    {
      ghost var start := Gc.Machine(data, Gc.Scanning(path, Gc.Start, []), out);
      ghost var m := start;
      paths := [];
      ghost var cursor := Gc.Start;
      var rest := set k | k in data && IsPrefix(path, k);
      while rest != {}
        invariant rest == Gc.ScanRest(data, path, cursor)
        invariant m == Gc.Machine(data, Gc.Scanning(path, cursor, paths), out)
        invariant Gc.SameGoal(m, start)
      {
        ghost var l := LeastExists(rest);
        var k :| k in rest && forall j <- rest :: AtMost(k, j);
        LeastUnique(rest, k, Least(rest));
        Gc.ScanKeepsGoal(m);
        m := Gc.Progress(m);
        RestShrinks(data, path, cursor, k);
        if IsParent(path, k) {
          paths := paths + [k];
        }
        cursor := Gc.After(k);
        rest := rest - {k};
      }
      Gc.ScanKeepsGoal(m);
    }

    /** Scan the keys under path in order, then remove them one by one. Stated on live
        values: exactly the live paths below path go, reported in key order. */
    method RemoveSubtree(pending: Update, path: Path)
      modifies this`data, pending`data
      ensures Gc.LiveOf(data) == Gc.LiveExec(Gc.LiveOf(old(data)), Gc.RemoveSubtree(path))
      ensures pending.data == old(pending.data) + Gc.LiveEmit(Gc.LiveOf(old(data)), Gc.RemoveSubtree(path))
    {
      ghost var idle := Gc.Machine(data, Gc.Idle, pending.data);
      Gc.BeginSubtree(idle, path);
      ghost var start := Gc.Next(idle, Gc.Begin(Gc.RemoveSubtree(path)));
      var paths := ScanSubtree(path, pending.data);
      ghost var m := Gc.Machine(data, Gc.Draining(paths), pending.data);
      for i := 0 to |paths|
        invariant m == Gc.Machine(data, Gc.Draining(paths[i..]), pending.data)
        invariant Gc.SameGoal(m, start)
      {
        Gc.DrainKeepsGoal(m);
        m := Gc.Progress(m);
        Remove(pending, paths[i]);
      }
      Gc.DrainKeepsGoal(m);
      Gc.IdleGoal(Gc.Progress(m));
    }

    /** commit_complex: the operations one after another. */
    method CommitComplex(txn: seq<TxnOp>) returns (pending: Update)
      modifies this
      ensures fresh(pending)
      ensures Gc.LiveOf(data) == Gc.LiveRun(Gc.LiveOf(old(data)), LivePart(txn))
      ensures pending.data == Gc.LiveOut(Gc.LiveOf(old(data)), LivePart(txn))
      ensures locked == LockTree.Run(old(locked), LockPart(txn))
      ensures pending.locked == Listed(txn, true) && pending.unlocked == Listed(txn, false)
      ensures Committed(Gc.LiveOf(old(data)), Gc.LiveOf(data), pending.data, txn)
    {
      pending := new Update();
      ghost var start := LiveEffect(Gc.LiveOf(data), [], locked);
      for i := 0 to |txn|
        invariant fresh(pending)
        invariant LiveEffect(Gc.LiveOf(data), pending.data, locked) == RunLive(start, txn[..i])
        invariant pending.locked == Listed(txn[..i], true) && pending.unlocked == Listed(txn[..i], false)
      {
        assert txn[..i + 1] == txn[..i] + [txn[i]];
        RunLiveSnoc(start, txn[..i], txn[i]);
        ListedSnoc(txn[..i], txn[i], true);
        ListedSnoc(txn[..i], txn[i], false);
        ExecOp(pending, txn[i]);
      }
      assert txn[..|txn|] == txn;
      RunLiveParts(start, txn);
      RunLiveLocks(start, txn);
      ComplexCommits(start, txn);
    }

    method ExecOp(pending: Update, op: TxnOp)
      modifies this, pending
      ensures LiveEffect(Gc.LiveOf(data), pending.data, locked) ==
              LiveStep(old(LiveEffect(Gc.LiveOf(data), pending.data, locked)), op)
      ensures IsSimple(op) ==>
                Effect(data, pending.data, locked) == Step(old(Effect(data, pending.data, locked)), op)
      ensures pending.locked == old(pending.locked) + Listed1(op, true)
      ensures pending.unlocked == old(pending.unlocked) + Listed1(op, false)
    {
      ghost var was := data;
      match op {
        case TSet(u, p, v) =>
          SetData(pending, u, p, v);
          Gc.SingleOnLive(was, DataOp.SetData(u, p, v));
        case TRemove(p) =>
          Remove(pending, p);
          Gc.SingleOnLive(was, DataOp.Remove(p));
        case TLock(p) => SetLocked(pending, p);
        case TUnlock(p) => SetUnlocked(pending, p);
        case TRemoveSubtree(p) => RemoveSubtree(pending, p);
      }
    }

    /** The operations of one path's group, in their order. */
    method CommitGroup(pending: Update, ops: seq<TxnOp>, ghost start: Effect, ghost before: seq<TxnOp>)
      requires forall op <- ops :: IsSimple(op)
      requires Effect(data, pending.data, locked) == RunOps(start, before)
      requires pending.locked == Listed(before, true) && pending.unlocked == Listed(before, false)
      modifies this, pending
      ensures Effect(data, pending.data, locked) == RunOps(start, before + ops)
      ensures pending.locked == Listed(before + ops, true) && pending.unlocked == Listed(before + ops, false)
    {
      assert before + ops[..0] == before;
      for i := 0 to |ops|
        invariant Effect(data, pending.data, locked) == RunOps(start, before + ops[..i])
        invariant pending.locked == Listed(before + ops[..i], true)
        invariant pending.unlocked == Listed(before + ops[..i], false)
      {
        RunOpsNext(start, before, ops, i);
        assert before + ops[..i + 1] == (before + ops[..i]) + [ops[i]];
        ListedSnoc(before + ops[..i], ops[i], true);
        ListedSnoc(before + ops[..i], ops[i], false);
        ExecOp(pending, ops[i]);
      }
      assert ops[..|ops|] == ops;
    }

    /** One group, with a list of updates of its own. */
    method RunGroup(ops: seq<TxnOp>) returns (out: Lists)
      requires forall op <- ops :: IsSimple(op)
      modifies this
      ensures data == Store.Run(old(data), DataPart(ops)) && locked == LockTree.Run(old(locked), LockPart(ops))
      ensures out == Lists(Store.Out(old(data), DataPart(ops)), Listed(ops, true), Listed(ops, false))
    {
      var pending := new Update();
      ghost var start := Effect(data, [], locked);
      CommitGroup(pending, ops, start, []);
      assert [] + ops == ops;
      RunOpsData(start, ops);
      RunOpsLocks(start, ops);
      out := Lists(pending.data, pending.locked, pending.unlocked);
    }

    /** commit_simple: group the operations by path, run the groups in any order, and merge their
        updates in any other. The data and, per path, the updates are those of the submission
        order; so are the locks when no lock operation lies below another. */
    method CommitSimple(txn: seq<TxnOp>) returns (pending: Update, ghost exec: seq<TxnOp>, ghost list: seq<TxnOp>)
      requires forall op <- txn :: IsSimple(op)
      modifies this
      ensures fresh(pending) && IsSchedule(exec, txn) && IsSchedule(list, txn)
      ensures pending.locked == Listed(list, true) && pending.unlocked == Listed(list, false)
      ensures locked == LockTree.Run(old(locked), LockPart(exec))
      ensures data == Store.Run(old(data), DataPart(txn))
      ensures forall p: Path ::
                EventsOn(pending.data, p) == EventsOn(Store.Out(old(data), DataPart(txn)), p)
      ensures LockTree.Unnested(LockPart(txn)) ==> locked == LockTree.Run(old(locked), LockPart(txn))
      ensures CommittedCells(old(data), data, pending.data, txn)
    {
      var byPath := GroupByPath(txn);
      var outs;
      outs, exec := RunGroups(byPath, txn);
      ScheduleEffect(old(data), exec, txn);
      ScheduleLocks(txn);
      ghost var all := Store.Out(old(data), DataPart(txn));
      forall p: Path | p !in outs ensures EventsOn(all, p) == [] {
        NothingOut(old(data), txn, p);
      }
      pending, list := Merge(outs, all, txn);
      SimpleCommits(old(data), pending.data, txn);
    }

    /** background_delete_task: every key in order, a tombstone swapped against nothing. */
    method CollectTombstones()
      modifies this`data
      ensures data == Gc.Pure(old(data))
    {
      var rest := data.Keys;
      ghost var was := data;
      while rest != {}
        invariant rest <= was.Keys
        invariant forall k: Path ::
                    Cell(data, k) == if k in rest then Cell(was, k) else Cell(Gc.Pure(was), k)
      {
        ghost var l := LeastExists(rest);
        var k :| k in rest && forall j <- rest :: AtMost(k, j);
        assert Cell(data, k) == Cell(was, k);
        if data[k] == Tombstone {
          data := data - {k};
        }
        rest := rest - {k};
      }
      Store.TreeExtensional(data, Gc.Pure(was));
    }

    /** The groups in any order. */
    method RunGroups(groups: map<Path, seq<TxnOp>>, ghost txn: seq<TxnOp>)
      returns (outs: map<Path, Lists>, ghost exec: seq<TxnOp>)
      requires forall op <- txn :: IsSimple(op)
      requires forall p: Path :: p in groups <==> OpsOn(txn, p) != []
      requires forall p <- groups :: groups[p] == OpsOn(txn, p)
      modifies this
      ensures outs.Keys == groups.Keys
      ensures forall p <- outs :: IsGroup(outs[p], Store.Out(old(data), DataPart(txn)), txn, p)
      ensures Ran(old(data), old(locked), data, locked, exec, txn, {})
    {
      outs, exec := map[], [];
      ghost var t, l := data, locked;
      ghost var all := Store.Out(t, DataPart(txn));
      var rest := groups.Keys;
      RanNothing(t, l, txn, rest);
      while rest != {}
        invariant rest <= groups.Keys && outs.Keys == groups.Keys - rest
        invariant Ran(t, l, data, locked, exec, txn, rest)
        invariant forall p <- outs :: IsGroup(outs[p], all, txn, p)
      {
        var q :| q in rest;
        OpsOnMembers(txn, q);
        RanAdd(t, l, data, locked, exec, txn, rest, q);
        var out := RunGroup(groups[q]);
        assert IsGroup(out, all, txn, q);
        outs := outs[q := out];
        exec := exec + groups[q];
        rest := rest - {q};
      }
    }
  }

  /** The state after the groups of all paths but the rest, run as exec. */
  ghost predicate Ran(
    t: Tree, l: LockTree.Tree, data: Tree, locked: LockTree.Tree, exec: seq<TxnOp>, txn: seq<TxnOp>, rest: set<Path>
  ) {
    && DoneExcept(exec, txn, rest)
    && data == Store.Run(t, DataPart(exec)) && locked == LockTree.Run(l, LockPart(exec))
  }

  lemma RanNothing(t: Tree, l: LockTree.Tree, txn: seq<TxnOp>, rest: set<Path>)
    requires forall p: Path :: p in rest <==> OpsOn(txn, p) != []
    ensures Ran(t, l, t, l, [], txn, rest)
  {}

  lemma RanAdd(
    t: Tree, l: LockTree.Tree, data: Tree, locked: LockTree.Tree, exec: seq<TxnOp>, txn: seq<TxnOp>, rest: set<Path>,
    q: Path
  )
    requires Ran(t, l, data, locked, exec, txn, rest) && q in rest
    ensures var g := OpsOn(txn, q);
            && Ran(t, l, Store.Run(data, DataPart(g)), LockTree.Run(locked, LockPart(g)), exec + g, txn, rest - {q})
            && IsGroup(Lists(Store.Out(data, DataPart(g)), Listed(g, true), Listed(g, false)),
                       Store.Out(t, DataPart(txn)), txn, q)
  {
    var g := OpsOn(txn, q);
    GroupOuts(t, exec, txn, rest, q);
    PartsConcat(exec, g);
    Store.RunConcat(t, DataPart(exec), DataPart(g));
    LockTree.RunConcat(l, LockPart(exec), LockPart(g));
    AddGroup(exec, txn, rest, q);
  }

  /** What a thread hands over for one group. */
  datatype Lists = Lists(data: seq<Event>, locked: seq<Path>, unlocked: seq<Path>)

  /** The lists of a path's group, when all are the updates of the submission order. */
  ghost predicate IsGroup(out: Lists, all: seq<Event>, txn: seq<TxnOp>, p: Path) {
    && out.locked == Listed(OpsOn(txn, p), true) && out.unlocked == Listed(OpsOn(txn, p), false)
    && forall q: Path :: EventsOn(out.data, q) == if q == p then EventsOn(all, p) else []
  }

  /** The updates of all paths but the rest, in the order of list. */
  ghost predicate Merged(m: Lists, list: seq<TxnOp>, all: seq<Event>, txn: seq<TxnOp>, rest: set<Path>) {
    && DoneExcept(list, txn, rest)
    && m.locked == Listed(list, true) && m.unlocked == Listed(list, false)
    && MergedData(m.data, all, rest)
  }

  ghost predicate MergedData(data: seq<Event>, all: seq<Event>, rest: set<Path>) {
    forall p: Path :: EventsOn(data, p) == if p in rest then [] else EventsOn(all, p)
  }

  function Merge2(a: Lists, b: Lists): Lists {
    Lists(a.data + b.data, a.locked + b.locked, a.unlocked + b.unlocked)
  }

  lemma MergedDataAdd(data: seq<Event>, more: seq<Event>, all: seq<Event>, rest: set<Path>, q: Path)
    requires MergedData(data, all, rest) && q in rest
    requires forall p: Path :: EventsOn(more, p) == if p == q then EventsOn(all, q) else []
    ensures MergedData(data + more, all, rest - {q})
  {
    forall p: Path ensures EventsOn(data + more, p) == if p in rest - {q} then [] else EventsOn(all, p) {
      EventsOnConcat(data, more, p);
    }
  }

  lemma MergedAdd(m: Lists, list: seq<TxnOp>, all: seq<Event>, txn: seq<TxnOp>, rest: set<Path>, q: Path, out: Lists)
    requires Merged(m, list, all, txn, rest) && q in rest && IsGroup(out, all, txn, q)
    ensures Merged(Merge2(m, out), list + OpsOn(txn, q), all, txn, rest - {q})
  {
    AddGroup(list, txn, rest, q);
    ListedConcat(list, OpsOn(txn, q), true);
    ListedConcat(list, OpsOn(txn, q), false);
    MergedDataAdd(m.data, out.data, all, rest, q);
  }

  /** Merging the groups' updates in any order. */
  method Merge(groups: map<Path, Lists>, ghost all: seq<Event>, ghost txn: seq<TxnOp>)
    returns (pending: Update, ghost list: seq<TxnOp>)
    requires forall p: Path :: p in groups <==> OpsOn(txn, p) != []
    requires forall p: Path | p !in groups :: EventsOn(all, p) == []
    requires forall p <- groups :: IsGroup(groups[p], all, txn, p)
    ensures fresh(pending) && IsSchedule(list, txn)
    ensures pending.locked == Listed(list, true) && pending.unlocked == Listed(list, false)
    ensures MergedData(pending.data, all, {})
  {
    var m := Lists([], [], []);
    list := [];
    var rest := groups.Keys;
    while rest != {}
      invariant rest <= groups.Keys && Merged(m, list, all, txn, rest)
    {
      var q :| q in rest;
      MergedAdd(m, list, all, txn, rest, q, groups[q]);
      m := Merge2(m, groups[q]);
      list := list + OpsOn(txn, q);
      rest := rest - {q};
    }
    pending := new Update();
    pending.data, pending.locked, pending.unlocked := m.data, m.locked, m.unlocked;
  }

  lemma NothingOut(t: Tree, txn: seq<TxnOp>, p: Path)
    requires OpsOn(txn, p) == []
    ensures EventsOn(Store.Out(t, DataPart(txn)), p) == []
  {
    EventsAtPath(t, DataPart(txn), p);
    DataPartOn(txn, p);
  }

  lemma ListedConcat(a: seq<TxnOp>, b: seq<TxnOp>, lock: bool)
    ensures Listed(a + b, lock) == Listed(a, lock) + Listed(b, lock)
  {
    PartsConcat(a, b);
    LockTree.PathsOfConcat(LockPart(a), LockPart(b), lock);
  }

  lemma {:induction false} PickConcat<T>(a: seq<TxnOp>, b: seq<TxnOp>, part: TxnOp -> Option<T>)
    ensures Pick(a + b, part) == Pick(a, part) + Pick(b, part)
  {
    if b == [] {
      assert a + b == a;
    } else {
      assert (a + b)[..|a + b| - 1] == a + b[..|b| - 1];
      PickConcat(a, b[..|b| - 1], part);
    }
  }

  lemma PartsConcat(a: seq<TxnOp>, b: seq<TxnOp>)
    ensures DataPart(a + b) == DataPart(a) + DataPart(b) && LockPart(a + b) == LockPart(a) + LockPart(b)
  {
    PickConcat(a, b, DataPart1);
    PickConcat(a, b, LockPart1);
  }

  /** A group that runs when none of its path's operations have run emits what the submission
      order emits for that path, and nothing else. */
  lemma GroupOuts(t: Tree, exec: seq<TxnOp>, txn: seq<TxnOp>, rest: set<Path>, q: Path)
    requires DoneExcept(exec, txn, rest) && q in rest
    ensures var g := OpsOn(txn, q);
            IsGroup(Lists(Store.Out(Store.Run(t, DataPart(exec)), DataPart(g)), Listed(g, true), Listed(g, false)),
                    Store.Out(t, DataPart(txn)), txn, q)
  {
    var g := OpsOn(txn, q);
    var d := Store.Run(t, DataPart(exec));
    forall p: Path
      ensures EventsOn(Store.Out(d, DataPart(g)), p) ==
              if p == q then EventsOn(Store.Out(t, DataPart(txn)), q) else []
    {
      EventsAtPath(d, DataPart(g), p);
      DataPartOn(g, p);
      OpsOnOpsOn(txn, q, p);
      if p == q {
        CellAtPath(t, DataPart(exec), q);
        DataPartOn(exec, q);
        EventsAtPath(t, DataPart(txn), q);
        DataPartOn(txn, q);
      }
    }
  }

  ghost predicate DoneExcept(sched: seq<TxnOp>, txn: seq<TxnOp>, rest: set<Path>) {
    forall p: Path :: OpsOn(sched, p) == if p in rest then [] else OpsOn(txn, p)
  }

  lemma AddGroup(sched: seq<TxnOp>, txn: seq<TxnOp>, rest: set<Path>, q: Path)
    requires DoneExcept(sched, txn, rest) && q in rest
    ensures DoneExcept(sched + OpsOn(txn, q), txn, rest - {q})
  {
    forall p: Path ensures OpsOn(sched + OpsOn(txn, q), p) == if p in rest - {q} then [] else OpsOn(txn, p) {
      GroupOn(sched, txn, q, p);
      assert OpsOn(sched, p) == if p in rest then [] else OpsOn(txn, p);
    }
  }

  /** Any schedule has the data and the updates per path of the submission order. */
  lemma ScheduleEffect(t: Tree, sched: seq<TxnOp>, txn: seq<TxnOp>)
    requires IsSchedule(sched, txn)
    ensures Store.Run(t, DataPart(sched)) == Store.Run(t, DataPart(txn))
    ensures forall p: Path ::
              EventsOn(Store.Out(t, DataPart(sched)), p) == EventsOn(Store.Out(t, DataPart(txn)), p)
  {
    ScheduleParts(sched, txn);
    ParallelCommitSerializable(t, DataPart(sched), DataPart(txn));
  }

  /** The locks are those of the submission order, in any schedule of operations and in any
      interleaving of their scans and edits, exactly when none lies below another. */
  lemma ScheduleLocks(txn: seq<TxnOp>)
    ensures LockTree.Unnested(LockPart(txn)) <==> LockTree.SplitIndependent(LockPart(txn))
    ensures LockTree.Unnested(LockPart(txn)) ==>
              forall l: LockTree.Tree, sched: seq<TxnOp> | IsSchedule(sched, txn) ::
                LockTree.Run(l, LockPart(sched)) == LockTree.Run(l, LockPart(txn))
  {
    LockTree.SplitIndependentIffUnnested(LockPart(txn));
    if LockTree.Unnested(LockPart(txn)) {
      forall l: LockTree.Tree, sched: seq<TxnOp> | IsSchedule(sched, txn)
        ensures LockTree.Run(l, LockPart(sched)) == LockTree.Run(l, LockPart(txn))
      {
        ScheduleParts(sched, txn);
        LockTree.UnnestedSuffices(l, LockPart(sched), LockPart(txn));
      }
    }
  }

  /** Each path's operations in submission order. */
  method GroupByPath(txn: seq<TxnOp>) returns (byPath: map<Path, seq<TxnOp>>)
    ensures forall p: Path :: p in byPath <==> OpsOn(txn, p) != []
    ensures forall p <- byPath :: byPath[p] == OpsOn(txn, p)
  {
    byPath := map[];
    for i := 0 to |txn|
      invariant forall p: Path :: p in byPath <==> OpsOn(txn[..i], p) != []
      invariant forall p <- byPath :: byPath[p] == OpsOn(txn[..i], p)
    {
      var op := txn[i];
      assert txn[..i + 1] == txn[..i] + [op];
      forall p: Path
        ensures OpsOn(txn[..i + 1], p) == if op.path == p then OpsOn(txn[..i], p) + [op] else OpsOn(txn[..i], p)
      {
        OpsOnSnoc(txn[..i], op, p);
      }
      byPath := byPath[op.path := (if op.path in byPath then byPath[op.path] else []) + [op]];
    }
    assert txn[..|txn|] == txn;
  }

  lemma {:induction false} OpsOnMembers(ops: seq<TxnOp>, p: Path)
    ensures forall op <- OpsOn(ops, p) :: op in ops
  {
    if ops != [] { OpsOnMembers(ops[..|ops| - 1], p); }
  }

  lemma {:induction false} OpsOnConcat(a: seq<TxnOp>, b: seq<TxnOp>, p: Path)
    ensures OpsOn(a + b, p) == OpsOn(a, p) + OpsOn(b, p)
  {
    if b == [] {
      assert a + b == a;
    } else {
      assert (a + b)[..|a + b| - 1] == a + b[..|b| - 1];
      OpsOnConcat(a, b[..|b| - 1], p);
    }
  }

  lemma {:induction false} OpsOnOpsOn(ops: seq<TxnOp>, q: Path, p: Path)
    ensures OpsOn(OpsOn(ops, q), p) == if p == q then OpsOn(ops, q) else []
  {
    if ops != [] {
      OpsOnOpsOn(ops[..|ops| - 1], q, p);
      if ops[|ops| - 1].path == q { OpsOnSnoc(OpsOn(ops[..|ops| - 1], q), ops[|ops| - 1], p); }
    }
  }

  lemma GroupOn(sched: seq<TxnOp>, txn: seq<TxnOp>, q: Path, p: Path)
    ensures OpsOn(sched + OpsOn(txn, q), p) == OpsOn(sched, p) + if p == q then OpsOn(txn, q) else []
  {
    OpsOnConcat(sched, OpsOn(txn, q), p);
    OpsOnOpsOn(txn, q, p);
  }

  lemma RestShrinks(t: Tree, root: Path, cursor: Gc.Cursor, k: Key)
    requires IsLeast(Gc.ScanRest(t, root, cursor), k)
    ensures Gc.ScanRest(t, root, Gc.After(k)) == Gc.ScanRest(t, root, cursor) - {k}
  {
    forall p: Key
      ensures p in Gc.ScanRest(t, root, Gc.After(k)) <==> p in Gc.ScanRest(t, root, cursor) && p != k
    {
      LessIrreflexive(k);
      if Less(k, p) && cursor.After? { LessTransitive(cursor.key, k, p); }
      if p in Gc.ScanRest(t, root, cursor) { assert AtMost(k, p); }
    }
  }
}
