/** The lock tree of the container, after netidx-container/src/db.rs and the mirror of
    its scan in netidx-container/src/lib.rs. An entry locks or unlocks a subtree; a path
    without an entry inherits from its deepest stored ancestor. */
module LockTree {
  import opened Bytes
  import opened Paths

  type Tree = map<Path, bool>

  /** The state given by the deepest stored ancestor of p of length at most n. */
  ghost function StatusAt(t: Tree, p: Path, n: nat): bool
    requires n <= |p|
  {
    if n == 0 then false
    else if IsParent(p[..n], p) && p[..n] in t then t[p[..n]]
    else StatusAt(t, p, n - 1)
  }

  ghost function Status(t: Tree, p: Path): bool {
    StatusAt(t, p, |p|)
  }

  /** The state p would have without an entry of its own. */
  ghost function Inherited(t: Tree, p: Path): bool {
    StatusAt(t, p, |p| - 1)
  }

  ghost predicate StrictParent(a: Path, p: Path) {
    IsParent(a, p) && a != p
  }

  lemma AncestorPrefix(a: Path, p: Path)
    requires IsParent(a, p)
    ensures |a| <= |p| && p[..|a|] == a
    ensures |a| == |p| ==> a == p
  {}

  lemma {:induction false} StatusAtDeepest(t: Tree, p: Path, n: nat, a: Path)
    requires n <= |p| && a in t && IsParent(a, p) && |a| <= n
    requires forall b <- t :: IsParent(b, p) && |b| <= n ==> |b| <= |a|
    ensures StatusAt(t, p, n) == t[a]
  {
    AncestorPrefix(a, p);
    if n != |a| {
      StatusAtDeepest(t, p, n - 1, a);
    }
  }

  lemma {:induction false} StatusAtNone(t: Tree, p: Path, n: nat)
    requires n <= |p|
    requires forall b <- t :: IsParent(b, p) ==> |b| > n
    ensures !StatusAt(t, p, n)
  {
    if n > 0 {
      StatusAtNone(t, p, n - 1);
    }
  }

  /** The scan of is_locked: from the largest key in range downwards to the first ancestor. */
  method IsLocked(locked: Tree, path: Path, parentOnly: bool) returns (r: bool)
    ensures r == if parentOnly then Inherited(locked, path) else Status(locked, path)
  {
    ghost var n := if parentOnly then |path| - 1 else |path|;
    var rest := set k | k in locked && (Less(k, path) || (!parentOnly && k == path));
    forall b | b in locked && IsParent(b, path) && |b| <= n ensures b in rest {
      if b != path { PrefixLess(b, path); }
    }
    LessIrreflexive(path);
    while rest != {}
      invariant rest <= locked.Keys
      invariant forall b <- rest :: b == path ==> !parentOnly
      invariant forall b <- locked :: IsParent(b, path) && |b| <= n ==> b in rest
    {
      ghost var g := GreatestExists(rest);
      var k :| k in rest && forall j <- rest :: AtMost(j, k);
      if IsParent(k, path) {
        forall b | b in locked && IsParent(b, path) && |b| <= n ensures |b| <= |k| {
          LongerIsGreater(k, b, path);
        }
        StatusAtDeepest(locked, path, n, k);
        return locked[k];
      }
      rest := rest - {k};
    }
    StatusAtNone(locked, path, n);
    return false;
  }

  /** Of two ancestors of a path, the deeper sorts later. */
  lemma LongerIsGreater(a: Path, b: Path, p: Path)
    requires IsParent(a, p) && IsParent(b, p) && AtMost(b, a)
    ensures |b| <= |a|
  {
    if |a| < |b| {
      assert p[..|b|][..|a|] == p[..|a|];
      PrefixLess(a, b);
      LessTransitive(a, b, a);
      LessIrreflexive(a);
    }
  }

  datatype LockOp = LockOp(path: Path, lock: bool)

  /** set_locked and set_unlocked: an entry that only repeats what is inherited is dropped. */
  ghost function Apply(t: Tree, op: LockOp): Tree {
    if Inherited(t, op.path) == op.lock then t - {op.path} else t[op.path := op.lock]
  }

  ghost function Entry(t: Tree, p: Path): Option<bool> {
    if p in t then Some(t[p]) else None
  }

  lemma {:induction false} StatusFrame(t: Tree, t': Tree, p: Path, n: nat)
    requires n <= |p|
    requires forall a: Path :: IsParent(a, p) && |a| <= n ==> Entry(t, a) == Entry(t', a)
    ensures StatusAt(t, p, n) == StatusAt(t', p, n)
  {
    if n > 0 {
      if IsParent(p[..n], p) {
        var a: Path := p[..n];
        assert Entry(t, a) == Entry(t', a);
      }
      StatusFrame(t, t', p, n - 1);
    }
  }

  lemma {:induction false} StatusSkip(t: Tree, p: Path, n: nat, m: nat)
    requires m <= n <= |p|
    requires forall a <- t :: IsParent(a, p) && |a| <= n ==> |a| <= m
    ensures StatusAt(t, p, n) == StatusAt(t, p, m)
  {
    if m < n { StatusSkip(t, p, n - 1, m); }
  }

  /** Below p and up to its length, a descendant of p sees what p sees. */
  lemma {:induction false} StatusShared(t: Tree, p: Path, q: Path, n: nat)
    requires IsParent(p, q) && n <= |p| <= |q|
    ensures StatusAt(t, q, n) == StatusAt(t, p, n)
  {
    if n > 0 {
      StatusShared(t, p, q, n - 1);
      AncestorPrefix(p, q);
      assert p[..|p|] == p;
      assert q[..|p|][..n] == q[..n];
      if n < |p| { assert q[..|p|][n] == q[n]; }
    }
  }

  /** The deepest stored ancestor of q, if any, is p or lies above p. */
  ghost predicate DeepestAtOrAbove(t: Tree, p: Path, q: Path) {
    forall a <- t :: IsParent(a, q) ==> IsParent(a, p)
  }

  lemma ApplyInherited(t: Tree, op: LockOp)
    ensures Inherited(Apply(t, op), op.path) == Inherited(t, op.path)
    ensures Status(Apply(t, op), op.path) == op.lock
  {
    StatusFrame(t, Apply(t, op), op.path, |op.path| - 1);
    assert op.path[..|op.path|] == op.path;
  }

  /** What locking or unlocking p does to every path q: within p's subtree, exactly the
      paths not covered by a deeper entry take the new state, whether or not the entry
      was dropped as inherited; every other path keeps its state. */
  lemma ApplyEffect(t: Tree, op: LockOp, q: Path)
    ensures Status(Apply(t, op), q) ==
            if IsParent(op.path, q) && DeepestAtOrAbove(t, op.path, q) then op.lock else Status(t, q)
  {
    var p, t' := op.path, Apply(t, op);
    if !IsParent(p, q) {
      StatusFrame(t, t', q, |q|);
    } else if DeepestAtOrAbove(t, p, q) {
      ApplyInherited(t, op);
      StatusShared(t', p, q, |p|);
      StatusSkip(t', q, |q|, |p|);
    } else {
      ApplyCovered(t, op, q);
    }
  }

  lemma ApplyCovered(t: Tree, op: LockOp, q: Path)
    requires IsParent(op.path, q) && !DeepestAtOrAbove(t, op.path, q)
    ensures Status(Apply(t, op), q) == Status(t, q)
  {
    var p, t' := op.path, Apply(t, op);
    var a :| a in t && IsParent(a, q) && !IsParent(a, p);
    var d := DeepestExists(t, q, a);
    ParentOrder(a, d, q);
    ParentOrder(d, p, q);
    ParentOrder(p, a, q);
    assert |p| < |a| <= |d|;
    assert d in t' && t'[d] == t[d];
    StatusAtDeepest(t, q, |q|, d);
    StatusAtDeepest(t', q, |q|, d);
  }

  lemma {:induction false} DeepestExists(t: Tree, q: Path, a: Path) returns (d: Path)
    requires a in t && IsParent(a, q)
    ensures d in t && IsParent(d, q) && |a| <= |d|
    ensures forall b <- t :: IsParent(b, q) ==> |b| <= |d|
    decreases |q| - |a|
  {
    if b :| b in t && IsParent(b, q) && |b| > |a| {
      d := DeepestExists(t, q, b);
    } else {
      d := a;
    }
  }

  // ----- several operations, in any order that keeps each path's own order -----

  ghost function Run(t: Tree, ops: seq<LockOp>): Tree {
    if ops == [] then t else Apply(Run(t, ops[..|ops| - 1]), ops[|ops| - 1])
  }

  ghost function On(ops: seq<LockOp>, p: Path): seq<LockOp> {
    if ops == [] then []
    else if ops[|ops| - 1].path == p then On(ops[..|ops| - 1], p) + [ops[|ops| - 1]]
    else On(ops[..|ops| - 1], p)
  }

  ghost function Without(ops: seq<LockOp>, p: Path): seq<LockOp> {
    if ops == [] then []
    else if ops[|ops| - 1].path == p then Without(ops[..|ops| - 1], p)
    else Without(ops[..|ops| - 1], p) + [ops[|ops| - 1]]
  }

  /** sched is an interleaving of the per-path groups of ops. */
  ghost predicate SamePerPath(sched: seq<LockOp>, ops: seq<LockOp>) {
    forall p: Path :: On(sched, p) == On(ops, p)
  }

  /** A tree that lock operations can lead to. */
  ghost predicate Reachable(t: Tree) {
    exists past: seq<LockOp> :: t == Run(map[], past)
  }

  ghost predicate ScheduleIndependent(ops: seq<LockOp>) {
    forall t: Tree, sched: seq<LockOp> ::
      Reachable(t) && SamePerPath(sched, ops) ==> Run(t, sched) == Run(t, ops)
  }

  /** No operation's path lies strictly below another's. */
  ghost predicate Unnested(ops: seq<LockOp>) {
    forall i, j :: 0 <= i < |ops| && 0 <= j < |ops| ==> !StrictParent(ops[i].path, ops[j].path)
  }

  lemma {:induction false} OnAll(ops: seq<LockOp>, p: Path)
    ensures forall op <- On(ops, p) :: op.path == p && op in ops
    ensures On(ops, p) == [] <==> forall op <- ops :: op.path != p
  {
    if ops != [] {
      OnAll(ops[..|ops| - 1], p);
      assert ops == ops[..|ops| - 1] + [ops[|ops| - 1]];
    }
  }

  lemma {:induction false} WithoutAll(ops: seq<LockOp>, p: Path)
    ensures forall op :: op in Without(ops, p) <==> op in ops && op.path != p
  {
    if ops != [] {
      WithoutAll(ops[..|ops| - 1], p);
      assert ops == ops[..|ops| - 1] + [ops[|ops| - 1]];
    }
  }

  lemma {:induction false} OnConcat(a: seq<LockOp>, b: seq<LockOp>, p: Path)
    ensures On(a + b, p) == On(a, p) + On(b, p)
  {
    if b == [] {
      assert a + b == a;
    } else {
      assert (a + b)[..|a + b| - 1] == a + b[..|b| - 1];
      OnConcat(a, b[..|b| - 1], p);
    }
  }

  lemma OnSnoc(ops: seq<LockOp>, op: LockOp, p: Path)
    ensures On(ops + [op], p) == if op.path == p then On(ops, p) + [op] else On(ops, p)
  {
    assert (ops + [op])[..|ops|] == ops;
  }

  lemma RunSnoc(t: Tree, ops: seq<LockOp>, op: LockOp)
    ensures Run(t, ops + [op]) == Apply(Run(t, ops), op)
  {
    assert (ops + [op])[..|ops|] == ops;
  }

  lemma {:induction false} OnOn(ops: seq<LockOp>, q: Path, p: Path)
    ensures On(On(ops, q), p) == if p == q then On(ops, q) else []
  {
    if ops != [] {
      var last := ops[|ops| - 1];
      OnOn(ops[..|ops| - 1], q, p);
      OnConcat(On(ops[..|ops| - 1], q), if last.path == q then [last] else [], p);
    }
  }

  lemma {:induction false} OnWithout(ops: seq<LockOp>, q: Path, p: Path)
    ensures On(Without(ops, q), p) == if p == q then [] else On(ops, p)
  {
    if ops != [] {
      var last := ops[|ops| - 1];
      OnWithout(ops[..|ops| - 1], q, p);
      OnConcat(Without(ops[..|ops| - 1], q), if last.path == q then [] else [last], p);
    }
  }

  lemma {:induction false} RunConcat(t: Tree, a: seq<LockOp>, b: seq<LockOp>)
    ensures Run(t, a + b) == Run(Run(t, a), b)
  {
    if b == [] {
      assert a + b == a;
    } else {
      assert (a + b)[..|a + b| - 1] == a + b[..|b| - 1];
      RunConcat(t, a, b[..|b| - 1]);
    }
  }

  lemma {:induction false} RunUntouched(t: Tree, ops: seq<LockOp>, p: Path)
    requires forall op <- ops :: op.path != p
    ensures Entry(Run(t, ops), p) == Entry(t, p)
  {
    if ops != [] { RunUntouched(t, ops[..|ops| - 1], p); }
  }

  lemma RunInherited(t: Tree, ops: seq<LockOp>, p: Path)
    requires forall op <- ops :: !StrictParent(op.path, p)
    ensures Inherited(Run(t, ops), p) == Inherited(t, p)
  {
    forall a: Path | IsParent(a, p) && |a| <= |p| - 1 ensures Entry(Run(t, ops), a) == Entry(t, a) {
      RunUntouched(t, ops, a);
    }
    StatusFrame(Run(t, ops), t, p, |p| - 1);
  }

  ghost function Settled(inherited: bool, lock: bool): Option<bool> {
    if inherited == lock then None else Some(lock)
  }

  /** With its ancestors left alone, a path's entry is decided by its last operation. */
  lemma {:induction false} LastDecides(t: Tree, ops: seq<LockOp>, p: Path)
    requires forall op <- ops :: !StrictParent(op.path, p)
    requires On(ops, p) != []
    ensures Entry(Run(t, ops), p) == Settled(Inherited(t, p), On(ops, p)[|On(ops, p)| - 1].lock)
  {
    var init, last := ops[..|ops| - 1], ops[|ops| - 1];
    RunInherited(t, init, p);
    if last.path != p {
      LastDecides(t, init, p);
    }
  }

  lemma TreeExtensional(t: Tree, t': Tree)
    requires forall p: Path :: Entry(t, p) == Entry(t', p)
    ensures t == t'
  {
    forall p: Path ensures p in t <==> p in t' {
      assert Entry(t, p) == Entry(t', p);
    }
    forall p | p in t ensures t[p] == t'[p] {
      assert Entry(t, p) == Entry(t', p);
    }
  }

  lemma SameParents(sched: seq<LockOp>, ops: seq<LockOp>, p: Path)
    requires Unnested(ops) && SamePerPath(sched, ops) && On(ops, p) != []
    ensures forall op <- sched :: !StrictParent(op.path, p)
    ensures forall op <- ops :: !StrictParent(op.path, p)
  {
    OnAll(ops, p);
    var o := On(ops, p)[0];
    assert o in ops && o.path == p;
    forall op | op in sched ensures !StrictParent(op.path, p) {
      OnAll(sched, op.path);
      assert On(sched, op.path) == On(ops, op.path);
      OnAll(ops, op.path);
    }
  }

  lemma UnnestedEntry(t: Tree, sched: seq<LockOp>, ops: seq<LockOp>, p: Path)
    requires Unnested(ops) && SamePerPath(sched, ops)
    ensures Entry(Run(t, sched), p) == Entry(Run(t, ops), p)
  {
    assert On(sched, p) == On(ops, p);
    if On(ops, p) == [] {
      OnAll(ops, p);
      OnAll(sched, p);
      RunUntouched(t, ops, p);
      RunUntouched(t, sched, p);
    } else {
      SameParents(sched, ops, p);
      LastDecides(t, ops, p);
      LastDecides(t, sched, p);
    }
  }

  lemma UnnestedSuffices(t: Tree, sched: seq<LockOp>, ops: seq<LockOp>)
    requires Unnested(ops) && SamePerPath(sched, ops)
    ensures Run(t, sched) == Run(t, ops)
  {
    forall p: Path ensures Entry(Run(t, sched), p) == Entry(Run(t, ops), p) {
      UnnestedEntry(t, sched, ops, p);
    }
    TreeExtensional(Run(t, sched), Run(t, ops));
  }

  /** A nested pair of operation paths with no operation path strictly between them. */
  lemma {:induction false} AdjacentPair(ops: seq<LockOp>, p: Path, q: Path) returns (p': Path, q': Path)
    requires StrictParent(p, q) && On(ops, p) != [] && On(ops, q) != []
    ensures StrictParent(p', q') && On(ops, p') != [] && On(ops, q') != []
    ensures forall op <- ops :: !(StrictParent(p', op.path) && StrictParent(op.path, q'))
    decreases |q| - |p|
  {
    if op :| op in ops && StrictParent(p, op.path) && StrictParent(op.path, q) {
      AncestorPrefix(p, op.path);
      AncestorPrefix(op.path, q);
      OnAll(ops, op.path);
      p', q' := AdjacentPair(ops, p, op.path);
    } else {
      p', q' := p, q;
    }
  }

  /** Run q's group before everything else: q then sees the initial tree. */
  ghost function EarlySchedule(ops: seq<LockOp>, q: Path): seq<LockOp> {
    On(ops, q) + Without(ops, q)
  }

  /** Run q's group last, right after p's. */
  ghost function LateSchedule(ops: seq<LockOp>, p: Path, q: Path): seq<LockOp> {
    Without(Without(ops, p), q) + On(ops, p) + On(ops, q)
  }

  lemma EarlyInterleaves(ops: seq<LockOp>, q: Path)
    ensures SamePerPath(EarlySchedule(ops, q), ops)
  {
    forall r: Path ensures On(EarlySchedule(ops, q), r) == On(ops, r) {
      OnConcat(On(ops, q), Without(ops, q), r);
      OnOn(ops, q, r);
      OnWithout(ops, q, r);
    }
  }

  lemma LateInterleaves(ops: seq<LockOp>, p: Path, q: Path)
    requires p != q
    ensures SamePerPath(LateSchedule(ops, p, q), ops)
  {
    var others := Without(Without(ops, p), q);
    forall r: Path ensures On(LateSchedule(ops, p, q), r) == On(ops, r) {
      OnConcat(others + On(ops, p), On(ops, q), r);
      OnConcat(others, On(ops, p), r);
      OnOn(ops, q, r);
      OnOn(ops, p, r);
      OnWithout(ops, p, r);
      OnWithout(Without(ops, p), q, r);
      assert On(others, r) == if r == p || r == q then [] else On(ops, r);
    }
  }

  lemma OnSelf(ops: seq<LockOp>, q: Path)
    ensures On(On(ops, q), q) == On(ops, q)
  {
    OnOn(ops, q, q);
  }

  lemma EarlyEntry(t: Tree, ops: seq<LockOp>, q: Path)
    requires On(ops, q) != []
    ensures Entry(Run(t, EarlySchedule(ops, q)), q)
            == Settled(Inherited(t, q), On(ops, q)[|On(ops, q)| - 1].lock)
  {
    RunConcat(t, On(ops, q), Without(ops, q));
    OnAll(ops, q);
    OnSelf(ops, q);
    LastDecides(t, On(ops, q), q);
    WithoutAll(ops, q);
    RunUntouched(Run(t, On(ops, q)), Without(ops, q), q);
  }

  /** After p's group and with nothing stored between, q inherits p's last state. */
  lemma InheritsFrom(t: Tree, ops: seq<LockOp>, p: Path, q: Path)
    requires StrictParent(p, q) && On(ops, p) != []
    requires forall a <- t :: !(StrictParent(p, a) && StrictParent(a, q))
    ensures Inherited(Run(t, On(ops, p)), q) == On(ops, p)[|On(ops, p)| - 1].lock
  {
    var g := On(ops, p);
    var t' := Run(t, g);
    OnAll(ops, p);
    ApplyInherited(Run(t, g[..|g| - 1]), g[|g| - 1]);
    AncestorPrefix(p, q);
    forall a | a in t' && IsParent(a, q) && |a| <= |q| - 1 ensures |a| <= |p| {
      if |a| > |p| {
        RunUntouched(t, g, a);
        ParentOrder(p, a, q);
      }
    }
    StatusSkip(t', q, |q| - 1, |p|);
    StatusShared(t', p, q, |p|);
  }

  lemma LateEntry(t: Tree, ops: seq<LockOp>, p: Path, q: Path)
    requires StrictParent(p, q) && On(ops, p) != [] && On(ops, q) != []
    requires forall op <- ops :: !(StrictParent(p, op.path) && StrictParent(op.path, q))
    requires forall a <- t :: a == ROOT
    ensures Entry(Run(t, LateSchedule(ops, p, q)), q)
            == Settled(On(ops, p)[|On(ops, p)| - 1].lock, On(ops, q)[|On(ops, q)| - 1].lock)
  {
    var others := Without(Without(ops, p), q);
    var t1 := Run(t, others);
    RunConcat(t, others + On(ops, p), On(ops, q));
    RunConcat(t, others, On(ops, p));
    WithoutAll(ops, p);
    WithoutAll(Without(ops, p), q);
    forall a | a in t1 ensures !(StrictParent(p, a) && StrictParent(a, q)) {
      if StrictParent(p, a) && StrictParent(a, q) {
        ParentOrder(p, ROOT, ROOT);
        assert a != ROOT;
        assert forall op <- others :: op in ops && op.path != a;
        RunUntouched(t, others, a);
      }
    }
    InheritsFrom(t1, ops, p, q);
    OnAll(ops, q);
    OnSelf(ops, q);
    LastDecides(Run(t1, On(ops, p)), On(ops, q), q);
  }

  /** A reachable tree that gives every path below the root the given state. */
  ghost function Everywhere(lock: bool): Tree {
    if lock then map[ROOT := true] else map[]
  }

  lemma EverywhereReachable(lock: bool)
    ensures Reachable(Everywhere(lock))
  {
    if lock {
      var past := [LockOp(ROOT, true)];
      assert past[..0] == [];
      assert Run(map[], past) == Apply(map[], past[0]);
      assert !Inherited(map[], ROOT);
      assert Everywhere(lock) == Run(map[], past);
    } else {
      assert Everywhere(lock) == Run(map[], []);
    }
  }

  lemma InheritsEverywhere(lock: bool, p: Path, q: Path)
    requires StrictParent(p, q)
    ensures Inherited(Everywhere(lock), q) == lock
    ensures forall a <- Everywhere(lock) :: a == ROOT
  {
    AncestorPrefix(p, q);
    if lock {
      StatusAtDeepest(Everywhere(lock), q, |q| - 1, ROOT);
    } else {
      StatusAtNone(Everywhere(lock), q, |q| - 1);
    }
  }

  lemma NestedDiffers(ops: seq<LockOp>, p: Path, q: Path)
    requires StrictParent(p, q) && On(ops, p) != [] && On(ops, q) != []
    ensures !ScheduleIndependent(ops)
  {
    var p', q' := AdjacentPair(ops, p, q);
    var k := On(ops, p')[|On(ops, p')| - 1].lock;
    var t := Everywhere(!k);
    EverywhereReachable(!k);
    InheritsEverywhere(!k, p', q');
    EarlyEntry(t, ops, q');
    LateEntry(t, ops, p', q');
    EarlyInterleaves(ops, q');
    LateInterleaves(ops, p', q');
    Distinguishes(t, EarlySchedule(ops, q'), LateSchedule(ops, p', q'), ops, q');
  }

  lemma Distinguishes(t: Tree, a: seq<LockOp>, b: seq<LockOp>, ops: seq<LockOp>, q: Path)
    requires Reachable(t) && SamePerPath(a, ops) && SamePerPath(b, ops)
    requires Entry(Run(t, a), q) != Entry(Run(t, b), q)
    ensures !ScheduleIndependent(ops)
  {
    assert Run(t, a) != Run(t, ops) || Run(t, b) != Run(t, ops);
  }

  /** The lock part of the parallel commit is independent of its schedule, from every
      reachable tree, exactly when no operation's path lies strictly below another's. */
  lemma ScheduleIndependentIffUnnested(ops: seq<LockOp>)
    ensures ScheduleIndependent(ops) <==> Unnested(ops)
  {
    if Unnested(ops) {
      forall t: Tree, sched: seq<LockOp> | Reachable(t) && SamePerPath(sched, ops)
        ensures Run(t, sched) == Run(t, ops)
      {
        UnnestedSuffices(t, sched, ops);
      }
    } else {
      var i, j :| 0 <= i < |ops| && 0 <= j < |ops| && StrictParent(ops[i].path, ops[j].path);
      OnAll(ops, ops[i].path);
      OnAll(ops, ops[j].path);
      NestedDiffers(ops, ops[i].path, ops[j].path);
    }
  }

  // ----- scans and edits as steps of their own -----

  /** set_locked and set_unlocked first scan for the inherited state and then edit their entry;
      other threads may come in between. */
  datatype Micro = Scan(path: Path) | Edit(path: Path, lock: bool)

  /** seen: what the thread of each path saw in its last scan. */
  datatype Threads = Threads(tree: Tree, seen: map<Path, bool>)

  ghost function MicroStep(s: Threads, m: Micro): Threads {
    match m
    case Scan(p) => s.(seen := s.seen[p := Inherited(s.tree, p)])
    case Edit(p, lock) =>
      if p !in s.seen then s
      else s.(tree := if s.seen[p] == lock then s.tree - {p} else s.tree[p := lock])
  }

  ghost function RunMicro(t: Tree, ms: seq<Micro>): Threads {
    if ms == [] then Threads(t, map[]) else MicroStep(RunMicro(t, ms[..|ms| - 1]), ms[|ms| - 1])
  }

  ghost function MicroOn(ms: seq<Micro>, p: Path): seq<Micro> {
    if ms == [] then []
    else if ms[|ms| - 1].path == p then MicroOn(ms[..|ms| - 1], p) + [ms[|ms| - 1]]
    else MicroOn(ms[..|ms| - 1], p)
  }

  ghost function Expand(ops: seq<LockOp>): seq<Micro> {
    if ops == [] then []
    else
      var last := ops[|ops| - 1];
      Expand(ops[..|ops| - 1]) + [Scan(last.path), Edit(last.path, last.lock)]
  }

  /** Each path's thread does its own scans and edits in order, anything goes between paths. */
  ghost predicate Interleaves(ms: seq<Micro>, ops: seq<LockOp>) {
    forall p: Path :: MicroOn(ms, p) == Expand(On(ops, p))
  }

  ghost predicate ScansFirst(xs: seq<Micro>) {
    xs == [] || xs[0].Scan?
  }

  /** A path's entry after its own steps, when what it inherits does not change. */
  ghost function EntryAfter(inherited: bool, e: Option<bool>, xs: seq<Micro>): Option<bool> {
    if xs == [] then e
    else
      match xs[|xs| - 1]
      case Scan(_) => EntryAfter(inherited, e, xs[..|xs| - 1])
      case Edit(_, lock) => Settled(inherited, lock)
  }

  lemma {:induction false} MicroUntouched(t: Tree, ms: seq<Micro>, p: Path)
    requires MicroOn(ms, p) == []
    ensures Entry(RunMicro(t, ms).tree, p) == Entry(t, p)
  {
    if ms != [] { MicroUntouched(t, ms[..|ms| - 1], p); }
  }

  lemma {:induction false} MicroOnNone(ms: seq<Micro>, p: Path)
    requires forall m <- ms :: m.path != p
    ensures MicroOn(ms, p) == []
  {
    if ms != [] { MicroOnNone(ms[..|ms| - 1], p); }
  }

  lemma MicroInherited(t: Tree, ms: seq<Micro>, p: Path)
    requires forall m <- ms :: !StrictParent(m.path, p)
    ensures Inherited(RunMicro(t, ms).tree, p) == Inherited(t, p)
  {
    var t' := RunMicro(t, ms).tree;
    forall a: Path | IsParent(a, p) && |a| <= |p| - 1 ensures Entry(t', a) == Entry(t, a) {
      MicroOnNone(ms, a);
      MicroUntouched(t, ms, a);
    }
    StatusFrame(t', t, p, |p| - 1);
  }

  lemma {:induction false} MicroEntry(t: Tree, ms: seq<Micro>, p: Path)
    requires forall m <- ms :: !StrictParent(m.path, p)
    requires ScansFirst(MicroOn(ms, p))
    ensures var s := RunMicro(t, ms);
            && Entry(s.tree, p) == EntryAfter(Inherited(t, p), Entry(t, p), MicroOn(ms, p))
            && (MicroOn(ms, p) != [] ==> p in s.seen && s.seen[p] == Inherited(t, p))
  {
    if ms != [] {
      var init, last := ms[..|ms| - 1], ms[|ms| - 1];
      MicroEntry(t, init, p);
      MicroInherited(t, init, p);
      if last.path == p {
        assert MicroOn(ms, p)[..|MicroOn(ms, p)| - 1] == MicroOn(init, p);
      }
    }
  }

  lemma {:induction false} ExpandEntry(inherited: bool, e: Option<bool>, ops: seq<LockOp>)
    ensures ScansFirst(Expand(ops)) && (ops != [] ==> Expand(ops) != [])
    ensures EntryAfter(inherited, e, Expand(ops)) ==
            if ops == [] then e else Settled(inherited, ops[|ops| - 1].lock)
  {
    if ops != [] { ExpandEntry(inherited, e, ops[..|ops| - 1]); }
  }

  lemma {:induction false} MicroPath(ms: seq<Micro>, m: Micro)
    requires m in ms
    ensures MicroOn(ms, m.path) != []
  {
    if m != ms[|ms| - 1] {
      assert ms == ms[..|ms| - 1] + [ms[|ms| - 1]];
      MicroPath(ms[..|ms| - 1], m);
    }
  }

  /** Even with scans and edits of different paths interleaved at will, lock operations none of
      which lies below another leave the tree of the submission order. */
  lemma SplitUnnested(t: Tree, ms: seq<Micro>, ops: seq<LockOp>)
    requires Unnested(ops) && Interleaves(ms, ops)
    ensures RunMicro(t, ms).tree == Run(t, ops)
  {
    forall p: Path ensures Entry(RunMicro(t, ms).tree, p) == Entry(Run(t, ops), p) {
      assert MicroOn(ms, p) == Expand(On(ops, p));
      ExpandEntry(Inherited(t, p), Entry(t, p), On(ops, p));
      OnAll(ops, p);
      if On(ops, p) == [] {
        RunUntouched(t, ops, p);
        MicroUntouched(t, ms, p);
      } else {
        NoStrictParents(ms, ops, p);
        MicroEntry(t, ms, p);
        LastDecides(t, ops, p);
      }
    }
    TreeExtensional(RunMicro(t, ms).tree, Run(t, ops));
  }

  lemma NoStrictParents(ms: seq<Micro>, ops: seq<LockOp>, p: Path)
    requires Unnested(ops) && Interleaves(ms, ops) && On(ops, p) != []
    ensures forall m <- ms :: !StrictParent(m.path, p)
    ensures forall op <- ops :: !StrictParent(op.path, p)
  {
    OnAll(ops, p);
    var o := On(ops, p)[0];
    assert o in ops && o.path == p;
    forall m | m in ms ensures !StrictParent(m.path, p) {
      MicroPath(ms, m);
      assert MicroOn(ms, m.path) == Expand(On(ops, m.path));
      OnAll(ops, m.path);
      var q := On(ops, m.path)[0];
      assert q in ops && q.path == m.path;
    }
  }

  lemma {:induction false} MicroOnConcat(a: seq<Micro>, b: seq<Micro>, p: Path)
    ensures MicroOn(a + b, p) == MicroOn(a, p) + MicroOn(b, p)
  {
    if b == [] {
      assert a + b == a;
    } else {
      assert (a + b)[..|a + b| - 1] == a + b[..|b| - 1];
      MicroOnConcat(a, b[..|b| - 1], p);
    }
  }

  lemma PairOn(op: LockOp, p: Path)
    ensures MicroOn([Scan(op.path), Edit(op.path, op.lock)], p) ==
            if op.path == p then [Scan(op.path), Edit(op.path, op.lock)] else []
  {
    var ms := [Scan(op.path), Edit(op.path, op.lock)];
    assert ms[..1] == [ms[0]] && ms[..1][..0] == [];
    assert MicroOn(ms[..1], p) == if op.path == p then [ms[0]] else [];
  }

  /** Operations run one after another are one way to interleave their scans and edits. */
  lemma {:induction false} ExpandOn(ops: seq<LockOp>, p: Path)
    ensures MicroOn(Expand(ops), p) == Expand(On(ops, p))
  {
    if ops != [] {
      var init, last := ops[..|ops| - 1], ops[|ops| - 1];
      ExpandOn(init, p);
      MicroOnConcat(Expand(init), [Scan(last.path), Edit(last.path, last.lock)], p);
      PairOn(last, p);
      if last.path == p { assert On(ops, p)[..|On(ops, p)| - 1] == On(init, p); }
    }
  }

  lemma RunPair(t: Tree, ms: seq<Micro>, op: LockOp)
    ensures RunMicro(t, ms + [Scan(op.path), Edit(op.path, op.lock)]).tree == Apply(RunMicro(t, ms).tree, op)
  {
    var a, b := Scan(op.path), Edit(op.path, op.lock);
    var xs := ms + [a, b];
    assert xs[..|xs| - 1] == ms + [a] && (ms + [a])[..|ms|] == ms;
  }

  lemma {:induction false} RunExpand(t: Tree, ops: seq<LockOp>)
    ensures RunMicro(t, Expand(ops)).tree == Run(t, ops)
  {
    if ops != [] {
      RunExpand(t, ops[..|ops| - 1]);
      RunPair(t, Expand(ops[..|ops| - 1]), ops[|ops| - 1]);
    }
  }

  /** Whatever the interleaving of scans and edits, the tree is that of the submission order. */
  ghost predicate SplitIndependent(ops: seq<LockOp>) {
    forall t: Tree, ms: seq<Micro> ::
      Reachable(t) && Interleaves(ms, ops) ==> RunMicro(t, ms).tree == Run(t, ops)
  }

  lemma ExpandInterleaves(sched: seq<LockOp>, ops: seq<LockOp>)
    requires SamePerPath(sched, ops)
    ensures Interleaves(Expand(sched), ops)
  {
    forall p: Path ensures MicroOn(Expand(sched), p) == Expand(On(ops, p)) {
      ExpandOn(sched, p);
      assert On(sched, p) == On(ops, p);
    }
  }

  /** With scans and edits as steps of their own, the lock part of a commit is independent of
      the interleaving exactly when no operation's path lies strictly below another's. */
  lemma SplitIndependentIffUnnested(ops: seq<LockOp>)
    ensures SplitIndependent(ops) <==> Unnested(ops)
  {
    if Unnested(ops) {
      forall t: Tree, ms: seq<Micro> | Reachable(t) && Interleaves(ms, ops)
        ensures RunMicro(t, ms).tree == Run(t, ops)
      {
        SplitUnnested(t, ms, ops);
      }
    }
    if SplitIndependent(ops) {
      forall t: Tree, sched: seq<LockOp> | Reachable(t) && SamePerPath(sched, ops)
        ensures Run(t, sched) == Run(t, ops)
      {
        ExpandInterleaves(sched, ops);
        RunExpand(t, sched);
      }
      ScheduleIndependentIffUnnested(ops);
    }
  }

  // ----- the mirror of the container -----

  /** The paths locked, or unlocked, in order. */
  ghost function PathsOf(ops: seq<LockOp>, lock: bool): seq<Path> {
    if ops == [] then []
    else if ops[|ops| - 1].lock == lock then PathsOf(ops[..|ops| - 1], lock) + [ops[|ops| - 1].path]
    else PathsOf(ops[..|ops| - 1], lock)
  }

  lemma PathsOfSnoc(ops: seq<LockOp>, op: LockOp, lock: bool)
    ensures PathsOf(ops + [op], lock) ==
            if op.lock == lock then PathsOf(ops, lock) + [op.path] else PathsOf(ops, lock)
  {
    assert (ops + [op])[..|ops|] == ops;
  }

  lemma {:induction false} PathsOfConcat(a: seq<LockOp>, b: seq<LockOp>, lock: bool)
    ensures PathsOf(a + b, lock) == PathsOf(a, lock) + PathsOf(b, lock)
  {
    if b == [] {
      assert a + b == a;
    } else {
      assert (a + b)[..|a + b| - 1] == a + b[..|b| - 1];
      PathsOfConcat(a, b[..|b| - 1], lock);
    }
  }

  ghost function LockAll(paths: seq<Path>, lock: bool): (ops: seq<LockOp>)
    ensures |ops| == |paths|
  {
    seq(|paths|, i requires 0 <= i < |paths| => LockOp(paths[i], lock))
  }

  /** What the mirror does with the two lists of an update: every lock, then every unlock. */
  ghost function Mirrored(ops: seq<LockOp>): seq<LockOp> {
    LockAll(PathsOf(ops, true), true) + LockAll(PathsOf(ops, false), false)
  }

  ghost predicate AllOf(ops: seq<LockOp>, lock: bool) {
    forall op <- ops :: op.lock == lock
  }

  lemma {:induction false} OneKind(ops: seq<LockOp>, lock: bool)
    requires AllOf(ops, lock)
    ensures LockAll(PathsOf(ops, lock), lock) == ops && PathsOf(ops, !lock) == []
  {
    if ops != [] { OneKind(ops[..|ops| - 1], lock); }
  }

  /** When the lists are in the order the operations ran in, the mirror of a transaction that
      only locks, or only unlocks, is the database's tree. */
  lemma MirrorOneKind(t: Tree, ops: seq<LockOp>, lock: bool)
    requires AllOf(ops, lock)
    ensures Run(t, Mirrored(ops)) == Run(t, ops)
  {
    OneKind(ops, lock);
    assert Mirrored(ops) == ops;
  }

  /** If a path is unlocked at all, its last operation unlocks it. */
  ghost predicate UnlockLast(ops: seq<LockOp>, p: Path) {
    var g := On(ops, p);
    (exists op <- g :: !op.lock) ==> !g[|g| - 1].lock
  }

  lemma {:induction false} LockAllOn(ops: seq<LockOp>, lock: bool, p: Path)
    ensures forall op <- On(LockAll(PathsOf(ops, lock), lock), p) :: op.lock == lock
    ensures On(LockAll(PathsOf(ops, lock), lock), p) != [] <==> exists op <- On(ops, p) :: op.lock == lock
  {
    if ops != [] {
      var init, last := ops[..|ops| - 1], ops[|ops| - 1];
      LockAllOn(init, lock, p);
      if last.lock == lock {
        assert LockAll(PathsOf(ops, lock), lock) == LockAll(PathsOf(init, lock), lock) + [LockOp(last.path, lock)];
        OnSnoc(LockAll(PathsOf(init, lock), lock), LockOp(last.path, lock), p);
      }
    }
  }

  /** The last thing the mirror does to a path. */
  lemma MirroredLast(ops: seq<LockOp>, p: Path)
    ensures On(Mirrored(ops), p) == [] <==> On(ops, p) == []
    ensures var g := On(Mirrored(ops), p);
            g != [] ==> (g[|g| - 1].lock <==> !exists op <- On(ops, p) :: !op.lock)
  {
    var a, b := LockAll(PathsOf(ops, true), true), LockAll(PathsOf(ops, false), false);
    OnConcat(a, b, p);
    LockAllOn(ops, true, p);
    LockAllOn(ops, false, p);
    if On(ops, p) != [] {
      var o := On(ops, p)[0];
      assert o in On(ops, p) && (o.lock == true || o.lock == false);
    }
  }

  lemma MirroredUnnested(ops: seq<LockOp>, p: Path)
    requires Unnested(ops) && On(ops, p) != []
    ensures forall op <- Mirrored(ops) :: !StrictParent(op.path, p)
    ensures forall op <- ops :: !StrictParent(op.path, p)
  {
    OnAll(ops, p);
    var o := On(ops, p)[0];
    assert o in ops && o.path == p;
    forall op | op in Mirrored(ops) ensures !StrictParent(op.path, p) {
      OnAll(Mirrored(ops), op.path);
      MirroredLast(ops, op.path);
      OnAll(ops, op.path);
      var q := On(ops, op.path)[0];
      assert q in ops && q.path == op.path;
    }
  }

  lemma MirrorEntry(t: Tree, ops: seq<LockOp>, p: Path)
    requires Unnested(ops)
    ensures Entry(Run(t, Mirrored(ops)), p) == Entry(Run(t, ops), p) <==> UnlockLast(ops, p)
  {
    var ms := Mirrored(ops);
    MirroredLast(ops, p);
    if On(ops, p) == [] {
      OnAll(ops, p);
      OnAll(ms, p);
      RunUntouched(t, ops, p);
      RunUntouched(t, ms, p);
    } else {
      MirroredUnnested(ops, p);
      LastDecides(t, ops, p);
      LastDecides(t, ms, p);
      UnlockLastMeans(ops, p);
    }
  }

  lemma UnlockLastMeans(ops: seq<LockOp>, p: Path)
    requires On(ops, p) != []
    ensures var g := On(ops, p);
            UnlockLast(ops, p) <==> (g[|g| - 1].lock <==> !exists op <- g :: !op.lock)
  {
    var g := On(ops, p);
    assert g[|g| - 1] in g;
  }

  /** For lock operations none of which lies below another, the mirror ends up as the
      database's tree exactly when every path that is unlocked is unlocked last. */
  lemma MirrorExact(t: Tree, ops: seq<LockOp>)
    requires Unnested(ops)
    ensures Run(t, Mirrored(ops)) == Run(t, ops) <==> forall p: Path :: UnlockLast(ops, p)
  {
    forall p: Path
      ensures Entry(Run(t, Mirrored(ops)), p) == Entry(Run(t, ops), p) <==> UnlockLast(ops, p)
    {
      MirrorEntry(t, ops, p);
    }
    if forall p: Path :: UnlockLast(ops, p) { TreeExtensional(Run(t, Mirrored(ops)), Run(t, ops)); }
  }

  // ----- the mirror of a parallel commit -----

  /** The parallel commit runs the operations in one order and merges its lists in another. The
      mirror follows the database whatever the two orders are. */
  ghost predicate MirrorsAlways(ops: seq<LockOp>) {
    forall t: Tree, ms: seq<Micro>, list: seq<LockOp> ::
      Reachable(t) && Interleaves(ms, ops) && SamePerPath(list, ops) ==>
        Run(t, Mirrored(list)) == RunMicro(t, ms).tree
  }

  lemma {:induction false} SamePaths(sched: seq<LockOp>, ops: seq<LockOp>)
    requires SamePerPath(sched, ops) && Unnested(ops)
    ensures Unnested(sched)
  {
    forall i, j | 0 <= i < |sched| && 0 <= j < |sched| ensures !StrictParent(sched[i].path, sched[j].path) {
      var p := sched[j].path;
      OnAll(sched, p);
      assert On(sched, p) == On(ops, p);
      SameParents(sched, ops, p);
    }
  }

  lemma MirrorAgrees(t: Tree, ms: seq<Micro>, list: seq<LockOp>, ops: seq<LockOp>)
    requires Unnested(ops) && forall p: Path :: UnlockLast(ops, p)
    requires Interleaves(ms, ops) && SamePerPath(list, ops)
    ensures Run(t, Mirrored(list)) == RunMicro(t, ms).tree
  {
    SplitUnnested(t, ms, ops);
    UnnestedSuffices(t, list, ops);
    SamePaths(list, ops);
    forall p: Path ensures UnlockLast(list, p) {
      assert On(list, p) == On(ops, p) && UnlockLast(ops, p);
    }
    MirrorExact(t, list);
  }

  lemma MirrorNeeds(ops: seq<LockOp>)
    requires MirrorsAlways(ops)
    ensures Unnested(ops) && forall p: Path :: UnlockLast(ops, p)
  {
    forall t: Tree, ms: seq<Micro> | Reachable(t) && Interleaves(ms, ops)
      ensures RunMicro(t, ms).tree == Run(t, ops)
    {
      ExpandInterleaves(ops, ops);
      RunExpand(t, ops);
      assert Run(t, Mirrored(ops)) == RunMicro(t, ms).tree;
      assert Run(t, Mirrored(ops)) == RunMicro(t, Expand(ops)).tree;
    }
    SplitIndependentIffUnnested(ops);
    EverywhereReachable(false);
    ExpandInterleaves(ops, ops);
    RunExpand(map[], ops);
    assert Run(map[], Mirrored(ops)) == RunMicro(map[], Expand(ops)).tree;
    MirrorExact(map[], ops);
  }

  /** After a parallel commit the mirror is the database's tree, in whatever order the
      operations ran and in whatever order the lists were merged, exactly when no operation
      lies below another and every path that is unlocked is unlocked last. */
  lemma MirrorsAlwaysIff(ops: seq<LockOp>)
    ensures MirrorsAlways(ops) <==> Unnested(ops) && forall p: Path :: UnlockLast(ops, p)
  {
    if MirrorsAlways(ops) { MirrorNeeds(ops); }
    if Unnested(ops) && forall p: Path :: UnlockLast(ops, p) {
      forall t: Tree, ms: seq<Micro>, list: seq<LockOp>
        | Reachable(t) && Interleaves(ms, ops) && SamePerPath(list, ops)
        ensures Run(t, Mirrored(list)) == RunMicro(t, ms).tree
      {
        MirrorAgrees(t, ms, list, ops);
      }
    }
  }

  /** So transactions that only lock, or only unlock, are mirrored exactly when unnested. */
  lemma MirrorsOneKindIff(ops: seq<LockOp>, lock: bool)
    requires AllOf(ops, lock)
    ensures MirrorsAlways(ops) <==> Unnested(ops)
  {
    MirrorsAlwaysIff(ops);
    forall p: Path ensures UnlockLast(ops, p) {
      OnAll(ops, p);
      var g := On(ops, p);
      if g != [] { assert g[|g| - 1] in ops; }
    }
  }

  /** Two locks, the lower one run first and the upper one listed first: the database keeps both
      entries, the mirror drops the lower as inherited. */
  lemma NestedLocksMirror(p: Path, q: Path)
    requires StrictParent(p, q)
    ensures var upper, lower := LockOp(p, true), LockOp(q, true);
            && SamePerPath([lower, upper], [upper, lower])
            && Run(map[], [lower, upper]) == map[p := true, q := true]
            && Run(map[], Mirrored([upper, lower])) == map[p := true]
  {
    var upper, lower := LockOp(p, true), LockOp(q, true);
    SwapTwo(lower, upper);
    RunTwo(map[], lower, upper);
    RunTwo(map[], upper, lower);
    NestedEntries(p, q);
    assert AllOf([upper, lower], true);
    MirrorOneKind(map[], [upper, lower], true);
  }

  lemma SwapTwo(x: LockOp, y: LockOp)
    requires x.path != y.path
    ensures SamePerPath([x, y], [y, x])
  {
    forall r: Path ensures On([x, y], r) == On([y, x], r) {
      OnConcat([x], [y], r);
      OnConcat([y], [x], r);
      assert [x] + [y] == [x, y] && [y] + [x] == [y, x];
      OnSnoc([], x, r);
      OnSnoc([], y, r);
      assert [] + [x] == [x] && [] + [y] == [y];
    }
  }

  lemma RunTwo(t: Tree, x: LockOp, y: LockOp)
    ensures Run(t, [x, y]) == Apply(Apply(t, x), y)
  {
    RunSnoc(t, [x], y);
    RunSnoc(t, [], x);
    assert [x] + [y] == [x, y] && [] + [x] == [x];
  }

  lemma NestedEntries(p: Path, q: Path)
    requires StrictParent(p, q)
    ensures Apply(Apply(map[], LockOp(q, true)), LockOp(p, true)) == map[p := true, q := true]
    ensures Apply(Apply(map[], LockOp(p, true)), LockOp(q, true)) == map[p := true]
  {
    AncestorPrefix(p, q);
    StatusAtNone(map[], q, |q| - 1);
    StatusAtNone(map[], p, |p| - 1);
    StatusAtNone(map[q := true], p, |p| - 1);
    StatusAtDeepest(map[p := true], q, |q| - 1, p);
  }
}
