/** The event handlers of netidx-container/src/lib.rs, tied to the steps of PublishedCache. */
module Container {
  import opened Bytes
  import opened Paths
  import opened Store
  import opened PublishedCache
  import LockTree
  import ContainerDb

  /** The part of the publisher the container relies on: one value per path, fresh ids, and an
      event for every value that goes away. */
  class Publisher {
    var nextId: Id
    var published: map<Path, Id>
    var vals: map<Id, Value>
    var events: seq<Id>

    constructor ()
      ensures nextId == 0 && published == map[] && vals == map[] && events == []
    {
      nextId, published, vals, events := 0, map[], map[], [];
    }

    method Publish(path: Path, value: Value) returns (id: Option<Id>)
      modifies this
      ensures events == old(events)
      ensures path in old(published) ==>
                id == None && nextId == old(nextId) && published == old(published) && vals == old(vals)
      ensures path !in old(published) ==>
                id == Some(old(nextId)) && nextId == old(nextId) + 1 &&
                published == old(published)[path := old(nextId)] && vals == old(vals)[old(nextId) := value]
    {
      if path in published {
        return None;
      }
      id := Some(nextId);
      published := published[path := nextId];
      vals := vals[nextId := value];
      nextId := nextId + 1;
    }

    /** The last handle of a value is dropped. */
    method DropVal(path: Path, id: Id)
      modifies this`published, this`events
      ensures path in old(published) && old(published)[path] == id ==>
                published == old(published) - {path} && events == old(events) + [id]
      ensures !(path in old(published) && old(published)[path] == id) ==>
                published == old(published) && events == old(events)
    {
      if path in published && published[path] == id {
        published := published - {path};
        events := events + [id];
      }
    }
  }

  class ContainerInner {
    const publisher: Publisher
    const apiPath: Option<Path>
    var locked: LockTree.Tree
    var roots: set<Path>
    var byId: map<Id, Path>
    var byPath: map<Path, Id>

    constructor (publisher: Publisher, apiPath: Option<Path>)
      ensures this.publisher == publisher && this.apiPath == apiPath
      ensures locked == map[] && roots == {} && byId == map[] && byPath == map[]
    {
      this.publisher, this.apiPath := publisher, apiPath;
      locked, roots, byId, byPath := map[], {}, map[], map[];
    }

    ghost function View(): Front
      reads this, publisher
    {
      Front(publisher.nextId, publisher.published, publisher.vals, publisher.events, byPath, byId)
    }

    method PublishData(path: Path, value: Value)
      modifies this`byId, this`byPath, publisher
      ensures View() == PublishedCache.PublishData(old(View()), path, value)
    {
      var id := publisher.Publish(path, value);
      if id.Some? {
        byId := byId[id.value := path];
        byPath := byPath[path := id.value];
      }
    }

    /** An absent path is published as Null unless it is locked or belongs to the api. */
    ghost predicate Admits(path: Path)
      reads this
    {
      MayPublish(locked, apiPath, path)
    }

    /** get_root and check_path: the greatest root up to the path must be a prefix of it. */
    method CheckPath(path: Path) returns (r: bool)
      ensures r == Rooted(roots, path)
    {
      var upTo := set k | k in roots && AtMost(k, path);
      if upTo == {} {
        return false;
      }
      ghost var g := GreatestExists(upTo);
      var prev :| prev in upTo && forall j <- upTo :: AtMost(j, prev);
      RootedBy(roots, path, prev);
      r := IsPrefix(prev, path);
    }

    /** A request for a path that is not under a root is answered without publishing. */
    method ProcessPublishRequest(path: Path, lookup: Option<Datum>)
      modifies this`byId, this`byPath, publisher
      ensures View() ==
              if Rooted(roots, path) then Request(old(View()), path, lookup, old(Admits(path))) else old(View())
      ensures (!lookup.Some? || lookup.value.Tombstone?) &&
                (LockTree.Status(locked, path) || (apiPath.Some? && IsParent(apiPath.value, path))) ==>
                View() == old(View())
      ensures Rooted(roots, path) && lookup.Some? && lookup.value.Data? && path !in old(publisher.published) ==>
                Held(View(), path, lookup.value.value)
      ensures Rooted(roots, path) && (!lookup.Some? || lookup.value.Tombstone?) && path !in old(publisher.published) &&
                !LockTree.Status(locked, path) && !(apiPath.Some? && IsParent(apiPath.value, path)) ==>
                Held(View(), path, Null)
    {
      var rooted := CheckPath(path);
      if !rooted {
        return;
      }
      match lookup {
        case Some(Data(v)) =>
          PublishData(path, v);
        case _ =>
          var isLocked := LockTree.IsLocked(locked, path, false);
          var api := apiPath.Some? && IsParent(apiPath.value, path);
          if !isLocked && !api {
            PublishData(path, Null);
          }
      }
    }

    /** A waiting destroy event is taken from the channel and handled. */
    method ProcessPublishEvent()
      requires publisher.events != []
      modifies this`byId, this`byPath, publisher`events
      ensures View() == Destroyed(old(View()).(events := old(publisher.events)[1..]), old(publisher.events)[0])
    {
      var id := publisher.events[0];
      publisher.events := publisher.events[1..];
      if id in byId {
        var path := byId[id];
        byId := byId - {id};
        byPath := byPath - {path};
      }
    }

    method RemoveDeletedPublished(path: Path)
      modifies this`byId, this`byPath, publisher`published, publisher`events
      ensures View() == ApplyEvent(old(View()), Event(path, Deleted))
    {
      if path in byPath {
        var id := byPath[path];
        byPath := byPath - {path};
        byId := byId - {id};
        publisher.DropVal(path, id);
      }
    }

    method ApplyOne(e: Event)
      modifies this`byId, this`byPath, publisher
      ensures View() == ApplyEvent(old(View()), e)
    {
      match e.kind {
        case Updated(v) =>
          if e.path in byPath {
            publisher.vals := publisher.vals[byPath[e.path] := v];
          }
        case Inserted(v) =>
          if e.path in byPath {
            publisher.vals := publisher.vals[byPath[e.path] := v];
          }
        case Deleted =>
          RemoveDeletedPublished(e.path);
      }
    }

    method ApplyData(data: seq<Event>)
      modifies this`byId, this`byPath, publisher
      ensures View() == ApplyAll(old(View()), data)
    {
      for i := 0 to |data|
        invariant View() == ApplyAll(old(View()), data[..i])
      {
        assert data[..i + 1][..i] == data[..i];
        ApplyOne(data[i]);
      }
      assert data[..|data|] == data;
    }

    method ApplyLocks(paths: seq<Path>, lock: bool)
      modifies this`locked
      ensures locked == LockTree.Run(old(locked), LockTree.LockAll(paths, lock))
    {
      for i := 0 to |paths|
        invariant locked == LockTree.Run(old(locked), LockTree.LockAll(paths[..i], lock))
      {
        LockAllNext(old(locked), paths, lock, i);
        var inherited := LockTree.IsLocked(locked, paths[i], true);
        if inherited == lock {
          locked := locked - {paths[i]};
        } else {
          locked := locked[paths[i] := lock];
        }
      }
      assert paths[..|paths|] == paths;
    }

    /** New roots the publisher accepts are added, then removed ones go. */
    method ApplyRoots(added: seq<Path>, removed: seq<Path>, refused: set<Path>)
      modifies this`roots
      ensures roots == old(roots) + (set p <- added | p !in refused) - (set p <- removed)
    {
      for i := 0 to |added|
        invariant roots == old(roots) + (set p <- added[..i] | p !in refused)
      {
        assert added[..i + 1] == added[..i] + [added[i]];
        if added[i] !in refused {
          roots := roots + {added[i]};
        }
      }
      assert added[..|added|] == added;
      ghost var all := roots;
      for i := 0 to |removed|
        invariant roots == all - (set p <- removed[..i])
      {
        assert removed[..i + 1] == removed[..i] + [removed[i]];
        roots := roots - {removed[i]};
      }
      assert removed[..|removed|] == removed;
    }

    /** process_update: the roots, the data, then every lock, then every unlock of the
        transaction. refused are the roots the publisher does not take. */
    method ProcessUpdate(
      added: seq<Path>, removed: seq<Path>, refused: set<Path>,
      data: seq<Event>, locks: seq<Path>, unlocks: seq<Path>
    )
      modifies this, publisher
      ensures roots == old(roots) + (set p <- added | p !in refused) - (set p <- removed)
      ensures View() == ApplyAll(old(View()), data)
      ensures locked ==
              LockTree.Run(old(locked), LockTree.LockAll(locks, true) + LockTree.LockAll(unlocks, false))
    {
      ApplyRoots(added, removed, refused);
      ApplyData(data);
      ApplyLocks(locks, true);
      ApplyLocks(unlocks, false);
      LockTree.RunConcat(old(locked), LockTree.LockAll(locks, true), LockTree.LockAll(unlocks, false));
    }
  }

  ghost predicate MayPublish(locked: LockTree.Tree, api: Option<Path>, path: Path) {
    !LockTree.Status(locked, path) && !(api.Some? && IsParent(api.value, path))
  }

  ghost predicate Rooted(roots: set<Path>, path: Path) {
    exists prev :: IsGreatest((set k | k in roots && AtMost(k, path)), prev) && IsPrefix(prev, path)
  }

  lemma RootedBy(roots: set<Path>, path: Path, prev: Path)
    requires IsGreatest((set k | k in roots && AtMost(k, path)), prev)
    ensures Rooted(roots, path) <==> IsPrefix(prev, path)
  {
    var upTo: set<Key> := set k | k in roots && AtMost(k, path);
    forall g | IsGreatest(upTo, g) ensures g == prev {
      if g != prev {
        LessTransitive(g, prev, g);
        LessIrreflexive(g);
      }
    }
  }

  /** Published, indexed both ways, and showing the value. */
  ghost predicate Held(f: Front, p: Path, v: Value) {
    && p in f.published && p in f.byPath && f.byPath[p] == f.published[p]
    && f.byPath[p] in f.byId && f.byId[f.byPath[p]] == p
    && f.byPath[p] in f.vals && f.vals[f.byPath[p]] == v
  }

  /** A root and what continues its text is under it, what continues no root is not. */
  lemma RootedLaw(roots: set<Path>, path: Path)
    ensures path in roots ==> Rooted(roots, path)
    ensures (forall r <- roots :: !IsPrefix(r, path)) ==> !Rooted(roots, path)
  {
    var upTo: set<Key> := set k | k in roots && AtMost(k, path);
    if path in roots {
      assert IsGreatest(upTo, path);
      assert IsPrefix(path, path);
    }
  }

  /** After a path has been locked, nothing absent below it that no deeper entry covers is
      published on request, whatever the container has published so far. */
  lemma LockedNotPublished(
    t: LockTree.Tree, ops: seq<LockTree.LockOp>, p: Path, q: Path, api: Option<Path>, f: Front, c: Option<Datum>
  )
    requires IsParent(p, q) && LockTree.DeepestAtOrAbove(LockTree.Run(t, ops), p, q)
    requires c.None? || c.value.Tombstone?
    ensures var locked := LockTree.Run(t, ops + [LockTree.LockOp(p, true)]);
            LockTree.Status(locked, q) && !MayPublish(locked, api, q) &&
            Request(f, q, c, MayPublish(locked, api, q)) == f
  {
    LockTree.RunSnoc(t, ops, LockTree.LockOp(p, true));
    LockTree.ApplyEffect(LockTree.Run(t, ops), LockTree.LockOp(p, true), q);
  }

  /** After a sequential commit, whose lists are in the order its operations ran in, a mirror
      that was the database's tree is so again if the transaction only locks or only unlocks;
      and, when no lock operation lies below another, exactly if it unlocks last every path it
      unlocks. */
  lemma MirrorFollows(t: LockTree.Tree, txn: seq<ContainerDb.TxnOp>)
    ensures var ops := ContainerDb.LockPart(txn);
            var mirror := LockTree.Run(t, LockTree.LockAll(ContainerDb.Listed(txn, true), true) +
                                          LockTree.LockAll(ContainerDb.Listed(txn, false), false));
            && (LockTree.AllOf(ops, true) || LockTree.AllOf(ops, false) ==> mirror == LockTree.Run(t, ops))
            && (LockTree.Unnested(ops) ==>
                  (mirror == LockTree.Run(t, ops) <==> forall p: Path :: LockTree.UnlockLast(ops, p)))
  {
    var ops := ContainerDb.LockPart(txn);
    if LockTree.AllOf(ops, true) { LockTree.MirrorOneKind(t, ops, true); }
    if LockTree.AllOf(ops, false) { LockTree.MirrorOneKind(t, ops, false); }
    if LockTree.Unnested(ops) { LockTree.MirrorExact(t, ops); }
  }

  /** After a parallel commit that ran the operations as exec and merged its lists as list, the
      mirror is the database's tree if no lock operation lies below another and every unlocked
      path is unlocked last; LockTree.MirrorsAlwaysIff shows that nothing less will do. */
  lemma MirrorFollowsParallel(
    t: LockTree.Tree, txn: seq<ContainerDb.TxnOp>, exec: seq<ContainerDb.TxnOp>, list: seq<ContainerDb.TxnOp>
  )
    requires ContainerDb.IsSchedule(exec, txn) && ContainerDb.IsSchedule(list, txn)
    requires LockTree.MirrorsAlways(ContainerDb.LockPart(txn)) && LockTree.Reachable(t)
    ensures LockTree.Run(t, LockTree.LockAll(ContainerDb.Listed(list, true), true) +
                            LockTree.LockAll(ContainerDb.Listed(list, false), false)) ==
            LockTree.Run(t, ContainerDb.LockPart(exec))
  {
    var ops := ContainerDb.LockPart(txn);
    var run := ContainerDb.LockPart(exec);
    ContainerDb.ScheduleParts(exec, txn);
    ContainerDb.ScheduleParts(list, txn);
    LockTree.ExpandInterleaves(run, ops);
    LockTree.RunExpand(t, run);
    assert LockTree.Run(t, LockTree.Mirrored(ContainerDb.LockPart(list))) ==
           LockTree.RunMicro(t, LockTree.Expand(run)).tree;
  }

  lemma LockAllNext(t: LockTree.Tree, paths: seq<Path>, lock: bool, i: nat)
    requires i < |paths|
    ensures LockTree.Run(t, LockTree.LockAll(paths[..i + 1], lock)) ==
            LockTree.Apply(LockTree.Run(t, LockTree.LockAll(paths[..i], lock)), LockTree.LockOp(paths[i], lock))
  {
    assert LockTree.LockAll(paths[..i + 1], lock) ==
           LockTree.LockAll(paths[..i], lock) + [LockTree.LockOp(paths[i], lock)];
    LockTree.RunSnoc(t, LockTree.LockAll(paths[..i], lock), LockTree.LockOp(paths[i], lock));
  }

  /** Handling a whole update at once is handling its entries as steps of the system. */
  lemma {:induction false} UpdateIsSteps(s: State, data: seq<Event>)
    requires data <= s.queue
    ensures RunSteps(s, seq(|data|, i => Process)) ==
            s.(queue := s.queue[|data|..], front := ApplyAll(s.front, data))
  {
    var steps := seq(|data|, i => Process);
    if data == [] {
      assert steps == [];
    } else {
      var init := data[..|data| - 1];
      UpdateIsSteps(s, init);
      assert steps[..|steps| - 1] == seq(|init|, i => Process);
      assert s.queue[|init|..][0] == data[|data| - 1];
    }
  }
}
