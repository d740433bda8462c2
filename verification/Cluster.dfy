/** Primary election by the least path, after netidx-protocols/src/cluster.rs. */
module Cluster {
  import opened Bytes
  import Sorting

  /** A subscription to another member. */
  type Dval = nat

  /** Sorting paths: the keys alone count. */
  function SortPaths(paths: seq<Key>): seq<Sorting.Keyed<()>> {
    Sorting.StableSort(seq(|paths|, i requires 0 <= i < |paths| => Sorting.Keyed(paths[i], ())))
  }

  lemma SortedFirst(paths: seq<Key>)
    requires paths != []
    ensures SortPaths(paths) != []
    ensures IsLeast((set p <- paths), SortPaths(paths)[0].key)
  {
    var ks := seq(|paths|, i requires 0 <= i < |paths| => Sorting.Keyed(paths[i], ()));
    var sorted := SortPaths(paths);
    Sorting.SortLaws(ks);
    forall p | p in paths ensures exists i | 0 <= i < |sorted| :: sorted[i].key == p {
      var i :| 0 <= i < |paths| && paths[i] == p;
      assert ks[i].key == p;
      Sorting.WithMember(ks, p);
      Sorting.WithMember(sorted, p);
    }
    assert paths[0] in paths;
    var m := sorted[0].key;
    Sorting.WithMember(sorted, m);
    Sorting.WithMember(ks, m);
    forall p | p in paths ensures AtMost(m, p) {
      var i :| 0 <= i < |sorted| && sorted[i].key == p;
    }
  }

  class Cluster {
    const ourPath: Key
    var others: map<Key, Dval>
    var primary: bool
    var nextDval: Dval

    constructor (ourPath: Key)
      ensures this.ourPath == ourPath && others == map[] && primary
    {
      this.ourPath, others, primary, nextDval := ourPath, map[], true, 0;
    }

    ghost function Abstract(): Member
      reads this
    {
      Member(others.Keys, primary)
    }

    /** changed and listing are what the resolver answers. Subscriptions to members that are
        still listed are kept. */
    method PollMembers(changed: bool, listing: seq<Key>) returns (r: bool)
      modifies this
      ensures r == changed
      ensures Abstract() == if changed then Polled(ourPath, (set p <- listing)) else old(Abstract())
      ensures forall p <- others :: p in old(others) ==> others[p] == old(others)[p]
    {
      if !changed {
        return false;
      }
      var all := set p | p in listing && p != ourPath;
      others := map p | p in others && p in all :: others[p];
      var todo := all;
      while todo != {}
        invariant todo <= all && all - todo <= others.Keys <= all
        invariant forall p <- others :: p in old(others) ==> others[p] == old(others)[p]
        invariant forall p <- all :: p in old(others) ==> p in others
      {
        var path :| path in todo;
        todo := todo - {path};
        if path !in others {
          others := others[path := nextDval];
          nextDval := nextDval + 1;
        }
      }
      var paths := KeysOf(others);
      paths := [ourPath] + paths;
      SortedFirst(paths);
      assert (set p <- paths) == others.Keys + {ourPath};
      var sorted := SortPaths(paths);
      primary := ourPath == sorted[0].key;
      if IsLeast(others.Keys + {ourPath}, ourPath) {
        LeastUnique(others.Keys + {ourPath}, ourPath, sorted[0].key);
      }
      return true;
    }
  }

  /** The keys of a map in some order. */
  method KeysOf(m: map<Key, Dval>) returns (ks: seq<Key>)
    ensures forall k :: k in ks <==> k in m
  {
    ks := [];
    var todo := m.Keys;
    while todo != {}
      invariant todo <= m.Keys && forall k :: k in ks <==> k in m && k !in todo
    {
      var k :| k in todo;
      todo := todo - {k};
      ks := ks + [k];
    }
  }

  // ----- the system -----

  datatype Member = Member(others: set<Key>, primary: bool)

  type System = map<Key, Member>

  /** A poll lists the members only when the resolver has seen a change. */
  datatype Step = Join(path: Key) | Leave(path: Key) | Poll(path: Key, changed: bool, listing: set<Key>)

  ghost function Polled(path: Key, listing: set<Key>): Member {
    var others := listing - {path};
    Member(others, IsLeast(others + {path}, path))
  }

  /** Members join under a fresh path, leave, and see any listing, however old or partial. */
  ghost function Next(s: System, step: Step): System {
    match step
    case Join(p) => if p in s then s else s[p := Member({}, true)]
    case Leave(p) => s - {p}
    case Poll(p, changed, listing) => if p in s && changed then s[p := Polled(p, listing)] else s
  }

  ghost function Run(s: System, steps: seq<Step>): System
    decreases steps
  {
    if steps == [] then s else Run(Next(s, steps[0]), steps[1..])
  }

  /** A member's flag says exactly whether its path is the least it knows. */
  ghost predicate Honest(s: System) {
    forall p <- s :: p !in s[p].others && (s[p].primary <==> IsLeast(s[p].others + {p}, p))
  }

  lemma {:induction false} AlwaysHonest(s: System, steps: seq<Step>)
    requires Honest(s)
    ensures Honest(Run(s, steps))
    decreases steps
  {
    if steps != [] {
      AlwaysHonest(Next(s, steps[0]), steps[1..]);
    }
  }

  /** The last join or leave of a path. */
  ghost function LastMove(steps: seq<Step>, p: Key): Option<Step> {
    if steps == [] then None
    else
      var later := LastMove(steps[1..], p);
      if later.Some? then later
      else if (steps[0].Join? || steps[0].Leave?) && steps[0].path == p then Some(steps[0])
      else None
  }

  /** The members are those whose last move was to join. */
  lemma {:induction false} MembersAre(s: System, steps: seq<Step>, p: Key)
    ensures p in Run(s, steps) <==>
            match LastMove(steps, p) case None => p in s case Some(move) => move.Join?
    decreases steps
  {
    if steps != [] {
      MembersAre(Next(s, steps[0]), steps[1..], p);
    }
  }

  /** In every reachable state, two members that see each other are not both primary. */
  lemma OnePrimaryOfTwo(steps: seq<Step>, p: Key, q: Key)
    requires var s := Run(map[], steps); p in s && q in s && q in s[p].others && p in s[q].others
    ensures var s := Run(map[], steps); !(s[p].primary && s[q].primary)
  {
    AlwaysHonest(map[], steps);
    var s := Run(map[], steps);
    if s[p].primary && s[q].primary {
      assert AtMost(p, q) && AtMost(q, p) && p != q;
      LessTransitive(p, q, p);
      LessIrreflexive(p);
    }
  }

  ghost predicate Accurate(s: System, p: Key) {
    p in s && s[p].others + {p} == s.Keys
  }

  ghost predicate OnePrimary(s: System) {
    s.Keys != {} ==> forall p <- s :: s[p].primary <==> p == Least(s.Keys)
  }

  /** When every view is the true membership, the member with the least path is the only
      primary. */
  lemma Agreement(s: System)
    requires Honest(s) && forall p <- s :: Accurate(s, p)
    ensures OnePrimary(s)
  {
    forall p <- s ensures s[p].primary <==> p == Least(s.Keys) {
      assert Accurate(s, p);
      if s[p].primary { LeastUnique(s.Keys, p, Least(s.Keys)); }
    }
  }

  /** Members poll, no one joins or leaves, and what is listed is the true membership. */
  ghost predicate Quiet(members: set<Key>, steps: seq<Step>) {
    forall i | 0 <= i < |steps| ::
      steps[i].Poll? && steps[i].path in members && (steps[i].changed ==> steps[i].listing == members)
  }

  ghost predicate Lists(steps: seq<Step>, p: Key) {
    exists i | 0 <= i < |steps| :: steps[i].path == p && steps[i].Poll? && steps[i].changed
  }

  lemma {:induction false} QuietKeeps(s: System, steps: seq<Step>, p: Key)
    requires p in s && Quiet(s.Keys, steps)
    requires Accurate(s, p) || Lists(steps, p)
    ensures Run(s, steps).Keys == s.Keys && Accurate(Run(s, steps), p)
    decreases steps
  {
    if steps != [] {
      var t := Next(s, steps[0]);
      assert t.Keys == s.Keys;
      if !Accurate(t, p) {
        var i :| 0 <= i < |steps| && steps[i].path == p && steps[i].Poll? && steps[i].changed;
        assert steps[1..][i - 1] == steps[i];
      }
      QuietKeeps(t, steps[1..], p);
    }
  }

  /** With a stable member set all members agree, from any reachable state, once each has
      listed the members, in any order, among any number of polls that see no change. */
  lemma StableAgreement(before: seq<Step>, after: seq<Step>)
    requires var s := Run(map[], before); Quiet(s.Keys, after) && forall p <- s :: Lists(after, p)
    ensures OnePrimary(Run(Run(map[], before), after))
    ensures Run(Run(map[], before), after).Keys == Run(map[], before).Keys
  {
    var s := Run(map[], before);
    AlwaysHonest(map[], before);
    AlwaysHonest(s, after);
    QuietMembers(s, after);
    var t := Run(s, after);
    forall p <- t ensures Accurate(t, p) {
      QuietKeeps(s, after, p);
    }
    Agreement(t);
  }

  lemma {:induction false} QuietMembers(s: System, steps: seq<Step>)
    requires Quiet(s.Keys, steps)
    ensures Run(s, steps).Keys == s.Keys
    decreases steps
  {
    if steps != [] {
      assert Next(s, steps[0]).Keys == s.Keys;
      QuietMembers(Next(s, steps[0]), steps[1..]);
    }
  }

  /** Before they have seen each other, both of two members are primary. */
  lemma BothPrimary(p: Key, q: Key)
    requires p != q
    ensures var s := Run(map[], [Join(p), Join(q)]);
            p in s && q in s && s[p].primary && s[q].primary
  {
    var steps := [Join(p), Join(q)];
    assert steps[1..] == [Join(q)] && steps[1..][1..] == [];
    assert Run(Next(map[], Join(p)), [Join(q)]) == Run(Next(Next(map[], Join(p)), Join(q)), []);
  }
}
