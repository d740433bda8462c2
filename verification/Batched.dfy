/** The stream adapter that marks the ends of batches, after netidx-core/src/utils.rs. */
module Batched {
  datatype Poll<+T> = Pending | Ready(value: T) | End

  datatype BatchItem<+T> = InBatch(item: T) | EndBatch

  /** What each poll of the inner stream answers; a poll beyond the script is pending. */
  class Script<T> {
    var polls: seq<Poll<T>>

    constructor (polls: seq<Poll<T>>)
      ensures this.polls == polls
    {
      this.polls := polls;
    }

    method PollNext() returns (p: Poll<T>)
      modifies this
      ensures p == First(old(polls)) && polls == Later(old(polls))
    {
      if polls == [] {
        return Pending;
      }
      p := polls[0];
      polls := polls[1..];
    }
  }

  function First<T>(polls: seq<Poll<T>>): Poll<T> {
    if polls == [] then Pending else polls[0]
  }

  function Later<T>(polls: seq<Poll<T>>): seq<Poll<T>> {
    if polls == [] then [] else polls[1..]
  }

  datatype State = State(ended: bool, current: nat)

  datatype Step<+T> = Step(state: State, out: Poll<BatchItem<T>>, polled: bool)

  /** One poll of the adapter; inner is what the inner stream would answer. */
  function Next<T>(max: nat, s: State, inner: Poll<T>): Step<T> {
    if s.ended then Step(s, End, false)
    else if s.current >= max then Step(s.(current := 0), Ready(EndBatch), false)
    else match inner
      case Ready(v) => Step(s.(current := s.current + 1), Ready(InBatch(v)), true)
      case End =>
        if s.current == 0 then Step(State(true, 0), End, true) else Step(State(true, 0), Ready(EndBatch), true)
      case Pending =>
        if s.current == 0 then Step(s, Pending, true) else Step(s.(current := 0), Ready(EndBatch), true)
  }

  class Batched<T> {
    const stream: Script<T>
    const max: nat
    var ended: bool
    var current: nat

    ghost function Abstract(): State
      reads this
    {
      State(ended, current)
    }

    constructor (stream: Script<T>, max: nat)
      ensures this.stream == stream && this.max == max && Abstract() == State(false, 0)
    {
      this.stream, this.max, ended, current := stream, max, false, 0;
    }

    method PollNext() returns (out: Poll<BatchItem<T>>)
      modifies this, stream
      ensures var step := Next(max, old(Abstract()), First(old(stream.polls)));
              Abstract() == step.state && out == step.out &&
              stream.polls == if step.polled then Later(old(stream.polls)) else old(stream.polls)
    {
      if ended {
        return End;
      }
      if current >= max {
        current := 0;
        return Ready(EndBatch);
      }
      var p := stream.PollNext();
      match p {
        case Ready(v) =>
          current := current + 1;
          return Ready(InBatch(v));
        case End =>
          ended := true;
          if current == 0 {
            return End;
          }
          current := 0;
          return Ready(EndBatch);
        case Pending =>
          if current == 0 {
            return Pending;
          }
          current := 0;
          return Ready(EndBatch);
      }
    }
  }

  // ----- runs -----

  datatype Run<+T> = Run(state: State, outs: seq<Poll<BatchItem<T>>>, left: seq<Poll<T>>)

  /** n polls of a new adapter. */
  ghost function Polls<T>(max: nat, polls: seq<Poll<T>>, n: nat): Run<T> {
    if n == 0 then Run(State(false, 0), [], polls) else OneMore(max, Polls(max, polls, n - 1))
  }

  ghost function OneMore<T>(max: nat, r: Run<T>): Run<T> {
    var step := Next(max, r.state, First(r.left));
    Run(step.state, r.outs + [step.out], if step.polled then Later(r.left) else r.left)
  }

  ghost function Items<T>(outs: seq<Poll<BatchItem<T>>>): seq<T> {
    if outs == [] then []
    else
      var last := outs[|outs| - 1];
      if last.Ready? && last.value.InBatch? then Items(outs[..|outs| - 1]) + [last.value.item]
      else Items(outs[..|outs| - 1])
  }

  ghost function ScriptItems<T>(polls: seq<Poll<T>>): seq<T> {
    if polls == [] then []
    else if polls[0].Ready? then [polls[0].value] + ScriptItems(polls[1..])
    else ScriptItems(polls[1..])
  }

  datatype Batch = Open(n: nat) | Broken

  /** The protocol, one output at a time, with the items in the open batch: every batch closed
      is nonempty, none is longer than max, and none is open when the stream reports pending
      or its end. */
  ghost function Advance<T>(max: nat, b: Batch, out: Poll<BatchItem<T>>): Batch {
    if b.Broken? then Broken
    else match out
      case Ready(InBatch(_)) => if b.n < max then Open(b.n + 1) else Broken
      case Ready(EndBatch) => if b.n >= 1 then Open(0) else Broken
      case _ => if b.n == 0 then Open(0) else Broken
  }

  ghost function Checked<T>(max: nat, outs: seq<Poll<BatchItem<T>>>): Batch {
    if outs == [] then Open(0) else Advance(max, Checked(max, outs[..|outs| - 1]), outs[|outs| - 1])
  }

  lemma CheckedSnoc<T>(max: nat, outs: seq<Poll<BatchItem<T>>>, o: Poll<BatchItem<T>>)
    ensures Checked(max, outs + [o]) == Advance(max, Checked(max, outs), o)
  {
    assert (outs + [o])[..|outs|] == outs;
  }

  ghost predicate Counts(max: nat, s: State) {
    s.current <= max && (s.ended ==> s.current == 0)
  }

  lemma NextAdvances<T>(max: nat, s: State, inner: Poll<T>)
    requires max >= 1 && Counts(max, s)
    ensures var step := Next(max, s, inner);
            Counts(max, step.state) && Advance(max, Open(s.current), step.out) == Open(step.state.current)
  {}

  ghost predicate WellFormed<T>(max: nat, r: Run<T>) {
    Counts(max, r.state) && Checked(max, r.outs) == Open(r.state.current)
  }

  lemma StepWellFormed<T>(max: nat, r: Run<T>)
    requires max >= 1 && WellFormed(max, r)
    ensures WellFormed(max, OneMore(max, r))
  {
    NextAdvances(max, r.state, First(r.left));
    CheckedSnoc(max, r.outs, Next(max, r.state, First(r.left)).out);
  }

  /** Over any polls of any inner stream, the batches are well formed, and current counts the
      items of the open one. */
  lemma {:induction false} BatchesWellFormed<T>(max: nat, polls: seq<Poll<T>>, n: nat)
    requires max >= 1
    ensures WellFormed(max, Polls(max, polls, n))
  {
    if n > 0 {
      BatchesWellFormed(max, polls, n - 1);
      StepWellFormed(max, Polls(max, polls, n - 1));
    }
  }

  lemma {:induction false} RunLength<T>(max: nat, polls: seq<Poll<T>>, n: nat)
    ensures |Polls(max, polls, n).outs| == n
  {
    if n > 0 { RunLength(max, polls, n - 1); }
  }

  lemma ItemsSnoc<T>(outs: seq<Poll<BatchItem<T>>>, o: Poll<BatchItem<T>>)
    ensures Items(outs + [o]) ==
            if o.Ready? && o.value.InBatch? then Items(outs) + [o.value.item] else Items(outs)
  {
    assert (outs + [o])[..|outs|] == outs;
  }

  lemma NextItems<T>(max: nat, s: State, before: seq<T>, left: seq<Poll<T>>)
    ensures var step := Next(max, s, First(left));
            var rest := ScriptItems(if step.polled then Later(left) else left);
            before + ScriptItems(left) ==
            (if step.out.Ready? && step.out.value.InBatch? then before + [step.out.value.item] else before) + rest
  {
    var step := Next(max, s, First(left));
    if step.out.Ready? && step.out.value.InBatch? {
      assert ScriptItems(left) == [left[0].value] + ScriptItems(left[1..]);
    }
  }

  /** No item is lost, repeated or reordered: what came out and what is still to come are the
      items of the inner stream. */
  lemma {:induction false} ItemsInOrder<T>(max: nat, polls: seq<Poll<T>>, n: nat)
    ensures Items(Polls(max, polls, n).outs) + ScriptItems(Polls(max, polls, n).left) == ScriptItems(polls)
  {
    if n > 0 {
      ItemsInOrder(max, polls, n - 1);
      StepItems(max, Polls(max, polls, n - 1));
    }
  }

  lemma StepItems<T>(max: nat, r: Run<T>)
    ensures Items(OneMore(max, r).outs) + ScriptItems(OneMore(max, r).left) == Items(r.outs) + ScriptItems(r.left)
  {
    ItemsSnoc(r.outs, Next(max, r.state, First(r.left)).out);
    NextItems(max, r.state, Items(r.outs), r.left);
  }

  lemma {:induction false} CheckedPrefix<T>(max: nat, outs: seq<Poll<BatchItem<T>>>, k: nat)
    requires k <= |outs| && Checked(max, outs).Open?
    ensures Checked(max, outs[..k]).Open?
    decreases |outs|
  {
    if k < |outs| {
      CheckedPrefix(max, outs[..|outs| - 1], k);
      assert outs[..|outs| - 1][..k] == outs[..k];
    } else {
      assert outs[..k] == outs;
    }
  }

  /** While a batch is open nothing but items and its end come out. */
  lemma {:induction false} OpenGrows<T>(max: nat, outs: seq<Poll<BatchItem<T>>>, k: nat, j: nat)
    requires k < j <= |outs| && Checked(max, outs).Open?
    requires outs[k].Ready? && outs[k].value.InBatch?
    requires forall m | k < m < j :: outs[m] != Ready(EndBatch)
    ensures Checked(max, outs[..j]).Open? && Checked(max, outs[..j]).n >= j - k
    ensures j - k <= max
    decreases j
  {
    CheckedPrefix(max, outs, j);
    CheckedPrefix(max, outs, j - 1);
    assert outs[..j - 1] + [outs[j - 1]] == outs[..j];
    CheckedSnoc(max, outs[..j - 1], outs[j - 1]);
    if j - 1 > k { OpenGrows(max, outs, k, j - 1); }
  }

  /** Every item is followed by the end of its batch within max further outputs, whatever the
      inner stream does. */
  lemma EveryItemClosed<T>(max: nat, polls: seq<Poll<T>>, n: nat, k: nat)
    requires max >= 1 && k + max < n
    requires |Polls(max, polls, n).outs| == n
    requires Polls(max, polls, n).outs[k].Ready? && Polls(max, polls, n).outs[k].value.InBatch?
    ensures exists m | k < m <= k + max :: Polls(max, polls, n).outs[m] == Ready(EndBatch)
  {
    BatchesWellFormed(max, polls, n);
    var outs := Polls(max, polls, n).outs;
    if forall m | k < m < k + max + 1 :: outs[m] != Ready(EndBatch) {
      OpenGrows(max, outs, k, k + max + 1);
    }
  }

  /** With a maximum of zero the inner stream is never polled: only empty batches come out. */
  lemma {:induction false} MaxZero<T>(polls: seq<Poll<T>>, n: nat)
    ensures Polls(0, polls, n).left == polls && Polls(0, polls, n).state == State(false, 0)
    ensures |Polls(0, polls, n).outs| == n && forall i | 0 <= i < n :: Polls(0, polls, n).outs[i] == Ready(EndBatch)
  {
    if n > 0 { MaxZero(polls, n - 1); }
  }

  /** So a maximum of at least one is exactly what well formed batches need. */
  lemma WellFormedIffMax<T>(max: nat, polls: seq<Poll<T>>)
    ensures max >= 1 <==> forall n :: Checked(max, Polls(max, polls, n).outs).Open?
  {
    if max >= 1 {
      forall n: nat ensures Checked(max, Polls(max, polls, n).outs).Open? {
        BatchesWellFormed(max, polls, n);
      }
    } else {
      assert Polls(0, polls, 1) == OneMore(0, Polls(0, polls, 0));
      var out: Poll<BatchItem<T>> := Ready(EndBatch);
      CheckedSnoc(0, Polls(0, polls, 0).outs, out);
      assert Checked(0, Polls(0, polls, 1).outs) == Broken;
    }
  }

  // ----- the end of the inner stream -----

  /** The items before the inner stream ends, or all if it does not. */
  ghost function BeforeEnd<T>(polls: seq<Poll<T>>): seq<T> {
    if polls == [] || polls[0].End? then []
    else if polls[0].Ready? then [polls[0].value] + BeforeEnd(polls[1..])
    else BeforeEnd(polls[1..])
  }

  /** The inner stream has ended within the first c polls, and did so at the last of them. */
  ghost predicate EndedAt<T>(polls: seq<Poll<T>>, c: nat) {
    1 <= c <= |polls| && polls[c - 1].End? && forall i | 0 <= i < c - 1 :: !polls[i].End?
  }

  ghost predicate NotEnded<T>(polls: seq<Poll<T>>, c: nat) {
    c <= |polls| && forall i | 0 <= i < c :: !polls[i].End?
  }

  /** What the adapter knows of the inner stream: it has taken some first polls, the flag says
      exactly whether the last of them was the end, and no poll follows the end. */
  ghost predicate FollowsAt<T>(polls: seq<Poll<T>>, left: seq<Poll<T>>, ended: bool, c: nat) {
    c <= |polls| && left == polls[c..] && if ended then EndedAt(polls, c) else NotEnded(polls, c)
  }

  ghost predicate Follows<T>(polls: seq<Poll<T>>, r: Run<T>) {
    exists c :: FollowsAt(polls, r.left, r.state.ended, c)
  }

  lemma TakeOne<T>(polls: seq<Poll<T>>, left: seq<Poll<T>>, c: nat)
    requires FollowsAt(polls, left, false, c)
    ensures First(left).End? ==> FollowsAt(polls, Later(left), true, c + 1)
    ensures !First(left).End? ==> FollowsAt(polls, Later(left), false, if left == [] then c else c + 1)
  {
    if left != [] {
      assert left[0] == polls[c] && left[1..] == polls[c + 1..];
    }
  }

  lemma NextEnds<T>(max: nat, s: State, inner: Poll<T>)
    ensures var step := Next(max, s, inner);
            && (!step.polled ==> step.state.ended == s.ended)
            && (step.polled ==> !s.ended && step.state.ended == inner.End?)
  {}

  lemma StepFollows<T>(max: nat, polls: seq<Poll<T>>, r: Run<T>)
    requires Follows(polls, r)
    ensures Follows(polls, OneMore(max, r))
  {
    var c :| FollowsAt(polls, r.left, r.state.ended, c);
    NextEnds(max, r.state, First(r.left));
    if Next(max, r.state, First(r.left)).polled { TakeOne(polls, r.left, c); }
  }

  /** In every run the inner stream is polled up to its end and never after. */
  lemma {:induction false} EndFollowed<T>(max: nat, polls: seq<Poll<T>>, n: nat)
    ensures Follows(polls, Polls(max, polls, n))
  {
    if n == 0 {
      assert FollowsAt(polls, polls, false, 0);
    } else {
      EndFollowed(max, polls, n - 1);
      StepFollows(max, polls, Polls(max, polls, n - 1));
    }
  }

  ghost function Output<T>(max: nat, polls: seq<Poll<T>>, n: nat): Poll<BatchItem<T>>
    requires n >= 1
  {
    RunLength(max, polls, n);
    Polls(max, polls, n).outs[n - 1]
  }

  /** The stream reports its end exactly when the inner stream has ended and no batch is left to
      close: the poll that meets the end of the inner stream closes an open batch first, and from
      then on every poll reports the end without touching the inner stream. */
  lemma EndReported<T>(max: nat, polls: seq<Poll<T>>, n: nat)
    requires n >= 1
    ensures var before, after := Polls(max, polls, n - 1), Polls(max, polls, n);
            && (Output(max, polls, n) == End ==> after.state.ended)
            && (before.state.ended ==> Output(max, polls, n) == End && after.left == before.left && after.state.ended)
            && (!before.state.ended && after.state.ended ==>
                  Output(max, polls, n) == if before.state.current == 0 then End else Ready(EndBatch))
  {
    RunLength(max, polls, n - 1);
  }

  /** Once ended, always ended, with nothing more taken. */
  lemma {:induction false} EndIsFinal<T>(max: nat, polls: seq<Poll<T>>, n: nat, m: nat)
    requires 1 <= n <= m && Polls(max, polls, n).state.ended
    ensures Polls(max, polls, m).state.ended && Polls(max, polls, m).left == Polls(max, polls, n).left
    ensures m > n ==> Output(max, polls, m) == End
    decreases m
  {
    if m > n {
      EndIsFinal(max, polls, n, m - 1);
      EndReported(max, polls, m);
    }
  }

  lemma StepBeforeEnd<T>(max: nat, r: Run<T>)
    ensures var q := OneMore(max, r);
            Items(q.outs) + (if q.state.ended then [] else BeforeEnd(q.left)) ==
            Items(r.outs) + (if r.state.ended then [] else BeforeEnd(r.left))
  {
    var step := Next(max, r.state, First(r.left));
    ItemsSnoc(r.outs, step.out);
    if step.out.Ready? && step.out.value.InBatch? {
      assert BeforeEnd(r.left) == [r.left[0].value] + BeforeEnd(r.left[1..]);
    }
  }

  /** So exactly the items before the end of the inner stream come out, in order. */
  lemma {:induction false} ItemsBeforeEnd<T>(max: nat, polls: seq<Poll<T>>, n: nat)
    ensures var r := Polls(max, polls, n);
            Items(r.outs) + (if r.state.ended then [] else BeforeEnd(r.left)) == BeforeEnd(polls)
  {
    if n > 0 {
      ItemsBeforeEnd(max, polls, n - 1);
      StepBeforeEnd(max, Polls(max, polls, n - 1));
    }
  }

  /** With a maximum of at least one, the adapter takes a poll of the inner stream at least with
      every second poll of its own, until that has ended. */
  lemma {:induction false} EndIsMet<T>(max: nat, polls: seq<Poll<T>>, n: nat)
    requires max >= 1
    ensures var r := Polls(max, polls, n);
            r.state.ended || 2 * |r.left| + (if r.state.current >= max then 1 else 0) + n <= 2 * |polls| || r.left == []
  {
    if n > 0 { EndIsMet(max, polls, n - 1); }
  }
}
