/** The coalescing updater (demoui/updater.go): it applies all waiting field updates to its map and
    then passes the whole map on. */
module Updater {
  import opened Options

  datatype Json = Null | Scalar(text: string) | Object(fields: map<string, Json>)

  /** No value removes the field. */
  datatype Update = Update(field: string, value: Option<Json>)

  function Apply(fields: map<string, Json>, u: Update): map<string, Json> {
    if u.value.None? then fields - {u.field} else fields[u.field := u.value.value]
  }

  function Fold(updates: seq<Update>): map<string, Json> {
    if updates == [] then map[] else Apply(Fold(updates[..|updates| - 1]), updates[|updates| - 1])
  }

  predicate IsLast(updates: seq<Update>, field: string, k: int) {
    0 <= k < |updates| && updates[k].field == field && forall j :: k < j < |updates| ==> updates[j].field != field
  }

  /** The fold holds for each field what the last update of that field set it to. */
  lemma {:induction false} FoldIsLastWrite(updates: seq<Update>, field: string)
    ensures field in Fold(updates) <==> exists k :: IsLast(updates, field, k) && updates[k].value.Some?
    ensures forall k :: IsLast(updates, field, k) && updates[k].value.Some? ==>
              field in Fold(updates) && Fold(updates)[field] == updates[k].value.value
  {
    if updates != [] {
      var n := |updates| - 1;
      var shorter := updates[..n];
      FoldIsLastWrite(shorter, field);
      if updates[n].field == field {
        assert IsLast(updates, field, n);
      } else {
        forall k: int ensures IsLast(updates, field, k) <==> IsLast(shorter, field, k) {
        }
        assert forall k :: IsLast(shorter, field, k) ==> shorter[k] == updates[k];
      }
    }
  }

  lemma FoldSnoc(updates: seq<Update>, u: Update)
    ensures Fold(updates + [u]) == Apply(Fold(updates), u)
  {
    assert (updates + [u])[..|updates|] == updates;
  }

  // ---------------------------------------------------------------------------- the machine

  /** Where the goroutine is: calling set, blocked in its select, taking all that waits, calling set(nil). */
  datatype Phase = Setting | Waiting | Draining | Clearing | Stopped

  /** `sets` tells after how many received updates each call of set with a map was made. */
  datatype Node = Node(children: map<string, Json>, phase: Phase, received: seq<Update>, sets: seq<nat>)

  const NEW_NODE := Node(map[], Setting, [], [])

  predicate Receptive(n: Node) {
    n.phase.Waiting? || n.phase.Draining?
  }

  function HasSet(n: Node): Node {
    n.(phase := Waiting, sets := n.sets + [|n.received|])
  }

  function HasReceived(n: Node, u: Update): Node {
    n.(children := Apply(n.children, u), phase := Draining, received := n.received + [u])
  }

  /** The calls of set are for longer and longer parts of what was received; only while updates are
      being taken, or are about to be passed on, is the last one not for everything. */
  ghost predicate NodeInv(n: Node) {
    && n.children == Fold(n.received)
    && (forall j, k :: 0 <= j < k < |n.sets| ==> n.sets[j] < n.sets[k])
    && (forall k :: 0 <= k < |n.sets| ==> n.sets[k] <= |n.received|)
    && (n.sets != [] ==> n.sets[0] == 0)
    && (if n.sets == [] then n.phase.Setting? && n.received == []
        else if n.phase.Setting? || n.phase.Draining? then n.sets[|n.sets| - 1] < |n.received|
        else n.sets[|n.sets| - 1] == |n.received|)
  }

  lemma NodeSteps(n: Node, u: Update)
    requires NodeInv(n)
    ensures n.phase.Setting? ==> NodeInv(HasSet(n))
    ensures Receptive(n) ==> NodeInv(HasReceived(n, u))
    ensures n.phase.Draining? ==> NodeInv(n.(phase := Setting))
  {
    FoldSnoc(n.received, u);
  }

  // ----------------------------------------------------------------------------- the object

  /** What the select finds: an update sent, nothing, or a context that is done and chosen. */
  datatype Event = Send(u: Update) | Nothing | Done

  /** The updates sent before the context is done. */
  function Sent(events: seq<Event>, from: nat): seq<Update>
    requires from <= |events|
    decreases |events| - from
  {
    if from == |events| || events[from].Done? then []
    else (if events[from].Send? then [events[from].u] else []) + Sent(events, from + 1)
  }

  /** The end of the updates that wait from there on. */
  function RunEnd(events: seq<Event>, from: nat): (end: nat)
    requires from <= |events|
    ensures from <= end <= |events|
    decreases |events| - from
  {
    if from < |events| && events[from].Send? then RunEnd(events, from + 1) else from
  }

  /** When set is called again after the first time: once for each run of waiting updates, with all of it.
      `n` updates came before. */
  function Calls(events: seq<Event>, from: nat, n: nat): seq<nat>
    requires from <= |events|
    decreases |events| - from
  {
    if from == |events| || events[from].Done? then []
    else if events[from].Nothing? then Calls(events, from + 1, n)
    else
      var end := RunEnd(events, from + 1);
      [n + (end - from)] + Calls(events, end, n + (end - from))
  }

  // ------------------------------------------------------------------------------ references

  /** The context is done at event d, and at none before; or at none, if d is the end. */
  ghost predicate FirstDone(events: seq<Event>, d: nat) {
    d <= |events| && (forall k :: 0 <= k < d ==> !events[k].Done?) && (d < |events| ==> events[d].Done?)
  }

  function SendsBefore(events: seq<Event>, n: nat): nat
    requires n <= |events|
  {
    if n == 0 then 0 else SendsBefore(events, n - 1) + if events[n - 1].Send? then 1 else 0
  }

  lemma {:induction false} SentCount(events: seq<Event>, from: nat, d: nat)
    requires FirstDone(events, d) && from <= d
    ensures |Sent(events, from)| == SendsBefore(events, d) - SendsBefore(events, from)
    decreases d - from
  {
    if from < d {
      SentCount(events, from + 1, d);
    }
  }

  lemma {:induction false} SentAt(events: seq<Event>, from: nat, k: nat)
    requires from <= k < |events| && events[k].Send? && forall j :: from <= j < k ==> !events[j].Done?
    ensures 0 <= SendsBefore(events, k) - SendsBefore(events, from) < |Sent(events, from)|
    ensures Sent(events, from)[SendsBefore(events, k) - SendsBefore(events, from)] == events[k].u
    decreases k - from
  {
    if from < k {
      SentAt(events, from + 1, k);
    }
  }

  /** The updates received are those sent before the context is done, all of them and in order. */
  lemma AllSentAreReceived(events: seq<Event>, d: nat)
    requires FirstDone(events, d)
    ensures |Sent(events, 0)| == SendsBefore(events, d)
    ensures forall k :: 0 <= k < d && events[k].Send? ==>
              SendsBefore(events, k) < |Sent(events, 0)| && Sent(events, 0)[SendsBefore(events, k)] == events[k].u
  {
    SentCount(events, 0, d);
    forall k | 0 <= k < d && events[k].Send?
      ensures SendsBefore(events, k) < |Sent(events, 0)| && Sent(events, 0)[SendsBefore(events, k)] == events[k].u
    {
      SentAt(events, 0, k);
    }
  }

  /** After event e - 1 no update waits any more. */
  ghost predicate RunEndsAt(events: seq<Event>, e: nat) {
    0 < e <= |events| && events[e - 1].Send? && (e < |events| ==> !events[e].Send?)
  }

  lemma {:induction false} RunEndIsEnd(events: seq<Event>, from: nat, d: nat)
    requires FirstDone(events, d) && from <= d
    ensures var end := RunEnd(events, from);
            && end <= d && (forall k :: from <= k < end ==> events[k].Send?) && (end < |events| ==> !events[end].Send?)
            && SendsBefore(events, end) == SendsBefore(events, from) + (end - from)
    decreases d - from
  {
    if from < d && events[from].Send? {
      RunEndIsEnd(events, from + 1, d);
    }
  }

  /** A call of set with the first m updates is made when a run of waiting updates ends between from and d. */
  ghost predicate CalledFor(events: seq<Event>, from: nat, d: nat, n: nat, m: nat)
    requires from <= d <= |events|
  {
    exists e :: from < e <= d && RunEndsAt(events, e) && m == n + SendsBefore(events, e) - SendsBefore(events, from)
  }

  lemma CalledAfterRun(events: seq<Event>, from: nat, d: nat, n: nat, m: nat, end: nat)
    requires FirstDone(events, d) && from < d && events[from].Send? && end == RunEnd(events, from + 1) <= d
    ensures SendsBefore(events, end) == SendsBefore(events, from) + (end - from)
    ensures CalledFor(events, from, d, n, m) <==> m == n + (end - from) || CalledFor(events, end, d, n + (end - from), m)
  {
    RunEndIsEnd(events, from + 1, d);
    if CalledFor(events, from, d, n, m) {
      var e :| from < e <= d && RunEndsAt(events, e) && m == n + SendsBefore(events, e) - SendsBefore(events, from);
      assert forall k :: from <= k < end ==> events[k].Send?;
      assert e >= end;
    }
    assert RunEndsAt(events, end);
  }

  lemma CalledAfterNothing(events: seq<Event>, from: nat, d: nat, n: nat, m: nat)
    requires from < d <= |events| && events[from].Nothing?
    ensures CalledFor(events, from, d, n, m) <==> CalledFor(events, from + 1, d, n, m)
  {
    assert SendsBefore(events, from + 1) == SendsBefore(events, from);
    if CalledFor(events, from, d, n, m) {
      var e :| from < e <= d && RunEndsAt(events, e) && m == n + SendsBefore(events, e) - SendsBefore(events, from);
      assert e > from + 1;
    }
  }

  lemma InFrontOrRest(x: nat, rest: seq<nat>, m: nat)
    ensures m in [x] + rest <==> m == x || m in rest
  {
  }

  lemma CallsAfterRun(events: seq<Event>, from: nat, d: nat, n: nat, m: nat, end: nat)
    requires FirstDone(events, d) && from < d && events[from].Send? && end == RunEnd(events, from + 1) <= d
    requires m in Calls(events, end, n + (end - from)) <==> CalledFor(events, end, d, n + (end - from), m)
    ensures m in Calls(events, from, n) <==> CalledFor(events, from, d, n, m)
  {
    CalledAfterRun(events, from, d, n, m, end);
    InFrontOrRest(n + (end - from), Calls(events, end, n + (end - from)), m);
  }

  lemma {:induction false} CallsFrom(events: seq<Event>, from: nat, d: nat, n: nat, m: nat)
    requires FirstDone(events, d) && from <= d
    ensures m in Calls(events, from, n) <==> CalledFor(events, from, d, n, m)
    decreases d - from
  {
    if from < d {
      if events[from].Nothing? {
        CallsFrom(events, from + 1, d, n, m);
        CalledAfterNothing(events, from, d, n, m);
      } else {
        var end := RunEnd(events, from + 1);
        RunEndIsEnd(events, from + 1, d);
        CallsFrom(events, end, d, n + (end - from), m);
        CallsAfterRun(events, from, d, n, m, end);
      }
    }
  }

  lemma {:induction false} CallsGrow(events: seq<Event>, from: nat, n: nat)
    requires from <= |events|
    ensures forall k :: 0 <= k < |Calls(events, from, n)| ==> Calls(events, from, n)[k] > n
    ensures forall j, k :: 0 <= j < k < |Calls(events, from, n)| ==> Calls(events, from, n)[j] < Calls(events, from, n)[k]
    decreases |events| - from
  {
    if from < |events| && !events[from].Done? {
      if events[from].Nothing? {
        CallsGrow(events, from + 1, n);
      } else {
        var end := RunEnd(events, from + 1);
        CallsGrow(events, end, n + (end - from));
      }
    }
  }

  /** After the first call, set is called exactly once for each run of waiting updates, when none waits any
      more, with all the updates up to there, the calls in the order of the runs. */
  lemma SetIsCalledOnceForEachRun(events: seq<Event>, d: nat)
    requires FirstDone(events, d)
    ensures forall m :: m in Calls(events, 0, 0) <==>
              exists e :: 0 < e <= d && RunEndsAt(events, e) && m == SendsBefore(events, e)
    ensures forall j, k :: 0 <= j < k < |Calls(events, 0, 0)| ==> 0 < Calls(events, 0, 0)[j] < Calls(events, 0, 0)[k]
  {
    forall m ensures m in Calls(events, 0, 0) <==>
                       exists e :: 0 < e <= d && RunEndsAt(events, e) && m == SendsBefore(events, e)
    {
      if m >= 0 {
        CallsFrom(events, 0, d, 0, m);
      }
    }
    CallsGrow(events, 0, 0);
  }

  predicate EverDone(events: seq<Event>) {
    exists k :: 0 <= k < |events| && events[k].Done?
  }

  /** What each call of set was given: a map, or nil. */
  function Passed(n: Node): seq<Option<map<string, Json>>>
    requires NodeInv(n)
  {
    seq(|n.sets|, k requires 0 <= k < |n.sets| => Some(Fold(n.received[..n.sets[k]]))) +
    if n.phase.Stopped? then [None] else []
  }

  class Updater {
    var children: map<string, Json>
    ghost var phase: Phase
    ghost var received: seq<Update>
    ghost var sets: seq<nat>
    ghost var passed: seq<Option<map<string, Json>>>

    ghost function Model(): Node
      reads this
    {
      Node(children, phase, received, sets)
    }

    ghost predicate Valid()
      reads this
    {
      NodeInv(Model()) && passed == Passed(Model())
    }

    constructor ()
      ensures Valid() && Model() == NEW_NODE
    {
      children, phase, received, sets, passed := map[], Setting, [], [], [];
    }

    /** u.set(u.children), as the maker of the updater sees it. */
    method Set()
      requires Valid() && phase.Setting?
      modifies `phase, `sets, `passed
      ensures Valid() && Model() == HasSet(old(Model()))
    {
      NodeSteps(Model(), Update("", None));
      assert received[..|received|] == received;
      passed := passed + [Some(children)];
      phase, sets := Waiting, sets + [|received|];
    }

    method Receive(u: Update)
      requires Valid() && Receptive(Model())
      modifies `children, `phase, `received
      ensures Valid() && Model() == HasReceived(old(Model()), u)
    {
      NodeSteps(Model(), u);
      if u.value.None? {
        children := children - {u.field};
      } else {
        children := children[u.field := u.value.value];
      }
      phase, received := Draining, received + [u];
      PassedStays(old(Model()), u);
    }

    /** The inner loop: takes updates for as long as there are any. */
    method ApplyAllWaitingUpdates(events: seq<Event>, from: nat) returns (next: nat)
      requires Valid() && phase.Draining? && from <= |events|
      modifies `children, `phase, `received
      ensures Valid() && phase.Draining? && next == RunEnd(events, from)
      ensures |received| == |old(received)| + (next - from) && sets == old(sets)
      ensures received + Sent(events, next) == old(received) + Sent(events, from)
      ensures passed == old(passed) && forall k :: from <= k < next ==> events[k].Send?
    {
      next := from;
      while next < |events| && events[next].Send?
        invariant Valid() && phase.Draining? && from <= next <= |events| && RunEnd(events, next) == RunEnd(events, from)
        invariant |received| == |old(received)| + (next - from)
        invariant received + Sent(events, next) == old(received) + Sent(events, from)
        invariant forall k :: from <= k < next ==> events[k].Send?
      {
        assert received + ([events[next].u] + Sent(events, next + 1)) == (received + [events[next].u]) + Sent(events, next + 1);
        Receive(events[next].u);
        next := next + 1;
      }
    }

    /** u.set(nil), when the context is done. */
    method Stop()
      requires Valid() && phase.Waiting?
      modifies `phase, `passed
      ensures Valid() && Model() == old(Model()).(phase := Stopped)
    {
      phase, passed := Stopped, passed + [None];
    }

    /** No more updates wait: back to the top of the outer loop, which passes the map on. */
    method SetAgain()
      requires Valid() && phase.Draining?
      modifies `phase, `sets, `passed
      ensures Valid() && phase.Waiting? && sets == old(sets) + [|received|]
    {
      NodeSteps(Model(), Update("", None));
      phase := Setting;
      assert passed == Passed(Model());
      Set();
    }

    /** One turn of the outer loop, once an update came. */
    method TakeAll(events: seq<Event>, from: nat) returns (next: nat)
      requires Valid() && phase.Waiting? && from < |events| && events[from].Send?
      modifies this
      ensures Valid() && phase.Waiting? && from < next <= |events|
      ensures ToCome(events, next) == old(ToCome(events, from))
      ensures forall k :: from <= k < next ==> events[k].Send?
    {
      RunComes(events, from, received, sets, RunEnd(events, from + 1), |received|);
      Receive(events[from].u);
      next := ApplyAllWaitingUpdates(events, from + 1);
      SetAgain();
    }

    /** All updates and all calls of set, once the events from `next` on have been met. */
    ghost function ToCome(events: seq<Event>, next: nat): (seq<Update>, seq<nat>)
      requires next <= |events|
      reads this
    {
      (received + Sent(events, next), sets + Calls(events, next, |received|))
    }

    /** The select of the outer loop, and what follows it. */
    method Turn(events: seq<Event>, from: nat) returns (next: nat, done: bool)
      requires Valid() && phase.Waiting? && from < |events|
      modifies this
      ensures Valid() && from <= next <= |events|
      ensures done == events[from].Done? && phase == (if done then Stopped else Waiting) && (from < next <==> !done)
      ensures ToCome(events, next) == old(ToCome(events, from))
      ensures forall k :: from <= k < next ==> !events[k].Done?
    {
      done := false;
      match events[from]
      case Done =>
        Stop();
        next, done := from, true;
      case Nothing =>
        next := from + 1;
        NothingComes(events, from, |received|);
      case Send(u) =>
        next := TakeAll(events, from);
    }

    /** The goroutine, until the schedule ends or the context does.  The maps passed to set are the
        last-write-wins folds of growing prefixes of the updates sent: the first of none, then one for each
        run of updates that wait together, the last of all; after cancellation comes nil. */
    method Start(events: seq<Event>)
      requires Valid() && Model() == NEW_NODE
      modifies this
      ensures Valid() && received == Sent(events, 0)
      ensures phase == if EverDone(events) then Stopped else Waiting
      ensures sets == [0] + Calls(events, 0, 0)
      ensures |passed| == |sets| + if EverDone(events) then 1 else 0
      ensures forall k :: 0 <= k < |sets| ==>
                sets[k] <= |Sent(events, 0)| && passed[k] == Some(Fold(Sent(events, 0)[..sets[k]]))
      ensures EverDone(events) ==> passed[|sets|] == None
    {
      Set();
      var next, done := 0, false;
      assert received + Sent(events, 0) == Sent(events, 0) && sets == [0];
      while next < |events| && !done
        invariant Valid() && next <= |events|
        invariant phase == (if done then Stopped else Waiting) && (done ==> next < |events| && events[next].Done?)
        invariant ToCome(events, next) == (Sent(events, 0), [0] + Calls(events, 0, 0))
        invariant forall k :: 0 <= k < next ==> !events[k].Done?
        decreases |events| - next, !done
      {
        next, done := Turn(events, next);
      }
      assert received + [] == received && sets + [] == sets;
      PassedMaps(Model());
    }
  }

  lemma NothingComes(events: seq<Event>, from: nat, n: nat)
    requires from < |events| && events[from].Nothing?
    ensures Sent(events, from) == Sent(events, from + 1) && Calls(events, from, n) == Calls(events, from + 1, n)
  {
  }

  lemma Associate<T>(a: seq<T>, b: seq<T>, c: seq<T>)
    ensures a + b + c == a + (b + c)
  {
  }

  /** One update, and the run of updates that follows it. */
  lemma RunComes(events: seq<Event>, from: nat, received: seq<Update>, sets: seq<nat>, end: nat, n: nat)
    requires from < |events| && events[from].Send? && end == RunEnd(events, from + 1) && n == |received|
    ensures received + Sent(events, from) == (received + [events[from].u]) + Sent(events, from + 1)
    ensures sets + Calls(events, from, n) == (sets + [n + (end - from)]) + Calls(events, end, n + (end - from))
  {
    Associate(received, [events[from].u], Sent(events, from + 1));
    Associate(sets, [n + (end - from)], Calls(events, end, n + (end - from)));
  }

  lemma PassedMaps(n: Node)
    requires NodeInv(n)
    ensures |Passed(n)| == |n.sets| + if n.phase.Stopped? then 1 else 0
    ensures forall k :: 0 <= k < |n.sets| ==> n.sets[k] <= |n.received| && Passed(n)[k] == Some(Fold(n.received[..n.sets[k]]))
    ensures n.phase.Stopped? ==> Passed(n)[|n.sets|] == None
  {
  }

  lemma PassedStays(n: Node, u: Update)
    requires NodeInv(n) && NodeInv(HasReceived(n, u)) && Receptive(n)
    ensures Passed(HasReceived(n, u)) == Passed(n)
  {
    var n' := HasReceived(n, u);
    forall k | 0 <= k < |n.sets| ensures n'.received[..n.sets[k]] == n.received[..n.sets[k]] {
    }
  }
}
