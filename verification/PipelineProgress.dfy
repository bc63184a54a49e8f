/** Trees of updaters neither block nor run for ever: while nothing new is sent, a tree that is not at rest can take
    a step of its own, and only so many of them. */
module PipelineProgress {
  import opened Updater
  import opened Pipeline
  import opened Options

  /** A step of an updater's goroutine, rather than of whoever uses the tree. */
  predicate Internal(s: Step) {
    s.NoneWaiting? || s.Set? || s.SetDropped? || s.Cancel? || s.Clear? || s.ClearDropped?
  }

  predicate Quiet(steps: seq<Step>) {
    forall k :: 0 <= k < |steps| ==> Internal(steps[k])
  }

  ghost predicate SomeInternal(t: Tree) {
    exists s :: Internal(s) && Enabled(t, s)
  }

  // ------------------------------------------------------------------------------ invariant

  predicate Ending(n: Node) {
    n.phase.Clearing? || n.phase.Stopped?
  }

  /** Only an updater whose context is done ends. */
  ghost predicate EndsWhenDone(t: Tree) {
    Shape(t) && forall c :: 0 <= c < |t.nodes| && Ending(t.nodes[c]) ==> c in t.done
  }

  lemma StepKeepsEnds(render: Json -> string, t: Tree, s: Step)
    requires EndsWhenDone(t) && Enabled(t, s)
    ensures EndsWhenDone(Next(render, t, s))
  {
    if s.Set? || s.Clear? {
      DeliveryKeepsEnds(render, t, s.c);
    }
  }

  lemma DeliveryKeepsEnds(render: Json -> string, t: Tree, c: nat)
    requires EndsWhenDone(t) && c < |t.nodes| && (c == 0 || CanDeliver(t, c))
    requires t.nodes[c].phase.Setting? || t.nodes[c].phase.Clearing?
    ensures EndsWhenDone(Delivered(render, t, c))
  {
  }

  lemma {:induction false} EndsAlways(render: Json -> string, t: Tree, steps: seq<Step>)
    requires EndsWhenDone(t) && Possible(render, t, steps)
    ensures EndsWhenDone(After(render, t, steps))
    decreases |steps|
  {
    if steps != [] {
      StepKeepsEnds(render, t, steps[0]);
      EndsAlways(render, Next(render, t, steps[0]), steps[1..]);
    }
  }

  // -------------------------------------------------------------------------------- no block

  predicate Resting(t: Tree, c: nat)
    requires c < |t.nodes|
  {
    if t.nodes[c].phase.Waiting? then c !in t.done else t.nodes[c].phase.Stopped?
  }

  /** An updater that is not at rest can move, or one of those it sends to can. */
  lemma {:induction false} SomeStep(t: Tree, c: nat) returns (s: Step)
    requires EndsWhenDone(t) && c < |t.nodes| && !Resting(t, c)
    ensures Internal(s) && Enabled(t, s)
    decreases c
  {
    var n := t.nodes[c];
    if n.phase.Waiting? {
      s := Cancel(c);
    } else if n.phase.Draining? {
      s := NoneWaiting(c);
    } else {
      var p := t.links[c].parent;
      if c == 0 || Receptive(t.nodes[p]) {
        s := if n.phase.Setting? then Set(c) else Clear(c);
      } else if t.nodes[p].phase.Setting? {
        s := SomeStep(t, p);
      } else {
        s := if n.phase.Setting? then SetDropped(c) else ClearDropped(c);
      }
    }
  }

  lemma Restless(t: Tree) returns (c: nat)
    requires !AtRest(t)
    ensures c < |t.nodes| && !Resting(t, c)
  {
    c :| 0 <= c < |t.nodes| && !(if t.nodes[c].phase.Waiting? then c !in t.done else t.nodes[c].phase.Stopped?);
  }

  lemma RestsOrCanMove(t: Tree)
    requires EndsWhenDone(t)
    ensures AtRest(t) || SomeInternal(t)
  {
    if !AtRest(t) {
      var c := Restless(t);
      var s := SomeStep(t, c);
    }
  }

  // ------------------------------------------------------------------------------- no cycling

  function Pow3(n: nat): (r: nat)
    ensures r >= 1
  {
    if n == 0 then 1 else 3 * Pow3(n - 1)
  }

  lemma {:induction false} Pow3Grows(p: nat, c: nat)
    requires p < c
    ensures 3 * Pow3(p) <= Pow3(c)
  {
    if p < c - 1 {
      Pow3Grows(p, c - 1);
    }
  }

  /** How many steps an updater has before it when nothing more is sent to it. */
  function Ahead(n: Node, done: bool): nat {
    match n.phase
    case Setting => if done then 3 else 1
    case Waiting => if done then 2 else 0
    case Draining => if done then 4 else 2
    case Clearing => 1
    case Stopped => 0
  }

  /** A step of a nested updater may give the one it sends to two more, and that one all those above it. */
  function Measure(nodes: seq<Node>, done: set<int>): nat {
    if nodes == [] then 0
    else
      var c := |nodes| - 1;
      Measure(nodes[..c], done) + Ahead(nodes[c], c in done) * Pow3(c)
  }

  lemma {:induction false} MeasureUpdate(nodes: seq<Node>, done: set<int>, c: nat, n: Node)
    requires c < |nodes|
    ensures Measure(nodes[c := n], done) + Ahead(nodes[c], c in done) * Pow3(c) ==
            Measure(nodes, done) + Ahead(n, c in done) * Pow3(c)
  {
    var last := |nodes| - 1;
    if c == last {
      assert nodes[c := n][..last] == nodes[..last];
    } else {
      assert nodes[c := n][..last] == nodes[..last][c := n];
      MeasureUpdate(nodes[..last], done, c, n);
    }
  }

  lemma TimesLess(a: nat, b: nat, x: nat)
    requires a < b && x >= 1
    ensures a * x + x <= b * x
  {
    assert (a + 1) * x == a * x + x;
    var more := b - (a + 1);
    assert b * x == (a + 1) * x + more * x;
  }

  /** One updater moves, and none receives anything. */
  lemma MoveTakesAStep(nodes: seq<Node>, done: set<int>, c: nat, n: Node)
    requires c < |nodes| && Ahead(n, c in done) < Ahead(nodes[c], c in done)
    ensures Measure(nodes[c := n], done) + Pow3(c) <= Measure(nodes, done)
  {
    MeasureUpdate(nodes, done, c, n);
    TimesLess(Ahead(n, c in done), Ahead(nodes[c], c in done), Pow3(c));
  }

  lemma ReceivingAddsTwo(nodes: seq<Node>, done: set<int>, p: nat, u: Update)
    requires p < |nodes| && Receptive(nodes[p])
    ensures Measure(nodes[p := HasReceived(nodes[p], u)], done) <= Measure(nodes, done) + 2 * Pow3(p)
  {
    MeasureUpdate(nodes, done, p, HasReceived(nodes[p], u));
  }

  lemma DeliveryTakesAStep(nodes: seq<Node>, done: set<int>, c: nat, p: nat, u: Update)
    requires p < c < |nodes| && Receptive(nodes[p]) && (nodes[c].phase.Setting? || nodes[c].phase.Clearing?)
    ensures Measure(nodes[p := HasReceived(nodes[p], u)][c := Moved(nodes[c])], done) < Measure(nodes, done)
  {
    var mid := nodes[p := HasReceived(nodes[p], u)];
    ReceivingAddsTwo(nodes, done, p, u);
    MoveTakesAStep(mid, done, c, Moved(nodes[c]));
    Pow3Grows(p, c);
  }

  lemma InternalTakesAStep(render: Json -> string, t: Tree, s: Step)
    requires EndsWhenDone(t) && Internal(s) && Enabled(t, s)
    ensures Measure(Next(render, t, s).nodes, t.done) < Measure(t.nodes, t.done)
    ensures Next(render, t, s).done == t.done
  {
    match s
    case NoneWaiting(p) => MoveTakesAStep(t.nodes, t.done, p, t.nodes[p].(phase := Setting));
    case SetDropped(c) => MoveTakesAStep(t.nodes, t.done, c, Moved(t.nodes[c]));
    case ClearDropped(c) => MoveTakesAStep(t.nodes, t.done, c, Moved(t.nodes[c]));
    case Cancel(c) => MoveTakesAStep(t.nodes, t.done, c, t.nodes[c].(phase := Clearing));
    case Set(c) => SentUp(render, t, c);
    case Clear(c) => SentUp(render, t, c);
  }

  lemma SentUp(render: Json -> string, t: Tree, c: nat)
    requires EndsWhenDone(t) && c < |t.nodes| && (c == 0 || CanDeliver(t, c))
    requires t.nodes[c].phase.Setting? || t.nodes[c].phase.Clearing?
    ensures Measure(Delivered(render, t, c).nodes, t.done) < Measure(t.nodes, t.done)
  {
    if c == 0 {
      MoveTakesAStep(t.nodes, t.done, 0, Moved(t.nodes[0]));
    } else {
      DeliveryTakesAStep(t.nodes, t.done, c, t.links[c].parent, Message(t, c));
    }
  }

  lemma {:induction false} QuietStepsAreBounded(render: Json -> string, t: Tree, quiet: seq<Step>)
    requires EndsWhenDone(t) && Possible(render, t, quiet) && Quiet(quiet)
    ensures |quiet| + Measure(After(render, t, quiet).nodes, t.done) <= Measure(t.nodes, t.done)
    decreases |quiet|
  {
    if quiet != [] {
      var t' := Next(render, t, quiet[0]);
      StepKeepsEnds(render, t, quiet[0]);
      InternalTakesAStep(render, t, quiet[0]);
      QuietStepsAreBounded(render, t', quiet[1..]);
    }
  }

  /** From every tree that can be reached: as long as nothing is sent, nested or cancelled, the updaters take only a
      bounded number of steps, and whenever none can take one any more, all of them wait or have stopped.  So the
      tree comes to rest, which is when its last write is the whole tree. */
  lemma QuietTreesComeToRest(render: Json -> string, before: seq<Step>, quiet: seq<Step>)
    requires Possible(render, START, before) && Possible(render, After(render, START, before), quiet) && Quiet(quiet)
    ensures var t := After(render, START, before); var t' := After(render, t, quiet);
            |quiet| <= Measure(t.nodes, t.done) && (AtRest(t') || SomeInternal(t'))
  {
    var t := After(render, START, before);
    EndsAlways(render, START, before);
    QuietStepsAreBounded(render, t, quiet);
    EndsAlways(render, t, quiet);
    RestsOrCanMove(After(render, t, quiet));
  }

  /** And there is a way for it to come to rest. */
  lemma {:induction false} RestIsReached(render: Json -> string, t: Tree) returns (quiet: seq<Step>)
    requires EndsWhenDone(t)
    ensures Quiet(quiet) && Possible(render, t, quiet) && AtRest(After(render, t, quiet))
    decreases Measure(t.nodes, t.done)
  {
    if AtRest(t) {
      quiet := [];
    } else {
      var c := Restless(t);
      var s := SomeStep(t, c);
      StepKeepsEnds(render, t, s);
      InternalTakesAStep(render, t, s);
      var rest := RestIsReached(render, Next(render, t, s));
      quiet := [s] + rest;
      assert quiet[1..] == rest;
    }
  }

  // -------------------------------------------------------------------------------- history

  /** What is sent directly to updater p. */
  function Pushes(steps: seq<Step>, p: nat): seq<Update> {
    if steps == [] then []
    else (if steps[0].Push? && steps[0].p == p then [steps[0].u] else []) + Pushes(steps[1..], p)
  }

  /** The fields for which updaters are nested. */
  function Nested(steps: seq<Step>): seq<Link> {
    if steps == [] then [] else (if steps[0].Nest? then [steps[0].link] else []) + Nested(steps[1..])
  }

  function DirectOf(t: Tree, p: nat): seq<Update> {
    if p < |t.direct| then t.direct[p] else []
  }

  lemma StepKeepsHistory(render: Json -> string, t: Tree, s: Step, p: nat)
    requires Shape(t) && Enabled(t, s)
    ensures Shape(Next(render, t, s))
    ensures DirectOf(Next(render, t, s), p) == DirectOf(t, p) + if s.Push? && s.p == p then [s.u] else []
    ensures Next(render, t, s).links == t.links + if s.Nest? then [s.link] else []
  {
    assert DirectOf(t, p) + [] == DirectOf(t, p) && t.links + [] == t.links;
  }

  lemma Regroup<T>(a: seq<T>, b: seq<T>, c: seq<T>)
    ensures a + b + c == a + (b + c)
  {
  }

  lemma {:induction false} DirectFrom(render: Json -> string, t: Tree, steps: seq<Step>, p: nat, t': Tree)
    requires Shape(t) && Possible(render, t, steps) && t' == After(render, t, steps)
    ensures DirectOf(t', p) == DirectOf(t, p) + Pushes(steps, p)
    decreases |steps|
  {
    if steps == [] {
      assert DirectOf(t, p) + [] == DirectOf(t, p);
    } else {
      var s := steps[0];
      StepKeepsHistory(render, t, s, p);
      DirectFrom(render, Next(render, t, s), steps[1..], p, t');
      Regroup(DirectOf(t, p), if s.Push? && s.p == p then [s.u] else [], Pushes(steps[1..], p));
    }
  }

  lemma {:induction false} LinksFrom(render: Json -> string, t: Tree, steps: seq<Step>, t': Tree)
    requires Shape(t) && Possible(render, t, steps) && t' == After(render, t, steps)
    ensures t'.links == t.links + Nested(steps)
    decreases |steps|
  {
    if steps == [] {
      assert t.links + [] == t.links;
    } else {
      var s := steps[0];
      StepKeepsHistory(render, t, s, 0);
      LinksFrom(render, Next(render, t, s), steps[1..], t');
      Regroup(t.links, if s.Nest? then [s.link] else [], Nested(steps[1..]));
    }
  }

  /** The tree is made of the updaters nested, and stands for all that was sent to each of them and nothing else. */
  lemma TreeHoldsWhatWasSent(render: Json -> string, steps: seq<Step>, p: nat)
    requires Possible(render, START, steps)
    ensures var t := After(render, START, steps);
            t.links == [NO_LINK] + Nested(steps) && (p < |t.direct| ==> t.direct[p] == Pushes(steps, p))
  {
    DirectFrom(render, START, steps, p, After(render, START, steps));
    LinksFrom(render, START, steps, After(render, START, steps));
    assert DirectOf(START, p) == [] && [] + Pushes(steps, p) == Pushes(steps, p);
  }
}
