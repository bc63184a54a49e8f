/** A tree of updaters feeding a byteSub (demoui/updater.go:65-109, demoui/demoui.go:45-51): a nested
    updater sets its field of its parent, the root announces its rendering, subscribers write it.
    All of them run interleaved; a send and the receive it meets are one step. */
module Pipeline {
  import opened Updater
  import B = ByteSub
  import opened Options

  /** The updater and field that an updater sets; updater 0, the root, has no parent. */
  datatype Link = Link(parent: int, field: string)

  const NO_LINK := Link(-1, "")

  /** The updaters in the order they were made, with their links.  `direct` holds the updates that
      did not come from nested updaters, `done` the updaters whose context is done. */
  datatype Tree = Tree(nodes: seq<Node>, links: seq<Link>, direct: seq<seq<Update>>, done: set<int>, broadcast: B.System)

  datatype Step =
    | Nest(link: Link)
    | Push(p: nat, u: Update)
    | NoneWaiting(p: nat)
    | Set(c: nat)
    | SetDropped(c: nat)
    | ContextDone(c: nat)
    | Cancel(c: nat)
    | Clear(c: nat)
    | ClearDropped(c: nat)
    | Subscriber(step: B.Step)

  const START := Tree([NEW_NODE], [NO_LINK], [[]], {}, B.START)

  predicate Owned(t: Tree, p: nat, field: string) {
    Link(p, field) in t.links
  }

  /** What a nested updater in phase Setting or Clearing sends to its parent. */
  function Message(t: Tree, c: nat): Update
    requires c < |t.nodes| == |t.links|
  {
    Update(t.links[c].field, if t.nodes[c].phase.Setting? then Some(Object(t.nodes[c].children)) else None)
  }

  predicate CanDeliver(t: Tree, c: nat) {
    c < |t.nodes| == |t.links| && 0 <= t.links[c].parent < c && Receptive(t.nodes[t.links[c].parent])
  }

  /** The parent no longer listens and its context is done: the send may be given up. */
  predicate CanDrop(t: Tree, c: nat) {
    0 < c < |t.nodes| == |t.links| && t.links[c].parent in t.done
  }

  predicate Enabled(t: Tree, s: Step) {
    match s
    case Nest(link) => 0 <= link.parent < |t.nodes| && link !in t.links
    case Push(p, u) => p < |t.nodes| && Receptive(t.nodes[p]) && !Owned(t, p, u.field) && p < |t.direct|
    case NoneWaiting(p) => p < |t.nodes| && t.nodes[p].phase.Draining?
    case Set(c) => c < |t.nodes| && t.nodes[c].phase.Setting? && (c == 0 || CanDeliver(t, c))
    case SetDropped(c) => c < |t.nodes| && t.nodes[c].phase.Setting? && CanDrop(t, c)
    case ContextDone(c) => c < |t.nodes|
    case Cancel(c) => c < |t.nodes| && t.nodes[c].phase.Waiting? && c in t.done
    case Clear(c) => c < |t.nodes| && t.nodes[c].phase.Clearing? && (c == 0 || CanDeliver(t, c))
    case ClearDropped(c) => c < |t.nodes| && t.nodes[c].phase.Clearing? && CanDrop(t, c)
    case Subscriber(step) => !step.Announce? && B.Enabled(t.broadcast, step)
  }

  function Moved(n: Node): Node {
    if n.phase.Setting? then HasSet(n) else n.(phase := Stopped)
  }

  /** Updater c finishes a call of set.  Its parent has the message, or the root's value is announced. */
  function Delivered(render: Json -> string, t: Tree, c: nat): Tree
    requires c == 0 < |t.nodes| || CanDeliver(t, c)
  {
    if c == 0 then
      var value := if t.nodes[0].phase.Setting? then Object(t.nodes[0].children) else Null;
      t.(nodes := t.nodes[0 := Moved(t.nodes[0])], broadcast := B.Next(t.broadcast, B.Announce(B.Bytes(render(value)))))
    else
      var p := t.links[c].parent;
      t.(nodes := t.nodes[p := HasReceived(t.nodes[p], Message(t, c))][c := Moved(t.nodes[c])])
  }

  function Next(render: Json -> string, t: Tree, s: Step): Tree
    requires Enabled(t, s)
  {
    match s
    case Nest(link) => t.(nodes := t.nodes + [NEW_NODE], links := t.links + [link], direct := t.direct + [[]])
    case Push(p, u) =>
      t.(nodes := t.nodes[p := HasReceived(t.nodes[p], u)], direct := t.direct[p := t.direct[p] + [u]])
    case NoneWaiting(p) => t.(nodes := t.nodes[p := t.nodes[p].(phase := Setting)])
    case Set(c) => Delivered(render, t, c)
    case SetDropped(c) => t.(nodes := t.nodes[c := Moved(t.nodes[c])])
    case ContextDone(c) => t.(done := t.done + {c})
    case Cancel(c) => t.(nodes := t.nodes[c := t.nodes[c].(phase := Clearing)])
    case Clear(c) => Delivered(render, t, c)
    case ClearDropped(c) => t.(nodes := t.nodes[c := Moved(t.nodes[c])])
    case Subscriber(step) => t.(broadcast := B.Next(t.broadcast, step))
  }

  predicate Possible(render: Json -> string, t: Tree, steps: seq<Step>)
    decreases |steps|
  {
    steps == [] || (Enabled(t, steps[0]) && Possible(render, Next(render, t, steps[0]), steps[1..]))
  }

  function After(render: Json -> string, t: Tree, steps: seq<Step>): Tree
    requires Possible(render, t, steps)
    decreases |steps|
  {
    if steps == [] then t else After(render, Next(render, t, steps[0]), steps[1..])
  }

  // ------------------------------------------------------------------------------ invariant

  ghost predicate Shape(t: Tree) {
    && 0 < |t.nodes| == |t.links| == |t.direct| && t.links[0] == NO_LINK
    && (forall c :: 0 < c < |t.links| ==> 0 <= t.links[c].parent < c)
    && (forall c, d :: 0 <= c < d < |t.links| ==> t.links[c] != t.links[d])
  }

  ghost predicate Nodes(t: Tree) {
    forall c :: 0 <= c < |t.nodes| ==> NodeInv(t.nodes[c])
  }

  function Last(n: Node): nat
    requires n.sets != []
  {
    n.sets[|n.sets| - 1]
  }

  /** What the parent's field must hold for a nested updater: what it last set, or nothing once cleared. */
  ghost predicate InStep(n: Node, parent: Node, field: string) {
    if n.phase.Stopped? then field !in parent.children
    else n.sets != [] ==>
           Last(n) <= |n.received| && field in parent.children &&
           parent.children[field] == Object(Fold(n.received[..Last(n)]))
  }

  ghost predicate LinkKept(t: Tree, c: int)
    requires Shape(t) && 0 < c < |t.nodes|
  {
    t.links[c].parent !in t.done ==> InStep(t.nodes[c], t.nodes[t.links[c].parent], t.links[c].field)
  }

  ghost predicate Links(t: Tree)
    requires Shape(t)
  {
    forall c :: 0 < c < |t.nodes| ==> LinkKept(t, c)
  }

  ghost predicate SameAt(a: map<string, Json>, b: map<string, Json>, field: string) {
    (field in a <==> field in b) && (field in a ==> a[field] == b[field])
  }

  /** A field no nested updater owns holds what was last set directly. */
  ghost predicate DirectKept(t: Tree, p: int, field: string)
    requires Shape(t) && 0 <= p < |t.nodes|
  {
    !Owned(t, p, field) ==> SameAt(t.nodes[p].children, Fold(t.direct[p]), field)
  }

  ghost predicate Direct(t: Tree)
    requires Shape(t)
  {
    forall p, field :: 0 <= p < |t.nodes| ==> DirectKept(t, p, field)
  }

  /** What the root's k-th call of set announced. */
  function Announcement(render: Json -> string, root: Node, k: nat): string
    requires k < |root.sets| ==> root.sets[k] <= |root.received|
  {
    if k < |root.sets| then render(Object(Fold(root.received[..root.sets[k]]))) else render(Null)
  }

  ghost predicate Announcements(render: Json -> string, root: Node, announced: seq<B.Value>)
    requires NodeInv(root)
  {
    && |announced| == |root.sets| + (if root.phase.Stopped? then 1 else 0)
    && forall k :: 0 <= k < |announced| ==> announced[k] == B.Bytes(Announcement(render, root, k))
  }

  ghost predicate Inv(render: Json -> string, t: Tree) {
    && Shape(t) && Nodes(t) && Links(t) && Direct(t)
    && Announcements(render, t.nodes[0], t.broadcast.bus.announced) && B.Inv(t.broadcast)
  }

  lemma StartInv(render: Json -> string)
    ensures Inv(render, START)
  {
  }

  // ----------------------------------------------------------------- what receiving changes

  lemma ReceivingKeepsOwnLink(n: Node, parent: Node, field: string, u: Update)
    requires InStep(n, parent, field) && NodeInv(n) && Receptive(n)
    ensures InStep(HasReceived(n, u), parent, field)
  {
    if n.sets != [] {
      assert HasReceived(n, u).received[..Last(n)] == n.received[..Last(n)];
    }
  }

  lemma ReceivingKeepsOtherLinks(n: Node, parent: Node, field: string, u: Update)
    requires InStep(n, parent, field) && u.field != field
    ensures InStep(n, HasReceived(parent, u), field)
  {
  }

  lemma SettingMakesInStep(n: Node, parent: Node, field: string)
    requires NodeInv(n) && n.phase.Setting?
    ensures InStep(HasSet(n), HasReceived(parent, Update(field, Some(Object(n.children)))), field)
  {
    assert n.received[..|n.received|] == n.received;
  }

  lemma ReceivingKeepsAnnouncements(render: Json -> string, root: Node, u: Update, announced: seq<B.Value>)
    requires NodeInv(root) && Receptive(root) && Announcements(render, root, announced)
    ensures NodeInv(HasReceived(root, u)) && Announcements(render, HasReceived(root, u), announced)
  {
    NodeSteps(root, u);
    forall k | 0 <= k < |root.sets| ensures HasReceived(root, u).received[..root.sets[k]] == root.received[..root.sets[k]] {
    }
  }

  function Receiving(t: Tree, p: nat, u: Update): Tree
    requires p < |t.nodes|
  {
    t.(nodes := t.nodes[p := HasReceived(t.nodes[p], u)])
  }

  /** When p receives an update of a field, every link but the one of that field stays in step. */
  lemma LinkAfterReceiving(t: Tree, p: nat, u: Update, c: nat)
    requires Shape(t) && Nodes(t) && p < |t.nodes| && Receptive(t.nodes[p])
    requires 0 < c < |t.nodes| && t.links[c] != Link(p, u.field) && LinkKept(t, c)
    ensures LinkKept(Receiving(t, p, u), c)
  {
    if t.links[c].parent !in t.done {
      var q, field := t.links[c].parent, t.links[c].field;
      if p == c {
        ReceivingKeepsOwnLink(t.nodes[c], t.nodes[q], field, u);
      } else if p == q {
        ReceivingKeepsOtherLinks(t.nodes[c], t.nodes[q], field, u);
      }
    }
  }

  lemma SameChildrenKeepDirect(t: Tree, t': Tree)
    requires Shape(t) && Shape(t') && Direct(t) && t'.links == t.links && t'.direct == t.direct
    requires forall p :: 0 <= p < |t.nodes| ==> t'.nodes[p].children == t.nodes[p].children
    ensures Direct(t')
  {
    forall p, field | 0 <= p < |t'.nodes| ensures DirectKept(t', p, field) {
      assert DirectKept(t, p, field);
    }
  }

  lemma DirectAfterReceiving(t: Tree, p: nat, u: Update)
    requires Shape(t) && Direct(t) && p < |t.nodes| && Owned(t, p, u.field)
    ensures Direct(Receiving(t, p, u))
  {
    forall q, field | 0 <= q < |t.nodes| ensures DirectKept(Receiving(t, p, u), q, field) {
      assert DirectKept(t, q, field);
    }
  }

  lemma PushKeepsDirect(t: Tree, p: nat, u: Update)
    requires Shape(t) && Direct(t) && p < |t.nodes|
    ensures var t' := Receiving(t, p, u).(direct := t.direct[p := t.direct[p] + [u]]);
            Shape(t') && Direct(t')
  {
    FoldSnoc(t.direct[p], u);
    var t' := Receiving(t, p, u).(direct := t.direct[p := t.direct[p] + [u]]);
    forall q, field | 0 <= q < |t.nodes| ensures DirectKept(t', q, field) {
      assert DirectKept(t, q, field);
      if q == p && !Owned(t, p, field) {
        ApplyKeepsSame(t.nodes[p].children, Fold(t.direct[p]), u, field);
      }
    }
  }

  lemma ApplyKeepsSame(a: map<string, Json>, b: map<string, Json>, u: Update, field: string)
    requires SameAt(a, b, field)
    ensures SameAt(Apply(a, u), Apply(b, u), field)
  {
  }

  lemma NodesAfterReceiving(t: Tree, p: nat, u: Update)
    requires Nodes(t) && p < |t.nodes| && Receptive(t.nodes[p])
    ensures Nodes(Receiving(t, p, u))
  {
    NodeSteps(t.nodes[p], u);
  }

  lemma PushKeepsInv(render: Json -> string, t: Tree, p: nat, u: Update)
    requires Inv(render, t) && Enabled(t, Push(p, u))
    ensures Inv(render, Next(render, t, Push(p, u)))
  {
    NodesAfterReceiving(t, p, u);
    PushKeepsDirect(t, p, u);
    var t' := Next(render, t, Push(p, u));
    forall c | 0 < c < |t.nodes| ensures LinkKept(t', c) {
      assert t.links[c] in t.links && LinkKept(t, c);
      LinkAfterReceiving(t, p, u, c);
    }
    if p == 0 {
      ReceivingKeepsAnnouncements(render, t.nodes[0], u, t.broadcast.bus.announced);
    }
  }

  /** A nested updater's call of set, or of set(nil), reaches its parent. */
  lemma DeliveryKeepsLinks(t: Tree, c: nat)
    requires Shape(t) && Nodes(t) && Links(t) && 0 < c && CanDeliver(t, c)
    requires t.nodes[c].phase.Setting? || t.nodes[c].phase.Clearing?
    ensures var mid := Receiving(t, t.links[c].parent, Message(t, c));
            Links(mid.(nodes := mid.nodes[c := Moved(mid.nodes[c])]))
  {
    var p, u := t.links[c].parent, Message(t, c);
    var mid := Receiving(t, p, u);
    var t' := mid.(nodes := mid.nodes[c := Moved(mid.nodes[c])]);
    forall d | 0 < d < |t.nodes| ensures LinkKept(t', d) {
      assert LinkKept(t, d);
      if d == c {
        if t.nodes[c].phase.Setting? {
          SettingMakesInStep(t.nodes[c], t.nodes[p], u.field);
        }
      } else {
        assert t.links[d] != t.links[c];
        LinkAfterReceiving(t, p, u, d);
        MovingKeepsChildLinks(mid, c, d);
      }
    }
  }

  /** Finishing a call of set does not touch the updater's map. */
  lemma MovingKeepsChildLinks(t: Tree, c: nat, d: nat)
    requires Shape(t) && c < |t.nodes| && 0 < d < |t.nodes| && d != c && LinkKept(t, d)
    ensures LinkKept(t.(nodes := t.nodes[c := Moved(t.nodes[c])]), d)
  {
  }

  lemma MovedInv(n: Node)
    requires NodeInv(n) && (n.phase.Setting? || n.phase.Clearing?)
    ensures NodeInv(Moved(n)) && Moved(n).children == n.children
  {
    NodeSteps(n, Update("", None));
  }

  lemma DeliveryKeepsInv(render: Json -> string, t: Tree, c: nat)
    requires Inv(render, t) && 0 < c && CanDeliver(t, c)
    requires t.nodes[c].phase.Setting? || t.nodes[c].phase.Clearing?
    ensures Inv(render, Delivered(render, t, c))
  {
    var p, u := t.links[c].parent, Message(t, c);
    assert t.links[c] == Link(p, u.field);
    NodesAfterReceiving(t, p, u);
    DirectAfterReceiving(t, p, u);
    DeliveryKeepsLinks(t, c);
    MovedInv(t.nodes[c]);
    SameChildrenKeepDirect(Receiving(t, p, u), Delivered(render, t, c));
    if p == 0 {
      ReceivingKeepsAnnouncements(render, t.nodes[0], u, t.broadcast.bus.announced);
    }
  }

  lemma AnnouncingKeepsInv(render: Json -> string, t: Tree)
    requires Inv(render, t) && (t.nodes[0].phase.Setting? || t.nodes[0].phase.Clearing?)
    ensures Inv(render, Delivered(render, t, 0))
  {
    var root, t' := t.nodes[0], Delivered(render, t, 0);
    MovedInv(root);
    assert root.received[..|root.received|] == root.received;
    var value := if root.phase.Setting? then Object(root.children) else Null;
    B.StepKeepsInv(t.broadcast, B.Announce(B.Bytes(render(value))));
    SameChildrenKeepDirect(t, t');
    forall d | 0 < d < |t.nodes| ensures LinkKept(t', d) {
      assert LinkKept(t, d);
      MovingKeepsChildLinks(t, 0, d);
    }
  }

  lemma DroppingKeepsInv(render: Json -> string, t: Tree, c: nat)
    requires Inv(render, t) && CanDrop(t, c) && (t.nodes[c].phase.Setting? || t.nodes[c].phase.Clearing?)
    ensures Inv(render, t.(nodes := t.nodes[c := Moved(t.nodes[c])]))
  {
    MovedInv(t.nodes[c]);
    var t' := t.(nodes := t.nodes[c := Moved(t.nodes[c])]);
    SameChildrenKeepDirect(t, t');
    forall d | 0 < d < |t.nodes| ensures LinkKept(t', d) {
      assert LinkKept(t, d);
    }
  }

  lemma NestingKeepsInv(render: Json -> string, t: Tree, link: Link)
    requires Inv(render, t) && Enabled(t, Nest(link))
    ensures Inv(render, Next(render, t, Nest(link)))
  {
    var t' := Next(render, t, Nest(link));
    forall d | 0 < d < |t'.nodes| ensures LinkKept(t', d) {
      if d < |t.nodes| {
        assert LinkKept(t, d);
      }
    }
    forall p, field | 0 <= p < |t'.nodes| ensures DirectKept(t', p, field) {
      assert p < |t.nodes| ==> DirectKept(t, p, field);
    }
  }

  lemma SubscriberKeepsInv(render: Json -> string, t: Tree, step: B.Step)
    requires Inv(render, t) && Enabled(t, Subscriber(step))
    ensures Inv(render, Next(render, t, Subscriber(step)))
  {
    var t' := Next(render, t, Subscriber(step));
    B.StepKeepsInv(t.broadcast, step);
    SameChildrenKeepDirect(t, t');
    forall d | 0 < d < |t.nodes| ensures LinkKept(t', d) {
      assert LinkKept(t, d);
    }
  }

  lemma PhaseKeepsInv(render: Json -> string, t: Tree, c: nat, phase: Phase)
    requires Inv(render, t) && c < |t.nodes| && !t.nodes[c].phase.Stopped? && !phase.Stopped?
    requires NodeInv(t.nodes[c].(phase := phase))
    ensures Inv(render, t.(nodes := t.nodes[c := t.nodes[c].(phase := phase)]))
  {
    var t' := t.(nodes := t.nodes[c := t.nodes[c].(phase := phase)]);
    SameChildrenKeepDirect(t, t');
    forall d | 0 < d < |t.nodes| ensures LinkKept(t', d) {
      PhaseKeepsLink(t, c, phase, d);
    }
  }

  lemma PhaseKeepsLink(t: Tree, c: nat, phase: Phase, d: int)
    requires Shape(t) && Links(t) && c < |t.nodes| && !t.nodes[c].phase.Stopped? && !phase.Stopped?
    requires 0 < d < |t.nodes|
    ensures LinkKept(t.(nodes := t.nodes[c := t.nodes[c].(phase := phase)]), d)
  {
    assert LinkKept(t, d);
  }

  lemma ContextDoneKeepsInv(render: Json -> string, t: Tree, c: nat)
    requires Inv(render, t)
    ensures Inv(render, t.(done := t.done + {c}))
  {
    var t' := t.(done := t.done + {c});
    SameChildrenKeepDirect(t, t');
    forall d | 0 < d < |t.nodes| ensures LinkKept(t', d) {
      assert LinkKept(t, d);
    }
  }

  lemma StepKeepsInv(render: Json -> string, t: Tree, s: Step)
    requires Inv(render, t) && Enabled(t, s)
    ensures Inv(render, Next(render, t, s))
  {
    match s
    case Nest(link) => NestingKeepsInv(render, t, link);
    case Push(p, u) => PushKeepsInv(render, t, p, u);
    case Set(c) => if c == 0 { AnnouncingKeepsInv(render, t); } else { DeliveryKeepsInv(render, t, c); }
    case Clear(c) => if c == 0 { AnnouncingKeepsInv(render, t); } else { DeliveryKeepsInv(render, t, c); }
    case SetDropped(c) => DroppingKeepsInv(render, t, c);
    case ClearDropped(c) => DroppingKeepsInv(render, t, c);
    case Subscriber(step) => SubscriberKeepsInv(render, t, step);
    case NoneWaiting(p) => PhaseKeepsInv(render, t, p, Setting);
    case Cancel(c) => PhaseKeepsInv(render, t, c, Clearing);
    case ContextDone(c) => ContextDoneKeepsInv(render, t, c);
  }

  lemma {:induction false} InvAlways(render: Json -> string, t: Tree, steps: seq<Step>)
    requires Inv(render, t) && Possible(render, t, steps)
    ensures Inv(render, After(render, t, steps))
    decreases |steps|
  {
    if steps != [] {
      StepKeepsInv(render, t, steps[0]);
      InvAlways(render, Next(render, t, steps[0]), steps[1..]);
    }
  }

  // ------------------------------------------------------------------------------- theorems

  /** The part of the root's updates that a write shows; a write of the cancelled root's null shows all. */
  function Shown(root: Node, call: B.Call): nat {
    if 0 < call.generation <= |root.sets| then root.sets[call.generation - 1] else |root.received| + 1
  }

  /** Everything a subscriber writes is the rendering of the root's last-write-wins state after some part
      of its updates, or null once the root is cancelled, and no later write shows as little as an earlier one. */
  lemma WritesAreGrowingStates(render: Json -> string, steps: seq<Step>, i: nat)
    requires Possible(render, START, steps) && i in After(render, START, steps).broadcast.subscribers
    ensures After(render, START, steps).nodes != []
    ensures var t := After(render, START, steps);
            var root, calls := t.nodes[0], t.broadcast.subscribers[i].calls;
            && (forall k :: 0 <= k < |calls| ==>
                  if Shown(root, calls[k]) <= |root.received|
                  then calls[k].b == render(Object(Fold(root.received[..Shown(root, calls[k])])))
                  else calls[k].b == render(Null) && root.phase.Stopped?)
            && (forall j, k :: 0 <= j < k < |calls| ==> Shown(root, calls[j]) < Shown(root, calls[k]))
  {
    StartInv(render);
    InvAlways(render, START, steps);
    var t := After(render, START, steps);
    CallsShowStates(render, t.nodes[0], t.broadcast.subscribers[i].calls, t.broadcast.bus.announced);
  }

  lemma CallsShowStates(render: Json -> string, root: Node, calls: seq<B.Call>, announced: seq<B.Value>)
    requires NodeInv(root) && Announcements(render, root, announced) && B.CallsInOrder(calls, announced)
    ensures forall k :: 0 <= k < |calls| ==>
              if Shown(root, calls[k]) <= |root.received|
              then calls[k].b == render(Object(Fold(root.received[..Shown(root, calls[k])])))
              else calls[k].b == render(Null) && root.phase.Stopped?
    ensures forall j, k :: 0 <= j < k < |calls| ==> Shown(root, calls[j]) < Shown(root, calls[k])
  {
    forall k | 0 <= k < |calls|
      ensures if Shown(root, calls[k]) <= |root.received|
              then calls[k].b == render(Object(Fold(root.received[..Shown(root, calls[k])])))
              else calls[k].b == render(Null) && root.phase.Stopped?
    {
      assert announced[calls[k].generation - 1] == B.Bytes(Announcement(render, root, calls[k].generation - 1));
    }
  }

  /** Every updater waits, its context not done, or has stopped. */
  predicate AtRest(t: Tree) {
    forall c :: 0 <= c < |t.nodes| ==> if t.nodes[c].phase.Waiting? then c !in t.done else t.nodes[c].phase.Stopped?
  }

  predicate NestedIn(t: Tree, c: int, d: int)
    requires Shape(t)
  {
    0 <= d < |t.links| && t.links[d].parent == c
  }

  /** What updater c stands for: the last values set directly, less the fields of nested updaters that have
      stopped, and for the fields of the others what those stand for. */
  function Meaning(t: Tree, c: int): Json
    requires Shape(t) && 0 <= c < |t.nodes|
    decreases |t.nodes| - c, 1
  {
    Object((Fold(t.direct[c]) - StoppedFields(t, c)) + NestedMeaning(t, c))
  }

  function StoppedFields(t: Tree, c: int): set<string>
    requires Shape(t)
  {
    set d | 0 <= d < |t.links| && NestedIn(t, c, d) && t.nodes[d].phase.Stopped? :: t.links[d].field
  }

  function NestedMeaning(t: Tree, c: int): map<string, Json>
    requires Shape(t) && 0 <= c < |t.nodes|
    decreases |t.nodes| - c, 0
  {
    map d | c < d < |t.links| && t.links[d].parent == c && !t.nodes[d].phase.Stopped? :: t.links[d].field := Meaning(t, d)
  }

  lemma MeaningOfNested(t: Tree, c: int, d: int)
    requires Shape(t) && 0 <= c < |t.nodes| && NestedIn(t, c, d)
    ensures c < d && (t.links[d].field in NestedMeaning(t, c) <==> !t.nodes[d].phase.Stopped?)
    ensures t.nodes[d].phase.Stopped? ==> t.links[d].field in StoppedFields(t, c)
    ensures !t.nodes[d].phase.Stopped? ==> NestedMeaning(t, c)[t.links[d].field] == Meaning(t, d)
  {
    assert forall e :: 0 <= e < |t.links| && t.links[e].parent == c && t.links[e].field == t.links[d].field ==> e == d;
  }

  lemma MeaningOfDirect(t: Tree, c: int, field: string)
    requires Shape(t) && 0 <= c < |t.nodes| && !Owned(t, c, field)
    ensures field !in NestedMeaning(t, c) && field !in StoppedFields(t, c)
  {
    assert forall d :: 0 <= d < |t.links| && t.links[d].parent == c ==> t.links[d].field != field;
  }

  lemma RestingLink(render: Json -> string, t: Tree, d: int)
    requires Inv(render, t) && AtRest(t) && 0 < d < |t.nodes| && t.nodes[t.links[d].parent].phase.Waiting?
    ensures var link := t.links[d];
            if t.nodes[d].phase.Stopped? then link.field !in t.nodes[link.parent].children
            else link.field in t.nodes[link.parent].children &&
                 t.nodes[link.parent].children[link.field] == Object(t.nodes[d].children)
  {
    assert LinkKept(t, d);
    if !t.nodes[d].phase.Stopped? {
      assert t.nodes[d].received[..Last(t.nodes[d])] == t.nodes[d].received;
    }
  }

  /** A waiting updater's map is what the updater stands for. */
  lemma {:induction false} RestingHoldsMeaning(render: Json -> string, t: Tree, c: int)
    requires Inv(render, t) && AtRest(t) && 0 <= c < |t.nodes| && t.nodes[c].phase.Waiting?
    ensures Object(t.nodes[c].children) == Meaning(t, c)
    decreases |t.nodes| - c
  {
    forall field ensures SameAt(t.nodes[c].children, Meaning(t, c).fields, field) {
      if Owned(t, c, field) {
        var d :| 0 <= d < |t.links| && t.links[d] == Link(c, field);
        MeaningOfNested(t, c, d);
        RestingLink(render, t, d);
        if t.nodes[d].phase.Waiting? {
          RestingHoldsMeaning(render, t, d);
        }
      } else {
        MeaningOfDirect(t, c, field);
        assert DirectKept(t, c, field);
      }
    }
    SameMaps(t.nodes[c].children, Meaning(t, c).fields);
  }

  lemma SameMaps(a: map<string, Json>, b: map<string, Json>)
    requires forall field :: SameAt(a, b, field)
    ensures a == b
  {
    assert forall field :: field in a ==> SameAt(a, b, field);
    assert forall field :: field in b ==> SameAt(a, b, field);
  }

  /** Once everything is at rest, a parked subscriber's last write is the whole tree: every field the last
      value it was set to, through any depth of nesting, without the fields of nested updaters that were
      cancelled; or null, if the root was cancelled. */
  lemma LastWriteIsTheWholeTree(render: Json -> string, steps: seq<Step>, i: nat)
    requires Possible(render, START, steps) && AtRest(After(render, START, steps))
    requires i in After(render, START, steps).broadcast.subscribers
    ensures Shape(After(render, START, steps))
    ensures var t := After(render, START, steps); var me := t.broadcast.subscribers[i];
            me.phase.Selecting? && !B.IsClosed(t.broadcast.bus, me.channel) ==>
              me.calls != [] &&
              me.calls[|me.calls| - 1].b == render(if t.nodes[0].phase.Stopped? then Null else Meaning(t, 0))
  {
    StartInv(render);
    InvAlways(render, START, steps);
    var t := After(render, START, steps);
    LastAnnouncement(render, t);
    var me := t.broadcast.subscribers[i];
    if me.phase.Selecting? && !B.IsClosed(t.broadcast.bus, me.channel) {
      B.ParkedHasLatest(t.broadcast, i);
    }
  }

  lemma LastAnnouncement(render: Json -> string, t: Tree)
    requires Inv(render, t) && AtRest(t)
    ensures B.Latest(t.broadcast.bus) == B.Bytes(render(if t.nodes[0].phase.Stopped? then Null else Meaning(t, 0)))
  {
    var root, announced := t.nodes[0], t.broadcast.bus.announced;
    if root.phase.Waiting? {
      RestingHoldsMeaning(render, t, 0);
      assert root.received[..Last(root)] == root.received;
    }
    assert announced[|announced| - 1] == B.Bytes(Announcement(render, root, |announced| - 1));
  }
}
