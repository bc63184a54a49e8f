/** Receipt of assignments in the matchmaking queue (v2/internal/mmqueue/mmqueue.go:142-145, 203-241):
    creations store tickets, and handlers, one for each delivered roster, take them out again and count.
    Creations and handlers run interleaved; each access to a sync.Map or a counter is one step. */
module AssignmentReceiver {

  type TicketId = string

  /** Where a handler is with the first of the tickets it has left: before LoadAndDelete, or, having found
      the ticket, before assigned.Store or the counter, or, having missed it, before the failure counter. */
  datatype Stage = Looking | Found | Recorded | Missed

  datatype Handler = Handler(left: seq<TicketId>, stage: Stage)

  datatype Step = Create(id: TicketId) | Deliver(roster: seq<TicketId>) | Go(h: nat)

  /** `stored` and `counted` are the histories of q.Tickets.Store and of the assignment counter; `delivered`
      counts the tickets of all rosters handed to handlers. */
  datatype Queue = Queue(tickets: set<TicketId>, assignedIds: set<TicketId>, handlers: seq<Handler>,
                         stored: seq<TicketId>, counted: seq<TicketId>, failures: nat, delivered: nat)

  const START := Queue({}, {}, [], [], [], 0, 0)

  /** Ticket ids are unique: om-core hands out none twice.  Rosters may hold any ids, and be delivered again. */
  predicate Enabled(q: Queue, s: Step) {
    match s
    case Create(id) => id !in q.stored
    case Deliver(roster) => true
    case Go(h) => h < |q.handlers| && q.handlers[h].left != []
  }

  function Proceed(q: Queue, h: nat): Queue
    requires h < |q.handlers| && q.handlers[h].left != []
  {
    var left := q.handlers[h].left;
    match q.handlers[h].stage
    case Looking =>
      q.(tickets := q.tickets - {left[0]},
         handlers := q.handlers[h := Handler(left, if left[0] in q.tickets then Found else Missed)])
    case Found => q.(assignedIds := q.assignedIds + {left[0]}, handlers := q.handlers[h := Handler(left, Recorded)])
    case Recorded => q.(counted := q.counted + [left[0]], handlers := q.handlers[h := Handler(left[1..], Looking)])
    case Missed => q.(failures := q.failures + 1, handlers := q.handlers[h := Handler(left[1..], Looking)])
  }

  function Next(q: Queue, s: Step): Queue
    requires Enabled(q, s)
  {
    match s
    case Create(id) => q.(tickets := q.tickets + {id}, stored := q.stored + [id])
    case Deliver(roster) =>
      q.(handlers := q.handlers + [Handler(roster, Looking)], delivered := q.delivered + |roster|)
    case Go(h) => Proceed(q, h)
  }

  predicate Possible(steps: seq<Step>)
    decreases |steps|, 0
  {
    steps == [] || (Possible(steps[..|steps| - 1]) && Enabled(After(steps[..|steps| - 1]), steps[|steps| - 1]))
  }

  function After(steps: seq<Step>): Queue
    requires Possible(steps)
    decreases |steps|, 1
  {
    if steps == [] then START else Next(After(steps[..|steps| - 1]), steps[|steps| - 1])
  }

  // ------------------------------------------------------------------------------ invariant

  /** The handler has taken its first ticket out of q.Tickets and not counted it yet. */
  predicate Holds(q: Queue, h: int) {
    0 <= h < |q.handlers| && Holding(q.handlers[h]) == 1
  }

  function Holding(h: Handler): nat {
    if h.left != [] && (h.stage.Found? || h.stage.Recorded?) then 1 else 0
  }

  function Unfinished(h: Handler): nat {
    |h.left|
  }

  function Sum(handlers: seq<Handler>, weight: Handler -> nat): nat {
    if handlers == [] then 0 else Sum(handlers[..|handlers| - 1], weight) + weight(handlers[|handlers| - 1])
  }

  lemma {:induction false} SumUpdate(handlers: seq<Handler>, weight: Handler -> nat, h: nat, handler: Handler)
    requires h < |handlers|
    ensures Sum(handlers[h := handler], weight) + weight(handlers[h]) == Sum(handlers, weight) + weight(handler)
  {
    var n := |handlers| - 1;
    if h == n {
      assert handlers[h := handler][..n] == handlers[..n];
    } else {
      SumUpdate(handlers[..n], weight, h, handler);
      assert handlers[h := handler][..n] == handlers[..n][h := handler];
    }
  }

  lemma SumSnoc(handlers: seq<Handler>, weight: Handler -> nat, handler: Handler)
    ensures Sum(handlers + [handler], weight) == Sum(handlers, weight) + weight(handler)
  {
    assert (handlers + [handler])[..|handlers|] == handlers;
  }

  ghost predicate NoRepeats(ids: seq<TicketId>) {
    forall j, k :: 0 <= j < k < |ids| ==> ids[j] != ids[k]
  }

  predicate HeldBy(q: Queue, h: int, id: TicketId) {
    Holds(q, h) && q.handlers[h].left[0] == id
  }

  ghost predicate Held(q: Queue, id: TicketId) {
    exists h :: HeldBy(q, h, id)
  }

  /** A stored ticket is in exactly one place: tracked, held by one handler, or counted once. */
  ghost predicate Places(q: Queue) {
    && NoRepeats(q.stored) && NoRepeats(q.counted)
    && (forall id :: id in q.stored <==> id in q.tickets || id in q.counted || Held(q, id))
    && (forall id :: id in q.tickets ==> id !in q.counted && !Held(q, id))
    && (forall id :: id in q.counted ==> !Held(q, id))
    && (forall h, k, id :: HeldBy(q, h, id) && HeldBy(q, k, id) ==> h == k)
  }

  /** `assignedIds` holds the counted tickets and those whose handler is about to count them. */
  ghost predicate AssignedIs(q: Queue) {
    && (forall id :: id in q.counted ==> id in q.assignedIds)
    && (forall h, id :: HeldBy(q, h, id) && q.handlers[h].stage.Recorded? ==> id in q.assignedIds)
    && (forall id :: id in q.assignedIds ==> id in q.counted || Held(q, id))
  }

  ghost predicate Totals(q: Queue) {
    && |q.stored| == |q.tickets| + |q.counted| + Sum(q.handlers, Holding)
    && q.delivered == |q.counted| + q.failures + Sum(q.handlers, Unfinished)
  }

  ghost predicate Inv(q: Queue) {
    Places(q) && AssignedIs(q) && Totals(q)
  }

  lemma CreateKeepsPlaces(q: Queue, id: TicketId)
    requires Places(q) && id !in q.stored
    ensures Places(Next(q, Create(id)))
  {
    var q' := Next(q, Create(id));
    assert id !in q.tickets && id !in q.counted && !Held(q, id);
    forall h, i ensures HeldBy(q, h, i) <==> HeldBy(q', h, i) {
    }
    forall i ensures Held(q, i) <==> Held(q', i) {
      if h :| HeldBy(q, h, i) {
        assert HeldBy(q', h, i);
      }
    }
  }

  lemma CreateKeepsAssigned(q: Queue, id: TicketId)
    requires AssignedIs(q) && id !in q.stored
    ensures AssignedIs(Next(q, Create(id)))
  {
    var q' := Next(q, Create(id));
    forall i | Held(q, i) ensures Held(q', i) {
      var h :| HeldBy(q, h, i);
      assert HeldBy(q', h, i);
    }
  }

  lemma CreateKeepsInv(q: Queue, id: TicketId)
    requires Inv(q) && Enabled(q, Create(id))
    ensures Inv(Next(q, Create(id)))
  {
    CreateKeepsPlaces(q, id);
    CreateKeepsAssigned(q, id);
    assert id !in q.tickets;
  }

  lemma DeliverKeepsInv(q: Queue, roster: seq<TicketId>)
    requires Inv(q)
    ensures Inv(Next(q, Deliver(roster)))
  {
    var q' := Next(q, Deliver(roster));
    assert forall h, i :: HeldBy(q, h, i) <==> HeldBy(q', h, i);
    SumSnoc(q.handlers, Holding, Handler(roster, Looking));
    SumSnoc(q.handlers, Unfinished, Handler(roster, Looking));
  }

  /** A step moves what a handler holds or has left into one of the counts. */
  ghost predicate Moves(q: Queue, h: nat, q': Queue)
    requires h < |q.handlers|
  {
    && h < |q'.handlers| && q'.handlers == q.handlers[h := q'.handlers[h]]
    && q'.stored == q.stored && q'.delivered == q.delivered
    && |q'.tickets| + |q'.counted| + Holding(q'.handlers[h]) == |q.tickets| + |q.counted| + Holding(q.handlers[h])
    && |q'.counted| + q'.failures + Unfinished(q'.handlers[h]) == |q.counted| + q.failures + Unfinished(q.handlers[h])
  }

  lemma LookMoves(q: Queue, h: nat)
    requires Enabled(q, Go(h)) && q.handlers[h].stage.Looking?
    ensures Moves(q, h, Next(q, Go(h)))
  {
    OneTakenOut(q.tickets, q.handlers[h].left[0]);
  }

  lemma GoMoves(q: Queue, h: nat)
    requires Enabled(q, Go(h))
    ensures Moves(q, h, Next(q, Go(h)))
  {
    if q.handlers[h].stage.Looking? {
      LookMoves(q, h);
    }
  }

  lemma OneTakenOut(ids: set<TicketId>, id: TicketId)
    ensures |ids - {id}| == |ids| - if id in ids then 1 else 0
  {
    if id !in ids {
      assert ids - {id} == ids;
    }
  }

  lemma GoKeepsTotals(q: Queue, h: nat)
    requires Inv(q) && Enabled(q, Go(h))
    ensures Totals(Next(q, Go(h)))
  {
    var q' := Next(q, Go(h));
    GoMoves(q, h);
    SumUpdate(q.handlers, Holding, h, q'.handlers[h]);
    SumUpdate(q.handlers, Unfinished, h, q'.handlers[h]);
  }

  /** Other handlers hold what they held. */
  lemma OthersHold(q: Queue, h: nat, k: int, id: TicketId)
    requires Enabled(q, Go(h)) && k != h
    ensures HeldBy(q, k, id) <==> HeldBy(Next(q, Go(h)), k, id)
  {
  }

  /** Looking up a tracked ticket takes it from q.Tickets into the handler's hands. */
  lemma LookingKeepsPlaces(q: Queue, h: nat)
    requires Inv(q) && Enabled(q, Go(h)) && q.handlers[h].stage.Looking?
    ensures Places(Next(q, Go(h))) && AssignedIs(Next(q, Go(h)))
  {
    var q', id := Next(q, Go(h)), q.handlers[h].left[0];
    forall k, i ensures HeldBy(q', k, i) <==> HeldBy(q, k, i) || (k == h && i == id && id in q.tickets) {
      if k != h {
        OthersHold(q, h, k, i);
      }
    }
    assert id in q.tickets ==> HeldBy(q', h, id);
    forall i ensures Held(q', i) <==> Held(q, i) || (i == id && id in q.tickets) {
      if Held(q, i) {
        var k :| HeldBy(q, k, i);
        assert HeldBy(q', k, i);
      }
    }
  }

  lemma RecordingKeepsPlaces(q: Queue, h: nat)
    requires Inv(q) && Enabled(q, Go(h)) && (q.handlers[h].stage.Found? || q.handlers[h].stage.Missed?)
    ensures Places(Next(q, Go(h))) && AssignedIs(Next(q, Go(h)))
  {
    var q' := Next(q, Go(h));
    forall k, i ensures HeldBy(q', k, i) <==> HeldBy(q, k, i) {
      if k != h {
        OthersHold(q, h, k, i);
      }
    }
    assert forall i :: Held(q', i) <==> Held(q, i);
    if q.handlers[h].stage.Found? {
      assert HeldBy(q, h, q.handlers[h].left[0]);
    }
  }

  lemma CountingKeepsPlaces(q: Queue, h: nat)
    requires Inv(q) && Enabled(q, Go(h)) && q.handlers[h].stage.Recorded?
    ensures Places(Next(q, Go(h))) && AssignedIs(Next(q, Go(h)))
  {
    var q', id := Next(q, Go(h)), q.handlers[h].left[0];
    assert HeldBy(q, h, id);
    forall k, i ensures HeldBy(q', k, i) <==> HeldBy(q, k, i) && k != h {
      if k != h {
        OthersHold(q, h, k, i);
      }
    }
    forall i ensures Held(q', i) <==> Held(q, i) && i != id {
      if Held(q, i) && i != id {
        var k :| HeldBy(q, k, i);
        assert HeldBy(q', k, i);
      }
    }
  }

  lemma StepKeepsInv(q: Queue, s: Step)
    requires Inv(q) && Enabled(q, s)
    ensures Inv(Next(q, s))
  {
    match s
    case Create(id) => CreateKeepsInv(q, id);
    case Deliver(roster) => DeliverKeepsInv(q, roster);
    case Go(h) =>
      GoKeepsTotals(q, h);
      match q.handlers[h].stage
      case Looking => LookingKeepsPlaces(q, h);
      case Recorded => CountingKeepsPlaces(q, h);
      case _ => RecordingKeepsPlaces(q, h);
  }

  lemma {:induction false} InvAlways(steps: seq<Step>)
    requires Possible(steps)
    ensures Inv(After(steps))
  {
    if steps != [] {
      InvAlways(steps[..|steps| - 1]);
      StepKeepsInv(After(steps[..|steps| - 1]), steps[|steps| - 1]);
    }
  }

  // ------------------------------------------------------------------------------- theorems

  /** No handler has anything left to do. */
  predicate AtRest(q: Queue) {
    forall h :: 0 <= h < |q.handlers| ==> q.handlers[h].left == []
  }

  lemma {:induction false} NothingAtRest(handlers: seq<Handler>)
    requires forall h :: 0 <= h < |handlers| ==> handlers[h].left == []
    ensures Sum(handlers, Holding) == 0 && Sum(handlers, Unfinished) == 0
  {
    if handlers != [] {
      NothingAtRest(handlers[..|handlers| - 1]);
    }
  }

  /** In every interleaving no ticket is counted twice, however often its roster is delivered, and the
      assigned and the tracked tickets are disjoint; and when all handlers are done, the stores are the
      tracked tickets and the counted assignments, and the delivered tickets the counted ones and the failures. */
  lemma AssignmentsAreCountedOnce(steps: seq<Step>)
    requires Possible(steps)
    ensures var q := After(steps);
            && NoRepeats(q.counted) && (forall id :: id in q.counted ==> id in q.stored)
            && (forall id :: id in q.assignedIds ==> id !in q.tickets)
            && |q.tickets| + |q.counted| <= |q.stored| && |q.counted| + q.failures <= q.delivered
    ensures var q := After(steps);
            AtRest(q) ==>
              && |q.stored| == |q.tickets| + |q.counted|
              && q.delivered == |q.counted| + q.failures
              && (forall id :: id in q.stored ==> (id in q.tickets <==> id !in q.counted))
              && (forall id :: id in q.counted <==> id in q.assignedIds)
  {
    InvAlways(steps);
    var q := After(steps);
    if AtRest(q) {
      NothingAtRest(q.handlers);
      assert forall h, id :: !HeldBy(q, h, id);
      assert forall id :: !Held(q, id);
    }
  }

  /** The ids of the tickets created. */
  function Created(steps: seq<Step>): seq<TicketId> {
    if steps == [] then []
    else
      var last := steps[|steps| - 1];
      Created(steps[..|steps| - 1]) + if last.Create? then [last.id] else []
  }

  /** How many tickets the delivered rosters hold. */
  function TicketsDelivered(steps: seq<Step>): nat {
    if steps == [] then 0
    else
      var last := steps[|steps| - 1];
      TicketsDelivered(steps[..|steps| - 1]) + if last.Deliver? then |last.roster| else 0
  }

  /** The stored and delivered tickets of the balance are all that were created and delivered. */
  lemma {:induction false} BalanceIsOfAllSteps(steps: seq<Step>)
    requires Possible(steps)
    ensures After(steps).stored == Created(steps) && After(steps).delivered == TicketsDelivered(steps)
  {
    if steps != [] {
      BalanceIsOfAllSteps(steps[..|steps| - 1]);
      assert Created(steps[..|steps| - 1]) + [] == Created(steps[..|steps| - 1]);
    }
  }

  /** The step looks for the ticket in q.Tickets. */
  predicate LooksAt(q: Queue, s: Step, id: TicketId) {
    && s.Go? && s.h < |q.handlers| && q.handlers[s.h].stage.Looking?
    && q.handlers[s.h].left != [] && q.handlers[s.h].left[0] == id
  }

  ghost predicate LooksFor(steps: seq<Step>, k: int, id: TicketId)
    requires Possible(steps)
  {
    0 <= k < |steps| && Possible(steps[..k]) && LooksAt(After(steps[..k]), steps[k], id)
  }

  ghost function Looks(steps: seq<Step>, id: TicketId): set<int>
    requires Possible(steps)
  {
    set k | 0 <= k < |steps| && LooksFor(steps, k, id)
  }

  ghost predicate AfterStored(steps: seq<Step>, looks: set<int>, id: TicketId) {
    exists j, k :: k in looks && 0 <= j < k && j < |steps| && steps[j] == Create(id)
  }

  lemma {:induction false} StoredIffCreated(steps: seq<Step>, id: TicketId)
    requires Possible(steps)
    ensures id in After(steps).stored <==> Create(id) in steps
  {
    if steps != [] {
      var n := |steps| - 1;
      StoredIffCreated(steps[..n], id);
      assert steps == steps[..n] + [steps[n]];
    }
  }

  /** A ticket leaves q.Tickets, and is then counted, exactly when some handler looks for it after it was
      stored.  One that was looked for only before stays tracked: its assignment is lost. */
  lemma {:induction false} TrackedUntilLookedFor(steps: seq<Step>, id: TicketId)
    requires Possible(steps) && Create(id) in steps
    ensures id !in After(steps).tickets <==> AfterStored(steps, Looks(steps, id), id)
  {
    var n := |steps| - 1;
    var before, last := steps[..n], steps[n];
    assert steps == before + [last];
    StoredIffCreated(before, id);
    LooksBefore(steps, id);
    if Create(id) in before {
      TrackedUntilLookedFor(before, id);
      LastStep(steps, id);
      AfterStoredLast(before, last, Looks(before, id), Looks(steps, id), id);
    } else {
      assert last == Create(id);
      LastStepCreates(steps, id);
    }
  }

  lemma LastStep(steps: seq<Step>, id: TicketId)
    requires Possible(steps) && steps != [] && Create(id) in steps[..|steps| - 1]
    ensures var n := |steps| - 1;
            id !in After(steps).tickets <==> id !in After(steps[..n]).tickets || n in Looks(steps, id)
  {
    var n := |steps| - 1;
    StoredIffCreated(steps[..n], id);
    StepTracks(After(steps[..n]), steps[n], id);
    assert n in Looks(steps, id) <==> LooksAt(After(steps[..n]), steps[n], id);
  }

  lemma StepTracks(q: Queue, s: Step, id: TicketId)
    requires Enabled(q, s) && id in q.stored
    ensures id !in Next(q, s).tickets <==> id !in q.tickets || LooksAt(q, s, id)
  {
  }

  lemma LastStepCreates(steps: seq<Step>, id: TicketId)
    requires Possible(steps) && steps != [] && Create(id) !in steps[..|steps| - 1] && steps[|steps| - 1] == Create(id)
    ensures id in After(steps).tickets && !AfterStored(steps, Looks(steps, id), id)
  {
    assert forall j :: 0 <= j < |steps| && steps[j] == Create(id) ==> j == |steps| - 1;
  }

  lemma LooksBefore(steps: seq<Step>, id: TicketId)
    requires Possible(steps) && steps != []
    ensures var n := |steps| - 1; Looks(steps, id) - {n} == Looks(steps[..n], id)
  {
    var n := |steps| - 1;
    forall k | 0 <= k < n ensures LooksFor(steps, k, id) <==> LooksFor(steps[..n], k, id) {
      assert steps[..n][..k] == steps[..k];
    }
  }

  lemma AfterStoredLast(before: seq<Step>, last: Step, looksBefore: set<int>, looks: set<int>, id: TicketId)
    requires Create(id) in before && looks - {|before|} == looksBefore
    requires forall k :: k in looks ==> k <= |before|
    ensures AfterStored(before + [last], looks, id) <==> AfterStored(before, looksBefore, id) || |before| in looks
  {
    var steps := before + [last];
    if AfterStored(before, looksBefore, id) {
      var j, k :| k in looksBefore && 0 <= j < k && j < |before| && before[j] == Create(id);
      assert k in looks && steps[j] == Create(id);
    }
    if |before| in looks {
      var j :| 0 <= j < |before| && before[j] == Create(id);
      assert steps[j] == Create(id);
    } else if AfterStored(steps, looks, id) {
      var j, k :| k in looks && 0 <= j < k && j < |steps| && steps[j] == Create(id);
      assert k in looksBefore && before[j] == Create(id);
    }
  }

  /** When all handlers are done, a created ticket's assignment has been counted exactly if a handler looked
      for the ticket after it was stored. */
  lemma CountedIffLookedForAfterStored(steps: seq<Step>, id: TicketId)
    requires Possible(steps) && Create(id) in steps && AtRest(After(steps))
    ensures id in After(steps).counted <==> AfterStored(steps, Looks(steps, id), id)
  {
    TrackedUntilLookedFor(steps, id);
    StoredIffCreated(steps, id);
    AssignmentsAreCountedOnce(steps);
  }

  /** A handler may look for a ticket before its creation is stored: om-core knows the ticket by then.  Such
      an assignment is counted as a failure, and the ticket is tracked for ever. */
  lemma AssignmentBeforeStoreIsLost(id: TicketId)
    ensures var steps := [Deliver([id]), Go(0), Create(id), Go(0)];
            Possible(steps) && AtRest(After(steps)) && id in After(steps).tickets &&
            After(steps).counted == [] && After(steps).failures == 1
  {
    StepTaken([], Deliver([id]));
    assert [] + [Deliver([id])] == [Deliver([id])];
    StepTaken([Deliver([id])], Go(0));
    assert [Deliver([id])] + [Go(0)] == [Deliver([id]), Go(0)];
    StepTaken([Deliver([id]), Go(0)], Create(id));
    assert [Deliver([id]), Go(0)] + [Create(id)] == [Deliver([id]), Go(0), Create(id)];
    StepTaken([Deliver([id]), Go(0), Create(id)], Go(0));
    assert [Deliver([id]), Go(0), Create(id)] + [Go(0)] == [Deliver([id]), Go(0), Create(id), Go(0)];
  }

  // ----------------------------------------------------------------------------- the object

  /** A handler after its next access, which found its first ticket tracked or not. */
  function Stepped(h: Handler, existed: bool): Handler
    requires h.left != []
  {
    match h.stage
    case Looking => Handler(h.left, if existed then Found else Missed)
    case Found => Handler(h.left, Recorded)
    case _ => Handler(h.left[1..], Looking)
  }

  /** The queue's maps and counters, and where each handler is. */
  class MatchmakerQueue {
    var tickets: set<TicketId>
    var assignedIds: set<TicketId>
    var ticketCreations: nat
    var ticketAssignments: nat
    var ticketDeletionFailures: nat
    var handlers: seq<Handler>
    var created: set<TicketId>   // the ids om-core has handed out
    ghost var steps: seq<Step>

    ghost predicate Valid()
      reads this
    {
      Possible(steps) && Agrees(After(steps))
    }

    ghost predicate Agrees(q: Queue)
      reads this
    {
      && tickets == q.tickets && assignedIds == q.assignedIds && handlers == q.handlers
      && (forall id :: id in created <==> id in q.stored)
      && ticketCreations == |q.stored| && ticketAssignments == |q.counted| && ticketDeletionFailures == q.failures
    }

    constructor ()
      ensures Valid() && steps == []
    {
      tickets, assignedIds, handlers, created, steps := {}, {}, [], {}, [];
      ticketCreations, ticketAssignments, ticketDeletionFailures := 0, 0, 0;
    }

    /** q.Tickets.Store and the creation counter. */
    method Store(id: TicketId)
      requires Valid() && id !in created
      modifies this
      ensures Valid() && steps == old(steps) + [Create(id)] && handlers == old(handlers)
    {
      created := created + {id};
      tickets := tickets + {id};
      ticketCreations := ticketCreations + 1;
      StepTaken(steps, Create(id));
      steps := steps + [Create(id)];
    }

    /** One access of handler h to the maps or counters. */
    method HandlerStep(h: nat) returns (existed: bool)
      requires Valid() && h < |handlers| && handlers[h].left != []
      modifies this
      ensures Valid() && steps == old(steps) + [Go(h)] && handlers == old(handlers)[h := Stepped(old(handlers)[h], existed)]
      ensures existed <==> old(handlers)[h].left[0] in old(tickets)
    {
      var id, left := handlers[h].left[0], handlers[h].left;
      existed := id in tickets;
      StepTaken(steps, Go(h));
      match handlers[h].stage {
        case Looking =>
          tickets := tickets - {id};
          handlers := handlers[h := Handler(left, if existed then Found else Missed)];
        case Found =>
          assignedIds := assignedIds + {id};
          handlers := handlers[h := Handler(left, Recorded)];
        case Recorded =>
          ticketAssignments := ticketAssignments + 1;
          handlers := handlers[h := Handler(left[1..], Looking)];
        case Missed =>
          ticketDeletionFailures := ticketDeletionFailures + 1;
          handlers := handlers[h := Handler(left[1..], Looking)];
      }
      steps := steps + [Go(h)];
    }

    method StartHandler(roster: seq<TicketId>) returns (h: nat)
      requires Valid()
      modifies this
      ensures Valid() && h == |old(handlers)| && handlers == old(handlers) + [Handler(roster, Looking)]
      ensures steps == old(steps) + [Deliver(roster)]
    {
      h := |handlers|;
      StepTaken(steps, Deliver(roster));
      handlers := handlers + [Handler(roster, Looking)];
      steps := steps + [Deliver(roster)];
    }

    /** What other goroutines do meanwhile: those of the given steps that they can take. */
    method Others(script: seq<Step>, me: nat)
      requires Valid() && me < |handlers|
      modifies this
      ensures Valid() && old(steps) <= steps && me < |handlers| && handlers[me] == old(handlers)[me]
    {
      for i := 0 to |script|
        invariant Valid() && old(steps) <= steps && me < |handlers| && handlers[me] == old(handlers)[me]
      {
        match script[i] {
          case Create(id) =>
            if id !in created {
              Store(id);
            }
          case Deliver(roster) =>
            var _ := StartHandler(roster);
          case Go(h) =>
            if h != me && h < |handlers| && handlers[h].left != [] {
              var _ := HandlerStep(h);
            }
        }
      }
    }

    /** One turn of the loop in assignmentHandler. */
    method HandleTicket(h: nat, before: seq<Step>, between: seq<Step>, after: seq<Step>)
      requires Valid() && h < |handlers| && handlers[h].left != [] && handlers[h].stage.Looking?
      modifies this
      ensures Valid() && old(steps) <= steps
      ensures h < |handlers| && handlers[h] == Handler(old(handlers)[h].left[1..], Looking)
    {
      Others(before, h);
      var existed := HandlerStep(h);
      Others(between, h);
      if existed {
        var _ := HandlerStep(h);
        Others(after, h);
      }
      var _ := HandlerStep(h);
    }

    /** The loop over a roster's tickets; `between` is what the other goroutines do before each access. */
    method AssignmentHandler(roster: seq<TicketId>, between: seq<seq<Step>>) returns (ghost me: nat)
      requires Valid() && |between| == 3 * |roster|
      modifies this
      ensures Valid() && old(steps) + [Deliver(roster)] <= steps
      ensures me == |old(handlers)| < |handlers| && handlers[me] == Handler([], Looking)
    {
      var h := StartHandler(roster);
      me := h;
      ghost var begun := steps;
      for t := 0 to |roster|
        invariant Valid() && begun <= steps
        invariant h < |handlers| && handlers[h] == Handler(roster[t..], Looking)
      {
        HandleTicket(h, between[3 * t], between[3 * t + 1], between[3 * t + 2]);
      }
    }
  }

  lemma StepTaken(steps: seq<Step>, s: Step)
    requires Possible(steps) && Enabled(After(steps), s)
    ensures Possible(steps + [s]) && After(steps + [s]) == Next(After(steps), s)
  {
    assert (steps + [s])[..|steps|] == steps;
  }
}
