/** The batching of ticket ids for activation (v2/internal/omclient/omclient.go:180-231): ids are
    collected until the batch is full or its timer fires, and each batch that is not empty is handed to
    the sending loop. */
module ActivationBatcher {
  import opened Options

  type TicketId = string

  /** What the select finds: an id, the closed channel, or the deadline. */
  datatype Event = Receive(id: TicketId) | Closed | Deadline

  /** `open` is the batch being filled, `sending` whether the channel was open at the last receive,
      `running` whether the goroutine goes on. */
  datatype Batcher = Batcher(dispatched: seq<seq<TicketId>>, open: seq<TicketId>, sending: bool, running: bool)

  const START := Batcher([], [], true, true)

  /** A batch is over: it is dispatched if it holds anything, and another is begun if the channel is open. */
  function Completed(b: Batcher): Batcher {
    Batcher(if b.open == [] then b.dispatched else b.dispatched + [b.open], [], b.sending, b.sending)
  }

  function Appended(b: Batcher, id: TicketId, sending: bool, limit: int): Batcher {
    var b' := b.(open := b.open + [id], sending := sending);
    if |b'.open| == limit then Completed(b') else b'
  }

  /** One select: a receive from the closed channel appends the empty id. */
  function Next(b: Batcher, e: Event, limit: int): Batcher {
    if !b.running then b
    else match e
      case Receive(id) => Appended(b, id, true, limit)
      case Closed => Appended(b, "", false, limit)
      case Deadline => Completed(b)
  }

  function After(events: seq<Event>, limit: int): Batcher {
    if events == [] then START else Next(After(events[..|events| - 1], limit), events[|events| - 1], limit)
  }

  /** A closed channel stays closed. */
  predicate Closes(events: seq<Event>) {
    forall j, k :: 0 <= j < k < |events| && events[j].Closed? ==> !events[k].Receive?
  }

  // ----------------------------------------------------------------------------- references

  function Received(events: seq<Event>): seq<TicketId> {
    if events == [] then []
    else
      var last := events[|events| - 1];
      Received(events[..|events| - 1]) + if last.Receive? then [last.id] else []
  }

  function Flatten(batches: seq<seq<TicketId>>): seq<TicketId> {
    if batches == [] then [] else Flatten(batches[..|batches| - 1]) + batches[|batches| - 1]
  }

  function Strip(ids: seq<TicketId>): seq<TicketId> {
    if ids == [] then []
    else
      var last := ids[|ids| - 1];
      Strip(ids[..|ids| - 1]) + if last == "" then [] else [last]
  }

  function All(b: Batcher): seq<TicketId> {
    Flatten(b.dispatched) + b.open
  }

  function Blanks(n: nat): seq<TicketId> {
    seq(n, _ => "")
  }

  // --------------------------------------------------------------------------------- lemmas

  lemma FlattenSnoc(batches: seq<seq<TicketId>>, batch: seq<TicketId>)
    ensures Flatten(batches + [batch]) == Flatten(batches) + batch
  {
    assert (batches + [batch])[..|batches|] == batches;
  }

  lemma CompletingKeepsIds(b: Batcher)
    ensures All(Completed(b)) == All(b)
  {
    FlattenSnoc(b.dispatched, b.open);
  }

  lemma AppendingAddsId(b: Batcher, id: TicketId, sending: bool, limit: int)
    ensures All(Appended(b, id, sending, limit)) == All(b) + [id]
  {
    CompletingKeepsIds(b.(open := b.open + [id], sending := sending));
  }

  predicate NeverClosed(events: seq<Event>) {
    forall k :: 0 <= k < |events| ==> !events[k].Closed?
  }

  /** The goroutine ends only after the channel was closed, and with no batch open. */
  lemma {:induction false} EndsOnlyWhenClosed(events: seq<Event>, limit: int)
    ensures var b := After(events, limit);
            && (NeverClosed(events) ==> b.sending && b.running)
            && (!b.running ==> b.open == [] && !b.sending)
  {
    if events != [] {
      EndsOnlyWhenClosed(events[..|events| - 1], limit);
    }
  }

  lemma StepAddsIds(b: Batcher, e: Event, limit: int)
    requires b.running
    ensures All(Next(b, e, limit)) ==
            All(b) + match e case Receive(id) => [id] case Closed => [""] case Deadline => []
  {
    match e
    case Receive(id) => AppendingAddsId(b, id, true, limit);
    case Closed => AppendingAddsId(b, "", false, limit);
    case Deadline => CompletingKeepsIds(b); assert All(b) + [] == All(b);
  }

  /** Whatever the schedule, the dispatched batches and the open one hold, in order, what was received
      and then only empty ids. */
  lemma {:induction false} IdsInOrder(events: seq<Event>, limit: int) returns (blanks: nat)
    requires Closes(events)
    ensures All(After(events, limit)) == Received(events) + Blanks(blanks)
    ensures NeverClosed(events) ==> blanks == 0
  {
    blanks := 0;
    if events != [] {
      var n := |events| - 1;
      EndsOnlyWhenClosed(events[..n], limit);
      blanks := IdsInOrder(events[..n], limit);
      if events[n].Receive? {
        assert NeverClosed(events[..n]);
      }
      blanks := OneMoreEvent(After(events[..n], limit), events[n], limit, Received(events[..n]), blanks);
    }
  }

  /** A receive finds the channel open, and then no blank was appended yet. */
  lemma OneMoreEvent(b: Batcher, e: Event, limit: int, received: seq<TicketId>, before: nat) returns (blanks: nat)
    requires All(b) == received + Blanks(before) && (e.Receive? ==> b.running && before == 0)
    ensures All(Next(b, e, limit)) == received + (if e.Receive? then [e.id] else []) + Blanks(blanks)
    ensures blanks == before || (e.Closed? && blanks == before + 1)
  {
    blanks := before;
    if b.running {
      StepAddsIds(b, e, limit);
      if e.Closed? {
        assert Blanks(before) + [""] == Blanks(before + 1);
        assert received + Blanks(before) + [""] == received + Blanks(before + 1);
        blanks := before + 1;
      }
    }
    if e.Receive? {
      assert received + Blanks(0) + [e.id] == received + [e.id] + Blanks(0);
    } else {
      assert received + [] == received;
    }
  }

  lemma {:induction false} StripBlanks(ids: seq<TicketId>, n: nat)
    ensures Strip(ids + Blanks(n)) == Strip(ids)
    decreases n
  {
    if n == 0 {
      assert ids + Blanks(0) == ids;
    } else {
      assert (ids + Blanks(n))[..|ids| + n - 1] == ids + Blanks(n - 1);
      StripBlanks(ids, n - 1);
    }
  }

  lemma {:induction false} StripKeepsAllIff(ids: seq<TicketId>)
    ensures |Strip(ids)| <= |ids| && (Strip(ids) == ids <==> "" !in ids)
  {
    if ids != [] {
      var n := |ids| - 1;
      StripKeepsAllIff(ids[..n]);
      assert ids == ids[..n] + [ids[n]];
      if ids[n] != "" && Strip(ids) == ids {
        assert Strip(ids)[..n] == Strip(ids[..n]);
      }
    }
  }

  /** Without its empty ids, what is dispatched and open is what was received, in order, exactly when no
      received id is empty. */
  lemma NothingIsLostIffNoIdIsEmpty(events: seq<Event>, limit: int)
    requires Closes(events)
    ensures Strip(All(After(events, limit))) == Received(events) <==> "" !in Received(events)
    ensures !After(events, limit).running ==> All(After(events, limit)) == Flatten(After(events, limit).dispatched)
  {
    var blanks := IdsInOrder(events, limit);
    StripBlanks(Received(events), blanks);
    StripKeepsAllIff(Received(events));
    EndsOnlyWhenClosed(events, limit);
  }

  ghost predicate Bounded(b: Batcher, limit: int) {
    forall k :: 0 <= k < |b.dispatched| ==> 1 <= |b.dispatched[k]| <= limit
  }

  lemma {:induction false} BatchesFit(events: seq<Event>, limit: int)
    requires limit >= 1
    ensures Bounded(After(events, limit), limit) && |After(events, limit).open| < limit
    ensures (forall k :: 0 <= k < |events| ==> !events[k].Deadline?) ==>
              forall k :: 0 <= k < |After(events, limit).dispatched| ==> |After(events, limit).dispatched[k]| == limit
  {
    if events != [] {
      BatchesFit(events[..|events| - 1], limit);
    }
  }

  /** Every batch of every schedule has between one and `limit` ids exactly when the limit is positive. */
  lemma BatchesFitIffLimitIsPositive(limit: int)
    ensures (forall events :: Bounded(After(events, limit), limit)) <==> limit >= 1
  {
    if limit >= 1 {
      forall events ensures Bounded(After(events, limit), limit) {
        BatchesFit(events, limit);
      }
    } else {
      var events := [Receive("a"), Deadline];
      assert events[..1] == [Receive("a")] && events[..1][..0] == [];
      assert After(events[..1], limit) == Batcher([], ["a"], true, true);
      assert After(events, limit).dispatched == [["a"]];
      assert |After(events, limit).dispatched[0]| > limit;
      assert !Bounded(After(events, limit), limit);
    }
  }

  // ------------------------------------------------------------------------ where batches end

  /** How many ids, blanks included, were appended since the last deadline. */
  function SinceDeadline(events: seq<Event>): nat {
    if events == [] || events[|events| - 1].Deadline? then 0 else SinceDeadline(events[..|events| - 1]) + 1
  }

  /** How many of n ids are left when batches are filled to the limit; a limit below one is never reached. */
  function Rest(n: nat, limit: int): nat {
    if limit >= 1 then n % limit else n
  }

  lemma RestNext(n: nat, limit: int)
    ensures Rest(n + 1, limit) == if Rest(n, limit) + 1 == limit then 0 else Rest(n, limit) + 1
  {
    if limit >= 1 {
      var q, r := n / limit, n % limit;
      assert n + 1 == q * limit + r + 1;
      if r + 1 == limit {
        assert n + 1 == (q + 1) * limit;
        Remainder(n + 1, q + 1, 0, limit);
      } else {
        Remainder(n + 1, q, r + 1, limit);
      }
    }
  }

  lemma Remainder(n: nat, q: nat, r: nat, d: nat)
    requires n == q * d + r && r < d
    ensures n % d == r
  {
    var q', r' := n / d, n % d;
    assert q' * d + r' == q * d + r;
    assert (q' - q) * d == r - r';
    NoMultipleBetween(q' - q, d);
  }

  lemma NoMultipleBetween(k: int, d: nat)
    requires -(d as int) < k * d < d
    ensures k == 0
  {
  }

  /** The events since the last deadline, `since` of them before event e. */
  function SinceAfter(since: nat, e: Event): nat {
    if e.Deadline? then 0 else since + 1
  }

  lemma StepOpens(b: Batcher, e: Event, limit: int, since: nat)
    requires b.running && |b.open| == Rest(since, limit)
    ensures var b', rest := Next(b, e, limit), Rest(SinceAfter(since, e), limit);
            && (b'.running ==> |b'.open| == rest) && (!b'.sending ==> (!b'.running <==> rest == 0))
  {
    RestNext(since, limit);
  }

  lemma SinceLast(events: seq<Event>)
    requires events != []
    ensures SinceDeadline(events) == SinceAfter(SinceDeadline(events[..|events| - 1]), events[|events| - 1])
  {
  }

  /** A batch ends exactly when a deadline comes or it is full: what is open are the ids since the last
      deadline, less full batches. */
  lemma {:induction false} OpenSinceDeadline(events: seq<Event>, limit: int, since: nat)
    requires After(events, limit).running && since == SinceDeadline(events)
    ensures |After(events, limit).open| == Rest(since, limit)
  {
    if events != [] {
      var n := |events| - 1;
      var before := SinceDeadline(events[..n]);
      OpenSinceDeadline(events[..n], limit, before);
      StepOpens(After(events[..n], limit), events[n], limit, before);
    }
  }

  /** No event dispatches more than one batch, and none takes a dispatched one back. */
  lemma OneBatchAtATime(b: Batcher, e: Event, limit: int)
    ensures var b' := Next(b, e, limit);
            b'.dispatched == b.dispatched || (b'.open == [] && b'.dispatched == b.dispatched + [b'.dispatched[|b.dispatched|]])
  {
  }

  /** A batch ends with event k. */
  predicate EndsAt(events: seq<Event>, limit: int, k: nat)
    requires k < |events|
  {
    Rest(SinceDeadline(events[..k + 1]), limit) == 0
  }

  ghost predicate FirstClosed(events: seq<Event>, p: nat) {
    p < |events| && events[p].Closed? && NeverClosed(events[..p])
  }

  lemma EndsAtPrefix(events: seq<Event>, limit: int, n: nat, k: nat)
    requires k < n <= |events|
    ensures EndsAt(events[..n], limit, k) <==> EndsAt(events, limit, k)
  {
    assert events[..n][..k + 1] == events[..k + 1];
  }

  lemma {:induction false} NotSendingOnceClosed(events: seq<Event>, limit: int, p: nat)
    requires Closes(events) && FirstClosed(events, p)
    ensures !After(events, limit).sending
  {
    var n := |events| - 1;
    if p < n {
      assert events[..n][..p] == events[..p];
      NotSendingOnceClosed(events[..n], limit, p);
    } else {
      EndsOnlyWhenClosed(events[..n], limit);
    }
  }

  lemma LastEvent(events: seq<Event>, limit: int, before: Batcher, since: nat)
    requires events != [] && before == After(events[..|events| - 1], limit) && before.running
    requires since == SinceDeadline(events[..|events| - 1]) && !After(events, limit).sending
    ensures !After(events, limit).running <==> EndsAt(events, limit, |events| - 1)
  {
    OpenSinceDeadline(events[..|events| - 1], limit, since);
    StepOpens(before, events[|events| - 1], limit, since);
    assert events[..|events|] == events;
    SinceLast(events);
  }

  /** The goroutine ends with the first batch that ends once the channel is closed. */
  lemma {:induction false} StopsWithTheFirstBatchAfterClosing(events: seq<Event>, limit: int, p: nat)
    requires Closes(events) && FirstClosed(events, p)
    ensures !After(events, limit).running <==> exists k: nat :: p <= k < |events| && EndsAt(events, limit, k)
  {
    var n := |events| - 1;
    var before := After(events[..n], limit);
    assert events[..n + 1] == events;
    NotSendingOnceClosed(events, limit, p);
    forall k: nat | k < n ensures EndsAt(events[..n], limit, k) <==> EndsAt(events, limit, k) {
      EndsAtPrefix(events, limit, n, k);
    }
    if p < n {
      assert events[..n][..p] == events[..p];
      StopsWithTheFirstBatchAfterClosing(events[..n], limit, p);
    } else {
      EndsOnlyWhenClosed(events[..n], limit);
    }
    if before.running {
      LastEvent(events, limit, before, SinceDeadline(events[..n]));
    }
  }

  // ---------------------------------------------------------------------- where ids come from

  /** CreateTicket: an empty id in the response is an error (v2/internal/omclient/omclient.go:143-152). */
  function CreateTicket(response: TicketId): (id: Option<TicketId>)
    ensures id.Some? ==> id.value != ""
  {
    if response == "" then None else Some(response)
  }

  /** The queue sends on the ids of the tickets it created (v2/internal/mmqueue/mmqueue.go:134-143). */
  function Sends(responses: seq<TicketId>): seq<TicketId> {
    if responses == [] then []
    else
      var n := |responses| - 1;
      Sends(responses[..n]) + match CreateTicket(responses[n]) case None => [] case Some(id) => [id]
  }

  /** Every response that is not empty is sent on, in order. */
  lemma {:induction false} SendsAllTickets(responses: seq<TicketId>)
    ensures Sends(responses) == Strip(responses)
  {
    if responses != [] {
      SendsAllTickets(responses[..|responses| - 1]);
    }
  }

  lemma {:induction false} NoEmptyIdIsSent(responses: seq<TicketId>)
    ensures "" !in Sends(responses)
  {
    if responses != [] {
      NoEmptyIdIsSent(responses[..|responses| - 1]);
    }
  }

  /** From the creation of tickets to the calls that activate them: at every moment the ids of the created
      tickets that the channel has passed on are in the dispatched batches and the open one, once each and in
      order; and with a positive limit fewer than that many of them wait to be dispatched. */
  lemma CreatedTicketsAreActivated(responses: seq<TicketId>, events: seq<Event>, limit: int)
    requires Closes(events) && Received(events) == Sends(responses)
    ensures Strip(All(After(events, limit))) == Sends(responses) == Strip(responses)
    ensures limit >= 1 ==> |After(events, limit).open| < limit
    ensures !After(events, limit).running ==> Strip(Flatten(After(events, limit).dispatched)) == Sends(responses)
  {
    NoEmptyIdIsSent(responses);
    SendsAllTickets(responses);
    NothingIsLostIffNoIdIsEmpty(events, limit);
    if limit >= 1 {
      BatchesFit(events, limit);
    }
  }

  // -------------------------------------------------------------------------- the goroutine

  /** The batching goroutine under a schedule of what its selects find; a goroutine whose schedule ends
      is blocked.  `used` events were taken. */
  method CreateBatches(events: seq<Event>, limit: int)
    returns (batchChan: seq<seq<TicketId>>, activationBatch: seq<TicketId>, closed: bool, used: nat)
    ensures used <= |events| && (used < |events| ==> closed)
    ensures After(events[..used], limit) == Batcher(batchChan, activationBatch, After(events[..used], limit).sending, !closed)
  {
    batchChan, activationBatch, used := [], [], 0;
    var next := 0;
    var senderActive := true;
    assert events[..0] == [];
    while senderActive
      invariant used == next <= |events|
      invariant After(events[..next], limit) == Batcher(batchChan, [], senderActive, senderActive)
      decreases |events| - next
    {
      activationBatch := [];
      var batchComplete := false;
      ghost var from := next;
      while !batchComplete
        invariant from <= used == next <= |events| && (batchComplete ==> from < next)
        invariant if batchComplete
                  then After(events[..next], limit) ==
                       Batcher(if activationBatch == [] then batchChan else batchChan + [activationBatch], [],
                               senderActive, senderActive)
                  else After(events[..next], limit) == Batcher(batchChan, activationBatch, senderActive, true)
        decreases |events| - next, !batchComplete
      {
        if next == |events| {
          return batchChan, activationBatch, false, next;
        }
        assert events[..next + 1][..next] == events[..next];
        match events[next] {
          case Receive(id) =>
            senderActive := true;
            activationBatch := activationBatch + [id];
            batchComplete := |activationBatch| == limit;
          case Closed =>
            senderActive := false;
            activationBatch := activationBatch + [""];
            batchComplete := |activationBatch| == limit;
          case Deadline =>
            batchComplete := true;
        }
        next := next + 1;
        used := next;
      }
      if |activationBatch| > 0 {
        batchChan := batchChan + [activationBatch];
      }
    }
    return batchChan, [], true, next;
  }
}
