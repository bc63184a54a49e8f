/** What the verdicts, counters and sends of a cycle mean, in terms of the proposals, the rolls, the pending
    requests, the assigned tickets and the results of the sends alone. */
module CycleMeaning {
  import opened AgonesRegistry
  import opened RegistryTheorems
  import opened AssignmentTracking
  import opened DirectorModel
  import opened DirectorTheorems
  import opened Options

  // ---------------------------------------------------------------------- tickets of a match

  function TicketsBefore(rosters: seq<Roster>, r: nat): nat
    requires r <= |rosters|
  {
    if r == 0 then 0 else TicketsBefore(rosters, r - 1) + |rosters[r - 1].tickets|
  }

  lemma {:induction false} TicketsBeforePrefix(rosters: seq<Roster>, n: nat, r: nat)
    requires r <= n <= |rosters|
    ensures TicketsBefore(rosters[..n], r) == TicketsBefore(rosters, r)
  {
    if r > 0 {
      TicketsBeforePrefix(rosters, n, r - 1);
    }
  }

  /** The tickets of a match are those of its rosters, all of them and in order. */
  lemma {:induction false} IdsInOrder(rosters: seq<Roster>, r: nat, t: nat)
    ensures |Ids(rosters)| == TicketsBefore(rosters, |rosters|)
    ensures r < |rosters| && t < |rosters[r].tickets| ==>
              && TicketsBefore(rosters, r) + t < |Ids(rosters)|
              && Ids(rosters)[TicketsBefore(rosters, r) + t] == rosters[r].tickets[t]
  {
    if rosters != [] {
      var n := |rosters| - 1;
      IdsInOrder(rosters[..n], r, t);
      TicketsBeforePrefix(rosters, n, n);
      if r < n {
        TicketsBeforePrefix(rosters, n, r);
      }
    }
  }

  /** Some roster of the match has the ticket. */
  predicate HasTicket(rosters: seq<Roster>, id: TicketId) {
    exists r :: 0 <= r < |rosters| && id in rosters[r].tickets
  }

  lemma {:induction false} IdsAreTickets(rosters: seq<Roster>, id: TicketId)
    ensures id in Ids(rosters) <==> HasTicket(rosters, id)
  {
    if rosters != [] {
      var n := |rosters| - 1;
      IdsAreTickets(rosters[..n], id);
      if HasTicket(rosters, id) {
        var r :| 0 <= r < |rosters| && id in rosters[r].tickets;
        assert r < n ==> id in rosters[..n][r].tickets;
      }
      if HasTicket(rosters[..n], id) {
        var r :| 0 <= r < n && id in rosters[..n][r].tickets;
        assert id in rosters[r].tickets;
      }
    }
  }

  function AssignedAt(tickets: seq<TicketId>, ids: set<TicketId>): set<nat> {
    set k: nat | k < |tickets| && tickets[k] in ids
  }

  lemma {:induction false} NumAssignedIsTheirNumber(tickets: seq<TicketId>, ids: set<TicketId>)
    ensures NumAssigned(tickets, ids) == |AssignedAt(tickets, ids)|
  {
    if tickets == [] {
      assert AssignedAt(tickets, ids) == {};
    } else {
      var n := |tickets| - 1;
      NumAssignedIsTheirNumber(tickets[..n], ids);
      assert AssignedAt(tickets, ids) == AssignedAt(tickets[..n], ids) + if tickets[n] in ids then {n} else {};
    }
  }

  // -------------------------------------------------------------------------------- verdicts

  /** The match answers a pending request whose servers are allocated by the spec. */
  predicate Answers(m: Match, pending: map<Hash, MmfRequest>, spec: SpecJson) {
    && m.hash.Some? && m.hash.value in pending && pending[m.hash.value].extensions.Some?
    && var extensions := pending[m.hash.value].extensions.value;
       AGONES_ALLOCATOR_KEY in extensions && extensions[AGONES_ALLOCATOR_KEY] == Allocator(spec)
  }

  ghost predicate AnswersSome(m: Match, pending: map<Hash, MmfRequest>) {
    exists spec :: Answers(m, pending, spec)
  }

  ghost predicate SomeAssigned(rosters: seq<Roster>, ids: set<TicketId>) {
    exists id :: id in ids && HasTicket(rosters, id)
  }

  lemma AnswersIffAllocator(m: Match, pending: map<Hash, MmfRequest>)
    ensures AnswersSome(m, pending) <==> m.hash.Some? && m.hash.value in pending && AllocatorOf(pending[m.hash.value]).Some?
    ensures AnswersSome(m, pending) ==> Answers(m, pending, AllocatorOf(pending[m.hash.value]).value)
  {
    if m.hash.Some? && m.hash.value in pending && AllocatorOf(pending[m.hash.value]).Some? {
      assert Answers(m, pending, AllocatorOf(pending[m.hash.value]).value);
    }
  }

  lemma {:induction false} NoneAssignedIff(tickets: seq<TicketId>, ids: set<TicketId>)
    ensures NumAssigned(tickets, ids) == 0 <==> forall id :: id in tickets ==> id !in ids
  {
    if tickets != [] {
      var n := |tickets| - 1;
      NoneAssignedIff(tickets[..n], ids);
      assert tickets == tickets[..n] + [tickets[n]];
    }
  }

  lemma NumAssignedIffSome(rosters: seq<Roster>, ids: set<TicketId>)
    ensures NumAssigned(Ids(rosters), ids) > 0 <==> SomeAssigned(rosters, ids)
  {
    NoneAssignedIff(Ids(rosters), ids);
    forall id ensures id in Ids(rosters) <==> HasTicket(rosters, id) {
      IdsAreTickets(rosters, id);
    }
  }

  /** A roll of two or more in a hundred accepts a proposal exactly when it answers a pending request that names an
      allocator, and none of its tickets is assigned; it is then drawn from the spec named, and carries the next
      request it names, if that has a profile.  If some tickets are assigned, all the tickets that are, are counted. */
  lemma VerdictMeans(m: Match, roll: nat, pending: map<Hash, MmfRequest>, ids: set<TicketId>)
    ensures var v := Judge(m, roll, pending, ids);
            && (v.Accepted? <==> roll >= 2 && AnswersSome(m, pending) && !SomeAssigned(m.rosters, ids))
            && (v.AlreadyAssigned? <==> roll >= 2 && AnswersSome(m, pending) && SomeAssigned(m.rosters, ids))
            && (v.AlreadyAssigned? ==> v.count == |AssignedAt(Ids(m.rosters), ids)|)
            && (v.Accepted? ==> Answers(m, pending, v.draw.from))
            && (v.Accepted? ==> (v.draw.next.Some? <==> m.next.Some? && m.next.value.profile != ""))
            && (v.Accepted? && v.draw.next.Some? ==> v.draw.next == m.next)
  {
    AnswersIffAllocator(m, pending);
    NumAssignedIffSome(m.rosters, ids);
    NumAssignedIsTheirNumber(Ids(m.rosters), ids);
  }

  /** The same for all proposals of a cycle. */
  lemma AcceptedExactlyWhenEligible(proposals: seq<Match>, rolls: seq<nat>, pending: map<Hash, MmfRequest>,
                                    ids: set<TicketId>)
    requires |rolls| == |proposals|
    ensures forall i: nat :: i in AcceptedAt(Judged(proposals, rolls, pending, ids)) <==>
              && i < |proposals| && rolls[i] >= 2
              && AnswersSome(proposals[i], pending) && !SomeAssigned(proposals[i].rosters, ids)
    ensures forall i: nat :: i in Eligible(proposals, pending, ids) <==>
              i < |proposals| && AnswersSome(proposals[i], pending) && !SomeAssigned(proposals[i].rosters, ids)
  {
    forall i: nat | i < |proposals|
      ensures Judge(proposals[i], rolls[i], pending, ids).Accepted? <==>
              rolls[i] >= 2 && AnswersSome(proposals[i], pending) && !SomeAssigned(proposals[i].rosters, ids)
      ensures Judge(proposals[i], 2, pending, ids).Accepted? <==>
              AnswersSome(proposals[i], pending) && !SomeAssigned(proposals[i].rosters, ids)
    {
      VerdictMeans(proposals[i], rolls[i], pending, ids);
      VerdictMeans(proposals[i], 2, pending, ids);
    }
  }

  // -------------------------------------------------------------------------------- counters

  function WithAssigned(verdicts: seq<Verdict>): set<nat> {
    set i: nat | i < |verdicts| && verdicts[i].AlreadyAssigned?
  }

  function WithNext(verdicts: seq<Verdict>): set<nat> {
    set i: nat | i < |verdicts| && verdicts[i].Accepted? && verdicts[i].draw.next.Some?
  }

  /** All the assigned tickets found in proposals. */
  function AssignedFound(verdicts: seq<Verdict>): nat {
    if verdicts == [] then 0
    else
      var last := verdicts[|verdicts| - 1];
      AssignedFound(verdicts[..|verdicts| - 1]) + if last.AlreadyAssigned? then last.count else 0
  }

  lemma LastVerdict(verdicts: seq<Verdict>)
    requires verdicts != []
    ensures var n := |verdicts| - 1; var last := verdicts[n];
            && |WithAssigned(verdicts)| == |WithAssigned(verdicts[..n])| + (if last.AlreadyAssigned? then 1 else 0)
            && |WithNext(verdicts)| == |WithNext(verdicts[..n])| + (if last.Accepted? && last.draw.next.Some? then 1 else 0)
  {
    var n := |verdicts| - 1; var last := verdicts[n];
    assert WithAssigned(verdicts) == WithAssigned(verdicts[..n]) + if last.AlreadyAssigned? then {n} else {};
    assert WithNext(verdicts) == WithNext(verdicts[..n]) + if last.Accepted? && last.draw.next.Some? then {n} else {};
  }

  lemma {:induction false} TallyOfVerdicts(st: Stats, proposals: seq<Match>, verdicts: seq<Verdict>)
    requires |verdicts| == |proposals|
    ensures var r := Tally(st, proposals, verdicts);
            && r.matchesWithAssigned == st.matchesWithAssigned + |WithAssigned(verdicts)|
            && r.rejectedWithAssigned == st.rejectedWithAssigned + |TicketsOf(proposals, WithAssigned(verdicts))|
            && r.assignedRejected == st.assignedRejected + AssignedFound(verdicts)
            && r.newRequests == st.newRequests + |WithNext(verdicts)|
  {
    if proposals == [] {
      assert WithAssigned(verdicts) == {} && WithNext(verdicts) == {};
    } else {
      var n := |proposals| - 1;
      TallyOfVerdicts(st, proposals[..n], verdicts[..n]);
      LastVerdict(verdicts);
      TicketsOfSame(proposals[..n], WithAssigned(verdicts), WithAssigned(verdicts[..n]));
    }
  }

  /** The other counters of a cycle: matches rejected for assigned tickets, the tickets of those matches, the assigned
      ones among them, and the next requests handed to the registry. */
  lemma OtherCountersAgree(hash: ParamsJson -> Hash, proposals: seq<Match>, verdicts: seq<Verdict>, order: seq<nat>,
                           sent: seq<TicketId>, p: Progress, mid: Progress, p': Progress)
    requires |verdicts| == |proposals| && CycleOutcome(hash, proposals, verdicts, order, sent, p, mid, p')
    requires p.stats == NO_STATS
    ensures p'.stats.matchesWithAssigned == |WithAssigned(verdicts)|
    ensures p'.stats.rejectedWithAssigned == |TicketsOf(proposals, WithAssigned(verdicts))|
    ensures p'.stats.assignedRejected == AssignedFound(verdicts)
    ensures p'.stats.newRequests == |WithNext(verdicts)|
  {
    assert verdicts[..|verdicts|] == verdicts && proposals[..|proposals|] == proposals;
    TallyOfVerdicts(p.stats, proposals, verdicts);
  }

  /** A ticket is among those of the given proposals exactly when a roster of one of them has it. */
  lemma {:induction false} TicketsOfMeans(proposals: seq<Match>, which: set<nat>, id: TicketId)
    ensures TicketsOf(proposals, which)[id] > 0 <==>
            exists i: nat :: i < |proposals| && i in which && HasTicket(proposals[i].rosters, id)
  {
    if proposals != [] {
      var n := |proposals| - 1;
      TicketsOfMeans(proposals[..n], which, id);
      IdsAreTickets(proposals[n].rosters, id);
      if i: nat :| i < n && i in which && HasTicket(proposals[..n][i].rosters, id) {
        assert HasTicket(proposals[i].rosters, id);
      }
      if i: nat :| i < |proposals| && i in which && HasTicket(proposals[i].rosters, id) {
        assert i < n ==> HasTicket(proposals[..n][i].rosters, id);
      }
    }
  }

  // ----------------------------------------------------------------------------- allocations

  /** The match whose turn comes last gets a server exactly if its spec has one left then. */
  lemma LastIsServedIff(gs: GameServers, matches: map<nat, SpecJson>, shorter: seq<nat>, last: nat)
    requires WellFormed(gs) && last in matches && last !in shorter && forall i :: i in shorter ==> i in matches
    ensures forall i :: i in shorter + [last] ==> i in matches
    ensures last in ServedBy(gs, matches, shorter + [last]) <==>
            multiset(SpecsOf(matches, shorter))[matches[last]] < Count(gs, matches[last])
    ensures forall i :: i in shorter ==>
              (i in ServedBy(gs, matches, shorter + [last]) <==> i in ServedBy(gs, matches, shorter))
  {
    var order := shorter + [last];
    assert order[..|shorter|] == shorter;
    ServedAreMembers(gs, matches, shorter);
    AllocationCounts(gs, SpecsOf(matches, shorter), matches[last]);
    AllocationsKeepForm(gs, SpecsOf(matches, shorter));
  }

  lemma SpecsBefore(matches: map<nat, SpecJson>, shorter: seq<nat>, last: nat, k: nat)
    requires last in matches && (forall i :: i in shorter ==> i in matches) && k <= |shorter|
    ensures forall i :: i in shorter + [last] ==> i in matches
    ensures SpecsOf(matches, shorter + [last])[..k] == SpecsOf(matches, shorter)[..k]
    ensures SpecsOf(matches, shorter)[..|shorter|] == SpecsOf(matches, shorter)
  {
  }

  ghost predicate Known(order: seq<nat>, matches: map<nat, SpecJson>) {
    forall i :: i in order ==> i in matches
  }

  /** The match whose turn is number k gets a server exactly when its spec has more servers than matches of that
      spec come before it in the walk. */
  ghost predicate ServedIfLeft(gs: GameServers, matches: map<nat, SpecJson>, order: seq<nat>, k: nat)
    requires Known(order, matches) && k < |order|
  {
    order[k] in ServedBy(gs, matches, order) <==>
    multiset(SpecsOf(matches, order)[..k])[matches[order[k]]] < Count(gs, matches[order[k]])
  }

  lemma ServedIfLeftLater(gs: GameServers, matches: map<nat, SpecJson>, shorter: seq<nat>, last: nat, k: nat)
    requires WellFormed(gs) && Known(shorter, matches) && last in matches && last !in shorter && k <= |shorter|
    requires k < |shorter| ==> ServedIfLeft(gs, matches, shorter, k)
    ensures Known(shorter + [last], matches) && ServedIfLeft(gs, matches, shorter + [last], k)
  {
    LastIsServedIff(gs, matches, shorter, last);
    SpecsBefore(matches, shorter, last, k);
    if k < |shorter| {
      assert shorter[k] in shorter && (shorter + [last])[k] == shorter[k];
    }
  }

  lemma {:induction false} ServedIffServersAreLeft(gs: GameServers, matches: map<nat, SpecJson>, order: seq<nat>, k: nat)
    requires WellFormed(gs) && Known(order, matches) && k < |order|
    requires forall i, j :: 0 <= i < j < |order| ==> order[i] != order[j]
    ensures ServedIfLeft(gs, matches, order, k)
  {
    var n := |order| - 1;
    var shorter, last := order[..n], order[n];
    assert order == shorter + [last];
    assert forall j :: 0 <= j < n ==> shorter[j] != last;
    assert Known(shorter, matches);
    if k < n {
      ServedIffServersAreLeft(gs, matches, shorter, k);
    }
    ServedIfLeftLater(gs, matches, shorter, last, k);
  }

  // ----------------------------------------------------------------------------------- sends

  /** The rosters sent: those of the served matches, in the order of the walk. */
  function RostersSent(proposals: seq<Match>, served: set<nat>, order: seq<nat>): seq<Roster>
    requires forall i :: i in order ==> i < |proposals|
  {
    if order == [] then []
    else
      var n := |order| - 1;
      assert order[n] in order && forall i :: i in order[..n] ==> i in order;
      RostersSent(proposals, served, order[..n]) + if order[n] in served then proposals[order[n]].rosters else []
  }

  /** The tickets of those rosters whose send, the first being number `first`, succeeds. */
  function Successful(rosters: seq<Roster>, result: nat -> bool, first: nat): seq<TicketId> {
    if rosters == [] then []
    else
      var n := |rosters| - 1;
      Successful(rosters[..n], result, first) + if result(first + n) then rosters[n].tickets else []
  }

  lemma SuccessfulSnoc(rosters: seq<Roster>, r: Roster, result: nat -> bool, first: nat)
    ensures Successful(rosters + [r], result, first) ==
            Successful(rosters, result, first) + if result(first + |rosters|) then r.tickets else []
  {
    assert (rosters + [r])[..|rosters|] == rosters;
  }

  /** Some roster with the ticket is sent successfully, the sends being numbered from `first`. */
  ghost predicate SentOk(rosters: seq<Roster>, result: nat -> bool, first: nat, id: TicketId) {
    exists a :: 0 <= a < |rosters| && result(first + a) && id in rosters[a].tickets
  }

  lemma SentOkSnoc(rosters: seq<Roster>, r: Roster, result: nat -> bool, first: nat, id: TicketId)
    ensures SentOk(rosters + [r], result, first, id) <==>
            SentOk(rosters, result, first, id) || (result(first + |rosters|) && id in r.tickets)
  {
    var all := rosters + [r];
    if SentOk(rosters, result, first, id) {
      var a :| 0 <= a < |rosters| && result(first + a) && id in rosters[a].tickets;
      assert id in all[a].tickets;
    }
    if result(first + |rosters|) && id in r.tickets {
      assert id in all[|rosters|].tickets;
    }
  }

  lemma LastApart(rosters: seq<Roster>) returns (shorter: seq<Roster>, last: Roster)
    requires rosters != []
    ensures shorter == rosters[..|rosters| - 1] && rosters == shorter + [last]
  {
    shorter, last := rosters[..|rosters| - 1], rosters[|rosters| - 1];
  }

  lemma {:induction false} SuccessfulTickets(rosters: seq<Roster>, result: nat -> bool, first: nat, id: TicketId)
    ensures id in Successful(rosters, result, first) <==> SentOk(rosters, result, first, id)
  {
    if rosters != [] {
      var shorter, last := LastApart(rosters);
      SuccessfulTickets(shorter, result, first, id);
      SuccessfulSnoc(shorter, last, result, first);
      SentOkSnoc(shorter, last, result, first, id);
    }
  }

  lemma Regroup(a: seq<Roster>, b: seq<Roster>, r: Roster)
    ensures a + (b + [r]) == a + b + [r]
  {
  }

  lemma ConcatSnoc(a: seq<Roster>, shorter: seq<Roster>, last: Roster, result: nat -> bool, first: nat)
    requires Successful(a + shorter, result, first) == Successful(a, result, first) + Successful(shorter, result, first + |a|)
    ensures Successful(a + shorter + [last], result, first) ==
            Successful(a, result, first) + Successful(shorter + [last], result, first + |a|)
  {
    SuccessfulSnoc(a + shorter, last, result, first);
    SuccessfulSnoc(shorter, last, result, first + |a|);
    Associate(Successful(a, result, first), Successful(shorter, result, first + |a|),
              if result(first + |a| + |shorter|) then last.tickets else []);
  }

  lemma {:induction false} SuccessfulConcat(a: seq<Roster>, b: seq<Roster>, result: nat -> bool, first: nat)
    ensures Successful(a + b, result, first) == Successful(a, result, first) + Successful(b, result, first + |a|)
    decreases |b|
  {
    if b == [] {
      assert a + b == a;
      assert Successful(a, result, first) + [] == Successful(a, result, first);
    } else {
      var shorter, last := LastApart(b);
      SuccessfulConcat(a, shorter, result, first);
      ConcatSnoc(a, shorter, last, result, first);
      Regroup(a, shorter, last);
    }
  }

  lemma SentOnlyLast(rosters: seq<Roster>, oks: seq<bool>)
    requires rosters != [] && |oks| == |rosters|
    ensures var n := |rosters| - 1;
            Ids(SentOnly(rosters, oks)) == Ids(SentOnly(rosters[..n], oks[..n])) + if oks[n] then rosters[n].tickets else []
  {
    var n := |rosters| - 1;
    var sent := SentOnly(rosters[..n], oks[..n]);
    IdsSnoc(sent, rosters[n]);
    assert sent + [] == sent && Ids(sent) + [] == Ids(sent);
  }

  lemma {:induction false} SentOnlyIsSuccessful(rosters: seq<Roster>, oks: seq<bool>, result: nat -> bool, first: nat)
    requires |oks| == |rosters| && forall k :: 0 <= k < |oks| ==> oks[k] == result(first + k)
    ensures Ids(SentOnly(rosters, oks)) == Successful(rosters, result, first)
  {
    if rosters != [] {
      SentOnlyLast(rosters, oks);
      SentOnlyIsSuccessful(rosters[..|rosters| - 1], oks[..|rosters| - 1], result, first);
    }
  }

  lemma {:induction false} RostersOfSame(proposals: seq<Match>, a: set<nat>, b: set<nat>, order: seq<nat>)
    requires forall i :: i in order ==> i < |proposals| && (i in a <==> i in b)
    ensures RostersSent(proposals, a, order) == RostersSent(proposals, b, order)
  {
    if order != [] {
      var n := |order| - 1;
      assert forall i :: i in order[..n] ==> i in order;
      RostersOfSame(proposals, a, b, order[..n]);
    }
  }

  lemma OneMoreRostersSent(proposals: seq<Match>, served: set<nat>, served': set<nat>, shorter: seq<nat>,
                           last: nat, now: bool)
    requires (forall i :: i in shorter ==> i < |proposals|) && last < |proposals| && last !in shorter
    requires last !in served && served' == served + if now then {last} else {}
    ensures forall i :: i in shorter + [last] ==> i < |proposals|
    ensures RostersSent(proposals, served', shorter + [last]) ==
            RostersSent(proposals, served, shorter) + if now then proposals[last].rosters else []
  {
    var order := shorter + [last];
    assert order[..|shorter|] == shorter;
    RostersOfSame(proposals, served, served', shorter);
  }

  lemma OneMoreSuccessful(rosters: seq<Roster>, more: seq<Roster>, result: nat -> bool, first: nat, d: Delivery)
    requires d == Delivery(Successful(rosters, result, first), first + |rosters|)
    ensures Delivery(d.sent + Ids(SentOnly(more, Results(result, d.sends, |more|))), d.sends + |more|) ==
            Delivery(Successful(rosters + more, result, first), first + |rosters + more|)
  {
    SentOnlyIsSuccessful(more, Results(result, d.sends, |more|), result, d.sends);
    SuccessfulConcat(rosters, more, result, first);
  }

  lemma LastDelivered(proposals: seq<Match>, gs: GameServers, matches: map<nat, SpecJson>, shorter: seq<nat>, last: nat,
                      result: nat -> bool, first: nat, before: seq<Roster>)
    requires InRange(shorter + [last], matches, proposals) && InRange(shorter, matches, proposals) && last !in shorter
    requires before == RostersSent(proposals, ServedBy(gs, matches, shorter), shorter)
    requires Delivered(proposals, gs, matches, shorter, result, first) ==
             Delivery(Successful(before, result, first), first + |before|)
    ensures var rosters := RostersSent(proposals, ServedBy(gs, matches, shorter + [last]), shorter + [last]);
            Delivered(proposals, gs, matches, shorter + [last], result, first) ==
            Delivery(Successful(rosters, result, first), first + |rosters|)
  {
    AllocationStep(proposals, gs, matches, shorter, last);
    ServedAreMembers(gs, matches, shorter);
    var now := matches[last] in AfterAllocations(gs, SpecsOf(matches, shorter));
    var served, served' := ServedBy(gs, matches, shorter), ServedBy(gs, matches, shorter + [last]);
    OneMoreRostersSent(proposals, served, served', shorter, last, now);
    var d := Delivered(proposals, gs, matches, shorter, result, first);
    DeliveredStep(proposals, gs, matches, shorter, result, first, last, d);
    if now {
      OneMoreSuccessful(before, proposals[last].rosters, result, first, d);
    } else {
      assert before + [] == before;
    }
  }

  lemma ShorterWalk(proposals: seq<Match>, matches: map<nat, SpecJson>, order: seq<nat>)
    returns (shorter: seq<nat>, last: nat)
    requires order != [] && InRange(order, matches, proposals) && WalksOver(order, Members(order))
    ensures shorter == order[..|order| - 1] && order == shorter + [last] && last !in shorter
    ensures InRange(shorter, matches, proposals) && WalksOver(shorter, Members(shorter))
  {
    shorter, last := order[..|order| - 1], order[|order| - 1];
    assert order == shorter + [last];
    assert forall j :: 0 <= j < |shorter| ==> shorter[j] != last;
    assert forall i :: i in shorter ==> i in order;
  }

  lemma {:induction false} DeliveredIsSuccessful(proposals: seq<Match>, gs: GameServers, matches: map<nat, SpecJson>,
                                                 order: seq<nat>, result: nat -> bool, first: nat, rosters: seq<Roster>)
    requires InRange(order, matches, proposals) && WalksOver(order, Members(order))
    requires rosters == RostersSent(proposals, ServedBy(gs, matches, order), order)
    ensures Delivered(proposals, gs, matches, order, result, first) ==
            Delivery(Successful(rosters, result, first), first + |rosters|)
  {
    if order != [] {
      var shorter, last := ShorterWalk(proposals, matches, order);
      var before := RostersSent(proposals, ServedBy(gs, matches, shorter), shorter);
      DeliveredIsSuccessful(proposals, gs, matches, shorter, result, first, before);
      LastDelivered(proposals, gs, matches, shorter, last, result, first, before);
    }
  }

  /** Each roster of each served match is sent once, in the order of the walk; a ticket counts as sent, and is tracked,
      exactly when it is on a roster whose send succeeds. */
  lemma SentExactlyWhenTheSendSucceeds(proposals: seq<Match>, gs: GameServers, matches: map<nat, SpecJson>,
                                       order: seq<nat>, result: nat -> bool, first: nat)
    requires InRange(order, matches, proposals) && WalksOver(order, Members(order))
    ensures var d := Delivered(proposals, gs, matches, order, result, first);
            var rosters := RostersSent(proposals, ServedBy(gs, matches, order), order);
            && d.sends == first + |rosters| && d.sent == Successful(rosters, result, first)
            && forall id :: id in d.sent <==> SentOk(rosters, result, first, id)
  {
    var rosters := RostersSent(proposals, ServedBy(gs, matches, order), order);
    DeliveredIsSuccessful(proposals, gs, matches, order, result, first, rosters);
    forall id
      ensures id in Successful(rosters, result, first) <==> SentOk(rosters, result, first, id)
    {
      SuccessfulTickets(rosters, result, first, id);
    }
  }
}
