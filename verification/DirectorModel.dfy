/** The decisions of one director cycle (v2/internal/gsdirector/gsdirector.go) as functions of the
    proposals, the random rolls, the pending requests and the assigned tickets. */
module DirectorModel {
  import opened AgonesRegistry
  import opened RegistryTheorems
  import opened AssignmentTracking
  import opened Options

  datatype Roster = Roster(tickets: seq<TicketId>)

  /** A proposed match: the hash of the request it answers and the next request it carries, as far as
      its extensions hold them. */
  datatype Match = Match(id: string, rosters: seq<Roster>, hash: Option<Hash>, next: Option<MmfRequest>)

  function Ids(rosters: seq<Roster>): seq<TicketId> {
    if rosters == [] then [] else Ids(rosters[..|rosters| - 1]) + rosters[|rosters| - 1].tickets
  }

  datatype Verdict = Rejected | AlreadyAssigned(count: nat) | Accepted(draw: Draw)

  function NumAssigned(tickets: seq<TicketId>, ids: set<TicketId>): nat {
    if tickets == [] then 0
    else NumAssigned(tickets[..|tickets| - 1], ids) + if tickets[|tickets| - 1] in ids then 1 else 0
  }

  lemma NumAssignedNext(before: seq<TicketId>, tickets: seq<TicketId>, t: nat, ids: set<TicketId>)
    requires t < |tickets|
    ensures NumAssigned(before + tickets[..t + 1], ids) ==
            NumAssigned(before + tickets[..t], ids) + if tickets[t] in ids then 1 else 0
  {
    assert (before + tickets[..t + 1])[..|before| + t] == before + tickets[..t];
  }

  lemma IdsNext(rosters: seq<Roster>, r: nat)
    requires r < |rosters|
    ensures Ids(rosters[..r + 1]) == Ids(rosters[..r]) + rosters[r].tickets
  {
    assert rosters[..r + 1][..r] == rosters[..r];
  }

  /** `roll` is what rand.Intn(100) returned: two rolls in a hundred reject, where the comment says one. */
  function Judge(m: Match, roll: nat, pending: map<Hash, MmfRequest>, ids: set<TicketId>): Verdict {
    if roll <= 1 || m.hash.None? || m.hash.value !in pending || AllocatorOf(pending[m.hash.value]).None? then Rejected
    else if NumAssigned(Ids(m.rosters), ids) > 0 then AlreadyAssigned(NumAssigned(Ids(m.rosters), ids))
    else
      Accepted(Draw(AllocatorOf(pending[m.hash.value]).value,
                    if m.next.Some? && m.next.value.profile != "" then m.next else None))
  }

  function Judged(proposals: seq<Match>, rolls: seq<nat>, pending: map<Hash, MmfRequest>, ids: set<TicketId>): seq<Verdict>
    requires |rolls| == |proposals|
  {
    seq(|proposals|, i requires 0 <= i < |proposals| => Judge(proposals[i], rolls[i], pending, ids))
  }

  function DrawsOf(verdicts: seq<Verdict>): seq<Draw> {
    if verdicts == [] then []
    else
      var last := verdicts[|verdicts| - 1];
      DrawsOf(verdicts[..|verdicts| - 1]) + if last.Accepted? then [last.draw] else []
  }

  /** The ids sent for re-activation while the proposals are judged. */
  function RejectedIds(proposals: seq<Match>, verdicts: seq<Verdict>): seq<TicketId>
    requires |verdicts| == |proposals|
  {
    if proposals == [] then []
    else
      var n := |proposals| - 1;
      RejectedIds(proposals[..n], verdicts[..n]) + if verdicts[n].Accepted? then [] else Ids(proposals[n].rosters)
  }

  /** The accepted matches, by proposal, with the spec each is to be allocated by. */
  function MatchesOf(hash: ParamsJson -> Hash, verdicts: seq<Verdict>): map<nat, SpecJson> {
    map i: nat | i < |verdicts| && verdicts[i].Accepted? :: Final(hash, verdicts[i].draw)
  }

  /** Accepting proposal i dereferences a nil pointer: its spec is no longer registered. */
  predicate Crashes(hash: ParamsJson -> Hash, gs: GameServers, verdicts: seq<Verdict>, i: nat)
    requires i < |verdicts|
  {
    && verdicts[i].Accepted? && verdicts[i].draw.next.Some?
    && verdicts[i].draw.from !in AfterUpdates(hash, gs, DrawsOf(verdicts[..i]))
  }

  /** The per-cycle counters. */
  datatype Stats = Stats(rejectedMatches: nat, idsToActivate: nat, ticketsRejected: nat, ticketAssignments: nat,
                         matchesWithAssigned: nat, assignedRejected: nat, rejectedWithAssigned: nat, newRequests: nat)

  const NO_STATS := Stats(0, 0, 0, 0, 0, 0, 0, 0)

  function CountReject(st: Stats, tickets: nat): Stats {
    st.(rejectedMatches := st.rejectedMatches + 1, idsToActivate := st.idsToActivate + tickets,
        ticketsRejected := st.ticketsRejected + tickets)
  }

  function CountSent(st: Stats, tickets: nat): Stats {
    st.(ticketAssignments := st.ticketAssignments + tickets)
  }

  function CountVerdict(st: Stats, m: Match, v: Verdict): Stats {
    match v
    case Rejected => CountReject(st, |Ids(m.rosters)|)
    case AlreadyAssigned(count) =>
      var r := CountReject(st, |Ids(m.rosters)|);
      r.(matchesWithAssigned := r.matchesWithAssigned + 1, assignedRejected := r.assignedRejected + count,
         rejectedWithAssigned := r.rejectedWithAssigned + |Ids(m.rosters)|)
    case Accepted(draw) => if draw.next.Some? then st.(newRequests := st.newRequests + 1) else st
  }

  function Tally(st: Stats, proposals: seq<Match>, verdicts: seq<Verdict>): Stats
    requires |verdicts| == |proposals|
  {
    if proposals == [] then st
    else
      var n := |proposals| - 1;
      CountVerdict(Tally(st, proposals[..n], verdicts[..n]), proposals[n], verdicts[n])
  }

  // ----------------------------------------------------------------------------- allocation

  function SpecsOf(matches: map<nat, SpecJson>, order: seq<nat>): seq<SpecJson>
    requires forall i :: i in order ==> i in matches
  {
    seq(|order|, k requires 0 <= k < |order| => matches[order[k]])
  }

  /** The matches that find a server when they are allocated in the given order. */
  function ServedBy(gs: GameServers, matches: map<nat, SpecJson>, order: seq<nat>): set<nat>
    requires forall i :: i in order ==> i in matches
  {
    if order == [] then {}
    else
      var n := |order| - 1;
      assert forall i :: i in order[..n] ==> i in order;
      ServedBy(gs, matches, order[..n]) +
      if matches[order[n]] in AfterAllocations(gs, SpecsOf(matches, order[..n])) then {order[n]} else {}
  }

  /** The ids sent for re-activation because their match found no server. */
  function Returned(proposals: seq<Match>, gs: GameServers, matches: map<nat, SpecJson>, order: seq<nat>): seq<TicketId>
    requires forall i :: i in order ==> i in matches && i < |proposals|
  {
    if order == [] then []
    else
      var n := |order| - 1;
      assert forall i :: i in order[..n] ==> i in order;
      Returned(proposals, gs, matches, order[..n]) +
      if matches[order[n]] in AfterAllocations(gs, SpecsOf(matches, order[..n])) then []
      else Ids(proposals[order[n]].rosters)
  }

  ghost predicate WalksOver(order: seq<nat>, keys: set<nat>) {
    (forall i :: i in order <==> i in keys) && (forall j, k :: 0 <= j < k < |order| ==> order[j] != order[k])
  }

  /** All tickets of the proposals whose position is in `which`. */
  function TicketsOf(proposals: seq<Match>, which: set<nat>): multiset<TicketId> {
    if proposals == [] then multiset{}
    else
      var n := |proposals| - 1;
      TicketsOf(proposals[..n], which) + if n in which then multiset(Ids(proposals[n].rosters)) else multiset{}
  }

  function AllTickets(proposals: seq<Match>): multiset<TicketId> {
    if proposals == [] then multiset{}
    else AllTickets(proposals[..|proposals| - 1]) + multiset(Ids(proposals[|proposals| - 1].rosters))
  }

  lemma {:induction false} TicketsOfAll(proposals: seq<Match>, which: set<nat>)
    requires forall i :: 0 <= i < |proposals| ==> i in which
    ensures TicketsOf(proposals, which) == AllTickets(proposals)
  {
    if proposals != [] {
      TicketsOfAll(proposals[..|proposals| - 1], which);
    }
  }

  lemma {:induction false} TicketsOfSplit(proposals: seq<Match>, a: set<nat>, b: set<nat>)
    requires a !! b
    ensures TicketsOf(proposals, a + b) == TicketsOf(proposals, a) + TicketsOf(proposals, b)
  {
    if proposals != [] {
      TicketsOfSplit(proposals[..|proposals| - 1], a, b);
    }
  }

  lemma {:induction false} TicketsOfOne(proposals: seq<Match>, i: nat)
    requires i < |proposals|
    ensures TicketsOf(proposals, {i}) == multiset(Ids(proposals[i].rosters))
  {
    var n := |proposals| - 1;
    if i == n {
      TicketsOfNone(proposals[..n], {i});
    } else {
      TicketsOfOne(proposals[..n], i);
    }
  }

  lemma {:induction false} TicketsOfNone(proposals: seq<Match>, which: set<nat>)
    requires forall i :: i in which ==> i >= |proposals|
    ensures TicketsOf(proposals, which) == multiset{}
  {
    if proposals != [] {
      TicketsOfNone(proposals[..|proposals| - 1], which);
    }
  }

  lemma {:induction false} TicketsOfSame(proposals: seq<Match>, a: set<nat>, b: set<nat>)
    requires forall i :: 0 <= i < |proposals| ==> (i in a <==> i in b)
    ensures TicketsOf(proposals, a) == TicketsOf(proposals, b)
  {
    if proposals != [] {
      TicketsOfSame(proposals[..|proposals| - 1], a, b);
    }
  }

  lemma {:induction false} TicketsOfFewer(proposals: seq<Match>, a: set<nat>, b: set<nat>)
    requires a <= b
    ensures TicketsOf(proposals, a) <= TicketsOf(proposals, b)
  {
    if proposals != [] {
      TicketsOfFewer(proposals[..|proposals| - 1], a, b);
    }
  }

  lemma {:induction false} TicketsOfAny(proposals: seq<Match>, which: set<nat>)
    ensures TicketsOf(proposals, which) <= AllTickets(proposals)
  {
    if proposals != [] {
      TicketsOfAny(proposals[..|proposals| - 1], which);
    }
  }

  function Members(order: seq<nat>): set<nat> {
    set i | i in order
  }

  ghost predicate InRange(order: seq<nat>, matches: map<nat, SpecJson>, proposals: seq<Match>) {
    forall i :: i in order ==> i in matches && i < |proposals|
  }

  lemma AllocationStep(proposals: seq<Match>, gs: GameServers, matches: map<nat, SpecJson>, order: seq<nat>, last: nat)
    requires InRange(order + [last], matches, proposals)
    ensures InRange(order, matches, proposals) && last in matches && last < |proposals|
    ensures var gs' := AfterAllocations(gs, SpecsOf(matches, order));
            var served := matches[last] in gs';
            && AfterAllocations(gs, SpecsOf(matches, order + [last])) == RemoveOne(gs', matches[last])
            && ServedBy(gs, matches, order + [last]) == ServedBy(gs, matches, order) + (if served then {last} else {})
            && Returned(proposals, gs, matches, order + [last]) ==
               Returned(proposals, gs, matches, order) + (if served then [] else Ids(proposals[last].rosters))
  {
    var longer := order + [last];
    assert longer[..|order|] == order && last in longer;
    assert forall i :: i in order ==> i in longer;
    assert SpecsOf(matches, longer)[..|order|] == SpecsOf(matches, order);
  }

  lemma Balance(returned: multiset<TicketId>, served: multiset<TicketId>, walked: multiset<TicketId>, m: multiset<TicketId>)
    requires returned + served == walked
    ensures (returned + m) + served == walked + m && returned + (served + m) == walked + m
  {
  }

  ghost predicate Balanced(proposals: seq<Match>, returned: seq<TicketId>, served: set<nat>, walked: set<nat>) {
    multiset(returned) + TicketsOf(proposals, served) == TicketsOf(proposals, walked)
  }

  lemma BalanceStep(proposals: seq<Match>, returned: seq<TicketId>, served: set<nat>, order: seq<nat>, last: nat)
    requires Balanced(proposals, returned, served, Members(order)) && served <= Members(order)
    requires last !in order && last < |proposals|
    ensures Balanced(proposals, returned + Ids(proposals[last].rosters), served, Members(order + [last]))
    ensures Balanced(proposals, returned, served + {last}, Members(order + [last]))
  {
    MembersSnoc(proposals, order, last);
    TicketsOfOne(proposals, last);
    TicketsOfSplit(proposals, served, {last});
    Balance(multiset(returned), TicketsOf(proposals, served), TicketsOf(proposals, Members(order)),
            multiset(Ids(proposals[last].rosters)));
  }

  /** The tickets of the matches walked are those given back and those of the matches served. */
  lemma {:induction false} ReturnedTickets(proposals: seq<Match>, gs: GameServers, matches: map<nat, SpecJson>, order: seq<nat>)
    requires InRange(order, matches, proposals) && WalksOver(order, Members(order))
    ensures Balanced(proposals, Returned(proposals, gs, matches, order), ServedBy(gs, matches, order), Members(order))
    ensures ServedBy(gs, matches, order) <= Members(order)
  {
    if order == [] {
      assert Members(order) == {};
    } else {
      var n := |order| - 1;
      var shorter, last := order[..n], order[n];
      assert order == shorter + [last];
      AllocationStep(proposals, gs, matches, shorter, last);
      assert forall j :: 0 <= j < n ==> shorter[j] != last;
      ReturnedTickets(proposals, gs, matches, shorter);
      BalanceStep(proposals, Returned(proposals, gs, matches, shorter), ServedBy(gs, matches, shorter), shorter, last);
      assert ServedBy(gs, matches, shorter) + {} == ServedBy(gs, matches, shorter);
      assert Returned(proposals, gs, matches, shorter) + [] == Returned(proposals, gs, matches, shorter);
    }
  }

  lemma MembersSnoc(proposals: seq<Match>, order: seq<nat>, last: nat)
    requires last !in order
    ensures Members(order + [last]) == Members(order) + {last}
    ensures TicketsOf(proposals, Members(order + [last])) == TicketsOf(proposals, Members(order)) + TicketsOf(proposals, {last})
  {
    assert Members(order + [last]) == Members(order) + {last};
    TicketsOfSplit(proposals, Members(order), {last});
  }

  function NotAccepted(verdicts: seq<Verdict>): set<nat> {
    set i: nat | i < |verdicts| && !verdicts[i].Accepted?
  }

  /** Judging sends exactly the tickets of the rejected proposals for re-activation. */
  lemma {:induction false} RejectedIdsAreTickets(proposals: seq<Match>, verdicts: seq<Verdict>)
    requires |verdicts| == |proposals|
    ensures multiset(RejectedIds(proposals, verdicts)) == TicketsOf(proposals, NotAccepted(verdicts))
  {
    if proposals != [] {
      var n := |proposals| - 1;
      RejectedIdsAreTickets(proposals[..n], verdicts[..n]);
      TicketsOfSame(proposals[..n], NotAccepted(verdicts), NotAccepted(verdicts[..n]));
    }
  }

  lemma {:induction false} TallyCounts(st: Stats, proposals: seq<Match>, verdicts: seq<Verdict>)
    requires |verdicts| == |proposals|
    ensures var r := Tally(st, proposals, verdicts);
            && r.rejectedMatches == st.rejectedMatches + |NotAccepted(verdicts)|
            && r.idsToActivate == st.idsToActivate + |RejectedIds(proposals, verdicts)|
            && r.ticketsRejected == st.ticketsRejected + |RejectedIds(proposals, verdicts)|
            && r.ticketAssignments == st.ticketAssignments
  {
    if proposals != [] {
      var n := |proposals| - 1;
      TallyCounts(st, proposals[..n], verdicts[..n]);
      NotAcceptedStep(verdicts);
    }
  }

  lemma NotAcceptedStep(verdicts: seq<Verdict>)
    requires verdicts != []
    ensures var n := |verdicts| - 1;
            |NotAccepted(verdicts)| == |NotAccepted(verdicts[..n])| + if verdicts[n].Accepted? then 0 else 1
  {
    var n := |verdicts| - 1;
    if verdicts[n].Accepted? {
      assert NotAccepted(verdicts) == NotAccepted(verdicts[..n]);
    } else {
      assert NotAccepted(verdicts) == NotAccepted(verdicts[..n]) + {n};
    }
  }

  /** A ticket assigned when the cycle began is in no accepted match. */
  lemma AcceptedHasNoAssignedTicket(m: Match, roll: nat, pending: map<Hash, MmfRequest>, ids: set<TicketId>, id: TicketId)
    requires Judge(m, roll, pending, ids).Accepted? && id in Ids(m.rosters)
    ensures id !in ids
  {
    if id in ids {
      CountedWhenAssigned(Ids(m.rosters), ids, id);
    }
  }

  lemma {:induction false} CountedWhenAssigned(tickets: seq<TicketId>, ids: set<TicketId>, id: TicketId)
    requires id in tickets && id in ids
    ensures NumAssigned(tickets, ids) > 0
  {
    var n := |tickets| - 1;
    if tickets[n] != id {
      assert id in tickets[..n];
      CountedWhenAssigned(tickets[..n], ids, id);
    }
  }

  /** No ticket occurs twice among the proposals of a cycle. */
  ghost predicate DistinctTickets(proposals: seq<Match>) {
    forall id :: AllTickets(proposals)[id] <= 1
  }

  ghost predicate NoRepeats(s: seq<TicketId>) {
    forall i, j :: 0 <= i < j < |s| ==> s[i] != s[j]
  }

  function SetOf(ids: seq<TicketId>): set<TicketId> {
    set id | id in ids
  }

  lemma SetOfConcat(a: seq<TicketId>, b: seq<TicketId>)
    ensures SetOf(a + b) == SetOf(a) + SetOf(b)
  {
  }

  lemma NoRepeatsIffOnce(ids: seq<TicketId>)
    requires forall id :: multiset(ids)[id] <= 1
    ensures NoRepeats(ids)
  {
    forall i, j | 0 <= i < j < |ids| ensures ids[i] != ids[j] {
      assert ids == ids[..j] + ids[j..];
      assert ids[i] in ids[..j] && ids[j] in ids[j..];
      assert multiset(ids)[ids[i]] == multiset(ids[..j])[ids[i]] + multiset(ids[j..])[ids[i]];
      assert multiset(ids[j..])[ids[i]] >= if ids[i] == ids[j] then 1 else 0;
    }
  }

  /** The rosters whose assignment was sent. */
  function SentOnly(rosters: seq<Roster>, oks: seq<bool>): seq<Roster>
    requires |oks| == |rosters|
  {
    if rosters == [] then []
    else
      var n := |rosters| - 1;
      SentOnly(rosters[..n], oks[..n]) + if oks[n] then [rosters[n]] else []
  }

  lemma IdsSnoc(rosters: seq<Roster>, r: Roster)
    ensures Ids(rosters + [r]) == Ids(rosters) + r.tickets
  {
    assert (rosters + [r])[..|rosters|] == rosters;
  }

  lemma {:induction false} SentTickets(rosters: seq<Roster>, oks: seq<bool>)
    requires |oks| == |rosters|
    ensures multiset(Ids(SentOnly(rosters, oks))) <= multiset(Ids(rosters))
  {
    if rosters != [] {
      var n := |rosters| - 1;
      SentTickets(rosters[..n], oks[..n]);
      var sent := SentOnly(rosters[..n], oks[..n]);
      IdsSnoc(sent, rosters[n]);
      assert sent + [] == sent;
    }
  }

  /** The tickets of all successful sends, in order. */
  function LogIds(log: seq<Event>): seq<TicketId> {
    if log == [] then []
    else LogIds(log[..|log| - 1]) + if log[|log| - 1].Tracked? then [log[|log| - 1].id] else []
  }

  /** The ids are distinct and none is among those tracked before in the cycle. */
  ghost predicate NewInCycle(ids: seq<TicketId>, fresh_: set<TicketId>) {
    NoRepeats(ids) && SetOf(ids) !! fresh_
  }

  /** From one history to a longer one of the same cycle, exactly the given tickets were sent and tracked. */
  ghost predicate Sends(s: State, log: seq<Event>, s': State, log': seq<Event>, ids: seq<TicketId>) {
    && s'.old_ == s.old_ && s'.fresh_ == s.fresh_ + SetOf(ids) && LogIds(log') == LogIds(log) + ids
    && (s'.repeated <==> s.repeated || !NewInCycle(ids, s.fresh_))
  }

  lemma SendsNothing(s: State, log: seq<Event>)
    ensures Sends(s, log, s, log, [])
  {
    assert SetOf([]) == {};
  }

  lemma NewInCycleConcat(a: seq<TicketId>, b: seq<TicketId>, fresh_: set<TicketId>)
    ensures NewInCycle(a + b, fresh_) <==> NewInCycle(a, fresh_) && NewInCycle(b, fresh_ + SetOf(a))
  {
    var all := a + b;
    SetOfConcat(a, b);
    if NewInCycle(all, fresh_) {
      forall i, j | 0 <= i < j < |a| ensures a[i] != a[j] {
        assert all[i] == a[i] && all[j] == a[j];
      }
      forall i, j | 0 <= i < j < |b| ensures b[i] != b[j] {
        assert all[|a| + i] == b[i] && all[|a| + j] == b[j];
      }
      forall id | id in b ensures id !in a {
        var j :| 0 <= j < |b| && b[j] == id;
        assert all[|a| + j] == id;
        assert forall i :: 0 <= i < |a| ==> all[i] == a[i];
      }
    }
    if NewInCycle(a, fresh_) && NewInCycle(b, fresh_ + SetOf(a)) {
      forall i, j | 0 <= i < j < |all| ensures all[i] != all[j] {
        if i < |a| <= j {
          assert b[j - |a|] in SetOf(b) && a[i] in SetOf(a);
        }
      }
    }
  }

  lemma SendsMore(s: State, log: seq<Event>, s1: State, log1: seq<Event>, s2: State, log2: seq<Event>,
                  a: seq<TicketId>, b: seq<TicketId>)
    requires Sends(s, log, s1, log1, a) && Sends(s1, log1, s2, log2, b)
    ensures Sends(s, log, s2, log2, a + b)
  {
    SetOfConcat(a, b);
    NewInCycleConcat(a, b, s.fresh_);
    assert LogIds(log) + (a + b) == LogIds(log) + a + b;
  }

  lemma SendsOne(s: State, log: seq<Event>, id: TicketId, sentAt: int, stamp: int, ttl: int)
    ensures var e := Tracked(id, sentAt, stamp); Sends(s, log, Next(s, e, ttl), log + [e], [id])
  {
    var e := Tracked(id, sentAt, stamp);
    assert (log + [e])[..|log|] == log;
    assert SetOf([id]) == {id};
  }

  /** What the director's loops change besides the tracking of assignments. */
  datatype Progress = Progress(gs: GameServers, toActivate: seq<TicketId>, stats: Stats)

  /** Allocating the accepted matches in the given order takes their servers from the registry and
      gives the tickets of matches without a server back. */
  ghost predicate Walked(proposals: seq<Match>, matches: map<nat, SpecJson>, order: seq<nat>, p: Progress, p': Progress) {
    && InRange(order, matches, proposals) && WalksOver(order, Members(order))
    && p'.gs == AfterAllocations(p.gs, SpecsOf(matches, order))
    && p'.toActivate == p.toActivate + Returned(proposals, p.gs, matches, order)
  }

  /** Only tickets of the matches served in `order` are sent, and the counters agree. */
  ghost predicate Accounted(proposals: seq<Match>, matches: map<nat, SpecJson>, order: seq<nat>, sent: seq<TicketId>,
                            p: Progress, p': Progress)
    requires InRange(order, matches, proposals)
  {
    && ServedBy(p.gs, matches, order) <= Members(order)
    && multiset(sent) <= TicketsOf(proposals, ServedBy(p.gs, matches, order))
    && CountedAllocations(p.stats, |order|, |ServedBy(p.gs, matches, order)|,
                          |Returned(proposals, p.gs, matches, order)|, |sent|, p'.stats)
  }

  ghost predicate Allocated(proposals: seq<Match>, matches: map<nat, SpecJson>, order: seq<nat>, sent: seq<TicketId>,
                            p: Progress, p': Progress)
  {
    Walked(proposals, matches, order, p, p') && Accounted(proposals, matches, order, sent, p, p')
  }

  ghost predicate CountedAllocations(st: Stats, walked: nat, served: nat, returned: nat, sent: nat, st': Stats) {
    && served <= walked
    && st' == st.(rejectedMatches := st.rejectedMatches + (walked - served),
                  idsToActivate := st.idsToActivate + returned,
                  ticketsRejected := st.ticketsRejected + returned,
                  ticketAssignments := st.ticketAssignments + sent)
  }

  lemma AllocatedNone(proposals: seq<Match>, matches: map<nat, SpecJson>, p: Progress)
    ensures Allocated(proposals, matches, [], [], p, p)
  {
    assert p.toActivate + [] == p.toActivate;
    assert SpecsOf(matches, []) == [];
  }

  lemma WalkStep(order: seq<nat>, i: nat)
    requires WalksOver(order, Members(order)) && i !in order
    ensures WalksOver(order + [i], Members(order + [i])) && Members(order + [i]) == Members(order) + {i}
  {
  }

  lemma ServedStep(proposals: seq<Match>, before: set<nat>, sent: seq<TicketId>, i: nat, now: seq<TicketId>)
    requires i < |proposals| && i !in before
    requires multiset(sent) <= TicketsOf(proposals, before) && multiset(now) <= multiset(Ids(proposals[i].rosters))
    ensures multiset(sent + now) <= TicketsOf(proposals, before + {i})
  {
    TicketsOfOne(proposals, i);
    TicketsOfSplit(proposals, before, {i});
  }

  lemma WalkedStep(proposals: seq<Match>, matches: map<nat, SpecJson>, order: seq<nat>, p: Progress, mid: Progress,
                   i: nat, p': Progress)
    requires Walked(proposals, matches, order, p, mid) && i in matches && i < |proposals| && i !in order
    requires p'.gs == RemoveOne(mid.gs, matches[i])
    requires p'.toActivate == mid.toActivate + if matches[i] in mid.gs then [] else Ids(proposals[i].rosters)
    ensures Walked(proposals, matches, order + [i], p, p')
  {
    WalkStep(order, i);
    AllocationStep(proposals, p.gs, matches, order, i);
    Associate(p.toActivate, Returned(proposals, p.gs, matches, order),
              if matches[i] in mid.gs then [] else Ids(proposals[i].rosters));
  }

  lemma Associate(a: seq<TicketId>, b: seq<TicketId>, c: seq<TicketId>)
    ensures a + b + c == a + (b + c)
  {
  }

  lemma CountsServed(st: Stats, walked: nat, served: nat, returned: nat, sent: nat, mid: Stats, now: nat)
    requires CountedAllocations(st, walked, served, returned, sent, mid)
    ensures CountedAllocations(st, walked + 1, served + 1, returned, sent + now, CountSent(mid, now))
    ensures CountedAllocations(st, walked + 1, served, returned + now, sent, CountReject(mid, now))
  {
  }

  lemma MembersSnocSet(order: seq<nat>, i: nat)
    ensures Members(order + [i]) == Members(order) + {i} && |order + [i]| == |order| + 1
  {
  }

  lemma AccountServed(proposals: seq<Match>, before: set<nat>, walked: set<nat>, sent: seq<TicketId>, i: nat, now: seq<TicketId>,
                      st: Stats, n: nat, returned: nat, mid: Stats)
    requires i < |proposals| && i !in walked && before <= walked && multiset(sent) <= TicketsOf(proposals, before)
    requires multiset(now) <= multiset(Ids(proposals[i].rosters))
    requires CountedAllocations(st, n, |before|, returned, |sent|, mid)
    ensures before + {i} <= walked + {i} && multiset(sent + now) <= TicketsOf(proposals, before + {i})
    ensures CountedAllocations(st, n + 1, |before + {i}|, returned, |sent + now|, CountSent(mid, |now|))
  {
    ServedStep(proposals, before, sent, i, now);
    assert |before + {i}| == |before| + 1;
    CountsServed(st, n, |before|, returned, |sent|, mid, |now|);
  }

  /** One more match served: some of its tickets are sent. */
  lemma AccountedServed(proposals: seq<Match>, matches: map<nat, SpecJson>, order: seq<nat>, sent: seq<TicketId>,
                        p: Progress, mid: Progress, i: nat, now: seq<TicketId>, p': Progress)
    requires InRange(order + [i], matches, proposals) && InRange(order, matches, proposals)
    requires Accounted(proposals, matches, order, sent, p, mid) && i !in order
    requires i in matches && i < |proposals| && matches[i] in AfterAllocations(p.gs, SpecsOf(matches, order))
    requires multiset(now) <= multiset(Ids(proposals[i].rosters)) && p'.stats == CountSent(mid.stats, |now|)
    ensures Accounted(proposals, matches, order + [i], sent + now, p, p')
  {
    var before, returned := ServedBy(p.gs, matches, order), Returned(proposals, p.gs, matches, order);
    AllocationStep(proposals, p.gs, matches, order, i);
    MembersSnocSet(order, i);
    AccountServed(proposals, before, Members(order), sent, i, now, p.stats, |order|, |returned|, mid.stats);
    assert returned + [] == returned;
  }

  /** One more match without a server: its tickets are given back. */
  lemma AccountedUnserved(proposals: seq<Match>, matches: map<nat, SpecJson>, order: seq<nat>, sent: seq<TicketId>,
                          p: Progress, mid: Progress, i: nat, p': Progress)
    requires InRange(order + [i], matches, proposals) && InRange(order, matches, proposals)
    requires Accounted(proposals, matches, order, sent, p, mid)
    requires i in matches && i < |proposals| && matches[i] !in AfterAllocations(p.gs, SpecsOf(matches, order))
    requires p'.stats == CountReject(mid.stats, |Ids(proposals[i].rosters)|)
    ensures Accounted(proposals, matches, order + [i], sent, p, p')
  {
    var before := ServedBy(p.gs, matches, order);
    AllocationStep(proposals, p.gs, matches, order, i);
    assert before + {} == before;
    CountsServed(p.stats, |order|, |before|, |Returned(proposals, p.gs, matches, order)|, |sent|, mid.stats,
                 |Ids(proposals[i].rosters)|);
  }

  /** What allocating match i may lead to. */
  ghost predicate AllocatesOne(m: Match, spec: SpecJson, now: seq<TicketId>, p: Progress, p': Progress) {
    if spec in p.gs
    then p' == Progress(RemoveOne(p.gs, spec), p.toActivate, CountSent(p.stats, |now|)) &&
         multiset(now) <= multiset(Ids(m.rosters))
    else p' == Progress(p.gs, p.toActivate + Ids(m.rosters), CountReject(p.stats, |Ids(m.rosters)|)) && now == []
  }

  lemma AllocatedStep(proposals: seq<Match>, matches: map<nat, SpecJson>, order: seq<nat>, sent: seq<TicketId>,
                      p: Progress, mid: Progress, i: nat, now: seq<TicketId>, p': Progress)
    requires Allocated(proposals, matches, order, sent, p, mid)
    requires i in matches && i < |proposals| && i !in order
    requires AllocatesOne(proposals[i], matches[i], now, mid, p')
    ensures Allocated(proposals, matches, order + [i], sent + now, p, p')
  {
    assert p'.gs == RemoveOne(mid.gs, matches[i]);
    assert p'.toActivate == mid.toActivate + if matches[i] in mid.gs then [] else Ids(proposals[i].rosters) by {
      assert mid.toActivate + [] == mid.toActivate;
    }
    WalkedStep(proposals, matches, order, p, mid, i, p');
    if matches[i] in mid.gs {
      AccountedServed(proposals, matches, order, sent, p, mid, i, now, p');
    } else {
      AccountedUnserved(proposals, matches, order, sent, p, mid, i, p');
      assert sent + now == sent;
    }
  }

  /** The loop gets from p to p' by judging the first n proposals. */
  ghost predicate Evaluated(hash: ParamsJson -> Hash, proposals: seq<Match>, verdicts: seq<Verdict>, n: nat, p: Progress, p': Progress)
    requires n <= |proposals| == |verdicts|
  {
    && (forall i :: 0 <= i < n ==> !Crashes(hash, p.gs, verdicts, i))
    && p'.toActivate == p.toActivate + RejectedIds(proposals[..n], verdicts[..n])
    && p'.stats == Tally(p.stats, proposals[..n], verdicts[..n])
    && p'.gs == AfterUpdates(hash, p.gs, DrawsOf(verdicts[..n]))
  }

  lemma RejectedSnoc(proposals: seq<Match>, verdicts: seq<Verdict>, i: nat)
    requires i < |proposals| == |verdicts|
    ensures RejectedIds(proposals[..i + 1], verdicts[..i + 1]) ==
            RejectedIds(proposals[..i], verdicts[..i]) + if verdicts[i].Accepted? then [] else Ids(proposals[i].rosters)
  {
    assert proposals[..i + 1][..i] == proposals[..i] && verdicts[..i + 1][..i] == verdicts[..i];
  }

  lemma TallySnoc(proposals: seq<Match>, verdicts: seq<Verdict>, i: nat, st: Stats)
    requires i < |proposals| == |verdicts|
    ensures Tally(st, proposals[..i + 1], verdicts[..i + 1]) ==
            CountVerdict(Tally(st, proposals[..i], verdicts[..i]), proposals[i], verdicts[i])
  {
    assert proposals[..i + 1][..i] == proposals[..i] && verdicts[..i + 1][..i] == verdicts[..i];
  }

  lemma EvaluatedStep(hash: ParamsJson -> Hash, proposals: seq<Match>, verdicts: seq<Verdict>, i: nat,
                      p: Progress, mid: Progress, p': Progress)
    requires i < |proposals| == |verdicts| && Evaluated(hash, proposals, verdicts, i, p, mid)
    requires !Crashes(hash, p.gs, verdicts, i)
    requires p'.toActivate == mid.toActivate + if verdicts[i].Accepted? then [] else Ids(proposals[i].rosters)
    requires p'.stats == CountVerdict(mid.stats, proposals[i], verdicts[i])
    requires p'.gs == if verdicts[i].Accepted? then AfterUpdate(hash, mid.gs, verdicts[i].draw) else mid.gs
    ensures Evaluated(hash, proposals, verdicts, i + 1, p, p')
  {
    RejectedSnoc(proposals, verdicts, i);
    TallySnoc(proposals, verdicts, i, p.stats);
    Associate(p.toActivate, RejectedIds(proposals[..i], verdicts[..i]),
              if verdicts[i].Accepted? then [] else Ids(proposals[i].rosters));
    DrawsSnoc(hash, p.gs, verdicts, i);
  }

  lemma PrefixSet(a: seq<TicketId>, b: seq<TicketId>)
    requires a <= b
    ensures SetOf(a) <= SetOf(b)
  {
    assert forall k :: 0 <= k < |a| ==> a[k] == b[k];
  }

  lemma RosterInMatch(rosters: seq<Roster>, r: nat)
    requires r < |rosters|
    ensures SetOf(rosters[r].tickets) <= SetOf(Ids(rosters))
  {
    IdsPrefix(rosters, r + 1);
    IdsNext(rosters, r);
    SetOfConcat(Ids(rosters[..r]), rosters[r].tickets);
    PrefixSet(Ids(rosters[..r + 1]), Ids(rosters));
  }

  lemma {:induction false} IdsPrefix(rosters: seq<Roster>, n: nat)
    requires n <= |rosters|
    ensures Ids(rosters[..n]) <= Ids(rosters)
    decreases |rosters| - n
  {
    if n == |rosters| {
      assert rosters[..n] == rosters;
    } else {
      IdsPrefix(rosters, n + 1);
      assert rosters[..n + 1][..n] == rosters[..n];
    }
  }

  lemma SentStep(rosters: seq<Roster>, r: nat, oks: seq<bool>, ok: bool)
    requires r < |rosters| && |oks| == r
    ensures Ids(SentOnly(rosters[..r + 1], oks + [ok])) ==
            Ids(SentOnly(rosters[..r], oks)) + if ok then rosters[r].tickets else []
  {
    assert rosters[..r + 1][..r] == rosters[..r] && (oks + [ok])[..r] == oks;
    var sent := SentOnly(rosters[..r], oks);
    IdsSnoc(sent, rosters[r]);
    assert sent + [] == sent;
  }

  lemma MatchesSnoc(hash: ParamsJson -> Hash, verdicts: seq<Verdict>, i: nat)
    requires i < |verdicts|
    ensures MatchesOf(hash, verdicts[..i + 1]) ==
            if verdicts[i].Accepted? then MatchesOf(hash, verdicts[..i])[i := Final(hash, verdicts[i].draw)]
            else MatchesOf(hash, verdicts[..i])
  {
  }

  lemma DrawsSnoc(hash: ParamsJson -> Hash, gs: GameServers, verdicts: seq<Verdict>, i: nat)
    requires i < |verdicts|
    ensures AfterUpdates(hash, gs, DrawsOf(verdicts[..i + 1])) ==
            if verdicts[i].Accepted? then AfterUpdate(hash, AfterUpdates(hash, gs, DrawsOf(verdicts[..i])), verdicts[i].draw)
            else AfterUpdates(hash, gs, DrawsOf(verdicts[..i]))
  {
    assert verdicts[..i + 1][..i] == verdicts[..i];
    var before, after := DrawsOf(verdicts[..i]), DrawsOf(verdicts[..i + 1]);
    if verdicts[i].Accepted? {
      assert after == before + [verdicts[i].draw] && after[..|before|] == before;
    } else {
      assert after == before;
    }
  }

  /** The ids in the given buckets. */
  function Released(ttl: map<int, seq<TicketId>>, keys: set<int>): set<TicketId> {
    set k, id | k in keys && k in ttl && id in ttl[k] :: id
  }

  lemma ReleasedStep(ttl: map<int, seq<TicketId>>, keys: set<int>, key: int)
    requires key in ttl
    ensures Released(ttl, keys + {key}) == Released(ttl, keys) + set id | id in ttl[key]
  {
  }

  // ------------------------------------------------------------------------------- deliveries

  /** The results of n sends in a row; `result` says of every send, by its number, whether it succeeds. */
  function Results(result: nat -> bool, first: nat, n: nat): seq<bool> {
    seq(n, r requires 0 <= r < n => result(first + r))
  }

  /** The tickets of the match's rosters whose send succeeds, the first being send number `first`. */
  function SentFor(m: Match, result: nat -> bool, first: nat): seq<TicketId> {
    Ids(SentOnly(m.rosters, Results(result, first, |m.rosters|)))
  }

  datatype Delivery = Delivery(sent: seq<TicketId>, sends: nat)

  /** What is sent when the matches are allocated in the given order: each roster of each match that
      finds a server is sent once, and its tickets count as sent if that succeeds. */
  function Delivered(proposals: seq<Match>, gs: GameServers, matches: map<nat, SpecJson>, order: seq<nat>,
                     result: nat -> bool, first: nat): Delivery
    requires forall i :: i in order ==> i in matches && i < |proposals|
  {
    if order == [] then Delivery([], first)
    else
      var n := |order| - 1;
      assert forall i :: i in order[..n] ==> i in order;
      var before := Delivered(proposals, gs, matches, order[..n], result, first);
      if matches[order[n]] in AfterAllocations(gs, SpecsOf(matches, order[..n]))
      then Delivery(before.sent + SentFor(proposals[order[n]], result, before.sends), before.sends + |proposals[order[n]].rosters|)
      else before
  }

  lemma DeliveredStep(proposals: seq<Match>, gs: GameServers, matches: map<nat, SpecJson>, order: seq<nat>,
                      result: nat -> bool, first: nat, i: nat, d: Delivery)
    requires InRange(order + [i], matches, proposals) && InRange(order, matches, proposals)
    requires d == Delivered(proposals, gs, matches, order, result, first)
    ensures i in matches && i < |proposals|
    ensures Delivered(proposals, gs, matches, order + [i], result, first) ==
            if matches[i] in AfterAllocations(gs, SpecsOf(matches, order))
            then Delivery(d.sent + SentFor(proposals[i], result, d.sends), d.sends + |proposals[i].rosters|)
            else d
  {
    var longer := order + [i];
    assert longer[..|order|] == order && i in longer;
  }

  /** The allocation loop has got from p to p', and in the history from s to s'. */
  ghost predicate AllocationsDone(proposals: seq<Match>, matches: map<nat, SpecJson>, order: seq<nat>, d: Delivery,
                                  result: nat -> bool, first: nat, p: Progress, p': Progress,
                                  s: State, log: seq<Event>, s': State, log': seq<Event>)
  {
    && Allocated(proposals, matches, order, d.sent, p, p')
    && d == Delivered(proposals, p.gs, matches, order, result, first)
    && Sends(s, log, s', log', d.sent)
  }

  lemma OneMoreAllocation(proposals: seq<Match>, matches: map<nat, SpecJson>, order: seq<nat>, d: Delivery,
                          result: nat -> bool, first: nat, p: Progress, mid: Progress, p': Progress,
                          s: State, log: seq<Event>, s1: State, log1: seq<Event>, s2: State, log2: seq<Event>,
                          i: nat, d': Delivery)
    requires AllocationsDone(proposals, matches, order, d, result, first, p, mid, s, log, s1, log1)
    requires i in matches && i < |proposals| && i !in Members(order)
    requires var now := if matches[i] in mid.gs then SentFor(proposals[i], result, d.sends) else [];
             && AllocatesOne(proposals[i], matches[i], now, mid, p') && Sends(s1, log1, s2, log2, now)
             && d' == Delivery(d.sent + now, d.sends + if matches[i] in mid.gs then |proposals[i].rosters| else 0)
    ensures AllocationsDone(proposals, matches, order + [i], d', result, first, p, p', s, log, s2, log2)
    ensures Members(order + [i]) == Members(order) + {i}
  {
    var now := if matches[i] in mid.gs then SentFor(proposals[i], result, d.sends) else [];
    WalkStep(order, i);
    AllocatedStep(proposals, matches, order, d.sent, p, mid, i, now, p');
    SendsMore(s, log, s1, log1, s2, log2, d.sent, now);
    DeliveredNext(proposals, matches, order, result, first, p, mid, i, d, now);
  }

  lemma DeliveredNext(proposals: seq<Match>, matches: map<nat, SpecJson>, order: seq<nat>, result: nat -> bool, first: nat,
                      p: Progress, mid: Progress, i: nat, d: Delivery, now: seq<TicketId>)
    requires Walked(proposals, matches, order, p, mid) && InRange(order + [i], matches, proposals)
    requires d == Delivered(proposals, p.gs, matches, order, result, first) && i in matches && i < |proposals|
    requires now == if matches[i] in mid.gs then SentFor(proposals[i], result, d.sends) else []
    ensures Delivery(d.sent + now, d.sends + if matches[i] in mid.gs then |proposals[i].rosters| else 0) ==
            Delivered(proposals, p.gs, matches, order + [i], result, first)
  {
    DeliveredStep(proposals, p.gs, matches, order, result, first, i, d);
    assert d.sent + [] == d.sent;
  }

  lemma ResultsSnoc(result: nat -> bool, first: nat, n: nat)
    ensures Results(result, first, n + 1) == Results(result, first, n) + [result(first + n)]
  {
  }

  /** One cycle that does not crash leads from p, by way of mid, to p'. */
  ghost predicate CycleOutcome(hash: ParamsJson -> Hash, proposals: seq<Match>, verdicts: seq<Verdict>, order: seq<nat>,
                               sent: seq<TicketId>, p: Progress, mid: Progress, p': Progress)
    requires |verdicts| == |proposals|
  {
    && Evaluated(hash, proposals, verdicts, |proposals|, p, mid)
    && Members(order) == MatchesOf(hash, verdicts).Keys
    && Allocated(proposals, MatchesOf(hash, verdicts), order, sent, mid, p')
  }

  lemma AcceptedIsNew(proposals: seq<Match>, rolls: seq<nat>, pending: map<Hash, MmfRequest>, ids: set<TicketId>, i: nat)
    requires i < |proposals| == |rolls| && Judged(proposals, rolls, pending, ids)[i].Accepted?
    ensures SetOf(Ids(proposals[i].rosters)) !! ids
  {
    forall id | id in Ids(proposals[i].rosters) ensures id !in ids {
      AcceptedHasNoAssignedTicket(proposals[i], rolls[i], pending, ids, id);
    }
  }

  /** When the proposals share no ticket, no ticket is sent twice. */
  lemma SentOnce(hash: ParamsJson -> Hash, proposals: seq<Match>, verdicts: seq<Verdict>, order: seq<nat>,
                 sent: seq<TicketId>, p: Progress, mid: Progress, p': Progress)
    requires |verdicts| == |proposals| && CycleOutcome(hash, proposals, verdicts, order, sent, p, mid, p')
    requires DistinctTickets(proposals)
    ensures NoRepeats(sent)
  {
    TicketsOfAny(proposals, ServedBy(mid.gs, MatchesOf(hash, verdicts), order));
    NoRepeatsIffOnce(sent);
  }

  /** The loops of one cycle lead from p to p': to the crash at proposal number `judged`, or all the way. */
  ghost predicate Handled(hash: ParamsJson -> Hash, proposals: seq<Match>, verdicts: seq<Verdict>, judged: nat, order: seq<nat>,
                          sent: seq<TicketId>, p: Progress, mid: Progress, p': Progress)
    requires judged <= |proposals| == |verdicts|
  {
    if judged < |proposals|
    then Evaluated(hash, proposals, verdicts, judged, p, p') && Crashes(hash, p.gs, verdicts, judged) && sent == []
    else CycleOutcome(hash, proposals, verdicts, order, sent, p, mid, p')
  }
}
