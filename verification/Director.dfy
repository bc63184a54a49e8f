/** The director's matchmaking loop (v2/internal/gsdirector/gsdirector.go): each cycle takes in the
    pending requests, judges the proposals, allocates servers, sends and tracks assignments, and
    forgets assignments whose time to live is over. */
module Director {
  import opened AgonesRegistry
  import opened RegistryTheorems
  import opened AssignmentTracking
  import opened DirectorModel
  import DirectorTheorems
  import opened Options

  datatype Cycle = Cycle(proposals: seq<Match>, rolls: seq<nat>)

  class MockDirector {
    const gsManager: MockAgonesIntegration
    const ttl: int
    const sendResult: nat -> bool  // whether a call of Send, with its retries, succeeds in the end
    var sends: nat                 // how many calls of Send there were
    var pending: map<Hash, MmfRequest>
    var assignments: set<TicketId>
    var assignmentTTL: map<int, seq<TicketId>>
    var reclaimAt: int
    var clock: int               // the last reading of the clock
    var toActivate: seq<TicketId>  // everything sent to the activation channel
    var stats: Stats
    ghost var log: seq<Event>
    ghost const start: int

    /** The tracking maps are what the logged history leaves behind, and the history is a valid one. */
    ghost predicate Valid()
      reads this, gsManager
    {
      && WellFormed(gsManager.gameServers)
      && ValidLog(log, ttl, start)
      && Tracker(assignments, assignmentTTL) == Tracking().tr
      && Tracking().clock <= clock
    }

    ghost function Tracking(): State
      reads this
    {
      Replay(log, ttl, start)
    }

    constructor (gsManager: MockAgonesIntegration, ttl: int, sendResult: nat -> bool, now: int)
      requires WellFormed(gsManager.gameServers)
      ensures Valid() && this.gsManager == gsManager && this.ttl == ttl && start == now
      ensures log == [] && pending == map[] && toActivate == [] && sends == 0 && this.sendResult == sendResult
    {
      this.gsManager, this.ttl, this.sendResult, start, clock, sends := gsManager, ttl, sendResult, now, now, 0;
      pending, assignments, assignmentTTL := map[], {}, map[];
      reclaimAt := now + ttl;
      toActivate, stats, log := [], NO_STATS, [];
    }

    /** time.Now(): never goes back. */
    method Now() returns (now: int)
      modifies `clock
      ensures now == clock >= old(clock)
    {
      var elapsed: int :| 0 <= elapsed;
      clock := clock + elapsed;
      now := clock;
    }

    ghost method Log(e: Event)
      requires ValidLog(log, ttl, start) && Enabled(Tracking(), e, ttl)
      modifies `log
      ensures log == old(log) + [e] && ValidLog(log, ttl, start)
      ensures Tracking() == Next(old(Tracking()), e, ttl)
    {
      ValidSnoc(log, e, ttl, start);
      log := log + [e];
    }

    // ------------------------------------------------------------------------------ judging

    method RejectMatch(m: Match) returns (numTickets: nat)
      modifies `toActivate, `stats
      ensures toActivate == old(toActivate) + Ids(m.rosters)
      ensures stats == CountReject(old(stats), |Ids(m.rosters)|)
      ensures numTickets == |Ids(m.rosters)|
    {
      numTickets := 0;
      stats := stats.(rejectedMatches := stats.rejectedMatches + 1);
      for r := 0 to |m.rosters|
        invariant toActivate == old(toActivate) + Ids(m.rosters[..r])
        invariant numTickets == |Ids(m.rosters[..r])|
        invariant stats == CountReject(old(stats), |Ids(m.rosters[..r])|)
      {
        var tickets := m.rosters[r].tickets;
        for t := 0 to |tickets|
          invariant toActivate == old(toActivate) + (Ids(m.rosters[..r]) + tickets[..t])
          invariant stats == CountReject(old(stats), |Ids(m.rosters[..r])|)
        {
          toActivate := toActivate + [tickets[t]];
        }
        assert tickets[..|tickets|] == tickets;
        assert m.rosters[..r + 1][..r] == m.rosters[..r];
        numTickets := numTickets + |tickets|;
        stats := stats.(idsToActivate := stats.idsToActivate + |tickets|);
        stats := stats.(ticketsRejected := stats.ticketsRejected + |tickets|);
      }
      assert m.rosters[..|m.rosters|] == m.rosters;
    }

    method CountAssigned(m: Match) returns (numAssigned: nat)
      ensures numAssigned == NumAssigned(Ids(m.rosters), assignments)
    {
      numAssigned := 0;
      for r := 0 to |m.rosters|
        invariant numAssigned == NumAssigned(Ids(m.rosters[..r]), assignments)
      {
        var tickets := m.rosters[r].tickets;
        ghost var before := Ids(m.rosters[..r]);
        assert before + [] == before;
        for t := 0 to |tickets|
          invariant numAssigned == NumAssigned(before + tickets[..t], assignments)
        {
          NumAssignedNext(before, tickets, t, assignments);
          if tickets[t] in assignments {
            numAssigned := numAssigned + 1;
          }
        }
        assert tickets[..|tickets|] == tickets;
        IdsNext(m.rosters, r);
      }
      assert m.rosters[..|m.rosters|] == m.rosters;
    }

    /** One turn of the proposals loop, up to the update of the registry. */
    method JudgeOne(m: Match, roll: nat) returns (verdict: Verdict)
      modifies `toActivate, `stats
      ensures verdict == Judge(m, roll, pending, assignments)
      ensures toActivate == old(toActivate) + if verdict.Accepted? then [] else Ids(m.rosters)
      ensures stats == if verdict.Accepted? then old(stats) else CountVerdict(old(stats), m, verdict)
    {
      if roll <= 1 || m.hash.None? || m.hash.value !in pending {
        var _ := RejectMatch(m);
        return Rejected;
      }
      var allocator := AllocatorOf(pending[m.hash.value]);
      if allocator.None? {
        var _ := RejectMatch(m);
        return Rejected;
      }
      var numAssigned := CountAssigned(m);
      if numAssigned > 0 {
        var numRejected := RejectMatch(m);
        stats := stats.(matchesWithAssigned := stats.matchesWithAssigned + 1,
                        rejectedWithAssigned := stats.rejectedWithAssigned + numRejected,
                        assignedRejected := stats.assignedRejected + numAssigned);
        return AlreadyAssigned(numAssigned);
      }
      verdict := Accepted(Draw(allocator.value, if m.next.Some? && m.next.value.profile != "" then m.next else None));
    }

    /** Hand an accepted match's next request to the game server manager, unless the update would
        dereference nil. */
    method AcceptOne(draw: Draw) returns (spec: SpecJson, crashed: bool)
      requires WellFormed(gsManager.gameServers)
      modifies `stats, gsManager`gameServers
      ensures WellFormed(gsManager.gameServers)
      ensures crashed <==> draw.next.Some? && draw.from !in old(gsManager.gameServers)
      ensures crashed ==> stats == old(stats) && gsManager.gameServers == old(gsManager.gameServers)
      ensures !crashed ==>
                && spec == Final(gsManager.hash, draw)
                && stats == (if draw.next.Some? then old(stats).(newRequests := old(stats).newRequests + 1) else old(stats))
                && gsManager.gameServers == AfterUpdate(gsManager.hash, old(gsManager.gameServers), draw)
    {
      spec, crashed := draw.from, false;
      if draw.next.Some? {
        if spec !in gsManager.gameServers {
          return spec, true;
        }
        spec := gsManager.UpdateMMFRequest(spec, draw.next.value);
        stats := stats.(newRequests := stats.newRequests + 1);
      }
    }

    /** The proposals loop.  It stops at the nil dereference of a next request for a spec that is gone. */
    method EvaluateProposals(proposals: seq<Match>, rolls: seq<nat>)
      returns (matches: map<nat, SpecJson>, crashed: bool, ghost judged: nat)
      requires |rolls| == |proposals| && WellFormed(gsManager.gameServers)
      modifies `toActivate, `stats, gsManager`gameServers
      ensures WellFormed(gsManager.gameServers)
      ensures judged <= |proposals| && (crashed <==> judged < |proposals|)
      ensures var verdicts := Judged(proposals, rolls, pending, assignments);
              && matches == MatchesOf(gsManager.hash, verdicts[..judged])
              && Evaluated(gsManager.hash, proposals, verdicts, judged, old(SoFar()), SoFar())
              && (crashed ==> Crashes(gsManager.hash, old(gsManager.gameServers), verdicts, judged))
    {
      ghost var verdicts := Judged(proposals, rolls, pending, assignments);
      ghost var start := SoFar();
      matches, crashed := map[], false;
      assert matches == MatchesOf(gsManager.hash, verdicts[..0]);
      for i := 0 to |proposals|
        invariant WellFormed(gsManager.gameServers)
        invariant matches == MatchesOf(gsManager.hash, verdicts[..i])
        invariant Evaluated(gsManager.hash, proposals, verdicts, i, start, SoFar())
      {
        ghost var before := SoFar();
        var verdict := JudgeOne(proposals[i], rolls[i]);
        assert verdict == verdicts[i];
        MatchesSnoc(gsManager.hash, verdicts, i);
        if verdict.Accepted? {
          var spec, gone := AcceptOne(verdict.draw);
          if gone {
            return matches, true, i;
          }
          matches := matches[i := spec];
        }
        EvaluatedStep(gsManager.hash, proposals, verdicts, i, start, before, SoFar());
      }
      judged := |proposals|;
    }

    // --------------------------------------------------------------- allocating and tracking

    /** AssignmentPublisher.Send with its retries: takes a while and may fail. */
    method Send(roster: Roster) returns (ok: bool)
      modifies `clock, `sends
      ensures clock >= old(clock) && ok == sendResult(old(sends)) && sends == old(sends) + 1
    {
      var _ := Now();
      ok := sendResult(sends);
      sends := sends + 1;
    }

    method TrackTicket(id: TicketId, ghost sentAt: int) returns (ghost reading: int)
      requires Valid() && Tracking().clock <= sentAt <= clock
      requires id !in Tracking().old_
      modifies `clock, `assignments, `assignmentTTL, `log
      ensures Valid() && reading == clock >= old(clock) && Tracking().clock == old(Tracking().clock)
      ensures Tracker(assignments, assignmentTTL) == Track(old(Tracker(assignments, assignmentTTL)), id, reading + ttl)
      ensures Sends(old(Tracking()), old(log), Tracking(), log, [id])
    {
      var now := Now();
      reading := now;
      Index(id, now + ttl);
      ghost var e := Tracked(id, sentAt, now + ttl);
      assert Enabled(Tracking(), e, ttl);
      SendsOne(Tracking(), log, id, sentAt, now + ttl, ttl);
      Log(e);
    }

    method Index(id: TicketId, stamp: int)
      modifies `assignments, `assignmentTTL
      ensures Tracker(assignments, assignmentTTL) == Track(old(Tracker(assignments, assignmentTTL)), id, stamp)
    {
      assignments := assignments + {id};
      if stamp in assignmentTTL {
        assignmentTTL := assignmentTTL[stamp := []];
      }
      assignmentTTL := assignmentTTL[stamp := (if stamp in assignmentTTL then assignmentTTL[stamp] else []) + [id]];
      assert [] + [id] == [id];
    }

    /** Since the given state, exactly these tickets were tracked, each at its reading of the clock. */
    ghost predicate RosterTracked(tickets: seq<TicketId>, readings: seq<int>, begun: int, s: State, l: seq<Event>, tr: Tracker)
      reads this
    {
      && |readings| == |tickets| && (forall k :: 0 <= k < |readings| ==> begun <= readings[k] <= clock)
      && Tracker(assignments, assignmentTTL) == TrackAll(tr, tickets, readings, ttl)
      && Sends(s, l, Tracking(), log, tickets) && Tracking().clock == s.clock
    }

    /** Each ticket is tracked at a reading of the clock of its own, which may be that of the one before. */
    method TrackRoster(tickets: seq<TicketId>, ghost sentAt: int) returns (ghost readings: seq<int>)
      requires Valid() && Tracking().clock <= sentAt <= clock
      requires SetOf(tickets) !! Tracking().old_
      modifies `clock, `assignments, `assignmentTTL, `log
      ensures Valid() && clock >= old(clock)
      ensures RosterTracked(tickets, readings, old(clock), old(Tracking()), old(log), old(Tracker(assignments, assignmentTTL)))
    {
      ghost var s, l, tr, begun := Tracking(), log, Tracker(assignments, assignmentTTL), clock;
      SendsNothing(s, l);
      assert tickets[..0] == [];
      readings := [];
      for t := 0 to |tickets|
        invariant Valid() && clock >= begun && RosterTracked(tickets[..t], readings, begun, s, l, tr)
      {
        assert tickets[t] in SetOf(tickets);
        readings := TrackNext(tickets, t, sentAt, readings, begun, s, l, tr);
      }
      assert tickets[..|tickets|] == tickets;
    }

    method TrackNext(tickets: seq<TicketId>, t: nat, ghost sentAt: int, ghost readings: seq<int>, ghost begun: int,
                     ghost s: State, ghost l: seq<Event>, ghost tr: Tracker)
      returns (ghost readings': seq<int>)
      requires Valid() && t < |tickets| && tickets[t] !in Tracking().old_ && s.clock <= sentAt <= clock && begun <= clock
      requires RosterTracked(tickets[..t], readings, begun, s, l, tr)
      modifies `clock, `assignments, `assignmentTTL, `log
      ensures Valid() && clock >= old(clock) && RosterTracked(tickets[..t + 1], readings', begun, s, l, tr)
    {
      ghost var s1, l1 := Tracking(), log;
      ghost var reading := TrackTicket(tickets[t], sentAt);
      SendsMore(s, l, s1, l1, Tracking(), log, tickets[..t], [tickets[t]]);
      TrackAllSnoc(tr, tickets[..t], readings, ttl, tickets[t], reading);
      assert tickets[..t + 1] == tickets[..t] + [tickets[t]];
      readings' := readings + [reading];
    }

    method AssignRoster(roster: Roster)
      requires Valid() && SetOf(roster.tickets) !! Tracking().old_
      modifies `clock, `sends, `assignments, `assignmentTTL, `log, `stats
      ensures Valid() && clock >= old(clock) && sends == old(sends) + 1
      ensures var now := if sendResult(old(sends)) then roster.tickets else [];
              && Sends(old(Tracking()), old(log), Tracking(), log, now)
              && stats == CountSent(old(stats), |now|)
    {
      SendsNothing(Tracking(), log);
      var ok := Send(roster);
      if ok {
        stats := stats.(ticketAssignments := stats.ticketAssignments + |roster.tickets|);
        ghost var readings := TrackRoster(roster.tickets, clock);
      }
    }

    /** Sends the assignment to each roster; the tickets of those whose send succeeds are tracked. */
    method AssignMatch(m: Match)
      requires Valid() && SetOf(Ids(m.rosters)) !! Tracking().old_
      modifies `clock, `sends, `assignments, `assignmentTTL, `log, `stats
      ensures Valid() && clock >= old(clock) && sends == old(sends) + |m.rosters|
      ensures Assigned(m.rosters, old(sends), old(Tracking()), old(log), old(stats))
    {
      SendsNothing(Tracking(), log);
      for r := 0 to |m.rosters|
        invariant Valid() && clock >= old(clock) && sends == old(sends) + r
        invariant Assigned(m.rosters[..r], old(sends), old(Tracking()), old(log), old(stats))
      {
        RosterInMatch(m.rosters, r);
        AssignNext(m.rosters, r, old(sends), old(Tracking()), old(log), old(stats));
      }
      assert m.rosters[..|m.rosters|] == m.rosters;
    }

    /** Since the given state, exactly the rosters whose send succeeds were sent, tracked and counted. */
    ghost predicate Assigned(rosters: seq<Roster>, first: nat, s: State, l: seq<Event>, st: Stats)
      reads this
    {
      var sent := Ids(SentOnly(rosters, Results(sendResult, first, |rosters|)));
      Sends(s, l, Tracking(), log, sent) && stats == CountSent(st, |sent|)
    }

    method AssignNext(rosters: seq<Roster>, r: nat, ghost first: nat, ghost s: State, ghost l: seq<Event>, ghost st: Stats)
      requires r < |rosters| && Valid() && SetOf(rosters[r].tickets) !! Tracking().old_
      requires Assigned(rosters[..r], first, s, l, st) && sends == first + r
      modifies `clock, `sends, `assignments, `assignmentTTL, `log, `stats
      ensures Valid() && clock >= old(clock) && sends == first + r + 1
      ensures Assigned(rosters[..r + 1], first, s, l, st) && Tracking().old_ == old(Tracking().old_)
    {
      ghost var s1, l1, oks := Tracking(), log, Results(sendResult, first, r);
      ghost var ok := sendResult(sends);
      AssignRoster(rosters[r]);
      SentStep(rosters, r, oks, ok);
      ResultsSnoc(sendResult, first, r);
      SendsMore(s, l, s1, l1, Tracking(), log, Ids(SentOnly(rosters[..r], oks)), if ok then rosters[r].tickets else []);
    }

    /** Allocates a server for one accepted match, and assigns its rosters or gives its tickets back. */
    method AllocateOne(m: Match, spec: SpecJson)
      requires Valid() && SetOf(Ids(m.rosters)) !! Tracking().old_
      modifies `clock, `sends, `assignments, `assignmentTTL, `log, `stats, `toActivate, gsManager`gameServers
      ensures Valid() && clock >= old(clock)
      ensures sends == old(sends) + if spec in old(gsManager.gameServers) then |m.rosters| else 0
      ensures var now := if spec in old(gsManager.gameServers) then SentFor(m, sendResult, old(sends)) else [];
              && AllocatesOne(m, spec, now, old(SoFar()), SoFar())
              && Sends(old(Tracking()), old(log), Tracking(), log, now)
    {
      SendsNothing(Tracking(), log);
      var connString := gsManager.Allocate(spec);
      if connString == "" {
        var _ := RejectMatch(m);
      } else {
        SentTickets(m.rosters, Results(sendResult, sends, |m.rosters|));
        AssignMatch(m);
      }
    }

    /** The tickets of the matches to be allocated were not assigned when the cycle began. */
    ghost predicate NewMatches(proposals: seq<Match>, which: set<nat>)
      reads this
    {
      forall i :: i in which ==> i < |proposals| && SetOf(Ids(proposals[i].rosters)) !! Tracking().old_
    }

    /** The allocation loop, over the accepted matches in whatever order the map is walked. */
    method AllocateMatches(proposals: seq<Match>, matches: map<nat, SpecJson>)
      returns (ghost order: seq<nat>, ghost sent: seq<TicketId>)
      requires Valid() && NewMatches(proposals, matches.Keys)
      modifies `clock, `sends, `assignments, `assignmentTTL, `log, `stats, `toActivate, gsManager`gameServers
      ensures Valid() && clock >= old(clock)
      ensures Members(order) == matches.Keys
      ensures AllocationsDone(proposals, matches, order, Delivery(sent, sends), sendResult, old(sends), old(SoFar()), SoFar(),
                              old(Tracking()), old(log), Tracking(), log)
    {
      order, sent := [], [];
      var todo := matches.Keys;
      ghost var s, l, p, first := Tracking(), log, SoFar(), sends;
      SendsNothing(s, l);
      AllocatedNone(proposals, matches, p);
      while todo != {}
        invariant Valid() && clock >= old(clock)
        invariant todo <= matches.Keys && Members(order) == matches.Keys - todo
        invariant AllocationsDone(proposals, matches, order, Delivery(sent, sends), sendResult, first, p, SoFar(),
                                  s, l, Tracking(), log)
        decreases todo
      {
        var i :| i in todo;
        todo := todo - {i};
        order, sent := AllocateNext(proposals, matches, i, order, sent, s, l, p, first);
      }
    }

    method AllocateNext(proposals: seq<Match>, matches: map<nat, SpecJson>, i: nat, ghost order: seq<nat>,
                        ghost sent: seq<TicketId>, ghost s: State, ghost l: seq<Event>, ghost p: Progress, ghost first: nat)
      returns (ghost order': seq<nat>, ghost sent': seq<TicketId>)
      requires Valid() && NewMatches(proposals, {i}) && i in matches && i !in Members(order)
      requires AllocationsDone(proposals, matches, order, Delivery(sent, sends), sendResult, first, p, SoFar(), s, l, Tracking(), log)
      modifies `clock, `sends, `assignments, `assignmentTTL, `log, `stats, `toActivate, gsManager`gameServers
      ensures Valid() && clock >= old(clock)
      ensures Members(order') == Members(order) + {i}
      ensures AllocationsDone(proposals, matches, order', Delivery(sent', sends), sendResult, first, p, SoFar(), s, l, Tracking(), log)
    {
      assert i in {i};
      ghost var mid, s1, l1, d := SoFar(), Tracking(), log, Delivery(sent, sends);
      ghost var now := if matches[i] in mid.gs then SentFor(proposals[i], sendResult, sends) else [];
      AllocateOne(proposals[i], matches[i]);
      order', sent' := order + [i], sent + now;
      OneMoreAllocation(proposals, matches, order, d, sendResult, first, p, mid, SoFar(), s, l, s1, l1, Tracking(), log, i,
                        Delivery(sent', sends));
    }

    // ------------------------------------------------------------------------- forgetting

    /** Forgets one bucket whose stamp is before `now`. */
    method ExpireBucket(key: int, now: int)
      requires Valid() && key in assignmentTTL && key < now && Tracking().clock <= now <= clock
      modifies `assignments, `assignmentTTL, `log
      ensures Valid() && LogIds(log) == LogIds(old(log)) && Tracking().repeated == old(Tracking().repeated)
      ensures Tracker(assignments, assignmentTTL) == Expire(old(Tracker(assignments, assignmentTTL)), key)
    {
      var value := assignmentTTL[key];
      ghost var e := Expired(key, now);
      assert (log + [e])[..|log|] == log;
      assert Enabled(Tracking(), e, ttl);
      for t := 0 to |value|
        invariant log == old(log) && assignmentTTL == old(assignmentTTL)
        invariant assignments == old(assignments) - set id | id in value[..t]
      {
        assignments := assignments - {value[t]};
      }
      assert value[..|value|] == value;
      assignmentTTL := assignmentTTL - {key};
      Log(e);
    }

    /** The expiry pass: afterwards no bucket is older than the time the pass began, and the ids of
        the buckets dropped, all overdue, are no longer assigned. */
    method ExpireAssignments() returns (ghost expired: set<int>)
      requires Valid()
      modifies `clock, `assignments, `assignmentTTL, `log
      ensures Valid() && clock >= old(clock)
      ensures LogIds(log) == LogIds(old(log)) && Tracking().repeated == old(Tracking().repeated)
      ensures forall key :: key in assignmentTTL ==> key >= old(clock)
      ensures forall key :: key in expired ==> key in old(assignmentTTL) && key < clock
      ensures assignmentTTL == old(assignmentTTL) - expired
      ensures assignments == old(assignments) - Released(old(assignmentTTL), expired)
    {
      expired := {};
      var todo := assignmentTTL.Keys;
      while todo != {}
        invariant Valid() && clock >= old(clock)
        invariant LogIds(log) == LogIds(old(log)) && Tracking().repeated == old(Tracking().repeated)
        invariant todo <= old(assignmentTTL).Keys && todo !! expired
        invariant forall key :: key in assignmentTTL && key !in todo ==> key >= old(clock)
        invariant forall key :: key in expired ==> key in old(assignmentTTL) && key < clock
        invariant assignmentTTL == old(assignmentTTL) - expired
        invariant assignments == old(assignments) - Released(old(assignmentTTL), expired)
        decreases todo
      {
        SomeKey(todo);
        var key :| key in todo;
        todo := todo - {key};
        var now := Now();
        if now > key {
          ReleasedStep(old(assignmentTTL), expired, key);
          ExpireBucket(key, now);
          expired := expired + {key};
        }
      }
    }

    /** The periodic deep copy of the tracking maps changes neither of them. */
    method ReclaimMemory()
      modifies `assignments, `assignmentTTL
      ensures assignments == old(assignments) && assignmentTTL == old(assignmentTTL)
    {
      var n: set<TicketId> := {};
      while assignments != {}
        invariant n + assignments == old(assignments) && assignmentTTL == old(assignmentTTL)
        decreases assignments
      {
        var id :| id in assignments;
        n := n + {id};
        assignments := assignments - {id};
      }
      assignments := n;
      var nt: map<int, seq<TicketId>> := map[];
      while assignmentTTL != map[]
        invariant nt + assignmentTTL == old(assignmentTTL) && assignments == old(assignments)
        invariant nt.Keys !! assignmentTTL.Keys
        decreases assignmentTTL.Keys
      {
        SomeKey(assignmentTTL.Keys);
        var key :| key in assignmentTTL.Keys;
        nt := nt[key := assignmentTTL[key]];
        assignmentTTL := assignmentTTL - {key};
      }
      assignmentTTL := nt;
    }

    // ------------------------------------------------------------------------------- cycles

    method RegisterRequests(requests: seq<MmfRequest>)
      modifies `pending
      ensures pending == Register(old(pending), requests)
    {
      for i := 0 to |requests|
        invariant pending == Register(old(pending), requests[..i])
      {
        assert requests[..i + 1][..i] == requests[..i];
        var mmfReqHash := LabelOf(requests[i]);
        if mmfReqHash.Some? {
          pending := pending[mmfReqHash.value := requests[i]];
        }
      }
      assert requests[..|requests|] == requests;
    }

    ghost method MarkCycle()
      requires Valid()
      modifies `log
      ensures Valid() && LogIds(log) == LogIds(old(log)) && Tracking().repeated == old(Tracking().repeated)
      ensures Tracking().old_ == assignments && Tracking().fresh_ == {}
    {
      assert (log + [CycleStarts])[..|log|] == log;
      Log(CycleStarts);
    }

    /** Starts a cycle: counters to zero and requests taken in. */
    method BeginCycle() returns (ghost specs: seq<SpecJson>)
      requires WellFormed(gsManager.gameServers)
      modifies `stats, `pending, gsManager`gameServers
      ensures WellFormed(gsManager.gameServers)
      ensures SoFar() == Progress(AfterEmitting(old(gsManager.gameServers)), old(toActivate), NO_STATS)
      ensures IsCountOrder(old(gsManager.gameServers), specs)
      ensures pending == Register(old(pending), EmittedAll(old(gsManager.gameServers), specs))
    {
      stats := NO_STATS;
      StoringKeepsCounts(gsManager.gameServers);
      var requests;
      requests, specs := gsManager.GetMMFParams();
      RegisterRequests(requests);
    }

    /** The start of a cycle: what is assigned now is what its matches must not contain. */
    method StartCycle() returns (ghost specs: seq<SpecJson>)
      requires Valid()
      modifies `clock, `log, `stats, `pending, gsManager`gameServers
      ensures Valid() && clock >= old(clock) && LogIds(log) == LogIds(old(log))
      ensures Tracking().old_ == assignments && Tracking().fresh_ == {} && Tracking().repeated == old(Tracking().repeated)
      ensures SoFar() == Progress(AfterEmitting(old(gsManager.gameServers)), old(toActivate), NO_STATS)
      ensures IsCountOrder(old(gsManager.gameServers), specs)
      ensures pending == Register(old(pending), EmittedAll(old(gsManager.gameServers), specs))
    {
      var _ := Now();
      MarkCycle();
      specs := BeginCycle();
    }

    /** The two loops over the proposals and the accepted matches. */
    method HandleProposals(proposals: seq<Match>, rolls: seq<nat>, ghost p: Progress)
      returns (crashed: bool, ghost verdicts: seq<Verdict>, ghost order: seq<nat>, ghost sent: seq<TicketId>,
               ghost mid: Progress, ghost judged: nat)
      requires Valid() && |rolls| == |proposals| && p == SoFar()
      requires Tracking().old_ == assignments && Tracking().fresh_ == {}
      modifies `clock, `sends, `assignments, `assignmentTTL, `log, `stats, `toActivate, gsManager`gameServers
      ensures Valid() && clock >= old(clock)
      ensures verdicts == Judged(proposals, rolls, pending, old(assignments))
      ensures judged <= |proposals| && (crashed <==> judged < |proposals|)
      ensures Handled(gsManager.hash, proposals, verdicts, judged, order, sent, p, mid, SoFar())
      ensures LogIds(log) == LogIds(old(log)) + sent
      ensures Tracking().repeated <==> old(Tracking().repeated) || !NoRepeats(sent)
      ensures !crashed ==>
                Delivery(sent, sends) ==
                Delivered(proposals, mid.gs, MatchesOf(gsManager.hash, verdicts), order, sendResult, old(sends))
    {
      verdicts, order, sent := Judged(proposals, rolls, pending, assignments), [], [];
      var matches;
      matches, crashed, judged := EvaluateProposals(proposals, rolls);
      mid := SoFar();
      if crashed {
        assert LogIds(log) + [] == LogIds(log);
        return;
      }
      assert verdicts[..judged] == verdicts;
      forall i | i in matches.Keys ensures i < |proposals| && SetOf(Ids(proposals[i].rosters)) !! Tracking().old_ {
        AcceptedIsNew(proposals, rolls, pending, assignments, i);
      }
      order, sent := AllocateMatches(proposals, matches);
    }

    /** As long as no cycle sent a ticket twice, the assigned tickets are exactly the indexed ones iff no expiry
        stamp was ever used while it was in use. */
    ghost predicate Indexes()
      reads this
    {
      !Tracking().repeated ==> (Agreement(Tracker(assignments, assignmentTTL)) <==> !StampsCollided(log, ttl, start))
    }

    lemma MapsAgree()
      requires Valid()
      ensures Indexes()
    {
      if !Tracking().repeated {
        IndexAgreesIffStampsNeverCollided(log, ttl, start);
      }
    }

    method EndCycle()
      requires Valid()
      modifies `clock, `assignments, `assignmentTTL, `log, `reclaimAt
      ensures Valid() && clock >= old(clock)
      ensures LogIds(log) == LogIds(old(log)) && Tracking().repeated == old(Tracking().repeated)
      ensures forall key :: key in assignmentTTL ==> key >= old(clock)
      ensures Indexes()
    {
      ghost var expired := ExpireAssignments();
      var now := Now();
      if now > reclaimAt {
        ReclaimMemory();
        var next := Now();
        reclaimAt := next + ttl;
      }
      MapsAgree();
    }

    /** What follows once a cycle has started with the registry `gs`: the two loops and, unless the program has
        crashed, the end of the cycle. */
    method FinishCycle(proposals: seq<Match>, rolls: seq<nat>, ghost gs: GameServers, ghost p: Progress)
      returns (crashed: bool, ghost verdicts: seq<Verdict>, ghost order: seq<nat>, ghost sent: seq<TicketId>,
               ghost mid: Progress, ghost judged: nat)
      requires Valid() && |rolls| == |proposals| && p == SoFar()
      requires Tracking().old_ == assignments && Tracking().fresh_ == {}
      requires WellFormed(gs) && p.gs == AfterEmitting(gs)
      modifies `clock, `sends, `assignments, `assignmentTTL, `log, `stats, `toActivate, `reclaimAt, gsManager`gameServers
      ensures Valid() && clock >= old(clock)
      ensures verdicts == Judged(proposals, rolls, pending, old(assignments))
      ensures judged <= |proposals| && (crashed <==> judged < |proposals|)
      ensures Handled(gsManager.hash, proposals, verdicts, judged, order, sent, p, mid, SoFar())
      ensures LogIds(log) == LogIds(old(log)) + sent
      ensures Tracking().repeated <==> old(Tracking().repeated) || !NoRepeats(sent)
      ensures !crashed ==>
                Delivery(sent, sends) ==
                Delivered(proposals, mid.gs, MatchesOf(gsManager.hash, verdicts), order, sendResult, old(sends))
      ensures !crashed ==> Indexes() && forall key :: key in assignmentTTL ==> key >= old(clock)
      ensures !crashed ==> forall key :: Count(gsManager.gameServers, key) == Remaining(gs, DrawsOf(verdicts), key)
    {
      crashed, verdicts, order, sent, mid, judged := HandleProposals(proposals, rolls, p);
      if !crashed {
        DirectorTheorems.CycleTakesServers(gsManager.hash, gs, proposals, verdicts, order, sent, p, mid, SoFar());
        EndCycle();
      }
    }

    /** One turn of the main loop.  `crashed` is the nil dereference that ends the program; then `judged`
        is the proposal at which it happens. */
    method RunCycle(proposals: seq<Match>, rolls: seq<nat>)
      returns (crashed: bool, ghost verdicts: seq<Verdict>, ghost order: seq<nat>, ghost sent: seq<TicketId>,
               ghost p: Progress, ghost mid: Progress, ghost judged: nat, ghost specs: seq<SpecJson>)
      requires Valid() && |rolls| == |proposals|
      modifies this, gsManager`gameServers
      ensures Valid() && clock >= old(clock)
      ensures IsCountOrder(old(gsManager.gameServers), specs)
      ensures pending == Register(old(pending), EmittedAll(old(gsManager.gameServers), specs))
      ensures verdicts == Judged(proposals, rolls, pending, old(assignments))
      ensures judged <= |proposals| && (crashed <==> judged < |proposals|)
      ensures p == Progress(AfterEmitting(old(gsManager.gameServers)), old(toActivate), NO_STATS)
      ensures Handled(gsManager.hash, proposals, verdicts, judged, order, sent, p, mid, SoFar())
      ensures LogIds(log) == LogIds(old(log)) + sent
      ensures Tracking().repeated <==> old(Tracking().repeated) || !NoRepeats(sent)
      ensures !crashed ==>
                Delivery(sent, sends) ==
                Delivered(proposals, mid.gs, MatchesOf(gsManager.hash, verdicts), order, sendResult, old(sends))
      ensures !crashed ==> Indexes() && forall key :: key in assignmentTTL ==> key >= old(clock)
      ensures !crashed ==>
                forall key :: Count(gsManager.gameServers, key) ==
                              Remaining(old(gsManager.gameServers), DrawsOf(verdicts), key)
    {
      ghost var gs := gsManager.gameServers;
      specs := StartCycle();
      p := SoFar();
      crashed, verdicts, order, sent, mid, judged := FinishCycle(proposals, rolls, gs, p);
    }

    /** The main loop.  However the rolls, the sends and the clock turn out: if the proposals of each cycle
        share no ticket, no cycle sends a ticket twice; and then any two successful sends of one ticket are
        more than the time to live apart.  A run that does not crash never adds a server to a spec, so that
        no backfill request ever becomes a source of matches. */
    method Run(cycles: seq<Cycle>) returns (crashed: bool)
      requires Valid()
      requires forall c :: c in cycles ==> |c.rolls| == |c.proposals|
      modifies this, gsManager`gameServers
      ensures Valid()
      ensures !old(Tracking().repeated) && (forall c :: c in cycles ==> DistinctTickets(c.proposals)) ==> !Tracking().repeated
      ensures !Tracking().repeated ==>
                forall a, b :: 0 <= a < b < |log| && log[a].Tracked? && log[b].Tracked? && log[a].id == log[b].id ==>
                  log[b].sentAt - log[a].sentAt > ttl
      ensures Indexes()
      ensures !crashed ==> NoneAdded(old(gsManager.gameServers), gsManager.gameServers)
      ensures !crashed ==> gsManager.gameServers.Keys <= old(gsManager.gameServers).Keys
    {
      crashed := false;
      for i := 0 to |cycles|
        invariant Valid() && !crashed && NoneAdded(old(gsManager.gameServers), gsManager.gameServers)
        invariant !old(Tracking().repeated) && (forall c :: c in cycles ==> DistinctTickets(c.proposals)) ==> !Tracking().repeated
      {
        ghost var verdicts, order, sent, p, mid, judged, specs;
        assert cycles[i] in cycles;
        ghost var before := gsManager.gameServers;
        crashed, verdicts, order, sent, p, mid, judged, specs := RunCycle(cycles[i].proposals, cycles[i].rolls);
        if crashed {
          break;
        }
        FewerAreLeft(before, verdicts, old(gsManager.gameServers), gsManager.gameServers);
        if DistinctTickets(cycles[i].proposals) {
          SentOnce(gsManager.hash, cycles[i].proposals, verdicts, order, sent, p, mid, SoFar());
        }
      }
      Exclusive();
      MapsAgree();
      if !crashed {
        NoSpecAdded(old(gsManager.gameServers), gsManager.gameServers);
      }
    }

    lemma Exclusive()
      requires Valid()
      ensures !Tracking().repeated ==>
                forall a, b :: 0 <= a < b < |log| && log[a].Tracked? && log[b].Tracked? && log[a].id == log[b].id ==>
                  log[b].sentAt - log[a].sentAt > ttl
    {
      if !Tracking().repeated {
        forall a, b | 0 <= a < b < |log| && log[a].Tracked? && log[b].Tracked? && log[a].id == log[b].id
          ensures log[b].sentAt - log[a].sentAt > ttl
        {
          SendsAreExclusive(log, ttl, start, a, b);
        }
      }
    }

    ghost function SoFar(): Progress
      reads this, gsManager
    {
      Progress(gsManager.gameServers, toActivate, stats)
    }
  }

  /** No spec has more servers after than before. */
  ghost predicate NoneAdded(before: GameServers, after: GameServers) {
    forall key :: Count(after, key) <= Count(before, key)
  }

  lemma NoSpecAdded(before: GameServers, after: GameServers)
    requires WellFormed(after) && NoneAdded(before, after)
    ensures after.Keys <= before.Keys
  {
    forall key | key in after ensures key in before {
      assert Count(after, key) <= Count(before, key);
    }
  }

  lemma FewerAreLeft(before: GameServers, verdicts: seq<Verdict>, first: GameServers, after: GameServers)
    requires WellFormed(before) && NoneAdded(first, before)
    requires forall key :: Count(after, key) == Remaining(before, DrawsOf(verdicts), key)
    ensures NoneAdded(first, after)
  {
    forall key ensures Count(after, key) <= Count(first, key) {
      assert Count(after, key) == Remaining(before, DrawsOf(verdicts), key) && Count(before, key) <= Count(first, key);
    }
  }

  lemma SomeKey(keys: set<int>)
    requires keys != {}
    ensures exists key :: key in keys
  {
    assert (forall key :: key !in keys) ==> keys == {};
  }
}
