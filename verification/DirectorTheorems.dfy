/** What holds of every cycle of the director that runs to its end. */
module DirectorTheorems {
  import opened AgonesRegistry
  import opened RegistryTheorems
  import opened AssignmentTracking
  import opened DirectorModel
  import opened Options

  // ------------------------------------------------------------------------------ conservation

  lemma {:induction false} MatchesAndRejects(proposals: seq<Match>, verdicts: seq<Verdict>, accepted: set<nat>)
    requires |verdicts| == |proposals|
    requires forall i: nat :: i in accepted <==> i < |verdicts| && verdicts[i].Accepted?
    ensures TicketsOf(proposals, NotAccepted(verdicts)) + TicketsOf(proposals, accepted) == AllTickets(proposals)
    ensures |NotAccepted(verdicts)| + |accepted| == |proposals|
  {
    var rejected := NotAccepted(verdicts);
    TicketsOfSplit(proposals, rejected, accepted);
    TicketsOfAll(proposals, rejected + accepted);
    UpTo(rejected + accepted, |proposals|);
    assert |rejected + accepted| == |rejected| + |accepted|;
  }

  lemma {:induction false} UpTo(s: set<nat>, n: nat)
    requires forall i: nat :: i in s <==> i < n
    ensures |s| == n
  {
    if n == 0 {
      assert s == {};
    } else {
      UpTo(s - {n - 1}, n - 1);
    }
  }

  lemma {:induction false} WalkLength(order: seq<nat>)
    requires WalksOver(order, Members(order))
    ensures |Members(order)| == |order|
  {
    if order != [] {
      var shorter, last := order[..|order| - 1], order[|order| - 1];
      assert order == shorter + [last];
      assert forall j :: 0 <= j < |shorter| ==> shorter[j] != last;
      WalkLength(shorter);
      WalkStep(shorter, last);
    }
  }

  /** What a cycle sends for re-activation: the tickets of the rejected matches, then of those without
      a server. */
  lemma ActivatedTickets(hash: ParamsJson -> Hash, proposals: seq<Match>, verdicts: seq<Verdict>, order: seq<nat>,
                         sent: seq<TicketId>, p: Progress, mid: Progress, p': Progress)
    requires |verdicts| == |proposals| && CycleOutcome(hash, proposals, verdicts, order, sent, p, mid, p')
    ensures mid.toActivate == p.toActivate + RejectedIds(proposals, verdicts)
    ensures p'.toActivate == mid.toActivate + Returned(proposals, mid.gs, MatchesOf(hash, verdicts), order)
  {
    assert verdicts[..|verdicts|] == verdicts && proposals[..|proposals|] == proposals;
  }

  lemma Suffix(a: seq<TicketId>, b: seq<TicketId>, c: seq<TicketId>, d: seq<TicketId>)
    requires a + b + c == a + d
    ensures d == b + c
  {
    assert a + b + c == a + (b + c);
    assert (a + d)[|a|..] == d && (a + (b + c))[|a|..] == b + c;
  }

  lemma Rebalance(rejected: multiset<TicketId>, returned: multiset<TicketId>, served: multiset<TicketId>,
                  accepted: multiset<TicketId>, all: multiset<TicketId>)
    requires returned + served == accepted && rejected + accepted == all
    ensures rejected + returned + served == all
  {
  }

  lemma AcceptedPositionsWalked(hash: ParamsJson -> Hash, proposals: seq<Match>, verdicts: seq<Verdict>, order: seq<nat>,
                                sent: seq<TicketId>, p: Progress, mid: Progress, p': Progress)
    requires |verdicts| == |proposals| && CycleOutcome(hash, proposals, verdicts, order, sent, p, mid, p')
    ensures forall i: nat :: i in Members(order) <==> i < |verdicts| && verdicts[i].Accepted?
  {
  }

  /** Every ticket of a proposal is either sent for re-activation or in a match that got a server, as
      often as it was proposed; only tickets of the latter are ever assigned. */
  lemma TicketsAreConserved(hash: ParamsJson -> Hash, proposals: seq<Match>, verdicts: seq<Verdict>, order: seq<nat>,
                            sent: seq<TicketId>, p: Progress, mid: Progress, p': Progress, activated: seq<TicketId>)
    requires |verdicts| == |proposals| && CycleOutcome(hash, proposals, verdicts, order, sent, p, mid, p')
    requires p'.toActivate == p.toActivate + activated
    ensures var served := ServedBy(mid.gs, MatchesOf(hash, verdicts), order);
            && multiset(activated) + TicketsOf(proposals, served) == AllTickets(proposals)
            && multiset(sent) <= TicketsOf(proposals, served)
  {
    var matches := MatchesOf(hash, verdicts);
    var rejected, returned := RejectedIds(proposals, verdicts), Returned(proposals, mid.gs, matches, order);
    ActivatedTickets(hash, proposals, verdicts, order, sent, p, mid, p');
    Suffix(p.toActivate, rejected, returned, activated);
    RejectedIdsAreTickets(proposals, verdicts);
    ReturnedTickets(proposals, mid.gs, matches, order);
    AcceptedPositionsWalked(hash, proposals, verdicts, order, sent, p, mid, p');
    MatchesAndRejects(proposals, verdicts, Members(order));
    Rebalance(multiset(rejected), multiset(returned), TicketsOf(proposals, ServedBy(mid.gs, matches, order)),
              TicketsOf(proposals, Members(order)), AllTickets(proposals));
  }

  lemma SentStaysWithin(proposals: seq<Match>, served: set<nat>, i: nat, sent: seq<TicketId>, now: seq<TicketId>)
    requires i < |proposals| && i !in served && multiset(sent) <= TicketsOf(proposals, served)
    requires multiset(now) <= multiset(Ids(proposals[i].rosters))
    ensures multiset(sent + now) <= TicketsOf(proposals, served + {i})
    ensures multiset(sent) <= TicketsOf(proposals, served + {})
  {
    ServedStep(proposals, served, sent, i, now);
    assert served + {} == served;
  }

  /** Whatever is sent are tickets of matches that got a server. */
  lemma {:induction false} OnlyServedAreSent(proposals: seq<Match>, gs: GameServers, matches: map<nat, SpecJson>,
                                             order: seq<nat>, result: nat -> bool, first: nat, d: Delivery)
    requires InRange(order, matches, proposals) && WalksOver(order, Members(order))
    requires d == Delivered(proposals, gs, matches, order, result, first)
    ensures multiset(d.sent) <= TicketsOf(proposals, ServedBy(gs, matches, order))
  {
    if order != [] {
      var n := |order| - 1;
      var shorter, last := order[..n], order[n];
      assert order == shorter + [last];
      assert forall j :: 0 <= j < n ==> shorter[j] != last;
      AllocationStep(proposals, gs, matches, shorter, last);
      var before := Delivered(proposals, gs, matches, shorter, result, first);
      OnlyServedAreSent(proposals, gs, matches, shorter, result, first, before);
      ServedIsWalked(proposals, gs, matches, shorter);
      DeliveredStep(proposals, gs, matches, shorter, result, first, last, before);
      SentTickets(proposals[last].rosters, Results(result, before.sends, |proposals[last].rosters|));
      SentStaysWithin(proposals, ServedBy(gs, matches, shorter), last, before.sent, SentFor(proposals[last], result, before.sends));
    }
  }

  lemma {:induction false} AllRostersSent(rosters: seq<Roster>, result: nat -> bool, first: nat)
    requires forall k :: result(k)
    ensures SentOnly(rosters, Results(result, first, |rosters|)) == rosters
  {
    if rosters != [] {
      var n := |rosters| - 1;
      AllRostersSent(rosters[..n], result, first);
      assert Results(result, first, n + 1)[..n] == Results(result, first, n);
    }
  }

  /** When every send succeeds, what is sent are exactly the tickets of the matches that got a server. */
  lemma {:induction false} WithoutFailuresAllServedAreSent(proposals: seq<Match>, gs: GameServers, matches: map<nat, SpecJson>,
                                                           order: seq<nat>, result: nat -> bool, first: nat)
    requires InRange(order, matches, proposals) && WalksOver(order, Members(order)) && forall k :: result(k)
    ensures multiset(Delivered(proposals, gs, matches, order, result, first).sent) ==
            TicketsOf(proposals, ServedBy(gs, matches, order))
  {
    if order == [] {
      TicketsOfNone(proposals, {});
    } else {
      var n := |order| - 1;
      var shorter, last := order[..n], order[n];
      assert order == shorter + [last];
      assert forall j :: 0 <= j < n ==> shorter[j] != last;
      AllocationStep(proposals, gs, matches, shorter, last);
      WithoutFailuresAllServedAreSent(proposals, gs, matches, shorter, result, first);
      ServedIsWalked(proposals, gs, matches, shorter);
      var d := Delivered(proposals, gs, matches, shorter, result, first);
      DeliveredStep(proposals, gs, matches, shorter, result, first, last, d);
      AllRostersSent(proposals[last].rosters, result, d.sends);
      OneMoreServed(proposals, ServedBy(gs, matches, shorter), last, d.sent, Ids(proposals[last].rosters));
    }
  }

  lemma ServedIsWalked(proposals: seq<Match>, gs: GameServers, matches: map<nat, SpecJson>, order: seq<nat>)
    requires InRange(order, matches, proposals) && WalksOver(order, Members(order))
    ensures ServedBy(gs, matches, order) <= Members(order)
  {
    ReturnedTickets(proposals, gs, matches, order);
  }

  lemma OneMoreServed(proposals: seq<Match>, served: set<nat>, i: nat, sent: seq<TicketId>, now: seq<TicketId>)
    requires i < |proposals| && i !in served && multiset(sent) == TicketsOf(proposals, served)
    requires now == Ids(proposals[i].rosters)
    ensures multiset(sent + now) == TicketsOf(proposals, served + {i})
    ensures multiset(sent) == TicketsOf(proposals, served + {})
  {
    TicketsOfOne(proposals, i);
    TicketsOfSplit(proposals, served, {i});
    assert served + {} == served;
  }

  /** The counters of a cycle agree with what it did. */
  lemma CountersAgree(hash: ParamsJson -> Hash, proposals: seq<Match>, verdicts: seq<Verdict>, order: seq<nat>,
                      sent: seq<TicketId>, p: Progress, mid: Progress, p': Progress)
    requires |verdicts| == |proposals| && CycleOutcome(hash, proposals, verdicts, order, sent, p, mid, p')
    requires p.stats == NO_STATS
    ensures var served := ServedBy(mid.gs, MatchesOf(hash, verdicts), order);
            && p'.stats.idsToActivate == p'.stats.ticketsRejected == |p'.toActivate| - |p.toActivate|
            && p'.stats.rejectedMatches + |served| == |proposals|
            && p'.stats.ticketAssignments == |sent|
  {
    assert verdicts[..|verdicts|] == verdicts && proposals[..|proposals|] == proposals;
    TallyCounts(p.stats, proposals, verdicts);
    AcceptedPositionsWalked(hash, proposals, verdicts, order, sent, p, mid, p');
    MatchesAndRejects(proposals, verdicts, Members(order));
    WalkLength(order);
  }

  // ------------------------------------------------------------------------------ the registry

  /** The specs that the accepted proposals in `which` are finally allocated by. */
  function FinalsAt(hash: ParamsJson -> Hash, verdicts: seq<Verdict>, which: set<nat>): multiset<SpecJson> {
    if verdicts == [] then multiset{}
    else
      var n := |verdicts| - 1;
      FinalsAt(hash, verdicts[..n], which) +
      if n in which && verdicts[n].Accepted? then multiset{Final(hash, verdicts[n].draw)} else multiset{}
  }

  lemma {:induction false} FinalsAtAll(hash: ParamsJson -> Hash, verdicts: seq<Verdict>, which: set<nat>)
    requires forall i :: 0 <= i < |verdicts| && verdicts[i].Accepted? ==> i in which
    ensures FinalsAt(hash, verdicts, which) == multiset(Finals(hash, DrawsOf(verdicts)))
  {
    if verdicts != [] {
      var n := |verdicts| - 1;
      FinalsAtAll(hash, verdicts[..n], which);
      var before := DrawsOf(verdicts[..n]);
      if verdicts[n].Accepted? {
        assert (before + [verdicts[n].draw])[..|before|] == before;
      } else {
        assert before + [] == before;
      }
    }
  }

  lemma {:induction false} FinalsAtSplit(hash: ParamsJson -> Hash, verdicts: seq<Verdict>, which: set<nat>, i: nat)
    requires i !in which && i < |verdicts| && verdicts[i].Accepted?
    ensures FinalsAt(hash, verdicts, which + {i}) == FinalsAt(hash, verdicts, which) + multiset{Final(hash, verdicts[i].draw)}
  {
    var n := |verdicts| - 1;
    if i == n {
      FinalsAtBeyond(hash, verdicts[..n], which, i);
    } else {
      FinalsAtSplit(hash, verdicts[..n], which, i);
    }
  }

  lemma {:induction false} FinalsAtBeyond(hash: ParamsJson -> Hash, verdicts: seq<Verdict>, which: set<nat>, i: nat)
    requires i >= |verdicts|
    ensures FinalsAt(hash, verdicts, which + {i}) == FinalsAt(hash, verdicts, which)
  {
    if verdicts != [] {
      FinalsAtBeyond(hash, verdicts[..|verdicts| - 1], which, i);
    }
  }

  lemma {:induction false} SpecsAreFinals(hash: ParamsJson -> Hash, verdicts: seq<Verdict>, order: seq<nat>)
    requires WalksOver(order, Members(order))
    requires forall i :: i in order ==> i < |verdicts| && verdicts[i].Accepted?
    ensures multiset(SpecsOf(MatchesOf(hash, verdicts), order)) == FinalsAt(hash, verdicts, Members(order))
  {
    var matches := MatchesOf(hash, verdicts);
    if order == [] {
      assert Members(order) == {};
      FinalsAtNone(hash, verdicts);
    } else {
      var shorter, last := order[..|order| - 1], order[|order| - 1];
      assert order == shorter + [last];
      assert forall i :: i in shorter ==> i in order;
      assert forall j :: 0 <= j < |shorter| ==> shorter[j] != last;
      SpecsAreFinals(hash, verdicts, shorter);
      WalkStep(shorter, last);
      FinalsAtSplit(hash, verdicts, Members(shorter), last);
      assert SpecsOf(matches, order) == SpecsOf(matches, shorter) + [matches[last]];
    }
  }

  lemma {:induction false} FinalsAtNone(hash: ParamsJson -> Hash, verdicts: seq<Verdict>)
    ensures FinalsAt(hash, verdicts, {}) == multiset{}
  {
    if verdicts != [] {
      FinalsAtNone(hash, verdicts[..|verdicts| - 1]);
    }
  }

  lemma SpecsPrefix(matches: map<nat, SpecJson>, order: seq<nat>, k: nat)
    requires k <= |order| && forall i :: i in order ==> i in matches
    ensures (forall i :: i in order[..k] ==> i in matches) && SpecsOf(matches, order)[..k] == SpecsOf(matches, order[..k])
  {
  }

  /** Each match finds its spec registered when its turn comes. */
  ghost predicate EachFindsServer(gs: GameServers, matches: map<nat, SpecJson>, order: seq<nat>)
    requires forall i :: i in order ==> i in matches
  {
    forall k :: 0 <= k < |order| ==> SpecsOf(matches, order)[k] in AfterAllocations(gs, SpecsOf(matches, order)[..k])
  }

  lemma EachFindsServerPrefix(gs: GameServers, matches: map<nat, SpecJson>, order: seq<nat>, n: nat)
    requires n <= |order| && (forall i :: i in order ==> i in matches) && EachFindsServer(gs, matches, order)
    ensures (forall i :: i in order[..n] ==> i in matches) && EachFindsServer(gs, matches, order[..n])
  {
    SpecsPrefix(matches, order, n);
    forall k | 0 <= k < n
      ensures SpecsOf(matches, order[..n])[k] in AfterAllocations(gs, SpecsOf(matches, order[..n])[..k])
    {
      assert SpecsOf(matches, order)[..n][..k] == SpecsOf(matches, order)[..k];
    }
  }

  lemma {:induction false} AllServed(gs: GameServers, matches: map<nat, SpecJson>, order: seq<nat>)
    requires (forall i :: i in order ==> i in matches) && EachFindsServer(gs, matches, order)
    ensures ServedBy(gs, matches, order) == Members(order)
  {
    if order != [] {
      var n := |order| - 1;
      EachFindsServerPrefix(gs, matches, order, n);
      AllServed(gs, matches, order[..n]);
      SpecsPrefix(matches, order, n);
      assert SpecsOf(matches, order)[n] == matches[order[n]];
      assert order == order[..n] + [order[n]];
    }
  }

  lemma DrawAt(verdicts: seq<Verdict>, i: nat) returns (k: nat)
    requires i < |verdicts| && verdicts[i].Accepted?
    ensures k < |DrawsOf(verdicts)| && DrawsOf(verdicts)[k] == verdicts[i].draw
    ensures DrawsOf(verdicts)[..k] == DrawsOf(verdicts[..i])
  {
    k := |DrawsOf(verdicts[..i])|;
    DrawsPrefix(verdicts, i + 1);
    assert verdicts[..i + 1][..i] == verdicts[..i];
    var upTo := DrawsOf(verdicts[..i + 1]);
    assert upTo == DrawsOf(verdicts[..i]) + [verdicts[i].draw];
    assert DrawsOf(verdicts)[..|upTo|] == upTo && upTo[..k] == DrawsOf(verdicts[..i]);
  }

  lemma {:induction false} VerdictOf(verdicts: seq<Verdict>, k: nat) returns (i: nat)
    requires k < |DrawsOf(verdicts)|
    ensures i < |verdicts| && verdicts[i].Accepted? && DrawsOf(verdicts)[k] == verdicts[i].draw
    ensures DrawsOf(verdicts)[..k] == DrawsOf(verdicts[..i])
  {
    var n := |verdicts| - 1;
    var before := DrawsOf(verdicts[..n]);
    if k < |before| {
      i := VerdictOf(verdicts[..n], k);
      assert verdicts[..n][..i] == verdicts[..i];
      assert DrawsOf(verdicts)[..|before|] == before && DrawsOf(verdicts)[..k] == before[..k];
    } else {
      i := n;
      assert DrawsOf(verdicts)[..k] == before;
    }
  }

  lemma {:induction false} DrawsPrefix(verdicts: seq<Verdict>, n: nat)
    requires n <= |verdicts|
    ensures DrawsOf(verdicts[..n]) <= DrawsOf(verdicts)
    decreases |verdicts| - n
  {
    if n == |verdicts| {
      assert verdicts[..n] == verdicts;
    } else {
      DrawsPrefix(verdicts, n + 1);
      assert verdicts[..n + 1][..n] == verdicts[..n];
    }
  }

  lemma CrashesAtDraw(hash: ParamsJson -> Hash, gs: GameServers, verdicts: seq<Verdict>)
    ensures (forall i: nat :: i < |verdicts| ==> !Crashes(hash, gs, verdicts, i)) <==>
            UpdatesSucceed(hash, gs, DrawsOf(verdicts))
  {
    if UpdatesSucceed(hash, gs, DrawsOf(verdicts)) {
      forall i: nat | i < |verdicts| ensures !Crashes(hash, gs, verdicts, i) {
        if verdicts[i].Accepted? {
          var k := DrawAt(verdicts, i);
          assert UpdateSucceeds(hash, gs, DrawsOf(verdicts), k);
        }
      }
    } else {
      var draws := DrawsOf(verdicts);
      var k :| 0 <= k < |draws| && !UpdateSucceeds(hash, gs, draws, k);
      var i := VerdictOf(verdicts, k);
      assert Crashes(hash, gs, verdicts, i);
    }
  }

  /** Judging runs into the nil dereference exactly when some match with a next request is drawn from a spec
      that has no server left by then: one whose servers before the cycle, with the earlier draws that end at
      it, do not outnumber the earlier draws from it.  Enough servers for all draws rule it out. */
  lemma JudgingCrashesIffNoServerIsLeft(hash: ParamsJson -> Hash, gs: GameServers, verdicts: seq<Verdict>)
    requires WellFormed(gs)
    ensures (forall i: nat :: i < |verdicts| ==> !Crashes(hash, gs, verdicts, i)) <==>
            ServersLeft(hash, gs, DrawsOf(verdicts))
    ensures Enough(gs, DrawsOf(verdicts)) ==> ServersLeft(hash, gs, DrawsOf(verdicts))
  {
    CrashesAtDraw(hash, gs, verdicts);
    UpdatesSucceedIffServersAreLeft(hash, gs, DrawsOf(verdicts));
    if Enough(gs, DrawsOf(verdicts)) {
      EnoughForUpdates(hash, gs, DrawsOf(verdicts));
    }
  }

  lemma {:induction false} EachServedFoundServer(gs: GameServers, matches: map<nat, SpecJson>, order: seq<nat>)
    requires (forall i :: i in order ==> i in matches) && WalksOver(order, Members(order))
    requires ServedBy(gs, matches, order) == Members(order)
    ensures EachFindsServer(gs, matches, order)
  {
    if order != [] {
      var n := |order| - 1;
      var shorter, last := order[..n], order[n];
      assert order == shorter + [last];
      assert forall j :: 0 <= j < n ==> shorter[j] != last;
      WalkStep(shorter, last);
      ServedAreMembers(gs, matches, shorter);
      assert last in ServedBy(gs, matches, order);
      assert ServedBy(gs, matches, shorter) == Members(shorter) by {
        assert forall i :: i in Members(shorter) ==> i in ServedBy(gs, matches, order) && i != last;
      }
      EachServedFoundServer(gs, matches, shorter);
      OneMoreFindsServer(gs, matches, shorter, last);
    }
  }

  lemma {:induction false} ServedAreMembers(gs: GameServers, matches: map<nat, SpecJson>, order: seq<nat>)
    requires forall i :: i in order ==> i in matches
    ensures ServedBy(gs, matches, order) <= Members(order)
  {
    if order != [] {
      ServedAreMembers(gs, matches, order[..|order| - 1]);
    }
  }

  lemma OneMoreFindsServer(gs: GameServers, matches: map<nat, SpecJson>, shorter: seq<nat>, last: nat)
    requires (forall i :: i in shorter + [last] ==> i in matches) && (forall i :: i in shorter ==> i in matches)
    requires EachFindsServer(gs, matches, shorter)
    requires last in matches && matches[last] in AfterAllocations(gs, SpecsOf(matches, shorter))
    ensures EachFindsServer(gs, matches, shorter + [last])
  {
    var order := shorter + [last];
    assert SpecsOf(matches, order) == SpecsOf(matches, shorter) + [matches[last]];
    forall k | 0 <= k < |order| ensures SpecsOf(matches, order)[k] in AfterAllocations(gs, SpecsOf(matches, order)[..k]) {
      assert SpecsOf(matches, order)[..k] == SpecsOf(matches, shorter)[..k];
      assert SpecsOf(matches, shorter)[..|shorter|] == SpecsOf(matches, shorter);
    }
  }

  lemma FinalsAreWalked(hash: ParamsJson -> Hash, verdicts: seq<Verdict>, order: seq<nat>)
    requires WalksOver(order, Members(order)) && Members(order) == MatchesOf(hash, verdicts).Keys
    ensures forall i :: i in order ==> i in MatchesOf(hash, verdicts)
    ensures multiset(SpecsOf(MatchesOf(hash, verdicts), order)) == multiset(Finals(hash, DrawsOf(verdicts)))
  {
    var matches := MatchesOf(hash, verdicts);
    forall i | i in order ensures i in matches && i < |verdicts| && verdicts[i].Accepted? {
      assert i in Members(order);
    }
    forall i | 0 <= i < |verdicts| && verdicts[i].Accepted? ensures i in Members(order) {
      assert i in matches;
    }
    SpecsAreFinals(hash, verdicts, order);
    FinalsAtAll(hash, verdicts, Members(order));
  }

  /** A cycle that does not crash serves every accepted match exactly when each spec had a server for every
      match drawn from it.  In any case each spec keeps the servers that are left when every match takes one of
      the spec it was drawn from, while there are any; and the registry is the same as if each match had been
      allocated by that spec exactly when every spec that keeps servers and that some next request ends at
      already held the requests its annotation names. */
  lemma CycleServesEveryAcceptedMatch(hash: ParamsJson -> Hash, proposals: seq<Match>, verdicts: seq<Verdict>, order: seq<nat>,
                                      sent: seq<TicketId>, p: Progress, mid: Progress, p': Progress)
    requires |verdicts| == |proposals| && CycleOutcome(hash, proposals, verdicts, order, sent, p, mid, p')
    requires WellFormed(p.gs)
    ensures ServedBy(mid.gs, MatchesOf(hash, verdicts), order) == Members(order) <==> Enough(p.gs, DrawsOf(verdicts))
    ensures var draws := DrawsOf(verdicts);
            var direct := AfterAllocations(p.gs, Sources(draws));
            && (forall key :: key in direct ==> key in p.gs)
            && (forall key :: Count(p'.gs, key) == Count(direct, key) == Remaining(p.gs, draws, key))
            && (p'.gs == direct <==>
                forall key :: key in direct && Rewritten(hash, draws, key) ==> p.gs[key].mmfParams == Named(key))
  {
    var matches, draws := MatchesOf(hash, verdicts), DrawsOf(verdicts);
    assert verdicts[..|verdicts|] == verdicts;
    FinalsAreWalked(hash, verdicts, order);
    CrashesAtDraw(hash, p.gs, verdicts);
    EveryAcceptedMatchGetsAServer(hash, p.gs, draws, SpecsOf(matches, order));
    CycleTakesOneServerPerMatch(hash, p.gs, draws, SpecsOf(matches, order));
    if Enough(p.gs, draws) {
      AllServed(mid.gs, matches, order);
    } else if ServedBy(mid.gs, matches, order) == Members(order) {
      EachServedFoundServer(mid.gs, matches, order);
    }
  }

  lemma SameRemaining(a: GameServers, b: GameServers, draws: seq<Draw>, key: SpecJson)
    requires Count(a, key) == Count(b, key)
    ensures Remaining(a, draws, key) == Remaining(b, draws, key)
  {
  }

  /** From the registry before the requests were emitted: a cycle that does not crash takes one server of a
      spec for each match drawn from it, while there are any, and adds none. */
  lemma CycleTakesServers(hash: ParamsJson -> Hash, gs: GameServers, proposals: seq<Match>, verdicts: seq<Verdict>,
                          order: seq<nat>, sent: seq<TicketId>, p: Progress, mid: Progress, p': Progress)
    requires WellFormed(gs) && p.gs == AfterEmitting(gs)
    requires |verdicts| == |proposals| && CycleOutcome(hash, proposals, verdicts, order, sent, p, mid, p')
    ensures forall key :: Count(p'.gs, key) == Remaining(gs, DrawsOf(verdicts), key)
  {
    var draws, specs := DrawsOf(verdicts), SpecsOf(MatchesOf(hash, verdicts), order);
    assert verdicts[..|verdicts|] == verdicts;
    StoringKeepsCounts(gs);
    FinalsAreWalked(hash, verdicts, order);
    CrashesAtDraw(hash, p.gs, verdicts);
    forall key ensures Count(p'.gs, key) == Remaining(gs, draws, key) {
      CountsOfCycle(hash, p.gs, draws, specs, key);
      SameRemaining(gs, p.gs, draws, key);
    }
  }

  // ------------------------------------------------------------------- collisions within a cycle

  /** The proposals that only a random roll could still reject. */
  function Eligible(proposals: seq<Match>, pending: map<Hash, MmfRequest>, ids: set<TicketId>): set<nat> {
    set i: nat | i < |proposals| && Judge(proposals[i], 2, pending, ids).Accepted?
  }

  function AcceptedAt(verdicts: seq<Verdict>): set<nat> {
    set i: nat | i < |verdicts| && verdicts[i].Accepted?
  }

  /** The documentation says that a ticket, once assigned, is in no other accepted match.  Within a
      cycle nothing checks that: some rolls accept a ticket twice exactly when it occurs twice among the
      eligible proposals. */
  lemma AcceptedOnceIffProposedOnce(proposals: seq<Match>, pending: map<Hash, MmfRequest>, ids: set<TicketId>, id: TicketId)
    ensures (forall rolls :: |rolls| == |proposals| ==>
               TicketsOf(proposals, AcceptedAt(Judged(proposals, rolls, pending, ids)))[id] <= 1) <==>
            TicketsOf(proposals, Eligible(proposals, pending, ids))[id] <= 1
  {
    var eligible := Eligible(proposals, pending, ids);
    var lucky: seq<nat> := seq(|proposals|, i => 2);
    assert AcceptedAt(Judged(proposals, lucky, pending, ids)) == eligible;
    forall rolls | |rolls| == |proposals|
      ensures TicketsOf(proposals, AcceptedAt(Judged(proposals, rolls, pending, ids))) <= TicketsOf(proposals, eligible)
    {
      TicketsOfFewer(proposals, AcceptedAt(Judged(proposals, rolls, pending, ids)), eligible);
    }
  }

  // --------------------------------------------------------------------- what a cycle may send

  /** A cycle with these rolls can run to its end, and sends these tickets when it walks the accepted matches
      in this order. */
  ghost predicate CycleSends(hash: ParamsJson -> Hash, gs: GameServers, proposals: seq<Match>, rolls: seq<nat>,
                             pending: map<Hash, MmfRequest>, ids: set<TicketId>, order: seq<nat>, result: nat -> bool,
                             first: nat, sent: seq<TicketId>)
  {
    && |rolls| == |proposals|
    && var verdicts := Judged(proposals, rolls, pending, ids);
       && UpdatesSucceed(hash, gs, DrawsOf(verdicts))
       && WalksOver(order, MatchesOf(hash, verdicts).Keys)
       && sent == Delivered(proposals, AfterUpdates(hash, gs, DrawsOf(verdicts)), MatchesOf(hash, verdicts), order,
                            result, first).sent
  }

  /** What MockDirector.RunCycle guarantees of a cycle that does not crash is such a cycle. */
  lemma CompletedCycleSends(hash: ParamsJson -> Hash, proposals: seq<Match>, rolls: seq<nat>, pending: map<Hash, MmfRequest>,
                            ids: set<TicketId>, order: seq<nat>, sent: seq<TicketId>, p: Progress, mid: Progress, p': Progress,
                            result: nat -> bool, first: nat, sends: nat)
    requires |rolls| == |proposals|
    requires var verdicts := Judged(proposals, rolls, pending, ids);
             CycleOutcome(hash, proposals, verdicts, order, sent, p, mid, p') &&
             Delivery(sent, sends) == Delivered(proposals, mid.gs, MatchesOf(hash, verdicts), order, result, first)
    ensures CycleSends(hash, p.gs, proposals, rolls, pending, ids, order, result, first, sent)
  {
    var verdicts := Judged(proposals, rolls, pending, ids);
    assert verdicts[..|verdicts|] == verdicts;
    CrashesAtDraw(hash, p.gs, verdicts);
  }

  /** Rolls that reject nothing. */
  function Lucky(n: nat): seq<nat> {
    seq(n, i => 2)
  }

  lemma {:induction false} SomeWalk(keys: set<nat>) returns (order: seq<nat>)
    ensures WalksOver(order, keys)
  {
    if keys == {} {
      order := [];
    } else {
      var i :| i in keys;
      var before := SomeWalk(keys - {i});
      order := before + [i];
    }
  }

  lemma SentAreEligible(hash: ParamsJson -> Hash, gs: GameServers, proposals: seq<Match>, rolls: seq<nat>,
                        pending: map<Hash, MmfRequest>, ids: set<TicketId>, order: seq<nat>, result: nat -> bool,
                        first: nat, sent: seq<TicketId>)
    requires CycleSends(hash, gs, proposals, rolls, pending, ids, order, result, first, sent)
    ensures multiset(sent) <= TicketsOf(proposals, Eligible(proposals, pending, ids))
  {
    var verdicts := Judged(proposals, rolls, pending, ids);
    var matches, updated := MatchesOf(hash, verdicts), AfterUpdates(hash, gs, DrawsOf(verdicts));
    OnlyServedAreSent(proposals, updated, matches, order, result, first,
                      Delivered(proposals, updated, matches, order, result, first));
    ServedIsWalked(proposals, updated, matches, order);
    assert ServedBy(updated, matches, order) <= Eligible(proposals, pending, ids);
    TicketsOfFewer(proposals, ServedBy(updated, matches, order), Eligible(proposals, pending, ids));
  }

  /** With servers for all it accepts, and no failing send, a cycle sends the tickets of all accepted matches. */
  lemma CycleSendsAllAccepted(hash: ParamsJson -> Hash, gs: GameServers, proposals: seq<Match>, rolls: seq<nat>,
                              pending: map<Hash, MmfRequest>, ids: set<TicketId>, result: nat -> bool, first: nat)
    returns (order: seq<nat>, sent: seq<TicketId>)
    requires WellFormed(gs) && (forall k :: result(k)) && |rolls| == |proposals|
    requires Enough(gs, DrawsOf(Judged(proposals, rolls, pending, ids)))
    ensures CycleSends(hash, gs, proposals, rolls, pending, ids, order, result, first, sent)
    ensures multiset(sent) == TicketsOf(proposals, AcceptedAt(Judged(proposals, rolls, pending, ids)))
  {
    var verdicts := Judged(proposals, rolls, pending, ids);
    var matches, draws := MatchesOf(hash, verdicts), DrawsOf(verdicts);
    var updated := AfterUpdates(hash, gs, draws);
    order := SomeWalk(matches.Keys);
    assert Members(order) == matches.Keys == AcceptedAt(verdicts);
    sent := Delivered(proposals, updated, matches, order, result, first).sent;
    FinalsAreWalked(hash, verdicts, order);
    EveryAcceptedMatchGetsAServer(hash, gs, draws, SpecsOf(matches, order));
    AllServed(updated, matches, order);
    WithoutFailuresAllServedAreSent(proposals, updated, matches, order, result, first);
  }

  /** No cycle sends the ticket twice, whatever the rolls and the order of the walk. */
  ghost predicate NeverSentTwice(hash: ParamsJson -> Hash, gs: GameServers, proposals: seq<Match>, pending: map<Hash, MmfRequest>,
                                 ids: set<TicketId>, result: nat -> bool, first: nat, id: TicketId)
  {
    forall rolls, order, sent :: CycleSends(hash, gs, proposals, rolls, pending, ids, order, result, first, sent) ==>
      multiset(sent)[id] <= 1
  }

  lemma OneCycleIsEnough(hash: ParamsJson -> Hash, gs: GameServers, proposals: seq<Match>, rolls: seq<nat>,
                         pending: map<Hash, MmfRequest>, ids: set<TicketId>, order: seq<nat>, result: nat -> bool,
                         first: nat, sent: seq<TicketId>, id: TicketId)
    requires CycleSends(hash, gs, proposals, rolls, pending, ids, order, result, first, sent) && multiset(sent)[id] > 1
    ensures !NeverSentTwice(hash, gs, proposals, pending, ids, result, first, id)
  {
  }

  lemma EligibleOnceIsNeverSentTwice(hash: ParamsJson -> Hash, gs: GameServers, proposals: seq<Match>,
                                     pending: map<Hash, MmfRequest>, ids: set<TicketId>, result: nat -> bool,
                                     first: nat, id: TicketId)
    requires TicketsOf(proposals, Eligible(proposals, pending, ids))[id] <= 1
    ensures NeverSentTwice(hash, gs, proposals, pending, ids, result, first, id)
  {
    forall rolls, order, sent | CycleSends(hash, gs, proposals, rolls, pending, ids, order, result, first, sent)
      ensures multiset(sent)[id] <= 1
    {
      SentAreEligible(hash, gs, proposals, rolls, pending, ids, order, result, first, sent);
      assert multiset(sent)[id] <= TicketsOf(proposals, Eligible(proposals, pending, ids))[id];
    }
  }

  /** These rolls accept the ticket more than once, and each match they accept has a server. */
  ghost predicate AcceptsTwice(gs: GameServers, proposals: seq<Match>, rolls: seq<nat>, pending: map<Hash, MmfRequest>,
                               ids: set<TicketId>, id: TicketId)
  {
    && |rolls| == |proposals|
    && var verdicts := Judged(proposals, rolls, pending, ids);
       Enough(gs, DrawsOf(verdicts)) && TicketsOf(proposals, AcceptedAt(verdicts))[id] > 1
  }

  lemma AcceptedTwiceIsSentTwice(hash: ParamsJson -> Hash, gs: GameServers, proposals: seq<Match>, rolls: seq<nat>,
                                 pending: map<Hash, MmfRequest>, ids: set<TicketId>, result: nat -> bool,
                                 first: nat, id: TicketId)
    requires WellFormed(gs) && (forall k :: result(k)) && AcceptsTwice(gs, proposals, rolls, pending, ids, id)
    ensures !NeverSentTwice(hash, gs, proposals, pending, ids, result, first, id)
  {
    var order, sent := CycleSendsAllAccepted(hash, gs, proposals, rolls, pending, ids, result, first);
    OneCycleIsEnough(hash, gs, proposals, rolls, pending, ids, order, result, first, sent, id);
  }

  /** When no send fails, no cycle sends a ticket twice, whatever the rolls and the order of the walk, if the
      ticket occurs at most once among the eligible proposals.  Some cycle does if some rolls accept the ticket
      twice and leave no accepted match without a server.  With servers for all eligible proposals, either
      happens exactly as the ticket occurs at most once among them or not. */
  lemma {:induction false} SentOnceIffProposedOnce(hash: ParamsJson -> Hash, gs: GameServers, proposals: seq<Match>,
                                                   pending: map<Hash, MmfRequest>, ids: set<TicketId>, result: nat -> bool,
                                     first: nat, id: TicketId)
    requires WellFormed(gs) && forall k :: result(k)
    ensures TicketsOf(proposals, Eligible(proposals, pending, ids))[id] <= 1 ==>
              NeverSentTwice(hash, gs, proposals, pending, ids, result, first, id)
    ensures (exists rolls :: AcceptsTwice(gs, proposals, rolls, pending, ids, id)) ==>
              !NeverSentTwice(hash, gs, proposals, pending, ids, result, first, id)
    ensures Enough(gs, DrawsOf(Judged(proposals, Lucky(|proposals|), pending, ids))) ==>
              (NeverSentTwice(hash, gs, proposals, pending, ids, result, first, id) <==>
               TicketsOf(proposals, Eligible(proposals, pending, ids))[id] <= 1)
  {
    var lucky := Judged(proposals, Lucky(|proposals|), pending, ids);
    EligibleAreAccepted(proposals, pending, ids);
    if TicketsOf(proposals, Eligible(proposals, pending, ids))[id] <= 1 {
      EligibleOnceIsNeverSentTwice(hash, gs, proposals, pending, ids, result, first, id);
    } else if Enough(gs, DrawsOf(lucky)) {
      AcceptedTwiceIsSentTwice(hash, gs, proposals, Lucky(|proposals|), pending, ids, result, first, id);
    }
    if rolls :| AcceptsTwice(gs, proposals, rolls, pending, ids, id) {
      AcceptedTwiceIsSentTwice(hash, gs, proposals, rolls, pending, ids, result, first, id);
    }
  }

  const TWIN_SPEC := SpecJson(AllocSpec("h", None))
  const TWIN_SERVERS: GameServers := map[TWIN_SPEC := GameServerSet(2, AllocSpec("h", None), [])]
  const TWIN_REQUEST := MmfRequest([], "", [], Some(map[AGONES_ALLOCATOR_KEY := Allocator(TWIN_SPEC)]))
  const TWINS := [Match("1", [Roster(["a"])], Some("h"), None), Match("2", [Roster(["a"])], Some("h"), None)]

  /** Two proposals with one ticket, and two servers for them: a cycle sends the ticket with both. */
  lemma {:induction false} OneTicketInTwoMatches(hash: ParamsJson -> Hash, result: nat -> bool)
    requires forall k :: result(k)
    ensures !NeverSentTwice(hash, TWIN_SERVERS, TWINS, map["h" := TWIN_REQUEST], {}, result, 0, "a")
  {
    var pending := map["h" := TWIN_REQUEST];
    var verdicts := Judged(TWINS, Lucky(|TWINS|), pending, {});
    TwinsAreAccepted(verdicts);
    TwinsHaveServers(verdicts);
    EligibleAreAccepted(TWINS, pending, {});
    BothAccepted(verdicts);
    TwoSingles(TWINS, AcceptedAt(verdicts), "a");
    SentOnceIffProposedOnce(hash, TWIN_SERVERS, TWINS, pending, {}, result, 0, "a");
  }

  lemma TwinRequestLeadsToTwinSpec()
    ensures AllocatorOf(TWIN_REQUEST) == Some(TWIN_SPEC)
  {
  }

  lemma {:induction false} AcceptedUnlessAssigned(m: Match, h: Hash, pending: map<Hash, MmfRequest>, spec: SpecJson)
    requires m.hash == Some(h) && h in pending && AllocatorOf(pending[h]) == Some(spec)
    ensures Judge(m, 2, pending, {}) ==
            Accepted(Draw(spec, if m.next.Some? && m.next.value.profile != "" then m.next else None))
  {
    NoneAssigned(Ids(m.rosters));
  }

  const ONE_SERVER: GameServers := map[TWIN_SPEC := GameServerSet(1, AllocSpec("h", None), [])]
  const NEXT_REQUEST := MmfRequest([], "backfill", [], None)
  const BACKFILLS := [Match("1", [Roster(["a"])], Some("h"), Some(NEXT_REQUEST)),
                      Match("2", [Roster(["b"])], Some("h"), Some(NEXT_REQUEST))]

  lemma {:induction false} BackfillsAreAccepted(verdicts: seq<Verdict>)
    requires verdicts == Judged(BACKFILLS, Lucky(|BACKFILLS|), map["h" := TWIN_REQUEST], {})
    ensures verdicts == [Accepted(Draw(TWIN_SPEC, Some(NEXT_REQUEST))), Accepted(Draw(TWIN_SPEC, Some(NEXT_REQUEST)))]
  {
    TwinRequestLeadsToTwinSpec();
    AcceptedUnlessAssigned(BACKFILLS[0], "h", map["h" := TWIN_REQUEST], TWIN_SPEC);
    AcceptedUnlessAssigned(BACKFILLS[1], "h", map["h" := TWIN_REQUEST], TWIN_SPEC);
  }

  lemma {:induction false} OneUpdateTakesTheServer(hash: ParamsJson -> Hash, d: Draw)
    requires d.from == TWIN_SPEC && d.next.Some?
    ensures WellFormed(ONE_SERVER) && TWIN_SPEC in ONE_SERVER && TWIN_SPEC !in AfterUpdate(hash, ONE_SERVER, d)
  {
  }

  lemma {:induction false} SecondUpdateCrashes(hash: ParamsJson -> Hash, verdicts: seq<Verdict>, d: Draw)
    requires d.from == TWIN_SPEC && d.next.Some? && verdicts == [Accepted(d), Accepted(d)]
    ensures !Crashes(hash, ONE_SERVER, verdicts, 0) && Crashes(hash, ONE_SERVER, verdicts, 1)
  {
    var one := verdicts[..1];
    assert verdicts[..0] == [] && one[..0] == [] && DrawsOf(one) == [d] && [d][..0] == [];
    OneUpdateTakesTheServer(hash, d);
  }

  /** Two proposals with backfill requests, and one server of the spec they are drawn from: the first takes
      the server to the spec of its request, and the second dereferences nil. */
  lemma {:induction false} TwoBackfillsFromOneServer(hash: ParamsJson -> Hash)
    ensures var verdicts := Judged(BACKFILLS, Lucky(|BACKFILLS|), map["h" := TWIN_REQUEST], {});
            !Crashes(hash, ONE_SERVER, verdicts, 0) && Crashes(hash, ONE_SERVER, verdicts, 1)
  {
    var verdicts := Judged(BACKFILLS, Lucky(|BACKFILLS|), map["h" := TWIN_REQUEST], {});
    BackfillsAreAccepted(verdicts);
    SecondUpdateCrashes(hash, verdicts, Draw(TWIN_SPEC, Some(NEXT_REQUEST)));
  }

  lemma {:induction false} TwinsAreAccepted(verdicts: seq<Verdict>)
    requires verdicts == Judged(TWINS, Lucky(|TWINS|), map["h" := TWIN_REQUEST], {})
    ensures verdicts == [Accepted(Draw(TWIN_SPEC, None)), Accepted(Draw(TWIN_SPEC, None))]
  {
    TwinRequestLeadsToTwinSpec();
    AcceptedUnlessAssigned(TWINS[0], "h", map["h" := TWIN_REQUEST], TWIN_SPEC);
    AcceptedUnlessAssigned(TWINS[1], "h", map["h" := TWIN_REQUEST], TWIN_SPEC);
  }

  lemma {:induction false} EligibleAreAccepted(proposals: seq<Match>, pending: map<Hash, MmfRequest>, ids: set<TicketId>)
    ensures Eligible(proposals, pending, ids) == AcceptedAt(Judged(proposals, Lucky(|proposals|), pending, ids))
  {
  }

  lemma {:induction false} BothAccepted(verdicts: seq<Verdict>)
    requires |verdicts| == 2 && verdicts[0].Accepted? && verdicts[1].Accepted?
    ensures AcceptedAt(verdicts) == {0, 1}
  {
  }

  lemma {:induction false} TwinsHaveServers(verdicts: seq<Verdict>)
    requires verdicts == [Accepted(Draw(TWIN_SPEC, None)), Accepted(Draw(TWIN_SPEC, None))]
    ensures WellFormed(TWIN_SERVERS) && Enough(TWIN_SERVERS, DrawsOf(verdicts))
  {
    TwoDraws(verdicts, Draw(TWIN_SPEC, None));
  }

  lemma {:induction false} NoneAssigned(tickets: seq<TicketId>)
    ensures NumAssigned(tickets, {}) == 0
  {
    if tickets != [] {
      NoneAssigned(tickets[..|tickets| - 1]);
    }
  }

  lemma {:induction false} TwoDraws(verdicts: seq<Verdict>, d: Draw)
    requires verdicts == [Accepted(d), Accepted(d)]
    ensures multiset(Sources(DrawsOf(verdicts))) == multiset{d.from, d.from}
  {
    var one := verdicts[..1];
    assert one[..0] == [] && DrawsOf(one) == [d];
    assert DrawsOf(verdicts) == [d, d];
    assert [d, d][..1] == [d] && [d][..0] == [];
    assert Sources([d]) == [d.from] && Sources([d, d]) == [d.from, d.from];
  }

  lemma {:induction false} TwoSingles(proposals: seq<Match>, which: set<nat>, id: TicketId)
    requires |proposals| == 2 && proposals[0].rosters == [Roster([id])] && proposals[1].rosters == [Roster([id])]
    requires which == {0, 1}
    ensures TicketsOf(proposals, which)[id] == 2
  {
    assert [Roster([id])][..0] == [] && Ids([Roster([id])]) == [id];
    var one := proposals[..1];
    assert one[..0] == [];
    assert TicketsOf(one, which) == multiset([id]);
    assert TicketsOf(proposals, which) == multiset([id]) + multiset([id]);
  }
}
