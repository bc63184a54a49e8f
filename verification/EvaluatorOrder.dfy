/** What the evaluator accepts, stated on the positions of the sorted order, and exactly when the
    outcome does not depend on how the unstable sort breaks ties. */
module EvaluatorOrder {
  import opened Sorting
  import opened Evaluator

  /** Position i is accepted iff it shares no ticket with an accepted position before it. */
  ghost predicate Accepted(order: seq<MatchExt>, i: nat)
    requires i < |order|
    decreases i
  {
    forall j :: 0 <= j < i && Accepted(order, j) ==> !Collide(order[j], order[i])
  }

  ghost function Chosen(order: seq<MatchExt>, n: nat): seq<MatchExt>
    requires n <= |order|
  {
    if n == 0 then []
    else Chosen(order, n - 1) + if Accepted(order, n - 1) then [order[n - 1]] else []
  }

  lemma {:induction false} ChosenMembers(order: seq<MatchExt>, n: nat, m: MatchExt)
    requires n <= |order|
    ensures m in Chosen(order, n) <==> exists j :: 0 <= j < n && Accepted(order, j) && order[j] == m
  {
    if n > 0 {
      var before := Chosen(order, n - 1);
      ChosenMembers(order, n - 1, m);
      if Accepted(order, n - 1) {
        assert Chosen(order, n) == before + [order[n - 1]];
        assert m in Chosen(order, n) <==> m in before || m == order[n - 1];
      } else {
        assert Chosen(order, n) == before;
      }
    }
  }

  lemma AcceptedIffFree(order: seq<MatchExt>, n: nat)
    requires n < |order|
    ensures Accepted(order, n) <==> order[n].Tickets() * UsedBy(Chosen(order, n)) == {}
  {
    var before := Chosen(order, n);
    if Accepted(order, n) {
      forall t | t in UsedBy(before) ensures t !in order[n].Tickets() {
        var i :| 0 <= i < |before| && t in before[i].proposal.tickets;
        ChosenMembers(order, n, before[i]);
        var j :| 0 <= j < n && Accepted(order, j) && order[j] == before[i];
        assert t !in order[j].Tickets() * order[n].Tickets();
      }
    } else {
      var j :| 0 <= j < n && Accepted(order, j) && Collide(order[j], order[n]);
      ChosenMembers(order, n, order[j]);
      var i :| 0 <= i < |before| && before[i] == order[j];
      var t :| t in order[j].Tickets() * order[n].Tickets();
      assert t in before[i].proposal.tickets;
      assert t in order[n].Tickets() * UsedBy(before);
    }
  }

  lemma SuffixOf<T>(s: seq<T>, n: nat)
    requires n < |s|
    ensures s[n..][1..] == s[n + 1..] && s[n..][0] == s[n]
  {
  }

  lemma {:induction false} ChosenThenGreedy(order: seq<MatchExt>, n: nat)
    requires n <= |order|
    ensures Greedy(order, {}) == Chosen(order, n) + Greedy(order[n..], UsedBy(Chosen(order, n)))
  {
    if n == 0 {
      assert order[0..] == order && UsedBy([]) == {};
    } else {
      ChosenThenGreedy(order, n - 1);
      var rest := order[n - 1..];
      SuffixOf(order, n - 1);
      AcceptedIffFree(order, n - 1);
      GreedySingle(rest[0], UsedBy(Chosen(order, n - 1)));
      GreedyStep(rest, Chosen(order, n - 1));
    }
  }

  /** The walk that keeps a table of used tickets accepts exactly the accepted positions. */
  lemma GreedyIsChosen(order: seq<MatchExt>)
    ensures Greedy(order, {}) == Chosen(order, |order|)
  {
    ChosenThenGreedy(order, |order|);
    assert order[|order|..] == [];
  }

  lemma GreedyMembers(order: seq<MatchExt>, m: MatchExt)
    ensures m in Greedy(order, {}) <==> exists j :: 0 <= j < |order| && Accepted(order, j) && order[j] == m
  {
    GreedyIsChosen(order);
    ChosenMembers(order, |order|, m);
  }

  lemma {:induction false} ChosenDisjoint(order: seq<MatchExt>, n: nat)
    requires n <= |order|
    ensures PairwiseDisjoint(Chosen(order, n))
  {
    if n > 0 {
      ChosenDisjoint(order, n - 1);
      var before := Chosen(order, n - 1);
      forall i | 0 <= i < |before| && Accepted(order, n - 1) ensures !Collide(before[i], order[n - 1]) {
        ChosenMembers(order, n - 1, before[i]);
      }
    }
  }

  lemma {:induction false} ChosenSorted(order: seq<MatchExt>, n: nat)
    requires n <= |order| && Sorted(ByScore, order)
    ensures Sorted(ByScore, Chosen(order, n))
  {
    if n > 0 {
      ChosenSorted(order, n - 1);
      var before := Chosen(order, n - 1);
      forall i | 0 <= i < |before| ensures !ByScore(order[n - 1], before[i]) {
        ChosenMembers(order, n - 1, before[i]);
      }
    }
  }

  /** Accepted matches are ticket-disjoint and come best first, and a rejected proposal loses to an
      accepted one that shares a ticket with it and scores at least as high. */
  lemma AcceptedSetIsMaximal(order: seq<MatchExt>, ms: seq<MatchExt>)
    requires SortedOrder(order, ms)
    ensures PairwiseDisjoint(Greedy(order, {})) && Sorted(ByScore, Greedy(order, {}))
    ensures multiset(Greedy(order, {})) <= multiset(ms)
    ensures forall m :: m in ms && m !in Greedy(order, {}) ==>
              exists a :: a in Greedy(order, {}) && Collide(a, m) && !ByScore(m, a)
  {
    GreedyIsChosen(order);
    ChosenDisjoint(order, |order|);
    ChosenSorted(order, |order|);
    GreedyIncluded(order, {});
    forall m | m in ms && m !in Greedy(order, {})
      ensures exists a :: a in Greedy(order, {}) && Collide(a, m) && !ByScore(m, a)
    {
      var i := PositionOf(order, ms, m);
      LoserMeetsWinner(order, i);
    }
  }

  lemma DecodedMembers(proposals: seq<Match>)
    ensures forall m :: m in proposals && !m.criteria.Undecodable? ==> MatchExt(m, ScoreOf(m)) in Decoded(proposals)
    ensures forall x :: x in Decoded(proposals) ==>
              x.proposal in proposals && !x.proposal.criteria.Undecodable? && x.score == ScoreOf(x.proposal)
  {
    var at := DecodedPositions(proposals);
    forall m | m in proposals && !m.criteria.Undecodable? ensures MatchExt(m, ScoreOf(m)) in Decoded(proposals) {
      var i :| 0 <= i < |proposals| && proposals[i] == m;
      assert i in at;
      var k :| 0 <= k < |at| && at[k] == i;
      assert Decoded(proposals)[k] == MatchExt(m, ScoreOf(m));
    }
  }

  ghost predicate SharesTicket(a: Match, b: Match) {
    exists t :: t in a.tickets && t in b.tickets
  }

  /** The same for proposals: the results are decodable proposals, best first, no two with a ticket in common,
      and each decodable proposal left out shares a ticket with a result that scores at least as high. */
  lemma EveryRejectedProposalLoses(proposals: seq<Match>, order: seq<MatchExt>, results: seq<Match>)
    requires SortedOrder(order, Decoded(proposals)) && results == Proposals(Greedy(order, {}))
    ensures forall i :: 0 <= i < |results| ==> results[i] in proposals && !results[i].criteria.Undecodable?
    ensures forall i, j :: 0 <= i < j < |results| ==>
              !SharesTicket(results[i], results[j]) && !ScoreOf(results[j]).Above(ScoreOf(results[i]))
    ensures forall m :: m in proposals && !m.criteria.Undecodable? && m !in results ==>
              exists k :: 0 <= k < |results| && SharesTicket(results[k], m) && !ScoreOf(m).Above(ScoreOf(results[k]))
  {
    var ms, won := Decoded(proposals), Greedy(order, {});
    AcceptedSetIsMaximal(order, ms);
    DecodedMembers(proposals);
    forall k | 0 <= k < |won| ensures won[k] in ms {
      assert won[k] in multiset(won) && won[k] in multiset(ms);
    }
    forall i, j | 0 <= i < j < |results|
      ensures !SharesTicket(results[i], results[j]) && !ScoreOf(results[j]).Above(ScoreOf(results[i]))
    {
      assert !ByScore(won[j], won[i]) && !Collide(won[i], won[j]);
      ShareNone(won[i], won[j]);
    }
    forall m | m in proposals && !m.criteria.Undecodable? && m !in results
      ensures exists k :: 0 <= k < |results| && SharesTicket(results[k], m) && !ScoreOf(m).Above(ScoreOf(results[k]))
    {
      var k := RejectedLoses(won, MatchExt(m, ScoreOf(m)), results);
    }
  }

  /** The match provides a criterion, and its number is at least x. */
  predicate ScoresAtLeast(m: Match, x: real) {
    m.criteria.Provided? && m.criteria.score.Finite? && m.criteria.score.value >= x
  }

  /** By the numbers of the proposals: the results never grow, those without a number come last, and a proposal with
      a number that is left out shares a ticket with a result whose number is at least its own. */
  lemma ResultsGoByNumber(proposals: seq<Match>, order: seq<MatchExt>, results: seq<Match>)
    requires SortedOrder(order, Decoded(proposals)) && results == Proposals(Greedy(order, {}))
    ensures forall i, j, x :: 0 <= i < j < |results| && results[j].criteria == Provided(Finite(x)) ==>
              ScoresAtLeast(results[i], x)
    ensures forall m, x :: m in proposals && m.criteria == Provided(Finite(x)) && m !in results ==>
              exists k :: 0 <= k < |results| && SharesTicket(results[k], m) && ScoresAtLeast(results[k], x)
  {
    EveryRejectedProposalLoses(proposals, order, results);
    forall i, j, x | 0 <= i < j < |results| && results[j].criteria == Provided(Finite(x))
      ensures ScoresAtLeast(results[i], x)
    {
      assert !ScoreOf(results[j]).Above(ScoreOf(results[i]));
    }
    forall m, x | m in proposals && m.criteria == Provided(Finite(x)) && m !in results
      ensures exists k :: 0 <= k < |results| && SharesTicket(results[k], m) && ScoresAtLeast(results[k], x)
    {
      var k :| 0 <= k < |results| && SharesTicket(results[k], m) && !ScoreOf(m).Above(ScoreOf(results[k]));
      assert ScoresAtLeast(results[k], x);
    }
  }

  lemma ShareNone(x: MatchExt, y: MatchExt)
    requires !Collide(x, y)
    ensures !SharesTicket(x.proposal, y.proposal)
  {
    assert forall t :: t in x.proposal.tickets && t in y.proposal.tickets ==> t in x.Tickets() * y.Tickets();
  }

  lemma RejectedLoses(won: seq<MatchExt>, x: MatchExt, results: seq<Match>) returns (k: nat)
    requires results == Proposals(won) && x.proposal !in results
    requires x !in won ==> exists a :: a in won && Collide(a, x) && !ByScore(x, a)
    ensures k < |results| && SharesTicket(results[k], x.proposal) && !ByScore(x, won[k])
  {
    forall k | 0 <= k < |won| ensures won[k] != x {
      assert results[k] in results;
    }
    var a :| a in won && Collide(a, x) && !ByScore(x, a);
    k :| 0 <= k < |won| && won[k] == a;
    var t :| t in a.Tickets() * x.Tickets();
    assert t in a.proposal.tickets && t in x.proposal.tickets;
  }

  lemma FrontApart<T>(s: seq<T>)
    requires s != []
    ensures multiset(s) == multiset{s[0]} + multiset(s[1..])
  {
    assert s == [s[0]] + s[1..];
  }

  lemma {:induction false} GreedyIncluded(order: seq<MatchExt>, used: set<string>)
    ensures multiset(Greedy(order, used)) <= multiset(order)
  {
    if order != [] {
      FrontApart(order);
      if order[0].Tickets() * used != {} {
        GreedyIncluded(order[1..], used);
      } else {
        GreedyIncluded(order[1..], used + order[0].Tickets());
        FrontApart(Greedy(order, used));
      }
    }
  }

  lemma PositionOf(order: seq<MatchExt>, ms: seq<MatchExt>, m: MatchExt) returns (i: nat)
    requires multiset(order) == multiset(ms) && m in ms
    ensures i < |order| && order[i] == m
  {
    assert m in multiset(ms) && m in multiset(order);
    i :| 0 <= i < |order| && order[i] == m;
  }

  lemma LoserMeetsWinner(order: seq<MatchExt>, i: nat)
    requires Sorted(ByScore, order) && i < |order| && order[i] !in Greedy(order, {})
    ensures exists a :: a in Greedy(order, {}) && Collide(a, order[i]) && !ByScore(order[i], a)
  {
    GreedyMembers(order, order[i]);
    var j :| 0 <= j < i && Accepted(order, j) && Collide(order[j], order[i]);
    GreedyMembers(order, order[j]);
  }

  // ---------------------------------------------------------------------------------- ties

  ghost predicate Tied(x: MatchExt, y: MatchExt) {
    !ByScore(x, y) && !ByScore(y, x)
  }

  /** No accepted match with a higher score shares a ticket with m. */
  ghost predicate FreeAbove(order: seq<MatchExt>, m: MatchExt) {
    forall a :: a in Greedy(order, {}) && ByScore(a, m) ==> !Collide(a, m)
  }

  /** No two different proposals with equal scores compete for a ticket that no better match took. */
  ghost predicate TieFree(order: seq<MatchExt>) {
    forall x, y :: x in order && y in order && x != y && Tied(x, y) && Collide(x, y) ==>
      !FreeAbove(order, x) || !FreeAbove(order, y)
  }

  lemma WinnerIsFreeAbove(order: seq<MatchExt>, m: MatchExt)
    requires m in Greedy(order, {})
    ensures FreeAbove(order, m)
  {
    GreedyIsChosen(order);
    ChosenDisjoint(order, |order|);
    forall a | a in Greedy(order, {}) && ByScore(a, m) ensures !Collide(a, m) {
      WinnersAreDisjoint(order, a, m);
    }
  }

  lemma WinnersAreDisjoint(order: seq<MatchExt>, x: MatchExt, y: MatchExt)
    requires x in Greedy(order, {}) && y in Greedy(order, {}) && x != y
    ensures !Collide(x, y)
  {
    GreedyIsChosen(order);
    ChosenDisjoint(order, |order|);
    var won := Greedy(order, {});
    var i :| 0 <= i < |won| && won[i] == x;
    var j :| 0 <= j < |won| && won[j] == y;
    if i < j {
      assert !Collide(won[i], won[j]);
    } else {
      assert !Collide(won[j], won[i]);
      assert x.Tickets() * y.Tickets() == y.Tickets() * x.Tickets();
    }
  }

  /** A match that no better accepted match blocks loses only to a rival of the same score. */
  lemma RivalOf(order: seq<MatchExt>, i: nat) returns (y: MatchExt)
    requires Sorted(ByScore, order) && i < |order|
    requires order[i] !in Greedy(order, {}) && FreeAbove(order, order[i])
    ensures y in Greedy(order, {}) && y != order[i] && Tied(order[i], y) && Collide(order[i], y) && FreeAbove(order, y)
  {
    var x := order[i];
    LoserMeetsWinner(order, i);
    y :| y in Greedy(order, {}) && Collide(y, x) && !ByScore(x, y);
    assert x.Tickets() * y.Tickets() == y.Tickets() * x.Tickets();
    WinnerIsFreeAbove(order, y);
  }

  ghost predicate Reordering(o: seq<MatchExt>, o': seq<MatchExt>) {
    Sorted(ByScore, o) && Sorted(ByScore, o') && multiset(o) == multiset(o')
  }

  lemma WinnersAreProposed(order: seq<MatchExt>, m: MatchExt)
    requires m in Greedy(order, {})
    ensures m in order
  {
    GreedyMembers(order, m);
  }

  /** When both orders agree on everything before position i, they agree on what blocks it. */
  lemma SameBlockers(o: seq<MatchExt>, o': seq<MatchExt>, i: nat, x: MatchExt)
    requires Reordering(o, o') && i < |o| && Tied(o[i], x)
    requires forall j :: 0 <= j < i ==> (o[j] in Greedy(o, {}) <==> o[j] in Greedy(o', {}))
    ensures FreeAbove(o, x) <==> FreeAbove(o', x)
  {
    forall a | (a in Greedy(o, {}) || a in Greedy(o', {})) && ByScore(a, x)
      ensures a in Greedy(o, {}) <==> a in Greedy(o', {})
    {
      if a in Greedy(o, {}) {
        WinnersAreProposed(o, a);
      } else {
        WinnersAreProposed(o', a);
        var k := PositionOf(o, o', a);
      }
      var j :| 0 <= j < |o| && o[j] == a;
      assert j < i;
    }
  }

  lemma {:induction false} SameWinner(o: seq<MatchExt>, o': seq<MatchExt>, i: nat)
    requires Reordering(o, o') && TieFree(o) && i < |o|
    ensures o[i] in Greedy(o, {}) <==> o[i] in Greedy(o', {})
    decreases i
  {
    forall j | 0 <= j < i ensures o[j] in Greedy(o, {}) <==> o[j] in Greedy(o', {}) {
      SameWinner(o, o', j);
    }
    var x := o[i];
    SameBlockers(o, o', i, x);
    if x in Greedy(o, {}) && x !in Greedy(o', {}) {
      WinnerIsFreeAbove(o, x);
      var i' := PositionOf(o', o, x);
      var y := RivalOf(o', i');
      SameBlockers(o, o', i, y);
      WinnersAreProposed(o', y);
      var k := PositionOf(o, o', y);
    }
    if x in Greedy(o', {}) && x !in Greedy(o, {}) {
      WinnerIsFreeAbove(o', x);
      var y := RivalOf(o, i);
      WinnersAreProposed(o, y);
    }
  }

  lemma FrontCount<T>(s: seq<T>, x: T)
    requires s != []
    ensures multiset(s)[x] == multiset(s[1..])[x] + if s[0] == x then 1 else 0
  {
    assert s == [s[0]] + s[1..];
  }

  lemma {:induction false} GreedyKeepsTicketless(order: seq<MatchExt>, used: set<string>, m: MatchExt)
    requires m.Tickets() == {}
    ensures multiset(Greedy(order, used))[m] == multiset(order)[m]
  {
    if order != [] {
      FrontCount(order, m);
      if order[0].Tickets() * used != {} {
        GreedyKeepsTicketless(order[1..], used, m);
      } else {
        GreedyKeepsTicketless(order[1..], used + order[0].Tickets(), m);
        FrontCount(Greedy(order, used), m);
      }
    }
  }

  lemma {:induction false} GreedyAvoids(order: seq<MatchExt>, used: set<string>, m: MatchExt)
    requires m.Tickets() * used != {}
    ensures m !in Greedy(order, used)
  {
    if order != [] {
      if order[0].Tickets() * used != {} {
        GreedyAvoids(order[1..], used, m);
      } else {
        var t :| t in m.Tickets() * used;
        assert t in m.Tickets() * (used + order[0].Tickets());
        GreedyAvoids(order[1..], used + order[0].Tickets(), m);
      }
    }
  }

  lemma {:induction false} GreedyTakesOnce(order: seq<MatchExt>, used: set<string>, m: MatchExt)
    requires m.Tickets() != {}
    ensures multiset(Greedy(order, used))[m] <= 1
  {
    if order != [] {
      if order[0].Tickets() * used != {} {
        GreedyTakesOnce(order[1..], used, m);
      } else {
        var used' := used + order[0].Tickets();
        FrontCount(Greedy(order, used), m);
        if order[0] == m {
          assert m.Tickets() * used' == m.Tickets();
          GreedyAvoids(order[1..], used', m);
        } else {
          GreedyTakesOnce(order[1..], used', m);
        }
      }
    }
  }

  /** A match with tickets is accepted at most once; one without tickets is always accepted. */
  lemma Multiplicity(order: seq<MatchExt>, m: MatchExt)
    ensures multiset(Greedy(order, {}))[m] ==
            if m.Tickets() == {} then multiset(order)[m] else if m in Greedy(order, {}) then 1 else 0
  {
    if m.Tickets() == {} {
      GreedyKeepsTicketless(order, {}, m);
    } else {
      GreedyTakesOnce(order, {}, m);
    }
  }

  lemma LastCount<T>(s: seq<T>, x: T)
    requires s != []
    ensures multiset(s)[x] == multiset(s[..|s| - 1])[x] + if s[|s| - 1] == x then 1 else 0
  {
    assert s == s[..|s| - 1] + [s[|s| - 1]];
  }

  lemma {:induction false} DecodedCount(proposals: seq<Match>, m: Match)
    requires !m.criteria.Undecodable?
    ensures multiset(Decoded(proposals))[MatchExt(m, ScoreOf(m))] == multiset(proposals)[m]
  {
    if proposals != [] {
      var n := |proposals| - 1;
      var last := proposals[n];
      DecodedCount(proposals[..n], m);
      LastCount(proposals, m);
      DecodedLast(proposals);
      if !last.criteria.Undecodable? {
        LastCount(Decoded(proposals[..n]) + [MatchExt(last, ScoreOf(last))], MatchExt(m, ScoreOf(m)));
      }
    }
  }

  lemma {:induction false} ProposalCount(ms: seq<MatchExt>, m: Match)
    requires forall x :: x in ms ==> !x.proposal.criteria.Undecodable? && x.score == ScoreOf(x.proposal)
    ensures multiset(Proposals(ms))[m] == if m.criteria.Undecodable? then 0 else multiset(ms)[MatchExt(m, ScoreOf(m))]
  {
    if ms == [] {
      assert Proposals(ms) == [];
    } else {
      var n := |ms| - 1;
      assert ms == ms[..n] + [ms[n]];
      forall x | x in ms[..n] ensures x in ms {
      }
      ProposalCount(ms[..n], m);
      assert Proposals(ms) == Proposals(ms[..n]) + [ms[n].proposal];
      assert ms[n] in ms;
    }
  }

  /** How often each proposal is among the results: one without tickets as often as it was proposed, one with tickets
      at most once, and one whose criterion cannot be decoded never. */
  lemma ResultsAreProposedThatOften(proposals: seq<Match>, order: seq<MatchExt>, results: seq<Match>, m: Match)
    requires SortedOrder(order, Decoded(proposals)) && results == Proposals(Greedy(order, {}))
    ensures m.criteria.Undecodable? ==> multiset(results)[m] == 0
    ensures !m.criteria.Undecodable? && m.tickets == [] ==> multiset(results)[m] == multiset(proposals)[m]
    ensures m.tickets != [] ==> multiset(results)[m] <= 1
    ensures multiset(results)[m] <= multiset(proposals)[m]
  {
    var won := Greedy(order, {});
    DecodedMembers(proposals);
    forall x | x in won ensures !x.proposal.criteria.Undecodable? && x.score == ScoreOf(x.proposal) {
      WinnersAreProposed(order, x);
      assert x in multiset(order) && x in multiset(Decoded(proposals));
    }
    ProposalCount(won, m);
    if !m.criteria.Undecodable? {
      var x := MatchExt(m, ScoreOf(m));
      DecodedCount(proposals, m);
      Multiplicity(order, x);
      GreedyIncluded(order, {});
      if m.tickets != [] {
        assert m.tickets[0] in x.Tickets();
      }
    }
  }

  lemma SameWinners(o: seq<MatchExt>, o': seq<MatchExt>, m: MatchExt)
    requires Reordering(o, o') && TieFree(o)
    ensures m in Greedy(o, {}) <==> m in Greedy(o', {})
  {
    if m in Greedy(o, {}) {
      WinnersAreProposed(o, m);
      var i :| 0 <= i < |o| && o[i] == m;
      SameWinner(o, o', i);
    } else if m in Greedy(o', {}) {
      WinnersAreProposed(o', m);
      var i := PositionOf(o, o', m);
      SameWinner(o, o', i);
    }
  }

  lemma TieFreeIsEnough(o: seq<MatchExt>, o': seq<MatchExt>)
    requires Reordering(o, o') && TieFree(o)
    ensures multiset(Greedy(o, {})) == multiset(Greedy(o', {}))
  {
    forall m ensures multiset(Greedy(o, {}))[m] == multiset(Greedy(o', {}))[m] {
      Multiplicity(o, m);
      Multiplicity(o', m);
      SameWinners(o, o', m);
    }
  }

  /** `order` with position i moved up to position b. */
  ghost function Promoted(order: seq<MatchExt>, b: nat, i: nat): seq<MatchExt>
    requires b <= i < |order|
  {
    order[..b] + [order[i]] + order[b..i] + order[i + 1..]
  }

  lemma PromotedAt(order: seq<MatchExt>, b: nat, i: nat, k: nat)
    requires b <= i < |order| && k < |order|
    ensures |Promoted(order, b, i)| == |order|
    ensures Promoted(order, b, i)[k] == order[if k < b || k > i then k else if k == b then i else k - 1]
  {
  }

  lemma PromotedIsSorted(order: seq<MatchExt>, b: nat, i: nat, k: nat, l: nat)
    requires Sorted(ByScore, order) && b <= i < |order| && Tied(order[b], order[i]) && k < l < |order|
    ensures |Promoted(order, b, i)| == |order| && !ByScore(Promoted(order, b, i)[l], Promoted(order, b, i)[k])
  {
    PromotedAt(order, b, i, k);
    PromotedAt(order, b, i, l);
    if k == b && l <= i {
      assert l - 1 == b || !ByScore(order[l - 1], order[b]);
    }
  }

  lemma PromotedIsReordering(order: seq<MatchExt>, b: nat, i: nat)
    requires Sorted(ByScore, order) && b <= i < |order| && Tied(order[b], order[i])
    ensures Reordering(order, Promoted(order, b, i))
  {
    var p := Promoted(order, b, i);
    forall k, l | 0 <= k < l < |p| ensures !ByScore(p[l], p[k]) {
      PromotedIsSorted(order, b, i, k, l);
    }
    MovedUp(order, b, i);
  }

  lemma MovedUp<T>(s: seq<T>, b: nat, i: nat)
    requires b <= i < |s|
    ensures multiset(s) == multiset(s[..b] + [s[i]] + s[b..i] + s[i + 1..])
  {
    assert s == s[..b] + s[b..i] + [s[i]] + s[i + 1..];
  }

  lemma {:induction false} SamePrefix(o: seq<MatchExt>, o': seq<MatchExt>, b: nat, j: nat)
    requires j < b <= |o| && b <= |o'| && o[..b] == o'[..b]
    ensures Accepted(o, j) <==> Accepted(o', j)
    decreases j
  {
    forall k | 0 <= k < j ensures Accepted(o, k) <==> Accepted(o', k) {
      SamePrefix(o, o', b, k);
    }
    assert forall k :: 0 <= k < b ==> o[k] == o[..b][k] && o'[k] == o'[..b][k];
  }

  lemma FirstOfBlock(order: seq<MatchExt>, i: nat) returns (b: nat)
    requires Sorted(ByScore, order) && i < |order|
    ensures b <= i && Tied(order[b], order[i]) && forall j :: 0 <= j < b ==> ByScore(order[j], order[i])
  {
    b := i;
    while b > 0 && Tied(order[b - 1], order[i])
      invariant b <= i && Tied(order[b], order[i])
    {
      b := b - 1;
    }
  }

  /** An unblocked match is accepted by the order that puts it first among its equals. */
  lemma SomeOrderAccepts(order: seq<MatchExt>, i: nat) returns (o': seq<MatchExt>)
    requires Sorted(ByScore, order) && i < |order| && FreeAbove(order, order[i])
    ensures Reordering(order, o') && order[i] in Greedy(o', {})
  {
    var b := FirstOfBlock(order, i);
    o' := Promoted(order, b, i);
    PromotedIsReordering(order, b, i);
    assert order[..b] == o'[..b];
    forall j | 0 <= j < b && Accepted(o', j) ensures !Collide(o'[j], o'[b]) {
      SamePrefix(order, o', b, j);
      GreedyMembers(order, order[j]);
    }
    GreedyMembers(o', o'[b]);
  }

  lemma OrdersAgreeIffTieFree(order: seq<MatchExt>, ms: seq<MatchExt>)
    requires SortedOrder(order, ms)
    ensures TieFree(order) <==>
            forall o' :: SortedOrder(o', ms) ==> multiset(Greedy(o', {})) == multiset(Greedy(order, {}))
  {
    if TieFree(order) {
      forall o' | SortedOrder(o', ms) ensures multiset(Greedy(o', {})) == multiset(Greedy(order, {})) {
        TieFreeIsEnough(order, o');
      }
    } else {
      var x, y :| x in order && y in order && x != y && Tied(x, y) && Collide(x, y) &&
                  FreeAbove(order, x) && FreeAbove(order, y);
      var i :| 0 <= i < |order| && order[i] == x;
      var j :| 0 <= j < |order| && order[j] == y;
      var ox := SomeOrderAccepts(order, i);
      var oy := SomeOrderAccepts(order, j);
      assert SortedOrder(ox, ms) && SortedOrder(oy, ms);
      assert x in multiset(Greedy(ox, {})) && y in multiset(Greedy(oy, {}));
      if x in Greedy(order, {}) && y in Greedy(order, {}) {
        WinnersAreDisjoint(order, x, y);
      }
      assert x !in multiset(Greedy(order, {})) || y !in multiset(Greedy(order, {}));
    }
  }

  ghost function Better(ms: seq<MatchExt>, m: MatchExt): set<MatchExt> {
    set a | a in ms && ByScore(a, m)
  }

  lemma BetterShrinks(ms: seq<MatchExt>, m: MatchExt, c: MatchExt)
    requires c in ms && ByScore(c, m)
    ensures Better(ms, c) < Better(ms, m)
  {
    assert c in Better(ms, m) && c !in Better(ms, c);
  }

  /** No better proposal that itself wins shares a ticket with m. */
  ghost predicate Wins(ms: seq<MatchExt>, m: MatchExt)
    decreases Better(ms, m)
  {
    forall a :: a in ms && ByScore(a, m) && Collide(a, m) ==>
      (assert a in Better(ms, m) && a !in Better(ms, a); !Wins(ms, a))
  }

  /** No two different proposals of one score that both win share a ticket. */
  ghost predicate NoTiedWinners(ms: seq<MatchExt>) {
    forall x, y :: x in ms && y in ms && x != y && Tied(x, y) && Collide(x, y) ==> !Wins(ms, x) || !Wins(ms, y)
  }

  lemma WinsIffFree(order: seq<MatchExt>, ms: seq<MatchExt>, m: MatchExt)
    requires SortedOrder(order, ms)
    requires forall a :: a in ms && ByScore(a, m) ==> (a in Greedy(order, {}) <==> Wins(ms, a))
    ensures Wins(ms, m) <==> FreeAbove(order, m)
  {
    forall a | a in Greedy(order, {}) ensures a in ms {
      WinnersAreProposed(order, a);
      var i := PositionOf(ms, order, a);
    }
  }

  /** Once ties are excluded, on the proposals or in the order, exactly the proposals that win are accepted. */
  lemma {:induction false} WinnersWin(order: seq<MatchExt>, ms: seq<MatchExt>, m: MatchExt)
    requires SortedOrder(order, ms) && (TieFree(order) || NoTiedWinners(ms))
    ensures Wins(ms, m) <==> FreeAbove(order, m)
    ensures m in ms ==> (m in Greedy(order, {}) <==> Wins(ms, m))
    decreases Better(ms, m)
  {
    forall a | a in ms && ByScore(a, m) ensures a in Greedy(order, {}) <==> Wins(ms, a) {
      BetterShrinks(ms, m, a);
      WinnersWin(order, ms, a);
    }
    WinsIffFree(order, ms, m);
    if m in Greedy(order, {}) {
      WinnerIsFreeAbove(order, m);
    } else if m in ms && FreeAbove(order, m) {
      var i := PositionOf(order, ms, m);
      var y := RivalOf(order, i);
      WinsIffFree(order, ms, y);
      WinnersAreProposed(order, y);
      var k := PositionOf(ms, order, y);
    }
  }

  lemma TieFreeIffNoTiedWinners(order: seq<MatchExt>, ms: seq<MatchExt>)
    requires SortedOrder(order, ms)
    ensures TieFree(order) <==> NoTiedWinners(ms)
  {
    forall m ensures m in order <==> m in ms {
      assert m in multiset(order) <==> m in multiset(ms);
    }
    if TieFree(order) || NoTiedWinners(ms) {
      forall m ensures Wins(ms, m) <==> FreeAbove(order, m) {
        WinnersWin(order, ms, m);
      }
    }
  }

  lemma Inserted<T>(s: seq<T>, b: nat, x: T)
    requires b <= |s|
    ensures multiset(s[..b] + [x] + s[b..]) == multiset(s) + multiset{x}
  {
    assert s == s[..b] + s[b..];
  }

  lemma InsertedIsSorted(before: seq<MatchExt>, b: nat, m: MatchExt)
    requires Sorted(ByScore, before) && b <= |before| && (forall k :: 0 <= k < b ==> !ByScore(m, before[k]))
    requires b < |before| ==> ByScore(m, before[b])
    ensures Sorted(ByScore, before[..b] + [m] + before[b..])
  {
    var order := before[..b] + [m] + before[b..];
    forall k | 0 <= k < |order| ensures order[k] == if k < b then before[k] else if k == b then m else before[k - 1] {
    }
    forall k | b < k < |before| ensures !ByScore(before[k], m) {
      assert !ByScore(before[k], before[b]);
    }
  }

  lemma {:induction false} SomeSortedOrder(ms: seq<MatchExt>) returns (order: seq<MatchExt>)
    ensures SortedOrder(order, ms)
  {
    if ms == [] {
      order := [];
    } else {
      var n := |ms| - 1;
      var before := SomeSortedOrder(ms[..n]);
      var b := 0;
      while b < |before| && !ByScore(ms[n], before[b])
        invariant b <= |before| && forall k :: 0 <= k < b ==> !ByScore(ms[n], before[k])
      {
        b := b + 1;
      }
      order := before[..b] + [ms[n]] + before[b..];
      InsertedIsSorted(before, b, ms[n]);
      Inserted(before, b, ms[n]);
      assert ms == ms[..n] + [ms[n]];
    }
  }

  /** The outcome is the same however `sort.Sort` orders equal scores exactly when no two different proposals
      of one score, neither losing to a better winner, share a ticket. */
  lemma OutcomeIsOrderIndependentIffTieFree(ms: seq<MatchExt>)
    ensures NoTiedWinners(ms) <==>
            forall o, o' :: SortedOrder(o, ms) && SortedOrder(o', ms) ==> multiset(Greedy(o, {})) == multiset(Greedy(o', {}))
  {
    var order := SomeSortedOrder(ms);
    TieFreeIffNoTiedWinners(order, ms);
    OrdersAgreeIffTieFree(order, ms);
  }

  /** The first of two decoded proposals with one ticket in common wins. */
  lemma FirstOfTwoWins(x: MatchExt, y: MatchExt)
    requires Collide(x, y)
    ensures Greedy([x, y], {}) == [x]
  {
    var order := [x, y];
    GreedyIsChosen(order);
    assert Accepted(order, 0);
    assert Chosen(order, 0) == [];
    assert Chosen(order, 1) == [] + [order[0]];
    assert Collide(order[0], order[1]);
    assert !Accepted(order, 1);
    assert Chosen(order, 2) == Chosen(order, 1) + [];
  }

  /** Two proposals that tie for one ticket: the outcome is whatever the sort happens to do. */
  lemma TiesLeaveTheOutcomeToTheSort(x: MatchExt, y: MatchExt)
    requires x == MatchExt(Match("a", ["t"], Provided(Finite(1.0))), Finite(1.0))
    requires y == MatchExt(Match("b", ["t"], Provided(Finite(1.0))), Finite(1.0))
    ensures SortedOrder([x, y], [x, y]) && SortedOrder([y, x], [x, y])
    ensures multiset(Greedy([x, y], {})) != multiset(Greedy([y, x], {}))
  {
    assert "t" in x.Tickets() * y.Tickets() && "t" in y.Tickets() * x.Tickets();
    FirstOfTwoWins(x, y);
    FirstOfTwoWins(y, x);
    assert x in multiset([x]) && x !in multiset([y]);
  }

  // ----------------------------------------------------------------------------- stable sets

  /** A match belongs to the set iff no better member of the set shares a ticket with it. */
  ghost predicate StableSet(chosen: set<MatchExt>, ms: seq<MatchExt>) {
    && (forall m :: m in chosen ==> m in ms)
    && (forall m :: m in ms ==> (m in chosen <==> forall a :: a in chosen && ByScore(a, m) ==> !Collide(a, m)))
  }

  ghost predicate NoCollidingTies(ms: seq<MatchExt>) {
    forall x, y :: x in ms && y in ms && x != y && Collide(x, y) ==> !Tied(x, y)
  }

  ghost function AcceptedSet(order: seq<MatchExt>): set<MatchExt> {
    set m | m in Greedy(order, {})
  }

  lemma WinnersAreStable(order: seq<MatchExt>, ms: seq<MatchExt>)
    requires SortedOrder(order, ms) && NoCollidingTies(ms)
    ensures StableSet(AcceptedSet(order), ms)
  {
    var won := AcceptedSet(order);
    forall m | m in won ensures m in ms {
      WinnersAreProposed(order, m);
      var i := PositionOf(ms, order, m);
    }
    forall m | m in ms ensures m in won <==> forall a :: a in won && ByScore(a, m) ==> !Collide(a, m) {
      if m in won {
        WinnerIsFreeAbove(order, m);
      } else {
        var i := PositionOf(order, ms, m);
        LoserMeetsWinner(order, i);
        var a :| a in Greedy(order, {}) && Collide(a, m) && !ByScore(m, a);
        assert a in won && a != m;
        assert ByScore(a, m);
      }
    }
  }

  ghost predicate AgreeAbove(a: set<MatchExt>, b: set<MatchExt>, ms: seq<MatchExt>, m: MatchExt) {
    forall c :: c in ms && ByScore(c, m) ==> (c in a <==> c in b)
  }

  lemma StableStep(a: set<MatchExt>, b: set<MatchExt>, ms: seq<MatchExt>, m: MatchExt)
    requires StableSet(a, ms) && StableSet(b, ms) && m in ms && AgreeAbove(a, b, ms, m)
    ensures m in a <==> m in b
  {
    forall c | (c in a || c in b) && ByScore(c, m) ensures c in a && c in b {
      assert c in ms;
    }
  }

  lemma {:induction false} AgreeFromTheTop(a: set<MatchExt>, b: set<MatchExt>, ms: seq<MatchExt>, m: MatchExt)
    requires forall x :: x in ms && AgreeAbove(a, b, ms, x) ==> (x in a <==> x in b)
    requires m in ms
    ensures m in a <==> m in b
    decreases Better(ms, m)
  {
    forall c | c in ms && ByScore(c, m) ensures c in a <==> c in b {
      BetterShrinks(ms, m, c);
      AgreeFromTheTop(a, b, ms, c);
    }
    assert AgreeAbove(a, b, ms, m);
  }

  lemma StableSetsAgree(a: set<MatchExt>, b: set<MatchExt>, ms: seq<MatchExt>, m: MatchExt)
    requires StableSet(a, ms) && StableSet(b, ms) && m in ms
    ensures m in a <==> m in b
  {
    forall x | x in ms && AgreeAbove(a, b, ms, x) ensures x in a <==> x in b {
      StableStep(a, b, ms, x);
    }
    AgreeFromTheTop(a, b, ms, m);
  }

  /** If colliding proposals never tie, the accepted matches are the one stable set of the proposals. */
  lemma AcceptedSetIsTheStableSet(order: seq<MatchExt>, ms: seq<MatchExt>, chosen: set<MatchExt>)
    requires SortedOrder(order, ms) && NoCollidingTies(ms)
    ensures StableSet(chosen, ms) <==> chosen == AcceptedSet(order)
  {
    var won := AcceptedSet(order);
    WinnersAreStable(order, ms);
    if StableSet(chosen, ms) {
      forall m ensures m in chosen <==> m in won {
        if m in chosen || m in won {
          StableSetsAgree(chosen, won, ms, m);
        }
      }
    }
  }

  ghost function AcceptedPositions(order: seq<MatchExt>): set<nat> {
    set i | 0 <= i < |order| && Accepted(order, i)
  }

  /** Any other choice of ticket-disjoint positions first differs from the evaluator's at a position
      that the evaluator accepts and the other choice leaves out. */
  lemma AcceptedSetDominates(order: seq<MatchExt>, other: set<nat>) returns (i: nat)
    requires other != AcceptedPositions(order) && forall j :: j in other ==> j < |order|
    requires forall j, k :: j in other && k in other && j < k ==> !Collide(order[j], order[k])
    ensures i < |order| && Accepted(order, i) && i !in other
    ensures forall j :: 0 <= j < i ==> (j in other <==> Accepted(order, j))
  {
    i := 0;
    while i < |order| && (i in other <==> Accepted(order, i))
      invariant i <= |order|
      invariant forall j :: 0 <= j < i ==> (j in other <==> Accepted(order, j))
    {
      i := i + 1;
    }
    assert i == |order| ==> forall j :: j in other <==> j in AcceptedPositions(order);
  }
}
