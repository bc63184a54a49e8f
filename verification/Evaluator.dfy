/** The default evaluator (defaultevaluator/cmd/default_evaluator.go): decode the optional score of
    every proposed match, sort by score, and keep each match none of whose tickets is already used. */
module Evaluator {
  import opened Sorting

  /** A float64 score without NaN and plus infinity; `NegInf` stands for a missing criterion. */
  datatype Score = NegInf | Finite(value: real) {
    predicate Above(other: Score) {
      Finite? && (other.NegInf? || value > other.value)
    }
  }

  /** What the "evaluation_input" extension of a match holds. */
  datatype Criteria = Absent | Undecodable | Provided(score: Score)

  datatype Match = Match(id: string, tickets: seq<string>, criteria: Criteria)

  datatype MatchExt = MatchExt(proposal: Match, score: Score) {
    ghost function Tickets(): set<string> {
      set t | t in proposal.tickets
    }
  }

  predicate ByScore(x: MatchExt, y: MatchExt) {
    x.score.Above(y.score)
  }

  ghost predicate Collide(x: MatchExt, y: MatchExt) {
    x.Tickets() * y.Tickets() != {}
  }

  /** The proposals that take part in the evaluation, each with its score. */
  function Decoded(proposals: seq<Match>): seq<MatchExt> {
    if proposals == [] then []
    else
      var m := proposals[|proposals| - 1];
      var before := Decoded(proposals[..|proposals| - 1]);
      match m.criteria
      case Absent => before + [MatchExt(m, NegInf)]
      case Undecodable => before
      case Provided(score) => before + [MatchExt(m, score)]
  }

  /** A missing criterion scores below every provided one. */
  function ScoreOf(m: Match): Score
    requires !m.criteria.Undecodable?
  {
    if m.criteria.Provided? then m.criteria.score else NegInf
  }

  /** The positions, in order, of the proposals that take part: all whose criterion can be decoded. */
  ghost predicate Participates(proposals: seq<Match>, at: seq<nat>) {
    && (forall k :: 0 <= k < |at| ==> at[k] < |proposals|)
    && (forall j, k :: 0 <= j < k < |at| ==> at[j] < at[k])
    && (forall i: nat :: i in at <==> i < |proposals| && !proposals[i].criteria.Undecodable?)
  }

  /** Entry k is the proposal at position at[k], with its score. */
  ghost predicate DecodedAt(proposals: seq<Match>, at: seq<nat>, matches: seq<MatchExt>) {
    && Participates(proposals, at) && |matches| == |at|
    && forall k :: 0 <= k < |matches| ==>
         at[k] < |proposals| && !proposals[at[k]].criteria.Undecodable? &&
         matches[k] == MatchExt(proposals[at[k]], ScoreOf(proposals[at[k]]))
  }

  /** What one walk over `order` accepts when the tickets in `used` are taken beforehand. */
  ghost function Greedy(order: seq<MatchExt>, used: set<string>): seq<MatchExt> {
    if order == [] then []
    else if order[0].Tickets() * used != {} then Greedy(order[1..], used)
    else [order[0]] + Greedy(order[1..], used + order[0].Tickets())
  }

  function Proposals(ms: seq<MatchExt>): seq<Match> {
    seq(|ms|, i requires 0 <= i < |ms| => ms[i].proposal)
  }

  ghost function UsedBy(ms: seq<MatchExt>): set<string> {
    set i, t | 0 <= i < |ms| && t in ms[i].proposal.tickets :: t
  }

  /** An order in which `sort.Sort` may leave the decoded proposals. */
  ghost predicate SortedOrder(order: seq<MatchExt>, ms: seq<MatchExt>) {
    Sorted(ByScore, order) && multiset(order) == multiset(ms)
  }

  datatype CollidingMatch = CollidingMatch(id: string, score: Score)

  /** `used` holds exactly the tickets of `ms`, each with the id and score of a match it is in. */
  ghost predicate Indexes(used: map<string, CollidingMatch>, ms: seq<MatchExt>) {
    && used.Keys == UsedBy(ms)
    && forall i, t :: 0 <= i < |ms| && t in ms[i].proposal.tickets ==>
         t in used && used[t] == CollidingMatch(ms[i].proposal.id, ms[i].score)
  }

  ghost predicate PairwiseDisjoint(ms: seq<MatchExt>) {
    forall i, j :: 0 <= i < j < |ms| ==> !Collide(ms[i], ms[j])
  }

  class Decollider {
    var results: seq<Match>
    var ticketsUsed: map<string, CollidingMatch>
    ghost var accepted: seq<MatchExt>

    ghost predicate Valid()
      reads this
    {
      results == Proposals(accepted) && Indexes(ticketsUsed, accepted) && PairwiseDisjoint(accepted)
    }

    constructor ()
      ensures Valid() && accepted == []
    {
      results, ticketsUsed, accepted := [], map[], [];
    }

    method MaybeAdd(m: MatchExt)
      requires Valid()
      modifies this
      ensures Valid()
      ensures accepted == old(accepted) + Greedy([m], UsedBy(old(accepted)))
    {
      var tickets := m.proposal.tickets;
      for i := 0 to |tickets|
        invariant forall k :: 0 <= k < i ==> tickets[k] !in ticketsUsed
      {
        if tickets[i] in ticketsUsed {
          assert tickets[i] in m.Tickets() * UsedBy(accepted);
          return;
        }
      }
      assert m.Tickets() * UsedBy(accepted) == {};
      MarkUsed(m);
      results := results + [m.proposal];
      accepted := accepted + [m];
    }

    method MarkUsed(m: MatchExt)
      requires Indexes(ticketsUsed, accepted) && m.Tickets() * UsedBy(accepted) == {}
      modifies `ticketsUsed
      ensures Indexes(ticketsUsed, accepted + [m])
      ensures PairwiseDisjoint(accepted) ==> PairwiseDisjoint(accepted + [m])
    {
      var tickets := m.proposal.tickets;
      var entry := CollidingMatch(m.proposal.id, m.score);
      for i := 0 to |tickets|
        invariant Overwritten(old(ticketsUsed), tickets[..i], entry, ticketsUsed)
      {
        assert tickets[..i + 1] == tickets[..i] + [tickets[i]];
        ticketsUsed := ticketsUsed[tickets[i] := entry];
      }
      assert tickets[..|tickets|] == tickets;
      IndexesSnoc(old(ticketsUsed), accepted, m, ticketsUsed);
    }
  }

  ghost predicate Overwritten<V>(before: map<string, V>, keys: seq<string>, value: V, after: map<string, V>) {
    && (forall k :: k in after <==> k in before || k in keys)
    && (forall k :: k in after ==> after[k] == if k in keys then value else before[k])
  }

  lemma IndexesSnoc(used: map<string, CollidingMatch>, ms: seq<MatchExt>, m: MatchExt,
                    used': map<string, CollidingMatch>)
    requires Indexes(used, ms) && m.Tickets() * UsedBy(ms) == {}
    requires Overwritten(used, m.proposal.tickets, CollidingMatch(m.proposal.id, m.score), used')
    ensures Indexes(used', ms + [m])
    ensures PairwiseDisjoint(ms) ==> PairwiseDisjoint(ms + [m])
  {
    UsedBySnoc(ms, m);
    forall i, t | 0 <= i < |ms| && t in ms[i].proposal.tickets ensures t !in m.Tickets() {
      assert t in UsedBy(ms);
      assert t !in m.Tickets() * UsedBy(ms);
    }
  }

  lemma UsedBySnoc(ms: seq<MatchExt>, m: MatchExt)
    ensures UsedBy(ms + [m]) == UsedBy(ms) + m.Tickets()
  {
    var all := ms + [m];
    forall t | t in UsedBy(ms) + m.Tickets() ensures t in UsedBy(all) {
      if t in m.Tickets() {
        assert t in all[|ms|].proposal.tickets;
      } else {
        var i :| 0 <= i < |ms| && t in ms[i].proposal.tickets;
        assert t in all[i].proposal.tickets;
      }
    }
  }

  lemma DecodedNext(proposals: seq<Match>, at: seq<nat>, matches: seq<MatchExt>, at': seq<nat>, matches': seq<MatchExt>)
    requires proposals != [] && DecodedAt(proposals[..|proposals| - 1], at, matches)
    requires var m, n := proposals[|proposals| - 1], |proposals| - 1;
             if m.criteria.Undecodable? then at' == at && matches' == matches
             else at' == at + [n] && matches' == matches + [MatchExt(m, ScoreOf(m))]
    ensures DecodedAt(proposals, at', matches')
  {
    var n := |proposals| - 1;
    forall i: nat ensures i in at' <==> i < n + 1 && !proposals[i].criteria.Undecodable? {
      assert i in at <==> i < n && !proposals[..n][i].criteria.Undecodable?;
    }
    forall k | 0 <= k < |at| ensures at'[k] == at[k] < n {
    }
  }

  lemma DecodedLast(proposals: seq<Match>)
    requires proposals != []
    ensures var m, n := proposals[|proposals| - 1], |proposals| - 1;
            Decoded(proposals) ==
            if m.criteria.Undecodable? then Decoded(proposals[..n]) else Decoded(proposals[..n]) + [MatchExt(m, ScoreOf(m))]
  {
  }

  /** Decoding keeps every proposal whose criterion is missing or can be decoded, in order and as often as
      it is proposed, and gives it its score. */
  lemma {:induction false} DecodedPositions(proposals: seq<Match>) returns (at: seq<nat>)
    ensures DecodedAt(proposals, at, Decoded(proposals))
  {
    at := [];
    if proposals != [] {
      var n := |proposals| - 1;
      var before := DecodedPositions(proposals[..n]);
      at := if proposals[n].criteria.Undecodable? then before else before + [n];
      DecodedLast(proposals);
      DecodedNext(proposals, before, Decoded(proposals[..n]), at, Decoded(proposals));
    }
  }

  method Decode(proposals: seq<Match>) returns (matches: seq<MatchExt>)
    ensures matches == Decoded(proposals) && exists at :: DecodedAt(proposals, at, matches)
  {
    matches := [];
    for i := 0 to |proposals|
      invariant matches == Decoded(proposals[..i])
    {
      var m := proposals[i];
      assert proposals[..i + 1][..i] == proposals[..i];
      match m.criteria
      case Absent => matches := matches + [MatchExt(m, NegInf)];
      case Undecodable =>
      case Provided(score) => matches := matches + [MatchExt(m, score)];
    }
    assert proposals[..|proposals|] == proposals;
    ghost var at := DecodedPositions(proposals);
  }

  /** The walk over the sorted matches. */
  method Decollide(order: array<MatchExt>) returns (results: seq<Match>)
    ensures results == Proposals(Greedy(order[..], {}))
  {
    var d := new Decollider();
    ghost var all := order[..];
    assert UsedBy([]) == {};
    for i := 0 to order.Length
      invariant d.Valid() && fresh(d)
      invariant d.accepted + Greedy(all[i..], UsedBy(d.accepted)) == Greedy(all, {})
    {
      GreedyStep(all[i..], d.accepted);
      d.MaybeAdd(order[i]);
      assert all[i..][1..] == all[i + 1..];
    }
    results := d.results;
    assert d.accepted == Greedy(all, {});
  }

  /** The results are those of one walk over some order in which `sort.Sort` may leave the proposals. */
  method Evaluate(proposals: seq<Match>) returns (results: seq<Match>)
    ensures exists order :: SortedOrder(order, Decoded(proposals)) && results == Proposals(Greedy(order, {}))
  {
    var matches := Decode(proposals);
    var byScore := new MatchExt[|matches|](i requires 0 <= i < |matches| => matches[i]);
    assert byScore[..] == matches;
    Sort(byScore, ByScore);
    results := Decollide(byScore);
  }

  lemma GreedySingle(m: MatchExt, used: set<string>)
    ensures Greedy([m], used) == if m.Tickets() * used != {} then [] else [m]
  {
    assert [m][1..] == [];
  }

  lemma GreedyStep(order: seq<MatchExt>, taken: seq<MatchExt>)
    requires order != []
    ensures var taken' := taken + Greedy([order[0]], UsedBy(taken));
            taken + Greedy(order, UsedBy(taken)) == taken' + Greedy(order[1..], UsedBy(taken'))
  {
    var m := order[0];
    GreedySingle(m, UsedBy(taken));
    UsedBySnoc(taken, m);
    Reassociate(taken, m, Greedy(order[1..], UsedBy(taken) + m.Tickets()));
    assert taken + [] == taken;
  }

  lemma Reassociate<T>(s: seq<T>, x: T, r: seq<T>)
    ensures s + ([x] + r) == s + [x] + r
  {
  }
}
