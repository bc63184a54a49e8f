/** Greedy selection by score is a k-approximation of the best set of ticket-disjoint matches when
    no match has more than k distinct tickets.  A set of matches is given by their positions in the
    sorted order. */
module EvaluatorBound {
  import opened Sorting
  import opened Evaluator
  import opened EvaluatorOrder

  /** The score of a match, or 0 when it is missing or negative. */
  ghost function Weight(m: MatchExt): (r: real)
    ensures r >= 0.0
  {
    if m.score.Finite? && m.score.value >= 0.0 then m.score.value else 0.0
  }

  /** k times x, as a sum. */
  ghost function Scale(k: nat, x: real): real {
    if k == 0 then 0.0 else x + Scale(k - 1, x)
  }

  lemma {:induction false} ScaleIsProduct(k: nat, x: real)
    ensures Scale(k, x) == k as real * x
  {
    if k > 0 {
      ScaleIsProduct(k - 1, x);
      assert k as real * x == (k - 1) as real * x + x;
    }
  }

  lemma {:induction false} ScaleGrows(n: nat, k: nat, x: real)
    requires n <= k && x >= 0.0
    ensures 0.0 <= Scale(n, x) <= Scale(k, x)
  {
    if n < k {
      ScaleGrows(n, k - 1, x);
    } else if n > 0 {
      ScaleGrows(n - 1, k - 1, x);
    }
  }

  lemma {:induction false} ScaleAdds(k: nat, x: real, y: real)
    ensures Scale(k, x + y) == Scale(k, x) + Scale(k, y)
  {
    if k > 0 {
      ScaleAdds(k - 1, x, y);
    }
  }

  /** The total weight of the positions in `s`, from lo on. */
  ghost function Total(order: seq<MatchExt>, s: set<nat>, lo: nat): real
    requires lo <= |order|
    decreases |order| - lo
  {
    if lo == |order| then 0.0
    else (if lo in s then Weight(order[lo]) else 0.0) + Total(order, s, lo + 1)
  }

  ghost predicate DisjointPositions(order: seq<MatchExt>, s: set<nat>) {
    forall j, l :: j in s && l in s && j < l < |order| ==> !Collide(order[j], order[l])
  }

  /** The positions in s whose match has no ticket in `used`. */
  ghost function Free(order: seq<MatchExt>, s: set<nat>, used: set<string>): set<nat> {
    set j | j in s && j < |order| && order[j].Tickets() * used == {}
  }

  /** The positions in s whose match has a ticket in `taken`. */
  ghost function Hit(order: seq<MatchExt>, s: set<nat>, taken: set<string>): set<nat> {
    set j | j in s && j < |order| && order[j].Tickets() * taken != {}
  }

  lemma {:induction false} TotalSplits(order: seq<MatchExt>, s: set<nat>, a: set<nat>, b: set<nat>, lo: nat)
    requires lo <= |order|
    requires forall j :: lo <= j < |order| ==> (j in s <==> j in a || j in b) && !(j in a && j in b)
    ensures Total(order, s, lo) == Total(order, a, lo) + Total(order, b, lo)
    decreases |order| - lo
  {
    if lo < |order| {
      TotalSplits(order, s, a, b, lo + 1);
    }
  }

  lemma {:induction false} TotalOfNone(order: seq<MatchExt>, s: set<nat>, lo: nat)
    requires lo <= |order| && forall j :: lo <= j < |order| ==> j !in s
    ensures Total(order, s, lo) == 0.0
    decreases |order| - lo
  {
    if lo < |order| {
      TotalOfNone(order, s, lo + 1);
    }
  }

  lemma {:induction false} TotalSame(order: seq<MatchExt>, s: set<nat>, s': set<nat>, lo: nat)
    requires lo <= |order| && forall j :: lo <= j < |order| ==> (j in s <==> j in s')
    ensures Total(order, s, lo) == Total(order, s', lo)
    decreases |order| - lo
  {
    if lo < |order| {
      TotalSame(order, s, s', lo + 1);
    }
  }

  lemma HitWithout(order: seq<MatchExt>, s: set<nat>, taken: set<string>, t: string, lo: nat)
    requires lo < |order| && lo in s && DisjointPositions(order, s) && t in order[lo].Tickets()
    ensures forall j :: lo < j < |order| ==> (j in Hit(order, s, taken) <==> j in Hit(order, s, taken - {t}))
  {
    forall j | lo < j < |order| && j in s
      ensures order[j].Tickets() * taken == order[j].Tickets() * (taken - {t})
    {
      assert !Collide(order[lo], order[j]);
      assert t !in order[lo].Tickets() * order[j].Tickets();
    }
  }

  lemma TotalStep(order: seq<MatchExt>, s: set<nat>, lo: nat)
    requires lo < |order|
    ensures Total(order, s, lo) == (if lo in s then Weight(order[lo]) else 0.0) + Total(order, s, lo + 1)
  {
  }

  lemma ScaleWithout(taken: set<string>, t: string, x: real)
    requires t in taken
    ensures Scale(|taken|, x) == Scale(|taken - {t}|, x) + x
  {
    assert |taken| == |taken - {t}| + 1;
  }

  /** Disjoint matches that each hold a ticket of `taken` are at most as many as its tickets. */
  lemma {:induction false} HitIsBounded(order: seq<MatchExt>, s: set<nat>, taken: set<string>, top: real, lo: nat, total: real)
    requires lo <= |order| && DisjointPositions(order, s) && top >= 0.0
    requires forall j :: lo <= j < |order| ==> Weight(order[j]) <= top
    requires total == Total(order, Hit(order, s, taken), lo)
    ensures total <= Scale(|taken|, top)
    decreases |order| - lo
  {
    if lo == |order| {
      ScaleGrows(0, |taken|, top);
    } else {
      var hit := Hit(order, s, taken);
      var rest := Total(order, hit, lo + 1);
      TotalStep(order, hit, lo);
      if lo in hit {
        var t :| t in order[lo].Tickets() * taken;
        HitWithout(order, s, taken, t, lo);
        TotalSame(order, hit, Hit(order, s, taken - {t}), lo + 1);
        HitIsBounded(order, s, taken - {t}, top, lo + 1, rest);
        ScaleWithout(taken, t, top);
      } else {
        HitIsBounded(order, s, taken, top, lo + 1, rest);
      }
    }
  }

  /** The tickets of the positions accepted before lo. */
  ghost function UsedBefore(order: seq<MatchExt>, lo: nat): set<string>
    requires lo <= |order|
  {
    UsedBy(Chosen(order, lo))
  }

  lemma UsedStep(order: seq<MatchExt>, lo: nat)
    requires lo < |order|
    ensures Accepted(order, lo) <==> order[lo].Tickets() * UsedBefore(order, lo) == {}
    ensures UsedBefore(order, lo + 1) ==
            if Accepted(order, lo) then UsedBefore(order, lo) + order[lo].Tickets() else UsedBefore(order, lo)
  {
    AcceptedIffFree(order, lo);
    UsedBySnoc(Chosen(order, lo), order[lo]);
    assert Chosen(order, lo) + [] == Chosen(order, lo);
  }

  /** What position lo, once accepted, takes away from s beyond lo is worth at most k times its own
      weight, and nothing at all when it is in s itself. */
  lemma Displaced(order: seq<MatchExt>, s: set<nat>, k: nat, lo: nat)
    requires lo < |order| && Sorted(ByScore, order) && DisjointPositions(order, s)
    requires k >= 1 && |order[lo].Tickets()| <= k
    ensures (if lo in s then Weight(order[lo]) else 0.0) + Total(order, Hit(order, s, order[lo].Tickets()), lo + 1)
            <= Scale(k, Weight(order[lo]))
  {
    var t := order[lo].Tickets();
    if lo in s {
      forall j | lo < j < |order| && j in s ensures order[j].Tickets() * t == {} {
        assert !Collide(order[lo], order[j]);
        assert order[j].Tickets() * t == t * order[j].Tickets();
      }
      TotalOfNone(order, Hit(order, s, t), lo + 1);
      ScaleGrows(1, k, Weight(order[lo]));
    } else {
      forall j | lo < j < |order| ensures Weight(order[j]) <= Weight(order[lo]) {
        assert !ByScore(order[j], order[lo]);
      }
      HitIsBounded(order, s, t, Weight(order[lo]), lo + 1, Total(order, Hit(order, s, t), lo + 1));
      ScaleGrows(|t|, k, Weight(order[lo]));
    }
  }

  lemma FreeSplits(order: seq<MatchExt>, s: set<nat>, used: set<string>, taken: set<string>, lo: nat)
    requires lo <= |order|
    ensures Total(order, Free(order, s, used), lo) <=
            Total(order, Free(order, s, used + taken), lo) + Total(order, Hit(order, s, taken), lo)
  {
    var a, b := Free(order, s, used + taken), Hit(order, Free(order, s, used), taken);
    forall j | lo <= j < |order| ensures (j in Free(order, s, used) <==> j in a || j in b) && !(j in a && j in b) {
      assert order[j].Tickets() * (used + taken) == order[j].Tickets() * used + order[j].Tickets() * taken;
    }
    TotalSplits(order, Free(order, s, used), a, b, lo);
    TotalGrows(order, b, Hit(order, s, taken), lo);
  }

  lemma {:induction false} TotalGrows(order: seq<MatchExt>, a: set<nat>, b: set<nat>, lo: nat)
    requires lo <= |order| && forall j :: lo <= j < |order| && j in a ==> j in b
    ensures Total(order, a, lo) <= Total(order, b, lo)
    decreases |order| - lo
  {
    if lo < |order| {
      TotalGrows(order, a, b, lo + 1);
    }
  }

  lemma Charge(k: nat, w: real, tail: real, displaced: real, free: real)
    requires displaced <= Scale(k, w) && free <= Scale(k, tail)
    ensures displaced + free <= Scale(k, w + tail)
  {
    ScaleAdds(k, w, tail);
  }

  ghost predicate Bounded(order: seq<MatchExt>, s: set<nat>, k: nat) {
    && Sorted(ByScore, order) && DisjointPositions(order, s)
    && k >= 1 && forall j :: 0 <= j < |order| ==> |order[j].Tickets()| <= k
  }

  lemma AcceptedPays(order: seq<MatchExt>, s: set<nat>, k: nat, lo: nat, used: set<string>, tail: real, worth: real)
    requires lo < |order| && Bounded(order, s, k) && order[lo].Tickets() * used == {}
    requires worth == Weight(order[lo]) + tail
    requires Total(order, Free(order, s, used + order[lo].Tickets()), lo + 1) <= Scale(k, tail)
    ensures Total(order, Free(order, s, used), lo) <= Scale(k, worth)
  {
    var w, t := Weight(order[lo]), order[lo].Tickets();
    TotalStep(order, Free(order, s, used), lo);
    FreeSplits(order, s, used, t, lo + 1);
    Displaced(order, s, k, lo);
    Charge(k, w, tail, (if lo in s then w else 0.0) + Total(order, Hit(order, s, t), lo + 1),
           Total(order, Free(order, s, used + t), lo + 1));
  }

  lemma RejectedIsNotFree(order: seq<MatchExt>, s: set<nat>, lo: nat, used: set<string>)
    requires lo < |order| && order[lo].Tickets() * used != {}
    ensures Total(order, Free(order, s, used), lo) == Total(order, Free(order, s, used), lo + 1)
  {
  }

  lemma NothingLeft(order: seq<MatchExt>, s: set<nat>, k: nat)
    ensures Total(order, s, |order|) <= Scale(k, 0.0)
  {
    ScaleGrows(0, k, 0.0);
  }

  /** `used[i]` are the tickets of the positions in `acc` before i, and `acc` are those that share none with them. */
  ghost predicate IsWalk(order: seq<MatchExt>, acc: set<nat>, used: seq<set<string>>) {
    && |used| == |order| + 1
    && forall i :: 0 <= i < |order| ==>
         && (i in acc <==> order[i].Tickets() * used[i] == {})
         && used[i + 1] == if i in acc then used[i] + order[i].Tickets() else used[i]
  }

  ghost function UsedAlong(order: seq<MatchExt>): seq<set<string>> {
    seq(|order| + 1, i requires 0 <= i <= |order| => UsedBefore(order, i))
  }

  lemma AcceptedIsWalk(order: seq<MatchExt>)
    ensures IsWalk(order, AcceptedPositions(order), UsedAlong(order)) && UsedAlong(order)[0] == {}
  {
    forall i | 0 <= i < |order|
      ensures Accepted(order, i) <==> order[i].Tickets() * UsedBefore(order, i) == {}
      ensures UsedBefore(order, i + 1) ==
              if Accepted(order, i) then UsedBefore(order, i) + order[i].Tickets() else UsedBefore(order, i)
    {
      UsedStep(order, i);
    }
    assert UsedBy([]) == {};
  }

  /** Charging: every match still free when the walk reaches lo is paid for by an acceptance from lo on. */
  lemma {:induction false} BoundFrom(order: seq<MatchExt>, acc: set<nat>, used: seq<set<string>>, s: set<nat>, k: nat, lo: nat,
                                     worth: real)
    requires IsWalk(order, acc, used) && lo <= |order| && Bounded(order, s, k) && worth == Total(order, acc, lo)
    ensures Total(order, Free(order, s, used[lo]), lo) <= Scale(k, worth)
    decreases |order| - lo
  {
    if lo == |order| {
      NothingLeft(order, Free(order, s, used[lo]), k);
    } else {
      var tail := Total(order, acc, lo + 1);
      TotalStep(order, acc, lo);
      BoundFrom(order, acc, used, s, k, lo + 1, tail);
      if lo in acc {
        AcceptedPays(order, s, k, lo, used[lo], tail, worth);
      } else {
        RejectedIsNotFree(order, s, lo, used[lo]);
      }
    }
  }

  /** No set of ticket-disjoint positions is worth more than k times what the evaluator accepts, in
      whatever order the sort left the decoded proposals `ms`. */
  lemma GreedyIsWithinFactorK(ms: seq<MatchExt>, order: seq<MatchExt>, s: set<nat>, k: nat, worth: real)
    requires SortedOrder(order, ms) && DisjointPositions(order, s)
    requires k >= 1 && forall m :: m in ms ==> |m.Tickets()| <= k
    requires worth == Sum(Greedy(order, {}))
    ensures Total(order, s, 0) <= k as real * worth
  {
    forall j | 0 <= j < |order| ensures |order[j].Tickets()| <= k {
      assert order[j] in multiset(order) && order[j] in multiset(ms);
    }
    AcceptedWorth(order);
    AcceptedIsWalk(order);
    BoundFrom(order, AcceptedPositions(order), UsedAlong(order), s, k, 0, worth);
    TotalSame(order, s, Free(order, s, {}), 0);
    ScaleIsProduct(k, worth);
  }

  ghost function Sum(ms: seq<MatchExt>): real {
    if ms == [] then 0.0 else Sum(ms[..|ms| - 1]) + Weight(ms[|ms| - 1])
  }

  lemma SumSnoc(ms: seq<MatchExt>, m: MatchExt)
    ensures Sum(ms + [m]) == Sum(ms) + Weight(m)
  {
    assert (ms + [m])[..|ms|] == ms;
  }

  lemma SumOfNext(order: seq<MatchExt>, n: nat)
    requires n < |order|
    ensures Sum(Chosen(order, n + 1)) == Sum(Chosen(order, n)) + if Accepted(order, n) then Weight(order[n]) else 0.0
  {
    SumSnoc(Chosen(order, n), order[n]);
    assert Chosen(order, n) + [] == Chosen(order, n);
  }

  lemma {:induction false} SumOfChosen(order: seq<MatchExt>, n: nat, rest: real)
    requires n <= |order| && rest == Total(order, AcceptedPositions(order), n)
    ensures Sum(Chosen(order, n)) + rest == Total(order, AcceptedPositions(order), 0)
  {
    if n > 0 {
      TotalStep(order, AcceptedPositions(order), n - 1);
      SumOfNext(order, n - 1);
      SumOfChosen(order, n - 1, Total(order, AcceptedPositions(order), n - 1));
    }
  }

  /** The accepted positions weigh exactly what the accepted matches do. */
  lemma AcceptedWorth(order: seq<MatchExt>)
    ensures Sum(Greedy(order, {})) == Total(order, AcceptedPositions(order), 0)
  {
    GreedyIsChosen(order);
    SumOfChosen(order, |order|, 0.0);
  }
}
