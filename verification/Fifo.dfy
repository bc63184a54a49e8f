/** The first-in-first-out matchmaking function (v2/examples/mmf/functions/fifo/fifo.go): tickets are
    dealt in turn to the rosters of one match after another. */
module Fifo {
  import opened Options

  type Ticket = string

  const MAX_INT32: nat := 0x7fff_ffff

  /** A match streamed to om-core.  `backfill` is the desiredRosterLen of the attached backfill request.
      Every match also gets the request's own extensions, and with them the template for backfill requests,
      under the key of a backfill request; its profile has no name, so the director takes it for none, and
      so does `None`. */
  datatype Match = Match(rosters: seq<seq<Ticket>>, score: int, backfill: Option<int>)

  // -------------------------------------------------------------------------- specification

  /** How many of `count` tickets dealt in turn to n rosters land on roster r. */
  function Slots(count: nat, n: nat, r: nat): nat
    requires n > 0
  {
    count / n + if r < count % n then 1 else 0
  }

  /** Slot j of roster r, of n, holds the ticket at position j*n + r of those dealt. */
  function Roster(dealt: seq<Ticket>, n: nat, r: nat): seq<Ticket>
    requires n > 0 && r < n
  {
    seq(Slots(|dealt|, n, r), j requires 0 <= j < Slots(|dealt|, n, r) =>
      SlotInRange(|dealt|, n, r, j); dealt[j * n + r])
  }

  lemma SlotInRange(count: nat, n: nat, r: nat, j: nat)
    requires r < n
    ensures j < Slots(count, n, r) <==> j * n + r < count
  {
    var q, s := count / n, count % n;
    assert count == q * n + s;
    if j < q {
      assert (j + 1) * n <= q * n;
      assert (j + 1) * n == j * n + n;
    } else if j > q {
      assert (q + 1) * n <= j * n;
      assert (q + 1) * n == q * n + n;
    }
  }

  function Packed(dealt: seq<Ticket>, n: nat): seq<seq<Ticket>>
    requires n > 0
  {
    seq(n, r requires 0 <= r < n => Roster(dealt, n, r))
  }

  /** How many of `count` tickets go into the next match of capacity `cap`. */
  function Taken(count: nat, cap: nat): nat {
    if count < cap then count else cap
  }

  /** How the tickets are cut into matches of capacity `cap` while more than `floor` are left. */
  function Deals(tickets: seq<Ticket>, cap: nat, floor: nat): seq<seq<Ticket>>
    requires cap > 0
  {
    if |tickets| <= floor then []
    else
      var taken := Taken(|tickets|, cap);
      [tickets[..taken]] + Deals(tickets[taken..], cap, floor)
  }

  lemma Positive(x: nat, y: nat)
    requires x > 0 && y > 0
    ensures x * y > 0
  {
  }

  /** The capacity of a match: n rosters of length len. */
  function Capacity(n: nat, len: nat): (cap: nat)
    requires n > 0 && len > 0
    ensures cap == len * n && cap > 0
  {
    Positive(len, n);
    len * n
  }

  function MatchOf(dealt: seq<Ticket>, n: nat, len: nat): Match
    requires n > 0 && len > 0
  {
    if |dealt| < Capacity(n, len)
    then Match(Packed(dealt, n), 25, Some(len - |dealt| / n))
    else Match(Packed(dealt, n), 100, None)
  }

  /** The matches offered for sending: an under-filled one only if a backfill request can be made. */
  function Offered(deals: seq<seq<Ticket>>, n: nat, len: nat, canBackfill: bool): (ms: seq<Match>)
    requires n > 0 && len > 0
    ensures forall k :: 0 <= k < |ms| ==> |ms[k].rosters| == n
  {
    if deals == [] then []
    else
      (if |deals[0]| < Capacity(n, len) && !canBackfill then [] else [MatchOf(deals[0], n, len)]) +
      Offered(deals[1..], n, len, canBackfill)
  }

  /** Everything one run offers om-core for the given tickets. */
  function Matches(tickets: seq<Ticket>, n: nat, len: nat, min: nat, canBackfill: bool): (ms: seq<Match>)
    requires n > 0 && len > 0
    ensures forall k :: 0 <= k < |ms| ==> |ms[k].rosters| == n
  {
    Offered(Deals(tickets, Capacity(n, len), min * n), n, len, canBackfill)
  }

  function Concat(pools: seq<seq<Ticket>>): seq<Ticket> {
    if pools == [] then [] else Concat(pools[..|pools| - 1]) + pools[|pools| - 1]
  }

  // ------------------------------------------------------------------------------ the code

  method LowestRosterLen(rosters: seq<seq<Ticket>>) returns (length: nat)
    ensures length <= MAX_INT32
    ensures forall r :: 0 <= r < |rosters| ==> length <= |rosters[r]|
    ensures length < MAX_INT32 ==> exists r :: 0 <= r < |rosters| && |rosters[r]| == length
  {
    length := MAX_INT32;
    for i := 0 to |rosters|
      invariant length <= MAX_INT32
      invariant forall r :: 0 <= r < i ==> length <= |rosters[r]|
      invariant length < MAX_INT32 ==> exists r :: 0 <= r < i && |rosters[r]| == length
    {
      if |rosters[i]| < length {
        length := |rosters[i]|;
      }
    }
  }

  /** True when some roster has fewer than `length` tickets; the source's comment says all. */
  method RosterLengthsLessThan(rosters: seq<seq<Ticket>>, length: nat) returns (b: bool)
    requires length <= MAX_INT32
    ensures b <==> exists r :: 0 <= r < |rosters| && |rosters[r]| < length
  {
    var lowest := LowestRosterLen(rosters);
    b := lowest < length;
  }

  method CollectTickets(pools: seq<seq<Ticket>>) returns (tickets: seq<Ticket>)
    ensures tickets == Concat(pools)
  {
    tickets := [];
    for p := 0 to |pools|
      invariant tickets == Concat(pools[..p])
    {
      ghost var before := tickets;
      for i := 0 to |pools[p]|
        invariant tickets == before + pools[p][..i]
      {
        tickets := tickets + [pools[p][i]];
      }
      assert pools[..p + 1][..p] == pools[..p];
      assert pools[p][..|pools[p]|] == pools[p];
    }
    assert pools[..|pools|] == pools;
  }

  /** The inner loop: deal tickets in turn until every roster is full or the tickets run out. */
  method FillRosters(tickets: seq<Ticket>, n: nat, len: nat)
    returns (rosters: seq<seq<Ticket>>, rest: seq<Ticket>)
    requires n > 0 && 0 < len <= MAX_INT32 && tickets != []
    ensures var taken := Taken(|tickets|, Capacity(n, len));
            rosters == Packed(tickets[..taken], n) && rest == tickets[taken..]
  {
    rosters := seq(n, r => []);
    rest := tickets;
    var tixCount := 0;
    var cap := Capacity(n, len);
    assert rosters == Packed([], n);
    while |rest| > 0
      invariant tixCount <= |tickets| && tixCount < cap
      invariant rest == tickets[tixCount..]
      invariant rosters == Packed(tickets[..tixCount], n)
      decreases |rest|
    {
      var cur := tixCount % n;
      rosters := rosters[cur := rosters[cur] + [rest[0]]];
      DealNext(tickets[..tixCount], rest[0], n);
      assert tickets[..tixCount + 1] == tickets[..tixCount] + [rest[0]];
      rest := rest[1..];
      var unfilled := RosterLengthsLessThan(rosters, len);
      UnfilledIffFewer(tickets[..tixCount + 1], n, len);
      if !unfilled {
        return;
      }
      tixCount := tixCount + 1;
    }
  }

  lemma DealNext(dealt: seq<Ticket>, t: Ticket, n: nat)
    requires n > 0
    ensures Packed(dealt + [t], n) ==
            Packed(dealt, n)[|dealt| % n := Packed(dealt, n)[|dealt| % n] + [t]]
  {
    var c := |dealt|;
    var after := dealt + [t];
    NextSlot(c, n);
    forall r | 0 <= r < n
      ensures Roster(after, n, r) == if r == c % n then Roster(dealt, n, r) + [t] else Roster(dealt, n, r)
    {
      forall j | 0 <= j < Slots(c, n, r) ensures j * n + r < c && after[j * n + r] == dealt[j * n + r] {
        SlotInRange(c, n, r, j);
      }
      if r == c % n {
        assert (c / n) * n + r == c;
      }
    }
  }

  lemma NextSlot(c: nat, n: nat)
    requires n > 0
    ensures forall r :: 0 <= r < n ==> Slots(c + 1, n, r) == Slots(c, n, r) + if r == c % n then 1 else 0
  {
    var q, s := c / n, c % n;
    assert c == q * n + s;
    if s + 1 < n {
      DivMod(c + 1, n, q, s + 1);
    } else {
      assert (q + 1) * n == q * n + n;
      DivMod(c + 1, n, q + 1, 0);
    }
  }

  lemma SmallMultiple(d: int, n: int)
    requires -n < d * n < n
    ensures d == 0
  {
  }

  lemma DivMod(c: nat, n: nat, q: nat, s: nat)
    requires c == q * n + s && s < n
    ensures c / n == q && c % n == s
  {
    assert c == (c / n) * n + c % n;
    assert (c / n - q) * n == (c / n) * n - q * n;
    SmallMultiple(c / n - q, n);
  }

  lemma FewerRounds(c: nat, n: nat, len: nat)
    requires n > 0
    ensures c / n < len <==> c < len * n
  {
    var q := c / n;
    assert c == q * n + c % n;
    if q < len {
      Multiples(q + 1, len, n);
      assert (q + 1) * n == q * n + n;
    } else {
      Multiples(len, q, n);
    }
  }

  lemma Multiples(a: nat, b: nat, n: nat)
    requires a <= b
    ensures a * n <= b * n
  {
  }

  lemma UnfilledIffFewer(dealt: seq<Ticket>, n: nat, len: nat)
    requires n > 0
    ensures (exists r :: 0 <= r < n && |Packed(dealt, n)[r]| < len) <==> |dealt| < len * n
  {
    FewerRounds(|dealt|, n, len);
    assert |Packed(dealt, n)[n - 1]| == Slots(|dealt|, n, n - 1) == |dealt| / n;
    assert forall r :: 0 <= r < n ==> |Packed(dealt, n)[r]| == Slots(|dealt|, n, r) >= |dealt| / n;
  }

  /** One match of the outer loop; None when it must be dropped for want of a backfill request. */
  method BuildMatch(tickets: seq<Ticket>, n: nat, len: nat, canBackfill: bool)
    returns (out: Option<Match>, rest: seq<Ticket>)
    requires n > 0 && 0 < len <= MAX_INT32 && tickets != []
    ensures var taken := Taken(|tickets|, Capacity(n, len));
            && rest == tickets[taken..]
            && out == if taken < Capacity(n, len) && !canBackfill then None
                      else Some(MatchOf(tickets[..taken], n, len))
  {
    var rosters;
    rosters, rest := FillRosters(tickets, n, len);
    ghost var dealt := tickets[..Taken(|tickets|, Capacity(n, len))];
    UnfilledIffFewer(dealt, n, len);
    var unfilled := RosterLengthsLessThan(rosters, len);
    if unfilled {
      var lowest := LowestRosterLen(rosters);
      LowestIs(dealt, n, len, lowest);
      if !canBackfill {
        return None, rest;
      }
      out := Some(Match(rosters, 25, Some(len - lowest)));
    } else {
      out := Some(Match(rosters, 100, None));
    }
  }

  /** `failAt` is the first call of Send that fails, if any does.  `sent` are the matches sent. */
  method Run(pools: seq<seq<Ticket>>, n: nat, len: nat, min: nat, canBackfill: bool, failAt: Option<nat>)
    returns (sent: seq<Match>, failed: bool)
    requires n > 0 && 0 < len <= MAX_INT32
    ensures var offered := Matches(Concat(pools), n, len, min, canBackfill);
            && failed == (failAt.Some? && failAt.value < |offered|)
            && sent == if failed then offered[..failAt.value] else offered
  {
    var tickets := CollectTickets(pools);
    ghost var offered := Matches(tickets, n, len, min, canBackfill);
    sent, failed := [], false;
    while |tickets| > min * n
      invariant offered == sent + Matches(tickets, n, len, min, canBackfill)
      invariant failAt.Some? ==> |sent| <= failAt.value
      invariant !failed
      decreases |tickets|
    {
      MatchesStep(tickets, n, len, min, canBackfill);
      var out;
      out, tickets := BuildMatch(tickets, n, len, canBackfill);
      if out.None? {
        continue;
      }
      if failAt == Some(|sent|) {
        failed := true;
        return;
      }
      sent := sent + [out.value];
    }
  }

  lemma MatchesStep(tickets: seq<Ticket>, n: nat, len: nat, min: nat, canBackfill: bool)
    requires n > 0 && len > 0 && |tickets| > min * n
    ensures var taken := Taken(|tickets|, Capacity(n, len));
            Matches(tickets, n, len, min, canBackfill) ==
            (if taken < Capacity(n, len) && !canBackfill then [] else [MatchOf(tickets[..taken], n, len)]) +
            Matches(tickets[taken..], n, len, min, canBackfill)
  {
    var cap := Capacity(n, len);
    var taken := Taken(|tickets|, cap);
    assert Deals(tickets, cap, min * n)[1..] == Deals(tickets[taken..], cap, min * n);
  }

  /** The scan of an under-filled match finds the whole rounds dealt. */
  lemma LowestIs(dealt: seq<Ticket>, n: nat, len: nat, lowest: nat)
    requires n > 0 && |dealt| < len * n && len <= MAX_INT32
    requires forall r :: 0 <= r < n ==> lowest <= |Packed(dealt, n)[r]|
    requires lowest < MAX_INT32 ==> exists r :: 0 <= r < n && |Packed(dealt, n)[r]| == lowest
    requires lowest <= MAX_INT32
    ensures lowest == |dealt| / n
  {
    assert |Packed(dealt, n)[n - 1]| == |dealt| / n;
    if lowest == MAX_INT32 {
      UnfilledIffFewer(dealt, n, len);
    }
  }
}
