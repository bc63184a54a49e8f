/** What one run of the first-in-first-out function sends: how many matches, which ticket sits in
    which slot, how full the rosters are, and how far a chain of backfill requests can go. */
module FifoTheorems {
  import opened Fifo
  import opened Options

  // ---------------------------------------------------------------------- number of matches

  /** The closed form: nothing at or below the floor, otherwise the excess over it divided by the
      capacity of a match, rounded up. */
  function MatchCount(count: nat, cap: nat, floor: nat): nat
    requires cap > 0
  {
    if count <= floor then 0 else (count - floor + cap - 1) / cap
  }

  lemma AddCapacity(x: nat, cap: nat)
    requires cap > 0
    ensures (x + cap) / cap == x / cap + 1
  {
    DivMod(x + cap, cap, x / cap + 1, x % cap);
  }

  lemma NoMultiple(d: int, n: int)
    requires n > 0 && d * n < n
    ensures d <= 0
  {
  }

  lemma QuotientGrows(a: nat, b: nat, n: nat)
    requires a <= b && n > 0
    ensures a / n <= b / n
  {
    assert a == (a / n) * n + a % n && b == (b / n) * n + b % n;
    assert (a / n - b / n) * n == (a / n) * n - (b / n) * n;
    NoMultiple(a / n - b / n, n);
  }

  lemma QuotientBounds(c: nat, n: nat, low: nat, high: nat)
    requires n > 0 && low * n < c < high * n
    ensures low <= c / n < high
  {
    DivMod(low * n, n, low, 0);
    QuotientGrows(low * n, c, n);
    assert high * n - 1 == (high - 1) * n + (n - 1);
    DivMod(high * n - 1, n, high - 1, n - 1);
    QuotientGrows(c, high * n - 1, n);
  }

  lemma BelowCapacity(x: nat, cap: nat)
    requires x < cap
    ensures x / cap == 0
  {
  }

  lemma {:induction false} DealCount(tickets: seq<Ticket>, cap: nat, floor: nat)
    requires cap > 0
    ensures |Deals(tickets, cap, floor)| == MatchCount(|tickets|, cap, floor)
    decreases |tickets|
  {
    if |tickets| > floor {
      DealCount(tickets[Taken(|tickets|, cap)..], cap, floor);
      var excess := |tickets| - floor;
      AddCapacity(excess - 1, cap);
      if excess <= cap {
        BelowCapacity(excess - 1, cap);
      } else {
        assert excess + cap - 1 == (excess - cap + cap - 1) + cap;
        AddCapacity(excess - cap + cap - 1, cap);
      }
    }
  }

  lemma {:induction false} OfferedIsAll(deals: seq<seq<Ticket>>, n: nat, len: nat)
    requires n > 0 && len > 0
    ensures |Offered(deals, n, len, true)| == |deals|
    ensures forall k :: 0 <= k < |deals| ==> Offered(deals, n, len, true)[k] == MatchOf(deals[k], n, len)
  {
    if deals != [] {
      OfferedIsAll(deals[1..], n, len);
    }
  }

  lemma NumberOfMatches(tickets: seq<Ticket>, n: nat, len: nat, min: nat)
    requires n > 0 && len > 0
    ensures |Matches(tickets, n, len, min, true)| == MatchCount(|tickets|, Capacity(n, len), min * n)
  {
    DealCount(tickets, Capacity(n, len), min * n);
    OfferedIsAll(Deals(tickets, Capacity(n, len), min * n), n, len);
  }

  // ------------------------------------------------------------------------------- placement

  lemma SliceOfRest(tickets: seq<Ticket>, cap: nat, lo: nat)
    requires cap <= lo <= |tickets|
    ensures |tickets[cap..]| == |tickets| - cap
    ensures var size := Taken(|tickets| - lo, cap);
            tickets[cap..][lo - cap..lo - cap + size] == tickets[lo..lo + size]
  {
    var size := Taken(|tickets| - lo, cap);
    var a, b := tickets[cap..][lo - cap..lo - cap + size], tickets[lo..lo + size];
    forall x | 0 <= x < size ensures a[x] == b[x] {
    }
  }

  lemma FirstDeal(tickets: seq<Ticket>, cap: nat, floor: nat)
    requires cap > 0 && Deals(tickets, cap, floor) != []
    ensures floor < |tickets| && Deals(tickets, cap, floor)[0] == tickets[0..Taken(|tickets|, cap)]
  {
  }

  lemma DealOfRest(tickets: seq<Ticket>, cap: nat, floor: nat, k: nat)
    requires cap > 0 && 0 < k < |Deals(tickets, cap, floor)|
    ensures |tickets| > cap && k - 1 < |Deals(tickets[cap..], cap, floor)|
    ensures Deals(tickets, cap, floor)[k] == Deals(tickets[cap..], cap, floor)[k - 1]
  {
    var taken := Taken(|tickets|, cap);
    assert Deals(tickets, cap, floor)[1..] == Deals(tickets[taken..], cap, floor);
    assert |tickets[taken..]| > floor;
  }

  lemma OneLess(k: nat, cap: nat)
    requires k > 0
    ensures k * cap == (k - 1) * cap + cap
  {
  }

  lemma LaterDeal(tickets: seq<Ticket>, cap: nat, floor: nat, k: nat, lo: nat, deal: seq<Ticket>)
    requires cap > 0 && 0 < k < |Deals(tickets, cap, floor)| && cap <= lo
    requires k - 1 < |Deals(tickets[Taken(|tickets|, cap)..], cap, floor)|
    requires deal == Deals(tickets[Taken(|tickets|, cap)..], cap, floor)[k - 1]
    requires var rest := tickets[Taken(|tickets|, cap)..];
             && lo - cap + floor < |rest| && deal == rest[lo - cap..lo - cap + Taken(|rest| - (lo - cap), cap)]
    ensures lo + floor < |tickets| && Deals(tickets, cap, floor)[k] == tickets[lo..lo + Taken(|tickets| - lo, cap)]
  {
    DealOfRest(tickets, cap, floor, k);
    SliceOfRest(tickets, cap, lo);
  }

  /** Match k is dealt a slice of the tickets; only the last one can be short, and then it takes all. */
  lemma {:induction false} DealIsSlice(tickets: seq<Ticket>, cap: nat, floor: nat, k: nat, lo: nat)
    requires cap > 0 && k < |Deals(tickets, cap, floor)| && lo == k * cap
    ensures lo + floor < |tickets|
    ensures Deals(tickets, cap, floor)[k] == tickets[lo..lo + Taken(|tickets| - lo, cap)]
    decreases k
  {
    if k == 0 {
      assert lo == 0;
      FirstDeal(tickets, cap, floor);
    } else {
      OneLess(k, cap);
      DealOfRest(tickets, cap, floor, k);
      var rest := tickets[cap..];
      DealIsSlice(rest, cap, floor, k - 1, lo - cap);
      LaterDeal(tickets, cap, floor, k, lo, Deals(rest, cap, floor)[k - 1]);
    }
  }

  lemma DealHolds(tickets: seq<Ticket>, cap: nat, floor: nat, k: nat, lo: nat, x: nat)
    requires cap > 0 && k < |Deals(tickets, cap, floor)| && lo == k * cap && x < |Deals(tickets, cap, floor)[k]|
    ensures lo + x < |tickets| && Deals(tickets, cap, floor)[k][x] == tickets[lo + x]
  {
    DealIsSlice(tickets, cap, floor, k, lo);
  }

  lemma RosterHolds(dealt: seq<Ticket>, n: nat, len: nat, r: nat, j: nat, x: nat)
    requires n > 0 && len > 0 && r < n && x == j * n + r && j < |MatchOf(dealt, n, len).rosters[r]|
    ensures x < |dealt| && MatchOf(dealt, n, len).rosters[r][j] == dealt[x]
  {
    SlotInRange(|dealt|, n, r, j);
  }

  /** Slot j of roster r of match k holds input ticket k*len*n + j*n + r. */
  lemma SlotHolds(tickets: seq<Ticket>, n: nat, len: nat, min: nat, k: nat, r: nat, j: nat)
    requires n > 0 && len > 0 && k < |Matches(tickets, n, len, min, true)| && r < n
    requires j < |Matches(tickets, n, len, min, true)[k].rosters[r]|
    ensures k * Capacity(n, len) + j * n + r < |tickets|
    ensures Matches(tickets, n, len, min, true)[k].rosters[r][j] == tickets[k * Capacity(n, len) + j * n + r]
  {
    var cap, floor := Capacity(n, len), min * n;
    var deals, lo, x := Deals(tickets, cap, floor), k * cap, j * n + r;
    OfferedIsAll(deals, n, len);
    RosterHolds(deals[k], n, len, r, j, x);
    DealHolds(tickets, cap, floor, k, lo, x);
  }

  /** How many of `count` tickets end up in some match. */
  function Dealt(count: nat, cap: nat, floor: nat): nat
    requires cap > 0
  {
    var all := MatchCount(count, cap, floor) * cap;
    if count < all then count else all
  }

  lemma LeftOver(count: nat, cap: nat, floor: nat)
    requires cap > 0
    ensures count - Dealt(count, cap, floor) <= floor
    ensures Dealt(count, cap, floor) <= count
  {
    if count > floor {
      var x := count - floor + cap - 1;
      assert x == (x / cap) * cap + x % cap;
    }
  }

  lemma DealOf(count: nat, cap: nat, floor: nat, p: nat) returns (k: nat, q: nat)
    requires cap > 0 && p < Dealt(count, cap, floor)
    ensures k < MatchCount(count, cap, floor) && p == k * cap + q && q < cap
  {
    k, q := p / cap, p % cap;
    var d := MatchCount(count, cap, floor);
    assert d * cap - 1 == (d - 1) * cap + (cap - 1);
    DivMod(d * cap - 1, cap, d - 1, cap - 1);
    QuotientGrows(p, d * cap - 1, cap);
  }

  lemma Split(q: nat, n: nat) returns (r: nat, j: nat)
    requires n > 0
    ensures r < n && q == j * n + r
  {
    r, j := q % n, q / n;
  }

  /** Every dealt position is in a slot. */
  lemma EveryDealtTicketHasASlot(tickets: seq<Ticket>, n: nat, len: nat, min: nat, p: nat)
    returns (k: nat, r: nat, j: nat)
    requires n > 0 && len > 0 && p < Dealt(|tickets|, Capacity(n, len), min * n)
    ensures p == k * Capacity(n, len) + j * n + r && r < n
    ensures k < |Matches(tickets, n, len, min, true)|
    ensures j < |Matches(tickets, n, len, min, true)[k].rosters[r]|
    ensures Matches(tickets, n, len, min, true)[k].rosters[r][j] == tickets[p]
  {
    var cap, q := Capacity(n, len), 0;
    k, q := DealOf(|tickets|, cap, min * n, p);
    r, j := Split(q, n);
    NumberOfMatches(tickets, n, len, min);
    SlotExists(tickets, n, len, min, k, r, j);
    SlotHolds(tickets, n, len, min, k, r, j);
  }

  lemma SlotExists(tickets: seq<Ticket>, n: nat, len: nat, min: nat, k: nat, r: nat, j: nat)
    requires n > 0 && len > 0 && k < |Matches(tickets, n, len, min, true)| && r < n
    requires k * Capacity(n, len) + j * n + r < |tickets| && j * n + r < Capacity(n, len)
    ensures j < |Matches(tickets, n, len, min, true)[k].rosters[r]|
  {
    var cap := Capacity(n, len);
    var deals := Deals(tickets, cap, min * n);
    OfferedIsAll(deals, n, len);
    DealIsSlice(tickets, cap, min * n, k, k * cap);
    SlotInRange(|deals[k]|, n, r, j);
  }

  lemma SlotsDoNotOverlap(cap: nat, n: nat, k: nat, r: nat, j: nat, k': nat, r': nat, j': nat)
    requires r < n && r' < n && j * n + r < cap && j' * n + r' < cap
    requires k * cap + j * n + r == k' * cap + j' * n + r'
    ensures k == k' && j == j' && r == r'
  {
    DivMod(k * cap + (j * n + r), cap, k, j * n + r);
    DivMod(k' * cap + (j' * n + r'), cap, k', j' * n + r');
    DivMod(j * n + r, n, j, r);
    DivMod(j' * n + r', n, j', r');
  }

  lemma {:induction false} DealsAreAPrefix(tickets: seq<Ticket>, cap: nat, floor: nat)
    requires cap > 0
    ensures Flatten(Deals(tickets, cap, floor)) <= tickets
    ensures |tickets| - |Flatten(Deals(tickets, cap, floor))| <= floor
    decreases |tickets|
  {
    if |tickets| > floor {
      var taken := Taken(|tickets|, cap);
      DealsAreAPrefix(tickets[taken..], cap, floor);
      var deals := Deals(tickets, cap, floor);
      assert deals[1..] == Deals(tickets[taken..], cap, floor);
      assert tickets == tickets[..taken] + tickets[taken..];
    }
  }

  function Flatten(parts: seq<seq<Ticket>>): seq<Ticket> {
    if parts == [] then [] else parts[0] + Flatten(parts[1..])
  }

  // ----------------------------------------------------------------------------------- shape

  /** Rosters of a match differ by at most one ticket, none exceeds len, each has at least the smaller
      of min and len, and a match short of tickets is the last one and scores 25. */
  lemma RosterShape(tickets: seq<Ticket>, n: nat, len: nat, min: nat, k: nat, r: nat)
    requires n > 0 && len > 0 && k < |Matches(tickets, n, len, min, true)| && r < n
    ensures var ms := Matches(tickets, n, len, min, true);
            var size := |ms[k].rosters[r]|;
            && |ms[k].rosters| == n
            && (if min < len then min else len) <= size <= len
            && (forall r' :: 0 <= r' < n ==> -1 <= size - |ms[k].rosters[r']| <= 1)
            && (ms[k].score == 100 <==> forall r' :: 0 <= r' < n ==> |ms[k].rosters[r']| == len)
            && (ms[k].score == 100 <==> ms[k].backfill.None?)
            && (ms[k].score != 100 ==> ms[k].score == 25 && k == |ms| - 1)
  {
    var dealt := MatchDealt(tickets, n, len, min, k);
    RosterSizes(dealt, n, len, min);
    ScoreShowsSize(dealt, n, len);
    assert forall r' :: 0 <= r' < n ==> |Packed(dealt, n)[r']| == Slots(|dealt|, n, r');
  }

  /** What match k was dealt: only the last can be less than a match holds, and then it exceeds the minimum. */
  lemma MatchDealt(tickets: seq<Ticket>, n: nat, len: nat, min: nat, k: nat) returns (dealt: seq<Ticket>)
    requires n > 0 && len > 0 && k < |Matches(tickets, n, len, min, true)|
    ensures Matches(tickets, n, len, min, true)[k] == MatchOf(dealt, n, len) && |dealt| <= Capacity(n, len)
    ensures |dealt| < Capacity(n, len) ==> |dealt| > min * n && k == |Matches(tickets, n, len, min, true)| - 1
  {
    var cap := Capacity(n, len);
    var deals := Deals(tickets, cap, min * n);
    OfferedIsAll(deals, n, len);
    dealt := deals[k];
    DealIsSlice(tickets, cap, min * n, k, k * cap);
    if k + 1 < |deals| {
      OneLess(k + 1, cap);
      DealIsSlice(tickets, cap, min * n, k + 1, (k + 1) * cap);
    }
  }

  lemma ScoreShowsSize(dealt: seq<Ticket>, n: nat, len: nat)
    requires n > 0 && len > 0 && |dealt| <= Capacity(n, len)
    ensures var m := MatchOf(dealt, n, len);
            && m.rosters == Packed(dealt, n)
            && (m.score == 100 <==> |dealt| == Capacity(n, len)) && (m.score == 100 <==> m.backfill.None?)
            && (m.score != 100 ==> m.score == 25)
  {
  }

  lemma RosterSizes(dealt: seq<Ticket>, n: nat, len: nat, min: nat)
    requires n > 0 && len > 0 && |dealt| <= Capacity(n, len)
    requires |dealt| < Capacity(n, len) ==> |dealt| > min * n
    ensures forall r :: 0 <= r < n ==>
              (if min < len then min else len) <= |Packed(dealt, n)[r]| <= len
    ensures |dealt| == Capacity(n, len) <==> forall r :: 0 <= r < n ==> |Packed(dealt, n)[r]| == len
  {
    var c := |dealt|;
    assert c == (c / n) * n + c % n;
    if c == Capacity(n, len) {
      DivMod(c, n, len, 0);
    } else {
      QuotientBounds(c, n, min, len);
      assert |Packed(dealt, n)[n - 1]| == c / n;
    }
  }

  // -------------------------------------------------------------------------------- backfill

  /** A run with the given roster length sends a backfill request for roster length `next`. */
  ghost predicate Requests(len: nat, next: nat, n: nat, min: nat) {
    && n > 0 && len > 0
    && exists tickets: seq<Ticket>, k ::
         0 <= k < |Matches(tickets, n, len, min, true)| &&
         Matches(tickets, n, len, min, true)[k].backfill == Some(next)
  }

  /** The number of tickets on some rosters. */
  function Seated(rosters: seq<seq<Ticket>>): nat {
    if rosters == [] then 0 else |rosters[0]| + Seated(rosters[1..])
  }

  lemma {:induction false} SeatOneMore(rosters: seq<seq<Ticket>>, r: nat, t: Ticket)
    requires r < |rosters|
    ensures Seated(rosters[r := rosters[r] + [t]]) == Seated(rosters) + 1
  {
    var after := rosters[r := rosters[r] + [t]];
    if r == 0 {
      assert after[1..] == rosters[1..];
    } else {
      SeatOneMore(rosters[1..], r - 1, t);
      assert after[1..] == rosters[1..][r - 1 := rosters[r] + [t]];
    }
  }

  lemma {:induction false} NobodySeated(rosters: seq<seq<Ticket>>)
    requires forall r :: 0 <= r < |rosters| ==> rosters[r] == []
    ensures Seated(rosters) == 0
  {
    if rosters != [] {
      NobodySeated(rosters[1..]);
    }
  }

  lemma {:induction false} EveryoneIsSeated(dealt: seq<Ticket>, n: nat)
    requires n > 0
    ensures Seated(Packed(dealt, n)) == |dealt|
  {
    if dealt == [] {
      NobodySeated(Packed(dealt, n));
    } else {
      var before, t := dealt[..|dealt| - 1], dealt[|dealt| - 1];
      assert dealt == before + [t];
      EveryoneIsSeated(before, n);
      DealNext(before, t, n);
      SeatOneMore(Packed(before, n), |before| % n, t);
    }
  }

  /** A backfill request asks for too many tickets by exactly the remainder of the tickets seated. */
  lemma BackfillOverAsks(tickets: seq<Ticket>, n: nat, len: nat, min: nat, k: nat)
    requires n > 0 && len > 0 && k < |Matches(tickets, n, len, min, true)|
    requires Matches(tickets, n, len, min, true)[k].backfill.Some?
    ensures var m := Matches(tickets, n, len, min, true)[k];
            m.backfill.value * n - (Capacity(n, len) - Seated(m.rosters)) == Seated(m.rosters) % n
  {
    var deals := Deals(tickets, Capacity(n, len), min * n);
    OfferedIsAll(deals, n, len);
    EveryoneIsSeated(deals[k], n);
    OverAsk(|deals[k]|, n, len);
  }

  lemma OverAsk(c: nat, n: nat, len: nat)
    requires n > 0
    ensures (len - c / n) * n - (len * n - c) == c % n
  {
    assert c == (c / n) * n + c % n;
  }

  lemma BackfillShrinks(len: nat, next: nat, n: nat, min: nat)
    requires Requests(len, next, n, min)
    ensures 1 <= next <= len - min
  {
    var tickets: seq<Ticket>, k :|
      0 <= k < |Matches(tickets, n, len, min, true)| &&
      Matches(tickets, n, len, min, true)[k].backfill == Some(next);
    var cap := Capacity(n, len);
    OfferedIsAll(Deals(tickets, cap, min * n), n, len);
    DealIsSlice(tickets, cap, min * n, k, k * cap);
    QuotientBounds(|Deals(tickets, cap, min * n)[k]|, n, min, len);
  }

  /** Each roster length in the chain is what a run with the one before it asked for. */
  ghost predicate BackfillChain(lens: seq<nat>, n: nat, min: nat) {
    lens != [] && forall i :: 0 <= i < |lens| - 1 ==> Requests(lens[i], lens[i + 1], n, min)
  }

  lemma {:induction false} ChainDescends(lens: seq<nat>, n: nat, min: nat)
    requires BackfillChain(lens, n, min)
    ensures lens[|lens| - 1] + (|lens| - 1) * min <= lens[0]
    ensures |lens| > 1 ==> lens[|lens| - 1] >= 1
  {
    if |lens| > 1 {
      var shorter := lens[..|lens| - 1];
      forall i | 0 <= i < |shorter| - 1 ensures Requests(shorter[i], shorter[i + 1], n, min) {
        assert Requests(lens[i], lens[i + 1], n, min);
      }
      ChainDescends(shorter, n, min);
      assert Requests(lens[|lens| - 2], lens[|lens| - 1], n, min);
      BackfillShrinks(lens[|lens| - 2], lens[|lens| - 1], n, min);
      assert (|lens| - 1) * min == (|lens| - 2) * min + min;
    }
  }

  /** Following backfill requests ends after at most (len - 1) / min of them. */
  lemma ChainIsBounded(lens: seq<nat>, n: nat, min: nat)
    requires BackfillChain(lens, n, min) && min >= 1
    ensures |lens| > 1 ==> |lens| - 1 <= (lens[0] - 1) / min
  {
    ChainDescends(lens, n, min);
    if |lens| > 1 {
      var q := |lens| - 1;
      DivMod(q * min, min, q, 0);
      QuotientGrows(q * min, lens[0] - 1, min);
    }
  }

  lemma {:induction false} OfferedWithoutBackfill(deals: seq<seq<Ticket>>, n: nat, len: nat)
    requires n > 0 && len > 0
    requires forall k :: 0 <= k < |deals| - 1 ==> |deals[k]| >= Capacity(n, len)
    ensures var all := Offered(deals, n, len, true);
            Offered(deals, n, len, false) ==
            if deals != [] && |deals[|deals| - 1]| < Capacity(n, len) then all[..|all| - 1] else all
  {
    OfferedIsAll(deals, n, len);
    if |deals| == 1 {
      assert deals[1..] == [];
    } else if |deals| > 1 {
      assert deals[1..][|deals| - 2] == deals[|deals| - 1];
      OfferedWithoutBackfill(deals[1..], n, len);
    }
  }

  lemma DealSize(tickets: seq<Ticket>, cap: nat, floor: nat, k: nat)
    requires cap > 0 && k < |Deals(tickets, cap, floor)|
    ensures |Deals(tickets, cap, floor)[k]| < cap <==> |tickets| < (k + 1) * cap
    ensures k < |Deals(tickets, cap, floor)| - 1 ==> |Deals(tickets, cap, floor)[k]| >= cap
  {
    assert (k + 1) * cap == k * cap + cap;
    DealIsSlice(tickets, cap, floor, k, k * cap);
    if k < |Deals(tickets, cap, floor)| - 1 {
      DealIsSlice(tickets, cap, floor, k + 1, (k + 1) * cap);
    }
  }

  lemma DealSizes(tickets: seq<Ticket>, cap: nat, floor: nat, deals: seq<seq<Ticket>>)
    requires cap > 0 && deals == Deals(tickets, cap, floor)
    ensures forall k :: 0 <= k < |deals| - 1 ==> |deals[k]| >= cap
    ensures deals != [] ==> (|deals[|deals| - 1]| < cap <==> |deals| * cap > |tickets|)
  {
    forall k | 0 <= k < |deals| - 1 ensures |deals[k]| >= cap {
      DealSize(tickets, cap, floor, k);
    }
    if deals != [] {
      DealSize(tickets, cap, floor, |deals| - 1);
    }
  }

  /** Without a backfill request to attach, a run loses exactly its last match, and only if that is short: if
      the matches would have room for more tickets than there are. */
  lemma WithoutBackfillTheShortMatchIsLost(tickets: seq<Ticket>, n: nat, len: nat, min: nat)
    requires n > 0 && len > 0
    ensures var all := Matches(tickets, n, len, min, true);
            Matches(tickets, n, len, min, false) ==
            if all != [] && |all| * Capacity(n, len) > |tickets| then all[..|all| - 1] else all
  {
    var cap, floor := Capacity(n, len), min * n;
    var deals := Deals(tickets, cap, floor);
    DealSizes(tickets, cap, floor, deals);
    OfferedIsAll(deals, n, len);
    OfferedWithoutBackfill(deals, n, len);
  }

  // ------------------------------------------------------------------- from pools to matches

  /** The number of tickets in the first p pools. */
  function Before(pools: seq<seq<Ticket>>, p: nat): nat
    requires p <= |pools|
  {
    if p == 0 then 0 else Before(pools, p - 1) + |pools[p - 1]|
  }

  lemma {:induction false} BeforePrefix(pools: seq<seq<Ticket>>, n: nat, p: nat)
    requires p <= n <= |pools|
    ensures Before(pools[..n], p) == Before(pools, p)
  {
    if p > 0 {
      BeforePrefix(pools, n, p - 1);
    }
  }

  /** The tickets collected are those of all pools: ticket i of pool p comes after all of the earlier pools. */
  lemma {:induction false} CollectedInOrder(pools: seq<seq<Ticket>>, p: nat, i: nat)
    ensures |Concat(pools)| == Before(pools, |pools|)
    ensures p < |pools| && i < |pools[p]| ==>
              Before(pools, p) + i < |Concat(pools)| && Concat(pools)[Before(pools, p) + i] == pools[p][i]
  {
    if pools != [] {
      var n := |pools| - 1;
      CollectedInOrder(pools[..n], p, i);
      BeforePrefix(pools, n, n);
      if p < n {
        BeforePrefix(pools, n, p);
      }
    }
  }

  /** Ticket i of pool p, unless it is one of the last min*n or fewer that are left over, sits in slot j of roster r
      of match k, where k*len*n + j*n + r tickets come before it. */
  lemma PoolTicketHasASlot(pools: seq<seq<Ticket>>, n: nat, len: nat, min: nat, p: nat, i: nat)
    returns (k: nat, r: nat, j: nat)
    requires n > 0 && len > 0 && p < |pools| && i < |pools[p]|
    requires Before(pools, p) + i < Dealt(Before(pools, |pools|), Capacity(n, len), min * n)
    ensures Before(pools, p) + i == k * Capacity(n, len) + j * n + r && r < n
    ensures var ms := Matches(Concat(pools), n, len, min, true);
            k < |ms| && j < |ms[k].rosters[r]| && ms[k].rosters[r][j] == pools[p][i]
  {
    CollectedInOrder(pools, p, i);
    k, r, j := EveryDealtTicketHasASlot(Concat(pools), n, len, min, Before(pools, p) + i);
  }

  // ---------------------------------------------------------------------------- conservation

  function InAll(parts: seq<seq<Ticket>>): multiset<Ticket> {
    if parts == [] then multiset{} else multiset(parts[0]) + InAll(parts[1..])
  }

  function InMatches(ms: seq<Match>): multiset<Ticket> {
    if ms == [] then multiset{} else InAll(ms[0].rosters) + InMatches(ms[1..])
  }

  lemma {:induction false} InAllSnoc(parts: seq<seq<Ticket>>, last: seq<Ticket>)
    ensures InAll(parts + [last]) == InAll(parts) + multiset(last)
  {
    if parts == [] {
      assert InAll([last][1..]) == multiset{};
    } else {
      InAllSnoc(parts[1..], last);
      assert (parts + [last])[1..] == parts[1..] + [last];
    }
  }

  lemma {:induction false} CollectedAreInPools(pools: seq<seq<Ticket>>)
    ensures multiset(Concat(pools)) == InAll(pools)
  {
    if pools != [] {
      var n := |pools| - 1;
      CollectedAreInPools(pools[..n]);
      InAllSnoc(pools[..n], pools[n]);
      assert pools == pools[..n] + [pools[n]];
    }
  }

  lemma {:induction false} PutOneIn(rosters: seq<seq<Ticket>>, r: nat, t: Ticket)
    requires r < |rosters|
    ensures InAll(rosters[r := rosters[r] + [t]]) == InAll(rosters) + multiset{t}
  {
    var after := rosters[r := rosters[r] + [t]];
    if r == 0 {
      assert after[1..] == rosters[1..];
    } else {
      PutOneIn(rosters[1..], r - 1, t);
      assert after[1..] == rosters[1..][r - 1 := rosters[r] + [t]];
    }
  }

  lemma {:induction false} NobodyIn(rosters: seq<seq<Ticket>>)
    requires forall r :: 0 <= r < |rosters| ==> rosters[r] == []
    ensures InAll(rosters) == multiset{}
  {
    if rosters != [] {
      NobodyIn(rosters[1..]);
    }
  }

  lemma {:induction false} DealtAreInRosters(dealt: seq<Ticket>, n: nat)
    requires n > 0
    ensures InAll(Packed(dealt, n)) == multiset(dealt)
  {
    if dealt == [] {
      NobodyIn(Packed(dealt, n));
    } else {
      var before, t := dealt[..|dealt| - 1], dealt[|dealt| - 1];
      assert dealt == before + [t];
      DealtAreInRosters(before, n);
      DealNext(before, t, n);
      PutOneIn(Packed(before, n), |before| % n, t);
    }
  }

  lemma {:induction false} OfferedHold(deals: seq<seq<Ticket>>, n: nat, len: nat)
    requires n > 0 && len > 0
    ensures InMatches(Offered(deals, n, len, true)) == multiset(Flatten(deals))
  {
    if deals != [] {
      OfferedHold(deals[1..], n, len);
      DealtAreInRosters(deals[0], n);
      var rest := Offered(deals[1..], n, len, true);
      assert ([MatchOf(deals[0], n, len)] + rest)[1..] == rest;
    }
  }

  lemma SuffixApart(all: seq<Ticket>, front: seq<Ticket>)
    requires front <= all
    ensures multiset(all) == multiset(front) + multiset(all[|front|..])
  {
    assert all == front + all[|front|..];
  }

  /** A run that can attach backfill requests offers every ticket of every pool in some match, as often as the
      pools hold it, but for at most min*n tickets that are left over: the last of those collected. */
  lemma EveryTicketIsMatchedOrLeftOver(pools: seq<seq<Ticket>>, n: nat, len: nat, min: nat) returns (left: seq<Ticket>)
    requires n > 0 && len > 0
    ensures InMatches(Matches(Concat(pools), n, len, min, true)) + multiset(left) == InAll(pools)
    ensures |left| <= min * n && |left| <= |Concat(pools)| && left == Concat(pools)[|Concat(pools)| - |left|..]
  {
    var tickets, deals := Concat(pools), Deals(Concat(pools), Capacity(n, len), min * n);
    CollectedAreInPools(pools);
    OfferedHold(deals, n, len);
    DealsAreAPrefix(tickets, Capacity(n, len), min * n);
    SuffixApart(tickets, Flatten(deals));
    left := tickets[|Flatten(deals)|..];
  }

  lemma FrontOfPrefix(ms: seq<Match>, m: nat)
    requires 0 < m <= |ms|
    ensures ms[..m][0] == ms[0] && ms[..m][1..] == ms[1..][..m - 1]
  {
  }

  lemma {:induction false} FewerHoldLess(ms: seq<Match>, m: nat)
    requires m <= |ms|
    ensures InMatches(ms[..m]) <= InMatches(ms)
  {
    if m > 0 {
      FewerHoldLess(ms[1..], m - 1);
      FrontOfPrefix(ms, m);
    }
  }

  /** Whatever a run sends, with or without backfill and up to whichever send fails, holds no ticket more often
      than the pools do. */
  lemma NoTicketIsSentMoreOften(pools: seq<seq<Ticket>>, n: nat, len: nat, min: nat, canBackfill: bool, m: nat)
    requires n > 0 && len > 0 && m <= |Matches(Concat(pools), n, len, min, canBackfill)|
    ensures InMatches(Matches(Concat(pools), n, len, min, canBackfill)[..m]) <= InAll(pools)
  {
    var all := Matches(Concat(pools), n, len, min, true);
    var left := EveryTicketIsMatchedOrLeftOver(pools, n, len, min);
    WithoutBackfillTheShortMatchIsLost(Concat(pools), n, len, min);
    assert Matches(Concat(pools), n, len, min, canBackfill)[..m] == all[..m];
    FewerHoldLess(all, m);
  }
}
