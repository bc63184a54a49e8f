/** What one director cycle does to the registry, and how an emitted request finds its way back to the
    servers it was emitted for. */
module RegistryTheorems {
  import opened AgonesRegistry
  import opened Options

  lemma RemoveOneCounts(gs: GameServers, key: SpecJson, other: SpecJson)
    requires WellFormed(gs)
    ensures WellFormed(RemoveOne(gs, key))
    ensures Count(RemoveOne(gs, key), other) == Count(gs, other) - if key in gs && key == other then 1 else 0
  {
  }

  lemma AddOneCounts(gs: GameServers, spec: AllocSpec, params: seq<MmfRequest>, other: SpecJson)
    requires WellFormed(gs)
    ensures WellFormed(AddOne(gs, spec, params))
    ensures Count(AddOne(gs, spec, params), other) == Count(gs, other) + if SpecJson(spec) == other then 1 else 0
  {
  }

  /** Emitting the requests changes no server count and no key of the registry. */
  lemma StoringKeepsCounts(gs: GameServers)
    requires WellFormed(gs)
    ensures WellFormed(AfterEmitting(gs)) && AfterEmitting(gs).Keys == gs.Keys
    ensures forall key :: Count(AfterEmitting(gs), key) == Count(gs, key)
  {
  }

  /** Registering a request on a server and then allocating by the new spec takes one server of the
      old spec, just as allocating by the old spec does.  The two registries are equal exactly when the
      new spec has no other servers left, or those already carry the same request. */
  lemma UpdateThenAllocateIsAllocate(hash: ParamsJson -> Hash, gs: GameServers, old_: SpecJson, params: seq<MmfRequest>)
    requires WellFormed(gs) && old_ in gs
    ensures var spec := SpecFor(hash, params);
            var direct := RemoveOne(gs, old_);
            var after := RemoveOne(AddOne(direct, spec, params), SpecJson(spec));
            && (forall key :: Count(after, key) == Count(direct, key))
            && (after == direct <==> SpecJson(spec) in direct ==> direct[SpecJson(spec)].mmfParams == params)
  {
    var spec := SpecFor(hash, params);
    var key := SpecJson(spec);
    var direct := RemoveOne(gs, old_);
    RemoveOneCounts(gs, old_, key);
    var added := AddOne(direct, spec, params);
    var after := RemoveOne(added, key);
    AddOneCounts(direct, spec, params, key);
    forall other ensures Count(after, other) == Count(direct, other) {
      AddOneCounts(direct, spec, params, other);
      RemoveOneCounts(added, key, other);
    }
    if key in direct {
      assert direct[key].allocSpec == spec;
      assert after == direct[key := direct[key].(mmfParams := params)];
      assert direct == direct[key := direct[key]];
    } else {
      assert after == direct;
    }
  }

  // ------------------------------------------------------------------------------ one cycle

  /** An accepted match: the spec of the request it answers, and the next request it carries, if any. */
  datatype Draw = Draw(from: SpecJson, next: Option<MmfRequest>)

  /** The spec a draw is finally allocated by. */
  function Final(hash: ParamsJson -> Hash, d: Draw): SpecJson {
    if d.next.Some? then SpecJson(SpecFor(hash, [d.next.value])) else d.from
  }

  function Finals(hash: ParamsJson -> Hash, draws: seq<Draw>): seq<SpecJson> {
    if draws == [] then [] else Finals(hash, draws[..|draws| - 1]) + [Final(hash, draws[|draws| - 1])]
  }

  function Sources(draws: seq<Draw>): seq<SpecJson> {
    if draws == [] then [] else Sources(draws[..|draws| - 1]) + [draws[|draws| - 1].from]
  }

  /** The update, if any, made while one match is accepted. */
  function AfterUpdate(hash: ParamsJson -> Hash, gs: GameServers, d: Draw): GameServers {
    if d.next.Some? then AddOne(RemoveOne(gs, d.from), SpecFor(hash, [d.next.value]), [d.next.value]) else gs
  }

  /** The registry after the updates made while the proposals are accepted, in order. */
  function AfterUpdates(hash: ParamsJson -> Hash, gs: GameServers, draws: seq<Draw>): GameServers {
    if draws == [] then gs
    else AfterUpdate(hash, AfterUpdates(hash, gs, draws[..|draws| - 1]), draws[|draws| - 1])
  }

  function AfterAllocations(gs: GameServers, order: seq<SpecJson>): GameServers {
    if order == [] then gs
    else RemoveOne(AfterAllocations(gs, order[..|order| - 1]), order[|order| - 1])
  }

  /** Each spec has at least as many servers as accepted matches drawn from it. */
  ghost predicate Enough(gs: GameServers, draws: seq<Draw>) {
    forall key :: multiset(Sources(draws))[key] <= Count(gs, key)
  }

  // ------------------------------------------------------------------ updates and the nil pointer

  /** Draw i, if it has a next request, updates a spec that is registered by then. */
  predicate UpdateSucceeds(hash: ParamsJson -> Hash, gs: GameServers, draws: seq<Draw>, i: nat)
    requires i < |draws|
  {
    draws[i].next.Some? ==> draws[i].from in AfterUpdates(hash, gs, draws[..i])
  }

  /** Each update finds its old spec registered: none dereferences nil. */
  ghost predicate UpdatesSucceed(hash: ParamsJson -> Hash, gs: GameServers, draws: seq<Draw>) {
    forall i :: 0 <= i < |draws| ==> UpdateSucceeds(hash, gs, draws, i)
  }

  lemma SucceedsInPrefix(hash: ParamsJson -> Hash, gs: GameServers, draws: seq<Draw>, n: nat, i: nat)
    requires i < n <= |draws|
    ensures UpdateSucceeds(hash, gs, draws[..n], i) <==> UpdateSucceeds(hash, gs, draws, i)
  {
    assert draws[..n][..i] == draws[..i];
  }

  lemma UpdatesSucceedBefore(hash: ParamsJson -> Hash, gs: GameServers, draws: seq<Draw>, n: nat)
    requires n <= |draws| && forall i :: 0 <= i < n ==> UpdateSucceeds(hash, gs, draws, i)
    ensures UpdatesSucceed(hash, gs, draws[..n])
  {
    forall i | 0 <= i < n ensures UpdateSucceeds(hash, gs, draws[..n], i) {
      SucceedsInPrefix(hash, gs, draws, n, i);
    }
  }

  lemma UpdateKeepsForm(hash: ParamsJson -> Hash, gs: GameServers, d: Draw)
    requires WellFormed(gs)
    ensures WellFormed(AfterUpdate(hash, gs, d))
  {
  }

  lemma {:induction false} UpdatesKeepForm(hash: ParamsJson -> Hash, gs: GameServers, draws: seq<Draw>)
    requires WellFormed(gs)
    ensures WellFormed(AfterUpdates(hash, gs, draws))
  {
    if draws != [] {
      UpdatesKeepForm(hash, gs, draws[..|draws| - 1]);
      UpdateKeepsForm(hash, AfterUpdates(hash, gs, draws[..|draws| - 1]), draws[|draws| - 1]);
    }
  }

  lemma UpdateCount(hash: ParamsJson -> Hash, gs: GameServers, d: Draw, key: SpecJson)
    requires WellFormed(gs)
    ensures Count(AfterUpdate(hash, gs, d), key) <= Count(gs, key) + if Final(hash, d) == key then 1 else 0
    ensures d.next.Some? ==> d.from in gs ==>
              Count(AfterUpdate(hash, gs, d), key) ==
              Count(gs, key) - (if d.from == key then 1 else 0) + if Final(hash, d) == key then 1 else 0
    ensures d.next.None? ==> Count(AfterUpdate(hash, gs, d), key) == Count(gs, key)
  {
    if d.next.Some? {
      RemoveOneCounts(gs, d.from, key);
      AddOneCounts(RemoveOne(gs, d.from), SpecFor(hash, [d.next.value]), [d.next.value], key);
    }
  }

  /** The servers of a spec after the draws: those before, less the draws from it, plus the draws that end at it. */
  function ReadyAfter(hash: ParamsJson -> Hash, gs: GameServers, draws: seq<Draw>, key: SpecJson): int {
    Count(gs, key) - multiset(Sources(draws))[key] + multiset(Finals(hash, draws))[key]
  }

  lemma {:induction false} UpdateCounts(hash: ParamsJson -> Hash, gs: GameServers, draws: seq<Draw>, key: SpecJson)
    requires WellFormed(gs) && UpdatesSucceed(hash, gs, draws)
    ensures Count(AfterUpdates(hash, gs, draws), key) == ReadyAfter(hash, gs, draws, key)
  {
    if draws != [] {
      var shorter := draws[..|draws| - 1];
      UpdatesSucceedBefore(hash, gs, draws, |draws| - 1);
      assert UpdateSucceeds(hash, gs, draws, |draws| - 1);
      UpdateCounts(hash, gs, shorter, key);
      UpdatesKeepForm(hash, gs, shorter);
      UpdateCount(hash, AfterUpdates(hash, gs, shorter), draws[|draws| - 1], key);
    }
  }

  /** The spec that draw i updates has a server left, by the counts before the cycle alone. */
  predicate ServerLeft(hash: ParamsJson -> Hash, gs: GameServers, draws: seq<Draw>, i: nat)
    requires i < |draws|
  {
    ReadyAfter(hash, gs, draws[..i], draws[i].from) > 0
  }

  lemma SourceThereIffServerLeft(hash: ParamsJson -> Hash, gs: GameServers, draws: seq<Draw>, i: nat)
    requires WellFormed(gs) && i < |draws| && UpdatesSucceed(hash, gs, draws[..i])
    ensures draws[i].from in AfterUpdates(hash, gs, draws[..i]) <==> ServerLeft(hash, gs, draws, i)
  {
    UpdateCounts(hash, gs, draws[..i], draws[i].from);
    UpdatesKeepForm(hash, gs, draws[..i]);
  }

  /** Each draw with a next request updates a spec that has a server left. */
  predicate ServersLeft(hash: ParamsJson -> Hash, gs: GameServers, draws: seq<Draw>) {
    forall i :: 0 <= i < |draws| && draws[i].next.Some? ==> ServerLeft(hash, gs, draws, i)
  }

  lemma {:induction false} ServersLeftMeansSuccess(hash: ParamsJson -> Hash, gs: GameServers, draws: seq<Draw>, i: nat)
    requires WellFormed(gs) && ServersLeft(hash, gs, draws) && i < |draws|
    ensures UpdateSucceeds(hash, gs, draws, i)
  {
    forall j | 0 <= j < i ensures UpdateSucceeds(hash, gs, draws, j) {
      ServersLeftMeansSuccess(hash, gs, draws, j);
    }
    UpdatesSucceedBefore(hash, gs, draws, i);
    SourceThereIffServerLeft(hash, gs, draws, i);
  }

  /** The updates of a cycle dereference no nil pointer exactly when each updates a spec that has a server left:
      its servers before the cycle and the earlier draws that end at it outnumber the earlier draws from it. */
  lemma UpdatesSucceedIffServersAreLeft(hash: ParamsJson -> Hash, gs: GameServers, draws: seq<Draw>)
    requires WellFormed(gs)
    ensures UpdatesSucceed(hash, gs, draws) <==> ServersLeft(hash, gs, draws)
  {
    if UpdatesSucceed(hash, gs, draws) {
      forall i | 0 <= i < |draws| && draws[i].next.Some? ensures ServerLeft(hash, gs, draws, i) {
        assert UpdateSucceeds(hash, gs, draws, i);
        UpdatesSucceedBefore(hash, gs, draws, i);
        SourceThereIffServerLeft(hash, gs, draws, i);
      }
    } else if ServersLeft(hash, gs, draws) {
      forall i | 0 <= i < |draws| ensures UpdateSucceeds(hash, gs, draws, i) {
        ServersLeftMeansSuccess(hash, gs, draws, i);
      }
    }
  }

  lemma {:induction false} SourcesOfPrefix(draws: seq<Draw>, n: nat)
    requires n <= |draws|
    ensures Sources(draws[..n]) <= Sources(draws)
    decreases |draws| - n
  {
    if n == |draws| {
      assert draws[..n] == draws;
    } else {
      SourcesOfPrefix(draws, n + 1);
      assert draws[..n + 1][..n] == draws[..n];
    }
  }

  lemma EnoughLeavesServer(hash: ParamsJson -> Hash, gs: GameServers, draws: seq<Draw>, i: nat)
    requires Enough(gs, draws) && i < |draws|
    ensures ServerLeft(hash, gs, draws, i)
  {
    var key := draws[i].from;
    SourcesOfPrefix(draws, i + 1);
    var upTo := Sources(draws[..i + 1]);
    assert draws[..i + 1][..i] == draws[..i];
    assert upTo == Sources(draws[..i]) + [key];
    var all := Sources(draws);
    assert all == upTo + all[|upTo|..];
    assert multiset(all)[key] <= Count(gs, key);
  }

  lemma EnoughForUpdates(hash: ParamsJson -> Hash, gs: GameServers, draws: seq<Draw>)
    requires WellFormed(gs) && Enough(gs, draws)
    ensures UpdatesSucceed(hash, gs, draws)
  {
    forall i | 0 <= i < |draws| ensures ServerLeft(hash, gs, draws, i) {
      EnoughLeavesServer(hash, gs, draws, i);
    }
    UpdatesSucceedIffServersAreLeft(hash, gs, draws);
  }

  // -------------------------------------------------------------------------------- allocations

  lemma {:induction false} AllocationsKeepForm(gs: GameServers, order: seq<SpecJson>)
    requires WellFormed(gs)
    ensures WellFormed(AfterAllocations(gs, order))
  {
    if order != [] {
      AllocationsKeepForm(gs, order[..|order| - 1]);
      RemoveOneCounts(AfterAllocations(gs, order[..|order| - 1]), order[|order| - 1], order[|order| - 1]);
    }
  }

  /** Allocating takes servers of a spec until none is left. */
  lemma {:induction false} AllocationCounts(gs: GameServers, order: seq<SpecJson>, key: SpecJson)
    requires WellFormed(gs)
    ensures var left := Count(gs, key) - multiset(order)[key];
            Count(AfterAllocations(gs, order), key) == if left > 0 then left else 0
  {
    if order != [] {
      var shorter, last := order[..|order| - 1], order[|order| - 1];
      assert order == shorter + [last];
      AllocationCounts(gs, shorter, key);
      AllocationsKeepForm(gs, shorter);
      RemoveOneCounts(AfterAllocations(gs, shorter), last, key);
    }
  }

  /** Every allocation finds its spec registered. */
  ghost predicate AllocationsSucceed(gs: GameServers, order: seq<SpecJson>) {
    forall i :: 0 <= i < |order| ==> order[i] in AfterAllocations(gs, order[..i])
  }

  lemma AllocationSucceedsIff(gs: GameServers, order: seq<SpecJson>, i: nat)
    requires WellFormed(gs) && i < |order|
    ensures order[i] in AfterAllocations(gs, order[..i]) <==> multiset(order[..i + 1])[order[i]] <= Count(gs, order[i])
  {
    AllocationCounts(gs, order[..i], order[i]);
    AllocationsKeepForm(gs, order[..i]);
    assert order[..i + 1] == order[..i] + [order[i]];
  }

  lemma {:induction false} LastOf(order: seq<SpecJson>, key: SpecJson) returns (i: nat)
    requires key in order
    ensures i < |order| && order[i] == key && multiset(order[..i + 1])[key] == multiset(order)[key]
  {
    var n := |order| - 1;
    assert order == order[..n] + [order[n]];
    if order[n] == key {
      i := n;
      assert order[..n + 1] == order;
    } else {
      i := LastOf(order[..n], key);
      assert order[..n][..i + 1] == order[..i + 1];
    }
  }

  lemma FittingAllocationsSucceed(gs: GameServers, order: seq<SpecJson>, i: nat)
    requires WellFormed(gs) && i < |order| && multiset(order)[order[i]] <= Count(gs, order[i])
    ensures order[i] in AfterAllocations(gs, order[..i])
  {
    AllocationSucceedsIff(gs, order, i);
    assert order == order[..i + 1] + order[i + 1..];
  }

  lemma SuccessfulAllocationsFit(gs: GameServers, order: seq<SpecJson>, key: SpecJson)
    requires WellFormed(gs) && AllocationsSucceed(gs, order)
    ensures multiset(order)[key] <= Count(gs, key)
  {
    if key in order {
      var i := LastOf(order, key);
      AllocationSucceedsIff(gs, order, i);
    }
  }

  lemma AllocationsSucceedIff(gs: GameServers, order: seq<SpecJson>)
    requires WellFormed(gs)
    ensures AllocationsSucceed(gs, order) <==> forall key :: multiset(order)[key] <= Count(gs, key)
  {
    if forall key :: multiset(order)[key] <= Count(gs, key) {
      forall i | 0 <= i < |order| ensures order[i] in AfterAllocations(gs, order[..i]) {
        FittingAllocationsSucceed(gs, order, i);
      }
    } else if AllocationsSucceed(gs, order) {
      forall key ensures multiset(order)[key] <= Count(gs, key) {
        SuccessfulAllocationsFit(gs, order, key);
      }
    }
  }

  // ---------------------------------------------------------------------------- the whole cycle

  /** When no update crashes, every accepted match gets a server, in whatever order the matches are walked,
      exactly when every spec has a server for each match drawn from it. */
  lemma EveryAcceptedMatchGetsAServer(hash: ParamsJson -> Hash, gs: GameServers, draws: seq<Draw>, order: seq<SpecJson>)
    requires WellFormed(gs) && multiset(order) == multiset(Finals(hash, draws))
    ensures Enough(gs, draws) ==> UpdatesSucceed(hash, gs, draws)
    ensures UpdatesSucceed(hash, gs, draws) ==>
              (AllocationsSucceed(AfterUpdates(hash, gs, draws), order) <==> Enough(gs, draws))
  {
    var updated := AfterUpdates(hash, gs, draws);
    if Enough(gs, draws) {
      EnoughForUpdates(hash, gs, draws);
    }
    if UpdatesSucceed(hash, gs, draws) {
      UpdatesKeepForm(hash, gs, draws);
      AllocationsSucceedIff(updated, order);
      forall key ensures multiset(order)[key] <= Count(updated, key) <==> multiset(Sources(draws))[key] <= Count(gs, key) {
        UpdateCounts(hash, gs, draws, key);
      }
    }
  }

  /** Some match with a next request ends at the spec. */
  ghost predicate Rewritten(hash: ParamsJson -> Hash, draws: seq<Draw>, key: SpecJson) {
    exists i :: 0 <= i < |draws| && draws[i].next.Some? && Final(hash, draws[i]) == key
  }

  /** The requests a spec's annotation names. */
  function Named(key: SpecJson): seq<MmfRequest> {
    if key.spec.annotation.Some? then key.spec.annotation.value.params else []
  }

  lemma RewrittenSnoc(hash: ParamsJson -> Hash, draws: seq<Draw>, key: SpecJson)
    requires draws != []
    ensures var shorter, d := draws[..|draws| - 1], draws[|draws| - 1];
            Rewritten(hash, draws, key) <==> Rewritten(hash, shorter, key) || (d.next.Some? && Final(hash, d) == key)
  {
    var n := |draws| - 1;
    if Rewritten(hash, draws[..n], key) {
      var i :| 0 <= i < n && draws[..n][i].next.Some? && Final(hash, draws[..n][i]) == key;
      assert draws[i].next.Some? && Final(hash, draws[i]) == key;
    }
  }

  lemma {:induction false} RequestsAfterUpdates(hash: ParamsJson -> Hash, gs: GameServers, draws: seq<Draw>, key: SpecJson)
    requires key in AfterUpdates(hash, gs, draws)
    ensures !Rewritten(hash, draws, key) ==> key in gs
    ensures AfterUpdates(hash, gs, draws)[key].mmfParams ==
            if Rewritten(hash, draws, key) then Named(key) else gs[key].mmfParams
  {
    if draws != [] {
      var shorter, d := draws[..|draws| - 1], draws[|draws| - 1];
      RewrittenSnoc(hash, draws, key);
      if !(d.next.Some? && Final(hash, d) == key) {
        assert key in AfterUpdates(hash, gs, shorter);
        RequestsAfterUpdates(hash, gs, shorter, key);
      }
    }
  }

  lemma {:induction false} RequestsAfterAllocations(gs: GameServers, order: seq<SpecJson>, key: SpecJson)
    requires key in AfterAllocations(gs, order)
    ensures key in gs && AfterAllocations(gs, order)[key].mmfParams == gs[key].mmfParams
  {
    if order != [] {
      RequestsAfterAllocations(gs, order[..|order| - 1], key);
    }
  }

  /** The servers of a spec that the matches drawn from it leave, if there are that many. */
  function Remaining(gs: GameServers, draws: seq<Draw>, key: SpecJson): nat {
    var left := Count(gs, key) - multiset(Sources(draws))[key];
    if left > 0 then left else 0
  }

  /** What a cycle leaves of a spec, against what allocating by the sources of the draws leaves of it. */
  ghost predicate CycleEntry(hash: ParamsJson -> Hash, gs: GameServers, draws: seq<Draw>, final: GameServers,
                             direct: GameServers, key: SpecJson)
  {
    && (key in final <==> key in direct) && (key in direct ==> key in gs)
    && Count(final, key) == Count(direct, key) == Remaining(gs, draws, key)
    && (key in final && key in direct && key in gs ==>
          (final[key] == direct[key] <==> (Rewritten(hash, draws, key) ==> gs[key].mmfParams == Named(key))))
  }

  lemma SameRegistryIff(hash: ParamsJson -> Hash, gs: GameServers, draws: seq<Draw>, final: GameServers, direct: GameServers)
    requires forall key :: CycleEntry(hash, gs, draws, final, direct, key)
    ensures forall key :: key in direct ==> key in gs
    ensures final == direct <==>
            forall key :: key in direct && Rewritten(hash, draws, key) ==> gs[key].mmfParams == Named(key)
  {
    forall key | key in direct ensures key in gs {
      assert CycleEntry(hash, gs, draws, final, direct, key);
    }
    if forall key :: key in direct && Rewritten(hash, draws, key) ==> gs[key].mmfParams == Named(key) {
      forall key ensures key in final <==> key in direct {
        assert CycleEntry(hash, gs, draws, final, direct, key);
      }
      forall key | key in direct ensures final[key] == direct[key] {
        assert CycleEntry(hash, gs, draws, final, direct, key);
      }
    } else if final == direct {
      forall key | key in direct && Rewritten(hash, draws, key) ensures gs[key].mmfParams == Named(key) {
        assert CycleEntry(hash, gs, draws, final, direct, key);
      }
    }
  }

  /** A cycle that does not crash takes one server per accepted match, from the spec the match was drawn from,
      as long as there is one: each spec keeps the servers that allocating by the source of every match would
      leave it, whatever next requests the matches carry, also when servers run out.  The registry is the same
      as after those allocations exactly when every spec that keeps servers and that some next request ends at
      already held the requests its annotation names. */
  lemma CycleTakesOneServerPerMatch(hash: ParamsJson -> Hash, gs: GameServers, draws: seq<Draw>, order: seq<SpecJson>)
    requires WellFormed(gs) && UpdatesSucceed(hash, gs, draws)
    requires multiset(order) == multiset(Finals(hash, draws))
    ensures var final := AfterAllocations(AfterUpdates(hash, gs, draws), order);
            var direct := AfterAllocations(gs, Sources(draws));
            && WellFormed(final) && (forall key :: key in direct ==> key in gs)
            && (forall key :: Count(final, key) == Count(direct, key) == Remaining(gs, draws, key))
            && (final == direct <==>
                forall key :: key in direct && Rewritten(hash, draws, key) ==> gs[key].mmfParams == Named(key))
  {
    var final, direct := AfterAllocations(AfterUpdates(hash, gs, draws), order), AfterAllocations(gs, Sources(draws));
    UpdatesKeepForm(hash, gs, draws);
    AllocationsKeepForm(AfterUpdates(hash, gs, draws), order);
    forall key
      ensures CycleEntry(hash, gs, draws, final, direct, key)
      ensures Count(final, key) == Count(direct, key) == Remaining(gs, draws, key)
    {
      CountsOfCycle(hash, gs, draws, order, key);
      EntryOfCycle(hash, gs, draws, order, key);
    }
    SameRegistryIff(hash, gs, draws, final, direct);
  }

  lemma SameEntry(a: GameServers, b: GameServers, key: SpecJson)
    requires WellFormed(a) && WellFormed(b) && Count(a, key) == Count(b, key)
    ensures key in a <==> key in b
    ensures key in a ==> (a[key] == b[key] <==> a[key].mmfParams == b[key].mmfParams)
  {
  }

  lemma CountsOfCycle(hash: ParamsJson -> Hash, gs: GameServers, draws: seq<Draw>, order: seq<SpecJson>, key: SpecJson)
    requires WellFormed(gs) && UpdatesSucceed(hash, gs, draws) && multiset(order) == multiset(Finals(hash, draws))
    ensures Count(AfterAllocations(AfterUpdates(hash, gs, draws), order), key) == Remaining(gs, draws, key)
    ensures Count(AfterAllocations(gs, Sources(draws)), key) == Remaining(gs, draws, key)
  {
    UpdatesKeepForm(hash, gs, draws);
    UpdateCounts(hash, gs, draws, key);
    AllocationCounts(AfterUpdates(hash, gs, draws), order, key);
    AllocationCounts(gs, Sources(draws), key);
  }

  lemma EntryOfCycle(hash: ParamsJson -> Hash, gs: GameServers, draws: seq<Draw>, order: seq<SpecJson>, key: SpecJson)
    requires WellFormed(gs)
    requires var final := AfterAllocations(AfterUpdates(hash, gs, draws), order);
             Count(final, key) == Count(AfterAllocations(gs, Sources(draws)), key)
    ensures var final := AfterAllocations(AfterUpdates(hash, gs, draws), order);
            var direct := AfterAllocations(gs, Sources(draws));
            && (key in final <==> key in direct)
            && (key in direct ==> key in gs)
            && (key in direct ==>
                  (final[key] == direct[key] <==> (Rewritten(hash, draws, key) ==> gs[key].mmfParams == Named(key))))
  {
    var updated := AfterUpdates(hash, gs, draws);
    var final, direct := AfterAllocations(updated, order), AfterAllocations(gs, Sources(draws));
    UpdatesKeepForm(hash, gs, draws);
    AllocationsKeepForm(updated, order);
    AllocationsKeepForm(gs, Sources(draws));
    SameEntry(final, direct, key);
    if key in direct {
      RequestsAfterAllocations(updated, order, key);
      RequestsAfterAllocations(gs, Sources(draws), key);
      RequestsAfterUpdates(hash, gs, draws, key);
    }
  }

  lemma {:induction false} UpdatesAddAtMostTheFinals(hash: ParamsJson -> Hash, gs: GameServers, draws: seq<Draw>, key: SpecJson)
    requires WellFormed(gs)
    ensures Count(AfterUpdates(hash, gs, draws), key) <= Count(gs, key) + multiset(Finals(hash, draws))[key]
  {
    if draws != [] {
      var shorter := draws[..|draws| - 1];
      UpdatesAddAtMostTheFinals(hash, gs, shorter, key);
      UpdatesKeepForm(hash, gs, shorter);
      UpdateCount(hash, AfterUpdates(hash, gs, shorter), draws[|draws| - 1], key);
    }
  }

  /** No cycle adds servers to any spec, however many matches it accepts. */
  lemma CycleAddsNoServer(hash: ParamsJson -> Hash, gs: GameServers, draws: seq<Draw>, order: seq<SpecJson>, key: SpecJson)
    requires WellFormed(gs) && multiset(order) == multiset(Finals(hash, draws))
    ensures Count(AfterAllocations(AfterUpdates(hash, gs, draws), order), key) <= Count(gs, key)
  {
    UpdatesKeepForm(hash, gs, draws);
    UpdatesAddAtMostTheFinals(hash, gs, draws, key);
    AllocationCounts(AfterUpdates(hash, gs, draws), order, key);
  }

  /** The documentation promises that an accepted backfill request is a new source of matches in the next
      cycle.  It is not: a spec that was not registered before the cycle is not registered after it.  When no
      update crashes, the request's spec is registered afterwards exactly when it had more servers than
      matches drawn from it, whatever requests were registered on it. */
  lemma BackfillRequestIsGoneAfterTheCycle(hash: ParamsJson -> Hash, gs: GameServers, draws: seq<Draw>, order: seq<SpecJson>, i: nat)
    requires WellFormed(gs) && i < |draws| && draws[i].next.Some?
    requires multiset(order) == multiset(Finals(hash, draws))
    ensures var key := Final(hash, draws[i]);
            var final := AfterAllocations(AfterUpdates(hash, gs, draws), order);
            && (key !in gs ==> key !in final)
            && (UpdatesSucceed(hash, gs, draws) ==> (key in final <==> Count(gs, key) > multiset(Sources(draws))[key]))
  {
    var key := Final(hash, draws[i]);
    var final := AfterAllocations(AfterUpdates(hash, gs, draws), order);
    UpdatesKeepForm(hash, gs, draws);
    AllocationsKeepForm(AfterUpdates(hash, gs, draws), order);
    CycleAddsNoServer(hash, gs, draws, order, key);
    if UpdatesSucceed(hash, gs, draws) {
      CountsOfCycle(hash, gs, draws, order, key);
    }
  }

  // --------------------------------------------------------------- from a request to its servers

  function LabelOf(request: MmfRequest): Option<Hash> {
    if request.extensions.Some? && MMF_REQUEST_HASH_KEY in request.extensions.value &&
       request.extensions.value[MMF_REQUEST_HASH_KEY].Label?
    then Some(request.extensions.value[MMF_REQUEST_HASH_KEY].hash)
    else None
  }

  function AllocatorOf(request: MmfRequest): Option<SpecJson> {
    if request.extensions.Some? && AGONES_ALLOCATOR_KEY in request.extensions.value &&
       request.extensions.value[AGONES_ALLOCATOR_KEY].Allocator?
    then Some(request.extensions.value[AGONES_ALLOCATOR_KEY].spec)
    else None
  }

  /** The director's table of pending requests after it has taken in `requests`, in order. */
  function Register(pending: map<Hash, MmfRequest>, requests: seq<MmfRequest>): map<Hash, MmfRequest> {
    if requests == [] then pending
    else
      var before := Register(pending, requests[..|requests| - 1]);
      var last := requests[|requests| - 1];
      if LabelOf(last).Some? then before[LabelOf(last).value := last] else before
  }

  lemma EmittedRequest(set_: GameServerSet, j: nat)
    requires j < |set_.mmfParams|
    ensures LabelOf(Emitted(set_)[j]) == Some(set_.allocSpec.hashLabel)
    ensures AllocatorOf(Emitted(set_)[j]) == Some(SpecJson(set_.allocSpec))
  {
  }

  lemma {:induction false} RegisterConcat(pending: map<Hash, MmfRequest>, a: seq<MmfRequest>, b: seq<MmfRequest>)
    ensures Register(pending, a + b) == Register(Register(pending, a), b)
  {
    if b == [] {
      assert a + b == a;
    } else {
      RegisterConcat(pending, a, b[..|b| - 1]);
      assert (a + b)[..|a + b| - 1] == a + b[..|b| - 1];
    }
  }

  /** Registering what one set emits touches the set's own label only. */
  lemma {:induction false} RegisterSet(pending: map<Hash, MmfRequest>, set_: GameServerSet, n: nat)
    requires n <= |set_.mmfParams|
    ensures var after := Register(pending, Emitted(set_)[..n]);
            && (forall h :: h != set_.allocSpec.hashLabel ==>
                  (h in after <==> h in pending) && (h in pending ==> after[h] == pending[h]))
            && (n > 0 ==> set_.allocSpec.hashLabel in after)
            && (n > 0 ==> AllocatorOf(after[set_.allocSpec.hashLabel]) == Some(SpecJson(set_.allocSpec)))
            && (n == 0 ==> after == pending)
  {
    if n > 0 {
      RegisterSet(pending, set_, n - 1);
      assert Emitted(set_)[..n][..n - 1] == Emitted(set_)[..n - 1];
      EmittedRequest(set_, n - 1);
    }
  }

  /** The set that a label leads to: the last one in the order that has the label and any request. */
  ghost predicate Owns(gs: GameServers, order: seq<SpecJson>, p: nat)
    requires p < |order| && forall key :: key in order ==> key in gs
  {
    && gs[order[p]].mmfParams != []
    && forall q :: p < q < |order| && gs[order[q]].mmfParams != [] ==>
         gs[order[q]].allocSpec.hashLabel != gs[order[p]].allocSpec.hashLabel
  }

  lemma {:induction false} LabelLeadsToOwner(gs: GameServers, order: seq<SpecJson>, pending: map<Hash, MmfRequest>, p: nat)
    requires WellFormed(gs) && p < |order| && forall key :: key in order ==> key in gs
    requires Owns(gs, order, p)
    ensures var after := Register(pending, EmittedAll(gs, order));
            var h := gs[order[p]].allocSpec.hashLabel;
            h in after && AllocatorOf(after[h]) == Some(order[p])
    decreases |order|
  {
    var shorter, last := order[..|order| - 1], gs[order[|order| - 1]];
    RegisterConcat(pending, EmittedAll(gs, shorter), Emitted(last));
    assert Emitted(last)[..|last.mmfParams|] == Emitted(last);
    RegisterSet(Register(pending, EmittedAll(gs, shorter)), last, |last.mmfParams|);
    if p < |order| - 1 {
      assert Owns(gs, shorter, p);
      LabelLeadsToOwner(gs, shorter, pending, p);
    }
  }

  lemma LastWithLabel(gs: GameServers, order: seq<SpecJson>, p: nat) returns (q: nat)
    requires p < |order| && forall key :: key in order ==> key in gs
    requires gs[order[p]].mmfParams != []
    ensures p <= q < |order| && Owns(gs, order, q)
    ensures gs[order[q]].allocSpec.hashLabel == gs[order[p]].allocSpec.hashLabel
  {
    q := p;
    for i := p + 1 to |order|
      invariant p <= q < i && gs[order[q]].mmfParams != []
      invariant gs[order[q]].allocSpec.hashLabel == gs[order[p]].allocSpec.hashLabel
      invariant forall j :: q < j < i && gs[order[j]].mmfParams != [] ==>
                  gs[order[j]].allocSpec.hashLabel != gs[order[p]].allocSpec.hashLabel
    {
      if gs[order[i]].mmfParams != [] && gs[order[i]].allocSpec.hashLabel == gs[order[p]].allocSpec.hashLabel {
        q := i;
      }
    }
  }

  /** The label of an emitted request leads the director back to the set it was emitted for exactly
      when no later set in the order emits a request with the same label. */
  lemma RequestLeadsBackIffLabelIsNotReused(gs: GameServers, order: seq<SpecJson>, pending: map<Hash, MmfRequest>, p: nat, j: nat)
    requires WellFormed(gs) && IsCountOrder(gs, order) && p < |order| && j < |gs[order[p]].mmfParams|
    ensures var request := Emitted(gs[order[p]])[j];
            var after := Register(pending, EmittedAll(gs, order));
            && LabelOf(request).Some? && LabelOf(request).value in after
            && (AllocatorOf(after[LabelOf(request).value]) == Some(order[p]) <==> Owns(gs, order, p))
  {
    EmittedRequest(gs[order[p]], j);
    var q := LastWithLabel(gs, order, p);
    LabelLeadsToOwner(gs, order, pending, q);
    if q == p {
      assert Owns(gs, order, p);
    } else {
      assert order[q] != order[p];
      assert gs[order[q]].mmfParams != [];
    }
  }

  /** With a label of its own for each set, every emitted request leads back to its servers. */
  lemma DistinctLabelsLeadBack(gs: GameServers, order: seq<SpecJson>, pending: map<Hash, MmfRequest>, p: nat, j: nat)
    requires WellFormed(gs) && IsCountOrder(gs, order) && p < |order| && j < |gs[order[p]].mmfParams|
    requires forall k, l :: k in gs && l in gs && k != l ==> gs[k].allocSpec.hashLabel != gs[l].allocSpec.hashLabel
    ensures var request := Emitted(gs[order[p]])[j];
            var after := Register(pending, EmittedAll(gs, order));
            && LabelOf(request).Some? && LabelOf(request).value in after
            && AllocatorOf(after[LabelOf(request).value]) == Some(order[p]) && order[p] in gs
  {
    RequestLeadsBackIffLabelIsNotReused(gs, order, pending, p, j);
  }
}
