/** The mock Agones integration (v2/internal/gsdirector/gsdirector.go): a reference-counted registry
    of game-server sets, keyed by the serialised allocation spec that selects their servers.

    JSON serialisation is a free constructor, hence injective; the xxh3 hash is an arbitrary function. */
module AgonesRegistry {
  import opened Options
  import opened Sorting

  type Hash = string

  const MMF_REQUEST_HASH_KEY := "open-match.dev/mmf-request-hash"
  const AGONES_ALLOCATOR_KEY := "open-match.dev/agones-game-server-allocator"
  const AGONES_READY_COUNT_KEY := "open-match.dev/agones-game-server-ready-count"
  const CONNECTION := "1.2.3.4:7463"

  /** A value in the extensions of a profile. */
  datatype Extension = Int32(value: int) | Label(hash: Hash) | Allocator(spec: SpecJson) | Other(text: string)

  /** A request for matches; `extensions` is None for a nil map. */
  datatype MmfRequest = MmfRequest(mmfs: seq<string>, profile: string, pools: seq<string>,
                                   extensions: Option<map<string, Extension>>)

  datatype ParamsJson = ParamsJson(params: seq<MmfRequest>)

  datatype AllocSpec = AllocSpec(hashLabel: Hash, annotation: Option<ParamsJson>)

  datatype SpecJson = SpecJson(spec: AllocSpec)

  datatype GameServerSet = GameServerSet(count: int, allocSpec: AllocSpec, mmfParams: seq<MmfRequest>)

  type GameServers = map<SpecJson, GameServerSet>

  // -------------------------------------------------------------------------- specification

  function SpecFor(hash: ParamsJson -> Hash, params: seq<MmfRequest>): AllocSpec {
    AllocSpec(hash(ParamsJson(params)), Some(ParamsJson(params)))
  }

  function RemoveOne(gs: GameServers, key: SpecJson): GameServers {
    if key !in gs then gs
    else if gs[key].count > 1 then gs[key := gs[key].(count := gs[key].count - 1)]
    else gs - {key}
  }

  function AddOne(gs: GameServers, spec: AllocSpec, params: seq<MmfRequest>): GameServers {
    var key := SpecJson(spec);
    gs[key := GameServerSet((if key in gs then gs[key].count else 0) + 1, spec, params)]
  }

  /** Every entry sits under the serialisation of its own spec and stands for at least one server. */
  ghost predicate WellFormed(gs: GameServers) {
    forall key :: key in gs ==> key == SpecJson(gs[key].allocSpec) && gs[key].count >= 1
  }

  /** The number of ready servers a spec selects. */
  function Count(gs: GameServers, key: SpecJson): int {
    if key in gs then gs[key].count else 0
  }

  /** Go's conversion to int32. */
  function ToInt32(n: int): int {
    (n + 0x8000_0000) % 0x1_0000_0000 - 0x8000_0000
  }

  function Annotated(extensions: Option<map<string, Extension>>, set_: GameServerSet): map<string, Extension> {
    (if extensions.Some? then extensions.value else map[])
      [AGONES_READY_COUNT_KEY := Int32(ToInt32(set_.count))]
      [AGONES_ALLOCATOR_KEY := Allocator(SpecJson(set_.allocSpec))]
      [MMF_REQUEST_HASH_KEY := Label(set_.allocSpec.hashLabel)]
  }

  /** The requests sent to om-core for one set of servers. */
  function Emitted(set_: GameServerSet): seq<MmfRequest> {
    seq(|set_.mmfParams|, i requires 0 <= i < |set_.mmfParams| =>
      set_.mmfParams[i].(extensions := Some(Annotated(set_.mmfParams[i].extensions, set_))))
  }

  /** Emitting writes into the stored extension maps, except where a request has none. */
  function Stored(set_: GameServerSet): GameServerSet {
    set_.(mmfParams := seq(|set_.mmfParams|, i requires 0 <= i < |set_.mmfParams| =>
      if set_.mmfParams[i].extensions.Some? then Emitted(set_)[i] else set_.mmfParams[i]))
  }

  function AfterEmitting(gs: GameServers): GameServers {
    map key | key in gs :: Stored(gs[key])
  }

  function EmittedAll(gs: GameServers, order: seq<SpecJson>): seq<MmfRequest>
    requires forall key :: key in order ==> key in gs
  {
    if order == [] then []
    else EmittedAll(gs, order[..|order| - 1]) + Emitted(gs[order[|order| - 1]])
  }

  // ------------------------------------------------------------------------------ the code

  datatype SpecCount = SpecCount(spec: SpecJson, count: int)

  predicate FewerServers(x: SpecCount, y: SpecCount) {
    x.count < y.count
  }

  class MockAgonesIntegration {
    const hash: ParamsJson -> Hash
    var gameServers: GameServers

    /** One event of the mock informer: CREATE without a spec, DELETE without parameters, else UPDATE. */
    method ProcessGameServerUpdate(allocSpec: Option<AllocSpec>, mmfParams: seq<MmfRequest>)
      modifies `gameServers
      ensures var removed := if allocSpec.Some? then RemoveOne(old(gameServers), SpecJson(allocSpec.value))
                             else old(gameServers);
              gameServers == if mmfParams != [] then AddOne(removed, SpecFor(hash, mmfParams), mmfParams) else removed
    {
      if allocSpec.Some? {
        var key := SpecJson(allocSpec.value);
        if key in gameServers {
          if gameServers[key].count - 1 > 0 {
            gameServers := gameServers[key := gameServers[key].(count := gameServers[key].count - 1)];
          } else {
            gameServers := gameServers - {key};
          }
        }
      }
      if |mmfParams| > 0 {
        var newSpec := SpecFor(hash, mmfParams);
        var key := SpecJson(newSpec);
        if key !in gameServers {
          gameServers := gameServers[key := GameServerSet(0, newSpec, [])];
        }
        gameServers := gameServers[key := gameServers[key].(allocSpec := newSpec)];
        gameServers := gameServers[key := gameServers[key].(mmfParams := mmfParams)];
        gameServers := gameServers[key := gameServers[key].(count := gameServers[key].count + 1)];
      }
    }

    /** The source dereferences a nil pointer when the spec is not registered. */
    method UpdateGameServerMetadata(defunct: SpecJson, mmfParams: seq<MmfRequest>)
      requires defunct in gameServers && WellFormed(gameServers)
      modifies `gameServers
      ensures var removed := RemoveOne(old(gameServers), defunct);
              gameServers == if mmfParams != [] then AddOne(removed, SpecFor(hash, mmfParams), mmfParams) else removed
    {
      var spec := gameServers[defunct].allocSpec;
      ProcessGameServerUpdate(Some(spec), mmfParams);
    }

    method UpdateMMFRequest(defunct: SpecJson, param: MmfRequest) returns (spec: SpecJson)
      requires defunct in gameServers && WellFormed(gameServers)
      modifies `gameServers
      ensures WellFormed(gameServers)
      ensures spec == SpecJson(SpecFor(hash, [param]))
      ensures gameServers == AddOne(RemoveOne(old(gameServers), defunct), SpecFor(hash, [param]), [param])
    {
      spec := SpecJson(SpecFor(hash, [param]));
      UpdateGameServerMetadata(defunct, [param]);
    }

    method Allocate(spec: SpecJson) returns (connString: string)
      requires WellFormed(gameServers)
      modifies `gameServers
      ensures WellFormed(gameServers)
      ensures connString == if spec in old(gameServers) then CONNECTION else ""
      ensures gameServers == RemoveOne(old(gameServers), spec)
    {
      if spec !in gameServers {
        return "";
      }
      UpdateGameServerMetadata(spec, []);
      connString := CONNECTION;
    }

    /** The walk over the map, in whatever order it takes. */
    method Counts() returns (entries: seq<SpecCount>)
      ensures ListsCounts(entries, gameServers, gameServers.Keys)
    {
      entries := [];
      var todo := gameServers.Keys;
      while todo != {}
        invariant todo <= gameServers.Keys
        invariant ListsCounts(entries, gameServers, gameServers.Keys - todo)
        decreases todo
      {
        var key :| key in todo;
        todo := todo - {key};
        entries := entries + [SpecCount(key, gameServers[key].count)];
      }
    }

    /** The registered specs, fewest servers first; ties are left in any order. */
    method SpecsByCount() returns (order: seq<SpecJson>)
      ensures IsCountOrder(gameServers, order)
    {
      var entries := Counts();
      var a := new SpecCount[|entries|](i requires 0 <= i < |entries| => entries[i]);
      assert a[..] == entries;
      Sort(a, FewerServers);
      CountOrder(gameServers, entries, a[..]);
      order := Specs(a[..]);
    }

    method GetMMFParams() returns (requests: seq<MmfRequest>, ghost order: seq<SpecJson>)
      modifies `gameServers
      ensures IsCountOrder(old(gameServers), order)
      ensures requests == EmittedAll(old(gameServers), order)
      ensures gameServers == AfterEmitting(old(gameServers))
    {
      var specs := SpecsByCount();
      ghost var gs := gameServers;
      order := specs;
      requests := [];
      StoredNone(gs, specs);
      for i := 0 to |specs|
        invariant gameServers == StoredWhere(gs, specs[..i]) && requests == EmittedAll(gs, specs[..i])
      {
        StoredStep(gs, specs, i);
        var emitted := EmitFor(specs[i]);
        requests := requests + emitted;
      }
      StoredAll(gs, specs);
    }

    method EmitFor(spec: SpecJson) returns (emitted: seq<MmfRequest>)
      requires spec in gameServers
      modifies `gameServers
      ensures emitted == Emitted(old(gameServers)[spec])
      ensures gameServers == old(gameServers)[spec := Stored(old(gameServers)[spec])]
    {
      emitted := [];
      var set_ := gameServers[spec];
      var params := set_.mmfParams;
      for i := 0 to |set_.mmfParams|
        invariant |params| == |set_.mmfParams|
        invariant emitted == Emitted(set_)[..i]
        invariant forall j :: 0 <= j < |params| ==> params[j] == if j < i then Stored(set_).mmfParams[j] else set_.mmfParams[j]
      {
        var request := set_.mmfParams[i];
        var extensions := Annotated(request.extensions, set_);
        if request.extensions.Some? {
          params := params[i := request.(extensions := Some(extensions))];
        }
        emitted := emitted + [request.(extensions := Some(extensions))];
      }
      assert params == Stored(set_).mmfParams;
      gameServers := gameServers[spec := set_.(mmfParams := params)];
    }
  }

  function StoredWhere(gs: GameServers, done: seq<SpecJson>): GameServers {
    map key | key in gs :: if key in done then Stored(gs[key]) else gs[key]
  }

  lemma StoredNone(gs: GameServers, order: seq<SpecJson>)
    ensures StoredWhere(gs, order[..0]) == gs && EmittedAll(gs, order[..0]) == []
  {
  }

  lemma StoredAll(gs: GameServers, order: seq<SpecJson>)
    requires IsCountOrder(gs, order)
    ensures StoredWhere(gs, order[..|order|]) == AfterEmitting(gs) && order[..|order|] == order
  {
  }

  lemma StoredStep(gs: GameServers, order: seq<SpecJson>, i: nat)
    requires IsCountOrder(gs, order) && i < |order|
    ensures order[i] in gs && StoredWhere(gs, order[..i])[order[i]] == gs[order[i]]
    ensures StoredWhere(gs, order[..i + 1]) == StoredWhere(gs, order[..i])[order[i] := Stored(gs[order[i]])]
    ensures EmittedAll(gs, order[..i + 1]) == EmittedAll(gs, order[..i]) + Emitted(gs[order[i]])
  {
    assert order[..i + 1][..i] == order[..i] && order[i] in order;
    assert forall key :: key in order[..i + 1] <==> key in order[..i] || key == order[i];
    assert order[i] !in order[..i];
  }

  /** One entry with the right count for each of the keys. */
  ghost predicate ListsCounts(entries: seq<SpecCount>, gs: GameServers, keys: set<SpecJson>) {
    && (forall e :: e in entries ==> e.spec in keys && e.spec in gs && e.count == gs[e.spec].count)
    && (forall key :: key in keys && key in gs ==> multiset(entries)[SpecCount(key, gs[key].count)] == 1)
  }

  function Specs(entries: seq<SpecCount>): seq<SpecJson> {
    seq(|entries|, i requires 0 <= i < |entries| => entries[i].spec)
  }

  /** Each registered spec occurs once, and server counts never decrease along the order. */
  ghost predicate IsCountOrder(gs: GameServers, order: seq<SpecJson>) {
    && (forall key :: key in order <==> key in gs)
    && (forall i, j :: 0 <= i < j < |order| ==> order[i] != order[j])
    && (forall i, j :: 0 <= i < j < |order| ==> Count(gs, order[i]) <= Count(gs, order[j]))
  }

  lemma EntryOf(gs: GameServers, entries: seq<SpecCount>, sorted: seq<SpecCount>, i: nat)
    requires multiset(sorted) == multiset(entries) && ListsCounts(entries, gs, gs.Keys) && i < |sorted|
    ensures sorted[i].spec in gs && sorted[i].count == gs[sorted[i].spec].count
  {
    assert sorted[i] in multiset(sorted) && sorted[i] in multiset(entries);
  }

  lemma EntryFor(gs: GameServers, entries: seq<SpecCount>, sorted: seq<SpecCount>, key: SpecJson) returns (i: nat)
    requires multiset(sorted) == multiset(entries) && ListsCounts(entries, gs, gs.Keys) && key in gs
    ensures i < |sorted| && sorted[i].spec == key
  {
    var e := SpecCount(key, gs[key].count);
    assert e in multiset(entries) && e in multiset(sorted);
    i :| 0 <= i < |sorted| && sorted[i] == e;
  }

  lemma EntriesDiffer(gs: GameServers, entries: seq<SpecCount>, sorted: seq<SpecCount>, i: nat, j: nat)
    requires multiset(sorted) == multiset(entries) && ListsCounts(entries, gs, gs.Keys) && i < j < |sorted|
    ensures sorted[i].spec != sorted[j].spec
  {
    EntryOf(gs, entries, sorted, i);
    EntryOf(gs, entries, sorted, j);
    if sorted[i] == sorted[j] {
      Twice(sorted, i, j);
    }
  }

  lemma CountOrder(gs: GameServers, entries: seq<SpecCount>, sorted: seq<SpecCount>)
    requires Sorted(FewerServers, sorted) && multiset(sorted) == multiset(entries)
    requires ListsCounts(entries, gs, gs.Keys)
    ensures IsCountOrder(gs, Specs(sorted))
  {
    var order := Specs(sorted);
    forall key | key in gs ensures key in order {
      var i := EntryFor(gs, entries, sorted, key);
      assert order[i] == key;
    }
    forall key | key in order ensures key in gs {
      var i :| 0 <= i < |order| && order[i] == key;
      EntryOf(gs, entries, sorted, i);
    }
    forall i, j | 0 <= i < j < |order| ensures order[i] != order[j] && Count(gs, order[i]) <= Count(gs, order[j]) {
      EntriesDiffer(gs, entries, sorted, i, j);
      EntryOf(gs, entries, sorted, i);
      EntryOf(gs, entries, sorted, j);
      assert !FewerServers(sorted[j], sorted[i]);
    }
  }

  lemma Twice<T>(s: seq<T>, i: nat, j: nat)
    requires i < j < |s| && s[i] == s[j]
    ensures multiset(s)[s[i]] >= 2
  {
    assert s == s[..j] + s[j..];
    assert s[i] in multiset(s[..j]) && s[j] in multiset(s[j..]);
  }
}
