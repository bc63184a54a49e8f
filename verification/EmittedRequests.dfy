/** What the requests hold that the registry emits for om-core, and how specs are labelled. */
module EmittedRequests {
  import opened AgonesRegistry
  import opened RegistryTheorems
  import opened Options

  // --------------------------------------------------------------------------- one request

  predicate IsAgonesKey(key: string) {
    key == AGONES_READY_COUNT_KEY || key == AGONES_ALLOCATOR_KEY || key == MMF_REQUEST_HASH_KEY
  }

  function Extended(request: MmfRequest): map<string, Extension> {
    if request.extensions.Some? then request.extensions.value else map[]
  }

  /** The value is an int32 that differs from the count by a multiple of 2 to the 32: the count itself, if it fits. */
  predicate ReadyCount(value: Extension, count: int) {
    && value.Int32? && -0x8000_0000 <= value.value < 0x8000_0000
    && (value.value - count) % 0x1_0000_0000 == 0
    && (-0x8000_0000 <= count < 0x8000_0000 ==> value.value == count)
  }

  /** An emitted request asks for what the stored one asks for, of the same pools by the same functions; it keeps
      the extensions, and says besides how many servers are ready, by which spec they are allocated, and the label. */
  ghost predicate Emits(emitted: MmfRequest, stored: MmfRequest, set_: GameServerSet) {
    && emitted.mmfs == stored.mmfs && emitted.profile == stored.profile && emitted.pools == stored.pools
    && emitted.extensions.Some?
    && var extensions := emitted.extensions.value;
       && (forall key :: !IsAgonesKey(key) ==> (key in extensions <==> key in Extended(stored)))
       && (forall key :: !IsAgonesKey(key) && key in extensions ==> extensions[key] == Extended(stored)[key])
       && (forall key :: IsAgonesKey(key) ==> key in extensions)
       && ReadyCount(extensions[AGONES_READY_COUNT_KEY], set_.count)
       && extensions[AGONES_ALLOCATOR_KEY] == Allocator(SpecJson(set_.allocSpec))
       && extensions[MMF_REQUEST_HASH_KEY] == Label(set_.allocSpec.hashLabel)
  }

  lemma AgonesKeysDiffer()
    ensures AGONES_READY_COUNT_KEY != AGONES_ALLOCATOR_KEY
    ensures AGONES_READY_COUNT_KEY != MMF_REQUEST_HASH_KEY
    ensures AGONES_ALLOCATOR_KEY != MMF_REQUEST_HASH_KEY
  {
    assert AGONES_READY_COUNT_KEY[34] != AGONES_ALLOCATOR_KEY[34];
    assert AGONES_READY_COUNT_KEY[15] != MMF_REQUEST_HASH_KEY[15];
    assert AGONES_ALLOCATOR_KEY[15] != MMF_REQUEST_HASH_KEY[15];
  }

  lemma CountIsReady(count: int)
    ensures ReadyCount(Int32(ToInt32(count)), count)
  {
    var x := count + 0x8000_0000;
    assert x == (x / 0x1_0000_0000) * 0x1_0000_0000 + x % 0x1_0000_0000;
    assert ToInt32(count) - count == -(x / 0x1_0000_0000) * 0x1_0000_0000;
  }

  lemma AnnotatedHolds(extensions: Option<map<string, Extension>>, set_: GameServerSet, key: string)
    ensures var a := Annotated(extensions, set_); var before := if extensions.Some? then extensions.value else map[];
            && (key in a <==> key in before || IsAgonesKey(key))
            && (key in a && !IsAgonesKey(key) ==> a[key] == before[key])
            && AGONES_READY_COUNT_KEY in a && a[AGONES_READY_COUNT_KEY] == Int32(ToInt32(set_.count))
            && AGONES_ALLOCATOR_KEY in a && a[AGONES_ALLOCATOR_KEY] == Allocator(SpecJson(set_.allocSpec))
            && MMF_REQUEST_HASH_KEY in a && a[MMF_REQUEST_HASH_KEY] == Label(set_.allocSpec.hashLabel)
  {
    AgonesKeysDiffer();
  }

  lemma EmittedKeepsRequest(set_: GameServerSet, j: nat)
    requires j < |set_.mmfParams|
    ensures Emits(Emitted(set_)[j], set_.mmfParams[j], set_)
  {
    var stored := set_.mmfParams[j];
    var extensions := Annotated(stored.extensions, set_);
    forall key
      ensures key in extensions <==> key in Extended(stored) || IsAgonesKey(key)
      ensures key in extensions && !IsAgonesKey(key) ==> extensions[key] == Extended(stored)[key]
    {
      AnnotatedHolds(stored.extensions, set_, key);
    }
    AnnotatedHolds(stored.extensions, set_, AGONES_READY_COUNT_KEY);
    CountIsReady(set_.count);
  }

  // --------------------------------------------------------------------------- all requests

  /** How many requests the first p sets of the order emit. */
  function EmittedBefore(gs: GameServers, order: seq<SpecJson>, p: nat): nat
    requires p <= |order| && forall key :: key in order ==> key in gs
  {
    if p == 0 then 0 else EmittedBefore(gs, order, p - 1) + |gs[order[p - 1]].mmfParams|
  }

  lemma OneMoreSetEmitted(gs: GameServers, order: seq<SpecJson>, n: nat)
    requires n < |order| && forall key :: key in order ==> key in gs
    ensures forall key :: key in order[..n] || key in order[..n + 1] ==> key in gs
    ensures EmittedAll(gs, order[..n + 1]) == EmittedAll(gs, order[..n]) + Emitted(gs[order[n]])
  {
    assert order[..n + 1][..n] == order[..n];
  }

  lemma {:induction false} EmittedUpTo(gs: GameServers, order: seq<SpecJson>, n: nat, p: nat, j: nat)
    requires n <= |order| && forall key :: key in order ==> key in gs
    ensures forall key :: key in order[..n] ==> key in gs
    ensures |EmittedAll(gs, order[..n])| == EmittedBefore(gs, order, n)
    ensures p < n && j < |gs[order[p]].mmfParams| ==>
              && EmittedBefore(gs, order, p) + j < |EmittedAll(gs, order[..n])|
              && EmittedAll(gs, order[..n])[EmittedBefore(gs, order, p) + j] == Emitted(gs[order[p]])[j]
  {
    if n > 0 {
      EmittedUpTo(gs, order, n - 1, p, j);
      OneMoreSetEmitted(gs, order, n - 1);
    }
  }

  /** The j-th request stored with the p-th set of the order is emitted once, after all those of earlier sets. */
  lemma EachStoredRequestIsEmitted(gs: GameServers, order: seq<SpecJson>, p: nat, j: nat)
    requires (forall key :: key in order ==> key in gs) && p < |order| && j < |gs[order[p]].mmfParams|
    ensures var requests, at := EmittedAll(gs, order), EmittedBefore(gs, order, p) + j;
            && |requests| == EmittedBefore(gs, order, |order|) && at < |requests|
            && Emits(requests[at], gs[order[p]].mmfParams[j], gs[order[p]])
  {
    assert order[..|order|] == order;
    EmittedUpTo(gs, order, |order|, p, j);
    EmittedKeepsRequest(gs[order[p]], j);
  }

  // ----------------------------------------------------------------------------- and again

  lemma AnnotatedTwice(extensions: map<string, Extension>, set_: GameServerSet, again: GameServerSet)
    requires again.count == set_.count && again.allocSpec == set_.allocSpec
    ensures Annotated(Some(Annotated(Some(extensions), set_)), again) == Annotated(Some(extensions), set_)
  {
    AgonesKeysDiffer();
    var once := Annotated(Some(extensions), set_);
    var twice := Annotated(Some(once), again);
    forall key ensures key in twice <==> key in once {
      AnnotatedHolds(Some(extensions), set_, key);
      AnnotatedHolds(Some(once), again, key);
    }
    forall key | key in once ensures twice[key] == once[key] {
      AnnotatedHolds(Some(extensions), set_, key);
      AnnotatedHolds(Some(once), again, key);
    }
  }

  lemma EmittedTwice(set_: GameServerSet)
    ensures Emitted(Stored(set_)) == Emitted(set_)
  {
    var again := Stored(set_);
    forall j | 0 <= j < |set_.mmfParams| ensures Emitted(again)[j] == Emitted(set_)[j] {
      if set_.mmfParams[j].extensions.Some? {
        AnnotatedTwice(set_.mmfParams[j].extensions.value, set_, again);
      }
    }
  }

  /** Emitting again, before anything else has changed, emits the very same requests; what it left in the registry
      are the requests stored before, those with an extension map in the form in which they were emitted. */
  lemma {:induction false} EmittingAgainEmitsTheSame(gs: GameServers, order: seq<SpecJson>)
    requires forall key :: key in order ==> key in gs
    ensures EmittedAll(AfterEmitting(gs), order) == EmittedAll(gs, order)
    ensures forall key :: key in gs ==>
              && key in AfterEmitting(gs) && AfterEmitting(gs)[key].allocSpec == gs[key].allocSpec
              && |AfterEmitting(gs)[key].mmfParams| == |gs[key].mmfParams|
              && forall j :: 0 <= j < |gs[key].mmfParams| ==>
                   var before, after := gs[key].mmfParams[j], AfterEmitting(gs)[key].mmfParams[j];
                   if before.extensions.None? then after == before else Emits(after, before, gs[key])
  {
    forall key, j | key in gs && 0 <= j < |gs[key].mmfParams| && gs[key].mmfParams[j].extensions.Some?
      ensures Emits(AfterEmitting(gs)[key].mmfParams[j], gs[key].mmfParams[j], gs[key])
    {
      EmittedKeepsRequest(gs[key], j);
    }
    if order != [] {
      var n := |order| - 1;
      EmittingAgainEmitsTheSame(gs, order[..n]);
      EmittedTwice(gs[order[n]]);
    }
  }

  // -------------------------------------------------------------------------------- labels

  /** A spec that names requests is labelled with their hash. */
  predicate Labelled(hash: ParamsJson -> Hash, key: SpecJson) {
    key.spec.annotation.Some? ==> key.spec.hashLabel == hash(key.spec.annotation.value)
  }

  ghost predicate AllLabelled(hash: ParamsJson -> Hash, gs: GameServers) {
    forall key :: key in gs ==> Labelled(hash, key)
  }

  lemma AddingKeepsLabels(hash: ParamsJson -> Hash, gs: GameServers, removed: SpecJson, params: seq<MmfRequest>)
    requires AllLabelled(hash, gs)
    ensures AllLabelled(hash, RemoveOne(gs, removed)) && AllLabelled(hash, AddOne(gs, SpecFor(hash, params), params))
  {
  }

  lemma {:induction false} UpdatesKeepLabels(hash: ParamsJson -> Hash, gs: GameServers, draws: seq<Draw>)
    requires AllLabelled(hash, gs)
    ensures AllLabelled(hash, AfterUpdates(hash, gs, draws))
  {
    if draws != [] {
      var n := |draws| - 1;
      var before, d := AfterUpdates(hash, gs, draws[..n]), draws[n];
      UpdatesKeepLabels(hash, gs, draws[..n]);
      if d.next.Some? {
        AddingKeepsLabels(hash, before, d.from, []);
        AddingKeepsLabels(hash, RemoveOne(before, d.from), d.from, [d.next.value]);
      }
    }
  }

  lemma {:induction false} AllocationsKeepLabels(hash: ParamsJson -> Hash, gs: GameServers, order: seq<SpecJson>)
    requires AllLabelled(hash, gs)
    ensures AllLabelled(hash, AfterAllocations(gs, order))
  {
    if order != [] {
      AllocationsKeepLabels(hash, gs, order[..|order| - 1]);
    }
  }

  /** A match with a next request is allocated by the spec that names this request and has its hash for a label;
      and no cycle leaves a spec that names requests with any other label than their hash. */
  lemma LabelsAreHashes(hash: ParamsJson -> Hash, gs: GameServers, draws: seq<Draw>, order: seq<SpecJson>)
    requires AllLabelled(hash, gs)
    ensures forall i :: 0 <= i < |draws| && draws[i].next.Some? ==>
              var spec := Final(hash, draws[i]).spec;
              && spec.annotation == Some(ParamsJson([draws[i].next.value]))
              && spec.hashLabel == hash(ParamsJson([draws[i].next.value]))
    ensures AllLabelled(hash, AfterAllocations(AfterUpdates(hash, gs, draws), order))
    ensures AllLabelled(hash, AfterEmitting(gs))
  {
    UpdatesKeepLabels(hash, gs, draws);
    AllocationsKeepLabels(hash, AfterUpdates(hash, gs, draws), order);
  }

  /** No two sets of requests that the registered specs name have one hash. */
  ghost predicate HashesDiffer(hash: ParamsJson -> Hash, gs: GameServers) {
    forall k, l :: k in gs && l in gs && k.spec.annotation.Some? && l.spec.annotation.Some? &&
                   k.spec.annotation != l.spec.annotation ==>
      hash(k.spec.annotation.value) != hash(l.spec.annotation.value)
  }

  /** Unless hashes collide, requests stored with specs that name requests, and emitted, lead back to their servers. */
  lemma NamedRequestsLeadBack(hash: ParamsJson -> Hash, gs: GameServers, order: seq<SpecJson>,
                              pending: map<Hash, MmfRequest>, p: nat, j: nat)
    requires WellFormed(gs) && IsCountOrder(gs, order) && p < |order| && j < |gs[order[p]].mmfParams|
    requires AllLabelled(hash, gs) && HashesDiffer(hash, gs) && forall key :: key in gs ==> key.spec.annotation.Some?
    ensures var request := Emitted(gs[order[p]])[j];
            var after := Register(pending, EmittedAll(gs, order));
            && LabelOf(request).Some? && LabelOf(request).value in after
            && AllocatorOf(after[LabelOf(request).value]) == Some(order[p])
  {
    forall k, l | k in gs && l in gs && k != l ensures gs[k].allocSpec.hashLabel != gs[l].allocSpec.hashLabel {
      assert Labelled(hash, k) && Labelled(hash, l);
      assert k == SpecJson(gs[k].allocSpec) && l == SpecJson(gs[l].allocSpec);
    }
    DistinctLabelsLeadBack(gs, order, pending, p, j);
  }
}
