/** Reassembly of a profile that arrives in chunks (v2/examples/mmf/server/server.go:79-136). */
module ChunkedRequest {
  import opened Options

  type Ticket = string

  /** A pool's description, and its participants' tickets if it has participants. */
  datatype Pool = Pool(filters: string, participants: Option<seq<Ticket>>)

  datatype Profile = Profile(name: string, pools: map<string, Pool>, extensions: string)

  datatype Chunk = Chunk(numChunks: int, profile: Profile)

  /** What stream.Recv returns. */
  datatype Recv = Received(chunk: Chunk) | Failed(error: string)

  /** `NoProfile` is the nil profile without an error after 2147483647 chunks, when the int32 counter wraps;
      `Crash` the nil dereference of the participants of a pool that has none. */
  datatype Result = Request(profile: Profile) | Error(error: string) | NoProfile | Crash

  const MAX_INT32 := 0x7fff_ffff

  function Tickets(p: Pool): seq<Ticket> {
    if p.participants.Some? then p.participants.value else []
  }

  /** A chunk brings tickets for a pool seen before that has no participants. */
  predicate Crashes(pools: map<string, Pool>, incoming: map<string, Pool>) {
    exists name :: name in incoming && name in pools && pools[name].participants.None?
  }

  function MergePool(pools: map<string, Pool>, name: string, pool: Pool): Pool {
    if name in pools then pools[name].(participants := Some(Tickets(pools[name]) + Tickets(pool))) else pool
  }

  function Merge(pools: map<string, Pool>, incoming: map<string, Pool>): map<string, Pool> {
    map name | name in pools.Keys + incoming.Keys ::
      if name in incoming then MergePool(pools, name, incoming[name]) else pools[name]
  }

  function Pools(chunks: seq<Chunk>): map<string, Pool> {
    if chunks == [] then map[]
    else Merge(Pools(chunks[..|chunks| - 1]), chunks[|chunks| - 1].profile.pools)
  }

  // ----------------------------------------------------------------------------- references

  predicate Has(c: Chunk, name: string) {
    name in c.profile.pools
  }

  function Piece(c: Chunk, name: string): seq<Ticket> {
    if Has(c, name) then Tickets(c.profile.pools[name]) else []
  }

  /** A pool's tickets in the order they arrived. */
  function Arrived(chunks: seq<Chunk>, name: string): seq<Ticket> {
    if chunks == [] then [] else Arrived(chunks[..|chunks| - 1], name) + Piece(chunks[|chunks| - 1], name)
  }

  /** The first chunk with the pool describes it. */
  function FirstWith(chunks: seq<Chunk>, name: string): Option<Pool> {
    if chunks == [] then None
    else
      var earlier, last := FirstWith(chunks[..|chunks| - 1], name), chunks[|chunks| - 1];
      if earlier.Some? then earlier else if Has(last, name) then Some(last.profile.pools[name]) else None
  }

  /** Every pool is what its first chunk says, with the tickets of all its pieces in the order of arrival. */
  lemma {:induction false} PoolsAreConcatenations(chunks: seq<Chunk>, name: string)
    ensures name in Pools(chunks) <==> exists k :: 0 <= k < |chunks| && Has(chunks[k], name)
    ensures name in Pools(chunks) <==> FirstWith(chunks, name).Some?
    ensures name in Pools(chunks) ==>
              && Tickets(Pools(chunks)[name]) == Arrived(chunks, name)
              && Pools(chunks)[name].filters == FirstWith(chunks, name).value.filters
    ensures name !in Pools(chunks) ==> Arrived(chunks, name) == []
  {
    if chunks != [] {
      var n := |chunks| - 1;
      PoolsAreConcatenations(chunks[..n], name);
      if Has(chunks[n], name) {
        assert name in Pools(chunks);
      } else if name in Pools(chunks[..n]) {
        var k :| 0 <= k < n && Has(chunks[..n][k], name);
        assert Has(chunks[k], name);
      }
    }
  }

  // -------------------------------------------------------------------------------- the loop

  /** What the loop returns when `k` chunks have been merged into `pools`. */
  function Outcome(stream: seq<Recv>, k: nat, pools: map<string, Pool>): Result
    requires k <= MAX_INT32
    decreases MAX_INT32 - k
  {
    if k == MAX_INT32 then NoProfile
    else if k >= |stream| then Error("EOF")
    else match stream[k]
      case Failed(error) => Error(error)
      case Received(chunk) =>
        if Crashes(pools, chunk.profile.pools) then Crash
        else
          var merged := Merge(pools, chunk.profile.pools);
          if chunk.numChunks == k + 1 then Request(chunk.profile.(pools := merged)) else Outcome(stream, k + 1, merged)
  }

  predicate CrashesAt(chunks: seq<Chunk>, k: nat)
    requires k < |chunks|
  {
    Crashes(Pools(chunks[..k]), chunks[k].profile.pools)
  }

  predicate NoCrash(chunks: seq<Chunk>) {
    forall k :: 0 <= k < |chunks| ==> !CrashesAt(chunks, k)
  }

  /** No chunk before the last says that it is the last. */
  predicate NoneEndsEarly(chunks: seq<Chunk>) {
    forall k :: 0 <= k < |chunks| - 1 ==> chunks[k].numChunks != k + 1
  }

  /** The first chunk that says how many chunks there are up to itself. */
  predicate LastIs(chunks: seq<Chunk>) {
    chunks != [] && chunks[|chunks| - 1].numChunks == |chunks| && NoneEndsEarly(chunks)
  }

  ghost predicate Brings(stream: seq<Recv>, chunks: seq<Chunk>) {
    |chunks| <= |stream| && forall k :: 0 <= k < |chunks| ==> stream[k] == Received(chunks[k])
  }

  ghost predicate Complete(stream: seq<Recv>, chunks: seq<Chunk>) {
    Brings(stream, chunks) && LastIs(chunks) && NoCrash(chunks) && |chunks| <= MAX_INT32
  }

  function Assembled(chunks: seq<Chunk>): Profile
    requires chunks != []
  {
    chunks[|chunks| - 1].profile.(pools := Pools(chunks))
  }

  lemma {:induction false} CompleteFrom(stream: seq<Recv>, chunks: seq<Chunk>, k: nat)
    requires Complete(stream, chunks) && k < |chunks|
    ensures Outcome(stream, k, Pools(chunks[..k])) == Request(Assembled(chunks))
    decreases |chunks| - k
  {
    assert !CrashesAt(chunks, k) && chunks[..k + 1][..k] == chunks[..k];
    if k + 1 == |chunks| {
      assert chunks[..k + 1] == chunks;
    } else {
      CompleteFrom(stream, chunks, k + 1);
    }
  }

  lemma RequestNeedsChunk(stream: seq<Recv>, k: nat, pools: map<string, Pool>)
    requires k <= MAX_INT32 && Outcome(stream, k, pools).Request?
    ensures k < MAX_INT32 && k < |stream| && stream[k].Received? && !Crashes(pools, stream[k].chunk.profile.pools)
    ensures stream[k].chunk.numChunks == k + 1 || Outcome(stream, k + 1, Merge(pools, stream[k].chunk.profile.pools)).Request?
  {
  }

  lemma {:induction false} RequestFrom(stream: seq<Recv>, chunks: seq<Chunk>, pools: map<string, Pool>) returns (all: seq<Chunk>)
    requires Brings(stream, chunks) && NoCrash(chunks) && |chunks| <= MAX_INT32 && pools == Pools(chunks)
    requires forall k :: 0 <= k < |chunks| ==> chunks[k].numChunks != k + 1
    requires Outcome(stream, |chunks|, pools).Request?
    ensures chunks < all && Complete(stream, all)
    decreases |stream| - |chunks|
  {
    RequestNeedsChunk(stream, |chunks|, pools);
    var chunk := stream[|chunks|].chunk;
    OneMoreChunk(stream, chunks, chunk);
    all := chunks + [chunk];
    if chunk.numChunks != |all| {
      all := RequestFrom(stream, all, Merge(pools, chunk.profile.pools));
    }
  }

  lemma OneMoreChunk(stream: seq<Recv>, chunks: seq<Chunk>, chunk: Chunk)
    requires Brings(stream, chunks) && NoCrash(chunks) && |chunks| < |stream| && stream[|chunks|] == Received(chunk)
    requires !Crashes(Pools(chunks), chunk.profile.pools)
    ensures Brings(stream, chunks + [chunk]) && NoCrash(chunks + [chunk])
    ensures Pools(chunks + [chunk]) == Merge(Pools(chunks), chunk.profile.pools)
  {
    assert (chunks + [chunk])[..|chunks|] == chunks;
    NoCrashBefore(chunks + [chunk]);
  }

  /** A request comes back exactly when, up to some chunk that gives its own position as the number of
      chunks, all arrive and none crashes; and it is the profile of that chunk with all pools so far. */
  lemma RequestIffComplete(stream: seq<Recv>)
    ensures Outcome(stream, 0, map[]).Request? <==>
            exists chunks :: Complete(stream, chunks)
    ensures forall chunks: seq<Chunk> :: Complete(stream, chunks) ==>
              var last := chunks[|chunks| - 1].profile;
              Outcome(stream, 0, map[]) == Request(Profile(last.name, Pools(chunks), last.extensions))
  {
    forall chunks | Complete(stream, chunks)
      ensures Outcome(stream, 0, map[]) == Request(Assembled(chunks))
    {
      CompleteFrom(stream, chunks, 0);
    }
    if Outcome(stream, 0, map[]).Request? {
      var all := RequestFrom(stream, [], map[]);
    }
  }

  // --------------------------------------------------------------------- when it can crash

  /** While nothing crashes, a pool is without participants exactly if its first chunk gave it none. */
  lemma {:induction false} BareSinceFirst(chunks: seq<Chunk>, name: string)
    requires NoCrash(chunks) && name in Pools(chunks)
    ensures FirstWith(chunks, name).Some?
    ensures Pools(chunks)[name].participants.None? <==> FirstWith(chunks, name).value.participants.None?
  {
    var n := |chunks| - 1;
    PoolsAreConcatenations(chunks, name);
    PoolsAreConcatenations(chunks[..n], name);
    NoCrashBefore(chunks);
    if name in Pools(chunks[..n]) {
      BareSinceFirst(chunks[..n], name);
    }
  }

  lemma NoCrashBefore(chunks: seq<Chunk>)
    requires chunks != []
    ensures var n := |chunks| - 1;
            NoCrash(chunks) <==> NoCrash(chunks[..n]) && !CrashesAt(chunks, n)
  {
    var n := |chunks| - 1;
    forall k | 0 <= k < n ensures CrashesAt(chunks[..n], k) <==> CrashesAt(chunks, k) {
      assert chunks[..n][..k] == chunks[..k];
    }
  }

  /** Chunk k brings tickets for a pool that first came without participants. */
  predicate RepeatsBare(chunks: seq<Chunk>, k: nat, name: string)
    requires k < |chunks|
  {
    Has(chunks[k], name) && FirstWith(chunks[..k], name).Some? && FirstWith(chunks[..k], name).value.participants.None?
  }

  ghost predicate BareAgain(chunks: seq<Chunk>, k: nat)
    requires k < |chunks|
  {
    exists name :: RepeatsBare(chunks, k, name)
  }

  lemma CrashesIffRepeatsBare(chunks: seq<Chunk>, k: nat)
    requires k < |chunks| && NoCrash(chunks[..k])
    ensures CrashesAt(chunks, k) <==> BareAgain(chunks, k)
  {
    forall name | Has(chunks[k], name)
      ensures RepeatsBare(chunks, k, name) <==>
              name in Pools(chunks[..k]) && Pools(chunks[..k])[name].participants.None?
    {
      PoolsAreConcatenations(chunks[..k], name);
      if name in Pools(chunks[..k]) {
        BareSinceFirst(chunks[..k], name);
      }
    }
    if CrashesAt(chunks, k) {
      var name :| name in chunks[k].profile.pools && name in Pools(chunks[..k]) && Pools(chunks[..k])[name].participants.None?;
      assert Has(chunks[k], name) && RepeatsBare(chunks, k, name);
    }
  }

  /** Nothing crashes exactly when no pool whose first chunk gives it no participants comes again. */
  lemma {:induction false} CrashIffABarePoolComesAgain(chunks: seq<Chunk>)
    ensures NoCrash(chunks) <==> forall k: nat, name :: k < |chunks| ==> !RepeatsBare(chunks, k, name)
  {
    if chunks != [] {
      var n := |chunks| - 1;
      var before := chunks[..n];
      CrashIffABarePoolComesAgain(before);
      NoCrashBefore(chunks);
      forall k: nat, name | k < n ensures RepeatsBare(before, k, name) <==> RepeatsBare(chunks, k, name) {
        assert before[..k] == chunks[..k];
      }
      if NoCrash(before) {
        CrashesIffRepeatsBare(chunks, n);
      }
    }
  }

  /** The last of the chunks brings tickets for a pool that first came without participants. */
  ghost predicate BringsCrash(stream: seq<Recv>, chunks: seq<Chunk>) {
    && Brings(stream, chunks) && 0 < |chunks| <= MAX_INT32
    && NoneEndsEarly(chunks) && BareAgain(chunks, |chunks| - 1)
  }

  lemma OneMoreMerged(chunks: seq<Chunk>, k: nat)
    requires k < |chunks| && NoCrash(chunks[..k]) && !CrashesAt(chunks, k)
    ensures NoCrash(chunks[..k + 1]) && Pools(chunks[..k + 1]) == Merge(Pools(chunks[..k]), chunks[k].profile.pools)
  {
    assert chunks[..k + 1][..k] == chunks[..k];
    NoCrashBefore(chunks[..k + 1]);
  }

  lemma {:induction false} CrashFrom(stream: seq<Recv>, chunks: seq<Chunk>, k: nat)
    requires BringsCrash(stream, chunks) && k < |chunks| && NoCrash(chunks[..k])
    ensures Outcome(stream, k, Pools(chunks[..k])).Crash?
    decreases |chunks| - k
  {
    CrashesIffRepeatsBare(chunks, k);
    if !CrashesAt(chunks, k) {
      OneMoreMerged(chunks, k);
      CrashFrom(stream, chunks, k + 1);
    }
  }

  lemma CrashNeedsChunk(stream: seq<Recv>, k: nat, pools: map<string, Pool>)
    requires k <= MAX_INT32 && Outcome(stream, k, pools).Crash?
    ensures k < MAX_INT32 && k < |stream| && stream[k].Received?
    ensures var chunk := stream[k].chunk;
            || Crashes(pools, chunk.profile.pools)
            || (chunk.numChunks != k + 1 && Outcome(stream, k + 1, Merge(pools, chunk.profile.pools)).Crash?)
  {
  }

  lemma {:induction false} ChunksUpToCrash(stream: seq<Recv>, chunks: seq<Chunk>, pools: map<string, Pool>)
    returns (all: seq<Chunk>)
    requires Brings(stream, chunks) && NoCrash(chunks) && |chunks| <= MAX_INT32 && pools == Pools(chunks)
    requires forall k :: 0 <= k < |chunks| ==> chunks[k].numChunks != k + 1
    requires Outcome(stream, |chunks|, pools).Crash?
    ensures BringsCrash(stream, all)
    decreases |stream| - |chunks|
  {
    CrashNeedsChunk(stream, |chunks|, pools);
    var chunk := stream[|chunks|].chunk;
    all := chunks + [chunk];
    if Crashes(pools, chunk.profile.pools) {
      assert all[..|chunks|] == chunks;
      CrashesIffRepeatsBare(all, |chunks|);
    } else {
      OneMoreChunk(stream, chunks, chunk);
      all := ChunksUpToCrash(stream, all, Merge(pools, chunk.profile.pools));
    }
  }

  /** The loop ends in the nil dereference exactly when a chunk arrives, before any has said that it is the last,
      which brings tickets for a pool that first came without participants. */
  lemma CrashIffABarePoolIsReceivedAgain(stream: seq<Recv>)
    ensures Outcome(stream, 0, map[]).Crash? <==> exists chunks :: BringsCrash(stream, chunks)
  {
    if Outcome(stream, 0, map[]).Crash? {
      var all := ChunksUpToCrash(stream, [], map[]);
    }
    if chunks :| BringsCrash(stream, chunks) {
      assert NoCrash(chunks[..0]);
      CrashFrom(stream, chunks, 0);
    }
  }

  // ------------------------------------------------------------------------- all other results

  /** The loop merges these chunks and goes on. */
  ghost predicate GoesOn(stream: seq<Recv>, chunks: seq<Chunk>) {
    && Brings(stream, chunks) && NoCrash(chunks) && |chunks| <= MAX_INT32
    && forall k :: 0 <= k < |chunks| ==> chunks[k].numChunks != k + 1
  }

  lemma {:induction false} OutcomeAfter(stream: seq<Recv>, chunks: seq<Chunk>)
    requires GoesOn(stream, chunks)
    ensures Outcome(stream, 0, map[]) == Outcome(stream, |chunks|, Pools(chunks))
    decreases |chunks|
  {
    if chunks != [] {
      var n := |chunks| - 1;
      NoCrashBefore(chunks);
      assert !CrashesAt(chunks, n);
      OutcomeAfter(stream, chunks[..n]);
    }
  }

  /** The loop stops at receive k, having merged k chunks into the pools. */
  predicate Stops(stream: seq<Recv>, k: nat, pools: map<string, Pool>) {
    || k >= MAX_INT32 || k >= |stream| || stream[k].Failed?
    || Crashes(pools, stream[k].chunk.profile.pools) || stream[k].chunk.numChunks == k + 1
  }

  lemma {:induction false} UpToTheStop(stream: seq<Recv>, chunks: seq<Chunk>) returns (all: seq<Chunk>)
    requires GoesOn(stream, chunks)
    ensures GoesOn(stream, all) && Stops(stream, |all|, Pools(all))
    decreases |stream| - |chunks|
  {
    all := chunks;
    if !Stops(stream, |chunks|, Pools(chunks)) {
      var chunk := stream[|chunks|].chunk;
      OneMoreChunk(stream, chunks, chunk);
      all := UpToTheStop(stream, chunks + [chunk]);
    }
  }

  /** After these chunks, none of which ends the request, the next receive fails. */
  ghost predicate FailsAfter(stream: seq<Recv>, chunks: seq<Chunk>, error: string) {
    && GoesOn(stream, chunks) && |chunks| < MAX_INT32
    && (if |chunks| < |stream| then stream[|chunks|] == Failed(error) else error == "EOF")
  }

  /** An error comes back exactly when it is what a receive returns before the request is complete, and the nil
      profile exactly when the int32 counter wraps first. */
  lemma ErrorIffReceivedFirst(stream: seq<Recv>, error: string)
    ensures Outcome(stream, 0, map[]) == Error(error) <==> exists chunks :: FailsAfter(stream, chunks, error)
    ensures Outcome(stream, 0, map[]) == NoProfile <==> exists chunks :: GoesOn(stream, chunks) && |chunks| == MAX_INT32
  {
    forall chunks | FailsAfter(stream, chunks, error) ensures Outcome(stream, 0, map[]) == Error(error) {
      OutcomeAfter(stream, chunks);
    }
    forall chunks | GoesOn(stream, chunks) && |chunks| == MAX_INT32 ensures Outcome(stream, 0, map[]) == NoProfile {
      OutcomeAfter(stream, chunks);
    }
    var all := UpToTheStop(stream, []);
    OutcomeAfter(stream, all);
    assert Outcome(stream, 0, map[]) == Error(error) ==> FailsAfter(stream, all, error);
  }

  // ----------------------------------------------------------------------- order of arrival

  lemma ArrivedSnoc(chunks: seq<Chunk>, c: Chunk, name: string)
    ensures Arrived(chunks + [c], name) == Arrived(chunks, name) + Piece(c, name)
  {
    assert (chunks + [c])[..|chunks|] == chunks;
  }

  lemma Associate<T>(a: seq<T>, b: seq<T>, c: seq<T>)
    ensures a + b + c == a + (b + c)
  {
  }

  lemma LastApart<T>(s: seq<T>)
    requires s != []
    ensures s == s[..|s| - 1] + [s[|s| - 1]]
  {
  }

  lemma {:induction false} ArrivedConcat(a: seq<Chunk>, b: seq<Chunk>, name: string)
    ensures Arrived(a + b, name) == Arrived(a, name) + Arrived(b, name)
    decreases |b|
  {
    if b == [] {
      assert a + b == a;
      assert Arrived(a, name) + [] == Arrived(a, name);
    } else {
      var shorter, last := b[..|b| - 1], b[|b| - 1];
      LastApart(b);
      ArrivedConcat(a, shorter, name);
      Associate(a, shorter, [last]);
      ArrivedSnoc(a + shorter, last, name);
      ArrivedSnoc(shorter, last, name);
      Associate(Arrived(a, name), Arrived(shorter, name), Piece(last, name));
    }
  }

  lemma TakingOneOut(before: seq<Chunk>, c: Chunk, after: seq<Chunk>, name: string)
    ensures multiset(Arrived(before + [c] + after, name)) ==
            multiset(Arrived(before + after, name)) + multiset(Piece(c, name))
  {
    ArrivedConcat(before + [c], after, name);
    ArrivedSnoc(before, c, name);
    ArrivedConcat(before, after, name);
  }

  lemma TakenOut(b: seq<Chunk>, i: nat)
    requires i < |b|
    ensures b == b[..i] + [b[i]] + b[i + 1..] && multiset(b) == multiset(b[..i] + b[i + 1..]) + multiset{b[i]}
  {
    assert b == b[..i] + [b[i]] + b[i + 1..];
  }

  lemma Cancel(a: multiset<Chunk>, b: multiset<Chunk>, c: Chunk)
    requires a + multiset{c} == b + multiset{c}
    ensures a == b
  {
    assert a == a + multiset{c} - multiset{c} && b == b + multiset{c} - multiset{c};
  }

  lemma {:induction false} ArrivedInAnyOrder(a: seq<Chunk>, b: seq<Chunk>, name: string)
    requires multiset(a) == multiset(b)
    ensures multiset(Arrived(a, name)) == multiset(Arrived(b, name))
    decreases |a|
  {
    if a == [] {
      assert |b| == |multiset(b)| == 0;
    } else {
      var n := |a| - 1;
      var c := a[n];
      assert a == a[..n] + [c] && c in multiset(b);
      var i :| 0 <= i < |b| && b[i] == c;
      TakenOut(b, i);
      Cancel(multiset(a[..n]), multiset(b[..i] + b[i + 1..]), c);
      ArrivedInAnyOrder(a[..n], b[..i] + b[i + 1..], name);
      TakingOneOut(b[..i], c, b[i + 1..], name);
      ArrivedSnoc(a[..n], c, name);
    }
  }

  predicate HaveParticipants(chunks: seq<Chunk>) {
    forall k, name :: 0 <= k < |chunks| && name in chunks[k].profile.pools ==>
      chunks[k].profile.pools[name].participants.Some?
  }

  /** Each chunk says how many chunks there are in all. */
  predicate Announce(chunks: seq<Chunk>) {
    chunks != [] && |chunks| <= MAX_INT32 && forall k :: 0 <= k < |chunks| ==> chunks[k].numChunks == |chunks|
  }

  lemma {:induction false} FirstIsSome(chunks: seq<Chunk>, name: string)
    requires HaveParticipants(chunks) && FirstWith(chunks, name).Some?
    ensures FirstWith(chunks, name).value.participants.Some?
  {
    var n := |chunks| - 1;
    if FirstWith(chunks[..n], name).Some? {
      FirstIsSome(chunks[..n], name);
    }
  }

  lemma Arrives(stream: seq<Recv>, chunks: seq<Chunk>)
    requires Brings(stream, chunks) && Announce(chunks) && HaveParticipants(chunks)
    ensures Outcome(stream, 0, map[]) == Request(Assembled(chunks))
  {
    forall k: nat, name | k < |chunks| ensures !RepeatsBare(chunks, k, name) {
      if FirstWith(chunks[..k], name).Some? {
        FirstIsSome(chunks[..k], name);
      }
    }
    CrashIffABarePoolComesAgain(chunks);
    CompleteFrom(stream, chunks, 0);
  }

  /** In whatever order the chunks of a request arrive, the same pools come back with the same tickets. */
  lemma ChunksMayComeInAnyOrder(stream: seq<Recv>, chunks: seq<Chunk>, other: seq<Recv>, permuted: seq<Chunk>)
    requires Brings(stream, chunks) && Announce(chunks) && HaveParticipants(chunks)
    requires Brings(other, permuted) && multiset(permuted) == multiset(chunks)
    ensures Outcome(stream, 0, map[]) == Request(Assembled(chunks))
    ensures permuted != [] && Outcome(other, 0, map[]) == Request(Assembled(permuted))
    ensures Pools(permuted).Keys == Pools(chunks).Keys
    ensures forall name :: name in Pools(chunks) ==>
              multiset(Tickets(Pools(permuted)[name])) == multiset(Tickets(Pools(chunks)[name]))
  {
    assert |chunks| == |multiset(chunks)| == |multiset(permuted)| == |permuted|;
    assert forall c :: c in permuted <==> c in multiset(chunks);
    assert forall c :: c in chunks <==> c in multiset(permuted);
    forall k | 0 <= k < |permuted| ensures permuted[k] in chunks {
    }
    Arrives(stream, chunks);
    Arrives(other, permuted);
    forall name ensures name in Pools(permuted) <==> name in Pools(chunks) {
      SamePools(chunks, permuted, name);
    }
    forall name | name in Pools(chunks)
      ensures multiset(Tickets(Pools(permuted)[name])) == multiset(Tickets(Pools(chunks)[name]))
    {
      SamePools(chunks, permuted, name);
      ArrivedInAnyOrder(permuted, chunks, name);
      PoolsAreConcatenations(chunks, name);
      PoolsAreConcatenations(permuted, name);
    }
  }

  lemma SamePools(a: seq<Chunk>, b: seq<Chunk>, name: string)
    requires forall c :: c in a <==> c in b
    ensures name in Pools(a) <==> name in Pools(b)
  {
    PoolsAreConcatenations(a, name);
    PoolsAreConcatenations(b, name);
    if k :| 0 <= k < |a| && Has(a[k], name) {
      assert a[k] in b;
    }
    if k :| 0 <= k < |b| && Has(b[k], name) {
      assert b[k] in a;
    }
  }

  // -------------------------------------------------------------------------- and splitting

  /** Chunk k of n: of every pool the tickets between its k-th and its next cut. */
  function ChunkOf(profile: Profile, n: nat, cut: (string, nat) -> nat, k: nat): Chunk
    requires Cuts(profile, n, cut) && k < n
  {
    Chunk(n, profile.(pools := map name | name in profile.pools ::
      Pool(profile.pools[name].filters, Some(Tickets(profile.pools[name])[cut(name, k)..cut(name, k + 1)]))))
  }

  ghost predicate Cuts(profile: Profile, n: nat, cut: (string, nat) -> nat) {
    forall name :: name in profile.pools ==>
      && cut(name, 0) == 0 && cut(name, n) == |Tickets(profile.pools[name])|
      && (forall j, k :: 0 <= j <= k <= n ==> cut(name, j) <= cut(name, k))
  }

  function Split(profile: Profile, n: nat, cut: (string, nat) -> nat): seq<Chunk>
    requires Cuts(profile, n, cut)
  {
    seq(n, k requires 0 <= k < n => ChunkOf(profile, n, cut, k))
  }

  lemma SplitPrefix(profile: Profile, n: nat, cut: (string, nat) -> nat, m: nat)
    requires Cuts(profile, n, cut) && 0 < m <= n
    ensures var chunks := Split(profile, n, cut);
            chunks[..m] == chunks[..m - 1] + [ChunkOf(profile, n, cut, m - 1)]
  {
  }

  lemma PieceOfChunk(profile: Profile, n: nat, cut: (string, nat) -> nat, k: nat, name: string)
    requires Cuts(profile, n, cut) && k < n && name in profile.pools
    ensures cut(name, k) <= cut(name, k + 1) <= |Tickets(profile.pools[name])|
    ensures Piece(ChunkOf(profile, n, cut, k), name) == Tickets(profile.pools[name])[cut(name, k)..cut(name, k + 1)]
  {
  }

  lemma Adjoin(s: seq<Ticket>, i: nat, j: nat)
    requires i <= j <= |s|
    ensures s[..i] + s[i..j] == s[..j]
  {
  }

  lemma {:induction false} SplitArrives(profile: Profile, n: nat, cut: (string, nat) -> nat, name: string, m: nat)
    requires Cuts(profile, n, cut) && name in profile.pools && m <= n
    ensures Arrived(Split(profile, n, cut)[..m], name) == Tickets(profile.pools[name])[..cut(name, m)]
  {
    var chunks, tickets := Split(profile, n, cut), Tickets(profile.pools[name]);
    if m == 0 {
      assert chunks[..0] == [];
    } else {
      SplitArrives(profile, n, cut, name, m - 1);
      SplitPrefix(profile, n, cut, m);
      ArrivedSnoc(chunks[..m - 1], ChunkOf(profile, n, cut, m - 1), name);
      PieceOfChunk(profile, n, cut, m - 1, name);
      Adjoin(tickets, cut(name, m - 1), cut(name, m));
    }
  }

  lemma {:induction false} SplitDescribes(profile: Profile, n: nat, cut: (string, nat) -> nat, name: string, m: nat)
    requires Cuts(profile, n, cut) && name in profile.pools && 0 < m <= n
    ensures var first := FirstWith(Split(profile, n, cut)[..m], name);
            first.Some? && first.value.filters == profile.pools[name].filters
  {
    SplitPrefix(profile, n, cut, m);
    var before, last := Split(profile, n, cut)[..m - 1], ChunkOf(profile, n, cut, m - 1);
    assert (before + [last])[..m - 1] == before;
    if m > 1 {
      SplitDescribes(profile, n, cut, name, m - 1);
    } else {
      assert before == [];
    }
  }

  /** Splitting a profile anywhere into any number of chunks and reassembling them gives the profile back. */
  lemma ReassemblyUndoesSplitting(profile: Profile, n: nat, cut: (string, nat) -> nat, stream: seq<Recv>)
    requires 0 < n <= MAX_INT32 && Cuts(profile, n, cut) && Brings(stream, Split(profile, n, cut))
    requires forall name :: name in profile.pools ==> profile.pools[name].participants.Some?
    ensures Outcome(stream, 0, map[]) == Request(profile)
  {
    var chunks := Split(profile, n, cut);
    Arrives(stream, chunks);
    SplitHasPools(profile, n, cut);
    assert Assembled(chunks) == profile;
  }

  lemma SplitHasPools(profile: Profile, n: nat, cut: (string, nat) -> nat)
    requires 0 < n && Cuts(profile, n, cut)
    requires forall name :: name in profile.pools ==> profile.pools[name].participants.Some?
    ensures Pools(Split(profile, n, cut)) == profile.pools
  {
    var pools := Pools(Split(profile, n, cut));
    forall name
      ensures name in pools <==> name in profile.pools
      ensures name in profile.pools ==> pools[name] == profile.pools[name]
    {
      SplitHasPool(profile, n, cut, name);
      if name in profile.pools {
        SplitPool(profile, n, cut, name);
      }
    }
    assert pools == profile.pools;
  }

  lemma SplitHasPool(profile: Profile, n: nat, cut: (string, nat) -> nat, name: string)
    requires 0 < n && Cuts(profile, n, cut)
    ensures name in Pools(Split(profile, n, cut)) <==> name in profile.pools
  {
    var chunks := Split(profile, n, cut);
    PoolsAreConcatenations(chunks, name);
    if name in profile.pools {
      assert Has(chunks[0], name);
    }
  }

  lemma SplitPool(profile: Profile, n: nat, cut: (string, nat) -> nat, name: string)
    requires 0 < n && Cuts(profile, n, cut) && name in profile.pools && profile.pools[name].participants.Some?
    requires name in Pools(Split(profile, n, cut))
    ensures Pools(Split(profile, n, cut))[name] == profile.pools[name]
  {
    var chunks := Split(profile, n, cut);
    assert chunks[..n] == chunks;
    SplitArrives(profile, n, cut, name, n);
    SplitDescribes(profile, n, cut, name, n);
    assert Tickets(profile.pools[name])[..cut(name, n)] == Tickets(profile.pools[name]);
    PoolsAreConcatenations(chunks, name);
    PoolsHaveParticipants(chunks, name);
  }

  lemma {:induction false} PoolsHaveParticipants(chunks: seq<Chunk>, name: string)
    requires HaveParticipants(chunks) && name in Pools(chunks)
    ensures Pools(chunks)[name].participants.Some?
  {
    var n := |chunks| - 1;
    if name in Pools(chunks[..n]) {
      PoolsHaveParticipants(chunks[..n], name);
    }
  }

  // ------------------------------------------------------------------------------ the method

  /** The pools of the names done, in whatever order the map is walked. */
  function Only(pools: map<string, Pool>, names: set<string>): map<string, Pool> {
    map name | name in pools && name in names :: pools[name]
  }

  method MergeChunk(pools: map<string, Pool>, incoming: map<string, Pool>) returns (merged: map<string, Pool>, crashed: bool)
    ensures crashed <==> Crashes(pools, incoming)
    ensures !crashed ==> merged == Merge(pools, incoming)
  {
    merged, crashed := pools, false;
    var todo := incoming.Keys;
    assert merged == Merge(pools, Only(incoming, {}));
    while todo != {}
      invariant todo <= incoming.Keys && merged == Merge(pools, Only(incoming, incoming.Keys - todo))
      invariant !Crashes(pools, Only(incoming, incoming.Keys - todo))
      decreases todo
    {
      var name :| name in todo;
      var pool := incoming[name];
      if name !in merged {
        merged := merged[name := pool];
      } else {
        if merged[name].participants.None? {
          return merged, true;
        }
        merged := merged[name := merged[name].(participants := Some(merged[name].participants.value + Tickets(pool)))];
      }
      todo := todo - {name};
    }
    assert Only(incoming, incoming.Keys) == incoming;
  }

  method GetChunkedRequest(stream: seq<Recv>) returns (r: Result)
    ensures r == Outcome(stream, 0, map[])
  {
    var pools: map<string, Pool> := map[];
    var i := 1;
    while i >= 0
      invariant i <= MAX_INT32 && i != 0
      invariant if i < 0 then Outcome(stream, 0, map[]) == NoProfile
                else Outcome(stream, i - 1, pools) == Outcome(stream, 0, map[])
      decreases if i < 0 then 0 else MAX_INT32 + 1 - i
    {
      if i - 1 >= |stream| {
        return Error("EOF");
      }
      match stream[i - 1] {
        case Failed(error) => return Error(error);
        case Received(chunk) =>
          var crashed;
          pools, crashed := MergeChunk(pools, chunk.profile.pools);
          if crashed {
            return Crash;
          }
          if chunk.numChunks == i {
            return Request(Profile(chunk.profile.name, pools, chunk.profile.extensions));
          }
      }
      i := if i == MAX_INT32 then -MAX_INT32 - 1 else i + 1;
    }
    return NoProfile;
  }
}
