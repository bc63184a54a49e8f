/** The director's record of assigned tickets (v2/internal/gsdirector/gsdirector.go): a set of ticket
    ids and an index from expiry stamps to the ids that expire then, as one state machine whose runs are
    the histories a director can have. */
module AssignmentTracking {

  type TicketId = string

  /** `ids` is the key set of the map `assignments`; `ttl` is `assignmentTTL`. */
  datatype Tracker = Tracker(ids: set<TicketId>, ttl: map<int, seq<TicketId>>)

  datatype Event =
    | CycleStarts
    | Tracked(id: TicketId, sentAt: int, stamp: int)  // sent at `sentAt`, to be forgotten after `stamp`
    | Expired(key: int, now: int)

  /** A bucket that already exists is replaced, not extended. */
  function Track(tr: Tracker, id: TicketId, stamp: int): Tracker {
    Tracker(tr.ids + {id}, tr.ttl[stamp := [id]])
  }

  function Expire(tr: Tracker, key: int): Tracker {
    if key !in tr.ttl then tr
    else Tracker(tr.ids - (set id | id in tr.ttl[key]), tr.ttl - {key})
  }

  /** `old_` are the ids assigned when the cycle began, `fresh_` those tracked since; `clock` is the
      time of the latest expiry; `repeated` tells whether some cycle tracked a ticket twice. */
  datatype State = State(tr: Tracker, old_: set<TicketId>, fresh_: set<TicketId>, clock: int, repeated: bool)

  function Next(s: State, e: Event, ttl: int): State {
    match e
    case CycleStarts => s.(old_ := s.tr.ids, fresh_ := {})
    case Tracked(id, sentAt, stamp) =>
      s.(tr := Track(s.tr, id, stamp), fresh_ := s.fresh_ + {id}, repeated := s.repeated || id in s.fresh_)
    case Expired(key, now) => s.(tr := Expire(s.tr, key), clock := now)
  }

  /** What the director guarantees of each event: no ticket is tracked that was assigned when the cycle
      began, since its match was rejected; a ticket was sent no earlier than the latest expiry and tracked
      no earlier than it was sent; and a bucket only expires after its stamp. */
  predicate Enabled(s: State, e: Event, ttl: int) {
    match e
    case CycleStarts => true
    case Tracked(id, sentAt, stamp) => id !in s.old_ && s.clock <= sentAt <= stamp - ttl
    case Expired(key, now) => key in s.tr.ttl && s.clock <= now && key < now
  }

  function Initial(clock: int): State {
    State(Tracker({}, map[]), {}, {}, clock, false)
  }

  function Replay(log: seq<Event>, ttl: int, clock: int): State {
    if log == [] then Initial(clock) else Next(Replay(log[..|log| - 1], ttl, clock), log[|log| - 1], ttl)
  }

  predicate EnabledAt(log: seq<Event>, ttl: int, clock: int, p: nat)
    requires p < |log|
  {
    Enabled(Replay(log[..p], ttl, clock), log[p], ttl)
  }

  ghost predicate ValidLog(log: seq<Event>, ttl: int, clock: int) {
    forall p :: 0 <= p < |log| ==> EnabledAt(log, ttl, clock, p)
  }

  lemma ValidPrefix(log: seq<Event>, ttl: int, clock: int, n: nat)
    requires n <= |log| && ValidLog(log, ttl, clock)
    ensures ValidLog(log[..n], ttl, clock)
  {
    forall p | 0 <= p < n ensures EnabledAt(log[..n], ttl, clock, p) {
      assert log[..n][..p] == log[..p] && EnabledAt(log, ttl, clock, p);
    }
  }

  lemma ValidSnoc(log: seq<Event>, e: Event, ttl: int, clock: int)
    requires ValidLog(log, ttl, clock) && Enabled(Replay(log, ttl, clock), e, ttl)
    ensures ValidLog(log + [e], ttl, clock)
    ensures Replay(log + [e], ttl, clock) == Next(Replay(log, ttl, clock), e, ttl)
  {
    assert (log + [e])[..|log|] == log;
    forall p | 0 <= p < |log| + 1 ensures EnabledAt(log + [e], ttl, clock, p) {
      if p < |log| {
        assert (log + [e])[..p] == log[..p] && EnabledAt(log, ttl, clock, p);
      }
    }
  }

  // ------------------------------------------------------------------------------- exclusivity

  /** Every indexed id is assigned and sits in one bucket only. */
  ghost predicate Indexed(tr: Tracker) {
    && (forall k, id :: k in tr.ttl && id in tr.ttl[k] ==> id in tr.ids)
    && (forall k, l, id :: k in tr.ttl && l in tr.ttl && id in tr.ttl[k] && id in tr.ttl[l] ==> k == l)
  }

  ghost predicate Inv(s: State) {
    (!s.repeated ==> Indexed(s.tr)) && s.tr.ids <= s.old_ + s.fresh_
  }

  lemma StepKeepsInv(s: State, e: Event, ttl: int)
    requires Inv(s) && Enabled(s, e, ttl)
    ensures Inv(Next(s, e, ttl))
  {
  }

  lemma {:induction false} RunKeepsInv(log: seq<Event>, ttl: int, clock: int)
    requires ValidLog(log, ttl, clock)
    ensures Inv(Replay(log, ttl, clock))
  {
    if log != [] {
      var n := |log| - 1;
      ValidPrefix(log, ttl, clock, n);
      RunKeepsInv(log[..n], ttl, clock);
      assert EnabledAt(log, ttl, clock, n);
      StepKeepsInv(Replay(log[..n], ttl, clock), log[n], ttl);
    }
  }

  /** A ticket sent at time t is still remembered, and not due before t + ttl, or that time has passed. */
  ghost predicate Remembers(s: State, id: TicketId, t: int, ttl: int) {
    || s.clock > t + ttl
    || (id in s.tr.ids && forall k :: k in s.tr.ttl && id in s.tr.ttl[k] ==> t + ttl <= k)
  }

  lemma StepRemembers(s: State, e: Event, id: TicketId, t: int, ttl: int)
    requires Inv(s) && Enabled(s, e, ttl) && !Next(s, e, ttl).repeated && Remembers(s, id, t, ttl)
    ensures Remembers(Next(s, e, ttl), id, t, ttl)
  {
  }

  lemma TrackedIsRemembered(s: State, e: Event, ttl: int)
    requires Inv(s) && e.Tracked? && Enabled(s, e, ttl) && !Next(s, e, ttl).repeated
    ensures Remembers(Next(s, e, ttl), e.id, e.sentAt, ttl)
  {
  }

  lemma {:induction false} NeverRepeated(log: seq<Event>, ttl: int, clock: int, n: nat)
    requires n <= |log| && !Replay(log, ttl, clock).repeated
    ensures !Replay(log[..n], ttl, clock).repeated
  {
    if n < |log| {
      assert log[..|log| - 1][..n] == log[..n];
      NeverRepeated(log[..|log| - 1], ttl, clock, n);
    } else {
      assert log[..n] == log;
    }
  }

  lemma LastStep(log: seq<Event>, ttl: int, clock: int, n: nat, s: State) returns (before: State)
    requires ValidLog(log, ttl, clock) && n < |log| && s == Replay(log[..n + 1], ttl, clock) && !s.repeated
    ensures before == Replay(log[..n], ttl, clock) && Inv(before) && !before.repeated
    ensures Enabled(before, log[n], ttl) && s == Next(before, log[n], ttl)
  {
    assert log[..n + 1][..n] == log[..n] && EnabledAt(log, ttl, clock, n);
    before := Replay(log[..n], ttl, clock);
    ValidPrefix(log, ttl, clock, n);
    RunKeepsInv(log[..n], ttl, clock);
  }

  lemma {:induction false} StillRemembered(log: seq<Event>, ttl: int, clock: int, p: nat, q: nat, s: State)
    requires ValidLog(log, ttl, clock) && p < q <= |log| && log[p].Tracked?
    requires s == Replay(log[..q], ttl, clock) && !s.repeated
    ensures Remembers(s, log[p].id, log[p].sentAt, ttl)
    decreases q
  {
    var before := LastStep(log, ttl, clock, q - 1, s);
    if p < q - 1 {
      StillRemembered(log, ttl, clock, p, q - 1, before);
      StepRemembers(before, log[q - 1], log[p].id, log[p].sentAt, ttl);
    } else {
      TrackedIsRemembered(before, log[p], ttl);
    }
  }

  /** What is remembered now was assigned when the cycle began, and its match rejected, or was tracked in
      the cycle itself. */
  lemma RememberedIsNotTracked(s: State, e: Event, ttl: int)
    requires Inv(s) && e.Tracked? && Enabled(s, e, ttl) && !Next(s, e, ttl).repeated
    ensures e.id !in s.tr.ids
  {
  }

  /** In every run in which no cycle sends a ticket twice, any two successful sends of one ticket are more
      than the time to live apart, even when expiry stamps collide. */
  lemma SendsAreExclusive(log: seq<Event>, ttl: int, clock: int, p: nat, q: nat)
    requires ValidLog(log, ttl, clock) && p < q < |log|
    requires log[p].Tracked? && log[q].Tracked? && log[p].id == log[q].id
    requires !Replay(log, ttl, clock).repeated
    ensures log[q].sentAt - log[p].sentAt > ttl
  {
    NeverRepeated(log, ttl, clock, q + 1);
    var before := LastStep(log, ttl, clock, q, Replay(log[..q + 1], ttl, clock));
    StillRemembered(log, ttl, clock, p, q, before);
    RememberedIsNotTracked(before, log[q], ttl);
  }

  // --------------------------------------------------------------------------- index agreement

  /** The assigned ids are exactly the indexed ones, each in one bucket. */
  ghost predicate Agreement(tr: Tracker) {
    && Indexed(tr)
    && (forall k :: k in tr.ttl ==> tr.ttl[k] != [])
    && (forall id :: id in tr.ids ==> exists k :: k in tr.ttl && id in tr.ttl[k])
  }

  lemma TrackKeepsAgreementIffStampIsFresh(tr: Tracker, id: TicketId, stamp: int)
    requires Agreement(tr) && id !in tr.ids
    ensures Agreement(Track(tr, id, stamp)) <==> stamp !in tr.ttl
  {
    var after := Track(tr, id, stamp);
    if stamp in tr.ttl {
      var lost := tr.ttl[stamp][0];
      assert lost in tr.ttl[stamp] && lost in tr.ids;
      assert forall k :: k in after.ttl && lost in after.ttl[k] ==> k == stamp;
      assert lost !in after.ttl[stamp];
    } else {
      forall other | other in after.ids ensures exists k :: k in after.ttl && other in after.ttl[k] {
        if other == id {
          assert id in after.ttl[stamp];
        } else {
          var k :| k in tr.ttl && other in tr.ttl[k];
          assert k in after.ttl && other in after.ttl[k];
        }
      }
    }
  }

  lemma ExpireKeepsAgreement(tr: Tracker, key: int)
    requires Agreement(tr)
    ensures Agreement(Expire(tr, key))
  {
    var after := Expire(tr, key);
    forall id | id in after.ids ensures exists k :: k in after.ttl && id in after.ttl[k] {
      var k :| k in tr.ttl && id in tr.ttl[k];
      assert k in after.ttl && id in after.ttl[k];
    }
  }

  /** An assigned id that no bucket will ever release. */
  ghost predicate Leaked(tr: Tracker, id: TicketId) {
    id in tr.ids && forall k :: k in tr.ttl ==> id !in tr.ttl[k]
  }

  lemma StepKeepsLeak(s: State, e: Event, ttl: int, id: TicketId)
    requires Inv(s) && Enabled(s, e, ttl) && !Next(s, e, ttl).repeated && Leaked(s.tr, id)
    ensures Leaked(Next(s, e, ttl).tr, id)
  {
    if e.Tracked? {
      RememberedIsNotTracked(s, e, ttl);
    }
  }

  /** An id that has lost its bucket at some moment of a history is assigned at every later one. */
  lemma {:induction false} LeakIsForever(log: seq<Event>, ttl: int, clock: int, n: nat, m: nat, id: TicketId)
    requires ValidLog(log, ttl, clock) && n <= m <= |log| && !Replay(log[..m], ttl, clock).repeated
    requires Leaked(Replay(log[..n], ttl, clock).tr, id)
    ensures Leaked(Replay(log[..m], ttl, clock).tr, id)
    decreases m
  {
    if n < m {
      var before := LastStep(log, ttl, clock, m - 1, Replay(log[..m], ttl, clock));
      LeakIsForever(log, ttl, clock, n, m - 1, id);
      StepKeepsLeak(before, log[m - 1], ttl, id);
    }
  }

  lemma CollisionLeaks(s: State, e: Event, ttl: int) returns (id: TicketId)
    requires Agreement(s.tr) && Inv(s) && e.Tracked? && Enabled(s, e, ttl) && e.stamp in s.tr.ttl
    requires !Next(s, e, ttl).repeated
    ensures Leaked(Next(s, e, ttl).tr, id)
  {
    RememberedIsNotTracked(s, e, ttl);
    id := s.tr.ttl[e.stamp][0];
    assert id in s.tr.ttl[e.stamp] && id in s.tr.ids;
  }

  /** Some ticket was tracked under a stamp that was already in use. */
  ghost predicate StampsCollided(log: seq<Event>, ttl: int, clock: int) {
    exists p :: 0 <= p < |log| && Collides(Replay(log[..p], ttl, clock), log[p])
  }

  predicate Collides(s: State, e: Event) {
    e.Tracked? && e.stamp in s.tr.ttl
  }

  lemma CollidedSnoc(log: seq<Event>, e: Event, ttl: int, clock: int)
    ensures StampsCollided(log + [e], ttl, clock) <==>
            StampsCollided(log, ttl, clock) || Collides(Replay(log, ttl, clock), e)
  {
    var all := log + [e];
    assert all[..|log|] == log;
    assert forall p :: 0 <= p < |log| ==> all[..p] == log[..p] && all[p] == log[p];
    if StampsCollided(log, ttl, clock) {
      var p :| 0 <= p < |log| && Collides(Replay(log[..p], ttl, clock), log[p]);
      assert Collides(Replay(all[..p], ttl, clock), all[p]);
    }
    if Collides(Replay(log, ttl, clock), e) {
      assert Collides(Replay(all[..|log|], ttl, clock), all[|log|]);
    }
  }

  lemma StepAgreement(s: State, e: Event, ttl: int)
    requires Inv(s) && Enabled(s, e, ttl) && !Next(s, e, ttl).repeated && Agreement(s.tr)
    ensures if Collides(s, e) then exists id :: Leaked(Next(s, e, ttl).tr, id) else Agreement(Next(s, e, ttl).tr)
  {
    if Collides(s, e) {
      var id := CollisionLeaks(s, e, ttl);
    } else {
      match e
      case CycleStarts =>
      case Tracked(id, sentAt, stamp) =>
        RememberedIsNotTracked(s, e, ttl);
        TrackKeepsAgreementIffStampIsFresh(s.tr, id, stamp);
      case Expired(key, now) => ExpireKeepsAgreement(s.tr, key);
    }
  }

  /** Every assigned id is released eventually, unless a collision has leaked one. */
  ghost predicate Outcome(tr: Tracker, collided: bool) {
    if collided then exists id :: Leaked(tr, id) else Agreement(tr)
  }

  lemma StepOutcome(s: State, e: Event, ttl: int, collided: bool)
    requires Inv(s) && Enabled(s, e, ttl) && !Next(s, e, ttl).repeated && Outcome(s.tr, collided)
    ensures Outcome(Next(s, e, ttl).tr, collided || Collides(s, e))
  {
    if collided {
      var id :| Leaked(s.tr, id);
      StepKeepsLeak(s, e, ttl, id);
    } else {
      StepAgreement(s, e, ttl);
    }
  }

  lemma {:induction false} RunOutcome(log: seq<Event>, ttl: int, clock: int)
    requires ValidLog(log, ttl, clock) && !Replay(log, ttl, clock).repeated
    ensures Outcome(Replay(log, ttl, clock).tr, StampsCollided(log, ttl, clock))
  {
    if log != [] {
      var n := |log| - 1;
      ValidPrefix(log, ttl, clock, n);
      NeverRepeated(log, ttl, clock, n);
      RunOutcome(log[..n], ttl, clock);
      RunKeepsInv(log[..n], ttl, clock);
      CollidedSnoc(log[..n], log[n], ttl, clock);
      assert log == log[..n] + [log[n]] && EnabledAt(log, ttl, clock, n);
      StepOutcome(Replay(log[..n], ttl, clock), log[n], ttl, StampsCollided(log[..n], ttl, clock));
    }
  }

  /** In every run in which no cycle sends a ticket twice, the assigned ids are exactly the indexed ones
      iff no stamp was ever used while it was still indexed; after a collision some id stays assigned for good. */
  lemma IndexAgreesIffStampsNeverCollided(log: seq<Event>, ttl: int, clock: int)
    requires ValidLog(log, ttl, clock) && !Replay(log, ttl, clock).repeated
    ensures Agreement(Replay(log, ttl, clock).tr) <==> !StampsCollided(log, ttl, clock)
  {
    RunOutcome(log, ttl, clock);
  }

  // ------------------------------------------------------------------------- the fate of a ticket

  /** The id is in the bucket of the stamp, if it is indexed at all, and in no other. */
  ghost predicate SitsAt(tr: Tracker, id: TicketId, stamp: int, indexed: bool) {
    forall key :: key in tr.ttl && id in tr.ttl[key] <==> indexed && key == stamp
  }

  lemma TrackingMoves(tr: Tracker, id: TicketId, stamp: int, indexed: bool, other: TicketId, now: int)
    requires SitsAt(tr, id, stamp, indexed) && other != id
    ensures SitsAt(Track(tr, other, now), id, stamp, indexed && now != stamp)
  {
    var after := Track(tr, other, now);
    forall key ensures key in after.ttl && id in after.ttl[key] <==> indexed && now != stamp && key == stamp {
      if key != now {
        assert key in tr.ttl && id in tr.ttl[key] <==> indexed && key == stamp;
      }
    }
  }

  /** What has become of a tracked ticket: it waits in its bucket, lost its bucket to another ticket, or
      was forgotten when its bucket expired. */
  datatype Fate = Waiting | Lost | Forgotten

  function FateAfter(fate: Fate, stamp: int, e: Event): Fate {
    if fate.Waiting? && e.Tracked? && e.stamp == stamp then Lost
    else if fate.Waiting? && e.Expired? && e.key == stamp then Forgotten
    else fate
  }

  /** The fate after the first n events of the ticket tracked by event p. */
  function FateOf(log: seq<Event>, p: nat, n: nat): Fate
    requires p < n <= |log| && log[p].Tracked?
  {
    if n == p + 1 then Waiting else FateAfter(FateOf(log, p, n - 1), log[p].stamp, log[n - 1])
  }

  ghost predicate Meets(tr: Tracker, id: TicketId, stamp: int, fate: Fate) {
    match fate
    case Waiting => id in tr.ids && SitsAt(tr, id, stamp, true)
    case Lost => Leaked(tr, id)
    case Forgotten => id !in tr.ids
  }

  lemma StepMeetsFate(s: State, e: Event, ttl: int, id: TicketId, stamp: int, fate: Fate)
    requires Inv(s) && Enabled(s, e, ttl) && !Next(s, e, ttl).repeated && Meets(s.tr, id, stamp, fate)
    requires e.Tracked? ==> e.id != id
    ensures Meets(Next(s, e, ttl).tr, id, stamp, FateAfter(fate, stamp, e))
  {
    match fate
    case Waiting =>
      if e.Tracked? {
        TrackingMoves(s.tr, id, stamp, true, e.id, e.stamp);
      } else if e.Expired? {
        assert id in s.tr.ttl[e.key] <==> e.key == stamp;
      }
    case Lost => StepKeepsLeak(s, e, ttl, id);
    case Forgotten =>
  }

  ghost predicate NotTrackedAgain(log: seq<Event>, p: nat)
    requires p < |log| && log[p].Tracked?
  {
    forall r :: p < r < |log| && log[r].Tracked? ==> log[r].id != log[p].id
  }

  lemma {:induction false} FateIsMet(log: seq<Event>, ttl: int, clock: int, p: nat, n: nat, s: State)
    requires ValidLog(log, ttl, clock) && p < n <= |log| && log[p].Tracked? && NotTrackedAgain(log, p)
    requires s == Replay(log[..n], ttl, clock) && !s.repeated
    ensures Meets(s.tr, log[p].id, log[p].stamp, FateOf(log, p, n))
    decreases n
  {
    var before := LastStep(log, ttl, clock, n - 1, s);
    if n == p + 1 {
      RememberedIsNotTracked(before, log[p], ttl);
      TrackingIndexes(before.tr, log[p].id, log[p].stamp);
    } else {
      FateIsMet(log, ttl, clock, p, n - 1, before);
      StepMeetsFate(before, log[n - 1], ttl, log[p].id, log[p].stamp, FateOf(log, p, n - 1));
    }
  }

  /** The bucket of the ticket tracked by event p has not expired by event n. */
  ghost predicate NotExpired(log: seq<Event>, p: nat, n: nat)
    requires p < n <= |log| && log[p].Tracked?
  {
    forall r :: p < r < n && log[r].Expired? ==> log[r].key != log[p].stamp
  }

  /** Event q tracks a ticket at the stamp of the one tracked by event p while that one's bucket is there. */
  ghost predicate TakesBucket(log: seq<Event>, p: nat, q: nat)
    requires p < q < |log| && log[p].Tracked?
  {
    log[q].Tracked? && log[q].stamp == log[p].stamp && NotExpired(log, p, q)
  }

  lemma {:induction false} FateIs(log: seq<Event>, p: nat, n: nat)
    requires p < n <= |log| && log[p].Tracked?
    ensures match FateOf(log, p, n)
            case Waiting => NotExpired(log, p, n) && forall q :: p < q < n ==> !TakesBucket(log, p, q)
            case Lost => exists q :: p < q < n && TakesBucket(log, p, q)
            case Forgotten => !NotExpired(log, p, n) && forall q :: p < q < n ==> !TakesBucket(log, p, q)
    decreases n
  {
    if n > p + 1 {
      FateIs(log, p, n - 1);
      if FateOf(log, p, n - 1).Waiting? && log[n - 1].Tracked? && log[n - 1].stamp == log[p].stamp {
        assert TakesBucket(log, p, n - 1);
      }
    }
  }

  /** In every history in which no cycle sends a ticket twice, a ticket stays assigned for good exactly
      when another one, of whatever roster or cycle, is tracked at the same stamp before that stamp
      expires.  Otherwise it stays assigned until its stamp expires, and no longer. */
  lemma TicketLeaksIffItsStampIsUsedAgain(log: seq<Event>, ttl: int, clock: int, p: nat)
    requires ValidLog(log, ttl, clock) && !Replay(log, ttl, clock).repeated
    requires p < |log| && log[p].Tracked? && NotTrackedAgain(log, p)
    ensures var tr := Replay(log, ttl, clock).tr;
            && (Leaked(tr, log[p].id) <==> exists q :: p < q < |log| && TakesBucket(log, p, q))
            && (log[p].id in tr.ids <==> Leaked(tr, log[p].id) || NotExpired(log, p, |log|))
  {
    assert log[..|log|] == log;
    FateIsMet(log, ttl, clock, p, |log|, Replay(log, ttl, clock));
    FateIs(log, p, |log|);
    if FateOf(log, p, |log|).Waiting? {
      var tr := Replay(log, ttl, clock).tr;
      assert log[p].stamp in tr.ttl && log[p].id in tr.ttl[log[p].stamp];
    }
  }

  // ------------------------------------------------------------------------ rosters as a whole

  /** Tracks the tickets of a roster, each at its reading of the clock. */
  function TrackAll(tr: Tracker, tickets: seq<TicketId>, readings: seq<int>, ttl: int): Tracker
    requires |readings| == |tickets|
  {
    if tickets == [] then tr
    else
      var n := |tickets| - 1;
      Track(TrackAll(tr, tickets[..n], readings[..n], ttl), tickets[n], readings[n] + ttl)
  }

  lemma TrackAllSnoc(tr: Tracker, tickets: seq<TicketId>, readings: seq<int>, ttl: int, id: TicketId, reading: int)
    requires |readings| == |tickets|
    ensures TrackAll(tr, tickets + [id], readings + [reading], ttl) ==
            Track(TrackAll(tr, tickets, readings, ttl), id, reading + ttl)
  {
    assert (tickets + [id])[..|tickets|] == tickets && (readings + [reading])[..|readings|] == readings;
  }

  /** Every indexed id is assigned. */
  ghost predicate IndexWithin(tr: Tracker) {
    forall k, id :: k in tr.ttl && id in tr.ttl[k] ==> id in tr.ids
  }

  lemma {:induction false} TrackAllIds(tr: Tracker, tickets: seq<TicketId>, readings: seq<int>, ttl: int)
    requires |readings| == |tickets| && IndexWithin(tr)
    ensures IndexWithin(TrackAll(tr, tickets, readings, ttl))
    ensures TrackAll(tr, tickets, readings, ttl).ids == tr.ids + set id | id in tickets
  {
    if tickets != [] {
      var n := |tickets| - 1;
      TrackAllIds(tr, tickets[..n], readings[..n], ttl);
      assert tickets == tickets[..n] + [tickets[n]];
    }
  }

  predicate ReadAgain(readings: seq<int>, j: nat)
    requires j < |readings|
  {
    exists k :: j < k < |readings| && readings[k] == readings[j]
  }

  lemma ReadAgainSnoc(readings: seq<int>, j: nat)
    requires j < |readings| - 1
    ensures ReadAgain(readings, j) <==>
            ReadAgain(readings[..|readings| - 1], j) || readings[|readings| - 1] == readings[j]
  {
    var shorter := readings[..|readings| - 1];
    if ReadAgain(shorter, j) {
      var k :| j < k < |shorter| && shorter[k] == shorter[j];
      assert readings[k] == readings[j];
    }
    if ReadAgain(readings, j) && readings[|readings| - 1] != readings[j] {
      var k :| j < k < |readings| && readings[k] == readings[j];
      assert shorter[k] == shorter[j];
    }
  }

  lemma TrackingIndexes(tr: Tracker, id: TicketId, now: int)
    requires IndexWithin(tr) && id !in tr.ids
    ensures SitsAt(Track(tr, id, now), id, now, true)
  {
    var after := Track(tr, id, now);
    assert id in after.ttl[now];
  }

  lemma {:induction false} WhereIndexed(tr: Tracker, tickets: seq<TicketId>, readings: seq<int>, ttl: int, j: nat)
    requires |readings| == |tickets| && j < |tickets| && IndexWithin(tr)
    requires tickets[j] !in tr.ids && forall k :: 0 <= k < |tickets| && k != j ==> tickets[k] != tickets[j]
    ensures SitsAt(TrackAll(tr, tickets, readings, ttl), tickets[j], readings[j] + ttl, !ReadAgain(readings, j))
  {
    var n := |tickets| - 1;
    var before := TrackAll(tr, tickets[..n], readings[..n], ttl);
    if j < n {
      WhereIndexed(tr, tickets[..n], readings[..n], ttl, j);
      ReadAgainSnoc(readings, j);
      TrackingMoves(before, tickets[j], readings[j] + ttl, !ReadAgain(readings[..n], j), tickets[n], readings[n] + ttl);
    } else {
      TrackAllIds(tr, tickets[..n], readings[..n], ttl);
      TrackingIndexes(before, tickets[n], readings[n] + ttl);
    }
  }

  /** The moment a roster is tracked, those of its tickets have lost their bucket for which the clock still
      read the same as a later ticket of the roster was tracked.  The others may lose theirs to a later
      roster: TicketLeaksIffItsStampIsUsedAgain. */
  lemma RosterTicketLeaksIffReadAgain(tr: Tracker, tickets: seq<TicketId>, readings: seq<int>, ttl: int, j: nat)
    requires |readings| == |tickets| && j < |tickets| && IndexWithin(tr)
    requires tickets[j] !in tr.ids && forall k :: 0 <= k < |tickets| && k != j ==> tickets[k] != tickets[j]
    ensures Leaked(TrackAll(tr, tickets, readings, ttl), tickets[j]) <==> ReadAgain(readings, j)
  {
    TrackAllIds(tr, tickets, readings, ttl);
    WhereIndexed(tr, tickets, readings, ttl, j);
    var after := TrackAll(tr, tickets, readings, ttl);
    if !ReadAgain(readings, j) {
      assert readings[j] + ttl in after.ttl && tickets[j] in after.ttl[readings[j] + ttl];
    }
  }

  /** Two tickets tracked at the same instant: the first is never forgotten. */
  lemma TwoTicketsAtOneInstant(ttl: int)
    requires ttl >= 0
    ensures var log := [CycleStarts, Tracked("a", 0, ttl), Tracked("b", 0, ttl), Expired(ttl, ttl + 1)];
            ValidLog(log, ttl, 0) && Leaked(Replay(log, ttl, 0).tr, "a")
  {
    var a, b := Tracked("a", 0, ttl), Tracked("b", 0, ttl);
    assert ValidLog([], ttl, 0);
    ValidSnoc([], CycleStarts, ttl, 0);
    assert [] + [CycleStarts] == [CycleStarts];
    ValidSnoc([CycleStarts], a, ttl, 0);
    assert [CycleStarts] + [a] == [CycleStarts, a];
    ValidSnoc([CycleStarts, a], b, ttl, 0);
    assert [CycleStarts, a] + [b] == [CycleStarts, a, b];
    ValidSnoc([CycleStarts, a, b], Expired(ttl, ttl + 1), ttl, 0);
    assert [CycleStarts, a, b] + [Expired(ttl, ttl + 1)] == [CycleStarts, a, b, Expired(ttl, ttl + 1)];
  }
}
