/** The lossy latest-value broadcast (demoui/bytesub.go): announcers replace the value and close the
    channel that says so; each subscriber writes the latest value whenever the channel it holds is
    closed.  Any number of them run interleaved. */
module ByteSub {

  datatype Value = Nil | Bytes(b: string)

  /** The channel a subscriber starts with, which nobody else has, or the n-th channel made for the
      byteSub, the first being number 0. */
  datatype Channel = Mine | Made(n: nat)

  /** The shared record: `made` channels so far, the closed ones, the current one and the value.
      `announced` is its history. */
  datatype Bus = Bus(made: nat, closed: set<nat>, nextReady: nat, b: Value, announced: seq<Value>)

  /** One call of w.Write: how many values had been announced when the value was read, and the value. */
  datatype Call = Call(generation: nat, b: string)

  datatype Outcome = Canceled | WriteError | PartialWrite

  datatype Phase = Selecting | Writing(b: string) | Returned(outcome: Outcome)

  datatype Subscriber = Subscriber(channel: Channel, phase: Phase, calls: seq<Call>)

  datatype System = System(bus: Bus, subscribers: map<nat, Subscriber>)

  datatype WriteResult = Whole | Part | Failure

  /** The atomic steps: the critical sections of AnnounceLatest and get, the call of Write, the select. */
  datatype Step = Announce(v: Value) | Join(i: nat) | Wake(i: nat) | Write(i: nat, result: WriteResult) | Cancel(i: nat)

  const NEW_BUS := Bus(1, {}, 0, Nil, [])
  const START := System(NEW_BUS, map[])

  function Announced(bus: Bus, v: Value): Bus {
    Bus(bus.made + 1, bus.closed + {bus.nextReady}, bus.made, v, bus.announced + [v])
  }

  predicate IsClosed(bus: Bus, c: Channel) {
    c.Mine? || c.n in bus.closed
  }

  const JOINING := Subscriber(Mine, Selecting, [])

  function Woken(s: Subscriber, bus: Bus): Subscriber {
    s.(channel := Made(bus.nextReady), phase := if bus.b.Bytes? then Writing(bus.b.b) else Selecting)
  }

  function Written(s: Subscriber, result: WriteResult): Subscriber
    requires s.phase.Writing? && s.channel.Made?
  {
    s.(calls := s.calls + [Call(s.channel.n, s.phase.b)],
       phase := match result case Whole => Selecting case Part => Returned(PartialWrite) case Failure => Returned(WriteError))
  }

  /** Whether the step can be taken.  Announcing asks for nothing: it only must not close a closed channel. */
  predicate Enabled(s: System, step: Step) {
    match step
    case Announce(v) => true
    case Join(i) => i !in s.subscribers
    case Wake(i) => i in s.subscribers && s.subscribers[i].phase.Selecting? && IsClosed(s.bus, s.subscribers[i].channel)
    case Write(i, _) => i in s.subscribers && s.subscribers[i].phase.Writing? && s.subscribers[i].channel.Made?
    case Cancel(i) => i in s.subscribers && s.subscribers[i].phase.Selecting?
  }

  /** Closing a closed channel would panic. */
  predicate Panics(s: System, step: Step) {
    step.Announce? && s.bus.nextReady in s.bus.closed
  }

  function Next(s: System, step: Step): System
    requires Enabled(s, step)
  {
    match step
    case Announce(v) => s.(bus := Announced(s.bus, v))
    case Join(i) => s.(subscribers := s.subscribers[i := JOINING])
    case Wake(i) => s.(subscribers := s.subscribers[i := Woken(s.subscribers[i], s.bus)])
    case Write(i, result) => s.(subscribers := s.subscribers[i := Written(s.subscribers[i], result)])
    case Cancel(i) => s.(subscribers := s.subscribers[i := s.subscribers[i].(phase := Returned(Canceled))])
  }

  /** The steps can be taken one after the other. */
  predicate Possible(s: System, steps: seq<Step>)
    decreases |steps|
  {
    steps == [] || (Enabled(s, steps[0]) && Possible(Next(s, steps[0]), steps[1..]))
  }

  function After(s: System, steps: seq<Step>): System
    requires Possible(s, steps)
    decreases |steps|
  {
    if steps == [] then s else After(Next(s, steps[0]), steps[1..])
  }

  // ------------------------------------------------------------------------------ invariant

  function Latest(bus: Bus): Value {
    if bus.announced == [] then Nil else bus.announced[|bus.announced| - 1]
  }

  /** A channel is closed exactly when its generation is over. */
  ghost predicate BusInv(bus: Bus) {
    && bus.made == |bus.announced| + 1 && bus.nextReady == |bus.announced|
    && (forall n: nat :: n in bus.closed <==> n < bus.nextReady)
    && bus.b == Latest(bus)
  }

  /** The calls are of values that were announced, later and later ones. */
  ghost predicate CallsInOrder(calls: seq<Call>, announced: seq<Value>) {
    && (forall k :: 0 <= k < |calls| ==>
          0 < calls[k].generation <= |announced| && announced[calls[k].generation - 1] == Bytes(calls[k].b))
    && (forall j, k :: 0 <= j < k < |calls| ==> calls[j].generation < calls[k].generation)
  }

  function LastGeneration(calls: seq<Call>): nat {
    if calls == [] then 0 else calls[|calls| - 1].generation
  }

  ghost predicate SubscriberInv(s: Subscriber, announced: seq<Value>) {
    && CallsInOrder(s.calls, announced)
    && (match s.channel
        case Mine => s.calls == [] && !s.phase.Writing?
        case Made(n) =>
          && n <= |announced| && LastGeneration(s.calls) <= n
          && (match s.phase
              case Writing(b) => n > 0 && announced[n - 1] == Bytes(b) && LastGeneration(s.calls) < n
              case Selecting => n > 0 && announced[n - 1].Bytes? ==> LastGeneration(s.calls) == n
              case Returned(_) => true))
  }

  ghost predicate Inv(s: System) {
    BusInv(s.bus) && forall i :: i in s.subscribers ==> SubscriberInv(s.subscribers[i], s.bus.announced)
  }

  lemma AnnounceKeepsSubscriber(s: Subscriber, announced: seq<Value>, v: Value)
    requires SubscriberInv(s, announced)
    ensures SubscriberInv(s, announced + [v])
  {
  }

  lemma WriteKeepsSubscriber(s: Subscriber, announced: seq<Value>, result: WriteResult)
    requires SubscriberInv(s, announced) && s.phase.Writing?
    ensures SubscriberInv(Written(s, result), announced)
  {
    var calls := Written(s, result).calls;
    forall j | 0 <= j < |s.calls| ensures calls[j].generation < s.channel.n {
    }
  }

  /** Every step of every process keeps the invariant, and none closes a channel twice. */
  lemma StepKeepsInv(s: System, step: Step)
    requires Inv(s) && Enabled(s, step)
    ensures Inv(Next(s, step)) && !Panics(s, step)
  {
    match step
    case Announce(v) =>
      forall i | i in s.subscribers ensures SubscriberInv(s.subscribers[i], s.bus.announced + [v]) {
        AnnounceKeepsSubscriber(s.subscribers[i], s.bus.announced, v);
      }
    case Write(i, result) => WriteKeepsSubscriber(s.subscribers[i], s.bus.announced, result);
    case _ =>
  }

  lemma {:induction false} InvAlways(s: System, steps: seq<Step>)
    requires Inv(s) && Possible(s, steps)
    ensures Inv(After(s, steps))
    decreases |steps|
  {
    if steps != [] {
      StepKeepsInv(s, steps[0]);
      InvAlways(Next(s, steps[0]), steps[1..]);
    }
  }

  // ------------------------------------------------------------------------------- theorems

  /** A subscriber parked on an open channel has written the latest value, unless that is nil. */
  lemma ParkedHasLatest(s: System, i: nat)
    requires Inv(s) && i in s.subscribers && s.subscribers[i].phase.Selecting?
    requires !IsClosed(s.bus, s.subscribers[i].channel) && Latest(s.bus).Bytes?
    ensures var calls := s.subscribers[i].calls;
            calls != [] && calls[|calls| - 1] == Call(|s.bus.announced|, Latest(s.bus).b)
  {
    assert SubscriberInv(s.subscribers[i], s.bus.announced);
  }

  /** In every interleaving: only channels of past generations are closed, so announcing never panics;
      each subscriber writes announced values with growing generations; one that is parked on an open
      channel has written the latest value, unless that is nil. */
  lemma EveryInterleaving(steps: seq<Step>, i: nat)
    requires Possible(START, steps) && i in After(START, steps).subscribers
    ensures var s := After(START, steps);
            && (forall n: nat :: n < s.bus.made ==> (n in s.bus.closed <==> n < s.bus.nextReady))
            && s.bus.nextReady == s.bus.made - 1
            && (forall v :: !Panics(s, Announce(v)))
            && CallsInOrder(s.subscribers[i].calls, s.bus.announced)
    ensures var s := After(START, steps); var me := s.subscribers[i];
            me.phase.Selecting? && !IsClosed(s.bus, me.channel) && Latest(s.bus).Bytes? ==>
              me.calls != [] && me.calls[|me.calls| - 1] == Call(|s.bus.announced|, Latest(s.bus).b)
  {
    InvAlways(START, steps);
  }

  /** How many more writes a subscriber can make when nothing more is announced. */
  function Ahead(me: Subscriber, bus: Bus): nat {
    if me.phase.Returned? then 0
    else (if me.phase.Writing? then 1 else 0) + if IsClosed(bus, me.channel) && bus.b.Bytes? then 1 else 0
  }

  predicate Quiet(steps: seq<Step>) {
    forall k :: 0 <= k < |steps| ==> !steps[k].Announce?
  }

  /** Past `base` writes, a subscriber makes one of any value it had read, and then only of the latest. */
  ghost predicate CatchesUp(base: nat, me: Subscriber, bus: Bus) {
    && base <= |me.calls|
    && (base < |me.calls| && me.phase.Writing? ==> me.channel == Made(bus.nextReady))
    && (forall k :: base < k < |me.calls| ==> me.calls[k].generation == |bus.announced|)
  }

  /** A subscriber's own step while nothing is announced. */
  lemma QuietMove(base: nat, me: Subscriber, me': Subscriber, bus: Bus)
    requires BusInv(bus) && SubscriberInv(me, bus.announced) && CatchesUp(base, me, bus)
    requires
      || (me.phase.Selecting? && IsClosed(bus, me.channel) && me' == Woken(me, bus))
      || (me.phase.Selecting? && me' == me.(phase := Returned(Canceled)))
      || (me.phase.Writing? && me.channel.Made? && exists result :: me' == Written(me, result))
    ensures CatchesUp(base, me', bus) && |me'.calls| + Ahead(me', bus) <= |me.calls| + Ahead(me, bus)
  {
    if me.phase.Writing? {
      forall k | base < k < |me'.calls| ensures me'.calls[k].generation == |bus.announced| {
      }
    }
  }

  lemma QuietStep(base: nat, s: System, step: Step, i: nat)
    requires Inv(s) && Enabled(s, step) && !step.Announce?
    requires i in s.subscribers && CatchesUp(base, s.subscribers[i], s.bus)
    ensures var s' := Next(s, step);
            && s'.bus == s.bus && i in s'.subscribers && CatchesUp(base, s'.subscribers[i], s'.bus)
            && |s'.subscribers[i].calls| + Ahead(s'.subscribers[i], s'.bus) <=
               |s.subscribers[i].calls| + Ahead(s.subscribers[i], s.bus)
  {
    if !step.Join? && step.i == i {
      QuietMove(base, s.subscribers[i], Next(s, step).subscribers[i], s.bus);
    }
  }

  lemma {:induction false} QuietSteps(base: nat, s: System, steps: seq<Step>, i: nat)
    requires Inv(s) && Possible(s, steps) && Quiet(steps)
    requires i in s.subscribers && CatchesUp(base, s.subscribers[i], s.bus)
    ensures var s' := After(s, steps);
            && s'.bus == s.bus && i in s'.subscribers && CatchesUp(base, s'.subscribers[i], s'.bus)
            && |s'.subscribers[i].calls| + Ahead(s'.subscribers[i], s'.bus) <=
               |s.subscribers[i].calls| + Ahead(s.subscribers[i], s.bus)
    decreases |steps|
  {
    if steps != [] {
      StepKeepsInv(s, steps[0]);
      QuietStep(base, s, steps[0], i);
      QuietSteps(base, Next(s, steps[0]), steps[1..], i);
    }
  }

  /** Once announcing stops, a subscriber makes at most two more writes, and the second is of the latest
      value: at most one is stale, as the test of a fast and a slow subscriber demands
      (demoui/bytesub_test.go:49-56). */
  lemma AtMostOneStaleWrite(before: seq<Step>, quiet: seq<Step>, i: nat)
    requires Possible(START, before) && Possible(After(START, before), quiet) && Quiet(quiet)
    requires i in After(START, before).subscribers
    ensures var s := After(START, before); var s' := After(s, quiet);
            && i in s'.subscribers
            && var base, calls := |s.subscribers[i].calls|, s'.subscribers[i].calls;
               && base <= |calls| <= base + 2
               && (|calls| == base + 2 ==> Latest(s.bus).Bytes? && calls[base + 1] == Call(|s.bus.announced|, Latest(s.bus).b))
               && (s'.subscribers[i].phase.Selecting? && !IsClosed(s.bus, s'.subscribers[i].channel) && Latest(s.bus).Bytes? ==>
                     calls != [] && calls[|calls| - 1] == Call(|s.bus.announced|, Latest(s.bus).b))
  {
    var s := After(START, before);
    InvAlways(START, before);
    QuietSteps(|s.subscribers[i].calls|, s, quiet, i);
    InvAlways(s, quiet);
  }

  /** A running subscriber that is not parked on an open channel can always take a step of its own:
      nothing another process does can hold it up. */
  lemma RunningIsParkedOrCanMove(steps: seq<Step>, i: nat)
    requires Possible(START, steps) && i in After(START, steps).subscribers
    ensures var s := After(START, steps); var me := s.subscribers[i];
            !me.phase.Returned? ==>
              || Enabled(s, Wake(i)) || (forall result :: Enabled(s, Write(i, result)))
              || (me.phase.Selecting? && me.channel == Made(s.bus.nextReady))
  {
    InvAlways(START, steps);
  }

  // ------------------------------------------------------------------------------ returning

  /** The step makes subscriber i return with the outcome. */
  predicate Ends(step: Step, i: nat, outcome: Outcome) {
    match outcome
    case Canceled => step == Cancel(i)
    case WriteError => step == Write(i, Failure)
    case PartialWrite => step == Write(i, Part)
  }

  predicate IsOf(step: Step, i: nat) {
    !step.Announce? && step.i == i
  }

  predicate HasReturned(s: System, i: nat, outcome: Outcome) {
    i in s.subscribers && s.subscribers[i].phase == Returned(outcome)
  }

  ghost predicate EndedBy(steps: seq<Step>, i: nat, outcome: Outcome) {
    exists k :: 0 <= k < |steps| && Ends(steps[k], i, outcome)
  }

  lemma EndedByFirst(steps: seq<Step>, i: nat, outcome: Outcome)
    requires steps != []
    ensures EndedBy(steps, i, outcome) <==> Ends(steps[0], i, outcome) || EndedBy(steps[1..], i, outcome)
  {
    if EndedBy(steps[1..], i, outcome) {
      var k :| 0 <= k < |steps[1..]| && Ends(steps[1..][k], i, outcome);
      assert Ends(steps[k + 1], i, outcome);
    }
    if EndedBy(steps, i, outcome) && !Ends(steps[0], i, outcome) {
      var k :| 0 <= k < |steps| && Ends(steps[k], i, outcome);
      assert steps[1..][k - 1] == steps[k];
    }
  }

  /** A subscriber that has returned takes no step any more, and makes no further call. */
  lemma {:induction false} ReturnedStays(s: System, steps: seq<Step>, i: nat)
    requires Possible(s, steps) && i in s.subscribers && s.subscribers[i].phase.Returned?
    ensures i in After(s, steps).subscribers && After(s, steps).subscribers[i] == s.subscribers[i]
    ensures forall k :: 0 <= k < |steps| ==> !IsOf(steps[k], i)
    decreases |steps|
  {
    if steps != [] {
      ReturnedStays(Next(s, steps[0]), steps[1..], i);
      forall k | 0 <= k < |steps| ensures !IsOf(steps[k], i) {
        assert k > 0 ==> steps[k] == steps[1..][k - 1];
      }
    }
  }

  lemma StepReturns(s: System, step: Step, i: nat, outcome: Outcome)
    requires Enabled(s, step) && (i in s.subscribers ==> !s.subscribers[i].phase.Returned?)
    ensures HasReturned(Next(s, step), i, outcome) <==> Ends(step, i, outcome)
  {
  }

  lemma {:induction false} ReturnedIffEnded(s: System, steps: seq<Step>, i: nat, outcome: Outcome)
    requires Possible(s, steps) && (i in s.subscribers ==> !s.subscribers[i].phase.Returned?)
    ensures HasReturned(After(s, steps), i, outcome) <==> EndedBy(steps, i, outcome)
    decreases |steps|
  {
    if steps != [] {
      var s' := Next(s, steps[0]);
      EndedByFirst(steps, i, outcome);
      StepReturns(s, steps[0], i, outcome);
      if i in s'.subscribers && s'.subscribers[i].phase.Returned? {
        ReturnedStays(s', steps[1..], i);
        assert !EndedBy(steps[1..], i, outcome);
      } else {
        ReturnedIffEnded(s', steps[1..], i, outcome);
      }
    }
  }

  lemma {:induction false} AfterPrefix(s: System, steps: seq<Step>, n: nat)
    requires Possible(s, steps) && n <= |steps|
    ensures Possible(s, steps[..n]) && Possible(After(s, steps[..n]), steps[n..])
    ensures After(After(s, steps[..n]), steps[n..]) == After(s, steps)
    decreases n
  {
    if n == 0 {
      assert steps[..0] == [] && steps[0..] == steps;
    } else {
      AfterPrefix(Next(s, steps[0]), steps[1..], n - 1);
      assert steps[..n][0] == steps[0] && steps[..n][1..] == steps[1..][..n - 1] && steps[n..] == steps[1..][n - 1..];
    }
  }

  /** From step k on the subscriber has returned with the outcome, and does nothing. */
  ghost predicate ReturnedFrom(steps: seq<Step>, k: nat, i: nat, outcome: Outcome)
    requires Possible(START, steps) && k < |steps|
  {
    && Possible(START, steps[..k + 1]) && HasReturned(After(START, steps[..k + 1]), i, outcome)
    && i in After(START, steps).subscribers
    && After(START, steps).subscribers[i] == After(START, steps[..k + 1]).subscribers[i]
    && forall l :: k < l < |steps| ==> !IsOf(steps[l], i)
  }

  lemma EndsForGood(steps: seq<Step>, k: nat, i: nat, outcome: Outcome)
    requires Possible(START, steps) && k < |steps| && Ends(steps[k], i, outcome)
    ensures ReturnedFrom(steps, k, i, outcome)
  {
    AfterPrefix(START, steps, k + 1);
    assert Ends(steps[..k + 1][k], i, outcome);
    ReturnedIffEnded(START, steps[..k + 1], i, outcome);
    ReturnedStays(After(START, steps[..k + 1]), steps[k + 1..], i);
    forall l | k < l < |steps| ensures !IsOf(steps[l], i) {
      assert steps[l] == steps[k + 1..][l - k - 1];
    }
  }

  /** In every interleaving a subscriber has returned with an outcome exactly when it was cancelled, or one
      of its writes failed, or one was partial; and from that step on it does nothing. */
  lemma ReturnsExactlyWhenEnded(steps: seq<Step>, i: nat, outcome: Outcome)
    requires Possible(START, steps)
    ensures HasReturned(After(START, steps), i, outcome) <==> EndedBy(steps, i, outcome)
    ensures forall k :: 0 <= k < |steps| && Ends(steps[k], i, outcome) ==> ReturnedFrom(steps, k, i, outcome)
  {
    ReturnedIffEnded(START, steps, i, outcome);
    forall k | 0 <= k < |steps| && Ends(steps[k], i, outcome) ensures ReturnedFrom(steps, k, i, outcome) {
      EndsForGood(steps, k, i, outcome);
    }
  }

  /** How often subscriber i writes. */
  function Writes(steps: seq<Step>, i: nat): nat {
    if steps == [] then 0 else (if steps[0].Write? && steps[0].i == i then 1 else 0) + Writes(steps[1..], i)
  }

  lemma {:induction false} EveryWriteIsACall(s: System, steps: seq<Step>, i: nat)
    requires Possible(s, steps)
    ensures i in s.subscribers ==>
              i in After(s, steps).subscribers &&
              |After(s, steps).subscribers[i].calls| == |s.subscribers[i].calls| + Writes(steps, i)
    decreases |steps|
  {
    if steps != [] {
      EveryWriteIsACall(Next(s, steps[0]), steps[1..], i);
    }
  }

  lemma {:induction false} AfterSnoc(s: System, steps: seq<Step>, step: Step)
    requires Possible(s, steps) && Enabled(After(s, steps), step)
    ensures Possible(s, steps + [step]) && After(s, steps + [step]) == Next(After(s, steps), step)
    decreases |steps|
  {
    if steps == [] {
      assert Possible(Next(s, step), [step][1..]);
    } else {
      AfterSnoc(Next(s, steps[0]), steps[1..], step);
      assert (steps + [step])[1..] == steps[1..] + [step];
    }
  }

  /** The values announced by the steps. */
  function Values(steps: seq<Step>): seq<Value> {
    if steps == [] then [] else (if steps[0].Announce? then [steps[0].v] else []) + Values(steps[1..])
  }

  lemma Regroup<T>(a: seq<T>, b: seq<T>, c: seq<T>)
    ensures a + b + c == a + (b + c)
  {
  }

  lemma StepAnnounces(s: System, step: Step)
    requires Enabled(s, step)
    ensures Next(s, step).bus.announced == s.bus.announced + if step.Announce? then [step.v] else []
  {
    assert s.bus.announced + [] == s.bus.announced;
  }

  /** The history holds all that was announced, in order. */
  lemma {:induction false} HistoryIsAnnounced(s: System, steps: seq<Step>)
    requires Possible(s, steps)
    ensures After(s, steps).bus.announced == s.bus.announced + Values(steps)
    decreases |steps|
  {
    if steps == [] {
      assert s.bus.announced + [] == s.bus.announced;
    } else {
      StepAnnounces(s, steps[0]);
      HistoryIsAnnounced(Next(s, steps[0]), steps[1..]);
      Regroup(s.bus.announced, if steps[0].Announce? then [steps[0].v] else [], Values(steps[1..]));
    }
  }

  // ----------------------------------------------------------------------------- the object

  /** One turn of a subscriber's loop as the scheduler makes it: what the others announce before the
      select, whether the context is done and chosen, what they announce during a write, and how that ends. */
  datatype Turn = Turn(before: seq<Value>, canceled: bool, during: seq<Value>, result: WriteResult)

  function AllAnnounced(bus: Bus, values: seq<Value>): Bus {
    if values == [] then bus else Announced(AllAnnounced(bus, values[..|values| - 1]), values[|values| - 1])
  }

  /** What one turn does to the shared record and to a subscriber that is in its select. */
  function TurnTaken(bus: Bus, me: Subscriber, t: Turn): (Bus, Subscriber)
    requires me.phase.Selecting?
  {
    var bus1 := AllAnnounced(bus, t.before);
    if t.canceled then (bus1, me.(phase := Returned(Canceled)))
    else if !IsClosed(bus1, me.channel) then (bus1, me)
    else if bus1.b == Nil then (bus1, Woken(me, bus1))
    else (AllAnnounced(bus1, t.during), Written(Woken(me, bus1), t.result))
  }

  lemma {:induction false} AllAreAnnounced(bus: Bus, values: seq<Value>)
    requires BusInv(bus)
    ensures BusInv(AllAnnounced(bus, values)) && AllAnnounced(bus, values).announced == bus.announced + values
  {
    if values == [] {
      assert bus.announced + [] == bus.announced;
    } else {
      AllAreAnnounced(bus, values[..|values| - 1]);
      assert values == values[..|values| - 1] + [values[|values| - 1]];
    }
  }

  /** A turn whose select finds the channel of a past generation, and the value announced last. */
  predicate FindsValue(bus: Bus, me: Subscriber, t: Turn) {
    var announced := bus.announced + t.before;
    && !t.canceled && announced != [] && announced[|announced| - 1].Bytes?
    && (me.channel.Mine? || me.channel.n < |announced|)
  }

  /** A turn calls Write exactly when it is not cancelled and finds a value newer than the last it read; the
      call is of the latest value, and Subscribe returns exactly on cancellation, a failed or a partial write. */
  lemma TurnWritesTheLatestAndReturnsOnFailure(bus: Bus, me: Subscriber, t: Turn)
    requires BusInv(bus) && me.phase.Selecting?
    ensures var (_, me') := TurnTaken(bus, me, t); var announced := bus.announced + t.before;
            && me'.calls == me.calls + (if FindsValue(bus, me, t) then [Call(|announced|, announced[|announced| - 1].b)] else [])
            && (me'.phase == Returned(Canceled) <==> t.canceled)
            && (me'.phase == Returned(WriteError) <==> FindsValue(bus, me, t) && t.result.Failure?)
            && (me'.phase == Returned(PartialWrite) <==> FindsValue(bus, me, t) && t.result.Part?)
            && (me'.phase.Selecting? <==> !t.canceled && (FindsValue(bus, me, t) ==> t.result.Whole?))
    ensures TurnTaken(bus, me, t).0.announced ==
            bus.announced + t.before + if FindsValue(bus, me, t) then t.during else []
  {
    AllAreAnnounced(bus, t.before);
    AllAreAnnounced(AllAnnounced(bus, t.before), t.during);
    var announced := bus.announced + t.before;
    assert announced + [] == announced && me.calls + [] == me.calls;
  }

  /** The turns up to the one in which Subscribe returns. */
  function TurnsTaken(bus: Bus, me: Subscriber, turns: seq<Turn>): (Bus, Subscriber)
    requires me.phase.Selecting?
  {
    if turns == [] then (bus, me)
    else
      var before := TurnsTaken(bus, me, turns[..|turns| - 1]);
      if before.1.phase.Selecting? then TurnTaken(before.0, before.1, turns[|turns| - 1]) else before
  }

  lemma {:induction false} TurnsAfterReturn(bus: Bus, me: Subscriber, turns: seq<Turn>, n: nat)
    requires me.phase.Selecting? && n <= |turns| && !TurnsTaken(bus, me, turns[..n]).1.phase.Selecting?
    ensures TurnsTaken(bus, me, turns) == TurnsTaken(bus, me, turns[..n])
  {
    if n == |turns| {
      assert turns[..n] == turns;
    } else {
      assert turns[..|turns| - 1][..n] == turns[..n];
      TurnsAfterReturn(bus, me, turns[..|turns| - 1], n);
    }
  }

  class ByteSub {
    var nextReady: nat
    var b: Value
    var made: nat
    var closed: set<nat>
    ghost var announced: seq<Value>

    ghost function Model(): Bus
      reads this
    {
      Bus(made, closed, nextReady, b, announced)
    }

    constructor ()
      ensures Model() == NEW_BUS
    {
      nextReady, b, made, closed, announced := 0, Nil, 1, {}, [];
    }

    /** close panics on a channel that is closed. */
    method Close(c: nat)
      requires c !in closed
      modifies `closed
      ensures closed == old(closed) + {c}
    {
      closed := closed + {c};
    }

    method AnnounceLatest(v: Value)
      requires BusInv(Model())
      modifies this
      ensures Model() == Announced(old(Model()), v) && BusInv(Model())
    {
      Close(nextReady);
      nextReady := made;
      made := made + 1;
      b := v;
      announced := announced + [v];
    }

    method Get() returns (value: Value, ready: Channel)
      ensures value == Model().b && ready == Made(Model().nextReady)
    {
      value, ready := b, Made(nextReady);
    }

    /** The announcements other goroutines make while the subscriber's steps so far led to `me`. */
    method Others(values: seq<Value>, ghost s: System, ghost steps: seq<Step>, me: Subscriber) returns (ghost steps': seq<Step>)
      requires BusInv(Model()) && Possible(s, steps) && After(s, steps) == System(Model(), map[0 := me])
      modifies this
      ensures BusInv(Model()) && Possible(s, steps') && After(s, steps') == System(Model(), map[0 := me])
      ensures Model() == AllAnnounced(old(Model()), values)
    {
      steps' := steps;
      for i := 0 to |values|
        invariant BusInv(Model()) && Possible(s, steps') && After(s, steps') == System(Model(), map[0 := me])
        invariant Model() == AllAnnounced(old(Model()), values[..i])
      {
        assert values[..i + 1][..i] == values[..i];
        AfterSnoc(s, steps', Announce(values[i]));
        AnnounceLatest(values[i]);
        steps' := steps' + [Announce(values[i])];
      }
      assert values[..|values|] == values;
    }

    /** The branch for a closed channel: reads the value and the next channel, and writes the value. */
    method TakeValue(t: Turn, ghost s: System, ghost steps: seq<Step>, me: Subscriber)
      returns (me': Subscriber, ghost steps': seq<Step>)
      requires BusInv(Model()) && Possible(s, steps) && After(s, steps) == System(Model(), map[0 := me])
      requires me.phase.Selecting? && IsClosed(Model(), me.channel)
      modifies this
      ensures BusInv(Model()) && Possible(s, steps') && After(s, steps') == System(Model(), map[0 := me'])
      ensures me' == if old(b) == Nil then Woken(me, old(Model())) else Written(Woken(me, old(Model())), t.result)
      ensures Model() == if old(b) == Nil then old(Model()) else AllAnnounced(old(Model()), t.during)
    {
      AfterSnoc(s, steps, Wake(0));
      steps' := steps + [Wake(0)];
      var value, nextReady := Get();
      me' := me.(channel := nextReady);
      if value != Nil {
        me' := me'.(phase := Writing(value.b));
        steps' := Others(t.during, s, steps', me');
        AfterSnoc(s, steps', Write(0, t.result));
        me', steps' := Written(me', t.result), steps' + [Write(0, t.result)];
      }
    }

    /** The body of the loop: what the select finds, and the write. */
    method TakeTurn(t: Turn, ghost s: System, ghost steps: seq<Step>, me: Subscriber)
      returns (me': Subscriber, ghost steps': seq<Step>)
      requires BusInv(Model()) && Possible(s, steps) && After(s, steps) == System(Model(), map[0 := me])
      requires me.phase.Selecting?
      modifies this
      ensures BusInv(Model()) && Possible(s, steps') && After(s, steps') == System(Model(), map[0 := me'])
      ensures (Model(), me') == TurnTaken(old(Model()), me, t)
    {
      steps' := Others(t.before, s, steps, me);
      if t.canceled {
        AfterSnoc(s, steps', Cancel(0));
        me', steps' := me.(phase := Returned(Canceled)), steps' + [Cancel(0)];
      } else if me.channel.Mine? || me.channel.n in closed {
        me', steps' := TakeValue(t, s, steps', me);
      } else {
        me' := me;
      }
    }

    /** The subscriber's loop under a schedule does what the turns say, and that is a possible run. */
    method Subscribe(turns: seq<Turn>) returns (me: Subscriber, ghost steps: seq<Step>)
      requires BusInv(Model())
      modifies this
      ensures BusInv(Model()) && (Model(), me) == TurnsTaken(old(Model()), JOINING, turns)
      ensures var s := System(old(Model()), map[]);
              Possible(s, steps) && After(s, steps) == System(Model(), map[0 := me])
    {
      ghost var s := System(Model(), map[]);
      me, steps := JOINING, [Join(0)];
      AfterSnoc(s, [], Join(0));
      assert [] + [Join(0)] == steps;
      for t := 0 to |turns|
        invariant BusInv(Model()) && Possible(s, steps) && After(s, steps) == System(Model(), map[0 := me])
        invariant me.phase.Selecting? && (Model(), me) == TurnsTaken(old(Model()), JOINING, turns[..t])
      {
        assert turns[..t + 1][..t] == turns[..t];
        me, steps := TakeTurn(turns[t], s, steps, me);
        if !me.phase.Selecting? {
          TurnsAfterReturn(old(Model()), JOINING, turns, t + 1);
          return;
        }
      }
      assert turns[..|turns|] == turns;
    }
  }
}
