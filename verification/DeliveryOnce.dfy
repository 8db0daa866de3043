/** When a reward can have more than one copy in the air, when its user can get more than one, and which copy the tables
    know of. */
module DeliveryOnce {
  import opened Wrappers
  import opened Archive
  import opened RewardTables
  import opened DeliveryProtocol
  import opened DeliveryGuarantees
  import ArchiveIndex
  import ArchiveParser
  import ArchiveLimits

  /** Every copy in flight is the one its delivery is waiting for. */
  ghost predicate OneFlight(s: System) {
    && (forall f :: f in s.flights ==> Awaited(s.t, s.flights[f].reward))
    && forall f, g :: f in s.flights && g in s.flights && f != g ==> s.flights[f].reward != s.flights[g].reward
  }

  predicate Awaited(t: Tables, id: RewardId) {
    id in t.deliveries && t.deliveries[id].status.Sending?
  }

  /** A recovery that releases a send although its copy is still in flight. */
  ghost predicate Overtakes(s: System, e: Event) {
    && e.action.RecoverStaleSends?
    && exists f :: f in s.flights && s.flights[f].reward in e.action.locked
                   && s.flights[f].reward in s.t.deliveries && StaleSend(s.t.deliveries[s.flights[f].reward], e.now)
  }

  // ---- One step ---------------------------------------------------------------------------

  lemma PrepareAwaits(t: Tables, id: RewardId, cat: Catalogue, renders: bool, setting: Option<int>, now: Time)
    ensures var (u, answer) := Prepare(t, id, cat, renders, setting, now);
            && (forall i :: Awaited(t, i) ==> Awaited(u, i))
            && (answer.Copy? ==> !Awaited(t, id) && Awaited(u, id))
  {
    hide AvailabilityReason;
  }

  lemma OthersAwait(t: Tables, id: RewardId, i: RewardId, now: Time, telegramId: int, deleteSeconds: int, missing: bool,
                    answer: DeleteAnswer)
    requires Awaited(t, i)
    ensures i != id ==> Awaited(FinalizeSent(t, id, telegramId, deleteSeconds, now), i)
    ensures i != id ==> Awaited(ResetFailedSend(t, id, missing, now), i)
    ensures Awaited(ClaimDeletion(t, id, now), i) && Awaited(DeleteOne(t, id, answer, now), i)
    ensures Awaited(RecoverDeletions(t, now), i)
  {
    hide PreserveUnavailable, Backoff;
  }

  lemma SessionsAwait(t: Tables, user: UserId, id: RewardId, i: RewardId, now: Time)
    ensures Awaited(MarkClientCompleted(t, id, user, now).0, i) <==> Awaited(t, i)
    ensures Awaited(MarkProviderConfirmed(t, user, now).0, i) <==> Awaited(t, i)
  {
    hide RefreshStatus;
  }

  lemma OpeningAwaits(t: Tables, user: UserId, movie: MessageId, resolution: string, cat: Catalogue, ttl: Option<int>,
                      i: RewardId, now: Time)
    ensures Awaited(GetOrCreate(t, user, movie, resolution, cat, ttl, now).0, i) <==> Awaited(t, i)
  {
    hide AvailabilityReason, AvailableRow, NewestActive, OldestRetained;
  }

  lemma RecoveryAwaits(t: Tables, locked: set<RewardId>, now: Time, i: RewardId)
    requires Awaited(t, i)
    ensures Awaited(RecoverSends(t, locked, now), i) <==> !(i in locked && StaleSend(t.deliveries[i], now))
  {
  }

  // A step without new copies, in which every copy still in flight stays awaited.
  lemma FewerFlights(s: System, u: System)
    requires OneFlight(s)
    requires forall f :: f in u.flights ==>
             f in s.flights && u.flights[f] == s.flights[f] && Awaited(u.t, u.flights[f].reward)
    ensures OneFlight(u)
  {
    hide Awaited;
  }

  lemma PrepareKeepsOne(s: System, e: Event)
    requires OneFlight(s) && e.action.PrepareCopy?
    ensures OneFlight(Step(s, e))
  {
    hide Awaited, Prepare;
    PrepareAwaits(s.t, e.action.id, e.action.cat, e.action.renders, e.action.deleteSetting, e.now);
  }

  lemma LandingKeepsOne(s: System, e: Event)
    requires OneFlight(s) && (e.action.CopySucceeds? || e.action.CopyFails? || e.action.CopyLost?)
    ensures OneFlight(Step(s, e))
  {
    hide Awaited, FinalizeSent, ResetFailedSend;
    var u := Step(s, e);
    forall f | f in u.flights
      ensures f in s.flights && u.flights[f] == s.flights[f] && Awaited(u.t, u.flights[f].reward)
    {
      if e.action.flight in s.flights {
        OthersAwait(s.t, s.flights[e.action.flight].reward, s.flights[f].reward, e.now,
                    if e.action.CopySucceeds? then e.action.telegramId else 0, s.flights[e.action.flight].deleteSeconds,
                    if e.action.CopyFails? then e.action.missingSource else false, DeleteOk);
      }
    }
    FewerFlights(s, u);
  }

  lemma UpkeepKeepsOne(s: System, e: Event)
    requires OneFlight(s)
    requires e.action.Open? || e.action.ClientProof? || e.action.ProviderProof? || e.action.RecoverStaleDeletions?
             || e.action.Claim? || e.action.SettleDeletion?
    ensures OneFlight(Step(s, e))
  {
    hide Awaited, GetOrCreate, MarkClientCompleted, MarkProviderConfirmed, RecoverDeletions, ClaimDeletion, DeleteOne;
    var u := Step(s, e);
    forall f | f in u.flights
      ensures Awaited(u.t, u.flights[f].reward)
    {
      var i := s.flights[f].reward;
      match e.action
      case Open(user, movie, resolution, cat, ttl) => OpeningAwaits(s.t, user, movie, resolution, cat, ttl, i, e.now);
      case ClientProof(id, user) => SessionsAwait(s.t, user, id, i, e.now);
      case ProviderProof(user) => SessionsAwait(s.t, user, 0, i, e.now);
      case Claim(id) => OthersAwait(s.t, id, i, e.now, 0, 0, false, DeleteOk);
      case SettleDeletion(id, answer) => OthersAwait(s.t, id, i, e.now, 0, 0, false, answer);
      case _ => OthersAwait(s.t, 0, i, e.now, 0, 0, false, DeleteOk);
    }
    FewerFlights(s, u);
  }

  lemma RecoveryExactly(s: System, e: Event)
    requires OneFlight(s) && e.action.RecoverStaleSends?
    ensures OneFlight(Step(s, e)) <==> !Overtakes(s, e)
  {
    hide RecoverSends, StaleSend;
    var u := Step(s, e);
    forall f | f in s.flights
      ensures Awaited(u.t, s.flights[f].reward)
              <==> !(s.flights[f].reward in e.action.locked && StaleSend(s.t.deliveries[s.flights[f].reward], e.now))
    {
      RecoveryAwaits(s.t, e.action.locked, e.now, s.flights[f].reward);
    }
    if Overtakes(s, e) {
      var f :| f in s.flights && s.flights[f].reward in e.action.locked
               && s.flights[f].reward in s.t.deliveries && StaleSend(s.t.deliveries[s.flights[f].reward], e.now);
      assert f in u.flights && !Awaited(u.t, u.flights[f].reward);
    } else {
      FewerFlights(s, u);
    }
  }

  /** The exact condition: after a step every copy in flight is still awaited, and none has a double, if and only if the
      step is not a recovery overtaking a copy. */
  lemma StepOneFlightExactly(s: System, e: Event)
    requires OneFlight(s)
    ensures OneFlight(Step(s, e)) <==> !Overtakes(s, e)
  {
    hide OneFlight, Step;
    match e.action
    case PrepareCopy(_, _, _, _) => PrepareKeepsOne(s, e);
    case CopySucceeds(_, _) => LandingKeepsOne(s, e);
    case CopyFails(_, _, _) => LandingKeepsOne(s, e);
    case CopyLost(_, _) => LandingKeepsOne(s, e);
    case RecoverStaleSends(_) => RecoveryExactly(s, e);
    case _ => UpkeepKeepsOne(s, e);
  }

  // ---- Runs -------------------------------------------------------------------------------

  ghost predicate NeverOvertaken(s: System, es: seq<Event>)
    decreases |es|
  {
    es == [] || (!Overtakes(s, es[0]) && NeverOvertaken(Step(s, es[0]), es[1..]))
  }

  ghost predicate AlwaysOneFlight(s: System, es: seq<Event>)
    decreases |es|
  {
    OneFlight(s) && (es == [] || AlwaysOneFlight(Step(s, es[0]), es[1..]))
  }

  /** Over a whole run no reward ever has a second copy in the air, or one nobody waits for, if and only if no recovery
      overtakes a copy. */
  lemma {:induction false} RunOneFlightExactly(s: System, es: seq<Event>)
    requires OneFlight(s)
    ensures AlwaysOneFlight(s, es) <==> NeverOvertaken(s, es)
    decreases |es|
  {
    hide OneFlight, Step, Overtakes;
    if es != [] {
      StepOneFlightExactly(s, es[0]);
      if OneFlight(Step(s, es[0])) {
        RunOneFlightExactly(Step(s, es[0]), es[1..]);
      } else {
        assert !AlwaysOneFlight(Step(s, es[0]), es[1..]);
      }
    }
  }

  // ---- Copies that reach the user ---------------------------------------------------------

  /** Telegram has made the copy, whether or not the service hears of it. */
  predicate Arrives(a: Action) {
    a.CopySucceeds? || (a.CopyFails? && a.arrived) || (a.CopyLost? && a.arrived)
  }

  predicate Lands(s: System, e: Event, id: RewardId) {
    Arrives(e.action) && e.action.flight in s.flights && s.flights[e.action.flight].reward == id
  }

  /** A copy reaches its user, but the call fails or the process dies before that is recorded. */
  predicate Unheard(s: System, e: Event) {
    Arrives(e.action) && !e.action.CopySucceeds? && e.action.flight in s.flights
  }

  function LandsFor(s: System, e: Event): set<RewardId> {
    if Arrives(e.action) && e.action.flight in s.flights then {s.flights[e.action.flight].reward} else {}
  }

  predicate IsDelivered(s: System, id: RewardId) {
    id in s.t.rewards && s.t.rewards[id].status.Delivered?
  }

  /** Every copy in the air is the one its delivery waits for, and every reward of which a copy has reached its user is
      delivered. */
  ghost predicate Accounted(s: System, reached: set<RewardId>) {
    OneFlight(s) && forall id :: id in reached ==> IsDelivered(s, id)
  }

  // While a copy is awaited, its reward is being delivered.
  lemma AwaitedDelivering(s: System, flight: nat)
    requires Inv(s) && flight in s.flights && Awaited(s.t, s.flights[flight].reward)
    ensures var id := s.flights[flight].reward;
            id in s.t.rewards && s.t.rewards[id].status.Delivering? && s.t.deliveries[id].sendStartedAt.Some?
  {
    FlightKnown(s, flight);
    assert EntryOk(EntryAt(s, s.flights[flight].reward), s.clock);
  }

  lemma FlightKnown(s: System, flight: nat)
    requires Inv(s) && flight in s.flights
    ensures s.flights[flight].reward in s.t.rewards && s.flights[flight].reward in s.t.deliveries
  {
    hide EntriesOk, KeysOk, OneActive;
    assert FlightOk(s, s.flights[flight]);
  }

  lemma FlightAwaited(s: System, flight: nat)
    requires OneFlight(s) && flight in s.flights
    ensures Awaited(s.t, s.flights[flight].reward)
  {
  }

  lemma SuccessDelivers(s: System, e: Event)
    requires Inv(s) && OneFlight(s) && e.action.CopySucceeds? && e.action.flight in s.flights
    ensures !IsDelivered(s, s.flights[e.action.flight].reward)
            && IsDelivered(Step(s, e), s.flights[e.action.flight].reward)
  {
    hide Inv, OneFlight;
    FlightAwaited(s, e.action.flight);
    AwaitedDelivering(s, e.action.flight);
  }

  lemma UnheardIsMissed(s: System, e: Event)
    requires Inv(s) && OneFlight(s) && Unheard(s, e)
    ensures var id := s.flights[e.action.flight].reward; !IsDelivered(s, id) && !IsDelivered(Step(s, e), id)
  {
    hide Inv, OneFlight, PreserveUnavailable, SendAgain;
    FlightAwaited(s, e.action.flight);
    AwaitedDelivering(s, e.action.flight);
    StillUndelivered(s.t.rewards[s.flights[e.action.flight].reward], e.now);
  }

  lemma StillUndelivered(r: Reward, now: Time)
    ensures !PreserveUnavailable(r, SourceMissing, now).status.Delivered?
  {
  }

  lemma StaysDelivered(s: System, e: Event, id: RewardId)
    requires Inv(s) && IsDelivered(s, id)
    ensures IsDelivered(Step(s, e), id)
  {
    hide Inv, Step;
    StepKeepsCredit(s, e, id);
  }

  /** The exact condition: a step keeps the accounts if and only if it is neither a recovery overtaking a copy nor an
      arrival nobody hears of. */
  lemma StepAccountedExactly(s: System, e: Event, reached: set<RewardId>)
    requires Inv(s) && Accounted(s, reached)
    ensures Accounted(Step(s, e), reached + LandsFor(s, e)) <==> !Overtakes(s, e) && !Unheard(s, e)
  {
    hide Inv, Step, OneFlight, Overtakes, IsDelivered;
    StepOneFlightExactly(s, e);
    forall id | id in reached
      ensures IsDelivered(Step(s, e), id)
    {
      StaysDelivered(s, e, id);
    }
    if Unheard(s, e) {
      UnheardIsMissed(s, e);
      assert s.flights[e.action.flight].reward in LandsFor(s, e);
    } else if LandsFor(s, e) != {} {
      SuccessDelivers(s, e);
    }
  }

  ghost predicate NothingDoubled(s: System, es: seq<Event>)
    decreases |es|
  {
    es == [] || (!Overtakes(s, es[0]) && !Unheard(s, es[0]) && NothingDoubled(Step(s, es[0]), es[1..]))
  }

  ghost predicate AlwaysAccounted(s: System, es: seq<Event>, reached: set<RewardId>)
    decreases |es|
  {
    Accounted(s, reached) && (es == [] || AlwaysAccounted(Step(s, es[0]), es[1..], reached + LandsFor(s, es[0])))
  }

  /** The same over a whole run. */
  lemma {:induction false} RunAccountedExactly(s: System, es: seq<Event>, reached: set<RewardId>)
    requires Inv(s) && Timely(s.clock, es) && Accounted(s, reached)
    ensures AlwaysAccounted(s, es, reached) <==> NothingDoubled(s, es)
    decreases |es|
  {
    hide Inv, Step, Accounted, Overtakes, Unheard, LandsFor;
    if es != [] {
      var now := reached + LandsFor(s, es[0]);
      StepAccountedExactly(s, es[0], reached);
      StepKeeps(s, es[0]);
      StepClock(s, es[0]);
      if Accounted(Step(s, es[0]), now) {
        RunAccountedExactly(Step(s, es[0]), es[1..], now);
      } else {
        assert !AlwaysAccounted(Step(s, es[0]), es[1..], now);
      }
    }
  }

  // How many copies of a reward reach its user in a run.
  ghost function Landings(s: System, es: seq<Event>, id: RewardId): nat
    decreases |es|
  {
    if es == [] then 0
    else
      (if Lands(s, es[0], id) then 1 else 0) + Landings(Step(s, es[0]), es[1..], id)
  }

  /** Without overtaking recoveries and unheard arrivals at most one copy of a reward reaches its user. */
  lemma {:induction false} LandsOnce(s: System, es: seq<Event>, id: RewardId)
    requires Inv(s) && Timely(s.clock, es) && OneFlight(s) && NothingDoubled(s, es)
    ensures Landings(s, es, id) <= if IsDelivered(s, id) then 0 else 1
    decreases |es|
  {
    hide Inv, Step, OneFlight, Overtakes, IsDelivered;
    if es != [] {
      var e := es[0];
      StepOneFlightExactly(s, e);
      StepKeeps(s, e);
      StepClock(s, e);
      if Lands(s, e, id) {
        SuccessDelivers(s, e);
      } else if IsDelivered(s, id) {
        StaysDelivered(s, e, id);
      }
      LandsOnce(Step(s, e), es[1..], id);
    }
  }

  // ---- What bounds the copies in any case -------------------------------------------------

  function InAir(s: System, id: RewardId): set<nat> {
    set f | f in s.flights && s.flights[f].reward == id
  }

  /** Flights are numbered in the order in which they start. */
  ghost predicate Numbered(s: System) {
    forall f :: f in s.flights ==> f < s.nextFlight
  }

  ghost predicate SameFlights(s: System, u: System) {
    u.flights == s.flights && u.nextFlight == s.nextFlight && u.prepared == s.prepared
  }

  ghost predicate FlightEnded(s: System, u: System, flight: nat) {
    && u.prepared == s.prepared && u.nextFlight == s.nextFlight && u.flights.Keys == s.flights.Keys - {flight}
    && forall f :: f in u.flights ==> u.flights[f] == s.flights[f]
  }

  ghost predicate FlightStarted(s: System, u: System, id: RewardId) {
    && u.nextFlight == s.nextFlight + 1 && u.prepared == s.prepared[id := Count(s.prepared, id) + 1]
    && s.nextFlight in u.flights && u.flights[s.nextFlight].reward == id
    && u.flights == s.flights[s.nextFlight := u.flights[s.nextFlight]]
  }

  predicate EndsFlight(a: Action) {
    a.CopySucceeds? || a.CopyFails? || a.CopyLost?
  }

  // What a step does to the flights and to the count of copies prepared.
  lemma FlightsAfter(s: System, e: Event)
    ensures EndsFlight(e.action) ==> FlightEnded(s, Step(s, e), e.action.flight)
    ensures e.action.PrepareCopy? ==> SameFlights(s, Step(s, e)) || FlightStarted(s, Step(s, e), e.action.id)
    ensures !EndsFlight(e.action) && !e.action.PrepareCopy? ==> SameFlights(s, Step(s, e))
  {
    hide GetOrCreate, MarkClientCompleted, MarkProviderConfirmed, Prepare, FinalizeSent, ResetFailedSend, RecoverSends,
         RecoverDeletions, ClaimDeletion, DeleteOne;
    hide FlightEnded, FlightStarted;
    if EndsFlight(e.action) {
      EndedAfter(s, e);
    } else if e.action.PrepareCopy? {
      StartedAfter(s, e);
    }
  }

  lemma EndedAfter(s: System, e: Event)
    requires EndsFlight(e.action)
    ensures FlightEnded(s, Step(s, e), e.action.flight)
  {
    hide FinalizeSent, ResetFailedSend;
  }

  lemma StartedAfter(s: System, e: Event)
    requires e.action.PrepareCopy?
    ensures SameFlights(s, Step(s, e)) || FlightStarted(s, Step(s, e), e.action.id)
  {
    hide Prepare;
  }

  lemma StepPrepared(s: System, e: Event, id: RewardId)
    requires Numbered(s)
    ensures Numbered(Step(s, e))
    ensures |InAir(Step(s, e), id)| + (if Lands(s, e, id) then 1 else 0) - Count(Step(s, e).prepared, id)
            <= |InAir(s, id)| - Count(s.prepared, id)
  {
    hide Step;
    FlightsAfter(s, e);
    var u := Step(s, e);
    if EndsFlight(e.action) {
      EndedInAir(s, u, e.action.flight, id);
    } else if SameFlights(s, u) {
      assert InAir(u, id) == InAir(s, id);
    } else {
      StartedInAir(s, u, e.action.id, id);
    }
  }

  lemma EndedInAir(s: System, u: System, flight: nat, id: RewardId)
    requires FlightEnded(s, u, flight)
    ensures |InAir(u, id)| + (if flight in s.flights && s.flights[flight].reward == id then 1 else 0) == |InAir(s, id)|
  {
    assert forall f :: f in u.flights <==> f in s.flights.Keys && f != flight;
    assert InAir(u, id) == InAir(s, id) - {flight};
  }

  lemma StartedInAir(s: System, u: System, i: RewardId, id: RewardId)
    requires Numbered(s) && FlightStarted(s, u, i)
    ensures Numbered(u) && |InAir(u, id)| - Count(u.prepared, id) == |InAir(s, id)| - Count(s.prepared, id)
  {
    assert InAir(u, id) == if i == id then InAir(s, id) + {s.nextFlight} else InAir(s, id);
  }

  lemma {:induction false} RunPrepared(s: System, es: seq<Event>, id: RewardId)
    requires Numbered(s)
    ensures Numbered(Run(s, es))
    ensures |InAir(Run(s, es), id)| + Landings(s, es, id) - Count(Run(s, es).prepared, id) <= |InAir(s,
            id)| - Count(s.prepared, id)
    decreases |es|
  {
    hide Step, Numbered, InAir, Lands;
    if es != [] {
      StepPrepared(s, es[0], id);
      RunPrepared(Step(s, es[0]), es[1..], id);
    }
  }

  /** In every run the copies that have reached the user and those in the air are no more than the copies prepared, and
      these no more than one and the attempts recorded. */
  lemma CopiesBounded(es: seq<Event>, id: RewardId)
    requires Timely(START.clock, es)
    ensures var s := Run(START, es);
            Landings(START, es, id) + |InAir(s, id)| <= Count(s.prepared, id)
            <= if id in s.t.deliveries then 1 + s.t.deliveries[id].attempts else 0
  {
    RunPrepared(START, es, id);
    CopiesAccountedFor(es, id);
    assert InAir(START, id) == {};
  }

  // ---- Each such event can double a copy --------------------------------------------------

  // An index in which the content of the reward is available.
  function Offer(r: Reward): Catalogue {
    ArchiveIndex.Index(map[], map[r.movie := ArchiveIndex.Movie("", "", None, ArchiveParser.Modern, "",
                                                                ArchiveIndex.Indexed, 90)],
                       map[r.row := ArchiveIndex.Row(r.movie, r.movie, r.resolution, "", None, None, None, 90)], 0)
  }

  // The reward can be claimed again.
  predicate Claimable(s: System, id: RewardId) {
    && id in s.t.rewards && (s.t.rewards[id].status.Rewarded? || s.t.rewards[id].status.Unavailable?)
    && (id in s.t.deliveries ==> s.t.deliveries[id].status.Waiting?)
  }

  function CopyAgain(s: System, id: RewardId, now: Time): Event
    requires id in s.t.rewards
  {
    At(now, PrepareCopy(id, Offer(s.t.rewards[id]), true, None))
  }

  lemma CopiedAgain(s: System, id: RewardId, now: Time)
    requires Claimable(s, id)
    ensures var u := Step(s, CopyAgain(s, id, now));
            u.nextFlight == s.nextFlight + 1
            && u.flights == s.flights[s.nextFlight := Flight(id, s.t.rewards[id].row, DEFAULT_DELETE_SECONDS)]
  {
  }

  lemma FailedClaimable(s: System, e: Event)
    requires Inv(s) && OneFlight(s) && Unheard(s, e) && e.action.CopyFails?
    ensures Claimable(Step(s, e), s.flights[e.action.flight].reward)
  {
    AwaitedDelivering(s, e.action.flight);
  }

  lemma ReleasedClaimable(s: System, id: RewardId, now: Time)
    requires id in s.t.rewards && s.t.rewards[id].status.Delivering?
    requires id in s.t.deliveries && StaleSend(s.t.deliveries[id], now)
    ensures forall locked :: id in locked ==> Claimable(Step(s, At(now, RecoverStaleSends(locked))), id)
  {
  }

  // When the send of a lost copy has become stale.
  function ReleaseTime(s: System, id: RewardId, now: Time): Time
    requires id in s.t.deliveries && s.t.deliveries[id].sendStartedAt.Some?
  {
    Max(now, s.t.deliveries[id].sendStartedAt.value + STALE_SECONDS)
  }

  lemma Preceded(s: System, e: Event, es: seq<Event>, clock: Time, id: RewardId)
    requires clock <= e.now
    ensures Landings(s, [e] + es, id) == (if Lands(s, e, id) then 1 else 0) + Landings(Step(s, e), es, id)
    ensures NothingDoubled(s, [e] + es) <==> !Overtakes(s, e) && !Unheard(s, e) && NothingDoubled(Step(s, e), es)
    ensures Timely(clock, [e] + es) <==> Timely(e.now, es)
  {
    hide Step, Lands, Overtakes, Unheard;
    assert ([e] + es)[1..] == es;
  }

  // One more copy is prepared and arrives.
  lemma OneMoreLanding(s: System, id: RewardId, now: Time) returns (more: seq<Event>)
    requires Claimable(s, id)
    ensures Timely(now, more) && NothingDoubled(s, more) && Landings(s, more, id) >= 1
  {
    var e, f := CopyAgain(s, id, now), At(now, CopySucceeds(s.nextFlight, 0));
    hide Step, Claimable;
    CopiedAgain(s, id, now);
    more := [e, f];
    var u := Step(s, e);
    assert more[1..] == [f] && [f][1..] == [];
    assert NothingDoubled(Step(u, f), []);
    assert Lands(u, f, id) && !Unheard(u, f) && !Overtakes(u, f);
    assert NothingDoubled(u, [f]) && Landings(u, [f], id) >= 1;
    assert Timely(now, [f]);
  }

  lemma LostLeaves(s: System, e: Event)
    requires OneFlight(s) && Unheard(s, e) && e.action.CopyLost?
    ensures var u, id := Step(s, e), s.flights[e.action.flight].reward;
            u.t == s.t && forall f :: f in u.flights ==> u.flights[f].reward != id
  {
  }

  lemma LostLandsTwice(s: System, e: Event) returns (more: seq<Event>)
    requires Inv(s) && OneFlight(s) && Unheard(s, e) && e.action.CopyLost?
    ensures Timely(e.now, more) && NothingDoubled(Step(s, e), more)
    ensures Landings(s, [e] + more, s.flights[e.action.flight].reward) >= 2
  {
    hide Step, Inv, OneFlight, Claimable, StaleSend;
    var id := s.flights[e.action.flight].reward;
    assert Awaited(s.t, id) by {
      FlightAwaited(s, e.action.flight);
    }
    AwaitedDelivering(s, e.action.flight);
    LostLeaves(s, e);
    var u := Step(s, e);
    var now := ReleaseTime(s, id, e.now);
    BecomesStale(s, id, e.now);
    var r := At(now, RecoverStaleSends({id}));
    ReleasedClaimable(u, id, now);
    var rest := OneMoreLanding(Step(u, r), id, now);
    more := [r] + rest;
    assert !Overtakes(u, r);
    Preceded(u, r, rest, e.now, id);
    Preceded(s, e, more, e.now, id);
  }

  lemma BecomesStale(s: System, id: RewardId, now: Time)
    requires Awaited(s.t, id) && s.t.deliveries[id].sendStartedAt.Some?
    ensures now <= ReleaseTime(s, id, now) && StaleSend(s.t.deliveries[id], ReleaseTime(s, id, now))
  {
  }

  lemma FailedLandsTwice(s: System, e: Event) returns (more: seq<Event>)
    requires Inv(s) && OneFlight(s) && Unheard(s, e) && e.action.CopyFails?
    ensures Timely(e.now, more) && NothingDoubled(Step(s, e), more)
    ensures Landings(s, [e] + more, s.flights[e.action.flight].reward) >= 2
  {
    hide Step, Inv, OneFlight, Claimable;
    FailedClaimable(s, e);
    var id := s.flights[e.action.flight].reward;
    more := OneMoreLanding(Step(s, e), id, e.now);
    Preceded(s, e, more, e.now, id);
  }

  // Of two copies in the air both arrive.
  lemma BothArrive(s: System, now: Time, id: RewardId, f: nat, g: nat) returns (more: seq<Event>)
    requires f in s.flights && g in s.flights && f != g && s.flights[f].reward == id == s.flights[g].reward
    ensures Timely(now, more) && NothingDoubled(s, more) && Landings(s, more, id) >= 2
  {
    hide Step;
    var first, second := At(now, CopySucceeds(f, 0)), At(now, CopySucceeds(g, 1));
    FlightsAfter(s, first);
    var u := Step(s, first);
    more := [first, second];
    assert Lands(s, first, id) && Lands(u, second, id);
    assert more[1..] == [second] && [second][1..] == [];
    assert NothingDoubled(u, [second]) && Landings(u, [second], id) >= 1 && Timely(now, [second]);
  }

  lemma RecoveryLeaves(s: System, e: Event)
    requires e.action.RecoverStaleSends?
    ensures SameFlights(s, Step(s, e))
  {
    hide RecoverSends;
  }

  // A released reward of which a copy still is in the air.
  lemma ReleasedLandsTwice(u: System, id: RewardId, now: Time, flight: nat) returns (more: seq<Event>)
    requires Claimable(u, id) && Numbered(u) && flight in u.flights && u.flights[flight].reward == id
    ensures Timely(now, more) && NothingDoubled(u, more) && Landings(u, more, id) >= 2
  {
    var again := CopyAgain(u, id, now);
    assert flight < u.nextFlight;
    hide Step, Claimable, Numbered;
    CopiedAgain(u, id, now);
    var v := Step(u, again);
    var rest := BothArrive(v, now, id, flight, u.nextFlight);
    more := [again] + rest;
    hide Timely, NothingDoubled, Landings;
    Preceded(u, again, rest, now, id);
  }

  lemma OvertakenLandsTwice(s: System, e: Event, flight: nat) returns (more: seq<Event>)
    requires Inv(s) && OneFlight(s) && Numbered(s) && e.action.RecoverStaleSends? && flight in s.flights
    requires s.flights[flight].reward in e.action.locked && Awaited(s.t, s.flights[flight].reward)
    requires StaleSend(s.t.deliveries[s.flights[flight].reward], e.now)
    ensures Timely(e.now, more) && NothingDoubled(Step(s, e), more)
    ensures Landings(s, [e] + more, s.flights[flight].reward) >= 2
  {
    hide Step, Inv, OneFlight, StaleSend, Claimable, Timely, NothingDoubled, Landings, Awaited;
    var id, u := s.flights[flight].reward, Step(s, e);
    DeliveringAwaited(s, flight);
    ReleasedClaimable(s, id, e.now);
    assert e == At(e.now, RecoverStaleSends(e.action.locked));
    RecoveryLeaves(s, e);
    more := ReleasedLandsTwice(u, id, e.now, flight);
    Preceded(s, e, more, e.now, id);
  }

  lemma DeliveringAwaited(s: System, flight: nat)
    requires Inv(s) && flight in s.flights && Awaited(s.t, s.flights[flight].reward)
    ensures var id := s.flights[flight].reward;
            id in s.t.rewards && s.t.rewards[id].status.Delivering? && id in s.t.deliveries
  {
    AwaitedDelivering(s, flight);
  }

  /** None of these events is harmless: after a single one, some timely run without another leads to two copies of one
      reward with its user. */
  lemma DoublingShows(s: System, e: Event) returns (id: RewardId, more: seq<Event>)
    requires Inv(s) && OneFlight(s) && Numbered(s) && (Overtakes(s, e) || Unheard(s, e))
    ensures Timely(e.now, more) && NothingDoubled(Step(s, e), more) && Landings(s, [e] + more, id) >= 2
  {
    hide Step, Inv, OneFlight, Numbered;
    if Overtakes(s, e) {
      var flight :| flight in s.flights && s.flights[flight].reward in e.action.locked
                    && s.flights[flight].reward in s.t.deliveries
                       && StaleSend(s.t.deliveries[s.flights[flight].reward], e.now);
      id := s.flights[flight].reward;
      FlightAwaited(s, flight);
      more := OvertakenLandsTwice(s, e, flight);
    } else {
      id := s.flights[e.action.flight].reward;
      if e.action.CopyLost? {
        more := LostLandsTwice(s, e);
      } else {
        more := FailedLandsTwice(s, e);
      }
    }
  }

  // ---- Which copy the tables know of ------------------------------------------------------

  function RecordIn(t: Tables, id: RewardId): Option<int> {
    if id in t.deliveries then t.deliveries[id].telegramId else None
  }

  /** The message is scheduled for deletion. */
  predicate Scheduled(t: Tables, id: RewardId, telegramId: int, at: Time) {
    && id in t.deliveries && t.deliveries[id].status.Sent? && t.deliveries[id].telegramId == Some(telegramId)
    && t.deliveries[id].deleteAt == t.deliveries[id].nextAttemptAt == Some(at)
  }

  /** A copy that arrives is recorded, and scheduled for deletion, if and only if no other is recorded as sent. */
  lemma RecordedExactly(s: System, e: Event)
    requires Inv(s) && e.action.CopySucceeds? && e.action.flight in s.flights
    requires RecordIn(s.t, s.flights[e.action.flight].reward) != Some(e.action.telegramId)
    ensures var f, u := s.flights[e.action.flight], Step(s, e);
            && f.reward in s.t.deliveries
            && (Scheduled(u.t, f.reward, e.action.telegramId, e.now + f.deleteSeconds) <==>
                !s.t.deliveries[f.reward].status.Sent?)
            && (s.t.deliveries[f.reward].status.Sent? ==> u.t == s.t)
  {
    hide Inv, Step, Scheduled, FinalizeSent;
    FlightKnown(s, e.action.flight);
    SuccessFinalizes(s, e);
    FinalizeSchedules(s.t, s.flights[e.action.flight].reward, e.action.telegramId,
                      s.flights[e.action.flight].deleteSeconds, e.now);
  }

  lemma SuccessFinalizes(s: System, e: Event)
    requires e.action.CopySucceeds? && e.action.flight in s.flights
    requires s.flights[e.action.flight].reward in s.t.rewards && s.flights[e.action.flight].reward in s.t.deliveries
    ensures var f := s.flights[e.action.flight];
            Step(s, e).t == FinalizeSent(s.t, f.reward, e.action.telegramId, f.deleteSeconds, e.now)
  {
  }

  lemma FinalizeSchedules(t: Tables, id: RewardId, telegramId: int, deleteSeconds: int, now: Time)
    requires id in t.rewards && id in t.deliveries && RecordIn(t, id) != Some(telegramId)
    ensures var u := FinalizeSent(t, id, telegramId, deleteSeconds, now);
            && (Scheduled(u, id, telegramId, now + deleteSeconds) <==> !t.deliveries[id].status.Sent?)
            && (t.deliveries[id].status.Sent? ==> u == t)
  {
  }

  lemma SessionsRecord(t: Tables, user: UserId, movie: MessageId, resolution: string, cat: Catalogue, ttl: Option<int>,
                       i: RewardId, now: Time)
    ensures GetOrCreate(t, user, movie, resolution, cat, ttl, now).0.deliveries == t.deliveries
    ensures MarkClientCompleted(t, i, user, now).0.deliveries == t.deliveries
    ensures MarkProviderConfirmed(t, user, now).0.deliveries == t.deliveries
  {
    hide AvailabilityReason, AvailableRow, NewestActive, OldestRetained, RefreshStatus;
  }

  lemma SendsRecord(t: Tables, i: RewardId, cat: Catalogue, renders: bool, setting: Option<int>, missing: bool,
                    locked: set<RewardId>, now: Time, id: RewardId)
    ensures RecordIn(Prepare(t, i, cat, renders, setting, now).0, id) == RecordIn(t, id)
    ensures RecordIn(ResetFailedSend(t, i, missing, now), id) == RecordIn(t, id)
    ensures RecordIn(RecoverSends(t, locked, now), id) == RecordIn(t, id)
  {
    hide AvailabilityReason, PreserveUnavailable;
  }

  lemma DeletionsRecord(t: Tables, i: RewardId, answer: DeleteAnswer, now: Time, id: RewardId)
    ensures RecordIn(RecoverDeletions(t, now), id) == RecordIn(t, id)
    ensures RecordIn(ClaimDeletion(t, i, now), id) == RecordIn(t, id)
    ensures RecordIn(DeleteOne(t, i, answer, now), id) == RecordIn(t, id)
  {
    hide Backoff;
  }

  lemma ArrivalRecords(t: Tables, i: RewardId, telegramId: int, deleteSeconds: int, now: Time, id: RewardId)
    ensures RecordIn(FinalizeSent(t, i, telegramId, deleteSeconds, now), id)
            == if i == id && id in t.rewards && id in t.deliveries && !t.deliveries[id].status.Sent?
               then Some(telegramId) else RecordIn(t, id)
  {
  }

  // The recorded message changes only with a copy that arrives and finds none recorded as sent.
  lemma RecordAfter(s: System, e: Event, id: RewardId)
    requires Inv(s)
    ensures RecordIn(Step(s, e).t, id)
            == if e.action.CopySucceeds? && Lands(s, e, id) && id in s.t.deliveries && !s.t.deliveries[id].status.Sent?
               then Some(e.action.telegramId) else RecordIn(s.t, id)
  {
    hide Inv, RecordIn, Lands, GetOrCreate, MarkClientCompleted, MarkProviderConfirmed, Prepare, FinalizeSent,
         ResetFailedSend, RecoverSends, RecoverDeletions, ClaimDeletion, DeleteOne;
    var t, now := s.t, e.now;
    match e.action
    case Open(user, movie, resolution, cat, ttl) =>
      SessionsRecord(t, user, movie, resolution, cat, ttl, 0, now);
      SameDeliveries(t, Step(s, e).t, id);
    case ClientProof(i, user) =>
      SessionsRecord(t, user, 1, "", ArchiveIndex.EMPTY, None, i, now);
      SameDeliveries(t, Step(s, e).t, id);
    case ProviderProof(user) =>
      SessionsRecord(t, user, 1, "", ArchiveIndex.EMPTY, None, 0, now);
      SameDeliveries(t, Step(s, e).t, id);
    case PrepareCopy(i, cat, renders, setting) => SendsRecord(t, i, cat, renders, setting, false, {}, now, id);
    case RecoverStaleSends(locked) => SendsRecord(t, 0, ArchiveIndex.EMPTY, false, None, false, locked, now, id);
    case Claim(i) => DeletionsRecord(t, i, DeleteOk, now, id);
    case SettleDeletion(i, answer) => DeletionsRecord(t, i, answer, now, id);
    case RecoverStaleDeletions => DeletionsRecord(t, 0, DeleteOk, now, id);
    case _ => LandingRecords(s, e, id);
  }

  lemma SameDeliveries(t: Tables, u: Tables, id: RewardId)
    requires u.deliveries == t.deliveries
    ensures RecordIn(u, id) == RecordIn(t, id)
  {
  }

  lemma LandingRecords(s: System, e: Event, id: RewardId)
    requires Inv(s) && EndsFlight(e.action)
    ensures RecordIn(Step(s, e).t, id)
            == if e.action.CopySucceeds? && Lands(s, e, id) && id in s.t.deliveries && !s.t.deliveries[id].status.Sent?
               then Some(e.action.telegramId) else RecordIn(s.t, id)
  {
    hide Inv, RecordIn, FinalizeSent, ResetFailedSend;
    if e.action.flight in s.flights {
      var f := s.flights[e.action.flight];
      FlightKnown(s, e.action.flight);
      if e.action.CopySucceeds? {
        ArrivalRecords(s.t, f.reward, e.action.telegramId, f.deleteSeconds, e.now, id);
      } else if e.action.CopyFails? {
        SendsRecord(s.t, f.reward, ArchiveIndex.EMPTY, false, None, e.action.missingSource, {}, e.now, id);
      }
    }
  }

  // No event of the run reports this message.
  predicate NeverReported(es: seq<Event>, telegramId: int) {
    forall e :: e in es ==> !(e.action.CopySucceeds? && e.action.telegramId == telegramId)
  }

  /** A copy that was not recorded when it arrived is never recorded, so never deleted. */
  lemma {:induction false} NeverRecorded(s: System, es: seq<Event>, id: RewardId, telegramId: int)
    requires Inv(s) && Timely(s.clock, es) && NeverReported(es, telegramId) && RecordIn(s.t, id) != Some(telegramId)
    ensures RecordIn(Run(s, es).t, id) != Some(telegramId)
    decreases |es|
  {
    hide Inv, Step, RecordIn, Lands;
    if es != [] {
      RecordAfter(s, es[0], id);
      StepKeeps(s, es[0]);
      StepClock(s, es[0]);
      NeverRecorded(Step(s, es[0]), es[1..], id, telegramId);
    }
  }

  // ---- Two runs with two copies -----------------------------------------------------------

  const ASK := At(0, Open(7, 1, "720p", ArchiveLimits.OneMovie(), None))
  const WATCHED := At(1, ClientProof(0, 7))
  const CONFIRMED := At(2, ProviderProof(7))
  const FIRST_COPY := At(3, PrepareCopy(0, ArchiveLimits.OneMovie(), true, None))
  const LOST := At(4, CopyLost(0, true))
  const RECOVERY := At(303, RecoverStaleSends({0}))
  const SECOND_COPY := At(304, PrepareCopy(0, ArchiveLimits.OneMovie(), true, None))
  const FIRST_LANDS := At(305, CopySucceeds(0, 1001))
  const SECOND_LANDS := At(306, CopySucceeds(1, 1002))

  // The reward is earned, nothing hinders a copy.
  ghost predicate ReadyForCopy(s: System) {
    && 0 in s.t.rewards && s.t.rewards[0].status.Rewarded? && s.t.rewards[0].unavailableAt.None?
    && s.t.rewards[0].movie == 1 && s.t.rewards[0].row == 0 && s.t.rewards[0].resolution == "720p"
    && (0 in s.t.deliveries ==> s.t.deliveries[0].status.Waiting?)
  }

  lemma Asked() returns (s: System)
    ensures s == Step(Step(Step(START, ASK), WATCHED), CONFIRMED)
    ensures ReadyForCopy(s) && s.flights == map[] && s.nextFlight == 0
  {
    var s1 := Step(START, ASK);
    assert 0 in ArchiveLimits.OneMovie().rows;
    assert AvailableRow(ArchiveLimits.OneMovie(), 1, "720p") == Some(0);
    assert s1.t.rewards == map[0 := s1.t.rewards[0]] && s1.t.nextReward == 1;
    var s2 := Step(s1, WATCHED);
    assert s2.t.rewards == map[0 := s2.t.rewards[0]] && s2.t.rewards[0].clientAt == Some(1);
    s := Step(s2, CONFIRMED);
    assert Credited(s2);
  }

  predicate Credited(s: System) {
    NewestActive(ExpireDue(s.t, 7, 2).rewards, 7, 1) == Some(0)
  }

  lemma Copied(s: System, e: Event)
    requires ReadyForCopy(s) && (e == FIRST_COPY || e == SECOND_COPY)
    ensures var u := Step(s, e);
            && u.flights == s.flights[s.nextFlight := Flight(0, 0, DEFAULT_DELETE_SECONDS)]
               && u.nextFlight == s.nextFlight + 1
            && 0 in u.t.rewards && u.t.rewards[0] == s.t.rewards[0].(status := Delivering, startedAt := Some(e.now))
            && 0 in u.t.deliveries && u.t.deliveries[0].status.Sending?
               && u.t.deliveries[0].sendStartedAt == Some(e.now)
  {
  }

  lemma Overtaken(s: System)
    requires 0 in s.t.rewards && s.t.rewards[0].status.Delivering? && s.t.rewards[0].unavailableAt.None?
    requires s.t.rewards[0].movie == 1 && s.t.rewards[0].row == 0 && s.t.rewards[0].resolution == "720p"
    requires 0 in s.t.deliveries && s.t.deliveries[0].status.Sending? && s.t.deliveries[0].sendStartedAt == Some(3)
    ensures var u := Step(s, RECOVERY); ReadyForCopy(u) && u.flights == s.flights && u.nextFlight == s.nextFlight
  {
  }

  lemma {:induction false} InTwo(s: System, es: seq<Event>, fs: seq<Event>, id: RewardId)
    ensures Run(s, es + fs) == Run(Run(s, es), fs)
    ensures Landings(s, es + fs, id) == Landings(s, es, id) + Landings(Run(s, es), fs, id)
    decreases |es|
  {
    hide Step, Lands;
    if es == [] {
      assert es + fs == fs;
    } else {
      InTwo(Step(s, es[0]), es[1..], fs, id);
      assert (es + fs)[1..] == es[1..] + fs;
    }
  }

  lemma TwoSteps(s: System, a: Event, b: Event)
    ensures Run(s, [a, b]) == Step(Step(s, a), b)
    ensures Landings(s, [a, b], 0) == (if Lands(s, a, 0) then 1 else 0) + (if Lands(Step(s, a), b, 0) then 1 else 0)
  {
    hide Step, Lands;
    assert [a, b][1..] == [b] && [b][1..] == [];
    assert Run(Step(Step(s, a), b), []) == Step(Step(s, a), b);
    assert Run(Step(s, a), [b]) == Step(Step(s, a), b);
    assert Landings(Step(s, a), [b], 0) == if Lands(Step(s, a), b, 0) then 1 else 0;
  }

  const TO_FIRST_COPY := [ASK, WATCHED, CONFIRMED, FIRST_COPY]

  // The copy is in the air and awaited since time 3.
  ghost predicate AwaitsCopy(s: System) {
    && s.flights == map[0 := Flight(0, 0, DEFAULT_DELETE_SECONDS)] && s.nextFlight == 1
    && 0 in s.t.rewards && s.t.rewards[0].status.Delivering? && s.t.rewards[0].unavailableAt.None?
    && s.t.rewards[0].movie == 1 && s.t.rewards[0].row == 0 && s.t.rewards[0].resolution == "720p"
    && 0 in s.t.deliveries && s.t.deliveries[0].status.Sending? && s.t.deliveries[0].sendStartedAt == Some(3)
  }

  lemma CopyAwaited()
    ensures AwaitsCopy(Run(START, TO_FIRST_COPY)) && Landings(START, TO_FIRST_COPY, 0) == 0
  {
    hide Step, Run, Landings;
    var ready := Asked();
    Copied(ready, FIRST_COPY);
    TwoSteps(START, ASK, WATCHED);
    TwoSteps(Step(Step(START, ASK), WATCHED), CONFIRMED, FIRST_COPY);
    InTwo(START, [ASK, WATCHED], [CONFIRMED, FIRST_COPY], 0);
    assert TO_FIRST_COPY == [ASK, WATCHED] + [CONFIRMED, FIRST_COPY];
  }

  lemma ArrivalSeen(s: System, e: Event)
    requires 0 in s.t.rewards && 0 in s.t.deliveries && e.action.CopySucceeds?
    requires e.action.flight in s.flights && s.flights[e.action.flight].reward == 0
    ensures var u := Step(s, e);
            && Lands(s, e, 0) && FlightEnded(s, u, e.action.flight) && 0 in u.t.rewards && 0 in u.t.deliveries
            && RecordIn(u.t, 0) == (if s.t.deliveries[0].status.Sent? then RecordIn(s.t, 0)
                                    else Some(e.action.telegramId))
            && u.t.deliveries[0].status.Sent?
  {
  }

  lemma SecondPrepared(s: System)
    requires ReadyForCopy(s)
    ensures var u := Step(s, SECOND_COPY);
            && u.flights == s.flights[s.nextFlight := Flight(0, 0, DEFAULT_DELETE_SECONDS)]
            && 0 in u.t.rewards && 0 in u.t.deliveries && !u.t.deliveries[0].status.Sent?
  {
    hide Step, ReadyForCopy;
    Copied(s, SECOND_COPY);
  }

  /** From the empty tables: a slow copy, a recovery that releases it, a second copy; both are in the air at once and
      reach the user, and only the first is recorded. */
  lemma CopiedTwice()
    ensures var inAir, landed := TO_FIRST_COPY + [RECOVERY, SECOND_COPY], [FIRST_LANDS, SECOND_LANDS];
            && Timely(START.clock, inAir + landed) && |InAir(Run(START, inAir), 0)| == 2
            && Landings(START, inAir + landed, 0) == 2 && RecordIn(Run(START, inAir + landed).t, 0) == Some(1001)
  {
    hide Step, Run, Landings, Timely, ReadyForCopy, RecordIn;
    var s := Run(START, TO_FIRST_COPY);
    CopyAwaited();
    Overtaken(s);
    SecondPrepared(Step(s, RECOVERY));
    TwoSteps(s, RECOVERY, SECOND_COPY);
    InTwo(START, TO_FIRST_COPY, [RECOVERY, SECOND_COPY], 0);
    var u := Run(s, [RECOVERY, SECOND_COPY]);
    assert InAir(u, 0) == {0, 1};
    ArrivalSeen(u, FIRST_LANDS);
    ArrivalSeen(Step(u, FIRST_LANDS), SECOND_LANDS);
    TwoSteps(u, FIRST_LANDS, SECOND_LANDS);
    InTwo(START, TO_FIRST_COPY + [RECOVERY, SECOND_COPY], [FIRST_LANDS, SECOND_LANDS], 0);
    InTime(RECOVERY, SECOND_COPY, FIRST_LANDS, SECOND_LANDS);
  }

  /** From the empty tables: the process dies after Telegram has made the copy, the recovery releases the reward and a
      second copy reaches the user. No recovery overtakes a copy, and only the second is recorded. */
  lemma LostAndCopiedAgain()
    ensures var es := TO_FIRST_COPY + [LOST, RECOVERY] + [SECOND_COPY, SECOND_LANDS];
            && Timely(START.clock, es) && Landings(START, es, 0) == 2 && RecordIn(Run(START, es).t, 0) == Some(1002)
    ensures NeverOvertaken(Run(START, TO_FIRST_COPY), [LOST, RECOVERY] + [SECOND_COPY, SECOND_LANDS])
  {
    hide Step, Run, Landings, Timely, ReadyForCopy, RecordIn;
    var s := Run(START, TO_FIRST_COPY);
    CopyAwaited();
    FirstLost(s);
    var l := Step(s, LOST);
    Overtaken(l);
    TwoSteps(s, LOST, RECOVERY);
    InTwo(START, TO_FIRST_COPY, [LOST, RECOVERY], 0);
    var u := Run(s, [LOST, RECOVERY]);
    SecondPrepared(u);
    var v := Step(u, SECOND_COPY);
    ArrivalSeen(v, SECOND_LANDS);
    TwoSteps(u, SECOND_COPY, SECOND_LANDS);
    InTwo(START, TO_FIRST_COPY + [LOST, RECOVERY], [SECOND_COPY, SECOND_LANDS], 0);
    InTime(LOST, RECOVERY, SECOND_COPY, SECOND_LANDS);
    assert TO_FIRST_COPY + [LOST, RECOVERY] + [SECOND_COPY, SECOND_LANDS]
           == TO_FIRST_COPY + [LOST, RECOVERY, SECOND_COPY, SECOND_LANDS];
    NoneOvertaken(s, l, u, v);
  }

  lemma FirstLost(s: System)
    requires AwaitsCopy(s)
    ensures var u := Step(s, LOST);
            Lands(s, LOST, 0) && u.t == s.t && u.flights == map[] && u.nextFlight == s.nextFlight
  {
  }

  lemma NoneOvertaken(s: System, l: System, u: System, v: System)
    requires l == Step(s, LOST) && u == Step(l, RECOVERY) && v == Step(u, SECOND_COPY) && l.flights == map[]
    ensures NeverOvertaken(s, [LOST, RECOVERY] + [SECOND_COPY, SECOND_LANDS])
  {
    hide Step;
    var es := [LOST, RECOVERY] + [SECOND_COPY, SECOND_LANDS];
    assert es[1..] == [RECOVERY, SECOND_COPY, SECOND_LANDS] && es[1..][1..] == [SECOND_COPY, SECOND_LANDS];
    assert [SECOND_COPY, SECOND_LANDS][1..] == [SECOND_LANDS] && [SECOND_LANDS][1..] == [];
    assert NeverOvertaken(Step(v, SECOND_LANDS), []);
    assert NeverOvertaken(v, [SECOND_LANDS]);
    assert NeverOvertaken(u, [SECOND_COPY, SECOND_LANDS]);
    assert NeverOvertaken(l, [RECOVERY, SECOND_COPY, SECOND_LANDS]);
  }

  lemma InTime(a: Event, b: Event, c: Event, d: Event)
    requires 3 <= a.now <= b.now <= c.now <= d.now
    ensures Timely(START.clock, TO_FIRST_COPY + [a, b] + [c, d])
    ensures Timely(START.clock, TO_FIRST_COPY + [a, b, c, d])
  {
    var es := TO_FIRST_COPY + [a, b, c, d];
    assert es == TO_FIRST_COPY + [a, b] + [c, d];
    assert es[1..][1..] == es[2..] && es[2..][1..] == es[3..] && es[3..][1..] == es[4..];
    assert es[4..][1..] == es[5..] && es[5..][1..] == es[6..] && es[6..][1..] == es[7..] && es[7..][1..] == [];
    assert Timely(c.now, es[7..]);
    assert Timely(b.now, es[6..]);
    assert Timely(a.now, es[5..]);
    assert Timely(3, es[4..]);
    assert Timely(2, es[3..]);
    assert Timely(1, es[2..]);
    assert Timely(0, es[1..]);
  }
}
