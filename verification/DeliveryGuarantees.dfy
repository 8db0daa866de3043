/** What the invariant of the delivery protocol means for users and for Telegram, over every run. */
module DeliveryGuarantees {
  import opened Wrappers
  import opened Archive
  import opened RewardTables
  import opened DeliveryProtocol
  import ArchiveIndex
  import ArchiveParser
  import ArchiveSafety

  /** In every reachable state the two status machines are coupled, nothing is stuck, at most one reward
      per user is active, copies prepared never exceed failed attempts by more than one, and no message
      is the subject of more than 581 deletion claims. */
  lemma ReachableStates(es: seq<Event>)
    requires Timely(START.clock, es)
    ensures Inv(Run(START, es))
  {
    RunKeeps(START, es);
  }

  /** The branches of the preparation step for a reward that is not marked as being delivered but whose
      delivery record says otherwise are never taken. */
  lemma NoOrphanedDelivery(s: System, id: RewardId, cat: Catalogue, renders: bool, setting: Option<int>, now: Time)
    requires Inv(s) && id in s.t.rewards
    ensures s.t.rewards[id].status.Rewarded? || s.t.rewards[id].status.Unavailable? ==>
              (id in s.t.deliveries ==> s.t.deliveries[id].status.Waiting?)
    ensures Prepare(s.t, id, cat, renders, setting, now).1.AlreadyDelivered? <==> s.t.rewards[id].status.Delivered?
    ensures Prepare(s.t, id, cat, renders, setting, now).1.Processing? <==> s.t.rewards[id].status.Delivering?
  {
    assert EntryOk(EntryAt(s, id), s.clock);
  }

  /** The reward's row still is what it was earned for, in an indexed movie, and the parser trusts it. */
  predicate HasContent(r: Reward, cat: Catalogue) {
    && r.movie in cat.movies && cat.movies[r.movie].status.Indexed?
    && r.row in cat.rows && cat.rows[r.row].movie == r.movie && cat.rows[r.row].resolution == r.resolution
    && cat.rows[r.row].confidence > 0
  }

  /** In reachable states a copy is issued exactly for an earned, undelivered reward that is not being delivered, whose
      content is there and whose caption renders; without content it is kept, with the reason. */
  lemma PreparedExactly(s: System, id: RewardId, cat: Catalogue, renders: bool, setting: Option<int>, now: Time)
    requires Inv(s)
    ensures var (t, answer) := Prepare(s.t, id, cat, renders, setting, now);
            && (answer.Copy? <==> id in s.t.rewards && renders && HasContent(s.t.rewards[id], cat)
                                  && (s.t.rewards[id].status.Rewarded? || s.t.rewards[id].status.Unavailable?))
            && (answer.NowUnavailable? <==> id in s.t.rewards && !HasContent(s.t.rewards[id], cat)
                                            && (s.t.rewards[id].status.Rewarded?
                                                || s.t.rewards[id].status.Unavailable?))
            && (answer.Copy? ==> && id in t.rewards && id in t.deliveries && t.rewards[id].status.Delivering?
                                 && t.deliveries[id].status.Sending? && t.deliveries[id].sendStartedAt == Some(now)
                                 && MIN_DELETE_SECONDS <= answer.deleteSeconds <= MAX_DELETE_SECONDS)
            && (answer.NowUnavailable? ==>
                id in t.rewards && t.rewards[id].status.Unavailable? && t.rewards[id].unavailableAt.Some?
                && t.rewards[id].reason == AvailabilityReason(s.t.rewards[id], cat))
            && (!answer.Copy? && !answer.NowUnavailable? ==> t == s.t)
  {
    hide Inv, PreserveUnavailable;
    if id in s.t.rewards {
      NoOrphanedDelivery(s, id, cat, renders, setting, now);
    }
    if id in s.t.rewards && AvailabilityReason(s.t.rewards[id], cat).Some? {
      KeptWithReason(s.t, id, cat, now);
    }
  }

  lemma KeptWithReason(t: Tables, id: RewardId, cat: Catalogue, now: Time)
    requires id in t.rewards && AvailabilityReason(t.rewards[id], cat).Some?
    ensures var reason := AvailabilityReason(t.rewards[id], cat);
            var r := PreserveUnavailable(t.rewards[id], reason.value, now);
            r.status.Unavailable? && r.unavailableAt.Some? && r.reason == reason
  {
    hide AvailabilityReason;
  }

  // A session bound to what was asked for.
  predicate Bound(r: Reward, user: UserId, movie: MessageId, row: RowId, resolution: string) {
    r.user == user && r.movie == movie && r.row == row && r.resolution == resolution
  }

  // The table a new session goes into: overdue sessions expired, an active reward without content set aside.
  ghost function Cleared(s: Tables, user: UserId, cat: Catalogue, now: Time): (Tables, Option<RewardId>) {
    var u := ExpireDue(s, user, now);
    ReleaseSlot(u, NewestActive(u.rewards, user, u.nextReward), cat, now)
  }

  lemma ClearedSlot(s: System, user: UserId, cat: Catalogue)
    requires Inv(s)
    ensures var (t, slot) := Cleared(s.t, user, cat, s.clock);
            && t.rewards.Keys == s.t.rewards.Keys && t.nextReward == s.t.nextReward
            && (forall i :: i in t.rewards ==> i < t.nextReward)
            && (slot.None? ==> forall i :: i in t.rewards && t.rewards[i].user == user ==> !Active(t.rewards[i]))
            && (slot.Some? ==>
                  && slot.value in t.rewards && t.rewards[slot.value].user == user && Active(t.rewards[slot.value])
                  && t.rewards[slot.value] == s.t.rewards[slot.value] && !Overdue(t.rewards[slot.value], s.clock))
  {
    hide EntryOk, ReleaseSlot, Active, NewestActive;
    var u := s.(t := ExpireDue(s.t, user, s.clock));
    ExpireKeeps(s, user);
    assert u.t.rewards.Keys == s.t.rewards.Keys;
    assert forall i :: i in u.t.rewards ==> i in s.t.rewards.Keys;
    var active := NewestActive(u.t.rewards, user, u.t.nextReward);
    ReleaseKeeps(u, user, active, cat);
    ReleaseKeys(u.t, active, cat, s.clock);
    if active.Some? {
      StillActive(s.t, user, active.value, s.clock);
    }
  }

  lemma ReleaseKeys(t: Tables, active: Option<RewardId>, cat: Catalogue, now: Time)
    requires active.Some? ==> active.value in t.rewards
    ensures ReleaseSlot(t, active, cat, now).0.rewards.Keys == t.rewards.Keys
  {
    hide AvailabilityReason;
  }

  lemma StillActive(t: Tables, user: UserId, id: RewardId, now: Time)
    requires id in t.rewards && Active(ExpireDue(t, user, now).rewards[id]) && t.rewards[id].user == user
    ensures ExpireDue(t, user, now).rewards[id] == t.rewards[id] && !Overdue(t.rewards[id], now)
  {
  }

  /** What a user who asks for a video gets: his active or retained session for exactly that row; or a new session, when
      no other of his is active and none is retained for the row; or word of the other session that is active. Refusals
      change nothing. */
  lemma OpeningAnswers(s: System, user: UserId, movie: MessageId, resolution: string, cat: Catalogue, ttl: Option<int>)
    requires Inv(s)
    ensures var (t, answer) := GetOrCreate(s.t, user, movie, resolution, cat, ttl, s.clock);
            var row := AvailableRow(cat, movie, resolution);
            match answer
            case QualityUnavailable => t == s.t && row.None?
            case Existing(id) =>
              && row.Some? && id in s.t.rewards && id in t.rewards
                 && Bound(t.rewards[id], user, movie, row.value, resolution)
              && (Active(t.rewards[id]) || Retained(t.rewards[id], user, movie, row.value, resolution))
            case Created(id) =>
              && row.Some? && id !in s.t.rewards && t.rewards.Keys == s.t.rewards.Keys + {id}
              && Bound(t.rewards[id], user, movie, row.value, resolution) && t.rewards[id].status.Pending?
              && s.clock + MIN_SESSION_SECONDS <= t.rewards[id].expiresAt <= s.clock + MAX_SESSION_SECONDS
              && forall i :: i in s.t.rewards && t.rewards[i].user == user ==>
                   !Active(t.rewards[i]) && !Retained(t.rewards[i], user, movie, row.value, resolution)
            case ActiveConflict(id) =>
              && t == s.t && row.Some? && id in s.t.rewards && Active(s.t.rewards[id]) && s.t.rewards[id].user == user
              && !Overdue(s.t.rewards[id], s.clock) && !Bound(s.t.rewards[id], user, movie, row.value, resolution)
  {
    hide Inv, Active, AvailableRow, ExpireDue, ReleaseSlot, NewestActive;
    ClearedSlot(s, user, cat);
    var (v, slot) := Cleared(s.t, user, cat, s.clock);
    var row := AvailableRow(cat, movie, resolution);
    if row.Some? {
      var retained := OldestRetained(v.rewards, user, movie, row.value, resolution, 0, v.nextReward);
      assert v.nextReward !in v.rewards;
      assert retained.None? ==> forall i :: i in v.rewards ==>
             !Retained(v.rewards[i], user, movie, row.value, resolution);
    }
  }

  /** Who paid, for what, and how. */
  predicate SameCredit(a: Reward, b: Reward) {
    && a.user == b.user && a.movie == b.movie && a.row == b.row && a.resolution == b.resolution
    && a.clientAt == b.clientAt && a.providerAt == b.providerAt
  }

  predicate CreditKept(a: Reward, b: Reward) {
    Earned(a.status) ==> Earned(b.status) && SameCredit(a, b) && (a.status.Delivered? ==> b.status.Delivered?)
  }

  // A session that is not earned may expire or gain a proof; its binding stays.
  predicate BindingKept(a: Reward, b: Reward) {
    a.user == b.user && a.movie == b.movie && a.row == b.row && a.resolution == b.resolution
  }

  ghost predicate Keeps(t: Tables, u: Tables, id: RewardId) {
    id in t.rewards ==>
      id in u.rewards && CreditKept(t.rewards[id], u.rewards[id]) && BindingKept(t.rewards[id], u.rewards[id])
  }

  lemma OpenKeepsCredit(t: Tables, user: UserId, movie: MessageId, resolution: string, cat: Catalogue, ttl: Option<int>,
                        now: Time, id: RewardId)
    requires id in t.rewards ==> id < t.nextReward
    ensures Keeps(t, GetOrCreate(t, user, movie, resolution, cat, ttl, now).0, id)
  {
    var u := ExpireDue(t, user, now);
    assert Keeps(t, u, id);
    var active := NewestActive(u.rewards, user, u.nextReward);
    var v := ReleaseSlot(u, active, cat, now).0;
    assert Keeps(u, v, id) && v.nextReward == t.nextReward;
    assert Keeps(t, v, id);
    hide ExpireDue, ReleaseSlot, AvailableRow, CreditKept, BindingKept, OldestRetained, NewestActive;
    assert Keeps(t, t, id) by {
      KeepsItself(t, id);
    }
  }

  lemma KeepsItself(t: Tables, id: RewardId)
    ensures Keeps(t, t, id)
  {
  }

  lemma ClientProofKeepsCredit(t: Tables, id: RewardId, i: RewardId, user: UserId, now: Time)
    requires id in t.rewards ==> RewardOk(t.rewards[id])
    ensures Keeps(t, MarkClientCompleted(t, i, user, now).0, id)
  {
  }

  lemma ProviderProofKeepsCredit(t: Tables, id: RewardId, user: UserId, now: Time)
    requires id in t.rewards ==> RewardOk(t.rewards[id])
    ensures Keeps(t, MarkProviderConfirmed(t, user, now).0, id)
  {
  }

  lemma PrepareKeepsCredit(t: Tables, id: RewardId, i: RewardId, cat: Catalogue, renders: bool, setting: Option<int>,
                           now: Time)
    ensures Keeps(t, Prepare(t, i, cat, renders, setting, now).0, id)
  {
  }

  lemma CopyKeepsCredit(t: Tables, id: RewardId, i: RewardId, telegramId: int, deleteSeconds: int, missing: bool,
                        now: Time)
    requires i in t.rewards ==> Earned(t.rewards[i].status)
    ensures Keeps(t, FinalizeSent(t, i, telegramId, deleteSeconds, now), id)
    ensures Keeps(t, ResetFailedSend(t, i, missing, now), id)
  {
  }

  lemma StepKeepsCredit(s: System, e: Event, id: RewardId)
    requires Inv(s)
    ensures Keeps(s.t, Step(s, e).t, id)
  {
    hide Inv, EntryOk, Keeps, GetOrCreate, MarkClientCompleted, MarkProviderConfirmed, Prepare, RecoverSends,
         RecoverDeletions, ClaimDeletion, DeleteOne;
    if id in s.t.rewards {
      RewardSound(s, id);
    }
    match e.action
    case Open(user, movie, resolution, cat, ttl) => OpenKeepsCredit(s.t, user, movie, resolution, cat, ttl, e.now, id);
    case ClientProof(i, user) => ClientProofKeepsCredit(s.t, id, i, user, e.now);
    case ProviderProof(user) => ProviderProofKeepsCredit(s.t, id, user, e.now);
    case PrepareCopy(i, cat, renders, setting) => PrepareKeepsCredit(s.t, id, i, cat, renders, setting, e.now);
    case CopySucceeds(_, _) => LandingKeepsCredit(s, e, id);
    case CopyFails(_, _, _) => LandingKeepsCredit(s, e, id);
    case CopyLost(_, _) => KeepsItself(s.t, id);
    case RecoverStaleSends(locked) => UpkeepKeepsCredit(s.t, id, locked, e.now);
    case RecoverStaleDeletions => UpkeepKeepsCredit(s.t, id, {}, e.now);
    case Claim(i) => DeletionKeepsCredit(s.t, id, i, DeleteOk, e.now);
    case SettleDeletion(i, answer) => DeletionKeepsCredit(s.t, id, i, answer, e.now);
  }

  lemma LandingKeepsCredit(s: System, e: Event, id: RewardId)
    requires Inv(s) && (e.action.CopySucceeds? || e.action.CopyFails?)
    ensures Keeps(s.t, Step(s, e).t, id)
  {
    hide Inv, EntryOk, Keeps, FinalizeSent, ResetFailedSend;
    KeepsItself(s.t, id);
    if e.action.flight in s.flights {
      var f := s.flights[e.action.flight];
      FlightEarned(s, e.action.flight);
      if e.action.CopySucceeds? {
        CopyKeepsCredit(s.t, id, f.reward, e.action.telegramId, f.deleteSeconds, false, e.now);
        assert Step(s, e).t == s.t || Step(s, e).t == FinalizeSent(s.t, f.reward, e.action.telegramId, f.deleteSeconds,
                                                                   e.now);
      } else {
        CopyKeepsCredit(s.t, id, f.reward, 0, 0, e.action.missingSource, e.now);
      }
    }
  }

  lemma RewardSound(s: System, id: RewardId)
    requires Inv(s) && id in s.t.rewards
    ensures RewardOk(s.t.rewards[id]) && id < s.t.nextReward
  {
    assert EntryOk(EntryAt(s, id), s.clock);
  }

  lemma UpkeepKeepsCredit(t: Tables, id: RewardId, locked: set<RewardId>, now: Time)
    ensures Keeps(t, RecoverSends(t, locked, now), id) && Keeps(t, RecoverDeletions(t, now), id)
  {
  }

  lemma DeletionKeepsCredit(t: Tables, id: RewardId, i: RewardId, answer: DeleteAnswer, now: Time)
    ensures Keeps(t, ClaimDeletion(t, i, now), id) && Keeps(t, DeleteOne(t, i, answer, now), id)
  {
  }

  /** Whatever happens to a copy in flight, the reward it was prepared for has been earned. */
  lemma FlightEarned(s: System, flight: nat)
    requires Inv(s) && flight in s.flights
    ensures s.flights[flight].reward in s.t.rewards && Earned(s.t.rewards[s.flights[flight].reward].status)
    ensures Proven(s.t.rewards[s.flights[flight].reward])
  {
    assert FlightOk(s, s.flights[flight]);
    assert EntryOk(EntryAt(s, s.flights[flight].reward), s.clock);
  }

  /** An earned reward is never lost: whatever happens it stays earned, with its proofs and its binding to
      user, movie, row and resolution, and once delivered it stays delivered. */
  lemma {:induction false} RunKeepsCredit(s: System, es: seq<Event>, id: RewardId)
    requires Inv(s) && Timely(s.clock, es) && id in s.t.rewards
    ensures Keeps(s.t, Run(s, es).t, id)
    decreases |es|
  {
    hide Inv, Step;
    if es != [] {
      StepKeepsCredit(s, es[0], id);
      StepKeeps(s, es[0]);
      StepClock(s, es[0]);
      RunKeepsCredit(Step(s, es[0]), es[1..], id);
    }
  }

  /** A copy is issued only for a reward with both proofs whose row still is the one it was earned for,
      in an indexed movie, with positive confidence. */
  lemma IssuedCopyIsSafe(s: System, e: Event, f: nat)
    requires Inv(s) && f !in s.flights && f in Step(s, e).flights
    ensures e.action.PrepareCopy?
    ensures var flight, cat := Step(s, e).flights[f], e.action.cat;
            && flight.reward == e.action.id && flight.reward in s.t.rewards
            && var r := s.t.rewards[flight.reward];
               && Proven(r) && Earned(r.status) && !r.status.Delivered? && flight.row == r.row
               && r.row in cat.rows && cat.rows[r.row].movie == r.movie && cat.rows[r.row].resolution == r.resolution
               && cat.rows[r.row].confidence > 0 && r.movie in cat.movies && cat.movies[r.movie].status.Indexed?
  {
    OnlyPreparationIssues(s, e, f);
    var id := e.action.id;
    if id in s.t.rewards {
      assert EntryOk(EntryAt(s, id), s.clock);
    }
    hide Inv, EntryOk;
  }

  lemma OnlyPreparationIssues(s: System, e: Event, f: nat)
    requires f !in s.flights && f in Step(s, e).flights
    ensures e.action.PrepareCopy?
  {
  }

  /** Together with the safety of the archive index: the message that is copied is one the parser, run on
      what is recorded today, accepts for that movie and resolution. */
  lemma IssuedCopyIsParsed(par: ArchiveParser.Parser, s: System, e: Event, f: nat)
    requires Inv(s) && f !in s.flights && f in Step(s, e).flights
    requires e.action.PrepareCopy? ==> ArchiveSafety.Safe(par, e.action.cat)
    ensures e.action.PrepareCopy?
    ensures var cat, r := e.action.cat, s.t.rewards[e.action.id];
            && r.movie in cat.movies && r.row in cat.rows
            && ArchiveIndex.Holds(ArchiveIndex.MovieGroup(par, cat, r.movie, None), r.resolution,
                                  cat.rows[r.row].messageId)
  {
    IssuedCopyIsSafe(s, e, f);
    hide Inv;
    var cat, r := e.action.cat, s.t.rewards[e.action.id];
    assert ArchiveSafety.MovieSafe(par, cat, r.movie);
    assert ArchiveSafety.Backed(ArchiveIndex.MovieGroup(par, cat, r.movie, None), cat.rows[r.row]);
  }

  /** A provider confirmation credits the user's one active session, if there is one that has not just
      expired, and touches no retained credit and nobody else's session. */
  lemma ConfirmationCreditsActive(s: System, user: UserId, now: Time)
    requires Inv(s) && s.clock <= now
    ensures var (t, credited) := MarkProviderConfirmed(s.t, user, now);
            && t.rewards.Keys == s.t.rewards.Keys && t.deliveries == s.t.deliveries
            && (credited.Some? <==> exists i :: i in s.t.rewards && s.t.rewards[i].user == user
                                               && Active(s.t.rewards[i]) && !Overdue(s.t.rewards[i], now))
            && (credited.Some? ==> credited.value in t.rewards && Active(s.t.rewards[credited.value])
                                   && t.rewards[credited.value].providerAt.Some?)
            && forall i :: i in s.t.rewards && Some(i) != credited ==>
                 t.rewards[i] == if s.t.rewards[i].user == user && Overdue(s.t.rewards[i], now)
                                 then s.t.rewards[i].(status := Expired) else s.t.rewards[i]
  {
    assert forall i :: i in s.t.rewards ==> i < s.t.nextReward;
    hide Inv;
    ConfirmedHasProof(s.t, user, now);
    ConfirmationIsLocal(s.t, user, now);
  }

  lemma ConfirmationIsLocal(t: Tables, user: UserId, now: Time)
    requires forall i :: i in t.rewards ==> i < t.nextReward
    ensures var (u, credited) := MarkProviderConfirmed(t, user, now);
            && u.rewards.Keys == t.rewards.Keys && u.deliveries == t.deliveries
            && (credited.Some? <==> exists i :: i in t.rewards && t.rewards[i].user == user
                                               && Active(t.rewards[i]) && !Overdue(t.rewards[i], now))
            && (credited.Some? ==> credited.value in t.rewards && Active(t.rewards[credited.value]))
            && forall i :: i in t.rewards && Some(i) != credited ==>
                 u.rewards[i] == if t.rewards[i].user == user && Overdue(t.rewards[i], now)
                                 then t.rewards[i].(status := Expired) else t.rewards[i]
  {
    hide RefreshStatus;
    var v := ExpireDue(t, user, now);
    assert v.rewards.Keys == t.rewards.Keys;
    var credited := NewestActive(v.rewards, user, v.nextReward);
    if i :| i in t.rewards && t.rewards[i].user == user && Active(t.rewards[i]) && !Overdue(t.rewards[i], now) {
      assert v.rewards[i] == t.rewards[i];
    }
    if credited.Some? {
      assert v.rewards[credited.value] == t.rewards[credited.value];
    }
  }

  lemma ConfirmedHasProof(t: Tables, user: UserId, now: Time)
    ensures var (u, credited) := MarkProviderConfirmed(t, user, now);
            credited.Some? ==> credited.value in u.rewards && u.rewards[credited.value].providerAt.Some?
  {
  }

  /** Failed, stale and late copies are accounted for: at most one copy more than there were attempts. */
  lemma CopiesAccountedFor(es: seq<Event>, id: RewardId)
    requires Timely(START.clock, es)
    ensures var s := Run(START, es);
            Count(s.prepared, id) <= if id in s.t.deliveries then 1 + s.t.deliveries[id].attempts else 0
  {
    ReachableStates(es);
    var s := Run(START, es);
    if id in s.t.rewards {
      assert EntryOk(EntryAt(s, id), s.clock);
    } else {
      assert id !in s.t.deliveries.Keys;
    }
  }

  /** A deletion attempt is started only for a message sent less than 48 hours before, and only by a claim. */
  lemma ClaimsStartInTime(s: System, e: Event, id: RewardId)
    requires Inv(s) && s.clock <= e.now && Count(Step(s, e).claims, id) > Count(s.claims, id)
    ensures e.action == Claim(id) && Count(Step(s, e).claims, id) == Count(s.claims, id) + 1
    ensures id in s.t.deliveries && s.t.deliveries[id].sentAt.Some?
            && e.now < s.t.deliveries[id].sentAt.value + DELETE_WINDOW
    ensures id in Step(s, e).t.deliveries && Step(s, e).t.deliveries[id].deleteStartedAt == Some(e.now)
  {
    ClaimsGrow(s, e, id);
    assert id in s.t.rewards.Keys && EntryOk(EntryAt(s, id), s.clock);
  }

  lemma ClaimsGrow(s: System, e: Event, id: RewardId)
    requires Count(Step(s, e).claims, id) > Count(s.claims, id)
    ensures e.action == Claim(id) && Count(Step(s, e).claims, id) == Count(s.claims, id) + 1
    ensures id in s.t.deliveries && Due(s.t.deliveries[id], e.now) && !TooOld(s.t.deliveries[id], e.now)
    ensures id in Step(s, e).t.deliveries && Step(s, e).t.deliveries[id].deleteStartedAt == Some(e.now)
  {
  }

  /** For one sent message at most 581 deletion attempts are started. */
  lemma DeletionBounded(es: seq<Event>, id: RewardId)
    requires Timely(START.clock, es)
    ensures var s := Run(START, es);
            id in s.t.deliveries && Over(s.t.deliveries[id].status) ==> Count(s.claims, id) <= 581
  {
    ReachableStates(es);
    var s := Run(START, es);
    if id in s.t.deliveries {
      assert id in s.t.rewards.Keys && EntryOk(EntryAt(s, id), s.clock);
    }
  }

  /** The deletion query and both recoveries see every record that waits for them, once its time has come. */
  lemma NothingStuck(s: System, id: RewardId)
    requires Inv(s) && id in s.t.deliveries
    ensures var d := s.t.deliveries[id];
            && (d.status.Sending? ==> exists now :: now >= s.clock && StaleSend(d, now))
            && (d.status.Deleting? ==> exists now :: now >= s.clock && StaleDeletion(d, now))
            && (d.status.Sent? ==> exists now :: now >= s.clock && Due(d, now))
  {
    assert id in s.t.rewards.Keys && EntryOk(EntryAt(s, id), s.clock);
    var d := s.t.deliveries[id];
    if d.status.Sending? {
      assert StaleSend(d, Max(s.clock, d.sendStartedAt.value + STALE_SECONDS));
    } else if d.status.Deleting? {
      assert StaleDeletion(d, Max(s.clock, d.deleteStartedAt.value + STALE_SECONDS));
    } else if d.status.Sent? {
      assert Due(d, Max(s.clock, d.nextAttemptAt.value));
    }
  }
}
