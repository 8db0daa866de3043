/** Reward sessions, deliveries, copies in flight and deletions as one system of interleaved steps, and
    what every run of it keeps. Each database transaction is one step; a Telegram copy is a flight that
    later succeeds, fails or is lost with its process. */
module DeliveryProtocol {
  import opened Wrappers
  import opened Archive
  import opened RewardTables
  import ArchiveIndex
  import ArchiveParser
  import ArchiveSafety

  datatype Flight = Flight(reward: RewardId, row: RowId, deleteSeconds: int)

  // The last three fields are bookkeeping about the past: copies prepared for a reward, and deletion
  // claims and rescheduled deletions since its current message was sent.
  datatype System = System(
    t: Tables, flights: map<nat, Flight>, nextFlight: nat, clock: Time,
    prepared: map<RewardId, nat>, claims: map<RewardId, nat>, retries: map<RewardId, nat>)

  const START := System(Tables(map[], map[], 0), map[], 0, 0, map[], map[], map[])

  // An error, or a death of the process, leaves open whether Telegram has made the copy: `arrived` says whether it has.
  // The tables never learn of it.
  datatype Action =
    | Open(user: UserId, movie: MessageId, resolution: string, cat: Catalogue, ttl: Option<int>)
    | ClientProof(id: RewardId, user: UserId)
    | ProviderProof(user: UserId)
    | PrepareCopy(id: RewardId, cat: Catalogue, renders: bool, deleteSetting: Option<int>)
    | CopySucceeds(flight: nat, telegramId: int)
    | CopyFails(flight: nat, missingSource: bool, arrived: bool)
    | CopyLost(flight: nat, arrived: bool)
    | RecoverStaleSends(locked: set<RewardId>)
    | RecoverStaleDeletions
    | Claim(id: RewardId)
    | SettleDeletion(id: RewardId, answer: DeleteAnswer)

  datatype Event = At(now: Time, action: Action)

  function Count(m: map<RewardId, nat>, id: RewardId): nat {
    if id in m then m[id] else 0
  }

  function Landed(s: System, flight: nat): System {
    s.(flights := map f | f in s.flights && f != flight :: s.flights[f])
  }

  predicate Finalizes(t: Tables, id: RewardId) {
    id in t.rewards && id in t.deliveries && !t.deliveries[id].status.Sent?
  }

  ghost function Act(s: System, a: Action, now: Time): System {
    match a
    case Open(user, movie, resolution, cat, ttl) => s.(t := GetOrCreate(s.t, user, movie, resolution, cat, ttl, now).0)
    case ClientProof(id, user) => s.(t := MarkClientCompleted(s.t, id, user, now).0)
    case ProviderProof(user) => s.(t := MarkProviderConfirmed(s.t, user, now).0)
    case PrepareCopy(id, cat, renders, setting) =>
      var (t, result) := Prepare(s.t, id, cat, renders, setting, now);
      if result.Copy? then
        s.(t := t, flights := s.flights[s.nextFlight := Flight(id, result.row, result.deleteSeconds)],
           nextFlight := s.nextFlight + 1, prepared := s.prepared[id := Count(s.prepared, id) + 1])
      else s.(t := t)
    case CopySucceeds(flight, telegramId) =>
      if flight !in s.flights then s else
      var f := s.flights[flight];
      var t := FinalizeSent(s.t, f.reward, telegramId, f.deleteSeconds, now);
      if !Finalizes(s.t, f.reward) then Landed(s, flight)
      else Landed(s, flight).(t := t, claims := s.claims[f.reward := 0], retries := s.retries[f.reward := 0])
    case CopyFails(flight, missing, _) =>
      if flight !in s.flights then s
      else Landed(s, flight).(t := ResetFailedSend(s.t, s.flights[flight].reward, missing, now))
    case CopyLost(flight, _) => Landed(s, flight)
    case RecoverStaleSends(locked) => s.(t := RecoverSends(s.t, locked, now))
    case RecoverStaleDeletions => s.(t := RecoverDeletions(s.t, now))
    case Claim(id) =>
      var t := ClaimDeletion(s.t, id, now);
      if id in s.t.deliveries && Due(s.t.deliveries[id], now) && !TooOld(s.t.deliveries[id], now) then
        s.(t := t, claims := s.claims[id := Count(s.claims, id) + 1])
      else s.(t := t)
    case SettleDeletion(id, answer) =>
      var t := DeleteOne(s.t, id, answer, now);
      if answer.OtherApiError? && id in s.t.deliveries && s.t.deliveries[id].status.Deleting? then
        s.(t := t, retries := s.retries[id := Count(s.retries, id) + 1])
      else s.(t := t)
  }

  ghost function Step(s: System, e: Event): System {
    Act(s.(clock := e.now), e.action, e.now)
  }

  // ---- What is true of one reward at all times --------------------------------------------

  datatype Entry = Entry(r: Reward, d: Option<Delivery>, prepared: nat, claims: nat, retries: nat)

  function EntryAt(s: System, id: RewardId): Entry
    requires id in s.t.rewards
  {
    Entry(s.t.rewards[id], if id in s.t.deliveries then Some(s.t.deliveries[id]) else None,
          Count(s.prepared, id), Count(s.claims, id), Count(s.retries, id))
  }

  predicate Over(s: DeliveryStatus) {
    s.Sent? || s.Deleting? || s.Deleted? || s.DeleteFailed?
  }

  /** The two status machines move together. */
  predicate Coupled(r: Reward, d: Option<Delivery>) {
    match r.status
    case Delivering => d.Some? && d.value.status.Sending?
    case Delivered => d.Some? && Over(d.value.status)
    case Rewarded => d.None? || d.value.status.Waiting?
    case Unavailable => d.None? || d.value.status.Waiting?
    case _ => d.None?
  }

  predicate Proven(r: Reward) {
    r.clientAt.Some? && r.providerAt.Some?
  }

  predicate RewardOk(r: Reward) {
    && (Earned(r.status) <==> Proven(r))
    && (r.status.Unavailable? ==> r.unavailableAt.Some?)
    && (r.unavailableAt.Some? ==> Earned(r.status))
  }

  /** Whoever must pick the record up later finds the time stamp it looks for. */
  predicate NotStuck(d: Delivery, clock: Time) {
    && (d.status.Sending? ==> d.sendStartedAt.Some?)
    && (d.status.Sent? ==> d.telegramId.Some? && d.nextAttemptAt.Some? && d.sentAt.Some?)
    && (d.status.Deleting? ==>
          d.telegramId.Some? && d.sentAt.Some? && d.deleteStartedAt.Some? && d.deleteStartedAt.value <= clock)
  }

  // The least time n rescheduled deletions take.
  function Spent(n: nat): int {
    if n == 0 then 0 else Spent(n - 1) + Backoff(n)
  }

  // The least age of the message when the next claim, or the current one, begins.
  function ClaimAge(claims: nat, retries: nat): int {
    MIN_DELETE_SECONDS + Spent(retries) + STALE_SECONDS * (claims - retries)
  }

  predicate WithinBudget(e: Entry) {
    e.d.Some? && Over(e.d.value.status) ==>
      var d := e.d.value;
      && e.retries <= e.claims <= MAX_CLAIMS && e.retries <= d.attempts
      && (d.status.Sent? ==> d.nextAttemptAt.Some? && d.sentAt.Some?
                             && d.nextAttemptAt.value >= d.sentAt.value + ClaimAge(e.claims, e.retries))
      && (d.status.Deleting? ==> d.deleteStartedAt.Some? && d.sentAt.Some? && e.retries < e.claims
                                 && d.deleteStartedAt.value >= d.sentAt.value + ClaimAge(e.claims - 1, e.retries))
  }

  const MAX_CLAIMS := 581

  predicate AttemptsOk(e: Entry) {
    e.prepared <= if e.d.None? then 0 else e.d.value.attempts + if e.d.value.status.Waiting? then 0 else 1
  }

  predicate EntryOk(e: Entry, clock: Time) {
    && RewardOk(e.r) && Coupled(e.r, e.d) && AttemptsOk(e) && WithinBudget(e)
    && (e.d.Some? ==> e.d.value.user == e.r.user && e.d.value.row == e.r.row && NotStuck(e.d.value, clock))
  }

  /** At most one active reward per user. */
  ghost predicate OneActive(rewards: map<RewardId, Reward>) {
    forall i, j :: i in rewards && j in rewards && i != j && Active(rewards[i]) && Active(rewards[j]) ==>
      rewards[i].user != rewards[j].user
  }

  ghost predicate FlightOk(s: System, f: Flight) {
    && f.reward in s.t.rewards && f.reward in s.t.deliveries
    && f.row == s.t.rewards[f.reward].row && f.deleteSeconds >= MIN_DELETE_SECONDS
  }

  ghost predicate EntriesOk(s: System) {
    forall id :: id in s.t.rewards ==> EntryOk(EntryAt(s, id), s.clock)
  }

  ghost predicate KeysOk(s: System) {
    && (forall id :: id in s.t.rewards ==> id < s.t.nextReward)
    && s.t.deliveries.Keys <= s.t.rewards.Keys
    && (forall id :: id !in s.t.rewards ==> Count(s.prepared, id) == 0)
  }

  ghost predicate FlightsOk(s: System) {
    forall f :: f in s.flights ==> FlightOk(s, s.flights[f])
  }

  ghost predicate Inv(s: System) {
    EntriesOk(s) && KeysOk(s) && OneActive(s.t.rewards) && FlightsOk(s)
  }

  // ---- Backoff ----------------------------------------------------------------------------

  lemma {:induction false} Pow2Grows(m: nat, n: nat)
    requires m <= n
    ensures Pow2(m) <= Pow2(n)
  {
    if m < n {
      Pow2Grows(m, n - 1);
    }
  }

  /** Waiting times between deletion attempts never shrink and lie between 5 seconds and 5 minutes. */
  lemma BackoffGrows(a: nat, b: nat)
    requires 0 < a <= b
    ensures 5 <= Backoff(a) <= Backoff(b) <= 300
  {
    Pow2Grows(Min(a - 1, 6), Min(b - 1, 6));
  }

  lemma {:induction false} SpentAtLeast(n: nat)
    ensures Spent(n) >= 300 * n - 1485
  {
    if n > 7 {
      SpentAtLeast(n - 1);
      assert Pow2(6) == 64;
    } else {
      assert Pow2(0) == 1 && Pow2(1) == 2 && Pow2(2) == 4 && Pow2(3) == 8 && Pow2(4) == 16 && Pow2(5) == 32
             && Pow2(6) == 64;
      assert Spent(1) == 5 && Spent(2) == 15 && Spent(3) == 35 && Spent(4) == 75 && Spent(5) == 155 && Spent(6) == 315;
    }
  }

  // ---- One entry under each change --------------------------------------------------------

  lemma EntryLater(e: Entry, clock: Time, now: Time)
    requires EntryOk(e, clock) && clock <= now
    ensures EntryOk(e, now)
  {
  }

  lemma EntryExpires(e: Entry, clock: Time)
    requires EntryOk(e, clock) && Expirable(e.r.status)
    ensures EntryOk(e.(r := e.r.(status := Expired)), clock)
  {
  }

  lemma EntryProven(e: Entry, r: Reward, clock: Time, now: Time)
    requires EntryOk(e, clock) && !e.r.status.Expired?
    requires r == e.r.(clientAt := r.clientAt, providerAt := r.providerAt)
    requires e.r.clientAt.Some? ==> r.clientAt == e.r.clientAt
    requires e.r.providerAt.Some? ==> r.providerAt == e.r.providerAt
    ensures EntryOk(e.(r := RefreshStatus(r, now)), clock)
    ensures Active(RefreshStatus(r, now)) ==> Active(e.r)
  {
  }

  lemma EntryUnavailable(e: Entry, reason: Reason, clock: Time, now: Time)
    requires EntryOk(e, clock) && (e.r.status.Rewarded? || e.r.status.Unavailable?)
    ensures EntryOk(e.(r := PreserveUnavailable(e.r, reason, now)), clock)
    ensures !Active(PreserveUnavailable(e.r, reason, now))
  {
  }

  lemma EntryPrepared(e: Entry, clock: Time, now: Time)
    requires EntryOk(e, clock) && (e.r.status.Rewarded? || e.r.status.Unavailable?)
    ensures e.d.Some? ==> e.d.value.status.Waiting?
    ensures EntryOk(PreparedEntry(e, now), clock)
    ensures Active(PreparedEntry(e, now).r) ==> Active(e.r)
  {
  }

  lemma EntryFailed(e: Entry, missing: bool, clock: Time, now: Time)
    requires EntryOk(e, clock) && e.d.Some?
    ensures EntryOk(FailedEntry(e, missing, now), clock) && (Active(FailedEntry(e, missing, now).r) ==> Active(e.r))
  {
  }

  lemma EntrySent(e: Entry, telegramId: int, deleteSeconds: int, clock: Time, now: Time)
    requires EntryOk(e, clock) && e.d.Some? && deleteSeconds >= MIN_DELETE_SECONDS
    ensures EntryOk(SentEntry(e, telegramId, deleteSeconds, now), clock)
  {
    assert Spent(0) == 0;
  }

  lemma EntryClaimed(e: Entry, now: Time)
    requires EntryOk(e, now) && e.d.Some? && Due(e.d.value, now)
    ensures EntryOk(e.(d := Some(ClaimDelivery(e.d.value, now)), claims := e.claims + if TooOld(e.d.value, now) then 0
                       else 1), now)
  {
    SpentAtLeast(e.retries);
  }

  lemma EntrySettled(e: Entry, d: Delivery, clock: Time)
    requires EntryOk(e, clock) && e.d.Some? && e.d.value.status.Deleting?
             && (d.status.Deleted? || d.status.DeleteFailed?)
    requires d.attempts >= e.d.value.attempts && d.user == e.d.value.user && d.row == e.d.value.row
    ensures EntryOk(e.(d := Some(d)), clock)
  {
  }

  lemma EntryRescheduled(e: Entry, now: Time)
    requires EntryOk(e, now) && e.d.Some? && e.d.value.status.Deleting?
    ensures var d := e.d.value;
            EntryOk(e.(retries := e.retries + 1,
                       d := Some(d.(status := Sent, attempts := d.attempts + 1, deleteStartedAt := None,
                                    nextAttemptAt := Some(now + Backoff(d.attempts + 1))))), now)
  {
    BackoffGrows(e.retries + 1, e.d.value.attempts + 1);
    assert Spent(e.retries + 1) == Spent(e.retries) + Backoff(e.retries + 1);
  }

  lemma EntryRecovered(e: Entry, now: Time)
    requires EntryOk(e, now) && e.d.Some? && StaleDeletion(e.d.value, now)
    ensures EntryOk(e.(d := Some(e.d.value.(status := Sent, deleteStartedAt := None, nextAttemptAt := Some(now)))), now)
  {
  }

  // ---- Steps ------------------------------------------------------------------------------

  // Every entry is sound after the change, no reward is more active and nothing appears.
  ghost predicate SoundChange(s: System, u: System) {
    && EntriesOk(u) && u.t.nextReward == s.t.nextReward
    && u.t.rewards.Keys == s.t.rewards.Keys && s.t.deliveries.Keys <= u.t.deliveries.Keys <= u.t.rewards.Keys
    && (forall i :: i in s.t.rewards ==>
          && u.t.rewards[i].user == s.t.rewards[i].user && u.t.rewards[i].row == s.t.rewards[i].row
          && (Active(u.t.rewards[i]) ==> Active(s.t.rewards[i])))
    && (forall i :: i !in s.t.rewards ==> Count(u.prepared, i) == 0)
    && (forall f :: f in u.flights ==> (f in s.flights && u.flights[f] == s.flights[f]) || FlightOk(u, u.flights[f]))
  }

  lemma SoundChangeKeeps(s: System, u: System)
    requires Inv(s) && SoundChange(s, u)
    ensures Inv(u)
  {
    hide EntryOk, Active;
    assert forall i :: i in u.t.rewards ==> i in s.t.rewards.Keys;
    forall f | f in u.flights
      ensures FlightOk(u, u.flights[f])
    {
      if f in s.flights && u.flights[f] == s.flights[f] {
        assert FlightOk(s, s.flights[f]);
        assert s.flights[f].reward in u.t.rewards.Keys && s.flights[f].reward in u.t.deliveries.Keys;
      }
    }
  }

  // One entry has been replaced by a sound one.
  lemma OneEntryChanged(s: System, u: System, id: RewardId)
    requires Inv(s) && id in s.t.rewards && id in u.t.rewards && u.clock >= s.clock
    requires u.t.nextReward == s.t.nextReward && u.t.rewards == s.t.rewards[id := u.t.rewards[id]]
    requires u.t.deliveries == if id in u.t.deliveries then s.t.deliveries[id := u.t.deliveries[id]] else s.t.deliveries
    requires forall i :: i != id ==>
             Count(u.prepared, i) == Count(s.prepared, i) && Count(u.claims, i) == Count(s.claims, i)
             && Count(u.retries, i) == Count(s.retries, i)
    requires EntryOk(EntryAt(u, id), u.clock)
    requires u.t.rewards[id].user == s.t.rewards[id].user && u.t.rewards[id].row == s.t.rewards[id].row
    requires Active(u.t.rewards[id]) ==> Active(s.t.rewards[id])
    requires forall f :: f in u.flights ==>
             (f in s.flights && u.flights[f] == s.flights[f]) || FlightOk(u, u.flights[f])
    ensures Inv(u)
  {
    hide EntryOk, Active;
    forall i | i in u.t.rewards
      ensures EntryOk(EntryAt(u, i), u.clock)
    {
      if i != id {
        assert EntryAt(u, i) == EntryAt(s, i);
        EntryLater(EntryAt(s, i), s.clock, u.clock);
      }
    }
    assert u.t.rewards.Keys == s.t.rewards.Keys;
    SoundChangeKeeps(s, u);
  }

  lemma Later(s: System, now: Time)
    requires Inv(s) && s.clock <= now
    ensures Inv(s.(clock := now))
  {
    var u := s.(clock := now);
    hide EntryOk, Active;
    forall i | i in u.t.rewards
      ensures EntryOk(EntryAt(u, i), now)
    {
      assert EntryAt(u, i) == EntryAt(s, i);
      EntryLater(EntryAt(s, i), s.clock, now);
    }
    SoundChangeKeeps(s, u);
  }

  // The step as taken at the moment it happens.
  lemma ClientProofKeeps(s: System, id: RewardId, user: UserId)
    requires Inv(s)
    ensures Inv(Act(s, ClientProof(id, user), s.clock))
  {
    var u := Act(s, ClientProof(id, user), s.clock);
    if u.t != s.t {
      var e := EntryAt(s, id);
      var r := if e.r.clientAt.None? then e.r.(clientAt := Some(s.clock)) else e.r;
      EntryProven(e, r, s.clock, s.clock);
      hide EntryOk, Active, RefreshStatus;
      assert EntryAt(u, id) == e.(r := RefreshStatus(r, s.clock));
      OneEntryChanged(s, u, id);
    }
  }

  ghost predicate OnlyEntry(s: System, u: System, id: RewardId, e: Entry) {
    && u.t.nextReward == s.t.nextReward && u.clock == s.clock
    && u.t.rewards == s.t.rewards[id := e.r]
    && u.t.deliveries == (if e.d.Some? then s.t.deliveries[id := e.d.value] else s.t.deliveries)
    && (forall i :: Count(u.prepared, i) == if i == id then e.prepared else Count(s.prepared, i))
    && (forall i :: Count(u.claims, i) == if i == id then e.claims else Count(s.claims, i))
    && (forall i :: Count(u.retries, i) == if i == id then e.retries else Count(s.retries, i))
    && (forall f :: f in u.flights ==> (f in s.flights && u.flights[f] == s.flights[f]) || u.flights[f].reward == id)
  }

  lemma OnlyEntryKeeps(s: System, u: System, id: RewardId, e: Entry)
    requires Inv(s) && id in s.t.rewards && OnlyEntry(s, u, id, e) && EntryOk(e, s.clock)
    requires e.r.user == s.t.rewards[id].user && e.r.row == s.t.rewards[id].row
    requires e.d.None? ==> id !in s.t.deliveries
    requires Active(e.r) ==> Active(s.t.rewards[id])
    requires forall f :: f in u.flights && !(f in s.flights && u.flights[f] == s.flights[f]) ==>
                           e.d.Some? && u.flights[f].row == e.r.row && u.flights[f].deleteSeconds >= MIN_DELETE_SECONDS
    ensures Inv(u)
  {
    hide EntryOk, Active;
    assert EntryAt(u, id) == e;
    OneEntryChanged(s, u, id);
  }

  function PreparedEntry(e: Entry, now: Time): Entry {
    var d := if e.d.Some? then e.d.value else NewDelivery(e.r);
    e.(r := e.r.(status := Delivering, startedAt := Some(now)), prepared := e.prepared + 1,
       d := Some(d.(status := Sending, sendStartedAt := Some(now))))
  }

  lemma CopyPrepared(s: System, id: RewardId, cat: Catalogue, setting: Option<int>)
    requires id in s.t.rewards && (s.t.rewards[id].status.Rewarded? || s.t.rewards[id].status.Unavailable?)
    requires id in s.t.deliveries ==> s.t.deliveries[id].status.Waiting?
    requires AvailabilityReason(s.t.rewards[id], cat).None?
    ensures var u := Act(s, PrepareCopy(id, cat, true, setting), s.clock);
            && OnlyEntry(s, u, id, PreparedEntry(EntryAt(s, id), s.clock))
            && u.flights == s.flights[s.nextFlight := Flight(id, s.t.rewards[id].row, BoundedDeleteSeconds(setting))]
  {
  }

  lemma FoundUnavailable(s: System, id: RewardId, cat: Catalogue, renders: bool, setting: Option<int>)
    requires id in s.t.rewards && (s.t.rewards[id].status.Rewarded? || s.t.rewards[id].status.Unavailable?)
    requires AvailabilityReason(s.t.rewards[id], cat).Some?
    ensures var e := EntryAt(s, id);
            OnlyEntry(s, Act(s, PrepareCopy(id, cat, renders, setting), s.clock), id,
                      e.(r := PreserveUnavailable(e.r, AvailabilityReason(e.r, cat).value, s.clock)))
  {
  }

  lemma FoundUnavailableKeeps(s: System, id: RewardId, cat: Catalogue, renders: bool, setting: Option<int>)
    requires Inv(s) && id in s.t.rewards && (s.t.rewards[id].status.Rewarded? || s.t.rewards[id].status.Unavailable?)
    requires AvailabilityReason(s.t.rewards[id], cat).Some?
    ensures Inv(Act(s, PrepareCopy(id, cat, renders, setting), s.clock))
  {
    var u := Act(s, PrepareCopy(id, cat, renders, setting), s.clock);
    var e := EntryAt(s, id);
    var reason := AvailabilityReason(e.r, cat).value;
    assert u.flights == s.flights;
    hide Act, Active, OnlyEntry;
    FoundUnavailable(s, id, cat, renders, setting);
    EntryUnavailable(e, reason, s.clock, s.clock);
    PreservesBinding(e.r, reason, s.clock);
    hide PreserveUnavailable, EntryOk;
    OnlyEntryKeeps(s, u, id, e.(r := PreserveUnavailable(e.r, reason, s.clock)));
  }

  lemma CopyPreparedKeeps(s: System, id: RewardId, cat: Catalogue, setting: Option<int>)
    requires Inv(s) && id in s.t.rewards && (s.t.rewards[id].status.Rewarded? || s.t.rewards[id].status.Unavailable?)
    requires AvailabilityReason(s.t.rewards[id], cat).None?
    ensures Inv(Act(s, PrepareCopy(id, cat, true, setting), s.clock))
  {
    hide Act, OnlyEntry, Active;
    var e := EntryAt(s, id);
    EntryPrepared(e, s.clock, s.clock);
    CopyPrepared(s, id, cat, setting);
    hide EntryOk;
    OnlyEntryKeeps(s, Act(s, PrepareCopy(id, cat, true, setting), s.clock), id, PreparedEntry(e, s.clock));
  }

  lemma PrepareKeeps(s: System, id: RewardId, cat: Catalogue, renders: bool, setting: Option<int>)
    requires Inv(s)
    ensures Inv(Act(s, PrepareCopy(id, cat, renders, setting), s.clock))
  {
    hide Inv;
    if id in s.t.rewards && (s.t.rewards[id].status.Rewarded? || s.t.rewards[id].status.Unavailable?) {
      if AvailabilityReason(s.t.rewards[id], cat).Some? {
        FoundUnavailableKeeps(s, id, cat, renders, setting);
      } else if renders {
        CopyPreparedKeeps(s, id, cat, setting);
      }
    }
  }

  lemma PreservesBinding(r: Reward, reason: Reason, now: Time)
    ensures PreserveUnavailable(r, reason, now).user == r.user && PreserveUnavailable(r, reason, now).row == r.row
  {
  }

  lemma CopySent(s: System, flight: nat, telegramId: int)
    requires flight in s.flights && Finalizes(s.t, s.flights[flight].reward)
    ensures var u := Act(s, CopySucceeds(flight, telegramId), s.clock);
            var id := s.flights[flight].reward;
            && id in u.t.rewards && id in u.t.deliveries
            && OnlyEntry(s, u, id, SentEntry(EntryAt(s, id), telegramId, s.flights[flight].deleteSeconds, s.clock))
            && (forall f :: f in u.flights ==> f in s.flights && u.flights[f] == s.flights[f])
  {
  }

  function SentEntry(e: Entry, telegramId: int, deleteSeconds: int, now: Time): Entry
    requires e.d.Some?
  {
    var d := e.d.value.(status := Sent, telegramId := Some(telegramId), sentAt := Some(now),
                        deleteAt := Some(now + deleteSeconds), nextAttemptAt := Some(now + deleteSeconds),
                          sendStartedAt := None);
    Entry(e.r.(status := Delivered, deliveredAt := Some(now), startedAt := None), Some(d), e.prepared, 0, 0)
  }

  lemma NothingSent(s: System, flight: nat, telegramId: int)
    requires !(flight in s.flights && Finalizes(s.t, s.flights[flight].reward))
    ensures Act(s, CopySucceeds(flight, telegramId), s.clock) == Landed(s, flight)
  {
    assert flight !in s.flights ==> Landed(s, flight).flights == s.flights;
  }

  lemma CopySucceedsKeeps(s: System, flight: nat, telegramId: int)
    requires Inv(s)
    ensures Inv(Act(s, CopySucceeds(flight, telegramId), s.clock))
  {
    hide EntryOk, OnlyEntry, Act, Active, Landed;
    var u := Act(s, CopySucceeds(flight, telegramId), s.clock);
    if flight in s.flights && Finalizes(s.t, s.flights[flight].reward) {
      var f := s.flights[flight];
      assert FlightOk(s, f);
      var e := EntryAt(s, f.reward);
      EntrySent(e, telegramId, f.deleteSeconds, s.clock, s.clock);
      CopySent(s, flight, telegramId);
      NoLongerActive(e, telegramId, f.deleteSeconds, s.clock);
      OnlyEntryKeeps(s, u, f.reward, SentEntry(e, telegramId, f.deleteSeconds, s.clock));
    } else {
      NothingSent(s, flight, telegramId);
      LostKeeps(s, flight);
    }
  }

  lemma NoLongerActive(e: Entry, telegramId: int, deleteSeconds: int, now: Time)
    requires e.d.Some?
    ensures !Active(SentEntry(e, telegramId, deleteSeconds, now).r)
  {
  }

  lemma CopyFailsKeeps(s: System, flight: nat, missing: bool, arrived: bool)
    requires Inv(s)
    ensures Inv(Act(s, CopyFails(flight, missing, arrived), s.clock))
  {
    hide EntryOk, Active, Act, Landed;
    if flight in s.flights {
      var id := s.flights[flight].reward;
      assert FlightOk(s, s.flights[flight]);
      var e := EntryAt(s, id);
      EntryFailed(e, missing, s.clock, s.clock);
      CopyFailed(s, flight, missing, arrived);
      OnlyEntryKeeps(s, Act(s, CopyFails(flight, missing, arrived), s.clock), id, FailedEntry(e, missing, s.clock));
    } else {
      NothingFailed(s, flight, missing, arrived);
    }
  }

  function FailedEntry(e: Entry, missing: bool, now: Time): Entry
    requires e.d.Some?
  {
    var r := if !e.r.status.Delivering? then e.r else if missing then PreserveUnavailable(e.r, SourceMissing, now)
      else Released(e.r);
    e.(r := r, d := Some(if e.d.value.status.Sending? then SendAgain(e.d.value) else e.d.value))
  }

  lemma CopyFailed(s: System, flight: nat, missing: bool, arrived: bool)
    requires flight in s.flights && FlightOk(s, s.flights[flight])
    ensures var u, id := Act(s, CopyFails(flight, missing, arrived), s.clock), s.flights[flight].reward;
            && OnlyEntry(s, u, id, FailedEntry(EntryAt(s, id), missing, s.clock))
            && (forall f :: f in u.flights ==> f in s.flights && u.flights[f] == s.flights[f])
            && FailedEntry(EntryAt(s, id), missing, s.clock).r.user == s.t.rewards[id].user
            && FailedEntry(EntryAt(s, id), missing, s.clock).r.row == s.t.rewards[id].row
  {
  }

  lemma NothingFailed(s: System, flight: nat, missing: bool, arrived: bool)
    requires flight !in s.flights
    ensures Act(s, CopyFails(flight, missing, arrived), s.clock) == s
  {
  }

  function ClaimedEntry(e: Entry, now: Time): Entry
    requires e.d.Some?
  {
    e.(d := Some(ClaimDelivery(e.d.value, now)), claims := e.claims + if TooOld(e.d.value, now) then 0 else 1)
  }

  lemma Claimed(s: System, id: RewardId)
    requires id in s.t.rewards && id in s.t.deliveries && Due(s.t.deliveries[id], s.clock)
    ensures var u := Act(s, Claim(id), s.clock);
            OnlyEntry(s, u, id, ClaimedEntry(EntryAt(s, id), s.clock)) && u.flights == s.flights
  {
  }

  lemma NothingClaimed(s: System, id: RewardId)
    requires !(id in s.t.deliveries && Due(s.t.deliveries[id], s.clock))
    ensures Act(s, Claim(id), s.clock) == s
  {
  }

  lemma ClaimKeeps(s: System, id: RewardId)
    requires Inv(s)
    ensures Inv(Act(s, Claim(id), s.clock))
  {
    hide EntryOk, OnlyEntry, Act, Active, ClaimDelivery;
    var u := Act(s, Claim(id), s.clock);
    if id in s.t.deliveries && Due(s.t.deliveries[id], s.clock) {
      assert id in s.t.rewards.Keys;
      EntryClaimed(EntryAt(s, id), s.clock);
      Claimed(s, id);
      OnlyEntryKeeps(s, u, id, ClaimedEntry(EntryAt(s, id), s.clock));
    } else {
      NothingClaimed(s, id);
    }
  }

  lemma DeletionSettled(s: System, id: RewardId, answer: DeleteAnswer)
    requires id in s.t.rewards && id in s.t.deliveries && s.t.deliveries[id].status.Deleting?
    ensures var u, e := Act(s, SettleDeletion(id, answer), s.clock), EntryAt(s, id);
            && id in u.t.deliveries
            && OnlyEntry(s, u, id, SettledEntry(s, u, id, answer)) && u.flights == s.flights
  {
  }

  ghost function SettledEntry(s: System, u: System, id: RewardId, answer: DeleteAnswer): Entry
    requires id in s.t.rewards && id in u.t.deliveries
  {
    var e := EntryAt(s, id);
    e.(d := Some(u.t.deliveries[id]), retries := e.retries + if answer.OtherApiError? then 1 else 0)
  }

  lemma SettledOk(s: System, id: RewardId, answer: DeleteAnswer)
    requires id in s.t.rewards && id in s.t.deliveries && s.t.deliveries[id].status.Deleting?
    requires EntryOk(EntryAt(s, id), s.clock)
    ensures var u := Act(s, SettleDeletion(id, answer), s.clock);
            id in u.t.deliveries && EntryOk(SettledEntry(s, u, id, answer), s.clock)
  {
    hide EntryOk, Backoff;
    var u := Act(s, SettleDeletion(id, answer), s.clock);
    if answer.OtherApiError? {
      EntryRescheduled(EntryAt(s, id), s.clock);
    } else {
      EntrySettled(EntryAt(s, id), u.t.deliveries[id], s.clock);
    }
  }

  lemma NothingSettled(s: System, id: RewardId, answer: DeleteAnswer)
    requires !(id in s.t.deliveries && s.t.deliveries[id].status.Deleting?)
    ensures Act(s, SettleDeletion(id, answer), s.clock) == s
  {
  }

  lemma SettleDeletionKeeps(s: System, id: RewardId, answer: DeleteAnswer)
    requires Inv(s)
    ensures Inv(Act(s, SettleDeletion(id, answer), s.clock))
  {
    hide EntryOk, OnlyEntry, Act, Active;
    var u := Act(s, SettleDeletion(id, answer), s.clock);
    if id in s.t.deliveries && s.t.deliveries[id].status.Deleting? {
      assert id in s.t.rewards.Keys;
      DeletionSettled(s, id, answer);
      SettledOk(s, id, answer);
      OnlyEntryKeeps(s, u, id, SettledEntry(s, u, id, answer));
    } else {
      NothingSettled(s, id, answer);
    }
  }

  lemma RecoveredEntry(s: System, locked: set<RewardId>, i: RewardId)
    requires Inv(s) && i in s.t.rewards
    ensures var u := Act(s, RecoverStaleSends(locked), s.clock);
            i in u.t.rewards && EntryOk(EntryAt(u, i), s.clock) && (Active(u.t.rewards[i]) ==> Active(s.t.rewards[i]))
  {
    var u := Act(s, RecoverStaleSends(locked), s.clock);
    var e := EntryAt(s, i);
    if i in locked && i in s.t.deliveries && StaleSend(s.t.deliveries[i], s.clock) {
      EntryFailed(e, false, s.clock, s.clock);
    } else {
      hide EntryOk;
      assert EntryAt(u, i) == e;
    }
  }

  lemma RecoverSendsKeeps(s: System, locked: set<RewardId>)
    requires Inv(s)
    ensures Inv(Act(s, RecoverStaleSends(locked), s.clock))
  {
    var u := Act(s, RecoverStaleSends(locked), s.clock);
    hide EntryOk, Active;
    forall i | i in s.t.rewards
      ensures EntryOk(EntryAt(u, i), s.clock) && (Active(u.t.rewards[i]) ==> Active(s.t.rewards[i]))
    {
      RecoveredEntry(s, locked, i);
    }
    assert u.t.rewards.Keys == s.t.rewards.Keys && u.t.deliveries.Keys == s.t.deliveries.Keys;
    SoundChangeKeeps(s, u);
  }

  lemma RecoverDeletionsKeeps(s: System)
    requires Inv(s)
    ensures Inv(Act(s, RecoverStaleDeletions, s.clock))
  {
    var u := Act(s, RecoverStaleDeletions, s.clock);
    hide EntryOk, Active;
    forall i | i in s.t.rewards
      ensures EntryOk(EntryAt(u, i), s.clock)
    {
      var e := EntryAt(s, i);
      if i in s.t.deliveries && StaleDeletion(s.t.deliveries[i], s.clock) {
        EntryRecovered(e, s.clock);
      } else {
        assert EntryAt(u, i) == e;
      }
    }
    assert u.t.deliveries.Keys == s.t.deliveries.Keys;
    SoundChangeKeeps(s, u);
  }

  lemma ExpireKeeps(s: System, user: UserId)
    requires Inv(s)
    ensures Inv(s.(t := ExpireDue(s.t, user, s.clock)))
  {
    var u := s.(t := ExpireDue(s.t, user, s.clock));
    forall i | i in s.t.rewards
      ensures EntryOk(EntryAt(u, i), s.clock)
    {
      var e := EntryAt(s, i);
      if e.r.user == user && Overdue(e.r, s.clock) {
        EntryExpires(e, s.clock);
      }
      hide EntryOk;
      assert EntryAt(u, i) == e.(r := u.t.rewards[i]);
    }
    assert u.t.rewards.Keys == s.t.rewards.Keys;
    hide EntryOk;
    SoundChangeKeeps(s, u);
  }

  lemma ProviderProofKeeps(s: System, user: UserId)
    requires Inv(s)
    ensures Inv(Act(s, ProviderProof(user), s.clock))
  {
    hide Act, ExpireDue, NewestActive, EntryOk, Active, RefreshStatus;
    ExpireKeeps(s, user);
    var v := s.(t := ExpireDue(s.t, user, s.clock));
    var u := Act(s, ProviderProof(user), s.clock);
    var id := NewestActive(v.t.rewards, user, v.t.nextReward);
    ProviderProven(s, user);
    if id.Some? {
      var e := EntryAt(v, id.value);
      EntryProven(e, Confirmed(e.r, s.clock), s.clock, s.clock);
      assert EntryAt(u, id.value) == e.(r := RefreshStatus(Confirmed(e.r, s.clock), s.clock));
      OneEntryChanged(v, u, id.value);
    }
  }

  function Confirmed(r: Reward, now: Time): Reward {
    if r.providerAt.None? then r.(providerAt := Some(now)) else r
  }

  lemma ProviderProven(s: System, user: UserId)
    ensures var v, u := s.(t := ExpireDue(s.t, user, s.clock)), Act(s, ProviderProof(user), s.clock);
            match NewestActive(v.t.rewards, user, v.t.nextReward)
            case None => u == v
            case Some(id) =>
              && u == v.(t := SetReward(v.t, id, RefreshStatus(Confirmed(v.t.rewards[id], s.clock), s.clock)))
              && u.t.rewards[id].user == v.t.rewards[id].user && u.t.rewards[id].row == v.t.rewards[id].row
              && !v.t.rewards[id].status.Expired?
  {
    hide ExpireDue;
  }

  lemma ReleaseKeeps(s: System, user: UserId, active: Option<RewardId>, cat: Catalogue)
    requires Inv(s) && active == NewestActive(s.t.rewards, user, s.t.nextReward)
    ensures var (t, slot) := ReleaseSlot(s.t, active, cat, s.clock);
            && Inv(s.(t := t)) && t.nextReward == s.t.nextReward
            && (slot.Some? ==> slot == active && t == s.t)
            && (slot.None? ==> forall i :: i in t.rewards && t.rewards[i].user == user ==> !Active(t.rewards[i]))
  {
    var (t, slot) := ReleaseSlot(s.t, active, cat, s.clock);
    if active.Some? && slot.None? {
      var e := EntryAt(s, active.value);
      EntryUnavailable(e, AvailabilityReason(e.r, cat).value, s.clock, s.clock);
      hide EntryOk;
      OneEntryChanged(s, s.(t := t), active.value);
    }
  }

  lemma OpenKeeps(s: System, user: UserId, movie: MessageId, resolution: string, cat: Catalogue, ttl: Option<int>)
    requires Inv(s)
    ensures Inv(Act(s, Open(user, movie, resolution, cat, ttl), s.clock))
  {
    hide Inv, Act, ExpireDue, ReleaseSlot, NewestActive, Active;
    var w := Act(s, Open(user, movie, resolution, cat, ttl), s.clock);
    var v := s.(t := ExpireDue(s.t, user, s.clock));
    ExpireKeeps(s, user);
    var active := NewestActive(v.t.rewards, user, v.t.nextReward);
    ReleaseKeeps(v, user, active, cat);
    var u := v.(t := ReleaseSlot(v.t, active, cat, s.clock).0);
    Opened(s, user, movie, resolution, cat, ttl);
    if w != u && w != s {
      SlotTaken(u, w, user);
    }
  }

  // The new session, in a table where the slot has been released.
  ghost predicate Inserted(u: System, w: System, user: UserId) {
    var id := u.t.nextReward;
    && id in w.t.rewards && w == u.(t := SetReward(u.t, id, w.t.rewards[id]).(nextReward := id + 1))
    && var r := w.t.rewards[id];
       r.user == user && r.status.Pending? && r.clientAt.None? && r.providerAt.None? && r.unavailableAt.None?
  }

  lemma Opened(s: System, user: UserId, movie: MessageId, resolution: string, cat: Catalogue, ttl: Option<int>)
    ensures var v := ExpireDue(s.t, user, s.clock);
            var (t, slot) := ReleaseSlot(v, NewestActive(v.rewards, user, v.nextReward), cat, s.clock);
            var w := Act(s, Open(user, movie, resolution, cat, ttl), s.clock);
            w == s || w == s.(t := t) || (slot.None? && Inserted(s.(t := t), w, user))
  {
    hide ExpireDue, ReleaseSlot;
    var w := Act(s, Open(user, movie, resolution, cat, ttl), s.clock);
    var v := ExpireDue(s.t, user, s.clock);
    var (t, slot) := ReleaseSlot(v, NewestActive(v.rewards, user, v.nextReward), cat, s.clock);
    var row := AvailableRow(cat, movie, resolution);
    if row.Some? {
      var retained := OldestRetained(t.rewards, user, movie, row.value, resolution, 0, t.nextReward);
      if retained.None? && slot.None? {
        assert w.t.rewards == t.rewards[t.nextReward := w.t.rewards[t.nextReward]];
      }
    }
  }

  // A new session where no other is active.
  lemma SlotTaken(u: System, w: System, user: UserId)
    requires Inv(u)
    requires forall i :: i in u.t.rewards && u.t.rewards[i].user == user ==> !Active(u.t.rewards[i])
    requires Inserted(u, w, user)
    ensures Inv(w)
  {
    hide EntryOk, Active;
    var id := u.t.nextReward;
    assert id !in u.t.rewards && id !in u.t.deliveries.Keys;
    assert EntryOk(EntryAt(w, id), w.clock) by {
      NewEntryOk(EntryAt(w, id), w.clock);
    }
    forall i | i in w.t.rewards
      ensures EntryOk(EntryAt(w, i), w.clock)
    {
      if i != id {
        assert EntryAt(w, i) == EntryAt(u, i);
      }
    }
    forall f | f in w.flights
      ensures FlightOk(w, w.flights[f])
    {
      assert FlightOk(u, u.flights[f]);
    }
  }

  lemma NewEntryOk(e: Entry, clock: Time)
    requires e.d.None? && e.prepared == 0 && e.r.status.Pending?
    requires e.r.clientAt.None? && e.r.providerAt.None? && e.r.unavailableAt.None?
    ensures EntryOk(e, clock)
  {
  }

  /** Every step of every actor keeps the invariant. */
  lemma StepKeeps(s: System, e: Event)
    requires Inv(s) && s.clock <= e.now
    ensures Inv(Step(s, e))
  {
    var u := s.(clock := e.now);
    Later(s, e.now);
    hide Inv;
    match e.action
    case Open(user, movie, resolution, cat, ttl) => OpenKeeps(u, user, movie, resolution, cat, ttl);
    case ClientProof(id, user) => ClientProofKeeps(u, id, user);
    case ProviderProof(user) => ProviderProofKeeps(u, user);
    case PrepareCopy(id, cat, renders, setting) => PrepareKeeps(u, id, cat, renders, setting);
    case CopySucceeds(flight, telegramId) => CopySucceedsKeeps(u, flight, telegramId);
    case CopyFails(flight, missing, arrived) => CopyFailsKeeps(u, flight, missing, arrived);
    case CopyLost(flight, _) => LostKeeps(u, flight);
    case RecoverStaleSends(locked) => RecoverSendsKeeps(u, locked);
    case RecoverStaleDeletions => RecoverDeletionsKeeps(u);
    case Claim(id) => ClaimKeeps(u, id);
    case SettleDeletion(id, answer) => SettleDeletionKeeps(u, id, answer);
  }

  lemma LostKeeps(s: System, flight: nat)
    requires Inv(s)
    ensures Inv(Landed(s, flight))
  {
    hide EntryOk, Active;
    var u := Landed(s, flight);
    assert forall i :: i in s.t.rewards ==> EntryAt(u, i) == EntryAt(s, i);
    SoundChangeKeeps(s, u);
  }

  ghost function Run(s: System, es: seq<Event>): System
    decreases |es|
  {
    if es == [] then s else Run(Step(s, es[0]), es[1..])
  }

  // The clock never runs backwards.
  ghost predicate Timely(clock: Time, es: seq<Event>)
    decreases |es|
  {
    es == [] || (clock <= es[0].now && Timely(es[0].now, es[1..]))
  }

  lemma StepClock(s: System, e: Event)
    ensures Step(s, e).clock == e.now
  {
  }

  lemma {:induction false} RunKeeps(s: System, es: seq<Event>)
    requires Inv(s) && Timely(s.clock, es)
    ensures Inv(Run(s, es))
    decreases |es|
  {
    hide Inv, Step;
    if es != [] {
      StepKeeps(s, es[0]);
      StepClock(s, es[0]);
      RunKeeps(Step(s, es[0]), es[1..]);
    }
  }
}
