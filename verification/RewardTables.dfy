/** The reward and delivery tables and what each transaction of the reward and delivery services makes
    of them (src/cinegate/services/reward_sessions.py, delivery.py, reward_availability.py). A raised
    exception rolls its transaction back, so a raising step returns the tables unchanged. */
module RewardTables {
  import opened Wrappers
  import opened Archive
  import ArchiveIndex

  type Time = int
  type UserId = int
  type RewardId = nat
  type RowId = ArchiveIndex.RowId

  const MIN_SESSION_SECONDS := 60
  const MAX_SESSION_SECONDS := 3600
  const DEFAULT_SESSION_SECONDS := 600
  const MIN_DELETE_SECONDS := 5
  const MAX_DELETE_SECONDS := 172000
  const DEFAULT_DELETE_SECONDS := 120
  const DELETE_WINDOW := 172800
  const STALE_SECONDS := 300

  datatype RewardStatus =
    | Pending | ClientCompleted | ProviderConfirmed | Rewarded | Delivering | Delivered | Expired | Unavailable

  datatype Reason = BindingMissing | BindingChanged | MovieUnsafe | QualityUnsafe | SourceMissing

  datatype Reward = Reward(
    user: UserId, movie: MessageId, row: RowId, resolution: string, status: RewardStatus, expiresAt: Time,
    clientAt: Option<Time>, providerAt: Option<Time>, rewardedAt: Option<Time>,
    unavailableAt: Option<Time>, reason: Option<Reason>, startedAt: Option<Time>, deliveredAt: Option<Time>)

  datatype DeliveryStatus = Waiting | Sending | Sent | Deleting | Deleted | DeleteFailed

  // One delivery per reward, so it is keyed by its reward.
  datatype Delivery = Delivery(
    user: UserId, row: RowId, status: DeliveryStatus, telegramId: Option<int>, sendStartedAt: Option<Time>,
    sentAt: Option<Time>, deleteAt: Option<Time>, nextAttemptAt: Option<Time>, deleteStartedAt: Option<Time>,
    deletedAt: Option<Time>, attempts: nat)

  // Rewards are numbered in the order of their creation.
  datatype Tables = Tables(rewards: map<RewardId, Reward>, deliveries: map<RewardId, Delivery>, nextReward: RewardId)

  type Catalogue = ArchiveIndex.Index

  // ---- Statuses ---------------------------------------------------------------------------

  predicate Expirable(s: RewardStatus) {
    s.Pending? || s.ClientCompleted? || s.ProviderConfirmed?
  }

  /** The reward occupies its user's ad slot. */
  predicate Active(r: Reward) {
    (Expirable(r.status) || r.status.Rewarded? || r.status.Delivering?) && r.unavailableAt.None?
  }

  predicate Earned(s: RewardStatus) {
    s.Rewarded? || s.Unavailable? || s.Delivering? || s.Delivered?
  }

  /** An earned credit kept for a user although its content was not available. */
  predicate Retained(r: Reward, user: UserId, movie: MessageId, row: RowId, resolution: string) {
    && r.user == user && r.movie == movie && r.row == row && r.resolution == resolution
    && (r.status.Unavailable? || r.status.Delivering?) && r.unavailableAt.Some?
  }

  function AvailabilityReason(r: Reward, cat: Catalogue): Option<Reason> {
    if r.movie !in cat.movies || r.row !in cat.rows then Some(BindingMissing)
    else if cat.rows[r.row].movie != r.movie || cat.rows[r.row].resolution != r.resolution then Some(BindingChanged)
    else if !cat.movies[r.movie].status.Indexed? then Some(MovieUnsafe)
    else if cat.rows[r.row].confidence <= 0 then Some(QualityUnsafe)
    else None
  }

  function PreserveUnavailable(r: Reward, reason: Reason, now: Time): Reward {
    r.(status := Unavailable, unavailableAt := if r.unavailableAt.None? then Some(now) else r.unavailableAt,
       reason := Some(reason), startedAt := None)
  }

  function RefreshStatus(r: Reward, now: Time): Reward {
    if r.status.Unavailable? || r.status.Delivering? || r.status.Delivered? then r
    else if r.clientAt.Some? && r.providerAt.Some? then
      r.(status := Rewarded, rewardedAt := if r.rewardedAt.None? then Some(now) else r.rewardedAt)
    else if r.clientAt.Some? then r.(status := ClientCompleted)
    else if r.providerAt.Some? then r.(status := ProviderConfirmed)
    else r.(status := Pending)
  }

  // ---- Queries ----------------------------------------------------------------------------

  function NewestActive(rewards: map<RewardId, Reward>, user: UserId, n: nat): (r: Option<RewardId>)
    ensures r.Some? ==> r.value < n && r.value in rewards && rewards[r.value].user == user && Active(rewards[r.value])
    ensures r.Some? ==> forall i :: r.value < i < n && i in rewards && rewards[i].user == user ==> !Active(rewards[i])
    ensures r.None? ==> forall i :: 0 <= i < n && i in rewards && rewards[i].user == user ==> !Active(rewards[i])
  {
    if n == 0 then None
    else if n - 1 in rewards && rewards[n - 1].user == user && Active(rewards[n - 1]) then Some(n - 1)
    else NewestActive(rewards, user, n - 1)
  }

  function OldestRetained(rewards: map<RewardId, Reward>, user: UserId, movie: MessageId, row: RowId,
                          resolution: string,
                          i: nat, n: nat): (r: Option<RewardId>)
    requires i <= n
    ensures r.Some? ==> i <= r.value < n && r.value in rewards
    ensures r.Some? ==> Retained(rewards[r.value], user, movie, row, resolution)
    ensures r.Some? ==> forall j :: i <= j < r.value && j in rewards ==>
            !Retained(rewards[j], user, movie, row, resolution)
    ensures r.None? ==> forall j :: i <= j < n && j in rewards ==> !Retained(rewards[j], user, movie, row, resolution)
    decreases n - i
  {
    if i == n then None
    else if i in rewards && Retained(rewards[i], user, movie, row, resolution) then Some(i)
    else OldestRetained(rewards, user, movie, row, resolution, i + 1, n)
  }

  function BoundedSessionSeconds(setting: Option<int>): (seconds: int)
    ensures MIN_SESSION_SECONDS <= seconds <= MAX_SESSION_SECONDS
  {
    if setting.None? then DEFAULT_SESSION_SECONDS else Max(MIN_SESSION_SECONDS, Min(MAX_SESSION_SECONDS, setting.value))
  }

  function BoundedDeleteSeconds(setting: Option<int>): (seconds: int)
    ensures MIN_DELETE_SECONDS <= seconds <= MAX_DELETE_SECONDS
  {
    if setting.None? then DEFAULT_DELETE_SECONDS else Max(MIN_DELETE_SECONDS, Min(MAX_DELETE_SECONDS, setting.value))
  }

  function SetReward(t: Tables, id: RewardId, r: Reward): Tables {
    t.(rewards := t.rewards[id := r])
  }

  function SetDelivery(t: Tables, id: RewardId, d: Delivery): Tables {
    t.(deliveries := t.deliveries[id := d])
  }

  // ---- Reward sessions --------------------------------------------------------------------

  predicate Overdue(r: Reward, now: Time) {
    Expirable(r.status) && r.expiresAt <= now
  }

  function ExpireDue(t: Tables, user: UserId, now: Time): Tables {
    t.(rewards := map id | id in t.rewards ::
         if t.rewards[id].user == user && Overdue(t.rewards[id], now) then t.rewards[id].(status := Expired)
           else t.rewards[id])
  }

  datatype Opening = QualityUnavailable | Existing(id: RewardId) | Created(id: RewardId) | ActiveConflict(id: RewardId)

  ghost function AvailableRow(cat: Catalogue, movie: MessageId, resolution: string): Option<RowId> {
    var k := ArchiveIndex.RowOf(cat.rows, movie, resolution);
    if movie in cat.movies && cat.movies[movie].status.Indexed? && k.Some? && cat.rows[k.value].confidence > 0 then k
      else None
  }

  // The user's ad slot once an active reward whose content has become unavailable has been set aside.
  function ReleaseSlot(t: Tables, active: Option<RewardId>, cat: Catalogue, now: Time): (Tables, Option<RewardId>)
    requires active.Some? ==> active.value in t.rewards
  {
    if active.Some? && t.rewards[active.value].status.Rewarded?
      && AvailabilityReason(t.rewards[active.value], cat).Some? then
      (SetReward(t, active.value, PreserveUnavailable(t.rewards[active.value],
                                                      AvailabilityReason(t.rewards[active.value], cat).value, now)),
                                                        None)
    else (t, active)
  }

  ghost function GetOrCreate(t: Tables, user: UserId, movie: MessageId, resolution: string, cat: Catalogue,
                             ttl: Option<int>, now: Time): (Tables, Opening)
  {
    var row := AvailableRow(cat, movie, resolution);
    if row.None? then (t, QualityUnavailable) else
    var u := ExpireDue(t, user, now);
    var (v, active) := ReleaseSlot(u, NewestActive(u.rewards, user, u.nextReward), cat, now);
    var retained := OldestRetained(v.rewards, user, movie, row.value, resolution, 0, v.nextReward);
    if retained.Some? then (v, Existing(retained.value))
    else if active.Some? then
      var r := v.rewards[active.value];
      if r.movie == movie && r.row == row.value && r.resolution == resolution then (v, Existing(active.value))
      else (t, ActiveConflict(active.value))
    else
      var r := Reward(user, movie, row.value, resolution, Pending, now + BoundedSessionSeconds(ttl),
                      None, None, None, None, None, None, None);
      (SetReward(v, v.nextReward, r).(nextReward := v.nextReward + 1), Created(v.nextReward))
  }

  datatype ProofError = NotFound | SessionExpired | UserMismatch

  function Current(t: Tables, id: RewardId, now: Time): Option<ProofError> {
    if id !in t.rewards then Some(NotFound)
    else if t.rewards[id].status.Expired? || Overdue(t.rewards[id], now) then Some(SessionExpired)
    else None
  }

  function MarkClientCompleted(t: Tables, id: RewardId, user: UserId, now: Time): (Tables, Option<ProofError>) {
    if Current(t, id, now).Some? then (t, Current(t, id, now))
    else if t.rewards[id].user != user then (t, Some(UserMismatch))
    else
      var r := t.rewards[id];
      var r := if r.clientAt.None? then r.(clientAt := Some(now)) else r;
      (SetReward(t, id, RefreshStatus(r, now)), None)
  }

  function MarkProviderConfirmed(t: Tables, user: UserId, now: Time): (Tables, Option<RewardId>) {
    var u := ExpireDue(t, user, now);
    var id := NewestActive(u.rewards, user, u.nextReward);
    if id.None? then (u, None)
    else
      var r := u.rewards[id.value];
      var r := if r.providerAt.None? then r.(providerAt := Some(now)) else r;
      (SetReward(u, id.value, RefreshStatus(r, now)), id)
  }

  // ---- Delivery ---------------------------------------------------------------------------

  datatype Prepared = NotReady | AlreadyDelivered | Processing | NowUnavailable | RenderFailed | Copy(row: RowId,
    deleteSeconds: int)

  function NewDelivery(r: Reward): Delivery {
    Delivery(r.user, r.row, Waiting, None, None, None, None, None, None, None, 0)
  }

  function Prepare(t: Tables, id: RewardId, cat: Catalogue, renders: bool, deleteSetting: Option<int>,
                   now: Time): (Tables, Prepared) {
    if id !in t.rewards then (t, NotReady) else
    var r := t.rewards[id];
    if r.status.Delivered? then (t, if id in t.deliveries then AlreadyDelivered else NotReady)
    else if r.status.Delivering? then (t, Processing)
    else if !r.status.Rewarded? && !r.status.Unavailable? then (t, NotReady)
    else if AvailabilityReason(r, cat).Some? then
      (SetReward(t, id, PreserveUnavailable(r, AvailabilityReason(r, cat).value, now)), NowUnavailable)
    else if !renders then (t, RenderFailed)
    else
      var t := if id in t.deliveries then t else SetDelivery(t, id, NewDelivery(r));
      var d := t.deliveries[id];
      if d.status.Sent? || d.status.Deleted? then
        (SetReward(t, id, r.(status := Delivered, deliveredAt := if r.deliveredAt.Some? then r.deliveredAt
                                                                else if d.sentAt.Some? then d.sentAt
                                                                  else Some(now))), AlreadyDelivered)
      else if d.status.Sending? then (SetReward(t, id, r.(status := Delivering)), Processing)
      else
        (SetDelivery(SetReward(t, id, r.(status := Delivering, startedAt := Some(now))),
                     id, d.(status := Sending, sendStartedAt := Some(now))),
         Copy(r.row, BoundedDeleteSeconds(deleteSetting)))
  }

  function Released(r: Reward): Reward {
    r.(status := if r.unavailableAt.Some? then Unavailable else Rewarded, startedAt := None)
  }

  function SendAgain(d: Delivery): Delivery {
    d.(status := Waiting, sendStartedAt := None, attempts := d.attempts + 1)
  }

  function ResetFailedSend(t: Tables, id: RewardId, missingSource: bool, now: Time): Tables {
    if id !in t.rewards || id !in t.deliveries then t else
    var r, d := t.rewards[id], t.deliveries[id];
    var t := if !r.status.Delivering? then t
             else SetReward(t, id, if missingSource then PreserveUnavailable(r, SourceMissing, now) else Released(r));
    if d.status.Sending? then SetDelivery(t, id, SendAgain(d)) else t
  }

  function FinalizeSent(t: Tables, id: RewardId, telegramId: int, deleteSeconds: int, now: Time): Tables {
    if id !in t.rewards || id !in t.deliveries || t.deliveries[id].status.Sent? then t else
    var r, d := t.rewards[id], t.deliveries[id];
    SetDelivery(SetReward(t, id, r.(status := Delivered, deliveredAt := Some(now), startedAt := None)),
                id, d.(status := Sent, telegramId := Some(telegramId), sentAt := Some(now),
                       deleteAt := Some(now + deleteSeconds),
                       nextAttemptAt := Some(now + deleteSeconds), sendStartedAt := None))
  }

  predicate StaleSend(d: Delivery, now: Time) {
    d.status.Sending? && d.sendStartedAt.Some? && d.sendStartedAt.value <= now - STALE_SECONDS
  }

  /** Stale sends among the rows that could be locked. */
  function RecoverSends(t: Tables, locked: set<RewardId>, now: Time): Tables {
    Tables(
      map id | id in t.rewards ::
        if id in locked && id in t.deliveries && StaleSend(t.deliveries[id], now) && t.rewards[id].status.Delivering?
        then Released(t.rewards[id]) else t.rewards[id],
      map id | id in t.deliveries ::
        if id in locked && StaleSend(t.deliveries[id], now) then SendAgain(t.deliveries[id]) else t.deliveries[id],
      t.nextReward)
  }

  predicate StaleDeletion(d: Delivery, now: Time) {
    d.status.Deleting? && d.deleteStartedAt.Some? && d.deleteStartedAt.value <= now - STALE_SECONDS
  }

  function RecoverDeletions(t: Tables, now: Time): Tables {
    t.(deliveries := map id | id in t.deliveries ::
         if StaleDeletion(t.deliveries[id], now)
         then t.deliveries[id].(status := Sent, deleteStartedAt := None, nextAttemptAt := Some(now))
         else t.deliveries[id])
  }

  predicate Due(d: Delivery, now: Time) {
    d.status.Sent? && d.telegramId.Some? && d.nextAttemptAt.Some? && d.nextAttemptAt.value <= now
  }

  predicate TooOld(d: Delivery, now: Time) {
    d.sentAt.Some? && now - d.sentAt.value >= DELETE_WINDOW
  }

  function ClaimDelivery(d: Delivery, now: Time): Delivery {
    if TooOld(d, now) then d.(status := DeleteFailed, nextAttemptAt := None)
    else d.(status := Deleting, deleteStartedAt := Some(now))
  }

  function ClaimDeletion(t: Tables, id: RewardId, now: Time): Tables {
    if id in t.deliveries && Due(t.deliveries[id], now) then SetDelivery(t, id, ClaimDelivery(t.deliveries[id], now))
      else t
  }

  function MarkDeleted(t: Tables, id: RewardId, now: Time): Tables {
    if id in t.deliveries && t.deliveries[id].status.Deleting? then
      SetDelivery(t, id, t.deliveries[id].(status := Deleted, deletedAt := Some(now), deleteStartedAt := None,
                                           nextAttemptAt := None))
    else t
  }

  function MarkDeleteFailed(t: Tables, id: RewardId): Tables {
    if id in t.deliveries && t.deliveries[id].status.Deleting? then
      var d := t.deliveries[id];
      SetDelivery(t, id, d.(status := DeleteFailed, attempts := d.attempts + 1, deleteStartedAt := None,
                            nextAttemptAt := None))
    else t
  }

  function Pow2(n: nat): (p: nat)
    ensures p >= 1
  {
    if n == 0 then 1 else 2 * Pow2(n - 1)
  }

  function Backoff(attempts: nat): int
    requires attempts > 0
  {
    Min(300, 5 * Pow2(Min(attempts - 1, 6)))
  }

  function RescheduleDelete(t: Tables, id: RewardId, now: Time): Tables {
    if id in t.deliveries && t.deliveries[id].status.Deleting? then
      var d := t.deliveries[id];
      SetDelivery(t, id, d.(status := Sent, attempts := d.attempts + 1, deleteStartedAt := None,
                            nextAttemptAt := Some(now + Backoff(d.attempts + 1))))
    else t
  }

  // How the worker settles a claimed deletion, by what Telegram answers.
  datatype DeleteAnswer = DeleteOk | MissingMessage | OtherBadRequest | Forbidden | OtherApiError

  function DeleteOne(t: Tables, id: RewardId, answer: DeleteAnswer, now: Time): Tables {
    match answer
    case DeleteOk => MarkDeleted(t, id, now)
    case MissingMessage => MarkDeleted(t, id, now)
    case OtherBadRequest => MarkDeleteFailed(t, id)
    case Forbidden => MarkDeleteFailed(t, id)
    case OtherApiError => RescheduleDelete(t, id, now)
  }
}
