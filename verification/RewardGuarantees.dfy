/** The transactions of rewards and deliveries in plain terms: when content counts as available, what a request, a
    proof, a copy and a deletion make of the tables. Times are in seconds. */
module RewardGuarantees {
  import opened Wrappers
  import opened Archive
  import opened RewardTables
  import opened DeliveryProtocol
  import opened DeliveryGuarantees
  import ArchiveIndex

  // ---- Availability -----------------------------------------------------------------------

  /** Each reason for refusing content says exactly what is wrong, and none means that nothing is. */
  lemma ReasonsExactly(r: Reward, cat: Catalogue)
    ensures AvailabilityReason(r, cat).None? <==> HasContent(r, cat)
    ensures AvailabilityReason(r, cat) == Some(BindingMissing) <==> r.movie !in cat.movies || r.row !in cat.rows
    ensures AvailabilityReason(r, cat) == Some(BindingChanged) <==>
            && r.movie in cat.movies && r.row in cat.rows
            && (cat.rows[r.row].movie != r.movie || cat.rows[r.row].resolution != r.resolution)
    ensures AvailabilityReason(r, cat) == Some(MovieUnsafe) <==>
            && r.movie in cat.movies && r.row in cat.rows
            && cat.rows[r.row].movie == r.movie && cat.rows[r.row].resolution == r.resolution
            && !cat.movies[r.movie].status.Indexed?
    ensures AvailabilityReason(r, cat) == Some(QualityUnsafe) <==>
            && r.movie in cat.movies && r.row in cat.rows
            && cat.rows[r.row].movie == r.movie && cat.rows[r.row].resolution == r.resolution
            && cat.movies[r.movie].status.Indexed? && cat.rows[r.row].confidence <= 0
  {
  }

  /** A video is offered exactly if its movie is indexed and a row of the resolution has positive confidence; and what
      is offered is content a reward bound to it can claim. */
  lemma OfferedExactly(cat: Catalogue, movie: MessageId, resolution: string)
    requires ArchiveIndex.UniqueRows(cat.rows)
    ensures AvailableRow(cat, movie, resolution).Some? <==>
            && movie in cat.movies && cat.movies[movie].status.Indexed?
            && exists k :: k in cat.rows && cat.rows[k].movie == movie && cat.rows[k].resolution == resolution
                           && cat.rows[k].confidence > 0
    ensures forall r: Reward ::
              AvailableRow(cat, movie, resolution) == Some(r.row) && r.movie == movie && r.resolution == resolution ==>
                HasContent(r, cat)
  {
  }

  // ---- Opening a session ------------------------------------------------------------------

  /** An earned reward of the user that waits in the ad slot although its content has gone. */
  predicate Stranded(r: Reward, user: UserId, cat: Catalogue) {
    r.user == user && r.status.Rewarded? && r.unavailableAt.None? && !HasContent(r, cat)
  }

  predicate DueToExpire(r: Reward, user: UserId, now: Time) {
    && r.user == user && r.expiresAt <= now
    && (r.status.Pending? || r.status.ClientCompleted? || r.status.ProviderConfirmed?)
  }

  // What opening makes of a session that was there before, when it is not refused.
  predicate OpenedTo(a: Reward, b: Reward, user: UserId, cat: Catalogue, now: Time) {
    if DueToExpire(a, user, now) then b == a.(status := Expired)
    else if Stranded(a, user, cat) then
      b.status.Unavailable? && b.unavailableAt == Some(now) && b.reason.Some? && b.startedAt.None?
      && b == a.(status := b.status, unavailableAt := b.unavailableAt, reason := b.reason, startedAt := b.startedAt)
    else b == a
  }

  lemma SlotIs(t: Tables, user: UserId, cat: Catalogue, now: Time, n: nat)
    requires OneActive(t.rewards) && n >= t.nextReward && forall i :: i in t.rewards ==> i < t.nextReward
    requires forall i :: i in t.rewards ==> !DueToExpire(t.rewards[i], user, now)
    ensures var (u, slot) := ReleaseSlot(t, NewestActive(t.rewards, user, n), cat, now);
            && u.rewards.Keys == t.rewards.Keys && u.deliveries == t.deliveries && u.nextReward == t.nextReward
            && (forall i :: i in t.rewards ==> OpenedTo(t.rewards[i], u.rewards[i], user, cat, now))
            && (slot.Some? ==> slot.value in t.rewards && u == t && Active(t.rewards[slot.value])
                               && t.rewards[slot.value].user == user && !Stranded(t.rewards[slot.value], user, cat))
            && (slot.None? ==> forall i :: i in u.rewards && u.rewards[i].user == user ==> !Active(u.rewards[i]))
  {
    hide AvailabilityReason;
    var active := NewestActive(t.rewards, user, n);
    forall i | i in t.rewards && Stranded(t.rewards[i], user, cat)
      ensures active == Some(i)
    {
      assert Active(t.rewards[i]);
    }
    if active.Some? {
      ReasonsExactly(t.rewards[active.value], cat);
    }
  }

  lemma Expiring(s: System, user: UserId, now: Time)
    requires Inv(s)
    ensures var u := ExpireDue(s.t, user, now);
            && u.rewards.Keys == s.t.rewards.Keys && u.deliveries == s.t.deliveries && u.nextReward == s.t.nextReward
            && OneActive(u.rewards) && (forall i :: i in u.rewards ==> i < u.nextReward)
            && forall i :: i in s.t.rewards ==>
                 && !DueToExpire(u.rewards[i], user, now)
                 && u.rewards[i] == if DueToExpire(s.t.rewards[i], user, now) then s.t.rewards[i].(status := Expired)
                                    else s.t.rewards[i]
  {
    hide EntriesOk, FlightsOk;
    var u := ExpireDue(s.t, user, now);
    assert u.rewards.Keys == s.t.rewards.Keys;
    assert forall i :: i in u.rewards ==> i in s.t.rewards.Keys;
  }

  /** What clearing the slot makes of every session. */
  lemma ClearedExactly(s: System, user: UserId, cat: Catalogue, now: Time)
    requires Inv(s)
    ensures var (t, slot) := Cleared(s.t, user, cat, now);
            && t.rewards.Keys == s.t.rewards.Keys && t.deliveries == s.t.deliveries && t.nextReward == s.t.nextReward
            && (forall i :: i in s.t.rewards ==> i < s.t.nextReward)
            && (forall i :: i in s.t.rewards ==> OpenedTo(s.t.rewards[i], t.rewards[i], user, cat, now))
            && (slot.Some? ==> slot.value in s.t.rewards && t.rewards[slot.value] == s.t.rewards[slot.value]
                               && Active(s.t.rewards[slot.value]) && s.t.rewards[slot.value].user == user
                               && !Stranded(s.t.rewards[slot.value], user, cat))
            && (slot.None? ==> forall i :: i in t.rewards && t.rewards[i].user == user ==> !Active(t.rewards[i]))
  {
    hide Inv, ReleaseSlot, NewestActive, ExpireDue, HasContent;
    Expiring(s, user, now);
    var u := ExpireDue(s.t, user, now);
    assert forall i :: i in s.t.rewards <==> i in u.rewards.Keys;
    SlotIs(u, user, cat, now, u.nextReward);
  }

  /** An earned credit of the user for the video, kept although its content was gone at some time. */
  predicate KeptCredit(r: Reward, user: UserId, movie: MessageId, row: RowId, resolution: string) {
    && r.user == user && r.movie == movie && r.row == row && r.resolution == resolution
    && r.unavailableAt.Some? && (r.status.Unavailable? || r.status.Delivering?)
  }

  // The first of the user's credits kept for the video.
  ghost predicate OldestCredit(t: Tables, user: UserId, movie: MessageId, row: RowId, resolution: string,
                               id: RewardId) {
    && id in t.rewards && KeptCredit(t.rewards[id], user, movie, row, resolution)
    && forall i :: i in t.rewards && KeptCredit(t.rewards[i], user, movie, row, resolution) ==> id <= i
  }

  /** A session of the user that is in the way of others: waiting for its proofs in time, earned with its content there,
      or being delivered; kept credits are not. */
  predicate InTheWay(r: Reward, user: UserId, cat: Catalogue, now: Time) {
    && r.user == user && r.unavailableAt.None?
    && match r.status
       case Pending => now < r.expiresAt
       case ClientCompleted => now < r.expiresAt
       case ProviderConfirmed => now < r.expiresAt
       case Rewarded => HasContent(r, cat)
       case Delivering => true
       case _ => false
  }

  // Setting sessions aside makes no credit for a video that is available.
  lemma SameCredits(a: Reward, b: Reward, user: UserId, movie: MessageId, resolution: string, cat: Catalogue, now: Time)
    requires OpenedTo(a, b, user, cat, now) && AvailableRow(cat, movie, resolution).Some?
    ensures var row := AvailableRow(cat, movie, resolution).value;
            Retained(b, user, movie, row, resolution) <==> KeptCredit(a, user, movie, row, resolution)
    ensures b.user == user && Active(b) <==> InTheWay(a, user, cat, now)
    ensures InTheWay(a, user, cat, now) ==> b == a
  {
  }

  /** Which of the user's sessions the answer names, if any: the oldest credit kept for the video, else the active
      session, unless its time is over or its content has gone; if it is bound to something else, it is in the way. */
  lemma OpeningExactly(s: System, user: UserId, movie: MessageId, resolution: string, cat: Catalogue, ttl: Option<int>,
                       now: Time)
    requires Inv(s)
    ensures var (t, answer) := GetOrCreate(s.t, user, movie, resolution, cat, ttl, now);
            var row := AvailableRow(cat, movie, resolution);
            && (answer.QualityUnavailable? <==> row.None?)
            && (row.Some? ==>
                  if id: RewardId :| OldestCredit(s.t, user, movie, row.value, resolution, id) then
                    answer == Existing(id)
                  else if id: RewardId :| id in s.t.rewards && InTheWay(s.t.rewards[id], user, cat, now) then
                    answer == if Bound(s.t.rewards[id], user, movie, row.value, resolution) then Existing(id)
                              else ActiveConflict(id)
                  else answer == Created(s.t.nextReward))
  {
    hide Inv, AvailableRow, Cleared, OpenedTo, InTheWay, Retained, KeptCredit, Active, Stranded, Bound;
    ClearedExactly(s, user, cat, now);
    CreateIs(s.t, user, movie, resolution, cat, ttl, now);
    var (v, slot) := Cleared(s.t, user, cat, now);
    var row := AvailableRow(cat, movie, resolution);
    if row.Some? {
      forall i | i in s.t.rewards
        ensures i in v.rewards
        ensures Retained(v.rewards[i], user, movie, row.value, resolution)
                <==> KeptCredit(s.t.rewards[i], user, movie, row.value, resolution)
        ensures v.rewards[i].user == user && Active(v.rewards[i]) <==> InTheWay(s.t.rewards[i], user, cat, now)
        ensures InTheWay(s.t.rewards[i], user, cat, now) ==> v.rewards[i] == s.t.rewards[i]
      {
        assert i in v.rewards.Keys;
        SameCredits(s.t.rewards[i], v.rewards[i], user, movie, resolution, cat, now);
      }
      assert forall i :: i in v.rewards ==> i in s.t.rewards.Keys;
      OneInTheWay(s, user, cat, now);
      var retained := OldestRetained(v.rewards, user, movie, row.value, resolution, 0, v.nextReward);
      assert retained.Some? ==> OldestCredit(s.t, user, movie, row.value, resolution, retained.value);
      if slot.Some? {
        assert slot.value in v.rewards.Keys && InTheWay(s.t.rewards[slot.value], user, cat, now);
      } else {
        assert forall i :: i in s.t.rewards ==> !InTheWay(s.t.rewards[i], user, cat, now);
      }
    }
  }

  lemma OneInTheWay(s: System, user: UserId, cat: Catalogue, now: Time)
    requires Inv(s)
    ensures forall i, j ::
              i in s.t.rewards && InTheWay(s.t.rewards[i], user, cat, now)
              && j in s.t.rewards && InTheWay(s.t.rewards[j], user, cat, now) ==>
                i == j
  {
    hide EntriesOk, FlightsOk, HasContent;
  }

  /** What becomes of the tables: nothing when the answer is a refusal. Otherwise the user's overdue sessions expire, an
      earned one whose content has gone is set aside and kept, nothing else changes; and a new session waits for its
      proofs for ten minutes, or what is set, between one and sixty. */
  lemma OpeningChanges(s: System, user: UserId, movie: MessageId, resolution: string, cat: Catalogue, ttl: Option<int>,
                       now: Time)
    requires Inv(s)
    ensures var (t, answer) := GetOrCreate(s.t, user, movie, resolution, cat, ttl, now);
            && t.deliveries == s.t.deliveries
            && (answer.QualityUnavailable? || answer.ActiveConflict? ==> t == s.t)
            && (answer.Existing? ==> t.rewards.Keys == s.t.rewards.Keys && t.nextReward == s.t.nextReward)
            && (answer.Created? ==> answer.id !in s.t.rewards && t.rewards.Keys == s.t.rewards.Keys + {answer.id}
                                    && t.nextReward > answer.id)
            && (answer.Existing? || answer.Created? ==>
                  forall i :: i in s.t.rewards ==>
                    i in t.rewards && OpenedTo(s.t.rewards[i], t.rewards[i], user, cat, now))
            && (answer.Created? ==>
                  var r := t.rewards[answer.id];
                  && r.user == user && r.movie == movie && Some(r.row) == AvailableRow(cat, movie, resolution)
                  && r.resolution == resolution && r.status.Pending?
                  && r.clientAt.None? && r.providerAt.None? && r.rewardedAt.None? && r.unavailableAt.None?
                  && r.reason.None? && r.startedAt.None? && r.deliveredAt.None?
                  && r.expiresAt == now + Within(60, ttl.GetOr(600), 3600))
  {
    hide Inv, AvailableRow, Cleared, OpenedTo, OldestRetained, Retained;
    ClearedExactly(s, user, cat, now);
    CreateIs(s.t, user, movie, resolution, cat, ttl, now);
  }

  // The nearest number within the bounds.
  function Within(low: int, n: int, high: int): int {
    if n < low then low else if n > high then high else n
  }

  /** In particular a reward whose content has gone never locks its user out: asking for a video that is available sets
      it aside, kept as earned, and is answered with a session for the video. */
  lemma StrandedNeverLocksOut(s: System, user: UserId, movie: MessageId, resolution: string, cat: Catalogue,
                              ttl: Option<int>, now: Time, id: RewardId)
    requires Inv(s) && id in s.t.rewards && Stranded(s.t.rewards[id], user, cat)
    requires AvailableRow(cat, movie, resolution).Some?
    ensures var (t, answer) := GetOrCreate(s.t, user, movie, resolution, cat, ttl, now);
            && !answer.ActiveConflict? && id in t.rewards && t.rewards[id].status.Unavailable?
            && t.rewards[id].unavailableAt == Some(now) && t.rewards[id].clientAt.Some?
               && t.rewards[id].providerAt.Some?
  {
    hide Inv, AvailableRow, GetOrCreate, KeptCredit, HasContent;
    OpeningExactly(s, user, movie, resolution, cat, ttl, now);
    OpeningChanges(s, user, movie, resolution, cat, ttl, now);
    StrandedAlone(s, user, cat, now, id);
  }

  lemma StrandedAlone(s: System, user: UserId, cat: Catalogue, now: Time, id: RewardId)
    requires Inv(s) && id in s.t.rewards && Stranded(s.t.rewards[id], user, cat)
    ensures s.t.rewards[id].clientAt.Some? && s.t.rewards[id].providerAt.Some? && Active(s.t.rewards[id])
    ensures !DueToExpire(s.t.rewards[id], user, now)
    ensures forall i :: i in s.t.rewards ==> !InTheWay(s.t.rewards[i], user, cat, now)
  {
    hide HasContent;
    RewardSound(s, id);
  }

  // The answer in terms of the cleared slot.
  lemma CreateIs(t: Tables, user: UserId, movie: MessageId, resolution: string, cat: Catalogue, ttl: Option<int>,
                 now: Time)
    ensures var (v, slot) := Cleared(t, user, cat, now);
            var row := AvailableRow(cat, movie, resolution);
            GetOrCreate(t, user, movie, resolution, cat, ttl, now) ==
              if row.None? then (t, QualityUnavailable)
              else
                var retained := OldestRetained(v.rewards, user, movie, row.value, resolution, 0, v.nextReward);
                if retained.Some? then (v, Existing(retained.value))
                else if slot.Some? && slot.value in v.rewards then
                  if Bound(v.rewards[slot.value], user, movie, row.value, resolution) then (v, Existing(slot.value))
                  else (t, ActiveConflict(slot.value))
                else
                  var r := Reward(user, movie, row.value, resolution, Pending, now + BoundedSessionSeconds(ttl),
                                  None, None, None, None, None, None, None);
                  (SetReward(v, v.nextReward, r).(nextReward := v.nextReward + 1), Created(v.nextReward))
  {
    hide AvailabilityReason, AvailableRow, OldestRetained;
  }

  // ---- Proofs -----------------------------------------------------------------------------

  /** Rewards and deliveries other than one are left alone. */
  ghost predicate OnlyOne(t: Tables, u: Tables, id: RewardId) {
    && u.nextReward == t.nextReward
    && (forall i :: i != id ==>
          (i in t.rewards <==> i in u.rewards) && (i in t.rewards ==> u.rewards[i] == t.rewards[i]))
    && (forall i :: i != id ==>
          (i in t.deliveries <==> i in u.deliveries) && (i in t.deliveries ==> u.deliveries[i] == t.deliveries[i]))
  }

  function First(known: Option<Time>, now: Time): Option<Time> {
    if known.Some? then known else Some(now)
  }

  // What the proofs that have come make of a session that is not spent: both earn the reward.
  predicate Judged(a: Reward, b: Reward, now: Time) {
    if a.status.Unavailable? || a.status.Delivering? || a.status.Delivered? then
      b == a.(clientAt := b.clientAt, providerAt := b.providerAt)
    else
      && b == a.(clientAt := b.clientAt, providerAt := b.providerAt, status := b.status, rewardedAt := b.rewardedAt)
      && (b.status.Rewarded? <==> b.clientAt.Some? && b.providerAt.Some?)
      && (b.status.ClientCompleted? <==> b.clientAt.Some? && b.providerAt.None?)
      && (b.status.ProviderConfirmed? <==> b.clientAt.None? && b.providerAt.Some?)
      && (b.status.Pending? <==> b.clientAt.None? && b.providerAt.None?)
      && b.rewardedAt == if b.status.Rewarded? then First(a.rewardedAt, now) else a.rewardedAt
  }

  /** A client's proof counts for his own session that is there and not expired, whichever proof came first; otherwise
      the first of the three things that can be wrong is reported and nothing changes. */
  lemma ClientProofExactly(t: Tables, id: RewardId, user: UserId, now: Time)
    ensures var (u, error) := MarkClientCompleted(t, id, user, now);
            && (error == Some(NotFound) <==> id !in t.rewards)
            && (error == Some(SessionExpired) <==>
                  id in t.rewards && (t.rewards[id].status.Expired?
                                      || DueToExpire(t.rewards[id], t.rewards[id].user, now)))
            && (error == Some(UserMismatch) <==>
                  && id in t.rewards && t.rewards[id].user != user
                  && !t.rewards[id].status.Expired? && !DueToExpire(t.rewards[id], t.rewards[id].user, now))
            && (error.Some? ==> u == t)
            && (error.None? <==>
                  && id in t.rewards && t.rewards[id].user == user
                  && !t.rewards[id].status.Expired? && !DueToExpire(t.rewards[id], user, now))
            && (error.None? ==>
                  && id in u.rewards && OnlyOne(t, u, id) && u.deliveries == t.deliveries
                  && Judged(t.rewards[id], u.rewards[id], now)
                  && u.rewards[id].clientAt == First(t.rewards[id].clientAt, now)
                  && u.rewards[id].providerAt == t.rewards[id].providerAt)
  {
  }

  lemma ProviderProofExactly(t: Tables, user: UserId, now: Time)
    ensures var (u, credited) := MarkProviderConfirmed(t, user, now);
            credited.Some? ==>
              && credited.value in t.rewards && credited.value in u.rewards
              && t.rewards[credited.value].user == user && Active(t.rewards[credited.value])
              && !DueToExpire(t.rewards[credited.value], user, now)
              && Judged(t.rewards[credited.value], u.rewards[credited.value], now)
              && u.rewards[credited.value].clientAt == t.rewards[credited.value].clientAt
              && u.rewards[credited.value].providerAt == First(t.rewards[credited.value].providerAt, now)
  {
    var v := ExpireDue(t, user, now);
    var credited := NewestActive(v.rewards, user, v.nextReward);
    if credited.Some? {
      StillActive(t, user, credited.value, now);
      Confirmed(v, credited.value, now);
    }
  }

  lemma Confirmed(t: Tables, id: RewardId, now: Time)
    requires id in t.rewards && !t.rewards[id].status.Expired?
    ensures var r := t.rewards[id];
            Judged(r, RefreshStatus(r.(providerAt := First(r.providerAt, now)), now), now)
  {
  }

  // The session waits for its proofs, and is the user's active one.
  predicate Waits(r: Reward, user: UserId, now: Time) {
    && r.user == user && r.unavailableAt.None? && now < r.expiresAt
    && (r.status.Pending? || r.status.ClientCompleted? || r.status.ProviderConfirmed?)
  }

  /** A session earns its reward with both proofs, in either order, as long as it has not expired. */
  lemma BothProofsEarn(s: System, user: UserId, id: RewardId, early: Time, late: Time)
    requires Inv(s) && s.clock <= early <= late && id in s.t.rewards && Waits(s.t.rewards[id], user, late)
    ensures var t := Step(Step(s, At(early, ClientProof(id, user))), At(late, ProviderProof(user))).t;
            id in t.rewards && t.rewards[id].status.Rewarded?
    ensures var t := Step(Step(s, At(early, ProviderProof(user))), At(late, ClientProof(id, user))).t;
            id in t.rewards && t.rewards[id].status.Rewarded?
  {
    ClientThenProvider(s, user, id, early, late);
    ProviderThenClient(s, user, id, early, late);
  }

  lemma ClientThenProvider(s: System, user: UserId, id: RewardId, early: Time, late: Time)
    requires Inv(s) && s.clock <= early <= late && id in s.t.rewards && Waits(s.t.rewards[id], user, late)
    ensures var t := Step(Step(s, At(early, ClientProof(id, user))), At(late, ProviderProof(user))).t;
            id in t.rewards && t.rewards[id].status.Rewarded?
  {
    hide Inv, MarkClientCompleted, MarkProviderConfirmed;
    var c := Step(s, At(early, ClientProof(id, user)));
    StepKeeps(s, At(early, ClientProof(id, user)));
    ClientProofExactly(s.t, id, user, early);
    assert c.t == MarkClientCompleted(s.t, id, user, early).0;
    WaiterCredited(c, user, id, late);
    ProviderProofExactly(c.t, user, late);
    assert Step(c, At(late, ProviderProof(user))).t == MarkProviderConfirmed(c.t, user, late).0;
  }

  lemma ProviderThenClient(s: System, user: UserId, id: RewardId, early: Time, late: Time)
    requires Inv(s) && s.clock <= early <= late && id in s.t.rewards && Waits(s.t.rewards[id], user, late)
    ensures var t := Step(Step(s, At(early, ProviderProof(user))), At(late, ClientProof(id, user))).t;
            id in t.rewards && t.rewards[id].status.Rewarded?
  {
    hide Inv, MarkClientCompleted, MarkProviderConfirmed;
    var p := Step(s, At(early, ProviderProof(user)));
    WaiterCredited(s, user, id, early);
    ProviderProofExactly(s.t, user, early);
    assert p.t == MarkProviderConfirmed(s.t, user, early).0;
    ClientProofExactly(p.t, id, user, late);
    assert Step(p, At(late, ClientProof(id, user))).t == MarkClientCompleted(p.t, id, user, late).0;
  }

  lemma WaiterCredited(s: System, user: UserId, id: RewardId, now: Time)
    requires Inv(s) && id in s.t.rewards && s.t.rewards[id].user == user && Active(s.t.rewards[id])
    requires !DueToExpire(s.t.rewards[id], user, now)
    ensures MarkProviderConfirmed(s.t, user, now).1 == Some(id)
  {
    hide EntriesOk, FlightsOk, RefreshStatus;
    var v := ExpireDue(s.t, user, now);
    assert v.rewards[id] == s.t.rewards[id];
    var credited := NewestActive(v.rewards, user, v.nextReward);
    assert credited.Some?;
    StillActive(s.t, user, credited.value, now);
  }

  // ---- Copies -----------------------------------------------------------------------------

  /** A prepared copy is of the reward's own row, and its message is to be deleted after two minutes, or what is set,
      within five seconds and 172000. */
  lemma CopyExactly(s: System, id: RewardId, cat: Catalogue, renders: bool, setting: Option<int>, now: Time)
    requires Inv(s)
    ensures var (t, answer) := Prepare(s.t, id, cat, renders, setting, now);
            && (answer.Copy? ==>
                  && OnlyOne(s.t, t, id) && id in t.rewards && id in t.deliveries
                  && answer.row == s.t.rewards[id].row && answer.deleteSeconds == Within(5, setting.GetOr(120), 172000)
                  && t.rewards[id] == s.t.rewards[id].(status := Delivering, startedAt := Some(now))
                  && t.deliveries[id].status.Sending? && t.deliveries[id].sendStartedAt == Some(now)
                  && t.deliveries[id].attempts == (if id in s.t.deliveries then s.t.deliveries[id].attempts else 0))
            && (answer.NowUnavailable? ==>
                  && OnlyOne(s.t, t, id) && id in t.rewards && t.deliveries == s.t.deliveries
                  && var a, b := s.t.rewards[id], t.rewards[id];
                     && b.status.Unavailable? && b.unavailableAt == First(a.unavailableAt, now) && b.startedAt.None?
                     && b == a.(status := b.status, unavailableAt := b.unavailableAt, reason := b.reason,
                                startedAt := None))
  {
    if id in s.t.rewards {
      hide AvailabilityReason;
      assert EntryOk(EntryAt(s, id), s.clock);
      CopyTables(s.t, id, cat, renders, setting, now);
    }
  }

  lemma CopyTables(t: Tables, id: RewardId, cat: Catalogue, renders: bool, setting: Option<int>, now: Time)
    requires id in t.rewards
    ensures var (u, answer) := Prepare(t, id, cat, renders, setting, now);
            && OnlyOne(t, u, id)
            && (answer.Copy? ==> answer.row == t.rewards[id].row
                                 && answer.deleteSeconds == Within(5, setting.GetOr(120), 172000))
  {
    hide AvailabilityReason;
  }

  /** Where the records contradict each other, as no reachable state does, the delivery decides: one sent or deleted
      makes its reward delivered, one being sent makes it processed. */
  lemma ContradictionSettled(t: Tables, id: RewardId, cat: Catalogue, setting: Option<int>, now: Time)
    requires id in t.rewards && id in t.deliveries && HasContent(t.rewards[id], cat)
    requires t.rewards[id].status.Rewarded? || t.rewards[id].status.Unavailable?
    ensures var (u, answer), r, d := Prepare(t, id, cat, true, setting, now), t.rewards[id], t.deliveries[id];
            && (answer.AlreadyDelivered? <==> d.status.Sent? || d.status.Deleted?)
            && (answer.Processing? <==> d.status.Sending?)
            && (answer.Copy? <==> d.status.Waiting? || d.status.Deleting? || d.status.DeleteFailed?)
            && (answer.AlreadyDelivered? ==>
                  u == t.(rewards := t.rewards[id := r.(status := Delivered,
                                                       deliveredAt := First(r.deliveredAt, d.sentAt.GetOr(now)))]))
            && (answer.Processing? ==> u == t.(rewards := t.rewards[id := r.(status := Delivering)]))
  {
  }

  // A reward that was being delivered can be claimed again, as a kept credit if it was one.
  predicate GivenBack(a: Reward, b: Reward) {
    && b == a.(status := b.status, startedAt := None)
    && (if a.unavailableAt.Some? then b.status.Unavailable? else b.status.Rewarded?)
  }

  predicate SendGivenUp(a: Delivery, b: Delivery) {
    b == a.(status := Waiting, sendStartedAt := None, attempts := a.attempts + 1)
  }

  /** A copy that fails gives the reward back, or keeps it as unavailable if its source message has gone; the send is
      given up and counted. What is not being delivered, or not being sent, stays. */
  lemma FailureExactly(t: Tables, id: RewardId, missing: bool, now: Time)
    requires id in t.rewards && id in t.deliveries
    ensures var u := ResetFailedSend(t, id, missing, now);
            && OnlyOne(t, u, id) && id in u.rewards && id in u.deliveries
            && (!t.rewards[id].status.Delivering? ==> u.rewards[id] == t.rewards[id])
            && (t.rewards[id].status.Delivering? && !missing ==> GivenBack(t.rewards[id], u.rewards[id]))
            && (t.rewards[id].status.Delivering? && missing ==>
                  u.rewards[id] == t.rewards[id].(status := Unavailable, reason := Some(SourceMissing),
                                                  startedAt := None,
                                                  unavailableAt := First(t.rewards[id].unavailableAt, now)))
            && (if t.deliveries[id].status.Sending? then SendGivenUp(t.deliveries[id], u.deliveries[id])
                else u.deliveries[id] == t.deliveries[id])
  {
  }

  /** A copy that arrives delivers its reward and schedules its deletion, unless one is recorded as sent. */
  lemma ArrivalExactly(t: Tables, id: RewardId, telegramId: int, seconds: int, now: Time)
    requires id in t.rewards && id in t.deliveries
    ensures var u := FinalizeSent(t, id, telegramId, seconds, now);
            if t.deliveries[id].status.Sent? then u == t
            else
              && OnlyOne(t, u, id) && id in u.rewards && id in u.deliveries
              && u.rewards[id] == t.rewards[id].(status := Delivered, deliveredAt := Some(now), startedAt := None)
              && u.deliveries[id] == t.deliveries[id].(
                   status := Sent, telegramId := Some(telegramId), sentAt := Some(now), deleteAt := Some(now + seconds),
                   nextAttemptAt := Some(now + seconds), sendStartedAt := None)
  {
  }

  /** A recovery gives back exactly the locked sends that began at least five minutes ago. */
  lemma RecoveredExactly(t: Tables, locked: set<RewardId>, now: Time)
    ensures var u := RecoverSends(t, locked, now);
            && u.nextReward == t.nextReward && u.rewards.Keys == t.rewards.Keys
               && u.deliveries.Keys == t.deliveries.Keys
            && (forall id :: id in t.deliveries ==>
                  var d := t.deliveries[id];
                  if id in locked && d.status.Sending? && d.sendStartedAt.Some? && now - d.sendStartedAt.value >= 300
                  then SendGivenUp(d, u.deliveries[id]) else u.deliveries[id] == d)
            && (forall id :: id in t.rewards ==>
                  if id in t.deliveries && u.deliveries[id] != t.deliveries[id] && t.rewards[id].status.Delivering?
                  then GivenBack(t.rewards[id], u.rewards[id]) else u.rewards[id] == t.rewards[id])
  {
  }

  // ---- Deletions --------------------------------------------------------------------------

  /** A sent message is claimed for deletion once its time has come, and given up when it is 48 hours old. */
  lemma ClaimExactly(t: Tables, id: RewardId, now: Time)
    ensures var u := ClaimDeletion(t, id, now);
            && u.rewards == t.rewards && OnlyOne(t, u, id) && u.deliveries.Keys == t.deliveries.Keys
            && (id in t.deliveries ==>
                  var a, b := t.deliveries[id], u.deliveries[id];
                  if a.status.Sent? && a.telegramId.Some? && a.nextAttemptAt.Some? && a.nextAttemptAt.value <= now then
                    if a.sentAt.Some? && now - a.sentAt.value >= 48 * 3600 then
                      b == a.(status := DeleteFailed, nextAttemptAt := None)
                    else b == a.(status := Deleting, deleteStartedAt := Some(now))
                  else b == a)
  {
  }

  /** What Telegram answers settles a claimed deletion: gone, or never to go, or to be tried again. */
  lemma SettledExactly(t: Tables, id: RewardId, answer: DeleteAnswer, now: Time)
    ensures var u := DeleteOne(t, id, answer, now);
            && u.rewards == t.rewards && OnlyOne(t, u, id) && u.deliveries.Keys == t.deliveries.Keys
            && (id in t.deliveries ==>
                  var a, b := t.deliveries[id], u.deliveries[id];
                  if !a.status.Deleting? then b == a
                  else if answer.DeleteOk? || answer.MissingMessage? then
                    b == a.(status := Deleted, deletedAt := Some(now), deleteStartedAt := None, nextAttemptAt := None)
                  else if answer.OtherBadRequest? || answer.Forbidden? then
                    b == a.(status := DeleteFailed, attempts := a.attempts + 1, deleteStartedAt := None,
                            nextAttemptAt := None)
                  else
                    b == a.(status := Sent, attempts := a.attempts + 1, deleteStartedAt := None,
                            nextAttemptAt := Some(now + Backoff(a.attempts + 1))))
  {
    hide Backoff;
  }

  /** The waiting time begins with five seconds and doubles up to five minutes. */
  lemma BackoffDoubles(attempts: nat)
    requires attempts > 0
    ensures Backoff(1) == 5 && Backoff(attempts + 1) == Min(300, 2 * Backoff(attempts))
  {
    assert Pow2(0) == 1 && Pow2(1) == 2 && Pow2(2) == 4 && Pow2(3) == 8 && Pow2(4) == 16 && Pow2(5) == 32
           && Pow2(6) == 64;
    if attempts > 6 {
      assert Min(attempts - 1, 6) == 6;
    }
  }

  /** A recovery makes exactly the deletions that began at least five minutes ago due again at once. */
  lemma DeletionsRecoveredExactly(t: Tables, now: Time)
    ensures var u := RecoverDeletions(t, now);
            && u.rewards == t.rewards && u.nextReward == t.nextReward && u.deliveries.Keys == t.deliveries.Keys
            && forall id :: id in t.deliveries ==>
                 var a, b := t.deliveries[id], u.deliveries[id];
                 if a.status.Deleting? && a.deleteStartedAt.Some? && now - a.deleteStartedAt.value >= 300
                 then b == a.(status := Sent, deleteStartedAt := None, nextAttemptAt := Some(now)) else b == a
  {
  }

  function DeliveryStatusOf(t: Tables, id: RewardId): DeliveryStatus {
    if id in t.deliveries then t.deliveries[id].status else Waiting
  }

  /** How a delivery comes to each status in one step of the protocol, besides staying in it; a reward without delivery
      counts as waiting. So a message is recorded as deleted only when Telegram has said that it is gone. */
  predicate MayMove(from: DeliveryStatus, to: DeliveryStatus, a: Action, id: RewardId) {
    match to
    case Waiting => from.Sending? && (a.CopyFails? || a.RecoverStaleSends?)
    case Sending => from.Waiting? && a.PrepareCopy? && a.id == id
    case Sent =>
      || (a.CopySucceeds? && !from.Sent?)
      || (from.Deleting? && (a.RecoverStaleDeletions? || a == SettleDeletion(id, OtherApiError)))
    case Deleting => from.Sent? && a == Claim(id)
    case Deleted => from.Deleting? && (a == SettleDeletion(id, DeleteOk) || a == SettleDeletion(id, MissingMessage))
    case DeleteFailed =>
      || (from.Sent? && a == Claim(id))
      || (from.Deleting? && (a == SettleDeletion(id, OtherBadRequest) || a == SettleDeletion(id, Forbidden)))
  }

  lemma StatusMoves(s: System, e: Event, id: RewardId)
    requires Inv(s)
    ensures var from, to := DeliveryStatusOf(s.t, id), DeliveryStatusOf(Step(s, e).t, id);
            from != to ==> MayMove(from, to, e.action, id)
  {
    hide Inv, Prepare, FinalizeSent, ResetFailedSend, RecoverSends, RecoverDeletions, ClaimDeletion, DeleteOne,
         GetOrCreate, MarkClientCompleted, MarkProviderConfirmed, DeliveryStatusOf;
    match e.action
    case Open(user, movie, resolution, cat, ttl) =>
      OpeningChanges(s, user, movie, resolution, cat, ttl, e.now);
      SameStatus(s.t, Step(s, e).t, id);
    case ClientProof(i, user) =>
      ClientProofExactly(s.t, i, user, e.now);
      SameStatus(s.t, Step(s, e).t, id);
    case ProviderProof(user) =>
      ProviderKeepsDeliveries(s.t, user, e.now);
      SameStatus(s.t, Step(s, e).t, id);
    case PrepareCopy(i, cat, renders, setting) => PrepareMoves(s, i, cat, renders, setting, e.now, id);
    case CopySucceeds(_, _) => EndMoves(s, e, id);
    case CopyFails(_, _, _) => EndMoves(s, e, id);
    case CopyLost(_, _) => SameStatus(s.t, Step(s, e).t, id);
    case RecoverStaleSends(locked) => RecoveryMoves(s.t, locked, e.now, id);
    case RecoverStaleDeletions => RecoveryMoves(s.t, {}, e.now, id);
    case Claim(i) => DeletionMoves(s.t, i, DeleteOk, e.now, id);
    case SettleDeletion(i, answer) => DeletionMoves(s.t, i, answer, e.now, id);
  }

  lemma SameStatus(t: Tables, u: Tables, id: RewardId)
    requires u.deliveries == t.deliveries
    ensures DeliveryStatusOf(u, id) == DeliveryStatusOf(t, id)
  {
  }

  lemma ProviderKeepsDeliveries(t: Tables, user: UserId, now: Time)
    ensures MarkProviderConfirmed(t, user, now).0.deliveries == t.deliveries
  {
    hide RefreshStatus;
  }

  lemma PrepareMoves(s: System, i: RewardId, cat: Catalogue, renders: bool, setting: Option<int>, now: Time,
                     id: RewardId)
    requires Inv(s)
    ensures var t := Prepare(s.t, i, cat, renders, setting, now).0;
            DeliveryStatusOf(t, id) == DeliveryStatusOf(s.t, id)
            || (i == id && DeliveryStatusOf(s.t, id).Waiting? && DeliveryStatusOf(t, id).Sending?)
  {
    hide Inv, Prepare, HasContent;
    PreparedExactly(s, i, cat, renders, setting, now);
    CopyExactly(s, i, cat, renders, setting, now);
    if i in s.t.rewards {
      NoOrphanedDelivery(s, i, cat, renders, setting, now);
    }
  }

  lemma EndMoves(s: System, e: Event, id: RewardId)
    requires Inv(s) && (e.action.CopySucceeds? || e.action.CopyFails?)
    ensures var from, to := DeliveryStatusOf(s.t, id), DeliveryStatusOf(Step(s, e).t, id);
            || to == from
            || (e.action.CopySucceeds? && !from.Sent? && to.Sent?)
            || (e.action.CopyFails? && from.Sending? && to.Waiting?)
  {
    hide Inv, FinalizeSent, ResetFailedSend;
    if e.action.flight in s.flights {
      var f := s.flights[e.action.flight];
      FlightHasRecords(s, e.action.flight);
      if e.action.CopySucceeds? {
        ArrivalExactly(s.t, f.reward, e.action.telegramId, f.deleteSeconds, e.now);
      } else {
        FailureExactly(s.t, f.reward, e.action.missingSource, e.now);
      }
    }
  }

  lemma FlightHasRecords(s: System, flight: nat)
    requires Inv(s) && flight in s.flights
    ensures s.flights[flight].reward in s.t.rewards && s.flights[flight].reward in s.t.deliveries
  {
    assert FlightOk(s, s.flights[flight]);
  }

  lemma RecoveryMoves(t: Tables, locked: set<RewardId>, now: Time, id: RewardId)
    ensures var from, to := DeliveryStatusOf(t, id), DeliveryStatusOf(RecoverSends(t, locked, now), id);
            to == from || (from.Sending? && to.Waiting?)
    ensures var from, to := DeliveryStatusOf(t, id), DeliveryStatusOf(RecoverDeletions(t, now), id);
            to == from || (from.Deleting? && to.Sent?)
  {
    hide RecoverSends, RecoverDeletions;
    RecoveredExactly(t, locked, now);
    DeletionsRecoveredExactly(t, now);
    assert id in t.deliveries.Keys <==> id in RecoverSends(t, locked, now).deliveries.Keys;
    assert id in t.deliveries.Keys <==> id in RecoverDeletions(t, now).deliveries.Keys;
  }

  lemma DeletionMoves(t: Tables, i: RewardId, answer: DeleteAnswer, now: Time, id: RewardId)
    ensures var from, to := DeliveryStatusOf(t, id), DeliveryStatusOf(ClaimDeletion(t, i, now), id);
            to == from || (i == id && from.Sent? && (to.Deleting? || to.DeleteFailed?))
    ensures var from, to := DeliveryStatusOf(t, id), DeliveryStatusOf(DeleteOne(t, i, answer, now), id);
            || to == from
            || (i == id && from.Deleting?
                && match answer
                   case DeleteOk => to.Deleted?
                   case MissingMessage => to.Deleted?
                   case OtherBadRequest => to.DeleteFailed?
                   case Forbidden => to.DeleteFailed?
                   case OtherApiError => to.Sent?)
  {
    hide ClaimDeletion, DeleteOne, Backoff;
    ClaimExactly(t, i, now);
    SettledExactly(t, i, answer, now);
    assert id in t.deliveries.Keys <==> id in ClaimDeletion(t, i, now).deliveries.Keys;
    assert id in t.deliveries.Keys <==> id in DeleteOne(t, i, answer, now).deliveries.Keys;
  }
}
