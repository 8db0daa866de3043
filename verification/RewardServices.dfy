/** The reward and delivery services over the shared tables, which they update in place
    (src/cinegate/services/reward_sessions.py, delivery.py, src/cinegate/workers/deletion.py).
    Each method is one transaction. */
module RewardServices {
  import opened Wrappers
  import opened Archive
  import opened RewardTables
  import ArchiveIndex
  import DeliveryProtocol

  type System = DeliveryProtocol.System
  type Action = DeliveryProtocol.Action

  // ---- Transactions as steps of the protocol ----------------------------------------------

  /** The change from t to u is the step of an actor, in every state of the protocol with these tables; so everything
      the protocol keeps is kept. */
  ghost predicate Takes(t: Tables, a: Action, now: Time, u: Tables) {
    forall s: System :: DeliveryProtocol.Inv(s) && s.t == t && s.clock <= now ==>
      var v := DeliveryProtocol.Step(s, DeliveryProtocol.At(now, a)); v.t == u && DeliveryProtocol.Inv(v)
  }

  // The same for what ends a copy in flight.
  ghost predicate Ends(t: Tables, a: Action, now: Time, flight: nat, f: DeliveryProtocol.Flight, u: Tables) {
    forall s: System ::
      DeliveryProtocol.Inv(s) && s.t == t && s.clock <= now && flight in s.flights && s.flights[flight] == f ==>
        var v := DeliveryProtocol.Step(s, DeliveryProtocol.At(now, a)); v.t == u && DeliveryProtocol.Inv(v)
  }

  /** Whichever copy of this reward in flight has failed, arrived or not, its failure is that step. */
  ghost predicate FailureOf(t: Tables, id: RewardId, missing: bool, now: Time, u: Tables) {
    forall flight: nat, f: DeliveryProtocol.Flight, arrived: bool :: f.reward == id ==>
      Ends(t, DeliveryProtocol.CopyFails(flight, missing, arrived), now, flight, f, u)
  }

  /** Whichever copy of this reward in flight has succeeded, its success is that step. */
  ghost predicate SuccessOf(t: Tables, id: RewardId, telegramId: int, deleteSeconds: int, now: Time, u: Tables) {
    forall flight: nat, f: DeliveryProtocol.Flight :: f.reward == id && f.deleteSeconds == deleteSeconds ==>
      Ends(t, DeliveryProtocol.CopySucceeds(flight, telegramId), now, flight, f, u)
  }

  lemma OpenTakes(t: Tables, user: UserId, movie: MessageId, resolution: string, cat: Catalogue, ttl: Option<int>,
                  now: Time)
    ensures Takes(t, DeliveryProtocol.Open(user, movie, resolution, cat, ttl), now,
                  GetOrCreate(t, user, movie, resolution, cat, ttl, now).0)
  {
    hide DeliveryProtocol.Inv, GetOrCreate;
    forall s: System | DeliveryProtocol.Inv(s) && s.t == t && s.clock <= now
      ensures var v := DeliveryProtocol.Step(s,
                                             DeliveryProtocol.At(now, DeliveryProtocol.Open(user, movie, resolution,
                                               cat, ttl)));
              v.t == GetOrCreate(t, user, movie, resolution, cat, ttl, now).0 && DeliveryProtocol.Inv(v)
    {
      DeliveryProtocol.StepKeeps(s, DeliveryProtocol.At(now, DeliveryProtocol.Open(user, movie, resolution, cat, ttl)));
    }
  }

  lemma ClientProofTakes(t: Tables, id: RewardId, user: UserId, now: Time)
    ensures Takes(t, DeliveryProtocol.ClientProof(id, user), now, MarkClientCompleted(t, id, user, now).0)
  {
    hide DeliveryProtocol.Inv, MarkClientCompleted;
    forall s: System | DeliveryProtocol.Inv(s) && s.t == t && s.clock <= now
      ensures var v := DeliveryProtocol.Step(s, DeliveryProtocol.At(now, DeliveryProtocol.ClientProof(id, user)));
              v.t == MarkClientCompleted(t, id, user, now).0 && DeliveryProtocol.Inv(v)
    {
      DeliveryProtocol.StepKeeps(s, DeliveryProtocol.At(now, DeliveryProtocol.ClientProof(id, user)));
    }
  }

  lemma ProviderProofTakes(t: Tables, user: UserId, now: Time)
    ensures Takes(t, DeliveryProtocol.ProviderProof(user), now, MarkProviderConfirmed(t, user, now).0)
  {
    hide DeliveryProtocol.Inv, MarkProviderConfirmed;
    forall s: System | DeliveryProtocol.Inv(s) && s.t == t && s.clock <= now
      ensures var v := DeliveryProtocol.Step(s, DeliveryProtocol.At(now, DeliveryProtocol.ProviderProof(user)));
              v.t == MarkProviderConfirmed(t, user, now).0 && DeliveryProtocol.Inv(v)
    {
      DeliveryProtocol.StepKeeps(s, DeliveryProtocol.At(now, DeliveryProtocol.ProviderProof(user)));
    }
  }

  lemma PrepareTakes(t: Tables, id: RewardId, cat: Catalogue, renders: bool, setting: Option<int>, now: Time)
    ensures Takes(t, DeliveryProtocol.PrepareCopy(id, cat, renders, setting), now,
                  Prepare(t, id, cat, renders, setting, now).0)
  {
    hide DeliveryProtocol.Inv, Prepare;
    forall s: System | DeliveryProtocol.Inv(s) && s.t == t && s.clock <= now
      ensures var v := DeliveryProtocol.Step(s,
                                             DeliveryProtocol.At(now, DeliveryProtocol.PrepareCopy(id, cat, renders,
                                               setting)));
              v.t == Prepare(t, id, cat, renders, setting, now).0 && DeliveryProtocol.Inv(v)
    {
      DeliveryProtocol.StepKeeps(s, DeliveryProtocol.At(now, DeliveryProtocol.PrepareCopy(id, cat, renders, setting)));
    }
  }

  lemma RecoveryTakes(t: Tables, locked: set<RewardId>, now: Time)
    ensures Takes(t, DeliveryProtocol.RecoverStaleSends(locked), now, RecoverSends(t, locked, now))
  {
    hide DeliveryProtocol.Inv, RecoverSends;
    forall s: System | DeliveryProtocol.Inv(s) && s.t == t && s.clock <= now
      ensures var v := DeliveryProtocol.Step(s, DeliveryProtocol.At(now, DeliveryProtocol.RecoverStaleSends(locked)));
              v.t == RecoverSends(t, locked, now) && DeliveryProtocol.Inv(v)
    {
      DeliveryProtocol.StepKeeps(s, DeliveryProtocol.At(now, DeliveryProtocol.RecoverStaleSends(locked)));
    }
  }

  lemma DeletionRecoveryTakes(t: Tables, now: Time)
    ensures Takes(t, DeliveryProtocol.RecoverStaleDeletions, now, RecoverDeletions(t, now))
  {
    hide DeliveryProtocol.Inv, RecoverDeletions;
    forall s: System | DeliveryProtocol.Inv(s) && s.t == t && s.clock <= now
      ensures var v := DeliveryProtocol.Step(s, DeliveryProtocol.At(now, DeliveryProtocol.RecoverStaleDeletions));
              v.t == RecoverDeletions(t, now) && DeliveryProtocol.Inv(v)
    {
      DeliveryProtocol.StepKeeps(s, DeliveryProtocol.At(now, DeliveryProtocol.RecoverStaleDeletions));
    }
  }

  lemma SettlementTakes(t: Tables, id: RewardId, answer: DeleteAnswer, now: Time)
    ensures Takes(t, DeliveryProtocol.SettleDeletion(id, answer), now, DeleteOne(t, id, answer, now))
  {
    hide DeliveryProtocol.Inv, DeleteOne;
    forall s: System | DeliveryProtocol.Inv(s) && s.t == t && s.clock <= now
      ensures var v := DeliveryProtocol.Step(s, DeliveryProtocol.At(now, DeliveryProtocol.SettleDeletion(id, answer)));
              v.t == DeleteOne(t, id, answer, now) && DeliveryProtocol.Inv(v)
    {
      DeliveryProtocol.StepKeeps(s, DeliveryProtocol.At(now, DeliveryProtocol.SettleDeletion(id, answer)));
    }
  }

  lemma SuccessEnds(t: Tables, id: RewardId, telegramId: int, deleteSeconds: int, now: Time)
    ensures SuccessOf(t, id, telegramId, deleteSeconds, now, FinalizeSent(t, id, telegramId, deleteSeconds, now))
  {
    hide DeliveryProtocol.Inv;
    forall flight: nat, f: DeliveryProtocol.Flight, s: System
      | f.reward == id && f.deleteSeconds == deleteSeconds
        && DeliveryProtocol.Inv(s) && s.t == t && s.clock <= now && flight in s.flights && s.flights[flight] == f
      ensures var v := DeliveryProtocol.Step(s,
                                             DeliveryProtocol.At(now, DeliveryProtocol.CopySucceeds(flight,
                                               telegramId)));
              v.t == FinalizeSent(t, id, telegramId, deleteSeconds, now) && DeliveryProtocol.Inv(v)
    {
      DeliveryProtocol.StepKeeps(s, DeliveryProtocol.At(now, DeliveryProtocol.CopySucceeds(flight, telegramId)));
    }
  }

  lemma FailureEnds(t: Tables, id: RewardId, missing: bool, now: Time)
    ensures FailureOf(t, id, missing, now, ResetFailedSend(t, id, missing, now))
  {
    hide DeliveryProtocol.Inv, ResetFailedSend;
    forall flight: nat, f: DeliveryProtocol.Flight, arrived: bool, s: System
      | f.reward == id
        && DeliveryProtocol.Inv(s) && s.t == t && s.clock <= now && flight in s.flights && s.flights[flight] == f
      ensures var v := DeliveryProtocol.Step(s,
                                             DeliveryProtocol.At(now, DeliveryProtocol.CopyFails(flight, missing,
                                               arrived)));
              v.t == ResetFailedSend(t, id, missing, now) && DeliveryProtocol.Inv(v)
    {
      DeliveryProtocol.StepKeeps(s, DeliveryProtocol.At(now, DeliveryProtocol.CopyFails(flight, missing, arrived)));
    }
  }

  class Database {
    var rewards: map<RewardId, Reward>
    var deliveries: map<RewardId, Delivery>
    var nextReward: RewardId

    ghost function View(): Tables
      reads this
    {
      Tables(rewards, deliveries, nextReward)
    }

    constructor ()
      ensures View() == Tables(map[], map[], 0)
    {
      rewards, deliveries, nextReward := map[], map[], 0;
    }

    method ExpireDueSessions(user: UserId, now: Time)
      modifies this`rewards
      ensures View() == ExpireDue(old(View()), user, now)
    {
      var todo := rewards.Keys;
      while todo != {}
        invariant todo <= rewards.Keys == old(rewards).Keys
        invariant forall id :: id in rewards ==>
          rewards[id] == (if id !in todo && old(rewards)[id].user == user && Overdue(old(rewards)[id], now)
                          then old(rewards)[id].(status := Expired) else old(rewards)[id])
      {
        var id :| id in todo;
        todo := todo - {id};
        if rewards[id].user == user && Expirable(rewards[id].status) && rewards[id].expiresAt <= now {
          rewards := rewards[id := rewards[id].(status := Expired)];
        }
      }
    }

    method MakeUnavailable(id: RewardId, reason: Reason, now: Time)
      requires id in rewards
      modifies this`rewards
      ensures View() == SetReward(old(View()), id, PreserveUnavailable(old(rewards)[id], reason, now))
    {
      var r := rewards[id];
      r := r.(status := Unavailable);
      if r.unavailableAt.None? {
        r := r.(unavailableAt := Some(now));
      }
      rewards := rewards[id := r.(reason := Some(reason), startedAt := None)];
    }

    method RefreshRewardStatus(id: RewardId, now: Time)
      requires id in rewards
      modifies this`rewards
      ensures View() == SetReward(old(View()), id, RefreshStatus(old(rewards)[id], now))
    {
      var r := rewards[id];
      if r.status.Unavailable? || r.status.Delivering? || r.status.Delivered? {
        assert rewards == rewards[id := r];
        return;
      }
      if r.clientAt.Some? && r.providerAt.Some? {
        r := r.(status := Rewarded);
        if r.rewardedAt.None? {
          r := r.(rewardedAt := Some(now));
        }
      } else if r.clientAt.Some? {
        r := r.(status := ClientCompleted);
      } else if r.providerAt.Some? {
        r := r.(status := ProviderConfirmed);
      } else {
        r := r.(status := Pending);
      }
      rewards := rewards[id := r];
    }
  }

  class RewardSessionService {
    const db: Database

    constructor (db: Database)
      ensures this.db == db
    {
      this.db := db;
    }

    method SelectRow(cat: Catalogue, movie: MessageId, resolution: string) returns (row: Option<RowId>)
      requires ArchiveIndex.UniqueRows(cat.rows)
      ensures row == AvailableRow(cat, movie, resolution)
    {
      if movie !in cat.movies || !cat.movies[movie].status.Indexed?
         || !exists k ::
              k in cat.rows && cat.rows[k].movie == movie && cat.rows[k].resolution == resolution
              && cat.rows[k].confidence > 0
      {
        return None;
      }
      var k :| k in cat.rows && cat.rows[k].movie == movie && cat.rows[k].resolution == resolution
        && cat.rows[k].confidence > 0;
      row := Some(k);
    }

    method ReleaseUnavailable(active: Option<RewardId>, cat: Catalogue, now: Time) returns (slot: Option<RewardId>)
      requires active.Some? ==> active.value in db.rewards
      modifies db`rewards
      ensures (db.View(), slot) == ReleaseSlot(old(db.View()), active, cat, now)
    {
      slot := active;
      if active.Some? && db.rewards[active.value].status.Rewarded? {
        var reason := AvailabilityReason(db.rewards[active.value], cat);
        if reason.Some? {
          db.MakeUnavailable(active.value, reason.value, now);
          slot := None;
        }
      }
    }

    method GetOrCreate(user: UserId, movie: MessageId, resolution: string, cat: Catalogue, ttl: Option<int>, now: Time)
      returns (opening: Opening)
      requires ArchiveIndex.UniqueRows(cat.rows)
      modifies db
      ensures (db.View(), opening) == RewardTables.GetOrCreate(old(db.View()), user, movie, resolution, cat, ttl, now)
      ensures Takes(old(db.View()), DeliveryProtocol.Open(user, movie, resolution, cat, ttl), now, db.View())
    {
      hide Takes;
      OpenTakes(db.View(), user, movie, resolution, cat, ttl, now);
      var available := SelectRow(cat, movie, resolution);
      if available.None? {
        return QualityUnavailable;
      }
      var row := available.value;
      var before := db.rewards;
      db.ExpireDueSessions(user, now);
      var active := NewestActive(db.rewards, user, db.nextReward);
      active := ReleaseUnavailable(active, cat, now);
      var retained := OldestRetained(db.rewards, user, movie, row, resolution, 0, db.nextReward);
      if retained.Some? {
        return Existing(retained.value);
      }
      if active.Some? {
        var r := db.rewards[active.value];
        if r.movie == movie && r.row == row && r.resolution == resolution {
          return Existing(active.value);
        }
        // The conflict is raised inside the transaction, which undoes the expiries above.
        db.rewards := before;
        return ActiveConflict(active.value);
      }
      var seconds := BoundedSessionSeconds(ttl);
      var id := db.nextReward;
      db.rewards := db.rewards[id := Reward(user, movie, row, resolution, Pending, now + seconds, None, None, None,
                                            None, None, None, None)];
      db.nextReward := id + 1;
      opening := Created(id);
    }

    method MarkClientCompleted(id: RewardId, user: UserId, now: Time) returns (error: Option<ProofError>)
      modifies db
      ensures (db.View(), error) == RewardTables.MarkClientCompleted(old(db.View()), id, user, now)
      ensures Takes(old(db.View()), DeliveryProtocol.ClientProof(id, user), now, db.View())
    {
      hide Takes;
      ClientProofTakes(db.View(), id, user, now);
      if id !in db.rewards {
        return Some(NotFound);
      }
      var r := db.rewards[id];
      if r.status.Expired? || (Expirable(r.status) && r.expiresAt <= now) {
        return Some(SessionExpired);
      }
      if r.user != user {
        return Some(UserMismatch);
      }
      if r.clientAt.None? {
        r := r.(clientAt := Some(now));
        db.rewards := db.rewards[id := r];
      }
      db.RefreshRewardStatus(id, now);
      assert db.rewards == old(db.rewards)[id := RefreshStatus(r, now)];
      error := None;
    }

    method MarkProviderConfirmed(user: UserId, now: Time) returns (credited: Option<RewardId>)
      modifies db
      ensures (db.View(), credited) == RewardTables.MarkProviderConfirmed(old(db.View()), user, now)
      ensures Takes(old(db.View()), DeliveryProtocol.ProviderProof(user), now, db.View())
    {
      hide Takes;
      ProviderProofTakes(db.View(), user, now);
      db.ExpireDueSessions(user, now);
      credited := NewestActive(db.rewards, user, db.nextReward);
      if credited.None? {
        return;
      }
      var r := db.rewards[credited.value];
      ghost var expired := db.rewards;
      if r.providerAt.None? {
        r := r.(providerAt := Some(now));
        db.rewards := db.rewards[credited.value := r];
      }
      db.RefreshRewardStatus(credited.value, now);
      assert db.rewards == expired[credited.value := RefreshStatus(r, now)];
    }
  }

  ghost function ClaimAll(t: Tables, ids: seq<RewardId>, now: Time): Tables {
    if ids == [] then t else ClaimDeletion(ClaimAll(t, ids[..|ids| - 1], now), ids[|ids| - 1], now)
  }

  predicate InRange(deliveries: map<RewardId, Delivery>, ids: seq<RewardId>) {
    forall i :: 0 <= i < |ids| ==> ids[i] in deliveries
  }

  // What the due query returns: rows that are due, each once.
  ghost predicate DueRows(deliveries: map<RewardId, Delivery>, due: seq<RewardId>, now: Time) {
    && (forall i :: 0 <= i < |due| ==> due[i] in deliveries && Due(deliveries[due[i]], now))
    && forall i, j :: 0 <= i < j < |due| ==> due[i] != due[j]
  }

  // The rows whose messages are still young enough to be deleted, in order.
  function InTime(deliveries: map<RewardId, Delivery>, ids: seq<RewardId>, now: Time): seq<RewardId>
    requires InRange(deliveries, ids)
  {
    if ids == [] then []
    else
      var last := ids[|ids| - 1];
      var front := InTime(deliveries, ids[..|ids| - 1], now);
      if TooOld(deliveries[last], now) then front else front + [last]
  }

  lemma NoneClaimed(t: Tables, due: seq<RewardId>, now: Time)
    ensures due[..0] == [] && InRange(t.deliveries, due[..0])
    ensures ClaimAll(t, due[..0], now) == t && InTime(t.deliveries, due[..0], now) == []
  {
  }

  // Claiming some rows changes those rows only.
  lemma {:induction false} ClaimedSoFar(t: Tables, ids: seq<RewardId>, now: Time)
    requires DueRows(t.deliveries, ids, now)
    ensures var u := ClaimAll(t, ids, now);
            && u.deliveries.Keys == t.deliveries.Keys
            && forall id :: id in t.deliveries ==>
                 u.deliveries[id] == if id in ids then ClaimDelivery(t.deliveries[id], now) else t.deliveries[id]
    decreases |ids|
  {
    hide ClaimDelivery, Due;
    if ids != [] {
      var front, last := ids[..|ids| - 1], ids[|ids| - 1];
      assert DueRows(t.deliveries, front, now);
      ClaimedSoFar(t, front, now);
      assert last !in front;
      assert ids == front + [last];
    }
  }

  lemma OneMoreClaimed(t: Tables, due: seq<RewardId>, i: nat, now: Time)
    requires DueRows(t.deliveries, due, now) && i < |due|
    ensures InRange(t.deliveries, due[..i]) && InRange(t.deliveries, due[..i + 1])
    ensures var u := ClaimAll(t, due[..i], now);
            && due[i] in t.deliveries && due[i] in u.deliveries && u.deliveries[due[i]] == t.deliveries[due[i]]
            && Due(t.deliveries[due[i]], now)
            && ClaimAll(t, due[..i + 1], now) == ClaimDeletion(u, due[i], now)
    ensures var before := InTime(t.deliveries, due[..i], now);
            InTime(t.deliveries, due[..i + 1], now) == if TooOld(t.deliveries[due[i]], now) then before
              else before + [due[i]]
  {
    hide ClaimDeletion, Due, TooOld;
    assert due[..i + 1][..i] == due[..i];
    assert DueRows(t.deliveries, due[..i], now);
    ClaimedSoFar(t, due[..i], now);
    assert due[i] !in due[..i];
  }

  lemma {:induction false} InTimeYoung(deliveries: map<RewardId, Delivery>, ids: seq<RewardId>, now: Time)
    requires InRange(deliveries, ids)
    ensures forall id :: id in InTime(deliveries, ids, now) ==> id in ids && !TooOld(deliveries[id], now)
    decreases |ids|
  {
    hide TooOld;
    if ids != [] {
      InTimeYoung(deliveries, ids[..|ids| - 1], now);
    }
  }

  lemma AllClaimed(t: Tables, due: seq<RewardId>, now: Time)
    requires DueRows(t.deliveries, due, now)
    ensures InRange(t.deliveries, due)
    ensures var u := ClaimAll(t, due, now);
            forall id :: id in InTime(t.deliveries, due, now) ==>
              id in u.deliveries && u.deliveries[id].status.Deleting? && u.deliveries[id].deleteStartedAt == Some(now)
  {
    ClaimedSoFar(t, due, now);
    InTimeYoung(t.deliveries, due, now);
    hide InTime, ClaimAll, Due;
  }

  // Claiming row by row is a run of claims.
  ghost function Claims(ids: seq<RewardId>, now: Time): seq<DeliveryProtocol.Event> {
    seq(|ids|, i requires 0 <= i < |ids| => DeliveryProtocol.At(now, DeliveryProtocol.Claim(ids[i])))
  }

  lemma {:induction false} ClaimsRun(s: System, ids: seq<RewardId>, now: Time)
    requires DeliveryProtocol.Inv(s) && s.clock <= now
    ensures var u := DeliveryProtocol.Run(s, Claims(ids, now));
            u.t == ClaimAll(s.t, ids, now) && DeliveryProtocol.Inv(u) && u.clock <= now
    decreases |ids|
  {
    hide DeliveryProtocol.Inv, DeliveryProtocol.Step, ClaimDeletion;
    if ids == [] {
      assert Claims(ids, now) == [];
    } else {
      var front, e := ids[..|ids| - 1], DeliveryProtocol.At(now, DeliveryProtocol.Claim(ids[|ids| - 1]));
      ClaimsRun(s, front, now);
      assert Claims(ids, now) == Claims(front, now) + [e];
      RunLast(s, Claims(front, now), e);
      var u := DeliveryProtocol.Run(s, Claims(front, now));
      DeliveryProtocol.StepKeeps(u, e);
      ClaimStep(u, ids[|ids| - 1], now);
    }
  }

  lemma ClaimStep(s: System, id: RewardId, now: Time)
    ensures var u := DeliveryProtocol.Step(s, DeliveryProtocol.At(now, DeliveryProtocol.Claim(id)));
            u.t == ClaimDeletion(s.t, id, now) && u.clock == now
  {
  }

  lemma {:induction false} RunLast(s: System, es: seq<DeliveryProtocol.Event>, e: DeliveryProtocol.Event)
    ensures DeliveryProtocol.Run(s, es + [e]) == DeliveryProtocol.Step(DeliveryProtocol.Run(s, es), e)
    decreases |es|
  {
    hide DeliveryProtocol.Step;
    if es == [] {
      assert es + [e] == [e] && [e][1..] == [];
    } else {
      assert (es + [e])[1..] == es[1..] + [e];
      RunLast(DeliveryProtocol.Step(s, es[0]), es[1..], e);
    }
  }

  lemma RecoverNone(t: Tables, now: Time)
    ensures RecoverSends(t, {}, now) == t
  {
  }

  lemma RecoverOneMore(t: Tables, done: set<RewardId>, id: RewardId, now: Time)
    requires id !in done && id in t.deliveries
    ensures RecoverSends(RecoverSends(t, done, now), {id}, now) == RecoverSends(t, done + {id}, now)
  {
    var u, v := RecoverSends(RecoverSends(t, done, now), {id}, now), RecoverSends(t, done + {id}, now);
    hide Released, SendAgain;
    assert u.rewards.Keys == v.rewards.Keys && u.deliveries.Keys == v.deliveries.Keys;
    forall i | i in u.deliveries
      ensures u.deliveries[i] == v.deliveries[i]
    {
      if i in done {
        AgainIsFresh(t.deliveries[i], now);
      }
    }
    forall i | i in u.rewards
      ensures u.rewards[i] == v.rewards[i]
    {
    }
  }

  lemma AgainIsFresh(d: Delivery, now: Time)
    ensures !StaleSend(SendAgain(d), now)
  {
  }

  // The stale sends among the rows that could be locked.
  ghost function StaleSends(t: Tables, locked: set<RewardId>, now: Time): set<RewardId> {
    set id | id in t.deliveries && id in locked && StaleSend(t.deliveries[id], now)
  }

  lemma OneMoreStale(t: Tables, done: set<RewardId>, id: RewardId, now: Time)
    requires id !in done && id in t.deliveries
    ensures |StaleSends(t, done + {id}, now)| == |StaleSends(t, done, now)| + if StaleSend(t.deliveries[id], now) then 1
            else 0
  {
    assert StaleSends(t, done + {id}, now) == StaleSends(t, done, now) + if StaleSend(t.deliveries[id], now) then {id}
           else {};
  }

  lemma StillThere(t: Tables, done: set<RewardId>, id: RewardId, now: Time)
    requires id !in done && id in t.deliveries
    ensures var u := RecoverSends(t, done, now); id in u.deliveries && u.deliveries[id] == t.deliveries[id]
  {
  }

  lemma RecoverOnlyDeliveries(t: Tables, locked: set<RewardId>, now: Time)
    ensures RecoverSends(t, t.deliveries.Keys * locked, now) == RecoverSends(t, locked, now)
  {
  }

  class DeliveryService {
    const db: Database

    constructor (db: Database)
      ensures this.db == db
    {
      this.db := db;
    }

    method Prepare(id: RewardId, cat: Catalogue, renders: bool, deleteSetting: Option<int>, now: Time)
      returns (result: Prepared)
      modifies db
      ensures (db.View(), result) == RewardTables.Prepare(old(db.View()), id, cat, renders, deleteSetting, now)
      ensures Takes(old(db.View()), DeliveryProtocol.PrepareCopy(id, cat, renders, deleteSetting), now, db.View())
    {
      hide Takes;
      PrepareTakes(db.View(), id, cat, renders, deleteSetting, now);
      if id !in db.rewards {
        return NotReady;
      }
      var r := db.rewards[id];
      if r.status.Delivered? {
        return if id in db.deliveries then AlreadyDelivered else NotReady;
      }
      if r.status.Delivering? {
        return Processing;
      }
      if !r.status.Rewarded? && !r.status.Unavailable? {
        return NotReady;
      }
      var reason := AvailabilityReason(r, cat);
      if reason.Some? {
        db.MakeUnavailable(id, reason.value, now);
        return NowUnavailable;
      }
      if !renders {
        return RenderFailed;
      }
      var seconds := BoundedDeleteSeconds(deleteSetting);
      if id !in db.deliveries {
        db.deliveries := db.deliveries[id := NewDelivery(r)];
      }
      var d := db.deliveries[id];
      if d.status.Sent? || d.status.Deleted? {
        r := r.(status := Delivered);
        if r.deliveredAt.None? {
          r := r.(deliveredAt := if d.sentAt.Some? then d.sentAt else Some(now));
        }
        db.rewards := db.rewards[id := r];
        return AlreadyDelivered;
      }
      if d.status.Sending? {
        db.rewards := db.rewards[id := r.(status := Delivering)];
        return Processing;
      }
      db.rewards := db.rewards[id := r.(status := Delivering, startedAt := Some(now))];
      db.deliveries := db.deliveries[id := d.(status := Sending, sendStartedAt := Some(now))];
      result := Copy(r.row, seconds);
    }

    method ResetFailedSend(id: RewardId, missingSource: bool, now: Time)
      modifies db
      ensures db.View() == RewardTables.ResetFailedSend(old(db.View()), id, missingSource, now)
      ensures FailureOf(old(db.View()), id, missingSource, now, db.View())
    {
      hide FailureOf;
      FailureEnds(db.View(), id, missingSource, now);
      if id !in db.rewards || id !in db.deliveries {
        return;
      }
      var r, d := db.rewards[id], db.deliveries[id];
      if r.status.Delivering? {
        if missingSource {
          db.MakeUnavailable(id, SourceMissing, now);
        } else {
          db.rewards := db.rewards[id := r.(status := if r.unavailableAt.Some? then Unavailable
                                            else Rewarded, startedAt := None)];
        }
      }
      if d.status.Sending? {
        db.deliveries := db.deliveries[id := d.(status := Waiting, sendStartedAt := None, attempts := d.attempts + 1)];
      }
    }

    method FinalizeSent(id: RewardId, telegramId: int, deleteSeconds: int, now: Time)
      modifies db
      ensures db.View() == RewardTables.FinalizeSent(old(db.View()), id, telegramId, deleteSeconds, now)
      ensures SuccessOf(old(db.View()), id, telegramId, deleteSeconds, now, db.View())
    {
      hide SuccessOf;
      SuccessEnds(db.View(), id, telegramId, deleteSeconds, now);
      if id !in db.rewards || id !in db.deliveries || db.deliveries[id].status.Sent? {
        return;
      }
      var deleteAt := now + deleteSeconds;
      db.deliveries := db.deliveries[id := db.deliveries[id].(
        status := Sent, telegramId := Some(telegramId), sentAt := Some(now), deleteAt := Some(deleteAt),
        nextAttemptAt := Some(deleteAt), sendStartedAt := None)];
      db.rewards := db.rewards[id := db.rewards[id].(status := Delivered, deliveredAt := Some(now), startedAt := None)];
    }

    method RecoverStaleSends(locked: set<RewardId>, now: Time) returns (recovered: nat)
      modifies db
      ensures db.View() == RecoverSends(old(db.View()), locked, now)
      ensures recovered == |StaleSends(old(db.View()), locked, now)|
      ensures Takes(old(db.View()), DeliveryProtocol.RecoverStaleSends(locked), now, db.View())
    {
      hide Takes, RecoverSends;
      var todo := db.deliveries.Keys * locked;
      ghost var done: set<RewardId> := {};
      recovered := 0;
      RecoverNone(db.View(), now);
      while todo != {}
        invariant todo !! done && todo + done == old(db.deliveries).Keys * locked
        invariant db.View() == RecoverSends(old(db.View()), done, now)
        invariant recovered == |StaleSends(old(db.View()), done, now)|
      {
        var id :| id in todo;
        todo := todo - {id};
        RecoverOneMore(old(db.View()), done, id, now);
        OneMoreStale(old(db.View()), done, id, now);
        StillThere(old(db.View()), done, id, now);
        var stale := RecoverOne(id, now);
        recovered := recovered + if stale then 1 else 0;
        done := done + {id};
      }
      RecoverOnlyDeliveries(old(db.View()), locked, now);
      assert StaleSends(old(db.View()), old(db.deliveries).Keys * locked, now) == StaleSends(old(db.View()), locked,
             now);
      RecoveryTakes(old(db.View()), locked, now);
    }

    method RecoverOne(id: RewardId, now: Time) returns (stale: bool)
      requires id in db.deliveries
      modifies db
      ensures db.View() == RecoverSends(old(db.View()), {id}, now)
      ensures stale == StaleSend(old(db.deliveries)[id], now)
    {
      var d := db.deliveries[id];
      stale := d.status.Sending? && d.sendStartedAt.Some? && d.sendStartedAt.value <= now - STALE_SECONDS;
      if stale {
        db.deliveries := db.deliveries[id := d.(status := Waiting, sendStartedAt := None, attempts := d.attempts + 1)];
        if id in db.rewards && db.rewards[id].status.Delivering? {
          var r := db.rewards[id];
          db.rewards := db.rewards[id := r.(status := if r.unavailableAt.Some? then Unavailable
                                            else Rewarded, startedAt := None)];
        }
      }
    }

    method RecoverStaleDeletions(now: Time)
      modifies db
      ensures db.View() == RecoverDeletions(old(db.View()), now)
      ensures Takes(old(db.View()), DeliveryProtocol.RecoverStaleDeletions, now, db.View())
    {
      hide Takes;
      DeletionRecoveryTakes(db.View(), now);
      var todo := db.deliveries.Keys;
      ghost var deliveries0 := db.deliveries;
      while todo != {}
        invariant todo <= db.deliveries.Keys == deliveries0.Keys
        invariant db.rewards == old(db.rewards) && db.nextReward == old(db.nextReward)
        invariant forall id :: id in db.deliveries ==>
          db.deliveries[id] == (if id !in todo && StaleDeletion(deliveries0[id], now)
                                then deliveries0[id].(status := Sent, deleteStartedAt := None,
                                                      nextAttemptAt := Some(now))
                                else deliveries0[id])
      {
        var id :| id in todo;
        todo := todo - {id};
        var d := db.deliveries[id];
        if d.status.Deleting? && d.deleteStartedAt.Some? && d.deleteStartedAt.value <= now - STALE_SECONDS {
          db.deliveries := db.deliveries[id := d.(status := Sent, deleteStartedAt := None, nextAttemptAt := Some(now))];
        }
      }
    }

    /** Claims the rows the due query returned, in its order; those past the deletion window are given up. */
    method ClaimDueDeletions(due: seq<RewardId>, now: Time) returns (tasks: seq<RewardId>)
      requires DueRows(db.deliveries, due, now)
      modifies db
      ensures db.View() == ClaimAll(old(db.View()), due, now)
      ensures tasks == InTime(old(db.deliveries), due, now)
      ensures forall id :: id in tasks ==> id in db.deliveries && db.deliveries[id].status.Deleting?
                                           && db.deliveries[id].deleteStartedAt == Some(now)
      ensures forall s: System :: DeliveryProtocol.Inv(s) && s.t == old(db.View()) && s.clock <= now ==>
                DeliveryProtocol.Run(s, Claims(due, now)).t == db.View()
                  && DeliveryProtocol.Inv(DeliveryProtocol.Run(s, Claims(due, now)))
    {
      hide DueRows, ClaimAll, InTime, ClaimDeletion, DeliveryProtocol.Inv, DeliveryProtocol.Run, Claims;
      tasks := [];
      ghost var t := db.View();
      NoneClaimed(t, due, now);
      for i := 0 to |due|
        invariant db.View() == ClaimAll(t, due[..i], now)
        invariant InRange(t.deliveries, due[..i]) && tasks == InTime(t.deliveries, due[..i], now)
      {
        OneMoreClaimed(t, due, i, now);
        var young := ClaimOne(due[i], now);
        if young {
          tasks := tasks + [due[i]];
        }
      }
      assert due[..|due|] == due;
      AllClaimed(t, due, now);
      forall s: System | DeliveryProtocol.Inv(s) && s.t == t && s.clock <= now
        ensures DeliveryProtocol.Run(s, Claims(due, now)).t == db.View()
                && DeliveryProtocol.Inv(DeliveryProtocol.Run(s, Claims(due, now)))
      {
        ClaimsRun(s, due, now);
      }
    }

    method ClaimOne(id: RewardId, now: Time) returns (young: bool)
      requires id in db.deliveries && Due(db.deliveries[id], now)
      modifies db
      ensures db.View() == ClaimDeletion(old(db.View()), id, now) && young == !TooOld(old(db.deliveries)[id], now)
    {
      var d := db.deliveries[id];
      if d.sentAt.Some? && now - d.sentAt.value >= DELETE_WINDOW {
        db.deliveries := db.deliveries[id := d.(status := DeleteFailed, nextAttemptAt := None)];
        young := false;
      } else {
        db.deliveries := db.deliveries[id := d.(status := Deleting, deleteStartedAt := Some(now))];
        young := true;
      }
    }

    method MarkDeleted(id: RewardId, now: Time)
      modifies db
      ensures db.View() == RewardTables.MarkDeleted(old(db.View()), id, now)
    {
      if id in db.deliveries && db.deliveries[id].status.Deleting? {
        db.deliveries := db.deliveries[id := db.deliveries[id].(
          status := Deleted, deletedAt := Some(now), deleteStartedAt := None, nextAttemptAt := None)];
      }
    }

    method MarkDeleteFailed(id: RewardId)
      modifies db
      ensures db.View() == RewardTables.MarkDeleteFailed(old(db.View()), id)
    {
      if id in db.deliveries && db.deliveries[id].status.Deleting? {
        var d := db.deliveries[id];
        db.deliveries := db.deliveries[id := d.(
          status := DeleteFailed, attempts := d.attempts + 1, deleteStartedAt := None, nextAttemptAt := None)];
      }
    }

    method RescheduleDelete(id: RewardId, now: Time)
      modifies db
      ensures db.View() == RewardTables.RescheduleDelete(old(db.View()), id, now)
    {
      if id in db.deliveries && db.deliveries[id].status.Deleting? {
        var d := db.deliveries[id];
        var attempts := d.attempts + 1;
        var backoff := Min(300, 5 * Pow2(Min(attempts - 1, 6)));
        db.deliveries := db.deliveries[id := d.(
          status := Sent, attempts := attempts, deleteStartedAt := None, nextAttemptAt := Some(now + backoff))];
      }
    }

    /** The deletion worker's reaction to what Telegram answered. */
    method DeleteOne(id: RewardId, answer: DeleteAnswer, now: Time)
      modifies db
      ensures db.View() == RewardTables.DeleteOne(old(db.View()), id, answer, now)
      ensures Takes(old(db.View()), DeliveryProtocol.SettleDeletion(id, answer), now, db.View())
    {
      hide Takes;
      SettlementTakes(db.View(), id, answer, now);
      match answer {
        case DeleteOk => MarkDeleted(id, now);
        case MissingMessage => MarkDeleted(id, now);
        case OtherBadRequest => MarkDeleteFailed(id);
        case Forbidden => MarkDeleteFailed(id);
        case OtherApiError => RescheduleDelete(id, now);
      }
    }
  }
}
