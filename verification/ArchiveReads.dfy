/** What a fenced history read does: when it is applied, and how it resolves a conflict. */
module ArchiveReads {
  import opened Wrappers
  import opened Archive
  import opened ArchiveParser
  import opened ArchiveIndex
  import opened ArchiveEvidence
  import opened ArchiveSafety
  import opened ArchiveCompleteness

  // ---- When an event is recorded ----------------------------------------------------------

  /** The snapshot of the message says what the event says, as its next version and without conflict. */
  predicate SaysAnew(s: Index, t: Index, m: Message) {
    && m.id in t.snaps && t.snaps[m.id].content == m.content && t.snaps[m.id].editedAt == m.editedAt
    && !t.snaps[m.id].conflicted
    && t.snaps[m.id].version == 1 + if m.id in s.snaps then s.snaps[m.id].version else 0
  }

  // Whether what is recorded of a message is no newer than the date of an event.
  predicate NotNewer(known: Snapshot, editedAt: Option<int>) {
    known.editedAt.None? || (editedAt.Some? && known.editedAt.value <= editedAt.value)
  }

  /** A read with the current token is applied, whatever was recorded and in conflict or not, if and only if the record
      is not newer; otherwise it changes nothing. */
  lemma CurrentReadExactly(par: Parser, s: Index, m: Message)
    requires WellFormed(s) && m.id in s.snaps
    ensures var t := Step(par, s, Reread(m, s.snaps[m.id].version));
            && (SaysAnew(s, t, m) <==> NotNewer(s.snaps[m.id], m.editedAt))
            && (!NotNewer(s.snaps[m.id], m.editedAt) ==> t == s)
  {
    hide EditPoster, EditQuality, Place;
  }

  /** A read of a message not recorded yet is applied exactly with token zero, a post exactly if nothing is recorded. */
  lemma FirstRecordedExactly(par: Parser, s: Index, m: Message, token: nat)
    requires WellFormed(s)
    ensures m.id !in s.snaps ==> (SaysAnew(s, Step(par, s, Reread(m, token)), m) <==> token == 0)
    ensures m.id in s.snaps && token != s.snaps[m.id].version ==> Step(par, s, Reread(m, token)) == s
    ensures SaysAnew(s, Step(par, s, Post(m)), m) <==> m.id !in s.snaps
    ensures m.id in s.snaps ==> Step(par, s, Post(m)) == s
  {
    hide EditPoster, EditQuality, Place;
    if m.id !in s.snaps {
      NothingKnown(s, m.id);
    }
  }

  lemma NothingKnown(s: Index, id: MessageId)
    requires WellFormed(s) && id !in s.snaps
    ensures id !in s.movies && RowAt(s.rows, id).None?
  {
  }

  /** A live edit is applied if nothing is recorded, or nothing dated, or something older; with the same date and
      another content it brings the message into conflict, which keeps the content recorded; otherwise it changes
      nothing. */
  lemma EditExactly(par: Parser, s: Index, m: Message)
    requires WellFormed(s)
    ensures var t, e := Step(par, s, Edit(m)), m.editedAt;
            if m.id !in s.snaps || s.snaps[m.id].editedAt.None? then SaysAnew(s, t, m)
            else
              var known := s.snaps[m.id];
              if e.Some? && e.value > known.editedAt.value then SaysAnew(s, t, m)
              else if e == known.editedAt && m.content != known.content then
                && m.id in t.snaps && t.snaps[m.id].conflicted && t.snaps[m.id].version == known.version + 1
                && t.snaps[m.id].content == known.content && t.snaps[m.id].editedAt == known.editedAt
              else t == s
  {
    hide EditPoster, EditQuality, Place, InvalidateConflict;
  }

  // ---- What settling means ----------------------------------------------------------------

  ghost predicate NoConflictIn(s: Index, p: MessageId) {
    forall id: MessageId :: p <= id < NextPoster(s.movies, p) && id in s.snaps ==> !s.snaps[id].conflicted
  }

  ghost predicate AllNewest(par: Parser, s: Index, p: MessageId)
    requires PosterAt(par, s.snaps, p)
  {
    forall k :: k in s.rows && s.rows[k].movie == p ==>
      Newest(par, s.snaps, p, NextPoster(s.movies, p), s.rows[k].resolution, s.rows[k].messageId)
  }

  /** The movie has the rows and the status its evidence calls for: without trust in its poster, or with a conflict in
      its range, it is ambiguous. Otherwise a row says what its message says if that is the newest taken for its
      resolution, and has confidence zero if not; and the movie is orphan without rows, indexed if all its rows are
      such, else ambiguous. */
  ghost predicate AsCalledFor(par: Parser, s: Index, p: MessageId)
    requires p in s.movies
  {
    if s.movies[p].confidence <= 0 || !NoConflictIn(s, p) then s.movies[p].status.Ambiguous?
    else
      && PosterAt(par, s.snaps, p)
      && (forall k :: k in s.rows && s.rows[k].movie == p ==>
            if Newest(par, s.snaps, p, NextPoster(s.movies, p), s.rows[k].resolution, s.rows[k].messageId)
            then Evident(par, s, p, s.rows[k]) else s.rows[k].confidence == 0)
      && s.movies[p].status == if !HasRows(s.rows, p) then Orphan else if AllNewest(par, s, p) then Indexed
         else Ambiguous
  }

  lemma ConflictFree(s: Index, p: MessageId)
    requires p in s.movies
    ensures NoConflictIn(s, p) <==> Horizon(s, p) == NextPoster(s.movies, p)
  {
    hide FirstConflict, NextPoster;
    var c := Horizon(s, p);
    assert c < NextPoster(s.movies, p) ==> c in s.snaps && s.snaps[c].conflicted;
  }

  /** Settling a movie gives it what its evidence calls for. */
  lemma SettlesAsCalled(par: Parser, s: Index, p: MessageId)
    requires p in s.movies && (s.movies[p].confidence > 0 && NoConflictIn(s, p) ==> PosterAt(par, s.snaps, p))
    ensures p in Settle(par, s, p).movies && AsCalledFor(par, Settle(par, s, p), p)
  {
    hide PosterAt, Newest, Horizon, NextPoster, MovieGroup, RevalidatedRow, Evident, NoConflictIn;
    var t := Settle(par, s, p);
    SettleKeys(par, s, p);
    SettleKeepsMovies(par, s, p);
    SameNeighbours(s.movies, t.movies);
    ConflictFree(s, p);
    ConflictFree(t, p);
    SameHorizon(s, t, p);
    SettledStatus(par, s, p);
    if s.movies[p].confidence > 0 && NoConflictIn(s, p) {
      var n := NextPoster(t.movies, p);
      forall k | k in t.rows && t.rows[k].movie == p
        ensures var newest := Newest(par, t.snaps, p, n, t.rows[k].resolution, t.rows[k].messageId);
                && (Evident(par, t, p, t.rows[k]) <==> newest)
                && (newest ==> t.rows[k].confidence > 0) && (!newest ==> t.rows[k].confidence == 0)
      {
        SettledRowEvident(par, s, p, s.rows[k]);
        SettledConfidence(par, s, p, s.rows[k]);
        SettledRowIs(par, s, p, k);
        EvidentAlike(par, s, t, p, t.rows[k]);
      }
      assert HasInvalidRow(t.rows, p) <==> !AllNewest(par, t, p);
    }
  }

  lemma SettledRowIs(par: Parser, s: Index, p: MessageId, k: RowId)
    requires p in s.movies && k in s.rows && s.rows[k].movie == p
    ensures k in Settle(par, s, p).rows
    ensures Settle(par, s, p).rows[k] == RevalidatedRow(MovieGroup(par, s, p, None), s.rows[k])
  {
    hide MovieGroup, RevalidatedRow, RefreshedStatus;
  }

  lemma SameHorizon(s: Index, t: Index, p: MessageId)
    requires t.snaps == s.snaps && NextPoster(t.movies, p) == NextPoster(s.movies, p)
    ensures Horizon(t, p) == Horizon(s, p) <= NextPoster(s.movies, p)
  {
    hide NextPoster, FirstConflict;
  }

  lemma SettledStatus(par: Parser, s: Index, p: MessageId)
    requires p in s.movies
    ensures var t := Settle(par, s, p);
            && p in t.movies && t.movies[p].confidence == s.movies[p].confidence
            && t.movies[p].status == if s.movies[p].confidence <= 0 || HasInvalidRow(t.rows, p)
                                        || Horizon(s, p) < NextPoster(s.movies, p) then Ambiguous
                                     else if HasRows(t.rows, p) then Indexed else Orphan
  {
    hide MovieGroup, RevalidatedRow, FirstConflict, NextPoster;
  }

  lemma SettledConfidence(par: Parser, s: Index, p: MessageId, row: Row)
    requires InOrder(par, s, p)
    ensures var settled := RevalidatedRow(MovieGroup(par, s, p, None), row);
            if Newest(par, s.snaps, p, NextPoster(s.movies, p), row.resolution, row.messageId)
              then settled.confidence > 0
            else settled.confidence == 0
  {
    hide PosterAt, Taken, Superseded, Horizon, NextPoster, MovieGroup, ArchiveParser.Parser.Score;
    RevalidatedExactly(par, s, p, row);
  }

  // ---- A conflict resolved ----------------------------------------------------------------

  /** The message is the only one in conflict in the range it lies in. */
  ghost predicate OnlyConflict(s: Index, p: MessageId, m: MessageId) {
    && m in s.snaps && s.snaps[m].conflicted
    && forall id: MessageId :: p <= id < NextPoster(s.movies, p) && id in s.snaps && id != m ==> !s.snaps[id].conflicted
  }

  ghost predicate IsTaken(par: Parser, s: Index, after: Snapshots, p: MessageId, m: MessageId)
    requires p in s.movies
  {
    s.movies[p].confidence > 0 && PosterAt(par, after, p) && Taken(par, after, p, m)
  }

  /** The applied message brings its movie up to date: as its poster; as an attached message that is taken and meets no
      other row of its resolution; or as a message without row, unless it is a quality that is refused. */
  ghost predicate Attends(par: Parser, s: Index, m: Message, after: Snapshots, p: MessageId)
    requires p in s.movies
  {
    if m.id in s.movies then par.Detect(m.content).AsPoster?
    else if RowAt(s.rows, m.id).Some? then
      var k := RowAt(s.rows, m.id).value;
      && s.rows[k].movie == p && IsTaken(par, s, after, p, m.id)
      && !ResolutionTaken(s.rows, k, At(par, after, m.id).quality.resolution)
    else par.Detect(m.content).AsQuality? ==> IsTaken(par, s, after, p, m.id)
  }

  // What is known once a message has been recorded anew in the range of a movie.
  ghost predicate Renewed(par: Parser, s: Index, u: Index, p: MessageId, m: Message) {
    && WellFormed(s) && p in s.movies && p <= m.id < NextPoster(s.movies, p)
    && u.movies == s.movies && u.rows == s.rows && u.nextRow == s.nextRow && NoConflictIn(u, p)
    && m.id in u.snaps && u.snaps[m.id].content == m.content && !u.snaps[m.id].conflicted
    && (s.movies[p].confidence > 0 && m.id != p ==> PosterAt(par, u.snaps, p))
  }

  lemma PosterAttended(par: Parser, s: Index, u: Index, m: Message)
    requires Renewed(par, s, u, m.id, m) && par.Detect(m.content).AsPoster?
    ensures var t := EditPoster(par, u, m); m.id in t.movies && AsCalledFor(par, t, m.id)
  {
    hide AsCalledFor, Settle, NextPoster, ArchiveParser.Parser.Detect;
    var v := u.(movies := u.movies[m.id := NewMovie(m,
                                                    par.Detect(m.content).poster).(status := u.movies[m.id].status)]);
    assert EditPoster(par, u, m) == Settle(par, v, m.id);
    assert PosterAt(par, v.snaps, m.id);
    SettlesAsCalled(par, v, m.id);
  }

  lemma RowAttended(par: Parser, s: Index, u: Index, p: MessageId, k: RowId, m: Message)
    requires Renewed(par, s, u, p, m) && k in s.rows && s.rows[k].movie == p && s.rows[k].messageId == m.id
    requires IsTaken(par, s, u.snaps, p, m.id) && !ResolutionTaken(s.rows, k, At(par, u.snaps, m.id).quality.resolution)
    ensures var t := EditQuality(par, u, k, m); p in t.movies && AsCalledFor(par, t, p)
  {
    hide AsCalledFor, Settle, NextPoster, FirstConflict, PosterAt, Ended, At, MovieGroup, ItemAt, Item, NoConflictIn,
         ResolutionTaken;
    ConflictFree(u, p);
    ItemAtExactly(par, u, p, m.id);
    NotVideoNotTaken(par, u.snaps, p, m.id);
    ItemOf(par, u.snaps, p, m.id);
    var v := SetRow(u, k, NewRow(p, Item(par, u.snaps, p, m.id)).(messageId := m.id));
    assert EditQuality(par, u, k, m) == Settle(par, v, p);
    SettlesAsCalled(par, v, p);
  }

  lemma LooseAttended(par: Parser, s: Index, u: Index, p: MessageId, m: Message)
    requires Renewed(par, s, u, p, m) && m.id !in s.movies && RowAt(s.rows, m.id).None?
             && p == PrevPoster(s.movies, m.id)
    requires par.Detect(m.content).AsQuality? ==> IsTaken(par, s, u.snaps, p, m.id)
    ensures var t := Place(par, u, m); p in t.movies && AsCalledFor(par, t, p)
  {
    hide AsCalledFor, Settle, NextPoster, PrevPoster, FirstConflict, PosterAt, Ended, At, MovieGroup, ItemAt, Item,
         UpsertRow, UpsertPoster, NoConflictIn, WellFormed, ArchiveParser.Parser.Detect;
    match par.Detect(m.content)
    case AsPoster(f) =>
      var status := UpsertPosterIs(par, u, m, f);
      var v := WithPoster(u, m, f, status);
      ShorterCalm(u, v, p, m.id);
      SettlesAsCalled(par, v, p);
    case AsQuality(_) =>
      ConflictFree(u, p);
      ItemAtExactly(par, u, p, m.id);
      SettlesAsCalled(par, UpsertRow(u, p, Item(par, u.snaps, p, m.id)), p);
    case AsNoise =>
      SettlesAsCalled(par, u, p);
  }

  lemma ShorterCalm(u: Index, v: Index, p: MessageId, m: MessageId)
    requires p in u.movies && p < m < NextPoster(u.movies, p) && v.snaps == u.snaps
             && v.movies.Keys == u.movies.Keys + {m}
    requires NoConflictIn(u, p)
    ensures NoConflictIn(v, p)
  {
    hide NextPoster;
    NextWithin(u.movies, v.movies, p);
  }

  lemma NextWithin(a: Movies, b: Movies, p: MessageId)
    requires a.Keys <= b.Keys
    ensures NextPoster(b, p) <= NextPoster(a, p)
  {
    hide NextPoster;
    var n := NextPoster(a, p);
    assert n < MAX_ID ==> n in b.Keys;
  }

  lemma Renewing(par: Parser, s: Index, m: Message, p: MessageId, snap: Snapshot)
    requires WellFormed(s) && Synced(par, s) && p in s.movies && p == Owner(s, m.id) && OnlyConflict(s, p, m.id)
    requires snap.content == m.content && !snap.conflicted
    ensures Renewed(par, s, SetSnap(s, m.id, snap), p, m)
  {
    hide NextPoster, PrevPoster, ArchiveParser.Parser.Detect, WellFormed;
    OwnerRange(s, m.id);
    assert s.movies[p].confidence > 0 ==> SyncedAt(par, s, p);
  }

  /** Reading the only message in conflict of a movie's range again, with its token and no older date, leaves no
      conflict in the range; and if it is one that brings its movie up to date, the movie gets the rows and the status
      its evidence calls for. Otherwise the movie is ambiguous, or is left as it was. */
  lemma ConflictResolved(par: Parser, s: Index, m: Message)
    requires WellFormed(s) && Synced(par, s) && Owner(s, m.id) > 0 && OnlyConflict(s, Owner(s, m.id), m.id)
    requires NotNewer(s.snaps[m.id], m.editedAt)
    ensures Owner(s, m.id) in s.movies
    ensures var t, p := Step(par, s, Reread(m, s.snaps[m.id].version)), Owner(s, m.id);
            && p in t.movies && NoConflictIn(t, p) && t.snaps.Keys == s.snaps.Keys
            && t.snaps[m.id].content == m.content && !t.snaps[m.id].conflicted
            && if Attends(par, s, m, t.snaps, p) then AsCalledFor(par, t, p)
               else t.movies[p].status.Ambiguous? || (t.movies[p] == s.movies[p] && SameRowsOf(s.rows, t.rows, p))
  {
    hide Attends, AsCalledFor, NoConflictIn, EditPoster, EditQuality, Place, NextPoster, PrevPoster, WellFormed,
         PosterAt;
    OwnerRange(s, m.id);
    var p, e := Owner(s, m.id), Reread(m, s.snaps[m.id].version);
    var snap := Snapshot(m.content, m.editedAt, false, s.snaps[m.id].version + 1);
    var u, t := SetSnap(s, m.id, snap), Step(par, s, e);
    ReadApplied(par, s, m);
    Renewing(par, s, m, p, snap);
    if m.id in s.movies {
      ResolvedPoster(par, s, u, m);
    } else if RowAt(s.rows, m.id).Some? {
      ResolvedRow(par, s, u, p, RowAt(s.rows, m.id).value, m);
    } else {
      ResolvedLoose(par, s, u, p, m);
    }
    CalmStays(u, t, p);
  }

  lemma ReadApplied(par: Parser, s: Index, m: Message)
    requires WellFormed(s) && m.id in s.snaps && NotNewer(s.snaps[m.id], m.editedAt)
    ensures var u := SetSnap(s, m.id, Snapshot(m.content, m.editedAt, false, s.snaps[m.id].version + 1));
            && WellFormed(u)
            && Step(par, s, Reread(m, s.snaps[m.id].version))
               == if m.id in s.movies then EditPoster(par, u, m)
                  else if RowAt(s.rows, m.id).Some? then EditQuality(par, u, RowAt(s.rows, m.id).value, m)
                  else Place(par, u, m)
  {
    hide EditPoster, EditQuality, Place;
  }

  // A resolved range stays free of conflicts.
  lemma CalmStays(u: Index, t: Index, p: MessageId)
    requires t.snaps == u.snaps && u.movies.Keys <= t.movies.Keys && NoConflictIn(u, p)
    ensures NoConflictIn(t, p)
  {
    hide NextPoster;
    NextWithin(u.movies, t.movies, p);
  }

  lemma ResolvedPoster(par: Parser, s: Index, u: Index, m: Message)
    requires WellFormed(s) && m.id in s.movies && Renewed(par, s, u, m.id, m)
    ensures var t := EditPoster(par, u, m);
            && t.snaps == u.snaps && t.movies.Keys == u.movies.Keys && Owner(s, m.id) == m.id
            && if Attends(par, s, m, u.snaps, m.id) then AsCalledFor(par, t, m.id) else t.movies[m.id].status.Ambiguous?
  {
    hide AsCalledFor, Settle, WellFormed, NextPoster, PosterAt, NoConflictIn, ArchiveParser.Parser.Detect;
    EditPosterKeys(par, u, m);
    if par.Detect(m.content).AsPoster? {
      PosterAttended(par, s, u, m);
    }
  }

  lemma ResolvedRow(par: Parser, s: Index, u: Index, p: MessageId, k: RowId, m: Message)
    requires Renewed(par, s, u, p, m) && m.id !in s.movies && RowAt(s.rows, m.id) == Some(k)
    ensures var t := EditQuality(par, u, k, m);
            && s.rows[k].movie in s.movies && t.snaps == u.snaps && t.movies.Keys == u.movies.Keys && p in t.movies
            && if Attends(par, s, m, u.snaps, p) then AsCalledFor(par, t, p)
               else t.movies[p].status.Ambiguous? || (t.movies[p] == s.movies[p] && SameRowsOf(s.rows, t.rows, p))
  {
    hide AsCalledFor, EditQuality, IsTaken, NextPoster, NoConflictIn, PosterAt, ResolutionTaken, At;
    RowKnown(s, k);
    EditQualityKeys(par, u, k, m);
    if s.rows[k].movie != p {
      EditQualityUntouched(par, u, k, m, p);
    } else if Attends(par, s, m, u.snaps, p) {
      RowAttended(par, s, u, p, k, m);
    } else {
      RowLost(par, s, u, p, k, m);
    }
  }

  lemma RowLost(par: Parser, s: Index, u: Index, p: MessageId, k: RowId, m: Message)
    requires Renewed(par, s, u, p, m) && k in s.rows && s.rows[k].movie == p && s.rows[k].messageId == m.id
    requires IsTaken(par, s, u.snaps, p, m.id) ==> ResolutionTaken(s.rows, k, At(par, u.snaps, m.id).quality.resolution)
    ensures var t := EditQuality(par, u, k, m); p in t.movies && t.movies[p].status.Ambiguous?
  {
    hide Settle, NextPoster, FirstConflict, PosterAt, Ended, At, MovieGroup, ItemAt, Item, NoConflictIn,
         ResolutionTaken;
    ConflictFree(u, p);
    RowKnown(s, k);
    if u.movies[p].confidence > 0 {
      ItemAtExactly(par, u, p, m.id);
      NotVideoNotTaken(par, u.snaps, p, m.id);
      if Taken(par, u.snaps, p, m.id) {
        SameOrOther(s.rows, k, At(par, u.snaps, m.id).quality.resolution);
        ItemOf(par, u.snaps, p, m.id);
      }
    } else {
      NoItem(par, u, p, m.id);
    }
  }

  lemma NoItem(par: Parser, u: Index, p: MessageId, id: MessageId)
    requires p in u.movies && u.movies[p].confidence <= 0
    ensures ItemAt(MovieGroup(par, u, p, Some(id)), id).None?
  {
  }

  lemma ResolvedLoose(par: Parser, s: Index, u: Index, p: MessageId, m: Message)
    requires Renewed(par, s, u, p, m) && m.id !in s.movies && RowAt(s.rows, m.id).None? && p == Owner(s, m.id)
             && WellFormed(u)
    ensures var t := Place(par, u, m);
            && t.snaps == u.snaps && u.movies.Keys <= t.movies.Keys && p in t.movies
            && if Attends(par, s, m, u.snaps, p) then AsCalledFor(par, t, p)
               else t.movies[p].status.Ambiguous? || (t.movies[p] == s.movies[p] && SameRowsOf(s.rows, t.rows, p))
  {
    hide AsCalledFor, NextPoster, PrevPoster, FirstConflict, NoConflictIn, PosterAt, Ended, At, MovieGroup, ItemAt,
         Settle, UpsertPoster, UpsertRow, ArchiveParser.Parser.Detect;
    OwnerBefore(s, m.id);
    PlaceKeys(par, u, m);
    if Attends(par, s, m, u.snaps, p) {
      LooseAttended(par, s, u, p, m);
    } else {
      ConflictFree(u, p);
      if u.movies[p].confidence > 0 {
        ItemAtExactly(par, u, p, m.id);
      } else {
        NoItem(par, u, p, m.id);
      }
      assert Place(par, u, m) == u;
    }
  }

  lemma PlaceKeys(par: Parser, s: Index, m: Message)
    requires m.id !in s.movies
    ensures s.movies.Keys <= Place(par, s, m).movies.Keys
  {
    hide Settle, PrevPoster, UpsertPoster, UpsertRow, MovieGroup, ItemAt, ArchiveParser.Parser.Detect;
    var p := PrevPoster(s.movies, m.id);
    match par.Detect(m.content)
    case AsPoster(f) =>
      var status := UpsertPosterIs(par, s, m, f);
      if p > 0 {
        SettleKeys(par, WithPoster(s, m, f, status), p);
      }
    case AsQuality(_) =>
      if p > 0 && ItemAt(MovieGroup(par, s, p, Some(m.id)), m.id).Some? {
        SettleKeys(par, UpsertRow(s, p, ItemAt(MovieGroup(par, s, p, Some(m.id)), m.id).value), p);
      }
    case AsNoise =>
      if p > 0 {
        SettleKeys(par, s, p);
      }
  }

  // ---- What is lost -----------------------------------------------------------------------

  /** A conflict takes the trust from the movie whose poster it concerns, or from the row, whose movie becomes
      ambiguous, and from nothing else; a message without row makes the movie it lies in ambiguous. */
  lemma ConflictLaws(par: Parser, s: Index, e: Event)
    requires WellFormed(s) && EventRecord(s, e).0.Conflict?
    ensures var t, m := Step(par, s, e), e.m.id;
            && m in t.snaps && t.snaps[m].conflicted
            && if m in s.movies then
                 && t.movies == s.movies[m := s.movies[m].(confidence := 0, status := Ambiguous)] && t.rows == s.rows
               else if k: RowId :| k in s.rows && s.rows[k].messageId == m then
                 && s.rows[k].movie in s.movies && t.rows == s.rows[k := s.rows[k].(confidence := 0)]
                 && t.movies == s.movies[s.rows[k].movie := s.movies[s.rows[k].movie].(status := Ambiguous)]
               else if Owner(s, m) == 0 then t.movies == s.movies && t.rows == s.rows
               else Owner(s, m) in t.movies && t.movies[Owner(s, m)].status.Ambiguous?
  {
    hide Settle, NextPoster, PrevPoster, FirstConflict;
    var m, u := e.m.id, SetSnap(s, e.m.id, EventRecord(s, e).1.value);
    if m !in s.movies && RowAt(s.rows, m).None? {
      OwnerBefore(s, m);
      if Owner(s, m) > 0 {
        OwnerRange(s, m);
        SettledStatus(par, u, Owner(s, m));
        assert u.movies == s.movies && m in u.snaps && u.snaps[m].conflicted;
        assert Horizon(u, Owner(s, m)) <= m < NextPoster(s.movies, Owner(s, m));
      }
    }
  }

  /** A poster edited into something else keeps its movie, without trust, under its new caption; its rows stay. */
  lemma PosterLostExactly(par: Parser, s: Index, m: Message)
    requires m.id in s.movies && !par.Detect(m.content).AsPoster?
    ensures var t, movie := EditPoster(par, s, m), s.movies[m.id];
            && t.rows == s.rows && t.snaps == s.snaps
            && t.movies == s.movies[m.id := Movie(movie.displayTitle, movie.normalizedTitle, movie.year, movie.style,
                                                  m.content.CaptionText(), Ambiguous, 0)]
  {
  }

  /** An attached message that is not taken any more loses its row's title and trust; one that meets another row of its
      new resolution loses the trust only. The movie becomes ambiguous, nothing else changes. */
  lemma RowLostExactly(par: Parser, s: Index, p: MessageId, k: RowId, m: Message)
    requires WellFormed(s) && InOrder(par, s, p) && k in s.rows && s.rows[k].movie == p && s.rows[k].messageId == m.id
    requires m.id in s.snaps && s.snaps[m.id].content == m.content && !s.snaps[m.id].conflicted
             && m.id < NextPoster(s.movies, p)
    ensures var t, row := EditQuality(par, s, k, m), s.rows[k];
            && (!Taken(par, s.snaps, p, m.id) ==>
                  && t.rows == s.rows[k := Row(p, m.id, row.resolution, m.content.CaptionText(), None, None, None, 0)]
                  && t.movies == s.movies[p := s.movies[p].(status := Ambiguous)])
            && (Taken(par, s.snaps, p, m.id)
                && ResolutionTaken(s.rows, k, At(par, s.snaps, m.id).quality.resolution) ==>
                  && t.rows == s.rows[k := Row(p, m.id, row.resolution, m.content.CaptionText(), row.title,
                                               row.normalizedTitle, row.year, 0)]
                  && t.movies == s.movies[p := s.movies[p].(status := Ambiguous)])
  {
    hide Settle, NextPoster, FirstConflict, PosterAt, Ended, At, MovieGroup, ItemAt, Item, ResolutionTaken;
    RowKnown(s, k);
    ItemAtExactly(par, s, p, m.id);
    NotVideoNotTaken(par, s.snaps, p, m.id);
    if Taken(par, s.snaps, p, m.id) {
      SameOrOther(s.rows, k, At(par, s.snaps, m.id).quality.resolution);
      ItemOf(par, s.snaps, p, m.id);
    }
  }

  /** Movies and rows show what the parser has found, each thing in its own column. */
  lemma ColumnsKept(m: Message, f: PosterFields, p: MessageId, q: ParsedQuality)
    ensures NewMovie(m, f) == Movie(f.displayTitle, f.normalizedTitle, f.year, f.style, m.content.CaptionText(),
                                    Pending,
                                    f.confidence)
    ensures NewRow(p, q) == Row(p, q.messageId, q.resolution, q.rawCaption, q.rawTitle, q.normalizedTitle, q.year,
                                q.confidence)
  {
  }
}
