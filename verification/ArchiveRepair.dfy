/** What reading the archive again puts right, and what no run ever does. */
module ArchiveRepair {
  import opened Wrappers
  import opened Archive
  import opened ArchiveParser
  import opened ArchiveIndex
  import opened ArchiveEvidence
  import opened ArchiveSafety
  import opened ArchiveCompleteness

  // ---- A row beyond the range of its movie ------------------------------------------------

  /** A later poster has taken over the range in which the row's message lies. */
  ghost predicate Beyond(s: Index, k: RowId, q: MessageId, id: MessageId) {
    && q in s.movies && k in s.rows && s.rows[k].movie == q && s.rows[k].messageId == id
       && NextPoster(s.movies, q) <= id
  }

  ghost predicate KeepsRows(s: Index, t: Index) {
    && s.movies.Keys <= t.movies.Keys
    && forall k :: k in s.rows ==>
       k in t.rows && t.rows[k].movie == s.rows[k].movie && t.rows[k].messageId == s.rows[k].messageId
  }

  lemma NextNearer(a: Movies, b: Movies, q: MessageId)
    requires a.Keys <= b.Keys
    ensures NextPoster(b, q) <= NextPoster(a, q)
  {
    hide NextPoster;
    var n := NextPoster(a, q);
    assert n < MAX_ID ==> n in b.Keys;
  }

  lemma KeptBeyond(s: Index, t: Index, k: RowId, q: MessageId, id: MessageId)
    requires Beyond(s, k, q, id) && KeepsRows(s, t)
    ensures Beyond(t, k, q, id)
  {
    hide NextPoster;
    NextNearer(s.movies, t.movies, q);
    assert q in t.movies.Keys;
  }

  lemma SettleKeepsRows(par: Parser, s: Index, p: MessageId)
    requires p in s.movies
    ensures KeepsRows(s, Settle(par, s, p))
  {
    hide Settle;
    SettleKeepsMovies(par, s, p);
    SettleKeys(par, s, p);
  }

  lemma BoundaryKeepsRows(par: Parser, s: Index, id: MessageId)
    ensures KeepsRows(s, Boundary(par, s, id))
  {
    hide Settle, PrevPoster, KeepsRows;
    var p := PrevPoster(s.movies, id);
    RowsKeepThemselves(s);
    if p > 0 {
      SettleKeepsRows(par, s, p);
    }
  }

  lemma RowsKeepThemselves(s: Index)
    ensures KeepsRows(s, s)
  {
  }

  lemma EditPosterKeepsRows(par: Parser, s: Index, m: Message)
    requires m.id in s.movies
    ensures KeepsRows(s, EditPoster(par, s, m))
  {
    hide MovieGroup, RefreshedStatus, Holds, ArchiveParser.Parser.Detect;
    EditPosterKeys(par, s, m);
  }

  lemma EditQualityKeepsRows(par: Parser, s: Index, k: RowId, m: Message)
    requires k in s.rows && s.rows[k].movie in s.movies && s.rows[k].messageId == m.id
    ensures KeepsRows(s, EditQuality(par, s, k, m))
  {
    hide MovieGroup, RefreshedStatus, Holds, ItemAt, ResolutionTaken;
    EditQualityKeys(par, s, k, m);
  }

  lemma InvalidateKeepsRows(par: Parser, s: Index, id: MessageId)
    requires WellFormed(s)
    ensures KeepsRows(s, InvalidateConflict(par, s, id))
  {
    hide Boundary;
    KeysAfterConflict(par, s, id);
    BoundaryKeepsRows(par, s, id);
  }

  lemma UpsertPosterKeepsRows(par: Parser, s: Index, m: Message, f: PosterFields)
    requires m.id !in s.movies
    ensures KeepsRows(s, UpsertPoster(par, s, m, f))
  {
    hide Settle, UpsertPoster, PrevPoster;
    var status := UpsertPosterIs(par, s, m, f);
    var t, p := WithPoster(s, m, f, status), PrevPoster(s.movies, m.id);
    assert KeepsRows(s, t);
    if p > 0 {
      SettleKeepsRows(par, t, p);
    }
  }

  lemma UpsertQualityBeyond(par: Parser, s: Index, m: Message, k: RowId, q: MessageId, id: MessageId)
    requires WellFormed(s) && Beyond(s, k, q, id) && m.id !in s.movies
    ensures Beyond(UpsertQuality(par, s, m), k, q, id)
  {
    hide Settle, MovieGroup, PrevPoster, NextPoster, ItemAt;
    OwnerBefore(s, m.id);
    var p := PrevPoster(s.movies, m.id);
    if p > 0 {
      OwnerRange(s, m.id);
      var item := ItemAt(MovieGroup(par, s, p, Some(m.id)), m.id);
      if item.Some? {
        var t := UpsertRow(s, p, item.value);
        assert item.value.messageId == m.id;
        assert s.nextRow !in s.rows;
        assert Beyond(t, k, q, id);
        SettleKeepsRows(par, t, p);
        KeptBeyond(t, Settle(par, t, p), k, q, id);
      }
    }
  }

  lemma PlaceBeyond(par: Parser, s: Index, m: Message, k: RowId, q: MessageId, id: MessageId)
    requires WellFormed(s) && Beyond(s, k, q, id) && m.id !in s.movies
    ensures Beyond(Place(par, s, m), k, q, id)
  {
    hide WellFormed, Beyond, KeepsRows, UpsertPoster, UpsertQuality, Boundary, ArchiveParser.Parser.Detect;
    match par.Detect(m.content)
    case AsPoster(f) =>
      UpsertPosterKeepsRows(par, s, m, f);
      KeptBeyond(s, UpsertPoster(par, s, m, f), k, q, id);
    case AsQuality(_) =>
      UpsertQualityBeyond(par, s, m, k, q, id);
    case AsNoise =>
      BoundaryKeepsRows(par, s, m.id);
      KeptBeyond(s, Boundary(par, s, m.id), k, q, id);
  }

  lemma StepBeyond(par: Parser, s: Index, e: Event, k: RowId, q: MessageId, id: MessageId)
    requires WellFormed(s) && Beyond(s, k, q, id)
    ensures Beyond(Step(par, s, e), k, q, id)
  {
    hide WellFormed, Beyond, KeepsRows, EditPoster, EditQuality, Place, InvalidateConflict;
    var m := e.m;
    var (outcome, snap) := EventRecord(s, e);
    if !outcome.Stale? {
      var u := SetSnap(s, m.id, snap.value);
      RecordedShape(s, m.id, snap.value);
      RecordedBeyond(s, m.id, snap.value, k, q, id);
      if m.id in s.movies || RowAt(s.rows, m.id).Some? {
        KnownRecorded(s, m.id);
      }
      if outcome.Conflict? {
        InvalidateKeepsRows(par, u, m.id);
        KeptBeyond(u, InvalidateConflict(par, u, m.id), k, q, id);
      } else if m.id in s.movies {
        EditPosterKeepsRows(par, u, m);
        KeptBeyond(u, EditPoster(par, u, m), k, q, id);
      } else if RowAt(s.rows, m.id).Some? {
        var j := RowAt(s.rows, m.id).value;
        RowKnown(s, j);
        EditQualityKeepsRows(par, u, j, m);
        KeptBeyond(u, EditQuality(par, u, j, m), k, q, id);
      } else {
        PlaceBeyond(par, u, m, k, q, id);
      }
    }
  }

  lemma RecordedBeyond(s: Index, i: MessageId, snap: Snapshot, k: RowId, q: MessageId, id: MessageId)
    requires Beyond(s, k, q, id)
    ensures Beyond(SetSnap(s, i, snap), k, q, id)
  {
  }

  /** Once a later poster has taken over the range of a row, the row keeps its movie and its message in every run; so
      the message never gets a row with the later movie, and the index never again has exactly the parser's rows. */
  lemma {:induction false} TakenOverForever(par: Parser, s: Index, es: seq<Event>, k: RowId, q: MessageId,
                                            id: MessageId)
    requires WellFormed(s) && Beyond(s, k, q, id)
    ensures var t := Run(par, s, es);
            Beyond(t, k, q, id) && !AllExact(par, t) && forall p: MessageId :: p != q ==> !HasRowAt(t.rows, p, id)
    decreases |es|
  {
    hide WellFormed, Step, Beyond, AllExact;
    if es == [] {
      BeyondNotExact(par, s, k, q, id);
    } else {
      StepBeyond(par, s, es[0], k, q, id);
      StepWellFormed(par, s, es[0]);
      TakenOverForever(par, Step(par, s, es[0]), es[1..], k, q, id);
    }
  }

  lemma BeyondNotExact(par: Parser, s: Index, k: RowId, q: MessageId, id: MessageId)
    requires WellFormed(s) && Beyond(s, k, q, id)
    ensures !AllExact(par, s) && forall p: MessageId :: p != q ==> !HasRowAt(s.rows, p, id)
  {
    hide Taken, Superseded, NextPoster;
    assert !Exact(par, s, q);
  }

  // ---- Reading the archive again ----------------------------------------------------------

  /** The row's message is taken for the row's resolution, if perhaps not as the newest. */
  predicate TakenRow(par: Parser, snaps: Snapshots, p: MessageId, row: Row)
    requires PosterAt(par, snaps, p)
  {
    Taken(par, snaps, p, row.messageId) && At(par, snaps, row.messageId).quality.resolution == row.resolution
  }

  ghost predicate RowsTaken(par: Parser, s: Index, p: MessageId)
    requires PosterAt(par, s.snaps, p)
  {
    forall k :: k in s.rows && s.rows[k].movie == p ==>
      TakenRow(par, s.snaps, p, s.rows[k]) && s.rows[k].messageId < NextPoster(s.movies, p)
  }

  /** No row of the movie is wrong, though some may be missing, or lag behind a later message that is still without one.
      */
  ghost predicate Mendable(par: Parser, s: Index, p: MessageId) {
    && InOrder(par, s, p) && RowsTaken(par, s, p)
    && forall k :: k in s.rows && s.rows[k].movie == p ==>
         (Newest(par, s.snaps, p, NextPoster(s.movies, p), s.rows[k].resolution, s.rows[k].messageId) ==>
          Evident(par, s, p, s.rows[k]))
  }

  /** The rows of a safe movie are mendable. */
  lemma SafeIsMendable(par: Parser, s: Index, p: MessageId)
    requires p in s.movies && s.movies[p].status.Indexed? && MovieSafe(par, s, p)
    ensures Mendable(par, s, p)
  {
    hide MovieGroup, Horizon, NextPoster, Ended, At, Superseded, PosterAt, Backed, Item;
    IndexedHasPoster(par, s, p);
    forall k | k in s.rows && s.rows[k].movie == p
      ensures Evident(par, s, p, s.rows[k])
    {
      RowEvident(par, s, p, k);
    }
  }

  /** No row of another movie is attached to the message. */
  ghost predicate OnlyHere(rows: Rows, p: MessageId, id: MessageId) {
    forall k :: k in rows && rows[k].messageId == id ==> rows[k].movie == p
  }

  ghost predicate StandsIn(par: Parser, s: Index, p: MessageId, id: MessageId) {
    && p in s.movies && PosterAt(par, s.snaps, p) && Stands(par, s.snaps, p, NextPoster(s.movies, p), id)
  }

  /** From s to t the movie stays mendable, and loses nothing. */
  ghost predicate Mends(par: Parser, s: Index, t: Index, p: MessageId) {
    && Mendable(par, t, p) && SnapsAgree(s.snaps, t.snaps, 1, MAX_ID)
    && (forall id: MessageId :: StandsIn(par, t, p, id) <==> StandsIn(par, s, p, id))
    && (forall id: MessageId :: StandsIn(par, s, p, id) && HasRowAt(s.rows, p, id) ==> HasRowAt(t.rows, p, id))
    && (forall id: MessageId :: StandsIn(par, s, p, id) && OnlyHere(s.rows, p, id) ==> OnlyHere(t.rows, p, id))
  }

  lemma MendsTwice(par: Parser, s: Index, u: Index, t: Index, p: MessageId)
    requires Mends(par, s, u, p) && Mends(par, u, t, p)
    ensures Mends(par, s, t, p)
  {
    hide Mendable, StandsIn, HasRowAt, OnlyHere;
  }

  // Recording what is recorded already.
  ghost predicate SameContents(s: Index, u: Index) {
    u.movies == s.movies && u.rows == s.rows && u.nextRow == s.nextRow && SnapsAgree(s.snaps, u.snaps, 1, MAX_ID)
  }

  lemma SameContentsMend(par: Parser, s: Index, u: Index, p: MessageId)
    requires Mendable(par, s, p) && SameContents(s, u)
    ensures Mends(par, s, u, p)
  {
    hide PosterAt, Newest, Taken, At, Item, NextPoster, FirstConflict, Evident;
    var n := NextPoster(s.movies, p);
    ConflictFrame(s.snaps, u.snaps, p, n);
    SamePosterThere(par, s.snaps, u.snaps, p, n);
    forall id: MessageId
      ensures Stands(par, u.snaps, p, n, id) <==> Stands(par, s.snaps, p, n, id)
    {
      SameStands(par, s.snaps, u.snaps, p, n, id);
    }
    forall k | k in s.rows && s.rows[k].movie == p
      ensures TakenRow(par, u.snaps, p, s.rows[k])
      ensures Newest(par, u.snaps, p, n, s.rows[k].resolution, s.rows[k].messageId) ==> Evident(par, u, p, s.rows[k])
    {
      SameTaken(par, s.snaps, u.snaps, p, MAX_ID, s.rows[k].messageId);
      SameNewest(par, s.snaps, u.snaps, p, n, s.rows[k].resolution, s.rows[k].messageId);
      if Newest(par, u.snaps, p, n, s.rows[k].resolution, s.rows[k].messageId) {
        SameEvident(par, s, u, p, s.rows[k]);
      }
    }
  }

  lemma SameStands(par: Parser, a: Snapshots, b: Snapshots, p: MessageId, n: int, id: MessageId)
    requires PosterAt(par, a, p) && PosterAt(par, b, p) && n <= MAX_ID && SnapsAgree(a, b, p, n)
    ensures Stands(par, b, p, n, id) <==> Stands(par, a, p, n, id)
  {
    hide PosterAt, Ended, At, Superseded, SnapsAgree;
    if id < n {
      SameTaken(par, a, b, p, n, id);
      if Taken(par, a, p, id) {
        SameNewest(par, a, b, p, n, At(par, a, id).quality.resolution, id);
      }
    }
  }

  lemma {:induction false} SameDistance(a: Snapshots, b: Snapshots, p: MessageId, id: int)
    requires id < MAX_ID && SnapsAgree(a, b, 1, MAX_ID)
    ensures Distance(a, p, id) == Distance(b, p, id)
    decreases id
  {
    if id > p {
      SameDistance(a, b, p, id - 1);
      var i: MessageId := id;
      assert i in a <==> i in b;
    }
  }

  lemma SameEvident(par: Parser, s: Index, u: Index, p: MessageId, row: Row)
    requires PosterAt(par, s.snaps, p) && PosterAt(par, u.snaps, p) && Evident(par, s, p, row) && SameContents(s, u)
    requires Newest(par, u.snaps, p, NextPoster(s.movies, p), row.resolution, row.messageId)
    ensures Evident(par, u, p, row)
  {
    hide Ended, Superseded, ArchiveParser.Parser.Detect, ArchiveParser.Parser.Score, NextPoster;
    SameDistance(s.snaps, u.snaps, p, row.messageId);
    SameAt(par, s.snaps, u.snaps, p);
    SameAt(par, s.snaps, u.snaps, row.messageId);
  }

  lemma SettleMends(par: Parser, s: Index, p: MessageId)
    requires InOrder(par, s, p) && RowsTaken(par, s, p)
    ensures Mends(par, s, Settle(par, s, p), p) && KeepsRows(s, Settle(par, s, p))
  {
    hide PosterAt, Newest, Taken, At, Horizon, NextPoster, MovieGroup, RevalidatedRow, Evident, RefreshedStatus;
    var t := Settle(par, s, p);
    SettleKeepsMovies(par, s, p);
    SettleKeys(par, s, p);
    SettleKeepsRows(par, s, p);
    SameEvidence(par, s, t, p);
    forall k | k in t.rows && t.rows[k].movie == p
      ensures TakenRow(par, t.snaps, p, t.rows[k]) && t.rows[k].messageId < NextPoster(t.movies, p)
      ensures Newest(par, t.snaps, p, NextPoster(t.movies, p), t.rows[k].resolution, t.rows[k].messageId) ==>
              Evident(par, t, p, t.rows[k])
    {
      SettledRowEvident(par, s, p, s.rows[k]);
      EvidentAlike(par, s, t, p, t.rows[k]);
    }
  }

  // Rows attached as before, or to the message with the movie in whose range it lies.
  ghost predicate RowsMove(s: Index, t: Index, m: MessageId) {
    forall k :: k in t.rows ==>
      || (k in s.rows && t.rows[k].movie == s.rows[k].movie && t.rows[k].messageId == s.rows[k].messageId)
      || (t.rows[k].movie == PrevPoster(s.movies, m) && t.rows[k].messageId == m && m !in s.movies)
  }

  lemma OnlyHereStays(par: Parser, s: Index, t: Index, p: MessageId, m: MessageId, id: MessageId)
    requires RowsMove(s, t, m) && StandsIn(par, s, p, id) && OnlyHere(s.rows, p, id)
    ensures OnlyHere(t.rows, p, id)
  {
    hide NextPoster, PrevPoster, At, Ended, Superseded, PosterAt;
    assert p < id < NextPoster(s.movies, p);
    InRangeOf(s, p, id);
    if id == m && m !in s.movies {
      OwnerBefore(s, m);
    }
  }

  // A step that does not concern the movie.
  lemma UntouchedMends(par: Parser, s: Index, t: Index, p: MessageId, m: MessageId)
    requires Mendable(par, s, p) && Untouched(s, t, p) && t.snaps == s.snaps && RowsMove(s, t, m)
    ensures Mends(par, s, t, p)
  {
    hide PosterAt, Newest, Taken, At, Item, NextPoster, FirstConflict, RowsMove;
    forall id: MessageId | StandsIn(par, s, p, id) && OnlyHere(s.rows, p, id)
      ensures OnlyHere(t.rows, p, id)
    {
      OnlyHereStays(par, s, t, p, m, id);
    }
  }

  // The poster itself.
  lemma PosterMends(par: Parser, s: Index, m: Message)
    requires Mendable(par, s, m.id) && m.id in s.snaps && s.snaps[m.id].content == m.content
             && !s.snaps[m.id].conflicted
    ensures Mends(par, s, EditPoster(par, s, m), m.id)
  {
    hide Newest, Taken, Item, NextPoster, FirstConflict, Settle, ArchiveParser.Parser.Detect;
    var p := m.id;
    assert par.Detect(m.content).AsPoster?;
    var v := s.(movies := s.movies[p := NewMovie(m, par.Detect(m.content).poster).(status := s.movies[p].status)]);
    assert v.movies.Keys == s.movies.Keys;
    SameNeighbours(s.movies, v.movies);
    hide At, PosterAt;
    SettleMends(par, v, p);
  }

  // A row of the movie.
  lemma AttachedMends(par: Parser, s: Index, p: MessageId, k: RowId, m: Message)
    requires WellFormed(s) && Mendable(par, s, p) && k in s.rows && s.rows[k].movie == p && s.rows[k].messageId == m.id
    requires m.id in s.snaps && s.snaps[m.id].content == m.content && !s.snaps[m.id].conflicted
    ensures Mends(par, s, EditQuality(par, s, k, m), p) && KeepsRows(s, EditQuality(par, s, k, m))
  {
    hide PosterAt, Ended, Item, NextPoster, FirstConflict, Settle, MovieGroup, ItemAt, Superseded, ResolutionTaken,
         ArchiveParser.Parser.Detect;
    assert TakenRow(par, s.snaps, p, s.rows[k]);
    ItemAtExactly(par, s, p, m.id);
    NotVideoNotTaken(par, s.snaps, p, m.id);
    ItemOf(par, s.snaps, p, m.id);
    var v := SetRow(s, k, NewRow(p, Item(par, s.snaps, p, m.id)).(messageId := m.id));
    assert EditQuality(par, s, k, m) == Settle(par, v, p);
    hide At, Taken, WellFormed, EditQuality;
    SetRowMends(par, s, p, k, v);
    SettleMends(par, v, p);
    MendsFrom(par, s, v, Settle(par, v, p), p);
    KeepsTwice(s, v, Settle(par, v, p));
  }

  // As Mends, but the rows need not have been settled yet.
  ghost predicate Prepares(par: Parser, s: Index, v: Index, p: MessageId) {
    && InOrder(par, v, p) && RowsTaken(par, v, p) && SnapsAgree(s.snaps, v.snaps, 1, MAX_ID)
    && (forall id: MessageId :: StandsIn(par, v, p, id) <==> StandsIn(par, s, p, id))
    && (forall id: MessageId :: StandsIn(par, s, p, id) && HasRowAt(s.rows, p, id) ==> HasRowAt(v.rows, p, id))
    && (forall id: MessageId :: StandsIn(par, s, p, id) && OnlyHere(s.rows, p, id) ==> OnlyHere(v.rows, p, id))
  }

  lemma MendsFrom(par: Parser, s: Index, v: Index, t: Index, p: MessageId)
    requires Prepares(par, s, v, p) && Mends(par, v, t, p)
    ensures Mends(par, s, t, p)
  {
    hide Mendable, StandsIn, HasRowAt, OnlyHere, InOrder, RowsTaken;
  }

  lemma KeepsTwice(s: Index, u: Index, t: Index)
    requires KeepsRows(s, u) && KeepsRows(u, t)
    ensures KeepsRows(s, t)
  {
  }

  lemma SetRowMends(par: Parser, s: Index, p: MessageId, k: RowId, v: Index)
    requires Mendable(par, s, p) && k in s.rows && k in v.rows && v == SetRow(s, k, v.rows[k])
    requires v.rows[k].movie == s.rows[k].movie == p && v.rows[k].messageId == s.rows[k].messageId
    requires v.rows[k].resolution == s.rows[k].resolution
    ensures Prepares(par, s, v, p) && KeepsRows(s, v)
  {
    hide PosterAt, Taken, Newest, NextPoster, FirstConflict, At;
    assert TakenRow(par, s.snaps, p, s.rows[k]);
    forall id: MessageId | HasRowAt(s.rows, p, id)
      ensures HasRowAt(v.rows, p, id)
    {
      var j :| j in s.rows && s.rows[j].movie == p && s.rows[j].messageId == id;
      assert j in v.rows && v.rows[j].movie == p && v.rows[j].messageId == id;
    }
  }

  // A quality without row.
  lemma PlacedPrepares(par: Parser, s: Index, p: MessageId, m: MessageId)
    requires WellFormed(s) && Mendable(par, s, p) && p == PrevPoster(s.movies, m) && m !in s.movies
             && m < NextPoster(s.movies, p)
    requires RowAt(s.rows, m).None? && Taken(par, s.snaps, p, m)
    ensures var v := UpsertRow(s, p, Item(par, s.snaps, p, m));
            Prepares(par, s, v, p) && RowsMove(s, v, m) && (StandsIn(par, s, p, m) ==> HasRowAt(v.rows, p, m))
  {
    hide PosterAt, Ended, NextPoster, PrevPoster, FirstConflict, At, Superseded, Item, WellFormed, Evident;
    var item := Item(par, s.snaps, p, m);
    ItemOf(par, s.snaps, p, m);
    var v, known := UpsertRow(s, p, item), RowOf(s.rows, p, item.resolution);
    FreeRow(s);
    forall id: MessageId | StandsIn(par, s, p, id) && HasRowAt(s.rows, p, id)
      ensures HasRowAt(v.rows, p, id)
    {
      var j :| j in s.rows && s.rows[j].movie == p && s.rows[j].messageId == id;
      if known.Some? && j == known.value && m > id {
        NoneLater(par, s, p, id, m);
      } else {
        assert j in v.rows && v.rows[j] == s.rows[j];
      }
    }
    if StandsIn(par, s, p, m) {
      if known.None? {
        assert s.nextRow in v.rows;
      } else {
        KnownEarlier(par, s, p, m, known.value);
        assert known.value in v.rows;
      }
    }
    forall id: MessageId | StandsIn(par, s, p, id) && OnlyHere(s.rows, p, id)
      ensures OnlyHere(v.rows, p, id)
    {
      OnlyHereStays(par, s, v, p, m, id);
    }
  }

  lemma FreeRow(s: Index)
    requires WellFormed(s)
    ensures s.nextRow !in s.rows
  {
  }

  // Nothing later is taken for the resolution of a message that stands.
  lemma NoneLater(par: Parser, s: Index, p: MessageId, i: MessageId, j: MessageId)
    requires StandsIn(par, s, p, i) && j < NextPoster(s.movies, p) && Taken(par, s.snaps, p, j)
    requires At(par, s.snaps, i).quality.resolution == At(par, s.snaps, j).quality.resolution
    ensures j <= i
  {
    hide PosterAt, Ended, NextPoster, At;
  }

  lemma KnownEarlier(par: Parser, s: Index, p: MessageId, m: MessageId, k: RowId)
    requires Mendable(par, s, p) && StandsIn(par, s, p, m) && RowAt(s.rows, m).None?
    requires k in s.rows && s.rows[k].movie == p && s.rows[k].resolution == At(par, s.snaps, m).quality.resolution
    ensures s.rows[k].messageId < m
  {
    hide PosterAt, Ended, NextPoster, At, FirstConflict;
    assert TakenRow(par, s.snaps, p, s.rows[k]);
    NoneLater(par, s, p, m, s.rows[k].messageId);
  }

  // A poster nobody has noticed yet.
  lemma {:induction false} EndedAfter(par: Parser, snaps: Snapshots, p: MessageId, m: MessageId, id: int)
    requires PosterAt(par, snaps, p) && PosterAt(par, snaps, m) && p < m < id <= MAX_ID
    ensures Ended(par, snaps, p, id)
    decreases id
  {
    hide PosterAt, At;
    if id > m + 1 {
      EndedAfter(par, snaps, p, m, id - 1);
    }
  }

  lemma TakenBefore(par: Parser, snaps: Snapshots, p: MessageId, m: MessageId, id: MessageId)
    requires PosterAt(par, snaps, p) && PosterAt(par, snaps, m) && p < m && Taken(par, snaps, p, id)
    ensures id < m
  {
    if id > m {
      EndedAfter(par, snaps, p, m, id);
    }
  }

  lemma CutStands(par: Parser, snaps: Snapshots, p: MessageId, m: MessageId, n: int, id: MessageId)
    requires PosterAt(par, snaps, p) && PosterAt(par, snaps, m) && p < m < n
    ensures Stands(par, snaps, p, n, id) <==> Stands(par, snaps, p, m, id)
    ensures forall r :: Newest(par, snaps, p, n, r, id) <==> Newest(par, snaps, p, m, r, id)
  {
    hide PosterAt, At, Ended;
    forall j: MessageId | Taken(par, snaps, p, j)
      ensures j < m
    {
      TakenBefore(par, snaps, p, m, j);
    }
  }

  lemma CutPrepares(par: Parser, s: Index, p: MessageId, m: Message, f: PosterFields, status: MovieStatus)
    requires WellFormed(s) && Mendable(par, s, p) && p == PrevPoster(s.movies, m.id) && m.id !in s.movies
    requires m.id in s.snaps && s.snaps[m.id].content == m.content && !s.snaps[m.id].conflicted
    requires par.Detect(m.content) == AsPoster(f)
    ensures Prepares(par, s, WithPoster(s, m, f, status), p)
  {
    hide PosterAt, Taken, Newest, NextPoster, PrevPoster, FirstConflict, At, Evident, ArchiveParser.Parser.Detect;
    var t, n := WithPoster(s, m, f, status), NextPoster(s.movies, p);
    assert t.movies.Keys == s.movies.Keys + {m.id};
    NextWithPoster(s.movies, t.movies, m.id);
    NoConflictBelow(s, t, p, m.id, n);
    PosterSeen(par, s.snaps, m);
    forall id: MessageId
      ensures Stands(par, s.snaps, p, n, id) <==> Stands(par, s.snaps, p, m.id, id)
    {
      CutStands(par, s.snaps, p, m.id, n, id);
    }
    forall k | k in s.rows && s.rows[k].movie == p
      ensures s.rows[k].messageId < m.id && TakenRow(par, t.snaps, p, t.rows[k])
    {
      assert TakenRow(par, s.snaps, p, s.rows[k]);
      TakenBefore(par, s.snaps, p, m.id, s.rows[k].messageId);
    }
  }

  lemma PosterSeen(par: Parser, snaps: Snapshots, m: Message)
    requires m.id in snaps && snaps[m.id].content == m.content && !snaps[m.id].conflicted
             && par.Detect(m.content).AsPoster?
    ensures PosterAt(par, snaps, m.id)
  {
    hide ArchiveParser.Parser.Detect;
  }

  // ---- One message read again -------------------------------------------------------------

  // The read of a message as it is recorded, with its token.
  function ReadOf(s: Index, id: MessageId): Event
    requires id in s.snaps
  {
    Reread(Message(id, s.snaps[id].content, s.snaps[id].editedAt), s.snaps[id].version)
  }

  function Again(s: Index, id: MessageId): Index
    requires id in s.snaps
  {
    SetSnap(s, id, s.snaps[id].(version := s.snaps[id].version + 1, conflicted := false))
  }

  lemma ReadIs(par: Parser, s: Index, id: MessageId)
    requires WellFormed(s) && id in s.snaps && !s.snaps[id].conflicted
    ensures var u, m := Again(s, id), ReadOf(s, id).m;
            && WellFormed(u) && SameContents(s, u)
            && Step(par, s, ReadOf(s, id))
               == if id in s.movies then EditPoster(par, u, m)
                  else if RowAt(s.rows, id).Some? then EditQuality(par, u, RowAt(s.rows, id).value, m)
                  else Place(par, u, m)
  {
    hide EditPoster, EditQuality, Place;
  }

  lemma KeepersMove(s: Index, t: Index, m: MessageId)
    requires KeepsRows(s, t) && t.rows.Keys == s.rows.Keys
    ensures RowsMove(s, t, m)
  {
    assert forall k :: k in t.rows ==> k in s.rows.Keys;
  }

  lemma SettleMoves(par: Parser, s: Index, t: Index, p: MessageId, m: MessageId)
    requires p in t.movies && RowsMove(s, t, m)
    ensures RowsMove(s, Settle(par, t, p), m)
  {
    hide Settle, PrevPoster;
    SettleKeepsMovies(par, t, p);
    assert forall k :: k in Settle(par, t, p).rows ==> k in t.rows.Keys;
  }

  lemma RowsMoveThemselves(s: Index, m: MessageId)
    ensures RowsMove(s, s, m)
  {
  }

  // Where the rows of a read message go.
  lemma PlaceMoves(par: Parser, s: Index, m: Message)
    requires WellFormed(s) && m.id !in s.movies
    ensures RowsMove(s, Place(par, s, m), m.id)
  {
    hide RowsMove, Settle, PrevPoster, MovieGroup, ItemAt, UpsertRow, UpsertPoster, WellFormed,
         ArchiveParser.Parser.Detect;
    var p := PrevPoster(s.movies, m.id);
    RowsMoveThemselves(s, m.id);
    match par.Detect(m.content)
    case AsPoster(f) =>
      var status := UpsertPosterIs(par, s, m, f);
      var t := WithPoster(s, m, f, status);
      SameRowsMove(s, t, m.id);
      if p > 0 {
        SettleMoves(par, s, t, p, m.id);
      }
    case AsQuality(_) =>
      if p > 0 && ItemAt(MovieGroup(par, s, p, Some(m.id)), m.id).Some? {
        var item := ItemAt(MovieGroup(par, s, p, Some(m.id)), m.id).value;
        UpsertMoves(s, p, item, m.id);
        SettleMoves(par, s, UpsertRow(s, p, item), p, m.id);
      }
    case AsNoise =>
      if p > 0 {
        SettleMoves(par, s, s, p, m.id);
      }
  }

  lemma SameRowsMove(s: Index, t: Index, m: MessageId)
    requires t.rows == s.rows
    ensures RowsMove(s, t, m)
  {
  }

  lemma UpsertMoves(s: Index, p: MessageId, item: ParsedQuality, m: MessageId)
    requires p == PrevPoster(s.movies, m) && item.messageId == m && m !in s.movies
    ensures RowsMove(s, UpsertRow(s, p, item), m)
  {
    hide PrevPoster;
  }

  lemma EditMoves(par: Parser, s: Index, k: RowId, m: Message)
    requires k in s.rows && s.rows[k].movie in s.movies && s.rows[k].messageId == m.id
    ensures RowsMove(s, EditQuality(par, s, k, m), m.id)
  {
    hide MovieGroup, RefreshedStatus, Holds, ItemAt, ResolutionTaken, PrevPoster;
  }

  lemma EditPosterMoves(par: Parser, s: Index, m: Message)
    requires m.id in s.movies
    ensures RowsMove(s, EditPoster(par, s, m), m.id)
  {
    hide MovieGroup, RefreshedStatus, Holds, PrevPoster, ArchiveParser.Parser.Detect;
  }

  lemma PlaceMends(par: Parser, s: Index, p: MessageId, m: Message)
    requires WellFormed(s) && Mendable(par, s, p) && m.id !in s.movies && RowAt(s.rows, m.id).None?
    requires m.id in s.snaps && s.snaps[m.id].content == m.content && !s.snaps[m.id].conflicted
    requires p == PrevPoster(s.movies, m.id)
    ensures Mends(par, s, Place(par, s, m), p)
    ensures StandsIn(par, s, p, m.id) ==> HasRowAt(Place(par, s, m).rows, p, m.id)
  {
    hide PosterAt, Ended, NextPoster, PrevPoster, FirstConflict, Superseded, Item, WellFormed, Evident, Settle,
         MovieGroup, ItemAt, UpsertRow, UpsertPoster, Mends, Prepares, RowsMove, HasRowAt, RowsTaken,
         ArchiveParser.Parser.Detect;
    OwnerBefore(s, m.id);
    OwnerRange(s, m.id);
    assert At(par, s.snaps, m.id) == par.Detect(m.content);
    match par.Detect(m.content)
    case AsPoster(f) =>
      var status := UpsertPosterIs(par, s, m, f);
      CutPrepares(par, s, p, m, f, status);
      var v := WithPoster(s, m, f, status);
      PreparedSettles(par, s, v, p);
    case AsQuality(_) =>
      ItemAtExactly(par, s, p, m.id);
      if Taken(par, s.snaps, p, m.id) {
        PlacedPrepares(par, s, p, m.id);
        var v := UpsertRow(s, p, Item(par, s.snaps, p, m.id));
        PreparedSettles(par, s, v, p);
        SettledHasRow(par, v, p, m.id);
      } else {
        MendsItself(par, s, p);
      }
    case AsNoise =>
      SettlesItself(par, s, p);
  }

  lemma PreparedSettles(par: Parser, s: Index, v: Index, p: MessageId)
    requires Prepares(par, s, v, p)
    ensures p in v.movies && Mends(par, s, Settle(par, v, p), p)
  {
    hide StandsIn, HasRowAt, OnlyHere, Mends, RowsTaken, Settle;
    SettleMends(par, v, p);
    hide InOrder, Prepares;
    MendsFrom(par, s, v, Settle(par, v, p), p);
  }

  lemma SettlesItself(par: Parser, s: Index, p: MessageId)
    requires Mendable(par, s, p)
    ensures Mends(par, s, Settle(par, s, p), p)
  {
    hide Mends, RowsTaken, Settle;
    SettleMends(par, s, p);
  }

  lemma SettledHasRow(par: Parser, s: Index, p: MessageId, id: MessageId)
    requires p in s.movies
    ensures HasRowAt(s.rows, p, id) ==> HasRowAt(Settle(par, s, p).rows, p, id)
  {
    hide Settle;
    SettleKeepsRows(par, s, p);
  }

  lemma MendsItself(par: Parser, s: Index, p: MessageId)
    requires Mendable(par, s, p)
    ensures Mends(par, s, s, p)
  {
    hide Mendable, StandsIn, HasRowAt, OnlyHere;
  }

  /** Reading one message again loses nothing of any mendable movie, and gives a message of it that stands its row,
      unless it is attached to another movie. */
  lemma StepMends(par: Parser, s: Index, p: MessageId, id: MessageId)
    requires WellFormed(s) && Mendable(par, s, p) && id in s.snaps && !s.snaps[id].conflicted
    ensures var t := Step(par, s, ReadOf(s, id));
            Mends(par, s, t, p) && (StandsIn(par, s, p, id) && OnlyHere(s.rows, p, id) ==> HasRowAt(t.rows, p, id))
  {
    hide EditPoster, EditQuality, Place, Step, Mends, Mendable, WellFormed, StandsIn, OnlyHere, HasRowAt, RowsMove,
         Untouched, PrevPoster, SameContents;
    var u, m, t := Again(s, id), ReadOf(s, id).m, Step(par, s, ReadOf(s, id));
    ReadIs(par, s, id);
    SameContentsMend(par, s, u, p);
    MendedIsMendable(par, s, u, p);
    SameStandsIn(par, s, u, p, id);
    if id in s.movies {
      PosterReadMends(par, u, p, m);
      StandsNoPoster(par, s, p, id);
    } else if RowAt(s.rows, id).Some? {
      RowReadMends(par, u, p, RowAt(s.rows, id).value, m);
    } else if p == PrevPoster(s.movies, id) {
      PlaceMends(par, u, p, m);
    } else {
      PlaceUntouched(par, u, m, p);
      PlaceMoves(par, u, m);
      UntouchedMends(par, u, t, p, id);
      OwnerBefore(s, id);
      StandsOwned(par, s, p, id);
    }
    MendsTwice(par, s, u, t, p);
  }

  lemma MendedIsMendable(par: Parser, s: Index, u: Index, p: MessageId)
    requires Mends(par, s, u, p)
    ensures Mendable(par, u, p) && p in u.movies
  {
    hide StandsIn, HasRowAt, OnlyHere, RowsTaken;
  }

  lemma SameStandsIn(par: Parser, s: Index, u: Index, p: MessageId, id: MessageId)
    requires Mends(par, s, u, p) && SameContents(s, u)
    ensures u.movies == s.movies && u.rows == s.rows && (StandsIn(par, u, p, id) <==> StandsIn(par, s, p, id))
  {
    hide Mendable, StandsIn, HasRowAt, OnlyHere;
  }

  lemma StandsOwned(par: Parser, s: Index, p: MessageId, id: MessageId)
    ensures StandsIn(par, s, p, id) ==> p == Owner(s, id)
  {
    hide NextPoster, PrevPoster, PosterAt, At, Ended, Superseded;
    if StandsIn(par, s, p, id) {
      InRangeOf(s, p, id);
    }
  }

  lemma StandsNoPoster(par: Parser, s: Index, p: MessageId, id: MessageId)
    requires id in s.movies
    ensures !StandsIn(par, s, p, id)
  {
    hide NextPoster, PosterAt, At, Ended, Superseded;
  }

  lemma PosterReadMends(par: Parser, s: Index, p: MessageId, m: Message)
    requires WellFormed(s) && Mendable(par, s, p) && m.id in s.movies
    requires m.id in s.snaps && s.snaps[m.id].content == m.content && !s.snaps[m.id].conflicted
    ensures Mends(par, s, EditPoster(par, s, m), p)
  {
    hide EditPoster, Mends, WellFormed, RowsMove, Untouched, RowsTaken;
    if m.id == p {
      PosterMends(par, s, m);
    } else {
      EditPosterUntouched(par, s, m, p);
      EditPosterMoves(par, s, m);
      UntouchedMends(par, s, EditPoster(par, s, m), p, m.id);
    }
  }

  lemma RowReadMends(par: Parser, s: Index, p: MessageId, k: RowId, m: Message)
    requires WellFormed(s) && Mendable(par, s, p) && k in s.rows && s.rows[k].messageId == m.id
    requires m.id in s.snaps && s.snaps[m.id].content == m.content && !s.snaps[m.id].conflicted
    ensures Mends(par, s, EditQuality(par, s, k, m), p)
    ensures OnlyHere(s.rows, p, m.id) ==> HasRowAt(EditQuality(par, s, k, m).rows, p, m.id)
  {
    hide EditQuality, Mends, WellFormed, RowsMove, Untouched, RowsTaken, InOrder;
    RowKnown(s, k);
    if s.rows[k].movie == p {
      AttachedMends(par, s, p, k, m);
    } else {
      assert p in s.movies by {
        MendableMovie(par, s, p);
      }
      EditQualityUntouched(par, s, k, m, p);
      EditMoves(par, s, k, m);
      UntouchedMends(par, s, EditQuality(par, s, k, m), p, m.id);
    }
  }

  lemma MendableMovie(par: Parser, s: Index, p: MessageId)
    requires Mendable(par, s, p)
    ensures p in s.movies
  {
  }

  // ---- All messages read again ------------------------------------------------------------

  /** Messages without doubts about what they say, each once. */
  ghost predicate Readable(s: Index, ids: seq<MessageId>) {
    && (forall id :: id in ids ==> id in s.snaps && !s.snaps[id].conflicted)
    && forall i, j :: 0 <= i < j < |ids| ==> ids[i] != ids[j]
  }

  ghost function Reads(s: Index, ids: seq<MessageId>): seq<Event>
    requires Readable(s, ids)
  {
    seq(|ids|, i requires 0 <= i < |ids| => ReadOf(s, ids[i]))
  }

  lemma {:induction false} RunMends(par: Parser, first: Index, s: Index, ids: seq<MessageId>, p: MessageId)
    requires WellFormed(s) && Mendable(par, s, p) && Readable(first, ids) && Readable(s, ids)
    requires forall id :: id in ids ==> s.snaps[id] == first.snaps[id]
    ensures var t := Run(par, s, Reads(first, ids));
            && Mends(par, s, t, p)
            && forall id :: id in ids && StandsIn(par, s, p, id) && OnlyHere(s.rows, p, id) ==> HasRowAt(t.rows, p, id)
    decreases |ids|
  {
    hide WellFormed, Mendable, Mends, Step, StandsIn, OnlyHere, HasRowAt, Readable;
    if ids == [] {
      MendsItself(par, s, p);
    } else {
      ReadableRest(first, ids);
      var e, id, rest := ReadOf(first, ids[0]), ids[0], ids[1..];
      ReadableRest(s, ids);
      StepMends(par, s, p, id);
      StepWellFormed(par, s, e);
      var u := Step(par, s, e);
      OthersStay(par, s, ids);
      MendedIsMendable(par, s, u, p);
      RunMends(par, first, u, rest, p);
      assert Reads(first, ids)[1..] == Reads(first, rest);
      var t := Run(par, s, Reads(first, ids));
      assert t == Run(par, u, Reads(first, rest));
      MendsTwice(par, s, u, t, p);
      forall i | i in ids && StandsIn(par, s, p, i) && OnlyHere(s.rows, p, i)
        ensures HasRowAt(t.rows, p, i)
      {
        MendsKeeps(par, s, u, p, i);
        MendsKeeps(par, u, t, p, i);
        assert i == id || i in rest;
      }
    }
  }

  lemma MendsKeeps(par: Parser, s: Index, t: Index, p: MessageId, id: MessageId)
    requires Mends(par, s, t, p) && StandsIn(par, s, p, id)
    ensures StandsIn(par, t, p, id) && (HasRowAt(s.rows, p, id) ==> HasRowAt(t.rows, p, id))
    ensures OnlyHere(s.rows, p, id) ==> OnlyHere(t.rows, p, id)
  {
    hide Mendable, StandsIn, HasRowAt, OnlyHere;
  }

  lemma ReadableRest(s: Index, ids: seq<MessageId>)
    requires Readable(s, ids) && ids != []
    ensures Readable(s, ids[1..]) && ids[0] in s.snaps && !s.snaps[ids[0]].conflicted
    ensures forall id :: id in ids ==> id in s.snaps
  {
  }

  lemma OthersStay(par: Parser, s: Index, ids: seq<MessageId>)
    requires WellFormed(s) && Readable(s, ids) && ids != [] && ids[0] in s.snaps
    ensures var u := Step(par, s, ReadOf(s, ids[0]));
            Readable(u, ids[1..]) && forall id :: id in ids[1..] ==> id in s.snaps && u.snaps[id] == s.snaps[id]
  {
    hide EditPoster, EditQuality, Place;
    ReadIs(par, s, ids[0]);
  }

  /** After reading messages again, at least those that stand, a mendable movie has exactly the parser's rows if and
      only if none of these is attached to another movie; in any order of reading. */
  lemma RereadRestoresExactly(par: Parser, s: Index, ids: seq<MessageId>, p: MessageId)
    requires WellFormed(s) && Mendable(par, s, p) && Readable(s, ids)
    requires forall id: MessageId :: StandsIn(par, s, p, id) ==> id in ids
    ensures var t := Run(par, s, Reads(s, ids));
            p in t.movies && (Exact(par, t, p) <==> forall id: MessageId :: StandsIn(par, s, p, id) ==>
                              OnlyHere(s.rows, p, id))
  {
    hide WellFormed, Mendable, Mends, StandsIn, OnlyHere, HasRowAt, Readable, Reads, Exact, Run;
    RunMends(par, s, s, ids, p);
    var t := Run(par, s, Reads(s, ids));
    MendedIsMendable(par, s, t, p);
    if forall id: MessageId :: StandsIn(par, s, p, id) ==> OnlyHere(s.rows, p, id) {
      forall id: MessageId | StandsIn(par, t, p, id)
        ensures HasRowAt(t.rows, p, id)
      {
        MendsBack(par, s, t, p, id);
      }
      CompleteIsExact(par, t, p);
    } else {
      var id: MessageId :| StandsIn(par, s, p, id) && !OnlyHere(s.rows, p, id);
      MendsKeeps(par, s, t, p, id);
      ElsewhereForever(par, s, Reads(s, ids), p, id);
      MissingNotExact(par, t, p, id);
    }
  }

  lemma MendsBack(par: Parser, s: Index, t: Index, p: MessageId, id: MessageId)
    requires Mends(par, s, t, p)
    ensures StandsIn(par, t, p, id) ==> StandsIn(par, s, p, id)
  {
    hide Mendable, StandsIn, HasRowAt, OnlyHere;
  }

  lemma CompleteIsExact(par: Parser, s: Index, p: MessageId)
    requires WellFormed(s) && Mendable(par, s, p) && p in s.movies
    requires forall id: MessageId :: StandsIn(par, s, p, id) ==> HasRowAt(s.rows, p, id)
    ensures Exact(par, s, p)
  {
    hide PosterAt, Ended, Superseded, Item, NextPoster, FirstConflict, At, Evident;
    var n := NextPoster(s.movies, p);
    forall k | k in s.rows && s.rows[k].movie == p
      ensures Evident(par, s, p, s.rows[k])
    {
      var row := s.rows[k];
      assert TakenRow(par, s.snaps, p, row);
      var j := LatestStands(par, s.snaps, p, n, row.resolution, row.messageId);
      assert StandsIn(par, s, p, j);
      var i :| i in s.rows && s.rows[i].movie == p && s.rows[i].messageId == j;
      assert TakenRow(par, s.snaps, p, s.rows[i]);
      assert i == k;
    }
  }

  lemma MissingNotExact(par: Parser, s: Index, p: MessageId, id: MessageId)
    requires p in s.movies && StandsIn(par, s, p, id) && !HasRowAt(s.rows, p, id)
    ensures !Exact(par, s, p)
  {
    hide Stands, NextPoster;
  }

  lemma ElsewhereForever(par: Parser, s: Index, es: seq<Event>, p: MessageId, id: MessageId)
    requires WellFormed(s) && StandsIn(par, s, p, id) && !OnlyHere(s.rows, p, id)
    ensures !HasRowAt(Run(par, s, es).rows, p, id)
  {
    hide PosterAt, Ended, Superseded, At, NextPoster, PrevPoster, Run, AllExact;
    var k :| k in s.rows && s.rows[k].messageId == id && s.rows[k].movie != p;
    var q := s.rows[k].movie;
    RowKnown(s, k);
    InRangeOf(s, p, id);
    assert NextPoster(s.movies, q) <= id by {
      if id < NextPoster(s.movies, q) {
        InRangeOf(s, q, id);
      }
    }
    TakenOverForever(par, s, es, k, q, id);
  }

  /** In particular an indexed movie that is safe becomes complete. */
  lemma SafeMovieCompleted(par: Parser, s: Index, ids: seq<MessageId>, p: MessageId)
    requires WellFormed(s) && Readable(s, ids) && p in s.movies && s.movies[p].status.Indexed? && MovieSafe(par, s, p)
    requires forall id: MessageId :: StandsIn(par, s, p, id) ==> id in ids
    ensures var t := Run(par, s, Reads(s, ids));
            p in t.movies && (Exact(par, t, p) <==> forall id: MessageId :: StandsIn(par, s, p, id) ==>
                              OnlyHere(s.rows, p, id))
  {
    hide WellFormed, Mendable, StandsIn, OnlyHere, Readable, Reads, Exact, Run, MovieSafe;
    SafeIsMendable(par, s, p);
    RereadRestoresExactly(par, s, ids, p);
  }
}
