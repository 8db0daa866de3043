/** What every run of posts, live edits and fenced re-reads keeps true of the archive index. */
module ArchiveSafety {
  import opened Wrappers
  import opened Archive
  import opened ArchiveParser
  import opened ArchiveIndex
  import opened ArchiveEvidence

  /** The row is what the parser makes of its message today. */
  ghost predicate Backed(g: Option<ParsedMovieGroup>, row: Row) {
    && Holds(g, row.resolution, row.messageId)
    && var item := g.value.qualities[row.resolution];
       row.confidence == item.confidence && row.title == item.rawTitle
       && row.normalizedTitle == item.normalizedTitle && row.year == item.year
  }

  ghost predicate MovieSafe(par: Parser, s: Index, p: MessageId)
    requires p in s.movies
  {
    s.movies[p].status.Indexed? ==>
      && s.movies[p].confidence > 0
      && HasRows(s.rows, p)
      && Horizon(s, p) == NextPoster(s.movies, p)
      && forall k :: k in s.rows && s.rows[k].movie == p ==>
                       s.rows[k].confidence > 0 && Backed(MovieGroup(par, s, p, None), s.rows[k])
  }

  ghost predicate Safe(par: Parser, s: Index) {
    forall p :: p in s.movies ==> MovieSafe(par, s, p)
  }

  ghost predicate SafeExcept(par: Parser, s: Index, p: int) {
    forall q :: q in s.movies && q != p ==> MovieSafe(par, s, q)
  }

  /** A movie with positive confidence shows what its poster message says today. */
  ghost predicate Synced(par: Parser, s: Index) {
    forall p :: p in s.movies && s.movies[p].confidence > 0 ==> SyncedAt(par, s, p)
  }

  ghost predicate SyncedAt(par: Parser, s: Index, p: MessageId)
    requires p in s.movies
  {
    && p in s.snaps && !s.snaps[p].conflicted
    && var d := par.Detect(s.snaps[p].content);
       d.AsPoster?
       && s.movies[p] == NewMovie(Evidence(p, s.snaps[p]), d.poster).(status := s.movies[p].status)
  }

  /** The movie whose range contains an id, or 0. */
  function Owner(s: Index, id: MessageId): int {
    PrevPoster(s.movies, id + 1)
  }

  // ---- Frames -----------------------------------------------------------------------------

  // Dates and versions are no evidence.
  ghost predicate SnapsAgree(a: Snapshots, b: Snapshots, lo: int, hi: int) {
    forall id: MessageId :: lo <= id < hi ==>
      (id in a <==> id in b) && (id in a ==> a[id].content == b[id].content && a[id].conflicted == b[id].conflicted)
  }

  lemma {:induction false} ScanFrame(par: Parser, a: Snapshots, b: Snapshots, lo: MessageId, n: int)
    requires n <= MAX_ID && SnapsAgree(a, b, lo, n)
    ensures ScanTo(par, a, lo, n) == ScanTo(par, b, lo, n)
  {
    if n > lo {
      ScanFrame(par, a, b, lo, n - 1);
    }
  }

  lemma {:induction false} ConflictFrame(a: Snapshots, b: Snapshots, lo: int, hi: int)
    requires 0 < lo <= hi <= MAX_ID && SnapsAgree(a, b, lo, hi)
    ensures FirstConflict(a, lo, hi) == FirstConflict(b, lo, hi)
    decreases hi - lo
  {
    if lo < hi {
      var id: MessageId := lo;
      assert id in a <==> id in b;
      ConflictFrame(a, b, lo + 1, hi);
    }
  }

  lemma {:induction false} ScanUnrecorded(par: Parser, snaps: Snapshots, lo: MessageId, n: int, m: int)
    requires lo <= n <= m <= MAX_ID
    requires forall id :: n <= id < m ==> id !in snaps
    ensures ScanTo(par, snaps, lo, m) == ScanTo(par, snaps, lo, n)
  {
    if n < m {
      ScanUnrecorded(par, snaps, lo, n, m - 1);
    }
  }

  lemma GroupFrame(par: Parser, s: Index, t: Index, p: MessageId)
    requires p in s.movies && p in t.movies && s.movies[p].confidence == t.movies[p].confidence
    requires NextPoster(s.movies, p) == NextPoster(t.movies, p)
    requires SnapsAgree(s.snaps, t.snaps, p, NextPoster(s.movies, p))
    ensures Horizon(s, p) == Horizon(t, p)
    ensures MovieGroup(par, s, p, None) == MovieGroup(par, t, p, None)
  {
    ConflictFrame(s.snaps, t.snaps, p, NextPoster(s.movies, p));
    ScanFrame(par, s.snaps, t.snaps, p, Horizon(s, p));
  }

  ghost predicate SameRowsOf(a: Rows, b: Rows, p: MessageId) {
    forall k :: (k in a && a[k].movie == p) || (k in b && b[k].movie == p) ==> k in a && k in b && a[k] == b[k]
  }

  /** Nothing a movie's safety depends on differs between two states. */
  ghost predicate Untouched(s: Index, t: Index, p: MessageId) {
    && p in s.movies && p in t.movies && s.movies[p] == t.movies[p]
    && NextPoster(s.movies, p) == NextPoster(t.movies, p)
    && SnapsAgree(s.snaps, t.snaps, p, NextPoster(s.movies, p))
    && SameRowsOf(s.rows, t.rows, p)
  }

  lemma UntouchedStaysSafe(par: Parser, s: Index, t: Index, p: MessageId)
    requires Untouched(s, t, p) && MovieSafe(par, s, p)
    ensures MovieSafe(par, t, p)
  {
    if s.movies[p].status.Indexed? {
      GroupFrame(par, s, t, p);
      var k :| k in s.rows && s.rows[k].movie == p;
      assert k in t.rows && t.rows[k].movie == p;
    }
  }

  lemma SameNeighbours(a: Movies, b: Movies)
    requires a.Keys == b.Keys
    ensures forall p :: 0 <= p < MAX_ID ==> NextPoster(a, p) == NextPoster(b, p)
    ensures forall id :: 0 < id <= MAX_ID ==> PrevPoster(a, id) == PrevPoster(b, id)
  {
    forall p | 0 <= p < MAX_ID
      ensures NextPoster(a, p) == NextPoster(b, p)
    {
      var m, n := NextPoster(a, p), NextPoster(b, p);
      assert m < n ==> m in b.Keys;
      assert n < m ==> n in a.Keys;
    }
    forall id | 0 < id <= MAX_ID
      ensures PrevPoster(a, id) == PrevPoster(b, id)
    {
      var m, n := PrevPoster(a, id), PrevPoster(b, id);
      assert n < m ==> m in b.Keys;
      assert m < n ==> n in a.Keys;
    }
  }

  lemma SettleSafe(par: Parser, s: Index, p: MessageId)
    requires p in s.movies
    ensures MovieSafe(par, Settle(par, s, p), p)
  {
    var t, u := Revalidate(par, s, p), Settle(par, s, p);
    SameNeighbours(s.movies, u.movies);
    GroupFrame(par, s, u, p);
    GroupFrame(par, s, t, p);
  }

  lemma SettleOthers(par: Parser, s: Index, p: MessageId, q: MessageId)
    requires p in s.movies && q in s.movies && q != p
    ensures Untouched(s, Settle(par, s, p), q)
  {
    SameNeighbours(s.movies, Settle(par, s, p).movies);
  }

  lemma SettleRestoresSafety(par: Parser, s: Index, p: MessageId)
    requires p in s.movies && SafeExcept(par, s, p)
    ensures Safe(par, Settle(par, s, p))
  {
    var t := Settle(par, s, p);
    forall q | q in t.movies
      ensures MovieSafe(par, t, q)
    {
      if q == p {
        SettleSafe(par, s, p);
      } else {
        SettleOthers(par, s, p, q);
        UntouchedStaysSafe(par, s, t, q);
      }
    }
  }

  // Changing one movie and its rows concerns that movie only.
  lemma OneMovieChanged(par: Parser, s: Index, t: Index, p: MessageId)
    requires SafeExcept(par, s, p)
    requires p in s.movies && p in t.movies && t.movies == s.movies[p := t.movies[p]] && t.snaps == s.snaps
    requires forall q :: q in s.movies && q != p ==> SameRowsOf(s.rows, t.rows, q)
    ensures SafeExcept(par, t, p)
  {
    SameNeighbours(s.movies, t.movies);
    forall q | q in t.movies && q != p
      ensures MovieSafe(par, t, q)
    {
      UntouchedStaysSafe(par, s, t, q);
    }
  }

  lemma OwnerOnly(s: Index, id: MessageId, q: MessageId)
    requires q in s.movies && q != Owner(s, id)
    ensures !(q <= id < NextPoster(s.movies, q))
  {
  }

  // Recording a message concerns only the movie whose range contains it.
  lemma RecordingConcernsOwner(par: Parser, s: Index, id: MessageId, snap: Snapshot)
    requires Safe(par, s)
    ensures SafeExcept(par, SetSnap(s, id, snap), Owner(s, id))
  {
    var t := SetSnap(s, id, snap);
    forall q | q in t.movies && q != Owner(s, id)
      ensures MovieSafe(par, t, q)
    {
      OwnerOnly(s, id, q);
      UntouchedStaysSafe(par, s, t, q);
    }
  }

  // ---- Operations -------------------------------------------------------------------------

  lemma BoundarySafe(par: Parser, s: Index, id: MessageId)
    requires SafeExcept(par, s, PrevPoster(s.movies, id))
    ensures Safe(par, Boundary(par, s, id))
  {
    var p := PrevPoster(s.movies, id);
    if p > 0 {
      SettleRestoresSafety(par, s, p);
    }
  }

  lemma EditPosterSafe(par: Parser, s: Index, m: Message)
    requires m.id in s.movies && SafeExcept(par, s, m.id)
    ensures Safe(par, EditPoster(par, s, m))
  {
    var d := par.Detect(m.content);
    var t := EditPoster(par, s, m);
    if d.AsPoster? {
      var u := s.(movies := s.movies[m.id := NewMovie(m, d.poster).(status := s.movies[m.id].status)]);
      OneMovieChanged(par, s, u, m.id);
      SettleRestoresSafety(par, u, m.id);
    } else {
      OneMovieChanged(par, s, t, m.id);
    }
  }

  lemma UpsertPosterSafe(par: Parser, s: Index, m: Message, f: PosterFields)
    requires m.id !in s.movies && SafeExcept(par, s, PrevPoster(s.movies, m.id))
    ensures Safe(par, UpsertPoster(par, s, m, f))
  {
    var p := PrevPoster(s.movies, m.id);
    var r := if p > 0 && s.movies[p].status.Pending?
             then SetStatus(s, p, if HasRows(s.rows, p) then Indexed else Orphan)
             else s;
    var t := r.(movies := r.movies[m.id := NewMovie(m, f)]);
    forall q | q in t.movies && q != p
      ensures MovieSafe(par, t, q)
    {
      if q != m.id {
        NextSurvives(s.movies, t.movies, m.id, q);
        UntouchedStaysSafe(par, s, t, q);
      }
    }
    if p > 0 {
      SettleRestoresSafety(par, t, p);
    }
  }

  // A new poster changes the successor of its predecessor only.
  lemma NextSurvives(a: Movies, b: Movies, id: MessageId, q: MessageId)
    requires b.Keys == a.Keys + {id} && id !in a && q in a && q != PrevPoster(a, id)
    ensures NextPoster(a, q) == NextPoster(b, q)
  {
    var m, n := NextPoster(a, q), NextPoster(b, q);
    assert m < MAX_ID ==> m in b.Keys;
    assert n < MAX_ID ==> n in b.Keys;
    assert !(q < id < m);
  }

  lemma UpsertQualitySafe(par: Parser, s: Index, m: Message)
    requires WellFormed(s) && SafeExcept(par, s, PrevPoster(s.movies, m.id))
    requires var p := PrevPoster(s.movies, m.id);
             p > 0 && ItemAt(MovieGroup(par, s, p, Some(m.id)), m.id).None? ==> MovieSafe(par, s, p)
    ensures Safe(par, UpsertQuality(par, s, m))
  {
    hide MovieSafe, MovieGroup, Settle, ItemAt;
    var p := PrevPoster(s.movies, m.id);
    if p > 0 {
      var item := ItemAt(MovieGroup(par, s, p, Some(m.id)), m.id);
      if item.Some? {
        var t := UpsertRow(s, p, item.value);
        assert forall k :: k in s.rows ==> k < s.nextRow;
        OneMovieChanged(par, s, t, p);
        SettleRestoresSafety(par, t, p);
      }
    }
  }

  // A change to a row and the status of its movie leaves every other movie as it was.
  lemma RowChanged(par: Parser, s: Index, t: Index, k: RowId)
    requires k in s.rows && s.rows[k].movie in s.movies
    requires t.snaps == s.snaps && k in t.rows && t.rows == s.rows[k := t.rows[k]] && t.rows[k].movie == s.rows[k].movie
    requires s.rows[k].movie in t.movies
    requires t.movies == s.movies[s.rows[k].movie := t.movies[s.rows[k].movie]]
    requires SafeExcept(par, s, s.rows[k].movie)
    ensures SafeExcept(par, t, s.rows[k].movie)
  {
    OneMovieChanged(par, s, t, s.rows[k].movie);
  }

  lemma EditQualitySafe(par: Parser, s: Index, k: RowId, m: Message)
    requires k in s.rows && s.rows[k].movie in s.movies && SafeExcept(par, s, s.rows[k].movie)
    ensures Safe(par, EditQuality(par, s, k, m))
  {
    var row := s.rows[k];
    var p := row.movie;
    var t := EditQuality(par, s, k, m);
    var item := if m.content.kind.Video? || m.content.kind.Document?
                then ItemAt(MovieGroup(par, s, p, Some(m.id)), m.id) else None;
    if item.None? || (item.value.resolution != row.resolution && ResolutionTaken(s.rows, k, item.value.resolution)) {
      RowChanged(par, s, t, k);
    } else {
      var u := SetRow(s, k, NewRow(p, item.value).(messageId := row.messageId));
      RowChanged(par, s, u, k);
      SettleRestoresSafety(par, u, p);
    }
  }

  lemma InvalidateConflictSafe(par: Parser, s: Index, id: MessageId)
    requires WellFormed(s)
    requires SafeExcept(par, s, if RowAt(s.rows, id).Some? then s.rows[RowAt(s.rows, id).value].movie else Owner(s, id))
    ensures Safe(par, InvalidateConflict(par, s, id))
  {
    var t := InvalidateConflict(par, s, id);
    var k := RowAt(s.rows, id);
    if id in s.movies {
      assert Owner(s, id) == id;
      OneMovieChanged(par, s, t, id);
    } else if k.Some? {
      RowChanged(par, s, t, k.value);
    } else {
      assert Owner(s, id) == PrevPoster(s.movies, id);
      BoundarySafe(par, s, id);
    }
  }

  // ---- A refused quality, which the index does not look at again --------------------------

  // What a scan keeps, and where from.
  lemma {:induction false} KeptFromEvidence(par: Parser, snaps: Snapshots, lo: MessageId, n: int)
    requires n <= MAX_ID
    ensures var s := ScanTo(par, snaps, lo, n);
            !s.Idle? ==>
              && lo <= s.b.posterId < n
              && (s.b.posterId in snaps)
              && forall r :: r in s.b.qualities ==>
                   var q := s.b.qualities[r];
                   q.resolution == r && s.b.posterId < q.messageId < n && q.messageId in snaps
  {
    if n > lo {
      KeptFromEvidence(par, snaps, lo, n - 1);
    }
  }

  // ---- A row and its evidence -------------------------------------------------------------

  ghost predicate SaysItem(row: Row, item: ParsedQuality) {
    && row.confidence == item.confidence && row.title == item.rawTitle
    && row.normalizedTitle == item.normalizedTitle && row.year == item.year
  }

  /** Backed, said without the parser. */
  ghost predicate Evident(par: Parser, s: Index, p: MessageId, row: Row)
    requires PosterAt(par, s.snaps, p)
  {
    && Newest(par, s.snaps, p, NextPoster(s.movies, p), row.resolution, row.messageId)
    && SaysItem(row, Item(par, s.snaps, p, row.messageId))
  }

  /** A row is what the parser makes of its message exactly when its message is the newest one taken for its resolution
      and the row says what it says, scored by its distance from the poster. */
  lemma BackedExactly(par: Parser, s: Index, p: MessageId, row: Row)
    requires p in s.movies && s.movies[p].confidence > 0 && Horizon(s, p) == NextPoster(s.movies, p)
             && PosterAt(par, s.snaps, p)
    ensures Backed(MovieGroup(par, s, p, None), row) <==> Evident(par, s, p, row)
  {
    hide PosterAt, Taken, Superseded, ScanTo, Item, Horizon, NextPoster;
    var n := NextPoster(s.movies, p);
    ScanDescribed(par, s.snaps, p, n);
    var kept := ScanTo(par, s.snaps, p, n).b.qualities;
    if Newest(par, s.snaps, p, n, row.resolution, row.messageId) {
      assert HasItem(par, s.snaps, p, kept, row.resolution, row.messageId);
      ItemIs(par, s.snaps, p, row.messageId);
    } else if row.resolution in kept {
      assert Newest(par, s.snaps, p, n, row.resolution, kept[row.resolution].messageId);
    }
  }

  lemma ItemIs(par: Parser, snaps: Snapshots, p: MessageId, id: MessageId)
    requires PosterAt(par, snaps, p) && Fits(par, snaps, p, id)
    ensures Item(par, snaps, p, id).messageId == id
  {
  }

  lemma {:induction false} PosterOfScan(par: Parser, snaps: Snapshots, p: MessageId, n: int)
    requires n <= MAX_ID && !ScanTo(par, snaps, p, n).Idle? && ScanTo(par, snaps, p, n).b.posterId == p
    ensures PosterAt(par, snaps, p)
  {
    hide ArchiveParser.Parser.Detect, ArchiveParser.Parser.Score;
    if n > p + 1 {
      KeptFromEvidence(par, snaps, p, n - 1);
      PosterOfScan(par, snaps, p, n - 1);
    } else {
      assert ScanTo(par, snaps, p, p) == Idle;
    }
  }

  lemma IndexedHasPoster(par: Parser, s: Index, p: MessageId)
    requires p in s.movies && s.movies[p].status.Indexed? && MovieSafe(par, s, p)
    ensures PosterAt(par, s.snaps, p)
  {
    hide PosterAt, Horizon, ScanTo;
    var k :| k in s.rows && s.rows[k].movie == p;
    assert Backed(MovieGroup(par, s, p, None), s.rows[k]);
    PosterOfScan(par, s.snaps, p, Horizon(s, p));
  }

  // ---- What recording one message does to the evidence ------------------------------------

  lemma {:induction false} DistanceAfter(snaps: Snapshots, m: MessageId, snap: Snapshot, p: MessageId, id: int)
    requires p < m && id < MAX_ID
    ensures Distance(snaps[m := snap], p, id) == Distance(snaps, p, id) + if m !in snaps && m <= id then 1 else 0
    decreases id
  {
    if id > p {
      DistanceAfter(snaps, m, snap, p, id - 1);
    }
  }

  lemma {:induction false} DistancePositive(snaps: Snapshots, p: MessageId, id: MessageId)
    requires p < id && id in snaps
    ensures Distance(snaps, p, id) > 0
  {
  }

  /** One message more in between changes the score of a fitting quality exactly when it is among the first four. */
  lemma ScoreMovesExactly(par: Parser, poster: PosterFields, q: QualityFields, d: nat)
    requires d > 0 && !YearsConflict(poster.year, q.year)
    ensures par.Score(poster, q, d) == par.Score(poster, q, d + 1) <==> d >= 5
  {
  }

  /** A message recorded at m.id leaves this row of movie p no longer what the parser says: the group now ends before
      the row's message, or now takes a newer message of the resolution, or the row's message, among the first four
      after the poster, has moved away by one. */
  ghost predicate Disturbed(par: Parser, s: Index, m: Message, snap: Snapshot, p: MessageId, row: Row) {
    var after := s.snaps[m.id := snap];
    PosterAt(par, after, p) &&
    (|| Ended(par, after, p, row.messageId)
     || Superseded(par, after, p, NextPoster(s.movies, p), row.resolution, row.messageId)
     || (m.id !in s.snaps && m.id < row.messageId && Distance(s.snaps, p, row.messageId) < 5))
  }

  lemma RowExactly(par: Parser, s: Index, m: Message, snap: Snapshot, p: MessageId, row: Row)
    requires PosterAt(par, s.snaps, p) && p < m.id && row.messageId != m.id && row.messageId in s.snaps
    requires Evident(par, s, p, row)
    ensures PosterAt(par, s.snaps[m.id := snap], p)
    ensures Evident(par, SetSnap(s, m.id, snap), p, row) <==> !Disturbed(par, s, m, snap, p, row)
  {
    hide Ended, Superseded, Distance, ArchiveParser.Parser.Detect, ArchiveParser.Parser.Score;
    var id := row.messageId;
    DistanceAfter(s.snaps, m.id, snap, p, id);
    DistancePositive(s.snaps, p, id);
    ScoreMovesExactly(par, At(par, s.snaps, p).poster, At(par, s.snaps, id).quality, Distance(s.snaps, p, id));
  }

  lemma HorizonAfter(s: Index, id: MessageId, snap: Snapshot, p: MessageId)
    requires Horizon(s, p) == NextPoster(s.movies, p) && !snap.conflicted
    ensures Horizon(SetSnap(s, id, snap), p) == NextPoster(s.movies, p)
  {
    hide FirstConflict, NextPoster;
    var c := Horizon(SetSnap(s, id, snap), p);
    assert c < NextPoster(s.movies, p) ==> c in SetSnap(s, id, snap).snaps;
  }

  /** The exact condition for one movie and any message recorded in its range that is no row of its own. */
  lemma RecordingSafeExactly(par: Parser, s: Index, m: Message, snap: Snapshot, p: MessageId)
    requires p in s.movies && s.movies[p].status.Indexed? && MovieSafe(par, s, p)
    requires p < m.id && !snap.conflicted
    requires forall k :: k in s.rows && s.rows[k].movie == p ==> s.rows[k].messageId != m.id
    ensures MovieSafe(par, SetSnap(s, m.id, snap), p)
            <==> forall k :: k in s.rows && s.rows[k].movie == p ==> !Disturbed(par, s, m, snap, p, s.rows[k])
  {
    hide Backed, MovieGroup, Horizon, Disturbed, PosterAt, Evident;
    var u := SetSnap(s, m.id, snap);
    IndexedHasPoster(par, s, p);
    HorizonAfter(s, m.id, snap, p);
    forall k | k in s.rows && s.rows[k].movie == p
      ensures Backed(MovieGroup(par, u, p, None), s.rows[k]) <==> !Disturbed(par, s, m, snap, p, s.rows[k])
    {
      RowAfter(par, s, m, snap, p, s.rows[k]);
    }
  }

  lemma RowAfter(par: Parser, s: Index, m: Message, snap: Snapshot, p: MessageId, row: Row)
    requires p in s.movies && s.movies[p].confidence > 0 && Horizon(s, p) == NextPoster(s.movies, p)
             && PosterAt(par, s.snaps, p)
    requires Horizon(SetSnap(s, m.id, snap), p) == NextPoster(s.movies, p)
    requires p < m.id && row.messageId != m.id && Backed(MovieGroup(par, s, p, None), row)
    ensures Backed(MovieGroup(par, SetSnap(s, m.id, snap), p, None), row) <==> !Disturbed(par, s, m, snap, p, row)
  {
    hide Backed, MovieGroup, Horizon, Disturbed, NextPoster;
    BackedExactly(par, s, p, row);
    EvidentRecorded(par, s, p, row);
    RowExactly(par, s, m, snap, p, row);
    BackedExactly(par, SetSnap(s, m.id, snap), p, row);
  }

  lemma EvidentRecorded(par: Parser, s: Index, p: MessageId, row: Row)
    requires PosterAt(par, s.snaps, p) && Evident(par, s, p, row)
    ensures row.messageId in s.snaps
  {
  }

  // ---- Shape: keys, ownership and the uniqueness constraints ------------------------------

  ghost predicate SameShape(s: Index, t: Index) {
    && t.snaps.Keys == s.snaps.Keys && t.movies.Keys == s.movies.Keys
    && t.rows.Keys == s.rows.Keys && t.nextRow == s.nextRow
    && forall k :: k in s.rows ==> t.rows[k].movie == s.rows[k].movie && t.rows[k].messageId == s.rows[k].messageId
                                   && t.rows[k].resolution == s.rows[k].resolution
  }

  lemma ShapeIsEnough(s: Index, t: Index)
    requires WellFormed(s) && SameShape(s, t)
    ensures WellFormed(t)
  {
    assert forall p :: p in t.movies ==> p in s.movies.Keys;
    assert forall p :: p in s.movies ==> p in t.movies.Keys;
    assert forall p :: p in s.snaps ==> p in t.snaps.Keys;
    assert forall k :: k in t.rows ==> k in s.rows.Keys;
  }

  lemma SettleShape(par: Parser, s: Index, p: MessageId)
    requires p in s.movies && WellFormed(s)
    ensures WellFormed(Settle(par, s, p)) && SameShape(s, Settle(par, s, p))
  {
    var t := Revalidate(par, s, p);
    assert SameShape(s, t) by {
      assert t.rows.Keys == s.rows.Keys;
    }
    assert SameShape(s, Settle(par, s, p));
    ShapeIsEnough(s, Settle(par, s, p));
  }

  lemma UpsertRowShape(s: Index, p: MessageId, item: ParsedQuality)
    requires WellFormed(s) && p in s.movies && p < item.messageId
    requires item.messageId in s.snaps && item.messageId !in s.movies && RowAt(s.rows, item.messageId).None?
    ensures WellFormed(UpsertRow(s, p, item))
  {
    match RowOf(s.rows, p, item.resolution)
    case None =>
      assert s.nextRow !in s.rows;
      RowPlaced(s, s.nextRow, p, item);
    case Some(k) =>
      RowPlaced(s, k, p, item);
  }

  // A row for a message that has none, where its movie has no other row of the resolution.
  lemma RowPlaced(s: Index, k: RowId, p: MessageId, item: ParsedQuality)
    requires WellFormed(s) && p in s.movies && p < item.messageId
    requires item.messageId in s.snaps && item.messageId !in s.movies && RowAt(s.rows, item.messageId).None?
    requires forall j :: j in s.rows && j != k && s.rows[j].movie == p ==> s.rows[j].resolution != item.resolution
    ensures WellFormed(s.(rows := s.rows[k := NewRow(p, item)], nextRow := Max(s.nextRow, k + 1)))
  {
  }

  lemma PlaceShape(par: Parser, s: Index, m: Message)
    requires WellFormed(s) && m.id in s.snaps && m.id !in s.movies && RowAt(s.rows, m.id).None?
    ensures WellFormed(Place(par, s, m))
  {
    hide MovieGroup, Settle;
    var p := PrevPoster(s.movies, m.id);
    match par.Detect(m.content)
    case AsPoster(f) =>
      var r := if p > 0 && s.movies[p].status.Pending?
               then SetStatus(s, p, if HasRows(s.rows, p) then Indexed else Orphan)
               else s;
      var t := r.(movies := r.movies[m.id := NewMovie(m, f)]);
      assert t.movies.Keys == s.movies.Keys + {m.id};
      assert WellFormed(t);
      if p > 0 {
        SettleShape(par, t, p);
      }
    case AsQuality(_) =>
      if p > 0 && ItemAt(MovieGroup(par, s, p, Some(m.id)), m.id).Some? {
        var item := ItemAt(MovieGroup(par, s, p, Some(m.id)), m.id).value;
        UpsertRowShape(s, p, item);
        SettleShape(par, UpsertRow(s, p, item), p);
      }
    case AsNoise =>
      if p > 0 {
        SettleShape(par, s, p);
      }
  }

  lemma EditQualityShape(par: Parser, s: Index, k: RowId, m: Message)
    requires WellFormed(s) && k in s.rows
    ensures WellFormed(EditQuality(par, s, k, m))
  {
    hide MovieGroup, Settle, ItemAt;
    var row := s.rows[k];
    var p := row.movie;
    var item := if m.content.kind.Video? || m.content.kind.Document?
                then ItemAt(MovieGroup(par, s, p, Some(m.id)), m.id) else None;
    if item.Some? && (item.value.resolution == row.resolution || !ResolutionTaken(s.rows, k, item.value.resolution)) {
      var t := SetRow(s, k, NewRow(p, item.value).(messageId := row.messageId));
      assert WellFormed(t);
      SettleShape(par, t, p);
    } else {
      assert SameShape(s, EditQuality(par, s, k, m));
    }
  }

  lemma RecordedShape(s: Index, id: MessageId, snap: Snapshot)
    requires WellFormed(s)
    ensures WellFormed(SetSnap(s, id, snap))
  {
  }

  lemma KnownRecorded(s: Index, id: MessageId)
    requires WellFormed(s) && (id in s.movies || RowAt(s.rows, id).Some?)
    ensures id in s.snaps
  {
  }

  lemma ConflictShape(par: Parser, s: Index, id: MessageId)
    requires WellFormed(s)
    ensures WellFormed(InvalidateConflict(par, s, id))
  {
    hide Settle;
    if id !in s.movies && RowAt(s.rows, id).None? && PrevPoster(s.movies, id) > 0 {
      SettleShape(par, s, PrevPoster(s.movies, id));
    }
  }

  lemma EditPosterShape(par: Parser, s: Index, m: Message)
    requires WellFormed(s) && m.id in s.movies
    ensures WellFormed(EditPoster(par, s, m))
  {
    hide Settle, ArchiveParser.Parser.Detect;
    var d := par.Detect(m.content);
    if d.AsPoster? {
      SettleShape(par, s.(movies := s.movies[m.id := NewMovie(m, d.poster).(status := s.movies[m.id].status)]), m.id);
    }
  }

  /** No step ever meets a uniqueness constraint: the shape of the tables is kept by all of them. */
  lemma StepWellFormed(par: Parser, s: Index, e: Event)
    requires WellFormed(s)
    ensures WellFormed(Step(par, s, e))
  {
    hide WellFormed, EditQuality, EditPoster, InvalidateConflict, Place;
    var m := e.m;
    var (outcome, snap) := EventRecord(s, e);
    if !outcome.Stale? {
      var t := SetSnap(s, m.id, snap.value);
      RecordedShape(s, m.id, snap.value);
      if m.id in s.movies || RowAt(s.rows, m.id).Some? {
        KnownRecorded(s, m.id);
      }
      if outcome.Conflict? {
        ConflictShape(par, t, m.id);
      } else if m.id in t.movies {
        EditPosterShape(par, t, m);
      } else if RowAt(t.rows, m.id).Some? {
        EditQualityShape(par, t, RowAt(t.rows, m.id).value, m);
      } else {
        PlaceShape(par, t, m);
      }
    }
  }

  // ---- Steps and runs ---------------------------------------------------------------------

  /** What an event does to the snapshot of its message. */
  function EventRecord(s: Index, e: Event): (Recorded, Option<Snapshot>) {
    match e
    case Post(m) => Record(SnapAt(s, m.id), m, false, None)
    case Edit(m) => Record(SnapAt(s, m.id), m, true, None)
    case Reread(m, expected) => Record(SnapAt(s, m.id), m, true, Some(expected))
  }

  /** An event inside the range of an indexed movie that the index does not bring to that movie's
      attention: it concerns a row of another movie, whose range a later poster has taken over, or it is
      a refused quality. */
  ghost predicate Unattended(par: Parser, s: Index, e: Event) {
    var m := e.m;
    var (outcome, snap) := EventRecord(s, e);
    var p := Owner(s, m.id);
    && !outcome.Stale? && p > 0 && m.id !in s.movies && s.movies[p].status.Indexed?
    && var k := RowAt(s.rows, m.id);
       if k.Some? then s.rows[k.value].movie != p
       else
         && outcome.Applied? && par.Detect(m.content).AsQuality?
         && ItemAt(MovieGroup(par, SetSnap(s, m.id, snap.value), p, Some(m.id)), m.id).None?
  }

  /** Such an event that matters: it is a conflict, or it disturbs the evidence of a row of that movie. */
  ghost predicate Overlooked(par: Parser, s: Index, e: Event) {
    Unattended(par, s, e) &&
    var (outcome, snap) := EventRecord(s, e);
    var p := Owner(s, e.m.id);
    outcome.Conflict? || exists k ::
      k in s.rows && s.rows[k].movie == p && Disturbed(par, s, e.m, snap.value, p, s.rows[k])
  }

  lemma PlaceSafe(par: Parser, s: Index, m: Message, snap: Snapshot)
    requires WellFormed(s) && Safe(par, s)
    requires m.id !in s.movies && RowAt(s.rows, m.id).None?
    requires snap.content == m.content && !snap.conflicted
    requires var p := Owner(s, m.id);
             !(par.Detect(m.content).AsQuality? && p > 0 && s.movies[p].status.Indexed?
               && ItemAt(MovieGroup(par, SetSnap(s, m.id, snap), p, Some(m.id)), m.id).None?)
    ensures Safe(par, Place(par, SetSnap(s, m.id, snap), m))
  {
    hide ItemAt, MovieGroup, UpsertPoster, UpsertQuality, Boundary, ArchiveParser.Parser.Detect;
    var t := SetSnap(s, m.id, snap);
    RecordingConcernsOwner(par, s, m.id, snap);
    assert Owner(s, m.id) == PrevPoster(s.movies, m.id);
    match par.Detect(m.content)
    case AsPoster(f) => UpsertPosterSafe(par, t, m, f);
    case AsQuality(_) =>
      RecordedShape(s, m.id, snap);
      UpsertQualitySafe(par, t, m);
    case AsNoise => BoundarySafe(par, t, m.id);
  }

  /** Every step that gets the attention of the movie concerned keeps every indexed movie safe. */
  lemma AttendedSafe(par: Parser, s: Index, e: Event)
    requires WellFormed(s) && Safe(par, s) && !Unattended(par, s, e)
    ensures Safe(par, Step(par, s, e))
  {
    hide MovieSafe, MovieGroup, ItemAt, EditPoster, EditQuality, Place, InvalidateConflict, ArchiveParser.Parser.Detect;
    var m := e.m;
    var (outcome, snap) := EventRecord(s, e);
    if !outcome.Stale? {
      var t := SetSnap(s, m.id, snap.value);
      var p := Owner(s, m.id);
      RecordingConcernsOwner(par, s, m.id, snap.value);
      RecordedShape(s, m.id, snap.value);
      var k := RowAt(s.rows, m.id);
      assert t.movies == s.movies && t.rows == s.rows;
      if m.id !in s.movies && k.Some? && s.rows[k.value].movie != p {
        assert p > 0 ==> MovieSafe(par, t, p) by {
          NotIndexedSafe(par, t, p);
        }
        assert Safe(par, t);
      }
      if outcome.Conflict? {
        InvalidateConflictSafe(par, t, m.id);
      } else if m.id in s.movies {
        EditPosterSafe(par, t, m);
      } else if k.Some? {
        EditQualitySafe(par, t, k.value, m);
      } else {
        PlaceSafe(par, s, m, snap.value);
      }
    }
  }

  lemma NotIndexedSafe(par: Parser, s: Index, p: int)
    requires p > 0 && p in s.movies ==> !s.movies[p].status.Indexed?
    ensures p > 0 && p in s.movies ==> MovieSafe(par, s, p)
  {
  }

  // An unattended event that is applied leaves its owner with nothing but new evidence.
  lemma UnattendedExactly(par: Parser, s: Index, e: Event)
    requires WellFormed(s) && Safe(par, s) && Unattended(par, s, e) && EventRecord(s, e).0.Applied?
    ensures var snap := EventRecord(s, e).1.value;
            Safe(par, Step(par, s, e)) <==> MovieSafe(par, SetSnap(s, e.m.id, snap), Owner(s, e.m.id))
  {
    hide MovieSafe, MovieGroup, ItemAt, EditQuality, Settle, ArchiveParser.Parser.Detect;
    var m, snap := e.m, EventRecord(s, e).1.value;
    var u, p := SetSnap(s, m.id, snap), Owner(s, m.id);
    RecordingConcernsOwner(par, s, m.id, snap);
    assert m.id !in s.movies && PrevPoster(s.movies, m.id) == p;
    var k := RowAt(s.rows, m.id);
    if k.Some? {
      var t := EditQuality(par, u, k.value, m);
      assert Step(par, s, e) == t;
      EditQualityElsewhere(par, u, k.value, m, p);
      if MovieSafe(par, u, p) {
        EditQualitySafe(par, u, k.value, m);
      } else if MovieSafe(par, t, p) {
        UntouchedStaysSafe(par, t, u, p);
      }
    } else {
      assert Step(par, s, e) == u;
    }
  }

  lemma EditQualityElsewhere(par: Parser, s: Index, k: RowId, m: Message, p: MessageId)
    requires k in s.rows && s.rows[k].movie in s.movies && p in s.movies && s.rows[k].movie != p
    ensures Untouched(EditQuality(par, s, k, m), s, p) && p in EditQuality(par, s, k, m).movies
  {
    hide MovieGroup, ItemAt;
    SameNeighbours(s.movies, EditQuality(par, s, k, m).movies);
  }

  lemma ConflictUnsafe(par: Parser, s: Index, e: Event)
    requires WellFormed(s) && EventRecord(s, e).0.Conflict? && Unattended(par, s, e)
    ensures !Safe(par, Step(par, s, e))
  {
    hide MovieGroup, Settle;
    var t, p := Step(par, s, e), Owner(s, e.m.id);
    assert t.movies.Keys == s.movies.Keys;
    SameNeighbours(s.movies, t.movies);
    assert t.snaps[e.m.id].conflicted && p <= e.m.id < NextPoster(s.movies, p);
    assert t.movies[p].status.Indexed? && !MovieSafe(par, t, p);
  }

  lemma NoRowOfOwner(par: Parser, s: Index, e: Event)
    requires WellFormed(s) && Unattended(par, s, e)
    ensures var p := Owner(s, e.m.id);
            && 0 < p < e.m.id && p in s.movies && s.movies[p].status.Indexed? && !EventRecord(s, e).0.Stale?
            && forall k :: k in s.rows && s.rows[k].movie == p ==> s.rows[k].messageId != e.m.id
  {
    hide MovieGroup, ItemAt;
  }

  /** The exact condition: a step keeps every indexed movie safe if and only if it is not overlooked. */
  lemma StepSafeExactly(par: Parser, s: Index, e: Event)
    requires WellFormed(s) && Safe(par, s)
    ensures Safe(par, Step(par, s, e)) <==> !Overlooked(par, s, e)
  {
    hide Unattended, MovieSafe, Disturbed, Step, WellFormed, MovieGroup;
    if !Unattended(par, s, e) {
      AttendedSafe(par, s, e);
    } else if EventRecord(s, e).0.Conflict? {
      ConflictUnsafe(par, s, e);
    } else {
      NoRowOfOwner(par, s, e);
      var snap, p := EventRecord(s, e).1.value, Owner(s, e.m.id);
      UnattendedExactly(par, s, e);
      RecordingSafeExactly(par, s, e.m, snap, p);
    }
  }

  // ---- A refused quality that is new ------------------------------------------------------

  // A quality that is not taken changes nothing of what is taken after it.
  lemma {:induction false} RefusedChangesNothing(par: Parser, snaps: Snapshots, m: MessageId, snap: Snapshot,
                                                 p: MessageId, n: int)
    requires PosterAt(par, snaps, p) && p < m && m !in snaps && n <= MAX_ID
    requires var after := snaps[m := snap];
             At(par, after, m).AsQuality? && !Taken(par, after, p, m)
    ensures var after := snaps[m := snap];
            && PosterAt(par, after, p)
            && (Ended(par, after, p, n) <==> Ended(par, snaps, p, n))
            && (Ended(par, after, p, n) || Silence(par, after, p, n) == Silence(par, snaps, p, n))
    decreases n
  {
    hide ArchiveParser.Parser.Detect;
    if n > p + 1 {
      RefusedChangesNothing(par, snaps, m, snap, p, n - 1);
    }
  }

  lemma TakenIsFound(par: Parser, u: Index, p: MessageId, id: MessageId)
    requires p in u.movies && u.movies[p].confidence > 0 && p < id < Horizon(u, p)
    requires PosterAt(par, u.snaps, p) && Taken(par, u.snaps, p, id)
    ensures ItemAt(MovieGroup(par, u, p, Some(id)), id).Some?
  {
    hide Taken, Superseded, PosterAt, ScanTo, Item, Horizon;
    ScanDescribed(par, u.snaps, p, id + 1);
    TakenIsNewest(par, u.snaps, p, id);
    var r := At(par, u.snaps, id).quality.resolution;
    assert HasItem(par, u.snaps, p, ScanTo(par, u.snaps, p, id + 1).b.qualities, r, id);
    ItemIs(par, u.snaps, p, id);
    assert Through(u, p, Some(id)) == id + 1;
    assert Holds(MovieGroup(par, u, p, Some(id)), r, id);
  }

  lemma RefusedIsNotTaken(par: Parser, s: Index, m: Message, snap: Snapshot, p: MessageId)
    requires p in s.movies && s.movies[p].status.Indexed? && MovieSafe(par, s, p)
    requires p < m.id < NextPoster(s.movies, p) && snap.content == m.content && !snap.conflicted
    requires ItemAt(MovieGroup(par, SetSnap(s, m.id, snap), p, Some(m.id)), m.id).None?
    ensures PosterAt(par, SetSnap(s, m.id, snap).snaps, p) && !Taken(par, SetSnap(s, m.id, snap).snaps, p, m.id)
  {
    hide Taken, PosterAt, Horizon, MovieGroup, ItemAt;
    var u := SetSnap(s, m.id, snap);
    IndexedHasPoster(par, s, p);
    SamePoster(par, s.snaps, m.id, snap, p);
    HorizonAfter(s, m.id, snap, p);
    if Taken(par, u.snaps, p, m.id) {
      TakenIsFound(par, u, p, m.id);
    }
  }

  lemma SamePoster(par: Parser, snaps: Snapshots, m: MessageId, snap: Snapshot, p: MessageId)
    requires PosterAt(par, snaps, p) && m != p
    ensures PosterAt(par, snaps[m := snap], p)
  {
  }

  lemma TakenIsNewest(par: Parser, snaps: Snapshots, p: MessageId, id: MessageId)
    requires PosterAt(par, snaps, p) && Taken(par, snaps, p, id)
    ensures At(par, snaps, id).AsQuality? && Newest(par, snaps, p, id + 1, At(par, snaps, id).quality.resolution, id)
  {
  }

  lemma RefusedSupersedesNothing(par: Parser, s: Index, m: Message, snap: Snapshot, p: MessageId, row: Row)
    requires PosterAt(par, s.snaps, p) && p < m.id && m.id !in s.snaps && Evident(par, s, p, row) && p in s.movies
    requires var after := s.snaps[m.id := snap];
             At(par, after, m.id).AsQuality? && !Taken(par, after, p, m.id)
    ensures Disturbed(par, s, m, snap, p, row) <==> m.id < row.messageId && Distance(s.snaps, p, row.messageId) < 5
  {
    hide Ended, Silence, Distance, ArchiveParser.Parser.Detect, NextPoster;
    var after, n := s.snaps[m.id := snap], NextPoster(s.movies, p);
    RefusedChangesNothing(par, s.snaps, m.id, snap, p, row.messageId);
    forall j: MessageId | row.messageId < j < n && Taken(par, after, p, j)
      ensures At(par, after, j).quality.resolution != row.resolution
    {
      RefusedChangesNothing(par, s.snaps, m.id, snap, p, j);
      assert j != m.id;
      assert Taken(par, s.snaps, p, j) && At(par, s.snaps, j) == At(par, after, j);
    }
  }

  /** For a new post the condition is a matter of counting: a refused quality breaks the safety of the movie it lands in
      if and only if a row of that movie, above it, is among the first four recorded messages after the poster. */
  lemma RefusedPostSafeExactly(par: Parser, s: Index, m: Message)
    requires WellFormed(s) && Safe(par, s) && m.id !in s.snaps && Unattended(par, s, Post(m))
    ensures var p := Owner(s, m.id);
            Safe(par, Step(par, s, Post(m)))
            <==> forall k :: k in s.rows && s.rows[k].movie == p && s.rows[k].messageId > m.id ==>
                   Distance(s.snaps, p, s.rows[k].messageId) >= 5
  {
    hide MovieSafe, Step, Disturbed, MovieGroup, ItemAt, ArchiveParser.Parser.Detect;
    StepSafeExactly(par, s, Post(m));
    NoRowOfOwner(par, s, Post(m));
    var p, snap := Owner(s, m.id), Snapshot(m.content, m.editedAt, false, 1);
    assert EventRecord(s, Post(m)) == (Applied, Some(snap));
    RefusedIsNotTaken(par, s, m, snap, p);
    IndexedHasPoster(par, s, p);
    forall k | k in s.rows && s.rows[k].movie == p
      ensures Disturbed(par, s, m, snap, p, s.rows[k])
              <==> m.id < s.rows[k].messageId && Distance(s.snaps, p, s.rows[k].messageId) < 5
    {
      RowEvident(par, s, p, k);
      RefusedSupersedesNothing(par, s, m, snap, p, s.rows[k]);
    }
  }

  lemma RowEvident(par: Parser, s: Index, p: MessageId, k: RowId)
    requires p in s.movies && s.movies[p].status.Indexed? && MovieSafe(par, s, p) && PosterAt(par, s.snaps, p)
    requires k in s.rows && s.rows[k].movie == p
    ensures Evident(par, s, p, s.rows[k])
  {
    hide Backed, MovieGroup, Evident, Horizon;
    BackedExactly(par, s, p, s.rows[k]);
  }

  // Movies other than p differ at most in their status.
  ghost predicate OnlyStatusElsewhere(s: Index, t: Index, p: int) {
    && t.snaps == s.snaps
    && forall q :: q in t.movies && q != p ==>
       q in s.movies && t.movies[q].(status := Pending) == s.movies[q].(status := Pending)
  }

  ghost predicate SyncedExcept(par: Parser, s: Index, p: int) {
    forall q :: q in s.movies && q != p && s.movies[q].confidence > 0 ==> SyncedAt(par, s, q)
  }

  lemma SettleSynced(par: Parser, s: Index, p: MessageId)
    requires p in s.movies && Synced(par, s)
    ensures Synced(par, Settle(par, s, p))
  {
    var t := Settle(par, s, p);
    assert OnlyStatusElsewhere(s, t, 0);
  }

  lemma PlaceSynced(par: Parser, s: Index, m: Message)
    requires Synced(par, s) && m.id !in s.movies
    requires m.id in s.snaps && s.snaps[m.id].content == m.content && !s.snaps[m.id].conflicted
    ensures Synced(par, Place(par, s, m))
  {
    hide Synced, UpsertPoster, MovieGroup, ItemAt, Settle, UpsertRow, ArchiveParser.Parser.Detect;
    var p := PrevPoster(s.movies, m.id);
    match par.Detect(m.content)
    case AsPoster(f) =>
      UpsertPosterSynced(par, s, m, f);
    case AsQuality(_) =>
      if p > 0 && ItemAt(MovieGroup(par, s, p, Some(m.id)), m.id).Some? {
        var t := UpsertRow(s, p, ItemAt(MovieGroup(par, s, p, Some(m.id)), m.id).value);
        SameMoviesSynced(par, s, t);
        SettleSynced(par, t, p);
      }
    case AsNoise =>
      if p > 0 {
        SettleSynced(par, s, p);
      }
  }

  lemma SameMoviesSynced(par: Parser, s: Index, t: Index)
    requires Synced(par, s) && t.movies == s.movies && t.snaps == s.snaps
    ensures Synced(par, t)
  {
    hide SyncedAt;
    forall p | p in t.movies && t.movies[p].confidence > 0
      ensures SyncedAt(par, t, p)
    {
      SameSynced(par, s, t, p);
    }
  }

  lemma SameSynced(par: Parser, s: Index, t: Index, p: MessageId)
    requires p in s.movies && SyncedAt(par, s, p) && t.movies == s.movies && t.snaps == s.snaps
    ensures SyncedAt(par, t, p)
  {
  }

  lemma UpsertPosterSynced(par: Parser, s: Index, m: Message, f: PosterFields)
    requires Synced(par, s) && m.id !in s.movies && par.Detect(m.content) == AsPoster(f)
    requires m.id in s.snaps && s.snaps[m.id].content == m.content && !s.snaps[m.id].conflicted
    ensures Synced(par, UpsertPoster(par, s, m, f))
  {
    hide Settle, ArchiveParser.Parser.Detect;
    var p := PrevPoster(s.movies, m.id);
    var r := if p > 0 && s.movies[p].status.Pending?
             then SetStatus(s, p, if HasRows(s.rows, p) then Indexed else Orphan)
             else s;
    var t := r.(movies := r.movies[m.id := NewMovie(m, f)]);
    assert OnlyStatusElsewhere(s, t, m.id);
    assert SyncedAt(par, t, m.id);
    if p > 0 {
      SettleSynced(par, t, p);
    }
  }

  lemma EditQualitySynced(par: Parser, s: Index, k: RowId, m: Message)
    requires Synced(par, s) && k in s.rows && s.rows[k].movie in s.movies
    ensures Synced(par, EditQuality(par, s, k, m))
  {
    var row := s.rows[k];
    var p := row.movie;
    var item := if m.content.kind.Video? || m.content.kind.Document?
                then ItemAt(MovieGroup(par, s, p, Some(m.id)), m.id) else None;
    if item.Some? && (item.value.resolution == row.resolution || !ResolutionTaken(s.rows, k, item.value.resolution)) {
      var t := SetRow(s, k, NewRow(p, item.value).(messageId := row.messageId));
      assert Synced(par, t);
      SettleSynced(par, t, p);
    } else {
      assert OnlyStatusElsewhere(s, EditQuality(par, s, k, m), 0);
    }
  }

  lemma EditPosterSynced(par: Parser, s: Index, m: Message)
    requires SyncedExcept(par, s, m.id) && m.id in s.movies
    requires m.id in s.snaps && s.snaps[m.id].content == m.content && !s.snaps[m.id].conflicted
    ensures Synced(par, EditPoster(par, s, m))
  {
    var d := par.Detect(m.content);
    if d.AsPoster? {
      var t := s.(movies := s.movies[m.id := NewMovie(m, d.poster).(status := s.movies[m.id].status)]);
      assert SyncedAt(par, t, m.id);
      assert Synced(par, t);
      SettleSynced(par, t, m.id);
    } else {
      assert OnlyStatusElsewhere(s, EditPoster(par, s, m), m.id);
    }
  }

  lemma InvalidateConflictSynced(par: Parser, s: Index, id: MessageId)
    requires WellFormed(s) && SyncedExcept(par, s, id)
    ensures Synced(par, InvalidateConflict(par, s, id))
  {
    hide Settle, MovieGroup, ArchiveParser.Parser.Detect;
    var t := InvalidateConflict(par, s, id);
    if id in s.movies || RowAt(s.rows, id).Some? {
      assert OnlyStatusElsewhere(s, t, id);
    } else if PrevPoster(s.movies, id) > 0 {
      assert Synced(par, s);
      SettleSynced(par, s, PrevPoster(s.movies, id));
    }
  }

  lemma StepSynced(par: Parser, s: Index, e: Event)
    requires WellFormed(s) && Synced(par, s)
    ensures Synced(par, Step(par, s, e))
  {
    var m := e.m;
    var (outcome, snap) := EventRecord(s, e);
    if !outcome.Stale? {
      var t := SetSnap(s, m.id, snap.value);
      assert SyncedExcept(par, t, m.id);
      hide EditPoster, EditQuality, Place, InvalidateConflict;
      if outcome.Conflict? {
        InvalidateConflictSynced(par, t, m.id);
      } else if m.id in t.movies {
        EditPosterSynced(par, t, m);
      } else if RowAt(t.rows, m.id).Some? {
        EditQualitySynced(par, t, RowAt(t.rows, m.id).value, m);
      } else {
        PlaceSynced(par, t, m);
      }
    }
  }

  ghost function Run(par: Parser, s: Index, es: seq<Event>): (t: Index)
    requires WellFormed(s)
    ensures WellFormed(t)
    decreases |es|
  {
    if es == [] then s
    else
      StepWellFormed(par, s, es[0]);
      Run(par, Step(par, s, es[0]), es[1..])
  }

  lemma {:induction false} RunInTwo(par: Parser, s: Index, es: seq<Event>, fs: seq<Event>)
    requires WellFormed(s)
    ensures Run(par, s, es + fs) == Run(par, Run(par, s, es), fs)
    decreases |es|
  {
    hide Step, WellFormed;
    if es == [] {
      assert es + fs == fs;
    } else {
      StepWellFormed(par, s, es[0]);
      RunInTwo(par, Step(par, s, es[0]), es[1..], fs);
      assert (es + fs)[1..] == es[1..] + fs;
    }
  }

  ghost predicate NothingOverlooked(par: Parser, s: Index, es: seq<Event>)
    requires WellFormed(s)
    decreases |es|
  {
    es == [] || (!Overlooked(par, s, es[0]) &&
                 (StepWellFormed(par, s, es[0]); NothingOverlooked(par, Step(par, s, es[0]), es[1..])))
  }

  // Every state of the run is safe.
  ghost predicate AlwaysSafe(par: Parser, s: Index, es: seq<Event>)
    requires WellFormed(s)
    decreases |es|
  {
    Safe(par, s) && (es == [] || (StepWellFormed(par, s, es[0]); AlwaysSafe(par, Step(par, s, es[0]), es[1..])))
  }

  /** The exact condition for runs: every state is safe if and only if no event is overlooked. */
  lemma {:induction false} RunSafeExactly(par: Parser, s: Index, es: seq<Event>)
    requires WellFormed(s) && Safe(par, s)
    ensures AlwaysSafe(par, s, es) <==> NothingOverlooked(par, s, es)
    decreases |es|
  {
    hide Safe, Step, Overlooked, WellFormed;
    if es != [] {
      StepSafeExactly(par, s, es[0]);
      StepWellFormed(par, s, es[0]);
      if Safe(par, Step(par, s, es[0])) {
        RunSafeExactly(par, Step(par, s, es[0]), es[1..]);
      } else {
        assert !AlwaysSafe(par, Step(par, s, es[0]), es[1..]);
      }
    }
  }

  /** Safety of "indexed" over every run in which no event is overlooked. */
  lemma {:induction false} RunSafe(par: Parser, s: Index, es: seq<Event>)
    requires WellFormed(s) && Safe(par, s) && Synced(par, s) && NothingOverlooked(par, s, es)
    ensures Safe(par, Run(par, s, es)) && Synced(par, Run(par, s, es))
    decreases |es|
  {
    if es != [] {
      StepSafeExactly(par, s, es[0]);
      StepSynced(par, s, es[0]);
      StepWellFormed(par, s, es[0]);
      RunSafe(par, Step(par, s, es[0]), es[1..]);
    }
  }
}
