/** When the rows of every movie are all that the parser takes for it, and nothing else: the exact condition for each
    event and each run, and the rows no run can ever put right. */
module ArchiveCompleteness {
  import opened Wrappers
  import opened Archive
  import opened ArchiveParser
  import opened ArchiveIndex
  import opened ArchiveEvidence
  import opened ArchiveSafety

  // ---- Computing with the index -----------------------------------------------------------

  /** What the index looks for at a message is what the parser takes there. */
  lemma ItemAtExactly(par: Parser, u: Index, p: MessageId, id: MessageId)
    requires p in u.movies && u.movies[p].confidence > 0 && p < id < Horizon(u, p) && PosterAt(par, u.snaps, p)
    ensures ItemAt(MovieGroup(par, u, p, Some(id)), id)
            == if Taken(par, u.snaps, p, id) then Some(Item(par, u.snaps, p, id)) else None
  {
    hide Taken, Superseded, PosterAt, ScanTo, Item, Horizon;
    var item := ItemAt(MovieGroup(par, u, p, Some(id)), id);
    assert Through(u, p, Some(id)) == id + 1;
    ScanDescribed(par, u.snaps, p, id + 1);
    var kept := ScanTo(par, u.snaps, p, id + 1).b.qualities;
    if Taken(par, u.snaps, p, id) {
      TakenIsFound(par, u, p, id);
    }
    if item.Some? {
      var r :| Holds(MovieGroup(par, u, p, Some(id)), r, id)
        && item.value == MovieGroup(par, u, p, Some(id)).value.qualities[r];
      assert Newest(par, u.snaps, p, id + 1, r, kept[r].messageId);
      assert HasItem(par, u.snaps, p, kept, r, id);
    }
  }

  // What settling a movie makes of one of its rows.
  function SettledRow(par: Parser, s: Index, p: MessageId, row: Row): Row
    requires PosterAt(par, s.snaps, p) && Fits(par, s.snaps, p, row.messageId)
  {
    var item := Item(par, s.snaps, p, row.messageId);
    row.(confidence := item.confidence, title := item.rawTitle, normalizedTitle := item.normalizedTitle,
         year := item.year)
  }

  lemma RevalidatedExactly(par: Parser, s: Index, p: MessageId, row: Row)
    requires p in s.movies && s.movies[p].confidence > 0 && Horizon(s, p) == NextPoster(s.movies, p)
             && PosterAt(par, s.snaps, p)
    ensures RevalidatedRow(MovieGroup(par, s, p, None), row)
            == if Newest(par, s.snaps, p, NextPoster(s.movies, p), row.resolution, row.messageId)
               then SettledRow(par, s, p, row) else row.(confidence := 0)
  {
    hide PosterAt, Taken, Superseded, ScanTo, Item, Horizon, NextPoster;
    var n := NextPoster(s.movies, p);
    ScanDescribed(par, s.snaps, p, n);
    var kept := ScanTo(par, s.snaps, p, n).b.qualities;
    if Newest(par, s.snaps, p, n, row.resolution, row.messageId) {
      assert HasItem(par, s.snaps, p, kept, row.resolution, row.messageId);
      ItemIs(par, s.snaps, p, row.messageId);
    } else if row.resolution in kept {
      assert Newest(par, s.snaps, p, n, row.resolution, kept[row.resolution].messageId);
    }
  }

  // ---- Rows and what the parser takes -----------------------------------------------------

  /** Below n the message is the newest one taken for its resolution. */
  ghost predicate Stands(par: Parser, snaps: Snapshots, p: MessageId, n: int, id: MessageId)
    requires PosterAt(par, snaps, p)
  {
    Taken(par, snaps, p, id) && Newest(par, snaps, p, n, At(par, snaps, id).quality.resolution, id)
  }

  ghost predicate HasRowAt(rows: Rows, p: MessageId, id: MessageId) {
    exists k :: k in rows && rows[k].movie == p && rows[k].messageId == id
  }

  /** The movie has rows for exactly the messages that stand. */
  ghost predicate Stocked(par: Parser, snaps: Snapshots, rows: Rows, p: MessageId, n: int)
    requires PosterAt(par, snaps, p)
  {
    && (forall k :: k in rows && rows[k].movie == p ==> Newest(par, snaps, p, n, rows[k].resolution, rows[k].messageId))
    && (forall id: MessageId :: Stands(par, snaps, p, n, id) ==> HasRowAt(rows, p, id))
  }

  /** The movie's rows are all that the parser takes for it, and say what it says. */
  ghost predicate Exact(par: Parser, s: Index, p: MessageId)
    requires p in s.movies
  {
    && s.movies[p].confidence > 0 && Horizon(s, p) == NextPoster(s.movies, p) && PosterAt(par, s.snaps, p)
    && (forall k :: k in s.rows && s.rows[k].movie == p ==> Evident(par, s, p, s.rows[k]))
    && (forall id: MessageId :: Stands(par, s.snaps, p, NextPoster(s.movies, p), id) ==> HasRowAt(s.rows, p, id))
  }

  ghost predicate AllExact(par: Parser, s: Index) {
    forall p :: p in s.movies ==> Exact(par, s, p)
  }

  /** Said with the parser: every row is a quality of the movie's group, and every quality has a row. */
  ghost predicate EqualsGroup(par: Parser, s: Index, p: MessageId)
    requires p in s.movies
  {
    var g := MovieGroup(par, s, p, None);
    && (forall k :: k in s.rows && s.rows[k].movie == p ==> Backed(g, s.rows[k]))
    && (g.Some? ==> forall r {:trigger RowOf(s.rows, p, r)} :: r in g.value.qualities ==> RowOf(s.rows, p, r).Some?)
  }

  lemma GroupIsKept(par: Parser, s: Index, p: MessageId)
    requires p in s.movies && s.movies[p].confidence > 0 && Horizon(s, p) == NextPoster(s.movies, p)
             && PosterAt(par, s.snaps, p)
    ensures MovieGroup(par, s, p, None).Some?
    ensures KeepsNewest(par, s.snaps, p, NextPoster(s.movies, p), MovieGroup(par, s, p, None).value.qualities)
  {
    hide PosterAt, Taken, Superseded, ScanTo, Item, Horizon, NextPoster, KeepsNewest;
    ScanDescribed(par, s.snaps, p, NextPoster(s.movies, p));
  }

  lemma ExactIsParse(par: Parser, s: Index, p: MessageId)
    requires p in s.movies && s.movies[p].confidence > 0 && Horizon(s, p) == NextPoster(s.movies, p)
             && PosterAt(par, s.snaps, p)
    ensures Exact(par, s, p) <==> EqualsGroup(par, s, p)
  {
    hide PosterAt, Taken, Superseded, Item, Horizon, NextPoster, MovieGroup, Backed;
    GroupIsKept(par, s, p);
    forall k | k in s.rows && s.rows[k].movie == p
      ensures Backed(MovieGroup(par, s, p, None), s.rows[k]) <==> Evident(par, s, p, s.rows[k])
    {
      BackedExactly(par, s, p, s.rows[k]);
    }
    if forall k :: k in s.rows && s.rows[k].movie == p ==> Evident(par, s, p, s.rows[k]) {
      var n, kept := NextPoster(s.movies, p), MovieGroup(par, s, p, None).value.qualities;
      forall id: MessageId | Stands(par, s.snaps, p, n, id) && forall r {:trigger RowOf(s.rows, p, r)} :: r in kept ==>
        RowOf(s.rows, p, r).Some?
        ensures HasRowAt(s.rows, p, id)
      {
        StandingHasRow(par, s, p, id, kept);
      }
      forall r | r in kept && forall id: MessageId :: Stands(par, s.snaps, p, n, id) ==> HasRowAt(s.rows, p, id)
        ensures RowOf(s.rows, p, r).Some?
      {
        KeptHasRow(par, s, p, r, kept);
      }
    }
  }

  lemma StandingHasRow(par: Parser, s: Index, p: MessageId, id: MessageId, kept: map<string, ParsedQuality>)
    requires p in s.movies && PosterAt(par, s.snaps, p)
    requires Stands(par, s.snaps, p, NextPoster(s.movies, p), id)
             && KeepsNewest(par, s.snaps, p, NextPoster(s.movies, p), kept)
    requires forall k :: k in s.rows && s.rows[k].movie == p ==> Evident(par, s, p, s.rows[k])
    requires forall r {:trigger RowOf(s.rows, p, r)} :: r in kept ==> RowOf(s.rows, p, r).Some?
    ensures HasRowAt(s.rows, p, id)
  {
    hide PosterAt, Ended, Item, NextPoster;
    var n, r := NextPoster(s.movies, p), At(par, s.snaps, id).quality.resolution;
    assert HasItem(par, s.snaps, p, kept, r, id);
    var k := RowOf(s.rows, p, r).value;
    assert Evident(par, s, p, s.rows[k]);
    OneNewest(par, s.snaps, p, n, r, id, s.rows[k].messageId);
  }

  lemma OneNewest(par: Parser, snaps: Snapshots, p: MessageId, n: int, r: string, i: MessageId, j: MessageId)
    requires PosterAt(par, snaps, p) && Newest(par, snaps, p, n, r, i) && Newest(par, snaps, p, n, r, j)
    ensures i == j
  {
    hide Taken, PosterAt, At;
  }

  lemma KeptHasRow(par: Parser, s: Index, p: MessageId, r: string, kept: map<string, ParsedQuality>)
    requires p in s.movies && PosterAt(par, s.snaps, p)
    requires r in kept && KeepsNewest(par, s.snaps, p, NextPoster(s.movies, p), kept)
    requires forall k :: k in s.rows && s.rows[k].movie == p ==> Evident(par, s, p, s.rows[k])
    requires forall id: MessageId :: Stands(par, s.snaps, p, NextPoster(s.movies, p), id) ==> HasRowAt(s.rows, p, id)
    ensures RowOf(s.rows, p, r).Some?
  {
    hide PosterAt, Taken, Item, NextPoster, Superseded;
    var id := kept[r].messageId;
    assert Newest(par, s.snaps, p, NextPoster(s.movies, p), r, id);
    NewestStands(par, s.snaps, p, NextPoster(s.movies, p), r, id);
    var k :| k in s.rows && s.rows[k].movie == p && s.rows[k].messageId == id;
    assert Evident(par, s, p, s.rows[k]);
  }

  lemma NewestStands(par: Parser, snaps: Snapshots, p: MessageId, n: int, r: string, id: MessageId)
    requires PosterAt(par, snaps, p)
    ensures Newest(par, snaps, p, n, r, id) <==>
            Stands(par, snaps, p, n, id) && At(par, snaps, id).quality.resolution == r
  {
    hide Superseded;
  }

  lemma {:induction false} LatestStands(par: Parser, snaps: Snapshots, p: MessageId, n: int, r: string, id: MessageId)
    returns (j: MessageId)
    requires PosterAt(par, snaps, p) && id < n && Taken(par, snaps, p, id) && At(par, snaps, id).quality.resolution == r
    ensures id <= j && Newest(par, snaps, p, n, r, j) && Stands(par, snaps, p, n, j)
    decreases n - id
  {
    hide Ended, PosterAt;
    if Superseded(par, snaps, p, n, r, id) {
      var i: MessageId :| id < i < n && Taken(par, snaps, p, i) && At(par, snaps, i).quality.resolution == r;
      j := LatestStands(par, snaps, p, n, r, i);
    } else {
      j := id;
    }
    NewestStands(par, snaps, p, n, r, j);
  }

  // ---- One message more -------------------------------------------------------------------

  /** The message takes the place of an older one of its resolution. */
  predicate Displaces(par: Parser, after: Snapshots, p: MessageId, m: MessageId, id: MessageId)
    requires PosterAt(par, after, p)
  {
    && Taken(par, after, p, m) && id < m && id in after && At(par, after, id).AsQuality?
    && At(par, after, id).quality.resolution == At(par, after, m).quality.resolution
  }

  /** Other messages stand as before, but for those the message displaces. */
  ghost predicate Unmoved(par: Parser, before: Snapshots, after: Snapshots, p: MessageId, n: int, m: MessageId) {
    && PosterAt(par, before, p) && PosterAt(par, after, p)
    && forall id: MessageId :: id != m ==>
         (Stands(par, after, p, n, id) <==> Stands(par, before, p, n, id) && !Displaces(par, after, p, m, id))
  }

  // A row of the message's resolution is attached to a later message.
  ghost predicate HeldLater(par: Parser, after: Snapshots, rows: Rows, p: MessageId, m: MessageId)
    requires m in after && At(par, after, m).AsQuality?
  {
    exists j: MessageId :: j > m && HasRowAt(rows, p, j) && j in after && At(par, after, j).AsQuality?
                           && At(par, after, j).quality.resolution == At(par, after, m).quality.resolution
  }

  /** The new rows are the old ones, with the message in its place if it is taken. */
  ghost predicate Restocks(par: Parser, after: Snapshots, rows: Rows, rows': Rows, p: MessageId, m: MessageId)
    requires PosterAt(par, after, p)
  {
    && (forall id: MessageId :: id != m ==>
        (HasRowAt(rows', p, id) <==> HasRowAt(rows, p, id) && !Displaces(par, after, p, m, id)))
    && (HasRowAt(rows', p, m) <==> Taken(par, after, p, m) && !HeldLater(par, after, rows, p, m))
    && (forall k :: k in rows' && rows'[k].movie == p ==>
          var id := rows'[k].messageId;
          id in after && At(par, after, id).AsQuality? && At(par, after, id).quality.resolution == rows'[k].resolution)
  }

  ghost predicate SameElsewhere(before: Snapshots, after: Snapshots, m: MessageId) {
    forall id: MessageId :: id != m ==> (id in before <==> id in after) && (id in before ==> before[id] == after[id])
  }

  lemma RowsStand(par: Parser, snaps: Snapshots, rows: Rows, p: MessageId, n: int)
    requires PosterAt(par, snaps, p)
    requires forall k :: k in rows && rows[k].movie == p ==>
               var id := rows[k].messageId;
               id in snaps && At(par, snaps, id).AsQuality?
                 && At(par, snaps, id).quality.resolution == rows[k].resolution
    ensures Stocked(par, snaps, rows, p, n) <==> forall id: MessageId :: HasRowAt(rows, p, id) <==>
            Stands(par, snaps, p, n, id)
  {
    hide Stands, Newest, At, PosterAt;
    forall k | k in rows && rows[k].movie == p
      ensures HasRowAt(rows, p, rows[k].messageId)
      ensures Newest(par, snaps, p, n, rows[k].resolution, rows[k].messageId) <==>
              Stands(par, snaps, p, n, rows[k].messageId)
    {
      NewestStands(par, snaps, p, n, rows[k].resolution, rows[k].messageId);
    }
  }

  lemma StockedRows(par: Parser, snaps: Snapshots, rows: Rows, p: MessageId, n: int)
    requires PosterAt(par, snaps, p) && Stocked(par, snaps, rows, p, n)
    ensures forall k :: k in rows && rows[k].movie == p ==>
              var id := rows[k].messageId;
              id in snaps && At(par, snaps, id).AsQuality?
                && At(par, snaps, id).quality.resolution == rows[k].resolution
    ensures forall id: MessageId :: HasRowAt(rows, p, id) <==> Stands(par, snaps, p, n, id)
  {
    forall k | k in rows && rows[k].movie == p
      ensures var id := rows[k].messageId;
              id in snaps && At(par, snaps, id).AsQuality?
                && At(par, snaps, id).quality.resolution == rows[k].resolution
    {
      assert Newest(par, snaps, p, n, rows[k].resolution, rows[k].messageId);
    }
    hide Stands, Newest, At, PosterAt;
    RowsStand(par, snaps, rows, p, n);
  }

  // Whether the message stands itself is then settled too.
  lemma ItselfStands(par: Parser, before: Snapshots, after: Snapshots, rows: Rows, p: MessageId, n: int, m: MessageId)
    requires m < n && SameElsewhere(before, after, m) && Unmoved(par, before, after, p, n, m)
             && Stocked(par, before, rows, p, n)
    ensures Stands(par, after, p, n, m) <==> Taken(par, after, p, m) && !HeldLater(par, after, rows, p, m)
  {
    if Taken(par, after, p, m) {
      var r := At(par, after, m).quality.resolution;
      NewestStands(par, after, p, n, r, m);
      if Superseded(par, after, p, n, r, m) {
        var i: MessageId :| m < i < n && Taken(par, after, p, i) && At(par, after, i).quality.resolution == r;
        var j := LatestStands(par, after, p, n, r, i);
        assert Stands(par, before, p, n, j);
        assert HasRowAt(rows, p, j);
      }
      if HeldLater(par, after, rows, p, m) {
        StockedRows(par, before, rows, p, n);
        var j: MessageId :| j > m && HasRowAt(rows, p, j) && j in after && At(par, after, j).AsQuality?
                            && At(par, after, j).quality.resolution == r;
        assert Stands(par, before, p, n, j);
        assert Stands(par, after, p, n, j);
      }
    }
  }

  /** The rows stay complete if and only if no other message is moved. */
  lemma StockedExactly(par: Parser, before: Snapshots, after: Snapshots, rows: Rows, rows': Rows, p: MessageId, n: int,
                       m: MessageId)
    requires PosterAt(par, before, p) && PosterAt(par, after, p) && m < n && SameElsewhere(before, after, m)
    requires Stocked(par, before, rows, p, n) && Restocks(par, after, rows, rows', p, m)
    ensures Stocked(par, after, rows', p, n) <==> Unmoved(par, before, after, p, n, m)
  {
    hide Stocked, Stands, At, PosterAt, HasRowAt, Displaces, SameElsewhere;
    StockedRows(par, before, rows, p, n);
    RowsStand(par, after, rows', p, n);
    if Unmoved(par, before, after, p, n, m) {
      ItselfStands(par, before, after, rows, p, n, m);
    }
  }

  // ---- Settling ---------------------------------------------------------------------------

  ghost predicate InOrder(par: Parser, s: Index, p: MessageId) {
    && p in s.movies && s.movies[p].confidence > 0 && Horizon(s, p) == NextPoster(s.movies, p)
       && PosterAt(par, s.snaps, p)
  }

  lemma SettledRowEvident(par: Parser, s: Index, p: MessageId, row: Row)
    requires InOrder(par, s, p)
    ensures var settled := RevalidatedRow(MovieGroup(par, s, p, None), row);
            && settled.movie == row.movie && settled.messageId == row.messageId && settled.resolution == row.resolution
            && (Evident(par, s, p, settled)
                <==> Newest(par, s.snaps, p, NextPoster(s.movies, p), row.resolution, row.messageId))
  {
    hide PosterAt, Taken, Superseded, Item, Horizon, NextPoster, MovieGroup;
    RevalidatedExactly(par, s, p, row);
  }

  lemma SameEvidence(par: Parser, s: Index, t: Index, p: MessageId)
    requires InOrder(par, s, p) && t.snaps == s.snaps && t.movies.Keys == s.movies.Keys
    requires p in t.movies && t.movies[p].confidence == s.movies[p].confidence
    ensures InOrder(par, t, p) && NextPoster(t.movies, p) == NextPoster(s.movies, p)
  {
    hide PosterAt, FirstConflict;
    SameNeighbours(s.movies, t.movies);
  }

  /** A settled movie is exact if and only if it has rows for exactly the messages that stand. */
  lemma SettledExactly(par: Parser, s: Index, p: MessageId)
    requires InOrder(par, s, p)
    ensures p in Settle(par, s, p).movies
    ensures Exact(par, Settle(par, s, p), p) <==> Stocked(par, s.snaps, s.rows, p, NextPoster(s.movies, p))
  {
    hide PosterAt, Newest, Horizon, NextPoster, MovieGroup, RevalidatedRow, Evident, Stands, RefreshedStatus;
    var t, n := Settle(par, s, p), NextPoster(s.movies, p);
    assert t.movies.Keys == s.movies.Keys;
    SameEvidence(par, s, t, p);
    forall k | k in s.rows && s.rows[k].movie == p
      ensures k in t.rows && t.rows[k].movie == p && t.rows[k].messageId == s.rows[k].messageId
      ensures Evident(par, t, p, t.rows[k]) <==> Newest(par, s.snaps, p, n, s.rows[k].resolution, s.rows[k].messageId)
    {
      SettledRowEvident(par, s, p, s.rows[k]);
      EvidentAlike(par, s, t, p, t.rows[k]);
    }
    assert forall k :: k in t.rows && t.rows[k].movie == p ==> k in s.rows && s.rows[k].movie == p by {
      SettleKeepsMovies(par, s, p);
    }
    forall id: MessageId
      ensures HasRowAt(t.rows, p, id) <==> HasRowAt(s.rows, p, id)
    {
    }
  }

  lemma SettleKeepsMovies(par: Parser, s: Index, p: MessageId)
    requires p in s.movies
    ensures var t := Settle(par, s, p);
            t.rows.Keys == s.rows.Keys && forall k :: k in t.rows ==>
              && t.rows[k].movie == s.rows[k].movie && t.rows[k].messageId == s.rows[k].messageId
              && t.rows[k].resolution == s.rows[k].resolution
  {
    hide MovieGroup, Holds;
  }

  lemma EvidentAlike(par: Parser, s: Index, t: Index, p: MessageId, row: Row)
    requires PosterAt(par, s.snaps, p) && t.snaps == s.snaps && NextPoster(t.movies, p) == NextPoster(s.movies, p)
    ensures Evident(par, t, p, row) <==> Evident(par, s, p, row)
  {
  }

  lemma ExactStocked(par: Parser, s: Index, p: MessageId)
    requires p in s.movies && Exact(par, s, p)
    ensures InOrder(par, s, p) && Stocked(par, s.snaps, s.rows, p, NextPoster(s.movies, p))
  {
    hide PosterAt, Newest, Horizon, NextPoster, Stands, HasRowAt, Item;
  }

  // ---- What each kind of event makes of the rows ------------------------------------------

  // The rows of other messages say what is recorded of them.
  ghost predicate Labelled(par: Parser, after: Snapshots, rows: Rows, p: MessageId, m: MessageId) {
    forall k :: k in rows && rows[k].movie == p && rows[k].messageId != m ==> Label(par, after, rows[k])
  }

  predicate Label(par: Parser, after: Snapshots, row: Row) {
    var id := row.messageId;
    id in after && At(par, after, id).AsQuality? && At(par, after, id).quality.resolution == row.resolution
  }

  lemma StockedLabels(par: Parser, before: Snapshots, after: Snapshots, rows: Rows, p: MessageId, n: int, m: MessageId)
    requires PosterAt(par, before, p) && SameElsewhere(before, after, m) && Stocked(par, before, rows, p, n)
    ensures Labelled(par, after, rows, p, m)
  {
    hide PosterAt, Stocked, Stands;
    StockedRows(par, before, rows, p, n);
  }

  // Nothing is attached to the message, which is not taken or is the poster itself.
  lemma SameRestocks(par: Parser, after: Snapshots, rows: Rows, p: MessageId, m: MessageId)
    requires PosterAt(par, after, p) && Labelled(par, after, rows, p, m) && !HasRowAt(rows, p, m)
             && !Taken(par, after, p, m)
    ensures Restocks(par, after, rows, rows, p, m)
  {
    hide PosterAt, Taken, At;
    forall k | k in rows && rows[k].movie == p
      ensures Label(par, after, rows[k])
    {
      assert HasRowAt(rows, p, rows[k].messageId);
    }
  }

  lemma InsertedRestocks(par: Parser, after: Snapshots, rows: Rows, p: MessageId, m: MessageId, j: RowId, row: Row)
    requires PosterAt(par, after, p) && Labelled(par, after, rows, p, m) && !HasRowAt(rows, p, m)
             && Taken(par, after, p, m)
    requires row.movie == p && row.messageId == m && row.resolution == At(par, after, m).quality.resolution
             && j !in rows
    requires forall k :: k in rows && rows[k].movie == p ==> rows[k].resolution != row.resolution
    ensures Restocks(par, after, rows, rows[j := row], p, m)
  {
    hide PosterAt, Ended, At;
    var rows' := rows[j := row];
    forall id: MessageId | id != m
      ensures HasRowAt(rows', p, id) <==> HasRowAt(rows, p, id)
      ensures HasRowAt(rows, p, id) ==> !Displaces(par, after, p, m, id)
    {
      if HasRowAt(rows, p, id) {
        var k :| k in rows && rows[k].movie == p && rows[k].messageId == id;
        assert Label(par, after, rows[k]);
        assert k in rows' && rows'[k] == rows[k];
      }
    }
    assert j in rows' && HasRowAt(rows', p, m);
    if HeldLater(par, after, rows, p, m) {
      var k := LaterRow(par, after, rows, p, m);
    }
    forall k | k in rows' && rows'[k].movie == p
      ensures Label(par, after, rows'[k])
    {
      if k != j {
        assert HasRowAt(rows, p, rows[k].messageId);
      }
    }
  }

  lemma LaterRow(par: Parser, after: Snapshots, rows: Rows, p: MessageId, m: MessageId) returns (k: RowId)
    requires m in after && At(par, after, m).AsQuality? && Labelled(par, after, rows, p, m)
             && HeldLater(par, after, rows, p, m)
    ensures k in rows && rows[k].movie == p && rows[k].messageId > m
    ensures rows[k].resolution == At(par, after, m).quality.resolution
  {
    hide At;
    var j: MessageId :| j > m && HasRowAt(rows, p, j) && j in after && At(par, after, j).AsQuality?
                        && At(par, after, j).quality.resolution == At(par, after, m).quality.resolution;
    k :| k in rows && rows[k].movie == p && rows[k].messageId == j;
    assert Label(par, after, rows[k]);
  }

  // The movie's row of the resolution moves on to the message.
  lemma ReplacedRestocks(par: Parser, after: Snapshots, rows: Rows, p: MessageId, m: MessageId, j: RowId, row: Row)
    requires PosterAt(par, after, p) && Labelled(par, after, rows, p, m) && UniqueRows(rows) && Taken(par, after, p, m)
    requires row.movie == p && row.messageId == m && row.resolution == At(par, after, m).quality.resolution
             && !HasRowAt(rows, p, m)
    requires j in rows && rows[j].movie == p && rows[j].resolution == row.resolution && rows[j].messageId < m
    ensures Restocks(par, after, rows, rows[j := row], p, m)
  {
    hide PosterAt, Ended, At;
    var rows' := rows[j := row];
    forall id: MessageId | id != m
      ensures HasRowAt(rows', p, id) <==> HasRowAt(rows, p, id) && !Displaces(par, after, p, m, id)
    {
      if HasRowAt(rows, p, id) {
        var k :| k in rows && rows[k].movie == p && rows[k].messageId == id;
        assert Label(par, after, rows[k]);
        assert k != j ==> k in rows' && rows'[k] == rows[k];
      }
    }
    assert j in rows' && HasRowAt(rows', p, m);
    if HeldLater(par, after, rows, p, m) {
      var k := LaterRow(par, after, rows, p, m);
    }
    forall k | k in rows' && rows'[k].movie == p
      ensures Label(par, after, rows'[k])
    {
      if k != j {
        assert HasRowAt(rows, p, rows[k].messageId);
      }
    }
  }

  // A later message holds the resolution.
  lemma HeldRestocks(par: Parser, after: Snapshots, rows: Rows, p: MessageId, m: MessageId, j: RowId)
    requires PosterAt(par, after, p) && Labelled(par, after, rows, p, m) && UniqueRows(rows) && Taken(par, after, p, m)
    requires !HasRowAt(rows, p, m) && j in rows && rows[j].movie == p && rows[j].messageId > m
    requires rows[j].resolution == At(par, after, m).quality.resolution
    ensures Restocks(par, after, rows, rows, p, m)
  {
    hide PosterAt, Ended, At;
    forall id: MessageId | id != m && HasRowAt(rows, p, id)
      ensures !Displaces(par, after, p, m, id)
    {
      var k :| k in rows && rows[k].movie == p && rows[k].messageId == id;
      assert Label(par, after, rows[k]);
    }
    assert Label(par, after, rows[j]) && HasRowAt(rows, p, rows[j].messageId);
    forall k | k in rows && rows[k].movie == p
      ensures Label(par, after, rows[k])
    {
      assert HasRowAt(rows, p, rows[k].messageId);
    }
  }

  // The row of the message itself, edited.
  lemma EditedRestocks(par: Parser, after: Snapshots, rows: Rows, p: MessageId, m: MessageId, j: RowId, row: Row)
    requires PosterAt(par, after, p) && Labelled(par, after, rows, p, m) && UniqueRows(rows) && Taken(par, after, p, m)
    requires row.movie == p && row.messageId == m && row.resolution == At(par, after, m).quality.resolution
    requires j in rows && rows[j].movie == p && rows[j].messageId == m && !ResolutionTaken(rows, j, row.resolution)
    ensures Restocks(par, after, rows, rows[j := row], p, m)
  {
    hide PosterAt, Ended, At;
    var rows' := rows[j := row];
    forall id: MessageId | id != m
      ensures HasRowAt(rows', p, id) <==> HasRowAt(rows, p, id)
      ensures HasRowAt(rows, p, id) ==> !Displaces(par, after, p, m, id)
    {
      if HasRowAt(rows, p, id) {
        var k :| k in rows && rows[k].movie == p && rows[k].messageId == id;
        assert Label(par, after, rows[k]);
        assert k in rows' && rows'[k] == rows[k];
      }
    }
    assert j in rows' && HasRowAt(rows', p, m);
    if HeldLater(par, after, rows, p, m) {
      var k := LaterRow(par, after, rows, p, m);
    }
    forall k | k in rows' && rows'[k].movie == p
      ensures Label(par, after, rows'[k])
    {
    }
  }

  // A message that is taken and has no row.
  lemma PlacedRestocks(par: Parser, s: Index, after: Snapshots, p: MessageId, m: MessageId, u: Index)
    requires WellFormed(s) && PosterAt(par, after, p) && Labelled(par, after, s.rows, p, m)
    requires RowAt(s.rows, m).None? && Taken(par, after, p, m) && u.rows == s.rows && u.nextRow == s.nextRow
    ensures Restocks(par, after, s.rows, UpsertRow(u, p, Item(par, after, p, m)).rows, p, m)
  {
    hide PosterAt, Ended, At, Restocks, Labelled, ArchiveParser.Parser.Score, Distance;
    var item := Item(par, after, p, m);
    assert !HasRowAt(s.rows, p, m);
    assert s.nextRow !in s.rows;
    match RowOf(s.rows, p, item.resolution) {
      case None =>
        InsertedRestocks(par, after, s.rows, p, m, s.nextRow, NewRow(p, item));
      case Some(k) =>
        if item.messageId > s.rows[k].messageId {
          ReplacedRestocks(par, after, s.rows, p, m, k, NewRow(p, item));
        } else {
          HeldRestocks(par, after, s.rows, p, m, k);
        }
    }
  }

  // ---- Movies a step does not concern -----------------------------------------------------

  lemma ExactFrame(par: Parser, s: Index, t: Index, q: MessageId)
    requires Untouched(s, t, q) && Exact(par, s, q)
    ensures Exact(par, t, q)
  {
    hide MovieGroup, Exact, Backed, At, Horizon, NextPoster;
    InOrderOf(par, s, q);
    GroupFrame(par, s, t, q);
    SamePosterThere(par, s.snaps, t.snaps, q, NextPoster(s.movies, q));
    ExactIsParse(par, s, q);
    ExactIsParse(par, t, q);
    EqualsFrame(par, s, t, q);
  }

  lemma InOrderOf(par: Parser, s: Index, q: MessageId)
    requires q in s.movies && Exact(par, s, q)
    ensures InOrder(par, s, q)
  {
  }

  lemma SamePosterThere(par: Parser, a: Snapshots, b: Snapshots, q: MessageId, n: int)
    requires SnapsAgree(a, b, q, n) && q < n && PosterAt(par, a, q)
    ensures PosterAt(par, b, q)
  {
  }

  lemma EqualsFrame(par: Parser, s: Index, t: Index, q: MessageId)
    requires Untouched(s, t, q) && MovieGroup(par, s, q, None) == MovieGroup(par, t, q, None) && EqualsGroup(par, s, q)
    ensures EqualsGroup(par, t, q)
  {
    hide MovieGroup, Backed, NextPoster;
    var g := MovieGroup(par, s, q, None);
    if g.Some? {
      forall r | r in g.value.qualities
        ensures RowOf(t.rows, q, r).Some?
      {
        var k := RowOf(s.rows, q, r).value;
        assert k in t.rows && t.rows[k] == s.rows[k];
      }
    }
  }

  lemma UntouchedTwice(s: Index, u: Index, t: Index, q: MessageId)
    requires Untouched(s, u, q) && Untouched(u, t, q)
    ensures Untouched(s, t, q)
  {
    hide NextPoster;
  }

  lemma RecordingUntouched(s: Index, id: MessageId, snap: Snapshot, q: MessageId)
    requires q in s.movies && q != Owner(s, id)
    ensures Untouched(s, SetSnap(s, id, snap), q)
  {
    OwnerOnly(s, id, q);
  }

  // A change to movie p and its rows, as values.
  lemma ChangeUntouched(s: Index, t: Index, p: MessageId, q: MessageId)
    requires p in s.movies && p in t.movies && t.movies == s.movies[p := t.movies[p]] && t.snaps == s.snaps
    requires q in s.movies && q != p && SameRowsOf(s.rows, t.rows, q)
    ensures Untouched(s, t, q)
  {
    SameNeighbours(s.movies, t.movies);
  }

  lemma BoundaryUntouched(par: Parser, s: Index, id: MessageId, q: MessageId)
    requires q in s.movies && q != PrevPoster(s.movies, id)
    ensures Untouched(s, Boundary(par, s, id), q)
  {
    hide Settle, Untouched;
    if PrevPoster(s.movies, id) > 0 {
      SettleOthers(par, s, PrevPoster(s.movies, id), q);
    } else {
      Itself(s, q);
    }
  }

  lemma Itself(s: Index, q: MessageId)
    requires q in s.movies
    ensures Untouched(s, s, q)
  {
  }

  lemma EditPosterUntouched(par: Parser, s: Index, m: Message, q: MessageId)
    requires m.id in s.movies && q in s.movies && q != m.id
    ensures Untouched(s, EditPoster(par, s, m), q)
  {
    hide Settle, ArchiveParser.Parser.Detect, Untouched;
    var d := par.Detect(m.content);
    if d.AsPoster? {
      var t := s.(movies := s.movies[m.id := NewMovie(m, d.poster).(status := s.movies[m.id].status)]);
      ChangeUntouched(s, t, m.id, q);
      SettleOthers(par, t, m.id, q);
      UntouchedTwice(s, t, EditPoster(par, s, m), q);
    } else {
      ChangeUntouched(s, EditPoster(par, s, m), m.id, q);
    }
  }

  lemma EditQualityUntouched(par: Parser, s: Index, k: RowId, m: Message, q: MessageId)
    requires k in s.rows && s.rows[k].movie in s.movies && q in s.movies && q != s.rows[k].movie
    ensures Untouched(s, EditQuality(par, s, k, m), q)
  {
    EditQualityElsewhere(par, s, k, m, q);
    SameNeighbours(s.movies, EditQuality(par, s, k, m).movies);
  }

  lemma UpsertQualityUntouched(par: Parser, s: Index, m: Message, q: MessageId)
    requires WellFormed(s) && q in s.movies && q != PrevPoster(s.movies, m.id)
    ensures Untouched(s, UpsertQuality(par, s, m), q)
  {
    hide Settle, MovieGroup, ItemAt, Untouched;
    var p := PrevPoster(s.movies, m.id);
    Itself(s, q);
    if p > 0 && ItemAt(MovieGroup(par, s, p, Some(m.id)), m.id).Some? {
      var t := UpsertRow(s, p, ItemAt(MovieGroup(par, s, p, Some(m.id)), m.id).value);
      assert s.nextRow !in s.rows;
      ChangeUntouched(s, t, p, q);
      SettleOthers(par, t, p, q);
      UntouchedTwice(s, t, UpsertQuality(par, s, m), q);
    }
  }

  // What a new poster makes of the tables before the movie before it is settled.
  function WithPoster(s: Index, m: Message, f: PosterFields, status: MovieStatus): Index {
    var p := PrevPoster(s.movies, m.id);
    var movies := if p > 0 then s.movies[p := s.movies[p].(status := status)] else s.movies;
    s.(movies := movies[m.id := NewMovie(m, f)])
  }

  lemma UpsertPosterIs(par: Parser, s: Index, m: Message, f: PosterFields) returns (status: MovieStatus)
    requires m.id !in s.movies
    ensures var p, t := PrevPoster(s.movies, m.id), WithPoster(s, m, f, status);
            && t.movies.Keys == s.movies.Keys + {m.id} && (p > 0 ==> p in t.movies)
            && UpsertPoster(par, s, m, f) == if p > 0 then Settle(par, t, p) else t
  {
    hide Settle;
    var p := PrevPoster(s.movies, m.id);
    status := if p == 0 then Pending
              else if s.movies[p].status.Pending? then (if HasRows(s.rows, p) then Indexed else Orphan)
              else s.movies[p].status;
    assert p > 0 && !s.movies[p].status.Pending? ==> s.movies[p := s.movies[p].(status := status)] == s.movies;
  }

  lemma UpsertPosterUntouched(par: Parser, s: Index, m: Message, f: PosterFields, q: MessageId)
    requires m.id !in s.movies && q in s.movies && q != PrevPoster(s.movies, m.id)
    ensures Untouched(s, UpsertPoster(par, s, m, f), q)
  {
    hide Settle, UpsertPoster;
    var status := UpsertPosterIs(par, s, m, f);
    var t, p := WithPoster(s, m, f, status), PrevPoster(s.movies, m.id);
    NextSurvives(s.movies, t.movies, m.id, q);
    assert Untouched(s, t, q);
    hide Untouched;
    if p > 0 {
      SettleOthers(par, t, p, q);
      UntouchedTwice(s, t, Settle(par, t, p), q);
    }
  }

  lemma PlaceUntouched(par: Parser, s: Index, m: Message, q: MessageId)
    requires WellFormed(s) && m.id !in s.movies && q in s.movies && q != PrevPoster(s.movies, m.id)
    ensures Untouched(s, Place(par, s, m), q)
  {
    hide Settle, UpsertPoster, UpsertQuality, Boundary, Untouched, ArchiveParser.Parser.Detect, WellFormed;
    match par.Detect(m.content)
    case AsPoster(f) => UpsertPosterUntouched(par, s, m, f, q);
    case AsQuality(_) => UpsertQualityUntouched(par, s, m, q);
    case AsNoise => BoundaryUntouched(par, s, m.id, q);
  }

  lemma InvalidateUntouched(par: Parser, s: Index, id: MessageId, q: MessageId)
    requires WellFormed(s) && q in s.movies && q != Owner(s, id)
    requires RowAt(s.rows, id).Some? ==> s.rows[RowAt(s.rows, id).value].movie == Owner(s, id)
    ensures Untouched(s, InvalidateConflict(par, s, id), q)
  {
    hide Boundary, Untouched;
    var t, k := InvalidateConflict(par, s, id), RowAt(s.rows, id);
    if id in s.movies {
      assert Owner(s, id) == id;
      ChangeUntouched(s, t, id, q);
    } else if k.Some? {
      ChangeUntouched(s, t, s.rows[k.value].movie, q);
    } else {
      assert Owner(s, id) == PrevPoster(s.movies, id);
      BoundaryUntouched(par, s, id, q);
    }
  }

  /** A step concerns the movie in whose range its message lies, and no other that was there before, unless the message
      is attached to a row of another. */
  lemma StepUntouched(par: Parser, s: Index, e: Event, q: MessageId)
    requires WellFormed(s) && q in s.movies && q != Owner(s, e.m.id)
    requires RowAt(s.rows, e.m.id).Some? ==> s.rows[RowAt(s.rows, e.m.id).value].movie == Owner(s, e.m.id)
    ensures Untouched(s, Step(par, s, e), q)
  {
    hide Untouched, EditPoster, EditQuality, Place, InvalidateConflict, WellFormed;
    var m := e.m;
    var (outcome, snap) := EventRecord(s, e);
    Itself(s, q);
    if !outcome.Stale? {
      var u := SetSnap(s, m.id, snap.value);
      RecordedShape(s, m.id, snap.value);
      RecordingUntouched(s, m.id, snap.value, q);
      if m.id in s.movies || RowAt(s.rows, m.id).Some? {
        KnownRecorded(s, m.id);
      }
      if outcome.Conflict? {
        InvalidateUntouched(par, u, m.id, q);
      } else if m.id in s.movies {
        assert Owner(s, m.id) == m.id;
        EditPosterUntouched(par, u, m, q);
      } else if RowAt(s.rows, m.id).Some? {
        RowKnown(s, RowAt(s.rows, m.id).value);
        EditQualityUntouched(par, u, RowAt(s.rows, m.id).value, m, q);
      } else {
        assert Owner(s, m.id) == PrevPoster(s.movies, m.id);
        PlaceUntouched(par, u, m, q);
      }
      UntouchedTwice(s, u, Step(par, s, e), q);
    }
  }

  lemma RowKnown(s: Index, k: RowId)
    requires WellFormed(s) && k in s.rows
    ensures s.rows[k].movie in s.movies && s.rows[k].messageId !in s.movies && s.rows[k].movie < s.rows[k].messageId
  {
  }

  // ---- The movie a step concerns ----------------------------------------------------------

  // A message has been recorded in the range of an exact movie; nothing else has happened yet.
  ghost predicate JustRecorded(par: Parser, s: Index, u: Index, p: MessageId, m: MessageId) {
    && WellFormed(s) && p in s.movies && p <= m < NextPoster(s.movies, p) && PosterAt(par, s.snaps, p)
    && Stocked(par, s.snaps, s.rows, p, NextPoster(s.movies, p))
    && u.movies == s.movies && u.rows == s.rows && u.nextRow == s.nextRow && SameElsewhere(s.snaps, u.snaps, m)
    && InOrder(par, u, p) && Labelled(par, u.snaps, s.rows, p, m)
  }

  lemma Recording(par: Parser, s: Index, id: MessageId, snap: Snapshot, p: MessageId)
    requires WellFormed(s) && p in s.movies && Exact(par, s, p) && p <= id < NextPoster(s.movies, p) && !snap.conflicted
    requires PosterAt(par, s.snaps[id := snap], p)
    ensures JustRecorded(par, s, SetSnap(s, id, snap), p, id)
  {
    hide PosterAt, NextPoster, Horizon, Stocked, Labelled, WellFormed, Exact;
    ExactStocked(par, s, p);
    HorizonAfter(s, id, snap, p);
    StockedLabels(par, s.snaps, s.snaps[id := snap], s.rows, p, NextPoster(s.movies, p), id);
  }

  /** A message that settles its movie without a row of its own. */
  lemma SettlingExactly(par: Parser, s: Index, u: Index, p: MessageId, m: MessageId)
    requires JustRecorded(par, s, u, p, m) && !HasRowAt(s.rows, p, m) && !Taken(par, u.snaps, p, m)
    ensures p in Settle(par, u, p).movies
    ensures Exact(par, Settle(par, u, p), p) <==> Unmoved(par, s.snaps, u.snaps, p, NextPoster(s.movies, p), m)
  {
    hide PosterAt, Exact, Taken, Stocked, Labelled, Restocks, Unmoved, WellFormed, HasRowAt, Settle, NextPoster,
         Horizon;
    SameRestocks(par, u.snaps, s.rows, p, m);
    StockedExactly(par, s.snaps, u.snaps, s.rows, s.rows, p, NextPoster(s.movies, p), m);
    SettledExactly(par, u, p);
  }

  /** A refused quality changes nothing but the evidence. */
  lemma RefusedExactly(par: Parser, s: Index, m: Message, snap: Snapshot, p: MessageId)
    requires JustRecorded(par, s, SetSnap(s, m.id, snap), p, m.id) && p < m.id && Exact(par, s, p)
    requires !HasRowAt(s.rows, p, m.id) && !Taken(par, s.snaps[m.id := snap], p, m.id)
    ensures var u := SetSnap(s, m.id, snap);
            Exact(par, u, p) <==>
              && Unmoved(par, s.snaps, u.snaps, p, NextPoster(s.movies, p), m.id)
              && forall k :: k in s.rows && s.rows[k].movie == p ==> !Disturbed(par, s, m, snap, p, s.rows[k])
  {
    hide PosterAt, Taken, Labelled, Restocks, Unmoved, WellFormed, NextPoster, Horizon, Evident, Disturbed, Stands,
         Newest;
    var u, n := SetSnap(s, m.id, snap), NextPoster(s.movies, p);
    SameRestocks(par, u.snaps, s.rows, p, m.id);
    StockedExactly(par, s.snaps, u.snaps, s.rows, s.rows, p, n, m.id);
    forall k | k in s.rows && s.rows[k].movie == p
      ensures Evident(par, u, p, s.rows[k]) <==> !Disturbed(par, s, m, snap, p, s.rows[k])
      ensures Evident(par, u, p, s.rows[k]) ==> Newest(par, u.snaps, p, n, s.rows[k].resolution, s.rows[k].messageId)
    {
      assert HasRowAt(s.rows, p, s.rows[k].messageId);
      EvidentRecorded(par, s, p, s.rows[k]);
      RowExactly(par, s, m, snap, p, s.rows[k]);
      EvidentNewest(par, u, p, s.rows[k]);
    }
  }

  lemma EvidentNewest(par: Parser, s: Index, p: MessageId, row: Row)
    requires PosterAt(par, s.snaps, p)
    ensures Evident(par, s, p, row) ==> Newest(par, s.snaps, p, NextPoster(s.movies, p), row.resolution, row.messageId)
  {
  }

  /** A quality that is taken gets its row. */
  lemma PlacedExactly(par: Parser, s: Index, u: Index, p: MessageId, m: MessageId)
    requires JustRecorded(par, s, u, p, m) && RowAt(s.rows, m).None? && Taken(par, u.snaps, p, m)
    ensures var t := Settle(par, UpsertRow(u, p, Item(par, u.snaps, p, m)), p);
            p in t.movies && (Exact(par, t, p) <==> Unmoved(par, s.snaps, u.snaps, p, NextPoster(s.movies, p), m))
  {
    hide PosterAt, Exact, Ended, Stocked, Labelled, Restocks, Unmoved, WellFormed, Settle, NextPoster, UpsertRow, Item;
    var v := UpsertRow(u, p, Item(par, u.snaps, p, m));
    PlacedRestocks(par, s, u.snaps, p, m, u);
    StockedExactly(par, s.snaps, u.snaps, s.rows, v.rows, p, NextPoster(s.movies, p), m);
    SettledExactly(par, v, p);
  }

  /** A row that says nothing of its message is not what the parser says. */
  lemma ZeroNotExact(par: Parser, s: Index, p: MessageId, k: RowId)
    requires p in s.movies && k in s.rows && s.rows[k].movie == p && s.rows[k].confidence == 0
    ensures !Exact(par, s, p)
  {
    hide Newest, NextPoster, Stands;
  }

  lemma LowNotExact(par: Parser, s: Index, p: MessageId)
    requires p in s.movies && (s.movies[p].confidence <= 0 || Horizon(s, p) < NextPoster(s.movies, p))
    ensures !Exact(par, s, p)
  {
  }

  ghost predicate RowUpsets(par: Parser, s: Index, after: Snapshots, p: MessageId, k: RowId)
    requires k in s.rows
  {
    var m := s.rows[k].messageId;
    !(Unmoved(par, s.snaps, after, p, NextPoster(s.movies, p), m) && Taken(par, after, p, m)
      && !ResolutionTaken(s.rows, k, At(par, after, m).quality.resolution))
  }

  lemma EditedExactly(par: Parser, s: Index, u: Index, p: MessageId, k: RowId, m: Message)
    requires JustRecorded(par, s, u, p, m.id) && k in s.rows && s.rows[k].messageId == m.id && s.rows[k].movie == p
    requires m.id in u.snaps && u.snaps[m.id].content == m.content && !u.snaps[m.id].conflicted
    ensures var t := EditQuality(par, u, k, m);
            p in t.movies && (Exact(par, t, p) <==> !RowUpsets(par, s, u.snaps, p, k))
  {
    hide PosterAt, Exact, Ended, Stocked, Labelled, Restocks, Unmoved, Settle, NextPoster, Item, MovieGroup, ItemAt,
         ArchiveParser.Parser.Detect, ArchiveParser.Parser.Score, ResolutionTaken;
    var t := EditQuality(par, u, k, m);
    ItemAtExactly(par, u, p, m.id);
    NotVideoNotTaken(par, u.snaps, p, m.id);
    if !Taken(par, u.snaps, p, m.id) {
      ZeroNotExact(par, t, p, k);
    } else {
      var item := Item(par, u.snaps, p, m.id);
      SameOrOther(s.rows, k, item.resolution);
      ItemOf(par, u.snaps, p, m.id);
      if ResolutionTaken(s.rows, k, item.resolution) {
        ZeroNotExact(par, t, p, k);
      } else {
        var v := SetRow(u, k, NewRow(p, item).(messageId := m.id));
        assert t == Settle(par, v, p);
        EditedRestocks(par, u.snaps, s.rows, p, m.id, k, v.rows[k]);
        StockedExactly(par, s.snaps, u.snaps, s.rows, v.rows, p, NextPoster(s.movies, p), m.id);
        SettledExactly(par, v, p);
      }
    }
  }

  lemma ItemOf(par: Parser, snaps: Snapshots, p: MessageId, id: MessageId)
    requires PosterAt(par, snaps, p) && Fits(par, snaps, p, id)
    ensures Item(par, snaps, p, id).messageId == id
            && Item(par, snaps, p, id).resolution == At(par, snaps, id).quality.resolution
  {
  }

  // No other row of its movie has the row's resolution.
  lemma SameOrOther(rows: Rows, k: RowId, r: string)
    requires UniqueRows(rows) && k in rows
    ensures ResolutionTaken(rows, k, r) ==> r != rows[k].resolution
  {
  }

  lemma NotVideoNotTaken(par: Parser, snaps: Snapshots, p: MessageId, id: MessageId)
    requires PosterAt(par, snaps, p) && id in snaps && !snaps[id].conflicted
    ensures Taken(par, snaps, p, id) ==> snaps[id].content.kind.Video? || snaps[id].content.kind.Document?
  {
    hide Ended;
  }

  lemma EditedPosterExactly(par: Parser, s: Index, m: Message, snap: Snapshot)
    requires WellFormed(s) && m.id in s.movies && Exact(par, s, m.id)
    requires snap.content == m.content && !snap.conflicted
    ensures var u := SetSnap(s, m.id, snap); var t := EditPoster(par, u, m);
            && m.id in t.movies
            && (Exact(par, t, m.id) <==> Unmoved(par, s.snaps, u.snaps, m.id, NextPoster(s.movies, m.id), m.id))
  {
    hide Exact, Stocked, Labelled, Restocks, Unmoved, Settle, NextPoster, ArchiveParser.Parser.Detect, WellFormed;
    var u, p := SetSnap(s, m.id, snap), m.id;
    var t, d := EditPoster(par, u, m), par.Detect(m.content);
    assert At(par, u.snaps, p) == d;
    if d.AsPoster? {
      Recording(par, s, p, snap, p);
      var v := u.(movies := u.movies[p := NewMovie(m, d.poster).(status := u.movies[p].status)]);
      assert v.movies.Keys == u.movies.Keys;
      assert NextPoster(v.movies, p) == NextPoster(s.movies, p) by {
        SameNeighbours(u.movies, v.movies);
      }
      NoRowAtPoster(s, p);
      SameRestocks(par, u.snaps, s.rows, p, p);
      StockedExactly(par, s.snaps, u.snaps, s.rows, s.rows, p, NextPoster(s.movies, p), p);
      SettledExactly(par, v, p);
    } else {
      LowNotExact(par, t, p);
      NotUnmoved(par, s.snaps, u.snaps, p, NextPoster(s.movies, p), p);
    }
  }

  lemma NotUnmoved(par: Parser, before: Snapshots, after: Snapshots, p: MessageId, n: int, m: MessageId)
    requires !PosterAt(par, after, p)
    ensures !Unmoved(par, before, after, p, n, m)
  {
  }

  lemma NoRowAtPoster(s: Index, p: MessageId)
    requires WellFormed(s) && p in s.movies
    ensures !HasRowAt(s.rows, p, p)
  {
  }

  // ---- A new poster -----------------------------------------------------------------------

  lemma {:induction false} SameEnd(par: Parser, a: Snapshots, b: Snapshots, p: MessageId, n: int)
    requires PosterAt(par, a, p) && PosterAt(par, b, p) && n <= MAX_ID && SnapsAgree(a, b, p, n)
    ensures Ended(par, a, p, n) <==> Ended(par, b, p, n)
    ensures Silence(par, a, p, n) == Silence(par, b, p, n)
    decreases n
  {
    hide ArchiveParser.Parser.Detect;
    if n > p + 1 {
      SameEnd(par, a, b, p, n - 1);
      SameAt(par, a, b, p);
      SameAt(par, a, b, n - 1);
    }
  }

  lemma SameAt(par: Parser, a: Snapshots, b: Snapshots, id: MessageId)
    requires (id in a <==> id in b)
             && (id in a ==> a[id].content == b[id].content && a[id].conflicted == b[id].conflicted)
    ensures id in a ==> At(par, a, id) == At(par, b, id)
  {
  }

  lemma SameTaken(par: Parser, a: Snapshots, b: Snapshots, p: MessageId, n: int, id: MessageId)
    requires PosterAt(par, a, p) && PosterAt(par, b, p) && id < n <= MAX_ID && SnapsAgree(a, b, p, n)
    ensures Taken(par, a, p, id) <==> Taken(par, b, p, id)
    ensures Taken(par, a, p, id) ==> At(par, a, id) == At(par, b, id)
  {
    hide Ended, At;
    if p < id {
      SameEnd(par, a, b, p, id);
      SameAt(par, a, b, p);
      SameAt(par, a, b, id);
    }
  }

  lemma SameNewest(par: Parser, a: Snapshots, b: Snapshots, p: MessageId, n: int, r: string, id: MessageId)
    requires PosterAt(par, a, p) && PosterAt(par, b, p) && n <= MAX_ID && SnapsAgree(a, b, p, n)
    ensures Newest(par, a, p, n, r, id) <==> Newest(par, b, p, n, r, id)
  {
    hide At, PosterAt, SnapsAgree, Ended;
    forall j: MessageId | j < n
      ensures Taken(par, a, p, j) <==> Taken(par, b, p, j)
      ensures Taken(par, a, p, j) ==> At(par, a, j) == At(par, b, j)
    {
      SameTaken(par, a, b, p, n, j);
    }
  }

  ghost predicate RowFrom(rows: Rows, p: MessageId, m: MessageId) {
    exists k :: k in rows && rows[k].movie == p && rows[k].messageId >= m
  }

  /** When a range ends earlier, its rows stay complete if and only if none lies beyond. */
  lemma ShorterExactly(par: Parser, before: Snapshots, after: Snapshots, rows: Rows, p: MessageId, m: MessageId, n: int)
    requires PosterAt(par, before, p) && PosterAt(par, after, p) && m < n <= MAX_ID && SnapsAgree(before, after, p, m)
    requires Stocked(par, before, rows, p, n)
    ensures Stocked(par, after, rows, p, m) <==> !RowFrom(rows, p, m)
  {
    hide PosterAt, Ended, At, SnapsAgree;
    if !RowFrom(rows, p, m) {
      forall k | k in rows && rows[k].movie == p
        ensures Newest(par, after, p, m, rows[k].resolution, rows[k].messageId)
      {
        SameNewest(par, before, after, p, m, rows[k].resolution, rows[k].messageId);
      }
      forall id: MessageId | Stands(par, after, p, m, id)
        ensures HasRowAt(rows, p, id)
      {
        var r := At(par, after, id).quality.resolution;
        SameNewest(par, before, after, p, m, r, id);
        var j := LatestStands(par, before, p, n, r, id);
        var k :| k in rows && rows[k].movie == p && rows[k].messageId == j;
      }
    }
  }

  ghost predicate TakesSome(par: Parser, snaps: Snapshots, p: MessageId, n: int) {
    PosterAt(par, snaps, p) && exists id: MessageId :: id < n && Taken(par, snaps, p, id)
  }

  // A movie without rows is exact if and only if the parser takes nothing for it.
  lemma EmptyExactly(par: Parser, s: Index, p: MessageId)
    requires InOrder(par, s, p) && !HasRows(s.rows, p)
    ensures Exact(par, s, p) <==> !TakesSome(par, s.snaps, p, NextPoster(s.movies, p))
  {
    hide PosterAt, Ended, At, NextPoster, Horizon;
    if id: MessageId :| id < NextPoster(s.movies, p) && Taken(par, s.snaps, p, id) {
      var j := LatestStands(par, s.snaps, p, NextPoster(s.movies, p), At(par, s.snaps, id).quality.resolution, id);
      assert !HasRowAt(s.rows, p, j);
    }
  }

  /** A new poster takes a range away from the movie before it, and starts without rows. */
  ghost predicate PosterUpsets(par: Parser, s: Index, after: Snapshots, m: MessageId) {
    var n := NextPoster(s.movies, m);
    || (Owner(s, m) > 0 && RowFrom(s.rows, Owner(s, m), m))
    || FirstConflict(after, m, n) < n
    || TakesSome(par, after, m, n)
  }

  lemma NextWithPoster(a: Movies, b: Movies, m: MessageId)
    requires m !in a && b.Keys == a.Keys + {m}
    ensures NextPoster(b, m) == NextPoster(a, m)
    ensures PrevPoster(a, m) > 0 ==>
            PrevPoster(a, m) in b && NextPoster(b, PrevPoster(a, m)) == m < NextPoster(a, PrevPoster(a, m))
  {
    assert forall q :: q in b <==> q in a.Keys || q == m;
    var p := PrevPoster(a, m);
    assert p > 0 ==> p in a.Keys;
    assert NextPoster(b, m) < MAX_ID ==> NextPoster(b, m) in b.Keys;
    assert NextPoster(a, m) < MAX_ID ==> NextPoster(a, m) in b.Keys;
  }

  lemma UntouchedBack(s: Index, t: Index, q: MessageId)
    requires Untouched(s, t, q)
    ensures Untouched(t, s, q)
  {
    hide NextPoster;
  }

  lemma SettleAside(par: Parser, s: Index, p: MessageId, q: MessageId)
    requires p in s.movies && q in s.movies && p != q
    ensures q in Settle(par, s, p).movies && (Exact(par, Settle(par, s, p), q) <==> Exact(par, s, q))
  {
    hide Settle, Untouched, Exact;
    SettleOthers(par, s, p, q);
    UntouchedMovies(s, Settle(par, s, p), q);
    UntouchedBack(s, Settle(par, s, p), q);
    if Exact(par, s, q) {
      ExactFrame(par, s, Settle(par, s, p), q);
    } else if Exact(par, Settle(par, s, p), q) {
      ExactFrame(par, Settle(par, s, p), s, q);
    }
  }

  lemma UntouchedMovies(s: Index, t: Index, q: MessageId)
    requires Untouched(s, t, q)
    ensures q in s.movies && q in t.movies
  {
  }

  // The movie before the new poster.
  lemma ShortenedExactly(par: Parser, s: Index, t: Index, p: MessageId, m: Message, snap: Snapshot)
    requires WellFormed(s) && p in s.movies && Exact(par, s, p) && m.id !in s.movies && p == PrevPoster(s.movies, m.id)
    requires !snap.conflicted && t.snaps == s.snaps[m.id := snap] && t.rows == s.rows
             && t.movies.Keys == s.movies.Keys + {m.id}
    requires p in t.movies && t.movies[p].confidence == s.movies[p].confidence
    ensures p in Settle(par, t, p).movies && (Exact(par, Settle(par, t, p), p) <==> !RowFrom(s.rows, p, m.id))
  {
    hide PosterAt, Exact, Settle, NextPoster, Stocked, RowFrom, WellFormed, PrevPoster;
    var n := NextPoster(s.movies, p);
    NextWithPoster(s.movies, t.movies, m.id);
    ExactStocked(par, s, p);
    SamePoster(par, s.snaps, m.id, snap, p);
    NoConflictBelow(s, t, p, m.id, n);
    ShorterExactly(par, s.snaps, t.snaps, s.rows, p, m.id, n);
    SettledExactly(par, t, p);
  }

  lemma NoConflictBelow(s: Index, t: Index, p: MessageId, m: MessageId, n: int)
    requires p < m < n && n == FirstConflict(s.snaps, p, n) && SnapsAgree(s.snaps, t.snaps, p, m)
    ensures FirstConflict(t.snaps, p, m) == m
  {
    hide FirstConflict;
  }

  // The new movie.
  lemma StartedExactly(par: Parser, s: Index, t: Index, m: Message, f: PosterFields)
    requires WellFormed(s) && m.id !in s.movies && par.Detect(m.content) == AsPoster(f)
    requires t.rows == s.rows && t.movies.Keys == s.movies.Keys + {m.id} && t.movies[m.id] == NewMovie(m, f)
    requires m.id in t.snaps && t.snaps[m.id].content == m.content && !t.snaps[m.id].conflicted
    ensures var n := NextPoster(s.movies, m.id);
            Exact(par, t, m.id) <==> FirstConflict(t.snaps, m.id, n) == n && !TakesSome(par, t.snaps, m.id, n)
  {
    hide Exact, NextPoster, TakesSome, PrevPoster, ArchiveParser.Parser.Detect, FirstConflict;
    NextWithPoster(s.movies, t.movies, m.id);
    assert !HasRows(t.rows, m.id);
    hide WellFormed;
    if Horizon(t, m.id) == NextPoster(t.movies, m.id) {
      EmptyExactly(par, t, m.id);
    } else {
      LowNotExact(par, t, m.id);
    }
  }

  lemma NewPosterExactly(par: Parser, s: Index, m: Message, snap: Snapshot, f: PosterFields)
    requires WellFormed(s) && AllExact(par, s) && m.id !in s.movies && RowAt(s.rows, m.id).None?
    requires par.Detect(m.content) == AsPoster(f) && snap.content == m.content && !snap.conflicted
    ensures var t, p := UpsertPoster(par, SetSnap(s, m.id, snap), m, f), PrevPoster(s.movies, m.id);
            && t.movies.Keys == s.movies.Keys + {m.id} && m.id in t.movies && (p > 0 ==> p in t.movies)
            && (Exact(par, t, m.id) && (p > 0 ==> Exact(par, t, p)) <==>
                !PosterUpsets(par, s, s.snaps[m.id := snap], m.id))
  {
    hide Exact, NextPoster, TakesSome, RowFrom, ArchiveParser.Parser.Detect, FirstConflict, WellFormed, Settle,
         UpsertPoster, PrevPoster;
    var u, p := SetSnap(s, m.id, snap), PrevPoster(s.movies, m.id);
    OwnerBefore(s, m.id);
    var status := UpsertPosterIs(par, u, m, f);
    var t := WithPoster(u, m, f, status);
    assert t.movies[m.id] == NewMovie(m, f) && t.snaps == s.snaps[m.id := snap];
    StartedExactly(par, s, t, m, f);
    if p > 0 {
      assert p in s.movies && Exact(par, s, p) && p != m.id;
      ShortenedExactly(par, s, t, p, m, snap);
      SettleAside(par, t, p, m.id);
      assert Settle(par, t, p).movies.Keys == t.movies.Keys by {
        SettleKeys(par, t, p);
      }
    }
  }

  lemma OwnerBefore(s: Index, id: MessageId)
    requires id !in s.movies
    ensures Owner(s, id) == PrevPoster(s.movies, id)
  {
  }

  lemma SettleKeys(par: Parser, s: Index, p: MessageId)
    requires p in s.movies
    ensures Settle(par, s, p).movies.Keys == s.movies.Keys
  {
    hide RefreshedStatus, MovieGroup;
  }

  // ---- Steps and runs ---------------------------------------------------------------------

  ghost predicate AppliedUpsets(par: Parser, s: Index, m: Message, snap: Snapshot) {
    var p, after := Owner(s, m.id), s.snaps[m.id := snap];
    if m.id !in s.movies && RowAt(s.rows, m.id).None? && par.Detect(m.content).AsPoster?
      then PosterUpsets(par, s, after, m.id)
    else if p == 0 then false
    else if RowAt(s.rows, m.id).Some? then RowUpsets(par, s, after, p, RowAt(s.rows, m.id).value)
    else
      || !Unmoved(par, s.snaps, after, p, NextPoster(s.movies, p), m.id)
      || (m.id !in s.movies && par.Detect(m.content).AsQuality? && !Taken(par, after, p, m.id)
          && exists k :: k in s.rows && s.rows[k].movie == p && Disturbed(par, s, m, snap, p, s.rows[k]))
  }

  /** The step leaves a movie with rows that are not all that the parser takes for it: it is a conflict in a movie's
      range; a new poster that takes over rows, or finds messages it should have had; an edit after which an attached
      message is refused or meets another row of its resolution; or a message that changes for others whether they
      stand, or their score without being taken. */
  ghost predicate Upsets(par: Parser, s: Index, e: Event) {
    var (outcome, snap) := EventRecord(s, e);
    match outcome
    case Stale => false
    case Conflict => Owner(s, e.m.id) > 0
    case Applied => AppliedUpsets(par, s, e.m, snap.value)
  }

  // A row of an exact movie lies in its range.
  lemma RowInRange(par: Parser, s: Index, k: RowId)
    requires WellFormed(s) && AllExact(par, s) && k in s.rows
    ensures s.rows[k].movie == Owner(s, s.rows[k].messageId)
  {
    hide NextPoster, PrevPoster, Taken, Superseded;
    var q, id := s.rows[k].movie, s.rows[k].messageId;
    assert Exact(par, s, q);
    assert q < id < NextPoster(s.movies, q);
    InRangeOf(s, q, id);
  }

  lemma InRangeOf(s: Index, q: MessageId, id: MessageId)
    requires q in s.movies && q <= id < NextPoster(s.movies, q)
    ensures Owner(s, id) == q
  {
    hide NextPoster, PrevPoster;
    var p := PrevPoster(s.movies, id + 1);
    assert !(q < p);
    assert !(p < q);
  }

  lemma OwnerRange(s: Index, id: MessageId)
    requires Owner(s, id) > 0
    ensures Owner(s, id) in s.movies && Owner(s, id) <= id < NextPoster(s.movies, Owner(s, id))
  {
    hide NextPoster, PrevPoster;
    var p := PrevPoster(s.movies, id + 1);
    var n := NextPoster(s.movies, p);
    assert n <= id ==> n in s.movies;
  }

  // The message is a new poster.
  ghost predicate StartsMovie(par: Parser, s: Index, e: Event) {
    && EventRecord(s, e).0.Applied? && e.m.id !in s.movies && RowAt(s.rows, e.m.id).None?
       && par.Detect(e.m.content).AsPoster?
  }

  lemma AppliedKeepsContent(s: Index, e: Event)
    requires EventRecord(s, e).0.Applied?
    ensures EventRecord(s, e).1.Some? && EventRecord(s, e).1.value.content == e.m.content
            && !EventRecord(s, e).1.value.conflicted
  {
  }

  lemma ConflictExactly(par: Parser, s: Index, e: Event)
    requires WellFormed(s) && AllExact(par, s) && EventRecord(s, e).0.Conflict?
    ensures var t, p := Step(par, s, e), Owner(s, e.m.id);
            t.movies.Keys == s.movies.Keys && (p > 0 ==> p in t.movies && !Exact(par, t, p))
  {
    hide MovieGroup, Settle, NextPoster, PrevPoster, FirstConflict, Exact, AllExact;
    var u, t, p := SetSnap(s, e.m.id, EventRecord(s, e).1.value), Step(par, s, e), Owner(s, e.m.id);
    KeysAfterConflict(par, u, e.m.id);
    if p > 0 {
      OwnerRange(s, e.m.id);
      SameNeighbours(s.movies, t.movies);
      assert t == InvalidateConflict(par, u, e.m.id) && t.snaps[e.m.id].conflicted;
      assert Horizon(t, p) <= e.m.id < NextPoster(t.movies, p);
      LowNotExact(par, t, p);
    }
  }

  lemma KeysAfterConflict(par: Parser, s: Index, id: MessageId)
    requires WellFormed(s)
    ensures InvalidateConflict(par, s, id).movies.Keys == s.movies.Keys
  {
    hide Settle, PrevPoster;
    if PrevPoster(s.movies, id) > 0 {
      SettleKeys(par, s, PrevPoster(s.movies, id));
    }
  }

  lemma AttachedExactly(par: Parser, s: Index, m: Message, snap: Snapshot)
    requires WellFormed(s) && AllExact(par, s) && RowAt(s.rows, m.id).Some? && snap.content == m.content
             && !snap.conflicted
    ensures var t, p, k := EditQuality(par, SetSnap(s, m.id, snap), RowAt(s.rows, m.id).value, m), Owner(s, m.id),
                           RowAt(s.rows, m.id).value;
            && t.movies.Keys == s.movies.Keys && p in s.movies && p in t.movies
            && (Exact(par, t, p) <==> !RowUpsets(par, s, s.snaps[m.id := snap], p, k))
  {
    hide Exact, PrevPoster, NextPoster, EditQuality, RowUpsets, WellFormed, PosterAt;
    var k, u := RowAt(s.rows, m.id).value, SetSnap(s, m.id, snap);
    RowInRange(par, s, k);
    RowKnown(s, k);
    var p := s.rows[k].movie;
    OwnerRange(s, m.id);
    InOrderOf(par, s, p);
    SamePoster(par, s.snaps, m.id, snap, p);
    Recording(par, s, m.id, snap, p);
    EditedExactly(par, s, u, p, k, m);
    EditQualityKeys(par, u, k, m);
  }

  lemma EditQualityKeys(par: Parser, s: Index, k: RowId, m: Message)
    requires k in s.rows && s.rows[k].movie in s.movies
    ensures EditQuality(par, s, k, m).movies.Keys == s.movies.Keys
  {
    hide MovieGroup, ItemAt;
  }

  lemma PosterEditExactly(par: Parser, s: Index, m: Message, snap: Snapshot)
    requires WellFormed(s) && AllExact(par, s) && m.id in s.movies && snap.content == m.content && !snap.conflicted
    ensures var t, p := EditPoster(par, SetSnap(s, m.id, snap), m), m.id;
            && t.movies.Keys == s.movies.Keys && Owner(s, m.id) == p
            && (Exact(par, t, p) <==> Unmoved(par, s.snaps, s.snaps[m.id := snap], p, NextPoster(s.movies, p), p))
  {
    hide Exact, Unmoved, NextPoster, EditPoster, WellFormed;
    EditedPosterExactly(par, s, m, snap);
    EditPosterKeys(par, SetSnap(s, m.id, snap), m);
  }

  lemma EditPosterKeys(par: Parser, s: Index, m: Message)
    requires m.id in s.movies
    ensures EditPoster(par, s, m).movies.Keys == s.movies.Keys
  {
    hide RefreshedStatus, MovieGroup, ArchiveParser.Parser.Detect;
  }

  // A message without row, and no poster.
  ghost predicate LooseUpsets(par: Parser, s: Index, m: Message, snap: Snapshot, p: MessageId) {
    || !Unmoved(par, s.snaps, s.snaps[m.id := snap], p, NextPoster(s.movies, p), m.id)
    || (par.Detect(m.content).AsQuality? && !Taken(par, s.snaps[m.id := snap], p, m.id)
        && exists k :: k in s.rows && s.rows[k].movie == p && Disturbed(par, s, m, snap, p, s.rows[k]))
  }

  lemma LooseExactly(par: Parser, s: Index, m: Message, snap: Snapshot)
    requires WellFormed(s) && AllExact(par, s) && m.id !in s.movies && RowAt(s.rows, m.id).None?
    requires !par.Detect(m.content).AsPoster? && snap.content == m.content && !snap.conflicted
    ensures var t, p := Place(par, SetSnap(s, m.id, snap), m), PrevPoster(s.movies, m.id);
            t.movies.Keys == s.movies.Keys
              && (p > 0 ==> p in t.movies && (Exact(par, t, p) <==> !LooseUpsets(par, s, m, snap, p)))
  {
    hide Exact, Unmoved, NextPoster, PrevPoster, WellFormed, Settle, Disturbed, PosterAt, ArchiveParser.Parser.Detect,
         UpsertRow, MovieGroup, ItemAt, Horizon, Item, Ended;
    var u, p := SetSnap(s, m.id, snap), PrevPoster(s.movies, m.id);
    OwnerBefore(s, m.id);
    if p > 0 {
      OwnerRange(s, m.id);
      assert p != m.id && Exact(par, s, p);
      InOrderOf(par, s, p);
      SamePoster(par, s.snaps, m.id, snap, p);
      Recording(par, s, m.id, snap, p);
      assert !HasRowAt(s.rows, p, m.id) && At(par, u.snaps, m.id) == par.Detect(m.content);
      if par.Detect(m.content).AsNoise? {
        SettlingExactly(par, s, u, p, m.id);
        SettleKeys(par, u, p);
      } else {
        ItemAtExactly(par, u, p, m.id);
        if Taken(par, u.snaps, p, m.id) {
          PlacedExactly(par, s, u, p, m.id);
          SettleKeys(par, UpsertRow(u, p, Item(par, u.snaps, p, m.id)), p);
        } else {
          RefusedExactly(par, s, m, snap, p);
        }
      }
    }
  }

  /** The exact condition: a step leaves the rows of every movie all that the parser takes for it, and nothing else, if
      and only if it does not upset them. */
  lemma StepExactly(par: Parser, s: Index, e: Event)
    requires WellFormed(s) && AllExact(par, s)
    ensures AllExact(par, Step(par, s, e)) <==> !Upsets(par, s, e)
  {
    hide Exact, WellFormed, Step, Upsets, PrevPoster;
    var t, p := Step(par, s, e), Owner(s, e.m.id);
    StepOwner(par, s, e);
    if RowAt(s.rows, e.m.id).Some? {
      RowInRange(par, s, RowAt(s.rows, e.m.id).value);
    }
    forall q | q in s.movies && q != p
      ensures q in t.movies && Exact(par, t, q)
    {
      StepUntouched(par, s, e, q);
      UntouchedMovies(s, t, q);
      ExactFrame(par, s, t, q);
    }
    assert forall q :: q in t.movies ==> q in t.movies.Keys;
  }

  // What the step makes of the movie in whose range its message lies, and of a new one.
  lemma StepOwner(par: Parser, s: Index, e: Event)
    requires WellFormed(s) && AllExact(par, s)
    ensures var t, p, m := Step(par, s, e), Owner(s, e.m.id), e.m.id;
            if StartsMovie(par, s, e) then
              && t.movies.Keys == s.movies.Keys + {m} && m in t.movies && (p > 0 ==> p in t.movies) && p != m
              && (Exact(par, t, m) && (p > 0 ==> Exact(par, t, p)) <==> !Upsets(par, s, e))
            else
              && t.movies.Keys == s.movies.Keys
              && (p > 0 ==> p in t.movies && (Exact(par, t, p) <==> !Upsets(par, s, e)))
                 && (p == 0 ==> !Upsets(par, s, e))
  {
    hide Exact, AllExact, WellFormed, PrevPoster, NextPoster, EditPoster, EditQuality, Place, InvalidateConflict,
         PosterUpsets, RowUpsets, Unmoved, LooseUpsets, Disturbed, Taken, ArchiveParser.Parser.Detect;
    var m, p := e.m, Owner(s, e.m.id);
    if EventRecord(s, e).0.Stale? {
      StaleOwner(par, s, e);
    } else if EventRecord(s, e).0.Conflict? {
      ConflictExactly(par, s, e);
    } else {
      AppliedKeepsContent(s, e);
      var snap := EventRecord(s, e).1.value;
      if m.id in s.movies || RowAt(s.rows, m.id).Some? {
        KnownRecorded(s, m.id);
      }
      if m.id in s.movies {
        NoRowOfPoster(s, m.id);
        PosterEditExactly(par, s, m, snap);
      } else if RowAt(s.rows, m.id).Some? {
        AttachedExactly(par, s, m, snap);
      } else {
        OwnerBefore(s, m.id);
        if par.Detect(m.content).AsPoster? {
          NewPosterExactly(par, s, m, snap, par.Detect(m.content).poster);
          PosterPlaced(par, SetSnap(s, m.id, snap), m);
        } else {
          LooseExactly(par, s, m, snap);
          LooseIs(par, s, m, snap);
        }
      }
    }
  }

  lemma StaleOwner(par: Parser, s: Index, e: Event)
    requires WellFormed(s) && AllExact(par, s) && EventRecord(s, e).0.Stale?
    ensures Step(par, s, e) == s && (Owner(s, e.m.id) > 0 ==>
                                     Owner(s, e.m.id) in s.movies && Exact(par, s, Owner(s, e.m.id)))
  {
    hide Exact, WellFormed;
  }

  lemma NoRowOfPoster(s: Index, id: MessageId)
    requires WellFormed(s) && id in s.movies
    ensures RowAt(s.rows, id).None?
  {
  }

  lemma PosterPlaced(par: Parser, s: Index, m: Message)
    requires par.Detect(m.content).AsPoster?
    ensures Place(par, s, m) == UpsertPoster(par, s, m, par.Detect(m.content).poster)
  {
    hide ArchiveParser.Parser.Detect, UpsertPoster;
  }

  lemma LooseIs(par: Parser, s: Index, m: Message, snap: Snapshot)
    requires m.id !in s.movies && RowAt(s.rows, m.id).None? && !par.Detect(m.content).AsPoster?
    ensures var p := PrevPoster(s.movies, m.id);
            AppliedUpsets(par, s, m, snap) <==> p > 0 && LooseUpsets(par, s, m, snap, p)
  {
    hide ArchiveParser.Parser.Detect, Unmoved, Disturbed, Taken, PrevPoster;
    OwnerBefore(s, m.id);
  }

  ghost predicate NothingUpset(par: Parser, s: Index, es: seq<Event>)
    requires WellFormed(s)
    decreases |es|
  {
    es == [] || (!Upsets(par, s, es[0])
                 && (StepWellFormed(par, s, es[0]); NothingUpset(par, Step(par, s, es[0]), es[1..])))
  }

  ghost predicate AlwaysExact(par: Parser, s: Index, es: seq<Event>)
    requires WellFormed(s)
    decreases |es|
  {
    AllExact(par, s) && (es == [] || (StepWellFormed(par, s, es[0]); AlwaysExact(par, Step(par, s, es[0]), es[1..])))
  }

  /** Over a run every state has exactly the parser's rows if and only if no event upsets them. */
  lemma {:induction false} RunExactly(par: Parser, s: Index, es: seq<Event>)
    requires WellFormed(s) && AllExact(par, s)
    ensures AlwaysExact(par, s, es) <==> NothingUpset(par, s, es)
    decreases |es|
  {
    hide AllExact, Step, Upsets, WellFormed;
    if es != [] {
      StepExactly(par, s, es[0]);
      StepWellFormed(par, s, es[0]);
      if AllExact(par, Step(par, s, es[0])) {
        RunExactly(par, Step(par, s, es[0]), es[1..]);
      } else {
        assert !AlwaysExact(par, Step(par, s, es[0]), es[1..]);
      }
    }
  }
}
