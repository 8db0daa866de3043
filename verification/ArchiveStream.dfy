/** From the empty index: what holds along every run, and along one that delivers the posts in order. */
module ArchiveStream {
  import opened Wrappers
  import opened Archive
  import opened ArchiveParser
  import opened ArchiveIndex
  import opened ArchiveSafety
  import opened ArchiveEvidence
  import opened ArchiveCompleteness
  import opened ArchiveEdits
  import opened ArchiveBatch

  lemma EmptySafe(par: Parser)
    ensures WellFormed(EMPTY) && Safe(par, EMPTY) && Synced(par, EMPTY)
  {
  }

  /** From the empty index every state of a run is safe if and only if no event is overlooked; posters are shown as they
      are in any case. */
  lemma EveryRunFromEmpty(par: Parser, es: seq<Event>)
    ensures WellFormed(EMPTY) && (AlwaysSafe(par, EMPTY, es) <==> NothingOverlooked(par, EMPTY, es))
    ensures Synced(par, Run(par, EMPTY, es))
  {
    EmptySafe(par);
    RunSafeExactly(par, EMPTY, es);
    RunSynced(par, EMPTY, es);
  }

  lemma {:induction false} RunSynced(par: Parser, s: Index, es: seq<Event>)
    requires WellFormed(s) && Synced(par, s)
    ensures Synced(par, Run(par, s, es))
    decreases |es|
  {
    hide Synced, Step, WellFormed;
    if es != [] {
      StepSynced(par, s, es[0]);
      StepWellFormed(par, s, es[0]);
      RunSynced(par, Step(par, s, es[0]), es[1..]);
    }
  }

  /** A post above everything recorded is never overlooked: no row lies above it. */
  lemma NewestPostSafe(par: Parser, s: Index, m: Message)
    requires WellFormed(s) && Safe(par, s) && Fresh(s, m.id)
    ensures Safe(par, Step(par, s, Post(m)))
  {
    hide Safe, Step, Unattended;
    if Unattended(par, s, Post(m)) {
      NoRowAbove(s, m.id);
      RefusedPostSafeExactly(par, s, m);
    } else {
      AttendedSafe(par, s, Post(m));
    }
  }

  lemma NoRowAbove(s: Index, id: MessageId)
    requires WellFormed(s) && Fresh(s, id)
    ensures id !in s.snaps && forall k :: k in s.rows ==> s.rows[k].messageId < id
  {
  }

  lemma {:induction false} StreamSafe(par: Parser, ms: seq<Message>, n: nat)
    requires Ascending(ms) && n <= |ms|
    ensures var s, last := IngestAll(par, ms, n), if n == 0 then 0 else ms[n - 1].id;
            Calm(s, last) && Safe(par, s) && Synced(par, s)
  {
    hide Safe, Synced, Ingest, WellFormed;
    if n == 0 {
      EmptySafe(par);
    } else {
      StreamSafe(par, ms, n - 1);
      var s := IngestAll(par, ms, n - 1);
      assert Fresh(s, ms[n - 1].id);
      NewestPostSafe(par, s, ms[n - 1]);
      StepSynced(par, s, Post(ms[n - 1]));
    }
    StreamInStep(par, ms, n);
  }

  lemma MovieHasGroup(s: Index, gs: seq<ParsedMovieGroup>, p: MessageId) returns (i: nat)
    requires GroupsMatch(s, gs) && p in s.movies
    ensures i < |gs| && gs[i].posterId == p && Matches(s, gs[i])
  {
    hide Matches;
    assert p in PosterIds(gs);
    i :| 0 <= i < |gs| && PosterIds(gs)[i] == p;
  }

  lemma MatchedEqualsParse(par: Parser, s: Index, g: ParsedMovieGroup)
    requires Matches(s, g) && MovieSafe(par, s, g.posterId) && s.movies[g.posterId].confidence > 0
    ensures EqualsParse(par, s, g.posterId)
  {
    hide MovieGroup, Backed;
  }

  /** After posts in ascending order the index is safe, shows every poster as it is, and the rows of every movie,
      "indexed" or not, say what the parser says. */
  lemma AscendingSettled(par: Parser, ms: seq<Message>)
    requires Ascending(ms)
    ensures var s := IngestAll(par, ms, |ms|);
            WellFormed(s) && Safe(par, s) && Synced(par, s) && forall p :: p in s.movies ==> EqualsParse(par, s, p)
  {
    hide Synced, Matches, MovieSafe, EqualsParse;
    var s := IngestAll(par, ms, |ms|);
    StreamSafe(par, ms, |ms|);
    IncrementalEqualsBatch(par, ms);
    forall p | p in s.movies
      ensures EqualsParse(par, s, p)
    {
      var i := MovieHasGroup(s, par.Parse(ms), p);
      MatchedEqualsParse(par, s, par.Parse(ms)[i]);
    }
  }

  function Posts(ms: seq<Message>): seq<Event> {
    seq(|ms|, i requires 0 <= i < |ms| => Post(ms[i]))
  }

  /** Such an ingest is a run of the index. */
  lemma {:induction false} IngestIsRun(par: Parser, ms: seq<Message>, n: nat)
    requires n <= |ms|
    ensures WellFormed(EMPTY) && IngestAll(par, ms, n) == Run(par, EMPTY, Posts(ms)[..n])
  {
    hide Ingest, WellFormed;
    EmptySafe(par);
    if n > 0 {
      IngestIsRun(par, ms, n - 1);
      var s := IngestAll(par, ms, n - 1);
      assert Posts(ms)[..n] == Posts(ms)[..n - 1] + [Post(ms[n - 1])];
      RunInTwo(par, EMPTY, Posts(ms)[..n - 1], [Post(ms[n - 1])]);
      StepWellFormed(par, s, Post(ms[n - 1]));
      assert Run(par, Step(par, s, Post(ms[n - 1])), []) == Ingest(par, s, ms[n - 1]);
    }
  }

  /** After posts in ascending order, editing any poster there and back restores all rows. */
  lemma UndoneAfterStream(par: Parser, ms: seq<Message>, there: Message, back: Message)
    requires Ascending(ms)
    requires var s := IngestAll(par, ms, |ms|);
             there.id == back.id && there.id in s.movies && there.id in s.snaps
               && back.content == s.snaps[there.id].content
             && there.editedAt.Some? && back.editedAt.Some? && there.editedAt.value < back.editedAt.value
             && (s.snaps[there.id].editedAt.Some? ==> s.snaps[there.id].editedAt.value < there.editedAt.value)
    ensures var s := IngestAll(par, ms, |ms|);
            && WellFormed(s) && WellFormed(Step(par, s, Edit(there)))
            && Step(par, Step(par, s, Edit(there)), Edit(back)).rows == s.rows
  {
    hide Step, WellFormed, EqualsParse, Synced;
    AscendingSettled(par, ms);
    PosterEditUndone(par, IngestAll(par, ms, |ms|), there, back);
  }

  // ---- Completeness -----------------------------------------------------------------------

  // Nothing recorded lies at or above the new message.
  lemma NewestMovesNone(par: Parser, s: Index, m: Message, p: MessageId)
    requires Fresh(s, m.id) && PosterAt(par, s.snaps, p) && p < m.id < NextPoster(s.movies, p)
    ensures Unmoved(par, s.snaps, Read(s, m).snaps, p, NextPoster(s.movies, p), m.id)
  {
    hide PosterAt, Ended, At, Superseded;
    var after, n := Read(s, m).snaps, NextPoster(s.movies, p);
    SamePoster(par, s.snaps, m.id, after[m.id], p);
    forall id: MessageId | id != m.id
      ensures Stands(par, after, p, n, id) <==> Stands(par, s.snaps, p, n, id) && !Displaces(par, after, p, m.id, id)
    {
      if id < m.id {
        SameTaken(par, s.snaps, after, p, m.id, id);
        if Taken(par, after, p, id) {
          NewestSupersedes(par, s, m, p, At(par, after, id).quality.resolution, id);
        }
      }
    }
  }

  lemma NewestSupersedes(par: Parser, s: Index, m: Message, p: MessageId, r: string, id: MessageId)
    requires Fresh(s, m.id) && PosterAt(par, s.snaps, p) && p < m.id < NextPoster(s.movies, p) && id < m.id
    ensures PosterAt(par, Read(s, m).snaps, p)
    ensures var after, n := Read(s, m).snaps, NextPoster(s.movies, p);
            Superseded(par, after, p, n, r, id)
            <==> Superseded(par, s.snaps, p, n, r, id)
                 || (Taken(par, after, p, m.id) && At(par, after, m.id).quality.resolution == r)
  {
    hide PosterAt, Ended, At;
    var after, n := Read(s, m).snaps, NextPoster(s.movies, p);
    SamePoster(par, s.snaps, m.id, after[m.id], p);
    forall j: MessageId | j != m.id
      ensures Taken(par, after, p, j) <==> Taken(par, s.snaps, p, j)
      ensures Taken(par, after, p, j) ==> At(par, after, j) == At(par, s.snaps, j)
    {
      if j < m.id {
        SameTaken(par, s.snaps, after, p, m.id, j);
      }
    }
  }

  lemma NewestDisturbsNone(par: Parser, s: Index, m: Message, p: MessageId, row: Row)
    requires Fresh(s, m.id) && PosterAt(par, s.snaps, p) && p < m.id < NextPoster(s.movies, p)
             && Evident(par, s, p, row)
    requires PosterAt(par, Read(s, m).snaps, p) ==> !Taken(par, Read(s, m).snaps, p, m.id)
    ensures !Disturbed(par, s, m, Snapshot(m.content, m.editedAt, false, 1), p, row)
  {
    hide PosterAt, Ended, At, Item, NextPoster, Distance, Superseded;
    var after := Read(s, m).snaps;
    SamePoster(par, s.snaps, m.id, after[m.id], p);
    SameTaken(par, s.snaps, after, p, m.id, row.messageId);
    NewestSupersedes(par, s, m, p, row.resolution, row.messageId);
  }

  lemma NewestTakesNone(par: Parser, s: Index, m: Message)
    requires Fresh(s, m.id)
    ensures var after, n := Read(s, m).snaps, NextPoster(s.movies, m.id);
            FirstConflict(after, m.id, n) == n && !TakesSome(par, after, m.id, n)
  {
    hide PosterAt, Ended, At, NextPoster, FirstConflict;
  }

  /** A post above everything recorded upsets nothing. */
  lemma NewestUpsetsNothing(par: Parser, s: Index, m: Message)
    requires WellFormed(s) && AllExact(par, s) && Fresh(s, m.id)
    ensures !Upsets(par, s, Post(m))
  {
    hide WellFormed, Exact, Unmoved, Disturbed, FirstConflict, TakesSome, NextPoster, PrevPoster, Fresh, PosterAt,
         Evident, Ended, ArchiveParser.Parser.Detect;
    NoRowAbove(s, m.id);
    NotAPoster(s, m.id);
    var p, snap := Owner(s, m.id), Snapshot(m.content, m.editedAt, false, 1);
    assert EventRecord(s, Post(m)) == (Applied, Some(snap));
    if par.Detect(m.content).AsPoster? {
      NewestTakesNone(par, s, m);
    } else if p > 0 {
      OwnerRange(s, m.id);
      assert p != m.id && Exact(par, s, p);
      InOrderOf(par, s, p);
      NewestMovesNone(par, s, m, p);
      SamePoster(par, s.snaps, m.id, snap, p);
      forall k | k in s.rows && s.rows[k].movie == p && !Taken(par, Read(s, m).snaps, p, m.id)
        ensures !Disturbed(par, s, m, snap, p, s.rows[k])
      {
        ExactRow(par, s, p, k);
        NewestDisturbsNone(par, s, m, p, s.rows[k]);
      }
    }
  }

  lemma NotAPoster(s: Index, id: MessageId)
    requires WellFormed(s) && Fresh(s, id)
    ensures id !in s.movies && RowAt(s.rows, id).None?
  {
  }

  lemma ExactRow(par: Parser, s: Index, p: MessageId, k: RowId)
    requires p in s.movies && Exact(par, s, p) && k in s.rows && s.rows[k].movie == p
    ensures PosterAt(par, s.snaps, p) && Evident(par, s, p, s.rows[k])
  {
    hide Evident, PosterAt;
  }

  /** After posts in ascending order every movie has exactly the parser's rows. */
  lemma {:induction false} AscendingExact(par: Parser, ms: seq<Message>, n: nat)
    requires Ascending(ms) && n <= |ms|
    ensures AllExact(par, IngestAll(par, ms, n))
  {
    hide AllExact, Ingest, Upsets, Safe, Synced;
    if n == 0 {
      EmptyExact(par);
    } else {
      AscendingExact(par, ms, n - 1);
      StreamSafe(par, ms, n - 1);
      var s := IngestAll(par, ms, n - 1);
      assert Fresh(s, ms[n - 1].id);
      NewestUpsetsNothing(par, s, ms[n - 1]);
      StepExactly(par, s, Post(ms[n - 1]));
    }
  }

  lemma EmptyExact(par: Parser)
    ensures AllExact(par, EMPTY)
  {
  }

  /** Reading a message that is not recorded is posting it; so reading a whole archive into an empty index, in order,
      makes what one full parse makes. */
  lemma FirstReadIsPost(par: Parser, s: Index, m: Message)
    requires WellFormed(s) && m.id !in s.snaps
    ensures Step(par, s, Reread(m, 0)) == Step(par, s, Post(m))
  {
    hide Place;
  }
}
