/** Two states, both reached from the empty index, in which an overlooked event leaves a movie "indexed" although the
    parser no longer agrees with its rows. */
module ArchiveLimits {
  import opened Wrappers
  import opened Archive
  import opened ArchiveParser
  import opened ArchiveIndex
  import opened ArchiveEvidence
  import opened ArchiveSafety
  import opened ArchiveCompleteness
  import opened ArchiveRepair
  import opened ArchiveReads

  /** The row is what settling would make of it. */
  ghost predicate Settled(par: Parser, s: Index, p: MessageId, row: Row)
    requires PosterAt(par, s.snaps, p)
  {
    && Newest(par, s.snaps, p, NextPoster(s.movies, p), row.resolution, row.messageId)
    && SettledRow(par, s, p, row) == row && row.confidence > 0
  }

  lemma SettledIndexed(par: Parser, s: Index, p: MessageId)
    requires p in s.movies && s.movies[p].confidence > 0 && Horizon(s, p) == NextPoster(s.movies, p)
             && PosterAt(par, s.snaps, p)
    requires HasRows(s.rows, p) && forall k :: k in s.rows && s.rows[k].movie == p ==> Settled(par, s, p, s.rows[k])
    ensures Settle(par, s, p) == SetStatus(s, p, Indexed)
  {
    hide Settled, MovieGroup, PosterAt, Horizon, NextPoster, RevalidatedRow;
    var g := MovieGroup(par, s, p, None);
    forall k | k in s.rows && s.rows[k].movie == p
      ensures RevalidatedRow(g, s.rows[k]) == s.rows[k] && s.rows[k].confidence > 0
    {
      SettledStays(par, s, p, s.rows[k]);
    }
    assert Revalidate(par, s, p).rows == s.rows;
  }

  lemma SettledStays(par: Parser, s: Index, p: MessageId, row: Row)
    requires p in s.movies && s.movies[p].confidence > 0 && Horizon(s, p) == NextPoster(s.movies, p)
             && PosterAt(par, s.snaps, p)
    requires Settled(par, s, p, row)
    ensures RevalidatedRow(MovieGroup(par, s, p, None), row) == row && row.confidence > 0
  {
    hide PosterAt, Newest, Horizon, NextPoster, MovieGroup, RevalidatedRow;
    RevalidatedExactly(par, s, p, row);
  }

  lemma {:induction false} NoConflictHere(snaps: Snapshots, lo: int, hi: int)
    requires lo <= hi && forall id :: id in snaps ==> !snaps[id].conflicted
    ensures FirstConflict(snaps, lo, hi) == hi
  {
  }

  // A post the parser takes, for which its movie has no row yet.
  lemma TakenPost(par: Parser, s: Index, m: Message, p: MessageId)
    requires m.id !in s.snaps && m.id !in s.movies && p == PrevPoster(s.movies, m.id) && p in s.movies
             && s.movies[p].confidence > 0
    requires par.Detect(m.content).AsQuality?
    requires forall id :: id in s.snaps ==> !s.snaps[id].conflicted
    requires var u := SetSnap(s, m.id, Snapshot(m.content, m.editedAt, false, 1));
             PosterAt(par, u.snaps, p) && Taken(par, u.snaps, p, m.id)
             && forall k :: k in s.rows && s.rows[k].movie == p ==>
                s.rows[k].resolution != Item(par, u.snaps, p, m.id).resolution
    ensures var u := SetSnap(s, m.id, Snapshot(m.content, m.editedAt, false, 1));
            Ingest(par, s, m) == Settle(par, Inserted(u, NewRow(p, Item(par, u.snaps, p, m.id))), p)
  {
    hide Settle, MovieGroup, ItemAt, Item, PosterAt, Taken, ArchiveParser.Parser.Detect;
    var u := SetSnap(s, m.id, Snapshot(m.content, m.editedAt, false, 1));
    NoConflictHere(u.snaps, p, NextPoster(u.movies, p));
    assert p < m.id < NextPoster(u.movies, p) == Horizon(u, p);
    ItemAtExactly(par, u, p, m.id);
  }

  function Inserted(s: Index, row: Row): Index {
    s.(rows := s.rows[s.nextRow := row], nextRow := s.nextRow + 1)
  }

  // ---- The parser of the examples ---------------------------------------------------------

  const FIELDS := PosterFields("Film", "Film", "film", Some(2000), Modern, 90)

  const RIGHT_YEAR := QualityFields("720p", None, None, Some(2000))
  const OTHER := QualityFields("480p", None, None, Some(2000))
  const WRONG_YEAR := QualityFields("480p", None, None, Some(1999))

  // As the service runs it: two noise messages end a group.
  function Strict(): Parser {
    Parser(1, _ => Some(FIELDS),
           t => if t == "right" then Some(RIGHT_YEAR) else if t == "other" then Some(OTHER) else Some(WRONG_YEAR),
           (_, _) => 0.0)
  }

  function Snap(kind: MediaKind, caption: string): Snapshot {
    Snapshot(Content(kind, Some(caption)), None, false, 1)
  }

  function Film(status: MovieStatus): Movie {
    Movie("Film", "film", Some(2000), Modern, "poster", status, 90)
  }

  function Attached(p: MessageId, id: MessageId, q: QualityFields, caption: string, confidence: int): Row {
    Row(p, id, q.resolution, caption, None, None, Some(2000), confidence)
  }

  lemma Captions()
    ensures Strict().Detect(Content(Photo, Some("poster"))) == AsPoster(FIELDS)
    ensures Strict().Detect(Content(Video, Some("right"))) == AsQuality(RIGHT_YEAR)
    ensures Strict().Detect(Content(Video, Some("other"))) == AsQuality(OTHER)
    ensures Strict().Detect(Content(Video, Some("wrong"))) == AsQuality(WRONG_YEAR)
    ensures Strict().Detect(Content(Other, None)) == AsNoise
    ensures Strict().Score(FIELDS, RIGHT_YEAR, 1) == 90 && Strict().Score(FIELDS, OTHER, 3) == 80
  {
  }

  lemma AllSafe(par: Parser, s: Index)
    requires forall p :: p in s.movies ==> MovieSafe(par, s, p)
    ensures Safe(par, s)
  {
  }

  // ---- A refused quality below messages already read --------------------------------------

  // One movie with one quality.
  function Single(id: MessageId): Index
    requires id > 1
  {
    Index(map[1 := Snap(Photo, "poster"), id := Snap(Video, "right")],
          map[1 := Film(Indexed)],
          map[0 := Attached(1, id, RIGHT_YEAR, "right", 90)], 1)
  }

  function OneMovie(): Index {
    Single(3)
  }

  const LATE_ARRIVAL := Message(2, Content(Video, Some("wrong")), None)

  lemma EvidenceOfSingle(id: MessageId)
    requires id == 3 || id == 4
    ensures var par, snaps := Strict(), Single(id).snaps;
            && PosterAt(par, snaps, 1) && Taken(par, snaps, 1, id) && Newest(par, snaps, 1, MAX_ID, "720p", id)
            && Item(par, snaps, 1, id) == ParsedQuality(id, "720p", "right", None, None, Some(2000), 90)
            && Distance(snaps, 1, id) == 1
  {
    hide ArchiveParser.Parser.Detect, ArchiveParser.Parser.Score;
    Captions();
    var par, snaps := Strict(), Single(id).snaps;
    assert !Ended(par, snaps, 1, 2) && !Ended(par, snaps, 1, 3);
    assert Distance(snaps, 1, 2) == 0 && (id == 4 ==> Distance(snaps, 1, 3) == 0);
  }

  lemma SettledSingle(s: Index, id: MessageId)
    requires id == 3 || id == 4
    requires s == Single(id).(movies := map[1 := Film(Pending)])
    ensures Settle(Strict(), s, 1) == Single(id)
  {
    hide PosterAt, Newest, Item, Settle, Fits;
    EvidenceOfSingle(id);
    HorizonAtEnd(s, 1);
    assert 0 in s.rows && Settled(Strict(), s, 1, s.rows[0]);
    SettledIndexed(Strict(), s, 1);
  }

  lemma WellFormedOne()
    ensures WellFormed(OneMovie())
  {
  }

  lemma OneMovieSafe()
    ensures Safe(Strict(), OneMovie())
  {
    hide Newest, Item, PosterAt, MovieGroup, Backed;
    var s := OneMovie();
    assert NextPoster(s.movies, 1) == MAX_ID;
    NoConflictHere(s.snaps, 1, MAX_ID);
    EvidenceOfSingle(3);
    assert 0 in s.rows;
    BackedExactly(Strict(), s, 1, s.rows[0]);
    AllSafe(Strict(), s);
  }

  lemma LateArrivalOverlooked()
    ensures Overlooked(Strict(), OneMovie(), Post(LATE_ARRIVAL))
  {
    hide ArchiveParser.Parser.Detect, ArchiveParser.Parser.Score, MovieGroup, ItemAt, Taken, Horizon, Superseded, Ended;
    Captions();
    EvidenceOfSingle(3);
    var par, s := Strict(), OneMovie();
    var t := SetSnap(s, 2, Snap(Video, "wrong"));
    assert EventRecord(s, Post(LATE_ARRIVAL)) == (Applied, Some(Snap(Video, "wrong")));
    assert PosterAt(par, t.snaps, 1);
    assert !Taken(par, t.snaps, 1, 2) by {
      WrongYearNotTaken(t.snaps);
    }
    HorizonAtEnd(t, 1);
    ItemAtExactly(par, t, 1, 2);
    assert Owner(s, 2) == 1 && RowAt(s.rows, 2).None?;
    assert 0 in s.rows && Disturbed(par, s, LATE_ARRIVAL, Snap(Video, "wrong"), 1, s.rows[0]);
  }

  lemma WrongYearNotTaken(snaps: Snapshots)
    requires PosterAt(Strict(), snaps, 1) && snaps[1] == Snap(Photo, "poster") && 2 in snaps
             && snaps[2] == Snap(Video, "wrong")
    ensures !Taken(Strict(), snaps, 1, 2)
  {
  }

  lemma HorizonAtEnd(s: Index, p: MessageId)
    requires p in s.movies && (forall q :: q in s.movies ==> q <= p) && forall id :: id in s.snaps ==>
             !s.snaps[id].conflicted
    ensures NextPoster(s.movies, p) == MAX_ID == Horizon(s, p)
  {
    NoConflictHere(s.snaps, p, NextPoster(s.movies, p));
  }

  /** A late message of the wrong year pushes the next quality further from the poster; its row keeps
      the old confidence. */
  lemma RefusedQualityOverlooked()
    ensures WellFormed(EMPTY) && Run(Strict(), EMPTY, [PosterPost(1), QualityPost(3, "right")]) == OneMovie()
    ensures var s, e := OneMovie(), Post(LATE_ARRIVAL);
            && WellFormed(s) && Safe(Strict(), s) && Overlooked(Strict(), s, e)
            && !Safe(Strict(), Step(Strict(), s, e))
  {
    hide WellFormed, Overlooked, Step, Safe;
    SingleReached(3);
    WellFormedOne();
    OneMovieSafe();
    LateArrivalOverlooked();
    StepSafeExactly(Strict(), OneMovie(), Post(LATE_ARRIVAL));
  }

  // ---- An edit of a row whose range a later poster has taken over -------------------------

  function TwoMovies(): Index {
    Index(map[1 := Snap(Photo, "poster"), 2 := Snap(Photo, "poster"), 3 := NOISE, 4 := Snap(Video, "right"),
              5 := Snap(Video, "other")],
          map[1 := Film(Ambiguous), 2 := Film(Indexed)],
          map[0 := Attached(1, 4, RIGHT_YEAR, "right", 0), 1 := Attached(2, 5, OTHER, "other", 80)], 2)
  }

  const NOISE := Snapshot(Content(Other, None), None, false, 1)
  const TO_NOISE := Message(4, Content(Other, None), None)

  lemma EvidenceOfTwo()
    ensures var par, snaps := Strict(), TwoMovies().snaps;
            && PosterAt(par, snaps, 1) && PosterAt(par, snaps, 2) && Taken(par, snaps, 2, 4)
            && Taken(par, snaps, 2, 5) && Newest(par, snaps, 2, MAX_ID, "480p", 5)
               && !Newest(par, snaps, 1, 2, "720p", 4)
            && Item(par, snaps, 2, 5) == ParsedQuality(5, "480p", "other", None, None, Some(2000), 80)
  {
    hide ArchiveParser.Parser.Detect, ArchiveParser.Parser.Score;
    Captions();
    var par, snaps := Strict(), TwoMovies().snaps;
    assert !Ended(par, snaps, 2, 3);
    assert Silence(par, snaps, 2, 3) == 0 && Silence(par, snaps, 2, 4) == 1;
    assert !Ended(par, snaps, 2, 4);
    assert Fits(par, snaps, 2, 4);
    assert !Ended(par, snaps, 2, 5);
    assert Distance(snaps, 2, 3) == 1 && Distance(snaps, 2, 4) == 2;
  }

  lemma WellFormedTwo()
    ensures WellFormed(TwoMovies())
  {
  }

  lemma TwoMoviesSafe()
    ensures Safe(Strict(), TwoMovies())
  {
    hide Newest, Item, PosterAt, MovieGroup, Backed;
    var s := TwoMovies();
    HorizonAtEnd(s, 2);
    EvidenceOfTwo();
    assert 0 in s.rows && 1 in s.rows;
    BackedExactly(Strict(), s, 2, s.rows[1]);
    AllSafe(Strict(), s);
  }

  lemma TakenOver()
    ensures Overlooked(Strict(), TwoMovies(), Edit(TO_NOISE))
  {
    hide ArchiveParser.Parser.Detect, ArchiveParser.Parser.Score, MovieGroup, ItemAt, Superseded;
    Captions();
    var par, s := Strict(), TwoMovies();
    var snap := Snapshot(TO_NOISE.content, None, false, 2);
    assert EventRecord(s, Edit(TO_NOISE)) == (Applied, Some(snap));
    assert 0 in s.rows && 1 in s.rows;
    assert RowAt(s.rows, 4) == Some(0);
    assert Owner(s, 4) == 2;
    var after := s.snaps[4 := snap];
    assert PosterAt(par, after, 2);
    assert Silence(par, after, 2, 3) == 0 && Silence(par, after, 2, 4) == 1;
    assert Silence(par, after, 2, 5) == 2;
    assert Ended(par, after, 2, 5);
    assert Disturbed(par, s, TO_NOISE, snap, 2, s.rows[1]);
  }

  /** Turning such a message into noise ends the later poster's group before its row, which stays. */
  lemma TakenOverRowOverlooked()
    ensures WellFormed(EMPTY)
    ensures Run(Strict(), EMPTY, TO_TWO_MOVIES) == TwoMovies()
    ensures var s, e := TwoMovies(), Edit(TO_NOISE);
            && WellFormed(s) && Safe(Strict(), s) && Overlooked(Strict(), s, e)
            && !Safe(Strict(), Step(Strict(), s, e))
  {
    hide Safe, WellFormed, Step, Overlooked;
    TwoMoviesReached();
    WellFormedTwo();
    TwoMoviesSafe();
    TakenOver();
    StepSafeExactly(Strict(), TwoMovies(), Edit(TO_NOISE));
  }

  // ---- Reaching the states ----------------------------------------------------------------

  function PosterPost(id: MessageId): Event {
    Post(Message(id, Content(Photo, Some("poster")), None))
  }

  function QualityPost(id: MessageId, caption: string): Event {
    Post(Message(id, Content(Video, Some(caption)), None))
  }

  const NOISE_POST := Post(Message(3, Content(Other, None), None))

  const TO_TWO_MOVIES := [PosterPost(1), QualityPost(4, "right"), PosterPost(2), NOISE_POST, QualityPost(5, "other")]

  lemma FirstPoster()
    ensures Step(Strict(), EMPTY, PosterPost(1)) == Index(map[1 := Snap(Photo, "poster")], map[1 := Film(Pending)],
                                                          map[], 0)
  {
    hide ArchiveParser.Parser.Detect;
    Captions();
  }

  lemma FirstQuality(s: Index, id: MessageId)
    requires id == 3 || id == 4
    requires s == Index(map[1 := Snap(Photo, "poster")], map[1 := Film(Pending)], map[], 0)
    ensures Ingest(Strict(), s, QualityPost(id, "right").m) == Single(id)
  {
    hide ArchiveParser.Parser.Detect, ArchiveParser.Parser.Score, PosterAt, Taken, Newest, Item, Settle, Ingest;
    Captions();
    EvidenceOfSingle(id);
    var m := QualityPost(id, "right").m;
    var u := SetSnap(s, id, Snap(Video, "right"));
    assert u.snaps == Single(id).snaps;
    assert PrevPoster(s.movies, id) == 1;
    TakenPost(Strict(), s, m, 1);
    var v := Inserted(u, NewRow(1, Item(Strict(), u.snaps, 1, id)));
    assert v == Single(id).(movies := map[1 := Film(Pending)]);
    SettledSingle(v, id);
  }

  lemma SingleReached(id: MessageId)
    requires id == 3 || id == 4
    ensures WellFormed(EMPTY) && Run(Strict(), EMPTY, [PosterPost(1), QualityPost(id, "right")]) == Single(id)
  {
    hide Ingest;
    FirstPoster();
    var s := Step(Strict(), EMPTY, PosterPost(1));
    StepWellFormed(Strict(), EMPTY, PosterPost(1));
    FirstQuality(s, id);
    StepWellFormed(Strict(), s, QualityPost(id, "right"));
    assert Run(Strict(), s, [QualityPost(id, "right")]) == Single(id);
    assert [PosterPost(1), QualityPost(id, "right")][1..] == [QualityPost(id, "right")];
  }

  // The late poster takes over the range of the row.
  function LatePoster(): Index {
    Index(map[1 := Snap(Photo, "poster"), 2 := Snap(Photo, "poster"), 4 := Snap(Video, "right")],
          map[1 := Film(Ambiguous), 2 := Film(Pending)],
          map[0 := Attached(1, 4, RIGHT_YEAR, "right", 0)], 1)
  }

  lemma SecondPoster()
    ensures Ingest(Strict(), Single(4), PosterPost(2).m) == LatePoster()
  {
    hide ArchiveParser.Parser.Detect, ArchiveParser.Parser.Score, PosterAt, Taken, Superseded, Item, MovieGroup;
    Captions();
    var s, m := Single(4), PosterPost(2).m;
    var t := SetSnap(s, 2, Snap(Photo, "poster")).(movies := map[1 := Film(Indexed), 2 := Film(Pending)]);
    assert Ingest(Strict(), s, m) == Settle(Strict(), t, 1);
    assert NextPoster(t.movies, 1) == 2;
    NoConflictHere(t.snaps, 1, 2);
    EvidenceOfSingle(4);
    SamePoster(Strict(), s.snaps, 2, Snap(Photo, "poster"), 1);
    assert t.snaps == s.snaps[2 := Snap(Photo, "poster")];
    RevalidatedExactly(Strict(), t, 1, t.rows[0]);
    var u := Revalidate(Strict(), t, 1);
    assert u.rows == LatePoster().rows;
    assert 0 in u.rows && HasInvalidRow(u.rows, 1);
  }

  /** Three posts out of order, and the message of the first movie never gets its row with the second, whatever is
      posted, edited or read again afterwards. */
  lemma NeverRepaired(es: seq<Event>)
    ensures WellFormed(EMPTY) && Run(Strict(), EMPTY,
                                     [PosterPost(1), QualityPost(4, "right"), PosterPost(2)]) == LatePoster()
    ensures WellFormed(LatePoster())
    ensures var t := Run(Strict(), LatePoster(), es); !AllExact(Strict(), t) && !HasRowAt(t.rows, 2, 4)
  {
    hide Ingest, WellFormed, AllExact, HasRowAt;
    SingleReached(4);
    SecondPoster();
    RunInTwo(Strict(), EMPTY, [PosterPost(1), QualityPost(4, "right")], [PosterPost(2)]);
    StepWellFormed(Strict(), Single(4), PosterPost(2));
    assert Run(Strict(), Single(4), [PosterPost(2)]) == LatePoster();
    assert [PosterPost(1), QualityPost(4, "right")] + [PosterPost(2)] == [PosterPost(1), QualityPost(4, "right"),
           PosterPost(2)];
    assert NextPoster(LatePoster().movies, 1) == 2;
    assert 0 in LatePoster().rows && Beyond(LatePoster(), 0, 1, 4);
    TakenOverForever(Strict(), LatePoster(), es, 0, 1, 4);
  }

  // Noise settles the movie before it.
  function Noisy(): Index {
    LatePoster().(snaps := LatePoster().snaps[3 := NOISE], movies := map[1 := Film(Ambiguous), 2 := Film(Orphan)])
  }

  lemma NoiseBetween()
    ensures Ingest(Strict(), LatePoster(), NOISE_POST.m) == Noisy()
  {
    hide ArchiveParser.Parser.Detect, Settle;
    Captions();
    var s := LatePoster();
    var u := SetSnap(s, 3, NOISE);
    assert PrevPoster(s.movies, 3) == 2;
    assert Ingest(Strict(), s, NOISE_POST.m) == Settle(Strict(), u, 2);
    HorizonAtEnd(u, 2);
    SettledEmpty(Strict(), u, 2);
  }

  lemma SettledEmpty(par: Parser, s: Index, p: MessageId)
    requires p in s.movies && s.movies[p].confidence > 0 && Horizon(s, p) == NextPoster(s.movies, p)
             && !HasRows(s.rows, p)
    ensures Settle(par, s, p) == SetStatus(s, p, Orphan)
  {
    hide MovieGroup, RevalidatedRow, Horizon, NextPoster;
    assert Revalidate(par, s, p).rows == s.rows;
  }

  lemma SecondQuality()
    ensures Ingest(Strict(), Noisy(), QualityPost(5, "other").m) == TwoMovies()
  {
    hide ArchiveParser.Parser.Detect, ArchiveParser.Parser.Score, PosterAt, Taken, Newest, Item, Settle, Ingest;
    Captions();
    EvidenceOfTwo();
    var s, m := Noisy(), QualityPost(5, "other").m;
    var u := SetSnap(s, 5, Snap(Video, "other"));
    assert u.snaps == TwoMovies().snaps;
    assert PrevPoster(s.movies, 5) == 2;
    TakenPost(Strict(), s, m, 2);
    var v := Inserted(u, NewRow(2, Item(Strict(), u.snaps, 2, 5)));
    assert v == TwoMovies().(movies := s.movies);
    SettledTwo(v);
  }

  lemma SettledTwo(s: Index)
    requires s == TwoMovies().(movies := Noisy().movies)
    ensures Settle(Strict(), s, 2) == TwoMovies()
  {
    hide PosterAt, Settle, Settled, Horizon, NextPoster;
    SettledSecondRow(s);
    HorizonAtEnd(s, 2);
    assert 1 in s.rows && HasRows(s.rows, 2);
    SettledIndexed(Strict(), s, 2);
  }

  lemma SettledSecondRow(s: Index)
    requires s == TwoMovies().(movies := Noisy().movies)
    ensures PosterAt(Strict(), s.snaps, 2) && Settled(Strict(), s, 2, s.rows[1])
  {
    hide PosterAt, Newest, Item, Fits;
    EvidenceOfTwo();
    HorizonAtEnd(s, 2);
  }

  lemma TwoMoviesReached()
    ensures WellFormed(EMPTY)
    ensures Run(Strict(), EMPTY, TO_TWO_MOVIES) == TwoMovies()
  {
    hide Ingest, WellFormed;
    var es, fs := [PosterPost(1), QualityPost(4, "right")], [PosterPost(2), NOISE_POST, QualityPost(5, "other")];
    SingleReached(4);
    SecondPoster();
    NoiseBetween();
    SecondQuality();
    RunInTwo(Strict(), EMPTY, es, fs);
    StepWellFormed(Strict(), Single(4), fs[0]);
    StepWellFormed(Strict(), LatePoster(), fs[1]);
    StepWellFormed(Strict(), Noisy(), fs[2]);
    assert Run(Strict(), Noisy(), [fs[2]]) == TwoMovies();
    assert fs[1..][1..] == [fs[2]];
    assert Run(Strict(), LatePoster(), fs[1..]) == TwoMovies();
    assert es + fs == TO_TWO_MOVIES;
  }

  // ---- A conflict resolved by a quality that is refused -----------------------------------

  function WrongYear(editedAt: Option<int>, caption: string, conflicted: bool, version: nat): Snapshot {
    Snapshot(Content(Video, Some(caption)), editedAt, conflicted, version)
  }

  // One ambiguous movie without rows and a message in its range, in conflict or not.
  function Doubted(snap: Snapshot): Index {
    Started(Ambiguous, snap)
  }

  const REFUSED := Content(Video, Some("wrong"))

  // A refused quality is posted, edited, and brought into conflict.
  const TO_DOUBT := [PosterPost(1), Post(Message(2, REFUSED, None)), Edit(Message(2, REFUSED, Some(10))),
                     Edit(Message(2, Content(Video, Some("right")), Some(10)))]

  // A quality of the wrong year without row changes what is recorded of it and nothing else.
  lemma RefusedAgain(s: Index, snap: Snapshot)
    requires s.movies.Keys == {1} && s.movies[1].confidence > 0 && s.rows == map[] && s.snaps.Keys <= {1, 2}
             && 1 in s.snaps
    requires s.snaps[1] == Snap(Photo, "poster") && snap.content == REFUSED && !snap.conflicted
    ensures Place(Strict(), SetSnap(s, 2, snap), Message(2, REFUSED, snap.editedAt)) == SetSnap(s, 2, snap)
  {
    hide ArchiveParser.Parser.Detect, ArchiveParser.Parser.Score, MovieGroup, ItemAt, Superseded;
    Captions();
    var t := SetSnap(s, 2, snap);
    assert PosterAt(Strict(), t.snaps, 1) && 1 in t.movies.Keys;
    assert forall q :: q in t.movies ==> q in s.movies.Keys;
    HorizonAtEnd(t, 1);
    WrongNotTaken(t.snaps);
    ItemAtExactly(Strict(), t, 1, 2);
    assert PrevPoster(s.movies, 2) == 1;
  }

  lemma WrongNotTaken(snaps: Snapshots)
    requires PosterAt(Strict(), snaps, 1) && snaps[1] == Snap(Photo, "poster")
    requires 2 in snaps && snaps[2].content == REFUSED && !snaps[2].conflicted
    ensures !Taken(Strict(), snaps, 1, 2)
  {
  }

  function Started(status: MovieStatus, snap: Snapshot): Index {
    Index(map[1 := Snap(Photo, "poster"), 2 := snap], map[1 := Film(status)], map[], 0)
  }

  lemma DoubtArises()
    ensures var s, e := Started(Pending, WrongYear(Some(10), "wrong", false, 2)), TO_DOUBT[3];
            WellFormed(s) && Step(Strict(), s, e) == Doubted(WrongYear(Some(10), "wrong", true, 3))
  {
    hide ArchiveParser.Parser.Detect, Settle, FirstConflict;
    var s := Started(Pending, WrongYear(Some(10), "wrong", false, 2));
    var u := Started(Pending, WrongYear(Some(10), "wrong", true, 3));
    assert SetSnap(s, 2, WrongYear(Some(10), "wrong", true, 3)) == u;
    assert PrevPoster(s.movies, 2) == 1 && RowAt(s.rows, 2).None?;
    assert u.snaps[2].conflicted;
    SettledInDoubt(u);
  }

  lemma SettledInDoubt(s: Index)
    requires s == Started(Pending, WrongYear(Some(10), "wrong", true, 3))
    ensures Settle(Strict(), s, 1) == Doubted(WrongYear(Some(10), "wrong", true, 3))
  {
    hide MovieGroup, RevalidatedRow;
    assert Horizon(s, 1) <= 2 < NextPoster(s.movies, 1);
    assert Revalidate(Strict(), s, 1).rows == map[];
  }

  lemma RefusedPosted()
    ensures var s := Index(map[1 := Snap(Photo, "poster")], map[1 := Film(Pending)], map[], 0);
            Ingest(Strict(), s, TO_DOUBT[1].m) == Started(Pending, WrongYear(None, "wrong", false, 1))
  {
    hide Place;
    var s := Index(map[1 := Snap(Photo, "poster")], map[1 := Film(Pending)], map[], 0);
    var snap := WrongYear(None, "wrong", false, 1);
    RefusedAgain(s, snap);
    assert SetSnap(s, 2, snap) == Started(Pending, snap);
  }

  lemma RefusedEdited()
    ensures var s := Started(Pending, WrongYear(None, "wrong", false, 1));
            WellFormed(s) && Step(Strict(), s, TO_DOUBT[2]) == Started(Pending, WrongYear(Some(10), "wrong", false, 2))
  {
    hide Place;
    var s, snap := Started(Pending, WrongYear(None, "wrong", false, 1)), WrongYear(Some(10), "wrong", false, 2);
    RefusedAgain(s, snap);
    assert SetSnap(s, 2, snap) == Started(Pending, snap);
    assert RowAt(s.rows, 2).None?;
  }

  lemma FourSteps(s: Index, es: seq<Event>, s1: Index, s2: Index, s3: Index, s4: Index)
    requires |es| == 4 && WellFormed(s) && s1 == Step(Strict(), s, es[0])
    requires WellFormed(s1) && s2 == Step(Strict(), s1, es[1])
    requires WellFormed(s2) && s3 == Step(Strict(), s2, es[2])
    requires WellFormed(s3) && s4 == Step(Strict(), s3, es[3]) && WellFormed(s4)
    ensures Run(Strict(), s, es) == s4
  {
    hide Step, WellFormed;
    assert es[1..][1..] == es[2..] && es[2..][1..] == es[3..] && es[3..][1..] == [];
    assert Run(Strict(), s4, []) == s4;
    assert Run(Strict(), s3, es[3..]) == s4;
    assert Run(Strict(), s2, es[2..]) == s4;
    assert Run(Strict(), s1, es[1..]) == s4;
  }

  lemma DoubtReached()
    ensures WellFormed(EMPTY) && Run(Strict(), EMPTY, TO_DOUBT) == Doubted(WrongYear(Some(10), "wrong", true, 3))
  {
    hide Ingest, ReconcileEdit, Run;
    var s1 := Index(map[1 := Snap(Photo, "poster")], map[1 := Film(Pending)], map[], 0);
    var s2 := Started(Pending, WrongYear(None, "wrong", false, 1));
    var s3 := Started(Pending, WrongYear(Some(10), "wrong", false, 2));
    FirstPoster();
    RefusedPosted();
    RefusedEdited();
    DoubtArises();
    assert WellFormed(s1);
    StepWellFormed(Strict(), s3, TO_DOUBT[3]);
    FourSteps(EMPTY, TO_DOUBT, s1, s2, s3, Doubted(WrongYear(Some(10), "wrong", true, 3)));
  }

  /** Reading the message again resolves the conflict, but a refused quality does not bring its movie up to date: it
      stays ambiguous although nothing is in doubt and it has no row to be wrong. */
  lemma ResolvedNotSettled()
    ensures WellFormed(EMPTY) && Run(Strict(), EMPTY, TO_DOUBT) == Doubted(WrongYear(Some(10), "wrong", true, 3))
    ensures var s := Doubted(WrongYear(Some(10), "wrong", true, 3));
            var t := Step(Strict(), s, Reread(Message(2, REFUSED, Some(10)), 3));
            && t == Doubted(WrongYear(Some(10), "wrong", false, 4)) && NoConflictIn(t, 1)
               && !AsCalledFor(Strict(), t, 1)
  {
    hide Place, AsCalledFor, NoConflictIn, Run;
    DoubtReached();
    var s, t := Doubted(WrongYear(Some(10), "wrong", true, 3)), Doubted(WrongYear(Some(10), "wrong", false, 4));
    RefusedAgain(s, WrongYear(Some(10), "wrong", false, 4));
    assert SetSnap(s, 2, WrongYear(Some(10), "wrong", false, 4)) == t;
    NotCalledFor(t);
  }

  lemma NotCalledFor(t: Index)
    requires t == Doubted(WrongYear(Some(10), "wrong", false, 4))
    ensures NoConflictIn(t, 1) && !AsCalledFor(Strict(), t, 1)
  {
  }
}
