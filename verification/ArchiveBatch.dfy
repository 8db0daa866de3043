/** Ingesting a stream message by message leaves what one full parse of the stream computes. */
module ArchiveBatch {
  import opened Wrappers
  import opened Archive
  import opened ArchiveParser
  import opened ParserSpecification
  import opened ArchiveIndex
  import opened ArchiveSafety

  ghost function IngestAll(par: Parser, ms: seq<Message>, n: nat): Index
    requires n <= |ms|
  {
    if n == 0 then EMPTY else Ingest(par, IngestAll(par, ms, n - 1), ms[n - 1])
  }

  /** The rows of a movie are the qualities of a group. */
  ghost predicate RowsMatch(s: Index, p: MessageId, qualities: map<string, ParsedQuality>) {
    && (forall k :: k in s.rows && s.rows[k].movie == p ==>
          s.rows[k].resolution in qualities && s.rows[k] == NewRow(p, qualities[s.rows[k].resolution]))
    && (forall r {:trigger RowOf(s.rows, p, r)} :: r in qualities ==> RowOf(s.rows, p, r).Some?)
  }

  ghost predicate Matches(s: Index, g: ParsedMovieGroup) {
    && g.posterId in s.movies
    && RowsMatch(s, g.posterId, g.qualities)
    && (s.movies[g.posterId].status.Indexed? <==> g.status.GroupIndexed?)
    && (g.status.GroupIndexed? <==> g.qualities != map[])
  }

  // What the last group looks like to a scan of the recorded messages.
  ghost predicate Tracks(s: Scan, c: Cursor) {
    && Closing(c) != []
    && !s.Idle?
    && (s.Open? <==> c.current.Some?)
    && (s.Open? ==> c.current.value == s.b)
    && Closing(c)[|Closing(c)| - 1] == Finalize(s.b)
    && GoodBuilder(s.b)
  }

  ghost predicate GoodBuilder(b: GroupBuilder) {
    forall r :: r in b.qualities ==>
      b.qualities[r].resolution == r && b.posterId < b.qualities[r].messageId && b.qualities[r].confidence > 0
  }

  function LastPoster(s: Index): int {
    PrevPoster(s.movies, MAX_ID)
  }

  ghost function PosterIds(gs: seq<ParsedMovieGroup>): seq<MessageId> {
    seq(|gs|, i requires 0 <= i < |gs| => gs[i].posterId)
  }

  ghost predicate Enumerates(ids: seq<MessageId>, keys: set<MessageId>) {
    && (forall i, j :: 0 <= i < j < |ids| ==> ids[i] < ids[j])
    && (forall p :: p in ids <==> p in keys)
  }

  ghost predicate AllMatch(s: Index, gs: seq<ParsedMovieGroup>) {
    forall i :: 0 <= i < |gs| ==> Matches(s, gs[i])
  }

  /** The groups, in order, are the movies. */
  ghost predicate GroupsMatch(s: Index, gs: seq<ParsedMovieGroup>) {
    Enumerates(PosterIds(gs), s.movies.Keys) && AllMatch(s, gs)
  }

  // All recorded messages lie at or below id `last` and none is in doubt.
  ghost predicate Calm(s: Index, last: int) {
    && WellFormed(s)
    && (forall id :: id in s.snaps ==> id <= last && !s.snaps[id].conflicted)
    && (forall p :: p in s.movies ==> s.movies[p].confidence > 0)
  }

  ghost predicate LastTracked(par: Parser, s: Index, c: Cursor) {
    && (LastPoster(s) == 0 ==> Closing(c) == [])
    && (LastPoster(s) > 0 ==> Tracks(ScanTo(par, s.snaps, LastPoster(s), MAX_ID), c)
                              && Closing(c)[|Closing(c)| - 1].posterId == LastPoster(s))
  }

  ghost predicate InStep(par: Parser, s: Index, c: Cursor, last: int) {
    Calm(s, last) && GroupsMatch(s, Closing(c)) && LastTracked(par, s, c)
  }

  // ---- One message ------------------------------------------------------------------------

  ghost predicate Fresh(s: Index, id: MessageId) {
    forall j :: j in s.snaps ==> j < id
  }

  function Read(s: Index, m: Message): Index {
    SetSnap(s, m.id, Snapshot(m.content, m.editedAt, false, 1))
  }

  lemma NoNext(s: Index)
    requires LastPoster(s) > 0
    ensures NextPoster(s.movies, LastPoster(s)) == MAX_ID
  {
  }

  // The scan of the last movie sees the new message and nothing else new.
  lemma FreshScan(par: Parser, s: Index, m: Message, p: MessageId)
    requires Fresh(s, m.id) && p < m.id
    ensures ScanTo(par, Read(s, m).snaps, p, MAX_ID) == par.Feed(ScanTo(par, s.snaps, p, MAX_ID), m, DIAGNOSTIC_TAIL)
    ensures ScanTo(par, Read(s, m).snaps, p, m.id + 1) == ScanTo(par, Read(s, m).snaps, p, MAX_ID)
    ensures ScanTo(par, Read(s, m).snaps, p, m.id) == ScanTo(par, s.snaps, p, MAX_ID)
  {
    var t := Read(s, m);
    ScanFrame(par, s.snaps, t.snaps, p, m.id);
    ScanUnrecorded(par, s.snaps, p, m.id, MAX_ID);
    ScanUnrecorded(par, t.snaps, p, m.id + 1, MAX_ID);
    assert Evidence(m.id, t.snaps[m.id]) == m;
  }

  lemma {:induction false} NoConflict(snaps: Snapshots, lo: int, hi: int)
    requires lo <= hi && forall id :: id in snaps ==> !snaps[id].conflicted
    ensures FirstConflict(snaps, lo, hi) == hi
    decreases hi - lo
  {
  }

  // A settled movie whose rows are its group's qualities keeps them and gets the group's status.
  lemma SettleMatched(par: Parser, s: Index, p: MessageId, g: ParsedMovieGroup)
    requires p in s.movies && s.movies[p].confidence > 0 && Horizon(s, p) == NextPoster(s.movies, p)
    requires MovieGroup(par, s, p, None) == Some(g) && RowsMatch(s, p, g.qualities)
    requires forall r :: r in g.qualities ==> g.qualities[r].confidence > 0
    ensures Settle(par, s, p) == SetStatus(s, p, if g.qualities != map[] then Indexed else Orphan)
  {
    var t := Revalidate(par, s, p);
    assert t.rows == s.rows;
    assert t == s;
    if g.qualities != map[] {
      var r :| r in g.qualities;
      assert RowOf(s.rows, p, r).Some?;
    }
    if HasRows(s.rows, p) {
      var k :| k in s.rows && s.rows[k].movie == p;
      assert s.rows[k].resolution in g.qualities;
    }
  }

  lemma OtherMatches(s: Index, t: Index, g: ParsedMovieGroup)
    requires Matches(s, g) && g.posterId in t.movies && t.movies[g.posterId] == s.movies[g.posterId]
    requires SameRowsOf(s.rows, t.rows, g.posterId)
    ensures Matches(t, g)
  {
    forall r | r in g.qualities
      ensures RowOf(t.rows, g.posterId, r).Some?
    {
      var k := RowOf(s.rows, g.posterId, r).value;
      assert k in t.rows && t.rows[k] == s.rows[k];
    }
  }

  lemma UpsertRowKeepsOthers(s: Index, p: MessageId, item: ParsedQuality)
    requires WellFormed(s)
    ensures var t := UpsertRow(s, p, item); OthersKept(s, t, p) && t.movies == s.movies && t.snaps == s.snaps
  {
    assert s.nextRow !in s.rows;
  }

  lemma UpsertRowMatches(s: Index, p: MessageId, qualities: map<string, ParsedQuality>, item: ParsedQuality)
    requires WellFormed(s) && RowsMatch(s, p, qualities)
    requires forall r :: r in qualities ==> qualities[r].messageId < item.messageId
    ensures RowsMatch(UpsertRow(s, p, item), p, qualities[item.resolution := item])
  {
    var t := UpsertRow(s, p, item);
    var qs := qualities[item.resolution := item];
    assert s.nextRow !in s.rows;
    forall r | r in qs
      ensures RowOf(t.rows, p, r).Some?
    {
      var known := RowOf(s.rows, p, item.resolution);
      var k := if r != item.resolution then RowOf(s.rows, p, r).value
               else if known.Some? then known.value else s.nextRow;
      assert k in t.rows && t.rows[k].movie == p && t.rows[k].resolution == r;
    }
  }

  // A message that is no poster only changes the last group, in the scan as in the full pass.
  ghost predicate SameButLast(gs: seq<ParsedMovieGroup>, gs': seq<ParsedMovieGroup>) {
    && |gs| == |gs'|
    && (forall i :: 0 <= i < |gs| - 1 ==> gs'[i] == gs[i])
    && (gs != [] ==> gs'[|gs| - 1].posterId == gs[|gs| - 1].posterId)
  }

  lemma TracksFeed(par: Parser, sc: Scan, c: Cursor, m: Message)
    requires Tracks(sc, c) && !par.Detect(m.content).AsPoster? && sc.b.posterId < m.id
    requires forall r :: r in sc.b.qualities ==> sc.b.qualities[r].messageId < m.id
    ensures var sc', c' := par.Feed(sc, m, DIAGNOSTIC_TAIL), par.Advance(c, m, DIAGNOSTIC_TAIL);
            Tracks(sc', c') && SameButLast(Closing(c), Closing(c'))
  {
  }

  lemma FeedQualities(par: Parser, sc: Scan, m: Message)
    requires !sc.Idle? && GoodBuilder(sc.b) && !par.Detect(m.content).AsPoster?
    requires forall r :: r in sc.b.qualities ==> sc.b.qualities[r].messageId < m.id
    ensures var sc' := par.Feed(sc, m, DIAGNOSTIC_TAIL);
            && !sc'.Idle?
            && var item := ItemAt(First(sc'), m.id);
               && sc'.b.qualities == (if item.None? then sc.b.qualities
                                      else sc.b.qualities[item.value.resolution := item.value])
               && (item.Some? ==>
                     item.value.messageId == m.id && item.value.confidence > 0 && par.Detect(m.content).AsQuality?)
  {
    var sc' := par.Feed(sc, m, DIAGNOSTIC_TAIL);
    var item := ItemAt(First(sc'), m.id);
    if sc'.b.qualities != sc.b.qualities {
      assert Holds(First(sc'), par.Detect(m.content).quality.resolution, m.id);
    }
  }

  ghost predicate OthersKept(s: Index, t: Index, p: int) {
    && t.movies.Keys == s.movies.Keys
    && forall q :: q in s.movies && q != p ==> t.movies[q] == s.movies[q] && SameRowsOf(s.rows, t.rows, q)
  }

  // The last movie has been brought up to date; the others need nothing.
  lemma LastGroupUpdated(s: Index, gs: seq<ParsedMovieGroup>, t: Index, gs': seq<ParsedMovieGroup>)
    requires GroupsMatch(s, gs) && gs != [] && SameButLast(gs, gs')
    requires OthersKept(s, t, gs[|gs| - 1].posterId) && Matches(t, gs'[|gs| - 1])
    ensures GroupsMatch(t, gs')
  {
    hide Matches;
    assert PosterIds(gs') == PosterIds(gs);
    forall i | 0 <= i < |gs'|
      ensures Matches(t, gs'[i])
    {
      if i < |gs| - 1 {
        OtherGroup(s, gs, t, i);
      }
    }
  }

  lemma OtherGroup(s: Index, gs: seq<ParsedMovieGroup>, t: Index, i: nat)
    requires GroupsMatch(s, gs) && i < |gs| - 1 && OthersKept(s, t, gs[|gs| - 1].posterId)
    ensures Matches(t, gs[i])
  {
    hide RowsMatch;
    assert Matches(s, gs[i]) && gs[i].posterId in s.movies.Keys;
    assert PosterIds(gs)[i] < PosterIds(gs)[|gs| - 1];
    OtherMatches(s, t, gs[i]);
  }

  lemma StaysCalm(s: Index, t: Index, m: Message, last: int)
    requires Calm(s, last) && last < m.id && WellFormed(t) && t.snaps == Read(s, m).snaps
    requires OthersKept(s, t, LastPoster(s))
    requires LastPoster(s) > 0 ==> LastPoster(s) in t.movies && t.movies[LastPoster(s)].confidence > 0
    ensures Calm(t, m.id) && LastPoster(t) == LastPoster(s)
  {
    SameNeighbours(s.movies, t.movies);
    assert forall q :: q in t.movies ==> q in s.movies.Keys;
  }

  // The scan of the last movie and its cursor, before and after a new message.
  lemma LastScan(par: Parser, s: Index, c: Cursor, m: Message, last: int)
    requires InStep(par, s, c, last) && last < m.id && LastPoster(s) > 0
    ensures LastPoster(s) < m.id && PrevPoster(s.movies, m.id) == LastPoster(s)
    ensures var p := LastPoster(s);
            var sc := ScanTo(par, s.snaps, p, MAX_ID);
            && Tracks(sc, c) && sc.b.posterId == p && Matches(s, Finalize(sc.b))
            && (forall r :: r in sc.b.qualities ==> sc.b.qualities[r].messageId < m.id)
            && ScanTo(par, Read(s, m).snaps, p, MAX_ID) == par.Feed(sc, m, DIAGNOSTIC_TAIL)
            && ScanTo(par, Read(s, m).snaps, p, m.id + 1) == par.Feed(sc, m, DIAGNOSTIC_TAIL)
            && ScanTo(par, Read(s, m).snaps, p, m.id) == sc
  {
    var p := LastPoster(s);
    assert p in s.movies;
    assert forall q :: q in s.movies ==> q in s.snaps && q < m.id;
    FreshScan(par, s, m, p);
    ScanUnrecorded(par, s.snaps, p, m.id, MAX_ID);
    KeptFromEvidence(par, s.snaps, p, m.id);
    assert Matches(s, Closing(c)[|Closing(c)| - 1]);
  }

  lemma HorizonAtEnd(s: Index, last: int)
    requires Calm(s, last) && LastPoster(s) > 0
    ensures Horizon(s, LastPoster(s)) == NextPoster(s.movies, LastPoster(s)) == MAX_ID
  {
    NoNext(s);
    NoConflict(s.snaps, LastPoster(s), MAX_ID);
  }

  // The tables once the last movie's rows are those of its scan, which the full pass follows.
  ghost predicate LastRead(par: Parser, s: Index, c: Cursor, u: Index, c': Cursor) {
    var p := LastPoster(s);
    && p > 0 && u.movies == s.movies && OthersKept(s, u, p)
    && var sc := ScanTo(par, u.snaps, p, MAX_ID);
       && Tracks(sc, c') && sc.b.posterId == p
       && SameButLast(Closing(c), Closing(c'))
       && RowsMatch(u, p, sc.b.qualities)
  }

  function StatusOf(qualities: map<string, ParsedQuality>): MovieStatus {
    if qualities != map[] then Indexed else Orphan
  }

  lemma SettleAtEnd(par: Parser, u: Index, last: int)
    requires Calm(u, last) && LastPoster(u) > 0
    requires var p, sc := LastPoster(u), ScanTo(par, u.snaps, LastPoster(u), MAX_ID);
             !sc.Idle? && sc.b.posterId == p && GoodBuilder(sc.b) && RowsMatch(u, p, sc.b.qualities)
    ensures var p, sc := LastPoster(u), ScanTo(par, u.snaps, LastPoster(u), MAX_ID);
            Settle(par, u, p) == SetStatus(u, p, StatusOf(sc.b.qualities))
  {
    HorizonAtEnd(u, last);
    SettleMatched(par, u, LastPoster(u), Finalize(ScanTo(par, u.snaps, LastPoster(u), MAX_ID).b));
  }

  lemma StatusMatches(u: Index, p: MessageId, g: ParsedMovieGroup)
    requires p in u.movies && g.posterId == p && RowsMatch(u, p, g.qualities)
    requires g.status.GroupIndexed? <==> g.qualities != map[]
    ensures Matches(SetStatus(u, p, StatusOf(g.qualities)), g)
  {
  }

  lemma StatusKeepsOthers(s: Index, u: Index, p: MessageId, status: MovieStatus)
    requires OthersKept(s, u, p) && p in u.movies
    ensures OthersKept(s, SetStatus(u, p, status), p)
  {
  }

  lemma SettledLast(par: Parser, s: Index, u: Index, m: Message, last: int)
    requires Calm(s, last) && last < m.id && LastPoster(s) > 0
    requires WellFormed(u) && u.snaps == Read(s, m).snaps && u.movies == s.movies && OthersKept(s, u, LastPoster(s))
    requires var p, sc := LastPoster(s), ScanTo(par, u.snaps, LastPoster(s), MAX_ID);
             !sc.Idle? && sc.b.posterId == p && GoodBuilder(sc.b) && RowsMatch(u, p, sc.b.qualities)
    ensures var p, sc := LastPoster(s), ScanTo(par, u.snaps, LastPoster(s), MAX_ID);
            var t := SetStatus(u, p, StatusOf(sc.b.qualities));
            Settle(par, u, p) == t && WellFormed(t) && t.movies[p].confidence > 0
  {
    StaysCalm(s, u, m, last);
    assert u.movies[LastPoster(s)].confidence > 0;
    hide WellFormed, RowsMatch, OthersKept;
    SettleAtEnd(par, u, m.id);
    SettleShape(par, u, LastPoster(s));
  }

  lemma LastSettled(par: Parser, s: Index, c: Cursor, u: Index, c': Cursor, m: Message, last: int)
    requires InStep(par, s, c, last) && last < m.id
    requires WellFormed(u) && u.snaps == Read(s, m).snaps && LastRead(par, s, c, u, c')
    ensures InStep(par, Settle(par, u, LastPoster(s)), c', m.id)
  {
    hide WellFormed, Settle, Calm, Enumerates, AllMatch, RowsMatch, OthersKept, GoodBuilder;
    var p := LastPoster(s);
    var sc := ScanTo(par, u.snaps, p, MAX_ID);
    var status := StatusOf(sc.b.qualities);
    SettledLast(par, s, u, m, last);
    StatusKeepsOthers(s, u, p, status);
    StatusMatches(u, p, Finalize(sc.b));
    LastMatched(par, s, c, SetStatus(u, p, status), c', m, last);
  }

  lemma LastMatched(par: Parser, s: Index, c: Cursor, t: Index, c': Cursor, m: Message, last: int)
    requires InStep(par, s, c, last) && last < m.id && LastPoster(s) > 0
    requires WellFormed(t) && t.snaps == Read(s, m).snaps && OthersKept(s, t, LastPoster(s))
    requires LastPoster(s) in t.movies && t.movies[LastPoster(s)].confidence > 0
    requires Tracks(ScanTo(par, t.snaps, LastPoster(s), MAX_ID), c') && SameButLast(Closing(c), Closing(c'))
    requires Matches(t, Closing(c')[|Closing(c')| - 1])
    ensures InStep(par, t, c', m.id)
  {
    hide WellFormed, Enumerates, Matches, OthersKept;
    StaysCalm(s, t, m, last);
    LastGroupUpdated(s, Closing(c), t, Closing(c'));
  }

  ghost function WithItem(qualities: map<string, ParsedQuality>, item: Option<ParsedQuality>)
    : map<string, ParsedQuality>
  {
    if item.None? then qualities else qualities[item.value.resolution := item.value]
  }

  // What the last group's scan and the full pass have made of a new message.
  ghost predicate FedLast(par: Parser, s: Index, c: Cursor, c': Cursor, m: Message, item: Option<ParsedQuality>)
    requires LastPoster(s) > 0
  {
    var p := LastPoster(s);
    var sc, sc' := ScanTo(par, s.snaps, p, MAX_ID), ScanTo(par, Read(s, m).snaps, p, MAX_ID);
    && PrevPoster(s.movies, m.id) == p < m.id
    && sc' == ScanTo(par, Read(s, m).snaps, p, m.id + 1) && !sc.Idle? && sc.b.posterId == p
    && Matches(s, Finalize(sc.b))
    && Tracks(sc', c') && sc'.b.posterId == p && SameButLast(Closing(c), Closing(c'))
    && (forall r :: r in sc.b.qualities ==> sc.b.qualities[r].messageId < m.id)
    && item == ItemAt(First(sc'), m.id)
    && sc'.b.qualities == WithItem(sc.b.qualities, item)
    && (item.Some? ==> item.value.messageId == m.id)
  }

  lemma FeedLast(par: Parser, s: Index, c: Cursor, m: Message, last: int) returns (item: Option<ParsedQuality>)
    requires InStep(par, s, c, last) && last < m.id && LastPoster(s) > 0 && !par.Detect(m.content).AsPoster?
    ensures FedLast(par, s, c, par.Advance(c, m, DIAGNOSTIC_TAIL), m, item)
    ensures item.Some? ==> par.Detect(m.content).AsQuality?
  {
    hide WellFormed, GroupsMatch, Matches;
    LastScan(par, s, c, m, last);
    var sc := ScanTo(par, s.snaps, LastPoster(s), MAX_ID);
    item := ItemAt(First(par.Feed(sc, m, DIAGNOSTIC_TAIL)), m.id);
    FeedQualities(par, sc, m);
    TracksFeed(par, sc, c, m);
  }

  lemma UnchangedRows(par: Parser, s: Index, c: Cursor, c': Cursor, m: Message, item: Option<ParsedQuality>, last: int)
    requires InStep(par, s, c, last) && last < m.id && LastPoster(s) > 0 && FedLast(par, s, c, c', m, item)
    ensures var u, p := Read(s, m), LastPoster(s);
            && m.id !in s.movies && RowAt(u.rows, m.id).None?
            && WellFormed(u) && u.movies[p].confidence > 0
            && OthersKept(s, u, p) && RowsMatch(u, p, ScanTo(par, s.snaps, p, MAX_ID).b.qualities)
  {
    hide GroupsMatch, LastTracked, Tracks, SameButLast, ScanTo;
    CalmReads(s, m, last);
    SameRowsMatch(s, Read(s, m), LastPoster(s), ScanTo(par, s.snaps, LastPoster(s), MAX_ID).b.qualities);
  }

  lemma CalmReads(s: Index, m: Message, last: int)
    requires Calm(s, last) && last < m.id && LastPoster(s) > 0
    ensures var u := Read(s, m);
            && m.id !in s.movies && RowAt(u.rows, m.id).None?
            && WellFormed(u) && u.movies[LastPoster(s)].confidence > 0 && OthersKept(s, u, LastPoster(s))
  {
  }

  lemma SameRowsMatch(s: Index, u: Index, p: MessageId, qualities: map<string, ParsedQuality>)
    requires RowsMatch(s, p, qualities) && u.rows == s.rows
    ensures RowsMatch(u, p, qualities)
  {
  }

  lemma NoiseAtEnd(par: Parser, s: Index, c: Cursor, c': Cursor, m: Message, last: int)
    requires InStep(par, s, c, last) && last < m.id && LastPoster(s) > 0 && FedLast(par, s, c, c', m, None)
    ensures InStep(par, Boundary(par, Read(s, m), m.id), c', m.id)
  {
    hide WellFormed, Calm, GroupsMatch, Matches, RowsMatch, SameButLast, OthersKept, Settle;
    UnchangedRows(par, s, c, c', m, None, last);
    LastSettled(par, s, c, Read(s, m), c', m, last);
  }

  lemma RefusedAtEnd(par: Parser, s: Index, c: Cursor, c': Cursor, m: Message, last: int)
    requires InStep(par, s, c, last) && last < m.id && LastPoster(s) > 0 && FedLast(par, s, c, c', m, None)
    ensures InStep(par, Read(s, m), c', m.id)
  {
    UnchangedRows(par, s, c, c', m, None, last);
    assert Matches(Read(s, m), Closing(c')[|Closing(c')| - 1]);
    hide WellFormed, GroupsMatch, Matches, RowsMatch, SameButLast, OthersKept;
    LastMatched(par, s, c, Read(s, m), c', m, last);
  }

  lemma AcceptedAtEnd(par: Parser, s: Index, c: Cursor, c': Cursor, m: Message, item: ParsedQuality, last: int)
    requires InStep(par, s, c, last) && last < m.id && LastPoster(s) > 0 && FedLast(par, s, c, c', m, Some(item))
    ensures var p := LastPoster(s); InStep(par, Settle(par, UpsertRow(Read(s, m), p, item), p), c', m.id)
  {
    var u, p := Read(s, m), LastPoster(s);
    var v := UpsertRow(u, p, item);
    hide WellFormed, Calm, GroupsMatch, Matches, RowsMatch, SameButLast, OthersKept, Settle, UpsertRow;
    UnchangedRows(par, s, c, c', m, Some(item), last);
    UpsertRowKeepsOthers(u, p, item);
    OthersKeptTwice(s, u, v, p);
    UpsertRowMatches(u, p, ScanTo(par, s.snaps, p, MAX_ID).b.qualities, item);
    UpsertRowShape(u, p, item);
    LastSettled(par, s, c, v, c', m, last);
  }

  lemma OthersKeptTwice(s: Index, u: Index, v: Index, p: int)
    requires OthersKept(s, u, p) && OthersKept(u, v, p)
    ensures OthersKept(s, v, p)
  {
    assert forall q :: q in s.movies ==> q in u.movies.Keys;
  }

  lemma ReadGroup(par: Parser, s: Index, c: Cursor, c': Cursor, m: Message, item: Option<ParsedQuality>, last: int)
    requires InStep(par, s, c, last) && last < m.id && LastPoster(s) > 0 && FedLast(par, s, c, c', m, item)
    ensures var u, p := Read(s, m), LastPoster(s);
            MovieGroup(par, u, p, Some(m.id)) == First(ScanTo(par, u.snaps, p, MAX_ID))
  {
    hide WellFormed, GroupsMatch, Matches, RowsMatch, SameButLast, OthersKept, ItemAt, LastTracked;
    UnchangedRows(par, s, c, c', m, item, last);
    StaysCalm(s, Read(s, m), m, last);
    HorizonAtEnd(Read(s, m), m.id);
  }

  // Before the first poster nothing is indexed and nothing is grouped.
  lemma NoMovieYet(par: Parser, s: Index, c: Cursor, m: Message, last: int)
    requires InStep(par, s, c, last) && last < m.id && LastPoster(s) == 0 && !par.Detect(m.content).AsPoster?
    ensures InStep(par, Ingest(par, s, m), par.Advance(c, m, DIAGNOSTIC_TAIL), m.id)
  {
    var u := Read(s, m);
    assert WellFormed(u);
    StaysCalm(s, u, m, last);
    assert PrevPoster(s.movies, m.id) == 0;
    assert Ingest(par, s, m) == u;
  }

  lemma NotYetRead(par: Parser, s: Index, c: Cursor, m: Message, last: int)
    requires InStep(par, s, c, last) && last < m.id
    ensures m.id !in s.snaps
  {
  }

  // What ingesting a message that is no poster comes to, after the last poster.
  lemma IngestAfterLast(par: Parser, s: Index, m: Message, item: Option<ParsedQuality>)
    requires m.id !in s.snaps && LastPoster(s) > 0 && PrevPoster(s.movies, m.id) == LastPoster(s)
    requires !par.Detect(m.content).AsPoster?
    requires par.Detect(m.content).AsQuality? ==>
             item == ItemAt(MovieGroup(par, Read(s, m), LastPoster(s), Some(m.id)), m.id)
    ensures Ingest(par, s, m)
            == if par.Detect(m.content).AsNoise? then Boundary(par, Read(s, m), m.id)
               else if item.None? then Read(s, m)
               else Settle(par, UpsertRow(Read(s, m), LastPoster(s), item.value), LastPoster(s))
  {
    hide ArchiveParser.Parser.Detect, Boundary, Settle, UpsertRow, MovieGroup, ItemAt;
  }

  lemma FedItem(par: Parser, s: Index, c: Cursor, c': Cursor, m: Message, item: Option<ParsedQuality>)
    requires LastPoster(s) > 0 && FedLast(par, s, c, c', m, item)
    ensures PrevPoster(s.movies, m.id) == LastPoster(s)
    ensures item == ItemAt(First(ScanTo(par, Read(s, m).snaps, LastPoster(s), MAX_ID)), m.id)
  {
    hide Matches, Tracks, SameButLast, ItemAt;
  }

  lemma NoPosterInStep(par: Parser, s: Index, c: Cursor, m: Message, last: int)
    requires InStep(par, s, c, last) && last < m.id && !par.Detect(m.content).AsPoster?
    ensures InStep(par, Ingest(par, s, m), par.Advance(c, m, DIAGNOSTIC_TAIL), m.id)
  {
    hide InStep, Ingest, FedLast, MovieGroup, ItemAt, Boundary, Settle, UpsertRow;
    hide ArchiveParser.Parser.Advance, ArchiveParser.Parser.Detect;
    NotYetRead(par, s, c, m, last);
    if LastPoster(s) == 0 {
      NoMovieYet(par, s, c, m, last);
    } else {
      var c' := par.Advance(c, m, DIAGNOSTIC_TAIL);
      var item := FeedLast(par, s, c, m, last);
      FedItem(par, s, c, c', m, item);
      if par.Detect(m.content).AsNoise? {
        NoiseAtEnd(par, s, c, c', m, last);
      } else {
        ReadGroup(par, s, c, c', m, item, last);
        if item.None? {
          RefusedAtEnd(par, s, c, c', m, last);
        } else {
          AcceptedAtEnd(par, s, c, c', m, item.value, last);
        }
      }
      IngestAfterLast(par, s, m, item);
    }
  }

  // ---- A new poster -----------------------------------------------------------------------

  function Promoted(s: Index, m: Message, f: PosterFields): Index {
    s.(movies := s.movies[m.id := NewMovie(m, f)])
  }

  lemma PosterAppended(gs: seq<ParsedMovieGroup>, g: ParsedMovieGroup, s: Index, t: Index)
    requires GroupsMatch(s, gs) && AllMatch(t, gs) && Matches(t, g)
    requires t.movies.Keys == s.movies.Keys + {g.posterId}
    requires forall p :: p in s.movies ==> p < g.posterId
    ensures GroupsMatch(t, gs + [g])
  {
    hide Matches;
    var ids := PosterIds(gs);
    assert PosterIds(gs + [g]) == ids + [g.posterId];
    assert forall i :: 0 <= i < |ids| ==> ids[i] in ids;
    forall p
      ensures p in ids + [g.posterId] <==> p in t.movies.Keys
    {
      assert p in ids + [g.posterId] <==> p in ids || p == g.posterId;
    }
  }

  lemma PosterClosing(par: Parser, c: Cursor, m: Message)
    requires par.Detect(m.content).AsPoster?
    ensures var b := NewBuilder(m, par.Detect(m.content).poster);
            var c' := par.Advance(c, m, DIAGNOSTIC_TAIL);
            c'.current == Some(b) && Closing(c') == Closing(c) + [Finalize(b)]
  {
  }

  // The scan of a movie that has just been posted.
  lemma NewMovieTracked(par: Parser, s: Index, m: Message, c: Cursor)
    requires Fresh(s, m.id) && par.Detect(m.content).AsPoster?
    ensures Tracks(ScanTo(par, Read(s, m).snaps, m.id, MAX_ID), par.Advance(c, m, DIAGNOSTIC_TAIL))
  {
    var snaps := Read(s, m).snaps;
    ScanUnrecorded(par, snaps, m.id, m.id + 1, MAX_ID);
    assert ScanTo(par, snaps, m.id, m.id) == Idle;
    assert Evidence(m.id, snaps[m.id]) == m;
    PosterClosing(par, c, m);
  }

  lemma NewMovieMatches(s: Index, t: Index, m: Message, f: PosterFields)
    requires WellFormed(s) && m.id !in s.movies && t.rows == s.rows
    requires m.id in t.movies && t.movies[m.id] == NewMovie(m, f)
    ensures Matches(t, Finalize(NewBuilder(m, f)))
  {
  }

  // Closing the last movie at the new poster leaves its rows and settles its status.
  lemma LastClosed(par: Parser, s: Index, c: Cursor, t: Index, m: Message, f: PosterFields, last: int)
    requires InStep(par, s, c, last) && last < m.id && LastPoster(s) > 0
    requires t.snaps == Read(s, m).snaps && t.rows == s.rows
    requires t.movies.Keys == s.movies.Keys + {m.id}
    requires t.movies[LastPoster(s)].confidence > 0
    ensures var p := LastPoster(s);
            var g := Closing(c)[|Closing(c)| - 1];
            && g.posterId == p && RowsMatch(t, p, g.qualities)
            && Settle(par, t, p) == SetStatus(t, p, StatusOf(g.qualities))
  {
    var p := LastPoster(s);
    hide GroupsMatch, WellFormed;
    LastScan(par, s, c, m, last);
    var sc := ScanTo(par, s.snaps, p, MAX_ID);
    assert NextPoster(t.movies, p) == m.id by {
      NoNext(s);
      assert m.id in t.movies.Keys;
      assert forall k :: k in t.movies ==> k in s.movies.Keys || k == m.id;
    }
    NoConflict(t.snaps, p, m.id);
    assert MovieGroup(par, t, p, None) == Some(Finalize(sc.b));
    SettleMatched(par, t, p, Finalize(sc.b));
  }

  lemma GroupsStillMatch(s: Index, gs: seq<ParsedMovieGroup>, t: Index, p: int)
    requires GroupsMatch(s, gs) && t.rows == s.rows
    requires forall q :: q in s.movies && q != p ==> q in t.movies && t.movies[q] == s.movies[q]
    requires gs != [] ==> gs[|gs| - 1].posterId == p && Matches(t, gs[|gs| - 1])
    ensures AllMatch(t, gs)
  {
    forall i | 0 <= i < |gs|
      ensures Matches(t, gs[i])
    {
      if i < |gs| - 1 {
        assert PosterIds(gs)[i] < PosterIds(gs)[|gs| - 1];
        assert Matches(s, gs[i]);
        OtherMatches(s, t, gs[i]);
      }
    }
  }

  lemma CalmAfterPoster(s: Index, t: Index, m: Message, last: int)
    requires Calm(s, last) && last < m.id && WellFormed(t) && t.snaps == Read(s, m).snaps
    requires t.movies.Keys == s.movies.Keys + {m.id} && t.movies[m.id].confidence > 0
    requires forall q :: q in s.movies && q != LastPoster(s) ==> t.movies[q] == s.movies[q]
    requires LastPoster(s) > 0 ==> t.movies[LastPoster(s)].confidence > 0
    ensures Calm(t, m.id) && forall p :: p in s.movies ==> p < m.id
  {
    assert forall q :: q in t.movies ==> q in s.movies.Keys || q == m.id;
  }

  lemma LatestIsLast(t: Index, id: MessageId)
    requires Calm(t, id) && id in t.movies
    ensures LastPoster(t) == id
  {
    assert forall q :: q in t.movies ==> q in t.snaps;
  }

  lemma FreshAbove(s: Index, m: Message, last: int)
    requires Calm(s, last) && last < m.id
    ensures Fresh(s, m.id)
  {
  }

  lemma LastIsLastGroup(par: Parser, s: Index, c: Cursor)
    requires LastTracked(par, s, c)
    ensures Closing(c) != [] ==> LastPoster(s) > 0 && Closing(c)[|Closing(c)| - 1].posterId == LastPoster(s)
  {
  }

  lemma PosterTracked(par: Parser, c: Cursor, t: Index, m: Message, f: PosterFields)
    requires par.Detect(m.content) == AsPoster(f) && LastPoster(t) == m.id
    requires Tracks(ScanTo(par, t.snaps, m.id, MAX_ID), par.Advance(c, m, DIAGNOSTIC_TAIL))
    ensures LastTracked(par, t, par.Advance(c, m, DIAGNOSTIC_TAIL))
    ensures Closing(par.Advance(c, m, DIAGNOSTIC_TAIL)) == Closing(c) + [Finalize(NewBuilder(m, f))]
  {
    PosterClosing(par, c, m);
  }

  lemma NewPosterInStep(par: Parser, s: Index, c: Cursor, t: Index, m: Message, f: PosterFields, last: int)
    requires InStep(par, s, c, last) && last < m.id && par.Detect(m.content) == AsPoster(f)
    requires m.id !in s.movies && WellFormed(t) && t.snaps == Read(s, m).snaps && t.rows == s.rows
    requires t.movies.Keys == s.movies.Keys + {m.id} && t.movies[m.id] == NewMovie(m, f)
    requires forall q :: q in s.movies && q != LastPoster(s) ==> t.movies[q] == s.movies[q]
    requires LastPoster(s) > 0 ==> t.movies[LastPoster(s)].confidence > 0
                                   && Matches(t, Closing(c)[|Closing(c)| - 1])
    ensures InStep(par, t, par.Advance(c, m, DIAGNOSTIC_TAIL), m.id)
  {
    var g := Finalize(NewBuilder(m, f));
    hide Matches, Enumerates, AllMatch, WellFormed;
    FreshAbove(s, m, last);
    NewMovieMatches(s, t, m, f);
    CalmAfterPoster(s, t, m, last);
    hide Calm;
    LatestIsLast(t, m.id);
    LastIsLastGroup(par, s, c);
    hide LastTracked, GroupsMatch;
    GroupsStillMatch(s, Closing(c), t, LastPoster(s));
    PosterAppended(Closing(c), g, s, t);
    NewMovieTracked(par, s, m, c);
    PosterTracked(par, c, t, m, f);
  }

  lemma LastBelow(s: Index, m: Message, last: int)
    requires Calm(s, last) && last < m.id
    ensures PrevPoster(s.movies, m.id) == LastPoster(s)
    ensures m.id !in s.snaps && m.id !in s.movies
    ensures LastPoster(s) > 0 ==> s.movies[LastPoster(s)].confidence > 0
  {
    assert forall q :: q in s.movies ==> q in s.snaps && q < m.id;
  }

  lemma IngestShape(par: Parser, s: Index, m: Message, last: int)
    requires Calm(s, last) && last < m.id
    ensures WellFormed(Ingest(par, s, m)) && m.id !in s.snaps && m.id !in s.movies
  {
    hide Place;
    StepWellFormed(par, s, Post(m));
  }

  lemma IngestPoster(par: Parser, s: Index, m: Message, f: PosterFields, last: int) returns (t: Index)
    requires Calm(s, last) && last < m.id && par.Detect(m.content) == AsPoster(f)
    ensures m.id !in s.movies && t.snaps == Read(s, m).snaps && t.rows == s.rows
    ensures t.movies.Keys == s.movies.Keys + {m.id} && t.movies[m.id] == NewMovie(m, f)
    ensures forall q :: q in s.movies && q != LastPoster(s) ==> t.movies[q] == s.movies[q]
    ensures LastPoster(s) > 0 ==> t.movies[LastPoster(s)].confidence > 0
    ensures Ingest(par, s, m) == if LastPoster(s) == 0 then t else Settle(par, t, LastPoster(s))
    ensures WellFormed(Ingest(par, s, m))
  {
    hide Settle, ArchiveParser.Parser.Detect;
    IngestShape(par, s, m, last);
    var p := LastPoster(s);
    var u := Read(s, m);
    LastBelow(s, m, last);
    assert Ingest(par, s, m) == UpsertPoster(par, u, m, f);
    hide WellFormed, Ingest, Place;
    var r := if p > 0 && u.movies[p].status.Pending?
             then SetStatus(u, p, if HasRows(u.rows, p) then Indexed else Orphan)
             else u;
    t := Promoted(r, m, f);
    assert t.movies.Keys == s.movies.Keys + {m.id};
  }

  lemma PosterInStep(par: Parser, s: Index, c: Cursor, m: Message, f: PosterFields, last: int)
    requires InStep(par, s, c, last) && last < m.id && par.Detect(m.content) == AsPoster(f)
    ensures InStep(par, Ingest(par, s, m), par.Advance(c, m, DIAGNOSTIC_TAIL), m.id)
  {
    hide WellFormed, Calm, GroupsMatch, Ingest, Settle, RowsMatch;
    var p := LastPoster(s);
    var t := IngestPoster(par, s, m, f, last);
    if p == 0 {
      NewPosterInStep(par, s, c, t, m, f, last);
    } else {
      var g := LastGroup(par, s, c, last);
      LastClosed(par, s, c, t, m, f, last);
      StatusMatches(t, p, g);
      var u := SetStatus(t, p, StatusOf(g.qualities));
      assert u.movies.Keys == t.movies.Keys;
      hide Matches, LastTracked;
      NewPosterInStep(par, s, c, u, m, f, last);
    }
  }

  lemma LastGroup(par: Parser, s: Index, c: Cursor, last: int) returns (g: ParsedMovieGroup)
    requires InStep(par, s, c, last) && LastPoster(s) > 0
    ensures Closing(c) != [] && g == Closing(c)[|Closing(c)| - 1]
    ensures g.posterId == LastPoster(s) && (g.status.GroupIndexed? <==> g.qualities != map[])
  {
    g := Closing(c)[|Closing(c)| - 1];
    assert Matches(s, g);
  }

  // ---- The whole stream -------------------------------------------------------------------

  lemma EmptyInStep(par: Parser)
    ensures InStep(par, EMPTY, Cursor([], None), 0)
  {
    assert PosterIds([]) == [];
  }

  lemma MessageInStep(par: Parser, s: Index, c: Cursor, m: Message, last: int)
    requires InStep(par, s, c, last) && last < m.id
    ensures InStep(par, Ingest(par, s, m), par.Advance(c, m, DIAGNOSTIC_TAIL), m.id)
  {
    hide InStep, Ingest;
    if par.Detect(m.content).AsPoster? {
      PosterInStep(par, s, c, m, par.Detect(m.content).poster, last);
    } else {
      NoPosterInStep(par, s, c, m, last);
    }
  }

  lemma {:induction false} StreamInStep(par: Parser, ms: seq<Message>, n: nat)
    requires Ascending(ms) && n <= |ms|
    ensures InStep(par, IngestAll(par, ms, n), par.Read(ms, n, DIAGNOSTIC_TAIL), if n == 0 then 0 else ms[n - 1].id)
  {
    hide InStep, Ingest;
    EmptyInStep(par);
    if n > 0 {
      StreamInStep(par, ms, n - 1);
      MessageInStep(par, IngestAll(par, ms, n - 1), par.Read(ms, n - 1, DIAGNOSTIC_TAIL), ms[n - 1],
                    if n == 1 then 0 else ms[n - 2].id);
    }
  }

  /** After ingesting any ascending stream there is one movie per group of one full parse of it; the
      movie's rows are exactly the qualities of that group, row for row, and its status is "indexed"
      exactly when the group's is. */
  lemma IncrementalEqualsBatch(par: Parser, ms: seq<Message>)
    requires Ascending(ms)
    ensures GroupsMatch(IngestAll(par, ms, |ms|), par.Parse(ms))
  {
    StreamInStep(par, ms, |ms|);
    LimitOnlyTrims(par, ms, |ms|, DIAGNOSTIC_TAIL);
    TrimmedMatch(IngestAll(par, ms, |ms|), par.Read(ms, |ms|, None), par.Read(ms, |ms|, DIAGNOSTIC_TAIL));
  }

  lemma TrimmedMatch(s: Index, full: Cursor, short: Cursor)
    requires Trims(full, short, DIAGNOSTIC_TAIL) && GroupsMatch(s, Closing(short))
    ensures GroupsMatch(s, Closing(full))
  {
    var gs, hs := Closing(full), Closing(short);
    hide Enumerates;
    assert |gs| == |hs| && forall i :: 0 <= i < |gs| ==> hs[i] == TrimGroup(gs[i], DIAGNOSTIC_TAIL);
    assert PosterIds(gs) == PosterIds(hs);
    forall i | 0 <= i < |gs|
      ensures Matches(s, gs[i])
    {
      assert Matches(s, hs[i]);
      assert hs[i] == TrimGroup(gs[i], DIAGNOSTIC_TAIL);
      hide RowsMatch;
    }
  }
}
