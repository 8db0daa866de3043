/** The index service as the program runs it: tables updated in place, one method per step
    (src/cinegate/services/archive_indexer.py). Each method is tied to the value it leaves behind. */
module ArchiveIndexService {
  import opened Wrappers
  import opened Archive
  import opened ArchiveParser
  import opened ArchiveIndex
  import opened ArchiveSafety

  // A message contributes to a group under one resolution only.
  lemma {:induction false} KeptUnderItsResolution(par: Parser, snaps: Snapshots, lo: MessageId, n: int)
    requires n <= MAX_ID
    ensures var s := ScanTo(par, snaps, lo, n);
            !s.Idle? ==> forall r :: r in s.b.qualities ==>
              var q := s.b.qualities[r];
              q.messageId < n && q.messageId in snaps
              && par.Detect(Evidence(q.messageId, snaps[q.messageId]).content).AsQuality?
              && par.Detect(Evidence(q.messageId, snaps[q.messageId]).content).quality.resolution == r
  {
    if n > lo {
      KeptUnderItsResolution(par, snaps, lo, n - 1);
    }
  }

  lemma ItemUnique(par: Parser, s: Index, p: MessageId, through: Option<MessageId>, r: string, id: MessageId)
    requires p in s.movies && Holds(MovieGroup(par, s, p, through), r, id)
    ensures ItemAt(MovieGroup(par, s, p, through), id) == Some(MovieGroup(par, s, p, through).value.qualities[r])
  {
    KeptUnderItsResolution(par, s.snaps, p, Through(s, p, through));
    var g := MovieGroup(par, s, p, through);
    assert ItemAt(g, id).Some?;
    var r' :| Holds(g, r', id) && ItemAt(g, id).value == g.value.qualities[r'];
    assert g.Some?;
    assert r' in g.value.qualities;
    assert r in g.value.qualities;
    assert r == r';
  }

  lemma {:induction false} RecordingsScanned(par: Parser, snaps: Snapshots, lo: MessageId, n: int)
    requires n <= MAX_ID
    ensures par.ScanSlice(Recordings(snaps, lo, n), 0, |Recordings(snaps, lo, n)|, DIAGNOSTIC_TAIL) == ScanTo(par,
            snaps, lo, n)
  {
    if n > lo {
      RecordingsScanned(par, snaps, lo, n - 1);
      var ms, ns := Recordings(snaps, lo, n - 1), Recordings(snaps, lo, n);
      if n - 1 in snaps {
        PrefixScanned(par, ms, ns, |ms|);
      }
    }
  }

  lemma {:induction false} PrefixScanned(par: Parser, ms: seq<Message>, ns: seq<Message>, n: nat)
    requires n <= |ms| <= |ns| && ms == ns[..|ms|]
    ensures par.ScanSlice(ms, 0, n, DIAGNOSTIC_TAIL) == par.ScanSlice(ns, 0, n, DIAGNOSTIC_TAIL)
  {
    if n > 0 {
      PrefixScanned(par, ms, ns, n - 1);
      assert ms[n - 1] == ns[n - 1];
    }
  }

  class ArchiveIndexService {
    const parser: Parser
    const channelId: int
    var configuredChannel: Option<int>
    var snaps: Snapshots
    var movies: Movies
    var rows: Rows
    var nextRow: RowId

    ghost function View(): Index
      reads this
    {
      Index(snaps, movies, rows, nextRow)
    }

    constructor (parser: Parser, channelId: int, configuredChannel: Option<int>)
      ensures View() == EMPTY && this.parser == parser && this.channelId == channelId
      ensures this.configuredChannel == configuredChannel
    {
      this.parser := parser;
      this.channelId := channelId;
      this.configuredChannel := configuredChannel;
      snaps, movies, rows, nextRow := map[], map[], map[], 0;
    }

    predicate Configured()
      reads this
    {
      configuredChannel == Some(channelId)
    }

    /** Fencing tokens for a history read. */
    method SnapshotVersions(ids: seq<MessageId>) returns (versions: map<MessageId, nat>)
      ensures forall id :: id in versions <==> id in ids
      ensures forall id :: id in ids ==> versions[id] == VersionOf(SnapAt(View(), id))
    {
      versions := map[];
      for i := 0 to |ids|
        invariant forall id :: id in versions <==> id in ids[..i]
        invariant forall id :: id in versions ==> versions[id] == VersionOf(SnapAt(View(), id))
      {
        versions := versions[ids[i] := if ids[i] in snaps then snaps[ids[i]].version else 0];
      }
    }

    method ParseMovieGroup(p: MessageId, through: Option<MessageId>) returns (group: Option<ParsedMovieGroup>)
      requires p in movies
      ensures group == MovieGroup(parser, View(), p, through)
    {
      if movies[p].confidence <= 0 {
        return None;
      }
      var next := NextPoster(movies, p);
      var stop := FirstConflict(snaps, p, next);
      if through.Some? {
        stop := Min(stop, through.value + 1);
      }
      var messages := Recordings(snaps, p, stop);
      RecordingsScanned(parser, snaps, p, stop);
      group := parser.NextGroup(messages, DIAGNOSTIC_TAIL);
      if group.Some? && group.value.posterId != p {
        group := None;
      }
    }

    method FindItem(p: MessageId, id: MessageId) returns (item: Option<ParsedQuality>)
      requires p in movies
      ensures item == ItemAt(MovieGroup(parser, View(), p, Some(id)), id)
    {
      var group := ParseMovieGroup(p, Some(id));
      if group.Some? && exists r :: r in group.value.qualities && group.value.qualities[r].messageId == id {
        var r :| r in group.value.qualities && group.value.qualities[r].messageId == id;
        ItemUnique(parser, View(), p, Some(id), r, id);
        item := Some(group.value.qualities[r]);
      } else {
        assert forall r :: !Holds(group, r, id);
        item := None;
      }
    }

    method FindRow(id: MessageId) returns (k: Option<RowId>)
      requires UniqueRows(rows)
      ensures k == RowAt(rows, id)
    {
      if exists j :: j in rows && rows[j].messageId == id {
        var j :| j in rows && rows[j].messageId == id;
        k := Some(j);
      } else {
        k := None;
      }
    }

    method RevalidateAttachedQualities(p: MessageId)
      requires p in movies
      modifies this`rows
      ensures View() == Revalidate(parser, old(View()), p)
    {
      var group := ParseMovieGroup(p, None);
      var todo := rows.Keys;
      while todo != {}
        invariant todo <= rows.Keys == old(rows).Keys
        invariant forall k :: k in rows ==>
          rows[k] == (if k in todo || old(rows)[k].movie != p then old(rows)[k]
                      else RevalidatedRow(group, old(rows)[k]))
      {
        var k :| k in todo;
        todo := todo - {k};
        var row := rows[k];
        if row.movie == p {
          if group.None? || row.resolution !in group.value.qualities
             || group.value.qualities[row.resolution].messageId != row.messageId {
            rows := rows[k := row.(confidence := 0)];
          } else {
            var item := group.value.qualities[row.resolution];
            rows := rows[k := row.(confidence := item.confidence, title := item.rawTitle,
                                   normalizedTitle := item.normalizedTitle, year := item.year)];
          }
        }
      }
    }

    method RefreshMovieStatus(p: MessageId) returns (status: MovieStatus)
      requires p in movies
      modifies this`movies
      ensures View() == SetStatus(old(View()), p, status) && status == RefreshedStatus(old(View()), p)
    {
      var total, invalid := 0, 0;
      var todo := rows.Keys;
      while todo != {}
        invariant todo <= rows.Keys && 0 <= invalid <= total
        invariant total > 0 <==> exists k :: k in rows && k !in todo && rows[k].movie == p
        invariant invalid > 0 <==> exists k :: k in rows && k !in todo && rows[k].movie == p && rows[k].confidence <= 0
      {
        var k :| k in todo;
        todo := todo - {k};
        if rows[k].movie == p {
          total := total + 1;
          if rows[k].confidence <= 0 {
            invalid := invalid + 1;
          }
        }
      }
      var next := NextPoster(movies, p);
      var conflict := FirstConflict(snaps, p, next);
      if movies[p].confidence <= 0 || invalid > 0 || conflict < next {
        status := Ambiguous;
      } else if total > 0 {
        status := Indexed;
      } else {
        status := Orphan;
      }
      movies := movies[p := movies[p].(status := status)];
    }

    method Resettle(p: MessageId) returns (status: MovieStatus)
      requires p in movies
      modifies this`movies, this`rows
      ensures View() == Settle(parser, old(View()), p) && p in movies && status == movies[p].status
    {
      RevalidateAttachedQualities(p);
      status := RefreshMovieStatus(p);
    }

    method ReconcileBoundary(id: MessageId)
      modifies this`movies, this`rows
      ensures View() == Boundary(parser, old(View()), id)
    {
      var p := PrevPoster(movies, id);
      if p > 0 {
        var _ := Resettle(p);
      }
    }

    method ReconcilePosterEdit(m: Message)
      requires m.id in movies
      modifies this`movies, this`rows
      ensures View() == EditPoster(parser, old(View()), m)
    {
      var movie := movies[m.id];
      var d := parser.Detect(m.content);
      if !m.content.kind.Photo? || !d.AsPoster? {
        movies := movies[m.id := movie.(status := Ambiguous, rawPosterCaption := m.content.CaptionText(),
                                        confidence := 0)];
        return;
      }
      var f := d.poster;
      movies := movies[m.id := movie.(displayTitle := f.displayTitle, normalizedTitle := f.normalizedTitle,
                                      year := f.year,
                                      style := f.style, rawPosterCaption := m.content.CaptionText(),
                                        confidence := f.confidence)];
      var _ := Resettle(m.id);
    }

    method InvalidateQualityEdit(k: RowId, m: Message)
      requires k in rows && rows[k].movie in movies
      modifies this`movies, this`rows
      ensures var was := old(View());
              var row := was.rows[k].(rawCaption := m.content.CaptionText(), title := None, normalizedTitle := None,
                                      year := None, confidence := 0);
              View() == SetStatus(SetRow(was, k, row), row.movie, Ambiguous)
    {
      var row := rows[k];
      rows := rows[k := row.(rawCaption := m.content.CaptionText(), title := None, normalizedTitle := None,
                             year := None, confidence := 0)];
      movies := movies[row.movie := movies[row.movie].(status := Ambiguous)];
    }

    method ReconcileQualityEdit(k: RowId, m: Message)
      requires WellFormed(View()) && k in rows && rows[k].messageId == m.id
      modifies this`movies, this`rows
      ensures View() == EditQuality(parser, old(View()), k, m)
    {
      var row := rows[k];
      if !m.content.kind.Video? && !m.content.kind.Document? {
        InvalidateQualityEdit(k, m);
        return;
      }
      var item := FindItem(row.movie, m.id);
      if item.None? {
        InvalidateQualityEdit(k, m);
        return;
      }
      var parsed := item.value;
      if parsed.resolution != row.resolution
         && exists j :: j in rows && j != k && rows[j].movie == row.movie && rows[j].resolution == parsed.resolution {
        rows := rows[k := row.(rawCaption := m.content.CaptionText(), confidence := 0)];
        movies := movies[row.movie := movies[row.movie].(status := Ambiguous)];
        return;
      }
      rows := rows[k := row.(resolution := parsed.resolution, rawCaption := parsed.rawCaption, title := parsed.rawTitle,
                             normalizedTitle := parsed.normalizedTitle, year := parsed.year,
                               confidence := parsed.confidence)];
      assert View() == SetRow(old(View()), k, NewRow(row.movie, parsed).(messageId := row.messageId));
      var _ := Resettle(row.movie);
    }

    method UpsertPoster(m: Message, f: PosterFields)
      modifies this`movies, this`rows
      ensures View() == ArchiveIndex.UpsertPoster(parser, old(View()), m, f)
    {
      var previous := PrevPoster(movies, m.id);
      if previous > 0 && movies[previous].status.Pending? {
        var count := exists k :: k in rows && rows[k].movie == previous;
        movies := movies[previous := movies[previous].(status := if count then Indexed else Orphan)];
      }
      if m.id in movies {
        return;
      }
      movies := movies[m.id := NewMovie(m, f)];
      if previous > 0 {
        var _ := Resettle(previous);
      }
    }

    method UpsertQuality(m: Message)
      requires WellFormed(View())
      modifies this`movies, this`rows, this`nextRow
      ensures View() == ArchiveIndex.UpsertQuality(parser, old(View()), m)
    {
      var p := PrevPoster(movies, m.id);
      if p == 0 {
        return;
      }
      var item := FindItem(p, m.id);
      if item.None? {
        return;
      }
      var q := item.value;
      if exists k :: k in rows && rows[k].movie == p && rows[k].resolution == q.resolution {
        var k :| k in rows && rows[k].movie == p && rows[k].resolution == q.resolution;
        if q.messageId > rows[k].messageId {
          rows := rows[k := rows[k].(messageId := q.messageId, rawCaption := q.rawCaption, title := q.rawTitle,
                                     normalizedTitle := q.normalizedTitle, year := q.year, confidence := q.confidence)];
        }
      } else {
        rows := rows[nextRow := NewRow(p, q)];
        nextRow := nextRow + 1;
      }
      assert View() == UpsertRow(old(View()), p, q);
      var _ := Resettle(p);
    }

    method InvalidateSnapshotConflict(id: MessageId)
      requires WellFormed(View())
      modifies this`movies, this`rows
      ensures View() == InvalidateConflict(parser, old(View()), id)
    {
      if id in movies {
        movies := movies[id := movies[id].(confidence := 0, status := Ambiguous)];
        return;
      }
      var k := FindRow(id);
      if k.Some? {
        var row := rows[k.value];
        rows := rows[k.value := row.(confidence := 0)];
        movies := movies[row.movie := movies[row.movie].(status := Ambiguous)];
      } else {
        ReconcileBoundary(id);
      }
    }

    method RecordSnapshot(m: Message, reconcile: bool, expected: Option<nat>) returns (applied: bool)
      requires WellFormed(View())
      modifies this`snaps, this`movies, this`rows
      ensures var was := old(View());
              var (outcome, snap) := Record(SnapAt(was, m.id), m, reconcile, expected);
              && applied == outcome.Applied?
              && (outcome.Stale? ==> View() == was)
              && (outcome.Applied? ==> View() == SetSnap(was, m.id, snap.value))
              && (outcome.Conflict? ==> WellFormed(SetSnap(was, m.id, snap.value))
                                        && View() == InvalidateConflict(parser, SetSnap(was, m.id, snap.value), m.id))
    {
      var version := if m.id in snaps then snaps[m.id].version else 0;
      if expected.Some? && expected.value != version {
        return false;
      }
      if m.id !in snaps {
        snaps := snaps[m.id := Snapshot(m.content, m.editedAt, false, 1)];
        return true;
      }
      if !reconcile {
        return false;
      }
      var known := snaps[m.id];
      if known.editedAt.Some? {
        if m.editedAt.None? || m.editedAt.value < known.editedAt.value {
          return false;
        }
        if m.editedAt == known.editedAt && expected.None? {
          if m.content != known.content {
            snaps := snaps[m.id := known.(version := known.version + 1, conflicted := true)];
            InvalidateSnapshotConflict(m.id);
          }
          return false;
        }
      }
      snaps := snaps[m.id := Snapshot(m.content, m.editedAt, false, known.version + 1)];
      applied := true;
    }

    method PlaceMessage(m: Message)
      requires WellFormed(View())
      modifies this`movies, this`rows, this`nextRow
      ensures View() == Place(parser, old(View()), m)
    {
      var d := parser.Detect(m.content);
      match d {
        case AsPoster(f) => UpsertPoster(m, f);
        case AsQuality(_) => UpsertQuality(m);
        case AsNoise => ReconcileBoundary(m.id);
      }
    }

    /** A post. Nothing happens for a channel that is not the configured one. */
    method Ingest(m: Message)
      requires WellFormed(View())
      modifies this`snaps, this`movies, this`rows, this`nextRow
      ensures WellFormed(View())
      ensures View() == if Configured() then Step(parser, old(View()), Post(m)) else old(View())
    {
      StepWellFormed(parser, View(), Post(m));
      if !Configured() {
        return;
      }
      var applied := RecordSnapshot(m, false, None);
      if applied {
        PlaceMessage(m);
      }
    }

    /** A live edit, or with an expected version a fenced history read. */
    method ReconcileEdit(m: Message, expected: Option<nat>)
      requires WellFormed(View())
      modifies this`snaps, this`movies, this`rows, this`nextRow
      ensures WellFormed(View())
      ensures View() == if Configured()
                        then Step(parser, old(View()), if expected.None? then Edit(m) else Reread(m, expected.value))
                        else old(View())
    {
      StepWellFormed(parser, View(), if expected.None? then Edit(m) else Reread(m, expected.value));
      if !Configured() {
        return;
      }
      var applied := RecordSnapshot(m, true, expected);
      if !applied {
        return;
      }
      if m.id in movies {
        ReconcilePosterEdit(m);
        return;
      }
      var k := FindRow(m.id);
      if k.Some? {
        ReconcileQualityEdit(k.value, m);
      } else {
        PlaceMessage(m);
      }
    }
  }
}
