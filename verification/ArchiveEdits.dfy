/** Edits of single messages: their order does not matter, they can be undone, and a history read
    never overwrites what it has not seen. */
module ArchiveEdits {
  import opened Wrappers
  import opened Archive
  import opened ArchiveParser
  import opened ArchiveIndex
  import opened ArchiveSafety

  /** A step changes the snapshot of its own message, as recorded, and no other. */
  lemma StepSnapshots(par: Parser, s: Index, e: Event, id: MessageId)
    requires WellFormed(s)
    ensures SnapAt(Step(par, s, e), id) == if id == e.m.id then EventRecord(s, e).1 else SnapAt(s, id)
  {
    var (outcome, snap) := EventRecord(s, e);
    if !outcome.Stale? {
      assert Step(par, s, e).snaps == s.snaps[e.m.id := snap.value];
    }
  }

  // ---- Dates and versions only grow -------------------------------------------------------

  ghost predicate DateGrows(a: Option<Snapshot>, b: Option<Snapshot>) {
    a.Some? && a.value.editedAt.Some? ==>
      b.Some? && b.value.editedAt.Some? && a.value.editedAt.value <= b.value.editedAt.value
  }

  ghost predicate VersionGrows(a: Option<Snapshot>, b: Option<Snapshot>) {
    VersionOf(a) <= VersionOf(b) && (VersionOf(a) == VersionOf(b) ==> a == b)
  }

  /** In any run the date of a message never decreases, and every change of its snapshot, including a
      conflict, strictly raises its version. */
  lemma {:induction false} RunGrows(par: Parser, s: Index, es: seq<Event>, id: MessageId)
    requires WellFormed(s)
    ensures DateGrows(SnapAt(s, id), SnapAt(Run(par, s, es), id))
    ensures VersionGrows(SnapAt(s, id), SnapAt(Run(par, s, es), id))
    decreases |es|
  {
    if es != [] {
      StepSnapshots(par, s, es[0], id);
      StepWellFormed(par, s, es[0]);
      RunGrows(par, Step(par, s, es[0]), es[1..], id);
    }
  }

  /** A history read whose token was taken in state s, and which reaches the index after any run of
      other events, is applied only to the snapshot the token was taken from; otherwise it does nothing. */
  lemma FencedRead(par: Parser, s: Index, es: seq<Event>, m: Message)
    requires WellFormed(s)
    ensures var t := Run(par, s, es);
            var read := Reread(m, VersionOf(SnapAt(s, m.id)));
            && (SnapAt(t, m.id) != SnapAt(s, m.id) ==> Step(par, t, read) == t)
            && (!EventRecord(t, read).0.Stale? ==>
                  && SnapAt(t, m.id) == SnapAt(s, m.id)
                  && SnapAt(Step(par, t, read), m.id).Some?
                  && var snap := SnapAt(Step(par, t, read), m.id).value;
                     snap.content == m.content && !snap.conflicted)
  {
    var t := Run(par, s, es);
    var read := Reread(m, VersionOf(SnapAt(s, m.id)));
    RunGrows(par, s, es, m.id);
    StepSnapshots(par, t, read, m.id);
  }

  // ---- The order of live edits ------------------------------------------------------------

  /** What the dated edits in a run say about one message. */
  ghost function Claims(es: seq<Event>, id: MessageId): set<(int, Content)> {
    if es == [] then {}
    else
      var rest := Claims(es[1..], id);
      if es[0].m.id == id && es[0].m.editedAt.Some? then {(es[0].m.editedAt.value, es[0].m.content)} + rest else rest
  }

  ghost predicate OnlyDatedEdits(es: seq<Event>, id: MessageId) {
    forall e :: e in es && e.m.id == id ==> e.Edit? && e.m.editedAt.Some?
  }

  ghost predicate Undated(snap: Option<Snapshot>) {
    snap.None? || snap.value.editedAt.None?
  }

  /** The snapshot carries the latest date claimed and one of the contents claimed for it, and is in
      conflict exactly when there are several. */
  ghost predicate Reflects(snap: Option<Snapshot>, claims: set<(int, Content)>) {
    if claims == {} then Undated(snap)
    else
      && snap.Some? && snap.value.editedAt.Some?
      && var t := snap.value.editedAt.value;
         && (t, snap.value.content) in claims
         && (forall c :: c in claims ==> c.0 <= t)
         && (snap.value.conflicted <==> exists c :: c in claims && c.0 == t && c.1 != snap.value.content)
  }

  lemma RecordReflects(known: Option<Snapshot>, claims: set<(int, Content)>, m: Message)
    requires Reflects(known, claims) && m.editedAt.Some?
    ensures Reflects(Record(known, m, true, None).1, claims + {(m.editedAt.value, m.content)})
  {
    var all := claims + {(m.editedAt.value, m.content)};
    assert (m.editedAt.value, m.content) in all;
    var snap := Record(known, m, true, None).1.value;
    var t := snap.editedAt.value;
    if claims != {} {
      assert (known.value.editedAt.value, known.value.content) in claims;
      assert forall c :: c in claims ==> c in all;
      if m.editedAt.value == t && m.content != snap.content {
        assert (t, m.content) in all && (t, m.content).1 != snap.content;
      }
      if exists c :: c in all && c.0 == t && c.1 != snap.content {
        var c :| c in all && c.0 == t && c.1 != snap.content;
        assert c in claims || c == (m.editedAt.value, m.content);
      }
    }
  }

  lemma {:induction false} RunReflects(par: Parser, s: Index, es: seq<Event>, id: MessageId,
                                       claims: set<(int, Content)>)
    requires WellFormed(s) && OnlyDatedEdits(es, id) && Reflects(SnapAt(s, id), claims)
    ensures Reflects(SnapAt(Run(par, s, es), id), claims + Claims(es, id))
    decreases |es|
  {
    if es == [] {
      assert claims + Claims(es, id) == claims;
    } else {
      var e := es[0];
      StepSnapshots(par, s, e, id);
      StepWellFormed(par, s, e);
      var now := claims;
      if e.m.id == id {
        RecordReflects(SnapAt(s, id), claims, e.m);
        now := claims + {(e.m.editedAt.value, e.m.content)};
      }
      RunReflects(par, Step(par, s, e), es[1..], id, now);
      assert now + Claims(es[1..], id) == claims + Claims(es, id);
    }
  }

  /** Whatever has been recorded of a message is what some dated edits would have left, none if it has no date. */
  lemma SnapshotReflects(snap: Option<Snapshot>) returns (known: set<(int, Content)>)
    ensures Reflects(snap, known) && (known == {} <==> Undated(snap))
    ensures !Undated(snap) && !snap.value.conflicted ==> known == {(snap.value.editedAt.value, snap.value.content)}
  {
    known := {};
    if !Undated(snap) {
      var t, c := snap.value.editedAt.value, snap.value.content;
      known := {(t, c)};
      if snap.value.conflicted {
        var other := if c == Content(Other, None) then Content(Photo, None) else Content(Other, None);
        known := {(t, c), (t, other)};
        assert (t, other) in known && (t, other).1 != c;
      }
      assert (t, c) in known;
    }
  }

  /** Two contents carry the date. */
  ghost predicate Disputed(claims: set<(int, Content)>, t: int) {
    exists c, d :: c in claims && d in claims && c.0 == t && d.0 == t && c.1 != d.1
  }

  /** Dated live edits of one message, mixed with any events about others, may arrive in any order and any number of
      times: whatever runs make the same claims, counting what was recorded before them, leave the same date, the
      greatest, and the same verdict on conflict, and the same content unless two contents carry that date. */
  lemma OrderOfEditsIrrelevant(par: Parser, s: Index, s': Index, es: seq<Event>, es': seq<Event>, id: MessageId,
                               known: set<(int, Content)>, known': set<(int, Content)>)
    requires WellFormed(s) && WellFormed(s') && Reflects(SnapAt(s, id), known) && Reflects(SnapAt(s', id), known')
    requires OnlyDatedEdits(es, id) && OnlyDatedEdits(es', id)
    requires known + Claims(es, id) == known' + Claims(es', id) != {}
    ensures var a, b, all := SnapAt(Run(par, s, es), id), SnapAt(Run(par, s', es'), id), known + Claims(es, id);
            && a.Some? && b.Some? && a.value.editedAt.Some?
            && a.value.editedAt == b.value.editedAt
            && a.value.conflicted == b.value.conflicted
            && (!a.value.conflicted ==> a.value.content == b.value.content)
            && var t := a.value.editedAt.value;
               && (forall c :: c in all ==> c.0 <= t)
               && (t, a.value.content) in all
               && (a.value.conflicted <==> Disputed(all, t))
  {
    RunReflects(par, s, es, id, known);
    RunReflects(par, s', es', id, known');
    var a, b := SnapAt(Run(par, s, es), id).value, SnapAt(Run(par, s', es'), id).value;
    hide Run, Claims, OnlyDatedEdits, WellFormed;
    var all := known + Claims(es, id);
    assert (a.editedAt.value, a.content) in all;
    assert (b.editedAt.value, b.content) in all;
  }

  /** In particular two runs from one index, whatever it has recorded of the message, with the same edits of it. */
  lemma EditsInAnyOrder(par: Parser, s: Index, es: seq<Event>, es': seq<Event>, id: MessageId)
    requires WellFormed(s) && OnlyDatedEdits(es, id) && OnlyDatedEdits(es', id)
             && Claims(es, id) == Claims(es', id) != {}
    ensures var a, b := SnapAt(Run(par, s, es), id), SnapAt(Run(par, s, es'), id);
            && a.Some? && b.Some? && a.value.editedAt.Some? && a.value.editedAt == b.value.editedAt
            && a.value.conflicted == b.value.conflicted
            && (!a.value.conflicted ==> a.value.content == b.value.content)
  {
    hide Run, Claims, OnlyDatedEdits, WellFormed, Reflects;
    var known := SnapshotReflects(SnapAt(s, id));
    OrderOfEditsIrrelevant(par, s, s, es, es', id, known, known);
  }

  // ---- Undoing a poster edit --------------------------------------------------------------

  /** The rows of the movie say exactly what the parser says. */
  ghost predicate EqualsParse(par: Parser, s: Index, p: MessageId)
    requires p in s.movies
  {
    && s.movies[p].confidence > 0
    && forall k :: k in s.rows && s.rows[k].movie == p ==> Backed(MovieGroup(par, s, p, None), s.rows[k])
  }

  // The rows of p differ at most in what revalidation sets.
  ghost predicate SameButParse(a: Rows, b: Rows, p: MessageId) {
    && a.Keys == b.Keys
    && forall k :: k in a ==>
         if a[k].movie == p then b[k] == a[k].(confidence := b[k].confidence, title := b[k].title,
                                               normalizedTitle := b[k].normalizedTitle, year := b[k].year)
         else b[k] == a[k]
  }

  lemma EditPosterRows(par: Parser, s: Index, m: Message)
    requires m.id in s.movies
    ensures var t := EditPoster(par, s, m);
            && SameButParse(s.rows, t.rows, m.id) && t.nextRow == s.nextRow && t.snaps == s.snaps
            && m.id in t.movies && t.movies == s.movies[m.id := t.movies[m.id]]
  {
  }

  function Edited(s: Index, m: Message): Index
    requires m.id in s.snaps
  {
    SetSnap(s, m.id, Snapshot(m.content, m.editedAt, false, s.snaps[m.id].version + 1))
  }

  // A newer edit of a known poster is an edit of its movie and touches nothing else but its rows' findings.
  lemma NewerPosterEdit(par: Parser, s: Index, m: Message)
    requires WellFormed(s) && m.id in s.movies && m.editedAt.Some?
    requires s.snaps[m.id].editedAt.Some? ==> s.snaps[m.id].editedAt.value < m.editedAt.value
    ensures var t := Step(par, s, Edit(m));
            && t == EditPoster(par, Edited(s, m), m)
            && WellFormed(t) && SameButParse(s.rows, t.rows, m.id)
            && t.snaps == Edited(s, m).snaps && m.id in t.movies && t.movies == s.movies[m.id := t.movies[m.id]]
  {
    hide EditPoster, EditQuality, Place, InvalidateConflict, SameButParse;
    StepWellFormed(par, s, Edit(m));
    EditPosterRows(par, Edited(s, m), m);
  }

  // The movies, one of them with the status its rows and evidence call for.
  ghost function Refreshed(s: Index, p: MessageId): Movies
    requires p in s.movies
  {
    s.movies[p := s.movies[p].(status := RefreshedStatus(s, p))]
  }

  lemma PosterRestored(par: Parser, s: Index, u: Index, m: Message)
    requires EqualsPoster(par, s, m) && EqualsParse(par, s, m.id)
    requires m.id in u.movies && u.movies.Keys == s.movies.Keys && u.snaps.Keys == s.snaps.Keys
    requires forall q :: q in s.movies && q != m.id ==> u.movies[q] == s.movies[q]
    requires SnapsAgree(s.snaps, u.snaps, 1, MAX_ID) && SameButParse(s.rows, u.rows, m.id)
    ensures EditPoster(par, u, m).movies == Refreshed(s, m.id) && EditPoster(par, u, m).rows == s.rows
  {
    var p := m.id;
    var f := par.Detect(m.content).poster;
    var v := u.(movies := u.movies[p := NewMovie(m, f).(status := u.movies[p].status)]);
    assert v.movies.Keys == s.movies.Keys;
    RestoredRows(par, s, v, p);
  }

  ghost predicate EqualsPoster(par: Parser, s: Index, m: Message) {
    && m.id in s.movies && m.id in s.snaps && !s.snaps[m.id].conflicted && s.snaps[m.id].content == m.content
    && SyncedAt(par, s, m.id)
  }

  /** Editing a poster to anything and then back, with newer dates, restores every row; the movie gets the status its
      rows and evidence call for, so it is restored exactly when it had that status, which a poster still pending has
      not. */
  lemma PosterEditUndone(par: Parser, s: Index, there: Message, back: Message)
    requires WellFormed(s) && Synced(par, s) && there.id == back.id && there.id in s.movies
    requires EqualsParse(par, s, there.id)
    requires back.content == s.snaps[there.id].content
    requires there.editedAt.Some? && back.editedAt.Some? && there.editedAt.value < back.editedAt.value
    requires s.snaps[there.id].editedAt.Some? ==> s.snaps[there.id].editedAt.value < there.editedAt.value
    ensures WellFormed(Step(par, s, Edit(there)))
    ensures var t := Step(par, Step(par, s, Edit(there)), Edit(back));
            && t.rows == s.rows && t.movies == Refreshed(s, there.id)
            && (t.movies == s.movies <==> s.movies[there.id].status == RefreshedStatus(s, there.id))
            && t.snaps.Keys == s.snaps.Keys && SnapsAgree(s.snaps, t.snaps, 1, MAX_ID)
  {
    NewerPosterEdit(par, s, there);
    assert Refreshed(s, there.id)[there.id].status == RefreshedStatus(s, there.id);
    assert SyncedAt(par, s, there.id);
    UndoneBy(par, s, Step(par, s, Edit(there)), back);
  }

  lemma UndoneBy(par: Parser, s: Index, u: Index, back: Message)
    requires WellFormed(u) && back.id in s.snaps && back.id in u.movies && back.editedAt.Some?
    requires EqualsPoster(par, s, back) && EqualsParse(par, s, back.id)
    requires u.movies == s.movies[back.id := u.movies[back.id]] && SameButParse(s.rows, u.rows, back.id)
    requires u.snaps == s.snaps[back.id := u.snaps[back.id]]
    requires u.snaps[back.id].editedAt.Some? ==> u.snaps[back.id].editedAt.value < back.editedAt.value
    ensures var t := Step(par, u, Edit(back));
            && t.movies == Refreshed(s, back.id) && t.rows == s.rows
            && t.snaps.Keys == s.snaps.Keys && SnapsAgree(s.snaps, t.snaps, 1, MAX_ID)
  {
    hide Step, EditPoster, WellFormed, EqualsParse, SameButParse, SyncedAt;
    NewerPosterEdit(par, u, back);
    assert u.movies.Keys == s.movies.Keys && Edited(u, back).snaps.Keys == s.snaps.Keys;
    PosterRestored(par, s, Edited(u, back), back);
  }

  lemma RestoredRows(par: Parser, s: Index, v: Index, p: MessageId)
    requires p in s.movies && EqualsParse(par, s, p)
    requires p in v.movies && v.movies[p].confidence == s.movies[p].confidence
    requires v.movies.Keys == s.movies.Keys && v.snaps.Keys == s.snaps.Keys
    requires SnapsAgree(s.snaps, v.snaps, 1, MAX_ID)
    requires SameButParse(s.rows, v.rows, p)
    ensures var t := Settle(par, v, p);
            t.rows == s.rows && t.movies[p].status == RefreshedStatus(s, p)
  {
    SameNeighbours(s.movies, v.movies);
    GroupFrame(par, s, v, p);
    var g := MovieGroup(par, s, p, None);
    var w := Revalidate(par, v, p);
    forall k | k in s.rows
      ensures w.rows[k] == s.rows[k]
    {
      if s.rows[k].movie == p {
        assert Backed(g, s.rows[k]);
        assert w.rows[k] == RevalidatedRow(g, v.rows[k]);
      }
    }
    assert w.rows == s.rows;
    GroupFrame(par, s, w, p);
  }
}
