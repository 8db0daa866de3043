/** The archive index as values: its tables and what each operation of
    src/cinegate/services/archive_indexer.py makes of them. One archive channel. */
module ArchiveIndex {
  import opened Wrappers
  import opened Archive
  import opened ArchiveParser

  const DIAGNOSTIC_TAIL: Limit := Some(32)

  datatype Snapshot = Snapshot(content: Content, editedAt: Option<int>, conflicted: bool, version: nat)

  datatype MovieStatus = Pending | Indexed | Orphan | Ambiguous

  datatype Movie = Movie(
    displayTitle: string, normalizedTitle: string, year: Option<int>, style: ParserStyle,
    rawPosterCaption: string, status: MovieStatus, confidence: int)

  datatype Row = Row(
    movie: MessageId, messageId: MessageId, resolution: string, rawCaption: string,
    title: Option<string>, normalizedTitle: Option<string>, year: Option<int>, confidence: int)

  type Snapshots = map<MessageId, Snapshot>
  type Movies = map<MessageId, Movie>
  type RowId = nat
  type Rows = map<RowId, Row>

  // Movies are keyed by the id of their poster message, rows by their own surrogate id.
  datatype Index = Index(snaps: Snapshots, movies: Movies, rows: Rows, nextRow: RowId)

  const EMPTY := Index(map[], map[], map[], 0)

  datatype Event =
    | Post(m: Message)
    | Edit(m: Message)
    | Reread(m: Message, expected: nat)

  datatype Recorded = Applied | Stale | Conflict

  // ---- Queries ----------------------------------------------------------------------------

  function NextPoster(movies: Movies, p: int): (n: int)
    requires 0 <= p < MAX_ID
    ensures p < n <= MAX_ID
    ensures n < MAX_ID ==> n in movies
    ensures forall k :: p < k < n ==> k !in movies
    decreases MAX_ID - p
  {
    if p + 1 == MAX_ID || p + 1 in movies then p + 1 else NextPoster(movies, p + 1)
  }

  // The last poster below an id, or 0.
  function PrevPoster(movies: Movies, id: int): (p: int)
    requires 0 < id <= MAX_ID
    ensures 0 <= p < id
    ensures p > 0 ==> p in movies
    ensures forall k :: p < k < id ==> k !in movies
  {
    if id == 1 || id - 1 in movies then id - 1 else PrevPoster(movies, id - 1)
  }

  function FirstConflict(snaps: Snapshots, lo: int, hi: int): (c: int)
    requires lo <= hi
    ensures lo <= c <= hi
    ensures c < hi ==> c in snaps && snaps[c].conflicted
    ensures forall id :: lo <= id < c && id in snaps ==> !snaps[id].conflicted
    decreases hi - lo
  {
    if lo == hi || (lo in snaps && snaps[lo].conflicted) then lo else FirstConflict(snaps, lo + 1, hi)
  }

  function Evidence(id: MessageId, s: Snapshot): Message {
    Message(id, if s.conflicted then Content(Other, s.content.caption) else s.content, s.editedAt)
  }

  /** The recorded messages with lo <= id < n, in ascending order. */
  function Recordings(snaps: Snapshots, lo: MessageId, n: int): (ms: seq<Message>)
    requires n <= MAX_ID
    ensures Ascending(ms)
    ensures forall m :: m in ms ==> lo <= m.id < n
  {
    if n <= lo then []
    else if n - 1 in snaps then Recordings(snaps, lo, n - 1) + [Evidence(n - 1, snaps[n - 1])]
    else Recordings(snaps, lo, n - 1)
  }

  /** The parser's scan of those messages. */
  function ScanTo(par: Parser, snaps: Snapshots, lo: MessageId, n: int): Scan
    requires n <= MAX_ID
  {
    if n <= lo then Idle
    else if n - 1 in snaps then par.Feed(ScanTo(par, snaps, lo, n - 1), Evidence(n - 1, snaps[n - 1]), DIAGNOSTIC_TAIL)
    else ScanTo(par, snaps, lo, n - 1)
  }

  /** Where the evidence of a movie ends: at the next poster or the first conflicted message. */
  function Horizon(s: Index, p: MessageId): (n: int)
    ensures p <= n <= MAX_ID
  {
    FirstConflict(s.snaps, p, NextPoster(s.movies, p))
  }

  function Through(s: Index, p: MessageId, through: Option<MessageId>): (n: int)
    ensures n <= MAX_ID
  {
    if through.None? then Horizon(s, p) else Min(Horizon(s, p), through.value + 1)
  }

  /** The group of a movie on current evidence. */
  ghost function MovieGroup(par: Parser, s: Index, p: MessageId, through: Option<MessageId>): Option<ParsedMovieGroup>
    requires p in s.movies
  {
    if s.movies[p].confidence <= 0 then None else
    var g := First(ScanTo(par, s.snaps, p, Through(s, p, through)));
    if g.Some? && g.value.posterId == p then g else None
  }

  ghost predicate Holds(g: Option<ParsedMovieGroup>, r: string, id: MessageId) {
    g.Some? && r in g.value.qualities && g.value.qualities[r].messageId == id
  }

  ghost function ItemAt(g: Option<ParsedMovieGroup>, id: MessageId): (item: Option<ParsedQuality>)
    ensures item.Some? ==> exists r :: Holds(g, r, id) && item.value == g.value.qualities[r]
    ensures item.None? ==> forall r :: !Holds(g, r, id)
  {
    if r :| Holds(g, r, id) then Some(g.value.qualities[r]) else None
  }

  ghost function RowAt(rows: Rows, id: MessageId): (k: Option<RowId>)
    ensures k.Some? ==> k.value in rows && rows[k.value].messageId == id
    ensures k.None? ==> forall j :: j in rows ==> rows[j].messageId != id
  {
    if k :| k in rows && rows[k].messageId == id then Some(k) else None
  }

  ghost function RowOf(rows: Rows, p: MessageId, r: string): (k: Option<RowId>)
    ensures k.Some? ==> k.value in rows && rows[k.value].movie == p && rows[k.value].resolution == r
    ensures k.None? ==> forall j :: j in rows && rows[j].movie == p ==> rows[j].resolution != r
  {
    if k :| k in rows && rows[k].movie == p && rows[k].resolution == r then Some(k) else None
  }

  ghost predicate HasRows(rows: Rows, p: MessageId) {
    exists k :: k in rows && rows[k].movie == p
  }

  ghost predicate HasInvalidRow(rows: Rows, p: MessageId) {
    exists k :: k in rows && rows[k].movie == p && rows[k].confidence <= 0
  }

  // ---- Recording one message --------------------------------------------------------------

  function VersionOf(known: Option<Snapshot>): nat {
    if known.Some? then known.value.version else 0
  }

  /** Last writer wins, fenced by an expected version; a tie between different contents is a conflict. */
  function Record(known: Option<Snapshot>, m: Message, reconcile: bool, expected: Option<nat>): (Recorded,
    Option<Snapshot>) {
    if expected.Some? && expected.value != VersionOf(known) then (Stale, known)
    else if known.None? then (Applied, Some(Snapshot(m.content, m.editedAt, false, 1)))
    else if !reconcile then (Stale, known)
    else if known.value.editedAt.Some? && (m.editedAt.None? || m.editedAt.value < known.value.editedAt.value)
      then (Stale, known)
    else if known.value.editedAt.Some? && m.editedAt == known.value.editedAt && expected.None? then
      if m.content != known.value.content then
        (Conflict, Some(known.value.(version := known.value.version + 1, conflicted := true)))
      else (Stale, known)
    else (Applied, Some(Snapshot(m.content, m.editedAt, false, known.value.version + 1)))
  }

  function SnapAt(s: Index, id: MessageId): Option<Snapshot> {
    if id in s.snaps then Some(s.snaps[id]) else None
  }

  function SetSnap(s: Index, id: MessageId, snap: Snapshot): Index {
    s.(snaps := s.snaps[id := snap])
  }

  // ---- Keeping a movie in step with its evidence ------------------------------------------

  ghost function RevalidatedRow(g: Option<ParsedMovieGroup>, row: Row): Row {
    if Holds(g, row.resolution, row.messageId) then
      var item := g.value.qualities[row.resolution];
      row.(confidence := item.confidence, title := item.rawTitle, normalizedTitle := item.normalizedTitle,
           year := item.year)
    else row.(confidence := 0)
  }

  ghost function Revalidate(par: Parser, s: Index, p: MessageId): Index
    requires p in s.movies
  {
    var g := MovieGroup(par, s, p, None);
    s.(rows := map k | k in s.rows :: if s.rows[k].movie == p then RevalidatedRow(g, s.rows[k]) else s.rows[k])
  }

  ghost function RefreshedStatus(s: Index, p: MessageId): MovieStatus
    requires p in s.movies
  {
    if s.movies[p].confidence <= 0 || HasInvalidRow(s.rows, p) || Horizon(s, p) < NextPoster(s.movies, p) then Ambiguous
    else if HasRows(s.rows, p) then Indexed
    else Orphan
  }

  function SetStatus(s: Index, p: MessageId, status: MovieStatus): Index
    requires p in s.movies
  {
    s.(movies := s.movies[p := s.movies[p].(status := status)])
  }

  ghost function Settle(par: Parser, s: Index, p: MessageId): (t: Index)
    requires p in s.movies
    ensures t.snaps == s.snaps
  {
    var t := Revalidate(par, s, p);
    SetStatus(t, p, RefreshedStatus(t, p))
  }

  ghost function Boundary(par: Parser, s: Index, id: MessageId): (t: Index)
    ensures t.snaps == s.snaps
  {
    var p := PrevPoster(s.movies, id);
    if p == 0 then s else Settle(par, s, p)
  }

  // ---- Posters ----------------------------------------------------------------------------

  function NewMovie(m: Message, f: PosterFields): Movie {
    Movie(f.displayTitle, f.normalizedTitle, f.year, f.style, m.content.CaptionText(), Pending, f.confidence)
  }

  ghost function UpsertPoster(par: Parser, s: Index, m: Message, f: PosterFields): (t: Index)
    ensures t.snaps == s.snaps
  {
    var p := PrevPoster(s.movies, m.id);
    var s := if p > 0 && s.movies[p].status.Pending?
             then SetStatus(s, p, if HasRows(s.rows, p) then Indexed else Orphan)
             else s;
    if m.id in s.movies then s else
    var s := s.(movies := s.movies[m.id := NewMovie(m, f)]);
    if p == 0 then s else Settle(par, s, p)
  }

  ghost function EditPoster(par: Parser, s: Index, m: Message): (t: Index)
    requires m.id in s.movies
    ensures t.snaps == s.snaps
  {
    var d := par.Detect(m.content);
    if d.AsPoster? then
      var movie := NewMovie(m, d.poster).(status := s.movies[m.id].status);
      Settle(par, s.(movies := s.movies[m.id := movie]), m.id)
    else
      s.(movies := s.movies[m.id := s.movies[m.id].(status := Ambiguous, rawPosterCaption := m.content.CaptionText(),
                                                    confidence := 0)])
  }

  // ---- Qualities --------------------------------------------------------------------------

  function NewRow(p: MessageId, item: ParsedQuality): Row {
    Row(p, item.messageId, item.resolution, item.rawCaption, item.rawTitle, item.normalizedTitle, item.year,
        item.confidence)
  }

  ghost function UpsertRow(s: Index, p: MessageId, item: ParsedQuality): (t: Index)
    ensures t.snaps == s.snaps && t.movies == s.movies
  {
    match RowOf(s.rows, p, item.resolution)
    case None => s.(rows := s.rows[s.nextRow := NewRow(p, item)], nextRow := s.nextRow + 1)
    case Some(k) => if item.messageId > s.rows[k].messageId then s.(rows := s.rows[k := NewRow(p, item)]) else s
  }

  ghost function UpsertQuality(par: Parser, s: Index, m: Message): (t: Index)
    ensures t.snaps == s.snaps
  {
    var p := PrevPoster(s.movies, m.id);
    if p == 0 then s else
    var item := ItemAt(MovieGroup(par, s, p, Some(m.id)), m.id);
    if item.None? then s else Settle(par, UpsertRow(s, p, item.value), p)
  }

  function SetRow(s: Index, k: RowId, row: Row): Index {
    s.(rows := s.rows[k := row])
  }

  ghost predicate ResolutionTaken(rows: Rows, k: RowId, r: string)
    requires k in rows
  {
    exists j :: j in rows && j != k && rows[j].movie == rows[k].movie && rows[j].resolution == r
  }

  ghost function EditQuality(par: Parser, s: Index, k: RowId, m: Message): (t: Index)
    requires k in s.rows && s.rows[k].movie in s.movies
    ensures t.snaps == s.snaps
  {
    var row := s.rows[k];
    var p := row.movie;
    var item := if m.content.kind.Video? || m.content.kind.Document?
                then ItemAt(MovieGroup(par, s, p, Some(m.id)), m.id) else None;
    var caption := m.content.CaptionText();
    if item.None? then
      SetStatus(SetRow(s, k, row.(rawCaption := caption, title := None, normalizedTitle := None, year := None,
                                  confidence := 0)), p, Ambiguous)
    else if item.value.resolution != row.resolution && ResolutionTaken(s.rows, k, item.value.resolution) then
      SetStatus(SetRow(s, k, row.(rawCaption := caption, confidence := 0)), p, Ambiguous)
    else
      Settle(par, SetRow(s, k, NewRow(p, item.value).(messageId := row.messageId)), p)
  }

  // ---- Events -----------------------------------------------------------------------------

  /** A message that is neither a known poster nor attached to a row. */
  ghost function Place(par: Parser, s: Index, m: Message): (t: Index)
    ensures t.snaps == s.snaps
  {
    match par.Detect(m.content)
    case AsPoster(f) => UpsertPoster(par, s, m, f)
    case AsQuality(_) => UpsertQuality(par, s, m)
    case AsNoise => Boundary(par, s, m.id)
  }

  ghost function InvalidateConflict(par: Parser, s: Index, id: MessageId): (t: Index)
    requires forall k :: k in s.rows ==> s.rows[k].movie in s.movies
    ensures t.snaps == s.snaps
  {
    if id in s.movies then s.(movies := s.movies[id := s.movies[id].(confidence := 0, status := Ambiguous)])
    else
      var k := RowAt(s.rows, id);
      if k.Some? then
        SetStatus(SetRow(s, k.value, s.rows[k.value].(confidence := 0)), s.rows[k.value].movie, Ambiguous)
      else Boundary(par, s, id)
  }

  /** The two uniqueness constraints of the rows table: one row per message, one per movie and resolution. */
  ghost predicate UniqueRows(rows: Rows) {
    forall j, k :: j in rows && k in rows && j != k ==>
      && rows[j].messageId != rows[k].messageId
      && (rows[j].movie != rows[k].movie || rows[j].resolution != rows[k].resolution)
  }

  ghost predicate WellFormed(s: Index) {
    && (forall p :: p in s.movies ==> p in s.snaps)
    && (forall k :: k in s.rows ==> k < s.nextRow && s.rows[k].movie in s.movies && s.rows[k].messageId in s.snaps
                                    && s.rows[k].messageId !in s.movies && s.rows[k].movie < s.rows[k].messageId)
    && UniqueRows(s.rows)
  }

  ghost function Ingest(par: Parser, s: Index, m: Message): Index {
    var (outcome, snap) := Record(SnapAt(s, m.id), m, false, None);
    if outcome.Applied? then Place(par, SetSnap(s, m.id, snap.value), m) else s
  }

  ghost function ReconcileEdit(par: Parser, s: Index, m: Message, expected: Option<nat>): Index
    requires WellFormed(s)
  {
    var (outcome, snap) := Record(SnapAt(s, m.id), m, true, expected);
    match outcome
    case Stale => s
    case Conflict => InvalidateConflict(par, SetSnap(s, m.id, snap.value), m.id)
    case Applied =>
      var s := SetSnap(s, m.id, snap.value);
      if m.id in s.movies then EditPoster(par, s, m)
      else if RowAt(s.rows, m.id).Some? then EditQuality(par, s, RowAt(s.rows, m.id).value, m)
      else Place(par, s, m)
  }

  ghost function Step(par: Parser, s: Index, e: Event): Index
    requires WellFormed(s)
  {
    match e
    case Post(m) => Ingest(par, s, m)
    case Edit(m) => ReconcileEdit(par, s, m, None)
    case Reread(m, expected) => ReconcileEdit(par, s, m, Some(expected))
  }
}
