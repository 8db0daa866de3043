/** The messages of the archive channel (src/cinegate/domain/archive.py). */
module Archive {
  import opened Wrappers

  // Identifiers lie below the constant that stands for "no later poster" in the index queries.
  const MAX_ID := 9223372036854775807

  type MessageId = i: int | 0 < i < MAX_ID witness 1

  datatype MediaKind = Photo | Video | Document | Other

  datatype Content = Content(kind: MediaKind, caption: Option<string>) {
    function CaptionText(): string {
      if caption.Some? then caption.value else ""
    }
  }

  datatype Message = Message(id: MessageId, content: Content, editedAt: Option<int>)

  ghost predicate Ascending(ms: seq<Message>) {
    forall i, j :: 0 <= i < j < |ms| ==> ms[i].id < ms[j].id
  }
}

/** The streaming parser (src/cinegate/services/archive_parser.py). Caption detectors and title
    similarity are parameters: nothing below depends on what they return. */
module ArchiveParser {
  import opened Wrappers
  import opened Archive

  const ACCEPT_THRESHOLD := 60
  const AMBIGUOUS_THRESHOLD := 40

  datatype ParserStyle = Modern | Legacy

  // A detected poster always has a confidence of at least 82.
  type PosterConfidence = c: int | 82 <= c <= 99 witness 82

  datatype PosterFields = PosterFields(
    rawTitle: string, displayTitle: string, normalizedTitle: string,
    year: Option<int>, style: ParserStyle, confidence: PosterConfidence)

  datatype QualityFields = QualityFields(
    resolution: string, rawTitle: Option<string>, normalizedTitle: Option<string>, year: Option<int>)

  datatype Detection = AsPoster(poster: PosterFields) | AsQuality(quality: QualityFields) | AsNoise

  datatype ParsedQuality = ParsedQuality(
    messageId: MessageId, resolution: string, rawCaption: string, rawTitle: Option<string>,
    normalizedTitle: Option<string>, year: Option<int>, confidence: int)

  datatype Diagnostic =
    | DuplicateReplaced(resolution: string, oldId: MessageId, newId: MessageId)
    | DuplicateIgnored(resolution: string, id: MessageId)
    | AmbiguousQuality(id: MessageId, score: int)
    | RejectedQuality(id: MessageId, score: int)

  datatype GroupStatus = GroupIndexed | GroupAmbiguous | GroupOrphan

  datatype GroupBuilder = GroupBuilder(
    posterId: MessageId, rawPosterCaption: string, poster: PosterFields,
    qualities: map<string, ParsedQuality>, diagnostics: seq<Diagnostic>,
    ambiguous: nat, sincePoster: nat, noise: nat)

  datatype ParsedMovieGroup = ParsedMovieGroup(
    posterId: MessageId, rawPosterCaption: string, poster: PosterFields, status: GroupStatus,
    qualities: map<string, ParsedQuality>, diagnostics: seq<Diagnostic>)

  // What a full pass has produced so far: the groups already yielded and the group still open.
  datatype Cursor = Cursor(groups: seq<ParsedMovieGroup>, current: Option<GroupBuilder>)

  // The same pass seen by a reader who wants the first group only.
  datatype Scan = Idle | Open(b: GroupBuilder) | Done(b: GroupBuilder)

  type Limit = Option<nat>

  datatype ParseOutcome = Complete | OutOfOrder | BadLimit

  predicate YearsConflict(a: Option<int>, b: Option<int>) {
    a.Some? && b.Some? && a.value != b.value
  }

  /** A deque of bounded length keeps its last entries. */
  function KeepLast<T>(s: seq<T>, limit: Limit): (r: seq<T>) {
    if limit.Some? && |s| > limit.value then s[|s| - limit.value..] else s
  }

  function NewBuilder(m: Message, f: PosterFields): GroupBuilder {
    GroupBuilder(m.id, m.content.CaptionText(), f, map[], [], 0, 0, 0)
  }

  function Finalize(b: GroupBuilder): ParsedMovieGroup {
    var status :=
      if b.qualities != map[] then GroupIndexed
      else if b.ambiguous > 0 then GroupAmbiguous
      else GroupOrphan;
    ParsedMovieGroup(b.posterId, b.rawPosterCaption, b.poster, status, b.qualities, b.diagnostics)
  }

  /** The generator's output once the stream ends. */
  function Closing(c: Cursor): seq<ParsedMovieGroup> {
    if c.current.Some? then c.groups + [Finalize(c.current.value)] else c.groups
  }

  function First(s: Scan): Option<ParsedMovieGroup> {
    if s.Idle? then None else Some(Finalize(s.b))
  }

  datatype Parser = Parser(
    maxNoise: nat,
    posterOf: string -> Option<PosterFields>,
    qualityOf: string -> Option<QualityFields>,
    similarity: (string, string) -> real)
  {
    function Detect(c: Content): Detection {
      var caption := c.CaptionText();
      if caption == "" then AsNoise
      else if c.kind.Photo? then
        var f := posterOf(caption);
        if f.Some? then AsPoster(f.value) else AsNoise
      else if c.kind.Video? || c.kind.Document? then
        var f := qualityOf(caption);
        if f.Some? then AsQuality(f.value) else AsNoise
      else AsNoise
    }

    /** Distance and title similarity move the score but never across the acceptance threshold. */
    function Score(poster: PosterFields, quality: QualityFields, distance: nat): (score: int)
      ensures 0 < score <= 100
      ensures score >= ACCEPT_THRESHOLD <==> !YearsConflict(poster.year, quality.year)
    {
      var far := if distance > 1 then Min((distance - 1) * 5, 20) else 0;
      var year :=
        if poster.year.Some? && quality.year.Some? then
          if poster.year == quality.year then 10 else -35
        else 0;
      var title :=
        if poster.normalizedTitle != "" && quality.normalizedTitle.Some? then
          var ratio := similarity(poster.normalizedTitle, quality.normalizedTitle.value);
          if ratio >= 0.90 then 10 else if ratio >= 0.70 then 6 else if ratio >= 0.50 then 3 else 0
        else 0;
      Max(0, Min(100, 80 - far + year + title))
    }

    function Parsed(b: GroupBuilder, m: Message, q: QualityFields): ParsedQuality {
      ParsedQuality(m.id, q.resolution, m.content.CaptionText(), q.rawTitle, q.normalizedTitle, q.year,
                    Score(b.poster, q, b.sincePoster + 1))
    }

    function AddQuality(b: GroupBuilder, m: Message, q: QualityFields, limit: Limit): GroupBuilder {
      var item := Parsed(b, m, q);
      var b := b.(sincePoster := b.sincePoster + 1);
      if item.confidence >= ACCEPT_THRESHOLD then
        if q.resolution !in b.qualities then
          b.(qualities := b.qualities[q.resolution := item], noise := 0)
        else
          var previous := b.qualities[q.resolution];
          if item.messageId > previous.messageId then
            b.(qualities := b.qualities[q.resolution := item], noise := 0,
               diagnostics := KeepLast(
                 b.diagnostics + [DuplicateReplaced(q.resolution, previous.messageId, m.id)], limit))
          else
            b.(noise := 0,
               diagnostics := KeepLast(b.diagnostics + [DuplicateIgnored(q.resolution, m.id)], limit))
      else if item.confidence >= AMBIGUOUS_THRESHOLD then
        b.(ambiguous := b.ambiguous + 1,
           diagnostics := KeepLast(b.diagnostics + [AmbiguousQuality(m.id, item.confidence)], limit))
      else
        b.(diagnostics := KeepLast(b.diagnostics + [RejectedQuality(m.id, item.confidence)], limit))
    }

    function AddNoise(b: GroupBuilder): GroupBuilder {
      b.(sincePoster := b.sincePoster + 1, noise := b.noise + 1)
    }

    function Advance(c: Cursor, m: Message, limit: Limit): Cursor {
      match Detect(m.content)
      case AsPoster(f) =>
        Cursor(if c.current.Some? then c.groups + [Finalize(c.current.value)] else c.groups,
               Some(NewBuilder(m, f)))
      case AsQuality(q) =>
        if c.current.None? then c else c.(current := Some(AddQuality(c.current.value, m, q, limit)))
      case AsNoise =>
        if c.current.None? then c else
        var b := AddNoise(c.current.value);
        if b.noise > maxNoise then Cursor(c.groups + [Finalize(b)], None) else c.(current := Some(b))
    }

    // A full pass over the first n messages.
    function Read(ms: seq<Message>, n: nat, limit: Limit): Cursor
      requires n <= |ms|
    {
      if n == 0 then Cursor([], None) else Advance(Read(ms, n - 1, limit), ms[n - 1], limit)
    }

    /** The groups of one full pass over a stream. */
    function Parse(ms: seq<Message>): seq<ParsedMovieGroup> {
      Closing(Read(ms, |ms|, None))
    }

    function Feed(s: Scan, m: Message, limit: Limit): Scan {
      if s.Done? then s else
      match Detect(m.content)
      case AsPoster(f) => if s.Idle? then Open(NewBuilder(m, f)) else Done(s.b)
      case AsQuality(q) => if s.Idle? then s else Open(AddQuality(s.b, m, q, limit))
      case AsNoise =>
        if s.Idle? then s else
        var b := AddNoise(s.b);
        if b.noise > maxNoise then Done(b) else Open(b)
    }

    // A scan of messages j to n.
    function ScanSlice(ms: seq<Message>, j: nat, n: nat, limit: Limit): Scan
      requires n <= |ms|
    {
      if n <= j then Idle else Feed(ScanSlice(ms, j, n - 1, limit), ms[n - 1], limit)
    }

    /** The whole generator, run to its end or to the first message out of order. */
    method IterGroups(ms: seq<Message>, limit: Limit) returns (groups: seq<ParsedMovieGroup>, outcome: ParseOutcome)
      ensures outcome == if limit == Some(0) then BadLimit else if Ascending(ms) then Complete else OutOfOrder
      ensures outcome.Complete? ==> groups == Closing(Read(ms, |ms|, limit))
      ensures outcome.OutOfOrder? ==> exists k :: 0 < k < |ms| && Ascending(ms[..k]) && ms[k].id <= ms[k - 1].id
                                       && groups == Read(ms, k, limit).groups
    {
      hide AddQuality, Detect, Finalize;
      groups := [];
      if limit == Some(0) {
        return groups, BadLimit;
      }
      var current: Option<GroupBuilder> := None;
      var previousId: int := 0;
      var i := 0;
      while i < |ms|
        invariant 0 <= i <= |ms|
        invariant forall a, b :: 0 <= a < b < i ==> ms[a].id < ms[b].id
        invariant previousId == if i == 0 then 0 else ms[i - 1].id
        invariant Cursor(groups, current) == Read(ms, i, limit)
      {
        var m := ms[i];
        if m.id <= previousId {
          assert i > 0 && Ascending(ms[..i]);
          return groups, OutOfOrder;
        }
        previousId := m.id;
        match Detect(m.content) {
          case AsPoster(f) =>
            if current.Some? {
              groups := groups + [Finalize(current.value)];
            }
            current := Some(NewBuilder(m, f));
          case AsQuality(q) =>
            if current.Some? {
              current := Some(AddQuality(current.value, m, q, limit));
            }
          case AsNoise =>
            if current.Some? {
              var b := AddNoise(current.value);
              current := Some(b);
              if b.noise > maxNoise {
                groups := groups + [Finalize(b)];
                current := None;
              }
            }
        }
        i := i + 1;
      }
      if current.Some? {
        groups := groups + [Finalize(current.value)];
      }
      outcome := Complete;
    }

    /** The generator asked for one group: reading stops when that group closes. */
    method NextGroup(ms: seq<Message>, limit: Limit) returns (group: Option<ParsedMovieGroup>)
      requires Ascending(ms)
      ensures group == First(ScanSlice(ms, 0, |ms|, limit))
    {
      hide AddQuality, Detect, Finalize;
      var current: Option<GroupBuilder> := None;
      var i := 0;
      while i < |ms|
        invariant 0 <= i <= |ms|
        invariant ScanSlice(ms, 0, i, limit) == if current.None? then Idle else Open(current.value)
      {
        var m := ms[i];
        match Detect(m.content) {
          case AsPoster(f) =>
            if current.Some? {
              DoneStays(ms, 0, i + 1, |ms|, limit);
              return Some(Finalize(current.value));
            }
            current := Some(NewBuilder(m, f));
          case AsQuality(q) =>
            if current.Some? {
              current := Some(AddQuality(current.value, m, q, limit));
            }
          case AsNoise =>
            if current.Some? {
              var b := AddNoise(current.value);
              if b.noise > maxNoise {
                DoneStays(ms, 0, i + 1, |ms|, limit);
                return Some(Finalize(b));
              }
              current := Some(b);
            }
        }
        i := i + 1;
      }
      group := if current.Some? then Some(Finalize(current.value)) else None;
    }

    /** A closed group does not depend on what follows it. */
    lemma {:induction false} DoneStays(ms: seq<Message>, j: nat, i: nat, n: nat, limit: Limit)
      requires i <= n <= |ms| && ScanSlice(ms, j, i, limit).Done?
      ensures ScanSlice(ms, j, n, limit) == ScanSlice(ms, j, i, limit)
    {
      if i < n {
        DoneStays(ms, j, i, n - 1, limit);
      }
    }
  }
}
