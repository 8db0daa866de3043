/** What the parser keeps of the recorded messages from a poster on, said without running it: how far a message is from
    the poster, how long nothing useful has come, where the group ends. */
module ArchiveEvidence {
  import opened Wrappers
  import opened Archive
  import opened ArchiveParser
  import opened ArchiveIndex

  function At(par: Parser, snaps: Snapshots, id: MessageId): Detection
    requires id in snaps
  {
    par.Detect(Evidence(id, snaps[id]).content)
  }

  predicate PosterAt(par: Parser, snaps: Snapshots, id: MessageId) {
    id in snaps && At(par, snaps, id).AsPoster?
  }

  /** A quality message whose year does not contradict the poster's. */
  predicate Fits(par: Parser, snaps: Snapshots, p: MessageId, id: MessageId)
    requires PosterAt(par, snaps, p)
  {
    && id in snaps && At(par, snaps, id).AsQuality?
    && !YearsConflict(At(par, snaps, p).poster.year, At(par, snaps, id).quality.year)
  }

  /** The number of recorded messages after p, up to an id. */
  function Distance(snaps: Snapshots, p: MessageId, id: int): nat
    requires id < MAX_ID
  {
    if id <= p then 0 else Distance(snaps, p, id - 1) + if id in snaps then 1 else 0
  }

  /** The number of noise messages below n since the last fitting quality, or since the poster. */
  function Silence(par: Parser, snaps: Snapshots, p: MessageId, n: int): nat
    requires PosterAt(par, snaps, p) && n <= MAX_ID
  {
    if n <= p + 1 then 0
    else if n - 1 in snaps && Fits(par, snaps, p, n - 1) then 0
    else Silence(par, snaps, p, n - 1) + if n - 1 in snaps && At(par, snaps, n - 1).AsNoise? then 1 else 0
  }

  /** Below n the group has ended: with another poster, or with too many noise messages. */
  predicate Ended(par: Parser, snaps: Snapshots, p: MessageId, n: int)
    requires PosterAt(par, snaps, p) && n <= MAX_ID
  {
    n > p + 1 && (Ended(par, snaps, p, n - 1)
                  || PosterAt(par, snaps, n - 1)
                  || (n - 1 in snaps && At(par, snaps, n - 1).AsNoise? && Silence(par, snaps, p, n) > par.maxNoise))
  }

  /** A fitting quality read before the group ends. */
  predicate Taken(par: Parser, snaps: Snapshots, p: MessageId, id: MessageId)
    requires PosterAt(par, snaps, p)
  {
    p < id && Fits(par, snaps, p, id) && !Ended(par, snaps, p, id)
  }

  /** Below n, id is the newest message taken for its resolution. */
  ghost predicate Newest(par: Parser, snaps: Snapshots, p: MessageId, n: int, r: string, id: MessageId)
    requires PosterAt(par, snaps, p)
  {
    && id < n && Taken(par, snaps, p, id) && At(par, snaps, id).quality.resolution == r
    && !Superseded(par, snaps, p, n, r, id)
  }

  /** A later message below n is taken for the resolution. */
  ghost predicate Superseded(par: Parser, snaps: Snapshots, p: MessageId, n: int, r: string, id: MessageId)
    requires PosterAt(par, snaps, p)
  {
    exists j: MessageId :: id < j < n && Taken(par, snaps, p, j) && At(par, snaps, j).quality.resolution == r
  }

  /** What the parser makes of a message it takes. */
  function Item(par: Parser, snaps: Snapshots, p: MessageId, id: MessageId): ParsedQuality
    requires PosterAt(par, snaps, p) && Fits(par, snaps, p, id)
  {
    var q := At(par, snaps, id).quality;
    ParsedQuality(id, q.resolution, Evidence(id, snaps[id]).content.CaptionText(), q.rawTitle, q.normalizedTitle,
                  q.year,
                  par.Score(At(par, snaps, p).poster, q, Distance(snaps, p, id)))
  }

  // ---- The scan ---------------------------------------------------------------------------

  ghost predicate KeepsAll(par: Parser, snaps: Snapshots, p: MessageId, n: int, kept: map<string, ParsedQuality>)
    requires PosterAt(par, snaps, p)
  {
    forall r, id: MessageId :: Newest(par, snaps, p, n, r, id) ==> HasItem(par, snaps, p, kept, r, id)
  }

  ghost predicate HasItem(par: Parser, snaps: Snapshots, p: MessageId, kept: map<string, ParsedQuality>, r: string,
                          id: MessageId)
    requires PosterAt(par, snaps, p)
  {
    r in kept && Fits(par, snaps, p, id) && kept[r] == Item(par, snaps, p, id)
  }

  ghost predicate KeepsOnly(par: Parser, snaps: Snapshots, p: MessageId, n: int, kept: map<string, ParsedQuality>)
    requires PosterAt(par, snaps, p)
  {
    forall r :: r in kept ==> Newest(par, snaps, p, n, r, kept[r].messageId)
  }

  /** These are exactly the newest messages taken, one per resolution. */
  ghost predicate KeepsNewest(par: Parser, snaps: Snapshots, p: MessageId, n: int, kept: map<string, ParsedQuality>)
    requires PosterAt(par, snaps, p)
  {
    KeepsAll(par, snaps, p, n, kept) && KeepsOnly(par, snaps, p, n, kept)
  }

  ghost predicate Describes(par: Parser, snaps: Snapshots, p: MessageId, n: int, s: Scan)
    requires PosterAt(par, snaps, p) && p < n <= MAX_ID
  {
    && !s.Idle? && s.b.posterId == p && s.b.poster == At(par, snaps, p).poster
    && (s.Done? <==> Ended(par, snaps, p, n))
    && (s.Open? ==> s.b.sincePoster == Distance(snaps, p, n - 1) && s.b.noise == Silence(par, snaps, p, n))
    && KeepsNewest(par, snaps, p, n, s.b.qualities)
  }

  lemma PosterDescribed(par: Parser, snaps: Snapshots, p: MessageId)
    requires PosterAt(par, snaps, p)
    ensures Describes(par, snaps, p, p + 1, ScanTo(par, snaps, p, p + 1))
  {
    hide ArchiveParser.Parser.Detect;
    assert ScanTo(par, snaps, p, p) == Idle;
  }

  // Nothing new is taken at n.
  lemma NothingTaken(par: Parser, snaps: Snapshots, p: MessageId, n: MessageId, kept: map<string, ParsedQuality>)
    requires PosterAt(par, snaps, p) && KeepsNewest(par, snaps, p, n, kept) && !Taken(par, snaps, p, n)
    ensures KeepsNewest(par, snaps, p, n + 1, kept)
  {
    hide Ended, ArchiveParser.Parser.Detect, ArchiveParser.Parser.Score;
    forall r, id: MessageId | Newest(par, snaps, p, n + 1, r, id)
      ensures HasItem(par, snaps, p, kept, r, id)
    {
      SupersededLater(par, snaps, p, n, r, id);
      assert Newest(par, snaps, p, n, r, id);
    }
    forall r | r in kept
      ensures Newest(par, snaps, p, n + 1, r, kept[r].messageId)
    {
      SupersededLater(par, snaps, p, n, r, kept[r].messageId);
      assert Newest(par, snaps, p, n, r, kept[r].messageId);
    }
  }

  lemma SupersededLater(par: Parser, snaps: Snapshots, p: MessageId, n: MessageId, r: string, id: MessageId)
    requires PosterAt(par, snaps, p)
    ensures Superseded(par, snaps, p, n + 1, r, id)
            <==> Superseded(par, snaps, p, n, r, id)
                 || (id < n && Taken(par, snaps, p, n) && At(par, snaps, n).quality.resolution == r)
  {
    hide Taken, At;
  }

  lemma OneTaken(par: Parser, snaps: Snapshots, p: MessageId, n: MessageId, kept: map<string, ParsedQuality>)
    requires PosterAt(par, snaps, p) && KeepsNewest(par, snaps, p, n, kept) && Taken(par, snaps, p, n)
    ensures KeepsNewest(par, snaps, p, n + 1, kept[At(par, snaps, n).quality.resolution := Item(par, snaps, p, n)])
  {
    hide Ended, ArchiveParser.Parser.Detect, ArchiveParser.Parser.Score;
    var q := At(par, snaps, n).quality.resolution;
    var kept' := kept[q := Item(par, snaps, p, n)];
    forall r, id: MessageId | Newest(par, snaps, p, n + 1, r, id)
      ensures HasItem(par, snaps, p, kept', r, id)
    {
      SupersededLater(par, snaps, p, n, r, id);
      if r != q {
        assert Newest(par, snaps, p, n, r, id);
      } else {
        assert id == n;
      }
    }
    forall r | r in kept'
      ensures Newest(par, snaps, p, n + 1, r, kept'[r].messageId)
    {
      if r == q {
        assert kept'[r].messageId == n;
      } else {
        assert Newest(par, snaps, p, n, r, kept[r].messageId);
      }
      SupersededLater(par, snaps, p, n, r, kept'[r].messageId);
    }
  }

  lemma {:induction false} ScanDescribed(par: Parser, snaps: Snapshots, p: MessageId, n: int)
    requires PosterAt(par, snaps, p) && p < n <= MAX_ID
    ensures Describes(par, snaps, p, n, ScanTo(par, snaps, p, n))
    decreases n
  {
    hide Describes, ScanTo, PosterAt;
    if n == p + 1 {
      PosterDescribed(par, snaps, p);
    } else {
      ScanDescribed(par, snaps, p, n - 1);
      StepDescribed(par, snaps, p, n - 1, ScanTo(par, snaps, p, n - 1));
      NextScan(par, snaps, p, n - 1);
    }
  }

  lemma NextScan(par: Parser, snaps: Snapshots, p: MessageId, n: MessageId)
    requires p < n
    ensures ScanTo(par, snaps, p, n + 1) == Fed(par, snaps, n, ScanTo(par, snaps, p, n))
  {
  }

  function Fed(par: Parser, snaps: Snapshots, n: MessageId, s: Scan): Scan {
    if n in snaps then par.Feed(s, Evidence(n, snaps[n]), DIAGNOSTIC_TAIL) else s
  }

  lemma StepDescribed(par: Parser, snaps: Snapshots, p: MessageId, n: MessageId, s: Scan)
    requires PosterAt(par, snaps, p) && p < n && Describes(par, snaps, p, n, s)
    ensures Describes(par, snaps, p, n + 1, Fed(par, snaps, n, s))
  {
    hide KeepsNewest, ArchiveParser.Parser.Detect, ArchiveParser.Parser.Score;
    if Taken(par, snaps, p, n) {
      KeptEarlier(par, snaps, p, n, s.b.qualities);
      OneTaken(par, snaps, p, n, s.b.qualities);
    } else {
      NothingTaken(par, snaps, p, n, s.b.qualities);
    }
  }

  lemma KeptEarlier(par: Parser, snaps: Snapshots, p: MessageId, n: int, kept: map<string, ParsedQuality>)
    requires PosterAt(par, snaps, p) && KeepsNewest(par, snaps, p, n, kept)
    ensures forall r :: r in kept ==> kept[r].messageId < n
  {
    hide Taken, Superseded;
  }
}
