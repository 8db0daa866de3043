/** What the streaming parser computes, said without running it: which quality messages belong to
    a poster, when a group is over, and how much of the stream a group depends on. */
module ParserSpecification {
  import opened Wrappers
  import opened Archive
  import opened ArchiveParser

  /** A stretch of the archive: a poster followed by messages that are not posters. */
  ghost predicate Stretch(par: Parser, w: seq<Message>) {
    && w != []
    && Ascending(w)
    && par.Detect(w[0].content).AsPoster?
    && forall i :: 0 < i < |w| ==> !par.Detect(w[i].content).AsPoster?
  }

  ghost function PosterOf(par: Parser, w: seq<Message>): PosterFields
    requires Stretch(par, w)
  {
    par.Detect(w[0].content).poster
  }

  ghost predicate IsQuality(par: Parser, w: seq<Message>, i: int) {
    0 < i < |w| && par.Detect(w[i].content).AsQuality?
  }

  /** A quality message whose year does not contradict the poster's. */
  ghost predicate Compatible(par: Parser, w: seq<Message>, i: int)
    requires Stretch(par, w)
  {
    IsQuality(par, w, i) && !YearsConflict(PosterOf(par, w).year, par.Detect(w[i].content).quality.year)
  }

  /** The number of noise messages at positions a < i <= b. */
  ghost function NoiseIn(par: Parser, w: seq<Message>, a: nat, b: nat): nat
    requires b < |w|
  {
    if b <= a then 0
    else NoiseIn(par, w, a, b - 1) + if par.Detect(w[b].content).AsNoise? then 1 else 0
  }

  ghost predicate Gap(par: Parser, w: seq<Message>, a: nat, b: nat)
    requires Stretch(par, w)
  {
    && a < b < |w|
    && (forall i :: a < i <= b ==> !Compatible(par, w, i))
    && NoiseIn(par, w, a, b) > par.maxNoise
  }

  /** Some run of messages before position n holds too much noise and no compatible quality. */
  ghost predicate Interrupted(par: Parser, w: seq<Message>, n: nat)
    requires Stretch(par, w)
  {
    exists a: nat, b: nat :: b < n && Gap(par, w, a, b)
  }

  ghost predicate Accepted(par: Parser, w: seq<Message>, i: int)
    requires Stretch(par, w)
  {
    Compatible(par, w, i) && !Interrupted(par, w, i)
  }

  ghost function Entry(par: Parser, w: seq<Message>, i: nat): ParsedQuality
    requires Stretch(par, w) && IsQuality(par, w, i)
  {
    var q := par.Detect(w[i].content).quality;
    ParsedQuality(w[i].id, q.resolution, w[i].content.CaptionText(), q.rawTitle, q.normalizedTitle, q.year,
                  par.Score(PosterOf(par, w), q, i))
  }

  /** A quality read while the group was open, refused for its year, but not by far. */
  ghost predicate NearMiss(par: Parser, w: seq<Message>, i: int)
    requires Stretch(par, w)
  {
    && IsQuality(par, w, i) && !Compatible(par, w, i) && !Interrupted(par, w, i)
    && Entry(par, w, i).confidence >= 40
  }

  /** What each position contributes to the group, if anything. */
  ghost function Contributions(par: Parser, w: seq<Message>): (items: seq<Option<ParsedQuality>>)
    requires Stretch(par, w)
    ensures |items| == |w|
    ensures forall i :: 0 <= i < |w| ==>
                          items[i] == if Accepted(par, w, i) then Some(Entry(par, w, i)) else None
  {
    seq(|w|, i requires 0 <= i < |w| => if Accepted(par, w, i) then Some(Entry(par, w, i)) else None)
  }

  /** Position i holds the newest contribution of resolution r among the first n. */
  ghost predicate Newest(items: seq<Option<ParsedQuality>>, n: nat, r: string, i: int)
    requires n <= |items|
  {
    && 0 <= i < n && items[i].Some? && items[i].value.resolution == r
    && forall j :: i < j < n && items[j].Some? ==> items[j].value.resolution != r
  }

  ghost predicate HoldsNewest(items: seq<Option<ParsedQuality>>, n: nat, kept: map<string, ParsedQuality>)
    requires n <= |items|
  {
    && (forall r :: r in kept ==> exists i :: Newest(items, n, r, i) && kept[r] == items[i].value)
    && (forall i :: 0 <= i < n && items[i].Some? ==> items[i].value.resolution in kept)
  }

  ghost predicate LastReset(par: Parser, w: seq<Message>, n: nat, a: nat)
    requires Stretch(par, w)
  {
    && a < n
    && (a == 0 || Compatible(par, w, a))
    && forall i :: a < i < n ==> !Compatible(par, w, i)
  }

  // The scan after the first n messages, in terms of the stretch alone.
  ghost predicate Describes(par: Parser, w: seq<Message>, n: nat, s: Scan)
    requires Stretch(par, w) && 0 < n <= |w|
  {
    && !s.Idle?
    && s.b.posterId == w[0].id && s.b.poster == PosterOf(par, w)
    && s.b.rawPosterCaption == w[0].content.CaptionText()
    && (s.Done? <==> Interrupted(par, w, n))
    && HoldsNewest(Contributions(par, w), n, s.b.qualities)
    && (s.b.ambiguous > 0 <==> exists i :: i < n && NearMiss(par, w, i))
    && (s.Open? ==>
          && s.b.sincePoster == n - 1
          && s.b.noise <= par.maxNoise
          && exists a :: LastReset(par, w, n, a) && s.b.noise == NoiseIn(par, w, a, n - 1))
  }

  lemma {:induction false} NoiseFromLater(par: Parser, w: seq<Message>, a: nat, a': nat, b: nat)
    requires b < |w| && a <= a'
    ensures NoiseIn(par, w, a', b) <= NoiseIn(par, w, a, b)
  {
    if b > a {
      NoiseFromLater(par, w, a, a', b - 1);
    }
  }

  lemma {:induction false} ScanDescribed(par: Parser, w: seq<Message>, n: nat)
    requires Stretch(par, w) && 0 < n <= |w|
    ensures Describes(par, w, n, par.ScanSlice(w, 0, n, None))
  {
    hide Describes, Stretch, Interrupted;
    if n == 1 {
      PosterDescribed(par, w);
      FirstRead(par, w);
    } else {
      ScanDescribed(par, w, n - 1);
      var s := par.ScanSlice(w, 0, n - 1, None);
      DescribedState(par, w, n - 1, s);
      NextRead(par, w, n);
      if s.Done? {
        StillInterrupted(par, w, n - 1, s);
      } else {
        StepDescribed(par, w, n - 1, s);
      }
    }
  }

  lemma FirstRead(par: Parser, w: seq<Message>)
    requires Stretch(par, w)
    ensures par.ScanSlice(w, 0, 1, None) == Open(NewBuilder(w[0], PosterOf(par, w)))
  {
    assert par.ScanSlice(w, 0, 0, None) == Idle;
  }

  lemma NextRead(par: Parser, w: seq<Message>, n: nat)
    requires 0 < n <= |w|
    ensures var s := par.ScanSlice(w, 0, n - 1, None);
            par.ScanSlice(w, 0, n, None) == if s.Done? then s else par.Feed(s, w[n - 1], None)
  {
  }

  lemma DescribedState(par: Parser, w: seq<Message>, n: nat, s: Scan)
    requires Stretch(par, w) && 0 < n <= |w| && Describes(par, w, n, s)
    ensures !s.Idle? && (s.Done? <==> Interrupted(par, w, n))
  {
  }

  lemma PosterDescribed(par: Parser, w: seq<Message>)
    requires Stretch(par, w)
    ensures Describes(par, w, 1, Open(NewBuilder(w[0], PosterOf(par, w))))
  {
    assert LastReset(par, w, 1, 0) && NoiseIn(par, w, 0, 0) == 0;
  }

  lemma StillInterrupted(par: Parser, w: seq<Message>, n: nat, s: Scan)
    requires Stretch(par, w) && 0 < n < |w| && Interrupted(par, w, n)
    requires Describes(par, w, n, s)
    ensures Describes(par, w, n + 1, s)
  {
    assert Interrupted(par, w, n + 1) by {
      var a: nat, b: nat :| b < n && Gap(par, w, a, b);
      assert b < n + 1;
    }
    NewestGrows(Contributions(par, w), n, s.b.qualities);
  }

  lemma StepDescribed(par: Parser, w: seq<Message>, n: nat, s: Scan)
    requires Stretch(par, w) && 0 < n < |w|
    requires s.Open? && Describes(par, w, n, s)
    ensures Describes(par, w, n + 1, par.Feed(s, w[n], None))
  {
    hide HoldsNewest, LastReset, Interrupted, Newest;
    NewestGrows(Contributions(par, w), n, s.b.qualities);
    var t := par.Feed(s, w[n], None);
    if Compatible(par, w, n) {
      KeptEarlier(par, w, n, s.b.qualities, Entry(par, w, n).resolution);
      StepAccepted(par, w, n, s, t);
    } else {
      StepRefused(par, w, n, s, t);
    }
  }

  // What is kept was read before.
  lemma KeptEarlier(par: Parser, w: seq<Message>, n: nat, kept: map<string, ParsedQuality>, r: string)
    requires Stretch(par, w) && n < |w| && HoldsNewest(Contributions(par, w), n, kept)
    ensures r in kept ==> kept[r].messageId < w[n].id
  {
    if r in kept {
      var i :| Newest(Contributions(par, w), n, r, i) && kept[r] == Contributions(par, w)[i].value;
      assert w[i].id < w[n].id;
    }
  }

  ghost predicate SamePoster(b: GroupBuilder, c: GroupBuilder) {
    b.posterId == c.posterId && b.poster == c.poster && b.rawPosterCaption == c.rawPosterCaption
  }

  lemma StepAccepted(par: Parser, w: seq<Message>, n: nat, s: Scan, t: Scan)
    requires Stretch(par, w) && 0 < n < |w|
    requires s.Open? && Describes(par, w, n, s) && Compatible(par, w, n)
    requires t.Open? && SamePoster(t.b, s.b)
    requires HoldsNewest(Contributions(par, w), n + 1, t.b.qualities)
    requires t.b.ambiguous == s.b.ambiguous && t.b.sincePoster == n && t.b.noise == 0
    ensures Describes(par, w, n + 1, t)
  {
    var a :| LastReset(par, w, n, a) && s.b.noise == NoiseIn(par, w, a, n - 1);
    GapEndsHere(par, w, n, a);
    assert LastReset(par, w, n + 1, n) && NoiseIn(par, w, n, n) == 0;
  }

  lemma StepRefused(par: Parser, w: seq<Message>, n: nat, s: Scan, t: Scan)
    requires Stretch(par, w) && 0 < n < |w|
    requires s.Open? && Describes(par, w, n, s) && !Compatible(par, w, n)
    requires !t.Idle? && SamePoster(t.b, s.b)
    requires HoldsNewest(Contributions(par, w), n + 1, t.b.qualities)
    requires t.b.ambiguous == s.b.ambiguous + if NearMiss(par, w, n) then 1 else 0
    requires t.b.sincePoster == n
    requires t.b.noise == s.b.noise + if IsQuality(par, w, n) then 0 else 1
    requires t.Done? <==> t.b.noise > par.maxNoise
    ensures Describes(par, w, n + 1, t)
  {
    var a :| LastReset(par, w, n, a) && s.b.noise == NoiseIn(par, w, a, n - 1);
    GapEndsHere(par, w, n, a);
    assert LastReset(par, w, n + 1, a);
  }

  // A gap that ends at position n is contained in the one that starts at the last reset.
  lemma GapEndsHere(par: Parser, w: seq<Message>, n: nat, a: nat)
    requires Stretch(par, w) && 0 < n < |w|
    requires LastReset(par, w, n, a) && !Interrupted(par, w, n)
    ensures Interrupted(par, w, n + 1) <==> !Compatible(par, w, n) && NoiseIn(par, w, a, n) > par.maxNoise
  {
    if Interrupted(par, w, n + 1) {
      var a': nat, b: nat :| b < n + 1 && Gap(par, w, a', b);
      assert b == n;
      assert a <= a';
      NoiseFromLater(par, w, a, a', n);
    }
    if !Compatible(par, w, n) && NoiseIn(par, w, a, n) > par.maxNoise {
      assert Gap(par, w, a, n);
    }
  }

  lemma NewestGrows(items: seq<Option<ParsedQuality>>, n: nat, kept: map<string, ParsedQuality>)
    requires n < |items|
    requires HoldsNewest(items, n, kept)
    ensures HoldsNewest(items, n + 1,
                        if items[n].Some? then kept[items[n].value.resolution := items[n].value] else kept)
  {
    var kept' := if items[n].Some? then kept[items[n].value.resolution := items[n].value] else kept;
    forall r | r in kept'
      ensures exists i :: Newest(items, n + 1, r, i) && kept'[r] == items[i].value
    {
      if items[n].Some? && r == items[n].value.resolution {
        assert Newest(items, n + 1, r, n);
      } else {
        var i :| Newest(items, n, r, i) && kept[r] == items[i].value;
        assert Newest(items, n + 1, r, i);
      }
    }
  }

  /** The group of a stretch: its messages are exactly the newest accepted one per resolution, each
      scored by its distance from the poster, and its status says whether any was kept or nearly kept. */
  lemma GroupSpecification(par: Parser, w: seq<Message>)
    requires Stretch(par, w)
    ensures var s := par.ScanSlice(w, 0, |w|, None);
            var items := Contributions(par, w);
            && First(s).Some?
            && var g := First(s).value;
            && g.posterId == w[0].id && g.poster == PosterOf(par, w)
            && g.rawPosterCaption == w[0].content.CaptionText()
            && (forall r :: r in g.qualities <==> exists i :: Newest(items, |w|, r, i))
            && (forall r, i :: Newest(items, |w|, r, i) ==> r in g.qualities && g.qualities[r] == items[i].value)
            && (g.status.GroupIndexed? <==> exists i :: Accepted(par, w, i))
            && (g.status.GroupAmbiguous? <==> (!exists i :: Accepted(par, w, i)) && exists i :: NearMiss(par, w, i))
            && (s.Done? <==> Interrupted(par, w, |w|))
  {
    ScanDescribed(par, w, |w|);
    var g := First(par.ScanSlice(w, 0, |w|, None)).value;
    var items := Contributions(par, w);
    KeptAreNewest(items, g.qualities);
    assert g.qualities != map[] <==> exists r :: r in g.qualities;
    if i :| Accepted(par, w, i) {
      assert items[i].Some?;
    }
    if r :| r in g.qualities {
      var i :| Newest(items, |w|, r, i);
      assert Accepted(par, w, i);
    }
  }

  lemma KeptAreNewest(items: seq<Option<ParsedQuality>>, kept: map<string, ParsedQuality>)
    requires HoldsNewest(items, |items|, kept)
    ensures forall r, i :: Newest(items, |items|, r, i) ==> r in kept && kept[r] == items[i].value
  {
    forall r, i | Newest(items, |items|, r, i)
      ensures r in kept && kept[r] == items[i].value
    {
      var k :| Newest(items, |items|, r, k) && kept[r] == items[k].value;
      assert k == i;
    }
  }

  // ---- What the diagnostics say -----------------------------------------------------------

  /** What is noted about a message read while the group is open: a refused quality, near or far, with its score; or
      that it takes the place of an older one of its resolution. */
  ghost function Remark(par: Parser, w: seq<Message>, i: nat): seq<Diagnostic>
    requires Stretch(par, w) && i < |w|
  {
    if !IsQuality(par, w, i) || Interrupted(par, w, i) then []
    else
      var item := Entry(par, w, i);
      if !Compatible(par, w, i) then
        [if item.confidence >= 40 then AmbiguousQuality(item.messageId, item.confidence)
         else RejectedQuality(item.messageId, item.confidence)]
      else if j: int :| Newest(Contributions(par, w), i, item.resolution, j) then
        [DuplicateReplaced(item.resolution, w[j].id, item.messageId)]
      else []
  }

  ghost function Remarks(par: Parser, w: seq<Message>, n: nat): seq<Diagnostic>
    requires Stretch(par, w) && n <= |w|
  {
    if n == 0 then [] else Remarks(par, w, n - 1) + Remark(par, w, n - 1)
  }

  lemma {:induction false} RemarksKept(par: Parser, w: seq<Message>, n: nat)
    requires Stretch(par, w) && 0 < n <= |w|
    ensures var s := par.ScanSlice(w, 0, n, None); !s.Idle? && s.b.diagnostics == Remarks(par, w, n)
  {
    hide Describes, Interrupted, Remark, Stretch;
    if n == 1 {
      FirstRead(par, w);
      NoRemark(par, w);
      assert Remarks(par, w, 0) == [];
    } else {
      var s := par.ScanSlice(w, 0, n - 1, None);
      RemarksKept(par, w, n - 1);
      ScanDescribed(par, w, n - 1);
      DescribedState(par, w, n - 1, s);
      NextRead(par, w, n);
      if s.Done? {
        NoRemarkAfter(par, w, n - 1);
      } else {
        RemarkAdded(par, w, n - 1, s);
      }
    }
  }

  lemma NoRemark(par: Parser, w: seq<Message>)
    requires Stretch(par, w)
    ensures Remark(par, w, 0) == []
  {
  }

  lemma NoRemarkAfter(par: Parser, w: seq<Message>, n: nat)
    requires Stretch(par, w) && n < |w| && Interrupted(par, w, n)
    ensures Remark(par, w, n) == []
  {
  }

  lemma RemarkAdded(par: Parser, w: seq<Message>, n: nat, s: Scan)
    requires Stretch(par, w) && 0 < n < |w| && s.Open? && Describes(par, w, n, s)
    ensures var t := par.Feed(s, w[n], None); !t.Idle? && t.b.diagnostics == s.b.diagnostics + Remark(par, w, n)
  {
    hide KeepLast, ArchiveParser.Parser.Detect, ArchiveParser.Parser.Score, Interrupted, LastReset, NoiseIn;
    forall x: Diagnostic
      ensures KeepLast(s.b.diagnostics + [x], None) == s.b.diagnostics + [x]
    {
      KeepLastNone(s.b.diagnostics + [x], None);
    }
    if Compatible(par, w, n) {
      var r := Entry(par, w, n).resolution;
      KeptEarlier(par, w, n, s.b.qualities, r);
      OneNewest(Contributions(par, w), n, s.b.qualities, r);
      forall j | Newest(Contributions(par, w), n, r, j)
        ensures Contributions(par, w)[j].value.messageId == w[j].id
      {
      }
    }
  }

  lemma OneNewest(items: seq<Option<ParsedQuality>>, n: nat, kept: map<string, ParsedQuality>, r: string)
    requires n <= |items| && HoldsNewest(items, n, kept)
    ensures r in kept <==> exists i :: Newest(items, n, r, i)
    ensures forall i :: Newest(items, n, r, i) ==> r in kept && kept[r] == items[i].value
  {
    if i :| Newest(items, n, r, i) {
      var k :| Newest(items, n, r, k) && kept[r] == items[k].value;
      assert k == i;
    }
  }

  /** A group notes, in order, every refused quality and every replaced one, and nothing else. */
  lemma DiagnosticsExactly(par: Parser, w: seq<Message>)
    requires Stretch(par, w)
    ensures var g := First(par.ScanSlice(w, 0, |w|, None)); g.Some? && g.value.diagnostics == Remarks(par, w, |w|)
  {
    hide Remarks, Stretch;
    assert |w| > 0 by { StretchLong(par, w); }
    RemarksKept(par, w, |w|);
  }

  lemma StretchLong(par: Parser, w: seq<Message>)
    requires Stretch(par, w)
    ensures |w| > 0
  {
  }

  // ---- Single messages --------------------------------------------------------------------

  /** A poster is a photo, a quality a video or a document, each with a caption in which its fields are found; all else
      is noise. */
  lemma DetectedExactly(par: Parser, c: Content)
    ensures par.Detect(c).AsPoster? <==>
            c.kind.Photo? && c.caption.Some? && c.caption.value != "" && par.posterOf(c.caption.value).Some?
    ensures par.Detect(c).AsPoster? ==> par.posterOf(c.caption.value) == Some(par.Detect(c).poster)
    ensures par.Detect(c).AsQuality? <==>
            && (c.kind.Video? || c.kind.Document?)
            && c.caption.Some? && c.caption.value != "" && par.qualityOf(c.caption.value).Some?
    ensures par.Detect(c).AsQuality? ==> par.qualityOf(c.caption.value) == Some(par.Detect(c).quality)
  {
  }

  /** A fitting quality no newer than the one held for its resolution is noted and ignored, but ends a run of noise. */
  lemma OlderIgnored(par: Parser, b: GroupBuilder, m: Message, q: QualityFields)
    requires q.resolution in b.qualities && m.id <= b.qualities[q.resolution].messageId
    requires !YearsConflict(b.poster.year, q.year)
    ensures par.AddQuality(b, m, q, None)
            == b.(sincePoster := b.sincePoster + 1, noise := 0,
                  diagnostics := b.diagnostics + [DuplicateIgnored(q.resolution, m.id)])
  {
    KeepLastNone(b.diagnostics + [DuplicateIgnored(q.resolution, m.id)], None);
  }

  // ---- Scores -----------------------------------------------------------------------------

  /** What the score is made of: 80 next to the poster, five less for each further message up to four; ten more if both
      years are known and agree, 35 less if they do not; and up to ten more for similar titles. */
  lemma ScoreLaws(par: Parser, poster: PosterFields, q: QualityFields, d: nat)
    ensures q.year.None? && q.normalizedTitle.None? ==> par.Score(poster, q, 1) == 80
    ensures par.Score(poster, q, 0) == par.Score(poster, q, 1)
    ensures d > 0 ==> par.Score(poster, q, d + 1) == par.Score(poster, q, d) - if d < 5 then 5 else 0
    ensures par.Score(poster, q, d) - par.Score(poster, q.(year := None), d)
            == if poster.year.None? || q.year.None? then 0 else if poster.year == q.year then 10 else -35
    ensures par.Score(poster, q, d) - par.Score(poster, q.(normalizedTitle := None), d)
            == if poster.normalizedTitle == "" || q.normalizedTitle.None? then 0
               else
                 var ratio := par.similarity(poster.normalizedTitle, q.normalizedTitle.value);
                 if ratio >= 0.9 then 10 else if ratio >= 0.7 then 6 else if ratio >= 0.5 then 3 else 0
  {
  }

  // ---- A group in a full pass -------------------------------------------------------------

  ghost predicate PosterAt(par: Parser, ms: seq<Message>, j: int) {
    0 <= j < |ms| && par.Detect(ms[j].content).AsPoster?
  }

  /** The number of posters among the first n messages. */
  ghost function PosterCount(par: Parser, ms: seq<Message>, n: nat): nat
    requires n <= |ms|
  {
    if n == 0 then 0 else PosterCount(par, ms, n - 1) + if PosterAt(par, ms, n - 1) then 1 else 0
  }

  /** Messages j to k are a poster and all that follows it up to the next poster or the end. */
  ghost predicate WholeStretch(par: Parser, ms: seq<Message>, j: nat, k: nat) {
    && j < k <= |ms| && PosterAt(par, ms, j)
    && (forall i :: j < i < k ==> !PosterAt(par, ms, i))
    && (k < |ms| ==> PosterAt(par, ms, k))
  }

  ghost function GroupsSoFar(c: Cursor): nat {
    |c.groups| + if c.current.Some? then 1 else 0
  }

  lemma {:induction false} GroupsMatchPosters(par: Parser, ms: seq<Message>, n: nat, limit: Limit)
    requires n <= |ms|
    ensures GroupsSoFar(par.Read(ms, n, limit)) == PosterCount(par, ms, n)
  {
    if n > 0 {
      GroupsMatchPosters(par, ms, n - 1, limit);
    }
  }

  // A full pass agrees with a scan that began when `base` groups had been counted.
  ghost predicate Follows(s: Scan, c: Cursor, base: nat) {
    && !s.Idle?
    && (s.Open? ==> c.current == Some(s.b) && |c.groups| == base)
    && (s.Done? ==> c.current.None? && |c.groups| == base + 1 && c.groups[base] == Finalize(s.b))
  }

  lemma AdvanceFollowsFeed(par: Parser, s: Scan, c: Cursor, base: nat, m: Message, limit: Limit)
    requires Follows(s, c, base) && !par.Detect(m.content).AsPoster?
    ensures Follows(par.Feed(s, m, limit), par.Advance(c, m, limit), base)
  {
  }

  // While its stretch is being read, a group is the one a scan of the stretch alone builds.
  lemma {:induction false} ReadFollowsScan(par: Parser, ms: seq<Message>, j: nat, k: nat, i: nat, limit: Limit)
    requires WholeStretch(par, ms, j, k) && j < i <= k
    ensures Follows(par.ScanSlice(ms, j, i, limit), par.Read(ms, i, limit), PosterCount(par, ms, j))
  {
    if i == j + 1 {
      GroupsMatchPosters(par, ms, j, limit);
    } else {
      ReadFollowsScan(par, ms, j, k, i - 1, limit);
      assert !PosterAt(par, ms, i - 1);
      AdvanceFollowsFeed(par, par.ScanSlice(ms, j, i - 1, limit), par.Read(ms, i - 1, limit),
                         PosterCount(par, ms, j), ms[i - 1], limit);
    }
  }

  ghost predicate Yielded(c: Cursor, n: nat, g: ParsedMovieGroup) {
    n < |c.groups| && c.groups[n] == g
  }

  lemma AdvanceKeepsYielded(par: Parser, c: Cursor, n: nat, g: ParsedMovieGroup, m: Message, limit: Limit)
    requires Yielded(c, n, g) || (par.Detect(m.content).AsPoster? && n < |Closing(c)| && Closing(c)[n] == g)
    ensures Yielded(par.Advance(c, m, limit), n, g)
  {
  }

  lemma {:induction false} YieldedStays(par: Parser, ms: seq<Message>, n: nat, g: ParsedMovieGroup, k: nat, i: nat,
                                        limit: Limit)
    requires k <= i <= |ms| && Yielded(par.Read(ms, k, limit), n, g)
    ensures Yielded(par.Read(ms, i, limit), n, g)
    decreases i
  {
    if k < i {
      YieldedStays(par, ms, n, g, k, i - 1, limit);
      AdvanceKeepsYielded(par, par.Read(ms, i - 1, limit), n, g, ms[i - 1], limit);
    }
  }

  lemma {:induction false} SliceAlone(par: Parser, ms: seq<Message>, j: nat, k: nat, i: nat, limit: Limit)
    requires j <= i <= k <= |ms|
    ensures par.ScanSlice(ms[j..k], 0, i - j, limit) == par.ScanSlice(ms, j, i, limit)
  {
    hide ArchiveParser.Parser.Feed;
    if j < i {
      SliceAlone(par, ms, j, k, i - 1, limit);
      assert ms[j..k][i - j - 1] == ms[i - 1];
    }
  }

  lemma StretchGroup(par: Parser, ms: seq<Message>, j: nat, k: nat, limit: Limit)
    requires WholeStretch(par, ms, j, k)
    ensures var groups, n := Closing(par.Read(ms, |ms|, limit)), PosterCount(par, ms, j);
            n < |groups| && First(par.ScanSlice(ms, j, k, limit)) == Some(groups[n])
  {
    ReadFollowsScan(par, ms, j, k, k, limit);
    if k < |ms| {
      var n, g := PosterCount(par, ms, j), First(par.ScanSlice(ms, j, k, limit)).value;
      assert PosterAt(par, ms, k);
      AdvanceKeepsYielded(par, par.Read(ms, k, limit), n, g, ms[k], limit);
      YieldedStays(par, ms, n, g, k + 1, |ms|, limit);
    }
  }

  /** Locality: a full pass yields one group per poster, in order, and each is the first group of the
      slice from its poster to the next one. */
  lemma ParserLocality(par: Parser, ms: seq<Message>, limit: Limit)
    ensures var groups := Closing(par.Read(ms, |ms|, limit));
            && |groups| == PosterCount(par, ms, |ms|)
            && forall j: nat, k: nat :: WholeStretch(par, ms, j, k) ==>
                 && PosterCount(par, ms, j) < |groups|
                 && First(par.ScanSlice(ms[j..k], 0, k - j, limit)) == Some(groups[PosterCount(par, ms, j)])
  {
    GroupsMatchPosters(par, ms, |ms|, limit);
    forall j: nat, k: nat | WholeStretch(par, ms, j, k)
      ensures PosterCount(par, ms, j) < |Closing(par.Read(ms, |ms|, limit))|
      ensures First(par.ScanSlice(ms[j..k], 0, k - j, limit))
              == Some(Closing(par.Read(ms, |ms|, limit))[PosterCount(par, ms, j)])
    {
      SliceAlone(par, ms, j, k, k, limit);
      StretchGroup(par, ms, j, k, limit);
    }
  }

  // ---- The diagnostic limit ---------------------------------------------------------------

  ghost function TrimBuilder(b: GroupBuilder, limit: Limit): GroupBuilder {
    b.(diagnostics := KeepLast(b.diagnostics, limit))
  }

  ghost function TrimGroup(g: ParsedMovieGroup, limit: Limit): ParsedMovieGroup {
    g.(diagnostics := KeepLast(g.diagnostics, limit))
  }

  ghost predicate Trims(full: Cursor, short: Cursor, limit: Limit) {
    && |full.groups| == |short.groups|
    && (forall i :: 0 <= i < |full.groups| ==> short.groups[i] == TrimGroup(full.groups[i], limit))
    && (full.current.Some? <==> short.current.Some?)
    && (full.current.Some? ==> short.current.value == TrimBuilder(full.current.value, limit))
  }

  lemma KeepLastAppend<T>(s: seq<T>, x: T, limit: Limit)
    ensures KeepLast(KeepLast(s, limit) + [x], limit) == KeepLast(s + [x], limit)
  {
  }

  lemma KeepLastNone<T>(s: seq<T>, limit: Limit)
    ensures KeepLast(s, None) == s
  {
  }

  lemma KeepLastNothing(limit: Limit)
    ensures KeepLast<Diagnostic>([], limit) == []
  {
  }

  lemma AddQualityTrims(par: Parser, b: GroupBuilder, m: Message, q: QualityFields, limit: Limit)
    ensures par.AddQuality(TrimBuilder(b, limit), m, q, limit) == TrimBuilder(par.AddQuality(b, m, q, None), limit)
  {
    hide KeepLast, ArchiveParser.Parser.Score;
    KeepLastNone(b.diagnostics, limit);
    forall x: Diagnostic
      ensures KeepLast(KeepLast(b.diagnostics, limit) + [x], limit) == KeepLast(KeepLast(b.diagnostics + [x], None),
              limit)
    {
      KeepLastAppend(b.diagnostics, x, limit);
      KeepLastNone(b.diagnostics + [x], limit);
    }
  }

  /** A diagnostic limit changes nothing but the length of the diagnostic tails. */
  lemma {:induction false} LimitOnlyTrims(par: Parser, ms: seq<Message>, n: nat, limit: Limit)
    requires n <= |ms|
    ensures Trims(par.Read(ms, n, None), par.Read(ms, n, limit), limit)
  {
    hide ArchiveParser.Parser.AddQuality, ArchiveParser.Parser.Detect, KeepLast;
    if n == 0 {
    } else {
      LimitOnlyTrims(par, ms, n - 1, limit);
      KeepLastNothing(limit);
      var c, m := par.Read(ms, n - 1, None), ms[n - 1];
      if c.current.Some? && par.Detect(m.content).AsQuality? {
        AddQualityTrims(par, c.current.value, m, par.Detect(m.content).quality, limit);
      }
    }
  }
}
