/** What every run of the import keeps, across any number of crashes. */
module ImportInvariant {
  import opened Wrappers
  import opened ImportProtocol

  ghost predicate LogOk(log: seq<ArchiveEntry>) {
    && (forall i :: 0 <= i < |log| ==> log[i].id > 0)
    && forall i, j :: 0 <= i < j < |log| ==> log[i].id < log[j].id
  }

  // All importable source messages up to the watermark, and all copies made of them so far.
  ghost function AllWanted(source: seq<SourceMessage>, job: Job): seq<int> {
    Wanted(source, Readable(source, job))
  }

  ghost function AllCopies(log: seq<ArchiveEntry>, job: Job): seq<ArchiveEntry> {
    Copies(log, job.baseline, job.highWatermark, |log|)
  }

  /** The copies in the archive are, in order and without repetition, the first importable source messages. */
  ghost predicate CopiesOk(wanted: seq<int>, copies: seq<ArchiveEntry>) {
    |copies| <= |wanted| && forall i :: 0 <= i < |copies| ==> copies[i].origin == Some(wanted[i])
  }

  /** The mappings are the first k of these copies. */
  ghost predicate MapsOk(wanted: seq<int>, copies: seq<ArchiveEntry>, k: nat, maps: Mappings) {
    && k <= |copies| <= |wanted|
    && (forall i :: 0 <= i < k ==> wanted[i] in maps && maps[wanted[i]].archiveId == copies[i].id)
    && (forall id :: id in maps ==> exists i :: 0 <= i < k && wanted[i] == id)
    && |maps| == k
  }

  /** The counters of what was read, and the checkpoint: it never passes a message that is not mapped. */
  ghost predicate ProgressOk(source: seq<SourceMessage>, job: Job) {
    && job.processed == Read(source, job) <= Readable(source, job)
    && job.lastCopied == (if job.processed == 0 then 0 else source[job.processed - 1].id)
    && |Wanted(source, job.processed)| <= job.copied
    && job.skipped == Skips(source, 0, job.processed)
    && job.reconciled <= job.copied
  }

  ghost function MarkedIds(maps: Mappings): set<int> {
    set id | id in maps && maps[id].reindexed
  }

  ghost predicate MarksOk(job: Job, maps: Mappings) {
    && (forall id :: id in maps ==> (maps[id].reindexed <==> id <= job.lastReindexed))
    && (job.lastReindexed == 0 || job.lastReindexed in maps)
    && job.reindexed + job.missing == |MarkedIds(maps)|
  }

  ghost predicate StatusOk(source: seq<SourceMessage>, job: Job, maps: Mappings) {
    && (job.status.Transferred? || job.status.Reindexing? || job.status.Completed? ==>
          job.processed == Readable(source, job))
    && (job.status.Completed? ==> forall id :: id in maps ==> maps[id].reindexed)
  }

  ghost predicate WorkerOk(source: seq<SourceMessage>, wanted: seq<int>, copies: seq<ArchiveEntry>, s: System) {
    var k := s.job.copied;
    match s.worker
    case Idle => true
    case HighRead(_) => false
    case BaselineRead(_, _) => false
    case Scanning(pos, pending) =>
      && !s.job.status.Completed? && !s.job.status.Reindexing?
      && pos <= |s.log| && (pos < |s.log| ==> s.log[pos].id > s.job.baseline)
      && |Copies(s.log, s.job.baseline, s.job.highWatermark, pos)| == k + |pending| <= |copies| <= |wanted|
      && forall i :: 0 <= i < |pending| ==> pending[i] == (wanted[k + i], copies[k + i].id)
    case Copying => s.job.status.Running? && |copies| == k
    case Forwarding(b, toForward, landed) =>
      && s.job.status.Running? && s.job.processed < b <= Readable(source, s.job)
      && |landed| <= |toForward| && |copies| == k + |landed| && k + |toForward| <= |wanted|
      && (forall i :: 0 <= i < |toForward| ==> toForward[i] == wanted[k + i])
      && (forall i :: 0 <= i < |landed| ==> landed[i] == copies[k + i].id)
      && |Wanted(source, b)| <= k + |toForward|
    case Marking(after) =>
      && (s.job.status.Reindexing? || s.job.status.Completed?)
      && forall id :: id in s.maps && id <= after ==> s.maps[id].reindexed
  }

  // Before the job has its limits, nothing above the baseline that was read is a copy of its own.
  ghost predicate Starting(log: seq<ArchiveEntry>, worker: Worker) {
    match worker
    case Idle => true
    case HighRead(_) => true
    case BaselineRead(high, baseline) => baseline <= LastId(log) && Copies(log, baseline, Some(high), |log|) == []
    case _ => false
  }

  ghost predicate Inv(source: seq<SourceMessage>, s: System) {
    && LogOk(s.log) && s.job.baseline <= LastId(s.log)
    && if s.job.highWatermark.None? then s.job == NEW_JOB && s.maps == map[] && Starting(s.log, s.worker)
       else
         var wanted, copies := AllWanted(source, s.job), AllCopies(s.log, s.job);
         && CopiesOk(wanted, copies) && MapsOk(wanted, copies, s.job.copied, s.maps)
         && ProgressOk(source, s.job) && MarksOk(s.job, s.maps)
         && StatusOk(source, s.job, s.maps) && WorkerOk(source, wanted, copies, s)
  }

  ghost predicate Ascending(w: seq<int>, bound: int) {
    && (forall i, j :: 0 <= i < j < |w| ==> w[i] < w[j])
    && (forall i :: 0 <= i < |w| ==> 0 < w[i] <= bound)
  }

  ghost predicate IdsAscend(cs: seq<ArchiveEntry>, bound: int) {
    && (forall i, j :: 0 <= i < j < |cs| ==> cs[i].id < cs[j].id)
    && (forall i :: 0 <= i < |cs| ==> cs[i].id <= bound)
  }

  // ---- Reading the channels ---------------------------------------------------------------

  lemma {:induction false} TotalReads(source: seq<SourceMessage>, high: int)
    requires Source(source)
    ensures var n := Total(source, high);
            && (forall i :: 0 <= i < n ==> source[i].id <= high)
            && (forall i :: n <= i < |source| ==> source[i].id > high)
  {
    if source != [] && source[|source| - 1].id > high {
      TotalReads(source[..|source| - 1], high);
    }
  }

  lemma {:induction false} TotalGrows(source: seq<SourceMessage>, low: int, high: int)
    requires low <= high
    ensures Total(source, low) <= Total(source, high)
  {
    if source != [] && source[|source| - 1].id > high {
      TotalGrows(source[..|source| - 1], low, high);
    }
  }

  lemma TotalIs(source: seq<SourceMessage>, high: int, n: nat)
    requires Source(source) && n <= |source|
    requires n > 0 ==> source[n - 1].id <= high
    requires n < |source| ==> source[n].id > high
    ensures Total(source, high) == n
  {
    TotalReads(source, high);
  }

  lemma {:induction false} WantedPrefix(source: seq<SourceMessage>, m: nat, n: nat)
    requires m <= n <= |source|
    ensures Wanted(source, m) <= Wanted(source, n)
  {
    if m < n {
      WantedPrefix(source, m, n - 1);
    }
  }

  lemma {:induction false} WantedAscends(source: seq<SourceMessage>, n: nat, bound: int)
    requires Source(source) && n <= |source| && (n > 0 ==> source[n - 1].id <= bound)
    ensures Ascending(Wanted(source, n), bound)
  {
    if n > 0 {
      WantedAscends(source, n - 1, source[n - 1].id - 1);
      var w := Wanted(source, n - 1);
      assert forall i :: 0 <= i < |w| ==> w[i] <= source[n - 1].id - 1;
    }
  }

  lemma {:induction false} SkipsJoin(source: seq<SourceMessage>, a: nat, b: nat)
    requires a <= b <= |source|
    ensures Skips(source, 0, a) + Skips(source, a, b) == Skips(source, 0, b)
  {
    if a < b {
      SkipsJoin(source, a, b - 1);
    }
  }

  /** A batch forwards exactly the wanted messages that follow the mapped ones. */
  lemma {:induction false} BatchContinues(source: seq<SourceMessage>, maps: Mappings, a: nat, b: nat, total: nat,
                                          k: nat)
    requires a <= b <= total <= |source|
    requires |Wanted(source, a)| <= k <= |Wanted(source, total)|
    requires forall i :: 0 <= i < |Wanted(source, total)| ==> (Wanted(source, total)[i] in maps <==> i < k)
    ensures ToForward(source, maps, a, b) == From(Wanted(source, b), k)
  {
    hide Wanted;
    if a < b {
      BatchContinues(source, maps, a, b - 1, total, k);
      WantedPrefix(source, b, total);
      WantedPrefix(source, a, b - 1);
      WantedStep(source, b);
      if source[b - 1].importable {
        assert Wanted(source, b)[|Wanted(source, b - 1)|] == source[b - 1].id;
      }
      FromAppend(Wanted(source, b - 1), source[b - 1].id, k);
    }
  }

  // What follows the first k.
  function From(w: seq<int>, k: nat): seq<int> {
    if |w| <= k then [] else w[k..]
  }

  lemma FromAppend(w: seq<int>, x: int, k: nat)
    ensures From(w + [x], k) == if |w| < k then [] else From(w, k) + [x]
  {}

  lemma WantedStep(source: seq<SourceMessage>, n: nat)
    requires 0 < n <= |source|
    ensures Wanted(source, n) == if source[n - 1].importable then Wanted(source, n - 1) + [source[n - 1].id]
            else Wanted(source, n - 1)
  {}

  lemma {:induction false} CopiesPrefix(log: seq<ArchiveEntry>, more: seq<ArchiveEntry>, base: int, high: Option<int>,
                                        n: nat)
    requires n <= |log| <= |more| && log == more[..|log|]
    ensures Copies(more, base, high, n) == Copies(log, base, high, n)
  {
    if n > 0 {
      CopiesPrefix(log, more, base, high, n - 1);
    }
  }

  lemma {:induction false} CopiesGrow(log: seq<ArchiveEntry>, base: int, high: Option<int>, m: nat, n: nat)
    requires m <= n <= |log|
    ensures Copies(log, base, high, m) <= Copies(log, base, high, n)
  {
    if m < n {
      CopiesGrow(log, base, high, m, n - 1);
    }
  }

  lemma {:induction false} CopiesAscend(log: seq<ArchiveEntry>, base: int, high: Option<int>, n: nat, bound: int)
    requires LogOk(log) && n <= |log| && (n > 0 ==> log[n - 1].id <= bound)
    ensures IdsAscend(Copies(log, base, high, n), bound)
  {
    if n > 0 {
      CopiesAscend(log, base, high, n - 1, log[n - 1].id - 1);
    }
  }

  lemma {:induction false} NoCopies(log: seq<ArchiveEntry>, base: int, high: Option<int>, n: nat)
    requires LogOk(log) && n <= |log| && (n > 0 ==> log[n - 1].id <= base)
    ensures Copies(log, base, high, n) == []
  {
    if n > 0 {
      NoCopies(log, base, high, n - 1);
    }
  }

  lemma CopiesAppend(log: seq<ArchiveEntry>, base: int, high: Option<int>, e: ArchiveEntry)
    ensures Copies(log + [e], base, high, |log| + 1)
            == Copies(log, base, high, |log|) + if IsCopy(e, base, high) then [e] else []
  {
    CopiesPrefix(log, log + [e], base, high, |log|);
  }

  lemma {:induction false} PosReads(log: seq<ArchiveEntry>, id: int)
    requires LogOk(log)
    ensures var n := PosAfter(log, id);
            && (forall i :: 0 <= i < n ==> log[i].id <= id)
            && (forall i :: n <= i < |log| ==> log[i].id > id)
  {
    if log != [] && log[|log| - 1].id > id {
      PosReads(log[..|log| - 1], id);
    }
  }

  lemma PosIs(log: seq<ArchiveEntry>, id: int, n: nat)
    requires LogOk(log) && n <= |log|
    requires n > 0 ==> log[n - 1].id <= id
    requires n < |log| ==> log[n].id > id
    ensures PosAfter(log, id) == n
  {
    PosReads(log, id);
  }

  // Where the k-th copy stands in the log.
  lemma {:induction false} CopyAt(log: seq<ArchiveEntry>, base: int, high: Option<int>, n: nat, k: nat) returns (i: nat)
    requires n <= |log| && k < |Copies(log, base, high, n)|
    ensures i < n && log[i] == Copies(log, base, high, n)[k] && IsCopy(log[i], base, high)
    ensures |Copies(log, base, high, i + 1)| == k + 1
  {
    if k < |Copies(log, base, high, n - 1)| {
      i := CopyAt(log, base, high, n - 1, k);
    } else {
      i := n - 1;
    }
  }

  // What is known of the wanted messages and of the copies in a state.
  lemma Ordered(source: seq<SourceMessage>, s: System)
    requires Source(source) && LogOk(s.log)
    ensures Ascending(AllWanted(source, s.job), s.job.highWatermark.GetOr(0))
    ensures IdsAscend(AllCopies(s.log, s.job), LastId(s.log))
  {
    TotalReads(source, s.job.highWatermark.GetOr(0));
    WantedAscends(source, Readable(source, s.job), s.job.highWatermark.GetOr(0));
    CopiesAscend(s.log, s.job.baseline, s.job.highWatermark, |s.log|, LastId(s.log));
  }

  // ---- Inserting mappings -----------------------------------------------------------------

  ghost predicate FreshPairs(maps: Mappings, pairs: seq<(int, int)>) {
    && (forall i :: 0 <= i < |pairs| ==> pairs[i].0 !in maps && forall k :: k in maps ==>
        maps[k].archiveId != pairs[i].1)
    && (forall i, j :: 0 <= i < j < |pairs| ==> pairs[i].0 != pairs[j].0 && pairs[i].1 != pairs[j].1)
  }

  // The mappings r are maps and all of the pairs.
  ghost predicate Added(maps: Mappings, pairs: seq<(int, int)>, r: Mappings) {
    && (forall id :: id in maps ==> id in r && r[id] == maps[id])
    && (forall i :: 0 <= i < |pairs| ==> pairs[i].0 in r && r[pairs[i].0] == Mapping(pairs[i].1, false))
    && (forall id :: id in r ==> id in maps || exists i :: 0 <= i < |pairs| && pairs[i].0 == id)
  }

  lemma AddedApart(maps: Mappings, pairs: seq<(int, int)>, rest: Mappings)
    requires FreshPairs(maps, pairs) && pairs != [] && Added(maps, pairs[..|pairs| - 1], rest)
    ensures var (source, archive) := pairs[|pairs| - 1];
            source !in rest && forall k :: k in rest ==> rest[k].archiveId != archive
  {
    var init, m := pairs[..|pairs| - 1], |pairs| - 1;
    forall k | k in rest
      ensures k != pairs[m].0 && rest[k].archiveId != pairs[m].1
    {
      if k !in maps {
        var i :| 0 <= i < |init| && init[i].0 == k;
        assert init[i] == pairs[i];
      }
    }
  }

  lemma AddedOneMore(maps: Mappings, pairs: seq<(int, int)>, rest: Mappings, r: Mappings)
    requires FreshPairs(maps, pairs) && pairs != [] && Added(maps, pairs[..|pairs| - 1], rest)
    requires r == rest[pairs[|pairs| - 1].0 := Mapping(pairs[|pairs| - 1].1, false)]
    ensures Added(maps, pairs, r)
  {
    var init, m := pairs[..|pairs| - 1], |pairs| - 1;
    AddedApart(maps, pairs, rest);
    forall id | id in r && id !in maps
      ensures exists i :: 0 <= i < |pairs| && pairs[i].0 == id
    {
      if id == pairs[m].0 {
      } else {
        var i :| 0 <= i < |init| && init[i].0 == id;
        assert pairs[i].0 == id;
      }
    }
    forall i | 0 <= i < m
      ensures pairs[i].0 in r && r[pairs[i].0] == Mapping(pairs[i].1, false)
    {
      assert init[i] == pairs[i];
    }
  }

  /** Pairs that conflict with nothing are all inserted. */
  lemma {:induction false} InsertFresh(maps: Mappings, pairs: seq<(int, int)>)
    requires FreshPairs(maps, pairs)
    ensures var (r, n) := InsertMappings(maps, pairs);
            Added(maps, pairs, r) && n == |pairs| && |r| == |maps| + n
  {
    hide Added;
    if pairs == [] {
      assert Added(maps, pairs, maps) by { AddedNone(maps, pairs); }
    } else {
      var init := pairs[..|pairs| - 1];
      assert FreshPairs(maps, init) by { FreshFront(maps, pairs); }
      InsertFresh(maps, init);
      var rest := InsertMappings(maps, init).0;
      AddedApart(maps, pairs, rest);
      AddedOneMore(maps, pairs, rest, InsertMappings(maps, pairs).0);
    }
  }

  lemma AddedNone(maps: Mappings, pairs: seq<(int, int)>)
    requires pairs == []
    ensures Added(maps, pairs, maps)
  {}

  lemma FreshFront(maps: Mappings, pairs: seq<(int, int)>)
    requires FreshPairs(maps, pairs) && pairs != []
    ensures FreshPairs(maps, pairs[..|pairs| - 1])
  {
    var init := pairs[..|pairs| - 1];
    assert forall i :: 0 <= i < |init| ==> init[i] == pairs[i];
  }

  lemma {:induction false} InsertUnmarked(maps: Mappings, pairs: seq<(int, int)>)
    ensures MarkedIds(InsertMappings(maps, pairs).0) == MarkedIds(maps)
  {
    if pairs != [] {
      InsertUnmarked(maps, pairs[..|pairs| - 1]);
    }
  }

  // The pairs of the copies that follow the k mapped ones.
  ghost predicate Following(wanted: seq<int>, copies: seq<ArchiveEntry>, k: nat, pairs: seq<(int, int)>) {
    && (exists bound :: Ascending(wanted, bound)) && (exists bound :: IdsAscend(copies, bound))
    && k + |pairs| <= |copies| <= |wanted|
    && forall i :: 0 <= i < |pairs| ==> pairs[i] == (wanted[k + i], copies[k + i].id)
  }

  /** Recording the copies that follow the mapped ones maps them all, once each. */
  lemma AdoptMaps(wanted: seq<int>, copies: seq<ArchiveEntry>, k: nat, maps: Mappings, pairs: seq<(int, int)>)
    requires MapsOk(wanted, copies, k, maps) && Following(wanted, copies, k, pairs)
    ensures FreshPairs(maps, pairs)
    ensures var (r, n) := InsertMappings(maps, pairs); n == |pairs| && MapsOk(wanted, copies, k + n, r)
  {
    hide InsertMappings, Added;
    assert FreshPairs(maps, pairs);
    InsertFresh(maps, pairs);
    AdoptAdded(wanted, copies, k, maps, pairs, InsertMappings(maps, pairs).0);
  }

  lemma AdoptAdded(wanted: seq<int>, copies: seq<ArchiveEntry>, k: nat, maps: Mappings, pairs: seq<(int, int)>,
                   r: Mappings)
    requires MapsOk(wanted, copies, k, maps) && Following(wanted, copies, k, pairs)
    requires Added(maps, pairs, r) && |r| == |maps| + |pairs|
    ensures MapsOk(wanted, copies, k + |pairs|, r)
  {
    forall i | 0 <= i < k + |pairs|
      ensures wanted[i] in r && r[wanted[i]].archiveId == copies[i].id
    {
      if i >= k {
        assert pairs[i - k] == (wanted[i], copies[i].id);
      }
    }
    forall id | id in r
      ensures exists i :: 0 <= i < k + |pairs| && wanted[i] == id
    {
      if id !in maps {
        var i :| 0 <= i < |pairs| && pairs[i].0 == id;
        assert wanted[k + i] == id;
      }
    }
  }

  /** None of the new mappings counts as re-indexed. */
  lemma AdoptMarks(wanted: seq<int>, copies: seq<ArchiveEntry>, k: nat, job: Job, maps: Mappings,
                   pairs: seq<(int, int)>)
    requires MapsOk(wanted, copies, k, maps) && Following(wanted, copies, k, pairs) && MarksOk(job, maps)
    requires FreshPairs(maps, pairs)
    ensures MarksOk(job, InsertMappings(maps, pairs).0)
  {
    hide InsertMappings, MarkedIds;
    InsertFresh(maps, pairs);
    InsertUnmarked(maps, pairs);
    var r := InsertMappings(maps, pairs).0;
    forall id | id in r && id !in maps
      ensures !r[id].reindexed && id > job.lastReindexed
    {
      var i :| 0 <= i < |pairs| && pairs[i].0 == id;
      assert pairs[i] == (wanted[k + i], copies[k + i].id);
    }
  }

  // ---- Steps ------------------------------------------------------------------------------

  lemma LogAppend(log: seq<ArchiveEntry>, e: ArchiveEntry)
    requires LogOk(log) && e.id > LastId(log)
    ensures LogOk(log + [e]) && LastId(log + [e]) == e.id
  {}

  lemma ForeignKeeps(source: seq<SourceMessage>, s: System, e: Event)
    requires Inv(source, s) && e.Foreign? && Enabled(source, s, e)
    ensures Inv(source, Step(source, s, e))
  {
    hide Copies, Wanted, Total, Skips, MarksOk, MapsOk, ProgressOk, StatusOk, CopiesOk, LogOk, WorkerOk;
    LogAppend(s.log, e.entry);
    CopiesAppend(s.log, s.job.baseline, s.job.highWatermark, e.entry);
    assert AllCopies(s.log + [e.entry], s.job) == AllCopies(s.log, s.job);
    if s.worker.BaselineRead? {
      CopiesAppend(s.log, s.worker.baseline, Some(s.worker.high), e.entry);
    }
    if s.job.highWatermark.Some? {
      ForeignWorker(source, AllWanted(source, s.job), AllCopies(s.log, s.job), s, e.entry);
    }
  }

  lemma ForeignWorker(source: seq<SourceMessage>, wanted: seq<int>, copies: seq<ArchiveEntry>, s: System,
                      entry: ArchiveEntry)
    requires WorkerOk(source, wanted, copies, s) && entry.id > s.job.baseline
    ensures WorkerOk(source, wanted, copies, s.(log := s.log + [entry]))
  {
    hide Copies, Wanted, Total;
    if s.worker.Scanning? {
      CopiesPrefix(s.log, s.log + [entry], s.job.baseline, s.job.highWatermark, s.worker.pos);
    }
  }

  lemma LimitsReadKeeps(source: seq<SourceMessage>, s: System, e: Event)
    requires Source(source) && Inv(source, s) && (e.ReadHigh? || e.ReadBaseline?) && Enabled(source, s, e)
    ensures Inv(source, Step(source, s, e))
  {
    if e.ReadBaseline? {
      NoCopies(s.log, LastId(s.log), Some(s.worker.high), |s.log|);
    }
  }

  lemma InitializeKeeps(source: seq<SourceMessage>, s: System, e: Event)
    requires Source(source) && Inv(source, s) && e.Initialize? && Enabled(source, s, e)
    ensures Inv(source, Step(source, s, e))
  {
    TotalIs(source, 0, 0);
    var t := Step(source, s, e);
    assert MarkedIds(t.maps) == {};
  }

  /** The scan starts right after the last mapped copy. */
  lemma BeginScanKeeps(source: seq<SourceMessage>, s: System, e: Event)
    requires Source(source) && Inv(source, s) && e.BeginScan? && Enabled(source, s, e)
    ensures Inv(source, Step(source, s, e))
  {
    hide Copies, PosAfter, Wanted, Total, MarksOk, ProgressOk, StatusOk, CopiesOk;
    var copies, k := AllCopies(s.log, s.job), s.job.copied;
    var wanted := AllWanted(source, s.job);
    var pos := PosAfter(s.log, e.after);
    Ordered(source, s);
    PosReads(s.log, e.after);
    if k == 0 {
      assert s.maps == map[];
      NoCopies(s.log, s.job.baseline, s.job.highWatermark, pos);
    } else {
      assert wanted[k - 1] in s.maps;
      var id :| id in s.maps && s.maps[id].archiveId == e.after;
      var j :| 0 <= j < k && wanted[j] == id;
      assert e.after == copies[k - 1].id;
      var i := CopyAt(s.log, s.job.baseline, s.job.highWatermark, |s.log|, k - 1);
      PosIs(s.log, e.after, i + 1);
    }
  }

  lemma ScanOneKeeps(source: seq<SourceMessage>, s: System, e: Event)
    requires Inv(source, s) && e.ScanOne? && Enabled(source, s, e)
    ensures Inv(source, Step(source, s, e))
  {
    hide Copies, Wanted, Total, Skips, MarksOk, MapsOk, ProgressOk, StatusOk;
    CopiesStep(s.log, s.job.baseline, s.job.highWatermark, s.worker.pos);
    CopiesGrow(s.log, s.job.baseline, s.job.highWatermark, s.worker.pos + 1, |s.log|);
  }

  lemma CopiesStep(log: seq<ArchiveEntry>, base: int, high: Option<int>, n: nat)
    requires n < |log|
    ensures Copies(log, base, high, n + 1)
            == if IsCopy(log[n], base, high) then Copies(log, base, high, n) + [log[n]] else Copies(log, base, high, n)
  {}

  lemma FlushKeeps(source: seq<SourceMessage>, s: System, e: Event)
    requires Source(source) && Inv(source, s) && e.Flush? && Enabled(source, s, e)
    ensures Inv(source, Step(source, s, e))
  {
    hide Copies, Wanted, Total, InsertMappings, Skips, MarksOk;
    Ordered(source, s);
    AdoptMaps(AllWanted(source, s.job), AllCopies(s.log, s.job), s.job.copied, s.maps, s.worker.pending);
    AdoptMarks(AllWanted(source, s.job), AllCopies(s.log, s.job), s.job.copied, s.job, s.maps, s.worker.pending);
    var t := Step(source, s, e);
    assert MarksOk(t.job, t.maps) by {
      MarksCarry(s.job, t.job, t.maps);
    }
  }

  lemma MarksCarry(a: Job, b: Job, maps: Mappings)
    requires MarksOk(a, maps)
    requires a.lastReindexed == b.lastReindexed && a.reindexed == b.reindexed && a.missing == b.missing
    ensures MarksOk(b, maps)
  {}

  lemma BatchStartKeeps(source: seq<SourceMessage>, s: System, e: Event)
    requires Source(source) && Inv(source, s) && e.BatchStart? && Enabled(source, s, e)
    ensures Inv(source, Step(source, s, e))
  {
    hide Copies, Wanted, Total, ToForward, Skips, MarksOk;
    var a, total, k := Read(source, s.job), Readable(source, s.job), s.job.copied;
    var b := Min(a + e.size, total);
    var wanted := AllWanted(source, s.job);
    Ordered(source, s);
    WantedPrefix(source, b, total);
    BatchContinues(source, s.maps, a, b, total, k);
  }

  lemma LandKeeps(source: seq<SourceMessage>, s: System, e: Event)
    requires Source(source) && Inv(source, s) && e.Land? && Enabled(source, s, e)
    ensures Inv(source, Step(source, s, e))
  {
    hide Copies, Wanted, Total, Skips, MarksOk;
    Ordered(source, s);
    var origin := s.worker.toForward[|s.worker.landed|];
    CopiesAppend(s.log, s.job.baseline, s.job.highWatermark, ArchiveEntry(e.id, Some(origin)));
  }

  lemma CommitKeeps(source: seq<SourceMessage>, s: System, e: Event)
    requires Source(source) && Inv(source, s) && e.Commit? && Enabled(source, s, e)
    ensures Inv(source, Step(source, s, e))
  {
    hide Copies, Wanted, Total, InsertMappings, Skips, MarksOk;
    var a, b := s.job.processed, s.worker.through;
    Ordered(source, s);
    var pairs := Pairs(s.worker.toForward, s.worker.landed);
    AdoptMaps(AllWanted(source, s.job), AllCopies(s.log, s.job), s.job.copied, s.maps, pairs);
    AdoptMarks(AllWanted(source, s.job), AllCopies(s.log, s.job), s.job.copied, s.job, s.maps, pairs);
    TotalIs(source, source[b - 1].id, b);
    SkipsJoin(source, a, b);
    var t := Step(source, s, e);
    assert MarksOk(t.job, t.maps) by {
      MarksCarry(s.job, t.job, t.maps);
    }
  }

  lemma ReadingKeeps(source: seq<SourceMessage>, s: System, e: Event)
    requires Inv(source, s) && (e.ScanDone? || e.TransferDone? || e.Stop? || e.Crash?) && Enabled(source, s, e)
    ensures Inv(source, Step(source, s, e))
  {
    hide Wanted, Total, Skips, Copies;
  }

  /** A finished transfer has read everything up to the watermark. */
  lemma CompleteReads(source: seq<SourceMessage>, s: System)
    requires Source(source) && s.job.highWatermark.Some? && ProgressOk(source, s.job) && TransferComplete(s.job)
    ensures s.job.processed == Readable(source, s.job)
  {
    TotalGrows(source, s.job.highWatermark.value, s.job.lastCopied);
  }

  lemma BeginReindexKeeps(source: seq<SourceMessage>, s: System, e: Event)
    requires Source(source) && Inv(source, s) && e.BeginReindex? && Enabled(source, s, e)
    ensures Inv(source, Step(source, s, e))
  {
    hide Wanted, Total, Skips, Copies;
    if TransferComplete(s.job) {
      CompleteReads(source, s);
    }
    Ordered(source, s);
  }

  lemma MarkKeeps(source: seq<SourceMessage>, s: System, e: Event)
    requires Source(source) && Inv(source, s) && e.MarkNext? && Enabled(source, s, e)
    ensures Inv(source, Step(source, s, e))
  {
    hide Wanted, Total, Skips, Copies, LogOk, CopiesOk, MapsOk, MarksOk, MarkedIds;
    var t := Step(source, s, e);
    var wanted, copies := AllWanted(source, s.job), AllCopies(s.log, s.job);
    PositiveIds(source, s);
    assert MarksOk(t.job, t.maps) by {
      MarkMarks(s, e.id, e.missing, s.worker.after);
    }
    assert MapsOk(wanted, copies, t.job.copied, t.maps) by {
      MarkMaps(wanted, copies, s.job.copied, s.maps, t.maps);
    }
  }

  lemma PositiveIds(source: seq<SourceMessage>, s: System)
    requires Source(source) && Inv(source, s) && s.job.highWatermark.Some?
    ensures forall id :: id in s.maps ==> id > 0
  {
    hide Wanted, Total, Skips, Copies, WorkerOk;
    Ordered(source, s);
  }

  // Marking changes no key and no archive id.
  lemma MarkMaps(wanted: seq<int>, copies: seq<ArchiveEntry>, k: nat, a: Mappings, b: Mappings)
    requires MapsOk(wanted, copies, k, a) && a.Keys == b.Keys
    requires forall id :: id in a ==> b[id].archiveId == a[id].archiveId
    ensures MapsOk(wanted, copies, k, b)
  {
    forall i | 0 <= i < k
      ensures wanted[i] in b && b[wanted[i]].archiveId == copies[i].id
    {
      var id := wanted[i];
      assert id in a && a[id].archiveId == copies[i].id;
      assert b[id].archiveId == a[id].archiveId;
    }
    forall id | id in b
      ensures exists i :: 0 <= i < k && wanted[i] == id
    {
      assert id in a.Keys;
    }
    assert |b| == |b.Keys| && |a| == |a.Keys|;
  }

  lemma MarkMarks(s: System, id: int, missing: bool, after: int)
    requires MarksOk(s.job, s.maps) && NextMapped(s.maps, after, id)
    requires forall k :: k in s.maps && k <= after ==> s.maps[k].reindexed
    requires forall k :: k in s.maps ==> k > 0
    ensures var t := MarkReindexed(s, id, missing); MarksOk(t.job, t.maps)
  {
    var t := MarkReindexed(s, id, missing);
    assert t.maps.Keys == s.maps.Keys;
    if s.maps[id].reindexed {
      assert MarkedIds(t.maps) == MarkedIds(s.maps);
    } else {
      assert id !in MarkedIds(s.maps);
      assert MarkedIds(t.maps) == MarkedIds(s.maps) + {id};
    }
    forall k | k in t.maps
      ensures t.maps[k].reindexed <==> k <= t.job.lastReindexed
    {
      assert k in s.maps;
    }
    assert t.job.lastReindexed == 0 || t.job.lastReindexed in t.maps;
    assert t.job.reindexed + t.job.missing == |MarkedIds(t.maps)|;
  }

  lemma ReindexDoneKeeps(source: seq<SourceMessage>, s: System, e: Event)
    requires Inv(source, s) && e.ReindexDone? && Enabled(source, s, e)
    ensures Inv(source, Step(source, s, e))
  {
    hide Wanted, Total, Skips, Copies;
  }

  /** Every step of the import, of its crashes and of the rest of the world keeps the invariant. */
  lemma StepKeeps(source: seq<SourceMessage>, s: System, e: Event)
    requires Source(source) && Inv(source, s) && Enabled(source, s, e)
    ensures Inv(source, Step(source, s, e))
  {
    hide Inv, Enabled, Step;
    match e
    case Foreign(_) => ForeignKeeps(source, s, e);
    case ReadHigh(_) => LimitsReadKeeps(source, s, e);
    case ReadBaseline => LimitsReadKeeps(source, s, e);
    case Initialize => InitializeKeeps(source, s, e);
    case BeginScan(_) => BeginScanKeeps(source, s, e);
    case ScanOne => ScanOneKeeps(source, s, e);
    case Flush => FlushKeeps(source, s, e);
    case BatchStart(_) => BatchStartKeeps(source, s, e);
    case Land(_) => LandKeeps(source, s, e);
    case Commit => CommitKeeps(source, s, e);
    case BeginReindex(_) => BeginReindexKeeps(source, s, e);
    case MarkNext(_, _) => MarkKeeps(source, s, e);
    case ReindexDone => ReindexDoneKeeps(source, s, e);
    case _ => ReadingKeeps(source, s, e);
  }
}
