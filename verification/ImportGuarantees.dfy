/** What the invariant means for whoever starts, kills and restarts the import. */
module ImportGuarantees {
  import opened Wrappers
  import opened ImportProtocol
  import opened ImportInvariant

  function Start(log: seq<ArchiveEntry>): System {
    System(NEW_JOB, map[], log, Idle)
  }

  /** The state after a series of events; an event that is not possible when its turn comes changes nothing. */
  ghost function Run(source: seq<SourceMessage>, s: System, es: seq<Event>): System
    decreases |es|
  {
    if es == [] then s
    else
      var before := Run(source, s, es[..|es| - 1]);
      var e := es[|es| - 1];
      if Enabled(source, before, e) then Step(source, before, e) else before
  }

  lemma {:induction false} RunKeeps(source: seq<SourceMessage>, s: System, es: seq<Event>)
    requires Source(source) && Inv(source, s)
    ensures Inv(source, Run(source, s, es))
    decreases |es|
  {
    hide Inv, Enabled, Step;
    if es != [] {
      RunKeeps(source, s, es[..|es| - 1]);
      var before := Run(source, s, es[..|es| - 1]);
      if Enabled(source, before, es[|es| - 1]) {
        StepKeeps(source, before, es[|es| - 1]);
      }
    }
  }

  lemma {:induction false} RunJoins(source: seq<SourceMessage>, s: System, es: seq<Event>, fs: seq<Event>)
    ensures Run(source, s, es + fs) == Run(source, Run(source, s, es), fs)
    decreases |fs|
  {
    hide Enabled, Step;
    if fs == [] {
      assert es + fs == es;
    } else {
      RunJoins(source, s, es, fs[..|fs| - 1]);
      assert (es + fs)[..|es + fs| - 1] == es + fs[..|fs| - 1];
    }
  }

  lemma Reached(source: seq<SourceMessage>, log: seq<ArchiveEntry>, es: seq<Event>)
    requires Source(source) && LogOk(log)
    ensures Inv(source, Run(source, Start(log), es))
  {
    RunKeeps(source, Start(log), es);
  }

  // ---- Exactly once, in order -------------------------------------------------------------

  // The archive message is a copy made by this job.
  predicate Copied(s: System, i: nat)
    requires i < |s.log|
  {
    IsCopy(s.log[i], s.job.baseline, s.job.highWatermark)
  }

  lemma {:induction false} RankOfCopy(log: seq<ArchiveEntry>, base: int, high: Option<int>, i: nat)
    requires i < |log| && IsCopy(log[i], base, high)
    ensures var k := |Copies(log, base, high, i)|;
            k < |Copies(log, base, high, |log|)| && Copies(log, base, high, |log|)[k] == log[i]
  {
    CopiesGrow(log, base, high, i + 1, |log|);
  }

  // Two copies in the archive stand there in the order of their origins.
  lemma CopiesInOrder(wanted: seq<int>, log: seq<ArchiveEntry>, base: int, high: Option<int>, i: nat, j: nat,
                      bound: int)
    requires i < j < |log| && IsCopy(log[i], base, high) && IsCopy(log[j], base, high)
    requires CopiesOk(wanted, Copies(log, base, high, |log|)) && Ascending(wanted, bound)
    ensures log[i].origin.value < log[j].origin.value
  {
    hide Copies;
    RankOfCopy(log, base, high, i);
    RankOfCopy(log, base, high, j);
    CopiesGrow(log, base, high, i + 1, j);
    RankGrows(log, base, high, i);
  }

  lemma CopyIsWanted(source: seq<SourceMessage>, log: seq<ArchiveEntry>, base: int, high: Option<int>, n: nat, i: nat)
    requires i < |log| && IsCopy(log[i], base, high) && n <= |source|
    requires CopiesOk(Wanted(source, n), Copies(log, base, high, |log|))
    ensures exists m :: m in source && m.importable && Some(m.id) == log[i].origin
  {
    hide Copies, Wanted;
    RankOfCopy(log, base, high, i);
    var at := WantedComes(source, n, |Copies(log, base, high, i)|);
    assert source[at] in source;
  }

  /** However often the import dies, no source message is copied twice, the copies keep the order of the source,
      and only importable messages up to the watermark are copied. */
  lemma ExactlyOnceInOrder(source: seq<SourceMessage>, log: seq<ArchiveEntry>, es: seq<Event>)
    requires Source(source) && LogOk(log)
    ensures var s := Run(source, Start(log), es);
            forall i, j :: 0 <= i < j < |s.log| && Copied(s, i) && Copied(s, j) ==>
              s.log[i].origin.value < s.log[j].origin.value
    ensures var s := Run(source, Start(log), es);
            forall i :: 0 <= i < |s.log| && Copied(s, i) ==>
              exists m :: m in source && m.importable && Some(m.id) == s.log[i].origin
  {
    Reached(source, log, es);
    InOrderIfInv(source, Run(source, Start(log), es));
    WantedIfInv(source, Run(source, Start(log), es));
  }

  lemma InOrderIfInv(source: seq<SourceMessage>, s: System)
    requires Source(source) && Inv(source, s)
    ensures forall i, j :: 0 <= i < j < |s.log| && Copied(s, i) && Copied(s, j) ==>
            s.log[i].origin.value < s.log[j].origin.value
  {
    hide WorkerOk, MarksOk, MapsOk, ProgressOk, StatusOk, Copies, Wanted, Total, CopiesOk, LogOk, Ascending;
    Ordered(source, s);
    forall i, j | 0 <= i < j < |s.log| && Copied(s, i) && Copied(s, j)
      ensures s.log[i].origin.value < s.log[j].origin.value
    {
      CopiesInOrder(AllWanted(source, s.job), s.log, s.job.baseline, s.job.highWatermark, i, j,
                    s.job.highWatermark.GetOr(0));
    }
  }

  lemma WantedIfInv(source: seq<SourceMessage>, s: System)
    requires Source(source) && Inv(source, s)
    ensures forall i :: 0 <= i < |s.log| && Copied(s, i) ==>
            exists m :: m in source && m.importable && Some(m.id) == s.log[i].origin
  {
    hide WorkerOk, MarksOk, MapsOk, ProgressOk, StatusOk, Copies, Wanted, Total, CopiesOk, LogOk;
    forall i | 0 <= i < |s.log| && Copied(s, i)
      ensures exists m :: m in source && m.importable && Some(m.id) == s.log[i].origin
    {
      CopyIsWanted(source, s.log, s.job.baseline, s.job.highWatermark, Readable(source, s.job), i);
    }
  }

  lemma RankGrows(log: seq<ArchiveEntry>, base: int, high: Option<int>, i: nat)
    requires i < |log| && IsCopy(log[i], base, high)
    ensures |Copies(log, base, high, i + 1)| == |Copies(log, base, high, i)| + 1
  {}

  lemma {:induction false} WantedComes(source: seq<SourceMessage>, n: nat, k: nat) returns (i: nat)
    requires n <= |source| && k < |Wanted(source, n)|
    ensures i < n && source[i].importable && source[i].id == Wanted(source, n)[k]
  {
    if k < |Wanted(source, n - 1)| {
      i := WantedComes(source, n - 1, k);
    } else {
      i := n - 1;
    }
  }

  lemma {:induction false} WantedHas(source: seq<SourceMessage>, n: nat, i: nat) returns (k: nat)
    requires i < n <= |source| && source[i].importable
    ensures k < |Wanted(source, n)| && Wanted(source, n)[k] == source[i].id
  {
    if i == n - 1 {
      k := |Wanted(source, n - 1)|;
    } else {
      k := WantedHas(source, n - 1, i);
    }
  }

  /** Every mapping names a real copy of its source message, and the mapping from source to archive is increasing. */
  lemma MappingIncreasing(source: seq<SourceMessage>, log: seq<ArchiveEntry>, es: seq<Event>)
    requires Source(source) && LogOk(log)
    ensures var s := Run(source, Start(log), es);
            forall id :: id in s.maps ==> ArchiveEntry(s.maps[id].archiveId, Some(id)) in s.log
    ensures var s := Run(source, Start(log), es);
            forall a, b :: a in s.maps && b in s.maps && a < b ==> s.maps[a].archiveId < s.maps[b].archiveId
  {
    Reached(source, log, es);
    MappingsAreCopies(source, Run(source, Start(log), es));
    MappingsAscend(source, Run(source, Start(log), es));
  }

  lemma MappingsAreCopies(source: seq<SourceMessage>, s: System)
    requires Source(source) && Inv(source, s)
    ensures forall id :: id in s.maps ==> ArchiveEntry(s.maps[id].archiveId, Some(id)) in s.log
  {
    hide WorkerOk, MarksOk, ProgressOk, StatusOk, Copies, Wanted, Total, LogOk;
    forall id | id in s.maps
      ensures ArchiveEntry(s.maps[id].archiveId, Some(id)) in s.log
    {
      var i :| 0 <= i < s.job.copied && AllWanted(source, s.job)[i] == id;
      var at := CopyAt(s.log, s.job.baseline, s.job.highWatermark, |s.log|, i);
      assert s.log[at] == ArchiveEntry(s.maps[id].archiveId, Some(id));
    }
  }

  lemma MappingsAscend(source: seq<SourceMessage>, s: System)
    requires Source(source) && Inv(source, s)
    ensures forall a, b :: a in s.maps && b in s.maps && a < b ==> s.maps[a].archiveId < s.maps[b].archiveId
  {
    hide WorkerOk, MarksOk, ProgressOk, StatusOk, Copies, Wanted, Total, LogOk, CopiesOk;
    Ordered(source, s);
    forall a, b | a in s.maps && b in s.maps && a < b
      ensures s.maps[a].archiveId < s.maps[b].archiveId
    {
      var i :| 0 <= i < s.job.copied && AllWanted(source, s.job)[i] == a;
      var j :| 0 <= j < s.job.copied && AllWanted(source, s.job)[j] == b;
    }
  }

  /** A message that lands is new: later in the source than every message copied so far. */
  lemma LandingIsNew(source: seq<SourceMessage>, log: seq<ArchiveEntry>, es: seq<Event>, e: Event)
    requires Source(source) && LogOk(log)
    requires e.Land? && Enabled(source, Run(source, Start(log), es), e)
    ensures var s := Run(source, Start(log), es);
            forall i :: 0 <= i < |s.log| && Copied(s, i) ==>
              s.log[i].origin.value < s.worker.toForward[|s.worker.landed|]
  {
    var s := Run(source, Start(log), es);
    assert (es + [e])[..|es|] == es;
    var t := Step(source, s, e);
    assert Run(source, Start(log), es + [e]) == t;
    Reached(source, log, es);
    LandIsCopy(source, s, e);
    hide Run, Inv;
    ExactlyOnceInOrder(source, log, es + [e]);
    forall i | 0 <= i < |s.log| && Copied(s, i)
      ensures s.log[i].origin.value < s.worker.toForward[|s.worker.landed|]
    {
      assert t.log[i] == s.log[i] && t.job == s.job;
      assert Copied(t, i) && Copied(t, |s.log|);
      assert t.log[i].origin.value < t.log[|s.log|].origin.value;
    }
  }

  lemma LandIsCopy(source: seq<SourceMessage>, s: System, e: Event)
    requires Source(source) && Inv(source, s) && e.Land? && Enabled(source, s, e)
    ensures Copied(Step(source, s, e), |s.log|)
  {
    hide Copies, Wanted, Total, Skips, MarksOk;
    Ordered(source, s);
  }

  // ---- Checkpoints and counters -----------------------------------------------------------

  /** The checkpoint never passes an importable source message that is not mapped. */
  lemma CheckpointIsSafe(source: seq<SourceMessage>, log: seq<ArchiveEntry>, es: seq<Event>)
    requires Source(source) && LogOk(log)
    ensures var s := Run(source, Start(log), es);
            forall m :: m in source && m.importable && m.id <= s.job.lastCopied ==> m.id in s.maps
  {
    Reached(source, log, es);
    var s := Run(source, Start(log), es);
    hide Run, WorkerOk, MarksOk, StatusOk, CopiesOk, Copies, Wanted, Total;
    if s.job.highWatermark.Some? {
      TotalReads(source, s.job.lastCopied);
      WantedPrefix(source, s.job.processed, Readable(source, s.job));
      forall m | m in source && m.importable && m.id <= s.job.lastCopied
        ensures m.id in s.maps
      {
        var i :| 0 <= i < |source| && source[i] == m;
        var k := WantedHas(source, s.job.processed, i);
        assert AllWanted(source, s.job)[k] in s.maps;
      }
    }
  }

  lemma {:induction false} ReadSplits(source: seq<SourceMessage>, n: nat)
    requires n <= |source|
    ensures n == Skips(source, 0, n) + |Wanted(source, n)|
  {
    if n > 0 {
      ReadSplits(source, n - 1);
    }
  }

  /** The counters add up: what was read is what lies behind the checkpoint, skipped or importable; one mapping per copy
      counted; one mark per message re-indexed or found missing, full replays included. */
  lemma CountersAddUp(source: seq<SourceMessage>, log: seq<ArchiveEntry>, es: seq<Event>)
    requires Source(source) && LogOk(log)
    ensures var s := Run(source, Start(log), es);
            && s.job.copied == |s.maps| && s.job.reconciled <= s.job.copied
            && s.job.reindexed + s.job.missing == |MarkedIds(s.maps)| <= |s.maps|
            && s.job.processed == Read(source, s.job)
            && s.job.processed == s.job.skipped + |Wanted(source, s.job.processed)|
  {
    Reached(source, log, es);
    var s := Run(source, Start(log), es);
    hide Run, WorkerOk, StatusOk, CopiesOk, Copies, Wanted, Total, Skips;
    if s.job.highWatermark.Some? {
      ReadSplits(source, s.job.processed);
      MarkedFew(s.maps);
    } else {
      TotalIs(source, 0, 0);
      ReadSplits(source, 0);
      assert MarkedIds(s.maps) == {};
    }
  }

  lemma MarkedFew(maps: Mappings)
    ensures |MarkedIds(maps)| <= |maps|
  {
    assert MarkedIds(maps) <= maps.Keys;
    SubsetSize(MarkedIds(maps), maps.Keys);
  }

  // ---- Recovery and completion ------------------------------------------------------------

  /** Once the tail of the archive has been scanned again, every copy ever landed is mapped, whatever was lost. */
  lemma ScanRecovers(source: seq<SourceMessage>, log: seq<ArchiveEntry>, es: seq<Event>)
    requires Source(source) && LogOk(log)
    requires Run(source, Start(log), es).worker.Copying?
    ensures var s := Run(source, Start(log), es);
            forall i :: 0 <= i < |s.log| && Copied(s, i) ==>
              s.log[i].origin.value in s.maps && s.maps[s.log[i].origin.value].archiveId == s.log[i].id
  {
    Reached(source, log, es);
    var s := Run(source, Start(log), es);
    hide Run, MarksOk, ProgressOk, StatusOk, Copies, Wanted, Total;
    forall i | 0 <= i < |s.log| && Copied(s, i)
      ensures s.log[i].origin.value in s.maps && s.maps[s.log[i].origin.value].archiveId == s.log[i].id
    {
      RankOfCopy(s.log, s.job.baseline, s.job.highWatermark, i);
    }
  }

  /** A finished transfer has mapped every importable message up to the watermark; a completed job has read or missed
      each of them in the archive. */
  lemma FinishedMeansAll(source: seq<SourceMessage>, log: seq<ArchiveEntry>, es: seq<Event>)
    requires Source(source) && LogOk(log)
    ensures var s := Run(source, Start(log), es);
            s.job.status.Transferred? || s.job.status.Reindexing? || s.job.status.Completed? ==>
              forall m :: m in source && m.importable && m.id <= s.job.highWatermark.GetOr(0) ==> m.id in s.maps
    ensures var s := Run(source, Start(log), es);
            s.job.status.Completed? ==>
              && s.job.reindexed + s.job.missing == s.job.copied == |AllWanted(source, s.job)|
              && forall id :: id in s.maps ==> s.maps[id].reindexed
  {
    Reached(source, log, es);
    var s := Run(source, Start(log), es);
    hide Run, WorkerOk, Copies, Wanted, Total;
    if s.job.status.Transferred? || s.job.status.Reindexing? || s.job.status.Completed? {
      TotalReads(source, s.job.highWatermark.GetOr(0));
      forall m | m in source && m.importable && m.id <= s.job.highWatermark.GetOr(0)
        ensures m.id in s.maps
      {
        var i :| 0 <= i < |source| && source[i] == m;
        var k := WantedHas(source, Readable(source, s.job), i);
        assert AllWanted(source, s.job)[k] in s.maps;
      }
    }
    if s.job.status.Completed? {
      assert s.job.highWatermark.Some?;
      assert forall id :: id in s.maps ==> s.maps[id].reindexed;
      assert MarkedIds(s.maps) == s.maps.Keys;
    }
  }

  // ---- What is never undone ---------------------------------------------------------------

  lemma {:induction false} InsertOnlyAdds(maps: Mappings, pairs: seq<(int, int)>)
    ensures var r := InsertMappings(maps, pairs).0;
            forall id :: id in maps ==> id in r && r[id] == maps[id]
  {
    if pairs != [] {
      InsertOnlyAdds(maps, pairs[..|pairs| - 1]);
    }
  }

  ghost predicate Advanced(s: System, t: System) {
    && s.log <= t.log
    && s.job.lastCopied <= t.job.lastCopied && s.job.lastReindexed <= t.job.lastReindexed
    && s.job.copied <= t.job.copied
    && (s.job.highWatermark.Some? ==> t.job.highWatermark == s.job.highWatermark && t.job.baseline == s.job.baseline)
    && forall id :: id in s.maps ==>
         && id in t.maps && t.maps[id].archiveId == s.maps[id].archiveId
         && (s.maps[id].reindexed ==> t.maps[id].reindexed)
  }

  /** No step, not even a crash, takes back a copy, a mapping, a mark, a checkpoint or the limits of the job. */
  lemma StepAdvances(source: seq<SourceMessage>, s: System, e: Event)
    requires Enabled(source, s, e)
    ensures Advanced(s, Step(source, s, e))
  {
    hide InsertMappings, Total, Wanted, Skips, Copies, ToForward;
    if e.Flush? {
      InsertOnlyAdds(s.maps, s.worker.pending);
    } else if e.Commit? {
      InsertOnlyAdds(s.maps, Pairs(s.worker.toForward, s.worker.landed));
    }
  }

  lemma {:induction false} RunAdvances(source: seq<SourceMessage>, s: System, es: seq<Event>)
    ensures Advanced(s, Run(source, s, es))
    decreases |es|
  {
    hide Enabled, Step;
    if es != [] {
      RunAdvances(source, s, es[..|es| - 1]);
      var before := Run(source, s, es[..|es| - 1]);
      if Enabled(source, before, es[|es| - 1]) {
        StepAdvances(source, before, es[|es| - 1]);
      }
    }
  }
}
