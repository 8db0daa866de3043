/** What the counters of a job count, told by the events of its run. */
module ImportCounters {
  import opened Wrappers
  import opened ImportProtocol
  import opened ImportInvariant
  import opened ImportGuarantees

  function With(m: map<int, bool>, b: bool): set<int> {
    set id | id in m && m[id] == b
  }

  lemma WithOneMore(m: map<int, bool>, id: int, b: bool, c: bool)
    requires id !in m
    ensures |With(m[id := b], c)| == |With(m, c)| + if b == c then 1 else 0
  {
    assert With(m[id := b], c) == if b == c then With(m, c) + {id} else With(m, c);
  }

  // ---- Messages read again, and messages missed -------------------------------------------

  /** For each message the re-index has come to, whether the archive had lost it the first time. */
  ghost function FirstMarks(source: seq<SourceMessage>, s: System, es: seq<Event>): map<int, bool>
    decreases |es|
  {
    if es == [] then map[]
    else
      var marks, e := FirstMarks(source, s, es[..|es| - 1]), es[|es| - 1];
      if e.MarkNext? && Enabled(source, Run(source, s, es[..|es| - 1]), e) && e.id !in marks
      then marks[e.id := e.missing] else marks
  }

  ghost predicate Counted(job: Job, maps: Mappings, marks: map<int, bool>) {
    marks.Keys == MarkedIds(maps) && job.missing == |With(marks, true)| && job.reindexed == |With(marks, false)|
  }

  lemma {:induction false} InsertedCounted(maps: Mappings, pairs: seq<(int, int)>)
    ensures var r := InsertMappings(maps, pairs);
            |r.0| == |maps| + r.1
  {
    if pairs != [] {
      InsertedCounted(maps, pairs[..|pairs| - 1]);
    }
  }

  lemma OtherStepMarksNone(source: seq<SourceMessage>, s: System, e: Event)
    requires Enabled(source, s, e) && !e.MarkNext?
    ensures var t := Step(source, s, e);
            MarkedIds(t.maps) == MarkedIds(s.maps) && t.job.missing == s.job.missing
              && t.job.reindexed == s.job.reindexed
  {
    hide InsertMappings, Total, Wanted, Skips, Copies, ToForward, MarkedIds;
    if e.Flush? {
      InsertUnmarked(s.maps, s.worker.pending);
    } else if e.Commit? {
      InsertUnmarked(s.maps, Pairs(s.worker.toForward, s.worker.landed));
    }
  }

  lemma MarkCounted(source: seq<SourceMessage>, s: System, e: Event, marks: map<int, bool>)
    requires Enabled(source, s, e) && e.MarkNext? && Counted(s.job, s.maps, marks)
    ensures var t := Step(source, s, e);
            Counted(t.job, t.maps, if e.id in marks then marks else marks[e.id := e.missing])
  {
    var t := Step(source, s, e);
    assert MarkedIds(t.maps) == MarkedIds(s.maps) + {e.id};
    assert e.id in marks <==> e.id in MarkedIds(s.maps);
    if e.id !in marks {
      WithOneMore(marks, e.id, e.missing, true);
      WithOneMore(marks, e.id, e.missing, false);
    }
  }

  lemma {:induction false} RunCounted(source: seq<SourceMessage>, s: System, es: seq<Event>)
    requires Counted(s.job, s.maps, map[])
    ensures var t := Run(source, s, es); Counted(t.job, t.maps, FirstMarks(source, s, es))
    decreases |es|
  {
    hide Counted, Enabled, Step;
    if es != [] {
      var front, e := es[..|es| - 1], es[|es| - 1];
      RunCounted(source, s, front);
      var before := Run(source, s, front);
      if Enabled(source, before, e) {
        if e.MarkNext? {
          MarkCounted(source, before, e, FirstMarks(source, s, front));
        } else {
          OtherStepMarksNone(source, before, e);
          SameCounted(before, Step(source, before, e), FirstMarks(source, s, front));
        }
      }
    }
  }

  lemma SameCounted(s: System, t: System, marks: map<int, bool>)
    requires Counted(s.job, s.maps, marks) && MarkedIds(t.maps) == MarkedIds(s.maps)
    requires t.job.missing == s.job.missing && t.job.reindexed == s.job.reindexed
    ensures Counted(t.job, t.maps, marks)
  {
  }

  /** Over every run, crashes and replays included: `missing` counts the messages the archive had lost when the re-index
      first came to them, `reindexed` the others it has come to, and these are the marked ones. */
  lemma MarksCounted(source: seq<SourceMessage>, log: seq<ArchiveEntry>, es: seq<Event>)
    ensures var s, marks := Run(source, Start(log), es), FirstMarks(source, Start(log), es);
            && s.job.missing == |set id | id in marks && marks[id]|
            && s.job.reindexed == |set id | id in marks && !marks[id]|
            && forall id :: id in marks <==> id in s.maps && s.maps[id].reindexed
  {
    assert MarkedIds(NEW_MAPS) == {} && With(map[], true) == {} && With(map[], false) == {};
    RunCounted(source, Start(log), es);
    var s, marks := Run(source, Start(log), es), FirstMarks(source, Start(log), es);
    assert (set id | id in marks && marks[id]) == With(marks, true);
    assert (set id | id in marks && !marks[id]) == With(marks, false);
    assert forall id :: id in marks <==> id in MarkedIds(s.maps);
  }

  const NEW_MAPS: Mappings := map[]

  /** The re-index can go on from the last message marked: it is the greatest, and none behind it is unmarked. */
  lemma ResumesBehindNone(source: seq<SourceMessage>, log: seq<ArchiveEntry>, es: seq<Event>)
    requires Source(source) && LogOk(log)
    ensures var s := Run(source, Start(log), es);
            && (forall id :: id in s.maps ==> (s.maps[id].reindexed <==> id <= s.job.lastReindexed))
            && (s.job.lastReindexed == 0 || (s.job.lastReindexed in s.maps && s.maps[s.job.lastReindexed].reindexed))
  {
    Reached(source, log, es);
    hide Run, WorkerOk, StatusOk, CopiesOk, Copies, Wanted, Total, Skips;
  }

  // ---- Copies found again, and copies made ------------------------------------------------

  /** For each mapped message, whether it was found in the archive tail rather than committed with its batch. */
  ghost function FirstMapped(source: seq<SourceMessage>, s: System, es: seq<Event>): map<int, bool>
    decreases |es|
  {
    if es == [] then map[]
    else
      var front, e := es[..|es| - 1], es[|es| - 1];
      var found, before := FirstMapped(source, s, front), Run(source, s, front);
      found + Tagged(Run(source, s, es).maps.Keys - before.maps.Keys, e.Flush?)
  }

  ghost predicate Told(job: Job, maps: Mappings, found: map<int, bool>) {
    found.Keys == maps.Keys && job.reconciled == |With(found, true)|
  }

  function Tagged(keys: set<int>, b: bool): map<int, bool> {
    map id | id in keys :: b
  }

  lemma WithTagged(m: map<int, bool>, keys: set<int>, b: bool)
    requires m.Keys !! keys
    ensures (m + Tagged(keys, b)).Keys == m.Keys + keys
    ensures |With(m + Tagged(keys, b), true)| == |With(m, true)| + if b then |keys| else 0
  {
    assert With(m + Tagged(keys, b), true) == if b then With(m, true) + keys else With(m, true);
  }

  // What else has been mapped, by a flush or not.
  lemma ToldMore(job: Job, maps: Mappings, found: map<int, bool>, job': Job, maps': Mappings, flushed: bool)
    requires Told(job, maps, found) && maps.Keys <= maps'.Keys
    requires job'.reconciled == job.reconciled + if flushed then |maps'| - |maps| else 0
    ensures Told(job', maps', found + Tagged(maps'.Keys - maps.Keys, flushed))
  {
    hide With, Tagged;
    NewKeys(maps, maps');
    WithTagged(found, maps'.Keys - maps.Keys, flushed);
  }

  lemma NewKeys(a: Mappings, b: Mappings)
    requires a.Keys <= b.Keys
    ensures |b.Keys - a.Keys| == |b| - |a|
  {
    assert b.Keys == a.Keys + (b.Keys - a.Keys);
  }

  lemma StepMaps(source: seq<SourceMessage>, s: System, e: Event)
    requires Enabled(source, s, e)
    ensures var t := Step(source, s, e);
            && s.maps.Keys <= t.maps.Keys
            && t.job.reconciled == s.job.reconciled + if e.Flush? then |t.maps| - |s.maps| else 0
  {
    hide Total, Wanted, Skips, Copies, ToForward, InsertMappings;
    if e.Flush? {
      InsertedCounted(s.maps, s.worker.pending);
      InsertedKeys(s.maps, s.worker.pending);
    } else if e.Commit? {
      InsertedKeys(s.maps, Pairs(s.worker.toForward, s.worker.landed));
    }
  }

  lemma InsertedKeys(maps: Mappings, pairs: seq<(int, int)>)
    ensures maps.Keys <= InsertMappings(maps, pairs).0.Keys
  {
    InsertOnlyAdds(maps, pairs);
  }

  lemma StepTold(source: seq<SourceMessage>, s: System, e: Event, found: map<int, bool>)
    requires Enabled(source, s, e) && Told(s.job, s.maps, found)
    ensures var t := Step(source, s, e);
            Told(t.job, t.maps, found + Tagged(t.maps.Keys - s.maps.Keys, e.Flush?))
  {
    hide Enabled, Step, Told;
    StepMaps(source, s, e);
    var t := Step(source, s, e);
    ToldMore(s.job, s.maps, found, t.job, t.maps, e.Flush?);
  }

  lemma {:induction false} RunTold(source: seq<SourceMessage>, s: System, es: seq<Event>)
    requires Told(s.job, s.maps, map[])
    ensures var t := Run(source, s, es); Told(t.job, t.maps, FirstMapped(source, s, es))
    decreases |es|
  {
    hide Told, Enabled, Step;
    if es != [] {
      var front, e := es[..|es| - 1], es[|es| - 1];
      RunTold(source, s, front);
      var before := Run(source, s, front);
      if Enabled(source, before, e) {
        StepTold(source, before, e, FirstMapped(source, s, front));
      } else {
        NothingFound(source, s, es);
      }
    }
  }

  lemma NothingFound(source: seq<SourceMessage>, s: System, es: seq<Event>)
    requires es != [] && Run(source, s, es) == Run(source, s, es[..|es| - 1])
    ensures FirstMapped(source, s, es) == FirstMapped(source, s, es[..|es| - 1])
  {
    hide Run;
    var found := FirstMapped(source, s, es[..|es| - 1]);
    var keys := Run(source, s, es).maps.Keys;
    assert keys - keys == {} && Tagged({}, es[|es| - 1].Flush?) == map[];
    assert found + map[] == found;
  }

  /** Over every run `reconciled` counts the messages mapped from the archive tail after a crash or an interruption. */
  lemma ReconciledCounted(source: seq<SourceMessage>, log: seq<ArchiveEntry>, es: seq<Event>)
    ensures var s, found := Run(source, Start(log), es), FirstMapped(source, Start(log), es);
            found.Keys == s.maps.Keys && s.job.reconciled == |set id | id in found && found[id]|
  {
    assert With(map[], true) == {};
    RunTold(source, Start(log), es);
    var found := FirstMapped(source, Start(log), es);
    assert (set id | id in found && found[id]) == With(found, true);
  }

  // ---- The status table -------------------------------------------------------------------

  /** Where each status can be reached from, besides itself. */
  lemma ReachedFrom(from: JobStatus, to: JobStatus)
    requires from != to
    ensures Transition(NEW_JOB.(status := from), to).status == to <==>
            match to
            case Ready => false
            case Running => from.Ready? || from.Paused? || from.Failed? || from.Transferred?
            case Paused => from.Running? || from.Reindexing?
            case Failed => from.Ready? || from.Running? || from.Paused? || from.Reindexing?
            case Transferred => from.Running?
            case Reindexing => from.Paused? || from.Failed? || from.Transferred? || from.Completed?
            case Completed => from.Reindexing?
  {
  }

  /** How the status of a job moves: a scanned tail starts the transfer, the last batch ends it; re-indexing is shown
      unless a completed job only looks for what is new, and ends completed; an error is recorded if the work it stops
      is shown. */
  lemma JobStatusMoves(source: seq<SourceMessage>, s: System, e: Event)
    requires Source(source) && Inv(source, s) && Enabled(source, s, e)
    ensures var from, to := s.job.status, Step(source, s, e).job.status;
            match e
            case ScanDone => to.Running?
            case TransferDone => to.Transferred?
            case BeginReindex(full) => if from.Completed? && !full then to.Completed? else to.Reindexing?
            case ReindexDone => to.Completed?
            case Stop(target) => to == if from.Completed? then from else target
            case _ => to == from
  {
    hide Total, Wanted, Skips, Copies, ToForward, InsertMappings, MapsOk, MarksOk, LogOk, CopiesOk;
  }

  /** Where the process stands after each step; a crash leaves nothing of it. */
  lemma WorkerMoves(source: seq<SourceMessage>, s: System, e: Event)
    requires Source(source) && Inv(source, s) && Enabled(source, s, e)
    ensures var t := Step(source, s, e);
            match e
            case Foreign(entry) => t.worker == s.worker && t.log == s.log + [entry]
            case ReadHigh(high) => t.worker == HighRead(high)
            case ReadBaseline => t.worker == BaselineRead(s.worker.high, LastId(s.log))
            case BeginScan(after) =>
              && t.worker.Scanning? && t.worker.pending == []
              && (forall i :: 0 <= i < t.worker.pos <= |s.log| ==> s.log[i].id <= after)
              && (forall i :: t.worker.pos <= i < |s.log| ==> s.log[i].id > after)
            case ScanOne => t.worker.Scanning? && t.worker.pos == s.worker.pos + 1
              && s.worker.pending <= t.worker.pending
            case Flush => t.worker == Scanning(s.worker.pos, [])
            case ScanDone => t.worker.Copying?
            case BatchStart(_) => t.worker.Forwarding? && t.worker.landed == []
            case Land(id) => t.worker == Forwarding(s.worker.through, s.worker.toForward, s.worker.landed + [id])
            case Commit => t.worker.Copying?
            case BeginReindex(full) => t.worker == Marking(if full then 0 else s.job.lastReindexed)
            case MarkNext(id, _) => t.worker == Marking(id)
            case _ => t.worker.Idle?
  {
    hide Total, Wanted, Skips, Copies, ToForward, InsertMappings, MapsOk, MarksOk, CopiesOk;
    if e.BeginScan? {
      ScannedFrom(s.log, e.after, LastId(s.log));
    }
  }

  lemma {:induction false} ScannedFrom(log: seq<ArchiveEntry>, after: int, bound: int)
    requires forall i, j :: 0 <= i < j < |log| ==> log[i].id < log[j].id
    ensures var n := PosAfter(log, after);
            && (forall i :: 0 <= i < n ==> log[i].id <= after) && forall i :: n <= i < |log| ==> log[i].id > after
  {
    if log != [] && log[|log| - 1].id > after {
      ScannedFrom(log[..|log| - 1], after, bound);
    }
  }

  /** A batch maps what conflicts with nothing, wherever the checkpoint is; the counters and the checkpoint move only
      past it. */
  lemma BatchRecorded(s: System, through: int, processed: nat, skipped: nat, pairs: seq<(int, int)>)
    ensures var t, n := RecordBatch(s, through, processed, skipped, pairs), InsertMappings(s.maps, pairs).1;
            && t.maps == InsertMappings(s.maps, pairs).0 && t.log == s.log && t.worker == s.worker
            && t.job == if through > s.job.lastCopied
                        then s.job.(lastCopied := through, processed := s.job.processed + processed,
                                    skipped := s.job.skipped + skipped, copied := s.job.copied + n)
                        else s.job
  {
  }
}
