/** The import in the form of its source: rows updated in place, cursors and pending lists
    (src/cinegate/importer/service.py, src/cinegate/repositories/import_jobs.py). Every method is a series of steps of
    the machine in ImportProtocol, so what is proved of all runs holds of it wherever the process dies. */
module HistoricalImport {
  import opened Wrappers
  import opened ImportProtocol
  import opened ImportInvariant
  import opened ImportGuarantees

  // The mapped source messages in ids are the ones that follow `after`, in order and without a gap.
  ghost predicate Consecutive(maps: Mappings, after: int, ids: seq<int>) {
    forall i :: 0 <= i < |ids| ==> NextMapped(maps, Before(after, ids, i), ids[i])
  }

  function Before(after: int, ids: seq<int>, i: nat): int
    requires i <= |ids|
  {
    if i == 0 then after else ids[i - 1]
  }

  lemma NoneConsecutive(maps: Mappings, after: int)
    ensures Consecutive(maps, after, [])
  {}

  lemma ConsecutiveAppend(maps: Mappings, after: int, ids: seq<int>, id: int)
    requires Consecutive(maps, after, ids) && NextMapped(maps, Before(after, ids, |ids|), id)
    ensures Consecutive(maps, after, ids + [id])
  {
    hide NextMapped;
    assert forall i :: 0 <= i <= |ids| ==> Before(after, ids + [id], i) == Before(after, ids, i);
  }

  // Which message is next depends on which are mapped, not on how.
  lemma NextStays(a: Mappings, b: Mappings, after: int, id: int)
    requires a.Keys == b.Keys && NextMapped(a, after, id)
    ensures NextMapped(b, after, id)
  {
    assert forall k :: k in b ==> k in a;
  }

  /** The messages marked on the way, for which the archive has, or has not, lost the message. */
  ghost function NewlyMarked(a: Mappings, b: Mappings, missing: int -> bool, lost: bool): set<int> {
    set id | id in b && b[id].reindexed && !(id in a && a[id].reindexed) && missing(id) == lost
  }

  /** Each counter has grown by the messages newly marked that belong to it. */
  ghost predicate Tallied(job: Job, a: Mappings, job': Job, b: Mappings, missing: int -> bool) {
    && a.Keys == b.Keys && (forall id :: id in a && a[id].reindexed ==> b[id].reindexed)
    && job'.missing == job.missing + |NewlyMarked(a, b, missing, true)|
    && job'.reindexed == job.reindexed + |NewlyMarked(a, b, missing, false)|
  }

  lemma NoneTallied(job: Job, job': Job, maps: Mappings, missing: int -> bool)
    requires job'.missing == job.missing && job'.reindexed == job.reindexed
    ensures Tallied(job, maps, job', maps, missing)
  {
    assert NewlyMarked(maps, maps, missing, true) == {} && NewlyMarked(maps, maps, missing, false) == {};
  }

  lemma OneTallied(job: Job, maps: Mappings, job': Job, id: int, missing: int -> bool)
    requires id in maps
    requires job'.missing == job.missing + if !maps[id].reindexed && missing(id) then 1 else 0
    requires job'.reindexed == job.reindexed + if !maps[id].reindexed && !missing(id) then 1 else 0
    ensures Tallied(job, maps, job', maps[id := maps[id].(reindexed := true)], missing)
  {
    var b := maps[id := maps[id].(reindexed := true)];
    assert b.Keys == maps.Keys;
    assert NewlyMarked(maps, b, missing, true) == if !maps[id].reindexed && missing(id) then {id} else {};
    assert NewlyMarked(maps, b, missing, false) == if !maps[id].reindexed && !missing(id) then {id} else {};
  }

  lemma NewlyJoined(a: Mappings, b: Mappings, c: Mappings, missing: int -> bool, lost: bool)
    requires a.Keys == b.Keys == c.Keys
    requires forall id :: id in a && a[id].reindexed ==> b[id].reindexed
    requires forall id :: id in b && b[id].reindexed ==> c[id].reindexed
    ensures |NewlyMarked(a, c, missing, lost)|
            == |NewlyMarked(a, b, missing, lost)| + |NewlyMarked(b, c, missing, lost)|
  {
    assert forall id :: id in b <==> id in a.Keys;
    assert forall id :: id in c <==> id in a.Keys;
    var x, y := NewlyMarked(a, b, missing, lost), NewlyMarked(b, c, missing, lost);
    forall id
      ensures id in NewlyMarked(a, c, missing, lost) <==> id in x + y
    {
      assert id in a.Keys <==> id in c.Keys;
    }
    assert NewlyMarked(a, c, missing, lost) == x + y;
    assert x !! y;
  }

  lemma TalliedTwice(j0: Job, a: Mappings, j1: Job, b: Mappings, j2: Job, c: Mappings, missing: int -> bool)
    requires Tallied(j0, a, j1, b, missing) && Tallied(j1, b, j2, c, missing)
    ensures Tallied(j0, a, j2, c, missing)
  {
    hide NewlyMarked;
    assert forall id :: id in b <==> id in a.Keys;
    NewlyJoined(a, b, c, missing, true);
    NewlyJoined(a, b, c, missing, false);
  }

  /** Every mapped message from one to another has been read. */
  ghost predicate AllRead(maps: Mappings, from: int, through: int, events: seq<Event>, missing: int -> bool) {
    forall id :: id in maps && from < id <= through ==> MarkNext(id, missing(id)) in events
  }

  lemma OneRead(maps: Mappings, maps': Mappings, after: int, id: int, missing: int -> bool)
    requires maps'.Keys == maps.Keys && NextMapped(maps, after, id)
    ensures AllRead(maps', after, id, [MarkNext(id, missing(id))], missing)
  {
    assert forall k :: k in maps' ==> k in maps.Keys;
  }

  lemma ReadOn(maps: Mappings, maps': Mappings, from: int, through: int, last: int, es: seq<Event>, fs: seq<Event>,
               missing: int -> bool)
    requires maps'.Keys == maps.Keys && AllRead(maps, from, through, es, missing)
             && AllRead(maps', through, last, fs, missing)
    ensures AllRead(maps', from, last, es + fs, missing)
  {
    forall id | id in maps' && from < id <= last
      ensures MarkNext(id, missing(id)) in es + fs
    {
      assert id in maps.Keys;
    }
  }

  /** From one state of the tables to another: the counters have grown by what was newly marked, and the mapped messages
      of a stretch have been read on the way. */
  ghost predicate Progress(j: Job, a: Mappings, es: seq<Event>, from: int, through: int, j': Job, b: Mappings,
                           es': seq<Event>, missing: int -> bool)
  {
    Tallied(j, a, j', b, missing) && es <= es' && AllRead(b, from, through, es'[|es|..], missing)
  }

  lemma NoProgress(j: Job, j': Job, maps: Mappings, es: seq<Event>, es': seq<Event>, at: int, missing: int -> bool)
    requires j'.missing == j.missing && j'.reindexed == j.reindexed && es <= es'
    ensures Progress(j, maps, es, at, at, j', maps, es', missing)
  {
    hide Tallied;
    NoneTallied(j, j', maps, missing);
  }

  lemma OneProgress(s: System, j: Job, es: seq<Event>, after: int, id: int, missing: int -> bool)
    requires NextMapped(s.maps, after, id)
    requires j.missing == s.job.missing + if !s.maps[id].reindexed && missing(id) then 1 else 0
    requires j.reindexed == s.job.reindexed + if !s.maps[id].reindexed && !missing(id) then 1 else 0
    ensures Progress(s.job, s.maps, es, after, id, j, s.maps[id := s.maps[id].(reindexed := true)],
                     es + [MarkNext(id, missing(id))], missing)
  {
    hide Tallied;
    var b := s.maps[id := s.maps[id].(reindexed := true)];
    OneTallied(s.job, s.maps, j, id, missing);
    assert b.Keys == s.maps.Keys;
    OneRead(s.maps, b, after, id, missing);
    assert (es + [MarkNext(id, missing(id))])[|es|..] == [MarkNext(id, missing(id))];
  }

  lemma ProgressOn(j0: Job, a: Mappings, es0: seq<Event>, from: int, through: int, j1: Job, b: Mappings,
                   es1: seq<Event>,
                   last: int, j2: Job, c: Mappings, es2: seq<Event>, missing: int -> bool)
    requires Progress(j0, a, es0, from, through, j1, b, es1, missing)
    requires Progress(j1, b, es1, through, last, j2, c, es2, missing)
    ensures Progress(j0, a, es0, from, last, j2, c, es2, missing)
  {
    TalliedTwice(j0, a, j1, b, j2, c, missing);
    ReadOn(b, c, from, through, last, es1[|es0|..], es2[|es1|..], missing);
    hide NewlyMarked, AllRead;
    assert es2[|es0|..] == es1[|es0|..] + es2[|es1|..];
  }

  lemma ProgressSays(j: Job, a: Mappings, es: seq<Event>, from: int, through: int, j': Job, b: Mappings,
                     es': seq<Event>, missing: int -> bool)
    requires Progress(j, a, es, from, through, j', b, es', missing)
    ensures Tallied(j, a, j', b, missing) && es <= es'
    ensures (forall id :: id in b ==> id <= through) ==>
            forall id :: id in b && id > from ==> MarkNext(id, missing(id)) in es'[|es|..]
  {
    hide Tallied;
  }

  lemma FirstIsMapped(maps: Mappings, after: int, ids: seq<int>)
    requires Consecutive(maps, after, ids) && ids != []
    ensures ids[0] in maps && ids[0] > after
  {
  }

  class ArchiveImportRepository {
    var job: Job
    var maps: Mappings

    constructor ()
      ensures job == NEW_JOB && maps == map[]
    {
      job, maps := NEW_JOB, map[];
    }

    method InitializeSnapshot(high: int, baseline: int)
      modifies `job
      ensures old(job).highWatermark.Some? ==> job == old(job)
      ensures old(job).highWatermark.None? ==> job == old(job).(highWatermark := Some(high), baseline := baseline)
    {
      if job.highWatermark.None? {
        job := job.(highWatermark := Some(high), baseline := baseline);
      }
    }

    /** Moves the job to a status; refuses, changing nothing, when the table has no such transition. */
    method Mark(target: JobStatus) returns (ok: bool)
      modifies `job
      ensures job == Transition(old(job), target)
      ensures ok <==> job.status == target
    {
      ok := true;
      if job.status != target {
        if Allowed(job.status, target) {
          job := job.(status := target);
        } else {
          ok := false;
        }
      }
    }

    // One INSERT with ON CONFLICT DO NOTHING: a source or archive message already mapped is left alone.
    method Insert(pairs: seq<(int, int)>) returns (inserted: nat)
      modifies `maps
      ensures (maps, inserted) == InsertMappings(old(maps), pairs)
    {
      inserted := 0;
      for i := 0 to |pairs|
        invariant (maps, inserted) == InsertMappings(old(maps), pairs[..i])
      {
        assert pairs[..i + 1][..i] == pairs[..i];
        var (source, archive) := pairs[i];
        if !(source in maps || exists k :: k in maps && maps[k].archiveId == archive) {
          maps := maps[source := Mapping(archive, false)];
          inserted := inserted + 1;
        }
      }
      assert pairs[..|pairs|] == pairs;
    }

    method RecordReconciledMappings(pairs: seq<(int, int)>)
      modifies this
      ensures forall log, w :: System(job, maps, log, w) == RecordReconciled(System(old(job), old(maps), log, w), pairs)
    {
      hide InsertMappings;
      var inserted := Insert(pairs);
      if inserted > 0 {
        job := job.(copied := job.copied + inserted, reconciled := job.reconciled + inserted);
      }
    }

    method RecordTransferBatch(through: int, processed: nat, skipped: nat, pairs: seq<(int, int)>)
      modifies this
      ensures forall log, w :: System(job, maps, log, w)
                == RecordBatch(System(old(job), old(maps), log, w), through, processed, skipped, pairs)
    {
      hide InsertMappings;
      var inserted := Insert(pairs);
      if through > job.lastCopied {
        job := job.(lastCopied := through, processed := job.processed + processed,
                    skipped := job.skipped + skipped, copied := job.copied + inserted);
      }
    }

    method MarkReindexed(id: int, missing: bool) returns (ok: bool)
      modifies this
      ensures ok <==> id in old(maps)
      ensures !ok ==> job == old(job) && maps == old(maps)
      ensures ok ==> job.missing == old(job).missing + if !old(maps)[id].reindexed && missing then 1 else 0
      ensures ok ==> job.reindexed == old(job).reindexed + if !old(maps)[id].reindexed && !missing then 1 else 0
      ensures ok ==> maps == old(maps)[id := old(maps)[id].(reindexed := true)]
      ensures ok ==> forall log, w ::
                System(job, maps, log, w) == ImportProtocol.MarkReindexed(System(old(job), old(maps), log, w), id,
                  missing)
    {
      ok := id in maps;
      if ok {
        if !maps[id].reindexed {
          maps := maps[id := maps[id].(reindexed := true)];
          if missing {
            job := job.(missing := job.missing + 1);
          } else {
            job := job.(reindexed := job.reindexed + 1);
          }
        }
        if id > job.lastReindexed {
          job := job.(lastReindexed := id);
        }
        assert maps == old(maps)[id := old(maps)[id].(reindexed := true)];
      }
    }

    method MaxMappedArchiveId() returns (best: Option<int>)
      ensures best.None? <==> maps == map[]
      ensures best.Some? ==> IsMaxMapped(maps, best.value)
    {
      best := None;
      var rest: set<int> := maps.Keys;
      while rest != {}
        invariant rest <= maps.Keys
        invariant best.None? <==> rest == maps.Keys
        invariant best.Some? ==> exists k :: k in maps && k !in rest && maps[k].archiveId == best.value
        invariant best.Some? ==> forall k :: k in maps && k !in rest ==> maps[k].archiveId <= best.value
        decreases |rest|
      {
        ghost var some := Inhabited(rest);
        var k :| k in rest;
        if best.None? || maps[k].archiveId > best.value {
          best := Some(maps[k].archiveId);
        }
        rest := rest - {k};
      }
    }

    // The first mapped source message after another.
    method NextAfter(after: int) returns (next: Option<int>)
      ensures next.None? <==> forall k :: k in maps ==> k <= after
      ensures next.Some? ==> NextMapped(maps, after, next.value)
    {
      next := None;
      var rest: set<int> := maps.Keys;
      while rest != {}
        invariant rest <= maps.Keys
        invariant next.None? ==> forall k :: k in maps && k !in rest ==> k <= after
        invariant next.Some? ==> next.value in maps && next.value > after
        invariant next.Some? ==> forall k :: k in maps && k !in rest && k > after ==> next.value <= k
        decreases |rest|
      {
        ghost var some := Inhabited(rest);
        var k :| k in rest;
        if k > after && (next.None? || k < next.value) {
          next := Some(k);
        }
        rest := rest - {k};
      }
    }

    /** At most `limit` mapped source messages after another, in ascending order, without a gap. */
    method ListMappingsAfter(after: int, limit: nat) returns (ids: seq<int>)
      requires limit > 0
      ensures |ids| <= limit
      ensures Consecutive(maps, after, ids)
      ensures |ids| < limit ==> forall k :: k in maps ==> k <= Before(after, ids, |ids|)
    {
      hide NextMapped, Consecutive;
      assert Consecutive(maps, after, []) by { NoneConsecutive(maps, after); }
      ids := [];
      var cursor := after;
      while |ids| < limit
        invariant |ids| <= limit
        invariant cursor == Before(after, ids, |ids|)
        invariant Consecutive(maps, after, ids)
      {
        var next := NextAfter(cursor);
        if next.None? {
          return;
        }
        cursor := next.value;
        ConsecutiveAppend(maps, after, ids, cursor);
        ids := ids + [cursor];
      }
    }
  }

  class ArchiveChannel {
    var log: seq<ArchiveEntry>

    constructor (log: seq<ArchiveEntry>)
      ensures this.log == log
    {
      this.log := log;
    }
  }

  datatype Outcome = Done | Refused | Halted | Died

  // What forwarding a batch can come to.
  datatype Reply = Forwarded(ids: seq<int>) | Trouble(target: JobStatus) | Lost

  // How Telegram answers one attempt to forward: wait first, with nothing done; an error, whatever it has done before;
  // or the copies it has made.
  datatype Answer = FloodWait(seconds: nat) | Refusal(noAccess: bool) | Taken

  class HistoricalImportService {
    const source: seq<SourceMessage>
    const repository: ArchiveImportRepository
    const archive: ArchiveChannel
    const batchSize: nat
    const reindexBatchSize: nat
    const floodWaitLimit: nat
    ghost const first: seq<ArchiveEntry>
    ghost var worker: Worker
    ghost var events: seq<Event>

    ghost function View(): System
      reads this, repository, archive
    {
      System(repository.job, repository.maps, archive.log, worker)
    }

    // The rows and the archive are what the machine reaches by the events so far.
    ghost predicate Valid()
      reads this, repository, archive
    {
      && Source(source) && LogOk(first) && 1 <= batchSize <= 100 && 1 <= reindexBatchSize <= 500
      && View() == Run(source, Start(first), events)
    }

    constructor (source: seq<SourceMessage>, archive: ArchiveChannel, batchSize: nat, reindexBatchSize: nat,
                 floodWaitLimit: nat)
      requires Source(source) && LogOk(archive.log) && 1 <= batchSize <= 100 && 1 <= reindexBatchSize <= 500
               && floodWaitLimit > 0
      ensures Valid() && worker.Idle? && fresh(repository)
      ensures this.source == source && this.archive == archive
    {
      this.source, this.archive, this.batchSize, this.reindexBatchSize := source, archive, batchSize, reindexBatchSize;
      this.floodWaitLimit := floodWaitLimit;
      repository := new ArchiveImportRepository();
      first, worker, events := archive.log, Idle, [];
    }

    // The rows have just made one step of the machine.
    ghost method Note(before: System, e: Event)
      requires Source(source) && LogOk(first) && 1 <= batchSize <= 100 && 1 <= reindexBatchSize <= 500
      requires before == Run(source, Start(first), events) && Enabled(source, before, e)
      requires Step(source, before, e) == View().(worker := Step(source, before, e).worker)
      modifies `worker, `events
      ensures Valid() && View() == Step(source, before, e) && events == old(events) + [e]
    {
      hide Enabled, Step;
      worker := Step(source, before, e).worker;
      events := events + [e];
      assert events[..|events| - 1] == old(events);
    }

    // The process dies: only the rows and the archive remain.
    ghost method Die()
      requires Valid()
      modifies `worker, `events
      ensures Valid() && worker.Idle? && events == old(events) + [Crash]
    {
      Note(View(), Crash);
    }

    // Records an error in the job; the status table may refuse it.
    method Halt(target: JobStatus)
      requires Valid() && (target.Paused? || target.Failed?)
               && (worker.Copying? || worker.Forwarding? || worker.Marking?)
      modifies this`worker, this`events, repository`job
      ensures Valid() && worker.Idle? && repository.job == Transition(old(repository.job), target)
      ensures events == old(events) + [Stop(target)]
    {
      ghost var before := View();
      var ok := repository.Mark(target);
      Note(before, Stop(target));
    }

    /** Maps every copy found in the archive after the last mapped one, a hundred at a time. */
    method ReconcileArchiveTail() returns (o: Outcome)
      requires Valid() && worker.Idle? && repository.job.highWatermark.Some?
      requires !repository.job.status.Completed? && !repository.job.status.Reindexing?
      modifies this`worker, this`events, repository
      ensures Valid() && (o.Done? || o.Died?)
      ensures repository.job.status == old(repository.job.status)
              && repository.job.highWatermark == old(repository.job.highWatermark)
      ensures o.Done? ==> worker == Scanning(|archive.log|, [])
      ensures o.Died? ==> worker.Idle?
    {
      hide Run, RecordReconciled;
      var last := repository.MaxMappedArchiveId();
      var after := match last case Some(id) => id case None => repository.job.baseline;
      var pos := PosAfter(archive.log, after);
      var pending: seq<(int, int)> := [];
      Note(View(), BeginScan(after));
      while pos < |archive.log|
        invariant Valid() && pos <= |archive.log| && worker == Scanning(pos, pending)
        invariant repository.job.status == old(repository.job.status)
        invariant repository.job.highWatermark == old(repository.job.highWatermark)
      {
        var entry := archive.log[pos];
        if entry.origin.Some? && entry.origin.value <= repository.job.highWatermark.value {
          pending := pending + [(entry.origin.value, entry.id)];
        }
        pos := pos + 1;
        Note(View(), ScanOne);
        var dies: bool := *;
        if dies {
          Die();
          return Died;
        }
        if |pending| >= 100 {
          Flush(pos, pending);
          pending := [];
        }
      }
      if pending != [] {
        Flush(pos, pending);
      }
      return Done;
    }

    // One transaction: the pending copies become mappings.
    method Flush(ghost pos: nat, pending: seq<(int, int)>)
      requires Valid() && worker == Scanning(pos, pending)
      modifies this`worker, this`events, repository
      ensures Valid() && worker == Scanning(pos, [])
      ensures repository.job.status == old(repository.job.status)
              && repository.job.highWatermark == old(repository.job.highWatermark)
    {
      hide Run, InsertMappings;
      ghost var before := View();
      repository.RecordReconciledMappings(pending);
      Note(before, Event.Flush);
    }

    /** Forwards one batch. Telegram may first ask to wait, up to three times; it lands the copies one by one, in order.
        It may stop early, it may answer with an error before or after some or all of them, and the process may die in
        between. */
    method ForwardBatch(messages: seq<int>, ghost through: nat) returns (reply: Reply, floodRetries: nat)
      requires Valid() && worker == Forwarding(through, messages, [])
      modifies this`worker, this`events, archive
      ensures Valid() && old(archive.log) <= archive.log && |archive.log| <= |old(archive.log)| + |messages|
      ensures reply.Forwarded? ==> |reply.ids| <= |messages| && worker == Forwarding(through, messages, reply.ids)
      ensures reply.Trouble? ==> (reply.target.Paused? || reply.target.Failed?)
                                 && worker.Forwarding? && worker.through == through && worker.toForward == messages
      ensures reply.Lost? ==> worker.Idle?
      ensures floodRetries <= if reply.Trouble? then 4 else 3
      ensures floodRetries == 4 ==> archive.log == old(archive.log)
    {
      hide Run;
      var ids: seq<int> := [];
      floodRetries := 0;
      if messages == [] {
        return Forwarded(ids), 0;
      }
      var answer: Answer := *;
      while answer.FloodWait?
        invariant Valid() && worker == Forwarding(through, messages, []) && archive.log == old(archive.log)
                  && floodRetries <= 3
        decreases 3 - floodRetries
      {
        if answer.seconds > floodWaitLimit {
          return Trouble(Paused), floodRetries;
        }
        floodRetries := floodRetries + 1;
        if floodRetries > 3 {
          return Trouble(Paused), floodRetries;
        }
        answer := *;
      }
      var goesOn: bool := *;
      while goesOn && |ids| < |messages|
        invariant Valid() && |ids| <= |messages| && worker == Forwarding(through, messages, ids)
        invariant old(archive.log) <= archive.log && |archive.log| == |old(archive.log)| + |ids|
        decreases |messages| - |ids|
      {
        ghost var before := View();
        var id: int :| id > LastId(archive.log);
        archive.log := archive.log + [ArchiveEntry(id, Some(messages[|ids|]))];
        ids := ids + [id];
        Note(before, Land(id));
        goesOn := *;
      }
      var dies: bool := *;
      if dies {
        Die();
        return Lost, floodRetries;
      }
      if answer.Refusal? {
        return Trouble(if answer.noAccess then Failed else Paused), floodRetries;
      }
      return Forwarded(ids), floodRetries;
    }

    // One transaction: the checkpoint moves past the batch and its copies become mappings.
    method CommitBatch(pos: nat, end: nat, skipped: nat, messages: seq<int>, ids: seq<int>)
      requires Valid() && worker == Forwarding(end, messages, ids) && |ids| == |messages|
      requires pos == Read(source, repository.job) < end <= |source| && skipped == Skips(source, pos, end)
      modifies this`worker, this`events, repository
      ensures Valid() && worker.Copying? && end == Read(source, repository.job)
      ensures repository.job.status == old(repository.job.status)
              && repository.job.highWatermark == old(repository.job.highWatermark)
    {
      hide Run, InsertMappings, Skips, Total;
      TotalReads(source, repository.job.lastCopied);
      TotalIs(source, source[end - 1].id, end);
      ghost var before := View();
      repository.RecordTransferBatch(source[end - 1].id, end - pos, skipped, Pairs(messages, ids));
      Note(before, Commit);
    }

    /** Copies batch after batch, from the checkpoint to the watermark. */
    method TransferMessages() returns (o: Outcome)
      requires Valid() && worker.Copying? && repository.job.status.Running? && repository.job.highWatermark.Some?
      modifies this`worker, this`events, repository, archive
      ensures Valid() && !o.Refused?
      ensures o.Done? ==> worker.Copying? && repository.job.status.Running?
      ensures o.Done? ==> Read(source, repository.job) >= Readable(source, repository.job)
      ensures !o.Done? ==> worker.Idle?
      ensures o.Halted? ==> repository.job.status.Paused? || repository.job.status.Failed?
    {
      hide Run, Total, Skips, ToForward;
      var high := repository.job.highWatermark.value;
      var pos := Total(source, repository.job.lastCopied);
      TotalReads(source, high);
      while pos < |source| && source[pos].id <= high
        invariant Valid() && worker.Copying? && repository.job.status.Running?
                  && repository.job.highWatermark == Some(high)
        invariant pos == Read(source, repository.job)
        decreases |source| - pos
      {
        var end, skipped, messages := ReadBatch(pos, high);
        Note(View(), BatchStart(batchSize));
        var reply, _ := ForwardBatch(messages, end);
        match reply {
          case Lost =>
            return Died;
          case Trouble(target) =>
            Halt(target);
            return Halted;
          case Forwarded(ids) =>
            if |ids| != |messages| {
              Halt(Paused);
              return Halted;
            }
            CommitBatch(pos, end, skipped, messages, ids);
        }
        pos := end;
      }
      return Done;
    }

    // The next batch of the source: where it ends, and what of it is neither skipped nor mapped already.
    method ReadBatch(pos: nat, high: int) returns (end: nat, skipped: nat, messages: seq<int>)
      requires Source(source) && 1 <= batchSize && pos < Total(source, high)
      ensures pos < end == Min(pos + batchSize, Total(source, high))
      ensures skipped == Skips(source, pos, end) && messages == ToForward(source, repository.maps, pos, end)
    {
      hide Total;
      TotalReads(source, high);
      end, skipped, messages := pos, 0, [];
      while end - pos < batchSize && end < |source| && source[end].id <= high
        invariant pos <= end <= Total(source, high) && end - pos <= batchSize
        invariant skipped == Skips(source, pos, end) && messages == ToForward(source, repository.maps, pos, end)
        decreases |source| - end
      {
        var message := source[end];
        end := end + 1;
        if !message.importable {
          skipped := skipped + 1;
        } else if message.id !in repository.maps {
          messages := messages + [message.id];
        }
      }
    }

    /** Copies the source to the archive; may be called again after any failure or crash. */
    method Transfer(sourceHigh: int) returns (o: Outcome)
      requires Valid() && worker.Idle?
      modifies this`worker, this`events, repository, archive
      ensures Valid() && worker.Idle?
      ensures o.Refused? <==> old(repository.job.status).Reindexing?
      ensures o.Done? ==> repository.job.status.Transferred? || repository.job.status.Completed?
      ensures o.Done? ==> forall m :: m in source && m.importable && m.id <= repository.job.highWatermark.GetOr(0) ==>
                            m.id in repository.maps
    {
      hide Run, Total, Copies, Wanted;
      if repository.job.status.Completed? {
        FinishedMeansAll(source, first, events);
        return Done;
      }
      if repository.job.status.Reindexing? {
        return Refused;
      }
      var alive := InitializeSnapshotIfNeeded(sourceHigh);
      if !alive {
        return Died;
      }
      o := ReconcileArchiveTail();
      if o.Died? {
        return;
      }
      MarkRunning();
      o := TransferMessages();
      if !o.Done? {
        return;
      }
      MarkTransferred();
    }

    /** Reads where the source and the archive end, one after the other, and records both; the archive may grow
        meanwhile. */
    method InitializeSnapshotIfNeeded(sourceHigh: int) returns (alive: bool)
      requires Valid() && worker.Idle? && !repository.job.status.Completed? && !repository.job.status.Reindexing?
      modifies this`worker, this`events, repository
      ensures Valid() && worker.Idle?
      ensures alive ==> repository.job.highWatermark.Some?
      ensures repository.job.status == old(repository.job.status)
      ensures old(repository.job).highWatermark.Some? ==> alive && repository.job == old(repository.job)
    {
      hide Run, Total, Copies, Wanted;
      if repository.job.highWatermark.Some? {
        return true;
      }
      Note(View(), ReadHigh(sourceHigh));
      var archiveBaseline := LastId(archive.log);
      Note(View(), ReadBaseline);
      var dies: bool := *;
      if dies {
        Die();
        return false;
      }
      ghost var before := View();
      repository.InitializeSnapshot(sourceHigh, archiveBaseline);
      Note(before, Initialize);
      alive := true;
    }

    method MarkRunning()
      requires Valid() && worker == Scanning(|archive.log|, [])
      requires !repository.job.status.Completed? && !repository.job.status.Reindexing?
      modifies this`worker, this`events, repository
      ensures Valid() && worker.Copying? && repository.job == old(repository.job).(status := Running)
    {
      hide Run, Total, Copies, Wanted;
      ghost var scanned := View();
      var ok := repository.Mark(Running);
      assert ok;
      Note(scanned, ScanDone);
    }

    method MarkTransferred()
      requires Valid() && worker.Copying? && repository.job.status.Running?
      requires Read(source, repository.job) >= Readable(source, repository.job)
      modifies this`worker, this`events, repository
      ensures Valid() && worker.Idle? && repository.job == old(repository.job).(status := Transferred)
      ensures forall m :: m in source && m.importable && m.id <= repository.job.highWatermark.GetOr(0) ==>
              m.id in repository.maps
    {
      hide Run, Total, Copies, Wanted;
      ghost var copied := View();
      var ok := repository.Mark(Transferred);
      assert ok;
      Note(copied, TransferDone);
      FinishedMeansAll(source, first, events);
    }

    /** Reads the copies back into the index, a full replay or only those not yet read; `missing` is whether the archive
        still has the message. */
    method Reindex(full: bool, missing: int -> bool) returns (o: Outcome)
      requires Valid() && worker.Idle?
      modifies this`worker, this`events, repository
      ensures Valid() && worker.Idle?
      ensures o.Refused? <==> var job := old(repository.job);
                              || job.status.Ready? || job.status.Running?
                              || ((job.status.Paused? || job.status.Failed?)
                                  && (job.highWatermark.None? || job.lastCopied < job.highWatermark.value))
      ensures o.Refused? ==> repository.job == old(repository.job) && repository.maps == old(repository.maps)
      ensures o.Done? ==> repository.job.status.Completed?
      ensures o.Done? ==> forall id :: id in repository.maps ==> repository.maps[id].reindexed
      ensures o.Done? ==>
                repository.job.reindexed + repository.job.missing == repository.job.copied == |repository.maps|
      ensures Tallied(old(repository.job), old(repository.maps), repository.job, repository.maps, missing)
      ensures old(events) <= events
      ensures o.Done? ==> forall id ::
                id in repository.maps && (full || id > old(repository.job.lastReindexed)) && id > 0 ==>
                  MarkNext(id, missing(id)) in events[|old(events)|..]
    {
      hide Run, Total, Copies, Wanted, Skips, Progress, Consecutive, AllRead, Tallied;
      var after: int;
      o, after := StartReindex(full);
      ghost var from := after;
      NoProgress(old(repository.job), repository.job, repository.maps, old(events), events, from, missing);
      if o.Refused? {
        ProgressSays(old(repository.job), old(repository.maps), old(events), from, after, repository.job,
                     repository.maps,
                     events, missing);
        return;
      }
      var ids := repository.ListMappingsAfter(after, reindexBatchSize);
      while ids != []
        invariant Valid() && worker == Marking(after)
        invariant repository.maps.Keys == old(repository.maps.Keys)
        invariant repository.job.status.Completed? || repository.job.status.Reindexing?
        invariant Consecutive(repository.maps, after, ids)
        invariant ids == [] ==> forall k :: k in repository.maps ==> k <= after
        invariant Progress(old(repository.job), old(repository.maps), old(events), from, after, repository.job,
                           repository.maps, events, missing)
        decreases set k | k in repository.maps && k > after
      {
        ghost var todo := set k | k in repository.maps && k > after;
        ghost var known, es, last := View(), events, after;
        o, after := ReindexBatch(ids, after, missing);
        ProgressOn(old(repository.job), old(repository.maps), old(events), from, last, known.job, known.maps, es, after,
                   repository.job, repository.maps, events, missing);
        if !o.Done? {
          ProgressSays(old(repository.job), old(repository.maps), old(events), from, after, repository.job,
                       repository.maps, events, missing);
          return;
        }
        assert ids[0] in todo && ids[0] !in (set k | k in repository.maps && k > after) by {
          FirstIsMapped(known.maps, last, ids);
        }
        ids := repository.ListMappingsAfter(after, reindexBatchSize);
      }
      ghost var known, es := View(), events;
      FinishReindex(after);
      NoProgress(known.job, repository.job, repository.maps, es, events, after, missing);
      ProgressOn(old(repository.job), old(repository.maps), old(events), from, after, known.job, known.maps, es, after,
                 repository.job, repository.maps, events, missing);
      ProgressSays(old(repository.job), old(repository.maps), old(events), from, after, repository.job, repository.maps,
                   events, missing);
      return Done;
    }

    // One chunk, unless the archive cannot be read.
    method ReindexBatch(ids: seq<int>, from: int, missing: int -> bool) returns (o: Outcome, after: int)
      requires Valid() && worker == Marking(from) && ids != [] && Consecutive(repository.maps, from, ids)
      modifies this`worker, this`events, repository
      ensures Valid() && (o.Done? || o.Halted? || o.Died?) && repository.maps.Keys == old(repository.maps.Keys)
      ensures o.Done? ==> repository.job.status == old(repository.job.status)
      ensures o.Done? ==> worker == Marking(after) && after >= ids[0] > from
      ensures !o.Done? ==> worker.Idle?
      ensures Progress(old(repository.job), old(repository.maps), old(events), from, after, repository.job,
                       repository.maps, events, missing)
    {
      hide Run, Progress, Consecutive;
      var trouble: bool := *;
      if trouble {
        var failed: bool := *;
        Halt(if failed then Failed else Paused);
        NoProgress(old(repository.job), repository.job, repository.maps, old(events), events, from, missing);
        return Halted, from;
      }
      o, after := ReindexChunk(ids, from, missing);
    }

    method StartReindex(full: bool) returns (o: Outcome, after: int)
      requires Valid() && worker.Idle?
      modifies this`worker, this`events, repository
      ensures Valid() && repository.maps == old(repository.maps) && (o.Done? || o.Refused?)
      ensures o.Refused? <==> var job := old(repository.job);
                              || job.status.Ready? || job.status.Running?
                              || ((job.status.Paused? || job.status.Failed?)
                                  && (job.highWatermark.None? || job.lastCopied < job.highWatermark.value))
      ensures o.Refused? ==> repository.job == old(repository.job) && worker.Idle?
      ensures repository.job == old(repository.job).(status := repository.job.status) && old(events) <= events
      ensures after == if full then 0 else old(repository.job.lastReindexed)
      ensures o.Done? ==> worker == Marking(after)
      ensures o.Done? ==> (repository.job.status.Completed? || repository.job.status.Reindexing?)
    {
      hide Run, Total, Copies, Wanted, Skips;
      var job := repository.job;
      after := if full then 0 else job.lastReindexed;
      if job.status.Ready? || job.status.Running? {
        return Refused, after;
      }
      if (job.status.Paused? || job.status.Failed?) && !TransferComplete(job) {
        return Refused, after;
      }
      ghost var start := View();
      if !job.status.Completed? || full {
        var ok := repository.Mark(Reindexing);
        assert ok;
      }
      Note(start, BeginReindex(full));
      return Done, after;
    }

    method FinishReindex(after: int)
      requires Valid() && worker == Marking(after)
               && (repository.job.status.Completed? || repository.job.status.Reindexing?)
      requires forall k :: k in repository.maps ==> k <= after
      modifies this`worker, this`events, repository
      ensures Valid() && worker.Idle? && repository.job == old(repository.job).(status := Completed)
      ensures repository.maps == old(repository.maps) && old(events) <= events
      ensures forall id :: id in repository.maps ==> repository.maps[id].reindexed
      ensures repository.job.reindexed + repository.job.missing == repository.job.copied == |repository.maps|
    {
      hide Run, Total, Copies, Wanted, Skips;
      ghost var marked := View();
      if !repository.job.status.Completed? {
        var ok := repository.Mark(Completed);
      }
      Note(marked, ReindexDone);
      FinishedMeansAll(source, first, events);
      CountersAddUp(source, first, events);
    }

    // Marks one chunk of mappings, one transaction each.
    method ReindexChunk(ids: seq<int>, from: int, missing: int -> bool) returns (o: Outcome, after: int)
      requires Valid() && worker == Marking(from) && ids != []
      requires Consecutive(repository.maps, from, ids)
      modifies this`worker, this`events, repository
      ensures Valid() && (o.Done? || o.Died?) && repository.maps.Keys == old(repository.maps.Keys)
      ensures repository.job.status == old(repository.job.status)
      ensures o.Done? ==> worker == Marking(after) && after >= ids[0] > from
      ensures o.Died? ==> worker.Idle?
      ensures Progress(old(repository.job), old(repository.maps), old(events), from, after, repository.job,
                       repository.maps, events, missing)
    {
      hide Run, NextMapped, Progress;
      after := from;
      NoProgress(repository.job, repository.job, repository.maps, events, events, from, missing);
      for i := 0 to |ids|
        invariant Valid() && worker == Marking(after)
        invariant after == Before(from, ids, i)
        invariant i > 0 ==> after >= ids[0] > from
        invariant repository.maps.Keys == old(repository.maps.Keys)
                  && repository.job.status == old(repository.job.status)
        invariant Progress(old(repository.job), old(repository.maps), old(events), from, after, repository.job,
                           repository.maps, events, missing)
      {
        ghost var before, known := View(), events;
        var dies: bool := *;
        if dies {
          Die();
          NoProgress(before.job, repository.job, repository.maps, known, events, after, missing);
          ProgressOn(old(repository.job), old(repository.maps), old(events), from, after, before.job, before.maps,
                     known,
                     after, repository.job, repository.maps, events, missing);
          return Died, after;
        }
        NextStays(old(repository.maps), repository.maps, after, ids[i]);
        var ok := repository.MarkReindexed(ids[i], missing(ids[i]));
        Note(before, MarkNext(ids[i], missing(ids[i])));
        OneProgress(before, repository.job, known, after, ids[i], missing);
        ProgressOn(old(repository.job), old(repository.maps), old(events), from, after, before.job, before.maps, known,
                   ids[i], repository.job, repository.maps, events, missing);
        after := ids[i];
      }
      return Done, after;
    }
  }
}
