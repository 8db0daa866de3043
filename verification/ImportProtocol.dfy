/** The resumable historical import (src/cinegate/importer/service.py, repositories/import_jobs.py) as a
    machine of atomic steps: a Telegram message landing in the archive, a database commit, a message read.
    The process may die between any two of them. */
module ImportProtocol {
  import opened Wrappers

  // A message of the source channel; its history does not change.
  datatype SourceMessage = SourceMessage(id: int, importable: bool)

  // A message of the archive channel; forwarded copies carry the id they were copied from.
  datatype ArchiveEntry = ArchiveEntry(id: int, origin: Option<int>)

  datatype Mapping = Mapping(archiveId: int, reindexed: bool)

  datatype JobStatus = Ready | Running | Paused | Failed | Transferred | Reindexing | Completed

  datatype Job = Job(
    status: JobStatus, highWatermark: Option<int>, baseline: int, lastCopied: int, lastReindexed: int,
    processed: nat, copied: nat, reconciled: nat, skipped: nat, reindexed: nat, missing: nat)

  type Mappings = map<int, Mapping>

  // Where the process that holds the import lock stands. All of it is lost in a crash.
  datatype Worker =
    | Idle
    | HighRead(high: int)
    | BaselineRead(high: int, baseline: int)
    | Scanning(pos: nat, pending: seq<(int, int)>)
    | Copying
    | Forwarding(through: nat, toForward: seq<int>, landed: seq<int>)
    | Marking(after: int)

  datatype System = System(job: Job, maps: Mappings, log: seq<ArchiveEntry>, worker: Worker)

  const NEW_JOB := Job(Ready, None, 0, 0, 0, 0, 0, 0, 0, 0, 0)

  predicate Source(source: seq<SourceMessage>) {
    && (forall i :: 0 <= i < |source| ==> source[i].id > 0)
    && forall i, j :: 0 <= i < j < |source| ==> source[i].id < source[j].id
  }

  // ---- The repository ---------------------------------------------------------------------

  predicate Allowed(from: JobStatus, to: JobStatus) {
    match from
    case Ready => to.Running? || to.Failed?
    case Running => to.Paused? || to.Failed? || to.Transferred?
    case Paused => to.Running? || to.Reindexing? || to.Failed?
    case Failed => to.Running? || to.Reindexing?
    case Transferred => to.Running? || to.Reindexing?
    case Reindexing => to.Paused? || to.Failed? || to.Completed?
    case Completed => to.Reindexing?
  }

  /** A transition that is not allowed raises and changes nothing. */
  function Transition(job: Job, to: JobStatus): Job {
    if job.status == to || Allowed(job.status, to) then job.(status := to) else job
  }

  /** Inserts what conflicts neither with a mapped source message nor with a mapped archive message. */
  function InsertMappings(maps: Mappings, pairs: seq<(int, int)>): (r: (Mappings, nat))
    ensures r.1 <= |pairs|
  {
    if pairs == [] then (maps, 0)
    else
      var (rest, n) := InsertMappings(maps, pairs[..|pairs| - 1]);
      var (source, archive) := pairs[|pairs| - 1];
      if source in rest || exists k :: k in rest && rest[k].archiveId == archive then (rest, n)
      else (rest[source := Mapping(archive, false)], n + 1)
  }

  function RecordReconciled(s: System, pairs: seq<(int, int)>): System {
    var (maps, n) := InsertMappings(s.maps, pairs);
    s.(maps := maps, job := s.job.(copied := s.job.copied + n, reconciled := s.job.reconciled + n))
  }

  function RecordBatch(s: System, through: int, processed: nat, skipped: nat, pairs: seq<(int, int)>): System {
    var (maps, n) := InsertMappings(s.maps, pairs);
    if through <= s.job.lastCopied then s.(maps := maps)
    else s.(maps := maps, job := s.job.(lastCopied := through, processed := s.job.processed + processed,
                                        skipped := s.job.skipped + skipped, copied := s.job.copied + n))
  }

  function MarkReindexed(s: System, id: int, missing: bool): System
    requires id in s.maps
  {
    var job := if s.maps[id].reindexed then s.job
               else if missing then s.job.(missing := s.job.missing + 1)
               else s.job.(reindexed := s.job.reindexed + 1);
    s.(maps := s.maps[id := s.maps[id].(reindexed := true)],
       job := job.(lastReindexed := Max(job.lastReindexed, id)))
  }

  // ---- Reading the channels ---------------------------------------------------------------

  /** The number of source messages up to an id. */
  function Total(source: seq<SourceMessage>, high: int): (n: nat)
    ensures n <= |source|
  {
    if source == [] then 0
    else if source[|source| - 1].id <= high then |source|
    else Total(source[..|source| - 1], high)
  }

  // How many source messages lie behind the checkpoint, and how many up to the watermark.
  function Read(source: seq<SourceMessage>, job: Job): nat {
    Total(source, job.lastCopied)
  }

  function Readable(source: seq<SourceMessage>, job: Job): nat {
    Total(source, job.highWatermark.GetOr(0))
  }

  /** The importable ones among the first n source messages, in order. */
  function Wanted(source: seq<SourceMessage>, n: nat): seq<int>
    requires n <= |source|
  {
    if n == 0 then []
    else Wanted(source, n - 1) + if source[n - 1].importable then [source[n - 1].id] else []
  }

  /** How many source messages from a to b are not importable. */
  function Skips(source: seq<SourceMessage>, a: nat, b: nat): nat
    requires b <= |source|
  {
    if b <= a then 0 else Skips(source, a, b - 1) + if source[b - 1].importable then 0 else 1
  }

  /** The messages of a batch that are importable and not mapped. */
  function ToForward(source: seq<SourceMessage>, maps: Mappings, a: nat, b: nat): seq<int>
    requires b <= |source|
  {
    if b <= a then []
    else ToForward(source, maps, a, b - 1)
         + if source[b - 1].importable && source[b - 1].id !in maps then [source[b - 1].id] else []
  }

  function LastId(log: seq<ArchiveEntry>): int {
    if log == [] then 0 else log[|log| - 1].id
  }

  // A copy made by a job: forwarded from the source channel, above the baseline, within the watermark.
  predicate IsCopy(e: ArchiveEntry, baseline: int, high: Option<int>) {
    e.id > baseline && e.origin.Some? && high.Some? && e.origin.value <= high.value
  }

  /** The copies among the first n archive messages, in order. */
  function Copies(log: seq<ArchiveEntry>, baseline: int, high: Option<int>, n: nat): seq<ArchiveEntry>
    requires n <= |log|
  {
    if n == 0 then []
    else Copies(log, baseline, high, n - 1) + if IsCopy(log[n - 1], baseline, high) then [log[n - 1]] else []
  }

  /** The number of archive messages up to an id. */
  function PosAfter(log: seq<ArchiveEntry>, id: int): (n: nat)
    ensures n <= |log|
  {
    if log == [] then 0
    else if log[|log| - 1].id <= id then |log|
    else PosAfter(log[..|log| - 1], id)
  }

  ghost predicate IsMaxMapped(maps: Mappings, id: int) {
    (exists k :: k in maps && maps[k].archiveId == id) && forall k :: k in maps ==> maps[k].archiveId <= id
  }

  // Where the scan of the archive tail begins: after the last mapped message, or after the baseline.
  ghost predicate ScanStart(s: System, id: int) {
    if s.maps == map[] then id == s.job.baseline else IsMaxMapped(s.maps, id)
  }

  ghost predicate NextMapped(maps: Mappings, after: int, id: int) {
    id in maps && id > after && forall k :: k in maps && k > after ==> id <= k
  }

  // ---- Steps ------------------------------------------------------------------------------

  datatype Event =
    | Foreign(entry: ArchiveEntry)      // someone else posts in the archive channel
    | ReadHigh(high: int)               // the newest id of the source is asked for,
    | ReadBaseline                      // then that of the archive,
    | Initialize                        // then both are recorded
    | BeginScan(after: int)
    | ScanOne
    | Flush
    | ScanDone
    | BatchStart(size: nat)
    | Land(id: int)                     // one forwarded message appears in the archive
    | Commit
    | TransferDone
    | BeginReindex(full: bool)
    | MarkNext(id: int, missing: bool)
    | ReindexDone
    | Stop(target: JobStatus)           // an error that is recorded in the job
    | Crash

  function TransferComplete(job: Job): bool {
    job.highWatermark.Some? && job.lastCopied >= job.highWatermark.value
  }

  ghost predicate Enabled(source: seq<SourceMessage>, s: System, e: Event) {
    match e
    case Foreign(entry) =>
      && entry.id > LastId(s.log) && !IsCopy(entry, s.job.baseline, s.job.highWatermark)
      && (s.worker.BaselineRead? ==> !IsCopy(entry, s.worker.baseline, Some(s.worker.high)))
    case ReadHigh(high) => s.worker.Idle? && !s.job.status.Completed? && !s.job.status.Reindexing?
      && s.job.highWatermark.None?
    case ReadBaseline => s.worker.HighRead?
    case Initialize => s.worker.BaselineRead?
    case BeginScan(after) =>
      && s.worker.Idle? && !s.job.status.Completed? && !s.job.status.Reindexing?
      && s.job.highWatermark.Some? && ScanStart(s, after)
    case ScanOne => s.worker.Scanning? && s.worker.pos < |s.log|
    case Flush => s.worker.Scanning?
    case ScanDone => s.worker.Scanning? && s.worker.pos == |s.log| && s.worker.pending == []
    case BatchStart(size) => s.worker.Copying? && size > 0 && Read(source, s.job) < Readable(source, s.job)
    case Land(id) => s.worker.Forwarding? && |s.worker.landed| < |s.worker.toForward| && id > LastId(s.log)
    case Commit => s.worker.Forwarding? && |s.worker.landed| == |s.worker.toForward|
    case TransferDone => s.worker.Copying? && Read(source, s.job) >= Readable(source, s.job)
    case BeginReindex(full) =>
      && s.worker.Idle? && !s.job.status.Ready? && !s.job.status.Running?
      && (s.job.status.Paused? || s.job.status.Failed? ==> TransferComplete(s.job))
    case MarkNext(id, _) => s.worker.Marking? && NextMapped(s.maps, s.worker.after, id)
    case ReindexDone => s.worker.Marking? && forall k :: k in s.maps ==> k <= s.worker.after
    case Stop(target) => (target.Paused? || target.Failed?)
      && (s.worker.Copying? || s.worker.Forwarding? || s.worker.Marking?)
    case Crash => true
  }

  function Pairs(a: seq<int>, b: seq<int>): seq<(int, int)>
    requires |a| == |b|
  {
    seq(|a|, i requires 0 <= i < |a| => (a[i], b[i]))
  }

  ghost function Step(source: seq<SourceMessage>, s: System, e: Event): System
    requires Enabled(source, s, e)
  {
    match e
    case Foreign(entry) => s.(log := s.log + [entry])
    case ReadHigh(high) => s.(worker := HighRead(high))
    case ReadBaseline => s.(worker := BaselineRead(s.worker.high, LastId(s.log)))
    case Initialize =>
      s.(job := if s.job.highWatermark.Some? then s.job
                else s.job.(highWatermark := Some(s.worker.high), baseline := s.worker.baseline), worker := Idle)
    case BeginScan(after) => s.(worker := Scanning(PosAfter(s.log, after), []))
    case ScanOne =>
      var entry := s.log[s.worker.pos];
      var found := if entry.origin.Some? && s.job.highWatermark.Some? && entry.origin.value <= s.job.highWatermark.value
                   then [(entry.origin.value, entry.id)] else [];
      s.(worker := Scanning(s.worker.pos + 1, s.worker.pending + found))
    case Flush => RecordReconciled(s, s.worker.pending).(worker := s.worker.(pending := []))
    case ScanDone => s.(job := Transition(s.job, Running), worker := Copying)
    case BatchStart(size) =>
      var a := Read(source, s.job);
      var b := Min(a + size, Readable(source, s.job));
      s.(worker := Forwarding(b, ToForward(source, s.maps, a, b), []))
    case Land(id) =>
      s.(log := s.log + [ArchiveEntry(id, Some(s.worker.toForward[|s.worker.landed|]))],
         worker := s.worker.(landed := s.worker.landed + [id]))
    case Commit =>
      var a, b := Read(source, s.job), s.worker.through;
      if a < b <= |source| then
        RecordBatch(s, source[b - 1].id, b - a, Skips(source, a, b),
                    Pairs(s.worker.toForward, s.worker.landed)).(worker := Copying)
      else s
    case TransferDone => s.(job := Transition(s.job, Transferred), worker := Idle)
    case BeginReindex(full) =>
      s.(job := if s.job.status.Completed? && !full then s.job else Transition(s.job, Reindexing),
         worker := Marking(if full then 0 else s.job.lastReindexed))
    case MarkNext(id, missing) => MarkReindexed(s, id, missing).(worker := Marking(id))
    case ReindexDone => s.(job := if s.job.status.Completed? then s.job
                           else Transition(s.job, Completed), worker := Idle)
    case Stop(target) => s.(job := Transition(s.job, target), worker := Idle)
    case Crash => s.(worker := Idle)
  }
}
