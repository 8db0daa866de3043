# CineGate: a verified model of its protocols

CineGate keeps an archive channel of movie posters and video qualities, indexes it, and gives a user one copy of a video
for a rewarded advertisement; an importer fills the archive from an older channel. This project models the parts of it
where state changes in many small steps and proves what all runs of those steps keep.

* **Archive** (`ArchiveParser`, `ParserSpecification`, `ArchiveIndex`, `ArchiveIndexService`, `ArchiveEvidence`,
  `ArchiveSafety`, `ArchiveCompleteness`, `ArchiveReads`, `ArchiveRepair`, `ArchiveEdits`, `ArchiveBatch`,
  `ArchiveStream`, `ArchiveLimits`). The streaming parser meets a declarative specification; the incremental index
  equals one full parse, keeps "indexed" movies safe under posts, edits, conflicts and fenced history reads exactly as
  long as no event is overlooked, has exactly the parser's rows exactly as long as no event upsets them, can be
  completed by reading the archive again exactly where no message is attached to another movie, and does not depend on
  the order of live edits. `ArchiveEvidence` says what the recorded messages mean for a movie without running the
  parser. The parser's detectors and the title similarity are arbitrary functions. `ArchiveIndex` holds each operation
  as a value, `ArchiveIndexService` as a method on tables updated in place and proved equal to it.
* **Rewards, deliveries, deletions** (`RewardTables`, `RewardGuarantees`, `DeliveryProtocol`, `DeliveryGuarantees`,
  `DeliveryOnce`, `RewardServices`). Each database transaction is one step and each Telegram copy a flight that later
  succeeds, fails or is lost with its process, in every interleaving with the recoveries; a copy that fails or is lost
  may have reached the user all the same.
* **Historical import** (`ImportProtocol`, `ImportInvariant`, `ImportGuarantees`, `ImportCounters`, `HistoricalImport`).
  Forwarded messages land one at a time in an external log, mappings are committed later, and the process may die at any
  point in between.
* **Message templates** (`Templates`, `TemplateSlices`, `TemplateRendering`, `TemplateGuarantees`). Variables, UTF-16
  lengths (section 2.1 of RFC 2781) and the remapping of formatting entities.
* **Rate limiter** (`RateLimit`, `LimiterGuarantees`, `LimiterRefinement`). A bounded table of buckets against the
  unbounded history of what was allowed.

`dafny verify dfyconfig.toml` checks the whole project.

## Assumptions

* A database transaction is atomic; a raised exception leaves the tables as they were. Locks appear as parameters (the
  rows a recovery could lock, the due rows a query returned). Clocks are parameters that never go back.
* Whether a copy has reached its user is settled when its call ends, with a success, an error or the death of the
  process.
* Import: the history of the source channel is stable, the archive gives new messages increasing ids, forwarded copies
  carry the id they were copied from, nobody else forwards the same messages into the archive or deletes a copy before
  it is mapped, a request to wait means that nothing was copied, and once a forward is answered or the process is gone
  nothing more of its batch lands. One process at a time holds the import lock.
* Captions fit the parser's length bound, and a detected poster has a confidence between 82 and 99
  (src/cinegate/services/archive_parser.py:171-218).
* Times of the limiter are real numbers; rounding of floats is not modelled.

## Where the code is weaker than one might wish

Each of these comes with the exact condition under which the code does keep its promise and, but for the last, a run
from the empty state that breaks it.

* An event inside the range of an indexed movie can be overlooked: a refused quality below messages already read, or an
  edit of a row whose range a later poster has taken over. The movie stays "indexed" although the parser no longer
  agrees with its row. `ArchiveSafety.Overlooked` is the condition, stated on the state before the event by counting
  messages; a step, and a run, is safe if and only if it is free of it. For a new refused quality it comes down to one
  count: whether a row above the message is among the first four recorded messages after the poster. Posts in ascending
  order are never overlooked. `ArchiveLimits` reaches a state for each of the two cases.
* A reward can lead to two copies with its user, in two ways. Recovery may release a send whose copy is still in flight
  (`DeliveryOnce.Overtakes`), or Telegram makes a copy but the call fails or the process dies, so that nobody hears of
  it (`DeliveryOnce.Unheard`). Throughout a run every copy in the air is awaited, and every reward of which a copy has
  arrived is delivered, if and only if neither occurs; then at most one copy arrives. After either, even once, some run
  without another brings a second copy. In any case the copies that arrive are no more than one and the attempts
  recorded.
* Of two copies only one is scheduled for deletion: one that arrives while another is recorded as sent is never
  recorded, in no run, and so never deleted.
* A movie can lack rows for messages the parser takes: after an edit or a post that changes whether other messages
  stand, or a poster that comes late (`ArchiveCompleteness.Upsets`, exact for steps and runs). If none of the movie's
  rows is wrong, reading the messages again completes it if and only if none of them is attached to another movie; a row
  beyond a late poster stays with its old movie in every run.
* A read that resolves a conflict does not always settle the movie: a refused quality, or a message attached to another
  movie, leaves it ambiguous until another message of it is read (`ArchiveReads.Attends` says which messages settle it).
* Dropping a live bucket loses events. The limiter keeps every live event if and only if it never has to
  (`LimiterRefinement.Forced`), every such drop can be seen in a later decision, and against an unbounded limiter fed
  with the same requests it errs in both directions.
* Undoing a poster edit restores all rows, but a movie that was still pending comes back with the status its rows call
  for.

## Model

| member | source | states |
|---|---|---|
| ArchiveParser.Parser.IterGroups | src/cinegate/services/archive_parser.py:88-168 | the loop yields the groups of the pass; it stops with an error at the first id that does not increase, after the groups completed before it, and for a zero diagnostic limit |
| ArchiveParser.Parser.NextGroup | src/cinegate/services/archive_indexer.py:622-642 | the first group drawn from the generator is that of a scan of all messages given to it, although reading stops when the group closes |
| ArchiveParser.Parser.Score | src/cinegate/services/archive_parser.py:300-331 | for every distance and similarity the score is in 1..100 and reaches the acceptance threshold exactly when the two years are not both known and different |
| ArchiveParser.Parser.DoneStays | src/cinegate/services/archive_parser.py:133-149 | a group that has closed does not depend on later messages |
| ParserSpecification.GroupSpecification | src/cinegate/services/archive_parser.py:101-168 | a group keeps per resolution the newest accepted quality and nothing else; accepted means compatible year and no run of more than max_noise noise messages, uninterrupted by a compatible quality, before it; its status says whether any was accepted, or narrowly refused while open |
| ParserSpecification.ParserLocality | src/cinegate/services/archive_parser.py:88-168 | a full pass yields one group per poster in order, each equal to the first group of the slice from its poster to the next |
| ParserSpecification.LimitOnlyTrims | src/cinegate/services/archive_parser.py:90-99 | a diagnostic limit changes nothing but keeps the last n diagnostics of every group |
| ParserSpecification.DiagnosticsExactly | src/cinegate/services/archive_parser.py:101-168 | a group notes, in order, every refused quality with its score, near from 40 on or far, every one that takes the place of an older one of its resolution, and nothing else |
| ParserSpecification.ScoreLaws | src/cinegate/services/archive_parser.py:300-331 | 80 next to the poster, five less for each of up to four further messages; ten more for agreeing years, 35 less for different ones; ten, six or three more for titles similar from 0.9, 0.7 or 0.5 on |
| ArchiveBatch.IncrementalEqualsBatch | src/cinegate/services/archive_indexer.py:126-159 | after ingesting any ascending stream the movies are the groups of one full parse, the rows of each movie are exactly its group's qualities field for field, and it is indexed exactly when the group is |
| ArchiveSafety.StepWellFormed | src/cinegate/db/models.py:86-95 | no post, edit or history read ever meets a uniqueness constraint of the rows table or leaves a row without movie or snapshot |
| ArchiveEvidence.ScanDescribed | src/cinegate/services/archive_parser.py:101-168 | from a poster on the parser keeps exactly the newest fitting quality per resolution among those read before another poster or too many noise messages, each scored by the number of recorded messages since the poster |
| ArchiveSafety.StepSafeExactly | src/cinegate/services/archive_indexer.py:39-159 | a step keeps every indexed movie safe (positive confidence, a row, no conflict in its range, every row accepted by the parser today with the same resolution and confidence) if and only if it is not overlooked: not a conflict or disturbing message in the range of an indexed movie that only concerns another movie's row or is a refused quality |
| ArchiveSafety.RunSafeExactly | src/cinegate/services/archive_indexer.py:21-749 | over every run of posts, live edits and fenced reads, all states are safe if and only if no event is overlooked |
| ArchiveSafety.RecordingSafeExactly | src/cinegate/services/archive_indexer.py:454-516 | a message recorded in the range of an indexed movie without a row of it leaves the movie safe if and only if no row has its group ended before it, a newer message of its resolution taken, or its distance from the poster moved within the first four |
| ArchiveSafety.RefusedPostSafeExactly | src/cinegate/services/archive_indexer.py:398-408 | a new refused quality in the range of an indexed movie keeps the index safe if and only if every row of the movie above it is at least the fifth recorded message after the poster |
| ArchiveSafety.RunSafe | src/cinegate/services/archive_indexer.py:21-749 | at the end of a run without overlooked events the index is safe and its movies show what their poster message says |
| ArchiveSafety.BackedExactly | src/cinegate/services/archive_indexer.py:583-661 | a row is what the parser makes of its message if and only if the message is the newest taken for its resolution and the row says what it says |
| ArchiveSafety.ScoreMovesExactly | src/cinegate/services/archive_parser.py:300-331 | one more message between poster and quality changes the score if and only if the quality was among the first four |
| ArchiveCompleteness.ExactIsParse | src/cinegate/services/archive_indexer.py:583-661 | counting messages, a movie has rows for exactly the messages that stand, saying what they say, if and only if its rows are all the qualities of its group today and nothing else |
| ArchiveCompleteness.StepExactly | src/cinegate/services/archive_indexer.py:39-159 | if all movies have exactly the parser's rows, a step keeps this if and only if it does not upset them: a conflict in a movie's range; a new poster that takes over rows or should have had messages; an edit after which an attached message is refused or meets another row of its resolution; or a message that changes for others whether they stand, or their score without being taken |
| ArchiveCompleteness.RunExactly | src/cinegate/services/archive_indexer.py:21-749 | over every run of posts, live edits and fenced reads all states have exactly the parser's rows if and only if no event upsets them |
| ArchiveReads.CurrentReadExactly | src/cinegate/services/archive_indexer.py:454-516 | a history read with the current token is applied, whatever is recorded and in conflict or not, leaving its content without conflict under a greater version, if and only if the record has no date or the read one no smaller; otherwise it changes nothing |
| ArchiveReads.FirstRecordedExactly | src/cinegate/services/archive_indexer.py:454-516 | a read of an unrecorded message is applied exactly with token zero, one with another token changes nothing; a post is applied exactly if nothing is recorded |
| ArchiveReads.EditExactly | src/cinegate/services/archive_indexer.py:454-516 | a live edit is applied over nothing, an undated or an older record; the same date with another content is a conflict that keeps the recorded content; otherwise nothing changes |
| ArchiveReads.ConflictResolved | src/cinegate/services/archive_indexer.py:77-124 | a current read of the only message in conflict in a movie's range leaves the range without conflict; a message that brings its movie up to date gives it the rows and status its evidence calls for, any other leaves it ambiguous or as it was |
| ArchiveReads.SettlesAsCalled | src/cinegate/services/archive_indexer.py:644-749 | settling gives every row of a movie what its message says if that is the newest taken for its resolution, else confidence zero; the movie is ambiguous without trust in its poster or with a conflict in range, else orphan without rows, indexed if all rows are such, else ambiguous |
| ArchiveReads.ConflictLaws | src/cinegate/services/archive_indexer.py:518-555 | a conflict takes the trust of the movie whose poster it concerns, or of the row, whose movie becomes ambiguous, and of nothing else; a message without row makes the movie it lies in ambiguous |
| ArchiveReads.RowLostExactly | src/cinegate/services/archive_indexer.py:212-288 | an attached message not taken any more loses its row's title and trust, one that meets another row of its new resolution the trust only; the movie becomes ambiguous and nothing else changes |
| ArchiveRepair.RereadRestoresExactly | src/cinegate/services/archive_indexer.py:28-124 | where no row of a movie is wrong, fenced reads of its messages as recorded, in any order, give it exactly the parser's rows if and only if no message that stands is attached to another movie |
| ArchiveRepair.SafeMovieCompleted | src/cinegate/services/archive_indexer.py:28-124 | in particular an indexed movie that is safe |
| ArchiveRepair.TakenOverForever | src/cinegate/services/archive_indexer.py:212-288 | once a later poster has taken over the range of a row, in every run the row keeps its movie and message, no other movie gets a row for it, and the index never again has exactly the parser's rows |
| ArchiveStream.EveryRunFromEmpty | src/cinegate/services/archive_indexer.py:21-749 | from the empty index all states of a run are safe if and only if no event is overlooked; posters are shown as they are in every run |
| ArchiveStream.AscendingSettled | src/cinegate/services/archive_indexer.py:126-159 | after posts in ascending order the index is safe, and the rows of every movie, indexed or not, say what the parser says |
| ArchiveStream.AscendingExact | src/cinegate/services/archive_indexer.py:126-159 | after posts in ascending order every movie has exactly the parser's rows |
| ArchiveStream.FirstReadIsPost | src/cinegate/services/archive_indexer.py:28-124 | a fenced read of a message not yet recorded makes what its post makes, so reading an archive into an empty index in order is an ascending ingest |
| ArchiveStream.IngestIsRun | src/cinegate/services/archive_indexer.py:126-159 | ingesting a list of messages is the run of their posts from the empty index |
| ArchiveSafety.StepSynced | src/cinegate/services/archive_indexer.py:161-210 | a movie with positive confidence always shows the fields its poster message has today |
| ArchiveLimits.RefusedQualityOverlooked | src/cinegate/services/archive_indexer.py:398-408 | two posts lead from the empty index to a safe state in which a post of the wrong year leaves an indexed movie with a confidence the parser no longer gives |
| ArchiveLimits.TakenOverRowOverlooked | src/cinegate/services/archive_indexer.py:77-103 | with the service's tolerance of one noise message, five posts lead from the empty index to a safe state in which an edit leaves an indexed movie with a row the parser no longer accepts |
| ArchiveLimits.NeverRepaired | src/cinegate/services/archive_indexer.py:312-369 | three posts out of order after which the second movie never gets the row of a message in its range, whatever events follow |
| ArchiveLimits.ResolvedNotSettled | src/cinegate/services/archive_indexer.py:398-408 | four events lead from the empty index to a conflict that a read of a refused quality resolves, leaving its movie ambiguous although nothing is in doubt |
| ArchiveEdits.StepSnapshots | src/cinegate/services/archive_indexer.py:454-516 | an event changes the snapshot of its own message, by the recording rule, and no other |
| ArchiveEdits.RunGrows | src/cinegate/services/archive_indexer.py:454-516 | over every run dates never decrease and every change of a snapshot strictly raises its version |
| ArchiveEdits.FencedRead | src/cinegate/services/archive_indexer.py:28-37 | a history read is applied only if the snapshot is the one its token was taken from, whatever ran in between; otherwise it changes nothing |
| ArchiveEdits.OrderOfEditsIrrelevant | src/cinegate/services/archive_indexer.py:454-516 | runs from any recorded snapshots with the same dated claims about a message, those recorded before included, in any order and repetition, end with the greatest date, in conflict exactly when two contents carry it, and otherwise with that date's content |
| ArchiveEdits.SnapshotReflects | src/cinegate/services/archive_indexer.py:454-516 | every recorded snapshot is what some dated claims would have left; without conflict, its own date and content |
| ArchiveEdits.EditsInAnyOrder | src/cinegate/services/archive_indexer.py:454-516 | from one index, whatever it has recorded of the message, runs with the same dated edits of it agree on date and conflict, and on content unless in conflict |
| ArchiveEdits.PosterEditUndone | src/cinegate/services/archive_indexer.py:161-210 | where the rows equal the parse, editing a poster to anything and back with newer dates restores every row, and the movie up to its status, which becomes the one its rows and evidence call for; so the movie is restored if and only if it had that status, which one still pending has not |
| ArchiveStream.UndoneAfterStream | src/cinegate/services/archive_indexer.py:161-210 | after posts in ascending order editing any poster there and back restores every row |
| ArchiveIndexService.ArchiveIndexService.SnapshotVersions | src/cinegate/services/archive_indexer.py:28-37 | one token per message asked for, zero where none is recorded |
| ArchiveIndexService.ArchiveIndexService.ParseMovieGroup | src/cinegate/services/archive_indexer.py:583-642 | the group parsed from the recorded messages up to the next poster, the first conflict or a given message |
| ArchiveIndexService.ArchiveIndexService.RevalidateAttachedQualities | src/cinegate/services/archive_indexer.py:644-661 | every row of the movie, and no other, gets what the current group says of it or confidence zero |
| ArchiveIndexService.ArchiveIndexService.RefreshMovieStatus | src/cinegate/services/archive_indexer.py:707-749 | the status follows confidence, refused rows, conflicts in range and presence of rows, in that order |
| ArchiveIndexService.ArchiveIndexService.ReconcilePosterEdit | src/cinegate/services/archive_indexer.py:161-210 | new tables after an edit of a known poster, also when it is no poster any more |
| ArchiveIndexService.ArchiveIndexService.ReconcileQualityEdit | src/cinegate/services/archive_indexer.py:212-288 | new tables after an edit of an attached message: refused, resolution taken, or settled |
| ArchiveIndexService.ArchiveIndexService.UpsertPoster | src/cinegate/services/archive_indexer.py:312-369 | new tables after a new poster, with the previous movie closed and settled |
| ArchiveIndexService.ArchiveIndexService.UpsertQuality | src/cinegate/services/archive_indexer.py:371-452 | new tables after a new quality: nothing when refused, else a row inserted or replaced by a newer message |
| ArchiveIndexService.ArchiveIndexService.InvalidateSnapshotConflict | src/cinegate/services/archive_indexer.py:518-555 | a conflict takes the confidence of the movie, or of the row, or settles the movie before it |
| ArchiveIndexService.ArchiveIndexService.RecordSnapshot | src/cinegate/services/archive_indexer.py:454-516 | last writer wins by date, a tie of different contents is a conflict, an expected version fences; applied exactly as said |
| ArchiveIndexService.ArchiveIndexService.Ingest | src/cinegate/services/archive_indexer.py:126-159 | a post makes one step of the index and keeps it well formed; another channel's changes nothing |
| ArchiveIndexService.ArchiveIndexService.ReconcileEdit | src/cinegate/services/archive_indexer.py:39-124 | a live edit or fenced read makes one step of the index and keeps it well formed |
| DeliveryProtocol.StepKeeps | src/cinegate/services/delivery.py:88-433 | every step of every actor keeps: status machines coupled, credit earned exactly with both proofs, one active reward per user, time stamps present, attempts and claims within budget |
| DeliveryProtocol.RunKeeps | src/cinegate/services/delivery.py:88-433 | the same over every run with a clock that does not go back |
| DeliveryProtocol.BackoffGrows | src/cinegate/services/delivery.py:413-433 | waiting times between deletion attempts never shrink and lie between 5 and 300 seconds |
| DeliveryProtocol.SpentAtLeast | src/cinegate/services/delivery.py:413-433 | n rescheduled deletions take at least 300 n - 1485 seconds |
| DeliveryGuarantees.ReachableStates | src/cinegate/db/models.py:158-175 | in every reachable state at most one reward per user is active and each pair of reward and delivery is sound |
| DeliveryGuarantees.NoOrphanedDelivery | src/cinegate/services/delivery.py:157-168 | the defensive branches of the preparation are never taken |
| DeliveryGuarantees.PreparedExactly | src/cinegate/services/delivery.py:88-184 | in reachable states a copy is issued if and only if the reward is earned, idle and undelivered, its movie indexed, its row still of that movie and resolution with positive confidence, and its caption renders; without such content it is kept as unavailable with the reason; every other answer changes nothing |
| RewardGuarantees.ReasonsExactly | src/cinegate/services/reward_availability.py:8-22 | each of the four reasons for refusing content is given exactly when it holds, and none exactly when the content is there |
| RewardGuarantees.OfferedExactly | src/cinegate/services/reward_sessions.py:60-72 | a video is offered exactly if its movie is indexed with a row of the resolution of positive confidence, and a reward bound to what is offered has content |
| RewardGuarantees.CopyExactly | src/cinegate/services/delivery.py:170-184 | a prepared copy is of the reward's own row, to be deleted after two minutes or what is set between 5 and 172000 seconds; reward and delivery say since when it is sent; nothing else changes |
| DeliveryGuarantees.OpeningAnswers | src/cinegate/services/reward_sessions.py:45-150 | who asks gets his active or retained session for exactly that row, or a new one when no other is active and none retained, or word of the other active one; refusals change nothing |
| RewardGuarantees.OpeningExactly | src/cinegate/services/reward_sessions.py:45-150 | the answer is the oldest credit kept for the video; else the user's active session that is neither overdue nor without content, in the way if bound to something else; else a new session |
| RewardGuarantees.OpeningChanges | src/cinegate/services/reward_sessions.py:74-150 | refusals change nothing; otherwise the user's overdue sessions expire, an earned one whose content has gone is set aside and kept, all else stays, and a new session waits ten minutes or what is set between one and sixty |
| RewardGuarantees.StrandedNeverLocksOut | src/cinegate/services/reward_sessions.py:94-104 | an earned reward whose content has gone ends unavailable with its proofs when its user asks for an available video, and is never in the way |
| RewardGuarantees.ClientProofExactly | src/cinegate/services/reward_sessions.py:231-251 | a client's proof counts exactly for his own session that is there and not expired, whichever proof came first; otherwise the first of three errors is given and nothing changes |
| RewardGuarantees.ProviderProofExactly | src/cinegate/services/reward_sessions.py:253-291 | the credited session keeps its client's proof, gets the provider's if it has none, and is rewarded exactly with both |
| RewardGuarantees.BothProofsEarn | src/cinegate/services/reward_sessions.py:231-291 | a session that has not expired earns its reward with both proofs in either order |
| DeliveryGuarantees.RunKeepsCredit | src/cinegate/services/delivery.py:88-307 | an earned reward stays earned with its proofs and binding over every run, and a delivered one stays delivered |
| DeliveryGuarantees.FlightEarned | src/cinegate/services/delivery.py:170-184 | every copy in flight belongs to a reward with both proofs |
| DeliveryGuarantees.IssuedCopyIsSafe | src/cinegate/services/reward_availability.py:8-22 | a copy is issued only for a reward with both proofs whose row still is the one earned, in an indexed movie, with positive confidence |
| DeliveryGuarantees.IssuedCopyIsParsed | src/cinegate/services/delivery.py:113-156 | with a safe index, the message copied is one the parser accepts today for that movie and resolution |
| DeliveryGuarantees.ConfirmationCreditsActive | src/cinegate/services/reward_sessions.py:253-291 | a confirmation credits the user's one active session if there is one not overdue, and changes no retained credit and no other session except to expire overdue ones |
| DeliveryGuarantees.CopiesAccountedFor | src/cinegate/services/delivery.py:166-184 | copies prepared for a reward never exceed one plus the attempts recorded |
| RewardGuarantees.FailureExactly | src/cinegate/services/delivery.py:186-220 | a failed copy gives the reward back, as a kept credit if it was one, or keeps it unavailable if its source has gone; the send is given up and counted; nothing else changes |
| RewardGuarantees.ArrivalExactly | src/cinegate/services/delivery.py:222-270 | an arrived copy delivers the reward and schedules its deletion, unless one is recorded as sent |
| RewardGuarantees.RecoveredExactly | src/cinegate/services/delivery.py:272-307 | exactly the locked sends that began at least 300 seconds ago are given up, and their rewards given back |
| RewardGuarantees.ClaimExactly | src/cinegate/services/delivery.py:331-374 | a due message is claimed, or given up from 48 hours on; nothing else changes |
| RewardGuarantees.SettledExactly | src/cinegate/workers/deletion.py:100-131 | a claimed deletion is done when Telegram says the message is gone, failed when it refuses, and tried again after the waiting time on other errors |
| RewardGuarantees.BackoffDoubles | src/cinegate/services/delivery.py:413-433 | the waiting time begins with five seconds and doubles up to 300 |
| RewardGuarantees.DeletionsRecoveredExactly | src/cinegate/services/delivery.py:309-329 | exactly the deletions that began at least 300 seconds ago are due again at once |
| RewardGuarantees.StatusMoves | src/cinegate/services/delivery.py:88-433 | how a delivery comes to each status in a step of the protocol; so a message is recorded as deleted only when Telegram has said that it is gone |
| DeliveryGuarantees.DeletionBounded | src/cinegate/services/delivery.py:331-374 | at most 581 deletion claims for one sent message, in every run |
| DeliveryGuarantees.ClaimsStartInTime | src/cinegate/services/delivery.py:331-374 | a deletion attempt is started only by a claim, and only less than 48 hours after the message was sent |
| DeliveryGuarantees.NothingStuck | src/cinegate/services/delivery.py:272-374 | every sending, sent or deleting record is seen by its recovery or claim query at some later time |
| DeliveryOnce.StepOneFlightExactly | src/cinegate/services/delivery.py:88-307 | where every copy in flight is the one its delivery waits for, a step keeps this if and only if it is not a recovery releasing the send of a copy in flight |
| DeliveryOnce.RunOneFlightExactly | src/cinegate/services/delivery.py:88-307 | over a whole run no reward has a second copy in the air, or one nobody waits for, if and only if no recovery overtakes a copy |
| DeliveryOnce.StepAccountedExactly | src/cinegate/services/delivery.py:49-86 | where every copy in flight is awaited and every reward of which a copy has reached its user is delivered, a step keeps this if and only if it is neither a recovery overtaking a copy nor an arrival followed by an error or a crash before it is recorded |
| DeliveryOnce.RunAccountedExactly | src/cinegate/services/delivery.py:49-307 | the same over every timely run |
| DeliveryOnce.LandsOnce | src/cinegate/services/delivery.py:222-270 | in a run without either at most one copy of a reward reaches its user, heard of or not, and none if it was delivered before |
| DeliveryOnce.CopiesBounded | src/cinegate/services/delivery.py:166-220 | in every run the copies of a reward that have reached its user and those in the air are no more than those prepared, and these no more than one and the attempts recorded |
| DeliveryOnce.DoublingShows | src/cinegate/services/delivery.py:49-307 | after any single such event some timely run without another leads to two copies of one reward with its user |
| DeliveryOnce.CopiedTwice | src/cinegate/services/delivery.py:272-307 | a timely run from the empty tables with two copies of one reward in the air at once, both of which reach the user while only the first is recorded |
| DeliveryOnce.LostAndCopiedAgain | docs/SECURITY.md:121-132 | a timely run from the empty tables in which the process dies between copy and commit and a second copy reaches the user, although no recovery overtakes one |
| DeliveryOnce.RecordedExactly | src/cinegate/services/delivery.py:242-254 | a copy that arrives is recorded and scheduled for deletion if and only if none is recorded as sent; otherwise the tables stay as they are |
| DeliveryOnce.NeverRecorded | src/cinegate/services/delivery.py:222-270 | a copy not recorded when it arrived is recorded in no later run, unless reported anew |
| RewardServices.RewardSessionService.GetOrCreate | src/cinegate/services/reward_sessions.py:45-150 | the whole new table and answer: existing, retained, conflicting or new session, overdue ones expired and an unavailable one released, or nothing changed on refusal; one step of the protocol |
| RewardServices.RewardSessionService.MarkClientCompleted | src/cinegate/services/reward_sessions.py:231-251 | the table after a client proof, or the error that leaves it unchanged; one step of the protocol |
| RewardServices.RewardSessionService.MarkProviderConfirmed | src/cinegate/services/reward_sessions.py:253-291 | the table after a provider proof and the session credited; one step of the protocol |
| RewardServices.DeliveryService.Prepare | src/cinegate/services/delivery.py:88-184 | the tables after a preparation and its answer, for every status of reward and delivery; one step of the protocol |
| RewardServices.DeliveryService.ResetFailedSend | src/cinegate/services/delivery.py:186-220 | the tables after a failed copy: released for another attempt, or unavailable when the source message is gone; one step of the protocol, in which the flight ends |
| RewardServices.DeliveryService.FinalizeSent | src/cinegate/services/delivery.py:222-270 | the tables after a copy has arrived, also when a recovery has released it meanwhile; one step of the protocol, in which the flight ends |
| RewardServices.DeliveryService.RecoverStaleSends | src/cinegate/services/delivery.py:272-307 | all stale sends among the lockable rows, and no others, are released; their exact number is returned; one step of the protocol |
| RewardServices.DeliveryService.RecoverStaleDeletions | src/cinegate/services/delivery.py:309-329 | all stale deletions are due again at once, nothing else changes; one step of the protocol |
| RewardServices.DeliveryService.ClaimDueDeletions | src/cinegate/services/delivery.py:331-374 | rows past the deletion window are given up, the others claimed; exactly those are returned, in the order of the query; a run of claims in the protocol |
| RewardServices.DeliveryService.DeleteOne | src/cinegate/workers/deletion.py:100-131 | what each answer of Telegram makes of a claimed deletion; one step of the protocol |
| ImportInvariant.StepKeeps | src/cinegate/importer/service.py:144-306 | every step, crash included, keeps: copies are the first wanted messages in order, mappings the first of the copies, counters and marks exact |
| ImportInvariant.BatchContinues | src/cinegate/importer/service.py:383-400 | a batch forwards exactly the wanted messages that follow the mapped ones |
| ImportInvariant.BeginScanKeeps | src/cinegate/importer/service.py:340-352 | scanning from the highest mapped archive message, or the baseline, misses no copy and repeats none |
| ImportInvariant.InsertFresh | src/cinegate/repositories/import_jobs.py:304-326 | pairs that conflict with nothing are all inserted and counted |
| ImportGuarantees.ExactlyOnceInOrder | src/cinegate/importer/service.py:330-443 | over any number of crashes no source message is copied twice, copies keep the order of the source, and only importable messages up to the watermark are copied |
| ImportGuarantees.LandingIsNew | src/cinegate/importer/service.py:402-430 | a message that lands is later in the source than all copied before |
| ImportGuarantees.MappingIncreasing | src/cinegate/repositories/import_jobs.py:195-235 | each mapping names a real copy of its message and the map from source to archive is strictly increasing |
| ImportGuarantees.CheckpointIsSafe | src/cinegate/repositories/import_jobs.py:211-235 | the checkpoint never passes an importable message that is not mapped |
| ImportGuarantees.CountersAddUp | src/cinegate/repositories/import_jobs.py:195-287 | copied equals the mappings, reindexed plus missing the marked ones, processed the messages behind the checkpoint, skipped those not importable, full replays included |
| ImportCounters.MarksCounted | src/cinegate/repositories/import_jobs.py:259-287 | over every run missing counts the messages lost from the archive when the re-index first came to them, reindexed the others it has come to, and these are the marked ones |
| ImportCounters.ReconciledCounted | src/cinegate/repositories/import_jobs.py:195-209 | over every run reconciled counts the messages mapped from the archive tail |
| ImportCounters.ResumesBehindNone | src/cinegate/repositories/import_jobs.py:279-287 | the last re-indexed id is that of the greatest marked mapping and no mapping up to it is unmarked |
| ImportCounters.ReachedFrom | src/cinegate/repositories/import_jobs.py:15-23 | from which statuses each status can be reached |
| ImportGuarantees.ScanRecovers | src/cinegate/importer/service.py:330-371 | after the tail has been scanned every copy that ever landed is mapped to its own archive message |
| ImportGuarantees.FinishedMeansAll | src/cinegate/importer/service.py:200-306 | a finished transfer has mapped every importable message up to the watermark, and a completed job has marked every mapping |
| ImportGuarantees.RunAdvances | src/cinegate/repositories/import_jobs.py:111-287 | no run takes back a copy, a mapping, a mark, a checkpoint, or the watermark and baseline |
| HistoricalImport.ArchiveImportRepository.Mark | src/cinegate/repositories/import_jobs.py:418-427 | the status moves exactly along the transition table, otherwise the job is unchanged and the call refused |
| HistoricalImport.ArchiveImportRepository.RecordReconciledMappings | src/cinegate/repositories/import_jobs.py:195-209 | the job and mappings after a reconciled chunk |
| HistoricalImport.ArchiveImportRepository.RecordTransferBatch | src/cinegate/repositories/import_jobs.py:211-235 | the job and mappings after a batch; a batch behind the checkpoint moves no counter |
| HistoricalImport.ArchiveImportRepository.MarkReindexed | src/cinegate/repositories/import_jobs.py:259-287 | the mark is set; the first time missing grows by one if the message is lost, reindexed if not, and never again; an unknown message is refused |
| HistoricalImport.ArchiveImportRepository.MaxMappedArchiveId | src/cinegate/repositories/import_jobs.py:289-294 | the greatest mapped archive id, none exactly when nothing is mapped |
| HistoricalImport.ArchiveImportRepository.ListMappingsAfter | src/cinegate/repositories/import_jobs.py:237-257 | the mapped messages after one, ascending and without a gap; as many as the limit, or all that are left |
| HistoricalImport.HistoricalImportService.ReconcileArchiveTail | src/cinegate/importer/service.py:330-371 | a series of steps of the machine that, unless the process dies, has read the whole log and left nothing pending |
| HistoricalImport.HistoricalImportService.InitializeSnapshotIfNeeded | src/cinegate/importer/service.py:308-328 | the ends of source and archive are read one after the other and recorded together once; the archive may grow in between; a recorded snapshot is never replaced |
| HistoricalImport.HistoricalImportService.ForwardBatch | src/cinegate/importer/gateway.py:152-203 | after at most three waits copies land one by one in order; the answer lists those that did, possibly not all, or is an error after any number of them; a fourth wait copies nothing |
| HistoricalImport.HistoricalImportService.TransferMessages | src/cinegate/importer/service.py:373-443 | batch after batch up to the watermark, or halted in a paused or failed job, or dead between two steps |
| HistoricalImport.HistoricalImportService.Transfer | src/cinegate/importer/service.py:144-204 | refused exactly while re-indexing; done only with every importable message up to the watermark mapped, from whatever state a crash has left |
| HistoricalImport.HistoricalImportService.Reindex | src/cinegate/importer/service.py:206-306 | refused exactly before the transfer is complete; missing grows by the number of newly marked messages the archive has lost, reindexed by the others, however it ends; done only with every mapping marked, each read again in a full replay |
| Templates.DecodeEncode | src/cinegate/presentation/templates.py:188-189 | the UTF-16 encoding whose length is used loses nothing |
| Templates.RenderEncoded | src/cinegate/presentation/templates.py:73-90 | encoding the rendered text is rendering the encoded template |
| TemplateSlices.RenderSlice | src/cinegate/presentation/templates.py:142-185 | rendering a slice that splits no variable is slicing the rendering at the places of its ends |
| TemplateSlices.InsideMatches | src/cinegate/presentation/templates.py:166-174 | a boundary splits a variable exactly when it is strictly inside a match |
| TemplateSlices.ShiftPlaces | src/cinegate/presentation/templates.py:175-180 | adding up the gains of the variables before a position gives its place in the rendered text |
| TemplateRendering.MatchesEncoded | src/cinegate/presentation/templates.py:73-88 | the variables of the encoded template are those of the template at their UTF-16 offsets |
| TemplateRendering.EntityAccepted | src/cinegate/presentation/templates.py:152-183 | an entity is refused exactly when it leaves the text or splits a variable, and otherwise moved to the place of what it covers |
| TemplateRendering.RemapEntities | src/cinegate/presentation/templates.py:142-185 | the first entity with an error decides; otherwise all are moved, in order |
| TemplateRendering.RenderTemplate | src/cinegate/presentation/templates.py:33-102 | each error in the order the source looks for it; otherwise the text between the variables unchanged, alternating with the replacement of each, and every entity at its place |
| TemplateRendering.RenderAlternates | src/cinegate/presentation/templates.py:60-90 | rendering copies the text between the matches and puts for each match what replaces it |
| TemplateGuarantees.VariableRenders | src/cinegate/presentation/templates.py:65-69 | a variable on its own renders to its replacement |
| TemplateRendering.ValidateTemplateSource | src/cinegate/presentation/templates.py:105-139 | the first error of a template to be stored |
| TemplateGuarantees.VariableAtHead | src/cinegate/presentation/templates.py:9 | the pattern matches a percent sign, one or more small letters or underscores, and a percent sign |
| TemplateGuarantees.MatchesInOrder | src/cinegate/presentation/templates.py:47 | matches are variables, in order and without overlap |
| TemplateGuarantees.EveryVariableFound | src/cinegate/presentation/templates.py:47 | wherever a variable stands, a match beginning no later covers its start |
| TemplateGuarantees.RenderSucceedsExactly | src/cinegate/presentation/templates.py:33-102 | the exact condition under which rendering succeeds |
| TemplateGuarantees.SourceAcceptedExactly | src/cinegate/presentation/templates.py:105-139 | the exact condition under which a template is accepted |
| TemplateGuarantees.AcceptedNeverSplits | src/cinegate/presentation/templates.py:105-139 | an accepted template fails to render only for a missing replacement or for length, whatever the replacements |
| TemplateGuarantees.EntityShowsRendering | src/cinegate/presentation/templates.py:142-185 | a remapped entity lies in the rendered text and covers exactly the rendering of what it covered |
| TemplateGuarantees.CharactersShowRendering | src/cinegate/presentation/templates.py:142-185 | over whole characters, what it covers is what those characters render to on their own |
| TemplateGuarantees.NestingKept | src/cinegate/presentation/templates.py:142-185 | nested entities stay nested, separate ones separate and in order |
| TemplateGuarantees.ItselfRenders | src/cinegate/presentation/templates.py:124-138 | variables replaced by themselves give the template back |
| TemplateGuarantees.PlainTextStays | src/cinegate/presentation/templates.py:142-185 | text without variables and its entities stay as they are |
| RateLimit.SlidingWindowLimiter.EvictIfNeeded | src/cinegate/services/rate_limit.py:69-84 | expired entries go from the front, the first live one is trimmed, then the oldest go until one more fits |
| RateLimit.SlidingWindowLimiter.CheckKey | src/cinegate/services/rate_limit.py:43-63 | the new table, the decision and the time to wait |
| LimiterGuarantees.TableBounded | src/cinegate/services/rate_limit.py:69-84 | the table never outgrows max_keys |
| LimiterGuarantees.NeverBlocksWrongly | src/cinegate/services/rate_limit.py:43-63 | no request is blocked that a window over everything allowed so far would let through |
| LimiterGuarantees.RecentIsFresh | src/cinegate/services/rate_limit.py:55-58 | with times in order, trimming from the front counts exactly the events in the window |
| LimiterRefinement.IdealUntilForced | src/cinegate/services/rate_limit.py:43-84 | while no live entry had to be dropped, decisions and history are those of the unbounded window |
| LimiterRefinement.FewKeysIdeal | src/cinegate/services/rate_limit.py:43-84 | while at most max_keys different keys have come, every decision is that of the unbounded window |
| LimiterRefinement.WaitsOnlyIfBlocked | src/cinegate/services/rate_limit.py:58-63 | a time to wait is given exactly to a blocked check, between a thousandth of a second and that and the window |
| LimiterRefinement.RetrySucceeds | src/cinegate/services/rate_limit.py:58-60 | after waiting the reported time the next check succeeds, whatever other keys do and however often the key is refused meanwhile |
| LimiterRefinement.RetryIsTight | src/cinegate/services/rate_limit.py:58-60 | before a reported time above a thousandth of a second has passed, the next check is refused |
| LimiterRefinement.RunMostRecent | src/cinegate/services/rate_limit.py:45-53 | the table holds exactly the most recently seen keys, oldest first |
| LimiterRefinement.StepCompleteExactly | src/cinegate/services/rate_limit.py:69-84 | a check keeps every live event of every key if and only if no live entry has to be dropped |
| LimiterRefinement.RunCompleteExactly | src/cinegate/services/rate_limit.py:69-84 | over a run no live event is ever missing if and only if no live entry is ever dropped |
| LimiterRefinement.ForcedShows | src/cinegate/services/rate_limit.py:83-84 | after every drop of a live entry some requests of the dropped key, at once, lead to one that is let through although the window over all that was allowed refuses it |
| LimiterRefinement.ForcedDiffers | src/cinegate/services/rate_limit.py:83-84 | three requests after which the limiter and an unbounded one differ in both directions |

## Left out

- Diagnostics of a group are kept in order and trimmed, but their texts are not modelled; the order of a group's quality tuple is not, a group holds a map by resolution.
- Caption detectors, Unicode normalisation, field extraction and `SequenceMatcher` are function parameters of the parser.
- What `ingest` and `reconcile_edit` return to the router (action, movie, duplicate result) is not modelled, only what they do to the tables.
- Prompt messages of a reward (claim, complete, reset), error texts stored in rows, and the bounded length of those texts.
- The limit and order of the due-deletion query, and the order in which rows are locked: the rows are parameters.
- The polling loop of the deletion worker, its concurrency and its waiting; the reaction to one answer is modelled.
- Import: choosing channels, the progress report, the waiting itself after a flood wait, `verify`, the setting check, and the index read of a message during re-indexing (the index step itself is ArchiveIndexService.ReconcileEdit); whether the archive still has a message is a parameter.
- Lone surrogates in a template, which the encoder of the source rejects with another exception; texts are scalar values.
- Entity fields other than offset and length are carried along as one value; their validation by the Telegram library is not modelled.
- Search, search sessions, admin panel, audit log, owner notifications, Mini App signatures, web pages, webhook, backup and migrations: tied to other systems or easier than what is here.
