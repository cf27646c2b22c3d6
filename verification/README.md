# TreeDX, modelled and proved in Dafny

TreeDX keeps agents' work on Git repositories: a file-backed catalog, workspaces with leases on branches, a
knowledge graph over the documents of a repository, and a few Git operations. This project models the parts whose
correctness is not visible from any single function, and proves what they promise for all inputs and all runs.

| file | what it models |
|---|---|
| `Log.dfy`, `Recovery.dfy`, `LogRuns.dfy`, `CachedReads.dfy`, `Numbering.dfy` | the append-only catalog log with its cached index, the compactor that rewrites the file behind the cache, and whole runs of both |
| `Paths.dfy`, `Storage.dfy` | which file a relative path names, and which logs of a data directory a compaction works on |
| `Workspace.dfy`, `Answers.dfy`, `Leases.dfy`, `Writers.dfy` | the workspace store and its branch leases, what each call answers and records, whole runs of its calls, and which of them keep one writer to a branch |
| `Headings.dfy`, `Sections.dfy`, `Groups.dfy`, `Segment.dfy`, `IndexNodes.dfy` | headings and section nesting, group membership, the stored form of the graph index, and the nodes of a whole index |
| `Expansion.dfy`, `Query.dfy`, `Nearest.dfy`, `Context.dfy` | the bounded expansion of a query, its ranking and truncation, the distances it carries when there are several seeds, and the packing into a token budget |
| `Dsl.dfy`, `DslValues.dfy` | the ctx query language, and what its values are read as |
| `TreeDiff.dfy`, `Reported.dfy`, `Push.dfy`, `PushOutcomes.dfy` | the changed paths between two trees and which changes go unreported, the compare-and-swap push of refs, and when it goes through |
| `Wrappers.dfy`, `Ordering.dfy`, `Text.dfy` | Option and Result, the order of strings and sorted key listings, trimming, decimal numbers and id normalisation |

Code that works by updating state is a class or a method with loops (`CatalogLog`, `WorkspaceStore`, `SegmentStore`,
`Repositories`, and the loops of the graph code). Each method is proved equal to a specification function or to a predicate
on its result, and the theorems are about those. The state machines (`LogRuns.Step`, `Leases.Step`) are built from the
same specification functions, so a theorem about runs is a theorem about the methods.

## What the proofs found

- A read after `append_records_unindexed` returns the table from before the batch, because the call stores the new file
  length without the new records. It is right exactly when the batch wrote nothing new (`LogRuns.UnindexedReadIff`,
  with one new record as the example in `LogRuns.UnindexedReadIsStale`).
- More exactly, every call answers from the table in memory, which indexed writes reach and unindexed ones do not, until
  a restart or a compaction that replaces the file (`CachedReads.FreshRunsAnswerExactly`).
- A compaction goes behind the back of the cache, and a file is replaced only when it gets strictly shorter: the cached
  length is never below the length of the file, and equal lengths mean an equal table (`LogRuns.StepKeeps`). A file of
  equal length at an equal time would pass for the old one, and a record that is gone would still be answered
  (`CachedReads.EqualLengthWouldMislead`).
- Compaction drops a record stored under the empty id, and nothing else (`Recovery.CompactionExactIff`,
  `Recovery.EmptyIdIsDropped`). It lists the survivors by id, so sequence numbers may repeat afterwards
  (`LogRuns.NumbersRepeatAfterCompaction`); they stay distinct until the next compaction, whatever is called, exactly
  when no survivor was written after the one with the greatest id (`Numbering.CompactionStaysDistinctIff`).
- A compaction that names no logs opens no audit log (`Storage.DefaultSparesAudit`). For one that names its logs, the
  prefix `audit/` is looked for in the text of the request and the path is resolved afterwards, so `./audit/events.tdb`
  is compacted (`Storage.DotAuditIsNoException`, `Storage.OtherSpellingReachesAudit`). A request is sure to spare the
  audit logs exactly when none of its paths without the prefix leads to one before another leads to a directory, which
  ends the run (`Storage.SparesAuditIff`).
- `release_lease` does not look at who holds the lease. README.md:667 of the repository promises one active writable
  lease per branch. A run from an empty store never has two sessions writing to one branch, whatever is created after any
  of its calls, if and only if none of its calls releases a lease that another session is writing under
  (`Writers.EmptyStoreKeepsPromiseIff`, for one call `Writers.StepKeepsPromiseIff`). The invariant behind it, that
  writers and held leases go together, survives a call under the same condition (`Leases.StepExclusiveIff`). Commit, take
  over, close, take over breaks the promise (`Leases.ClosingACommittedSessionFreesTheBranch`). The status `revoked` is
  never produced.
- The first section of a file is its own NEXT_SECTION, and that is the only irregular one (`Sections.NextEdgesExact`).
- With several seeds a node carries its distance from the first listed seed that reaches it. That is the distance from
  the nearest seed exactly when no later seed is nearer (`Nearest.NearestIff`); it is so on every graph exactly when the
  depth is at most one, or there is at most one seed, or no edge can be followed (`Nearest.AlwaysNearestIff`). Two seeds
  at the ends of a row of four nodes are the example (`Nearest.FirstSeedIsNotNearest`).
- For text that is not ASCII, the reported token estimate may be the remaining budget and not the estimate
  (`Context.EstimateTrueIff`); the branch for an estimate beyond the budget is never taken.
- Writing an index whose version directory can be read leaves that directory as it is (`Segment.SegmentStore.WriteGraph`).
  Nodes and edges are deduplicated before they are stored and documents are not; a stored list loses nothing exactly
  when no two different items share an id (`Segment.StoredKeepsAllIff`).
- Only entries of kind `blob` take part in a diff. A change is missed exactly when neither side is a plain blob
  (`Reported.MissedIff`), and a file that is still there is reported deleted, or one that was there added, exactly when
  it is a plain blob on one side and an executable, a link or a submodule on the other (`Reported.WronglyGoneIff`);
  making a file executable is the example (`Reported.ChmodIsReportedDeleted`).
- A push to another repository converges exactly when refspecs of one destination agree on its target. A push of a
  repository to itself converges exactly when no update moves a source away from the id its own destination is left with
  (`Push.PushConvergesIff`); with distinct destinations, when no update gives a source another id
  (`Push.DistinctPushConvergesIff`). `Push.TwoBranchesToOne` and `Push.ChainIntoItselfMovesOn` are the examples. HEAD is
  not among the refs a listing returns, so the heads a push reports are always absent (`Push.HeadsAreNeverKnown`).

## Model

| member | source | states |
|---|---|---|
| Log.CatalogLog.AppendRecord | crates/treedx_store/src/log/mod.rs:71-102 | A put creates the file if there is none, brings the index up to date, appends one line with the next number and leaves an index that matches the new file; a log that does not replay is an error and stays as it is |
| Log.CatalogLog.AppendDelete | crates/treedx_store/src/log/mod.rs:104-125 | The same for a delete line, and the id leaves the cached table |
| Log.CatalogLog.AppendRecords | crates/treedx_store/src/log/mod.rs:127-208 | Both batches: consecutive numbers, one line a record; the indexed one updates the cached table, the unindexed one only its length and next number |
| Log.CatalogLog.EnsureIndex | crates/treedx_store/src/log/mod.rs:294-328 | The index is kept if its length and time match the file and is rebuilt by replaying it otherwise; an error leaves it as it was |
| Log.CatalogLog.ReplayEnvelopes | crates/treedx_store/src/log/mod.rs:378-415 | The envelopes of all lines in order, or the error of the first line that is malformed, of another kind or fails its checksum |
| Log.CatalogLog.ReplayLatest | crates/treedx_store/src/log/mod.rs:225-238 | Answers from the index after bringing it up to date |
| Log.CatalogLog.ReplayRecord | crates/treedx_store/src/log/mod.rs:240-263 | Answers one id from the same table |
| Log.ReplayOkIff | crates/treedx_store/src/log/mod.rs:378-415 | A log replays if and only if every line is blank or an intact record of its kind |
| Log.FirstRefusedLine | crates/treedx_store/src/log/mod.rs:378-415 | Otherwise the first other line is named by its number, as a checksum error if only its hash is wrong |
| Log.RefusedLogFails | crates/treedx_store/src/log/mod.rs:71-263 | On a log with such a line, and no index that passes for current, every read and write fails and file and index stay as they are |
| Log.OtherIndexIsRebuilt | crates/treedx_store/src/log/mod.rs:294-328 | An index of another length or time is not answered from; the file is folded again |
| Log.ReplayAppended | crates/treedx_store/src/log/mod.rs:378-415 | What a write appends, a later replay reads back after everything that was there |
| Log.ReplayStops | crates/treedx_store/src/log/mod.rs:378-415 | The first refused line decides the whole replay, whatever follows it |
| LogRuns.StepKeeps | crates/treedx_store/src/log/mod.rs:294-376 | Every call, compaction and restart keeps: cached length at least the file's, and equal lengths mean the cached table and next number are those of the file; and it answers as the table of all writes would |
| LogRuns.RunsAnswerAsTheTable | crates/treedx_store/src/log/mod.rs:225-376 | Over any run no call fails, and every read made with no unindexed batch outstanding returns the table of the writes before it |
| LogRuns.LogRefinesMap | crates/treedx_store/src/log/mod.rs:225-376 | The reads of any run of puts, deletes, batches, compactions and restarts with nonempty ids are those of a plain map |
| LogRuns.FreshLogRefinesMap | crates/treedx_store/src/log/mod.rs:46-69 | The same from an empty data directory |
| LogRuns.UnindexedReadIff | crates/treedx_store/src/log/mod.rs:170-208 | A read right after an unindexed batch gives the table from before it, and is right if and only if the batch changed nothing |
| LogRuns.UnindexedReadIsStale | crates/treedx_store/src/log/mod.rs:170-208 | With one new record, the read answers with the empty table |
| CachedReads.StepAnswersExactly | crates/treedx_store/src/log/mod.rs:225-376 | Every call answers exactly from the table in memory, or from the file if there is none, and leaves in memory what its writes that are indexed make of that |
| CachedReads.FreshRunsAnswerExactly | crates/treedx_store/src/log/mod.rs:170-376 | So does every call of every run from an empty directory, unindexed batches, compactions and restarts included |
| CachedReads.EqualLengthWouldMislead | crates/treedx_store/src/recovery/mod.rs:161-173 | A log whose compaction has equal length: had it replaced the file at an equal time, the index would count as current and hold a record that is gone |
| LogRuns.RunsNumberWithoutGaps | crates/treedx_store/src/log/mod.rs:71-208 | In runs without compaction the lines are numbered 1, 2, 3 and so on, and a current index holds the next number |
| LogRuns.CompactionFreshIff | crates/treedx_store/src/log/mod.rs:265-275 | After a compaction the next number is above all others if and only if no survivor has a greater number than the one with the greatest id |
| LogRuns.NumbersRepeatAfterCompaction | crates/treedx_store/src/recovery/mod.rs:211-225 | A run of six calls whose lines end up numbered 3, 1, 2, 3 |
| Numbering.StaysDistinctIff | crates/treedx_store/src/log/mod.rs:265-275 | From any state with distinct numbers, they stay distinct in every run without a compaction if and only if the next number is above all of them |
| Numbering.CompactionStaysDistinctIff | crates/treedx_store/src/recovery/mod.rs:161-173 | After a compaction that replaced the file, numbers stay distinct in every run up to the next one if and only if no survivor has a greater number than the one with the greatest id, if any survives |
| Recovery.CompactOne | crates/treedx_store/src/recovery/mod.rs:124-183 | Reads all lines, keeps the survivors, replaces the file only outside plan mode and only by a shorter one, never touches the index, and reports counts and lengths |
| Storage.CompactStorage | crates/treedx_store/src/recovery/mod.rs:14-64 | All logs after the run and the reported files, path by path: skipped by prefix, absent, a directory, or compacted, up to the first error |
| Storage.EachSettles | crates/treedx_store/src/recovery/mod.rs:49-56 | However paths repeat or lead to one log, every log ends as it was or as its own compaction, and without an error every opened one as its compaction |
| Storage.ReportedPaths | crates/treedx_store/src/recovery/mod.rs:49-56 | A run without an error reports on every path it does not skip, in order |
| Storage.NothingThere | crates/treedx_store/src/recovery/mod.rs:129-140 | A path that leads to no file is reported empty and changes nothing, unless it leads to a directory |
| Storage.LogNameIff | crates/treedx_store/src/recovery/mod.rs:257-275 | A log is a file whose name is something and then .tdb |
| Storage.ChangedIff | crates/treedx_store/src/recovery/mod.rs:49-56 | A run without an error changes a log if and only if some path that is not skipped leads to it and compaction makes it shorter |
| Storage.DefaultOpensIff | crates/treedx_store/src/recovery/mod.rs:18-26 | A run that names no logs opens a file if and only if it is a log below the data directory and not below its audit directory |
| Storage.DefaultSparesAudit | crates/treedx_store/src/recovery/mod.rs:18-26 | Such a run leaves every audit log as it was, whatever the files hold |
| Storage.SparesAuditIff | crates/treedx_store/src/recovery/mod.rs:49-56 | A request leaves every audit log as it was, whatever the files hold, if and only if no path of it that lacks the prefix leads to one before another leads to a directory |
| Storage.OtherSpellingReachesAudit | crates/treedx_store/src/recovery/mod.rs:124-130 | Every audit log is reached by its path with a dot and a slash in front |
| Storage.DotAuditIsNoException | crates/treedx_store/src/recovery/mod.rs:124-130 | As ./audit/events.tdb |
| Paths.PathLeadsBack | crates/treedx_store/src/recovery/mod.rs:257-275 | The path a listing gives a file leads back to it |
| Paths.DownAndUp | crates/treedx_store/src/recovery/mod.rs:129-129 | Down into a directory and up again leads nowhere else, and above the root there is only the root |
| Paths.PathBelowIff | crates/treedx_store/src/recovery/mod.rs:18-26 | The path of a listed file has the prefix if and only if the file lies below that directory |
| Recovery.ReadJsonLog | crates/treedx_store/src/recovery/mod.rs:185-209 | The records in order, or the first line that is not JSON |
| Recovery.RenderLog | crates/treedx_store/src/recovery/mod.rs:211-225 | The survivors in the order of their ids |
| Recovery.CompactedIff | crates/treedx_store/src/recovery/mod.rs:124-183 | A compaction goes through if and only if every line is JSON; it replaces the file if and only if it is no plan and the survivors take fewer bytes; the reported lines and bytes are those before and after, in a plan too |
| Recovery.CompactionKeepsMeaning | crates/treedx_store/src/recovery/mod.rs:141-160 | The survivors fold to the table the log folded to, without the empty id |
| Recovery.CompactionExactIff | crates/treedx_store/src/recovery/mod.rs:141-160 | They fold to exactly that table if and only if nothing is stored under the empty id |
| Recovery.EmptyIdIsDropped | crates/treedx_store/src/recovery/mod.rs:145-153 | One record under the empty id is there before and gone after |
| Recovery.CompactionShape | crates/treedx_store/src/recovery/mod.rs:141-183 | One put line for each live id, strictly sorted by id, no delete line, only lines that were read, and not more lines than before |
| Recovery.CompactionIdempotent | crates/treedx_store/src/recovery/mod.rs:161-183 | A second compaction changes nothing and reports so |
| Recovery.CompactionNeverGrows | crates/treedx_store/src/recovery/mod.rs:161-173 | A plan leaves the log untouched; a replaced file is strictly shorter with the reported lengths true, and otherwise nothing changed |
| Workspace.WorkspaceStore.PutWorkspace | crates/treedx_store/src/workspace/mod.rs:31-125 | Every outcome of a create: repeated and clashing requests, missing branch, bad mode, held lease, and the new session with its lease |
| Workspace.WorkspaceStore.QuarantineWorkspace | crates/treedx_store/src/workspace/mod.rs:127-156 | The new store and the answer for a ready, finished and unknown session |
| Workspace.WorkspaceStore.UpdateWorkspacePolicy | crates/treedx_store/src/workspace/mod.rs:158-180 | Only the policy stamp of a session changes |
| Workspace.WorkspaceStore.MarkWorkspaceCommitted | crates/treedx_store/src/workspace/mod.rs:191-221 | The sha and the closing time are recorded and the lease the session names is released; the refusals leave the store alone |
| Workspace.WorkspaceStore.CloseWorkspace | crates/treedx_store/src/workspace/mod.rs:235-258 | A session is closed once and the lease it names is released |
| Workspace.WorkspaceStore.CleanupExpiredWorkspaces | crates/treedx_store/src/workspace/mod.rs:260-298 | The loop over the records in id order gives the store and the report of the specification |
| Workspace.WorkspaceStore.AcquireWritableLease | crates/treedx_store/src/workspace/mod.rs:304-338 | A lease that is active and unexpired refuses, any other is replaced by one for the new session |
| Workspace.WorkspaceStore.ReleaseLease | crates/treedx_store/src/workspace/mod.rs:340-347 | The lease of that id, if there is one, becomes released, whoever holds it |
| Answers.CreateRefusals | crates/treedx_store/src/workspace/mod.rs:31-125 | Which creates are refused, with which error, and which answer the session that is there; the store is untouched |
| Answers.CreateRecords | crates/treedx_store/src/workspace/mod.rs:57-125 | Any other create records exactly what was asked for, ready, from now for the time asked for, with its branch's lease if it writes, and answers that record; no other record or lease changes |
| Answers.CommitAnswers | crates/treedx_store/src/workspace/mod.rs:191-221 | A commit of a ready session records the sha it was given, closes the session, lets its lease go and answers the record; any other is refused and changes nothing |
| Answers.CloseAnswers | crates/treedx_store/src/workspace/mod.rs:235-258 | A close ends any session that is not closed and lets its lease go, and answers the record if there is one |
| Answers.QuarantineAnswers | crates/treedx_store/src/workspace/mod.rs:127-156 | A quarantine stamps any session with the policy and reason it is given, and ends a ready one |
| Answers.UpdateAnswers | crates/treedx_store/src/workspace/mod.rs:158-180 | A policy update stamps the session and its scope with the version and hash it is given, and nothing else |
| Answers.CleanupAnswers | crates/treedx_store/src/workspace/mod.rs:260-298 | A cleanup ends every overdue session, changes nothing else of it, and answers with their ids |
| Answers.CommittedShaIsGiven | crates/treedx_store/src/workspace/mod.rs:191-221 | A session that a run leaves committed was ready when one of its calls committed it, and has held the sha of that call since |
| Leases.StepLifecycle | crates/treedx_store/src/workspace/mod.rs:57-115 | Every call keeps every record in order (ready iff not closed at any time, ready has no sha and no revocation, committed has a sha, writable iff a lease is named and it is the branch's, never revoked) and moves its status only as allowed |
| Leases.RunLifecycle | crates/treedx_store/src/workspace/mod.rs:31-298 | So does every run |
| Leases.CommittedOnlyCloses | crates/treedx_store/src/workspace/mod.rs:191-258 | A committed session stays committed with the same sha through any run that does not close it |
| Leases.StepExclusiveIff | crates/treedx_store/src/workspace/mod.rs:340-347 | A call keeps "every ready, unexpired, writable session holds its branch's active lease with its own expiry, and every held lease belongs to such a session" if and only if it releases no lease under which another session is writing |
| Leases.RunExclusive | crates/treedx_store/src/workspace/mod.rs:304-347 | Runs whose calls release only their own leases keep it |
| Writers.StepKeepsPromiseIff | README.md:667 | Where writers and held leases go together, no two sessions write to one branch after a call and any one create if and only if the call releases no lease that another session holds |
| Writers.RunKeepsPromiseIff | README.md:667 | The same after every call of a run, if and only if none of its calls does |
| Writers.EmptyStoreKeepsPromiseIff | README.md:667 | The same from an empty store |
| Leases.NoTwoWriters | README.md:667 | From an empty store no such run has two sessions writing to one branch |
| Leases.ClosingACommittedSessionFreesTheBranch | crates/treedx_store/src/workspace/mod.rs:235-258 | The condition is needed: five calls after which two sessions write to one branch |
| Leases.CleanupExact | crates/treedx_store/src/workspace/mod.rs:260-298 | The report names exactly the sessions that went from ready to expired, no other record changed, and no ready session is overdue |
| Leases.CleanupLeasesExact | crates/treedx_store/src/workspace/mod.rs:260-298 | The reported leases are exactly those overdue sessions name; they are released, and every other lease is as it was |
| Leases.CleanupIdempotent | crates/treedx_store/src/workspace/mod.rs:260-298 | A second cleanup at the same time changes and reports nothing |
| Headings.ExtractHeadings | crates/treedx_graph/src/parse/mod.rs:91-110 | The loop, which keeps its offset in bytes, gives the headings of the specification by their byte offsets |
| Headings.HeadingsAreLines | crates/treedx_graph/src/parse/mod.rs:91-110 | Each heading's offsets enclose exactly one whole line of the body, and headings follow each other without overlap |
| Headings.HeadingsAreAll | crates/treedx_graph/src/parse/mod.rs:91-110 | Every line that reads as a heading is in the list, at its own offset |
| Headings.HeadingReads | crates/treedx_graph/src/parse/mod.rs:91-110 | A heading stands for a whole line by its byte offsets; its level is the number of marks the line begins with, one to six, followed by whitespace, and its text what follows, without the whitespace around it |
| Headings.MarkedLineIsHeading | crates/treedx_graph/src/parse/mod.rs:91-110 | Every line that begins with one to six marks, whitespace and another character is a heading of that level |
| Headings.ExtractedOrdered | crates/treedx_graph/src/parse/mod.rs:91-110 | Byte offsets of headings strictly increase and lie before the end of the body |
| Sections.BodySectionsNest | crates/treedx_graph/src/parse/mod.rs:133-153 | For the headings of any body: ranges nest or are disjoint, and the heading the stack picks is the innermost earlier one whose range contains the heading |
| Sections.RangesLaminar | crates/treedx_graph/src/parse/mod.rs:133-153 | Any two section ranges are nested or disjoint, and none is empty |
| Sections.EnclosingIsInnermost | crates/treedx_graph/src/index/mod.rs:261-304 | The nearest earlier heading of smaller level is the innermost range that contains a heading, and there is none if and only if no range contains it |
| Sections.EnclosingIsSmallest | crates/treedx_graph/src/index/mod.rs:261-304 | Every other range that contains the heading contains the range of that one |
| Sections.BuildSections | crates/treedx_graph/src/index/mod.rs:261-304 | The stack-and-ordinals loop gives exactly those sections, parents and edges |
| Sections.ParentEdgesExact | crates/treedx_graph/src/index/mod.rs:295-298 | There is a PARENT_SECTION edge from one section to another if and only if the second is the innermost that contains the first |
| Sections.SectionAt | crates/treedx_graph/src/index/mod.rs:271-295 | What each section is: its path below its parent's id, its ordinal among the sections of that path before it, its id of these, and its range |
| Sections.EdgesMirror | crates/treedx_graph/src/index/mod.rs:293-302 | Links up and down, and back and forth, come in pairs |
| Sections.FileEdges | crates/treedx_graph/src/index/mod.rs:293-294 | Every section is linked to its file both ways |
| Sections.SectionIdsDistinct | crates/treedx_graph/src/index/mod.rs:276-281 | Sections of one file never share an id |
| Sections.NextEdgesExact | crates/treedx_graph/src/index/mod.rs:299-302 | There is a NEXT_SECTION edge from section i to section j if and only if j is i + 1 or both are the first |
| Sections.FirstSectionFollowsItself | crates/treedx_graph/src/index/mod.rs:299-302 | The NEXT_SECTION edge of the first section leads to itself |
| Text.LastColonSplits | crates/treedx_graph/src/ids/mod.rs:18-20 | Path and ordinal can be read back from a section id |
| Text.NormalizeReads | crates/treedx_graph/src/ids/mod.rs:66-77 | Normalisation joins the runs of ASCII letters and digits, in lower case, with single dashes, whatever else lies between and around them |
| Text.GroupIdReads | crates/treedx_graph/src/ids/mod.rs:22-29 | A group that is no id gets the prefix and is normalised; an id is kept, but for whitespace around it |
| Text.GroupIdIdempotent | crates/treedx_graph/src/ids/mod.rs:22-29 | A group id is its own group id |
| Groups.WalkUp | crates/treedx_graph/src/index/groups.rs:66-85 | The worklist ends on any relation set and visits exactly the groups reachable from the origin; it warns if and only if the origin is on a cycle |
| Groups.ClosureIsReach | crates/treedx_graph/src/index/groups.rs:66-85 | A closed set of reachable groups around the origin is the set of all groups a walk of relations leads to |
| Groups.ApplyGroupHierarchy | crates/treedx_graph/src/index/groups.rs:15-116 | Each node's effective groups are, sorted, exactly those reachable from its own or its owner file's direct groups, nothing else of a node changes, and the edges and warnings are those of the specification |
| Groups.LabelledInherits | crates/treedx_graph/src/index/groups.rs:50-87 | A file has the groups reachable from its own; any other node has those of the last file of the id it names as its owner, or none; nothing else of a node changes |
| Groups.ReachesIffChain | crates/treedx_graph/src/index/groups.rs:21-48 | A group reaches another if and only if a chain of propagating relationships leads there |
| Groups.CycleIffChain | crates/treedx_graph/src/index/groups.rs:72-77 | It lies on a cycle if and only if such a chain, not empty, leads back to it |
| Groups.RelationEdgesExact | crates/treedx_graph/src/index/groups.rs:22-41 | Every relationship has an edge of its own, in order, between the ids of its groups |
| Groups.WarningsExact | crates/treedx_graph/src/index/groups.rs:72-77 | A cycle is reported if and only if it goes through a direct group of some file |
| Groups.InheritedEdgesExact | crates/treedx_graph/src/index/groups.rs:89-113 | The inherited edges are exactly the EFFECTIVE_GROUP edges, owned by the file, from a file to a group that is reachable from its direct groups and is not one of them |
| Expansion.Expand | crates/treedx_graph/src/query/mod.rs:190-230 | The breadth-first loop ends, keeps every old entry, and adds exactly the other nodes within the depth, each with its shortest distance d, the score 100 / 2^d and a last edge that realises it |
| Expansion.BallIffWalk | crates/treedx_graph/src/query/mod.rs:190-230 | "Within n" means that a walk of at most n permitted edges, taken in either direction, leads there |
| Expansion.NewEntryReads | crates/treedx_graph/src/query/mod.rs:190-230 | What an expansion adds lies at the end of a shortest way from the seed, with the length of that way and the score for it |
| Expansion.NewEntryReason | crates/treedx_graph/src/query/mod.rs:190-230 | Its one reason is an edge to it from a node one step nearer to the seed |
| Expansion.ScoreHalves | crates/treedx_graph/src/query/mod.rs:190-230 | The seed's 100 are halved by every step |
| Expansion.RelationKinds | crates/treedx_graph/src/query/mod.rs:232-246 | Which edges a relation follows |
| Query.OptionRanges | crates/treedx_graph/src/query/mod.rs:375-381 | A limit lies between 1 and 50 and a depth between 0 and 3; without one they are 20 and 1 |
| Query.KnownSeedsExact | crates/treedx_graph/src/query/mod.rs:49-55 | The seeds that count are the given ones that name a node, as often as they are given and in that order |
| Query.GivenSeedsCount | crates/treedx_graph/src/query/mod.rs:49-55 | Every given seed that names a node stands at depth 0 with score 100 |
| Query.ScoreSeeds | crates/treedx_graph/src/query/mod.rs:49-55 | Every known seed is at depth 0; a node is scored if and only if some seed reaches it, and carries the distance from the first seed that does |
| Nearest.DepthIsFirstSeeds | crates/treedx_graph/src/query/mod.rs:49-55 | The depth of a node that is no seed is d if and only if d is its distance from the first seed that reaches it |
| Nearest.NearestIff | crates/treedx_graph/src/query/mod.rs:49-55 | It is the distance from the nearest seed if and only if no later seed is nearer |
| Nearest.AlwaysNearestIff | crates/treedx_graph/src/query/mod.rs:375-381 | It is so on every graph if and only if the depth is at most one, all seeds are one, or the relations follow no edge |
| Nearest.FirstSeedIsNotNearest | crates/treedx_graph/src/query/mod.rs:49-55 | Seeds at the ends of a row of four nodes, depth two: a node next to the second seed carries two |
| Query.AddHits | crates/treedx_graph/src/query/mod.rs:57-76 | Each node gains the sum of its hits and keeps its depth, and hits that are not seed ids yet become some |
| Query.DistinctHitsAdded | crates/treedx_graph/src/query/mod.rs:57-76 | Hits of different nodes raise the score of each by its own with one more reason at the same depth; a node not there before stands at depth 0, and a node that is not hit is left alone |
| Query.SeedIdsExact | crates/treedx_graph/src/query/mod.rs:57-76 | The given seed ids stay in place, exactly the hits join them, and none joins twice |
| Query.AllCandidatesExact | crates/treedx_graph/src/query/mod.rs:78-90 | A candidate is a scored node of the index that passes the filters, and each is there once, with its score |
| Query.RankNodes | crates/treedx_graph/src/query/mod.rs:78-99 | The answer is a ranked list of candidates, as many as the limit allows, and every candidate left out ranks after every one kept |
| Query.TopIsBest | crates/treedx_graph/src/query/mod.rs:91-99 | Higher scores come first, equal ones by id, and nothing left out would come before anything kept |
| Query.TopUnique | crates/treedx_graph/src/query/mod.rs:91-99 | There is only one such list |
| Query.QueryGraph | crates/treedx_graph/src/query/mod.rs:39-117 | The whole pipeline: seeded scores, hits, candidates, the unique top, and exactly the permitted edges with both ends kept |
| Query.KeptEdgesExact | crates/treedx_graph/src/query/mod.rs:100-109 | An edge is returned if and only if its type is permitted and both its ends are included |
| Context.BuildContextPack | crates/treedx_graph/src/context/mod.rs:6-71 | The packed nodes are a prefix of the eligible nodes with text; the total is the sum of the estimates, within budget, without overflow; and the prefix ends only where the nodes, the node budget or the token budget end |
| Context.WantedExact | crates/treedx_graph/src/context/mod.rs:17-33 | The nodes to pack are the ranked ones of the mode that have text, in their order |
| Context.PackedTextExact | crates/treedx_graph/src/context/mod.rs:28-33 | Each packed text is as much of its node's text as the tokens left over pay for at four characters each, and its estimate is that of the text or those tokens if they are fewer |
| Context.EstimateExact | crates/treedx_graph/src/context/mod.rs:73-75 | A token is begun by every four bytes of trimmed text, and there is always one |
| Context.EstimateTrueIff | crates/treedx_graph/src/context/mod.rs:73-83 | The reported estimate is the true one if and only if the trimmed bytes of the truncated text fit the budget |
| Context.AsciiEstimateIsTrue | crates/treedx_graph/src/context/mod.rs:73-83 | For ASCII text they always do, also when the character limit saturates |
| Context.AsciiPackIsTrue | crates/treedx_graph/src/context/mod.rs:28-33 | So every packed ASCII node reports the estimate of the text it carries |
| Context.NonAsciiEstimateIsCut | crates/treedx_graph/src/context/mod.rs:30-30 | Four euro signs are three tokens and are reported as one |
| Segment.WriteRecords | crates/treedx_graph/src/segment/mod.rs:150-182 | A header and one envelope a record, in order |
| Segment.ReadRecords | crates/treedx_graph/src/segment/mod.rs:196-233 | The table of the records, the last of an id winning, or the first line that is malformed, of another kind or fails its checksum |
| Segment.ReadOkIff | crates/treedx_graph/src/segment/mod.rs:196-233 | A file is read if and only if every line is a header in front, blank, or an intact record of its kind |
| Segment.FirstRefusedLine | crates/treedx_graph/src/segment/mod.rs:196-233 | Otherwise the first other line is named by its number, as a checksum error if only its hash is wrong |
| Segment.LastRecordWins | crates/treedx_graph/src/segment/mod.rs:196-233 | A file that is read gives each id its last record, and no other id |
| Segment.IndexOkIff | crates/treedx_graph/src/segment/mod.rs:96-125 | A version directory is read, and so left as it is by a write, if and only if every line of its four files is accepted and the manifest is there |
| Segment.ReadAllWritten | crates/treedx_graph/src/segment/mod.rs:150-233 | Reading what was written never fails and gives the last record of each id |
| Segment.StoredShape | crates/treedx_graph/src/segment/mod.rs:96-125 | Reading back yields written items only, strictly sorted by id, every written id among them |
| Segment.StoredKeepsAllIff | crates/treedx_graph/src/segment/mod.rs:96-125 | Nothing is lost if and only if no two different items share an id |
| Segment.Dedupe | crates/treedx_graph/src/index/mod.rs:472-478 | The retaining loop gives the deduplicated list of the specification |
| Segment.DedupedExact | crates/treedx_graph/src/index/mod.rs:472-478 | Distinct ids, every id kept, and exactly the first item of each |
| Segment.DedupedRoundTrip | crates/treedx_graph/src/index/mod.rs:377-378 | Deduplicated items are read back whole, sorted by id |
| IndexNodes.SectionsSurvive | crates/treedx_graph/src/index/mod.rs:377-378 | Over all files with different ids of one length, every section is still there once the nodes are deduplicated, stored and read back |
| IndexNodes.SectionIdIsItsOwn | crates/treedx_graph/src/ids/mod.rs:18-20 | No other node of the index has the id of a section |
| Segment.RootRoundTrip | crates/treedx_graph/src/segment/mod.rs:23-125 | A written version directory reads as the index with its lists sorted by id |
| Segment.SegmentStore.ReadGraph | crates/treedx_graph/src/segment/mod.rs:96-125 | The index of a version, or not ready, no manifest, or the first bad file |
| Segment.SegmentStore.WriteGraph | crates/treedx_graph/src/segment/mod.rs:23-94 | A directory that reads is kept, any other is replaced; the latest manifest always changes; afterwards the version reads as it did or as the new index |
| TreeDiff.CollectRecursive | crates/treedx_git/src/tree/mod.rs:99-143 | The recursion pushes the listing of the tree after what was collected before |
| TreeDiff.PathsDistinct | crates/treedx_git/src/tree/mod.rs:99-143 | With slash-free, distinct names no path is listed twice |
| TreeDiff.FoundIsListed | crates/treedx_git/src/tree/mod.rs:99-143 | Every entry a descent finds is listed under the path it went |
| TreeDiff.ListedIsFound | crates/treedx_git/src/tree/mod.rs:99-143 | Every listed entry is found by a descent along its path |
| TreeDiff.ChangedPaths | crates/treedx_git/src/diff/mod.rs:7-49 | The loop over the union of the paths gives the changes of the specification |
| TreeDiff.ChangesExact | crates/treedx_git/src/diff/mod.rs:20-47 | Strictly sorted by path, one change for each path whose blob differs and none for any other |
| TreeDiff.ChangesApply | crates/treedx_git/src/diff/mod.rs:20-47 | Applied to the base blob map, the changes give the head blob map |
| TreeDiff.ChangesInvert | crates/treedx_git/src/diff/mod.rs:20-47 | Swapping the sides inverts every change |
| TreeDiff.NoChangeIff | crates/treedx_git/src/diff/mod.rs:20-47 | No change if and only if the blob maps are equal |
| TreeDiff.BlobMapIsLookup | crates/treedx_git/src/diff/mod.rs:51-57 | A path has a blob in the map if and only if descending the tree along it finds that blob |
| TreeDiff.TreesAgreeIff | crates/treedx_git/src/diff/mod.rs:7-57 | No change is reported if and only if every path looks up the same blob in both trees |
| Reported.ReportedIff | crates/treedx_git/src/diff/mod.rs:20-57 | The path of some names is reported if and only if the plain blobs a descent along them finds differ, with their ids, and as added, deleted or modified by which of them is there |
| Reported.ReportIsTheChange | crates/treedx_git/src/diff/mod.rs:20-57 | That report is the one change of its path in the result |
| Reported.WronglyGoneIff | crates/treedx_git/src/diff/mod.rs:51-57 | A path is reported deleted though the head holds an entry there that is no tree, or added though the base did, if and only if the entry is a plain blob on one side and an executable, a link or a submodule on the other |
| Reported.MissedIff | crates/treedx_git/src/diff/mod.rs:51-57 | A change of an entry that is no tree is missed if and only if neither side is a plain blob |
| Reported.ChmodIsReportedDeleted | crates/treedx_git/src/diff/mod.rs:51-57 | Making a file executable reports exactly its deletion |
| TreeDiff.ExecutableChangesGoUnreported | crates/treedx_git/src/diff/mod.rs:51-57 | One changed executable is not reported |
| Push.ValidatePushRefspecs | crates/treedx_git/src/sync/mod.rs:195-225 | Accepts exactly the nonempty lists whose every refspec has no wildcard, a source and a destination, both under refs/heads or refs/tags |
| Push.ResolvePushUpdates | crates/treedx_git/src/sync/mod.rs:267-285 | The id of every source, in order, or an error if one is missing |
| Push.Repositories.PushRemote | crates/treedx_git/src/sync/mod.rs:85-174 | All repositories of the machine and the answer, after the checks of refspecs, URL credentials and transport, resolution, the expected-head check, plan mode and the writes |
| PushOutcomes.PushSucceedsIff | crates/treedx_git/src/sync/mod.rs:85-133 | A push goes through if and only if its request resolves, leads to a repository of the machine, and expects no head or one that all destinations hold, or finds nothing left to do |
| PushOutcomes.PushWrites | crates/treedx_git/src/sync/mod.rs:118-133 | With work to do it reports that it pushed; each ref of the target then holds the last target of its name, or what it held, and no other repository has changed |
| PushOutcomes.PushDelivers | crates/treedx_git/src/sync/mod.rs:118-133 | So where updates of one destination agree, the destination of every refspec ends at the id of its source |
| PushOutcomes.PushRests | crates/treedx_git/src/sync/mod.rs:103-173 | With nothing left to do it changes nothing and says so |
| PushOutcomes.PlanListsDestinations | crates/treedx_git/src/sync/mod.rs:142-151 | A plan changes nothing and lists the destinations in the order of the refspecs |
| PushOutcomes.ConflictIff | crates/treedx_git/src/sync/mod.rs:107-116 | A request that resolves is refused, as a conflict and without a write, if and only if another head is expected and there is work to do |
| PushOutcomes.RequestRefused | crates/treedx_git/src/sync/mod.rs:85-101 | What is wrong with the refspecs or the URL decides the error |
| PushOutcomes.MissingRefused | crates/treedx_git/src/sync/mod.rs:102-112 | A missing local repository, source or remote repository are told apart, in that order |
| PushOutcomes.RefspecIff | crates/treedx_git/src/sync/mod.rs:195-229 | A refspec is accepted, and read as a source and a destination, if and only if it is the two around its first colon, with or without a plus sign, both under refs/heads or refs/tags and neither with a wildcard |
| PushOutcomes.CredentialsIff | crates/treedx_git/src/sync/mod.rs:249-255 | A URL carries credentials if and only if there is an at sign before the first slash after its scheme |
| PushOutcomes.LocalPathIs | crates/treedx_git/src/sync/mod.rs:257-265 | A file URL leads to its path, http to none, and anything else is a path itself |
| Push.PushedExact | crates/treedx_git/src/sync/mod.rs:122-155 | After a success no other repository changed, no ref but a destination changed, no ref is gone, the report names exactly the listed refs that changed, and every destination holds its source's id if and only if updates of one destination agree |
| Push.WriteAllAppliesIff | crates/treedx_git/src/sync/mod.rs:130-133 | The loop of writes establishes every update if and only if updates of one destination agree |
| Push.ExpectedHeadGuards | crates/treedx_git/src/sync/mod.rs:107-116 | A mismatched expectation writes nothing, and is a conflict if and only if the push is not already applied |
| Push.PushConvergesIff | crates/treedx_git/src/sync/mod.rs:85-174 | Repeating a push, whatever head it expects, reports nothing to do and changes nothing, if and only if: into another repository, updates of one destination agree; into the repository itself, no update moves a source away from the id that its own destination is left with |
| Push.DistinctPushConvergesIff | crates/treedx_git/src/sync/mod.rs:85-174 | With distinct destinations, if and only if the push goes to another repository or no update gives a source another id |
| Push.LevelIff | crates/treedx_git/src/sync/mod.rs:130-133 | The writes leave every source and its destination at one id if and only if the updates say so: the last target of each destination is what they leave at its source |
| Push.RestsIff | crates/treedx_git/src/sync/mod.rs:130-133 | Where updates of one destination agree, that is a condition on pairs of updates |
| Push.TwoBranchesToOne | crates/treedx_git/src/sync/mod.rs:85-174 | Two calls with the refspecs of two branches to one of another repository both report that they pushed |
| Push.ChainIntoItselfMovesOn | crates/treedx_git/src/sync/mod.rs:85-174 | Two calls with refspecs from a to b and from b to c into the repository itself both push, and the second moves c on |
| Push.DistinctIsConsistent | crates/treedx_git/src/sync/mod.rs:130-133 | With distinct destinations they do |
| Push.HeadsAreNeverKnown | crates/treedx_git/src/sync/mod.rs:183-189 | The head of a repository is never found |
| Dsl.Tokenize | crates/treedx_graph/src/dsl/mod.rs:127-159 | The character loop gives the tokens of the specification |
| Dsl.RenderedRoundTrip | crates/treedx_graph/src/dsl/mod.rs:127-159 | Tokens written in quotes are read back as they were, the empty token and keywords included |
| Dsl.WordsAreTokens | crates/treedx_graph/src/dsl/mod.rs:127-159 | Nonempty words without quotes and whitespace, whatever whitespace is between them, are their own tokens |
| Dsl.TokenListsIff | crates/treedx_graph/src/dsl/mod.rs:127-159 | Some source has a given token list if and only if no token holds both kinds of quote |
| Dsl.ClausesPartition | crates/treedx_graph/src/dsl/mod.rs:42-88 | The clause loop cuts keyword-led tokens into groups of a keyword and a keyword-free body, and that is the only way to do it |
| Dsl.Build | crates/treedx_graph/src/dsl/mod.rs:32-92 | The loop gives the query and the errors of folding the clauses over the groups |
| Dsl.ParseCtxDsl | crates/treedx_graph/src/dsl/mod.rs:12-30 | The parser finds the first keyword and builds from the parts before and after it |
| DslValues.SeedSigns | crates/treedx_graph/src/dsl/mod.rs:94-106 | What seed each leading sign gives |
| DslValues.WhereReads | crates/treedx_graph/src/dsl/mod.rs:108-114 | The first equals sign separates a field from the value expected, and whitespace around either is dropped |
| DslValues.ListReads | crates/treedx_graph/src/dsl/mod.rs:57-70 | A list joined by its separator is read as that list, trimmed, empty parts left out |
| DslValues.NumberReads | crates/treedx_graph/src/dsl/mod.rs:116-118 | A decimal number is read if it fits 32 bits, with or without a plus sign |
| DslValues.TargetAlone | crates/treedx_graph/src/dsl/mod.rs:36-42 | What a target alone asks for |
| DslValues.OneClauseIs | crates/treedx_graph/src/dsl/mod.rs:42-88 | A target and one clause are read as what its keyword sets |
| DslValues.NumberClauses | crates/treedx_graph/src/dsl/mod.rs:71-77 | Each number clause sets its own part of the query, and a limit the limit and both bounds on nodes |
| DslValues.NumberDefaults | crates/treedx_graph/src/dsl/mod.rs:71-77 | What stands in for a value that is no number |
| Dsl.AcceptedIff | crates/treedx_graph/src/dsl/mod.rs:12-92 | A query is returned, with no errors, if and only if the first token is ctx, the second is there and no keyword, and every keyword is followed by tokens that do not join to nothing |
| Dsl.LastClauseWins | crates/treedx_graph/src/dsl/mod.rs:55-87 | Each part of the query comes from the last clause of its keyword, whatever the other clauses are |
| Dsl.WrittenQueryParses | crates/treedx_graph/src/dsl/mod.rs:12-159 | Every target and list of clauses that can be written at all parses, from source text, to the query it describes |
| Dsl.UnknownClauseNeverReported | crates/treedx_graph/src/dsl/mod.rs:86-86 | The arm for unknown clauses is never reached |

## Left out

- Packages, foreign-function wrappers, HTTP handlers, scripts and deployment files.
- Files, clocks, hashes, JSON, YAML and regular expressions as such: a log is a list of lines with a byte length each,
  `modified` times and `now` are parameters, payloads and their hashes are abstract, and a line is what parsing it gives.
- Concurrency: each call is atomic under its lock. `compact_one` does not take the log lock; here it is one step, so a
  compaction that interleaves with an append is not covered. Nor is a crash between two writes of one call.
- `replay_all`, and payloads that fail to decode into the type a reader asks for. One log holds one record kind.
- `seq_no`, counts and lengths are unbounded; only the token arithmetic of context packs has its width.
- JSON lines in a log that are objects but no envelopes, as an older format might leave.
- Lease, edge, file and version ids: the hashes in them stand for what is hashed, so a lease id is its repository and
  branch, and edges have no id of their own.
- Materialized directories of workspaces, backups, and the fields of a session no call looks at (`rest`).
- Several clock readings inside one workspace call: there is one per call. Leases.NoTwoWriters: the clock never goes back
  between calls, because a session whose lease ran out and was taken over would be writing again.
- Recovery.CompactOne: a log header that ends in a carriage return and a newline loses a byte when it is rewritten.
- Storage.CompactStorage: symbolic and hard links, and file names with a backslash, which `list_tdb_logs` writes as a
  slash. The backup before a compaction is not taken.
- Text.NormalizeIdValue: lower-cases ASCII letters only, because `to_lowercase` follows the Unicode tables.
- Frontmatter, links, delta, metrics and the other nodes and edges of `build_graph_index`; diagnostics, which reading an
  index does not bring back.
- Query.QueryGraph: the hits of the lexical search and the path, where and type filters are parameters, because they are
  scoring formulas and JSON comparisons of one node; the order of the seeds a request expands to is a parameter too.
- Scores are real numbers and not floating-point ones; the depth is at most 3, where both agree on powers of two.
- `sort_by` is an insertion sort here; its result is unique (`Query.TopUnique`), so the algorithm does not show.
- Paths, provenance and the other carried-along fields of a context pack.
- The sizes and modes of tree entries, and the final sort of the recursive listing, which the blob map does not see.
- Push.Repositories.PushRemote: the URL is the one already looked up in the configuration, every ref holds an id, a name
  never clashes with a directory of refs, and objects are not copied. `git_dir` refuses a worktree whose `.git` is a file,
  which opening the repository accepts; here a repository that can be opened can be written. `fetch_remote` is not part of the model.
- `resolve_effective_scope`: unions, sorts and takes the earliest expiry of a filtered list of grants.
- Quarantine lists, searches, snapshots, federation and the other record wrappers over the catalog.
