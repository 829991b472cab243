# Verified model of the point-in-time data engine

bagelquant_data stores every version of every observation, lets a producer compute derived items from what was known on
a day, and rebuilds only what a change can affect. This project models the parts of it that decide *what is true when*
and proves that each fast algorithm agrees with its simple meaning. Dates are day numbers, frames are sequences of
records, tables are sequences and maps changed as a whole, and a producer is any function that meets a stated causality
hypothesis.

`dafny verify dfyconfig.toml` checks the whole project. Each module is one file of the same name.

| modules | part of the system |
|---|---|
| Records, InputSnapshots, Revisions, PitVersions | selecting versions at a cutoff, evaluating at revision boundaries, publishing deltas, replaying them |
| Postponement | rows postponed by their own available date, and exactly when a replay is still right |
| Segments, Selection | segment bounds and the pruning of frozen reads |
| GeneralSnapshots, Timing | full snapshots, verified copies, and deciding timing from boundary days |
| GeneralIntervals, Windows | impact of changed interval tuples; windows and their normal form |
| Calendars, History, Incremental, IncrementalRebuild | session buffers, finite history, the incremental planner and what it preserves |
| UnitGaps, UnitPartition, Shelves, Initialization | the initialization queue, and which stored units it may build on |
| SparsePublication | chains of sparse publications |
| CompletedRange | range certificates |
| InputMatching, Registration, PublicationGroups | matching of captures, dependency graph, publication splitting |
| PreparedCache, ForwardFill, Catalog | prepared-frame cache, forward fill, category forest |
| Sorting, Extremes, Wrappers | the stable sort standing for library sorts; greatest and least; optional values and results |

## Main results

- Replaying the published deltas on any day equals recomputing on that day, although the producer runs only at revision
  boundaries (`PitVersions.ReplayRefinesRecomputation`). For every causal producer it holds exactly when no current row
  is postponed by its own available date, unless a tombstone just like it stands already, and no row announced for a
  later day surfaces wrongly on that day (`PitVersions.ReplayExactly`); otherwise a withdrawn or superseded row can
  surface, in a concrete build in a lemma (`PitVersions.DelayedWithdrawalResurfaces`,
  `PitVersions.AnnouncedRowSurfaces`).
- Keeping stored days outside the planned windows and rebuilding inside them equals a full rebuild, for pointwise,
  forward and finite-history producers (`IncrementalRebuild.IncrementalEqualsFull`). The planner's end of impact serves
  every calendar day; for other days there is an exact condition and a plan that keeps a wrong day
  (`History.AffectedEndExactly`, `IncrementalRebuild.UnservedDayDiffers`). Whether a day may be kept is decided exactly:
  it is right for all producers if and only if it may read nothing newly visible
  (`IncrementalRebuild.IncrementalExactly`).
- An initialization run ends within a number of steps bounded by its first queue's weight, completes no day twice, keeps
  every usable unit usable, and every day ends up completed or in a finished build that left no usable unit. Its closing
  check fails exactly when there is such a build: one that published nothing over days that earlier output may concern,
  or reported unchanged (`Initialization.Run.Execute`, `Initialization.InitializeMany`, `Shelves.AfterUsable`).
- Every completion a chain of sparse publications ever records stays backed: each day of its range was published by a
  build of its chain and its definition, nothing written or checked since concerns that day, and what it leaves pending
  matures after its cutoff. A request succeeds, and is refused, for exactly the reasons stated day by day, and writes
  exactly the changed days of its ranges (`SparsePublication.Ledger.PublishSparse`).
- The timing decision made on boundary days holds on every day, in both directions (`Timing.Transition`); range
  certificates prove a range exactly when it is complete day by day (`CompletedRange.ProveRange`).
- A receipt is accepted exactly when a one-to-one assignment exists (`InputMatching.Matcher.Validate`), registration
  keeps dependencies acyclic (`Registration.Registry.Register`), and metadata pruning preserves reads
  (`Selection.PruningPreservesSelection`).

## Model

| member | source | states |
|---|---|---|
| `Records.LatestIsNewest` | src/bagelquant_data/items/pit.py:38-42 | keeping the last row of a key after sorting selects, of the admitted rows of the key, the one of the latest availability, then ingestion, then commit, and of equals the last; it finds one whenever one exists |
| `Records.LatestAgrees` | src/bagelquant_data/items/pit.py:45-52 | two cutoffs that admit the same versions of a key select the same version |
| `InputSnapshots.RevisionDates` | src/bagelquant_data/items/pit.py:16-28 | a frame's revision dates are exactly the availability dates later than their observation, the dates of non-baseline snapshot events, or, for a General input resolved from its retained evidence, the dates of its non-baseline events and of its checks |
| `InputSnapshots.SnapshotLookup` | src/bagelquant_data/items/pit.py:45-52 | a snapshot holds a key exactly when some version of it is visible, and then its latest one |
| `InputSnapshots.SnapshotIsNewest` | src/bagelquant_data/items/pit.py:45-52 | a snapshot holds exactly the keys with a version available by the cutoff, and of each the row of the latest availability, then ingestion, then commit |
| `InputSnapshots.GeneralIsNewest` | src/bagelquant_data/items/pit.py:53-63 | of the full snapshots dated by the cutoff, the rows shown are those of the greatest commit, then date, ingestion and attestation; something is shown whenever a row is dated by the cutoff |
| `InputSnapshots.SnapshotUpTo` | src/bagelquant_data/items/pit.py:45-52 | if no late version arrives between a day and a cutoff, both snapshots agree on every observation up to the day |
| `InputSnapshots.SameUpToMeans` | src/bagelquant_data/items/pit.py:45-52 | two views of records agree up to a day exactly if they hold the same rows of every observation by then |
| `InputSnapshots.FrameAgrees` | src/bagelquant_data/items/pit.py:16-112 | for the four frame shapes and for resolved General inputs: without a revision date in between, two cutoffs give the same view of observations up to a day |
| `Revisions.KeyDeltas` | src/bagelquant_data/items/pit.py:212-229 | for one key, reconciling publishes nothing if its row is unchanged, the new row under the later of its effective day and its available date if it changed, a null row on the effective day if it was withdrawn, and nothing past the range |
| `Revisions.LoggedExactly` | src/bagelquant_data/items/pit.py:207-229 | a log holds exactly the new or changed rows, dated by the latest of their time, available date and boundary, and null rows of the keys that disappeared, dated by the later of their time and the boundary, that have times in the range and take effect by its end |
| `Revisions.LatestWins` | src/bagelquant_data/items/pit.py:212-229 | of the deltas an evaluation after another publishes for a key, replay takes one that takes effect by the day, under the greatest version, and the last of these; none only if none takes effect |
| `Revisions.ReplayIsLatest` | src/bagelquant_data/items/pit.py:185-229 | for any run, postponed rows included, replaying the whole log for a key is taking the latest over the key's own deltas, one per evaluation |
| `Revisions.LaterBoundariesHidden` | src/bagelquant_data/items/pit.py:185-229 | evaluations of later boundaries never change what the log shows on an earlier day, for any run |
| `Revisions.ValuesAwaitAvailability` | src/bagelquant_data/items/pit.py:207-210 | no published value is effective before its own available date |
| `Revisions.IdenticalRowsEmitNothing` | src/bagelquant_data/items/pit.py:217-218 | the shortcut for identical frames publishes what the joins would: nothing |
| `Postponement.TimelyShows` | src/bagelquant_data/items/pit.py:185-229 | if every current row is in effect and no announced row surfaces wrongly, the log shows on every day the evaluation in force for times that have come, and nothing for future times |
| `Postponement.AlwaysShowsExactly` | src/bagelquant_data/items/pit.py:207-229 | for every run the log shows each evaluation while it is in force if and only if every current row is on time or repeats a tombstone already shown, and every announced row is harmless on the day it falls due |
| `Postponement.EchoIsShown` | src/bagelquant_data/items/pit.py:207-229 | a concrete run shown rightly although a current null row is postponed, because a tombstone just like it stands: the second case of the condition occurs |
| `PitVersions.BoundaryDaysSchedule` | src/bagelquant_data/items/pit.py:185-188 | the boundary list is ascending and holds exactly the days after the start, up to the end, that revise an input or are asked for |
| `PitVersions.SegmentViewsAgree` | src/bagelquant_data/items/pit.py:194-201 | on every day of a segment the inputs agree, for observations up to that day, with the inputs at the segment's cutoff |
| `PitVersions.ReplayRefinesRecomputation` | src/bagelquant_data/items/pit.py:185-229 | for a causal producer whose current rows are in effect and whose announced rows are harmless, replaying all deltas on any day gives the producer run on that day's snapshots, for every key, with withdrawals and returning keys |
| `PitVersions.ReplayExactly` | src/bagelquant_data/items/pit.py:185-229 | for every causal producer the replay is right on all days and keys if and only if current rows are in effect and announced rows are harmless |
| `PitVersions.DelayedRowIsMissed` | src/bagelquant_data/items/pit.py:207-209 | a postponed row of a time its evaluation is in force for is shown on the day it takes effect if and only if a tombstone just like it is shown already |
| `PitVersions.ReplayExactlyWhenOnTime` | src/bagelquant_data/items/pit.py:207-229 | if rows dated after their evaluation's cutoff are on time, the replay is right on all days and keys if and only if every evaluated row, null rows included, is dated available by the later of its time and its boundary |
| `PitVersions.DelayedWithdrawalResurfaces` | src/bagelquant_data/items/pit.py:223-229 | a concrete build over days 1 to 4 in which a row withdrawn on day 2 is shown again on days 3 and 4, although recomputing gives nothing |
| `PitVersions.AnnouncedRowSurfaces` | src/bagelquant_data/items/pit.py:207-229 | a concrete build over days 1 to 8 in which all current rows are on time and day 8 still shows the superseded announcement of day 5 |
| `PitVersions.Difference` | src/bagelquant_data/items/pit.py:212-229 | with and without the shortcut, an evaluation publishes exactly its reconciliation with the previous one |
| `PitVersions.PublishRevisions` | src/bagelquant_data/items/pit.py:194-234 | publishes the whole log in boundary order, or stops at the first evaluation that repeats a key with everything earlier published |
| `PitVersions.IterComputedVersions` | src/bagelquant_data/items/pit.py:167-234 | fails exactly on an inverted range or two rows of one key in an evaluation; boundaries are exactly the revising and requested days, and the published log holds exactly what the evaluations announce or withdraw in the range, in a job to which the replay theorem applies |
| `Segments.DescribedBoundsAreExact` | src/bagelquant_data/input_index.py:43-50 | recorded bounds and the availability delay contain every row of a segment and each is attained by a row |
| `Selection.FilterPruned` | src/bagelquant_data/inputs.py:171-192 | for the versions view, pruned batches contribute no row |
| `Selection.LatestPruned` | src/bagelquant_data/inputs.py:171-192 | pruned batches never hold the latest admitted version of a record observed in range |
| `Selection.VersionsRead` | src/bagelquant_data/inputs.py:4611-4659 | a read is refused exactly for a snapshot without a cutoff; the versions view keeps each stored row as often as it occurs unless strictness, the cutoff or a bound withholds it |
| `Selection.RecordRead` | src/bagelquant_data/inputs.py:4611-4659 | otherwise a record is read exactly if a version of it is not withheld: available by the cutoff, in a history by its own observation date, no baseline if strict, inside the bounds; its row is the one of the latest availability, then ingestion, then commit |
| `Selection.PruningPreservesSelection` | src/bagelquant_data/inputs.py:4611-4659 | selecting from the kept batches equals selecting from all, in every view, with unknown bounds kept; every version of a record has the observation date of its key |
| `Selection.NothingPruned` | src/bagelquant_data/inputs.py:188-192 | evidence that did not retain its bounds is read whole |
| `Selection.BatchesRead` | src/bagelquant_data/inputs.py:171-192 | with retained bounds exactly the batches observed before a declared lower bound, after an upper one, or available after the cutoff are left out; the others are read as often as they are captured |
| `GeneralSnapshots.BestIsNewest` | src/bagelquant_data/items/pit.py:95-98 | the selected snapshot is the first of those with the greatest commit, then date, ingestion and attestation |
| `GeneralSnapshots.IdentifiesNewest` | src/bagelquant_data/items/pit.py:75-98 | of all events as recorded and as verified by nonbaseline checks of their commit, known once both are, the one of the greatest commit, date, ingestion and attestation is selected; nothing only if there is none |
| `GeneralSnapshots.CopiesAre` | src/bagelquant_data/items/pit.py:86-94 | the verified copies of a baseline event are exactly those of nonbaseline checks of its commit reached by the cutoff |
| `GeneralSnapshots.CandidateEvents` | src/bagelquant_data/items/pit.py:75-94 | the candidates are exactly the visible events and their visible copies |
| `GeneralSnapshots.BestOfCommit` | src/bagelquant_data/items/pit.py:95-98 | when no candidate has a greater commit, candidates of smaller commits never decide |
| `GeneralSnapshots.SettledCandidates` | src/bagelquant_data/items/pit.py:75-94 | if neither an event nor a verified copy becomes visible between two cutoffs, both have the same candidates and so select the same snapshot |
| `Timing.SelectionConstant` | src/bagelquant_data/items/timing.py:54-66 | between boundary days the selection of an admitted input does not change |
| `Timing.CopyBeatsOwn` | src/bagelquant_data/items/timing.py:64-70 | a selected verified copy is strictly greater than the event itself |
| `Timing.BaselineUntilReplaced` | src/bagelquant_data/items/timing.py:61-74 | a settled input selects a baseline on a day exactly while its event is one and no check known by the day replaces it: dated later than the event, or as late and checked later, or checked as early with a greater id |
| `Timing.AdmittedIs` | src/bagelquant_data/items/timing.py:33-59 | the metadata conditions hold exactly if the initial selection is a recorded event known by the cutoff under the recorded commit, and no event or check outside the cutoff and end can change it |
| `Timing.BaselineFades` | src/bagelquant_data/items/timing.py:61-75 | an input that stopped selecting a baseline never selects one again |
| `Timing.CheckDay` | src/bagelquant_data/items/timing.py:62-70 | decides for one day whether all inputs keep their recorded commits and whether any selects a baseline |
| `Timing.Admit` | src/bagelquant_data/items/timing.py:33-59 | accepts exactly when all inputs meet the metadata conditions, with every day a verified copy can appear among the boundaries; a refusal means that no list of recorded events meets them |
| `Timing.Sweep` | src/bagelquant_data/items/timing.py:60-75 | over ascending days finds the first without a baseline, or a day that does not fit |
| `Timing.Transition` | src/bagelquant_data/items/timing.py:29-75 | returns t exactly when t is the first day of the whole window without any baseline and every day keeps the recorded commits; otherwise no such day exists |
| `GeneralIntervals.ActiveSetsDiffer` | src/bagelquant_data/general_intervals.py:38-50 | a tuple of changed multiplicity is active on a day exactly when the active multisets of that day differ |
| `GeneralIntervals.AddRange` | src/bagelquant_data/general_intervals.py:64-68 | extends or appends as the sweep requires, never forming a date past the last legal one |
| `GeneralIntervals.MergeSpans` | src/bagelquant_data/general_intervals.py:60-68 | the merged ranges are in normal form, inside the legal dates, and cover exactly the days of the spans |
| `GeneralIntervals.Ranges` | src/bagelquant_data/general_intervals.py:38-69 | fails exactly on a changed tuple without usable dates; otherwise sorted, disjoint, non-adjacent ranges whose days are exactly those on which the active multisets before and after differ |
| `Windows.AbsorbCovers` | src/bagelquant_data/items/incremental.py:26-33 | one merge step covers the old days and the new window and nothing else |
| `Windows.Merge` | src/bagelquant_data/items/incremental.py:26-33 | merging gives windows with an uncovered day between neighbours that cover exactly the given days |
| `Windows.NormalFormUnique` | src/bagelquant_data/items/incremental.py:26-33 | a set of days has one normal form, so the merged plan is determined by the days alone |
| `Calendars.AdvanceZeroIsLeast` | src/bagelquant_data/items/availability.py:168-172 | without a buffer the result is the least session on or after the date, and none only if all sessions are earlier |
| `Calendars.AdvanceCounts` | src/bagelquant_data/items/availability.py:170-172 | with a buffer of n the result is the n-th session strictly after the date, and none exactly if fewer remain |
| `Calendars.AdvanceMonotone` | src/bagelquant_data/items/availability.py:158-172 | later dates and longer buffers never give an earlier session, and running off the calendar is final |
| `Calendars.AdvanceComposes` | src/bagelquant_data/items/availability.py:158-172 | advancing by n at least one and then m equals advancing by n + m, including off the calendar |
| `History.ReachExact` | src/bagelquant_data/items/incremental.py:589-595 | an output day reaches back to a changed date exactly until the calendar day history + 1 positions after the change |
| `History.ReadsByIndex` | src/bagelquant_data/items/incremental.py:589-595 | a day on or after the k-th calendar day and before the next reads what was observed by it, back to the calendar day history places before the k-th or to the first |
| `History.ImpactStopsAtAffectedEnd` | src/bagelquant_data/items/incremental.py:579-597 | no calendar day after the computed end reads a changed observation |
| `History.AffectedEndIsReached` | src/bagelquant_data/items/incremental.py:593-595 | the computed end is tight: as a calendar day it still reads the change |
| `History.DayOutOfReach` | src/bagelquant_data/items/incremental.py:579-597 | an output day after the computed end reads nothing changed if and only if it has come to the next calendar day, or no calendar day lies on or before the change |
| `History.AffectedEndExactly` | src/bagelquant_data/items/incremental.py:579-597 | for any set of output days, an empty calendar and a change before its first day included, the computed end is right if and only if each later one is out of reach |
| `History.OffCalendarDayIsMissed` | src/bagelquant_data/items/incremental.py:593-597 | on the calendar 1, 5, 9 with one observation of history a change of day 1 ends at 5, while day 7 still reads it |
| `History.HaloCoversReads` | src/bagelquant_data/items/api.py:2090-2096 | every observation an output day on or after the start may read lies inside the read halo |
| `History.ReadStartByIndex` | src/bagelquant_data/items/api.py:2090-2096 | the halo starts history + 1 calendar days before the start, at the first calendar day if there are not so many, at the start if there are none |
| `Incremental.CollectOwn` | src/bagelquant_data/items/incremental.py:460-475 | later direct publications contribute their days inside the completed range, or the first unknown one stops the plan |
| `Incremental.CollectPending` | src/bagelquant_data/items/incremental.py:476-478 | outputs maturing between the old cutoff and the new end contribute their days |
| `Incremental.CollectInputs` | src/bagelquant_data/items/incremental.py:494-601 | every input segment contributes its window, and the first unknown impact stops the plan |
| `Incremental.CompletedActions` | src/bagelquant_data/items/incremental.py:460-644 | planning raises exactly when the first impact that is not known raises; it is blocked exactly when that impact is unknown or every completed day is due; otherwise it rebuilds exactly the due days, in separated ascending windows |
| `Incremental.RaisedOnlyWithoutCalendar` | src/bagelquant_data/items/incremental.py:589-597 | planning raises only for an empty calendar and a history of zero observations |
| `Incremental.EmptyCalendarRaises` | src/bagelquant_data/items/incremental.py:589-597 | a concrete query whose first impact raises: one new observation, an empty calendar, no history |
| `Incremental.SegmentImpactExact` | src/bagelquant_data/items/incremental.py:537-599 | the impact of an input segment is unknown exactly without the bounds or calendar it needs, raises exactly on an empty calendar without history, and otherwise affects exactly the days that may read a date whose rows may be new: in the bounds, admitted by the request, and for older segments observed no more than the delay before the old cutoff; a forward horizon adds the days until the end or the calendar day of its history |
| `Incremental.OwnImpactExact` | src/bagelquant_data/items/incremental.py:460-475 | output published later affects exactly the completed days between its bounds, unless it is available only after the end; without bounds it is unknown unless empty |
| `Incremental.FinishedExactly` | src/bagelquant_data/items/incremental.py:635-639 | the planned windows cover exactly the days that are due: spoken for by some impact or pending date, with an unbounded forward horizon every day after one, and every day after the completed range |
| `Incremental.SpansExactly` | src/bagelquant_data/items/incremental.py:639-644 | merged windows span the history exactly when every completed day is covered |
| `IncrementalRebuild.OwnDayIsRead` | src/bagelquant_data/items/incremental.py:573-599 | an output reads its own day, with a calendar from its first day on, and no later one |
| `IncrementalRebuild.RangeImpactSound` | src/bagelquant_data/items/incremental.py:573-599 | the window of a changed range holds every day that may read it, for each kind of horizon |
| `IncrementalRebuild.SegmentImpactSound` | src/bagelquant_data/items/incremental.py:547-599 | a newly visible row, new or matured within its delay, affects every day that may read it or makes the impact unknown |
| `IncrementalRebuild.VisibleAgree` | src/bagelquant_data/items/incremental.py:537-572 | if no row of a date is newly visible, old and new readers see the same rows of it in the same order |
| `IncrementalRebuild.UncoveredSameReads` | src/bagelquant_data/items/incremental.py:537-644 | a completed day outside the windows reads the same input rows before and after |
| `IncrementalRebuild.CalendarDaysServed` | src/bagelquant_data/items/incremental.py:579-597 | every calendar day is served by the planned windows, and every day of a pointwise or unbounded forward output |
| `IncrementalRebuild.IncrementalEqualsFull` | src/bagelquant_data/items/incremental.py:460-644 | for every requested day that is served, or on which the producer has no output, keeping stored output outside the windows and rebuilding inside equals a full rebuild |
| `IncrementalRebuild.NewRowDiffers` | src/bagelquant_data/items/incremental.py:460-644 | a day that may read a newly visible row differs from the full rebuild for some producer that respects the horizon |
| `IncrementalRebuild.IncrementalExactly` | src/bagelquant_data/items/incremental.py:460-644 | keeping a requested day is right for all producers that respect the horizon if and only if the day is rebuilt or may read nothing newly visible |
| `IncrementalRebuild.UnservedDayDiffers` | src/bagelquant_data/items/incremental.py:593-644 | a concrete plan that keeps an off-calendar day whose stored output differs from the full rebuild |
| `IncrementalRebuild.HaloPreservesOutput` | src/bagelquant_data/items/api.py:2063-2096 | a finite-history build reading from the halo computes the same output on every day it builds, on the calendar or off it |
| `IncrementalRebuild.ClipExactly` | src/bagelquant_data/items/api.py:2090-2096 | a build from the halo reads exactly the rows observed from its first to its last day, as often as they are stored |
| `UnitGaps.GapsAreLighter` | src/bagelquant_data/items/initialization.py:250-263 | unless nothing was done, the gaps of a unit weigh strictly less than the unit (2n - 1 for n days) |
| `UnitGaps.SweepGaps` | src/bagelquant_data/items/initialization.py:250-258 | the sweep finds exactly the days of the unit that no completed window covers |
| `UnitGaps.Gaps` | src/bagelquant_data/items/initialization.py:245-258 | the same from unsorted completions; the whole unit is a gap exactly when no completed window meets it, and otherwise the gaps weigh less |
| `UnitPartition.TilesCover` | src/bagelquant_data/items/initialization.py:225-230 | month units cover each day of the range exactly once, in order |
| `UnitPartition.Partition` | src/bagelquant_data/items/initialization.py:225-230 | units tile the range, stay in one month and within the window length, and are as long as these allow |
| `UnitPartition.Sweep` | src/bagelquant_data/items/initialization.py:314-322 | the closing sweep passes exactly when the units cover every day, and then carries every unit's pending dates |
| `UnitPartition.Close` | src/bagelquant_data/items/initialization.py:310-322 | the same over the stored completions inside the range |
| `Shelves.AfterUsable` | src/bagelquant_data/items/initialization.py:72-99 | a build of an untouched window keeps exactly the units that were reusable, and adds its own if and only if it published something or no stored commit meets its window |
| `Shelves.UsableMeans` | src/bagelquant_data/items/initialization.py:75-99 | the units a run builds on are exactly the stored ones after which no commit and no check is unbounded or meets their window |
| `Shelves.CompletedMeans` | src/bagelquant_data/items/initialization.py:75-99 | a day counts as completed exactly when it lies in such a unit |
| `Shelves.LandsMeans` | src/bagelquant_data/items/initialization.py:75-80 | a build leaves a usable unit exactly if it finished and published a row of its window or nothing stored before may concern a day of it |
| `Shelves.BoundsExactly` | src/bagelquant_data/input_index.py:43-50 | what is on record of the stored rows of a window are exactly the least windows around the days of each publication that has one |
| `Shelves.ExposedStays` | src/bagelquant_data/items/initialization.py:72-99 | a day that stored output may concern and no usable unit completes stays so unless a build over it publishes |
| `Shelves.ShelteredStays` | src/bagelquant_data/items/initialization.py:72-99 | where no day is exposed every finished build leaves a usable unit, and only an unfinished build can expose a day |
| `Shelves.CancelledBulk` | src/bagelquant_data/items/api.py:1291-1313 | a cancelled build of three days with rows on the first and the last leaves one commit that spans all three |
| `Initialization.GapsKeepSound` | src/bagelquant_data/items/initialization.py:259-263 | requeueing what a window lacks loses no day of any item and lets none wait twice |
| `Initialization.LegalKeeps` | src/bagelquant_data/items/initialization.py:237-287 | whatever a run builds, no day is completed twice and every usable unit stays usable |
| `Initialization.ShelteredRun` | src/bagelquant_data/items/initialization.py:237-287 | if no day starts exposed, no build reports unchanged and only finished builds publish, no build of the run is fruitless |
| `Initialization.ExposedNeverCertified` | src/bagelquant_data/items/initialization.py:299-322 | a day that starts exposed, and over which no finished build publishes, keeps the closing check of this run and of later ones from passing |
| `Initialization.SilentDayIsLost` | src/bagelquant_data/items/initialization.py:72-99 | the concrete run: over the commit of a cancelled wide build, units of one day publish on the first and last day, the day between has nothing to publish, and its unit is not usable |
| `Initialization.BuildKeepsSound` | src/bagelquant_data/items/initialization.py:264-287 | a finished build of an untouched window moves its days from the queue to the completed days, or to the fruitless builds, and leaves every other day where it was |
| `Initialization.HalvesCover` | src/bagelquant_data/items/initialization.py:274-276 | both halves cover a split window once and weigh less than it |
| `Initialization.ClosesExactly` | src/bagelquant_data/items/initialization.py:306-322 | with an empty queue every day is completed for every item if and only if no build was fruitless |
| `Initialization.Plan` | src/bagelquant_data/items/initialization.py:216-233 | in the first queue every day of the range waits exactly once for every item |
| `Initialization.Run.PushFront` | src/bagelquant_data/items/initialization.py:261-262 | pushing in reverse keeps the order of the windows at the front of the queue |
| `Initialization.Run.Store` | src/bagelquant_data/items/initialization.py:264-287 | stores what a build of an untouched window published, and its unit if it finished; the builds made and the shelves stay in step |
| `Initialization.Run.Process` | src/bagelquant_data/items/initialization.py:240-287 | one item of a unit is skipped, built, split or ends the run; exactly the build of an untouched unit is made; no day is lost but those of fruitless builds, and the weight strictly decreases |
| `Initialization.Run.Visit` | src/bagelquant_data/items/initialization.py:238-287 | a unit is worked off item by item while gaps are pushed behind it |
| `Initialization.Run.Drain` | src/bagelquant_data/items/initialization.py:237-287 | the queue empties within as many steps as it weighs, unless a build ends the run |
| `Initialization.Run.CloseItem` | src/bagelquant_data/items/initialization.py:295-332 | one item is closed only while its definition stands and nobody stops the run; it fails exactly for the reason given, an uncovered day included |
| `Initialization.Run.Finish` | src/bagelquant_data/items/initialization.py:295-332 | the closing check, unless interrupted or facing a changed definition, fails exactly when a build of the run was fruitless, and then some day lies only in disturbed units; otherwise every day lies in a unit no later commit or check disturbs, and each certificate carries exactly the pending dates of such units |
| `Initialization.Run.Execute` | src/bagelquant_data/items/initialization.py:237-332 | a whole run ends; it stops only on cancellation, an unsplittable memory failure or a changed definition, and otherwise its closing check fails if and only if one of its builds was fruitless |
| `Initialization.InitializeMany` | src/bagelquant_data/items/initialization.py:102-332 | refused with the first of bad names, an inverted range, a fixed range or definition that differs, and a changed policy; otherwise the shelves are what the builds made of them, success means every day of the range lies in a unit of every item that nothing stored since disturbs, and the closing check fails if and only if a build was fruitless |
| `SparsePublication.CheckRanges` | src/bagelquant_data/items/api.py:1679-1682 | accepts exactly nonempty, disjoint ranges inside the coverage |
| `SparsePublication.CheckHole` | src/bagelquant_data/items/api.py:1684-1692 | finds no hole exactly when the ranges hold every newly declared day |
| `SparsePublication.CheckMature` | src/bagelquant_data/items/api.py:1696-1700 | accepts exactly when every newly mature output date is republished |
| `SparsePublication.CheckLater` | src/bagelquant_data/items/api.py:1730-1737 | accepts exactly when each later batch has bounds inside one range |
| `SparsePublication.ConfinedDays` | src/bagelquant_data/items/api.py:1734-1737 | then every later row lies in a range |
| `SparsePublication.CheckTiming` | src/bagelquant_data/items/api.py:1743-1748 | accepts exactly when every later check of the output names ranges, and only ranges inside the affected ones |
| `SparsePublication.ConfinedIsElsewhere` | src/bagelquant_data/items/api.py:1730-1748 | then no later commit touches, and no later check concerns, a day outside the affected ranges |
| `SparsePublication.Unavailable` | src/bagelquant_data/items/api.py:2211-2214 | a whole-range build leaves pending exactly its rows available after its cutoff |
| `SparsePublication.Carried` | src/bagelquant_data/items/api.py:1802-1803 | exactly the predecessor's pending dates of the range that are not republished stay pending |
| `SparsePublication.CarriedMatureLater` | src/bagelquant_data/items/api.py:1696-1700 | every carried pending date matures strictly after the new cutoff |
| `SparsePublication.AcceptedExactly` | src/bagelquant_data/items/api.py:1671-1772 | a request is accepted exactly if it continues a certified root of the same definition without going back, its ranges are disjoint inside the coverage, fill the new days and the newly mature dates, later output and checks lie inside one range each, and nothing intervenes |
| `SparsePublication.ReplacementWrites` | src/bagelquant_data/items/api.py:1410-1435 | replacing a range writes a day exactly if it lies in the range, changed, and has a row now or before |
| `SparsePublication.ContinuationFollows` | src/bagelquant_data/items/api.py:1798-1805 | a continuation keeps the definition and does not move back the start, the end, the cutoff or the store position of its predecessor; what it carries was pending before and outside the ranges |
| `SparsePublication.VoucherExtends` | src/bagelquant_data/items/api.py:1730-1757 | outside the ranges the build that published a day still vouches for it: no commit or check since concerns the day |
| `SparsePublication.ContinuationIsCertified` | src/bagelquant_data/items/api.py:1671-1805 | an admitted publication yields a completion all of whose days were published by its chain and neither written nor checked since |
| `SparsePublication.ReplacementConfined` | src/bagelquant_data/items/api.py:1410-1435 | replacing a range writes new rows and tombstones only inside it, and its check names only it |
| `SparsePublication.Ledger.Ingest` | src/bagelquant_data/items/api.py:1194-1366 | row-only commits and checks by anyone leave every recorded completion's meaning intact |
| `SparsePublication.Ledger.BuildWhole` | src/bagelquant_data/items/api.py:2231-2347 | a native whole-range build is a valid root; one that published nothing has no result commit |
| `SparsePublication.Ledger.Replace` | src/bagelquant_data/items/api.py:1751-1757 | the loop writes exactly the days of the ranges that changed there and have a row now or before, and checks each range once, in order; nothing if there are none |
| `SparsePublication.Ledger.Candidate` | src/bagelquant_data/items/api.py:1773-1797 | finds the newest completion that already certifies the same empty continuation, none only if there is none |
| `SparsePublication.Ledger.Admit` | src/bagelquant_data/items/api.py:1671-1748 | refuses exactly when one of the admission conditions fails, the definition and the later checks among them, and then for the first that fails |
| `SparsePublication.Ledger.Fence` | src/bagelquant_data/items/api.py:1758-1772 | passes exactly when nobody committed or checked output, no input changed and the definition stands |
| `SparsePublication.Ledger.PublishSparse` | src/bagelquant_data/items/api.py:1659-1808 | succeeds exactly when the request may be published and nothing intervenes, and is otherwise refused with the first objection, stated per day; writes exactly the changed days of the ranges, records exactly coverage, cutoff, receipt, definition, store position and carried dates or repeats an equal completion, and keeps the chain invariant: each day of each completion is vouched for by a build of its chain and definition |
| `CompletedRange.Covers` | src/bagelquant_data/inputs.py:709-719 | the sweep decides coverage of a nonempty interval at a content and check boundary exactly |
| `CompletedRange.LeavesGap` | src/bagelquant_data/inputs.py:695-700 | a build is rejected exactly when it left a matured output outside the spans of newer certificates |
| `CompletedRange.Collect` | src/bagelquant_data/inputs.py:675-705 | the newest-first walk collects all certificates, or stops exactly on such a gap or on a damaged source binding |
| `CompletedRange.BatchIsCovered` | src/bagelquant_data/inputs.py:726-734 | a batch passes exactly when every in-range day it touches has a certificate including it |
| `CompletedRange.CheckIsCovered` | src/bagelquant_data/inputs.py:735-774 | a check passes exactly when its days, or the whole range if it names none, have certificates at its boundaries |
| `CompletedRange.ProveRange` | src/bagelquant_data/inputs.py:649-775 | true exactly when the range is complete day by day, stated per day, batch and check from the builds and boundaries alone; it stops early only on a damaged source binding |
| `CompletedRange.CompleteExactly` | src/bagelquant_data/inputs.py:649-775 | what the sweeps decide is that no usable build left a matured output outside the spans of newer ones, and that each in-range day a batch touches, and each a check names, is spanned by a build at or after that content and check boundary |
| `CompletedRange.NewestCertificateIsClear` | src/bagelquant_data/inputs.py:695-703 | on a day of a proven range the newest certificate spanning it left nothing matured unpublished |
| `InputMatching.CoveredDays` | src/bagelquant_data/items/api.py:83-99 | an unnarrowed covering capture holds every day of a bounded declaration |
| `InputMatching.NarrowedDays` | src/bagelquant_data/items/api.py:91-94 | a narrowed capture reads nothing outside the declaration |
| `InputMatching.CoversExactly` | src/bagelquant_data/items/api.py:66-100 | a capture covers a declaration exactly if it names the same dataset or item, with enough fields and history, equal strictness, the declared view or all versions, and a nonempty interval that holds every declared bound, or under narrowing lies inside the declared days |
| `InputMatching.Matcher.Match` | src/bagelquant_data/items/api.py:106-114 | success serves one more input and nothing visited before changes; failure changes nothing and leaves a closed visited set; the recursion ends |
| `InputMatching.HallViolation` | src/bagelquant_data/items/api.py:106-114 | a failed search exhibits more inputs than they have captures, so no assignment exists |
| `InputMatching.Matcher.Validate` | src/bagelquant_data/items/api.py:102-117 | accepts exactly when the declared inputs can be given captures of their own that can stand for them |
| `Registration.Registry.Search` | src/bagelquant_data/items/api.py:1949-1956 | the search with one shared visited set finds only real paths, closes what it visits and ends |
| `Registration.Registry.CheckReaches` | src/bagelquant_data/items/api.py:1949-1956 | true exactly when a dependency path exists |
| `Registration.ReplaceKeepsAcyclic` | src/bagelquant_data/items/api.py:516-533 | replacing all edges of an item after checking them in the old graph creates no cycle |
| `Registration.Registry.Register` | src/bagelquant_data/items/api.py:516-533 | registers exactly when no declared item reaches this one and all dependencies exist; the graph stays acyclic and an error changes nothing |
| `PublicationGroups.SplitChunk` | src/bagelquant_data/items/api.py:150-158 | the stack loop ends; its parts concatenate to the chunk, each fits the byte target or is one row, and each but the whole chunk is a half of rows that did not fit |
| `PublicationGroups.OrderedGroupsAreChronological` | src/bagelquant_data/items/api.py:150-158 | group dates never decrease |
| `PublicationGroups.Groups` | src/bagelquant_data/items/api.py:144-158 | the groups hold the rows ordered by version date, time and asset, each once, in slices of the row target divided only where they exceed the byte target, and are dated in order by their latest row |
| `PreparedCache.PreparedWindow.Get` | src/bagelquant_data/items/preparation.py:27-34 | a hit is the last frame admitted for its key and makes it the key used last; a miss changes only its counter |
| `PreparedCache.PreparedWindow.MakeRoom` | src/bagelquant_data/items/preparation.py:43-45 | evicts from the entry used longest ago and stops as soon as the new entry fits |
| `PreparedCache.PreparedWindow.Put` | src/bagelquant_data/items/preparation.py:36-48 | an oversized frame changes nothing; otherwise the frame is the newest, the entries kept are the most recently used that fit, and retained bytes are the sum of charges within the limit |
| `PreparedCache.EvictionIsLeast` | src/bagelquant_data/items/preparation.py:43-45 | no longer run of the entries used last would have fitted |
| `ForwardFill.AsOfIsLatest` | src/bagelquant_data/transforms.py:259-270 | after mapping, sorting and keeping one event per date, the as-of join finds the asset's latest effective observation, or none exactly if none is effective |
| `ForwardFill.KeepLastKeepsAsOf` | src/bagelquant_data/transforms.py:266-270 | keeping only the last event of a date changes no as-of result |
| `ForwardFill.AfterIsExpected` | src/bagelquant_data/transforms.py:259-273 | walking session by session holds the as-of event with its age equal to the index distance |
| `ForwardFill.FillIsSimulation` | src/bagelquant_data/transforms.py:253-280 | the as-of join with an index limit shows at every session what the walk shows: reset on arrival, expiry after n sessions |
| `ForwardFill.NeverLooksAhead` | src/bagelquant_data/transforms.py:251-280 | a shown cell depends only on observations effective by its session |
| `ForwardFill.CellExactly` | src/bagelquant_data/transforms.py:251-280 | a cell shows an observation exactly if both its dates have come by the session, none known then became known later or on that day with a later date, and n sessions earlier it was not known |
| `ForwardFill.ShownExactly` | src/bagelquant_data/transforms.py:251-280 | a value is shown exactly if such an observation reports it: a newer null hides it and an expired one shows nothing |
| `ForwardFill.PanelRowIsSimulation` | src/bagelquant_data/items/availability.py:257-301 | the provider panel is refused exactly for dates off the calendar and otherwise shows what the walk shows, for any observation and availability dates |
| `ForwardFill.PanelRowExactly` | src/bagelquant_data/items/availability.py:257-301 | on the calendar a row shows, under its availability date, exactly the last event available by the session that was not available n sessions earlier |
| `Catalog.CheckName` | src/bagelquant_data/management/catalog.py:150-153 | the stripping test accepts exactly nonempty names without outer white space |
| `Catalog.ChainsDescend` | src/bagelquant_data/management/catalog.py:77-87 | a chain of parents never repeats a category, so it is finite |
| `Catalog.UnderIsChain` | src/bagelquant_data/management/catalog.py:77-87 | lying under a category is having a chain of parents to it |
| `Catalog.MoveKeepsRanked` | src/bagelquant_data/management/catalog.py:77-90 | moving a subtree under a parent outside it keeps the forest |
| `Catalog.CategoryTree.Create` | src/bagelquant_data/management/catalog.py:39-56 | creates exactly when name, parent and siblings allow it, adding only that category; a bad name and an unknown parent are refused as such |
| `Catalog.CategoryTree.CheckParents` | src/bagelquant_data/management/catalog.py:77-87 | the walk ends and reports a cycle exactly when a chain of parents leads from the parent to the category |
| `Catalog.CategoryTree.Update` | src/bagelquant_data/management/catalog.py:64-91 | the given name and parent replace the old ones and what is not given stays, unless an unknown category, a bad name, an unknown parent, a parent that descends from the category or an equal sibling refuses it, in this order; nothing else changes and forest, trees, sibling names and assignments stay sound |
| `Catalog.CategoryTree.Remove` | src/bagelquant_data/management/catalog.py:93-108 | removes exactly an empty category of the tree |
| `Catalog.CategoryTree.Assign` | src/bagelquant_data/management/catalog.py:110-138 | assigns exactly active objects to categories of their own tree, or clears the assignment |

## Findings

- A producer may date a row available after both its time and the boundary that computed it. The row's version is then
  postponed (items/pit.py:207-210), but the tombstone of a withdrawal at the next boundary is not
  (items/pit.py:223-229), so a replay can show a withdrawn row; null rows are affected alike. If future rows are on
  time, the replay is right if and only if all rows are (`PitVersions.ReplayExactlyWhenOnTime`);
  `PitVersions.DelayedWithdrawalResurfaces` is an input whose wrong days include one that is not the last of the range,
  the only day a build repairs (items/api.py:2291-2330).
- A row announced for a time still to come and postponed beyond it can surface after a revision, although every current
  row is on time (`PitVersions.AnnouncedRowSurfaces`). `PitVersions.ReplayExactly` is the exact condition with such
  rows allowed: on the day it falls due the key changes anyway, has the announced row, or is absent while that row is
  null.
- A unit that published nothing is stored without a result commit, and the test for reusable units then counts every
  commit of the item as later than it (items/initialization.py:75-80). If an earlier commit's bounds meet its window,
  as after a wide build that was cancelled or split, the unit is never usable, and the closing check raises on this run
  and on every later one (`Initialization.SilentDayIsLost`, `Initialization.ExposedNeverCertified`). The check fails
  exactly if a finished build publishes nothing over such a window or reports unchanged (`Shelves.AfterUsable`,
  `Initialization.InitializeMany`), hence not if no uncompleted day starts under stored output, unfinished builds
  publish nothing and no build reports unchanged (`Initialization.ShelteredRun`).
- The end of a finite-history change is a calendar day (items/incremental.py:593-597). Output on days off the calendar
  between that day and the next calendar day is not rebuilt although it reads the change: `History.AffectedEndExactly`
  and `IncrementalRebuild.IncrementalExactly` give the exact condition, `IncrementalRebuild.UnservedDayDiffers` a plan
  that keeps a wrong day.
- An empty calendar with a history of zero observations makes the planner index an empty list
  (items/incremental.py:593-597). The model calls this outcome `Raised`; `Incremental.CompletedActions` says exactly
  when it happens, `Incremental.RaisedOnlyWithoutCalendar` that nothing else raises, and
  `Incremental.EmptyCalendarRaises` gives a query.

## Left out

- ReplayExactlyWhenOnTime: postponed rows dated after their evaluation's cutoff are outside this form of the condition and covered by `PitVersions.ReplayExactly`.
- CollectOwn: the output dates recorded beside the bounds of a later batch are not modelled; the model takes its bounds.
- CollectInputs: the skip of segments whose changed fields are not consumed, general-input proofs and the windows of timing attestations are not modelled.
- CompletedActions: general-input proofs, attest plans, the shortcut for current receipts and definition changes are not modelled; the model plans windows from segment bounds, pending outputs and later own commits.
- IncrementalEqualsFull: days off the calendar that a finite-history plan does not serve are excluded unless the producer is silent on them; `IncrementalRebuild.IncrementalExactly` covers every day.
- PruningPreservesSelection: column projection, the final row order and general inputs are not modelled.
- Ranges: the refusals for a changed schema, for date columns of other types and for evidence of exact floating-point values are not modelled.
- Transition: what follows a decided transition (monthly attestation units and their receipts) is not modelled.
- Match: receipts that are absent altogether are refused before matching and are not modelled.
- ProveRange: memory limits, digests of stored proofs and cancellation are not modelled; a parent that differs from its record is the outcome `BindingDiffers`.
- Admit: the ownership checks of a grouped no-op transaction and the check that a publication names a receipt and complete dates are not modelled.
- PublishSparse: leases of grouped no-op publications and cancellation are not modelled; commits and checks are numbered by their position in the item's own history.
- InitializeMany: items already complete are not among the names of the model, the capture of one receipt for all items, the update of item dependencies first and the writers' leases are not modelled; a build ends as built, unchanged, out of memory or cancelled by an arbitrary oracle, and what it published is arbitrary.
- Finish: items certified before a cancellation between two closing checks keep their certificates in the source, while the model reports the run as stopped.
- Partition: the calendar of months is a function with the property that it is constant within a month.
- PanelRow: one asset's row; rows of other assets and the daily alignment are not modelled.
- PublishRevisions: row order inside a frame, the worker pool and byte limits are not modelled.
- Pending coordinates carried by incremental updates and re-certification without new output (items/api.py 1100-1180).
- Immutable storage, SQL transactions, leases, hashing, schema tables, bitmap masking, Arrow and Polars details: tables are values changed as a whole, and hashes are equality.
- Metadata-only baseline proofs, item selection through creators, receipts' JSON, descriptors, verification and backup.
- Thread pools, progress reports and cancellation callbacks, except as outcomes of a build or of a step.
- Left-join alignment without a fill limit, exact daily alignment and derived panels: a single join each.
- Listing categories and their members, and declaration batches.
