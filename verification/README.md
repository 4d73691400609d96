# Volunteer screening: a model and its proofs

The system keeps, for one church, a list of screening requirements per volunteer. A requirement row has a status and
four dates; a dozen services, a nightly sweep and a review queue all write the same rows. This project models that
engine and proves what holds over whole runs of it.

* `calendar.dfy`, `age_rules.dfy`: civil dates, the month shift with day clamping, day numbers, the age rule. The
  engine stores dates as day numbers, and `ShiftMonths` is the month shift carried over to them.
* `definitions.dfy`, `requirement_rows.dfy`, `requirement_instances.dfy`: what is required, one row, and the row as an
  object that the services load, change and save.
* `reconciliation.dfy`, `settlement.dfy`: the reconcile loop over the definitions, its convergence, its fixed points and
  the gates between requirements.
* `volunteer_files.dfy`, `screening_services.dfy`, `gate_response.dfy`, `check_history.dfy`, `nightly_sweep.dfy`,
  `completion_history.dfy`, `send_backs.dfy`, `sweep_settlement.dfy`, `map_changes.dfy`: one volunteer's file and every
  service on it, as functions on values and as methods that are proved to compute them.
* `recorded_progress.dfy`, `serving_roles.dfy`, `disqualification.dfy`: what a service leaves behind, read off rows,
  assignments, checks and dates.
* `review_ledger.dfy`, `church.dfy`, `church_entries.dfy`, `church_steps.dfy`, `church_desk.dfy`, `review_index.dfy`: the
  review queue with its audit trail, and the church as a state machine whose steps are the services and a clock that
  never goes back.
* `reminders.dfy`, `reminder_runs.dfy`: the reminder search, the claim log, and both over nightly sweeps of the church.
* `dependency_graph.dfy`, `department_summary.dfy`, `access_grants.dfy`: the `must_follow` graph, the dashboard roll-up,
  and the grant rule.

A file of the church is a value of type `Volunteer`; each service is a function from values to values (`MarkedComplete`,
`RecordedCrc`, ...), and the method of the class of the same concern is proved to compute it. The theorems about runs are
stated on the functions. Each database table is a map or a sequence, each query a filter, and each service call one
atomic step: a raised error leaves the state as it was.

## Findings

* The sync's docstring calls one pass idempotent (apps/requirements/services.py:75-77). It is not: `OneSyncCanFallShort`
  gives an input, and `OneSyncIsEnoughExactly` says for which inputs one pass is enough. Two passes always settle every
  column of every row (`SyncConverges`), for any definition order and any gate graph.
* The definition order never decides which requirements end up held (`HeldInAnyOrder`), but it can decide whether work
  already under way is kept or restarted (`OrderCanShow`). `OrdersAgreeExactly` says, on the rows before the sync, when
  two orders end with the same rows.
* A gate can lag for one sync behind an age exemption of its prerequisite (`GateCanLagBehindAge`).
  `OneSyncSettlesExactly` says when, and `ReversalAnswersGates`, `CheckAnswersGates` and `SendBackAnswersGates` say it
  for the services (`SendBackCanLeaveGate` is an input): a prerequisite left unmet has to be owed, or inactive, or come
  before its dependents in the order.
* A sweep does not put every gate right within a day (apps/requirements/services.py:501-503): `GateCanLagANight` gives
  an input and `NightAnswersGateExactly` the condition. Two sweeps settle every file (`TwoNightsSettle`).
* Sending a document back is no round trip: its snapshot holds no dates. `DocumentCanLoseDeadline` gives an input and
  `DocumentSendBackLosesDates` says when nothing is lost.
* Not every kind of send-back checks whether the row has moved on (apps/review/services.py:16-22). Completions, waivers
  and checks do, each in its own way; a document's send-back never leaves a row alone that bears anything
  (`DocumentSparesExactly`), so that it takes away a later waiver (`WaiverLostToDocument`) and the completion by a
  newer document (`NewerCompletionLost`).
* Retracting a check does not put back a block that the check lifted or replaced, and not the blocked status of the
  row (`RetractionForgetsNotClear`); `RetractionUndoesRecording` says when both are as before.
* A waiver leaves its date on a row whose document is sent back while it is waived, and the reversal of a second waiver
  does not restore that row: `WaiverDateCanBeLost` is the run, and `WaiverSendBackCommutes` is exact.
* The form and the model disagree about one kind of dependency, a chain of as many definitions as the hop limit that
  never meets the edited one: `FormCanOfferTooMuch` gives one and `FormAndModelAgree` says that there are no others.

## Model

The theorems come first. The rows marked *refinement* say that a method, written as the program is, computes the
function that the theorems are about.

| member | source | states |
|---|---|---|
| Calendar.AddMonthsMonotone | apps/requirements/models.py:148-160 | an earlier start date never gives a later shifted date |
| Calendar.AddMonthsStrict | apps/requirements/models.py:148-160 | more months, negative ones included, is a strictly later date |
| Calendar.AddMonthsInTwoSteps | apps/requirements/models.py:148-160 | two shifts never land later than one, and land on the same day exactly when the intermediate month did not clamp further |
| Calendar.AddMonthsUndone | apps/requirements/models.py:148-160 | every shift can be undone exactly when the day is at most 28 |
| Calendar.AddMonthsComposes | apps/requirements/models.py:148-160 | all shifts compose exactly when the day is at most 28 |
| Calendar.ShiftMonthsMonotone | apps/requirements/models.py:148-160 | on day numbers: a later start or more months is never earlier, more months strictly later |
| Calendar.AddMonthsLands | apps/requirements/models.py:148-160 | the shift keeps the day of the month, or stops at the end of a month that has no such day |
| Calendar.MonthStarts | apps/requirements/models.py:148-160 | where each month of a year begins, leap years by the Gregorian rule |
| Calendar.DayNumbersAreGregorian | apps/requirements/models.py:148-160 | day numbers are those of the program's own dates |
| AgeRules.AgeRulesAgree | apps/org/models.py:430-489 | being 18 or over, having reached the trigger date and not being counted among the minors are one condition |
| AgeRules.AdulthoodIsNeverLate | apps/org/models.py:446-469 | nobody of exact age 18 is treated as a minor, and anybody treated as adult too early is in the month of the 18th birthday |
| AgeRules.AdultFromTriggerDay | apps/org/models.py:459-489 | adulthood starts on the trigger day and never ends |
| RecordedProgress.Turning18GivesThreeMonths | apps/org/models.py:472-489 | the deadline on turning 18 is three months after the day that adulthood starts |
| RecordedProgress.LateFromTheDayAfter | apps/requirements/models.py:719-747 | a completion holds through the day that it expires and a deadline through its own day; both are late from the next |
| RecordedProgress.CompletionIsRecorded | apps/requirements/services.py:342-392 | refused exactly on a missing or blocked row or a date ahead; otherwise complete on that day, for 12 or 36 months, its own number or for good by cadence, deadline gone, and nothing else moved but what waits on it |
| RecordedProgress.WaiverIsRecorded | apps/requirements/services.py:419-481 | refused exactly without a row or a reason or for a criminal record check; otherwise waived as of today with no deadline, completions kept |
| RecordedProgress.StartIsRecorded | apps/requirements/services.py:396-415 | a row not started is under way from today, an overdue one stays overdue, any other is left alone |
| RecordedProgress.ReversalIsRecorded | apps/requirements/services.py:526-599 | refused exactly without a waiver or a reason; otherwise the row reads what its own dates say on the day |
| ServingRoles.NobodyAsks | apps/org/models.py:528-530 | what no active assignment asks for is not owed after a sync: no row appears, an outstanding one is held for that reason, any other stays |
| ServingRoles.AskedTooYoung | apps/requirements/services.py:107-122 | what is asked of somebody too young is on the list and held for that reason |
| ServingRoles.AskedAndOwed | apps/requirements/services.py:93-137 | what is asked of anybody else and waits for nothing is on the list and not held |
| ServingRoles.HeldBehindGate | apps/requirements/services.py:124-127 | a row held behind a gate names the prerequisite, which is neither completed nor waived |
| ServingRoles.TakingUpARole | apps/org/models.py:585-612 | refused exactly for a disqualified volunteer or a role already held; otherwise the next sync puts what the role asks for on the list |
| ServingRoles.GivingUpARole | apps/org/models.py:614-617 | after the last role that asks for it is given up, nothing of a requirement is owed |
| RequirementRows.RecomputeKeepsCoherent | apps/requirements/models.py:719-747 | recompute keeps the row's status and dates in agreement and never turns an overdue row back |
| RequirementRows.OnlyTheLastNightMatters | apps/requirements/models.py:719-747 | on a coherent row recomputing on any non-decreasing nights equals recomputing on the last one |
| RequirementRows.RecomputeOrderMattersOffCourse | apps/requirements/models.py:719-747 | off the coherent rows a missed night can change the result |
| RequirementRows.SendBackCommutesWithTime | apps/review/services.py:188-249 | on one row: completing, any nights, then sending back equals recomputing the untouched row, notes aside, exactly when its status matched its dates |
| RequirementRows.WaiverSendBackCommutes | apps/review/services.py:368-407 | waiving and sending the waiver back equals recomputing the unwaived row exactly when its status matched its dates and it kept no date of an earlier waiver |
| RequirementRows.WaiverDateCanBeLost | apps/review/services.py:252-278 | a run: a document completes a row, the row is waived, the document is sent back; the row keeps the waiver's date, and the reversal of a second waiver loses it |
| RequirementRows.PlainReversalLosesDeadline | apps/requirements/services.py:526-599 | without a snapshot the reversal is a round trip exactly when, besides, there was no deadline |
| RequirementRows.DocumentSendBackLosesDates | apps/review/services.py:252-278 | sending a document back restores the overwritten row exactly when that row had no dates to lose |
| RequirementRows.DocumentCanLoseDeadline | apps/review/services.py:252-278 | an input: a requirement with a deadline, completed by a document that is sent back, comes back without it |
| Reconciliation.SyncMakesSteady | apps/requirements/services.py:65-137 | after one sync every applicable row exists, every ungated row is final and no row waits behind a completed prerequisite |
| Reconciliation.SteadySyncIsSimultaneous | apps/requirements/services.py:65-137 | from then on a sync is one simultaneous step: no turn changes what a gate or a deadline answers to another |
| Reconciliation.SyncConverges | apps/requirements/services.py:65-267 | a third sync changes nothing, for any rows, definition order and gate graph |
| Settlement.TwoSyncsSettle | apps/requirements/services.py:65-267 | after two syncs a requirement is owed exactly when a role asks for it, age does not excuse it and its gate is open |
| Settlement.FixedPointIsSettled | apps/requirements/services.py:65-267 | where a sync changes nothing no single turn would, and the list is settled |
| Settlement.OneSyncSettlesExactly | apps/requirements/services.py:204-246 | one sync settles a requirement if and only if its gate answers the same at its own turn and after the sync, or its row is complete or waived |
| Settlement.SyncKeepsHistory | apps/requirements/services.py:65-137 | a sync deletes no row, changes no completion date and leaves completed and waived rows alone |
| Settlement.HeldAtRestIsExact | apps/requirements/models.py:467-524 | which rows end up held, read off the rows before the sync |
| Settlement.HeldInAnyOrder | apps/requirements/services.py:93-137 | two definition orders end with the same rows held |
| Settlement.OrdersAgreeExactly | apps/requirements/services.py:93-137 | two definition orders settle in equal rows if and only if, for each gated requirement that is owed, its gate answers alike at its turn in both or its row would show no trace of having been held |
| Settlement.OneSyncIsEnoughExactly | apps/requirements/services.py:65-137 | a second sync changes nothing if and only if each definition's gate answers the same before and after and no created or age-released row has an earlier deadline coming |
| Settlement.OneSyncCanFallShort | apps/requirements/services.py:111-130 | one sync is not always enough |
| Settlement.OrderCanShow | apps/requirements/services.py:93-137 | an input on which the order shows in the rows: a requirement under way is kept or restarted |
| Settlement.GateCanLagBehindAge | apps/requirements/services.py:93-137 | an input on which one sync leaves a dependent held behind a prerequisite that age has excused |
| Settlement.ReleasedBehindCompletion | apps/requirements/services.py:151-180 | a dependent that a sync switches on behind a completed prerequisite is due its offset after the completion |
| Settlement.RedatedBehindCompletion | apps/requirements/services.py:249-267 | an open row behind a completed prerequisite takes the derived deadline unless its own is earlier |
| GateResponse.RefreshAnswersGatesExactly | apps/requirements/services.py:484-508 | writing any row and refreshing what waits on it leaves every dependent following its gate if and only if each gate is seen in time |
| GateResponse.WriteAnswersGates | apps/requirements/services.py:484-508 | for the rows that services write: if and only if the row is done, or the prerequisite is inactive or owed, or each unfinished dependent comes after it in the order |
| VolunteerFiles.CurrentCheck | apps/requirements/services.py:657-662 | the un-superseded check with the latest report date, if any is un-superseded |
| VolunteerFiles.SyncKeepsSound | apps/requirements/services.py:65-137 | a sync keeps every row coherent |
| VolunteerFiles.RecordingKeepsSound | apps/requirements/services.py:607-736 | recording a check keeps the file sound and only adds to its checks |
| VolunteerFiles.ConvictingKeepsSound | apps/requirements/services.py:759-895 | convictions keep the file sound: disqualified exactly when an automatic one is on file, and then serving nowhere |
| VolunteerFiles.DecidingKeepsSound | apps/requirements/services.py:899-988 | a leadership decision keeps the file sound |
| VolunteerFiles.ResolvingKeepsSound | apps/requirements/services.py:992-1035 | resolving a Not Clear result keeps the file sound |
| VolunteerFiles.RetractingKeepsSound | apps/review/services.py:281-365 | retracting a check keeps the file sound and removes no conviction |
| Disqualification.ConvictionsAreFiled | apps/requirements/services.py:760-812 | refused exactly off a Not Clear check or without a category; otherwise each is on the check as it was entered, after the earlier ones |
| Disqualification.AutomaticConvictionBlocks | apps/requirements/services.py:848-872 | one automatic conviction ends every assignment and blocks every outstanding row with its dates kept; without one nothing moves |
| Disqualification.DisqualifiedFileRefuses | apps/requirements/services.py:760-1035 | then no check, decision, withdrawal or assignment is accepted, and nothing that was outstanding can be completed |
| Disqualification.DecisionSettlesFile | apps/requirements/services.py:899-988 | when a decision is accepted; declining withdraws and ends every assignment, approving lifts a Not Clear block and ends none |
| Disqualification.OutcomeSettlesFile | apps/requirements/services.py:992-1035 | when an outcome is accepted; only a withdrawal blocks and ends assignments |
| GateResponse.CompletionAnswersGates | apps/requirements/services.py:342-392 | when completing returns, every dependent follows its gate, always |
| GateResponse.WaiverAnswersGates | apps/requirements/services.py:419-481 | when waiving returns, every dependent follows its gate, always |
| GateResponse.ReversalAnswersGates | apps/requirements/services.py:527-599 | when un-waiving returns, every dependent follows its gate if and only if the row had been completed, or the prerequisite is inactive or owed, or its dependents come later |
| GateResponse.CheckAnswersGates | apps/requirements/services.py:607-736 | when recording a check returns, every dependent of its row follows its gate if and only if the result is cleared, or the requirement is owed, or its dependents come later |
| GateResponse.SendBackAnswersGates | apps/review/services.py:188-227 | when a restore returns, every dependent follows its gate if and only if the snapshot holds a completion, or the prerequisite is inactive or owed, or its dependents come later |
| GateResponse.OwedAnswersGates | apps/requirements/services.py:484-508 | behind a prerequisite that is owed all three always answer |
| GateResponse.SendBackCanLeaveGate | apps/review/services.py:230-249 | an input on which a completion's send-back returns with a gate unanswered |
| GateResponse.ReleasedByCompletion | apps/requirements/services.py:151-180 | a dependent released by a completion is due completion plus offset |
| GateResponse.RedatedByCompletion | apps/requirements/services.py:249-267 | one that is open already takes the deadline that the completion gives unless its own is earlier, and nothing else of it changes |
| CheckHistory.RecordingKeepsChain | apps/requirements/services.py:656-668 | each check is superseded by the next one recorded |
| CheckHistory.OneCurrentCheck | apps/requirements/services.py:607-736 | over any run of recorded checks exactly the last is current and every pointer goes to a later record |
| CheckHistory.CheckSettlesBlock | apps/requirements/services.py:607-736 | refused exactly with a report ahead or on a disqualified file; a Not Clear result blocks, a clearance lifts that block and no other, and the check is filed last with its outcome open if it is Not Clear |
| CheckHistory.BlockFollowsLastCheck | apps/requirements/services.py:690-706 | over any run of recordings the volunteer is blocked exactly while the last check is Not Clear |
| CheckHistory.CheckSettlesRow | apps/requirements/services.py:670-706 | a clearance counts for 36 months from its report; a Not Clear result takes the completion away and blocks the row |
| CheckHistory.FirstCheckOnList | apps/requirements/services.py:739-757 | a check is recorded on the first check requirement on the list that the volunteer has |
| CheckHistory.OnlyLastIsRetracted | apps/review/services.py:326-336 | over any run of recordings only the last check can be taken back |
| CheckHistory.RetractionUndoesRecording | apps/review/services.py:281-365 | retracting restores the displaced check, the row exactly when its status matched its dates, and the block exactly when the check had not lifted or replaced one |
| CheckHistory.RetractionForgetsNotClear | apps/review/services.py:281-365 | on every file: record Not Clear, record a clearance, retract the clearance; the Not Clear check is current again, its block is gone and its row is not blocked |
| CheckHistory.RetractionCanLoseBlock | apps/review/services.py:347-354 | an instance of it: a new volunteer whose list holds the check alone |
| CheckHistory.NightKeepsCheck | apps/core/tasks.py:53-76 | a night leaves a recorded check as it was recorded, but for the status of its row |
| CheckHistory.NightsKeepCheck | apps/core/tasks.py:53-76 | so do any nights on which the requirement is owed |
| CheckHistory.RetractionAfterNights | apps/review/services.py:281-365 | the round trip with any nights between the recording and its retraction |
| NightlySweep.AgeScanAddsNothing | apps/requirements/services.py:1064-1105 | where a sync has nothing to do the scan for volunteers who turned 18 has nothing to do |
| NightlySweep.AgeScanAfterTwoSyncs | apps/requirements/services.py:1064-1105 | in particular after two syncs |
| NightlySweep.DeadlineIndependentOfNight | apps/core/tasks.py:53-76 | a held ungated check, with a lapsed completion or none, is due three months after the trigger date whichever nights were swept, and its row depends on the last night only |
| SweepSettlement.OneNightSettles | apps/core/tasks.py:53-76 | after one sweep every row due exists, ungated ones are final, none waits behind a completed prerequisite and none reads complete past its expiry |
| SweepSettlement.TwoNightsSettle | apps/core/tasks.py:53-76 | on every sound file a third sweep of a day changes nothing, sync, age scan and recompute together |
| SweepSettlement.HeldAfterNight | apps/core/tasks.py:53-76 | which gated rows one sweep leaves held, read off the file before it |
| SweepSettlement.NightAnswersGateExactly | apps/requirements/services.py:501-503 | a gate is right after one sweep if and only if it answered at its turn as it does afterwards, or it has opened on a requirement for adults |
| SweepSettlement.GateCanLagANight | apps/requirements/services.py:501-503 | an input on which a gate is wrong after one sweep and a second one changes the file |
| CompletionHistory.NightOnCompleted | apps/core/tasks.py:53-76 | a sweep leaves a complete row as the recompute alone would, whatever applies |
| CompletionHistory.NightOnSpared | apps/core/tasks.py:53-76 | so it does with any row that is not held and that no sync has business with |
| CompletionHistory.NightsKeepOrLapse | apps/core/tasks.py:53-76 | after any nights a completed row is as it was, or its expiry is past and it does not read complete |
| CompletionHistory.SendBackAfterNights | apps/review/services.py:188-249 | on the services: completing, any nights, then sending back while it stands leaves the file of the untouched row recomputed and its dependents refreshed, if its status matched its dates; where the refresh spares the row, if and only if |
| SendBacks.CompletionSparesExactly | apps/review/services.py:230-249 | a completion's send-back leaves the row alone if and only if it does not read complete, or the snapshot restores nothing |
| SendBacks.WaiverSparesExactly | apps/review/services.py:368-407 | a waiver's does if and only if the row does not read waived |
| SendBacks.CheckSparesExactly | apps/review/services.py:281-365 | a check's does if and only if the check was superseded, convicted or decided on, or the snapshot restores nothing |
| SendBacks.DocumentSparesExactly | apps/review/services.py:252-278 | a document's does if and only if the row bears no completion, expiry or deadline, and its status says no more than whether it was started |
| SendBacks.DocumentForgetsWhatCameLater | apps/review/services.py:252-278 | whatever became of the row, a document's send-back leaves it without completion, waiver or block |
| SendBacks.WaiverLostToDocument | apps/review/services.py:16-22 | a run: a waiver granted after the document is lost |
| SendBacks.NewerCompletionLost | apps/review/services.py:16-22 | a run: the completion by a newer document is lost when the one that it replaced is sent back |
| ChurchEntries.StepsAreLocal | apps/requirements/services.py:342-1105 | a step on one volunteer's file moves nobody else's, nor the definitions or the clock, and files nothing without need of review |
| ChurchEntries.SendBackIsLocal | apps/review/services.py:136-172 | a send-back closes its item with the day, moves one file at most, and does nothing without a reason or on a closed item |
| ChurchEntries.AffirmingLetsStand | apps/review/services.py:107-128 | affirming closes the item with the day and changes nothing else |
| ChurchEntries.RunsKeepItOpen | apps/review/services.py:136-172 | every run that leaves an item open leads to a state that the four theorems below speak of |
| ChurchEntries.RunKeepsDocuments | apps/documents/services.py:231-266 | no run loses a document |
| ChurchEntries.CompletionIsFiled | apps/requirements/services.py:366-391 | a completion files an open item on its row with the row as it was before |
| ChurchEntries.CompletionComesBack | apps/review/services.py:230-249 | sent back in any later state in which it stands, a completion leaves the row recomputed as if it had never been completed, notes aside, if and only if its status had matched its dates |
| ChurchEntries.CompletionComesBackAtOnce | apps/review/services.py:230-249 | in particular at once, where nothing waits on the requirement |
| ChurchEntries.WaiverIsFiled | apps/requirements/services.py:467-478 | a waiver files an open item on its row with the row as it was before |
| ChurchEntries.WaiverComesBack | apps/review/services.py:368-407 | so with a waiver, if and only if besides no earlier waiver had left its date |
| ChurchEntries.WaiverComesBackAtOnce | apps/review/services.py:368-407 | in particular at once, where nothing waits on the requirement |
| ChurchEntries.CheckIsFiled | apps/requirements/services.py:722-732 | a check files an open item that remembers the row and the check that was current |
| ChurchEntries.CheckComesBack | apps/review/services.py:281-365 | sent back while only time has passed, a check gives way to the one it displaced, with the exact conditions for row and block |
| ChurchEntries.CheckComesBackAtOnce | apps/review/services.py:281-365 | in particular at once |
| ChurchEntries.DocumentIsStored | apps/documents/services.py:104-160 | a stored document is current and the replaced one is not; it completes its requirement exactly unless that is a check, decided on, or dated ahead |
| ChurchEntries.DocumentIsFiled | apps/documents/services.py:231-266 | one open item covers the document and the requirement that it completed |
| ChurchEntries.DocumentComesBack | apps/review/services.py:252-278 | sent back in any later state, the document is not current and its requirement bears no completion |
| ChurchEntries.DocumentComesBackAtOnce | apps/review/services.py:252-278 | in particular at once |
| ChurchSteps.RoleTakenUp | apps/org/models.py:528-530 | in the church: assign, sync, and what the role asks for is on the list |
| ChurchSteps.RoleGivenUp | apps/org/models.py:614-617 | end the assignment, sync, and nothing of it is owed |
| ChurchSteps.StartedThenRecomputed | apps/requirements/services.py:1043-1061 | start, wait, recompute: under way since the start, or late if the deadline has passed meanwhile |
| ChurchSteps.ClockBringsTheCheck | apps/requirements/services.py:1064-1105 | wait, scan: a check held for age is due three months after adulthood starts, or still held before that day |
| ChurchSteps.WaiverTakenBack | apps/requirements/services.py:526-599 | a waiver reversed by hand leaves what the row's dates say, and a refused reversal leaves the church as it was |
| ChurchSteps.ConvictionsEntered | apps/requirements/services.py:760-845 | convictions are filed for review, and an automatic one bars the volunteer at once |
| ChurchSteps.DecisionEntered | apps/requirements/services.py:899-988 | a decision is filed for review and settles block and assignments at once |
| ChurchSteps.DecisionsStand | apps/review/services.py:310-324 | sending back a decision or a conviction closes the item and undoes nothing |
| ChurchSteps.OutcomeEntered | apps/requirements/services.py:992-1035 | an outcome is on its check, and only a withdrawal ends assignments |
| ChurchSteps.NewcomerOwesNothing | apps/requirements/services.py:93-107 | a newcomer has an empty file and owes nothing after a sync |
| ReviewLedger.OpeningKeepsConsistent | apps/review/recording.py:85-186 | opening an item keeps one open item per entity, the links and the audit counts |
| ReviewLedger.ClosingKeepsConsistent | apps/review/models.py:213-237 | affirming and sending back keep them too |
| ReviewLedger.StepKeepsConsistent | apps/review/models.py:172-184 | every step keeps the queue consistent and leaves closed items as they are |
| ReviewLedger.StatusesPartition | apps/review/models.py:61-65 | items opened are items pending plus the three closed kinds |
| ReviewIndexes.IndexAgreesWithScan | apps/review/recording.py:262-280 | for every input order the index answers with the direct item, otherwise the first that affects the row |
| ReviewIndexes.IndexCountsItems | apps/review/recording.py:276-277 | the index's length is the number of open items |
| ReviewIndexes.QueueIsOnePerEntity | apps/review/models.py:172-184 | the open items of a consistent queue, in any order, are one an entity, as the index needs |
| Church.StepKeepsSound | apps/requirements/services.py:65-1105 | every step of the church keeps every file sound and the queue consistent, and removes no conviction |
| Church.RunKeepsSound | apps/requirements/services.py:65-1105 | every run, definition edits and assignment changes included, keeps every file sound, forgets no conviction and reopens no closed review |
| Church.RowsStayCoherent | apps/requirements/models.py:719-769 | in every run each row's status agrees with its dates and recompute never brings an overdue row back |
| Church.MissedNightsNeverShow | apps/requirements/services.py:1043-1061 | on every reachable row only the last swept night matters |
| Church.DisqualificationIsPermanent | apps/org/models.py:507-524 | in every run disqualified means an automatic conviction is on file, and whatever follows the disqualification stands and no assignment is active |
| Church.ReviewsStayConsistent | apps/review/models.py:172-184 | in every run the queue and the audit trail agree, and closed items stay as they were closed |
| Reminders.OneQueryIsEnough | apps/notifications/services.py:65-95 | the single query finds exactly what one query per lead time would, each entry as often |
| Reminders.Targets | apps/notifications/services.py:70 | each target date leads back to the one lead time that lies so far ahead |
| Reminders.EntriesAreDated | apps/notifications/models.py:58-65 | every entry carries a date, so the uniqueness key is never null |
| Reminders.RerunClaimsNothing | apps/notifications/services.py:309-322 | running a pass again claims nothing |
| Reminders.RunClaimsOnce | apps/notifications/services.py:119-136 | over any nights an entry is claimed once if it was ever found and never before |
| ReminderRuns.RemindersAreExact | apps/notifications/services.py:45-116 | the search over a whole church finds an entry if and only if the volunteer and the definition are active, the row is neither held nor waived, and the day is a lead time before its date or the day after |
| ReminderRuns.RowOnNight | apps/core/tasks.py:53-76 | over any sweeps of the church, other steps in between, a dated row that nobody else writes and that stays owed is what the recompute alone makes of it |
| ReminderRuns.ExactlyOnce | apps/notifications/services.py:45-136 | such a row, completed with an expiry or open with a deadline, is claimed once per lead time whose day was swept, once as overdue, and not otherwise |
| ReminderRuns.EveryLeadExactlyOnce | apps/notifications/services.py:309-335 | with both days swept, one claim for the lead time and one overdue claim; for a completed row whatever becomes of roles and gates, for an open one, such as the check due on turning 18, while it stays owed |
| ReminderRuns.DailySweepsRemindOnce | apps/core/tasks.py:53-82 | so too with one sweep a day |
| DependencyGraph.DependencyCycle | apps/requirements/models.py:331-356 | reports a loop exactly when the chain meets the definition within the hops or is still going after them |
| DependencyGraph.DependentPks | apps/requirements/models.py:447-465 | finds exactly the definitions that reach this one within the hops |
| DependencyGraph.FormAndModelAgree | apps/requirements/models.py:311-317 | the model refuses what the form leaves out, and besides only a chain of as many definitions as there are hops |
| DependencyGraph.FormCanOfferTooMuch | apps/requirements/models.py:311-317 | an input: a line of as many definitions as there are hops, offered by the form for a definition outside it and refused by the model |
| DependencyGraph.AcceptedEditKeepsNoLoop | apps/requirements/models.py:301-329 | an accepted edit closes no loop |
| DependencyGraph.EditsNeverLoop | apps/requirements/models.py:301-329 | no sequence of accepted edits ever closes a loop |
| DepartmentSummary.BucketCounts | apps/reporting/services.py:256-261 | each count is the number of rows in its bucket and the four sum to the number of rows |
| DepartmentSummary.SatisfiedIsEarned | apps/requirements/models.py:669-684 | only a held, a waived or a current completed row shows as satisfied, and a recompute moves no row to another bucket |
| DepartmentSummary.CompletedColumn | apps/requirements/models.py:669-684 | a completed row is satisfied until sixty days before its expiry, then due soon, and late from the day after |
| DepartmentSummary.OpenColumn | apps/requirements/models.py:669-684 | a held or waived row is satisfied, a blocked or overdue one late, an open one late from the day after its deadline |
| DepartmentSummary.GroupByDepartment | apps/reporting/services.py:336-343 | each department gets each of its instances exactly once, whatever the fan-out |
| DepartmentSummary.FannedSelects | apps/reporting/services.py:325-334 | the join holds an instance under a department exactly when its volunteer serves there |
| DepartmentSummary.GroupServed | apps/reporting/services.py:319-343 | the grouping of the join is the per-department distinct selection |
| AccessGrants.CoversIsPreorder | apps/core/models.py:408-423 | covers is reflexive and transitive, and levels that cover each other are as wide |
| AccessGrants.GrantedIffCovered | apps/core/forms.py:190-204 | a grant goes through exactly when it is at most the granting user's own authority |
| AccessGrants.GrantGivesWhatIsAsked | apps/core/forms.py:204-216 | a grant that goes through gives its subject exactly what was asked, and nobody else's changes |
| AccessGrants.NoEscalation | apps/core/forms.py:174-216 | over any run of grants nobody gets more than somebody held at the start |
| Calendar.AddMonths | apps/requirements/models.py:148-160 | *refinement*: computes the month shift on day numbers |
| RequirementInstances.RequirementInstance.Recompute | apps/requirements/models.py:719-747 | *refinement*: brings the status in line with the dates and reports whether it changed |
| RequirementInstances.RequirementInstance.MarkComplete | apps/requirements/models.py:749-769 | *refinement*: completes the row, sets its next expiry and clears its deadline |
| RequirementInstances.RequirementInstance.ReverseWaiver | apps/requirements/services.py:570-580 | *refinement*: returns the row to what its dates say, recomputed |
| RequirementInstances.RequirementInstance.RestoreFromSnapshot | apps/review/services.py:188-226 | *refinement*: puts the snapshot's dates back and lets the rules decide the status |
| RequirementInstances.RequirementInstance.Activate | apps/requirements/services.py:270-319 | *refinement*: switches a held row on with the deadline its rule attaches |
| RequirementInstances.RequirementInstance.RefreshPrerequisiteDeadline | apps/requirements/services.py:249-267 | *refinement*: moves a derived deadline earlier only |
| RequirementInstances.RequirementInstance.Reconcile | apps/requirements/services.py:204-246 | *refinement*: moves a row between applicable and not applicable, and reports whether it changed |
| ScreeningServices.VolunteerFile.SyncVolunteerRequirements | apps/requirements/services.py:65-137 | *refinement*: the loop computes the sync; it counts exactly the rows created, the rows changed that apply, and the rows changed that no longer do |
| ScreeningServices.VolunteerFile.RefreshDependents | apps/requirements/services.py:484-508 | *refinement*: syncs exactly when an active gate stands behind the requirement, and counts the rows that it moved |
| ScreeningServices.VolunteerFile.MarkRequirementComplete | apps/requirements/services.py:342-392 | *refinement*: completes the row and refreshes what waits on it, or refuses a blocked row or a future date |
| ScreeningServices.VolunteerFile.StartRequirement | apps/requirements/services.py:396-415 | *refinement*: marks a requirement as under way |
| ScreeningServices.VolunteerFile.WaiveRequirement | apps/requirements/services.py:419-481 | *refinement*: waives with a reason, never a criminal record check |
| ScreeningServices.VolunteerFile.ReverseWaiver | apps/requirements/services.py:527-599 | *refinement*: undoes a waiver with a reason and refreshes what waits on it |
| ScreeningServices.VolunteerFile.SetScreeningBlock | apps/org/models.py:507-524 | *refinement*: refuses to move off a disqualification and otherwise sets the block |
| ScreeningServices.VolunteerFile.RecordCrc | apps/requirements/services.py:607-736 | *refinement*: files the check, supersedes the current one, moves the row and the block, or refuses |
| ScreeningServices.VolunteerFile.WriteCheckOn | apps/requirements/services.py:670-706 | *refinement*: writes the requirement behind a check, if there is one, and refreshes what waits on it |
| ScreeningServices.VolunteerFile.ApplyPermanentDisqualification | apps/requirements/services.py:848-872 | *refinement*: ends every assignment, sets the permanent block and blocks every outstanding row |
| ScreeningServices.VolunteerFile.RecordConvictions | apps/requirements/services.py:760-845 | *refinement*: adds the convictions and disqualifies if any is automatic, or refuses and adds none |
| ScreeningServices.VolunteerFile.RecordDiscretionaryOverride | apps/requirements/services.py:899-988 | *refinement*: records a decision; a refusal to serve withdraws the volunteer, an approval lifts a Not Clear block |
| ScreeningServices.VolunteerFile.ResolveNotClear | apps/requirements/services.py:992-1035 | *refinement*: records the outcome; a withdrawal ends every assignment and is refused on a disqualified file |
| ScreeningServices.VolunteerFile.RestoreFromSnapshot | apps/review/services.py:188-227 | *refinement*: restores, recomputes and refreshes what waits on the row |
| ScreeningServices.VolunteerFile.SendBackCompletion | apps/review/services.py:230-249 | *refinement*: reverts only a row that still reads complete |
| ScreeningServices.VolunteerFile.SendBackCrc | apps/review/services.py:281-365 | *refinement*: retracts only a current check without convictions or decisions |
| ScreeningServices.VolunteerFile.SendBackWaiver | apps/review/services.py:368-407 | *refinement*: reverts only a row that still reads waived |
| ScreeningServices.VolunteerFile.RecomputeAllStatuses | apps/requirements/services.py:1043-1061 | *refinement*: recomputes every row and counts exactly those that changed |
| ScreeningServices.VolunteerFile.ActivateTurning18Checks | apps/requirements/services.py:1064-1105 | *refinement*: computes the age scan, and lists exactly the rows that it switched on, each once |
| ReviewLedger.ReviewQueue.Close | apps/review/models.py:213-237 | *refinement*: closes an open item, and only an open one |
| ReviewLedger.ReviewQueue.OpenIfUnverified | apps/review/recording.py:85-186 | *refinement*: supersedes the open item on the entity, opens the new one, links them and records both |
| ReviewLedger.ReviewQueue.Affirm | apps/review/services.py:107-128 | *refinement*: affirms an open item and records it |
| ReviewLedger.ReviewQueue.SendBack | apps/review/services.py:136-172 | *refinement*: sends an open item back, with a reason only, and records it |
| ReviewIndexes.ReviewIndex.Lookup | apps/review/recording.py:279-280 | *refinement*: the lookup is the scan |
| ReviewIndexes.ReviewIndex.Length | apps/review/recording.py:276-277 | *refinement*: the length is the number of items indexed |
| ChurchDesk.SweepKeepsSound | apps/core/tasks.py:53-76 | *refinement*: a nightly sweep keeps the church sound |
| ChurchDesk.SweepPassesOverInactive | apps/core/tasks.py:64-71 | a sweep gives every active file its night and passes over the others |
| ChurchDesk.Desk.SweepTenant | apps/core/tasks.py:53-76 | *refinement*: the sweep gives each active file its own night, then claims what the swept rows are owed |
| ChurchDesk.Desk.SweepFiles | apps/core/tasks.py:64-71 | *refinement*: three passes over all files, one after the other, give each active file its own night |
| ChurchDesk.Desk.ClaimReminders | apps/notifications/services.py:309-322 | *refinement*: lists every instance once, and claims what the search finds |
| ChurchDesk.Desk.CompleteBackingRequirement | apps/documents/services.py:104-160 | *refinement*: completes the requirement unless it is a check, waived, not applicable or blocked, or the date lies ahead |
| ChurchDesk.Desk.RecordDocument | apps/documents/services.py:231-266 | *refinement*: one item covers the document and the requirement that it completes |
| ChurchDesk.Desk.SendBackEntry | apps/review/services.py:136-172 | *refinement*: closes the item and undoes what its kind allows, or refuses |
| Reminders.FindDueReminders | apps/notifications/services.py:45-116 | *refinement*: finds the approaching and the newly overdue entries |
| Reminders.FindApproaching | apps/notifications/services.py:65-95 | *refinement*: one search over all lead times finds the approaching entries |
| Reminders.FindNewlyOverdue | apps/notifications/services.py:97-116 | *refinement*: finds the entries whose expiry or deadline was yesterday, renewed ones left out |
| Reminders.ReminderLog.RaiseReminder | apps/notifications/services.py:119-136 | *refinement*: claims an entry unless its key is taken |
| Reminders.ReminderLog.ProcessReminders | apps/notifications/services.py:309-322 | *refinement*: claims the found entries in turn |
| AccessGrants.GrantTable.ApplyGrant | apps/core/forms.py:174-216 | *refinement*: writes the grant or refuses it, and drops the departments of an unlimited level |

## Left out

- Database races: steps are sequential and atomic; the unique constraints appear as invariants.
- The syncs that assignment and volunteer saves schedule on commit (apps/requirements/signals.py): they are separate `Sync` steps that a run may contain at any point.
- Who may record or review (`refuse_self_recording`, `may_review`): a refused call changes nothing, so every theorem about runs holds with those checks in place. `needsReview` is a property of the actor.
- The sweep's summary figures, which are sums of the counts that its passes return.
- Replaying a sweep for a past date (apps/core/tasks.py:85-93): the clock never goes back.
- Years outside 1 to 9999, for which the program's dates raise an error: the calendar is unbounded above, and day numbers start at 1 January of year 1.
- Wording of reasons, labels and summaries; of the deadline's wording only whether it marks turning 18, and of a row's reason only its kind.
- `clean_snapshot`'s allowlist and string forms, and `close_open_items_for`, which nothing calls.
- Audit entries other than those of the review queue.
- VolunteerFiles.CurrentCheck: of several un-superseded checks with the same latest report date it takes the first recorded, where the query leaves the choice open.
- VolunteerFiles.RecordedCrc: the requirement it writes is the first active check requirement in list order, which is the order by sequence with ties broken by name.
- Reminders.FindDueReminders: the lead times are a parameter; parsing and sorting the configured list is not modelled.
- ReviewIndexes.ReviewIndex.Lookup: annotating objects for display is not modelled.
- AccessGrants.NoEscalation: a level's active flag is not modelled, and every granting user holds a grant; calls on behalf of nobody are not checked by the program.
- Definitions as objects, role flags, pagination, the e-mail digest, documents' contents and encryption.
