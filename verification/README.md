# codex-usage in Dafny

`codex-usage` collects usage percentages of accounts from several backends, keeps them fresh, and shows them in a panel.
This project models the parts of it that compute or coordinate something, and proves what they are for. `dafny verify
dfyconfig.toml` checks everything.

## What is modelled

- **Rates, Consumption, Cycles, Tracker** (`src/codex_usage/consumption.py`): the reset detector, the time-aware moving
  average, the accumulator of one lookback window, the coverage classes, the forecast, and the evidence for projected usage.
  `Cycles` says what the detector finds, on the fields of two samples and over the cycles of whole lists. Time is counted in
  microseconds, as Python's datetimes do; percentages and rates are reals. The decay of a gap is a power of a base strictly
  between 0 and 1, which is what `exp(-gap / constant)` is for a fixed time constant.
- **Quorum, Restarts, BackendIdentity** (`src/codex_usage/direct.py`, `src/codex_usage/bridge.py`): choosing one answer among
  several samples of the same remote counter, retrying until a choice is stable, and attributing an answer to an account.
  `Restarts` states the whole choice on the fields of the samples' windows.
- **BridgeCandidates, CandidateOrder, PayloadFreshness, PageHook, CacheContents, ExtensionCommit**
  (`src/codex_usage/bridge.py`, `src/codex_usage/browser.py`): resolving duplicate responses by request number, from the raw
  items of a payload on, and the order of what survives; the page's bounded response cache with its refresh fence, and what it
  holds; and the commit of several files with rollback.
- **AuthSync, TomlText** (`src/codex_usage/config.py`): the mark, snapshot and clear protocol of the sync requirement, and
  the string writer of the configuration file together with a reader of TOML basic strings (section "String" of TOML v1.0.0).
- **ProcessOwnership, StepUp** (`files/codex-usage@H234598/openai_accounts_page.py`): who terminates a child process, and the
  hand-over of step-up codes between a dialog and a worker. Every interleaving of the critical sections is a run.
- **AccountLocks** (`src/codex_usage/account_lock.py`): shared and exclusive file locks under nested, re-entrant scopes of
  many threads. Every interleaving of single lock operations is a run.
- **PanelNumbers, PanelGrid, PanelColumns, HiddenSlots, MixedRows** (`files/codex-usage@H234598/panel_settings_list.py`): the
  editor grid, the expansion of the schema to the requested slots, the account table whose hidden slots must survive edits,
  and which rows take the hidden values of another.
- **Sorting, Characters, Wrappers**: the stable sort behind Python's `sorted`, white space, and options and results.

Code that changes things in place is a method or a class whose `ensures` ties it to a function; the lemmas are about that
function.

## Where the code does not do what its documentation or its purpose suggests

- A comment (`src/codex_usage/bridge.py:542-544`) says that what is done with the candidates cannot depend on the order of
  arrival. The last sort key is the place in a dictionary, which is the order of arrival, and without request numbers the
  last response to arrive wins. `CandidateOrderIndependent` says exactly when the returned list depends on it: when two
  survivors with the same number and equally ranked sources yield different candidates (`TiedSourcesKeepArrivalOrder`), or
  two responses of one key without any number do. `ResponseOrderIndependent` says the same of the responses behind the list,
  and `ArrivalOrderMatters` of one key.
- Coverage windows are contiguous runs of samples except when a second sample lies exactly at the start of the window, where
  two samples at that instant stay (`src/codex_usage/consumption.py:334-340`). `WindowContiguous` gives both directions; such
  a window is never reported as complete (`CompleteCoverageIsExact`).
- A reset can be missed (`src/codex_usage/consumption.py:488-512`): if the sample before it still carries the reset before, and
  the sample after it carries the next one already, the two differ in a way that no test looks for, and the usage since the
  reset is not counted (`MissedRollover`). `ToldExactly` says of two samples, and `CycleStartExactly` of whole lists, exactly
  when the cycle starts at the last scheduled reset; a sample that shows zero after more starts the cycle at its own time
  instead. Where every reset is told, the account is exact (`ScheduledTally`, `ReportAfterReset`).
- The test `rate <= 0` in the tracker (`src/codex_usage/consumption.py:151-152`) can never succeed once the other tests have
  passed (`RateBetweenSlopes`).
- Limits can be lost: the latest sample is returned when it restarts a window, when no majority exists but the samples
  progress, or when it progresses beyond the majority, even if it shows no supported window, for instance because its
  percentage is out of range, while other samples show one. `SelectionCovers` gives the exact condition on the batch;
  `MalformedRestartDropsLimits` and `OvershootDropsLimits` are two such batches.
- Limits other than the latest can be returned although usage fell between samples: if the latest sample belongs to the
  majority, the first member's reset times are kept (`OlderCountdownAfterFall`; `FallKeepsOlderLimits` says exactly when).
  Percentages and durations are then those of the latest sample (`SelectionNeverRewinds`).
- An original file whose restoring fails stays in the transaction directory, which is then deleted: the old content is lost
  (`FailedRestoreLosesOriginal`; `Store.Commit` and `RollbackPerFile` say exactly when).
- The string writer leaves U+007F as it is, which TOML forbids in a basic string. `StringRoundTrip` and `ListRoundTrip` hold
  exactly without that character.
- If the termination of a process raises inside `close`, the processes after it in the batch are never terminated:
  `StrandedExactlyWhenCutShort` and `RaisingCloseStrands`.
- A hidden value that is no option of its column makes the whole row vanish when the column is shown, and the next save
  deletes it (`HiddenValueDeletesRow`; `RowOutlivesCountChange` says exactly when).
- Hidden values can cross rows, and accounts. A saved row continues the one stored row of its account, and if its account is
  stored more than once, or not at all, whatever row is stored at its place. `PlacesDecide` says for every table and every
  visible edit that a row keeps its hidden values exactly if the stored row it continues has the same ones, and
  `KeepsAllExactly` says it of whole tables. Ways in which this fails, with an example and the exact condition of each:
  - a removal or a move shifts a row whose account occurs more than once (`DuplicateAccountsMixHiddenValues`,
    `HiddenValuesCrossAccounts`; `RemovalKeepsAll`, `MoveKeepsAll`);
  - an edit gives a row an account that is stored once in another row, and the hidden values come along
    (`RenamedRowTakesHiddenValues`; `EditKeepsAll`);
  - a stored row that is not shown, like a shown row without an account, shifts the places of all rows below it, so that even
    confirming a row of a repeated account unchanged mixes (`UnshownRowShiftsPlaces`); a new account inherits the hidden
    values of such a row (`AddedRowInherits`; `AddedRowStartsFresh`, `AdditionKeepsAll`);
  - a change of the count shows every row of an account with the values of its last stored row in the columns that appear,
    and the next save writes them (`CountChangeMixesRows`; `CountChangeDecides` for every table, `CountChangeKeepsRow` where
    every stored row is shown).

## Model

| member | source | states |
|---|---|---|
| Rates.DecayAdds | src/codex_usage/consumption.py:466-468 | the decay over two consecutive gaps is the product of their decays |
| Rates.DecayBetween | src/codex_usage/consumption.py:466-468 | the decay of a positive gap lies strictly between 0 and 1 |
| Rates.ComputeEmaRate | src/codex_usage/consumption.py:439-470 | the averaging loop computes the specified rate of every sample list |
| Rates.AdvanceEma | src/codex_usage/consumption.py:447-469 | one pass of the loop body is one step of the specified average: reset, skipped gap, first rate, or blend |
| Rates.EmaStepSplits | src/codex_usage/consumption.py:447-469 | stepping over a gap equals stepping through any sample on the straight line inside it |
| Rates.InterpolationCrossesNoReset | src/codex_usage/consumption.py:477-512 | a sample interpolated inside one cycle is not taken for a reset on either side |
| Rates.EmaIgnoresSamplingRate | src/codex_usage/consumption.py:439-470 | inserting a sample on the line between two consecutive samples leaves the average exactly unchanged |
| Rates.RateIgnoresDensity | src/codex_usage/consumption.py:439-470 | any number of such insertions anywhere leaves the reported rate unchanged |
| Rates.EmaInHull | src/codex_usage/consumption.py:439-470 | the average is absent exactly without rates of the current cycle, and otherwise within any bounds of them |
| Rates.RateInHull | src/codex_usage/consumption.py:439-470 | the reported rate is zero without rates and otherwise between their least and greatest; the final clamp changes nothing |
| Rates.EmaForgetsOldCycles | src/codex_usage/consumption.py:439-470 | only samples from the last one before a reset onward influence the average |
| Cycles.DetectorExactly | src/codex_usage/consumption.py:477-512 | exactly which instant two samples show as the start of a cycle, on usage, scheduled reset, generation and time |
| Cycles.SilentExactly | src/codex_usage/consumption.py:477-512 | exactly when two samples show no reset |
| Cycles.AverageRestarts | src/codex_usage/consumption.py:449-458 | after a reset the average is the usage since then by the time since then |
| Cycles.AverageMoves | src/codex_usage/consumption.py:459-470 | without a reset, long gaps leave the average alone, the first rate starts it, and every further one draws it towards itself by what the decay leaves |
| Cycles.CycleStartExactly | src/codex_usage/consumption.py:363-393 | over a counter with scheduled resets the cycle starts at the last reset at or before the last sample exactly if the samples around it tell so, or one taken on its instant does; the usage is then what the counter shows |
| Cycles.ToldExactly | src/codex_usage/consumption.py:488-512 | exactly when two samples that carry the next reset or the one just passed tell the last reset between them |
| Cycles.NextResetIsTold | src/codex_usage/consumption.py:488-512 | samples that always carry the next reset tell every single reset between them |
| Cycles.ScheduledTally | src/codex_usage/consumption.py:357-393 | where every reset is told, the cycle starts at the last one, the usage is the usage since, and the run is partial only if it starts so or has a long gap |
| Cycles.OneCycleTally | src/codex_usage/consumption.py:357-393 | without a reset the cycle starts with the list, the usage is the rise, and the run is partial only if it starts so or has a long gap |
| Cycles.UnscheduledTally | src/codex_usage/consumption.py:477-487 | without reset times the cycle starts at the last sample that shows zero after more or another generation, and the usage is the rise since |
| Cycles.ReportAfterReset | src/codex_usage/consumption.py:357-427 | the usage, coverage and unsmoothed forecast of a window in which scheduled resets are told |
| Cycles.OrdinaryRollover | src/codex_usage/consumption.py:496-504 | 80 percent before an announced reset and 5 after it count as 5 percent since the reset, at that rate |
| Cycles.MissedRollover | src/codex_usage/consumption.py:488-512 | a reset that neither of the samples around it tells of |
| Consumption.Accumulate | src/codex_usage/consumption.py:357-384 | the accounting loop computes usage, cycle start and the partial flag as specified |
| Consumption.TallyTelescopes | src/codex_usage/consumption.py:357-393 | without gaps the usage is last minus first, or exactly the last value once any reset was crossed, and lies in 0 to 100 |
| Consumption.TallyNonNegative | src/codex_usage/consumption.py:363-393 | accumulated usage is never negative, for any gaps and resets |
| Consumption.TallyForgetsOldCycles | src/codex_usage/consumption.py:363-384 | only samples from the last one before a reset onward influence usage and cycle start |
| Consumption.TallyIgnoresSamplingRate | src/codex_usage/consumption.py:363-384 | a sample on the line between two consecutive samples of one cycle changes neither usage nor cycle start nor the partial flag |
| Consumption.OrderedCorrect | src/codex_usage/consumption.py:251-285 | sorting keeps exactly the samples, puts them in time order, and leaves ordered input alone |
| Consumption.SelectObservations | src/codex_usage/consumption.py:321-340 | the selection loop finds the baseline sample, its value sample and the samples of the window |
| Consumption.InRangeIsSlice | src/codex_usage/consumption.py:334-336 | the samples of a time range are one slice of the ordered list |
| Consumption.WindowContiguous | src/codex_usage/consumption.py:334-340 | the window is one contiguous run from the baseline on, except exactly when a second sample lies at its start |
| Consumption.ForecastIsFirstExhaustion | src/codex_usage/consumption.py:394-412 | the forecast is the first whole second at which a constant rate exhausts the limit, absent exactly if that is over a year away |
| Consumption.CalculateConsumption | src/codex_usage/consumption.py:184-427 | which requests are rejected, the whole answer to an empty list, and the report on all others |
| Consumption.ReportOn | src/codex_usage/consumption.py:321-427 | the report is computed from selection, accounting, coverage and forecast as specified |
| Consumption.CompleteCoverageIsExact | src/codex_usage/consumption.py:357-393 | complete coverage means a contiguous run whose reported usage is its exact rise, or exactly its last value after a reset |
| Consumption.ReportForecast | src/codex_usage/consumption.py:394-427 | reported usage and rate are never negative and the forecast is the first exhaustion at that rate |
| Consumption.ReportIgnoresSamplingRate | src/codex_usage/consumption.py:321-427 | one more interpolated poll inside the window changes the sample count of a report and neither usage, coverage nor forecast |
| Consumption.LookbackExactly | src/codex_usage/consumption.py:176-181 | the accepted lookbacks and their lengths in seconds |
| Consumption.StartsPartialExactly | src/codex_usage/consumption.py:321-362 | a window starts partial exactly if no sample lies at or before its start |
| Consumption.BaselineExactly | src/codex_usage/consumption.py:321-340 | the baseline value is that of the last sample at or before the instant asked for |
| Consumption.BaselineAtStart | src/codex_usage/consumption.py:321-340 | without such an instant or sample it is that of the last sample by the start of the window |
| Tracker.CalculateTrackerEvidence | src/codex_usage/consumption.py:65-173 | evidence is given as specified, and lists that are too long are refused |
| Tracker.TrimToGeneration | src/codex_usage/consumption.py:90-94 | the trimming loop leaves the trailing run of one reset generation |
| Tracker.TrailingRunMaximal | src/codex_usage/consumption.py:90-94 | that run has one generation throughout and cannot be extended |
| Tracker.ProjectableCrossesNoReset | src/codex_usage/consumption.py:116-142 | no consecutive pair behind a projection crosses a reset |
| Tracker.RatesAreSlopes | src/codex_usage/consumption.py:132-150 | the rates averaged are exactly the slopes of consecutive samples, all positive |
| Tracker.RateBetweenSlopes | src/codex_usage/consumption.py:146-152 | the projected rate is positive and lies between the least and greatest slope |
| Tracker.EvidenceRun | src/codex_usage/consumption.py:90-173 | evidence from two or more samples comes from a maximal run of one generation without any reset |
| Tracker.EvidenceSound | src/codex_usage/consumption.py:90-173 | its last value, rate and projection are ordered: last used, then projected, at most 100 |
| Tracker.ProjectionOnLine | src/codex_usage/consumption.py:146-156 | the projection is the point at the reset of the line from the last sample with the reported rate, or 100 if that is reached |
| Tracker.StraightRunProjects | src/codex_usage/consumption.py:132-156 | a run on a straight line has its slope as rate and projects the point of that line at the reset, or 100 |
| Tracker.EvidenceGivenExactly | src/codex_usage/consumption.py:65-173 | exactly which lists give evidence, from which samples, and with which coverage |
| Tracker.EvidenceIgnoresSamplingRate | src/codex_usage/consumption.py:90-173 | an interpolated sample changes only the number of samples of the evidence |
| Quorum.GroupBySignature | src/codex_usage/direct.py:1122-1131 | the dictionary groups positions by signature, keys in order of their first sample |
| Quorum.BestIsMaximal | src/codex_usage/direct.py:1132-1142 | the best group outranks every other: completeness, then size, then the earlier first sample |
| Quorum.MergeDynamic | src/codex_usage/direct.py:1159-1181 | the loops refresh the copied values as specified |
| Quorum.MergedExact | src/codex_usage/direct.py:1159-1181 | each dynamic value is the newest member's where it gives one and otherwise the first member's |
| Quorum.SelectStableUsage | src/codex_usage/direct.py:1115-1181 | the tests are made in this order and with these outcomes |
| Quorum.SelectionSound | src/codex_usage/direct.py:1115-1181 | an answer has the best group's identity, and its signature is the latest sample's or a strict majority's; limits are never mixed |
| Quorum.SelectionConsistent | src/codex_usage/direct.py:1213-1304 | an answer agrees with every sample about limit flags and additional limits |
| Quorum.SelectionShape | src/codex_usage/direct.py:1143-1181 | an answer other than the latest sample is the best group's, and nothing regressed unless the latest sample is in that group |
| Quorum.NoConflictCovers | src/codex_usage/direct.py:1184-1210 | past the partial-window test the best sample shows every duration seen, and the latest shows all of them or none |
| Quorum.LimitsTakenFrom | src/codex_usage/direct.py:1143-1181 | an answer is the latest sample exactly if it restarts a window, lacks a majority against it, or progresses beyond it; otherwise it has the first majority member's limits |
| Quorum.SelectionCovers | src/codex_usage/direct.py:1143-1210 | an answer covers every supported duration seen for its identity exactly if the latest sample is not taken, or shows some supported window, or none was seen |
| Quorum.SelectionNeverRewinds | src/codex_usage/direct.py:1586-1624 | if any usage fell between samples in a window of equal duration, the answer has the percentages and durations of the latest sample |
| Restarts.SelectionOnFields | src/codex_usage/direct.py:1143-1181 | the whole choice on the fields of the samples: a restart is returned, a step backwards ends it unless the latest sample is in the best group, and then majority and progress decide |
| Restarts.RewindNeedsRestart | src/codex_usage/direct.py:1431-1569 | the latest sample is returned below the newest one of the best group only if the window is as long as before, and its countdown rose to within 30 seconds of the full length or its scheduled reset moved to later five seconds |
| Restarts.RestartAccepted | src/codex_usage/direct.py:1149-1152 | a batch in which one window restarted and the other is as it was, or crept up in its cycle, is answered with the latest sample |
| Restarts.RestartExactly | src/codex_usage/direct.py:1431-1569 | the restart test on the fields of the windows, by countdown and by scheduled reset |
| Restarts.RegressesExactly | src/codex_usage/direct.py:1595-1624 | the samples step backwards exactly if some consecutive two show an earlier reset or a shorter countdown window, a lower usage in the same length, or a countdown begun anew |
| Restarts.ProgressesExactly | src/codex_usage/direct.py:1381-1406 | the samples progress exactly if they show one account whose windows climb in one cycle each, by no more than the step given |
| Restarts.BeyondExactly | src/codex_usage/direct.py:1409-1428 | the latest sample progresses beyond the majority exactly if all climb, none of its windows is behind and one is ahead |
| Restarts.GroupedExactly | src/codex_usage/direct.py:1329-1380 | samples are grouped together exactly if they agree in identity, lengths, usages, cycles and phases |
| Restarts.DurationsExactly | src/codex_usage/direct.py:1307-1326 | which lengths a sample shows, and how complete it is |
| Restarts.ObservedExactly | src/codex_usage/direct.py:1184-1210 | the lengths seen are those shown by some sample of the identity |
| Restarts.PartialWindowsExactly | src/codex_usage/direct.py:1184-1210 | windows conflict exactly if some sample of the identity shows a length the best one does not, or the latest shows one of the two the best shows |
| Restarts.SparkExactly | src/codex_usage/direct.py:1219-1304 | when the additional limits of two samples agree, on the first such limits of each list |
| Restarts.SparkKindsExactly | src/codex_usage/direct.py:1243-1268 | additional limits that are missing, null, no list, an empty list, or a list never agree across these kinds, and agree within the first four |
| Restarts.FirstTests | src/codex_usage/direct.py:1115-1131 | which batches are rejected as empty, for their flags, or as malformed |
| Restarts.StaleReadingRejected | src/codex_usage/direct.py:1501-1504 | a lower reading whose countdown barely moved is not taken for a reset |
| Restarts.RestartedReadingReturned | src/codex_usage/direct.py:1501-1504 | with the countdown back at its start it is |
| Quorum.FallKeepsOlderLimits | src/codex_usage/direct.py:1143-1181 | after such a fall, limits other than the latest are returned exactly if the latest sample is in the best group, is not taken itself, and differs from the group's first member |
| Quorum.OlderCountdownAfterFall | src/codex_usage/direct.py:1149-1181 | a batch in which an older reset time is returned after a fall of usage |
| Quorum.MalformedRestartDropsLimits | src/codex_usage/direct.py:1431-1507 | a batch that loses its supported window through a restart |
| Quorum.OvershootDropsLimits | src/codex_usage/direct.py:1409-1428 | a batch that loses its supported window through progress past 100 percent |
| Quorum.FetchStableUsage | src/codex_usage/direct.py:1070-1112 | the retry loop answers exactly with the first stable attempt before anything ends it, and otherwise raises the error of that attempt or pause |
| Quorum.StableAnswer | src/codex_usage/direct.py:1070-1112 | what reaches the caller was shared by two of three consecutive samples or is the last of them |
| Quorum.AttemptOnRequests | src/codex_usage/direct.py:1070-1112 | what an attempt comes to by its three requests |
| BackendIdentity.RecheckAcceptsExactlyCanonical | src/codex_usage/bridge.py:1880-1901 | the identities that pass the recheck are exactly the canonical ones: what was accepted once passes unchanged, and nothing else does |
| BackendIdentity.CanonicalIsFixed | src/codex_usage/direct.py:730-803 | a canonical identity rechecked against the same known identity is accepted and unchanged |
| BackendIdentity.BridgeAcceptsOnlyNamedAccount | src/codex_usage/bridge.py:211-231 | under the bridge's demands a usage payload is accepted for a known account exactly if its fields are valid, it names that account, and neither user nor plan contradicts |
| BackendIdentity.BridgeAttributesOnce | src/codex_usage/bridge.py:211-231 | two accounts with different known ids never both accept one usage payload |
| BackendIdentity.IdentityOnlyPayloadsMayBeShared | src/codex_usage/direct.py:691-803 | without usage, one payload is accepted for two accounts exactly if it is valid for both, contradicts neither plan, and names no account and a user that contradicts neither |
| BackendIdentity.DirectAcceptsNamedOrEchoed | src/codex_usage/direct.py:187-197 | the direct backend accepts an answer for a known account exactly if it is valid and names the account, or echoes its user and echoes are not refused |
| BackendIdentity.DirectSharesOnlyEchoes | src/codex_usage/direct.py:187-197 | exactly when two accounts with different known ids both accept one answer there: one of them takes it as an echo; never if both are strict |
| BackendIdentity.EchoedUserIsAmbiguous | src/codex_usage/direct.py:187-197 | for instance, an answer that echoes a shared user id as account is accepted for every account of that user |
| BackendIdentity.UnfitFieldsRefused | src/codex_usage/direct.py:730-803 | an answer is refused for its fields exactly if an id or a plan is unfit or too long |
| BackendIdentity.KnownIdsAreKept | src/codex_usage/direct.py:730-803 | what is accepted is stored under the known ids, completed by those of the answer |
| BackendIdentity.UnknownAccountAccepts | src/codex_usage/direct.py:730-803 | exactly which answers are accepted while the account is not known |
| BridgeCandidates.Collect | src/codex_usage/bridge.py:446-505 | the loop leaves the fold of the accepted responses, or gives up beyond the limit |
| BridgeCandidates.FoldKeepsWinner | src/codex_usage/bridge.py:476-505 | each key keeps the first response with the highest number, or the last unnumbered one, and is in conflict exactly if another with that number differs |
| BridgeCandidates.SurvivorIsNewest | src/codex_usage/bridge.py:476-505 | no older response is ever used because the newest is unusable |
| BridgeCandidates.ArrivalOrderIrrelevant | src/codex_usage/bridge.py:476-505 | a key with a numbered response survives alike under every order of arrival |
| BridgeCandidates.ArrivalOrderMatters | src/codex_usage/bridge.py:476-505 | survival is independent of arrival exactly if a response is numbered or all agree |
| BridgeCandidates.CandidatesFromPayload | src/codex_usage/bridge.py:446-546 | the whole function returns the candidates of the specified output |
| BridgeCandidates.OutputExact | src/codex_usage/bridge.py:507-546 | the output lists the usable survivors, each once, from least to most recent |
| PayloadFreshness.HighestIsOffered | src/codex_usage/bridge.py:446-505 | of a source and address with a numbered item only content with the highest number is ever offered, and exactly if no other item with that number differs |
| PayloadFreshness.LastIsOffered | src/codex_usage/bridge.py:476-505 | without any number the last item to arrive is offered |
| PayloadFreshness.OnlyCountingIsOffered | src/codex_usage/bridge.py:446-505 | nothing is offered of a source and address without an item that counts |
| PayloadFreshness.UselessChangesNothing | src/codex_usage/bridge.py:459-476 | items of an unknown source, without a usable address or with a malformed number change nothing |
| PayloadFreshness.AcceptExactly | src/codex_usage/bridge.py:459-476 | which items count, and for which source, address and number |
| PayloadFreshness.CandidatesAreOffered | src/codex_usage/bridge.py:507-546 | the candidates are what the offered responses load to, each usable one once, by number and then by source |
| PayloadFreshness.FreshExactly | src/codex_usage/bridge.py:532-546 | the order of the candidates, by number and then by source |
| PayloadFreshness.ItemsOfFields | src/codex_usage/bridge.py:446-458 | the items of a payload are those of its two lists |
| PayloadFreshness.LateArrivalIsNotOffered | src/codex_usage/bridge.py:476-505 | an older response that arrives later is never offered |
| CandidateOrder.CandidateOrderIndependent | src/codex_usage/bridge.py:476-546 | for every payload the returned candidates are independent of arrival exactly if tied survivors yield the same candidate, and so do all responses of each key without numbers |
| CandidateOrder.ResponseOrderIndependent | src/codex_usage/bridge.py:476-546 | the responses behind them are, exactly if no two usable survivors tie and every key is numbered, agrees, or has no usable response |
| CandidateOrder.TiedSourcesKeepArrivalOrder | src/codex_usage/bridge.py:532-546 | two sources with one number whose candidates are returned in the order of arrival |
| PageHook.TrimResponses | src/codex_usage/bridge.py:3703-3728 | the trimming loops keep the newest main response first and then what fits |
| PageHook.TrimKeeps | src/codex_usage/bridge.py:3703-3728 | trimming keeps a part of the items within the cap and never drops the newest main response |
| PageHook.Cache.RememberResponse | src/codex_usage/bridge.py:3730-3764 | the array after an arrival, in place |
| PageHook.Cache.ForgetMainResponses | src/codex_usage/bridge.py:3766-3773 | forgetting drops main responses and raises the fence |
| PageHook.Cache.StartRequest | src/codex_usage/bridge.py:3831-3838 | a fetch gets the next number |
| PageHook.Cache.RefreshUsage | src/codex_usage/bridge.py:3840-3849 | a refresh raises the fence first and then starts its own fetch |
| PageHook.AddKeeps | src/codex_usage/bridge.py:3730-3764 | adding a response keeps the bounds, the keys, and the current main response unless a main one is added |
| PageHook.RememberKeeps | src/codex_usage/bridge.py:3730-3764 | an arrival changes the main response by its own simple rule only |
| PageHook.RunsStayOk | src/codex_usage/bridge.py:3668-3849 | the invariant holds after every run of fetches, refreshes and late arrivals |
| PageHook.EveryRunIsSafe | src/codex_usage/bridge.py:3668-3849 | at most 50 entries, one per key, text within the cap, no main response older than the last refresh, and the current one never evicted |
| CacheContents.HoldsNewest | src/codex_usage/bridge.py:3730-3764 | while the newest responses are at most 50 and fit the cap, the cache holds at every address but the main one exactly the most recently started response that has arrived |
| CacheContents.HoldsEverything | src/codex_usage/bridge.py:3668-3849 | over the same runs the cache holds exactly the responses it would hold without any bound, the main one included |
| CacheContents.UnboundedIsNewest | src/codex_usage/bridge.py:3730-3753 | without bounds those are the newest arrivals |
| CacheContents.HeldOnArrival | src/codex_usage/bridge.py:3730-3764 | in every run, a response that is not overtaken and fits beside the current main one is held right after its arrival |
| CacheContents.CachedHasArrived | src/codex_usage/bridge.py:3730-3764 | whatever is cached has arrived |
| CacheContents.TrimKeepsAll | src/codex_usage/bridge.py:3703-3728 | trimming drops nothing while everything fits |
| CacheContents.CompactExactly | src/codex_usage/bridge.py:3682-3695 | a truncated response keeps the first 500 characters of its text, others are kept whole |
| ExtensionCommit.Store.Commit | src/codex_usage/bridge.py:1453-1486 | the final content of every path, no other file touched; success means staged content everywhere, after a failure a path is as before exactly if its own rollback step worked, and always when no rollback error is reported |
| ExtensionCommit.Store.InstallAll | src/codex_usage/bridge.py:1455-1464 | where every file stands when installing stops, and what the two lists hold |
| ExtensionCommit.Store.Undo | src/codex_usage/bridge.py:1465-1481 | the rollback reaches the specified final state whatever steps fail |
| ExtensionCommit.Store.UnlinkAll | src/codex_usage/bridge.py:1467-1474 | every installed file is unlinked unless its own step fails |
| ExtensionCommit.Store.RestoreAll | src/codex_usage/browser.py:1531-1536 | every original set aside is restored unless its own step fails, even where unlinking failed |
| ExtensionCommit.AllOrNothing | src/codex_usage/browser.py:1510-1543 | success installs every file, and failure with a clean rollback leaves every path as it was |
| ExtensionCommit.SucceedsExactly | src/codex_usage/bridge.py:1453-1464 | the commit succeeds exactly if no validation, installation or due setting aside fails |
| ExtensionCommit.RollbackPerFile | src/codex_usage/bridge.py:1465-1486 | the exact condition under which the specified final content of a path is its old content, equal contents included |
| ExtensionCommit.FailedRestoreLosesOriginal | src/codex_usage/bridge.py:1465-1486 | a failed replacement after which a path has no file at all |
| AuthSync.ConfigFile.MarkSyncRequired | src/codex_usage/config.py:545-573 | marking sets the flag and raises the generation, or fails and changes nothing |
| AuthSync.ConfigFile.CompareAndClear | src/codex_usage/config.py:576-608 | clearing succeeds exactly for a current snapshot below the last generation |
| AuthSync.ConfigFile.Update | src/codex_usage/config.py:366-404 | an update keeps requirement and generation |
| AuthSync.MarkExactly | src/codex_usage/config.py:545-573 | when a mark succeeds, the whole account it leaves, and that it touches no other |
| AuthSync.UpdateExact | src/codex_usage/config.py:366-404 | the whole account an update leaves, and that it touches no other |
| AuthSync.StepFacts | src/codex_usage/config.py:545-608 | how one event may change an account, and that the configuration stays valid |
| AuthSync.RunKeepsInv | src/codex_usage/config.py:545-608 | in every run a snapshot from before a mark is of an earlier generation |
| AuthSync.ClearNeedsLaterReading | src/codex_usage/config.py:576-608 | a clear that drops the flag used a snapshot taken after the last mark |
| AuthSync.ClearFlagIsJustified | src/codex_usage/config.py:576-608 | whenever a marked account is found clear, such a clear happened since |
| AuthSync.MarkHolds | src/codex_usage/config.py:545-608 | after a mark the requirement holds until a reading of the account taken since is offered, whatever else happens |
| AuthSync.MarkBarsEarlierReadings | src/codex_usage/config.py:576-608 | after a mark, offering a reading from before it changes nothing |
| AuthSync.LastMarkExactly | src/codex_usage/config.py:545-573 | which event of a run counts as the last mark of an account |
| AuthSync.ChangedPathsBarReading | src/codex_usage/config.py:576-608 | after an update that changes an account's paths, no earlier reading clears the flag unless a later update restored them |
| AuthSync.UndisturbedReadingClears | src/codex_usage/config.py:576-608 | a reading below the last generation clears the flag if its account was neither marked nor updated since |
| AuthSync.GenerationNeverFalls | src/codex_usage/config.py:1478-1482 | the generation never falls, and at its maximum the flag stays set for good |
| TomlText.QuoteIsPerCharacter | src/codex_usage/config.py:1685-1696 | the replacements in sequence amount to one escape per character |
| TomlText.EscapeExactly | src/codex_usage/config.py:1685-1696 | what every character becomes |
| TomlText.PlainIsUnchanged | src/codex_usage/config.py:1685-1696 | a string without quotes, backslashes and control characters is only put between quotes |
| TomlText.StringRoundTrip | src/codex_usage/config.py:1685-1696 | reading what was written returns the string and the text after it, exactly if it has no U+007F |
| TomlText.QuotesArePrefixFree | src/codex_usage/config.py:1685-1696 | no written string is the beginning of another |
| TomlText.ListRoundTrip | src/codex_usage/config.py:1699-1700 | a written list reads back, exactly if no element has U+007F |
| ProcessOwnership.Runner.Register | files/codex-usage@H234598/openai_accounts_page.py:316-320 | registering enters the process unless the runner is closed |
| ProcessOwnership.Runner.Release | files/codex-usage@H234598/openai_accounts_page.py:383-389 | releasing takes the process out and tells whether it was still there |
| ProcessOwnership.Runner.Close | files/codex-usage@H234598/openai_accounts_page.py:392-400 | the first close takes all processes and terminates them in order until a termination raises |
| ProcessOwnership.EventKeeps | files/codex-usage@H234598/openai_accounts_page.py:316-400 | every event keeps one claim or one termination per process |
| ProcessOwnership.OneOwner | files/codex-usage@H234598/openai_accounts_page.py:316-400 | in every reachable state a started process has one claim on it, or one termination, or was stranded; after close nothing is registered |
| ProcessOwnership.TerminatedExactlyOnce | files/codex-usage@H234598/openai_accounts_page.py:316-400 | when all threads are done each process was terminated once, unless stranded |
| ProcessOwnership.StrandedExactlyWhenCutShort | files/codex-usage@H234598/openai_accounts_page.py:392-400 | processes are stranded exactly if a termination inside close raised while others waited |
| ProcessOwnership.CleanCloseTerminatesAll | files/codex-usage@H234598/openai_accounts_page.py:392-400 | if none raises, every process is terminated exactly once |
| ProcessOwnership.RaisingCloseStrands | files/codex-usage@H234598/openai_accounts_page.py:392-400 | a run in which a process is never terminated |
| StepUp.SharedSlot.Offer | files/codex-usage@H234598/openai_accounts_page.py:442-446 | a code is handed over only while the slot is open, and otherwise kept |
| StepUp.SharedSlot.Take | files/codex-usage@H234598/openai_accounts_page.py:418-423 | taking empties and closes the slot |
| StepUp.EventKeeps | files/codex-usage@H234598/openai_accounts_page.py:402-472 | every event of prompt or worker keeps each code in one place or wiped once |
| StepUp.CodesConserved | files/codex-usage@H234598/openai_accounts_page.py:367-380 | over all requests of a command, a code is returned or wiped by its request, never both, and only a returned one is written |
| StepUp.ClosedSlotIsEmpty | files/codex-usage@H234598/openai_accounts_page.py:418-423 | once the worker gave up or took its code, the slot is empty for good |
| StepUp.EveryCodeIsWiped | files/codex-usage@H234598/openai_accounts_page.py:376-472 | when prompt and worker are done, every code was wiped exactly once |
| StepUp.OpenSlotDelivers | files/codex-usage@H234598/openai_accounts_page.py:402-472 | a well-formed code offered while the worker waits reaches it |
| StepUp.ClosedSlotKeepsCode | files/codex-usage@H234598/openai_accounts_page.py:402-472 | a code offered after the worker gave up is not handed over and is wiped once |
| StepUp.CodeIsDelivered | files/codex-usage@H234598/openai_accounts_page.py:402-472 | a request in which a code is asked for, handed over, written, and wiped once after that |
| StepUp.EarlierRequestsAreOver | files/codex-usage@H234598/openai_accounts_page.py:362-380 | nothing can happen to an earlier request of a command any more |
| AccountLocks.Acquire | src/codex_usage/account_lock.py:180-189 | the retry loop ends at the first attempt that can be granted, or at the first refusal past the deadline; an attempt it returns is one at which the lock can be granted |
| AccountLocks.LocalState.EnterMaintenance | src/codex_usage/account_lock.py:91-103 | entering again only counts; entering first asks for the exclusive lock |
| AccountLocks.LocalState.EnterAccount | src/codex_usage/account_lock.py:111-118 | an account scope takes a shared guard except inside maintenance |
| AccountLocks.LocalState.Lock | src/codex_usage/account_lock.py:180-190 | a granted lock enters its scope, and the thread goes on to what it wanted next |
| AccountLocks.LocalState.SetDepth | src/codex_usage/account_lock.py:98-100 | maintenance starts at depth one, once the exclusive lock is held |
| AccountLocks.LocalState.LeaveScope | src/codex_usage/account_lock.py:91-103 | what leaving the innermost scope changes and releases |
| AccountLocks.LocalState.DropGuard | src/codex_usage/account_lock.py:190-195 | the lock of the scope is released with it |
| AccountLocks.ActShapes | src/codex_usage/account_lock.py:28-118 | every action keeps the nesting of a thread's scopes and its depth |
| AccountLocks.ActLinks | src/codex_usage/account_lock.py:151-195 | every action keeps open scopes and held locks in step |
| AccountLocks.MaintenanceExcludesSections | src/codex_usage/account_lock.py:80-118 | while one thread maintains, no other thread has any scope open, in particular no account section |
| AccountLocks.SectionsExclude | src/codex_usage/account_lock.py:28-44 | no two sections of one account overlap |
| AccountLocks.DepthCountsScopes | src/codex_usage/account_lock.py:91-108 | a thread's depth is its number of open maintenance scopes |
| AccountLocks.ExclusiveLockMeansMaintaining | src/codex_usage/account_lock.py:91-103 | the exclusive lock is held exactly by the thread that maintains |
| AccountLocks.ReleasedAtDepthZero | src/codex_usage/account_lock.py:98-103 | the exclusive lock is released only by its thread, at depth zero, with no scope left |
| AccountLocks.MaintenanceInsideSectionGivesUp | src/codex_usage/account_lock.py:91-118 | maintenance asked for inside an account section can never be granted |
| AccountLocks.SectionOpens | src/codex_usage/account_lock.py:28-118 | a running thread can enter a section unless the account is in one already or another thread maintains |
| AccountLocks.SectionCloses | src/codex_usage/account_lock.py:28-118 | a section can always be left, together with its guard, and nothing else changes |
| AccountLocks.SectionsOverlap | src/codex_usage/account_lock.py:151-195 | sections of different accounts can be open at once, on one thread and on two |
| AccountLocks.MaintenanceOpens | src/codex_usage/account_lock.py:80-108 | with no scope open anywhere a thread can start maintenance, and enter it again at once |
| PanelNumbers.ValueOfShow | files/codex-usage@H234598/panel_settings_list.py:406-410 | reading a printed slot number returns it |
| PanelNumbers.ShowOfValue | files/codex-usage@H234598/panel_settings_list.py:142-152 | printing the number of a slot id returns its numeral |
| PanelNumbers.Count | files/codex-usage@H234598/panel_settings_list.py:96-139 | malformed or excessive settings give a count within the bounds |
| PanelNumbers.CountReads | files/codex-usage@H234598/panel_settings_list.py:96-139 | a count within the bounds is read back from its number and its numeral, any other number is replaced |
| PanelNumbers.CountOfNumeral | files/codex-usage@H234598/panel_settings_list.py:96-139 | a numeral between white space counts as its number, leading zeros included, if that is within the bounds |
| PanelNumbers.OtherSettingsReplaced | files/codex-usage@H234598/panel_settings_list.py:96-139 | any other text, switches and other settings are replaced |
| PanelNumbers.PanelDefaults | files/codex-usage@H234598/panel_settings_list.py:96-139 | the bounds and defaults of the number of values and of editor columns |
| PanelGrid.EditorPositions | files/codex-usage@H234598/panel_settings_list.py:188-219 | filling list by list gives every column exactly its specified cell, for the width in the settings |
| PanelGrid.CellsDiffer | files/codex-usage@H234598/panel_settings_list.py:188-219 | no two columns share a cell |
| PanelGrid.MetadataAbove | files/codex-usage@H234598/panel_settings_list.py:206-218 | every metadata row lies above every value row |
| PanelGrid.ValuesRunDown | files/codex-usage@H234598/panel_settings_list.py:213-218 | values run top to bottom, then left to right, in order |
| PanelGrid.MetadataRunsAcross | files/codex-usage@H234598/panel_settings_list.py:206-209 | metadata runs left to right, then top to bottom, in order |
| PanelGrid.CellsFitDialog | files/codex-usage@H234598/panel_settings_list.py:222-248 | every cell lies within the rows and columns the dialog size is computed from, and its column within the width |
| PanelGrid.RowsAreUsed | files/codex-usage@H234598/panel_settings_list.py:686-703 | every row the dialog counts holds some cell |
| PanelGrid.HeightFitsRows | files/codex-usage@H234598/panel_settings_list.py:222-248 | the exact width; the height is bounded, and has room for all rows exactly up to nine |
| PanelColumns.ExpandColumns | files/codex-usage@H234598/panel_settings_list.py:251-427 | the loops compute the specified columns from schema and setting |
| PanelColumns.ColumnsExact | files/codex-usage@H234598/panel_settings_list.py:251-427 | the columns are the metadata in order, then exactly slot1 to slotN with their own titles |
| PanelColumns.FewerColumnsAreAPrefix | files/codex-usage@H234598/panel_settings_list.py:251-427 | a smaller count shows a beginning of the columns of a larger one |
| PanelColumns.ColumnsUnique | files/codex-usage@H234598/panel_settings_list.py:380-416 | no id is shown twice |
| HiddenSlots.PanelList.ListChanged | files/codex-usage@H234598/panel_settings_list.py:861-912 | saving lays each table row over the stored row it continues |
| HiddenSlots.PanelList.OnCountChanged | files/codex-usage@H234598/panel_settings_list.py:778-829 | a new count rebuilds the table from stored and shown values and stores nothing |
| HiddenSlots.PanelList.EditItem | files/codex-usage@H234598/panel_settings_list.py:841-859 | an edit changes one row and saves |
| HiddenSlots.PanelList.RemoveItem | files/codex-usage@H234598/panel_settings_list.py:914-924 | a removal drops one row and saves |
| HiddenSlots.PanelList.MoveItemDown | files/codex-usage@H234598/panel_settings_list.py:942-956 | a move exchanges two rows and saves |
| HiddenSlots.SingleRows | files/codex-usage@H234598/panel_settings_list.py:880-890 | the lookup by account holds exactly the accounts that occur once |
| HiddenSlots.SavingCells | files/codex-usage@H234598/panel_settings_list.py:891-903 | after saving allowed cells the row shows them and stays allowed in every possible column |
| HiddenSlots.RowsShownExactly | files/codex-usage@H234598/panel_settings_list.py:1027-1047 | a rebuilt table shows an account's row exactly if every shown column admits its value |
| HiddenSlots.ShowableExactly | files/codex-usage@H234598/panel_settings_list.py:1027-1047 | a row can be shown exactly if in each column its value, or the default, is an option and of the column's kind |
| HiddenSlots.AccountExactly | files/codex-usage@H234598/panel_settings_list.py:861-903 | a row is for an account exactly if it names it in a text that is not empty |
| HiddenSlots.RecountShows | files/codex-usage@H234598/panel_settings_list.py:778-829 | the same across a change of the count |
| HiddenSlots.EventKeeps | files/codex-usage@H234598/panel_settings_list.py:778-956 | every count change and edit keeps the account's one row with all its values |
| HiddenSlots.HiddenSlotsSurvive | files/codex-usage@H234598/panel_settings_list.py:778-956 | over every run of count changes and edits that leave an account's one row in place with allowed values, each value of that row, shown or hidden, is the one last put there, and shown columns show it |
| HiddenSlots.OpenedTableKeepsValues | files/codex-usage@H234598/panel_settings_list.py:612-650 | the same for every run that starts where a table is opened |
| HiddenSlots.RowOutlivesCountChange | files/codex-usage@H234598/panel_settings_list.py:1027-1047 | a count change and a save keep a row exactly if the new columns admit its values |
| MixedRows.PlacesDecide | files/codex-usage@H234598/panel_settings_list.py:861-903 | in every table and through every visible edit, a row keeps the hidden values of the row it stands for exactly if the stored row it continues has the same ones; otherwise it takes that row's |
| MixedRows.KeepsAllExactly | files/codex-usage@H234598/panel_settings_list.py:841-956 | a visible edit keeps the values of all rows exactly if each continues a stored row with its hidden values |
| MixedRows.RemovalKeepsAll | files/codex-usage@H234598/panel_settings_list.py:914-924 | the same of a removal; where every stored row is shown, exactly if no row below mixes with the one above it |
| MixedRows.MoveKeepsAll | files/codex-usage@H234598/panel_settings_list.py:926-956 | the same of a move; where every stored row is shown, exactly if both accounts occur once or both rows agree in what is hidden |
| MixedRows.EditKeepsAll | files/codex-usage@H234598/panel_settings_list.py:841-859 | the same of an edit; where every stored row is shown, exactly if the account it gives the row is not stored once with other hidden values |
| MixedRows.AdditionKeepsAll | files/codex-usage@H234598/panel_settings_list.py:831-839 | the same of an addition; where every stored row is shown, it always keeps all values |
| MixedRows.SavedTableIsMirrored | files/codex-usage@H234598/panel_settings_list.py:891-903 | after any save of rows that all have an account, the table shows every stored row, in the same order |
| MixedRows.AddedRowStartsFresh | files/codex-usage@H234598/panel_settings_list.py:831-839 | an added row has default hidden values exactly if it continues no stored row or one with defaults; a new account continues the stored row at its place |
| MixedRows.CountChangeDecides | files/codex-usage@H234598/panel_settings_list.py:778-829 | in every table, the row saved after a change of the count has given values exactly if the merged row shown there has them in the shown columns and the stored row it continues in all others |
| MixedRows.CountChangeKeepsRow | files/codex-usage@H234598/panel_settings_list.py:805-829 | where every stored row is shown and allowed, a change of the count and a save keep a row's values exactly if the last stored row of its account has the same ones in the columns that appear |
| MixedRows.NothingStoredKeepsTable | files/codex-usage@H234598/panel_settings_list.py:778-829 | where no stored row has an account, a change of the count shows the table's own rows again |
| MixedRows.DuplicateAccountsMixHiddenValues | files/codex-usage@H234598/panel_settings_list.py:891-903 | a table in which a removal gives the second row of an account the hidden value of the first |
| MixedRows.HiddenValuesCrossAccounts | files/codex-usage@H234598/panel_settings_list.py:891-903 | a table in which a removal gives a row the hidden value of another account |
| MixedRows.RenamedRowTakesHiddenValues | files/codex-usage@H234598/panel_settings_list.py:891-903 | a table in which an edit of the account gives a row the hidden value of another |
| MixedRows.UnshownRowShiftsPlaces | files/codex-usage@H234598/panel_settings_list.py:891-903 | an opened table in which an unchanged row gets the hidden value of a row that is not shown |
| MixedRows.CountChangeMixesRows | files/codex-usage@H234598/panel_settings_list.py:805-829 | a table in which showing a hidden slot gives both rows of an account the value of the last |
| MixedRows.HiddenValueDeletesRow | files/codex-usage@H234598/panel_settings_list.py:1027-1047 | a table whose row is deleted by showing its hidden slot and saving |
| MixedRows.AddedRowInherits | files/codex-usage@H234598/panel_settings_list.py:891-903 | an opened table in which a new account gets the hidden value of a row that is not shown |

## Left out

- Floating-point rounding and the six-digit `round` of reported numbers: rates and percentages are exact reals.
- The exponential function: only its base per microsecond occurs, as a parameter between 0 and 1.
- Sample objects of other types, datetime range errors, time zones, and the parsing of the smoothing setting.
- HTTP, TLS, redirects, JSON decoding, address redaction, JWT decoding and the extraction of ids from text.
- Plan names: their folding and alias table is a parameter of the identity test.
- The clock of a fetch: what each request and each pause between attempts finds is given.
- Types of the fields of a response beyond strings and numbers: its whole content besides the number is one text.
- Symbolic links, permissions and hard links: a failing validation step stands for them.
- Removing and adding an account again in the sync protocol, which restarts its generation; failures while saving.
- The other fields of the configuration file and its other TOML values; comments inside arrays.
- What a child process prints and the decoding of its answer; `submit`, which only starts the worker thread.
- The lock of the account source: no lock result relies on it.
- Time in runs of lock and hand-over events: giving up may happen at any moment there. Only the single retry loop of a lock has a clock.
- Account ids that are refused before any lock is taken, and errors on opening a lock file.
- GTK widgets, dialogs, cell renderers and the conversion of values by the table model.
- The checks on types, texts and options of a schema column: their outcome is a flag; alignment and other properties that a missing slot copies from the first slot.
- Failing reads and writes of the panel settings, rows that are not dictionaries, and the copy and paste buttons, whose paste is an edit of one row.
- The installers, the command line, service management and health logging.
