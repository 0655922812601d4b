# Parrot tester: a verified model of the frame wrapper

This project models the core of the Talon parrot tester. The tester hooks into the
parrot classifier's `pattern_match` callback. For every audio frame, the hook:

- scores every configured pattern (`detect`, then `add_pattern`);
- sorts the frame's match records (`freeze`) and so fixes a winner;
- keeps the frame in a short pre-roll buffer;
- writes the frame into paged detection logs when a pattern fired;
- groups detections into captures that a timer finalizes 350 ms after the last detection.

Statistics per winning pattern (count, min/sum/max of power, probability and f0..f2) are
rebuilt from the logs and reported with averages. A second, small piece builds the dotted
relative import through which the generated hook reaches the user's integration file.

Modules, one per component of `parrot_integration_wrapper.py`:

- `Frames` (`frames.dfy`): `ParrotTesterFrame` as a class; `STATUS_ORDER`, `freeze` and `winner`.
- `Buffering` (`buffer.dfy`): `Buffer`, the two-segment pre-roll buffer.
- `Captures` (`captures.dfy`): `Capture` and `CaptureCollection`.
- `DetectionLogs` (`detection_log.dfy`): `DetectionLog` and `DetectionLogCollection`.
- `Stats` (`stats.dfy`): `PatternsStats`, with a closed-form specification of `generate`.
- `Detection` (`detect.dfy`): `detect` and the label-probability sum.
- `Tester` (`tester.dfy`): the module globals as one object, the per-frame wrapper, and the wrap/restore guard.
- `ImportPath` (`import_path.dfy`): `build_relative_import_path` from `parrot_integration_paths.py`.
- `Wrappers` (`wrappers.dfy`): `Option`, standing for `None`.

Objects the source shares and updates in place are classes: frames, the buffer, captures,
logs, the statistics and the globals. Everything else is a datatype or a function. The
classifier (`pattern.detect`, `match_pattern`), the timer and the UI are outside the model.
The classifier is a pair of functions passed in. The timer is a pending job with a
`TimerFired` method. The UI's double-pop-pause answer is a boolean out-parameter.

`STATUS_ORDER` ranks `detected` (0) ahead of `grace_detected` (1); the model follows it.

A double-pop pause is part of the model. `end_current_capture` calls `restore_patterns_paused`
(`parrot_integration_controller.py:92-94`), which goes through the generated hook to
`parrot_tester_restore_parrot_integration` with its default `reset_ui_state=True`. So the pause
unwraps the classifier and runs `reset_capture_collection`, even in the middle of `add`.
`Captures` reports the pause as a returned `pausePlayback`; `Tester` runs the restore.

## Model

| member | source | states |
|---|---|---|
| Frames.StatusRank | parrot_integration_wrapper.py:17-22 | The four known statuses rank at most 3; any other status ranks 99 (the `.get(status, 99)` default). |
| Frames.StatusOf | parrot_integration_wrapper.py:59 | The recorded status is `grace_detected` iff grace-detected, else `detected` iff detected, else `throttled` iff throttled; it is always a known status. |
| Frames.Frame.constructor | parrot_integration_wrapper.py:32-47 | A new frame copies ts, power and f0..f2; it has no matches, both flags are false, and every id and offset is None. |
| Frames.Frame.AddPattern | parrot_integration_wrapper.py:49-63 | Above probability 0.1, the record is appended, the name joins `pattern_names`, and each flag becomes old-or-new. At or below 0.1, nothing changes. |
| Frames.Frame.Freeze | parrot_integration_wrapper.py:65-72 | The new match list is the sorted old list. |
| Frames.SortMatchesOrdered | parrot_integration_wrapper.py:65-72 | The sorted list is ordered by status rank, then by descending probability, and is a permutation of the input. |
| Frames.InsertOrdered | parrot_integration_wrapper.py:65-72 | Inserting into an ordered list keeps it ordered and adds exactly that one record. |
| Frames.SortMatchesStable | parrot_integration_wrapper.py:65-72 | The sort is stable: records with equal keys keep their relative order, as Python's `sorted` does. |
| Frames.WinnerOfFrozen | parrot_integration_wrapper.py:79-105 | After `freeze`, the winner is absent iff there are no matches. Otherwise it is a record that sorts before every other, the first one with its key, and `winner_name`, `winner_status` and `winner_probability` read from it. |
| Frames.SortMatches | parrot_integration_wrapper.py:65-72 | Has no contract of its own. `Frames.SortMatchesOrdered` and `Frames.SortMatchesStable` state that it is a stable sort by rank, then descending probability. |
| Frames.Winner | parrot_integration_wrapper.py:79-82 | Has no contract of its own. `Frames.WinnerOfFrozen` states that it is absent iff there are no matches, and otherwise a first-sorting record. |
| Frames.WinnerName | parrot_integration_wrapper.py:84-86 | Has no contract of its own. `Frames.WinnerOfFrozen` states that it is the winner's name. |
| Frames.WinnerProbability | parrot_integration_wrapper.py:99-101 | Has no contract of its own. `Frames.WinnerOfFrozen` states that it is the winner's probability. |
| Frames.WinnerStatus | parrot_integration_wrapper.py:103-105 | Has no contract of its own. `Frames.WinnerOfFrozen` states that it is the winner's status. |
| Frames.CreateId | parrot_integration_wrapper.py:134-136 | The id's millisecond part is the timestamp in ms, truncated as `truncate_stringify` does. Its name part is the frame's winner name. |
| Frames.StatusBeatsProbability | parrot_integration_wrapper.py:17-22 | A detected match at 0.2 wins over a throttled one at 0.9: status dominates probability. |
| Buffering.SlidingBuffer.constructor | parrot_integration_wrapper.py:108-112 | A new buffer has the given size and both segments empty. |
| Buffering.SlidingBuffer.Add | parrot_integration_wrapper.py:114-118 | When the active segment already holds more than `size` frames, it becomes `buffer_last` and the new frame starts a fresh segment; otherwise the frame is appended. The active segment never exceeds `size + 1`. |
| Buffering.SlidingBuffer.Get | parrot_integration_wrapper.py:120-125 | The result holds exactly the frames of `buffer_last + buffer`, less the last one, that are younger than 0.3 s. They appear in buffered order, each once. The last frame is never among them. An empty buffer gives an empty result. |
| Buffering.RecentInOrder | parrot_integration_wrapper.py:125 | The window filter keeps the frames it keeps in their original order. |
| Buffering.RecentMembers | parrot_integration_wrapper.py:125 | The window filter keeps exactly the frames younger than 0.3 s, adds none, and keeps frames distinct. |
| Buffering.RecentIsSuffix | parrot_integration_wrapper.py:125 | With non-decreasing timestamps, the window is a suffix of the frames. |
| Buffering.SlidingBuffer.Clear | parrot_integration_wrapper.py:127-130 | Both segments are empty afterwards. |
| Buffering.SevenFrames | parrot_integration_wrapper.py:108-125 | After seven frames in a buffer of size 5, six frames are archived, one is active, and `get` returns six. |
| Detection.Detect | parrot_integration_wrapper.py:517-526 | `detected` is the classifier's verdict. `grace_detected` implies it, and holds iff the grace window is set, the frame falls before it, and the normal-threshold re-match fails. |
| Detection.UsesGraceThresholds | parrot_integration_wrapper.py:511-512 | Has no contract of its own: the frame falls before `graceperiod_until`. `Detection.Detect` states `grace_detected` in terms of it. |
| Detection.NormalThresholdMatch | parrot_integration_wrapper.py:514-515 | Has no contract of its own: the classifier's match with the grace period forced off. `Detection.Detect` states that `grace_detected` needs it to fail. |
| Detection.InGraceperiod | parrot_integration_wrapper.py:540 | Has no contract of its own: `graceperiod_until` lies after the frame. `Tester.RecordedMatches` states that every kept record carries it as its `graceperiod` flag. |
| Detection.Throttled | parrot_integration_wrapper.py:548-549 | Has no contract of its own: the pattern was throttled and its throttle has not run out at the frame. `Tester.RecordedMatches` and `Frames.StatusOf` state that every kept record's status is built from it. |
| Detection.LabelProbability | parrot_integration_wrapper.py:541 | Has no contract of its own. `Detection.LabelProbabilityAppend`, `Detection.LabelProbabilityBounds` and `Detection.UnknownLabelsAddNothing` state that it is additive, bounded by the label count, and that unknown labels count 0. |
| Detection.LabelProbabilityAppend | parrot_integration_wrapper.py:541 | The probability sum over two label lists is the sum of the two sums. |
| Detection.LabelProbabilityBounds | parrot_integration_wrapper.py:541 | With class scores in [0, 1], the sum lies between 0 and the number of labels. |
| Detection.UnknownLabelsAddNothing | parrot_integration_wrapper.py:541 | Labels missing from the classes contribute 0 (`.get(label, 0)`). |
| DetectionLogs.DetectionLog.constructor | parrot_integration_wrapper.py:253-254 | A new log is empty. |
| DetectionLogs.DetectionLog.Add | parrot_integration_wrapper.py:256-257 | The frame is appended. |
| DetectionLogs.DetectionLog.Clear | parrot_integration_wrapper.py:259-260 | The log is empty afterwards. |
| DetectionLogs.DetectionLog.Id | parrot_integration_wrapper.py:262-263 | The id is None iff the log is empty; otherwise it is the id of the first frame. |
| DetectionLogs.DetectionLogCollection.constructor | parrot_integration_wrapper.py:266-268 | No logs, none open, nothing added. |
| DetectionLogs.DetectionLogCollection.Add | parrot_integration_wrapper.py:270-275 | A new log holding just the frame is opened when none is open or the open one holds 20 frames; otherwise the frame joins the open log. The frame takes the open log's id, and the paging invariant is kept. |
| DetectionLogs.DetectionLogCollection.OpenLog | parrot_integration_wrapper.py:271-273 | The new-log branch: a fresh log holding only the frame is appended and becomes current. |
| DetectionLogs.DetectionLogCollection.ExtendLog | parrot_integration_wrapper.py:274 | The short-log branch: the frame is appended to the open log; the list of logs is unchanged. |
| DetectionLogs.DetectionLogCollection.History | parrot_integration_wrapper.py:277-278 | One id per log, oldest first. |
| DetectionLogs.DetectionLogCollection.CurrentLogFrames | parrot_integration_wrapper.py:280-284 | Has no contract of its own. `DetectionLogs.CurrentLogIsLastPage` states that it is empty before any add, and afterwards the last 20-frame page. |
| DetectionLogs.CurrentLogIsLastPage | parrot_integration_wrapper.py:280-284 | `current_log_frames` is empty before any add; afterwards it is the last page of the 20-frame cut of everything added. |
| DetectionLogs.DetectionLogCollection.GetLogById | parrot_integration_wrapper.py:286-290 | The first log with that id, or null exactly when no log has it. |
| DetectionLogs.DetectionLogCollection.Clear | parrot_integration_wrapper.py:292-294 | No logs and none open afterwards. |
| DetectionLogs.LogsArePagination | parrot_integration_wrapper.py:270-275 | The logs are exactly the cut of all added frames into pages of 20: each log holds 1..20 frames, and only the last may be short. |
| DetectionLogs.LogsHoldEveryFrame | parrot_integration_wrapper.py:270-275 | Reading the logs in order yields every added frame once, in order; the total count equals the number of adds. |
| DetectionLogs.PagedIsPaginate | parrot_integration_wrapper.py:270-275 | A paged history is the cut of its own frames, so the cut is the only possible paging. |
| DetectionLogs.PaginateShape | parrot_integration_wrapper.py:270-275 | The reference cut loses no frame; its pages hold 1..20 frames, all full but the last. |
| DetectionLogs.PaginateSnoc | parrot_integration_wrapper.py:271-274 | One more frame opens a new page exactly when there is none or the last is full; otherwise it lengthens the last page. |
| DetectionLogs.OpenPageKeepsPaged | parrot_integration_wrapper.py:271-273 | Opening a page with one frame keeps a paged history paged and appends the frame. |
| DetectionLogs.ExtendPageKeepsPaged | parrot_integration_wrapper.py:274 | Lengthening a short last page keeps a paged history paged and appends the frame. |
| Captures.Capture.constructor | parrot_integration_wrapper.py:139-149 | The frames are the pre-roll then the detect frame, which is the only detect entry. The id comes from the detect frame, which takes it as `capture_id`. The names are the union of the frames' names. |
| Captures.Capture.AddFrame | parrot_integration_wrapper.py:172-174 | The frame is appended and its names are added; the detect entries are unchanged. |
| Captures.Capture.AddDetectFrame | parrot_integration_wrapper.py:176-181 | The frame is appended, recorded as a detect frame at its index, and takes the capture id. |
| Captures.Capture.DetectedTwoPops | parrot_integration_wrapper.py:183-185 | Has no contract of its own. `Captures.Capture.DetectedTwoPopsIff` states that it holds iff two different detect frames are won by "pop". |
| Captures.Capture.DetectedTwoPopsIff | parrot_integration_wrapper.py:183-185 | Two pops are detected iff two different detect frames have "pop" as winner. |
| Captures.PopCountAtLeastTwo | parrot_integration_wrapper.py:184-185 | The pop count reaches 2 iff two different positions hold frames won by "pop". |
| Captures.CountTrueAtLeastTwo | parrot_integration_wrapper.py:184 | Counting reaches 2 iff two different entries hold. |
| Captures.Capture.DetectFrames | parrot_integration_wrapper.py:151-152 | One frame per detect entry, in the same order: the frame half of each `(frame, index)` pair. |
| Captures.Capture.DetectedPatternNames | parrot_integration_wrapper.py:155-167 | The names matched on detect frames, first occurrence first, each once, and no others. |
| Captures.Capture.AppendNewNames | parrot_integration_wrapper.py:160-165 | One frame's matches extend the de-duplicated list by the names not seen yet, and the seen set stays equal to the list's members. |
| Captures.DedupMembers | parrot_integration_wrapper.py:155-167 | De-duplication keeps every name, adds none, and leaves no repeats. |
| Captures.Capture.OtherPatternNames | parrot_integration_wrapper.py:169-170 | A name is reported iff the capture saw it and no detect frame matched it. |
| Captures.Capture.Complete | parrot_integration_wrapper.py:187-192 | Frame `i` gets index `i` and id `i + 1`. Its `ts_delta` is taken from the first detect frame and its `ts_zero_based` from the first frame. |
| Captures.CaptureCollection.constructor | parrot_integration_wrapper.py:198-201 | No captures, none open, no job. |
| Captures.CaptureCollection.Arm | parrot_integration_wrapper.py:217 | A new job with a fresh handle, due 0.35 s after the frame, is scheduled. |
| Captures.CaptureCollection.EndCurrentCapture | parrot_integration_wrapper.py:224-243 | No-op when nothing is open. Otherwise the capture is completed and closed, and its job is cancelled. The list of captures is unchanged. A pause is asked for iff the option is on and the capture detected two pops. |
| Captures.CaptureCollection.EndOpenCapture | parrot_integration_wrapper.py:225-243 | The branch with a capture open: it is completed and closed, its job cancelled, and a pause asked for iff the option is on and it detected two pops. |
| Captures.CaptureCollection.TimerFired | parrot_integration_wrapper.py:217 | The timer's callback: the open capture is completed and closed with the same pause verdict. |
| Captures.CaptureCollection.Add | parrot_integration_wrapper.py:203-222 | A full capture (50 frames) is ended first, with the same pause verdict as `end_current_capture`. An active frame opens exactly one new capture seeded from the buffer (its id is `create_id_from_frame` of the frame and its names are the union of its frames' names), or becomes a detect frame of the open one (it keeps its id and its names grow by the frame's names); the old job is cancelled and one re-armed. An inactive frame extends the open capture the same way but as a plain frame, or is dropped. An inactive frame's capture id is never set, and when no capture is ended every frame of the open capture is left as it was. |
| Captures.CaptureCollection.AddAfterFull | parrot_integration_wrapper.py:205-219 | `add` when the open capture holds 50 frames: it is completed and closed with the pause verdict of `end_current_capture`. Then an active frame opens a new capture seeded from the buffer (its id from the frame, its names its frames' names) and re-arms exactly one job; an inactive frame is dropped, not stamped, and the job stays cancelled. |
| Captures.CaptureCollection.Place | parrot_integration_wrapper.py:207-219 | The part of `add` after the size check, with the same three cases: a new capture takes the frame's id and its frames' names; an extended one keeps its id and gains the frame's names. An inactive frame's capture id is left alone, and every frame already in the open capture is unchanged. |
| Captures.CaptureCollection.AddActive | parrot_integration_wrapper.py:207-216 | The active branch: open (id from the frame, names of the seeded frames) or extend as a detect frame (same id, names grown by the frame's), then exactly one pending job for this frame. |
| Captures.CaptureCollection.Rearm | parrot_integration_wrapper.py:215-217 | The pending job, if any, is cancelled and exactly one new job, due 0.35 s after the frame, is scheduled under a fresh handle. |
| Captures.CaptureCollection.OpenOrExtend | parrot_integration_wrapper.py:208-213 | A capture seeded with `buffer.get(ts) + [frame]` is opened and appended, with its id is `create_id_from_frame` of the frame and its names are the union of its frames' names; or the frame becomes the open capture's last detect frame, and it keeps its id and its names grow by the frame's names. |
| Captures.CaptureCollection.Clear | parrot_integration_wrapper.py:245-250 | No captures, none open, the job cancelled. |
| Stats.MinExt | parrot_integration_wrapper.py:325 | `min` over the extended reals: a lower bound of both arguments, and one of them. |
| Stats.MaxExt | parrot_integration_wrapper.py:327 | `max` over the extended reals: an upper bound of both arguments, and one of them. |
| Stats.BumpNone | parrot_integration_wrapper.py:321-322 | A missing value leaves the record unchanged. |
| Stats.BumpWellFormed | parrot_integration_wrapper.py:319-327 | Folding in a value keeps a well-formed record well-formed and its count unchanged. |
| Stats.IncludeWellFormed | parrot_integration_wrapper.py:324-327 | Folding a value into one metric keeps it well-formed. |
| Stats.SampleOf | parrot_integration_wrapper.py:331-354 | A frame counts iff it has matches and its winner has a name. It then counts for that name, with the frame's power and f0..f2 and the winner's probability. |
| Stats.RecordGet | parrot_integration_wrapper.py:343-354 | One counted frame raises the count by 1 and folds its value into each metric once. |
| Stats.ResetAll | parrot_integration_wrapper.py:360-365 | Every known pattern is kept and its record reset to the empty one. |
| Stats.AddSample | parrot_integration_wrapper.py:329-354 | Has no contract of its own. `Stats.PatternsStats.AddFrame` states that `add_frame` is this function of the frame's sample, and `Stats.RecordGet` what one sample adds. |
| Stats.Replay | parrot_integration_wrapper.py:368-372 | Has no contract of its own. `Stats.ReplayAt`, `Stats.ReplayKeys` and `Stats.GenerateIdempotent` state its keys, each pattern's record, and idempotence. |
| Stats.ReplayAt | parrot_integration_wrapper.py:368-372 | After the replay, a pattern is present iff it was present or won a frame. Its record is its old (or empty) record after exactly the frames it won, in order. |
| Stats.ReplayKeys | parrot_integration_wrapper.py:368-372 | The replay creates records exactly for the patterns that won a frame. |
| Stats.GenerateIdempotent | parrot_integration_wrapper.py:356-375 | `generate` twice over the same logs gives what it gave once. |
| Stats.RecordAllMetric | parrot_integration_wrapper.py:343-354 | A record built from empty counts its frames and aggregates each metric over their values. |
| Stats.RecordAllWellFormed | parrot_integration_wrapper.py:319-354 | A record built from samples has no minimum at -inf and no maximum at +inf. |
| Stats.IncludeAllWellFormed | parrot_integration_wrapper.py:319-327 | The aggregate is well-formed, and its minimum stays +inf iff every value was missing. |
| Stats.IncludeAllBetween | parrot_integration_wrapper.py:319-327 | Every present value lies between min and max, and `sum` is the sum of the present values. |
| Stats.IncludeAllAttained | parrot_integration_wrapper.py:319-327 | A finite min or max is one of the values. |
| Stats.Summarize | parrot_integration_wrapper.py:384-387 | A bound still at its starting infinity reports 0, and finite bounds are reported as they are. A total of 0 reports an average of 0; a positive total times the average gives back the sum. |
| Stats.ReportOf | parrot_integration_wrapper.py:377-411 | A report has the pattern's name and count, and each metric is summarized against the pattern's total. |
| Stats.SummaryBounds | parrot_integration_wrapper.py:384-387 | With no values the report is all zeros; otherwise every present value lies between the reported min and max. |
| Stats.SummaryAverageIsMean | parrot_integration_wrapper.py:384-387 | Over one or more frames, the average is the sum of the values present divided by the number of frames; a frame without the metric still counts in the denominator. |
| Stats.SummaryAverage | parrot_integration_wrapper.py:384-387 | When every frame carries the metric, the reported average lies between the reported min and max. |
| Stats.ReportOfSamples | parrot_integration_wrapper.py:377-411 | For a pattern's report built from the frames it won: all zeros with no frames, and every present value between min and max. |
| Stats.ReportAverageIsMean | parrot_integration_wrapper.py:377-411 | For a pattern's report built from the frames it won, each metric's average is the sum of the values those frames carry divided by `total_frames`, the number of frames. |
| Stats.ReportAverageOfSamples | parrot_integration_wrapper.py:377-411 | For the same report, when every frame carries the metric, min <= average <= max. |
| Stats.PatternsStats.constructor | parrot_integration_wrapper.py:297-304 | One empty record, with a total of 0, for every configured pattern. |
| Stats.PatternsStats.InitializePatternStats | parrot_integration_wrapper.py:306-317 | Adds an empty record and a total of 0 for a pattern not seen yet; nothing changes otherwise. |
| Stats.PatternsStats.UpdateMetric | parrot_integration_wrapper.py:319-327 | Folds the value into min, sum and max of one metric of one pattern; a None value changes nothing. |
| Stats.PatternsStats.AddFrame | parrot_integration_wrapper.py:329-354 | The statistics become the old ones with the frame's sample added: the winner, created when missing, is counted with its five metrics. |
| Stats.PatternsStats.CountFrame | parrot_integration_wrapper.py:343-345 | The pattern's count and its `total_frames` entry both go up by 1. |
| Stats.PatternsStats.UpdateMetrics | parrot_integration_wrapper.py:347-354 | The five `_update_metric` calls, in the source's order. |
| Stats.PatternsStats.GetStats | parrot_integration_wrapper.py:377-411 | One report per known pattern, averaged over the pattern's own count (equal to `total_frames`). |
| Stats.PatternsStats.Generate | parrot_integration_wrapper.py:356-375 | The statistics become the replay of every logged frame, in log order, over the reset records; the report is `get_stats` of that. |
| Stats.PatternsStats.Rebuild | parrot_integration_wrapper.py:358-372 | The reset, then every logged frame through `add_frame`, in order. |
| Stats.PatternsStats.ReplayLog | parrot_integration_wrapper.py:369-372 | One pass of the outer loop extends the replay by one log's frames. |
| Stats.PatternsStats.ResetStats | parrot_integration_wrapper.py:360-366 | Every record is reset and every total set to 0, keeping the patterns. |
| Stats.PatternsStats.ResetRecords | parrot_integration_wrapper.py:360-365 | The reset loop over the known patterns. |
| Stats.InSync | parrot_integration_wrapper.py:356-375 | Has no contract of its own: `generate` over the logged samples would rebuild exactly these statistics. `Stats.AddSampleKeepsSync` and `Tester.Tester.InitStats` state when it holds. |
| Stats.AddSampleKeepsSync | parrot_integration_wrapper.py:329-375 | Statistics in step with the logged samples stay in step when the next logged frame is added once by `add_frame`. |
| Stats.RegenerateAt | parrot_integration_wrapper.py:356-375 | After one more `add_frame`, regenerating from the earlier samples gives back every record, with the new winner's record as it was before (or empty). |
| Stats.ReplaySnoc | parrot_integration_wrapper.py:370-372 | Replaying one more frame is one more `add_frame`. |
| Stats.LoggedFrameCountedTwice | parrot_integration_wrapper.py:428-442 | Fresh statistics generated from a log holding one frame count it once; adding that frame again counts it twice, and the result is not what `generate` builds from the log. |
| Stats.PatternsStats.AddFrames | parrot_integration_wrapper.py:370-372 | The frames of one log are replayed in order. |
| Tester.DetectedCountActive | parrot_integration_wrapper.py:554-555 | At least one detection iff some name is active; never more detections than patterns. |
| Tester.ActiveNamesDetected | parrot_integration_wrapper.py:554-555 | A name is active iff a pattern of that name was detected. |
| Tester.KeptAgreesWithRecorded | parrot_integration_wrapper.py:49-63 | `pattern_names` gathers exactly the names of the recorded matches. `detected` holds iff some recorded match is detected or grace-detected, and `grace_detected` iff some is grace-detected. |
| Tester.RecordedMatches | parrot_integration_wrapper.py:538-552 | A record is kept only for patterns above 0.1, and it carries that pattern's name, labels, probability and status. |
| Tester.GuardIdempotent | parrot_integration_wrapper.py:597-608 | Wrapping twice wraps once; restoring twice restores once. |
| Tester.RestoreUndoesWrap | parrot_integration_wrapper.py:597-608 | Restoring after a wrap reinstalls the callback found before it. |
| Tester.Tester.constructor | parrot_integration_wrapper.py:422-426 | The initial globals: an empty buffer of size 5, no captures, no logs, no statistics, and the classifier's own callback. |
| Tester.Tester.Wrap | parrot_integration_wrapper.py:597-602 | The wrapper is installed only when no original is stored. |
| Tester.Tester.Restore | parrot_integration_wrapper.py:604-611 | The original is put back only when one is stored. With the reset flag, the buffer, captures and logs are emptied, the statistics dropped and log events stopped. Without it, the buffer, captures, logs, statistics and log-event flag are unchanged. |
| Tester.Tester.InitStats | parrot_integration_wrapper.py:428-435 | With no statistics, new ones are created for the configured patterns and generated from every logged frame; existing ones are regenerated in place. Either way they end in step with the logs. |
| Tester.Tester.GenerateStats | parrot_integration_wrapper.py:433 | The statistics are rebuilt from every logged frame, in log order, and end in step with the logs. |
| Tester.Tester.AddFrameToStats | parrot_integration_wrapper.py:437-442 | As written: existing statistics take the frame once. With none, they are generated from the logs and then take the frame again; when the logs hold just that frame and it has a winner, the result is out of step with the logs. |
| Tester.Tester.AddLoggedFrameToStats | parrot_integration_wrapper.py:437-442 | Corrected: with no statistics they are generated from the logs, which already hold the frame, and it is not added again. Existing statistics take the frame once. Statistics in step with the logs before the frame stay in step after it. |
| Tester.Tester.ResetCaptureCollection | parrot_integration_wrapper.py:478-487 | Empties the buffer, captures and logs, drops the statistics and stops log events. |
| Tester.Tester.ScorePattern | parrot_integration_wrapper.py:539-552 | One pattern: it reports the classifier's verdict. Above 0.1, its record (summed probability, throttle and grace flags) is appended, its name joins `pattern_names`, and `detected`/`grace_detected` become old-or-new. Otherwise nothing changes. |
| Tester.Tester.ScorePatterns | parrot_integration_wrapper.py:538-555 | The loop appends the kept records in pattern order, adds their names to `pattern_names`, sets `detected`/`grace_detected` iff some kept record has them, and returns exactly the detected names. |
| Tester.Tester.ScorePatternsAsWritten | parrot_integration_wrapper.py:538-558 | The loop as written logs the frame once per detected pattern. |
| Tester.Tester.ScoreAndLogNext | parrot_integration_wrapper.py:538-558 | One pass of that loop, stated over the prefix of patterns done so far. |
| Tester.Tester.ScoreAndLog | parrot_integration_wrapper.py:539-558 | One pattern, as written: score it, and log the frame again if it was detected. |
| Tester.Tester.EnterBuffer | parrot_integration_wrapper.py:535-536 | A fresh frame built from the classifier's frame becomes the buffer's last. |
| Tester.Tester.ScoreAndFreeze | parrot_integration_wrapper.py:538-560 | The loop then `freeze`: the matches end up as the sorted kept records, with the names and flags of `Tester.Tester.ScorePatterns`. |
| Tester.Tester.NewScoredFrame | parrot_integration_wrapper.py:534-560 | A fresh frame with the classifier frame's timestamp and power becomes the buffer's last. It holds the sorted kept records, their names, and the two flags, and has no ids yet. |
| Tester.Tester.LogFrame | parrot_integration_wrapper.py:554-558 | An active frame is logged once and takes the open log's id. An inactive frame is not logged and its id is unchanged. A log holding each frame once still does. |
| Tester.Tester.ScoreFrame | parrot_integration_wrapper.py:534-560 | The corrected steps before `capture_collection.add`. The new frame is the buffer's last, holds the sorted kept records, their names and flags. An active frame is logged exactly once and takes the log's id; a frame with no detection is not logged and has no log id. A log holding each frame once still does. |
| Tester.Tester.ScoreFrameAsWritten | parrot_integration_wrapper.py:534-560 | The as-written steps: the log grows by one copy of the frame per detected pattern. |
| Tester.Tester.Capture | parrot_integration_wrapper.py:203-222 | `capture_collection.add` for the buffered frame, with the pause run. A pause happens iff a full capture was ended with the option on and two pops; it then restores the callback and empties everything. An active frame joins the open capture as a detect frame, or opens one seeded from the buffer (from nothing after a pause), whose id is `create_id_from_frame` of the frame and whose names are its frames' names; the frame takes the capture's id and exactly one job is re-armed for it. An extended capture keeps its id and gains the frame's names. An inactive frame extends the open capture and leaves the job alone, or is dropped. An inactive frame's capture id is left alone, and when no capture is ended every frame of the open capture is unchanged. |
| Tester.Tester.CaptureWithRoom | parrot_integration_wrapper.py:207-219 | `add` when no capture is full: the same three placements (a new capture with the frame's id and its frames' names; an extended one with its id kept and the frame's names added), and the buffer, logs and globals are unchanged. An inactive frame's capture id is left alone, and every frame of the open capture is unchanged. |
| Tester.Tester.CaptureAfterFull | parrot_integration_wrapper.py:205-219 | `add` when the open capture is full: it is ended with its pause verdict, then an active frame opens a new capture (from nothing after a pause) with the frame's id and its frames' names, and an inactive one is dropped. A dropped frame's capture id is left alone. |
| Tester.Tester.OpenOrDrop | parrot_integration_wrapper.py:207-219 | With nothing open, an active frame opens a capture seeded from the buffer, with the frame's id and the names of its frames, and arms its job; an inactive one is dropped; the buffer and logs are unchanged. A dropped frame's capture id is left alone. |
| Tester.Tester.EndCapture | parrot_integration_wrapper.py:224-243 | `end_current_capture` with its pause run. Everything is closed and no job is left. A pause happens iff a capture was open, the option is on and it detected two pops; it restores the callback and empties buffer, captures, logs and statistics. Without a pause, those are unchanged. |
| Tester.Tester.PauseIfAsked | parrot_integration_controller.py:92-94 | When asked, the pause restores the callback and runs the reset; otherwise nothing changes. |
| Tester.Tester.TimerFired | parrot_integration_wrapper.py:217 | The timer's `end_current_capture`, with the same pause and reset as `Tester.Tester.EndCapture`. |
| Tester.Tester.ProcessFrame | parrot_integration_wrapper.py:533-561 | The whole wrapper for one frame. It returns the detected names. An active frame is logged once (unless a pause then empties the logs), and a log holding each frame once still does. A pause needs the option and a full capture, and restores and resets. Without a pause, the guard, statistics and log events are unchanged. The frame is placed by the three cases of `Tester.Tester.Capture`: a new capture has the frame's id and its frames' names, an extended one keeps its id and gains the frame's names. An inactive frame keeps no capture id, and when no capture is ended every frame of the open capture is unchanged. |
| Tester.TwoDetectionsLogTwice | parrot_integration_wrapper.py:554-558 | Two patterns detected in one frame make the loop as written log that frame twice, so the log no longer holds each frame once. |
| ImportPath.BuildRelativeImportPath | parrot_integration_paths.py:155-181 | Has no contract of its own. `ImportPath.BuildFailsIffInvalid`, `ImportPath.ParseBuild` and `ImportPath.ParseBuildEmptyTarget` state when it fails and what it builds. |
| ImportPath.IsIdentifier | parrot_integration_paths.py:157 | Has no contract of its own. `ImportPath.IdentifierHasNoDot` states that an identifier is non-empty and holds no dot. |
| ImportPath.BuildFailsIffInvalid | parrot_integration_paths.py:155-175 | The error is raised iff some part of the target is not an identifier, and it names every such part and no other. |
| ImportPath.ParseBuild | parrot_integration_paths.py:177-181 | For a valid, non-empty target, the result reads back as `len(current.parts)` dots (at least one), then the separator, then exactly the target's parts in order. |
| ImportPath.ParseBuildEmptyTarget | parrot_integration_paths.py:177-181 | An empty target yields the prefix and separator, which splits to one empty name. |
| ImportPath.SplitJoin | parrot_integration_paths.py:179-181 | Joining parts without dots by "." and splitting the result gives the parts back. |
| ImportPath.IdentifierHasNoDot | parrot_integration_paths.py:157 | An identifier is non-empty and holds no dot. |
| ImportPath.InvalidPartsOf | parrot_integration_paths.py:157 | The filter keeps only non-identifiers, and is empty iff every part is an identifier. |

## Left out

- Talon UI calls (`ui_elements_*`, tab checks, `highlight_briefly`, `populate_detection_log_state`) are display side effects and are not modelled. The UI's answer to "double pop pause?" is the boolean parameter `doublePopPause`. Of the pause, the restore and reset are modelled; `disable_parrot_tester_tag`, turning `play` off and the hints toggle are UI state and are not.
- `cron.after`/`cron.cancel` are a pending job and a set of scheduled handles; the scheduler's clock is taken to be the frame clock, so the job is due 0.35 s after the arming frame's timestamp.
- `pattern.detect` and `match_pattern` are the functions of `Detection.Classifier`. `get_throttles` and `throttle_patterns` are not modelled: the model computes each pattern's `throttled` flag, and so its status, from the timestamps the patterns had when the frame arrived. In the source a detection inside the loop can throttle patterns scored later in the same frame, changing their `throttled` flag, their status and possibly their classifier verdict; the model does not capture that. The Findings input uses two patterns that do not throttle each other, so it is unaffected.
- `get_color` is the parameter `colorOf`; `get_patterns_json` is the parameter of `Stats.PatternsStats.constructor`; the winner's power thresholds (lines 87-97) read global configuration and are not modelled.
- `truncate_stringify`, `format`, `format_stats_multiline` and `print` are formatting and output. `create_id_from_frame` is `Frames.CreateId`, a value of the millisecond-truncated timestamp and the winner name; its string form is not modelled.
- Floating point is modelled by exact reals: the probability sum, the metric sums and the averages have no rounding.
- `determine_grace_detected` and `is_grace_detected` are never called by the wrapper. `update_stats_state`, `reset_stats`, `listen_log_events`, `detected_log`, `set_detection_log_state_by_id` and `get_current_log_by_id` only feed the UI or forward to modelled members.
- `PatternsStats.clear` re-runs the constructor's initialization; it is modelled by `Stats.PatternsStats.constructor`.
- Stats.Summarize: a minimum at -inf or a maximum at +inf would be reported as is by the source but as 0 by the model; neither value occurs in a record built by `_update_metric` (`Stats.RecordAllWellFormed`).
- Tester.Tester.ProcessFrame: models the wrapper with the statistics tab not shown. With it shown, the source also runs `add_frame_to_stats` for an active frame (wrapper.py:570-571), which changes the statistics; `Tester.Tester.AddFrameToStats` models that call on its own. The other tabs only feed the UI.
- Tester.Tester.ProcessFrame: states the pause only as an implication (a pause needs the option and a full capture); the exact verdict is stated by `Tester.Tester.Capture` and `Captures.CaptureCollection.Add`.
- Tester.Tester.ProcessFrame: does not restate the frame's matches, names, flags, log id, or that it is the buffer's last; `Tester.Tester.ScoreFrame` states them for the first step, and restating them after the capture step was too costly to verify.
- Tester.Tester.ProcessFrame, Tester.Tester.Capture, Tester.Tester.EndCapture and Tester.Tester.TimerFired: do not restate that the ended capture is completed; `Captures.CaptureCollection.EndCurrentCapture` and `Captures.CaptureCollection.Add` state it.
- Captures.CaptureCollection.Add, Captures.CaptureCollection.EndCurrentCapture and Captures.CaptureCollection.TimerFired: return the pause as `pausePlayback` instead of running `restore_patterns_paused`; `Tester.Tester.Capture`, `Tester.Tester.EndCapture` and `Tester.Tester.TimerFired` run it.
- Tester.Tester.LogFrame and Tester.Tester.ScoreFrame: log the frame after `freeze`, where the source logs inside the loop before it; the log's id (`create_id_from_frame` of its first frame, with the winner name) is therefore taken from the sorted matches.
- Buffering.SlidingBuffer.Add: requires the frame not to be buffered already; the wrapper always adds a frame it has just created.
- Captures.CaptureCollection.Add: requires the frame to be the buffer's last and not yet in the open capture, which is how the wrapper calls it.
- ImportPath.IsIdentifier: checks ASCII identifiers only; Python's `str.isidentifier` also accepts non-ASCII letters, which the model rejects. Paths are given as their parts; `Path` parsing and the error message text are not modelled, only the offending parts.
- The rest of `parrot_integration_paths.py` (file search, file reads, code generation), `parrot_integration_controller.py` other than `restore_patterns_paused`, `parrot_tester.py` and `ui/*` are not part of this model.

## Findings

| source | as written | input that shows it | evidently intended | confidence | as-written member | corrected member |
|---|---|---|---|---|---|---|
| parrot_integration_wrapper.py:554-558 | `detection_log_collection.add(frame)` runs inside the per-pattern loop, once for every detected pattern | one frame in which two patterns ("pop" and "hiss", neither throttling the other) are both detected: the log receives that frame twice, and `generate` counts its winner twice | log each active frame once, after the loop (the model logs after `freeze`) | medium; not executed | Tester.Tester.ScoreFrameAsWritten, Tester.TwoDetectionsLogTwice | Tester.Tester.ScoreFrame |
| parrot_integration_wrapper.py:437-442 | with no statistics, `add_frame_to_stats` calls `init_stats`, whose `generate` already replays the logs holding the frame, and then `add_frame` adds the frame again | the statistics tab is shown after a reset (`patterns_stats` is None) and one active frame with a winner arrives: the log holds it once, the statistics count it twice | count each logged frame once: skip `add_frame` when `init_stats` has just run | medium; not executed | Tester.Tester.AddFrameToStats, Stats.LoggedFrameCountedTwice | Tester.Tester.AddLoggedFrameToStats |
