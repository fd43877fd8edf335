# Air-traffic monitoring system: a Dafny model of its core

The system is a set of cooperating processes that share memory regions:

- a **radar** keeps a table of aircraft slots and advances their positions every second;
- a **communication** process relays speed-change commands from a command area to an aircraft table;
- a **computer** scans every pair of aircraft for current and predicted separation violations, queues the alerts, and publishes aircraft and alert frames;
- a **visual display** reads the published aircraft frame back into records.

This project models the sequential logic of those processes and proves what it promises.

The modules are:

- **`AircraftModel`** (`aircraft.dfy`): the `Aircraft` class of `Aircraft.h`, with its fields, constructor, getters, setters and kinematic step.
- **`ConflictDetector`** (`conflict_detector.dfy`):
  - the detector of `Computer.cpp`, which `Computer.h` duplicates as methods: the separation test, the linear and quadratic first-time solvers, and the collision check;
  - the alert priority chain of `checkAircraftPair`.
- **`Alerts`** (`alerts.dfy`):
  - the `Alert` ordering;
  - `priority_queue<Alert>` as a class holding a multiset;
  - the drain loop.
- **`Monitoring`** (`monitoring.dfy`):
  - the nested `i < j` pair loops and their visiting order;
  - what a scan pushes;
  - `main` of `Computer.cpp`.
- **`Frames`** and **`ComputerEngine`** (`frames.dfy`, `computer.dfy`):
  - the class `Computer` of `Computer.h`, with its roster, alert queue, per-publisher version counter, semaphore flag and stop flag;
  - one pass of each of its five thread loops;
  - the published frame: a region zeroed, the version at offset 0, then the records one after another.
- **`Radar`** (`radar.dfy`): the slot table of `Radar.cpp`, covering initialisation, the `printData` tick, `changeSpeed` and the request loop of `changeParameters`.
- **`IntExtraction`** and **`Communication`** (`int_extraction.dfy`, `communication.dfy`):
  - `istream >> int`;
  - the region layout and `CommunicationCommand` of `Communication.cpp`.
- **`Termination`** (`termination.dfy`): `checkTermination` and the acknowledgement write of both the radar and the communication process.
- **`VisualDisplay`** (`visual_display.dfy`): the frame-to-records parse loop and the end-of-cycle clearing of the display vectors.
- **`Bytes`**, **`SharedRecords`** and **`Wrappers`**: support modules.
  - `Bytes` holds bytes, C strings and 4-byte little-endian `int`.
  - `SharedRecords` holds the `SharedAircraft` slot record and truncating `double`-to-`int` conversion.
  - `Wrappers` holds `Option`.

Arithmetic is exact: `double` becomes `real`.

- Square roots come from a function parameter `sqrt` that satisfies `IsSqrt`: for x ≥ 0, the result is non-negative and squares to x.
- The `infinity` initial value of the horizontal time is the `Inf` case of `Ext`.
- Aircraft IDs are `int`, as in `Aircraft.h`. The string IDs "A1".."A10" of the `Computer` rosters become 1..10, and their entry time "12:00" becomes 1200.

## Model

| member | source | states |
|---|---|---|
| AircraftModel.Advance | Aircraft.h:117-122 | each coordinate moves by its speed times the elapsed time; every other field is unchanged |
| AircraftModel.AdvanceZero | Aircraft.h:119-121 | a step of zero seconds leaves the aircraft as it was |
| AircraftModel.AdvanceAdditive | Aircraft.h:117-122 | a step of `a` seconds and then `b` seconds equals one step of `a + b` seconds |
| AircraftModel.Aircraft.constructor | Aircraft.h:13-25 | each argument is stored in its own field, the violation flag included |
| AircraftModel.Aircraft.GetTime | Aircraft.h:28-31 | returns the entry time the object holds |
| AircraftModel.Aircraft.GetAircraftID | Aircraft.h:38-41 | returns the ID the object holds |
| AircraftModel.Aircraft.GetPositionX | Aircraft.h:48-51 | returns the x position the object holds |
| AircraftModel.Aircraft.GetPositionY | Aircraft.h:58-61 | returns the y position the object holds |
| AircraftModel.Aircraft.GetPositionZ | Aircraft.h:68-71 | returns the z position the object holds |
| AircraftModel.Aircraft.GetSpeedX | Aircraft.h:78-81 | returns the x speed the object holds |
| AircraftModel.Aircraft.GetSpeedY | Aircraft.h:88-91 | returns the y speed the object holds |
| AircraftModel.Aircraft.GetSpeedZ | Aircraft.h:98-101 | returns the z speed the object holds |
| AircraftModel.Aircraft.GetIsViolation | Aircraft.h:108-110 | returns the violation flag the object holds |
| AircraftModel.Aircraft.SetTime | Aircraft.h:33-36 | only the entry time changes, and the getter then returns the value set |
| AircraftModel.Aircraft.SetAircraftID | Aircraft.h:43-46 | only the ID changes, and the getter then returns the value set |
| AircraftModel.Aircraft.SetPositionX | Aircraft.h:53-56 | only the x position changes, and the getter then returns the value set |
| AircraftModel.Aircraft.SetPositionY | Aircraft.h:63-66 | only the y position changes, and the getter then returns the value set |
| AircraftModel.Aircraft.SetPositionZ | Aircraft.h:73-76 | only the z position changes, and the getter then returns the value set |
| AircraftModel.Aircraft.SetSpeedX | Aircraft.h:83-86 | only the x speed changes, and the getter then returns the value set |
| AircraftModel.Aircraft.SetSpeedY | Aircraft.h:93-96 | only the y speed changes, and the getter then returns the value set |
| AircraftModel.Aircraft.SetSpeedZ | Aircraft.h:103-106 | only the z speed changes, and the getter then returns the value set |
| AircraftModel.Aircraft.SetIsViolation | Aircraft.h:112-114 | only the violation flag changes, and the getter then returns the value set |
| AircraftModel.Aircraft.UpdatePosition | Aircraft.h:117-122 | the new state is the old one advanced by the elapsed time, so speeds, ID, time and flag stay |
| ConflictDetector.ViolationSymmetric | Computer.cpp:94-100 | the separation test gives the same answer with the two aircraft swapped |
| ConflictDetector.ViolationIgnoresVelocity | Computer.cpp:94-100 | the separation test depends on positions only |
| ConflictDetector.ViolationStrictAtThresholds | Computer.cpp:94-100 | the bounds are strict: being 3000 ft apart on both horizontal axes, or 1000 ft apart vertically, is no violation |
| ConflictDetector.SolveQuadraticFirstTime | Computer.cpp:102-118 | any result is a non-negative root of A t² + B t + (C − R²); there is none exactly when no non-negative root exists; with A > 0 the result is the earliest non-negative root |
| ConflictDetector.QuadraticRoots | Computer.cpp:105-110 | with a non-negative discriminant, the two roots the solver forms are exactly the roots, ordered when A > 0 |
| ConflictDetector.QuadraticNoRoots | Computer.cpp:105-106 | with a negative discriminant there is no root |
| ConflictDetector.ThresholdShift | Computer.cpp:103 | subtracting R² from C shifts the quadratic by R² |
| ConflictDetector.LinearRoot | Computer.cpp:131-132 | with dvz ≠ 0, dz0 + dvz t reaches a level exactly at t = (level − dz0) / dvz |
| ConflictDetector.SolveLinearFirstTime | Computer.cpp:120-142 | with dvz = 0: time 0 exactly when \|dz0\| ≤ R, and then the separation stays within R for all time. Otherwise: any result is a non-negative time with \|dz0 + dvz t\| = R and is the earliest such time; there is none exactly when no such time exists |
| ConflictDetector.QuadraticIsHorizontalDistance | Computer.cpp:150-159 | the coefficients A, B, C make A t² + B t + C the squared horizontal distance of the pair at time t |
| ConflictDetector.NoRelativeHorizontalMotion | Computer.cpp:157-164 | A = 0 means equal horizontal speeds, and then the horizontal distance never changes |
| ConflictDetector.SqrtAtMost | Computer.cpp:164 | the test sqrt(C) ≤ 3000 holds exactly when C ≤ 3000² |
| ConflictDetector.HorizontalFirstTime | Computer.cpp:161-164 | without relative horizontal motion the time is left at infinity or the pair is invalid; with it, the time is finite or there is none |
| ConflictDetector.HorizontalQuadratic | Computer.cpp:164 | the quadratic given to the solver is the squared horizontal distance less 3000² |
| ConflictDetector.HorizontalFirstTimeStatic | Computer.cpp:164 | without relative horizontal motion the pair is valid, with infinite time, exactly when it always stays within 3000 ft |
| ConflictDetector.HorizontalFirstTimeMoving | Computer.cpp:164 | with relative horizontal motion the horizontal time is the earliest non-negative time at which the pair is exactly 3000 ft apart; there is none exactly when that never happens |
| ConflictDetector.VerticalFirstTime | Computer.cpp:165 | the vertical time, when found, is non-negative |
| ConflictDetector.OffsetZIsLinear | Computer.cpp:152-155 | the vertical offset at time t is dz0 + dvz t |
| ConflictDetector.AtThresholdIsOffset | Computer.cpp:165 | the solver's threshold condition is the vertical offset being exactly 1000 ft |
| ConflictDetector.VerticalFirstTimeStatic | Computer.cpp:165 | without vertical relative motion the vertical time, which is 0, exists exactly when the pair stays within 1000 ft for all time |
| ConflictDetector.VerticalFirstTimeMoving | Computer.cpp:165 | with vertical relative motion the vertical time is the earliest non-negative time at which the pair is exactly 1000 ft apart vertically; there is none exactly when that never happens |
| ConflictDetector.CollisionCheck | Computer.cpp:144-183 | true exactly when both times are found and finite and both are within 120 s. The time is then their maximum, so it lies in [0, 120]. Otherwise the result is (false, −1) |
| ConflictDetector.NoPredictionWithoutHorizontalMotion | Computer.cpp:161-182 | with equal horizontal speeds no collision is ever predicted, because the horizontal time stays infinite |
| ConflictDetector.NegativeBetweenRoots | Computer.cpp:108-110 | with A > 0 the quadratic is negative strictly between its two roots |
| ConflictDetector.RootsStraddleZero | Computer.cpp:109-110 | with A > 0 and C − R² < 0 the smaller root is negative and the larger positive |
| ConflictDetector.SolverGivesExitRoot | Computer.cpp:113-115 | in that case the discriminant is non-negative and the solver returns the larger root |
| ConflictDetector.NegativeUntilExitRoot | Computer.cpp:113-115 | in that case the quadratic stays negative from time 0 until the returned root |
| ConflictDetector.CoefficientAPositive | Computer.cpp:157 | a non-zero A is positive |
| ConflictDetector.CoefficientCIsDistanceNow | Computer.cpp:159 | C is the squared horizontal distance now |
| ConflictDetector.NegativeMeansInside | Computer.cpp:164 | where the threshold quadratic is negative, the pair is closer than 3000 ft horizontally |
| ConflictDetector.InsideStartGivesExitTime | Computer.cpp:164-176 | a moving pair already closer than 3000 ft horizontally gets the positive time at which it leaves that distance as its horizontal time, and it stays inside until then |
| ConflictDetector.ScenarioA1A2 | Computer.cpp:56-57 | A1 and A2 as built are not in violation, because \|Δx\| is exactly 3000, yet a collision is predicted strictly between 0 and 120 s |
| ConflictDetector.PairAlert | Computer.cpp:30-52 | at most one alert per pair. A current violation gives a time-0 alert; only without one is a predicted collision reported, at its time; no alert otherwise. Every alert lies within [0, 120] |
| ConflictDetector.WillViolateBranchUnreachable | Computer.cpp:31-46 | the 120-second "violation will occur" alert is never raised, because `willViolate` repeats the first test on the same copies |
| ConflictDetector.CurrentViolationAlertIffViolation | Computer.cpp:40-41 | a pair gets the current-violation alert exactly when it is in violation now |
| Alerts.AlertLessIsStrictWeakOrder | Computer.cpp:25-27 | the reversed `operator<` is irreflexive, transitive and has transitive incomparability, as `priority_queue` requires |
| Alerts.TopIsEarliest | Computer.cpp:25-27 | the top of the queue under that order is an alert of least time, so the queue is a min-queue on time |
| Alerts.TopAfterAdding | Computer.cpp:25-27 | after a push, the top is the new alert when it is no later than the old top, and the old top otherwise |
| Alerts.TopExists | Computer.cpp:25-27 | a non-empty queue has a top |
| Alerts.SortedArrangementsAgreeOnTimes | Computer.cpp:81-85 | two time-sorted arrangements of the same alerts have the same sequence of times, so the drain order is fixed up to ties |
| Alerts.RemoveAtMultiset | Computer.cpp:83 | removing one element of a sequence removes exactly it from its multiset |
| Alerts.RemoveAtSorted | Computer.cpp:83 | removing one element keeps a sequence sorted by time |
| Alerts.TimesAfterRemovingTie | Computer.cpp:82-83 | removing an alert tied with the first leaves the times of the rest after the first time |
| Alerts.AlertQueue.constructor | Computer.cpp:70 | a new queue is empty |
| Alerts.AlertQueue.Empty | Computer.cpp:81 | true exactly when the queue holds no alert |
| Alerts.AlertQueue.Size | Computer.h:432 | the number of alerts held |
| Alerts.AlertQueue.Push | Computer.cpp:41-46 | the alert is added and nothing else changes |
| Alerts.AlertQueue.PopTop | Computer.cpp:82-83 | returns an alert of least time and removes exactly that one |
| Alerts.AlertQueue.Copy | Computer.h:431 | a fresh queue holding the same alerts |
| Alerts.Drain | Computer.cpp:81-85 | the queue ends empty, and the alerts sent are exactly those it held, each once, in non-decreasing time |
| Monitoring.RowMembership | Computer.cpp:73 | the inner loop for `i` visits exactly the pairs (i, m) with i < m < n |
| Monitoring.PairsMembership | Computer.cpp:72-79 | the nested loops visit exactly the unordered pairs i < j < n |
| Monitoring.PairsCount | Computer.h:115-123 | the loops make n(n − 1)/2 visits per cycle |
| Monitoring.PairsBeforeCount | Computer.h:115-123 | the first `i` rounds make i(2n − i − 1)/2 visits |
| Monitoring.PairsNoDuplicates | Computer.h:115-123 | no pair is visited twice |
| Monitoring.PairsBeforeIncreasing | Computer.cpp:72-79 | pairs are visited in strictly increasing lexicographic order |
| Monitoring.PairsRow | Computer.cpp:72-79 | row `i` of the visiting order starts after the first `i` rounds and fills the next n − i − 1 places |
| Monitoring.AlertsAlongCount | Computer.cpp:77 | visiting pairs pushes one alert per reporting pair, so at most one per visit |
| Monitoring.AllPairsAlertsCount | Computer.h:115-123 | a scan pushes one alert per reporting pair, so at most n(n − 1)/2 |
| Monitoring.AllPairsAlertsSound | Computer.cpp:72-79 | every alert of a scan comes from a pair a < b of the roster |
| Monitoring.AllPairsAlertsComplete | Computer.cpp:72-79 | what any pair a < b reports is pushed by a scan |
| Monitoring.AllPairsAlertsMembership | Computer.cpp:72-79 | an alert is pushed exactly when some pair a < b reports it |
| Monitoring.MonitorCheck | Computer.h:179-204 | the check of the monitoring scan is the pair alert chain |
| Monitoring.SeparationCheck | Computer.h:147-151 | a pair reports a time-0 separation alert exactly when it is in violation now |
| Monitoring.MonitorAlertsWithinHorizon | Computer.h:115-123 | every alert of the monitoring scan comes from one pair a < b and lies within [0, 120] |
| Monitoring.SeparationScanReportsViolatingPairs | Computer.h:140-153 | the separation scan pushes one alert per reporting pair, and an alert is pushed exactly when it is the time-0 alert of a violating pair a < b |
| Monitoring.SeparationReportingIsViolating | Computer.h:140-153 | a pair reports in the separation scan exactly when it is an unordered pair of the roster in violation |
| Monitoring.VisitPair | Computer.cpp:30-52 | one visit pushes what the check reports and nothing else |
| Monitoring.CheckAircraftPair | Computer.cpp:30-52 | pushes the alert of the priority chain for the pair, if any |
| Monitoring.RowAlertsStep | Computer.cpp:73-78 | one more pass of the inner loop adds the report of (i, j) |
| Monitoring.RowAlong | Computer.cpp:73-78 | visiting row `i` where it sits in the visiting order pushes what the inner loop pushes |
| Monitoring.ScanPair | Computer.cpp:74-77 | one inner-loop pass extends the queue by the report of (i, j) |
| Monitoring.ScanRow | Computer.cpp:73-78 | the inner loop for `i` adds the reports of row `i` |
| Monitoring.RoundsAlertsAlong | Computer.cpp:72-79 | the first `i` rounds push what visiting their pairs in order pushes |
| Monitoring.ScanCoversAllPairs | Computer.cpp:72-79 | all rounds together push the alerts of all pairs |
| Monitoring.ScanRound | Computer.cpp:72-79 | one outer-loop round adds the reports of row `i` |
| Monitoring.ScanRoster | Computer.cpp:72-79 | the nested loops add to the queue exactly the alerts of every unordered pair |
| Monitoring.RunMonitoring | Computer.cpp:54-92 | `main` sends every alert reported by some pair once, in non-decreasing time |
| Frames.ConcatUpToLength | Computer.h:380-381 | the records written so far are a prefix of those written later |
| Frames.RecordPosition | Computer.h:380-381 | record `k` sits right after the records before it |
| Frames.ConcatNulFree | Computer.h:368-382 | records without a NUL make a text without a NUL |
| Frames.Overwrite | Computer.h:380 | `memcpy` into the region changes only the bytes it lands on |
| Frames.OverwriteAppend | Computer.h:380-381 | two copies back to back at an advancing cursor make one copy of the joined data |
| Frames.OverwriteZeros | Computer.h:359-360 | writing at the start of a zeroed region leaves the content followed by zeros |
| Frames.FrameVersion | Computer.h:362-365 | a reader gets the version back from the first four bytes |
| Frames.FrameRecordAt | Computer.h:366-382 | when the frame has room, record `k` sits at offset 4 plus the lengths of the records before it |
| Frames.FramePadding | Computer.h:359-360 | everything after the records is zero |
| Frames.FrameTextReadBack | Computer.h:359-382 | the text after the version, up to its first NUL, is the records joined |
| Frames.CopyOut | Computer.h:380 | the region becomes the old region with the data copied in at the cursor |
| Frames.WriteFrame | Computer.h:359-382 | the region becomes the frame: zeroed, version at offset 0, records one after another |
| ComputerEngine.Records | Computer.h:368-378 | one record per element, in order |
| ComputerEngine.AircraftFrameSize | Computer.h:334-338 | the region size is 1024 + 150 per aircraft |
| ComputerEngine.AlertsFrameSize | Computer.h:428-437 | the region size is 1024 + 200 per queued alert, counted on a copy |
| ComputerEngine.AircraftFrame | Computer.h:334-382 | the aircraft frame has the size the publisher asks for |
| ComputerEngine.AlertsFrame | Computer.h:428-485 | the alerts frame has the size the publisher asks for |
| ComputerEngine.AircraftFrameLayout | Computer.h:359-382 | the version reads back from offset 0, and each aircraft record, in roster order, sits after those before it |
| ComputerEngine.AlertsFrameLayout | Computer.h:458-485 | the version reads back from offset 0, and each alert record, in the order given, sits after those before it |
| ComputerEngine.WriteAlertsFrame | Computer.h:458-485 | the alerts go out earliest first, every queued alert once, and the frame is the result of writing them |
| ComputerEngine.Computer.constructor | Computer.h:42-45 | the roster is the initial one, the queue is empty, and both versions start at 0 |
| ComputerEngine.Computer.CheckAircraftPair | Computer.h:179-204 | pushes the alert of the priority chain for the pair, if any |
| ComputerEngine.Computer.MonitorAircrafts | Computer.h:109-131 | one pass adds the monitoring alerts of every unordered pair, and the roster is unchanged |
| ComputerEngine.Computer.CheckSeparation | Computer.h:134-155 | one pass adds a time-0 alert for each pair in violation, and the roster is unchanged |
| ComputerEngine.Computer.DisplayAlerts | Computer.h:158-172 | the queue ends empty, and every queued alert is sent once in non-decreasing time |
| ComputerEngine.Computer.PublishAircraftData | Computer.h:306-398 | on a mapped region, the frame carries the current version and the version goes up by 1. On a failed `shm_open`, `ftruncate` or `mmap`, the semaphore is released, nothing is published, the version stays and the writer stops |
| ComputerEngine.Computer.PublishAlerts | Computer.h:400-501 | the queue keeps all its alerts. The frame lists them earliest first with the current version, and the version goes up by 1. On failure, the same as above |
| ComputerEngine.PublishTwice | Computer.h:315-387 | from a fresh object, the first publish carries version 0 and the second version 1 |
| Radar.TickLeavesWaitingSlots | Radar.cpp:72-78 | empty slots and slots not yet started are left unchanged |
| Radar.TickAdvancesStartedSlots | Radar.cpp:80-86 | a started in-bounds slot moves by speed × (elapsed − start); its ID, speeds and start stay |
| Radar.TickResetsLeavingSlots | Radar.cpp:82-89 | a started slot at or beyond all bounds becomes the all-zero record, so its start time is 0, not −1 |
| Radar.TicksAccumulate | Radar.cpp:80-85 | two ticks move a slot by its speed times the sum of both times since start, not by the time between ticks |
| Radar.InitializeSlots | Radar.cpp:152-154 | every slot gets start time −1, and nothing else is written |
| Radar.PrintData | Radar.cpp:60-98 | every slot becomes its tick at the elapsed time |
| Radar.ChangedSpeeds | Radar.cpp:187-202 | the table keeps its length |
| Radar.ChangedSpeedsMeaning | Radar.cpp:187-202 | every slot with the ID gets all three speeds, with no early exit; positions, start, ID and other slots are unchanged |
| Radar.ChangeSpeed | Radar.cpp:187-202 | the table becomes the changed-speeds table |
| Radar.ApplyRequest | Radar.cpp:232-240 | applying a request keeps the table's length |
| Radar.ApplyRequests | Radar.cpp:231-241 | applying requests keeps the table's length |
| Radar.LastRequestFor | Radar.cpp:231-241 | the index found is the last request naming the non-zero ID, and none means no request names it |
| Radar.LastRequestWins | Radar.cpp:187-241 | after the loop each slot carries the truncated speeds of the last request naming its ID, or is unchanged; requests with ID 0 are skipped |
| Radar.ChangeParameters | Radar.cpp:231-241 | the table becomes the requests applied in index order |
| SharedRecords.WithSpeeds | Radar.cpp:193-195 | only the three speeds change |
| SharedRecords.TruncToInt | Radar.cpp:187-240 | `double`-to-`int` conversion truncates toward zero |
| SharedRecords.TruncToIntProperties | Radar.cpp:187-240 | truncation keeps integers, keeps the sign and is odd |
| Termination.CheckTermination | Radar.cpp:274-282 | true exactly when the first int of the region is 1 |
| Termination.Acknowledgement | Radar.cpp:290-293 | the acknowledgement fills the 64-byte region |
| Termination.Acknowledge | Radar.cpp:290-293 | the region becomes the name, NUL-padded and cut to 63 bytes, with byte 63 zero |
| Termination.AcknowledgementReadsBack | Communication.cpp:127-130 | byte 63 is zero, and the text read back is the name, cut to 63 bytes |
| Termination.AcknowledgementClearsRequest | Radar.cpp:286-293 | once a process has acknowledged, the region no longer signals termination to a process still checking |
| Termination.ProcessAcknowledgements | Communication.cpp:128 | "Radar" and "Communications" read back whole, and neither signals termination |
| Bytes.CString | VisualDisplay.cpp:215 | the string is the prefix of the buffer before its first NUL |
| Bytes.CStringOfTerminated | VisualDisplay.cpp:215 | a NUL-free text followed by a NUL reads back as itself |
| Bytes.DecodeEncode | Computer.h:364 | an `int` written to 4 bytes reads back unchanged |
| Bytes.DecodeIsOne | Radar.cpp:278-281 | the 4 bytes read as 1 exactly when they are 1, 0, 0, 0 |
| Bytes.Clear | Communication.cpp:108 | every byte of the region becomes zero |
| IntExtraction.SkipSpaces | Communication.cpp:88 | the leading white space is skipped, and what is left starts with a non-space |
| IntExtraction.ReadNumber | Communication.cpp:88 | a successful read yields a 32-bit `int` |
| IntExtraction.Extract | Communication.cpp:88 | a successful read yields a 32-bit `int`, and a stream not good changes nothing and fails |
| IntExtraction.DigitsValueShowNat | Communication.cpp:88 | the digits of a number denote it |
| IntExtraction.ExtractShowInt | Communication.cpp:88 | an `int` written in decimal and followed by a non-digit is read back exactly |
| IntExtraction.ExtractSpacedInt | Communication.cpp:88 | a blank and then an `int` is read back exactly |
| IntExtraction.ParseShowRequest | Communication.cpp:87-88 | a command written as four `int`s separated by blanks parses back to the same ID and speeds |
| IntExtraction.MissingSpeedsStayUnset | Communication.cpp:87-88 | a command holding only an ID leaves the three speed variables as they were |
| IntExtraction.NonNumericCommand | Communication.cpp:87-88 | a command not starting with a number stores ID 0 and leaves the speeds as they were |
| Communication.SlotOffset | Communication.cpp:63 | every slot lies after the command area |
| Communication.RegionLayout | Communication.cpp:27-63 | the table starts at byte 256, and exactly 10 records fill the rest of the region without overlap |
| Communication.FirstMatch | Communication.cpp:96-105 | the index found is the first slot with the ID; none means no slot has it |
| Communication.RelayedMeaning | Communication.cpp:96-105 | the first matching slot gets the speeds and keeps its ID, position and start. Later matches and other slots are unchanged, and so is the whole table when none matches |
| Communication.CommunicationCommand | Communication.cpp:73-111 | an empty command changes nothing. Any other is parsed, relayed to the first matching slot, and the whole command area is zeroed |
| VisualDisplay.Pieces | VisualDisplay.cpp:224-238 | repeated `getline` yields pieces exactly while text is left |
| VisualDisplay.PiecesAvoidDelimiter | VisualDisplay.cpp:224-238 | no piece holds the delimiter |
| VisualDisplay.JoinPieces | VisualDisplay.cpp:224-238 | the pieces joined by the delimiter give the text back, less a final delimiter |
| VisualDisplay.Fields | VisualDisplay.cpp:236-247 | field i is the i-th blank-separated token for i < 5, and empty past the last token |
| VisualDisplay.RecordsOf | VisualDisplay.cpp:224-251 | one record per line, in order |
| VisualDisplay.ParseText | VisualDisplay.cpp:212-251 | one record per newline-separated line of the text, in order, made from its fields |
| VisualDisplay.ParseStopsAtNul | VisualDisplay.cpp:212-215 | bytes after the first NUL of the region never reach the parse |
| VisualDisplay.PublishedFrameHidesRecords | VisualDisplay.cpp:212-215 | for a version below 2²⁴, the published aircraft frame's text ends inside the version bytes, so the parse depends on the version alone and never shows the roster's records; when the version's low byte is also 0, the parse is empty |
| VisualDisplay.Display.constructor | VisualDisplay.cpp:35-38 | the vectors start empty |
| VisualDisplay.Display.FieldsGathered | VisualDisplay.cpp:236-247 | once the tokens run out or five are taken, the gathered fields are the line's record |
| VisualDisplay.Display.TakeToken | VisualDisplay.cpp:238-241 | one inner pass makes the next token of the line field `i` |
| VisualDisplay.Display.SplitLine | VisualDisplay.cpp:227-247 | the inner loop yields the line's record |
| VisualDisplay.Display.ReadLine | VisualDisplay.cpp:224-250 | one outer pass appends the record of the next line |
| VisualDisplay.Display.ReadRegularData | VisualDisplay.cpp:212-251 | the records of the region's text are appended in order after those already held, and the other vectors are unchanged |
| VisualDisplay.Display.ClearVectors | VisualDisplay.cpp:293-295 | the record, augmented and violation vectors are all empty |

## As written

Several lemmas state behaviour of the code as it is written that its comments do not suggest.

- `Radar.TicksAccumulate`: `printData` adds speed × (elapsed − start) on every tick, where a per-tick step would add the speed times the time between ticks.
- `Radar.TickResetsLeavingSlots`: a slot that leaves the bounds becomes the all-zero record, with start time 0, rather than an empty slot (start time −1). Later ticks treat it as started.
- `ConflictDetector.InsideStartGivesExitTime`: for a pair already closer than 3000 ft horizontally and moving relative to each other, the horizontal time is the moment the pair separates, not 0.
- `ConflictDetector.WillViolateBranchUnreachable`: the third branch of `checkAircraftPair` can never push an alert.
- `Termination.AcknowledgementClearsRequest`: the first process to acknowledge overwrites the termination flag, so a process that checks later does not see the request.
- `VisualDisplay.PublishedFrameHidesRecords`: the display reads the aircraft frame as a C string from offset 0, but the analysis process writes its 4-byte version there. For every version below 2²⁴ the top byte is NUL, so the text ends before the records. What the display parses then depends on the version alone and never shows the roster's records. When the version's low byte is 0, it parses no record at all.

## Left out

- Threads, mutexes, semaphores and the `terminate` flag: each thread body is one pass of its loop. The semaphore appears only as a held/released flag in `Computer`.
- Sleeping, the POSIX timer and `high_resolution_clock` measurements are left out. The clock reading of `printData` is the parameter `elapsed`.
- `shm_open`, `ftruncate`, `mmap`, `munmap` and `sem_open` are OS calls. Regions are arrays or byte sequences, and the outcome of the mapping sequence is the parameter `status`.
- Text formatting is abstract: `to_string`, `setprecision(2)`, `ctime`, timestamps and the message text of alerts are a `format` parameter or message tags.
- Console output (`cout`, `cerr`, `perror`, `sendAlert` printing) is left out. The drain returns the alerts it sends.
- IEEE double arithmetic is left out. The model uses exact reals; rounding, NaN, overflow and division by zero are not modelled, and `sqrt` is a parameter satisfying `IsSqrt`.
- ConflictDetector.SolveQuadraticFirstTime: requires A ≠ 0. Its only caller takes the other branch when A = 0, and IEEE division by zero is not modelled.
- SharedRecords.TruncToInt: `double`-to-`int` conversion out of the `int` range is undefined behaviour in C++; the model truncates without a bound.
- Frames.CopyOut: `memcpy` past the end of the mapping is undefined behaviour. The model keeps only the bytes that land inside the region, because the publishers do not check capacity.
- Bytes.CString: a buffer without any NUL is read whole, where C++ would read past its end.
- Termination.Acknowledge: requires a NUL-free name, which both callers meet by passing string literals; `strncpy` of a name with an inner NUL is not modelled.
- `loadAircraftFromFile` (Radar.cpp:100-126) is file I/O.
- `radarRequestResponse` (Aircraft.h:125-128) adds an `int` to a string literal, which is pointer arithmetic.
- Operator.cpp, Launcher.cpp and Clear.cpp: interactive menu, process launching and region removal.
- VisualDisplay.cpp rendering (`drawAirspace`, `calculateAirspacePositions`, `insertBanner`, printing) is left out. It is grid rendering with float rounding and refers to undeclared variables. The augmented and violation vectors are only cleared.
- The `Aircraft` constructor calls in Computer.cpp and Computer.h pass string times and IDs and eight arguments, while Aircraft.h takes `int`s and nine. The model uses Aircraft.h's fields with `int` IDs, and the violation flag false.
- The radar maps `/shm_communication` from offset 0 with 20 slots, while the communication process puts 10 slots at offset 256. Each process's own view is modelled, not a combined one.
- `main` in Computer.cpp and the `aircrafts` member of Computer.h build different rosters (A1 at y = 2000 and at y = 2005). `InitialRoster` transcribes Computer.h's. Of Computer.cpp's, only A1 and A2 are transcribed, as `ScenarioA1` and `ScenarioA2`; `RunMonitoring` takes its roster as a parameter.
