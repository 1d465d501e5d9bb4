# Timetable generator: the allocation engine, its input parsers and its exports

This project is a Dafny model of the core of a school timetable generator: the
greedy allocation engine of `TimetableService`, the request-parsing and
table-rendering helpers of `TimetableController`, and the CSV flattening of
`ExportService`.

The engine fills a grid `division → day → slot → session` in five phases:

1. It validates the configuration.
2. It writes the recess cells in every division and on every day.
3. It places two-slot lab blocks, at most one per division per day.
4. It places single-slot lectures with a round-robin (day, slot) cursor.
5. It fills every remaining free cell with the first candidate lecture that
   fits.

Throughout, a faculty ledger is kept. It has a busy set of (day, slot,
faculty) keys shared by all divisions, and a per-faculty, per-day load
counter bounded by `maxLecturesPerDay`. The engine runs in one of two modes:

- plan mode, driven by a per-division subject plan;
- uniform mode, where every subject has the same lecture and lab counts and
  the faculty is named `"Faculty-" + subject`.

Files, one module each:

- `wrappers.dfy`: `Option` and `Result`.
- `java_text.dfy`: the `java.lang.String` operations the source relies on:
  `trim`, `split` (which drops trailing empty strings), `replace`,
  `Integer.parseInt` and `toUpperCase`.
- `sessions.dfy`: the `Lecture` record, as `Session` with a three-valued
  `Kind`, and `SubjectPlan`. The plan is an ordered sequence of divisions,
  each with an ordered sequence of subject plans. It also holds the
  insertion-ordered set union of `LinkedHashSet.addAll`.
- `grid.dfy`: the nested timetable map and its cell-level reading `Get` and
  writing `Put`.
- `ledger.dfy`: the faculty ledger, as the class `FacultyLedger`, whose
  methods mutate the busy set and the load map.
- `schedule.dfy`: the run's invariants, and one lemma per kind of cell
  write showing that the write keeps them. The invariants are:
  - the grid has the configured shape;
  - the recess cells are exact;
  - no faculty is double-booked;
  - the loads equal the taught cells;
  - the daily cap holds;
  - lab blocks are contiguous pairs, at most one per division per day.
- `iteration.dfy`: generic bounded repetition (`while (n > 0) { … break; }`)
  and slot sweeps, with their induction principles.
- `engine.dfy`: the searches and phases of `generateTimetable` as functions
  on values. These are the specification the methods are proved against.
- `run_properties.dfy`: whole-run theorems. Every phase only adds cells,
  every phase keeps the invariants, and gap fill leaves no cell that a
  candidate could still take.
- `scheduler.dfy`: the class `TimetableService`. It has the source's fields,
  `setInputs`, `setInputsWithPlan` and `generateTimetable`, and one method per
  loop of the source. Each method is proved equal to the engine function it
  implements.
- `controller.dfy`: `splitCsv`, `splitCsvNullable`, `parseRecessRanges`,
  `getOrCreate` and `parsePlanCsv`.
- `division_tables.dfy`: `escapeHtml` and `buildDivisionTablesHtml`, through
  an abstract view of each table (rows, cell classes, pills and texts) and
  its rendering.
- `export.dfy`: `escapeCsv` and `exportCurrentAsCsv`.

## Model

| member | source | states |
|---|---|---|
| JavaText.Trim | TimetableGeneratorApp/src/main/java/com/example/timetablegenerator/controller/TimetableController.java:157 | the result is a slice `s[i..j]` of the input with only characters at most U+0020 before and after it; it starts and ends with a character above U+0020, and is empty exactly when every character of the input is at most U+0020 |
| JavaText.TrimIdempotent | TimetableGeneratorApp/src/main/java/com/example/timetablegenerator/controller/TimetableController.java:186 | trimming twice gives the same string as trimming once |
| JavaText.JoinSplitOn | TimetableGeneratorApp/src/main/java/com/example/timetablegenerator/controller/TimetableController.java:156 | joining the pieces of a split with the separator gives back the original string |
| JavaText.SplitOnJoin | TimetableGeneratorApp/src/main/java/com/example/timetablegenerator/controller/TimetableController.java:156 | splitting a join of separator-free pieces gives back the pieces |
| JavaText.JavaSplit | TimetableGeneratorApp/src/main/java/com/example/timetablegenerator/controller/TimetableController.java:189 | `String.split` on one character: no piece contains the separator, the string comes back whole when the separator is absent, and otherwise the pieces are the full split minus its trailing empty strings |
| JavaText.JavaSplitJoin | TimetableGeneratorApp/src/main/java/com/example/timetablegenerator/controller/TimetableController.java:189 | `split` recovers separator-free pieces joined by the separator when the last piece is not empty |
| JavaText.ReplaceChar | TimetableGeneratorApp/src/main/java/com/example/timetablegenerator/service/ExportService.java:147 | after replacing a character by a text without it, the character is absent; every other character not in the replacement is present exactly when it was before |
| JavaText.ReplaceCharAppend | TimetableGeneratorApp/src/main/java/com/example/timetablegenerator/controller/TimetableController.java:340-343 | replacement distributes over concatenation |
| JavaText.ParseInt | TimetableGeneratorApp/src/main/java/com/example/timetablegenerator/controller/TimetableController.java:173 | `Integer.parseInt` succeeds exactly on one or more digits, optionally after one `+` or `-`, whose signed value is in the 32-bit range, and then returns that signed value |
| JavaText.ParseIntExamples | TimetableGeneratorApp/src/main/java/com/example/timetablegenerator/controller/TimetableController.java:173 | "+5", "007" and "-0" parse to 5, 7 and 0; "", "-", "+-1" and "1 " are rejected |
| JavaText.ParseIntToString | TimetableGeneratorApp/src/main/java/com/example/timetablegenerator/service/ExportService.java:40 | every 32-bit value printed in decimal parses back to itself |
| JavaText.ToUpperAscii | TimetableGeneratorApp/src/main/java/com/example/timetablegenerator/controller/TimetableController.java:294 | the upper-cased text has the same length and each character upper-cased |
| Sessions.SessionToString | TimetableGeneratorApp/src/main/java/com/example/timetablegenerator/service/TimetableService.java:31-37 | `Lecture.toString` is "[RECESS]" exactly for a recess; otherwise it is the shown faculty, " (", the shown subject, ") - " and the type name |
| Sessions.Shown | TimetableGeneratorApp/src/main/java/com/example/timetablegenerator/service/TimetableService.java:33-34 | a present non-empty name is shown as itself; a missing or empty one as "---" |
| Sessions.FacultiesOf | TimetableGeneratorApp/src/main/java/com/example/timetablegenerator/service/TimetableService.java:424-429 | `facultiesOf` holds exactly the non-empty lecture and lab faculties, at most two and distinct, with the lecture faculty first |
| Sessions.LabFacultyOf | TimetableGeneratorApp/src/main/java/com/example/timetablegenerator/service/TimetableService.java:165-166 | the lab faculty, or the lecture faculty when the lab faculty is empty; empty only when both are |
| Sessions.PlanFor | TimetableGeneratorApp/src/main/java/com/example/timetablegenerator/service/TimetableService.java:160 | `planByDivision.getOrDefault(division, empty)`: a non-empty answer is the division's entry, and a division without an entry gets none |
| Sessions.AddAll | TimetableGeneratorApp/src/main/java/com/example/timetablegenerator/service/TimetableService.java:79-82 | `LinkedHashSet.addAll`: keeps the earlier elements as a prefix, holds exactly the elements of both, and stays duplicate-free |
| Sessions.AddAllPresent | TimetableGeneratorApp/src/main/java/com/example/timetablegenerator/service/TimetableService.java:80-81 | adding only elements already present changes nothing |
| Sessions.AddAllDistinct | TimetableGeneratorApp/src/main/java/com/example/timetablegenerator/service/TimetableService.java:80-81 | adding new distinct elements appends them in order |
| Sessions.SubjectKeys | TimetableGeneratorApp/src/main/java/com/example/timetablegenerator/service/TimetableService.java:106 | the subject names of a division's plan, in order |
| Sessions.PlanSubjectNames | TimetableGeneratorApp/src/main/java/com/example/timetablegenerator/service/TimetableService.java:105-107 | the merged subject names are duplicate-free and are exactly the subjects of some division's plan |
| Grid.Put | TimetableGeneratorApp/src/main/java/com/example/timetablegenerator/service/TimetableService.java:182-183 | `daySlots.put`: exactly the one cell changes, and an existing division and day keep the key sets |
| Grid.IsRecess | TimetableGeneratorApp/src/main/java/com/example/timetablegenerator/service/TimetableService.java:431-434 | a slot reported as recess is present in the day's map |
| Grid.OccupiedMember | TimetableGeneratorApp/src/main/java/com/example/timetablegenerator/service/TimetableService.java:444-448 | a (division, slot) counts towards a faculty's load on a day exactly when that cell is taught by the faculty |
| Grid.OccupiedAfterPut | TimetableGeneratorApp/src/main/java/com/example/timetablegenerator/service/TimetableService.java:231-233 | writing a free cell adds exactly that cell to the load set of its faculty and day, and nothing elsewhere |
| Ledger.Incremented | TimetableGeneratorApp/src/main/java/com/example/timetablegenerator/service/TimetableService.java:444-448 | `incrementCount` adds `delta` to one (faculty, day) load; every other load is unchanged, and a missing entry counts as 0 |
| Ledger.GuardedIncrementKeepsCap | TimetableGeneratorApp/src/main/java/com/example/timetablegenerator/service/TimetableService.java:450-454 | an increment by `need` made after `hasCapacity(..., need, max)` keeps every load within `[0, max]` |
| Ledger.SeedDays | TimetableGeneratorApp/src/main/java/com/example/timetablegenerator/service/TimetableService.java:153 | `putIfAbsent(day, 0)` over the days: keeps every existing entry and adds 0 for each missing day |
| Ledger.SeedFaculty | TimetableGeneratorApp/src/main/java/com/example/timetablegenerator/service/TimetableService.java:152-153 | seeding one faculty gives it an entry for every day, keeps all entries, and changes no load |
| Ledger.SeedFaculties | TimetableGeneratorApp/src/main/java/com/example/timetablegenerator/service/TimetableService.java:149-156 | seeding any list of faculties changes no load |
| Ledger.SeedFacultiesSeeds | TimetableGeneratorApp/src/main/java/com/example/timetablegenerator/service/TimetableService.java:149-156 | after seeding, each listed faculty has an entry for every day |
| Ledger.SeedFacultiesKeeps | TimetableGeneratorApp/src/main/java/com/example/timetablegenerator/service/TimetableService.java:258-261 | a faculty seeded before stays seeded |
| Ledger.SeedFacultiesAppend | TimetableGeneratorApp/src/main/java/com/example/timetablegenerator/service/TimetableService.java:149-156 | seeding two lists in turn is seeding their concatenation |
| Ledger.FacultyLedger.constructor | TimetableGeneratorApp/src/main/java/com/example/timetablegenerator/service/TimetableService.java:144-145 | the busy set and the load map start empty |
| Ledger.FacultyLedger.MarkBusy | TimetableGeneratorApp/src/main/java/com/example/timetablegenerator/service/TimetableService.java:440-442 | `markBusy` adds exactly the (day, slot, faculty) key and leaves the loads alone |
| Ledger.FacultyLedger.IncrementCount | TimetableGeneratorApp/src/main/java/com/example/timetablegenerator/service/TimetableService.java:444-448 | the new load map is the old one incremented at (faculty, day); the busy set is unchanged |
| Ledger.FacultyLedger.Seed | TimetableGeneratorApp/src/main/java/com/example/timetablegenerator/service/TimetableService.java:152-153 | the load map becomes the seeded map of one faculty; the busy set is unchanged |
| Ledger.FacultyLedger.SeedAll | TimetableGeneratorApp/src/main/java/com/example/timetablegenerator/service/TimetableService.java:151-154 | the load map becomes the seeded map of all listed faculties; the busy set is unchanged |
| Schedule.InRecessSnoc | TimetableGeneratorApp/src/main/java/com/example/timetablegenerator/service/TimetableService.java:131-137 | one more recess range adds exactly its slots clipped to `[max(1, r0), min(numSlots, r1)]` |
| Schedule.InvSound | TimetableGeneratorApp/src/main/java/com/example/timetablegenerator/service/TimetableService.java:115-363 | the run invariant implies the grid-only guarantees. These are: configured shape; exact recesses; no faculty in two divisions at one (day, slot); each load within the cap; lab blocks paired and flagged |
| Schedule.LectureFitsShrinks | TimetableGeneratorApp/src/main/java/com/example/timetablegenerator/service/TimetableService.java:218-229 | a cell that passes every lecture guard in a later state passed them in an earlier one |
| Schedule.IncrementedTwice | TimetableGeneratorApp/src/main/java/com/example/timetablegenerator/service/TimetableService.java:186 | incrementing a load by 2 is two increments by 1 |
| Schedule.ShapedAfterPut | TimetableGeneratorApp/src/main/java/com/example/timetablegenerator/service/TimetableService.java:231 | a write inside `[1, numSlots]` of an existing division and day keeps the grid's shape |
| Schedule.RecessAfterPut | TimetableGeneratorApp/src/main/java/com/example/timetablegenerator/service/TimetableService.java:221-222 | writing a non-recess session into a free cell keeps the recess cells exactly the configured ranges |
| Schedule.WellFormedAfterPut | TimetableGeneratorApp/src/main/java/com/example/timetablegenerator/service/TimetableService.java:231 | writing a well-formed session keeps every cell well-formed |
| Schedule.BusyAfterPut | TimetableGeneratorApp/src/main/java/com/example/timetablegenerator/service/TimetableService.java:231-232 | after writing a taught cell and marking its key, the busy set is still exactly the keys of taught cells |
| Schedule.NoDoubleAfterPut | TimetableGeneratorApp/src/main/java/com/example/timetablegenerator/service/TimetableService.java:223-232 | writing a cell whose key is not busy keeps every faculty in at most one division per (day, slot) |
| Schedule.CountsAfterPut | TimetableGeneratorApp/src/main/java/com/example/timetablegenerator/service/TimetableService.java:231-233 | writing a taught cell and incrementing its faculty's load by 1 keeps each load equal to the number of cells taught |
| Schedule.PlaceCellKeepsCore | TimetableGeneratorApp/src/main/java/com/example/timetablegenerator/service/TimetableService.java:218-233 | a write that passed the free-cell, busy and capacity guards keeps all cell-level invariants |
| Schedule.LabInvAfterLecture | TimetableGeneratorApp/src/main/java/com/example/timetablegenerator/service/TimetableService.java:231 | writing a lecture leaves the lab blocks and their flags valid |
| Schedule.PairedAfterLabBlock | TimetableGeneratorApp/src/main/java/com/example/timetablegenerator/service/TimetableService.java:182-183 | writing a lab into slots s and s+1 of a day without labs keeps lab cells in adjacent equal pairs, none or two per day |
| Schedule.FlaggedAfterLabBlock | TimetableGeneratorApp/src/main/java/com/example/timetablegenerator/service/TimetableService.java:182-187 | after a lab block, flagging its day keeps every lab cell flagged |
| Schedule.LabInvAfterLab | TimetableGeneratorApp/src/main/java/com/example/timetablegenerator/service/TimetableService.java:172-187 | a lab block placed on an unflagged day into two free cells keeps the lab invariants |
| Schedule.LabFirstCell | TimetableGeneratorApp/src/main/java/com/example/timetablegenerator/service/TimetableService.java:176-183 | after the first cell of a lab block, the second cell still passes the free-cell, busy and capacity guards |
| Schedule.LabCellsKeepCore | TimetableGeneratorApp/src/main/java/com/example/timetablegenerator/service/TimetableService.java:173-186 | placing both cells of a block that passed the lab guards, with the load raised by 2, keeps the cell-level invariants |
| Schedule.LabPlacementKeepsInv | TimetableGeneratorApp/src/main/java/com/example/timetablegenerator/service/TimetableService.java:171-187 | a lab placement that passed every guard keeps the whole run invariant |
| Schedule.LecturePlacementKeepsInv | TimetableGeneratorApp/src/main/java/com/example/timetablegenerator/service/TimetableService.java:218-233 | a lecture placement that passed every guard keeps the whole run invariant |
| Schedule.LectureGrows | TimetableGeneratorApp/src/main/java/com/example/timetablegenerator/service/TimetableService.java:231-233 | a lecture placement only adds: the grid, busy set and loads grow, and the only new cell is that lecture in its division |
| Schedule.LabGrows | TimetableGeneratorApp/src/main/java/com/example/timetablegenerator/service/TimetableService.java:182-187 | a lab placement only adds, and the new cells are that lab in its division |
| Schedule.InitialInv | TimetableGeneratorApp/src/main/java/com/example/timetablegenerator/service/TimetableService.java:122-141 | the grid right after initialisation, with no busy keys and zero loads, satisfies the run invariant |
| Schedule.InitialCell | TimetableGeneratorApp/src/main/java/com/example/timetablegenerator/service/TimetableService.java:127-141 | after initialisation, a cell holds RECESS exactly when its division and day are configured and its slot lies in a clipped range; all others are empty |
| Schedule.InvSameLoads | TimetableGeneratorApp/src/main/java/com/example/timetablegenerator/service/TimetableService.java:149-156 | replacing the load map by one with the same loads (the seeding of zeros) keeps the invariant |
| Schedule.PlanOffers | TimetableGeneratorApp/src/main/java/com/example/timetablegenerator/service/TimetableService.java:375-376 | the plan-mode gap-fill candidates are each subject with its lecture faculty, in plan order |
| Schedule.UniformOffers | TimetableGeneratorApp/src/main/java/com/example/timetablegenerator/service/TimetableService.java:405-406 | the uniform-mode gap-fill candidates are each subject with its faculty, in order |
| Schedule.RejectedStaysRejected | TimetableGeneratorApp/src/main/java/com/example/timetablegenerator/service/TimetableService.java:373-382 | a cell that a faculty's lecture cannot take stays untakeable as the run only adds |
| Schedule.SaturatedKept | TimetableGeneratorApp/src/main/java/com/example/timetablegenerator/service/TimetableService.java:366-392 | "no candidate fits any cell of the division" survives any later growth |
| Schedule.FitsIffOpen | TimetableGeneratorApp/src/main/java/com/example/timetablegenerator/service/TimetableService.java:377-382 | under the invariant, the ledger guards agree with the grid alone. The cell is free and in range, the faculty is under its cap and teaches nowhere else then, and the previous slot is not its own non-recess session |
| Engine.FindLab | TimetableGeneratorApp/src/main/java/com/example/timetablegenerator/service/TimetableService.java:171-191 | the lab search reports a day index within the days it scans |
| Engine.FindLabSpec | TimetableGeneratorApp/src/main/java/com/example/timetablegenerator/service/TimetableService.java:171-191 | the lab search returns the first (day, slot) in scan order that passes every lab guard; with no answer, none passes |
| Engine.LabSearchSpec | TimetableGeneratorApp/src/main/java/com/example/timetablegenerator/service/TimetableService.java:170-191 | over all days: the answer passes every guard and nothing earlier does; there is no answer exactly when no (day, slot) fits |
| Engine.LabPassSpec | TimetableGeneratorApp/src/main/java/com/example/timetablegenerator/service/TimetableService.java:168-195 | one `while` iteration fails exactly when no lab block fits anywhere |
| Engine.LabLoopNone | TimetableGeneratorApp/src/main/java/com/example/timetablegenerator/service/TimetableService.java:162-163 | with no labs to place, nothing is placed |
| Engine.LabLoopBounds | TimetableGeneratorApp/src/main/java/com/example/timetablegenerator/service/TimetableService.java:168-197 | at most `labsToPlace` blocks are placed, and stopping early means the next search found nothing (the rest is dropped) |
| Engine.FindLectureSpec | TimetableGeneratorApp/src/main/java/com/example/timetablegenerator/service/TimetableService.java:214-241 | the lecture search returns the first (day, slot) from the cursor in round-robin order that passes every guard, adjacency included; with no answer, none passes |
| Engine.LectureSearchSpec | TimetableGeneratorApp/src/main/java/com/example/timetablegenerator/service/TimetableService.java:214-241 | over one full day pass: the answer fits and nothing before it does; no answer exactly when no cell fits |
| Engine.LecturePassSpec | TimetableGeneratorApp/src/main/java/com/example/timetablegenerator/service/TimetableService.java:211-246 | one iteration fails exactly when no cell fits from the cursor; on success the slot used lies in `[1, numSlots]` |
| Engine.LectureStepPlaces | TimetableGeneratorApp/src/main/java/com/example/timetablegenerator/service/TimetableService.java:235-238 | after a success the cursor moves to `((dayStartIdx + 1) mod days, (s mod numSlots) + 1)` |
| Engine.LectureStepFails | TimetableGeneratorApp/src/main/java/com/example/timetablegenerator/service/TimetableService.java:243-246 | a pass with no fit ends the subject's loop |
| Engine.LectureLoopBounds | TimetableGeneratorApp/src/main/java/com/example/timetablegenerator/service/TimetableService.java:211-247 | at most `lecturesToPlace` lectures are placed, and stopping early means the last pass found nothing |
| Engine.FacultyMapSnoc | TimetableGeneratorApp/src/main/java/com/example/timetablegenerator/service/TimetableService.java:256 | each subject maps to `"Faculty-" + trim(subject)`, a later duplicate overwriting |
| Engine.PlanLabJobs | TimetableGeneratorApp/src/main/java/com/example/timetablegenerator/service/TimetableService.java:161-166 | one lab job per plan subject, with its lab faculty (defaulting to the lecture faculty) and `max(0, labsPerWeek)` blocks |
| Engine.PlanLectureJobs | TimetableGeneratorApp/src/main/java/com/example/timetablegenerator/service/TimetableService.java:204-206 | one lecture job per plan subject with its lecture faculty and `max(0, lecturesPerWeek)` lectures |
| Engine.UniformJobs | TimetableGeneratorApp/src/main/java/com/example/timetablegenerator/service/TimetableService.java:265-267 | one job per subject with its mapped faculty and `max(0, count)` placements |
| Engine.UniformLabJobs | TimetableGeneratorApp/src/main/java/com/example/timetablegenerator/service/TimetableService.java:264-267 | uniform-mode lab jobs are the lab subjects with `totalLabs` each |
| Engine.FindOffer | TimetableGeneratorApp/src/main/java/com/example/timetablegenerator/service/TimetableService.java:375-388 | gap fill picks the first candidate whose faculty passes every guard; all candidates before it, or all of them when none is picked, fail |
| Engine.SubsFaculties | TimetableGeneratorApp/src/main/java/com/example/timetablegenerator/service/TimetableService.java:150-151 | the faculties seeded for one division are exactly those of its subject plans |
| Engine.PlanFaculties | TimetableGeneratorApp/src/main/java/com/example/timetablegenerator/service/TimetableService.java:149-151 | the faculties seeded in plan mode are exactly those of any division's plan |
| Engine.UniformFaculties | TimetableGeneratorApp/src/main/java/com/example/timetablegenerator/service/TimetableService.java:258 | the faculties seeded in uniform mode are the mapped faculty of each subject |
| Engine.SeededCount | TimetableGeneratorApp/src/main/java/com/example/timetablegenerator/service/TimetableService.java:145-156 | the seeded load map has load 0 everywhere |
| RunProperties.LabPassGrows | TimetableGeneratorApp/src/main/java/com/example/timetablegenerator/service/TimetableService.java:182-187 | a successful lab iteration only adds, and only that lab in its division |
| RunProperties.LabLoopGrows | TimetableGeneratorApp/src/main/java/com/example/timetablegenerator/service/TimetableService.java:168-197 | a subject's lab loop only adds that subject's lab in its division |
| RunProperties.LecturePassGrows | TimetableGeneratorApp/src/main/java/com/example/timetablegenerator/service/TimetableService.java:231-233 | a successful lecture iteration only adds that lecture in its division |
| RunProperties.LectureLoopGrows | TimetableGeneratorApp/src/main/java/com/example/timetablegenerator/service/TimetableService.java:211-247 | a subject's lecture loop only adds that subject's lecture in its division |
| RunProperties.LabJobsGrow | TimetableGeneratorApp/src/main/java/com/example/timetablegenerator/service/TimetableService.java:160-198 | a division's lab phase only adds lab cells in that division |
| RunProperties.LectureJobsGrow | TimetableGeneratorApp/src/main/java/com/example/timetablegenerator/service/TimetableService.java:203-248 | a division's lecture phase only adds lecture cells in that division |
| RunProperties.LabPhaseGrows | TimetableGeneratorApp/src/main/java/com/example/timetablegenerator/service/TimetableService.java:159-199 | the lab phase keeps every existing cell and adds only labs |
| RunProperties.LecturePhaseGrows | TimetableGeneratorApp/src/main/java/com/example/timetablegenerator/service/TimetableService.java:202-249 | the lecture phase keeps every existing cell and adds only lectures |
| RunProperties.GapFillCellGrows | TimetableGeneratorApp/src/main/java/com/example/timetablegenerator/service/TimetableService.java:373-388 | filling one cell keeps every other cell and adds only a lecture in that division |
| RunProperties.GapFillSlotsGrows | TimetableGeneratorApp/src/main/java/com/example/timetablegenerator/service/TimetableService.java:372-389 | filling one day keeps existing cells and adds only lectures in that division |
| RunProperties.GapFillDaysGrows | TimetableGeneratorApp/src/main/java/com/example/timetablegenerator/service/TimetableService.java:370-390 | filling one division keeps existing cells and adds only lectures in it |
| RunProperties.GapFillPhaseGrows | TimetableGeneratorApp/src/main/java/com/example/timetablegenerator/service/TimetableService.java:366-422 | gap fill changes no occupied or recess cell and writes only lectures |
| RunProperties.LabPassKeepsInv | TimetableGeneratorApp/src/main/java/com/example/timetablegenerator/service/TimetableService.java:168-195 | a lab iteration keeps the run invariant |
| RunProperties.LabLoopKeepsInv | TimetableGeneratorApp/src/main/java/com/example/timetablegenerator/service/TimetableService.java:168-197 | a subject's lab loop keeps the run invariant |
| RunProperties.LecturePassKeepsInv | TimetableGeneratorApp/src/main/java/com/example/timetablegenerator/service/TimetableService.java:211-246 | a lecture iteration keeps the run invariant |
| RunProperties.LectureLoopKeepsInv | TimetableGeneratorApp/src/main/java/com/example/timetablegenerator/service/TimetableService.java:211-247 | a subject's lecture loop keeps the run invariant |
| RunProperties.LabJobsKeepInv | TimetableGeneratorApp/src/main/java/com/example/timetablegenerator/service/TimetableService.java:160-198 | a division's labs keep the run invariant |
| RunProperties.LectureJobsKeepInv | TimetableGeneratorApp/src/main/java/com/example/timetablegenerator/service/TimetableService.java:203-248 | a division's lectures keep the run invariant |
| RunProperties.LabPhaseKeepsInv | TimetableGeneratorApp/src/main/java/com/example/timetablegenerator/service/TimetableService.java:159-199 | the lab phase keeps the run invariant |
| RunProperties.LecturePhaseKeepsInv | TimetableGeneratorApp/src/main/java/com/example/timetablegenerator/service/TimetableService.java:202-249 | the lecture phase keeps the run invariant |
| RunProperties.GapFillCellKeepsInv | TimetableGeneratorApp/src/main/java/com/example/timetablegenerator/service/TimetableService.java:373-388 | filling one cell keeps the run invariant |
| RunProperties.GapFillSlotsKeepsInv | TimetableGeneratorApp/src/main/java/com/example/timetablegenerator/service/TimetableService.java:372-389 | filling one day keeps the run invariant |
| RunProperties.GapFillDaysKeepsInv | TimetableGeneratorApp/src/main/java/com/example/timetablegenerator/service/TimetableService.java:370-390 | filling one division keeps the run invariant |
| RunProperties.GapFillPhaseKeepsInv | TimetableGeneratorApp/src/main/java/com/example/timetablegenerator/service/TimetableService.java:366-422 | gap fill keeps the run invariant |
| RunProperties.GapFillCellRejects | TimetableGeneratorApp/src/main/java/com/example/timetablegenerator/service/TimetableService.java:375-388 | after one cell's turn, no candidate's lecture can still go into that cell |
| RunProperties.GapFillSlotsSaturates | TimetableGeneratorApp/src/main/java/com/example/timetablegenerator/service/TimetableService.java:372-389 | after a day's sweep, no candidate fits any slot of that day |
| RunProperties.GapFillDaysSaturates | TimetableGeneratorApp/src/main/java/com/example/timetablegenerator/service/TimetableService.java:370-390 | after a division's sweep, no candidate fits any cell of its days |
| RunProperties.GapFillPhaseSaturates | TimetableGeneratorApp/src/main/java/com/example/timetablegenerator/service/TimetableService.java:366-422 | after gap fill, no division has a cell that one of its candidates could still take |
| RunProperties.RunKeepsInv | TimetableGeneratorApp/src/main/java/com/example/timetablegenerator/service/TimetableService.java:158-350 | labs, lectures and gap fill together keep the run invariant |
| RunProperties.RunGrows | TimetableGeneratorApp/src/main/java/com/example/timetablegenerator/service/TimetableService.java:158-350 | the three phases only add |
| RunProperties.RunSound | TimetableGeneratorApp/src/main/java/com/example/timetablegenerator/service/TimetableService.java:122-350 | from the initial grid, the run's result is sound, keeps every recess cell, and has no cell that a candidate could still take |
| RunProperties.GeneratedSound | TimetableGeneratorApp/src/main/java/com/example/timetablegenerator/service/TimetableService.java:115-363 | the same for a whole generation on a valid configuration |
| Scheduler.OrEmpty | TimetableGeneratorApp/src/main/java/com/example/timetablegenerator/service/TimetableService.java:84-86 | a null list is read as empty |
| Scheduler.AddAllInPlace | TimetableGeneratorApp/src/main/java/com/example/timetablegenerator/service/TimetableService.java:80-81 | the in-place insertion loop computes `AddAll` |
| Scheduler.MergeSubjects | TimetableGeneratorApp/src/main/java/com/example/timetablegenerator/service/TimetableService.java:79-82 | the merged subject list is the insertion-ordered union of subjects then lab subjects |
| Scheduler.MergePlanSubjects | TimetableGeneratorApp/src/main/java/com/example/timetablegenerator/service/TimetableService.java:105-107 | the plan's subject names merged across divisions, duplicate-free |
| Scheduler.FacultyBySubject | TimetableGeneratorApp/src/main/java/com/example/timetablegenerator/service/TimetableService.java:255-256 | the loop builds the subject-to-faculty map `"Faculty-" + trim(subject)` |
| Scheduler.TimetableService.constructor | TimetableGeneratorApp/src/main/java/com/example/timetablegenerator/service/TimetableService.java:50-67 | all inputs empty or zero and an empty grid |
| Scheduler.TimetableService.SetSchedule | TimetableGeneratorApp/src/main/java/com/example/timetablegenerator/service/TimetableService.java:75-77 | stores days, slots, divisions, recesses (null as empty) and the cap |
| Scheduler.TimetableService.SetInputs | TimetableGeneratorApp/src/main/java/com/example/timetablegenerator/service/TimetableService.java:70-92 | stores the inputs, with subjects merged with lab subjects, null lists as empty, and the plan cleared |
| Scheduler.TimetableService.SetInputsWithPlan | TimetableGeneratorApp/src/main/java/com/example/timetablegenerator/service/TimetableService.java:94-112 | stores the inputs and plan (null as empty); the subjects are the plan's distinct subject names; the uniform counts are zero |
| Scheduler.TimetableService.RecessSlots | TimetableGeneratorApp/src/main/java/com/example/timetablegenerator/service/TimetableService.java:130-137 | the day map holds RECESS exactly at the clipped recess slots |
| Scheduler.TimetableService.RecessDivision | TimetableGeneratorApp/src/main/java/com/example/timetablegenerator/service/TimetableService.java:128-139 | each configured day maps to the recess day table |
| Scheduler.TimetableService.EmptyFlags | TimetableGeneratorApp/src/main/java/com/example/timetablegenerator/service/TimetableService.java:123-124 | every division starts with no lab days |
| Scheduler.TimetableService.RecessGrid | TimetableGeneratorApp/src/main/java/com/example/timetablegenerator/service/TimetableService.java:127-141 | the loops build the initial grid |
| Scheduler.TimetableService.InitGrid | TimetableGeneratorApp/src/main/java/com/example/timetablegenerator/service/TimetableService.java:122-141 | the grid and lab flags are replaced by their initial values |
| Scheduler.TimetableService.SeedDivisionFaculties | TimetableGeneratorApp/src/main/java/com/example/timetablegenerator/service/TimetableService.java:150-155 | one division's faculties are seeded; the busy set is unchanged |
| Scheduler.TimetableService.SeedPlanFaculties | TimetableGeneratorApp/src/main/java/com/example/timetablegenerator/service/TimetableService.java:149-156 | every plan faculty is seeded |
| Scheduler.TimetableService.SeedUniformFaculties | TimetableGeneratorApp/src/main/java/com/example/timetablegenerator/service/TimetableService.java:258-261 | every uniform-mode faculty is seeded |
| Scheduler.TimetableService.PlaceLabBlock | TimetableGeneratorApp/src/main/java/com/example/timetablegenerator/service/TimetableService.java:182-187 | the two cells, two busy keys, load +2 and the day flag are written as one lab placement |
| Scheduler.TimetableService.PlaceLectureCell | TimetableGeneratorApp/src/main/java/com/example/timetablegenerator/service/TimetableService.java:231-233 | the cell, busy key and load +1 are written as one lecture placement |
| Scheduler.TimetableService.TryPlaceLab | TimetableGeneratorApp/src/main/java/com/example/timetablegenerator/service/TimetableService.java:169-191 | the labelled-break search places the first fitting block, or changes nothing |
| Scheduler.TimetableService.PlaceLabs | TimetableGeneratorApp/src/main/java/com/example/timetablegenerator/service/TimetableService.java:168-197 | the `while (labsToPlace > 0)` loop ends in the state and count of the lab loop |
| Scheduler.TimetableService.PlanDivisionLabs | TimetableGeneratorApp/src/main/java/com/example/timetablegenerator/service/TimetableService.java:160-198 | one division's plan-mode labs |
| Scheduler.TimetableService.PlanLabs | TimetableGeneratorApp/src/main/java/com/example/timetablegenerator/service/TimetableService.java:159-199 | the plan-mode lab phase |
| Scheduler.TimetableService.UniformDivisionLabs | TimetableGeneratorApp/src/main/java/com/example/timetablegenerator/service/TimetableService.java:265-300 | one division's uniform-mode labs |
| Scheduler.TimetableService.UniformLabs | TimetableGeneratorApp/src/main/java/com/example/timetablegenerator/service/TimetableService.java:264-301 | the uniform-mode lab phase |
| Scheduler.TimetableService.TryPlaceLecture | TimetableGeneratorApp/src/main/java/com/example/timetablegenerator/service/TimetableService.java:212-241 | one day pass from the cursor places the first fitting lecture and moves the cursor, or changes nothing |
| Scheduler.TimetableService.PlaceLectures | TimetableGeneratorApp/src/main/java/com/example/timetablegenerator/service/TimetableService.java:205-247 | the `while (lecturesToPlace > 0)` loop ends in the state and count of the lecture loop |
| Scheduler.TimetableService.PlanDivisionLectures | TimetableGeneratorApp/src/main/java/com/example/timetablegenerator/service/TimetableService.java:203-248 | one division's plan-mode lectures |
| Scheduler.TimetableService.PlanLectures | TimetableGeneratorApp/src/main/java/com/example/timetablegenerator/service/TimetableService.java:202-249 | the plan-mode lecture phase |
| Scheduler.TimetableService.UniformDivisionLectures | TimetableGeneratorApp/src/main/java/com/example/timetablegenerator/service/TimetableService.java:305-346 | one division's uniform-mode lectures |
| Scheduler.TimetableService.UniformLectures | TimetableGeneratorApp/src/main/java/com/example/timetablegenerator/service/TimetableService.java:304-347 | the uniform-mode lecture phase |
| Scheduler.TimetableService.FillCell | TimetableGeneratorApp/src/main/java/com/example/timetablegenerator/service/TimetableService.java:373-388 | one free cell's turn of gap fill |
| Scheduler.TimetableService.FillDay | TimetableGeneratorApp/src/main/java/com/example/timetablegenerator/service/TimetableService.java:372-389 | the slot sweep of one day |
| Scheduler.TimetableService.FillDivision | TimetableGeneratorApp/src/main/java/com/example/timetablegenerator/service/TimetableService.java:370-390 | the day sweep of one division |
| Scheduler.TimetableService.FillRemainingSlotsPlanMode | TimetableGeneratorApp/src/main/java/com/example/timetablegenerator/service/TimetableService.java:366-392 | plan-mode gap fill |
| Scheduler.TimetableService.SubjectFaculties | TimetableGeneratorApp/src/main/java/com/example/timetablegenerator/service/TimetableService.java:395-396 | gap fill's own subject-to-faculty map |
| Scheduler.TimetableService.UniformCandidates | TimetableGeneratorApp/src/main/java/com/example/timetablegenerator/service/TimetableService.java:405-406 | the uniform candidates in subject order |
| Scheduler.TimetableService.FillRemainingSlotsUniformMode | TimetableGeneratorApp/src/main/java/com/example/timetablegenerator/service/TimetableService.java:394-422 | uniform-mode gap fill |
| Scheduler.TimetableService.GeneratePlanMode | TimetableGeneratorApp/src/main/java/com/example/timetablegenerator/service/TimetableService.java:147-251 | seeding, labs, lectures and gap fill in plan mode |
| Scheduler.TimetableService.UniformRun | TimetableGeneratorApp/src/main/java/com/example/timetablegenerator/service/TimetableService.java:264-349 | labs, lectures and gap fill in uniform mode |
| Scheduler.TimetableService.GenerateUniformMode | TimetableGeneratorApp/src/main/java/com/example/timetablegenerator/service/TimetableService.java:253-350 | the uniform-mode generation |
| Scheduler.TimetableService.GenerateTimetable | TimetableGeneratorApp/src/main/java/com/example/timetablegenerator/service/TimetableService.java:115-363 | returns false exactly on an invalid configuration, leaving the grid untouched. Otherwise the grid is the generated one, which is sound, keeps the recess cells, and leaves no cell a candidate could still take |
| Controller.Tokens | TimetableGeneratorApp/src/main/java/com/example/timetablegenerator/controller/TimetableController.java:157-158 | trimmed, non-empty pieces only, at most as many as the pieces |
| Controller.SplitCsv | TimetableGeneratorApp/src/main/java/com/example/timetablegenerator/controller/TimetableController.java:155-160 | every token is trimmed, non-empty and comma-free |
| Controller.SplitCsvAllPieces | TimetableGeneratorApp/src/main/java/com/example/timetablegenerator/controller/TimetableController.java:156 | the tokens of Java's split equal those of the full split, because dropped trailing pieces are empty |
| Controller.SplitCsvJoin | TimetableGeneratorApp/src/main/java/com/example/timetablegenerator/controller/TimetableController.java:155-160 | splitting a comma-joined list yields its trimmed non-empty items in order |
| Controller.SplitCsvRoundTrip | TimetableGeneratorApp/src/main/java/com/example/timetablegenerator/controller/TimetableController.java:155-160 | a list of clean, comma-free names survives join-then-split unchanged |
| Controller.SplitCsvNullable | TimetableGeneratorApp/src/main/java/com/example/timetablegenerator/controller/TimetableController.java:162-165 | null gives the empty list; a non-blank text gives `splitCsv` |
| Controller.SplitCsvNullableAgrees | TimetableGeneratorApp/src/main/java/com/example/timetablegenerator/controller/TimetableController.java:162-165 | on every non-null text, including blank ones, it equals `splitCsv` |
| Controller.TraverseOk | TimetableGeneratorApp/src/main/java/com/example/timetablegenerator/controller/TimetableController.java:170-177 | the token loop succeeds exactly when every token parses, with one result per token, in order |
| Controller.TraverseErr | TimetableGeneratorApp/src/main/java/com/example/timetablegenerator/controller/TimetableController.java:172-174 | a failing loop fails with the error of the first bad token |
| Controller.ParseRecessRanges | TimetableGeneratorApp/src/main/java/com/example/timetablegenerator/controller/TimetableController.java:167-178 | the loop returns empty for null or blank text; otherwise it parses each token or fails with its error |
| Controller.ParseRangeText | TimetableGeneratorApp/src/main/java/com/example/timetablegenerator/controller/TimetableController.java:171-174 | a printed "a-b" range parses back to (a, b) |
| Controller.RecessRangesRoundTrip | TimetableGeneratorApp/src/main/java/com/example/timetablegenerator/controller/TimetableController.java:167-178 | printing ranges as "a-b,c-d" and parsing gives them back |
| Controller.FindSubject | TimetableGeneratorApp/src/main/java/com/example/timetablegenerator/controller/TimetableController.java:259 | the subject's plan when present; otherwise none exists |
| Controller.UpdateDivisionReads | TimetableGeneratorApp/src/main/java/com/example/timetablegenerator/controller/TimetableController.java:258 | replacing one division's plan changes only what that division reads |
| Controller.UpdateDivisionKeys | TimetableGeneratorApp/src/main/java/com/example/timetablegenerator/controller/TimetableController.java:258 | the divisions keep their order, with a new one added at the end |
| Controller.PutSubjectFinds | TimetableGeneratorApp/src/main/java/com/example/timetablegenerator/controller/TimetableController.java:259 | after storing a subject plan it is found under its subject; other subjects are unchanged |
| Controller.PutSubjectKeys | TimetableGeneratorApp/src/main/java/com/example/timetablegenerator/controller/TimetableController.java:259 | a new subject is appended; an existing one keeps its place |
| Controller.GetOrCreate | TimetableGeneratorApp/src/main/java/com/example/timetablegenerator/controller/TimetableController.java:252-260 | the entry exists afterwards; it is kept when present and otherwise fresh; nothing else changes |
| Controller.Assign | TimetableGeneratorApp/src/main/java/com/example/timetablegenerator/controller/TimetableController.java:198-203 | the mutated subject plan becomes the entry; nothing else changes |
| Controller.RowPlan | TimetableGeneratorApp/src/main/java/com/example/timetablegenerator/controller/TimetableController.java:199-203 | counts are clamped at 0; an empty lecture faculty becomes `"Faculty-" + subject`; an empty lab faculty becomes the lecture faculty |
| Controller.ApplyColumns | TimetableGeneratorApp/src/main/java/com/example/timetablegenerator/controller/TimetableController.java:190-204 | rows under 6 columns are ignored; a bad count fails; otherwise the (division, subject) entry is overwritten with the defaulted row and nothing else changes |
| Controller.SkippedLineKeeps | TimetableGeneratorApp/src/main/java/com/example/timetablegenerator/controller/TimetableController.java:186-187 | a blank or '#' line leaves the plan as it is |
| Controller.SkippedLineIgnored | TimetableGeneratorApp/src/main/java/com/example/timetablegenerator/controller/TimetableController.java:185-187 | removing a blank or '#' line from anywhere in the text does not change the result |
| Controller.ApplyLinesAppend | TimetableGeneratorApp/src/main/java/com/example/timetablegenerator/controller/TimetableController.java:185-205 | the lines are applied in order, each to the plan the earlier ones built, and an error in a prefix is the result |
| Controller.FirstErrorStops | TimetableGeneratorApp/src/main/java/com/example/timetablegenerator/controller/TimetableController.java:193-194 | the first line whose count does not parse ends the parse with its error; later lines are never read |
| Controller.ParsePlanCsv | TimetableGeneratorApp/src/main/java/com/example/timetablegenerator/controller/TimetableController.java:180-207 | the line loop computes the plan of the text: empty for null or blank, blank and '#' lines skipped, first bad number fails |
| Controller.BlankLabFacultyRowKept | TimetableGeneratorApp/src/main/java/com/example/timetablegenerator/controller/TimetableController.java:186-189 | such a row survives the trim and the skip test, and has six columns before Java's split |
| Controller.BlankLabFacultyRowIgnored | TimetableGeneratorApp/src/main/java/com/example/timetablegenerator/controller/TimetableController.java:189-190 | as written: a row whose last column, the lab faculty, is blank has at most 5 columns after `split` and is ignored |
| Controller.BlankLabFacultyDefaults | TimetableGeneratorApp/src/main/java/com/example/timetablegenerator/controller/TimetableController.java:196-203 | corrected: reading every column, that row is stored with its lab faculty equal to its lecture faculty |
| DivisionTables.EscapeHtml | TimetableGeneratorApp/src/main/java/com/example/timetablegenerator/controller/TimetableController.java:338-344 | null gives ""; the output contains no `<`, `>` or `"` |
| DivisionTables.EscapeHtmlAppend | TimetableGeneratorApp/src/main/java/com/example/timetablegenerator/controller/TimetableController.java:340-343 | escaping distributes over concatenation |
| DivisionTables.EscapeHtmlOne | TimetableGeneratorApp/src/main/java/com/example/timetablegenerator/controller/TimetableController.java:340-343 | the replacement chain on one character gives its single entity, so `&` is never escaped twice |
| DivisionTables.EscapeHtmlEach | TimetableGeneratorApp/src/main/java/com/example/timetablegenerator/controller/TimetableController.java:340-343 | the chain equals escaping each character separately |
| DivisionTables.EscapeHtmlRoundTrip | TimetableGeneratorApp/src/main/java/com/example/timetablegenerator/controller/TimetableController.java:338-344 | decoding the four entities recovers the original text |
| DivisionTables.OrDash | TimetableGeneratorApp/src/main/java/com/example/timetablegenerator/controller/TimetableController.java:319-320 | a present name is shown as is, even when empty; a null one as "---" |
| DivisionTables.UpperTypeName | TimetableGeneratorApp/src/main/java/com/example/timetablegenerator/controller/TimetableController.java:294 | each stored session type upper-cases to its label in the switch: "LECTURE", "LAB" and "RECESS" |
| DivisionTables.CellShows | TimetableGeneratorApp/src/main/java/com/example/timetablegenerator/controller/TimetableController.java:291-324 | the class and pill per case are: free cell → free/"Free" with no text; recess → recess/"RECESS" with no text; lab → lab/"LAB"; lecture → lec/"LECTURE". Lab and lecture cells show (faculty or "---", subject or "---") |
| DivisionTables.CellsOf | TimetableGeneratorApp/src/main/java/com/example/timetablegenerator/controller/TimetableController.java:287-291 | one cell per day, each the view of that day's slot |
| DivisionTables.RowsOf | TimetableGeneratorApp/src/main/java/com/example/timetablegenerator/controller/TimetableController.java:283-285 | `max(0, numSlots)` rows, row i showing slot i+1 |
| DivisionTables.TableShows | TimetableGeneratorApp/src/main/java/com/example/timetablegenerator/controller/TimetableController.java:283-324 | row i is slot i+1, and a cell shows text exactly when it holds a lab or a lecture |
| DivisionTables.HeadsHtml | TimetableGeneratorApp/src/main/java/com/example/timetablegenerator/controller/TimetableController.java:276-278 | the header loop renders one `<th>` per day |
| DivisionTables.CellsHtml | TimetableGeneratorApp/src/main/java/com/example/timetablegenerator/controller/TimetableController.java:287-327 | the day loop renders the row's cells |
| DivisionTables.RowsHtml | TimetableGeneratorApp/src/main/java/com/example/timetablegenerator/controller/TimetableController.java:283-330 | the slot loop renders the body rows |
| DivisionTables.BuildDivisionTable | TimetableGeneratorApp/src/main/java/com/example/timetablegenerator/controller/TimetableController.java:269-333 | one division's HTML is the rendering of its table view |
| DivisionTables.BuildDivisionTablesHtml | TimetableGeneratorApp/src/main/java/com/example/timetablegenerator/controller/TimetableController.java:262-336 | one entry per division of the grid, each its rendered table |
| Export.EscapeCsv | TimetableGeneratorApp/src/main/java/com/example/timetablegenerator/service/ExportService.java:145-146 | null gives the empty field |
| Export.DoubledKeepsQuote | TimetableGeneratorApp/src/main/java/com/example/timetablegenerator/service/ExportService.java:147-148 | doubling quotes leaves a quote present exactly when there was one |
| Export.EscapeCsvShape | TimetableGeneratorApp/src/main/java/com/example/timetablegenerator/service/ExportService.java:145-152 | quoted with doubled quotes exactly when the text has a comma, quote or newline; otherwise unchanged and free of all three |
| Export.UndoubleDoubled | TimetableGeneratorApp/src/main/java/com/example/timetablegenerator/service/ExportService.java:147 | collapsing `""` undoes the doubling |
| Export.EscapeCsvRoundTrip | TimetableGeneratorApp/src/main/java/com/example/timetablegenerator/service/ExportService.java:145-152 | stripping the enclosing quotes and collapsing `""` recovers the text |
| Export.SetMin | TimetableGeneratorApp/src/main/java/com/example/timetablegenerator/service/ExportService.java:33 | the least slot of a non-empty set |
| Export.SortedSlots | TimetableGeneratorApp/src/main/java/com/example/timetablegenerator/service/ExportService.java:33 | `new TreeSet<>(slots.keySet())`: the same slots, each once |
| Export.SortedSlotsIncreasing | TimetableGeneratorApp/src/main/java/com/example/timetablegenerator/service/ExportService.java:33 | the slots come in strictly increasing order |
| Export.SlotRows | TimetableGeneratorApp/src/main/java/com/example/timetablegenerator/service/ExportService.java:33-34 | one row per listed slot with that slot's session |
| Export.DayRowsHold | TimetableGeneratorApp/src/main/java/com/example/timetablegenerator/service/ExportService.java:32-37 | a day's rows are exactly its occupied slots |
| Export.DivisionRowsHold | TimetableGeneratorApp/src/main/java/com/example/timetablegenerator/service/ExportService.java:30-45 | a division's rows are exactly the occupied cells of its listed days |
| Export.TableRowsHold | TimetableGeneratorApp/src/main/java/com/example/timetablegenerator/service/ExportService.java:29-46 | the rows over the listed divisions are exactly their occupied cells |
| Export.RowsAreCells | TimetableGeneratorApp/src/main/java/com/example/timetablegenerator/service/ExportService.java:29-46 | a row is exported exactly when its cell holds that session, recess included |
| Export.RowsDistinct | TimetableGeneratorApp/src/main/java/com/example/timetablegenerator/service/ExportService.java:29-46 | no two rows are for the same (division, day, slot) cell, so with RowsAreCells each occupied cell is exported on exactly one line |
| Export.EnumeratesDistinct | TimetableGeneratorApp/src/main/java/com/example/timetablegenerator/service/ExportService.java:29-31 | a key order that lists every key of a map and has as many entries as keys lists each key once |
| Export.DayRowsAscending | TimetableGeneratorApp/src/main/java/com/example/timetablegenerator/service/ExportService.java:33 | within a day, rows come in ascending slot order |
| Export.CsvFields | TimetableGeneratorApp/src/main/java/com/example/timetablegenerator/service/ExportService.java:35-43 | six fields per line |
| Export.CsvFieldsReadBack | TimetableGeneratorApp/src/main/java/com/example/timetablegenerator/service/ExportService.java:36-43 | each field reads back as the division, day, decimal slot, type, faculty or subject (null as empty) |
| Export.CsvTextShape | TimetableGeneratorApp/src/main/java/com/example/timetablegenerator/service/ExportService.java:25-28 | "" exactly for an empty timetable; otherwise the text starts with the header line |
| Export.DayCsv | TimetableGeneratorApp/src/main/java/com/example/timetablegenerator/service/ExportService.java:33-44 | the slot loop writes the lines of a day's rows |
| Export.DivisionCsv | TimetableGeneratorApp/src/main/java/com/example/timetablegenerator/service/ExportService.java:31-45 | the day loop writes the lines of a division's rows |
| Export.ExportCurrentAsCsv | TimetableGeneratorApp/src/main/java/com/example/timetablegenerator/service/ExportService.java:23-48 | the nested loops return the CSV text of the timetable: "" when empty, else the header and one line per row, with exactly one row per occupied cell (RowsAreCells, RowsDistinct) |

## Left out

- Output through `System.out.println` (warnings, success lines) and `printStackTrace` is not modelled. A shortfall is visible only in the placed counts.
- The `catch (Exception)` of `generateTimetable` is not modelled. On the model's inputs (non-null lists, recess pairs) no exception can occur, so the result is the validation outcome.
- `HashMap` iteration order is a given order, not modelled. It affects `planByDivision.values()`, each division's `subs.values()`, the divisions of the timetable map, and the days of each division map. The plan is an ordered sequence; `ExportCurrentAsCsv` takes the division and day orders as inputs, and `ValidOrders` says they list each key once.
- Busy keys are (day, slot, faculty) triples rather than the string `day + "#" + slot + "#" + faculty`. Two distinct triples whose concatenations coincide (names containing '#') would collide in the source; the model does not capture that.
- Integers are unbounded. The source's `int` counters and slots cannot overflow for sizes a timetable reaches; 32-bit wrap-around is not modelled.
- Export.CsvFieldsReadBack: requires the slot to lie in the 32-bit range, because slot keys are unbounded in the model while Java's are `int`.
- JavaText.ParseInt: accepts only ASCII digits. `Integer.parseInt` also accepts other Unicode decimal digits.
- JavaText.Trim: strips characters up to U+0020 like `String.trim`. No other Unicode handling is modelled.
- Controller.ParsePlanCsv: splits on '\n' where the source splits on "\r?\n". A trailing '\r' is removed by the trim of each line, so the rows read are the same.
- Controller.ParseRecessRanges: the thrown `IllegalArgumentException` and `NumberFormatException` are `Err` results. The surrounding endpoint that catches them is not modelled.
- Export.ExportCurrentAsCsv: takes the timetable as a parameter. `getTimetable` returns an empty map for an empty grid, which the model gives as `map[]`.
- `SubjectPlan` objects are shared and mutated in place by `getOrCreate` and the field writes. The model writes the updated value back into the plan instead, so aliasing is not modelled.
- A fresh `SubjectPlan` has null faculties. The model uses "", which the field writes of `parsePlanCsv` overwrite at once.
- The final grid is not claimed to satisfy the adjacency rule everywhere. The source checks only the previous slot at placement time, and a later placement can land just before an existing session of the same faculty. Example: two days, three slots, one subject with three lectures; gap fill can put the same faculty in back-to-back slots. The model states the placement-time rule (`LectureFits`, `OpenFor`).
- `parsePlanJson` and `extractJsonString` are not part of this model: they are a regular-expression parse.
- `saveToDatabase`, `HistoryService`, `DBConnection`, and the Excel and database-backed exports are not part of this model: they are database and Apache POI calls.
- The Spring controllers' request handling is not part of this model.
- `HistoryController`'s copy of the HTML helpers is not modelled separately.
- In `buildDivisionTablesHtml`, only the structure of each table is modelled: the header, the slot rows, the cell classes, pills and texts. The `LinkedHashMap` result is a map keyed by division.

## Findings

| source | as written | input that shows it | evidently intended | confidence | as-written member | corrected member |
|---|---|---|---|---|---|---|
| TimetableGeneratorApp/src/main/java/com/example/timetablegenerator/controller/TimetableController.java:189-203 | `line.split(",")` drops trailing empty columns, so a six-column row whose lab faculty is left blank has 5 columns and is skipped whole | the plan line `A,X,3,1,F,` | the row is stored, with its lab faculty defaulting to the lecture faculty `F` (line 203) | medium, not executed | Controller.BlankLabFacultyRowIgnored | Controller.BlankLabFacultyDefaults |

`Controller.ParsePlanCsv` keeps the behaviour as written, because it models
`parsePlanCsv` itself. The corrected row reading is `Controller.ApplyLineAll`,
which splits without dropping trailing empty columns. No other part of the
model consumes the parsed plan: the engine takes the plan as an input.
