/**
 * generateTimetable's searches, loops and phases as functions of the
 * configuration and of the state they start from. The methods of
 * TimetableService leave exactly the state these functions compute; the
 * lemmas here prove what that state satisfies.
 */
module Engine {
  import opened Wrappers
  import opened JavaText
  import opened Sessions
  import opened Grid
  import opened Ledger
  import opened Schedule
  import opened Iteration

  // ---------------------------------------------------------------------------
  // The lab search

  /** Position (i, s) comes before the search result `r` in scan order; every position does when there is none. */
  predicate Before(i: int, s: int, r: Option<(int, int)>) {
    r.None? || i < r.value.0 || (i == r.value.0 && s < r.value.1)
  }

  /**
   * The lab search of one pass from day index i and slot s on: days in order,
   * a day skipped when it already holds a lab block of the division or the
   * faculty lacks two units of capacity on it, slot pairs (s, s+1) upwards.
   */
  function FindLab(cfg: Config, st: EngineState, div: string, f: string, i: nat, s: int): (r: Option<(int, int)>)
    ensures r.Some? ==> i <= r.value.0 < |cfg.days|
    decreases |cfg.days| - i, cfg.numSlots - s
  {
    if i >= |cfg.days| then None
    else
      var day := cfg.days[i];
      if day in LabDays(st.hasLab, div) || !HasCapacity(st.count, f, day, 2, cfg.maxPerDay) || s > cfg.numSlots - 1 then
        FindLab(cfg, st, div, f, i + 1, 1)
      else if LabFits(cfg, st, div, day, s, f) then Some((i, s))
      else FindLab(cfg, st, div, f, i, s + 1)
  }

  /** The lab search finds an accepted position, and no position before it in scan order is accepted. */
  lemma {:induction false} FindLabSpec(cfg: Config, st: EngineState, div: string, f: string, i: nat, s: int)
    ensures var r := FindLab(cfg, st, div, f, i, s);
      r.Some? ==> LabFits(cfg, st, div, cfg.days[r.value.0], r.value.1, f)
    ensures var r := FindLab(cfg, st, div, f, i, s);
      forall i', s' :: i <= i' < |cfg.days| && (i' == i ==> s <= s') && Before(i', s', r) ==>
        !LabFits(cfg, st, div, cfg.days[i'], s', f)
    decreases |cfg.days| - i, cfg.numSlots - s
  {
    if i < |cfg.days| {
      var day := cfg.days[i];
      if day in LabDays(st.hasLab, div) || !HasCapacity(st.count, f, day, 2, cfg.maxPerDay) || s > cfg.numSlots - 1 {
        FindLabSpec(cfg, st, div, f, i + 1, 1);
      } else if !LabFits(cfg, st, div, day, s, f) {
        FindLabSpec(cfg, st, div, f, i, s + 1);
      }
    }
  }

  /** One pass of the lab search: from the first day and slot 1. */
  function LabSearch(cfg: Config, st: EngineState, div: string, f: string): Option<(int, int)> {
    FindLab(cfg, st, div, f, 0, 1)
  }

  /** One pass of the lab search finds the first accepted position, and finds none exactly when no day accepts. */
  lemma LabSearchSpec(cfg: Config, st: EngineState, div: string, f: string)
    ensures LabSearch(cfg, st, div, f).Some? ==>
      FirstLabFit(cfg, st, div, f, LabSearch(cfg, st, div, f).value.0, LabSearch(cfg, st, div, f).value.1)
    ensures LabSearch(cfg, st, div, f).None? <==> NoLabFit(cfg, st, div, f)
  {
    FindLabSpec(cfg, st, div, f, 0, 1);
  }

  /** The state after one pass of the lab search; None when the pass places nothing. */
  function LabPass(cfg: Config, st: EngineState, div: string, subject: string, f: string): Option<EngineState> {
    match LabSearch(cfg, st, div, f)
    case None => None
    case Some((i, s)) => Some(PlaceLab(st, div, cfg.days[i], s, subject, f))
  }

  /** A lab pass places nothing exactly when no day of the division accepts a block. */
  lemma LabPassSpec(cfg: Config, st: EngineState, div: string, subject: string, f: string)
    ensures LabPass(cfg, st, div, subject, f).None? <==> NoLabFit(cfg, st, div, f)
  {
    LabSearchSpec(cfg, st, div, f);
  }

  /** One pass of the lab search as a step of the lab loop; it fails when the pass places nothing. */
  function LabStep(cfg: Config, div: string, subject: string, f: string): EngineState -> Option<EngineState> {
    st => LabPass(cfg, st, div, subject, f)
  }

  /** A step of the lab loop is a lab pass. */
  lemma LabStepIsPass(cfg: Config, div: string, subject: string, f: string, st: EngineState)
    ensures LabStep(cfg, div, subject, f)(st) == LabPass(cfg, st, div, subject, f)
  {
  }

  /** The lab loop of one subject in one division: one pass per block still to place, stopping at the first pass that places nothing. */
  function LabLoop(cfg: Config, st: EngineState, div: string, subject: string, f: string, n: int): Rounds<EngineState> {
    Repeat(LabStep(cfg, div, subject, f), st, n)
  }

  /** A lab loop asked for no block changes nothing. */
  lemma LabLoopNone(cfg: Config, st: EngineState, div: string, subject: string, f: string)
    ensures LabLoop(cfg, st, div, subject, f, 0) == Rounds(st, 0)
  {
  }

  /**
   * The lab loop places at most the number of blocks asked for, and fewer
   * only when no day of the division can take one more.
   */
  lemma LabLoopBounds(cfg: Config, st: EngineState, div: string, subject: string, f: string, n: int)
    ensures LabLoop(cfg, st, div, subject, f, n).done <= Max(0, n)
    ensures LabLoop(cfg, st, div, subject, f, n).done < Max(0, n) ==>
      NoLabFit(cfg, LabLoop(cfg, st, div, subject, f, n).last, div, f)
  {
    var r := LabLoop(cfg, st, div, subject, f, n);
    RepeatBounds(LabStep(cfg, div, subject, f), st, n);
    LabPassSpec(cfg, r.last, div, subject, f);
  }

  // ---------------------------------------------------------------------------
  // The lecture search

  /**
   * The lecture search of one pass from the d-th day of the pass and slot s
   * on: days from `start` round the week, a day skipped when the faculty has
   * no capacity left on it, slots from `slotStart` up on every day.
   */
  function FindLecture(cfg: Config, st: EngineState, div: string, f: string, start: int, slotStart: int, d: nat, s: int)
    : Option<(int, int)>
    requires |cfg.days| > 0 && slotStart <= s
    decreases |cfg.days| - d, cfg.numSlots + 1 - s
  {
    if d >= |cfg.days| then None
    else
      var day := ScanDay(cfg.days, start, d);
      if !HasCapacity(st.count, f, day, 1, cfg.maxPerDay) || s > cfg.numSlots then
        FindLecture(cfg, st, div, f, start, slotStart, d + 1, slotStart)
      else if LectureFits(cfg, st, div, day, s, f) then Some((d, s))
      else FindLecture(cfg, st, div, f, start, slotStart, d, s + 1)
  }

  /** The lecture search finds an accepted position, and no position before it in scan order is accepted. */
  lemma {:induction false} FindLectureSpec(cfg: Config, st: EngineState, div: string, f: string, start: int, slotStart: int, d: nat, s: int)
    requires |cfg.days| > 0 && slotStart <= s
    ensures var r := FindLecture(cfg, st, div, f, start, slotStart, d, s);
      r.Some? ==> (d <= r.value.0 < |cfg.days| && slotStart <= r.value.1 &&
                   LectureFits(cfg, st, div, ScanDay(cfg.days, start, r.value.0), r.value.1, f))
    ensures var r := FindLecture(cfg, st, div, f, start, slotStart, d, s);
      forall d', s' :: d <= d' < |cfg.days| && slotStart <= s' && (d' == d ==> s <= s') && Before(d', s', r) ==>
        !LectureFits(cfg, st, div, ScanDay(cfg.days, start, d'), s', f)
    decreases |cfg.days| - d, cfg.numSlots + 1 - s
  {
    if d < |cfg.days| {
      var day := ScanDay(cfg.days, start, d);
      if !HasCapacity(st.count, f, day, 1, cfg.maxPerDay) || s > cfg.numSlots {
        FindLectureSpec(cfg, st, div, f, start, slotStart, d + 1, slotStart);
      } else if !LectureFits(cfg, st, div, day, s, f) {
        FindLectureSpec(cfg, st, div, f, start, slotStart, d, s + 1);
      }
    }
  }

  /** One pass of the lecture search: from the pass's first day and slot `slotStart`. */
  function LectureSearch(cfg: Config, st: EngineState, div: string, f: string, start: int, slotStart: int): Option<(int, int)>
    requires |cfg.days| > 0
  {
    FindLecture(cfg, st, div, f, start, slotStart, 0, slotStart)
  }

  /** One pass of the lecture search finds the first accepted position, and finds none exactly when no day accepts. */
  lemma LectureSearchSpec(cfg: Config, st: EngineState, div: string, f: string, start: int, slotStart: int)
    requires |cfg.days| > 0
    ensures var r := LectureSearch(cfg, st, div, f, start, slotStart);
      r.Some? ==> FirstLectureFit(cfg, st, div, f, start, slotStart, r.value.0, r.value.1)
    ensures LectureSearch(cfg, st, div, f, start, slotStart).None? <==> NoLectureFit(cfg, st, div, f, start, slotStart)
  {
    FindLectureSpec(cfg, st, div, f, start, slotStart, 0, slotStart);
  }

  /** The state after one pass of the lecture search and the slot it used; None when it places nothing. */
  function LecturePass(cfg: Config, st: EngineState, div: string, subject: string, f: string, start: int, slotStart: int)
    : Option<(EngineState, int)>
    requires |cfg.days| > 0
  {
    match LectureSearch(cfg, st, div, f, start, slotStart)
    case None => None
    case Some((d, s)) => Some((PlaceLecture(st, div, ScanDay(cfg.days, start, d), s, subject, f), s))
  }

  /** A lecture pass places nothing exactly when no day accepts the faculty from the cursors on; the slot it uses is a slot of the day. */
  lemma LecturePassSpec(cfg: Config, st: EngineState, div: string, subject: string, f: string, start: int, slotStart: int)
    requires |cfg.days| > 0
    ensures LecturePass(cfg, st, div, subject, f, start, slotStart).None? <==> NoLectureFit(cfg, st, div, f, start, slotStart)
    ensures var r := LecturePass(cfg, st, div, subject, f, start, slotStart);
      r.Some? ==> 1 <= r.value.1 <= cfg.numSlots
  {
    LectureSearchSpec(cfg, st, div, f, start, slotStart);
  }

  /** The lecture loop between passes: the state and the day and slot cursors the next pass starts from. */
  datatype LectureCursor = LectureCursor(st: EngineState, dayStartIdx: int, slotStart: int)

  /**
   * One pass of the lecture search as a step of the lecture loop; it fails
   * when the pass places nothing. After a lecture the day cursor moves one day
   * on from where the pass started and the slot cursor moves past the slot
   * used, wrapping to 1.
   */
  function LectureStep(cfg: Config, div: string, subject: string, f: string): LectureCursor -> Option<LectureCursor> {
    (c: LectureCursor) =>
      if |cfg.days| == 0 || cfg.numSlots <= 0 then None
      else match LecturePass(cfg, c.st, div, subject, f, c.dayStartIdx, c.slotStart)
        case None => None
        case Some((st', s)) => Some(LectureCursor(st', (c.dayStartIdx + 1) % |cfg.days|, (s % cfg.numSlots) + 1))
  }

  /** A lecture pass that places at slot s moves the cursors: the next day, and the slot after s. */
  lemma LectureStepPlaces(cfg: Config, div: string, subject: string, f: string, c: LectureCursor, st': EngineState, s: int)
    requires |cfg.days| > 0 && cfg.numSlots > 0
    requires LecturePass(cfg, c.st, div, subject, f, c.dayStartIdx, c.slotStart) == Some((st', s))
    ensures LectureStep(cfg, div, subject, f)(c) == Some(LectureCursor(st', (c.dayStartIdx + 1) % |cfg.days|, (s % cfg.numSlots) + 1))
  {
  }

  /** A lecture pass that places nothing fails the step. */
  lemma LectureStepFails(cfg: Config, div: string, subject: string, f: string, c: LectureCursor)
    requires |cfg.days| > 0 && cfg.numSlots > 0
    requires LecturePass(cfg, c.st, div, subject, f, c.dayStartIdx, c.slotStart).None?
    ensures LectureStep(cfg, div, subject, f)(c).None?
  {
  }

  /** The lecture loop of one subject in one division: one pass per lecture still to place, stopping at the first pass that places nothing. */
  function LectureLoop(cfg: Config, st: EngineState, div: string, subject: string, f: string, n: int,
                       dayStartIdx: int, slotStart: int): Rounds<LectureCursor>
    requires |cfg.days| > 0 && cfg.numSlots > 0
  {
    Repeat(LectureStep(cfg, div, subject, f), LectureCursor(st, dayStartIdx, slotStart), n)
  }

  /**
   * The lecture loop places at most the number of lectures asked for, and
   * fewer only when no day accepts the faculty at or after the final cursors.
   */
  lemma LectureLoopBounds(cfg: Config, st: EngineState, div: string, subject: string, f: string, n: int,
                          dayStartIdx: int, slotStart: int)
    requires |cfg.days| > 0 && cfg.numSlots > 0
    ensures LectureLoop(cfg, st, div, subject, f, n, dayStartIdx, slotStart).done <= Max(0, n)
    ensures var r := LectureLoop(cfg, st, div, subject, f, n, dayStartIdx, slotStart);
      r.done < Max(0, n) ==> NoLectureFit(cfg, r.last.st, div, f, r.last.dayStartIdx, r.last.slotStart)
  {
    var r := LectureLoop(cfg, st, div, subject, f, n, dayStartIdx, slotStart);
    RepeatBounds(LectureStep(cfg, div, subject, f), LectureCursor(st, dayStartIdx, slotStart), n);
    LecturePassSpec(cfg, r.last.st, div, subject, f, r.last.dayStartIdx, r.last.slotStart);
  }

  // ---------------------------------------------------------------------------
  // The phases of a run

  /** The two input modes: a per-division plan, or one subject list for every division. */
  datatype Mode =
    | PlanMode(plan: Plan)
    | UniformMode(subjects: seq<string>, labSubjects: seq<string>, totalLectures: int, totalLabs: int)

  /** One subject's work in one division: its name, its faculty and how many sessions to place. */
  datatype Job = Job(subject: string, faculty: string, count: int)

  /** `facultyBySubject.getOrDefault(subject, "Faculty-" + subject)`. */
  function FacultyFor(facultyBySubject: map<string, string>, subject: string): string {
    if subject in facultyBySubject then facultyBySubject[subject] else "Faculty-" + subject
  }

  /** The uniform-mode map: each subject is taught by "Faculty-" followed by its trimmed name. */
  function FacultyMap(names: seq<string>): map<string, string> {
    map sub | sub in names :: "Faculty-" + Trim(sub)
  }

  /** Adding a subject to the list adds its entry to the map. */
  lemma FacultyMapSnoc(names: seq<string>, name: string)
    ensures FacultyMap(names + [name]) == FacultyMap(names)[name := "Faculty-" + Trim(name)]
  {
    assert forall sub :: sub in names + [name] <==> sub in names || sub == name;
  }

  /** Plan-mode lab work: each subject plan's blocks, taught by its lab faculty or else its lecture faculty. */
  function PlanLabJobs(subs: seq<SubjectPlan>): (r: seq<Job>)
    ensures |r| == |subs|
    ensures forall k :: 0 <= k < |subs| ==> r[k] == Job(subs[k].subject, LabFacultyOf(subs[k]), Max(0, subs[k].labsPerWeek))
  {
    if subs == [] then []
    else [Job(subs[0].subject, LabFacultyOf(subs[0]), Max(0, subs[0].labsPerWeek))] + PlanLabJobs(subs[1..])
  }

  /** Plan-mode lecture work: each subject plan's lectures, taught by its lecture faculty. */
  function PlanLectureJobs(subs: seq<SubjectPlan>): (r: seq<Job>)
    ensures |r| == |subs|
    ensures forall k :: 0 <= k < |subs| ==> r[k] == Job(subs[k].subject, subs[k].lectureFaculty, Max(0, subs[k].lecturesPerWeek))
  {
    if subs == [] then []
    else [Job(subs[0].subject, subs[0].lectureFaculty, Max(0, subs[0].lecturesPerWeek))] + PlanLectureJobs(subs[1..])
  }

  /** Uniform-mode work: the same number of sessions for every subject, taught by its mapped faculty. */
  function UniformJobs(subjects: seq<string>, facultyBySubject: map<string, string>, count: int): (r: seq<Job>)
    ensures |r| == |subjects|
    ensures forall k :: 0 <= k < |subjects| ==> r[k] == Job(subjects[k], FacultyFor(facultyBySubject, subjects[k]), Max(0, count))
  {
    if subjects == [] then []
    else [Job(subjects[0], FacultyFor(facultyBySubject, subjects[0]), Max(0, count))] + UniformJobs(subjects[1..], facultyBySubject, count)
  }

  function LabJobsFor(mode: Mode, div: string): seq<Job> {
    match mode
    case PlanMode(plan) => PlanLabJobs(PlanFor(plan, div))
    case UniformMode(subjects, labSubjects, _, totalLabs) => UniformJobs(labSubjects, FacultyMap(subjects), totalLabs)
  }

  /** In uniform mode every division gets the same lab jobs. */
  lemma UniformLabJobs(subjects: seq<string>, labSubjects: seq<string>, totalLectures: int, totalLabs: int, div: string)
    ensures LabJobsFor(UniformMode(subjects, labSubjects, totalLectures, totalLabs), div) ==
      UniformJobs(labSubjects, FacultyMap(subjects), totalLabs)
  {
  }

  function LectureJobsFor(mode: Mode, div: string): seq<Job> {
    match mode
    case PlanMode(plan) => PlanLectureJobs(PlanFor(plan, div))
    case UniformMode(subjects, _, totalLectures, _) => UniformJobs(subjects, FacultyMap(subjects), totalLectures)
  }

  /** The gap-fill candidates of a division, in the order the source offers them. */
  function OffersFor(mode: Mode, div: string): seq<Offer> {
    match mode
    case PlanMode(plan) => PlanOffers(PlanFor(plan, div))
    case UniformMode(subjects, _, _, _) => UniformOffers(subjects, FacultyMap(subjects))
  }

  /** The lab loops of one division, job by job. */
  function LabJobs(cfg: Config, st: EngineState, div: string, jobs: seq<Job>): EngineState
    decreases |jobs|
  {
    if jobs == [] then st
    else LabJobs(cfg, LabLoop(cfg, st, div, jobs[0].subject, jobs[0].faculty, jobs[0].count).last, div, jobs[1..])
  }

  /** The lecture loops of one division, job by job, each with fresh cursors. */
  function LectureJobs(cfg: Config, st: EngineState, div: string, jobs: seq<Job>): EngineState
    requires |cfg.days| > 0 && cfg.numSlots > 0
    decreases |jobs|
  {
    if jobs == [] then st
    else LectureJobs(cfg, LectureLoop(cfg, st, div, jobs[0].subject, jobs[0].faculty, jobs[0].count, 0, 1).last.st, div, jobs[1..])
  }

  /** The lab phase: every division in order. */
  function LabPhase(cfg: Config, st: EngineState, mode: Mode, divs: seq<string>): EngineState
    decreases |divs|
  {
    if divs == [] then st
    else LabPhase(cfg, LabJobs(cfg, st, divs[0], LabJobsFor(mode, divs[0])), mode, divs[1..])
  }

  /** The lecture phase: every division in order. */
  function LecturePhase(cfg: Config, st: EngineState, mode: Mode, divs: seq<string>): EngineState
    requires |cfg.days| > 0 && cfg.numSlots > 0
    decreases |divs|
  {
    if divs == [] then st
    else LecturePhase(cfg, LectureJobs(cfg, st, divs[0], LectureJobsFor(mode, divs[0])), mode, divs[1..])
  }

  /** The lab loops from job k on: the loop of job k, then the rest. */
  lemma LabJobsAt(cfg: Config, st: EngineState, div: string, jobs: seq<Job>, k: int)
    requires 0 <= k < |jobs|
    ensures LabJobs(cfg, st, div, jobs[k..]) ==
      LabJobs(cfg, LabLoop(cfg, st, div, jobs[k].subject, jobs[k].faculty, jobs[k].count).last, div, jobs[k + 1..])
  {
    assert jobs[k..][0] == jobs[k];
    assert jobs[k..][1..] == jobs[k + 1..];
  }

  /** The lecture loops from job k on: the loop of job k, then the rest. */
  lemma LectureJobsAt(cfg: Config, st: EngineState, div: string, jobs: seq<Job>, k: int)
    requires |cfg.days| > 0 && cfg.numSlots > 0
    requires 0 <= k < |jobs|
    ensures LectureJobs(cfg, st, div, jobs[k..]) ==
      LectureJobs(cfg, LectureLoop(cfg, st, div, jobs[k].subject, jobs[k].faculty, jobs[k].count, 0, 1).last.st, div, jobs[k + 1..])
  {
    assert jobs[k..][0] == jobs[k];
    assert jobs[k..][1..] == jobs[k + 1..];
  }

  /** The lab phase from division i on: the lab jobs of division i, then the rest. */
  lemma LabPhaseAt(cfg: Config, st: EngineState, mode: Mode, divs: seq<string>, i: int)
    requires 0 <= i < |divs|
    ensures LabPhase(cfg, st, mode, divs[i..]) ==
      LabPhase(cfg, LabJobs(cfg, st, divs[i], LabJobsFor(mode, divs[i])), mode, divs[i + 1..])
  {
    assert divs[i..][0] == divs[i];
    assert divs[i..][1..] == divs[i + 1..];
  }

  /** The lecture phase from division i on: the lecture jobs of division i, then the rest. */
  lemma LecturePhaseAt(cfg: Config, st: EngineState, mode: Mode, divs: seq<string>, i: int)
    requires |cfg.days| > 0 && cfg.numSlots > 0
    requires 0 <= i < |divs|
    ensures LecturePhase(cfg, st, mode, divs[i..]) ==
      LecturePhase(cfg, LectureJobs(cfg, st, divs[i], LectureJobsFor(mode, divs[i])), mode, divs[i + 1..])
  {
    assert divs[i..][0] == divs[i];
    assert divs[i..][1..] == divs[i + 1..];
  }

  // ---------------------------------------------------------------------------
  // Gap fill

  /** The first candidate from index k on whose faculty every guard accepts at the cell; -1 when there is none. */
  function FindOffer(cfg: Config, st: EngineState, div: string, day: string, slot: int, offers: seq<Offer>, k: nat): (r: int)
    ensures r == -1 || k <= r < |offers|
    ensures r >= 0 ==> LectureFits(cfg, st, div, day, slot, offers[r].faculty)
    ensures forall k' :: k <= k' < |offers| && (r == -1 || k' < r) ==> !LectureFits(cfg, st, div, day, slot, offers[k'].faculty)
    decreases |offers| - k
  {
    if k >= |offers| then -1
    else if LectureFits(cfg, st, div, day, slot, offers[k].faculty) then k
    else FindOffer(cfg, st, div, day, slot, offers, k + 1)
  }

  /** Gap fill of one free cell: the first accepted candidate gets a lecture there; otherwise the cell stays free. */
  function GapFillCell(cfg: Config, st: EngineState, div: string, day: string, slot: int, offers: seq<Offer>): EngineState {
    var k := FindOffer(cfg, st, div, day, slot, offers, 0);
    if k < 0 then st else PlaceLecture(st, div, day, slot, offers[k].subject, offers[k].faculty)
  }

  /** Gap fill at slot k of one day: an occupied or recess cell is skipped, a free one gets the first accepted candidate. */
  function GapFillStep(cfg: Config, div: string, day: string, offers: seq<Offer>): (EngineState, int) -> EngineState {
    (st: EngineState, k: int) =>
      var ds := DaySlots(st.t, div, day);
      if k in ds || IsRecess(ds, k) then st else GapFillCell(cfg, st, div, day, k, offers)
  }

  /** Gap fill of one day, slots 1 to numSlots in order. */
  function GapFillSlots(cfg: Config, st: EngineState, div: string, day: string, offers: seq<Offer>): EngineState {
    Sweep(GapFillStep(cfg, div, day, offers), st, 1, cfg.numSlots)
  }

  /** Gap fill of one division over the given days, in order. */
  function GapFillDays(cfg: Config, st: EngineState, div: string, days: seq<string>, offers: seq<Offer>): EngineState
    decreases |days|
  {
    if days == [] then st
    else GapFillDays(cfg, GapFillSlots(cfg, st, div, days[0], offers), div, days[1..], offers)
  }

  /** The gap-fill phase: every division in order, each with its own candidates. */
  function GapFillPhase(cfg: Config, st: EngineState, mode: Mode, divs: seq<string>): EngineState
    decreases |divs|
  {
    if divs == [] then st
    else GapFillPhase(cfg, GapFillDays(cfg, st, divs[0], cfg.days, OffersFor(mode, divs[0])), mode, divs[1..])
  }

  /** Gap fill of a division from day j on: day j, then the rest. */
  lemma GapFillDaysAt(cfg: Config, st: EngineState, div: string, days: seq<string>, offers: seq<Offer>, j: int)
    requires 0 <= j < |days|
    ensures GapFillDays(cfg, st, div, days[j..], offers) ==
      GapFillDays(cfg, GapFillSlots(cfg, st, div, days[j], offers), div, days[j + 1..], offers)
  {
    assert days[j..][0] == days[j];
    assert days[j..][1..] == days[j + 1..];
  }

  /** The gap-fill phase from division i on: division i over every day, then the rest. */
  lemma GapFillPhaseAt(cfg: Config, st: EngineState, mode: Mode, divs: seq<string>, i: int)
    requires 0 <= i < |divs|
    ensures GapFillPhase(cfg, st, mode, divs[i..]) ==
      GapFillPhase(cfg, GapFillDays(cfg, st, divs[i], cfg.days, OffersFor(mode, divs[i])), mode, divs[i + 1..])
  {
    assert divs[i..][0] == divs[i];
    assert divs[i..][1..] == divs[i + 1..];
  }

  // ---------------------------------------------------------------------------
  // A whole run

  /** The faculties of each subject plan of one division, in order (facultiesOf for each). */
  function SubsFaculties(subs: seq<SubjectPlan>): (r: seq<string>)
    ensures forall f :: f in r <==> exists k :: 0 <= k < |subs| && f in FacultiesOf(subs[k])
  {
    if subs == [] then []
    else
      var r := FacultiesOf(subs[0]) + SubsFaculties(subs[1..]);
      assert forall k :: 0 < k < |subs| ==> subs[1..][k - 1] == subs[k];
      r
  }

  /** Plan mode: the faculties seeded into the ledger, division plan by division plan. */
  function PlanFaculties(plan: Plan): (r: seq<string>)
    ensures forall f :: f in r <==> exists i :: 0 <= i < |plan| && f in SubsFaculties(plan[i].subjects)
  {
    if plan == [] then []
    else
      var r := SubsFaculties(plan[0].subjects) + PlanFaculties(plan[1..]);
      assert forall i :: 0 < i < |plan| ==> plan[1..][i - 1] == plan[i];
      r
  }

  /** Uniform mode: the faculty of each subject, "Faculty-" followed by its trimmed name. */
  function UniformFaculties(subjects: seq<string>): (r: seq<string>)
    ensures |r| == |subjects|
    ensures forall k :: 0 <= k < |subjects| ==> r[k] == FacultyMap(subjects)[subjects[k]]
  {
    if subjects == [] then []
    else ["Faculty-" + Trim(subjects[0])] + UniformFaculties(subjects[1..])
  }

  /** The ledger after seeding: an entry of load 0 for every day of every faculty of the mode. */
  function SeededCount(cfg: Config, mode: Mode): (r: DayCount)
    ensures forall f, d :: Used(r, f, d) == 0
  {
    match mode
    case PlanMode(plan) => SeedFaculties(map[], PlanFaculties(plan), cfg.days)
    case UniformMode(subjects, _, _, _) => SeedFaculties(map[], UniformFaculties(subjects), cfg.days)
  }

  /** The state a run starts from: the recess grid, no lab flags, nobody busy, the seeded ledger. */
  function Start(cfg: Config, mode: Mode): EngineState {
    EngineState(InitialGrid(cfg), InitialFlags(cfg), {}, SeededCount(cfg, mode))
  }

  /** A whole run after the grid is initialised and the ledger seeded: labs, lectures, gap fill. */
  function Run(cfg: Config, st: EngineState, mode: Mode): EngineState
    requires ValidConfig(cfg)
  {
    var afterLabs := LabPhase(cfg, st, mode, cfg.divisions);
    var afterLectures := LecturePhase(cfg, afterLabs, mode, cfg.divisions);
    GapFillPhase(cfg, afterLectures, mode, cfg.divisions)
  }

  /** generateTimetable on a valid configuration: a run from the start state. */
  function Generated(cfg: Config, mode: Mode): EngineState
    requires ValidConfig(cfg)
  {
    Run(cfg, Start(cfg, mode), mode)
  }
}
