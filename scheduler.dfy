/**
 * TimetableService: the inputs it keeps, the grid it fills in place, and
 * generateTimetable with its phases: recess initialisation, lab blocks,
 * lectures with a rotating cursor, and gap fill. The faculty ledger of one
 * run is a FacultyLedger object that the phases share.
 */
module Scheduler {
  import opened Wrappers
  import opened JavaText
  import opened Sessions
  import opened Grid
  import opened Ledger
  import opened Schedule
  import opened Iteration
  import opened Engine
  import opened RunProperties

  /** A nullable list argument: null reads as the empty list. */
  function OrEmpty<T>(x: Option<seq<T>>): (r: seq<T>)
    ensures x.Some? ==> r == x.value
    ensures x.None? ==> r == []
  {
    if x.Some? then x.value else []
  }

  /** `set.addAll(xs)` on a LinkedHashSet held as its list of elements. */
  method AddAllInPlace(acc: seq<string>, xs: seq<string>) returns (r: seq<string>)
    ensures r == AddAll(acc, xs)
  {
    r := acc;
    var i := 0;
    while i < |xs|
      invariant 0 <= i <= |xs|
      invariant AddAll(r, xs[i..]) == AddAll(acc, xs)
    {
      assert xs[i..][1..] == xs[i + 1..];
      if xs[i] !in r {
        r := r + [xs[i]];
      }
      i := i + 1;
    }
  }

  /** setInputs' subject set: a LinkedHashSet filled with the subjects, when given, then the lab subjects. */
  method MergeSubjects(subjectNames: Option<seq<string>>, labSubjects: Option<seq<string>>) returns (merged: seq<string>)
    ensures merged == AddAll(AddAll([], OrEmpty(subjectNames)), OrEmpty(labSubjects))
  {
    merged := [];
    if subjectNames.Some? {
      merged := AddAllInPlace(merged, subjectNames.value);
    } else {
      assert AddAll([], []) == [];
    }
    merged := AddAllInPlace(merged, OrEmpty(labSubjects));
  }

  /** setInputsWithPlan's subject set: the subject keys of every division of the plan, in order, in one LinkedHashSet. */
  method MergePlanSubjects(plan: Plan) returns (subs: seq<string>)
    ensures subs == PlanSubjectNames([], plan)
    ensures Distinct(subs)
  {
    subs := [];
    var i := 0;
    while i < |plan|
      invariant 0 <= i <= |plan|
      invariant Distinct(subs)
      invariant PlanSubjectNames(subs, plan[i..]) == PlanSubjectNames([], plan)
    {
      assert plan[i..][1..] == plan[i + 1..];
      subs := AddAllInPlace(subs, SubjectKeys(plan[i].subjects));
      i := i + 1;
    }
  }

  /** The uniform-mode map subject -> "Faculty-" + subject.trim(). */
  method FacultyBySubject(names: seq<string>) returns (m: map<string, string>)
    ensures m == FacultyMap(names)
  {
    m := map[];
    var i := 0;
    while i < |names|
      invariant 0 <= i <= |names|
      invariant m == FacultyMap(names[..i])
    {
      FacultyMapSnoc(names[..i], names[i]);
      assert names[..i + 1] == names[..i] + [names[i]];
      m := m[names[i] := "Faculty-" + Trim(names[i])];
      i := i + 1;
    }
    assert names[..i] == names;
  }

  class TimetableService {
    var days: seq<string>
    var numSlots: int
    var divisions: seq<string>
    var maxLecturesPerDay: int
    /** Uniform mode: lectures per subject per division per week. */
    var totalLectures: int
    /** Uniform mode: lab blocks per lab subject per division per week. */
    var totalLabs: int
    /** Subjects and lab subjects merged, in first-seen order. */
    var subjectNames: seq<string>
    var labSubjects: seq<string>
    var recesses: seq<(int, int)>
    /** Plan mode: division -> subject -> SubjectPlan; empty in uniform mode. */
    var planByDivision: Plan
    /** timetable[division][day][slot]. */
    var timetable: Timetable
    /** The days of each division that already hold a lab block. */
    var divisionDayHasLab: map<string, set<string>>

    constructor()
      ensures days == [] && numSlots == 0 && divisions == [] && maxLecturesPerDay == 0
      ensures totalLectures == 0 && totalLabs == 0
      ensures subjectNames == [] && labSubjects == [] && recesses == [] && planByDivision == []
      ensures timetable == map[] && divisionDayHasLab == map[]
    {
      days := [];
      numSlots := 0;
      divisions := [];
      maxLecturesPerDay := 0;
      totalLectures := 0;
      totalLabs := 0;
      subjectNames := [];
      labSubjects := [];
      recesses := [];
      planByDivision := [];
      timetable := map[];
      divisionDayHasLab := map[];
    }

    function Cfg(): Config
      reads this`days, this`numSlots, this`divisions, this`recesses, this`maxLecturesPerDay
    {
      Config(days, numSlots, divisions, recesses, maxLecturesPerDay)
    }

    function State(ledger: FacultyLedger): EngineState
      reads this`timetable, this`divisionDayHasLab, ledger
    {
      EngineState(timetable, divisionDayHasLab, ledger.busy, ledger.dayCount)
    }

    /** The input mode: plan mode when the plan map is not empty, uniform mode otherwise. */
    function CurrentMode(): Mode
      reads this`planByDivision, this`subjectNames, this`labSubjects, this`totalLectures, this`totalLabs
    {
      if |planByDivision| > 0 then PlanMode(planByDivision)
      else UniformMode(subjectNames, labSubjects, totalLectures, totalLabs)
    }

    // -------------------------------------------------------------------------
    // Input setup

    /** The inputs both setters assign alike: days, slots, divisions, recesses (none given: none) and the daily lecture cap. */
    method SetSchedule(days: seq<string>, numSlots: int, divisions: seq<string>,
                       recesses: Option<seq<(int, int)>>, maxLecturesPerDay: int)
      modifies this`days, this`numSlots, this`divisions, this`recesses, this`maxLecturesPerDay
      ensures this.days == days && this.numSlots == numSlots && this.divisions == divisions
      ensures this.recesses == OrEmpty(recesses) && this.maxLecturesPerDay == maxLecturesPerDay
    {
      this.days := days;
      this.numSlots := numSlots;
      this.divisions := divisions;
      this.recesses := OrEmpty(recesses);
      this.maxLecturesPerDay := maxLecturesPerDay;
    }

    /**
     * setInputs: uniform mode. The subject list becomes subjects followed by lab
     * subjects without repeats, first occurrence first; the plan is cleared.
     */
    method SetInputs(days: seq<string>, numSlots: int, divisions: seq<string>,
                     subjectNames: Option<seq<string>>, labSubjects: Option<seq<string>>,
                     recesses: Option<seq<(int, int)>>, maxLecturesPerDay: int,
                     totalLectures: int, totalLabs: int)
      modifies this`days, this`numSlots, this`divisions, this`subjectNames, this`labSubjects,
               this`recesses, this`maxLecturesPerDay, this`totalLectures, this`totalLabs, this`planByDivision
      ensures this.days == days && this.numSlots == numSlots && this.divisions == divisions
      ensures this.subjectNames == AddAll(AddAll([], OrEmpty(subjectNames)), OrEmpty(labSubjects))
      ensures this.labSubjects == OrEmpty(labSubjects) && this.recesses == OrEmpty(recesses)
      ensures this.maxLecturesPerDay == maxLecturesPerDay
      ensures this.totalLectures == totalLectures && this.totalLabs == totalLabs
      ensures this.planByDivision == []
    {
      var merged := MergeSubjects(subjectNames, labSubjects);
      SetSchedule(days, numSlots, divisions, recesses, maxLecturesPerDay);
      this.subjectNames := merged;
      this.labSubjects := OrEmpty(labSubjects);
      this.totalLectures := totalLectures;
      this.totalLabs := totalLabs;
      this.planByDivision := [];
    }

    /**
     * setInputsWithPlan: plan mode. The subject list becomes every subject key of
     * the plan without repeats; lab subjects and the uniform totals are cleared.
     */
    method SetInputsWithPlan(days: seq<string>, numSlots: int, divisions: seq<string>,
                             recesses: Option<seq<(int, int)>>, maxLecturesPerDay: int,
                             planByDivision: Option<Plan>)
      modifies this`days, this`numSlots, this`divisions, this`subjectNames, this`labSubjects,
               this`recesses, this`maxLecturesPerDay, this`totalLectures, this`totalLabs, this`planByDivision
      ensures this.days == days && this.numSlots == numSlots && this.divisions == divisions
      ensures this.recesses == OrEmpty(recesses) && this.maxLecturesPerDay == maxLecturesPerDay
      ensures this.planByDivision == OrEmpty(planByDivision)
      ensures this.subjectNames == PlanSubjectNames([], this.planByDivision)
      ensures Distinct(this.subjectNames)
      ensures this.labSubjects == [] && this.totalLectures == 0 && this.totalLabs == 0
    {
      var plan := OrEmpty(planByDivision);
      var subs := MergePlanSubjects(plan);
      SetSchedule(days, numSlots, divisions, recesses, maxLecturesPerDay);
      this.planByDivision := plan;
      this.subjectNames := subs;
      this.labSubjects := [];
      this.totalLectures := 0;
      this.totalLabs := 0;
    }

    // -------------------------------------------------------------------------
    // Grid initialisation

    /** The day table of one (division, day): RECESS in each recess range clipped to [1, numSlots]. */
    method RecessSlots() returns (daySlots: DayTable)
      ensures forall s :: s in daySlots <==> 1 <= s <= numSlots && InRecess(recesses, numSlots, s)
      ensures forall s :: s in daySlots ==> daySlots[s] == RecessSession
    {
      daySlots := map[];
      var k := 0;
      while k < |recesses|
        invariant 0 <= k <= |recesses|
        invariant forall s :: s in daySlots <==> 1 <= s <= numSlots && InRecess(recesses[..k], numSlots, s)
        invariant forall s :: s in daySlots ==> daySlots[s] == RecessSession
      {
        var start := Max(1, recesses[k].0);
        var end := Min(numSlots, recesses[k].1);
        var s := start;
        while s <= end
          invariant start <= s && (s == start || s <= end + 1)
          invariant forall s' :: s' in daySlots <==>
            (1 <= s' <= numSlots && InRecess(recesses[..k], numSlots, s')) || start <= s' < s
          invariant forall s' :: s' in daySlots ==> daySlots[s'] == RecessSession
        {
          daySlots := daySlots[s := RecessSession];
          s := s + 1;
        }
        forall s' {
          InRecessSnoc(recesses, k, numSlots, s');
        }
        k := k + 1;
      }
      assert recesses[..k] == recesses;
    }

    /** The day tables of one division: a recess-only table for every day. */
    method RecessDivision() returns (divisionTable: map<string, DayTable>)
      ensures divisionTable == map day | day in days :: RecessDay(Cfg())
    {
      divisionTable := map[];
      var j := 0;
      while j < |days|
        invariant 0 <= j <= |days|
        invariant forall day :: day in divisionTable <==> day in days[..j]
        invariant forall day :: day in divisionTable ==> divisionTable[day] == RecessDay(Cfg())
      {
        var daySlots := RecessSlots();
        assert daySlots == RecessDay(Cfg());
        divisionTable := divisionTable[days[j] := daySlots];
        assert days[..j + 1] == days[..j] + [days[j]];
        j := j + 1;
      }
      assert days[..j] == days;
    }

    /** The lab flags of a fresh run: an empty set of lab days per division. */
    method EmptyFlags() returns (flags: map<string, set<string>>)
      ensures flags == InitialFlags(Cfg())
    {
      flags := map[];
      var i := 0;
      while i < |divisions|
        invariant 0 <= i <= |divisions|
        invariant forall div :: div in flags <==> div in divisions[..i]
        invariant forall div :: div in flags ==> flags[div] == {}
      {
        flags := flags[divisions[i] := {}];
        assert divisions[..i + 1] == divisions[..i] + [divisions[i]];
        i := i + 1;
      }
      assert divisions[..i] == divisions;
    }

    /** The grid of a fresh run: the recess-only day tables of every division. */
    method RecessGrid() returns (grid: Timetable)
      ensures grid == InitialGrid(Cfg())
    {
      grid := map[];
      var i := 0;
      while i < |divisions|
        invariant 0 <= i <= |divisions|
        invariant forall div :: div in grid <==> div in divisions[..i]
        invariant forall div :: div in grid ==> grid[div] == map day | day in days :: RecessDay(Cfg())
      {
        var divisionTable := RecessDivision();
        grid := grid[divisions[i] := divisionTable];
        assert divisions[..i + 1] == divisions[..i] + [divisions[i]];
        i := i + 1;
      }
      assert divisions[..i] == divisions;
    }

    /**
     * The clear-and-rebuild step of generateTimetable: an empty lab flag set per
     * division, and a recess-only day table per (division, day).
     */
    method InitGrid()
      modifies this`timetable, this`divisionDayHasLab
      ensures timetable == InitialGrid(Cfg()) && divisionDayHasLab == InitialFlags(Cfg())
    {
      divisionDayHasLab := EmptyFlags();
      timetable := RecessGrid();
    }

    // -------------------------------------------------------------------------
    // Ledger seeding

    /** The faculties of the subject plans of one division, each given a zero entry for every day. */
    method SeedDivisionFaculties(ledger: FacultyLedger, subs: seq<SubjectPlan>)
      modifies ledger
      ensures ledger.busy == old(ledger.busy)
      ensures ledger.dayCount == SeedFaculties(old(ledger.dayCount), SubsFaculties(subs), days)
    {
      ghost var goal := SeedFaculties(ledger.dayCount, SubsFaculties(subs), days);
      var k := 0;
      while k < |subs|
        invariant 0 <= k <= |subs|
        invariant ledger.busy == old(ledger.busy)
        invariant SeedFaculties(ledger.dayCount, SubsFaculties(subs[k..]), days) == goal
      {
        assert subs[k..][1..] == subs[k + 1..];
        SeedFacultiesAppend(ledger.dayCount, FacultiesOf(subs[k]), SubsFaculties(subs[k + 1..]), days);
        ledger.SeedAll(FacultiesOf(subs[k]), days);
        k := k + 1;
      }
      assert subs[k..] == [];
    }

    /** Plan mode: every faculty of every subject plan of the plan map gets a zero entry for every day. */
    method SeedPlanFaculties(ledger: FacultyLedger)
      modifies ledger
      ensures ledger.busy == old(ledger.busy)
      ensures ledger.dayCount == SeedFaculties(old(ledger.dayCount), PlanFaculties(planByDivision), days)
    {
      ghost var goal := SeedFaculties(ledger.dayCount, PlanFaculties(planByDivision), days);
      var i := 0;
      while i < |planByDivision|
        invariant 0 <= i <= |planByDivision|
        invariant ledger.busy == old(ledger.busy)
        invariant SeedFaculties(ledger.dayCount, PlanFaculties(planByDivision[i..]), days) == goal
      {
        assert planByDivision[i..][1..] == planByDivision[i + 1..];
        SeedFacultiesAppend(ledger.dayCount, SubsFaculties(planByDivision[i].subjects), PlanFaculties(planByDivision[i + 1..]), days);
        SeedDivisionFaculties(ledger, planByDivision[i].subjects);
        i := i + 1;
      }
      assert planByDivision[i..] == [];
    }

    /** Uniform mode: the faculty of every subject gets a zero entry for every day. */
    method SeedUniformFaculties(ledger: FacultyLedger, facultyBySubject: map<string, string>)
      requires facultyBySubject == FacultyMap(subjectNames)
      modifies ledger
      ensures ledger.busy == old(ledger.busy)
      ensures ledger.dayCount == SeedFaculties(old(ledger.dayCount), UniformFaculties(subjectNames), days)
    {
      ghost var goal := SeedFaculties(ledger.dayCount, UniformFaculties(subjectNames), days);
      var k := 0;
      while k < |subjectNames|
        invariant 0 <= k <= |subjectNames|
        invariant ledger.busy == old(ledger.busy)
        invariant SeedFaculties(ledger.dayCount, UniformFaculties(subjectNames[k..]), days) == goal
      {
        assert subjectNames[k..][1..] == subjectNames[k + 1..];
        ledger.Seed(facultyBySubject[subjectNames[k]], days);
        k := k + 1;
      }
    }

    // -------------------------------------------------------------------------
    // Placements

    /** The two cells of a lab block, both busy marks, a load of 2 and the day's lab flag. */
    method PlaceLabBlock(ledger: FacultyLedger, division: string, day: string, s: int, subject: string, faculty: string)
      modifies this`timetable, this`divisionDayHasLab, ledger
      ensures State(ledger) == PlaceLab(old(State(ledger)), division, day, s, subject, faculty)
    {
      var x := Taught(subject, faculty, Lab);
      timetable := Put(timetable, division, day, s, x);
      timetable := Put(timetable, division, day, s + 1, x);
      ledger.MarkBusy(day, s, faculty);
      ledger.MarkBusy(day, s + 1, faculty);
      ledger.IncrementCount(faculty, day, 2);
      divisionDayHasLab := divisionDayHasLab[division := LabDays(divisionDayHasLab, division) + {day}];
      IncrementedTwice(old(ledger.dayCount), faculty, day);
    }

    /** The cell of a lecture, its busy mark and a load of 1. */
    method PlaceLectureCell(ledger: FacultyLedger, division: string, day: string, s: int, subject: string, faculty: string)
      modifies this`timetable, ledger
      ensures State(ledger) == PlaceLecture(old(State(ledger)), division, day, s, subject, faculty)
    {
      timetable := Put(timetable, division, day, s, Taught(subject, faculty, Lecture));
      ledger.MarkBusy(day, s, faculty);
      ledger.IncrementCount(faculty, day, 1);
    }

    // -------------------------------------------------------------------------
    // Labs

    /**
     * One pass of the lab search: days in order, slot pairs upwards; the first
     * pair every guard accepts receives the block; when none does, nothing
     * changes.
     */
    method TryPlaceLab(ledger: FacultyLedger, division: string, subject: string, faculty: string)
      returns (placed: bool)
      modifies this`timetable, this`divisionDayHasLab, ledger
      ensures LabStep(Cfg(), division, subject, faculty)(old(State(ledger))) == if placed then Some(State(ledger)) else None
      ensures !placed ==> State(ledger) == old(State(ledger))
    {
      ghost var st0 := State(ledger);
      var i := 0;
      while i < |days|
        invariant 0 <= i <= |days|
        invariant State(ledger) == st0
        invariant FindLab(Cfg(), st0, division, faculty, i, 1) == LabSearch(Cfg(), st0, division, faculty)
      {
        var day := days[i];
        if day !in LabDays(divisionDayHasLab, division) && HasCapacity(ledger.dayCount, faculty, day, 2, maxLecturesPerDay) {
          var daySlots := DaySlots(timetable, division, day);
          var s := 1;
          while s <= numSlots - 1
            invariant 1 <= s
            invariant State(ledger) == st0
            invariant FindLab(Cfg(), st0, division, faculty, i, s) == LabSearch(Cfg(), st0, division, faculty)
          {
            if !IsRecess(daySlots, s) && !IsRecess(daySlots, s + 1) &&
               s !in daySlots && s + 1 !in daySlots &&
               !IsFacultyBusy(ledger.busy, day, s, faculty) && !IsFacultyBusy(ledger.busy, day, s + 1, faculty)
            {
              PlaceLabBlock(ledger, division, day, s, subject, faculty);
              LabStepIsPass(Cfg(), division, subject, faculty, st0);
              return true;
            }
            s := s + 1;
          }
        }
        i := i + 1;
      }
      LabStepIsPass(Cfg(), division, subject, faculty, st0);
      return false;
    }

    /**
     * The lab loop of one subject in one division: up to labsToPlace blocks,
     * stopping at the first pass that places nothing. It returns how many
     * blocks it placed.
     */
    method PlaceLabs(ledger: FacultyLedger, division: string, subject: string, faculty: string, labsToPlace: int)
      returns (placedCount: nat)
      requires labsToPlace >= 0
      modifies this`timetable, this`divisionDayHasLab, ledger
      ensures State(ledger) == LabLoop(Cfg(), old(State(ledger)), division, subject, faculty, labsToPlace).last
      ensures placedCount == LabLoop(Cfg(), old(State(ledger)), division, subject, faculty, labsToPlace).done
    {
      ghost var step := LabStep(Cfg(), division, subject, faculty);
      ghost var st0 := State(ledger);
      ghost var tr := Trace(step, st0, labsToPlace);
      placedCount := 0;
      var remaining := labsToPlace;
      while remaining > 0
        invariant step == LabStep(Cfg(), division, subject, faculty)
        invariant placedCount < |tr| && tr[placedCount] == State(ledger)
        invariant 0 <= remaining && placedCount + remaining == labsToPlace
      {
        var placed := TryPlaceLab(ledger, division, subject, faculty);
        if !placed {
          TraceStops(step, st0, labsToPlace, placedCount);
          return;
        }
        TraceAdvance(step, st0, labsToPlace, placedCount, State(ledger));
        placedCount := placedCount + 1;
        remaining := remaining - 1;
      }
      TraceStops(step, st0, labsToPlace, placedCount);
    }

    /** Plan mode, labs: every division, every subject plan with labsPerWeek > 0, with its lab faculty. */
    method PlanLabs(ledger: FacultyLedger)
      modifies this`timetable, this`divisionDayHasLab, ledger
      ensures State(ledger) == LabPhase(Cfg(), old(State(ledger)), PlanMode(planByDivision), divisions)
    {
      ghost var mode := PlanMode(planByDivision);
      ghost var goal := LabPhase(Cfg(), State(ledger), mode, divisions);
      assert divisions[0..] == divisions;
      var i := 0;
      while i < |divisions|
        invariant 0 <= i <= |divisions|
        invariant LabPhase(Cfg(), State(ledger), mode, divisions[i..]) == goal
      {
        LabPhaseAt(Cfg(), State(ledger), mode, divisions, i);
        assert LabJobsFor(mode, divisions[i]) == PlanLabJobs(PlanFor(planByDivision, divisions[i]));
        PlanDivisionLabs(ledger, divisions[i], PlanFor(planByDivision, divisions[i]));
        i := i + 1;
      }
    }

    /** Plan mode, labs of one division: every subject plan with labs, with its lab faculty. */
    method PlanDivisionLabs(ledger: FacultyLedger, division: string, subs: seq<SubjectPlan>)
      modifies this`timetable, this`divisionDayHasLab, ledger
      ensures State(ledger) == LabJobs(Cfg(), old(State(ledger)), division, PlanLabJobs(subs))
    {
      ghost var jobs := PlanLabJobs(subs);
      ghost var goal := LabJobs(Cfg(), State(ledger), division, jobs);
      assert jobs[0..] == jobs;
      var k := 0;
      while k < |subs|
        invariant 0 <= k <= |subs|
        invariant LabJobs(Cfg(), State(ledger), division, jobs[k..]) == goal
      {
        var sp := subs[k];
        var labsToPlace := Max(0, sp.labsPerWeek);
        var faculty := LabFacultyOf(sp);
        ghost var st := State(ledger);
        LabJobsAt(Cfg(), st, division, jobs, k);
        assert jobs[k] == Job(sp.subject, faculty, labsToPlace);
        if labsToPlace > 0 {
          var _ := PlaceLabs(ledger, division, sp.subject, faculty, labsToPlace);
        } else {
          LabLoopNone(Cfg(), st, division, sp.subject, faculty);
        }
        assert State(ledger) == LabLoop(Cfg(), st, division, jobs[k].subject, jobs[k].faculty, jobs[k].count).last;
        k := k + 1;
      }
    }

    /** Uniform mode, labs: every division, every lab subject, totalLabs blocks each. */
    method UniformLabs(ledger: FacultyLedger, facultyBySubject: map<string, string>)
      requires facultyBySubject == FacultyMap(subjectNames)
      modifies this`timetable, this`divisionDayHasLab, ledger
      ensures State(ledger) == LabPhase(Cfg(), old(State(ledger)), UniformMode(subjectNames, labSubjects, totalLectures, totalLabs), divisions)
    {
      ghost var mode := UniformMode(subjectNames, labSubjects, totalLectures, totalLabs);
      ghost var goal := LabPhase(Cfg(), State(ledger), mode, divisions);
      assert divisions[0..] == divisions;
      var i := 0;
      while i < |divisions|
        invariant 0 <= i <= |divisions|
        invariant LabPhase(Cfg(), State(ledger), mode, divisions[i..]) == goal
      {
        ghost var st := State(ledger);
        LabPhaseAt(Cfg(), st, mode, divisions, i);
        UniformLabJobs(subjectNames, labSubjects, totalLectures, totalLabs, divisions[i]);
        UniformDivisionLabs(ledger, divisions[i], facultyBySubject);
        assert State(ledger) == LabJobs(Cfg(), st, divisions[i], LabJobsFor(mode, divisions[i]));
        i := i + 1;
      }
    }

    /** Uniform mode, labs of one division: every lab subject, totalLabs blocks each. */
    method UniformDivisionLabs(ledger: FacultyLedger, division: string, facultyBySubject: map<string, string>)
      modifies this`timetable, this`divisionDayHasLab, ledger
      ensures State(ledger) == LabJobs(Cfg(), old(State(ledger)), division, UniformJobs(labSubjects, facultyBySubject, totalLabs))
    {
      ghost var jobs := UniformJobs(labSubjects, facultyBySubject, totalLabs);
      ghost var goal := LabJobs(Cfg(), State(ledger), division, jobs);
      assert jobs[0..] == jobs;
      var k := 0;
      while k < |labSubjects|
        invariant 0 <= k <= |labSubjects|
        invariant LabJobs(Cfg(), State(ledger), division, jobs[k..]) == goal
      {
        var subject := labSubjects[k];
        var labsToPlace := Max(0, totalLabs);
        var faculty := FacultyFor(facultyBySubject, subject);
        ghost var st := State(ledger);
        LabJobsAt(Cfg(), st, division, jobs, k);
        assert jobs[k] == Job(subject, faculty, labsToPlace);
        var _ := PlaceLabs(ledger, division, subject, faculty, labsToPlace);
        assert State(ledger) == LabLoop(Cfg(), st, division, jobs[k].subject, jobs[k].faculty, jobs[k].count).last;
        k := k + 1;
      }
    }

    // -------------------------------------------------------------------------
    // Lectures

    /**
     * One pass of the lecture search: days from `dayStartIdx` round the week,
     * slots from `slotStart` up on every one of them; the first slot that every
     * guard accepts receives the lecture, and its slot is returned; when none
     * does, nothing changes.
     */
    method TryPlaceLecture(ledger: FacultyLedger, division: string, subject: string, faculty: string,
                           dayStartIdx: int, slotStart: int)
      returns (placed: bool, slot: int)
      requires |days| > 0 && numSlots > 0 && 1 <= slotStart
      modifies this`timetable, this`divisionDayHasLab, ledger
      ensures placed <==> LecturePass(Cfg(), old(State(ledger)), division, subject, faculty, dayStartIdx, slotStart).Some?
      ensures placed ==> LecturePass(Cfg(), old(State(ledger)), division, subject, faculty, dayStartIdx, slotStart) == Some((State(ledger), slot))
      ensures !placed ==> State(ledger) == old(State(ledger))
      ensures LectureStep(Cfg(), division, subject, faculty)(LectureCursor(old(State(ledger)), dayStartIdx, slotStart)) ==
        if placed then Some(LectureCursor(State(ledger), (dayStartIdx + 1) % |days|, (slot % numSlots) + 1)) else None
    {
      ghost var st0 := State(ledger);
      var d := 0;
      while d < |days|
        invariant 0 <= d <= |days|
        invariant State(ledger) == st0
        invariant FindLecture(Cfg(), st0, division, faculty, dayStartIdx, slotStart, d, slotStart) ==
          LectureSearch(Cfg(), st0, division, faculty, dayStartIdx, slotStart)
      {
        var day := days[(dayStartIdx + d) % |days|];
        assert day == ScanDay(days, dayStartIdx, d);
        if HasCapacity(ledger.dayCount, faculty, day, 1, maxLecturesPerDay) {
          var daySlots := DaySlots(timetable, division, day);
          var s := slotStart;
          while s <= numSlots
            invariant slotStart <= s
            invariant State(ledger) == st0
            invariant FindLecture(Cfg(), st0, division, faculty, dayStartIdx, slotStart, d, s) ==
              LectureSearch(Cfg(), st0, division, faculty, dayStartIdx, slotStart)
          {
            if !IsRecess(daySlots, s) && s !in daySlots &&
               !IsFacultyBusy(ledger.busy, day, s, faculty) && !PrevClash(daySlots, s, faculty)
            {
              PlaceLectureCell(ledger, division, day, s, subject, faculty);
              LectureStepPlaces(Cfg(), division, subject, faculty, LectureCursor(st0, dayStartIdx, slotStart), State(ledger), s);
              return true, s;
            }
            s := s + 1;
          }
        }
        d := d + 1;
      }
      LectureStepFails(Cfg(), division, subject, faculty, LectureCursor(st0, dayStartIdx, slotStart));
      return false, 0;
    }

    /**
     * The lecture loop of one subject in one division: up to lecturesToPlace
     * lectures, stopping at the first pass that places nothing. The day cursor
     * starts at the first day and the slot cursor at slot 1; after each lecture
     * the day cursor moves one day on and the slot cursor past the slot used,
     * wrapping to 1. It returns how many lectures it placed.
     */
    method PlaceLectures(ledger: FacultyLedger, division: string, subject: string, faculty: string, lecturesToPlace: int)
      returns (placedCount: nat)
      requires |days| > 0 && numSlots > 0 && lecturesToPlace >= 0
      modifies this`timetable, this`divisionDayHasLab, ledger
      ensures State(ledger) == LectureLoop(Cfg(), old(State(ledger)), division, subject, faculty, lecturesToPlace, 0, 1).last.st
      ensures placedCount == LectureLoop(Cfg(), old(State(ledger)), division, subject, faculty, lecturesToPlace, 0, 1).done
    {
      ghost var step := LectureStep(Cfg(), division, subject, faculty);
      ghost var c0 := LectureCursor(State(ledger), 0, 1);
      ghost var tr := Trace(step, c0, lecturesToPlace);
      placedCount := 0;
      var remaining := lecturesToPlace;
      var dayStartIdx := 0;
      var slotStart := 1;
      while remaining > 0
        invariant step == LectureStep(Cfg(), division, subject, faculty) && 1 <= slotStart
        invariant placedCount < |tr| && tr[placedCount] == LectureCursor(State(ledger), dayStartIdx, slotStart)
        invariant 0 <= remaining && placedCount + remaining == lecturesToPlace
      {
        var placed, s := TryPlaceLecture(ledger, division, subject, faculty, dayStartIdx, slotStart);
        if !placed {
          TraceStops(step, c0, lecturesToPlace, placedCount);
          return;
        }
        TraceAdvance(step, c0, lecturesToPlace, placedCount, LectureCursor(State(ledger), (dayStartIdx + 1) % |days|, (s % numSlots) + 1));
        dayStartIdx := (dayStartIdx + 1) % |days|;
        slotStart := (s % numSlots) + 1;
        placedCount := placedCount + 1;
        remaining := remaining - 1;
      }
      TraceStops(step, c0, lecturesToPlace, placedCount);
    }

    /** Plan mode, lectures: every division, every subject plan, with its lecture faculty. */
    method PlanLectures(ledger: FacultyLedger)
      requires |days| > 0 && numSlots > 0
      modifies this`timetable, this`divisionDayHasLab, ledger
      ensures State(ledger) == LecturePhase(Cfg(), old(State(ledger)), PlanMode(planByDivision), divisions)
    {
      ghost var mode := PlanMode(planByDivision);
      ghost var goal := LecturePhase(Cfg(), State(ledger), mode, divisions);
      assert divisions[0..] == divisions;
      var i := 0;
      while i < |divisions|
        invariant 0 <= i <= |divisions|
        invariant LecturePhase(Cfg(), State(ledger), mode, divisions[i..]) == goal
      {
        ghost var st := State(ledger);
        LecturePhaseAt(Cfg(), st, mode, divisions, i);
        assert LectureJobsFor(mode, divisions[i]) == PlanLectureJobs(PlanFor(planByDivision, divisions[i]));
        PlanDivisionLectures(ledger, divisions[i], PlanFor(planByDivision, divisions[i]));
        assert State(ledger) == LectureJobs(Cfg(), st, divisions[i], LectureJobsFor(mode, divisions[i]));
        i := i + 1;
      }
    }

    /** Plan mode, lectures of one division: every subject plan, with its lecture faculty. */
    method PlanDivisionLectures(ledger: FacultyLedger, division: string, subs: seq<SubjectPlan>)
      requires |days| > 0 && numSlots > 0
      modifies this`timetable, this`divisionDayHasLab, ledger
      ensures State(ledger) == LectureJobs(Cfg(), old(State(ledger)), division, PlanLectureJobs(subs))
    {
      ghost var jobs := PlanLectureJobs(subs);
      ghost var goal := LectureJobs(Cfg(), State(ledger), division, jobs);
      assert jobs[0..] == jobs;
      var k := 0;
      while k < |subs|
        invariant 0 <= k <= |subs|
        invariant LectureJobs(Cfg(), State(ledger), division, jobs[k..]) == goal
      {
        var sp := subs[k];
        var lecturesToPlace := Max(0, sp.lecturesPerWeek);
        ghost var st := State(ledger);
        LectureJobsAt(Cfg(), st, division, jobs, k);
        var _ := PlaceLectures(ledger, division, sp.subject, sp.lectureFaculty, lecturesToPlace);
        assert State(ledger) == LectureLoop(Cfg(), st, division, jobs[k].subject, jobs[k].faculty, jobs[k].count, 0, 1).last.st;
        k := k + 1;
      }
    }

    /** Uniform mode, lectures: every division, every subject, totalLectures each. */
    method UniformLectures(ledger: FacultyLedger, facultyBySubject: map<string, string>)
      requires |days| > 0 && numSlots > 0
      requires facultyBySubject == FacultyMap(subjectNames)
      modifies this`timetable, this`divisionDayHasLab, ledger
      ensures State(ledger) == LecturePhase(Cfg(), old(State(ledger)), UniformMode(subjectNames, labSubjects, totalLectures, totalLabs), divisions)
    {
      ghost var mode := UniformMode(subjectNames, labSubjects, totalLectures, totalLabs);
      ghost var goal := LecturePhase(Cfg(), State(ledger), mode, divisions);
      assert divisions[0..] == divisions;
      var i := 0;
      while i < |divisions|
        invariant 0 <= i <= |divisions|
        invariant LecturePhase(Cfg(), State(ledger), mode, divisions[i..]) == goal
      {
        ghost var st := State(ledger);
        LecturePhaseAt(Cfg(), st, mode, divisions, i);
        assert LectureJobsFor(mode, divisions[i]) == UniformJobs(subjectNames, facultyBySubject, totalLectures);
        UniformDivisionLectures(ledger, divisions[i], facultyBySubject);
        assert State(ledger) == LectureJobs(Cfg(), st, divisions[i], LectureJobsFor(mode, divisions[i]));
        i := i + 1;
      }
    }

    /** Uniform mode, lectures of one division: every subject, totalLectures each. */
    method UniformDivisionLectures(ledger: FacultyLedger, division: string, facultyBySubject: map<string, string>)
      requires |days| > 0 && numSlots > 0
      modifies this`timetable, this`divisionDayHasLab, ledger
      ensures State(ledger) == LectureJobs(Cfg(), old(State(ledger)), division, UniformJobs(subjectNames, facultyBySubject, totalLectures))
    {
      ghost var jobs := UniformJobs(subjectNames, facultyBySubject, totalLectures);
      ghost var goal := LectureJobs(Cfg(), State(ledger), division, jobs);
      assert jobs[0..] == jobs;
      var k := 0;
      while k < |subjectNames|
        invariant 0 <= k <= |subjectNames|
        invariant LectureJobs(Cfg(), State(ledger), division, jobs[k..]) == goal
      {
        var subject := subjectNames[k];
        var lecturesToPlace := Max(0, totalLectures);
        var faculty := FacultyFor(facultyBySubject, subject);
        ghost var st := State(ledger);
        LectureJobsAt(Cfg(), st, division, jobs, k);
        var _ := PlaceLectures(ledger, division, subject, faculty, lecturesToPlace);
        assert State(ledger) == LectureLoop(Cfg(), st, division, jobs[k].subject, jobs[k].faculty, jobs[k].count, 0, 1).last.st;
        k := k + 1;
      }
    }

    // -------------------------------------------------------------------------
    // Gap fill

    /**
     * Gap fill of one free cell: the candidates in order, the first whose
     * faculty every guard accepts gets a lecture there; otherwise the cell
     * stays free.
     */
    method FillCell(ledger: FacultyLedger, division: string, day: string, slot: int, offers: seq<Offer>)
      requires 1 <= slot <= numSlots
      requires slot !in DaySlots(timetable, division, day) && !IsRecess(DaySlots(timetable, division, day), slot)
      modifies this`timetable, ledger
      ensures State(ledger) == GapFillCell(Cfg(), old(State(ledger)), division, day, slot, offers)
    {
      ghost var st0 := State(ledger);
      var k := 0;
      while k < |offers|
        invariant 0 <= k <= |offers|
        invariant State(ledger) == st0
        invariant FindOffer(Cfg(), st0, division, day, slot, offers, k) == FindOffer(Cfg(), st0, division, day, slot, offers, 0)
      {
        var faculty := offers[k].faculty;
        var daySlots := DaySlots(timetable, division, day);
        if HasCapacity(ledger.dayCount, faculty, day, 1, maxLecturesPerDay) &&
           !IsFacultyBusy(ledger.busy, day, slot, faculty) && !PrevClash(daySlots, slot, faculty)
        {
          PlaceLectureCell(ledger, division, day, slot, offers[k].subject, faculty);
          return;
        }
        k := k + 1;
      }
    }

    /** Gap fill of one day of a division: slots 1 to numSlots, occupied and recess cells skipped. */
    method FillDay(ledger: FacultyLedger, division: string, day: string, offers: seq<Offer>)
      modifies this`timetable, ledger
      ensures State(ledger) == GapFillSlots(Cfg(), old(State(ledger)), division, day, offers)
    {
      ghost var step := GapFillStep(Cfg(), division, day, offers);
      ghost var goal := Sweep(step, State(ledger), 1, numSlots);
      var slot := 1;
      while slot <= numSlots
        invariant 1 <= slot
        invariant Sweep(step, State(ledger), slot, numSlots) == goal
      {
        ghost var st := State(ledger);
        var daySlots := DaySlots(timetable, division, day);
        if !(slot in daySlots || IsRecess(daySlots, slot)) {
          FillCell(ledger, division, day, slot, offers);
        }
        SweepUnfolds(step, st, State(ledger), slot, numSlots);
        slot := slot + 1;
      }
    }

    /** Gap fill of one division: every day in order, with the division's candidates. */
    method FillDivision(ledger: FacultyLedger, division: string, offers: seq<Offer>)
      modifies this`timetable, ledger
      ensures State(ledger) == GapFillDays(Cfg(), old(State(ledger)), division, days, offers)
    {
      ghost var goal := GapFillDays(Cfg(), State(ledger), division, days, offers);
      assert days[0..] == days;
      var j := 0;
      while j < |days|
        invariant 0 <= j <= |days|
        invariant GapFillDays(Cfg(), State(ledger), division, days[j..], offers) == goal
      {
        GapFillDaysAt(Cfg(), State(ledger), division, days, offers, j);
        FillDay(ledger, division, days[j], offers);
        j := j + 1;
      }
    }

    /** fillRemainingSlotsPlanMode: every division and day, the division's subject plans as candidates. */
    method FillRemainingSlotsPlanMode(ledger: FacultyLedger)
      modifies this`timetable, ledger
      ensures State(ledger) == GapFillPhase(Cfg(), old(State(ledger)), PlanMode(planByDivision), divisions)
    {
      ghost var mode := PlanMode(planByDivision);
      ghost var goal := GapFillPhase(Cfg(), State(ledger), mode, divisions);
      assert divisions[0..] == divisions;
      var i := 0;
      while i < |divisions|
        invariant 0 <= i <= |divisions|
        invariant GapFillPhase(Cfg(), State(ledger), mode, divisions[i..]) == goal
      {
        GapFillPhaseAt(Cfg(), State(ledger), mode, divisions, i);
        assert OffersFor(mode, divisions[i]) == PlanOffers(PlanFor(planByDivision, divisions[i]));
        FillDivision(ledger, divisions[i], PlanOffers(PlanFor(planByDivision, divisions[i])));
        i := i + 1;
      }
    }

    /** The uniform-mode subject map of the current subjects. */
    method SubjectFaculties() returns (facultyBySubject: map<string, string>)
      ensures facultyBySubject == FacultyMap(subjectNames)
    {
      facultyBySubject := FacultyBySubject(subjectNames);
    }

    /** The gap-fill candidates of uniform mode: every subject with the faculty the subject map gives it. */
    method UniformCandidates() returns (offers: seq<Offer>)
      ensures offers == UniformOffers(subjectNames, FacultyMap(subjectNames))
    {
      var facultyBySubject := SubjectFaculties();
      offers := UniformOffers(subjectNames, facultyBySubject);
    }

    /** fillRemainingSlotsUniformMode: every division and day, every subject with its mapped faculty as candidates. */
    method FillRemainingSlotsUniformMode(ledger: FacultyLedger)
      modifies this`timetable, ledger
      ensures State(ledger) == GapFillPhase(Cfg(), old(State(ledger)), UniformMode(subjectNames, labSubjects, totalLectures, totalLabs), divisions)
    {
      ghost var mode := UniformMode(subjectNames, labSubjects, totalLectures, totalLabs);
      ghost var goal := GapFillPhase(Cfg(), State(ledger), mode, divisions);
      var offers := UniformCandidates();
      assert divisions[0..] == divisions;
      var i := 0;
      while i < |divisions|
        invariant 0 <= i <= |divisions|
        invariant GapFillPhase(Cfg(), State(ledger), mode, divisions[i..]) == goal
      {
        GapFillPhaseAt(Cfg(), State(ledger), mode, divisions, i);
        assert OffersFor(mode, divisions[i]) == offers;
        FillDivision(ledger, divisions[i], offers);
        i := i + 1;
      }
    }

    // -------------------------------------------------------------------------
    // generateTimetable

    /** The plan-mode branch of generateTimetable, from the recess grid and an empty ledger: seeding, labs, lectures, gap fill. */
    method GeneratePlanMode(ledger: FacultyLedger)
      requires ValidConfig(Cfg()) && |planByDivision| > 0
      requires timetable == InitialGrid(Cfg()) && divisionDayHasLab == InitialFlags(Cfg())
      requires ledger.busy == {} && ledger.dayCount == map[]
      modifies this`timetable, this`divisionDayHasLab, ledger
      ensures State(ledger) == Generated(Cfg(), CurrentMode())
    {
      ghost var cfg := Cfg();
      ghost var mode := PlanMode(planByDivision);
      assert mode == CurrentMode();
      SeedPlanFaculties(ledger);
      ghost var st1 := State(ledger);
      assert st1 == Start(cfg, mode);
      PlanLabs(ledger);
      ghost var st2 := State(ledger);
      PlanLectures(ledger);
      ghost var st3 := State(ledger);
      FillRemainingSlotsPlanMode(ledger);
      assert State(ledger) == GapFillPhase(cfg, st3, mode, cfg.divisions);
      assert Generated(cfg, mode) == GapFillPhase(cfg, LecturePhase(cfg, LabPhase(cfg, st1, mode, cfg.divisions), mode, cfg.divisions), mode, cfg.divisions);
    }

    /** The uniform-mode branch of generateTimetable, from the recess grid and an empty ledger: seeding, labs, lectures, gap fill. */
    method GenerateUniformMode(ledger: FacultyLedger)
      requires ValidConfig(Cfg()) && |planByDivision| == 0
      requires timetable == InitialGrid(Cfg()) && divisionDayHasLab == InitialFlags(Cfg())
      requires ledger.busy == {} && ledger.dayCount == map[]
      modifies this`timetable, this`divisionDayHasLab, ledger
      ensures State(ledger) == Generated(Cfg(), CurrentMode())
    {
      ghost var mode := UniformMode(subjectNames, labSubjects, totalLectures, totalLabs);
      assert mode == CurrentMode();
      var facultyBySubject := SubjectFaculties();
      SeedUniformFaculties(ledger, facultyBySubject);
      assert State(ledger) == Start(Cfg(), mode);
      UniformRun(ledger, facultyBySubject);
    }

    /** The three uniform-mode phases in the order generateTimetable runs them: labs, lectures, gap fill. */
    method UniformRun(ledger: FacultyLedger, facultyBySubject: map<string, string>)
      requires ValidConfig(Cfg()) && facultyBySubject == FacultyMap(subjectNames)
      modifies this`timetable, this`divisionDayHasLab, ledger
      ensures State(ledger) == Run(Cfg(), old(State(ledger)), UniformMode(subjectNames, labSubjects, totalLectures, totalLabs))
    {
      ghost var cfg := Cfg();
      ghost var mode := UniformMode(subjectNames, labSubjects, totalLectures, totalLabs);
      ghost var st0 := State(ledger);
      UniformLabs(ledger, facultyBySubject);
      assert State(ledger) == LabPhase(cfg, st0, mode, cfg.divisions);
      ghost var st2 := State(ledger);
      UniformLectures(ledger, facultyBySubject);
      assert State(ledger) == LecturePhase(cfg, st2, mode, cfg.divisions);
      ghost var st3 := State(ledger);
      FillRemainingSlotsUniformMode(ledger);
      assert State(ledger) == GapFillPhase(cfg, st3, mode, cfg.divisions);
    }

    /**
     * generateTimetable: false, with nothing changed, unless there is a slot, a
     * day and a division; otherwise the grid and lab flags a run from the
     * recess grid and a freshly seeded ledger computes. That grid is sound,
     * keeps every recess cell, and leaves no free cell that one of its
     * division's gap-fill candidates could still take.
     */
    method GenerateTimetable() returns (ok: bool)
      modifies this`timetable, this`divisionDayHasLab
      ensures ok <==> ValidConfig(Cfg())
      ensures !ok ==> timetable == old(timetable) && divisionDayHasLab == old(divisionDayHasLab)
      ensures ok ==> timetable == Generated(Cfg(), CurrentMode()).t && divisionDayHasLab == Generated(Cfg(), CurrentMode()).hasLab
      ensures ok ==> Sound(Cfg(), timetable, divisionDayHasLab) && Extends(InitialGrid(Cfg()), timetable)
      ensures ok ==> forall i, j, s, k :: 0 <= i < |divisions| && 0 <= j < |days| && 0 <= k < |OffersFor(CurrentMode(), divisions[i])| ==>
        !OpenFor(Cfg(), timetable, divisions[i], days[j], s, OffersFor(CurrentMode(), divisions[i])[k].faculty)
    {
      if numSlots <= 0 || |days| == 0 || |divisions| == 0 {
        return false;
      }
      InitGrid();
      var ledger := new FacultyLedger();
      if |planByDivision| > 0 {
        GeneratePlanMode(ledger);
      } else {
        GenerateUniformMode(ledger);
      }
      GeneratedSound(Cfg(), CurrentMode());
      return true;
    }
  }
}
