/**
 * What a run of the engine guarantees, proved phase by phase about the
 * functions of Engine: every step only adds cells (of the right kind, in the
 * right division), every step keeps the state invariant, and gap fill leaves
 * no cell that one of its candidates could still take.
 */
module RunProperties {
  import opened Wrappers
  import opened Sessions
  import opened Grid
  import opened Ledger
  import opened Schedule
  import opened Iteration
  import opened Engine

  // ---------------------------------------------------------------------------
  // Growth: every phase only adds cells, of its own kind

  /** A lab pass adds one block of its own session in its own division, and only grows the ledger. */
  lemma LabPassGrows(cfg: Config, st: EngineState, div: string, subject: string, f: string)
    requires LabPass(cfg, st, div, subject, f).Some?
    ensures Grows(st, LabPass(cfg, st, div, subject, f).value)
    ensures AddsOnlySession(st.t, LabPass(cfg, st, div, subject, f).value.t, div, Taught(subject, f, Lab))
  {
    LabSearchSpec(cfg, st, div, f);
    var (i, s) := LabSearch(cfg, st, div, f).value;
    LabFitsFree(cfg, st, div, cfg.days[i], s, f);
    LabGrows(st, div, cfg.days[i], s, subject, f);
  }

  /** The lab loop only adds copies of its own lab session in its own division, and only grows the ledger. */
  lemma LabLoopGrows(cfg: Config, st: EngineState, div: string, subject: string, f: string, n: int)
    ensures Grows(st, LabLoop(cfg, st, div, subject, f, n).last)
    ensures AddsOnlySession(st.t, LabLoop(cfg, st, div, subject, f, n).last.t, div, Taught(subject, f, Lab))
  {
    var x := Taught(subject, f, Lab);
    GrowthTrans(div, x);
    LabStepsGrow(cfg, div, subject, f);
    RepeatSteps(LabStep(cfg, div, subject, f), st, n, (a: EngineState, b: EngineState) => Grows(a, b) && AddsOnlySession(a.t, b.t, div, x));
  }

  /** Growth that adds only copies of `x` in `div` is transitive. */
  lemma GrowthTrans(div: string, x: Session)
    ensures forall a, b, c :: Grows(a, b) && AddsOnlySession(a.t, b.t, div, x) && Grows(b, c) && AddsOnlySession(b.t, c.t, div, x) ==>
      Grows(a, c) && AddsOnlySession(a.t, c.t, div, x)
  {
    forall a, b, c | Grows(a, b) && AddsOnlySession(a.t, b.t, div, x) && Grows(b, c) && AddsOnlySession(b.t, c.t, div, x)
      ensures Grows(a, c) && AddsOnlySession(a.t, c.t, div, x)
    {
      GrowsTrans(a, b, c);
      AddsOnlySessionTrans(a.t, b.t, c.t, div, x);
    }
  }

  /** Every successful lab iteration grows the state by its own lab only. */
  lemma LabStepsGrow(cfg: Config, div: string, subject: string, f: string)
    ensures forall a :: LabStep(cfg, div, subject, f)(a).Some? ==>
      Grows(a, LabStep(cfg, div, subject, f)(a).value) &&
      AddsOnlySession(a.t, LabStep(cfg, div, subject, f)(a).value.t, div, Taught(subject, f, Lab))
  {
    forall a | LabStep(cfg, div, subject, f)(a).Some?
      ensures Grows(a, LabStep(cfg, div, subject, f)(a).value) &&
        AddsOnlySession(a.t, LabStep(cfg, div, subject, f)(a).value.t, div, Taught(subject, f, Lab))
    {
      LabPassGrows(cfg, a, div, subject, f);
    }
  }

  /** A lecture pass adds one copy of its own lecture in its own division, and only grows the ledger. */
  lemma LecturePassGrows(cfg: Config, st: EngineState, div: string, subject: string, f: string, start: int, slotStart: int)
    requires |cfg.days| > 0 && LecturePass(cfg, st, div, subject, f, start, slotStart).Some?
    ensures Grows(st, LecturePass(cfg, st, div, subject, f, start, slotStart).value.0)
    ensures AddsOnlySession(st.t, LecturePass(cfg, st, div, subject, f, start, slotStart).value.0.t, div, Taught(subject, f, Lecture))
  {
    LectureSearchSpec(cfg, st, div, f, start, slotStart);
    var (d, s) := LectureSearch(cfg, st, div, f, start, slotStart).value;
    LectureGrows(st, div, ScanDay(cfg.days, start, d), s, subject, f);
  }

  /** The lecture loop only adds copies of its own lecture in its own division, and only grows the ledger. */
  lemma LectureLoopGrows(cfg: Config, st: EngineState, div: string, subject: string, f: string, n: int,
                         dayStartIdx: int, slotStart: int)
    requires |cfg.days| > 0 && cfg.numSlots > 0
    ensures Grows(st, LectureLoop(cfg, st, div, subject, f, n, dayStartIdx, slotStart).last.st)
    ensures AddsOnlySession(st.t, LectureLoop(cfg, st, div, subject, f, n, dayStartIdx, slotStart).last.st.t, div, Taught(subject, f, Lecture))
  {
    var x := Taught(subject, f, Lecture);
    var step := LectureStep(cfg, div, subject, f);
    forall a: LectureCursor, b: LectureCursor, c: LectureCursor | Grows(a.st, b.st) && AddsOnlySession(a.st.t, b.st.t, div, x) && Grows(b.st, c.st) && AddsOnlySession(b.st.t, c.st.t, div, x)
      ensures Grows(a.st, c.st) && AddsOnlySession(a.st.t, c.st.t, div, x)
    {
      GrowsTrans(a.st, b.st, c.st);
      AddsOnlySessionTrans(a.st.t, b.st.t, c.st.t, div, x);
    }
    forall a: LectureCursor | step(a).Some?
      ensures Grows(a.st, step(a).value.st) && AddsOnlySession(a.st.t, step(a).value.st.t, div, x)
    {
      LecturePassGrows(cfg, a.st, div, subject, f, a.dayStartIdx, a.slotStart);
    }
    RepeatSteps(step, LectureCursor(st, dayStartIdx, slotStart), n,
      (a: LectureCursor, b: LectureCursor) => Grows(a.st, b.st) && AddsOnlySession(a.st.t, b.st.t, div, x));
  }

  lemma {:induction false} LabJobsGrow(cfg: Config, st: EngineState, div: string, jobs: seq<Job>)
    ensures Grows(st, LabJobs(cfg, st, div, jobs))
    ensures AddsOnly(st.t, LabJobs(cfg, st, div, jobs).t, Lab) && AddsOnlyIn(st.t, LabJobs(cfg, st, div, jobs).t, div)
    decreases |jobs|
  {
    if jobs != [] {
      var j := jobs[0];
      var st' := LabLoop(cfg, st, div, j.subject, j.faculty, j.count).last;
      LabLoopGrows(cfg, st, div, j.subject, j.faculty, j.count);
      AddsOnlySessionWeakens(st.t, st'.t, div, Taught(j.subject, j.faculty, Lab));
      LabJobsGrow(cfg, st', div, jobs[1..]);
      var r := LabJobs(cfg, st', div, jobs[1..]);
      GrowsTrans(st, st', r);
      AddsOnlyTrans(st.t, st'.t, r.t, Lab);
      AddsOnlyInTrans(st.t, st'.t, r.t, div);
    }
  }

  lemma {:induction false} LectureJobsGrow(cfg: Config, st: EngineState, div: string, jobs: seq<Job>)
    requires |cfg.days| > 0 && cfg.numSlots > 0
    ensures Grows(st, LectureJobs(cfg, st, div, jobs))
    ensures AddsOnly(st.t, LectureJobs(cfg, st, div, jobs).t, Lecture) && AddsOnlyIn(st.t, LectureJobs(cfg, st, div, jobs).t, div)
    decreases |jobs|
  {
    if jobs != [] {
      var j := jobs[0];
      var st' := LectureLoop(cfg, st, div, j.subject, j.faculty, j.count, 0, 1).last.st;
      LectureLoopGrows(cfg, st, div, j.subject, j.faculty, j.count, 0, 1);
      AddsOnlySessionWeakens(st.t, st'.t, div, Taught(j.subject, j.faculty, Lecture));
      LectureJobsGrow(cfg, st', div, jobs[1..]);
      var r := LectureJobs(cfg, st', div, jobs[1..]);
      GrowsTrans(st, st', r);
      AddsOnlyTrans(st.t, st'.t, r.t, Lecture);
      AddsOnlyInTrans(st.t, st'.t, r.t, div);
    }
  }

  /** The lab phase adds only lab cells. */
  lemma {:induction false} LabPhaseGrows(cfg: Config, st: EngineState, mode: Mode, divs: seq<string>)
    ensures Grows(st, LabPhase(cfg, st, mode, divs))
    ensures AddsOnly(st.t, LabPhase(cfg, st, mode, divs).t, Lab)
    decreases |divs|
  {
    if divs != [] {
      var st' := LabJobs(cfg, st, divs[0], LabJobsFor(mode, divs[0]));
      LabJobsGrow(cfg, st, divs[0], LabJobsFor(mode, divs[0]));
      LabPhaseGrows(cfg, st', mode, divs[1..]);
      var r := LabPhase(cfg, st', mode, divs[1..]);
      GrowsTrans(st, st', r);
      AddsOnlyTrans(st.t, st'.t, r.t, Lab);
    }
  }

  /** The lecture phase adds only lecture cells. */
  lemma {:induction false} LecturePhaseGrows(cfg: Config, st: EngineState, mode: Mode, divs: seq<string>)
    requires |cfg.days| > 0 && cfg.numSlots > 0
    ensures Grows(st, LecturePhase(cfg, st, mode, divs))
    ensures AddsOnly(st.t, LecturePhase(cfg, st, mode, divs).t, Lecture)
    decreases |divs|
  {
    if divs != [] {
      var st' := LectureJobs(cfg, st, divs[0], LectureJobsFor(mode, divs[0]));
      LectureJobsGrow(cfg, st, divs[0], LectureJobsFor(mode, divs[0]));
      LecturePhaseGrows(cfg, st', mode, divs[1..]);
      var r := LecturePhase(cfg, st', mode, divs[1..]);
      GrowsTrans(st, st', r);
      AddsOnlyTrans(st.t, st'.t, r.t, Lecture);
    }
  }

  lemma GapFillCellGrows(cfg: Config, st: EngineState, div: string, day: string, slot: int, offers: seq<Offer>)
    ensures Grows(st, GapFillCell(cfg, st, div, day, slot, offers))
    ensures AddsOnly(st.t, GapFillCell(cfg, st, div, day, slot, offers).t, Lecture)
    ensures AddsOnlyIn(st.t, GapFillCell(cfg, st, div, day, slot, offers).t, div)
  {
    var k := FindOffer(cfg, st, div, day, slot, offers, 0);
    if k >= 0 {
      LectureGrows(st, div, day, slot, offers[k].subject, offers[k].faculty);
      AddsOnlySessionWeakens(st.t, GapFillCell(cfg, st, div, day, slot, offers).t, div, Taught(offers[k].subject, offers[k].faculty, Lecture));
    }
  }

  lemma GapFillSlotsGrows(cfg: Config, st: EngineState, div: string, day: string, offers: seq<Offer>)
    ensures Grows(st, GapFillSlots(cfg, st, div, day, offers))
    ensures AddsOnly(st.t, GapFillSlots(cfg, st, div, day, offers).t, Lecture)
    ensures AddsOnlyIn(st.t, GapFillSlots(cfg, st, div, day, offers).t, div)
  {
    var step := GapFillStep(cfg, div, day, offers);
    forall a, b, c | Grows(a, b) && AddsOnly(a.t, b.t, Lecture) && AddsOnlyIn(a.t, b.t, div) &&
                     Grows(b, c) && AddsOnly(b.t, c.t, Lecture) && AddsOnlyIn(b.t, c.t, div)
      ensures Grows(a, c) && AddsOnly(a.t, c.t, Lecture) && AddsOnlyIn(a.t, c.t, div)
    {
      GrowsTrans(a, b, c);
      AddsOnlyTrans(a.t, b.t, c.t, Lecture);
      AddsOnlyInTrans(a.t, b.t, c.t, div);
    }
    forall a, k
      ensures Grows(a, step(a, k)) && AddsOnly(a.t, step(a, k).t, Lecture) && AddsOnlyIn(a.t, step(a, k).t, div)
    {
      GapFillCellGrows(cfg, a, div, day, k, offers);
    }
    SweepSteps(step, st, 1, cfg.numSlots,
      (a: EngineState, b: EngineState) => Grows(a, b) && AddsOnly(a.t, b.t, Lecture) && AddsOnlyIn(a.t, b.t, div));
  }

  lemma {:induction false} GapFillDaysGrows(cfg: Config, st: EngineState, div: string, days: seq<string>, offers: seq<Offer>)
    ensures Grows(st, GapFillDays(cfg, st, div, days, offers))
    ensures AddsOnly(st.t, GapFillDays(cfg, st, div, days, offers).t, Lecture)
    ensures AddsOnlyIn(st.t, GapFillDays(cfg, st, div, days, offers).t, div)
    decreases |days|
  {
    if days != [] {
      var st' := GapFillSlots(cfg, st, div, days[0], offers);
      GapFillSlotsGrows(cfg, st, div, days[0], offers);
      GapFillDaysGrows(cfg, st', div, days[1..], offers);
      var r := GapFillDays(cfg, st', div, days[1..], offers);
      GrowsTrans(st, st', r);
      AddsOnlyTrans(st.t, st'.t, r.t, Lecture);
      AddsOnlyInTrans(st.t, st'.t, r.t, div);
    }
  }

  /** Gap fill adds only lecture cells. */
  lemma {:induction false} GapFillPhaseGrows(cfg: Config, st: EngineState, mode: Mode, divs: seq<string>)
    ensures Grows(st, GapFillPhase(cfg, st, mode, divs))
    ensures AddsOnly(st.t, GapFillPhase(cfg, st, mode, divs).t, Lecture)
    decreases |divs|
  {
    if divs != [] {
      var st' := GapFillDays(cfg, st, divs[0], cfg.days, OffersFor(mode, divs[0]));
      GapFillDaysGrows(cfg, st, divs[0], cfg.days, OffersFor(mode, divs[0]));
      GapFillPhaseGrows(cfg, st', mode, divs[1..]);
      var r := GapFillPhase(cfg, st', mode, divs[1..]);
      GrowsTrans(st, st', r);
      AddsOnlyTrans(st.t, st'.t, r.t, Lecture);
    }
  }

  // ---------------------------------------------------------------------------
  // The invariant survives every phase

  lemma LabPassKeepsInv(cfg: Config, st: EngineState, div: string, subject: string, f: string)
    requires Inv(cfg, st) && div in cfg.divisions && LabPass(cfg, st, div, subject, f).Some?
    ensures Inv(cfg, LabPass(cfg, st, div, subject, f).value)
  {
    LabSearchSpec(cfg, st, div, f);
    var (i, s) := LabSearch(cfg, st, div, f).value;
    LabPlacementKeepsInv(cfg, st, div, cfg.days[i], s, subject, f);
  }

  lemma LabLoopKeepsInv(cfg: Config, st: EngineState, div: string, subject: string, f: string, n: int)
    requires Inv(cfg, st) && div in cfg.divisions
    ensures Inv(cfg, LabLoop(cfg, st, div, subject, f, n).last)
  {
    var step := LabStep(cfg, div, subject, f);
    forall a | Inv(cfg, a) && step(a).Some?
      ensures Inv(cfg, step(a).value)
    {
      LabPassKeepsInv(cfg, a, div, subject, f);
    }
    RepeatInduction(step, st, n, (a: EngineState) => Inv(cfg, a));
  }

  lemma LecturePassKeepsInv(cfg: Config, st: EngineState, div: string, subject: string, f: string, start: int, slotStart: int)
    requires |cfg.days| > 0 && Inv(cfg, st) && div in cfg.divisions
    requires LecturePass(cfg, st, div, subject, f, start, slotStart).Some?
    ensures Inv(cfg, LecturePass(cfg, st, div, subject, f, start, slotStart).value.0)
  {
    LectureSearchSpec(cfg, st, div, f, start, slotStart);
    var (d, s) := LectureSearch(cfg, st, div, f, start, slotStart).value;
    LecturePlacementKeepsInv(cfg, st, div, ScanDay(cfg.days, start, d), s, subject, f);
  }

  lemma LectureLoopKeepsInv(cfg: Config, st: EngineState, div: string, subject: string, f: string, n: int,
                            dayStartIdx: int, slotStart: int)
    requires |cfg.days| > 0 && cfg.numSlots > 0
    requires Inv(cfg, st) && div in cfg.divisions
    ensures Inv(cfg, LectureLoop(cfg, st, div, subject, f, n, dayStartIdx, slotStart).last.st)
  {
    var step := LectureStep(cfg, div, subject, f);
    forall a: LectureCursor | Inv(cfg, a.st) && step(a).Some?
      ensures Inv(cfg, step(a).value.st)
    {
      LecturePassKeepsInv(cfg, a.st, div, subject, f, a.dayStartIdx, a.slotStart);
    }
    RepeatInduction(step, LectureCursor(st, dayStartIdx, slotStart), n, (a: LectureCursor) => Inv(cfg, a.st));
  }

  lemma {:induction false} LabJobsKeepInv(cfg: Config, st: EngineState, div: string, jobs: seq<Job>)
    requires Inv(cfg, st) && div in cfg.divisions
    ensures Inv(cfg, LabJobs(cfg, st, div, jobs))
    decreases |jobs|
  {
    if jobs != [] {
      LabLoopKeepsInv(cfg, st, div, jobs[0].subject, jobs[0].faculty, jobs[0].count);
      LabJobsKeepInv(cfg, LabLoop(cfg, st, div, jobs[0].subject, jobs[0].faculty, jobs[0].count).last, div, jobs[1..]);
    }
  }

  lemma {:induction false} LectureJobsKeepInv(cfg: Config, st: EngineState, div: string, jobs: seq<Job>)
    requires |cfg.days| > 0 && cfg.numSlots > 0
    requires Inv(cfg, st) && div in cfg.divisions
    ensures Inv(cfg, LectureJobs(cfg, st, div, jobs))
    decreases |jobs|
  {
    if jobs != [] {
      LectureLoopKeepsInv(cfg, st, div, jobs[0].subject, jobs[0].faculty, jobs[0].count, 0, 1);
      LectureJobsKeepInv(cfg, LectureLoop(cfg, st, div, jobs[0].subject, jobs[0].faculty, jobs[0].count, 0, 1).last.st, div, jobs[1..]);
    }
  }

  /** The lab phase keeps every invariant. */
  lemma {:induction false} LabPhaseKeepsInv(cfg: Config, st: EngineState, mode: Mode, divs: seq<string>)
    requires Inv(cfg, st) && forall d :: d in divs ==> d in cfg.divisions
    ensures Inv(cfg, LabPhase(cfg, st, mode, divs))
    decreases |divs|
  {
    if divs != [] {
      LabJobsKeepInv(cfg, st, divs[0], LabJobsFor(mode, divs[0]));
      LabPhaseKeepsInv(cfg, LabJobs(cfg, st, divs[0], LabJobsFor(mode, divs[0])), mode, divs[1..]);
    }
  }

  /** The lecture phase keeps every invariant. */
  lemma {:induction false} LecturePhaseKeepsInv(cfg: Config, st: EngineState, mode: Mode, divs: seq<string>)
    requires |cfg.days| > 0 && cfg.numSlots > 0
    requires Inv(cfg, st) && forall d :: d in divs ==> d in cfg.divisions
    ensures Inv(cfg, LecturePhase(cfg, st, mode, divs))
    decreases |divs|
  {
    if divs != [] {
      LectureJobsKeepInv(cfg, st, divs[0], LectureJobsFor(mode, divs[0]));
      LecturePhaseKeepsInv(cfg, LectureJobs(cfg, st, divs[0], LectureJobsFor(mode, divs[0])), mode, divs[1..]);
    }
  }

  lemma GapFillCellKeepsInv(cfg: Config, st: EngineState, div: string, day: string, slot: int, offers: seq<Offer>)
    requires Inv(cfg, st) && div in cfg.divisions && day in cfg.days
    ensures Inv(cfg, GapFillCell(cfg, st, div, day, slot, offers))
  {
    var k := FindOffer(cfg, st, div, day, slot, offers, 0);
    if k >= 0 {
      LecturePlacementKeepsInv(cfg, st, div, day, slot, offers[k].subject, offers[k].faculty);
    }
  }

  lemma GapFillSlotsKeepsInv(cfg: Config, st: EngineState, div: string, day: string, offers: seq<Offer>)
    requires Inv(cfg, st) && div in cfg.divisions && day in cfg.days
    ensures Inv(cfg, GapFillSlots(cfg, st, div, day, offers))
  {
    var step := GapFillStep(cfg, div, day, offers);
    forall a, k | Inv(cfg, a)
      ensures Inv(cfg, step(a, k))
    {
      GapFillCellKeepsInv(cfg, a, div, day, k, offers);
    }
    SweepInduction(step, st, 1, cfg.numSlots, (a: EngineState) => Inv(cfg, a));
  }

  lemma {:induction false} GapFillDaysKeepsInv(cfg: Config, st: EngineState, div: string, days: seq<string>, offers: seq<Offer>)
    requires Inv(cfg, st) && div in cfg.divisions && forall d :: d in days ==> d in cfg.days
    ensures Inv(cfg, GapFillDays(cfg, st, div, days, offers))
    decreases |days|
  {
    if days != [] {
      GapFillSlotsKeepsInv(cfg, st, div, days[0], offers);
      GapFillDaysKeepsInv(cfg, GapFillSlots(cfg, st, div, days[0], offers), div, days[1..], offers);
    }
  }

  /** Gap fill keeps every invariant. */
  lemma {:induction false} GapFillPhaseKeepsInv(cfg: Config, st: EngineState, mode: Mode, divs: seq<string>)
    requires Inv(cfg, st) && forall d :: d in divs ==> d in cfg.divisions
    ensures Inv(cfg, GapFillPhase(cfg, st, mode, divs))
    decreases |divs|
  {
    if divs != [] {
      GapFillDaysKeepsInv(cfg, st, divs[0], cfg.days, OffersFor(mode, divs[0]));
      GapFillPhaseKeepsInv(cfg, GapFillDays(cfg, st, divs[0], cfg.days, OffersFor(mode, divs[0])), mode, divs[1..]);
    }
  }

  // ---------------------------------------------------------------------------
  // Gap fill saturates

  /** After gap fill of a cell, no candidate is accepted there any more: either none was, or the cell is taken. */
  lemma GapFillCellRejects(cfg: Config, st: EngineState, div: string, day: string, slot: int, offers: seq<Offer>)
    ensures forall k :: 0 <= k < |offers| ==>
      !LectureFits(cfg, GapFillCell(cfg, st, div, day, slot, offers), div, day, slot, offers[k].faculty)
  {
    var k := FindOffer(cfg, st, div, day, slot, offers, 0);
    if k >= 0 {
      var st' := PlaceLecture(st, div, day, slot, offers[k].subject, offers[k].faculty);
      assert Get(st'.t, div, day, slot).Some?;
    }
  }

  /** After gap fill of a day no cell of it accepts any candidate. */
  lemma GapFillSlotsSaturates(cfg: Config, st: EngineState, div: string, day: string, offers: seq<Offer>)
    ensures forall s, k :: 0 <= k < |offers| ==>
      !LectureFits(cfg, GapFillSlots(cfg, st, div, day, offers), div, day, s, offers[k].faculty)
  {
    var step := GapFillStep(cfg, div, day, offers);
    var Done := (a: EngineState, s: int) => forall k :: 0 <= k < |offers| ==> !LectureFits(cfg, a, div, day, s, offers[k].faculty);
    forall a, s
      ensures Done(step(a, s), s)
    {
      var ds := DaySlots(a.t, div, day);
      if !(s in ds || IsRecess(ds, s)) {
        GapFillCellRejects(cfg, a, div, day, s, offers);
      }
    }
    forall a, s, j | Done(a, j)
      ensures Done(step(a, s), j)
    {
      GapFillCellGrows(cfg, a, div, day, s, offers);
      forall k | 0 <= k < |offers|
        ensures !LectureFits(cfg, step(a, s), div, day, j, offers[k].faculty)
      {
        RejectedStaysRejected(cfg, a, step(a, s), div, day, j, offers[k].faculty);
      }
    }
    SweepCovers(step, st, 1, cfg.numSlots, Done);
    var r := GapFillSlots(cfg, st, div, day, offers);
    forall s, k | 0 <= k < |offers|
      ensures !LectureFits(cfg, r, div, day, s, offers[k].faculty)
    {
      if 1 <= s <= cfg.numSlots {
        assert Done(r, s);
      }
    }
  }

  /** After gap fill of a division over some days, no cell of those days accepts any candidate. */
  lemma {:induction false} GapFillDaysSaturates(cfg: Config, st: EngineState, div: string, days: seq<string>, offers: seq<Offer>)
    ensures forall d, s, k :: d in days && 0 <= k < |offers| ==>
      !LectureFits(cfg, GapFillDays(cfg, st, div, days, offers), div, d, s, offers[k].faculty)
    decreases |days|
  {
    if days != [] {
      var st' := GapFillSlots(cfg, st, div, days[0], offers);
      var r := GapFillDays(cfg, st', div, days[1..], offers);
      GapFillSlotsSaturates(cfg, st, div, days[0], offers);
      GapFillDaysGrows(cfg, st', div, days[1..], offers);
      GapFillDaysSaturates(cfg, st', div, days[1..], offers);
      forall s, k | 0 <= k < |offers|
        ensures !LectureFits(cfg, r, div, days[0], s, offers[k].faculty)
      {
        RejectedStaysRejected(cfg, st', r, div, days[0], s, offers[k].faculty);
      }
    }
  }

  /** After the gap-fill phase every division is saturated for its own candidates. */
  lemma {:induction false} GapFillPhaseSaturates(cfg: Config, st: EngineState, mode: Mode, divs: seq<string>)
    ensures forall i :: 0 <= i < |divs| ==> Saturated(cfg, GapFillPhase(cfg, st, mode, divs), divs[i], OffersFor(mode, divs[i]))
    decreases |divs|
  {
    if divs != [] {
      var offers := OffersFor(mode, divs[0]);
      var st' := GapFillDays(cfg, st, divs[0], cfg.days, offers);
      var r := GapFillPhase(cfg, st', mode, divs[1..]);
      GapFillDaysSaturates(cfg, st, divs[0], cfg.days, offers);
      assert Saturated(cfg, st', divs[0], offers);
      GapFillPhaseGrows(cfg, st', mode, divs[1..]);
      SaturatedKept(cfg, st', r, divs[0], offers);
      GapFillPhaseSaturates(cfg, st', mode, divs[1..]);
      forall i | 0 < i < |divs|
        ensures Saturated(cfg, r, divs[i], OffersFor(mode, divs[i]))
      {
        assert divs[i] == divs[1..][i - 1];
      }
    }
  }

  // ---------------------------------------------------------------------------
  // A whole run

  lemma RunKeepsInv(cfg: Config, st: EngineState, mode: Mode)
    requires ValidConfig(cfg) && Inv(cfg, st)
    ensures Inv(cfg, Run(cfg, st, mode))
  {
    LabPhaseKeepsInv(cfg, st, mode, cfg.divisions);
    var st1 := LabPhase(cfg, st, mode, cfg.divisions);
    LecturePhaseKeepsInv(cfg, st1, mode, cfg.divisions);
    var st2 := LecturePhase(cfg, st1, mode, cfg.divisions);
    GapFillPhaseKeepsInv(cfg, st2, mode, cfg.divisions);
  }

  lemma RunGrows(cfg: Config, st: EngineState, mode: Mode)
    requires ValidConfig(cfg)
    ensures Grows(st, Run(cfg, st, mode))
  {
    LabPhaseGrows(cfg, st, mode, cfg.divisions);
    var st1 := LabPhase(cfg, st, mode, cfg.divisions);
    LecturePhaseGrows(cfg, st1, mode, cfg.divisions);
    var st2 := LecturePhase(cfg, st1, mode, cfg.divisions);
    GapFillPhaseGrows(cfg, st2, mode, cfg.divisions);
    GrowsTrans(st, st1, st2);
    GrowsTrans(st, st2, Run(cfg, st, mode));
  }

  /**
   * A run from the initialised grid, an empty busy set and a ledger of zero
   * loads leaves a sound grid: recess exactly in the recess ranges, no faculty
   * in two places at once, every daily load within the cap, at most one
   * two-slot lab block per division and day. It keeps the initial recess
   * cells, and no free cell could still be given to one of its division's
   * gap-fill candidates.
   */
  lemma RunSound(cfg: Config, st: EngineState, mode: Mode)
    requires ValidConfig(cfg)
    requires st.t == InitialGrid(cfg) && st.hasLab == InitialFlags(cfg) && st.busy == {}
    requires forall f, d :: Used(st.count, f, d) == 0
    ensures Sound(cfg, Run(cfg, st, mode).t, Run(cfg, st, mode).hasLab)
    ensures Extends(InitialGrid(cfg), Run(cfg, st, mode).t)
    ensures forall i, j, s, k :: 0 <= i < |cfg.divisions| && 0 <= j < |cfg.days| && 0 <= k < |OffersFor(mode, cfg.divisions[i])| ==>
      !OpenFor(cfg, Run(cfg, st, mode).t, cfg.divisions[i], cfg.days[j], s, OffersFor(mode, cfg.divisions[i])[k].faculty)
  {
    InitialInv(cfg, st.count);
    assert st == EngineState(InitialGrid(cfg), InitialFlags(cfg), {}, st.count);
    var r := Run(cfg, st, mode);
    RunKeepsInv(cfg, st, mode);
    InvSound(cfg, r);
    RunGrows(cfg, st, mode);
    var st2 := LecturePhase(cfg, LabPhase(cfg, st, mode, cfg.divisions), mode, cfg.divisions);
    GapFillPhaseSaturates(cfg, st2, mode, cfg.divisions);
    forall i, j, s, k | 0 <= i < |cfg.divisions| && 0 <= j < |cfg.days| && 0 <= k < |OffersFor(mode, cfg.divisions[i])|
      ensures !OpenFor(cfg, r.t, cfg.divisions[i], cfg.days[j], s, OffersFor(mode, cfg.divisions[i])[k].faculty)
    {
      FitsIffOpen(cfg, r, cfg.divisions[i], cfg.days[j], s, OffersFor(mode, cfg.divisions[i])[k].faculty);
    }
  }

  /**
   * What generateTimetable promises on a valid configuration: a sound grid
   * that keeps the initial recess cells, in which no free cell could still be
   * given to one of its division's gap-fill candidates.
   */
  lemma GeneratedSound(cfg: Config, mode: Mode)
    requires ValidConfig(cfg)
    ensures Sound(cfg, Generated(cfg, mode).t, Generated(cfg, mode).hasLab)
    ensures Extends(InitialGrid(cfg), Generated(cfg, mode).t)
    ensures forall i, j, s, k :: 0 <= i < |cfg.divisions| && 0 <= j < |cfg.days| && 0 <= k < |OffersFor(mode, cfg.divisions[i])| ==>
      !OpenFor(cfg, Generated(cfg, mode).t, cfg.divisions[i], cfg.days[j], s, OffersFor(mode, cfg.divisions[i])[k].faculty)
  {
    RunSound(cfg, Start(cfg, mode), mode);
  }
}
