/**
 * The allocation engine's constraints as predicates on values, and the
 * lemmas that each kind of placement keeps them. The class in scheduler.dfy
 * mutates its fields and a FacultyLedger; its methods rely on these lemmas.
 */
module Schedule {
  import opened Wrappers
  import opened Sessions
  import opened Grid
  import opened Ledger

  /** The inputs the engine reads while it places sessions. */
  datatype Config = Config(
    days: seq<string>,
    numSlots: int,
    divisions: seq<string>,
    recesses: seq<(int, int)>,
    maxPerDay: int)

  /** Everything one run mutates: the grid, the lab-per-day flags and the faculty ledger. */
  datatype EngineState = EngineState(
    t: Timetable,
    hasLab: map<string, set<string>>,
    busy: set<BusyKey>,
    count: DayCount)

  /** The validation of generateTimetable: at least one slot, one day and one division. */
  predicate ValidConfig(cfg: Config) {
    cfg.numSlots > 0 && |cfg.days| > 0 && |cfg.divisions| > 0
  }

  function Min(a: int, b: int): int {
    if a < b then a else b
  }

  /** Slot `s` lies in some recess range [r0, r1] once clipped to [1, numSlots]. */
  predicate InRecess(recesses: seq<(int, int)>, numSlots: int, s: int) {
    exists i :: 0 <= i < |recesses| && Max(1, recesses[i].0) <= s <= Min(numSlots, recesses[i].1)
  }

  /** One more range adds exactly its clipped slots. */
  lemma InRecessSnoc(recesses: seq<(int, int)>, k: int, numSlots: int, s: int)
    requires 0 <= k < |recesses|
    ensures InRecess(recesses[..k + 1], numSlots, s) <==>
      InRecess(recesses[..k], numSlots, s) || Max(1, recesses[k].0) <= s <= Min(numSlots, recesses[k].1)
  {
    var rs := recesses[..k + 1];
    if InRecess(rs, numSlots, s) {
      var i :| 0 <= i < |rs| && Max(1, rs[i].0) <= s <= Min(numSlots, rs[i].1);
      if i < k {
        assert recesses[..k][i] == rs[i];
      }
    }
    if InRecess(recesses[..k], numSlots, s) {
      var i :| 0 <= i < k && Max(1, recesses[..k][i].0) <= s <= Min(numSlots, recesses[..k][i].1);
      assert rs[i] == recesses[..k][i];
    }
    if Max(1, recesses[k].0) <= s <= Min(numSlots, recesses[k].1) {
      assert rs[k] == recesses[k];
    }
  }

  // ---------------------------------------------------------------------------
  // Invariants

  /** One day table per (division, day) of the inputs, and slots only in [1, numSlots]. */
  ghost predicate Shaped(cfg: Config, t: Timetable) {
    (forall div :: div in t <==> div in cfg.divisions) &&
    (forall div, day :: div in t ==> (day in t[div] <==> day in cfg.days)) &&
    (forall div, day, s :: Get(t, div, day, s).Some? ==> 1 <= s <= cfg.numSlots)
  }

  /** The recess cells are exactly the clipped recess ranges, in every division and on every day. */
  ghost predicate RecessExact(cfg: Config, t: Timetable) {
    forall div, day, s :: IsRecessCell(Get(t, div, day, s)) <==>
      div in cfg.divisions && day in cfg.days && InRecess(cfg.recesses, cfg.numSlots, s)
  }

  ghost predicate CellsWellFormed(t: Timetable) {
    forall div, day, s :: Get(t, div, day, s).Some? ==> WellFormed(Get(t, div, day, s).value)
  }

  /** Every taught cell has its (day, slot, faculty) key in the busy set ... */
  ghost predicate BusyCovers(t: Timetable, busy: set<BusyKey>) {
    forall div, day, s, f :: IsTaught(Get(t, div, day, s), f) ==> (day, s, f) in busy
  }

  /** ... and every busy key comes from a taught cell. */
  ghost predicate BusyFromCells(t: Timetable, busy: set<BusyKey>) {
    forall day, s, f :: (day, s, f) in busy ==> exists div :: IsTaught(Get(t, div, day, s), f)
  }

  /** No faculty teaches in two divisions at the same (day, slot). */
  ghost predicate NoDoubleBooking(t: Timetable) {
    forall d1, d2, day, s, f :: IsTaught(Get(t, d1, day, s), f) && IsTaught(Get(t, d2, day, s), f) ==> d1 == d2
  }

  /** The ledger's load of each (faculty, day) is the number of cells it teaches that day. */
  ghost predicate CountsMatch(t: Timetable, count: DayCount) {
    forall f, d :: Used(count, f, d) == |Occupied(t, f, d)|
  }

  ghost predicate LabFlagsShaped(cfg: Config, hasLab: map<string, set<string>>) {
    forall div :: div in hasLab <==> div in cfg.divisions
  }

  /** A lab cell's (division, day) is flagged in divisionDayHasLab. */
  ghost predicate LabsFlagged(t: Timetable, hasLab: map<string, set<string>>) {
    forall div, day, s :: IsLabCell(Get(t, div, day, s)) ==> div in hasLab && day in hasLab[div]
  }

  /** The slots of one (division, day) that hold a lab session. */
  ghost function LabSlots(t: Timetable, div: string, day: string): set<int> {
    set c | c in DaySlots(t, div, day) && DaySlots(t, div, day)[c].kind == Lab
  }

  lemma LabSlotsMember(t: Timetable, div: string, day: string, c: int)
    ensures c in LabSlots(t, div, day) <==> IsLabCell(Get(t, div, day, c))
  {
  }

  /**
   * The lab cells of one (division, day) are neighbouring slots holding the
   * same session, and there are none or two of them: at most one two-slot
   * block per division per day, and no lab cell on its own.
   */
  ghost predicate LabsPaired(t: Timetable) {
    (forall div, day, s, s2 :: IsLabCell(Get(t, div, day, s)) && IsLabCell(Get(t, div, day, s2)) ==>
       s2 - 1 <= s <= s2 + 1 && Get(t, div, day, s) == Get(t, div, day, s2)) &&
    (forall div, day :: LabSlots(t, div, day) == {} || |LabSlots(t, div, day)| == 2)
  }

  /** The invariants that hold after every single cell write, also halfway through a lab block. */
  ghost predicate CoreInv(cfg: Config, st: EngineState) {
    ValidConfig(cfg) &&
    Shaped(cfg, st.t) && RecessExact(cfg, st.t) && CellsWellFormed(st.t) &&
    BusyCovers(st.t, st.busy) && BusyFromCells(st.t, st.busy) && NoDoubleBooking(st.t) &&
    CountsMatch(st.t, st.count) && WithinCap(st.count, cfg.maxPerDay)
  }

  /** The invariants about lab blocks and their flags. */
  ghost predicate LabInv(cfg: Config, st: EngineState) {
    LabFlagsShaped(cfg, st.hasLab) && LabsFlagged(st.t, st.hasLab) && LabsPaired(st.t)
  }

  /** The state invariant of a run, from grid initialisation to the end of gap fill. */
  ghost predicate Inv(cfg: Config, st: EngineState) {
    CoreInv(cfg, st) && LabInv(cfg, st)
  }

  /** What a finished run guarantees about its grid alone. */
  ghost predicate Sound(cfg: Config, t: Timetable, hasLab: map<string, set<string>>) {
    Shaped(cfg, t) && RecessExact(cfg, t) && CellsWellFormed(t) && NoDoubleBooking(t) &&
    LabFlagsShaped(cfg, hasLab) && LabsFlagged(t, hasLab) && LabsPaired(t) &&
    forall f, d :: |Occupied(t, f, d)| <= Max(cfg.maxPerDay, 0)
  }

  lemma InvSound(cfg: Config, st: EngineState)
    requires Inv(cfg, st)
    ensures Sound(cfg, st.t, st.hasLab)
  {
  }

  // ---------------------------------------------------------------------------
  // Growth between states

  /** `st1` was reached from `st0` by placements only: the grid, busy set, loads and flags only grew. */
  ghost predicate Grows(st0: EngineState, st1: EngineState) {
    Extends(st0.t, st1.t) &&
    st0.busy <= st1.busy &&
    (forall f, d :: Used(st0.count, f, d) <= Used(st1.count, f, d)) &&
    (forall div :: div in st0.hasLab ==> div in st1.hasLab && st0.hasLab[div] <= st1.hasLab[div])
  }

  lemma GrowsTrans(st0: EngineState, st1: EngineState, st2: EngineState)
    requires Grows(st0, st1) && Grows(st1, st2)
    ensures Grows(st0, st2)
  {
  }

  /** `t1` extends `t0`, and every cell it adds lies in `div` and holds `x`. */
  ghost predicate AddsOnlySession(t0: Timetable, t1: Timetable, div: string, x: Session) {
    Extends(t0, t1) &&
    forall a, b, c :: Get(t0, a, b, c).None? && Get(t1, a, b, c).Some? ==> a == div && Get(t1, a, b, c) == Some(x)
  }

  /** `t1` extends `t0`, and every cell it adds lies in `div`. */
  ghost predicate AddsOnlyIn(t0: Timetable, t1: Timetable, div: string) {
    Extends(t0, t1) &&
    forall a, b, c :: Get(t0, a, b, c).None? && Get(t1, a, b, c).Some? ==> a == div
  }

  lemma AddsOnlySessionTrans(t0: Timetable, t1: Timetable, t2: Timetable, div: string, x: Session)
    requires AddsOnlySession(t0, t1, div, x) && AddsOnlySession(t1, t2, div, x)
    ensures AddsOnlySession(t0, t2, div, x)
  {
  }

  lemma AddsOnlyTrans(t0: Timetable, t1: Timetable, t2: Timetable, k: Kind)
    requires AddsOnly(t0, t1, k) && AddsOnly(t1, t2, k)
    ensures AddsOnly(t0, t2, k)
  {
  }

  lemma AddsOnlyInTrans(t0: Timetable, t1: Timetable, t2: Timetable, div: string)
    requires AddsOnlyIn(t0, t1, div) && AddsOnlyIn(t1, t2, div)
    ensures AddsOnlyIn(t0, t2, div)
  {
  }

  /** A step that adds only copies of `x` in `div` adds only cells of x's kind, and only in `div`. */
  lemma AddsOnlySessionWeakens(t0: Timetable, t1: Timetable, div: string, x: Session)
    requires AddsOnlySession(t0, t1, div, x)
    ensures AddsOnly(t0, t1, x.kind) && AddsOnlyIn(t0, t1, div)
  {
  }

  // ---------------------------------------------------------------------------
  // The guards of the placement loops

  /** The adjacency rule: the previous slot holds a non-recess session of the same faculty. */
  predicate PrevClash(ds: DayTable, s: int, f: string) {
    (s - 1) in ds && ds[s - 1].faculty == Some(f) && ds[s - 1].kind != Recess
  }

  /** `divisionDayHasLab.get(div)`: the days of `div` that hold a lab block; none when `div` has no entry. */
  function LabDays(hasLab: map<string, set<string>>, div: string): set<string> {
    if div in hasLab then hasLab[div] else {}
  }

  /** Every guard of the lab search accepts slots (s, s+1) of `day` for faculty `f`. */
  predicate LabFits(cfg: Config, st: EngineState, div: string, day: string, s: int, f: string) {
    day !in LabDays(st.hasLab, div) &&
    HasCapacity(st.count, f, day, 2, cfg.maxPerDay) &&
    1 <= s <= cfg.numSlots - 1 &&
    var ds := DaySlots(st.t, div, day);
    !IsRecess(ds, s) && !IsRecess(ds, s + 1) &&
    s !in ds && s + 1 !in ds &&
    !IsFacultyBusy(st.busy, day, s, f) && !IsFacultyBusy(st.busy, day, s + 1, f)
  }

  /** Every guard of the lecture search and of gap fill accepts slot `s` of `day` for faculty `f`. */
  predicate LectureFits(cfg: Config, st: EngineState, div: string, day: string, s: int, f: string) {
    HasCapacity(st.count, f, day, 1, cfg.maxPerDay) &&
    1 <= s <= cfg.numSlots &&
    var ds := DaySlots(st.t, div, day);
    !IsRecess(ds, s) && s !in ds &&
    !IsFacultyBusy(st.busy, day, s, f) &&
    !PrevClash(ds, s, f)
  }

  /** A guard that rejects a slot keeps rejecting it while the state only grows. */
  lemma LectureFitsShrinks(cfg: Config, st0: EngineState, st1: EngineState, div: string, day: string, s: int, f: string)
    requires Grows(st0, st1)
    requires LectureFits(cfg, st1, div, day, s, f)
    ensures LectureFits(cfg, st0, div, day, s, f)
  {
    var ds0, ds1 := DaySlots(st0.t, div, day), DaySlots(st1.t, div, day);
    assert Get(st0.t, div, day, s).Some? ==> Get(st1.t, div, day, s).Some?;
    assert Get(st0.t, div, day, s - 1).Some? ==> Get(st1.t, div, day, s - 1) == Get(st0.t, div, day, s - 1);
  }

  // ---------------------------------------------------------------------------
  // The placements

  /** One taught cell written into a slot: the faculty becomes busy there and its load grows by 1. */
  function PlaceCell(st: EngineState, div: string, day: string, s: int, subject: string, f: string, k: Kind): EngineState
    requires k != Recess
  {
    EngineState(
      Put(st.t, div, day, s, Taught(subject, f, k)),
      st.hasLab,
      st.busy + {(day, s, f)},
      Incremented(st.count, f, day, 1))
  }

  /** The state after a lecture at slot s: the cell holds it, the faculty is busy, its load grows by 1. */
  function PlaceLecture(st: EngineState, div: string, day: string, s: int, subject: string, f: string): EngineState {
    PlaceCell(st, div, day, s, subject, f, Lecture)
  }

  /**
   * The state after a lab block at slots s and s+1: both cells hold the lab,
   * the faculty is busy in both, its load grows by 2 and the day is flagged.
   */
  function PlaceLab(st: EngineState, div: string, day: string, s: int, subject: string, f: string): EngineState {
    var st1 := PlaceCell(st, div, day, s, subject, f, Lab);
    var st2 := PlaceCell(st1, div, day, s + 1, subject, f, Lab);
    st2.(hasLab := st.hasLab[div := LabDays(st.hasLab, div) + {day}])
  }

  /** incrementCount(.., 2) has the effect of two increments by 1. */
  lemma IncrementedTwice(count: DayCount, f: string, day: string)
    ensures Incremented(Incremented(count, f, day, 1), f, day, 1) == Incremented(count, f, day, 2)
  {
    var inner := if f in count then count[f] else map[];
    var u := if day in inner then inner[day] else 0;
    assert inner[day := u + 1][day := u + 2] == inner[day := u + 2];
    assert count[f := inner[day := u + 1]][f := inner[day := u + 2]] == count[f := inner[day := u + 2]];
  }

  lemma ShapedAfterPut(cfg: Config, t: Timetable, div: string, day: string, s: int, x: Session)
    requires Shaped(cfg, t) && div in t && day in t[div] && 1 <= s <= cfg.numSlots
    ensures Shaped(cfg, Put(t, div, day, s, x))
  {
  }

  lemma RecessAfterPut(cfg: Config, t: Timetable, div: string, day: string, s: int, x: Session)
    requires RecessExact(cfg, t)
    requires Get(t, div, day, s).None? && x.kind != Recess
    ensures RecessExact(cfg, Put(t, div, day, s, x))
  {
    var t' := Put(t, div, day, s, x);
    forall a, b, c
      ensures IsRecessCell(Get(t', a, b, c)) <==> a in cfg.divisions && b in cfg.days && InRecess(cfg.recesses, cfg.numSlots, c)
    {
      if (a, b, c) != (div, day, s) {
        assert Get(t', a, b, c) == Get(t, a, b, c);
      }
    }
  }

  lemma WellFormedAfterPut(t: Timetable, div: string, day: string, s: int, x: Session)
    requires CellsWellFormed(t) && WellFormed(x)
    ensures CellsWellFormed(Put(t, div, day, s, x))
  {
  }

  lemma BusyAfterPut(t: Timetable, busy: set<BusyKey>, div: string, day: string, s: int, x: Session, f: string)
    requires BusyCovers(t, busy) && BusyFromCells(t, busy)
    requires Get(t, div, day, s).None?
    requires x.kind != Recess && x.faculty == Some(f)
    ensures BusyCovers(Put(t, div, day, s, x), busy + {(day, s, f)})
    ensures BusyFromCells(Put(t, div, day, s, x), busy + {(day, s, f)})
  {
    var t' := Put(t, div, day, s, x);
    forall dy, sl, g | (dy, sl, g) in busy + {(day, s, f)}
      ensures exists d :: IsTaught(Get(t', d, dy, sl), g)
    {
      if (dy, sl, g) in busy {
        var d :| IsTaught(Get(t, d, dy, sl), g);
        assert Get(t', d, dy, sl) == Get(t, d, dy, sl);
      } else {
        assert IsTaught(Get(t', div, dy, sl), g);
      }
    }
  }

  lemma NoDoubleAfterPut(t: Timetable, busy: set<BusyKey>, div: string, day: string, s: int, x: Session, f: string)
    requires NoDoubleBooking(t) && BusyCovers(t, busy)
    requires Get(t, div, day, s).None?
    requires x.faculty == Some(f) && (day, s, f) !in busy
    ensures NoDoubleBooking(Put(t, div, day, s, x))
  {
    var t' := Put(t, div, day, s, x);
    forall d1, d2, dy, sl, g | IsTaught(Get(t', d1, dy, sl), g) && IsTaught(Get(t', d2, dy, sl), g)
      ensures d1 == d2
    {
      if (d1, dy, sl) == (div, day, s) {
        assert !IsTaught(Get(t, d2, dy, sl), g);
      } else if (d2, dy, sl) == (div, day, s) {
        assert !IsTaught(Get(t, d1, dy, sl), g);
      }
    }
  }

  lemma CountsAfterPut(t: Timetable, count: DayCount, div: string, day: string, s: int, x: Session, f: string)
    requires CountsMatch(t, count)
    requires div in t && day in t[div] && Get(t, div, day, s).None?
    requires x.kind != Recess && x.faculty == Some(f)
    ensures CountsMatch(Put(t, div, day, s, x), Incremented(count, f, day, 1))
  {
    forall g, e
      ensures Used(Incremented(count, f, day, 1), g, e) == |Occupied(Put(t, div, day, s, x), g, e)|
    {
      OccupiedAfterPut(t, div, day, s, x, g, e);
    }
  }

  /**
   * A taught cell written into a free, non-recess slot whose faculty is free
   * there and under its daily cap keeps the core invariants.
   */
  lemma PlaceCellKeepsCore(cfg: Config, st: EngineState, div: string, day: string, s: int, subject: string, f: string, k: Kind)
    requires CoreInv(cfg, st)
    requires div in cfg.divisions && day in cfg.days && k != Recess
    requires 1 <= s <= cfg.numSlots && Get(st.t, div, day, s).None?
    requires !IsFacultyBusy(st.busy, day, s, f) && HasCapacity(st.count, f, day, 1, cfg.maxPerDay)
    ensures CoreInv(cfg, PlaceCell(st, div, day, s, subject, f, k))
  {
    var x := Taught(subject, f, k);
    ShapedAfterPut(cfg, st.t, div, day, s, x);
    RecessAfterPut(cfg, st.t, div, day, s, x);
    WellFormedAfterPut(st.t, div, day, s, x);
    BusyAfterPut(st.t, st.busy, div, day, s, x, f);
    NoDoubleAfterPut(st.t, st.busy, div, day, s, x, f);
    CountsAfterPut(st.t, st.count, div, day, s, x, f);
    GuardedIncrementKeepsCap(st.count, f, day, 1, cfg.maxPerDay);
  }

  /** A lecture cell changes no lab cell, so the lab invariants survive it. */
  lemma LabInvAfterLecture(cfg: Config, st: EngineState, div: string, day: string, s: int, subject: string, f: string)
    requires LabInv(cfg, st)
    requires Get(st.t, div, day, s).None?
    ensures LabInv(cfg, PlaceLecture(st, div, day, s, subject, f))
  {
    var t' := PlaceLecture(st, div, day, s, subject, f).t;
    assert forall a, b, c :: IsLabCell(Get(t', a, b, c)) ==> Get(t', a, b, c) == Get(st.t, a, b, c);
    forall a, b
      ensures LabSlots(t', a, b) == LabSlots(st.t, a, b)
    {
      forall c ensures c in LabSlots(t', a, b) <==> c in LabSlots(st.t, a, b) {
        LabSlotsMember(t', a, b, c);
        LabSlotsMember(st.t, a, b, c);
      }
    }
  }

  /** Two lab cells written into a day that held none form that day's only block, and every other block stays paired. */
  lemma PairedAfterLabBlock(t: Timetable, t': Timetable, div: string, day: string, s: int, x: Session)
    requires x.kind == Lab && LabsPaired(t)
    requires forall c :: !IsLabCell(Get(t, div, day, c))
    requires forall a, b, c :: Get(t', a, b, c) == if a == div && b == day && (c == s || c == s + 1) then Some(x) else Get(t, a, b, c)
    ensures LabsPaired(t')
  {
    forall a, b, c, c2 | IsLabCell(Get(t', a, b, c)) && IsLabCell(Get(t', a, b, c2))
      ensures c2 - 1 <= c <= c2 + 1 && Get(t', a, b, c) == Get(t', a, b, c2)
    {
      if a == div && b == day {
        assert c == s || c == s + 1;
        assert c2 == s || c2 == s + 1;
      } else {
        assert Get(t', a, b, c) == Get(t, a, b, c) && Get(t', a, b, c2) == Get(t, a, b, c2);
      }
    }
    forall a, b
      ensures LabSlots(t', a, b) == {} || |LabSlots(t', a, b)| == 2
    {
      if a == div && b == day {
        assert LabSlots(t', a, b) == {s, s + 1} by {
          forall c ensures c in LabSlots(t', a, b) <==> c == s || c == s + 1 {
            LabSlotsMember(t', a, b, c);
          }
        }
      } else {
        assert LabSlots(t', a, b) == LabSlots(t, a, b) by {
          forall c ensures c in LabSlots(t', a, b) <==> c in LabSlots(t, a, b) {
            LabSlotsMember(t', a, b, c);
            LabSlotsMember(t, a, b, c);
          }
        }
      }
    }
  }

  /** Flagging the day of a new lab block keeps every lab cell flagged. */
  lemma FlaggedAfterLabBlock(t: Timetable, t': Timetable, hasLab: map<string, set<string>>, div: string, day: string, s: int, x: Session)
    requires LabsFlagged(t, hasLab)
    requires forall a, b, c :: Get(t', a, b, c) == if a == div && b == day && (c == s || c == s + 1) then Some(x) else Get(t, a, b, c)
    ensures LabsFlagged(t', hasLab[div := LabDays(hasLab, div) + {day}])
  {
  }

  /** A lab block on an unflagged (division, day) is that day's only lab block, and its day is flagged. */
  lemma LabInvAfterLab(cfg: Config, st: EngineState, div: string, day: string, s: int, subject: string, f: string)
    requires LabInv(cfg, st) && div in cfg.divisions
    requires day !in LabDays(st.hasLab, div)
    requires Get(st.t, div, day, s).None? && Get(st.t, div, day, s + 1).None?
    ensures LabInv(cfg, PlaceLab(st, div, day, s, subject, f))
  {
    var x := Taught(subject, f, Lab);
    var st' := PlaceLab(st, div, day, s, subject, f);
    forall a, b, c
      ensures Get(st'.t, a, b, c) == if a == div && b == day && (c == s || c == s + 1) then Some(x) else Get(st.t, a, b, c)
    {
    }
    forall c
      ensures !IsLabCell(Get(st.t, div, day, c))
    {
    }
    PairedAfterLabBlock(st.t, st'.t, div, day, s, x);
    FlaggedAfterLabBlock(st.t, st'.t, st.hasLab, div, day, s, x);
  }

  /**
   * A lecture placed where every guard accepts it keeps every invariant:
   * recess untouched, no double booking, loads counted and within the cap.
   */
  lemma LecturePlacementKeepsInv(cfg: Config, st: EngineState, div: string, day: string, s: int, subject: string, f: string)
    requires Inv(cfg, st)
    requires div in cfg.divisions && day in cfg.days
    requires LectureFits(cfg, st, div, day, s, f)
    ensures Inv(cfg, PlaceLecture(st, div, day, s, subject, f))
  {
    PlaceCellKeepsCore(cfg, st, div, day, s, subject, f, Lecture);
    LabInvAfterLecture(cfg, st, div, day, s, subject, f);
  }

  /** A lecture written into a free cell only adds that cell, and the ledger only grows. */
  lemma LectureGrows(st: EngineState, div: string, day: string, s: int, subject: string, f: string)
    requires Get(st.t, div, day, s).None?
    ensures Grows(st, PlaceLecture(st, div, day, s, subject, f))
    ensures AddsOnlySession(st.t, PlaceLecture(st, div, day, s, subject, f).t, div, Taught(subject, f, Lecture))
  {
  }

  /** The two cell writes of a lab block keep the core invariants. */
  lemma LabCellsKeepCore(cfg: Config, st: EngineState, div: string, day: string, s: int, subject: string, f: string)
    requires CoreInv(cfg, st)
    requires div in cfg.divisions && day in cfg.days
    requires LabFits(cfg, st, div, day, s, f)
    ensures CoreInv(cfg, PlaceLab(st, div, day, s, subject, f))
  {
    LabFirstCell(cfg, st, div, day, s, subject, f);
    var st1 := PlaceCell(st, div, day, s, subject, f, Lab);
    PlaceCellKeepsCore(cfg, st1, div, day, s + 1, subject, f, Lab);
    var st2 := PlaceCell(st1, div, day, s + 1, subject, f, Lab);
    CoreInvIgnoresFlags(cfg, st2, st.hasLab[div := LabDays(st.hasLab, div) + {day}]);
  }

  /** After the first cell of a lab block the invariants hold and the second cell can still take the block's faculty. */
  lemma LabFirstCell(cfg: Config, st: EngineState, div: string, day: string, s: int, subject: string, f: string)
    requires CoreInv(cfg, st)
    requires div in cfg.divisions && day in cfg.days
    requires LabFits(cfg, st, div, day, s, f)
    ensures CoreInv(cfg, PlaceCell(st, div, day, s, subject, f, Lab))
    ensures 1 <= s + 1 <= cfg.numSlots && Get(PlaceCell(st, div, day, s, subject, f, Lab).t, div, day, s + 1).None?
    ensures !IsFacultyBusy(PlaceCell(st, div, day, s, subject, f, Lab).busy, day, s + 1, f)
    ensures HasCapacity(PlaceCell(st, div, day, s, subject, f, Lab).count, f, day, 1, cfg.maxPerDay)
  {
    PlaceCellKeepsCore(cfg, st, div, day, s, subject, f, Lab);
    var st1 := PlaceCell(st, div, day, s, subject, f, Lab);
    assert Get(st1.t, div, day, s + 1).None?;
    assert Used(st1.count, f, day) == Used(st.count, f, day) + 1;
  }

  lemma CoreInvIgnoresFlags(cfg: Config, st: EngineState, flags: map<string, set<string>>)
    requires CoreInv(cfg, st)
    ensures CoreInv(cfg, st.(hasLab := flags))
  {
  }

  /** A lab block written into two free cells only adds those cells, and the ledger and flags only grow. */
  lemma LabGrows(st: EngineState, div: string, day: string, s: int, subject: string, f: string)
    requires Get(st.t, div, day, s).None? && Get(st.t, div, day, s + 1).None?
    ensures Grows(st, PlaceLab(st, div, day, s, subject, f))
    ensures AddsOnlySession(st.t, PlaceLab(st, div, day, s, subject, f).t, div, Taught(subject, f, Lab))
  {
    var x := Taught(subject, f, Lab);
    var st1 := PlaceCell(st, div, day, s, subject, f, Lab);
    var st2 := PlaceCell(st1, div, day, s + 1, subject, f, Lab);
    CellGrows(st, div, day, s, subject, f, Lab);
    assert Get(st1.t, div, day, s + 1) == Get(st.t, div, day, s + 1);
    CellGrows(st1, div, day, s + 1, subject, f, Lab);
    GrowsTrans(st, st1, st2);
    AddsOnlySessionTrans(st.t, st1.t, st2.t, div, x);
    assert st2.hasLab == st.hasLab;
    var st3 := st2.(hasLab := st2.hasLab[div := LabDays(st2.hasLab, div) + {day}]);
    assert PlaceLab(st, div, day, s, subject, f) == st3;
    FlagsGrow(st2, div, day);
    GrowsTrans(st, st2, st3);
  }

  /** The two cells of a block that fits are free. */
  lemma LabFitsFree(cfg: Config, st: EngineState, div: string, day: string, s: int, f: string)
    requires LabFits(cfg, st, div, day, s, f)
    ensures Get(st.t, div, day, s).None? && Get(st.t, div, day, s + 1).None?
  {
  }

  /** One cell written where the grid had none only adds that cell, and the ledger only grows. */
  lemma CellGrows(st: EngineState, div: string, day: string, s: int, subject: string, f: string, k: Kind)
    requires k != Recess && Get(st.t, div, day, s).None?
    ensures Grows(st, PlaceCell(st, div, day, s, subject, f, k))
    ensures AddsOnlySession(st.t, PlaceCell(st, div, day, s, subject, f, k).t, div, Taught(subject, f, k))
  {
  }

  /** Adding a day to a division's lab flags only grows them. */
  lemma FlagsGrow(st: EngineState, div: string, day: string)
    ensures Grows(st, st.(hasLab := st.hasLab[div := LabDays(st.hasLab, div) + {day}]))
  {
  }

  /**
   * A lab block placed where every guard of the lab search accepts it keeps
   * every invariant: recess untouched, no double booking, load within the cap,
   * one block per division and day.
   */
  lemma LabPlacementKeepsInv(cfg: Config, st: EngineState, div: string, day: string, s: int, subject: string, f: string)
    requires Inv(cfg, st)
    requires div in cfg.divisions && day in cfg.days
    requires LabFits(cfg, st, div, day, s, f)
    ensures Inv(cfg, PlaceLab(st, div, day, s, subject, f))
  {
    LabCellsKeepCore(cfg, st, div, day, s, subject, f);
    LabInvAfterLab(cfg, st, div, day, s, subject, f);
  }

  // ---------------------------------------------------------------------------
  // The initial grid

  /** The day table of initTimetableWithRecess: RECESS in every clipped recess slot, nothing else. */
  function RecessDay(cfg: Config): DayTable {
    map s | 1 <= s <= cfg.numSlots && InRecess(cfg.recesses, cfg.numSlots, s) :: RecessSession
  }

  /** One RecessDay per (division, day). */
  function InitialGrid(cfg: Config): Timetable {
    map div | div in cfg.divisions :: map day | day in cfg.days :: RecessDay(cfg)
  }

  /** An empty lab flag set per division. */
  function InitialFlags(cfg: Config): map<string, set<string>> {
    map div | div in cfg.divisions :: {}
  }

  /**
   * The grid right after initialisation, with an empty busy set and a ledger of
   * zero loads, satisfies every invariant.
   */
  lemma InitialInv(cfg: Config, count: DayCount)
    requires ValidConfig(cfg)
    requires forall f, d :: Used(count, f, d) == 0
    ensures Inv(cfg, EngineState(InitialGrid(cfg), InitialFlags(cfg), {}, count))
  {
    var t := InitialGrid(cfg);
    forall a, b, c
      ensures Get(t, a, b, c) == if a in cfg.divisions && b in cfg.days && c in RecessDay(cfg) then Some(RecessSession) else None
    {
      InitialCell(cfg, a, b, c);
    }
    forall a, b
      ensures LabSlots(t, a, b) == {}
    {
      forall c | c in LabSlots(t, a, b) ensures false {
        LabSlotsMember(t, a, b, c);
      }
    }
    forall f, d
      ensures Occupied(t, f, d) == {}
    {
      forall p | p in Occupied(t, f, d)
        ensures false
      {
        OccupiedMember(t, f, d, p.0, p.1);
      }
    }
  }

  /** A cell of the initial grid holds RECESS exactly in the recess slots of an input (division, day), and is free otherwise. */
  lemma InitialCell(cfg: Config, a: string, b: string, c: int)
    ensures Get(InitialGrid(cfg), a, b, c) == if a in cfg.divisions && b in cfg.days && c in RecessDay(cfg) then Some(RecessSession) else None
  {
  }

  /** The loads only enter the invariants through Used, so re-keying the ledger without changing a load keeps them. */
  lemma InvSameLoads(cfg: Config, st: EngineState, count: DayCount)
    requires Inv(cfg, st)
    requires forall f, d :: Used(count, f, d) == Used(st.count, f, d)
    ensures Inv(cfg, st.(count := count))
    ensures Grows(st, st.(count := count))
  {
  }

  // ---------------------------------------------------------------------------
  // Scan order of the searches

  /** No slot pair of any day accepts a lab block of `f` in `div`. */
  ghost predicate NoLabFit(cfg: Config, st: EngineState, div: string, f: string) {
    forall i, s :: 0 <= i < |cfg.days| ==> !LabFits(cfg, st, div, cfg.days[i], s, f)
  }

  /** (i, s) is the first accepted lab position, scanning days in order and slots upwards within a day. */
  ghost predicate FirstLabFit(cfg: Config, st: EngineState, div: string, f: string, i: int, s: int) {
    0 <= i < |cfg.days| && LabFits(cfg, st, div, cfg.days[i], s, f) &&
    (forall i', s' :: 0 <= i' < i ==> !LabFits(cfg, st, div, cfg.days[i'], s', f)) &&
    (forall s' :: s' < s ==> !LabFits(cfg, st, div, cfg.days[i], s', f))
  }

  /** The d-th day of a lecture pass that starts at day index `start`, wrapping round. */
  function ScanDay(days: seq<string>, start: int, d: int): string
    requires |days| > 0
  {
    days[(start + d) % |days|]
  }

  /** No day of a lecture pass accepts faculty `f` at any slot from `slotStart` on. */
  ghost predicate NoLectureFit(cfg: Config, st: EngineState, div: string, f: string, start: int, slotStart: int)
    requires |cfg.days| > 0
  {
    forall d, s :: 0 <= d < |cfg.days| && slotStart <= s ==> !LectureFits(cfg, st, div, ScanDay(cfg.days, start, d), s, f)
  }

  /** (d, s) is the first accepted position of a lecture pass: days from `start` on, slots from `slotStart` on. */
  ghost predicate FirstLectureFit(cfg: Config, st: EngineState, div: string, f: string, start: int, slotStart: int, d: int, s: int)
    requires |cfg.days| > 0
  {
    0 <= d < |cfg.days| && slotStart <= s && LectureFits(cfg, st, div, ScanDay(cfg.days, start, d), s, f) &&
    (forall d', s' :: 0 <= d' < d && slotStart <= s' ==> !LectureFits(cfg, st, div, ScanDay(cfg.days, start, d'), s', f)) &&
    (forall s' :: slotStart <= s' < s ==> !LectureFits(cfg, st, div, ScanDay(cfg.days, start, d), s', f))
  }

  // ---------------------------------------------------------------------------
  // Gap fill

  /** A gap-fill candidate: a subject and the faculty that would teach it. */
  datatype Offer = Offer(subject: string, faculty: string)

  /** Plan-mode candidates: each subject of the division's plan with its lecture faculty, in plan order. */
  function PlanOffers(subs: seq<SubjectPlan>): (r: seq<Offer>)
    ensures |r| == |subs|
    ensures forall k :: 0 <= k < |subs| ==> r[k] == Offer(subs[k].subject, subs[k].lectureFaculty)
  {
    if subs == [] then [] else [Offer(subs[0].subject, subs[0].lectureFaculty)] + PlanOffers(subs[1..])
  }

  /** Uniform-mode candidates: every subject name with its faculty from `facultyBySubject`. */
  function UniformOffers(names: seq<string>, facultyBySubject: map<string, string>): (r: seq<Offer>)
    requires forall n :: n in names ==> n in facultyBySubject
    ensures |r| == |names|
    ensures forall k :: 0 <= k < |names| ==> r[k] == Offer(names[k], facultyBySubject[names[k]])
  {
    if names == [] then [] else [Offer(names[0], facultyBySubject[names[0]])] + UniformOffers(names[1..], facultyBySubject)
  }

  /** No cell of `div` accepts a lecture of any candidate's faculty. */
  ghost predicate Saturated(cfg: Config, st: EngineState, div: string, offers: seq<Offer>) {
    forall j, s, k :: 0 <= j < |cfg.days| && 0 <= k < |offers| ==> !LectureFits(cfg, st, div, cfg.days[j], s, offers[k].faculty)
  }

  /** A cell the guards reject stays rejected while the state grows. */
  lemma RejectedStaysRejected(cfg: Config, st0: EngineState, st1: EngineState, div: string, day: string, s: int, f: string)
    requires Grows(st0, st1) && !LectureFits(cfg, st0, div, day, s, f)
    ensures !LectureFits(cfg, st1, div, day, s, f)
  {
    if LectureFits(cfg, st1, div, day, s, f) {
      LectureFitsShrinks(cfg, st0, st1, div, day, s, f);
    }
  }

  /** Saturation survives every later placement, since a rejected cell stays rejected as the state grows. */
  lemma SaturatedKept(cfg: Config, st0: EngineState, st1: EngineState, div: string, offers: seq<Offer>)
    requires Saturated(cfg, st0, div, offers) && Grows(st0, st1)
    ensures Saturated(cfg, st1, div, offers)
  {
    forall j, s, k | 0 <= j < |cfg.days| && 0 <= k < |offers|
      ensures !LectureFits(cfg, st1, div, cfg.days[j], s, offers[k].faculty)
    {
      if LectureFits(cfg, st1, div, cfg.days[j], s, offers[k].faculty) {
        LectureFitsShrinks(cfg, st0, st1, div, cfg.days[j], s, offers[k].faculty);
      }
    }
  }

  /**
   * Whether a lecture of faculty `f` could still go at (div, day, s), judged
   * from the grid alone: the faculty is under its cap that day, the cell is a
   * free slot, the faculty teaches nowhere else at that time, and the previous
   * slot is not its own session.
   */
  ghost predicate OpenFor(cfg: Config, t: Timetable, div: string, day: string, s: int, f: string) {
    |Occupied(t, f, day)| + 1 <= cfg.maxPerDay &&
    1 <= s <= cfg.numSlots && Get(t, div, day, s).None? &&
    (forall d :: !IsTaught(Get(t, d, day, s), f)) &&
    !PrevClash(DaySlots(t, div, day), s, f)
  }

  /** Under the invariants, the guards of the search agree with the grid-only reading. */
  lemma FitsIffOpen(cfg: Config, st: EngineState, div: string, day: string, s: int, f: string)
    requires Inv(cfg, st)
    ensures LectureFits(cfg, st, div, day, s, f) <==> OpenFor(cfg, st.t, div, day, s, f)
  {
    if (day, s, f) in st.busy {
      var d :| IsTaught(Get(st.t, d, day, s), f);
    }
  }
}
