/**
 * The timetable grid of TimetableService: division -> day -> slot -> Session,
 * where a missing key means the cell is free. Every property of the engine is
 * stated through `Get`, which reads one cell whatever the map's shape.
 */
module Grid {
  import opened Wrappers
  import opened Sessions

  type DayTable = map<int, Session>
  type Timetable = map<string, map<string, DayTable>>

  /** `timetable.get(div).get(day)`, or an empty day when either key is missing. */
  function DaySlots(t: Timetable, div: string, day: string): DayTable {
    if div in t && day in t[div] then t[div][day] else map[]
  }

  /** The content of one cell; None when the cell is free. */
  function Get(t: Timetable, div: string, day: string, slot: int): Option<Session> {
    var ds := DaySlots(t, div, day);
    if slot in ds then Some(ds[slot]) else None
  }

  /**
   * `timetable.get(div).get(day).put(slot, x)`. A missing division or day
   * reads as an empty table, as in DaySlots; on the grids a run produces every
   * key is present, and then no key is added.
   */
  function Put(t: Timetable, div: string, day: string, slot: int, x: Session): (r: Timetable)
    ensures forall a, b, c :: Get(r, a, b, c) == if a == div && b == day && c == slot then Some(x) else Get(t, a, b, c)
    ensures div in t && day in t[div] ==> r.Keys == t.Keys && forall a :: a in t ==> r[a].Keys == t[a].Keys
  {
    var row := if div in t then t[div] else map[];
    t[div := row[day := DaySlots(t, div, day)[slot := x]]]
  }

  /** TimetableService.isRecess: the slot holds a RECESS session. */
  function IsRecess(daySlots: DayTable, slot: int): (r: bool)
    ensures r ==> slot in daySlots
  {
    slot in daySlots && daySlots[slot].kind == Recess
  }

  predicate IsRecessCell(x: Option<Session>) {
    x.Some? && x.value.kind == Recess
  }

  predicate IsLabCell(x: Option<Session>) {
    x.Some? && x.value.kind == Lab
  }

  /** The cell holds a lecture or lab of faculty `f`. */
  predicate IsTaught(x: Option<Session>, f: string) {
    x.Some? && x.value.kind != Recess && x.value.faculty == Some(f)
  }

  /** Every occupied cell of `t0` holds the same session in `t1`. */
  ghost predicate Extends(t0: Timetable, t1: Timetable) {
    forall a, b, c :: Get(t0, a, b, c).Some? ==> Get(t1, a, b, c) == Get(t0, a, b, c)
  }

  /** `t1` extends `t0` and every cell it adds holds a session of kind `k`. */
  ghost predicate AddsOnly(t0: Timetable, t1: Timetable, k: Kind) {
    Extends(t0, t1) &&
    forall a, b, c :: Get(t0, a, b, c).None? && Get(t1, a, b, c).Some? ==> Get(t1, a, b, c).value.kind == k
  }

  /** The (division, slot) cells that faculty `f` teaches on `day`: its load in slot units. */
  ghost function Occupied(t: Timetable, f: string, day: string): set<(string, int)> {
    set div, s | div in t && day in t[div] && s in t[div][day] && IsTaught(Get(t, div, day, s), f) :: (div, s)
  }

  lemma OccupiedMember(t: Timetable, f: string, day: string, div: string, s: int)
    ensures (div, s) in Occupied(t, f, day) <==> IsTaught(Get(t, div, day, s), f)
  {
  }

  /**
   * Writing a session into a free cell adds exactly that cell to the load of its
   * faculty on its day, and leaves every other (faculty, day) load as it was.
   */
  lemma OccupiedAfterPut(t: Timetable, div: string, day: string, slot: int, x: Session, g: string, e: string)
    requires div in t && day in t[div]
    requires Get(t, div, day, slot).None?
    ensures var added := if e == day && IsTaught(Some(x), g) then {(div, slot)} else {};
      Occupied(Put(t, div, day, slot, x), g, e) == Occupied(t, g, e) + added
      && Occupied(t, g, e) !! added
      && |Occupied(Put(t, div, day, slot, x), g, e)| == |Occupied(t, g, e)| + |added|
  {
    var t' := Put(t, div, day, slot, x);
    var added := if e == day && IsTaught(Some(x), g) then {(div, slot)} else {};
    forall p | true
      ensures p in Occupied(t', g, e) <==> p in Occupied(t, g, e) + added
    {
      OccupiedMember(t', g, e, p.0, p.1);
      OccupiedMember(t, g, e, p.0, p.1);
    }
    OccupiedMember(t, g, e, div, slot);
  }

  /** Extension is transitive, so the phases of one run compose. */
  lemma ExtendsTrans(t0: Timetable, t1: Timetable, t2: Timetable)
    requires Extends(t0, t1) && Extends(t1, t2)
    ensures Extends(t0, t2)
  {
  }
}
