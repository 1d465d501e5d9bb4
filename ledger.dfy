/**
 * The faculty ledger of one generation run: the busy set keyed by
 * (day, slot, faculty), shared by all divisions, and the per-faculty,
 * per-day count of occupied slot units.
 */
module Ledger {

  /** (day, slot, faculty); the source concatenates these as "day#slot#faculty". */
  type BusyKey = (string, int, string)

  /** faculty -> day -> occupied slot units. */
  type DayCount = map<string, map<string, int>>

  /** TimetableService.isFacultyBusy. */
  function IsFacultyBusy(busy: set<BusyKey>, day: string, slot: int, faculty: string): bool {
    (day, slot, faculty) in busy
  }

  /** `count.getOrDefault(faculty, emptyMap()).getOrDefault(day, 0)`. */
  function Used(count: DayCount, faculty: string, day: string): int {
    if faculty in count && day in count[faculty] then count[faculty][day] else 0
  }

  /** TimetableService.hasCapacity: `used + needSlotsToday <= maxPerDay`. */
  function HasCapacity(count: DayCount, faculty: string, day: string, need: int, maxPerDay: int): bool {
    Used(count, faculty, day) + need <= maxPerDay
  }

  /** The count after TimetableService.incrementCount(count, faculty, day, delta). */
  function Incremented(count: DayCount, faculty: string, day: string, delta: int): (r: DayCount)
    ensures forall g, e :: Used(r, g, e) == Used(count, g, e) + (if g == faculty && e == day then delta else 0)
  {
    var inner := if faculty in count then count[faculty] else map[];
    count[faculty := inner[day := (if day in inner then inner[day] else 0) + delta]]
  }

  function Max(a: int, b: int): int {
    if a < b then b else a
  }

  /** No faculty's load on any day exceeds the cap (a negative cap admits no load at all). */
  ghost predicate WithinCap(count: DayCount, maxPerDay: int) {
    forall f, d :: 0 <= Used(count, f, d) <= Max(maxPerDay, 0)
  }

  /**
   * The ledger rule: an increment guarded by hasCapacity with the same number of
   * units never takes a load past the cap.
   */
  lemma GuardedIncrementKeepsCap(count: DayCount, faculty: string, day: string, need: nat, maxPerDay: int)
    requires WithinCap(count, maxPerDay)
    requires HasCapacity(count, faculty, day, need, maxPerDay)
    ensures WithinCap(Incremented(count, faculty, day, need), maxPerDay)
    ensures Used(Incremented(count, faculty, day, need), faculty, day) <= maxPerDay
  {
    var r := Incremented(count, faculty, day, need);
    forall g, e
      ensures 0 <= Used(r, g, e) <= Max(maxPerDay, 0)
    {
      assert Used(r, g, e) == Used(count, g, e) + (if g == faculty && e == day then need else 0);
    }
  }

  /** `faculty` has a load entry for every day of `days`. */
  ghost predicate Seeded(count: DayCount, faculty: string, days: seq<string>) {
    faculty in count && forall d :: d in days ==> d in count[faculty]
  }

  /** `inner.putIfAbsent(day, 0)` for every day of `days` in order: missing days get 0, present ones keep their value. */
  function SeedDays(inner: map<string, int>, days: seq<string>): (r: map<string, int>)
    ensures forall d :: d in r <==> d in inner || d in days
    ensures forall d :: d in r ==> r[d] == if d in inner then inner[d] else 0
    decreases |days|
  {
    if days == [] then inner
    else SeedDays(if days[0] in inner then inner else inner[days[0] := 0], days[1..])
  }

  /**
   * `facultyDayCount.putIfAbsent(faculty, new HashMap<>())` and then
   * `putIfAbsent(day, 0)` for every day: the faculty gets an entry for every
   * day, no entry is lost, and no load changes.
   */
  function SeedFaculty(count: DayCount, faculty: string, days: seq<string>): (r: DayCount)
    ensures Seeded(r, faculty, days)
    ensures forall g, d :: g in count && d in count[g] ==> g in r && d in r[g]
    ensures forall g, e :: Used(r, g, e) == Used(count, g, e)
  {
    var inner := if faculty in count then count[faculty] else map[];
    count[faculty := SeedDays(inner, days)]
  }

  /** SeedFaculty for each faculty of `faculties` in order: each of them ends seeded, and no load changes. */
  function SeedFaculties(count: DayCount, faculties: seq<string>, days: seq<string>): (r: DayCount)
    ensures forall g, e :: Used(r, g, e) == Used(count, g, e)
    decreases |faculties|
  {
    if faculties == [] then count
    else SeedFaculties(SeedFaculty(count, faculties[0], days), faculties[1..], days)
  }

  /** Every faculty of the list is seeded afterwards, whatever it was before. */
  lemma {:induction false} SeedFacultiesSeeds(count: DayCount, faculties: seq<string>, days: seq<string>)
    ensures forall f :: f in faculties ==> Seeded(SeedFaculties(count, faculties, days), f, days)
    decreases |faculties|
  {
    if faculties != [] {
      var c1 := SeedFaculty(count, faculties[0], days);
      SeedFacultiesSeeds(c1, faculties[1..], days);
      SeedFacultiesKeeps(c1, faculties[1..], days, faculties[0]);
    }
  }

  /** Seeding never removes an entry, so a seeded faculty stays seeded. */
  lemma {:induction false} SeedFacultiesKeeps(count: DayCount, faculties: seq<string>, days: seq<string>, f: string)
    requires Seeded(count, f, days)
    ensures Seeded(SeedFaculties(count, faculties, days), f, days)
    decreases |faculties|
  {
    if faculties != [] {
      SeedFacultiesKeeps(SeedFaculty(count, faculties[0], days), faculties[1..], days, f);
    }
  }

  /** Seeding one list and then another is seeding their concatenation. */
  lemma {:induction false} SeedFacultiesAppend(count: DayCount, a: seq<string>, b: seq<string>, days: seq<string>)
    ensures SeedFaculties(count, a + b, days) == SeedFaculties(SeedFaculties(count, a, days), b, days)
    decreases |a|
  {
    if a != [] {
      assert (a + b)[1..] == a[1..] + b;
      SeedFacultiesAppend(SeedFaculty(count, a[0], days), a[1..], b, days);
    } else {
      assert a + b == b;
    }
  }

  class FacultyLedger {
    var busy: set<BusyKey>
    var dayCount: DayCount

    /** The fresh `facultyBusy` set and `facultyDayCount` map of one run. */
    constructor()
      ensures busy == {} && dayCount == map[]
    {
      busy := {};
      dayCount := map[];
    }

    /** TimetableService.markBusy. */
    method MarkBusy(day: string, slot: int, faculty: string)
      modifies this
      ensures busy == old(busy) + {(day, slot, faculty)}
      ensures dayCount == old(dayCount)
    {
      busy := busy + {(day, slot, faculty)};
    }

    /** TimetableService.incrementCount: adds `delta` to one (faculty, day) load and to no other. */
    method IncrementCount(faculty: string, day: string, delta: int)
      modifies this
      ensures busy == old(busy)
      ensures dayCount == Incremented(old(dayCount), faculty, day, delta)
      ensures forall g, e :: Used(dayCount, g, e) == old(Used(dayCount, g, e)) + (if g == faculty && e == day then delta else 0)
    {
      if faculty !in dayCount {
        dayCount := dayCount[faculty := map[]];
      }
      var inner := dayCount[faculty];
      var used := if day in inner then inner[day] else 0;
      dayCount := dayCount[faculty := inner[day := used + delta]];
    }

    /** Seeds the ledger entry of one faculty for every day; no load changes. */
    method Seed(faculty: string, days: seq<string>)
      modifies this
      ensures busy == old(busy)
      ensures dayCount == SeedFaculty(old(dayCount), faculty, days)
    {
      var inner0 := if faculty in dayCount then dayCount[faculty] else map[];
      var inner := inner0;
      var i := 0;
      while i < |days|
        invariant 0 <= i <= |days|
        invariant SeedDays(inner, days[i..]) == SeedDays(inner0, days)
      {
        assert days[i..][1..] == days[i + 1..];
        if days[i] !in inner {
          inner := inner[days[i] := 0];
        }
        i := i + 1;
      }
      dayCount := dayCount[faculty := inner];
    }

    /** Seeds each faculty of the list in order. */
    method SeedAll(faculties: seq<string>, days: seq<string>)
      modifies this
      ensures busy == old(busy)
      ensures dayCount == SeedFaculties(old(dayCount), faculties, days)
    {
      var k := 0;
      while k < |faculties|
        invariant 0 <= k <= |faculties|
        invariant busy == old(busy)
        invariant SeedFaculties(dayCount, faculties[k..], days) == SeedFaculties(old(dayCount), faculties, days)
      {
        assert faculties[k..][1..] == faculties[k + 1..];
        Seed(faculties[k], days);
        k := k + 1;
      }
    }
  }
}
