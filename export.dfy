/**
 * ExportService's CSV export of the in-memory timetable: a header line and
 * one line per occupied cell, division by division and day by day in the
 * maps' enumeration order, slots ascending, every text field CSV-escaped.
 *
 * The export is described as a sequence of records, one per occupied cell;
 * the CSV text is the header followed by one line per record, and the method
 * that builds it with nested loops is proved to produce exactly that text.
 */
module Export {
  import opened Wrappers
  import opened JavaText
  import opened Sessions
  import opened Grid

  // ---------------------------------------------------------------------------
  // escapeCsv

  /** The characters that force a field into quotes. */
  predicate NeedsQuotes(s: string) {
    ',' in s || '"' in s || '\n' in s
  }

  /** Each `"` written twice. */
  function Doubled(s: string): string {
    ReplaceChar(s, '"', "\"\"")
  }

  /** escapeCsv: "" for null; quotes doubled, and the field quoted when it holds `,`, `"` or a newline. */
  function EscapeCsv(s: Option<string>): (r: string)
    ensures s.None? ==> r == []
  {
    if s.None? then []
    else
      var v := Doubled(s.value);
      if ',' in v || '"' in v || '\n' in v then "\"" + v + "\"" else v
  }

  /** Doubling keeps a quote that is there. */
  lemma {:induction false} DoubledKeepsQuote(s: string)
    ensures '"' in Doubled(s) <==> '"' in s
  {
    if s != [] {
      DoubledKeepsQuote(s[1..]);
      assert Doubled(s) == (if s[0] == '"' then "\"\"" else [s[0]]) + Doubled(s[1..]);
      assert s == [s[0]] + s[1..];
    }
  }

  /**
   * The field is quoted exactly when it needs to be, and a field that is not
   * quoted is written as it is and holds none of the three characters.
   */
  lemma EscapeCsvShape(s: string)
    ensures NeedsQuotes(s) ==> EscapeCsv(Some(s)) == "\"" + Doubled(s) + "\""
    ensures !NeedsQuotes(s) ==> EscapeCsv(Some(s)) == s
    ensures !NeedsQuotes(s) ==> ',' !in EscapeCsv(Some(s)) && '\n' !in EscapeCsv(Some(s)) && '"' !in EscapeCsv(Some(s))
  {
    DoubledKeepsQuote(s);
    if !NeedsQuotes(s) {
      ReplaceCharAbsent(s, '"', "\"\"");
    }
  }

  /** A reader's view of a doubled quote: `""` is one `"`. */
  function Undouble(s: string): string {
    if s == [] then []
    else if |s| >= 2 && s[0] == '"' && s[1] == '"' then "\"" + Undouble(s[2..])
    else [s[0]] + Undouble(s[1..])
  }

  /** A reader's view of one field: quotes stripped and doubled quotes undone. */
  function ReadField(r: string): string {
    if |r| >= 2 && r[0] == '"' && r[|r| - 1] == '"' then Undouble(r[1..|r| - 1]) else r
  }

  lemma {:induction false} UndoubleDoubled(s: string)
    ensures Undouble(Doubled(s)) == s
  {
    if s != [] {
      var d := Doubled(s);
      assert d == (if s[0] == '"' then "\"\"" else [s[0]]) + Doubled(s[1..]);
      if s[0] == '"' {
        assert d[2..] == Doubled(s[1..]);
      } else {
        assert d[1..] == Doubled(s[1..]);
      }
      UndoubleDoubled(s[1..]);
    }
  }

  /** Reading an escaped field gives the field back. */
  lemma EscapeCsvRoundTrip(s: string)
    ensures ReadField(EscapeCsv(Some(s))) == s
  {
    EscapeCsvShape(s);
    if NeedsQuotes(s) {
      var r := EscapeCsv(Some(s));
      assert r[1..|r| - 1] == Doubled(s);
      UndoubleDoubled(s);
    } else if s != [] {
      assert s[0] in s;
    }
  }

  // ---------------------------------------------------------------------------
  // Slots in ascending order

  predicate StrictlyIncreasing(xs: seq<int>) {
    forall i, j :: 0 <= i < j < |xs| ==> xs[i] < xs[j]
  }

  /** A set is empty or has an element. */
  lemma EmptyOrElement(s: set<int>)
    ensures s == {} || exists x :: x in s
  {
    if forall x :: x !in s {
      assert s == {};
    }
  }

  lemma {:induction false} MinExists(s: set<int>)
    requires s != {}
    ensures exists m :: m in s && forall y :: y in s ==> m <= y
  {
    EmptyOrElement(s);
    var x :| x in s;
    if s != {x} {
      MinExists(s - {x});
      var m :| m in s - {x} && forall y :: y in s - {x} ==> m <= y;
      var least := if x < m then x else m;
      forall y | y in s
        ensures least <= y
      {
        if y != x {
          assert y in s - {x};
        }
      }
    } else {
      assert forall y :: y in s ==> x <= y;
    }
  }

  /** The least element of a non-empty set. */
  function SetMin(s: set<int>): (m: int)
    requires s != {}
    ensures m in s && forall y :: y in s ==> m <= y
  {
    MinExists(s);
    var m :| m in s && forall y :: y in s ==> m <= y;
    m
  }

  /** `new TreeSet<>(keys)`: the keys in ascending order. */
  function SortedSlots(s: set<int>): (r: seq<int>)
    ensures |r| == |s|
    ensures forall k :: 0 <= k < |r| ==> r[k] in s
    ensures forall x :: x in s ==> x in r
    decreases |s|
  {
    if s == {} then []
    else
      var m := SetMin(s);
      [m] + SortedSlots(s - {m})
  }

  /** The slots come out in ascending order, each once. */
  lemma {:induction false} SortedSlotsIncreasing(s: set<int>)
    ensures StrictlyIncreasing(SortedSlots(s))
    decreases |s|
  {
    if s != {} {
      var m := SetMin(s);
      var rest := SortedSlots(s - {m});
      SortedSlotsIncreasing(s - {m});
      assert forall k :: 0 <= k < |rest| ==> m < rest[k];
      assert SortedSlots(s) == [m] + rest;
    }
  }

  // ---------------------------------------------------------------------------
  // The export as records

  /** One line of the export: the cell of `slot` on `day` of `division`. */
  datatype Row = Row(division: string, day: string, slot: int, session: Session)

  /** The rows of one day, in the order of `slots`. */
  function SlotRows(div: string, day: string, ds: DayTable, slots: seq<int>): (rs: seq<Row>)
    requires forall k :: 0 <= k < |slots| ==> slots[k] in ds
    ensures |rs| == |slots|
    ensures forall k :: 0 <= k < |rs| ==> rs[k] == Row(div, day, slots[k], ds[slots[k]])
  {
    if slots == [] then []
    else SlotRows(div, day, ds, slots[..|slots| - 1]) + [Row(div, day, slots[|slots| - 1], ds[slots[|slots| - 1]])]
  }

  /** The rows of one day, slots ascending. */
  function DayRows(div: string, day: string, ds: DayTable): seq<Row> {
    SlotRows(div, day, ds, SortedSlots(ds.Keys))
  }

  /** A day has a row for each of its occupied slots, and for nothing else. */
  lemma DayRowsHold(div: string, day: string, ds: DayTable, r: Row)
    ensures r in DayRows(div, day, ds) <==> r.division == div && r.day == day && r.slot in ds && r.session == ds[r.slot]
  {
    var slots := SortedSlots(ds.Keys);
    var rs := DayRows(div, day, ds);
    if r in rs {
      var k :| 0 <= k < |rs| && rs[k] == r;
    }
    if r.division == div && r.day == day && r.slot in ds && r.session == ds[r.slot] {
      var k :| 0 <= k < |slots| && slots[k] == r.slot;
      assert rs[k] == r;
    }
  }

  /** The rows of one division, day by day in the order of `days`. */
  function DivisionRows(div: string, byDay: map<string, DayTable>, days: seq<string>): seq<Row>
    requires forall d :: d in days ==> d in byDay
  {
    if days == [] then []
    else DivisionRows(div, byDay, days[..|days| - 1]) + DayRows(div, days[|days| - 1], byDay[days[|days| - 1]])
  }

  /**
   * The enumeration orders of the maps, which a HashMap fixes and the model
   * takes as given: every key once.
   */
  ghost predicate Enumerates(order: seq<string>, keys: set<string>) {
    (forall k :: k in order <==> k in keys) && |order| == |keys|
  }

  /** The order of the divisions and, for each division, of its days. */
  ghost predicate ValidOrders(t: Timetable, divOrder: seq<string>, dayOrder: map<string, seq<string>>) {
    Enumerates(divOrder, t.Keys) && forall d :: d in t ==> d in dayOrder && Enumerates(dayOrder[d], t[d].Keys)
  }

  predicate OrdersCover(t: Timetable, divs: seq<string>, dayOrder: map<string, seq<string>>) {
    forall d :: d in divs ==> d in t && d in dayOrder && forall day :: day in dayOrder[d] ==> day in t[d]
  }

  /** The rows of the divisions in `divs`. */
  function TableRows(t: Timetable, divs: seq<string>, dayOrder: map<string, seq<string>>): seq<Row>
    requires OrdersCover(t, divs, dayOrder)
  {
    if divs == [] then []
    else
      var d := divs[|divs| - 1];
      TableRows(t, divs[..|divs| - 1], dayOrder) + DivisionRows(d, t[d], dayOrder[d])
  }

  /** An element of a non-empty sequence is in its initial part or is its last element. */
  lemma InitLast(xs: seq<string>, x: string)
    requires xs != []
    ensures x in xs <==> x in xs[..|xs| - 1] || x == xs[|xs| - 1]
  {
    assert xs == xs[..|xs| - 1] + [xs[|xs| - 1]];
  }

  lemma {:induction false} DivisionRowsHold(div: string, byDay: map<string, DayTable>, days: seq<string>, r: Row)
    requires forall d :: d in days ==> d in byDay
    ensures r in DivisionRows(div, byDay, days) <==>
      r.division == div && r.day in days && r.slot in byDay[r.day] && r.session == byDay[r.day][r.slot]
  {
    if days != [] {
      var last := days[|days| - 1];
      DivisionRowsHold(div, byDay, days[..|days| - 1], r);
      DayRowsHold(div, last, byDay[last], r);
      InitLast(days, r.day);
    }
  }

  lemma {:induction false} TableRowsHold(t: Timetable, divs: seq<string>, dayOrder: map<string, seq<string>>, r: Row)
    requires OrdersCover(t, divs, dayOrder)
    ensures r in TableRows(t, divs, dayOrder) <==>
      r.division in divs && r.day in dayOrder[r.division] && r.slot in t[r.division][r.day] &&
      r.session == t[r.division][r.day][r.slot]
  {
    if divs != [] {
      var pre := divs[..|divs| - 1];
      var d := divs[|divs| - 1];
      assert divs == pre + [d];
      TableRowsHold(t, pre, dayOrder, r);
      DivisionRowsHold(d, t[d], dayOrder[d], r);
      assert TableRows(t, divs, dayOrder) == TableRows(t, pre, dayOrder) + DivisionRows(d, t[d], dayOrder[d]);
      InitLast(divs, r.division);
    }
  }

  /** The rows of the whole timetable, in the given enumeration orders. */
  function Rows(t: Timetable, divOrder: seq<string>, dayOrder: map<string, seq<string>>): seq<Row>
    requires ValidOrders(t, divOrder, dayOrder)
  {
    assert OrdersCover(t, divOrder, dayOrder);
    TableRows(t, divOrder, dayOrder)
  }

  /** The export has a row for a cell exactly when the cell is occupied, holding its session. */
  lemma RowsAreCells(t: Timetable, divOrder: seq<string>, dayOrder: map<string, seq<string>>, r: Row)
    requires ValidOrders(t, divOrder, dayOrder)
    ensures r in Rows(t, divOrder, dayOrder) <==> Get(t, r.division, r.day, r.slot) == Some(r.session)
  {
    TableRowsHold(t, divOrder, dayOrder, r);
  }

  /** Within one day the rows come slot by slot, ascending. */
  lemma DayRowsAscending(div: string, day: string, ds: DayTable)
    ensures forall i, j :: 0 <= i < j < |DayRows(div, day, ds)| ==> DayRows(div, day, ds)[i].slot < DayRows(div, day, ds)[j].slot
  {
    SortedSlotsIncreasing(ds.Keys);
  }

  /** The cell a row stands for. */
  function Cell(r: Row): (string, string, int) {
    (r.division, r.day, r.slot)
  }

  /** No two rows stand for the same cell. */
  ghost predicate CellsOnce(rs: seq<Row>) {
    forall i, j :: 0 <= i < j < |rs| ==> Cell(rs[i]) != Cell(rs[j])
  }

  /** A sequence has at least as many places as elements, and more when an element repeats. */
  lemma {:induction false} ElementsBound(xs: seq<string>)
    ensures |set x | x in xs| <= |xs|
    ensures !Distinct(xs) ==> |set x | x in xs| < |xs|
  {
    if xs != [] {
      var init, x := xs[..|xs| - 1], xs[|xs| - 1];
      assert xs == init + [x];
      ElementsBound(init);
      assert (set y | y in xs) == (set y | y in init) + {x};
      if !Distinct(xs) && Distinct(init) {
        var i, j :| 0 <= i < j < |xs| && xs[i] == xs[j];
        assert j == |xs| - 1 && init[i] == x;
        assert (set y | y in xs) == (set y | y in init);
      }
    }
  }

  /** An enumeration of a map's keys lists each key once. */
  lemma EnumeratesDistinct(order: seq<string>, keys: set<string>)
    requires Enumerates(order, keys)
    ensures Distinct(order)
  {
    assert (set y | y in order) == keys;
    ElementsBound(order);
  }

  /** Two runs of rows for disjoint sets of cells join into one run for their union. */
  lemma CellsOnceAppend(a: seq<Row>, b: seq<Row>)
    requires CellsOnce(a) && CellsOnce(b)
    requires forall x, y :: x in a && y in b ==> Cell(x) != Cell(y)
    ensures CellsOnce(a + b)
  {
    var ab := a + b;
    forall i, j | 0 <= i < j < |ab|
      ensures Cell(ab[i]) != Cell(ab[j])
    {
      if j < |a| {
        assert ab[i] == a[i] && ab[j] == a[j];
      } else if i >= |a| {
        assert ab[i] == b[i - |a|] && ab[j] == b[j - |a|];
      } else {
        assert ab[i] == a[i] && ab[j] == b[j - |a|];
      }
    }
  }

  /** A day's rows are for distinct slots. */
  lemma DayRowsOnce(div: string, day: string, ds: DayTable)
    ensures CellsOnce(DayRows(div, day, ds))
  {
    SortedSlotsIncreasing(ds.Keys);
  }

  lemma {:induction false} DivisionRowsOnce(div: string, byDay: map<string, DayTable>, days: seq<string>)
    requires forall d :: d in days ==> d in byDay
    requires Distinct(days)
    ensures CellsOnce(DivisionRows(div, byDay, days))
  {
    if days != [] {
      var pre, last := days[..|days| - 1], days[|days| - 1];
      assert forall i, j :: 0 <= i < j < |pre| ==> pre[i] == days[i] && pre[j] == days[j];
      DivisionRowsOnce(div, byDay, pre);
      DayRowsOnce(div, last, byDay[last]);
      assert forall k :: 0 <= k < |pre| ==> pre[k] == days[k] != last;
      forall x, y | x in DivisionRows(div, byDay, pre) && y in DayRows(div, last, byDay[last])
        ensures Cell(x) != Cell(y)
      {
        DivisionRowsHold(div, byDay, pre, x);
        DayRowsHold(div, last, byDay[last], y);
      }
      CellsOnceAppend(DivisionRows(div, byDay, pre), DayRows(div, last, byDay[last]));
    }
  }

  lemma {:induction false} TableRowsOnce(t: Timetable, divs: seq<string>, dayOrder: map<string, seq<string>>)
    requires OrdersCover(t, divs, dayOrder)
    requires Distinct(divs) && forall d :: d in divs ==> Distinct(dayOrder[d])
    ensures CellsOnce(TableRows(t, divs, dayOrder))
  {
    if divs != [] {
      var pre, d := divs[..|divs| - 1], divs[|divs| - 1];
      assert divs == pre + [d];
      assert forall i, j :: 0 <= i < j < |pre| ==> pre[i] == divs[i] && pre[j] == divs[j];
      TableRowsOnce(t, pre, dayOrder);
      DivisionRowsOnce(d, t[d], dayOrder[d]);
      assert forall k :: 0 <= k < |pre| ==> pre[k] == divs[k] != d;
      TableRowsApart(t, pre, dayOrder, d);
      assert TableRows(t, divs, dayOrder) == TableRows(t, pre, dayOrder) + DivisionRows(d, t[d], dayOrder[d]);
      CellsOnceAppend(TableRows(t, pre, dayOrder), DivisionRows(d, t[d], dayOrder[d]));
    }
  }

  /** The rows of a division not among `divs` are for other cells than the rows of `divs`. */
  lemma TableRowsApart(t: Timetable, divs: seq<string>, dayOrder: map<string, seq<string>>, d: string)
    requires OrdersCover(t, divs, dayOrder) && OrdersCover(t, [d], dayOrder) && d !in divs
    ensures forall x, y :: x in TableRows(t, divs, dayOrder) && y in DivisionRows(d, t[d], dayOrder[d]) ==> Cell(x) != Cell(y)
  {
    assert d in [d];
    forall x, y | x in TableRows(t, divs, dayOrder) && y in DivisionRows(d, t[d], dayOrder[d])
      ensures Cell(x) != Cell(y)
    {
      TableRowsHold(t, divs, dayOrder, x);
      DivisionRowsHold(d, t[d], dayOrder[d], y);
    }
  }

  /**
   * No cell is exported twice: with RowsAreCells, the export has exactly one
   * row per occupied cell.
   */
  lemma RowsDistinct(t: Timetable, divOrder: seq<string>, dayOrder: map<string, seq<string>>)
    requires ValidOrders(t, divOrder, dayOrder)
    ensures forall i, j :: 0 <= i < j < |Rows(t, divOrder, dayOrder)| ==>
      Cell(Rows(t, divOrder, dayOrder)[i]) != Cell(Rows(t, divOrder, dayOrder)[j])
  {
    EnumeratesDistinct(divOrder, t.Keys);
    forall d | d in divOrder
      ensures Distinct(dayOrder[d])
    {
      EnumeratesDistinct(dayOrder[d], t[d].Keys);
    }
    TableRowsOnce(t, divOrder, dayOrder);
  }

  // ---------------------------------------------------------------------------
  // The export as text

  const Header: string := "Division,Day,Slot,Type,Faculty,Subject\n"

  /** The six fields of a line; a null faculty or subject is written as an empty field. */
  function CsvFields(r: Row): (fs: seq<string>)
    ensures |fs| == 6
  {
    [EscapeCsv(Some(r.division)), EscapeCsv(Some(r.day)), IntToString(r.slot),
     EscapeCsv(Some(TypeName(r.session.kind))),
     EscapeCsv(Some(if r.session.faculty.Some? then r.session.faculty.value else "")),
     EscapeCsv(Some(if r.session.subject.Some? then r.session.subject.value else ""))]
  }

  /**
   * A reader gets each field back: division, day, the session type, and the
   * faculty and subject with null read as empty; the slot is its decimal text.
   */
  lemma CsvFieldsReadBack(r: Row)
    requires IntMin <= r.slot <= IntMax
    ensures ReadField(CsvFields(r)[0]) == r.division && ReadField(CsvFields(r)[1]) == r.day
    ensures CsvFields(r)[2] == IntToString(r.slot) && ParseInt(CsvFields(r)[2]) == Some(r.slot)
    ensures ReadField(CsvFields(r)[3]) == TypeName(r.session.kind)
    ensures ReadField(CsvFields(r)[4]) == if r.session.faculty.Some? then r.session.faculty.value else ""
    ensures ReadField(CsvFields(r)[5]) == if r.session.subject.Some? then r.session.subject.value else ""
  {
    var fs := CsvFields(r);
    var fac := if r.session.faculty.Some? then r.session.faculty.value else "";
    var sub := if r.session.subject.Some? then r.session.subject.value else "";
    assert fs == [EscapeCsv(Some(r.division)), EscapeCsv(Some(r.day)), IntToString(r.slot),
                  EscapeCsv(Some(TypeName(r.session.kind))), EscapeCsv(Some(fac)), EscapeCsv(Some(sub))];
    EscapeCsvRoundTrip(r.division);
    EscapeCsvRoundTrip(r.day);
    ParseIntToString(r.slot);
    EscapeCsvRoundTrip(TypeName(r.session.kind));
    EscapeCsvRoundTrip(fac);
    EscapeCsvRoundTrip(sub);
  }

  /** One line: the fields separated by commas, then a newline. */
  function CsvLine(r: Row): string {
    Join(CsvFields(r), ',') + "\n"
  }

  /** `line` of each element, concatenated in order. */
  function ConcatMap<T>(line: T -> string, xs: seq<T>): string {
    if xs == [] then "" else ConcatMap(line, xs[..|xs| - 1]) + line(xs[|xs| - 1])
  }

  lemma {:induction false} ConcatMapAppend<T>(line: T -> string, a: seq<T>, b: seq<T>)
    ensures ConcatMap(line, a + b) == ConcatMap(line, a) + ConcatMap(line, b)
  {
    if b == [] {
      assert a + b == a;
    } else {
      var init := b[..|b| - 1];
      assert (a + b)[..|a + b| - 1] == a + init;
      ConcatMapAppend(line, a, init);
    }
  }

  /** The lines of `rs`, in order. */
  function CsvLines(rs: seq<Row>): string {
    ConcatMap(CsvLine, rs)
  }

  /** exportCurrentAsCsv: "" for an empty timetable, otherwise the header and one line per row. */
  function CsvText(t: Timetable, divOrder: seq<string>, dayOrder: map<string, seq<string>>): string
    requires ValidOrders(t, divOrder, dayOrder)
  {
    if |t| == 0 then "" else Header + CsvLines(Rows(t, divOrder, dayOrder))
  }

  /** One more slot adds its line at the end. */
  lemma SlotRowsSnoc(div: string, day: string, ds: DayTable, slots: seq<int>, k: int)
    requires 0 <= k < |slots| && forall i :: 0 <= i < |slots| ==> slots[i] in ds
    ensures CsvLines(SlotRows(div, day, ds, slots[..k + 1])) ==
      CsvLines(SlotRows(div, day, ds, slots[..k])) + CsvLine(Row(div, day, slots[k], ds[slots[k]]))
  {
    assert slots[..k + 1][..k] == slots[..k];
  }

  /** The export is empty exactly for an empty timetable, and otherwise starts with the header. */
  lemma CsvTextShape(t: Timetable, divOrder: seq<string>, dayOrder: map<string, seq<string>>)
    requires ValidOrders(t, divOrder, dayOrder)
    ensures CsvText(t, divOrder, dayOrder) == "" <==> t == map[]
    ensures t != map[] ==> Header <= CsvText(t, divOrder, dayOrder)
  {
    if t != map[] {
      var d :| d in t;
    }
  }

  // ---------------------------------------------------------------------------
  // Building the text

  /** The lines of one day: `for (int slot : new TreeSet<>(slots.keySet()))`. */
  method DayCsv(div: string, day: string, ds: DayTable) returns (text: string)
    ensures text == CsvLines(DayRows(div, day, ds))
  {
    var slots := SortedSlots(ds.Keys);
    text := "";
    for k := 0 to |slots|
      invariant text == CsvLines(SlotRows(div, day, ds, slots[..k]))
    {
      SlotRowsSnoc(div, day, ds, slots, k);
      text := text + CsvLine(Row(div, day, slots[k], ds[slots[k]]));
    }
    assert slots[..|slots|] == slots;
  }

  /** The lines of one division, day by day. */
  method DivisionCsv(div: string, byDay: map<string, DayTable>, days: seq<string>) returns (text: string)
    requires forall d :: d in days ==> d in byDay
    ensures text == CsvLines(DivisionRows(div, byDay, days))
  {
    text := "";
    for k := 0 to |days|
      invariant text == CsvLines(DivisionRows(div, byDay, days[..k]))
    {
      assert days[..k + 1][..k] == days[..k];
      var lines := DayCsv(div, days[k], byDay[days[k]]);
      ConcatMapAppend(CsvLine, DivisionRows(div, byDay, days[..k]), DayRows(div, days[k], byDay[days[k]]));
      text := text + lines;
    }
    assert days[..|days|] == days;
  }

  /** One more division adds its rows at the end. */
  lemma TableRowsSnoc(t: Timetable, divs: seq<string>, dayOrder: map<string, seq<string>>, k: int)
    requires OrdersCover(t, divs, dayOrder) && 0 <= k < |divs|
    ensures OrdersCover(t, divs[..k], dayOrder) && OrdersCover(t, divs[..k + 1], dayOrder)
    ensures TableRows(t, divs[..k + 1], dayOrder) ==
      TableRows(t, divs[..k], dayOrder) + DivisionRows(divs[k], t[divs[k]], dayOrder[divs[k]])
  {
    assert divs[..k + 1][..k] == divs[..k];
  }

  /** exportCurrentAsCsv over the timetable, in the given enumeration orders. */
  method ExportCurrentAsCsv(t: Timetable, divOrder: seq<string>, dayOrder: map<string, seq<string>>) returns (csv: string)
    requires ValidOrders(t, divOrder, dayOrder)
    ensures csv == CsvText(t, divOrder, dayOrder)
  {
    if |t| == 0 {
      return "";
    }
    assert OrdersCover(t, divOrder, dayOrder);
    assert divOrder[..0] == [];
    var body := "";
    for k := 0 to |divOrder|
      invariant OrdersCover(t, divOrder[..k], dayOrder)
      invariant body == CsvLines(TableRows(t, divOrder[..k], dayOrder))
    {
      var d := divOrder[k];
      TableRowsSnoc(t, divOrder, dayOrder, k);
      var lines := DivisionCsv(d, t[d], dayOrder[d]);
      ConcatMapAppend(CsvLine, TableRows(t, divOrder[..k], dayOrder), DivisionRows(d, t[d], dayOrder[d]));
      body := body + lines;
    }
    assert divOrder[..|divOrder|] == divOrder;
    csv := Header + body;
  }
}
