/**
 * TimetableController's HTML rendering of the generated timetable: one
 * `<table>` per division, a header row of days, and one row per slot whose
 * cells carry a CSS class and a pill for the session kind and, for a lecture
 * or a lab, the escaped "faculty (subject)" text.
 *
 * A table is described twice: as a structured view (which row, which cell,
 * which class and text) and as the string the StringBuilder produces; the
 * methods that build the string are proved to produce the rendering of the
 * view.
 */
module DivisionTables {
  import opened Wrappers
  import opened JavaText
  import opened Sessions
  import opened Grid

  // ---------------------------------------------------------------------------
  // escapeHtml

  /** escapeHtml: "" for null, otherwise `&`, `<`, `>` and `"` replaced in that order. */
  function EscapeHtml(s: Option<string>): (r: string)
    ensures '<' !in r && '>' !in r && '"' !in r
    ensures s.None? ==> r == []
  {
    if s.None? then []
    else ReplaceChar(ReplaceChar(ReplaceChar(ReplaceChar(s.value, '&', "&amp;"), '<', "&lt;"), '>', "&gt;"), '"', "&quot;")
  }

  /** The entity one character becomes. */
  function EscapeChar(c: char): (r: string)
    ensures r != []
  {
    if c == '&' then "&amp;"
    else if c == '<' then "&lt;"
    else if c == '>' then "&gt;"
    else if c == '"' then "&quot;"
    else [c]
  }

  /** Each character escaped on its own. */
  function EscapeEach(s: string): string {
    if s == [] then [] else EscapeChar(s[0]) + EscapeEach(s[1..])
  }

  /** Replacing in a one-character string. */
  lemma ReplaceOne(c: char, d: char, rep: string)
    ensures ReplaceChar([c], d, rep) == if c == d then rep else [c]
  {
    assert [c][1..] == [];
  }

  /** The four replacements of escapeHtml distribute over concatenation. */
  lemma EscapeHtmlAppend(a: string, b: string)
    ensures EscapeHtml(Some(a + b)) == EscapeHtml(Some(a)) + EscapeHtml(Some(b))
  {
    var a1, b1 := ReplaceChar(a, '&', "&amp;"), ReplaceChar(b, '&', "&amp;");
    ReplaceCharAppend(a, b, '&', "&amp;");
    var a2, b2 := ReplaceChar(a1, '<', "&lt;"), ReplaceChar(b1, '<', "&lt;");
    ReplaceCharAppend(a1, b1, '<', "&lt;");
    var a3, b3 := ReplaceChar(a2, '>', "&gt;"), ReplaceChar(b2, '>', "&gt;");
    ReplaceCharAppend(a2, b2, '>', "&gt;");
    ReplaceCharAppend(a3, b3, '"', "&quot;");
  }

  /** The last two replacements on one character other than `&` and `<`. */
  lemma EscapeLastTwo(c: char)
    requires c != '&' && c != '<'
    ensures ReplaceChar(ReplaceChar([c], '>', "&gt;"), '"', "&quot;") == EscapeChar(c)
  {
    ReplaceOne(c, '>', "&gt;");
    if c == '>' {
      ReplaceCharAbsent("&gt;", '"', "&quot;");
    } else {
      ReplaceOne(c, '"', "&quot;");
    }
  }

  /** The last three replacements on one character other than `&`. */
  lemma EscapeLastThree(c: char)
    requires c != '&'
    ensures ReplaceChar(ReplaceChar(ReplaceChar([c], '<', "&lt;"), '>', "&gt;"), '"', "&quot;") == EscapeChar(c)
  {
    ReplaceOne(c, '<', "&lt;");
    if c == '<' {
      ReplaceCharAbsent("&lt;", '>', "&gt;");
      ReplaceCharAbsent("&lt;", '"', "&quot;");
    } else {
      EscapeLastTwo(c);
    }
  }

  /** The entity for `&` holds none of the later replaced characters. */
  lemma AmpEntityFree()
    ensures '<' !in "&amp;" && '>' !in "&amp;" && '"' !in "&amp;"
  {
    assert "&amp;" == ['&', 'a', 'm', 'p', ';'];
  }

  /** escapeHtml of one character is its entity. */
  lemma EscapeHtmlOne(c: char)
    ensures EscapeHtml(Some([c])) == EscapeChar(c)
  {
    ReplaceOne(c, '&', "&amp;");
    if c == '&' {
      AmpEntityFree();
      ReplaceCharAbsent("&amp;", '<', "&lt;");
      ReplaceCharAbsent("&amp;", '>', "&gt;");
      ReplaceCharAbsent("&amp;", '"', "&quot;");
    } else {
      EscapeLastThree(c);
    }
  }

  /**
   * The chain of replacements escapes each character exactly once: the `&`
   * introduced by a later entity is not escaped again.
   */
  lemma {:induction false} EscapeHtmlEach(s: string)
    ensures EscapeHtml(Some(s)) == EscapeEach(s)
  {
    if s == [] {
    } else {
      assert s == [s[0]] + s[1..];
      EscapeHtmlAppend([s[0]], s[1..]);
      EscapeHtmlOne(s[0]);
      EscapeHtmlEach(s[1..]);
    }
  }

  /** The decoder of the four entities, which a browser applies to the text. */
  function Unescape(s: string): string {
    if s == [] then []
    else if |s| >= 5 && s[..5] == "&amp;" then "&" + Unescape(s[5..])
    else if |s| >= 4 && s[..4] == "&lt;" then "<" + Unescape(s[4..])
    else if |s| >= 4 && s[..4] == "&gt;" then ">" + Unescape(s[4..])
    else if |s| >= 6 && s[..6] == "&quot;" then "\"" + Unescape(s[6..])
    else [s[0]] + Unescape(s[1..])
  }

  /** Decoding one escaped character gives it back. */
  lemma UnescapeStep(c: char, rest: string)
    ensures Unescape(EscapeChar(c) + rest) == [c] + Unescape(rest)
  {
    var e := EscapeChar(c);
    var s := e + rest;
    assert s[..|e|] == e && s[|e|..] == rest;
    if c == '<' || c == '>' || c == '"' {
      // the second character tells the entities apart
      assert |s| >= 5 ==> s[..5][1] == e[1] != 'a';
      assert c != '<' ==> s[..4][1] == e[1] != 'l';
      assert c == '"' ==> s[..4][1] == e[1] != 'g';
    } else if c != '&' {
      assert s[0] == c && s[1..] == rest;
      assert |s| >= 4 ==> s[..4][0] == c;
      assert |s| >= 5 ==> s[..5][0] == c;
      assert |s| >= 6 ==> s[..6][0] == c;
    }
  }

  /** Decoding undoes escaping. */
  lemma {:induction false} UnescapeEach(s: string)
    ensures Unescape(EscapeEach(s)) == s
  {
    if s != [] {
      UnescapeStep(s[0], EscapeEach(s[1..]));
      UnescapeEach(s[1..]);
    }
  }

  /** The text a table shows reads back as the string it was given. */
  lemma EscapeHtmlRoundTrip(s: string)
    ensures Unescape(EscapeHtml(Some(s))) == s
  {
    EscapeHtmlEach(s);
    UnescapeEach(s);
  }

  // ---------------------------------------------------------------------------
  // One cell

  /** The upper-cased session type the switch sees; "FREE" for an empty cell. */
  function CellKind(x: Option<Session>): string {
    if x.None? then "FREE" else ToUpperAscii(TypeName(x.value.kind))
  }

  /** The CSS class of the cell's `<td>`. */
  function KindClass(kind: string): string {
    if kind == "RECESS" then "recess"
    else if kind == "LAB" then "lab"
    else if kind == "LECTURE" then "lec"
    else "free"
  }

  /** The pill `<span>` of the cell. */
  function KindPill(kind: string): string {
    if kind == "RECESS" then "<span class=\"pill recess\">RECESS</span>"
    else if kind == "LAB" then "<span class=\"pill lab\">LAB</span>"
    else if kind == "LECTURE" then "<span class=\"pill lec\">LECTURE</span>"
    else "<span class=\"pill free\">Free</span>"
  }

  /** A null faculty or subject is shown as "---"; an empty one is shown as it is. */
  function OrDash(x: Option<string>): (r: string)
    ensures x.Some? ==> r == x.value
    ensures x.None? ==> r == "---"
  {
    if x.Some? then x.value else "---"
  }

  /** Each session type upper-cases to the label of its case in the switch. */
  lemma UpperTypeName(k: Kind)
    ensures ToUpperAscii(TypeName(k)) == match k case Lecture => "LECTURE" case Lab => "LAB" case Recess => "RECESS"
  {
    var u := ToUpperAscii(TypeName(k));
    match k
    case Lecture =>
      assert u[0] == 'L' && u[1] == 'E' && u[2] == 'C' && u[3] == 'T' && u[4] == 'U' && u[5] == 'R' && u[6] == 'E';
      assert u == "LECTURE";
    case Lab =>
      assert u[0] == 'L' && u[1] == 'A' && u[2] == 'B';
      assert u == "LAB";
    case Recess =>
      assert u[0] == 'R' && u[1] == 'E' && u[2] == 'C' && u[3] == 'E' && u[4] == 'S' && u[5] == 'S';
      assert u == "RECESS";
  }

  /** A cell as the table shows it: class, pill and, for teaching, (faculty, subject). */
  datatype CellView = CellView(cls: string, pill: string, shown: Option<(string, string)>)

  /** The cell of one slot; `x` is `dayMap.get(slot)`. */
  function CellOf(x: Option<Session>): CellView {
    var kind := CellKind(x);
    CellView(KindClass(kind), KindPill(kind),
      if kind != "RECESS" && kind != "FREE" && x.Some? then Some((OrDash(x.value.faculty), OrDash(x.value.subject))) else None)
  }

  /**
   * The class and pill follow the session kind, a free cell and a recess show
   * no text, and a lecture or lab shows its faculty and subject.
   */
  lemma CellShows(x: Option<Session>)
    ensures x.None? ==> CellOf(x) == CellView("free", "<span class=\"pill free\">Free</span>", None)
    ensures x.Some? && x.value.kind == Recess ==>
              CellOf(x) == CellView("recess", "<span class=\"pill recess\">RECESS</span>", None)
    ensures x.Some? && x.value.kind == Lab ==>
              CellOf(x) == CellView("lab", "<span class=\"pill lab\">LAB</span>", Some((OrDash(x.value.faculty), OrDash(x.value.subject))))
    ensures x.Some? && x.value.kind == Lecture ==>
              CellOf(x) == CellView("lec", "<span class=\"pill lec\">LECTURE</span>", Some((OrDash(x.value.faculty), OrDash(x.value.subject))))
  {
    if x.Some? {
      UpperTypeName(x.value.kind);
      match x.value.kind
      case Lecture =>
        assert CellKind(x) == "LECTURE";
      case Lab =>
        assert CellKind(x) == "LAB";
      case Recess =>
        assert CellKind(x) == "RECESS";
    }
  }

  // ---------------------------------------------------------------------------
  // The table as a structure

  datatype RowView = RowView(slot: int, cells: seq<CellView>)
  datatype TableView = TableView(division: string, days: seq<string>, rows: seq<RowView>)

  /** The cells of slot `slot`, one per day in `days` order. */
  function CellsOf(t: Timetable, div: string, days: seq<string>, slot: int): (cs: seq<CellView>)
    ensures |cs| == |days|
    ensures forall j :: 0 <= j < |days| ==> cs[j] == CellOf(Get(t, div, days[j], slot))
  {
    seq(|days|, j requires 0 <= j < |days| => CellOf(Get(t, div, days[j], slot)))
  }

  /** The number of body rows: slots 1..numSlots. */
  function RowCount(numSlots: int): nat {
    if numSlots < 0 then 0 else numSlots
  }

  /** The body rows, slot 1 first. */
  function RowsOf(t: Timetable, div: string, days: seq<string>, numSlots: int): (rs: seq<RowView>)
    ensures |rs| == RowCount(numSlots)
    ensures forall i :: 0 <= i < |rs| ==> rs[i] == RowView(i + 1, CellsOf(t, div, days, i + 1))
  {
    seq(RowCount(numSlots), i requires 0 <= i < RowCount(numSlots) => RowView(i + 1, CellsOf(t, div, days, i + 1)))
  }

  /** The table of one division. */
  function TableOf(t: Timetable, div: string, days: seq<string>, numSlots: int): TableView {
    TableView(div, days, RowsOf(t, div, days, numSlots))
  }

  /**
   * What the table shows: row i is slot i+1, cell j of it is the cell of
   * days[j] at that slot, and it shows text exactly when a lecture or a lab
   * is there.
   */
  lemma TableShows(t: Timetable, div: string, days: seq<string>, numSlots: int, i: int, j: int)
    requires 0 <= i < RowCount(numSlots) && 0 <= j < |days|
    ensures TableOf(t, div, days, numSlots).rows[i].slot == i + 1
    ensures TableOf(t, div, days, numSlots).rows[i].cells[j].shown.Some? <==>
      (var x := Get(t, div, days[j], i + 1); x.Some? && x.value.kind != Recess)
  {
    CellShows(Get(t, div, days[j], i + 1));
  }

  // ---------------------------------------------------------------------------
  // The table as text

  function RenderCell(c: CellView): string {
    "<td class=\"" + c.cls + "\">" + "<div class=\"cell\">" + c.pill +
    (if c.shown.Some? then "<span>" + EscapeHtml(Some(c.shown.value.0)) + " (" + EscapeHtml(Some(c.shown.value.1)) + ")" + "</span>" else "") +
    "</div></td>"
  }

  /** The cells in order; the last one is appended last, as the StringBuilder does. */
  function RenderCells(cs: seq<CellView>): string {
    if cs == [] then "" else RenderCells(cs[..|cs| - 1]) + RenderCell(cs[|cs| - 1])
  }

  function RenderRow(r: RowView): string {
    "<tr>" + "<td>" + "S" + IntToString(r.slot) + "</td>" + RenderCells(r.cells) + "</tr>"
  }

  function RenderRows(rs: seq<RowView>): string {
    if rs == [] then "" else RenderRows(rs[..|rs| - 1]) + RenderRow(rs[|rs| - 1])
  }

  function RenderHeads(days: seq<string>): string {
    if days == [] then "" else RenderHeads(days[..|days| - 1]) + "<th>" + EscapeHtml(Some(days[|days| - 1])) + "</th>"
  }

  function RenderTable(v: TableView): string {
    "<table data-division=\"" + EscapeHtml(Some(v.division)) + "\">" +
    "<thead><tr>" + "<th style=\"width:70px\">Slot</th>" + RenderHeads(v.days) + "</tr></thead>" +
    "<tbody>" + RenderRows(v.rows) + "</tbody></table>"
  }

  /** One more slot appends one more row. */
  lemma RenderRowsSnoc(t: Timetable, div: string, days: seq<string>, n: int)
    requires n >= 1
    ensures RenderRows(RowsOf(t, div, days, n)) ==
      RenderRows(RowsOf(t, div, days, n - 1)) + RenderRow(RowView(n, CellsOf(t, div, days, n)))
  {
    var rs := RowsOf(t, div, days, n);
    assert rs[..n - 1] == RowsOf(t, div, days, n - 1);
  }

  /** One more day appends one more cell. */
  lemma RenderCellsSnoc(t: Timetable, div: string, days: seq<string>, slot: int, j: int)
    requires 0 <= j < |days|
    ensures RenderCells(CellsOf(t, div, days[..j + 1], slot)) ==
      RenderCells(CellsOf(t, div, days[..j], slot)) + RenderCell(CellOf(Get(t, div, days[j], slot)))
  {
    var cs := CellsOf(t, div, days[..j + 1], slot);
    assert cs[..j] == CellsOf(t, div, days[..j], slot);
  }

  // ---------------------------------------------------------------------------
  // Building the text

  /** The header cells, day by day. */
  method HeadsHtml(days: seq<string>) returns (html: string)
    ensures html == RenderHeads(days)
  {
    html := "";
    for j := 0 to |days|
      invariant html == RenderHeads(days[..j])
    {
      assert days[..j + 1][..j] == days[..j];
      html := html + "<th>" + EscapeHtml(Some(days[j])) + "</th>";
    }
    assert days[..|days|] == days;
  }

  /** The cells of one slot, day by day. */
  method CellsHtml(t: Timetable, div: string, days: seq<string>, slot: int) returns (html: string)
    ensures html == RenderCells(CellsOf(t, div, days, slot))
  {
    html := "";
    for j := 0 to |days|
      invariant html == RenderCells(CellsOf(t, div, days[..j], slot))
    {
      RenderCellsSnoc(t, div, days, slot, j);
      html := html + RenderCell(CellOf(Get(t, div, days[j], slot)));
    }
    assert days[..|days|] == days;
  }

  /** The body rows, slot 1 to numSlots. */
  method RowsHtml(t: Timetable, div: string, days: seq<string>, numSlots: int) returns (html: string)
    ensures html == RenderRows(RowsOf(t, div, days, numSlots))
  {
    html := "";
    var slot := 1;
    while slot <= numSlots
      invariant 1 <= slot <= RowCount(numSlots) + 1
      invariant html == RenderRows(RowsOf(t, div, days, slot - 1))
    {
      var cells := CellsHtml(t, div, days, slot);
      RenderRowsSnoc(t, div, days, slot);
      html := html + ("<tr>" + "<td>" + "S" + IntToString(slot) + "</td>" + cells + "</tr>");
      slot := slot + 1;
    }
    assert RowsOf(t, div, days, slot - 1) == RowsOf(t, div, days, numSlots);
  }

  /** One division's `<table>`. */
  method BuildDivisionTable(t: Timetable, div: string, days: seq<string>, numSlots: int) returns (html: string)
    ensures html == RenderTable(TableOf(t, div, days, numSlots))
  {
    var heads := HeadsHtml(days);
    var rows := RowsHtml(t, div, days, numSlots);
    html := "<table data-division=\"" + EscapeHtml(Some(div)) + "\">";
    html := html + "<thead><tr>" + "<th style=\"width:70px\">Slot</th>" + heads + "</tr></thead>";
    html := html + "<tbody>" + rows + "</tbody></table>";
  }

  /** buildDivisionTablesHtml: one table per division of the timetable. */
  method BuildDivisionTablesHtml(days: seq<string>, numSlots: int, t: Timetable) returns (out: map<string, string>)
    ensures out.Keys == t.Keys
    ensures forall div :: div in out ==> out[div] == RenderTable(TableOf(t, div, days, numSlots))
  {
    out := map[];
    var rest := t.Keys;
    while rest != {}
      invariant rest <= t.Keys
      invariant out.Keys == t.Keys - rest
      invariant forall div :: div in out ==> out[div] == RenderTable(TableOf(t, div, days, numSlots))
      decreases rest
    {
      var div :| div in rest;
      var html := BuildDivisionTable(t, div, days, numSlots);
      out := out[div := html];
      rest := rest - {div};
    }
  }
}
