/**
 * The request-parsing helpers of TimetableController: comma lists, recess
 * ranges "a-b,c-d" and the six-column plan CSV, written over the String
 * operations of JavaText.
 */
module Controller {
  import opened Wrappers
  import opened JavaText
  import opened Sessions
  import Ledger

  // ---------------------------------------------------------------------------
  // splitCsv / splitCsvNullable

  /** A token as splitCsv keeps it: non-empty, with no blank at either end. */
  predicate Clean(x: string) {
    x != [] && !IsTrimmed(x[0]) && !IsTrimmed(x[|x| - 1])
  }

  /** `.map(String::trim).filter(v -> !v.isEmpty())` over a list of pieces. */
  function Tokens(parts: seq<string>): (r: seq<string>)
    ensures |r| <= |parts|
    ensures forall i :: 0 <= i < |r| ==> Clean(r[i])
  {
    if parts == [] then []
    else (if Trim(parts[0]) == "" then [] else [Trim(parts[0])]) + Tokens(parts[1..])
  }

  /** A character that no piece holds is in no token. */
  lemma {:induction false} TokensAvoid(parts: seq<string>, c: char)
    requires forall k :: 0 <= k < |parts| ==> c !in parts[k]
    ensures forall i :: 0 <= i < |Tokens(parts)| ==> c !in Tokens(parts)[i]
  {
    if parts != [] {
      TokensAvoid(parts[1..], c);
      TrimmedFromSource(parts[0]);
    }
  }

  /** Trimming and filtering piecewise: the tokens of a concatenation are the tokens of its parts. */
  lemma {:induction false} TokensAppend(a: seq<string>, b: seq<string>)
    ensures Tokens(a + b) == Tokens(a) + Tokens(b)
  {
    if a == [] {
      assert a + b == b;
    } else {
      assert (a + b)[1..] == a[1..] + b;
      TokensAppend(a[1..], b);
    }
  }

  /** Empty pieces leave no token. */
  lemma {:induction false} TokensOfEmpties(parts: seq<string>)
    requires forall i :: 0 <= i < |parts| ==> parts[i] == []
    ensures Tokens(parts) == []
  {
    if parts != [] {
      assert AllTrimmed(parts[0]);
      TokensOfEmpties(parts[1..]);
    }
  }

  /** TimetableController.splitCsv: the comma-separated tokens, trimmed, empty ones dropped, in order. */
  function SplitCsv(s: string): (r: seq<string>)
    ensures forall i :: 0 <= i < |r| ==> Clean(r[i]) && ',' !in r[i]
  {
    TokensAvoid(JavaSplit(s, ','), ',');
    Tokens(JavaSplit(s, ','))
  }

  /**
   * String.split drops the trailing empty pieces, but they would be filtered
   * out anyway: splitCsv is the trimmed, non-empty pieces of the full split.
   */
  lemma SplitCsvAllPieces(s: string)
    ensures SplitCsv(s) == Tokens(SplitOn(s, ','))
  {
    if ',' in s {
      var parts := SplitOn(s, ',');
      var kept := DropTrailingEmpty(parts);
      var dropped := parts[|kept|..];
      assert JavaSplit(s, ',') == kept;
      assert parts == kept + dropped;
      assert forall i :: 0 <= i < |dropped| ==> dropped[i] == parts[|kept| + i] == [];
      TokensAppend(kept, dropped);
      TokensOfEmpties(dropped);
      assert Tokens(parts) == Tokens(kept) + [];
    } else {
      SplitOnNoSeparator(s, ',');
    }
  }

  /** Joining comma-free fields with commas and splitting again gives back the fields' tokens. */
  lemma SplitCsvJoin(fields: seq<string>)
    requires |fields| >= 1
    requires forall i :: 0 <= i < |fields| ==> ',' !in fields[i]
    ensures SplitCsv(Join(fields, ',')) == Tokens(fields)
  {
    SplitOnJoin(fields, ',');
    SplitCsvAllPieces(Join(fields, ','));
  }

  /** A list of non-empty, trimmed, comma-free names survives joining with commas and splitCsv. */
  lemma {:induction false} SplitCsvRoundTrip(names: seq<string>)
    requires |names| >= 1
    requires forall i :: 0 <= i < |names| ==> Clean(names[i]) && ',' !in names[i]
    ensures SplitCsv(Join(names, ',')) == names
  {
    SplitCsvJoin(names);
    CleanTokens(names);
  }

  lemma {:induction false} CleanTokens(names: seq<string>)
    requires forall i :: 0 <= i < |names| ==> Clean(names[i])
    ensures Tokens(names) == names
  {
    if names != [] {
      TrimKeeps(names[0]);
      CleanTokens(names[1..]);
    }
  }

  /** TimetableController.splitCsvNullable: empty for a missing or blank parameter, otherwise splitCsv. */
  function SplitCsvNullable(s: Option<string>): (r: seq<string>)
    ensures s.None? ==> r == []
    ensures s.Some? && Trim(s.value) != "" ==> r == SplitCsv(s.value)
  {
    if s.None? || Trim(s.value) == "" then [] else SplitCsv(s.value)
  }

  /** The blank check changes nothing for a given parameter: a blank string has no tokens either. */
  lemma SplitCsvNullableAgrees(s: string)
    ensures SplitCsvNullable(Some(s)) == SplitCsv(s)
  {
    if Trim(s) == "" {
      assert ',' !in s by {
        assert AllTrimmed(s);
      }
      assert JavaSplit(s, ',') == [s];
    }
  }

  // ---------------------------------------------------------------------------
  // parseRecessRanges

  /** Why a recess list is refused: a token that is not two parts around '-', or a part that is not a number. */
  datatype RecessError = BadRange(token: string) | BadNumber(text: string)

  /** One token "a-b": split on '-', exactly two parts, each parsed with Integer.parseInt after trimming. */
  function ParseRange(t: string): Result<(int, int), RecessError> {
    var ab := JavaSplit(Trim(t), '-');
    if |ab| != 2 then Err(BadRange(t))
    else match ParseInt(Trim(ab[0]))
      case None => Err(BadNumber(Trim(ab[0])))
      case Some(a) =>
        match ParseInt(Trim(ab[1]))
        case None => Err(BadNumber(Trim(ab[1])))
        case Some(b) => Ok((a, b))
  }

  /** `f` applied to each element in order: the list of the results, or the error of the first element that fails. */
  function Traverse<A, B, E>(f: A -> Result<B, E>, xs: seq<A>): Result<seq<B>, E> {
    if xs == [] then Ok([])
    else match f(xs[0])
      case Err(e) => Err(e)
      case Ok(y) =>
        match Traverse(f, xs[1..])
        case Err(e) => Err(e)
        case Ok(ys) => Ok([y] + ys)
  }

  /** The list is accepted exactly when every element is, and then holds one result per element, in order. */
  lemma {:induction false} TraverseOk<A, B, E>(f: A -> Result<B, E>, xs: seq<A>)
    ensures Traverse(f, xs).Ok? <==> forall i :: 0 <= i < |xs| ==> f(xs[i]).Ok?
    ensures Traverse(f, xs).Ok? ==> (|Traverse(f, xs).value| == |xs| &&
      forall i :: 0 <= i < |xs| ==> f(xs[i]) == Ok(Traverse(f, xs).value[i]))
  {
    if xs != [] {
      TraverseOk(f, xs[1..]);
      assert forall i :: 0 < i < |xs| ==> xs[1..][i - 1] == xs[i];
    }
  }

  /** A refused list reports the error of its first bad element. */
  lemma {:induction false} TraverseErr<A, B, E>(f: A -> Result<B, E>, xs: seq<A>) returns (i: nat)
    requires Traverse(f, xs).Err?
    ensures i < |xs| && f(xs[i]) == Err(Traverse(f, xs).error)
    ensures forall k :: 0 <= k < i ==> f(xs[k]).Ok?
  {
    if f(xs[0]).Err? {
      i := 0;
    } else {
      var j := TraverseErr(f, xs[1..]);
      i := j + 1;
      assert forall k :: 0 < k <= i ==> xs[1..][k - 1] == xs[k];
    }
  }

  /** Elements that each give the matching result give the list of those results. */
  lemma {:induction false} TraverseAll<A, B, E>(f: A -> Result<B, E>, xs: seq<A>, ys: seq<B>)
    requires |xs| == |ys|
    requires forall i :: 0 <= i < |xs| ==> f(xs[i]) == Ok(ys[i])
    ensures Traverse(f, xs) == Ok(ys)
  {
    if xs != [] {
      assert forall i :: 0 < i < |xs| ==> xs[1..][i - 1] == xs[i] && ys[1..][i - 1] == ys[i];
      TraverseAll(f, xs[1..], ys[1..]);
      assert [ys[0]] + ys[1..] == ys;
    }
  }

  /** The results obtained so far in front of the outcome for the remaining elements. */
  function Prepend<B, E>(done: seq<B>, r: Result<seq<B>, E>): Result<seq<B>, E> {
    match r
    case Err(e) => Err(e)
    case Ok(ys) => Ok(done + ys)
  }

  /** One element more: its result in front of those of the rest, or its error. */
  lemma TraverseStep<A, B, E>(f: A -> Result<B, E>, xs: seq<A>, i: int)
    requires 0 <= i < |xs|
    ensures Traverse(f, xs[i..]) ==
      if f(xs[i]).Err? then Err(f(xs[i]).error) else Prepend([f(xs[i]).value], Traverse(f, xs[i + 1..]))
  {
    assert xs[i..][1..] == xs[i + 1..];
  }

  lemma PrependNothing<B, E>(r: Result<seq<B>, E>)
    ensures Prepend([], r) == r
  {
    if r.Ok? {
      assert [] + r.value == r.value;
    }
  }

  lemma PrependStep<B, E>(done: seq<B>, y: B, rest: Result<seq<B>, E>)
    ensures Prepend(done, Prepend([y], rest)) == Prepend(done + [y], rest)
  {
    if rest.Ok? {
      assert done + ([y] + rest.value) == done + [y] + rest.value;
    }
  }

  /** The tokens in order: the list of their ranges, or the error of the first token that fails. */
  function RangesOf(tokens: seq<string>): Result<seq<(int, int)>, RecessError> {
    Traverse(ParseRange, tokens)
  }

  /** What parseRecessRanges returns: nothing for a missing or blank parameter, else the ranges of its comma tokens. */
  function RecessRanges(ranges: Option<string>): Result<seq<(int, int)>, RecessError> {
    if ranges.None? || Trim(ranges.value) == "" then Ok([])
    else RangesOf(JavaSplit(ranges.value, ','))
  }

  /** TimetableController.parseRecessRanges; the IllegalArgumentException and NumberFormatException become Err. */
  method ParseRecessRanges(ranges: Option<string>) returns (r: Result<seq<(int, int)>, RecessError>)
    ensures r == RecessRanges(ranges)
  {
    if ranges.None? || Trim(ranges.value) == "" {
      return Ok([]);
    }
    var tokens := JavaSplit(ranges.value, ',');
    var res: seq<(int, int)> := [];
    var i := 0;
    PrependNothing(RangesOf(tokens));
    assert tokens[0..] == tokens;
    while i < |tokens|
      invariant 0 <= i <= |tokens|
      invariant Prepend(res, Traverse(ParseRange, tokens[i..])) == RangesOf(tokens)
    {
      TraverseStep(ParseRange, tokens, i);
      var range := ParseRange(tokens[i]);
      if range.Err? {
        return Err(range.error);
      }
      PrependStep(res, range.value, Traverse(ParseRange, tokens[i + 1..]));
      res := res + [range.value];
      i := i + 1;
    }
    assert tokens[i..] == [];
    assert Traverse(ParseRange, tokens[i..]) == Ok([]);
    assert res + [] == res;
    r := Ok(res);
  }

  /** A string of decimal digits is its own trim and holds no '-' or ','. */
  lemma DigitsClean(s: string)
    requires IsDigits(s)
    ensures Trim(s) == s && '-' !in s && ',' !in s
  {
    TrimKeeps(s);
  }

  /** The text "a-b" of a range of non-negative numbers. */
  function RangeText(p: (int, int)): string
    requires 0 <= p.0 && 0 <= p.1
  {
    NatToString(p.0) + "-" + NatToString(p.1)
  }

  predicate PrintableRanges(pairs: seq<(int, int)>) {
    forall i :: 0 <= i < |pairs| ==> 0 <= pairs[i].0 <= IntMax && 0 <= pairs[i].1 <= IntMax
  }

  /** The recess text "a-b,c-d,..." of a list of ranges of non-negative 32-bit numbers. */
  function RangesText(pairs: seq<(int, int)>): string
    requires PrintableRanges(pairs)
  {
    if pairs == [] then "" else Join(RangeTexts(pairs), ',')
  }

  function RangeTexts(pairs: seq<(int, int)>): (r: seq<string>)
    requires PrintableRanges(pairs)
    ensures |r| == |pairs| && forall i :: 0 <= i < |pairs| ==> r[i] == RangeText(pairs[i])
  {
    if pairs == [] then [] else [RangeText(pairs[0])] + RangeTexts(pairs[1..])
  }

  /** One printed range parses back to itself. */
  lemma ParseRangeText(p: (int, int))
    requires 0 <= p.0 <= IntMax && 0 <= p.1 <= IntMax
    ensures ParseRange(RangeText(p)) == Ok(p)
  {
    var a, b := NatToString(p.0), NatToString(p.1);
    var t := RangeText(p);
    DigitsClean(a);
    DigitsClean(b);
    assert t[0] == a[0] && t[|t| - 1] == b[|b| - 1];
    TrimKeeps(t);
    assert t == Join([a, b], '-');
    SplitOnJoin([a, b], '-');
    assert '-' in t by {
      assert t[|a|] == '-';
    }
    ParseIntToString(p.0);
    ParseIntToString(p.1);
  }

  /** The printed ranges are comma-free and start and end with a digit. */
  lemma RangeTextsClean(pairs: seq<(int, int)>)
    requires PrintableRanges(pairs)
    ensures forall i :: 0 <= i < |pairs| ==> ',' !in RangeText(pairs[i]) && RangeText(pairs[i]) != [] && IsDigit(RangeText(pairs[i])[0])
  {
    forall i | 0 <= i < |pairs|
      ensures ',' !in RangeText(pairs[i]) && RangeText(pairs[i]) != [] && IsDigit(RangeText(pairs[i])[0])
    {
      DigitsClean(NatToString(pairs[i].0));
      DigitsClean(NatToString(pairs[i].1));
    }
  }

  /** Printing non-negative ranges as "a-b,c-d,..." and parsing the text back gives the same ranges. */
  lemma RecessRangesRoundTrip(pairs: seq<(int, int)>)
    requires PrintableRanges(pairs)
    ensures RecessRanges(Some(RangesText(pairs))) == Ok(pairs)
  {
    if pairs != [] {
      var parts := RangeTexts(pairs);
      var s := Join(parts, ',');
      RangeTextsClean(pairs);
      JavaSplitJoin(parts, ',');
      JoinStartsWith(parts, ',');
      assert !IsTrimmed(s[0]) by {
        assert s[0] == parts[0][0];
      }
      forall i | 0 <= i < |parts|
        ensures ParseRange(parts[i]) == Ok(pairs[i])
      {
        ParseRangeText(pairs[i]);
      }
      TraverseAll(ParseRange, parts, pairs);
    }
  }

  // ---------------------------------------------------------------------------
  // getOrCreate and parsePlanCsv

  /** The plan entry of (division, subject), if the nested map has one. */
  function Lookup(plan: Plan, division: string, subject: string): (r: Option<SubjectPlan>)
    ensures r.Some? ==> r.value.subject == subject
  {
    var subs := PlanFor(plan, division);
    FindSubject(subs, subject)
  }

  function FindSubject(subs: seq<SubjectPlan>, subject: string): (r: Option<SubjectPlan>)
    ensures r.Some? ==> r.value.subject == subject && r.value in subs
    ensures r.None? ==> forall k :: 0 <= k < |subs| ==> subs[k].subject != subject
  {
    if subs == [] then None
    else if subs[0].subject == subject then Some(subs[0])
    else FindSubject(subs[1..], subject)
  }

  /**
   * `new SubjectPlan()` for a subject: its fields are null and 0 in the source
   * and are all overwritten before anything reads them.
   */
  function FreshPlan(subject: string): SubjectPlan {
    SubjectPlan(subject, 0, 0, "", "")
  }

  /** The division keys of the plan in enumeration order. */
  function Divisions(plan: Plan): (r: seq<string>)
    ensures |r| == |plan| && forall i :: 0 <= i < |plan| ==> r[i] == plan[i].division
  {
    if plan == [] then [] else [plan[0].division] + Divisions(plan[1..])
  }

  /** Sets the subject list of the first entry for `division`, appending an entry when there is none. */
  function UpdateDivision(plan: Plan, division: string, subs: seq<SubjectPlan>): Plan {
    if plan == [] then [DivisionPlan(division, subs)]
    else if plan[0].division == division then [DivisionPlan(division, subs)] + plan[1..]
    else [plan[0]] + UpdateDivision(plan[1..], division, subs)
  }

  /** After the update the division reads the new list and every other division reads as before. */
  lemma {:induction false} UpdateDivisionReads(plan: Plan, division: string, subs: seq<SubjectPlan>, d: string)
    ensures PlanFor(UpdateDivision(plan, division, subs), d) == if d == division then subs else PlanFor(plan, d)
  {
    if plan != [] && plan[0].division != division {
      UpdateDivisionReads(plan[1..], division, subs, d);
      assert UpdateDivision(plan, division, subs)[1..] == UpdateDivision(plan[1..], division, subs);
    }
  }

  lemma UpdateDivisionReadsAll(plan: Plan, division: string, subs: seq<SubjectPlan>)
    ensures forall d :: PlanFor(UpdateDivision(plan, division, subs), d) == if d == division then subs else PlanFor(plan, d)
  {
    forall d
      ensures PlanFor(UpdateDivision(plan, division, subs), d) == if d == division then subs else PlanFor(plan, d)
    {
      UpdateDivisionReads(plan, division, subs, d);
    }
  }

  /** The division keys stay in place; a new division goes to the end. */
  lemma {:induction false} UpdateDivisionKeys(plan: Plan, division: string, subs: seq<SubjectPlan>)
    ensures Divisions(UpdateDivision(plan, division, subs)) ==
      if division in Divisions(plan) then Divisions(plan) else Divisions(plan) + [division]
  {
    if plan != [] {
      if plan[0].division != division {
        UpdateDivisionKeys(plan[1..], division, subs);
        assert Divisions(plan) == [plan[0].division] + Divisions(plan[1..]);
        assert UpdateDivision(plan, division, subs)[1..] == UpdateDivision(plan[1..], division, subs);
      } else {
        assert UpdateDivision(plan, division, subs)[1..] == plan[1..];
      }
    }
  }

  /** Replaces the entry named sp.subject in a subject list, or appends sp when there is none. */
  function PutSubject(subs: seq<SubjectPlan>, sp: SubjectPlan): seq<SubjectPlan> {
    if subs == [] then [sp]
    else if subs[0].subject == sp.subject then [sp] + subs[1..]
    else [subs[0]] + PutSubject(subs[1..], sp)
  }

  /** Afterwards sp is found under its subject, and every other subject finds what it found before. */
  lemma {:induction false} PutSubjectFinds(subs: seq<SubjectPlan>, sp: SubjectPlan)
    ensures FindSubject(PutSubject(subs, sp), sp.subject) == Some(sp)
    ensures forall s :: s != sp.subject ==> FindSubject(PutSubject(subs, sp), s) == FindSubject(subs, s)
  {
    if subs != [] && subs[0].subject != sp.subject {
      var r := PutSubject(subs, sp);
      assert r[1..] == PutSubject(subs[1..], sp);
      PutSubjectFinds(subs[1..], sp);
    }
  }

  /** The subject order is kept; a new subject goes to the end. */
  lemma {:induction false} PutSubjectKeys(subs: seq<SubjectPlan>, sp: SubjectPlan)
    ensures FindSubject(subs, sp.subject).Some? ==> SubjectKeys(PutSubject(subs, sp)) == SubjectKeys(subs)
    ensures FindSubject(subs, sp.subject).None? ==> SubjectKeys(PutSubject(subs, sp)) == SubjectKeys(subs) + [sp.subject]
  {
    if subs != [] && subs[0].subject != sp.subject {
      var r := PutSubject(subs, sp);
      assert r[1..] == PutSubject(subs[1..], sp);
      PutSubjectKeys(subs[1..], sp);
    }
  }

  /**
   * TimetableController.getOrCreate: `computeIfAbsent` on the division, then
   * on the subject. Afterwards the entry exists; an existing entry is kept as
   * it is, and no other entry changes.
   */
  function GetOrCreate(plan: Plan, division: string, subject: string): (r: Plan)
    ensures Lookup(r, division, subject).Some?
    ensures Lookup(plan, division, subject).Some? ==> Lookup(r, division, subject) == Lookup(plan, division, subject)
    ensures Lookup(plan, division, subject).None? ==> Lookup(r, division, subject) == Some(FreshPlan(subject))
    ensures forall d, s :: d != division || s != subject ==> Lookup(r, d, s) == Lookup(plan, d, s)
  {
    var subs := PlanFor(plan, division);
    match FindSubject(subs, subject)
    case Some(_) => plan
    case None =>
      PutSubjectFinds(subs, FreshPlan(subject));
      UpdateDivisionReadsAll(plan, division, PutSubject(subs, FreshPlan(subject)));
      UpdateDivision(plan, division, PutSubject(subs, FreshPlan(subject)))
  }

  /** The field assignments `sp.subject = ...; ...` on the entry getOrCreate returned. */
  function Assign(plan: Plan, division: string, sp: SubjectPlan): (r: Plan)
    ensures Lookup(r, division, sp.subject) == Some(sp)
    ensures forall d, s :: d != division || s != sp.subject ==> Lookup(r, d, s) == Lookup(plan, d, s)
  {
    PutSubjectFinds(PlanFor(plan, division), sp);
    UpdateDivisionReadsAll(plan, division, PutSubject(PlanFor(plan, division), sp));
    UpdateDivision(plan, division, PutSubject(PlanFor(plan, division), sp))
  }

  /** The entry a row writes: counts clamped at 0, lecture faculty defaulting to "Faculty-" + subject, lab faculty to the lecture faculty. */
  function RowPlan(subject: string, lec: int, lab: int, lecFac: string, labFac: string): (sp: SubjectPlan)
    ensures sp.subject == subject && sp.lecturesPerWeek >= 0 && sp.labsPerWeek >= 0
    ensures sp.lecturesPerWeek == (if lec < 0 then 0 else lec) && sp.labsPerWeek == (if lab < 0 then 0 else lab)
    ensures sp.lectureFaculty == (if lecFac == "" then "Faculty-" + subject else lecFac)
    ensures sp.labFaculty == (if labFac == "" then sp.lectureFaculty else labFac)
    ensures sp.lectureFaculty != "" && sp.labFaculty != ""
  {
    var lectureFaculty := if lecFac == "" then "Faculty-" + subject else lecFac;
    SubjectPlan(subject, Ledger.Max(0, lec), Ledger.Max(0, lab), lectureFaculty, if labFac == "" then lectureFaculty else labFac)
  }

  /**
   * One row already split into columns: fewer than six columns are ignored;
   * otherwise the two counts must parse (else NumberFormatException, here Err
   * with the text) and the entry of (division, subject) is created or overwritten.
   */
  function ApplyColumns(plan: Plan, cols: seq<string>): (r: Result<Plan, string>)
    ensures |cols| < 6 ==> r == Ok(plan)
    ensures r.Err? <==> |cols| >= 6 && (ParseInt(Trim(cols[2])).None? || ParseInt(Trim(cols[3])).None?)
    ensures r.Ok? && |cols| >= 6 ==>
              (Lookup(r.value, Trim(cols[0]), Trim(cols[1])) ==
               Some(RowPlan(Trim(cols[1]), ParseInt(Trim(cols[2])).value, ParseInt(Trim(cols[3])).value, Trim(cols[4]), Trim(cols[5]))))
    ensures r.Ok? && |cols| >= 6 ==> forall d, s :: d != Trim(cols[0]) || s != Trim(cols[1]) ==> Lookup(r.value, d, s) == Lookup(plan, d, s)
  {
    if |cols| < 6 then Ok(plan)
    else
      var division := Trim(cols[0]);
      var subject := Trim(cols[1]);
      match ParseInt(Trim(cols[2]))
      case None => Err(Trim(cols[2]))
      case Some(lec) =>
        match ParseInt(Trim(cols[3]))
        case None => Err(Trim(cols[3]))
        case Some(lab) =>
          var sp := RowPlan(subject, lec, lab, Trim(cols[4]), Trim(cols[5]));
          Ok(Assign(GetOrCreate(plan, division, subject), division, sp))
  }

  /** A blank line or a comment line starting with '#'. */
  predicate Skipped(line: string) {
    line == [] || line[0] == '#'
  }

  /** The columns of a trimmed row: `line.split(",")`, which drops trailing empty columns. */
  function PlanColumns(line: string): seq<string> {
    JavaSplit(line, ',')
  }

  /** One raw line of the CSV, as the source handles it. */
  function ApplyLine(plan: Plan, raw: string): Result<Plan, string> {
    var line := Trim(raw);
    if Skipped(line) then Ok(plan) else ApplyColumns(plan, PlanColumns(line))
  }

  /** The lines in order, each on the plan the previous ones built; the first error stops the parse. */
  function ApplyLines(plan: Plan, lines: seq<string>): Result<Plan, string>
    decreases |lines|
  {
    if lines == [] then Ok(plan)
    else match ApplyLine(plan, lines[0])
      case Err(e) => Err(e)
      case Ok(p) => ApplyLines(p, lines[1..])
  }

  /** A blank or comment line leaves the plan as it is. */
  lemma SkippedLineKeeps(plan: Plan, raw: string)
    requires Skipped(Trim(raw))
    ensures ApplyLine(plan, raw) == Ok(plan)
  {
  }

  /** Applying `a + b` applies `a`, then, unless that failed, `b` to its result. */
  lemma {:induction false} ApplyLinesAppend(plan: Plan, a: seq<string>, b: seq<string>)
    ensures ApplyLines(plan, a + b) == match ApplyLines(plan, a) case Err(e) => Err(e) case Ok(p) => ApplyLines(p, b)
    decreases |a|
  {
    if a == [] {
      assert a + b == b;
    } else {
      assert (a + b)[0] == a[0] && (a + b)[1..] == a[1..] + b;
      match ApplyLine(plan, a[0])
      case Err(_) =>
      case Ok(p) =>
        assert ApplyLines(plan, a) == ApplyLines(p, a[1..]);
        ApplyLinesAppend(p, a[1..], b);
    }
  }

  /** The first line that fails ends the parse with its error; the lines after it are never read. */
  lemma FirstErrorStops(plan: Plan, a: seq<string>, line: string, b: seq<string>)
    requires ApplyLines(plan, a).Ok? && ApplyLine(ApplyLines(plan, a).value, line).Err?
    ensures ApplyLines(plan, a + [line] + b) == ApplyLine(ApplyLines(plan, a).value, line)
  {
    ApplyLinesAppend(plan, a, [line] + b);
    assert a + [line] + b == a + ([line] + b);
    assert ([line] + b)[0] == line;
  }

  /** A blank or comment line anywhere in the text can be removed without changing the result. */
  lemma SkippedLineIgnored(plan: Plan, a: seq<string>, raw: string, b: seq<string>)
    requires Skipped(Trim(raw))
    ensures ApplyLines(plan, a + [raw] + b) == ApplyLines(plan, a + b)
  {
    ApplyLinesAppend(plan, a, [raw] + b);
    ApplyLinesAppend(plan, a, b);
    assert a + [raw] + b == a + ([raw] + b);
    assert ([raw] + b)[0] == raw && ([raw] + b)[1..] == b;
  }

  /**
   * What parsePlanCsv returns: an empty plan for a missing or blank text,
   * otherwise the plan its lines build from an empty map. The source splits
   * on "\r?\n"; splitting on '\n' leaves a '\r' at the end of a piece, which
   * the trim of each line removes, and a piece that is only "\r" trims to a
   * skipped blank line, so the rows seen are the same.
   */
  function PlanCsv(csv: Option<string>): Result<Plan, string> {
    if csv.None? || Trim(csv.value) == "" then Ok([])
    else ApplyLines([], JavaSplit(csv.value, '\n'))
  }

  /** TimetableController.parsePlanCsv, over the lines of the text in order. */
  method ParsePlanCsv(csv: Option<string>) returns (r: Result<Plan, string>)
    ensures r == PlanCsv(csv)
  {
    var out: Plan := [];
    if csv.None? || Trim(csv.value) == "" {
      return Ok(out);
    }
    var lines := JavaSplit(csv.value, '\n');
    ghost var goal := ApplyLines(out, lines);
    assert lines[0..] == lines;
    var i := 0;
    while i < |lines|
      invariant 0 <= i <= |lines|
      invariant ApplyLines(out, lines[i..]) == goal
    {
      assert lines[i..][1..] == lines[i + 1..];
      var line := Trim(lines[i]);
      if !Skipped(line) {
        var cols := PlanColumns(line);
        if |cols| >= 6 {
          var division := Trim(cols[0]);
          var subject := Trim(cols[1]);
          var lec := ParseInt(Trim(cols[2]));
          if lec.None? {
            return Err(Trim(cols[2]));
          }
          var lab := ParseInt(Trim(cols[3]));
          if lab.None? {
            return Err(Trim(cols[3]));
          }
          out := GetOrCreate(out, division, subject);
          var sp := RowPlan(subject, lec.value, lab.value, Trim(cols[4]), Trim(cols[5]));
          out := Assign(out, division, sp);
        }
      }
      i := i + 1;
    }
    r := Ok(out);
  }

  // ---------------------------------------------------------------------------
  // A row whose lab faculty is left blank at the end of the line

  /**
   * A trimmed plan row of six comma-free fields whose last field, the lab
   * faculty, is empty: "A,X,3,1,F," is one.
   */
  predicate BlankLabFacultyRow(fields: seq<string>) {
    |fields| == 6 && fields[5] == [] &&
    (forall i :: 0 <= i < 6 ==> ',' !in fields[i]) &&
    fields[0] != [] && !IsTrimmed(fields[0][0]) && fields[0][0] != '#'
  }

  /** The row is neither blank nor a comment, and trimming leaves it as it is. */
  lemma BlankLabFacultyRowKept(fields: seq<string>)
    requires BlankLabFacultyRow(fields)
    ensures Trim(Join(fields, ',')) == Join(fields, ',') && !Skipped(Join(fields, ','))
    ensures SplitOn(Join(fields, ','), ',') == fields
  {
    var line := Join(fields, ',');
    JoinStartsWith(fields, ',');
    JoinEndsWithSeparator(fields, ',');
    TrimKeeps(line);
    SplitOnJoin(fields, ',');
  }

  /** A join whose last piece is empty ends with the separator. */
  lemma {:induction false} JoinEndsWithSeparator(parts: seq<string>, c: char)
    requires |parts| >= 2 && parts[|parts| - 1] == []
    ensures |Join(parts, c)| >= 1 && Join(parts, c)[|Join(parts, c)| - 1] == c
  {
    if |parts| > 2 {
      JoinEndsWithSeparator(parts[1..], c);
    }
  }

  /**
   * As written: `line.split(",")` drops the empty last field, the row then has
   * at most five columns, and parsePlanCsv ignores it, so the lab-faculty
   * default on the next line of the source never applies to it.
   */
  lemma BlankLabFacultyRowIgnored(plan: Plan, fields: seq<string>)
    requires BlankLabFacultyRow(fields)
    ensures |PlanColumns(Join(fields, ','))| <= 5
    ensures ApplyLine(plan, Join(fields, ',')) == Ok(plan)
  {
    BlankLabFacultyRowKept(fields);
    assert ',' in Join(fields, ',') by {
      assert |fields| != 1;
    }
  }

  /** The columns with the empty trailing ones kept: `line.split(",", -1)`. */
  function PlanColumnsAll(line: string): (cols: seq<string>)
    ensures |cols| >= 1
  {
    SplitOn(line, ',')
  }

  /** One raw line, with every column kept. */
  function ApplyLineAll(plan: Plan, raw: string): Result<Plan, string> {
    var line := Trim(raw);
    if Skipped(line) then Ok(plan) else ApplyColumns(plan, PlanColumnsAll(line))
  }

  /**
   * With every column kept, the same row is read: its entry gets the lab
   * faculty of the lecture faculty, as the defaulting in the source intends.
   */
  lemma BlankLabFacultyDefaults(plan: Plan, fields: seq<string>, lec: int, lab: int)
    requires BlankLabFacultyRow(fields)
    requires ParseInt(Trim(fields[2])) == Some(lec) && ParseInt(Trim(fields[3])) == Some(lab)
    ensures ApplyLineAll(plan, Join(fields, ',')).Ok?
    ensures Lookup(ApplyLineAll(plan, Join(fields, ',')).value, Trim(fields[0]), Trim(fields[1])) ==
      Some(RowPlan(Trim(fields[1]), lec, lab, Trim(fields[4]), ""))
    ensures Lookup(ApplyLineAll(plan, Join(fields, ',')).value, Trim(fields[0]), Trim(fields[1])).value.labFaculty ==
      Lookup(ApplyLineAll(plan, Join(fields, ',')).value, Trim(fields[0]), Trim(fields[1])).value.lectureFaculty
  {
    BlankLabFacultyRowKept(fields);
    assert Trim(fields[5]) == "";
  }
}
