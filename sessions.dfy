/**
 * The value types of TimetableService: the cell content the source calls
 * `Lecture` (subject, faculty, session type) and the per-division `SubjectPlan`.
 */
module Sessions {
  import opened Wrappers

  /** The session type, which the source keeps as the free text "Lecture", "Lab" or "RECESS". */
  datatype Kind = Lecture | Lab | Recess

  /** The text the source stores for each kind. */
  function TypeName(k: Kind): (r: string)
    ensures |r| >= 3
  {
    match k
    case Lecture => "Lecture"
    case Lab => "Lab"
    case Recess => "RECESS"
  }

  /** TimetableService.Lecture: a cell's content; subject and faculty are null for a recess. */
  datatype Session = Session(subject: Option<string>, faculty: Option<string>, kind: Kind)

  /** `new Lecture(null, null, "RECESS")`. */
  const RecessSession: Session := Session(None, None, Recess)

  /** `new Lecture(subject, faculty, "Lecture")` or `"Lab"`. */
  function Taught(subject: string, faculty: string, kind: Kind): Session
    requires kind != Recess
  {
    Session(Some(subject), Some(faculty), kind)
  }

  /** A cell the engine can write: a recess, or a lecture or lab with a subject and a faculty. */
  predicate WellFormed(x: Session) {
    x == RecessSession || (x.kind != Recess && x.subject.Some? && x.faculty.Some?)
  }

  /** Lecture.toString's rendering of a subject or faculty: "---" when null or empty. */
  function Shown(x: Option<string>): (r: string)
    ensures r != []
    ensures x.Some? && x.value != "" ==> r == x.value
    ensures x.None? || x.value == "" ==> r == "---"
  {
    if x.Some? && x.value != "" then x.value else "---"
  }

  /**
   * Lecture.toString(): "[RECESS]" for a recess, otherwise
   * "<faculty> (<subject>) - <type>".
   */
  function SessionToString(x: Session): (r: string)
    ensures r == "[RECESS]" <==> x.kind == Recess
    ensures x.kind != Recess ==> r == Shown(x.faculty) + " (" + Shown(x.subject) + ") - " + TypeName(x.kind)
    ensures x.kind != Recess ==> Shown(x.faculty) <= r
    ensures x.kind != Recess ==> |r| >= 11 && r[|r| - |TypeName(x.kind)| - 3..] == " - " + TypeName(x.kind)
  {
    if x.kind == Recess then "[RECESS]"
    else
      var r := Shown(x.faculty) + " (" + Shown(x.subject) + ")" + " - " + TypeName(x.kind);
      assert r == (Shown(x.faculty) + " (" + Shown(x.subject) + ")") + (" - " + TypeName(x.kind));
      r
  }

  /** TimetableService.SubjectPlan: one subject's weekly requirement in one division. */
  datatype SubjectPlan = SubjectPlan(
    subject: string,
    lecturesPerWeek: int,
    labsPerWeek: int,
    lectureFaculty: string,
    labFaculty: string)

  /** One division's entry of the plan map; the sequence order is the map's enumeration order. */
  datatype DivisionPlan = DivisionPlan(division: string, subjects: seq<SubjectPlan>)

  /** division -> subject -> SubjectPlan, as an association list in enumeration order. */
  type Plan = seq<DivisionPlan>

  /** `planByDivision.getOrDefault(division, Collections.emptyMap()).values()`. */
  function PlanFor(plan: Plan, division: string): (r: seq<SubjectPlan>)
    ensures r != [] ==> exists i :: 0 <= i < |plan| && plan[i] == DivisionPlan(division, r)
    ensures (forall i :: 0 <= i < |plan| ==> plan[i].division != division) ==> r == []
  {
    if plan == [] then []
    else if plan[0].division == division then plan[0].subjects
    else PlanFor(plan[1..], division)
  }

  /** TimetableService.facultiesOf: the non-empty lecture and lab faculties, without repeats. */
  function FacultiesOf(sp: SubjectPlan): (r: seq<string>)
    ensures forall f :: f in r <==> f != "" && (f == sp.lectureFaculty || f == sp.labFaculty)
    ensures |r| <= 2 && (|r| == 2 ==> r[0] != r[1])
    ensures sp.lectureFaculty != "" ==> |r| >= 1 && r[0] == sp.lectureFaculty
  {
    var a := if sp.lectureFaculty != "" then [sp.lectureFaculty] else [];
    if sp.labFaculty != "" && sp.labFaculty !in a then a + [sp.labFaculty] else a
  }

  /** The faculty a plan-mode lab is given: the lab faculty, or the lecture faculty when it is empty. */
  function LabFacultyOf(sp: SubjectPlan): (r: string)
    ensures r == sp.labFaculty || r == sp.lectureFaculty
    ensures r == "" <==> sp.labFaculty == "" && sp.lectureFaculty == ""
    ensures r != "" ==> r in FacultiesOf(sp)
  {
    if sp.labFaculty != "" then sp.labFaculty else sp.lectureFaculty
  }

  // ---------------------------------------------------------------------------
  // Subject lists

  predicate Distinct(s: seq<string>) {
    forall i, j :: 0 <= i < j < |s| ==> s[i] != s[j]
  }

  /** LinkedHashSet.addAll: appends, in order, each element of `xs` that is not yet present. */
  function AddAll(acc: seq<string>, xs: seq<string>): (r: seq<string>)
    ensures Distinct(acc) ==> Distinct(r)
    ensures forall x :: x in r <==> x in acc || x in xs
    ensures acc <= r
    decreases |xs|
  {
    if xs == [] then acc
    else AddAll(if xs[0] in acc then acc else acc + [xs[0]], xs[1..])
  }

  /** Adding elements already present changes nothing. */
  lemma {:induction false} AddAllPresent(acc: seq<string>, xs: seq<string>)
    requires forall x :: x in xs ==> x in acc
    ensures AddAll(acc, xs) == acc
    decreases |xs|
  {
    if xs != [] {
      AddAllPresent(acc, xs[1..]);
    }
  }

  /** A list without repeats is kept as it is: its LinkedHashSet has the list's own order. */
  lemma {:induction false} AddAllDistinct(acc: seq<string>, xs: seq<string>)
    requires Distinct(acc + xs)
    ensures AddAll(acc, xs) == acc + xs
    decreases |xs|
  {
    if xs != [] {
      forall m | 0 <= m < |acc|
        ensures acc[m] != xs[0]
      {
        assert (acc + xs)[m] == acc[m] && (acc + xs)[|acc|] == xs[0];
      }
      assert acc + [xs[0]] + xs[1..] == acc + xs;
      AddAllDistinct(acc + [xs[0]], xs[1..]);
    }
  }

  /** The key set of one division's plan, in enumeration order. */
  function SubjectKeys(subs: seq<SubjectPlan>): (r: seq<string>)
    ensures |r| == |subs|
    ensures forall k :: 0 <= k < |subs| ==> r[k] == subs[k].subject
  {
    if subs == [] then [] else [subs[0].subject] + SubjectKeys(subs[1..])
  }

  /** The subject names of a plan: every division's keys, merged into one LinkedHashSet, on top of `acc`. */
  function PlanSubjectNames(acc: seq<string>, plan: Plan): (r: seq<string>)
    ensures Distinct(acc) ==> Distinct(r)
    ensures forall x :: x in r <==> x in acc || exists i, k :: 0 <= i < |plan| && 0 <= k < |plan[i].subjects| && plan[i].subjects[k].subject == x
    decreases |plan|
  {
    if plan == [] then acc
    else
      PlanKeysSplit(plan);
      PlanSubjectNames(AddAll(acc, SubjectKeys(plan[0].subjects)), plan[1..])
  }

  /** A subject named in a non-empty plan is named by its first division or by one of the rest. */
  lemma PlanKeysSplit(plan: Plan)
    requires plan != []
    ensures forall x :: (exists i, k :: 0 <= i < |plan| && 0 <= k < |plan[i].subjects| && plan[i].subjects[k].subject == x) <==>
      x in SubjectKeys(plan[0].subjects) || exists i, k :: 0 <= i < |plan[1..]| && 0 <= k < |plan[1..][i].subjects| && plan[1..][i].subjects[k].subject == x
  {
    forall x | exists i, k :: 0 <= i < |plan| && 0 <= k < |plan[i].subjects| && plan[i].subjects[k].subject == x
      ensures x in SubjectKeys(plan[0].subjects) || exists i, k :: 0 <= i < |plan[1..]| && 0 <= k < |plan[1..][i].subjects| && plan[1..][i].subjects[k].subject == x
    {
      var i, k :| 0 <= i < |plan| && 0 <= k < |plan[i].subjects| && plan[i].subjects[k].subject == x;
      if i == 0 {
        assert SubjectKeys(plan[0].subjects)[k] == x;
      } else {
        assert plan[1..][i - 1] == plan[i];
      }
    }
  }
}
