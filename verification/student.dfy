/** A student record: identity fields fixed at creation, the enrolled subject
    codes in a linked list, the scores per subject, the stack of grade entries
    that `undo_last_grade` unwinds, and the attendance log. Every operation that
    the source lets raise `ValueError` returns `Fail` with the reason instead. */
module Students {
  import opened Wrappers
  import opened Text
  import opened Seqs
  import LinkedList
  import Containers

  datatype Error =
    | YearOutOfRange
    | AlreadyEnrolled(code: string)
    | SubjectNotFound(code: string)
    | NotEnrolled(code: string)
    | ScoreOutOfRange
    | NoGradesToUndo

  datatype AttendanceRecord = AttendanceRecord(date: string, subject: string, present: bool)

  /** The invariant `enroll_subject` keeps: subject codes are in normal form and
      none is enrolled twice. */
  ghost predicate WellFormedSubjects(codes: seq<string>) {
    && Distinct(codes)
    && forall c :: c in codes ==> IsNormalCode(c)
  }

  class Student {
    const id: string
    const name: string
    const department: string
    const gender: string
    const year: int
    const subjects: LinkedList.SinglyLinkedList<string>
    var grades: map<string, seq<real>>
    const history: Containers.Stack<(string, real)>
    var attendanceLog: seq<AttendanceRecord>
    ghost var Repr: set<object>

    ghost predicate Valid()
      reads this, Repr
    {
      && this in Repr
      && subjects in Repr && subjects.Repr <= Repr && this !in subjects.Repr
      && history in Repr && history !in subjects.Repr
      && subjects.Valid()
      && WellFormedSubjects(subjects.Contents)
      && 1 <= year <= 4
    }

    /** The enrolled codes, in enrolment order. */
    ghost function Subjects(): seq<string>
      reads this, subjects
    {
      subjects.Contents
    }

    constructor (id: string, name: string, department: string, gender: string, year: int)
      requires 1 <= year <= 4
      ensures Valid() && fresh(Repr)
      ensures this.id == id && this.name == name && this.department == department
      ensures this.gender == gender && this.year == year
      ensures Subjects() == [] && grades == map[] && history.data == [] && attendanceLog == []
    {
      this.id := id;
      this.name := name;
      this.department := department;
      this.gender := gender;
      this.year := year;
      var list := new LinkedList.SinglyLinkedList<string>([]);
      subjects := list;
      grades := map[];
      history := new Containers.Stack<(string, real)>();
      attendanceLog := [];
      Repr := {this} + list.Repr + {history};
    }

    /** `Student(...)`: `__post_init__` rejects a year outside 1..4. */
    static method Create(id: string, name: string, department: string, gender: string, year: int)
      returns (r: Result<Student, Error>)
      ensures !(1 <= year <= 4) <==> r == Err(YearOutOfRange)
      ensures r.Ok? ==> && fresh(r.value) && r.value.Valid() && fresh(r.value.Repr)
                        && r.value.id == id && r.value.name == name && r.value.year == year
                        && r.value.department == department && r.value.gender == gender
                        && r.value.Subjects() == [] && r.value.grades == map[]
                        && r.value.history.data == [] && r.value.attendanceLog == []
    {
      if year < 1 || year > 4 {
        return Err(YearOutOfRange);
      }
      var s := new Student(id, name, department, gender, year);
      return Ok(s);
    }

    /** `code in self.subjects` for an already normalised code. */
    method IsEnrolled(c: string) returns (b: bool)
      requires Valid()
      ensures b <==> c in Subjects()
    {
      b := subjects.Contains(c);
    }

    /** `enroll_subject`: normalises the code and appends it unless it is
        already enrolled. */
    method EnrollSubject(code: string) returns (r: Outcome<Error>)
      requires Valid()
      modifies Repr
      ensures Valid() && fresh(Repr - old(Repr))
      ensures var c := NormalizeCode(code);
        if c in old(Subjects()) then r == Fail(AlreadyEnrolled(c)) && Subjects() == old(Subjects())
        else r == Pass && Subjects() == old(Subjects()) + [c]
      ensures grades == old(grades) && history.data == old(history.data) && attendanceLog == old(attendanceLog)
    {
      var c := NormalizeCode(code);
      var present := subjects.Contains(c);
      if present {
        return Fail(AlreadyEnrolled(c));
      }
      NormalizeShape(code);
      subjects.Append(c);
      Repr := Repr + subjects.Repr;
      r := Pass;
    }

    /** `drop_subject`: normalises the code and removes it; a code that is not
        enrolled is an error. */
    method DropSubject(code: string) returns (r: Outcome<Error>)
      requires Valid()
      modifies Repr
      ensures Valid() && Repr == old(Repr)
      ensures var c := NormalizeCode(code);
        && (r == if c in old(Subjects()) then Pass else Fail(SubjectNotFound(c)))
        && Subjects() == RemoveFirst(old(Subjects()), c)
        && c !in Subjects()
      ensures grades == old(grades) && history.data == old(history.data) && attendanceLog == old(attendanceLog)
    {
      var c := NormalizeCode(code);
      ghost var before := Subjects();
      var found := subjects.Remove(c);
      RemoveKeepsWellFormed(before, c);
      r := if found then Pass else Fail(SubjectNotFound(c));
    }

    /** `add_grade`: the subject must be enrolled and the score within 0..100;
        the score is appended to that subject's list and the pair is pushed on
        the history. */
    method AddGrade(subject: string, score: real) returns (r: Outcome<Error>)
      requires Valid()
      modifies this, history
      ensures Valid() && Subjects() == old(Subjects()) && attendanceLog == old(attendanceLog)
      ensures var c := NormalizeCode(subject);
        if c !in Subjects() then r == Fail(NotEnrolled(c)) && grades == old(grades) && history.data == old(history.data)
        else if !(0.0 <= score <= 100.0) then r == Fail(ScoreOutOfRange) && grades == old(grades) && history.data == old(history.data)
        else && r == Pass
             && grades == old(grades)[c := ScoresOf(old(grades), c) + [score]]
             && history.data == old(history.data) + [(c, score)]
    {
      var c := NormalizeCode(subject);
      var enrolled := subjects.Contains(c);
      if !enrolled {
        return Fail(NotEnrolled(c));
      }
      if !(0.0 <= score <= 100.0) {
        return Fail(ScoreOutOfRange);
      }
      grades := grades[c := ScoresOf(grades, c) + [score]];
      history.Push((c, score));
      r := Pass;
    }

    /** `undo_last_grade`: pops the last history entry and drops the last score
        of its subject only when that score is the popped one; otherwise the
        scores are left as they are. */
    method UndoLastGrade() returns (r: Outcome<Error>)
      requires Valid()
      modifies this, history
      ensures Valid() && Subjects() == old(Subjects()) && attendanceLog == old(attendanceLog)
      ensures old(history.data) == [] ==> r == Fail(NoGradesToUndo) && grades == old(grades) && history.data == []
      ensures old(history.data) != [] ==>
        && r == Pass
        && history.data == old(history.data)[..|old(history.data)| - 1]
        && grades == Undone(old(grades), old(history.data)[|old(history.data)| - 1])
    {
      var top := history.Pop();
      if top.None? {
        return Fail(NoGradesToUndo);
      }
      grades := Undone(grades, top.value);
      r := Pass;
    }

    /** `record_attendance`: the subject must be enrolled; the record is
        appended to the log under the normalised code. */
    method RecordAttendance(date: string, subject: string, present: bool) returns (r: Outcome<Error>)
      requires Valid()
      modifies this
      ensures Valid() && Repr == old(Repr)
      ensures Subjects() == old(Subjects()) && grades == old(grades)
      ensures var c := NormalizeCode(subject);
        if c in Subjects() then r == Pass && attendanceLog == old(attendanceLog) + [AttendanceRecord(date, c, present)]
        else r == Fail(NotEnrolled(c)) && attendanceLog == old(attendanceLog)
    {
      var c := NormalizeCode(subject);
      var enrolled := subjects.Contains(c);
      if !enrolled {
        return Fail(NotEnrolled(c));
      }
      attendanceLog := attendanceLog + [AttendanceRecord(date, c, present)];
      r := Pass;
    }

    /** Removing a code keeps the subject list well formed and leaves no copy of it. */
    static lemma RemoveKeepsWellFormed(codes: seq<string>, c: string)
      requires WellFormedSubjects(codes)
      ensures WellFormedSubjects(RemoveFirst(codes, c)) && c !in RemoveFirst(codes, c)
    {
      RemoveFirstDistinct(codes, c);
      var r := RemoveFirst(codes, c);
      forall y | y in r ensures IsNormalCode(y) {
        assert y in multiset(r);
      }
    }
  }

  /** `grades.get(subject, [])`. */
  function ScoresOf(grades: map<string, seq<real>>, subject: string): seq<real> {
    if subject in grades then grades[subject] else []
  }

  /** The effect of undoing the history entry `(subject, score)` on the scores. */
  function Undone(grades: map<string, seq<real>>, entry: (string, real)): (g: map<string, seq<real>>)
    ensures g.Keys == grades.Keys
    ensures forall s :: s in g && s != entry.0 ==> g[s] == grades[s]
  {
    var lst := ScoresOf(grades, entry.0);
    if |lst| > 0 && lst[|lst| - 1] == entry.1 then grades[entry.0 := lst[..|lst| - 1]] else grades
  }

  /** `add_grade` followed by `undo_last_grade` gives back the scores it started
      from, except that a subject with no scores before now has an empty list. */
  lemma UndoAfterAdd(grades: map<string, seq<real>>, c: string, score: real)
    ensures Undone(grades[c := ScoresOf(grades, c) + [score]], (c, score)) == grades[c := ScoresOf(grades, c)]
  {
    var before := ScoresOf(grades, c);
    var g := grades[c := before + [score]];
    var lst := ScoresOf(g, c);
    assert lst == before + [score];
    assert lst[..|lst| - 1] == before;
    assert Undone(g, (c, score)) == g[c := before];
    assert g[c := before] == grades[c := before];
  }

  /** Attendance counts for `attendance_rate`: the records considered (all of
      them, or those whose subject is `subject.upper()`) and how many of those
      are marked present. */
  function AttendanceCounts(log: seq<AttendanceRecord>, subject: Option<string>): (c: (nat, nat))
    ensures c.0 <= c.1 <= |log|
  {
    if log == [] then (0, 0)
    else
      var rest := AttendanceCounts(log[..|log| - 1], subject);
      var r := log[|log| - 1];
      if subject.Some? && r.subject != Upper(subject.value) then rest
      else (rest.0 + (if r.present then 1 else 0), rest.1 + 1)
  }

  /** `attendance_rate`: the percentage of considered records marked present,
      0 when there are none (exact, without the rounding to two places). */
  function AttendanceRate(log: seq<AttendanceRecord>, subject: Option<string>): (rate: real)
    ensures 0.0 <= rate <= 100.0
    ensures var c := AttendanceCounts(log, subject);
      if c.1 == 0 then rate == 0.0 else rate == Percent(c.0, c.1)
  {
    var c := AttendanceCounts(log, subject);
    if c.1 == 0 then 0.0 else Percent(c.0, c.1)
  }

  /** `100 * part / whole` for `part <= whole`, a value in 0..100. */
  function Percent(part: nat, whole: nat): (q: real)
    requires 0 < whole && part <= whole
    ensures 0.0 <= q <= 100.0
    ensures q * whole as real == 100.0 * part as real
  {
    var w := whole as real;
    var x := 100.0 * part as real;
    assert x <= 100.0 * w;
    assert x / w <= 100.0 by {
      assert x / w * w == x;
    }
    x / w
  }

  /** Recording one more attendance adds one to the overall total and, when
      present, one to the present count. */
  lemma AttendanceCountsAppend(log: seq<AttendanceRecord>, rec: AttendanceRecord)
    ensures var before, after := AttendanceCounts(log, None), AttendanceCounts(log + [rec], None);
      after.1 == before.1 + 1 && after.0 == before.0 + (if rec.present then 1 else 0)
  {
    CountsSnoc(log, rec, None);
  }

  /** One more record, for any choice of subject. */
  lemma CountsSnoc(log: seq<AttendanceRecord>, rec: AttendanceRecord, subject: Option<string>)
    ensures var before := AttendanceCounts(log, subject);
      AttendanceCounts(log + [rec], subject)
        == if subject.Some? && rec.subject != Upper(subject.value) then before
           else (before.0 + (if rec.present then 1 else 0), before.1 + 1)
  {
    assert (log + [rec])[..|log|] == log;
  }

  /** The comprehension's condition: the record's subject is `subject.upper()`. */
  function OfSubject(subject: string): AttendanceRecord -> bool {
    (r: AttendanceRecord) => r.subject == Upper(subject)
  }

  /** Counting the records of one subject is counting every record of the
      list comprehension that keeps only that subject's records. */
  lemma {:induction false} AttendanceCountsFilter(log: seq<AttendanceRecord>, subject: string)
    ensures AttendanceCounts(log, Some(subject)) == AttendanceCounts(Filter(log, OfSubject(subject)), None)
  {
    var p := OfSubject(subject);
    if log != [] {
      var init, last := log[..|log| - 1], log[|log| - 1];
      assert log == init + [last];
      AttendanceCountsFilter(init, subject);
      CountsSnoc(init, last, Some(subject));
      FilterAppend(init, [last], p);
      if p(last) {
        assert Filter([last], p) == [last];
        CountsSnoc(Filter(init, p), last, None);
      } else {
        assert Filter([last], p) == [];
        assert Filter(init, p) + [] == Filter(init, p);
      }
    }
  }
}
