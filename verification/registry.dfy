/** `StudentRegistry`: the list of students in registration order, a search
    tree indexing them by ID, a FIFO queue of pending attendance entries and the
    subject catalog of timetable slots. Every operation the source lets raise
    `ValueError` returns `Fail` or `Err` with the reason instead. */
module Registry {
  import opened Wrappers
  import opened Text
  import opened Seqs
  import opened Orders
  import opened Sorting
  import opened Students
  import opened Roster
  import Representatives
  import SearchTree
  import Containers
  import Timetable

  datatype RegistryError =
    | DuplicateStudentId(id: string)
    | StudentNotFound(id: string)
    | EndNotAfterStart

  /** The listed students are valid, lie inside `fp` with their own
      footprints, and no two of them share an object. */
  ghost predicate Members(ss: seq<Student>, fp: set<object>)
    reads fp
  {
    && (forall t :: t in ss ==> t in fp && t.Repr <= fp && t.Valid())
    && (forall t, u :: t in ss && u in ss && t != u ==> t.Repr !! u.Repr)
  }

  /** Appending a valid student whose objects are new to the footprint. */
  lemma MembersSnoc(ss: seq<Student>, fp: set<object>, s: Student)
    requires Members(ss, fp) && s.Valid() && s.Repr !! fp
    ensures Members(ss + [s], fp + s.Repr)
  {
    var r := ss + [s];
    forall t: Student | t in r ensures t in fp + s.Repr && t.Repr <= fp + s.Repr && t.Valid() {
      if t != s {
        assert t in ss;
      }
    }
    forall t: Student, u: Student | t in r && u in r && t != u ensures t.Repr !! u.Repr {
      if t != s && u != s {
        assert t in ss && u in ss;
      }
    }
  }

  /** Dropping the student with ID `sid` drops its objects from the footprint. */
  lemma MembersWithout(ss: seq<Student>, fp: set<object>, x: Student)
    requires Members(ss, fp) && x in ss
    ensures Members(Without(ss, x.id), fp - x.Repr)
  {
    var r := Without(ss, x.id);
    FilterSubMultiset(ss, OtherThan(x.id));
    forall t: Student | t in r ensures t in fp - x.Repr && t.Repr <= fp - x.Repr && t.Valid() {
      assert t in multiset(r);
      assert OtherThan(x.id)(t);
    }
    forall t: Student, u: Student | t in r && u in r && t != u ensures t.Repr !! u.Repr {
      assert t in multiset(r) && u in multiset(r);
    }
  }

  /** `roster` holds the codes `codes[t]` of every student of `ss` under its
      ID, and no other ID. */
  ghost predicate IsEnrolment(ss: seq<Student>, codes: map<Student, seq<string>>, roster: map<string, seq<string>>) {
    && (forall t :: t in ss ==> t in codes && t.id in roster && roster[t.id] == codes[t])
    && (forall k :: k in roster ==> exists t :: t in ss && t.id == k)
  }

  /** Each student's codes under its ID. */
  ghost function Enrolment(ss: seq<Student>, codes: map<Student, seq<string>>): map<string, seq<string>>
    requires forall t :: t in ss ==> t in codes
  {
    if ss == [] then map[]
    else
      var t := ss[|ss| - 1];
      Enrolment(ss[..|ss| - 1], codes)[t.id := codes[t]]
  }

  /** With distinct IDs, `Enrolment` holds each ID once with its codes. */
  lemma {:induction false} EnrolmentSpec(ss: seq<Student>, codes: map<Student, seq<string>>)
    requires DistinctIds(ss) && forall t :: t in ss ==> t in codes
    ensures IsEnrolment(ss, codes, Enrolment(ss, codes))
  {
    if ss != [] {
      var init, last := ss[..|ss| - 1], ss[|ss| - 1];
      assert ss == init + [last];
      EnrolmentSpec(init, codes);
      var r := Enrolment(ss, codes);
      forall t | t in ss ensures t.id in r && r[t.id] == codes[t] {
        if t != last {
          var i :| 0 <= i < |init| && init[i] == t;
          assert ss[i] == t && ss[|ss| - 1] == last;
        }
      }
      forall k | k in r ensures exists t :: t in ss && t.id == k {
        if k != last.id {
          var t :| t in init && t.id == k;
          assert t in ss;
        }
      }
    }
  }

  /** `[v for _, v in index.inorder()]` on an index that maps each listed
      student's ID to that student. */
  method ListInOrder(index: SearchTree.BinarySearchTree<Student>, ss: seq<Student>) returns (r: seq<Student>)
    requires index.Valid() && DistinctIds(ss) && index.Map == IdMap(ss)
    ensures |r| == |ss|
    ensures forall x :: x in r <==> x in ss
    ensures forall i, j :: 0 <= i < j < |r| ==> Less(r[i].id, r[j].id)
  {
    var pairs := index.InOrderPairs();
    r := Seconds(pairs);
    InOrderStudents(ss, index.Map, pairs);
  }

  /** The values of the index's in-order walk are the listed students, each
      once, in increasing ID order. */
  lemma InOrderStudents(ss: seq<Student>, m: map<string, Student>, pairs: seq<(string, Student)>)
    requires DistinctIds(ss) && m == IdMap(ss)
    requires |pairs| == |m|
    requires forall i, j :: 0 <= i < j < |pairs| ==> Less(pairs[i].0, pairs[j].0)
    requires forall i :: 0 <= i < |pairs| ==> pairs[i].0 in m && m[pairs[i].0] == pairs[i].1
    requires forall k :: k in m ==> exists i :: 0 <= i < |pairs| && pairs[i].0 == k
    ensures var r := Seconds(pairs);
      && |r| == |ss|
      && (forall x :: x in r <==> x in ss)
      && (forall i, j :: 0 <= i < j < |r| ==> Less(r[i].id, r[j].id))
  {
    var r := Seconds(pairs);
    IdMapSize(ss);
    forall i | 0 <= i < |r| ensures r[i] in ss && r[i].id == pairs[i].0 {
      IdMapHas(ss, pairs[i].0);
    }
    forall x | x in ss ensures x in r {
      IdMapAt(ss, x);
      var i :| 0 <= i < |pairs| && pairs[i].0 == x.id;
      assert r[i] == x;
    }
  }

  /** The first loop of `choose_class_representatives`: every student is
      scored and appended to its department's bucket. `depts` lists the
      dictionary's keys in insertion order: a department is added when
      `setdefault` creates its bucket. */
  method GroupByDepartment(ss: seq<Student>, gpa: Student -> real, alpha: real, beta: real)
    returns (buckets: map<string, seq<Representatives.Candidate>>, depts: seq<string>)
    ensures buckets == Representatives.Grouped(Representatives.Candidates(ss, gpa, alpha, beta))
    ensures depts == Representatives.DeptOrder(Representatives.Candidates(ss, gpa, alpha, beta))
  {
    ghost var all := Representatives.Candidates(ss, gpa, alpha, beta);
    Representatives.CandidatesAt(ss, gpa, alpha, beta);
    buckets, depts := map[], [];
    var i := 0;
    while i < |ss|
      invariant 0 <= i <= |ss|
      invariant buckets == Representatives.Grouped(all[..i])
      invariant depts == Representatives.DeptOrder(all[..i])
    {
      var s := ss[i];
      var c := Representatives.Candidate(s, Representatives.Score(s, gpa, alpha, beta));
      assert all[i] == c;
      Representatives.GroupedSnoc(all, i);
      Representatives.DeptOrderSnoc(all, i);
      var d := Representatives.DeptKey(s);
      if d !in buckets {
        depts := depts + [d];
      }
      buckets := Representatives.AddTo(buckets, c);
      i := i + 1;
    }
    assert all[..|ss|] == all;
  }

  /** The second loop of `choose_class_representatives`: the buckets in the
      dictionary's order, each sorted by descending score with ties in bucket
      order, and cut to `max(1, top)`. */
  method ChooseFromBuckets(buckets: map<string, seq<Representatives.Candidate>>, depts: seq<string>, top: int)
    returns (chosen: map<string, seq<Representatives.Candidate>>)
    requires forall d :: d in depts <==> d in buckets
    ensures chosen == Representatives.ChooseEach(buckets, top)
  {
    chosen := map[];
    var i := 0;
    while i < |depts|
      invariant 0 <= i <= |depts|
      invariant forall d :: d in chosen <==> d in depts[..i]
      invariant forall d :: d in chosen ==> d in buckets && chosen[d] == Representatives.Take(Representatives.Ranked(buckets[d]), Representatives.Quota(top))
    {
      var d := depts[i];
      var ranked := MergeSort(buckets[d], Representatives.ScoreKey(), Flip(RealLess()));
      chosen := chosen[d := Representatives.Take(ranked, Representatives.Quota(top))];
      assert depts[..i + 1] == depts[..i] + [d];
      i := i + 1;
    }
    assert depts[..|depts|] == depts;
  }

  /** The collecting loop of `optimize_timetable_for`: one item per enrolled
      code that has a catalog slot, in enrolment order. */
  method CollectItems(codes: seq<string>, catalog: map<string, Slot>) returns (items: seq<Timetable.Item>)
    ensures items == CatalogItems(codes, catalog)
  {
    items := [];
    var i := 0;
    while i < |codes|
      invariant 0 <= i <= |codes|
      invariant items == CatalogItems(codes[..i], catalog)
    {
      var code := codes[i];
      if code in catalog {
        var slot := catalog[code];
        items := items + [Timetable.Item(slot.start, slot.end, slot.weight, code)];
      }
      assert codes[..i + 1][..i] == codes[..i];
      i := i + 1;
    }
    assert codes[..|codes|] == codes;
  }

  class StudentRegistry {
    var students: seq<Student>
    const index: SearchTree.BinarySearchTree<Student>
    const attendance: Containers.Queue<AttendanceEntry>
    var catalog: map<string, Slot>
    /** The objects of the listed students. */
    ghost var StudentsRepr: set<object>

    /** Every object the registry reaches. */
    ghost function Footprint(): set<object>
      reads this, index
    {
      {this, index, attendance} + index.Repr + StudentsRepr
    }

    /** The index maps each listed student's ID to that student; the listed
        students are valid and share no object with each other, the index,
        the queue or the registry; every catalogued slot ends after it starts. */
    ghost predicate Valid()
      reads this, index, index.Repr, StudentsRepr
    {
      && this !in index.Repr && attendance !in index.Repr
      && this !in StudentsRepr && attendance !in StudentsRepr && index !in StudentsRepr
      && StudentsRepr !! index.Repr
      && index.Valid()
      && DistinctIds(students)
      && index.Map == IdMap(students)
      && Members(students, StudentsRepr)
      && SlotsOk(catalog)
    }

    constructor ()
      ensures Valid() && fresh(Footprint())
      ensures students == [] && index.Map == map[] && attendance.data == [] && catalog == map[]
    {
      students := [];
      index := new SearchTree.BinarySearchTree();
      attendance := new Containers.Queue();
      catalog := map[];
      StudentsRepr := {};
    }

    /** `get_by_id`: the listed student with that ID, if there is one. */
    method GetById(sid: string) returns (r: Option<Student>)
      requires Valid()
      ensures r == if sid in IdMap(students) then Some(IdMap(students)[sid]) else None
      ensures r.Some? ==> r.value in students && r.value.id == sid
      ensures r.None? <==> forall s :: s in students ==> s.id != sid
    {
      r := index.Search(sid);
      if r.None? {
        forall s | s in students ensures s.id != sid {
          IdMapAt(students, s);
        }
      }
    }

    /** `add_student`: a student whose ID is already listed is refused;
        otherwise it is appended to the list and indexed. */
    method AddStudent(s: Student) returns (r: Outcome<RegistryError>)
      requires Valid()
      requires s.id !in IdMap(students) ==> s.Valid()
      requires s.id !in IdMap(students) ==> s.Repr !! Footprint()
      modifies this, index.Repr
      ensures Valid()
      ensures s.id in IdMap(old(students)) ==> r == Fail(DuplicateStudentId(s.id)) && students == old(students)
      ensures s.id !in IdMap(old(students)) ==> r == Pass && students == old(students) + [s]
      ensures catalog == old(catalog)
    {
      var found := index.Search(s.id);
      if found.Some? {
        return Fail(DuplicateStudentId(s.id));
      }
      IdMapSnoc(students, s);
      MembersSnoc(students, StudentsRepr, s);
      Append(s);
      r := Pass;
    }

    /** The two updates of `add_student`, seen from outside: the list and the
        index grow by `s`, and no object of a listed student or of `s` changes. */
    method Append(s: Student)
      requires index.Valid() && this !in index.Repr && attendance !in index.Repr
      requires (StudentsRepr + s.Repr) !! index.Repr && this !in StudentsRepr + s.Repr
      modifies this, index.Repr
      ensures students == old(students) + [s] && StudentsRepr == old(StudentsRepr) + s.Repr
      ensures catalog == old(catalog)
      ensures index.Valid() && fresh(index.Repr - old(index.Repr)) && this !in index.Repr && attendance !in index.Repr
      ensures index.Map == old(index.Map)[s.id := s]
      ensures unchanged(old(StudentsRepr + s.Repr))
    {
      index.Insert(s.id, s);
      students, StudentsRepr := students + [s], StudentsRepr + s.Repr;
    }

    /** `remove_student`: an unknown ID is refused; otherwise the student with
        that ID leaves both the list and the index. */
    method RemoveStudent(sid: string) returns (r: Outcome<RegistryError>)
      requires Valid()
      modifies this, index.Repr
      ensures Valid()
      ensures sid !in IdMap(old(students)) ==> r == Fail(StudentNotFound(sid)) && students == old(students)
      ensures sid in IdMap(old(students)) ==> r == Pass && students == Without(old(students), sid)
      ensures catalog == old(catalog)
    {
      var found := index.Search(sid);
      if found.None? {
        return Fail(StudentNotFound(sid));
      }
      var x := found.value;
      IdMapHas(students, sid);
      WithoutSpec(students, sid);
      MembersWithout(students, StudentsRepr, x);
      Drop(x);
      r := Pass;
    }

    /** The two updates of `remove_student`, seen from outside: `x` leaves the
        list and the index, and no object of a listed student changes. */
    method Drop(x: Student)
      requires index.Valid() && this !in index.Repr && attendance !in index.Repr
      requires StudentsRepr !! index.Repr && this !in StudentsRepr
      modifies this, index.Repr
      ensures students == Without(old(students), x.id) && StudentsRepr == old(StudentsRepr) - x.Repr
      ensures catalog == old(catalog)
      ensures index.Valid() && index.Repr == old(index.Repr) && this !in index.Repr && attendance !in index.Repr
      ensures index.Map == old(index.Map) - {x.id}
      ensures unchanged(old(StudentsRepr))
    {
      index.Delete(x.id);
      students, StudentsRepr := Without(students, x.id), StudentsRepr - x.Repr;
    }

    /** `enqueue_attendance`: the entry joins the back of the queue. */
    method EnqueueAttendance(sid: string, date: string, subject: string, present: bool)
      requires Valid()
      modifies attendance
      ensures Valid()
      ensures attendance.data == old(attendance.data) + [AttendanceEntry(sid, date, subject, present)]
    {
      attendance.Enqueue(AttendanceEntry(sid, date, subject, present));
    }

    /** `process_attendance`: the queue is drained in order; each entry is
        recorded on the student with its ID when that student is enrolled in
        its subject (an empty date standing for `today`), unknown IDs and
        subjects the student is not enrolled in are skipped; the result is the
        number of entries recorded. */
    method ProcessAttendance(today: string) returns (cnt: nat, ghost roster: map<string, seq<string>>)
      requires Valid()
      modifies attendance, StudentsRepr
      ensures Valid() && attendance.data == []
      ensures forall t :: t in students ==> t.id in roster && roster[t.id] == old(t.Subjects())
      ensures forall k :: k in roster ==> exists t :: t in students && t.id == k
      ensures cnt == AcceptedCount(old(attendance.data), roster)
      ensures forall t :: t in students ==> t.Subjects() == old(t.Subjects())
      ensures forall t :: t in students ==>
        t.attendanceLog == old(t.attendanceLog) + Accepted(old(attendance.data), t.id, old(t.Subjects()), today)
    {
      ghost var q0 := attendance.data;
      ghost var logs0, codes0;
      logs0, codes0, roster := LoopStarts(today);
      cnt := 0;
      ghost var done := [];
      AppendEmpty(q0);
      while !attendance.IsEmpty()
        invariant Valid()
        invariant q0 == done + attendance.data
        invariant Progressed(logs0, codes0, done, today)
        invariant cnt == AcceptedCount(done, roster)
        decreases |attendance.data|
      {
        done, cnt := Step(today, logs0, codes0, roster, done, cnt);
      }
      AppendEmpty(done);
    }

    /** Every listed student still has its codes `codes0[t]`, and its log is
        `logs0[t]` followed by the records the entries `done` gave it. */
    ghost predicate Progressed(logs0: map<Student, seq<AttendanceRecord>>, codes0: map<Student, seq<string>>,
                               done: seq<AttendanceEntry>, today: string)
      reads this, StudentsRepr
      requires Members(students, StudentsRepr)
    {
      forall t :: t in students ==>
        && t in logs0 && t in codes0 && t.Subjects() == codes0[t]
        && t.attendanceLog == logs0[t] + Accepted(done, t.id, codes0[t], today)
    }

    /** Before the first entry: a snapshot of every listed student's log and
        codes, the enrolment map built from them, and nothing recorded yet. */
    lemma LoopStarts(today: string)
      returns (logs0: map<Student, seq<AttendanceRecord>>, codes0: map<Student, seq<string>>, roster: map<string, seq<string>>)
      requires Valid()
      ensures forall t :: t in students ==> t in logs0 && logs0[t] == t.attendanceLog
      ensures forall t :: t in students ==> t in codes0 && codes0[t] == t.Subjects()
      ensures forall t :: t in students ==> t.id in roster && roster[t.id] == t.Subjects()
      ensures forall k :: k in roster ==> exists t :: t in students && t.id == k
      ensures IsEnrolment(students, codes0, roster)
      ensures Progressed(logs0, codes0, [], today)
    {
      logs0 := map t | t in students :: t.attendanceLog;
      codes0 := map t | t in students :: t.Subjects();
      roster := Enrolment(students, codes0);
      EnrolmentSpec(students, codes0);
      forall t | t in students ensures t.attendanceLog == logs0[t] + Accepted([], t.id, codes0[t], today) {
        AppendEmpty(logs0[t]);
      }
    }

    /** The loop body of `process_attendance` with its bookkeeping: one more
        entry is taken off the queue, applied and counted. */
    method Step(today: string, ghost logs0: map<Student, seq<AttendanceRecord>>, ghost codes0: map<Student, seq<string>>,
                ghost roster: map<string, seq<string>>, ghost done: seq<AttendanceEntry>, cnt: nat)
      returns (ghost done': seq<AttendanceEntry>, cnt': nat)
      requires Valid() && attendance.data != []
      requires Progressed(logs0, codes0, done, today) && IsEnrolment(students, codes0, roster)
      requires cnt == AcceptedCount(done, roster)
      modifies attendance, StudentsRepr
      ensures Valid() && done' + attendance.data == done + old(attendance.data)
      ensures |attendance.data| == |old(attendance.data)| - 1
      ensures Progressed(logs0, codes0, done', today)
      ensures cnt' == AcceptedCount(done', roster)
    {
      ghost var rest := attendance.data;
      var e, applied := Next(today);
      assert rest == [e] + attendance.data;
      AppendAssoc(done, [e], attendance.data);
      forall t | t in students
        ensures t.attendanceLog == logs0[t] + Accepted(done + [e], t.id, codes0[t], today)
      {
        var codes := codes0[t];
        var added := if AppliesTo(e, t.id, codes) then [RecordOf(e, today)] else [];
        AcceptedSnoc(done, e, t.id, codes, today);
        AppendAssoc(logs0[t], Accepted(done, t.id, codes, today), added);
      }
      AcceptedCountSnoc(done, e, roster);
      assert applied <==> e.id in roster && AppliesTo(e, e.id, roster[e.id]);
      cnt' := if applied then cnt + 1 else cnt;
      done' := done + [e];
    }

    /** One pass of the `process_attendance` loop: the entry at the front of
        the queue is taken off and applied. */
    method Next(today: string) returns (e: AttendanceEntry, applied: bool)
      requires Valid() && attendance.data != []
      modifies attendance, StudentsRepr
      ensures Valid()
      ensures e == old(attendance.data[0]) && attendance.data == old(attendance.data[1..])
      ensures applied <==> exists t :: t in students && AppliesTo(e, t.id, old(t.Subjects()))
      ensures forall t :: t in students ==> t.Subjects() == old(t.Subjects())
      ensures forall t :: t in students ==>
        t.attendanceLog == old(t.attendanceLog) + (if AppliesTo(e, t.id, old(t.Subjects())) then [RecordOf(e, today)] else [])
    {
      var next := attendance.Dequeue();
      e := next.value;
      applied := Apply(e, today);
    }

    /** One pass of the `process_attendance` loop: the entry is recorded on
        the student with its ID when that student is enrolled in its subject
        (an empty date standing for `today`); otherwise nothing changes. */
    method Apply(e: AttendanceEntry, today: string) returns (applied: bool)
      requires Valid()
      modifies StudentsRepr
      ensures Valid()
      ensures applied <==> exists t :: t in students && AppliesTo(e, t.id, old(t.Subjects()))
      ensures forall t :: t in students ==> t.Subjects() == old(t.Subjects())
      ensures forall t :: t in students ==>
        t.attendanceLog == old(t.attendanceLog) + (if AppliesTo(e, t.id, old(t.Subjects())) then [RecordOf(e, today)] else [])
    {
      var found := index.Search(e.id);
      if found.None? {
        forall t | t in students ensures t.id != e.id {
          IdMapAt(students, t);
        }
        return false;
      }
      IdMapHas(students, e.id);
      applied := ApplyTo(found.value, e, today);
    }

    /** The entry's student is listed: it is recorded when that student is
        enrolled in the entry's subject. */
    method ApplyTo(x: Student, e: AttendanceEntry, today: string) returns (applied: bool)
      requires Valid() && x in students && x.id == e.id
      modifies x
      ensures Valid()
      ensures applied <==> exists t :: t in students && AppliesTo(e, t.id, old(t.Subjects()))
      ensures forall t :: t in students ==> t.Subjects() == old(t.Subjects())
      ensures forall t :: t in students ==>
        t.attendanceLog == old(t.attendanceLog) + (if AppliesTo(e, t.id, old(t.Subjects())) then [RecordOf(e, today)] else [])
    {
      forall t | t in students && t != x ensures t.id != e.id && x !in t.Repr {
        IdMapAt(students, t);
        IdMapAt(students, x);
      }
      var date := if e.date == "" then today else e.date;
      var outcome := RecordOn(x, date, e.subject, e.present);
      applied := outcome.Pass?;
    }

    /** `record_attendance` on the listed student `x`: the other listed
        students stay as they are, so all of them stay valid. */
    method RecordOn(x: Student, date: string, subject: string, present: bool) returns (r: Outcome<Students.Error>)
      requires Members(students, StudentsRepr) && x in students
      modifies x
      ensures Members(students, StudentsRepr)
      ensures x.Repr == old(x.Repr) && x.Subjects() == old(x.Subjects())
      ensures var c := NormalizeCode(subject);
        if c in x.Subjects() then r == Pass && x.attendanceLog == old(x.attendanceLog) + [AttendanceRecord(date, c, present)]
        else r == Fail(NotEnrolled(c)) && x.attendanceLog == old(x.attendanceLog)
    {
      r := x.RecordAttendance(date, subject, present);
      forall t | t in students && t != x ensures t.Valid() {
        assert t.Repr !! x.Repr;
      }
    }

    /** `sorted_by_name`: every listed student once, ordered by lower-cased
        name, students with the same lower-cased name in registry order. */
    method SortedByName() returns (r: seq<Student>)
      ensures SortedBy(r, NameKey(), StringLess())
      ensures multiset(r) == multiset(students)
      ensures Stable(r, students, NameKey())
    {
      r := ByName(students);
      ByNameCorrect(students);
    }

    /** `sorted_by_id`: the index's in-order walk, which lists every student
        once in increasing ID order. */
    method SortedById() returns (r: seq<Student>)
      requires Valid()
      ensures |r| == |students|
      ensures forall x :: x in r <==> x in students
      ensures forall i, j :: 0 <= i < j < |r| ==> Less(r[i].id, r[j].id)
    {
      r := ListInOrder(index, students);
    }

    /** `sorted_by_gpa`: every listed student once; ascending by GPA with ties
        in registry order, or (the default) descending with ties in reverse
        registry order, since the ascending list is reversed as a whole. */
    method SortedByGpa(gpa: Student -> real, descending: bool) returns (r: seq<Student>)
      ensures multiset(r) == multiset(students)
      ensures !descending ==> SortedBy(r, gpa, RealLess()) && Stable(r, students, gpa)
      ensures descending ==> SortedBy(r, gpa, Flip(RealLess()))
      ensures descending ==> forall k :: WithKey(r, gpa, k) == Reverse(WithKey(students, gpa, k))
    {
      var arr := students;
      var out := MergeSort(arr, gpa, RealLess());
      r := if descending then Reverse(out) else out;
      ByGpaCorrect(arr, gpa, descending);
    }

    /** `binary_search_by_name`: the students whose lower-cased name is
        `name.lower()`, in registry order (empty when there are none). */
    method BinarySearchByName(name: string) returns (r: seq<Student>)
      ensures r == WithKey(students, NameKey(), Lower(name))
    {
      var arr := ByName(students);
      ByNameCorrect(students);
      LessIsStrictTotalOrder();
      var target := Lower(name);
      var idx := BinarySearch(arr, target, NameKey(), StringLess());
      if idx == -1 {
        SliceWithoutKey(arr, NameKey(), target, 0, |arr|);
        assert arr[0..|arr|] == arr;
        return [];
      }
      r := [];
      var i := idx;
      while i < |arr| && Lower(arr[i].name) == target
        invariant idx <= i <= |arr|
        invariant r == arr[idx..i]
        invariant forall j :: idx <= j < i ==> NameKey()(arr[j]) == target
      {
        r := r + [arr[i]];
        i := i + 1;
      }
      RunIsWithKey(arr, NameKey(), StringLess(), target, idx, i);
    }

    /** `choose_class_representatives`: the scored students grouped by
        department, then each group ranked and cut to its first `max(1, top)`.
        The dictionary it returns is `depts`, its keys in insertion order, with
        `chosen`, the entry of each key. They are `Representatives.DeptOrder`
        and the declarative choice `Representatives.Representatives` of the
        scored students. */
    method ChooseClassRepresentatives(top: int, alpha: real, beta: real, gpa: Student -> real)
      returns (depts: seq<string>, chosen: map<string, seq<Representatives.Candidate>>)
      ensures depts == Representatives.DeptOrder(Representatives.Candidates(students, gpa, alpha, beta))
      ensures chosen == Representatives.Representatives(Representatives.Candidates(students, gpa, alpha, beta), top)
    {
      ghost var cs := Representatives.Candidates(students, gpa, alpha, beta);
      var buckets;
      buckets, depts := GroupByDepartment(students, gpa, alpha, beta);
      forall d ensures d in depts <==> d in buckets {
        Representatives.GroupedAt(cs, d);
        Representatives.DeptOrderSpec(cs);
      }
      chosen := ChooseFromBuckets(buckets, depts, top);
      Representatives.ChooseEachGrouped(cs, top);
    }

    /** `set_subject_slot`: a slot that does not end after it starts is
        refused; otherwise it is stored under the normalised code, replacing
        any earlier slot of that code. */
    method SetSubjectSlot(code: string, start: int, end: int, weight: real) returns (r: Outcome<RegistryError>)
      requires Valid()
      modifies this
      ensures Valid()
      ensures students == old(students) && StudentsRepr == old(StudentsRepr)
      ensures end <= start ==> r == Fail(EndNotAfterStart) && catalog == old(catalog)
      ensures start < end ==> r == Pass && catalog == StoreSlot(old(catalog), code, Slot(start, end, weight))
    {
      var c := NormalizeCode(code);
      if end <= start {
        return Fail(EndNotAfterStart);
      }
      catalog := catalog[c := Slot(start, end, weight)];
      r := Pass;
    }

    /** `get_subject_slot`: the slot stored under the normalised code, if any. */
    method GetSubjectSlot(code: string) returns (r: Option<Slot>)
      ensures r == LookupSlot(catalog, code)
    {
      var c := NormalizeCode(code);
      r := if c in catalog then Some(catalog[c]) else None;
    }

    /** `optimize_timetable_for`: an unknown ID is refused; otherwise the
        student's catalogued subjects are collected in enrolment order and
        the codes of a heaviest set of non-overlapping slots are returned. */
    method OptimizeTimetableFor(sid: string) returns (r: Result<seq<string>, RegistryError>)
      requires Valid()
      ensures sid !in IdMap(students) ==> r == Err(StudentNotFound(sid))
      ensures sid in IdMap(students) ==> r == Ok(Plan(IdMap(students)[sid].Subjects(), catalog))
    {
      var found := index.Search(sid);
      if found.None? {
        return Err(StudentNotFound(sid));
      }
      var s := found.value;
      IdMapHas(students, sid);
      var codes := s.subjects.ToSeq();
      var items := CollectItems(codes, catalog);
      if items == [] {
        return Ok([]);
      }
      var plan := Timetable.Optimize(items);
      r := Ok(plan);
    }
  }
}
