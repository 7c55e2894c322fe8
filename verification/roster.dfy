/** The value-level side of the student registry: the ID index a list of
    students determines, the list comprehension `remove_student` filters with,
    the records `process_attendance` applies, the listings `sorted_by_name`,
    `sorted_by_gpa` and `binary_search_by_name` produce, the grouping and ranking
    of `choose_class_representatives`, and the slots `optimize_timetable_for`
    collects from the subject catalog. */
module Roster {
  import opened Wrappers
  import opened Text
  import opened Seqs
  import opened Orders
  import opened Sorting
  import opened Students
  import Timetable

  /** No two students in the list share an ID. */
  predicate DistinctIds(ss: seq<Student>) {
    forall i, j :: 0 <= i < j < |ss| ==> ss[i].id != ss[j].id
  }

  /** The ID-to-student map the registry's search tree holds for `ss`. */
  function IdMap(ss: seq<Student>): map<string, Student>
    requires DistinctIds(ss)
  {
    map i | 0 <= i < |ss| :: ss[i].id := ss[i]
  }

  /** Every listed student is found under its ID. */
  lemma IdMapAt(ss: seq<Student>, x: Student)
    requires DistinctIds(ss) && x in ss
    ensures x.id in IdMap(ss) && IdMap(ss)[x.id] == x
  {
    var i :| 0 <= i < |ss| && ss[i] == x;
    assert ss[i].id in IdMap(ss);
  }

  /** Every ID in the index belongs to a listed student. */
  lemma IdMapHas(ss: seq<Student>, k: string)
    requires DistinctIds(ss) && k in IdMap(ss)
    ensures IdMap(ss)[k] in ss && IdMap(ss)[k].id == k
  {
  }

  /** An ID no listed student has is not in the index. */
  lemma IdMapMissing(ss: seq<Student>, k: string)
    requires DistinctIds(ss) && forall i :: 0 <= i < |ss| ==> ss[i].id != k
    ensures k !in IdMap(ss)
  {
  }

  /** Appending a student with a new ID adds that one entry to the index. */
  lemma IdMapSnoc(ss: seq<Student>, s: Student)
    requires DistinctIds(ss) && s.id !in IdMap(ss)
    ensures DistinctIds(ss + [s])
    ensures IdMap(ss + [s]) == IdMap(ss)[s.id := s]
  {
    var r := ss + [s];
    forall i, j | 0 <= i < j < |r| ensures r[i].id != r[j].id {
      if j == |ss| {
        IdMapAt(ss, ss[i]);
      }
    }
    forall k | k in IdMap(r) ensures k in IdMap(ss)[s.id := s] && IdMap(r)[k] == IdMap(ss)[s.id := s][k] {
      IdMapHas(r, k);
      var x := IdMap(r)[k];
      if x != s {
        assert x in ss;
        IdMapAt(ss, x);
      }
    }
    forall k | k in IdMap(ss)[s.id := s] ensures k in IdMap(r) {
      if k == s.id {
        IdMapAt(r, s);
      } else {
        IdMapHas(ss, k);
        IdMapAt(r, IdMap(ss)[k]);
      }
    }
  }

  /** The index holds one entry per listed student: `len(index) == len(students)`. */
  lemma {:induction false} IdMapSize(ss: seq<Student>)
    requires DistinctIds(ss)
    ensures |IdMap(ss)| == |ss|
  {
    if ss != [] {
      var init, last := ss[..|ss| - 1], ss[|ss| - 1];
      assert DistinctIds(init);
      IdMapSize(init);
      assert forall i :: 0 <= i < |init| ==> init[i].id != last.id;
      IdMapMissing(init, last.id);
      IdMapSnoc(init, last);
      assert init + [last] == ss;
    }
  }

  /** The condition of `remove_student`'s list comprehension. */
  function OtherThan(sid: string): Student -> bool {
    (x: Student) => x.id != sid
  }

  /** `[x for x in students if x.student_id != sid]`. */
  function Without(ss: seq<Student>, sid: string): seq<Student> {
    Filter(ss, OtherThan(sid))
  }

  lemma {:induction false} WithoutDistinct(ss: seq<Student>, sid: string)
    requires DistinctIds(ss)
    ensures DistinctIds(Without(ss, sid))
  {
    if ss != [] {
      var t := ss[1..];
      assert DistinctIds(t);
      WithoutDistinct(t, sid);
      assert ss == [ss[0]] + t;
      FilterCons(ss[0], t, OtherThan(sid));
      if ss[0].id != sid {
        var w := Without(t, sid);
        HeadIdUnique(ss);
        FilterSubMultiset(t, OtherThan(sid));
        forall y | y in w ensures y.id != ss[0].id {
          assert y in multiset(w);
        }
        ConsDistinct(ss[0], w);
      }
    }
  }

  /** With distinct IDs, no later student shares the first one's ID. */
  lemma HeadIdUnique(ss: seq<Student>)
    requires DistinctIds(ss) && ss != []
    ensures forall y :: y in ss[1..] ==> y.id != ss[0].id
  {
    forall y | y in ss[1..] ensures y.id != ss[0].id {
      var k :| 0 <= k < |ss| - 1 && ss[1..][k] == y;
      assert ss[k + 1] == y;
    }
  }

  /** A student whose ID none of `w` has can go in front of `w`. */
  lemma ConsDistinct(x: Student, w: seq<Student>)
    requires DistinctIds(w) && forall y :: y in w ==> y.id != x.id
    ensures DistinctIds([x] + w)
  {
    var r := [x] + w;
    forall i, j | 0 <= i < j < |r| ensures r[i].id != r[j].id {
      assert r[j] == w[j - 1];
      if i > 0 {
        assert r[i] == w[i - 1];
      }
    }
  }

  /** Removing by ID keeps every other student and only those. */
  lemma WithoutMembers(ss: seq<Student>, sid: string)
    ensures forall x :: x in Without(ss, sid) <==> x in ss && x.id != sid
  {
    var w := Without(ss, sid);
    FilterSubMultiset(ss, OtherThan(sid));
    forall x ensures x in w <==> x in ss && x.id != sid {
      if x in w {
        assert x in multiset(w);
      } else if x in ss && x.id != sid {
        FilterKeeps(ss, OtherThan(sid), x);
      }
    }
  }

  /** Removing by ID removes exactly that ID from the index. */
  lemma WithoutSpec(ss: seq<Student>, sid: string)
    requires DistinctIds(ss)
    ensures DistinctIds(Without(ss, sid))
    ensures IdMap(Without(ss, sid)) == IdMap(ss) - {sid}
  {
    var w := Without(ss, sid);
    WithoutDistinct(ss, sid);
    WithoutMembers(ss, sid);
    forall k | k in IdMap(w) ensures k in IdMap(ss) - {sid} && IdMap(w)[k] == IdMap(ss)[k] {
      IdMapHas(w, k);
      IdMapAt(ss, IdMap(w)[k]);
    }
    forall k | k in IdMap(ss) - {sid} ensures k in IdMap(w) {
      IdMapHas(ss, k);
      IdMapAt(w, IdMap(ss)[k]);
    }
  }

  /** An entry of the attendance queue: `(sid, date, subject, present)`. */
  datatype AttendanceEntry = AttendanceEntry(id: string, date: string, subject: string, present: bool)

  /** The record an applied entry appends; an empty date stands for `today`. */
  function RecordOf(e: AttendanceEntry, today: string): AttendanceRecord {
    AttendanceRecord(if e.date == "" then today else e.date, NormalizeCode(e.subject), e.present)
  }

  /** An entry is applied to the student with its ID when that student is
      enrolled in its (normalised) subject. */
  predicate AppliesTo(e: AttendanceEntry, id: string, subjects: seq<string>) {
    e.id == id && NormalizeCode(e.subject) in subjects
  }

  /** The records that processing `entries` in order appends to the log of the
      student with ID `id` and enrolled `subjects`. */
  function Accepted(entries: seq<AttendanceEntry>, id: string, subjects: seq<string>, today: string): seq<AttendanceRecord> {
    if entries == [] then []
    else
      var e := entries[|entries| - 1];
      Accepted(entries[..|entries| - 1], id, subjects, today)
        + (if AppliesTo(e, id, subjects) then [RecordOf(e, today)] else [])
  }

  /** How many of `entries` are applied, given each known ID's enrolled subjects. */
  function AcceptedCount(entries: seq<AttendanceEntry>, roster: map<string, seq<string>>): nat {
    if entries == [] then 0
    else
      var e := entries[|entries| - 1];
      AcceptedCount(entries[..|entries| - 1], roster)
        + (if e.id in roster && AppliesTo(e, e.id, roster[e.id]) then 1 else 0)
  }

  /** Entries are applied in queue order: processing `a` then `b` appends the
      records of `a` and then those of `b`. */
  lemma {:induction false} AcceptedFifo(a: seq<AttendanceEntry>, b: seq<AttendanceEntry>, id: string, subjects: seq<string>, today: string)
    ensures Accepted(a + b, id, subjects, today) == Accepted(a, id, subjects, today) + Accepted(b, id, subjects, today)
  {
    if b == [] {
      assert a + b == a;
    } else {
      var init := b[..|b| - 1];
      AcceptedFifo(a, init, id, subjects, today);
      assert (a + b)[..|a + b| - 1] == a + init;
      assert (a + b)[|a + b| - 1] == b[|b| - 1];
    }
  }

  /** Processing one more entry. */
  lemma AcceptedSnoc(done: seq<AttendanceEntry>, e: AttendanceEntry, id: string, subjects: seq<string>, today: string)
    ensures Accepted(done + [e], id, subjects, today)
      == Accepted(done, id, subjects, today) + (if AppliesTo(e, id, subjects) then [RecordOf(e, today)] else [])
  {
    assert (done + [e])[..|done|] == done;
  }

  /** Counting one more entry. */
  lemma AcceptedCountSnoc(done: seq<AttendanceEntry>, e: AttendanceEntry, roster: map<string, seq<string>>)
    ensures AcceptedCount(done + [e], roster)
      == AcceptedCount(done, roster) + (if e.id in roster && AppliesTo(e, e.id, roster[e.id]) then 1 else 0)
  {
    assert (done + [e])[..|done|] == done;
  }

  /** Every entry is either applied or skipped: the count never exceeds the
      number of entries and reaches it exactly when every entry names a known
      student enrolled in its subject. */
  lemma {:induction false} AcceptedCountBound(entries: seq<AttendanceEntry>, roster: map<string, seq<string>>)
    ensures AcceptedCount(entries, roster) <= |entries|
    ensures AcceptedCount(entries, roster) == |entries| <==>
      forall i :: 0 <= i < |entries| ==> entries[i].id in roster && AppliesTo(entries[i], entries[i].id, roster[entries[i].id])
  {
    if entries != [] {
      var init := entries[..|entries| - 1];
      AcceptedCountBound(init, roster);
      if AcceptedCount(entries, roster) == |entries| {
        forall i | 0 <= i < |entries|
          ensures entries[i].id in roster && AppliesTo(entries[i], entries[i].id, roster[entries[i].id])
        {
          if i < |init| {
            assert entries[i] == init[i];
          }
        }
      } else {
        var e := entries[|entries| - 1];
        if e.id in roster && AppliesTo(e, e.id, roster[e.id]) {
          var i :| 0 <= i < |init| && !(init[i].id in roster && AppliesTo(init[i], init[i].id, roster[init[i].id]));
          assert entries[i] == init[i];
        }
      }
    }
  }

  /** The key `sorted_by_name` and `binary_search_by_name` compare: the lower-cased name. */
  function NameKey(): Student -> string {
    (s: Student) => Lower(s.name)
  }

  /** `sorted_by_name`. */
  function ByName(ss: seq<Student>): seq<Student> {
    MergeSort(ss, NameKey(), StringLess())
  }

  /** `sorted_by_name` lists every student once, by lower-cased name, students
      with the same lower-cased name in registry order. */
  lemma ByNameCorrect(ss: seq<Student>)
    ensures SortedBy(ByName(ss), NameKey(), StringLess())
    ensures multiset(ByName(ss)) == multiset(ss)
    ensures Stable(ByName(ss), ss, NameKey())
  {
    LessIsStrictTotalOrder();
    MergeSortCorrect(ss, NameKey(), StringLess());
  }

  /** `sorted_by_gpa`: ascending by the key, then reversed when descending. */
  function ByGpa(ss: seq<Student>, gpa: Student -> real, descending: bool): seq<Student> {
    var out := MergeSort(ss, gpa, RealLess());
    if descending then Reverse(out) else out
  }

  /** A sequence sorted by `less` read backwards is sorted by the flipped order. */
  lemma SortedReversed<T, K>(s: seq<T>, key: T -> K, less: (K, K) -> bool)
    requires SortedBy(s, key, less)
    ensures SortedBy(Reverse(s), key, Flip(less))
  {
    var r := Reverse(s);
    forall i, j | 0 <= i < j < |r| ensures Leq(Flip(less), key(r[i]), key(r[j])) {
      assert Leq(less, key(s[|s| - 1 - j]), key(s[|s| - 1 - i]));
    }
  }

  /** `sorted_by_gpa` lists every student once. Ascending, students with equal
      GPA keep registry order; descending (the default), the order is
      non-increasing and students with equal GPA come out in reverse registry
      order, because the stable ascending sort is reversed as a whole. */
  lemma ByGpaCorrect(ss: seq<Student>, gpa: Student -> real, descending: bool)
    ensures multiset(ByGpa(ss, gpa, descending)) == multiset(ss)
    ensures !descending ==> SortedBy(ByGpa(ss, gpa, descending), gpa, RealLess()) && Stable(ByGpa(ss, gpa, descending), ss, gpa)
    ensures descending ==> SortedBy(ByGpa(ss, gpa, descending), gpa, Flip(RealLess()))
    ensures descending ==> forall k :: WithKey(ByGpa(ss, gpa, descending), gpa, k) == Reverse(WithKey(ss, gpa, k))
  {
    NumberOrders();
    var out := MergeSort(ss, gpa, RealLess());
    MergeSortCorrect(ss, gpa, RealLess());
    if descending {
      ReverseMultiset(out);
      SortedReversed(out, gpa, RealLess());
      forall k ensures WithKey(Reverse(out), gpa, k) == Reverse(WithKey(ss, gpa, k)) {
        FilterReverse(out, KeyIs(gpa, k));
        assert WithKey(out, gpa, k) == WithKey(ss, gpa, k);
      }
    }
  }

  /** A catalog entry of `set_subject_slot`: minutes from midnight and a weight. */
  datatype Slot = Slot(start: int, end: int, weight: real)

  /** Every catalogued slot ends after it starts, as `set_subject_slot` checks. */
  predicate SlotsOk(catalog: map<string, Slot>) {
    forall c :: c in catalog ==> catalog[c].start < catalog[c].end
  }

  /** `set_subject_slot`'s update: the slot is stored under the stripped,
      upper-cased code. */
  function StoreSlot(catalog: map<string, Slot>, code: string, slot: Slot): map<string, Slot> {
    catalog[NormalizeCode(code) := slot]
  }

  /** `get_subject_slot`: the slot stored under the stripped, upper-cased code. */
  function LookupSlot(catalog: map<string, Slot>, code: string): Option<Slot> {
    if NormalizeCode(code) in catalog then Some(catalog[NormalizeCode(code)]) else None
  }

  /** A slot stored under a code is found again under any spelling of that
      code that normalises the same way, including the stored key itself;
      every other code keeps its slot, and a well-formed slot keeps the
      catalog well formed. */
  lemma SlotRoundTrip(catalog: map<string, Slot>, code: string, slot: Slot, query: string)
    ensures NormalizeCode(query) == NormalizeCode(code) ==> LookupSlot(StoreSlot(catalog, code, slot), query) == Some(slot)
    ensures LookupSlot(StoreSlot(catalog, code, slot), NormalizeCode(code)) == Some(slot)
    ensures NormalizeCode(query) != NormalizeCode(code) ==> LookupSlot(StoreSlot(catalog, code, slot), query) == LookupSlot(catalog, query)
    ensures SlotsOk(catalog) && slot.start < slot.end ==> SlotsOk(StoreSlot(catalog, code, slot))
  {
    NormalizeIdempotent(code);
  }

  /** The item `optimize_timetable_for` builds for a catalogued code. */
  function ItemOf(code: string, slot: Slot): Timetable.Item {
    Timetable.Item(slot.start, slot.end, slot.weight, code)
  }

  /** The items of the enrolled `codes` that have a catalog slot, in enrolment order. */
  function CatalogItems(codes: seq<string>, catalog: map<string, Slot>): seq<Timetable.Item> {
    if codes == [] then []
    else
      var c := codes[|codes| - 1];
      CatalogItems(codes[..|codes| - 1], catalog) + (if c in catalog then [ItemOf(c, catalog[c])] else [])
  }

  /** The items are exactly the catalog slots of the enrolled codes. */
  lemma {:induction false} CatalogItemsSpec(codes: seq<string>, catalog: map<string, Slot>)
    ensures forall it :: it in CatalogItems(codes, catalog) <==>
      it.code in codes && it.code in catalog && it == ItemOf(it.code, catalog[it.code])
  {
    if codes != [] {
      var init, c := codes[..|codes| - 1], codes[|codes| - 1];
      CatalogItemsSpec(init, catalog);
      assert codes == init + [c];
    }
  }

  /** With well-formed slots the items are well formed too; there are none
      exactly when no enrolled code is catalogued. */
  lemma CatalogItemsShape(codes: seq<string>, catalog: map<string, Slot>)
    ensures SlotsOk(catalog) ==> Timetable.WellFormed(CatalogItems(codes, catalog))
    ensures CatalogItems(codes, catalog) == [] <==> forall c :: c in codes ==> c !in catalog
  {
    CatalogItemsSpec(codes, catalog);
    if CatalogItems(codes, catalog) == [] {
      forall c | c in codes ensures c !in catalog {
        assert c in catalog ==> ItemOf(c, catalog[c]) in CatalogItems(codes, catalog);
      }
    } else {
      assert CatalogItems(codes, catalog)[0] in CatalogItems(codes, catalog);
    }
  }

  /** The codes `optimize_timetable_for` returns for a student enrolled in `subjects`. */
  function Plan(subjects: seq<string>, catalog: map<string, Slot>): seq<string> {
    var s := Timetable.SortByEnd(CatalogItems(subjects, catalog));
    Timetable.Codes(s, Timetable.Reconstruct(s, |s|))
  }

  /** The plan holds only enrolled, catalogued codes, and each chosen slot
      ends no later than the next one starts. */
  lemma PlanSpec(subjects: seq<string>, catalog: map<string, Slot>)
    requires SlotsOk(catalog)
    ensures var p := Plan(subjects, catalog);
      && (forall t :: 0 <= t < |p| ==> p[t] in subjects && p[t] in catalog)
      && (forall t {:trigger p[t]} :: 0 <= t < |p| - 1 ==> p[t] in catalog && p[t + 1] in catalog && catalog[p[t]].end <= catalog[p[t + 1]].start)
  {
    var s := Timetable.SortByEnd(CatalogItems(subjects, catalog));
    var r := Timetable.Reconstruct(s, |s|);
    var p := Plan(subjects, catalog);
    Timetable.SortByEndCorrect(CatalogItems(subjects, catalog));
    Timetable.ReconstructChain(s, |s|);
    forall t | 0 <= t < |p| ensures p[t] in subjects && p[t] in catalog {
      PlanAt(subjects, catalog, t);
    }
    forall t {:trigger p[t]} | 0 <= t < |p| - 1 ensures p[t] in catalog && p[t + 1] in catalog && catalog[p[t]].end <= catalog[p[t + 1]].start {
      PlanAt(subjects, catalog, t);
      PlanAt(subjects, catalog, t + 1);
      assert s[r[t]].end <= s[r[t + 1]].start;
    }
  }

  /** The `t`-th code of the plan names the catalog slot the optimiser chose. */
  lemma PlanAt(subjects: seq<string>, catalog: map<string, Slot>, t: nat)
    requires t < |Plan(subjects, catalog)|
    ensures var s := Timetable.SortByEnd(CatalogItems(subjects, catalog)); var r := Timetable.Reconstruct(s, |s|);
      var c := Plan(subjects, catalog)[t];
      && t < |r| && c in subjects && c in catalog && s[r[t]] == ItemOf(c, catalog[c])
  {
    var items := CatalogItems(subjects, catalog);
    var s := Timetable.SortByEnd(items);
    var r := Timetable.Reconstruct(s, |s|);
    Timetable.SortByEndCorrect(items);
    CatalogItemsSpec(subjects, catalog);
    assert s[r[t]] in multiset(s);
    assert s[r[t]] in items;
  }

  /** The chosen slots do not overlap, and no set of non-overlapping slots of
      the student's catalogued subjects weighs more. */
  lemma PlanOptimal(subjects: seq<string>, catalog: map<string, Slot>)
    requires SlotsOk(catalog)
    ensures var s := Timetable.SortByEnd(CatalogItems(subjects, catalog)); var r := Timetable.Reconstruct(s, |s|);
      && Timetable.Disjoint(s, r)
      && Timetable.SumW(s, r) == Timetable.Best(s, |s|)
      && forall idx :: Timetable.Disjoint(s, idx) ==> Timetable.SumW(s, idx) <= Timetable.SumW(s, r)
  {
    var items := CatalogItems(subjects, catalog);
    var s := Timetable.SortByEnd(items);
    CatalogItemsShape(subjects, catalog);
    Timetable.TimetableOptimal(items);
    Timetable.ReconstructWeight(s, |s|);
  }
}
