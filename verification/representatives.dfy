/** `choose_class_representatives`: every student gets a score from its GPA
    and attendance rate, students are grouped by department (an empty
    department is grouped under "-"), each group is sorted by descending score
    with ties kept in registry order, and the first `max(1, top_per_dept)` of
    each group are chosen. */
module Representatives {
  import opened Wrappers
  import opened Seqs
  import opened Orders
  import opened Sorting
  import opened Students

  /** A student with the score it was given. */
  datatype Candidate = Candidate(student: Student, score: real)

  /** `s.department or "-"`. */
  function DeptKey(s: Student): string {
    if s.department == "" then "-" else s.department
  }

  /** `alpha * (gpa / 4 * 100) + beta * attendance_rate()`, on exact reals. */
  function Score(s: Student, gpa: Student -> real, alpha: real, beta: real): real
    reads s
  {
    alpha * (gpa(s) / 4.0 * 100.0) + beta * AttendanceRate(s.attendanceLog, None)
  }

  /** Every student of `ss` with its score, in registry order. */
  function Candidates(ss: seq<Student>, gpa: Student -> real, alpha: real, beta: real): seq<Candidate>
    reads set s | s in ss
  {
    if ss == [] then []
    else
      var last := ss[|ss| - 1];
      Candidates(ss[..|ss| - 1], gpa, alpha, beta) + [Candidate(last, Score(last, gpa, alpha, beta))]
  }

  function InDept(d: string): Candidate -> bool {
    (c: Candidate) => DeptKey(c.student) == d
  }

  /** The candidates of one department, in registry order. */
  function Bucket(cs: seq<Candidate>, d: string): seq<Candidate> {
    Filter(cs, InDept(d))
  }

  /** The departments that have at least one candidate. */
  function Departments(cs: seq<Candidate>): set<string> {
    set c | c in cs :: DeptKey(c.student)
  }

  /** `buckets.setdefault(dept, []).append(c)`. */
  function AddTo(m: map<string, seq<Candidate>>, c: Candidate): map<string, seq<Candidate>> {
    var d := DeptKey(c.student);
    m[d := (if d in m then m[d] else []) + [c]]
  }

  /** The buckets the first loop builds, one candidate at a time. */
  function Grouped(cs: seq<Candidate>): map<string, seq<Candidate>> {
    if cs == [] then map[]
    else AddTo(Grouped(cs[..|cs| - 1]), cs[|cs| - 1])
  }

  /** One candidate per student, in registry order, with that student's score. */
  lemma {:induction false} CandidatesAt(ss: seq<Student>, gpa: Student -> real, alpha: real, beta: real)
    ensures var cs := Candidates(ss, gpa, alpha, beta);
      |cs| == |ss| && forall j :: 0 <= j < |ss| ==> cs[j] == Candidate(ss[j], Score(ss[j], gpa, alpha, beta))
  {
    if ss != [] {
      CandidatesAt(ss[..|ss| - 1], gpa, alpha, beta);
    }
  }

  /** Grouping one more candidate appends it to its department's bucket. */
  lemma GroupedSnoc(cs: seq<Candidate>, i: nat)
    requires i < |cs|
    ensures Grouped(cs[..i + 1]) == AddTo(Grouped(cs[..i]), cs[i])
  {
    assert cs[..i + 1][..i] == cs[..i];
  }

  function ScoreKey(): Candidate -> real {
    (c: Candidate) => c.score
  }

  /** `lst.sort(key=lambda t: t[1], reverse=True)`: a stable sort by
      descending score. */
  function Ranked(b: seq<Candidate>): seq<Candidate> {
    MergeSort(b, ScoreKey(), Flip(RealLess()))
  }

  /** `max(1, int(top_per_dept))`. */
  function Quota(top: int): nat {
    if top < 1 then 1 else top
  }

  /** `s[:n]`. */
  function Take<T>(s: seq<T>, n: nat): (r: seq<T>)
    ensures |r| == if |s| <= n then |s| else n
    ensures forall i :: 0 <= i < |r| ==> r[i] == s[i]
  {
    if |s| <= n then s else s[..n]
  }

  /** The result of `choose_class_representatives` for the scored students `cs`. */
  function Representatives(cs: seq<Candidate>, top: int): map<string, seq<Candidate>> {
    map d | d in Departments(cs) :: Take(Ranked(Bucket(cs, d)), Quota(top))
  }

  /** A department's bucket holds exactly its candidates. */
  lemma BucketMembers(cs: seq<Candidate>, d: string)
    ensures forall c :: c in Bucket(cs, d) <==> c in cs && DeptKey(c.student) == d
  {
    FilterSubMultiset(cs, InDept(d));
    forall c ensures c in Bucket(cs, d) <==> c in cs && DeptKey(c.student) == d {
      if c in Bucket(cs, d) {
        assert c in multiset(Bucket(cs, d));
      } else if c in cs && DeptKey(c.student) == d {
        FilterKeeps(cs, InDept(d), c);
      }
    }
  }

  /** One department at a time: the bucket built one student at a time is the
      department's candidates in registry order. */
  lemma {:induction false} GroupedAt(cs: seq<Candidate>, d: string)
    ensures d in Grouped(cs) <==> d in Departments(cs)
    ensures d in Grouped(cs) ==> Grouped(cs)[d] == Bucket(cs, d)
  {
    if cs != [] {
      var init, c := cs[..|cs| - 1], cs[|cs| - 1];
      var m := Grouped(init);
      GroupedAt(init, d);
      assert init + [c] == cs;
      assert Departments(cs) == Departments(init) + {DeptKey(c.student)};
      FilterAppend(init, [c], InDept(d));
      if d !in Departments(init) {
        FilterNone(init, InDept(d));
      }
      if DeptKey(c.student) == d {
        assert Filter([c], InDept(d)) == [c];
        assert Bucket(cs, d) == Bucket(init, d) + [c];
        assert Grouped(cs)[d] == (if d in m then m[d] else []) + [c];
      } else {
        assert Filter([c], InDept(d)) == [];
        assert Bucket(cs, d) == Bucket(init, d);
      }
    }
  }

  /** The buckets built one student at a time are the departments' candidates
      in registry order. */
  lemma GroupedSpec(cs: seq<Candidate>)
    ensures Grouped(cs) == map d | d in Departments(cs) :: Bucket(cs, d)
  {
    forall d ensures d in Grouped(cs) <==> d in Departments(cs) {
      GroupedAt(cs, d);
    }
    forall d | d in Grouped(cs) ensures Grouped(cs)[d] == Bucket(cs, d) {
      GroupedAt(cs, d);
    }
  }

  /** The order the buckets dictionary lists its departments in, which is the
      order of the result: a department joins the end when `setdefault` first
      creates its bucket. */
  function DeptOrder(cs: seq<Candidate>): seq<string> {
    if cs == [] then []
    else
      var init := cs[..|cs| - 1];
      var d := DeptKey(cs[|cs| - 1].student);
      if d in Grouped(init) then DeptOrder(init) else DeptOrder(init) + [d]
  }

  /** Ordering one more candidate lists its department last when it is new. */
  lemma DeptOrderSnoc(cs: seq<Candidate>, i: nat)
    requires i < |cs|
    ensures var d := DeptKey(cs[i].student);
      DeptOrder(cs[..i + 1]) == if d in Grouped(cs[..i]) then DeptOrder(cs[..i]) else DeptOrder(cs[..i]) + [d]
  {
    assert cs[..i + 1][..i] == cs[..i];
  }

  /** Some student of department `d` comes before every student of `e`. */
  ghost predicate SeenBefore(cs: seq<Candidate>, d: string, e: string) {
    exists a :: 0 <= a < |cs| && DeptKey(cs[a].student) == d && forall b :: 0 <= b <= a ==> DeptKey(cs[b].student) != e
  }

  /** A student added at the end does not change who was seen first. */
  lemma SeenBeforeSnoc(cs: seq<Candidate>, c: Candidate, d: string, e: string)
    requires SeenBefore(cs, d, e)
    ensures SeenBefore(cs + [c], d, e)
  {
    var a :| 0 <= a < |cs| && DeptKey(cs[a].student) == d && forall b :: 0 <= b <= a ==> DeptKey(cs[b].student) != e;
    var t := cs + [c];
    assert forall b :: 0 <= b <= a ==> t[b] == cs[b];
    assert DeptKey(t[a].student) == d;
  }

  /** A department present among earlier students was seen before one that is
      not. */
  lemma SeenBeforeNew(cs: seq<Candidate>, c: Candidate, d: string, e: string)
    requires d in Departments(cs) && e !in Departments(cs)
    ensures SeenBefore(cs + [c], d, e)
  {
    var x :| x in cs && DeptKey(x.student) == d;
    var a :| 0 <= a < |cs| && cs[a] == x;
    var t := cs + [c];
    forall b | 0 <= b <= a ensures DeptKey(t[b].student) != e {
      assert t[b] == cs[b] && cs[b] in cs;
    }
    assert t[a] == x;
  }

  /** The result lists every department present exactly once, in the order in
      which each department's first student appears in the registry. */
  lemma {:induction false} DeptOrderSpec(cs: seq<Candidate>)
    ensures var o := DeptOrder(cs);
      && (forall d :: d in o <==> d in Departments(cs))
      && Distinct(o)
      && forall i, j :: 0 <= i < j < |o| ==> SeenBefore(cs, o[i], o[j])
  {
    if cs != [] {
      var init, c := cs[..|cs| - 1], cs[|cs| - 1];
      var d := DeptKey(c.student);
      var o := DeptOrder(init);
      DeptOrderSpec(init);
      GroupedAt(init, d);
      assert init + [c] == cs;
      assert Departments(cs) == Departments(init) + {d};
      forall i, j | 0 <= i < j < |o| ensures SeenBefore(cs, o[i], o[j]) {
        SeenBeforeSnoc(init, c, o[i], o[j]);
      }
      if d !in Grouped(init) {
        var r := o + [d];
        assert DeptOrder(cs) == r;
        forall i, j | 0 <= i < j < |r| ensures r[i] != r[j] && SeenBefore(cs, r[i], r[j]) {
          if j == |o| {
            assert r[i] == o[i] && o[i] in Departments(init);
            SeenBeforeNew(init, c, o[i], d);
          } else {
            assert r[i] == o[i] && r[j] == o[j];
          }
        }
      }
    }
  }

  /** The second loop's result: each bucket ranked and cut to `max(1, top)`. */
  function ChooseEach(buckets: map<string, seq<Candidate>>, top: int): map<string, seq<Candidate>> {
    map d | d in buckets :: Take(Ranked(buckets[d]), Quota(top))
  }

  /** Ranking and cutting the buckets built one student at a time is the
      declarative choice. */
  lemma ChooseEachGrouped(cs: seq<Candidate>, top: int)
    ensures ChooseEach(Grouped(cs), top) == Representatives(cs, top)
  {
    GroupedSpec(cs);
  }

  /** A department is chosen from exactly when one of its students is scored. */
  lemma RepresentativesKeys(cs: seq<Candidate>, top: int)
    ensures forall d :: d in Representatives(cs, top) <==> exists c :: c in cs && DeptKey(c.student) == d
  {
  }

  /** What sorting a department's bucket gives: a stable ordering of the same
      candidates, by descending score. */
  lemma RankedSpec(b: seq<Candidate>)
    ensures multiset(Ranked(b)) == multiset(b) && |Ranked(b)| == |b|
    ensures SortedBy(Ranked(b), ScoreKey(), Flip(RealLess()))
    ensures Stable(Ranked(b), b, ScoreKey())
  {
    NumberOrders();
    FlipIsStrictTotalOrder(RealLess());
    MergeSortCorrect(b, ScoreKey(), Flip(RealLess()));
    assert |multiset(Ranked(b))| == |multiset(b)|;
  }

  /** The chosen members of a department: between one and the quota of them,
      all from that department, by descending score. */
  lemma ChosenMembers(cs: seq<Candidate>, top: int, d: string)
    requires d in Representatives(cs, top)
    ensures var r := Representatives(cs, top)[d];
      && 1 <= |r| <= Quota(top)
      && |r| == (if |Bucket(cs, d)| <= Quota(top) then |Bucket(cs, d)| else Quota(top))
      && (forall c :: c in r ==> c in cs && DeptKey(c.student) == d)
      && SortedBy(r, ScoreKey(), Flip(RealLess()))
  {
    var b := Bucket(cs, d);
    var ranked := Ranked(b);
    var r := Take(ranked, Quota(top));
    RankedSpec(b);
    BucketMembers(cs, d);
    var c0 :| c0 in cs && DeptKey(c0.student) == d;
    assert c0 in b;
    forall c | c in r ensures c in b {
      assert c in multiset(ranked);
    }
  }

  /** Nobody left out of a department's choice scores higher than anyone
      chosen from it. */
  lemma ChosenAreBest(cs: seq<Candidate>, top: int, d: string)
    requires d in Representatives(cs, top)
    ensures var r := Representatives(cs, top)[d];
      forall c, x :: c in Bucket(cs, d) && c !in r && x in r ==> c.score <= x.score
  {
    var b := Bucket(cs, d);
    var ranked := Ranked(b);
    var r := Take(ranked, Quota(top));
    RankedSpec(b);
    forall c, x | c in b && c !in r && x in r ensures c.score <= x.score {
      assert c in multiset(ranked);
      var j :| 0 <= j < |ranked| && ranked[j] == c;
      var i :| 0 <= i < |r| && r[i] == x;
      assert j >= |r|;
      assert Leq(Flip(RealLess()), ScoreKey()(ranked[i]), ScoreKey()(ranked[j]));
    }
  }
}
