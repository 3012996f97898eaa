/**
 * Specification functions of the record store's queries and updates, over
 * plain values: the first-match search by id, the grade filters and the
 * enrollment map. The class in student_manager.dfy is proved against them.
 */
module Records {
  import opened JavaLang
  import opened Grades

  // ---------------------------------------------------------------------
  // First match by id
  // ---------------------------------------------------------------------

  /** No id among the first `k` is null or equal to `id`: a left-to-right
      scan that calls `ids[j].equals(id)` gets past position `k` unharmed. */
  predicate PassesFirst(ids: seq<JString>, id: JString, k: nat)
    requires k <= |ids|
  {
    forall j :: 0 <= j < k ==> ids[j].NonNull? && ids[j] != id
  }

  /** The position of the first id that equals `id`, scanning left to
      right and calling `equals` on each stored id; null when none does;
      NullPointer when a null stored id is reached before any match. */
  function FirstMatch(ids: seq<JString>, id: JString): (r: Completion<Nullable<nat>>)
    ensures r.Normal? && r.value.NonNull? ==>
      var k := r.value.value;
      k < |ids| && ids[k] == id && id.NonNull? && PassesFirst(ids, id, k)
    ensures forall k :: 0 <= k < |ids| && ids[k] == id && id.NonNull? && PassesFirst(ids, id, k) ==>
      r == Normal(NonNull(k))
    ensures r == Normal(Null) <==> PassesFirst(ids, id, |ids|)
    ensures r.NullPointer? <==>
      exists k :: 0 <= k < |ids| && ids[k].Null? && PassesFirst(ids, id, k)
  {
    if ids == [] then Normal(Null)
    else match Equals(ids[0], id)
      case NullPointer => NullPointer
      case Normal(true) => Normal(NonNull(0))
      case Normal(false) =>
        var rest := FirstMatch(ids[1..], id);
        assert forall j :: 1 <= j <= |ids| ==> (PassesFirst(ids, id, j) <==> PassesFirst(ids[1..], id, j - 1));
        match rest
        case Normal(NonNull(k)) => Normal(NonNull(k + 1))
        case Normal(Null) => Normal(Null)
        case NullPointer =>
          var k :| 0 <= k < |ids[1..]| && ids[1..][k].Null? && PassesFirst(ids[1..], id, k);
          assert ids[k + 1].Null? && PassesFirst(ids, id, k + 1);
          NullPointer
  }

  /** Overwriting the id at the first match for `oldId` with a non-null
      `newId` (whatever happens to later positions) makes a lookup of `newId`
      succeed, at that position or at an earlier student that already had
      `newId`; it cannot throw, since every earlier id is non-null. */
  lemma {:induction false} LookupAfterOverwrite(ids: seq<JString>, oldId: JString, k: nat,
                                                 ids': seq<JString>, newId: JString)
    requires FirstMatch(ids, oldId) == Normal(NonNull(k))
    requires newId.NonNull?
    requires |ids'| == |ids| && ids'[..k] == ids[..k] && ids'[k] == newId
    ensures var m := FirstMatch(ids', newId);
      m.Normal? && m.value.NonNull? && m.value.value <= k
  {
    assert forall j :: 0 <= j < k ==> ids'[j] == ids'[..k][j] == ids[j];
  }

  // ---------------------------------------------------------------------
  // Grade filters
  // ---------------------------------------------------------------------

  /** Which field of a grade record a filter compares. */
  datatype GradeKey = ByStudent | ByCourse

  function KeyOf(g: Grade, key: GradeKey): JString
  {
    match key
    case ByStudent => g.GetStudentId()
    case ByCourse => g.GetCourseCode()
  }

  /** The grades whose `key` field equals `want`, built by a left-to-right
      loop that calls `equals` on each record's field; NullPointer as soon
      as a record whose field is null is reached. */
  function SelectGrades(gs: seq<Grade>, key: GradeKey, want: JString): (r: Completion<seq<Grade>>)
    ensures r.NullPointer? <==> exists i :: 0 <= i < |gs| && KeyOf(gs[i], key).Null?
    ensures r.Normal? ==> |r.value| <= |gs|
    ensures r.Normal? ==> forall j :: 0 <= j < |r.value| ==> KeyOf(r.value[j], key) == want
  {
    if gs == [] then Normal([])
    else
      var init, last := gs[..|gs| - 1], gs[|gs| - 1];
      assert forall i :: 0 <= i < |init| ==> init[i] == gs[i];
      match SelectGrades(init, key, want)
      case NullPointer => NullPointer
      case Normal(prefix) =>
        match Equals(KeyOf(last, key), want)
        case NullPointer => NullPointer
        case Normal(eq) => Normal(if eq then prefix + [last] else prefix)
  }

  /** `xs` is `ys` with some elements left out, in the same order. */
  ghost predicate IsSubsequence<T>(xs: seq<T>, ys: seq<T>)
    decreases |ys|
  {
    if xs == [] then true
    else if ys == [] then false
    else if xs[|xs| - 1] == ys[|ys| - 1] then IsSubsequence(xs[..|xs| - 1], ys[..|ys| - 1])
    else IsSubsequence(xs, ys[..|ys| - 1])
  }

  /** The filter keeps insertion order: its result is the grade list with
      some records left out. */
  lemma {:induction false} SelectGradesIsSubsequence(gs: seq<Grade>, key: GradeKey, want: JString)
    requires SelectGrades(gs, key, want).Normal?
    ensures IsSubsequence(SelectGrades(gs, key, want).value, gs)
  {
    if gs != [] {
      var init, last := gs[..|gs| - 1], gs[|gs| - 1];
      SelectGradesIsSubsequence(init, key, want);
      var prefix := SelectGrades(init, key, want).value;
      var r := SelectGrades(gs, key, want).value;
      if KeyOf(last, key) == want {
        assert r[..|r| - 1] == prefix;
      } else if r != [] {
        assert KeyOf(r[|r| - 1], key) == want;
      }
    }
  }

  /** The filter drops every record whose field differs and keeps every
      occurrence of every record whose field matches. With the lemma above,
      this makes it exactly the order-preserving filter. */
  lemma {:induction false} SelectGradesKeepsMatches(gs: seq<Grade>, key: GradeKey, want: JString, g: Grade)
    requires SelectGrades(gs, key, want).Normal?
    ensures multiset(SelectGrades(gs, key, want).value)[g] ==
      if KeyOf(g, key) == want then multiset(gs)[g] else 0
  {
    if gs != [] {
      var init, last := gs[..|gs| - 1], gs[|gs| - 1];
      assert gs == init + [last];
      SelectGradesKeepsMatches(init, key, want, g);
    }
  }

  /** Appending one record changes a filter's result by that record alone:
      it is added at the end when its field matches, and nothing changes
      otherwise. */
  lemma {:induction false} SelectGradesAppend(gs: seq<Grade>, g: Grade, key: GradeKey, want: JString)
    requires KeyOf(g, key).NonNull?
    ensures SelectGrades(gs + [g], key, want) ==
      match SelectGrades(gs, key, want)
      case NullPointer => NullPointer
      case Normal(r) => Normal(if KeyOf(g, key) == want then r + [g] else r)
  {
  }

  /** `assignGrade` is not an upsert: grading the same student and course
      twice leaves both records in the filter's result, in order. */
  lemma {:induction false} RegradeKeepsBothRecords(gs: seq<Grade>, first: Grade, second: Grade,
                                                   key: GradeKey, want: JString)
    requires want.NonNull? && KeyOf(first, key) == want && KeyOf(second, key) == want
    requires SelectGrades(gs, key, want).Normal?
    ensures SelectGrades(gs + [first] + [second], key, want)
         == Normal(SelectGrades(gs, key, want).value + [first, second])
  {
    SelectGradesAppend(gs, first, key, want);
    SelectGradesAppend(gs + [first], second, key, want);
    var r := SelectGrades(gs, key, want).value;
    assert r + [first] + [second] == r + [first, second];
  }

  // ---------------------------------------------------------------------
  // Enrollments
  // ---------------------------------------------------------------------

  /** The map from student id to the course codes they were enrolled in. */
  type Enrollments = map<JString, seq<JString>>

  /** The stored list for `sid`, or an empty list for an unknown id. */
  function CoursesOf(m: Enrollments, sid: JString): seq<JString>
  {
    if sid in m then m[sid] else []
  }

  /** `computeIfAbsent(sid, new list).add(cc)`: `cc` goes at the end of the
      list for `sid`, which is created empty first if missing. Duplicates are
      kept, and no other id gains, loses or changes a list. */
  function Enroll(m: Enrollments, sid: JString, cc: JString): (r: Enrollments)
    ensures r.Keys == m.Keys + {sid}
    ensures CoursesOf(r, sid) == CoursesOf(m, sid) + [cc]
    ensures forall s :: s != sid ==> (s in r <==> s in m) && CoursesOf(r, s) == CoursesOf(m, s)
  {
    m[sid := CoursesOf(m, sid) + [cc]]
  }

  /** One enrollment request: a student id and a course code. */
  type Request = (JString, JString)

  /** The codes requested for `sid`, in request order. */
  function CodesFor(reqs: seq<Request>, sid: JString): seq<JString>
  {
    if reqs == [] then []
    else CodesFor(reqs[..|reqs| - 1], sid)
         + (if reqs[|reqs| - 1].0 == sid then [reqs[|reqs| - 1].1] else [])
  }

  /** The requests applied one after another. */
  function EnrollAll(m: Enrollments, reqs: seq<Request>): Enrollments
  {
    if reqs == [] then m
    else
      var last := reqs[|reqs| - 1];
      Enroll(EnrollAll(m, reqs[..|reqs| - 1]), last.0, last.1)
  }

  /** After any sequence of enrollments, each student's list is its old
      list followed by exactly the codes requested for it, in request order. */
  lemma {:induction false} EnrollAllKeepsRequestOrder(m: Enrollments, reqs: seq<Request>, sid: JString)
    ensures CoursesOf(EnrollAll(m, reqs), sid) == CoursesOf(m, sid) + CodesFor(reqs, sid)
  {
    if reqs != [] {
      EnrollAllKeepsRequestOrder(m, reqs[..|reqs| - 1], sid);
    }
  }
}
