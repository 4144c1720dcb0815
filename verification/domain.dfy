/**
 * The entities of the course-authoring backend and the store that holds them.
 * The store is an immutable value: every service operation maps one store to
 * the next. Identifiers are abstract naturals; a new entity takes an id that no
 * entity in the store carries (the model of a freshly generated UUID).
 */
module Domain {
  import opened Wrappers
  import opened Ordering

  type UserId = nat
  type CourseId = nat
  type SectionId = nat
  type LessonId = nat
  type AssignmentId = nat

  datatype Role = Admin | Teacher | Student

  /** The authenticated caller, as handed over by the security layer. */
  datatype User = User(id: UserId, roles: set<Role>)

  /** Moderation status of a course. */
  datatype Status = Draft | Pending | Approved | Rejected

  datatype Course = Course(
    code: string,
    title: string,
    description: Option<string>,
    status: Status,
    teacher: UserId,
    enrolled: set<UserId>)

  datatype Section = Section(
    course: CourseId,
    title: string,
    description: Option<string>,
    orderIndex: Int32)

  /** File metadata owned by a lesson; a lesson lists its attachments by `displayOrder`. */
  datatype Attachment = Attachment(
    fileName: string,
    originalFileName: string,
    fileUrl: string,
    fileSize: int,
    contentType: string,
    fileType: string,
    displayOrder: Int32)

  /**
   * A lesson always has a section. Its attachments are part of the lesson value
   * (cascade all, orphan removal), kept here in storage order.
   */
  datatype Lesson = Lesson(
    section: SectionId,
    title: string,
    content: Option<string>,
    description: Option<string>,
    videoUrl: Option<string>,
    durationMinutes: Int32,
    orderIndex: Int32,
    attachments: seq<Attachment>)

  /** An explicit grant of one lesson to one student; `createdAt` is written once. */
  datatype Assignment = Assignment(lesson: LessonId, student: UserId, createdAt: int)

  datatype Store = Store(
    courses: map<CourseId, Course>,
    sections: map<SectionId, Section>,
    lessons: map<LessonId, Lesson>,
    assignments: map<AssignmentId, Assignment>,
    users: set<UserId>)

  /** The kinds of failure a service call reports. */
  datatype Error = NotFound | Forbidden | InvalidState | Conflict | IndexOverflow

  /** The outcome of a service call together with the store after it. */
  datatype Reply<+T> = Reply(result: Result<T, Error>, store: Store)

  /** Rejects a call: the error is reported and the store is left as it was. */
  function Reject<T>(s: Store, e: Error): (r: Reply<T>)
    ensures r.result.Failure? && r.result.error == e && r.store == s
  {
    Reply(Failure(e), s)
  }

  // ---------------------------------------------------------------- invariants

  /** At most one course per code. */
  predicate UniqueCodes(courses: map<CourseId, Course>)
  {
    forall c, d :: c in courses && d in courses && courses[c].code == courses[d].code ==> c == d
  }

  /** At most one assignment per (lesson, student) pair. */
  predicate UniquePairs(assignments: map<AssignmentId, Assignment>)
  {
    forall a, b ::
      (a in assignments && b in assignments
       && assignments[a].lesson == assignments[b].lesson
       && assignments[a].student == assignments[b].student) ==> a == b
  }

  /**
   * The constraints the database keeps: every section has its course, every
   * lesson its section, every assignment its lesson and its student; course
   * codes and assignment pairs are unique.
   */
  predicate Valid(s: Store)
  {
    && (forall x :: x in s.sections ==> s.sections[x].course in s.courses)
    && (forall l :: l in s.lessons ==> s.lessons[l].section in s.sections)
    && (forall a :: a in s.assignments ==> s.assignments[a].lesson in s.lessons)
    && (forall a :: a in s.assignments ==> s.assignments[a].student in s.users)
    && UniqueCodes(s.courses)
    && UniquePairs(s.assignments)
  }

  // ------------------------------------------------------------- identifiers

  lemma {:induction false} LargestExists(ks: set<nat>)
    requires ks != {}
    ensures exists k :: k in ks && forall j :: j in ks ==> j <= k
  {
    var x :| x in ks;
    if ks - {x} == {} {
      assert ks == {x};
    } else {
      LargestExists(ks - {x});
      var y :| y in ks - {x} && forall j :: j in ks - {x} ==> j <= y;
      forall j | j in ks
        ensures j <= if x <= y then y else x
      {
        if j != x {
          assert j in ks - {x};
        }
      }
    }
  }

  /** A number above every element of `ks`. */
  function Bound(ks: set<nat>): (b: nat)
    ensures forall k :: k in ks ==> k < b
  {
    if ks == {} then 0
    else
      LargestExists(ks);
      var m :| m in ks && forall j :: j in ks ==> j <= m;
      m + 1
  }

  /** An id carried by no course, section, lesson or assignment of the store. */
  function NewId(s: Store): (id: nat)
    ensures id !in s.courses && id !in s.sections && id !in s.lessons && id !in s.assignments
  {
    Bound(s.courses.Keys + s.sections.Keys + s.lessons.Keys + s.assignments.Keys)
  }

  // ------------------------------------------------------------- enumeration

  /** The entries of `m` with key below `n` that satisfy `p`, in ascending key order. */
  function EntriesBelow<V(!new)>(m: map<nat, V>, p: V -> bool, n: nat): (r: seq<(nat, V)>)
    ensures forall e :: e in r <==> e.0 < n && e.0 in m && m[e.0] == e.1 && p(e.1)
    ensures forall i, j :: 0 <= i < j < |r| ==> r[i].0 < r[j].0
  {
    if n == 0 then []
    else
      var rest := EntriesBelow(m, p, n - 1);
      if n - 1 in m && p(m[n - 1]) then rest + [(n - 1, m[n - 1])] else rest
  }

  /** Every entry of `m` that satisfies `p`, in ascending key order. */
  function Entries<V(!new)>(m: map<nat, V>, p: V -> bool): (r: seq<(nat, V)>)
    ensures forall e :: e in r <==> e.0 in m && m[e.0] == e.1 && p(e.1)
    ensures forall i, j :: 0 <= i < j < |r| ==> r[i].0 < r[j].0
  {
    EntriesBelow(m, p, Bound(m.Keys))
  }

  /** A sequence whose keys strictly increase holds each entry exactly once. */
  lemma {:induction false} StrictKeysOccurOnce<V(!new)>(r: seq<(nat, V)>, e: (nat, V))
    requires forall i, j :: 0 <= i < j < |r| ==> r[i].0 < r[j].0
    ensures multiset(r)[e] == if e in r then 1 else 0
  {
    if r != [] {
      assert r == [r[0]] + r[1..];
      StrictKeysOccurOnce(r[1..], e);
      if e == r[0] {
        assert e !in r[1..];
      }
    }
  }

  /** The sections of course `c`, in ascending id order. */
  function SectionsOf(s: Store, c: CourseId): seq<(SectionId, Section)>
  {
    Entries(s.sections, (x: Section) => x.course == c)
  }

  /** The lessons of section `x`, in ascending id order. */
  function LessonsOf(s: Store, x: SectionId): seq<(LessonId, Lesson)>
  {
    Entries(s.lessons, (l: Lesson) => l.section == x)
  }

  /** The order indices of a sequence of entries, position by position. */
  function OrderIndices<V>(es: seq<(nat, V)>, index: V -> Int32): (r: seq<Int32>)
    ensures |r| == |es|
    ensures forall i :: 0 <= i < |es| ==> r[i] == index(es[i].1)
  {
    if es == [] then [] else [index(es[0].1)] + OrderIndices(es[1..], index)
  }

  /** The order indices of the sections of course `c`. */
  function SectionIndices(s: Store, c: CourseId): (r: seq<Int32>)
    ensures forall x :: x in s.sections && s.sections[x].course == c ==> s.sections[x].orderIndex in r
    ensures forall i :: 0 <= i < |r| ==>
              exists x :: x in s.sections && s.sections[x].course == c && s.sections[x].orderIndex == r[i]
  {
    var es := SectionsOf(s, c);
    var r := OrderIndices(es, (x: Section) => x.orderIndex);
    assert forall x :: x in s.sections && s.sections[x].course == c ==> s.sections[x].orderIndex in r by {
      forall x | x in s.sections && s.sections[x].course == c
        ensures s.sections[x].orderIndex in r
      {
        assert (x, s.sections[x]) in es;
        var i :| 0 <= i < |es| && es[i] == (x, s.sections[x]);
        assert r[i] == s.sections[x].orderIndex;
      }
    }
    assert forall i :: 0 <= i < |r| ==> es[i] in es;
    r
  }

  /** The order indices of the lessons of section `x`. */
  function LessonIndices(s: Store, x: SectionId): (r: seq<Int32>)
    ensures forall l :: l in s.lessons && s.lessons[l].section == x ==> s.lessons[l].orderIndex in r
    ensures forall i :: 0 <= i < |r| ==>
              exists l :: l in s.lessons && s.lessons[l].section == x && s.lessons[l].orderIndex == r[i]
  {
    var es := LessonsOf(s, x);
    var r := OrderIndices(es, (l: Lesson) => l.orderIndex);
    assert forall l :: l in s.lessons && s.lessons[l].section == x ==> s.lessons[l].orderIndex in r by {
      forall l | l in s.lessons && s.lessons[l].section == x
        ensures s.lessons[l].orderIndex in r
      {
        assert (l, s.lessons[l]) in es;
        var i :| 0 <= i < |es| && es[i] == (l, s.lessons[l]);
        assert r[i] == s.lessons[l].orderIndex;
      }
    }
    assert forall i :: 0 <= i < |r| ==> es[i] in es;
    r
  }

  // ----------------------------------------------------------- cascade delete

  /** Removes the given lessons, their attachments with them, and every assignment of them. */
  function RemoveLessons(s: Store, doomed: set<LessonId>): (r: Store)
    ensures r.courses == s.courses && r.sections == s.sections && r.users == s.users
    ensures r.lessons.Keys == s.lessons.Keys - doomed
    ensures forall l :: l in r.lessons ==> r.lessons[l] == s.lessons[l]
    ensures forall a :: a in r.assignments <==> a in s.assignments && s.assignments[a].lesson !in doomed
    ensures forall a :: a in r.assignments ==> r.assignments[a] == s.assignments[a]
  {
    s.(lessons := map l | l in s.lessons && l !in doomed :: s.lessons[l],
       assignments := map a | a in s.assignments && s.assignments[a].lesson !in doomed :: s.assignments[a])
  }

  /** Removes the given sections and, by cascade, their lessons and those lessons' assignments. */
  function RemoveSections(s: Store, doomed: set<SectionId>): (r: Store)
    ensures r.courses == s.courses && r.users == s.users
    ensures r.sections.Keys == s.sections.Keys - doomed
    ensures forall x :: x in r.sections ==> r.sections[x] == s.sections[x]
    ensures forall l :: l in r.lessons <==> l in s.lessons && s.lessons[l].section !in doomed
    ensures forall l :: l in r.lessons ==> r.lessons[l] == s.lessons[l]
    ensures forall a :: a in r.assignments <==>
              a in s.assignments && !(s.assignments[a].lesson in s.lessons && s.lessons[s.assignments[a].lesson].section in doomed)
    ensures forall a :: a in r.assignments ==> r.assignments[a] == s.assignments[a]
  {
    var lessonsOf := set l | l in s.lessons && s.lessons[l].section in doomed;
    RemoveLessons(s.(sections := map x | x in s.sections && x !in doomed :: s.sections[x]), lessonsOf)
  }

  /** Lesson `l` is stored and sits in a stored section of course `c`. */
  predicate LessonUnder(s: Store, l: LessonId, c: CourseId)
  {
    l in s.lessons && s.lessons[l].section in s.sections && s.sections[s.lessons[l].section].course == c
  }

  /** Removes course `c` and, by cascade, everything it owns. */
  function RemoveCourse(s: Store, c: CourseId): (r: Store)
    ensures r.courses == s.courses - {c} && r.users == s.users
    ensures forall x :: x in r.sections <==> x in s.sections && s.sections[x].course != c
    ensures forall x :: x in r.sections ==> r.sections[x] == s.sections[x]
    ensures forall l :: l in r.lessons <==> l in s.lessons && !LessonUnder(s, l, c)
    ensures forall l :: l in r.lessons ==> r.lessons[l] == s.lessons[l]
    ensures forall a :: a in r.assignments <==> a in s.assignments && !LessonUnder(s, s.assignments[a].lesson, c)
    ensures forall a :: a in r.assignments ==> r.assignments[a] == s.assignments[a]
  {
    var sectionsOf := set x | x in s.sections && s.sections[x].course == c;
    RemoveSections(s.(courses := s.courses - {c}), sectionsOf)
  }

  /** Removing lessons keeps the database constraints. */
  lemma RemoveLessonsKeepsValid(s: Store, doomed: set<LessonId>)
    requires Valid(s)
    ensures Valid(RemoveLessons(s, doomed))
  {
  }

  /** Removing sections, with their lessons, keeps the database constraints. */
  lemma RemoveSectionsKeepsValid(s: Store, doomed: set<SectionId>)
    requires Valid(s)
    ensures Valid(RemoveSections(s, doomed))
  {
  }

  /** Removing a course, with everything it owns, keeps the database constraints. */
  lemma RemoveCourseKeepsValid(s: Store, c: CourseId)
    requires Valid(s)
    ensures Valid(RemoveCourse(s, c))
  {
  }
}
