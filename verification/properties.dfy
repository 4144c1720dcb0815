/**
 * Relations between the operations: undoing a creation, repeating a call,
 * the independence of lesson edits from the moderation status, and the
 * absence of any role bypass.
 */
module Properties {
  import opened Wrappers
  import opened Ordering
  import opened Domain
  import opened Lifecycle
  import opened Access
  import opened CourseService
  import opened SectionService
  import opened LessonService
  import opened AssignmentService

  /** Deleting a course just created by the same teacher gives back the store it was created in. */
  lemma DeleteUndoesCreateCourse(s: Store, teacher: User, q: CreateCourseRequest)
    requires Valid(s)
    requires CreateCourse(s, teacher, q).result.Success?
    ensures var c := CreateCourse(s, teacher, q);
            DeleteCourse(c.store, c.result.value, teacher) == Reply(Success(()), s)
  {
    var c := CreateCourse(s, teacher, q);
    DeleteChildlessCourse(s, c.store, c.result.value, teacher);
  }

  /** Deleting a course that owns no section, DRAFT and of the caller, restores the store without it. */
  lemma DeleteChildlessCourse(s: Store, t: Store, id: CourseId, actor: User)
    requires Valid(s) && id !in s.courses
    requires id in t.courses && t == s.(courses := s.courses[id := t.courses[id]])
    requires Owns(t, actor, id) && Deletable(t.courses[id].status)
    ensures DeleteCourse(t, id, actor) == Reply(Success(()), s)
  {
    RemoveCourseWithoutSections(t, id);
    assert t.courses - {id} == s.courses;
  }

  /** Removing a course that owns no section removes the course and nothing else. */
  lemma RemoveCourseWithoutSections(t: Store, id: CourseId)
    requires forall x :: x in t.sections ==> t.sections[x].course != id
    ensures RemoveCourse(t, id) == t.(courses := t.courses - {id})
  {
    var u := RemoveCourse(t, id);
    assert u.sections == t.sections;
    assert u.lessons == t.lessons;
    assert u.assignments == t.assignments;
  }

  /** Deleting a section that owns no lesson, from an editable course of the caller, restores the store without it. */
  lemma DeleteChildlessSection(s: Store, t: Store, id: SectionId, actor: User)
    requires Valid(s) && id !in s.sections
    requires id in t.sections && t == s.(sections := s.sections[id := t.sections[id]])
    requires t.sections[id].course in s.courses
    requires Owns(s, actor, t.sections[id].course) && Editable(s.courses[t.sections[id].course].status)
    ensures DeleteSection(t, id, actor) == Reply(Success(()), s)
  {
  }

  /** Deleting a section just created by the same caller gives back the store it was created in. */
  lemma DeleteUndoesCreateSection(s: Store, course: CourseId, actor: User, q: CreateSectionRequest, emptyMax: Int32)
    requires Valid(s)
    requires CreateSection(s, course, actor, q, emptyMax).result.Success?
    ensures var c := CreateSection(s, course, actor, q, emptyMax);
            DeleteSection(c.store, c.result.value, actor) == Reply(Success(()), s)
  {
    var c := CreateSection(s, course, actor, q, emptyMax);
    DeleteChildlessSection(s, c.store, c.result.value, actor);
  }

  /** Deleting a lesson just created by the same caller gives back the store it was created in. */
  lemma DeleteUndoesCreateLesson(s: Store, section: SectionId, actor: User, q: CreateLessonRequest, emptyMax: Int32)
    requires Valid(s)
    requires CreateLesson(s, section, actor, q, emptyMax).result.Success?
    ensures var c := CreateLesson(s, section, actor, q, emptyMax);
            DeleteLesson(c.store, c.result.value, actor) == Reply(Success(()), s)
  {
    var c := CreateLesson(s, section, actor, q, emptyMax);
    var id := c.result.value;
    var t := RemoveLessons(c.store, {id});
    assert t.lessons == s.lessons;
    assert t.assignments == s.assignments;
  }

  /**
   * Unassigning a pair that an assignment has just created removes the record
   * again, but the enrollment the assignment made stays.
   */
  lemma UnassignUndoesAssignButKeepsEnrollment(s: Store, l: LessonId, student: UserId, actor: User, now: int)
    requires FindPair(s.assignments, l, student).None?
    requires AssignLessonToStudent(s, l, student, actor, now).result.Success?
    ensures var a := AssignLessonToStudent(s, l, student, actor, now);
            var u := UnassignLessonFromStudent(a.store, l, student, actor);
            && u.result.Success?
            && u.store.assignments == s.assignments
            && u.store.courses == a.store.courses
            && student in u.store.courses[LessonCourse(s, l).value].enrolled
  {
  }

  /** Assigning the same pair again returns the same record and changes nothing. */
  lemma AssignIsIdempotent(s: Store, l: LessonId, student: UserId, actor: User, now: int, later: int)
    requires AssignLessonToStudent(s, l, student, actor, now).result.Success?
    ensures var a := AssignLessonToStudent(s, l, student, actor, now);
            AssignLessonToStudent(a.store, l, student, actor, later) == a
  {
  }

  /** Unassigning twice is the same as unassigning once. */
  lemma UnassignIsIdempotent(s: Store, l: LessonId, student: UserId, actor: User)
    ensures var u := UnassignLessonFromStudent(s, l, student, actor);
            UnassignLessonFromStudent(u.store, l, student, actor) == u
  {
  }

  /** A course that has been submitted cannot be submitted again, and the failed call changes nothing. */
  lemma SecondSubmitFails(s: Store, c: CourseId, actor: User)
    requires SubmitForApproval(s, c, actor).result.Success?
    ensures var t := SubmitForApproval(s, c, actor).store;
            SubmitForApproval(t, c, actor) == Reply(Failure(InvalidState), t)
  {
  }

  /** A second enrollment of the same student is a Conflict that leaves the store as it was. */
  lemma SecondEnrollConflicts(s: Store, c: CourseId, student: User)
    requires EnrollStudent(s, c, student).result.Success?
    ensures var t := EnrollStudent(s, c, student).store;
            EnrollStudent(t, c, student) == Reply(Failure(Conflict), t)
  {
  }

  /** An update that sends every field as null changes nothing, once it is allowed at all. */
  lemma EmptyUpdatesChangeNothing(s: Store, c: CourseId, x: SectionId, l: LessonId, actor: User)
    ensures UpdateCourse(s, c, actor, UpdateCourseRequest(None, None, None)).store == s
    ensures UpdateSection(s, x, actor, UpdateSectionRequest(None, None, None)).store == s
    ensures UpdateLesson(s, l, actor, UpdateLessonRequest(None, None, None, None, None, None)).store == s
  {
  }

  /**
   * Lesson operations do not look at the moderation status: changing the
   * status of any course changes none of their answers, so the owner creates,
   * edits and deletes lessons of a PENDING or APPROVED course as of a DRAFT one.
   */
  lemma LessonEditsIgnoreStatus(s: Store, c: CourseId, st: Status, x: SectionId, l: LessonId, actor: User,
                                qc: CreateLessonRequest, qu: UpdateLessonRequest, emptyMax: Int32)
    requires c in s.courses
    ensures var t := s.(courses := s.courses[c := s.courses[c].(status := st)]);
            && CreateLesson(t, x, actor, qc, emptyMax).result == CreateLesson(s, x, actor, qc, emptyMax).result
            && UpdateLesson(t, l, actor, qu).result == UpdateLesson(s, l, actor, qu).result
            && DeleteLesson(t, l, actor).result == DeleteLesson(s, l, actor).result
  {
    var t := s.(courses := s.courses[c := s.courses[c].(status := st)]);
    StatusChangeKeepsResolution(s, c, st, x, l);
    assert CreateLesson(t, x, actor, qc, emptyMax).result == CreateLesson(s, x, actor, qc, emptyMax).result;
    assert UpdateLesson(t, l, actor, qu).result == UpdateLesson(s, l, actor, qu).result;
  }

  /** A status change moves no entity: chains, owners, fresh ids and sibling indices stay as they were. */
  lemma StatusChangeKeepsResolution(s: Store, c: CourseId, st: Status, x: SectionId, l: LessonId)
    requires c in s.courses
    ensures var t := s.(courses := s.courses[c := s.courses[c].(status := st)]);
            && SectionCourse(t, x) == SectionCourse(s, x)
            && LessonCourse(t, l) == LessonCourse(s, l)
            && (forall k :: k in s.courses ==> t.courses[k].teacher == s.courses[k].teacher)
            && NewId(t) == NewId(s)
            && LessonIndices(t, x) == LessonIndices(s, x)
  {
    var t := s.(courses := s.courses[c := s.courses[c].(status := st)]);
    assert t.courses.Keys == s.courses.Keys;
  }

  /**
   * Sections of a PENDING or APPROVED course are frozen even for its owner,
   * while the owner's lesson edits and deletes there succeed.
   */
  lemma SectionsFrozenOutsideEditing(s: Store, d: SectionId, l: LessonId, actor: User, qs: UpdateSectionRequest, qu: UpdateLessonRequest)
    requires SectionCourse(s, d).Some? && Owns(s, actor, SectionCourse(s, d).value)
    requires s.courses[SectionCourse(s, d).value].status in {Pending, Approved}
    requires LessonCourse(s, l).Some? && LessonCourse(s, l) == SectionCourse(s, d)
    ensures UpdateSection(s, d, actor, qs) == Reply(Failure(InvalidState), s)
    ensures DeleteSection(s, d, actor) == Reply(Failure(InvalidState), s)
    ensures UpdateLesson(s, l, actor, qu).result.Success?
    ensures DeleteLesson(s, l, actor).result.Success?
  {
  }

  /**
   * Holding the ADMIN role grants nothing: a caller who does not own the
   * lesson's course is refused assignment, unassignment and listing.
   */
  lemma AdminHasNoBypass(s: Store, l: LessonId, student: UserId, admin: User, now: int)
    requires Admin in admin.roles
    requires LessonCourse(s, l).Some? && !Owns(s, admin, LessonCourse(s, l).value)
    requires student in s.users
    ensures AssignLessonToStudent(s, l, student, admin, now) == Reply(Failure(Forbidden), s)
    ensures UnassignLessonFromStudent(s, l, student, admin) == Reply(Failure(Forbidden), s)
    ensures ListAssignmentsByLesson(s, l, admin) == Failure(Forbidden)
  {
  }

  /** Sections created one after another without explicit indices get strictly increasing indices. */
  lemma ConsecutiveSectionsIncrease(s: Store, c: CourseId, actor: User, q1: CreateSectionRequest, q2: CreateSectionRequest, emptyMax: Int32)
    requires q1.orderIndex.None? && q2.orderIndex.None?
    requires CreateSection(s, c, actor, q1, emptyMax).result.Success?
    requires CreateSection(CreateSection(s, c, actor, q1, emptyMax).store, c, actor, q2, emptyMax).result.Success?
    ensures var a := CreateSection(s, c, actor, q1, emptyMax);
            var b := CreateSection(a.store, c, actor, q2, emptyMax);
            a.store.sections[a.result.value].orderIndex < b.store.sections[b.result.value].orderIndex
  {
  }

  /**
   * Creates one section per title, in order, none with an explicit index, with
   * a maximum query that reports -1 for a course without sections. Returns the
   * final store and the ids of the sections created.
   */
  function CreateInOrder(s: Store, c: CourseId, actor: User, titles: seq<string>): (Store, seq<SectionId>)
  {
    if titles == [] then (s, [])
    else
      var (t, ids) := CreateInOrder(s, c, actor, titles[..|titles| - 1]);
      var r := CreateSection(t, c, actor, CreateSectionRequest(titles[|titles| - 1], None, None), -1);
      if r.result.Success? then (r.store, ids + [r.result.value]) else (r.store, ids)
  }

  /** The sections of course `c` in `t` are exactly `ids`, and the i-th of them has order index i. */
  predicate IndexedInCreationOrder(t: Store, c: CourseId, ids: seq<SectionId>)
  {
    && (forall i :: 0 <= i < |ids| ==> ids[i] in t.sections && t.sections[ids[i]].course == c)
    && (forall i :: 0 <= i < |ids| ==> t.sections[ids[i]].orderIndex == i)
    && (forall x :: x in t.sections && t.sections[x].course == c ==> x in ids)
  }

  /** When the sections of a course carry 0 .. n-1, the largest index the query reports is n-1. */
  lemma MaxOfCreationOrder(t: Store, c: CourseId, ids: seq<SectionId>)
    requires IndexedInCreationOrder(t, c, ids)
    ensures MaxOr(SectionIndices(t, c), -1) == |ids| - 1
  {
    var xs := SectionIndices(t, c);
    var m := MaxOr(xs, -1);
    if ids != [] {
      var n := |ids|;
      assert t.sections[ids[n - 1]].orderIndex in xs;
      var j :| 0 <= j < |xs| && xs[j] == m;
      var x :| x in t.sections && t.sections[x].course == c && t.sections[x].orderIndex == xs[j];
      var i :| 0 <= i < |ids| && ids[i] == x;
    }
  }

  /** One more creation without an index extends the numbering by the next index. */
  lemma CreateNextInOrder(t: Store, c: CourseId, actor: User, ids: seq<SectionId>, title: string)
    requires c in t.courses && Owns(t, actor, c) && Editable(t.courses[c].status)
    requires IndexedInCreationOrder(t, c, ids)
    requires |ids| < INT32_MAX
    ensures var r := CreateSection(t, c, actor, CreateSectionRequest(title, None, None), -1);
            && r.result.Success?
            && IndexedInCreationOrder(r.store, c, ids + [r.result.value])
            && r.store.courses == t.courses
  {
    MaxOfCreationOrder(t, c, ids);
    var r := CreateSection(t, c, actor, CreateSectionRequest(title, None, None), -1);
    var id := r.result.value;
    var ids' := ids + [id];
    assert forall i :: 0 <= i < |ids| ==> ids'[i] == ids[i];
  }

  /**
   * In a DRAFT or REJECTED course of the caller that has no sections yet,
   * sections created one after another without explicit indices get the
   * indices 0, 1, 2, ... in creation order, and every creation succeeds.
   */
  lemma {:induction false} SequentialIndicesFromZero(s: Store, c: CourseId, actor: User, titles: seq<string>)
    requires c in s.courses && Owns(s, actor, c) && Editable(s.courses[c].status)
    requires forall x :: x in s.sections ==> s.sections[x].course != c
    requires |titles| <= INT32_MAX
    ensures |CreateInOrder(s, c, actor, titles).1| == |titles|
    ensures IndexedInCreationOrder(CreateInOrder(s, c, actor, titles).0, c, CreateInOrder(s, c, actor, titles).1)
    ensures CreateInOrder(s, c, actor, titles).0.courses == s.courses
  {
    if titles != [] {
      var k := |titles| - 1;
      SequentialIndicesFromZero(s, c, actor, titles[..k]);
      var (t, ids) := CreateInOrder(s, c, actor, titles[..k]);
      CreateNextInOrder(t, c, actor, ids, titles[k]);
    }
  }
}
