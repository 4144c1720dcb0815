/**
 * Targeting of single lessons to single students. Only the teacher owning the
 * lesson's course may assign, unassign or list; no role is exempt. Assigning
 * enrolls the student in the course when needed and never creates a second
 * record for the same (lesson, student) pair.
 */
module AssignmentService {
  import opened Wrappers
  import opened Domain
  import opened Access

  /** The record for the pair (`lesson`, `student`), if there is one. */
  function FindPair(m: map<AssignmentId, Assignment>, lesson: LessonId, student: UserId): (r: Option<AssignmentId>)
    ensures r.Some? ==> r.value in m && m[r.value].lesson == lesson && m[r.value].student == student
    ensures r.None? ==> forall a :: a in m ==> !(m[a].lesson == lesson && m[a].student == student)
  {
    var matches := Entries(m, (x: Assignment) => x.lesson == lesson && x.student == student);
    if matches == [] then
      assert forall a :: a in m && m[a].lesson == lesson && m[a].student == student ==> (a, m[a]) in matches;
      None
    else
      assert matches[0] in matches;
      Some(matches[0].0)
  }

  /**
   * Grants a lesson to a student. Checks, in order: the lesson resolves, the
   * student exists, the caller owns the lesson's course. The student is added
   * to the course's enrollment if missing; an existing record for the pair is
   * returned as it is, otherwise one record stamped `now` is created.
   */
  function AssignLessonToStudent(s: Store, lessonId: LessonId, studentId: UserId, actor: User, now: int)
    : (r: Reply<AssignmentId>)
    ensures r.result.Failure? ==> r.store == s
    ensures r.result == Failure(NotFound) <==> LessonCourse(s, lessonId).None? || studentId !in s.users
    ensures r.result == Failure(Forbidden) <==>
              && LessonCourse(s, lessonId).Some? && studentId in s.users
              && !Owns(s, actor, LessonCourse(s, lessonId).value)
    ensures r.result.Success? <==>
              LessonCourse(s, lessonId).Some? && studentId in s.users && Owns(s, actor, LessonCourse(s, lessonId).value)
    ensures r.result.Success? ==>
              var c := LessonCourse(s, lessonId).value;
              var a := r.result.value;
              && r.store.sections == s.sections && r.store.lessons == s.lessons && r.store.users == s.users
              && r.store.courses == s.courses[c := s.courses[c].(enrolled := s.courses[c].enrolled + {studentId})]
              && a in r.store.assignments
              && r.store.assignments[a].lesson == lessonId
              && r.store.assignments[a].student == studentId
    ensures r.result.Success? && FindPair(s.assignments, lessonId, studentId).Some? ==>
              r.result.value == FindPair(s.assignments, lessonId, studentId).value
              && r.store.assignments == s.assignments
    ensures r.result.Success? && FindPair(s.assignments, lessonId, studentId).None? ==>
              && r.result.value !in s.assignments
              && r.store.assignments == s.assignments[r.result.value := Assignment(lessonId, studentId, now)]
    ensures UniquePairs(s.assignments) ==> UniquePairs(r.store.assignments)
  {
    match LessonCourse(s, lessonId)
    case None => Reject(s, NotFound)
    case Some(c) =>
      if studentId !in s.users then Reject(s, NotFound)
      else if s.courses[c].teacher != actor.id then Reject(s, Forbidden)
      else
        var course := s.courses[c];
        var enrolled :=
          if studentId in course.enrolled then
            assert course.(enrolled := course.enrolled + {studentId}) == course;
            assert s.courses[c := course] == s.courses;
            s
          else s.(courses := s.courses[c := course.(enrolled := course.enrolled + {studentId})]);
        match FindPair(s.assignments, lessonId, studentId)
        case Some(a) => Reply(Success(a), enrolled)
        case None =>
          var id := NewId(s);
          Reply(Success(id), enrolled.(assignments := s.assignments[id := Assignment(lessonId, studentId, now)]))
  }

  /**
   * Withdraws a lesson from a student. Checks, in order: the lesson resolves,
   * the caller owns its course. Removes the pair's record when there is one
   * and succeeds without change when there is none.
   */
  function UnassignLessonFromStudent(s: Store, lessonId: LessonId, studentId: UserId, actor: User)
    : (r: Reply<()>)
    ensures r.result.Failure? ==> r.store == s
    ensures r.result == Failure(NotFound) <==> LessonCourse(s, lessonId).None?
    ensures r.result == Failure(Forbidden) <==>
              LessonCourse(s, lessonId).Some? && !Owns(s, actor, LessonCourse(s, lessonId).value)
    ensures r.result.Success? <==> LessonCourse(s, lessonId).Some? && Owns(s, actor, LessonCourse(s, lessonId).value)
    ensures r.result.Success? ==>
              && r.store == s.(assignments := r.store.assignments)
              && (forall a :: a in r.store.assignments <==>
                    a in s.assignments && !(s.assignments[a].lesson == lessonId && s.assignments[a].student == studentId))
              && (forall a :: a in r.store.assignments ==> r.store.assignments[a] == s.assignments[a])
  {
    match LessonCourse(s, lessonId)
    case None => Reject(s, NotFound)
    case Some(c) =>
      if s.courses[c].teacher != actor.id then Reject(s, Forbidden)
      else
        var kept := map a | a in s.assignments
                              && !(s.assignments[a].lesson == lessonId && s.assignments[a].student == studentId)
                          :: s.assignments[a];
        Reply(Success(()), s.(assignments := kept))
  }

  /**
   * The assignments of a lesson, for the owner of its course: each assignment
   * whose lesson is `lessonId` exactly once, in ascending id order.
   */
  function ListAssignmentsByLesson(s: Store, lessonId: LessonId, actor: User)
    : (r: Result<seq<(AssignmentId, Assignment)>, Error>)
    ensures r.Success? <==> LessonCourse(s, lessonId).Some? && Owns(s, actor, LessonCourse(s, lessonId).value)
    ensures r.Failure? ==> r.error == (if LessonCourse(s, lessonId).None? then NotFound else Forbidden)
    ensures r.Success? ==>
              forall e :: e in r.value <==> e.0 in s.assignments && s.assignments[e.0] == e.1 && e.1.lesson == lessonId
    ensures r.Success? ==> forall i, j :: 0 <= i < j < |r.value| ==> r.value[i].0 < r.value[j].0
  {
    match LessonCourse(s, lessonId)
    case None => Failure(NotFound)
    case Some(c) =>
      if s.courses[c].teacher != actor.id then Failure(Forbidden)
      else Success(Entries(s.assignments, (x: Assignment) => x.lesson == lessonId))
  }
}
