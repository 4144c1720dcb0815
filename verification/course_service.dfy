/**
 * Course operations: creation, editing, submission for approval, deletion,
 * enrollment and the content view. Every operation resolves the course first
 * (NotFound), then checks ownership (Forbidden), then the lifecycle state
 * (InvalidState), then uniqueness (Conflict); a rejected call changes nothing.
 */
module CourseService {
  import opened Wrappers
  import opened Ordering
  import opened Domain
  import opened Lifecycle
  import opened Access

  datatype CreateCourseRequest = CreateCourseRequest(code: string, title: string, description: Option<string>)

  /** A field left `None` is a field the caller sent as null: it is not changed. */
  datatype UpdateCourseRequest = UpdateCourseRequest(code: Option<string>, title: Option<string>, description: Option<string>)

  /** Some course of the store already uses `code`. */
  predicate CodeTaken(s: Store, code: string)
  {
    exists c :: c in s.courses && s.courses[c].code == code
  }

  /** Looks a course up by id; an unknown id is NotFound. */
  function GetCourseById(s: Store, id: CourseId): (r: Result<Course, Error>)
    ensures r.Success? <==> id in s.courses
    ensures r.Success? ==> r.value == s.courses[id]
    ensures r.Failure? ==> r.error == NotFound
  {
    if id in s.courses then Success(s.courses[id]) else Failure(NotFound)
  }

  /**
   * Creates a DRAFT course owned by the caller, unless the code is taken.
   */
  function CreateCourse(s: Store, teacher: User, req: CreateCourseRequest): (r: Reply<CourseId>)
    ensures r.result.Failure? <==> CodeTaken(s, req.code)
    ensures r.result.Failure? ==> r.result.error == Conflict && r.store == s
    ensures r.result.Success? ==>
              var id := r.result.value;
              && id !in s.courses && id !in s.sections && id !in s.lessons && id !in s.assignments
              && r.store.courses.Keys == s.courses.Keys + {id}
              && (forall c :: c in s.courses ==> r.store.courses[c] == s.courses[c])
              && r.store.courses[id].status == Draft
              && r.store.courses[id].teacher == teacher.id
              && r.store.courses[id].enrolled == {}
              && r.store.courses[id].code == req.code
              && r.store.courses[id].title == req.title
              && r.store.courses[id].description == req.description
              && r.store.sections == s.sections && r.store.lessons == s.lessons
              && r.store.assignments == s.assignments && r.store.users == s.users
  {
    if CodeTaken(s, req.code) then Reject(s, Conflict)
    else
      var id := NewId(s);
      var course := Course(req.code, req.title, req.description, Draft, teacher.id, {});
      Reply(Success(id), s.(courses := s.courses[id := course]))
  }

  /**
   * Edits code, title and description of a DRAFT or REJECTED course owned by
   * the caller. The code is checked for uniqueness only when it changes.
   */
  function UpdateCourse(s: Store, id: CourseId, actor: User, req: UpdateCourseRequest): (r: Reply<Course>)
    ensures r.result.Failure? ==> r.store == s
    ensures r.result == Failure(NotFound) <==> id !in s.courses
    ensures id in s.courses && !Owns(s, actor, id) ==> r.result == Failure(Forbidden)
    ensures id in s.courses && Owns(s, actor, id) && !Editable(s.courses[id].status) ==>
              r.result == Failure(InvalidState)
    ensures r.result == Failure(Conflict) <==>
              && id in s.courses && Owns(s, actor, id) && Editable(s.courses[id].status)
              && req.code.Some? && req.code.value != s.courses[id].code && CodeTaken(s, req.code.value)
    ensures r.result.Success? <==>
              && id in s.courses && Owns(s, actor, id) && Editable(s.courses[id].status)
              && (req.code.None? || req.code.value == s.courses[id].code || !CodeTaken(s, req.code.value))
    ensures r.result.Success? ==>
              var before := s.courses[id];
              var after := r.result.value;
              && r.store == s.(courses := s.courses[id := after])
              && after.code == req.code.GetOr(before.code)
              && after.title == req.title.GetOr(before.title)
              && after.description == (if req.description.Some? then req.description else before.description)
              && after.status == before.status
              && after.teacher == before.teacher
              && after.enrolled == before.enrolled
  {
    if id !in s.courses then Reject(s, NotFound)
    else
      var course := s.courses[id];
      if course.teacher != actor.id then Reject(s, Forbidden)
      else if !Editable(course.status) then Reject(s, InvalidState)
      else if req.code.Some? && req.code.value != course.code && CodeTaken(s, req.code.value) then
        Reject(s, Conflict)
      else
        var updated := course.(
          code := req.code.GetOr(course.code),
          title := req.title.GetOr(course.title),
          description := if req.description.Some? then req.description else course.description);
        Reply(Success(updated), s.(courses := s.courses[id := updated]))
  }

  /** Moves the caller's DRAFT course to PENDING. */
  function SubmitForApproval(s: Store, id: CourseId, actor: User): (r: Reply<()>)
    ensures r.result.Failure? ==> r.store == s
    ensures r.result == Failure(NotFound) <==> id !in s.courses
    ensures id in s.courses && !Owns(s, actor, id) ==> r.result == Failure(Forbidden)
    ensures r.result == Failure(InvalidState) <==>
              id in s.courses && Owns(s, actor, id) && s.courses[id].status != Draft
    ensures r.result.Success? <==> id in s.courses && Owns(s, actor, id) && s.courses[id].status == Draft
    ensures r.result.Success? ==>
              && s.courses[id].status == Draft
              && r.store == s.(courses := s.courses[id := s.courses[id].(status := Pending)])
  {
    if id !in s.courses then Reject(s, NotFound)
    else
      var course := s.courses[id];
      if course.teacher != actor.id then Reject(s, Forbidden)
      else match Submit(course.status)
        case None => Reject(s, InvalidState)
        case Some(next) => Reply(Success(()), s.(courses := s.courses[id := course.(status := next)]))
  }

  /** Deletes the caller's DRAFT course together with everything it owns. */
  function DeleteCourse(s: Store, id: CourseId, actor: User): (r: Reply<()>)
    ensures r.result.Failure? ==> r.store == s
    ensures r.result == Failure(NotFound) <==> id !in s.courses
    ensures id in s.courses && !Owns(s, actor, id) ==> r.result == Failure(Forbidden)
    ensures r.result == Failure(InvalidState) <==>
              id in s.courses && Owns(s, actor, id) && !Deletable(s.courses[id].status)
    ensures r.result.Success? <==> id in s.courses && Owns(s, actor, id) && Deletable(s.courses[id].status)
    ensures r.result.Success? ==>
              && r.store.courses == s.courses - {id}
              && r.store.users == s.users
              && (forall x :: x in r.store.sections <==> x in s.sections && s.sections[x].course != id)
              && (forall x :: x in r.store.sections ==> r.store.sections[x] == s.sections[x])
              && (forall l :: l in r.store.lessons <==> l in s.lessons && !LessonUnder(s, l, id))
              && (forall l :: l in r.store.lessons ==> r.store.lessons[l] == s.lessons[l])
              && (forall a :: a in r.store.assignments <==>
                    a in s.assignments && !LessonUnder(s, s.assignments[a].lesson, id))
              && (forall a :: a in r.store.assignments ==> r.store.assignments[a] == s.assignments[a])
              && r.store == RemoveCourse(s, id)
  {
    if id !in s.courses then Reject(s, NotFound)
    else
      var course := s.courses[id];
      if course.teacher != actor.id then Reject(s, Forbidden)
      else if !Deletable(course.status) then Reject(s, InvalidState)
      else Reply(Success(()), RemoveCourse(s, id))
  }

  /**
   * Enrolls the caller in an APPROVED course. Enrolling twice is a Conflict,
   * not a silent success.
   */
  function EnrollStudent(s: Store, id: CourseId, student: User): (r: Reply<()>)
    ensures r.result.Failure? ==> r.store == s
    ensures r.result == Failure(NotFound) <==> id !in s.courses
    ensures r.result == Failure(InvalidState) <==> id in s.courses && !Enrollable(s.courses[id].status)
    ensures r.result == Failure(Conflict) <==>
              id in s.courses && Enrollable(s.courses[id].status) && student.id in s.courses[id].enrolled
    ensures r.result.Success? <==>
              id in s.courses && Enrollable(s.courses[id].status) && student.id !in s.courses[id].enrolled
    ensures r.result.Success? ==>
              && student.id !in s.courses[id].enrolled
              && r.store == s.(courses := s.courses[id := s.courses[id].(enrolled := s.courses[id].enrolled + {student.id})])
  {
    if id !in s.courses then Reject(s, NotFound)
    else
      var course := s.courses[id];
      if !Enrollable(course.status) then Reject(s, InvalidState)
      else if student.id in course.enrolled then Reject(s, Conflict)
      else Reply(Success(()), s.(courses := s.courses[id := course.(enrolled := course.enrolled + {student.id})]))
  }

  /** The key the content view is ordered by. */
  function SectionOrder(e: (SectionId, Section)): int
  {
    e.1.orderIndex
  }

  /**
   * The sections of a course for its owner or an enrolled student, in
   * non-decreasing order of `orderIndex`; each section of the course appears
   * exactly once and nothing else appears.
   */
  function GetCourseContent(s: Store, id: CourseId, actor: User): (r: Result<seq<(SectionId, Section)>, Error>)
    ensures r.Success? <==> id in s.courses && MayRead(s, actor, id)
    ensures r.Failure? ==> r.error == (if id !in s.courses then NotFound else Forbidden)
    ensures r.Success? ==> SortedBy(r.value, SectionOrder)
    ensures r.Success? ==>
              forall e :: multiset(r.value)[e] ==
                (if e.0 in s.sections && s.sections[e.0] == e.1 && e.1.course == id then 1 else 0)
  {
    if id !in s.courses then Failure(NotFound)
    else if !MayRead(s, actor, id) then Failure(Forbidden)
    else
      var es := SectionsOf(s, id);
      var sorted := SortBy(es, SectionOrder);
      assert forall e :: multiset(sorted)[e] == multiset(es)[e];
      assert forall e :: multiset(es)[e] == if e in es then 1 else 0 by {
        forall e ensures multiset(es)[e] == if e in es then 1 else 0 {
          StrictKeysOccurOnce(es, e);
        }
      }
      Success(sorted)
  }
}
