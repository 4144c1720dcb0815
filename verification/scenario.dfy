/**
 * An end-to-end authoring scenario: a teacher creates a course, a first
 * section and a first lesson, then submits the course for approval twice.
 */
module Scenario {
  import opened Wrappers
  import opened Ordering
  import opened Domain
  import opened Lifecycle
  import opened CourseService
  import opened SectionService
  import opened LessonService

  /** The store of a fresh installation with the given registered users. */
  function EmptyStore(users: set<UserId>): (s: Store)
    ensures Valid(s) && s.courses == map[] && s.sections == map[] && s.lessons == map[]
  {
    Store(map[], map[], map[], map[], users)
  }

  /**
   * With a maximum query that reports -1 for a parent without children, the
   * first section and the first lesson both get order index 0; the course is
   * DRAFT until submitted, PENDING after, and a second submission is refused.
   */
  lemma AuthorAndSubmit(teacher: User, users: set<UserId>)
    ensures
      var s0 := EmptyStore(users);
      var c := CreateCourse(s0, teacher, CreateCourseRequest("CS101", "Intro", None));
      && c.result.Success?
      && c.store.courses[c.result.value].status == Draft
      && var course := c.result.value;
         var x := CreateSection(c.store, course, teacher, CreateSectionRequest("Week 1", None, None), -1);
         && x.result.Success?
         && x.store.sections[x.result.value].orderIndex == 0
         && var l := CreateLesson(x.store, x.result.value, teacher,
                                  CreateLessonRequest("L1", None, None, None, None, None), -1);
            && l.result.Success?
            && l.store.lessons[l.result.value].orderIndex == 0
            && l.store.lessons[l.result.value].durationMinutes == 0
            && var p := SubmitForApproval(l.store, course, teacher);
               && p.result.Success?
               && p.store.courses[course].status == Pending
               && SubmitForApproval(p.store, course, teacher) == Reply(Failure(InvalidState), p.store)
  {
  }
}
