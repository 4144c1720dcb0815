/**
 * Authorization by ownership. A section or lesson is resolved up to the course
 * that owns it, and the caller's id is compared with the course's teacher.
 * Roles are never consulted: an ADMIN that does not own the course is refused
 * like anybody else.
 */
module Access {
  import opened Wrappers
  import opened Domain

  /** The course owning section `x`, if the section and its course resolve. */
  function SectionCourse(s: Store, x: SectionId): (r: Option<CourseId>)
    ensures r.Some? <==> x in s.sections && s.sections[x].course in s.courses
    ensures r.Some? ==> r.value == s.sections[x].course
  {
    if x in s.sections && s.sections[x].course in s.courses then Some(s.sections[x].course) else None
  }

  /** The course owning lesson `l`, walking lesson to section to course. */
  function LessonCourse(s: Store, l: LessonId): (r: Option<CourseId>)
    ensures r.Some? <==> l in s.lessons && SectionCourse(s, s.lessons[l].section).Some?
    ensures r.Some? ==> r.value in s.courses && r.value == s.sections[s.lessons[l].section].course
  {
    if l in s.lessons then SectionCourse(s, s.lessons[l].section) else None
  }

  /** The caller is the teacher who owns course `c`. */
  predicate Owns(s: Store, actor: User, c: CourseId)
    requires c in s.courses
  {
    s.courses[c].teacher == actor.id
  }

  /** The caller may read the content of course `c`: its owner or one of its enrolled students. */
  predicate MayRead(s: Store, actor: User, c: CourseId)
    requires c in s.courses
  {
    Owns(s, actor, c) || actor.id in s.courses[c].enrolled
  }

  /** On a store the database accepts, the chain from an existing section always resolves. */
  lemma SectionChainResolves(s: Store, x: SectionId)
    requires Valid(s)
    ensures SectionCourse(s, x).Some? <==> x in s.sections
  {
  }

  /** On a store the database accepts, the chain from an existing lesson always resolves. */
  lemma LessonChainResolves(s: Store, l: LessonId)
    requires Valid(s)
    ensures LessonCourse(s, l).Some? <==> l in s.lessons
  {
  }
}
