/**
 * The services taken together as one state machine over the store: every
 * request is one atomic step. Properties of the whole system are stated here.
 */
module Engine {
  import opened Wrappers
  import opened Ordering
  import opened Domain
  import opened Lifecycle
  import opened Access
  import opened CourseService
  import opened SectionService
  import opened LessonService
  import opened AssignmentService

  /** Every request that can change the store. */
  datatype Request =
    | CreateCourseCall(actor: User, createCourse: CreateCourseRequest)
    | UpdateCourseCall(course: CourseId, actor: User, updateCourse: UpdateCourseRequest)
    | SubmitCall(course: CourseId, actor: User)
    | DeleteCourseCall(course: CourseId, actor: User)
    | EnrollCall(course: CourseId, actor: User)
    | CreateSectionCall(course: CourseId, actor: User, createSection: CreateSectionRequest, emptyMax: Int32)
    | UpdateSectionCall(section: SectionId, actor: User, updateSection: UpdateSectionRequest)
    | DeleteSectionCall(section: SectionId, actor: User)
    | CreateLessonCall(section: SectionId, actor: User, createLesson: CreateLessonRequest, emptyMax: Int32)
    | UpdateLessonCall(lesson: LessonId, actor: User, updateLesson: UpdateLessonRequest)
    | DeleteLessonCall(lesson: LessonId, actor: User)
    | AssignCall(lesson: LessonId, student: UserId, actor: User, now: int)
    | UnassignCall(lesson: LessonId, student: UserId, actor: User)

  /** The store after serving one request, and whether the request succeeded. */
  function Step(s: Store, req: Request): (Store, bool)
  {
    match req
    case CreateCourseCall(actor, q) => var r := CreateCourse(s, actor, q); (r.store, r.result.Success?)
    case UpdateCourseCall(c, actor, q) => var r := UpdateCourse(s, c, actor, q); (r.store, r.result.Success?)
    case SubmitCall(c, actor) => var r := SubmitForApproval(s, c, actor); (r.store, r.result.Success?)
    case DeleteCourseCall(c, actor) => var r := DeleteCourse(s, c, actor); (r.store, r.result.Success?)
    case EnrollCall(c, actor) => var r := EnrollStudent(s, c, actor); (r.store, r.result.Success?)
    case CreateSectionCall(c, actor, q, e) => var r := CreateSection(s, c, actor, q, e); (r.store, r.result.Success?)
    case UpdateSectionCall(x, actor, q) => var r := UpdateSection(s, x, actor, q); (r.store, r.result.Success?)
    case DeleteSectionCall(x, actor) => var r := DeleteSection(s, x, actor); (r.store, r.result.Success?)
    case CreateLessonCall(x, actor, q, e) => var r := CreateLesson(s, x, actor, q, e); (r.store, r.result.Success?)
    case UpdateLessonCall(l, actor, q) => var r := UpdateLesson(s, l, actor, q); (r.store, r.result.Success?)
    case DeleteLessonCall(l, actor) => var r := DeleteLesson(s, l, actor); (r.store, r.result.Success?)
    case AssignCall(l, st, actor, now) => var r := AssignLessonToStudent(s, l, st, actor, now); (r.store, r.result.Success?)
    case UnassignCall(l, st, actor) => var r := UnassignLessonFromStudent(s, l, st, actor); (r.store, r.result.Success?)
  }

  /** Each course keeps its status, or moves along a moderation edge; new courses start as DRAFT. */
  predicate StatusesMoveAlongEdges(s: Store, t: Store)
  {
    && (forall c :: c in s.courses && c in t.courses ==>
          t.courses[c].status == s.courses[c].status || PermittedEdge(s.courses[c].status, t.courses[c].status))
    && (forall c :: c in t.courses && c !in s.courses ==> t.courses[c].status == Draft)
  }

  /** A step that fails leaves the store exactly as it was. */
  lemma FailedStepChangesNothing(s: Store, req: Request)
    ensures !Step(s, req).1 ==> Step(s, req).0 == s
  {
  }

  lemma CreateCourseKeepsValid(s: Store, actor: User, q: CreateCourseRequest)
    requires Valid(s)
    ensures Valid(CreateCourse(s, actor, q).store)
  {
  }

  /** Changing a course's code to a code no course uses keeps codes unique. */
  lemma UpdateCourseKeepsValid(s: Store, c: CourseId, actor: User, q: UpdateCourseRequest)
    requires Valid(s)
    ensures Valid(UpdateCourse(s, c, actor, q).store)
  {
  }

  lemma SubmitKeepsValid(s: Store, c: CourseId, actor: User)
    requires Valid(s)
    ensures Valid(SubmitForApproval(s, c, actor).store)
  {
  }

  lemma DeleteCourseKeepsValid(s: Store, c: CourseId, actor: User)
    requires Valid(s)
    ensures Valid(DeleteCourse(s, c, actor).store)
  {
  }

  lemma EnrollKeepsValid(s: Store, c: CourseId, actor: User)
    requires Valid(s)
    ensures Valid(EnrollStudent(s, c, actor).store)
  {
  }

  lemma CreateSectionKeepsValid(s: Store, c: CourseId, actor: User, q: CreateSectionRequest, e: Int32)
    requires Valid(s)
    ensures Valid(CreateSection(s, c, actor, q, e).store)
  {
  }

  lemma UpdateSectionKeepsValid(s: Store, x: SectionId, actor: User, q: UpdateSectionRequest)
    requires Valid(s)
    ensures Valid(UpdateSection(s, x, actor, q).store)
  {
  }

  lemma DeleteSectionKeepsValid(s: Store, x: SectionId, actor: User)
    requires Valid(s)
    ensures Valid(DeleteSection(s, x, actor).store)
  {
  }

  lemma CreateLessonKeepsValid(s: Store, x: SectionId, actor: User, q: CreateLessonRequest, e: Int32)
    requires Valid(s)
    ensures Valid(CreateLesson(s, x, actor, q, e).store)
  {
  }

  lemma UpdateLessonKeepsValid(s: Store, l: LessonId, actor: User, q: UpdateLessonRequest)
    requires Valid(s)
    ensures Valid(UpdateLesson(s, l, actor, q).store)
  {
  }

  lemma DeleteLessonKeepsValid(s: Store, l: LessonId, actor: User)
    requires Valid(s)
    ensures Valid(DeleteLesson(s, l, actor).store)
  {
  }

  /** Assignment references an existing lesson and an existing student and never duplicates a pair. */
  lemma AssignKeepsValid(s: Store, l: LessonId, student: UserId, actor: User, now: int)
    requires Valid(s)
    ensures Valid(AssignLessonToStudent(s, l, student, actor, now).store)
  {
  }

  lemma UnassignKeepsValid(s: Store, l: LessonId, student: UserId, actor: User)
    requires Valid(s)
    ensures Valid(UnassignLessonFromStudent(s, l, student, actor).store)
  {
  }

  /** Every step keeps the database constraints, unique codes and unique assignment pairs among them. */
  lemma StepKeepsValid(s: Store, req: Request)
    requires Valid(s)
    ensures Valid(Step(s, req).0)
  {
    match req
    case CreateCourseCall(actor, q) => CreateCourseKeepsValid(s, actor, q);
    case UpdateCourseCall(c, actor, q) => UpdateCourseKeepsValid(s, c, actor, q);
    case SubmitCall(c, actor) => SubmitKeepsValid(s, c, actor);
    case DeleteCourseCall(c, actor) => DeleteCourseKeepsValid(s, c, actor);
    case EnrollCall(c, actor) => EnrollKeepsValid(s, c, actor);
    case CreateSectionCall(c, actor, q, e) => CreateSectionKeepsValid(s, c, actor, q, e);
    case UpdateSectionCall(x, actor, q) => UpdateSectionKeepsValid(s, x, actor, q);
    case DeleteSectionCall(x, actor) => DeleteSectionKeepsValid(s, x, actor);
    case CreateLessonCall(x, actor, q, e) => CreateLessonKeepsValid(s, x, actor, q, e);
    case UpdateLessonCall(l, actor, q) => UpdateLessonKeepsValid(s, l, actor, q);
    case DeleteLessonCall(l, actor) => DeleteLessonKeepsValid(s, l, actor);
    case AssignCall(l, st, actor, now) => AssignKeepsValid(s, l, st, actor, now);
    case UnassignCall(l, st, actor) => UnassignKeepsValid(s, l, st, actor);
  }

  /**
   * Statuses move only along moderation edges; the only edge any request takes
   * is DRAFT to PENDING, and only a submission takes it.
   */
  lemma StepMovesStatusAlongEdges(s: Store, req: Request)
    ensures StatusesMoveAlongEdges(s, Step(s, req).0)
    ensures !req.SubmitCall? ==>
              forall c :: c in s.courses && c in Step(s, req).0.courses ==>
                Step(s, req).0.courses[c].status == s.courses[c].status
    ensures req.SubmitCall? ==>
              forall c ::
                (c in s.courses && c in Step(s, req).0.courses
                 && Step(s, req).0.courses[c].status != s.courses[c].status) ==>
                c == req.course && s.courses[c].status == Draft && Step(s, req).0.courses[c].status == Pending
  {
  }

  /**
   * Assignment records are only ever added or removed, never rewritten: the
   * lesson, the student and the creation time of a record stay as first stored.
   */
  lemma AssignmentRecordsNeverChange(s: Store, req: Request)
    ensures forall a :: a in s.assignments && a in Step(s, req).0.assignments ==>
              Step(s, req).0.assignments[a] == s.assignments[a]
  {
  }
}
