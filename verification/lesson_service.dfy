/**
 * Lesson operations. Ownership is resolved through lesson, section and course;
 * unlike sections, lessons are created, edited and deleted whatever the
 * course's moderation status.
 */
module LessonService {
  import opened Wrappers
  import opened Ordering
  import opened Domain
  import opened Lifecycle
  import opened Access

  /** `description` is accepted but never stored. */
  datatype CreateLessonRequest = CreateLessonRequest(
    title: string,
    description: Option<string>,
    content: Option<string>,
    videoUrl: Option<string>,
    durationMinutes: Option<Int32>,
    orderIndex: Option<Int32>)

  /** A field left `None` is not changed; `description` is ignored. */
  datatype UpdateLessonRequest = UpdateLessonRequest(
    title: Option<string>,
    description: Option<string>,
    content: Option<string>,
    videoUrl: Option<string>,
    durationMinutes: Option<Int32>,
    orderIndex: Option<Int32>)

  /**
   * Adds a lesson to a section. Checks, in order: the section and its course
   * resolve, the caller owns the course. The lesson takes the explicit order
   * index when one is given, otherwise one past the largest index in the
   * section (`emptyMax` is what the maximum query reports for an empty
   * section), refused when that would leave the 32-bit range.
   */
  function CreateLesson(s: Store, sectionId: SectionId, actor: User, req: CreateLessonRequest, emptyMax: Int32)
    : (r: Reply<LessonId>)
    ensures r.result.Failure? ==> r.store == s
    ensures r.result == Failure(NotFound) <==> SectionCourse(s, sectionId).None?
    ensures r.result == Failure(Forbidden) <==>
              SectionCourse(s, sectionId).Some? && !Owns(s, actor, SectionCourse(s, sectionId).value)
    ensures r.result == Failure(IndexOverflow) <==>
              && SectionCourse(s, sectionId).Some? && Owns(s, actor, SectionCourse(s, sectionId).value)
              && req.orderIndex.None? && MaxOr(LessonIndices(s, sectionId), emptyMax) == INT32_MAX
    ensures r.result.Success? <==>
              && SectionCourse(s, sectionId).Some? && Owns(s, actor, SectionCourse(s, sectionId).value)
              && (req.orderIndex.Some? || MaxOr(LessonIndices(s, sectionId), emptyMax) < INT32_MAX)
    ensures r.result.Success? ==>
              var id := r.result.value;
              && id !in s.lessons && id !in s.courses && id !in s.sections && id !in s.assignments
              && id in r.store.lessons
              && r.store == s.(lessons := s.lessons[id := r.store.lessons[id]])
              && r.store.lessons[id].section == sectionId
              && r.store.lessons[id].title == req.title
              && r.store.lessons[id].content == req.content
              && r.store.lessons[id].videoUrl == req.videoUrl
              && r.store.lessons[id].description == None
              && r.store.lessons[id].durationMinutes == req.durationMinutes.GetOr(0)
              && r.store.lessons[id].attachments == []
              && (req.orderIndex.Some? ==> r.store.lessons[id].orderIndex == req.orderIndex.value)
              && (req.orderIndex.None? ==>
                    r.store.lessons[id].orderIndex == MaxOr(LessonIndices(s, sectionId), emptyMax) + 1)
              && (req.orderIndex.None? ==>
                    forall l :: l in s.lessons && s.lessons[l].section == sectionId ==>
                      s.lessons[l].orderIndex < r.store.lessons[id].orderIndex)
  {
    match SectionCourse(s, sectionId)
    case None => Reject(s, NotFound)
    case Some(c) =>
      if s.courses[c].teacher != actor.id then Reject(s, Forbidden)
      else match Allocate(req.orderIndex, LessonIndices(s, sectionId), emptyMax)
        case None => Reject(s, IndexOverflow)
        case Some(index) =>
          var id := NewId(s);
          var lesson := Lesson(sectionId, req.title, req.content, None, req.videoUrl,
                               req.durationMinutes.GetOr(0), index, []);
          Reply(Success(id), s.(lessons := s.lessons[id := lesson]))
  }

  /** The key attachments are listed by. */
  function AttachmentOrder(a: Attachment): int
  {
    a.displayOrder
  }

  /**
   * Edits a lesson of a course the caller owns. Section, description and
   * attachments never change; an explicit order index is stored as given.
   * The lesson is answered as it is read back, with its attachments listed by
   * ascending `displayOrder`.
   */
  function UpdateLesson(s: Store, id: LessonId, actor: User, req: UpdateLessonRequest): (r: Reply<Lesson>)
    ensures r.result.Failure? ==> r.store == s
    ensures r.result == Failure(NotFound) <==> LessonCourse(s, id).None?
    ensures r.result == Failure(Forbidden) <==>
              LessonCourse(s, id).Some? && !Owns(s, actor, LessonCourse(s, id).value)
    ensures r.result.Success? <==> LessonCourse(s, id).Some? && Owns(s, actor, LessonCourse(s, id).value)
    ensures r.result.Success? ==> id in s.lessons && id in r.store.lessons
    ensures r.result.Success? ==>
              var before := s.lessons[id];
              var after := r.store.lessons[id];
              && r.store == s.(lessons := s.lessons[id := after])
              && r.result.value == after.(attachments := r.result.value.attachments)
              && SortedBy(r.result.value.attachments, AttachmentOrder)
              && multiset(r.result.value.attachments) == multiset(before.attachments)
              && after.section == before.section
              && after.description == before.description
              && after.attachments == before.attachments
              && after.title == req.title.GetOr(before.title)
              && after.content == (if req.content.Some? then req.content else before.content)
              && after.videoUrl == (if req.videoUrl.Some? then req.videoUrl else before.videoUrl)
              && after.durationMinutes == req.durationMinutes.GetOr(before.durationMinutes)
              && after.orderIndex == req.orderIndex.GetOr(before.orderIndex)
  {
    match LessonCourse(s, id)
    case None => Reject(s, NotFound)
    case Some(c) =>
      if s.courses[c].teacher != actor.id then Reject(s, Forbidden)
      else
        var lesson := s.lessons[id];
        var updated := lesson.(
          title := req.title.GetOr(lesson.title),
          content := if req.content.Some? then req.content else lesson.content,
          videoUrl := if req.videoUrl.Some? then req.videoUrl else lesson.videoUrl,
          durationMinutes := req.durationMinutes.GetOr(lesson.durationMinutes),
          orderIndex := req.orderIndex.GetOr(lesson.orderIndex));
        Reply(Success(updated.(attachments := SortBy(updated.attachments, AttachmentOrder))),
              s.(lessons := s.lessons[id := updated]))
  }

  /**
   * Deletes a lesson of a course the caller owns; its attachments go with it
   * and so do its assignments. Every other lesson and assignment is kept.
   */
  function DeleteLesson(s: Store, id: LessonId, actor: User): (r: Reply<()>)
    ensures r.result.Failure? ==> r.store == s
    ensures r.result == Failure(NotFound) <==> LessonCourse(s, id).None?
    ensures r.result == Failure(Forbidden) <==>
              LessonCourse(s, id).Some? && !Owns(s, actor, LessonCourse(s, id).value)
    ensures r.result.Success? <==> LessonCourse(s, id).Some? && Owns(s, actor, LessonCourse(s, id).value)
    ensures r.result.Success? ==>
              && r.store.courses == s.courses && r.store.sections == s.sections
              && r.store.lessons.Keys == s.lessons.Keys - {id}
              && (forall l :: l in r.store.lessons ==> r.store.lessons[l] == s.lessons[l])
              && (forall a :: a in r.store.assignments <==> a in s.assignments && s.assignments[a].lesson != id)
              && (forall a :: a in r.store.assignments ==> r.store.assignments[a] == s.assignments[a])
              && r.store.users == s.users
              && r.store == RemoveLessons(s, {id})
  {
    match LessonCourse(s, id)
    case None => Reject(s, NotFound)
    case Some(c) =>
      if s.courses[c].teacher != actor.id then Reject(s, Forbidden)
      else Reply(Success(()), RemoveLessons(s, {id}))
  }

  /**
   * A lesson for the owner of its course or a student enrolled in it. The
   * lesson comes back with its attachments listed by ascending `displayOrder`.
   */
  function GetLessonById(s: Store, id: LessonId, actor: User): (r: Result<Lesson, Error>)
    ensures r.Success? <==> LessonCourse(s, id).Some? && MayRead(s, actor, LessonCourse(s, id).value)
    ensures r.Failure? ==> r.error == (if LessonCourse(s, id).None? then NotFound else Forbidden)
    ensures r.Success? ==>
              && r.value == s.lessons[id].(attachments := r.value.attachments)
              && SortedBy(r.value.attachments, AttachmentOrder)
              && multiset(r.value.attachments) == multiset(s.lessons[id].attachments)
  {
    match LessonCourse(s, id)
    case None => Failure(NotFound)
    case Some(c) =>
      if !MayRead(s, actor, c) then Failure(Forbidden)
      else
        var lesson := s.lessons[id];
        Success(lesson.(attachments := SortBy(lesson.attachments, AttachmentOrder)))
  }
}
