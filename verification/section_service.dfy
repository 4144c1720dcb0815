/**
 * Section operations. A section is changed only by the teacher owning its
 * course and only while the course is DRAFT or REJECTED.
 */
module SectionService {
  import opened Wrappers
  import opened Ordering
  import opened Domain
  import opened Lifecycle
  import opened Access

  datatype CreateSectionRequest = CreateSectionRequest(title: string, description: Option<string>, orderIndex: Option<Int32>)

  /** A field left `None` is not changed. */
  datatype UpdateSectionRequest = UpdateSectionRequest(title: Option<string>, description: Option<string>, orderIndex: Option<Int32>)

  /**
   * Adds a section to a course. Checks, in order: the course exists, the caller
   * owns it, it is DRAFT or REJECTED. The section takes the explicit order index
   * when one is given, otherwise one past the largest index among the course's
   * sections (`emptyMax` is what the maximum query reports for a course without
   * sections); when that would leave the 32-bit range the call is refused.
   */
  function CreateSection(s: Store, courseId: CourseId, actor: User, req: CreateSectionRequest, emptyMax: Int32)
    : (r: Reply<SectionId>)
    ensures r.result.Failure? ==> r.store == s
    ensures r.result == Failure(NotFound) <==> courseId !in s.courses
    ensures courseId in s.courses && !Owns(s, actor, courseId) ==> r.result == Failure(Forbidden)
    ensures r.result == Failure(InvalidState) <==>
              courseId in s.courses && Owns(s, actor, courseId) && !Editable(s.courses[courseId].status)
    ensures r.result == Failure(IndexOverflow) <==>
              && courseId in s.courses && Owns(s, actor, courseId) && Editable(s.courses[courseId].status)
              && req.orderIndex.None? && MaxOr(SectionIndices(s, courseId), emptyMax) == INT32_MAX
    ensures r.result.Success? <==>
              && courseId in s.courses && Owns(s, actor, courseId) && Editable(s.courses[courseId].status)
              && (req.orderIndex.Some? || MaxOr(SectionIndices(s, courseId), emptyMax) < INT32_MAX)
    ensures r.result.Success? ==>
              var id := r.result.value;
              && id !in s.sections && id !in s.courses && id !in s.lessons && id !in s.assignments
              && id in r.store.sections
              && r.store == s.(sections := s.sections[id := r.store.sections[id]])
              && r.store.sections[id].course == courseId
              && r.store.sections[id].title == req.title
              && r.store.sections[id].description == req.description
              && (req.orderIndex.Some? ==> r.store.sections[id].orderIndex == req.orderIndex.value)
              && (req.orderIndex.None? ==>
                    r.store.sections[id].orderIndex == MaxOr(SectionIndices(s, courseId), emptyMax) + 1)
              && (req.orderIndex.None? ==>
                    forall x :: x in s.sections && s.sections[x].course == courseId ==>
                      s.sections[x].orderIndex < r.store.sections[id].orderIndex)
  {
    if courseId !in s.courses then Reject(s, NotFound)
    else
      var course := s.courses[courseId];
      if course.teacher != actor.id then Reject(s, Forbidden)
      else if !Editable(course.status) then Reject(s, InvalidState)
      else match Allocate(req.orderIndex, SectionIndices(s, courseId), emptyMax)
        case None => Reject(s, IndexOverflow)
        case Some(index) =>
          var id := NewId(s);
          var section := Section(courseId, req.title, req.description, index);
          Reply(Success(id), s.(sections := s.sections[id := section]))
  }

  /**
   * Edits a section. Checks, in order: the section and its course resolve, the
   * caller owns the course, the course is DRAFT or REJECTED. An explicit order
   * index is stored as given, with no check against the other sections.
   */
  function UpdateSection(s: Store, id: SectionId, actor: User, req: UpdateSectionRequest): (r: Reply<Section>)
    ensures r.result.Failure? ==> r.store == s
    ensures r.result == Failure(NotFound) <==> SectionCourse(s, id).None?
    ensures SectionCourse(s, id).Some? && !Owns(s, actor, SectionCourse(s, id).value) ==>
              r.result == Failure(Forbidden)
    ensures r.result == Failure(InvalidState) <==>
              && SectionCourse(s, id).Some? && Owns(s, actor, SectionCourse(s, id).value)
              && !Editable(s.courses[SectionCourse(s, id).value].status)
    ensures r.result.Success? <==>
              && SectionCourse(s, id).Some? && Owns(s, actor, SectionCourse(s, id).value)
              && Editable(s.courses[SectionCourse(s, id).value].status)
    ensures r.result.Success? ==>
              var before := s.sections[id];
              var after := r.result.value;
              && Owns(s, actor, before.course) && Editable(s.courses[before.course].status)
              && r.store == s.(sections := s.sections[id := after])
              && after.course == before.course
              && after.title == req.title.GetOr(before.title)
              && after.description == (if req.description.Some? then req.description else before.description)
              && after.orderIndex == req.orderIndex.GetOr(before.orderIndex)
  {
    match SectionCourse(s, id)
    case None => Reject(s, NotFound)
    case Some(c) =>
      if s.courses[c].teacher != actor.id then Reject(s, Forbidden)
      else if !Editable(s.courses[c].status) then Reject(s, InvalidState)
      else
        var section := s.sections[id];
        var updated := section.(
          title := req.title.GetOr(section.title),
          description := if req.description.Some? then req.description else section.description,
          orderIndex := req.orderIndex.GetOr(section.orderIndex));
        Reply(Success(updated), s.(sections := s.sections[id := updated]))
  }

  /**
   * Deletes a section, with its lessons and their assignments. Checks, in
   * order: the section resolves, the caller owns the course, the course is
   * DRAFT or REJECTED. No other section and no other section's lesson is touched.
   */
  function DeleteSection(s: Store, id: SectionId, actor: User): (r: Reply<()>)
    ensures r.result.Failure? ==> r.store == s
    ensures r.result == Failure(NotFound) <==> SectionCourse(s, id).None?
    ensures SectionCourse(s, id).Some? && !Owns(s, actor, SectionCourse(s, id).value) ==>
              r.result == Failure(Forbidden)
    ensures r.result == Failure(InvalidState) <==>
              && SectionCourse(s, id).Some? && Owns(s, actor, SectionCourse(s, id).value)
              && !Editable(s.courses[SectionCourse(s, id).value].status)
    ensures r.result.Success? <==>
              && SectionCourse(s, id).Some? && Owns(s, actor, SectionCourse(s, id).value)
              && Editable(s.courses[SectionCourse(s, id).value].status)
    ensures r.result.Success? ==>
              && r.store.courses == s.courses
              && r.store.sections.Keys == s.sections.Keys - {id}
              && (forall x :: x in r.store.sections ==> r.store.sections[x] == s.sections[x])
              && (forall l :: l in r.store.lessons <==> l in s.lessons && s.lessons[l].section != id)
              && (forall l :: l in r.store.lessons ==> r.store.lessons[l] == s.lessons[l])
              && (forall a :: a in r.store.assignments <==>
                    a in s.assignments && !(s.assignments[a].lesson in s.lessons && s.lessons[s.assignments[a].lesson].section == id))
              && (forall a :: a in r.store.assignments ==> r.store.assignments[a] == s.assignments[a])
              && r.store.users == s.users
              && r.store == RemoveSections(s, {id})
  {
    match SectionCourse(s, id)
    case None => Reject(s, NotFound)
    case Some(c) =>
      if s.courses[c].teacher != actor.id then Reject(s, Forbidden)
      else if !Editable(s.courses[c].status) then Reject(s, InvalidState)
      else Reply(Success(()), RemoveSections(s, {id}))
  }
}
