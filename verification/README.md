# Course lifecycle and authorization rules of a learning-management backend

This project models, in Dafny, the service layer of a course-authoring
backend: teachers build courses out of sections and lessons, submit them for
moderation, students enroll in approved courses, and teachers can grant single
lessons to single students. The model covers

- the **course status machine** (DRAFT, PENDING, APPROVED, REJECTED): which
  operations each status permits and the one transition the services perform,
  DRAFT to PENDING on submission;
- **ownership-chain authorization**: a lesson or section is resolved up to its
  course and the caller's id is compared with the course's teacher; roles are
  never consulted;
- the **order-index allocator** for new sections and lessons;
- the **course content view**, sorted by section order;
- **enrollment** and **lesson targeting** (lesson assignments, one per
  lesson/student pair; assigning enrolls the student).

The store is an immutable value (`Domain.Store`: maps from ids to courses,
sections, lessons and assignments, plus the set of registered users). Every
service operation is a pure function from a store to a `Reply`: a typed result
(`Success` or one of `NotFound`, `Forbidden`, `InvalidState`, `Conflict`,
`IndexOverflow`) together with the next store. Checks run in the source's
order: existence first, then ownership, then status or uniqueness. A rejected
call returns the store unchanged. `Engine.Step` puts all mutating operations
together as one state machine so that system-wide properties (database
constraints kept, statuses moving only along moderation edges) are stated once.

Files: `wrappers.dfy` (Option, Result), `ordering.dfy` (32-bit order indices,
allocator, sort by key), `domain.dfy` (entities, store, constraints, cascade
delete), `lifecycle.dfy`, `access.dfy`, one file per service, `engine.dfy`,
`properties.dfy` (round trips, idempotence, status independence),
`scenario.dfy`.

Behaviour of the code that one might not expect, which the model follows:

- a REJECTED course cannot be resubmitted: submission is accepted only from
  DRAFT (CourseService.java:98);
- reading course content and lessons is allowed to the owner and enrolled
  students only; APPROVED courses are not public and ADMIN has no read access
  of its own (CourseService.java:139-140, LessonService.java:104-105);
- ADMIN has no bypass for assigning, unassigning or listing lesson
  assignments (LessonAssignmentService.java:34, 58, 68);
- lesson create, update and delete are not gated by course status
  (LessonService.java:32, 59, 93);
- enrollment checks neither the STUDENT role nor ownership; it needs only an
  APPROVED course and a caller not yet enrolled (CourseService.java:120-133);
- the content view sorts sections only; the lessons inside are not re-sorted
  (CourseService.java:146-148);
- for a parent without children the allocator uses whatever the maximum query
  reports, not a fixed 0; the model takes that value as the parameter
  `emptyMax` (0 for the first child when it is -1).

## Model

| member | source | states |
|---|---|---|
| CourseService.GetCourseById | src/main/java/com/example/lms/service/CourseService.java:55-58 | a known id yields exactly its course; an unknown id is NotFound |
| CourseService.CreateCourse | src/main/java/com/example/lms/service/CourseService.java:31-45 | fails with Conflict, store unchanged, iff some course already has the code; otherwise adds exactly one course under a fresh id, DRAFT, owned by the caller, with no students and the request's code, title and description |
| CourseService.UpdateCourse | src/main/java/com/example/lms/service/CourseService.java:60-89 | NotFound iff the course is unknown; a non-owner is Forbidden; an owner outside DRAFT/REJECTED gets InvalidState; Conflict iff a new, different code is taken; succeeds iff the owner edits a DRAFT/REJECTED course with no code, the same code or a free one; on success null fields keep their value and status, teacher and enrollment are untouched; any failure leaves the store unchanged |
| CourseService.SubmitForApproval | src/main/java/com/example/lms/service/CourseService.java:91-104 | NotFound for an unknown course, Forbidden for a non-owner, InvalidState iff the owner's course is not DRAFT; succeeds iff the owner submits a DRAFT course, and then only that course's status changes, to PENDING |
| CourseService.DeleteCourse | src/main/java/com/example/lms/service/CourseService.java:106-118 | succeeds iff the course exists, the caller owns it and it is DRAFT; then the course goes with exactly its sections, the lessons of those sections and their assignments, and every other section, lesson, assignment and user is kept as it was; otherwise NotFound, Forbidden or InvalidState and nothing is removed |
| CourseService.EnrollStudent | src/main/java/com/example/lms/service/CourseService.java:120-133 | NotFound for an unknown course; InvalidState iff it is not APPROVED; Conflict iff the caller is already enrolled, with the store unchanged; succeeds iff the course is APPROVED and the caller not yet enrolled, and then adds exactly the caller to that course's enrollment |
| CourseService.GetCourseContent | src/main/java/com/example/lms/service/CourseService.java:135-149 | succeeds iff the course exists and the caller owns it or is enrolled (NotFound, else Forbidden); the result holds each section of the course exactly once, nothing else, in non-decreasing orderIndex |
| SectionService.CreateSection | src/main/java/com/example/lms/service/SectionService.java:22-48 | checks course existence, then ownership, then DRAFT/REJECTED, and succeeds iff all pass (and, in this model, the allocator does not overflow); the new section belongs to the course, carries the request's title and description, and takes the explicit index or the largest sibling index plus one, which is above every sibling's; on failure no section is added |
| SectionService.UpdateSection | src/main/java/com/example/lms/service/SectionService.java:50-78 | resolves section and course (NotFound), then ownership (Forbidden), then DRAFT/REJECTED (InvalidState), and succeeds iff the owner edits in a DRAFT/REJECTED course; null fields keep their value, an explicit orderIndex is stored as given, the parent course never changes |
| SectionService.DeleteSection | src/main/java/com/example/lms/service/SectionService.java:80-96 | same check order as update, and succeeds iff the owner deletes in a DRAFT/REJECTED course; then exactly that section, its lessons and their assignments go, and every other section, lesson and assignment is kept as it was; on failure nothing is removed |
| LessonService.CreateLesson | src/main/java/com/example/lms/service/LessonService.java:23-48 | NotFound iff the section chain does not resolve, Forbidden iff the caller does not own the course; succeeds iff the owner calls it (and, in this model, the allocator does not overflow), with no condition on the course status; duration defaults to 0, description is not copied, no attachments; index explicit or the section's largest lesson index plus one |
| LessonService.UpdateLesson | src/main/java/com/example/lms/service/LessonService.java:50-82 | NotFound iff the chain does not resolve, Forbidden iff the caller does not own the course, success otherwise, in any status; null fields keep their value; section, description and stored attachments never change; an explicit orderIndex is stored as given; the lesson comes back with its attachments as a permutation sorted by displayOrder |
| LessonService.DeleteLesson | src/main/java/com/example/lms/service/LessonService.java:84-96 | NotFound iff the chain does not resolve, Forbidden iff the caller does not own the course, success otherwise, in any status; on success only that lesson (with its attachments) and its assignments are removed |
| LessonService.GetLessonById | src/main/java/com/example/lms/service/LessonService.java:98-112 | NotFound for an unknown lesson; succeeds iff the caller owns the course or is enrolled; the lesson comes back with its attachments as a permutation sorted by displayOrder |
| AssignmentService.FindPair | src/main/java/com/example/lms/service/LessonAssignmentService.java:45-46 | finds a record of the (lesson, student) pair when one exists and reports none only when no record matches |
| AssignmentService.AssignLessonToStudent | src/main/java/com/example/lms/service/LessonAssignmentService.java:26-52 | NotFound for an unknown lesson or student, then Forbidden for a non-owner, and success for the owner with an existing lesson and student; on success the student is in the course's enrollment, the pair exists, an existing record is returned unchanged or exactly one new record is added; unique pairs stay unique |
| AssignmentService.UnassignLessonFromStudent | src/main/java/com/example/lms/service/LessonAssignmentService.java:54-62 | NotFound, then Forbidden for a non-owner, and success for the owner whether or not the pair is assigned; on success exactly the records of the pair are removed (none if absent) and every other record and entity is untouched |
| AssignmentService.ListAssignmentsByLesson | src/main/java/com/example/lms/service/LessonAssignmentService.java:64-72 | succeeds iff the lesson resolves and the caller owns its course; returns exactly the assignments of that lesson, each once |
| Lifecycle.Submit | src/main/java/com/example/lms/service/CourseService.java:98-102 | submission is defined exactly from DRAFT, leads to PENDING, and is a moderation edge |
| Lifecycle.SubmitIsNotRepeatable | src/main/java/com/example/lms/service/CourseService.java:98-100 | the state reached by a submission admits no further submission |
| Lifecycle.EnrollableIsNotEditable | src/main/java/com/example/lms/service/CourseService.java:113-123 | the only status open to enrollment permits neither editing nor deletion |
| Access.SectionCourse | src/main/java/com/example/lms/service/SectionService.java:55 | a section resolves to a course exactly when it and its course exist, and to its own parent course |
| Access.LessonCourse | src/main/java/com/example/lms/service/LessonAssignmentService.java:33 | a lesson resolves to the course of its section, and only when lesson, section and course all exist |
| Access.LessonChainResolves | src/main/java/com/example/lms/entity/Lesson.java:24-26 | on a store satisfying the constraints, the chain from a lesson resolves iff the lesson exists |
| Ordering.MaxOr | src/main/java/com/example/lms/service/LessonService.java:36 | the maximum sibling index is one of the siblings' indices and bounds all of them; with no siblings it is the query's empty value |
| Ordering.NextIndex | src/main/java/com/example/lms/service/SectionService.java:36-38 | the allocated index is the largest sibling index plus one, so it exceeds every sibling's index; it is refused exactly when the maximum is Integer.MAX_VALUE |
| Ordering.Allocate | src/main/java/com/example/lms/service/LessonService.java:35-36 | an explicit index is taken as is; otherwise the largest sibling index plus one, above every sibling |
| Ordering.NextIndexAgreesWithAsWritten | src/main/java/com/example/lms/service/LessonService.java:35-36 | whenever the corrected allocator yields an index it equals the source's `max + 1` |
| Ordering.NextIndexAsWrittenWrapsAtMax | src/main/java/com/example/lms/service/SectionService.java:37-38 | the source's allocator, after a sibling at Integer.MAX_VALUE, yields Integer.MIN_VALUE, below that sibling |
| Ordering.SortBy | src/main/java/com/example/lms/service/CourseService.java:146-148 | the result is a permutation of the input in non-decreasing key order |
| Domain.NewId | src/main/java/com/example/lms/entity/LessonAssignment.java:20-22 | a generated id collides with no existing course, section, lesson or assignment |
| Domain.RemoveLessons | src/main/java/com/example/lms/entity/Lesson.java:48-51 | removing lessons removes their attachments with them (the attachment mapping cascades) and exactly the assignments of those lessons; everything else is kept |
| Domain.RemoveCourseKeepsValid | src/main/java/com/example/lms/service/CourseService.java:117 | deleting a course with its sections, lessons and assignments leaves no section, lesson or assignment without its parent |
| Engine.StepKeepsValid | src/main/java/com/example/lms/entity/LessonAssignment.java:11-30 | every operation keeps the constraints: each lesson has its section, each assignment its lesson and student, codes and (lesson, student) pairs stay unique |
| Engine.UpdateCourseKeepsValid | src/main/java/com/example/lms/service/CourseService.java:73-78 | changing a code only to an unused one keeps course codes unique |
| Engine.AssignKeepsValid | src/main/java/com/example/lms/entity/LessonAssignment.java:11-13 | assignment never creates a second record for a (lesson, student) pair |
| Engine.FailedStepChangesNothing | src/main/java/com/example/lms/service/CourseService.java:60-71 | a rejected operation, of any kind, leaves the store exactly as it was |
| Engine.StepMovesStatusAlongEdges | src/main/java/com/example/lms/service/CourseService.java:98-102 | statuses move only along moderation edges, new courses start DRAFT, and the only status change any operation makes is DRAFT to PENDING by a submission of that course |
| Engine.AssignmentRecordsNeverChange | src/main/java/com/example/lms/entity/LessonAssignment.java:32-34 | no operation rewrites a stored assignment, so its creation time is never updated |
| Properties.DeleteUndoesCreateCourse | src/main/java/com/example/lms/service/CourseService.java:106-118 | deleting a course right after its creation by the same teacher gives back the original store |
| Properties.DeleteUndoesCreateSection | src/main/java/com/example/lms/service/SectionService.java:80-96 | deleting a section right after its creation gives back the original store |
| Properties.DeleteUndoesCreateLesson | src/main/java/com/example/lms/service/LessonService.java:84-96 | deleting a lesson right after its creation gives back the original store |
| Properties.UnassignUndoesAssignButKeepsEnrollment | src/main/java/com/example/lms/service/LessonAssignmentService.java:38-62 | unassigning a pair just assigned restores the assignments, while the enrollment the assignment made stays |
| Properties.AssignIsIdempotent | src/main/java/com/example/lms/service/LessonAssignmentService.java:44-51 | a second assignment of the same pair returns the same record and changes nothing, whatever its time |
| Properties.UnassignIsIdempotent | src/main/java/com/example/lms/service/LessonAssignmentService.java:61 | unassigning twice is the same as unassigning once |
| Properties.SecondSubmitFails | src/main/java/com/example/lms/service/CourseService.java:98-100 | after a successful submission a second one is InvalidState and leaves the store as it was |
| Properties.SecondEnrollConflicts | src/main/java/com/example/lms/service/CourseService.java:127-129 | after a successful enrollment a second one is Conflict and leaves the store as it was |
| Properties.EmptyUpdatesChangeNothing | src/main/java/com/example/lms/service/CourseService.java:73-86 | an update of course, section or lesson whose fields are all null leaves the store unchanged |
| Properties.LessonEditsIgnoreStatus | src/main/java/com/example/lms/service/LessonService.java:28-32 | changing the status of any course changes none of the answers of lesson creation, update and deletion |
| Properties.SectionsFrozenOutsideEditing | src/main/java/com/example/lms/service/SectionService.java:59-63 | in a PENDING or APPROVED course the owner's section edits and deletes are InvalidState with the store unchanged, while their lesson edits and deletes there succeed |
| Properties.AdminHasNoBypass | src/main/java/com/example/lms/service/LessonAssignmentService.java:32-36 | an ADMIN who does not own the lesson's course is Forbidden to assign, unassign and list, and the store is unchanged |
| Properties.SequentialIndicesFromZero | src/main/java/com/example/lms/service/SectionService.java:36-38 | in an editable course of the caller with no sections, sections created in a row without explicit index all succeed and get 0, 1, 2, ... in creation order, and are the course's only sections |
| Properties.MaxOfCreationOrder | src/main/java/com/example/lms/service/SectionService.java:38 | when a course's sections carry the indices 0 to n-1, the maximum the allocator reads is n-1 |
| Properties.ConsecutiveSectionsIncrease | src/main/java/com/example/lms/service/SectionService.java:36-38 | two sections created in a row without explicit index get strictly increasing indices |
| Scenario.AuthorAndSubmit | src/main/java/com/example/lms/service/CourseService.java:91-104 | create course, then section and lesson at index 0, submit to PENDING, and a second submission is InvalidState |

## Left out

- Listing queries `getApprovedCourses`, `getCoursesByTeacher` and `getEnrolledCourses`: paging and case-insensitive title search are repository queries, not decision logic.
- Controllers, the security configuration, file serving and the graded-assignment entity: HTTP routing, DTO copying, framework wiring and file I/O. The controllers' mapping of error messages to status codes is replaced by the typed `Error`.
- Role gates placed on controller methods: the services never look at roles, and neither does the model; `User.roles` is carried only to state that.
- Request validation annotations (non-blank titles, length limits): request strings are taken as already validated; codes and titles are never null.
- Timestamps: `createdAt`/`updatedAt` of courses, sections and lessons are not modelled; an assignment's creation time is the parameter `now`.
- Id generation: UUIDs are modelled by `Domain.NewId`, an id no stored entity carries.
- The value the maximum-index query reports for a parent without children is not part of this model; it is the parameter `emptyMax`. A query result of null (which would fail on unboxing) is not modelled.
- The Course and Section entity mappings are not modelled; the model assumes that deleting a course or section cascades to what it owns (sections, lessons, attachments, assignments). That a lesson's attachments go with it is the mapping at Lesson.java:48.
- LessonService.DeleteLesson: the removal of a deleted lesson's assignments is assumed, not shown in the code. Lesson declares no assignment collection, and the assignment's lesson reference (LessonAssignment.java:24-26) is a plain non-null foreign key; whether the database cascades it or refuses the delete depends on a schema that is not part of this model. The model cascades, so that no assignment is left without its lesson.
- SectionService.CreateSection: refuses with `IndexOverflow` a call the code accepts. When a section of the course is at Integer.MAX_VALUE and no index is given, the code stores Integer.MIN_VALUE (see Findings); the model uses the corrected allocator instead.
- LessonService.CreateLesson: refuses with `IndexOverflow` a call the code accepts, in the same situation for the lessons of a section (see Findings).
- Lessons inside the sections of the content view: the model returns section values, which do not carry their lessons, so the (unsorted) lesson order there is not modelled.
- Enrollment membership compares users by id.
- CourseService.EnrollStudent: the model assumes the enrollment is stored. The code adds the student only to the course's side of the relation and saves the course (CourseService.java:131-132), while the comment at LessonAssignmentService.java:38 names the user's side as the owning one. If that is so, the persistence layer would not write the change: the call would succeed but store nothing, a second enrollment would succeed instead of answering Conflict, and the student would stay unable to read the course. The mappings that decide this are not part of this model, so the model records the enrollment, and `Properties.SecondEnrollConflicts` rests on that assumption.
- Concurrency and transactions: each operation is one atomic step; the assignment's two writes (enrollment, then the record) are one step.
- Moderation decisions (approve, reject) are performed by no service; APPROVED and REJECTED exist only as states.
- CourseService.GetCourseContent: does not state that sections with equal orderIndex keep their relative stored order (Java's sort is stable), because the stored order of a course's sections is itself not defined by the source.

## Findings

| source | as written | input that shows it | evidently intended | confidence | as-written member | corrected member |
|---|---|---|---|---|---|---|
| src/main/java/com/example/lms/service/SectionService.java:37-38 | the new section's index is `findMaxOrderIndexByCourse(course) + 1` in 32-bit `int` arithmetic | the course already has a section at orderIndex 2147483647 (accepted as an explicit index); create a section without an index: it gets -2147483648 and sorts before all others | a section created without an index comes after every existing section, or the call is refused | medium, not executed | Ordering.NextIndexAsWrittenWrapsAtMax | Ordering.NextIndex |
| src/main/java/com/example/lms/service/LessonService.java:35-36 | the new lesson's index is `findMaxOrderIndexBySection(section) + 1` in 32-bit `int` arithmetic | a section holds a lesson at orderIndex 2147483647; create a lesson without an index: it gets -2147483648 | a lesson created without an index comes after every existing lesson, or the call is refused | medium, not executed | Ordering.NextIndexAsWrittenWrapsAtMax | Ordering.NextIndex |

The services in this model use the corrected allocator (`Ordering.Allocate`),
which refuses the call with `IndexOverflow` in that case; wherever it yields an
index, the index equals the source's (`Ordering.NextIndexAgreesWithAsWritten`).
