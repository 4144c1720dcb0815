/**
 * The moderation state machine of a course. The services perform a single
 * transition themselves, DRAFT to PENDING on submission; approval and
 * rejection are moderation decisions taken outside these services.
 */
module Lifecycle {
  import opened Wrappers
  import opened Domain

  /** Course fields and sections may be changed only while DRAFT or REJECTED. */
  predicate Editable(st: Status)
  {
    st == Draft || st == Rejected
  }

  /** A course may be deleted only while DRAFT. */
  predicate Deletable(st: Status)
  {
    st == Draft
  }

  /** Students may enroll only in an APPROVED course. */
  predicate Enrollable(st: Status)
  {
    st == Approved
  }

  /** The moderation edges of the lifecycle: submission, approval, rejection, resubmission. */
  predicate PermittedEdge(from: Status, to: Status)
  {
    || (from == Draft && to == Pending)
    || (from == Pending && to == Approved)
    || (from == Pending && to == Rejected)
    || (from == Rejected && to == Pending)
  }

  /** Submission for approval: defined only from DRAFT, and leads to PENDING. */
  function Submit(st: Status): (r: Option<Status>)
    ensures r.Some? <==> st == Draft
    ensures r.Some? ==> PermittedEdge(st, r.value) && r.value == Pending
  {
    if st == Draft then Some(Pending) else None
  }

  /**
   * No state is both publicly enrollable and open for editing: the fields and
   * sections of an approved course are frozen. Its lessons are not, since the
   * lesson operations do not consult the status at all.
   */
  lemma EnrollableIsNotEditable(st: Status)
    ensures Enrollable(st) ==> !Editable(st) && !Deletable(st)
  {
  }

  /** Submission leaves a state that accepts no further submission. */
  lemma SubmitIsNotRepeatable(st: Status)
    ensures Submit(st).Some? ==> Submit(Submit(st).value).None?
  {
  }
}
