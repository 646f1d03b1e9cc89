/**
 * The vocabulary shared by both event handlers: review statuses as the
 * database stores them, and the calls made to the source-control host,
 * which the model records in an outbound-effects log instead of sending.
 */
module Host {
  import opened Wrappers

  /**
   * Status of a pull request and of a reviewer row. The database stores
   * them as the text "pending_review" and "approved"; the `completed_review`
   * scope reads the rows whose status is "approved".
   */
  datatype Status = PendingReview | Approved
  {
    /** The text stored in the database for this status. */
    function Name(): (n: string)
      ensures n == "pending_review" <==> this == PendingReview
      ensures n == "approved" <==> this == Approved
    {
      match this
      case PendingReview => "pending_review"
      case Approved => "approved"
    }
  }

  /** The status a stored text stands for; any other text stands for none. */
  function StatusNamed(text: string): (r: Option<Status>)
    ensures r.Some? ==> r.value.Name() == text
    ensures r.None? ==> forall st: Status :: st.Name() != text
  {
    if text == "pending_review" then Some(PendingReview)
    else if text == "approved" then Some(Approved)
    else None
  }

  /** Every status is read back from the text it is stored as. */
  lemma NameRoundTrip(st: Status)
    ensures StatusNamed(st.Name()) == Some(st)
  {
  }

  /** A call to the host, recorded rather than performed. */
  datatype Effect =
      /** POST to the commit-status endpoint of commit `sha`. */
    | CreateStatus(sha: string, state: string, context: string, description: string)
      /** PATCH of the pull request, rewriting its reviewer list to `logins`. */
    | PatchReviewers(number: int, logins: seq<string>)

  /** The status-check context every status of the bot is posted under. */
  const StatusContext: string := "code-review/cody"

  const PendingDescription: string := "Not all reviewers have approved"

  const ApprovedDescription: string := "Code review complete"
}
