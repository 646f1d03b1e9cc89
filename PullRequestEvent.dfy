/**
 * The pull-request-opened handler (`ReceivePullRequestEvent#perform`):
 * it stores a new pull request whose pending reviews are the logins
 * mentioned in checklist lines of the body, then posts a "pending" commit
 * status for the head commit. The database table and the host are an
 * in-memory store: a sequence of records and a log of outbound calls.
 */
module PullRequestEvent {
  import opened Wrappers
  import opened Host
  import Checklist

  /**
   * The fields of the webhook payload the handler reads: `number`,
   * `pull_request.body` (None when the host sends null, as it does for a
   * pull request without a description) and `pull_request.head.sha`.
   */
  datatype Payload = Payload(number: int, body: Option<string>, headSha: string)

  /** A row of the pull-request table, as the handler creates it; the status column holds text. */
  datatype PullRequestRecord = PullRequestRecord(number: int, status: string, pendingReviews: seq<string>)

  /** How a run of the handler ended: normally, or by the exception `nil.scan` raises for a null body. */
  datatype Outcome = Processed | MissingBody

  class EventStore {
    /** The pull-request table, in creation order. */
    var pullRequests: seq<PullRequestRecord>
    /** The calls made to the host, in order. */
    var effects: seq<Effect>

    constructor ()
      ensures pullRequests == [] && effects == []
    {
      pullRequests := [];
      effects := [];
    }

    /**
     * Handles one pull-request-opened event. With a body, exactly one
     * record is appended (status "pending_review", the body's mentions as
     * pending reviews) and exactly one "pending" status is posted for the
     * head commit. With a null body the scan raises before anything is
     * stored or posted.
     */
    method ReceivePullRequestEvent(payload: Payload) returns (outcome: Outcome)
      modifies this
      ensures payload.body.None? ==>
        && outcome == MissingBody
        && pullRequests == old(pullRequests)
        && effects == old(effects)
      ensures payload.body.Some? ==>
        && outcome == Processed
        && pullRequests == old(pullRequests)
             + [PullRequestRecord(payload.number, PendingReview.Name(), Checklist.Scan(payload.body.value))]
        && effects == old(effects)
             + [CreateStatus(payload.headSha, "pending", StatusContext, PendingDescription)]
      ensures payload.body.Some? ==> StatusNamed(pullRequests[|pullRequests| - 1].status) == Some(PendingReview)
    {
      if payload.body.None? {
        return MissingBody;
      }
      var reviewers := Checklist.Scan(payload.body.value);
      pullRequests := pullRequests + [PullRequestRecord(payload.number, PendingReview.Name(), reviewers)];
      NameRoundTrip(PendingReview);
      effects := effects + [CreateStatus(payload.headSha, "pending", StatusContext, PendingDescription)];
      outcome := Processed;
    }
  }
}
