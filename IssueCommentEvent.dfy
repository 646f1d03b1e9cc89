/**
 * The issue-comment handler over a tracked pull request whose fields it
 * updates in place: a reviewer row's status is flipped, a row's login is
 * overwritten, the pull request's status is set, and CommandInvocation
 * records and host calls are appended. Each method is proved to leave the
 * object in the state the corresponding function of ReviewSession gives.
 */
module IssueCommentEvent {
  import opened Wrappers
  import opened Host
  import opened Commands
  import opened ReviewSession
  import ReviewFacts

  class PullRequest {
    const number: int
    const headSha: string
    var status: Status
    var reviewers: seq<Reviewer>
    /** The CommandInvocation records of this pull request, oldest first. */
    var invocations: seq<Invocation>
    /** The calls made to the host for this pull request, in order. */
    var effects: seq<Effect>

    function Snapshot(): Session
      reads this
    {
      Session(number, headSha, status, reviewers, invocations, effects)
    }

    /** Approved only when no row is pending. */
    ghost predicate Valid()
      reads this
    {
      Consistent(Snapshot())
    }

    /** A pull request awaiting review by `reviewers`, with no invocations and no host calls yet. */
    constructor (number: int, headSha: string, reviewers: seq<Reviewer>)
      ensures Valid()
      ensures Snapshot() == Session(number, headSha, PendingReview, reviewers, [], [])
    {
      this.number := number;
      this.headSha := headSha;
      status := PendingReview;
      this.reviewers := reviewers;
      invocations := [];
      effects := [];
    }

    /**
     * Handles one comment by `sender`: nothing at all when the pull request
     * carries an ignore label, otherwise the command the comment carries.
     */
    method Perform(env: Env, sender: string, comment: string)
      requires Valid()
      modifies this
      ensures Valid()
      ensures Snapshot() == Handle(old(Snapshot()), env, sender, comment)
    {
      ReviewFacts.HandleKeepsConsistent(Snapshot(), env, sender, comment);
      if Ignored(env) {
        return;
      }
      var intent := Classify(comment);
      match intent {
        case NoCommand =>
        case Approval => ApprovalComment(sender, comment);
        case Replace(pairs) => CommentReplace(env, sender, comment, pairs);
        case ReplaceMe => CommentReplaceMe(env, sender, comment);
      }
    }

    /** Completes the sender's latest pending row; the last completion approves the pull request and posts a status. */
    method ApprovalComment(sender: string, comment: string)
      requires Valid()
      modifies this
      ensures Valid()
      ensures Snapshot() == ApproveStep(old(Snapshot()), sender, comment)
    {
      var found := LastMatch(reviewers, PendingOf(sender));
      ReviewFacts.ApproveStepKeepsConsistent(Snapshot(), sender, comment);
      if found.Some? {
        var i := found.value;
        reviewers := reviewers[i := reviewers[i].(status := Approved)];
        invocations := invocations + [Invocation(sender, comment)];
        if NoPending(reviewers) {
          status := Approved;
          effects := effects + [CreateStatus(headSha, "success", StatusContext, ApprovedDescription)];
        } else {
          assert effects + [] == effects;
        }
      }
    }

    /** Applies the `code=login` pairs one after the other, then records the command. */
    method CommentReplace(env: Env, sender: string, comment: string, pairs: seq<Pair>)
      requires Valid()
      modifies this
      ensures Valid()
      ensures Snapshot() == Commit(old(Snapshot()), ReplaceAll(old(reviewers), env, pairs), sender, comment)
    {
      var before := reviewers;
      var i := 0;
      while i < |pairs|
        invariant 0 <= i <= |pairs|
        invariant reviewers == ReplaceAll(before, env, pairs[..i])
        invariant status == old(status) && invocations == old(invocations) && effects == old(effects)
      {
        var p := pairs[i];
        if p.code in env.rules && p.login in Acceptable(env.rules[p.code], env.teams) {
          var slot := LastMatch(reviewers, PendingRule(p.code));
          if slot.Some? {
            reviewers := reviewers[slot.value := reviewers[slot.value].(login := p.login)];
          }
        }
        assert pairs[..i + 1][..i] == pairs[..i];
        i := i + 1;
      }
      assert pairs[..|pairs|] == pairs;
      ReviewFacts.ReplaceKeepsSlots(before, env, pairs);
      RecordCommand(before, sender, comment);
    }

    /** Hands the sender's latest pending rule row to the first eligible acceptable login, then records the command. */
    method CommentReplaceMe(env: Env, sender: string, comment: string)
      requires Valid()
      modifies this
      ensures Valid()
      ensures Snapshot() == Commit(old(Snapshot()), ReplaceMeRows(old(reviewers), env, sender), sender, comment)
    {
      var before := reviewers;
      ReviewFacts.ReplaceMePicksEligible(before, env, sender);
      var slot := LastMatch(reviewers, PendingRuleOf(sender));
      if slot.Some? {
        var i := slot.value;
        var code := reviewers[i].ruleCode.value;
        if code in env.rules {
          var pool := Acceptable(env.rules[code], env.teams);
          var pick := FirstEligible(pool, Excluded(reviewers, env, sender), 0);
          if pick.Some? {
            reviewers := reviewers[i := reviewers[i].(login := pool[pick.value])];
          }
        }
      }
      RecordCommand(before, sender, comment);
    }

    /** Appends the CommandInvocation and, when the rows differ from `before`, the host call rewriting the reviewer list. */
    method RecordCommand(before: seq<Reviewer>, sender: string, comment: string)
      requires Valid()
      modifies this`invocations, this`effects
      ensures Valid()
      ensures invocations == old(invocations) + [Invocation(sender, comment)]
      ensures effects == old(effects) + if reviewers != before then [PatchReviewers(number, LoginsWith(reviewers, PendingReview))] else []
    {
      invocations := invocations + [Invocation(sender, comment)];
      if reviewers != before {
        effects := effects + [PatchReviewers(number, LoginsWith(reviewers, PendingReview))];
      } else {
        assert effects + [] == effects;
      }
    }
  }
}
