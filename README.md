# Cody review bot: pull-request intake and comment commands

Cody is a code-review bot. It models a pull request's review as a list of reviewer rows,
and it posts a commit status ("code-review/cody") that stays "pending" until every reviewer
has approved. This project models two of its event handlers and proves properties about them.

**Pull request opened** (`ReceivePullRequestEvent#perform`).
- The handler scans the pull request body with `/- \[.\] @(.+)/`. Each checklist line `- [ ] @login` names a reviewer.
- It stores the pull request with status "pending_review". The extracted logins, in body order, become its pending reviews.
- It posts one "pending" status for the head commit.

In the model:
- `Checklist.Scan` is the regular-expression scan written out by hand. It follows Ruby's `scan` semantics: left to right, no overlapping matches, `.` matching anything but a line feed, and a greedy capture.
- `Checklist.ByLines` is an independent line-by-line reference definition. A lemma proves the two agree.
- The handler is a method of `PullRequestEvent.EventStore`. The store holds the pull-request table and a log of the calls made to the host.

**Issue comment on a pull request** (`ReceiveIssueCommentEvent#perform`). The model follows the behaviour its tests fix.
- A pull request carrying one of the repository's ignore labels is left alone.
- Otherwise the comment is classified (`Commands.Classify`) as one of:
  - an approval: "lgtm" in any ASCII case, or the thumbs-up emoji;
  - a replace command: `cody replace code=login ...`, where whitespace and one `@` may stand before each login;
  - a replace-me request: `cody replace me!` or `cody replace me`, in any ASCII case;
  - nothing.
- Each command then acts on the pull request:
  - An approval completes the sender's latest pending row. When no row is left pending, the pull request becomes "approved" and a "success" status is posted.
  - A replace command hands the latest pending row of each named rule to the given login. This happens only when the rule's reviewer accepts that login: the reviewer itself, or the members of the team it names when it is a numeric team id.
  - A replace-me request hands the requester's latest pending rule row to the first acceptable login that is not excluded. Excluded logins are the requester, paused users, commit authors, and anyone already holding a pending row.

In the model:
- `ReviewSession.Handle` is the pure transition on a `Session` value.
- `IssueCommentEvent.PullRequest` is a class whose methods update the status, the reviewer rows, the invocation records and the host-call log in place. Each method is proved to produce exactly the state `Handle` (or the matching step) gives.

Lookups are plain inputs (`ReviewSession.Env`): settings, labels, review rules, team members, paused users and commit authors. Calls to the host are entries appended to an effects log (`Host.Effect`).

Two choices follow the tests:
- Replace-me never picks a commit author, even one the rule accepts. The tests at spec/mediators/receive_issue_comment_event_spec.rb:194, :199-205 and :208-235 only force commit authors to stay out of the candidate pool, because there `maverick` is never a login the rule accepts. The stub at :194 shows the handler reads the commit authors, and leaving them out of the choice is the only use of that list that agrees with :208-235. The model goes one step further and excludes them outright, so a rule that names a commit author still does not hand the row to them.
- A finished row stores "approved" (:103, :112). `completed_review` is the name of the scope that reads such rows (:75). The model uses one `Status` type for rows and pull requests, with the stored texts "pending_review" and "approved".

## Model

| member | source | states |
|---|---|---|
| Host.Status.Name | app/mediators/receive_pull_request_event.rb:9 | the text stored for a status: "pending_review" exactly for a pending status, "approved" exactly for an approved one; the handler stores it in the new record |
| Host.StatusNamed | app/mediators/receive_pull_request_event.rb:9 | reading a stored text back: a status is found only for the text that status is stored as, and no other text names one |
| Host.NameRoundTrip | app/mediators/receive_pull_request_event.rb:9 | every status is read back from the text it is stored as |
| Checklist.LineEnd | app/mediators/receive_pull_request_event.rb:5 | the capture's end: the first line feed of the text, or its end; no line feed comes before it |
| Checklist.MatchWithinLine | app/mediators/receive_pull_request_event.rb:5 | a match (`- [`, a non-line-feed character, `] @`, one capture character) lies entirely on one line |
| Checklist.Scan | app/mediators/receive_pull_request_event.rb:5 | every extracted login is non-empty and holds no line feed |
| Checklist.ScanFirstLine | app/mediators/receive_pull_request_event.rb:5 | the scan yields the leftmost capture of the first line (if any) followed by the scan of the lines after it |
| Checklist.ScanIsByLines | app/mediators/receive_pull_request_event.rb:5 | the left-to-right non-overlapping scan equals the line-by-line reference: one login per line, from its leftmost match to the end of the line |
| ChecklistFacts.ScanEmptyIff | app/mediators/receive_pull_request_event.rb:5-9 | the list of pending reviews is empty exactly when the pattern occurs nowhere in the body |
| ChecklistFacts.AtMostOneLoginPerLine | app/mediators/receive_pull_request_event.rb:5 | never more logins than lines: the greedy capture consumes the rest of its line |
| ChecklistFacts.ItemThenLine | app/mediators/receive_pull_request_event.rb:5 | a checklist item ending its line yields its login, and scanning continues on the next line |
| ChecklistFacts.AnyBoxCharacter | app/mediators/receive_pull_request_event.rb:5 | whatever single character fills the box (`x`, a space, ...), the login is extracted untrimmed, trailing spaces or carriage return included |
| ChecklistFacts.GreedyCapture | app/mediators/receive_pull_request_event.rb:5 | `- [ ] @a - [ ] @b` yields the one login `a - [ ] @b` |
| ChecklistFacts.SkipNonMatching | app/mediators/receive_pull_request_event.rb:5 | positions where the pattern does not match contribute nothing to the scan |
| ChecklistFacts.TwoChecklistLines | app/mediators/receive_pull_request_event.rb:5 | after unrelated text, two checklist lines yield their two logins in body order; a match may start mid-line |
| ChecklistFacts.EmptyMentionIgnored | app/mediators/receive_pull_request_event.rb:5 | for any box character, `- [.] @` right before a line feed yields nothing and the scan goes on with the next line; right at the end of the body it yields nothing |
| PullRequestEvent.EventStore.ReceivePullRequestEvent | app/mediators/receive_pull_request_event.rb:4-15 | with a body: exactly one record (payload number, the stored text of the pending status, the scanned logins in order) and then exactly one "pending" status for the head sha with context "code-review/cody"; the record's status text reads back as pending; with a null body: an error and nothing stored or posted |
| Commands.SkipSpaces | spec/mediators/receive_issue_comment_event_spec.rb:169-177 | only leading whitespace is removed, and the rest starts with a non-whitespace character |
| Commands.Token | spec/mediators/receive_issue_comment_event_spec.rb:121 | the longest run of characters that are neither whitespace, `=` nor `@` |
| Commands.ReadPair | spec/mediators/receive_issue_comment_event_spec.rb:121 | a pair that is read has a non-empty code and login free of separators, and input is consumed |
| Commands.ParsePairs | spec/mediators/receive_issue_comment_event_spec.rb:121 | every parsed pair has a non-empty code and a login without `@` or whitespace |
| Commands.Classify | spec/mediators/receive_issue_comment_event_spec.rb:37-181 | the whole comment is the command: "lgtm" in any ASCII case or the thumbs-up emoji is an approval; "cody replace me" or "cody replace me!" in any ASCII case is a replace-me request; "cody replace " followed by a non-empty readable pair list is a replace with those pairs; anything else is no command. Properties: CommandFacts.ApprovalComments, ClassifyRenderedReplace, ReplaceTargetNormalised, EqualsSignIsNotReplaceMe |
| CommandFacts.SkipSpacesIsSuffix | spec/mediators/receive_issue_comment_event_spec.rb:169-177 | skipping whitespace leaves a suffix of the input |
| CommandFacts.TokenIsPrefix | spec/mediators/receive_issue_comment_event_spec.rb:121 | a token is a prefix of the input |
| CommandFacts.ReadPairOf | spec/mediators/receive_issue_comment_event_spec.rb:159-177 | `code=`, whitespace, an optional `@`, then the login: the pair read is exactly (code, login) |
| CommandFacts.ParseRenderRoundTrip | spec/mediators/receive_issue_comment_event_spec.rb:121 | writing well-formed pairs as `code=login` separated by spaces and parsing them back gives the same pairs |
| CommandFacts.EqualsSignIsNotReplaceMe | spec/mediators/receive_issue_comment_event_spec.rb:181 | a comment with `=` right after a non-empty code is never read as a replace-me request |
| CommandFacts.ClassifyRenderedReplace | spec/mediators/receive_issue_comment_event_spec.rb:121 | every non-empty written replace command is classified as a replace with exactly its pairs |
| CommandFacts.ReplaceTargetNormalised | spec/mediators/receive_issue_comment_event_spec.rb:159-177 | `cody replace foo=@BrentW` and `cody replace foo= @BrentW` both replace with the login `BrentW` |
| CommandFacts.ApprovalComments | spec/mediators/receive_issue_comment_event_spec.rb:37-98 | "lgtm", "Lgtm" and the thumbs-up emoji are approvals; "cody replace me!" is a replace-me request |
| ReviewSession.LoginsWith | spec/mediators/receive_issue_comment_event_spec.rb:74-75 | a login is in the pending (or completed) scope exactly when some row of that login has that status |
| ReviewSession.LastMatch | spec/mediators/receive_issue_comment_event_spec.rb:101-113 | the index found is the latest row matching the query; no row matches when none is found |
| ReviewSession.FirstEligible | spec/mediators/receive_issue_comment_event_spec.rb:199-235 | the pick is a non-excluded login, and every login before it is excluded; when there is no pick, every login is excluded |
| ReviewSession.Acceptable | spec/mediators/receive_issue_comment_event_spec.rb:217-227 | the logins a rule accepts: when its reviewer is all digits, the members of that team (none if the team lookup yields nothing); otherwise the reviewer alone. Used by ReviewFacts.ReplaceScenario and ReplaceMeScenarioNoCandidate |
| ReviewSession.ApproveStep | spec/mediators/receive_issue_comment_event_spec.rb:69-113 | the sender's latest pending row becomes "approved" and one invocation is recorded; when no row is left pending, the pull request becomes "approved" and one success status is posted; without a pending row nothing changes. Properties: ReviewFacts.ApprovalCompletesLatestRow, LastApproverApprovesPullRequest, ApprovalWithoutPendingRowIsNoOp, ApprovalOfDuplicateReviewer, ApproveStepKeepsConsistent |
| ReviewSession.ReplaceOne | spec/mediators/receive_issue_comment_event_spec.rb:121-177 | one `code=login` pair: when the rule exists and accepts the login, the rule's latest pending row takes that login; otherwise nothing changes. Property: ReviewFacts.ReplaceOneKeepsSlots |
| ReviewSession.ReplaceAll | spec/mediators/receive_issue_comment_event_spec.rb:121-177 | the pairs of a replace command applied in order. Properties: ReviewFacts.ReplaceKeepsSlots, ReplaceScenario |
| ReviewSession.ReplaceMeRows | spec/mediators/receive_issue_comment_event_spec.rb:180-235 | the requester's latest pending rule row goes to the first login the rule accepts that is not the requester, paused, a commit author or already pending; otherwise nothing changes. Properties: ReviewFacts.ReplaceMePicksEligible, ReplaceMePicksFirstEligible, ReplaceMeNoOpIff, ReplaceMeScenarioReassigns, ReplaceMeScenarioNoCandidate |
| ReviewSession.Handle | spec/mediators/receive_issue_comment_event_spec.rb:24-67 | one comment: an ignore label on the pull request stops everything before the comment is read; otherwise the classified command is applied, and a replace or replace-me records one invocation and a reviewer-list update when rows changed. Properties: ReviewFacts.IgnoreLabelShortCircuit, ReplaceRecordsOneInvocation, HandleKeepsConsistent, ApprovedIsFinal |
| ReviewFacts.IgnoreLabelShortCircuit | spec/mediators/receive_issue_comment_event_spec.rb:42-67 | with an ignore label on the pull request, nothing changes and no invocation is recorded, whatever the comment |
| ReviewFacts.ApprovalCompletesLatestRow | spec/mediators/receive_issue_comment_event_spec.rb:69-76 | an approval from a pending reviewer changes only that login's latest pending row, to "approved"; puts the login in the completed scope; records one invocation; approves the pull request (with one success status) exactly when no row is left pending |
| ReviewFacts.LastApproverApprovesPullRequest | spec/mediators/receive_issue_comment_event_spec.rb:78-87 | the last pending reviewer's approval makes the pull request "approved", moves the login from the pending to the completed scope, and posts one status for the head commit |
| ReviewFacts.ApprovalWithoutPendingRowIsNoOp | spec/mediators/receive_issue_comment_event_spec.rb:69-76 | an approval from a login without a pending row changes nothing and records no invocation |
| ReviewFacts.ApprovalOfDuplicateReviewer | spec/mediators/receive_issue_comment_event_spec.rb:101-113 | with an approved and a pending row for the same login, the approval lands on the pending one |
| ReviewFacts.ReplaceOneKeepsSlots | spec/mediators/receive_issue_comment_event_spec.rb:137-157 | one pair keeps rows, statuses and rules; a changed row was a pending row of that rule and now holds a login the rule accepts |
| ReviewFacts.ReplaceKeepsSlots | spec/mediators/receive_issue_comment_event_spec.rb:121-157 | a whole replace command adds no row, changes no status or rule, and only gives pending rule rows acceptable logins |
| ReviewFacts.ReplaceScenario | spec/mediators/receive_issue_comment_event_spec.rb:121-157 | `foo=BrentW bar=mrpasquini` moves rule `foo`'s row from aergonaut to BrentW when BrentW is the rule's reviewer, and changes nothing when octocat is |
| ReviewFacts.ReplaceRecordsOneInvocation | spec/mediators/receive_issue_comment_event_spec.rb:145-147 | a replace comment records exactly one invocation however many pairs apply, and leaves the pull request's status alone |
| ReviewFacts.ReplaceMePicksEligible | spec/mediators/receive_issue_comment_event_spec.rb:194-205 | replace-me keeps every slot, and may only change the requester's pending rule row, to an acceptable login that is not the requester, not paused, not a commit author and not already pending |
| ReviewFacts.ReplaceMePicksFirstEligible | spec/mediators/receive_issue_comment_event_spec.rb:199-205 | the login replace-me puts on the requester's latest pending rule row is the first login the rule accepts, in the rule's order, that is not excluded |
| ReviewFacts.ReplaceMeNoOpIff | spec/mediators/receive_issue_comment_event_spec.rb:208-235 | replace-me leaves the rows unchanged exactly when the requester has no pending rule row, or their latest pending rule row names no existing rule, or every login that rule accepts is excluded |
| ReviewFacts.ReplaceMeScenarioReassigns | spec/mediators/receive_issue_comment_event_spec.rb:199-205 | with rule reviewer mrpasquini and commit author maverick, aergonaut's rule row goes to mrpasquini |
| ReviewFacts.ReplaceMeScenarioNoCandidate | spec/mediators/receive_issue_comment_event_spec.rb:208-235 | when the only acceptable login is the requester, or the rule's team 1234 has only paused members, aergonaut keeps the row; maverick is never picked |
| ReviewFacts.ApproveStepKeepsConsistent | spec/mediators/receive_issue_comment_event_spec.rb:78-87 | an approval step leaves the pull request "approved" only if no row is pending |
| ReviewFacts.HandleKeepsConsistent | spec/mediators/receive_issue_comment_event_spec.rb:78-87 | after any comment, the pull request is "approved" only if no row is pending |
| ReviewFacts.ApprovedIsFinal | spec/mediators/receive_issue_comment_event_spec.rb:84-87 | once approved, no comment changes the pull request's status or its rows |
| IssueCommentEvent.PullRequest.constructor | spec/mediators/receive_issue_comment_event_spec.rb:7 | a new pull request is "pending_review" with the given rows, no invocations and no host calls |
| IssueCommentEvent.PullRequest.Perform | spec/mediators/receive_issue_comment_event_spec.rb:24-35 | the in-place handler leaves the pull request in the state `Handle` gives and keeps it consistent |
| IssueCommentEvent.PullRequest.ApprovalComment | spec/mediators/receive_issue_comment_event_spec.rb:69-113 | flipping the row in place gives the state of the approval step, and the pull request stays consistent |
| IssueCommentEvent.PullRequest.CommentReplace | spec/mediators/receive_issue_comment_event_spec.rb:120-177 | the loop over the pairs gives the rows of the pairs applied in order, plus one invocation and one reviewer-list update if rows changed; the pull request stays consistent |
| IssueCommentEvent.PullRequest.CommentReplaceMe | spec/mediators/receive_issue_comment_event_spec.rb:180-235 | overwriting the login in place gives the replace-me rows, plus one invocation and one reviewer-list update if a row changed; the pull request stays consistent |
| IssueCommentEvent.PullRequest.RecordCommand | spec/mediators/receive_issue_comment_event_spec.rb:145-147 | exactly one invocation is appended, and a reviewer-list update only when the rows changed; status and rows are untouched, so the pull request stays consistent |

## Left out

- HTTP calls to the host are not made. Creating a status and patching the pull request become entries of an effects log. Team members, labels and commit authors are inputs. Access tokens and repository names from the environment are not modelled.
- Sidekiq dispatch, retries and at-least-once delivery are left out. Each event is handled once and in sequence.
- ActiveRecord persistence is not modelled: `create!` validation failures, `reload`, `find_by` and the lookup of the pull request by number. The store is an in-memory sequence, and the comment handler receives the pull request it acts on.
- The source of `ReceiveIssueCommentEvent` is not part of this model. Its behaviour is reconstructed from its tests, and comment grammar beyond the tested forms is read as no command. That includes "lgtm" as the leading token of a longer comment, and a replace command with a malformed pair.
- The description of the final "success" status ("Code review complete") is an assumed value, because it is not visible in the modelled files.
- The body text of the reviewer-list update is not modelled. The update carries only the pending logins in row order.
- Replace-me picks the first eligible login in the rule's order. Any other deterministic choice is not modelled.
- app/graphql/types/user_type.rb (GraphQL types, ids, policy scoping and time zones) is not part of this model.
- ReviewSession.LoginsWith: the contract states which logins are in a scope, not their order, although the function keeps row order.
