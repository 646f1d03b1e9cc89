/**
 * The review state of one pull request and how an issue comment changes
 * it (`ReceiveIssueCommentEvent#perform`): approvals complete reviewer
 * rows and, with the last one, approve the pull request; replace commands
 * swap the login of a rule's row for an acceptable reviewer; a replace-me
 * request hands the requester's rule row to an eligible colleague.
 *
 * Everything the handler looks up (settings, labels on the pull request,
 * review rules, team members, paused users, commit authors) is an input.
 */
module ReviewSession {
  import opened Wrappers
  import opened Host
  import opened Commands

  /** A reviewer row: who reviews, whether they have approved, and the review rule whose slot the row fills. */
  datatype Reviewer = Reviewer(login: string, status: Status, ruleCode: Option<string>)

  /** What the handler reads besides the pull request itself. */
  datatype Env = Env(
    ignoreLabels: seq<string>,          // the repository's ignore-label setting
    labels: seq<string>,                // labels on the pull request
    rules: map<string, string>,         // review rule short code -> reviewer login or numeric team id
    teams: map<string, seq<string>>,    // team id -> member logins, as the host reports them
    paused: seq<string>,                // logins of paused users
    commitAuthors: seq<string>)         // authors of the pull request's commits

  /** A CommandInvocation record: who issued which comment. */
  datatype Invocation = Invocation(login: string, comment: string)

  /** A pull request's review state, its audit records and the host calls made for it. */
  datatype Session = Session(
    number: int,
    headSha: string,
    status: Status,
    reviewers: seq<Reviewer>,
    invocations: seq<Invocation>,
    effects: seq<Effect>)

  // ----- Scopes and row queries -----

  /** The logins of the rows with status `st`, in row order: the `pending_review` and `completed_review` scopes. */
  function LoginsWith(rows: seq<Reviewer>, st: Status): (r: seq<string>)
    ensures forall x :: x in r <==> exists i :: 0 <= i < |rows| && rows[i].status == st && rows[i].login == x
  {
    if rows == [] then []
    else
      var last := rows[|rows| - 1];
      var before := LoginsWith(rows[..|rows| - 1], st);
      assert forall i :: 0 <= i < |rows| - 1 ==> rows[..|rows| - 1][i] == rows[i];
      if last.status == st then before + [last.login] else before
  }

  predicate NoPending(rows: seq<Reviewer>)
  {
    forall i :: 0 <= i < |rows| ==> rows[i].status != PendingReview
  }

  /** The rows a command addresses. */
  datatype Query =
    | PendingOf(login: string)       // a pending row of this login
    | PendingRule(code: string)      // a pending row filling this rule's slot
    | PendingRuleOf(login: string)   // a pending row of this login filling some rule's slot

  predicate Matches(r: Reviewer, q: Query)
  {
    && r.status == PendingReview
    && match q
       case PendingOf(login) => r.login == login
       case PendingRule(code) => r.ruleCode == Some(code)
       case PendingRuleOf(login) => r.login == login && r.ruleCode.Some?
  }

  /** The latest (last created) row matching `q`, if any. */
  function LastMatch(rows: seq<Reviewer>, q: Query): (r: Option<nat>)
    ensures r.Some? ==> r.value < |rows| && Matches(rows[r.value], q)
    ensures r.Some? ==> forall j :: r.value < j < |rows| ==> !Matches(rows[j], q)
    ensures r.None? ==> forall j :: 0 <= j < |rows| ==> !Matches(rows[j], q)
  {
    if rows == [] then None
    else if Matches(rows[|rows| - 1], q) then Some(|rows| - 1)
    else
      var r := LastMatch(rows[..|rows| - 1], q);
      assert forall j :: 0 <= j < |rows| - 1 ==> rows[..|rows| - 1][j] == rows[j];
      r
  }

  // ----- Review rules -----

  /** A rule reviewer made only of digits names a team rather than a user. */
  predicate IsTeamId(reviewer: string)
  {
    reviewer != [] && forall i :: 0 <= i < |reviewer| ==> '0' <= reviewer[i] <= '9'
  }

  /**
   * The logins acceptable for a rule's slot: the members of the team its
   * reviewer names (none when the lookup yields nothing), or else the
   * reviewer alone.
   */
  function Acceptable(reviewer: string, teams: map<string, seq<string>>): seq<string>
  {
    if IsTeamId(reviewer) then
      if reviewer in teams then teams[reviewer] else []
    else [reviewer]
  }

  // ----- Approval -----

  /** Approval by `sender`: their latest pending row is completed; the last completion approves the pull request. */
  function ApproveStep(s: Session, sender: string, comment: string): Session
  {
    match LastMatch(s.reviewers, PendingOf(sender))
    case None => s
    case Some(i) =>
      var rows := s.reviewers[i := s.reviewers[i].(status := Approved)];
      var done := NoPending(rows);
      s.(status := if done then Approved else s.status,
         reviewers := rows,
         invocations := s.invocations + [Invocation(sender, comment)],
         effects := s.effects + if done then [CreateStatus(s.headSha, "success", StatusContext, ApprovedDescription)] else [])
  }

  // ----- Replace -----

  /** One `code=login` pair: the latest pending row of the rule takes the login, if the rule exists and accepts it. */
  function ReplaceOne(rows: seq<Reviewer>, env: Env, p: Pair): seq<Reviewer>
  {
    if p.code !in env.rules || p.login !in Acceptable(env.rules[p.code], env.teams) then rows
    else
      match LastMatch(rows, PendingRule(p.code))
      case None => rows
      case Some(i) => rows[i := rows[i].(login := p.login)]
  }

  /** The pairs applied in order. */
  function ReplaceAll(rows: seq<Reviewer>, env: Env, ps: seq<Pair>): seq<Reviewer>
    decreases |ps|
  {
    if ps == [] then rows
    else ReplaceOne(ReplaceAll(rows, env, ps[..|ps| - 1]), env, ps[|ps| - 1])
  }

  /** Records the command and, when rows changed, rewrites the pull request's reviewer list on the host. */
  function Commit(s: Session, rows: seq<Reviewer>, sender: string, comment: string): Session
  {
    s.(reviewers := rows,
       invocations := s.invocations + [Invocation(sender, comment)],
       effects := s.effects + if rows != s.reviewers then [PatchReviewers(s.number, LoginsWith(rows, PendingReview))] else [])
  }

  // ----- Replace me -----

  /** Logins never picked to take over from `sender`. */
  function Excluded(rows: seq<Reviewer>, env: Env, sender: string): seq<string>
  {
    [sender] + env.paused + env.commitAuthors + LoginsWith(rows, PendingReview)
  }

  /** The index of the first login of `pool`, from `from` on, that is not excluded. */
  function FirstEligible(pool: seq<string>, excluded: seq<string>, from: nat): (r: Option<nat>)
    requires from <= |pool|
    ensures r.Some? ==> from <= r.value < |pool| && pool[r.value] !in excluded
    ensures r.Some? ==> forall j :: from <= j < r.value ==> pool[j] in excluded
    ensures r.None? ==> forall j :: from <= j < |pool| ==> pool[j] in excluded
    decreases |pool| - from
  {
    if from == |pool| then None
    else if pool[from] !in excluded then Some(from)
    else FirstEligible(pool, excluded, from + 1)
  }

  /** The requester's latest pending rule row goes to the first eligible acceptable login, if there is one. */
  function ReplaceMeRows(rows: seq<Reviewer>, env: Env, sender: string): seq<Reviewer>
  {
    match LastMatch(rows, PendingRuleOf(sender))
    case None => rows
    case Some(i) =>
      var code := rows[i].ruleCode.value;
      if code !in env.rules then rows
      else
        var pool := Acceptable(env.rules[code], env.teams);
        match FirstEligible(pool, Excluded(rows, env, sender), 0)
        case None => rows
        case Some(k) => rows[i := rows[i].(login := pool[k])]
  }

  // ----- The handler -----

  /** Some label of the pull request is one of the repository's ignore labels. */
  predicate Ignored(env: Env)
  {
    exists l :: l in env.labels && l in env.ignoreLabels
  }

  /** The effect of one issue comment by `sender` on the pull request. */
  function Handle(s: Session, env: Env, sender: string, comment: string): Session
  {
    if Ignored(env) then s
    else
      match Classify(comment)
      case NoCommand => s
      case Approval => ApproveStep(s, sender, comment)
      case Replace(ps) => Commit(s, ReplaceAll(s.reviewers, env, ps), sender, comment)
      case ReplaceMe => Commit(s, ReplaceMeRows(s.reviewers, env, sender), sender, comment)
  }

  /** A pull request is approved only when none of its rows is still pending. */
  predicate Consistent(s: Session)
  {
    s.status == Approved ==> NoPending(s.reviewers)
  }
}

module ReviewFacts {
  import opened Wrappers
  import opened Host
  import opened Commands
  import opened ReviewSession

  /** Rows differ at most in the one position `i`. */
  predicate SameExcept(a: seq<Reviewer>, b: seq<Reviewer>, i: nat)
  {
    |a| == |b| && forall j :: 0 <= j < |a| && j != i ==> a[j] == b[j]
  }

  /** Rows keep their number, statuses and rule codes (only logins may differ). */
  predicate SameSlots(a: seq<Reviewer>, b: seq<Reviewer>)
  {
    |a| == |b| && forall j :: 0 <= j < |a| ==> a[j].status == b[j].status && a[j].ruleCode == b[j].ruleCode
  }

  // ----- Ignore labels -----

  /** A pull request carrying an ignore label: no invocation is recorded and nothing changes, whatever the comment. */
  lemma IgnoreLabelShortCircuit(s: Session, env: Env, sender: string, comment: string)
    requires exists l :: l in env.labels && l in env.ignoreLabels
    ensures Handle(s, env, sender, comment) == s
  {
  }

  // ----- Approval -----

  /**
   * An approval from a login with a pending row completes exactly that
   * login's latest pending row, records one invocation, and approves the
   * pull request (with one "success" status) exactly when no row is left
   * pending.
   */
  lemma ApprovalCompletesLatestRow(s: Session, env: Env, sender: string, comment: string)
    requires !Ignored(env) && Classify(comment) == Approval
    requires Consistent(s)
    requires LastMatch(s.reviewers, PendingOf(sender)).Some?
    ensures var t := Handle(s, env, sender, comment);
      var i := LastMatch(s.reviewers, PendingOf(sender)).value;
      && SameExcept(s.reviewers, t.reviewers, i)
      && s.reviewers[i].login == sender && s.reviewers[i].status == PendingReview
      && t.reviewers[i] == s.reviewers[i].(status := Approved)
      && sender in LoginsWith(t.reviewers, Approved)
      && t.invocations == s.invocations + [Invocation(sender, comment)]
      && (t.status == Approved <==> NoPending(t.reviewers))
      && t.effects == s.effects + if NoPending(t.reviewers) then [CreateStatus(s.headSha, "success", StatusContext, ApprovedDescription)] else []
  {
    var i := LastMatch(s.reviewers, PendingOf(sender)).value;
    var t := Handle(s, env, sender, comment);
    assert t.reviewers[i].status == Approved && t.reviewers[i].login == sender;
    assert s.status == PendingReview;
  }

  /**
   * When the approver held the only pending row, the login leaves the
   * pending scope, enters the completed scope, the pull request becomes
   * "approved" and one status is posted for the head commit.
   */
  lemma LastApproverApprovesPullRequest(s: Session, env: Env, sender: string, comment: string, i: nat)
    requires !Ignored(env) && Classify(comment) == Approval
    requires i < |s.reviewers| && s.reviewers[i].login == sender && s.reviewers[i].status == PendingReview
    requires forall j :: 0 <= j < |s.reviewers| && j != i ==> s.reviewers[j].status != PendingReview
    ensures var t := Handle(s, env, sender, comment);
      && t.status == Approved
      && sender !in LoginsWith(t.reviewers, PendingReview)
      && sender in LoginsWith(t.reviewers, Approved)
      && |t.invocations| == |s.invocations| + 1
      && t.effects == s.effects + [CreateStatus(s.headSha, "success", StatusContext, ApprovedDescription)]
  {
    var found := LastMatch(s.reviewers, PendingOf(sender));
    assert Matches(s.reviewers[i], PendingOf(sender));
    assert found.Some? && found.value == i;
    var rows := s.reviewers[i := s.reviewers[i].(status := Approved)];
    assert NoPending(rows);
    assert rows[i].status == Approved && rows[i].login == sender;
  }

  /** An approval step approves the pull request only when it leaves no row pending, and flips no row back to pending. */
  lemma ApproveStepKeepsConsistent(s: Session, sender: string, comment: string)
    requires Consistent(s)
    ensures Consistent(ApproveStep(s, sender, comment))
  {
    match LastMatch(s.reviewers, PendingOf(sender))
    case None =>
    case Some(i) =>
      var rows := s.reviewers[i := s.reviewers[i].(status := Approved)];
      assert s.status == PendingReview;
  }

  /** An approval from a login without a pending row (not a reviewer, or already approved) changes nothing. */
  lemma ApprovalWithoutPendingRowIsNoOp(s: Session, env: Env, sender: string, comment: string)
    requires Classify(comment) == Approval
    requires forall j :: 0 <= j < |s.reviewers| ==> !(s.reviewers[j].login == sender && s.reviewers[j].status == PendingReview)
    ensures Handle(s, env, sender, comment) == s
  {
  }

  /** With two rows for the same login, one already "approved", the approval lands on the pending one. */
  lemma ApprovalOfDuplicateReviewer(s: Session, env: Env, login: string, comment: string)
    requires !Ignored(env) && Classify(comment) == Approval
    requires s.reviewers == [Reviewer(login, Approved, None), Reviewer(login, PendingReview, None)]
    ensures Handle(s, env, login, comment).reviewers == [Reviewer(login, Approved, None), Reviewer(login, Approved, None)]
  {
    assert Matches(s.reviewers[1], PendingOf(login));
    assert LastMatch(s.reviewers, PendingOf(login)) == Some(1);
  }

  // ----- Replace -----

  /** One pair keeps every slot and only hands a pending rule row to a login the rule accepts. */
  lemma ReplaceOneKeepsSlots(rows: seq<Reviewer>, env: Env, p: Pair)
    ensures var r := ReplaceOne(rows, env, p);
      && SameSlots(rows, r)
      && forall j :: 0 <= j < |rows| && r[j].login != rows[j].login ==>
           && rows[j].status == PendingReview
           && rows[j].ruleCode == Some(p.code)
           && p.code in env.rules
           && r[j].login == p.login
           && p.login in Acceptable(env.rules[p.code], env.teams)
  {
    if p.code in env.rules && p.login in Acceptable(env.rules[p.code], env.teams) {
      match LastMatch(rows, PendingRule(p.code))
      case None =>
      case Some(i) =>
        var r := rows[i := rows[i].(login := p.login)];
        assert forall j :: 0 <= j < |rows| && j != i ==> r[j] == rows[j];
    }
  }

  /**
   * A replace command never adds or removes rows and never changes a
   * status or a rule; a row whose login changes was a pending rule row,
   * and its new login is acceptable for that rule.
   */
  lemma {:induction false} ReplaceKeepsSlots(rows: seq<Reviewer>, env: Env, ps: seq<Pair>)
    ensures var r := ReplaceAll(rows, env, ps);
      && SameSlots(rows, r)
      && forall j :: 0 <= j < |rows| && r[j].login != rows[j].login ==>
           && rows[j].status == PendingReview
           && rows[j].ruleCode.Some?
           && rows[j].ruleCode.value in env.rules
           && r[j].login in Acceptable(env.rules[rows[j].ruleCode.value], env.teams)
    decreases |ps|
  {
    if ps != [] {
      var mid := ReplaceAll(rows, env, ps[..|ps| - 1]);
      ReplaceKeepsSlots(rows, env, ps[..|ps| - 1]);
      ReplaceOneKeepsSlots(mid, env, ps[|ps| - 1]);
    }
  }

  /**
   * `cody replace foo=BrentW bar=mrpasquini` on a pull request whose rule
   * `foo` slot is held by aergonaut: the slot goes to BrentW when BrentW is
   * the rule's reviewer, and the pair for `bar`, which has no rule, is
   * skipped. When the rule's reviewer is someone else, no row changes.
   */
  lemma ReplaceScenario(rows: seq<Reviewer>, env: Env, foo: Pair, bar: Pair)
    requires rows == [Reviewer("aergonaut", PendingReview, None), Reviewer("aergonaut", PendingReview, Some("foo"))]
    requires foo == Pair("foo", "BrentW") && bar == Pair("bar", "mrpasquini")
    requires env.rules == map["foo" := "BrentW"] || env.rules == map["foo" := "octocat"]
    ensures env.rules["foo"] == "BrentW" ==> ReplaceAll(rows, env, [foo, bar]) == rows[1 := Reviewer("BrentW", PendingReview, Some("foo"))]
    ensures env.rules["foo"] == "octocat" ==> ReplaceAll(rows, env, [foo, bar]) == rows
  {
    assert [foo, bar][..1] == [foo];
    assert [foo][..0] == [];
    assert ReplaceAll(rows, env, [foo]) == ReplaceOne(rows, env, foo);
    assert "bar" !in env.rules;
    assert ReplaceAll(rows, env, [foo, bar]) == ReplaceOne(rows, env, foo);
    assert Matches(rows[1], PendingRule("foo"));
    assert LastMatch(rows, PendingRule("foo")) == Some(1);
    if env.rules["foo"] == "BrentW" {
      assert !IsTeamId("BrentW") by { assert !('0' <= "BrentW"[0] <= '9'); }
      assert Acceptable("BrentW", env.teams) == ["BrentW"];
    } else {
      assert !IsTeamId("octocat") by { assert !('0' <= "octocat"[0] <= '9'); }
      assert Acceptable("octocat", env.teams) == ["octocat"];
      assert "BrentW" != "octocat";
    }
  }

  /** A replace comment records exactly one invocation, however many of its pairs apply. */
  lemma ReplaceRecordsOneInvocation(s: Session, env: Env, sender: string, comment: string, ps: seq<Pair>)
    requires !Ignored(env) && Classify(comment) == Replace(ps)
    ensures Handle(s, env, sender, comment).invocations == s.invocations + [Invocation(sender, comment)]
    ensures Handle(s, env, sender, comment).status == s.status
  {
  }

  // ----- Replace me -----

  /**
   * Replace-me keeps every slot, and the only row it may change is a
   * pending rule row of the requester, whose new login is acceptable for
   * the rule and is neither the requester, nor paused, nor a commit author,
   * nor already holding a pending row.
   */
  lemma ReplaceMePicksEligible(rows: seq<Reviewer>, env: Env, sender: string)
    ensures var r := ReplaceMeRows(rows, env, sender);
      && SameSlots(rows, r)
      && forall j :: 0 <= j < |rows| && r[j].login != rows[j].login ==>
           && rows[j].login == sender
           && rows[j].status == PendingReview
           && rows[j].ruleCode.Some?
           && rows[j].ruleCode.value in env.rules
           && r[j].login in Acceptable(env.rules[rows[j].ruleCode.value], env.teams)
           && r[j].login != sender
           && r[j].login !in env.paused
           && r[j].login !in env.commitAuthors
           && r[j].login !in LoginsWith(rows, PendingReview)
  {
    match LastMatch(rows, PendingRuleOf(sender))
    case None =>
    case Some(i) =>
      var code := rows[i].ruleCode.value;
      if code in env.rules {
        var pool := Acceptable(env.rules[code], env.teams);
        var ex := Excluded(rows, env, sender);
        match FirstEligible(pool, ex, 0)
        case None =>
        case Some(k) =>
          var r := rows[i := rows[i].(login := pool[k])];
          assert pool[k] !in ex;
          assert r == ReplaceMeRows(rows, env, sender);
          assert forall j :: 0 <= j < |rows| && j != i ==> r[j] == rows[j];
      }
  }

  /**
   * The login replace-me picks is the first acceptable login, in the rule's
   * order, that is not excluded.
   */
  lemma ReplaceMePicksFirstEligible(rows: seq<Reviewer>, env: Env, sender: string, i: nat, k: nat)
    requires LastMatch(rows, PendingRuleOf(sender)) == Some(i)
    requires rows[i].ruleCode.value in env.rules
    requires var pool := Acceptable(env.rules[rows[i].ruleCode.value], env.teams);
      && k < |pool|
      && pool[k] !in Excluded(rows, env, sender)
      && forall m :: 0 <= m < k ==> pool[m] in Excluded(rows, env, sender)
    ensures ReplaceMeRows(rows, env, sender)
         == rows[i := rows[i].(login := Acceptable(env.rules[rows[i].ruleCode.value], env.teams)[k])]
  {
    var pool := Acceptable(env.rules[rows[i].ruleCode.value], env.teams);
    var ex := Excluded(rows, env, sender);
    var pick := FirstEligible(pool, ex, 0);
    assert pick.Some?;
    assert pick.value == k;
  }

  /**
   * Replace-me changes nothing exactly when the requester has no pending
   * rule row, or their latest pending rule row names no existing rule, or
   * every login that rule accepts is excluded.
   */
  lemma ReplaceMeNoOpIff(rows: seq<Reviewer>, env: Env, sender: string)
    ensures ReplaceMeRows(rows, env, sender) == rows <==>
      match LastMatch(rows, PendingRuleOf(sender))
      case None => true
      case Some(i) =>
        var code := rows[i].ruleCode.value;
        code !in env.rules ||
        forall x :: x in Acceptable(env.rules[code], env.teams) ==> x in Excluded(rows, env, sender)
  {
    match LastMatch(rows, PendingRuleOf(sender))
    case None =>
    case Some(i) =>
      var code := rows[i].ruleCode.value;
      if code in env.rules {
        var pool := Acceptable(env.rules[code], env.teams);
        var ex := Excluded(rows, env, sender);
        match FirstEligible(pool, ex, 0)
        case None =>
          forall x | x in pool ensures x in ex {
            var k :| 0 <= k < |pool| && pool[k] == x;
          }
        case Some(k) =>
          assert pool[k] != sender;
          var r := ReplaceMeRows(rows, env, sender);
          assert r[i].login != rows[i].login;
      }
  }

  /** The requester's rule row and an acceptable reviewer: mrpasquini takes over from aergonaut. */
  lemma ReplaceMeScenarioReassigns(rows: seq<Reviewer>, env: Env)
    requires rows == [Reviewer("aergonaut", PendingReview, None), Reviewer("aergonaut", PendingReview, Some("foo"))]
    requires env.rules == map["foo" := "mrpasquini"] && env.paused == [] && env.commitAuthors == ["maverick"]
    ensures ReplaceMeRows(rows, env, "aergonaut") == rows[1 := Reviewer("mrpasquini", PendingReview, Some("foo"))]
  {
    assert Matches(rows[1], PendingRuleOf("aergonaut"));
    assert LastMatch(rows, PendingRuleOf("aergonaut")) == Some(1);
    assert !IsTeamId("mrpasquini") by { assert !('0' <= "mrpasquini"[0] <= '9'); }
    assert forall j :: 0 <= j < |rows| ==> rows[j].login == "aergonaut";
    assert "mrpasquini" !in LoginsWith(rows, PendingReview);
    assert "mrpasquini" !in Excluded(rows, env, "aergonaut");
  }

  /**
   * No eligible login: when the rule's only acceptable reviewer is the
   * requester, or the rule names team 1234 whose members iceman and goose
   * are both paused, the row stays with aergonaut. The commit author
   * maverick is never a candidate.
   */
  lemma ReplaceMeScenarioNoCandidate(rows: seq<Reviewer>, env: Env)
    requires rows == [Reviewer("aergonaut", PendingReview, None), Reviewer("aergonaut", PendingReview, Some("foo"))]
    requires env.commitAuthors == ["maverick"]
    requires
      || env.rules == map["foo" := "aergonaut"]
      || (&& env.rules == map["foo" := "1234"]
          && env.teams == map["1234" := ["iceman", "goose"]]
          && env.paused == ["iceman", "goose"])
    ensures ReplaceMeRows(rows, env, "aergonaut") == rows
  {
    assert Matches(rows[1], PendingRuleOf("aergonaut"));
    assert LastMatch(rows, PendingRuleOf("aergonaut")) == Some(1);
    if env.rules == map["foo" := "aergonaut"] {
      assert !IsTeamId("aergonaut") by { assert !('0' <= "aergonaut"[0] <= '9'); }
    } else {
      assert IsTeamId("1234");
    }
  }

  // ----- The pull request's status -----

  /** Every comment keeps the pull request consistent: it is approved only when no row is pending. */
  lemma HandleKeepsConsistent(s: Session, env: Env, sender: string, comment: string)
    requires Consistent(s)
    ensures Consistent(Handle(s, env, sender, comment))
  {
    if !Ignored(env) {
      match Classify(comment)
      case NoCommand =>
      case Approval =>
        ApproveStepKeepsConsistent(s, sender, comment);
      case Replace(ps) =>
        ReplaceKeepsSlots(s.reviewers, env, ps);
      case ReplaceMe =>
        ReplaceMePicksEligible(s.reviewers, env, sender);
    }
  }

  /** Once approved, a pull request's status and rows are final: no comment changes them. */
  lemma ApprovedIsFinal(s: Session, env: Env, sender: string, comment: string)
    requires Consistent(s) && s.status == Approved
    ensures Handle(s, env, sender, comment).status == Approved
    ensures Handle(s, env, sender, comment).reviewers == s.reviewers
  {
    var t := Handle(s, env, sender, comment);
    if !Ignored(env) {
      match Classify(comment)
      case NoCommand =>
      case Approval =>
      case Replace(ps) =>
        ReplaceKeepsSlots(s.reviewers, env, ps);
        assert t.reviewers == s.reviewers;
      case ReplaceMe =>
        ReplaceMePicksEligible(s.reviewers, env, sender);
        assert t.reviewers == s.reviewers;
    }
  }
}
