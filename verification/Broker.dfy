/** The credential broker: many requests at once, interleaving wherever a lock is released.

    A request checks that the vault is open, looks for a grant, may wait for the user, and then
    acts; the user may revoke, and the vault may lock and unlock, between any two of those steps. */
module Brokers {
  import opened Crypto
  import opened Grants

  datatype Decision = Deny | AllowOnce | AllowFor(seconds: nat, uses: nat)

  const ONCE_SECONDS := 60

  /** Whether running a command amounts to showing the value; any classification will do here. */
  type Classifier = (string, seq<string>) -> bool

  predicate Discloses(classify: Classifier, intent: Intent) {
    intent.Reveal? || classify(intent.command, intent.args)
  }

  predicate ScopeDiscloses(classify: Classifier, scope: Scope) {
    scope.RevealScope? || classify(scope.command, scope.args)
  }

  /** The uses an answer gives: a disclosure is never for more than this one time. */
  function UsesGiven(classify: Classifier, access: Access, decision: Decision): nat {
    if decision.AllowFor? && !access.intent.Reveal? && !classify(access.intent.command, access.intent.args)
    then decision.uses else 1
  }

  /** And how long they last, for what is not a disclosure. */
  function SecondsGiven(decision: Decision): nat {
    if decision.AllowFor? then decision.seconds else 60
  }

  /** What the user's answer grants: a disclosure is never for more than this one time. */
  function Granted(classify: Classifier, id: Uuid, access: Access, asked: nat, decision: Decision): Grant
    requires !decision.Deny?
  {
    if decision.AllowOnce? || Discloses(classify, access.intent)
    then NewGrant(id, access, asked, ONCE_SECONDS, 1)
    else NewGrant(id, access, asked, decision.seconds, decision.uses)
  }

  /** The interface's answers. */
  function DecisionFrom(choice: string, minutes: Option<nat>): Option<Decision> {
    if choice == "deny" then Some(Deny)
    else if choice == "once" then Some(AllowOnce)
    else if choice == "window" then
      var m := if minutes.Some? then minutes.value else 15;
      Some(AllowFor((if m < 1 then 1 else if m > 60 then 60 else m) * 60, 25))
    else None
  }

  predicate Sensible(decision: Decision) {
    decision.AllowFor? ==> decision.seconds >= 1 && decision.uses >= 1
  }

  lemma InterfaceIsSensible(choice: string, minutes: Option<nat>)
    ensures DecisionFrom(choice, minutes).Some? ==> Sensible(DecisionFrom(choice, minutes).value)
    ensures DecisionFrom(choice, minutes).Some? && DecisionFrom(choice, minutes).value.AllowFor? ==>
              60 <= DecisionFrom(choice, minutes).value.seconds <= 3600
  {
  }

  /** What each answer means: a refusal, this once, or up to twenty-five uses within the minutes chosen, no
      fewer than one and no more than sixty, and a quarter of an hour if none were. */
  lemma InterfaceExactly(choice: string, minutes: Option<nat>)
    ensures DecisionFrom(choice, minutes).None? <==> choice != "deny" && choice != "once" && choice != "window"
    ensures DecisionFrom("deny", minutes) == Some(Deny) && DecisionFrom("once", minutes) == Some(AllowOnce)
    ensures DecisionFrom("window", None) == Some(AllowFor(900, 25))
    ensures minutes.Some? && 1 <= minutes.value <= 60 ==>
              DecisionFrom("window", minutes) == Some(AllowFor(60 * minutes.value, 25))
    ensures minutes == Some(0) ==> DecisionFrom("window", minutes) == Some(AllowFor(60, 25))
    ensures minutes.Some? && minutes.value > 60 ==> DecisionFrom("window", minutes) == Some(AllowFor(3600, 25))
  {
  }

  // ---- the machine ----------------------------------------------------

  /** Where one request is. */
  datatype Phase =
    | Checked(access: Access)
    | Waiting(access: Access, asked: nat)
    | Authorised(access: Access, grant: Uuid)
    | FoundLocked(grant: Uuid)

  /** An action allowed since the grants were last cleared. */
  datatype Entry =
    | Approved(access: Access, asked: nat, decision: Decision, grant: Grant)
    | Reused(access: Access, id: Uuid, at: nat)

  datatype State = State(grants: seq<Grant>, requests: map<nat, Phase>, unlocked: bool, forgotten: bool,
      log: seq<Entry>)

  datatype Step =
    | Arrive(request: nat, access: Access)
    | LookUp(request: nat, now: nat)
    | Answer(request: nat, decision: Decision, id: Uuid)
    | Dispatch(request: nat)
    | RevokeLate(request: nat)
    | RevokeByUser(id: Uuid)
    | Lock
    | Forget
    | Unlock

  const START := State([], map[], false, true, [])

  ghost predicate Enabled(s: State, step: Step) {
    match step
    case Arrive(request, _) => s.unlocked && request !in s.requests
    case LookUp(request, _) => request in s.requests && s.requests[request].Checked?
    case Answer(request, decision, id) =>
      && request in s.requests && s.requests[request].Waiting? && Sensible(decision)
      && s.requests[request].asked < U64_MAX
    case Dispatch(request) => request in s.requests && s.requests[request].Authorised?
    case RevokeLate(request) => request in s.requests && s.requests[request].FoundLocked?
    case RevokeByUser(_) => true
    case Lock => s.unlocked
    case Forget => true
    case Unlock => !s.unlocked
  }

  /** The approval: issue, charge this request to the first grant that matches, prune. */
  function AfterIssue(grants: seq<Grant>, grant: Grant, access: Access, now: nat): seq<Grant> {
    Live(Redeemed(grants + [grant], access, now), now)
  }

  ghost function Next(classify: Classifier, s: State, step: Step): State
    requires Enabled(s, step)
  {
    match step
    case Arrive(request, access) => s.(requests := s.requests[request := Checked(access)])
    case LookUp(request, now) =>
      var access := s.requests[request].access;
      var live := Live(s.grants, now);
      var at := FirstFor(live, access, now);
      if at < |live| then
        s.(grants := Charged(live, at), requests := s.requests[request := Authorised(access, live[at].id)],
           log := s.log + [Reused(access, live[at].id, now)])
      else
        s.(grants := live, requests := s.requests[request := Waiting(access, now)])
    case Answer(request, decision, id) =>
      var Waiting(access, asked) := s.requests[request];
      if decision.Deny? then s.(requests := s.requests - {request})
      else
        var grant := Granted(classify, id, access, asked, decision);
        s.(grants := AfterIssue(s.grants, grant, access, asked),
            requests := s.requests[request := Authorised(access, id)],
           log := s.log + [Approved(access, asked, decision, grant)])
    case Dispatch(request) =>
      s.(requests := if s.unlocked then s.requests - {request}
                     else s.requests[request := FoundLocked(s.requests[request].grant)])
    case RevokeLate(request) =>
      s.(grants := Without(s.grants, s.requests[request].grant), requests := s.requests - {request})
    case RevokeByUser(id) => s.(grants := Without(s.grants, id))
    case Lock => s.(unlocked := false)
    case Forget => s.(grants := [], forgotten := !s.unlocked, log := [])
    case Unlock => s.(unlocked := true, forgotten := false)
  }

  // ---- what is kept ---------------------------------------------------

  function EntryUses(classify: Classifier, entry: Entry): nat {
    if entry.Approved? then UsesGiven(classify, entry.access, entry.decision) else 0
  }

  /** The uses the user's answers gave, over a log. */
  function ApprovedUses(classify: Classifier, log: seq<Entry>): nat {
    if log == [] then 0
    else ApprovedUses(classify, log[..|log| - 1]) + EntryUses(classify, log[|log| - 1])
  }

  /** A stored grant is an approved one with some uses charged. */
  predicate Descends(g: Grant, approved: Grant) {
    g == approved.(uses := g.uses)
  }

  ghost predicate Traced(s: State) {
    forall g :: g in s.grants ==> exists j :: 0 <= j < |s.log| && s.log[j].Approved? && Descends(g, s.log[j].grant)
  }

  /** The same item and field, the very command, arguments and directory, by the same program; and not
      one that discloses the value. */
  ghost predicate SameUse(classify: Classifier, approved: Access, used: Access) {
    && approved.item == used.item && approved.field == used.field
    && approved.intent.Run? && used.intent.Run?
    && approved.intent.command == used.intent.command && approved.intent.args == used.intent.args
    && approved.intent.cwd == used.intent.cwd && !classify(used.intent.command, used.intent.args)
    && approved.client.executable.Some? && used.client.executable.Some?
    && SamePath(approved.client.executable.value, used.client.executable.value)
  }

  /** The reuse at `i` is of something approved before it, within its terms and before its deadline. */
  ghost predicate WithinApproval(classify: Classifier, log: seq<Entry>, i: nat)
    requires i < |log| && log[i].Reused?
  {
    exists j :: 0 <= j < i && log[j].Approved? && log[j].grant.id == log[i].id
      && SameUse(classify, log[j].access, log[i].access) && log[i].at < log[j].asked + SecondsGiven(log[j].decision)
  }

  ghost predicate Owned(s: State, id: Uuid) {
    exists request :: request in s.requests
      && ((s.requests[request].Authorised? || s.requests[request].FoundLocked?) && s.requests[request].grant == id)
  }

  ghost predicate Budgeted(classify: Classifier, s: State) {
    WithinLimits(s.grants) && |s.log| + Remaining(s.grants) <= ApprovedUses(classify, s.log)
  }

  ghost predicate Undisclosing(classify: Classifier, grants: seq<Grant>) {
    forall g :: g in grants && ScopeDiscloses(classify, g.scope) ==> g.client.executable.None?
  }

  /** The grant logged is what the answer logged with it gives. */
  predicate Faithful(classify: Classifier, entry: Entry)
    requires entry.Approved?
  {
    && !entry.decision.Deny?
    && entry.grant == Granted(classify, entry.grant.id, entry.access, entry.asked, entry.decision)
  }

  ghost predicate Explained(classify: Classifier, log: seq<Entry>) {
    && (forall j :: 0 <= j < |log| && log[j].Approved? ==> Faithful(classify, log[j]))
    && (forall i :: 0 <= i < |log| && log[i].Reused? ==> WithinApproval(classify, log, i))
  }

  ghost predicate LockedEmpty(s: State) {
    s.forgotten ==> !s.unlocked && forall g :: g in s.grants ==> Owned(s, g.id)
  }

  ghost predicate Inv(classify: Classifier, s: State) {
    && Budgeted(classify, s) && Undisclosing(classify, s.grants) && Traced(s) && Explained(classify, s.log)
    && LockedEmpty(s)
  }

  /** An approved grant carries the terms of the request it answers. */
  function NewGrantOf(access: Access, g: Grant): Grant {
    g.(item := access.item, field := access.field, scope := ScopeFor(access.intent), client := access.client, uses := 0)
  }

  /** Every grant after is one from before with perhaps more uses charged. */
  ghost predicate Rewrites(after: seq<Grant>, before: seq<Grant>) {
    forall g :: g in after ==> exists h :: h in before && Descends(g, h)
  }

  lemma RedeemedRewrites(grants: seq<Grant>, access: Access, now: nat)
    ensures Rewrites(Redeemed(grants, access, now), grants)
  {
    var at, after := FirstFor(grants, access, now), Redeemed(grants, access, now);
    forall g | g in after ensures exists h :: h in grants && Descends(g, h) {
      var k :| 0 <= k < |after| && after[k] == g;
      assert grants[k] in grants && Descends(g, grants[k]);
    }
  }

  /** Pruning and charging keep everything said about stored grants except the count. */
  lemma RewritingKeeps(classify: Classifier, s: State, after: seq<Grant>)
    requires Inv(classify, s) && Rewrites(after, s.grants)
    ensures forall g :: g in after && ScopeDiscloses(classify, g.scope) ==> g.client.executable.None?
    ensures Traced(s.(grants := after))
    ensures s.forgotten ==> forall g :: g in after ==> Owned(s, g.id)
  {
    forall g | g in after
      ensures exists j :: 0 <= j < |s.log| && s.log[j].Approved? && Descends(g, s.log[j].grant)
    {
      var h :| h in s.grants && Descends(g, h);
      var j :| 0 <= j < |s.log| && s.log[j].Approved? && Descends(h, s.log[j].grant);
      assert Descends(g, s.log[j].grant);
    }
  }

  lemma ApprovedUsesGrow(classify: Classifier, log: seq<Entry>, entry: Entry)
    ensures ApprovedUses(classify, log + [entry]) == ApprovedUses(classify, log) + EntryUses(classify, entry)
  {
    assert (log + [entry])[..|log + [entry]| - 1] == log;
  }

  /** Entries already logged keep their explanation when another is added. */
  lemma ExplainedGrows(classify: Classifier, log: seq<Entry>, entry: Entry)
    requires Explained(classify, log)
    requires entry.Approved? ==> Faithful(classify, entry)
    requires entry.Reused? ==> WithinApproval(classify, log + [entry], |log|)
    ensures Explained(classify, log + [entry])
  {
    var more := log + [entry];
    forall i | 0 <= i < |more| && more[i].Reused? ensures WithinApproval(classify, more, i) {
      if i < |log| {
        assert more[i] == log[i] && WithinApproval(classify, log, i);
        var j :| 0 <= j < i && log[j].Approved? && log[j].grant.id == log[i].id
          && SameUse(classify, log[j].access, log[i].access)
          && log[i].at < log[j].asked + SecondsGiven(log[j].decision);
        assert more[j] == log[j];
      }
    }
  }

  lemma TracedGrows(grants: seq<Grant>, s: State, entry: Entry)
    requires Traced(s.(grants := grants))
    ensures Traced(s.(grants := grants, log := s.log + [entry]))
  {
    forall g | g in grants
      ensures exists j ::
        0 <= j < |s.log + [entry]| && (s.log + [entry])[j].Approved? && Descends(g, (s.log + [entry])[j].grant)
    {
      var j :| 0 <= j < |s.log| && s.log[j].Approved? && Descends(g, s.log[j].grant);
      assert (s.log + [entry])[j] == s.log[j];
    }
  }

  /** A grant that authorises a request and discloses nothing was answered for just that. */
  lemma ReuseMatches(classify: Classifier, entry: Entry, g: Grant, access: Access, now: nat)
    requires entry.Approved? && Faithful(classify, entry) && Descends(g, entry.grant) && Authorises(g, access, now)
    requires ScopeDiscloses(classify, g.scope) ==> g.client.executable.None?
    ensures SameUse(classify, entry.access, access) && now < entry.asked + SecondsGiven(entry.decision)
  {
    AuthorisesExactly(g, access, now);
  }

  /** A stored grant that authorises a request was approved for just that. */
  lemma ReuseExplained(classify: Classifier, s: State, g: Grant, access: Access, now: nat)
    requires Undisclosing(classify, s.grants) && Traced(s) && Explained(classify, s.log)
    requires g in s.grants && Authorises(g, access, now)
    ensures WithinApproval(classify, s.log + [Reused(access, g.id, now)], |s.log|)
  {
    var j :| 0 <= j < |s.log| && s.log[j].Approved? && Descends(g, s.log[j].grant);
    AuthorisesExactly(g, access, now);
    ReuseMatches(classify, s.log[j], g, access, now);
    assert (s.log + [Reused(access, g.id, now)])[j] == s.log[j];
  }

  /** Looking up leaves the store pruned and at most one use poorer. */
  lemma LookUpGrants(grants: seq<Grant>, access: Access, now: nat)
    requires WithinLimits(grants)
    ensures var live := Live(grants, now);
            var after, at := Redeemed(live, access, now), FirstFor(live, access, now);
            && WithinLimits(after) && Rewrites(after, grants)
            && Remaining(after) <= Remaining(grants) - (if at < |live| then 1 else 0)
            && (at < |live| ==> live[at] in grants)
  {
    var live := Live(grants, now);
    LiveMembers(grants, now);
    LiveCostsNothing(grants, now);
    assert WithinLimits(live);
    RedeemedChargesOne(live, access, now);
    RedeemedRewrites(live, access, now);
    var after, at := Redeemed(live, access, now), FirstFor(live, access, now);
    forall g | g in after ensures exists h :: h in grants && Descends(g, h) {
      var h :| h in live && Descends(g, h);
    }
    if at < |live| {
      assert live[at] in live;
    }
  }

  lemma LookUpKeeps(classify: Classifier, s: State, request: nat, now: nat)
    requires Inv(classify, s) && Enabled(s, LookUp(request, now))
    ensures Inv(classify, Next(classify, s, LookUp(request, now)))
  {
    hide Live, FirstFor, WithinApproval, Owned, Rewrites, Authorises, Remaining;
    var access, live, next := s.requests[request].access, Live(s.grants, now), Next(classify, s, LookUp(request, now));
    LookUpGrants(s.grants, access, now);
    assert next.grants == Redeemed(live, access, now);
    RewritingKeeps(classify, s, next.grants);
    var at := FirstFor(live, access, now);
    OwnersStay(s, next, request);
    if at < |live| {
      var entry := Reused(access, live[at].id, now);
      ReuseExplained(classify, s, live[at], access, now);
      ExplainedGrows(classify, s.log, entry);
      ApprovedUsesGrow(classify, s.log, entry);
      TracedGrows(next.grants, s, entry);
      assert next.log == s.log + [entry];
    }
    hide Redeemed, Charged;
    assert Traced(next);
    assert LockedEmpty(next);
  }

  /** A request that owned nothing may move on without disowning anything. */
  lemma OwnersStay(s: State, next: State, request: nat)
    requires request in s.requests && !s.requests[request].Authorised? && !s.requests[request].FoundLocked?
    requires forall q :: q in s.requests && q != request ==> q in next.requests && next.requests[q] == s.requests[q]
    ensures forall id: Uuid :: Owned(s, id) ==> Owned(next, id)
  {
    forall id: Uuid | Owned(s, id) ensures Owned(next, id) {
      var q :| q in s.requests && ((s.requests[q].Authorised? || s.requests[q].FoundLocked?)
          && s.requests[q].grant == id);
      assert q in next.requests;
    }
  }

  /** An approval adds no more uses than the user gave, this request's own included. */
  lemma IssueBudget(grants: seq<Grant>, grant: Grant, access: Access, now: nat)
    requires WithinLimits(grants)
    requires grant == NewGrantOf(access, grant) && grant.maxUses >= 1 && now < grant.expiresAt
    ensures var after := AfterIssue(grants, grant, access, now);
            && WithinLimits(after) && Rewrites(after, grants + [grant])
            && Remaining(after) + 1 <= Remaining(grants) + grant.maxUses
  {
    var all := grants + [grant];
    var charged := Redeemed(all, access, now);
    RemainingSplits(grants, [grant]);
    RemainingOne(grant);
    assert all[|grants|] == grant;
    assert grant.client.executable.Some? ==> Authorises(grant, access, now);
    assert WithinLimits(all);
    RedeemedChargesOne(all, access, now);
    RedeemedRewrites(all, access, now);
    LiveMembers(charged, now);
    LiveCostsNothing(charged, now);
  }

  /** An approval of a disclosure is spent by the request it answers, and pruned with it. */
  lemma IssueHides(classify: Classifier, grants: seq<Grant>, grant: Grant, access: Access, now: nat)
    requires Undisclosing(classify, grants)
    requires grant == NewGrantOf(access, grant) && now < grant.expiresAt
    requires Discloses(classify, access.intent) ==> grant.maxUses == 1
    ensures Undisclosing(classify, AfterIssue(grants, grant, access, now))
  {
    var all := grants + [grant];
    var charged, at := Redeemed(all, access, now), FirstFor(all, access, now);
    LiveMembers(charged, now);
    assert forall j :: 0 <= j < |grants| ==> grants[j] in grants && all[j] == grants[j];
    assert all[|grants|] == grant && (grant.client.executable.Some? && grant.maxUses > 0 ==>
        Authorises(grant, access, now));
    forall g | g in AfterIssue(grants, grant, access, now) && ScopeDiscloses(classify, g.scope)
      ensures g.client.executable.None?
    {
      var k :| 0 <= k < |charged| && charged[k] == g;
    }
  }

  lemma TracedAfterIssue(s: State, after: seq<Grant>, entry: Entry)
    requires entry.Approved? && Traced(s) && Rewrites(after, s.grants + [entry.grant])
    ensures Traced(s.(grants := after, log := s.log + [entry]))
  {
    var log, grant := s.log + [entry], entry.grant;
    forall g | g in after ensures exists j :: 0 <= j < |log| && log[j].Approved? && Descends(g, log[j].grant) {
      var h :| h in s.grants + [grant] && Descends(g, h);
      if h in s.grants {
        var j :| 0 <= j < |s.log| && s.log[j].Approved? && Descends(h, s.log[j].grant);
        assert log[j] == s.log[j] && Descends(g, log[j].grant);
      } else {
        assert h == grant && Descends(g, log[|s.log|].grant);
      }
    }
  }

  lemma AnswerKeeps(classify: Classifier, s: State, request: nat, decision: Decision, id: Uuid)
    requires Inv(classify, s) && Enabled(s, Answer(request, decision, id))
    ensures Inv(classify, Next(classify, s, Answer(request, decision, id)))
  {
    var next := Next(classify, s, Answer(request, decision, id));
    OwnersStay(s, next, request);
    if !decision.Deny? {
      var Waiting(access, asked) := s.requests[request];
      var grant := Granted(classify, id, access, asked, decision);
      IssueBudget(s.grants, grant, access, asked);
      IssueHides(classify, s.grants, grant, access, asked);
      var entry := Approved(access, asked, decision, grant);
      ExplainedGrows(classify, s.log, entry);
      ApprovedUsesGrow(classify, s.log, entry);
      TracedAfterIssue(s, next.grants, entry);
      assert request in next.requests && Owned(next, id);
      hide AfterIssue, WithinApproval, Remaining, Owned, Enabled, ScopeFor;
      forall g | g in next.grants && s.forgotten ensures Owned(next, g.id) {
        var h :| h in s.grants + [grant] && Descends(g, h);
        assert h in s.grants || h == grant;
      }
    }
  }

  lemma RevokeKeeps(classify: Classifier, s: State, id: Uuid)
    requires Inv(classify, s)
    ensures Inv(classify, s.(grants := Without(s.grants, id)))
  {
    var after := Without(s.grants, id);
    WithoutMembers(s.grants, id);
    WithoutCostsNothing(s.grants, id);
    forall g | g in after ensures exists h :: h in s.grants && Descends(g, h) {
      assert Descends(g, g);
    }
    RewritingKeeps(classify, s, after);
    forall g | g in after && s.forgotten ensures Owned(s.(grants := after), g.id) {
      assert Owned(s, g.id);
    }
  }

  lemma RequestsKeep(classify: Classifier, s: State, next: State)
    requires Inv(classify, s) && next == s.(requests := next.requests)
    requires s.forgotten ==> forall g :: g in s.grants ==> Owned(next, g.id)
    ensures Inv(classify, next)
  {
  }

  lemma StepKeeps(classify: Classifier, s: State, step: Step)
    requires Inv(classify, s) && Enabled(s, step)
    ensures Inv(classify, Next(classify, s, step))
  {
    var next := Next(classify, s, step);
    match step
    case Arrive(_, _) => RequestsKeep(classify, s, next);
    case LookUp(request, now) => LookUpKeeps(classify, s, request, now);
    case Answer(request, decision, id) => AnswerKeeps(classify, s, request, decision, id);
    case Dispatch(request) =>
      forall g | g in s.grants && s.forgotten ensures Owned(next, g.id) {
        assert Owned(s, g.id);
        var q :| q in s.requests && ((s.requests[q].Authorised? || s.requests[q].FoundLocked?)
            && s.requests[q].grant == g.id);
        assert q in next.requests;
      }
      RequestsKeep(classify, s, next);
    case RevokeLate(request) =>
      var id := s.requests[request].grant;
      RevokeKeeps(classify, s, id);
      WithoutMembers(s.grants, id);
      var mid := s.(grants := Without(s.grants, id));
      forall g | g in mid.grants && s.forgotten ensures Owned(next, g.id) {
        assert Owned(mid, g.id);
        var q :| q in s.requests && ((s.requests[q].Authorised? || s.requests[q].FoundLocked?)
            && s.requests[q].grant == g.id);
        assert q in next.requests;
      }
      RequestsKeep(classify, mid, next);
    case RevokeByUser(id) => RevokeKeeps(classify, s, id);
    case Lock =>
    case Forget =>
    case Unlock =>
  }
}
