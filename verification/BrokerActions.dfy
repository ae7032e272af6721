/** The broker's promise in terms of what happens outside it: what the user answered, and what was done. */
module BrokerActions {
  import opened Crypto
  import opened Grants
  import opened Brokers
  import opened BrokerRuns

  // ---- how much is done -----------------------------------------------

  /** The actions carried out: requests dispatched while the vault is open. */
  function Actions(run: seq<State>, steps: seq<Step>, k: nat): nat
    requires k <= |steps| < |run|
  {
    if k == 0 then 0
    else Actions(run, steps, k - 1) + if steps[k - 1].Dispatch? && run[k - 1].unlocked then 1 else 0
  }

  /** The answer given at step `j`, to a request that asked for `access` at time `asked`. */
  predicate AnsweredAt(run: seq<State>, steps: seq<Step>, j: nat, access: Access, asked: nat, decision: Decision) {
    && j < |steps| && j < |run| && steps[j].Answer? && steps[j].decision == decision && !decision.Deny?
    && steps[j].request in run[j].requests && run[j].requests[steps[j].request] == Waiting(access, asked)
  }

  /** The uses the user's answers gave. */
  function Allowed(classify: Classifier, run: seq<State>, steps: seq<Step>, k: nat): nat
    requires k <= |steps| < |run|
  {
    if k == 0 then 0
    else
      Allowed(classify, run, steps, k - 1)
      + match steps[k - 1]
        case Answer(request, decision, _) =>
          if decision.Deny? || request !in run[k - 1].requests || !run[k - 1].requests[request].Waiting? then 0
          else UsesGiven(classify, run[k - 1].requests[request].access, decision)
        case _ => 0
  }

  /** Requests allowed and not yet dispatched. */
  function Pending(s: State): set<nat> {
    set q | q in s.requests && s.requests[q].Authorised?
  }

  lemma PendingOneMore(s: State, next: State, request: nat)
    requires request in s.requests && !s.requests[request].Authorised?
    requires request in next.requests && next.requests[request].Authorised?
    requires next.requests == s.requests[request := next.requests[request]]
    ensures |Pending(next)| == |Pending(s)| + 1
  {
    assert Pending(next) == Pending(s) + {request};
  }

  lemma PendingStays(s: State, next: State, request: nat)
    requires request !in s.requests || !s.requests[request].Authorised?
    requires request !in next.requests || !next.requests[request].Authorised?
    requires forall q :: q != request ==>
      (q in s.requests <==> q in next.requests) && (q in s.requests ==> next.requests[q] == s.requests[q])
    ensures |Pending(next)| == |Pending(s)|
  {
    assert Pending(next) == Pending(s);
  }

  lemma LookUpPays(classify: Classifier, s: State, request: nat, now: nat)
    requires Inv(classify, s) && Enabled(s, LookUp(request, now))
    ensures var next := Next(classify, s, LookUp(request, now));
            |Pending(next)| + Remaining(next.grants) <= |Pending(s)| + Remaining(s.grants)
  {
    var next, access, live := Next(classify, s, LookUp(request, now)), s.requests[request].access, Live(s.grants, now);
    LookUpGrants(s.grants, access, now);
    assert next.grants == Redeemed(live, access, now);
    hide Inv, Live, FirstFor, Redeemed, Remaining, Pending;
    if FirstFor(live, access, now) < |live| {
      PendingOneMore(s, next, request);
    } else {
      PendingStays(s, next, request);
    }
  }

  lemma AnswerPays(classify: Classifier, s: State, request: nat, decision: Decision, id: Uuid)
    requires Inv(classify, s) && Enabled(s, Answer(request, decision, id)) && !decision.Deny?
    ensures var next := Next(classify, s, Answer(request, decision, id));
            |Pending(next)| + Remaining(next.grants)
            <= |Pending(s)| + Remaining(s.grants) + UsesGiven(classify, s.requests[request].access, decision)
  {
    var Waiting(access, asked) := s.requests[request];
    IssueBudget(s.grants, Granted(classify, id, access, asked, decision), access, asked);
    hide Inv, AfterIssue, Remaining, Pending;
    PendingOneMore(s, Next(classify, s, Answer(request, decision, id)), request);
  }

  /** The uses a step's answer gives. */
  function Paid(classify: Classifier, s: State, step: Step): nat
    requires Enabled(s, step)
  {
    if step.Answer? && !step.decision.Deny? then UsesGiven(classify, s.requests[step.request].access, step.decision)
    else 0
  }

  /** One more action, or one more request allowed, is paid for by a use answered or a use left. */
  lemma StepPays(classify: Classifier, s: State, step: Step)
    requires Inv(classify, s) && Enabled(s, step)
    ensures var next := Next(classify, s, step);
            |Pending(next)| + Remaining(next.grants) + (if step.Dispatch? && s.unlocked then 1 else 0)
            <= |Pending(s)| + Remaining(s.grants) + Paid(classify, s, step)
  {
    var next := Next(classify, s, step);
    match step
    case Arrive(request, _) => PendingStays(s, next, request);
    case LookUp(request, now) => LookUpPays(classify, s, request, now);
    case Answer(request, decision, id) =>
      if decision.Deny? {
        PendingStays(s, next, request);
      } else {
        AnswerPays(classify, s, request, decision, id);
      }
    case Dispatch(request) => assert Pending(next) == Pending(s) - {request};
    case RevokeLate(request) =>
      PendingStays(s, next, request);
      WithoutCostsNothing(s.grants, s.requests[request].grant);
    case RevokeByUser(id) => WithoutCostsNothing(s.grants, id);
    case Lock =>
    case Forget => LiveCostsNothing(s.grants, 0);
    case Unlock =>
  }

  lemma {:induction false} RunPays(classify: Classifier, run: seq<State>, steps: seq<Step>, k: nat)
    requires IsRun(classify, run, steps) && k <= |steps|
    ensures Actions(run, steps, k) + |Pending(run[k])| + Remaining(run[k].grants) <= Allowed(classify, run, steps, k)
  {
    if k == 0 {
      assert Pending(run[0]) == {};
    } else {
      RunPays(classify, run, steps, k - 1);
      RunKeeps(classify, run, steps, k - 1);
      assert Enabled(run[k - 1], steps[k - 1]) && run[k] == Next(classify, run[k - 1], steps[k - 1]);
      hide Next, Enabled, Inv, Remaining, IsRun;
      StepPays(classify, run[k - 1], steps[k - 1]);
    }
  }

  /** Never more than allowed.  In every run, through locks, revocations and clearings, the actions carried
      out are at most the uses the user's answers gave: as many as the answer says for a command that
      discloses nothing, and one for everything else. */
  lemma ActionsStayWithinAnswers(classify: Classifier, run: seq<State>, steps: seq<Step>, k: nat)
    requires IsRun(classify, run, steps) && k <= |steps|
    ensures Actions(run, steps, k) <= Allowed(classify, run, steps, k)
  {
    RunPays(classify, run, steps, k);
    RunKeeps(classify, run, steps, k);
    LiveCostsNothing(run[k].grants, 0);
  }

  // ---- what each action rests on --------------------------------------

  ghost predicate NoForget(steps: seq<Step>, from: nat, until: nat) {
    forall i :: from <= i < until && i < |steps| ==> !steps[i].Forget?
  }

  /** Every approval in the log was answered at some step, and nothing cleared the grants since. */
  ghost predicate LogAnswered(run: seq<State>, steps: seq<Step>, k: nat)
    requires k < |run|
  {
    forall i :: 0 <= i < |run[k].log| && run[k].log[i].Approved? ==> EntryAnswered(run, steps, k, run[k].log[i])
  }

  ghost predicate EntryAnswered(run: seq<State>, steps: seq<Step>, k: nat, e: Entry)
    requires e.Approved?
  {
    exists j: nat :: j < k && AnsweredAt(run, steps, j, e.access, e.asked, e.decision) && NoForget(steps, j, k)
  }

  lemma EntryStaysAnswered(run: seq<State>, steps: seq<Step>, k: nat, e: Entry)
    requires e.Approved? && EntryAnswered(run, steps, k, e) && k < |steps| && !steps[k].Forget?
    ensures EntryAnswered(run, steps, k + 1, e)
  {
    var j: nat :| j < k && AnsweredAt(run, steps, j, e.access, e.asked, e.decision) && NoForget(steps, j, k);
    assert NoForget(steps, j, k + 1);
  }

  lemma LogAnsweredNext(classify: Classifier, run: seq<State>, steps: seq<Step>, k: nat)
    requires k < |steps| < |run| && Enabled(run[k], steps[k]) && run[k + 1] == Next(classify, run[k], steps[k])
    requires LogAnswered(run, steps, k)
    ensures LogAnswered(run, steps, k + 1)
  {
    var log, more := run[k].log, run[k + 1].log;
    forall i | 0 <= i < |more| && more[i].Approved? ensures EntryAnswered(run, steps, k + 1, more[i]) {
      if i < |log| {
        EntryStaysAnswered(run, steps, k, log[i]);
      } else {
        assert AnsweredAt(run, steps, k, more[i].access, more[i].asked, more[i].decision);
        assert NoForget(steps, k, k + 1);
      }
    }
  }

  lemma {:induction false} RunLogAnswered(classify: Classifier, run: seq<State>, steps: seq<Step>, k: nat)
    requires IsRun(classify, run, steps) && k <= |steps|
    ensures LogAnswered(run, steps, k)
  {
    if k > 0 {
      hide LogAnswered;
      RunLogAnswered(classify, run, steps, k - 1);
      assert Enabled(run[k - 1], steps[k - 1]) && run[k] == Next(classify, run[k - 1], steps[k - 1]);
      LogAnsweredNext(classify, run, steps, k - 1);
    } else {
      assert run[0].log == [];
    }
  }

  /** The user was asked about this very request and allowed it. */
  ghost predicate OwnAnswer(run: seq<State>, steps: seq<Step>, k: nat, q: nat, access: Access) {
    exists j: nat, asked: nat, decision ::
      j < k && AnsweredAt(run, steps, j, access, asked, decision) && steps[j].request == q
  }

  /** The user had allowed the same use for a time that was not over when the request was looked up, and
      the grants were not cleared in between. */
  ghost predicate EarlierAnswer(classify: Classifier, run: seq<State>, steps: seq<Step>, k: nat, q: nat,
                                access: Access) {
    exists m: nat, j: nat :: m < k && m < |steps| && steps[m].LookUp? && steps[m].request == q
      && Covered(classify, run, steps, m, j, access, steps[m].now)
  }

  ghost predicate Covered(classify: Classifier, run: seq<State>, steps: seq<Step>, m: nat, j: nat, access: Access,
                          now: nat) {
    j < m && NoForget(steps, j, m)
    && exists approved, asked: nat, decision :: AnsweredAt(run, steps, j, approved, asked, decision)
         && SameUse(classify, approved, access) && now < asked + SecondsGiven(decision)
  }

  /** A request found a grant when it was looked up. */
  lemma LookUpIsCovered(classify: Classifier, run: seq<State>, steps: seq<Step>, m: nat)
    requires m < |steps| < |run| && Enabled(run[m], steps[m]) && run[m + 1] == Next(classify, run[m], steps[m])
    requires Inv(classify, run[m]) && LogAnswered(run, steps, m)
    requires steps[m].LookUp? && run[m + 1].requests[steps[m].request].Authorised?
    ensures exists j: nat :: Covered(classify, run, steps, m, j, run[m].requests[steps[m].request].access, steps[m].now)
  {
    var s, q, now := run[m], steps[m].request, steps[m].now;
    var access, live := s.requests[q].access, Live(s.grants, now);
    var g := live[FirstFor(live, access, now)];
    LiveMembers(s.grants, now);
    assert g in live;
    var e := ApprovalOf(classify, s, g);
    ReuseMatches(classify, e, g, access, now);
    assert EntryAnswered(run, steps, m, e);
    var j: nat :| j < m && AnsweredAt(run, steps, j, e.access, e.asked, e.decision) && NoForget(steps, j, m);
    assert Covered(classify, run, steps, m, j, access, now);
  }

  /** The approval a stored grant comes from. */
  lemma ApprovalOf(classify: Classifier, s: State, g: Grant) returns (e: Entry)
    requires Inv(classify, s) && g in s.grants
    ensures e in s.log && e.Approved? && Faithful(classify, e) && Descends(g, e.grant)
    ensures ScopeDiscloses(classify, g.scope) ==> g.client.executable.None?
  {
    var j :| 0 <= j < |s.log| && s.log[j].Approved? && Descends(g, s.log[j].grant);
    e := s.log[j];
  }

  lemma {:induction false} PendingWasAllowed(classify: Classifier, run: seq<State>, steps: seq<Step>, k: nat, q: nat)
    requires IsRun(classify, run, steps) && k <= |steps| && q in run[k].requests && run[k].requests[q].Authorised?
    ensures var access := run[k].requests[q].access;
            OwnAnswer(run, steps, k, q, access) || EarlierAnswer(classify, run, steps, k, q, access)
  {
    if k > 0 {
      RunKeeps(classify, run, steps, k - 1);
      RunLogAnswered(classify, run, steps, k - 1);
      assert Enabled(run[k - 1], steps[k - 1]) && run[k] == Next(classify, run[k - 1], steps[k - 1]);
      if q in run[k - 1].requests && run[k - 1].requests[q].Authorised? {
        PendingWasAllowed(classify, run, steps, k - 1, q);
        hide *;
        StaysAllowed(classify, run, steps, k - 1, q);
      } else {
        hide *;
        BecomesAllowed(classify, run, steps, k - 1, q);
      }
    }
  }

  lemma StaysAllowed(classify: Classifier, run: seq<State>, steps: seq<Step>, k: nat, q: nat)
    requires k < |steps| < |run| && Enabled(run[k], steps[k]) && run[k + 1] == Next(classify, run[k], steps[k])
    requires q in run[k].requests && run[k].requests[q].Authorised?
    requires q in run[k + 1].requests && run[k + 1].requests[q].Authorised?
    requires var access := run[k].requests[q].access;
             OwnAnswer(run, steps, k, q, access) || EarlierAnswer(classify, run, steps, k, q, access)
    ensures var access := run[k + 1].requests[q].access;
            OwnAnswer(run, steps, k + 1, q, access) || EarlierAnswer(classify, run, steps, k + 1, q, access)
  {
    hide Covered, AnsweredAt, Live, FirstFor, AfterIssue, Granted;
    assert run[k + 1].requests[q].access == run[k].requests[q].access;
  }

  lemma BecomesAllowed(classify: Classifier, run: seq<State>, steps: seq<Step>, k: nat, q: nat)
    requires k < |steps| < |run| && Enabled(run[k], steps[k]) && run[k + 1] == Next(classify, run[k], steps[k])
    requires Inv(classify, run[k]) && LogAnswered(run, steps, k)
    requires q in run[k + 1].requests && run[k + 1].requests[q].Authorised?
    requires q in run[k].requests ==> !run[k].requests[q].Authorised?
    ensures var access := run[k + 1].requests[q].access;
            OwnAnswer(run, steps, k + 1, q, access) || EarlierAnswer(classify, run, steps, k + 1, q, access)
  {
    hide Inv, Covered, LogAnswered, Live, FirstFor, AfterIssue, Granted;
    var step, access := steps[k], run[k + 1].requests[q].access;
    if step.LookUp? {
      LookUpIsCovered(classify, run, steps, k);
      assert EarlierAnswer(classify, run, steps, k + 1, q, access);
    } else {
      assert AnsweredAt(run, steps, k, access, run[k].requests[q].asked, step.decision);
      assert OwnAnswer(run, steps, k + 1, q, access);
    }
  }

  /** Nothing unasked.  In every run, each action carried out was allowed by the user: by an answer to
      that very request, or by an earlier answer for the same item, field, command, arguments, directory
      and program that discloses nothing, within the time it gave and with no clearing of the grants in
      between. */
  lemma EveryActionWasAllowed(classify: Classifier, run: seq<State>, steps: seq<Step>, k: nat)
    requires IsRun(classify, run, steps) && k < |steps| && steps[k].Dispatch? && run[k].unlocked
    ensures var q := steps[k].request;
            && q in run[k].requests && run[k].requests[q].Authorised?
            && var access := run[k].requests[q].access;
               OwnAnswer(run, steps, k, q, access) || EarlierAnswer(classify, run, steps, k, q, access)
  {
    assert Enabled(run[k], steps[k]);
    PendingWasAllowed(classify, run, steps, k, steps[k].request);
  }

  /** And the other way: a lookup spares the user the prompt exactly when a stored grant serves the
      request. */
  lemma LookUpReusesExactly(classify: Classifier, s: State, request: nat, now: nat)
    requires Enabled(s, LookUp(request, now))
    ensures var access, next := s.requests[request].access, Next(classify, s, LookUp(request, now));
            && request in next.requests
            && (next.requests[request].Authorised? <==> exists g :: g in s.grants && Authorises(g, access, now))
            && (!next.requests[request].Authorised? ==> next.requests[request] == Waiting(access, now))
  {
    ServedExactly(s.grants, s.requests[request].access, now);
  }

  /** One grant of `after` comes from one of `before`, as it was or with one more use. */
  ghost predicate ComesFrom(g: Grant, before: seq<Grant>) {
    exists h :: h in before && (g == h || g == h.(uses := h.uses + 1))
  }

  lemma RedeemedMembers(grants: seq<Grant>, access: Access, now: nat)
    ensures forall g :: g in Redeemed(grants, access, now) ==> ComesFrom(g, grants)
    ensures forall g :: g in grants ==>
              g in Redeemed(grants, access, now) || g.(uses := g.uses + 1) in Redeemed(grants, access, now)
  {
    var at, after := FirstFor(grants, access, now), Redeemed(grants, access, now);
    forall g | g in after ensures ComesFrom(g, grants) {
      var k :| 0 <= k < |after| && after[k] == g;
      assert grants[k] in grants;
    }
    forall g | g in grants ensures g in after || g.(uses := g.uses + 1) in after {
      var k :| 0 <= k < |grants| && grants[k] == g;
      assert after[k] == if k == at then g.(uses := g.uses + 1) else g;
    }
  }

  /** What a lookup does to the store: grants past their deadline or spent go, at most one is charged, and
      nothing else changes. */
  lemma LookUpStores(classify: Classifier, s: State, request: nat, now: nat)
    requires Enabled(s, LookUp(request, now))
    ensures var after := Next(classify, s, LookUp(request, now)).grants;
            && (forall g :: g in after ==> now < g.expiresAt && ComesFrom(g, s.grants))
            && (forall g :: g in s.grants && now < g.expiresAt && g.uses < g.maxUses ==>
                  g in after || g.(uses := g.uses + 1) in after)
  {
    var access, live := s.requests[request].access, Live(s.grants, now);
    LiveMembers(s.grants, now);
    RedeemedMembers(live, access, now);
    hide Live, FirstFor;
    forall g | g in Redeemed(live, access, now) ensures now < g.expiresAt && ComesFrom(g, s.grants) {
      var h :| h in live && (g == h || g == h.(uses := h.uses + 1));
    }
  }

  /** What an answer stores: a refusal nothing; an approval one more grant, for the very use the user was
      shown and the uses and seconds the answer gives, which this request may already have charged; what is
      spent or past its deadline goes, and nothing else does. */
  lemma AnswerStores(classify: Classifier, s: State, request: nat, decision: Decision, id: Uuid)
    requires Enabled(s, Answer(request, decision, id))
    ensures var next := Next(classify, s, Answer(request, decision, id));
            if decision.Deny? then next.grants == s.grants && request !in next.requests
            else
              var Waiting(access, asked) := s.requests[request];
              var grant := Granted(classify, id, access, asked, decision);
              && request in next.requests && next.requests[request] == Authorised(access, id)
              && (forall g :: g in next.grants ==>
                    asked < g.expiresAt && g.uses < g.maxUses && ComesFrom(g, s.grants + [grant]))
              && (forall g :: g in s.grants + [grant] && asked < g.expiresAt && g.uses + 1 < g.maxUses ==>
                    g in next.grants || g.(uses := g.uses + 1) in next.grants)
  {
    if !decision.Deny? {
      var Waiting(access, asked) := s.requests[request];
      var all := s.grants + [Granted(classify, id, access, asked, decision)];
      RedeemedMembers(all, access, asked);
      LiveMembers(Redeemed(all, access, asked), asked);
      hide Live, FirstFor, Granted, Redeemed;
    }
  }

  /** And what the grant of an answer carries. */
  lemma GrantOfAnswer(classify: Classifier, id: Uuid, access: Access, asked: nat, decision: Decision, now: nat)
    requires !decision.Deny? && now < U64_MAX
    ensures var g := Granted(classify, id, access, asked, decision);
            && g.id == id && g.item == access.item && g.field == access.field && g.client == access.client
            && SameTerms(g.scope, access.intent) && g.uses == 0 && g.maxUses == UsesGiven(classify, access, decision)
            && (access.intent.Run? && !classify(access.intent.command, access.intent.args) ==>
                  (now < g.expiresAt <==> now < asked + SecondsGiven(decision)))
  {
  }
}
