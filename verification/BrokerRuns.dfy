/** What the broker keeps over every interleaving of its steps, and what a lock does not end. */
module BrokerRuns {
  import opened Crypto
  import opened Grants
  import opened Brokers

  ghost predicate IsRun(classify: Classifier, run: seq<State>, steps: seq<Step>) {
    && |run| == |steps| + 1 && run[0] == START
    && forall i :: 0 <= i < |steps| ==> Enabled(run[i], steps[i]) && run[i + 1] == Next(classify, run[i], steps[i])
  }

  lemma {:induction false} RunKeeps(classify: Classifier, run: seq<State>, steps: seq<Step>, k: nat)
    requires IsRun(classify, run, steps) && k <= |steps|
    ensures Inv(classify, run[k])
  {
    if k > 0 {
      RunKeeps(classify, run, steps, k - 1);
      StepKeeps(classify, run[k - 1], steps[k - 1]);
    }
  }

  /** Budget.  Over every interleaving, the actions authorised since the last clear never exceed the
      uses the user approved since then, and no grant is charged beyond its own. */
  lemma BudgetIsConserved(classify: Classifier, run: seq<State>, steps: seq<Step>, k: nat)
    requires IsRun(classify, run, steps) && k <= |steps|
    ensures |run[k].log| <= ApprovedUses(classify, run[k].log)
    ensures forall g :: g in run[k].grants ==> g.uses <= g.maxUses
  {
    RunKeeps(classify, run, steps, k);
    LiveCostsNothing(run[k].grants, 0);
  }

  /** Reuse.  Every action that was not prompted for was approved before it for the same item, field,
      command, arguments, directory and program, is before that approval's deadline, and does not
      disclose the value: each disclosure has an approval of its own. */
  lemma ReuseStaysWithinApproval(classify: Classifier, run: seq<State>, steps: seq<Step>, k: nat, i: nat)
    requires IsRun(classify, run, steps) && k <= |steps| && i < |run[k].log| && run[k].log[i].Reused?
    ensures WithinApproval(classify, run[k].log, i)
  {
    RunKeeps(classify, run, steps, k);
  }

  /** A disclosure is never reusable: whenever the store's lock is free, no stored grant authorises
      showing the value, to anybody, at any time. */
  lemma NoStoredGrantDiscloses(classify: Classifier, run: seq<State>, steps: seq<Step>, k: nat, g: Grant,
                               access: Access, now: nat)
    requires IsRun(classify, run, steps) && k <= |steps| && g in run[k].grants
    requires access.intent.Reveal? || classify(access.intent.command, access.intent.args)
    ensures !Authorises(g, access, now)
  {
    RunKeeps(classify, run, steps, k);
    AuthorisesExactly(g, access, now);
  }

  /** While the vault is locked and the grants have been dropped, a stored grant belongs to a request
      answered since and not yet dispatched or taken back; with none in flight the store is empty. */
  lemma GrantsUnderLockAreInFlight(classify: Classifier, run: seq<State>, steps: seq<Step>, k: nat)
    requires IsRun(classify, run, steps) && k <= |steps| && run[k].forgotten
    ensures forall g :: g in run[k].grants ==> Owned(run[k], g.id) && ApprovedSince(run[k].log, 0, |run[k].log|, g.id)
    ensures (forall q :: q in run[k].requests ==> run[k].requests[q].Checked? || run[k].requests[q].Waiting?) ==>
              run[k].grants == []
  {
    RunKeeps(classify, run, steps, k);
    if run[k].grants != [] {
      assert run[k].grants[0] in run[k].grants;
    }
    forall g | g in run[k].grants ensures ApprovedSince(run[k].log, 0, |run[k].log|, g.id) {
      var j :| 0 <= j < |run[k].log| && run[k].log[j].Approved? && Descends(g, run[k].log[j].grant);
    }
  }

  /** An approval of the grant `id` is among these entries. */
  ghost predicate ApprovedSince(log: seq<Entry>, from: nat, until: nat, id: Uuid)
    requires until <= |log|
  {
    exists j :: from <= j < until && log[j].Approved? && log[j].grant.id == id
  }

  /** The request holds an approval it has not used or given back. */
  predicate InFlight(s: State, request: nat) {
    request in s.requests && (s.requests[request].Authorised? || s.requests[request].FoundLocked?)
  }

  /** What an unlock finds.  The store is empty exactly when no request in flight, answered since the
      grants were dropped, still has its grant there. */
  lemma EmptyAtUnlockExactly(classify: Classifier, run: seq<State>, steps: seq<Step>, k: nat)
    requires IsRun(classify, run, steps) && k < |steps| && steps[k].Unlock? && run[k].forgotten
    ensures run[k + 1].grants == []
            <==> forall q, g :: InFlight(run[k], q) && g in run[k].grants ==> g.id != run[k].requests[q].grant
  {
    GrantsUnderLockAreInFlight(classify, run, steps, k);
    assert run[k + 1] == Next(classify, run[k], steps[k]);
    if run[k].grants != [] {
      var g := run[k].grants[0];
      assert g in run[k].grants && Owned(run[k], g.id);
      var q :| q in run[k].requests
        && ((run[k].requests[q].Authorised? || run[k].requests[q].FoundLocked?) && run[k].requests[q].grant == g.id);
      assert InFlight(run[k], q);
    }
  }

  predicate Stored(s: State, id: Uuid) {
    exists k :: 0 <= k < |s.grants| && s.grants[k].id == id
  }

  /** A grant is accounted for since `base`: it was stored there, or it was approved since. */
  ghost predicate Accounted(base: State, log: seq<Entry>, until: nat, id: Uuid)
    requires until <= |log|
  {
    Stored(base, id) || ApprovedSince(log, |base.log|, until, id)
  }

  ghost predicate AllAccounted(base: State, s: State) {
    && base.log <= s.log
    && (forall g :: g in s.grants ==> Accounted(base, s.log, |s.log|, g.id))
    && (forall i :: |base.log| <= i < |s.log| && s.log[i].Reused? ==> Accounted(base, s.log, i, s.log[i].id))
  }

  lemma AccountedGrows(base: State, log: seq<Entry>, until: nat, entry: Entry, id: Uuid)
    requires until <= |log| && Accounted(base, log, until, id)
    ensures Accounted(base, log + [entry], until, id) && Accounted(base, log + [entry], |log| + 1, id)
  {
    if !Stored(base, id) {
      var j :| |base.log| <= j < until && log[j].Approved? && log[j].grant.id == id;
      assert (log + [entry])[j] == log[j];
    }
  }

  /** Adding one entry, which is accounted for, and keeping or charging grants that are. */
  lemma AccountedStep(base: State, s: State, next: State, entry: Entry)
    requires AllAccounted(base, s) && next.log == s.log + [entry]
    requires entry.Reused? ==> Accounted(base, s.log, |s.log|, entry.id)
    requires forall g :: g in next.grants ==>
      || (exists h :: h in s.grants && h.id == g.id)
      || (entry.Approved? && entry.grant.id == g.id)
    ensures AllAccounted(base, next)
  {
    forall g | g in next.grants ensures Accounted(base, next.log, |next.log|, g.id) {
      if h :| h in s.grants && h.id == g.id {
        AccountedGrows(base, s.log, |s.log|, entry, g.id);
      } else {
        assert next.log[|s.log|] == entry;
      }
    }
    forall i | |base.log| <= i < |next.log| && next.log[i].Reused?
        ensures Accounted(base, next.log, i, next.log[i].id) {
      if i < |s.log| {
        assert next.log[i] == s.log[i];
        AccountedGrows(base, s.log, i, entry, s.log[i].id);
      } else {
        AccountedGrows(base, s.log, i, entry, entry.id);
      }
    }
  }

  lemma AccountedKeeps(classify: Classifier, base: State, s: State, step: Step)
    requires Inv(classify, s) && Enabled(s, step) && !step.Forget? && AllAccounted(base, s)
    ensures AllAccounted(base, Next(classify, s, step))
  {
    hide Inv, Live, FirstFor, Redeemed, AfterIssue, Accounted, Without, Granted;
    var next := Next(classify, s, step);
    match step
    case LookUp(request, now) => AccountedLookUp(classify, base, s, request, now);
    case Answer(request, decision, id) =>
      if !decision.Deny? {
        AccountedAnswer(classify, base, s, request, decision, id);
      }
    case RevokeLate(request) => WithoutMembers(s.grants, s.requests[request].grant);
    case RevokeByUser(id) => WithoutMembers(s.grants, id);
    case _ =>
  }

  lemma AccountedLookUp(classify: Classifier, base: State, s: State, request: nat, now: nat)
    requires Inv(classify, s) && Enabled(s, LookUp(request, now)) && AllAccounted(base, s)
    ensures AllAccounted(base, Next(classify, s, LookUp(request, now)))
  {
    var access, live := s.requests[request].access, Live(s.grants, now);
    var next, at := Next(classify, s, LookUp(request, now)), FirstFor(live, access, now);
    LookUpGrants(s.grants, access, now);
    assert next.grants == Redeemed(live, access, now);
    hide Inv, Live, FirstFor, Redeemed, Accounted, Authorises, Remaining;
    forall g | g in next.grants ensures exists h :: h in s.grants && h.id == g.id {
      var h :| h in s.grants && Descends(g, h);
    }
    if at < |live| {
      assert live[at] in s.grants;
      AccountedStep(base, s, next, Reused(access, live[at].id, now));
    } else {
      assert next.log == s.log;
    }
  }

  lemma AccountedAnswer(classify: Classifier, base: State, s: State, request: nat, decision: Decision, id: Uuid)
    requires Inv(classify, s) && Enabled(s, Answer(request, decision, id)) && AllAccounted(base, s) && !decision.Deny?
    ensures AllAccounted(base, Next(classify, s, Answer(request, decision, id)))
  {
    var Waiting(access, asked) := s.requests[request];
    var grant, next := Granted(classify, id, access, asked, decision), Next(classify, s, Answer(request, decision, id));
    IssueBudget(s.grants, grant, access, asked);
    hide Inv, AfterIssue, Accounted, Remaining, Granted;
    forall g | g in next.grants ensures (exists h :: h in s.grants && h.id == g.id) || grant.id == g.id {
      var h :| h in s.grants + [grant] && Descends(g, h);
      assert h in s.grants || h == grant;
    }
    AccountedStep(base, s, next, Approved(access, asked, decision, grant));
  }

  lemma {:induction false} AccountedSince(classify: Classifier, run: seq<State>, steps: seq<Step>, u: nat, k: nat)
    requires IsRun(classify, run, steps) && u <= k <= |steps|
    requires forall j :: u <= j < k ==> !steps[j].Forget?
    ensures AllAccounted(run[u], run[k])
  {
    if k == u {
      AllStored(run[u]);
    } else {
      hide IsRun, AllAccounted;
      AccountedSince(classify, run, steps, u, k - 1);
      AccountedNext(classify, run, steps, run[u], k - 1);
    }
  }

  lemma AccountedNext(classify: Classifier, run: seq<State>, steps: seq<Step>, base: State, k: nat)
    requires IsRun(classify, run, steps) && k < |steps| && !steps[k].Forget? && AllAccounted(base, run[k])
    ensures AllAccounted(base, run[k + 1])
  {
    RunKeeps(classify, run, steps, k);
    assert Enabled(run[k], steps[k]) && run[k + 1] == Next(classify, run[k], steps[k]);
    hide IsRun, Inv, AllAccounted, Next, Enabled;
    AccountedKeeps(classify, base, run[k], steps[k]);
  }

  lemma AllStored(s: State)
    ensures AllAccounted(s, s)
  {
    forall g | g in s.grants ensures Stored(s, g.id) {
      var k :| 0 <= k < |s.grants| && s.grants[k] == g;
    }
  }

  /** The grant was stored then, its request in flight if the grants had been dropped, or approved since. */
  ghost predicate RestsOn(unlocking: State, log: seq<Entry>, i: nat, id: Uuid)
    requires i <= |log|
  {
    || (Stored(unlocking, id) && (unlocking.forgotten ==> Owned(unlocking, id)))
    || ApprovedSince(log, |unlocking.log|, i, id)
  }

  /** What outlives a lock.  As long as the grants are not dropped, an action that was not prompted for
      rests on an approval given since the vault opened, or on a grant the unlock found in the store; if
      the lock had dropped the grants before, that grant's request was in flight when the vault opened.
      There is no third way. */
  lemma ReuseAfterUnlock(classify: Classifier, run: seq<State>, steps: seq<Step>, u: nat, k: nat, i: nat)
    requires IsRun(classify, run, steps) && u < k <= |steps| && steps[u].Unlock?
    requires forall j :: u < j < k ==> !steps[j].Forget?
    requires |run[u].log| <= i < |run[k].log| && run[k].log[i].Reused?
    ensures RestsOn(run[u], run[k].log, i, run[k].log[i].id)
  {
    RunKeeps(classify, run, steps, u);
    AccountedSince(classify, run, steps, u, k);
    var id := run[k].log[i].id;
    if Stored(run[u], id) && run[u].forgotten {
      var n :| 0 <= n < |run[u].grants| && run[u].grants[n].id == id;
      assert run[u].grants[n] in run[u].grants;
    }
  }

  /** What the user revoked stays revoked.  As long as the grants are not dropped, which ends them all, no
      action that was not prompted for rests on a revoked grant, unless that id was approved anew. */
  lemma RevokedIsNotReused(classify: Classifier, run: seq<State>, steps: seq<Step>, u: nat, k: nat, i: nat)
    requires IsRun(classify, run, steps) && u < k <= |steps| && steps[u].RevokeByUser?
    requires forall j :: u < j < k ==> !steps[j].Forget?
    requires |run[u].log| <= i < |run[k].log| && run[k].log[i].Reused? && run[k].log[i].id == steps[u].id
    ensures ApprovedSince(run[k].log, |run[u].log|, i, steps[u].id)
  {
    assert run[u + 1] == Next(classify, run[u], steps[u]);
    WithoutMembers(run[u].grants, steps[u].id);
    AccountedSince(classify, run, steps, u + 1, k);
    var left := run[u + 1].grants;
    forall n | 0 <= n < |left| ensures left[n].id != steps[u].id {
      assert left[n] in left;
    }
  }

  /** A prompt answered after the vault has locked and dropped its grants, its request dispatched only
      after the next unlock. */
  function LateStep(access: Access, id: Uuid, i: nat): Step
    requires i < 9
  {
    if i == 0 || i == 6 then Unlock
    else if i == 1 then Arrive(0, access)
    else if i == 2 then LookUp(0, 100)
    else if i == 3 then Lock
    else if i == 4 then Forget
    else if i == 5 then Answer(0, AllowFor(900, 25), id)
    else if i == 7 then Arrive(1, access)
    else LookUp(1, 101)
  }

  function LateState(access: Access, id: Uuid, i: nat): State {
    var grant := NewGrant(id, access, 100, 900, 25);
    var approved, answered := [Approved(access, 100, AllowFor(900, 25), grant)], map[0 := Authorised(access, id)];
    if i == 0 then START
    else if i == 1 then State([], map[], true, false, [])
    else if i == 2 then State([], map[0 := Checked(access)], true, false, [])
    else if i == 3 then State([], map[0 := Waiting(access, 100)], true, false, [])
    else if i == 4 then State([], map[0 := Waiting(access, 100)], false, false, [])
    else if i == 5 then State([], map[0 := Waiting(access, 100)], false, true, [])
    else if i == 6 then State([grant.(uses := 1)], answered, false, true, approved)
    else if i == 7 then State([grant.(uses := 1)], answered, true, false, approved)
    else if i == 8 then State([grant.(uses := 1)], answered[1 := Checked(access)], true, false, approved)
    else State([grant.(uses := 2)], answered[1 := Authorised(access, id)], true, false,
        approved + [Reused(access, id, 101)])
  }

  lemma IssuedOnce(classify: Classifier, access: Access, id: Uuid)
    requires !Discloses(classify, access.intent) && access.client.executable.Some?
    ensures var grant := NewGrant(id, access, 100, 900, 25);
            && Granted(classify, id, access, 100, AllowFor(900, 25)) == grant
            && AfterIssue([], grant, access, 100) == [grant.(uses := 1)]
  {
    var grant := NewGrant(id, access, 100, 900, 25);
    assert Granted(classify, id, access, 100, AllowFor(900, 25)) == grant;
    OneGrant(grant, access, 100);
    assert [] + [grant] == [grant];
    hide Live, Redeemed, NewGrant;
    assert AfterIssue([], grant, access, 100) == [grant.(uses := 1)];
  }

  lemma LateAnswer(classify: Classifier, access: Access, id: Uuid)
    requires !Discloses(classify, access.intent) && access.client.executable.Some?
    ensures Enabled(LateState(access, id, 5), LateStep(access, id, 5))
    ensures Next(classify, LateState(access, id, 5), LateStep(access, id, 5)) == LateState(access, id, 6)
  {
    IssuedOnce(classify, access, id);
  }

  lemma LateReuse(classify: Classifier, access: Access, id: Uuid)
    requires access.client.executable.Some?
    ensures Enabled(LateState(access, id, 8), LateStep(access, id, 8))
    ensures Next(classify, LateState(access, id, 8), LateStep(access, id, 8)) == LateState(access, id, 9)
  {
    var once := NewGrant(id, access, 100, 900, 25).(uses := 1);
    OneGrant(once, access, 101);
    assert Charged([once], 0) == [once.(uses := 2)];
    hide Live, FirstFor;
  }

  lemma LateRest(classify: Classifier, access: Access, id: Uuid, i: nat)
    requires i < 9 && i != 5 && i != 8
    ensures Enabled(LateState(access, id, i), LateStep(access, id, i))
    ensures Next(classify, LateState(access, id, i), LateStep(access, id, i)) == LateState(access, id, i + 1)
  {
    if i == 2 {
      assert Live([], 100) == [] && FirstFor([], access, 100) == 0;
    }
  }

  /** The second way happens: the run above is one of the machine's, its answer is given while the vault
      is locked and the grants dropped, and the next request uses the grant unprompted. */
  lemma AnswerUnderLockOutlivesIt(classify: Classifier, access: Access, id: Uuid)
    requires !Discloses(classify, access.intent) && access.client.executable.Some?
    ensures var run := seq(10, i requires 0 <= i < 10 => LateState(access, id, i));
            var steps := seq(9, i requires 0 <= i < 9 => LateStep(access, id, i));
            && IsRun(classify, run, steps)
            && steps[5].Answer? && run[5].forgotten && run[6].forgotten
            && run[9].log == run[6].log + [Reused(access, id, 101)]
  {
    hide LateState, LateStep, Next, Enabled;
    var run := seq(10, i requires 0 <= i < 10 => LateState(access, id, i));
    var steps := seq(9, i requires 0 <= i < 9 => LateStep(access, id, i));
    forall i | 0 <= i < 9 ensures Enabled(run[i], steps[i]) && run[i + 1] == Next(classify, run[i], steps[i]) {
      if i == 5 {
        LateAnswer(classify, access, id);
      } else if i == 8 {
        LateReuse(classify, access, id);
      } else {
        LateRest(classify, access, id, i);
      }
    }
    LateShape(access, id);
  }

  lemma LateShape(access: Access, id: Uuid)
    ensures LateState(access, id, 0) == START && LateStep(access, id, 5).Answer?
    ensures LateState(access, id, 5).forgotten && LateState(access, id, 6).forgotten
    ensures LateState(access, id, 9).log == LateState(access, id, 6).log + [Reused(access, id, 101)]
  {
  }

  /** A grant given before the vault locked, which then opens again before the grants are dropped. */
  function SlowStep(access: Access, id: Uuid, i: nat): Step
    requires i < 9
  {
    if i == 0 || i == 6 then Unlock
    else if i == 1 then Arrive(0, access)
    else if i == 2 then LookUp(0, 100)
    else if i == 3 then Answer(0, AllowFor(900, 25), id)
    else if i == 4 then Dispatch(0)
    else if i == 5 then Lock
    else if i == 7 then Arrive(1, access)
    else LookUp(1, 101)
  }

  function SlowState(access: Access, id: Uuid, i: nat): State {
    var grant := NewGrant(id, access, 100, 900, 25);
    var approved, stored := [Approved(access, 100, AllowFor(900, 25), grant)], [grant.(uses := 1)];
    if i < 4 then LateState(access, id, i)
    else if i == 4 then State(stored, map[0 := Authorised(access, id)], true, false, approved)
    else if i == 5 then State(stored, map[], true, false, approved)
    else if i == 6 then State(stored, map[], false, false, approved)
    else if i == 7 then State(stored, map[], true, false, approved)
    else if i == 8 then State(stored, map[1 := Checked(access)], true, false, approved)
    else State([grant.(uses := 2)], map[1 := Authorised(access, id)], true, false,
        approved + [Reused(access, id, 101)])
  }

  lemma SlowAnswer(classify: Classifier, access: Access, id: Uuid)
    requires !Discloses(classify, access.intent) && access.client.executable.Some?
    ensures Enabled(SlowState(access, id, 3), SlowStep(access, id, 3))
    ensures Next(classify, SlowState(access, id, 3), SlowStep(access, id, 3)) == SlowState(access, id, 4)
  {
    IssuedOnce(classify, access, id);
  }

  lemma SlowReuse(classify: Classifier, access: Access, id: Uuid)
    requires access.client.executable.Some?
    ensures Enabled(SlowState(access, id, 8), SlowStep(access, id, 8))
    ensures Next(classify, SlowState(access, id, 8), SlowStep(access, id, 8)) == SlowState(access, id, 9)
  {
    var once := NewGrant(id, access, 100, 900, 25).(uses := 1);
    OneGrant(once, access, 101);
    assert Charged([once], 0) == [once.(uses := 2)];
    hide Live, FirstFor;
  }

  lemma SlowRest(classify: Classifier, access: Access, id: Uuid, i: nat)
    requires i < 9 && i != 3 && i != 8
    ensures Enabled(SlowState(access, id, i), SlowStep(access, id, i))
    ensures Next(classify, SlowState(access, id, i), SlowStep(access, id, i)) == SlowState(access, id, i + 1)
  {
    if i == 2 {
      assert Live([], 100) == [] && FirstFor([], access, 100) == 0;
    }
  }

  /** An unlock that comes before the grants are dropped finds them: the run above is one of the
      machine's, and after its unlock a request uses a grant of before the lock unprompted. */
  lemma UnlockBeforeForgetReuses(classify: Classifier, access: Access, id: Uuid)
    requires !Discloses(classify, access.intent) && access.client.executable.Some?
    ensures var run := seq(10, i requires 0 <= i < 10 => SlowState(access, id, i));
            var steps := seq(9, i requires 0 <= i < 9 => SlowStep(access, id, i));
            && IsRun(classify, run, steps)
            && steps[3].Answer? && steps[5].Lock? && steps[6].Unlock? && |run[6].requests| == 0
            && run[9].log == run[6].log + [Reused(access, id, 101)]
  {
    hide SlowState, SlowStep, Next, Enabled;
    var run := seq(10, i requires 0 <= i < 10 => SlowState(access, id, i));
    var steps := seq(9, i requires 0 <= i < 9 => SlowStep(access, id, i));
    forall i | 0 <= i < 9 ensures Enabled(run[i], steps[i]) && run[i + 1] == Next(classify, run[i], steps[i]) {
      if i == 3 {
        SlowAnswer(classify, access, id);
      } else if i == 8 {
        SlowReuse(classify, access, id);
      } else {
        SlowRest(classify, access, id, i);
      }
    }
    SlowShape(access, id);
  }

  lemma SlowShape(access: Access, id: Uuid)
    ensures SlowState(access, id, 0) == START && SlowStep(access, id, 3).Answer?
    ensures SlowStep(access, id, 5).Lock? && SlowStep(access, id, 6).Unlock?
    ensures |SlowState(access, id, 6).requests| == 0
    ensures SlowState(access, id, 9).log == SlowState(access, id, 6).log + [Reused(access, id, 101)]
  {
  }

  lemma OneGrant(g: Grant, access: Access, now: nat)
    requires g == NewGrantOf(access, g).(uses := g.uses) && access.client.executable.Some?
    requires now < g.expiresAt && g.uses + 1 < g.maxUses
    ensures FirstFor([g], access, now) == 0 && Live([g], now) == [g]
    ensures Redeemed([g], access, now) == [g.(uses := g.uses + 1)]
    ensures Live([g.(uses := g.uses + 1)], now) == [g.(uses := g.uses + 1)]
  {
    var after := g.(uses := g.uses + 1);
    assert [g][1..] == [] && [after][1..] == [];
    assert Authorises(g, access, now);
    assert Live([], now) == [];
    assert [g][0 := after] == [after];
  }

  /** The bound needs the interface's promise: an answer allowing no uses at all still lets the
      request it answers through. */
  lemma ZeroUsesIsOverBudget(classify: Classifier, id: Uuid, access: Access, asked: nat, seconds: nat)
    requires !Discloses(classify, access.intent)
    ensures var given := AllowFor(seconds, 0);
            var log := [Approved(access, asked, given, Granted(classify, id, access, asked, given))];
            |log| > ApprovedUses(classify, log)
  {
    var given := AllowFor(seconds, 0);
    var log := [Approved(access, asked, given, Granted(classify, id, access, asked, given))];
    assert log[..0] == [];
  }
}
