/** The broker object.  One request crosses several of these methods, with the store's lock released
    and other requests running in between; each method is one step of the machine. */
module Transport {
  import opened Crypto
  import opened Grants
  import opened Brokers

  class Broker {
    const classify: Classifier
    const store: GrantStore
    var unlocked: bool
    ghost var machine: State

    /** The object is where the machine is, and the machine keeps its promises. */
    ghost predicate Valid()
      reads this, store
    {
      store.grants == machine.grants && unlocked == machine.unlocked && Inv(classify, machine)
    }

    constructor (classify: Classifier)
      ensures Valid() && fresh(store) && this.classify == classify && machine == START
    {
      this.classify, unlocked, machine := classify, false, START;
      store := new GrantStore();
    }

    /** The start of a request: refused while the vault is locked. */
    method Begin(request: nat, access: Access) returns (accepted: bool)
      requires Valid() && request !in machine.requests
      modifies this`machine
      ensures Valid()
      ensures accepted <==> unlocked
      ensures accepted <==> old(Enabled(machine, Arrive(request, access)))
      ensures machine == if accepted then Next(classify, old(machine), Arrive(request, access)) else old(machine)
    {
      accepted := unlocked;
      if accepted {
        StepKeeps(classify, machine, Arrive(request, access));
        machine := Next(classify, machine, Arrive(request, access));
      }
    }

    /** Prunes, then charges a grant that covers the request, all under one hold of the lock. */
    method LookUp(request: nat, access: Access, now: nat) returns (reused: Option<Uuid>)
      requires Valid() && request in machine.requests && machine.requests[request] == Checked(access)
      modifies this`machine, store
      ensures Valid() && machine == Next(classify, old(machine), Step.LookUp(request, now))
      ensures machine.requests[request]
              == if reused.Some? then Authorised(access, reused.value) else Waiting(access, now)
    {
      StepKeeps(classify, machine, Step.LookUp(request, now));
      store.Prune(now);
      reused := store.Redeem(access, now);
      machine := Next(classify, machine, Step.LookUp(request, now));
    }

    /** The user's answer: a disclosure is never granted for more than once; the grant is stored, this
        request charged, and the store pruned under one hold of the lock. */
    method Settle(request: nat, access: Access, asked: nat, decision: Decision, id: Uuid) returns (issued: Option<Uuid>)
      requires Valid() && Enabled(machine, Answer(request, decision, id))
      requires machine.requests[request] == Waiting(access, asked)
      modifies this`machine, store
      ensures Valid() && machine == Next(classify, old(machine), Answer(request, decision, id))
      ensures issued == if decision.Deny? then None else Some(id)
    {
      StepKeeps(classify, machine, Answer(request, decision, id));
      ghost var next := Next(classify, machine, Answer(request, decision, id));
      hide Inv, Live, Redeemed;
      var narrowed := if decision.AllowFor? && Discloses(classify, access.intent) then AllowOnce else decision;
      match narrowed {
        case Deny =>
          machine := next;
          return None;
        case AllowOnce =>
          var _ := store.Issue(NewGrant(id, access, asked, ONCE_SECONDS, 1));
        case AllowFor(seconds, uses) =>
          var _ := store.Issue(NewGrant(id, access, asked, seconds, uses));
      }
      var _ := store.Redeem(access, asked);
      store.Prune(asked);
      machine := next;
      issued := Some(id);
    }

    /** The second look at the lock, right before acting. */
    method Dispatch(request: nat) returns (acts: bool)
      requires Valid() && Enabled(machine, Step.Dispatch(request))
      modifies this`machine
      ensures Valid() && machine == Next(classify, old(machine), Step.Dispatch(request))
      ensures acts <==> unlocked
      ensures !acts ==> Enabled(machine, RevokeLate(request))
    {
      StepKeeps(classify, machine, Step.Dispatch(request));
      acts := unlocked;
      machine := Next(classify, machine, Step.Dispatch(request));
    }

    /** A request that found the vault locked takes its own grant back. */
    method TakeBack(request: nat, grant: Uuid)
      requires Valid() && Enabled(machine, RevokeLate(request)) && machine.requests[request].grant == grant
      modifies this`machine, store
      ensures Valid() && machine == Next(classify, old(machine), RevokeLate(request))
    {
      StepKeeps(classify, machine, RevokeLate(request));
      var _ := store.Revoke(grant);
      machine := Next(classify, machine, RevokeLate(request));
    }

    method Revoke(id: Uuid) returns (found: bool)
      requires Valid()
      modifies this`machine, store
      ensures Valid() && machine == Next(classify, old(machine), RevokeByUser(id))
      ensures found <==> exists g :: g in old(machine).grants && g.id == id
    {
      StepKeeps(classify, machine, RevokeByUser(id));
      found := store.Revoke(id);
      machine := Next(classify, machine, RevokeByUser(id));
    }

    /** Everything the user allowed goes; called at a lock, and perhaps only after the next unlock. */
    method ForgetGrants()
      requires Valid()
      modifies this`machine, store
      ensures Valid() && machine == Next(classify, old(machine), Forget) && store.grants == []
    {
      StepKeeps(classify, machine, Forget);
      store.Clear();
      machine := Next(classify, machine, Forget);
    }

    method SetUnlocked(now: bool)
      requires Valid() && now != unlocked
      modifies this`machine, this`unlocked
      ensures Valid() && unlocked == now
      ensures machine == Next(classify, old(machine), if now then Unlock else Lock)
    {
      StepKeeps(classify, machine, if now then Unlock else Lock);
      unlocked := now;
      machine := Next(classify, machine, if now then Unlock else Lock);
    }
  }
}
