/** Standing permission: pinned to one item, field, command and program, with a deadline and a use
    count. */
module Grants {
  import opened Crypto
  import opened Sequences

  const U64_MAX: nat := 0xFFFF_FFFF_FFFF_FFFF

  datatype Field = Password | Username | Totp | Custom(name: string)

  datatype Intent = Run(command: string, args: seq<string>, envVar: string, cwd: Option<string>) | Reveal

  datatype Scope = RunScope(command: string, args: seq<string>, cwd: Option<string>) | RevealScope

  datatype Client = Client(pid: nat, executable: Option<string>)

  /** What one request asks for. */
  datatype Access = Access(item: Uuid, field: Field, intent: Intent, client: Client)

  datatype Grant = Grant(id: Uuid, item: Uuid, field: Field, scope: Scope, client: Client, expiresAt: nat,
                         maxUses: nat, uses: nat)

  function LowerAscii(c: char): char {
    if 'A' <= c <= 'Z' then (c as int + 32) as char else c
  }

  predicate EqIgnoreAsciiCase(a: string, b: string) {
    |a| == |b| && forall i :: 0 <= i < |a| ==> LowerAscii(a[i]) == LowerAscii(b[i])
  }

  predicate SameProgram(a: Client, b: Client) {
    a.executable.Some? && b.executable.Some? && EqIgnoreAsciiCase(a.executable.value, b.executable.value)
  }

  function ScopeFor(intent: Intent): Scope {
    match intent
    case Reveal => RevealScope
    case Run(command, args, _, cwd) => RunScope(command, args, cwd)
  }

  predicate Covers(scope: Scope, intent: Intent) {
    match scope
    case RevealScope => intent.Reveal?
    case RunScope(command, args, cwd) =>
      intent.Run? && command == intent.command && args == intent.args && cwd == intent.cwd
  }

  function SaturatingAdd(a: nat, b: nat): nat {
    if a + b > U64_MAX then U64_MAX else a + b
  }

  function NewGrant(id: Uuid, access: Access, issuedAt: nat, seconds: nat, maxUses: nat): Grant {
    Grant(id, access.item, access.field, ScopeFor(access.intent), access.client, SaturatingAdd(issuedAt, seconds),
        maxUses, 0)
  }

  predicate IsLive(g: Grant, now: nat) {
    now < g.expiresAt && g.uses < g.maxUses
  }

  predicate Authorises(g: Grant, access: Access, now: nat) {
    && IsLive(g, now) && g.item == access.item && g.field == access.field
    && Covers(g.scope, access.intent) && SameProgram(g.client, access.client)
  }

  /** The first grant that authorises the request, or the number of grants. */
  function FirstFor(grants: seq<Grant>, access: Access, now: nat): (at: nat)
    ensures at <= |grants| && (at < |grants| ==> Authorises(grants[at], access, now))
    ensures forall j :: 0 <= j < at ==> !Authorises(grants[j], access, now)
  {
    if grants == [] then 0
    else if Authorises(grants[0], access, now) then 0
    else 1 + FirstFor(grants[1..], access, now)
  }

  function Charged(grants: seq<Grant>, at: nat): seq<Grant>
    requires at < |grants|
  {
    grants[at := grants[at].(uses := grants[at].uses + 1)]
  }

  function Redeemed(grants: seq<Grant>, access: Access, now: nat): seq<Grant> {
    var at := FirstFor(grants, access, now);
    if at < |grants| then Charged(grants, at) else grants
  }

  function Live(grants: seq<Grant>, now: nat): seq<Grant> {
    if grants == [] then []
    else if IsLive(grants[0], now) then [grants[0]] + Live(grants[1..], now)
    else Live(grants[1..], now)
  }

  function Without(grants: seq<Grant>, id: Uuid): seq<Grant> {
    if grants == [] then []
    else if grants[0].id == id then Without(grants[1..], id)
    else [grants[0]] + Without(grants[1..], id)
  }

  /** The uses left on grants somebody could still be charged to: those of identified programs. */
  function Remaining(grants: seq<Grant>): int {
    if grants == [] then 0
    else Remaining(grants[..|grants| - 1])
         + (var g := grants[|grants| - 1]; if g.client.executable.Some? then g.maxUses - g.uses else 0)
  }

  // ---- whom a grant serves --------------------------------------------

  /** The same character, or the two cases of one ASCII letter. */
  predicate SameLetter(a: char, b: char) {
    || a == b
    || ('A' <= a <= 'Z' && b as int == a as int + 32)
    || ('A' <= b <= 'Z' && a as int == b as int + 32)
  }

  predicate SamePath(a: string, b: string) {
    |a| == |b| && forall i :: 0 <= i < |a| ==> SameLetter(a[i], b[i])
  }

  /** The very command, arguments and directory; or a disclosure for a disclosure. */
  predicate SameTerms(scope: Scope, intent: Intent) {
    if intent.Reveal? then scope == RevealScope
    else scope.RunScope? && scope.command == intent.command && scope.args == intent.args && scope.cwd == intent.cwd
  }

  /** A grant serves a request exactly while it is before its deadline and has uses left, for the same item
      and field on the same terms, and when both programs are known and their paths differ in nothing but
      the case of ASCII letters. */
  lemma AuthorisesExactly(g: Grant, access: Access, now: nat)
    ensures Authorises(g, access, now) <==>
              && now < g.expiresAt && g.uses < g.maxUses
              && g.item == access.item && g.field == access.field && SameTerms(g.scope, access.intent)
              && g.client.executable.Some? && access.client.executable.Some?
              && SamePath(g.client.executable.value, access.client.executable.value)
  {
    if g.client.executable.Some? && access.client.executable.Some? {
      PathsFold(g.client.executable.value, access.client.executable.value);
    }
  }

  lemma PathsFold(a: string, b: string)
    ensures EqIgnoreAsciiCase(a, b) <==> SamePath(a, b)
  {
    forall i | 0 <= i < |a| && i < |b| ensures LowerAscii(a[i]) == LowerAscii(b[i]) <==> SameLetter(a[i], b[i]) {
    }
  }

  /** What a new grant carries. */
  lemma NewGrantExactly(id: Uuid, access: Access, issuedAt: nat, seconds: nat, maxUses: nat, now: nat)
    requires now <= U64_MAX
    ensures var g := NewGrant(id, access, issuedAt, seconds, maxUses);
            && g.id == id && g.item == access.item && g.field == access.field && g.client == access.client
            && SameTerms(g.scope, access.intent) && g.uses == 0 && g.maxUses == maxUses
            && (now < g.expiresAt <==> now < U64_MAX && now < issuedAt + seconds)
  {
  }

  // ---- what the operations do -----------------------------------------

  lemma {:induction false} LiveMembers(grants: seq<Grant>, now: nat)
    ensures forall g :: g in Live(grants, now) <==> g in grants && IsLive(g, now)
  {
    if grants != [] {
      LiveMembers(grants[1..], now);
    }
  }

  /** Pruning decides grant by grant and keeps their order. */
  lemma {:induction false} LiveSplits(a: seq<Grant>, b: seq<Grant>, now: nat)
    ensures Live(a + b, now) == Live(a, now) + Live(b, now)
  {
    if a == [] {
      assert a + b == b;
    } else {
      LiveSplits(a[1..], b, now);
      UnconsAppend(a, b);
      var first: seq<Grant> := if IsLive(a[0], now) then [a[0]] else [];
      assert Live(a, now) == first + Live(a[1..], now) && Live(a + b, now) == first + Live(a[1..] + b, now);
      hide Live;
      JoinAssociates(first, Live(a[1..], now), Live(b, now));
    }
  }

  lemma LiveOne(g: Grant, now: nat)
    ensures Live([g], now) == if now < g.expiresAt && g.uses < g.maxUses then [g] else []
  {
    assert [g][1..] == [];
  }

  /** A request is served exactly when some stored grant authorises it. */
  lemma ServedExactly(grants: seq<Grant>, access: Access, now: nat)
    ensures FirstFor(Live(grants, now), access, now) < |Live(grants, now)|
            <==> exists g :: g in grants && Authorises(g, access, now)
  {
    var live := Live(grants, now);
    LiveMembers(grants, now);
    var at := FirstFor(live, access, now);
    if at < |live| {
      assert live[at] in live;
    } else {
      forall g | g in grants ensures !Authorises(g, access, now) {
        assert g in live ==> exists i :: 0 <= i < |live| && live[i] == g;
      }
    }
  }

  lemma {:induction false} WithoutMembers(grants: seq<Grant>, id: Uuid)
    ensures forall g :: g in Without(grants, id) <==> g in grants && g.id != id
  {
    if grants != [] {
      WithoutMembers(grants[1..], id);
    }
  }

  ghost predicate WithinLimits(grants: seq<Grant>) {
    forall g :: g in grants ==> g.uses <= g.maxUses
  }

  lemma {:induction false} RemainingSplits(a: seq<Grant>, b: seq<Grant>)
    ensures Remaining(a + b) == Remaining(a) + Remaining(b)
  {
    if b == [] {
      assert a + b == a;
    } else {
      assert (a + b)[..|a + b| - 1] == a + b[..|b| - 1];
      RemainingSplits(a, b[..|b| - 1]);
    }
  }

  lemma {:induction false} RemainingOne(g: Grant)
    ensures Remaining([g]) == if g.client.executable.Some? then g.maxUses - g.uses else 0
  {
    assert [g][..0] == [];
  }

  lemma {:induction false} LiveCostsNothing(grants: seq<Grant>, now: nat)
    requires WithinLimits(grants)
    ensures 0 <= Remaining(Live(grants, now)) <= Remaining(grants)
  {
    if grants != [] {
      var rest := grants[1..];
      forall g | g in rest ensures g in grants {
      }
      LiveCostsNothing(rest, now);
      assert grants == [grants[0]] + rest;
      RemainingSplits([grants[0]], rest);
      RemainingSplits([grants[0]], Live(rest, now));
      RemainingOne(grants[0]);
      assert grants[0] in grants;
    }
  }

  lemma {:induction false} WithoutCostsNothing(grants: seq<Grant>, id: Uuid)
    requires WithinLimits(grants)
    ensures 0 <= Remaining(Without(grants, id)) <= Remaining(grants)
  {
    if grants != [] {
      var rest := grants[1..];
      forall g | g in rest ensures g in grants {
      }
      WithoutCostsNothing(rest, id);
      assert grants == [grants[0]] + rest;
      RemainingSplits([grants[0]], rest);
      RemainingSplits([grants[0]], Without(rest, id));
      RemainingOne(grants[0]);
      assert grants[0] in grants;
    }
  }

  /** A redemption charges exactly one use, to a grant that matches, or changes nothing. */
  lemma RedeemedChargesOne(grants: seq<Grant>, access: Access, now: nat)
    requires WithinLimits(grants)
    ensures var at := FirstFor(grants, access, now);
            && Remaining(Redeemed(grants, access, now)) == Remaining(grants) - (if at < |grants| then 1 else 0)
            && WithinLimits(Redeemed(grants, access, now))
  {
    var at := FirstFor(grants, access, now);
    if at < |grants| {
      assert grants[at].uses < grants[at].maxUses;
      hide Authorises, Remaining;
      RemainingUpdated(grants, at, grants[at].(uses := grants[at].uses + 1));
      ChargedWithinLimits(grants, at);
    }
  }

  lemma ChargedWithinLimits(grants: seq<Grant>, at: nat)
    requires WithinLimits(grants) && at < |grants| && grants[at].uses < grants[at].maxUses
    ensures WithinLimits(Charged(grants, at))
  {
    var after := Charged(grants, at);
    forall h | h in after ensures h.uses <= h.maxUses {
      var k :| 0 <= k < |after| && after[k] == h;
      assert k != at ==> h == grants[k] && grants[k] in grants;
    }
  }

  /** Replacing one grant changes what is left by what is left on it. */
  lemma {:induction false} RemainingUpdated(grants: seq<Grant>, at: nat, after: Grant)
    requires at < |grants| && after.client == grants[at].client
    ensures Remaining(grants[at := after]) - Remaining(grants)
            == if after.client.executable.Some?
               then (after.maxUses - after.uses) - (grants[at].maxUses - grants[at].uses) else 0
  {
    var high, next := grants[..|grants| - 1], grants[at := after];
    if at < |high| {
      RemainingUpdated(high, at, after);
      assert next[..|next| - 1] == high[at := after];
    } else {
      assert next[..|next| - 1] == high;
    }
  }

  // ---- the object -----------------------------------------------------

  class GrantStore {
    var grants: seq<Grant>

    constructor ()
      ensures grants == []
    {
      grants := [];
    }

    method Issue(grant: Grant) returns (id: Uuid)
      modifies this
      ensures grants == old(grants) + [grant] && id == grant.id
    {
      grants := grants + [grant];
      id := grant.id;
    }

    method Redeem(access: Access, now: nat) returns (r: Option<Uuid>)
      modifies this
      ensures grants == Redeemed(old(grants), access, now)
      ensures var at := FirstFor(old(grants), access, now);
              if at == |old(grants)| then r == None && grants == old(grants)
              else
                && r == Some(old(grants)[at].id) && |grants| == |old(grants)|
                && grants[at] == old(grants)[at].(uses := old(grants)[at].uses + 1)
                && forall k :: 0 <= k < |grants| && k != at ==> grants[k] == old(grants)[k]
    {
      var at := FirstFor(grants, access, now);
      if at == |grants| {
        return None;
      }
      grants := grants[at := grants[at].(uses := grants[at].uses + 1)];
      r := Some(grants[at].id);
    }

    /** Exactly the live grants stay, in their order. */
    method Prune(now: nat)
      modifies this
      ensures forall g :: g in grants <==> g in old(grants) && IsLive(g, now)
      ensures grants == Live(old(grants), now)
    {
      LiveMembers(grants, now);
      grants := Live(grants, now);
    }

    method Revoke(id: Uuid) returns (found: bool)
      modifies this
      ensures grants == Without(old(grants), id)
      ensures forall g :: g in grants <==> g in old(grants) && g.id != id
      ensures found <==> exists g :: g in old(grants) && g.id == id
    {
      var before := grants;
      grants := Without(grants, id);
      found := |grants| != |before|;
      WithoutShrinks(before, id);
      WithoutMembers(before, id);
    }

    method Clear()
      modifies this
      ensures grants == []
    {
      grants := [];
    }
  }

  lemma {:induction false} WithoutShrinks(grants: seq<Grant>, id: Uuid)
    ensures |Without(grants, id)| <= |grants|
    ensures |Without(grants, id)| == |grants| <==> forall g :: g in grants ==> g.id != id
  {
    if grants != [] {
      WithoutShrinks(grants[1..], id);
      assert grants[0] in grants;
      assert forall g :: g in grants ==> g == grants[0] || g in grants[1..];
      assert forall g :: g in grants[1..] ==> g in grants;
    }
  }
}
