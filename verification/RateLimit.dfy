/** The fixed-window limiter in front of the unsigned requests, against the history of its calls. */
module RateLimit {

  const UNSIGNED_PER_MINUTE: nat := 20
  const MAX_TRACKED: nat := 65536
  const U32_MAX: nat := 0xFFFF_FFFF

  type Address = nat

  datatype Call = Call(address: Address, now: int)

  /** Division by sixty that truncates towards zero. */
  function Minute(now: int): int {
    if now >= 0 then now / 60 else -(-now / 60)
  }

  lemma MinuteIsMonotone(a: int, b: int)
    requires a <= b
    ensures Minute(a) <= Minute(b)
  {
  }

  // ---- what a history says --------------------------------------------

  predicate Clocked(history: seq<Call>) {
    forall i, j :: 0 <= i <= j < |history| ==> history[i].now <= history[j].now
  }

  /** Everyone who called in this minute. */
  function Callers(history: seq<Call>, minute: int): set<Address> {
    if history == [] then {}
    else
      var before, last := history[..|history| - 1], history[|history| - 1];
      Callers(before, minute) + if Minute(last.now) == minute then {last.address} else {}
  }

  /** How often this address called in this minute. */
  function Calls(history: seq<Call>, address: Address, minute: int): nat {
    if history == [] then 0
    else
      var before, last := history[..|history| - 1], history[|history| - 1];
      Calls(before, address, minute) + if Minute(last.now) == minute && last.address == address then 1 else 0
  }

  /** The address's first call of the minute came while there was room for another address. */
  predicate Admitted(history: seq<Call>, address: Address, minute: int) {
    history != [] &&
    var before, last := history[..|history| - 1], history[|history| - 1];
    || Admitted(before, address, minute)
    || (last.address == address && Minute(last.now) == minute
        && address !in Callers(before, minute) && |Callers(before, minute)| < MAX_TRACKED)
  }

  /** Fewer than twenty earlier calls this minute, the first of them made, or this one to be made, while
      there was room. */
  predicate Allows(history: seq<Call>, call: Call) {
    var minute := Minute(call.now);
    && Calls(history, call.address, minute) < UNSIGNED_PER_MINUTE
    && (if call.address in Callers(history, minute) then Admitted(history, call.address, minute)
        else |Callers(history, minute)| < MAX_TRACKED)
  }

  // ---- the limiter ----------------------------------------------------

  function Saturated(n: nat): nat {
    if n > U32_MAX then U32_MAX else n
  }

  /** The map holds exactly the admitted addresses of one minute with their calls. */
  ghost predicate Describes(hits: map<Address, nat>, history: seq<Call>, minute: int) {
    && (forall a :: a in hits <==> Admitted(history, a, minute))
    && (forall a :: a in hits ==> hits[a] == Saturated(Calls(history, a, minute)))
    && hits.Keys <= Callers(history, minute)
    && |hits| == (if |Callers(history, minute)| < MAX_TRACKED then |Callers(history, minute)| else MAX_TRACKED)
  }

  class RateLimiter {
    var hits: map<Address, nat>
    var window: int
    ghost var history: seq<Call>

    ghost predicate Valid()
      reads this
    {
      && Clocked(history)
      && (history != [] ==> window == Minute(history[|history| - 1].now))
      && Describes(hits, history, window)
    }

    constructor ()
      ensures Valid() && history == []
    {
      hits, window, history := map[], 0, [];
    }

    method Allow(address: Address, now: int) returns (allowed: bool)
      requires Valid() && (history != [] ==> history[|history| - 1].now <= now)
      modifies this
      ensures Valid() && history == old(history) + [Call(address, now)]
      ensures allowed <==> Allows(old(history), Call(address, now))
      ensures |hits| <= MAX_TRACKED
    {
      hide Describes, Allows, Minute, Clocked;
      var minute := Minute(now);
      if minute != window {
        FirstOfMinute(history, now);
        hits, window := map[], minute;
      }
      ghost var call, before := Call(address, now), history;
      ClockedNext(before, call);
      history := history + [call];
      if address in hits {
        KnownStep(hits, before, call);
        var count := if hits[address] == U32_MAX then U32_MAX else hits[address] + 1;
        hits := hits[address := count];
        allowed := count <= UNSIGNED_PER_MINUTE;
      } else if |hits| >= MAX_TRACKED {
        FullStep(hits, before, call);
        allowed := false;
      } else {
        NewStep(hits, before, call);
        hits := hits[address := 1];
        allowed := true;
      }
      DescribesWithinCap(hits, history, window);
    }
  }

  // ---- lemmas for the limiter -----------------------------------------

  lemma Adds(before: seq<Call>, call: Call)
    ensures var all, minute := before + [call], Minute(call.now);
      && Callers(all, minute) == Callers(before, minute) + {call.address}
      && (forall a :: Calls(all, a, minute) == Calls(before, a, minute) + if a == call.address then 1 else 0)
      && (forall a :: Admitted(all, a, minute) <==>
            || Admitted(before, a, minute)
            || (a == call.address && a !in Callers(before, minute) && |Callers(before, minute)| < MAX_TRACKED))
  {
    assert (before + [call])[..|before|] == before;
  }

  lemma {:induction false} CalledIffCounted(history: seq<Call>, address: Address, minute: int)
    ensures address in Callers(history, minute) <==> Calls(history, address, minute) > 0
    ensures Admitted(history, address, minute) ==> address in Callers(history, minute)
  {
    if history != [] {
      CalledIffCounted(history[..|history| - 1], address, minute);
    }
  }

  lemma KeysCount(hits: map<Address, nat>, callers: set<Address>)
    requires hits.Keys <= callers
    ensures |hits| == |hits.Keys| <= |callers|
    ensures |hits| == |callers| ==> hits.Keys == callers
  {
    SubsetCount(hits.Keys, callers);
  }

  lemma SubsetCount(a: set<Address>, b: set<Address>)
    requires a <= b
    ensures |a| <= |b|
    ensures |a| == |b| ==> a == b
  {
    assert b == a + (b - a);
    assert |b| == |a| + |b - a|;
  }

  lemma RefusedCount(before: seq<Call>, call: Call)
    requires |Callers(before, Minute(call.now))| >= MAX_TRACKED
    ensures |Callers(before + [call], Minute(call.now))| >= MAX_TRACKED
  {
    Adds(before, call);
    SubsetCount(Callers(before, Minute(call.now)), Callers(before + [call], Minute(call.now)));
  }

  lemma ClockedNext(before: seq<Call>, call: Call)
    requires Clocked(before) && (before != [] ==> before[|before| - 1].now <= call.now)
    ensures Clocked(before + [call])
  {
  }

  lemma DescribesWithinCap(hits: map<Address, nat>, history: seq<Call>, minute: int)
    requires Describes(hits, history, minute)
    ensures |hits| <= MAX_TRACKED
  {
  }

  lemma KnownStep(hits: map<Address, nat>, before: seq<Call>, call: Call)
    requires Describes(hits, before, Minute(call.now)) && call.address in hits
    ensures var count := if hits[call.address] == U32_MAX then U32_MAX else hits[call.address] + 1;
      && Describes(hits[call.address := count], before + [call], Minute(call.now))
      && (count <= UNSIGNED_PER_MINUTE <==> Allows(before, call))
  {
    hide Callers, Calls, Admitted, Minute;
    var minute := Minute(call.now);
    Adds(before, call);
    CalledIffCounted(before, call.address, minute);
    assert Callers(before + [call], minute) == Callers(before, minute);
    var next := hits[call.address := if hits[call.address] == U32_MAX then U32_MAX else hits[call.address] + 1];
    assert next.Keys == hits.Keys;
    assert |next| == |next.Keys| == |hits|;
  }

  lemma FullStep(hits: map<Address, nat>, before: seq<Call>, call: Call)
    requires Describes(hits, before, Minute(call.now)) && call.address !in hits && |hits| >= MAX_TRACKED
    ensures Describes(hits, before + [call], Minute(call.now)) && !Allows(before, call)
  {
    hide Callers, Calls, Admitted, Minute;
    var minute := Minute(call.now);
    Adds(before, call);
    RefusedCount(before, call);
    CalledIffCounted(before, call.address, minute);
  }

  lemma {:induction false} NewStep(hits: map<Address, nat>, before: seq<Call>, call: Call)
    requires Describes(hits, before, Minute(call.now)) && call.address !in hits && |hits| < MAX_TRACKED
    ensures Describes(hits[call.address := 1], before + [call], Minute(call.now)) && Allows(before, call)
  {
    hide Callers, Calls, Admitted, Minute;
    var minute := Minute(call.now);
    Adds(before, call);
    KeysCount(hits, Callers(before, minute));
    CalledIffCounted(before, call.address, minute);
    OneMoreKey(hits, call.address);
    assert hits.Keys == Callers(before, minute);
    assert |Callers(before + [call], minute)| == |hits| + 1;
  }

  lemma OneMoreKey(hits: map<Address, nat>, address: Address)
    requires address !in hits
    ensures hits[address := 1].Keys == hits.Keys + {address}
    ensures |hits[address := 1]| == |hits| + 1 == |hits.Keys + {address}|
  {
    var next := hits[address := 1];
    assert next.Keys == hits.Keys + {address};
    assert |next| == |next.Keys| && |hits| == |hits.Keys|;
  }

  lemma FirstOfMinute(history: seq<Call>, now: int)
    requires Clocked(history)
    requires history != [] ==> history[|history| - 1].now <= now && Minute(history[|history| - 1].now) != Minute(now)
    ensures Describes(map[], history, Minute(now))
  {
    NothingYet(history, now);
  }

  /** A minute later than the last call's has no callers. */
  lemma {:induction false} NothingYet(history: seq<Call>, now: int)
    requires Clocked(history)
    requires history != [] ==> history[|history| - 1].now <= now && Minute(history[|history| - 1].now) != Minute(now)
    ensures Callers(history, Minute(now)) == {}
    ensures forall a :: Calls(history, a, Minute(now)) == 0 && !Admitted(history, a, Minute(now))
  {
    if history != [] {
      var before, last := history[..|history| - 1], history[|history| - 1];
      if before != [] {
        var prior := before[|before| - 1];
        assert prior.now <= last.now;
        MinuteIsMonotone(prior.now, last.now);
        MinuteIsMonotone(last.now, now);
      }
      NothingYet(before, now);
    }
  }

  // ---- what is allowed, call by call ----------------------------------

  /** A minute of the clock is sixty seconds from a multiple of sixty. */
  lemma MinuteExactly(now: int, minute: int)
    requires now >= 0
    ensures Minute(now) == minute <==> 60 * minute <= now < 60 * minute + 60
  {
  }

  /** Whether a call falls in the minute that begins at `start`. */
  predicate Falls(call: Call, start: int) {
    start <= call.now < start + 60
  }

  /** The places of this address's calls in that minute. */
  function EarlierCalls(history: seq<Call>, address: Address, start: int): set<nat> {
    set k: nat | k < |history| && history[k].address == address && Falls(history[k], start)
  }

  /** Everyone who called in that minute. */
  function EarlierCallers(history: seq<Call>, start: int): set<Address> {
    set k: nat | k < |history| && Falls(history[k], start) :: history[k].address
  }

  predicate Past(history: seq<Call>) {
    forall k :: 0 <= k < |history| ==> history[k].now >= 0
  }

  lemma {:induction false} CallsExactly(history: seq<Call>, address: Address, minute: int)
    requires Past(history)
    ensures Calls(history, address, minute) == |EarlierCalls(history, address, 60 * minute)|
    ensures Callers(history, minute) == EarlierCallers(history, 60 * minute)
  {
    if history == [] {
      assert EarlierCalls([], address, 60 * minute) == {} && EarlierCallers([], 60 * minute) == {};
    } else {
      hide EarlierCalls, EarlierCallers;
      var u := |history| - 1;
      var before, last := history[..u], history[u];
      CallsExactly(before, address, minute);
      MinuteExactly(last.now, minute);
      hide Minute;
      EarlierCallsNext(history, address, 60 * minute);
      EarlierCallersNext(history, 60 * minute);
    }
  }

  lemma EarlierCallsNext(history: seq<Call>, address: Address, start: int)
    requires history != []
    ensures var u := |history| - 1;
            |EarlierCalls(history, address, start)|
            == |EarlierCalls(history[..u], address, start)|
               + if Falls(history[u], start) && history[u].address == address then 1 else 0
  {
    var u := |history| - 1;
    var one: set<nat> := if Falls(history[u], start) && history[u].address == address then {u} else {};
    assert EarlierCalls(history, address, start) == EarlierCalls(history[..u], address, start) + one;
  }

  lemma EarlierCallersNext(history: seq<Call>, start: int)
    requires history != []
    ensures var u := |history| - 1;
            EarlierCallers(history, start)
            == EarlierCallers(history[..u], start) + if Falls(history[u], start) then {history[u].address} else {}
  {
    var u := |history| - 1;
    var before := history[..u];
    forall a | a in EarlierCallers(history, start)
      ensures a in EarlierCallers(before, start) + if Falls(history[u], start) then {history[u].address} else {}
    {
      var k: nat :| k < |history| && Falls(history[k], start) && history[k].address == a;
      assert k < u ==> before[k] == history[k];
    }
    forall a | a in EarlierCallers(before, start) ensures a in EarlierCallers(history, start) {
      var k: nat :| k < |before| && Falls(before[k], start) && before[k].address == a;
      assert history[k] == before[k];
    }
    assert Falls(history[u], start) ==> history[u].address in EarlierCallers(history, start);
  }

  /** The address's first call of that minute is at `i`, or it has none before the end. */
  ghost predicate FirstAt(history: seq<Call>, address: Address, start: int, i: nat) {
    && i <= |history| && EarlierCalls(history[..i], address, start) == {}
    && (i < |history| ==> history[i].address == address && Falls(history[i], start))
  }

  lemma {:induction false} AdmittedExactly(history: seq<Call>, address: Address, minute: int, i: nat)
    requires Past(history) && FirstAt(history, address, 60 * minute, i)
    ensures Admitted(history, address, minute)
            <==> i < |history| && |EarlierCallers(history[..i], 60 * minute)| < 65536
    decreases |history|
  {
    hide EarlierCallers;
    if history != [] {
      var u := |history| - 1;
      var before, last := history[..u], history[u];
      CallsExactly(before, address, minute);
      CalledIffCounted(before, address, minute);
      MinuteExactly(last.now, minute);
      if i < |history| {
        assert i < u ==> history[i] == before[i] && history[..i] == before[..i];
        if i < u {
          AdmittedExactly(before, address, minute, i);
          assert i in EarlierCalls(before, address, 60 * minute);
        } else {
          assert before == history[..i];
        }
      } else {
        assert history[..i] == history;
        assert last.address == address && Falls(last, 60 * minute) ==> u in EarlierCalls(history, address, 60 * minute);
        NoCallsBefore(history, address, 60 * minute);
        assert before[..u] == before;
        AdmittedExactly(before, address, minute, u);
      }
    }
  }

  lemma NoCallsBefore(history: seq<Call>, address: Address, start: int)
    requires history != [] && EarlierCalls(history, address, start) == {}
    ensures EarlierCalls(history[..|history| - 1], address, start) == {}
  {
    var before := history[..|history| - 1];
    assert EarlierCalls(before, address, start) <= EarlierCalls(history, address, start);
  }

  /** What is allowed.  In the minute that begins at `start`, a call is let through exactly when fewer than
      twenty calls of its address came earlier in that minute and, when the first of them came, or this one
      if it is the first, fewer than 65,536 addresses had called. */
  lemma AllowsExactly(history: seq<Call>, call: Call, start: int, i: nat)
    requires Past(history) && start >= 0 && start % 60 == 0 && Falls(call, start)
    requires FirstAt(history, call.address, start, i)
    ensures Allows(history, call)
            <==> |EarlierCalls(history, call.address, start)| < 20 && |EarlierCallers(history[..i], start)| < 65536
  {
    var minute := start / 60;
    assert start == 60 * minute;
    MinuteExactly(call.now, minute);
    CallsExactly(history, call.address, minute);
    CalledIffCounted(history, call.address, minute);
    AdmittedExactly(history, call.address, minute, i);
    hide Calls, Callers, Admitted, EarlierCallers, Minute;
    if i < |history| {
      assert i in EarlierCalls(history, call.address, start);
    } else {
      assert history[..i] == history;
    }
  }

  /** Calls of a minute ago and longer no longer count. */
  lemma OldCallsAreForgotten(history: seq<Call>, call: Call, start: int)
    requires Past(history) && start >= 0 && start % 60 == 0 && Falls(call, start)
    requires forall k :: 0 <= k < |history| && history[k].address == call.address ==> history[k].now <= call.now - 60
    requires |EarlierCallers(history, start)| < 65536
    ensures Allows(history, call)
  {
    assert EarlierCalls(history, call.address, start) == {};
    assert history[..|history|] == history;
    AllowsExactly(history, call, start, |history|);
  }

  // ---- consequences ---------------------------------------------------

  /** The calls of one address in `[from, until)` that were let through. */
  function Granted(history: seq<Call>, address: Address, from: int, until: int): nat {
    if history == [] then 0
    else
      var before, last := history[..|history| - 1], history[|history| - 1];
      Granted(before, address, from, until)
      + if last.address == address && from <= last.now < until && Allows(before, last) then 1 else 0
  }

  function GrantedIn(history: seq<Call>, address: Address, minute: int): nat {
    if history == [] then 0
    else
      var before, last := history[..|history| - 1], history[|history| - 1];
      GrantedIn(before, address, minute)
      + if last.address == address && Minute(last.now) == minute && Allows(before, last) then 1 else 0
  }

  lemma {:induction false} AtMostTwentyAMinute(history: seq<Call>, address: Address, minute: int)
    ensures GrantedIn(history, address, minute) <= Calls(history, address, minute)
    ensures GrantedIn(history, address, minute) <= 20
  {
    if history != [] {
      AtMostTwentyAMinute(history[..|history| - 1], address, minute);
    }
  }

  lemma MinuteOf(from: int, now: int)
    requires from <= now < from + 60
    ensures Minute(from) <= Minute(now) <= Minute(from) + 1
  {
  }

  lemma {:induction false} TwoMinutesCover(history: seq<Call>, address: Address, from: int)
    ensures Granted(history, address, from, from + 60)
            <= GrantedIn(history, address, Minute(from)) + GrantedIn(history, address, Minute(from) + 1)
  {
    hide Allows, Minute;
    if history != [] {
      TwoMinutesCover(history[..|history| - 1], address, from);
      var last := history[|history| - 1];
      if from <= last.now < from + 60 {
        MinuteOf(from, last.now);
      }
    }
  }

  /** However the calls fall, no address is let through more than forty times in any sixty consecutive
      seconds. */
  lemma AtMostFortyInSixtySeconds(history: seq<Call>, address: Address, from: int)
    ensures Granted(history, address, from, from + 60) <= 40
  {
    TwoMinutesCover(history, address, from);
    AtMostTwentyAMinute(history, address, Minute(from));
    AtMostTwentyAMinute(history, address, Minute(from) + 1);
  }

  function Burst(address: Address, now: int, n: nat): (calls: seq<Call>)
    ensures |calls| == n
  {
    if n == 0 then [] else Burst(address, now, n - 1) + [Call(address, now)]
  }

  lemma GrantedAppend(before: seq<Call>, call: Call, from: int, until: int)
    requires from <= call.now < until
    ensures Granted(before + [call], call.address, from, until)
            == Granted(before, call.address, from, until) + if Allows(before, call) then 1 else 0
  {
    assert (before + [call])[..|before|] == before;
  }

  lemma {:induction false} AppendedCalls(history: seq<Call>, address: Address, now: int, n: nat, from: int, until: int)
    requires n <= UNSIGNED_PER_MINUTE && from <= now < until
    requires address !in Callers(history, Minute(now)) && |Callers(history, Minute(now))| < MAX_TRACKED
    ensures var all := history + Burst(address, now, n);
      && Granted(all, address, from, until) == Granted(history, address, from, until) + n
      && Calls(all, address, Minute(now)) == n
      && Callers(all, Minute(now)) == Callers(history, Minute(now)) + (if n == 0 then {} else {address})
      && (n > 0 ==> Admitted(all, address, Minute(now)))
  {
    hide Minute, Callers, Calls, Admitted, Granted;
    CalledIffCounted(history, address, Minute(now));
    if n == 0 {
      assert history + [] == history;
    } else {
      AppendedCalls(history, address, now, n - 1, from, until);
      var before, call := history + Burst(address, now, n - 1), Call(address, now);
      assert history + Burst(address, now, n) == before + [call];
      Adds(before, call);
      GrantedAppend(before, call, from, until);
      assert Allows(before, call);
    }
  }

  /** Forty is reached: twenty calls in the last second of a minute and twenty in the next one. */
  lemma FortyIsReached(address: Address)
    ensures Granted(Burst(address, 59, 20) + Burst(address, 60, 20), address, 1, 61) == 40
  {
    var first := Burst(address, 59, 20);
    AppendedCalls([], address, 59, 20, 1, 61);
    assert [] + first == first;
    OneMinuteOnly(address, 59, 20, 1);
    AppendedCalls(first, address, 60, 20, 1, 61);
  }

  lemma {:induction false} OneMinuteOnly(address: Address, now: int, n: nat, minute: int)
    requires Minute(now) != minute
    ensures Callers(Burst(address, now, n), minute) == {}
  {
    if n > 0 {
      OneMinuteOnly(address, now, n - 1, minute);
      assert Burst(address, now, n)[..n - 1] == Burst(address, now, n - 1);
    }
  }
}
