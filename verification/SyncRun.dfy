/** Every interleaving of local changes and syncs: each act keeps what the devices know. */
module SyncRun {
  import opened Crypto
  import opened Vault
  import U = UnlockedVaults
  import opened Wire
  import opened Sync
  import opened SyncNow
  import opened SyncGuarantees
  import opened SyncWorld
  import Stores

  // ---- every step keeps it --------------------------------------------

  lemma TickKeeps(w: World, to: nat)
    requires Inv(w) && to >= w.clock
    ensures Inv(w.(clock := to))
  {
    forall d | d in w.devices ensures DeviceInv(w.key, w.account, to, w.devices[d]) {
      assert DeviceInv(w.key, w.account, w.clock, w.devices[d]);
      forall id: Uuid ensures StampedBy(SlotOf(w.devices[d].data, id), to) {
        assert StampedBy(SlotOf(w.devices[d].data, id), w.clock);
      }
    }
    forall id: Uuid | Canonical(id) in w.account.rows
      ensures RowStampedBy(w.key, id, w.account.rows[Canonical(id)], to)
    {
      assert RowStampedBy(w.key, id, w.account.rows[Canonical(id)], w.clock);
    }
  }

  /** Nothing under any id depends on the sync state. */
  lemma FinishedSlots(data: VaultData, revision: int, now: nat)
    ensures forall id: Uuid :: SlotOf(Finished(data, revision, now), id) == SlotOf(data, id)
    ensures Consistent(data) ==> Consistent(Finished(data, revision, now))
  {
    forall id: Uuid ensures SlotOf(Finished(data, revision, now), id) == SlotOf(data, id) {
    }
    if Consistent(data) {
      forall id: Uuid ensures Held(Finished(data, revision, now), id).None?
          || Buried(Finished(data, revision, now), id).None? {
        assert Held(data, id).None? || Buried(data, id).None?;
      }
    }
  }

  /** The device has what every row says. */
  ghost predicate AgreesWithServer(w: World, device: nat) {
    && device in w.devices
    && forall id: Uuid :: Canonical(id) in w.account.rows ==>
         Matches(w.key, id, w.account.rows[Canonical(id)], SlotOf(w.devices[device].data, id))
  }

  /** The step ends a successful sync of `device`. */
  ghost predicate Completes(w: World, act: Act, device: nat)
    requires Enabled(w, act)
  {
    || (act.Pull? && act.device == device && Do(w, act).devices[device].phase == Idle)
    || (act.Push? && act.device == device && w.account.revision == w.devices[device].phase.expected)
  }

  lemma EmptyPushMeansUnchanged(key: Key, data: VaultData, since: nat)
    requires Consistent(data) && Outgoing(key, data, since) == []
    ensures forall id: Uuid :: !Changed(SlotOf(data, id), since)
  {
    OutgoingExactly(key, data, since);
  }

  /** The device half of a pull keeps what the device knows, and a sync that has nothing to push ends
      with every row matched. */
  lemma AfterPullKeeps(w: World, data: VaultData, page: seq<SyncItem>, ids: seq<Uuid>)
    requires data.sync.Some? && |page| <= |ids| && data.sync.value.lastRevision <= w.account.revision
    requires data.sync.value.lastSyncedAt <= w.clock
    requires var applied := Pulled(w.key, data, Page(w.account.revision, page), w.clock, ids).data;
      var since := data.sync.value.lastSyncedAt;
      && Consistent(applied) && applied.sync == data.sync
      && (forall id: Uuid :: StampedBy(SlotOf(applied, id), w.clock))
      && Known(w.key, w.account, applied, w.account.revision, since)
      && Known(w.key, w.account, applied, data.sync.value.lastRevision, since)
    requires Stores.WellFormed(w.account)
    ensures var after := AfterPull(w, data, page, ids);
      && DeviceInv(w.key, w.account, w.clock, after)
      && (after.phase == Idle ==> forall id: Uuid :: Canonical(id) in w.account.rows ==>
            Matches(w.key, id, w.account.rows[Canonical(id)], SlotOf(after.data, id)))
  {
    hide Pulled, SlotOf, StampedBy, Matches, Outgoing, SlotRecord;
    var since := data.sync.value.lastSyncedAt;
    var applied := Pulled(w.key, data, Page(w.account.revision, page), w.clock, ids).data;
    FinishedSlots(applied, w.account.revision, w.clock);
    if Outgoing(w.key, applied, since) == [] {
      EmptyPushMeansUnchanged(w.key, applied, since);
    }
  }

  lemma PullKeeps(w: World, device: nat, page: seq<SyncItem>, ids: seq<Uuid>)
    requires Inv(w) && MayPull(w, device, page, ids)
    ensures Inv(Do(w, Pull(device, page, ids)))
    ensures Completes(w, Pull(device, page, ids), device) ==> AgreesWithServer(Do(w, Pull(device, page, ids)), device)
  {
    var data := w.devices[device].data;
    assert DeviceInv(w.key, w.account, w.clock, w.devices[device]);
    PullMatches(w, device, page, ids);
    hide Pulled, SlotOf, StampedBy, Matches, Known, Ready, RoomForUnsent, FreshIds, Stores.IsDelta, AfterPull;
    AfterPullKeeps(w, data, page, ids);
  }

  lemma PushKeeps(w: World, device: nat)
    requires Inv(w) && Enabled(w, Push(device))
    ensures Inv(Do(w, Push(device)))
    ensures Completes(w, Push(device), device) ==> AgreesWithServer(Do(w, Push(device)), device)
  {
    var dev, next := w.devices[device], Do(w, Push(device));
    assert DeviceInv(w.key, w.account, w.clock, dev);
    if w.account.revision == dev.phase.expected {
      PushMatches(w.key, w.account, dev.data, dev.data.sync.value.lastSyncedAt, w.clock);
      FinishedSlots(dev.data, next.account.revision, w.clock);
      forall d | d in next.devices && d != device ensures DeviceInv(w.key, next.account, w.clock, next.devices[d]) {
        PushLeavesOthers(w.key, w.account, dev.phase.records, w.clock, w.devices[d]);
      }
    }
  }

  lemma PushFailsKeeps(w: World, device: nat, arrived: bool)
    requires Inv(w) && Enabled(w, PushFails(device, arrived))
    ensures Inv(Do(w, PushFails(device, arrived)))
  {
    var dev, next := w.devices[device], Do(w, PushFails(device, arrived));
    assert DeviceInv(w.key, w.account, w.clock, dev);
    if arrived && w.account.revision == dev.phase.expected {
      PushMatches(w.key, w.account, dev.data, dev.data.sync.value.lastSyncedAt, w.clock);
      forall d | d in next.devices ensures DeviceInv(w.key, next.account, w.clock, next.devices[d]) {
        PushLeavesOthers(w.key, w.account, dev.phase.records, w.clock,
            w.devices[d].(phase := if d == device then Idle else w.devices[d].phase));
      }
    }
  }

  lemma ReopenKeeps(w: World, device: nat)
    requires Inv(w) && Enabled(w, Reopen(device))
    ensures Inv(Do(w, Reopen(device)))
  {
    var dev := w.devices[device];
    assert DeviceInv(w.key, w.account, w.clock, dev);
    ReopenedFades(dev.data, w.clock);
    FadingKeeps(w.key, w.account, w.clock, dev, U.Reopened(dev.data, w.clock));
  }

  /** A purge takes rows away and changes none. */
  lemma PurgeKeeps(w: World, before: int)
    requires Inv(w)
    ensures Inv(Do(w, Purge(before)))
  {
    var next := Do(w, Purge(before));
    forall id | id in next.account.rows
      ensures id in w.account.rows && next.account.rows[id] == w.account.rows[id]
    {
    }
    forall id: Uuid | Canonical(id) in next.account.rows
      ensures RowStampedBy(w.key, id, next.account.rows[Canonical(id)], w.clock)
    {
      assert RowStampedBy(w.key, id, w.account.rows[Canonical(id)], w.clock);
    }
    forall d | d in next.devices ensures DeviceInv(w.key, next.account, w.clock, next.devices[d]) {
      assert DeviceInv(w.key, w.account, w.clock, w.devices[d]);
    }
  }

  lemma StepKeeps(w: World, act: Act)
    requires Inv(w) && Enabled(w, act)
    ensures Inv(Do(w, act))
    ensures forall d: nat :: Completes(w, act, d) ==> AgreesWithServer(Do(w, act), d)
  {
    match act
    case Tick(to) => TickKeeps(w, to);
    case AddItem(_, _) => LocalActKeeps(w, act);
    case EditItem(_, _) => LocalActKeeps(w, act);
    case DeleteItem(_, _) => LocalActKeeps(w, act);
    case Pull(d, page, ids) => PullKeeps(w, d, page, ids);
    case Push(d) => PushKeeps(w, d);
    case PushFails(d, arrived) => PushFailsKeeps(w, d, arrived);
    case Reopen(d) => ReopenKeeps(w, d);
    case Purge(before) => PurgeKeeps(w, before);
  }

  // ---- whole runs -----------------------------------------------------

  /** A new account, and devices holding whatever they held before they were enrolled. */
  ghost predicate Start(w: World) {
    && w.account == Stores.NEW_ACCOUNT
    && forall d :: d in w.devices ==>
         && w.devices[d].phase == Idle && Consistent(w.devices[d].data)
         && w.devices[d].data.sync == Some(SyncState(0, 0))
         && forall id: Uuid :: StampedBy(SlotOf(w.devices[d].data, id), w.clock)
  }

  ghost predicate IsRun(run: seq<World>, acts: seq<Act>) {
    && |run| == |acts| + 1 && Start(run[0])
    && forall i :: 0 <= i < |acts| ==> Enabled(run[i], acts[i]) && run[i + 1] == Do(run[i], acts[i])
  }

  lemma {:induction false} RunKeeps(run: seq<World>, acts: seq<Act>, i: nat)
    requires IsRun(run, acts) && i <= |acts|
    ensures Inv(run[i])
  {
    if i == 0 {
      assert Stores.WellFormed(run[0].account);
    } else {
      RunKeeps(run, acts, i - 1);
      StepKeeps(run[i - 1], acts[i - 1]);
    }
  }

  /** Agreement.  In every run, right after any device's successful sync it agrees with the server on
      every id the server stores: the item that record seals, or no item for a deleted one. */
  lemma Agreement(run: seq<World>, acts: seq<Act>, i: nat, device: nat)
    requires IsRun(run, acts) && i < |acts| && Completes(run[i], acts[i], device)
    ensures AgreesWithServer(run[i + 1], device)
  {
    RunKeeps(run, acts, i);
    StepKeeps(run[i], acts[i]);
  }
}
