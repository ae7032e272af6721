/** What syncing does not promise: inputs its guarantees leave out, and what then happens. */
module SyncLimits {
  import opened Crypto
  import opened Vault
  import opened Wire
  import opened Sync
  import opened SyncNow
  import opened SyncGuarantees
  import opened SyncWorld
  import opened SyncRun
  import opened Convergence
  import opened Sequences
  import Stores

  // ---- an answer that is lost -----------------------------------------

  /** In a page naming each id once, the copy made beside an item held here is still there at the end. */
  lemma {:induction false} CopyStands(key: Key, st: Applied, page: seq<SyncItem>, since: nat, now: nat,
                                      ids: seq<Uuid>, i: nat, k: nat)
    requires Ready(key, st.data, page, ids) && i < k <= |page| && page[i].id.Canonical?
    requires forall a, b :: 0 <= a < b < |page| ==> page[a].id != page[b].id
    requires Held(st.data, page[i].id.id).Some?
    ensures SlotOf(Upto(key, st, page, since, now, ids, k), ids[i]).item
            == CopyMade(key, page[i], page[i].id.id, SlotOf(st.data, page[i].id.id), since, ids[i])
  {
    hide ApplyPage, Upto, SlotOf, Ready, CopyMade;
    ReadyDraws(key, st.data, page, ids);
    if k == i + 1 {
      CopyComes(key, st, page, since, now, ids, i);
    } else {
      CopyStands(key, st, page, since, now, ids, i, k - 1);
      PageStep(key, st, page, since, now, ids, k - 1);
      DrawnIsNew(key, st.data, page, ids, i);
      DrawnApart(key, st.data, page, ids, i, k - 1);
    }
  }

  lemma CopyComes(key: Key, st: Applied, page: seq<SyncItem>, since: nat, now: nat, ids: seq<Uuid>, i: nat)
    requires Ready(key, st.data, page, ids) && i < |page| && page[i].id.Canonical?
    requires forall a, b :: 0 <= a < b < |page| ==> page[a].id != page[b].id
    requires Held(st.data, page[i].id.id).Some?
    ensures SlotOf(Upto(key, st, page, since, now, ids, i + 1), ids[i]).item
            == CopyMade(key, page[i], page[i].id.id, SlotOf(st.data, page[i].id.id), since, ids[i])
  {
    var id, slot := page[i].id.id, SlotOf(st.data, page[i].id.id);
    assert slot.item.Some?;
    hide ApplyPage, Upto, SlotOf, Ready, FreshIds, GenuinePage;
    PageStep(key, st, page, since, now, ids, i);
    PagePrefix(key, st, page, since, now, ids, i);
    forall j | 0 <= j < i ensures page[j].id != Canonical(id) && ids[j] != id {
      DrawnIsNew(key, st.data, page, ids, j);
    }
    assert Thins(slot, SlotOf(Upto(key, st, page, since, now, ids, i), id));
  }

  lemma DrawnApart(key: Key, data: VaultData, page: seq<SyncItem>, ids: seq<Uuid>, i: nat, j: nat)
    requires Ready(key, data, page, ids) && i < j < |page|
    ensures |page| <= |ids| && ids[i] != ids[j]
  {
  }

  /** Both versions of one item are held under two ids, the second as another machine's, and go out. */
  ghost predicate Doubled(key: Key, dev: Device, mine: Item, copyId: Uuid) {
    && copyId != mine.id
    && Held(dev.data, mine.id) == Some(mine) && Held(dev.data, copyId).Some?
    && BesideAs(mine, Held(dev.data, copyId).value, copyId, " (other machine)")
    && dev.phase.Pushing? && ItemRecord(key, Held(dev.data, copyId).value) in dev.phase.records
  }

  /** The server holds, above the last revision known here, what is held here and counted as changed. */
  predicate CountsAsChanged(key: Key, account: Stores.Account, data: VaultData, id: Uuid) {
    && Held(data, id).Some? && data.sync.Some? && Held(data, id).value.updatedAt > data.sync.value.lastSyncedAt
    && Canonical(id) in account.rows && !account.rows[Canonical(id)].deleted
    && account.rows[Canonical(id)].revision > data.sync.value.lastRevision
    && Matches(key, id, account.rows[Canonical(id)], SlotOf(data, id))
  }

  /** The page holds the item's record, and the device has it twice now. */
  ghost predicate CameBackDoubled(key: Key, dev: Device, page: seq<SyncItem>, ids: seq<Uuid>, mine: Item) {
    exists i :: 0 <= i < |page| && i < |ids| && page[i].id == Canonical(mine.id) && Doubled(key, dev, mine, ids[i])
  }

  /** A device meeting its own item on the server, while it still counts it as changed, takes it for
      another machine's and makes a copy. */
  lemma OwnItemIsDoubled(w: World, device: nat, page: seq<SyncItem>, ids: seq<Uuid>, id: Uuid)
    requires Inv(w) && MayPull(w, device, page, ids)
    requires CountsAsChanged(w.key, w.account, w.devices[device].data, id)
    ensures var mine := Held(w.devices[device].data, id).value;
            && Enabled(w, Pull(device, page, ids)) && mine.id == id
            && CameBackDoubled(w.key, Do(w, Pull(device, page, ids)).devices[device], page, ids, mine)
  {
    hide *;
    PullGives(w, device, page, ids);
    PullReady(w, device, page, ids);
    var i := ListedMeetsItself(w, device, page, ids, id);
    DoubledAt(w, w.devices[device].data, page, ids, id, i);
  }

  lemma PullGives(w: World, device: nat, page: seq<SyncItem>, ids: seq<Uuid>)
    requires MayPull(w, device, page, ids)
    ensures Enabled(w, Pull(device, page, ids)) && device in w.devices && w.devices[device].data.sync.Some?
    ensures |page| <= |ids| && device in Do(w, Pull(device, page, ids)).devices
    ensures Do(w, Pull(device, page, ids)).devices[device] == AfterPull(w, w.devices[device].data, page, ids)
  {
  }

  lemma PullReady(w: World, device: nat, page: seq<SyncItem>, ids: seq<Uuid>)
    requires Inv(w) && MayPull(w, device, page, ids)
    ensures var data := w.devices[device].data;
            && Ready(w.key, data, page, ids)
            && Consistent(Pulled(w.key, data, Page(w.account.revision, page), w.clock, ids).data)
  {
    PullMatches(w, device, page, ids);
  }

  lemma DoubledAt(w: World, data: VaultData, page: seq<SyncItem>, ids: seq<Uuid>, id: Uuid, i: nat)
    requires CountsAsChanged(w.key, w.account, data, id) && data.sync.Some?
    requires Ready(w.key, data, page, ids) && i < |page| && page[i].id == Canonical(id)
    requires forall a, b :: 0 <= a < b < |page| ==> page[a].id != page[b].id
    requires |page| <= |ids| && KeepsBoth(w.key, page[i], data, id, data.sync.value.lastSyncedAt, w.clock, ids[i])
    requires Consistent(Pulled(w.key, data, Page(w.account.revision, page), w.clock, ids).data)
    ensures Held(data, id).Some? && Held(data, id).value.id == id
    ensures CameBackDoubled(w.key, AfterPull(w, data, page, ids), page, ids, Held(data, id).value)
  {
    var since, mine := data.sync.value.lastSyncedAt, Held(data, id).value;
    hide Pulled, AfterPull, Ready, Settled, CopyMade, Doubled, Matches;
    var applied := Pulled(w.key, data, Page(w.account.revision, page), w.clock, ids).data;
    OneCopyBeside(w.key, data, w.account.revision, page, since, w.clock, ids, i);
    CopyGoesOut(w, data, page, ids, applied, mine, ids[i]);
  }

  lemma ListedMeetsItself(w: World, device: nat, page: seq<SyncItem>, ids: seq<Uuid>, id: Uuid) returns (i: nat)
    requires Inv(w) && MayPull(w, device, page, ids)
    requires CountsAsChanged(w.key, w.account, w.devices[device].data, id)
    ensures i < |page| <= |ids| && page[i].id == Canonical(id)
    ensures forall a, b :: 0 <= a < b < |page| ==> page[a].id != page[b].id
    ensures var data := w.devices[device].data;
            KeepsBoth(w.key, page[i], data, id, data.sync.value.lastSyncedAt, w.clock, ids[i])
  {
    var data, row := w.devices[device].data, w.account.rows[Canonical(id)];
    assert DeviceInv(w.key, w.account, w.clock, w.devices[device]) && RowGood(w.key, Canonical(id), row);
    i :| 0 <= i < |page| && page[i].id == Canonical(id);
    hide Inv, DeviceInv, RowGood, Matches, SlotOf, RoomForUnsent;
    MeetsItself(w.key, data, id, row, data.sync.value.lastSyncedAt, w.clock, ids[i]);
  }

  lemma OneCopyBeside(key: Key, data: VaultData, revision: int, page: seq<SyncItem>, since: nat, now: nat,
                      ids: seq<Uuid>, i: nat)
    requires Ready(key, data, page, ids) && data.sync.Some? && data.sync.value.lastSyncedAt == since && i < |page|
    requires page[i].id.Canonical? && Held(data, page[i].id.id).Some?
    requires forall a, b :: 0 <= a < b < |page| ==> page[a].id != page[b].id
    requires Settled(key, page[i], page[i].id.id, SlotOf(data, page[i].id.id), since, now)
             == SlotOf(data, page[i].id.id)
    ensures |page| <= |ids| && ids[i] != page[i].id.id
    ensures var applied := Pulled(key, data, Page(revision, page), now, ids).data;
            && Held(applied, page[i].id.id) == Held(data, page[i].id.id)
            && Held(applied, ids[i])
               == CopyMade(key, page[i], page[i].id.id, SlotOf(data, page[i].id.id), since, ids[i])
  {
    var st, id := Applied(data, EMPTY_REPORT.(revision := revision)), page[i].id.id;
    var applied := Upto(key, st, page, since, now, ids, |page|);
    TakeAll(page);
    DrawnIsNew(key, data, page, ids, i);
    hide ApplyPage, Settled, CopyMade, Ready;
    CopyStands(key, st, page, since, now, ids, i, |page|);
    PageDecides(key, st, page, since, now, ids, i, |page|);
    assert Held(applied, id) == SlotOf(applied, id).item && Held(applied, ids[i]) == SlotOf(applied, ids[i]).item;
  }

  /** The decision keeps what is held under its id and puts the same beside it as another machine's. */
  ghost predicate KeepsBoth(key: Key, record: SyncItem, data: VaultData, id: Uuid, since: nat, now: nat,
                            copyId: Uuid) {
    && Held(data, id).Some? && Held(data, id).value.id == id
    && Settled(key, record, id, SlotOf(data, id), since, now) == SlotOf(data, id)
    && CopyMade(key, record, id, SlotOf(data, id), since, copyId) == Some(TheirCopy(Held(data, id).value, copyId))
  }

  /** What the decision makes of an item's own record: a conflict at equal stamps. */
  lemma MeetsItself(key: Key, data: VaultData, id: Uuid, row: Stores.Row, since: nat, now: nat, copyId: Uuid)
    requires Consistent(data) && RowGood(key, Canonical(id), row) && !row.deleted
    requires Held(data, id).Some? && Held(data, id).value.updatedAt > since
    requires Matches(key, id, row, SlotOf(data, id))
    ensures KeepsBoth(key, Stores.RecordOf(Canonical(id), row), data, id, since, now, copyId)
  {
  }

  lemma CopyGoesOut(w: World, data: VaultData, page: seq<SyncItem>, ids: seq<Uuid>, applied: VaultData, mine: Item,
                    copyId: Uuid)
    requires data.sync.Some? && |page| <= |ids| && copyId != mine.id
    requires applied == Pulled(w.key, data, Page(w.account.revision, page), w.clock, ids).data
    requires Consistent(applied) && mine.updatedAt > data.sync.value.lastSyncedAt
    requires Held(applied, mine.id) == Some(mine) && Held(applied, copyId) == Some(TheirCopy(mine, copyId))
    ensures Doubled(w.key, AfterPull(w, data, page, ids), mine, copyId)
  {
    OutgoingExactly(w.key, applied, data.sync.value.lastSyncedAt);
    assert Changed(SlotOf(applied, copyId), data.sync.value.lastSyncedAt);
    assert SlotRecord(w.key, SlotOf(applied, copyId)) == ItemRecord(w.key, TheirCopy(mine, copyId));
    CopiesKeepContent(mine, copyId);
  }

  /** An answer lost.  When a push was accepted and the answer never came, the device's next sync doubles
      every item the push carried. */
  lemma LostAnswerDoubles(w: World, device: nat, later: nat, page: seq<SyncItem>, ids: seq<Uuid>, id: Uuid)
    requires Inv(w) && Enabled(w, PushFails(device, true)) && later >= w.clock
    requires w.account.revision == w.devices[device].phase.expected
    requires MayPull(Do(w, PushFails(device, true)).(clock := later), device, page, ids)
    requires var data := w.devices[device].data;
             Held(data, id).Some? && Held(data, id).value.updatedAt > data.sync.value.lastSyncedAt
    ensures var next := Do(w, PushFails(device, true)).(clock := later);
            && Enabled(next, Pull(device, page, ids))
            && CameBackDoubled(w.key, Do(next, Pull(device, page, ids)).devices[device], page, ids,
                               Held(w.devices[device].data, id).value)
  {
    var next := Do(w, PushFails(device, true)).(clock := later);
    LostAnswerCounts(w, device, later, id);
    assert next.devices[device].data == w.devices[device].data && next.key == w.key;
    hide Inv, MayPull, CountsAsChanged, CameBackDoubled;
    OwnItemIsDoubled(next, device, page, ids, id);
  }

  lemma LostAnswerCounts(w: World, device: nat, later: nat, id: Uuid)
    requires Inv(w) && Enabled(w, PushFails(device, true)) && later >= w.clock
    requires w.account.revision == w.devices[device].phase.expected
    requires var data := w.devices[device].data;
             Held(data, id).Some? && Held(data, id).value.updatedAt > data.sync.value.lastSyncedAt
    ensures var next := Do(w, PushFails(device, true)).(clock := later);
            Inv(next) && CountsAsChanged(w.key, next.account, w.devices[device].data, id)
  {
    var dev, lost := w.devices[device], Do(w, PushFails(device, true));
    var since := dev.data.sync.value.lastSyncedAt;
    assert DeviceInv(w.key, w.account, w.clock, dev);
    PushFailsKeeps(w, device, true);
    TickKeeps(lost, later);
    assert Changed(SlotOf(dev.data, id), since) && StampedBy(SlotOf(dev.data, id), w.clock);
    PushedRow(w.key, w.account, dev.data, since, w.clock, Canonical(id));
    RowOfSlot(w.key, dev.data, id, since, w.account.revision + 1, w.clock);
  }

  // ---- an edit in the second of the sync ------------------------------

  /** The device knows every revision and has nothing to push, yet holds something else under `id`. */
  ghost predicate Overlooked(w: World, device: nat, id: Uuid) {
    && device in w.devices && w.devices[device].phase == Idle && Stores.WellFormed(w.account)
    && var data := w.devices[device].data;
    && Consistent(data) && Quiet(data) && data.sync.value.lastRevision == w.account.revision
    && data.sync.value.lastSyncedAt <= w.clock
    && Canonical(id) in w.account.rows && !Matches(w.key, id, w.account.rows[Canonical(id)], SlotOf(data, id))
  }

  /** Its next sync completes, sends nothing, and leaves it so. */
  lemma OverlookedStays(w: World, device: nat, id: Uuid, later: nat)
    requires Overlooked(w, device, id) && later >= w.clock
    ensures var next := w.(clock := later);
            && MayPull(next, device, [], [])
            && Completes(next, Pull(device, [], []), device)
            && Do(next, Pull(device, [], [])).account == w.account
            && Overlooked(Do(next, Pull(device, [], [])), device, id)
            && !AgreesWithServer(Do(next, Pull(device, [], [])), device)
  {
    var next, data := w.(clock := later), w.devices[device].data;
    var since := data.sync.value.lastSyncedAt;
    NothingNew(w.account);
    assert MayPull(next, device, [], []);
    NothingToSend(w.key, data, since);
    FinishedSlots(data, w.account.revision, later);
    assert Do(next, Pull(device, [], [])).devices[device] == Device(Finished(data, w.account.revision, later), Idle);
    forall other: Uuid ensures !Changed(SlotOf(data, other), later) {
      assert !Changed(SlotOf(data, other), since);
    }
  }

  lemma NothingNew(account: Stores.Account)
    requires Stores.WellFormed(account)
    ensures Stores.IsDelta(account.rows, account.revision, [])
  {
  }

  lemma NothingToSend(key: Key, data: VaultData, since: nat)
    requires Consistent(data) && forall id: Uuid :: !Changed(SlotOf(data, id), since)
    ensures Outgoing(key, data, since) == []
  {
    if Outgoing(key, data, since) != [] {
      SentIsChanged(key, data, since);
    }
  }

  lemma SentIsChanged(key: Key, data: VaultData, since: nat)
    requires Consistent(data) && Outgoing(key, data, since) != []
    ensures exists id: Uuid :: Changed(SlotOf(data, id), since)
  {
    OutgoingExactly(key, data, since);
    var first := Outgoing(key, data, since)[0];
    assert Changed(SlotOf(data, first.id.id), since);
  }

  /** An edit overlooked.  In every run, an edit stamped with the very second in which a sync completed is
      never pushed: every later sync completes without it and the device stays at odds with the server. */
  lemma SameSecondEditIsOverlooked(run: seq<World>, acts: seq<Act>, i: nat, device: nat, item: Item)
    requires IsRun(run, acts) && i < |acts| && Completes(run[i], acts[i], device)
    requires var data := run[i + 1].devices[device].data;
             && Held(data, item.id).Some? && Held(data, item.id) != Some(item) && item.updatedAt == run[i + 1].clock
             && Canonical(item.id) in run[i + 1].account.rows
    ensures var w := run[i + 1];
            Overlooked(WithData(w, device, Edited(w.devices[device].data, item)), device, item.id)
  {
    var w := run[i + 1];
    RunKeeps(run, acts, i);
    RunKeeps(run, acts, i + 1);
    Agreement(run, acts, i, device);
    CompletedNow(run[i], acts[i], device);
    hide IsRun, Completes;
    assert DeviceInv(w.key, w.account, w.clock, w.devices[device]);
    EditOverlooked(w, device, item);
  }

  lemma EditOverlooked(w: World, device: nat, item: Item)
    requires device in w.devices && w.devices[device].phase == Idle && Stores.WellFormed(w.account)
    requires var data := w.devices[device].data;
             && Consistent(data) && data.sync == Some(SyncState(w.account.revision, w.clock))
             && (forall id: Uuid :: StampedBy(SlotOf(data, id), w.clock))
             && Held(data, item.id).Some? && Held(data, item.id) != Some(item) && item.updatedAt == w.clock
             && Canonical(item.id) in w.account.rows
             && Matches(w.key, item.id, w.account.rows[Canonical(item.id)], SlotOf(data, item.id))
    ensures Overlooked(WithData(w, device, Edited(w.devices[device].data, item)), device, item.id)
  {
    var data := w.devices[device].data;
    var edited := Edited(data, item);
    EditedEffect(data, item);
    assert SlotOf(data, item.id).item == Held(data, item.id);
    hide SlotOf, Edited, Consistent;
    forall id: Uuid ensures !Changed(SlotOf(edited, id), w.clock) {
      assert StampedBy(SlotOf(data, id), w.clock);
    }
  }

  /** A sync that completes leaves the device idle, at the server's revision and at this second. */
  lemma CompletedNow(w: World, act: Act, device: nat)
    requires Inv(w) && Enabled(w, act) && Completes(w, act, device)
    ensures var next := Do(w, act);
            && device in next.devices && next.devices[device].phase == Idle
            && next.devices[device].data.sync == Some(SyncState(next.account.revision, next.clock))
  {
  }

  // ---- a run that overlooks one ---------------------------------------

  /** An account's only machine, at a fifth second. */
  function OneMachine(key: Key, items: seq<Item>): World {
    World(key, Stores.NEW_ACCOUNT, map[0 := Device(VaultData(items, [], [], Some(SyncState(0, 0))), Idle)], 5)
  }

  /** It adds an item and syncs. */
  function FirstSync(item: Item): seq<Act> {
    [AddItem(0, item), Pull(0, [], []), Push(0)]
  }

  /** An input: the item is added, synced and edited in one second, and the server never hears of the
      edit. */
  lemma AnEditIsOverlooked(key: Key, item: Item, edit: Item) returns (run: seq<World>)
    requires item.updatedAt == 5 && edit.updatedAt == 5 && edit.id == item.id && edit != item
    ensures IsRun(run, FirstSync(item)) && Completes(run[2], Push(0), 0)
    ensures Overlooked(WithData(run[3], 0, Edited(run[3].devices[0].data, edit)), 0, item.id)
  {
    var start, added := OneMachine(key, []), OneMachine(key, [item]);
    var data := added.devices[0].data;
    StartsEmpty(key);
    AddsFirst(key, item);
    SendsFirst(key, data, item);
    var pulled := Do(added, Pull(0, [], []));
    assert pulled == added.(devices := map[0 := Device(data, Pushing(0, Outgoing(key, data, 0)))]);
    run := [start, added, pulled, Do(pulled, Push(0))];
    PushedRow(key, Stores.NEW_ACCOUNT, data, 0, 5, Canonical(item.id));
    SameSecondEditIsOverlooked(run, FirstSync(item), 2, 0, edit);
  }

  lemma StartsEmpty(key: Key)
    ensures Start(OneMachine(key, []))
  {
  }

  lemma AddsFirst(key: Key, item: Item)
    requires item.updatedAt == 5
    ensures Enabled(OneMachine(key, []), AddItem(0, item))
    ensures Do(OneMachine(key, []), AddItem(0, item)) == OneMachine(key, [item])
    ensures MayPull(OneMachine(key, [item]), 0, [], [])
  {
    var data := OneMachine(key, []).devices[0].data;
    assert Added(data, item) == OneMachine(key, [item]).devices[0].data;
    assert Do(OneMachine(key, []), AddItem(0, item)).devices == OneMachine(key, [item]).devices;
  }

  lemma SendsFirst(key: Key, data: VaultData, item: Item)
    requires data == VaultData([item], [], [], Some(SyncState(0, 0))) && item.updatedAt > 0
    ensures Consistent(data) && Held(data, item.id) == Some(item) && Outgoing(key, data, 0) != []
  {
    OneItemConsistent(data, item.id);
    OutgoingExactly(key, data, 0);
    assert Changed(SlotOf(data, item.id), 0);
  }
}
