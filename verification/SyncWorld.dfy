/** Many devices, one server, and what can happen to them one act at a time.

    A sync is two steps, because other devices may push between its pull and its push; its push may
    be refused, may never arrive, or may be accepted with the answer lost. */
module SyncWorld {
  import opened Crypto
  import opened Vault
  import opened UnlockedVaults
  import opened Wire
  import opened Sync
  import opened SyncNow
  import opened SyncGuarantees
  import opened Merge
  import opened Sequences
  import Stores

  datatype Phase = Idle | Pushing(expected: int, records: seq<SyncItem>)

  datatype Device = Device(data: VaultData, phase: Phase)

  datatype World = World(key: Key, account: Stores.Account, devices: map<nat, Device>, clock: nat)

  datatype Act =
    | Tick(to: nat)
    | AddItem(device: nat, item: Item)
    | EditItem(device: nat, item: Item)
    | DeleteItem(device: nat, id: Uuid)
    | Pull(device: nat, page: seq<SyncItem>, ids: seq<Uuid>)
    | Push(device: nat)
    | PushFails(device: nat, arrived: bool)
    | Reopen(device: nat)
    | Purge(before: int)

  function Edited(data: VaultData, item: Item): VaultData {
    data.(items := Replaced(data.items, item))
  }

  ghost predicate MayChange(w: World, device: nat) {
    && device in w.devices && w.devices[device].phase == Idle
    && w.devices[device].data.sync.Some?
    && w.clock > w.devices[device].data.sync.value.lastSyncedAt
  }

  /** A deletion made here that the server has not been told of. */
  predicate Unsent(slot: Slot, since: nat) {
    slot.item.None? && Changed(slot, since)
  }

  /** Every unsent deletion outlasts `extra` more; those already sent may be forgotten. */
  ghost predicate RoomForUnsent(data: VaultData, now: nat, extra: nat)
    requires data.sync.Some?
  {
    forall id: Uuid :: Unsent(SlotOf(data, id), data.sync.value.lastSyncedAt) ==> Lasts(data.tombstones, id, now, extra)
  }

  ghost predicate MayPull(w: World, device: nat, page: seq<SyncItem>, ids: seq<Uuid>) {
    && device in w.devices && w.devices[device].phase == Idle
    && var data := w.devices[device].data;
    && data.sync.Some?
    && Stores.IsDelta(w.account.rows, data.sync.value.lastRevision, page)
    && FreshIds(data, page, ids) && (forall i :: 0 <= i < |ids| ==> Canonical(ids[i]) !in w.account.rows)
    && RoomForUnsent(data, w.clock, Deletions(w.key, page))
  }

  ghost predicate Enabled(w: World, act: Act) {
    match act
    case Tick(to) => to >= w.clock
    case AddItem(device, item) =>
      MayChange(w, device) && item.updatedAt == w.clock && Held(w.devices[device].data, item.id).None?
    case EditItem(device, item) =>
      MayChange(w, device) && item.updatedAt == w.clock && Held(w.devices[device].data, item.id).Some?
    case DeleteItem(device, id) =>
      MayChange(w, device) && Held(w.devices[device].data, id).Some?
      && RoomForUnsent(w.devices[device].data, w.clock, 1)
    case Pull(device, page, ids) => MayPull(w, device, page, ids)
    case Push(device) => device in w.devices && w.devices[device].phase.Pushing? && w.devices[device].data.sync.Some?
    case PushFails(device, _) => device in w.devices && w.devices[device].phase.Pushing?
    case Reopen(device) =>
      && device in w.devices && w.devices[device].phase == Idle && w.devices[device].data.sync.Some?
      && Migrated(w.devices[device].data) == w.devices[device].data
      && RoomForUnsent(w.devices[device].data, w.clock, 0)
    case Purge(_) => true
  }

  function WithData(w: World, device: nat, data: VaultData): World
    requires device in w.devices
  {
    w.(devices := w.devices[device := w.devices[device].(data := data)])
  }

  /** The device half of a pull: apply the page, then either finish or go on to push. */
  function AfterPull(w: World, data: VaultData, page: seq<SyncItem>, ids: seq<Uuid>): Device
    requires data.sync.Some? && |page| <= |ids|
  {
    var applied := Pulled(w.key, data, Page(w.account.revision, page), w.clock, ids).data;
    var out := Outgoing(w.key, applied, data.sync.value.lastSyncedAt);
    if out == [] then Device(Finished(applied, w.account.revision, w.clock), Idle)
    else Device(applied, Pushing(w.account.revision, out))
  }

  ghost function Do(w: World, act: Act): World
    requires Enabled(w, act)
  {
    match act
    case Tick(to) => w.(clock := to)
    case AddItem(device, item) => WithData(w, device, Added(w.devices[device].data, item))
    case EditItem(device, item) => WithData(w, device, Edited(w.devices[device].data, item))
    case DeleteItem(device, id) => WithData(w, device, Removed(w.devices[device].data, id, w.clock))
    case Pull(device, page, ids) =>
      w.(devices := w.devices[device := AfterPull(w, w.devices[device].data, page, ids)])
    case Reopen(device) => WithData(w, device, Reopened(w.devices[device].data, w.clock))
    case Purge(before) => w.(account := Stores.WithoutOldTombstones(w.account, before))
    case Push(device) =>
      var dev := w.devices[device];
      if w.account.revision == dev.phase.expected then
        w.(account := Stores.AfterPush(w.account, dev.phase.expected, dev.phase.records, w.clock),
           devices := w.devices[device := Device(Finished(dev.data, dev.phase.expected + 1, w.clock), Idle)])
      else
        w.(devices := w.devices[device := dev.(phase := Idle)])
    case PushFails(device, arrived) =>
      var dev := w.devices[device];
      w.(account := if arrived then Stores.AfterPush(w.account, dev.phase.expected, dev.phase.records, w.clock)
          else w.account,
         devices := w.devices[device := dev.(phase := Idle)])
  }

  // ---- what is kept ---------------------------------------------------

  /** A row a client of this account wrote: a proven deletion, or an item under its own id. */
  predicate RowGood(key: Key, id: WireId, row: Stores.Row) {
    && id.Canonical?
    && var record := Stores.RecordOf(id, row);
    if row.deleted then ProvenDeletion(key, id.id, record).Some?
    else
      var item := DecodeItem(key, id.id, record);
      item.Some? && item.value.id == id.id
  }

  /** The device has what the row says: that item, or no item. */
  predicate Matches(key: Key, id: Uuid, row: Stores.Row, slot: Slot) {
    if row.deleted then slot.item.None?
    else slot.item == DecodeItem(key, id, Stores.RecordOf(Canonical(id), row))
  }

  predicate StampedBy(slot: Slot, clock: nat) {
    && (slot.item.Some? ==> slot.item.value.updatedAt <= clock)
    && (slot.grave.Some? ==> slot.grave.value.deletedAt <= clock)
  }

  predicate RowStampedBy(key: Key, id: Uuid, row: Stores.Row, clock: nat) {
    var item := DecodeItem(key, id, Stores.RecordOf(Canonical(id), row));
    item.Some? ==> item.value.updatedAt <= clock
  }

  ghost predicate ServerInv(key: Key, account: Stores.Account, clock: nat) {
    && Stores.WellFormed(account)
    && forall id: Uuid :: Canonical(id) in account.rows ==> RowStampedBy(key, id, account.rows[Canonical(id)], clock)
  }

  ghost predicate RowsGood(key: Key, account: Stores.Account) {
    forall id :: id in account.rows ==> RowGood(key, id, account.rows[id])
  }

  /** Every row up to `revision` is matched here or was changed here since the last sync. */
  ghost predicate Known(key: Key, account: Stores.Account, data: VaultData, revision: int, since: nat) {
    forall id: Uuid :: Canonical(id) in account.rows && account.rows[Canonical(id)].revision <= revision ==>
      Matches(key, id, account.rows[Canonical(id)], SlotOf(data, id)) || Changed(SlotOf(data, id), since)
  }

  ghost predicate DeviceInv(key: Key, account: Stores.Account, clock: nat, dev: Device) {
    && Consistent(dev.data) && dev.data.sync.Some?
    && var sync := dev.data.sync.value;
    && sync.lastRevision <= account.revision && sync.lastSyncedAt <= clock
    && (forall id: Uuid :: StampedBy(SlotOf(dev.data, id), clock))
    && Known(key, account, dev.data, sync.lastRevision, sync.lastSyncedAt)
    && (dev.phase.Pushing? ==>
          && dev.phase.expected <= account.revision
          && dev.phase.records == Outgoing(key, dev.data, sync.lastSyncedAt)
          && (dev.phase.expected == account.revision ==>
              Known(key, account, dev.data, account.revision, sync.lastSyncedAt)))
  }

  ghost predicate Inv(w: World) {
    && ServerInv(w.key, w.account, w.clock) && RowsGood(w.key, w.account)
    && forall d :: d in w.devices ==> DeviceInv(w.key, w.account, w.clock, w.devices[d])
  }

  // ---- a pull ---------------------------------------------------------

  /** At most a deletion the server has been told of is forgotten. */
  predicate Fades(was: Slot, after: Slot, since: nat) {
    Thins(was, after) && (Unsent(was, since) ==> after == was)
  }

  /** A good row leaves its id matching, unless it was changed here. */
  lemma SettledMatches(key: Key, row: Stores.Row, id: Uuid, slot: Slot, since: nat, now: nat)
    requires RowGood(key, Canonical(id), row)
    ensures var after := Settled(key, Stores.RecordOf(Canonical(id), row), id, slot, since, now);
            || Matches(key, id, row, after)
            || (after.item.Some? && Changed(after, since))
            || Unsent(slot, since)
  {
  }

  /** Forgetting a deletion the server knows of does not change what a record leaves, but for that. */
  lemma SettledThins(key: Key, record: SyncItem, id: Uuid, slot: Slot, thinner: Slot, since: nat, now: nat)
    requires Thins(slot, thinner) && !Unsent(slot, since)
    ensures Thins(Settled(key, record, id, slot, since, now), Settled(key, record, id, thinner, since, now))
  {
  }

  /** An id the page neither names nor draws fades at most. */
  lemma PageFades(key: Key, st: Applied, page: seq<SyncItem>, since: nat, now: nat, ids: seq<Uuid>, k: nat, id: Uuid)
    requires Ready(key, st.data, page, ids) && k <= |page|
    requires Unsent(SlotOf(st.data, id), since) ==> Lasts(st.data.tombstones, id, now, Deletions(key, page[..k]))
    requires forall j :: 0 <= j < k ==> page[j].id != Canonical(id) && ids[j] != id
    ensures Fades(SlotOf(st.data, id), SlotOf(Upto(key, st, page, since, now, ids, k), id), since)
  {
    hide ApplyPage, Upto, SlotOf, Changed, Lasts, Ready, Deletions;
    PagePrefix(key, st, page, since, now, ids, k);
    if Unsent(SlotOf(st.data, id), since) {
      DeletionStands(key, st, page, since, now, ids, id, k, 0);
    }
  }

  /** In a page naming each id once, the one record for an id decides it. */
  lemma {:induction false} PageDecides(key: Key, st: Applied, page: seq<SyncItem>, since: nat, now: nat,
                                       ids: seq<Uuid>, i: nat, k: nat)
    requires Ready(key, st.data, page, ids) && i < k <= |page| && page[i].id.Canonical?
    requires forall a, b :: 0 <= a < b < |page| ==> page[a].id != page[b].id
    requires !Unsent(SlotOf(st.data, page[i].id.id), since)
    ensures Thins(Settled(key, page[i], page[i].id.id, SlotOf(st.data, page[i].id.id), since, now),
                  SlotOf(Upto(key, st, page, since, now, ids, k), page[i].id.id))
  {
    hide ApplyPage, Upto, SlotOf, Settled, CopyMade, Changed, Unsent, Ready, FreshIds, GenuinePage;
    var id := page[i].id.id;
    DrawnIsNew(key, st.data, page, ids, i);
    PageStep(key, st, page, since, now, ids, k - 1);
    if k == i + 1 {
      PagePrefix(key, st, page, since, now, ids, i);
      forall j | 0 <= j < i ensures page[j].id != Canonical(id) && ids[j] != id {
        DrawnIsNew(key, st.data, page, ids, j);
      }
      SettledThins(key, page[i], id, SlotOf(st.data, id), SlotOf(Upto(key, st, page, since, now, ids, i), id), since,
          now);
    } else {
      PageDecides(key, st, page, since, now, ids, i, k - 1);
      DrawnIsNew(key, st.data, page, ids, k - 1);
    }
  }

  /** No record leaves a stamp later than the stamps it found, the one it carries, and now. */
  lemma StampStep(key: Key, record: SyncItem, id: Uuid, slot: Slot, since: nat, now: nat, copyId: Uuid)
    requires StampedBy(slot, now)
    requires DecodeItem(key, id, record).Some? ==> DecodeItem(key, id, record).value.updatedAt <= now
    ensures StampedBy(Settled(key, record, id, slot, since, now), now)
    ensures StampedBy(Slot(CopyMade(key, record, id, slot, since, copyId), None), now)
  {
  }

  lemma {:induction false} PageStamps(key: Key, st: Applied, page: seq<SyncItem>, since: nat, now: nat,
                                      ids: seq<Uuid>, k: nat)
    requires Ready(key, st.data, page, ids) && k <= |page|
    requires forall id: Uuid :: StampedBy(SlotOf(st.data, id), now)
    requires forall i :: 0 <= i < |page| && page[i].id.Canonical? ==>
               var item := DecodeItem(key, page[i].id.id, page[i]);
               item.Some? ==> item.value.updatedAt <= now
    ensures forall id: Uuid :: StampedBy(SlotOf(Upto(key, st, page, since, now, ids, k), id), now)
  {
    if k > 0 {
      PageStamps(key, st, page, since, now, ids, k - 1);
      PageStep(key, st, page, since, now, ids, k - 1);
      var was := Upto(key, st, page, since, now, ids, k - 1);
      var record := page[k - 1];
      if record.id.Canonical? {
        assert StampedBy(SlotOf(was, record.id.id), now);
        StampStep(key, record, record.id.id, SlotOf(was, record.id.id), since, now, ids[k - 1]);
        forall id: Uuid ensures StampedBy(SlotOf(Upto(key, st, page, since, now, ids, k), id), now) {
          assert StampedBy(SlotOf(was, id), now);
        }
      }
    }
  }

  /** What a page leaves of an id the server stores, up to a revision this machine knew or listed in the
      page. */
  lemma RowSettles(key: Key, rows: map<WireId, Stores.Row>, st: Applied, page: seq<SyncItem>, since: nat, now: nat,
                   ids: seq<Uuid>, id: Uuid)
    requires Ready(key, st.data, page, ids) && Canonical(id) in rows && RowGood(key, Canonical(id), rows[Canonical(id)])
    requires forall a, b :: 0 <= a < b < |page| ==> page[a].id != page[b].id
    requires forall i :: 0 <= i < |page| && page[i].id == Canonical(id) ==>
               page[i] == Stores.RecordOf(Canonical(id), rows[Canonical(id)])
    requires forall i :: 0 <= i < |page| ==> ids[i] != id
    requires Unsent(SlotOf(st.data, id), since) ==> Lasts(st.data.tombstones, id, now, Deletions(key, page))
    requires || (exists i :: 0 <= i < |page| && page[i].id == Canonical(id))
             || Matches(key, id, rows[Canonical(id)], SlotOf(st.data, id)) || Changed(SlotOf(st.data, id), since)
    ensures var after := SlotOf(Upto(key, st, page, since, now, ids, |page|), id);
            Matches(key, id, rows[Canonical(id)], after) || Changed(after, since)
  {
    hide ApplyPage, Upto, SlotOf, Settled, Ready, Lasts, RowGood, Deletions;
    TakeAll(page);
    var row, slot := rows[Canonical(id)], SlotOf(st.data, id);
    if Unsent(slot, since) {
      DeletionStands(key, st, page, since, now, ids, id, |page|, 0);
    } else if i :| 0 <= i < |page| && page[i].id == Canonical(id) {
      PageDecides(key, st, page, since, now, ids, i, |page|);
      SettledMatches(key, row, id, slot, since, now);
    } else {
      PageFades(key, st, page, since, now, ids, |page|, id);
    }
  }

  /** After the page, every row on the server is matched here or was changed here. */
  lemma PullMatches(w: World, device: nat, page: seq<SyncItem>, ids: seq<Uuid>)
    requires Inv(w) && MayPull(w, device, page, ids)
    ensures var data := w.devices[device].data;
            var since := data.sync.value.lastSyncedAt;
            var applied := Pulled(w.key, data, Page(w.account.revision, page), w.clock, ids).data;
            && Ready(w.key, data, page, ids)
            && Consistent(applied) && applied.sync == data.sync
            && (forall id: Uuid :: StampedBy(SlotOf(applied, id), w.clock))
            && Known(w.key, w.account, applied, w.account.revision, since)
            && Known(w.key, w.account, applied, data.sync.value.lastRevision, since)
  {
    var data := w.devices[device].data;
    var since, rows := data.sync.value.lastSyncedAt, w.account.rows;
    var st := Applied(data, EMPTY_REPORT.(revision := w.account.revision));
    forall k | 0 <= k < |page| ensures Genuine(w.key, page[k]) {
      assert RowGood(w.key, page[k].id, rows[page[k].id]);
    }
    assert page[..|page|] == page;
    var applied := Upto(w.key, st, page, since, w.clock, ids, |page|);
    PagePrefix(w.key, st, page, since, w.clock, ids, |page|);
    forall i | 0 <= i < |page| && page[i].id.Canonical?
      ensures var item := DecodeItem(w.key, page[i].id.id, page[i]); item.Some? ==> item.value.updatedAt <= w.clock
    {
      assert RowStampedBy(w.key, page[i].id.id, rows[page[i].id], w.clock);
    }
    PageStamps(w.key, st, page, since, w.clock, ids, |page|);
    forall id: Uuid | Canonical(id) in rows
      ensures Matches(w.key, id, rows[Canonical(id)], SlotOf(applied, id)) || Changed(SlotOf(applied, id), since)
    {
      assert RowGood(w.key, Canonical(id), rows[Canonical(id)]);
      RowSettles(w.key, rows, st, page, since, w.clock, ids, id);
    }
  }

  // ---- a push ---------------------------------------------------------

  /** The row a slot's record becomes is good and matched by that slot. */
  lemma RowOfSlot(key: Key, data: VaultData, id: Uuid, since: nat, revision: int, clock: nat)
    requires Changed(SlotOf(data, id), since) && StampedBy(SlotOf(data, id), clock)
    ensures var row := Stores.RowFor(SlotRecord(key, SlotOf(data, id)), revision, clock);
            && SlotRecord(key, SlotOf(data, id)).id == Canonical(id)
            && RowGood(key, Canonical(id), row) && Matches(key, id, row, SlotOf(data, id))
            && RowStampedBy(key, id, row, clock)
  {
    SlotIds(data, id);
  }

  /** A push writes the rows of the changed ids and leaves every other row. */
  lemma PushedRow(key: Key, account: Stores.Account, data: VaultData, since: nat, clock: nat, wire: WireId)
    requires Consistent(data)
    ensures var after := Stores.AfterPush(account, account.revision, Outgoing(key, data, since), clock);
            if wire.Canonical? && Changed(SlotOf(data, wire.id), since)
            then wire in after.rows
                 && after.rows[wire] == Stores.RowFor(SlotRecord(key, SlotOf(data, wire.id)), account.revision + 1,
                     clock)
            else wire in after.rows ==> wire in account.rows && after.rows[wire] == account.rows[wire]
  {
    hide Outgoing, Consistent, Held, Buried, Stores.RowFor, Stores.Upserts;
    var out := Outgoing(key, data, since);
    OutgoingExactly(key, data, since);
    Stores.UpsertsDistinct(account.rows, out, account.revision + 1, clock);
    if wire.Canonical? && Changed(SlotOf(data, wire.id), since) {
      SlotRecordId(key, data, wire.id);
      hide SlotOf, Changed, SlotRecord;
      var i :| 0 <= i < |out| && out[i] == SlotRecord(key, SlotOf(data, wire.id));
    }
  }

  lemma SlotRecordId(key: Key, data: VaultData, id: Uuid)
    requires SlotOf(data, id).item.Some? || SlotOf(data, id).grave.Some?
    ensures SlotRecord(key, SlotOf(data, id)).id == Canonical(id)
  {
    SlotIds(data, id);
  }

  lemma PushedRowMatches(key: Key, account: Stores.Account, data: VaultData, since: nat, clock: nat, wire: WireId)
    requires ServerInv(key, account, clock) && RowsGood(key, account) && Consistent(data)
    requires forall id: Uuid :: StampedBy(SlotOf(data, id), clock)
    requires Known(key, account, data, account.revision, since)
    requires wire in Stores.AfterPush(account, account.revision, Outgoing(key, data, since), clock).rows
    ensures var row := Stores.AfterPush(account, account.revision, Outgoing(key, data, since), clock).rows[wire];
            RowGood(key, wire, row) && Matches(key, wire.id, row, SlotOf(data, wire.id))
                && RowStampedBy(key, wire.id, row, clock)
  {
    PushedRow(key, account, data, since, clock, wire);
    if wire.Canonical? && Changed(SlotOf(data, wire.id), since) {
      RowOfSlot(key, data, wire.id, since, account.revision + 1, clock);
    } else {
      assert RowGood(key, wire, account.rows[wire]);
      assert RowStampedBy(key, wire.id, account.rows[wire], clock) && account.rows[wire].revision <= account.revision;
    }
  }

  /** An accepted push of everything changed here leaves every row on the server matched here. */
  lemma PushMatches(key: Key, account: Stores.Account, data: VaultData, since: nat, clock: nat)
    requires ServerInv(key, account, clock) && RowsGood(key, account) && Consistent(data)
    requires forall id: Uuid :: StampedBy(SlotOf(data, id), clock)
    requires Known(key, account, data, account.revision, since)
    ensures var after := Stores.AfterPush(account, account.revision, Outgoing(key, data, since), clock);
            && ServerInv(key, after, clock) && RowsGood(key, after) && after.revision == account.revision + 1
            && (forall id: Uuid :: Canonical(id) in after.rows ==>
                Matches(key, id, after.rows[Canonical(id)], SlotOf(data, id)))
  {
    var after := Stores.AfterPush(account, account.revision, Outgoing(key, data, since), clock);
    Stores.PushKeepsWellFormed(account, account.revision, Outgoing(key, data, since), clock);
    forall wire | wire in after.rows
      ensures RowGood(key, wire, after.rows[wire])
      ensures Matches(key, wire.id, after.rows[wire], SlotOf(data, wire.id))
      ensures RowStampedBy(key, wire.id, after.rows[wire], clock)
    {
      PushedRowMatches(key, account, data, since, clock, wire);
    }
  }

  /** A push by one device leaves what every other device knows intact. */
  lemma PushLeavesOthers(key: Key, account: Stores.Account, records: seq<SyncItem>, clock: nat, other: Device)
    requires DeviceInv(key, account, clock, other)
    ensures DeviceInv(key, Stores.AfterPush(account, account.revision, records, clock), clock, other)
  {
    var after := Stores.AfterPush(account, account.revision, records, clock);
    forall id | id in after.rows && after.rows[id].revision <= account.revision
      ensures id in account.rows && after.rows[id] == account.rows[id]
    {
      Stores.UpsertsAt(account.rows, records, account.revision + 1, clock, id);
    }
  }

  // ---- local changes --------------------------------------------------

  /** A change stamped now, to one id, keeps what the device knows. */
  lemma LocalChangeKeeps(key: Key, account: Stores.Account, clock: nat, dev: Device, data: VaultData, changed: Uuid)
    requires DeviceInv(key, account, clock, dev) && dev.phase == Idle && clock > dev.data.sync.value.lastSyncedAt
    requires Consistent(data) && data.sync == dev.data.sync
    requires forall id: Uuid :: id != changed ==>
               Fades(SlotOf(dev.data, id), SlotOf(data, id), dev.data.sync.value.lastSyncedAt)
    requires Changed(SlotOf(data, changed), dev.data.sync.value.lastSyncedAt) && StampedBy(SlotOf(data, changed), clock)
    ensures DeviceInv(key, account, clock, dev.(data := data))
  {
    hide SlotOf;
    forall id: Uuid ensures StampedBy(SlotOf(data, id), clock) {
      assert StampedBy(SlotOf(dev.data, id), clock);
    }
  }

  /** Forgetting what the server knows keeps what the device knows. */
  lemma FadingKeeps(key: Key, account: Stores.Account, clock: nat, dev: Device, data: VaultData)
    requires DeviceInv(key, account, clock, dev) && dev.phase == Idle
    requires Consistent(data) && data.sync == dev.data.sync
    requires forall id: Uuid :: Fades(SlotOf(dev.data, id), SlotOf(data, id), dev.data.sync.value.lastSyncedAt)
    ensures DeviceInv(key, account, clock, dev.(data := data))
  {
    hide SlotOf;
    forall id: Uuid ensures StampedBy(SlotOf(data, id), clock) {
      assert StampedBy(SlotOf(dev.data, id), clock);
    }
  }

  lemma RemovedFades(data: VaultData, id: Uuid, now: nat, other: Uuid)
    requires Consistent(data) && data.sync.Some? && RoomForUnsent(data, now, 1) && other != id
    ensures Fades(SlotOf(data, other), SlotOf(Removed(data, id, now), other), data.sync.value.lastSyncedAt)
  {
    hide Lasts;
    RemovedEffect(data, id, now);
    if Unsent(SlotOf(data, other), data.sync.value.lastSyncedAt) {
      LastsWithout(data.tombstones, id, other, now, 1);
    }
  }

  /** Opening a vault again forgets expired deletions and nothing else. */
  lemma ReopenedFades(data: VaultData, now: nat)
    requires Consistent(data) && data.sync.Some? && Migrated(data) == data && RoomForUnsent(data, now, 0)
    ensures Consistent(Reopened(data, now)) && Reopened(data, now).sync == data.sync
    ensures forall id: Uuid :: Fades(SlotOf(data, id), SlotOf(Reopened(data, now), id), data.sync.value.lastSyncedAt)
  {
    hide Lasts, Migrated, Pruned;
    PrunedDistinct(data.tombstones, now);
    forall id: Uuid
      ensures Fades(SlotOf(data, id), SlotOf(Reopened(data, now), id), data.sync.value.lastSyncedAt)
    {
      PrunedAt(data.tombstones, now, id, 0);
    }
    forall id: Uuid ensures Held(Reopened(data, now), id).None? || Buried(Reopened(data, now), id).None? {
      assert Held(data, id).None? || Buried(data, id).None?;
    }
  }

  lemma EditedEffect(data: VaultData, item: Item)
    requires Consistent(data) && Held(data, item.id).Some?
    ensures Consistent(Edited(data, item))
    ensures forall id: Uuid :: SlotOf(Edited(data, item), id)
                               == if id == item.id then Slot(Some(item), None) else SlotOf(data, id)
  {
    FindReplaced(data.items, item, item.id);
    forall id: Uuid
      ensures SlotOf(Edited(data, item), id) == if id == item.id then Slot(Some(item), None) else SlotOf(data, id)
    {
      FindReplaced(data.items, item, id);
    }
    forall id: Uuid ensures Held(Edited(data, item), id).None? || Buried(Edited(data, item), id).None? {
      assert SlotOf(Edited(data, item), id) == if id == item.id then Slot(Some(item), None) else SlotOf(data, id);
    }
  }

  lemma LocalActKeeps(w: World, act: Act)
    requires Inv(w) && Enabled(w, act) && (act.AddItem? || act.EditItem? || act.DeleteItem?)
    ensures Inv(Do(w, act))
  {
    var d := act.device;
    var dev := w.devices[d];
    match act
    case AddItem(_, item) =>
      AddedEffect(dev.data, item);
      LocalChangeKeeps(w.key, w.account, w.clock, dev, Added(dev.data, item), item.id);
    case EditItem(_, item) =>
      EditedEffect(dev.data, item);
      LocalChangeKeeps(w.key, w.account, w.clock, dev, Edited(dev.data, item), item.id);
    case DeleteItem(_, id) =>
      RemovedEffect(dev.data, id, w.clock);
      forall other: Uuid | other != id
        ensures Fades(SlotOf(dev.data, other), SlotOf(Removed(dev.data, id, w.clock), other),
                      dev.data.sync.value.lastSyncedAt)
      {
        RemovedFades(dev.data, id, w.clock, other);
      }
      LocalChangeKeeps(w.key, w.account, w.clock, dev, Removed(dev.data, id, w.clock), id);
  }
}
