/** One reconciliation on one device: pull, decide record by record, push what changed here. */
module Sync {
  import opened Crypto
  import opened Vault
  import opened UnlockedVaults
  import opened Merge
  import opened Wire

  datatype SyncReport = SyncReport(pulled: nat, pushed: nat, conflicts: nat, unprovenDeletes: nat, revision: int)

  datatype Applied = Applied(data: VaultData, report: SyncReport)

  // ---- applying a page ------------------------------------------------

  /** An id as this machine has it: held, or recorded as deleted, or unknown. */
  function LocalOf(data: VaultData, id: Uuid): Option<LocalItem> {
    match Held(data, id)
    case Some(item) => Some(LocalItem(id, item.updatedAt, false))
    case None =>
      match Buried(data, id)
      case Some(grave) => Some(LocalItem(id, grave.deletedAt, true))
      case None => None
  }

  function RemoteOf(key: Key, id: Uuid, record: SyncItem): RemoteItem {
    var proof, item := ProvenDeletion(key, id, record), DecodeItem(key, id, record);
    RemoteItem(id, if proof.Some? then proof.value.deletedAt else if item.Some? then item.value.updatedAt else 0,
               proof.Some?)
  }

  function OurCopy(item: Item, copyId: Uuid): Item {
    item.(id := copyId, name := item.name + " (this machine)")
  }

  function TheirCopy(item: Item, copyId: Uuid): Item {
    item.(id := copyId, name := item.name + " (other machine)")
  }

  /** Decides one record.  `copyId` is the id a copy would be given, `now` the clock. */
  function ApplyRecord(key: Key, st: Applied, record: SyncItem, since: nat, now: nat, copyId: Uuid): Applied {
    if record.id.Text? then st
    else
      var id := record.id.id;
      if record.deleted && ProvenDeletion(key, id, record).None? then
        st.(report := st.report.(unprovenDeletes := st.report.unprovenDeletes + 1))
      else
        var remote := DecodeItem(key, id, record);
        match Reconcile(LocalOf(st.data, id), RemoteOf(key, id, record), since)
        case ApplyRemote =>
          if remote.None? then st
          else Applied(Upserted(st.data, remote.value), st.report.(pulled := st.report.pulled + 1))
        case ApplyDelete =>
          Applied(if Held(st.data, id).Some? then Removed(st.data, id, now) else st.data,
                  st.report.(pulled := st.report.pulled + 1))
        case KeepLocal => st
        case Conflict(remoteWins) =>
          var counted := st.report.(conflicts := st.report.conflicts + 1);
          if remote.None? then Applied(st.data, counted)
          else
            var report := counted.(pulled := counted.pulled + 1);
            if !remoteWins then Applied(Upserted(st.data, TheirCopy(remote.value, copyId)), report)
            else
              var mine := Held(st.data, id);
              var beside := if mine.Some? then Upserted(st.data, OurCopy(mine.value, copyId)) else st.data;
              Applied(Upserted(beside, remote.value), report)
  }

  /** What the report says of one record: an unproven deletion is counted and nothing else happens; a record
      for an item changed here that is no deletion is a conflict; and one is pulled when its item is written,
      under its id or a copy's, or when it proves the deletion of what is not recorded as deleted here and
      not changed here. */
  lemma ReportExactly(key: Key, st: Applied, record: SyncItem, since: nat, now: nat, copyId: Uuid)
    ensures var told, tells := st.report, ApplyRecord(key, st, record, since, now, copyId).report;
            && tells.pushed == told.pushed && tells.revision == told.revision
            && (record.id.Text? ==> tells == told)
            && (record.id.Canonical? ==>
                  var id := record.id.id;
                  var proof, item := ProvenDeletion(key, id, record).Some?, DecodeItem(key, id, record).Some?;
                  var unproven := record.deleted && !proof;
                  var edited := Held(st.data, id).Some? && Held(st.data, id).value.updatedAt > since;
                  var buried := Held(st.data, id).None? && Buried(st.data, id).Some?;
                  var dug := buried && Buried(st.data, id).value.deletedAt > since;
                  && tells.unprovenDeletes == told.unprovenDeletes + (if unproven then 1 else 0)
                  && tells.conflicts == told.conflicts + (if !unproven && !proof && edited then 1 else 0)
                  && tells.pulled == told.pulled
                     + if unproven then 0
                       else if proof then (if edited || buried then 0 else 1)
                       else if item && !dug then 1 else 0)
  {
  }

  /** A whole page, in order; `ids[k]` is the id drawn for record `k`. */
  function ApplyPage(key: Key, st: Applied, page: seq<SyncItem>, since: nat, now: nat, ids: seq<Uuid>): Applied
    requires |page| <= |ids|
  {
    if page == [] then st
    else
      var n := |page| - 1;
      ApplyRecord(key, ApplyPage(key, st, page[..n], since, now, ids), page[n], since, now, ids[n])
  }

  /** The same while the clock moves: `nows[k]` is what it reads at record `k`. */
  function ApplyOver(key: Key, st: Applied, page: seq<SyncItem>, since: nat, nows: seq<nat>, ids: seq<Uuid>): Applied
    requires |page| <= |ids| && |page| <= |nows|
  {
    if page == [] then st
    else
      var n := |page| - 1;
      ApplyRecord(key, ApplyOver(key, st, page[..n], since, nows, ids), page[n], since, nows[n], ids[n])
  }

  lemma {:induction false} ApplyWithinASecond(key: Key, st: Applied, page: seq<SyncItem>, since: nat, nows: seq<nat>,
                                              now: nat, ids: seq<Uuid>)
    requires |page| <= |ids| && |page| <= |nows| && forall k :: 0 <= k < |page| ==> nows[k] == now
    ensures ApplyOver(key, st, page, since, nows, ids) == ApplyPage(key, st, page, since, now, ids)
  {
    if page != [] {
      ApplyWithinASecond(key, st, page[..|page| - 1], since, nows, now, ids);
    }
  }

  // ---- what goes out --------------------------------------------------

  function LocalList(data: VaultData): seq<LocalItem> {
    seq(|data.items|, k requires 0 <= k < |data.items| => LocalItem(data.items[k].id, data.items[k].updatedAt, false))
    + seq(|data.tombstones|, k requires 0 <= k < |data.tombstones| =>
          LocalItem(data.tombstones[k].id, data.tombstones[k].deletedAt, true))
  }

  function RecordsFor(key: Key, data: VaultData, changes: seq<LocalItem>): seq<SyncItem> {
    if changes == [] then []
    else
      var before, change := RecordsFor(key, data, changes[..|changes| - 1]), changes[|changes| - 1];
      if change.deleted then
        var grave := Buried(data, change.id);
        if grave.None? then before else before + [DeletionRecord(key, grave.value)]
      else
        var item := Held(data, change.id);
        if item.None? then before else before + [ItemRecord(key, item.value)]
  }

  function Outgoing(key: Key, data: VaultData, since: nat): seq<SyncItem> {
    RecordsFor(key, data, ToPush(LocalList(data), since))
  }

  // ---- one id at a time -----------------------------------------------

  /** Everything a vault knows about one id. */
  datatype Slot = Slot(item: Option<Item>, grave: Option<Tombstone>)

  function SlotOf(data: VaultData, id: Uuid): Slot {
    Slot(Held(data, id), Buried(data, id))
  }

  /** Changed here after `since`, by an edit or a deletion. */
  predicate Changed(slot: Slot, since: nat) {
    if slot.item.Some? then slot.item.value.updatedAt > since
    else slot.grave.Some? && slot.grave.value.deletedAt > since
  }

  function LocalIn(slot: Slot, id: Uuid): Option<LocalItem> {
    if slot.item.Some? then Some(LocalItem(id, slot.item.value.updatedAt, false))
    else if slot.grave.Some? then Some(LocalItem(id, slot.grave.value.deletedAt, true))
    else None
  }

  /** What a record for `id` leaves under `id`. */
  function Settled(key: Key, record: SyncItem, id: Uuid, slot: Slot, since: nat, now: nat): Slot {
    var remote := DecodeItem(key, id, record);
    if record.deleted && ProvenDeletion(key, id, record).None? then slot
    else match Reconcile(LocalIn(slot, id), RemoteOf(key, id, record), since)
      case ApplyRemote => if remote.Some? then Slot(remote, None) else slot
      case ApplyDelete => if slot.item.Some? then Slot(None, Some(Tombstone(id, now))) else slot
      case KeepLocal => slot
      case Conflict(remoteWins) => if remote.Some? && remoteWins then Slot(remote, None) else slot
  }

  /** The copy a record for `id` puts under `copyId`, if both sides changed it. */
  function CopyMade(key: Key, record: SyncItem, id: Uuid, slot: Slot, since: nat, copyId: Uuid): Option<Item> {
    var remote := DecodeItem(key, id, record);
    if record.deleted && ProvenDeletion(key, id, record).None? then None
    else match Reconcile(LocalIn(slot, id), RemoteOf(key, id, record), since)
      case Conflict(remoteWins) =>
        if remote.None? then None
        else if !remoteWins then Some(TheirCopy(remote.value, copyId))
        else if slot.item.Some? then Some(OurCopy(slot.item.value, copyId)) else None
      case _ => None
  }

  /** What the record carries for its own id is about that id, as everything `seal_item` makes is. */
  predicate Genuine(key: Key, record: SyncItem) {
    record.id.Canonical? ==>
      var item := DecodeItem(key, record.id.id, record);
      item.Some? ==> item.value.id == record.id.id
  }

  predicate FreshFor(data: VaultData, record: SyncItem, copyId: Uuid) {
    SlotOf(data, copyId) == Slot(None, None) && record.id != Canonical(copyId)
  }

  /** What may happen to an id nobody named: at most its deletion is forgotten. */
  predicate Thins(was: Slot, after: Slot) {
    after.item == was.item && (after.grave == was.grave || after.grave.None?)
  }

  /** A conflict writes the newer record under its id and the other side under the copy's. */
  lemma ConflictEffect(data: VaultData, item: Item, copy: Item)
    requires Consistent(data) && item.id != copy.id
    ensures var after := Upserted(Upserted(data, copy), item);
            && Consistent(after) && after.sync == data.sync
            && (forall id: Uuid :: SlotOf(after, id) == if id == item.id then Slot(Some(item), None)
                                                        else if id == copy.id then Slot(Some(copy), None)
                                                        else SlotOf(data, id))
  {
    UpsertedEffect(data, copy);
    UpsertedEffect(Upserted(data, copy), item);
  }

  /** One record touches its own id and the copy's; of any other id it can only make the vault forget
      a deletion. */
  lemma ApplyRecordEffect(key: Key, st: Applied, record: SyncItem, since: nat, now: nat, copyId: Uuid)
    requires Consistent(st.data) && Genuine(key, record) && FreshFor(st.data, record, copyId)
    ensures var after := ApplyRecord(key, st, record, since, now, copyId).data;
            && Consistent(after) && after.sync == st.data.sync
            && (forall id: Uuid :: record.id != Canonical(id) && id != copyId ==>
                  Thins(SlotOf(st.data, id), SlotOf(after, id)))
            && (record.id.Canonical? ==>
                  var id := record.id.id;
                  && SlotOf(after, id) == Settled(key, record, id, SlotOf(st.data, id), since, now)
                  && SlotOf(after, copyId)
                     == Slot(CopyMade(key, record, id, SlotOf(st.data, id), since, copyId), None))
  {
    hide Lasts;
    if record.id.Canonical? && !(record.deleted && ProvenDeletion(key, record.id.id, record).None?) {
      var id := record.id.id;
      var remote := DecodeItem(key, id, record);
      match Reconcile(LocalOf(st.data, id), RemoteOf(key, id, record), since)
      case ApplyRemote =>
        if remote.Some? {
          UpsertedEffect(st.data, remote.value);
        }
      case ApplyDelete =>
        if Held(st.data, id).Some? {
          RemovedEffect(st.data, id, now);
        }
      case KeepLocal =>
      case Conflict(remoteWins) =>
        if remote.Some? {
          if remoteWins {
            ConflictEffect(st.data, remote.value, OurCopy(Held(st.data, id).value, copyId));
          } else {
            UpsertedEffect(st.data, TheirCopy(remote.value, copyId));
          }
        }
    }
  }

  predicate ProvesDeletion(key: Key, record: SyncItem) {
    record.id.Canonical? && ProvenDeletion(key, record.id.id, record).Some?
  }

  /** And a deletion with room behind it is not forgotten: only a proven deletion takes a place. */
  lemma ApplyRecordRoom(key: Key, st: Applied, record: SyncItem, since: nat, now: nat, copyId: Uuid, id: Uuid,
      extra: nat)
    requires Consistent(st.data) && Genuine(key, record) && FreshFor(st.data, record, copyId)
    requires record.id != Canonical(id) && id != copyId
    requires Lasts(st.data.tombstones, id, now, extra + if ProvesDeletion(key, record) then 1 else 0)
    ensures var after := ApplyRecord(key, st, record, since, now, copyId).data;
            Lasts(after.tombstones, id, now, extra) && Buried(after, id) == Buried(st.data, id)
  {
    var graves := st.data.tombstones;
    LastsLess(graves, id, now, extra + if ProvesDeletion(key, record) then 1 else 0, extra);
    if record.id.Canonical? && !(record.deleted && ProvenDeletion(key, record.id.id, record).None?) {
      var named := record.id.id;
      var remote := DecodeItem(key, named, record);
      hide Lasts, FindGrave, WithoutGrave, Find, Unexpired;
      match Reconcile(LocalOf(st.data, named), RemoteOf(key, named, record), since)
      case ApplyRemote =>
        if remote.Some? {
          UpsertedRoom(st.data, remote.value, id, now, extra);
        }
      case ApplyDelete =>
        if Held(st.data, named).Some? {
          LastsWithout(graves, named, id, now, extra + 1);
          LastsLess(WithoutGrave(graves, named), id, now, extra + 1, 1);
          RemovedGrave(graves, named, now, id, extra);
        }
      case KeepLocal =>
      case Conflict(remoteWins) =>
        if remote.Some? {
          if remoteWins {
            var beside := OurCopy(Held(st.data, named).value, copyId);
            UpsertedRoom(st.data, beside, id, now, extra);
            UpsertedRoom(Upserted(st.data, beside), remote.value, id, now, extra);
          } else {
            UpsertedRoom(st.data, TheirCopy(remote.value, copyId), id, now, extra);
          }
        }
    }
  }

  lemma UpsertedRoom(data: VaultData, item: Item, id: Uuid, now: nat, extra: nat)
    requires item.id != id && Lasts(data.tombstones, id, now, extra)
    ensures Lasts(Upserted(data, item).tombstones, id, now, extra)
        && Buried(Upserted(data, item), id) == Buried(data, id)
  {
    LastsWithout(data.tombstones, item.id, id, now, extra);
    GraveWithout(data.tombstones, item.id, id);
  }
}
