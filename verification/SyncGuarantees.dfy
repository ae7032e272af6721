/** What one reconciliation guarantees, whatever page the server answered with. */
module SyncGuarantees {
  import opened Crypto
  import opened Vault
  import opened UnlockedVaults
  import opened Merge
  import opened Wire
  import opened Sync
  import opened ByteOrder
  import opened Sequences
  import Powers = Text

  /** The ids drawn for copies are new: distinct, unknown to the vault, and not in the page. */
  ghost predicate FreshIds(data: VaultData, page: seq<SyncItem>, ids: seq<Uuid>) {
    && |page| <= |ids|
    && (forall i, j :: 0 <= i < j < |ids| ==> ids[i] != ids[j])
    && (forall i :: 0 <= i < |ids| ==> SlotOf(data, ids[i]) == Slot(None, None))
    && (forall i, k :: 0 <= i < |ids| && 0 <= k < |page| ==> page[k].id != Canonical(ids[i]))
  }

  ghost predicate GenuinePage(key: Key, page: seq<SyncItem>) {
    forall k :: 0 <= k < |page| ==> Genuine(key, page[k])
  }

  /** The situation every guarantee below starts from. */
  ghost predicate Ready(key: Key, data: VaultData, page: seq<SyncItem>, ids: seq<Uuid>) {
    Consistent(data) && GenuinePage(key, page) && FreshIds(data, page, ids)
  }

  function Upto(key: Key, st: Applied, page: seq<SyncItem>, since: nat, now: nat, ids: seq<Uuid>, k: nat): VaultData
    requires k <= |page| <= |ids|
  {
    ApplyPage(key, st, page[..k], since, now, ids).data
  }

  lemma UptoStep(key: Key, st: Applied, page: seq<SyncItem>, since: nat, now: nat, ids: seq<Uuid>, k: nat)
    requires k < |page| <= |ids|
    ensures ApplyPage(key, st, page[..k + 1], since, now, ids)
            == ApplyRecord(key, ApplyPage(key, st, page[..k], since, now, ids), page[k], since, now, ids[k])
  {
    assert page[..k + 1][..k] == page[..k];
  }

  lemma UptoNothing(key: Key, st: Applied, page: seq<SyncItem>, since: nat, now: nat, ids: seq<Uuid>)
    requires |page| <= |ids|
    ensures Upto(key, st, page, since, now, ids, 0) == st.data
  {
    assert page[..0] == [];
  }

  /** After any prefix of the page: of an id it did not name and did not draw at most a deletion has
      been forgotten. */
  lemma {:induction false} PagePrefix(key: Key, st: Applied, page: seq<SyncItem>, since: nat, now: nat,
                                      ids: seq<Uuid>, k: nat)
    requires Ready(key, st.data, page, ids) && k <= |page|
    ensures var data := Upto(key, st, page, since, now, ids, k);
            && Consistent(data) && data.sync == st.data.sync
            && (forall id: Uuid :: (forall i :: 0 <= i < k ==> page[i].id != Canonical(id) && ids[i] != id) ==>
                  Thins(SlotOf(st.data, id), SlotOf(data, id)))
            && (forall i :: k <= i < |page| ==> FreshFor(data, page[i], ids[i]))
  {
    if k > 0 {
      PagePrefix(key, st, page, since, now, ids, k - 1);
      UptoStep(key, st, page, since, now, ids, k - 1);
      var mid := ApplyPage(key, st, page[..k - 1], since, now, ids);
      ApplyRecordEffect(key, mid, page[k - 1], since, now, ids[k - 1]);
      var data := Upto(key, st, page, since, now, ids, k);
      forall i | k <= i < |page| ensures FreshFor(data, page[i], ids[i]) {
        assert forall j :: 0 <= j < k ==> page[j].id != Canonical(ids[i]) && ids[j] != ids[i];
      }
    }
  }

  /** The step of record `k`, on the id it names, on the copy, and on every other id. */
  lemma PageStep(key: Key, st: Applied, page: seq<SyncItem>, since: nat, now: nat, ids: seq<Uuid>, k: nat)
    requires Ready(key, st.data, page, ids) && k < |page|
    ensures var was := Upto(key, st, page, since, now, ids, k);
            var becomes := Upto(key, st, page, since, now, ids, k + 1);
            && (forall id: Uuid :: page[k].id != Canonical(id) && id != ids[k] ==>
                  Thins(SlotOf(was, id), SlotOf(becomes, id)))
            && (page[k].id.Text? ==> becomes == was)
            && (page[k].id.Canonical? ==>
                  var id := page[k].id.id;
                  && SlotOf(becomes, id) == Settled(key, page[k], id, SlotOf(was, id), since, now)
                  && SlotOf(becomes, ids[k])
                     == Slot(CopyMade(key, page[k], id, SlotOf(was, id), since, ids[k]), None))
  {
    PagePrefix(key, st, page, since, now, ids, k);
    UptoStep(key, st, page, since, now, ids, k);
    ApplyRecordEffect(key, ApplyPage(key, st, page[..k], since, now, ids), page[k], since, now, ids[k]);
  }

  /** An id the page draws is no id it names and none the vault knows. */
  lemma DrawnIsNew(key: Key, data: VaultData, page: seq<SyncItem>, ids: seq<Uuid>, k: nat)
    requires Ready(key, data, page, ids) && k < |page|
    ensures |page| <= |ids| && SlotOf(data, ids[k]) == Slot(None, None)
    ensures forall j :: 0 <= j < |page| ==> page[j].id != Canonical(ids[k])
  {
  }

  lemma ReadyDraws(key: Key, data: VaultData, page: seq<SyncItem>, ids: seq<Uuid>)
    requires Ready(key, data, page, ids)
    ensures |page| <= |ids|
  {
  }

  /** What record `k` of a page finds. */
  lemma PageMeets(key: Key, st: Applied, page: seq<SyncItem>, since: nat, now: nat, ids: seq<Uuid>, k: nat)
    requires Ready(key, st.data, page, ids) && k < |page|
    ensures var data := Upto(key, st, page, since, now, ids, k);
            && Consistent(data) && Genuine(key, page[k]) && FreshFor(data, page[k], ids[k])
            && SlotOf(st.data, ids[k]) == Slot(None, None)
  {
    PagePrefix(key, st, page, since, now, ids, k);
    DrawnIsNew(key, st.data, page, ids, k);
  }

  // ---- what this machine did since the last sync wins -----------------

  /** Everything the user stored but the name: the fields, where it is filed, and when it was edited. */
  predicate SameContent(original: Item, kept: Item) {
    kept.body == original.body && kept.folder == original.folder && kept.tags == original.tags
    && kept.updatedAt == original.updatedAt
  }

  /** The same credential, possibly under a copy's id and name. */
  predicate SameCredential(original: Item, kept: Item) {
    SameContent(original, kept) && (kept.name == original.name || kept.name == original.name + " (this machine)")
  }

  /** The same credential beside the original, under a new id and a name that says whose it is. */
  predicate BesideAs(original: Item, copy: Item, copyId: Uuid, suffix: string) {
    SameContent(original, copy) && copy.id == copyId && copy.name == original.name + suffix
  }

  lemma CopiesKeepContent(item: Item, copyId: Uuid)
    ensures BesideAs(item, OurCopy(item, copyId), copyId, " (this machine)")
    ensures BesideAs(item, TheirCopy(item, copyId), copyId, " (other machine)")
  {
  }

  /** A record for an id changed here leaves it changed here: untouched, or moved to a copy. */
  lemma EditedStep(key: Key, record: SyncItem, id: Uuid, slot: Slot, since: nat, now: nat, copyId: Uuid)
    requires slot.item.Some? && Changed(slot, since)
    ensures var after := Settled(key, record, id, slot, since, now);
            && after.item.Some? && Changed(after, since)
            && (after == slot || CopyMade(key, record, id, slot, since, copyId)
                == Some(OurCopy(slot.item.value, copyId)))
  {
  }

  /** A record for an id deleted here since the last sync leaves the whole vault alone. */
  lemma DeletedStep(key: Key, st: Applied, record: SyncItem, id: Uuid, since: nat, now: nat, copyId: Uuid)
    requires record.id == Canonical(id)
    requires Held(st.data, id).None? && Changed(SlotOf(st.data, id), since)
    ensures ApplyRecord(key, st, record, since, now, copyId).data == st.data
  {
  }

  /** An item is only ever removed when unchanged here and the record proves the deletion. */
  lemma RemovalStep(key: Key, record: SyncItem, id: Uuid, slot: Slot, since: nat, now: nat)
    requires slot.item.Some? && Settled(key, record, id, slot, since, now).item.None?
    ensures !Changed(slot, since) && ProvenDeletion(key, id, record).Some?
  {
  }

  /** An item changed since the last sync is still there after any prefix of any page: under its
      own id untouched, or as the copy beside the newer record that took its id. */
  lemma {:induction false} EditSurvives(key: Key, st: Applied, page: seq<SyncItem>, since: nat, now: nat,
                                        ids: seq<Uuid>, id: Uuid, k: nat) returns (home: Option<nat>)
    requires Ready(key, st.data, page, ids) && k <= |page|
    requires Held(st.data, id).Some? && Changed(SlotOf(st.data, id), since)
    ensures var data := Upto(key, st, page, since, now, ids, k);
            && Held(data, id).Some? && Changed(SlotOf(data, id), since)
            && (home.None? ==> Held(data, id) == Held(st.data, id))
            && (home.Some? ==> home.value < k && Held(data, ids[home.value])
                                                 == Some(OurCopy(Held(st.data, id).value, ids[home.value])))
  {
    home := None;
    if k > 0 {
      home := EditSurvives(key, st, page, since, now, ids, id, k - 1);
      PageStep(key, st, page, since, now, ids, k - 1);
      DrawnIsNew(key, st.data, page, ids, k - 1);
      var was := Upto(key, st, page, since, now, ids, k - 1);
      assert SlotOf(was, id).item == Held(was, id);
      assert id != ids[k - 1];
      if page[k - 1].id == Canonical(id) {
        EditedStep(key, page[k - 1], id, SlotOf(was, id), since, now, ids[k - 1]);
        if home.None? && Settled(key, page[k - 1], id, SlotOf(was, id), since, now).item != Held(was, id) {
          home := Some(k - 1);
        }
      }
    }
  }

  lemma DeletionStandsOne(key: Key, st: Applied, record: SyncItem, since: nat, now: nat, copyId: Uuid, id: Uuid,
                          extra: nat)
    requires Consistent(st.data) && Genuine(key, record) && FreshFor(st.data, record, copyId) && id != copyId
    requires SlotOf(st.data, id).item.None? && Changed(SlotOf(st.data, id), since)
    requires Lasts(st.data.tombstones, id, now, extra + if ProvesDeletion(key, record) then 1 else 0)
    ensures var after := ApplyRecord(key, st, record, since, now, copyId).data;
            SlotOf(after, id) == SlotOf(st.data, id) && Lasts(after.tombstones, id, now, extra)
  {
    hide ApplyRecord, Lasts, Find, FindGrave, Genuine, ProvesDeletion;
    if record.id == Canonical(id) {
      DeletedStep(key, st, record, id, since, now, copyId);
      LastsLess(st.data.tombstones, id, now, extra + if ProvesDeletion(key, record) then 1 else 0, extra);
    } else {
      ApplyRecordEffect(key, st, record, since, now, copyId);
      ApplyRecordRoom(key, st, record, since, now, copyId, id, extra);
    }
  }

  /** How many records of the page prove a deletion. */
  function Deletions(key: Key, page: seq<SyncItem>): nat {
    if page == [] then 0
    else Deletions(key, page[..|page| - 1]) + if ProvesDeletion(key, page[|page| - 1]) then 1 else 0
  }

  lemma DeletionsStep(key: Key, page: seq<SyncItem>, k: nat)
    requires k < |page|
    ensures Deletions(key, page[..k + 1]) == Deletions(key, page[..k]) + if ProvesDeletion(key, page[k]) then 1 else 0
  {
    TakeTake(page, k, k + 1);
  }

  /** A deletion made since the last sync stands through any prefix of any page, as long as it has room
      behind it for the deletions the prefix proves. */
  lemma {:induction false} DeletionStands(key: Key, st: Applied, page: seq<SyncItem>, since: nat, now: nat,
                                          ids: seq<Uuid>, id: Uuid, k: nat, extra: nat)
    requires Ready(key, st.data, page, ids) && k <= |page|
    requires SlotOf(st.data, id).item.None? && Changed(SlotOf(st.data, id), since)
    requires Lasts(st.data.tombstones, id, now, Deletions(key, page[..k]) + extra)
    ensures var data := Upto(key, st, page, since, now, ids, k);
            SlotOf(data, id) == SlotOf(st.data, id) && Lasts(data.tombstones, id, now, extra)
  {
    hide ApplyPage, Lasts, SlotOf, Changed, Ready, ProvesDeletion, Deletions;
    ReadyDraws(key, st.data, page, ids);
    if k == 0 {
      NoDeletions(key, st, page, since, now, ids);
    } else {
      hide Upto;
      DeletionsStep(key, page, k - 1);
      var place := if ProvesDeletion(key, page[k - 1]) then 1 else 0;
      DeletionStands(key, st, page, since, now, ids, id, k - 1, extra + place);
      DeletionStandsNext(key, st, page, since, now, ids, id, k - 1, extra);
    }
  }

  lemma NoDeletions(key: Key, st: Applied, page: seq<SyncItem>, since: nat, now: nat, ids: seq<Uuid>)
    requires |page| <= |ids|
    ensures Upto(key, st, page, since, now, ids, 0) == st.data && Deletions(key, page[..0]) == 0
  {
    assert page[..0] == [];
  }

  lemma DeletionStandsNext(key: Key, st: Applied, page: seq<SyncItem>, since: nat, now: nat, ids: seq<Uuid>, id: Uuid,
                           k: nat, extra: nat)
    requires Ready(key, st.data, page, ids) && k < |page| <= |ids|
    requires SlotOf(st.data, id).item.None? && Changed(SlotOf(st.data, id), since)
    requires var data := Upto(key, st, page, since, now, ids, k);
             && SlotOf(data, id) == SlotOf(st.data, id)
             && Lasts(data.tombstones, id, now, extra + if ProvesDeletion(key, page[k]) then 1 else 0)
    ensures var data := Upto(key, st, page, since, now, ids, k + 1);
            SlotOf(data, id) == SlotOf(st.data, id) && Lasts(data.tombstones, id, now, extra)
  {
    hide ApplyPage, ApplyRecord, Lasts, SlotOf, Changed, Genuine, FreshFor, Consistent, Ready, ProvesDeletion;
    PageMeets(key, st, page, since, now, ids, k);
    UptoStep(key, st, page, since, now, ids, k);
    ChangedIsKnown(SlotOf(st.data, id), since);
    var mid := ApplyPage(key, st, page[..k], since, now, ids);
    DeletionStandsOne(key, mid, page[k], since, now, ids[k], id, extra);
  }

  lemma ChangedIsKnown(slot: Slot, since: nat)
    requires Changed(slot, since)
    ensures slot != Slot(None, None)
  {
  }

  /** If an id is gone after a prefix, some record before that proved its deletion. */
  lemma {:induction false} GoneWasProven(key: Key, st: Applied, page: seq<SyncItem>, since: nat, now: nat,
                                         ids: seq<Uuid>, id: Uuid, k: nat) returns (at: nat)
    requires Ready(key, st.data, page, ids) && k <= |page|
    requires Held(st.data, id).Some? && Held(Upto(key, st, page, since, now, ids, k), id).None?
    ensures at < k && page[at].id == Canonical(id) && ProvenDeletion(key, id, page[at]).Some?
  {
    if k == 0 {
      ReadyDraws(key, st.data, page, ids);
      UptoNothing(key, st, page, since, now, ids);
      assert false;
    }
    hide ApplyPage, Upto, ApplyRecord, Settled, CopyMade, Genuine, FreshFor, Consistent, Ready, FreshIds, GenuinePage;
    DrawnIsNew(key, st.data, page, ids, k - 1);
    var was := Upto(key, st, page, since, now, ids, k - 1);
    if Held(was, id).None? {
      at := GoneWasProven(key, st, page, since, now, ids, id, k - 1);
    } else {
      PageStep(key, st, page, since, now, ids, k - 1);
      assert SlotOf(was, id).item == Held(was, id) && SlotOf(st.data, id).item == Held(st.data, id);
      RemovalStep(key, page[k - 1], id, SlotOf(was, id), since, now);
      at := k - 1;
    }
  }

  /** When both sides changed an item, both versions are held afterwards: the strictly newer one, and
      on a tie the one here, under the id, the other beside it. */
  lemma ConflictLosesNeither(key: Key, st: Applied, record: SyncItem, id: Uuid, since: nat, now: nat, copyId: Uuid)
    requires Consistent(st.data) && Genuine(key, record) && FreshFor(st.data, record, copyId)
    requires record.id == Canonical(id) && !record.deleted && DecodeItem(key, id, record).Some?
    requires Held(st.data, id).Some? && Held(st.data, id).value.updatedAt > since
    ensures var mine, theirs := Held(st.data, id).value, DecodeItem(key, id, record).value;
            var after := ApplyRecord(key, st, record, since, now, copyId).data;
            if theirs.updatedAt > mine.updatedAt
            then Held(after, id) == Some(theirs) && Held(after, copyId).Some?
                 && BesideAs(mine, Held(after, copyId).value, copyId, " (this machine)")
            else Held(after, id) == Some(mine) && Held(after, copyId).Some?
                 && BesideAs(theirs, Held(after, copyId).value, copyId, " (other machine)")
  {
    CopiesKeepContent(Held(st.data, id).value, copyId);
    CopiesKeepContent(DecodeItem(key, id, record).value, copyId);
    ApplyRecordEffect(key, st, record, since, now, copyId);
    var after := ApplyRecord(key, st, record, since, now, copyId).data;
    assert Held(after, id) == SlotOf(after, id).item && Held(after, copyId) == SlotOf(after, copyId).item;
  }

  // ---- what is pushed -------------------------------------------------

  function SlotRecord(key: Key, slot: Slot): SyncItem
    requires slot.item.Some? || slot.grave.Some?
  {
    if slot.item.Some? then ItemRecord(key, slot.item.value) else DeletionRecord(key, slot.grave.value)
  }

  lemma LocalListExactly(data: VaultData)
    requires Consistent(data)
    ensures forall i, j :: 0 <= i < j < |LocalList(data)| ==> LocalList(data)[i].id != LocalList(data)[j].id
    ensures forall i :: 0 <= i < |LocalList(data)| ==>
              LocalIn(SlotOf(data, LocalList(data)[i].id), LocalList(data)[i].id) == Some(LocalList(data)[i])
    ensures forall id: Uuid :: LocalIn(SlotOf(data, id), id).Some? ==>
        LocalIn(SlotOf(data, id), id).value in LocalList(data)
  {
    var list, n := LocalList(data), |data.items|;
    forall i | 0 <= i < |list| ensures LocalIn(SlotOf(data, list[i].id), list[i].id) == Some(list[i]) {
      if i < n {
        FindAt(data.items, i);
      } else {
        GraveAt(data.tombstones, i - n);
      }
    }
    forall i, j | 0 <= i < j < |list| ensures list[i].id != list[j].id {
      if j < n {
        FindAt(data.items, j);
        assert data.items[i].id != data.items[j].id;
      } else if i >= n {
        GraveAt(data.tombstones, j - n);
        assert data.tombstones[i - n].id != data.tombstones[j - n].id;
      }
    }
    forall id: Uuid | LocalIn(SlotOf(data, id), id).Some? ensures LocalIn(SlotOf(data, id), id).value in list {
      if Held(data, id).Some? {
        var k := FoundAt(data.items, id);
        assert list[k] == LocalIn(SlotOf(data, id), id).value;
      } else {
        var k := GraveFoundAt(data.tombstones, id);
        assert list[n + k] == LocalIn(SlotOf(data, id), id).value;
      }
    }
  }

  /** `to_push` keeps exactly what changed after the last sync, in order. */
  lemma {:induction false} ToPushExactly(local: seq<LocalItem>, since: nat)
    ensures forall c :: c in ToPush(local, since) <==> c in local && c.updatedAt > since
    ensures (forall i, j :: 0 <= i < j < |local| ==> local[i].id != local[j].id) ==>
              forall i, j :: 0 <= i < j < |ToPush(local, since)| ==>
                  ToPush(local, since)[i].id != ToPush(local, since)[j].id
  {
    if local != [] {
      ToPushExactly(local[1..], since);
    }
  }

  lemma {:induction false} RecordsExactly(key: Key, data: VaultData, changes: seq<LocalItem>)
    requires forall i :: 0 <= i < |changes| ==> LocalIn(SlotOf(data, changes[i].id), changes[i].id) == Some(changes[i])
    ensures |RecordsFor(key, data, changes)| == |changes|
    ensures forall i :: 0 <= i < |changes| ==>
              var slot := SlotOf(data, changes[i].id);
              (slot.item.Some? || slot.grave.Some?) && RecordsFor(key, data, changes)[i] == SlotRecord(key, slot)
  {
    if changes != [] {
      RecordsExactly(key, data, changes[..|changes| - 1]);
    }
  }

  /** A push holds exactly one record for each id changed since the last sync, saying what this
      machine has: the sealed item, or a tombstone with a proof. */
  lemma OutgoingExactly(key: Key, data: VaultData, since: nat)
    requires Consistent(data)
    ensures var out := Outgoing(key, data, since);
            && (forall i, j :: 0 <= i < j < |out| ==> out[i].id != out[j].id)
            && (forall i :: 0 <= i < |out| ==>
                  && out[i].id.Canonical? && Changed(SlotOf(data, out[i].id.id), since)
                  && out[i] == SlotRecord(key, SlotOf(data, out[i].id.id)))
            && (forall id: Uuid :: Changed(SlotOf(data, id), since) ==> SlotRecord(key, SlotOf(data, id)) in out)
  {
    var list, out := LocalList(data), Outgoing(key, data, since);
    var changes := ToPush(list, since);
    ChangesExactly(data, since, changes);
    RecordsExactly(key, data, changes);
    hide Outgoing, RecordsFor, LocalList, ToPush, Consistent;
    forall i | 0 <= i < |out| ensures out[i].id == Canonical(changes[i].id) {
      SlotIds(data, changes[i].id);
    }
    forall id: Uuid | Changed(SlotOf(data, id), since) ensures SlotRecord(key, SlotOf(data, id)) in out {
      var mine := LocalIn(SlotOf(data, id), id).value;
      var i :| 0 <= i < |changes| && changes[i] == mine;
      assert out[i] == SlotRecord(key, SlotOf(data, id));
    }
  }

  /** What is to be pushed is the current entry of each changed id. */
  lemma ChangesExactly(data: VaultData, since: nat, changes: seq<LocalItem>)
    requires Consistent(data) && changes == ToPush(LocalList(data), since)
    ensures forall i, j :: 0 <= i < j < |changes| ==> changes[i].id != changes[j].id
    ensures forall i :: 0 <= i < |changes| ==>
              && LocalIn(SlotOf(data, changes[i].id), changes[i].id) == Some(changes[i])
              && changes[i].updatedAt > since
    ensures forall id: Uuid :: Changed(SlotOf(data, id), since) ==>
              LocalIn(SlotOf(data, id), id).Some? && LocalIn(SlotOf(data, id), id).value in changes
  {
    var list := LocalList(data);
    LocalListExactly(data);
    ToPushExactly(list, since);
    hide LocalList, ToPush, Consistent;
    forall i | 0 <= i < |changes|
      ensures LocalIn(SlotOf(data, changes[i].id), changes[i].id) == Some(changes[i]) && changes[i].updatedAt > since
    {
      assert changes[i] in list;
    }
    forall id: Uuid | Changed(SlotOf(data, id), since)
      ensures LocalIn(SlotOf(data, id), id).Some? && LocalIn(SlotOf(data, id), id).value in changes
    {
      assert LocalIn(SlotOf(data, id), id).value in list;
    }
  }

  /** What is filed under an id names that id. */
  lemma SlotIds(data: VaultData, id: Uuid)
    ensures Held(data, id).Some? ==> Held(data, id).value.id == id
    ensures Buried(data, id).Some? ==> Buried(data, id).value.id == id
  {
    if Held(data, id).Some? {
      var _ := FoundAt(data.items, id);
    }
    if Buried(data, id).Some? {
      var _ := GraveFoundAt(data.tombstones, id);
    }
  }

  // ---- the guarantees -------------------------------------------------

  /** `home` still holds the credential, and the next push carries it. */
  predicate KeptAt(key: Key, original: Item, after: VaultData, since: nat, home: Uuid) {
    && Held(after, home).Some? && Held(after, home).value.id == home
    && SameCredential(original, Held(after, home).value)
    && (home == original.id ==> Held(after, home).value == original)
    && ItemRecord(key, Held(after, home).value) in Outgoing(key, after, since)
  }

  /** Local edits win against any server.  Whatever the page holds, an item changed since the last
      sync is still held with its content, under its own id or a copy's, and is pushed. */
  lemma LocalEditsWin(key: Key, st: Applied, page: seq<SyncItem>, since: nat, now: nat, ids: seq<Uuid>, id: Uuid)
    requires Ready(key, st.data, page, ids)
    requires Held(st.data, id).Some? && Held(st.data, id).value.updatedAt > since
    ensures var original := Held(st.data, id).value;
            var after := ApplyPage(key, st, page, since, now, ids).data;
            || KeptAt(key, original, after, since, id)
            || exists i :: 0 <= i < |ids| && KeptAt(key, original, after, since, ids[i])
  {
    var after := ApplyPage(key, st, page, since, now, ids).data;
    assert page[..|page|] == page;
    assert after == Upto(key, st, page, since, now, ids, |page|);
    PagePrefix(key, st, page, since, now, ids, |page|);
    var where := EditSurvives(key, st, page, since, now, ids, id, |page|);
    OutgoingExactly(key, after, since);
    var home := if where.None? then id else ids[where.value];
    assert Changed(SlotOf(after, home), since)
        && SlotRecord(key, SlotOf(after, home)) == ItemRecord(key, Held(after, home).value);
    SlotIds(st.data, id);
    CopiesKeepContent(Held(st.data, id).value, home);
    assert home != id ==> home == ids[where.value];
    assert where.Some? ==> SlotOf(st.data, home) == Slot(None, None);
    assert KeptAt(key, Held(st.data, id).value, after, since, home);
  }

  /** Local deletions win against any server.  Whatever the page holds, an id deleted since the last
      sync stays deleted and is pushed with a proof that opens, as long as its record is inside the
      retention window and has room behind it for the deletions the page proves. */
  lemma LocalDeletionsWin(key: Key, st: Applied, page: seq<SyncItem>, since: nat, now: nat, ids: seq<Uuid>, k: nat)
    requires Ready(key, st.data, page, ids)
    requires k < |st.data.tombstones| && st.data.tombstones[k].deletedAt > since
    requires Remembered(st.data.tombstones[k], now)
    requires |Unexpired(st.data.tombstones[k + 1..], now)| + Deletions(key, page) < TOMBSTONE_CAPACITY
    ensures var mine, after := st.data.tombstones[k], ApplyPage(key, st, page, since, now, ids).data;
            && SlotOf(after, mine.id) == Slot(None, Some(mine))
            && DeletionRecord(key, mine) in Outgoing(key, after, since)
            && ProvenDeletion(key, mine.id, DeletionRecord(key, mine)) == Some(mine)
  {
    var mine, after := st.data.tombstones[k], ApplyPage(key, st, page, since, now, ids).data;
    GraveAt(st.data.tombstones, k);
    LastsAt(st.data.tombstones, k, now, Deletions(key, page));
    assert Held(st.data, mine.id).None? || Buried(st.data, mine.id).None?;
    assert SlotOf(st.data, mine.id) == Slot(None, Some(mine));
    TakeAll(page);
    hide ApplyPage, Lasts, Deletions, SlotOf, Unexpired;
    PagePrefix(key, st, page, since, now, ids, |page|);
    DeletionStands(key, st, page, since, now, ids, mine.id, |page|, 0);
    OutgoingExactly(key, after, since);
  }

  /** Everything ever sealed under the vault key for the server came from `seal_item` or
      `seal_deletion`. */
  ghost predicate Honest(key: Key, sealedEver: set<Sealed<Plain>>) {
    forall s :: s in sealedEver && s.Sealed? && s.key == key ==>
      || (exists item: Item :: s == SealItem(key, item))
      || (exists grave: Tombstone :: s == SealDeletion(key, grave))
  }

  /** The server cannot make a sealed value under the vault key, only repeat one. */
  ghost predicate Unforged(key: Key, sealedEver: set<Sealed<Plain>>, page: seq<SyncItem>) {
    forall k :: 0 <= k < |page| ==>
      && (page[k].ciphertext.Some? && page[k].ciphertext.value.Sealed? && page[k].ciphertext.value.key == key ==>
            page[k].ciphertext.value in sealedEver)
      && (page[k].proof.Some? && page[k].proof.value.Sealed? && page[k].proof.value.key == key ==>
            page[k].proof.value in sealedEver)
  }

  /** What opens as an item for an id is that item, whichever record carried it. */
  lemma UnforgedIsGenuine(key: Key, sealedEver: set<Sealed<Plain>>, page: seq<SyncItem>)
    requires Honest(key, sealedEver) && Unforged(key, sealedEver, page)
    ensures GenuinePage(key, page)
  {
    forall k | 0 <= k < |page| ensures Genuine(key, page[k]) {
      if page[k].id.Canonical? && DecodeItem(key, page[k].id.id, page[k]).Some? {
        var s := page[k].ciphertext.value;
        assert s in sealedEver && s.aad == ItemAad(page[k].id.id);
      }
    }
  }

  /** No unproven removal.  An id held before and gone after was unchanged here since the last
      sync, and the page holds a deleted record for it whose proof a key holder sealed for it. */
  lemma NoUnprovenRemoval(key: Key, sealedEver: set<Sealed<Plain>>, st: Applied, page: seq<SyncItem>, since: nat,
                          now: nat, ids: seq<Uuid>, id: Uuid)
    requires Consistent(st.data) && FreshIds(st.data, page, ids)
    requires Honest(key, sealedEver) && Unforged(key, sealedEver, page)
    requires Held(st.data, id).Some? && Held(ApplyPage(key, st, page, since, now, ids).data, id).None?
    ensures Held(st.data, id).value.updatedAt <= since
    ensures exists k, at: nat :: 0 <= k < |page| && page[k].id == Canonical(id) && page[k].deleted
              && page[k].proof == Some(SealDeletion(key, Tombstone(id, at))) && page[k].proof.value in sealedEver
  {
    UnforgedIsGenuine(key, sealedEver, page);
    assert page[..|page|] == page;
    if Held(st.data, id).value.updatedAt > since {
      var _ := EditSurvives(key, st, page, since, now, ids, id, |page|);
    }
    var k := GoneWasProven(key, st, page, since, now, ids, id, |page|);
    ProvenExactly(key, id, page[k]);
    var at := ProvenDeletion(key, id, page[k]).value.deletedAt;
    assert ProvenDeletion(key, id, page[k]).value == Tombstone(id, at);
  }

  // ---- the one way a local deletion is lost ---------------------------

  /** The record takes an item away: it proves the deletion of one held here and unchanged since the last
      sync. */
  predicate Removes(key: Key, data: VaultData, record: SyncItem, since: nat) {
    && ProvesDeletion(key, record)
    && Held(data, record.id.id).Some? && Held(data, record.id.id).value.updatedAt <= since
  }

  function Removals(key: Key, data: VaultData, page: seq<SyncItem>, since: nat): nat {
    if page == [] then 0
    else Removals(key, data, page[..|page| - 1], since) + if Removes(key, data, page[|page| - 1], since) then 1 else 0
  }

  lemma RemovalsStep(key: Key, data: VaultData, page: seq<SyncItem>, since: nat, k: nat)
    requires k < |page|
    ensures Removals(key, data, page[..k + 1], since)
            == Removals(key, data, page[..k], since) + if Removes(key, data, page[k], since) then 1 else 0
  {
    TakeTake(page, k, k + 1);
  }

  /** The record brings back an id whose deletion the last sync had settled. */
  predicate Revives(data: VaultData, record: SyncItem, since: nat) {
    record.id.Canonical? && !record.deleted
    && Buried(data, record.id.id).Some? && Buried(data, record.id.id).value.deletedAt <= since
  }

  /** Each id is named once, and none is brought back. */
  ghost predicate OneEachNoneRevived(data: VaultData, page: seq<SyncItem>, since: nat) {
    && (forall i, j :: 0 <= i < j < |page| ==> page[i].id != page[j].id)
    && (forall i :: 0 <= i < |page| ==> !Revives(data, page[i], since))
  }

  /** What record `k` finds under its own id. */
  lemma FindsItsId(key: Key, st: Applied, page: seq<SyncItem>, since: nat, now: nat, ids: seq<Uuid>, k: nat)
    requires Ready(key, st.data, page, ids) && OneEachNoneRevived(st.data, page, since) && k < |page|
    ensures var was := Upto(key, st, page, since, now, ids, k);
            && (Removes(key, was, page[k], since) <==> Removes(key, st.data, page[k], since))
            && !Revives(was, page[k], since)
  {
    hide Upto;
    PagePrefix(key, st, page, since, now, ids, k);
    if page[k].id.Canonical? {
      var was, id := Upto(key, st, page, since, now, ids, k), page[k].id.id;
      forall i | 0 <= i < k ensures page[i].id != Canonical(id) && ids[i] != id {
        DrawnIsNew(key, st.data, page, ids, i);
      }
      assert Thins(SlotOf(st.data, id), SlotOf(was, id));
      assert SlotOf(was, id) == Slot(Held(was, id), Buried(was, id));
      assert SlotOf(st.data, id) == Slot(Held(st.data, id), Buried(st.data, id));
    }
  }

  /** A record that neither removes nor revives leaves the remembered deletions as they are. */
  lemma NoPlaceTaken(key: Key, st: Applied, record: SyncItem, since: nat, now: nat, copyId: Uuid)
    requires Consistent(st.data) && Genuine(key, record) && FreshFor(st.data, record, copyId)
    requires !Removes(key, st.data, record, since) && !Revives(st.data, record, since)
    ensures ApplyRecord(key, st, record, since, now, copyId).data.tombstones == st.data.tombstones
  {
    var graves := st.data.tombstones;
    assert Buried(st.data, copyId) == SlotOf(st.data, copyId).grave;
    WithoutAbsent(graves, copyId);
    if record.id.Canonical? && Buried(st.data, record.id.id).None? {
      WithoutAbsent(graves, record.id.id);
    }
    hide Find, FindGrave, WithoutGrave, Consistent;
  }

  /** One record takes one place behind a deletion when it removes, and none otherwise. */
  lemma RecordTakesPlaces(key: Key, st: Applied, record: SyncItem, since: nat, now: nat, copyId: Uuid, id: Uuid,
                          extra: nat)
    requires Consistent(st.data) && Genuine(key, record) && FreshFor(st.data, record, copyId)
    requires !Revives(st.data, record, since)
    requires Removes(key, st.data, record, since) ==> record.id != Canonical(id)
    ensures var after := ApplyRecord(key, st, record, since, now, copyId).data;
            var place := if Removes(key, st.data, record, since) then 1 else 0;
            && (Lasts(after.tombstones, id, now, extra) <==> Lasts(st.data.tombstones, id, now, extra + place))
            && Buried(after, id)
               == if place == 0 || Lasts(st.data.tombstones, id, now, 1) then Buried(st.data, id) else None
  {
    if Removes(key, st.data, record, since) {
      var gone := record.id.id;
      assert ApplyRecord(key, st, record, since, now, copyId).data == Removed(st.data, gone, now);
      assert Buried(st.data, gone).None?;
      WithoutAbsent(st.data.tombstones, gone);
      hide ApplyRecord, Lasts;
      RemovedGrave(st.data.tombstones, gone, now, id, extra);
    } else {
      hide Lasts;
      NoPlaceTaken(key, st, record, since, now, copyId);
    }
  }

  /** So after a prefix a deletion has one place fewer behind it for each removal, or is forgotten. */
  lemma {:induction false} AfterRemovals(key: Key, st: Applied, page: seq<SyncItem>, since: nat, now: nat,
                                         ids: seq<Uuid>, id: Uuid, k: nat, extra: nat)
    requires Ready(key, st.data, page, ids) && OneEachNoneRevived(st.data, page, since) && k <= |page|
    requires Held(st.data, id).None?
    ensures var data, n := Upto(key, st, page, since, now, ids, k), Removals(key, st.data, page[..k], since);
            && (Lasts(data.tombstones, id, now, extra) <==> Lasts(st.data.tombstones, id, now, extra + n))
            && Buried(data, id)
               == if n == 0 || Lasts(st.data.tombstones, id, now, n) then Buried(st.data, id) else None
  {
    hide ApplyPage, ApplyRecord, Lasts, Consistent, Held, Buried, ProvenDeletion, Ready, FreshIds, GenuinePage,
      OneEachNoneRevived, Revives, Genuine, FreshFor, Removals;
    ReadyDraws(key, st.data, page, ids);
    if k == 0 {
      NoRemovals(key, st, page, since, now, ids);
    } else {
      RemovalsStep(key, st.data, page, since, k - 1);
      var place := if Removes(key, st.data, page[k - 1], since) then 1 else 0;
      AfterRemovals(key, st, page, since, now, ids, id, k - 1, extra + place);
      AfterRemovals(key, st, page, since, now, ids, id, k - 1, 1);
      FindsItsId(key, st, page, since, now, ids, k - 1);
      PageMeets(key, st, page, since, now, ids, k - 1);
      UptoStep(key, st, page, since, now, ids, k - 1);
      var mid := ApplyPage(key, st, page[..k - 1], since, now, ids);
      RecordTakesPlaces(key, mid, page[k - 1], since, now, ids[k - 1], id, extra);
      var n := Removals(key, st.data, page[..k - 1], since);
      if Lasts(st.data.tombstones, id, now, n + 1) {
        LastsLess(st.data.tombstones, id, now, n + 1, n);
      }
    }
  }

  lemma NoRemovals(key: Key, st: Applied, page: seq<SyncItem>, since: nat, now: nat, ids: seq<Uuid>)
    requires |page| <= |ids|
    ensures Upto(key, st, page, since, now, ids, 0) == st.data && Removals(key, st.data, page[..0], since) == 0
  {
    assert page[..0] == [];
  }

  /** The bound on remembered deletions is the one way a local deletion is lost.  For a page naming each
      id once and bringing none back, with `n` of its records removing an item, a deletion made here since
      the last sync is still pushed exactly when nothing is removed or the deletion is inside the retention
      window with fewer than the capacity less `n` remembered deletions after it: a full vault forgets its
      oldest ones, sent or not. */
  lemma DeletionPushedExactlyWhenRoom(key: Key, st: Applied, page: seq<SyncItem>, since: nat, now: nat,
                                      ids: seq<Uuid>, k: nat)
    requires Ready(key, st.data, page, ids) && OneEachNoneRevived(st.data, page, since)
    requires k < |st.data.tombstones| && st.data.tombstones[k].deletedAt > since
    ensures var mine, n := st.data.tombstones[k], Removals(key, st.data, page, since);
            DeletionRecord(key, mine) in Outgoing(key, ApplyPage(key, st, page, since, now, ids).data, since)
            <==> || n == 0
                 || (Remembered(mine, now)
                     && |Unexpired(st.data.tombstones[k + 1..], now)| + n < TOMBSTONE_CAPACITY)
  {
    var mine, n := st.data.tombstones[k], Removals(key, st.data, page, since);
    var after := ApplyPage(key, st, page, since, now, ids).data;
    GraveAt(st.data.tombstones, k);
    LastsAt(st.data.tombstones, k, now, n);
    assert Held(st.data, mine.id).None? || Buried(st.data, mine.id).None?;
    TakeAll(page);
    hide ApplyPage, Lasts, OneEachNoneRevived, Removals;
    PagePrefix(key, st, page, since, now, ids, |page|);
    AfterRemovals(key, st, page, since, now, ids, mine.id, |page|, 0);
    PushedWhileBuried(key, after, since, mine);
  }

  lemma PushedWhileBuried(key: Key, data: VaultData, since: nat, grave: Tombstone)
    requires Consistent(data) && grave.deletedAt > since
    requires Buried(data, grave.id).Some? ==> Buried(data, grave.id) == Some(grave)
    ensures DeletionRecord(key, grave) in Outgoing(key, data, since) <==> Buried(data, grave.id).Some?
  {
    OutgoingExactly(key, data, since);
    if Buried(data, grave.id).Some? {
      assert Changed(SlotOf(data, grave.id), since);
    }
  }

  /** The `n`th of many ids. */
  function Numbered(n: nat): Uuid {
    BigEndian(n, 16)
  }

  lemma NumberedPins(a: nat, b: nat)
    requires a <= TOMBSTONE_CAPACITY && b <= TOMBSTONE_CAPACITY
    ensures Numbered(a) == Numbered(b) <==> a == b
  {
    assert Powers.Pow(256, 2) == 65536;
    WidePower(14);
    BigEndianPins(a, b, 16);
  }

  lemma {:induction false} WidePower(n: nat)
    ensures Powers.Pow(256, n + 2) >= 65536
  {
    if n > 0 { WidePower(n - 1); } else { assert Powers.Pow(256, 2) == 65536; }
  }

  /** `n` deletions made in the first second. */
  function FirstDeletions(n: nat): seq<Tombstone> {
    if n == 0 then [] else FirstDeletions(n - 1) + [Tombstone(Numbered(n - 1), 1)]
  }

  lemma {:induction false} FirstDeletionsStand(n: nat, id: Uuid)
    requires n <= TOMBSTONE_CAPACITY
    requires forall m :: 0 <= m < n ==> Numbered(m) != id
    ensures |FirstDeletions(n)| == n && DistinctGraves(FirstDeletions(n))
    ensures FindGrave(FirstDeletions(n), id).None?
    ensures forall k :: 0 <= k < n ==> FirstDeletions(n)[k] == Tombstone(Numbered(k), 1)
  {
    if n > 0 {
      FirstDeletionsStand(n - 1, id);
      forall m | 0 <= m < n - 1 ensures Numbered(m) != Numbered(n - 1) {
        NumberedPins(m, n - 1);
      }
      FirstDeletionsStand(n - 1, Numbered(n - 1));
      var last := Tombstone(Numbered(n - 1), 1);
      GraveAppended(FirstDeletions(n - 1), last, last.id);
      GraveAppended(FirstDeletions(n - 1), last, id);
    }
  }

  lemma {:induction false} UnexpiredAll(graves: seq<Tombstone>, now: nat)
    requires forall k :: 0 <= k < |graves| ==> Remembered(graves[k], now)
    ensures Unexpired(graves, now) == graves
  {
    if graves != [] {
      UnexpiredAll(graves[1..], now);
    }
  }

  /** A machine with `n` unsent deletions and one item. */
  function Crowded(n: nat): VaultData {
    VaultData([Item(Numbered(n), "", "", None, [], 0)], [], FirstDeletions(n), Some(SyncState(0, 0)))
  }

  /** A vault full of remembered deletions forgets its oldest one for any removal. */
  lemma FullVaultForgets(key: Key, st: Applied, gone: Tombstone, since: nat, now: nat, copyId: Uuid)
    requires Consistent(st.data) && SlotOf(st.data, copyId) == Slot(None, None)
    requires Held(st.data, gone.id).Some? && Held(st.data, gone.id).value.updatedAt <= since
    requires st.data.tombstones != [] && |Unexpired(st.data.tombstones[1..], now)| == TOMBSTONE_CAPACITY - 1
    requires st.data.tombstones[0].deletedAt > since
    ensures var oldest := DeletionRecord(key, st.data.tombstones[0]);
            && oldest in Outgoing(key, st.data, since)
            && oldest !in Outgoing(key, ApplyPage(key, st, [DeletionRecord(key, gone)], since, now, [copyId]).data,
                                   since)
  {
    var page, oldest := [DeletionRecord(key, gone)], st.data.tombstones[0];
    assert Removes(key, st.data, page[0], since);
    assert page[..0] == [] && page[..1] == page;
    GraveAt(st.data.tombstones, 0);
    hide Outgoing, ApplyPage, Removes;
    RemovalsStep(key, st.data, page, since, 0);
    PushedWhileBuried(key, st.data, since, oldest);
    DeletionPushedExactlyWhenRoom(key, st, page, since, now, [copyId], 0);
  }

  /** An input that loses one, with 5,000 deletions waiting: the item's deletion arrives, and the oldest
      of them, which would have been pushed, is pushed no more. */
  lemma FullVaultLosesADeletion(key: Key, copyId: Uuid, n: nat)
    requires n == TOMBSTONE_CAPACITY && SlotOf(Crowded(n), copyId) == Slot(None, None)
    ensures var st, page := Applied(Crowded(n), SyncReport(0, 0, 0, 0, 0)),
        [DeletionRecord(key, Tombstone(Numbered(n), 1))];
            var oldest := DeletionRecord(key, Tombstone(Numbered(0), 1));
            && oldest in Outgoing(key, st.data, 0)
            && oldest !in Outgoing(key, ApplyPage(key, st, page, 0, 2, [copyId]).data, 0)
  {
    CrowdedStands(n, 2);
    hide FirstDeletions, Numbered, Outgoing, ApplyPage, DeletionRecord;
    FullVaultForgets(key, Applied(Crowded(n), SyncReport(0, 0, 0, 0, 0)), Tombstone(Numbered(n), 1), 0, 2, copyId);
  }

  lemma CrowdedStands(n: nat, now: nat)
    requires 0 < n <= TOMBSTONE_CAPACITY && now == 2
    ensures var data := Crowded(n);
            && Consistent(data) && Held(data, Numbered(n)) == Some(data.items[0])
            && |data.tombstones| == n && data.tombstones[0] == Tombstone(Numbered(0), 1)
            && |Unexpired(data.tombstones[1..], now)| == n - 1
  {
    hide Numbered;
    forall m | 0 <= m < n ensures Numbered(m) != Numbered(n) {
      NumberedPins(m, n);
    }
    FirstDeletionsStand(n, Numbered(n));
    OneItemConsistent(Crowded(n), Numbered(n));
    UnexpiredAll(Crowded(n).tombstones[1..], now);
  }

  lemma OneItemConsistent(data: VaultData, id: Uuid)
    requires |data.items| == 1 && data.items[0].id == id
    requires DistinctGraves(data.tombstones) && FindGrave(data.tombstones, id).None?
    ensures Consistent(data) && Held(data, id) == Some(data.items[0])
  {
    assert data.items[1..] == [];
    forall other: Uuid ensures Held(data, other).None? || Buried(data, other).None? {
      assert Find(data.items[1..], other).None?;
    }
  }

  /** A deletion taken from another machine becomes this machine's own until a push succeeds.  If
      the push after it fails, `since` stays, the applied deletion is stamped after it, and a live
      record that arrives next - an edit that outranked the deletion elsewhere - is not taken but
      pushed over as deleted. */
  lemma AppliedDeletionOutlivesAFailedPush(key: Key, st: Applied, record: SyncItem, later: SyncItem, gone: Uuid,
                                           since: nat, now: nat, next: nat, copyId: Uuid)
    requires Consistent(st.data) && now > since
    requires record.id == Canonical(gone) && ProvenDeletion(key, gone, record).Some?
    requires Held(st.data, gone).Some? && Held(st.data, gone).value.updatedAt <= since
    requires later.id == Canonical(gone) && !later.deleted && Genuine(key, later)
    ensures var applied := ApplyRecord(key, st, record, since, now, copyId);
            var after := ApplyRecord(key, applied, later, since, next, copyId).data;
            && SlotOf(after, gone) == Slot(None, Some(Tombstone(gone, now)))
            && DeletionRecord(key, Tombstone(gone, now)) in Outgoing(key, after, since)
  {
    RemovedEffect(st.data, gone, now);
    var applied := ApplyRecord(key, st, record, since, now, copyId);
    assert applied.data == Removed(st.data, gone, now);
    assert ApplyRecord(key, applied, later, since, next, copyId) == applied;
    OutgoingExactly(key, applied.data, since);
    assert Changed(SlotOf(applied.data, gone), since);
  }
}
