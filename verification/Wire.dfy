/** The records that travel, and the proof that a deletion was ordered by a key holder. */
module Wire {
  import opened Crypto
  import opened Vault
  import opened UnlockedVaults

  /** An id as the server spells it: some spelling of a uuid, or text that is not one. */
  datatype WireId = Canonical(id: Uuid) | Text(text: string)

  datatype SyncItem = SyncItem(id: WireId, revision: int, ciphertext: Option<Sealed<Plain>>, deleted: bool,
                               proof: Option<Sealed<Plain>>)

  datatype Page = Page(revision: int, items: seq<SyncItem>)

  function SealProof(key: Key, tombstone: Tombstone): Sealed<Plain> {
    SealDeletion(key, tombstone)
  }

  function ProvenDeletion(key: Key, id: Uuid, record: SyncItem): Option<Tombstone> {
    if !record.deleted || record.proof.None? then None
    else
      var r := OpenDeletion(key, id, record.proof.value);
      if r.Ok? then Some(r.value) else None
  }

  /** The item a record carries, or none for a tombstone or an unreadable body. */
  function DecodeItem(key: Key, id: Uuid, record: SyncItem): Option<Item> {
    if record.ciphertext.None? then None
    else
      var r := OpenItem(key, id, record.ciphertext.value);
      if r.Ok? then Some(r.value) else None
  }

  function DeletionRecord(key: Key, tombstone: Tombstone): SyncItem {
    SyncItem(Canonical(tombstone.id), 0, None, true, Some(SealProof(key, tombstone)))
  }

  function ItemRecord(key: Key, item: Item): SyncItem {
    SyncItem(Canonical(item.id), 0, Some(SealItem(key, item)), false, None)
  }

  /** A record proves a deletion exactly when it claims one and carries what `seal_deletion` makes
      of a tombstone for that very id under that very key. */
  lemma ProvenExactly(key: Key, id: Uuid, record: SyncItem)
    ensures ProvenDeletion(key, id, record).Some?
            <==> record.deleted && exists at: nat :: record.proof == Some(SealDeletion(key, Tombstone(id, at)))
    ensures ProvenDeletion(key, id, record).Some? ==>
              && ProvenDeletion(key, id, record).value.id == id
              && record.proof == Some(SealDeletion(key, ProvenDeletion(key, id, record).value))
  {
    if ProvenDeletion(key, id, record).Some? {
      var grave := ProvenDeletion(key, id, record).value;
      assert grave == Tombstone(id, grave.deletedAt);
    }
    forall at: nat | record.proof == Some(SealDeletion(key, Tombstone(id, at)))
      ensures OpenDeletion(key, id, record.proof.value) == Ok(Tombstone(id, at))
    {
    }
  }

  /** What travels is read as what was sent, by a holder of the key and under its own id, and as nothing by
      or under any other. */
  lemma RecordsRoundTrip(key: Key, other: Key, id: Uuid, item: Item, grave: Tombstone)
    ensures var sent := ItemRecord(key, item);
            && sent.id == Canonical(item.id) && sent.revision == 0 && !sent.deleted
            && ProvenDeletion(other, id, sent).None?
            && DecodeItem(other, id, sent) == if other == key && id == item.id then Some(item) else None
    ensures var sent := DeletionRecord(key, grave);
            && sent.id == Canonical(grave.id) && sent.revision == 0 && sent.deleted
            && DecodeItem(other, id, sent).None?
            && ProvenDeletion(other, id, sent) == if other == key && id == grave.id then Some(grave) else None
  {
    SealedOpensOnlyAsItself(key, item, grave, other, id);
  }
}
