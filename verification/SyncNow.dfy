/** The reconciliation itself, step by step over the open vault. */
module SyncNow {
  import opened Crypto
  import opened Vault
  import opened UnlockedVaults
  import opened Merge
  import opened Wire
  import opened Sync

  datatype Failure = NotSyncing | PullFailed | PushFailed | SaveFailed

  datatype Outcome = Synced(report: SyncReport) | Failed(failure: Failure)

  /** A push as it goes out: the revision it was made against, and the records. */
  datatype Sent = Nothing | Sent(expected: int, records: seq<SyncItem>)

  const EMPTY_REPORT := SyncReport(0, 0, 0, 0, 0)

  /** The vault after a page applied within one second. */
  function Pulled(key: Key, data: VaultData, page: Page, now: nat, ids: seq<Uuid>): Applied
    requires data.sync.Some? && |page.items| <= |ids|
  {
    ApplyPage(key, Applied(data, EMPTY_REPORT.(revision := page.revision)), page.items,
              data.sync.value.lastSyncedAt, now, ids)
  }

  /** The vault once a sync has finished at `revision`. */
  function Finished(data: VaultData, revision: int, end: nat): VaultData {
    data.(sync := Some(SyncState(revision, end)))
  }

  /** `pull` and `reply` are what the server answers and `ids` what the random source returns; `nows[k]`
      is the clock at record `k` of the page and `end` when the sync finishes.  A missing answer is any failure
      to get one, a refusal included.  `saved` says whether the closing save succeeds: the vault has moved on
      by then either way. */
  method SyncNow(vault: UnlockedVault, pull: Option<Page>, reply: Option<int>, nows: seq<nat>, end: nat,
                 ids: seq<Uuid>, saved: bool)
    returns (r: Outcome, sent: Sent)
    requires pull.Some? ==> |pull.value.items| <= |ids| && |pull.value.items| <= |nows|
    modifies vault`data
    ensures old(vault.data).sync.None? ==> r == Failed(NotSyncing) && sent == Nothing && vault.data == old(vault.data)
    ensures old(vault.data).sync.Some? && pull.None? ==>
        r == Failed(PullFailed) && sent == Nothing && vault.data == old(vault.data)
    ensures old(vault.data).sync.Some? && pull.Some? ==>
              var key, since := vault.vaultKey, old(vault.data).sync.value.lastSyncedAt;
              var start := Applied(old(vault.data), EMPTY_REPORT.(revision := pull.value.revision));
              var applied := ApplyOver(key, start, pull.value.items, since, nows, ids);
              var out := Outgoing(key, applied.data, since);
              && sent == (if out == [] then Nothing else Sent(pull.value.revision, out))
              && (out == [] ==> r == (if saved then Synced(applied.report.(revision := pull.value.revision))
                                      else Failed(SaveFailed))
                                && vault.data == Finished(applied.data, pull.value.revision, end))
              && (out != [] && reply.None? ==> r == Failed(PushFailed) && vault.data == applied.data)
              && (out != [] && reply.Some? ==>
                    && r == (if saved then Synced(applied.report.(pushed := |out|, revision := reply.value))
                            else Failed(SaveFailed))
                    && vault.data == Finished(applied.data, reply.value, end))
  {
    sent := Nothing;
    if vault.data.sync.None? {
      return Failed(NotSyncing), sent;
    }
    var sync := vault.data.sync.value;
    if pull.None? {
      return Failed(PullFailed), sent;
    }
    var page, key := pull.value, vault.vaultKey;
    var report := EMPTY_REPORT.(revision := page.revision);
    ghost var start := Applied(vault.data, report);
    for k := 0 to |page.items|
      invariant Applied(vault.data, report) == ApplyOver(key, start, page.items[..k], sync.lastSyncedAt, nows, ids)
    {
      assert page.items[..k + 1][..k] == page.items[..k];
      report := Decide(vault, page.items[k], sync.lastSyncedAt, nows[k], ids[k], report);
    }
    assert page.items[..|page.items|] == page.items;
    SyncIsKept(key, start, page.items, sync.lastSyncedAt, nows, ids);

    var outgoing := Outgoing(key, vault.data, sync.lastSyncedAt);
    var revision := page.revision;
    if outgoing != [] {
      sent := Sent(page.revision, outgoing);
      if reply.None? {
        return Failed(PushFailed), sent;
      }
      revision := reply.value;
      report := report.(pushed := |outgoing|);
    }
    report := report.(revision := revision);
    if vault.data.sync.Some? {
      vault.SetSyncState(Some(vault.data.sync.value.(lastRevision := revision, lastSyncedAt := end)));
    }
    if !saved {
      return Failed(SaveFailed), sent;
    }
    r := Synced(report);
  }

  /** One turn of the loop. */
  method Decide(vault: UnlockedVault, record: SyncItem, since: nat, now: nat, copyId: Uuid, report: SyncReport)
    returns (after: SyncReport)
    modifies vault`data
    ensures Applied(vault.data, after)
            == ApplyRecord(vault.vaultKey, Applied(old(vault.data), report), record, since, now, copyId)
  {
    after := report;
    if record.id.Text? {
      return;
    }
    var id, key := record.id.id, vault.vaultKey;
    var proof := ProvenDeletion(key, id, record);
    if record.deleted && proof.None? {
      return after.(unprovenDeletes := after.unprovenDeletes + 1);
    }
    var remote := DecodeItem(key, id, record);
    match Reconcile(LocalOf(vault.data, id), RemoteOf(key, id, record), since)
    case ApplyRemote =>
      if remote.Some? {
        vault.Upsert(remote.value);
        after := after.(pulled := after.pulled + 1);
      }
    case ApplyDelete =>
      var _ := vault.Remove(id, now);
      after := after.(pulled := after.pulled + 1);
    case KeepLocal =>
    case Conflict(remoteWins) =>
      after := after.(conflicts := after.conflicts + 1);
      if remote.Some? {
        if remoteWins {
          var mine := vault.Get(id);
          if mine.Some? {
            vault.Upsert(OurCopy(mine.value, copyId));
          }
          vault.Upsert(remote.value);
        } else {
          vault.Upsert(TheirCopy(remote.value, copyId));
        }
        after := after.(pulled := after.pulled + 1);
      }
  }

  lemma {:induction false} SyncIsKept(key: Key, st: Applied, page: seq<SyncItem>, since: nat, nows: seq<nat>,
                                      ids: seq<Uuid>)
    requires |page| <= |ids| && |page| <= |nows|
    ensures ApplyOver(key, st, page, since, nows, ids).data.sync == st.data.sync
  {
    if page != [] {
      SyncIsKept(key, st, page[..|page| - 1], since, nows, ids);
    }
  }
}
