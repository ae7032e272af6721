# yara: a verified model

yara is a password manager.  Its vault is a file under envelope encryption, several machines keep
copies of one account through a server that is trusted with nothing, and a broker hands single
credentials to local programs with the user's consent.  This project models the parts of it where a
mistake costs a credential, and proves what they promise.

- **Synchronisation.**  `Vault`, `UnlockedVault`, `Merge`, `Wire`, `Sync`, `SyncNow` and `Store` are
  the two ends of the protocol: the open vault, the decision for one record, the step a device takes,
  and the table the server keeps.  `SyncGuarantees` says what one reconciliation promises whatever
  page the server answers with.  `SyncWorld` is any number of devices with refused, lost and
  half-lost pushes, `SyncRun` interleaves them and proves agreement; `Convergence` proves that two rounds of syncs suffice, and
  `SyncLimits` what happens outside those promises.
- **Files.**  `Disk` is a directory one system call at a time, where every call may fail and any two
  may have a power cut between them.  `VaultFiles` is saving and recovering one vault; `Profiles` is
  removing one for good, a small write-ahead protocol whose commit is the rename of the registry.
- **The broker.**  `Grants` is the store of standing permissions, `Broker` the machine of interleaved
  requests and its invariants, `BrokerRuns` what it keeps over whole runs, `BrokerActions` the same in
  terms of what the user answered and what was done, `Transport` the object whose methods are the steps
  of that machine.
  `Redact` is what becomes of a child's output.
- **Arithmetic and codecs.**  `RandomIndex`, `Shuffle` and `Generate` are password generation,
  `RecoveryKit` the printed secret key, `Totp` one-time codes, `Nonces` and `RateLimit` the server's
  two gates; `Picks` says which passwords generation makes and with what weight; `Text`, `ByteOrder`
  and `Sequences` are what they share.

Cryptography is ideal.  A sealed value carries the key, associated data and plaintext it was made from
and opens under that key and data only; derived keys carry what they were derived from; the server can
repeat what was sealed and make nothing new.  Clocks, random bytes and the network's answers are
parameters.

Operations that change an object in the program are methods of a class here, each proved to leave
exactly the state a function of the old state gives; the theorems are about those functions.  Verify
with `dafny verify dfyconfig.toml`.

Where a promise does not hold in general, lemmas say exactly when it does and give inputs for which it
does not:

- A delta misses the purge of a row the client holds, and a pull misses what is pushed between its two
  reads (`Stores.PurgeBreaksDeltas`, `Stores.PurgeLosesADeletion`, `Stores.TornPullExactly`,
  `Stores.OnePushTearsAPull`).
- An unsent deletion is lost when the list of remembered ones is full
  (`SyncGuarantees.DeletionPushedExactlyWhenRoom`, `SyncGuarantees.FullVaultLosesADeletion`).
- A grant approved while the vault was locking can outlive the lock, which the source means to rule
  out, and so can an older one when the vault opens again before the grants are dropped
  (`BrokerRuns.ReuseAfterUnlock`, `BrokerRuns.AnswerUnderLockOutlivesIt`, `BrokerRuns.UnlockBeforeForgetReuses`).
- A request stamped in the server's future can be accepted again (`Nonces.ReplayableExactly`,
  `Nonces.FutureStampReplays`).  The cache's own documentation says an entry older than the window can
  never be accepted again; it can for such a request.
- Characters of a recovery kit wider than eight bits are cut, not refused
  (`RecoveryKit.AcceptedIsCanonical`, `RecoveryKit.WideCharactersAreCut`).
- A secret that the marker or the notice spells, alone or with the text beside it, is not gone
  (`Redact.GoneFromEveryOutputExactly`, `Redact.ClosingBracketLeaks`, `Redact.OpeningBracketLeaks`).
- A push whose answer is lost comes back as copies of the device's own items
  (`SyncLimits.LostAnswerDoubles`), and an edit in the second of a sync is never pushed
  (`SyncLimits.SameSecondEditIsOverlooked`, `SyncLimits.AnEditIsOverlooked`).
- The broker's budget relies on answers of at least one use (`BrokerRuns.ZeroUsesIsOverBudget`).

## Model

| member | source | states |
|---|---|---|
| `SyncRun.Agreement` | apps/desktop/src-tauri/src/sync.rs:237-421 | in every run of local changes, reopenings, pulls, pushes, refused pushes, lost answers and purges of the server's old tombstones, over any number of devices, right after a successful sync its device agrees with the server on every id stored: that item held for a live record, nothing held for a deleted one |
| `Convergence.TwoRoundsConverge` | apps/desktop/src-tauri/src/sync.rs:237-421 | from any reachable state with no sync under way and no further local changes, two rounds in which every device completes a sync and none fails, interleaved in any way, leave all devices in agreement with the server and with each other on every id stored |
| `Convergence.EchoChangesNothing` | apps/desktop/src-tauri/src/sync.rs:354-407 | while no device has a change of its own, no pull or push changes the content of any id on the server |
| `Convergence.CompletedStaysQuiet` | apps/desktop/src-tauri/src/sync.rs:400-417 | once a device has completed a sync in a round, it has nothing to push whenever it is at rest |
| `Convergence.AgreementLasts` | apps/desktop/src-tauri/src/sync.rs:237-421 | in a round begun with nothing to push anywhere, a device that has completed a sync goes on agreeing with the server whenever it is at rest |
| `SyncRun.StepKeeps` | apps/desktop/src-tauri/src/sync.rs:237-421 | every step keeps the invariant: each row up to a device's last revision is matched on that device or was changed there after its last sync |
| `SyncWorld.PullMatches` | apps/desktop/src-tauri/src/sync.rs:265-352 | after the page is applied every row on the server is matched here or was changed here |
| `SyncWorld.PushMatches` | crates/yara-sync/src/store.rs:535-603 | an accepted push leaves every row on the server matched by the device that pushed |
| `SyncRun.PushFailsKeeps` | apps/desktop/src-tauri/src/sync.rs:400-407 | a push that never arrives, or arrives and whose answer is lost, keeps the invariant too |
| `SyncRun.ReopenKeeps` | crates/yara-core/src/vault.rs:600-605 | opening a vault again, which forgets expired deletions, keeps the invariant as long as no unsent one is forgotten |
| `SyncRun.PurgeKeeps` | crates/yara-sync/src/store.rs:609-614 | a purge of old tombstones on the server keeps the invariant on every device |
| `SyncWorld.RowSettles` | apps/desktop/src-tauri/src/sync.rs:265-352 | what a page leaves of an id the server stores matches its row or is a change made here, even when deletions the server knows of are forgotten on the way |
| `SyncLimits.LostAnswerDoubles` | apps/desktop/src-tauri/src/sync.rs:323-350 | after an accepted push whose answer is lost, the device's next sync meets each item the push carried as a conflict at equal stamps and puts an "(other machine)" copy of it beside it, which is in the push that follows |
| `SyncLimits.OwnItemIsDoubled` | apps/desktop/src-tauri/src/sync.rs:323-350 | the same for any item a device still counts as changed and finds unchanged on the server above its last revision |
| `SyncLimits.SameSecondEditIsOverlooked` | crates/yara-sync-client/src/merge.rs:126-132 | in every run, an edit stamped in the very second a sync completed leaves the device with nothing to push and at odds with the server |
| `SyncLimits.OverlookedStays` | apps/desktop/src-tauri/src/sync.rs:400-417 | and every later sync on an unchanged server completes, sends nothing and leaves it so |
| `SyncLimits.AnEditIsOverlooked` | crates/yara-sync-client/src/merge.rs:126-132 | a run that does it: an item added, synced and edited in one second |
| `SyncGuarantees.LocalEditsWin` | crates/yara-sync-client/src/merge.rs:75-118 | for every page, of any length, an item changed since the last sync is held afterwards, untouched under its own id or under a copy's with the same body, folder, tags and stamp and its name or that and " (this machine)", and is in the push |
| `SyncGuarantees.ConflictLosesNeither` | apps/desktop/src-tauri/src/sync.rs:323-350 | when both sides changed an item both versions are held afterwards: the strictly newer under the id, on a tie the one here; the other beside it with every field but its id and its name, which says whose it is |
| `Convergence.QuietSettles` | crates/yara-sync-client/src/merge.rs:106-110 | where this machine has been quiet the record is taken as it is, a proven deletion included, and no copy is made |
| `SyncGuarantees.LocalDeletionsWin` | crates/yara-sync-client/src/merge.rs:99-105 | for every page, a deletion made since the last sync stands and is pushed with a proof that opens, if it is inside the retention window with room behind it for the deletions the page proves; live records take no room, and nothing is asked of other deletions |
| `SyncGuarantees.NoUnprovenRemoval` | crates/yara-sync-client/src/deletes.rs:43-53 | for every page, of any length, that a server without the key can make, an id held before and gone after was unchanged here, and the page held a deletion proof sealed for that id under that key |
| `SyncGuarantees.UnforgedIsGenuine` | crates/yara-core/src/vault.rs:856-864 | a server that can only repeat sealed values cannot file one item under another id |
| `SyncGuarantees.DeletionPushedExactlyWhenRoom` | crates/yara-core/src/vault.rs:1058-1069 | for a page of any records that names each id once and brings none back, n of them removing an item, an unsent deletion is still pushed if and only if n is 0 or it is in the retention window with fewer than 5,000 less n remembered ones after it |
| `SyncGuarantees.FullVaultForgets` | crates/yara-core/src/vault.rs:1058-1069 | in a vault full of remembered deletions any removal makes the oldest, pushed otherwise, go unpushed |
| `SyncGuarantees.FullVaultLosesADeletion` | crates/yara-core/src/vault.rs:1058-1069 | an input that loses one: 5,000 unsent deletions and one proven deletion arriving |
| `SyncGuarantees.AppliedDeletionOutlivesAFailedPush` | apps/desktop/src-tauri/src/sync.rs:315-321 | a deletion applied from a pull whose push then fails counts as this machine's own, and is pushed over a live record that arrives next |
| `SyncGuarantees.OutgoingExactly` | apps/desktop/src-tauri/src/sync.rs:358-398 | a push holds exactly one record for each id changed since the last sync: the sealed item or a tombstone with a proof |
| `SyncGuarantees.ToPushExactly` | crates/yara-sync-client/src/merge.rs:126-132 | exactly the records changed strictly after the last sync, each id once |
| `SyncGuarantees.PageStep` | apps/desktop/src-tauri/src/sync.rs:266-352 | one record changes the id it names and the id drawn for a copy; of any other id it can only make the vault forget a deletion |
| `SyncGuarantees.PagePrefix` | apps/desktop/src-tauri/src/sync.rs:266-352 | of an id a page neither names nor draws for a copy at most a deletion is forgotten, and the vault stays consistent |
| `Sync.ApplyRecordEffect` | apps/desktop/src-tauri/src/sync.rs:305-351 | the effect of one decision on every id of the vault at once |
| `Sync.ApplyRecordRoom` | crates/yara-core/src/vault.rs:1044-1069 | a deletion with room behind it is not forgotten; a proven deletion takes one place behind it and any other record none |
| `Sync.ReportExactly` | apps/desktop/src-tauri/src/sync.rs:272-352 | what the report counts for one record: unproven deletions, conflicts, and what was pulled |
| `Sync.ApplyWithinASecond` | apps/desktop/src-tauri/src/sync.rs:265-352 | a page applied while the clock stands still is the page applied at that time |
| `SyncNow.SyncNow` | apps/desktop/src-tauri/src/sync.rs:237-417 | the whole step: errors, the page applied in order, what is sent against which revision, when the sync state advances, and that a failing save comes after it |
| `SyncNow.Decide` | apps/desktop/src-tauri/src/sync.rs:266-352 | one turn of the loop over the open vault equals the decision as a function |
| `Wire.ProvenExactly` | crates/yara-sync-client/src/deletes.rs:43-53 | a record proves a deletion if and only if it claims one and carries what sealing a tombstone for that id under that key makes |
| `Wire.RecordsRoundTrip` | crates/yara-sync-client/src/deletes.rs:31-53 | a record is read as what was sent by a holder of the key and under its own id, and as nothing otherwise; an item never reads as a deletion nor a deletion as an item |
| `Stores.DeltaEqualsFullState` | crates/yara-sync/src/store.rs:507-527 | after any sequence of pushes, accepted or refused, laying the delta over the older table gives the current table |
| `Stores.PurgeBreaksDeltas` | crates/yara-sync/src/store.rs:609-614 | after a purge the same holds if and only if no purged row was in the older table |
| `Stores.PurgeLosesADeletion` | crates/yara-sync/src/store.rs:609-614 | a row that breaks it: live when the client saw it, deleted and then purged |
| `Stores.TornPullExactly` | crates/yara-sync/src/api.rs:579-585 | reading records first and the revision after gives the table of the revision told if and only if no push in between wrote a record |
| `Stores.OnePushTearsAPull` | crates/yara-sync/src/api.rs:579-585 | one push between the two reads that breaks it |
| `Stores.MissedUntilRewritten` | crates/yara-sync/src/api.rs:579-585 | a record written in between appears in a later delta above that revision only once it has been written again |
| `Stores.RevisionCountsPushes` | crates/yara-sync/src/store.rs:535-603 | the revision counts accepted pushes, record revisions lie in 1..=revision, deleted rows hold no body and live rows no proof |
| `Stores.OldRowsStand` | crates/yara-sync/src/store.rs:535-603 | rows at or below an older revision are as they were then, and no row disappears by pushing |
| `Stores.UpsertsAt` | crates/yara-sync/src/store.rs:560-594 | after a batch every id has the row of the last record naming it, or the row it had |
| `Stores.PushWrites` | crates/yara-sync/src/store.rs:535-603 | a push against the current revision takes the next one and gives each id it names the revision, the server's clock, and the body or the proof of its last record for it; no other row changes; against any other revision nothing does |
| `Stores.Store.PushItems` | crates/yara-sync/src/store.rs:535-603 | one transaction: refused pushes change nothing and report the current revision, accepted ones write the batch and advance by one |
| `Stores.Store.ItemsSince` | crates/yara-sync/src/store.rs:508-527 | every row above the revision exactly once, field by field, by revision and by id within one; nothing for an unknown account |
| `Stores.Store.PurgeTombstones` | crates/yara-sync/src/store.rs:609-614 | in every account a row goes if and only if it is deleted and was last written before the cut; the other rows and the revision stay |
| `Vault.UpsertedEffect` | crates/yara-core/src/vault.rs:870-880 | upsert sets exactly one id, in its place or at the end, and un-deletes it; folders and sync state stay |
| `Vault.RemovedEffect` | crates/yara-core/src/vault.rs:1021-1050 | remove takes exactly one id out, the others closing up, and records when; another deletion is forgotten exactly when it has no room behind it; folders and sync state stay |
| `Vault.AddedEffect` | crates/yara-core/src/vault.rs:890-898 | add under a new id adds exactly that id |
| `Vault.PrunedExactly` | crates/yara-core/src/vault.rs:1058-1069 | a deletion survives pruning if and only if it was made in the last ninety days and fewer than five thousand of that age follow it |
| `Vault.PrunedAt` | crates/yara-core/src/vault.rs:1058-1069 | what pruning leaves of one deletion, and that the room behind it stays |
| `UnlockedVaults.SealedOpensOnlyAsItself` | crates/yara-core/src/vault.rs:842-864 | a sealed item or proof opens under its own key and id only, and neither ever opens as the other |
| `Crypto.AadsAreSeparate` | crates/yara-core/src/vault.rs:394-399 | no item's associated data is any deletion's, and a deletion's names exactly one id |
| `UnlockedVaults.MigrationKeepsEverything` | crates/yara-core/src/vault.rs:463-480 | an item without a folder is filed under its first tag, tags go, nothing else of any item changes, existing folders keep their order, deletions and sync state stay, and a second pass changes nothing |
| `UnlockedVaults.MigrationAddsFolders` | crates/yara-core/src/vault.rs:463-480 | the folders added are new, named by an item, and in the order the items first name them |
| `UnlockedVaults.EnvelopeSurvivesRuns` | crates/yara-core/src/vault.rs:536-714 | after any run of edits, password changes and adoptions, failed ones included, the sealed file opens with the password last set to the contents last edited in (migrated and pruned) and the key last adopted, and with no other password; no cost axis ever drops |
| `UnlockedVaults.OpensExactly` | crates/yara-core/src/vault.rs:567-606 | a file opens if and only if its format, algorithm, cost and salt are acceptable and both sealed parts open under the very header they were sealed with; each refusal has its error |
| `UnlockedVaults.ReopenedEffect` | crates/yara-core/src/vault.rs:600-605 | opening migrates and forgets exactly the deletions older than ninety days or with five thousand of that age after them |
| `UnlockedVaults.RunStaysWrapped` | crates/yara-core/src/vault.rs:642-714 | along a run the vault key stays wrapped under the password last set; the contents are those of the last edit and the key the one last adopted with the password of the time |
| `UnlockedVaults.PasswordChangeUpgrades` | crates/yara-core/src/vault.rs:1103-1116 | a password change keeps key and contents, takes the new salt, and sets the derivation cost to the defaults unless the vault already beats them on some axis, when it stays |
| `UnlockedVaults.AdoptionChecksThePassword` | crates/yara-core/src/vault.rs:696-714 | a key is adopted if and only if it has 32 bytes and the password is the current one; contents and header never change, and otherwise nothing does |
| `UnlockedVaults.UnlockedVault.CreateWithParams` | crates/yara-core/src/vault.rs:536-561 | a new empty vault, or the error for parameters out of range |
| `UnlockedVaults.UnlockedVault.Open` | crates/yara-core/src/vault.rs:567-606 | the checks in their order, then both decryptions, migration and expiry |
| `UnlockedVaults.UnlockedVault.Upsert` | crates/yara-core/src/vault.rs:870-880 | the new contents |
| `UnlockedVaults.UnlockedVault.Add` | crates/yara-core/src/vault.rs:890-898 | the new contents and the item's id |
| `UnlockedVaults.UnlockedVault.Remove` | crates/yara-core/src/vault.rs:1021-1032 | the item and the new contents, or an error and no change |
| `UnlockedVaults.UnlockedVault.RecordTombstone` | crates/yara-core/src/vault.rs:1044-1050 | one record per id, newest last, then pruned |
| `UnlockedVaults.UnlockedVault.PruneTombstones` | crates/yara-core/src/vault.rs:1058-1069 | expired deletions and then the oldest beyond the capacity go |
| `UnlockedVaults.UnlockedVault.MigrateTagsIntoFolders` | crates/yara-core/src/vault.rs:463-480 | both loops together equal the migration as a function |
| `UnlockedVaults.UnlockedVault.Seal` | crates/yara-core/src/vault.rs:609-628 | the file opens with the password the key is wrapped under, to this state as opening migrates and prunes it, and with no other |
| `UnlockedVaults.UnlockedVault.ChangePassword` | crates/yara-core/src/vault.rs:642-674 | re-wraps the same vault key under a new header, never a weaker one |
| `UnlockedVaults.UnlockedVault.AdoptVaultKey` | crates/yara-core/src/vault.rs:696-714 | re-wraps an account's key, or leaves every field alone |
| `Profiles.RemovalIsAtomic` | apps/desktop/src-tauri/src/state.rs:292-373 | from any moment of a removal, through any number of power cuts and interrupted restarts, a completed restart leaves the profile registered with exactly its files or gone with none of them, every other file as it was |
| `Profiles.CrashKeepsBetween` | apps/desktop/src-tauri/src/state.rs:300-373 | a power cut at any moment leaves a state a restart can finish or undo |
| `Profiles.LoadedSays` | apps/desktop/src-tauri/src/state.rs:701-721 | what a restart loads names the profile if and only if the removal had not been committed; the legacy upgrade never brings a removed vault back |
| `Profiles.LoadedExactly` | apps/desktop/src-tauri/src/state.rs:701-790 | what starting up reads: the profiles in their order, after the legacy vault as the one called Personal if a file of it is left and no profile names it, and the selection if it names one of them |
| `Profiles.ReconciledKeeps` | apps/desktop/src-tauri/src/state.rs:107-137 | clearing one tombstone keeps the removal recoverable and on the same side of its commit |
| `Profiles.SettledIsAllOrNothing` | apps/desktop/src-tauri/src/state.rs:107-137 | with no tombstone left the removal has happened completely or not at all |
| `Profiles.CommitUnregisters` | apps/desktop/src-tauri/src/state.rs:345-348 | the committed registry lacks exactly the removed profile, the others in their order, and is deselected only if that one was selected |
| `Profiles.AppState.RemoveProfile` | apps/desktop/src-tauri/src/state.rs:300-373 | nothing happens while a vault is open or unless the name was typed in full; every moment of it, rollback included, is recoverable; memory and disk agree; success means all of it is gone, and nothing but a failing call prevents it |
| `Profiles.AppState.RollBack` | apps/desktop/src-tauri/src/state.rs:101-105 | moves back newest first, staying recoverable at every step |
| `Profiles.AppState.WriteRegistry` | apps/desktop/src-tauri/src/state.rs:575-580 | the rename is the commit: before it nothing is committed, after it everything is |
| `Profiles.AppState.StageAll` | apps/desktop/src-tauri/src/state.rs:316-343 | moves every part that is there aside, or undoes what it moved |
| `Profiles.AppState.DropAll` | apps/desktop/src-tauri/src/state.rs:361-366 | removes what was moved aside and says whether all of it went |
| `Profiles.AppState.Restart` | apps/desktop/src-tauri/src/state.rs:172-184 | loads the registry and finishes or undoes an interrupted removal; without a failed call the result is all or nothing |
| `VaultFiles.PersistAt` | apps/desktop/src-tauri/src/state.rs:678-698 | at every step the live path holds a complete vault, the old one or the new one; a finished save leaves the previous contents in the backup and no temporary file; it finishes unless a call fails |
| `VaultFiles.CrashLeavesAVault` | apps/desktop/src-tauri/src/state.rs:663-698 | so a power cut at any of those steps starts up locked with one of the two |
| `VaultFiles.RecoverVault` | apps/desktop/src-tauri/src/state.rs:591-608 | installs only a copy that was read and parses, the temporary file before the backup, and disturbs neither |
| `VaultFiles.ACopyIsNeverSetup` | apps/desktop/src-tauri/src/state.rs:75-83 | while a durable copy exists no power cut makes the start look like a first run |
| `VaultFiles.SetupExactly` | apps/desktop/src-tauri/src/state.rs:75-83 | only a directory with none of a vault's three files looks like a first run |
| `Disks.Disk.WriteDurably` | apps/desktop/src-tauri/src/state.rs:144-148 | every step touches that path only, and success means the bytes are on the disk |
| `BrokerRuns.BudgetIsConserved` | crates/yara-broker/src/transport.rs:208-301 | over every interleaving the actions authorised since the last clear never exceed the uses the user's answers gave, and no grant is charged past its own |
| `BrokerRuns.ReuseStaysWithinApproval` | crates/yara-broker/src/grant.rs:207-222 | every unprompted action matches an earlier approval: the same item and field, the very command, arguments and directory, a program at the same path but for the case of ASCII letters; it falls within the time the answer gave and discloses nothing |
| `BrokerRuns.NoStoredGrantDiscloses` | crates/yara-broker/src/transport.rs:354-403 | whenever the lock is free no stored grant authorises a disclosure, to anyone, at any time |
| `BrokerRuns.GrantsUnderLockAreInFlight` | crates/yara-broker/src/transport.rs:273-287 | while the vault is locked and the grants have been dropped, a stored grant was approved since and its request is still in flight; with none in flight the store is empty |
| `BrokerRuns.EmptyAtUnlockExactly` | crates/yara-broker/src/transport.rs:272-287 | an unlock finds the store empty if and only if no request in flight still has its grant there |
| `BrokerRuns.ReuseAfterUnlock` | crates/yara-broker/src/transport.rs:272-287 | after any unlock, and until the grants are dropped, an unprompted action rests on an approval given since or on a grant the unlock found stored; if the lock had dropped the grants, on one whose request was in flight at the unlock |
| `BrokerRuns.RevokedIsNotReused` | crates/yara-broker/src/transport.rs:141-148 | no unprompted action rests on a grant the user has revoked, unless that id was approved anew |
| `BrokerRuns.UnlockBeforeForgetReuses` | crates/yara-broker/src/transport.rs:155-162 | the stored one happens: a run in which the vault opens again before the grants are dropped and a grant of before the lock is used unprompted |
| `BrokerRuns.AnswerUnderLockOutlivesIt` | crates/yara-broker/src/transport.rs:272-287 | the second way happens: a run in which a prompt answered under the lock leaves a grant that is used unprompted after the unlock |
| `BrokerRuns.ZeroUsesIsOverBudget` | crates/yara-broker/src/transport.rs:364-403 | the budget needs answers of at least one use: an answer of none still lets one request through |
| `BrokerActions.ActionsStayWithinAnswers` | crates/yara-broker/src/transport.rs:208-411 | in every run, through locks, revocations and clearings, the requests dispatched are at most the uses the answers gave: as many as the answer says for what discloses nothing, and one otherwise |
| `BrokerActions.EveryActionWasAllowed` | crates/yara-broker/src/transport.rs:208-411 | in every run each request dispatched was answered itself, or was looked up within the time of an earlier answer for the same use, with no clearing of the grants in between |
| `BrokerActions.LookUpReusesExactly` | crates/yara-broker/src/transport.rs:234-246 | a lookup spares the prompt if and only if a stored grant serves the request |
| `BrokerActions.LookUpStores` | crates/yara-broker/src/transport.rs:234-246 | a lookup drops what is past its deadline or spent, charges at most one grant, and changes nothing else |
| `BrokerActions.AnswerStores` | crates/yara-broker/src/transport.rs:330-411 | a refusal stores nothing; an approval one more grant, which its request may already have charged; what is past its deadline or spent goes and nothing else |
| `BrokerActions.GrantOfAnswer` | crates/yara-broker/src/transport.rs:364-393 | the grant of an answer carries the request's item, field, program and terms, and the uses and seconds the answer gives |
| `Brokers.StepKeeps` | crates/yara-broker/src/transport.rs:208-411 | every step of the machine keeps budget, non-disclosure, traceability and the lock rule |
| `Brokers.IssueBudget` | crates/yara-broker/src/transport.rs:393-405 | storing an approval, charging it and pruning adds no more uses than were approved, even when an older grant is the one charged |
| `Brokers.IssueHides` | crates/yara-broker/src/transport.rs:354-403 | an approval of a disclosure is spent and pruned in the same hold of the lock, or belongs to a client nobody can match |
| `Brokers.InterfaceIsSensible` | apps/desktop/src-tauri/src/broker.rs:325-335 | every answer the interface can give grants at least one use and between one minute and an hour |
| `Brokers.InterfaceExactly` | apps/desktop/src-tauri/src/broker.rs:325-335 | what each answer of the interface means, default and limits included |
| `Transport.Broker.Begin` | crates/yara-broker/src/transport.rs:208-211 | a request starts only while the vault is unlocked |
| `Transport.Broker.SetUnlocked` | apps/desktop/src-tauri/src/state.rs:617-632 | locking and unlocking as steps of the machine, apart from the clearing of grants |
| `Transport.Broker.LookUp` | crates/yara-broker/src/transport.rs:234-246 | prune and redeem as one step of the machine, on the object |
| `Transport.Broker.Settle` | crates/yara-broker/src/transport.rs:330-411 | the decision narrowed, the grant issued, this request charged and the store pruned, as one step |
| `Transport.Broker.Dispatch` | crates/yara-broker/src/transport.rs:303-310 | the second look at the lock |
| `Transport.Broker.TakeBack` | crates/yara-broker/src/transport.rs:272-287 | a request that found the vault locked revokes its own grant |
| `Transport.Broker.Revoke` | crates/yara-broker/src/transport.rs:141-148 | revocation by the user, and whether there was such a grant |
| `Transport.Broker.ForgetGrants` | crates/yara-broker/src/transport.rs:155-162 | every grant goes, also when the call comes only after the next unlock |
| `Grants.RedeemedChargesOne` | crates/yara-broker/src/grant.rs:245-260 | a redemption charges exactly one use to a matching grant, or changes nothing |
| `Grants.LiveCostsNothing` | crates/yara-broker/src/grant.rs:268-270 | pruning never adds to what is left to spend |
| `Grants.LiveSplits` | crates/yara-broker/src/grant.rs:268-270 | pruning decides grant by grant and keeps their order |
| `Grants.LiveOne` | crates/yara-broker/src/grant.rs:268-270 | a grant stays while it is before its deadline with uses left |
| `Grants.AuthorisesExactly` | crates/yara-broker/src/grant.rs:207-222 | a grant serves a request if and only if it is before its deadline with uses left, for the same item and field, the very command, arguments and directory or a disclosure for a disclosure, and both programs are known with paths equal but for the case of ASCII letters |
| `Grants.NewGrantExactly` | crates/yara-broker/src/grant.rs:148-175 | a new grant carries the request's terms and the uses given, none spent, and lasts the seconds given |
| `Grants.GrantStore.Redeem` | crates/yara-broker/src/grant.rs:245-260 | the first grant that serves the request has one more use and is named, and every other stays; or there is none and nothing changes |
| `Grants.GrantStore.Prune` | crates/yara-broker/src/grant.rs:268-270 | a grant stays if and only if it is live, and the order stays |
| `Grants.GrantStore.Revoke` | crates/yara-broker/src/grant.rs:272-276 | exactly the grants with that id go, and the answer says whether there were any |
| `Redact.GoneFromEveryOutputExactly` | crates/yara-broker/src/transport.rs:478-521 | any secret is gone from every output if and only if it has at least six bytes and neither the marker nor the notice spells it, whole or with the text beside; over all bytes, and over well-formed text for a well-formed secret |
| `Redact.PlainSecretsAreGone` | crates/yara-broker/src/transport.rs:478-521 | so a secret of at least six bytes without brackets and line breaks is gone if and only if neither of the two texts holds it |
| `Redact.ClosingBracketLeaks` | crates/yara-broker/src/transport.rs:478-506 | an input that leaks: `]abcdef` |
| `Redact.OpeningBracketLeaks` | crates/yara-broker/src/transport.rs:478-506 | another: `abcdef[` |
| `Redact.OnlyTheSecretIsReplaced` | crates/yara-broker/src/transport.rs:495-506 | the redacted text is the original with every occurrence replaced and every stretch in between as it was |
| `Redact.CleanedIsUtf8` | crates/yara-broker/src/transport.rs:508-521 | well-formed text stays well formed through replacement and cut, and its length is bounded |
| `Redact.CutKeepsNearlyAll` | crates/yara-broker/src/transport.rs:513-517 | the cut falls on a character boundary at most three bytes below the limit |
| `Redact.TextsRead` | crates/yara-broker/src/transport.rs:478-486 | the marker and the notice as they read |
| `Redact.ReplaceRemoves` | crates/yara-broker/src/transport.rs:499-503 | no occurrence survives the replacement or is created by it, unless the marker's ends help to spell one |
| `Redact.Truncate` | crates/yara-broker/src/transport.rs:508-521 | short text unchanged; otherwise the longest prefix up to the limit that ends on a character boundary, and the notice |
| `Redact.Clean` | crates/yara-broker/src/transport.rs:495-506 | replacement first, then the cut |
| `Shuffles.EveryArrangementHasEqualWeight` | crates/yara-core/src/generate.rs:126-129 | the accepted bytes whose streams shuffle distinct elements into a given arrangement are equally many for every arrangement |
| `Shuffles.StreamDraws` | crates/yara-core/src/generate.rs:63-76 | a stream draws the choices its accepted bytes stand for, whatever refused bytes lie between |
| `Shuffles.DrawsStream` | crates/yara-core/src/generate.rs:63-76 | and every completed draw comes from such a stream |
| `Shuffles.ChoicesAndArrangementsCorrespond` | crates/yara-core/src/generate.rs:126-129 | choice vectors and arrangements correspond one to one |
| `Shuffles.EveryArrangementIsReached` | crates/yara-core/src/generate.rs:126-129 | every permutation is the result of some choices |
| `Shuffles.NoArrangementIsReachedTwice` | crates/yara-core/src/generate.rs:126-129 | of distinct elements, by one vector of choices only |
| `Shuffles.ShuffleKeepsContents` | crates/yara-core/src/generate.rs:126-129 | the shuffle permutes |
| `Shuffles.ShuffleInPlace` | crates/yara-core/src/generate.rs:126-129 | the descending swap loop on the array, with each index drawn when needed, equals the shuffle as a function |
| `RandomIndex.EveryIndexHasEqualWeight` | crates/yara-core/src/generate.rs:63-76 | every index is drawn from the same number of accepted bytes, 256 / len |
| `RandomIndex.DrawsFirstAcceptable` | crates/yara-core/src/generate.rs:68-74 | a draw takes the first byte below the limit and none after it |
| `RandomIndex.WaitsForAcceptable` | crates/yara-core/src/generate.rs:68-75 | a draw goes on waiting if and only if no byte is acceptable |
| `RandomIndex.RandomBytes.Index` | crates/yara-core/src/generate.rs:63-76 | none for a length outside a byte's range, else the drawn index and what is left of the bytes |
| `RandomIndex.RandomBytes.Next` | crates/yara-core/src/generate.rs:52-60 | the next byte; refilling the buffer is invisible |
| `Generate.PasswordMeetsRecipe` | crates/yara-core/src/generate.rs:86-135 | every password has the length asked for, shows every enabled class and nothing else |
| `Generate.EveryEnabledClassShows` | crates/yara-core/src/generate.rs:116-119 | each class the recipe enables shows in the password |
| `Generate.NothingFromADisabledClass` | crates/yara-core/src/generate.rs:97-109 | the classes do not overlap, so a character of a class means the class is enabled |
| `Picks.EveryPositionIsFair` | crates/yara-core/src/generate.rs:110-124 | before the shuffle each position is drawn from the same number of accepted bytes for every character that may stand there: the letters of its class for the first few, and for the others every enabled character, 256 divided by how many they are |
| `Picks.EveryTextHasEqualWeight` | crates/yara-core/src/generate.rs:110-124 | every text that shows the enabled classes in order and then any enabled characters is drawn by the same number of byte vectors, and no other text by any |
| `Picks.EveryOrderHasEqualWeight` | crates/yara-core/src/generate.rs:126-129 | and every order of its places is then as likely as every other, whatever characters stand there |
| `Generate.Generate` | crates/yara-core/src/generate.rs:87-135 | each refusal with its condition, else the password the random bytes make |
| `RecoveryKit.RoundTrip` | crates/yara-core/src/account.rs:82-129 | printing and reading back is the identity on a key if and only if it fits 128 bits |
| `RecoveryKit.KitExactly` | crates/yara-core/src/account.rs:79-98 | the printed kit character by character: 26 base-31 digits from the alphabet, highest first, in groups of five |
| `RecoveryKit.TypingIsForgiven` | crates/yara-core/src/account.rs:104-109 | hyphens, white space and case anywhere in a kit do not change what it reads as |
| `RecoveryKit.ReadsExactly` | crates/yara-core/src/account.rs:104-129 | a kit reads as a key if and only if its cleaned bytes are that key's canonical spelling |
| `RecoveryKit.AcceptsExactlySpellings` | crates/yara-core/src/account.rs:104-129 | for kits of narrow characters, ASCII among them, acceptance is decided by the stripped lower-case text alone |
| `RecoveryKit.AcceptedIsCanonical` | crates/yara-core/src/account.rs:105-109 | an accepted kit is the canonical spelling up to case, hyphens and white space if and only if no character had to be cut to eight bits |
| `RecoveryKit.WideCharactersAreCut` | crates/yara-core/src/account.rs:108-108 | twenty-six times U+0161 reads as the key zero |
| `RecoveryKit.WidthSuffices` | crates/yara-core/src/account.rs:79-88 | 26 base-31 digits hold every 128-bit key |
| `RecoveryKit.PrintKit` | crates/yara-core/src/account.rs:82-98 | the digit loop equals the printed form |
| `RecoveryKit.ReadKit` | crates/yara-core/src/account.rs:115-128 | the checked loop accepts exactly what fits: no representable kit is refused on the way |
| `Totp.VerifyAt` | crates/yara-core/src/totp.rs:179-206 | the errors in their order; otherwise true if and only if the trimmed code is that of some counter within the skew |
| `Totp.VerdictExactly` | crates/yara-core/src/totp.rs:179-206 | each error with its condition in their order, and otherwise whether some counter within the skew of the time has the trimmed code |
| `Totp.GeneratedExactly` | crates/yara-core/src/totp.rs:139-163 | the code generated or the error, each error with its condition |
| `Totp.TrimmedExactly` | crates/yara-core/src/totp.rs:179-206 | trimming takes white space off both ends, all of it, and nothing else |
| `Totp.GeneratedVerifies` | crates/yara-core/src/totp.rs:139-206 | a generated code, with white space around it, verifies whenever the steps differ by at most the skew |
| `Totp.CodeSpellsResidue` | crates/yara-core/src/totp.rs:325-327 | every code has exactly the configured number of decimal digits and spells the truncated digest modulo that power of ten, so two counters share a code if and only if their residues agree |
| `Totp.PowersOfTen` | crates/yara-core/src/totp.rs:325-327 | the moduli of six to ten figures |
| `Totp.TruncatedIsLast31Bits` | crates/yara-core/src/totp.rs:318-323 | the offset stays inside the digest and the result is the last 31 bits of the four bytes there (section 5.3 of RFC 4226) |
| `Totp.FormattingIsForgiven` | crates/yara-core/src/totp.rs:117-136 | white space, hyphens, padding and case anywhere in a secret do not change the key |
| `Totp.PlainSecretsStand` | crates/yara-core/src/totp.rs:117-136 | a secret of base-32 letters is taken as it is |
| `Totp.CountersAreSeparate` | crates/yara-core/src/totp.rs:311-311 | different counters are different messages |
| `Totp.CountdownIsExact` | crates/yara-core/src/totp.rs:158-163 | the code stays for exactly the seconds told and is then the next counter's (section 4.2 of RFC 6238) |
| `Nonces.AcceptedOnce` | crates/yara-sync/src/auth.rs:150-187 | over every run whose clock does not go back, a nonce is accepted again only under a timestamp later than the clock of its first acceptance |
| `Nonces.AcceptedExactly` | crates/yara-sync/src/auth.rs:145-187 | over every run whose clock does not go back, a request is accepted if and only if it is well formed, within sixty seconds of the clock and signed by the key's holder over its canonical text, and no such request used its nonce in the sixty seconds before |
| `Nonces.ReplayableExactly` | crates/yara-sync/src/auth.rs:118-127 | an accepted request can be accepted again if and only if it was stamped after the clock that accepted it |
| `Nonces.FutureStampReplays` | crates/yara-sync/src/auth.rs:118-127 | a run that does it: stamped one second ahead, accepted, and accepted again sixty-one seconds later |
| `Nonces.RemembersOnlyTheWindow` | crates/yara-sync/src/auth.rs:124-127 | the cache holds nothing older than the skew |
| `Nonces.CanonicalReads` | crates/yara-sync/src/auth.rs:74-92 | what is signed: method, path, time in decimal, nonce and the body's hash in hexadecimal, a line each |
| `Nonces.HexExactly` | crates/yara-sync/src/auth.rs:74-92 | two lower-case hexadecimal figures a byte, the high half first |
| `Nonces.CanonicalPinsEveryField` | crates/yara-sync/src/auth.rs:74-92 | a request of single-line fields has the same signed bytes as another, whatever that one holds, if and only if method, path, timestamp, nonce and body hash agree |
| `Nonces.LineBreaksShiftFields` | crates/yara-sync/src/auth.rs:74-92 | one side must be of single lines: two requests with line breaks can share their bytes (none is received, as method, path and header value hold no line break) |
| `Nonces.Verify` | crates/yara-sync/src/auth.rs:145-187 | accepted if and only if well formed, timely, signed, and its nonce not seen in the last sixty seconds; each refusal with the condition that causes it; a request refused before the nonce step leaves the cache alone |
| `Nonces.NonceCache.Accept` | crates/yara-sync/src/auth.rs:118-122 | records the nonce and renews its time, also on a replay |
| `RateLimit.RateLimiter.Allow` | crates/yara-sync/src/api.rs:93-118 | allowed if and only if the exact call history says so: fewer than twenty earlier calls this minute, the first of them made while there was room; never more than 65,536 tracked |
| `RateLimit.AllowsExactly` | crates/yara-sync/src/api.rs:93-118 | what the history says: fewer than twenty calls of the address in this minute so far and, when the first of them came, fewer than 65,536 addresses |
| `RateLimit.OldCallsAreForgotten` | crates/yara-sync/src/api.rs:93-107 | calls of a minute ago and longer do not count |
| `RateLimit.AtMostFortyInSixtySeconds` | crates/yara-sync/src/api.rs:77-118 | no address is let through more than forty times in any sixty consecutive seconds |
| `RateLimit.FortyIsReached` | crates/yara-sync/src/api.rs:77-118 | and forty is reached |
| `RateLimit.AtMostTwentyAMinute` | crates/yara-sync/src/api.rs:93-107 | at most twenty in any clock minute |

## Left out

- SyncRun.Agreement: assumes a clock shared by all devices that has moved past a device's last sync before it changes anything (`SyncLimits.SameSecondEditIsOverlooked` says what happens otherwise), no local change while its own sync is under way, a pull that reads records and revision at once (`Stores.TornPullExactly` says what happens otherwise), fresh random ids, room for the deletions not yet sent, and a page applied within one second. A vault closed without saving after a failed sync, and a reopening that still has tags to migrate, are not steps.
- Convergence.TwoRoundsConverge: a sync that fails inside a round is excluded; `SyncGuarantees.AppliedDeletionOutlivesAFailedPush` shows a failed one turning another machine's deletion into a change of one's own.
- SyncNow.SyncNow: the device registration and the signing client around it are not part of the step; whether the closing save succeeds is a parameter, and what it writes is `VaultFiles`.
- SyncGuarantees.LocalDeletionsWin: like the other promises about a page, it reads the clock once for the page (`Sync.ApplyWithinASecond` ties that to the loop, which reads it at each record).
- SyncGuarantees.NoUnprovenRemoval: a proof can be an old one the server kept; nothing in the protocol dates a deletion against a later re-creation.
- Stores.Store.ItemsSince: the order of ids as texts is a parameter.
- Stores.Store.PushItems: the table is a map and a transaction is one step; SQL, migrations and pragmas are not modelled.
- UnlockedVaults.UnlockedVault.Open: serialization is not modelled, so a payload is its value and the one parse failure left is a plaintext of the wrong kind.
- UnlockedVaults.UnlockedVault.ChangePassword: the variant with caller-chosen parameters, which may lower the cost, is not modelled.
- Disks.Disk.WriteDurably: names reach the disk in the order they were created, renamed and removed, and only unflushed contents are at risk in a power cut.
- VaultFiles.RecoverVault: a power cut in the middle of a recovery may leave a torn file at the live path; the program makes no promise there.
- VaultFiles.PersistAt: the all-moments promise is for a save over a complete vault already on the disk.
- Profiles.RemovalIsAtomic: starts from a directory without tombstones of an earlier failed cleanup, and from a well-formed registry that the disk and the program agree on; of a file that had not been flushed it promises only that none appears that was not there.
- Profiles.LoadedSays: rebuilding a registry that cannot be read, and dropping records with unusable names, are not modelled.
- Profiles.AppState.Restart: the directory is cleared in an arbitrary order; file names are values built from vault, part and operation rather than strings.
- BrokerRuns.BudgetIsConserved: counts authorisations, also of actions that then fail; assumes answers of at least one use and one second, and a clock below its maximum.
- BrokerRuns.NoStoredGrantDiscloses: which commands count as disclosing is an arbitrary classification; the classifier's own rules are left out.
- Transport.Broker.Settle: a prompt that times out or is dropped is a denial here; the waiting itself, the audit log and the reading of the field are not modelled.
- Redact.Clean: takes the child's output after lossy decoding.
- RandomIndex.RandomBytes.Index: the random supply is finite, so a draw that would go on reading is a draw that waits.
- Shuffles.EveryArrangementHasEqualWeight: counts byte vectors of accepted bytes; that the bytes themselves are uniform is the random source's promise.
- Totp.VerifyAt: the keyed hash and base-32 decoding are parameters; reading and writing `otpauth` addresses is left out.
- Nonces.Verify: the difference of the two timestamps is taken in unbounded integers, where the program subtracts 64-bit ones; base-64, SHA-256 and Ed25519 are parameters.
- RateLimit.RateLimiter.Allow: addresses are numbers; finding the caller's address in the headers is left out.
- Item and folder editing, reordering, search, health scores, import, icons, subscriptions and the audit log: smaller, and nothing above depends on them.
- HTTP, named pipes, windows, the clipboard, process start and identification: calls to code outside the repository.
- Mutex poisoning, wiping of memory and the timing of comparisons.
