/** An open vault: envelope encryption around the contents, and the object that holds both.

    The functions give each operation's effect on the vault's state as a value; the class is the
    object itself, whose methods change its fields and are proved against them. */
module UnlockedVaults {
  import opened Crypto
  import opened Vault

  const SALT_LEN := 32

  /** A vault as it is written to disk. */
  datatype VaultFile = VaultFile(format: nat, kdf: KdfHeader, wrappedKey: Sealed<Plain>, payload: Sealed<Plain>)

  /** The four fields of an open vault. */
  datatype Unlocked = Unlocked(kdf: KdfHeader, wrappedKey: Sealed<Plain>, vaultKey: Key, data: VaultData)

  const EMPTY_DATA := VaultData([], [], [], None)

  // ---- sealing for the server -----------------------------------------

  function SealItem(key: Key, item: Item): Sealed<Plain> {
    Sealed(key, ItemAad(item.id), ItemPlain(item))
  }

  function OpenItem(key: Key, id: Uuid, sealed: Sealed<Plain>): Result<Item> {
    var plain :- Open(key, sealed, ItemAad(id));
    if plain.ItemPlain? then Ok(plain.item) else Err(Malformed)
  }

  function SealDeletion(key: Key, tombstone: Tombstone): Sealed<Plain> {
    Sealed(key, DeletionAad(tombstone.id), TombstonePlain(tombstone))
  }

  function OpenDeletion(key: Key, id: Uuid, sealed: Sealed<Plain>): Result<Tombstone> {
    var plain :- Open(key, sealed, DeletionAad(id));
    if !plain.TombstonePlain? || plain.tombstone.id != id then Err(Malformed) else Ok(plain.tombstone)
  }

  /** A sealed item opens under its own id and key and nothing else; a proof likewise; and neither
      ever opens as the other. */
  lemma SealedOpensOnlyAsItself(key: Key, item: Item, grave: Tombstone, other: Key, id: Uuid)
    ensures OpenItem(other, id, SealItem(key, item)) == if other == key && id == item.id then Ok(item) else Err(Decrypt)
    ensures OpenDeletion(other, id, SealDeletion(key, grave))
            == if other == key && id == grave.id then Ok(grave) else Err(Decrypt)
    ensures OpenItem(other, id, SealDeletion(key, grave)).Err?
    ensures OpenDeletion(other, id, SealItem(key, item)).Err?
  {
    AadsAreSeparate(id, item.id);
    AadsAreSeparate(item.id, id);
    AadsAreSeparate(grave.id, id);
    AadsAreSeparate(id, grave.id);
  }

  // ---- tag migration --------------------------------------------------

  function MigratedItem(item: Item): Item {
    item.(folder := if item.folder.None? && item.tags != [] then Some(item.tags[0]) else item.folder, tags := [])
  }

  function MigratedItems(items: seq<Item>): seq<Item> {
    if items == [] then [] else MigratedItems(items[..|items| - 1]) + [MigratedItem(items[|items| - 1])]
  }

  function WithFolder(folders: seq<string>, folder: Option<string>): seq<string> {
    if folder.None? || folder.value in folders then folders else folders + [folder.value]
  }

  function WithFolders(folders: seq<string>, items: seq<Item>): seq<string> {
    if items == [] then folders
    else WithFolder(WithFolders(folders, items[..|items| - 1]), items[|items| - 1].folder)
  }

  function Migrated(data: VaultData): VaultData {
    var items := MigratedItems(data.items);
    data.(items := items, folders := WithFolders(data.folders, items))
  }

  lemma {:induction false} MigratedItemsAt(items: seq<Item>)
    ensures |MigratedItems(items)| == |items|
    ensures forall k :: 0 <= k < |items| ==> MigratedItems(items)[k] == MigratedItem(items[k])
  {
    if items != [] {
      MigratedItemsAt(items[..|items| - 1]);
    }
  }

  lemma {:induction false} WithFoldersCovers(folders: seq<string>, items: seq<Item>)
    ensures folders <= WithFolders(folders, items)
    ensures forall k :: 0 <= k < |items| && items[k].folder.Some? ==>
        items[k].folder.value in WithFolders(folders, items)
  {
    if items != [] {
      WithFoldersCovers(folders, items[..|items| - 1]);
    }
  }

  lemma {:induction false} WithFoldersNoop(folders: seq<string>, items: seq<Item>)
    requires forall k :: 0 <= k < |items| && items[k].folder.Some? ==> items[k].folder.value in folders
    ensures WithFolders(folders, items) == folders
  {
    if items != [] {
      WithFoldersNoop(folders, items[..|items| - 1]);
    }
  }

  /** Some item names the folder at this place, and no item up to it names one further on. */
  ghost predicate AddedFor(items: seq<Item>, folders: seq<string>, at: nat)
    requires at < |folders|
  {
    exists i :: 0 <= i < |items| && items[i].folder == Some(folders[at])
      && forall b :: at < b < |folders| ==> NamedAfter(items, i, folders[b])
  }

  /** A folder added for an item is added once, when the first item naming it is met. */
  lemma {:induction false} WithFoldersAdds(folders: seq<string>, items: seq<Item>, at: nat)
    requires |folders| <= at < |WithFolders(folders, items)|
    ensures WithFolders(folders, items)[at] !in folders
    ensures AddedFor(items, WithFolders(folders, items), at)
  {
    var before, last := items[..|items| - 1], items[|items| - 1];
    var was, now := WithFolders(folders, before), WithFolders(folders, items);
    WithFoldersCovers(folders, before);
    if at < |was| {
      WithFoldersAdds(folders, before, at);
      var i :| 0 <= i < |before| && before[i].folder == Some(was[at])
        && forall b :: at < b < |was| ==> NamedAfter(before, i, was[b]);
      assert items[i] == before[i];
      forall b | at < b < |now| ensures NamedAfter(items, i, now[b]) {
        if b < |was| {
          assert NamedAfter(before, i, was[b]);
        } else {
          forall j | 0 <= j <= i ensures items[j].folder != Some(now[b]) {
            assert items[j] == before[j];
          }
        }
      }
    } else {
      assert items[|items| - 1].folder == Some(now[at]);
    }
  }

  /** None of the items up to `i` names that folder. */
  predicate NamedAfter(items: seq<Item>, i: nat, folder: string) {
    forall j :: 0 <= j <= i && j < |items| ==> items[j].folder != Some(folder)
  }

  /** Migration files every tagged item under its first tag, keeps the folders and their order, loses no
      item, leaves deletions and sync state alone, and does nothing the second time. */
  lemma MigrationKeepsEverything(data: VaultData)
    ensures |Migrated(data).items| == |data.items| && data.folders <= Migrated(data).folders
    ensures forall k :: 0 <= k < |data.items| ==>
              var was, now := data.items[k], Migrated(data).items[k];
              && now == was.(folder := now.folder, tags := [])
              && (was.folder.Some? ==> now.folder == was.folder)
              && (was.folder.None? && was.tags != [] ==> now.folder == Some(was.tags[0]))
              && (was.folder.None? && was.tags == [] ==> now.folder == None)
              && (now.folder.Some? ==> now.folder.value in Migrated(data).folders)
    ensures Migrated(data).tombstones == data.tombstones && Migrated(data).sync == data.sync
    ensures Migrated(Migrated(data)) == Migrated(data)
  {
    var once := Migrated(data);
    MigratedItemsAt(data.items);
    MigratedItemsAt(once.items);
    WithFoldersCovers(data.folders, once.items);
    assert MigratedItems(once.items) == once.items;
    WithFoldersNoop(once.folders, once.items);
  }

  /** The folders it adds are new, named by an item, and in the order the items first name them. */
  lemma MigrationAddsFolders(data: VaultData, at: nat)
    requires |data.folders| <= at < |Migrated(data).folders|
    ensures Migrated(data).folders[at] !in data.folders
    ensures AddedFor(Migrated(data).items, Migrated(data).folders, at)
  {
    WithFoldersAdds(data.folders, Migrated(data).items, at);
  }

  // ---- the envelope ---------------------------------------------------

  function HeaderAad(kdf: KdfHeader): Aad {
    Header(FORMAT_VERSION, kdf)
  }

  function Upgraded(current: KdfParams): KdfParams {
    if DEFAULT_PARAMS.AtLeastAsStrongAs(current) then DEFAULT_PARAMS else current
  }

  /** Wraps `vaultKey` under a fresh header. */
  function Wrap(password: string, salt: seq<Byte>, params: KdfParams, vaultKey: Key, data: VaultData)
      : Result<Unlocked> {
    if !params.InRange() then Err(DamagedFile) else
    var kdf := KdfHeader(KDF_ALGORITHM, salt, params);
    var master :- DeriveKey(password, salt, params);
    Ok(Unlocked(kdf, Sealed(master, HeaderAad(kdf), KeyPlain(vaultKey)), vaultKey, data))
  }

  function ChangedPassword(u: Unlocked, password: string, salt: seq<Byte>): Result<Unlocked> {
    Wrap(password, salt, Upgraded(u.kdf.params), u.vaultKey, u.data)
  }

  function Adopted(u: Unlocked, password: string, bytes: seq<Byte>): Result<Unlocked> {
    var vaultKey :- KeyFromSlice(bytes);
    var master :- DeriveKey(password, u.kdf.salt, u.kdf.params);
    var _ :- Open(master, u.wrappedKey, HeaderAad(u.kdf));
    Ok(u.(vaultKey := vaultKey, wrappedKey := Sealed(master, HeaderAad(u.kdf), KeyPlain(vaultKey))))
  }

  function SealedFile(u: Unlocked): VaultFile {
    VaultFile(FORMAT_VERSION, u.kdf, u.wrappedKey, Sealed(u.vaultKey, HeaderAad(u.kdf), DataPlain(u.data)))
  }

  function OpenedFile(file: VaultFile, password: string, now: nat): Result<Unlocked> {
    if file.format != FORMAT_VERSION then Err(UnsupportedFormat(file.format))
    else if file.kdf.algorithm != KDF_ALGORITHM then Err(UnsupportedKdf(file.kdf.algorithm))
    else if !file.kdf.params.InRange() then Err(DamagedFile) else
    var aad := Header(file.format, file.kdf);
    var master :- DeriveKey(password, file.kdf.salt, file.kdf.params);
    var keyPlain :- Open(master, file.wrappedKey, aad);
    if !keyPlain.KeyPlain? then Err(Malformed) else
    var dataPlain :- Open(keyPlain.key, file.payload, aad);
    if !dataPlain.DataPlain? then Err(Malformed) else
    Ok(Unlocked(file.kdf, file.wrappedKey, keyPlain.key, Reopened(dataPlain.data, now)))
  }

  /** What opening does to the contents: tags become folders and old deletions expire. */
  function Reopened(data: VaultData, now: nat): VaultData {
    var migrated := Migrated(data);
    migrated.(tombstones := Pruned(migrated.tombstones, now))
  }

  // ---- runs of the envelope -------------------------------------------

  datatype Act =
    | Edit(data: VaultData)
    | ChangePassword(password: string, salt: seq<Byte>)
    | Adopt(password: string, bytes: seq<Byte>)

  /** Salts are drawn at full length. */
  predicate Drawn(act: Act) {
    act.ChangePassword? ==> |act.salt| == SALT_LEN
  }

  function Acted(u: Unlocked, act: Act): Unlocked {
    match act
    case Edit(data) => u.(data := data)
    case ChangePassword(password, salt) =>
      var r := ChangedPassword(u, password, salt);
      if r.Ok? then r.value else u
    case Adopt(password, bytes) =>
      var r := Adopted(u, password, bytes);
      if r.Ok? then r.value else u
  }

  function After(u: Unlocked, acts: seq<Act>): Unlocked {
    if acts == [] then u else Acted(After(u, acts[..|acts| - 1]), acts[|acts| - 1])
  }

  /** The last password anyone set. */
  function PasswordAfter(first: string, acts: seq<Act>): string {
    if acts == [] then first
    else if acts[|acts| - 1].ChangePassword? then acts[|acts| - 1].password
    else PasswordAfter(first, acts[..|acts| - 1])
  }

  /** What was last edited in, or was there at first. */
  function ContentsAfter(first: VaultData, acts: seq<Act>): VaultData {
    if acts == [] then first
    else if acts[|acts| - 1].Edit? then acts[|acts| - 1].data
    else ContentsAfter(first, acts[..|acts| - 1])
  }

  /** The key last adopted with the password of the time, or the first one. */
  function KeyAfter(first: Key, password: string, acts: seq<Act>): Key {
    if acts == [] then first
    else
      var before, last := acts[..|acts| - 1], acts[|acts| - 1];
      if last.Adopt? && |last.bytes| == 32 && last.password == PasswordAfter(password, before) then Raw(last.bytes)
      else KeyAfter(first, password, before)
  }

  ghost predicate WellWrapped(u: Unlocked, password: string) {
    && u.kdf.algorithm == KDF_ALGORITHM && |u.kdf.salt| == SALT_LEN && u.kdf.params.InRange()
    && u.wrappedKey == Sealed(Derived(password, u.kdf.salt, u.kdf.params), HeaderAad(u.kdf), KeyPlain(u.vaultKey))
  }

  lemma {:induction false} RunStaysWrapped(first: Unlocked, password: string, acts: seq<Act>)
    requires WellWrapped(first, password) && forall k :: 0 <= k < |acts| ==> Drawn(acts[k])
    ensures WellWrapped(After(first, acts), PasswordAfter(password, acts))
    ensures After(first, acts).kdf.params.AtLeastAsStrongAs(first.kdf.params)
    ensures After(first, acts).data == ContentsAfter(first.data, acts)
    ensures After(first, acts).vaultKey == KeyAfter(first.vaultKey, password, acts)
  {
    if acts != [] {
      var before, act := acts[..|acts| - 1], acts[|acts| - 1];
      RunStaysWrapped(first, password, before);
      var u := After(first, before);
      if act.ChangePassword? {
        assert Upgraded(u.kdf.params).InRange() && Upgraded(u.kdf.params).AtLeastAsStrongAs(u.kdf.params);
      }
    }
  }

  /** Over every run of edits, password changes and key adoptions, failed ones included: the sealed
      vault opens with the password last set, to the key last adopted and to the contents last edited in
      (migrated and pruned); every other password is refused; and no axis of the derivation cost has gone
      down. */
  lemma {:induction false} EnvelopeSurvivesRuns(password: string, salt: seq<Byte>, params: KdfParams,
                                                keyBytes: seq<Byte>, acts: seq<Act>, attempt: string, now: nat)
    requires |salt| == 32 && Affordable(params) && forall k :: 0 <= k < |acts| ==> Drawn(acts[k])
    ensures Wrap(password, salt, params, Raw(keyBytes), EMPTY_DATA).Ok?
    ensures var first := Wrap(password, salt, params, Raw(keyBytes), EMPTY_DATA).value;
            var again := OpenedFile(SealedFile(After(first, acts)), attempt, now);
            if attempt == PasswordAfter(password, acts)
            then
              && again.Ok? && WellWrapped(again.value, attempt)
              && again.value.data == Reopened(ContentsAfter(VaultData([], [], [], None), acts), now)
              && again.value.vaultKey == KeyAfter(Raw(keyBytes), password, acts)
              && again.value.kdf.params.AtLeastAsStrongAs(params)
            else again == Err(Decrypt)
  {
    var first := Wrap(password, salt, params, Raw(keyBytes), EMPTY_DATA).value;
    RunStaysWrapped(first, password, acts);
  }

  /** A cost inside the ranges the program accepts. */
  predicate Affordable(params: KdfParams) {
    && 8192 <= params.memoryKib <= 1048576 && 1 <= params.iterations <= 16 && 1 <= params.parallelism <= 16
  }

  /** A file opens exactly when it is of this format and algorithm, its cost is in range, its salt is no
      shorter than derivation wants, its wrapped key opens under the password's key and this very header,
      and its payload under the wrapped key and this very header; and then to what they hold. */
  lemma OpensExactly(file: VaultFile, password: string, now: nat)
    ensures OpenedFile(file, password, now).Ok? <==>
              && file.format == 1 && file.kdf.algorithm == "argon2id" && Affordable(file.kdf.params)
              && |file.kdf.salt| >= 8
              && exists key: Key, data: VaultData ::
                   HoldsUnder(file, Derived(password, file.kdf.salt, file.kdf.params), key, data)
    ensures forall key: Key, data: VaultData | OpenedFile(file, password, now).Ok? ::
              HoldsUnder(file, Derived(password, file.kdf.salt, file.kdf.params), key, data) ==>
                OpenedFile(file, password, now) == Ok(Unlocked(file.kdf, file.wrappedKey, key, Reopened(data, now)))
    ensures file.format != 1 ==> OpenedFile(file, password, now) == Err(UnsupportedFormat(file.format))
    ensures file.format == 1 && file.kdf.algorithm != "argon2id" ==>
              OpenedFile(file, password, now) == Err(UnsupportedKdf(file.kdf.algorithm))
    ensures file.format == 1 && file.kdf.algorithm == "argon2id" && !Affordable(file.kdf.params) ==>
              OpenedFile(file, password, now) == Err(DamagedFile)
  {
    if OpenedFile(file, password, now).Ok? {
      assert HoldsUnder(file, Derived(password, file.kdf.salt, file.kdf.params), file.wrappedKey.plain.key,
                        file.payload.plain.data);
    }
  }

  /** The header's fields are the associated data of both sealed parts. */
  predicate HoldsUnder(file: VaultFile, master: Key, key: Key, data: VaultData) {
    && file.wrappedKey == Sealed(master, Header(file.format, file.kdf), KeyPlain(key))
    && file.payload == Sealed(key, Header(file.format, file.kdf), DataPlain(data))
  }

  /** What opening makes of the contents: they are migrated, and exactly the deletions of the last ninety
      days with fewer than five thousand of that age after them stay. */
  lemma ReopenedEffect(data: VaultData, now: nat, k: nat)
    requires DistinctGraves(data.tombstones)
    ensures Reopened(data, now) == Migrated(data).(tombstones := Reopened(data, now).tombstones)
    ensures DistinctGraves(Reopened(data, now).tombstones)
    ensures forall id: Uuid :: Buried(Reopened(data, now), id).Some? ==>
              Buried(Reopened(data, now), id) == Buried(data, id)
    ensures k < |data.tombstones| ==>
              (Buried(Reopened(data, now), data.tombstones[k].id) == Some(data.tombstones[k])
               <==> WithinNinetyDays(data.tombstones[k], now) && |RecentFrom(data.tombstones, k + 1, now)| < 5000)
  {
    PrunedDistinct(data.tombstones, now);
    if k < |data.tombstones| {
      PrunedExactly(data.tombstones, now, k);
    }
  }

  /** A password change never weakens the derivation, and brings it up to the current defaults unless
      the vault already beats them on some axis. */
  lemma PasswordChangeUpgrades(u: Unlocked, password: string, salt: seq<Byte>)
    requires ChangedPassword(u, password, salt).Ok?
    ensures var was, becomes := u.kdf.params, ChangedPassword(u, password, salt).value.kdf.params;
      && becomes.AtLeastAsStrongAs(was)
      && becomes == if was.memoryKib <= 65536 && was.iterations <= 3 && was.parallelism <= 4
                    then KdfParams(65536, 3, 4) else was
    ensures ChangedPassword(u, password, salt).value.vaultKey == u.vaultKey
    ensures ChangedPassword(u, password, salt).value.data == u.data
    ensures ChangedPassword(u, password, salt).value.kdf.salt == salt
  {
  }

  /** A key is adopted exactly when it is 32 bytes and the password is the current one; otherwise
      the vault is untouched and the old key still opens it. */
  lemma AdoptionChecksThePassword(u: Unlocked, password: string, attempt: string, bytes: seq<Byte>)
    requires WellWrapped(u, password)
    ensures Adopted(u, attempt, bytes).Ok? <==> |bytes| == KEY_LEN && attempt == password
    ensures Acted(u, Adopt(attempt, bytes)).vaultKey
            == if |bytes| == KEY_LEN && attempt == password then Raw(bytes) else u.vaultKey
    ensures Acted(u, Adopt(attempt, bytes)).data == u.data && Acted(u, Adopt(attempt, bytes)).kdf == u.kdf
    ensures WellWrapped(Acted(u, Adopt(attempt, bytes)), password)
  {
  }

  // ---- the object -----------------------------------------------------

  class UnlockedVault {
    var kdf: KdfHeader
    var wrappedKey: Sealed<Plain>
    var vaultKey: Key
    var data: VaultData

    ghost function State(): Unlocked
      reads this
    {
      Unlocked(kdf, wrappedKey, vaultKey, data)
    }

    constructor (u: Unlocked)
      ensures State() == u
    {
      kdf, wrappedKey, vaultKey, data := u.kdf, u.wrappedKey, u.vaultKey, u.data;
    }

    /** Creates an empty vault; the salt and the key are what the random source returned. */
    static method CreateWithParams(password: string, params: KdfParams, salt: seq<Byte>, keyBytes: seq<Byte>)
      returns (r: Result<UnlockedVault>)
      ensures var spec := Wrap(password, salt, params, Raw(keyBytes), EMPTY_DATA);
              if spec.Err? then r == Err(spec.error) else r.Ok? && fresh(r.value) && r.value.State() == spec.value
      ensures r.Ok? <==> Affordable(params) && |salt| >= 8
      ensures r.Ok? ==>
        && r.value.vaultKey == Raw(keyBytes) && r.value.data == VaultData([], [], [], None)
        && r.value.kdf == KdfHeader("argon2id", salt, params)
        && (|salt| == SALT_LEN ==> WellWrapped(r.value.State(), password))
    {
      if !params.InRange() {
        return Err(DamagedFile);
      }
      var header := KdfHeader(KDF_ALGORITHM, salt, params);
      var master :- DeriveKey(password, salt, params);
      var vaultKey := Raw(keyBytes);
      var wrapped := Sealed(master, HeaderAad(header), KeyPlain(vaultKey));
      var vault := new UnlockedVault(Unlocked(header, wrapped, vaultKey, EMPTY_DATA));
      r := Ok(vault);
    }

    static method Open(file: VaultFile, password: string, now: nat) returns (r: Result<UnlockedVault>)
      ensures var spec := OpenedFile(file, password, now);
              if spec.Err? then r == Err(spec.error) else r.Ok? && fresh(r.value) && r.value.State() == spec.value
    {
      if file.format != FORMAT_VERSION {
        return Err(UnsupportedFormat(file.format));
      }
      if file.kdf.algorithm != KDF_ALGORITHM {
        return Err(UnsupportedKdf(file.kdf.algorithm));
      }
      if !file.kdf.params.InRange() {
        return Err(DamagedFile);
      }
      var aad := Header(file.format, file.kdf);
      var master :- DeriveKey(password, file.kdf.salt, file.kdf.params);
      var keyPlain :- Crypto.Open(master, file.wrappedKey, aad);
      if !keyPlain.KeyPlain? {
        return Err(Malformed);
      }
      var dataPlain :- Crypto.Open(keyPlain.key, file.payload, aad);
      if !dataPlain.DataPlain? {
        return Err(Malformed);
      }
      var vault := new UnlockedVault(Unlocked(file.kdf, file.wrappedKey, keyPlain.key, dataPlain.data));
      vault.MigrateTagsIntoFolders();
      vault.PruneTombstones(now);
      r := Ok(vault);
    }

    function Get(id: Uuid): Option<Item>
      reads this
    {
      Held(data, id)
    }

    method Upsert(item: Item)
      modifies this`data
      ensures data == Upserted(old(data), item)
    {
      data := data.(tombstones := WithoutGrave(data.tombstones, item.id));
      data := data.(items := Replaced(data.items, item));
    }

    method Add(item: Item) returns (id: Uuid)
      modifies this`data
      ensures data == Added(old(data), item) && id == item.id
    {
      id := item.id;
      data := data.(tombstones := WithoutGrave(data.tombstones, id));
      data := data.(items := data.items + [item]);
    }

    method Remove(id: Uuid, now: nat) returns (r: Result<Item>)
      modifies this`data
      ensures old(Held(data, id)).None? ==> r == Err(ItemNotFound(id)) && data == old(data)
      ensures old(Held(data, id)).Some? ==> r == Ok(old(Held(data, id)).value) && data == Removed(old(data), id, now)
    {
      var held := Held(data, id);
      if held.None? {
        return Err(ItemNotFound(id));
      }
      data := data.(items := WithoutFirst(data.items, id));
      RecordTombstone(id, now);
      r := Ok(held.value);
    }

    method RecordTombstone(id: Uuid, at: nat)
      modifies this`data
      ensures data == old(data).(tombstones := Pruned(WithoutGrave(old(data).tombstones, id) + [Tombstone(id, at)], at))
    {
      data := data.(tombstones := WithoutGrave(data.tombstones, id) + [Tombstone(id, at)]);
      PruneTombstones(at);
    }

    method PruneTombstones(now: nat)
      modifies this`data
      ensures data == old(data).(tombstones := Pruned(old(data).tombstones, now))
    {
      data := data.(tombstones := Unexpired(data.tombstones, now));
      if |data.tombstones| > TOMBSTONE_CAPACITY {
        var excess := |data.tombstones| - TOMBSTONE_CAPACITY;
        data := data.(tombstones := data.tombstones[excess..]);
      }
    }

    method SetSyncState(state: Option<SyncState>)
      modifies this`data
      ensures data == old(data).(sync := state)
    {
      data := data.(sync := state);
    }

    method MigrateTagsIntoFolders()
      modifies this`data
      ensures data == Migrated(old(data))
    {
      FileUnderFirstTag();
      CollectFolders();
    }

    /** The first loop of the migration. */
    method FileUnderFirstTag()
      modifies this`data
      ensures data == old(data).(items := MigratedItems(old(data).items))
    {
      ghost var items := data.items;
      MigratedItemsAt(items);
      for k := 0 to |data.items|
        invariant data == old(data).(items := data.items) && |data.items| == |items|
        invariant forall j :: 0 <= j < k ==> data.items[j] == MigratedItem(items[j])
        invariant forall j :: k <= j < |items| ==> data.items[j] == items[j]
      {
        var item := data.items[k];
        if item.folder.None? && item.tags != [] {
          item := item.(folder := Some(item.tags[0]));
        }
        data := data.(items := data.items[k := item.(tags := [])]);
      }
      assert data.items == MigratedItems(items);
    }

    /** The second loop: every folder an item names exists, in the order first seen. */
    method CollectFolders()
      modifies this`data
      ensures data == old(data).(folders := WithFolders(old(data).folders, old(data).items))
    {
      ghost var items := data.items;
      for k := 0 to |data.items|
        invariant data == old(data).(folders := WithFolders(old(data).folders, items[..k]))
      {
        assert items[..k + 1][..k] == items[..k];
        var folder := data.items[k].folder;
        if folder.Some? && folder.value !in data.folders {
          data := data.(folders := data.folders + [folder.value]);
        }
      }
      assert items[..|items|] == items;
    }

    /** The file opens with the password the key is wrapped under, to this very state as opening migrates
        and prunes it, and with no other. */
    method Seal() returns (file: VaultFile)
      ensures forall password: string, attempt: string, now: nat :: WellWrapped(State(), password) ==>
        OpenedFile(file, attempt, now)
        == if attempt == password then Ok(State().(data := Reopened(data, now))) else Err(Decrypt)
    {
      file := VaultFile(FORMAT_VERSION, kdf, wrappedKey, Sealed(vaultKey, HeaderAad(kdf), DataPlain(data)));
    }

    /** `salt` is what the random source returned. */
    method ChangePassword(password: string, salt: seq<Byte>) returns (r: Result<()>)
      modifies this
      ensures r.Ok? <==> ChangedPassword(old(State()), password, salt).Ok?
      ensures State() == Acted(old(State()), Act.ChangePassword(password, salt))
      ensures vaultKey == old(vaultKey) && data == old(data)
    {
      var params := Upgraded(kdf.params);
      if !params.InRange() {
        return Err(DamagedFile);
      }
      var header := KdfHeader(KDF_ALGORITHM, salt, params);
      var master :- DeriveKey(password, salt, params);
      kdf := header;
      wrappedKey := Sealed(master, HeaderAad(header), KeyPlain(vaultKey));
      r := Ok(());
    }

    method AdoptVaultKey(password: string, bytes: seq<Byte>) returns (r: Result<()>)
      modifies this
      ensures r.Ok? <==> Adopted(old(State()), password, bytes).Ok?
      ensures State() == Acted(old(State()), Adopt(password, bytes))
      ensures data == old(data) && kdf == old(kdf)
      ensures vaultKey == if r.Ok? then Raw(bytes) else old(vaultKey)
    {
      var key :- KeyFromSlice(bytes);
      var master :- DeriveKey(password, kdf.salt, kdf.params);
      var _ :- Crypto.Open(master, wrappedKey, HeaderAad(kdf));
      vaultKey := key;
      wrappedKey := Sealed(master, HeaderAad(kdf), KeyPlain(key));
      r := Ok(());
    }
  }
}
