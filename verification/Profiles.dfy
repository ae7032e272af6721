/** Removing one vault for good, and finishing or undoing a removal that was interrupted.

    The files move aside under tombstone names, then the registry is committed, then the tombstones
    are removed.  The registry on disk is the commit record. */
module Profiles {
  import opened Crypto
  import opened UnlockedVaults
  import opened Disks
  import opened VaultFiles

  const DEFAULT_VAULT_ID := "default"
  const DEFAULT_VAULT_NAME := "Personal"
  const PARTS: seq<Part> := [Live, Backup, Temp]

  function Without(vaults: seq<Record>, id: string): seq<Record> {
    if vaults == [] then []
    else if vaults[0].id == id then Without(vaults[1..], id)
    else [vaults[0]] + Without(vaults[1..], id)
  }

  /** The registry with one profile removed and deselected. */
  function Forgetting(registry: Registry, id: string): Registry {
    Registry(if registry.selected == Some(id) then None else registry.selected, Without(registry.vaults, id))
  }

  predicate RegistersFile(registry: Registry, file: string) {
    exists k :: 0 <= k < |registry.vaults| && registry.vaults[k].file == file
  }

  predicate RegistersId(registry: Registry, id: string) {
    exists k :: 0 <= k < |registry.vaults| && registry.vaults[k].id == id
  }

  /** One record per id and per file, and the default id goes with the legacy file. */
  ghost predicate WellFormed(registry: Registry, legacy: string) {
    && (forall i, j :: 0 <= i < j < |registry.vaults| ==>
          registry.vaults[i].id != registry.vaults[j].id && registry.vaults[i].file != registry.vaults[j].file)
    && (forall k :: 0 <= k < |registry.vaults| ==>
          (registry.vaults[k].id == DEFAULT_VAULT_ID <==> registry.vaults[k].file == legacy))
  }

  /** The registry on disk, plus the legacy vault if it is there unnamed. */
  function WithLegacy(registry: Registry, dir: Dir, legacy: string): Registry {
    if StartupFor(dir, legacy) == Setup || RegistersId(registry, DEFAULT_VAULT_ID) || RegistersFile(registry, legacy)
    then registry
    else Registry(if registry.selected.None? then Some(DEFAULT_VAULT_ID) else registry.selected,
                  [Record(DEFAULT_VAULT_ID, DEFAULT_VAULT_NAME, legacy)] + registry.vaults)
  }

  /** What starting up reads; a selection that names nothing is dropped. */
  function Loaded(registry: Registry, dir: Dir, legacy: string): Registry {
    var named := WithLegacy(registry, dir, legacy);
    if named.selected.Some? && !RegistersId(named, named.selected.value) then named.(selected := None) else named
  }

  // ---- one removal, and everything that may be found of it ------------

  /** What is being removed: the directory it started from, the profile, its file, the operation. */
  datatype Removal = Removal(start: Dir, registry: Registry, id: string, file: string, operation: nat, legacy: string)

  function Source(r: Removal, part: Part): Path {
    VaultPath(r.file, part)
  }

  function Aside(r: Removal, part: Part): Path {
    Tombstone(r.file, part, r.operation)
  }

  function NextRegistry(r: Removal): Registry {
    Forgetting(r.registry, r.id)
  }

  /** A settled directory whose registry names the profile, with no deletion left over.  What an earlier
      save left unflushed may be there too. */
  ghost predicate Sound(r: Removal) {
    && RegistryPath in r.start && r.start[RegistryPath] == File(RegistryBytes(r.registry), true)
    && (forall p: Path :: p in r.start ==> !p.Tombstone?)
    && WellFormed(r.registry, r.legacy)
    && (exists k ::
          0 <= k < |r.registry.vaults| && r.registry.vaults[k].id == r.id && r.registry.vaults[k].file == r.file)
  }

  /** Paths the removal may touch. */
  predicate Concerned(r: Removal, p: Path) {
    (p.VaultPath? && p.file == r.file) || p.Tombstone? || p == RegistryPath || p == RegistryTemp
  }

  /** The file is as it was; one that had not been flushed may have lost its contents or gone. */
  ghost predicate Still(was: Dir, now: Dir, p: Path) {
    && (p in now ==> p in was)
    && (p in was && was[p].durable ==> p in now && now[p] == was[p])
  }

  /** A flushed file, moved or not. */
  ghost predicate Same(was: File, now: File) {
    was.durable ==> now == was
  }

  /** Not yet committed: each original file is in one of its two places. */
  ghost predicate Staged(r: Removal, dir: Dir) {
    && RegistryPath in dir && dir[RegistryPath] == File(RegistryBytes(r.registry), true)
    && forall part: Part ::
         if Source(r, part) in r.start then
           && !(Source(r, part) in dir && Aside(r, part) in dir)
           && (r.start[Source(r, part)].durable ==> Source(r, part) in dir || Aside(r, part) in dir)
           && (Source(r, part) in dir ==> Same(r.start[Source(r, part)], dir[Source(r, part)]))
           && (Aside(r, part) in dir ==> Same(r.start[Source(r, part)], dir[Aside(r, part)]))
         else Source(r, part) !in dir && Aside(r, part) !in dir
  }

  /** Committed: no original is in its place, and at most its tombstone is left. */
  ghost predicate Committed(r: Removal, dir: Dir) {
    && RegistryPath in dir && dir[RegistryPath] == File(RegistryBytes(NextRegistry(r)), true)
    && forall part: Part :: Source(r, part) !in dir
         && (Aside(r, part) in dir ==>
               Source(r, part) in r.start && Same(r.start[Source(r, part)], dir[Aside(r, part)]))
  }

  /** Every moment of a removal, of its rollback, and of every restart after it. */
  ghost predicate Between(r: Removal, dir: Dir) {
    && (Staged(r, dir) || Committed(r, dir))
    && (forall p :: p in dir && p.Tombstone? ==> exists part: Part :: p == Aside(r, part))
    && (forall p :: !Concerned(r, p) ==> Still(r.start, dir, p))
  }

  /** The profile is still there with exactly its original files. */
  ghost predicate Kept(r: Removal, dir: Dir) {
    && RegistryPath in dir && dir[RegistryPath] == File(RegistryBytes(r.registry), true)
    && forall p :: p != RegistryTemp ==> Still(r.start, dir, p)
  }

  /** The profile is gone with every one of its files, and every other file is as it was. */
  ghost predicate Gone(r: Removal, dir: Dir) {
    && RegistryPath in dir && dir[RegistryPath] == File(RegistryBytes(NextRegistry(r)), true)
    && (forall p: Path :: (p.VaultPath? && p.file == r.file) || p.Tombstone? ==> p !in dir)
    && (forall p :: !Concerned(r, p) ==> Still(r.start, dir, p))
  }

  lemma StartIsBetween(r: Removal)
    requires Sound(r)
    ensures Between(r, r.start) && Staged(r, r.start)
  {
  }

  /** A power cut keeps it. */
  lemma CrashKeepsBetween(r: Removal, dir: Dir, after: Dir)
    requires Sound(r) && Between(r, dir) && CrashOf(dir, after)
    ensures Between(r, after)
  {
    if Staged(r, dir) {
      assert Staged(r, after);
    } else {
      assert Committed(r, after);
    }
    forall p | !Concerned(r, p) ensures Still(r.start, after, p) {
      assert Still(r.start, dir, p);
    }
  }

  // ---- what the registry says about a removal -------------------------

  lemma {:induction false} WithoutExactly(vaults: seq<Record>, id: string)
    ensures forall v :: v in Without(vaults, id) <==> v in vaults && v.id != id
  {
    if vaults != [] {
      WithoutExactly(vaults[1..], id);
    }
  }

  lemma {:induction false} WithoutNone(vaults: seq<Record>, id: string)
    requires forall k :: 0 <= k < |vaults| ==> vaults[k].id != id
    ensures Without(vaults, id) == vaults
  {
    if vaults != [] {
      WithoutNone(vaults[1..], id);
    }
  }

  lemma {:induction false} WithoutOne(vaults: seq<Record>, id: string, k: nat)
    requires k < |vaults| && vaults[k].id == id && forall j :: 0 <= j < |vaults| && j != k ==> vaults[j].id != id
    ensures Without(vaults, id) == vaults[..k] + vaults[k + 1..]
  {
    if k == 0 {
      WithoutNone(vaults[1..], id);
    } else {
      WithoutOne(vaults[1..], id, k - 1);
      assert vaults[1..][..k - 1] == vaults[1..k] && vaults[1..][k..] == vaults[k + 1..];
    }
  }

  lemma OneTakenOut(r: Removal)
    requires Sound(r)
    ensures exists k :: 0 <= k < |r.registry.vaults| && r.registry.vaults[k].id == r.id
              && NextRegistry(r).vaults == r.registry.vaults[..k] + r.registry.vaults[k + 1..]
  {
    var k :| 0 <= k < |r.registry.vaults| && r.registry.vaults[k].id == r.id && r.registry.vaults[k].file == r.file;
    WithoutOne(r.registry.vaults, r.id, k);
  }

  /** Taking a profile out leaves the others in their order, and the selection unless it was the one.  */
  lemma CommitUnregisters(r: Removal)
    requires Sound(r)
    ensures RegistersFile(r.registry, r.file) && RegistersId(r.registry, r.id)
    ensures !RegistersFile(NextRegistry(r), r.file) && !RegistersId(NextRegistry(r), r.id)
    ensures forall v :: v in r.registry.vaults && v.id != r.id ==> v in NextRegistry(r).vaults
    ensures exists k :: 0 <= k < |r.registry.vaults| && r.registry.vaults[k].id == r.id
              && NextRegistry(r).vaults == r.registry.vaults[..k] + r.registry.vaults[k + 1..]
    ensures NextRegistry(r).selected == if r.registry.selected == Some(r.id) then None else r.registry.selected
  {
    WithoutExactly(r.registry.vaults, r.id);
    OneTakenOut(r);
    var k :| 0 <= k < |r.registry.vaults| && r.registry.vaults[k].id == r.id && r.registry.vaults[k].file == r.file;
    var left := NextRegistry(r).vaults;
    forall i | 0 <= i < |left| ensures left[i].file != r.file && left[i].id != r.id {
      assert left[i] in left;
      var j :| 0 <= j < |r.registry.vaults| && r.registry.vaults[j] == left[i];
    }
  }

  lemma LoadedAfterCommit(r: Removal, dir: Dir)
    requires Sound(r) && Committed(r, dir)
    ensures var loaded := Loaded(NextRegistry(r), dir, r.legacy);
            !RegistersFile(loaded, r.file) && !RegistersId(loaded, r.id)
  {
    CommitUnregisters(r);
    var next := NextRegistry(r);
    var loaded := Loaded(next, dir, r.legacy);
    assert Source(r, Live) !in dir && Source(r, Backup) !in dir && Source(r, Temp) !in dir;
    if loaded.vaults != next.vaults {
      assert loaded.vaults[0].file == r.legacy != r.file;
      assert loaded.vaults[1..] == next.vaults;
      forall k | 0 <= k < |loaded.vaults| ensures loaded.vaults[k].file != r.file && loaded.vaults[k].id != r.id {
        assert k > 0 ==> loaded.vaults[k] == next.vaults[k - 1];
      }
    }
  }

  lemma LoadedBeforeCommit(r: Removal, dir: Dir)
    requires Sound(r)
    ensures var loaded := Loaded(r.registry, dir, r.legacy);
            RegistersFile(loaded, r.file) && RegistersId(loaded, r.id)
  {
    var loaded := Loaded(r.registry, dir, r.legacy);
    var k :| 0 <= k < |r.registry.vaults| && r.registry.vaults[k].id == r.id && r.registry.vaults[k].file == r.file;
    assert loaded.vaults[if loaded.vaults == r.registry.vaults then k else k + 1] == r.registry.vaults[k];
  }

  /** No profile has the default id or the legacy file. */
  predicate LegacyUnnamed(registry: Registry, legacy: string) {
    forall k :: 0 <= k < |registry.vaults| ==>
      registry.vaults[k].id != "default" && registry.vaults[k].file != legacy
  }

  /** What starting up reads.  A legacy vault of which any file is left and that no profile names comes first,
      as the one called Personal; the profiles follow in their order; and the selection is the registry's, or
      that vault if there is none, as long as it names one of them. */
  lemma LoadedExactly(registry: Registry, dir: Dir, legacy: string)
    ensures var loaded := Loaded(registry, dir, legacy);
            var adopts := LegacyUnnamed(registry, legacy) && exists part: Part :: VaultPath(legacy, part) in dir;
            var wanted := if adopts && registry.selected.None? then Some("default") else registry.selected;
            && loaded.vaults
               == (if adopts then [Record("default", "Personal", legacy)] + registry.vaults else registry.vaults)
            && loaded.selected
               == if wanted.Some? && exists k :: 0 <= k < |loaded.vaults| && loaded.vaults[k].id == wanted.value
                  then wanted else None
  {
    SetupExactly(dir, legacy);
    hide StartupFor;
  }

  /** What a restart loads names the file, and the profile, exactly when the removal had not been
      committed: the upgrade path for a lone legacy vault does not bring a removed one back. */
  lemma LoadedSays(r: Removal, dir: Dir)
    requires Sound(r) && Between(r, dir)
    ensures var loaded := Loaded(dir[RegistryPath].content.registry, dir, r.legacy);
            && (RegistersFile(loaded, r.file) <==> Staged(r, dir))
            && (RegistersId(loaded, r.id) <==> Staged(r, dir))
  {
    hide Loaded, RegistersFile, RegistersId;
    if Staged(r, dir) {
      LoadedBeforeCommit(r, dir);
    } else {
      LoadedAfterCommit(r, dir);
    }
  }

  lemma RegistryIsThere(r: Removal, dir: Dir)
    requires Between(r, dir)
    ensures RegistryPath in dir && dir[RegistryPath].content.RegistryBytes?
  {
  }

  lemma CommittedIsNotStaged(r: Removal, dir: Dir)
    requires Sound(r) && Committed(r, dir)
    ensures !Staged(r, dir)
  {
    CommitUnregisters(r);
  }

  // ---- finishing or undoing it ----------------------------------------

  /** What a restart does with one tombstone it finds. */
  function Reconciled(dir: Dir, loaded: Registry, p: Path): Dir
    requires p in dir && p.Tombstone?
  {
    var original := VaultPath(p.file, p.part);
    if RegistersFile(loaded, p.file) && original !in dir then (dir - {p})[original := dir[p]] else dir - {p}
  }

  lemma ReconciledKeeps(r: Removal, dir: Dir, loaded: Registry, p: Path)
    requires Sound(r) && Between(r, dir) && (RegistersFile(loaded, r.file) <==> Staged(r, dir))
    requires p in dir && p.Tombstone?
    ensures Between(r, Reconciled(dir, loaded, p))
    ensures Staged(r, dir) <==> Staged(r, Reconciled(dir, loaded, p))
  {
    CommitUnregisters(r);
    var part: Part :| p == Aside(r, part);
    var next := Reconciled(dir, loaded, p);
    if Staged(r, dir) {
      assert Staged(r, next);
    } else {
      assert Committed(r, next);
      assert !Staged(r, next);
    }
  }

  /** With no tombstone left, the removal has happened or it has not. */
  lemma SettledIsAllOrNothing(r: Removal, dir: Dir)
    requires Sound(r) && Between(r, dir) && forall p: Path :: p.Tombstone? ==> p !in dir
    ensures Staged(r, dir) ==> Kept(r, dir)
    ensures !Staged(r, dir) ==> Gone(r, dir)
  {
    if Staged(r, dir) {
      forall p | p != RegistryTemp ensures Still(r.start, dir, p) {
        if p.VaultPath? && p.file == r.file {
          assert p == Source(r, p.part) && Aside(r, p.part) !in dir;
        }
      }
    } else {
      forall p: Path | p.VaultPath? && p.file == r.file ensures p !in dir {
        assert p == Source(r, p.part);
      }
    }
  }

  /** The app between a removal that stopped and a restart that finished: the directory, and the
      registry if a restart has got as far as loading it. */
  datatype Restarting = Restarting(dir: Dir, loaded: Option<Registry>)

  datatype Event = PowerCut(after: Dir) | Load | Clear(path: Path)

  ghost predicate Happens(s: Restarting, event: Event, next: Restarting, legacy: string) {
    match event
    case PowerCut(after) => CrashOf(s.dir, after) && next == Restarting(after, None)
    case Load =>
      && RegistryPath in s.dir && s.dir[RegistryPath].content.RegistryBytes?
      && next == s.(loaded := Some(Loaded(s.dir[RegistryPath].content.registry, s.dir, legacy)))
    case Clear(p) =>
      && s.loaded.Some? && p in s.dir && p.Tombstone?
      && next == s.(dir := Reconciled(s.dir, s.loaded.value, p))
  }

  ghost predicate InStep(r: Removal, s: Restarting) {
    && Between(r, s.dir)
    && (s.loaded.Some? ==> (RegistersFile(s.loaded.value, r.file) <==> Staged(r, s.dir))
                           && (RegistersId(s.loaded.value, r.id) <==> Staged(r, s.dir)))
  }

  lemma {:induction false} RestartsKeep(r: Removal, states: seq<Restarting>, events: seq<Event>, k: nat)
    requires Sound(r) && |states| == |events| + 1 && k <= |events| && InStep(r, states[0])
    requires forall i :: 0 <= i < |events| ==> Happens(states[i], events[i], states[i + 1], r.legacy)
    ensures InStep(r, states[k])
  {
    if k > 0 {
      RestartsKeep(r, states, events, k - 1);
      var s, next := states[k - 1], states[k];
      assert Happens(s, events[k - 1], next, r.legacy);
      match events[k - 1]
      case PowerCut(after) => CrashKeepsBetween(r, s.dir, after);
      case Load => LoadedSays(r, s.dir);
      case Clear(p) => ReconciledKeeps(r, s.dir, s.loaded.value, p);
    }
  }

  /** Atomic removal.  From any moment of a removal - every moment is `Between`, as `RemoveProfile`
      shows - through any number of power cuts and interrupted restarts: once a restart has loaded
      the registry and cleared every tombstone, either the profile is registered with exactly its
      original files, or it is gone with none of them; every other file is as it was. */
  lemma RemovalIsAtomic(r: Removal, moment: Dir, states: seq<Restarting>, events: seq<Event>)
    requires Sound(r) && Between(r, moment)
    requires |states| == |events| + 1 && states[0] == Restarting(moment, None)
    requires forall i :: 0 <= i < |events| ==> Happens(states[i], events[i], states[i + 1], r.legacy)
    requires states[|events|].loaded.Some? && forall p: Path :: p.Tombstone? ==> p !in states[|events|].dir
    ensures var end := states[|events|];
            if RegistersId(end.loaded.value, r.id) then Kept(r, end.dir) else Gone(r, end.dir)
  {
    RestartsKeep(r, states, events, |events|);
    SettledIsAllOrNothing(r, states[|events|].dir);
  }

  // ---- one system call of a removal -----------------------------------

  /** Moving a part aside, or back, is always safe before the commit. */
  lemma MoveKeeps(r: Removal, dir: Dir, part: Part, aside: bool)
    requires Sound(r) && Between(r, dir) && Staged(r, dir)
    requires (if aside then Source(r, part) else Aside(r, part)) in dir
    ensures var from := if aside then Source(r, part) else Aside(r, part);
            var to := if aside then Aside(r, part) else Source(r, part);
            var next := (dir - {from})[to := dir[from]];
            Between(r, next) && Staged(r, next) && to in next && from !in next
  {
    var from := if aside then Source(r, part) else Aside(r, part);
    var to := if aside then Aside(r, part) else Source(r, part);
    var next := (dir - {from})[to := dir[from]];
    assert Staged(r, next);
    assert forall p :: p in next && p.Tombstone? ==> p in dir || p == to;
  }

  /** Committing is safe once no part is in its place. */
  lemma CommitKeeps(r: Removal, dir: Dir)
    requires Sound(r) && Between(r, dir) && Staged(r, dir)
    requires forall part: Part :: Source(r, part) !in dir
    requires RegistryTemp in dir && dir[RegistryTemp] == File(RegistryBytes(NextRegistry(r)), true)
    ensures var next := (dir - {RegistryTemp})[RegistryPath := dir[RegistryTemp]];
            Between(r, next) && Committed(r, next)
  {
    var next := (dir - {RegistryTemp})[RegistryPath := dir[RegistryTemp]];
    assert Committed(r, next);
  }

  /** Dropping a tombstone is safe after it. */
  lemma DropKeeps(r: Removal, dir: Dir, part: Part)
    requires Sound(r) && Between(r, dir) && Committed(r, dir)
    ensures Between(r, dir - {Aside(r, part)}) && Committed(r, dir - {Aside(r, part)})
  {
    assert Committed(r, dir - {Aside(r, part)});
  }

  lemma TempKeeps(r: Removal, dir: Dir, next: Dir)
    requires Sound(r) && Between(r, dir) && Staged(r, dir)
        && Writing(dir, next, RegistryTemp, RegistryBytes(NextRegistry(r)))
    ensures Between(r, next) && Staged(r, next)
  {
    assert Staged(r, next);
  }

  /** The profile's name has been typed in full. */
  predicate Confirmed(registry: Registry, id: string, confirmation: string) {
    exists k :: 0 <= k < |registry.vaults| && registry.vaults[k].id == id && registry.vaults[k].name == confirmation
  }

  /** The removal and the restart as the app performs them. */
  datatype Outcome = Removed | RemovedWithLeftovers | NotRemoved

  class AppState {
    const disk: Disk
    const legacy: string
    var registry: Registry

    constructor (disk: Disk, legacy: string, registry: Registry)
      ensures this.disk == disk && this.legacy == legacy && this.registry == registry
    {
      this.disk, this.legacy, this.registry := disk, legacy, registry;
    }

    /** Undoes the moves made so far, newest first; a move that cannot be undone is left. */
    method RollBack(ghost r: Removal, staged: seq<(Path, Path)>)
      requires Sound(r) && Between(r, disk.dir) && Staged(r, disk.dir) && AreMoves(r, staged)
      requires Covered(r, disk.dir, staged)
      modifies disk
      ensures Between(r, disk.dir) && Staged(r, disk.dir) && old(disk.trail) <= disk.trail
      ensures forall k :: |old(disk.trail)| <= k < |disk.trail| ==> Between(r, disk.trail[k])
      ensures disk.faults >= old(disk.faults)
      ensures disk.faults == old(disk.faults) ==> Kept(r, disk.dir)
    {
      var n := |staged|;
      assert staged[..n] == staged;
      while n > 0
        invariant 0 <= n <= |staged|
        invariant disk.faults == old(disk.faults) ==> Covered(r, disk.dir, staged[..n])
        invariant Between(r, disk.dir) && Staged(r, disk.dir) && old(disk.trail) <= disk.trail
        invariant forall k :: |old(disk.trail)| <= k < |disk.trail| ==> Between(r, disk.trail[k])
        invariant disk.faults >= old(disk.faults)
      {
        n := n - 1;
        var (source, tombstone) := staged[n];
        ghost var part: Part :| staged[n] == (Source(r, part), Aside(r, part));
        if tombstone in disk.dir {
          MoveKeeps(r, disk.dir, part, false);
        }
        ghost var before := disk.dir;
        var _ := disk.Rename(tombstone, source);
        if disk.faults == old(disk.faults) {
          CoveredBack(r, before, disk.dir, staged[..n + 1], part);
          assert staged[..n + 1][..n] == staged[..n];
        }
      }
      if disk.faults == old(disk.faults) {
        NothingAside(r, disk.dir, staged[..0]);
      }
    }

    method WriteRegistry(next: Registry, ghost r: Removal) returns (ok: bool)
      requires Sound(r) && Between(r, disk.dir) && Staged(r, disk.dir) && next == NextRegistry(r)
      requires forall part: Part :: Source(r, part) !in disk.dir
      modifies disk
      ensures Between(r, disk.dir) && old(disk.trail) <= disk.trail
      ensures if ok then Committed(r, disk.dir) else Staged(r, disk.dir)
      ensures forall p: Path :: p.Tombstone? ==> (p in disk.dir <==> p in old(disk.dir))
      ensures disk.faults == old(disk.faults) + if ok then 0 else 1
      ensures !ok ==> disk.dir.Keys - {RegistryTemp} == old(disk.dir).Keys - {RegistryTemp}
      ensures forall k :: |old(disk.trail)| <= k < |disk.trail| ==> Between(r, disk.trail[k])
    {
      ghost var before, trail := disk.dir, disk.trail;
      ok := disk.WriteDurably(RegistryTemp, RegistryBytes(next));
      forall k | |trail| <= k < |disk.trail| ensures Between(r, disk.trail[k]) && Staged(r, disk.trail[k]) {
        TempKeeps(r, before, disk.trail[k]);
      }
      if !ok {
        return;
      }
      CommitKeeps(r, disk.dir);
      ok := disk.Rename(RegistryTemp, RegistryPath);
    }

    /** Moves one part aside if it is there; false when the file system refused. */
    method StageOne(ghost r: Removal, part: Part, source: Path, tombstone: Path) returns (ok: bool, moved: bool)
      requires Sound(r) && Between(r, disk.dir) && Staged(r, disk.dir)
      requires source == Source(r, part) && tombstone == Aside(r, part) && tombstone !in disk.dir
      modifies disk
      ensures Between(r, disk.dir) && Staged(r, disk.dir) && old(disk.trail) <= disk.trail
      ensures forall k :: |old(disk.trail)| <= k < |disk.trail| ==> Between(r, disk.trail[k])
      ensures ok ==> source !in disk.dir && (moved <==> tombstone in disk.dir)
      ensures disk.faults == old(disk.faults) + if ok then 0 else 1
      ensures !ok ==> disk.dir == old(disk.dir)
      ensures forall p :: p != source && p != tombstone ==> (p in disk.dir <==> p in old(disk.dir))
    {
      moved := false;
      // Reading the metadata may fail, or say it is not a plain file.
      var readable := disk.Inspect();
      if !readable {
        return false, false;
      }
      var there := disk.Exists(source);
      if !there {
        return true, false;
      }
      var waiting := disk.Exists(tombstone);
      if waiting {
        return false, false;
      }
      MoveKeeps(r, disk.dir, part, true);
      ok := disk.Rename(source, tombstone);
      moved := ok;
    }

    /** Removes one profile and its three files.  `operation` is the id drawn for this removal, and
        `r` names what is being removed for the promises. */
    method RemoveProfile(id: string, confirmation: string, operation: nat, unlocked: bool, ghost r: Removal)
      returns (outcome: Outcome)
      requires r == Removal(disk.dir, registry, id, r.file, operation, legacy)
      requires RegistersId(registry, id) ==> Sound(r)
      modifies this, disk
      ensures unlocked || !Confirmed(old(registry), id, confirmation) ==>
                outcome == NotRemoved && disk.dir == old(disk.dir) && registry == old(registry)
      // And nothing but a failing call stands in the way.
      ensures !unlocked && Confirmed(old(registry), id, confirmation) && disk.faults == old(disk.faults) ==>
                outcome == Removed
      // After one failing call before the commit everything is back in its place.
      ensures RegistersId(old(registry), id) && outcome == NotRemoved && disk.faults <= old(disk.faults) + 1 ==>
                Kept(r, disk.dir)
      // Every moment of it, rollback included, is one a restart can finish or undo.
      ensures RegistersId(old(registry), id) ==> Between(r, disk.dir)
      ensures old(disk.trail) <= disk.trail
      ensures forall k :: |old(disk.trail)| <= k < |disk.trail| ==> Between(r, disk.trail[k])
      // What memory says is what the disk says, and success means gone.
      ensures registry == if outcome == NotRemoved then old(registry) else Forgetting(old(registry), id)
      ensures RegistersId(old(registry), id) ==> if outcome == NotRemoved then Staged(r, disk.dir)
          else Committed(r, disk.dir)
      ensures outcome == Removed ==> Gone(r, disk.dir)
    {
      if unlocked {
        if RegistersId(registry, id) {
          StartIsBetween(r);
        }
        return NotRemoved;
      }
      var at := RecordWith(registry, id);
      if at == |registry.vaults| {
        return NotRemoved;
      }
      StartIsBetween(r);
      var record := registry.vaults[at];
      assert record.file == r.file by {
        var k :| 0 <= k < |registry.vaults| && registry.vaults[k].id == id && registry.vaults[k].file == r.file;
      }
      if record.name != confirmation {
        return NotRemoved;
      }
      var ok, staged := StageAll(r, record.file, operation);
      if !ok {
        return NotRemoved;
      }
      var next := Forgetting(registry, id);
      var written := WriteRegistry(next, r);
      if !written {
        RollBack(r, staged);
        return NotRemoved;
      }
      registry := next;
      var clean := DropAll(r, staged);
      outcome := if clean then Removed else RemovedWithLeftovers;
    }

    /** The first loop: every part that is there moves aside, or all move back. */
    method StageAll(ghost r: Removal, file: string, operation: nat) returns (ok: bool, staged: seq<(Path, Path)>)
      requires Sound(r) && r.start == disk.dir && file == r.file && operation == r.operation
      modifies disk
      ensures Between(r, disk.dir) && Staged(r, disk.dir) && AreMoves(r, staged) && old(disk.trail) <= disk.trail
      ensures forall k :: |old(disk.trail)| <= k < |disk.trail| ==> Between(r, disk.trail[k])
      ensures ok ==> forall part: Part :: Source(r, part) !in disk.dir
      ensures ok ==> Covered(r, disk.dir, staged) && disk.faults == old(disk.faults)
      ensures !ok ==> disk.faults > old(disk.faults)
      ensures !ok && disk.faults == old(disk.faults) + 1 ==> Kept(r, disk.dir)
    {
      StartIsBetween(r);
      assert AreMoves(r, []) && Covered(r, disk.dir, []);
      hide Between, Staged, AreMoves, Covered;
      staged := [];
      for k := 0 to |PARTS|
        invariant Between(r, disk.dir) && Staged(r, disk.dir) && AreMoves(r, staged) && old(disk.trail) <= disk.trail
        invariant forall j :: |old(disk.trail)| <= j < |disk.trail| ==> Between(r, disk.trail[j])
        invariant forall j :: 0 <= j < k ==> Source(r, PARTS[j]) !in disk.dir
        invariant disk.faults == old(disk.faults)
        invariant forall j :: k <= j < |PARTS| ==> Aside(r, PARTS[j]) !in disk.dir
        invariant Covered(r, disk.dir, staged)
      {
        var source, tombstone := VaultPath(file, PARTS[k]), Tombstone(file, PARTS[k], operation);
        var moved;
        ghost var before, was := disk.dir, staged;
        ok, moved := StageOne(r, PARTS[k], source, tombstone);
        if !ok {
          RollBack(r, staged);
          return;
        }
        if moved {
          staged := staged + [(source, tombstone)];
          MovesGrow(r, was, PARTS[k]);
        }
        CoveredGrows(r, before, disk.dir, was, PARTS[k]);
      }
      ok := true;
      forall part: Part ensures Source(r, part) !in disk.dir {
        assert PARTS[0] == Live && PARTS[1] == Backup && PARTS[2] == Temp;
        assert part == Live || part == Backup || part == Temp;
        assert Source(r, PARTS[0]) !in disk.dir && Source(r, PARTS[1]) !in disk.dir && Source(r, PARTS[2]) !in disk.dir;
      }
    }

    /** The last loop: removes what was moved aside, and says whether all of it went. */
    method DropAll(ghost r: Removal, staged: seq<(Path, Path)>) returns (clean: bool)
      requires Sound(r) && Between(r, disk.dir) && Committed(r, disk.dir) && AreMoves(r, staged)
      requires Covered(r, disk.dir, staged)
      modifies disk
      ensures Between(r, disk.dir) && Committed(r, disk.dir) && old(disk.trail) <= disk.trail
      ensures forall k :: |old(disk.trail)| <= k < |disk.trail| ==> Between(r, disk.trail[k])
      ensures clean ==> Gone(r, disk.dir)
      ensures disk.faults >= old(disk.faults) && (!clean ==> disk.faults > old(disk.faults))
    {
      clean := true;
      for k := 0 to |staged|
        invariant Between(r, disk.dir) && Committed(r, disk.dir) && old(disk.trail) <= disk.trail
        invariant forall j :: |old(disk.trail)| <= j < |disk.trail| ==> Between(r, disk.trail[j])
        invariant Covered(r, disk.dir, staged)
        invariant clean ==> forall j :: 0 <= j < k ==> staged[j].1 !in disk.dir
        invariant disk.faults >= old(disk.faults) && (!clean ==> disk.faults > old(disk.faults))
      {
        ghost var part: Part :| staged[k] == (Source(r, part), Aside(r, part));
        DropKeeps(r, disk.dir, part);
        var ok := disk.Remove(staged[k].1);
        clean := clean && ok;
      }
      if clean {
        forall part: Part ensures Aside(r, part) !in disk.dir {
        }
        CommittedIsNotStaged(r, disk.dir);
        SettledIsAllOrNothing(r, disk.dir);
      }
    }

    /** Starting up again: loads the registry, then finishes or undoes what was interrupted.
        `clean` says that no system call failed on the way. */
    method Restart(ghost r: Removal) returns (clean: bool)
      requires Sound(r) && Between(r, disk.dir) && legacy == r.legacy
      modifies this, disk
      ensures old(disk.trail) <= disk.trail
      ensures forall k :: |old(disk.trail)| <= k < |disk.trail| ==> Between(r, disk.trail[k])
      ensures Between(r, disk.dir) && (RegistersId(registry, r.id) <==> Staged(r, old(disk.dir)))
      ensures clean ==> if RegistersId(registry, r.id) then Kept(r, disk.dir) else Gone(r, disk.dir)
      ensures clean <==> disk.faults == old(disk.faults)
    {
      RegistryIsThere(r, disk.dir);
      hide Between, Staged, Loaded, RegistersFile, RegistersId, Kept, Gone, Sound;
      LoadedSays(r, disk.dir);
      registry := Loaded(disk.dir[RegistryPath].content.registry, disk.dir, legacy);
      ghost var wasStaged, loaded := Staged(r, disk.dir), registry;
      clean := true;
      var entries := set p | p in disk.dir && p.Tombstone?;
      while entries != {}
        invariant Between(r, disk.dir) && old(disk.trail) <= disk.trail && (Staged(r, disk.dir) <==> wasStaged)
        invariant registry == loaded
        invariant disk.faults >= old(disk.faults) && (clean <==> disk.faults == old(disk.faults))
        invariant forall k :: |old(disk.trail)| <= k < |disk.trail| ==> Between(r, disk.trail[k])
        invariant forall p :: p in entries ==> p.Tombstone? && p in disk.dir
        invariant clean ==> forall p: Path :: p in disk.dir && p.Tombstone? ==> p in entries
        decreases entries
      {
        var p :| p in entries;
        entries := entries - {p};
        ReconciledKeeps(r, disk.dir, registry, p);
        var original := VaultPath(p.file, p.part);
        var ok;
        if RegistersFile(registry, p.file) && original !in disk.dir {
          ok := disk.Rename(p, original);
        } else {
          ok := disk.Remove(p);
        }
        clean := clean && ok;
      }
      if clean {
        SettledIsAllOrNothing(r, disk.dir);
      }
    }

    method RecordWith(registry: Registry, id: string) returns (at: nat)
      ensures at <= |registry.vaults| && (at == |registry.vaults| <==> !RegistersId(registry, id))
      ensures at < |registry.vaults| ==> registry.vaults[at].id == id
    {
      at := 0;
      while at < |registry.vaults| && registry.vaults[at].id != id
        invariant at <= |registry.vaults| && forall j :: 0 <= j < at ==> registry.vaults[j].id != id
      {
        at := at + 1;
      }
    }
  }

  lemma MovesGrow(r: Removal, staged: seq<(Path, Path)>, part: Part)
    requires AreMoves(r, staged)
    ensures AreMoves(r, staged + [(Source(r, part), Aside(r, part))])
  {
  }

  lemma CoveredGrows(r: Removal, before: Dir, dir: Dir, staged: seq<(Path, Path)>, part: Part)
    requires Covered(r, before, staged)
    requires forall p :: p != Source(r, part) && p != Aside(r, part) ==> (p in dir <==> p in before)
    ensures Covered(r, dir, staged + [(Source(r, part), Aside(r, part))])
    ensures Aside(r, part) !in dir ==> Covered(r, dir, staged)
  {
    var more := staged + [(Source(r, part), Aside(r, part))];
    assert forall m :: m in staged ==> m in more;
    assert more[|staged|] == (Source(r, part), Aside(r, part));
  }

  /** One move undone. */
  lemma CoveredBack(r: Removal, before: Dir, dir: Dir, staged: seq<(Path, Path)>, part: Part)
    requires Covered(r, before, staged) && staged != [] && staged[|staged| - 1] == (Source(r, part), Aside(r, part))
    requires Aside(r, part) !in dir
    requires forall p :: p != Source(r, part) && p != Aside(r, part) ==> (p in dir <==> p in before)
    ensures Covered(r, dir, staged[..|staged| - 1])
  {
    forall other: Part | Aside(r, other) in dir
      ensures (Source(r, other), Aside(r, other)) in staged[..|staged| - 1]
    {
      assert other != part && Aside(r, other) in before;
      var k :| 0 <= k < |staged| && staged[k] == (Source(r, other), Aside(r, other));
      assert staged[..|staged| - 1][k] == staged[k];
    }
  }

  /** With nothing of the removal aside any more, everything is in its place. */
  lemma NothingAside(r: Removal, dir: Dir, staged: seq<(Path, Path)>)
    requires Sound(r) && Between(r, dir) && Staged(r, dir) && staged == [] && Covered(r, dir, staged)
    ensures Kept(r, dir)
  {
    forall p: Path | p.Tombstone? ensures p !in dir {
      assert forall part: Part :: Aside(r, part) !in dir;
    }
    SettledIsAllOrNothing(r, dir);
  }

  /** Every tombstone of the removal is on the list. */
  ghost predicate Covered(r: Removal, dir: Dir, staged: seq<(Path, Path)>) {
    forall part: Part :: Aside(r, part) in dir ==> (Source(r, part), Aside(r, part)) in staged
  }

  ghost predicate AreMoves(r: Removal, staged: seq<(Path, Path)>) {
    forall k :: 0 <= k < |staged| ==> exists part: Part :: staged[k] == (Source(r, part), Aside(r, part))
  }
}
