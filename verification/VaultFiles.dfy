/** Saving one vault so that no crash leaves it without a complete copy, and putting a copy back. */
module VaultFiles {
  import opened Crypto
  import opened UnlockedVaults
  import opened Disks

  datatype Startup = Setup | Locked | Recover

  function StartupFor(dir: Dir, file: string): Startup {
    if VaultPath(file, Live) in dir then Locked
    else if VaultPath(file, Backup) in dir || VaultPath(file, Temp) in dir then Recover
    else Setup
  }

  /** The live path durably holds a complete vault, the old one or the new one. */
  ghost predicate HoldsEither(dir: Dir, file: string, was: VaultFile, becomes: VaultFile) {
    && VaultPath(file, Live) in dir
    && (dir[VaultPath(file, Live)] == File(VaultBytes(was), true)
        || dir[VaultPath(file, Live)] == File(VaultBytes(becomes), true))
  }

  /** So whatever a power cut does at that point, the app finds a vault and asks for its password. */
  lemma CrashLeavesAVault(dir: Dir, after: Dir, file: string, was: VaultFile, becomes: VaultFile)
    requires HoldsEither(dir, file, was, becomes) && CrashOf(dir, after)
    ensures StartupFor(after, file) == Locked && HoldsEither(after, file, was, becomes)
  {
  }

  /** Only this vault's own three files differ. */
  ghost predicate OthersUntouched(before: Dir, after: Dir, file: string) {
    forall p: Path :: !(p.VaultPath? && p.file == file) ==>
      (p in before <==> p in after) && (p in before ==> after[p] == before[p])
  }

  method PersistAt(disk: Disk, file: string, vault: VaultFile) returns (ok: bool)
    modifies disk
    ensures old(disk.trail) < disk.trail && disk.dir == disk.trail[|disk.trail| - 1]
    // At every moment of a save over a complete vault, the live path holds a complete vault.
    ensures forall was: VaultFile :: VaultPath(file, Live) in old(disk.dir)
                                     && old(disk.dir)[VaultPath(file, Live)] == File(VaultBytes(was), true) ==>
              forall k :: |old(disk.trail)| <= k < |disk.trail| ==> HoldsEither(disk.trail[k], file, was, vault)
    // A first save shows nothing at the live path until it shows all of it.
    ensures VaultPath(file, Live) !in old(disk.dir) ==>
              forall k :: |old(disk.trail)| <= k < |disk.trail| && VaultPath(file, Live) in disk.trail[k] ==>
                disk.trail[k][VaultPath(file, Live)] == File(VaultBytes(vault), true)
    ensures forall k :: |old(disk.trail)| <= k < |disk.trail| ==> OthersUntouched(old(disk.dir), disk.trail[k], file)
    // A finished save: the new vault live, the previous one in the backup, no temporary file.
    ensures ok ==>
      && VaultPath(file, Live) in disk.dir && disk.dir[VaultPath(file, Live)] == File(VaultBytes(vault), true)
      && VaultPath(file, Temp) !in disk.dir
      && (VaultPath(file, Live) in old(disk.dir) ==>
            && VaultPath(file, Backup) in disk.dir
            && disk.dir[VaultPath(file, Backup)] == File(old(disk.dir)[VaultPath(file, Live)].content, true))
    // It finishes unless a call fails.
    ensures disk.faults == old(disk.faults) + if ok then 0 else 1
  {
    var live, temp, backup := VaultPath(file, Live), VaultPath(file, Temp), VaultPath(file, Backup);
    ok := disk.WriteDurably(temp, VaultBytes(vault));
    if !ok {
      return;
    }
    var there := disk.Exists(live);
    if there {
      ok := disk.Copy(live, backup);
      if !ok {
        return;
      }
      ok := disk.SyncAll(backup);
      if !ok {
        return;
      }
    }
    ok := disk.Rename(temp, live);
  }

  datatype Recovery = Restored | AlreadyThere | NothingToRecover | WriteFailed

  /** The copy recovery would install when these parts cannot be read: the temporary file if it is a
      whole vault, else the backup. */
  function Candidate(dir: Dir, file: string, unread: set<Part>): Option<VaultFile> {
    var temp, backup := VaultPath(file, Temp), VaultPath(file, Backup);
    if Temp !in unread && temp in dir && dir[temp].content.VaultBytes? then Some(dir[temp].content.vault)
    else if Backup !in unread && backup in dir && dir[backup].content.VaultBytes? then Some(dir[backup].content.vault)
    else None
  }

  /** `unread` says which of the copies failed to be read. */
  method RecoverVault(disk: Disk, file: string) returns (r: Recovery, unread: set<Part>)
    modifies disk
    ensures VaultPath(file, Live) in old(disk.dir) ==> r == AlreadyThere && disk.dir == old(disk.dir)
    ensures VaultPath(file, Live) !in old(disk.dir) && Candidate(old(disk.dir), file, unread).None? ==>
              r == NothingToRecover && disk.dir == old(disk.dir)
    ensures VaultPath(file, Live) !in old(disk.dir) && Candidate(old(disk.dir), file, unread).Some? ==>
              && (r == Restored || r == WriteFailed)
              && (r == Restored ==>
                    disk.dir == old(disk.dir)[VaultPath(file, Live) :=
                      File(VaultBytes(Candidate(old(disk.dir), file, unread).value), true)])
    // The temporary file, if it was read and is whole; else the backup, if it was and is.
    ensures r == Restored ==>
              var temp, backup := VaultPath(file, Temp), VaultPath(file, Backup);
              if temp in old(disk.dir) && Temp !in unread && old(disk.dir)[temp].content.VaultBytes?
              then disk.dir[VaultPath(file, Live)] == File(old(disk.dir)[temp].content, true)
              else backup in old(disk.dir) && old(disk.dir)[backup].content.VaultBytes?
                   && disk.dir[VaultPath(file, Live)] == File(old(disk.dir)[backup].content, true)
    // Nothing is called unread and no write fails unless a call does.
    ensures disk.faults == old(disk.faults) ==>
              && r != WriteFailed
              && forall part :: part in unread ==> VaultPath(file, part) !in old(disk.dir)
    // The copies it reads stay where they are throughout.
    ensures old(disk.trail) <= disk.trail
    ensures forall k :: |old(disk.trail)| <= k < |disk.trail| ==>
              disk.trail[k] - {VaultPath(file, Live)} == old(disk.dir) - {VaultPath(file, Live)}
  {
    unread := {};
    var found := disk.Exists(VaultPath(file, Live));
    if found {
      return AlreadyThere, unread;
    }
    var candidates := [Temp, Backup];
    for k := 0 to |candidates|
      invariant disk.dir == old(disk.dir) && disk.trail == old(disk.trail)
      invariant forall part :: part in unread ==> part in candidates[..k]
      invariant disk.faults >= old(disk.faults)
      invariant disk.faults == old(disk.faults) ==> forall part :: part in unread ==> VaultPath(file, part) !in disk.dir
      invariant forall j :: 0 <= j < k ==>
        var path := VaultPath(file, candidates[j]);
        candidates[j] in unread || path !in disk.dir || !disk.dir[path].content.VaultBytes?
    {
      var content := disk.Read(VaultPath(file, candidates[k]));
      if content.None? {
        unread := unread + {candidates[k]};
      } else if content.value.VaultBytes? {
        assert Candidate(disk.dir, file, unread) == Some(content.value.vault) by {
          if k == 1 {
            assert candidates[0] == Temp && candidates[..1] == [Temp];
          }
        }
        var ok := disk.WriteDurably(VaultPath(file, Live), content.value);
        return if ok then Restored else WriteFailed, unread;
      }
    }
    assert candidates[0] == Temp && candidates[1] == Backup;
    r := NothingToRecover;
  }

  /** A first run is what a directory with none of the three files looks like, and nothing else is. */
  lemma SetupExactly(dir: Dir, file: string)
    ensures StartupFor(dir, file) == Setup <==> forall part: Part :: VaultPath(file, part) !in dir
  {
    if forall part: Part :: VaultPath(file, part) !in dir {
      assert VaultPath(file, Live) !in dir && VaultPath(file, Backup) !in dir && VaultPath(file, Temp) !in dir;
    }
    if StartupFor(dir, file) == Setup {
      forall part: Part ensures VaultPath(file, part) !in dir {
        assert part == Live || part == Backup || part == Temp;
      }
    }
  }

  /** A crash in the middle of a first save, or of a save over a lost file, never reads as a first run
      while a durable copy is there, so recovery is offered rather than a new vault. */
  lemma ACopyIsNeverSetup(dir: Dir, after: Dir, file: string, part: Part)
    requires CrashOf(dir, after) && VaultPath(file, part) in dir && dir[VaultPath(file, part)].durable
    ensures StartupFor(after, file) != Setup
    ensures StartupFor(after, file) == Locked <==> VaultPath(file, Live) in after
    ensures part != Live && dir[VaultPath(file, part)].content.VaultBytes? ==> Candidate(after, file, {}).Some?
  {
  }
}
