/** A directory, one system call at a time.

    Every call may fail, and the disk remembers every state it has been through, so that a promise
    about a crash can be stated as a promise about all of them. */
module Disks {
  import opened Crypto
  import opened UnlockedVaults

  /** The three files of one vault. */
  datatype Part = Live | Backup | Temp

  /** File names, as the structure they are built from: a vault's file, one moved aside by the
      deletion numbered `operation`, the registry and its temporary file, and anything else. */
  datatype Path =
    | VaultPath(file: string, part: Part)
    | Tombstone(file: string, part: Part, operation: nat)
    | RegistryPath
    | RegistryTemp
    | OtherPath(name: string)

  datatype Record = Record(id: string, name: string, file: string)

  datatype Registry = Registry(selected: Option<string>, vaults: seq<Record>)

  /** What a file holds: a whole vault, a whole registry, or anything that parses as neither. */
  datatype Content = VaultBytes(vault: VaultFile) | RegistryBytes(registry: Registry) | Torn(bytes: seq<Byte>)

  /** `durable` once the bytes have been flushed. */
  datatype File = File(content: Content, durable: bool)

  type Dir = map<Path, File>

  /** What a power cut may leave: flushed files as they were; unflushed ones as anything, or gone.
      Creating, renaming and removing names is taken to reach the disk in order. */
  ghost predicate CrashOf(before: Dir, after: Dir) {
    && after.Keys <= before.Keys
    && (forall p :: p in before && before[p].durable ==> p in after && after[p] == before[p])
    && (forall p :: p in after ==> after[p].durable)
  }

  /** A moment in writing `content` to `path`: nothing else has changed, and `path` is as it was, or
      unflushed, or done. */
  ghost predicate Writing(before: Dir, dir: Dir, path: Path, content: Content) {
    && (forall p :: p != path ==> (p in dir <==> p in before) && (p in before ==> dir[p] == before[p]))
    && (path in before ==> path in dir)
    && (path in dir ==> || (path in before && dir[path] == before[path])
                        || dir[path] == File(content, true)
                        || !dir[path].durable)
  }

  class Disk {
    var dir: Dir
    ghost var trail: seq<Dir>
    // How many calls have failed.
    ghost var faults: nat

    constructor (initial: Dir)
      ensures dir == initial && trail == [initial] && faults == 0
    {
      dir := initial;
      trail := [initial];
      faults := 0;
    }

    method Exists(path: Path) returns (found: bool)
      ensures found <==> path in dir
    {
      found := path in dir;
    }

    /** Reads a file's metadata, which may fail, or say that it is not a plain file. */
    method Inspect() returns (ok: bool)
      modifies this`faults
      ensures faults == old(faults) + if ok then 0 else 1
    {
      ok := *;
      faults := faults + if ok then 0 else 1;
    }

    /** Reads a whole file; a file that is there may fail to be read. */
    method Read(path: Path) returns (r: Option<Content>)
      modifies this`faults
      ensures r.Some? ==> path in dir && r.value == dir[path].content
      ensures faults == old(faults) + if path in dir && r.None? then 1 else 0
    {
      var readable: bool := *;
      faults := faults + if path in dir && !readable then 1 else 0;
      r := if readable && path in dir then Some(dir[path].content) else None;
    }

    /** Opens for writing, truncating what was there. */
    method Create(path: Path) returns (ok: bool)
      modifies this
      ensures trail == old(trail) + [dir] && faults == old(faults) + if ok then 0 else 1
      ensures dir == if ok then old(dir)[path := File(Torn([]), false)] else old(dir)
    {
      ok := *;
      if ok {
        dir := dir[path := File(Torn([]), false)];
      }
      trail := trail + [dir];
      faults := faults + if ok then 0 else 1;
    }

    method WriteAll(path: Path, content: Content) returns (ok: bool)
      requires path in dir
      modifies this
      ensures trail == old(trail) + [dir] && faults == old(faults) + if ok then 0 else 1
      ensures exists left: Content :: dir == old(dir)[path := File(left, false)] && (ok ==> left == content)
    {
      ok := *;
      var left := content;
      if !ok {
        left := *;
      }
      dir := dir[path := File(left, false)];
      trail := trail + [dir];
      faults := faults + if ok then 0 else 1;
    }

    method SyncAll(path: Path) returns (ok: bool)
      requires path in dir
      modifies this
      ensures trail == old(trail) + [dir] && faults == old(faults) + if ok then 0 else 1
      ensures dir == if ok then old(dir)[path := old(dir)[path].(durable := true)] else old(dir)
    {
      ok := *;
      if ok {
        dir := dir[path := dir[path].(durable := true)];
      }
      trail := trail + [dir];
      faults := faults + if ok then 0 else 1;
    }

    method Copy(from: Path, to: Path) returns (ok: bool)
      requires from in dir && from != to
      modifies this
      ensures trail == old(trail) + [dir] && faults == old(faults) + if ok then 0 else 1
      ensures ok ==> dir == old(dir)[to := File(old(dir)[from].content, false)]
      ensures !ok ==> dir == old(dir) || exists left: Content :: dir == old(dir)[to := File(left, false)]
    {
      ok := *;
      if ok {
        dir := dir[to := File(dir[from].content, false)];
      } else {
        var begun: bool := *;
        if begun {
          var left: Content := *;
          dir := dir[to := File(left, false)];
        }
      }
      trail := trail + [dir];
      faults := faults + if ok then 0 else 1;
    }

    method Rename(from: Path, to: Path) returns (ok: bool)
      modifies this
      ensures trail == old(trail) + [dir] && faults == old(faults) + if ok then 0 else 1
      ensures ok ==> from in old(dir) && dir == (old(dir) - {from})[to := old(dir)[from]]
      ensures !ok ==> dir == old(dir)
    {
      ok := *;
      if from !in dir {
        ok := false;
      }
      if ok {
        var file := dir[from];
        dir := (dir - {from})[to := file];
      }
      trail := trail + [dir];
      faults := faults + if ok then 0 else 1;
    }

    method Remove(path: Path) returns (ok: bool)
      modifies this
      ensures trail == old(trail) + [dir] && faults == old(faults) + if ok then 0 else 1
      ensures dir == if ok then old(dir) - {path} else old(dir)
    {
      ok := *;
      if ok {
        dir := dir - {path};
      }
      trail := trail + [dir];
      faults := faults + if ok then 0 else 1;
    }

    /** Returns only once the bytes are on the disk; touches no other file. */
    method WriteDurably(path: Path, content: Content) returns (ok: bool)
      modifies this
      ensures old(trail) < trail && dir == trail[|trail| - 1]
      ensures forall k :: |old(trail)| <= k < |trail| ==> Writing(old(dir), trail[k], path, content)
      ensures ok ==> dir == old(dir)[path := File(content, true)]
      ensures faults == old(faults) + if ok then 0 else 1
    {
      ok := Create(path);
      if !ok {
        return;
      }
      ok := WriteAll(path, content);
      if !ok {
        return;
      }
      ok := SyncAll(path);
    }
  }
}
