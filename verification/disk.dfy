/**
 * The part of the operating system the storage code talks to: one
 * directory of entries (regular files and subdirectories), `os.listdir`,
 * `os.path.isfile`, `os.remove`, `io.open(path, 'xb')` and the binary file
 * object it returns, `os.path.join`, and the age test both retention
 * sweeps apply to modification times.
 */
module Disk {
  import opened Results

  /**
   * A directory entry. A regular file carries its inode number, so that an
   * open file object keeps writing to the file it created even after the
   * name has been removed or reused.
   */
  datatype Entry = File(ino: nat, content: seq<bv8>, mtime: int) | Dir

  /** The exceptions of the OS calls that the model keeps. */
  datatype OsError =
    | FileNotFound(name: string)   // FileNotFoundError
    | FileExists(name: string)     // FileExistsError, from mode 'xb'
    | IsADirectory(name: string)   // IsADirectoryError, from os.remove
    | ClosedFile                   // ValueError: write to a closed file

  /** A name that can stand directly under a directory. */
  predicate IsPathSegment(name: string)
  {
    && name != [] && name != "." && name != ".."
    && forall i :: 0 <= i < |name| ==> name[i] != '/' && name[i] != '\0'
  }

  /** `os.path.join(root, name)` for POSIX paths. */
  function Join(root: string, name: string): string
  {
    if name != [] && name[0] == '/' then name
    else if root == [] || root[|root| - 1] == '/' then root + name
    else root + "/" + name
  }

  /**
   * A single path segment lands directly under `root`: the joined path
   * starts with `root` and ends with a separator followed by `name`. An
   * absolute `name` discards `root`.
   */
  lemma JoinPlacesSegmentUnderRoot(root: string, name: string)
    ensures var r := Join(root, name);
      IsPathSegment(name) ==>
        && root <= r && |root| + |name| <= |r| <= |root| + 1 + |name|
        && r[|r| - |name|..] == name
        && (root != [] ==> r[|r| - |name| - 1] == '/')
    ensures name != [] && name[0] == '/' ==> Join(root, name) == name
  {
  }

  /** `os.path.isfile` on an entry of the directory. */
  predicate IsFile(entries: map<string, Entry>, name: string)
  {
    name in entries && entries[name].File?
  }

  /** The names of the regular files in the directory. */
  function RegularFiles(entries: map<string, Entry>): set<string>
  {
    set n | n in entries && entries[n].File?
  }

  /** No entry of the directory is a subdirectory. */
  predicate HoldsOnlyFiles(entries: map<string, Entry>)
  {
    forall n :: n in entries ==> entries[n].File?
  }

  /** The retention rule: a regular file whose age at `now` strictly exceeds `maxAge`. */
  predicate Expired(e: Entry, now: int, maxAge: int)
  {
    e.File? && now - e.mtime > maxAge
  }

  /** The directory after a retention sweep at time `now`. */
  function AfterRetention(entries: map<string, Entry>, now: int, maxAge: int): map<string, Entry>
  {
    map n | n in entries && !Expired(entries[n], now, maxAge) :: entries[n]
  }

  /**
   * A sweep deletes exactly the regular files older than the limit: every
   * other entry stays as it was, and every file left is at most `maxAge`
   * seconds old.
   */
  lemma SweepDeletesExactlyExpiredFiles(entries: map<string, Entry>, now: int, maxAge: int, name: string)
    ensures var after := AfterRetention(entries, now, maxAge);
      && (name in after <==> name in entries && !(entries[name].File? && now - entries[name].mtime > maxAge))
      && (name in after ==> after[name] == entries[name])
      && (name in after && after[name].File? ==> now - after[name].mtime <= maxAge)
  {
  }

  /** A later sweep subsumes an earlier one: sweeping at t1 and then at t2 >= t1 is sweeping at t2. */
  lemma LaterSweepSubsumes(entries: map<string, Entry>, t1: int, t2: int, maxAge: int)
    requires t1 <= t2
    ensures AfterRetention(AfterRetention(entries, t1, maxAge), t2, maxAge) == AfterRetention(entries, t2, maxAge)
  {
  }

  /** The storage directory, with the entries that `os.listdir` would list. */
  class Directory {
    var entries: map<string, Entry>
    var nextIno: nat

    ghost predicate Valid()
      reads this
    {
      forall n :: n in entries ==>
        IsPathSegment(n) && (entries[n].File? ==> entries[n].ino < nextIno)
    }

    constructor (entries: map<string, Entry>, nextIno: nat)
      requires forall n :: n in entries ==>
        IsPathSegment(n) && (entries[n].File? ==> entries[n].ino < nextIno)
      ensures Valid()
      ensures this.entries == entries && this.nextIno == nextIno
    {
      this.entries := entries;
      this.nextIno := nextIno;
    }

    /** `io.open(name, 'xb')`: create an empty file, refusing any name that already has an entry. */
    method CreateExclusive(name: string, now: int) returns (r: Result<WriteHandle, OsError>)
      requires Valid() && IsPathSegment(name)
      modifies this
      ensures Valid()
      ensures name in old(entries) ==>
        r == Failure(FileExists(name)) && entries == old(entries) && nextIno == old(nextIno)
      ensures name !in old(entries) ==>
        && r.Success? && fresh(r.value)
        && r.value.dir == this && r.value.name == name && r.value.ino == old(nextIno)
        && !r.value.closed && r.value.Linked()
        && entries == old(entries)[name := File(old(nextIno), [], now)]
    {
      if name in entries {
        return Failure(FileExists(name));
      }
      var handle := new WriteHandle(this, name, nextIno);
      entries := entries[name := File(nextIno, [], now)];
      nextIno := nextIno + 1;
      r := Success(handle);
    }

    /** `os.remove(name)`: unlink a regular file; a missing name or a directory is an error. */
    method Remove(name: string) returns (r: Result<(), OsError>)
      requires Valid()
      modifies this`entries
      ensures Valid()
      ensures name !in old(entries) ==> r == Failure(FileNotFound(name)) && entries == old(entries)
      ensures name in old(entries) && old(entries)[name].Dir? ==>
        r == Failure(IsADirectory(name)) && entries == old(entries)
      ensures IsFile(old(entries), name) ==> r == Success(()) && entries == old(entries) - {name}
    {
      if name !in entries {
        return Failure(FileNotFound(name));
      }
      if entries[name].Dir? {
        return Failure(IsADirectory(name));
      }
      entries := entries - {name};
      r := Success(());
    }
  }

  /** The binary file object returned by `io.open(name, 'xb')`. */
  class WriteHandle {
    const dir: Directory
    const name: string
    const ino: nat
    var closed: bool

    constructor (dir: Directory, name: string, ino: nat)
      ensures this.dir == dir && this.name == name && this.ino == ino && !closed
    {
      this.dir := dir;
      this.name := name;
      this.ino := ino;
      closed := false;
    }

    /** The name still refers to the file this handle created. */
    predicate Linked()
      reads this, dir
    {
      name in dir.entries && dir.entries[name].File? && dir.entries[name].ino == ino
    }

    /**
     * `write(data)`: append to the file and stamp it with the time of the
     * write. Once the name no longer refers to this file, the bytes go to
     * the unlinked file and the directory does not change.
     */
    method Write(data: seq<bv8>, now: int) returns (r: Result<nat, OsError>)
      requires dir.Valid()
      modifies dir`entries
      ensures dir.Valid()
      ensures closed ==> r == Failure(ClosedFile) && dir.entries == old(dir.entries)
      ensures !closed ==> r == Success(|data|)
      ensures !closed && old(Linked()) ==>
        dir.entries == old(dir.entries)[name := File(ino, old(dir.entries[name].content) + data, now)]
      ensures !closed && !old(Linked()) ==> dir.entries == old(dir.entries)
    {
      if closed {
        return Failure(ClosedFile);
      }
      if Linked() {
        dir.entries := dir.entries[name := File(ino, dir.entries[name].content + data, now)];
      }
      r := Success(|data|);
    }

    /** `close()`, as at the end of a `with` block. */
    method Close()
      modifies this`closed
      ensures closed
    {
      closed := true;
    }
  }
}
