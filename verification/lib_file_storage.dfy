/**
 * `FileStorage` of lib_file_storage.py over the directory model of `Disk`.
 * A stored file has one name in four roles: the name the uploader gave
 * (original), and the disk, url and display names, which are all the
 * canonical form given by `clean_filename`.
 */
module LibFileStorage {
  import opened Results
  import opened Text
  import opened FileNames
  import opened Disk

  /** One element of the list built by `enumerate_files`. */
  datatype StoredItem = StoredItem(fullDiskFilename: string, urlFilename: string, displayFilename: string)

  /** The three-element list returned by `get_file_info_to_read`. */
  datatype ReadInfo = ReadInfo(storageDirectory: string, diskFilename: string, displayFilename: string)

  /** The exception `_canonize_file` raises when `clean_filename` is not idempotent. */
  datatype IntegrityError = CanonizeFailed(filename: string)

  /** A disk name is a single path segment: no `/`, no NUL, never empty, `.` or `..`. */
  lemma CleanNameIsPathSegment(s: string)
    requires IsCleanName(s)
    ensures IsPathSegment(s)
  {
  }

  /** The url names of a listing. */
  function UrlNames(files: seq<StoredItem>): set<string>
  {
    set i | 0 <= i < |files| :: files[i].urlFilename
  }

  lemma UrlNamesAppend(files: seq<StoredItem>, item: StoredItem)
    ensures UrlNames(files + [item]) == UrlNames(files) + {item.urlFilename}
  {
    var longer := files + [item];
    forall n | n in UrlNames(longer) ensures n in UrlNames(files) + {item.urlFilename} {
      var i :| 0 <= i < |longer| && longer[i].urlFilename == n;
      if i < |files| {
        assert files[i].urlFilename == n;
      }
    }
    forall n | n in UrlNames(files) ensures n in UrlNames(longer) {
      var i :| 0 <= i < |files| && files[i].urlFilename == n;
      assert longer[i].urlFilename == n;
    }
    assert longer[|files|].urlFilename == item.urlFilename;
  }

  /** A listing without repeated names has as many names as items. */
  lemma {:induction false} DistinctListingSize(files: seq<StoredItem>)
    requires forall i, j :: 0 <= i < j < |files| ==> files[i].urlFilename != files[j].urlFilename
    ensures |UrlNames(files)| == |files|
  {
    if files != [] {
      var init := files[..|files| - 1];
      var last := files[|files| - 1];
      assert files == init + [last];
      DistinctListingSize(init);
      UrlNamesAppend(init, last);
      assert last.urlFilename !in UrlNames(init);
    }
  }

  // ---------------------------------------------------------------------
  // The retention loop, `_retension_thread_procedure`, over a clock that
  // is read at three points of each iteration.
  // ---------------------------------------------------------------------

  /** A sweep is due once more than ten minutes have passed since the previous one. */
  const CheckIntervalSeconds := 10 * 60

  /**
   * What one iteration of the loop observes: the clock at the top of the
   * loop, the clock `_check_retention` reads, the clock stored as
   * `previous_check_time` after a sweep, and whether `stop()` has set
   * `_stopping` by the time the iteration checks it.
   */
  datatype Tick = Tick(now: int, sweepClock: int, finishedAt: int, stopRequested: bool)

  /**
   * `previous_check_time` at the start of iteration `i`: 0 before any
   * sweep, and otherwise the end time of the latest sweep.
   */
  function LastCheck(ticks: seq<Tick>, i: nat): int
    requires i <= |ticks|
  {
    if i == 0 then 0
    else if ticks[i - 1].now - LastCheck(ticks, i - 1) > CheckIntervalSeconds then ticks[i - 1].finishedAt
    else LastCheck(ticks, i - 1)
  }

  /**
   * Iteration `i` runs `_check_retention`: more than ten minutes have passed
   * since `previous_check_time`. A sweeping iteration records its end time
   * as the next `previous_check_time`; any other leaves it alone.
   */
  predicate Sweeps(ticks: seq<Tick>, i: nat)
    requires i < |ticks|
    ensures Sweeps(ticks, i) ==> LastCheck(ticks, i + 1) == ticks[i].finishedAt
    ensures !Sweeps(ticks, i) ==> LastCheck(ticks, i + 1) == LastCheck(ticks, i)
  {
    ticks[i].now - LastCheck(ticks, i) > CheckIntervalSeconds
  }

  /**
   * How many iterations run, from iteration `i` with `_stopping` equal to
   * `stopping`: the loop breaks at the end of the first iteration that
   * sees the flag set. A schedule that ends without a stop request ends
   * the run there.
   */
  function RunLength(ticks: seq<Tick>, i: nat, stopping: bool): (n: nat)
    requires i <= |ticks|
    ensures i <= n <= |ticks|
    decreases |ticks| - i
  {
    if i == |ticks| then i
    else if stopping || ticks[i].stopRequested then i + 1
    else RunLength(ticks, i + 1, false)
  }

  /** The directory after the first `n` iterations, each sweeping or not as scheduled. */
  function SweptEntries(entries: map<string, Entry>, ticks: seq<Tick>, n: nat, maxAge: int): map<string, Entry>
    requires n <= |ticks|
  {
    if n == 0 then entries
    else
      var before := SweptEntries(entries, ticks, n - 1, maxAge);
      if Sweeps(ticks, n - 1) then AfterRetention(before, ticks[n - 1].sweepClock, maxAge) else before
  }

  /** The first iteration sweeps whenever the clock is past ten minutes after the epoch. */
  lemma FirstIterationSweeps(ticks: seq<Tick>)
    requires |ticks| > 0 && ticks[0].now > CheckIntervalSeconds
    ensures Sweeps(ticks, 0)
  {
  }

  /** `previous_check_time` is always 0 or the end time of an earlier iteration. */
  lemma {:induction false} LastCheckIsAnEndTime(ticks: seq<Tick>, i: nat)
    requires i <= |ticks|
    ensures LastCheck(ticks, i) == 0 || exists k :: 0 <= k < i && LastCheck(ticks, i) == ticks[k].finishedAt
  {
    if i > 0 && !Sweeps(ticks, i - 1) {
      LastCheckIsAnEndTime(ticks, i - 1);
    }
  }

  /** Before the first sweep, `previous_check_time` is still 0. */
  lemma {:induction false} LastCheckBeforeAnySweep(ticks: seq<Tick>, j: nat)
    requires j <= |ticks|
    requires forall m :: 0 <= m < j ==> !Sweeps(ticks, m)
    ensures LastCheck(ticks, j) == 0
  {
    if j > 0 {
      LastCheckBeforeAnySweep(ticks, j - 1);
      assert !Sweeps(ticks, j - 1);
    }
  }

  /** After a sweep at iteration `k`, `previous_check_time` is that sweep's end time until the next sweep. */
  lemma {:induction false} LastCheckIsLastSweep(ticks: seq<Tick>, k: nat, j: nat)
    requires k < j <= |ticks|
    requires Sweeps(ticks, k)
    requires forall m :: k < m < j ==> !Sweeps(ticks, m)
    ensures LastCheck(ticks, j) == ticks[k].finishedAt
  {
    if j > k + 1 {
      LastCheckIsLastSweep(ticks, k, j - 1);
      assert !Sweeps(ticks, j - 1);
    } else {
      assert Sweeps(ticks, j - 1);
    }
  }

  /**
   * Between consecutive sweeps: an iteration `j` after the sweep at `k`,
   * with no sweep in between, sweeps exactly when more than ten minutes
   * have passed since the sweep at `k` finished.
   */
  lemma SweepsAreTenMinutesApart(ticks: seq<Tick>, k: nat, j: nat)
    requires k < j < |ticks|
    requires Sweeps(ticks, k)
    requires forall m :: k < m < j ==> !Sweeps(ticks, m)
    ensures Sweeps(ticks, j) <==> ticks[j].now - ticks[k].finishedAt > CheckIntervalSeconds
  {
    LastCheckIsLastSweep(ticks, k, j);
  }

  /** The loop runs up to and including the first iteration at which a stop has been requested. */
  lemma {:induction false} RunEndsAtFirstStopRequest(ticks: seq<Tick>, i: nat, k: nat)
    requires i <= k < |ticks|
    requires ticks[k].stopRequested
    requires forall m :: i <= m < k ==> !ticks[m].stopRequested
    ensures RunLength(ticks, i, false) == k + 1
    decreases k - i
  {
    if i < k {
      RunEndsAtFirstStopRequest(ticks, i + 1, k);
    }
  }

  /** Without a stop request the loop goes on for as long as the schedule lasts. */
  lemma {:induction false} RunWithoutStopRequest(ticks: seq<Tick>, i: nat)
    requires i <= |ticks|
    requires forall m :: i <= m < |ticks| ==> !ticks[m].stopRequested
    ensures RunLength(ticks, i, false) == |ticks|
    decreases |ticks| - i
  {
    if i < |ticks| {
      RunWithoutStopRequest(ticks, i + 1);
    }
  }

  /** A sweep at `clock` absorbs every earlier sweep made at a clock no later than it. */
  lemma {:induction false} SweepAbsorbsEarlierSweeps(entries: map<string, Entry>, ticks: seq<Tick>, k: nat, clock: int, maxAge: int)
    requires k <= |ticks|
    requires forall m :: 0 <= m < k && Sweeps(ticks, m) ==> ticks[m].sweepClock <= clock
    ensures AfterRetention(SweptEntries(entries, ticks, k, maxAge), clock, maxAge) == AfterRetention(entries, clock, maxAge)
  {
    if k > 0 {
      var before := SweptEntries(entries, ticks, k - 1, maxAge);
      SweepAbsorbsEarlierSweeps(entries, ticks, k - 1, clock, maxAge);
      if Sweeps(ticks, k - 1) {
        LaterSweepSubsumes(before, ticks[k - 1].sweepClock, clock, maxAge);
      }
    }
  }

  /**
   * With a sweep clock that never goes back, the directory after any
   * number of iterations is the directory after the last sweep alone.
   */
  lemma {:induction false} SweepsCollapseToTheLast(entries: map<string, Entry>, ticks: seq<Tick>, k: nat, n: nat, maxAge: int)
    requires k < n <= |ticks|
    requires forall i, j :: 0 <= i < j < |ticks| ==> ticks[i].sweepClock <= ticks[j].sweepClock
    requires Sweeps(ticks, k)
    requires forall m :: k < m < n ==> !Sweeps(ticks, m)
    ensures SweptEntries(entries, ticks, n, maxAge) == AfterRetention(entries, ticks[k].sweepClock, maxAge)
  {
    if n > k + 1 {
      SweepsCollapseToTheLast(entries, ticks, k, n - 1, maxAge);
      assert !Sweeps(ticks, n - 1);
    } else {
      SweepAbsorbsEarlierSweeps(entries, ticks, k, ticks[k].sweepClock, maxAge);
    }
  }

  /** Iterations that do not sweep leave the directory alone. */
  lemma {:induction false} NoSweepLeavesEntries(entries: map<string, Entry>, ticks: seq<Tick>, n: nat, maxAge: int)
    requires n <= |ticks|
    requires forall m :: 0 <= m < n ==> !Sweeps(ticks, m)
    ensures SweptEntries(entries, ticks, n, maxAge) == entries
  {
    if n > 0 {
      NoSweepLeavesEntries(entries, ticks, n - 1, maxAge);
    }
  }

  class FileStorage {
    const storageDirectory: string
    const maxStoreTimeSeconds: int
    const dir: Directory
    var stopping: bool

    /** `__init__`; the directory is given already present. */
    constructor (storageDirectory: string, maxStoreTimeSeconds: int, dir: Directory)
      ensures this.storageDirectory == storageDirectory
      ensures this.maxStoreTimeSeconds == maxStoreTimeSeconds
      ensures this.dir == dir && !stopping
    {
      this.storageDirectory := storageDirectory;
      this.maxStoreTimeSeconds := maxStoreTimeSeconds;
      this.dir := dir;
      stopping := false;
    }

    /** `_canonize_file`: `clean_filename` with its integrity check, which never fails. */
    static function CanonizeFile(filename: string): (r: Result<string, IntegrityError>)
      ensures r == Success(CleanFilename(filename))
    {
      var canonized := CleanFilename(filename);
      CleanFilenameIdempotent(filename);
      if CleanFilename(canonized) != canonized then Failure(CanonizeFailed(filename)) else Success(canonized)
    }

    /** `_fname_original_to_disk`: always a clean name, and the name itself exactly when it is clean. */
    static function FnameOriginalToDisk(originalFilename: string): (r: Result<string, IntegrityError>)
      ensures r.Success? && IsCleanName(r.value)
      ensures r.value == originalFilename <==> IsCleanName(originalFilename)
    {
      FixedPointsAreCleanNames(originalFilename);
      CanonizeFile(originalFilename)
    }

    /** `_fname_url_to_disk`: always a clean name, and the name itself exactly when it is clean. */
    static function FnameUrlToDisk(urlFilename: string): (r: Result<string, IntegrityError>)
      ensures r.Success? && IsCleanName(r.value)
      ensures r.value == urlFilename <==> IsCleanName(urlFilename)
    {
      FixedPointsAreCleanNames(urlFilename);
      CanonizeFile(urlFilename)
    }

    /** `_fname_disk_to_url`: the url of a disk name leads back to that disk name. */
    static function FnameDiskToUrl(diskFilename: string): (r: string)
      ensures IsCleanName(diskFilename) ==> FnameUrlToDisk(r) == Success(diskFilename)
    {
      diskFilename
    }

    /** `_fname_disk_to_display`: the name shown is the url name, so it also leads back to the disk name. */
    static function FnameDiskToDisplay(diskFilename: string): (r: string)
      ensures r == FnameDiskToUrl(diskFilename)
      ensures IsCleanName(diskFilename) ==> FnameUrlToDisk(r) == Success(diskFilename)
    {
      diskFilename
    }

    /**
     * The four roles of a name: original, url and display names all map to
     * the same disk name, and a url taken from a disk name leads back to it.
     */
    static lemma NameRolesAgree(originalFilename: string)
      ensures FnameOriginalToDisk(originalFilename).Success?
      ensures var disk := FnameOriginalToDisk(originalFilename).value;
        && FnameUrlToDisk(FnameDiskToUrl(disk)) == Success(disk)
        && FnameDiskToDisplay(disk) == disk
        && IsPathSegment(disk)
    {
      var disk := CleanFilename(originalFilename);
      CleanFilenameIdempotent(originalFilename);
      CleanNameIsPathSegment(disk);
    }

    /** The entry `enumerate_files` lists for a file whose disk name is `diskFilename`. */
    function Describe(diskFilename: string): (r: StoredItem)
      ensures r.urlFilename == r.displayFilename == diskFilename
      ensures IsPathSegment(diskFilename) ==>
        && storageDirectory <= r.fullDiskFilename && |diskFilename| <= |r.fullDiskFilename|
        && r.fullDiskFilename[|r.fullDiskFilename| - |diskFilename|..] == diskFilename
    {
      JoinPlacesSegmentUnderRoot(storageDirectory, diskFilename);
      StoredItem(Join(storageDirectory, diskFilename),
                 FnameDiskToUrl(diskFilename), FnameDiskToDisplay(diskFilename))
    }

    /** `files` lists the names `names`, each once, each as `Describe` gives it. */
    ghost predicate ListsExactly(files: seq<StoredItem>, names: set<string>)
    {
      && (forall i :: 0 <= i < |files| ==> files[i] == Describe(files[i].urlFilename))
      && (forall i, j :: 0 <= i < j < |files| ==> files[i].urlFilename != files[j].urlFilename)
      && UrlNames(files) == names
    }

    /** One step of the listing loop keeps it listing exactly the regular files seen so far. */
    lemma ListingStep(listing: map<string, Entry>, files: seq<StoredItem>, seen: set<string>,
                      remaining: set<string>, diskFilename: string)
      requires remaining <= listing.Keys && diskFilename in remaining
      requires seen == RegularFiles(listing) - remaining && ListsExactly(files, seen)
      ensures listing[diskFilename].File? ==>
        && seen + {diskFilename} == RegularFiles(listing) - (remaining - {diskFilename})
        && ListsExactly(files + [Describe(diskFilename)], seen + {diskFilename})
      ensures !listing[diskFilename].File? ==>
        seen == RegularFiles(listing) - (remaining - {diskFilename})
    {
      if listing[diskFilename].File? {
        var item := Describe(diskFilename);
        assert forall i :: 0 <= i < |files| ==> files[i].urlFilename in UrlNames(files);
        UrlNamesAppend(files, item);
      }
    }

    /** `enumerate_files`: one item per regular file in the directory, in listing order. */
    method EnumerateFiles() returns (files: seq<StoredItem>)
      ensures forall i :: 0 <= i < |files| ==> files[i] == Describe(files[i].urlFilename)
      ensures forall i, j :: 0 <= i < j < |files| ==> files[i].urlFilename != files[j].urlFilename
      ensures UrlNames(files) == RegularFiles(dir.entries)
      ensures |files| == |RegularFiles(dir.entries)|
    {
      var listing := dir.entries;
      ghost var seen: set<string> := {};
      var remaining := listing.Keys;
      files := [];
      while remaining != {}
        invariant remaining <= listing.Keys
        invariant seen == RegularFiles(listing) - remaining
        invariant ListsExactly(files, seen)
        decreases remaining
      {
        var diskFilename :| diskFilename in remaining;
        ListingStep(listing, files, seen, remaining, diskFilename);
        if listing[diskFilename].File? {
          files := files + [Describe(diskFilename)];
          seen := seen + {diskFilename};
        }
        remaining := remaining - {diskFilename};
      }
      DistinctListingSize(files);
    }

    /** `open_file_to_write`: create the canonical name empty and exclusively, and return its writer. */
    method OpenFileToWrite(originalFilename: string, now: int) returns (r: Result<WriteHandle, OsError>)
      requires dir.Valid()
      modifies dir
      ensures dir.Valid()
      ensures var disk := CleanFilename(originalFilename);
        && (disk in old(dir.entries) ==>
              r == Failure(FileExists(disk)) && dir.entries == old(dir.entries))
        && (disk !in old(dir.entries) ==>
              && r.Success? && fresh(r.value)
              && r.value.dir == dir && r.value.name == disk
              && !r.value.closed && r.value.Linked()
              && dir.entries == old(dir.entries)[disk := File(r.value.ino, [], now)])
    {
      var diskFilename := FnameOriginalToDisk(originalFilename).value;
      CleanNameIsPathSegment(diskFilename);
      r := dir.CreateExclusive(diskFilename, now);
    }

    /** `get_file_info_to_read`: where the file for `urlFilename` lives; existence is not checked. */
    function GetFileInfoToRead(urlFilename: string): (info: ReadInfo)
      ensures info.storageDirectory == storageDirectory
      ensures info.diskFilename == CleanFilename(urlFilename)
      ensures info.displayFilename == info.diskFilename
    {
      var diskFilename := FnameUrlToDisk(urlFilename).value;
      ReadInfo(storageDirectory, diskFilename, FnameDiskToDisplay(diskFilename))
    }

    /** A listed item whose name is clean resolves, through its url, back to its own file. */
    lemma ListedItemResolves(diskFilename: string)
      requires IsCleanName(diskFilename)
      ensures var item := Describe(diskFilename);
        var info := GetFileInfoToRead(item.urlFilename);
        && info.diskFilename == diskFilename
        && info.displayFilename == item.displayFilename
        && Join(info.storageDirectory, info.diskFilename) == item.fullDiskFilename
    {
      CleanNameIsFixedPoint(diskFilename);
    }

    /** `remove_file`: delete the regular file named by the canonical form of `urlFilename`. */
    method RemoveFile(urlFilename: string) returns (r: Result<(), OsError>)
      requires dir.Valid()
      modifies dir`entries
      ensures dir.Valid()
      ensures var disk := CleanFilename(urlFilename);
        && (disk !in old(dir.entries) ==>
              r == Failure(FileNotFound(disk)) && dir.entries == old(dir.entries))
        && (disk in old(dir.entries) && old(dir.entries)[disk].Dir? ==>
              r == Failure(IsADirectory(disk)) && dir.entries == old(dir.entries))
        && (IsFile(old(dir.entries), disk) ==>
              r == Success(()) && dir.entries == old(dir.entries) - {disk})
    {
      var diskFilename := FnameUrlToDisk(urlFilename).value;
      r := dir.Remove(diskFilename);
    }

    /**
     * `remove_all_files`: remove every listed entry, without a file-only
     * filter; the first subdirectory met stops it with an error.
     */
    method RemoveAllFiles() returns (r: Result<(), OsError>)
      requires dir.Valid()
      modifies dir`entries
      ensures dir.Valid()
      ensures r.Success? <==> HoldsOnlyFiles(old(dir.entries))
      ensures r.Success? ==> dir.entries == map[]
      ensures r.Failure? ==>
        r.error.IsADirectory? && r.error.name in old(dir.entries) && old(dir.entries)[r.error.name].Dir?
      ensures forall n :: n in dir.entries ==> n in old(dir.entries) && dir.entries[n] == old(dir.entries)[n]
      ensures forall n :: n in old(dir.entries) && old(dir.entries)[n].Dir? ==> n in dir.entries
    {
      ghost var original := dir.entries;
      var remaining := dir.entries.Keys;
      while remaining != {}
        invariant dir.Valid()
        invariant remaining <= original.Keys
        invariant dir.entries == map n | n in original && n in remaining :: original[n]
        invariant forall n :: n in original && n !in remaining ==> original[n].File?
        decreases remaining
      {
        var diskFilename :| diskFilename in remaining;
        var removed := dir.Remove(diskFilename);
        if removed.Failure? {
          return removed;
        }
        remaining := remaining - {diskFilename};
      }
      r := Success(());
    }

    /** `_check_retention`: delete every regular file older than the retention limit at `now`. */
    method CheckRetention(now: int)
      requires dir.Valid()
      modifies dir`entries
      ensures dir.Valid()
      ensures dir.entries == AfterRetention(old(dir.entries), now, maxStoreTimeSeconds)
    {
      ghost var original := dir.entries;
      var remaining := dir.entries.Keys;
      while remaining != {}
        invariant dir.Valid()
        invariant remaining <= original.Keys
        invariant dir.entries == map n | n in original &&
          (n in remaining || !Expired(original[n], now, maxStoreTimeSeconds)) :: original[n]
        decreases remaining
      {
        var file :| file in remaining;
        if IsFile(dir.entries, file) {
          var modifiedUnixtime := dir.entries[file].mtime;
          if now - modifiedUnixtime > maxStoreTimeSeconds {
            var removed := dir.Remove(file);
          }
        }
        remaining := remaining - {file};
      }
    }

    /**
     * `_retension_thread_procedure` run against a finite schedule: sweep
     * when due, then stop at the end of the first iteration that finds
     * `_stopping` set. `swept[i]` says whether iteration `i` swept.
     */
    method RetensionThreadProcedure(ticks: seq<Tick>) returns (swept: seq<bool>)
      requires dir.Valid()
      modifies this`stopping, dir`entries
      ensures dir.Valid()
      ensures |swept| == RunLength(ticks, 0, old(stopping))
      ensures forall i :: 0 <= i < |swept| ==> swept[i] == Sweeps(ticks, i)
      ensures dir.entries == SweptEntries(old(dir.entries), ticks, |swept|, maxStoreTimeSeconds)
    {
      var previousCheckTime := 0;
      var i := 0;
      swept := [];
      while i < |ticks|
        invariant i <= |ticks| && |swept| == i
        invariant dir.Valid()
        invariant previousCheckTime == LastCheck(ticks, i)
        invariant forall m :: 0 <= m < i ==> swept[m] == Sweeps(ticks, m)
        invariant dir.entries == SweptEntries(old(dir.entries), ticks, i, maxStoreTimeSeconds)
        invariant RunLength(ticks, i, stopping) == RunLength(ticks, 0, old(stopping))
        decreases |ticks| - i
      {
        var now := ticks[i].now;
        if now - previousCheckTime > CheckIntervalSeconds {
          CheckRetention(ticks[i].sweepClock);
          previousCheckTime := ticks[i].finishedAt;
          swept := swept + [true];
        } else {
          swept := swept + [false];
        }
        // stop() sets the flag from another thread; the wait ends once it is set
        if ticks[i].stopRequested {
          stopping := true;
        }
        i := i + 1;
        if stopping {
          break;
        }
      }
    }
  }

  /** Storing twice under one key keeps the second value only. */
  lemma OverwriteTwice<K, V>(m: map<K, V>, k: K, v1: V, v2: V)
    ensures m[k := v1][k := v2] == m[k := v2]
  {
  }

  /**
   * The body of the tests' `with` block over a fresh handle: write `data`
   * when it is not empty, then close. An empty `write` reaches no system
   * call through Python's buffered writer, so it is left out here and the
   * file keeps the time stamp of its creation.
   */
  method WriteAndClose(file: WriteHandle, data: seq<bv8>, now: int)
    requires file.dir.Valid() && !file.closed && file.Linked()
    modifies file.dir`entries, file`closed
    ensures file.dir.Valid() && file.closed
    ensures |data| > 0 ==>
      file.dir.entries == old(file.dir.entries)[file.name := File(file.ino, old(file.dir.entries[file.name].content) + data, now)]
    ensures |data| == 0 ==> file.dir.entries == old(file.dir.entries)
  {
    if |data| > 0 {
      var written := file.Write(data, now);
    }
    file.Close();
  }

  /**
   * The upload block of the storage tests, `with open_file_to_write(name)
   * as file: file.write(data)`: for a name not yet taken, the file holds
   * exactly the bytes written once the block ends.
   */
  method UploadFile(storage: FileStorage, originalFilename: string, data: seq<bv8>, now: int) returns (ino: nat)
    requires storage.dir.Valid()
    requires CleanFilename(originalFilename) !in storage.dir.entries
    modifies storage.dir
    ensures storage.dir.Valid()
    ensures storage.dir.entries ==
      old(storage.dir.entries)[CleanFilename(originalFilename) := File(ino, data, now)]
  {
    var openResult := storage.OpenFileToWrite(originalFilename, now);
    var file := openResult.value;
    ino := file.ino;
    WriteAndClose(file, data, now);
    if |data| > 0 {
      OverwriteTwice(old(storage.dir.entries), file.name, File(ino, [], now), File(ino, [] + data, now));
      assert [] + data == data;
    }
  }

  /**
   * `process_single_file` of the storage tests: upload one file into an
   * empty store, find it listed under its own name with its bytes, resolve
   * it for reading, remove it, and find the store empty again.
   */
  method ProcessSingleFile(storage: FileStorage, originalFilename: string, data: seq<bv8>, now: int)
    requires storage.dir.Valid() && storage.dir.entries == map[]
    requires IsCleanName(originalFilename)
    modifies storage.dir
    ensures storage.dir.entries == map[]
  {
    var dir := storage.dir;
    var files := storage.EnumerateFiles();
    assert |files| == 0 by {
      assert RegularFiles(dir.entries) == {};
    }

    CleanNameIsFixedPoint(originalFilename);
    var ino := UploadFile(storage, originalFilename, data, now);
    assert dir.entries == map[originalFilename := File(ino, data, now)];

    files := storage.EnumerateFiles();
    assert RegularFiles(dir.entries) == {originalFilename};
    assert |files| == 1;
    var item := files[0];
    assert item.urlFilename in UrlNames(files);
    assert item.urlFilename == originalFilename;
    assert item.displayFilename == originalFilename;

    var info := storage.GetFileInfoToRead(item.urlFilename);
    assert info.displayFilename == item.displayFilename;
    assert dir.entries[info.diskFilename].content == data;

    var removed := storage.RemoveFile(item.urlFilename);
    assert removed.Success?;
    files := storage.EnumerateFiles();
    assert dir.entries == map[];
  }

  /** `len(storage.enumerate_files())`, as the storage tests check it: the number of regular files. */
  method CountListed(storage: FileStorage) returns (n: nat)
    ensures n == |RegularFiles(storage.dir.entries)|
  {
    var files := storage.EnumerateFiles();
    n := |files|;
  }

  /** `enumerate_files()` seen through its length and its url names. */
  method ListedNames(storage: FileStorage) returns (n: nat, names: set<string>)
    ensures n == |RegularFiles(storage.dir.entries)|
    ensures names == RegularFiles(storage.dir.entries)
  {
    var files := storage.EnumerateFiles();
    n := |files|;
    names := UrlNames(files);
  }

  /** An upload under a name that is already clean stores the file under that very name. */
  method UploadCleanName(storage: FileStorage, name: string, data: seq<bv8>, now: int) returns (ino: nat)
    requires storage.dir.Valid() && IsCleanName(name) && name !in storage.dir.entries
    modifies storage.dir
    ensures storage.dir.Valid()
    ensures storage.dir.entries == old(storage.dir.entries)[name := File(ino, data, now)]
    ensures RegularFiles(storage.dir.entries) == RegularFiles(old(storage.dir.entries)) + {name}
    ensures HoldsOnlyFiles(old(storage.dir.entries)) ==> HoldsOnlyFiles(storage.dir.entries)
  {
    CleanNameIsFixedPoint(name);
    ino := UploadFile(storage, name, data, now);
    StoringAddsRegularFile(old(storage.dir.entries), name, File(ino, data, now));
  }

  /** `remove_file` on a listed clean name removes exactly that file. */
  method RemoveCleanName(storage: FileStorage, name: string)
    requires storage.dir.Valid() && IsCleanName(name) && IsFile(storage.dir.entries, name)
    modifies storage.dir`entries
    ensures storage.dir.Valid()
    ensures storage.dir.entries == old(storage.dir.entries) - {name}
  {
    CleanNameIsFixedPoint(name);
    var removed := storage.RemoveFile(name);
  }

  /**
   * `test_multiple_files`: two uploads under different clean names are
   * listed together, and removing them one by one empties the store.
   */
  method MultipleFiles(storage: FileStorage, name1: string, data1: seq<bv8>, name2: string, data2: seq<bv8>, now: int)
    requires storage.dir.Valid() && storage.dir.entries == map[]
    requires IsCleanName(name1) && IsCleanName(name2) && name1 != name2
    modifies storage.dir
    ensures storage.dir.entries == map[]
  {
    var dir := storage.dir;
    var ino1 := UploadCleanName(storage, name1, data1, now);
    var count := CountListed(storage);
    assert RegularFiles(dir.entries) == {name1};
    assert count == 1;

    var ino2 := UploadCleanName(storage, name2, data2, now);
    var names;
    count, names := ListedNames(storage);
    assert RegularFiles(dir.entries) == {name1, name2};
    assert count == 2;
    assert names == {name1, name2};

    RemoveCleanName(storage, name1);
    count := CountListed(storage);
    assert RegularFiles(dir.entries) == {name2};
    assert count == 1;

    RemoveCleanName(storage, name2);
    assert dir.entries == map[];
  }

  /** Storing a file under a name adds that name to the regular files and keeps a directory of files only. */
  lemma StoringAddsRegularFile(entries: map<string, Entry>, name: string, file: Entry)
    requires file.File?
    ensures RegularFiles(entries[name := file]) == RegularFiles(entries) + {name}
    ensures HoldsOnlyFiles(entries) ==> HoldsOnlyFiles(entries[name := file])
  {
  }

  /**
   * `test_remove_all_files`: three uploads, the first of them empty, are
   * listed, and `remove_all_files` succeeds and empties the store.
   */
  method RemoveAllAfterUploads(storage: FileStorage, name1: string, name2: string, name3: string,
                               data2: seq<bv8>, data3: seq<bv8>, now: int)
    requires storage.dir.Valid() && storage.dir.entries == map[]
    requires IsCleanName(name1) && IsCleanName(name2) && IsCleanName(name3)
    requires name1 != name2 && name1 != name3 && name2 != name3
    modifies storage.dir
    ensures storage.dir.entries == map[]
  {
    var dir := storage.dir;
    assert RegularFiles(dir.entries) == {} && HoldsOnlyFiles(dir.entries);
    var ino1 := UploadCleanName(storage, name1, [], now);
    var ino2 := UploadCleanName(storage, name2, data2, now);
    var ino3 := UploadCleanName(storage, name3, data3, now);

    var count := CountListed(storage);
    assert |{} + {name1} + {name2} + {name3}| == 3;
    assert count == 3;

    var r := storage.RemoveAllFiles();
    assert r.Success?;
  }
}
