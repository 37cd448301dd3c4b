# Limbo file storage, modelled in Dafny

Limbo is a small file-sharing server. Clients upload files, the server
keeps each file under a sanitised name in one storage directory, lists and
serves the files back, and a background sweep deletes files older than a
retention limit. This project models the storage engine of
`lib_file_storage.py` and the older single-file server `duplo.py`, and
proves properties of the model.

- `text.dfy`, module `Text`: the parts of Python's `re` behaviour that both
  name cleaners rely on. These are substitution over a character class,
  the device-name alternation `CON|PRN|AUX|NUL|COM\d|LPT\d` under
  IGNORECASE, and the `$` anchor, which also matches before a final newline.
- `file_names.dfy`, module `FileNames`: `clean_filename` of the library.
  It runs five steps: truncate, strip trailing dots and spaces, replace
  forbidden characters, rewrite a device stem to `DEV`, and replace an empty
  result with `EMPTY`. The module proves that every result is a clean
  name, that the clean names are exactly the fixed points, and that the
  function is idempotent.
- `disk.dfy`, module `Disk`: the one directory the code talks to.
  - A `Directory` class holds a map from names to entries. An entry is a
    regular file or a subdirectory.
  - Its methods model `io.open(path, 'xb')` and `os.remove`.
  - A `WriteHandle` class models the binary file object.
  - The module also holds POSIX `os.path.join` and the retention sweep as a
    function on the map.
- `lib_file_storage.dfy`, module `LibFileStorage`: the `FileStorage`
  class.
  - The four name roles are original, disk, url and display. The model
    covers them, the `_canonize_file` integrity check, listing, upload,
    read lookup, removal, bulk removal and the retention sweep.
  - `_retension_thread_procedure` is modelled against a finite schedule of
    clock readings and stop requests.
  - The storage tests (`tests/test_storage.py`) are modelled as methods
    whose bodies assert what the tests check.
- `duplo.dfy`, module `Duplo`: the `clean_filename` and `check_retention`
  of `duplo.py`.
- `results.dfy`, module `Results`: a `Result` datatype for the error paths.

Times are integers passed in as parameters. The storage directory's
contents are a `map<string, Entry>`, and every regular file carries an
inode number. A handle therefore keeps writing to the file it created, even
after its name has been removed or reused.

## Model

| member | source | states |
|---|---|---|
| Text.ReplaceChars | lib_file_storage.py:34 | substituting a character class keeps the length, turns each class member into `_` and keeps every other character |
| FileNames.Truncate | lib_file_storage.py:30 | `s[:250]` is a prefix of `s`: all of `s` when it has at most 250 characters, and exactly its first 250 characters otherwise |
| FileNames.RStripDotsSpaces | lib_file_storage.py:32 | `rstrip('. ')` gives a prefix that does not end in a dot or space, and removes only dots and spaces |
| FileNames.ReplaceForbidden | lib_file_storage.py:34 | same length; no forbidden character or control character is left; allowed characters keep their place; forbidden ones become `_` |
| FileNames.DeviceStemLength | lib_file_storage.py:37-38 | the pattern matches a reserved stem of 3 or 4 characters, followed by the end of the name (or only a final newline) or by a dot, or it matches nothing |
| FileNames.RewriteDeviceName | lib_file_storage.py:37-38 | the result never matches the device pattern and is never longer; a match becomes `DEV` followed by the unchanged rest; it adds no forbidden character and keeps the last character unless the result is `DEV` |
| FileNames.MarkedNameKeepsRest | lib_file_storage.py:37-38 | `DEV` followed by anything is not a device name and keeps the rest character for character |
| FileNames.CleanFilename | lib_file_storage.py:26-40 | every result is a clean name: 1 to 250 characters, no forbidden or control character, no trailing dot or space, no device stem |
| FileNames.SanitisedIsClean | lib_file_storage.py:33-38 | after truncating and stripping, the two substitutions yield either nothing or a clean name |
| FileNames.PlaceholderIsClean | lib_file_storage.py:39 | the placeholder `EMPTY` is itself a clean name |
| FileNames.FirstStepsKeepAllowedName | lib_file_storage.py:29-34 | a short name with no forbidden character and no trailing dot or space passes the first three steps unchanged |
| FileNames.CleanNameIsFixedPoint | lib_file_storage.py:26-40 | a clean name is returned exactly as given |
| FileNames.FixedPointsAreCleanNames | lib_file_storage.py:26-40 | a name is left unchanged if and only if it is a clean name |
| FileNames.CleanFilenameIdempotent | lib_file_storage.py:123-128 | cleaning a cleaned name changes nothing, so the integrity check of `_canonize_file` cannot fire |
| FileNames.DeviceStemFound | lib_file_storage.py:37-38 | a reserved stem followed by nothing or by a dot and an extension is matched with exactly its own length |
| FileNames.DeviceNameKeepsExtension | lib_file_storage.py:35-38 | a reserved stem in any case, alone or before an already clean extension, becomes `DEV` with the extension kept |
| FileNames.DeviceNameWithExtensionExample | lib_file_storage.py:37-38 | `con.txt` in any case becomes `DEV.txt` |
| FileNames.DeviceNameAloneExample | lib_file_storage.py:37-39 | `COM1` becomes `DEV` |
| Text.ReservedStemIsAlphanumeric | lib_file_storage.py:37 | a reserved stem consists of ASCII letters and digits only |
| Disk.SweepDeletesExactlyExpiredFiles | lib_file_storage.py:147-155 | a sweep removes exactly the regular files older than the limit; subdirectories and younger files stay unchanged; every file left is within the limit |
| Disk.JoinPlacesSegmentUnderRoot | lib_file_storage.py:73 | `os.path.join` puts a single path segment directly under the root: the path starts with the root and ends with a separator and the name; an absolute name replaces the root |
| Disk.LaterSweepSubsumes | lib_file_storage.py:147-155 | a sweep at t1 followed by one at t2 >= t1 leaves the same directory as the sweep at t2 alone |
| Disk.Directory.CreateExclusive | lib_file_storage.py:90 | mode `xb` fails with FileExistsError on any existing entry; otherwise it adds a new empty file stamped `now` and returns an open handle to it, and changes nothing else |
| Disk.Directory.Remove | lib_file_storage.py:102 | `os.remove` unlinks a regular file and only that; a missing name raises FileNotFoundError and a subdirectory raises IsADirectoryError, leaving the directory unchanged |
| Disk.WriteHandle.Write | tests/test_storage.py:35 | a write appends the bytes to the handle's own file and stamps it; a closed handle raises; a handle whose name was unlinked changes no directory entry |
| Disk.WriteHandle.Close | tests/test_storage.py:33-35 | closing marks the handle closed |
| LibFileStorage.CleanNameIsPathSegment | lib_file_storage.py:86-90 | a disk name is a single path segment: not empty, not `.` or `..`, and without `/` or NUL |
| LibFileStorage.DistinctListingSize | lib_file_storage.py:70-84 | a listing without repeated names has as many names as items |
| LibFileStorage.RunLength | lib_file_storage.py:133-145 | the number of loop iterations that run lies between the start and the length of the schedule |
| LibFileStorage.FirstIterationSweeps | lib_file_storage.py:132-137 | since `previous_check_time` starts at 0, the first iteration sweeps whenever the clock is past ten minutes |
| LibFileStorage.Sweeps | lib_file_storage.py:132-138 | a sweeping iteration sets `previous_check_time` to its own end time; any other iteration leaves it unchanged |
| LibFileStorage.LastCheckIsAnEndTime | lib_file_storage.py:132-138 | `previous_check_time` is always 0 or the end time of an earlier iteration |
| LibFileStorage.LastCheckBeforeAnySweep | lib_file_storage.py:132-138 | until the first sweep, `previous_check_time` stays 0 |
| LibFileStorage.LastCheckIsLastSweep | lib_file_storage.py:135-138 | after a sweep, `previous_check_time` is that sweep's end time until the next sweep |
| LibFileStorage.SweepsAreTenMinutesApart | lib_file_storage.py:134-138 | after a sweep, a later iteration sweeps if and only if more than ten minutes have passed since that sweep finished |
| LibFileStorage.RunEndsAtFirstStopRequest | lib_file_storage.py:140-145 | the loop runs up to and including the first iteration that sees a stop request, and no further |
| LibFileStorage.RunWithoutStopRequest | lib_file_storage.py:133-145 | without a stop request the loop never leaves |
| LibFileStorage.SweepAbsorbsEarlierSweeps | lib_file_storage.py:147-155 | one sweep at a clock no earlier than all previous sweeps gives the same directory as all of them followed by it |
| LibFileStorage.SweepsCollapseToTheLast | lib_file_storage.py:130-155 | with a clock that never goes back, the directory after any run is the directory after its last sweep alone |
| LibFileStorage.NoSweepLeavesEntries | lib_file_storage.py:134-138 | iterations that do not sweep leave the directory unchanged |
| LibFileStorage.FileStorage.constructor | lib_file_storage.py:44-55 | the store keeps its directory path and retention limit, and starts not stopping |
| LibFileStorage.FileStorage.CanonizeFile | lib_file_storage.py:123-128 | `_canonize_file` always succeeds, with the cleaned name |
| LibFileStorage.FileStorage.FnameOriginalToDisk | lib_file_storage.py:111-112 | an original name always gives a clean disk name, and gives the name itself exactly when it is already clean |
| LibFileStorage.FileStorage.FnameUrlToDisk | lib_file_storage.py:114-115 | a url name always gives a clean disk name, and gives the name itself exactly when it is already clean |
| LibFileStorage.FileStorage.FnameDiskToUrl | lib_file_storage.py:117-118 | the url of a clean disk name leads back to that disk name |
| LibFileStorage.FileStorage.FnameDiskToDisplay | lib_file_storage.py:120-121 | the display name is the url name, so it too leads back to a clean disk name |
| LibFileStorage.FileStorage.NameRolesAgree | lib_file_storage.py:111-121 | an original name maps to a disk name that is a path segment; the url derived from it maps back to the same disk name, and the display name is the disk name |
| LibFileStorage.FileStorage.ListingStep | lib_file_storage.py:72-83 | one step of the listing loop adds exactly the regular files among the names it visits, each once |
| LibFileStorage.FileStorage.Describe | lib_file_storage.py:73-82 | a listed item shows the disk name as url and display name; for a path segment its full name starts with the storage directory and ends with the name |
| LibFileStorage.FileStorage.EnumerateFiles | lib_file_storage.py:70-84 | one item per regular file, no name twice, subdirectories skipped; each item carries the joined full path and the disk name as url and display name |
| LibFileStorage.FileStorage.OpenFileToWrite | lib_file_storage.py:86-90 | the file is created empty under the cleaned name and an open handle is returned; an existing entry of that name gives FileExistsError and no change |
| LibFileStorage.FileStorage.GetFileInfoToRead | lib_file_storage.py:92-95 | returns the storage directory and the cleaned url name as both disk and display name; existence is not checked |
| LibFileStorage.FileStorage.ListedItemResolves | lib_file_storage.py:92-95 | a listed item's url resolves back to its own disk name, display name and full path |
| LibFileStorage.FileStorage.RemoveFile | lib_file_storage.py:97-102 | removes the regular file under the cleaned name and nothing else; a missing name or a subdirectory is an error with no change |
| LibFileStorage.FileStorage.RemoveAllFiles | lib_file_storage.py:104-109 | succeeds if and only if the directory held no subdirectory, and then empties it; otherwise it fails on a subdirectory, having removed only files, and every subdirectory remains |
| LibFileStorage.FileStorage.CheckRetention | lib_file_storage.py:147-155 | the directory afterwards is the retention sweep at `now` of the directory before |
| LibFileStorage.FileStorage.RetensionThreadProcedure | lib_file_storage.py:130-145 | runs exactly the iterations up to the first stop request; iteration i sweeps exactly when its sweep is due; the directory is the result of those sweeps in order |
| LibFileStorage.WriteAndClose | tests/test_storage.py:33-35 | a non-empty write appends to the fresh file and an empty one changes nothing; the handle ends closed |
| LibFileStorage.UploadFile | tests/test_storage.py:33-35 | uploading under a free name stores exactly the uploaded bytes under the cleaned name and changes nothing else |
| LibFileStorage.ProcessSingleFile | tests/test_storage.py:28-59 | from an empty store, one upload under a clean name is listed once under that name with its bytes, resolves for reading, and its removal empties the store |
| LibFileStorage.CountListed | tests/test_storage.py:31 | `len(enumerate_files())` is the number of regular files |
| LibFileStorage.ListedNames | tests/test_storage.py:105-106 | the listing has one item per regular file, and its url names are exactly the regular files |
| LibFileStorage.UploadCleanName | tests/test_storage.py:97-103 | uploading under a free clean name adds exactly that file, which becomes one more regular file |
| LibFileStorage.RemoveCleanName | tests/test_storage.py:122-126 | removing a listed clean name removes exactly that file |
| LibFileStorage.MultipleFiles | tests/test_storage.py:87-128 | two uploads under different clean names are listed as one and then two files; removing them one at a time leaves one and then none |
| LibFileStorage.StoringAddsRegularFile | tests/test_storage.py:135-144 | storing a file adds its name to the regular files and keeps a directory of files only |
| LibFileStorage.RemoveAllAfterUploads | tests/test_storage.py:130-148 | after three uploads, three files are listed; `remove_all_files` then succeeds and empties the store |
| Duplo.ReplaceForbidden | duplo.py:32 | same length; every character of the narrower class becomes `_`; every other character, `|` and control characters included, keeps its place |
| Duplo.SpecialStemLength | duplo.py:33 | the anchored pattern matches if and only if the whole name, or the whole name but a final newline, is a reserved stem |
| Duplo.CleanFilename | duplo.py:31-34 | the result is never shorter and has no forbidden character; it is the substituted name, `SPECIAL` or `SPECIAL` plus a newline |
| Duplo.ReservedStemKept | duplo.py:32-33 | the character substitution keeps a reserved stem and an allowed tail unchanged |
| Duplo.ThreeLetterStemIsNotNumbered | duplo.py:33 | `CON`, `PRN`, `AUX` and `NUL` are not `COM` or `LPT` in any case |
| Duplo.SpecialNameReplaced | duplo.py:33 | a reserved stem in any case becomes `SPECIAL`, and with a final newline becomes `SPECIAL` plus a newline |
| Duplo.ReservedStemWithExtensionKept | duplo.py:33 | a reserved stem followed by an extension is not rewritten: `con.txt` stays `con.txt` |
| Duplo.AllowedNameKept | duplo.py:31-34 | a name with no forbidden character that is not a reserved stem comes back unchanged, whatever its length, trailing dots or control characters, even when empty |
| Duplo.MarkerIsNotSpecial | duplo.py:33 | `SPECIAL` with or without a final newline is not matched again |
| Duplo.FixedPoints | duplo.py:31-34 | a name is left unchanged if and only if it has no forbidden character and is not a reserved stem with or without a final newline |
| Duplo.CleanFilenameIdempotent | duplo.py:31-34 | cleaning a cleaned name changes nothing |
| Duplo.CheckRetention | duplo.py:36-42 | the directory afterwards is the retention sweep at `now` of the directory before |

## Left out

- Threads. `start`, `stop` and the `threading.Condition` wait of 60 seconds are left out. `stop()` setting `_stopping` from another thread is an input of each iteration (`Tick.stopRequested`). The clock is three readings per iteration.
- Schedule length: the endless `while True` loop runs against a finite schedule. A run that ends without a stop request ends with the schedule.
- Character classes: Python's `\d` and IGNORECASE also match non-ASCII digits and letters. The model folds case and reads digits in ASCII only.
- Times: Python times are floats; the model uses integers.
- Logging: `log` calls and `os.path.getsize` are left out. `getsize` only feeds a log line, and it raises FileNotFoundError for a missing name just as `os.remove` does.
- Constructor: `os.path.abspath` and the `os.makedirs` of `__init__` are left out. The storage directory is given as present and its path as absolute.
- OS errors: only FileNotFoundError, FileExistsError, IsADirectoryError and writing to a closed file are modelled. Permission errors, a full disk and name-length limits of the file system are left out.
- Listing order: `os.listdir` order is unspecified, so the loops visit names in an arbitrary order (`:|`). The contracts do not depend on that order.
- Write buffering: buffered writes and partial writes are not modelled. Reading a file back is the file's `content`.
- Other source files: the HTTP layer (`server.py`, the routes of `duplo.py`), `size_format`/`format_size` and `config.py` are not part of this model.
- Library versions: `lib_common.py` as shipped defines no `log`, and its `get_file_modified_unixtime` calls `.stat()` on a `pathlib.Path`, while `lib_file_storage.py` imports `log` and passes a `str`. The two files come from different versions. The model follows the version `lib_file_storage.py` was written against: the modification time is the one `os.stat` reports for the file, kept as the entry's `mtime`.
- Disk.Directory.CreateExclusive: requires the name to be a single path segment, which every disk name is (`LibFileStorage.CleanNameIsPathSegment`). Opening other paths is not modelled.
- Duplo.CheckRetention: reads the clock once for the whole sweep. `file_age_in_seconds` reads it again for every file, so a file that expires while the sweep runs is not modelled.
- Atomic writer: an atomic writer that stages uploads in a temporary subdirectory and publishes them by rename does not exist in `lib_file_storage.py`. There, `open_file_to_write` opens the final path with mode `xb`, so a partly written file is visible to listings. The model follows the code. It has no temporary subdirectory, and `remove_all_files` removes every listed entry, with no regular-file filter.
- Test scenarios: the test methods are modelled for names that are already clean, such as `file.txt`, which is what they use. The test that uploads a non-ASCII name relies on that name being clean too.
