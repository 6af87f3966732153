# trash-empty's purge engine, in Dafny

A model of the core of `trashcli/trash2.py`, the module behind the
`trash-empty` command of trash-cli, with proofs about it. The model covers:

- how the command finds a user's trash `info` directories;
- how record names map to record paths and backup paths;
- how a `.trashinfo` record is read (deletion date, original path);
- the two retention policies, `always` and `OlderThan`;
- the two-phase sweep that `Janitor.swep` runs on one trash directory;
- the argument scan of `EmptyCmd.run`.

The file system is a `Disk`: the existing paths in listing order plus the
text of each file. A sweep is a function from a disk to a `Run`, which holds
the disk afterwards, the removed paths in order, and the exception that
stopped the sweep, if any. Deletion dates are whole seconds since
0001-01-01T00:00:00, and a day is 86400 seconds. The clock (`now`), the
user id, the environment and the mounted volumes are all parameters.

Modules, one file each:

| module | file | content |
|---|---|---|
| `Common` | common.dfy | `Option`, `Result`, sequence helpers |
| `Paths` | paths.dfy | Python 2 `os.path.join` and `os.path.dirname`, and the inverse of `join` |
| `Dates` | dates.dfy | calendar arithmetic and the `%Y-%m-%dT%H:%M:%S` stamp |
| `Percent` | percent.dfy | `urllib.unquote`, with an encoder to check it against |
| `Records` | records.dfy | `read_deletion_date`, `read_path`, `original_location` |
| `Criteria` | criteria.dfy | `always` and `OlderThan` |
| `Locator` | locator.dfy | `InfoDirsFinder._paths` |
| `Storage` | storage.dfy | the disk, `_FileReader`'s listing and reading, `os.remove` |
| `TrashDir` | trashdir.dfy | `InfoDir` path derivations and `TrashInfo` |
| `Janitor` | janitor.dfy | `Janitor.swep` and its two loops |
| `JanitorLaws` | janitor_laws.dfy | what a sweep removes, keeps and fails on |
| `EmptyCmd` | emptycmd.dfy | `EmptyCmd.run`: argument scan and sweeping every directory |

The main result is `JanitorLaws.SweepEffect`. It holds for a well-formed
trash directory, meaning its record and backup directories have different
join prefixes; every directory the locator yields qualifies. For such a
directory the sweep fails exactly when a listed record's date cannot be
judged. When it succeeds, it removes exactly these paths:

- every expired record;
- the existing backup of every expired record;
- every entry of the files directory whose record is gone once phase 1 is over.

Everything else stays.

## Model

| member | source | states |
|---|---|---|
| Locator.Locate | trashcli/trash2.py:124-132 | the home entry, if any, comes first, followed by two entries per volume |
| Locator.HomePrecedence | trashcli/trash2.py:126-129 | `XDG_DATA_HOME` gives `<XDG_DATA_HOME>/Trash/info` first and shadows `HOME`; otherwise `HOME` gives `<HOME>/.local/share/Trash/info`; with neither, every entry carries a volume; only the first entry can lack a volume |
| Locator.VolumePairs | trashcli/trash2.py:130-132 | volume `i`, in input order, yields its `.Trash/<uid>/info` entry and then its `.Trash-<uid>/info` entry, both tagged with that volume |
| Locator.VolumeLayouts | trashcli/trash2.py:131-132 | the two volume layouts spelled out as strings: the volume's join prefix, `.Trash/<uid>/info` or `.Trash-<uid>/info` |
| Locator.LocatedEndsWithInfo | trashcli/trash2.py:126-132 | every located path ends in `/info` |
| Locator.DecimalString | trashcli/trash2.py:131-132 | `str(uid)` is a non-empty string of decimal digits with no slash |
| EmptyCmd.IntValue | trashcli/trash2.py:71 | a number with a leading minus is at most zero, and any other is at least zero |
| EmptyCmd.SignedInts | trashcli/trash2.py:70-78 | `int` accepts digits with an optional sign; `+` changes nothing and `-` negates; a sign alone and the empty string are rejected |
| EmptyCmd.IntOfDecimal | trashcli/trash2.py:70-78 | `int` reads back what `str` writes for any non-negative number, with or without a minus sign |
| Paths.ChildNameOfJoin | trashcli/trash2.py:8-11 | recovering an entry name from `join(dir, name)` gives back the name |
| Paths.JoinOfChildName | trashcli/trash2.py:8-11 | joining a recovered entry name back onto its directory gives back the path |
| Paths.BasesSeparate | trashcli/trash2.py:180-183 | entries of two directories with different join prefixes never coincide |
| Paths.JoinInjective | trashcli/trash2.py:180-181 | different entry names of one directory give different paths |
| Paths.Dirname | trashcli/trash2.py:183 | `dirname` returns a prefix of its argument |
| Paths.DirnameOfChild | trashcli/trash2.py:183 | the parent of `dir/name` is `dir`, for a plain directory |
| Storage.Contents | trashcli/trash2.py:4-5 | reading a path succeeds exactly when it exists |
| Storage.Remove | trashcli/trash2.py:14-15 | removing a path takes away exactly that path and keeps every other file's text; on a duplicate-free disk the count drops by one |
| Storage.Entries | trashcli/trash2.py:8-11 | a name is listed exactly when the directory exists and `join(dir, name)` exists; a duplicate-free disk lists no name twice |
| TrashDir.TrashinfoEntries | trashcli/trash2.py:187-190 | exactly the listed names that end in `.trashinfo`, never more names than listed, and no duplicates from a duplicate-free listing |
| TrashDir.TrashinfoEntriesKeepOrder | trashcli/trash2.py:187-190 | filtering a concatenation is concatenating the filtered parts, and a single name is kept exactly when it ends in `.trashinfo`, so records come in listing order |
| TrashDir.FilesDir | trashcli/trash2.py:182-183 | the files directory is called `files`: it is `files` itself or ends in `/files` |
| TrashDir.TrashinfoPathFromFile | trashcli/trash2.py:180-181 | the record path derived from a backup name always ends in `.trashinfo` |
| TrashDir.RecordOfFile | trashcli/trash2.py:180-181 | for an entry name `f` of the files directory, the derived record path is the entry `f.trashinfo` of the info directory |
| TrashDir.Strip | trashcli/trash2.py:203 | a name at least as long as `.trashinfo` is the stripped name followed by its last ten characters |
| TrashDir.RecordPaths | trashcli/trash2.py:196-207 | a record's path is its entry in the info directory; its backup path is the stripped entry in the files directory; and the orphan check's record path for that stripped name is the record's path again |
| Paths.Join | trashcli/trash2.py:181 | an absolute second component discards the first |
| Paths.JoinEndsWith | trashcli/trash2.py:181 | `join(a, b)` always ends with `b` |
| TrashDir.EntryRoundTrip | trashcli/trash2.py:180-181 | the record path of a stripped name is the `TrashInfo` path; the backup of `f.trashinfo` is `files/f` |
| TrashDir.FilesDirIsSibling | trashcli/trash2.py:182-183 | the files directory of `<parent>/info` is `<parent>/files` |
| TrashDir.InfoDirsAreWellFormed | trashcli/trash2.py:182-183 | any directory ending in `/info` has record and backup directories with different join prefixes |
| TrashDir.RecordsApartFromBackups | trashcli/trash2.py:201-207 | in such a directory no record path equals a backup path |
| TrashDir.StripInjective | trashcli/trash2.py:201-204 | two record names with the same stem are equal |
| Records.Split | trashcli/trash2.py:229 | `split('\n')` yields at least one piece and no piece holds a newline |
| Records.JoinSplit | trashcli/trash2.py:229 | joining the pieces with `\n` gives back the text |
| Records.SplitJoin | trashcli/trash2.py:229 | splitting newline-free lines joined with `\n` gives back the lines |
| Records.Field | trashcli/trash2.py:229-231 | there is no value exactly when no line starts with the key; a value `v` comes from a line `key + v` |
| Records.FirstMatchDecides | trashcli/trash2.py:229-231 | the first matching line decides, whatever precedes it without the key and whatever follows it |
| Records.OnlyMatchingLinesCount | trashcli/trash2.py:235-237 | removing all lines without the key does not change the value |
| Records.ReadDeletionDate | trashcli/trash2.py:227-231 | there is no date exactly when no line starts with `DeletionDate=`; the read fails exactly when the first such line does not parse; otherwise the result is that line's parsed instant, which lies within `datetime`'s range |
| Records.ReadWrittenDate | trashcli/trash2.py:227-231 | a record with a well-formed date line reads back that date, wherever the line sits |
| Records.ReadPath | trashcli/trash2.py:233-237 | there is no path exactly when no line starts with `Path=`; otherwise the result is the unquoted value of the first such line |
| Records.OriginalLocation | trashcli/trash2.py:215-216 | a missing path line is an error; with a volume the result is `join(volume, path)`; an absolute path comes back unchanged for every volume; a relative path with no volume is an error |
| Percent.UnquoteQuote | trashcli/trash2.py:237 | unquoting reverses percent-encoding of any byte string |
| Percent.Unquote | trashcli/trash2.py:237 | unquoting never lengthens the text and leaves text without `%` unchanged |
| Dates.ParseFormat | trashcli/trash2.py:231 | a valid date written as `%Y-%m-%dT%H:%M:%S` parses back to itself |
| Dates.FormatParse | trashcli/trash2.py:231 | a parsed stamp formats back to the same text |
| Dates.Parse | trashcli/trash2.py:231 | only well-shaped text parses, and only to a valid date |
| Dates.SecondsOrderIsDateOrder | trashcli/trash2.py:139 | on valid dates, Python's field-by-field `<` and `==` agree with `<` and `==` on second counts |
| Dates.MaxSecondsIsLastInstant | trashcli/trash2.py:137 | the upper bound used for `datetime`'s range is 9999-12-31T23:59:59 |
| Criteria.MakeOlderThan | trashcli/trash2.py:135-137 | construction succeeds exactly when the limit `now - days*86400` lies within `datetime`'s range, and yields an `OlderThan` |
| Criteria.Admits | trashcli/trash2.py:133-139 | the verdict is undefined exactly when `OlderThan` meets a missing date |
| Criteria.AlwaysAdmitsAll | trashcli/trash2.py:133 | `always` admits every input, a missing date included |
| Criteria.OlderThanIsStrict | trashcli/trash2.py:134-139 | a date equal to the limit is kept and one a second earlier is purged; the verdict is `t + days*86400 < now`; earlier dates are admitted when later ones are |
| Criteria.AdmitsAsDatetimes | trashcli/trash2.py:139 | on valid dates, the seconds verdict equals Python's `deletion_date < limit_date` |
| Janitor.RemoveFile | trashcli/trash2.py:14-15 | removing an existing path logs it and removes only it; removing a missing path raises and changes nothing |
| Janitor.RemoveFileIfExists | trashcli/trash2.py:16-17 | never raises, and removes and logs the path only when it exists |
| Janitor.Verdict | trashcli/trash2.py:157-164 | a malformed date raises under every policy; `always` admits any other record; `OlderThan` raises on a missing date and otherwise compares it with the limit |
| Janitor.PurgeStep | trashcli/trash2.py:111-113 | a missing record raises; a record that is not admitted changes nothing; an admitted one logs its backup, if present, and then the record itself, and removes exactly those |
| Janitor.PurgeExpired | trashcli/trash2.py:155-165 | phase 1 changes no file's text, and once an exception is raised the rest of the listing is skipped |
| Janitor.OrphanStep | trashcli/trash2.py:147-150 | a backup whose record exists is left alone; otherwise it is removed with `remove_file`, which raises if it is gone |
| Janitor.PurgeOrphans | trashcli/trash2.py:146-150 | phase 2 changes no file's text, and once an exception is raised the rest of the listing is skipped |
| Janitor.Sweep | trashcli/trash2.py:106-108 | a sweep never changes any file's text |
| JanitorLaws.SweepAccounts | trashcli/trash2.py:106-108 | whether or not it raises, a sweep logs each removed path once; it removes only paths that existed, exactly the ones it logs, and no file's text changes |
| JanitorLaws.PurgeStepEffect | trashcli/trash2.py:157-165 | one record raises exactly when its date cannot be judged; otherwise it removes the record and its existing backup when expired, and nothing when not |
| JanitorLaws.PurgeExpiredFails | trashcli/trash2.py:155-165 | phase 1 raises exactly when one of the listed records has a date that cannot be judged |
| JanitorLaws.PurgeExpiredRemoves | trashcli/trash2.py:155-165 | a phase 1 that does not raise removes exactly the expired records and their existing backups |
| JanitorLaws.PurgeOrphansEffect | trashcli/trash2.py:146-150 | phase 2 never raises, and it removes exactly the entries whose record is missing from the disk phase 1 left |
| JanitorLaws.SweepEffect | trashcli/trash2.py:106-108 | a sweep raises exactly when some listed record's date cannot be judged; otherwise the removed paths are exactly the expired records, their existing backups and the orphans, whatever the criteria, and nothing else changes |
| JanitorLaws.SweepKeepsOtherEntries | trashcli/trash2.py:187-190 | entries of the info directory that are not records survive a successful sweep |
| JanitorLaws.SweepKeepsUnexpired | trashcli/trash2.py:164-165 | a record the criteria do not admit survives a successful sweep, and so does its backup |
| JanitorLaws.AlwaysEmpties | trashcli/trash2.py:106-113 | under `always`, unless a date is malformed, the sweep raises nothing, no record is left and the files directory is empty; this holds also when the info directory is missing and nothing lies below it |
| JanitorLaws.AlwaysLeavesNoRecord | trashcli/trash2.py:155-165 | under `always`, unless a date is malformed, the sweep raises nothing and leaves no record |
| JanitorLaws.AlwaysPurgesRecordOf | trashcli/trash2.py:155-165 | under `always`, the record a backup name points to is missing or purged in phase 1 |
| JanitorLaws.AlwaysLeavesNoFile | trashcli/trash2.py:146-150 | under `always`, unless a date is malformed, no entry of the files directory is left |
| JanitorLaws.PurgeStepRemovesAtMost | trashcli/trash2.py:111-113 | one step of phase 1, whatever happens, removes nothing beyond the record it visits and that record's backup |
| JanitorLaws.PurgeStepInTrash | trashcli/trash2.py:111-113 | those two paths are an entry of the info directory and a slash-free name under the files directory |
| JanitorLaws.PurgeExpiredInTrash | trashcli/trash2.py:155-165 | phase 1, whether or not it raises, removes nothing outside the trash directory |
| JanitorLaws.PurgeOrphansInTrash | trashcli/trash2.py:146-150 | phase 2 removes nothing but entries of the files directory |
| JanitorLaws.SweepInTrash | trashcli/trash2.py:106-108 | a sweep, whether or not it raises, removes only paths inside the trash directory it sweeps |
| JanitorLaws.NoneExpiredAfterSweep | trashcli/trash2.py:155-165 | after a successful sweep no record is left that the same criteria would purge |
| JanitorLaws.NoOrphanAfterSweep | trashcli/trash2.py:146-150 | after a successful sweep every entry of the files directory has its record |
| JanitorLaws.SweepIdempotent | trashcli/trash2.py:106-108 | a second sweep with the same criteria raises nothing and removes nothing |
| EmptyCmd.Scan | trashcli/trash2.py:63-71 | a purge means no flag was met; help or version means a flag was met and carries the program name; an error names an integer argument |
| EmptyCmd.Dispatch | trashcli/trash2.py:59-72 | an empty argument list is the only way to get the missing-program-name error; the other outcomes are as for `Scan` over `argv[1:]` |
| EmptyCmd.NoArgumentsPurgeAll | trashcli/trash2.py:60-61 | with no arguments the action is a purge under `always` |
| EmptyCmd.LastIntWins | trashcli/trash2.py:63-71 | with neither flags nor bad day counts, the last integer argument sets `OlderThan`, and with none the policy is `always` |
| EmptyCmd.FlagStopsScan | trashcli/trash2.py:64-69 | the first `--help`, `-h` or `--version` decides the action, and nothing after it is looked at |
| EmptyCmd.BadDayCountRaises | trashcli/trash2.py:70-71 | a day count `OlderThan` cannot represent raises before any later argument is looked at |
| EmptyCmd.OtherArgumentsIgnored | trashcli/trash2.py:63-71 | an argument that is neither a flag nor an integer changes nothing, wherever it stands |
| EmptyCmd.EachDirIterates | trashcli/trash2.py:120-123 | the loop over directories succeeds exactly when the one-directory-at-a-time reading reaches the end, each action running on the disk the earlier ones left, and then leaves the disk that reading reaches |
| EmptyCmd.EachDirStopsAt | trashcli/trash2.py:120-123 | an exception in a reached directory ends the loop with that exception, and no later directory is touched |
| EmptyCmd.EachDirVisitsEach | trashcli/trash2.py:120-123 | whatever the action removes in a reached directory is in the loop's log |
| EmptyCmd.EachDirAccounts | trashcli/trash2.py:120-123 | an action with an exact log on every duplicate-free disk gives the whole loop an exact log |
| EmptyCmd.EachDirInTrash | trashcli/trash2.py:120-123 | an action that removes only paths inside the directory it is given makes the loop remove only paths inside the visited directories |
| EmptyCmd.EachDirKeepsText | trashcli/trash2.py:120-123 | an action that changes no file's text keeps the whole loop from changing any |
| EmptyCmd.SweepAll | trashcli/trash2.py:79-84 | purging every directory never changes any file's text |
| EmptyCmd.SweepAllSweepsEach | trashcli/trash2.py:79-84 | in each directory the purge reaches, a date that cannot be judged ends the command with that sweep's exception and leaves later directories untouched; otherwise every path the sweep of that directory dooms is removed |
| EmptyCmd.SweepAllSweepsLocated | trashcli/trash2.py:79-84 | the same for every located directory the purge reaches |
| EmptyCmd.SweepAllInTrash | trashcli/trash2.py:79-84 | every path removed while purging lies inside one of the visited trash directories |
| EmptyCmd.SweepAllAccounts | trashcli/trash2.py:79-84 | sweeping every located directory in turn logs each removed path once, and removes only paths that existed, exactly the ones it logs |
| EmptyCmd.LocatedAreWellFormed | trashcli/trash2.py:120-123 | every directory the command visits is well formed, so the sweep laws apply to it |
| EmptyCmd.Empty | trashcli/trash2.py:59-84 | the result is an error exactly when the argument scan raises; an exception raised while purging is the run's failure instead. Help and version remove nothing and raise nothing. A purge succeeds exactly when the sweeps of the located directories, each on the disk the earlier ones left, all succeed, and then leaves the disk the last one leaves; each directory reached fails the run on a date that cannot be judged and otherwise loses every path its sweep dooms; on a duplicate-free disk the log is exact; only paths inside the located trash directories are removed |

## Left out

- Real I/O: `_FileReader` and `_FileRemover` become operations on the `Disk` value. Permission errors are not modelled, and neither are reading a directory as a file or removing a directory: the disk does not tell files from directories.
- Path normalisation: paths are compared as strings. `a/files/` and `a/files` are different paths, as `os.path.join` spells them, but the operating system treats them as one. A record named exactly `.trashinfo` has the backup path `<files>/`. The model removes that path only if the disk holds that exact string.
- Mount-point discovery (`list_mount_points`) and `os.getuid` are not part of this model: the volume list and the user id are inputs.
- The clock: `datetime.now` becomes one instant `now`, in whole seconds, shared by every `OlderThan` that one run builds. Sub-second precision is left out, and so is the clock moving between two calls.
- Records.ReadDeletionDate: only the exact `DeletionDate=YYYY-MM-DDTHH:MM:SS` shape parses. `strptime` also accepts one-digit fields and other lenient forms, which the model treats as malformed.
- Criteria.Admits: under `OlderThan` a record without a date is an error, like Python 2's `TypeError` when it orders `None` against a `datetime`. This is one possible reading of behaviour the code does not specify.
- EmptyCmd.IsInt: optional sign and ASCII digits only. The whitespace that `int()` strips is not modelled.
- Parse-error callbacks: `TrashInfoParser.parse` and `parse_date` are dead code, and `on_parse_error` is never called.
- `ListCmd` and `InfoDir.for_all_trashinfos` are outside this model.
- Output: the help text, the version line and the printing of entries are not modelled. The model returns only which of them was chosen, with the program name.
- Percent.Unquote: decodes `%XX` to the character with that code and leaves other `%` signs unchanged. Python 2 byte strings and their encodings are not modelled.
