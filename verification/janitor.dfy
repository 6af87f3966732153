/** The purge engine: `Janitor.swep` (trashcli/trash2.py:102-113) over
    `InfoDir.for_all_files_satisfying` and `InfoDir.for_all_orphan`
    (trashcli/trash2.py:146-165). A sweep is a function from a disk to a
    `Run`: the disk afterwards, the paths removed in order, and the exception
    that stopped the sweep, if any. Effects made before an exception stay. */
module Janitor {
  import opened Common
  import opened Paths
  import opened Storage
  import opened TrashDir
  import opened Records
  import opened Criteria

  /** The exceptions a sweep can raise. */
  datatype Failure =
    | Unreadable(path: Path)      // `file(path)` on a missing record: IOError
    | NotRemovable(path: Path)    // `os.remove` on a missing path: OSError
    | MalformedDate(path: Path)   // `strptime` rejects the date line: ValueError
    | Incomparable(path: Path)    // `OlderThan` given a record without a date

  datatype Run = Run(disk: Disk, removed: seq<Path>, failure: Option<Failure>)

  function Start(d: Disk): Run {
    Run(d, [], None)
  }

  /** `_FileRemover.remove_file`: removing a missing path raises. */
  function RemoveFile(r: Run, q: Path): (e: Run)
    requires r.failure.None?
    ensures e.disk.text == r.disk.text
    ensures q in r.disk.paths ==> e.failure.None? && e.removed == r.removed + [q]
                                  && forall x :: x in e.disk.paths <==> x in r.disk.paths && x != q
    ensures q !in r.disk.paths ==> e.failure == Some(NotRemovable(q))
                                   && e.disk == r.disk && e.removed == r.removed
  {
    if q in r.disk.paths then Run(Remove(r.disk, q), r.removed + [q], None)
    else Run(r.disk, r.removed, Some(NotRemovable(q)))
  }

  /** `_FileRemover.remove_file_if_exists`: never raises. */
  function RemoveFileIfExists(r: Run, q: Path): (e: Run)
    requires r.failure.None?
    ensures e.failure.None? && e.disk.text == r.disk.text
    ensures e.removed == r.removed + (if q in r.disk.paths then [q] else [])
    ensures forall x :: x in e.disk.paths <==> x in r.disk.paths && x != q
  {
    if q in r.disk.paths then RemoveFile(r, q) else r
  }

  /** The criteria's verdict on a record with the given contents: whether it
      is to be purged, or the exception raised while deciding. The date is
      parsed before the criteria are consulted, so a malformed date fails
      even under `always`. */
  function Verdict(c: Criteria, contents: string, meta: Path): (v: Result<bool, Failure>)
    ensures ReadDeletionDate(contents).BadDate? ==> v == Err(MalformedDate(meta))
    ensures c.Always? && !ReadDeletionDate(contents).BadDate? ==> v == Ok(true)
    ensures c.OlderThan? && ReadDeletionDate(contents).NoDate? ==> v == Err(Incomparable(meta))
    ensures c.OlderThan? && ReadDeletionDate(contents).Stamp? ==>
              v == Ok(ReadDeletionDate(contents).seconds < c.limit)
  {
    match ReadDeletionDate(contents)
    case BadDate => Err(MalformedDate(meta))
    case NoDate =>
      if Admits(c, None).Some? then Ok(Admits(c, None).value) else Err(Incomparable(meta))
    case Stamp(t) => Ok(Admits(c, Some(t)).value)
  }

  /** One iteration of `for_all_files_satisfying` with `remove_both` as the
      action: read the record, and when the criteria admit it remove the
      backup if present, then the record itself. */
  function PurgeStep(r: Run, info: Path, c: Criteria, entry: string): (e: Run)
    requires r.failure.None?
    ensures e.disk.text == r.disk.text
    ensures var meta := Record(info, entry).MetaPath();
            var backup := Record(info, entry).BackupPath();
            && (meta !in r.disk.paths ==> e.failure == Some(Unreadable(meta)) && e.removed == r.removed)
            && (meta in r.disk.paths && meta != backup ==>
                  match Verdict(c, TextOf(r.disk.text, meta), meta)
                  case Err(f) => e == Run(r.disk, r.removed, Some(f))
                  case Ok(false) => e == r
                  case Ok(true) =>
                    && e.failure.None?
                    && e.removed == r.removed + (if backup in r.disk.paths then [backup] else []) + [meta]
                    && forall x :: x in e.disk.paths <==> x in r.disk.paths && x != backup && x != meta)
  {
    var rec := Record(info, entry);
    var meta := rec.MetaPath();
    match Contents(r.disk, meta)
    case None => Run(r.disk, r.removed, Some(Unreadable(meta)))
    case Some(text) =>
      match Verdict(c, text, meta)
      case Err(f) => Run(r.disk, r.removed, Some(f))
      case Ok(purge) =>
        if !purge then r
        else RemoveFile(RemoveFileIfExists(r, rec.BackupPath()), meta)
  }

  /** `for_all_files_satisfying` over a listing taken before the loop. */
  function PurgeExpired(r: Run, info: Path, c: Criteria, entries: seq<string>): (e: Run)
    ensures e.disk.text == r.disk.text
    ensures r.failure.Some? ==> e == r
    decreases |entries|
  {
    if r.failure.Some? || entries == [] then r
    else PurgeExpired(PurgeStep(r, info, c, entries[0]), info, c, entries[1..])
  }

  /** One iteration of `for_all_orphan` with `remove_file` as the action: a
      backup whose record does not exist is removed. */
  function OrphanStep(r: Run, info: Path, entry: string): (e: Run)
    requires r.failure.None?
    ensures e.disk.text == r.disk.text
    ensures TrashinfoPathFromFile(info, entry) in r.disk.paths ==> e == r
    ensures TrashinfoPathFromFile(info, entry) !in r.disk.paths ==>
              e == RemoveFile(r, Join(FilesDir(info), entry))
  {
    if TrashinfoPathFromFile(info, entry) in r.disk.paths then r
    else RemoveFile(r, Join(FilesDir(info), entry))
  }

  /** `for_all_orphan` over a listing of the files directory. */
  function PurgeOrphans(r: Run, info: Path, entries: seq<string>): (e: Run)
    ensures e.disk.text == r.disk.text
    ensures r.failure.Some? ==> e == r
    decreases |entries|
  {
    if r.failure.Some? || entries == [] then r
    else PurgeOrphans(OrphanStep(r, info, entries[0]), info, entries[1..])
  }

  /** `Janitor.swep`: phase 1 lists the info directory once and purges the
      expired records; phase 2 lists the files directory as phase 1 left it
      and removes the orphans. An exception in phase 1 skips phase 2. */
  function Sweep(d: Disk, info: Path, c: Criteria): (r: Run)
    ensures r.disk.text == d.text
  {
    var r1 := PurgeExpired(Start(d), info, c, TrashinfoEntries(Entries(d, info)));
    if r1.failure.Some? then r1
    else PurgeOrphans(r1, info, Entries(r1.disk, FilesDir(info)))
  }
}
