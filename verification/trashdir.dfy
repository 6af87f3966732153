/** Path derivations of one trash directory (`InfoDir` and `TrashInfo`,
    trashcli/trash2.py:141-207). All of them are textual: none looks at the
    file system. */
module TrashDir {
  import opened Common
  import opened Paths

  const Suffix := ".trashinfo"

  /** `InfoDir._files_dir`: the `files` directory beside the `info` one. */
  function FilesDir(info: Path): (f: Path)
    ensures f == "files" || EndsWith(f, "/files")
  {
    FilesDirShape(Dirname(info));
    Join(Dirname(info), "files")
  }

  lemma FilesDirShape(parent: Path)
    ensures var f := Join(parent, "files"); f == "files" || EndsWith(f, "/files")
  {
    var b := Base(parent);
    PlainJoin(parent, "files");
    if b != "" {
      assert (b + "files")[|b| - 1..] == "/files";
    }
  }

  /** `InfoDir._trashinfo_path_from_file`: where a backup's record lives, the
      entry `<fileEntry>.trashinfo` of the info directory. */
  function TrashinfoPathFromFile(info: Path, fileEntry: string): (p: Path)
    ensures IsTrashinfoName(p)
  {
    RecordOfFile(info, fileEntry);
    Join(info, fileEntry + Suffix)
  }

  lemma RecordOfFile(info: Path, fileEntry: string)
    ensures IsTrashinfoName(Join(info, fileEntry + Suffix))
    ensures IsName(fileEntry) ==> ChildName(info, Join(info, fileEntry + Suffix)) == Some(fileEntry + Suffix)
  {
    var n := fileEntry + Suffix;
    var q := Join(info, n);
    JoinEndsWith(info, n);
    EndsWithSuffix(q, n, fileEntry);
    if IsName(fileEntry) {
      SuffixedIsPlain(fileEntry);
      ChildNameOfJoin(info, n);
    }
  }

  lemma EndsWithSuffix(q: string, n: string, f: string)
    requires n == f + Suffix && EndsWith(q, n)
    ensures IsTrashinfoName(q)
  {
    var t := q[|q| - |n|..];
    assert t == n;
    assert q[|q| - |Suffix|..] == t[|t| - |Suffix|..];
    assert n[|n| - |Suffix|..] == Suffix;
  }

  predicate IsTrashinfoName(n: string) {
    EndsWith(n, Suffix)
  }

  /** `entry[:-len('.trashinfo')]`; Python yields "" for shorter strings. */
  function Strip(entry: string): (s: string)
    ensures |entry| >= |Suffix| ==> entry == s + entry[|entry| - |Suffix|..]
  {
    if |entry| >= |Suffix| then entry[..|entry| - |Suffix|] else ""
  }

  /** One record of a trash directory, as `TrashInfo` holds it. */
  datatype TrashInfo = TrashInfo(infoDir: Path, filesDir: Path, entry: string) {
    /** `TrashInfo.path`: the record file itself. */
    function MetaPath(): Path {
      Join(infoDir, entry)
    }

    /** `TrashInfo.path_to_backup_copy`: the trashed file's copy. */
    function BackupPath(): Path {
      Join(filesDir, Strip(entry))
    }
  }

  /** `InfoDir._trashinfo`. */
  function Record(info: Path, entry: string): TrashInfo {
    TrashInfo(info, FilesDir(info), entry)
  }

  /** The record is the entry itself in the info directory, its backup is
      the stripped name in the files directory, and the orphan check's record
      path for that backup is the record again. */
  lemma RecordPaths(info: Path, entry: string)
    ensures IsName(entry) ==> ChildName(info, Record(info, entry).MetaPath()) == Some(entry)
    ensures IsName(Strip(entry)) ==>
              ChildName(FilesDir(info), Record(info, entry).BackupPath()) == Some(Strip(entry))
    ensures IsTrashinfoName(entry) ==>
              TrashinfoPathFromFile(info, Strip(entry)) == Record(info, entry).MetaPath()
  {
    if IsName(entry) {
      ChildNameOfJoin(info, entry);
    }
    if IsName(Strip(entry)) {
      ChildNameOfJoin(FilesDir(info), Strip(entry));
    }
    if IsTrashinfoName(entry) {
      assert Strip(entry) + Suffix == entry;
    }
  }

  /** `InfoDir._trashinfo_entries`: the listed names ending in the suffix,
      in listing order. */
  function TrashinfoEntries(entries: seq<string>): (r: seq<string>)
    ensures forall n :: n in r <==> n in entries && IsTrashinfoName(n)
    ensures |r| <= |entries|
    ensures Distinct(entries) ==> Distinct(r)
  {
    if entries == [] then []
    else
      var rest := TrashinfoEntries(entries[1..]);
      DistinctTail(entries);
      assert entries == [entries[0]] + entries[1..];
      if IsTrashinfoName(entries[0]) then [entries[0]] + rest else rest
  }

  /** The filter keeps listing order: filtering a listing in two parts and
      putting the results side by side is filtering the whole listing, and a
      single name stays exactly when it is a record name. */
  lemma {:induction false} TrashinfoEntriesKeepOrder(a: seq<string>, b: seq<string>)
    ensures TrashinfoEntries(a + b) == TrashinfoEntries(a) + TrashinfoEntries(b)
    ensures forall n :: TrashinfoEntries([n]) == if IsTrashinfoName(n) then [n] else []
    decreases |a|
  {
    if a != [] {
      assert (a + b)[1..] == a[1..] + b;
      TrashinfoEntriesKeepOrder(a[1..], b);
    } else {
      assert a + b == b;
    }
    forall n
      ensures TrashinfoEntries([n]) == if IsTrashinfoName(n) then [n] else []
    {
      assert [n][1..] == [];
    }
  }

  /** Record path and backup path agree with the orphan check: stripping the
      suffix and asking where that file's record lives gives back the record
      path; and a backup named `f` has its record at `f.trashinfo`, whose
      backup path is `f` again. */
  lemma EntryRoundTrip(info: Path, entry: string, f: string)
    requires IsTrashinfoName(entry)
    ensures TrashinfoPathFromFile(info, Strip(entry)) == Record(info, entry).MetaPath()
    ensures Strip(f + Suffix) == f
    ensures Record(info, f + Suffix).BackupPath() == Join(FilesDir(info), f)
    ensures TrashinfoPathFromFile(info, f) == Record(info, f + Suffix).MetaPath()
  {
    assert (f + Suffix)[..|f|] == f;
  }

  /** For a trash directory `<parent>/info` the backups live in
      `<parent>/files`. */
  lemma FilesDirIsSibling(parent: Path)
    requires parent != "" && parent[|parent| - 1] != '/'
    ensures FilesDir(parent + "/" + "info") == parent + "/" + "files"
  {
    DirnameOfChild(parent, "info");
  }

  /** A trash directory whose record names and backup names can never
      collide: records and backups sit in directories with different join
      prefixes. */
  predicate WellFormed(info: Path) {
    Base(info) != Base(FilesDir(info))
  }

  /** Every directory named `info` qualifies. */
  lemma InfoDirsAreWellFormed(info: Path)
    requires EndsWith(info, "/info")
    ensures WellFormed(info)
  {
    var f := Base(Dirname(info)) + "files";
    assert FilesDir(info) == f;
    assert f[|f| - 1] == 's';
    var bi, bf := Base(info), Base(FilesDir(info));
    assert bi == info + "/" && bf == f + "/";
    assert bi[|bi| - 2] == 'o';
    assert bf[|bf| - 2] == 's';
  }

  /** Stripping the suffix keeps a name slash-free. */
  lemma StripIsPlain(n: string)
    requires '/' !in n
    ensures '/' !in Strip(n)
  {
    if |n| >= |Suffix| {
      forall k | 0 <= k < |Strip(n)|
        ensures Strip(n)[k] != '/'
      {
        assert Strip(n)[k] == n[k];
      }
    }
  }

  /** Adding the suffix keeps a name slash-free. */
  lemma SuffixedIsPlain(f: string)
    requires '/' !in f
    ensures '/' !in f + Suffix
  {
    forall k | 0 <= k < |f + Suffix|
      ensures (f + Suffix)[k] != '/'
    {
      if k >= |f| {
        assert (f + Suffix)[k] == Suffix[k - |f|];
      } else {
        assert (f + Suffix)[k] == f[k];
      }
    }
  }

  /** Two record names with the same stem are the same name. */
  lemma StripInjective(n: string, n': string)
    requires IsTrashinfoName(n) && IsTrashinfoName(n')
    requires Strip(n) == Strip(n')
    ensures n == n'
  {
  }

  /** In a well-formed trash directory no record path is a backup path:
      entries of the info and files directories never coincide. */
  lemma RecordsApartFromBackups(info: Path, x: string, y: string)
    requires WellFormed(info)
    requires '/' !in x && '/' !in y
    ensures Join(info, x) != Join(FilesDir(info), y)
  {
    PlainJoin(info, x);
    PlainJoin(FilesDir(info), y);
    if Base(info) + x == Base(FilesDir(info)) + y {
      BasesSeparate(info, x, FilesDir(info), y);
    }
  }
}
