/** What a sweep does to a disk, stated without reference to the order in
    which it works: which paths go, which stay, and when it fails. */
module JanitorLaws {
  import opened Common
  import opened Paths
  import opened Storage
  import opened TrashDir
  import opened Records
  import opened Criteria
  import opened Janitor

  /** The run's log accounts for every change since `d0`: it names each
      removed path once, only paths that existed, and exactly the paths that
      are gone; file contents are untouched. */
  ghost predicate Accounts(d0: Disk, r: Run) {
    && Valid(r.disk)
    && r.disk.text == d0.text
    && Distinct(r.removed)
    && (forall q :: q in r.removed ==> q in d0.paths)
    && (forall q :: q in r.disk.paths <==> q in d0.paths && q !in r.removed)
  }

  lemma RemoveFileAccounts(d0: Disk, r: Run, q: Path)
    requires r.failure.None? && Accounts(d0, r)
    ensures Accounts(d0, RemoveFile(r, q))
  {
    if q in r.disk.paths {
      DistinctAppend(r.removed, q);
    }
  }

  lemma PurgeStepAccounts(d0: Disk, r: Run, info: Path, c: Criteria, entry: string)
    requires r.failure.None? && Accounts(d0, r)
    ensures Accounts(d0, PurgeStep(r, info, c, entry))
  {
    var rec := Record(info, entry);
    var meta := rec.MetaPath();
    if meta in r.disk.paths {
      match Verdict(c, TextOf(r.disk.text, meta), meta)
      case Err(_) =>
      case Ok(purge) =>
        if purge {
          var r1 := RemoveFileIfExists(r, rec.BackupPath());
          RemoveFileAccounts(d0, r, rec.BackupPath());
          RemoveFileAccounts(d0, r1, meta);
        }
    }
  }

  lemma {:induction false} PurgeExpiredAccounts(d0: Disk, r: Run, info: Path, c: Criteria, entries: seq<string>)
    requires Accounts(d0, r)
    ensures Accounts(d0, PurgeExpired(r, info, c, entries))
    decreases |entries|
  {
    if r.failure.None? && entries != [] {
      PurgeStepAccounts(d0, r, info, c, entries[0]);
      PurgeExpiredAccounts(d0, PurgeStep(r, info, c, entries[0]), info, c, entries[1..]);
    }
  }

  lemma {:induction false} PurgeOrphansAccounts(d0: Disk, r: Run, info: Path, entries: seq<string>)
    requires Accounts(d0, r)
    ensures Accounts(d0, PurgeOrphans(r, info, entries))
    decreases |entries|
  {
    if r.failure.None? && entries != [] {
      var entry := entries[0];
      if TrashinfoPathFromFile(info, entry) !in r.disk.paths {
        RemoveFileAccounts(d0, r, Join(FilesDir(info), entry));
      }
      PurgeOrphansAccounts(d0, OrphanStep(r, info, entry), info, entries[1..]);
    }
  }

  /** Whatever the outcome, a sweep removes exactly the paths its log
      names, each once, and changes nothing else. */
  lemma SweepAccounts(d: Disk, info: Path, c: Criteria)
    requires Valid(d)
    ensures Accounts(d, Sweep(d, info, c))
  {
    var r1 := PurgeExpired(Start(d), info, c, TrashinfoEntries(Entries(d, info)));
    PurgeExpiredAccounts(d, Start(d), info, c, TrashinfoEntries(Entries(d, info)));
    if r1.failure.None? {
      PurgeOrphansAccounts(d, r1, info, Entries(r1.disk, FilesDir(info)));
    }
  }

  /** `n` is a record name phase 1 visits: a listed entry of the info
      directory ending in `.trashinfo`. */
  predicate Listed(d: Disk, info: Path, n: string) {
    n in TrashinfoEntries(Entries(d, info))
  }

  lemma ListedMeans(d: Disk, info: Path, n: string)
    ensures Listed(d, info, n) <==>
              info in d.paths && IsName(n) && IsTrashinfoName(n) && Join(info, n) in d.paths
  {
  }

  /** The criteria decide to purge record `n`. */
  predicate Expired(d: Disk, info: Path, c: Criteria, n: string) {
    Listed(d, info, n) && Verdict(c, TextOf(d.text, Join(info, n)), Join(info, n)) == Ok(true)
  }

  /** Record `n` has a date the criteria can judge. */
  predicate Usable(d: Disk, info: Path, c: Criteria, n: string) {
    Verdict(c, TextOf(d.text, Join(info, n)), Join(info, n)).Ok?
  }

  /** Every listed record has a date the criteria can judge. */
  ghost predicate DatesUsable(d: Disk, info: Path, c: Criteria) {
    forall n :: Listed(d, info, n) ==> Usable(d, info, c, n)
  }

  /** Each of `names` has a date the criteria can judge. */
  predicate AllUsable(d: Disk, info: Path, c: Criteria, names: seq<string>)
    decreases |names|
  {
    names == [] || (Usable(d, info, c, names[0]) && AllUsable(d, info, c, names[1..]))
  }

  lemma {:induction false} AllUsableMeans(d: Disk, info: Path, c: Criteria, names: seq<string>)
    ensures AllUsable(d, info, c, names) <==> forall n :: n in names ==> Usable(d, info, c, n)
    decreases |names|
  {
    if names != [] {
      AllUsableMeans(d, info, c, names[1..]);
      assert forall n :: n in names <==> n == names[0] || n in names[1..] by {
        assert names == [names[0]] + names[1..];
      }
    }
  }

  /** The name a path of the files directory has there, when it has one,
      whether or not it is empty. */
  function Stem(info: Path, q: Path): (s: Option<string>)
    ensures s.Some? ==> '/' !in s.value && q == Base(FilesDir(info)) + s.value
  {
    var b := Base(FilesDir(info));
    if StartsWith(q, b) && '/' !in q[|b|..] then
      assert q == q[..|b|] + q[|b|..];
      Some(q[|b|..])
    else None
  }

  /** Phase 1 removes `q`: an expired record, or an existing backup of one. */
  predicate Purged(d: Disk, info: Path, c: Criteria, q: Path) {
    && q in d.paths
    && ((ChildName(info, q).Some? && Expired(d, info, c, ChildName(info, q).value))
        || (Stem(info, q).Some? && Expired(d, info, c, Stem(info, q).value + Suffix)))
  }

  /** `q` exists when phase 2 starts. */
  predicate Survives(d: Disk, info: Path, c: Criteria, q: Path) {
    q in d.paths && !Purged(d, info, c, q)
  }

  /** Phase 2 removes `q`: an entry of the files directory whose record does
      not exist once phase 1 is over. */
  predicate Orphaned(d: Disk, info: Path, c: Criteria, q: Path) {
    var files := FilesDir(info);
    && Survives(d, info, c, q)
    && Survives(d, info, c, files)
    && ChildName(files, q).Some?
    && !Survives(d, info, c, TrashinfoPathFromFile(info, ChildName(files, q).value))
  }

  /** The sweep removes `q`. */
  predicate Doomed(d: Disk, info: Path, c: Criteria, q: Path) {
    Purged(d, info, c, q) || Orphaned(d, info, c, q)
  }

  /** Paths phase 1 removes while visiting `names`, recorded against the
      disk `d0` it started from. */
  predicate Hit(d0: Disk, info: Path, c: Criteria, names: seq<string>, q: Path)
    decreases |names|
  {
    && names != []
    && ((Expired(d0, info, c, names[0]) && HitBy(d0, info, names[0], q))
        || Hit(d0, info, c, names[1..], q))
  }

  /** `q` is the record `n` or its existing backup. */
  predicate HitBy(d0: Disk, info: Path, n: string, q: Path) {
    q == Join(info, n) || (q == Record(info, n).BackupPath() && q in d0.paths)
  }

  lemma {:induction false} HitOf(d0: Disk, info: Path, c: Criteria, names: seq<string>, n: string, q: Path)
    requires n in names && Expired(d0, info, c, n) && HitBy(d0, info, n, q)
    ensures Hit(d0, info, c, names, q)
    decreases |names|
  {
    if names[0] != n {
      InTail(names, n);
      HitOf(d0, info, c, names[1..], n, q);
      assert Hit(d0, info, c, names[1..], q);
    }
  }

  lemma {:induction false} HitWitness(d0: Disk, info: Path, c: Criteria, names: seq<string>, q: Path)
    returns (n: string)
    requires Hit(d0, info, c, names, q)
    ensures n in names && Expired(d0, info, c, n) && HitBy(d0, info, n, q)
    decreases |names|
  {
    if Expired(d0, info, c, names[0]) && HitBy(d0, info, names[0], q) {
      n := names[0];
    } else {
      n := HitWitness(d0, info, c, names[1..], q);
    }
  }

  /** Record and backup paths of two listed records of a well-formed trash
      directory are pairwise distinct. */
  lemma Separate(info: Path, n: string, n': string)
    requires WellFormed(info)
    requires IsName(n) && IsTrashinfoName(n) && IsName(n') && IsTrashinfoName(n')
    ensures Join(info, n) != Record(info, n').BackupPath()
    ensures n != n' ==> Join(info, n) != Join(info, n')
    ensures n != n' ==> Record(info, n).BackupPath() != Record(info, n').BackupPath()
  {
    StripIsPlain(n);
    StripIsPlain(n');
    RecordsApartFromBackups(info, n, Strip(n'));
    if Join(info, n) == Join(info, n') {
      JoinInjective(info, n, n');
    }
    if Record(info, n).BackupPath() == Record(info, n').BackupPath() {
      JoinInjective(FilesDir(info), Strip(n), Strip(n'));
      StripInjective(n, n');
    }
  }

  /** An expired record goes together with its existing backup. */
  lemma PurgeStepRemoves(d0: Disk, r: Run, info: Path, c: Criteria, n: string)
    requires WellFormed(info) && r.failure.None? && Accounts(d0, r)
    requires Listed(d0, info, n)
    requires Join(info, n) !in r.removed && Record(info, n).BackupPath() !in r.removed
    requires Verdict(c, TextOf(d0.text, Join(info, n)), Join(info, n)) == Ok(true)
    ensures forall q :: q in PurgeStep(r, info, c, n).removed <==> q in r.removed || HitBy(d0, info, n, q)
  {
    ListedMeans(d0, info, n);
    Separate(info, n, n);
    var m := Join(info, n);
    var b := Record(info, n).BackupPath();
    assert r.disk.text == d0.text;
    assert m == Record(info, n).MetaPath() && m in r.disk.paths;
    var e := PurgeStep(r, info, c, n);
    var extra := if b in r.disk.paths then [b] else [];
    assert e.removed == r.removed + extra + [m];
    assert b in r.disk.paths <==> b in d0.paths;
    forall q
      ensures q in e.removed <==> q in r.removed || HitBy(d0, info, n, q)
    {
      assert q in e.removed <==> q in r.removed || q in extra || q == m;
    }
  }

  /** One record of phase 1: it fails exactly when the record's date is
      unusable, and otherwise removes the record and its existing backup when
      expired, and nothing when not. */
  lemma PurgeStepEffect(d0: Disk, r: Run, info: Path, c: Criteria, n: string)
    requires WellFormed(info) && r.failure.None? && Accounts(d0, r)
    requires Listed(d0, info, n)
    requires Join(info, n) !in r.removed && Record(info, n).BackupPath() !in r.removed
    ensures var e := PurgeStep(r, info, c, n);
            && Accounts(d0, e)
            && (e.failure.None? <==> Usable(d0, info, c, n))
            && (e.failure.None? ==>
                  forall q :: q in e.removed <==> q in r.removed || (Expired(d0, info, c, n) && HitBy(d0, info, n, q)))
  {
    PurgeStepAccounts(d0, r, info, c, n);
    ListedMeans(d0, info, n);
    Separate(info, n, n);
    var m := Join(info, n);
    assert m in r.disk.paths;
    var v := Verdict(c, TextOf(d0.text, m), m);
    if v == Ok(true) {
      PurgeStepRemoves(d0, r, info, c, n);
    } else if v == Ok(false) {
      assert PurgeStep(r, info, c, n) == r;
    }
  }

  /** Visiting the first record cannot touch the record or backup paths of
      the records after it. */
  lemma OthersUntouched(d0: Disk, r: Run, info: Path, c: Criteria, names: seq<string>)
    requires WellFormed(info) && r.failure.None? && Accounts(d0, r)
    requires names != [] && Distinct(names)
    requires forall n :: n in names ==> Listed(d0, info, n)
    requires Join(info, names[0]) !in r.removed && Record(info, names[0]).BackupPath() !in r.removed
    requires forall n :: n in names[1..] ==> Join(info, n) !in r.removed
    requires forall n :: n in names[1..] ==> Record(info, n).BackupPath() !in r.removed
    ensures var e1 := PurgeStep(r, info, c, names[0]);
            e1.failure.None? ==>
              forall n :: n in names[1..] ==>
                Join(info, n) !in e1.removed && Record(info, n).BackupPath() !in e1.removed
  {
    var n0 := names[0];
    PurgeStepEffect(d0, r, info, c, n0);
    var e1 := PurgeStep(r, info, c, n0);
    if e1.failure.None? {
      forall n | n in names[1..]
        ensures Join(info, n) !in e1.removed && Record(info, n).BackupPath() !in e1.removed
      {
        DistinctTail(names);
        ListedMeans(d0, info, n);
        ListedMeans(d0, info, n0);
        Separate(info, n, n0);
        Separate(info, n0, n);
      }
    }
  }

  lemma HitCons(d0: Disk, info: Path, c: Criteria, names: seq<string>)
    requires names != []
    ensures forall q :: Hit(d0, info, c, names, q) <==>
              (Expired(d0, info, c, names[0]) && HitBy(d0, info, names[0], q)) || Hit(d0, info, c, names[1..], q)
  {
  }

  /** Phase 1 over the records still to visit fails exactly when one of
      them has an unusable date. */
  lemma {:induction false} PurgeExpiredFails(d0: Disk, r: Run, info: Path, c: Criteria, names: seq<string>)
    requires WellFormed(info) && r.failure.None? && Accounts(d0, r)
    requires Distinct(names)
    requires forall n :: n in names ==> Listed(d0, info, n)
    requires forall n :: n in names ==> Join(info, n) !in r.removed
    requires forall n :: n in names ==> Record(info, n).BackupPath() !in r.removed
    ensures PurgeExpired(r, info, c, names).failure.None? <==> AllUsable(d0, info, c, names)
    decreases |names|
  {
    if names != [] {
      var n0 := names[0];
      var rest := names[1..];
      var e1 := PurgeStep(r, info, c, n0);
      PurgeStepEffect(d0, r, info, c, n0);
      assert PurgeExpired(r, info, c, names) == PurgeExpired(e1, info, c, rest);
      if e1.failure.None? {
        DistinctTail(names);
        OthersUntouched(d0, r, info, c, names);
        PurgeExpiredFails(d0, e1, info, c, rest);
      }
    }
  }

  /** Phase 1 over the records still to visit, when it succeeds, removes
      exactly the expired records and their existing backups. */
  lemma {:induction false} PurgeExpiredRemoves(d0: Disk, r: Run, info: Path, c: Criteria, names: seq<string>)
    requires WellFormed(info) && r.failure.None? && Accounts(d0, r)
    requires Distinct(names)
    requires forall n :: n in names ==> Listed(d0, info, n)
    requires forall n :: n in names ==> Join(info, n) !in r.removed
    requires forall n :: n in names ==> Record(info, n).BackupPath() !in r.removed
    ensures var e := PurgeExpired(r, info, c, names);
            e.failure.None? ==> forall q :: q in e.removed <==> q in r.removed || Hit(d0, info, c, names, q)
    decreases |names|
  {
    if names != [] {
      var n0 := names[0];
      var rest := names[1..];
      var e1 := PurgeStep(r, info, c, n0);
      assert PurgeExpired(r, info, c, names) == PurgeExpired(e1, info, c, rest);
      if e1.failure.None? {
        PurgeStepEffect(d0, r, info, c, n0);
        DistinctTail(names);
        OthersUntouched(d0, r, info, c, names);
        PurgeExpiredRemoves(d0, e1, info, c, rest);
        HitCons(d0, info, c, names);
      }
    }
  }

  /** Paths phase 2 removes while visiting the files-directory entries
      `names`, where `d1` is the disk phase 2 started from. */
  predicate OrphanHit(d1: Disk, info: Path, names: seq<string>, q: Path)
    decreases |names|
  {
    && names != []
    && ((q == Join(FilesDir(info), names[0]) && TrashinfoPathFromFile(info, names[0]) !in d1.paths)
        || OrphanHit(d1, info, names[1..], q))
  }

  lemma {:induction false} OrphanHitOf(d1: Disk, info: Path, names: seq<string>, m: string)
    requires m in names && TrashinfoPathFromFile(info, m) !in d1.paths
    ensures OrphanHit(d1, info, names, Join(FilesDir(info), m))
    decreases |names|
  {
    if names[0] != m {
      InTail(names, m);
      OrphanHitOf(d1, info, names[1..], m);
    }
  }

  lemma {:induction false} OrphanHitWitness(d1: Disk, info: Path, names: seq<string>, q: Path)
    returns (m: string)
    requires OrphanHit(d1, info, names, q)
    ensures m in names && q == Join(FilesDir(info), m) && TrashinfoPathFromFile(info, m) !in d1.paths
    decreases |names|
  {
    if q == Join(FilesDir(info), names[0]) && TrashinfoPathFromFile(info, names[0]) !in d1.paths {
      m := names[0];
    } else {
      m := OrphanHitWitness(d1, info, names[1..], q);
    }
  }

  /** Visiting the first entry of the files directory keeps the log
      accounted for, and cannot touch the later entries or their records. */
  lemma OthersStay(d0: Disk, d1: Disk, r: Run, info: Path, names: seq<string>)
    requires WellFormed(info) && r.failure.None? && Accounts(d0, r)
    requires names != [] && Distinct(names)
    requires forall m :: m in names ==> IsName(m) && Join(FilesDir(info), m) in r.disk.paths
    requires forall m :: m in names ==>
               (TrashinfoPathFromFile(info, m) in r.disk.paths <==> TrashinfoPathFromFile(info, m) in d1.paths)
    ensures var e1 := OrphanStep(r, info, names[0]);
            && e1.failure.None?
            && Accounts(d0, e1)
            && (forall m :: m in names[1..] ==> Join(FilesDir(info), m) in e1.disk.paths)
            && (forall m :: m in names[1..] ==>
                  (TrashinfoPathFromFile(info, m) in e1.disk.paths <==> TrashinfoPathFromFile(info, m) in d1.paths))
  {
    var m0 := names[0];
    var files := FilesDir(info);
    var f0 := Join(files, m0);
    var e1 := OrphanStep(r, info, m0);
    assert m0 in names;
    if TrashinfoPathFromFile(info, m0) !in r.disk.paths {
      RemoveFileAccounts(d0, r, f0);
    }
    DistinctTail(names);
    forall m | m in names[1..]
      ensures Join(files, m) in e1.disk.paths
      ensures TrashinfoPathFromFile(info, m) in e1.disk.paths <==> TrashinfoPathFromFile(info, m) in d1.paths
    {
      assert m in names;
      if Join(files, m) == f0 {
        JoinInjective(files, m, m0);
      }
      SuffixedIsPlain(m);
      RecordsApartFromBackups(info, m + Suffix, m0);
    }
  }

  lemma OrphanHitCons(d1: Disk, info: Path, names: seq<string>)
    requires names != []
    ensures forall q :: OrphanHit(d1, info, names, q) <==>
              (q == Join(FilesDir(info), names[0]) && TrashinfoPathFromFile(info, names[0]) !in d1.paths)
              || OrphanHit(d1, info, names[1..], q)
  {
  }

  /** Phase 2 over the entries still to visit never fails, and removes
      exactly the entries whose record is missing from `d1`, the disk as
      phase 1 left it. */
  lemma {:induction false} PurgeOrphansEffect(d0: Disk, d1: Disk, r: Run, info: Path, names: seq<string>)
    requires WellFormed(info) && r.failure.None? && Accounts(d0, r)
    requires Distinct(names)
    requires forall m :: m in names ==> IsName(m) && Join(FilesDir(info), m) in r.disk.paths
    requires forall m :: m in names ==>
               (TrashinfoPathFromFile(info, m) in r.disk.paths <==> TrashinfoPathFromFile(info, m) in d1.paths)
    ensures var e := PurgeOrphans(r, info, names);
            && e.failure.None?
            && forall q :: q in e.removed <==> q in r.removed || OrphanHit(d1, info, names, q)
    decreases |names|
  {
    if names != [] {
      var m0 := names[0];
      var rest := names[1..];
      var e1 := OrphanStep(r, info, m0);
      OthersStay(d0, d1, r, info, names);
      DistinctTail(names);
      PurgeOrphansEffect(d0, d1, e1, info, rest);
      OrphanHitCons(d1, info, names);
      assert m0 in names;
    }
  }

  /** Phase 1 over the whole listing removes exactly the purged paths. */
  lemma HitIsPurged(d: Disk, info: Path, c: Criteria, q: Path)
    ensures Hit(d, info, c, TrashinfoEntries(Entries(d, info)), q) <==> Purged(d, info, c, q)
  {
    var names := TrashinfoEntries(Entries(d, info));
    var files := FilesDir(info);
    if Hit(d, info, c, names, q) {
      var n := HitWitness(d, info, c, names, q);
      ListedMeans(d, info, n);
      if q == Join(info, n) {
        ChildNameOfJoin(info, n);
      } else {
        var s := Strip(n);
        StripIsPlain(n);
        PlainJoin(files, s);
        var b := Base(files);
        assert q == b + s;
        assert q[..|b|] == b && q[|b|..] == s;
        assert Stem(info, q) == Some(s);
        assert s + Suffix == n;
      }
    }
    if Purged(d, info, c, q) {
      if ChildName(info, q).Some? && Expired(d, info, c, ChildName(info, q).value) {
        JoinOfChildName(info, q);
        HitOf(d, info, c, names, ChildName(info, q).value, q);
      } else {
        var s := Stem(info, q).value;
        var n := s + Suffix;
        EntryRoundTrip(info, n, s);
        PlainJoin(files, s);
        assert HitBy(d, info, n, q);
        HitOf(d, info, c, names, n, q);
      }
    }
  }

  /** Phase 2 over the files directory as phase 1 left it removes exactly
      the orphaned paths. */
  lemma OrphanHitIsOrphaned(d: Disk, d1: Disk, info: Path, c: Criteria, q: Path)
    requires forall x :: x in d1.paths <==> Survives(d, info, c, x)
    ensures OrphanHit(d1, info, Entries(d1, FilesDir(info)), q) <==> Orphaned(d, info, c, q)
  {
    var files := FilesDir(info);
    var names := Entries(d1, files);
    if OrphanHit(d1, info, names, q) {
      var m := OrphanHitWitness(d1, info, names, q);
      ChildNameOfJoin(files, m);
    }
    if Orphaned(d, info, c, q) {
      var m := ChildName(files, q).value;
      JoinOfChildName(files, q);
      OrphanHitOf(d1, info, names, m);
    }
  }

  /** `Janitor.swep` on a well-formed trash directory. It fails exactly when
      some listed record has a malformed date, or has no date while the
      criteria are `OlderThan`. When it succeeds, it removes exactly the
      doomed paths: the expired records, the existing backups of expired
      records, and the entries of the files directory whose record does not
      exist after phase 1. Everything else stays. */
  lemma SweepEffect(d: Disk, info: Path, c: Criteria)
    requires Valid(d) && WellFormed(info)
    ensures var r := Sweep(d, info, c);
            && (r.failure.None? <==> DatesUsable(d, info, c))
            && (r.failure.None? ==> forall q :: q in r.removed <==> Doomed(d, info, c, q))
            && (r.failure.None? ==> forall q :: q in r.disk.paths <==> q in d.paths && !Doomed(d, info, c, q))
  {
    var names := TrashinfoEntries(Entries(d, info));
    PurgeExpiredFails(d, Start(d), info, c, names);
    AllUsableMeans(d, info, c, names);
    PurgeExpiredRemoves(d, Start(d), info, c, names);
    PurgeExpiredAccounts(d, Start(d), info, c, names);
    var r1 := PurgeExpired(Start(d), info, c, names);
    SweepAccounts(d, info, c);
    var r := Sweep(d, info, c);
    if r1.failure.None? {
      forall x
        ensures x in r1.disk.paths <==> Survives(d, info, c, x)
      {
        HitIsPurged(d, info, c, x);
      }
      var files := FilesDir(info);
      var ms := Entries(r1.disk, files);
      PurgeOrphansEffect(d, r1.disk, r1, info, ms);
      forall q
        ensures q in r.removed <==> Doomed(d, info, c, q)
      {
        HitIsPurged(d, info, c, q);
        OrphanHitIsOrphaned(d, r1.disk, info, c, q);
      }
    }
  }

  /** Entries of the info directory are never entries of the files
      directory, so neither phase 1's backup rule nor phase 2 touches them. */
  lemma InfoEntryIsNoBackup(info: Path, n: string)
    requires WellFormed(info) && IsName(n)
    ensures Stem(info, Join(info, n)).None?
    ensures ChildName(FilesDir(info), Join(info, n)).None?
  {
    var files := FilesDir(info);
    PlainJoin(info, n);
    if Stem(info, Join(info, n)).Some? {
      BasesSeparate(info, n, files, Stem(info, Join(info, n)).value);
    }
    if ChildName(files, Join(info, n)).Some? {
      JoinOfChildName(files, Join(info, n));
      RecordsApartFromBackups(info, n, ChildName(files, Join(info, n)).value);
    }
  }

  /** Where a record's backup path sits: in the files directory under the
      record's stem, outside the info directory, and pointing back at the
      record when phase 2 asks for its record. */
  lemma BackupPlacement(info: Path, n: string)
    requires WellFormed(info) && IsName(n) && IsTrashinfoName(n)
    ensures var b := Record(info, n).BackupPath();
            && Stem(info, b) == Some(Strip(n))
            && Strip(n) + Suffix == n
            && ChildName(info, b).None?
            && (ChildName(FilesDir(info), b).Some? ==>
                  TrashinfoPathFromFile(info, ChildName(FilesDir(info), b).value) == Join(info, n))
  {
    var files := FilesDir(info);
    var s := Strip(n);
    var b := Record(info, n).BackupPath();
    StripIsPlain(n);
    PlainJoin(files, s);
    assert b[..|Base(files)|] == Base(files) && b[|Base(files)|..] == s;
    if ChildName(info, b).Some? {
      JoinOfChildName(info, b);
      RecordsApartFromBackups(info, ChildName(info, b).value, s);
    }
    if ChildName(files, b).Some? {
      JoinOfChildName(files, b);
      JoinInjective(files, ChildName(files, b).value, s);
      EntryRoundTrip(info, n, s);
    }
  }

  /** A successful sweep leaves alone every entry of the info directory that
      is not a record. */
  lemma SweepKeepsOtherEntries(d: Disk, info: Path, c: Criteria, n: string)
    requires Valid(d) && WellFormed(info) && Sweep(d, info, c).failure.None?
    requires IsName(n) && !IsTrashinfoName(n) && Join(info, n) in d.paths
    ensures Join(info, n) in Sweep(d, info, c).disk.paths
  {
    SweepEffect(d, info, c);
    ChildNameOfJoin(info, n);
    InfoEntryIsNoBackup(info, n);
    ListedMeans(d, info, n);
  }

  /** A successful sweep keeps every record the criteria do not admit, and
      that record's backup. */
  lemma SweepKeepsUnexpired(d: Disk, info: Path, c: Criteria, n: string)
    requires Valid(d) && WellFormed(info) && Sweep(d, info, c).failure.None?
    requires Listed(d, info, n) && !Expired(d, info, c, n)
    ensures var after := Sweep(d, info, c).disk.paths;
            && Join(info, n) in after
            && (Record(info, n).BackupPath() in d.paths ==> Record(info, n).BackupPath() in after)
  {
    var m := Join(info, n);
    var b := Record(info, n).BackupPath();
    ListedMeans(d, info, n);
    ChildNameOfJoin(info, n);
    InfoEntryIsNoBackup(info, n);
    BackupPlacement(info, n);
    assert !Purged(d, info, c, m);
    assert !Doomed(d, info, c, m);
    assert !Purged(d, info, c, b);
    assert Survives(d, info, c, m);
    assert !Doomed(d, info, c, b);
    SweepEffect(d, info, c);
  }

  /** The preconditions of `AlwaysEmpties`: a well-formed trash directory
      without malformed dates, whose info directory exists or has nothing
      below it. */
  ghost predicate AlwaysSweepable(d: Disk, info: Path) {
    && Valid(d) && WellFormed(info)
    && (info in d.paths || forall n :: IsName(n) ==> Join(info, n) !in d.paths)
    && forall n :: Listed(d, info, n) ==> !ReadDeletionDate(TextOf(d.text, Join(info, n))).BadDate?
  }

  /** Under `always` every record the sweep finds goes. */
  lemma AlwaysLeavesNoRecord(d: Disk, info: Path, n: string)
    requires AlwaysSweepable(d, info)
    ensures Sweep(d, info, Always).failure.None?
    ensures !Listed(Sweep(d, info, Always).disk, info, n)
  {
    SweepEffect(d, info, Always);
    var r := Sweep(d, info, Always);
    assert DatesUsable(d, info, Always);
    if Listed(r.disk, info, n) {
      ListedMeans(r.disk, info, n);
      ListedMeans(d, info, n);
      ChildNameOfJoin(info, n);
      assert Purged(d, info, Always, Join(info, n));
    }
  }

  /** Under `always` the record a backup points to does not survive phase
      1: it is missing, or it is purged. */
  lemma AlwaysPurgesRecordOf(d: Disk, info: Path, m: string)
    requires AlwaysSweepable(d, info) && IsName(m)
    ensures !Survives(d, info, Always, TrashinfoPathFromFile(info, m))
  {
    var n := m + Suffix;
    var meta := TrashinfoPathFromFile(info, m);
    SuffixedIsPlain(m);
    if meta in d.paths {
      assert meta == Join(info, n) && info in d.paths;
      ListedMeans(d, info, n);
      assert !ReadDeletionDate(TextOf(d.text, meta)).BadDate?;
      assert Expired(d, info, Always, n);
      ChildNameOfJoin(info, n);
      assert ChildName(info, meta) == Some(n);
    }
  }

  /** Under `always` every entry of the files directory goes: as the backup
      of a purged record, or as an orphan. */
  lemma AlwaysLeavesNoFile(d: Disk, info: Path, m: string)
    requires AlwaysSweepable(d, info)
    ensures m !in Entries(Sweep(d, info, Always).disk, FilesDir(info))
  {
    var r := Sweep(d, info, Always);
    var files := FilesDir(info);
    assert DatesUsable(d, info, Always);
    SweepEffect(d, info, Always);
    if m in Entries(r.disk, files) {
      var q := Join(files, m);
      assert IsName(m) && q in r.disk.paths && files in r.disk.paths;
      assert Survives(d, info, Always, q) && Survives(d, info, Always, files);
      ChildNameOfJoin(files, m);
      AlwaysPurgesRecordOf(d, info, m);
      assert Orphaned(d, info, Always, q);
    }
  }

  /** Under `always`, a sweep that meets no malformed date leaves no record
      in the info directory and nothing in the files directory. This holds
      too when the info directory is missing and nothing lies below it: then
      every entry of the files directory is an orphan. */
  lemma AlwaysEmpties(d: Disk, info: Path)
    requires Valid(d) && WellFormed(info)
    requires info in d.paths || forall n :: IsName(n) ==> Join(info, n) !in d.paths
    requires forall n :: Listed(d, info, n) ==> !ReadDeletionDate(TextOf(d.text, Join(info, n))).BadDate?
    ensures var r := Sweep(d, info, Always);
            && r.failure.None?
            && TrashinfoEntries(Entries(r.disk, info)) == []
            && Entries(r.disk, FilesDir(info)) == []
  {
    var r := Sweep(d, info, Always);
    AlwaysLeavesNoRecord(d, info, "");
    forall n
      ensures n !in TrashinfoEntries(Entries(r.disk, info))
    {
      AlwaysLeavesNoRecord(d, info, n);
    }
    forall m
      ensures m !in Entries(r.disk, FilesDir(info))
    {
      AlwaysLeavesNoFile(d, info, m);
    }
    NothingInIsEmpty(TrashinfoEntries(Entries(r.disk, info)));
    NothingInIsEmpty(Entries(r.disk, FilesDir(info)));
  }

  /** After a successful sweep no record is left that the same criteria
      would purge. */
  lemma NoneExpiredAfterSweep(d: Disk, info: Path, c: Criteria, n: string)
    requires Valid(d) && WellFormed(info) && Sweep(d, info, c).failure.None?
    ensures !Expired(Sweep(d, info, c).disk, info, c, n)
  {
    var d1 := Sweep(d, info, c).disk;
    SweepEffect(d, info, c);
    SweepAccounts(d, info, c);
    if Expired(d1, info, c, n) {
      ListedMeans(d1, info, n);
      ListedMeans(d, info, n);
      ChildNameOfJoin(info, n);
      assert Purged(d, info, c, Join(info, n));
    }
  }

  /** After a successful sweep every entry of the files directory has its
      record, so the same criteria find no orphan. */
  lemma NoOrphanAfterSweep(d: Disk, info: Path, c: Criteria, q: Path)
    requires Valid(d) && WellFormed(info) && Sweep(d, info, c).failure.None?
    ensures !Orphaned(Sweep(d, info, c).disk, info, c, q)
  {
    var d1 := Sweep(d, info, c).disk;
    var files := FilesDir(info);
    SweepEffect(d, info, c);
    SweepAccounts(d, info, c);
    if Orphaned(d1, info, c, q) {
      var m := ChildName(files, q).value;
      JoinOfChildName(files, q);
      SuffixedIsPlain(m);
      InfoEntryIsNoBackup(info, m + Suffix);
      forall n ensures !Expired(d1, info, c, n) {
        NoneExpiredAfterSweep(d, info, c, n);
      }
      assert Survives(d, info, c, q) && Survives(d, info, c, files);
    }
  }

  /** Sweeping again with the same criteria after a successful sweep fails
      on nothing and removes nothing. */
  lemma SweepIdempotent(d: Disk, info: Path, c: Criteria)
    requires Valid(d) && WellFormed(info) && Sweep(d, info, c).failure.None?
    ensures var d1 := Sweep(d, info, c).disk;
            var r2 := Sweep(d1, info, c);
            && r2.failure.None?
            && r2.removed == []
            && forall q :: q in r2.disk.paths <==> q in d1.paths
  {
    SweepEffect(d, info, c);
    SweepAccounts(d, info, c);
    var d1 := Sweep(d, info, c).disk;
    forall n | Listed(d1, info, n)
      ensures Usable(d1, info, c, n)
    {
      ListedMeans(d1, info, n);
      ListedMeans(d, info, n);
    }
    forall q
      ensures !Doomed(d1, info, c, q)
    {
      if ChildName(info, q).Some? {
        NoneExpiredAfterSweep(d, info, c, ChildName(info, q).value);
      }
      if Stem(info, q).Some? {
        NoneExpiredAfterSweep(d, info, c, Stem(info, q).value + Suffix);
      }
      NoOrphanAfterSweep(d, info, c, q);
    }
    SweepEffect(d1, info, c);
    SweepAccounts(d1, info, c);
    var r2 := Sweep(d1, info, c);
    NothingInIsEmpty(r2.removed);
  }

  /** `q` lies inside trash directory `info`: an entry of its info
      directory, or a slash-free name below its files directory. */
  predicate InTrash(info: Path, q: Path) {
    ChildName(info, q).Some? || Stem(info, q).Some?
  }

  /** A slash-free name joined onto the files directory has that stem. */
  lemma StemOfJoin(info: Path, x: string)
    requires '/' !in x
    ensures Stem(info, Join(FilesDir(info), x)) == Some(x)
  {
    var b := Base(FilesDir(info));
    PlainJoin(FilesDir(info), x);
    assert (b + x)[..|b|] == b && (b + x)[|b|..] == x;
  }

  /** `remove_both` removes at most the two paths it is given. */
  lemma RemoveBothAtMost(r: Run, b: Path, m: Path)
    requires r.failure.None?
    ensures forall q :: q in RemoveFile(RemoveFileIfExists(r, b), m).removed ==>
              q in r.removed || q == b || q == m
  {
  }

  /** One purge step removes at most the record it visits and its backup. */
  lemma PurgeStepRemovesAtMost(r: Run, info: Path, c: Criteria, n: string)
    requires r.failure.None?
    ensures var rec := Record(info, n);
            forall q :: q in PurgeStep(r, info, c, n).removed ==>
              q in r.removed || q == rec.MetaPath() || q == rec.BackupPath()
  {
    var rec := Record(info, n);
    var meta, b := rec.MetaPath(), rec.BackupPath();
    RemoveBothAtMost(r, b, meta);
    assert PurgeStep(r, info, c, n).removed == r.removed
           || PurgeStep(r, info, c, n) == RemoveFile(RemoveFileIfExists(r, b), meta);
  }

  /** Both paths a purge step may remove lie inside the trash directory. */
  lemma PurgeStepInTrash(r: Run, info: Path, c: Criteria, n: string)
    requires r.failure.None? && IsName(n)
    ensures forall q :: q in PurgeStep(r, info, c, n).removed ==> q in r.removed || InTrash(info, q)
  {
    var rec := Record(info, n);
    ChildNameOfJoin(info, n);
    StripIsPlain(n);
    StemOfJoin(info, Strip(n));
    assert InTrash(info, rec.MetaPath()) && InTrash(info, rec.BackupPath());
    PurgeStepRemovesAtMost(r, info, c, n);
  }

  /** Phase 1 removes nothing outside the trash directory, whether or not it
      fails. */
  lemma {:induction false} PurgeExpiredInTrash(r: Run, info: Path, c: Criteria, names: seq<string>)
    requires forall n :: n in names ==> IsName(n)
    ensures forall q :: q in PurgeExpired(r, info, c, names).removed ==> q in r.removed || InTrash(info, q)
    decreases |names|
  {
    if r.failure.None? && names != [] {
      assert names[0] in names;
      PurgeStepInTrash(r, info, c, names[0]);
      assert forall n :: n in names[1..] ==> n in names;
      PurgeExpiredInTrash(PurgeStep(r, info, c, names[0]), info, c, names[1..]);
    }
  }

  /** Phase 2 removes nothing but entries of the files directory. */
  lemma {:induction false} PurgeOrphansInTrash(r: Run, info: Path, names: seq<string>)
    requires forall m :: m in names ==> IsName(m)
    ensures forall q :: q in PurgeOrphans(r, info, names).removed ==> q in r.removed || InTrash(info, q)
    decreases |names|
  {
    if r.failure.None? && names != [] {
      var m := names[0];
      assert m in names;
      StemOfJoin(info, m);
      var e := OrphanStep(r, info, m);
      assert forall q :: q in e.removed ==> q in r.removed || q == Join(FilesDir(info), m);
      assert forall n :: n in names[1..] ==> n in names;
      PurgeOrphansInTrash(e, info, names[1..]);
    }
  }

  /** A sweep never removes a path outside the trash directory it sweeps. */
  lemma SweepInTrash(d: Disk, info: Path, c: Criteria)
    ensures forall q :: q in Sweep(d, info, c).removed ==> InTrash(info, q)
  {
    var names := TrashinfoEntries(Entries(d, info));
    forall n | n in names
      ensures IsName(n)
    {
      ListedMeans(d, info, n);
    }
    PurgeExpiredInTrash(Start(d), info, c, names);
    var r1 := PurgeExpired(Start(d), info, c, names);
    if r1.failure.None? {
      PurgeOrphansInTrash(r1, info, Entries(r1.disk, FilesDir(info)));
    }
  }
}
