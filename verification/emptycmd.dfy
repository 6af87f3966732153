/** `EmptyCmd.run` (trashcli/trash2.py:59-84): the `trash-empty` command.
    The argument scan picks an action; purging sweeps every located trash
    directory in turn. The clock is a parameter: every `OlderThan` built in
    one run sees the same instant `now`. */
module EmptyCmd {
  import opened Common
  import opened Paths
  import opened Storage
  import opened Criteria
  import opened Janitor
  import opened JanitorLaws
  import opened Locator
  import opened TrashDir
  import Dates

  datatype Action = ShowHelp(program: string) | ShowVersion(program: string) | Purge(criteria: Criteria)

  /** The exceptions raised before any action: `argv[0]` of an empty argument
      list, and a day count `OlderThan` cannot represent. */
  datatype Fault = NoProgramName | DaysOutOfRange(arg: string)

  predicate IsDigits(s: string) {
    |s| > 0 && forall k :: 0 <= k < |s| ==> '0' <= s[k] <= '9'
  }

  /** `is_int`: what `int()` accepts, leaving out surrounding whitespace. */
  predicate IsInt(text: string) {
    if |text| > 0 && (text[0] == '+' || text[0] == '-') then IsDigits(text[1..]) else IsDigits(text)
  }

  /** The value of a string of decimal digits. */
  function DigitsValue(s: string): (v: nat)
    requires forall k :: 0 <= k < |s| ==> '0' <= s[k] <= '9'
    ensures s == [] ==> v == 0
    decreases |s|
  {
    if s == [] then 0
    else 10 * DigitsValue(s[..|s| - 1]) + (s[|s| - 1] as int - '0' as int)
  }

  /** `int(text)`. */
  function IntValue(text: string): (v: int)
    requires IsInt(text)
    ensures text[0] == '-' ==> v <= 0
    ensures text[0] != '-' ==> v >= 0
  {
    if text[0] == '-' then -(DigitsValue(text[1..]) as int)
    else if text[0] == '+' then DigitsValue(text[1..])
    else DigitsValue(text)
  }

  /** `int` reads back what `str` writes, with or without a minus sign. */
  lemma IntOfDecimal(n: nat)
    ensures IsInt(DecimalString(n)) && IntValue(DecimalString(n)) == n
    ensures IsInt("-" + DecimalString(n)) && IntValue("-" + DecimalString(n)) == -(n as int)
  {
    var s := DecimalString(n);
    DigitsOfDecimal(n);
    assert ("-" + s)[1..] == s;
  }

  /** `int` takes an optional sign before the digits: `+` changes nothing,
      `-` negates, and a sign alone, like the empty string, is no number. */
  lemma SignedInts(digits: string)
    requires IsDigits(digits)
    ensures IsInt(digits) && IsInt("+" + digits) && IsInt("-" + digits)
    ensures IntValue("+" + digits) == IntValue(digits)
    ensures IntValue("-" + digits) == -IntValue(digits)
    ensures !IsInt("") && !IsInt("+") && !IsInt("-")
  {
    assert ("+" + digits)[1..] == digits && ("-" + digits)[1..] == digits;
    assert "+"[1..] == "" && "-"[1..] == "";
  }

  lemma {:induction false} DigitsOfDecimal(n: nat)
    ensures DigitsValue(DecimalString(n)) == n
    decreases n
  {
    var s := DecimalString(n);
    if n >= 10 {
      DigitsOfDecimal(n / 10);
      assert s[..|s| - 1] == DecimalString(n / 10);
    }
  }

  predicate IsHelpFlag(arg: string) {
    arg == "--help" || arg == "-h"
  }

  predicate IsFlag(arg: string) {
    IsHelpFlag(arg) || arg == "--version"
  }

  /** The action a flag selects. */
  function FlagAction(program: string, flag: string): Action {
    if IsHelpFlag(flag) then ShowHelp(program) else ShowVersion(program)
  }

  /** An argument the scan passes without raising. */
  predicate Accepted(arg: string, now: int)
    requires 0 <= now <= Dates.MaxSeconds
  {
    !IsFlag(arg) && (IsInt(arg) ==> MakeOlderThan(IntValue(arg), now).Some?)
  }

  /** The loop over `argv[1:]` with the criteria chosen so far. */
  function Scan(program: string, args: seq<string>, c: Criteria, now: int): (r: Result<Action, Fault>)
    requires 0 <= now <= Dates.MaxSeconds
    ensures r.Ok? && !r.value.Purge? ==> r.value.program == program
    ensures r.Ok? && r.value.Purge? ==> forall a :: a in args ==> !IsFlag(a)
    ensures r.Ok? && !r.value.Purge? ==> exists a :: a in args && IsFlag(a)
    ensures r.Err? ==> r.error.DaysOutOfRange? && r.error.arg in args && IsInt(r.error.arg)
    decreases |args|
  {
    if args == [] then Ok(Purge(c))
    else
      var arg := args[0];
      assert arg in args;
      if IsFlag(arg) then Ok(FlagAction(program, arg))
      else if IsInt(arg) then
        match MakeOlderThan(IntValue(arg), now)
        case None => Err(DaysOutOfRange(arg))
        case Some(c') => Scan(program, args[1..], c', now)
      else Scan(program, args[1..], c, now)
  }

  /** `EmptyCmd.run`'s choice of action. */
  function Dispatch(argv: seq<string>, now: int): (r: Result<Action, Fault>)
    requires 0 <= now <= Dates.MaxSeconds
    ensures r == Err(NoProgramName) <==> argv == []
    ensures r.Ok? && !r.value.Purge? ==> r.value.program == argv[0]
    ensures r.Ok? && r.value.Purge? ==> forall a :: a in argv[1..] ==> !IsFlag(a)
    ensures r.Err? && r.error.DaysOutOfRange? ==> r.error.arg in argv[1..] && IsInt(r.error.arg)
  {
    if argv == [] then Err(NoProgramName)
    else Scan(argv[0], argv[1..], Always, now)
  }

  /** With no arguments the command purges everything. */
  lemma NoArgumentsPurgeAll(program: string, now: int)
    requires 0 <= now <= Dates.MaxSeconds
    ensures Dispatch([program], now) == Ok(Purge(Always))
  {
    assert [program][1..] == [];
  }

  /** The criteria after scanning accepted arguments: the last day count
      read, if any. */
  function LastInt(args: seq<string>): (r: Option<string>)
    ensures r.Some? ==> r.value in args && IsInt(r.value)
    ensures r.None? ==> forall a :: a in args ==> !IsInt(a)
    decreases |args|
  {
    if args == [] then None
    else if IsInt(args[|args| - 1]) then Some(args[|args| - 1])
    else
      assert forall a :: a in args ==> a in args[..|args| - 1] || a == args[|args| - 1];
      LastInt(args[..|args| - 1])
  }

  lemma {:induction false} LastIntCons(args: seq<string>)
    requires args != []
    ensures LastInt(args) == if LastInt(args[1..]).Some? then LastInt(args[1..])
                             else if IsInt(args[0]) then Some(args[0]) else None
    decreases |args|
  {
    if |args| > 1 && !IsInt(args[|args| - 1]) {
      var init := args[..|args| - 1];
      LastIntCons(init);
      assert init[1..] == args[1..][..|args[1..]| - 1];
    }
  }

  /** The criteria a day count selects, or `c` when there is none. */
  function CriteriaFor(last: Option<string>, c: Criteria, now: int): Criteria
    requires 0 <= now <= Dates.MaxSeconds
  {
    if last.Some? && IsInt(last.value) && MakeOlderThan(IntValue(last.value), now).Some?
    then MakeOlderThan(IntValue(last.value), now).value
    else c
  }

  lemma {:induction false} ScanAccepted(program: string, args: seq<string>, c: Criteria, now: int)
    requires 0 <= now <= Dates.MaxSeconds
    requires forall a :: a in args ==> Accepted(a, now)
    ensures Scan(program, args, c, now) == Ok(Purge(CriteriaFor(LastInt(args), c, now)))
    decreases |args|
  {
    if args != [] {
      assert args[0] in args;
      assert forall a :: a in args[1..] ==> a in args;
      LastIntCons(args);
      if IsInt(args[0]) {
        ScanAccepted(program, args[1..], MakeOlderThan(IntValue(args[0]), now).value, now);
      } else {
        ScanAccepted(program, args[1..], c, now);
      }
    }
  }

  /** Without flags, the last integer argument decides the criteria, and
      with none the command purges everything. */
  lemma LastIntWins(program: string, args: seq<string>, now: int)
    requires 0 <= now <= Dates.MaxSeconds
    requires forall a :: a in args ==> Accepted(a, now)
    ensures LastInt(args).None? ==> Dispatch([program] + args, now) == Ok(Purge(Always))
    ensures LastInt(args).Some? ==>
              && MakeOlderThan(IntValue(LastInt(args).value), now).Some?
              && Dispatch([program] + args, now) == Ok(Purge(MakeOlderThan(IntValue(LastInt(args).value), now).value))
  {
    assert ([program] + args)[1..] == args;
    ScanAccepted(program, args, Always, now);
    if LastInt(args).Some? {
      assert Accepted(LastInt(args).value, now);
    }
  }

  lemma {:induction false} ScanPrefix(program: string, before: seq<string>, rest: seq<string>, c: Criteria, now: int)
    requires 0 <= now <= Dates.MaxSeconds
    requires forall a :: a in before ==> Accepted(a, now)
    ensures Scan(program, before + rest, c, now) == Scan(program, rest, CriteriaFor(LastInt(before), c, now), now)
    decreases |before|
  {
    if before != [] {
      assert before[0] in before;
      assert forall a :: a in before[1..] ==> a in before;
      assert (before + rest)[0] == before[0] && (before + rest)[1..] == before[1..] + rest;
      LastIntCons(before);
      if IsInt(before[0]) {
        ScanPrefix(program, before[1..], rest, MakeOlderThan(IntValue(before[0]), now).value, now);
      } else {
        ScanPrefix(program, before[1..], rest, c, now);
      }
    } else {
      assert before + rest == rest;
    }
  }

  /** The first flag ends the scan: nothing after it is looked at, so a later
      bad day count raises nothing. */
  lemma FlagStopsScan(program: string, before: seq<string>, flag: string, after: seq<string>, now: int)
    requires 0 <= now <= Dates.MaxSeconds
    requires IsFlag(flag)
    requires forall a :: a in before ==> Accepted(a, now)
    ensures Dispatch([program] + before + [flag] + after, now) == Ok(FlagAction(program, flag))
  {
    assert ([program] + before + [flag] + after)[1..] == before + ([flag] + after);
    ScanPrefix(program, before, [flag] + after, Always, now);
  }

  /** A day count out of range raises at once, unless a flag came first. */
  lemma BadDayCountRaises(program: string, before: seq<string>, arg: string, after: seq<string>, now: int)
    requires 0 <= now <= Dates.MaxSeconds
    requires IsInt(arg) && MakeOlderThan(IntValue(arg), now).None?
    requires forall a :: a in before ==> Accepted(a, now)
    ensures Dispatch([program] + before + [arg] + after, now) == Err(DaysOutOfRange(arg))
  {
    assert ([program] + before + [arg] + after)[1..] == before + ([arg] + after);
    ScanPrefix(program, before, [arg] + after, Always, now);
  }

  lemma {:induction false} ScanSkips(program: string, xs: seq<string>, arg: string, ys: seq<string>, c: Criteria, now: int)
    requires 0 <= now <= Dates.MaxSeconds
    requires !IsFlag(arg) && !IsInt(arg)
    ensures Scan(program, xs + [arg] + ys, c, now) == Scan(program, xs + ys, c, now)
    decreases |xs|
  {
    if xs == [] {
      assert xs + [arg] + ys == [arg] + ys && ([arg] + ys)[1..] == ys;
      assert xs + ys == ys;
    } else {
      assert (xs + [arg] + ys)[0] == xs[0] && (xs + [arg] + ys)[1..] == xs[1..] + [arg] + ys;
      assert (xs + ys)[0] == xs[0] && (xs + ys)[1..] == xs[1..] + ys;
      if IsInt(xs[0]) && MakeOlderThan(IntValue(xs[0]), now).Some? {
        ScanSkips(program, xs[1..], arg, ys, MakeOlderThan(IntValue(xs[0]), now).value, now);
      } else {
        ScanSkips(program, xs[1..], arg, ys, c, now);
      }
    }
  }

  /** An argument that is neither a flag nor an integer changes nothing,
      wherever it stands. */
  lemma OtherArgumentsIgnored(program: string, xs: seq<string>, arg: string, ys: seq<string>, now: int)
    requires 0 <= now <= Dates.MaxSeconds
    requires !IsFlag(arg) && !IsInt(arg)
    ensures Dispatch([program] + xs + [arg] + ys, now) == Dispatch([program] + xs + ys, now)
  {
    assert ([program] + xs + [arg] + ys)[1..] == xs + [arg] + ys;
    assert ([program] + xs + ys)[1..] == xs + ys;
    ScanSkips(program, xs, arg, ys, Always, now);
  }

  /** `for_each_infodir` with an action that may raise: the action runs on
      each directory in turn, on the disk the earlier runs left; the first
      exception ends the loop, and the log is the actions' logs in order. */
  function EachDir(act: (Disk, Path) -> Run, d: Disk, dirs: seq<InfoDirRef>): Run
    decreases |dirs|
  {
    if dirs == [] then Start(d)
    else
      var first := act(d, dirs[0].path);
      if first.failure.Some? then first
      else
        var rest := EachDir(act, first.disk, dirs[1..]);
        Run(rest.disk, first.removed + rest.removed, rest.failure)
  }

  /** The disk the `k`-th directory is visited on: what the runs on the
      directories before it leave, or None once one of them has raised. The
      same loop, read forwards one directory at a time. */
  function DiskBefore(act: (Disk, Path) -> Run, d: Disk, dirs: seq<InfoDirRef>, k: nat): Option<Disk>
    requires k <= |dirs|
    decreases k
  {
    if k == 0 then Some(d)
    else
      match DiskBefore(act, d, dirs, k - 1)
      case None => None
      case Some(dk) =>
        var s := act(dk, dirs[k - 1].path);
        if s.failure.Some? then None else Some(s.disk)
  }

  /** Running on the first directory and then iterating over the rest is
      the same as iterating over all of them. */
  lemma {:induction false} DiskBeforeShift(act: (Disk, Path) -> Run, d: Disk, dirs: seq<InfoDirRef>, k: nat)
    requires k < |dirs|
    ensures var first := act(d, dirs[0].path);
            DiskBefore(act, d, dirs, k + 1) ==
              if first.failure.Some? then None else DiskBefore(act, first.disk, dirs[1..], k)
    decreases k
  {
    if k > 0 {
      DiskBeforeShift(act, d, dirs, k - 1);
      assert dirs[1..][k - 1] == dirs[k];
    }
  }

  /** The loop succeeds exactly when the forward reading reaches the end,
      and then leaves the disk it reaches. */
  lemma {:induction false} EachDirIterates(act: (Disk, Path) -> Run, d: Disk, dirs: seq<InfoDirRef>)
    ensures EachDir(act, d, dirs).failure.None? <==> DiskBefore(act, d, dirs, |dirs|).Some?
    ensures EachDir(act, d, dirs).failure.None? ==>
              EachDir(act, d, dirs).disk == DiskBefore(act, d, dirs, |dirs|).value
    decreases |dirs|
  {
    if dirs != [] {
      DiskBeforeShift(act, d, dirs, |dirs| - 1);
      var first := act(d, dirs[0].path);
      if first.failure.None? {
        EachDirIterates(act, first.disk, dirs[1..]);
      }
    }
  }

  /** An exception in the `k`-th directory ends the loop with that
      exception, and no later directory is touched. */
  lemma {:induction false} EachDirStopsAt(act: (Disk, Path) -> Run, d: Disk, dirs: seq<InfoDirRef>, k: nat)
    requires k < |dirs| && DiskBefore(act, d, dirs, k).Some?
    requires act(DiskBefore(act, d, dirs, k).value, dirs[k].path).failure.Some?
    ensures var s := act(DiskBefore(act, d, dirs, k).value, dirs[k].path);
            EachDir(act, d, dirs).failure == s.failure && EachDir(act, d, dirs).disk == s.disk
    decreases k
  {
    if k > 0 {
      DiskBeforeShift(act, d, dirs, k - 1);
      assert dirs[1..][k - 1] == dirs[k];
      EachDirStopsAt(act, act(d, dirs[0].path).disk, dirs[1..], k - 1);
    }
  }

  /** Every directory the loop reaches is visited in full: whatever the
      action removes there is in the loop's log. */
  lemma {:induction false} EachDirVisitsEach(act: (Disk, Path) -> Run, d: Disk, dirs: seq<InfoDirRef>, k: nat)
    requires k < |dirs| && DiskBefore(act, d, dirs, k).Some?
    ensures forall q :: q in act(DiskBefore(act, d, dirs, k).value, dirs[k].path).removed ==>
              q in EachDir(act, d, dirs).removed
    decreases k
  {
    if k > 0 {
      DiskBeforeShift(act, d, dirs, k - 1);
      assert dirs[1..][k - 1] == dirs[k];
      EachDirVisitsEach(act, act(d, dirs[0].path).disk, dirs[1..], k - 1);
    }
  }

  /** An action whose log is exact on every duplicate-free disk keeps the
      loop's log exact. */
  lemma {:induction false} EachDirAccounts(act: (Disk, Path) -> Run, d: Disk, dirs: seq<InfoDirRef>)
    requires Valid(d)
    requires forall x: Disk, p: Path :: Valid(x) ==> Accounts(x, act(x, p))
    ensures Accounts(d, EachDir(act, d, dirs))
    decreases |dirs|
  {
    if dirs != [] {
      var first := act(d, dirs[0].path);
      if first.failure.None? {
        EachDirAccounts(act, first.disk, dirs[1..]);
        var rest := EachDir(act, first.disk, dirs[1..]);
        DistinctConcat(first.removed, rest.removed);
      }
    }
  }

  /** An action that removes only paths inside the directory it is given
      makes the loop remove only paths inside the directories it visits. */
  lemma {:induction false} EachDirInTrash(act: (Disk, Path) -> Run, d: Disk, dirs: seq<InfoDirRef>)
    requires forall x: Disk, p: Path, q: Path :: q in act(x, p).removed ==> InTrash(p, q)
    ensures forall q :: q in EachDir(act, d, dirs).removed ==>
              exists i :: 0 <= i < |dirs| && InTrash(dirs[i].path, q)
    decreases |dirs|
  {
    if dirs != [] {
      var first := act(d, dirs[0].path);
      if first.failure.None? {
        EachDirInTrash(act, first.disk, dirs[1..]);
        forall q | q in EachDir(act, first.disk, dirs[1..]).removed
          ensures exists i :: 0 <= i < |dirs| && InTrash(dirs[i].path, q)
        {
          var i :| 0 <= i < |dirs[1..]| && InTrash(dirs[1..][i].path, q);
          assert InTrash(dirs[i + 1].path, q);
        }
      }
    }
  }

  /** An action that changes no file's text keeps the loop from changing
      any either. */
  lemma {:induction false} EachDirKeepsText(act: (Disk, Path) -> Run, d: Disk, dirs: seq<InfoDirRef>)
    requires forall x: Disk, p: Path :: act(x, p).disk.text == x.text
    ensures EachDir(act, d, dirs).disk.text == d.text
    decreases |dirs|
  {
    if dirs != [] {
      var first := act(d, dirs[0].path);
      if first.failure.None? {
        EachDirKeepsText(act, first.disk, dirs[1..]);
      }
    }
  }

  /** The action of `_empty_trashdir_according_criteria`: a janitor with
      the chosen criteria sweeps the directory. */
  function SweepWith(c: Criteria): (Disk, Path) -> Run {
    (x: Disk, p: Path) => Sweep(x, p, c)
  }

  /** `_delete_according_criteria`: every located directory swept in turn. */
  function SweepAll(d: Disk, dirs: seq<InfoDirRef>, c: Criteria): (r: Run)
    ensures r.disk.text == d.text
  {
    EachDirKeepsText(SweepWith(c), d, dirs);
    EachDir(SweepWith(c), d, dirs)
  }

  /** Purging every directory keeps the log exact: each removed path is
      named once, existed at the start, and nothing else went. */
  lemma SweepAllAccounts(d: Disk, dirs: seq<InfoDirRef>, c: Criteria)
    requires Valid(d)
    ensures Accounts(d, SweepAll(d, dirs, c))
  {
    forall x: Disk, p: Path | Valid(x)
      ensures Accounts(x, SweepWith(c)(x, p))
    {
      SweepAccounts(x, p, c);
    }
    EachDirAccounts(SweepWith(c), d, dirs);
  }

  /** Purging removes nothing outside the trash directories it visits. */
  lemma SweepAllInTrash(d: Disk, dirs: seq<InfoDirRef>, c: Criteria)
    ensures forall q :: q in SweepAll(d, dirs, c).removed ==>
              exists i :: 0 <= i < |dirs| && InTrash(dirs[i].path, q)
  {
    forall x: Disk, p: Path, q: Path | q in SweepWith(c)(x, p).removed
      ensures InTrash(p, q)
    {
      SweepInTrash(x, p, c);
    }
    EachDirInTrash(SweepWith(c), d, dirs);
  }

  /** An action that keeps disks duplicate-free keeps every disk the loop
      reaches so. */
  lemma {:induction false} DiskBeforeValid(act: (Disk, Path) -> Run, d: Disk, dirs: seq<InfoDirRef>, k: nat)
    requires Valid(d) && k <= |dirs| && DiskBefore(act, d, dirs, k).Some?
    requires forall x: Disk, p: Path :: Valid(x) ==> Valid(act(x, p).disk)
    ensures Valid(DiskBefore(act, d, dirs, k).value)
    decreases k
  {
    if k > 0 {
      assert DiskBefore(act, d, dirs, k - 1).Some?;
      DiskBeforeValid(act, d, dirs, k - 1);
    }
  }

  /** Every directory the purge reaches is swept in full. A date there that
      cannot be judged ends the command with that sweep's exception, and no
      later directory is touched; otherwise every path its sweep dooms is
      removed. */
  lemma SweepAllSweepsEach(d: Disk, dirs: seq<InfoDirRef>, c: Criteria, k: nat)
    requires Valid(d) && k < |dirs| && WellFormed(dirs[k].path)
    requires DiskBefore(SweepWith(c), d, dirs, k).Some?
    ensures var dk := DiskBefore(SweepWith(c), d, dirs, k).value;
            var s := Sweep(dk, dirs[k].path, c);
            && (!DatesUsable(dk, dirs[k].path, c) ==>
                  s.failure.Some? && SweepAll(d, dirs, c).failure == s.failure
                  && SweepAll(d, dirs, c).disk == s.disk)
            && (DatesUsable(dk, dirs[k].path, c) ==>
                  forall q :: Doomed(dk, dirs[k].path, c, q) ==> q in SweepAll(d, dirs, c).removed)
  {
    forall x: Disk, p: Path | Valid(x)
      ensures Valid(SweepWith(c)(x, p).disk)
    {
      SweepAccounts(x, p, c);
    }
    DiskBeforeValid(SweepWith(c), d, dirs, k);
    var dk := DiskBefore(SweepWith(c), d, dirs, k).value;
    SweepEffect(dk, dirs[k].path, c);
    assert SweepWith(c)(dk, dirs[k].path) == Sweep(dk, dirs[k].path, c);
    if !DatesUsable(dk, dirs[k].path, c) {
      EachDirStopsAt(SweepWith(c), d, dirs, k);
    } else {
      EachDirVisitsEach(SweepWith(c), d, dirs, k);
    }
  }

  /** Every directory the command visits is a well-formed trash directory,
      so the sweep laws apply to each. */
  lemma LocatedAreWellFormed(env: map<string, string>, uid: nat, volumes: seq<Path>, i: int)
    requires 0 <= i < |Locate(env, uid, volumes)|
    ensures WellFormed(Locate(env, uid, volumes)[i].path)
  {
    LocatedEndsWithInfo(env, uid, volumes, i);
    InfoDirsAreWellFormed(Locate(env, uid, volumes)[i].path);
  }

  /** Run `r` sweeps every directory the purge reaches in full: a date
      there that cannot be judged makes `r` fail, and otherwise every path
      that directory's sweep dooms is in `r`'s log. */
  ghost predicate SweepsReached(d: Disk, dirs: seq<InfoDirRef>, c: Criteria, r: Run) {
    forall k :: 0 <= k < |dirs| && DiskBefore(SweepWith(c), d, dirs, k).Some? ==>
      var dk := DiskBefore(SweepWith(c), d, dirs, k).value;
      && (!DatesUsable(dk, dirs[k].path, c) ==> r.failure.Some?)
      && (DatesUsable(dk, dirs[k].path, c) ==>
            forall q :: Doomed(dk, dirs[k].path, c, q) ==> q in r.removed)
  }

  /** Purging the located directories sweeps each one it reaches in full. */
  lemma SweepAllSweepsLocated(env: map<string, string>, uid: nat, volumes: seq<Path>, d: Disk, c: Criteria)
    requires Valid(d)
    ensures SweepsReached(d, Locate(env, uid, volumes), c, SweepAll(d, Locate(env, uid, volumes), c))
  {
    var dirs := Locate(env, uid, volumes);
    forall k | 0 <= k < |dirs| && DiskBefore(SweepWith(c), d, dirs, k).Some?
      ensures var dk := DiskBefore(SweepWith(c), d, dirs, k).value;
              && (!DatesUsable(dk, dirs[k].path, c) ==> SweepAll(d, dirs, c).failure.Some?)
              && (DatesUsable(dk, dirs[k].path, c) ==>
                    forall q :: Doomed(dk, dirs[k].path, c, q) ==> q in SweepAll(d, dirs, c).removed)
    {
      LocatedAreWellFormed(env, uid, volumes, k);
      SweepAllSweepsEach(d, dirs, c, k);
    }
  }

  /** `EmptyCmd.run` on a disk: the chosen action and what it did. The
      result is an error exactly when the argument scan raises; an exception
      raised while purging is the run's failure. Help and version print only
      and change nothing. A purge sweeps the located directories in order,
      each on the disk the earlier sweeps left, until one raises: every
      directory it reaches is swept in full, its log is exact, and it removes
      only paths inside the located trash directories. */
  function Empty(argv: seq<string>, now: int, env: map<string, string>, uid: nat,
                 volumes: seq<Path>, d: Disk): (r: Result<(Action, Run), Fault>)
    requires 0 <= now <= Dates.MaxSeconds
    ensures r.Err? <==> Dispatch(argv, now).Err?
    ensures r.Ok? ==> r.value.0 == Dispatch(argv, now).value
    ensures Valid(d) && r.Ok? ==> Accounts(d, r.value.1)
    ensures r.Ok? && !r.value.0.Purge? ==>
              r.value.1.disk == d && r.value.1.removed == [] && r.value.1.failure.None?
    ensures r.Ok? && r.value.0.Purge? ==>
              var dirs := Locate(env, uid, volumes);
              var last := DiskBefore(SweepWith(r.value.0.criteria), d, dirs, |dirs|);
              && (r.value.1.failure.None? <==> last.Some?)
              && (r.value.1.failure.None? ==> r.value.1.disk == last.value)
    ensures Valid(d) && r.Ok? && r.value.0.Purge? ==>
              SweepsReached(d, Locate(env, uid, volumes), r.value.0.criteria, r.value.1)
    ensures r.Ok? ==> forall q :: q in r.value.1.removed ==>
              exists i :: 0 <= i < |Locate(env, uid, volumes)| && InTrash(Locate(env, uid, volumes)[i].path, q)
  {
    match Dispatch(argv, now)
    case Err(f) => Err(f)
    case Ok(action) =>
      if action.Purge? then
        var dirs := Locate(env, uid, volumes);
        var c := action.criteria;
        assert Valid(d) ==> Accounts(d, SweepAll(d, dirs, c)) by {
          if Valid(d) {
            SweepAllAccounts(d, dirs, c);
          }
        }
        assert Valid(d) ==> SweepsReached(d, dirs, c, SweepAll(d, dirs, c)) by {
          if Valid(d) {
            SweepAllSweepsLocated(env, uid, volumes, d, c);
          }
        }
        EachDirIterates(SweepWith(c), d, dirs);
        SweepAllInTrash(d, dirs, c);
        Ok((action, SweepAll(d, dirs, c)))
      else Ok((action, Start(d)))
  }
}
