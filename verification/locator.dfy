/** `InfoDirsFinder._paths` (trashcli/trash2.py:124-132): the trash `info`
    directories of one user, home trash first, then two layouts per mounted
    volume. No directory is checked for existence here. */
module Locator {
  import opened Common
  import opened Paths

  /** One `info` directory to visit, with the volume it belongs to (None for
      the home trash). */
  datatype InfoDirRef = InfoDirRef(path: Path, volume: Option<Path>)

  /** `str(n)` for a non-negative integer. */
  function DecimalString(n: nat): (s: string)
    ensures IsName(s)
    ensures forall k :: 0 <= k < |s| ==> '0' <= s[k] <= '9'
  {
    var d := [(n % 10 + '0' as int) as char];
    if n < 10 then d else DecimalString(n / 10) + d
  }

  function HomeTrash(env: map<string, string>): (r: seq<InfoDirRef>) {
    if "XDG_DATA_HOME" in env then [InfoDirRef(env["XDG_DATA_HOME"] + "/Trash/info", None)]
    else if "HOME" in env then [InfoDirRef(env["HOME"] + "/.local/share/Trash/info", None)]
    else []
  }

  /** `join(volume, '.Trash', uid, 'info')`: the shared `.Trash` layout. */
  function SharedTrash(volume: Path, uid: nat): Path {
    Join(Join(Join(volume, ".Trash"), DecimalString(uid)), "info")
  }

  /** `join(volume, '.Trash-' + uid, 'info')`: the per-user layout. */
  function UserTrash(volume: Path, uid: nat): Path {
    Join(Join(volume, ".Trash-" + DecimalString(uid)), "info")
  }

  /** `f(x), g(x)` for every `x` of `xs`, in order. */
  function Interleave<T, U>(xs: seq<T>, f: T -> U, g: T -> U): (r: seq<U>)
    ensures |r| == 2 * |xs|
  {
    if xs == [] then [] else [f(xs[0]), g(xs[0])] + Interleave(xs[1..], f, g)
  }

  lemma {:induction false} InterleaveAt<T, U>(xs: seq<T>, f: T -> U, g: T -> U, k: int)
    requires 0 <= k < 2 * |xs|
    ensures Interleave(xs, f, g)[k] == if k % 2 == 0 then f(xs[k / 2]) else g(xs[k / 2])
  {
    if k >= 2 {
      InterleaveAt(xs[1..], f, g, k - 2);
      assert xs[1..][(k - 2) / 2] == xs[k / 2];
    }
  }

  /** The two entries `x = xs[i]` contributes. */
  lemma {:induction false} InterleavePair<T, U>(xs: seq<T>, f: T -> U, g: T -> U, i: int)
    requires 0 <= i < |xs|
    ensures Interleave(xs, f, g)[2 * i] == f(xs[i])
    ensures Interleave(xs, f, g)[2 * i + 1] == g(xs[i])
  {
    if i > 0 {
      InterleavePair(xs[1..], f, g, i - 1);
      assert xs[1..][i - 1] == xs[i];
    }
  }

  function VolumeTrashes(volumes: seq<Path>, uid: nat): (r: seq<InfoDirRef>)
    ensures |r| == 2 * |volumes|
  {
    Interleave(volumes, v => InfoDirRef(SharedTrash(v, uid), Some(v)),
                        v => InfoDirRef(UserTrash(v, uid), Some(v)))
  }

  lemma VolumeTrashesAt(volumes: seq<Path>, uid: nat, k: int)
    requires 0 <= k < 2 * |volumes|
    ensures VolumeTrashes(volumes, uid)[k].volume == Some(volumes[k / 2])
  {
    InterleaveAt(volumes, v => InfoDirRef(SharedTrash(v, uid), Some(v)),
                          v => InfoDirRef(UserTrash(v, uid), Some(v)), k);
  }

  lemma VolumeTrashesPair(volumes: seq<Path>, uid: nat, i: int)
    requires 0 <= i < |volumes|
    ensures VolumeTrashes(volumes, uid)[2 * i] == InfoDirRef(SharedTrash(volumes[i], uid), Some(volumes[i]))
    ensures VolumeTrashes(volumes, uid)[2 * i + 1] == InfoDirRef(UserTrash(volumes[i], uid), Some(volumes[i]))
  {
    InterleavePair(volumes, v => InfoDirRef(SharedTrash(v, uid), Some(v)),
                            v => InfoDirRef(UserTrash(v, uid), Some(v)), i);
  }

  /** All `info` directories to visit, in visiting order. */
  function Locate(env: map<string, string>, uid: nat, volumes: seq<Path>): (r: seq<InfoDirRef>)
    ensures |r| == |HomeTrash(env)| + 2 * |volumes|
  {
    HomeTrash(env) + VolumeTrashes(volumes, uid)
  }

  /** Home precedence: XDG_DATA_HOME beats HOME, and only one entry has no
      volume; without either variable there is no home entry at all. */
  lemma HomePrecedence(env: map<string, string>, uid: nat, volumes: seq<Path>)
    ensures var r := Locate(env, uid, volumes);
            && ("XDG_DATA_HOME" in env ==>
                  r[0] == InfoDirRef(env["XDG_DATA_HOME"] + "/Trash/info", None))
            && ("XDG_DATA_HOME" !in env && "HOME" in env ==>
                  r[0] == InfoDirRef(env["HOME"] + "/.local/share/Trash/info", None))
            && ("XDG_DATA_HOME" !in env && "HOME" !in env ==>
                  forall i :: 0 <= i < |r| ==> r[i].volume.Some?)
            && (forall i :: 0 < i < |r| ==> r[i].volume.Some?)
  {
    var r := Locate(env, uid, volumes);
    var h := HomeTrash(env);
    var v := VolumeTrashes(volumes, uid);
    forall i | |h| <= i < |r|
      ensures r[i].volume.Some?
    {
      VolumeTrashesAt(volumes, uid, i - |h|);
      assert r[i] == v[i - |h|];
    }
  }

  /** Each volume, in input order, contributes its two layouts, both tagged
      with that volume. */
  lemma VolumePairs(env: map<string, string>, uid: nat, volumes: seq<Path>, i: int)
    requires 0 <= i < |volumes|
    ensures var r := Locate(env, uid, volumes);
            var k := |HomeTrash(env)|;
            && r[k + 2 * i] == InfoDirRef(SharedTrash(volumes[i], uid), Some(volumes[i]))
            && r[k + 2 * i + 1] == InfoDirRef(UserTrash(volumes[i], uid), Some(volumes[i]))
  {
    var h := HomeTrash(env);
    var v := VolumeTrashes(volumes, uid);
    VolumeTrashesPair(volumes, uid, i);
    AppendAt(h, v, 2 * i);
    AppendAt(h, v, 2 * i + 1);
  }

  /** `join` onto a non-empty directory without a trailing slash inserts one. */
  lemma JoinPlain(a: Path, b: Path)
    requires a != "" && a[|a| - 1] != '/'
    requires !IsAbsolute(b)
    ensures Join(a, b) == a + "/" + b
  {
  }

  /** The two volume layouts, written out: `<volume>/.Trash/<uid>/info` and
      `<volume>/.Trash-<uid>/info`, the slash after the volume being left out
      when the volume already ends with one. */
  lemma VolumeLayouts(volume: Path, uid: nat)
    ensures SharedTrash(volume, uid) == Base(volume) + ".Trash" + "/" + DecimalString(uid) + "/" + "info"
    ensures UserTrash(volume, uid) == Base(volume) + (".Trash-" + DecimalString(uid)) + "/" + "info"
  {
    var u := DecimalString(uid);
    var t := Base(volume) + ".Trash";
    assert t[|t| - 1] == 'h';
    assert !IsAbsolute(u) by { assert u[0] in u; }
    JoinPlain(t, u);
    var tu := t + "/" + u;
    assert tu[|tu| - 1] == u[|u| - 1];
    assert u[|u| - 1] in u;
    JoinPlain(tu, "info");
    var w := Base(volume) + (".Trash-" + u);
    assert w[|w| - 1] == u[|u| - 1];
    JoinPlain(w, "info");
  }

  lemma EndsWithInfo(x: Path)
    ensures EndsWith(x + "/" + "info", "/info")
    ensures EndsWith(x + "/Trash/info", "/info")
    ensures EndsWith(x + "/.local/share/Trash/info", "/info")
  {
    var a, b, c := x + "/" + "info", x + "/Trash/info", x + "/.local/share/Trash/info";
    assert a[|a| - 5..] == "/info";
    assert b[|b| - 5..] == "/info";
    assert c[|c| - 5..] == "/info";
  }

  lemma LayoutsEndWithInfo(volume: Path, uid: nat)
    ensures EndsWith(SharedTrash(volume, uid), "/info")
    ensures EndsWith(UserTrash(volume, uid), "/info")
  {
    VolumeLayouts(volume, uid);
    EndsWithInfo(Base(volume) + ".Trash" + "/" + DecimalString(uid));
    EndsWithInfo(Base(volume) + (".Trash-" + DecimalString(uid)));
  }

  lemma VolumeTrashEndsWithInfo(volumes: seq<Path>, uid: nat, k: int)
    requires 0 <= k < 2 * |volumes|
    ensures EndsWith(VolumeTrashes(volumes, uid)[k].path, "/info")
  {
    var j := k / 2;
    assert k == 2 * j || k == 2 * j + 1;
    VolumeTrashesPair(volumes, uid, j);
    LayoutsEndWithInfo(volumes[j], uid);
  }

  /** Every located directory is a sub-directory named `info`. */
  lemma LocatedEndsWithInfo(env: map<string, string>, uid: nat, volumes: seq<Path>, i: int)
    requires 0 <= i < |Locate(env, uid, volumes)|
    ensures EndsWith(Locate(env, uid, volumes)[i].path, "/info")
  {
    var h := HomeTrash(env);
    if i >= |h| {
      VolumeTrashEndsWithInfo(volumes, uid, i - |h|);
      AppendAt(h, VolumeTrashes(volumes, uid), i - |h|);
    } else if "XDG_DATA_HOME" in env {
      EndsWithInfo(env["XDG_DATA_HOME"]);
    } else {
      EndsWithInfo(env["HOME"]);
    }
  }
}
