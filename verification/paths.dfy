/** Textual path operations of Python 2's `posixpath`, as used by
    trashcli/trash2.py: `join`, `dirname`, and the inverse of `join` that a
    directory listing needs. Paths are never normalised: "a/b" and "a//b" are
    different strings, exactly as `os.path.join` produces them. */
module Paths {
  import opened Common

  type Path = string

  /** A directory entry name: what `os.listdir` returns. */
  predicate IsName(n: string) {
    |n| > 0 && '/' !in n
  }

  predicate IsAbsolute(p: Path) {
    |p| > 0 && p[0] == '/'
  }

  /** The prefix `join` puts in front of a relative component: the directory
      itself when it is empty or already ends with a slash, else the directory
      followed by one slash. */
  function Base(dir: Path): (b: Path)
    ensures b == "" || b[|b| - 1] == '/'
  {
    if dir == "" || dir[|dir| - 1] == '/' then dir else dir + "/"
  }

  /** `os.path.join(a, b)`: an absolute `b` discards `a`. */
  function Join(a: Path, b: Path): (r: Path)
    ensures IsAbsolute(b) ==> r == b
  {
    if IsAbsolute(b) then b else Base(a) + b
  }

  /** Whatever `a` is, `join(a, b)` ends with `b`. */
  lemma JoinEndsWith(a: Path, b: Path)
    ensures EndsWith(Join(a, b), b)
  {
    if !IsAbsolute(b) {
      assert (Base(a) + b)[|Base(a)|..] == b;
    }
  }

  /** The entry name of `q` inside `dir`, if `q` is a direct child of `dir`. */
  function ChildName(dir: Path, q: Path): Option<string> {
    var b := Base(dir);
    if |b| < |q| && q[..|b|] == b && IsName(q[|b|..]) then Some(q[|b|..]) else None
  }

  /** `ChildName` inverts `Join` on entry names, in both directions. */
  lemma ChildNameOfJoin(dir: Path, n: string)
    requires IsName(n)
    ensures ChildName(dir, Join(dir, n)) == Some(n)
  {
    assert (Base(dir) + n)[|Base(dir)|..] == n;
  }

  lemma JoinOfChildName(dir: Path, q: Path)
    requires ChildName(dir, q).Some?
    ensures IsName(ChildName(dir, q).value)
    ensures Join(dir, ChildName(dir, q).value) == q
  {
    var b := Base(dir);
    assert q == q[..|b|] + q[|b|..];
  }

  /** A slash-free component is never absolute, so `join` appends it. */
  lemma PlainJoin(dir: Path, x: string)
    requires '/' !in x
    ensures Join(dir, x) == Base(dir) + x
  {
    if |x| > 0 {
      assert x[0] in x;
    }
  }

  /** Joining slash-free components onto one directory is injective. */
  lemma JoinInjective(dir: Path, x: string, y: string)
    requires '/' !in x && '/' !in y
    requires Join(dir, x) == Join(dir, y)
    ensures x == y
  {
    PlainJoin(dir, x);
    PlainJoin(dir, y);
    BasesSeparate(dir, x, dir, y);
  }

  /** Two directory prefixes followed by slash-free tails can only spell the
      same path when the prefixes are equal: entries of different directories
      never collide. */
  lemma {:induction false} BasesSeparate(a: Path, x: string, b: Path, y: string)
    requires Base(a) + x == Base(b) + y
    requires '/' !in x && '/' !in y
    ensures Base(a) == Base(b) && x == y
  {
    var ba, bb := Base(a), Base(b);
    SlashBound(ba, x, bb, y);
    SlashBound(bb, y, ba, x);
    assert ba == (ba + x)[..|ba|];
    assert bb == (bb + y)[..|bb|];
    assert x == (ba + x)[|ba|..];
    assert y == (bb + y)[|bb|..];
  }

  lemma SlashBound(ba: string, x: string, bb: string, y: string)
    requires ba + x == bb + y
    requires '/' !in x
    requires bb == "" || bb[|bb| - 1] == '/'
    ensures |bb| <= |ba|
  {
    var s := ba + x;
    forall i | |ba| <= i < |s|
      ensures s[i] != '/'
    {
      assert s[i] == x[i - |ba|];
    }
    if bb != "" {
      assert s[|bb| - 1] == '/';
    }
  }

  /** Index of the last slash in `p`, or -1 (`str.rfind('/')`). */
  function LastSlash(p: Path): (i: int)
    ensures -1 <= i < |p|
    ensures i >= 0 ==> p[i] == '/'
    ensures forall k :: i < k < |p| ==> p[k] != '/'
  {
    if p == "" then -1
    else if p[|p| - 1] == '/' then |p| - 1
    else LastSlash(p[..|p| - 1])
  }

  predicate AllSlashes(s: string) {
    forall k :: 0 <= k < |s| ==> s[k] == '/'
  }

  /** `s.rstrip('/')`. */
  function TrimSlashes(s: string): (r: string)
    ensures StartsWith(s, r)
    ensures r == "" || r[|r| - 1] != '/'
    ensures AllSlashes(s[|r|..])
  {
    if s == "" || s[|s| - 1] != '/' then s
    else
      var r := TrimSlashes(s[..|s| - 1]);
      assert s[|r|..] == s[..|s| - 1][|r|..] + "/";
      r
  }

  /** `os.path.dirname(p)`: everything up to the last slash, with trailing
      slashes removed unless the head consists of slashes only. */
  function Dirname(p: Path): (d: Path)
    ensures StartsWith(p, d)
  {
    var head := p[..LastSlash(p) + 1];
    if head != "" && !AllSlashes(head) then TrimSlashes(head) else head
  }

  /** The parent of a child entry of a plain directory is that directory. */
  lemma DirnameOfChild(dir: Path, n: string)
    requires dir != "" && dir[|dir| - 1] != '/'
    requires IsName(n)
    ensures Dirname(Join(dir, n)) == dir
  {
    var p := Join(dir, n);
    assert p == dir + "/" + n;
    assert p[|dir|] == '/';
    forall k | |dir| < k < |p|
      ensures p[k] != '/'
    {
      assert p[k] == n[k - |dir| - 1];
    }
    assert LastSlash(p) == |dir|;
    var head := p[..|dir| + 1];
    assert head == dir + "/";
    assert head[|dir| - 1] != '/';
    TrimOneSlash(dir);
  }

  lemma TrimOneSlash(dir: Path)
    requires dir != "" && dir[|dir| - 1] != '/'
    ensures !AllSlashes(dir + "/")
    ensures TrimSlashes(dir + "/") == dir
  {
    assert (dir + "/")[|dir| - 1] != '/';
    assert (dir + "/")[..|dir|] == dir;
  }
}
