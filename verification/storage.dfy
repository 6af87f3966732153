/** The file system as the core sees it through `_FileReader` and
    `_FileRemover` (trashcli/trash2.py:3-17): a finite collection of existing
    paths, kept in the order a directory listing reports them, and the text
    of each file. Directories are paths like any other; a directory's entries
    are the existing paths one `join` below it. */
module Storage {
  import opened Common
  import opened Paths

  datatype Disk = Disk(paths: seq<Path>, text: map<Path, string>)

  /** A well-formed disk lists no path twice. */
  predicate Valid(d: Disk) {
    Distinct(d.paths)
  }

  /** `contents_of`: reading a missing file raises (None here). A path with
      no recorded text reads as empty. */
  function Contents(d: Disk, q: Path): (r: Option<string>)
    ensures r.Some? <==> q in d.paths
  {
    if q !in d.paths then None
    else if q in d.text then Some(d.text[q])
    else Some("")
  }

  /** The text a path would read as; removals never change it. */
  function TextOf(text: map<Path, string>, q: Path): string {
    if q in text then text[q] else ""
  }

  function Without(ps: seq<Path>, q: Path): (r: seq<Path>)
    ensures forall x :: x in r <==> x in ps && x != q
    ensures Distinct(ps) ==> Distinct(r)
    ensures q !in ps ==> r == ps
    ensures q in ps && Distinct(ps) ==> |r| == |ps| - 1
  {
    if ps == [] then []
    else if ps[0] == q then Without(ps[1..], q)
    else
      DistinctTail(ps);
      [ps[0]] + Without(ps[1..], q)
  }

  /** `os.remove` on an existing path. */
  function Remove(d: Disk, q: Path): (e: Disk)
    requires q in d.paths
    ensures forall x :: x in e.paths <==> x in d.paths && x != q
    ensures e.text == d.text
    ensures Valid(d) ==> Valid(e) && |e.paths| == |d.paths| - 1
  {
    Disk(Without(d.paths, q), d.text)
  }

  /** Names of the existing paths directly below `dir`, in listing order. */
  function Children(ps: seq<Path>, dir: Path): (r: seq<string>)
    ensures forall n :: n in r ==> IsName(n) && Join(dir, n) in ps
    ensures forall n :: IsName(n) && Join(dir, n) in ps ==> n in r
    ensures Distinct(ps) ==> Distinct(r)
  {
    if ps == [] then []
    else
      var rest := Children(ps[1..], dir);
      assert forall n :: IsName(n) && Join(dir, n) in ps ==> Join(dir, n) == ps[0] || Join(dir, n) in ps[1..];
      match ChildName(dir, ps[0])
      case None =>
        assert forall n :: IsName(n) ==> Join(dir, n) != ps[0] by {
          forall n | IsName(n) ensures Join(dir, n) != ps[0] {
            ChildNameOfJoin(dir, n);
          }
        }
        rest
      case Some(n0) =>
        JoinOfChildName(dir, ps[0]);
        DistinctTail(ps);
        [n0] + rest
  }

  /** `entries_if_dir_exists`: nothing when the directory is missing. */
  function Entries(d: Disk, dir: Path): (r: seq<string>)
    ensures forall n :: n in r <==> dir in d.paths && IsName(n) && Join(dir, n) in d.paths
    ensures Valid(d) ==> Distinct(r)
  {
    if dir in d.paths then Children(d.paths, dir) else []
  }
}
