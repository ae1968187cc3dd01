/**
 * The local file system under the cache directory, as a map from relative
 * paths (sequences of names) to nodes, and the `os`/`shutil` operations the
 * cache performs on it.
 */
module FileSystem {
  import opened Results
  import opened Formats
  import Paths

  type Path = seq<string>

  datatype Node = File(data: Bytes) | Dir

  type Disk = map<Path, Node>

  function Parent(p: Path): Path
    requires |p| >= 1
  {
    p[..|p| - 1]
  }

  /** `path + suffix` on the last name: `target + ".tmp"`, `target + ".info"`. */
  function WithSuffix(p: Path, suffix: string): (r: Path)
    requires |p| >= 1
    ensures |r| == |p| && Parent(r) == Parent(p) && r[|r| - 1] == p[|p| - 1] + suffix
  {
    Parent(p) + [p[|p| - 1] + suffix]
  }

  /** The sidecar of an artifact: `P.info` beside `P`. */
  function Sidecar(p: Path): Path
    requires |p| >= 1
  {
    WithSuffix(p, ".info")
  }

  /** The temporary download location of an artifact that is to be extracted. */
  function TempOf(p: Path): Path
    requires |p| >= 1
  {
    WithSuffix(p, ".tmp")
  }

  predicate IsPrefix(p: Path, q: Path) {
    |p| <= |q| && q[..|p|] == p
  }

  /** A name a directory can hold: non-empty, no separator, not `.` or `..`. */
  predicate IsName(s: string) {
    Paths.IsSegment(s) && s != "." && s != ".."
  }

  predicate WellNamed(p: Path) {
    forall k :: 0 <= k < |p| ==> IsName(p[k])
  }

  /** The cache directory itself (the empty path) is a directory. */
  predicate IsDir(d: Disk, p: Path) {
    |p| == 0 || (p in d && d[p].Dir?)
  }

  /** `os.path.exists` */
  predicate Exists(d: Disk, p: Path) {
    |p| == 0 || p in d
  }

  /** The disk is a tree: every entry sits in a directory and has a proper name. */
  predicate Valid(d: Disk) {
    forall p :: p in d ==> |p| >= 1 && IsDir(d, Parent(p)) && WellNamed(p)
  }

  /** Some proper prefix of `p` is a plain file. */
  predicate BelowFile(d: Disk, p: Path) {
    exists k :: 0 < k < |p| && p[..k] in d && d[p[..k]].File?
  }

  /** The error of opening a path that does not exist. */
  function Missing(d: Disk, p: Path): Error {
    OSError(if BelowFile(d, p) then NotADirectory else NotFound)
  }

  /** `open(p, 'rb').read()` */
  function ReadFile(d: Disk, p: Path): (r: Result<Bytes, Error>)
    ensures r.Ok? <==> p in d && d[p].File?
    ensures r.Ok? ==> r.value == d[p].data
  {
    if p !in d then Err(Missing(d, p))
    else if d[p].Dir? then Err(OSError(IsADirectory))
    else Ok(d[p].data)
  }

  /**
   * `_create_path(p)`: `os.makedirs(p)` with every `OSError` swallowed. The
   * missing directories are created from the top down; a plain file on the
   * way stops the creation.
   */
  function MakeDirs(d: Disk, p: Path): (r: Disk)
    ensures d.Keys <= r.Keys && forall q :: q in d ==> r[q] == d[q]
    ensures forall q :: q in r && q !in d ==> IsPrefix(q, p) && |q| >= 1 && r[q] == Dir
    ensures Valid(d) && WellNamed(p) ==> Valid(r)
    ensures Valid(d) && !BelowFile(d, p) && !(p in d && d[p].File?) ==> IsDir(r, p)
    decreases |p|
  {
    if |p| == 0 then d
    else
      var up := MakeDirs(d, Parent(p));
      assert Valid(d) && !BelowFile(d, p) ==> !BelowFile(d, Parent(p)) && !(Parent(p) in d && d[Parent(p)].File?) by {
        if |p| >= 2 && Parent(p) in d && d[Parent(p)].File? {
          assert p[..|p| - 1] == Parent(p);
        }
        if BelowFile(d, Parent(p)) {
          var k :| 0 < k < |Parent(p)| && Parent(p)[..k] in d && d[Parent(p)[..k]].File?;
          assert p[..k] == Parent(p)[..k];
        }
      }
      if p !in up && IsDir(up, Parent(p)) then up[p := Dir] else up
  }

  /** `os.mkdir(p)` inside a `try ... except OSError: pass`. */
  function MakeDir(d: Disk, p: Path): (r: Disk)
    requires |p| >= 1
    ensures Valid(d) && WellNamed(p) ==> Valid(r)
    ensures IsDir(d, Parent(p)) && !(p in d && d[p].File?) ==> IsDir(r, p)
    ensures r == d || (p !in d && r == d[p := Dir])
  {
    if p !in d && IsDir(d, Parent(p)) then d[p := Dir] else d
  }

  /** `open(p, "wb").write(data)` */
  function WriteFile(d: Disk, p: Path, data: Bytes): (r: Result<Disk, Error>)
    requires |p| >= 1
    ensures r.Ok? <==> IsDir(d, Parent(p)) && !(p in d && d[p].Dir?)
    ensures r.Ok? ==> r.value == d[p := File(data)]
    ensures r.Ok? && Valid(d) && WellNamed(p) ==> Valid(r.value)
  {
    if !IsDir(d, Parent(p)) then Err(Missing(d, p))
    else if p in d && d[p].Dir? then Err(OSError(IsADirectory))
    else Ok(d[p := File(data)])
  }

  /** `os.remove(p)`; the operating system refuses to delete the paths in `denied`. */
  function RemoveFile(d: Disk, p: Path, denied: set<Path>): (r: Result<Disk, Error>)
    ensures r.Ok? <==> p in d && d[p].File? && p !in denied
    ensures r.Ok? ==> r.value == d - {p}
    ensures r.Ok? && Valid(d) ==> Valid(r.value)
  {
    if p !in d then Err(Missing(d, p))
    else if d[p].Dir? then Err(OSError(IsADirectory))
    else if p in denied then Err(OSError(PermissionDenied))
    else
      assert Valid(d) ==> Valid(d - {p}) by {
        if Valid(d) {
          forall q | q in d - {p} ensures IsDir(d - {p}, Parent(q)) {
            assert Parent(q) != p;
          }
        }
      }
      Ok(d - {p})
  }

  /** The entries at or below `p`. */
  function Subtree(d: Disk, p: Path): set<Path> {
    set q | q in d && IsPrefix(p, q)
  }

  /** `shutil.rmtree(p)`: fails, deleting nothing, when a path below is denied. */
  function RemoveTree(d: Disk, p: Path, denied: set<Path>): (r: Result<Disk, Error>)
    ensures r.Ok? <==> Subtree(d, p) !! denied
    ensures r.Ok? ==> r.value == d - Subtree(d, p)
    ensures r.Ok? && Valid(d) ==> Valid(r.value)
  {
    if !(Subtree(d, p) !! denied) then Err(OSError(PermissionDenied))
    else
      var rest := d - Subtree(d, p);
      assert Valid(d) ==> Valid(rest) by {
        if Valid(d) {
          forall q | q in rest ensures IsDir(rest, Parent(q)) {
            assert |Parent(q)| > 0 ==> !IsPrefix(p, Parent(q));
          }
        }
      }
      Ok(rest)
  }

  /** An archive member at `rel` cannot be placed under `target`. */
  predicate Clashes(d: Disk, target: Path, rel: Path, n: Node) {
    !IsDir(d, target) || (target + rel in d && d[target + rel].Dir? != n.Dir?)
  }

  /** The tree placed under `target`, overwriting files that are already there. */
  function Graft(d: Disk, target: Path, tree: Disk): (r: Disk)
    ensures forall rel :: rel in tree ==> target + rel in r && r[target + rel] == tree[rel]
    ensures forall q :: q in d && !IsPrefix(target, q) ==> q in r && r[q] == d[q]
    ensures forall q :: q in r && q !in d ==> IsPrefix(target, q)
  {
    var placed := set rel | rel in tree :: target + rel;
    assert forall rel :: rel in tree ==> (target + rel)[|target|..] == rel;
    assert forall q :: q in placed ==> IsPrefix(target, q);
    d + map q | q in placed :: tree[q[|target|..]]
  }

  /** `tarfile.extractall(target)` of an archive whose members form `tree`. */
  function Extract(d: Disk, target: Path, tree: Disk): (r: Result<Disk, Error>)
    requires |target| >= 1
    ensures r.Ok? ==> r.value == Graft(d, target, tree)
    ensures r.Ok? && Valid(d) && Valid(tree) && WellNamed(target) ==> Valid(r.value)
  {
    if exists rel :: rel in tree && Clashes(d, target, rel, tree[rel]) then Err(OSError(Unspecified))
    else
      assert Valid(d) && Valid(tree) && WellNamed(target) ==> Valid(Graft(d, target, tree)) by {
        if Valid(d) && Valid(tree) && WellNamed(target) {
          GraftValid(d, target, tree);
        }
      }
      Ok(Graft(d, target, tree))
  }

  lemma GraftValid(d: Disk, target: Path, tree: Disk)
    requires |target| >= 1 && Valid(d) && Valid(tree) && WellNamed(target)
    requires forall rel :: rel in tree ==> !Clashes(d, target, rel, tree[rel])
    ensures Valid(Graft(d, target, tree))
  {
    var g := Graft(d, target, tree);
    forall q | q in g ensures |q| >= 1 && IsDir(g, Parent(q)) && WellNamed(q) {
      if rel :| rel in tree && q == target + rel {
        assert WellNamed(q) by {
          forall k | 0 <= k < |q| ensures IsName(q[k]) {
            if k >= |target| { assert q[k] == rel[k - |target|]; }
          }
        }
        if |rel| == 1 {
          assert Parent(q) == target;
          assert target in g && g[target] == d[target];
        } else {
          assert Parent(q) == target + Parent(rel);
          assert Parent(rel) in tree && tree[Parent(rel)] == Dir;
        }
      } else {
        assert q in d;
        var up := Parent(q);
        if rel' :| rel' in tree && up == target + rel' {
          assert !Clashes(d, target, rel', tree[rel']);
        }
      }
    }
  }

  /** On a consistent disk every proper prefix of an entry is a directory. */
  lemma {:induction false} AncestorsAreDirs(d: Disk, q: Path, k: nat)
    requires Valid(d) && q in d && 0 < k < |q|
    ensures q[..k] in d && d[q[..k]].Dir?
    decreases |q| - k
  {
    var up := Parent(q);
    assert IsDir(d, up);
    if k < |up| {
      AncestorsAreDirs(d, up, k);
      assert up[..k] == q[..k];
    } else {
      assert up == q[..k];
    }
  }

  /** The sidecar and the temporary file of `p` are siblings of `p`, distinct from it and from each other. */
  lemma Siblings(p: Path)
    requires |p| >= 1
    ensures Sidecar(p) != p && TempOf(p) != p && Sidecar(p) != TempOf(p)
  {
    var n := p[|p| - 1];
    assert |Sidecar(p)[|p| - 1]| == |n| + 5;
    assert |TempOf(p)[|p| - 1]| == |n| + 4;
  }

  /** Neither the sidecar nor the temporary file of `p` lies at or below `p`. */
  lemma SiblingsNotBelow(p: Path)
    requires |p| >= 1
    ensures !IsPrefix(p, Sidecar(p)) && !IsPrefix(p, TempOf(p))
  {
    Siblings(p);
  }
}
