/**
 * The filesystem both tools work on, as a map from absolute paths to nodes,
 * and the operating-system and `zipfile` calls they make, each as a function
 * from the tree before the call to the tree after it or to the error it raises.
 */
module FileTree {
  import opened Names

  /** An absolute path: the components below the filesystem root `/`. */
  type Path = seq<Name>

  /**
   * A ZIP archive is modelled by what `zipfile` can read from it: its members,
   * keyed by their (already sanitised) relative paths, with directory members
   * such as `d/` stored as `Dir`; `intact` says every stored checksum matches.
   */
  datatype Content =
    | Blob(bytes: seq<bv8>)
    | Archive(members: map<Path, Node>, intact: bool)

  datatype Node = File(size: nat, content: Content) | Dir

  type Tree = map<Path, Node>

  datatype OsError =
    | NotFound | AlreadyExists | IsADirectory | NotADirectory | NotEmpty
    | PermissionDenied | BadArchive | InvalidName

  datatype Result<T> = Ok(value: T) | Err(error: OsError)

  datatype Option<T> = None | Some(value: T)

  /** How a loop of OS calls ends: run to completion, or stopped by an exception it lets through. */
  datatype Outcome = Done(tree: Tree) | Raised(tree: Tree, error: OsError)

  // ----- paths -----

  function Parent(p: Path): Path
    requires p != []
  {
    p[..|p| - 1]
  }

  function Last(p: Path): Name
    requires p != []
  {
    p[|p| - 1]
  }

  lemma ParentAndLast(p: Path)
    requires p != []
    ensures p == Parent(p) + [Last(p)]
  {
  }

  /** `os.path.basename`: the final component, or "" for the root. */
  function BaseName(p: Path): string {
    if p == [] then "" else Last(p)
  }

  /** The path `f"{p}{ext}"`: `ext` glued onto the final component (at the root, `/<ext>`). */
  function WithExtension(p: Path, ext: Name): Path {
    if p == [] then [ext] else ConcatName(Last(p), ext); Parent(p) + [Last(p) + ext]
  }

  /** Where the OS resolves `dir/s`: "" and "." stay in `dir`, ".." goes up one level. */
  function Resolve(dir: Path, s: string): Path
    requires '/' !in s
  {
    if s == "" || s == "." then dir
    else if s == ".." then (if dir == [] then [] else Parent(dir))
    else dir + [s]
  }

  /** The path relative to `base`, as `os.path.relpath` gives it for a path below `base`. */
  function Rel(p: Path, base: Path): Path
    requires base <= p
  {
    p[|base|..]
  }

  function Join(p: Path): string {
    if p == [] then "" else if |p| == 1 then p[0] else Join(Parent(p)) + "/" + Last(p)
  }

  /** The absolute path as a string, as the user types it. */
  function PathString(p: Path): string {
    "/" + Join(p)
  }

  lemma {:induction false} EndsWithAfterSlash(x: string, name: string, tail: string)
    requires x != [] && x[|x| - 1] == '/'
    requires '/' !in tail
    ensures EndsWith(x + name, tail) <==> EndsWith(name, tail)
  {
    var s := x + name;
    if |tail| > |name| && |tail| <= |s| {
      assert s[|s| - |name| - 1] == '/';
      assert s[|s| - |tail|..][|tail| - |name| - 1] == '/';
    } else if |tail| <= |name| {
      assert s[|s| - |tail|..] == name[|name| - |tail|..];
    }
  }

  /**
   * A path string ends in a separator-free text such as `.mtz` exactly when
   * its final component does; the root `/` ends in none.
   */
  lemma {:induction false} PathStringEndsWith(p: Path, tail: string)
    requires tail != "" && '/' !in tail
    ensures EndsWith(PathString(p), tail) <==> p != [] && EndsWith(Last(p), tail)
  {
    if p == [] {
    } else if |p| == 1 {
      assert PathString(p) == "/" + Last(p);
      EndsWithAfterSlash("/", Last(p), tail);
    } else {
      assert PathString(p) == ("/" + Join(Parent(p)) + "/") + Last(p);
      EndsWithAfterSlash("/" + Join(Parent(p)) + "/", Last(p), tail);
    }
  }

  // ----- well-formed trees -----

  predicate IsFile(t: Tree, p: Path) {
    p in t && t[p].File?
  }

  predicate IsDir(t: Tree, p: Path) {
    p in t && t[p].Dir?
  }

  /** A real filesystem: `/` is a directory and every other entry sits in a directory. */
  ghost predicate WF(t: Tree) {
    && IsDir(t, [])
    && forall p {:trigger Parent(p)} :: p in t && p != [] ==> IsDir(t, Parent(p))
  }

  predicate HasChildren(t: Tree, d: Path) {
    exists c :: c in t && c != [] && Parent(c) == d
  }

  /** `os.listdir(d)`: the names of the entries directly in `d`. */
  function Children(t: Tree, d: Path): set<Name> {
    set c | c in t && c != [] && Parent(c) == d :: Last(c)
  }

  /** The entries at `p` and below it. */
  function Subtree(t: Tree, p: Path): set<Path> {
    set q | q in t && p <= q
  }

  /** `rglob("*")` below `root`: every entry strictly below it. */
  function Descendants(t: Tree, root: Path): set<Path> {
    set q | q in t && root < q
  }

  /** The directories `os.walk(root)` visits: `root` and every directory below it. */
  function WalkDirs(t: Tree, root: Path): set<Path> {
    if IsDir(t, root) then set q | q in t && root <= q && t[q].Dir? else {}
  }

  /** The `filenames` of one `os.walk` step at directory `d`. */
  function FilesIn(t: Tree, d: Path): set<Path> {
    set q | q in t && q != [] && Parent(q) == d && t[q].File?
  }

  /** Every file strictly below `root`. */
  function FilesUnder(t: Tree, root: Path): set<Path> {
    set q | q in t && root < q && t[q].File?
  }

  /** Every ancestor of an entry of a well-formed tree is a directory of it. */
  lemma {:induction false} AncestorIsDir(t: Tree, q: Path, a: Path)
    requires WF(t) && q in t && a < q
    ensures IsDir(t, a)
    decreases |q|
  {
    if a != Parent(q) {
      assert a < Parent(q);
      AncestorIsDir(t, Parent(q), a);
    }
  }

  /** Nothing lies below an absent path or a file. */
  lemma NothingBelow(t: Tree, p: Path)
    requires WF(t) && !IsDir(t, p)
    ensures forall q :: q in t ==> !(p < q)
  {
    forall q | q in t && p < q ensures false {
      AncestorIsDir(t, q, p);
    }
  }

  /** The directories `os.walk` visits cover the parent of every file below `root`. */
  lemma WalkCoversFiles(t: Tree, root: Path, f: Path)
    requires WF(t) && f in FilesUnder(t, root)
    ensures Parent(f) in WalkDirs(t, root) && f in FilesIn(t, Parent(f))
  {
    if root != Parent(f) {
      AncestorIsDir(t, Parent(f), root);
    }
  }

  // ----- sizes -----

  function NodeSize(n: Node): nat {
    if n.File? then n.size else 0
  }

  ghost function SumSizes(t: Tree, ps: set<Path>): nat
    requires ps <= t.Keys
    decreases ps
  {
    if ps == {} then 0
    else
      var p :| p in ps;
      NodeSize(t[p]) + SumSizes(t, ps - {p})
  }

  /** The sum does not depend on which element is taken first. */
  lemma {:induction false} SumSizesPick(t: Tree, ps: set<Path>, x: Path)
    requires ps <= t.Keys && x in ps
    ensures SumSizes(t, ps) == NodeSize(t[x]) + SumSizes(t, ps - {x})
    decreases ps
  {
    var p :| p in ps && SumSizes(t, ps) == NodeSize(t[p]) + SumSizes(t, ps - {p});
    if p != x {
      SumSizesPick(t, ps - {p}, x);
      SumSizesPick(t, ps - {x}, p);
      assert ps - {p} - {x} == ps - {x} - {p};
    }
  }

  lemma SumSizesAdd(t: Tree, ps: set<Path>, x: Path)
    requires ps <= t.Keys && x in t && x !in ps
    ensures SumSizes(t, ps + {x}) == SumSizes(t, ps) + NodeSize(t[x])
  {
    SumSizesPick(t, ps + {x}, x);
    assert ps + {x} - {x} == ps;
  }

  /** Scaling by a positive amount keeps the sign; ratios of sizes rest on this. */
  lemma ScaledSign(x: real, t: real)
    requires t > 0.0
    ensures x * t > 0.0 <==> x > 0.0
  {
    if x > 0.0 {
      assert x * t > 0.0;
    } else {
      assert x * t <= 0.0;
    }
  }

  /** Total size of the files below `root`: what a full `os.walk` with `getsize` adds up. */
  ghost function SizeUnder(t: Tree, root: Path): nat {
    SumSizes(t, FilesUnder(t, root))
  }

  // ----- operating-system calls -----

  /** `os.path.getsize(p)`: a file's size, or the size the OS reports for a directory. */
  function GetSize(t: Tree, p: Path, dirStatSize: nat): Result<nat> {
    if p !in t then Err(NotFound)
    else if t[p].File? then Ok(t[p].size)
    else Ok(dirStatSize)
  }

  /** `os.unlink(p)`. */
  function Unlink(t: Tree, p: Path, locked: set<Path>): Result<Tree> {
    if p !in t then Err(NotFound)
    else if t[p].Dir? then Err(IsADirectory)
    else if p in locked then Err(PermissionDenied)
    else Ok(t - {p})
  }

  /** `os.rmdir(p)`. */
  function Rmdir(t: Tree, p: Path, locked: set<Path>): Result<Tree> {
    if p !in t then Err(NotFound)
    else if t[p].File? then Err(NotADirectory)
    else if HasChildren(t, p) then Err(NotEmpty)
    else if p == [] || p in locked then Err(PermissionDenied)
    else Ok(t - {p})
  }

  /** `Path.mkdir(exist_ok=True)`. */
  function MkdirExistOk(t: Tree, p: Path): Result<Tree> {
    if p in t then (if t[p].Dir? then Ok(t) else Err(AlreadyExists))
    else if p == [] then Ok(t[p := Dir])
    else if Parent(p) !in t then Err(NotFound)
    else if t[Parent(p)].File? then Err(NotADirectory)
    else Ok(t[p := Dir])
  }

  /** `Path.mkdir(parents=True, exist_ok=True)`. */
  function MakeDirs(t: Tree, p: Path): Result<Tree>
    decreases |p|
  {
    if p in t then (if t[p].Dir? then Ok(t) else Err(AlreadyExists))
    else if p == [] then Ok(t[p := Dir])
    else match MakeDirs(t, Parent(p))
      case Err(e) => Err(e)
      case Ok(t1) => Ok(t1[p := Dir])
  }

  lemma PrefixOfParent(a: Path, q: Path)
    requires q != [] && a <= Parent(q)
    ensures a <= q
  {
    assert q[..|a|] == Parent(q)[..|a|];
  }

  /** Where `q`, below `src`, lands when `src` is moved to `dst`. */
  function Rebase(q: Path, src: Path, dst: Path): Path
    requires src <= q
  {
    dst + q[|src|..]
  }

  lemma ParentOfRebase(x: Path, src: Path, dst: Path)
    requires src < x
    ensures src <= Parent(x)
    ensures Parent(Rebase(x, src, dst)) == Rebase(Parent(x), src, dst)
  {
    assert Parent(x)[..|src|] == x[..|src|];
    assert Parent(x)[|src|..] == x[|src|..|x| - 1];
  }

  lemma RebaseInjective(src: Path, dst: Path)
    ensures forall q1, q2 :: src <= q1 && src <= q2 && Rebase(q1, src, dst) == Rebase(q2, src, dst) ==> q1 == q2
  {
    forall q1, q2 | src <= q1 && src <= q2 && Rebase(q1, src, dst) == Rebase(q2, src, dst) ensures q1 == q2 {
      assert q1 == src + q1[|src|..];
      assert q2 == src + q2[|src|..];
      assert Rebase(q1, src, dst)[|dst|..] == q1[|src|..];
      assert Rebase(q2, src, dst)[|dst|..] == q2[|src|..];
    }
  }

  /** The entries outside the subtree at `src`. */
  function Outside(t: Tree, src: Path): Tree {
    map q | q in t && !(src <= q) :: t[q]
  }

  /** The subtree at `src`, re-rooted at `dst`. */
  function Moved(t: Tree, src: Path, dst: Path): Tree {
    RebaseInjective(src, dst);
    map q | q in t && src <= q :: Rebase(q, src, dst) := t[q]
  }

  /** The tree with the subtree at `src` moved to `dst`. */
  function MoveTree(t: Tree, src: Path, dst: Path): Tree {
    Outside(t, src) + Moved(t, src, dst)
  }

  /**
   * POSIX `os.rename(dir/oldName, dir/newName)`: a file replaces a file, a
   * directory replaces an empty directory; any other clash raises.
   */
  function Rename(t: Tree, dir: Path, oldName: Name, newName: Name, locked: set<Path>): Result<Tree> {
    var src, dst := dir + [oldName], dir + [newName];
    if src !in t then Err(NotFound)
    else if src in locked then Err(PermissionDenied)
    else if src == dst then Ok(t)
    else if t[src].File? then
      if IsDir(t, dst) then Err(IsADirectory) else Ok((t - {src})[dst := t[src]])
    else if IsFile(t, dst) then Err(NotADirectory)
    else if dst in t && HasChildren(t, dst) then Err(NotEmpty)
    else Ok(MoveTree(t - {dst}, src, dst))
  }

  /** Renaming a directory to a free name moves its subtree there. */
  lemma RenameDirToFree(t: Tree, dir: Path, a: Name, b: Name, locked: set<Path>)
    requires IsDir(t, dir + [a]) && dir + [a] !in locked && a != b && dir + [b] !in t
    ensures Rename(t, dir, a, b, locked) == Ok(MoveTree(t, dir + [a], dir + [b]))
  {
    assert dir + [a] != dir + [b] by {
      assert (dir + [a])[|dir|] == a;
    }
    assert t - {dir + [b]} == t;
  }

  /** `shutil.rmtree(p)`. */
  function Rmtree(t: Tree, p: Path, locked: set<Path>): Result<Tree> {
    if p !in t then Err(NotFound)
    else if t[p].File? then Err(NotADirectory)
    else if p == [] || exists q :: q in Subtree(t, p) && q in locked then Err(PermissionDenied)
    else Ok(t - Subtree(t, p))
  }

  /** Creating or overwriting the file `p` with `node`. */
  function WriteFile(t: Tree, p: Path, node: Node): Result<Tree>
    requires node.File?
  {
    if p == [] || IsDir(t, p) then Err(IsADirectory)
    else if Parent(p) !in t then Err(NotFound)
    else if t[Parent(p)].File? then Err(NotADirectory)
    else Ok(t[p := node])
  }

  // ----- zipfile -----

  /** The directories `extractall(dest)` makes: every ancestor of a member's target, and the directory members. */
  function DirTargets(dest: Path, members: map<Path, Node>): set<Path> {
    (set m, k | m in members && 0 <= k < |dest + m| :: (dest + m)[..k])
    + (set m | m in members && members[m].Dir? :: dest + m)
  }

  /** The files `extractall(dest)` writes. */
  function FileTargets(dest: Path, members: map<Path, Node>): map<Path, Node> {
    RebaseInjective([], dest);
    map m | m in members && members[m].File? :: Rebase(m, [], dest) := members[m]
  }

  predicate ExtractClash(t: Tree, dest: Path, members: map<Path, Node>) {
    || (exists q :: q in DirTargets(dest, members) && q in FileTargets(dest, members))
    || (exists q :: q in DirTargets(dest, members) && IsFile(t, q))
    || (exists q :: q in FileTargets(dest, members) && IsDir(t, q))
  }

  /**
   * `ZipFile.extractall(dest)`: members are written below `dest`, files
   * overwriting files; a member that needs a directory where a file is, or
   * a file where a directory is, raises.
   */
  function ExtractAll(t: Tree, dest: Path, members: map<Path, Node>): Result<Tree> {
    if ExtractClash(t, dest, members) then Err(AlreadyExists)
    else Ok(t + (map q | q in DirTargets(dest, members) :: Dir) + FileTargets(dest, members))
  }

  /** Opening `archive` with `zipfile.ZipFile` and extracting it into `dest`. */
  function ExtractFile(t: Tree, archive: Path, dest: Path): Result<Tree> {
    if archive !in t then Err(NotFound)
    else if t[archive].Dir? then Err(IsADirectory)
    else match t[archive].content
      case Blob(_) => Err(BadArchive)
      case Archive(members, intact) =>
        if !intact then Err(BadArchive) else ExtractAll(t, dest, members)
  }

  // ----- what the calls keep: a well-formed tree -----

  lemma UnlinkKeepsWF(t: Tree, p: Path, locked: set<Path>)
    requires WF(t) && Unlink(t, p, locked).Ok?
    ensures WF(Unlink(t, p, locked).value)
  {
    NothingBelow(t, p);
  }

  lemma RmdirKeepsWF(t: Tree, p: Path, locked: set<Path>)
    requires WF(t) && Rmdir(t, p, locked).Ok?
    ensures WF(Rmdir(t, p, locked).value)
  {
  }

  lemma MkdirKeepsWF(t: Tree, p: Path)
    requires WF(t) && MkdirExistOk(t, p).Ok?
    ensures WF(MkdirExistOk(t, p).value)
    ensures IsDir(MkdirExistOk(t, p).value, p)
  {
  }

  /**
   * `mkdir(parents=True, exist_ok=True)` fails exactly when some prefix of
   * the path (the path itself included) is a file, and otherwise leaves a
   * directory at the path, adds only directories and keeps everything else.
   */
  lemma {:induction false} MakeDirsSpec(t: Tree, p: Path)
    requires WF(t)
    ensures MakeDirs(t, p).Err? <==> exists q :: q <= p && IsFile(t, q)
    ensures MakeDirs(t, p).Ok? ==> var t' := MakeDirs(t, p).value;
      && WF(t') && IsDir(t', p)
      && (forall q :: q in t ==> q in t' && t'[q] == t[q])
      && (forall q :: q in t' && q !in t ==> q <= p && t'[q] == Dir)
    decreases |p|
  {
    if p in t {
      if t[p].Dir? {
        forall q | q <= p && IsFile(t, q) ensures false {
          if q != p { AncestorIsDir(t, p, q); }
        }
      } else {
        assert p <= p && IsFile(t, p);
      }
    } else {
      assert p != [];
      MakeDirsSpec(t, Parent(p));
      if MakeDirs(t, Parent(p)).Err? {
        var q :| q <= Parent(p) && IsFile(t, q);
        assert q <= p;
      } else {
        forall q | q <= p && IsFile(t, q) ensures q <= Parent(p) {
          assert q != p;
        }
      }
    }
  }

  lemma RenameFileKeepsWF(t: Tree, dir: Path, a: Name, b: Name, locked: set<Path>)
    requires WF(t) && Rename(t, dir, a, b, locked).Ok?
    requires IsFile(t, dir + [a])
    ensures WF(Rename(t, dir, a, b, locked).value)
  {
    var src, dst := dir + [a], dir + [b];
    NothingBelow(t, src);
    assert Parent(src) == dir == Parent(dst);
  }

  /** What `MoveTree` keeps, where it puts the moved entries, and that it adds nothing else. */
  lemma MoveTreeEntries(t: Tree, src: Path, dst: Path)
    requires forall q :: q in t ==> !(dst <= q)
    ensures forall q :: q in t && !(src <= q) ==> q in MoveTree(t, src, dst) && MoveTree(t, src, dst)[q] == t[q]
    ensures forall q :: q in t && src <= q ==>
      Rebase(q, src, dst) in MoveTree(t, src, dst) && MoveTree(t, src, dst)[Rebase(q, src, dst)] == t[q]
    ensures forall q :: q in MoveTree(t, src, dst) && !(dst <= q) ==> q in t && !(src <= q)
    ensures forall q :: q in MoveTree(t, src, dst) && dst <= q ==> src + q[|dst|..] in t && src <= src + q[|dst|..]
  {
    RebaseInjective(src, dst);
    var kept, moved := Outside(t, src), Moved(t, src, dst);
    var r := MoveTree(t, src, dst);
    forall q | q in t && src <= q
      ensures Rebase(q, src, dst) in r && r[Rebase(q, src, dst)] == t[q]
    {
      assert Rebase(q, src, dst) in moved;
      assert moved[Rebase(q, src, dst)] == t[q];
    }
    forall q | q in moved ensures dst <= q {
      var x :| x in t && src <= x && q == Rebase(x, src, dst);
      RebaseBack(x, src, dst);
    }
    forall q | q in r && dst <= q
      ensures src + q[|dst|..] in t && src <= src + q[|dst|..]
    {
      assert q !in kept;
      var x :| x in t && src <= x && q == Rebase(x, src, dst);
      RebaseBack(x, src, dst);
    }
  }

  /** A re-rooted path lies below `dst`, and re-rooting it back at `src` recovers it. */
  lemma RebaseBack(x: Path, src: Path, dst: Path)
    requires src <= x
    ensures dst <= Rebase(x, src, dst) && src + Rebase(x, src, dst)[|dst|..] == x
  {
    var q := Rebase(x, src, dst);
    assert q[|dst|..] == x[|src|..];
    assert x == src + x[|src|..];
  }

  /** The preconditions under which `rename` moves a directory: `dst` is a free sibling of `src`. */
  ghost predicate MovableDir(t: Tree, src: Path, dst: Path) {
    && WF(t) && IsDir(t, src) && src != [] && dst != []
    && Parent(src) == Parent(dst) && dst !in t
  }

  lemma FreeTarget(t: Tree, dst: Path)
    requires WF(t) && dst !in t
    ensures forall q :: q in t ==> !(dst <= q)
  {
    NothingBelow(t, dst);
    forall q | q in t ensures !(dst <= q) {
      assert !(dst < q) && q != dst;
    }
  }

  lemma MovedParentIsDir(t: Tree, src: Path, dst: Path, q: Path)
    requires MovableDir(t, src, dst)
    requires q in MoveTree(t, src, dst) && q != [] && dst <= q
    ensures IsDir(MoveTree(t, src, dst), Parent(q))
  {
    FreeTarget(t, dst);
    if q == dst {
      var dir := Parent(src);
      assert Parent(q) == dir;
      assert !(src <= dir) && !(dst <= dir);
      MoveTreeKeeps(t, src, dst, dir);
    } else {
      var x := MovedSource(t, src, dst, q);
      assert q == Rebase(x, src, dst);
      ParentOfRebase(x, src, dst);
      MoveTreeMoves(t, src, dst, Parent(x));
    }
  }

  /** An entry outside the moved directory stays as it was. */
  lemma MoveTreeKeeps(t: Tree, src: Path, dst: Path, q: Path)
    requires forall q :: q in t ==> !(dst <= q)
    requires q in t && !(src <= q)
    ensures q in MoveTree(t, src, dst) && MoveTree(t, src, dst)[q] == t[q]
  {
    MoveTreeEntries(t, src, dst);
  }

  /** An entry of the moved directory reappears, unchanged, under the new name. */
  lemma MoveTreeMoves(t: Tree, src: Path, dst: Path, q: Path)
    requires forall q :: q in t ==> !(dst <= q)
    requires q in t && src <= q
    ensures Rebase(q, src, dst) in MoveTree(t, src, dst) && MoveTree(t, src, dst)[Rebase(q, src, dst)] == t[q]
  {
    MoveTreeEntries(t, src, dst);
  }

  /** Where an entry under the new name came from. */
  lemma MovedSource(t: Tree, src: Path, dst: Path, q: Path) returns (x: Path)
    requires forall q :: q in t ==> !(dst <= q)
    requires q in MoveTree(t, src, dst) && dst <= q
    ensures x == src + q[|dst|..] && x in t && src <= x
  {
    MoveTreeEntries(t, src, dst);
    x := src + q[|dst|..];
  }

  lemma KeptParentIsDir(t: Tree, src: Path, dst: Path, q: Path)
    requires MovableDir(t, src, dst)
    requires q in MoveTree(t, src, dst) && q != [] && !(dst <= q)
    ensures IsDir(MoveTree(t, src, dst), Parent(q))
  {
    FreeTarget(t, dst);
    MoveTreeEntries(t, src, dst);
    var pq := Parent(q);
    assert q in t && !(src <= q);
    if src <= pq {
      PrefixOfParent(src, q);
    }
    assert !(dst <= pq);
  }

  lemma MoveTreeKeepsWF(t: Tree, src: Path, dst: Path)
    requires MovableDir(t, src, dst)
    ensures WF(MoveTree(t, src, dst))
  {
    FreeTarget(t, dst);
    MoveTreeEntries(t, src, dst);
    var r := MoveTree(t, src, dst);
    assert !(src <= []) && !(dst <= []);
    forall q | q in r && q != [] ensures IsDir(r, Parent(q)) {
      if dst <= q {
        MovedParentIsDir(t, src, dst, q);
      } else {
        KeptParentIsDir(t, src, dst, q);
      }
    }
  }

  lemma RenameDirKeepsWF(t: Tree, dir: Path, a: Name, b: Name, locked: set<Path>)
    requires WF(t) && Rename(t, dir, a, b, locked).Ok?
    requires IsDir(t, dir + [a])
    ensures WF(Rename(t, dir, a, b, locked).value)
  {
    var src, dst := dir + [a], dir + [b];
    assert Parent(src) == dir == Parent(dst);
    if src != dst {
      var t0 := t - {dst};
      assert WF(t0);
      MoveTreeKeepsWF(t0, src, dst);
    }
  }

  lemma RenameKeepsWF(t: Tree, dir: Path, a: Name, b: Name, locked: set<Path>)
    requires WF(t) && Rename(t, dir, a, b, locked).Ok?
    ensures WF(Rename(t, dir, a, b, locked).value)
  {
    if IsFile(t, dir + [a]) {
      RenameFileKeepsWF(t, dir, a, b, locked);
    } else {
      RenameDirKeepsWF(t, dir, a, b, locked);
    }
  }

  lemma RmtreeKeepsWF(t: Tree, p: Path, locked: set<Path>)
    requires WF(t) && Rmtree(t, p, locked).Ok?
    ensures WF(Rmtree(t, p, locked).value)
  {
    var r := Rmtree(t, p, locked).value;
    forall q | q in r && q != [] ensures IsDir(r, Parent(q)) {
      assert !(p <= q);
      assert !(p <= Parent(q));
    }
  }

  lemma WriteFileKeepsWF(t: Tree, p: Path, node: Node)
    requires WF(t) && node.File? && WriteFile(t, p, node).Ok?
    ensures WF(WriteFile(t, p, node).value)
  {
    NothingBelow(t, p);
  }

  lemma ExtractAllKeepsWF(t: Tree, dest: Path, members: map<Path, Node>)
    requires WF(t) && ExtractAll(t, dest, members).Ok?
    ensures WF(ExtractAll(t, dest, members).value)
  {
    var dirs := DirTargets(dest, members);
    var files := FileTargets(dest, members);
    var r := ExtractAll(t, dest, members).value;
    assert [] !in files;
    forall q | q in r && q != [] ensures IsDir(r, Parent(q)) {
      var pq := Parent(q);
      if q in files {
        var m :| m in members && members[m].File? && q == dest + m;
        assert pq == (dest + m)[..|dest + m| - 1];
        assert pq in dirs;
      } else if q in dirs {
        if m, k :| m in members && 0 <= k < |dest + m| && q == (dest + m)[..k] {
          assert pq == (dest + m)[..k - 1];
          assert pq in dirs;
        } else {
          var m :| m in members && members[m].Dir? && q == dest + m;
          assert pq == (dest + m)[..|dest + m| - 1];
          assert pq in dirs;
        }
      } else {
        assert q in t;
      }
    }
  }

  /**
   * `extractall(dest)` leaves every file member at `dest/<member>`, and every
   * entry outside the subtree at `dest` as it was.
   */
  lemma ExtractAllPlaces(t: Tree, dest: Path, members: map<Path, Node>)
    requires ExtractAll(t, dest, members).Ok?
    ensures forall m :: m in members && members[m].File? ==>
      dest + m in ExtractAll(t, dest, members).value && ExtractAll(t, dest, members).value[dest + m] == members[m]
    ensures forall q :: q in t && !(dest <= q) ==>
      q in ExtractAll(t, dest, members).value && ExtractAll(t, dest, members).value[q] == t[q]
  {
    var dirs, files := DirTargets(dest, members), FileTargets(dest, members);
    var r := ExtractAll(t, dest, members).value;
    RebaseInjective([], dest);
    forall m | m in members && members[m].File? ensures dest + m in r && r[dest + m] == members[m] {
      assert Rebase(m, [], dest) == dest + m;
      assert dest + m in files;
    }
    forall q | q in t && !(dest <= q) ensures q in r && r[q] == t[q] {
      assert q !in files;
      if q in dirs {
        assert !IsFile(t, q);
      }
    }
  }

  /** Extraction adds and overwrites files but removes nothing and replaces no directory. */
  lemma ExtractFileKeeps(t: Tree, archive: Path, dest: Path)
    requires ExtractFile(t, archive, dest).Ok?
    ensures forall q :: q in t ==> q in ExtractFile(t, archive, dest).value
    ensures forall q :: IsDir(t, q) ==> IsDir(ExtractFile(t, archive, dest).value, q)
  {
    var members := t[archive].content.members;
    var dirs, files := DirTargets(dest, members), FileTargets(dest, members);
    var r := ExtractFile(t, archive, dest).value;
    assert r == t + (map q | q in dirs :: Dir) + files;
    forall q | IsDir(t, q) ensures IsDir(r, q) {
      assert q !in files;
    }
  }

  lemma ExtractFileKeepsWF(t: Tree, archive: Path, dest: Path)
    requires WF(t) && ExtractFile(t, archive, dest).Ok?
    ensures WF(ExtractFile(t, archive, dest).value)
  {
    ExtractAllKeepsWF(t, dest, t[archive].content.members);
  }

  // ----- renaming many entries, each on its own -----

  /** `f` sends different entries of `S` to different paths. */
  ghost predicate InjectiveOn(S: set<Path>, f: Path -> Path) {
    forall p, q :: p in S && q in S && f(p) == f(q) ==> p == q
  }

  /** Every entry of `S` is in `t`, and `f` sends it to a path `t` does not have. */
  ghost predicate FreeTargets(t: Tree, S: set<Path>, f: Path -> Path) {
    forall q :: q in S ==> q in t && f(q) !in t
  }

  /**
   * `t` with each entry `p` of `S` moved, on its own, to `f(p)`: what a loop
   * of single-entry renames leaves when none of them clashes.
   */
  function Relocated(t: Tree, S: set<Path>, f: Path -> Path): Tree
    requires InjectiveOn(S, f)
  {
    (map q | q in t && q !in S :: t[q]) + (map p | p in S && p in t :: f(p) := t[p])
  }

  lemma RelocatedEntries(t: Tree, S: set<Path>, f: Path -> Path)
    requires InjectiveOn(S, f) && FreeTargets(t, S, f)
    ensures forall q :: q in t && q !in S ==> q in Relocated(t, S, f) && Relocated(t, S, f)[q] == t[q]
    ensures forall q :: q in S ==> f(q) in Relocated(t, S, f) && Relocated(t, S, f)[f(q)] == t[q]
  {
    var moved := map p | p in S && p in t :: f(p) := t[p];
    forall q | q in S ensures f(q) in moved && moved[f(q)] == t[q] {
    }
  }

  /** An entry of `Relocated(t, S, f)` that `t` did not keep in place came from an entry of `S`. */
  lemma RelocatedOrigin(t: Tree, S: set<Path>, f: Path -> Path, q: Path) returns (x: Path)
    requires InjectiveOn(S, f)
    requires q in Relocated(t, S, f) && !(q in t && q !in S)
    ensures x in S && x in t && q == f(x)
  {
    x :| x in S && x in t && q == f(x);
  }

  /** Before `p` is moved it is still in place, and its target is free. */
  lemma RelocatedBefore(t: Tree, S: set<Path>, f: Path -> Path, p: Path)
    requires InjectiveOn(S + {p}, f) && FreeTargets(t, S + {p}, f) && p !in S
    ensures InjectiveOn(S, f)
    ensures p in Relocated(t, S, f) && Relocated(t, S, f)[p] == t[p]
    ensures f(p) !in Relocated(t, S, f)
  {
    RelocatedEntries(t, S, f);
    if f(p) in Relocated(t, S, f) {
      var x := RelocatedOrigin(t, S, f, f(p));
      assert false;
    }
  }

  lemma RelocatedStepSub(t: Tree, S: set<Path>, f: Path -> Path, p: Path)
    requires InjectiveOn(S + {p}, f) && FreeTargets(t, S + {p}, f) && p !in S
    requires InjectiveOn(S, f)
    ensures var lhs, next := (Relocated(t, S, f) - {p})[f(p) := t[p]], Relocated(t, S + {p}, f);
      forall q :: q in lhs ==> q in next && lhs[q] == next[q]
  {
    RelocatedEntries(t, S, f);
    RelocatedEntries(t, S + {p}, f);
    var cur, next := Relocated(t, S, f), Relocated(t, S + {p}, f);
    var lhs := (cur - {p})[f(p) := t[p]];
    forall q | q in lhs ensures q in next && lhs[q] == next[q] {
      if q == f(p) {
      } else if q in t && q !in S {
        assert q != p;
      } else {
        var x := RelocatedOrigin(t, S, f, q);
      }
    }
  }

  lemma RelocatedStepSup(t: Tree, S: set<Path>, f: Path -> Path, p: Path)
    requires InjectiveOn(S + {p}, f) && FreeTargets(t, S + {p}, f) && p !in S
    requires InjectiveOn(S, f)
    ensures var lhs, next := (Relocated(t, S, f) - {p})[f(p) := t[p]], Relocated(t, S + {p}, f);
      forall q :: q in next ==> q in lhs
  {
    RelocatedEntries(t, S, f);
    var cur, next := Relocated(t, S, f), Relocated(t, S + {p}, f);
    var lhs := (cur - {p})[f(p) := t[p]];
    forall q | q in next ensures q in lhs {
      if q in t && q !in S + {p} {
        assert q in cur && q != p;
      } else {
        var x := RelocatedOrigin(t, S + {p}, f, q);
        if x != p {
          assert x in S;
          assert f(x) in cur && f(x) !in t;
        }
      }
    }
  }

  /** Moving one more entry of `S` is one more single rename. */
  lemma RelocatedStep(t: Tree, S: set<Path>, f: Path -> Path, p: Path)
    requires InjectiveOn(S + {p}, f) && FreeTargets(t, S + {p}, f) && p !in S
    ensures InjectiveOn(S, f)
    ensures p in Relocated(t, S, f) && Relocated(t, S, f)[p] == t[p]
    ensures f(p) !in Relocated(t, S, f)
    ensures (Relocated(t, S, f) - {p})[f(p) := t[p]] == Relocated(t, S + {p}, f)
  {
    RelocatedBefore(t, S, f, p);
    RelocatedStepSub(t, S, f, p);
    RelocatedStepSup(t, S, f, p);
    var lhs, next := (Relocated(t, S, f) - {p})[f(p) := t[p]], Relocated(t, S + {p}, f);
    assert lhs.Keys == next.Keys;
  }

  lemma RelocatedNone(t: Tree, f: Path -> Path)
    ensures InjectiveOn({}, f) && Relocated(t, {}, f) == t
  {
  }

  /**
   * The conditions under which moving the subtree at `src` to `dst`, after the
   * entries of `S` have been relocated, relocates that subtree as well: `f`
   * re-roots it at `dst`, and nothing relocated so far lies at or below `src`
   * or `dst`.
   */
  ghost predicate SubtreeMovable(t: Tree, S: set<Path>, f: Path -> Path, src: Path, dst: Path) {
    && InjectiveOn(S + Subtree(t, src), f) && FreeTargets(t, S + Subtree(t, src), f)
    && S !! Subtree(t, src)
    && (forall q :: q in Subtree(t, src) ==> f(q) == Rebase(q, src, dst))
    && (forall x :: x in S ==> !(src <= f(x)) && !(dst <= f(x)))
    && (forall q :: q in t ==> !(dst <= q))
  }

  /** Nothing of the partly relocated tree lies at or below `dst`, and what lies below `src` is still in place. */
  lemma RelocatedAroundSubtree(t: Tree, S: set<Path>, f: Path -> Path, src: Path, dst: Path)
    requires SubtreeMovable(t, S, f, src, dst)
    ensures InjectiveOn(S, f)
    ensures forall q :: q in Relocated(t, S, f) ==> !(dst <= q)
    ensures forall q :: q in Relocated(t, S, f) && src <= q ==> q in Subtree(t, src) && Relocated(t, S, f)[q] == t[q]
  {
    assert InjectiveOn(S, f);
    var c := Relocated(t, S, f);
    RelocatedEntries(t, S, f);
    forall q | q in c ensures !(dst <= q) && (src <= q ==> q in Subtree(t, src) && c[q] == t[q]) {
      if !(q in t && q !in S) {
        var x := RelocatedOrigin(t, S, f, q);
      }
    }
  }

  lemma RelocatedMoveTreeSub(t: Tree, S: set<Path>, f: Path -> Path, src: Path, dst: Path)
    requires SubtreeMovable(t, S, f, src, dst)
    ensures InjectiveOn(S, f)
    ensures var lhs, rhs := MoveTree(Relocated(t, S, f), src, dst), Relocated(t, S + Subtree(t, src), f);
      forall q :: q in lhs ==> q in rhs && lhs[q] == rhs[q]
  {
    RelocatedAroundSubtree(t, S, f, src, dst);
    var c := Relocated(t, S, f);
    var A := Subtree(t, src);
    var lhs, rhs := MoveTree(c, src, dst), Relocated(t, S + A, f);
    MoveTreeEntries(c, src, dst);
    RelocatedEntries(t, S, f);
    RelocatedEntries(t, S + A, f);
    forall q | q in lhs ensures q in rhs && lhs[q] == rhs[q] {
      if dst <= q {
        var y := src + q[|dst|..];
        assert y in c && src <= y;
        assert y in A && c[y] == t[y];
        RebaseBack(y, src, dst);
        assert q == Rebase(y, src, dst) == f(y);
      } else {
        assert q in c && !(src <= q) && lhs[q] == c[q];
        if !(q in t && q !in S) {
          var x := RelocatedOrigin(t, S, f, q);
        }
      }
    }
  }

  lemma RelocatedMoveTreeSup(t: Tree, S: set<Path>, f: Path -> Path, src: Path, dst: Path)
    requires SubtreeMovable(t, S, f, src, dst)
    ensures InjectiveOn(S, f)
    ensures forall q :: q in Relocated(t, S + Subtree(t, src), f) ==> q in MoveTree(Relocated(t, S, f), src, dst)
  {
    RelocatedAroundSubtree(t, S, f, src, dst);
    var c := Relocated(t, S, f);
    var A := Subtree(t, src);
    var lhs, rhs := MoveTree(c, src, dst), Relocated(t, S + A, f);
    MoveTreeEntries(c, src, dst);
    RelocatedEntries(t, S, f);
    forall q | q in rhs ensures q in lhs {
      if q in t && q !in S + A {
        assert q in c && !(src <= q);
      } else {
        var x := RelocatedOrigin(t, S + A, f, q);
        if x in A {
          assert x in c && src <= x && q == Rebase(x, src, dst);
        } else {
          assert q == f(x) && q in c && !(src <= q);
        }
      }
    }
  }

  /** Moving one more subtree, re-rooted the way `f` says, is one more relocation. */
  lemma RelocatedMoveTree(t: Tree, S: set<Path>, f: Path -> Path, src: Path, dst: Path)
    requires SubtreeMovable(t, S, f, src, dst)
    ensures InjectiveOn(S, f)
    ensures MoveTree(Relocated(t, S, f), src, dst) == Relocated(t, S + Subtree(t, src), f)
  {
    RelocatedMoveTreeSub(t, S, f, src, dst);
    RelocatedMoveTreeSup(t, S, f, src, dst);
    var lhs, rhs := MoveTree(Relocated(t, S, f), src, dst), Relocated(t, S + Subtree(t, src), f);
    assert lhs.Keys == rhs.Keys;
  }
}
