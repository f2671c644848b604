/**
 * The running machine's filesystem as one mutable object. Each method is one
 * operating-system call: it either raises and changes nothing, or moves the
 * tree to the state the matching `FileTree` function describes, and it
 * always leaves a well-formed tree behind.
 */
module Os {
  import opened Names
  import opened FileTree

  class FileSystem {
    var tree: Tree
    /** Entries the OS refuses to rename or remove (permissions, open handles). */
    const locked: set<Path>
    /** What `os.path.getsize` reports for a directory. */
    const dirStatSize: nat
    /** The process's working directory, against which `./extracted` is resolved. */
    const cwd: Path

    ghost predicate Valid()
      reads this
    {
      WF(tree)
    }

    constructor(t: Tree, locked: set<Path>, dirStatSize: nat, cwd: Path)
      requires WF(t)
      ensures Valid()
      ensures tree == t && this.locked == locked && this.dirStatSize == dirStatSize && this.cwd == cwd
    {
      tree := t;
      this.locked := locked;
      this.dirStatSize := dirStatSize;
      this.cwd := cwd;
    }

    method Rename(dir: Path, a: Name, b: Name) returns (ok: bool)
      requires Valid()
      modifies this
      ensures Valid()
      ensures ok == FileTree.Rename(old(tree), dir, a, b, locked).Ok?
      ensures tree == if ok then FileTree.Rename(old(tree), dir, a, b, locked).value else old(tree)
    {
      var r := FileTree.Rename(tree, dir, a, b, locked);
      ok := r.Ok?;
      if ok {
        RenameKeepsWF(tree, dir, a, b, locked);
        tree := r.value;
      }
    }

    method Unlink(p: Path) returns (ok: bool)
      requires Valid()
      modifies this
      ensures Valid()
      ensures ok == FileTree.Unlink(old(tree), p, locked).Ok?
      ensures tree == if ok then FileTree.Unlink(old(tree), p, locked).value else old(tree)
    {
      var r := FileTree.Unlink(tree, p, locked);
      ok := r.Ok?;
      if ok {
        UnlinkKeepsWF(tree, p, locked);
        tree := r.value;
      }
    }

    method Rmdir(p: Path) returns (ok: bool)
      requires Valid()
      modifies this
      ensures Valid()
      ensures ok == FileTree.Rmdir(old(tree), p, locked).Ok?
      ensures tree == if ok then FileTree.Rmdir(old(tree), p, locked).value else old(tree)
    {
      var r := FileTree.Rmdir(tree, p, locked);
      ok := r.Ok?;
      if ok {
        RmdirKeepsWF(tree, p, locked);
        tree := r.value;
      }
    }

    method MkdirExistOk(p: Path) returns (ok: bool)
      requires Valid()
      modifies this
      ensures Valid()
      ensures ok == FileTree.MkdirExistOk(old(tree), p).Ok?
      ensures tree == if ok then FileTree.MkdirExistOk(old(tree), p).value else old(tree)
    {
      var r := FileTree.MkdirExistOk(tree, p);
      ok := r.Ok?;
      if ok {
        MkdirKeepsWF(tree, p);
        tree := r.value;
      }
    }

    method MakeDirs(p: Path) returns (ok: bool)
      requires Valid()
      modifies this
      ensures Valid()
      ensures ok == FileTree.MakeDirs(old(tree), p).Ok?
      ensures tree == if ok then FileTree.MakeDirs(old(tree), p).value else old(tree)
    {
      var r := FileTree.MakeDirs(tree, p);
      ok := r.Ok?;
      if ok {
        MakeDirsSpec(tree, p);
        tree := r.value;
      }
    }

    method Rmtree(p: Path) returns (ok: bool)
      requires Valid()
      modifies this
      ensures Valid()
      ensures ok == FileTree.Rmtree(old(tree), p, locked).Ok?
      ensures tree == if ok then FileTree.Rmtree(old(tree), p, locked).value else old(tree)
    {
      var r := FileTree.Rmtree(tree, p, locked);
      ok := r.Ok?;
      if ok {
        RmtreeKeepsWF(tree, p, locked);
        tree := r.value;
      }
    }

    method WriteFile(p: Path, node: Node) returns (ok: bool)
      requires Valid() && node.File?
      modifies this
      ensures Valid()
      ensures ok == FileTree.WriteFile(old(tree), p, node).Ok?
      ensures tree == if ok then FileTree.WriteFile(old(tree), p, node).value else old(tree)
    {
      var r := FileTree.WriteFile(tree, p, node);
      ok := r.Ok?;
      if ok {
        WriteFileKeepsWF(tree, p, node);
        tree := r.value;
      }
    }

    /** Opening `archive` with `zipfile.ZipFile` and calling `extractall(dest)`. */
    method ExtractFile(archive: Path, dest: Path) returns (ok: bool)
      requires Valid()
      modifies this
      ensures Valid()
      ensures ok == FileTree.ExtractFile(old(tree), archive, dest).Ok?
      ensures tree == if ok then FileTree.ExtractFile(old(tree), archive, dest).value else old(tree)
    {
      var r := FileTree.ExtractFile(tree, archive, dest);
      ok := r.Ok?;
      if ok {
        ExtractFileKeepsWF(tree, archive, dest);
        tree := r.value;
      }
    }
  }

  lemma {:induction false} SubsetSize<T>(a: set<T>, b: set<T>)
    requires a <= b
    ensures |a| <= |b|
    decreases a
  {
    if a != {} {
      var x :| x in a;
      SubsetSize(a - {x}, b - {x});
    }
  }

  /** Every element exactly once. */
  ghost predicate Enumerates<T(!new)>(order: seq<T>, s: set<T>) {
    && |order| == |s|
    && (forall x :: x in s <==> x in order)
    && (forall i, j :: 0 <= i < j < |order| ==> order[i] != order[j])
  }

  /**
   * A directory listing taken before a loop starts changing the tree: the
   * entries of `s`, each once, in an order the model leaves open.
   */
  method Enumerate<T(!new)>(s: set<T>) returns (order: seq<T>)
    ensures Enumerates(order, s)
  {
    order := [];
    var rest := s;
    while rest != {}
      invariant rest <= s
      invariant forall x :: x in s <==> x in rest || x in order
      invariant forall x :: x in rest ==> x !in order
      invariant |order| + |rest| == |s|
      invariant forall i, j :: 0 <= i < j < |order| ==> order[i] != order[j]
      decreases |rest|
    {
      var x :| x in rest;
      order := order + [x];
      rest := rest - {x};
    }
  }

  /** The next element of a listing is in the set and was not seen before. */
  lemma NextListed<T(!new)>(order: seq<T>, s: set<T>, j: nat)
    requires Enumerates(order, s) && j < |order|
    ensures order[j] in s && order[j] !in order[..j] && order[..j + 1] == order[..j] + [order[j]]
  {
  }

  /** Once a loop over a listing has run to the end, it has seen the whole set. */
  lemma ListedAll<T(!new)>(order: seq<T>, s: set<T>, before: set<T>, seen: set<T>)
    requires Enumerates(order, s)
    requires forall x :: x in seen <==> x in before || x in order[..|order|]
    ensures seen == before + s
  {
    assert order[..|order|] == order;
  }

  /** The files `os.walk` lists, directory by directory, are exactly the files below the root. */
  lemma WalkedFilesAreAll(t: Tree, root: Path, dirs: seq<Path>, listed: set<Path>)
    requires WF(t) && Enumerates(dirs, WalkDirs(t, root))
    requires forall f :: f in listed <==> f in t && f != [] && t[f].File? && Parent(f) in dirs
    ensures listed == FilesUnder(t, root)
  {
    forall f | f in FilesUnder(t, root) ensures f in listed {
      WalkCoversFiles(t, root, f);
    }
  }

  /**
   * `os.walk(root)` adding `os.path.getsize` of every file: the total size
   * of the files below `root`.
   */
  method WalkSize(fs: FileSystem, root: Path) returns (total: nat)
    requires fs.Valid()
    ensures total == SizeUnder(fs.tree, root)
  {
    var t := fs.tree;
    var dirs := Enumerate(WalkDirs(t, root));
    total := 0;
    ghost var counted: set<Path> := {};
    for i := 0 to |dirs|
      invariant counted <= t.Keys
      invariant forall f :: f in counted <==> f in t && f != [] && t[f].File? && Parent(f) in dirs[..i]
      invariant total == SumSizes(t, counted)
    {
      assert forall f :: f in counted ==> f !in FilesIn(t, dirs[i]) by {
        assert dirs[i] !in dirs[..i];
      }
      total, counted := AddFileSizes(t, dirs[i], total, counted);
      assert dirs[..i + 1] == dirs[..i] + [dirs[i]];
    }
    assert dirs[..|dirs|] == dirs;
    WalkedFilesAreAll(t, root, dirs, counted);
  }

  /** The inner loop of the walk: adds the size of every file directly in `dir` to `acc`. */
  method AddFileSizes(t: Tree, dir: Path, acc: nat, ghost before: set<Path>)
    returns (total: nat, ghost counted: set<Path>)
    requires before <= t.Keys && acc == SumSizes(t, before)
    requires forall f :: f in before ==> f !in FilesIn(t, dir)
    ensures counted == before + FilesIn(t, dir)
    ensures total == SumSizes(t, counted)
  {
    var files := Enumerate(FilesIn(t, dir));
    total, counted := acc, before;
    for j := 0 to |files|
      invariant counted <= t.Keys
      invariant forall f :: f in counted <==> f in before || f in files[..j]
      invariant total == SumSizes(t, counted)
    {
      var f := files[j];
      assert f in FilesIn(t, dir) && f !in files[..j];
      SumSizesAdd(t, counted, f);
      total := total + t[f].size;
      counted := counted + {f};
    }
    assert files[..|files|] == files;
  }
}
