/**
 * The packer: every top-level folder of a staging directory is stored in a
 * `<folder>.zip` (and removed once that archive checks out), the `.zip`
 * marker is stripped from the top-level names, and the whole directory is
 * sealed into `<directory>.mtz` and removed.
 */
module Packing {
  import opened Names
  import opened FileTree
  import opened Os

  /**
   * Names the packer leaves alone: top-level entries it never zips, and
   * directories whose own files `zip_folder` leaves out.
   */
  predicate IsSkipped(name: string) {
    name == "wallpaper" || name == "preview"
  }

  /** The suffix of the sealed container. */
  const SealMarker: Name := ".mtz"

  /** What `zipfile` is asked for: `zip_folder` stores, `create_mtz` deflates. */
  datatype Compression = Stored | Deflated

  /**
   * What `zipfile` makes of a write beyond its members: the byte size of the
   * archive, and whether `testzip` passes on it afterwards, which fails only
   * after a fault during the write. Neither the encoding nor the fault is
   * modelled; both are fixed functions of the compression method and the
   * members.
   */
  datatype ZipWriter = ZipWriter(size: (Compression, map<Path, Node>) -> nat, intact: (Compression, map<Path, Node>) -> bool)

  /** The archive a write of these members leaves. */
  function WrittenArchive(zw: ZipWriter, how: Compression, members: map<Path, Node>): Node {
    File(zw.size(how, members), Archive(members, zw.intact(how, members)))
  }

  // ----- archive members -----

  /** Taking a path relative to `base` and extracting it back below `base` gives the path again. */
  lemma RelRebase(x: Path, base: Path)
    requires base <= x
    ensures base + Rel(x, base) == x && Rebase(Rel(x, base), [], base) == x
  {
    assert Rel(x, base)[0..] == Rel(x, base);
    assert x == x[..|base|] + x[|base|..];
  }

  lemma RelInjective(base: Path)
    ensures forall p, q :: base <= p && base <= q && Rel(p, base) == Rel(q, base) ==> p == q
  {
    forall p, q | base <= p && base <= q && Rel(p, base) == Rel(q, base) ensures p == q {
      RelRebase(p, base);
      RelRebase(q, base);
    }
  }

  /** The members `zipf.write(entry, os.path.relpath(entry, base))` writes for the entries of `P`. */
  function ArchiveOf(t: Tree, base: Path, P: set<Path>): map<Path, Node> {
    RelInjective(base);
    map q | q in P && q in t && base <= q :: Rel(q, base) := t[q]
  }

  lemma ArchiveAdd(t: Tree, base: Path, P: set<Path>, q: Path)
    requires q in t && base <= q && q !in P
    ensures ArchiveOf(t, base, P + {q}) == ArchiveOf(t, base, P)[Rel(q, base) := t[q]]
  {
    RelInjective(base);
    var lhs, rhs := ArchiveOf(t, base, P + {q}), ArchiveOf(t, base, P)[Rel(q, base) := t[q]];
    forall k | k in rhs ensures k in lhs && lhs[k] == rhs[k] {
      if k != Rel(q, base) {
        var x :| x in P && x in t && base <= x && k == Rel(x, base);
      }
    }
    assert lhs.Keys == rhs.Keys;
  }

  /**
   * Extracting an archive built from entries below `base` back into `base`
   * writes every file entry at the path it was taken from, and nothing else.
   */
  lemma ArchiveRoundTrip(t: Tree, base: Path, P: set<Path>)
    requires forall q :: q in P ==> q in t && base <= q
    ensures FileTargets(base, ArchiveOf(t, base, P)) == map q | q in P && t[q].File? :: t[q]
  {
    ArchiveTargetsFrom(t, base, P);
    ArchiveTargetsCover(t, base, P);
  }

  /** Every file an archive of `P` extracts to is a file of `P`, with its content. */
  lemma ArchiveTargetsFrom(t: Tree, base: Path, P: set<Path>)
    requires forall q :: q in P ==> q in t && base <= q
    ensures var lhs := FileTargets(base, ArchiveOf(t, base, P));
      forall k :: k in lhs ==> k in P && t[k].File? && lhs[k] == t[k]
  {
    RelInjective(base);
    RebaseInjective([], base);
    var A := ArchiveOf(t, base, P);
    var lhs := FileTargets(base, A);
    forall k | k in lhs ensures k in P && t[k].File? && lhs[k] == t[k] {
      var m :| m in A && A[m].File? && k == Rebase(m, [], base);
      var x :| x in P && x in t && base <= x && m == Rel(x, base);
      RelRebase(x, base);
    }
  }

  /** Every file of `P` is among the files an archive of `P` extracts to. */
  lemma ArchiveTargetsCover(t: Tree, base: Path, P: set<Path>)
    requires forall q :: q in P ==> q in t && base <= q
    ensures forall q :: q in P && t[q].File? ==> q in FileTargets(base, ArchiveOf(t, base, P))
  {
    RelInjective(base);
    RebaseInjective([], base);
    var A := ArchiveOf(t, base, P);
    forall q | q in P && t[q].File? ensures q in FileTargets(base, A) {
      assert Rel(q, base) in A;
      RelRebase(q, base);
    }
  }

  // ----- what `zip_folder` writes -----

  /** The walked directories whose own listing `zip_folder` writes: a skipped name hides only its own files. */
  function ZipRoots(t: Tree, folder: Path): set<Path> {
    set d | d in WalkDirs(t, folder) && !IsSkipped(BaseName(d))
  }

  /** The files `zip_folder` writes and counts. */
  function ZippedFiles(t: Tree, folder: Path): set<Path> {
    set q | q in t && q != [] && t[q].File? && Parent(q) in ZipRoots(t, folder)
  }

  /** The directories `zip_folder` writes as `name/` entries: walked, not skipped, with nothing in them. */
  function EmptyDirEntries(t: Tree, folder: Path): set<Path> {
    set d | d in ZipRoots(t, folder) && !HasChildren(t, d)
  }

  /** The members of `<folder>.zip`; an empty `folder` itself becomes the entry `./`, here the empty path. */
  function FolderArchive(t: Tree, folder: Path): map<Path, Node> {
    ArchiveOf(t, folder, ZippedFiles(t, folder) + EmptyDirEntries(t, folder))
  }

  function ZipPath(folder: Path): Path {
    WithExtension(folder, ZipMarker)
  }

  /** The archive `zip_folder` leaves at `<folder>.zip`. */
  function ZipNode(t: Tree, folder: Path, zw: ZipWriter): Node {
    var members := FolderArchive(t, folder);
    WrittenArchive(zw, Stored, members)
  }

  /** What `testzip` finds: a readable archive whose checksums all match. */
  predicate ArchiveIntact(t: Tree, p: Path) {
    IsFile(t, p) && t[p].content.Archive? && t[p].content.intact
  }

  lemma ZippedFilesBelow(t: Tree, folder: Path)
    ensures forall q :: q in ZippedFiles(t, folder) + EmptyDirEntries(t, folder) ==> q in t && folder <= q
  {
    forall q | q in ZippedFiles(t, folder) ensures folder <= q {
      PrefixOfParent(folder, q);
    }
  }

  /**
   * Unpacking `<folder>.zip` into `folder` puts back exactly the files
   * `zip_folder` counted, each with its size and content.
   */
  lemma ZipRoundTrip(t: Tree, folder: Path)
    ensures FileTargets(folder, FolderArchive(t, folder)) == map q | q in ZippedFiles(t, folder) :: t[q]
  {
    var Z, E := ZippedFiles(t, folder), EmptyDirEntries(t, folder);
    ZippedFilesBelow(t, folder);
    ArchiveRoundTrip(t, folder, Z + E);
    forall q | q in Z + E
      ensures q in t && (t[q].File? <==> q in Z)
    {
    }
    FilePart(t, Z + E, Z);
  }

  /** Keeping the file entries of `P` is keeping `F`, when `F` is exactly the files of `P`. */
  lemma FilePart(t: Tree, P: set<Path>, F: set<Path>)
    requires forall q :: q in P ==> q in t && (t[q].File? <==> q in F)
    requires F <= P
    ensures (map q | q in P && t[q].File? :: t[q]) == map q | q in F :: t[q]
  {
    var lhs, rhs := map q | q in P && t[q].File? :: t[q], map q | q in F :: t[q];
    assert lhs.Keys == rhs.Keys;
  }

  /**
   * The directory entries of `<folder>.zip` are exactly the walked, unskipped
   * directories with nothing in them, which the counters leave out.
   */
  lemma ZipDirEntries(t: Tree, folder: Path)
    ensures forall d :: d in EmptyDirEntries(t, folder) ==>
      Rel(d, folder) in FolderArchive(t, folder) && FolderArchive(t, folder)[Rel(d, folder)] == Dir
    ensures forall m :: m in FolderArchive(t, folder) && FolderArchive(t, folder)[m].Dir? ==>
      folder + m in EmptyDirEntries(t, folder)
  {
    ZippedFilesBelow(t, folder);
    RelInjective(folder);
    var Z, E := ZippedFiles(t, folder), EmptyDirEntries(t, folder);
    var A := FolderArchive(t, folder);
    forall d | d in E
      ensures Rel(d, folder) in A && A[Rel(d, folder)] == Dir
    {
      assert t[d].Dir?;
    }
    forall m | m in A && A[m].Dir?
      ensures folder + m in E
    {
      var x :| x in Z + E && x in t && folder <= x && m == Rel(x, folder);
      RelRebase(x, folder);
    }
  }

  /** A folder whose `wallpaper` directory holds a file and a sub-directory with a file. */
  function SkipExample(): Tree {
    map[
      [] := Dir,
      ["c"] := Dir,
      ["c", "wallpaper"] := Dir,
      ["c", "wallpaper", "a"] := File(1, Blob([])),
      ["c", "wallpaper", "s"] := Dir,
      ["c", "wallpaper", "s", "b"] := File(2, Blob([]))]
  }

  /**
   * The `wallpaper`/`preview` skip is per directory: the file directly in
   * `wallpaper` is left out, the one in its sub-directory is still written.
   */
  lemma SkipIsPerDirectory()
    ensures ["c", "wallpaper", "s", "b"] in ZippedFiles(SkipExample(), ["c"])
    ensures ["c", "wallpaper", "a"] !in ZippedFiles(SkipExample(), ["c"])
  {
    var t := SkipExample();
    var s: Path, w: Path := ["c", "wallpaper", "s"], ["c", "wallpaper"];
    assert Parent(["c", "wallpaper", "s", "b"]) == s && Parent(["c", "wallpaper", "a"]) == w;
    assert ["c"] <= s && s in WalkDirs(t, ["c"]);
    assert BaseName(s) == "s" && BaseName(w) == "wallpaper";
  }

  // ----- what `create_mtz` writes -----

  /** The members of `<folder>.mtz`: every file below the folder, with no exclusions and no directory entries. */
  function SealArchive(t: Tree, folder: Path): map<Path, Node> {
    ArchiveOf(t, folder, FilesUnder(t, folder))
  }

  function SealPath(folder: Path): Path {
    WithExtension(folder, SealMarker)
  }

  function SealNode(t: Tree, folder: Path, zw: ZipWriter): Node {
    var members := SealArchive(t, folder);
    WrittenArchive(zw, Deflated, members)
  }

  /** Unpacking `<folder>.mtz` into `folder` puts back every file that was below it. */
  lemma SealRoundTrip(t: Tree, folder: Path)
    ensures FileTargets(folder, SealArchive(t, folder)) == map q | q in FilesUnder(t, folder) :: t[q]
  {
    ArchiveRoundTrip(t, folder, FilesUnder(t, folder));
    FilePart(t, FilesUnder(t, folder), FilesUnder(t, folder));
  }

  /** `<folder>.mtz` holds files only, each taken from below the folder. */
  lemma SealHasOnlyFiles(t: Tree, folder: Path)
    ensures forall m :: m in SealArchive(t, folder) ==>
      SealArchive(t, folder)[m].File? && folder + m in FilesUnder(t, folder)
  {
    RelInjective(folder);
    var A := SealArchive(t, folder);
    forall m | m in A
      ensures A[m].File? && folder + m in FilesUnder(t, folder)
    {
      var x :| x in FilesUnder(t, folder) && x in t && folder <= x && m == Rel(x, folder);
      assert x == folder + m;
    }
  }

  /**
   * `create_mtz`: the container is written, its size recorded, and the folder
   * removed; a failing removal raises with the container already written.
   */
  function SealStep(t: Tree, folder: Path, locked: set<Path>, zw: ZipWriter): Outcome {
    match WriteFile(t, SealPath(folder), SealNode(t, folder, zw))
    case Err(e) => Raised(t, e)
    case Ok(t1) =>
      match Rmtree(t1, folder, locked)
      case Err(e) => Raised(t1, e)
      case Ok(t2) => Done(t2)
  }

  // ----- walking the folder to collect the members -----

  /** The files `zip_folder` has written once it has walked the directories `D`. */
  function ZippedIn(t: Tree, D: seq<Path>): set<Path> {
    set q | q in t && q != [] && t[q].File? && Parent(q) in D && !IsSkipped(BaseName(Parent(q)))
  }

  /** The directory entries `zip_folder` has written once it has walked the directories `D`. */
  function EmptyIn(t: Tree, D: seq<Path>): set<Path> {
    set d | d in D && d in t && !IsSkipped(BaseName(d)) && !HasChildren(t, d)
  }

  lemma PrefixGrows<T>(s: seq<T>, i: nat)
    requires i < |s|
    ensures s[..i + 1] == s[..i] + [s[i]]
  {
  }

  /** Walking a skipped directory writes nothing. */
  lemma SkippedDirStep(t: Tree, D: seq<Path>, d: Path)
    requires IsSkipped(BaseName(d))
    ensures ZippedIn(t, D + [d]) == ZippedIn(t, D) && EmptyIn(t, D + [d]) == EmptyIn(t, D)
  {
  }

  /** Walking an empty directory writes it as a directory entry. */
  lemma EmptyDirStep(t: Tree, folder: Path, D: seq<Path>, d: Path, Z: set<Path>, E: set<Path>)
    requires IsDir(t, d) && folder <= d && d !in D && !IsSkipped(BaseName(d)) && !HasChildren(t, d)
    requires Z == ZippedIn(t, D) && E == EmptyIn(t, D)
    ensures Z == ZippedIn(t, D + [d]) && E + {d} == EmptyIn(t, D + [d])
    ensures ArchiveOf(t, folder, Z + (E + {d})) == ArchiveOf(t, folder, Z + E)[Rel(d, folder) := t[d]]
  {
    ArchiveAdd(t, folder, Z + E, d);
    assert Z + (E + {d}) == Z + E + {d};
  }

  /** Walking a directory with entries writes its files, none of which was written before. */
  lemma FullDirStep(t: Tree, D: seq<Path>, d: Path)
    requires IsDir(t, d) && d !in D && !IsSkipped(BaseName(d)) && HasChildren(t, d)
    requires forall x :: x in D ==> IsDir(t, x)
    ensures ZippedIn(t, D + [d]) == ZippedIn(t, D) + FilesIn(t, d) && EmptyIn(t, D + [d]) == EmptyIn(t, D)
    ensures forall q :: q in ZippedIn(t, D) + EmptyIn(t, D) ==> q !in FilesIn(t, d)
  {
  }

  lemma ZipWalkComplete(t: Tree, folder: Path, dirs: seq<Path>)
    requires Enumerates(dirs, WalkDirs(t, folder))
    ensures ZippedIn(t, dirs) == ZippedFiles(t, folder)
    ensures EmptyIn(t, dirs) == EmptyDirEntries(t, folder)
  {
  }

  lemma ZipAddFile(t: Tree, folder: Path, Z: set<Path>, E: set<Path>, f: Path)
    requires Z <= t.Keys && f in t && t[f].File? && folder <= f && f !in Z + E
    ensures ArchiveOf(t, folder, Z + {f} + E) == ArchiveOf(t, folder, Z + E)[Rel(f, folder) := t[f]]
    ensures |Z + {f}| == |Z| + 1 && SumSizes(t, Z + {f}) == SumSizes(t, Z) + t[f].size
  {
    ArchiveAdd(t, folder, Z + E, f);
    assert Z + {f} + E == Z + E + {f};
    SumSizesAdd(t, Z, f);
  }

  /** One directory of `zip_folder`'s walk: each of its files is written and counted. */
  method ZipDirFiles(t: Tree, folder: Path, d: Path, members0: map<Path, Node>, count0: nat, bytes0: nat,
                     ghost Z: set<Path>, ghost E: set<Path>)
    returns (members: map<Path, Node>, count: nat, bytes: nat)
    requires folder <= d && Z <= t.Keys
    requires forall q :: q in Z + E ==> q !in FilesIn(t, d)
    requires members0 == ArchiveOf(t, folder, Z + E) && count0 == |Z| && bytes0 == SumSizes(t, Z)
    ensures members == ArchiveOf(t, folder, Z + FilesIn(t, d) + E)
    ensures count == |Z + FilesIn(t, d)| && bytes == SumSizes(t, Z + FilesIn(t, d))
  {
    var files := Enumerate(FilesIn(t, d));
    members, count, bytes := members0, count0, bytes0;
    ghost var zipped := Z;
    for j := 0 to |files|
      invariant zipped <= t.Keys
      invariant forall q :: q in zipped <==> q in Z || q in files[..j]
      invariant members == ArchiveOf(t, folder, zipped + E)
      invariant count == |zipped| && bytes == SumSizes(t, zipped)
    {
      var f := files[j];
      NextListed(files, FilesIn(t, d), j);
      PrefixOfParent(folder, f);
      ZipAddFile(t, folder, zipped, E, f);
      members := members[Rel(f, folder) := t[f]];
      count, bytes := count + 1, bytes + t[f].size;
      zipped := zipped + {f};
    }
    ListedAll(files, FilesIn(t, d), Z, zipped);
  }

  /**
   * The `os.walk` loop of `zip_folder`: for each directory not named
   * `wallpaper` or `preview`, an empty one becomes a directory entry, and
   * otherwise each of its files is written and counted.
   */
  method WalkForZip(fs: FileSystem, folder: Path) returns (members: map<Path, Node>, count: nat, bytes: nat)
    ensures members == FolderArchive(fs.tree, folder)
    ensures count == |ZippedFiles(fs.tree, folder)|
    ensures bytes == SumSizes(fs.tree, ZippedFiles(fs.tree, folder))
  {
    var t := fs.tree;
    var dirs := Enumerate(WalkDirs(t, folder));
    members, count, bytes := map[], 0, 0;
    ghost var zipped: set<Path> := {};
    ghost var empties: set<Path> := {};
    for i := 0 to |dirs|
      invariant zipped == ZippedIn(t, dirs[..i]) && empties == EmptyIn(t, dirs[..i])
      invariant members == ArchiveOf(t, folder, zipped + empties)
      invariant count == |zipped| && bytes == SumSizes(t, zipped)
    {
      var d := dirs[i];
      ghost var D := dirs[..i];
      PrefixGrows(dirs, i);
      assert d in WalkDirs(t, folder) && d !in D;
      if IsSkipped(BaseName(d)) {
        SkippedDirStep(t, D, d);
      } else if !HasChildren(t, d) {
        EmptyDirStep(t, folder, D, d, zipped, empties);
        members := members[Rel(d, folder) := t[d]];
        empties := empties + {d};
      } else {
        assert forall x :: x in D ==> IsDir(t, x) by {
          forall x | x in D ensures IsDir(t, x) {
            assert x in WalkDirs(t, folder);
          }
        }
        FullDirStep(t, D, d);
        members, count, bytes := ZipDirFiles(t, folder, d, members, count, bytes, zipped, empties);
        zipped := zipped + FilesIn(t, d);
      }
    }
    assert dirs[..|dirs|] == dirs;
    ZipWalkComplete(t, folder, dirs);
  }

  /** The `os.walk` loop of `create_mtz`: every file below the folder, under its relative path. */
  method WalkForSeal(fs: FileSystem, folder: Path) returns (members: map<Path, Node>)
    requires fs.Valid()
    ensures members == SealArchive(fs.tree, folder)
  {
    var t := fs.tree;
    var dirs := Enumerate(WalkDirs(t, folder));
    members := map[];
    ghost var picked: set<Path> := {};
    for i := 0 to |dirs|
      invariant forall f :: f in picked <==> f in t && f != [] && t[f].File? && Parent(f) in dirs[..i]
      invariant members == ArchiveOf(t, folder, picked)
    {
      var files := Enumerate(FilesIn(t, dirs[i]));
      ghost var picked0 := picked;
      for j := 0 to |files|
        invariant forall f :: f in picked <==> f in picked0 || f in files[..j]
        invariant members == ArchiveOf(t, folder, picked)
      {
        var f := files[j];
        assert f in FilesIn(t, dirs[i]) && dirs[i] in WalkDirs(t, folder);
        assert f !in picked by {
          assert Parent(f) == dirs[i] && dirs[i] !in dirs[..i];
          assert f !in files[..j];
        }
        PrefixOfParent(folder, f);
        ArchiveAdd(t, folder, picked, f);
        members := members[Rel(f, folder) := t[f]];
        picked := picked + {f};
      }
      assert files[..|files|] == files;
      assert dirs[..i + 1] == dirs[..i] + [dirs[i]];
    }
    assert dirs[..|dirs|] == dirs;
    WalkedFilesAreAll(t, folder, dirs, picked);
  }

  // ----- stripping the marker from the top-level names -----

  /** `os.listdir(dir)`, as the paths of the entries directly in `dir`. */
  function ListDir(t: Tree, dir: Path): set<Path> {
    set c | c in t && c != [] && Parent(c) == dir
  }

  /**
   * One iteration of `remove_zip_extension`: a name ending in `.zip` is
   * renamed to `name[:-4]`; a cut that leaves "", "." or ".." names no
   * sibling, and the rename fails.
   */
  function StripStep(t: Tree, p: Path, locked: set<Path>): Result<Tree> {
    if p == [] || !MatchesZip(Last(p)) then Ok(t)
    else if !IsName(StripMarker(Last(p))) then Err(InvalidName)
    else Rename(t, Parent(p), Last(p), StripMarker(Last(p)), locked)
  }

  /** The loop of `remove_zip_extension` over a listing taken first: the first failing rename ends it. */
  function StripPass(t: Tree, order: seq<Path>, locked: set<Path>): Outcome
    decreases |order|
  {
    if order == [] then Done(t)
    else match StripStep(t, order[0], locked)
      case Err(e) => Raised(t, e)
      case Ok(t1) => StripPass(t1, order[1..], locked)
  }

  /** Where stripping sends an entry; one it does not rename stays put. */
  function StripOf(p: Path): Path {
    if p != [] && MatchesZip(Last(p)) && IsName(StripMarker(Last(p))) then Parent(p) + [StripMarker(Last(p))] else p
  }

  /** The entries of `dir` whose names carry the marker. */
  function StripSet(t: Tree, dir: Path): set<Path> {
    set p | p in ListDir(t, dir) && MatchesZip(Last(p))
  }

  /** Every rename can go ahead: each marked entry is unlocked, and its cut name is valid and free. */
  ghost predicate StripsFree(t: Tree, dir: Path, locked: set<Path>) {
    forall p :: p in StripSet(t, dir) ==> IsName(StripMarker(Last(p))) && StripOf(p) !in t && p !in locked
  }

  lemma StripOfEq(p: Path, q: Path)
    requires p != [] && MatchesZip(Last(p)) && IsName(StripMarker(Last(p)))
    requires q != [] && MatchesZip(Last(q)) && IsName(StripMarker(Last(q)))
    requires StripOf(p) == StripOf(q)
    ensures p == q
  {
    var sp := StripOf(p);
    assert Parent(p) == sp[..|sp| - 1] == Parent(q);
    var lp, lq := Last(p), Last(q);
    assert StripMarker(lp) == sp[|sp| - 1] == StripMarker(lq);
    assert lp == StripMarker(lp) + ZipMarker && lq == StripMarker(lq) + ZipMarker;
    ParentAndLast(p);
    ParentAndLast(q);
  }

  lemma StripOfInjective(S: set<Path>)
    requires forall p :: p in S ==> p != [] && MatchesZip(Last(p)) && IsName(StripMarker(Last(p)))
    ensures InjectiveOn(S, StripOf)
  {
    forall p, q | p in S && q in S && StripOf(p) == StripOf(q) ensures p == q {
      StripOfEq(p, q);
    }
  }

  /**
   * Where stripping the marker from the entries of `dir` sends `q`: the entry
   * of `dir` on the way to `q` loses its `.zip`, and what lies below it goes
   * along; anything not below `dir` stays put.
   */
  function StripBelow(dir: Path, q: Path): Path {
    if dir < q then StripOf(q[..|dir| + 1]) + q[|dir| + 1..] else q
  }

  function StripMap(dir: Path): Path -> Path {
    q => StripBelow(dir, q)
  }

  /** The entries at or below those entries of `dir` that `A` holds. */
  function Below(t: Tree, dir: Path, A: set<Path>): set<Path> {
    set q | q in t && dir < q && q[..|dir| + 1] in A
  }

  /** An entry of `dir` heads exactly its own subtree. */
  lemma BelowEntry(t: Tree, dir: Path, p: Path)
    requires p != [] && Parent(p) == dir
    ensures Below(t, dir, {p}) == Subtree(t, p)
    ensures forall q :: q in Subtree(t, p) ==> StripBelow(dir, q) == Rebase(q, p, StripOf(p))
  {
    ParentAndLast(p);
    forall q | q in t && p <= q ensures dir < q && q[..|dir| + 1] == p {
      assert q[..|dir|] == p[..|dir|];
    }
    forall q | q in t && dir < q && q[..|dir| + 1] == p ensures p <= q {
    }
  }

  /** Where a stripped entry below a marked entry `h` of `dir` lands. */
  lemma StripBelowHead(dir: Path, h: Path, q: Path)
    requires h != [] && Parent(h) == dir && dir < q && q[..|dir| + 1] == h
    ensures |StripOf(h)| == |h| && StripBelow(dir, q)[..|h|] == StripOf(h)
    ensures StripOf(h) <= StripBelow(dir, q) && StripBelow(dir, q)[|h|..] == q[|h|..]
  {
    ParentAndLast(h);
  }

  /** A stripped entry lands outside the tree. */
  lemma StripTargetFree(t: Tree, dir: Path, locked: set<Path>, q: Path)
    requires WF(t) && StripsFree(t, dir, locked) && q in Below(t, dir, StripSet(t, dir))
    ensures StripBelow(dir, q) !in t
  {
    var h := q[..|dir| + 1];
    assert h in StripSet(t, dir);
    StripBelowHead(dir, h, q);
    assert StripOf(h) !in t;
    NothingBelow(t, StripOf(h));
    assert StripOf(h) == StripBelow(dir, q) || StripOf(h) < StripBelow(dir, q);
  }

  /** Different stripped entries land on different paths. */
  lemma StripTargetsApart(t: Tree, dir: Path, q1: Path, q2: Path)
    requires q1 in Below(t, dir, StripSet(t, dir)) && q2 in Below(t, dir, StripSet(t, dir))
    requires IsName(StripMarker(Last(q1[..|dir| + 1]))) && IsName(StripMarker(Last(q2[..|dir| + 1])))
    requires StripBelow(dir, q1) == StripBelow(dir, q2)
    ensures q1 == q2
  {
    var k := |dir|;
    var h1, h2 := q1[..k + 1], q2[..k + 1];
    StripBelowHead(dir, h1, q1);
    StripBelowHead(dir, h2, q2);
    StripOfEq(h1, h2);
    assert q1 == h1 + q1[k + 1..] && q2 == h2 + q2[k + 1..];
  }

  /**
   * When every marked entry of `dir` may be renamed, the strip sends different
   * entries to different paths, none of which the tree already holds.
   */
  lemma StripTargets(t: Tree, dir: Path, locked: set<Path>)
    requires WF(t) && StripsFree(t, dir, locked)
    ensures InjectiveOn(Below(t, dir, StripSet(t, dir)), StripMap(dir))
    ensures FreeTargets(t, Below(t, dir, StripSet(t, dir)), StripMap(dir))
  {
    var B, f := Below(t, dir, StripSet(t, dir)), StripMap(dir);
    forall q | q in B ensures f(q) !in t {
      StripTargetFree(t, dir, locked, q);
    }
    forall q1, q2 | q1 in B && q2 in B && f(q1) == f(q2) ensures q1 == q2 {
      assert q1[..|dir| + 1] in StripSet(t, dir) && q2[..|dir| + 1] in StripSet(t, dir);
      StripTargetsApart(t, dir, q1, q2);
    }
  }

  /** An entry stripped under another marked entry lands neither below `p` nor below where `p` goes. */
  lemma StripAvoids(t: Tree, dir: Path, locked: set<Path>, p: Path, x: Path)
    requires WF(t) && StripsFree(t, dir, locked)
    requires p in StripSet(t, dir) && x in Below(t, dir, StripSet(t, dir)) && x[..|dir| + 1] != p
    ensures !(p <= StripBelow(dir, x)) && !(StripOf(p) <= StripBelow(dir, x))
  {
    var k := |dir|;
    var h, fx := x[..k + 1], StripBelow(dir, x);
    assert h in StripSet(t, dir);
    StripBelowHead(dir, h, x);
    ParentAndLast(p);
    assert |p| == k + 1 == |StripOf(p)|;
    if StripOf(p) <= fx {
      assert StripOf(p) == fx[..k + 1] == StripOf(h);
      StripOfEq(p, h);
    }
  }

  /** Part way through the strip, moving the next marked entry `p` is one more subtree relocation. */
  lemma StripMovable(t: Tree, dir: Path, D: set<Path>, p: Path, locked: set<Path>)
    requires WF(t) && StripsFree(t, dir, locked)
    requires D <= StripSet(t, dir) && p in StripSet(t, dir) && p !in D
    ensures Below(t, dir, D + {p}) == Below(t, dir, D) + Subtree(t, p)
    ensures SubtreeMovable(t, Below(t, dir, D), StripMap(dir), p, StripOf(p))
  {
    var T, f := StripSet(t, dir), StripMap(dir);
    var S, A := Below(t, dir, D), Subtree(t, p);
    BelowEntry(t, dir, p);
    StripTargets(t, dir, locked);
    assert Below(t, dir, D + {p}) == S + A;
    assert S + A <= Below(t, dir, T);
    FreeTarget(t, StripOf(p));
    forall x | x in S ensures !(p <= f(x)) && !(StripOf(p) <= f(x)) {
      StripAvoids(t, dir, locked, p, x);
    }
  }

  /** Stripping a marked entry renames it in place: the rename's source is `p` and its target `StripOf(p)`. */
  lemma StripRenames(t: Tree, p: Path, locked: set<Path>)
    requires p != [] && MatchesZip(Last(p)) && IsName(StripMarker(Last(p)))
    ensures StripStep(t, p, locked) == Rename(t, Parent(p), Last(p), StripMarker(Last(p)), locked)
    ensures Parent(p) + [Last(p)] == p && Parent(p) + [StripMarker(Last(p))] == StripOf(p)
  {
    ParentAndLast(p);
  }

  /** A marked entry still in place is where the strip map sends its own head. */
  lemma StripOfItself(t: Tree, dir: Path, D: set<Path>, p: Path)
    requires p != [] && Parent(p) == dir && p in t && p !in D
    ensures p !in Below(t, dir, D) && StripBelow(dir, p) == StripOf(p)
  {
    ParentAndLast(p);
    assert p[..|dir| + 1] == p && p[|dir| + 1..] == [];
  }

  /** Stripping a marked file, part way through, relocates that one file. */
  lemma StripFileStep(t: Tree, dir: Path, D: set<Path>, p: Path, locked: set<Path>)
    requires WF(t) && StripsFree(t, dir, locked)
    requires D <= StripSet(t, dir) && p in StripSet(t, dir) && p !in D && t[p].File?
    ensures InjectiveOn(Below(t, dir, D), StripMap(dir)) && InjectiveOn(Below(t, dir, D + {p}), StripMap(dir))
    ensures StripStep(Relocated(t, Below(t, dir, D), StripMap(dir)), p, locked)
         == Ok(Relocated(t, Below(t, dir, D + {p}), StripMap(dir)))
  {
    var S, f := Below(t, dir, D), StripMap(dir);
    StripMovable(t, dir, D, p, locked);
    StripOfItself(t, dir, D, p);
    NothingBelow(t, p);
    assert Subtree(t, p) == {p};
    RelocatedAroundSubtree(t, S, f, p, StripOf(p));
    RelocatedStep(t, S, f, p);
    StripRenames(Relocated(t, S, f), p, locked);
  }

  /** Stripping a marked folder, part way through, relocates the folder and all it holds. */
  lemma StripDirStep(t: Tree, dir: Path, D: set<Path>, p: Path, locked: set<Path>)
    requires WF(t) && StripsFree(t, dir, locked)
    requires D <= StripSet(t, dir) && p in StripSet(t, dir) && p !in D && t[p].Dir?
    ensures InjectiveOn(Below(t, dir, D), StripMap(dir)) && InjectiveOn(Below(t, dir, D + {p}), StripMap(dir))
    ensures StripStep(Relocated(t, Below(t, dir, D), StripMap(dir)), p, locked)
         == Ok(Relocated(t, Below(t, dir, D + {p}), StripMap(dir)))
  {
    var S, f := Below(t, dir, D), StripMap(dir);
    StripMovable(t, dir, D, p, locked);
    StripOfItself(t, dir, D, p);
    RelocatedAroundSubtree(t, S, f, p, StripOf(p));
    RelocatedMoveTree(t, S, f, p, StripOf(p));
    var c := Relocated(t, S, f);
    RelocatedEntries(t, S, f);
    StripRenames(c, p, locked);
    assert StripOf(p) !in c;
    assert |StripMarker(Last(p))| < |Last(p)|;
    RenameDirToFree(c, dir, Last(p), StripMarker(Last(p)), locked);
  }

  /** One step of the strip loop, part way through: a marked entry moves with its subtree, any other stays. */
  lemma StripStepFrom(t: Tree, dir: Path, D: set<Path>, p: Path, locked: set<Path>)
    requires WF(t) && StripsFree(t, dir, locked)
    requires D <= StripSet(t, dir) && p in ListDir(t, dir) && p !in D
    ensures InjectiveOn(Below(t, dir, D), StripMap(dir))
    ensures InjectiveOn(Below(t, dir, D + {p} * StripSet(t, dir)), StripMap(dir))
    ensures StripStep(Relocated(t, Below(t, dir, D), StripMap(dir)), p, locked)
         == Ok(Relocated(t, Below(t, dir, D + {p} * StripSet(t, dir)), StripMap(dir)))
  {
    var T := StripSet(t, dir);
    StripTargets(t, dir, locked);
    assert Below(t, dir, D) <= Below(t, dir, T);
    if p !in T {
      assert D + {p} * T == D;
    } else if t[p].File? {
      assert D + {p} * T == D + {p};
      StripFileStep(t, dir, D, p, locked);
    } else {
      assert D + {p} * T == D + {p};
      StripDirStep(t, dir, D, p, locked);
    }
  }

  lemma {:induction false} StripPassFrom(t: Tree, dir: Path, done: set<Path>, rest: seq<Path>, locked: set<Path>)
    requires WF(t) && StripsFree(t, dir, locked)
    requires forall i :: 0 <= i < |rest| ==> rest[i] in ListDir(t, dir) && rest[i] !in done
    requires forall i, j :: 0 <= i < j < |rest| ==> rest[i] != rest[j]
    requires forall p :: p in StripSet(t, dir) ==> p in done || p in rest
    ensures InjectiveOn(Below(t, dir, StripSet(t, dir) * done), StripMap(dir))
    ensures InjectiveOn(Below(t, dir, StripSet(t, dir)), StripMap(dir))
    ensures StripPass(Relocated(t, Below(t, dir, StripSet(t, dir) * done), StripMap(dir)), rest, locked)
         == Done(Relocated(t, Below(t, dir, StripSet(t, dir)), StripMap(dir)))
    decreases |rest|
  {
    var T := StripSet(t, dir);
    StripTargets(t, dir, locked);
    if rest == [] {
      assert T * done == T;
    } else {
      var p := rest[0];
      StripStepFrom(t, dir, T * done, p, locked);
      assert T * (done + {p}) == T * done + {p} * T;
      StripPassFrom(t, dir, done + {p}, rest[1..], locked);
    }
  }

  /**
   * When every marked entry of the folder is unlocked and its cut name is
   * valid and not taken, the strip renames exactly those entries, files and
   * folders alike, each to its name without `.zip` and each folder with all
   * it holds, whatever order the listing came in.
   */
  lemma StripPassRenames(t: Tree, dir: Path, order: seq<Path>, locked: set<Path>)
    requires WF(t)
    requires Enumerates(order, ListDir(t, dir))
    requires StripsFree(t, dir, locked)
    ensures InjectiveOn(Below(t, dir, StripSet(t, dir)), StripMap(dir))
    ensures StripPass(t, order, locked) == Done(Relocated(t, Below(t, dir, StripSet(t, dir)), StripMap(dir)))
  {
    var T := StripSet(t, dir);
    var none: set<Path> := {};
    assert T * none == none && Below(t, dir, none) == {};
    RelocatedNone(t, StripMap(dir));
    assert forall i :: 0 <= i < |order| ==> order[i] in order;
    StripPassFrom(t, dir, none, order, locked);
  }

  /** A staging folder holding both a file `x` and a file `x.zip`. */
  function ShadowedName(): Tree {
    map[[] := Dir, ["x"] := File(1, Blob([])), ["x.zip"] := File(2, Blob([]))]
  }

  /** The shadowed folder lists exactly its two files. */
  lemma ShadowedListing()
    ensures ListDir(ShadowedName(), []) == {["x"], ["x.zip"]}
  {
    var t := ShadowedName();
    assert ["x"] in ListDir(t, []) && ["x.zip"] in ListDir(t, []);
  }

  /** Stripping `x.zip` moves its file over `x`. */
  lemma ShadowedStripMarked()
    ensures StripStep(ShadowedName(), ["x.zip"], {}) == Ok(map[[] := Dir, ["x"] := File(2, Blob([]))])
  {
    var t := ShadowedName();
    var x: Path, xz: Path := ["x"], ["x.zip"];
    assert Last(xz) == "x" + ZipMarker;
    assert MatchesZip(Last(xz)) && StripMarker(Last(xz)) == "x";
    assert Parent(xz) + [Last(xz)] == xz && Parent(xz) + [StripMarker(Last(xz))] == x;
    assert !IsDir(t, x);
    assert (t - {xz})[x := t[xz]] == map[[] := Dir, ["x"] := File(2, Blob([]))];
  }

  /** A name without the marker is left alone. */
  lemma ShadowedStripPlain(t: Tree)
    ensures StripStep(t, ["x"], {}) == Ok(t)
  {
    assert !EndsWith(Last(["x"]), ZipMarker);
  }

  /** Whatever the listing order, stripping `x.zip` silently replaces the file `x`. */
  lemma StripOverwritesSibling(order: seq<Path>)
    requires Enumerates(order, ListDir(ShadowedName(), []))
    ensures StripPass(ShadowedName(), order, {}) == Done(map[[] := Dir, ["x"] := File(2, Blob([]))])
  {
    ShadowedListing();
    var x: Path, xz: Path := ["x"], ["x.zip"];
    ListingOfTwo(order, x, xz);
    if order == [x, xz] {
      StripPlainFirst();
    } else {
      StripMarkedFirst();
    }
  }

  /** A listing of two entries is one of their two orders. */
  lemma ListingOfTwo(order: seq<Path>, a: Path, b: Path)
    requires a != b && Enumerates(order, {a, b})
    ensures order == [a, b] || order == [b, a]
  {
    assert |order| == 2 && order[0] in order && order[1] in order;
  }

  lemma StripPlainFirst()
    ensures StripPass(ShadowedName(), [["x"], ["x.zip"]], {}) == Done(map[[] := Dir, ["x"] := File(2, Blob([]))])
  {
    var t := ShadowedName();
    var u := map[[] := Dir, ["x"] := File(2, Blob([]))];
    ShadowedStripPlain(t);
    ShadowedStripMarked();
    var order: seq<Path> := [["x"], ["x.zip"]];
    assert order[1..] == [["x.zip"]];
    assert StripPass(t, [["x.zip"]], {}) == Done(u);
  }

  lemma StripMarkedFirst()
    ensures StripPass(ShadowedName(), [["x.zip"], ["x"]], {}) == Done(map[[] := Dir, ["x"] := File(2, Blob([]))])
  {
    var u := map[[] := Dir, ["x"] := File(2, Blob([]))];
    ShadowedStripMarked();
    ShadowedStripPlain(u);
    var order: seq<Path> := [["x.zip"], ["x"]];
    assert order[1..] == [["x"]];
    assert StripPass(u, [["x"]], {}) == Done(u);
  }

  // ----- the compress loop of `main` -----

  /** The tree together with the `total_files` and `total_size` counters. */
  datatype Progress = Progress(tree: Tree, files: nat, bytes: nat)

  /** The loop either runs to the end or is ended by a removal that raises. */
  datatype PackOutcome = Finished(progress: Progress) | Stopped(progress: Progress, error: OsError)

  /**
   * One child of the main folder: a skipped name or a non-directory is left
   * alone; otherwise `<child>.zip` is written (a failed write is logged and
   * ignored), the counters grow by what was written, and once `testzip`
   * passes the child is removed; a removal that raises ends the run.
   */
  ghost function CompressStep(p: Progress, c: Path, locked: set<Path>, zw: ZipWriter): PackOutcome {
    if IsSkipped(BaseName(c)) || !IsDir(p.tree, c) then Finished(p)
    else match WriteFile(p.tree, ZipPath(c), ZipNode(p.tree, c, zw))
      case Err(_) => Finished(p)
      case Ok(t1) => RemoveIfArchived(Zipped(p, c, t1), c, locked)
  }

  /** The archive `t1` of the child `c` written, and the child's files counted. */
  ghost function Zipped(p: Progress, c: Path, t1: Tree): Progress {
    var zipped := ZippedFiles(p.tree, c);
    Progress(t1, p.files + |zipped|, p.bytes + SumSizes(p.tree, zipped))
  }

  /** `verify_zip` and, when it passes, `rmtree`, whose failure ends the loop. */
  ghost function RemoveIfArchived(q: Progress, c: Path, locked: set<Path>): PackOutcome {
    if !ArchiveIntact(q.tree, ZipPath(c)) then Finished(q)
    else match Rmtree(q.tree, c, locked)
      case Err(e) => Stopped(q, e)
      case Ok(t2) => Finished(q.(tree := t2))
  }

  /** The loop over a listing of the main folder taken before it starts. */
  ghost function CompressPass(p: Progress, order: seq<Path>, locked: set<Path>, zw: ZipWriter): PackOutcome
    decreases |order|
  {
    if order == [] then Finished(p)
    else match CompressStep(p, order[0], locked, zw)
      case Stopped(q, e) => Stopped(q, e)
      case Finished(q) => CompressPass(q, order[1..], locked, zw)
  }

  lemma ZipPathIsSibling(c: Path)
    requires c != []
    ensures ZipPath(c) != [] && Parent(ZipPath(c)) == Parent(c) && |ZipPath(c)| == |c|
    ensures Last(ZipPath(c)) == Last(c) + ZipMarker && MatchesZip(Last(ZipPath(c)))
    ensures !(c <= ZipPath(c))
  {
    var z := ZipPath(c);
    assert z[..|z| - 1] == Parent(c);
  }

  /**
   * A child is removed only after its archive was written and passed
   * `testzip`, and that archive unpacks back into the child's files; the
   * child goes exactly when the write, the check and the removal all succeed.
   */
  lemma ArchivedBeforeRemoved(p: Progress, c: Path, locked: set<Path>, zw: ZipWriter)
    requires c != [] && IsDir(p.tree, c) && !IsSkipped(Last(c))
    ensures var r := CompressStep(p, c, locked, zw);
            var w := WriteFile(p.tree, ZipPath(c), ZipNode(p.tree, c, zw));
            c !in r.progress.tree <==> w.Ok? && ArchiveIntact(w.value, ZipPath(c)) && Rmtree(w.value, c, locked).Ok?
    ensures var r := CompressStep(p, c, locked, zw);
            c !in r.progress.tree ==>
              r.Finished? && ArchiveIntact(r.progress.tree, ZipPath(c)) &&
              FileTargets(c, r.progress.tree[ZipPath(c)].content.members) == map q | q in ZippedFiles(p.tree, c) :: p.tree[q]
  {
    ZipPathIsSibling(c);
    StepRemovesChild(p, c, locked, zw);
    var w := WriteFile(p.tree, ZipPath(c), ZipNode(p.tree, c, zw));
    if w.Ok? && ArchiveIntact(w.value, ZipPath(c)) && Rmtree(w.value, c, locked).Ok? {
      WrittenStep(p, c, locked, zw);
      var n := ZipNode(p.tree, c, zw);
      var t2 := Rmtree(w.value, c, locked).value;
      assert ZipPath(c) in t2 && t2[ZipPath(c)] == n by {
        assert !(c <= ZipPath(c));
      }
      assert CompressStep(p, c, locked, zw).progress.tree == t2;
      assert n.content.members == FolderArchive(p.tree, c);
      ZipRoundTrip(p.tree, c);
    }
  }

  /** The child leaves the tree exactly when its archive is written and checks out, and its removal succeeds. */
  lemma StepRemovesChild(p: Progress, c: Path, locked: set<Path>, zw: ZipWriter)
    requires c != [] && IsDir(p.tree, c) && !IsSkipped(Last(c)) && !(c <= ZipPath(c))
    ensures var r := CompressStep(p, c, locked, zw);
            var w := WriteFile(p.tree, ZipPath(c), ZipNode(p.tree, c, zw));
            c !in r.progress.tree <==> w.Ok? && ArchiveIntact(w.value, ZipPath(c)) && Rmtree(w.value, c, locked).Ok?
  {
    var w := WriteFile(p.tree, ZipPath(c), ZipNode(p.tree, c, zw));
    if w.Ok? {
      WrittenStep(p, c, locked, zw);
      if ArchiveIntact(w.value, ZipPath(c)) {
        IntactStepRemoves(p, c, locked, zw);
      } else {
        CorruptArchiveKeepsChild(p, c, locked, zw);
      }
    }
  }

  /** With an archive that checks out, the child goes exactly when `rmtree` succeeds. */
  lemma IntactStepRemoves(p: Progress, c: Path, locked: set<Path>, zw: ZipWriter)
    requires c != [] && IsDir(p.tree, c) && !IsSkipped(Last(c))
    requires WriteFile(p.tree, ZipPath(c), ZipNode(p.tree, c, zw)).Ok?
    requires ArchiveIntact(WriteFile(p.tree, ZipPath(c), ZipNode(p.tree, c, zw)).value, ZipPath(c))
    ensures var t1 := WriteFile(p.tree, ZipPath(c), ZipNode(p.tree, c, zw)).value;
            c !in CompressStep(p, c, locked, zw).progress.tree <==> Rmtree(t1, c, locked).Ok?
  {
    var t1 := WriteFile(p.tree, ZipPath(c), ZipNode(p.tree, c, zw)).value;
    WrittenStep(p, c, locked, zw);
    ZipPathIsSibling(c);
    assert c in t1;
  }

  /**
   * An archive that fails `testzip` keeps its child: the archive stays beside
   * it, the counters still grow, and the loop goes on.
   */
  lemma CorruptArchiveKeepsChild(p: Progress, c: Path, locked: set<Path>, zw: ZipWriter)
    requires c != [] && IsDir(p.tree, c) && !IsSkipped(Last(c))
    requires WriteFile(p.tree, ZipPath(c), ZipNode(p.tree, c, zw)).Ok?
    requires !zw.intact(Stored, FolderArchive(p.tree, c))
    ensures var r := CompressStep(p, c, locked, zw);
            && r.Finished? && c in r.progress.tree && r.progress.tree[c] == p.tree[c]
            && r.progress.tree[ZipPath(c)] == ZipNode(p.tree, c, zw)
            && r.progress.files == p.files + |ZippedFiles(p.tree, c)|
  {
    ZipPathIsSibling(c);
    WrittenStep(p, c, locked, zw);
  }

  lemma SkippedIsUnmarked(name: string)
    requires IsSkipped(name)
    ensures !MatchesZip(name)
  {
  }

  /**
   * Once the archive of a child is written, it passes `testzip` exactly when
   * the write was sound, and the step turns on that check and the removal.
   */
  lemma WrittenStep(p: Progress, c: Path, locked: set<Path>, zw: ZipWriter)
    requires !IsSkipped(BaseName(c)) && IsDir(p.tree, c)
    requires WriteFile(p.tree, ZipPath(c), ZipNode(p.tree, c, zw)).Ok?
    ensures var t1 := WriteFile(p.tree, ZipPath(c), ZipNode(p.tree, c, zw)).value;
            && t1[ZipPath(c)] == ZipNode(p.tree, c, zw)
            && (ArchiveIntact(t1, ZipPath(c)) <==> zw.intact(Stored, FolderArchive(p.tree, c)))
            && CompressStep(p, c, locked, zw) == RemoveIfArchived(Zipped(p, c, t1), c, locked)
  {
    var n := ZipNode(p.tree, c, zw);
    assert WriteFile(p.tree, ZipPath(c), n).value[ZipPath(c)] == n;
  }

  /** The outcome of zipping a child and removing it once verified is the step's outcome. */
  lemma ArchivedStep(p: Progress, c: Path, locked: set<Path>, zw: ZipWriter, after: Progress, stopped: bool)
    requires !IsSkipped(BaseName(c)) && IsDir(p.tree, c)
    requires var w := WriteFile(p.tree, ZipPath(c), ZipNode(p.tree, c, zw));
             var zipped := ZippedFiles(p.tree, c);
             if w.Err? then
               !stopped && after == p
             else
               && after.files == p.files + |zipped|
               && after.bytes == p.bytes + SumSizes(p.tree, zipped)
               && var intact := ArchiveIntact(w.value, ZipPath(c));
                  && stopped == (intact && Rmtree(w.value, c, locked).Err?)
                  && after.tree == (if intact && !stopped then Rmtree(w.value, c, locked).value else w.value)
    ensures stopped == CompressStep(p, c, locked, zw).Stopped?
    ensures after == CompressStep(p, c, locked, zw).progress
  {
    if WriteFile(p.tree, ZipPath(c), ZipNode(p.tree, c, zw)).Ok? {
      WrittenStep(p, c, locked, zw);
    }
  }

  /** A step leaves the tree as it was, writes the child's archive, or writes it and removes the child. */
  lemma CompressStepShape(p: Progress, d: Path, locked: set<Path>, zw: ZipWriter)
    ensures var r := CompressStep(p, d, locked, zw).progress.tree;
            var t1 := p.tree[ZipPath(d) := ZipNode(p.tree, d, zw)];
            r == p.tree || r == t1 || r == t1 - Subtree(t1, d)
  {
    if !IsSkipped(BaseName(d)) && IsDir(p.tree, d) {
      var n := ZipNode(p.tree, d, zw);
      var w := WriteFile(p.tree, ZipPath(d), n);
      if w.Ok? {
        var t1 := p.tree[ZipPath(d) := n];
        assert w.value == t1;
        var rm := Rmtree(t1, d, locked);
        assert rm.Ok? ==> rm.value == t1 - Subtree(t1, d);
      }
    }
  }

  /** A step on a sibling `d` leaves a skipped child `c` and everything below it as it was. */
  lemma StepSparesSkipped(p: Progress, d: Path, c: Path, locked: set<Path>, zw: ZipWriter)
    requires c != [] && d != [] && Parent(d) == Parent(c) && IsSkipped(Last(c))
    ensures forall q :: q in p.tree && c <= q ==>
      q in CompressStep(p, d, locked, zw).progress.tree && CompressStep(p, d, locked, zw).progress.tree[q] == p.tree[q]
  {
    var r := CompressStep(p, d, locked, zw).progress.tree;
    if d == c {
      assert r == p.tree;
      return;
    }
    ZipPathIsSibling(d);
    SkippedIsUnmarked(Last(c));
    var z := ZipPath(d);
    assert |d| == |c| == |z|;
    assert Last(z) != Last(c);
    var t1 := p.tree[z := ZipNode(p.tree, d, zw)];
    CompressStepShape(p, d, locked, zw);
    forall q | q in p.tree && c <= q
      ensures q in r && r[q] == p.tree[q]
    {
      assert q != z;
      assert q in t1 && t1[q] == p.tree[q] && q !in Subtree(t1, d);
    }
  }

  /**
   * The loop never touches a child named `wallpaper` or `preview`, nor
   * anything below it.
   */
  lemma {:induction false} CompressSparesSkipped(p: Progress, order: seq<Path>, c: Path, locked: set<Path>, zw: ZipWriter)
    requires c != [] && IsSkipped(Last(c))
    requires forall i :: 0 <= i < |order| ==> order[i] != [] && Parent(order[i]) == Parent(c)
    ensures forall q :: q in p.tree && c <= q ==>
      q in CompressPass(p, order, locked, zw).progress.tree && CompressPass(p, order, locked, zw).progress.tree[q] == p.tree[q]
    decreases |order|
  {
    if order != [] {
      StepSparesSkipped(p, order[0], c, locked, zw);
      match CompressStep(p, order[0], locked, zw)
      case Stopped(_, _) =>
      case Finished(q) =>
        CompressSparesSkipped(q, order[1..], c, locked, zw);
    }
  }

  /** `compressed_size / total_size * 100` as `show_completion` reports it, and 0 for an empty input. */
  function CompressionRatio(compressed: nat, total: nat): (r: real)
    ensures total == 0 ==> r == 0.0
    ensures total > 0 ==> r * total as real == compressed as real * 100.0
  {
    if total > 0 then (compressed as real / total as real) * 100.0 else 0.0
  }

  /** The ratio is below 100% exactly when the container is smaller than the files it packs. */
  lemma CompressionBelowFull(compressed: nat, total: nat)
    requires total > 0
    ensures CompressionRatio(compressed, total) < 100.0 <==> compressed < total
  {
    var r, c, t := CompressionRatio(compressed, total), compressed as real, total as real;
    assert (100.0 - r) * t == (t - c) * 100.0;
    ScaledSign(100.0 - r, t);
  }

  // ----- the packer -----

  /**
   * The packer and its `stats` dictionary. The size `getsize` reports for a
   * written archive, and whether `testzip` then passes, depend on the
   * compressor and the disk, which are not modelled; `writer` fixes both as
   * functions of the compression method and the members.
   */
  class MTZCompressor {
    const writer: ZipWriter
    var startTime: Option<int>
    var totalFiles: nat
    var totalSize: nat
    var compressedSize: nat

    constructor(writer: ZipWriter)
      ensures this.writer == writer
      ensures startTime == None && totalFiles == 0 && totalSize == 0 && compressedSize == 0
    {
      this.writer := writer;
      startTime := None;
      totalFiles := 0;
      totalSize := 0;
      compressedSize := 0;
    }

    /** Accepts a path that exists and is a directory. */
    method ValidateFolder(fs: FileSystem, p: Path) returns (ok: bool)
      ensures ok <==> IsDir(fs.tree, p)
    {
      if p !in fs.tree {
        return false;
      }
      if !fs.tree[p].Dir? {
        return false;
      }
      return true;
    }

    /** The size of a file, or the total size of the files below anything else (0 when nothing is there). */
    method CalculateSize(fs: FileSystem, p: Path) returns (total: nat)
      requires fs.Valid()
      ensures total == if IsFile(fs.tree, p) then fs.tree[p].size else SizeUnder(fs.tree, p)
    {
      if IsFile(fs.tree, p) {
        return fs.tree[p].size;
      }
      total := WalkSize(fs, p);
    }

    /**
     * Writes `<folder>.zip` (stored, not compressed) and, when it could be
     * written, adds the files it holds to `total_files` and their sizes to
     * `total_size`.
     */
    method ZipFolder(fs: FileSystem, folder: Path) returns (zip: Option<Path>)
      requires fs.Valid()
      modifies this, fs
      ensures fs.Valid()
      ensures var w := WriteFile(old(fs.tree), ZipPath(folder), ZipNode(old(fs.tree), folder, writer));
              && zip == (if w.Ok? then Some(ZipPath(folder)) else None)
              && fs.tree == (if w.Ok? then w.value else old(fs.tree))
              && totalFiles == old(totalFiles) + (if w.Ok? then |ZippedFiles(old(fs.tree), folder)| else 0)
              && totalSize == old(totalSize) + (if w.Ok? then SumSizes(old(fs.tree), ZippedFiles(old(fs.tree), folder)) else 0)
      ensures startTime == old(startTime) && compressedSize == old(compressedSize)
    {
      // The size is only shown beside the spinner.
      var shown := CalculateSize(fs, folder);
      var members, count, bytes := WalkForZip(fs, folder);
      var written := fs.WriteFile(ZipPath(folder), WrittenArchive(writer, Stored, members));
      if written {
        totalFiles := totalFiles + count;
        totalSize := totalSize + bytes;
        zip := Some(ZipPath(folder));
      } else {
        zip := None;
      }
    }

    /** Opens `p` as an archive and runs `testzip`: a missing path, a directory, a non-archive or a bad checksum all fail. */
    method VerifyZip(fs: FileSystem, p: Path) returns (ok: bool)
      ensures ok <==> ArchiveIntact(fs.tree, p)
    {
      if p !in fs.tree || fs.tree[p].Dir? {
        return false;
      }
      match fs.tree[p].content
      case Blob(_) =>
        return false;
      case Archive(_, intact) =>
        return intact;
    }

    /** Renames every `*.zip` entry of `folder` to its name without `.zip`; the first failure ends the loop and is logged. */
    method RemoveZipExtension(fs: FileSystem, folder: Path) returns (ghost order: seq<Path>)
      requires fs.Valid()
      modifies fs
      ensures fs.Valid()
      ensures Enumerates(order, ListDir(old(fs.tree), folder))
      ensures fs.tree == StripPass(old(fs.tree), order, fs.locked).tree
    {
      var entries := Enumerate(ListDir(fs.tree, folder));
      order := entries;
      ghost var t0 := fs.tree;
      var ok := true;
      var i := 0;
      while i < |entries| && ok
        invariant 0 <= i <= |entries| && fs.Valid()
        invariant ok ==> StripPass(t0, entries, fs.locked) == StripPass(fs.tree, entries[i..], fs.locked)
        invariant !ok ==> StripPass(t0, entries, fs.locked).tree == fs.tree
      {
        assert entries[i..][1..] == entries[i + 1..];
        ok := StripOne(fs, entries[i]);
        i := i + 1;
      }
    }

    /** One iteration of the renaming loop: drop the `.zip` of a marked name. */
    method StripOne(fs: FileSystem, p: Path) returns (ok: bool)
      requires fs.Valid()
      modifies fs
      ensures fs.Valid()
      ensures ok == StripStep(old(fs.tree), p, fs.locked).Ok?
      ensures fs.tree == if ok then StripStep(old(fs.tree), p, fs.locked).value else old(fs.tree)
    {
      ok := true;
      if p != [] && MatchesZip(Last(p)) {
        var cut := StripMarker(Last(p));
        if IsName(cut) {
          ok := fs.Rename(Parent(p), Last(p), cut);
        } else {
          ok := false;
        }
      }
    }

    /**
     * Writes `<folder>.mtz` (deflated) holding every file below `folder`,
     * records its size, then removes `folder`.
     */
    method CreateMtz(fs: FileSystem, folder: Path) returns (ok: bool)
      requires fs.Valid()
      modifies this, fs
      ensures fs.Valid()
      ensures ok == SealStep(old(fs.tree), folder, fs.locked, writer).Done?
      ensures fs.tree == SealStep(old(fs.tree), folder, fs.locked, writer).tree
      ensures compressedSize ==
        if WriteFile(old(fs.tree), SealPath(folder), SealNode(old(fs.tree), folder, writer)).Ok?
        then writer.size(Deflated, SealArchive(old(fs.tree), folder)) else old(compressedSize)
      ensures startTime == old(startTime) && totalFiles == old(totalFiles) && totalSize == old(totalSize)
    {
      var members := WalkForSeal(fs, folder);
      var written := fs.WriteFile(SealPath(folder), WrittenArchive(writer, Deflated, members));
      if !written {
        return false;
      }
      compressedSize := writer.size(Deflated, members);
      ok := fs.Rmtree(folder);
    }

    /** The body of the compress loop for one listed child `c` of the main folder. */
    method CompressChild(fs: FileSystem, c: Path) returns (stopped: bool)
      requires fs.Valid()
      modifies this, fs
      ensures fs.Valid()
      ensures var r := CompressStep(Progress(old(fs.tree), old(totalFiles), old(totalSize)), c, fs.locked, writer);
              stopped == r.Stopped? && Progress(fs.tree, totalFiles, totalSize) == r.progress
      ensures startTime == old(startTime) && compressedSize == old(compressedSize)
    {
      ghost var p := Progress(fs.tree, totalFiles, totalSize);
      if IsSkipped(BaseName(c)) || !IsDir(fs.tree, c) {
        stopped := false;
        assert CompressStep(p, c, fs.locked, writer) == Finished(p);
      } else {
        stopped := ArchiveChild(fs, c);
        ArchivedStep(p, c, fs.locked, writer, Progress(fs.tree, totalFiles, totalSize), stopped);
      }
    }

    /** A child directory that is not skipped: zip it, and once the archive checks out, remove it. */
    method ArchiveChild(fs: FileSystem, c: Path) returns (stopped: bool)
      requires fs.Valid()
      modifies this, fs
      ensures fs.Valid()
      ensures var w := WriteFile(old(fs.tree), ZipPath(c), ZipNode(old(fs.tree), c, writer));
              var zipped := ZippedFiles(old(fs.tree), c);
              if w.Err? then
                !stopped && fs.tree == old(fs.tree) && totalFiles == old(totalFiles) && totalSize == old(totalSize)
              else
                && totalFiles == old(totalFiles) + |zipped|
                && totalSize == old(totalSize) + SumSizes(old(fs.tree), zipped)
                && var intact := ArchiveIntact(w.value, ZipPath(c));
                   && stopped == (intact && Rmtree(w.value, c, fs.locked).Err?)
                   && fs.tree == (if intact && !stopped then Rmtree(w.value, c, fs.locked).value else w.value)
      ensures startTime == old(startTime) && compressedSize == old(compressedSize)
    {
      var zip := ZipFolder(fs, c);
      if zip.None? {
        return false;
      }
      stopped := RemoveIfIntact(fs, c, zip.value);
    }

    /** `verify_zip` on the archive just written and, when it passes, `rmtree` of the child. */
    method RemoveIfIntact(fs: FileSystem, c: Path, zip: Path) returns (stopped: bool)
      requires fs.Valid()
      modifies fs
      ensures fs.Valid()
      ensures stopped == (ArchiveIntact(old(fs.tree), zip) && Rmtree(old(fs.tree), c, fs.locked).Err?)
      ensures fs.tree == if ArchiveIntact(old(fs.tree), zip) && !stopped then Rmtree(old(fs.tree), c, fs.locked).value else old(fs.tree)
    {
      var intact := VerifyZip(fs, zip);
      stopped := false;
      if intact {
        var removed := fs.Rmtree(c);
        stopped := !removed;
      }
    }

    /**
     * `main` once the folder path was read: validate it, compress each of
     * its children over a listing taken first, strip the `.zip` names, and
     * seal the folder into `<main folder>.mtz`. `sealed` is false exactly
     * when the program exits with status 1.
     */
    method Pack(fs: FileSystem, mainFolder: Path, now: int) returns (sealed: bool, ghost children: seq<Path>, ghost names: seq<Path>)
      requires fs.Valid()
      modifies this, fs
      ensures fs.Valid()
      ensures !IsDir(old(fs.tree), mainFolder) ==>
        !sealed && fs.tree == old(fs.tree) && startTime == old(startTime) &&
        totalFiles == old(totalFiles) && totalSize == old(totalSize) && compressedSize == old(compressedSize)
      ensures IsDir(old(fs.tree), mainFolder) ==>
        startTime == Some(now) && Enumerates(children, ListDir(old(fs.tree), mainFolder))
      ensures IsDir(old(fs.tree), mainFolder) ==>
        var c := CompressPass(Progress(old(fs.tree), old(totalFiles), old(totalSize)), children, fs.locked, writer);
        && totalFiles == c.progress.files && totalSize == c.progress.bytes
        && (c.Stopped? ==> !sealed && fs.tree == c.progress.tree && compressedSize == old(compressedSize))
        && (c.Finished? ==>
              var s := StripPass(c.progress.tree, names, fs.locked).tree;
              && Enumerates(names, ListDir(c.progress.tree, mainFolder))
              && sealed == SealStep(s, mainFolder, fs.locked, writer).Done?
              && fs.tree == SealStep(s, mainFolder, fs.locked, writer).tree
              && compressedSize ==
                   if WriteFile(s, SealPath(mainFolder), SealNode(s, mainFolder, writer)).Ok?
                   then writer.size(Deflated, SealArchive(s, mainFolder)) else old(compressedSize))
    {
      var valid := ValidateFolder(fs, mainFolder);
      if !valid {
        return false, [], [];
      }
      startTime := Some(now);
      var entries := Enumerate(ListDir(fs.tree, mainFolder));
      children := entries;
      ghost var p0 := Progress(fs.tree, totalFiles, totalSize);
      var stopped := false;
      var i := 0;
      while i < |entries| && !stopped
        invariant 0 <= i <= |entries| && fs.Valid()
        invariant !stopped ==>
          CompressPass(p0, entries, fs.locked, writer) == CompressPass(Progress(fs.tree, totalFiles, totalSize), entries[i..], fs.locked, writer)
        invariant stopped ==>
          CompressPass(p0, entries, fs.locked, writer).Stopped? &&
          CompressPass(p0, entries, fs.locked, writer).progress == Progress(fs.tree, totalFiles, totalSize)
        invariant startTime == Some(now) && compressedSize == old(compressedSize)
      {
        assert entries[i..][1..] == entries[i + 1..];
        stopped := CompressChild(fs, entries[i]);
        i := i + 1;
      }
      if stopped {
        return false, children, [];
      }
      names := RemoveZipExtension(fs, mainFolder);
      sealed := CreateMtz(fs, mainFolder);
    }
  }
}
