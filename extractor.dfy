/**
 * The unpack normaliser `MTZExtractor`: it checks the container path, picks
 * a fresh `./extracted/<stem>` folder, extracts the container into it, and
 * then runs one fixed pipeline over the tree it extracted: tag every file
 * whose suffix is not allow-listed with `.zip`, extract every `*.zip` file
 * into a sibling folder, prune empty folders, and add up the remaining sizes.
 */
module Extractor {
  import opened Names
  import opened FileTree
  import opened Os

  /** The extensions left untouched when no allow-list is given (compared case-sensitively). */
  const DefaultAllowed: set<string> := {
    ".java", ".kt", ".so", ".aar", ".jar", ".mp3", ".wav",
    ".mp4", ".3gp", ".txt", ".json", ".xml", ".html", ".css",
    ".js", ".ttf", ".otf", ".png", ".jpg", ".jpeg", ".gif",
    ".webp", ".pdf", ".gradle", ".properties", ".MF", ".SF",
    ".RSA"
  }

  const ContainerMarker: string := ".mtz"

  // ----- the output folder -----

  /** `./extracted`, resolved against the working directory. */
  function ExtractRoot(cwd: Path): Path {
    cwd + ["extracted"]
  }

  /** `Path(file_path).stem`: the stem of the final component, "" for the root. */
  function ContainerStem(p: Path): (s: string)
    ensures '/' !in s
  {
    if p == [] then "" else DropSuffix(Last(p)); Stem(Last(p))
  }

  /** Whether the first candidate `base/<stem>` is written with a `.` or `..` stem. */
  predicate DotStem(stem: string) {
    stem == "." || stem == ".."
  }

  /** Where the OS resolves the `k`-th folder tried: `base/<stem>`, then `base/<stem>_copy<k>`. */
  function Candidate(base: Path, stem: string, k: nat): Path
    requires '/' !in stem
  {
    if k == 0 then Resolve(base, stem) else CopyPath(base, stem, k)
  }

  function CopyPath(base: Path, stem: string, k: nat): Path
    requires '/' !in stem && 1 <= k
  {
    CopyNameIsName(stem, k);
    base + [CopyName(stem, k)]
  }

  /** The counter cannot outrun the tree: `n - 1` distinct copy folders exist only if the tree holds that many entries. */
  lemma {:induction false} CopiesFitInTree(t: Tree, base: Path, stem: string, n: nat)
    requires '/' !in stem
    requires forall j :: 1 <= j < n ==> CopyPath(base, stem, j) in t
    ensures n <= |t| + 1
    decreases n
  {
    if n > 1 {
      var c := CopyPath(base, stem, n - 1);
      OtherCopiesRemain(t, base, stem, n - 1);
      CopiesFitInTree(t - {c}, base, stem, n - 1);
      assert (t - {c}).Keys == t.Keys - {c};
    }
  }

  /** Taking out the `k`-th copy folder leaves the earlier ones. */
  lemma OtherCopiesRemain(t: Tree, base: Path, stem: string, k: nat)
    requires '/' !in stem && 1 <= k
    requires forall j :: 1 <= j < k ==> CopyPath(base, stem, j) in t
    ensures forall j :: 1 <= j < k ==> CopyPath(base, stem, j) in t - {CopyPath(base, stem, k)}
  {
    forall j | 1 <= j < k ensures CopyPath(base, stem, j) != CopyPath(base, stem, k) {
      CopyNamesDistinct(stem, j, k);
      assert Last(CopyPath(base, stem, j)) == CopyName(stem, j);
    }
  }

  /**
   * `Path.exists()` on the `k`-th candidate. A `.` or `..` component is only
   * looked up once the OS has walked into `base`, so it exists exactly when
   * `base` is a directory.
   */
  predicate CandidateExists(t: Tree, base: Path, stem: string, k: nat)
    requires '/' !in stem
  {
    if k == 0 && DotStem(stem) then IsDir(t, base) else Candidate(base, stem, k) in t
  }

  /**
   * The directories `mkdir(parents=True, exist_ok=True)` has to make for the
   * `k`-th candidate: for a `.` or `..` stem that is `base`, which the OS then
   * walks into.
   */
  function CandidateDir(base: Path, stem: string, k: nat): Path
    requires '/' !in stem
  {
    if k == 0 && DotStem(stem) then base else Candidate(base, stem, k)
  }

  /**
   * The folder `create_extract_folder` hands back did not exist before,
   * unless the container's stem is `..`.
   */
  lemma ExtractFolderIsFresh(t: Tree, base: Path, stem: string, k: nat)
    requires WF(t) && '/' !in stem && stem != ".."
    requires !CandidateExists(t, base, stem, k)
    requires MakeDirs(t, CandidateDir(base, stem, k)).Ok?
    ensures Candidate(base, stem, k) !in t
  {
    if k == 0 && stem == "." {
      MakeDirsSpec(t, base);
    }
  }

  /**
   * A container named `...mtz` has the stem `..`: while `./extracted` does
   * not exist, the first candidate counts as missing, and the folder handed
   * back is the working directory itself.
   */
  lemma DotDotStemReusesWorkingDir(t: Tree, cwd: Path, container: Path)
    requires WF(t) && IsDir(t, cwd) && ExtractRoot(cwd) !in t
    requires container != [] && Last(container) == "...mtz"
    ensures ContainerStem(container) == ".."
    ensures !CandidateExists(t, ExtractRoot(cwd), "..", 0)
    ensures MakeDirs(t, CandidateDir(ExtractRoot(cwd), "..", 0)).Ok?
    ensures Candidate(ExtractRoot(cwd), "..", 0) == cwd && cwd in t
  {
    assert "...mtz" == ".." + "." + "mtz";
    RFindDotAfter("..", "mtz");
    assert Parent(ExtractRoot(cwd)) == cwd;
  }

  // ----- the tagging pass -----

  /** Whether the tagging pass renames `p` when it reaches it in tree `t`. */
  predicate Taggable(t: Tree, p: Path, allowed: set<string>) {
    p != [] && IsFile(t, p) && Suffix(Last(p)) !in allowed
  }

  /** `p.with_suffix(p.suffix + ".zip")`. */
  function TagTarget(p: Path): Path
    requires p != []
  {
    Parent(p) + [TagName(Last(p))]
  }

  /** One iteration of the tagging loop; a failing rename propagates. */
  function TagStep(t: Tree, p: Path, allowed: set<string>, locked: set<Path>): Outcome {
    if Taggable(t, p, allowed) then
      match Rename(t, Parent(p), Last(p), TagName(Last(p)), locked)
      case Ok(t1) => Done(t1)
      case Err(e) => Raised(t, e)
    else Done(t)
  }

  /** The tagging loop over a listing taken before it starts. */
  function TagPass(t: Tree, order: seq<Path>, allowed: set<string>, locked: set<Path>): Outcome
    decreases |order|
  {
    if order == [] then Done(t)
    else match TagStep(t, order[0], allowed, locked)
      case Raised(t1, e) => Raised(t1, e)
      case Done(t1) => TagPass(t1, order[1..], allowed, locked)
  }

  /** The files below `folder` that tagging renames. */
  function TagSet(t: Tree, folder: Path, allowed: set<string>): set<Path> {
    set p | p in t && folder < p && Taggable(t, p, allowed)
  }

  /** Every rename can go ahead: no target name is taken and no source is locked. */
  ghost predicate TagsFree(t: Tree, tagged: set<Path>, locked: set<Path>) {
    forall p :: p in tagged ==> p != [] && TagTarget(p) !in t && p !in locked
  }

  /** Where tagging sends an entry; the root, which is never tagged, stays put. */
  function TagOf(p: Path): Path {
    if p == [] then p else TagTarget(p)
  }

  lemma TagTargetEq(p: Path, q: Path)
    requires p != [] && q != [] && TagTarget(p) == TagTarget(q)
    ensures p == q
  {
    var tp := TagTarget(p);
    assert |p| == |tp| == |q|;
    assert Parent(p) == tp[..|tp| - 1] == Parent(q);
    var n := tp[|tp| - 1];
    assert Last(p) == n[..|n| - 4] == Last(q);
    ParentAndLast(p);
    ParentAndLast(q);
  }

  lemma TagTargetInjective()
    ensures forall p, q :: p != [] && q != [] && TagTarget(p) == TagTarget(q) ==> p == q
  {
    forall p, q | p != [] && q != [] && TagTarget(p) == TagTarget(q) ensures p == q {
      TagTargetEq(p, q);
    }
  }

  // ----- the unzip pass -----

  /** The entries below `folder` that `rglob("*.zip")` matches, as they stand when the unzip loop starts. */
  function ZipSet(t: Tree, folder: Path): set<Path> {
    set p | p in t && folder < p && MatchesZip(Last(p))
  }

  /** `p.with_suffix("")`, resolved by the OS. */
  function UnzipTarget(p: Path): Path
    requires p != []
  {
    DropSuffix(Last(p));
    Resolve(Parent(p), WithSuffix(Last(p), ""))
  }

  /**
   * One iteration of the unzip loop: the folder is made outside the `try`, so
   * its failure propagates; a failing extraction or unlink skips the file.
   */
  function UnzipStep(t: Tree, p: Path, locked: set<Path>): Outcome {
    if p == [] || !IsFile(t, p) then Done(t)
    else
      var dest := UnzipTarget(p);
      match MkdirExistOk(t, dest)
      case Err(e) => Raised(t, e)
      case Ok(t1) => Done(ExtractThenDelete(t1, p, dest, locked))
  }

  /** The `try` block of one unzip step: each failure leaves the tree as it stood. */
  function ExtractThenDelete(t: Tree, p: Path, dest: Path, locked: set<Path>): Tree {
    match ExtractFile(t, p, dest)
    case Err(_) => t
    case Ok(t1) =>
      match Unlink(t1, p, locked)
      case Err(_) => t1
      case Ok(t2) => t2
  }

  /** The unzip loop over a listing taken before it starts: only a raised `mkdir` ends it. */
  function UnzipPass(t: Tree, order: seq<Path>, locked: set<Path>): Outcome
    decreases |order|
  {
    if order == [] then Done(t)
    else match UnzipStep(t, order[0], locked)
      case Raised(t1, e) => Raised(t1, e)
      case Done(t1) => UnzipPass(t1, order[1..], locked)
  }

  // ----- the pruning pass -----

  /**
   * One step of the bottom-up walk: `listing` is the tree as it was when the
   * walk listed `d`; removal errors are swallowed.
   */
  function PruneStep(t: Tree, d: Path, listing: Tree, locked: set<Path>): Tree {
    if HasChildren(listing, d) then t
    else match Rmdir(t, d, locked)
      case Ok(t1) => t1
      case Err(_) => t
  }

  function PrunePass(t: Tree, order: seq<Path>, listing: Tree, locked: set<Path>): Tree
    decreases |order|
  {
    if order == [] then t
    else PrunePass(PruneStep(t, order[0], listing, locked), order[1..], listing, locked)
  }

  /** The folders pruning removes: those walked that had no entries when listed and that the OS lets go. */
  function PruneSet(t: Tree, folder: Path, locked: set<Path>): set<Path> {
    set d | d in WalkDirs(t, folder) && !HasChildren(t, d) && d != [] && d !in locked
  }

  /** The tree `process_files` leaves: tagging, unzipping and pruning, stopping at the first exception. */
  function Pipeline(t: Tree, folder: Path, tagOrder: seq<Path>, zipOrder: seq<Path>,
                    allowed: set<string>, locked: set<Path>): Outcome
  {
    match TagPass(t, tagOrder, allowed, locked)
    case Raised(t1, e) => Raised(t1, e)
    case Done(t1) =>
      match UnzipPass(t1, zipOrder, locked)
      case Raised(t2, e) => Raised(t2, e)
      case Done(t2) => Done(t2 - PruneSet(t2, folder, locked))
  }

  /** The expansion ratio `show_completion` prints, in percent; 0 for an empty container. */
  function ExpansionRatio(extractedSize: nat, totalSize: nat): (r: real)
    ensures totalSize == 0 ==> r == 0.0
    ensures totalSize > 0 ==> r * totalSize as real == extractedSize as real * 100.0
  {
    if totalSize > 0 then (extractedSize as real / totalSize as real) * 100.0 else 0.0
  }

  /** The ratio is below 100% exactly when the unpacked tree is smaller than the container. */
  lemma ExpansionBelowFull(extractedSize: nat, totalSize: nat)
    requires totalSize > 0
    ensures ExpansionRatio(extractedSize, totalSize) < 100.0 <==> extractedSize < totalSize
  {
    var r, e, t := ExpansionRatio(extractedSize, totalSize), extractedSize as real, totalSize as real;
    assert (100.0 - r) * t == (t - e) * 100.0;
    ScaledSign(100.0 - r, t);
  }

  // ----- what the tagging pass does -----

  lemma TagOfInjective(S: set<Path>)
    requires forall p :: p in S ==> p != []
    ensures InjectiveOn(S, TagOf)
  {
    forall p, q | p in S && q in S && TagOf(p) == TagOf(q) ensures p == q {
      TagTargetEq(p, q);
    }
  }

  /** One step of the tagging loop, part way through: a tagged entry moves, any other stays. */
  lemma TagStepFrom(t: Tree, T: set<Path>, S: set<Path>, p: Path, allowed: set<string>, locked: set<Path>)
    requires TagsFree(t, T, locked) && T <= t.Keys && InjectiveOn(T, TagOf)
    requires forall q :: q in T ==> Taggable(t, q, allowed)
    requires S <= T && p in t && p !in S
    requires Taggable(t, p, allowed) ==> p in T
    ensures InjectiveOn(S, TagOf) && InjectiveOn(S + {p} * T, TagOf)
    ensures TagStep(Relocated(t, S, TagOf), p, allowed, locked) == Done(Relocated(t, S + {p} * T, TagOf))
  {
    assert FreeTargets(t, S, TagOf);
    var cur := Relocated(t, S, TagOf);
    if p in T {
      assert S + {p} * T == S + {p};
      assert FreeTargets(t, S + {p}, TagOf) && InjectiveOn(S + {p}, TagOf);
      RelocatedStep(t, S, TagOf, p);
      ParentAndLast(p);
      assert Last(p) != TagName(Last(p));
    } else {
      assert S + {p} * T == S;
      RelocatedEntries(t, S, TagOf);
      assert p in cur && cur[p] == t[p];
      assert !Taggable(cur, p, allowed);
    }
  }

  /** The tagging loop, part way through: the entries listed so far have been handled. */
  lemma {:induction false} TagPassFrom(t: Tree, T: set<Path>, done: set<Path>, rest: seq<Path>,
                                       allowed: set<string>, locked: set<Path>)
    requires TagsFree(t, T, locked) && T <= t.Keys && InjectiveOn(T, TagOf)
    requires forall p :: p in T ==> Taggable(t, p, allowed)
    requires forall i :: 0 <= i < |rest| ==> rest[i] in t && rest[i] !in done
    requires forall i :: 0 <= i < |rest| && Taggable(t, rest[i], allowed) ==> rest[i] in T
    requires forall i, j :: 0 <= i < j < |rest| ==> rest[i] != rest[j]
    requires forall p :: p in T ==> p in done || p in rest
    ensures InjectiveOn(T * done, TagOf)
    ensures TagPass(Relocated(t, T * done, TagOf), rest, allowed, locked) == Done(Relocated(t, T, TagOf))
    decreases |rest|
  {
    if rest == [] {
      assert T * done == T;
    } else {
      var p := rest[0];
      TagStepFrom(t, T, T * done, p, allowed, locked);
      assert T * (done + {p}) == T * done + {p} * T;
      TagPassFrom(t, T, done + {p}, rest[1..], allowed, locked);
    }
  }

  /**
   * When no tagged name is already taken and no file is locked, tagging
   * renames exactly the files whose suffix is not allow-listed, each to
   * `<name>.zip`, and leaves everything else where it was, whatever order
   * the listing came in.
   */
  lemma TagPassRenamesTagSet(t: Tree, folder: Path, order: seq<Path>, allowed: set<string>, locked: set<Path>)
    requires Enumerates(order, Descendants(t, folder))
    requires TagsFree(t, TagSet(t, folder, allowed), locked)
    ensures InjectiveOn(TagSet(t, folder, allowed), TagOf)
    ensures TagPass(t, order, allowed, locked) == Done(Relocated(t, TagSet(t, folder, allowed), TagOf))
  {
    var T := TagSet(t, folder, allowed);
    TagOfInjective(T);
    var none: set<Path> := {};
    assert T * none == none;
    RelocatedNone(t, TagOf);
    assert forall i :: 0 <= i < |order| ==> order[i] in order;
    TagPassFrom(t, T, none, order, allowed, locked);
  }

  /** A tagged file is picked up by the unzip pass and unpacked into a folder carrying its original name. */
  lemma TagThenUnzip(p: Path)
    requires p != []
    ensures MatchesZip(Last(TagTarget(p)))
    ensures UnzipTarget(TagTarget(p)) == p
  {
    var q := TagTarget(p);
    assert Parent(q) == Parent(p) && Last(q) == TagName(Last(p));
    ParentAndLast(p);
    TagThenStrip(Last(p));
    TagNameIsWithSuffix(Last(p));
  }

  /** A folder holding `a` and `a.zip`: tagging `a` takes the name `a.zip`. */
  function ClashingFiles(): Tree {
    map[[] := Dir, ["a"] := File(1, Blob([])), ["a.zip"] := File(2, Blob([]))]
  }

  lemma ClashingSuffixes()
    ensures Suffix("a") == "" && Suffix("a.zip") == ".zip"
    ensures "" !in DefaultAllowed && ".zip" !in DefaultAllowed
    ensures TagName("a") == "a.zip" && TagName("a.zip") == "a.zip.zip"
  {
    RFindDotAfter("a", "zip");
    assert "a.zip" == "a" + "." + "zip";
  }

  /**
   * When a tagged name is already taken the listing order decides what
   * survives: listed first, `a` overwrites `a.zip` and is then tagged again,
   * so the two-byte file is lost.
   */
  lemma TagFirstLosesFile()
    ensures TagPass(ClashingFiles(), [["a"], ["a.zip"]], DefaultAllowed, {})
      == Done(map[[] := Dir, ["a.zip.zip"] := File(1, Blob([]))])
  {
    ClashingSuffixes();
    var t := ClashingFiles();
    var t1, t2 := map[[] := Dir, ["a.zip"] := File(1, Blob([]))], map[[] := Dir, ["a.zip.zip"] := File(1, Blob([]))];
    TopFileTagged(t, "a");
    TagFirstStates();
    TopFileTagged(t1, "a.zip");
    assert [["a"], ["a.zip"]][1..] == [["a.zip"]];
  }

  /** The trees the tagging pass goes through when `a` is listed first. */
  lemma TagFirstStates()
    ensures (ClashingFiles() - {["a"]})[["a.zip"] := File(1, Blob([]))] == map[[] := Dir, ["a.zip"] := File(1, Blob([]))]
    ensures (map[[] := Dir, ["a.zip"] := File(1, Blob([]))] - {["a.zip"]})[["a.zip.zip"] := File(1, Blob([]))]
      == map[[] := Dir, ["a.zip.zip"] := File(1, Blob([]))]
  {
  }

  /** Listed the other way round, both files survive the tagging pass. */
  lemma TagLastKeepsBoth()
    ensures TagPass(ClashingFiles(), [["a.zip"], ["a"]], DefaultAllowed, {})
      == Done(map[[] := Dir, ["a.zip"] := File(1, Blob([])), ["a.zip.zip"] := File(2, Blob([]))])
  {
    ClashingSuffixes();
    var t := ClashingFiles();
    var u1 := map[[] := Dir, ["a"] := File(1, Blob([])), ["a.zip.zip"] := File(2, Blob([]))];
    TopFileTagged(t, "a.zip");
    TagLastStates();
    TopFileTagged(u1, "a");
    assert [["a.zip"], ["a"]][1..] == [["a"]];
  }

  /** The trees the tagging pass goes through when `a.zip` is listed first. */
  lemma TagLastStates()
    ensures (ClashingFiles() - {["a.zip"]})[["a.zip.zip"] := File(2, Blob([]))]
      == map[[] := Dir, ["a"] := File(1, Blob([])), ["a.zip.zip"] := File(2, Blob([]))]
    ensures (map[[] := Dir, ["a"] := File(1, Blob([])), ["a.zip.zip"] := File(2, Blob([]))] - {["a"]})[["a.zip"] := File(1, Blob([]))]
      == map[[] := Dir, ["a.zip"] := File(1, Blob([])), ["a.zip.zip"] := File(2, Blob([]))]
  {
  }

  /** A top-level file whose suffix is not allowed is renamed with `.zip` appended. */
  lemma TopFileTagged(t: Tree, name: Name)
    requires [name] in t && t[[name]].File? && Suffix(name) !in DefaultAllowed
    requires TagName(name) != name && !IsDir(t, [TagName(name)])
    ensures TagStep(t, [name], DefaultAllowed, {}) == Done((t - {[name]})[[TagName(name)] := t[[name]]])
  {
    var p: Path := [name];
    assert Parent(p) == [] && Last(p) == name;
    assert Parent(p) + [Last(p)] == p && Parent(p) + [TagName(name)] == [TagName(name)];
  }

  // ----- what the unzip pass does -----

  /** One unzip step removes nothing but the file it handles, and turns no folder into a file. */
  lemma UnzipStepKeeps(t: Tree, p: Path, locked: set<Path>)
    ensures forall q :: q in t && q != p ==> q in UnzipStep(t, p, locked).tree
    ensures forall q :: IsDir(t, q) ==> IsDir(UnzipStep(t, p, locked).tree, q)
  {
    if p != [] && IsFile(t, p) {
      var dest := UnzipTarget(p);
      var made := MkdirExistOk(t, dest);
      if made.Ok? {
        assert KeepsBut(t, made.value, p);
        ExtractThenDeleteKeeps(made.value, p, dest, locked);
        KeepsButChain(t, made.value, UnzipStep(t, p, locked).tree, p);
      }
    }
  }

  lemma ExtractThenDeleteKeeps(t: Tree, p: Path, dest: Path, locked: set<Path>)
    ensures KeepsBut(t, ExtractThenDelete(t, p, dest, locked), p)
  {
    var extracted := ExtractFile(t, p, dest);
    if extracted.Ok? {
      ExtractFileKeeps(t, p, dest);
      var t1 := extracted.value;
      var r := ExtractThenDelete(t, p, dest, locked);
      if Unlink(t1, p, locked).Ok? {
        UnlinkKeepsBut(t1, p, locked);
        assert r == Unlink(t1, p, locked).value;
      } else {
        assert r == t1;
      }
      KeepsButChain(t, t1, r, p);
    }
  }

  lemma UnlinkKeepsBut(t: Tree, p: Path, locked: set<Path>)
    requires Unlink(t, p, locked).Ok?
    ensures KeepsBut(t, Unlink(t, p, locked).value, p)
  {
    var r := t - {p};
    forall q | IsDir(t, q) ensures IsDir(r, q) {
      assert q != p;
    }
  }

  /** Everything of `t` but `p` is still in `u`, and every folder of `t` is still a folder. */
  ghost predicate KeepsBut(t: Tree, u: Tree, p: Path) {
    && (forall q :: q in t && q != p ==> q in u)
    && (forall q :: IsDir(t, q) ==> IsDir(u, q))
  }

  lemma KeepsButChain(t: Tree, t1: Tree, t2: Tree, p: Path)
    requires KeepsBut(t, t1, p) && KeepsBut(t1, t2, p)
    ensures KeepsBut(t, t2, p)
  {
  }

  lemma {:induction false} UnzipPassKeeps(t: Tree, order: seq<Path>, locked: set<Path>)
    ensures forall q :: q in t && q !in order ==> q in UnzipPass(t, order, locked).tree
    ensures forall q :: IsDir(t, q) ==> IsDir(UnzipPass(t, order, locked).tree, q)
    decreases |order|
  {
    if order != [] {
      UnzipStepKeeps(t, order[0], locked);
      var step := UnzipStep(t, order[0], locked);
      if step.Done? {
        UnzipPassKeeps(step.tree, order[1..], locked);
        forall q | q in t && q !in order ensures q in UnzipPass(t, order, locked).tree {
          assert q != order[0] && q !in order[1..];
        }
      }
    }
  }

  /**
   * The unzip pass never removes a folder, and the only entries it removes
   * are files it listed as `*.zip`.
   */
  lemma UnzipPassRemovesOnlyArchives(t: Tree, folder: Path, order: seq<Path>, locked: set<Path>)
    requires Enumerates(order, ZipSet(t, folder))
    ensures forall q :: IsDir(t, q) ==> IsDir(UnzipPass(t, order, locked).tree, q)
    ensures forall q :: q in t && q !in UnzipPass(t, order, locked).tree ==>
      IsFile(t, q) && folder < q && MatchesZip(Last(q))
  {
    UnzipPassKeeps(t, order, locked);
    var r := UnzipPass(t, order, locked).tree;
    forall q | q in t && q !in r ensures IsFile(t, q) && folder < q && MatchesZip(Last(q)) {
      assert q in order;
      assert !IsDir(t, q);
    }
  }

  /**
   * A `<name>.zip` file holding a readable archive whose members fit becomes
   * the folder `<name>` holding those members, and the file is deleted.
   */
  lemma UnzipStepExtracts(t: Tree, p: Path, locked: set<Path>)
    requires WF(t) && p != [] && IsFile(t, p) && p !in locked
    requires MatchesZip(Last(p)) && IsName(StripMarker(Last(p)))
    requires t[p].content.Archive? && t[p].content.intact
    requires !IsFile(t, Parent(p) + [StripMarker(Last(p))])
    requires !ExtractClash(t[Parent(p) + [StripMarker(Last(p))] := Dir], Parent(p) + [StripMarker(Last(p))], t[p].content.members)
    ensures var d, members, r := Parent(p) + [StripMarker(Last(p))], t[p].content.members, UnzipStep(t, p, locked);
      && r.Done? && p !in r.tree && IsDir(r.tree, d)
      && (forall m :: m in members && members[m].File? ==> d + m in r.tree && r.tree[d + m] == members[m])
      && (forall q :: q in t && q != p ==> q in r.tree)
  {
    var n := StripMarker(Last(p));
    var d := Parent(p) + [n];
    UnzipMkdir(t, p);
    ExtractThenDeletePlaces(t[d := Dir], p, d, locked);
    UnzipStepKeeps(t, p, locked);
  }

  /** The folder an unzip step makes for `<name>.zip` is `<name>`, next to it. */
  lemma UnzipMkdir(t: Tree, p: Path)
    requires WF(t) && p != [] && IsFile(t, p)
    requires MatchesZip(Last(p)) && IsName(StripMarker(Last(p)))
    requires !IsFile(t, Parent(p) + [StripMarker(Last(p))])
    ensures var d := Parent(p) + [StripMarker(Last(p))];
      && UnzipTarget(p) == d && MkdirExistOk(t, d) == Ok(t[d := Dir])
      && !(d <= p)
  {
    var n := StripMarker(Last(p));
    var d := Parent(p) + [n];
    assert Last(p) == n + ".zip";
    UnzipFolderName(n);
    if d in t {
      assert t[d := Dir] == t;
    } else {
      assert Parent(d) == Parent(p);
    }
    assert !(d <= p) by {
      assert p[|Parent(p)|] == Last(p) != n;
    }
  }

  /** Extracting an intact archive into the folder `d` that does not hold it, then deleting it. */
  lemma ExtractThenDeletePlaces(t: Tree, p: Path, d: Path, locked: set<Path>)
    requires p in t && t[p].File? && p !in locked && !(d <= p) && IsDir(t, d)
    requires t[p].content.Archive? && t[p].content.intact
    requires !ExtractClash(t, d, t[p].content.members)
    ensures var members, r := t[p].content.members, ExtractThenDelete(t, p, d, locked);
      && p !in r && IsDir(r, d)
      && (forall m :: m in members && members[m].File? ==> d + m in r && r[d + m] == members[m])
  {
    var members := t[p].content.members;
    ExtractFilePlaces(t, p, d);
    var t1 := ExtractFile(t, p, d).value;
    var r := t1 - {p};
    assert Unlink(t1, p, locked) == Ok(r);
    forall m | m in members && members[m].File? ensures d + m in r && r[d + m] == members[m] {
      assert d <= d + m;
    }
  }

  /** Extracting an intact archive into a folder that does not hold it: the members are placed, and the archive and the folder stay. */
  lemma ExtractFilePlaces(t: Tree, p: Path, d: Path)
    requires p in t && t[p].File? && !(d <= p) && IsDir(t, d)
    requires t[p].content.Archive? && t[p].content.intact
    requires !ExtractClash(t, d, t[p].content.members)
    ensures ExtractFile(t, p, d).Ok?
    ensures var members, t1 := t[p].content.members, ExtractFile(t, p, d).value;
      && IsFile(t1, p) && IsDir(t1, d)
      && (forall m :: m in members && members[m].File? ==> d + m in t1 && t1[d + m] == members[m])
  {
    ExtractAllPlaces(t, d, t[p].content.members);
    ExtractFileKeeps(t, p, d);
  }

  // ----- what the pruning pass does -----

  lemma {:induction false} PrunePassFrom(t: Tree, P: set<Path>, done: set<Path>, rest: seq<Path>, locked: set<Path>)
    requires forall i :: 0 <= i < |rest| ==> IsDir(t, rest[i]) && rest[i] !in done
    requires forall i, j :: 0 <= i < j < |rest| ==> rest[i] != rest[j]
    requires forall i :: 0 <= i < |rest| ==>
      (rest[i] in P <==> !HasChildren(t, rest[i]) && rest[i] != [] && rest[i] !in locked)
    requires forall d :: d in P ==> d in done || d in rest
    ensures PrunePass(t - P * done, rest, t, locked) == t - P
    decreases |rest|
  {
    if rest == [] {
      assert P * done == P;
    } else {
      var d := rest[0];
      var cur := t - P * done;
      assert d in cur;
      if d in P {
        assert !HasChildren(cur, d);
        assert cur - {d} == t - P * (done + {d});
      } else {
        assert P * (done + {d}) == P * done;
      }
      PrunePassFrom(t, P, done + {d}, rest[1..], locked);
    }
  }

  /**
   * Pruning removes exactly the folders that had no entries when the walk
   * listed them (the walked folder itself included), except those the OS
   * refuses to remove, whatever order the walk takes.
   */
  lemma PruneRemovesEmptyFolders(t: Tree, folder: Path, order: seq<Path>, locked: set<Path>)
    requires Enumerates(order, WalkDirs(t, folder))
    ensures PrunePass(t, order, t, locked) == t - PruneSet(t, folder, locked)
  {
    var P := PruneSet(t, folder, locked);
    var none: set<Path> := {};
    assert P * none == none;
    assert t - none == t;
    assert forall i :: 0 <= i < |order| ==> order[i] in order;
    PrunePassFrom(t, P, none, order, locked);
  }

  /** Three nested folders `/a/b` with nothing in them. */
  function NestedEmpty(): Tree {
    map[[] := Dir, ["a"] := Dir, ["a", "b"] := Dir]
  }

  /**
   * Pruning is one level deep: pruning `/a` in `NestedEmpty()` removes `/a/b`
   * but leaves `/a` behind, now empty.
   */
  lemma PruneIsSingleLevel(order: seq<Path>)
    requires Enumerates(order, WalkDirs(NestedEmpty(), ["a"]))
    ensures var r := PrunePass(NestedEmpty(), order, NestedEmpty(), {});
      ["a", "b"] !in r && IsDir(r, ["a"]) && !HasChildren(r, ["a"])
  {
    var t := NestedEmpty();
    PruneRemovesEmptyFolders(t, ["a"], order, {});
    var a: Path := ["a"];
    var ab: Path := ["a", "b"];
    assert Parent(ab) == a;
    assert HasChildren(t, a);
    assert forall c :: c in t && c != [] ==> Parent(c) != ab;
    assert ab in PruneSet(t, a, {});
    assert a !in PruneSet(t, a, {});
    var r := t - PruneSet(t, a, {});
    assert forall c :: c in r ==> c == [] || c == a;
  }

  class MTZExtractor {
    const allowedExtensions: set<string>
    var startTime: Option<int>
    var totalFiles: nat
    var totalSize: nat
    var extractedSize: nat

    /** An empty (or missing) allow-list falls back to the default one. */
    constructor(allowed: set<string>)
      ensures allowedExtensions == if allowed == {} then DefaultAllowed else allowed
      ensures startTime == None && totalFiles == 0 && totalSize == 0 && extractedSize == 0
    {
      allowedExtensions := if allowed == {} then DefaultAllowed else allowed;
      startTime := None;
      totalFiles := 0;
      totalSize := 0;
      extractedSize := 0;
    }

    /** Accepts a path that exists and whose text ends in `.mtz`, case-sensitively. */
    method ValidateMtzFile(fs: FileSystem, p: Path) returns (ok: bool)
      ensures ok <==> p in fs.tree && p != [] && EndsWith(Last(p), ".mtz")
    {
      PathStringEndsWith(p, ContainerMarker);
      if p !in fs.tree {
        return false;
      }
      if !EndsWith(PathString(p), ContainerMarker) {
        return false;
      }
      return true;
    }

    /**
     * Tries `./extracted/<stem>`, `<stem>_copy1`, `<stem>_copy2`, ... and
     * creates the first that does not exist; `None` when creating it raises.
     */
    method CreateExtractFolder(fs: FileSystem, container: Path) returns (folder: Option<Path>, ghost k: nat)
      requires fs.Valid()
      modifies fs
      ensures fs.Valid()
      ensures forall j :: 0 <= j < k ==>
        CandidateExists(old(fs.tree), ExtractRoot(fs.cwd), ContainerStem(container), j)
      ensures !CandidateExists(old(fs.tree), ExtractRoot(fs.cwd), ContainerStem(container), k)
      ensures folder.Some? == MakeDirs(old(fs.tree), CandidateDir(ExtractRoot(fs.cwd), ContainerStem(container), k)).Ok?
      ensures fs.tree == if folder.Some? then MakeDirs(old(fs.tree), CandidateDir(ExtractRoot(fs.cwd), ContainerStem(container), k)).value else old(fs.tree)
      ensures folder.Some? ==> folder.value == Candidate(ExtractRoot(fs.cwd), ContainerStem(container), k)
      ensures folder.Some? ==> IsDir(fs.tree, folder.value)
      ensures folder.Some? && ContainerStem(container) != ".." ==> folder.value !in old(fs.tree)
    {
      var stem := ContainerStem(container);
      var base := ExtractRoot(fs.cwd);
      ghost var t0 := fs.tree;
      k := 0;
      var counter: nat := 0;
      while CandidateExists(fs.tree, base, stem, counter)
        invariant k == counter && fs.tree == t0
        invariant forall j :: 0 <= j < counter ==> CandidateExists(t0, base, stem, j)
        invariant counter <= |t0| + 1
        decreases |t0| + 1 - counter
      {
        counter := counter + 1;
        k := counter;
        forall j | 1 <= j < counter ensures CopyPath(base, stem, j) in t0 {
          assert CandidateExists(t0, base, stem, j);
        }
        CopiesFitInTree(t0, base, stem, counter);
      }
      var made := fs.MakeDirs(CandidateDir(base, stem, counter));
      if made {
        folder := Some(Candidate(base, stem, counter));
        MakeDirsSpec(t0, CandidateDir(base, stem, counter));
        if stem != ".." {
          ExtractFolderIsFresh(t0, base, stem, counter);
        }
      } else {
        folder := None;
      }
    }

    /**
     * Records the start time and the container's size, then extracts it into
     * `dest`; the entry count is recorded only once extraction succeeded.
     */
    method ExtractMtz(fs: FileSystem, container: Path, dest: Path, now: int) returns (ok: bool)
      requires fs.Valid()
      modifies this, fs
      ensures fs.Valid()
      ensures startTime == Some(now) && extractedSize == old(extractedSize)
      ensures totalSize == match GetSize(old(fs.tree), container, fs.dirStatSize)
        case Ok(n) => n
        case Err(_) => old(totalSize)
      ensures ok == FileTree.ExtractFile(old(fs.tree), container, dest).Ok?
      ensures fs.tree == if ok then FileTree.ExtractFile(old(fs.tree), container, dest).value else old(fs.tree)
      ensures totalFiles == if ok then |old(fs.tree)[container].content.members| else old(totalFiles)
    {
      startTime := Some(now);
      var size := GetSize(fs.tree, container, fs.dirStatSize);
      if size.Err? {
        return false;
      }
      totalSize := size.value;
      var node := fs.tree[container];
      ok := fs.ExtractFile(container, dest);
      if ok {
        totalFiles := |node.content.members|;
      }
    }

    /** The total size of the files below `folder`, summed over an `os.walk`. */
    method CalculateFolderSize(fs: FileSystem, folder: Path) returns (total: nat)
      requires fs.Valid()
      ensures total == SizeUnder(fs.tree, folder)
    {
      total := WalkSize(fs, folder);
    }

    /**
     * Renames every file below `folder` whose suffix is not allow-listed to
     * `<name>.zip`, over a listing taken first; a failing rename propagates.
     */
    method AddZipExtensionToFiles(fs: FileSystem, folder: Path) returns (ok: bool, ghost order: seq<Path>)
      requires fs.Valid()
      modifies fs
      ensures fs.Valid()
      ensures Enumerates(order, Descendants(old(fs.tree), folder))
      ensures ok == TagPass(old(fs.tree), order, allowedExtensions, fs.locked).Done?
      ensures fs.tree == TagPass(old(fs.tree), order, allowedExtensions, fs.locked).tree
    {
      var entries := Enumerate(Descendants(fs.tree, folder));
      order := entries;
      ghost var t0 := fs.tree;
      ok := true;
      var i := 0;
      while i < |entries| && ok
        invariant 0 <= i <= |entries| && fs.Valid()
        invariant ok ==> TagPass(t0, entries, allowedExtensions, fs.locked) == TagPass(fs.tree, entries[i..], allowedExtensions, fs.locked)
        invariant !ok ==> TagPass(t0, entries, allowedExtensions, fs.locked).Raised?
        invariant !ok ==> TagPass(t0, entries, allowedExtensions, fs.locked).tree == fs.tree
      {
        assert entries[i..][1..] == entries[i + 1..];
        ok := TagOne(fs, entries[i]);
        i := i + 1;
      }
    }

    /** One iteration of the tagging loop: a file whose suffix is not allowed gets `.zip` appended. */
    method TagOne(fs: FileSystem, p: Path) returns (ok: bool)
      requires fs.Valid()
      modifies fs
      ensures fs.Valid()
      ensures ok == TagStep(old(fs.tree), p, allowedExtensions, fs.locked).Done?
      ensures fs.tree == TagStep(old(fs.tree), p, allowedExtensions, fs.locked).tree
    {
      ok := true;
      if Taggable(fs.tree, p, allowedExtensions) {
        ok := fs.Rename(Parent(p), Last(p), TagName(Last(p)));
      }
    }

    /**
     * Extracts every `*.zip` file below `folder` into the sibling folder named
     * without `.zip` and deletes it, over a listing taken first.
     */
    method UnzipFilesToFolders(fs: FileSystem, folder: Path) returns (ok: bool, ghost order: seq<Path>)
      requires fs.Valid()
      modifies fs
      ensures fs.Valid()
      ensures Enumerates(order, ZipSet(old(fs.tree), folder))
      ensures ok == UnzipPass(old(fs.tree), order, fs.locked).Done?
      ensures fs.tree == UnzipPass(old(fs.tree), order, fs.locked).tree
    {
      var entries := Enumerate(ZipSet(fs.tree, folder));
      order := entries;
      ghost var t0 := fs.tree;
      ok := true;
      var i := 0;
      while i < |entries| && ok
        invariant 0 <= i <= |entries| && fs.Valid()
        invariant ok ==> UnzipPass(t0, entries, fs.locked) == UnzipPass(fs.tree, entries[i..], fs.locked)
        invariant !ok ==> UnzipPass(t0, entries, fs.locked).Raised?
        invariant !ok ==> UnzipPass(t0, entries, fs.locked).tree == fs.tree
      {
        assert entries[i..][1..] == entries[i + 1..];
        ok := UnzipOne(fs, entries[i]);
        i := i + 1;
      }
    }

    /** One iteration of the unzip loop: make the folder, then extract into it and delete the archive. */
    method UnzipOne(fs: FileSystem, p: Path) returns (ok: bool)
      requires fs.Valid()
      modifies fs
      ensures fs.Valid()
      ensures ok == UnzipStep(old(fs.tree), p, fs.locked).Done?
      ensures fs.tree == UnzipStep(old(fs.tree), p, fs.locked).tree
    {
      ok := true;
      if p != [] && IsFile(fs.tree, p) {
        var dest := UnzipTarget(p);
        ok := fs.MkdirExistOk(dest);
        if ok {
          ExtractAndDelete(fs, p, dest);
        }
      }
    }

    /** The `try` block of the unzip loop: extract, then delete the archive; a failure skips the rest. */
    method ExtractAndDelete(fs: FileSystem, p: Path, dest: Path)
      requires fs.Valid()
      modifies fs
      ensures fs.Valid()
      ensures fs.tree == ExtractThenDelete(old(fs.tree), p, dest, fs.locked)
    {
      var extracted := fs.ExtractFile(p, dest);
      if extracted {
        var _ := fs.Unlink(p);
      }
    }

    /**
     * Bottom-up walk removing every folder that had no entries when the walk
     * listed it; a failing removal is skipped.
     */
    method CleanupEmptyFolders(fs: FileSystem, folder: Path) returns (ghost order: seq<Path>)
      requires fs.Valid()
      modifies fs
      ensures fs.Valid()
      ensures Enumerates(order, WalkDirs(old(fs.tree), folder))
      ensures fs.tree == PrunePass(old(fs.tree), order, old(fs.tree), fs.locked)
    {
      var listing := fs.tree;
      var dirs := Enumerate(WalkDirs(listing, folder));
      order := dirs;
      for i := 0 to |dirs|
        invariant fs.Valid()
        invariant PrunePass(listing, dirs, listing, fs.locked) == PrunePass(fs.tree, dirs[i..], listing, fs.locked)
      {
        assert dirs[i..][1..] == dirs[i + 1..];
        if !HasChildren(listing, dirs[i]) {
          var _ := fs.Rmdir(dirs[i]);
        }
      }
    }

    /**
     * The post-extraction pipeline: tag, unzip, prune, then measure. Tagging
     * and unzipping can raise, which ends the run before the size is
     * recorded; pruning never raises.
     */
    method ProcessFiles(fs: FileSystem, folder: Path)
      returns (ok: bool, ghost tagOrder: seq<Path>, ghost zipOrder: seq<Path>)
      requires fs.Valid()
      modifies this, fs
      ensures fs.Valid()
      ensures Enumerates(tagOrder, Descendants(old(fs.tree), folder))
      ensures TagPass(old(fs.tree), tagOrder, allowedExtensions, fs.locked).Done? ==>
        Enumerates(zipOrder, ZipSet(TagPass(old(fs.tree), tagOrder, allowedExtensions, fs.locked).tree, folder))
      ensures ok == Pipeline(old(fs.tree), folder, tagOrder, zipOrder, allowedExtensions, fs.locked).Done?
      ensures fs.tree == Pipeline(old(fs.tree), folder, tagOrder, zipOrder, allowedExtensions, fs.locked).tree
      ensures extractedSize == if ok then SizeUnder(fs.tree, folder) else old(extractedSize)
      ensures startTime == old(startTime) && totalFiles == old(totalFiles) && totalSize == old(totalSize)
    {
      var tagged;
      tagged, tagOrder := AddZipExtensionToFiles(fs, folder);
      zipOrder := [];
      if !tagged {
        return false, tagOrder, zipOrder;
      }
      ghost var t1 := fs.tree;
      var unzipped;
      unzipped, zipOrder := UnzipFilesToFolders(fs, folder);
      if !unzipped {
        return false, tagOrder, zipOrder;
      }
      ghost var t2 := fs.tree;
      ghost var pruneOrder := CleanupEmptyFolders(fs, folder);
      PruneRemovesEmptyFolders(t2, folder, pruneOrder, fs.locked);
      extractedSize := CalculateFolderSize(fs, folder);
      ok := true;
    }
  }
}
