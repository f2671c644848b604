/**
 * File-name arithmetic used by both directions of the MTZ transform:
 * pathlib's `suffix`, `stem` and `with_suffix` on a final path component,
 * the `.zip` marker that the unpacker appends and the packer strips, and
 * the `_copyN` names that keep extraction folders apart.
 */
module Names {

  /** A path component as the filesystem stores it. */
  predicate IsName(s: string) {
    s != "" && s != "." && s != ".." && '/' !in s
  }

  type Name = s: string | IsName(s) witness "a"

  predicate EndsWith(s: string, tail: string) {
    |tail| <= |s| && s[|s| - |tail|..] == tail
  }

  /** Position of the last '.' in `s`, or -1 when there is none (Python's `str.rfind('.')`). */
  function RFindDot(s: string): (i: int)
    ensures -1 <= i < |s|
    ensures 0 <= i ==> s[i] == '.'
    ensures forall k :: i < k < |s| ==> s[k] != '.'
  {
    if s == [] then -1
    else if s[|s| - 1] == '.' then |s| - 1
    else RFindDot(s[..|s| - 1])
  }

  /**
   * pathlib's `PurePath.suffix` of a final component: the text from the last
   * dot on, but only when that dot is neither the first nor the last character.
   */
  function Suffix(name: string): string {
    var i := RFindDot(name);
    if 0 < i < |name| - 1 then name[i..] else ""
  }

  /** pathlib's `PurePath.stem`: the component without its suffix. */
  function Stem(name: string): string {
    var i := RFindDot(name);
    if 0 < i < |name| - 1 then name[..i] else name
  }

  /** pathlib's `PurePath.with_suffix` on a non-empty final component. */
  function WithSuffix(name: string, suffix: string): string
    requires name != ""
  {
    var oldSuffix := Suffix(name);
    if oldSuffix == "" then name + suffix else name[..|name| - |oldSuffix|] + suffix
  }

  lemma StemAndSuffix(name: string)
    ensures Stem(name) + Suffix(name) == name
    ensures Suffix(name) == "" || (Suffix(name)[0] == '.' && 2 <= |Suffix(name)|)
  {
  }

  /** The marker suffix the unpacker appends and the packer strips. */
  const ZipMarker: Name := ".zip"

  /** Gluing two names together gives a name. */
  lemma ConcatName(a: Name, b: Name)
    ensures IsName(a + b)
  {
    assert forall i :: 0 <= i < |a + b| ==> (a + b)[i] in a || (a + b)[i] in b;
    if |a + b| == 2 {
      assert a == (a + b)[..1];
    }
  }

  /** The name the unpacker gives a file it tags: the name with `.zip` appended. */
  function TagName(name: Name): Name {
    ConcatName(name, ZipMarker);
    name + ZipMarker
  }

  /** Whether `rglob("*.zip")` matches a component (case-sensitive, as on POSIX). */
  predicate MatchesZip(name: string) {
    EndsWith(name, ZipMarker)
  }

  /** Name `remove_zip_extension` gives an entry: `name[:-4]` (it may not be a valid name). */
  function StripMarker(name: string): string
    requires MatchesZip(name)
  {
    name[..|name| - 4]
  }

  /**
   * pathlib's `with_suffix(suffix + ".zip")` appends `.zip` whatever suffix
   * the name had, so it is `TagName`, and the result matches `*.zip`.
   */
  lemma TagNameIsWithSuffix(name: Name)
    ensures WithSuffix(name, Suffix(name) + ZipMarker) == TagName(name)
    ensures MatchesZip(TagName(name))
  {
    StemAndSuffix(name);
  }

  lemma {:induction false} RFindDotAfter(m: string, tail: string)
    requires '.' !in tail
    ensures RFindDot(m + "." + tail) == |m|
  {
    var s := m + "." + tail;
    assert s[|m|] == '.';
    assert forall k :: |m| < k < |s| ==> s[k] == tail[k - |m| - 1];
  }

  /**
   * `with_suffix("")` on a name `N.zip` with a non-empty `N` gives `N`: the
   * folder the unzip pass extracts a tagged file into carries the original name.
   */
  lemma {:induction false} UnzipFolderName(n: string)
    requires n != ""
    ensures WithSuffix(n + ".zip", "") == n
  {
    assert n + ".zip" == n + "." + "zip";
    RFindDotAfter(n, "zip");
  }

  /** A file literally named `.zip` has no suffix, so `with_suffix("")` leaves it unchanged. */
  lemma BareMarkerKeepsName()
    ensures Suffix(".zip") == "" && WithSuffix(".zip", "") == ".zip"
  {
    assert ".zip" == "" + "." + "zip";
    RFindDotAfter("", "zip");
  }

  /**
   * Tagging is reversible: the packer's strip and the unzip pass's folder name
   * both give back the name a file had before it was tagged.
   */
  lemma {:induction false} TagThenStrip(name: Name)
    ensures StripMarker(TagName(name)) == name
    ensures WithSuffix(TagName(name), "") == name
  {
    assert TagName(name) == name + ".zip";
    UnzipFolderName(name);
  }

  /**
   * `with_suffix("")` is the stem, and, cut from a name, it has no separator:
   * it names an entry of the same directory, or `.`/`..`.
   */
  lemma DropSuffix(name: Name)
    ensures WithSuffix(name, "") == Stem(name)
    ensures '/' !in Stem(name) && Stem(name) != ""
  {
    StemAndSuffix(name);
    var i := RFindDot(name);
    if 0 < i < |name| - 1 {
      assert Stem(name) == name[..i];
      assert forall k :: 0 <= k < i ==> name[..i][k] == name[k];
    }
  }

  // ----- `_copyN` names -----

  function DigitChar(d: nat): char
    requires d < 10
  {
    "0123456789"[d]
  }

  /** Python's `str(n)` for a natural number. */
  function Decimal(n: nat): (s: string)
    ensures 1 <= |s|
    ensures n < 10 <==> |s| == 1
    decreases n
  {
    if n < 10 then [DigitChar(n)] else Decimal(n / 10) + [DigitChar(n % 10)]
  }

  lemma {:induction false} DecimalInjective(a: nat, b: nat)
    requires Decimal(a) == Decimal(b)
    ensures a == b
    decreases a
  {
    if a < 10 {
      assert DigitChar(a) == Decimal(a)[0] == DigitChar(b);
    } else {
      var da, db := Decimal(a), Decimal(b);
      assert da[|da| - 1] == DigitChar(a % 10) && db[|db| - 1] == DigitChar(b % 10);
      assert a % 10 == b % 10;
      assert da[..|da| - 1] == Decimal(a / 10) && db[..|db| - 1] == Decimal(b / 10);
      DecimalInjective(a / 10, b / 10);
    }
  }

  lemma {:induction false} DecimalHasNoSlash(n: nat)
    ensures '/' !in Decimal(n)
    decreases n
  {
    if n >= 10 {
      DecimalHasNoSlash(n / 10);
    }
  }

  /** The `counter`-th candidate folder name: the stem itself, then `<stem>_copy1`, `<stem>_copy2`, ... */
  function CopyName(stem: string, k: nat): string {
    if k == 0 then stem else stem + "_copy" + Decimal(k)
  }

  /** `f"{stem}_copy{counter}"` is a valid entry name whatever the stem. */
  lemma CopyNameIsName(stem: string, k: nat)
    requires '/' !in stem && 1 <= k
    ensures IsName(CopyName(stem, k))
  {
    DecimalHasNoSlash(k);
    assert '/' !in "_copy";
  }

  /** Different counters never give the same candidate name. */
  lemma {:induction false} CopyNamesDistinct(stem: string, i: nat, j: nat)
    requires i != j
    ensures CopyName(stem, i) != CopyName(stem, j)
  {
    if i != 0 && j != 0 && CopyName(stem, i) == CopyName(stem, j) {
      var p := stem + "_copy";
      assert CopyName(stem, i)[|p|..] == Decimal(i);
      assert CopyName(stem, j)[|p|..] == Decimal(j);
      DecimalInjective(i, j);
    }
  }
}
