/**
 * POSIX path helpers as the converter uses them (Python's posixpath), and the
 * JPEG path classifier `is_jpg` built on them.
 *
 * Paths are strings; '/' is the only separator and '.' the extension separator.
 */
module Paths {

  type Path = string

  const Sep: char := '/'
  const ExtSep: char := '.'

  /** The extensions the classifier accepts, after lowercasing. */
  const JpgExtensions: set<string> := {".jpg", ".jpeg"}

  /** Index of the last occurrence of `c` in `s`, or -1 when there is none (Python's `str.rfind`). */
  function RFind(s: string, c: char): (r: int)
    ensures -1 <= r < |s|
    ensures r >= 0 ==> s[r] == c
    ensures forall k :: r < k < |s| ==> s[k] != c
  {
    if |s| == 0 then -1
    else if s[|s| - 1] == c then |s| - 1
    else RFind(s[..|s| - 1], c)
  }

  /** The three properties of `RFind` determine it: any index that has them is its result. */
  lemma RFindUnique(s: string, c: char, r: int)
    requires -1 <= r < |s|
    requires r >= 0 ==> s[r] == c
    requires forall k :: r < k < |s| ==> s[k] != c
    ensures RFind(s, c) == r
  {
  }

  /** Some character of `p[lo..hi]` is not a dot. */
  predicate HasStemChar(p: Path, lo: int, hi: int)
    requires 0 <= lo <= hi <= |p|
  {
    exists k :: lo <= k < hi && p[k] != ExtSep
  }

  /**
   * The extension part of `os.path.splitext(p)`: the suffix that starts at the
   * last '.' of the final path component, unless that component holds only
   * dots before it (a leading dot marks a hidden file, not an extension).
   * The whole of `p` ends with it, so `splitext`'s root is the rest.
   */
  function Extension(p: Path): (e: Path)
    ensures |e| <= |p| && p[|p| - |e|..] == e
    ensures |e| == 0 || e[0] == ExtSep
  {
    var sepIndex := RFind(p, Sep);
    var dotIndex := RFind(p, ExtSep);
    if sepIndex < dotIndex && HasStemChar(p, sepIndex + 1, dotIndex) then p[dotIndex..] else []
  }

  /** Some character before position `i`, in the same path component, is neither a dot nor a separator. */
  ghost predicate HasStemBefore(p: Path, i: int)
    requires 0 <= i <= |p|
  {
    exists k :: 0 <= k < i && p[k] != ExtSep && p[k] != Sep && NoSepBetween(p, k, i)
  }

  /** No separator strictly between positions `k` and `i`. */
  ghost predicate NoSepBetween(p: Path, k: int, i: int)
    requires 0 <= k <= i <= |p|
  {
    forall j :: k < j < i ==> p[j] != Sep
  }

  /**
   * Declarative reading of an extension: position `i` holds a dot, nothing
   * after it is a dot or a separator, and some character before it in the same
   * path component is neither a dot nor a separator.
   */
  ghost predicate IsExtensionAt(p: Path, i: int)
  {
    && 0 <= i < |p|
    && p[i] == ExtSep
    && (forall k :: i < k < |p| ==> p[k] != ExtSep && p[k] != Sep)
    && HasStemBefore(p, i)
  }

  /** A non-empty extension starts at a position that satisfies the declarative reading. */
  lemma ExtensionStartsAtExtensionPosition(p: Path)
    requires Extension(p) != []
    ensures IsExtensionAt(p, RFind(p, ExtSep))
  {
    var sepIndex := RFind(p, Sep);
    var dotIndex := RFind(p, ExtSep);
    assert sepIndex < dotIndex && HasStemChar(p, sepIndex + 1, dotIndex);
    var k :| sepIndex + 1 <= k < dotIndex && p[k] != ExtSep;
    assert p[k] != Sep && NoSepBetween(p, k, dotIndex);
  }

  /** A position that satisfies the declarative reading is where `Extension` starts. */
  lemma ExtensionPositionIsExtension(p: Path, i: int)
    requires IsExtensionAt(p, i)
    ensures Extension(p) == p[i..]
  {
    var sepIndex := RFind(p, Sep);
    RFindUnique(p, ExtSep, i);
    assert sepIndex < i;
    var k :| 0 <= k < i && p[k] != ExtSep && p[k] != Sep && NoSepBetween(p, k, i);
    assert sepIndex < k;
    assert HasStemChar(p, sepIndex + 1, i);
  }

  /** `Extension` is non-empty exactly when some position starts an extension, and then it is the suffix from there. */
  lemma ExtensionCharacterized(p: Path)
    ensures Extension(p) != [] <==> exists i :: IsExtensionAt(p, i)
    ensures forall i :: IsExtensionAt(p, i) ==> Extension(p) == p[i..]
  {
    if Extension(p) != [] {
      ExtensionStartsAtExtensionPosition(p);
    }
    forall i | IsExtensionAt(p, i)
      ensures Extension(p) == p[i..]
    {
      ExtensionPositionIsExtension(p, i);
    }
  }

  /** The final path component, `os.path.basename(p)`: everything after the last separator. */
  function Basename(p: Path): (b: Path)
    ensures |b| <= |p| && p[|p| - |b|..] == b
  {
    p[RFind(p, Sep) + 1..]
  }

  /** The basename is the suffix after the last separator: it holds no separator and follows one or starts the path. */
  lemma BasenameIsFinalComponent(p: Path)
    ensures |Basename(p)| <= |p| && p[|p| - |Basename(p)|..] == Basename(p)
    ensures forall k :: 0 <= k < |Basename(p)| ==> Basename(p)[k] != Sep
    ensures |Basename(p)| == |p| || p[|p| - |Basename(p)| - 1] == Sep
  {
  }

  /** `os.path.join(a, b)` for two arguments on POSIX. */
  function Join(a: Path, b: Path): (r: Path)
    ensures |b| > 0 && b[0] == Sep ==> r == b
    ensures !(|b| > 0 && b[0] == Sep) ==> |a| + |b| <= |r| <= |a| + |b| + 1 && r[..|a|] == a && r[|r| - |b|..] == b
    ensures !(|b| > 0 && b[0] == Sep) && |a| > 0 ==> r[|r| - |b| - 1] == Sep
    ensures !(|b| > 0 && b[0] == Sep) ==> (|r| == |a| + |b| <==> |a| == 0 || a[|a| - 1] == Sep)
  {
    if |b| > 0 && b[0] == Sep then b
    else if |a| == 0 || a[|a| - 1] == Sep then a + b
    else a + [Sep] + b
  }

  /** Joining a directory with a plain entry name (no separator in it) gives back that name as the basename. */
  lemma JoinBasename(folder: Path, name: Path)
    requires forall k :: 0 <= k < |name| ==> name[k] != Sep
    ensures Basename(Join(folder, name)) == name
  {
    var p := Join(folder, name);
    var off := |p| - |name|;
    assert p[off..] == name;
    if off == 0 {
      RFindUnique(p, Sep, -1);
    } else {
      assert p[off - 1] == Sep;
      RFindUnique(p, Sep, off - 1);
    }
  }

  /** Searching a suffix finds the same occurrence, shifted, or none if it lies before the suffix. */
  lemma RFindInSuffix(p: string, off: int, c: char)
    requires 0 <= off <= |p|
    ensures RFind(p[off..], c) == if RFind(p, c) >= off then RFind(p, c) - off else -1
  {
    var r := RFind(p, c);
    var s := p[off..];
    var r' := if r >= off then r - off else -1;
    forall k | r' < k < |s| ensures s[k] != c {
      assert s[k] == p[k + off];
    }
    RFindUnique(s, c, r');
  }

  /** Looking for a stem character in a suffix is looking in the same place of the whole. */
  lemma HasStemCharInSuffix(p: Path, off: int, hi: int)
    requires 0 <= off <= hi <= |p|
    ensures HasStemChar(p[off..], 0, hi - off) <==> HasStemChar(p, off, hi)
  {
    var s := p[off..];
    if HasStemChar(p, off, hi) {
      var k :| off <= k < hi && p[k] != ExtSep;
      assert s[k - off] == p[k];
    }
    if HasStemChar(s, 0, hi - off) {
      var k :| 0 <= k < hi - off && s[k] != ExtSep;
      assert p[k + off] == s[k];
    }
  }

  /** The extension depends only on the final path component. */
  lemma ExtensionOfBasename(p: Path)
    ensures Extension(Basename(p)) == Extension(p)
  {
    var sepIndex := RFind(p, Sep);
    var dotIndex := RFind(p, ExtSep);
    var off := sepIndex + 1;
    var b := Basename(p);
    assert b == p[off..];
    RFindInSuffix(p, off, Sep);
    RFindInSuffix(p, off, ExtSep);
    if sepIndex < dotIndex {
      HasStemCharInSuffix(p, off, dotIndex);
      assert b[dotIndex - off..] == p[dotIndex..];
    }
  }

  /** ASCII lowercasing of one character; every other character is left as it is. */
  function LowerChar(c: char): char
  {
    if 'A' <= c <= 'Z' then (c as int - 'A' as int + 'a' as int) as char else c
  }

  /** Python's `str.lower`, restricted to ASCII letters (see README). */
  function Lower(s: string): (r: string)
    ensures |r| == |s|
  {
    seq(|s|, i requires 0 <= i < |s| => LowerChar(s[i]))
  }

  /** `is_jpg`: the lowercased extension is ".jpg" or ".jpeg". */
  predicate IsJpg(p: Path)
    ensures IsJpg(p) ==> |Extension(p)| == 4 || |Extension(p)| == 5
  {
    Lower(Extension(p)) in JpgExtensions
  }

  /** Lowercasing never creates or removes a dot or a separator. */
  lemma LowerKeepsSeparators(c: char)
    ensures LowerChar(c) == ExtSep <==> c == ExtSep
    ensures LowerChar(c) == Sep <==> c == Sep
  {
  }

  /** A position starts an extension of a path exactly when it starts one of its lowercase form. */
  lemma IsExtensionAtLower(p: Path, i: int)
    ensures IsExtensionAt(Lower(p), i) <==> IsExtensionAt(p, i)
  {
    var q := Lower(p);
    forall k | 0 <= k < |p| ensures (q[k] == ExtSep <==> p[k] == ExtSep) && (q[k] == Sep <==> p[k] == Sep) {
      LowerKeepsSeparators(p[k]);
    }
    if IsExtensionAt(p, i) {
      var k :| 0 <= k < i && p[k] != ExtSep && p[k] != Sep && NoSepBetween(p, k, i);
      assert q[k] != ExtSep && q[k] != Sep && NoSepBetween(q, k, i);
    }
    if IsExtensionAt(q, i) {
      var k :| 0 <= k < i && q[k] != ExtSep && q[k] != Sep && NoSepBetween(q, k, i);
      assert p[k] != ExtSep && p[k] != Sep && NoSepBetween(p, k, i);
    }
  }

  /** Lowercasing a path lowercases its extension: the split does not depend on letter case. */
  lemma ExtensionOfLower(p: Path)
    ensures Extension(Lower(p)) == Lower(Extension(p))
  {
    var q := Lower(p);
    if Extension(p) != [] {
      var i := RFind(p, ExtSep);
      ExtensionStartsAtExtensionPosition(p);
      IsExtensionAtLower(p, i);
      ExtensionPositionIsExtension(p, i);
      ExtensionPositionIsExtension(q, i);
      assert q[i..] == Lower(p[i..]);
    } else if Extension(q) != [] {
      var j := RFind(q, ExtSep);
      ExtensionStartsAtExtensionPosition(q);
      IsExtensionAtLower(p, j);
      ExtensionPositionIsExtension(p, j);
      assert false;
    }
  }

  /** `is_jpg` ignores letter case: a path and its lowercase form are classified alike. */
  lemma IsJpgOfLower(p: Path)
    ensures IsJpg(Lower(p)) <==> IsJpg(p)
  {
    ExtensionOfLower(p);
    var e := Extension(p);
    assert Lower(Lower(e)) == Lower(e);
  }

  /** Two paths that differ only in letter case get the same answer from `is_jpg`. */
  lemma IsJpgCaseInsensitive(p: Path, q: Path)
    requires Lower(p) == Lower(q)
    ensures IsJpg(p) <==> IsJpg(q)
  {
    IsJpgOfLower(p);
    IsJpgOfLower(q);
  }

  /** A directory entry joined onto its folder is a JPEG path exactly when the entry name is. */
  lemma IsJpgOfJoin(folder: Path, name: Path)
    requires forall k :: 0 <= k < |name| ==> name[k] != Sep
    ensures IsJpg(Join(folder, name)) <==> IsJpg(name)
  {
    JoinBasename(folder, name);
    ExtensionOfBasename(Join(folder, name));
    ExtensionOfBasename(name);
    RFindUnique(name, Sep, -1);
  }

  /** A dot with a proper stem before it and no dot or separator after it starts the extension. */
  lemma ExtensionFrom(p: Path, i: int, k: int)
    requires 0 <= k < i < |p| && p[i] == ExtSep
    requires forall j :: i < j < |p| ==> p[j] != ExtSep && p[j] != Sep
    requires p[k] != ExtSep && p[k] != Sep && forall j :: k < j < i ==> p[j] != Sep
    ensures Extension(p) == p[i..]
  {
    assert NoSepBetween(p, k, i);
    ExtensionPositionIsExtension(p, i);
  }

  /** The four spellings of the JPEG extensions lowercase to the accepted ones. */
  lemma LowerJpegSpellings()
    ensures Lower(".jpg") == ".jpg" && Lower(".JPG") == ".jpg"
    ensures Lower(".jpeg") == ".jpeg" && Lower(".JPEG") == ".jpeg"
  {
    assert Lower(".jpg") == [LowerChar('.'), LowerChar('j'), LowerChar('p'), LowerChar('g')];
    assert Lower(".jpeg") == [LowerChar('.'), LowerChar('j'), LowerChar('p'), LowerChar('e'), LowerChar('g')];
    assert Lower(".JPG") == [LowerChar('.'), LowerChar('J'), LowerChar('P'), LowerChar('G')];
    assert Lower(".JPEG") == [LowerChar('.'), LowerChar('J'), LowerChar('P'), LowerChar('E'), LowerChar('G')];
  }

  /** JPEG names pass the classifier whatever the letter case of their extension. */
  lemma IsJpgAcceptsJpegNames()
    ensures IsJpg("a.jpg") && IsJpg("a.jpeg") && IsJpg("a.JPG") && IsJpg("a.JPEG")
  {
    ExtensionFrom("a.jpg", 1, 0);
    ExtensionFrom("a.jpeg", 1, 0);
    ExtensionFrom("a.JPG", 1, 0);
    ExtensionFrom("a.JPEG", 1, 0);
    LowerJpegSpellings();
  }

  /** A hidden file's extension counts once the name has a stem after the leading dot. */
  lemma IsJpgAcceptsHiddenWithStem()
    ensures IsJpg("dir/.x.Jpg")
  {
    ExtensionFrom("dir/.x.Jpg", 6, 5);
    assert Lower(".Jpg") == [LowerChar('.'), LowerChar('J'), LowerChar('p'), LowerChar('g')] == ".jpg";
  }

  /** Another extension, or a JPEG extension that is not the last one, fails the classifier. */
  lemma IsJpgRejectsOtherExtension()
    ensures !IsJpg("a.png") && !IsJpg("a.jpg.txt")
  {
    ExtensionFrom("a.png", 1, 0);
    assert Lower(".png")[1] == 'p';
    ExtensionFrom("a.jpg.txt", 5, 4);
    assert Lower(".txt")[1] == 't';
  }

  /**
   * A name without a dot, a hidden file named like an extension and a
   * JPEG-named directory in the middle of the path have no extension, so they
   * fail the classifier.
   */
  lemma IsJpgRejectsNoExtension()
    ensures !IsJpg("a") && !IsJpg(".jpg") && !IsJpg("..jpg") && !IsJpg("dir.jpg/x")
  {
    RFindUnique("a", ExtSep, -1);
    RFindUnique(".jpg", Sep, -1);
    RFindUnique(".jpg", ExtSep, 0);
    RFindUnique("..jpg", Sep, -1);
    RFindUnique("..jpg", ExtSep, 1);
    RFindUnique("dir.jpg/x", Sep, 7);
    RFindUnique("dir.jpg/x", ExtSep, 3);
  }
}
