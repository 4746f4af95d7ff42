/**
 * How the converter builds the list of files to convert: the JPEG paths among
 * those picked in the file dialog (`pick_files`), or the JPEG files directly
 * inside a picked folder, sorted (`collect_jpgs_from_folder`, `pick_folder`).
 *
 * The directory listing (`os.listdir`) and the regular-file test
 * (`os.path.isfile`) are inputs: `names` is the listing and `regular` the set
 * of paths that are regular files.
 */
module Selection {
  import opened Paths
  import opened Lexicographic
  import opened Seqs

  /** Every selected path is a JPEG path. */
  ghost predicate AllJpg(s: seq<Path>)
  {
    forall i :: 0 <= i < |s| ==> IsJpg(s[i])
  }

  /**
   * The list comprehension of `pick_files`: the paths that pass `is_jpg`, in
   * the order given. Its result is an in-order subsequence of the input that
   * keeps every occurrence of a JPEG path and nothing else.
   */
  function FilterJpg(paths: seq<Path>): (r: seq<Path>)
    ensures AllJpg(r)
    ensures forall p :: multiset(r)[p] == (if IsJpg(p) then multiset(paths)[p] else 0)
    ensures IsSubsequence(r, paths)
  {
    FilterCounts(IsJpg, paths);
    FilterIsSubsequence(IsJpg, paths);
    Filter(IsJpg, paths)
  }

  /**
   * `pick_files`: a cancelled dialog (no paths) keeps the current selection;
   * otherwise the selection becomes the picked JPEG paths in picking order,
   * possibly none.
   */
  function PickFiles(current: seq<Path>, chosen: seq<Path>): (selection: seq<Path>)
    ensures |chosen| == 0 ==> selection == current
    ensures |chosen| > 0 ==> IsSubsequence(selection, chosen)
    ensures |chosen| > 0 ==> forall p :: multiset(selection)[p] == (if IsJpg(p) then multiset(chosen)[p] else 0)
  {
    if |chosen| == 0 then current else FilterJpg(chosen)
  }

  /** The entry test of `collect_jpgs_from_folder`: a regular file with a JPEG path. */
  predicate IsJpgFile(p: Path, regular: set<Path>)
  {
    p in regular && IsJpg(p)
  }

  /** The entry test as a function value, for filtering. */
  function KeepIn(regular: set<Path>): Path -> bool
  {
    p => IsJpgFile(p, regular)
  }

  /** Each entry of the listing joined onto the folder, in listing order. */
  function Joined(folder: Path, names: seq<string>): (r: seq<Path>)
    ensures |r| == |names|
  {
    seq(|names|, k requires 0 <= k < |names| => Join(folder, names[k]))
  }

  /** The joined entries of a listing that are regular files and JPEG paths, in listing order. */
  function JpgEntries(folder: Path, names: seq<string>, regular: set<Path>): (files: seq<Path>)
    ensures |files| <= |names|
    ensures forall i :: 0 <= i < |files| ==> IsJpgFile(files[i], regular)
  {
    Filter(KeepIn(regular), Joined(folder, names))
  }

  /** A path is among the listing's JPEG entries exactly when it is a joined entry that is a regular JPEG file. */
  lemma JpgEntriesMembers(folder: Path, names: seq<string>, regular: set<Path>, p: Path)
    ensures p in JpgEntries(folder, names, regular) <==> IsJpgFile(p, regular) && p in Joined(folder, names)
  {
    var joined := Joined(folder, names);
    var r := JpgEntries(folder, names, regular);
    FilterCounts(KeepIn(regular), joined);
    assert p in r <==> multiset(r)[p] > 0;
    assert p in joined <==> multiset(joined)[p] > 0;
    assert KeepIn(regular)(p) == IsJpgFile(p, regular);
  }

  /** Listing one more entry appends that entry's joined path. */
  lemma JoinedSnoc(folder: Path, names: seq<string>, i: int)
    requires 0 <= i < |names|
    ensures Joined(folder, names[..i + 1]) == Joined(folder, names[..i]) + [Join(folder, names[i])]
  {
  }

  /** Listing one more entry extends the JPEG entries by that entry when it is a regular JPEG file. */
  lemma JpgEntriesSnoc(folder: Path, names: seq<string>, regular: set<Path>, i: int)
    requires 0 <= i < |names|
    ensures JpgEntries(folder, names[..i + 1], regular)
      == JpgEntries(folder, names[..i], regular)
         + (if KeepIn(regular)(Join(folder, names[i])) then [Join(folder, names[i])] else [])
  {
    var p := Join(folder, names[i]);
    JoinedSnoc(folder, names, i);
    FilterAppend(KeepIn(regular), Joined(folder, names[..i]), [p]);
    FilterSingleton(KeepIn(regular), p);
  }

  /** Any arrangement of the JPEG entries holds exactly the listed regular JPEG files. */
  lemma ArrangedEntries(folder: Path, names: seq<string>, regular: set<Path>, files: seq<Path>)
    requires multiset(files) == multiset(JpgEntries(folder, names, regular))
    ensures AllJpg(files)
    ensures forall p :: p in files <==> IsJpgFile(p, regular) && p in Joined(folder, names)
  {
    forall p ensures p in files <==> IsJpgFile(p, regular) && p in Joined(folder, names) {
      assert p in files <==> p in multiset(files);
      JpgEntriesMembers(folder, names, regular, p);
    }
    forall i | 0 <= i < |files| ensures IsJpg(files[i]) {
      assert files[i] in files;
    }
  }

  /**
   * `collect_jpgs_from_folder`: walks the listing, keeps each joined entry
   * that is a regular file and a JPEG path, then sorts. The result is the one
   * ascending arrangement of exactly those entries.
   */
  method CollectJpgsFromFolder(folder: Path, names: seq<string>, regular: set<Path>) returns (files: seq<Path>)
    ensures Sorted(files)
    ensures multiset(files) == multiset(JpgEntries(folder, names, regular))
    ensures AllJpg(files)
    ensures forall p :: p in files <==> IsJpgFile(p, regular) && p in Joined(folder, names)
  {
    files := [];
    for i := 0 to |names|
      invariant files == JpgEntries(folder, names[..i], regular)
    {
      var p := Join(folder, names[i]);
      JpgEntriesSnoc(folder, names, regular, i);
      assert KeepIn(regular)(p) == IsJpgFile(p, regular);
      if IsJpgFile(p, regular) {
        files := files + [p];
      }
    }
    assert names[..|names|] == names;
    files := Sort(files);
    ArrangedEntries(folder, names, regular, files);
  }

  /**
   * `pick_folder`: a cancelled folder dialog (empty folder path) keeps the
   * current selection; otherwise the selection becomes the folder's sorted
   * JPEG files.
   */
  method PickFolder(current: seq<Path>, folder: Path, names: seq<string>, regular: set<Path>)
    returns (selection: seq<Path>)
    ensures |folder| == 0 ==> selection == current
    ensures |folder| > 0 ==> Sorted(selection) && AllJpg(selection)
    ensures |folder| > 0 ==> multiset(selection) == multiset(JpgEntries(folder, names, regular))
  {
    if |folder| == 0 {
      selection := current;
    } else {
      selection := CollectJpgsFromFolder(folder, names, regular);
    }
  }
}
