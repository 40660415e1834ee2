/** The remote file explorer: joining a child name onto the current path,
    going up one level, shaping a `readdir` result into the table shown
    (hidden `.`/`..`, directories first), and recognising image files and
    their MIME types for the preview. The sync connection itself is left out:
    a `readdir` call is represented by its result. */
module Explorer {
  import opened Strings
  import Sorting

  /** The directory the explorer opens on, and the target of the Home button. */
  const HomePath: string := "/sdcard"

  /** A directory entry name as `readdir` reports it: non-empty, no slash. */
  predicate ValidName(n: string) {
    |n| > 0 && '/' !in n
  }

  // ---------------------------------------------------------------------------
  // Paths
  // ---------------------------------------------------------------------------

  /** `.filter(Boolean)` on the pieces of a split path. */
  function NonEmpty(parts: seq<string>): (r: seq<string>)
    ensures forall k :: 0 <= k < |r| ==> |r[k]| > 0 && r[k] in parts
    decreases |parts|
  {
    if |parts| == 0 then []
    else (if |parts[0]| > 0 then [parts[0]] else []) + NonEmpty(parts[1..])
  }

  lemma {:induction false} NonEmptyAppend(a: seq<string>, b: seq<string>)
    ensures NonEmpty(a + b) == NonEmpty(a) + NonEmpty(b)
    decreases |a|
  {
    if |a| > 0 {
      var head := if |a[0]| > 0 then [a[0]] else [];
      assert (a + b)[0] == a[0] && (a + b)[1..] == a[1..] + b;
      assert NonEmpty(a + b) == head + NonEmpty(a[1..] + b);
      NonEmptyAppend(a[1..], b);
    } else {
      assert a + b == b;
    }
  }

  lemma {:induction false} NonEmptyKeepsNonEmpty(parts: seq<string>)
    requires forall k :: 0 <= k < |parts| ==> |parts[k]| > 0
    ensures NonEmpty(parts) == parts
    decreases |parts|
  {
    if |parts| > 0 {
      NonEmptyKeepsNonEmpty(parts[1..]);
      assert parts == [parts[0]] + parts[1..];
    }
  }

  /** The non-empty segments of a path, as `path.split('/').filter(Boolean)`. */
  function Segments(path: string): (segs: seq<string>)
    ensures forall k :: 0 <= k < |segs| ==> ValidName(segs[k])
  {
    NonEmpty(Split(path, '/'))
  }

  /** `'/' + parts.join('/')`. */
  function Render(segs: seq<string>): string {
    "/" + Join(segs, '/')
  }

  /** A path in canonical form: a leading slash followed by its non-empty
      segments separated by single slashes (no trailing or doubled slash). */
  predicate Canonical(path: string) {
    path == Render(Segments(path))
  }

  /** `parts.pop()` as a value: the array without its last element, and the
      empty array left as it is. */
  function DropLast(segs: seq<string>): (r: seq<string>)
    ensures |segs| > 0 ==> |r| == |segs| - 1 && segs == r + [segs[|segs| - 1]]
    ensures |segs| == 0 ==> r == []
  {
    if |segs| == 0 then [] else segs[..|segs| - 1]
  }

  lemma {:induction false} JoinSnoc(parts: seq<string>, sep: char, x: string)
    requires |parts| >= 1
    ensures Join(parts + [x], sep) == Join(parts, sep) + [sep] + x
    decreases |parts|
  {
    if |parts| > 1 {
      assert (parts + [x])[1..] == parts[1..] + [x];
      JoinSnoc(parts[1..], sep, x);
    }
  }

  /** Rendering valid segments and reading the segments back is the identity,
      and the rendered path is canonical. */
  lemma RenderSegments(segs: seq<string>)
    requires forall k :: 0 <= k < |segs| ==> ValidName(segs[k])
    ensures Segments(Render(segs)) == segs
    ensures Canonical(Render(segs))
  {
    var p := Render(segs);
    if |segs| == 0 {
      assert p == "" + ['/'] + "";
      SplitAppend("", '/', "");
      assert Split("", '/') == [""];
    } else {
      assert p == "" + ['/'] + Join(segs, '/');
      SplitAppend("", '/', Join(segs, '/'));
      SplitJoin(segs, '/');
      NonEmptyAppend([""], segs);
      NonEmptyKeepsNonEmpty(segs);
    }
  }

  /** The path of `name` inside `path`, as `navigateTo`, `getFileBlob` and
      `uploadFile` build it: `/name` under the root, `path/name` elsewhere.
      It adds `name` as one more segment. */
  function ChildPath(path: string, name: string): (r: string)
    ensures ValidName(name) ==> Segments(r) == Segments(path) + [name]
  {
    var r := if path == "/" then "/" + name else path + "/" + name;
    if ValidName(name) then
      SplitNoSep(name, '/');
      if path == "/" then
        assert r == "" + ['/'] + name;
        SplitAppend("", '/', name);
        RenderSegments([]);
        assert Render([]) == "/";
        NonEmptyAppend([""], [name]);
        assert NonEmpty([""]) == [] && NonEmpty([name]) == [name];
        r
      else
        SplitAppend(path, '/', name);
        NonEmptyAppend(Split(path, '/'), [name]);
        r
    else r
  }

  /** The target of `navigateUp` from a path other than `/`: the path's
      segments without the last one, rendered with a leading slash. */
  function ParentPath(path: string): (r: string)
    ensures StartsWith(r, "/")
    ensures Segments(r) == DropLast(Segments(path))
    ensures Canonical(r)
  {
    var segs := DropLast(Segments(path));
    RenderSegments(segs);
    Render(segs)
  }

  /** Going into a child directory and back up returns to a canonical path. */
  lemma UpAfterDown(path: string, name: string)
    requires Canonical(path)
    requires ValidName(name)
    ensures ParentPath(ChildPath(path, name)) == path
  {
    assert DropLast(Segments(path) + [name]) == Segments(path);
  }

  /** A child of a canonical path is canonical. */
  lemma ChildCanonical(path: string, name: string)
    requires Canonical(path)
    requires ValidName(name)
    ensures Canonical(ChildPath(path, name))
  {
    var segs := Segments(path);
    if path == "/" {
      assert Render([name]) == "/" + name;
    } else {
      assert |segs| >= 1;
      JoinSnoc(segs, '/', name);
    }
  }

  lemma HomeCanonical()
    ensures Canonical(HomePath)
  {
    SplitNoSep("sdcard", '/');
    RenderSegments(["sdcard"]);
    assert Render(["sdcard"]) == HomePath;
  }

  // ---------------------------------------------------------------------------
  // Listing
  // ---------------------------------------------------------------------------

  /** An entry as `readdir` returns it; `mode` is the unsigned 32-bit file mode. */
  datatype DirEntry = DirEntry(name: string, mode: nat, size: nat, mtime: int)

  /** A row of the file table. */
  datatype FileEntry = FileEntry(name: string, isDirectory: bool, size: nat, mtime: int)

  /** Bit 14 (`0x4000`, S_IFDIR) of the mode is set. */
  predicate IsDirectoryMode(mode: nat) {
    (mode / 0x4000) % 2 == 1
  }

  /** On a 32-bit mode the test is `(mode & 0x4000) !== 0`. */
  lemma DirectoryModeIsBit(mode: nat)
    requires mode < 0x1_0000_0000
    ensures IsDirectoryMode(mode) <==> (mode as bv32) & 0x4000 != 0
  {
  }

  /** The test on typical modes: a directory (0o040755) and a regular file
      (0o100644) are told apart, a symbolic link (0o120777) counts as a file,
      and a block device (0o060660) or a socket (0o140777), whose type bits
      also include 0x4000, count as directories. */
  lemma DirectoryModeExamples()
    ensures IsDirectoryMode(0x41ED) && !IsDirectoryMode(0x81A4)
    ensures !IsDirectoryMode(0xA1FF)
    ensures IsDirectoryMode(0x61B0) && IsDirectoryMode(0xC1FF)
  {
  }

  predicate Shown(e: DirEntry) {
    e.name != "." && e.name != ".."
  }

  /** The row for an entry: its name, size and time, and the directory bit. */
  function ToFileEntry(e: DirEntry): (f: FileEntry)
    ensures f.name == e.name && f.size == e.size && f.mtime == e.mtime
    ensures f.isDirectory <==> IsDirectoryMode(e.mode)
  {
    FileEntry(e.name, IsDirectoryMode(e.mode), e.size, e.mtime)
  }

  /** `.filter(e => e.name !== '.' && e.name !== '..').map(...)`. */
  function Rows(entries: seq<DirEntry>): (r: seq<FileEntry>)
    ensures |r| <= |entries|
    ensures forall k :: 0 <= k < |r| ==> r[k].name != "." && r[k].name != ".."
    decreases |entries|
  {
    if |entries| == 0 then []
    else
      (if Shown(entries[0]) then [ToFileEntry(entries[0])] else []) + Rows(entries[1..])
  }

  /** A single entry gives its row when shown and nothing otherwise. */
  lemma RowsSingle(e: DirEntry)
    ensures Rows([e]) == if Shown(e) then [ToFileEntry(e)] else []
  {
    assert [e][1..] == [];
  }

  /** The rows of two runs of entries are the rows of the first followed by
      the rows of the second; with `RowsSingle` this fixes one row per shown
      entry, in the entries' order. */
  lemma {:induction false} RowsAppend(a: seq<DirEntry>, b: seq<DirEntry>)
    ensures Rows(a + b) == Rows(a) + Rows(b)
    decreases |a|
  {
    if |a| == 0 {
      assert a + b == b;
    } else {
      assert (a + b)[0] == a[0] && (a + b)[1..] == a[1..] + b;
      RowsAppend(a[1..], b);
    }
  }

  /** A row `f` appears among the rows exactly when some shown entry maps to it. */
  lemma {:induction false} RowsMembership(entries: seq<DirEntry>, f: FileEntry)
    ensures f in Rows(entries) <==>
      exists k :: 0 <= k < |entries| && Shown(entries[k]) && ToFileEntry(entries[k]) == f
    decreases |entries|
  {
    if |entries| > 0 {
      RowsMembership(entries[1..], f);
      if f in Rows(entries[1..]) {
        var k :| 0 <= k < |entries[1..]| && Shown(entries[1..][k]) && ToFileEntry(entries[1..][k]) == f;
        assert entries[1..][k] == entries[k + 1];
      }
      forall k | 1 <= k < |entries| && Shown(entries[k]) && ToFileEntry(entries[k]) == f
        ensures f in Rows(entries[1..])
      {
        assert entries[1..][k - 1] == entries[k];
      }
    }
  }

  /** The comparator of the listing as written: rows of the same kind compare
      a name with itself, which is always 0; otherwise directories come first. */
  function CompareRows(a: FileEntry, b: FileEntry): int {
    if a.isDirectory == b.isDirectory then 0
    else if a.isDirectory then -1
    else 1
  }

  /** The comparator puts a directory before a file, a file after a
      directory, and calls any two rows of the same kind equal, whatever
      their names. */
  lemma CompareRowsSign(a: FileEntry, b: FileEntry)
    ensures CompareRows(a, b) < 0 <==> a.isDirectory && !b.isDirectory
    ensures CompareRows(a, b) > 0 <==> !a.isDirectory && b.isDirectory
    ensures CompareRows(a, b) == 0 <==> a.isDirectory == b.isDirectory
    ensures CompareRows(a, b) == -CompareRows(b, a)
  {
  }

  /** The "not after" relation the comparator induces, as the sort uses it. */
  predicate NotAfter(a: FileEntry, b: FileEntry) {
    CompareRows(a, b) <= 0
  }

  /** The comparator orders rows as a total preorder: by kind alone. */
  lemma NotAfterIsTotalPreorder()
    ensures Sorting.TotalPreorder(NotAfter)
  {
  }

  function Dirs(fs: seq<FileEntry>): (r: seq<FileEntry>)
    ensures forall k :: 0 <= k < |r| ==> r[k].isDirectory
    decreases |fs|
  {
    if |fs| == 0 then []
    else (if fs[0].isDirectory then [fs[0]] else []) + Dirs(fs[1..])
  }

  function Files(fs: seq<FileEntry>): (r: seq<FileEntry>)
    ensures forall k :: 0 <= k < |r| ==> !r[k].isDirectory
    decreases |fs|
  {
    if |fs| == 0 then []
    else (if fs[0].isDirectory then [] else [fs[0]]) + Files(fs[1..])
  }

  lemma {:induction false} DirsFilesAppend(a: seq<FileEntry>, b: seq<FileEntry>)
    ensures Dirs(a + b) == Dirs(a) + Dirs(b)
    ensures Files(a + b) == Files(a) + Files(b)
    decreases |a|
  {
    if |a| > 0 {
      assert (a + b)[0] == a[0] && (a + b)[1..] == a[1..] + b;
      var dh := if a[0].isDirectory then [a[0]] else [];
      var fh := if a[0].isDirectory then [] else [a[0]];
      assert Dirs(a + b) == dh + Dirs(a[1..] + b);
      assert Files(a + b) == fh + Files(a[1..] + b);
      DirsFilesAppend(a[1..], b);
    } else {
      assert a + b == b;
    }
  }

  lemma {:induction false} DirsFilesOfUniform(fs: seq<FileEntry>, dir: bool)
    requires forall k :: 0 <= k < |fs| ==> fs[k].isDirectory == dir
    ensures dir ==> Dirs(fs) == fs && Files(fs) == []
    ensures !dir ==> Dirs(fs) == [] && Files(fs) == fs
    decreases |fs|
  {
    if |fs| > 0 {
      DirsFilesOfUniform(fs[1..], dir);
      assert fs == [fs[0]] + fs[1..];
    }
  }

  /** Splitting by kind loses and invents nothing. */
  lemma {:induction false} DirsFilesPermutation(fs: seq<FileEntry>)
    ensures multiset(Dirs(fs)) + multiset(Files(fs)) == multiset(fs)
    decreases |fs|
  {
    if |fs| > 0 {
      DirsFilesPermutation(fs[1..]);
      assert fs == [fs[0]] + fs[1..];
    }
  }

  /** What a stable sort under `CompareRows` produces: the directories in
      their `readdir` order, then the files in their `readdir` order. */
  function DirectoriesFirst(fs: seq<FileEntry>): (r: seq<FileEntry>)
    ensures multiset(r) == multiset(fs)
    ensures forall i, j :: 0 <= i < j < |r| ==> CompareRows(r[i], r[j]) <= 0
    ensures Dirs(r) == Dirs(fs) && Files(r) == Files(fs)
  {
    DirsFilesPermutation(fs);
    DirsFilesAppend(Dirs(fs), Files(fs));
    DirsFilesOfUniform(Dirs(fs), true);
    DirsFilesOfUniform(Files(fs), false);
    Dirs(fs) + Files(fs)
  }

  /** The tail of a sequence ordered by `CompareRows` is ordered too. */
  lemma OrderedTail(r: seq<FileEntry>)
    requires |r| > 0
    requires forall i, j :: 0 <= i < j < |r| ==> CompareRows(r[i], r[j]) <= 0
    ensures forall i, j :: 0 <= i < j < |r[1..]| ==> CompareRows(r[1..][i], r[1..][j]) <= 0
  {
    forall i, j | 0 <= i < j < |r[1..]| ensures CompareRows(r[1..][i], r[1..][j]) <= 0 {
      assert r[1..][i] == r[i + 1] && r[1..][j] == r[j + 1];
    }
  }

  /** A sequence ordered by `CompareRows` that starts with a file holds only files. */
  lemma OrderedFromFile(r: seq<FileEntry>)
    requires |r| > 0 && !r[0].isDirectory
    requires forall i, j :: 0 <= i < j < |r| ==> CompareRows(r[i], r[j]) <= 0
    ensures forall k :: 0 <= k < |r| ==> !r[k].isDirectory
  {
    forall k | 0 < k < |r| ensures !r[k].isDirectory {
      assert CompareRows(r[0], r[k]) <= 0;
    }
  }

  /** A sequence ordered by `CompareRows` is its directories followed by its files. */
  lemma {:induction false} OrderedIsDirsThenFiles(r: seq<FileEntry>)
    requires forall i, j :: 0 <= i < j < |r| ==> CompareRows(r[i], r[j]) <= 0
    ensures r == Dirs(r) + Files(r)
    decreases |r|
  {
    if |r| > 0 {
      if r[0].isDirectory {
        OrderedTail(r);
        OrderedIsDirsThenFiles(r[1..]);
        DirsFilesAppend([r[0]], r[1..]);
        assert [r[0]] + r[1..] == r;
        assert Dirs([r[0]]) == [r[0]] && Files([r[0]]) == [];
      } else {
        OrderedFromFile(r);
        DirsFilesOfUniform(r, false);
      }
    }
  }

  /** Any ordering by `CompareRows` that keeps the `readdir` order within each
      kind (what a stable sort guarantees) is exactly `DirectoriesFirst`. */
  lemma StableSortIsDirectoriesFirst(fs: seq<FileEntry>, r: seq<FileEntry>)
    requires forall i, j :: 0 <= i < j < |r| ==> CompareRows(r[i], r[j]) <= 0
    requires Dirs(r) == Dirs(fs) && Files(r) == Files(fs)
    ensures r == DirectoriesFirst(fs)
  {
    OrderedIsDirsThenFiles(r);
  }

  /** The rows tied with a directory are the directories, and those tied
      with a file are the files. */
  lemma {:induction false} TiedWithKind(fs: seq<FileEntry>, f: FileEntry)
    ensures Sorting.TiedWith(fs, f, NotAfter) == if f.isDirectory then Dirs(fs) else Files(fs)
    decreases |fs|
  {
    if |fs| > 0 {
      TiedWithKind(fs[1..], f);
    }
  }

  /** Sorting the rows with the comparator gives the directories in their
      `readdir` order followed by the files in theirs. */
  lemma SortIsDirectoriesFirst(fs: seq<FileEntry>)
    ensures Sorting.InsertionSort(fs, NotAfter) == DirectoriesFirst(fs)
  {
    var r := Sorting.InsertionSort(fs, NotAfter);
    var dir := FileEntry("", true, 0, 0);
    var file := FileEntry("", false, 0, 0);
    NotAfterIsTotalPreorder();
    Sorting.InsertionSortSorted(fs, NotAfter);
    Sorting.InsertionSortStable(fs, dir, NotAfter);
    Sorting.InsertionSortStable(fs, file, NotAfter);
    TiedWithKind(r, dir);
    TiedWithKind(fs, dir);
    TiedWithKind(r, file);
    TiedWithKind(fs, file);
    assert forall i, j :: 0 <= i < j < |r| ==> NotAfter(r[i], r[j]);
    StableSortIsDirectoriesFirst(fs, r);
  }

  /** Directories first keeps what the rows promise: no `.` or `..`, and
      every directory before every file. */
  lemma ListingShape(rows: seq<FileEntry>)
    requires forall k :: 0 <= k < |rows| ==> rows[k].name != "." && rows[k].name != ".."
    ensures var r := DirectoriesFirst(rows);
      && (forall k :: 0 <= k < |r| ==> r[k].name != "." && r[k].name != "..")
      && (forall i, j :: 0 <= i < j < |r| ==> r[i].isDirectory || !r[j].isDirectory)
  {
    var r := DirectoriesFirst(rows);
    forall k | 0 <= k < |r| ensures r[k].name != "." && r[k].name != ".." {
      assert r[k] in multiset(rows);
    }
    assert forall i, j :: 0 <= i < j < |r| ==> CompareRows(r[i], r[j]) <= 0;
  }

  /** The table `listFiles` shows for a `readdir` result: the rows sorted
      with the comparator. */
  function Listing(entries: seq<DirEntry>): (r: seq<FileEntry>)
    ensures forall k :: 0 <= k < |r| ==> r[k].name != "." && r[k].name != ".."
    ensures multiset(r) == multiset(Rows(entries))
    ensures forall i, j :: 0 <= i < j < |r| ==> r[i].isDirectory || !r[j].isDirectory
    ensures r == DirectoriesFirst(Rows(entries))
  {
    var rows := Rows(entries);
    SortIsDirectoriesFirst(rows);
    ListingShape(rows);
    Sorting.InsertionSort(rows, NotAfter)
  }

  /** A row is a directory exactly when its entry's mode has the directory bit. */
  lemma ListingDirectoryBit(entries: seq<DirEntry>, f: FileEntry)
    requires f in Listing(entries)
    ensures exists k :: (0 <= k < |entries| && Shown(entries[k]) && entries[k].name == f.name
      && (f.isDirectory <==> IsDirectoryMode(entries[k].mode)))
  {
    assert f in multiset(Rows(entries));
    RowsMembership(entries, f);
  }

  // ---------------------------------------------------------------------------
  // Explorer state
  // ---------------------------------------------------------------------------

  /** The result of a `readdir` call: the entries, or a failure (the sync
      connection could not be opened or the directory could not be read). */
  datatype Readdir = Listed(entries: seq<DirEntry>) | ReadFailed

  datatype ExplorerState = ExplorerState(path: string, files: seq<FileEntry>)

  /** `listFiles(target)`: on success both the table and the path change; on
      failure the error is only logged and nothing changes. */
  function ListFiles(st: ExplorerState, target: string, result: Readdir): (r: ExplorerState)
    ensures result.ReadFailed? ==> r == st
    ensures result.Listed? ==> r.path == target
    ensures result.Listed? ==> multiset(r.files) == multiset(Rows(result.entries))
  {
    match result
    case ReadFailed => st
    case Listed(entries) => ExplorerState(target, Listing(entries))
  }

  /** `navigateTo(name)`: a successful listing of the child moves one
      segment down. */
  function NavigateTo(st: ExplorerState, name: string, result: Readdir): (r: ExplorerState)
    ensures result.ReadFailed? ==> r == st
    ensures result.Listed? && ValidName(name) ==> Segments(r.path) == Segments(st.path) + [name]
    ensures result.Listed? ==> multiset(r.files) == multiset(Rows(result.entries))
  {
    ListFiles(st, ChildPath(st.path, name), result)
  }

  /** `navigateUp()`: a no-op at the root; elsewhere a successful listing of
      the parent drops the last segment. */
  function NavigateUp(st: ExplorerState, result: Readdir): (r: ExplorerState)
    ensures st.path == "/" || result.ReadFailed? ==> r == st
    ensures st.path != "/" && result.Listed? ==>
      Segments(r.path) == DropLast(Segments(st.path)) && Canonical(r.path)
  {
    if st.path == "/" then st else ListFiles(st, ParentPath(st.path), result)
  }

  /** The Home button: a successful listing moves to `/sdcard`. */
  function GoHome(st: ExplorerState, result: Readdir): (r: ExplorerState)
    ensures result.ReadFailed? ==> r == st
    ensures result.Listed? ==> r.path == HomePath && Canonical(r.path)
  {
    HomeCanonical();
    ListFiles(st, HomePath, result)
  }

  /** The path a download, preview or upload of `name` uses. */
  function FilePath(st: ExplorerState, name: string): (p: string)
    ensures ValidName(name) ==> Segments(p) == Segments(st.path) + [name]
  {
    ChildPath(st.path, name)
  }

  /** The current path only changes when a listing succeeds. */
  lemma PathChangesOnlyOnSuccess(st: ExplorerState, target: string, result: Readdir)
    ensures ListFiles(st, target, result).path != st.path ==> result.Listed?
    ensures result.ReadFailed? ==> ListFiles(st, target, result).files == st.files
  {
  }

  /** `navigateUp` at the root changes nothing; elsewhere a successful listing
      moves to a canonical path with one segment fewer. */
  lemma NavigateUpEffect(st: ExplorerState, result: Readdir)
    ensures st.path == "/" ==> NavigateUp(st, result) == st
    ensures st.path != "/" && result.Listed? && |Segments(st.path)| > 0 ==>
      && StartsWith(NavigateUp(st, result).path, "/")
      && |Segments(NavigateUp(st, result).path)| == |Segments(st.path)| - 1
  {
  }

  /** Every navigation keeps the current path canonical, given the entry
      names come from a listing. */
  lemma NavigationKeepsCanonical(st: ExplorerState, name: string, result: Readdir)
    requires Canonical(st.path)
    requires ValidName(name)
    ensures Canonical(NavigateTo(st, name, result).path)
    ensures Canonical(NavigateUp(st, result).path)
    ensures Canonical(GoHome(st, result).path)
  {
    ChildCanonical(st.path, name);
    HomeCanonical();
  }

  /** Entering a directory and then going up returns to the same path when
      both listings succeed. */
  lemma NavigateUpUndoesNavigateTo(st: ExplorerState, name: string, r1: seq<DirEntry>, r2: seq<DirEntry>)
    requires Canonical(st.path)
    requires ValidName(name)
    ensures NavigateUp(NavigateTo(st, name, Listed(r1)), Listed(r2)).path == st.path
  {
    UpAfterDown(st.path, name);
    var child := ChildPath(st.path, name);
    assert |child| >= 2;
    var mid := NavigateTo(st, name, Listed(r1));
    assert mid.path == child;
    assert NavigateUp(mid, Listed(r2)) == ListFiles(mid, ParentPath(child), Listed(r2));
  }

  // ---------------------------------------------------------------------------
  // Images and MIME types
  // ---------------------------------------------------------------------------

  const ImageExtensions: seq<string> := [".jpg", ".jpeg", ".png", ".gif", ".webp", ".bmp", ".svg"]

  /** `exts.some(ext => lower.endsWith(ext))`. */
  function EndsWithAny(lower: string, exts: seq<string>): (b: bool)
    ensures b <==> exists k :: 0 <= k < |exts| && EndsWith(lower, exts[k])
    decreases |exts|
  {
    if |exts| == 0 then false
    else
      assert forall k :: 1 <= k < |exts| ==> exts[1..][k - 1] == exts[k];
      EndsWith(lower, exts[0]) || EndsWithAny(lower, exts[1..])
  }

  /** `isImage(name)`: the lower-cased name ends with one of the seven
      image extensions. */
  function IsImage(name: string): (b: bool)
    ensures b <==> exists k :: 0 <= k < |ImageExtensions| && EndsWith(Lower(name), ImageExtensions[k])
  {
    EndsWithAny(Lower(name), ImageExtensions)
  }

  /** The test ignores case: a name and its lower-cased form are both images
      or both not. */
  lemma IsImageIgnoresCase(name: string)
    ensures IsImage(Lower(name)) == IsImage(name)
  {
    LowerIdempotent(name);
  }

  /** `name.split('.').pop()`: the text after the last dot, or the whole
      name when it has no dot. */
  function Extension(name: string): (ext: string)
    ensures '.' !in ext
    ensures EndsWith(name, ext)
    ensures |ext| < |name| ==> name[|name| - |ext| - 1] == '.'
  {
    var parts := Split(name, '.');
    var ext := parts[|parts| - 1];
    JoinSplit(name, '.');
    if |parts| == 1 then ext
    else
      assert parts == parts[..|parts| - 1] + [ext];
      JoinSnoc(parts[..|parts| - 1], '.', ext);
      ext
  }

  /** The suffix found by `Extension` is the only dot-free suffix preceded by
      a dot. */
  lemma ExtensionIsLastDot(name: string, t: string)
    requires '.' !in t
    requires |t| < |name| && name[|name| - |t| - 1] == '.'
    requires EndsWith(name, t)
    ensures Extension(name) == t
  {
    var e := Extension(name);
    var n := |name|;
    assert forall i :: n - |t| <= i < n ==> name[i] == t[i - (n - |t|)];
    assert forall i :: n - |e| <= i < n ==> name[i] == e[i - (n - |e|)];
    assert |e| == |t|;
  }

  /** The MIME type used for a preview. */
  function MimeType(name: string): (m: string)
    ensures StartsWith(m, "image/")
  {
    if EndsWith(Lower(name), ".svg") then "image/svg+xml" else "image/" + Extension(name)
  }

  /** Each listed extension is a dot followed by dot-free text. */
  lemma ImageExtensionShape(k: int)
    requires 0 <= k < |ImageExtensions|
    ensures |ImageExtensions[k]| >= 2 && ImageExtensions[k][0] == '.'
    ensures '.' !in ImageExtensions[k][1..]
  {
    var x := ImageExtensions[k];
    if k == 0 { assert x[1..] == "jpg"; }
    else if k == 1 { assert x[1..] == "jpeg"; }
    else if k == 2 { assert x[1..] == "png"; }
    else if k == 3 { assert x[1..] == "gif"; }
    else if k == 4 { assert x[1..] == "webp"; }
    else if k == 5 { assert x[1..] == "bmp"; }
    else { assert x[1..] == "svg"; }
  }

  /** `LowerChar` maps a character to a dot only when it is a dot. */
  lemma LowerCharDot(c: char)
    ensures LowerChar(c) == '.' <==> c == '.'
  {
  }

  /** When the lower-cased name ends with a dot and a dot-free `e`, the
      extension is the matching suffix of the name, and it lower-cases to `e`. */
  lemma ExtensionOfLoweredSuffix(name: string, e: string)
    requires '.' !in e
    requires EndsWith(Lower(name), "." + e)
    ensures |e| < |name|
    ensures Extension(name) == name[|name| - |e|..]
    ensures Lower(Extension(name)) == e
  {
    var n := |name|;
    assert |e| < n;
    var t := name[n - |e|..];
    assert |t| == |e|;
    assert EndsWith(name, t);
    LowerSuffix(name, n - |e|);
    assert Lower(name)[n - |e|..] == e;
    assert Lower(name)[n - |e| - 1] == '.';
    LowerCharDot(name[n - |e| - 1]);
    forall i | 0 <= i < |t| ensures t[i] != '.' {
      LowerCharDot(t[i]);
      assert LowerChar(t[i]) == e[i];
    }
    assert '.' !in t;
    ExtensionIsLastDot(name, t);
  }

  /** Under `isImage`, an SVG gets `image/svg+xml` and every other image gets
      `image/` followed by its own extension, with its case kept, which
      lower-cases to one of the other six listed extensions. */
  lemma MimeTypeOfImage(name: string)
    requires IsImage(name)
    ensures EndsWith(Lower(name), ".svg") ==> MimeType(name) == "image/svg+xml"
    ensures !EndsWith(Lower(name), ".svg") ==>
      && MimeType(name) == "image/" + Extension(name)
      && exists k :: 0 <= k < 6 && "." + Lower(Extension(name)) == ImageExtensions[k]
  {
    if !EndsWith(Lower(name), ".svg") {
      var k :| 0 <= k < |ImageExtensions| && EndsWith(Lower(name), ImageExtensions[k]);
      assert ImageExtensions[6] == ".svg";
      ImageExtensionShape(k);
      var e := ImageExtensions[k][1..];
      assert ImageExtensions[k] == "." + e;
      ExtensionOfLoweredSuffix(name, e);
    }
  }
}
