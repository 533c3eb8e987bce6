/**
 * The offline logic of downloader.py's VideoDownloader: containment in the
 * download root, the temp-directory cleanup over a model of the file system,
 * the TikTok-photo test, the choice of the downloaded file, image collection
 * and the shaping of video metadata.
 */
module Downloader {
  import opened Wrappers
  import opened Text
  import opened Sorting
  import Utils

  // ------------------------------------------------------------------
  // Paths
  // ------------------------------------------------------------------

  /** A resolved absolute path as its components below "/"; `[]` is "/". */
  type Path = seq<string>

  /** `_is_subpath(path, base)`: `commonpath([path, base]) == base`. */
  predicate IsSubpath(path: Path, base: Path)
  {
    |base| <= |path| && path[..|base|] == base
  }

  predicate StrictlyInside(path: Path, base: Path)
  {
    IsSubpath(path, base) && path != base
  }

  /** `os.path.dirname`; the parent of "/" is "/". */
  function Dirname(p: Path): (r: Path)
    ensures p == [] ==> r == []
    ensures p != [] ==> |r| == |p| - 1 && StrictlyInside(p, r)
  {
    if p == [] then [] else p[..|p| - 1]
  }

  /** `os.path.basename`. */
  function Basename(p: Path): string
  {
    if p == [] then "" else p[|p| - 1]
  }

  /** Containment is a partial order. */
  lemma IsSubpathOrder(a: Path, b: Path, c: Path)
    ensures IsSubpath(a, a)
    ensures IsSubpath(a, b) && IsSubpath(b, a) ==> a == b
    ensures IsSubpath(a, b) && IsSubpath(b, c) ==> IsSubpath(a, c)
  {
    if IsSubpath(a, b) && IsSubpath(b, c) {
      assert a[..|c|] == a[..|b|][..|c|];
    }
  }

  /** Two directories containing the same path are nested one in the other. */
  lemma AncestorsComparable(p: Path, a: Path, b: Path)
    requires IsSubpath(p, a) && IsSubpath(p, b)
    ensures IsSubpath(a, b) || IsSubpath(b, a)
  {
    if |a| <= |b| {
      assert b[..|a|] == p[..|b|][..|a|];
    } else {
      assert a[..|b|] == p[..|a|][..|b|];
    }
  }

  /** Going up from strictly inside `base` stays inside `base`. */
  lemma DirnameStaysInside(p: Path, base: Path)
    requires StrictlyInside(p, base)
    ensures IsSubpath(Dirname(p), base)
  {
    assert Dirname(p)[..|base|] == p[..|base|];
  }

  // ------------------------------------------------------------------
  // The file system
  // ------------------------------------------------------------------

  datatype Kind = File | Dir

  /**
   * A file system whose download root exists as a directory and in which no
   * entry lies below a file.
   */
  predicate WellFormed(m: map<Path, Kind>, root: Path)
  {
    && root in m && m[root] == Dir
    && forall q, q' | q in m && q' in m && StrictlyInside(q', q) :: m[q] == Dir
  }

  predicate IsFileIn(m: map<Path, Kind>, p: Path)
  {
    p in m && m[p] == File
  }

  predicate IsDirIn(m: map<Path, Kind>, p: Path)
  {
    p in m && m[p] == Dir
  }

  /** `os.path.isdir(p) and not os.listdir(p)`. */
  predicate IsEmptyDirIn(m: map<Path, Kind>, p: Path)
  {
    IsDirIn(m, p) && forall q | q in m :: !StrictlyInside(q, p)
  }

  /** The entries left by `shutil.rmtree(d)`. */
  function RemoveTree(m: map<Path, Kind>, d: Path): (r: map<Path, Kind>)
    ensures forall q :: q in r <==> q in m && !IsSubpath(q, d)
  {
    map q | q in m && !IsSubpath(q, d) :: m[q]
  }

  /** `after` only lost entries of `before`. */
  predicate Shrinks(before: map<Path, Kind>, after: map<Path, Kind>)
  {
    forall q | q in after :: q in before && after[q] == before[q]
  }

  /** Whatever was removed took everything below it along. */
  predicate NoOrphans(before: map<Path, Kind>, after: map<Path, Kind>)
  {
    forall q, q' | q in before && q !in after && q' in after :: !StrictlyInside(q', q)
  }

  lemma ComposeSteps(a: map<Path, Kind>, b: map<Path, Kind>, c: map<Path, Kind>)
    requires Shrinks(a, b) && Shrinks(b, c) && NoOrphans(a, b) && NoOrphans(b, c)
    ensures Shrinks(a, c) && NoOrphans(a, c)
  {
  }

  /** Removing a file or an empty directory other than the root. */
  lemma RemoveLeaf(m: map<Path, Kind>, root: Path, p: Path)
    requires WellFormed(m, root)
    requires IsFileIn(m, p) || (IsEmptyDirIn(m, p) && p != root)
    ensures WellFormed(m - {p}, root)
    ensures Shrinks(m, m - {p}) && NoOrphans(m, m - {p})
  {
  }

  /** `rmtree` of a directory strictly inside the root. */
  lemma RemoveTreeInside(m: map<Path, Kind>, root: Path, d: Path)
    requires WellFormed(m, root) && StrictlyInside(d, root)
    ensures WellFormed(RemoveTree(m, d), root)
    ensures Shrinks(m, RemoveTree(m, d)) && NoOrphans(m, RemoveTree(m, d))
    ensures forall q | q in m && q !in RemoveTree(m, d) :: StrictlyInside(q, root)
  {
    var r := RemoveTree(m, d);
    assert !IsSubpath(root, d);
    forall q | q in m && q !in r ensures StrictlyInside(q, root) {
      IsSubpathOrder(q, d, root);
    }
    forall q, q' | q in m && q !in r && q' in r ensures !StrictlyInside(q', q) {
      IsSubpathOrder(q', q, d);
    }
  }

  /** The shared file system the downloader cleans up. */
  class FileSystem {
    var entries: map<Path, Kind>

    constructor (entries: map<Path, Kind>)
      ensures this.entries == entries
    {
      this.entries := entries;
    }

    predicate Valid(root: Path)
      reads this
    {
      WellFormed(entries, root)
    }
  }

  // ------------------------------------------------------------------
  // _get_top_temp_dir
  // ------------------------------------------------------------------

  /** The starting directory: the parent of a file, the path itself otherwise. */
  function StartDir(m: map<Path, Kind>, p: Path): Path
  {
    if IsFileIn(m, p) then Dirname(p) else p
  }

  /**
   * `_get_top_temp_dir(p)` as written: the root test after the ascent only
   * fires when the root is "/", so a start directory equal to any other root
   * climbs to "/" and returns it.
   */
  method TopTempDirAsWritten(fs: FileSystem, root: Path, p: Path) returns (top: Option<Path>)
    ensures var start := StartDir(fs.entries, p);
      && (!IsSubpath(start, root) ==> top.None?)
      && (StrictlyInside(start, root) ==>
            top.Some? && |top.value| == |root| + 1 && IsSubpath(top.value, root) && IsSubpath(start, top.value))
      && (start == root ==> top == if root == [] then None else Some([]))
  {
    var current := p;
    if IsFileIn(fs.entries, current) {
      current := Dirname(current);
    }
    ghost var start := current;
    if !IsSubpath(current, root) {
      return None;
    }
    while true
      invariant IsSubpath(start, current)
      invariant start != root ==> StrictlyInside(current, root)
      invariant start == root ==> IsSubpath(root, current)
      decreases |current|
    {
      var parent := Dirname(current);
      if parent == root || parent == current {
        break;
      }
      IsSubpathOrder(start, current, parent);
      if start != root {
        DirnameStaysInside(current, root);
      } else {
        IsSubpathOrder(root, current, parent);
      }
      current := parent;
    }
    if start != root {
      assert current != [];
      assert |current| == |root| + 1 by {
        assert Dirname(current) == root;
      }
    } else if root != [] {
      assert current == [] by {
        assert |Dirname(current)| < |root|;
      }
    }
    if current == root {
      return None;
    }
    return Some(current);
  }

  /**
   * `_get_top_temp_dir(p)` as intended: None when the start directory is
   * outside the root or is the root; otherwise the root plus exactly one
   * more component, which contains the start directory.
   */
  method GetTopTempDir(fs: FileSystem, root: Path, p: Path) returns (top: Option<Path>)
    ensures var start := StartDir(fs.entries, p);
      && (top.None? <==> !StrictlyInside(start, root))
      && (top.Some? ==>
            |top.value| == |root| + 1 && IsSubpath(top.value, root) && IsSubpath(start, top.value))
  {
    var current := p;
    if IsFileIn(fs.entries, current) {
      current := Dirname(current);
    }
    ghost var start := current;
    if !IsSubpath(current, root) || current == root {
      return None;
    }
    while true
      invariant IsSubpath(start, current)
      invariant StrictlyInside(current, root)
      decreases |current|
    {
      var parent := Dirname(current);
      if parent == root || parent == current {
        break;
      }
      IsSubpathOrder(start, current, parent);
      DirnameStaysInside(current, root);
      current := parent;
    }
    assert current != [];
    assert |current| == |root| + 1 by {
      assert Dirname(current) == root;
    }
    return Some(current);
  }

  // ------------------------------------------------------------------
  // _safe_rmtree, cleanup_file, cleanup_files
  // ------------------------------------------------------------------

  /**
   * `_safe_rmtree(path)`: removes the tree only when the path is given, is
   * strictly inside the root and is a directory; otherwise nothing changes.
   */
  method SafeRmtree(fs: FileSystem, root: Path, path: Option<Path>)
    requires fs.Valid(root)
    modifies fs
    ensures fs.Valid(root)
    ensures fs.entries ==
      if path.Some? && StrictlyInside(path.value, root) && IsDirIn(old(fs.entries), path.value)
      then RemoveTree(old(fs.entries), path.value) else old(fs.entries)
    ensures Shrinks(old(fs.entries), fs.entries) && NoOrphans(old(fs.entries), fs.entries)
    ensures forall q | q in old(fs.entries) && q !in fs.entries :: path.Some? && IsSubpath(q, path.value) && StrictlyInside(q, root)
  {
    if path.None? {
      return;
    }
    if StrictlyInside(path.value, root) && IsDirIn(fs.entries, path.value) {
      RemoveTreeInside(fs.entries, root, path.value);
      fs.entries := RemoveTree(fs.entries, path.value);
    }
  }

  /** The top temp directory of `p` after `p` itself is gone. */
  function TopOf(root: Path, p: Path): Path
    requires StrictlyInside(p, root)
  {
    p[..|root| + 1]
  }

  /**
   * `cleanup_file(p)`: removes `p` if it is a file, then the whole top temp
   * directory it lies in, then empty parent directories upwards, stopping at
   * the root, at "/" or at the first non-empty one. Only entries are removed,
   * nothing is left below a removed entry, the root survives, and for a path
   * inside the root everything removed other than `p` is strictly inside it.
   */
  method CleanupFile(fs: FileSystem, root: Path, filePath: Option<Path>)
    requires fs.Valid(root)
    modifies fs
    ensures fs.Valid(root)
    ensures Shrinks(old(fs.entries), fs.entries) && NoOrphans(old(fs.entries), fs.entries)
    ensures filePath.None? ==> fs.entries == old(fs.entries)
    ensures filePath.Some? && IsFileIn(old(fs.entries), filePath.value) ==> filePath.value !in fs.entries
    ensures filePath.Some? ==> forall q | q in old(fs.entries) && q !in fs.entries ::
      q == filePath.value || StrictlyInside(q, root) || (StrictlyInside(filePath.value, q) && q != [])
    ensures filePath.Some? && IsSubpath(filePath.value, root) ==>
      forall q | q in old(fs.entries) && q !in fs.entries :: q == filePath.value || StrictlyInside(q, root)
    ensures filePath.Some? && StrictlyInside(filePath.value, root)
            && IsDirIn(old(fs.entries), TopOf(root, filePath.value)) ==>
      forall q | q in fs.entries :: !IsSubpath(q, TopOf(root, filePath.value))
    ensures filePath.Some? && StrictlyInside(filePath.value, root) ==>
      forall q | q in old(fs.entries) && q !in fs.entries :: q == filePath.value || IsSubpath(q, TopOf(root, filePath.value))
  {
    if filePath.None? {
      return;
    }
    var p := filePath.value;
    ghost var m0 := fs.entries;
    if IsFileIn(fs.entries, p) {
      RemoveLeaf(fs.entries, root, p);
      fs.entries := fs.entries - {p};
    }
    ghost var m1 := fs.entries;
    var top := GetTopTempDir(fs, root, p);
    if StrictlyInside(p, root) {
      assert StartDir(m1, p) == p;
      assert top == Some(TopOf(root, p)) by {
        assert top.value == p[..|top.value|];
      }
    }
    if top.Some? && IsDirIn(fs.entries, top.value) {
      SafeRmtree(fs, root, top);
    }
    ghost var m2 := fs.entries;
    assert forall q | q in m1 && q !in m2 :: top.Some? && IsSubpath(q, top.value);
    ComposeSteps(m0, m1, m2);
    SweepEmptyParents(fs, root, p);
    ComposeSteps(m0, m2, fs.entries);
    forall q | q in m0 && q !in fs.entries
      ensures q == p || StrictlyInside(q, root) || (StrictlyInside(p, q) && q != [])
      ensures IsSubpath(p, root) ==> q == p || StrictlyInside(q, root)
      ensures StrictlyInside(p, root) ==> q == p || IsSubpath(q, TopOf(root, p))
    {
      if q in m2 {
        assert StrictlyInside(p, q) && q != [];
        if StrictlyInside(p, root) {
          assert StrictlyInside(q, root);
          assert q[..|root| + 1] == p[..|root| + 1];
        }
      }
    }
  }

  /**
   * The upward sweep of `cleanup_file`: empty directories above `p` are
   * removed one by one, stopping at the root, at "/" or at the first one
   * that is missing or not empty. Only strict ancestors of `p` other than "/"
   * are removed, and for a path inside the root only directories strictly
   * inside it.
   */
  method SweepEmptyParents(fs: FileSystem, root: Path, p: Path)
    requires fs.Valid(root)
    modifies fs
    ensures fs.Valid(root)
    ensures Shrinks(old(fs.entries), fs.entries) && NoOrphans(old(fs.entries), fs.entries)
    ensures forall q | q in old(fs.entries) && q !in fs.entries ::
      StrictlyInside(p, q) && q != [] && (IsSubpath(p, root) ==> StrictlyInside(q, root))
  {
    ghost var m0 := fs.entries;
    var parent := Dirname(p);
    while parent != root && parent != []
      invariant fs.Valid(root)
      invariant Shrinks(m0, fs.entries) && NoOrphans(m0, fs.entries)
      invariant IsSubpath(p, parent) && (p != [] ==> parent != p)
      invariant forall q | q in m0 && q !in fs.entries ::
        StrictlyInside(p, q) && q != [] && (IsSubpath(p, root) ==> StrictlyInside(q, root))
      decreases |parent|
    {
      if IsEmptyDirIn(fs.entries, parent) {
        assert IsSubpath(p, root) ==> StrictlyInside(parent, root) by {
          if IsSubpath(p, root) {
            AncestorsComparable(p, parent, root);
            assert !StrictlyInside(root, parent);
          }
        }
        ghost var before := fs.entries;
        RemoveLeaf(fs.entries, root, parent);
        fs.entries := fs.entries - {parent};
        ComposeSteps(m0, before, fs.entries);
      } else {
        break;
      }
      IsSubpathOrder(p, parent, Dirname(parent));
      parent := Dirname(parent);
    }
  }

  /**
   * `cleanup_files(paths)`: nothing for an empty list; otherwise every listed
   * file is removed and then the top temp directory of the first path.
   */
  method CleanupFiles(fs: FileSystem, root: Path, paths: seq<Path>)
    requires fs.Valid(root)
    modifies fs
    ensures fs.Valid(root)
    ensures paths == [] ==> fs.entries == old(fs.entries)
    ensures Shrinks(old(fs.entries), fs.entries) && NoOrphans(old(fs.entries), fs.entries)
    ensures forall i | 0 <= i < |paths| && IsFileIn(old(fs.entries), paths[i]) :: paths[i] !in fs.entries
    ensures forall q | q in old(fs.entries) && q !in fs.entries :: q in paths || StrictlyInside(q, root)
    ensures paths != [] && StrictlyInside(paths[0], root) && IsDirIn(old(fs.entries), TopOf(root, paths[0])) ==>
      forall q | q in fs.entries :: !IsSubpath(q, TopOf(root, paths[0]))
    ensures paths != [] ==> forall q | q in old(fs.entries) && q !in fs.entries ::
      q in paths || (StrictlyInside(paths[0], root) && IsSubpath(q, TopOf(root, paths[0])))
  {
    if paths == [] {
      return;
    }
    ghost var m0 := fs.entries;
    RemoveListedFiles(fs, root, paths);
    ghost var m1 := fs.entries;
    var top := GetTopTempDir(fs, root, paths[0]);
    ghost var p := paths[0];
    assert !IsFileIn(m1, p);
    assert StartDir(m1, p) == p;
    if top.Some? {
      assert top.value == TopOf(root, p) by {
        assert top.value == p[..|top.value|];
      }
    }
    if StrictlyInside(p, root) && IsDirIn(m0, TopOf(root, p)) {
      assert IsDirIn(m1, TopOf(root, p));
    }
    if top.Some? && IsDirIn(fs.entries, top.value) {
      SafeRmtree(fs, root, top);
    }
    ComposeSteps(m0, m1, fs.entries);
  }

  /** The first loop of `cleanup_files`: `os.remove` on every listed file that exists. */
  method RemoveListedFiles(fs: FileSystem, root: Path, paths: seq<Path>)
    requires fs.Valid(root)
    modifies fs
    ensures fs.Valid(root)
    ensures Shrinks(old(fs.entries), fs.entries) && NoOrphans(old(fs.entries), fs.entries)
    ensures forall j | 0 <= j < |paths| && IsFileIn(old(fs.entries), paths[j]) :: paths[j] !in fs.entries
    ensures forall q | q in old(fs.entries) && q !in fs.entries :: q in paths && IsFileIn(old(fs.entries), q)
    ensures forall q | q in fs.entries :: IsFileIn(fs.entries, q) == IsFileIn(old(fs.entries), q)
  {
    ghost var m0 := fs.entries;
    var i := 0;
    while i < |paths|
      invariant 0 <= i <= |paths|
      invariant fs.Valid(root)
      invariant Shrinks(m0, fs.entries) && NoOrphans(m0, fs.entries)
      invariant forall j | 0 <= j < i && IsFileIn(m0, paths[j]) :: paths[j] !in fs.entries
      invariant forall q | q in m0 && q !in fs.entries :: q in paths && IsFileIn(m0, q)
      invariant forall q | q in fs.entries :: IsFileIn(fs.entries, q) == IsFileIn(m0, q)
    {
      if IsFileIn(fs.entries, paths[i]) {
        ghost var before := fs.entries;
        RemoveLeaf(fs.entries, root, paths[i]);
        fs.entries := fs.entries - {paths[i]};
        ComposeSteps(m0, before, fs.entries);
      }
      assert IsFileIn(m0, paths[i]) ==> paths[i] !in fs.entries;
      i := i + 1;
    }
  }

  // ------------------------------------------------------------------
  // _is_tiktok_photo_url
  // ------------------------------------------------------------------

  /**
   * `_is_tiktok_photo_url(url)`. `resolved` is the final URL a HEAD request
   * to a vt./vm. short link redirects to, or None when the request fails.
   */
  function IsTiktokPhotoUrl(url: string, resolved: Option<string>): bool
  {
    if !Contains(url, "tiktok.com") then false
    else if Utils.HasPhotoMarker(url) then true
    else if Contains(url, "vt.tiktok.com") || Contains(url, "vm.tiktok.com") then
      resolved.Some? && Utils.HasPhotoMarker(resolved.value)
    else false
  }

  /**
   * Without "tiktok.com" the answer is no, with a photo marker it is yes, and
   * otherwise yes only through a resolved short link that carries a marker.
   * Offline (no resolution) it agrees with the "TikTok Photos" platform label.
   */
  lemma TiktokPhotoCases(url: string, resolved: Option<string>, netloc: Option<string>)
    ensures !Contains(url, "tiktok.com") ==> !IsTiktokPhotoUrl(url, resolved)
    ensures Contains(url, "tiktok.com") && Utils.HasPhotoMarker(url) ==> IsTiktokPhotoUrl(url, resolved)
    ensures IsTiktokPhotoUrl(url, resolved) && !Utils.HasPhotoMarker(url) ==>
      (Contains(url, "vt.tiktok.com") || Contains(url, "vm.tiktok.com"))
      && resolved.Some? && Utils.HasPhotoMarker(resolved.value)
    ensures IsTiktokPhotoUrl(url, None) <==> Utils.GetVideoPlatform(url, netloc) == Some("TikTok Photos")
  {
    Utils.GetVideoPlatformCases(url, netloc);
  }

  // ------------------------------------------------------------------
  // _find_downloaded_file
  // ------------------------------------------------------------------

  const ImageExts: seq<string> := [".jpg", ".jpeg", ".png", ".webp"]
  const AudioExts: seq<string> := [".mp3", ".m4a", ".wav", ".aac"]
  const VideoExts: seq<string> := [".mp4", ".avi", ".mov", ".mkv", ".webm"]

  /** `p.lower().endswith(exts)`; the extensions hold no "/", so the basename decides. */
  predicate HasExt(p: Path, exts: seq<string>)
  {
    EndsWithAny(ToLower(Basename(p)), exts)
  }

  /** The entries of `files` with one of `exts`, in order. */
  function FilterExt(files: seq<Path>, exts: seq<string>): (r: seq<Path>)
    ensures |r| <= |files|
    ensures forall i :: 0 <= i < |r| ==> HasExt(r[i], exts) && r[i] in files
    ensures forall i :: 0 <= i < |files| && HasExt(files[i], exts) ==> files[i] in r
  {
    if files == [] then []
    else
      var init := FilterExt(files[..|files| - 1], exts);
      var last := files[|files| - 1];
      assert forall i :: 0 <= i < |files| - 1 ==> files[i] == files[..|files| - 1][i];
      init + (if HasExt(last, exts) then [last] else [])
  }

  /** Each file with one of `exts` is kept as often as it occurs, and no other file is. */
  lemma {:induction false} FilterExtCount(files: seq<Path>, exts: seq<string>, x: Path)
    ensures multiset(FilterExt(files, exts))[x] == if HasExt(x, exts) then multiset(files)[x] else 0
    decreases |files|
  {
    if files != [] {
      var init := files[..|files| - 1];
      assert files == init + [files[|files| - 1]];
      FilterExtCount(init, exts, x);
    }
  }

  /** `files[i]` is the first entry of `files` with one of `exts`. */
  predicate IsFirstWith(files: seq<Path>, exts: seq<string>, i: int)
  {
    0 <= i < |files| && HasExt(files[i], exts) && forall j :: 0 <= j < i ==> !HasExt(files[j], exts)
  }

  lemma FilterExtEmpty(files: seq<Path>, exts: seq<string>)
    ensures FilterExt(files, exts) == [] <==> forall i :: 0 <= i < |files| ==> !HasExt(files[i], exts)
  {
    var r := FilterExt(files, exts);
    if r != [] {
      assert r[0] in files;
    }
  }

  /** The index of the first entry from `k` on with one of `exts`. */
  function FirstWithFrom(files: seq<Path>, exts: seq<string>, k: nat): (r: Option<nat>)
    requires k <= |files|
    ensures r.Some? ==> && k <= r.value < |files| && HasExt(files[r.value], exts)
                        && forall j :: k <= j < r.value ==> !HasExt(files[j], exts)
    ensures r.None? ==> forall j :: k <= j < |files| ==> !HasExt(files[j], exts)
    decreases |files| - k
  {
    if k == |files| then None
    else if HasExt(files[k], exts) then Some(k)
    else FirstWithFrom(files, exts, k + 1)
  }

  lemma EndsWithLastTwo(s: string, e: string)
    requires EndsWith(s, e) && |e| >= 2
    ensures s[|s| - 1] == e[|e| - 1] && s[|s| - 2] == e[|e| - 2]
  {
    assert s[|s| - |e|..][|e| - 1] == s[|s| - 1];
    assert s[|s| - |e|..][|e| - 2] == s[|s| - 2];
  }

  /** The last character of a name with an image extension: g or p. */
  predicate ImageTail(s: string)
  {
    |s| >= 2 && (s[|s| - 1] == 'g' || s[|s| - 1] == 'p')
  }

  /** The last two characters of a name with an audio extension. */
  predicate AudioTail(s: string)
  {
    && |s| >= 2
    && var last, prev := s[|s| - 1], s[|s| - 2];
    || (last == '3' && prev == 'p') || (last == 'a' && prev == '4')
    || (last == 'v' && prev == 'a') || (last == 'c' && prev == 'a')
  }

  /** The last two characters of a name with a video extension. */
  predicate VideoTail(s: string)
  {
    && |s| >= 2
    && var last, prev := s[|s| - 1], s[|s| - 2];
    || (last == '4' && prev == 'p') || (last == 'i' && prev == 'v')
    || (last == 'v' && prev == 'o') || (last == 'v' && prev == 'k') || (last == 'm' && prev == 'b')
  }

  lemma ImageTails(s: string)
    ensures EndsWithAny(s, ImageExts) ==> ImageTail(s)
  {
    forall i | 0 <= i < |ImageExts| && EndsWith(s, ImageExts[i]) ensures ImageTail(s) {
      ImageTailAt(s, i);
    }
  }

  lemma ImageTailAt(s: string, i: int)
    requires 0 <= i < |ImageExts| && EndsWith(s, ImageExts[i])
    ensures ImageTail(s)
  {
    if i == 0 { TailIs(s, ".jpg", 'p', 'g'); }
    else if i == 1 { TailIs(s, ".jpeg", 'e', 'g'); }
    else if i == 2 { TailIs(s, ".png", 'n', 'g'); }
    else { TailIs(s, ".webp", 'b', 'p'); }
  }

  lemma AudioTails(s: string)
    ensures EndsWithAny(s, AudioExts) ==> AudioTail(s)
  {
    forall i | 0 <= i < |AudioExts| && EndsWith(s, AudioExts[i]) ensures AudioTail(s) {
      AudioTailAt(s, i);
    }
  }

  lemma AudioTailAt(s: string, i: int)
    requires 0 <= i < |AudioExts| && EndsWith(s, AudioExts[i])
    ensures AudioTail(s)
  {
    if i == 0 { TailIs(s, ".mp3", 'p', '3'); }
    else if i == 1 { TailIs(s, ".m4a", '4', 'a'); }
    else if i == 2 { TailIs(s, ".wav", 'a', 'v'); }
    else { TailIs(s, ".aac", 'a', 'c'); }
  }

  lemma VideoTails(s: string)
    ensures EndsWithAny(s, VideoExts) ==> VideoTail(s)
  {
    forall i | 0 <= i < |VideoExts| && EndsWith(s, VideoExts[i]) ensures VideoTail(s) {
      VideoTailAt(s, i);
    }
  }

  lemma VideoTailAt(s: string, i: int)
    requires 0 <= i < |VideoExts| && EndsWith(s, VideoExts[i])
    ensures VideoTail(s)
  {
    if i == 0 { TailIs(s, ".mp4", 'p', '4'); }
    else if i == 1 { TailIs(s, ".avi", 'v', 'i'); }
    else if i == 2 { TailIs(s, ".mov", 'o', 'v'); }
    else if i == 3 { TailIs(s, ".mkv", 'k', 'v'); }
    else { TailIs(s, ".webm", 'b', 'm'); }
  }

  lemma TailIs(s: string, e: string, prev: char, last: char)
    requires EndsWith(s, e) && |e| >= 2 && e[|e| - 2] == prev && e[|e| - 1] == last
    ensures |s| >= 2 && s[|s| - 2] == prev && s[|s| - 1] == last
  {
    EndsWithLastTwo(s, e);
  }

  /** No file is in two of the image, audio and video classes. */
  lemma ExtClassesDisjoint(p: Path)
    ensures !(HasExt(p, ImageExts) && HasExt(p, AudioExts))
    ensures !(HasExt(p, ImageExts) && HasExt(p, VideoExts))
    ensures !(HasExt(p, AudioExts) && HasExt(p, VideoExts))
  {
    ImageTails(ToLower(Basename(p)));
    AudioTails(ToLower(Basename(p)));
    VideoTails(ToLower(Basename(p)));
  }

  /** What `_find_downloaded_file` settles on. */
  datatype FileChoice = NoFile | UseFile(path: Path) | BuildSlideshow

  /**
   * `_find_downloaded_file` over the files os.walk lists: the first video if
   * there is one; otherwise a slideshow for more than one image; otherwise
   * the first file; nothing when the directory holds no file.
   */
  function FindDownloadedFile(files: seq<Path>): (r: FileChoice)
    ensures r == NoFile <==> files == []
    ensures (exists i :: 0 <= i < |files| && HasExt(files[i], VideoExts)) ==>
      exists i :: IsFirstWith(files, VideoExts, i) && r == UseFile(files[i])
    ensures (forall i :: 0 <= i < |files| ==> !HasExt(files[i], VideoExts)) ==>
      (r == BuildSlideshow <==> |FilterExt(files, ImageExts)| > 1)
    ensures && (forall i :: 0 <= i < |files| ==> !HasExt(files[i], VideoExts))
            && |FilterExt(files, ImageExts)| <= 1 && files != []
            ==> r == UseFile(files[0])
  {
    var firstVideo := FirstWithFrom(files, VideoExts, 0);
    var images := FilterExt(files, ImageExts);
    if firstVideo.Some? then UseFile(files[firstVideo.value])
    else if |images| > 1 then BuildSlideshow
    else if files != [] then UseFile(files[0])
    else NoFile
  }

  // ------------------------------------------------------------------
  // download_tiktok_images (filter and sort)
  // ------------------------------------------------------------------

  /** The `os.walk` loop of `download_tiktok_images`: the walked files with an image extension, in walk order. */
  method CollectImages(walked: seq<Path>) returns (found: seq<Path>)
    ensures found == FilterExt(walked, ImageExts)
  {
    found := [];
    var i := 0;
    while i < |walked|
      invariant 0 <= i <= |walked|
      invariant found == FilterExt(walked[..i], ImageExts)
    {
      assert walked[..i + 1][..i] == walked[..i];
      if HasExt(walked[i], ImageExts) {
        found := found + [walked[i]];
      }
      i := i + 1;
    }
    assert walked[..i] == walked;
  }

  /**
   * `download_tiktok_images(url)` after the download: `walked` is what
   * os.walk lists in the temp directory. None for a non-photo URL or when no
   * image was found; otherwise the images, non-empty and sorted by basename.
   */
  method DownloadTiktokImages(url: string, resolved: Option<string>, walked: seq<Path>)
    returns (images: Option<seq<Path>>)
    ensures images.None? <==>
      !IsTiktokPhotoUrl(url, resolved) || forall i :: 0 <= i < |walked| ==> !HasExt(walked[i], ImageExts)
    ensures images.Some? ==>
      && |images.value| > 0
      && (forall i :: 0 <= i < |images.value| ==> HasExt(images.value[i], ImageExts))
      && SortedBy(images.value, Basename)
      && multiset(images.value) == multiset(FilterExt(walked, ImageExts))
  {
    if !IsTiktokPhotoUrl(url, resolved) {
      return None;
    }
    var found := CollectImages(walked);
    FilterExtEmpty(walked, ImageExts);
    if found == [] {
      return None;
    }
    var sorted := SortBy(found, Basename);
    SortBySorted(found, Basename);
    forall k | 0 <= k < |sorted| ensures HasExt(sorted[k], ImageExts) {
      assert sorted[k] in multiset(found);
    }
    return Some(sorted);
  }

  // ------------------------------------------------------------------
  // _create_fallback_tiktok_info, _format_video_info
  // ------------------------------------------------------------------

  /** The dictionary both metadata functions return. */
  datatype VideoInfo = VideoInfo(title: string, uploader: string, duration: int, filesize: int, description: string)

  const PhotoEmoji: string := "\U{1F4F8}"
  const MusicEmoji: string := "\U{1F3B5}"
  const FallbackFilesize: int := 10 * 1024 * 1024

  /** `s.split(sep)[1].split(c)[0]`, `s.split(sep)[1]` cut at a character. */
  function FieldCut(s: string, sep: string, c: char): (r: string)
    requires |sep| > 0
    ensures forall i :: 0 <= i < |r| ==> r[i] != c
  {
    BeforeFirstCharFree(SecondField(s, sep), c);
    BeforeFirst(SecondField(s, sep), [c])
  }

  /** The user name the fallback reads from the URL, free of "/". */
  function FallbackUsername(url: string): (u: string)
    ensures forall i :: 0 <= i < |u| ==> u[i] != '/'
  {
    if Contains(url, "@") && (Contains(url, "/video/") || Contains(url, "/photo/"))
    then FieldCut(url, "@", '/')
    else "Unknown"
  }

  /** `field.split('?')[0].split('/')[0]`: free of "?" and "/". */
  function CutQueryAndPath(field: string): (r: string)
    ensures forall i :: 0 <= i < |r| ==> r[i] != '?' && r[i] != '/'
  {
    var noQuery := BeforeFirst(field, "?");
    BeforeFirstCharFree(field, '?');
    BeforeFirstCharFree(noQuery, '/');
    BeforeFirstIsPrefix(noQuery, "/");
    BeforeFirst(noQuery, "/")
  }

  /** The id the fallback reads from the URL, free of "?" and "/". */
  function FallbackVideoId(url: string): (id: string)
    ensures forall i :: 0 <= i < |id| ==> id[i] != '?' && id[i] != '/'
  {
    if Contains(url, "@") && Contains(url, "/video/") then CutQueryAndPath(SecondField(url, "/video/"))
    else if Contains(url, "/photo/") then CutQueryAndPath(SecondField(url, "/photo/"))
    else "Unknown"
  }

  /**
   * `_create_fallback_tiktok_info(url)`: the uploader is "@" and the user
   * name, the duration 15 for a photo post and 30 otherwise, the size 10 MiB.
   */
  function FallbackTiktokInfo(url: string, resolved: Option<string>): (info: VideoInfo)
    ensures info.uploader == "@" + FallbackUsername(url)
    ensures info.duration == (if IsTiktokPhotoUrl(url, resolved) then 15 else 30)
    ensures info.filesize == FallbackFilesize
    ensures info.description ==
      "TikTok content from @" + FallbackUsername(url) + " (ID: " + FallbackVideoId(url) + ")"
  {
    var username := FallbackUsername(url);
    var isPhoto := IsTiktokPhotoUrl(url, resolved);
    VideoInfo(
      if isPhoto then PhotoEmoji + " TikTok Slideshow by @" + username
      else MusicEmoji + " TikTok Video by @" + username,
      "@" + username,
      if isPhoto then 15 else 30,
      FallbackFilesize,
      "TikTok content from @" + username + " (ID: " + FallbackVideoId(url) + ")")
  }

  /** The info dictionary yt-dlp returns; None is a missing key. */
  datatype RawInfo = RawInfo(
    title: Option<string>,
    uploader: Option<string>,
    duration: Option<int>,
    filesize: Option<int>,
    requestedFormats: Option<seq<Option<int>>>,
    description: Option<string>)

  /** Sum of the format sizes that are present and non-zero. */
  function SumSizes(sizes: seq<Option<int>>): int
  {
    if sizes == [] then 0
    else SumSizes(sizes[..|sizes| - 1])
         + (if sizes[|sizes| - 1].Some? && sizes[|sizes| - 1].value != 0 then sizes[|sizes| - 1].value else 0)
  }

  lemma {:induction false} SumSizesNonNegative(sizes: seq<Option<int>>)
    requires forall i :: 0 <= i < |sizes| && sizes[i].Some? ==> sizes[i].value >= 0
    ensures SumSizes(sizes) >= 0
  {
    if sizes != [] {
      SumSizesNonNegative(sizes[..|sizes| - 1]);
    }
  }

  /** Every size the extractor reports is non-negative. */
  predicate NonNegativeSizes(info: RawInfo)
  {
    && (info.requestedFormats.Some? ==>
          forall i :: 0 <= i < |info.requestedFormats.value| && info.requestedFormats.value[i].Some? ==>
            info.requestedFormats.value[i].value >= 0)
    && (info.filesize.Some? ==> info.filesize.value >= 0)
  }

  /** The size `_format_video_info` reports before the slideshow estimate. */
  function ReportedSize(info: RawInfo): int
  {
    if info.requestedFormats.Some? then SumSizes(info.requestedFormats.value)
    else if info.filesize.Some? then info.filesize.value
    else 0
  }

  /** A 50 % larger estimate for a positive size; `int(f * 1.5)` on integers. */
  function SlideshowEstimate(size: int): (r: int)
    ensures size > 0 ==> size + size / 2 == r && size <= r < 2 * size
  {
    (size * 3) / 2
  }

  function WithDefault(o: Option<string>, d: string): string
  {
    if o.Some? then o.value else d
  }

  /**
   * The loop of `_format_video_info` over `requested_formats`: the sum of
   * the sizes that are present and non-zero.
   */
  method SumFormatSizes(formats: seq<Option<int>>) returns (total: int)
    ensures total == SumSizes(formats)
    ensures (forall i :: 0 <= i < |formats| && formats[i].Some? ==> formats[i].value >= 0) ==> total >= 0
  {
    total := 0;
    var i := 0;
    while i < |formats|
      invariant 0 <= i <= |formats|
      invariant total == SumSizes(formats[..i])
    {
      assert formats[..i + 1][..i] == formats[..i];
      if formats[i].Some? && formats[i].value != 0 {
        total := total + formats[i].value;
      }
      i := i + 1;
    }
    assert formats[..i] == formats;
    if forall i :: 0 <= i < |formats| && formats[i].Some? ==> formats[i].value >= 0 {
      SumSizesNonNegative(formats);
    }
  }

  /**
   * The size `_format_video_info` reports: the format sizes summed, or the
   * single size, then enlarged by half for a positive photo-post size.
   */
  method EstimateSize(info: RawInfo, isPhoto: bool) returns (filesize: int)
    ensures filesize == if isPhoto && ReportedSize(info) > 0 then SlideshowEstimate(ReportedSize(info)) else ReportedSize(info)
    ensures NonNegativeSizes(info) ==> filesize >= 0
    ensures isPhoto && ReportedSize(info) > 0 ==> ReportedSize(info) <= filesize < 2 * ReportedSize(info)
  {
    filesize := 0;
    if info.requestedFormats.Some? {
      filesize := SumFormatSizes(info.requestedFormats.value);
    } else if info.filesize.Some? && info.filesize.value != 0 {
      filesize := info.filesize.value;
    }
    if isPhoto && filesize > 0 {
      filesize := SlideshowEstimate(filesize);
    }
  }

  /**
   * The description `_format_video_info` reports: "" for a missing or empty
   * one, otherwise its first 200 characters followed by "...".
   */
  function ShortDescription(d: Option<string>): (r: string)
    ensures WithDefault(d, "") == "" <==> r == ""
    ensures WithDefault(d, "") != "" ==>
      && EndsWith(r, "...")
      && |r| <= 203
      && StartsWith(d.value, r[..|r| - 3])
      && (|d.value| <= 200 ==> r == d.value + "...")
      && (|d.value| > 200 ==> r == d.value[..200] + "...")
  {
    if d.Some? && d.value != "" then (if |d.value| <= 200 then d.value else d.value[..200]) + "..." else ""
  }

  /**
   * `_format_video_info(info, url)`: tags the title by post type, sums the
   * sizes of the selected formats (or takes the single size), enlarges it by
   * half for a positive photo-post size, and cuts the description to 200
   * characters followed by "...". The photo-post test runs twice, once for
   * the title and once for the size, and each run resolves a short link
   * anew: `resolvedForTitle` and `resolvedForSize` are the two answers.
   */
  method FormatVideoInfo(info: RawInfo, originalUrl: string, resolvedForTitle: Option<string>,
                         resolvedForSize: Option<string>) returns (r: VideoInfo)
    ensures var title := WithDefault(info.title, "Unknown");
      r.title ==
        if IsTiktokPhotoUrl(originalUrl, resolvedForTitle) then PhotoEmoji + " TikTok Slideshow: " + title
        else if Contains(originalUrl, "tiktok.com") then MusicEmoji + " " + title
        else title
    ensures r.uploader == WithDefault(info.uploader, "Unknown")
    ensures r.duration == if info.duration.Some? then info.duration.value else 0
    ensures r.filesize ==
      if IsTiktokPhotoUrl(originalUrl, resolvedForSize) && ReportedSize(info) > 0
      then SlideshowEstimate(ReportedSize(info)) else ReportedSize(info)
    ensures NonNegativeSizes(info) ==> r.filesize >= 0
    ensures r.description == ShortDescription(info.description)
  {
    var title := WithDefault(info.title, "Unknown");
    if IsTiktokPhotoUrl(originalUrl, resolvedForTitle) {
      title := PhotoEmoji + " TikTok Slideshow: " + title;
    } else if Contains(originalUrl, "tiktok.com") {
      title := MusicEmoji + " " + title;
    }
    var filesize := EstimateSize(info, IsTiktokPhotoUrl(originalUrl, resolvedForSize));
    var description := "";
    if info.description.Some? && info.description.value != "" {
      var d := info.description.value;
      description := (if |d| <= 200 then d else d[..200]) + "...";
    }
    r := VideoInfo(title, WithDefault(info.uploader, "Unknown"),
                   if info.duration.Some? then info.duration.value else 0,
                   filesize, description);
  }
}
