/** File classification and the recursive media walk of src/media.ts. The directory
    tree is given as a value: `readdirSync` order is the order of `entries`, and every
    path is already the resolved absolute path `path.resolve(path.join(dir, name))`. */
module Media {
  import opened Wrappers
  import opened Text
  import opened Constants

  /** `exts.some(ext => s.endsWith(ext))`. */
  function AnyEndsWith(s: string, exts: seq<string>): (r: bool)
    ensures r <==> exists i :: 0 <= i < |exts| && EndsWith(s, exts[i])
  {
    if exts == [] then false
    else EndsWith(s, exts[0]) || AnyEndsWith(s, exts[1..])
  }

  function IsMediaFile(filePath: string): bool {
    AnyEndsWith(Lower(filePath), MEDIA_EXTENSIONS)
  }

  function IsVideoFile(filePath: string): bool {
    AnyEndsWith(Lower(filePath), VIDEO_EXTENSIONS)
  }

  /** A path is a media file exactly when its lower-cased form ends with a media suffix. */
  lemma MediaFileMeansMediaSuffix(filePath: string)
    ensures IsMediaFile(filePath) <==>
      exists i :: 0 <= i < |MEDIA_EXTENSIONS| && EndsWith(Lower(filePath), MEDIA_EXTENSIONS[i])
    ensures IsVideoFile(filePath) <==>
      exists i :: 0 <= i < |VIDEO_EXTENSIONS| && EndsWith(Lower(filePath), VIDEO_EXTENSIONS[i])
  {
  }

  /** Classification ignores letter case. */
  lemma ClassificationIgnoresCase(filePath: string)
    ensures IsMediaFile(filePath) == IsMediaFile(Lower(filePath))
    ensures IsVideoFile(filePath) == IsVideoFile(Lower(filePath))
  {
    LowerIdempotent(filePath);
  }

  /** Every video file is a media file. */
  lemma VideoIsMedia(filePath: string)
    ensures IsVideoFile(filePath) ==> IsMediaFile(filePath)
  {
    if IsVideoFile(filePath) {
      var i :| 0 <= i < |VIDEO_EXTENSIONS| && EndsWith(Lower(filePath), VIDEO_EXTENSIONS[i]);
      MediaExtensionsLayout();
      assert EndsWith(Lower(filePath), MEDIA_EXTENSIONS[18 + i]);
    }
  }

  /** Matching is by suffix, not by the last extension: a two-part suffix such as
      `.nii.gz` is recognised, in any letter case. */
  lemma MultiDotSuffix(stem: string)
    ensures IsMediaFile(stem + ".nii.gz")
    ensures IsMediaFile(stem + ".NII.GZ")
  {
    var l := Lower(stem + ".NII.GZ");
    assert l[|l| - 7..] == ".nii.gz";
    assert MEDIA_EXTENSIONS[15] == ".nii.gz";
    assert EndsWith(Lower(stem + ".nii.gz"), MEDIA_EXTENSIONS[15]);
    assert EndsWith(l, MEDIA_EXTENSIONS[15]);
  }

  // ---------------------------------------------------------------- the directory walk

  /** A directory tree as `readdirSync`/`statSync` see it. A symbolic link appears as
      what it points to. `Unlistable` is a directory that `readdirSync` refuses;
      `Dangling` is a name that `statSync` cannot follow, such as a dangling link. */
  datatype Entry =
    | File(path: string)
    | Directory(path: string, entries: seq<Entry>)
    | Unlistable(path: string)
    | Dangling(path: string)

  /** `statSync(p).isDirectory()`. */
  predicate IsDirectory(e: Entry) {
    e.Directory? || e.Unlistable?
  }

  function Width(e: Entry): nat {
    if e.Directory? then |e.entries| + 1 else 0
  }

  /** The media files a walk collects from one entry, in walk order. */
  function EntryMediaFiles(e: Entry): seq<string>
    decreases e, Width(e)
  {
    match e
    case File(p) => if IsMediaFile(p) then [p] else []
    case Directory(_, es) => MediaFilesOf(e, |es|)
    case Unlistable(_) => []
    case Dangling(_) => []
  }

  /** The media files a walk collects from the first `n` entries of directory `d`. */
  function MediaFilesOf(d: Entry, n: nat): seq<string>
    requires d.Directory? && n <= |d.entries|
    decreases d, n
  {
    if n == 0 then [] else MediaFilesOf(d, n - 1) + EntryMediaFiles(d.entries[n - 1])
  }

  /** The path at which the walk of an entry throws, the first in walk order, if any. */
  function WalkError(e: Entry): Option<string>
    decreases e, Width(e)
  {
    match e
    case File(_) => None
    case Directory(_, es) => WalkErrorOf(e, |es|)
    case Unlistable(p) => Some(p)
    case Dangling(p) => Some(p)
  }

  /** The same for the first `n` entries of directory `d`. */
  function WalkErrorOf(d: Entry, n: nat): Option<string>
    requires d.Directory? && n <= |d.entries|
    decreases d, n
  {
    if n == 0 then None
    else if WalkErrorOf(d, n - 1).Some? then WalkErrorOf(d, n - 1)
    else WalkError(d.entries[n - 1])
  }

  /** The non-directory paths anywhere below an entry (the entry itself if it is a file). */
  ghost predicate FileBelow(e: Entry, p: string)
    decreases e
  {
    match e
    case File(q) => p == q
    case Directory(_, es) => exists i :: 0 <= i < |es| && FileBelow(es[i], p)
    case Unlistable(_) => false
    case Dangling(_) => false
  }

  /** The entries anywhere below an entry (the entry itself included) that the walk
      cannot read. */
  ghost predicate BrokenBelow(e: Entry, p: string)
    decreases e
  {
    match e
    case File(_) => false
    case Directory(_, es) => exists i :: 0 <= i < |es| && BrokenBelow(es[i], p)
    case Unlistable(q) => p == q
    case Dangling(q) => p == q
  }

  /** The walk returns exactly the media files of the tree: nothing that is a directory,
      nothing that fails `isMediaFile`, and every media file below the root. */
  lemma {:induction false} EntryMediaFilesExact(e: Entry, p: string)
    ensures p in EntryMediaFiles(e) <==> FileBelow(e, p) && IsMediaFile(p)
    decreases e, Width(e)
  {
    match e
    case File(q) =>
    case Directory(_, es) => MediaFilesOfExact(e, |es|, p);
    case Unlistable(_) =>
    case Dangling(_) =>
  }

  lemma {:induction false} MediaFilesOfExact(d: Entry, n: nat, p: string)
    requires d.Directory? && n <= |d.entries|
    ensures p in MediaFilesOf(d, n) <==>
      (exists i :: 0 <= i < n && FileBelow(d.entries[i], p)) && IsMediaFile(p)
    decreases d, n
  {
    if n > 0 {
      MediaFilesOfExact(d, n - 1, p);
      EntryMediaFilesExact(d.entries[n - 1], p);
      if p in MediaFilesOf(d, n) {
        if p in EntryMediaFiles(d.entries[n - 1]) {
          assert FileBelow(d.entries[n - 1], p);
        }
      }
    }
  }

  /** The walk throws exactly when something below the root cannot be read, and then
      at such an entry. */
  lemma {:induction false} WalkErrorExact(e: Entry, p: string)
    ensures BrokenBelow(e, p) ==> WalkError(e).Some?
    ensures WalkError(e).Some? ==> BrokenBelow(e, WalkError(e).value)
    decreases e, Width(e)
  {
    match e
    case File(_) =>
    case Directory(_, es) => WalkErrorOfExact(e, |es|, p);
    case Unlistable(_) =>
    case Dangling(_) =>
  }

  lemma {:induction false} WalkErrorOfExact(d: Entry, n: nat, p: string)
    requires d.Directory? && n <= |d.entries|
    ensures (exists i :: 0 <= i < n && BrokenBelow(d.entries[i], p)) ==> WalkErrorOf(d, n).Some?
    ensures WalkErrorOf(d, n).Some? ==>
      exists i :: 0 <= i < n && BrokenBelow(d.entries[i], WalkErrorOf(d, n).value)
    decreases d, n
  {
    if n > 0 {
      WalkErrorOfExact(d, n - 1, p);
      EntryWalkError(d, n - 1, p);
    }
  }

  /** The last of the first `n` entries, as `WalkErrorOfExact` needs it. */
  lemma {:induction false} EntryWalkError(d: Entry, k: nat, p: string)
    requires d.Directory? && k < |d.entries|
    ensures BrokenBelow(d.entries[k], p) ==> WalkError(d.entries[k]).Some?
    ensures WalkError(d.entries[k]).Some? ==> BrokenBelow(d.entries[k], WalkError(d.entries[k]).value)
    decreases d, 0
  {
    WalkErrorExact(d.entries[k], p);
  }

  /** Once the walk has thrown, the later entries do not matter. */
  lemma {:induction false} WalkErrorOfKeeps(d: Entry, i: nat, n: nat)
    requires d.Directory? && i <= n <= |d.entries| && WalkErrorOf(d, i).Some?
    ensures WalkErrorOf(d, n) == WalkErrorOf(d, i)
    decreases n
  {
    if n > i {
      WalkErrorOfKeeps(d, i, n - 1);
    }
  }

  /** `getAllImageFiles(dir)`: the media files below a directory, depth first in
      directory order, or the path at which `readdirSync` or `statSync` throws. */
  method GetAllImageFiles(dir: Entry) returns (r: Result<seq<string>, string>)
    requires IsDirectory(dir)
    ensures r.Err? <==> WalkError(dir).Some?
    ensures r.Err? ==> r.error == WalkError(dir).value
    ensures r.Ok? ==> r.value == EntryMediaFiles(dir)
    ensures r.Ok? ==> forall p :: p in r.value <==> FileBelow(dir, p) && IsMediaFile(p)
    decreases dir
  {
    if dir.Unlistable? {
      return Err(dir.path);
    }
    var results := [];
    for i := 0 to |dir.entries|
      invariant WalkErrorOf(dir, i).None?
      invariant results == MediaFilesOf(dir, i)
    {
      var entry := dir.entries[i];
      if entry.Dangling? {
        WalkErrorOfKeeps(dir, i + 1, |dir.entries|);
        return Err(entry.path);
      }
      if IsDirectory(entry) {
        var sub := GetAllImageFiles(entry);
        if sub.Err? {
          WalkErrorOfKeeps(dir, i + 1, |dir.entries|);
          return Err(sub.error);
        }
        results := results + sub.value;
      } else if IsMediaFile(entry.path) {
        results := results + [entry.path];
      }
    }
    forall p ensures p in results <==> FileBelow(dir, p) && IsMediaFile(p) {
      MediaFilesOfExact(dir, |dir.entries|, p);
    }
    return Ok(results);
  }
}
