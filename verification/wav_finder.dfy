/**
 * The file discovery of src/core/wav_finder.py: a base directory, the `.wav` files found below it
 * by the last search, and the setter that refuses a base path that is not a directory.
 *
 * The recursive directory walk (`rglob("*.wav")`) is I/O: its outcome for the base path is a
 * parameter, `listing`.
 */
module Finder {
  import opened Wrappers
  import opened Files

  /**
   * The finder's state: `_base_path`, `_files`, and `n_processed_files`, which only `reset()`
   * ever assigns (so it is absent until the first reset).
   */
  datatype WavFinder = WavFinder(basePath: Path, files: seq<Path>, nProcessed: Option<nat>)

  /** The state after construction with a base path. */
  function Create(basePath: Path): (f: WavFinder)
    ensures f.basePath == basePath && |f.files| == 0 && f.nProcessed.None?
  {
    WavFinder(basePath, [], None)
  }

  /** `reset()`: forgets the found files and zeroes the counter, keeping the base path. */
  function Reset(f: WavFinder): (r: WavFinder)
    ensures r.basePath == f.basePath && |r.files| == 0 && r.nProcessed == Some(0)
  {
    WavFinder(f.basePath, [], Some(0))
  }

  /** `base_path.is_dir()`. */
  predicate IsDir(fs: FileSystem, p: Path) {
    p in fs.dirs
  }

  /**
   * `find_wav_files()`: resets, refuses a base path that is no longer a directory, and
   * otherwise keeps every path the walk yields, in order. Succeeds when at least one was found.
   */
  method FindWavFiles(f: WavFinder, fs: FileSystem, listing: seq<Path>) returns (f': WavFinder, found: bool)
    ensures f'.basePath == f.basePath && f'.nProcessed == Some(0)
    ensures found <==> IsDir(fs, f.basePath) && |listing| > 0
    ensures IsDir(fs, f.basePath) ==> f'.files == listing
    ensures !IsDir(fs, f.basePath) ==> |f'.files| == 0
    ensures found <==> |f'.files| > 0
  {
    f' := Reset(f);
    if !IsDir(fs, f'.basePath) {
      return f', false;
    }
    var i := 0;
    while i < |listing|
      invariant 0 <= i <= |listing|
      invariant f'.basePath == f.basePath && f'.nProcessed == Some(0)
      invariant f'.files == listing[..i]
    {
      f' := f'.(files := f'.files + [listing[i]]);
      i := i + 1;
      assert listing[..i] == listing[..i - 1] + [listing[i - 1]];
    }
    assert listing[..i] == listing;
    found := |f'.files| > 0;
  }

  /**
   * The `base_path` setter: a path that is not a directory raises `NotADirectoryError` and
   * leaves the finder as it was; otherwise the finder is reset and then points at the new path.
   */
  function SetBasePath(f: WavFinder, fs: FileSystem, basePath: Path): (r: Result<WavFinder>)
    ensures r.Raised? <==> !IsDir(fs, basePath)
    ensures r.Raised? ==> r.error == NotADirectory
    ensures r.Ok? ==> r.value.basePath == basePath && |r.value.files| == 0 && r.value.nProcessed == Some(0)
  {
    if !IsDir(fs, basePath) then Raised(NotADirectory)
    else Ok(Reset(f).(basePath := basePath))
  }

  /** Right after a successful `base_path` assignment, a search succeeds exactly when the walk yields something. */
  method SetThenFind(f: WavFinder, fs: FileSystem, basePath: Path, listing: seq<Path>)
    returns (r: Result<WavFinder>, found: bool)
    ensures r.Raised? <==> !IsDir(fs, basePath)
    ensures r.Raised? ==> !found
    ensures r.Ok? ==> r.value.basePath == basePath && r.value.files == listing
    ensures found <==> IsDir(fs, basePath) && |listing| > 0
  {
    var moved := SetBasePath(f, fs, basePath);
    if moved.Raised? {
      return moved, false;
    }
    var f';
    f', found := FindWavFiles(moved.value, fs, listing);
    r := Ok(f');
  }
}
