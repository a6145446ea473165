/**
 * The single-class predecessor in src/core.py: one `Core` that finds `.wav` files below a base
 * directory, audits them for `WAVE_FORMAT_EXTENSIBLE`, and patches every flagged file, with its
 * own copies of the hex helpers. The helpers test the chunk count against the constant 2 rather
 * than against their `field_size` argument.
 */
module LegacyCore {
  import opened Wrappers
  import opened Seqs
  import opened Files
  import opened Wave
  import opened HexCodec
  import Fixer

  /**
   * `read_hex_value` of src/core.py: reads up to `fieldSize` bytes, but accepts the read only
   * when exactly two bytes came back.
   */
  function LegacyReadHexValue(fs: FileSystem, file: Path, offset: nat, fieldSize: nat): (r: string)
    ensures fieldSize == AudioFormatFieldSize ==> r == ReadHexValue(fs, file, offset, fieldSize)
    ensures fieldSize < AudioFormatFieldSize ==> r == ""
    ensures r == "" || r == ReadHexValue(fs, file, offset, AudioFormatFieldSize)
  {
    if !CanOpen(fs, file, ReadBinary) then ""
    else
      var got := ReadLoop(fs.contents[file], offset, fieldSize);
      if |got| != AudioFormatFieldSize then ""
      else
        assert got == ReadLoop(fs.contents[file], offset, AudioFormatFieldSize);
        FieldHexDecodes(got);
        FieldHex(got)
  }

  /** A one-byte field is never read, however long the file: the current helper reads it. */
  lemma LegacyReadIgnoresFieldSize(fs: FileSystem, file: Path, offset: nat)
    requires CanOpen(fs, file, ReadBinary) && offset + 1 <= |fs.contents[file]|
    ensures LegacyReadHexValue(fs, file, offset, 1) == ""
    ensures |ReadHexValue(fs, file, offset, 1)| == 2
  {
  }

  /**
   * `set_hex_data` of src/core.py: refuses unless the hex string splits into exactly two
   * chunks, whatever `fieldSize` says, and then behaves as the current helper does for a
   * two-byte field.
   */
  function LegacySetHexData(fs: FileSystem, file: Path, offset: nat, fieldSize: nat, hex: string): (r: WriteReply)
    ensures r == SetHexData(fs, file, offset, AudioFormatFieldSize, hex)
  {
    var chunks := Chunks(hex);
    if |chunks| != AudioFormatFieldSize then WriteReply(fs, Refused)
    else
      var order := Reverse(chunks);
      if !CanOpen(fs, file, ReadWriteBinary) then WriteReply(fs, OpenFailed)
      else
        var (data, complete) := WriteChunks(fs.contents[file], offset, order);
        WriteReply(Store(fs, file, data), if complete then Written else RaisedValueError)
  }

  /** A one-byte field cannot be written: the two-digit string for it is refused. */
  lemma LegacySetRefusesOneByteField(fs: FileSystem, file: Path, offset: nat)
    ensures LegacySetHexData(fs, file, offset, 1, "01").status == Refused
    ensures SetHexData(fs, file, offset, 1, "01").status != Refused
  {
    assert Chunks("01") == ["01"];
  }

  // ---------------------------------------------------------------------------------------
  // The core

  /** `Core`'s state: `_base_path`, `_files` and `_suspicious_files`. */
  datatype Core = Core(basePath: Path, files: seq<Path>, suspicious: seq<Path>)

  /** `is_wav_file_suspicious(file)`: the same test as the current fixer's. */
  function IsWavFileSuspicious(fs: FileSystem, file: Path): (r: bool)
    ensures r <==> Fixer.IsWavFileIncompatible(fs, file)
  {
    var h := LegacyReadHexValue(fs, file, AudioFormatOffset, AudioFormatFieldSize);
    if h == "" then false
    else
      ReadTwoByteValue(fs, file, AudioFormatOffset);
      HexValue(h) == WaveFormatExtensible
  }

  /** `reset()`: forgets the found files and the audit result, keeping the base path. */
  function Reset(c: Core): (r: Core)
    ensures r.basePath == c.basePath && |r.files| == 0 && |r.suspicious| == 0
  {
    c.(files := [], suspicious := [])
  }

  /** After `reset()` the repair is refused and no file is written. */
  method ResetRefusesRepair(c: Core, fs: FileSystem) returns (fs': FileSystem, ok: bool)
    ensures !ok && fs' == fs
  {
    fs', ok := FixSuspiciousWavFiles(Reset(c), fs);
  }

  /**
   * The `base_path` setter: a non-directory raises `NotADirectoryError` and changes nothing;
   * otherwise both lists are cleared and the base path replaced.
   */
  function SetBasePath(c: Core, fs: FileSystem, basePath: Path): (r: Result<Core>)
    ensures r.Raised? <==> basePath !in fs.dirs
    ensures r.Raised? ==> r.error == NotADirectory
    ensures r.Ok? ==> r.value == Core(basePath, [], [])
  {
    if basePath !in fs.dirs then Raised(NotADirectory)
    else Ok(Reset(c).(basePath := basePath))
  }

  /**
   * `find_wav_files()`: forgets the audit result, refuses a base path that is not a directory
   * (keeping the previous file list), and otherwise replaces the file list by the walk's result.
   */
  function FindWavFiles(c: Core, fs: FileSystem, listing: seq<Path>): (r: (Core, bool))
    ensures r.0.basePath == c.basePath && r.0.suspicious == []
    ensures c.basePath in fs.dirs ==> r.0.files == listing
    ensures c.basePath !in fs.dirs ==> r.0.files == c.files
    ensures r.1 <==> c.basePath in fs.dirs && |listing| > 0
  {
    var cleared := c.(suspicious := []);
    if c.basePath !in fs.dirs then (cleared, false)
    else (cleared.(files := listing), |listing| > 0)
  }

  /**
   * `find_suspicious_wav_files()`: clears the previous result, refuses when no files are known,
   * and otherwise keeps, in order, the files the fixer would flag.
   */
  method FindSuspiciousWavFiles(c: Core, fs: FileSystem) returns (c': Core, found: bool)
    ensures c'.basePath == c.basePath && c'.files == c.files
    ensures c'.suspicious == Fixer.IncompatibleAmong(fs, c.files)
    ensures found <==> |c'.suspicious| > 0
  {
    c' := c.(suspicious := []);
    if |c.files| == 0 {
      return c', false;
    }
    var i := 0;
    while i < |c.files|
      invariant 0 <= i <= |c.files|
      invariant c'.basePath == c.basePath && c'.files == c.files
      invariant c'.suspicious == Fixer.IncompatibleAmong(fs, c.files[..i])
    {
      var file := c.files[i];
      Fixer.IncompatibleAmongExtend(fs, c.files, i);
      if IsWavFileSuspicious(fs, file) {
        c' := c'.(suspicious := c'.suspicious + [file]);
      }
      i := i + 1;
    }
    assert c.files[..i] == c.files;
    found := |c'.suspicious| > 0;
  }

  /**
   * `fix_suspicious_wav_files()`: refuses when no files are known (even if some are flagged);
   * otherwise writes the PCM tag into every flagged file, never removing any from the list, and
   * succeeds exactly when every flagged file could be opened for writing. Every writable flagged
   * file ends up PCM; files that are not flagged are untouched.
   */
  method FixSuspiciousWavFiles(c: Core, fs: FileSystem) returns (fs': FileSystem, ok: bool)
    ensures |c.files| == 0 ==> !ok && fs' == fs
    ensures SameLayout(fs, fs')
    ensures |c.files| > 0 ==> (ok <==> forall p :: p in c.suspicious ==> CanOpen(fs, p, ReadWriteBinary))
    ensures |c.files| > 0 ==> forall p :: p in c.suspicious && CanOpen(fs, p, ReadWriteBinary) ==> ReadsPcm(fs', p)
    ensures forall q :: q in fs.contents && q !in c.suspicious ==> fs'.contents[q] == fs.contents[q]
  {
    fs' := fs;
    if |c.files| == 0 {
      return fs', false;
    }
    ok := true;
    var i := 0;
    while i < |c.suspicious|
      invariant 0 <= i <= |c.suspicious|
      invariant SameLayout(fs, fs')
      invariant ok <==> forall j :: 0 <= j < i ==> CanOpen(fs, c.suspicious[j], ReadWriteBinary)
      invariant forall j :: 0 <= j < i && CanOpen(fs, c.suspicious[j], ReadWriteBinary) ==> ReadsPcm(fs', c.suspicious[j])
      invariant forall q :: q in fs.contents && q !in c.suspicious[..i] ==> fs'.contents[q] == fs.contents[q]
    {
      var file := c.suspicious[i];
      var next, fixed := FixOne(fs, fs', file);
      assert c.suspicious[..i + 1] == c.suspicious[..i] + [file];
      forall j | 0 <= j < i + 1 && CanOpen(fs, c.suspicious[j], ReadWriteBinary)
        ensures ReadsPcm(next, c.suspicious[j])
      {
        if j < i {
          assert ReadsPcm(fs', c.suspicious[j]);
        }
      }
      if !fixed {
        ok := false;
      }
      fs' := next;
      i := i + 1;
    }
    assert c.suspicious[..i] == c.suspicious;
    assert forall p :: p in c.suspicious ==> exists j :: 0 <= j < |c.suspicious| && c.suspicious[j] == p;
  }

  /**
   * One pass of the repair loop on `file`: write the PCM tag, then re-check. The pass fails
   * exactly when the file cannot be opened for writing; it touches no other file, and a file
   * that read PCM before still does.
   */
  method FixOne(fs0: FileSystem, fs: FileSystem, file: Path) returns (fs': FileSystem, fixed: bool)
    requires SameLayout(fs0, fs)
    ensures SameLayout(fs0, fs')
    ensures fixed <==> CanOpen(fs0, file, ReadWriteBinary)
    ensures fixed ==> ReadsPcm(fs', file)
    ensures OnlyChanged(fs, fs', file)
    ensures forall p :: ReadsPcm(fs, p) ==> ReadsPcm(fs', p)
  {
    var w := LegacySetHexData(fs, file, AudioFormatOffset, AudioFormatFieldSize, PcmHex);
    Fixer.PcmWrite(fs, file);
    SameLayoutCanOpen(fs0, fs, file, ReadWriteBinary);
    var still := IsWavFileSuspicious(w.fs, file);
    fs' := w.fs;
    fixed := w.Succeeded() && !still;
  }

  /**
   * Unlike the current fixer's walk over its own shrinking list, this loop never edits the list
   * it walks: when every flagged file is writable, the repair succeeds and every one of them
   * reads PCM afterwards.
   */
  method FixRepairsEveryFlaggedFile(c: Core, fs: FileSystem) returns (fs': FileSystem, ok: bool)
    requires |c.files| > 0
    requires forall p :: p in c.suspicious ==> CanOpen(fs, p, ReadWriteBinary)
    ensures ok
    ensures forall p :: p in c.suspicious ==> ReadsPcm(fs', p)
  {
    fs', ok := FixSuspiciousWavFiles(c, fs);
  }
}
