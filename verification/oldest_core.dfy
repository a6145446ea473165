/**
 * The first version of the program, core.py at the repository root: the same `Core` as its
 * successor, but `open()` failures propagate as exceptions, the audit never clears its previous
 * result, and the base path is a plain attribute without a directory check.
 */
module OldestCore {
  import opened Wrappers
  import opened Files
  import opened Wave
  import opened HexCodec
  import Fixer
  import LegacyCore

  /** `read_hex_value` of core.py: an unopenable file raises instead of reading as `""`. */
  function ReadHexValue(fs: FileSystem, file: Path, offset: nat, fieldSize: nat): (r: Result<string>)
    ensures r.Raised? <==> !CanOpen(fs, file, ReadBinary)
    ensures r.Raised? ==> r.error == OpenError
    ensures r.Ok? ==> r.value == LegacyCore.LegacyReadHexValue(fs, file, offset, fieldSize)
  {
    if !CanOpen(fs, file, ReadBinary) then Raised(OpenError)
    else Ok(LegacyCore.LegacyReadHexValue(fs, file, offset, fieldSize))
  }

  /**
   * `set_hex_data` of core.py: `False` for a string that does not split into two chunks, an
   * exception when the file cannot be opened for writing or a chunk is not a decimal byte, and
   * `True` after a complete write.
   */
  function SetHexData(fs: FileSystem, file: Path, offset: nat, fieldSize: nat, hex: string): (r: (FileSystem, Result<bool>))
    ensures var w := LegacyCore.LegacySetHexData(fs, file, offset, fieldSize, hex);
      && r.0 == w.fs
      && (r.1 == Ok(false) <==> w.status.Refused?)
      && (r.1 == Ok(true) <==> w.status.Written?)
      && (r.1 == Raised(OpenError) <==> w.status.OpenFailed?)
      && (r.1 == Raised(ValueError) <==> w.status.RaisedValueError?)
  {
    var w := LegacyCore.LegacySetHexData(fs, file, offset, fieldSize, hex);
    match w.status
    case Refused => (w.fs, Ok(false))
    case OpenFailed => (w.fs, Raised(OpenError))
    case Written => (w.fs, Ok(true))
    case RaisedValueError => (w.fs, Raised(ValueError))
  }

  /** `is_wav_file_suspicious(file)`: the current test, except that an unreadable file raises. */
  method IsWavFileSuspicious(fs: FileSystem, file: Path) returns (r: Result<bool>)
    ensures r.Raised? <==> !CanOpen(fs, file, ReadBinary)
    ensures r.Raised? ==> r.error == OpenError
    ensures r.Ok? ==> (r.value <==> Fixer.IsWavFileIncompatible(fs, file))
  {
    var h := ReadHexValue(fs, file, AudioFormatOffset, AudioFormatFieldSize);
    if h.Raised? {
      return Raised(h.error);
    }
    r := Ok(LegacyCore.IsWavFileSuspicious(fs, file));
  }

  /** `Core`'s attributes: `base_path`, `files` and `suspicious_files`. */
  datatype Core = Core(basePath: Path, files: seq<Path>, suspicious: seq<Path>)

  /** `find_wav_files()`: like its successor's, but the previous audit result is kept. */
  function FindWavFiles(c: Core, fs: FileSystem, listing: seq<Path>): (r: (Core, bool))
    ensures r.0.basePath == c.basePath && r.0.suspicious == c.suspicious
    ensures c.basePath in fs.dirs ==> r.0.files == listing
    ensures c.basePath !in fs.dirs ==> r.0.files == c.files
    ensures r.1 <==> c.basePath in fs.dirs && |listing| > 0
  {
    if c.basePath !in fs.dirs then (c, false)
    else (c.(files := listing), |listing| > 0)
  }

  /**
   * `find_suspicious_wav_files()`: refuses when no files are known; otherwise appends the
   * flagged files to the result of earlier audits (it is never cleared) and reports whether
   * that accumulated list is non-empty. The first unreadable file raises, after the flagged
   * files before it were appended.
   */
  method FindSuspiciousWavFiles(c: Core, fs: FileSystem) returns (c': Core, r: Result<bool>)
    ensures c'.basePath == c.basePath && c'.files == c.files
    ensures |c.files| == 0 ==> c' == c && r == Ok(false)
    ensures |c.files| > 0 ==>
      (r.Raised? <==> exists j :: 0 <= j < |c.files| && !CanOpen(fs, c.files[j], ReadBinary))
    ensures |c.files| > 0 && r.Ok? ==>
      && c'.suspicious == c.suspicious + Fixer.IncompatibleAmong(fs, c.files)
      && (r.value <==> |c'.suspicious| > 0)
    ensures r.Raised? ==> r.error == OpenError
    ensures r.Raised? ==> exists k :: (
      && 0 <= k < |c.files|
      && !CanOpen(fs, c.files[k], ReadBinary)
      && (forall j :: 0 <= j < k ==> CanOpen(fs, c.files[j], ReadBinary))
      && c'.suspicious == c.suspicious + Fixer.IncompatibleAmong(fs, c.files[..k]))
  {
    c' := c;
    if |c.files| == 0 {
      return c', Ok(false);
    }
    var i := 0;
    while i < |c.files|
      invariant 0 <= i <= |c.files|
      invariant c'.basePath == c.basePath && c'.files == c.files
      invariant forall j :: 0 <= j < i ==> CanOpen(fs, c.files[j], ReadBinary)
      invariant c'.suspicious == c.suspicious + Fixer.IncompatibleAmong(fs, c.files[..i])
    {
      var file := c.files[i];
      var s := IsWavFileSuspicious(fs, file);
      if s.Raised? {
        return c', s;
      }
      Fixer.IncompatibleAmongExtend(fs, c.files, i);
      if s.value {
        c' := c'.(suspicious := c'.suspicious + [file]);
      }
      i := i + 1;
    }
    assert c.files[..i] == c.files;
    r := Ok(|c'.suspicious| > 0);
  }

  /** Auditing the same readable files twice lists every flagged file twice. */
  method AuditTwice(c: Core, fs: FileSystem) returns (twice: Core)
    requires |c.files| > 0 && forall j :: 0 <= j < |c.files| ==> CanOpen(fs, c.files[j], ReadBinary)
    ensures var found := Fixer.IncompatibleAmong(fs, c.files);
      twice.suspicious == c.suspicious + found + found
  {
    var once, r1 := FindSuspiciousWavFiles(c, fs);
    var r2;
    twice, r2 := FindSuspiciousWavFiles(once, fs);
  }

  /**
   * One pass of the repair loop: write the PCM tag, then re-check the file. It raises exactly
   * when the file cannot be opened for writing; otherwise the pass is reported fixed and the
   * file reads PCM. No other file changes.
   */
  method RepairOne(fs: FileSystem, file: Path) returns (fs': FileSystem, r: Result<bool>)
    ensures OnlyChanged(fs, fs', file)
    ensures r.Raised? <==> !CanOpen(fs, file, ReadWriteBinary)
    ensures r.Raised? ==> r.error == OpenError
    ensures r.Ok? ==> r.value && ReadsPcm(fs', file)
  {
    var w := SetHexData(fs, file, AudioFormatOffset, AudioFormatFieldSize, PcmHex);
    Fixer.PcmWrite(fs, file);
    fs' := w.0;
    if w.1.Raised? {
      return fs', w.1;
    }
    Fixer.PcmIsCompatible(fs', file);
    var check := IsWavFileSuspicious(fs', file);
    r := Ok(w.1.value && !(check.Ok? && check.value));
  }

  /**
   * `fix_suspicious_wav_files()`: refuses when no files are known; otherwise, for each flagged
   * file in turn, writes the PCM tag and re-checks it. When every flagged file can be opened
   * for writing it returns `True` and all of them read PCM; otherwise the first unwritable one
   * raises, keeping the earlier writes. Only flagged files change.
   */
  method FixSuspiciousWavFiles(c: Core, fs: FileSystem) returns (fs': FileSystem, r: Result<bool>)
    ensures |c.files| == 0 ==> fs' == fs && r == Ok(false)
    ensures SameLayout(fs, fs')
    ensures |c.files| > 0 ==>
      (r.Raised? <==> exists j :: 0 <= j < |c.suspicious| && !CanOpen(fs, c.suspicious[j], ReadWriteBinary))
    ensures r.Raised? ==> r.error == OpenError
    ensures r.Ok? ==> |c.files| > 0 ==> r.value && forall j :: 0 <= j < |c.suspicious| ==> ReadsPcm(fs', c.suspicious[j])
    ensures forall q :: q in fs.contents && q !in c.suspicious ==> fs'.contents[q] == fs.contents[q]
  {
    fs' := fs;
    if |c.files| == 0 {
      return fs', Ok(false);
    }
    var overall := true;
    var i := 0;
    while i < |c.suspicious|
      invariant 0 <= i <= |c.suspicious|
      invariant SameLayout(fs, fs')
      invariant overall
      invariant forall j :: 0 <= j < i ==> CanOpen(fs, c.suspicious[j], ReadWriteBinary)
      invariant forall j :: 0 <= j < i ==> ReadsPcm(fs', c.suspicious[j])
      invariant forall q :: q in fs.contents && q !in c.suspicious[..i] ==> fs'.contents[q] == fs.contents[q]
    {
      var file := c.suspicious[i];
      var next, done := RepairOne(fs', file);
      SameLayoutCanOpen(fs, fs', file, ReadWriteBinary);
      if done.Raised? {
        return next, done;
      }
      if !done.value {
        overall := false;
      }
      assert c.suspicious[..i + 1] == c.suspicious[..i] + [file];
      forall j | 0 <= j < i + 1 ensures ReadsPcm(next, c.suspicious[j]) {
        if j < i && c.suspicious[j] != file {
          assert next.contents[c.suspicious[j]] == fs'.contents[c.suspicious[j]];
        }
      }
      fs' := next;
      i := i + 1;
    }
    assert c.suspicious[..i] == c.suspicious;
    r := Ok(overall);
  }
}
