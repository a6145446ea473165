/**
 * The audit-and-repair state machine of src/core/wav_fixer.py: it remembers which scanned files
 * carry `WAVE_FORMAT_EXTENSIBLE`, counts how many files an audit has examined, and patches the
 * remembered files to `WAVE_FORMAT_PCM`, forgetting each one it repaired.
 */
module Fixer {
  import opened Wrappers
  import opened Seqs
  import opened Files
  import opened Wave
  import opened HexCodec

  /** The fixer's state: `_incompatible_files` and `n_processed_files`. */
  datatype WavFixer = WavFixer(incompatible: seq<Path>, nProcessed: nat)

  /** The state after construction. */
  const Initial: WavFixer := WavFixer([], 0)

  /** `reset()`: forgets the audit result and the progress counter. */
  function Reset(fx: WavFixer): (r: WavFixer)
    ensures r.incompatible == [] && r.nProcessed == 0
  {
    Initial
  }

  // ---------------------------------------------------------------------------------------
  // Classification

  /**
   * `is_wav_file_incompatible(file)`: reads the two-byte field at offset 20 and compares its
   * value with 65534; a field that cannot be read is not incompatible.
   */
  function IsWavFileIncompatible(fs: FileSystem, file: Path): (r: bool)
    ensures r <==> CanOpen(fs, file, ReadBinary) && FormatTag(fs.contents[file]) == Some(WaveFormatExtensible)
  {
    var h := ReadHexValue(fs, file, AudioFormatOffset, AudioFormatFieldSize);
    if h == "" then false
    else
      ReadTwoByteValue(fs, file, AudioFormatOffset);
      HexValue(h) == WaveFormatExtensible
  }

  /** A file whose stored tag is PCM is never classified incompatible. */
  lemma PcmIsCompatible(fs: FileSystem, file: Path)
    requires ReadsPcm(fs, file)
    ensures !IsWavFileIncompatible(fs, file)
  {
  }

  /** The in-order sublist of `files` classified incompatible: the reference the audit loop meets. */
  function IncompatibleAmong(fs: FileSystem, files: seq<Path>): seq<Path> {
    if |files| == 0 then []
    else
      var last := files[|files| - 1];
      IncompatibleAmong(fs, files[..|files| - 1]) + (if IsWavFileIncompatible(fs, last) then [last] else [])
  }

  /** Scanning one more file extends the audit result of the prefix by that file's verdict. */
  lemma IncompatibleAmongExtend(fs: FileSystem, files: seq<Path>, i: nat)
    requires i < |files|
    ensures IncompatibleAmong(fs, files[..i + 1])
      == IncompatibleAmong(fs, files[..i]) + (if IsWavFileIncompatible(fs, files[i]) then [files[i]] else [])
  {
    assert files[..i + 1][..i] == files[..i];
  }

  /** A path is in the audit result exactly when it was scanned and is incompatible. */
  lemma {:induction false} IncompatibleAmongMembers(fs: FileSystem, files: seq<Path>, p: Path)
    ensures p in IncompatibleAmong(fs, files) <==> p in files && IsWavFileIncompatible(fs, p)
  {
    if |files| > 0 {
      var init := files[..|files| - 1];
      IncompatibleAmongMembers(fs, init, p);
      assert files == init + [files[|files| - 1]];
    }
  }

  /** The audit result never lists a path more often than the scan did, so distinct scans give distinct results. */
  lemma {:induction false} IncompatibleAmongDistinct(fs: FileSystem, files: seq<Path>)
    requires Distinct(files)
    ensures Distinct(IncompatibleAmong(fs, files))
  {
    if |files| > 0 {
      var init := files[..|files| - 1];
      var last := files[|files| - 1];
      IncompatibleAmongDistinct(fs, init);
      IncompatibleAmongMembers(fs, init, last);
      assert last !in init;
    }
  }

  // ---------------------------------------------------------------------------------------
  // Audit

  /**
   * `find_incompatible_wav_files(files)`: clears the previous result, refuses an empty list,
   * and otherwise examines every file in order, counting each one and remembering those that
   * are incompatible. Succeeds when at least one file is incompatible.
   */
  method FindIncompatibleWavFiles(fx: WavFixer, fs: FileSystem, files: seq<Path>) returns (fx': WavFixer, found: bool)
    ensures fx'.nProcessed == |files|
    ensures fx'.incompatible == IncompatibleAmong(fs, files)
    ensures found <==> |fx'.incompatible| > 0
    ensures |files| == 0 ==> fx' == Initial && !found
  {
    fx' := WavFixer([], 0);
    if |files| == 0 {
      return fx', false;
    }
    var i := 0;
    while i < |files|
      invariant 0 <= i <= |files|
      invariant fx'.nProcessed == i
      invariant fx'.incompatible == IncompatibleAmong(fs, files[..i])
    {
      fx' := fx'.(nProcessed := fx'.nProcessed + 1);
      var file := files[i];
      IncompatibleAmongExtend(fs, files, i);
      if IsWavFileIncompatible(fs, file) {
        fx' := fx'.(incompatible := fx'.incompatible + [file]);
      }
      i := i + 1;
    }
    assert files[..i] == files;
    found := |fx'.incompatible| > 0;
  }

  // ---------------------------------------------------------------------------------------
  // Repair of one file

  /** Writing `"0001"` at the field stores the PCM tag, or fails to open and changes nothing. */
  lemma PcmWrite(fs: FileSystem, file: Path)
    ensures var w := SetHexData(fs, file, AudioFormatOffset, AudioFormatFieldSize, PcmHex);
      && (w.status.Written? <==> CanOpen(fs, file, ReadWriteBinary))
      && (!w.status.Written? ==> w.fs == fs)
      && OnlyChanged(fs, w.fs, file)
      && (w.status.Written? ==> ReadsPcm(w.fs, file) && CanOpen(w.fs, file, ReadBinary))
      && (w.status.Written? ==> IsOverwrite(fs.contents[file], AudioFormatOffset, [1, 0], w.fs.contents[file]))
  {
    assert ZeroDigitPairs(PcmHex[2..][2..]);
    assert ZeroDigitPairs(PcmHex);
    var w := SetHexData(fs, file, AudioFormatOffset, AudioFormatFieldSize, PcmHex);
    if CanOpen(fs, file, ReadWriteBinary) {
      ZeroDigitWrite(fs, file, AudioFormatOffset, AudioFormatFieldSize, PcmHex);
      assert DecodeHex(PcmHex) == [0, 1];
      var d := w.fs.contents[file];
      assert d[20..22] == [1, 0];
      assert d[20] == 1 && d[21] == 0;
      var order := Reverse(Chunks(PcmHex));
      var bs := ChunkBytes(order[..ValidPrefix(order)]);
      OverwriteWindow(fs.contents[file], AudioFormatOffset, bs, d);
    }
  }

  /** What one repair attempt leaves behind: the fixer, the file system and the returned flag. */
  datatype FixReply = FixReply(fixer: WavFixer, fs: FileSystem, ok: bool)

  /**
   * `fix_incompatible_wav_file(file)`: refuses a file the last audit did not flag, writes the
   * PCM tag, re-reads the file to confirm, and only then forgets the file (its first
   * occurrence, as `list.remove` does).
   */
  function FixIncompatibleWavFile(fx: WavFixer, fs: FileSystem, file: Path): (r: FixReply)
    ensures r.ok <==> file in fx.incompatible && CanOpen(fs, file, ReadWriteBinary)
    ensures !r.ok ==> r.fixer == fx && r.fs == fs
    ensures r.ok ==> r.fixer.incompatible == RemoveFirst(fx.incompatible, file)
    ensures r.ok ==> multiset(r.fixer.incompatible) == multiset(fx.incompatible) - multiset{file}
    ensures r.ok ==> ReadsPcm(r.fs, file) && !IsWavFileIncompatible(r.fs, file)
    ensures r.ok ==> IsOverwrite(fs.contents[file], AudioFormatOffset, [1, 0], r.fs.contents[file])
    ensures OnlyChanged(fs, r.fs, file)
    ensures r.fixer.nProcessed == fx.nProcessed
    ensures |r.fixer.incompatible| <= |fx.incompatible|
  {
    if file !in fx.incompatible then FixReply(fx, fs, false)
    else
      var w := SetHexData(fs, file, AudioFormatOffset, AudioFormatFieldSize, PcmHex);
      PcmWrite(fs, file);
      if !w.Succeeded() then FixReply(fx, w.fs, false)
      else if IsWavFileIncompatible(w.fs, file) then FixReply(fx, w.fs, false)
      else FixReply(fx.(incompatible := RemoveFirst(fx.incompatible, file)), w.fs, true)
  }

  /** A repair never turns a file that reads PCM into one that does not. */
  lemma FixKeepsPcm(fx: WavFixer, fs: FileSystem, file: Path, p: Path)
    requires ReadsPcm(fs, p)
    ensures ReadsPcm(FixIncompatibleWavFile(fx, fs, file).fs, p)
  {
  }

  /** After `reset()` every repair request is refused and nothing is written. */
  lemma ResetRefusesRepairs(fx: WavFixer, fs: FileSystem, file: Path)
    ensures var r := FixIncompatibleWavFile(Reset(fx), fs, file);
      !r.ok && r.fs == fs && r.fixer == Initial
  {
  }

  /** A repaired file is refused on a second attempt and stays as the first attempt left it. */
  lemma RepairNotRepeated(fx: WavFixer, fs: FileSystem, file: Path)
    requires Distinct(fx.incompatible)
    requires FixIncompatibleWavFile(fx, fs, file).ok
    ensures var once := FixIncompatibleWavFile(fx, fs, file);
      var twice := FixIncompatibleWavFile(once.fixer, once.fs, file);
      !twice.ok && twice.fs == once.fs
  {
    RemoveFirstDistinct(fx.incompatible, file);
  }

  // ---------------------------------------------------------------------------------------
  // Repair of a batch

  /**
   * Repairing the files of a separate list one after another, folding the flags with `and`:
   * the loop of `fix_incompatible_wav_files` when the caller passes its own list.
   */
  function FixEach(fx: WavFixer, fs: FileSystem, files: seq<Path>): (r: FixReply)
    ensures |r.fixer.incompatible| <= |fx.incompatible|
    ensures r.fixer.nProcessed == fx.nProcessed
    ensures SameLayout(fs, r.fs)
    ensures forall q :: q in fs.contents && q !in files ==> r.fs.contents[q] == fs.contents[q]
    ensures forall q :: ReadsPcm(fs, q) ==> ReadsPcm(r.fs, q)
    ensures r.ok ==> |r.fixer.incompatible| + |files| == |fx.incompatible|
    ensures r.ok ==> forall q :: q in files ==> ReadsPcm(r.fs, q)
    decreases |files|
  {
    if |files| == 0 then FixReply(fx, fs, true)
    else
      var one := FixIncompatibleWavFile(fx, fs, files[0]);
      var rest := FixEach(one.fixer, one.fs, files[1..]);
      assert forall q :: ReadsPcm(fs, q) ==> ReadsPcm(one.fs, q) by {
        forall q | ReadsPcm(fs, q) ensures ReadsPcm(one.fs, q) {
          FixKeepsPcm(fx, fs, files[0], q);
        }
      }
      assert forall q :: q in files ==> q == files[0] || q in files[1..];
      FixReply(rest.fixer, rest.fs, one.ok && rest.ok)
  }

  /**
   * Repairing while walking the fixer's own list by position: the loop of
   * `fix_incompatible_wav_files()` without arguments, where every repair shortens the list the
   * loop is walking. `i` is the position of the next element the iterator yields.
   */
  function FixLive(fx: WavFixer, fs: FileSystem, i: nat): (r: FixReply)
    ensures |r.fixer.incompatible| <= |fx.incompatible|
    ensures r.fixer.nProcessed == fx.nProcessed
    ensures SameLayout(fs, r.fs)
    decreases |fx.incompatible| - i
  {
    if i >= |fx.incompatible| then FixReply(fx, fs, true)
    else
      var one := FixIncompatibleWavFile(fx, fs, fx.incompatible[i]);
      var rest := FixLive(one.fixer, one.fs, i + 1);
      FixReply(rest.fixer, rest.fs, one.ok && rest.ok)
  }

  /**
   * `fix_incompatible_wav_files(files=None)`: refuses when no incompatible file is known or
   * when a requested file is unknown, and otherwise repairs the requested files in order,
   * returning whether every repair succeeded. Without a list it walks the fixer's own list
   * while the repairs shrink it.
   */
  method FixIncompatibleWavFiles(fx: WavFixer, fs: FileSystem, files: Option<seq<Path>>)
    returns (fx': WavFixer, fs': FileSystem, ok: bool)
    ensures |fx.incompatible| == 0 ==> !ok && fx' == fx && fs' == fs
    ensures files.Some? && (exists k :: 0 <= k < |files.value| && files.value[k] !in fx.incompatible) ==>
      !ok && fx' == fx && fs' == fs
    ensures files.Some? && |fx.incompatible| > 0 && (forall k :: 0 <= k < |files.value| ==> files.value[k] in fx.incompatible) ==>
      FixReply(fx', fs', ok) == FixEach(fx, fs, files.value)
    ensures files.None? && |fx.incompatible| > 0 ==> FixReply(fx', fs', ok) == FixLive(fx, fs, 0)
    ensures |fx'.incompatible| <= |fx.incompatible|
    ensures SameLayout(fs, fs')
  {
    if |fx.incompatible| == 0 {
      return fx, fs, false;
    }
    if files.None? {
      fx', fs', ok := FixOwnList(fx, fs);
      return;
    }
    var target := files.value;
    var k := 0;
    while k < |target|
      invariant 0 <= k <= |target|
      invariant forall j :: 0 <= j < k ==> target[j] in fx.incompatible
    {
      if target[k] !in fx.incompatible {
        return fx, fs, false;
      }
      k := k + 1;
    }
    fx', fs', ok := FixListed(fx, fs, target);
  }

  /** The loop over a caller's list: one repair per element, the flags folded with `and`. */
  method FixListed(fx: WavFixer, fs: FileSystem, target: seq<Path>) returns (fx': WavFixer, fs': FileSystem, ok: bool)
    ensures FixReply(fx', fs', ok) == FixEach(fx, fs, target)
  {
    fx', fs', ok := fx, fs, true;
    var i := 0;
    while i < |target|
      invariant 0 <= i <= |target|
      invariant var tail := FixEach(fx', fs', target[i..]);
        tail.fixer == FixEach(fx, fs, target).fixer && tail.fs == FixEach(fx, fs, target).fs
        && (ok && tail.ok) == FixEach(fx, fs, target).ok
    {
      var one := FixIncompatibleWavFile(fx', fs', target[i]);
      assert target[i..][1..] == target[i + 1..];
      fx', fs' := one.fixer, one.fs;
      ok := ok && one.ok;
      i := i + 1;
    }
    assert target[i..] == [];
  }

  /**
   * The loop over the fixer's own list: the cursor advances by one after every repair while
   * each successful repair removes an element from the list being walked.
   */
  method FixOwnList(fx: WavFixer, fs: FileSystem) returns (fx': WavFixer, fs': FileSystem, ok: bool)
    ensures FixReply(fx', fs', ok) == FixLive(fx, fs, 0)
  {
    fx', fs', ok := fx, fs, true;
    var i := 0;
    while i < |fx'.incompatible|
      invariant var tail := FixLive(fx', fs', i);
        tail.fixer == FixLive(fx, fs, 0).fixer && tail.fs == FixLive(fx, fs, 0).fs
        && (ok && tail.ok) == FixLive(fx, fs, 0).ok
      decreases |fx'.incompatible| - i
    {
      var one := FixIncompatibleWavFile(fx', fs', fx'.incompatible[i]);
      fx', fs' := one.fixer, one.fs;
      ok := ok && one.ok;
      i := i + 1;
    }
  }

  /**
   * Walking the live list when every file can be repaired: from cursor `i` on, the files at
   * even offsets are repaired and those at odd offsets are stepped over, yet the batch reports
   * success.
   */
  lemma {:induction false} FixLiveSkipsAlternate(fx: WavFixer, fs: FileSystem, i: nat)
    requires i <= |fx.incompatible| && Distinct(fx.incompatible)
    requires forall p :: p in fx.incompatible[i..] ==> CanOpen(fs, p, ReadWriteBinary)
    ensures FixLive(fx, fs, i).ok
    ensures FixLive(fx, fs, i).fixer.incompatible == fx.incompatible[..i] + OddPositions(fx.incompatible[i..])
    decreases |fx.incompatible| - i
  {
    var list := fx.incompatible;
    if i == |list| {
      assert list[..i] + OddPositions(list[i..]) == list;
    } else {
      assert list[i] in list[i..];
      var one := FixLiveStep(fx, fs, i);
      RemoveFirstDistinct(list, list[i]);
      CutAt(list, i);
      SkipStep(list, i);
      if i + 1 < |list| {
        StillWritable(fs, one.fs, list[i..], one.fixer.incompatible[i + 1..]);
        FixLiveSkipsAlternate(one.fixer, one.fs, i + 1);
      }
    }
  }

  /**
   * The list arithmetic of one step of the live walk: cutting out position `i` and moving the
   * cursor to `i + 1` steps over the element that slid into position `i`.
   */
  lemma SkipStep(list: seq<Path>, i: nat)
    requires i < |list|
    ensures var cut := list[..i] + list[i + 1..];
      && (i + 1 < |list| ==> i + 1 <= |cut| && cut[..i + 1] + OddPositions(cut[i + 1..]) == list[..i] + OddPositions(list[i..]))
      && (i + 1 >= |list| ==> cut == list[..i] + OddPositions(list[i..]))
      && (i + 1 < |list| ==> forall p :: p in cut[i + 1..] ==> p in list[i..])
  {
    var cut := list[..i] + list[i + 1..];
    if i + 1 < |list| {
      assert cut[i + 1..] == list[i + 2..];
      assert cut[..i + 1] == list[..i] + [list[i + 1]];
      assert OddPositions(list[i..]) == [list[i + 1]] + OddPositions(list[i + 2..]);
    } else {
      assert cut == list[..i];
      assert OddPositions(list[i..]) == [];
    }
    if i + 1 < |list| {
      forall p | p in cut[i + 1..] ensures p in list[i..] {
        var k :| 0 <= k < |cut[i + 1..]| && cut[i + 1..][k] == p;
        assert list[i..][k + 2] == p;
      }
    }
  }

  /** In a list without repeats, removing the element at `i` cuts it out in place. */
  lemma CutAt(list: seq<Path>, i: nat)
    requires i < |list| && Distinct(list)
    ensures RemoveFirst(list, list[i]) == list[..i] + list[i + 1..]
  {
    forall j | 0 <= j < i ensures list[..i][j] != list[i] {
    }
    assert list == list[..i] + [list[i]] + list[i + 1..];
    RemoveFirstAt(list[..i], list[i], list[i + 1..]);
  }

  /** One step of the live walk, when the file at the cursor is repaired. */
  lemma FixLiveStep(fx: WavFixer, fs: FileSystem, i: nat) returns (one: FixReply)
    requires i < |fx.incompatible| && CanOpen(fs, fx.incompatible[i], ReadWriteBinary)
    ensures one.fixer.incompatible == RemoveFirst(fx.incompatible, fx.incompatible[i])
    ensures SameLayout(fs, one.fs)
    ensures FixLive(fx, fs, i).fixer == FixLive(one.fixer, one.fs, i + 1).fixer
    ensures FixLive(fx, fs, i).ok == FixLive(one.fixer, one.fs, i + 1).ok
    ensures FixLive(fx, fs, i).fs == FixLive(one.fixer, one.fs, i + 1).fs
    ensures OnlyChanged(fs, one.fs, fx.incompatible[i])
  {
    one := FixIncompatibleWavFile(fx, fs, fx.incompatible[i]);
  }

  /** Repairs never change which paths can be opened for writing. */
  lemma StillWritable(fs: FileSystem, fs': FileSystem, files: seq<Path>, later: seq<Path>)
    requires SameLayout(fs, fs')
    requires forall p :: p in files ==> CanOpen(fs, p, ReadWriteBinary)
    requires forall p :: p in later ==> p in files
    ensures forall p :: p in later ==> CanOpen(fs', p, ReadWriteBinary)
  {
    forall p | p in later ensures CanOpen(fs', p, ReadWriteBinary) {
      SameLayoutCanOpen(fs, fs', p, ReadWriteBinary);
    }
  }

  /** Multiset bookkeeping for removing one requested element after another. */
  lemma MultisetTakeOne<T>(m: multiset<T>, x: T, rest: multiset<T>)
    requires multiset{x} + rest <= m
    ensures x in m
    ensures rest <= m - multiset{x}
    ensures (m - multiset{x}) - rest == m - (multiset{x} + rest)
  {
  }

  /**
   * Repairing a separate list of known, writable files succeeds, forgets exactly those files
   * and leaves each of them reading PCM.
   */
  lemma {:induction false} FixEachRepairsAll(fx: WavFixer, fs: FileSystem, files: seq<Path>)
    requires multiset(files) <= multiset(fx.incompatible)
    requires forall p :: p in files ==> CanOpen(fs, p, ReadWriteBinary)
    ensures FixEach(fx, fs, files).ok
    ensures multiset(FixEach(fx, fs, files).fixer.incompatible) == multiset(fx.incompatible) - multiset(files)
    decreases |files|
  {
    if |files| > 0 {
      var file := files[0];
      assert files == [file] + files[1..];
      var m := multiset(fx.incompatible);
      MultisetTakeOne(m, file, multiset(files[1..]));
      var one := FixIncompatibleWavFile(fx, fs, file);
      assert one.ok;
      StillWritable(fs, one.fs, files, files[1..]);
      FixEachRepairsAll(one.fixer, one.fs, files[1..]);
    }
  }

  /**
   * The evidently intended batch repair: walk a copy of the list, so that no element is
   * stepped over. Refuses, like the original, when no incompatible file is known.
   */
  function FixAllIncompatible(fx: WavFixer, fs: FileSystem): FixReply {
    if |fx.incompatible| == 0 then FixReply(fx, fs, false)
    else FixEach(fx, fs, fx.incompatible)
  }

  /**
   * With a copy of the list, a batch over writable files succeeds, empties the list and leaves
   * every listed file reading PCM.
   */
  lemma FixAllIncompatibleEmptiesList(fx: WavFixer, fs: FileSystem)
    requires |fx.incompatible| > 0
    requires forall p :: p in fx.incompatible ==> CanOpen(fs, p, ReadWriteBinary)
    ensures var r := FixAllIncompatible(fx, fs);
      r.ok && r.fixer.incompatible == [] && forall p :: p in fx.incompatible ==> ReadsPcm(r.fs, p)
  {
    FixEachRepairsAll(fx, fs, fx.incompatible);
  }

  /**
   * Two distinct writable files, the second tagged `WAVE_FORMAT_EXTENSIBLE`, and no argument:
   * the batch reports success, yet the second file is still listed and still incompatible.
   */
  lemma FixLiveMissesSecondFile(fx: WavFixer, fs: FileSystem, a: Path, b: Path)
    requires fx.incompatible == [a, b] && a != b
    requires CanOpen(fs, a, ReadWriteBinary) && CanOpen(fs, b, ReadWriteBinary)
    requires FormatTag(fs.contents[b]) == Some(WaveFormatExtensible)
    ensures var r := FixLive(fx, fs, 0);
      r.ok && r.fixer.incompatible == [b] && IsWavFileIncompatible(r.fs, b)
  {
    var one := FixLiveStep(fx, fs, 0);
    assert one.fixer.incompatible == [b];
    assert one.fs.contents[b] == fs.contents[b];
    assert FixLive(one.fixer, one.fs, 1) == FixReply(one.fixer, one.fs, true);
  }
}
