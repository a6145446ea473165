/**
 * The file system the program touches, as plain data: file contents by path, which files may be
 * opened for reading and for writing, and which paths are directories.
 */
module Files {
  import opened Wrappers

  type byte = x: int | 0 <= x < 256

  type Path = string

  /** The two `open()` modes the program uses: `"rb"` and `"r+b"`. */
  datatype Mode = ReadBinary | ReadWriteBinary

  datatype FileSystem = FileSystem(
    contents: map<Path, seq<byte>>,
    readable: set<Path>,
    writable: set<Path>,
    dirs: set<Path>)

  /** `open(path, mode)` succeeds: the file exists and its permissions allow the mode. */
  predicate CanOpen(fs: FileSystem, p: Path, mode: Mode) {
    && p in fs.contents
    && p in fs.readable
    && (mode == ReadWriteBinary ==> p in fs.writable)
  }

  /**
   * `try_open_file(file, mode)`: the opened file's bytes, or `None` when `open()` raises, for
   * a missing file and a denied permission alike.
   */
  function TryOpenFile(fs: FileSystem, p: Path, mode: Mode): (r: Option<seq<byte>>)
    ensures r.Some? <==> p in fs.contents && p in fs.readable && (mode == ReadWriteBinary ==> p in fs.writable)
    ensures r.Some? ==> r.value == fs.contents[p]
  {
    if CanOpen(fs, p, mode) then Some(fs.contents[p]) else None
  }

  /** `fs` and `fs'` have the same files, permissions and directories; only bytes may differ. */
  predicate SameLayout(fs: FileSystem, fs': FileSystem) {
    && fs'.contents.Keys == fs.contents.Keys
    && fs'.readable == fs.readable
    && fs'.writable == fs.writable
    && fs'.dirs == fs.dirs
  }

  /** Only the bytes of `p` may differ between `fs` and `fs'`. */
  predicate OnlyChanged(fs: FileSystem, fs': FileSystem, p: Path) {
    && SameLayout(fs, fs')
    && forall q :: q in fs.contents && q != p ==> fs'.contents[q] == fs.contents[q]
  }

  lemma SameLayoutCanOpen(fs: FileSystem, fs': FileSystem, p: Path, mode: Mode)
    requires SameLayout(fs, fs')
    ensures CanOpen(fs', p, mode) <==> CanOpen(fs, p, mode)
  {
  }

  /** Replaces the bytes of an existing file. */
  function Store(fs: FileSystem, p: Path, data: seq<byte>): (fs': FileSystem)
    requires p in fs.contents
    ensures OnlyChanged(fs, fs', p)
    ensures p in fs'.contents && fs'.contents[p] == data
  {
    fs.(contents := fs.contents[p := data])
  }

  /**
   * Writing one byte at position `pos` of an open file: inside the file it overwrites, at the
   * end it appends, and past the end the gap is filled with zero bytes first.
   */
  function WriteByteAt(data: seq<byte>, pos: nat, b: byte): (r: seq<byte>)
    ensures |r| == if pos < |data| then |data| else pos + 1
    ensures r[pos] == b
    ensures forall i :: 0 <= i < |data| && i != pos ==> r[i] == data[i]
    ensures forall i :: |data| <= i < pos ==> r[i] == 0
  {
    if pos < |data| then data[pos := b]
    else data + seq(pos - |data|, _ => 0) + [b]
  }

  /**
   * `r` is `data` with `bs` written from position `pos` on: the bytes in that window are `bs`,
   * bytes before a gap past the old end are zero, and every other byte is kept.
   */
  predicate IsOverwrite(data: seq<byte>, pos: nat, bs: seq<byte>, r: seq<byte>) {
    && |r| == (if |bs| == 0 || pos + |bs| <= |data| then |data| else pos + |bs|)
    && (forall i :: pos <= i < pos + |bs| ==> r[i] == bs[i - pos])
    && (forall i :: 0 <= i < |data| && !(pos <= i < pos + |bs|) ==> r[i] == data[i])
    && (forall i :: |data| <= i < pos && i < |r| ==> r[i] == 0)
  }

  /** After a non-empty overwrite the window holds exactly the written bytes. */
  lemma OverwriteWindow(data: seq<byte>, pos: nat, bs: seq<byte>, r: seq<byte>)
    requires IsOverwrite(data, pos, bs, r) && |bs| > 0
    ensures pos + |bs| <= |r|
    ensures r[pos..pos + |bs|] == bs
  {
  }

  /** An overwrite that stays inside the file keeps its length and every byte outside the window. */
  lemma OverwriteInside(data: seq<byte>, pos: nat, bs: seq<byte>, r: seq<byte>)
    requires IsOverwrite(data, pos, bs, r)
    requires pos + |bs| <= |data|
    ensures |r| == |data|
    ensures r[..pos] == data[..pos]
    ensures r[pos..pos + |bs|] == bs
    ensures r[pos + |bs|..] == data[pos + |bs|..]
  {
  }

  // ---------------------------------------------------------------------------------------
  // Path names

  /** `s.rfind(c)`: the last position holding `c`, or -1. */
  function RFind(s: string, c: char): (r: int)
    ensures -1 <= r < |s|
    ensures r >= 0 ==> s[r] == c
    ensures forall j :: r < j < |s| ==> s[j] != c
  {
    if |s| == 0 then -1
    else if s[|s| - 1] == c then |s| - 1
    else RFind(s[..|s| - 1], c)
  }

  /** `Path.name`: the last component of a `/`-separated path. */
  function Name(p: Path): (r: string)
    ensures '/' !in r
    ensures |r| <= |p| && r == p[|p| - |r|..]
  {
    p[RFind(p, '/') + 1..]
  }

  /** `Path.stem`: the name without its last suffix, where a leading or trailing dot starts none. */
  function Stem(p: Path): string {
    var name := Name(p);
    var i := RFind(name, '.');
    if 0 < i < |name| - 1 then name[..i] else name
  }

  /** The last occurrence of `c` is at `k` when `s[k]` is `c` and no later character is. */
  lemma RFindAt(s: string, c: char, k: nat)
    requires k < |s| && s[k] == c
    requires forall j :: k < j < |s| ==> s[j] != c
    ensures RFind(s, c) == k
  {
  }

  /** In `prefix + [c] + rest`, with no `c` in `rest`, the last `c` is the one after `prefix`. */
  lemma RFindSeparator(prefix: string, c: char, rest: string)
    requires c !in rest
    ensures RFind(prefix + [c] + rest, c) == |prefix|
  {
    var s := prefix + [c] + rest;
    OnlySeparatorAt(prefix, c, rest);
    RFindAt(s, c, |prefix|);
  }

  lemma OnlySeparatorAt(prefix: string, c: char, rest: string)
    requires c !in rest
    ensures var s := prefix + [c] + rest;
      s[|prefix|] == c && forall j :: |prefix| < j < |s| ==> s[j] != c
  {
    var s := prefix + [c] + rest;
    forall j | |prefix| < j < |s| ensures s[j] != c {
      assert s[j] == rest[j - |prefix| - 1];
    }
  }

  /** The stem of `dir/base.ext` is `base`, whenever `base` is a non-empty name and `ext` a dot-free suffix. */
  lemma StemOfFile(dir: Path, base: string, ext: string)
    requires |base| > 0 && '/' !in base && '/' !in ext
    requires |ext| > 0 && '.' !in ext
    ensures Stem(dir + "/" + base + "." + ext) == base
  {
    var name := base + "." + ext;
    assert '/' !in name;
    RFindSeparator(dir, '/', name);
    assert dir + "/" + base + "." + ext == dir + ['/'] + name;
    RFindSeparator(base, '.', ext);
    assert name == base + ['.'] + ext;
  }

  /** A stem never contains a path separator and is never longer than the path. */
  lemma StemIsPartOfName(p: Path)
    ensures '/' !in Stem(p) && |Stem(p)| <= |p|
  {
    var name := Name(p);
    var i := RFind(name, '.');
    if 0 < i < |name| - 1 {
      assert forall c :: c in name[..i] ==> c in name;
    }
  }
}
