/**
 * The byte-field codec of src/utils.py: a field of `fieldSize` bytes at `offset` is shown as
 * upper-case hex with the last byte first (the file stores the least significant byte first),
 * and written back from such a hex string two characters at a time.
 */
module HexCodec {
  import opened Wrappers
  import opened Seqs
  import opened Text
  import opened Files
  import opened Wave

  // ---------------------------------------------------------------------------------------
  // Hex digits

  const LowerDigits: string := "0123456789abcdef"

  predicate IsUpperHexDigit(c: char) {
    '0' <= c <= '9' || 'A' <= c <= 'F'
  }

  predicate IsHexDigit(c: char) {
    IsUpperHexDigit(c) || 'a' <= c <= 'f'
  }

  /** The value of one digit as `int(c, 16)` reads it. */
  function DigitValue(c: char): (v: int)
    requires IsHexDigit(c)
    ensures 0 <= v < 16
  {
    if '0' <= c <= '9' then c as int - '0' as int
    else if 'A' <= c <= 'F' then c as int - 'A' as int + 10
    else c as int - 'a' as int + 10
  }

  lemma DigitValueInjective(c: char, d: char)
    requires IsUpperHexDigit(c) && IsUpperHexDigit(d)
    requires DigitValue(c) == DigitValue(d)
    ensures c == d
  {
  }

  /** Upper-casing the lower-case digit for `k` gives an upper-case digit worth `k`. */
  lemma UpperLowerDigit(k: int)
    requires 0 <= k < 16
    ensures IsUpperHexDigit(UpperChar(LowerDigits[k]))
    ensures DigitValue(UpperChar(LowerDigits[k])) == k
  {
  }

  predicate IsUpperHex(s: string) {
    forall i :: 0 <= i < |s| ==> IsUpperHexDigit(s[i])
  }

  predicate IsHex(s: string) {
    forall i :: 0 <= i < |s| ==> IsHexDigit(s[i])
  }

  /** `int(s, 16)` for a string of hex digits. */
  function HexValue(s: string): (v: int)
    requires IsHex(s)
    ensures v >= 0
  {
    if |s| == 0 then 0 else 16 * HexValue(s[..|s| - 1]) + DigitValue(s[|s| - 1])
  }

  /** The bytes spelled by an even-length hex string, two digits per byte, first pair first. */
  function DecodeHex(s: string): (bs: seq<byte>)
    requires IsHex(s) && |s| % 2 == 0
    ensures |bs| == |s| / 2
    decreases |s|
  {
    if |s| == 0 then []
    else [16 * DigitValue(s[0]) + DigitValue(s[1])] + DecodeHex(s[2..])
  }

  /** Byte `i` of the decoding is the value of digits `2i` and `2i + 1`. */
  lemma {:induction false} DecodeHexAt(s: string, i: nat)
    requires IsHex(s) && |s| % 2 == 0 && i < |s| / 2
    ensures DecodeHex(s)[i] == 16 * DigitValue(s[2 * i]) + DigitValue(s[2 * i + 1])
    decreases i
  {
    if i > 0 {
      DecodeHexAt(s[2..], i - 1);
    }
  }

  /** Peeling the first pair off an even-length hex string. */
  lemma DecodeHexCons(p: string, s: string)
    requires |p| == 2 && IsHex(p) && IsHex(s) && |s| % 2 == 0
    ensures IsHex(p + s)
    ensures DecodeHex(p + s) == [16 * DigitValue(p[0]) + DigitValue(p[1])] + DecodeHex(s)
  {
    assert (p + s)[2..] == s;
  }

  lemma PairInjective(a: char, b: char, c: char, d: char)
    requires IsUpperHexDigit(a) && IsUpperHexDigit(b) && IsUpperHexDigit(c) && IsUpperHexDigit(d)
    requires 16 * DigitValue(a) + DigitValue(b) == 16 * DigitValue(c) + DigitValue(d)
    ensures a == c && b == d
  {
    DigitValueInjective(a, c);
    DigitValueInjective(b, d);
  }

  /** Two upper-case hex strings that spell the same bytes are the same string. */
  lemma {:induction false} DecodeHexInjective(s: string, t: string)
    requires IsUpperHex(s) && IsUpperHex(t) && |s| == |t| && |s| % 2 == 0
    requires DecodeHex(s) == DecodeHex(t)
    ensures s == t
    decreases |s|
  {
    if |s| > 0 {
      assert DecodeHex(s)[0] == DecodeHex(t)[0];
      PairInjective(s[0], s[1], t[0], t[1]);
      assert DecodeHex(s)[1..] == DecodeHex(s[2..]);
      assert DecodeHex(t)[1..] == DecodeHex(t[2..]);
      DecodeHexInjective(s[2..], t[2..]);
      assert s == s[..2] + s[2..] && t == t[..2] + t[2..];
    }
  }

  // ---------------------------------------------------------------------------------------
  // Reading a field

  /** `bytes.hex()` of one byte: two lower-case digits. */
  function LowerPair(b: byte): string {
    [LowerDigits[b / 16], LowerDigits[b % 16]]
  }

  /** The list `hex_data` of per-byte hex pairs, in file order. */
  function Pairs(bs: seq<byte>): (ps: seq<string>)
    ensures |ps| == |bs|
  {
    seq(|bs|, i requires 0 <= i < |bs| => LowerPair(bs[i]))
  }

  /**
   * The read loop: up to `count` single-byte reads from `pos`, stopping early at the end of
   * the file (a read there returns nothing).
   */
  function ReadLoop(data: seq<byte>, pos: nat, count: nat): (got: seq<byte>)
    ensures |got| == (if pos + count <= |data| then count else if pos <= |data| then |data| - pos else 0)
    ensures pos <= |data| ==> got == data[pos..pos + |got|]
    decreases count
  {
    if count == 0 || pos >= |data| then []
    else [data[pos]] + ReadLoop(data, pos + 1, count - 1)
  }

  /** Reverse the pairs, join them and upper-case the result. */
  function FieldHex(got: seq<byte>): string {
    Upper(Concat(Reverse(Pairs(got))))
  }

  /** One byte shown as upper-case hex: two digits that decode back to the byte. */
  lemma UpperPairDecodes(b: byte)
    ensures |Upper(LowerPair(b))| == 2
    ensures IsUpperHex(Upper(LowerPair(b)))
    ensures 16 * DigitValue(Upper(LowerPair(b))[0]) + DigitValue(Upper(LowerPair(b))[1]) == b
  {
    UpperLowerDigit(b / 16);
    UpperLowerDigit(b % 16);
  }

  /** The field of `got` is the pair of its last byte followed by the field of the others. */
  lemma FieldHexSnoc(got: seq<byte>)
    requires |got| > 0
    ensures FieldHex(got) == Upper(LowerPair(got[|got| - 1])) + FieldHex(got[..|got| - 1])
  {
    var n := |got|;
    var init := got[..n - 1];
    assert Pairs(got)[..n - 1] == Pairs(init);
    ReverseSnoc(Pairs(got));
    assert Concat(Reverse(Pairs(got))) == LowerPair(got[n - 1]) + Concat(Reverse(Pairs(init)));
    UpperAppend(LowerPair(got[n - 1]), Concat(Reverse(Pairs(init))));
  }

  /** Prefixing the digits of one byte to upper-case hex prefixes that byte to its decoding. */
  lemma DecodePairThen(pair: string, rest: string, b: byte)
    requires |pair| == 2 && IsUpperHex(pair) && 16 * DigitValue(pair[0]) + DigitValue(pair[1]) == b
    requires IsUpperHex(rest) && |rest| % 2 == 0
    ensures IsUpperHex(pair + rest)
    ensures DecodeHex(pair + rest) == [b] + DecodeHex(rest)
  {
    DecodeHexCons(pair, rest);
  }

  /** The displayed field is upper-case hex, two digits per byte, and spells the bytes last first. */
  lemma {:induction false} FieldHexDecodes(got: seq<byte>)
    ensures |FieldHex(got)| == 2 * |got|
    ensures IsUpperHex(FieldHex(got))
    ensures DecodeHex(FieldHex(got)) == Reverse(got)
  {
    if |got| > 0 {
      var n := |got|;
      var init := got[..n - 1];
      var pair := Upper(LowerPair(got[n - 1]));
      var rest := FieldHex(init);
      FieldHexSnoc(got);
      FieldHexDecodes(init);
      UpperPairDecodes(got[n - 1]);
      DecodePairThen(pair, rest, got[n - 1]);
      ReverseSnoc(got);
    }
  }

  /**
   * `read_hex_value(file, offset, field_size)`: `""` when the file cannot be opened for reading
   * or when the read loop comes up short; otherwise the upper-case hex of the field, last byte
   * first.
   */
  function ReadHexValue(fs: FileSystem, file: Path, offset: nat, fieldSize: nat): (r: string)
    ensures !CanOpen(fs, file, ReadBinary) ==> r == ""
    ensures CanOpen(fs, file, ReadBinary) && offset + fieldSize > |fs.contents[file]| ==> r == ""
    ensures CanOpen(fs, file, ReadBinary) && offset + fieldSize <= |fs.contents[file]| ==>
      && |r| == 2 * fieldSize
      && IsUpperHex(r)
      && DecodeHex(r) == Reverse(fs.contents[file][offset..offset + fieldSize])
  {
    if TryOpenFile(fs, file, ReadBinary).None? then ""
    else
      var got := ReadLoop(fs.contents[file], offset, fieldSize);
      if |got| != fieldSize then ""
      else
        FieldHexDecodes(got);
        FieldHex(got)
  }

  /** `int(s, 16)` of four digits. */
  lemma HexValueFour(r: string)
    requires |r| == 4 && IsHex(r)
    ensures HexValue(r) == 256 * (16 * DigitValue(r[0]) + DigitValue(r[1])) + 16 * DigitValue(r[2]) + DigitValue(r[3])
  {
    assert r[..3][..2] == r[..2];
    assert r[..2][..1] == r[..1];
    assert r[..1][..0] == [];
    var a, b, c, d := DigitValue(r[0]), DigitValue(r[1]), DigitValue(r[2]), DigitValue(r[3]);
    assert HexValue(r[..1]) == a;
    assert HexValue(r[..2]) == 16 * a + b;
    assert HexValue(r[..3]) == 16 * (16 * a + b) + c;
    assert HexValue(r) == 16 * (16 * (16 * a + b) + c) + d;
  }

  /** A two-byte field reads as the 16-bit little-endian number stored at `offset`. */
  lemma ReadTwoByteValue(fs: FileSystem, file: Path, offset: nat)
    requires CanOpen(fs, file, ReadBinary) && offset + 2 <= |fs.contents[file]|
    ensures var r := ReadHexValue(fs, file, offset, 2);
      IsHex(r) && |r| == 4 &&
      HexValue(r) == 256 * (fs.contents[file][offset + 1] as int) + fs.contents[file][offset] as int
  {
    var r := ReadHexValue(fs, file, offset, 2);
    var d := fs.contents[file];
    assert Reverse(d[offset..offset + 2]) == [d[offset + 1], d[offset]];
    DecodeHexAt(r, 0);
    DecodeHexAt(r, 1);
    HexValueFour(r);
  }

  // ---------------------------------------------------------------------------------------
  // Writing a field

  /** `[s[i:i+2] for i in range(0, len(s), 2)]`: pairs, with a single character last for odd lengths. */
  function Chunks(s: string): (r: seq<string>)
    ensures |r| == (|s| + 1) / 2
    ensures forall i :: 0 <= i < |r| ==> 1 <= |r[i]| <= 2
    decreases |s|
  {
    if |s| == 0 then []
    else if |s| <= 2 then [s]
    else [s[..2]] + Chunks(s[2..])
  }

  /** The chunks, joined again, are the original string: nothing is dropped or padded. */
  lemma {:induction false} ChunksConcat(s: string)
    ensures Concat(Chunks(s)) == s
    decreases |s|
  {
    if |s| > 2 {
      ChunksConcat(s[2..]);
      assert Chunks(s)[1..] == Chunks(s[2..]);
      assert s == s[..2] + s[2..];
    }
  }

  /** Python's whitespace among ASCII: tab to carriage return, the four separators, and space. */
  predicate IsSpace(c: char) {
    9 <= c as int <= 13 || 28 <= c as int <= 32
  }

  function StripLeft(s: string): string {
    if |s| > 0 && IsSpace(s[0]) then StripLeft(s[1..]) else s
  }

  function StripRight(s: string): string {
    if |s| > 0 && IsSpace(s[|s| - 1]) then StripRight(s[..|s| - 1]) else s
  }

  /**
   * `int(c)` (base ten) for a chunk of at most two characters: surrounding whitespace is
   * ignored and a sign may precede a digit; anything else raises `ValueError` (`None` here).
   */
  function DecimalChunk(c: string): Option<int>
    requires |c| <= 2
  {
    var t := StripRight(StripLeft(c));
    if |t| == 1 && IsDigit(t[0]) then Some(Digit(t[0]))
    else if |t| == 2 && IsDigit(t[0]) && IsDigit(t[1]) then Some(10 * Digit(t[0]) + Digit(t[1]))
    else if |t| == 2 && t[0] == '+' && IsDigit(t[1]) then Some(Digit(t[1]))
    else if |t| == 2 && t[0] == '-' && IsDigit(t[1]) then Some(-Digit(t[1]))
    else None
  }

  /** `bytes((int(c),))`: also raises when the number is not a byte value. */
  function ChunkByte(c: string): Option<byte>
    requires |c| <= 2
  {
    match DecimalChunk(c)
    case Some(v) => if 0 <= v < 256 then Some(v) else None
    case None => None
  }

  predicate ShortChunks(chunks: seq<string>) {
    forall i :: 0 <= i < |chunks| ==> |chunks[i]| <= 2
  }

  /** How many leading chunks convert to a byte before the first that raises. */
  function ValidPrefix(chunks: seq<string>): (n: nat)
    requires ShortChunks(chunks)
    ensures n <= |chunks|
    ensures forall i :: 0 <= i < n ==> ChunkByte(chunks[i]).Some?
    ensures n < |chunks| ==> ChunkByte(chunks[n]).None?
  {
    if |chunks| == 0 || ChunkByte(chunks[0]).None? then 0
    else 1 + ValidPrefix(chunks[1..])
  }

  /** The byte values of chunks that all convert. */
  function ChunkBytes(chunks: seq<string>): (bs: seq<byte>)
    requires ShortChunks(chunks)
    requires forall i :: 0 <= i < |chunks| ==> ChunkByte(chunks[i]).Some?
    ensures |bs| == |chunks|
  {
    seq(|chunks|, i requires 0 <= i < |chunks| => ChunkByte(chunks[i]).value)
  }

  /** The bytes of a converting prefix are the first chunk's byte, then the bytes of the rest. */
  lemma {:induction false} ValidPrefixCons(chunks: seq<string>, n: nat)
    requires |chunks| > 0 && ShortChunks(chunks) && n == ValidPrefix(chunks[1..])
    requires ChunkByte(chunks[0]).Some?
    ensures ValidPrefix(chunks) == 1 + n
    ensures ChunkBytes(chunks[..1 + n]) == [ChunkByte(chunks[0]).value] + ChunkBytes(chunks[1..][..n])
  {
    var tail := chunks[1..];
    assert ValidPrefix(chunks) == 1 + ValidPrefix(tail);
    var rest := tail[..n];
    forall i | 0 <= i < |rest| ensures |rest[i]| <= 2 && ChunkByte(rest[i]).Some? {
      assert rest[i] == tail[i];
    }
    assert chunks[..1 + n] == [chunks[0]] + rest;
    ChunkBytesCons(chunks[0], rest);
  }

  /** One byte written at `pos` followed by an overwrite from `pos + 1` is an overwrite from `pos`. */
  lemma OverwriteStep(data: seq<byte>, pos: nat, b: byte, rest: seq<byte>, r: seq<byte>)
    requires IsOverwrite(WriteByteAt(data, pos, b), pos + 1, rest, r)
    ensures IsOverwrite(data, pos, [b] + rest, r)
  {
  }

  /**
   * The write loop: each chunk in turn is converted and written at the next position; the
   * first chunk that does not convert raises, leaving the bytes written before it in place.
   * The flag tells whether the loop ran to completion.
   */
  function WriteChunks(data: seq<byte>, pos: nat, chunks: seq<string>): (r: (seq<byte>, bool))
    requires ShortChunks(chunks)
    ensures r.1 <==> ValidPrefix(chunks) == |chunks|
    ensures IsOverwrite(data, pos, ChunkBytes(chunks[..ValidPrefix(chunks)]), r.0)
    decreases |chunks|
  {
    if |chunks| == 0 then (data, true)
    else match ChunkByte(chunks[0])
      case None => (data, false)
      case Some(b) =>
        var rest := WriteChunks(WriteByteAt(data, pos, b), pos + 1, chunks[1..]);
        var n := ValidPrefix(chunks[1..]);
        ValidPrefixCons(chunks, n);
        OverwriteStep(data, pos, b, ChunkBytes(chunks[1..][..n]), rest.0);
        rest
  }

  datatype WriteStatus =
    | Refused     // the hex string does not split into `field_size` chunks: `False`
    | OpenFailed  // the file cannot be opened with "r+b": `""`
    | Written     // every byte was written: `True`
    | RaisedValueError  // a chunk was not a decimal byte: `ValueError` propagates

  datatype WriteReply = WriteReply(fs: FileSystem, status: WriteStatus) {
    /** The Python return value is truthy only for a complete write. */
    predicate Succeeded() {
      status.Written?
    }
  }

  /**
   * `set_hex_data(file, offset, field_size, hex_value)`: refuses a value that does not split
   * into `field_size` chunks, returns `""` when the file cannot be opened, and otherwise writes
   * the chunks in reverse order from `offset`, each as the byte `int(chunk)` in base ten.
   */
  function SetHexData(fs: FileSystem, file: Path, offset: nat, fieldSize: nat, hex: string): (r: WriteReply)
    ensures r.status.Refused? <==> |Chunks(hex)| != fieldSize
    ensures r.status.OpenFailed? <==> |Chunks(hex)| == fieldSize && !CanOpen(fs, file, ReadWriteBinary)
    ensures r.status.Written? <==>
      && |Chunks(hex)| == fieldSize
      && CanOpen(fs, file, ReadWriteBinary)
      && ValidPrefix(Reverse(Chunks(hex))) == fieldSize
    ensures r.status.Refused? || r.status.OpenFailed? ==> r.fs == fs
    ensures OnlyChanged(fs, r.fs, file)
    ensures r.status.Written? || r.status.RaisedValueError? ==>
      var order := Reverse(Chunks(hex));
      IsOverwrite(fs.contents[file], offset, ChunkBytes(order[..ValidPrefix(order)]), r.fs.contents[file])
  {
    var chunks := Chunks(hex);
    if |chunks| != fieldSize then WriteReply(fs, Refused)
    else
      var order := Reverse(chunks);
      if TryOpenFile(fs, file, ReadWriteBinary).None? then WriteReply(fs, OpenFailed)
      else
        var (data, complete) := WriteChunks(fs.contents[file], offset, order);
        WriteReply(Store(fs, file, data), if complete then Written else RaisedValueError)
  }

  // ---------------------------------------------------------------------------------------
  // Round trip

  /** Every pair is a `0` followed by a decimal digit: the only pairs base ten and base sixteen agree on. */
  predicate ZeroDigitPairs(hex: string)
    decreases |hex|
  {
    |hex| == 0 || (|hex| >= 2 && hex[0] == '0' && IsDigit(hex[1]) && ZeroDigitPairs(hex[2..]))
  }

  /** A `0d` pair converts to the digit's value. */
  lemma ZeroDigitChunk(c: string)
    requires |c| == 2 && c[0] == '0' && IsDigit(c[1])
    ensures ChunkByte(c) == Some(Digit(c[1]))
  {
    assert StripLeft(c) == c;
    assert StripRight(c) == c;
  }

  /** A string of `0d` pairs has even length and is upper-case hex. */
  lemma {:induction false} ZeroDigitUpper(hex: string)
    requires ZeroDigitPairs(hex)
    ensures |hex| % 2 == 0 && IsUpperHex(hex)
    decreases |hex|
  {
    if |hex| > 0 {
      ZeroDigitUpper(hex[2..]);
      forall i | 0 <= i < |hex| ensures IsUpperHexDigit(hex[i]) {
        if i >= 2 { assert hex[i] == hex[2..][i - 2]; }
      }
    }
  }

  lemma ChunkBytesCons(c: string, rest: seq<string>)
    requires |c| <= 2 && ChunkByte(c).Some? && ShortChunks(rest)
    requires forall i :: 0 <= i < |rest| ==> ChunkByte(rest[i]).Some?
    ensures ShortChunks([c] + rest)
    ensures ChunkBytes([c] + rest) == [ChunkByte(c).value] + ChunkBytes(rest)
  {
  }

  /**
   * Every chunk of a string of `0d` pairs converts, and base ten reads the chunks as the same
   * bytes that base sixteen reads the pairs as.
   */
  lemma {:induction false} ZeroDigitChunks(hex: string)
    requires ZeroDigitPairs(hex)
    ensures IsHex(hex) && |hex| % 2 == 0
    ensures forall i :: 0 <= i < |Chunks(hex)| ==> ChunkByte(Chunks(hex)[i]).Some?
    ensures DecodeHex(hex) == ChunkBytes(Chunks(hex))
    decreases |hex|
  {
    ZeroDigitUpper(hex);
    if |hex| > 0 {
      var rest := hex[2..];
      ZeroDigitUpper(rest);
      ZeroDigitChunks(rest);
      ZeroDigitChunk(hex[..2]);
      if |hex| == 2 {
        assert hex[..2] == hex;
      }
      assert Chunks(hex) == [hex[..2]] + Chunks(rest);
      ChunkBytesCons(hex[..2], Chunks(rest));
      DecodeHexCons(hex[..2], rest);
      assert hex == hex[..2] + rest;
    }
  }

  /** Converting reversed chunks gives the reversed bytes. */
  lemma ChunkBytesReverse(chunks: seq<string>)
    requires ShortChunks(chunks)
    requires forall i :: 0 <= i < |chunks| ==> ChunkByte(chunks[i]).Some?
    ensures ShortChunks(Reverse(chunks))
    ensures ChunkBytes(Reverse(chunks)) == Reverse(ChunkBytes(chunks))
  {
    var rc := Reverse(chunks);
    assert ShortChunks(rc);
    var a := ChunkBytes(rc);
    var b := Reverse(ChunkBytes(chunks));
    assert |a| == |b|;
    forall i | 0 <= i < |a| ensures a[i] == b[i] {
      assert rc[i] == chunks[|chunks| - 1 - i];
    }
  }

  /** Chunks that all convert are written in full. */
  lemma AllValid(chunks: seq<string>)
    requires ShortChunks(chunks)
    requires forall i :: 0 <= i < |chunks| ==> ChunkByte(chunks[i]).Some?
    ensures ValidPrefix(chunks) == |chunks|
  {
  }

  /** Writing `0d` pairs completes and leaves the pairs' values, last pair first, in the window. */
  lemma ZeroDigitWrite(fs: FileSystem, file: Path, offset: nat, fieldSize: nat, hex: string)
    requires ZeroDigitPairs(hex) && |hex| == 2 * fieldSize && fieldSize > 0
    requires CanOpen(fs, file, ReadWriteBinary)
    ensures IsHex(hex)
    ensures var w := SetHexData(fs, file, offset, fieldSize, hex);
      && w.status.Written?
      && CanOpen(w.fs, file, ReadBinary)
      && offset + fieldSize <= |w.fs.contents[file]|
      && w.fs.contents[file][offset..offset + fieldSize] == Reverse(DecodeHex(hex))
  {
    var chunks := Chunks(hex);
    ZeroDigitChunks(hex);
    var order := Reverse(chunks);
    ChunkBytesReverse(chunks);
    AllValid(order);
    var w := SetHexData(fs, file, offset, fieldSize, hex);
    assert order[..fieldSize] == order;
    OverwriteWindow(fs.contents[file], offset, ChunkBytes(order), w.fs.contents[file]);
  }

  /**
   * Writing a string of `0d` pairs and reading the same field back returns the string: the
   * round trip the program relies on for `"0001"`.
   */
  lemma RoundTripZeroDigitPairs(fs: FileSystem, file: Path, offset: nat, fieldSize: nat, hex: string)
    requires ZeroDigitPairs(hex) && |hex| == 2 * fieldSize
    requires CanOpen(fs, file, ReadWriteBinary)
    ensures SetHexData(fs, file, offset, fieldSize, hex).status.Written?
    ensures ReadHexValue(SetHexData(fs, file, offset, fieldSize, hex).fs, file, offset, fieldSize) == hex
  {
    if fieldSize > 0 {
      ZeroDigitWrite(fs, file, offset, fieldSize, hex);
      ZeroDigitUpper(hex);
      ReadBack(SetHexData(fs, file, offset, fieldSize, hex).fs, file, offset, fieldSize, hex);
    }
  }

  /** A field holding the bytes of upper-case hex, last pair first, reads back as that hex. */
  lemma ReadBack(fs: FileSystem, file: Path, offset: nat, fieldSize: nat, hex: string)
    requires IsUpperHex(hex) && |hex| == 2 * fieldSize
    requires CanOpen(fs, file, ReadBinary) && offset + fieldSize <= |fs.contents[file]|
    requires fs.contents[file][offset..offset + fieldSize] == Reverse(DecodeHex(hex))
    ensures ReadHexValue(fs, file, offset, fieldSize) == hex
  {
    ReverseReverse(DecodeHex(hex));
    DecodeHexInjective(ReadHexValue(fs, file, offset, fieldSize), hex);
  }

  /**
   * The value `read_hex_value` reports for an extensible-tagged field cannot be written back: `"FFFE"`
   * splits into `"FF"` and `"FE"`, the first chunk written (`"FE"`) is not a decimal number,
   * so the write raises before changing a byte.
   */
  lemma DecimalWriteRejectsHexField(fs: FileSystem, file: Path, offset: nat)
    requires CanOpen(fs, file, ReadWriteBinary)
    ensures SetHexData(fs, file, offset, AudioFormatFieldSize, ExtensibleHex).status.RaisedValueError?
    ensures SetHexData(fs, file, offset, AudioFormatFieldSize, ExtensibleHex).fs.contents[file] == fs.contents[file]
  {
    var hex := ExtensibleHex;
    assert hex[..2] == "FF" && hex[2..] == "FE";
    assert Chunks(hex[2..]) == ["FE"];
    var chunks := Chunks(hex);
    assert chunks == ["FF", "FE"];
    assert Reverse(chunks) == ["FE", "FF"];
    assert StripLeft("FE") == "FE" && StripRight("FE") == "FE";
    assert ChunkByte("FE") == None;
    var order := Reverse(chunks);
    assert ValidPrefix(order) == 0;
    var w := SetHexData(fs, file, offset, 2, hex);
    assert order[..0] == [];
    var before, after := fs.contents[file], w.fs.contents[file];
    assert IsOverwrite(before, offset, [], after);
    assert before == after;
  }

  // ---------------------------------------------------------------------------------------
  // Writing in base sixteen

  /** Writes `bs` from `pos` on, one byte after another, as the write loop does. */
  function WriteBytes(data: seq<byte>, pos: nat, bs: seq<byte>): (r: seq<byte>)
    ensures IsOverwrite(data, pos, bs, r)
    decreases |bs|
  {
    if |bs| == 0 then data
    else
      var rest := WriteBytes(WriteByteAt(data, pos, bs[0]), pos + 1, bs[1..]);
      OverwriteStep(data, pos, bs[0], bs[1..], rest);
      assert [bs[0]] + bs[1..] == bs;
      rest
  }

  /**
   * The write `set_hex_data` evidently intends: every chunk read as a base-sixteen byte, the
   * way `read_hex_value` spells it, so that whatever it reads can be written back. The digits
   * are checked before the file is touched.
   */
  function SetHexValue(fs: FileSystem, file: Path, offset: nat, fieldSize: nat, hex: string): (r: WriteReply)
    ensures r.status.Refused? <==> |Chunks(hex)| != fieldSize
    ensures r.status.OpenFailed? <==> |Chunks(hex)| == fieldSize && !CanOpen(fs, file, ReadWriteBinary)
    ensures r.status.Written? <==>
      |Chunks(hex)| == fieldSize && CanOpen(fs, file, ReadWriteBinary) && IsHex(hex) && |hex| % 2 == 0
    ensures !r.status.Written? ==> r.fs == fs
    ensures OnlyChanged(fs, r.fs, file)
    ensures r.status.Written? ==>
      IsOverwrite(fs.contents[file], offset, Reverse(DecodeHex(hex)), r.fs.contents[file])
  {
    if |Chunks(hex)| != fieldSize then WriteReply(fs, Refused)
    else if TryOpenFile(fs, file, ReadWriteBinary).None? then WriteReply(fs, OpenFailed)
    else if !(IsHex(hex) && |hex| % 2 == 0) then WriteReply(fs, RaisedValueError)
    else WriteReply(Store(fs, file, WriteBytes(fs.contents[file], offset, Reverse(DecodeHex(hex)))), Written)
  }

  /** Writing any upper-case hex field in base sixteen and reading it back returns the same string. */
  lemma RoundTripHex(fs: FileSystem, file: Path, offset: nat, fieldSize: nat, hex: string)
    requires IsUpperHex(hex) && |hex| == 2 * fieldSize
    requires CanOpen(fs, file, ReadWriteBinary)
    ensures SetHexValue(fs, file, offset, fieldSize, hex).status.Written?
    ensures ReadHexValue(SetHexValue(fs, file, offset, fieldSize, hex).fs, file, offset, fieldSize) == hex
  {
    assert IsHex(hex);
    if fieldSize > 0 {
      var w := SetHexValue(fs, file, offset, fieldSize, hex);
      OverwriteWindow(fs.contents[file], offset, Reverse(DecodeHex(hex)), w.fs.contents[file]);
      ReadBack(w.fs, file, offset, fieldSize, hex);
    }
  }
}
