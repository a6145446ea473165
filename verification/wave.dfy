/** Layout constants of the RIFF WAVE `fmt ` chunk that the program inspects and patches. */
module Wave {
  import opened Wrappers
  import opened Files

  /** Byte offset of `wFormatTag` in the canonical 44-byte WAVE header. */
  const AudioFormatOffset: nat := 20

  /** Width of `wFormatTag` in bytes. */
  const AudioFormatFieldSize: nat := 2

  /** `WAVE_FORMAT_EXTENSIBLE`: the tag value some players refuse. */
  const WaveFormatExtensible: int := 65534

  /** `WAVE_FORMAT_PCM`: the value written in its place. */
  const WaveFormatPcm: int := 1

  /** `f"{WAVE_FORMAT_EXTENSIBLE:04X}"`. */
  const ExtensibleHex: string := "FFFE"

  /** `f"{WAVE_FORMAT_PCM:04X}"`: the hex string handed to the writer. */
  const PcmHex: string := "0001"

  /** The `wFormatTag` stored in a file's bytes, least significant byte first; absent when the file is too short. */
  function FormatTag(data: seq<byte>): (t: Option<int>)
    ensures t.Some? <==> AudioFormatOffset + AudioFormatFieldSize <= |data|
    ensures t.Some? ==> 0 <= t.value < 65536
  {
    if AudioFormatOffset + AudioFormatFieldSize <= |data|
    then Some(256 * (data[AudioFormatOffset + 1] as int) + data[AudioFormatOffset] as int)
    else None
  }

  /** The file exists and its stored format tag is `WAVE_FORMAT_PCM`. */
  predicate ReadsPcm(fs: FileSystem, p: Path) {
    p in fs.contents && FormatTag(fs.contents[p]) == Some(WaveFormatPcm)
  }
}
