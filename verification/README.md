# fix-my-wav, modelled in Dafny

fix-my-wav finds `.wav` files whose `fmt ` chunk declares `WAVE_FORMAT_EXTENSIBLE` (65534) in
its `wFormatTag` field and patches that field to `WAVE_FORMAT_PCM` (1). Some samplers and
players refuse extensible files, and the patch makes them usable again. The field sits at byte
offset 20 and is two bytes wide, least significant byte first. Besides the repair, the program
reads the tags of an audio file and looks up a matching release in the Discogs catalog.

This project models that core as immutable data and pure functions, and proves properties of
the model. Each file covers one part:

| file | module | what it models |
|---|---|---|
| `wrappers.dfy` | `Wrappers` | `Option` and `Result`; the exceptions the program raises or catches |
| `seqs.dfy` | `Seqs` | `list.reverse`, `list.remove` and the other list operations used |
| `text.dfy` | `Text` | `str.upper`, `str.replace`, `str.split`, `", ".join`, decimal digits |
| `files.dfy` | `Files` | the file system as data; `try_open_file`; byte writes after `seek`; `Path.name` and `Path.stem` |
| `wave.dfy` | `Wave` | the header constants and the stored format tag |
| `hex_codec.dfy` | `HexCodec` | `read_hex_value` and `set_hex_data` of `src/utils.py` |
| `wav_fixer.dfy` | `Fixer` | `WavFixer`: the audit, the single-file repair and the batch repair |
| `wav_finder.dfy` | `Finder` | `WavFinder`: the base directory and the file search |
| `discogs.dfy` | `Discogs` | artists, releases and masters, as the catalog client presents them |
| `tag_reader.dfy` | `TagReader` | `Tag`, `FileTagReader` and `DiscogsTagReader` |
| `discogs_search.dfy` | `SearchEngine` | `DiscogsSearchEngine` and its two free functions |
| `legacy_core.dfy` | `LegacyCore` | the single-class `Core` of `src/core.py`, with its own hex helpers |
| `oldest_core.dfy` | `OldestCore` | the first `Core`, in `core.py` at the repository root |

The file system is a value with four parts:

- each file's bytes;
- the set of files `open` may read;
- the set of files `open` may write;
- the set of directories.

An operation that writes returns a new file system. An operation on a mutable object takes
the object's state and returns the new state. Where Python raises, the model returns a
`Result`, and the error names the exception. The one departure is in `set_hex_data` of
`src/utils.py`: there the `ValueError` that `int(chunk)` raises is the `RaisedValueError` case of the
write's `WriteStatus`. That status also carries the bytes already written before the failing
chunk.

Three inputs come from outside the program, so they are parameters:

- what a recursive `rglob("*.wav")` yields;
- the tag map `taglib` reads from an audio file;
- what the catalog's search service answers for each prompt and result type.

The Discogs catalog's lazily fetched `release.artists` is data that is either a list of
artists or a failed fetch.

Two details of the catalog search:

- `search_with_file` always retries with the bare file stem and no artist filter when the tagged
  search finds nothing. It does so even when the stem equals the first prompt.
- The tagged prompt joins the artist names read from the file. It does not use the names of the
  artists the catalog resolved.

## Model

| member | source | states |
|---|---|---|
| `Files.TryOpenFile` | src/utils.py:71-83 | `open` succeeds exactly when the file exists, is readable and, for `"r+b"`, is writable, and then yields the file's bytes. Every failure yields `None`, whatever the reason. |
| `Files.WriteByteAt` | src/utils.py:61-65 | One byte written after `seek(pos)` replaces the byte at `pos` inside the file. At the end it appends. Past the end, the gap is first filled with zero bytes. No other byte changes. |
| `Files.StemOfFile` | src/core/discogs_search_engine.py:40 | The stem of `dir/base.ext` is `base`, for a non-empty base and a dot-free extension. |
| `Files.StemIsPartOfName` | src/core/discogs_search_engine.py:52 | A stem never contains a path separator and is never longer than the path. |
| `HexCodec.ReadHexValue` | src/utils.py:7-41 | The result is `""` when the file cannot be opened or the field runs past its end. Otherwise it is `2*field_size` upper-case hex digits. Those digits decode to the field's bytes, last byte first. |
| `HexCodec.DecodeHexInjective` | src/utils.py:39-41 | Two hex strings that decode to the same bytes are the same string, so a read value determines the field. |
| `HexCodec.ReadTwoByteValue` | src/utils.py:20-41 | A two-byte field reads as four hex digits. Their base-16 value is the little-endian number stored at the offset. |
| `HexCodec.SetHexData` | src/utils.py:44-68 | Refused exactly when the value does not split into `field_size` chunks. It fails to open exactly when the file is not writable, and then nothing changes. It writes completely exactly when every chunk is a decimal byte. Only this file changes, and it gets the converted chunks in reverse order from the offset, up to the first chunk that raises. |
| `HexCodec.RoundTripZeroDigitPairs` | src/utils.py:7-68 | Take a value made of `0d` pairs, such as the PCM tag `"0001"`, and a writable file. The value is written and reads back unchanged. |
| `HexCodec.DecimalWriteRejectsHexField` | src/utils.py:64-65 | Writing `"FFFE"`, the value a read reports for an extensible file, raises `ValueError` before any byte changes. |
| `HexCodec.WriteBytes` | src/utils.py:61-65 | Writing bytes one after another from `pos` is an overwrite of the window that starts at `pos`. |
| `HexCodec.SetHexValue` | src/utils.py:44-68 | The corrected write, with chunks read in base 16. It refuses or fails to open exactly as `set_hex_data` does. It writes exactly when the digits are hex and the length is even. Otherwise nothing changes. A write puts the value's bytes, last pair first, at the offset. |
| `HexCodec.RoundTripHex` | src/utils.py:7-68 | With the corrected write, any upper-case hex value of the field's width is written to a writable file and reads back unchanged. |
| `Fixer.Reset` | src/core/wav_fixer.py:22-24 | `reset()` empties the list of incompatible files and zeroes the counter. |
| `Fixer.IsWavFileIncompatible` | src/core/wav_fixer.py:56-68 | A file is incompatible exactly when it can be opened for reading and its stored format tag is 65534. |
| `Fixer.PcmIsCompatible` | src/core/wav_fixer.py:56-68 | A file that stores the PCM tag is never incompatible. |
| `Fixer.IncompatibleAmongMembers` | src/core/wav_fixer.py:36-41 | A path is in the audit result exactly when it was scanned and is incompatible. |
| `Fixer.IncompatibleAmongDistinct` | src/core/wav_fixer.py:36-41 | If the scanned paths have no repeats, neither does the audit result. |
| `Fixer.FindIncompatibleWavFiles` | src/core/wav_fixer.py:26-54 | Every file is counted. The result lists the incompatible files in scan order, replacing the earlier result. It succeeds exactly when that list is non-empty. An empty file list leaves the initial state. |
| `Fixer.PcmWrite` | src/core/wav_fixer.py:106-111 | Writing `"0001"` to the format field either stores the PCM tag or fails to open and changes nothing. |
| `Fixer.FixIncompatibleWavFile` | src/core/wav_fixer.py:97-125 | It succeeds exactly when the file was flagged and is writable. On success the file reads PCM, its first occurrence is removed from the list, and only bytes 20-21 of that file change. On failure nothing changes. |
| `Fixer.FixKeepsPcm` | src/core/wav_fixer.py:97-125 | A repair never turns a file that reads PCM into one that does not. |
| `Fixer.ResetRefusesRepairs` | src/core/wav_fixer.py:22-24 | After `reset()` every repair request is refused and no file changes. |
| `Fixer.RepairNotRepeated` | src/core/wav_fixer.py:97-125 | When the list has no repeated entries, a file that was just repaired is refused on a second attempt, which changes nothing. |
| `Fixer.FixEach` | src/core/wav_fixer.py:87-95 | The batch loop over a caller's list changes only listed files and no file layout. On success every listed file reads PCM and the list shrank by one per listed file. |
| `Fixer.FixLive` | src/core/wav_fixer.py:77-95 | The batch loop over the fixer's own shrinking list never grows the list and never changes the file layout. |
| `Fixer.FixIncompatibleWavFiles` | src/core/wav_fixer.py:70-95 | It refuses when nothing is flagged. It refuses an argument that names an unflagged file, without writing anything. Otherwise it is the loop over the argument, or the loop over the live list when there is no argument. |
| `Fixer.FixListed` | src/core/wav_fixer.py:87-95 | The loop over a caller's list computes exactly the fold `FixEach`. |
| `Fixer.FixOwnList` | src/core/wav_fixer.py:77-93 | The loop over the fixer's own list computes exactly the walk `FixLive`. |
| `Fixer.FixLiveSkipsAlternate` | src/core/wav_fixer.py:77-95 | Walking the live list of writable, distinct files reports success. Every file at an odd position is still listed afterwards. |
| `Fixer.FixLiveMissesSecondFile` | src/core/wav_fixer.py:77-95 | With two flagged writable files, the batch reports success while the second file is still listed and still incompatible. |
| `Fixer.FixEachRepairsAll` | src/core/wav_fixer.py:80-95 | Take a caller's list of flagged, writable files. Repairing it succeeds and removes exactly those files from the fixer's list, as a multiset. |
| `Fixer.FixAllIncompatibleEmptiesList` | src/core/wav_fixer.py:70-95 | The corrected batch walks a copy of the list. With writable files it succeeds, empties the list and leaves every flagged file reading PCM. |
| `Finder.Create` | src/core/wav_finder.py:10-12 | A new finder has the given base path, no files and no counter yet. |
| `Finder.Reset` | src/core/wav_finder.py:14-16 | `reset()` keeps the base path, forgets the files and zeroes the counter. |
| `Finder.FindWavFiles` | src/core/wav_finder.py:18-35 | It resets. It succeeds exactly when the base path is a directory and the walk yields something. The files are then the walk's paths, in order. |
| `Finder.SetBasePath` | src/core/wav_finder.py:41-50 | It raises `NotADirectoryError` exactly when the path is not a directory. Otherwise the finder is reset and points at the new path. |
| `Finder.SetThenFind` | src/core/wav_finder.py:18-50 | Right after a successful assignment, a search keeps exactly the walk's paths. It succeeds exactly when there is at least one. |
| `Discogs.Names` | src/core/tag_reader.py:131 | The list of names has one entry per artist, in order. |
| `TagReader.EveryKeyVisited` | src/core/tag_reader.py:21-29 | `load_tags` visits every key of `FILE_TAG`. |
| `TagReader.FieldNameInjective` | src/core/tag_reader.py:11-18 | Distinct keys are stored under distinct upper-case field names. |
| `TagReader.TagExtensional` | src/core/tag_reader.py:33-40 | A tag is determined by its seven fields. |
| `TagReader.ApplyTag` | src/core/tag_reader.py:77-90 | A found value sets its own key's field, split on `", "` for artists and genres, and no other field. |
| `TagReader.LoadTag` | src/core/tag_reader.py:94-113 | The result is the first stored value. There is none when the file has no tags, no entry or an empty entry. It raises `AttributeError` once the handle is gone. |
| `TagReader.LoadKeysFields` | src/core/tag_reader.py:67-92 | After the loop, each visited key with a value holds it and every other field keeps its value. The flag says whether any visited key had a value. |
| `TagReader.LoadTags` | src/core/tag_reader.py:67-92 | Every key with a stored value overwrites its field and the others are kept. The result says whether any key had a value. It raises exactly when the handle was dropped. |
| `TagReader.OpenFileTagReader` | src/core/tag_reader.py:57-65 | It raises `FileNotFoundError` exactly for a missing path. Otherwise the reader starts blank and holds the file's loaded tags. |
| `TagReader.ArtistsJoinBack` | src/core/tag_reader.py:79-80 | The artist list read from a file joins back, with `", "`, into the stored entry. |
| `TagReader.UntaggedFileIsBlank` | src/core/tag_reader.py:57-92 | A file with no stored value gives the blank tag, and loading reports nothing found. |
| `TagReader.Copy` | src/core/tag_reader.py:115-117 | The original and the copy are equal. Both keep the file and the fields, and both have lost the tag handle. |
| `TagReader.CopyDisablesReload` | src/core/tag_reader.py:94-117 | After `copy()`, reloading the original's tags raises. |
| `TagReader.LoadDiscogsTags` | src/core/tag_reader.py:120-132 | A release reader takes its fields from the release. The album is the title. The title is empty. The year is the decimal year. Genres and URL are copied. The artists are the release's artist names. It raises exactly when the artists cannot be fetched. |
| `TagReader.DiscogsYearReadsBack` | src/core/tag_reader.py:129 | The stored year string reads back, as a decimal, as the release year. |
| `SearchEngine.Create` | src/core/discogs_search_engine.py:14-26 | A new engine keeps one candidate. |
| `SearchEngine.AllListed` | src/core/discogs_search_engine.py:201-206 | The artist loop succeeds exactly when every requested artist is among the release's artists, compared by catalog id. |
| `SearchEngine.ReleaseContainsArtist` | src/core/discogs_search_engine.py:188-209 | False when the artists cannot be fetched or there are none. Otherwise, whether every requested artist is among them. |
| `SearchEngine.Filter` | src/core/discogs_search_engine.py:87-96 | Only admitted hits are kept, and never more hits than there are. |
| `SearchEngine.FilterFirst` | src/core/discogs_search_engine.py:87-108 | Something is kept exactly when some hit is admitted. The first kept hit is the first admitted one. At most `max(candidates, 1)` are kept. |
| `SearchEngine.FilterMasters` | src/core/discogs_search_engine.py:136-146 | A master is kept exactly when the release filter would keep its main release. |
| `SearchEngine.FilterMastersFirst` | src/core/discogs_search_engine.py:136-158 | The first master kept is the first master whose main release is admitted. |
| `SearchEngine.SearchRelease` | src/core/discogs_search_engine.py:71-118 | The answer is the first release hit that features every requested artist, or any first hit when none is requested. Otherwise there is none. |
| `SearchEngine.SearchMaster` | src/core/discogs_search_engine.py:120-163 | The answer is the first master hit whose main release features every requested artist, or nothing. |
| `SearchEngine.SearchArtist` | src/core/discogs_search_engine.py:165-186 | The answer is the first artist hit, and there is one exactly when the search returns any. |
| `SearchEngine.SearchWithPrompt` | src/core/discogs_search_engine.py:55-69 | A master's main release comes first, then a plain release. Whatever comes back features every requested artist. |
| `SearchEngine.SearchWithPromptHit` | src/core/discogs_search_engine.py:55-69 | A prompt search only returns one of the catalog's hits for that prompt. |
| `SearchEngine.SearchWithoutArtists` | src/core/discogs_search_engine.py:55-69 | Without artists nothing is filtered. The answer is the first master's main release, else the first release hit. |
| `SearchEngine.ResolveArtists` | src/core/discogs_search_engine.py:32-37 | Each resolved artist is the first hit for one of the names, and there are no more of them than names. |
| `SearchEngine.ResolveArtistsAppend` | src/core/discogs_search_engine.py:32-37 | Resolving a concatenation of names gives the artists of the first part followed by those of the second. |
| `SearchEngine.ResolveArtistsOne` | src/core/discogs_search_engine.py:32-37 | A single name contributes its first artist hit, or nothing when the search finds none. With the previous row this fixes the result on every list of names: unresolved names are dropped and resolved artists keep their order. |
| `SearchEngine.ResolveAllFound` | src/core/discogs_search_engine.py:32-37 | When every name has a hit, the result is each name's first hit, in order. |
| `SearchEngine.ResolveNoneFound` | src/core/discogs_search_engine.py:32-37 | When no name has a hit, nothing is resolved. |
| `SearchEngine.SearchPromptShape` | src/core/discogs_search_engine.py:39-45 | The prompt is the stem without an album. With one, it starts with the album, and with one artist it is the album, a space and the artist. |
| `SearchEngine.CleanUpSearchPrompt` | src/core/discogs_search_engine.py:211-218 | The cleaned prompt has no `/` and no `-`, is no longer than the input, and adds no character but spaces. |
| `SearchEngine.CleanUpIdempotent` | src/core/discogs_search_engine.py:211-218 | Cleaning a cleaned prompt changes nothing. |
| `SearchEngine.SearchWithFile` | src/core/discogs_search_engine.py:28-53 | A successful tagged search is the answer. Any answer either features the resolved artists or is a hit for the bare stem. It is always a hit for the prompt or the stem. |
| `SearchEngine.SearchWithFileFallback` | src/core/discogs_search_engine.py:47-53 | When the tagged search finds nothing, the answer is the stem's first master's main release, else its first release hit, else none. |
| `LegacyCore.LegacyReadHexValue` | src/core.py:23-57 | It equals the current read for the two-byte field. It is `""` for a narrower field. It never gives anything but `""` or the two-byte read. |
| `LegacyCore.LegacyReadIgnoresFieldSize` | src/core.py:49 | A one-byte field is never read, however long the file, while the current helper reads it. |
| `LegacyCore.LegacySetHexData` | src/core.py:60-84 | It behaves as the current write for a two-byte field, whatever `field_size` says. |
| `LegacyCore.LegacySetRefusesOneByteField` | src/core.py:63 | The two-digit value for a one-byte field is refused, while the current helper accepts it. |
| `LegacyCore.IsWavFileSuspicious` | src/core.py:140-150 | The test is the same as the current fixer's incompatibility test. |
| `LegacyCore.Reset` | src/core.py:96-98 | `reset()` keeps the base path and empties both lists. |
| `LegacyCore.ResetRefusesRepair` | src/core.py:152-155 | After `reset()` the repair is refused and no file changes. |
| `LegacyCore.SetBasePath` | src/core.py:186-195 | It raises `NotADirectoryError` exactly for a non-directory. Otherwise the core is the new path with both lists empty. |
| `LegacyCore.FindWavFiles` | src/core.py:100-113 | The audit result is cleared. A non-directory base path keeps the file list. Otherwise the list becomes the walk's result. It succeeds exactly when the base path is a directory and the walk finds something. |
| `LegacyCore.FindSuspiciousWavFiles` | src/core.py:115-138 | The result is replaced by the flagged files in scan order, and it succeeds exactly when there is one. |
| `LegacyCore.FixSuspiciousWavFiles` | src/core.py:152-180 | It refuses without files. It succeeds exactly when every flagged file is writable. Every writable flagged file ends up PCM, and files that are not flagged are untouched. |
| `LegacyCore.FixOne` | src/core.py:161-178 | One pass fails exactly when the file cannot be opened for writing. It touches no other file, and files that read PCM still do. |
| `LegacyCore.FixRepairsEveryFlaggedFile` | src/core.py:152-180 | With writable flagged files the repair succeeds and every flagged file reads PCM. This loop never edits the list it walks. |
| `OldestCore.ReadHexValue` | core.py:10-37 | An unopenable file raises instead of reading as `""`. Otherwise the read is that of `src/core.py`. |
| `OldestCore.SetHexData` | core.py:39-58 | The value is `False` on refusal and `True` after a complete write. An unwritable file raises the open error, and a non-decimal chunk raises `ValueError`. |
| `OldestCore.IsWavFileSuspicious` | core.py:93-102 | It raises exactly for an unreadable file. Otherwise it is the current incompatibility test. |
| `OldestCore.FindWavFiles` | core.py:71-77 | The audit result is kept. A directory's walk replaces the file list, and the search succeeds exactly when that walk finds something. |
| `OldestCore.FindSuspiciousWavFiles` | core.py:79-91 | It refuses without files. Otherwise it appends the flagged files to the earlier result, which is never cleared. The first unreadable file raises, after the flagged files before it were appended. |
| `OldestCore.AuditTwice` | core.py:79-91 | Auditing the same readable files twice lists every flagged file twice. |
| `OldestCore.RepairOne` | core.py:112-123 | One pass raises exactly for an unwritable file. Otherwise it reports success, the file reads PCM, and no other file changes. |
| `OldestCore.FixSuspiciousWavFiles` | core.py:105-125 | It refuses without files. It raises exactly when some flagged file is unwritable. Otherwise it succeeds and every flagged file reads PCM. Files that are not flagged never change. |

## Left out

- The following are I/O and are not modelled:
  - logging and `print`;
  - `Tag.print`, `print_release` and `print_master`;
  - the `release.master` check, which only chooses what to log;
  - the `main()` functions of `src/core.py` and `core.py`.
- The callbacks `cb_found_incompatible_file` and `cb_fixed_incompatible_file` are caller code the model cannot see. They do not change the fixer's state.
- The read-only accessors are plain fields of the immutable values:
  - `incompatible_files`, `n_incompatible_files`, `files`, `n_files`, `suspicious_files` and `n_suspicious_files`;
  - the `base_path` getters.
- The user token, the token file read and the Discogs client construction are network setup. The catalog's answers are a parameter instead.
- Only the failure of the `release.artists` fetch is modelled. Fetch failures of `master.main_release`, `release.title`, `release.year` and `release.genres` are not. Nor is the search service's pagination.
- `taglib.File` errors for a file that exists but cannot be parsed are not modelled. The tag map is a parameter.
- `rglob` is a parameter, in the order it yields paths. The directory walk itself is not modelled, and neither is its `*.wav` pattern: the listing is taken as already matched.
- `Tag.copy` makes a deep copy. On immutable values that is the value itself.
- `src/constants.py` is not part of this model. Its values are taken from `src/core.py:3-7`, which has the same names.
- `Text.Upper` maps ASCII letters only. Every string it is applied to is an ASCII field name.
- `HexCodec.SetHexData` decodes a chunk with Python's base-10 `int`. The model accepts ASCII digits, ASCII whitespace and a sign. Python also accepts non-ASCII decimal digits and Unicode whitespace, which the model treats as errors.
- `Fixer.FixLive` states only the bounds and the layout. What it computes is stated by `Fixer.FixLiveSkipsAlternate` and `Fixer.FixLiveMissesSecondFile`.
- `SearchEngine.SearchWithFile` states the answer through its relation to the prompt and stem searches. The exact fallback value is stated by `SearchEngine.SearchWithFileFallback`.
- The counter `n_processed_files` of `WavFinder` is only ever reset, and the model keeps it the same way. No operation reads it.

## Findings

| source | as written | input that shows it | evidently intended | confidence | as-written member | corrected member |
|---|---|---|---|---|---|---|
| src/core/wav_fixer.py:77-95 | Without an argument, the batch repair iterates `self._incompatible_files` itself, while each successful repair removes the current element from that list. The iterator therefore steps over every second file, yet the batch returns `True`. | Two flagged, writable files `[a, b]`. After the batch, `b` is still listed and still `WAVE_FORMAT_EXTENSIBLE`, and the result is `True`. | Iterate over a copy of the list, so that every flagged file is repaired. | not executed | `Fixer.FixLiveMissesSecondFile` | `Fixer.FixAllIncompatibleEmptiesList` |
| src/core.py:49 | `read_hex_value` compares the number of bytes read with the constant `AUDIO_FORMAT_FIELD_SIZE` instead of its `field_size` argument. | `field_size = 1` on a file with a byte at the offset gives `""`. | Compare with `field_size`, as `src/utils.py:33` does. | not executed | `LegacyCore.LegacyReadIgnoresFieldSize` | `HexCodec.ReadHexValue` |
| src/core.py:63 | `set_hex_data` compares the number of chunks with the constant `AUDIO_FORMAT_FIELD_SIZE` instead of its `field_size` argument. | `field_size = 1` with `"01"` is refused. | Compare with `field_size`, as `src/utils.py:47` does. | not executed | `LegacyCore.LegacySetRefusesOneByteField` | `HexCodec.SetHexData` |
| src/utils.py:65 | `set_hex_data` converts each two-digit chunk with `int(chunk)`, which is base 10, although the values are hex strings written by `f"{v:04X}"` and read back as hex. | Writing `"FFFE"` raises `ValueError` on the chunk `"FE"`. | `int(chunk, 16)`. | not executed | `HexCodec.DecimalWriteRejectsHexField` | `HexCodec.RoundTripHex` |

In the first row, the batch repair model keeps the code's behaviour. `Fixer.FixIncompatibleWavFiles` is equal to the live walk, and the corrected walk `Fixer.FixAllIncompatible` is defined next to it.

In the fourth row, the fixer only ever writes `"0001"`. For strings made only of `0d` pairs, base 10 and base 16 agree, so the repair is the same under both definitions (`HexCodec.RoundTripZeroDigitPairs`). `HexCodec.SetHexValue` is the write any other value needs.
