/**
 * The tag records of src/core/tag_reader.py: a `Tag` with seven fields, a reader that fills one
 * from the tag map of an audio file, and a reader that fills one from a catalog release.
 *
 * The audio file's tags (what `taglib.File(file).tags` returns) are a parameter: a map from
 * upper-case field names to lists of values.
 */
module TagReader {
  import opened Wrappers
  import opened Text
  import opened Files
  import Discogs

  datatype Tag = Tag(
    album: string,
    artists: seq<string>,
    title: string,
    year: Option<string>,
    date: string,
    genres: seq<string>,
    trackNumber: Option<string>)

  /** The fields of a newly constructed `Tag`. */
  const Blank: Tag := Tag("", [], "", None, "", [], None)

  /** The keys of `FILE_TAG`, each with its lower-case name. */
  datatype TagKey = Album | Artist | Title | Year | Date | Genre | TrackNumber {
    function Name(): string {
      match this
      case Album => "album"
      case Artist => "artist"
      case Title => "title"
      case Year => "year"
      case Date => "date"
      case Genre => "genre"
      case TrackNumber => "tracknumber"
    }
  }

  /** `TAGS`: the keys in the order `load_tags` visits them. */
  const Keys: seq<TagKey> := [Album, Artist, Title, Year, Date, Genre, TrackNumber]

  /** `load_tags` visits every key. */
  lemma EveryKeyVisited(key: TagKey)
    ensures key in Keys
  {
    match key {
      case Album => assert Keys[0] == key;
      case Artist => assert Keys[1] == key;
      case Title => assert Keys[2] == key;
      case Year => assert Keys[3] == key;
      case Date => assert Keys[4] == key;
      case Genre => assert Keys[5] == key;
      case TrackNumber => assert Keys[6] == key;
    }
  }

  /** The separator multi-valued fields are split on. */
  const ListSeparator: string := ", "

  /** `song.tags`: upper-case field names to their values. */
  type TagMap = map<string, seq<string>>

  /** The name a key is stored under in the file: `key.upper()`. */
  function FieldName(key: TagKey): string {
    Upper(key.Name())
  }

  /** Distinct keys are stored under distinct field names. */
  lemma FieldNameInjective(a: TagKey, b: TagKey)
    requires a != b
    ensures FieldName(a) != FieldName(b)
  {
    assert FieldName(a)[1] != FieldName(b)[1] || FieldName(a)[0] != FieldName(b)[0] || |FieldName(a)| != |FieldName(b)|;
  }

  // ---------------------------------------------------------------------------------------
  // One field as a value

  /** A field's content, whatever its Python type. */
  datatype FieldValue = Text(text: string) | Texts(texts: seq<string>) | Maybe(maybe: Option<string>)

  /** The field `key` selects. */
  function Field(t: Tag, key: TagKey): FieldValue {
    match key
    case Album => Text(t.album)
    case Artist => Texts(t.artists)
    case Title => Text(t.title)
    case Year => Maybe(t.year)
    case Date => Text(t.date)
    case Genre => Texts(t.genres)
    case TrackNumber => Maybe(t.trackNumber)
  }

  /** What `load_tags` stores for a found value: the artists and genres are split on `", "`. */
  function Parsed(key: TagKey, value: string): FieldValue {
    match key
    case Artist => Texts(Split(value, ListSeparator))
    case Genre => Texts(Split(value, ListSeparator))
    case Year => Maybe(Some(value))
    case TrackNumber => Maybe(Some(value))
    case _ => Text(value)
  }

  /** A tag is determined by its seven fields. */
  lemma TagExtensional(a: Tag, b: Tag)
    requires forall key :: Field(a, key) == Field(b, key)
    ensures a == b
  {
    assert Field(a, Album) == Field(b, Album);
    assert Field(a, Artist) == Field(b, Artist);
    assert Field(a, Title) == Field(b, Title);
    assert Field(a, Year) == Field(b, Year);
    assert Field(a, Date) == Field(b, Date);
    assert Field(a, Genre) == Field(b, Genre);
    assert Field(a, TrackNumber) == Field(b, TrackNumber);
  }

  /** The branch of `load_tags` for one found value: it sets that key's field and no other. */
  function ApplyTag(t: Tag, key: TagKey, value: string): (r: Tag)
    ensures Field(r, key) == Parsed(key, value)
    ensures forall other :: other != key ==> Field(r, other) == Field(t, other)
  {
    match key
    case Album => t.(album := value)
    case Artist => t.(artists := Split(value, ListSeparator))
    case Title => t.(title := value)
    case Year => t.(year := Some(value))
    case Date => t.(date := value)
    case Genre => t.(genres := Split(value, ListSeparator))
    case TrackNumber => t.(trackNumber := Some(value))
  }

  // ---------------------------------------------------------------------------------------
  // Reading an audio file's tags

  /** The first value stored for `key`, if the file has a non-empty entry for it. */
  function Stored(tags: TagMap, key: TagKey): Option<string> {
    if FieldName(key) in tags && |tags[FieldName(key)]| > 0 then Some(tags[FieldName(key)][0]) else None
  }

  /**
   * `load_tag(key)`: no value when the file has no tags at all, no entry for the key, or an
   * empty entry; otherwise the first value. A reader whose handle was dropped by `copy()`
   * raises `AttributeError`.
   */
  function LoadTag(song: Option<TagMap>, key: TagKey): (r: Result<Option<string>>)
    ensures r.Raised? <==> song.None?
    ensures r.Raised? ==> r.error == AttributeError
    ensures r.Ok? ==> r.value == Stored(song.value, key)
  {
    if song.None? then Raised(AttributeError)
    else
      var tags := song.value;
      if |tags| == 0 then Ok(None)
      else if FieldName(key) !in tags then Ok(None)
      else
        var values := tags[FieldName(key)];
        if |values| == 0 then Ok(None) else Ok(Some(values[0]))
  }

  /** The loop of `load_tags` over `keys`: the updated tag, and whether any key had a value. */
  function LoadKeys(t: Tag, tags: TagMap, keys: seq<TagKey>): (Tag, bool)
    decreases |keys|
  {
    if |keys| == 0 then (t, false)
    else
      var value := LoadTag(Some(tags), keys[0]).value;
      var t' := if value.Some? then ApplyTag(t, keys[0], value.value) else t;
      var rest := LoadKeys(t', tags, keys[1..]);
      (rest.0, value.Some? || rest.1)
  }

  /**
   * After the loop, a visited key with a stored value holds that value, and every other field
   * is as before; the flag says whether any visited key had a value.
   */
  lemma {:induction false} LoadKeysFields(t: Tag, tags: TagMap, keys: seq<TagKey>, key: TagKey)
    ensures Field(LoadKeys(t, tags, keys).0, key) ==
      if key in keys && Stored(tags, key).Some? then Parsed(key, Stored(tags, key).value) else Field(t, key)
    ensures LoadKeys(t, tags, keys).1 <==> exists k :: k in keys && Stored(tags, k).Some?
    decreases |keys|
  {
    if |keys| > 0 {
      var value := Stored(tags, keys[0]);
      var t' := if value.Some? then ApplyTag(t, keys[0], value.value) else t;
      LoadKeysFields(t', tags, keys[1..], key);
      assert forall k :: k in keys <==> k == keys[0] || k in keys[1..];
    }
  }

  /** A reader of an audio file's tags: `file`, `song` (absent once copied) and the tag fields. */
  datatype FileTagReader = FileTagReader(file: Path, song: Option<TagMap>, tag: Tag)

  /**
   * `FileTagReader.load_tags()`: every key of `TAGS` with a stored value overwrites its field,
   * the others keep theirs; the result says whether any key had a value.
   */
  function LoadTags(r: FileTagReader): (res: Result<(FileTagReader, bool)>)
    ensures res.Raised? <==> r.song.None?
    ensures res.Raised? ==> res.error == AttributeError
    ensures res.Ok? ==> res.value.0.file == r.file && res.value.0.song == r.song
    ensures res.Ok? ==> forall key :: (Field(res.value.0.tag, key) ==
      if Stored(r.song.value, key).Some? then Parsed(key, Stored(r.song.value, key).value) else Field(r.tag, key))
    ensures res.Ok? ==> (res.value.1 <==> exists key :: Stored(r.song.value, key).Some?)
  {
    if r.song.None? then Raised(AttributeError)
    else
      var tags := r.song.value;
      var loaded := LoadKeys(r.tag, tags, Keys);
      forall key ensures Field(loaded.0, key) ==
        if Stored(tags, key).Some? then Parsed(key, Stored(tags, key).value) else Field(r.tag, key) {
        EveryKeyVisited(key);
        LoadKeysFields(r.tag, tags, Keys, key);
      }
      LoadKeysFields(r.tag, tags, Keys, Album);
      forall key | Stored(tags, key).Some? ensures key in Keys {
        EveryKeyVisited(key);
      }
      Ok((r.(tag := loaded.0), loaded.1))
  }

  /** `Path.exists()`: a file or a directory is there. */
  predicate Exists(fs: FileSystem, p: Path) {
    p in fs.contents || p in fs.dirs
  }

  /**
   * The `FileTagReader` constructor: a missing path raises `FileNotFoundError`; otherwise the
   * reader starts from the blank tag and loads the file's tags into it.
   */
  function OpenFileTagReader(fs: FileSystem, file: Path, tags: TagMap): (r: Result<FileTagReader>)
    ensures r.Raised? <==> !Exists(fs, file)
    ensures r.Raised? ==> r.error == FileNotFound
    ensures r.Ok? ==> r.value.file == file && r.value.song == Some(tags)
    ensures r.Ok? ==> forall key :: (Field(r.value.tag, key) ==
      if Stored(tags, key).Some? then Parsed(key, Stored(tags, key).value) else Field(Blank, key))
  {
    if !Exists(fs, file) then Raised(FileNotFound)
    else
      var loaded := LoadTags(FileTagReader(file, Some(tags), Blank));
      Ok(loaded.value.0)
  }

  /** An artist entry read from a file splits into names that `", ".join` puts back together. */
  lemma ArtistsJoinBack(fs: FileSystem, file: Path, tags: TagMap)
    requires Exists(fs, file) && Stored(tags, Artist).Some?
    ensures Join(OpenFileTagReader(fs, file, tags).value.tag.artists, ListSeparator) == Stored(tags, Artist).value
  {
    var r := OpenFileTagReader(fs, file, tags);
    assert Field(r.value.tag, Artist) == Texts(Split(Stored(tags, Artist).value, ListSeparator));
    JoinSplit(Stored(tags, Artist).value, ListSeparator);
  }

  /** A file without any stored value leaves every field at its default, and loading reports nothing found. */
  lemma UntaggedFileIsBlank(fs: FileSystem, file: Path, tags: TagMap)
    requires Exists(fs, file) && forall key :: Stored(tags, key).None?
    ensures OpenFileTagReader(fs, file, tags).value.tag == Blank
    ensures !LoadTags(FileTagReader(file, Some(tags), Blank)).value.1
  {
    TagExtensional(OpenFileTagReader(fs, file, tags).value.tag, Blank);
  }

  /**
   * `FileTagReader.copy()`: drops the reader's own tag handle, then returns a deep copy; the
   * original and the copy are equal and neither can load tags any more.
   */
  function Copy(r: FileTagReader): (pair: (FileTagReader, FileTagReader))
    ensures pair.0 == pair.1
    ensures pair.0.file == r.file && pair.0.tag == r.tag && pair.0.song.None?
  {
    var dropped := r.(song := None);
    (dropped, dropped)
  }

  /** After `copy()`, reloading the original's tags raises. */
  lemma CopyDisablesReload(r: FileTagReader)
    ensures LoadTags(Copy(r).0).Raised?
  {
  }

  // ---------------------------------------------------------------------------------------
  // Reading a catalog release's tags

  /** A reader of a catalog release's tags: the release, the tag fields and the release's URL. */
  datatype DiscogsTagReader = DiscogsTagReader(release: Discogs.Release, tag: Tag, url: string)

  /**
   * `DiscogsTagReader` construction and `load_tags()`: the album is the release title, the
   * title is emptied, the year is the release year as a decimal string, genres and URL are
   * copied, and the artists are the release's artist names; date and track number keep their
   * defaults. A failed fetch of the artists raises.
   */
  function LoadDiscogsTags(release: Discogs.Release): (r: Result<DiscogsTagReader>)
    ensures r.Raised? <==> release.artists.FetchFailed?
    ensures r.Raised? ==> r.error == HttpError
    ensures r.Ok? ==> r.value.release == release && r.value.url == release.url
    ensures r.Ok? ==> var t := r.value.tag;
      && t.album == release.title && t.title == "" && t.genres == release.genres
      && |t.artists| == |release.artists.list|
      && (forall k :: 0 <= k < |t.artists| ==> t.artists[k] == release.artists.list[k].name)
      && t.date == Blank.date && t.trackNumber == Blank.trackNumber
      && t.year.Some?
  {
    if release.artists.FetchFailed? then Raised(HttpError)
    else
      var t := Blank.(
        album := release.title,
        title := "",
        year := Some(IntToString(release.year)),
        genres := release.genres,
        artists := Discogs.Names(release.artists.list));
      Ok(DiscogsTagReader(release, t, release.url))
  }

  /** The year a release reader stores reads back as the release's year. */
  lemma DiscogsYearReadsBack(release: Discogs.Release)
    requires release.artists.Fetched?
    ensures var y := LoadDiscogsTags(release).value.tag.year.value;
      && (|y| > 0 && y[0] == '-' <==> release.year < 0)
      && var digits := if release.year < 0 then y[1..] else y;
      && |digits| > 0
      && (forall i :: 0 <= i < |digits| ==> IsDigit(digits[i]))
      && DecimalValue(digits) == (if release.year < 0 then -release.year else release.year)
  {
    IntToStringValue(release.year);
  }
}
