/**
 * The release search of src/core/discogs_search_engine.py: it resolves a file's artist names to
 * catalog artists, builds and cleans a search prompt from the file's tags, and looks for a
 * master release and then a plain release matching the prompt, keeping only candidates that
 * feature every resolved artist, with a final retry on the bare file name.
 *
 * The catalog's search service is data: for each prompt, the lists a release, master or
 * artist search returns, in the service's order.
 */
module SearchEngine {
  import opened Wrappers
  import opened Text
  import opened Files
  import opened Discogs
  import TagReader

  /** What the catalog's search service returns for a prompt, per result type. */
  datatype Catalog = Catalog(
    releases: string -> seq<Release>,
    masters: string -> seq<Master>,
    artists: string -> seq<Artist>)

  /** The engine: the catalog it queries and `discogs_candidates`, how many hits to keep. */
  datatype Engine = Engine(catalog: Catalog, candidates: nat)

  /** The constructor's choice of `discogs_candidates`. */
  const DiscogsCandidates: nat := 1

  /** The constructed engine; the user token only affects the service and is not modelled. */
  function Create(catalog: Catalog): (e: Engine)
    ensures e.catalog == catalog && e.candidates == DiscogsCandidates
  {
    Engine(catalog, DiscogsCandidates)
  }

  // ---------------------------------------------------------------------------------------
  // Artist filter

  /** The `for artist in artists` loop: every requested artist is among the release's artists. */
  function AllListed(listed: seq<Artist>, wanted: seq<Artist>): (r: bool)
    ensures r <==> forall k :: 0 <= k < |wanted| ==> HasArtist(listed, wanted[k])
  {
    if |wanted| == 0 then true
    else if !HasArtist(listed, wanted[0]) then false
    else AllListed(listed, wanted[1..])
  }

  /**
   * `release_contains_artist(release, artists)`: false when the release's artists cannot be
   * fetched or there are none; otherwise whether every requested artist is among them.
   */
  function ReleaseContainsArtist(release: Release, artists: seq<Artist>): (r: bool)
    ensures r <==>
      && release.artists.Fetched?
      && |release.artists.list| > 0
      && forall k :: 0 <= k < |artists| ==> HasArtist(release.artists.list, artists[k])
  {
    if release.artists.FetchFailed? then false
    else if |release.artists.list| == 0 then false
    else AllListed(release.artists.list, artists)
  }

  /** A candidate release survives the filter: no artist was requested, or it features them all. */
  predicate Admits(artists: seq<Artist>, release: Release) {
    |artists| == 0 || ReleaseContainsArtist(release, artists)
  }

  /** `i` is the position of the first release the filter admits. */
  predicate FirstAdmitted(artists: seq<Artist>, releases: seq<Release>, i: int) {
    && 0 <= i < |releases|
    && Admits(artists, releases[i])
    && forall j :: 0 <= j < i ==> !Admits(artists, releases[j])
  }

  /**
   * The filtering loop: scans the hits in order, keeps each admitted one, and stops right
   * after keeping one once `candidates` are kept (the test follows the append, so at least
   * one is kept whenever one is admitted).
   */
  function Filter(releases: seq<Release>, artists: seq<Artist>, candidates: nat): (r: seq<Release>)
    ensures |r| <= |releases|
    ensures forall k :: 0 <= k < |r| ==> Admits(artists, r[k])
    decreases |releases|
  {
    if |releases| == 0 then []
    else if !Admits(artists, releases[0]) then Filter(releases[1..], artists, candidates)
    else if 1 >= candidates then [releases[0]]
    else [releases[0]] + Filter(releases[1..], artists, candidates - 1)
  }

  /** The filter keeps something exactly when some hit is admitted, and the first kept is the first admitted. */
  lemma {:induction false} FilterFirst(releases: seq<Release>, artists: seq<Artist>, candidates: nat)
    ensures |Filter(releases, artists, candidates)| > 0 <==> exists i :: FirstAdmitted(artists, releases, i)
    ensures |Filter(releases, artists, candidates)| > 0 ==>
      exists i :: FirstAdmitted(artists, releases, i) && Filter(releases, artists, candidates)[0] == releases[i]
    ensures |Filter(releases, artists, candidates)| <= if candidates <= 1 then 1 else candidates
    decreases |releases|
  {
    if |releases| > 0 {
      FilterFirst(releases[1..], artists, if Admits(artists, releases[0]) && candidates > 1 then candidates - 1 else candidates);
      if Admits(artists, releases[0]) {
        assert FirstAdmitted(artists, releases, 0);
      } else {
        forall i | FirstAdmitted(artists, releases[1..], i) ensures FirstAdmitted(artists, releases, i + 1) {
          assert releases[1..][i] == releases[i + 1];
          forall j | 0 <= j < i + 1 ensures !Admits(artists, releases[j]) {
            if j > 0 {
              assert releases[j] == releases[1..][j - 1];
            }
          }
        }
        forall i | FirstAdmitted(artists, releases, i) ensures FirstAdmitted(artists, releases[1..], i - 1) {
          assert i > 0;
          forall j | 0 <= j < i - 1 ensures !Admits(artists, releases[1..][j]) {
            assert releases[1..][j] == releases[j + 1];
          }
        }
      }
    }
  }

  /** The first admitted hit is unique. */
  lemma FirstAdmittedUnique(artists: seq<Artist>, releases: seq<Release>, i: int, j: int)
    requires FirstAdmitted(artists, releases, i) && FirstAdmitted(artists, releases, j)
    ensures i == j
  {
  }

  /** Masters are filtered by the artists of their main release. */
  function MainReleases(masters: seq<Master>): (r: seq<Release>)
    ensures |r| == |masters|
    ensures forall k :: 0 <= k < |masters| ==> r[k] == masters[k].mainRelease
  {
    seq(|masters|, k requires 0 <= k < |masters| => masters[k].mainRelease)
  }

  /** The master loop keeps the masters whose main release the release loop would keep. */
  function FilterMasters(masters: seq<Master>, artists: seq<Artist>, candidates: nat): (r: seq<Master>)
    ensures |r| <= |masters|
    ensures forall k :: 0 <= k < |r| ==> Admits(artists, r[k].mainRelease)
    ensures MainReleases(r) == Filter(MainReleases(masters), artists, candidates)
    decreases |masters|
  {
    if |masters| == 0 then []
    else
      assert MainReleases(masters)[1..] == MainReleases(masters[1..]);
      if !Admits(artists, masters[0].mainRelease) then FilterMasters(masters[1..], artists, candidates)
      else if 1 >= candidates then [masters[0]]
      else [masters[0]] + FilterMasters(masters[1..], artists, candidates - 1)
  }

  /** The first master kept is the first master whose main release is admitted. */
  lemma {:induction false} FilterMastersFirst(masters: seq<Master>, artists: seq<Artist>, candidates: nat)
    ensures |FilterMasters(masters, artists, candidates)| > 0 ==>
      exists i :: FirstAdmitted(artists, MainReleases(masters), i) && FilterMasters(masters, artists, candidates)[0] == masters[i]
    decreases |masters|
  {
    if |masters| > 0 && !Admits(artists, masters[0].mainRelease) {
      var rest := masters[1..];
      FilterMastersFirst(rest, artists, candidates);
      if |FilterMasters(rest, artists, candidates)| > 0 {
        var i :| FirstAdmitted(artists, MainReleases(rest), i) && FilterMasters(rest, artists, candidates)[0] == rest[i];
        assert FirstAdmitted(artists, MainReleases(masters), i + 1) by {
          forall j | 0 <= j < i + 1 ensures !Admits(artists, MainReleases(masters)[j]) {
            if j > 0 {
              assert MainReleases(masters)[j] == MainReleases(rest)[j - 1];
            }
          }
        }
      }
    } else if |masters| > 0 {
      assert FirstAdmitted(artists, MainReleases(masters), 0);
    }
  }

  // ---------------------------------------------------------------------------------------
  // Searches

  /**
   * `search_release(prompt, artists)`: the first release hit that features every requested
   * artist (any hit when none is requested), or nothing.
   */
  function SearchRelease(e: Engine, prompt: string, artists: seq<Artist>): (r: Option<Release>)
    ensures var hits := e.catalog.releases(prompt);
      && (r.Some? <==> exists i :: FirstAdmitted(artists, hits, i))
      && (r.Some? ==> exists i :: FirstAdmitted(artists, hits, i) && r.value == hits[i])
  {
    var hits := e.catalog.releases(prompt);
    if |hits| == 0 then None
    else
      var kept := Filter(hits, artists, e.candidates);
      FilterFirst(hits, artists, e.candidates);
      if |kept| == 0 then None else Some(kept[0])
  }

  /**
   * `search_master(prompt, artists)`: the first master hit whose main release features every
   * requested artist (any hit when none is requested), or nothing.
   */
  function SearchMaster(e: Engine, prompt: string, artists: seq<Artist>): (r: Option<Master>)
    ensures var hits := MainReleases(e.catalog.masters(prompt));
      && (r.Some? <==> exists i :: FirstAdmitted(artists, hits, i))
      && (r.Some? ==> exists i :: FirstAdmitted(artists, hits, i) && r.value == e.catalog.masters(prompt)[i])
  {
    var masters := e.catalog.masters(prompt);
    if |masters| == 0 then None
    else
      var kept := FilterMasters(masters, artists, e.candidates);
      FilterFirst(MainReleases(masters), artists, e.candidates);
      if |kept| == 0 then None
      else
        FilterMastersFirst(masters, artists, e.candidates);
        Some(kept[0])
  }

  /** `search_artist(name)`: the first artist hit, or nothing. */
  function SearchArtist(e: Engine, name: string): (r: Option<Artist>)
    ensures r.Some? <==> |e.catalog.artists(name)| > 0
    ensures r.Some? ==> r.value == e.catalog.artists(name)[0]
  {
    var hits := e.catalog.artists(name);
    if |hits| == 0 then None else Some(hits[0])
  }

  /** `search_with_prompt(prompt, artists)`: a master's main release first, else a plain release. */
  function SearchWithPrompt(e: Engine, prompt: string, artists: seq<Artist>): (r: Option<Release>)
    ensures SearchMaster(e, prompt, artists).Some? ==> r == Some(SearchMaster(e, prompt, artists).value.mainRelease)
    ensures SearchMaster(e, prompt, artists).None? ==> r == SearchRelease(e, prompt, artists)
    ensures r.Some? ==> Admits(artists, r.value)
  {
    var master := SearchMaster(e, prompt, artists);
    if master.Some? then Some(master.value.mainRelease)
    else SearchRelease(e, prompt, artists)
  }

  /** Everything a search for `prompt` can return: main releases of master hits, then release hits. */
  function Hits(e: Engine, prompt: string): seq<Release> {
    MainReleases(e.catalog.masters(prompt)) + e.catalog.releases(prompt)
  }

  /** A prompt search only ever returns one of the catalog's hits for that prompt. */
  lemma SearchWithPromptHit(e: Engine, prompt: string, artists: seq<Artist>)
    ensures SearchWithPrompt(e, prompt, artists).Some? ==> SearchWithPrompt(e, prompt, artists).value in Hits(e, prompt)
  {
    var master := SearchMaster(e, prompt, artists);
    var hits := Hits(e, prompt);
    if master.Some? {
      var i :| FirstAdmitted(artists, MainReleases(e.catalog.masters(prompt)), i) && master.value == e.catalog.masters(prompt)[i];
      assert hits[i] == master.value.mainRelease;
    } else if SearchRelease(e, prompt, artists).Some? {
      var r := SearchRelease(e, prompt, artists).value;
      var i :| FirstAdmitted(artists, e.catalog.releases(prompt), i) && r == e.catalog.releases(prompt)[i];
      assert hits[|MainReleases(e.catalog.masters(prompt))| + i] == r;
    }
  }

  /** Without artists nothing is filtered: the first master's main release, else the first release hit. */
  lemma SearchWithoutArtists(e: Engine, prompt: string)
    ensures var masters := e.catalog.masters(prompt);
      var releases := e.catalog.releases(prompt);
      SearchWithPrompt(e, prompt, []) ==
        if |masters| > 0 then Some(masters[0].mainRelease)
        else if |releases| > 0 then Some(releases[0])
        else None
  {
    var masters := e.catalog.masters(prompt);
    var releases := e.catalog.releases(prompt);
    if |masters| > 0 {
      assert FirstAdmitted([], MainReleases(masters), 0);
    } else if |releases| > 0 {
      assert FirstAdmitted([], releases, 0);
    }
  }

  // ---------------------------------------------------------------------------------------
  // Searching for a file

  /** The artist loop of `search_with_file`: each name's first artist hit, skipping names without one. */
  function ResolveArtists(e: Engine, names: seq<string>): (r: seq<Artist>)
    ensures |r| <= |names|
    ensures forall k :: 0 <= k < |r| ==> exists j :: 0 <= j < |names| && SearchArtist(e, names[j]) == Some(r[k])
    decreases |names|
  {
    if |names| == 0 then []
    else
      var rest := ResolveArtists(e, names[1..]);
      assert forall j :: 0 <= j < |names[1..]| ==> names[1..][j] == names[j + 1];
      match SearchArtist(e, names[0])
      case Some(a) => [a] + rest
      case None => rest
  }

  /** Resolving names one after another: the artists of a concatenation are those of each part, in order. */
  lemma {:induction false} ResolveArtistsAppend(e: Engine, a: seq<string>, b: seq<string>)
    ensures ResolveArtists(e, a + b) == ResolveArtists(e, a) + ResolveArtists(e, b)
    decreases |a|
  {
    if |a| == 0 {
      assert a + b == b;
    } else {
      assert (a + b)[0] == a[0];
      assert (a + b)[1..] == a[1..] + b;
      ResolveArtistsAppend(e, a[1..], b);
    }
  }

  /** A single name contributes its first artist hit, or nothing when it has none. */
  lemma {:induction false} ResolveArtistsOne(e: Engine, name: string)
    ensures ResolveArtists(e, [name]) == if SearchArtist(e, name).Some? then [SearchArtist(e, name).value] else []
  {
    assert [name][1..] == [];
  }

  /** When every name has an artist hit, the resolved list is the names' first hits, in order. */
  lemma {:induction false} ResolveAllFound(e: Engine, names: seq<string>)
    requires forall j :: 0 <= j < |names| ==> |e.catalog.artists(names[j])| > 0
    ensures |ResolveArtists(e, names)| == |names|
    ensures forall k :: 0 <= k < |names| ==> ResolveArtists(e, names)[k] == e.catalog.artists(names[k])[0]
    decreases |names|
  {
    if |names| > 0 {
      ResolveAllFound(e, names[1..]);
    }
  }

  /** When no name has an artist hit, nothing is resolved and the search will not filter. */
  lemma {:induction false} ResolveNoneFound(e: Engine, names: seq<string>)
    requires forall j :: 0 <= j < |names| ==> |e.catalog.artists(names[j])| == 0
    ensures ResolveArtists(e, names) == []
    decreases |names|
  {
    if |names| > 0 {
      ResolveNoneFound(e, names[1..]);
    }
  }

  /**
   * The prompt of `search_with_file`: the file's stem, unless the album tag is set, in which
   * case the album followed by the raw artist names, each after a space.
   */
  function SearchPrompt(file: Path, tag: TagReader.Tag): string {
    if tag.album == "" then Stem(file)
    else if |tag.artists| == 0 then tag.album
    else tag.album + " " + Join(tag.artists, " ")
  }

  /** The prompt starts with the album when there is one, and is the stem otherwise. */
  lemma SearchPromptShape(file: Path, tag: TagReader.Tag)
    ensures tag.album == "" ==> SearchPrompt(file, tag) == Stem(file)
    ensures tag.album != "" ==> SearchPrompt(file, tag)[..|tag.album|] == tag.album
    ensures tag.album != "" && |tag.artists| == 1 ==> SearchPrompt(file, tag) == tag.album + " " + tag.artists[0]
  {
  }

  /** `clean_up_search_prompt(prompt)`: `" / "`, `"/"`, `" - "` and `"-"` become single spaces, in that order. */
  function CleanUpSearchPrompt(prompt: string): (r: string)
    ensures '/' !in r && '-' !in r
    ensures |r| <= |prompt|
    ensures forall c :: c in r ==> c in prompt || c == ' '
  {
    var a := ReplaceAll(prompt, " / ", " ");
    var b := ReplaceAll(a, "/", " ");
    var c := ReplaceAll(b, " - ", " ");
    var d := ReplaceAll(c, "-", " ");
    ReplaceAllShrinks(prompt, " / ", " ");
    ReplaceAllShrinks(a, "/", " ");
    ReplaceAllShrinks(b, " - ", " ");
    ReplaceAllShrinks(c, "-", " ");
    ReplaceAllRemovesChar(a, '/', " ");
    ReplaceAllRemovesChar(c, '-', " ");
    forall x | x in c ensures x != '/' {
      ReplaceAllChars(b, " - ", " ", x);
    }
    forall x | x in d ensures x != '/' {
      ReplaceAllChars(c, "-", " ", x);
    }
    forall x | x in d ensures x in prompt || x == ' ' {
      ReplaceAllChars(c, "-", " ", x);
      if x in c {
        ReplaceAllChars(b, " - ", " ", x);
        if x in b {
          ReplaceAllChars(a, "/", " ", x);
          if x in a {
            ReplaceAllChars(prompt, " / ", " ", x);
          }
        }
      }
    }
    d
  }

  /** Cleaning a cleaned prompt changes nothing. */
  lemma CleanUpIdempotent(prompt: string)
    ensures CleanUpSearchPrompt(CleanUpSearchPrompt(prompt)) == CleanUpSearchPrompt(prompt)
  {
    var s := CleanUpSearchPrompt(prompt);
    ReplaceAllAbsent(s, " / ", " ", 1);
    ReplaceAllAbsent(s, "/", " ", 0);
    ReplaceAllAbsent(s, " - ", " ", 1);
    ReplaceAllAbsent(s, "-", " ", 0);
  }

  /**
   * `search_with_file(reader)`: searches the cleaned prompt, filtered by the resolved artists;
   * when that finds nothing, searches the raw stem again without any artist filter.
   */
  function SearchWithFile(e: Engine, reader: TagReader.FileTagReader): (r: Option<Release>)
    ensures var prompt := CleanUpSearchPrompt(SearchPrompt(reader.file, reader.tag));
      var artists := ResolveArtists(e, reader.tag.artists);
      && (SearchWithPrompt(e, prompt, artists).Some? ==> r == SearchWithPrompt(e, prompt, artists))
      && (r.Some? ==> Admits(artists, r.value) || r.value in Hits(e, Stem(reader.file)))
      && (r.Some? ==> r.value in Hits(e, prompt) || r.value in Hits(e, Stem(reader.file)))
  {
    var artists := ResolveArtists(e, reader.tag.artists);
    var prompt := CleanUpSearchPrompt(SearchPrompt(reader.file, reader.tag));
    var release := SearchWithPrompt(e, prompt, artists);
    SearchWithPromptHit(e, prompt, artists);
    SearchWithPromptHit(e, Stem(reader.file), []);
    if release.Some? then release
    else SearchWithPrompt(e, Stem(reader.file), [])
  }

  /** When the tagged search finds nothing, the answer is the unfiltered search of the bare stem. */
  lemma SearchWithFileFallback(e: Engine, reader: TagReader.FileTagReader)
    requires SearchWithPrompt(e, CleanUpSearchPrompt(SearchPrompt(reader.file, reader.tag)),
      ResolveArtists(e, reader.tag.artists)).None?
    ensures var masters := e.catalog.masters(Stem(reader.file));
      var releases := e.catalog.releases(Stem(reader.file));
      SearchWithFile(e, reader) ==
        if |masters| > 0 then Some(masters[0].mainRelease)
        else if |releases| > 0 then Some(releases[0])
        else None
  {
    SearchWithoutArtists(e, Stem(reader.file));
  }
}
