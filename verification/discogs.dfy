/**
 * The catalog entities the search engine and the tag reader consume, as the Discogs client
 * presents them. Every network fetch is replaced by data: a release's artist list is either
 * fetched or the fetch failed with an HTTP error.
 */
module Discogs {

  /** An artist entry. Two entries denote the same artist when their catalog ids agree. */
  datatype Artist = Artist(id: int, name: string)

  /** The lazily fetched `release.artists`: the list, or the HTTP error its fetch raised. */
  datatype ArtistFetch = Fetched(list: seq<Artist>) | FetchFailed

  datatype Release = Release(
    id: int,
    title: string,
    year: int,
    genres: seq<string>,
    artists: ArtistFetch,
    url: string)

  /** A master release; the program only ever follows it to its main release. */
  datatype Master = Master(id: int, mainRelease: Release)

  /** `artist in artists` for catalog entries, which compare by id. */
  predicate HasArtist(artists: seq<Artist>, a: Artist) {
    exists k :: 0 <= k < |artists| && artists[k].id == a.id
  }

  /** `[artist.name for artist in artists]`. */
  function Names(artists: seq<Artist>): (r: seq<string>)
    ensures |r| == |artists|
    ensures forall k :: 0 <= k < |artists| ==> r[k] == artists[k].name
  {
    seq(|artists|, k requires 0 <= k < |artists| => artists[k].name)
  }
}
