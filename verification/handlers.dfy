/**
 * The catalog and stream handlers of the addon, as functions of the library index they
 * read. A catalog lists a meta per movie, with id "local-movie:" + encodeURIComponent(path),
 * or a meta per series, with id "local-series:" + encodeURIComponent(name). The stream
 * handler splits the id at ':', decodes the payload and answers from the index.
 *
 * The `type` field of a meta or a stream is called `kind` here, `type` being a Dafny keyword.
 */
module Handlers {
  import opened Wrappers
  import opened Paths
  import opened UriCodec
  import opened JsObject
  import opened Library
  import opened Sequences

  /** A catalog entry: { id, type, name }. */
  datatype Meta = Meta(id: string, kind: string, name: string)

  /** A stream: { title, url, type }. */
  datatype StreamItem = StreamItem(title: string, url: string, kind: string)

  /** decodeURIComponent threw a URIError: the handler's promise is rejected. */
  datatype UriError = UriError

  const MovieType: string := "movie"
  const SeriesType: string := "series"
  const MovieCatalogId: string := "local-movies"
  const SeriesCatalogId: string := "local-series"
  const MoviePrefix: string := "local-movie"
  const SeriesPrefix: string := "local-series"

  /** String.prototype.split with a one-character separator: the pieces between separators. */
  function Split(s: string, sep: char): (r: seq<string>)
    ensures |r| >= 1
    ensures |r[0]| <= |s| && r[0] == s[..|r[0]|]
  {
    if s == [] then [""]
    else
      var rest := Split(s[1..], sep);
      if s[0] == sep then [""] + rest else [[s[0]] + rest[0]] + rest[1..]
  }

  /** Array.prototype.join with a one-character separator: the inverse of Split. */
  function JoinWith(parts: seq<string>, sep: char): string
    requires |parts| >= 1
  {
    if |parts| == 1 then parts[0] else parts[0] + [sep] + JoinWith(parts[1..], sep)
  }

  /** Splitting loses nothing: joining the pieces again gives the string, and no piece holds the separator. */
  lemma {:induction false} SplitThenJoin(s: string, sep: char)
    ensures JoinWith(Split(s, sep), sep) == s
    ensures forall i :: 0 <= i < |Split(s, sep)| ==> sep !in Split(s, sep)[i]
  {
    if s != [] {
      var rest := Split(s[1..], sep);
      SplitThenJoin(s[1..], sep);
      var r := Split(s, sep);
      if s[0] == sep {
        assert r[1..] == rest;
        assert forall i :: 1 <= i < |r| ==> r[i] == rest[i - 1];
      } else {
        assert r[1..] == rest[1..];
        assert forall i :: 1 <= i < |r| ==> r[i] == rest[i];
        if |rest| > 1 {
          assert rest[1..][1..] == rest[2..];
          assert JoinWith(rest, sep) == rest[0] + [sep] + JoinWith(rest[1..], sep);
        }
        assert s == [s[0]] + s[1..];
      }
    }
  }

  /** A string without the separator is one piece. */
  lemma {:induction false} SplitWithoutSeparator(s: string, sep: char)
    requires sep !in s
    ensures Split(s, sep) == [s]
  {
    if s != [] {
      SplitWithoutSeparator(s[1..], sep);
      assert s == [s[0]] + s[1..];
    }
  }

  /** Splitting at a first separator gives the text before it, then the pieces of the rest. */
  lemma {:induction false} SplitAtFirst(a: string, sep: char, b: string)
    requires sep !in a
    ensures Split(a + [sep] + b, sep) == [a] + Split(b, sep)
  {
    if a == [] {
      assert a + [sep] + b == [sep] + b;
      assert ([sep] + b)[1..] == b;
    } else {
      var s := a + [sep] + b;
      assert s[0] == a[0] && s[1..] == a[1..] + [sep] + b;
      SplitAtFirst(a[1..], sep, b);
      assert [a[0]] + a[1..] == a;
    }
  }

  /**
   * `const [contentType, path] = id.split(':')`, then the argument decodeURIComponent
   * receives: the second piece, or "undefined" (the string form of a missing element)
   * when the id has no ':'. Pieces after the second are dropped.
   */
  function SplitId(id: string): (r: (string, string))
    ensures |r.0| <= |id| && r.0 == id[..|r.0|]
  {
    var parts := Split(id, ':');
    (parts[0], if |parts| >= 2 then parts[1] else "undefined")
  }

  /** An id built as prefix ':' payload splits back into the two, whenever neither holds ':'. */
  lemma SplitIdOfBuilt(prefix: string, payload: string)
    requires ':' !in prefix && ':' !in payload
    ensures SplitId(prefix + ":" + payload) == (prefix, payload)
  {
    SplitAtFirst(prefix, ':', payload);
    SplitWithoutSeparator(payload, ':');
  }

  /**
   * Only the first two pieces are kept: an id with a second ':' has the text between the
   * first and the second as its payload, and the rest is dropped.
   */
  lemma SplitIdDropsRest(prefix: string, payload: string, rest: string)
    requires ':' !in prefix && ':' !in payload
    ensures SplitId(prefix + ":" + payload + ":" + rest) == (prefix, payload)
  {
    assert prefix + ":" + payload + ":" + rest == prefix + [':'] + (payload + [':'] + rest);
    SplitAtFirst(prefix, ':', payload + [':'] + rest);
    SplitAtFirst(payload, ':', rest);
  }

  /** An id without ':' is all content type, and the payload is the text "undefined". */
  lemma SplitIdWithoutColon(id: string)
    requires ':' !in id
    ensures SplitId(id) == (id, "undefined")
  {
    SplitWithoutSeparator(id, ':');
  }

  /** The catalog entry of a movie. */
  function MovieMeta(v: Video): Meta
  {
    Meta(MoviePrefix + ":" + Encode(v.path), MovieType, v.name)
  }

  /** The catalog entry of a series. */
  function SeriesMeta(name: string): Meta
  {
    Meta(SeriesPrefix + ":" + Encode(name), SeriesType, name)
  }

  /**
   * The catalog handler: the movie catalog lists the movies in scan order, the series
   * catalog lists the series in Object.keys order, and any other request gets no metas.
   */
  function Catalog(index: LibraryIndex, kind: string, id: string): (r: seq<Meta>)
    ensures kind == MovieType && id == MovieCatalogId ==> |r| == |index.movies|
    ensures kind == SeriesType && id == SeriesCatalogId ==> |r| == |index.series|
  {
    if kind == MovieType && id == MovieCatalogId then
      seq(|index.movies|, i requires 0 <= i < |index.movies| => MovieMeta(index.movies[i]))
    else if kind == SeriesType && id == SeriesCatalogId then
      var names := ObjectKeys(index.series);
      seq(|names|, i requires 0 <= i < |names| => SeriesMeta(names[i]))
    else []
  }

  /** The first movie whose path is the given one (Array.prototype.find). */
  function FindMovie(movies: seq<Video>, path: string): Option<Video>
  {
    match FindFirst(movies, (m: Video) => m.path == path)
    case Some(i) => Some(movies[i])
    case None => None
  }

  /** The streams of a list of episodes, one per episode, titled by its name. */
  function EpisodeStreams(episodes: seq<Video>): seq<StreamItem>
  {
    seq(|episodes|, i requires 0 <= i < |episodes| => StreamItem(episodes[i].name, "file://" + episodes[i].path, "file"))
  }

  /**
   * The stream handler. The payload is decoded before the content type is looked at, so a
   * malformed escape rejects the request whatever its prefix. A movie id gives the movie's
   * file when some movie has the decoded path; a series id gives one stream per episode of
   * `series[decoded]`, or none when there is no such series; anything else gives none.
   * The request's type is not consulted.
   */
  function Stream(index: LibraryIndex, kind: string, id: string): (r: Result<seq<StreamItem>, UriError>)
    ensures r.Err? <==> Decode(SplitId(id).1).None?
    ensures r.Ok? && SplitId(id).0 == MoviePrefix ==> |r.value| <= 1
  {
    var (contentType, payload) := SplitId(id);
    match Decode(payload)
    case None => Err(UriError)
    case Some(decoded) =>
      if contentType == MoviePrefix then
        match FindMovie(index.movies, decoded)
        case Some(movie) => Ok([StreamItem("Local file", "file://" + movie.path, "file")])
        case None => Ok([])
      else if contentType == SeriesPrefix then
        var episodes := match Get(index.series, decoded) case Some(e) => e case None => [];
        Ok(EpisodeStreams(episodes))
      else Ok([])
  }

  /**
   * The movie catalog has one meta per movie, in scan order: the i-th is the i-th movie's
   * meta, whose id is "local-movie:" followed by the escaped path, which decodes back to it.
   */
  lemma MovieCatalogLists(index: LibraryIndex)
    ensures |Catalog(index, MovieType, MovieCatalogId)| == |index.movies|
    ensures forall i :: 0 <= i < |index.movies| ==>
      Catalog(index, MovieType, MovieCatalogId)[i] == MovieMeta(index.movies[i])
    ensures forall i :: 0 <= i < |index.movies| ==>
      Catalog(index, MovieType, MovieCatalogId)[i].id == MoviePrefix + ":" + Encode(index.movies[i].path)
    ensures forall i :: 0 <= i < |index.movies| ==>
      && Catalog(index, MovieType, MovieCatalogId)[i].kind == MovieType
      && Catalog(index, MovieType, MovieCatalogId)[i].name == index.movies[i].name
      && Decode(Catalog(index, MovieType, MovieCatalogId)[i].id[|MoviePrefix| + 1..]) == Some(index.movies[i].path)
  {
    var r := Catalog(index, MovieType, MovieCatalogId);
    forall i | 0 <= i < |index.movies|
      ensures Decode(r[i].id[|MoviePrefix| + 1..]) == Some(index.movies[i].path)
    {
      assert r[i].id[|MoviePrefix| + 1..] == Encode(index.movies[i].path);
      DecodeEncode(index.movies[i].path);
    }
  }

  /** The series catalog lists exactly the series of the index, each named after its series. */
  lemma SeriesCatalogLists(index: LibraryIndex, m: Meta)
    ensures m in Catalog(index, SeriesType, SeriesCatalogId) <==>
      exists name :: name in Keys(index.series) && m == SeriesMeta(name)
  {
    var names := ObjectKeys(index.series);
    var r := Catalog(index, SeriesType, SeriesCatalogId);
    if m in r {
      var i :| 0 <= i < |r| && r[i] == m;
      ObjectKeysAreKeys(index.series, names[i]);
    }
    if exists name :: name in Keys(index.series) && m == SeriesMeta(name) {
      var name :| name in Keys(index.series) && m == SeriesMeta(name);
      ObjectKeysAreKeys(index.series, name);
      var i :| 0 <= i < |names| && names[i] == name;
      assert r[i] == m;
    }
  }

  /** When no series name occurs twice, the series catalog lists no meta twice. */
  lemma SeriesCatalogOnce(index: LibraryIndex)
    requires DistinctKeys(index.series)
    ensures var r := Catalog(index, SeriesType, SeriesCatalogId);
      forall i, j :: 0 <= i < j < |r| ==> r[i] != r[j]
  {
    var names := ObjectKeys(index.series);
    var r := Catalog(index, SeriesType, SeriesCatalogId);
    ObjectKeysDistinct(index.series);
    forall i, j | 0 <= i < j < |r| ensures r[i] != r[j] {
      assert r[i].name == names[i] && r[j].name == names[j];
    }
  }

  /** Any other catalog request is answered with no metas. */
  lemma OtherCatalogIsEmpty(index: LibraryIndex, kind: string, id: string)
    requires !(kind == MovieType && id == MovieCatalogId) && !(kind == SeriesType && id == SeriesCatalogId)
    ensures Catalog(index, kind, id) == []
  {
  }

  /**
   * Different movie paths and different series names give different catalog ids, so a
   * client can tell every entry of a catalog apart.
   */
  lemma CatalogIdsDistinct(index: LibraryIndex, kind: string, id: string)
    requires forall i, j :: 0 <= i < j < |index.movies| ==> index.movies[i].path != index.movies[j].path
    requires DistinctKeys(index.series)
    ensures var r := Catalog(index, kind, id);
      forall i, j :: 0 <= i < j < |r| ==> r[i].id != r[j].id
  {
    var r := Catalog(index, kind, id);
    if kind == SeriesType && id == SeriesCatalogId {
      ObjectKeysDistinct(index.series);
    }
    forall i, j | 0 <= i < j < |r| ensures r[i].id != r[j].id {
      if r[i].id == r[j].id {
        var p := if kind == MovieType && id == MovieCatalogId then MoviePrefix else SeriesPrefix;
        assert r[i].id[|p| + 1..] == r[j].id[|p| + 1..];
        if kind == MovieType && id == MovieCatalogId {
          EncodeInjective(index.movies[i].path, index.movies[j].path);
        } else {
          EncodeInjective(ObjectKeys(index.series)[i], ObjectKeys(index.series)[j]);
        }
      }
    }
  }

  /** Asking for the stream of a movie meta gives that movie's file. */
  lemma MovieRoundTrip(index: LibraryIndex, kind: string, v: Video)
    requires v in index.movies
    ensures Stream(index, kind, MovieMeta(v).id) == Ok([StreamItem("Local file", "file://" + v.path, "file")])
  {
    EncodeHasNoColon(v.path);
    SplitIdOfBuilt(MoviePrefix, Encode(v.path));
    DecodeEncode(v.path);
    assert FindMovie(index.movies, v.path).Some?;
  }

  /** Every meta of the movie catalog streams the file of a movie of the index with its name. */
  lemma MovieCatalogStreams(index: LibraryIndex, kind: string, m: Meta)
    requires m in Catalog(index, MovieType, MovieCatalogId)
    ensures exists v :: (v in index.movies && m.name == v.name
      && Stream(index, kind, m.id) == Ok([StreamItem("Local file", "file://" + v.path, "file")]))
  {
    var r := Catalog(index, MovieType, MovieCatalogId);
    var i :| 0 <= i < |r| && r[i] == m;
    MovieRoundTrip(index, kind, index.movies[i]);
  }

  /** Asking for the streams of a series meta gives one stream per episode of that series. */
  lemma SeriesRoundTrip(index: LibraryIndex, kind: string, name: string)
    requires name in Keys(index.series)
    ensures Get(index.series, name).Some?
    ensures Stream(index, kind, SeriesMeta(name).id) == Ok(EpisodeStreams(Get(index.series, name).value))
  {
    GetFindsKeys(index.series, name);
    EncodeHasNoColon(name);
    SplitIdOfBuilt(SeriesPrefix, Encode(name));
    DecodeEncode(name);
  }

  /** A movie id that names no movie of the index gives no streams. */
  lemma UnknownMovieHasNoStreams(index: LibraryIndex, kind: string, path: string)
    requires forall i :: 0 <= i < |index.movies| ==> index.movies[i].path != path
    ensures Stream(index, kind, MoviePrefix + ":" + Encode(path)) == Ok([])
  {
    EncodeHasNoColon(path);
    SplitIdOfBuilt(MoviePrefix, Encode(path));
    DecodeEncode(path);
  }

  /** A series id that names no series of the index gives no streams, and no error. */
  lemma UnknownSeriesHasNoStreams(index: LibraryIndex, kind: string, name: string)
    requires name !in Keys(index.series)
    ensures Stream(index, kind, SeriesPrefix + ":" + Encode(name)) == Ok([])
  {
    GetFindsKeys(index.series, name);
    EncodeHasNoColon(name);
    SplitIdOfBuilt(SeriesPrefix, Encode(name));
    DecodeEncode(name);
    assert EpisodeStreams([]) == [];
  }

  /** An id with another prefix gives no streams when its payload decodes. */
  lemma OtherPrefixHasNoStreams(index: LibraryIndex, kind: string, id: string)
    requires SplitId(id).0 != MoviePrefix && SplitId(id).0 != SeriesPrefix
    requires Decode(SplitId(id).1).Some?
    ensures Stream(index, kind, id) == Ok([])
  {
  }

  /** A payload that is not a well-formed escape sequence rejects the request, whatever the prefix. */
  lemma MalformedPayloadRejected(index: LibraryIndex, kind: string, prefix: string, payload: string)
    requires ':' !in prefix && ':' !in payload
    requires Decode(payload).None?
    ensures Stream(index, kind, prefix + ":" + payload) == Err(UriError)
  {
    SplitIdOfBuilt(prefix, payload);
  }

  /** The text "undefined" holds neither ':' nor '%', and "local-series" holds no ':'. */
  lemma UndefinedIsPlain()
    ensures ':' !in SeriesPrefix
    ensures forall i :: 0 <= i < |"undefined"| ==> "undefined"[i] != '%'
  {
  }

  /**
   * An id without ':' has the text "undefined" as its payload: "local-series" alone asks
   * for the series named "undefined".
   */
  lemma SeriesIdWithoutColon(index: LibraryIndex, kind: string)
    ensures Stream(index, kind, SeriesPrefix) ==
      Ok(EpisodeStreams(match Get(index.series, "undefined") case Some(e) => e case None => []))
  {
    UndefinedIsPlain();
    SplitIdWithoutColon(SeriesPrefix);
    assert Decode("undefined") == Some("undefined");
  }

  /**
   * Over a scanned library: streaming a series meta gives the episodes of the last
   * directory of that name under Series/, season by season.
   */
  lemma ScannedSeriesRoundTrip(root: seq<Entry>, kind: string, name: string)
    requires Scan(root).Ok?
    requires name in Keys(Scan(root).value.series)
    ensures var seriesEntries := ReadDir(root, LocalFilesDir, "Series").value;
      && LastSeries(SeriesDir, seriesEntries, name).Some?
      && Stream(Scan(root).value, kind, SeriesMeta(name).id) ==
        Ok(EpisodeStreams(LastSeries(SeriesDir, seriesEntries, name).value))
  {
    ScanFinds(root, Video("", ""), name);
    SeriesRoundTrip(Scan(root).value, kind, name);
  }
}
