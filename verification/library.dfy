/**
 * The local-library indexer (scanLocalFiles): the movies directly under Movies/ and, for
 * every directory under Series/, the episodes one level inside its season directories.
 *
 * The file system is the listing of the library root: a tree of entries in the order
 * readdir returns them. A directory's listing is the children of its Dir entry.
 */
module Library {
  import opened Wrappers
  import opened Paths
  import opened JsObject
  import opened Sequences

  /**
   * A directory entry as readdir(dir, { withFileTypes: true }) reports it: a regular file,
   * a directory with its own listing, a symbolic link with the entry it points to (None
   * when it dangles), or anything else (a socket, FIFO or device). The Dirent tests do not
   * follow links: isFile() and isDirectory() are false for a link and for anything else.
   */
  datatype Entry =
    | File(name: string)
    | Dir(name: string, children: seq<Entry>)
    | Link(name: string, target: Option<Entry>)
    | Other(name: string)

  /** A movie or an episode: its display name and its absolute path. */
  datatype Video = Video(name: string, path: string)

  /** The series map: series name to its episodes, as a plain object. */
  type SeriesMap = Object<seq<Video>>

  /** The result of a scan: the movies in listing order and the series map. */
  datatype LibraryIndex = LibraryIndex(movies: seq<Video>, series: SeriesMap)

  /** Why readdir failed: ENOENT (nothing by that name) or ENOTDIR (not a directory). */
  datatype ScanError = NoSuchDirectory(path: string) | NotADirectory(path: string)

  /** LOCAL_FILES_DIR, the library root. */
  const LocalFilesDir: string := "/home/Library/Movies And Series"
  const MoviesDir: string := Join(LocalFilesDir, "Movies")
  const SeriesDir: string := Join(LocalFilesDir, "Series")

  /** The first entry of a listing with the given name: the one a path through it names. */
  function FindEntry(entries: seq<Entry>, name: string): Option<Entry>
  {
    match FindFirst(entries, (e: Entry) => e.name == name)
    case Some(i) => Some(entries[i])
    case None => None
  }

  /**
   * What an entry names once symbolic links are followed, as opening a path does: the
   * entry itself when it is not a link, None when a link in the chain dangles.
   */
  function Resolve(e: Entry): (r: Option<Entry>)
    ensures r.Some? ==> !r.value.Link?
    ensures !e.Link? ==> r == Some(e)
  {
    match e
    case Link(_, target) => (match target case None => None case Some(t) => Resolve(t))
    case _ => Some(e)
  }

  /**
   * fs.readdir of the entry `name` of the directory `dir` whose listing is `entries`,
   * following links: the listing of the directory it names; ENOENT when there is no such
   * entry or a link dangles; ENOTDIR when it names something other than a directory.
   */
  function ReadDir(entries: seq<Entry>, dir: string, name: string): (r: Result<seq<Entry>, ScanError>)
    ensures r.Ok? <==> (FindEntry(entries, name).Some? && Resolve(FindEntry(entries, name).value).Some?
      && Resolve(FindEntry(entries, name).value).value.Dir?)
    ensures r.Ok? ==> Resolve(FindEntry(entries, name).value).value.children == r.value
    ensures (FindEntry(entries, name).None? || Resolve(FindEntry(entries, name).value).None?) ==>
      r == Err(NoSuchDirectory(Join(dir, name)))
    ensures r.Err? ==> r.error.path == Join(dir, name)
  {
    match FindEntry(entries, name)
    case None => Err(NoSuchDirectory(Join(dir, name)))
    case Some(e) =>
      match Resolve(e)
      case None => Err(NoSuchDirectory(Join(dir, name)))
      case Some(t) => if t.Dir? then Ok(t.children) else Err(NotADirectory(Join(dir, name)))
  }

  /** Entry e of directory dir yields video v: e is a regular video file named as v says. */
  predicate YieldsVideo(dir: string, e: Entry, v: Video)
  {
    e.File? && IsVideoFile(e.name) && v == Video(Stem(e.name), Join(dir, e.name))
  }

  /** What one entry of a Movies or season listing contributes. */
  function VideoOf(dir: string, e: Entry): (r: seq<Video>)
    ensures |r| <= 1
  {
    if e.File? && IsVideoFile(e.name) then [Video(Stem(e.name), Join(dir, e.name))] else []
  }

  /** The videos of a listing, in listing order (the body of the Movies and episode loops). */
  function VideosIn(dir: string, entries: seq<Entry>): seq<Video>
  {
    if entries == [] then []
    else VideosIn(dir, entries[..|entries| - 1]) + VideoOf(dir, entries[|entries| - 1])
  }

  /** The episodes of one series directory: its season directories' videos, season by season. */
  function SeriesEpisodes(seriesPath: string, seasons: seq<Entry>): seq<Video>
  {
    if seasons == [] then []
    else
      var e := seasons[|seasons| - 1];
      SeriesEpisodes(seriesPath, seasons[..|seasons| - 1])
        + (if e.Dir? then VideosIn(Join(seriesPath, e.name), e.children) else [])
  }

  /** One step of the Series loop: a directory entry (re)defines its series. */
  function SeriesStep(m: SeriesMap, dir: string, e: Entry): SeriesMap
  {
    if e.Dir? then Put(m, e.name, SeriesEpisodes(Join(dir, e.name), e.children)) else m
  }

  /** The series map built from the Series listing. */
  function ScanSeries(dir: string, entries: seq<Entry>): (r: SeriesMap)
    ensures |r| <= |entries|
  {
    if entries == [] then []
    else SeriesStep(ScanSeries(dir, entries[..|entries| - 1]), dir, entries[|entries| - 1])
  }

  /**
   * scanLocalFiles as a function of the root listing: fails as the first failing readdir
   * (Movies before Series) fails.
   */
  function Scan(root: seq<Entry>): (r: Result<LibraryIndex, ScanError>)
    ensures ReadDir(root, LocalFilesDir, "Movies").Err? ==>
      r == Err(ReadDir(root, LocalFilesDir, "Movies").error)
    ensures r.Ok? <==> ReadDir(root, LocalFilesDir, "Movies").Ok? && ReadDir(root, LocalFilesDir, "Series").Ok?
  {
    match ReadDir(root, LocalFilesDir, "Movies")
    case Err(e) => Err(e)
    case Ok(movieEntries) =>
      match ReadDir(root, LocalFilesDir, "Series")
      case Err(e) => Err(e)
      case Ok(seriesEntries) =>
        Ok(LibraryIndex(VideosIn(MoviesDir, movieEntries), ScanSeries(SeriesDir, seriesEntries)))
  }

  /** One entry contributes a video exactly when it yields it. */
  lemma VideoOfMembers(dir: string, e: Entry, v: Video)
    ensures v in VideoOf(dir, e) <==> YieldsVideo(dir, e, v)
  {
  }

  /** A video is listed exactly when some entry of the listing yields it. */
  lemma {:induction false} VideosInMembers(dir: string, entries: seq<Entry>, v: Video)
    ensures v in VideosIn(dir, entries) <==>
      exists i :: 0 <= i < |entries| && YieldsVideo(dir, entries[i], v)
  {
    if entries != [] {
      var n := |entries|;
      var init := entries[..n - 1];
      var last := entries[n - 1];
      VideosInMembers(dir, init, v);
      VideoOfMembers(dir, last, v);
      assert VideosIn(dir, entries) == VideosIn(dir, init) + VideoOf(dir, last);
      assert forall i :: 0 <= i < n - 1 ==> init[i] == entries[i];
      if v in VideosIn(dir, init) {
        var i :| 0 <= i < n - 1 && YieldsVideo(dir, init[i], v);
        assert YieldsVideo(dir, entries[i], v);
      }
      if exists i :: 0 <= i < n && YieldsVideo(dir, entries[i], v) {
        var i :| 0 <= i < n && YieldsVideo(dir, entries[i], v);
        if i < n - 1 {
          assert YieldsVideo(dir, init[i], v);
        }
      }
    }
  }

  /** In a directory whose entries have different names, different videos have different paths. */
  lemma {:induction false} VideosInDistinctPaths(dir: string, entries: seq<Entry>)
    requires forall i, j :: 0 <= i < j < |entries| ==> entries[i].name != entries[j].name
    ensures forall i, j :: 0 <= i < j < |VideosIn(dir, entries)| ==>
      VideosIn(dir, entries)[i].path != VideosIn(dir, entries)[j].path
  {
    if entries != [] {
      var n := |entries|;
      var init := entries[..n - 1];
      var last := entries[n - 1];
      var before := VideosIn(dir, init);
      var vs := VideosIn(dir, entries);
      assert forall i :: 0 <= i < n - 1 ==> init[i] == entries[i];
      VideosInDistinctPaths(dir, init);
      forall i, j | 0 <= i < j < |vs| ensures vs[i].path != vs[j].path {
        assert vs == before + VideoOf(dir, last);
        if j >= |before| {
          assert vs[j] == VideoOf(dir, last)[0] == Video(Stem(last.name), Join(dir, last.name));
          assert vs[i] == before[i];
          VideosInMembers(dir, init, vs[i]);
          var k :| 0 <= k < n - 1 && YieldsVideo(dir, init[k], vs[i]);
          assert vs[i].path == Join(dir, init[k].name);
          assert init[k].name != last.name;
          if vs[i].path == vs[j].path {
            JoinInjective(dir, init[k].name, last.name);
            assert false;
          }
        } else {
          assert vs[i] == before[i] && vs[j] == before[j];
          assert before[i].path != before[j].path;
        }
      }
    }
  }

  /**
   * An episode of a series is exactly a video of one of its season directories, found in
   * that season's directory.
   */
  lemma {:induction false} SeriesEpisodesMembers(seriesPath: string, seasons: seq<Entry>, v: Video)
    ensures v in SeriesEpisodes(seriesPath, seasons) <==>
      exists i :: (0 <= i < |seasons| && seasons[i].Dir?
        && v in VideosIn(Join(seriesPath, seasons[i].name), seasons[i].children))
  {
    if seasons != [] {
      var n := |seasons|;
      var init := seasons[..n - 1];
      var e := seasons[n - 1];
      SeriesEpisodesMembers(seriesPath, init, v);
      assert forall i :: 0 <= i < n - 1 ==> init[i] == seasons[i];
      if v in SeriesEpisodes(seriesPath, seasons) && v !in SeriesEpisodes(seriesPath, init) {
        assert e.Dir? && v in VideosIn(Join(seriesPath, e.name), e.children);
      }
      if exists i :: (0 <= i < n && seasons[i].Dir?
        && v in VideosIn(Join(seriesPath, seasons[i].name), seasons[i].children)) {
        var i :| 0 <= i < n && seasons[i].Dir?
          && v in VideosIn(Join(seriesPath, seasons[i].name), seasons[i].children);
        if i < n - 1 {
          assert init[i] == seasons[i];
        }
      }
    }
  }

  /** The entry a series name refers to: the last directory of that name in the listing. */
  function LastSeries(dir: string, entries: seq<Entry>, name: string): (r: Option<seq<Video>>)
    ensures r.None? <==> forall i :: 0 <= i < |entries| ==> !(entries[i].Dir? && entries[i].name == name)
    ensures r.Some? ==> exists i :: (0 <= i < |entries| && entries[i].Dir? && entries[i].name == name
      && r.value == SeriesEpisodes(Join(dir, name), entries[i].children)
      && forall j :: i < j < |entries| ==> !(entries[j].Dir? && entries[j].name == name))
  {
    if entries == [] then None
    else
      var n := |entries|;
      var e := entries[n - 1];
      if e.Dir? && e.name == name then Some(SeriesEpisodes(Join(dir, name), e.children))
      else
        var r := LastSeries(dir, entries[..n - 1], name);
        assert forall i :: 0 <= i < n - 1 ==> entries[..n - 1][i] == entries[i];
        r
  }

  /**
   * The names of the directories of a listing, in listing order, each where it first
   * occurs.
   */
  function DirNames(es: seq<Entry>): seq<string>
  {
    if es == [] then []
    else
      var init := DirNames(es[..|es| - 1]);
      var e := es[|es| - 1];
      if e.Dir? && e.name !in init then init + [e.name] else init
  }

  /**
   * The series map's keys are created in the order the Series listing gives its
   * directories: a name assigned again keeps the place of its first assignment.
   */
  lemma {:induction false} ScanSeriesKeyOrder(dir: string, es: seq<Entry>)
    ensures Keys(ScanSeries(dir, es)) == DirNames(es)
  {
    if es != [] {
      var init := es[..|es| - 1];
      var e := es[|es| - 1];
      ScanSeriesKeyOrder(dir, init);
      if e.Dir? {
        KeysPut(ScanSeries(dir, init), e.name, SeriesEpisodes(Join(dir, e.name), e.children));
      }
    }
  }

  /** The series names are exactly the names of the directories of the Series listing. */
  lemma {:induction false} ScanSeriesKeys(dir: string, entries: seq<Entry>, name: string)
    ensures name in Keys(ScanSeries(dir, entries)) <==>
      exists i :: 0 <= i < |entries| && entries[i].Dir? && entries[i].name == name
  {
    if entries != [] {
      var n := |entries|;
      var init := entries[..n - 1];
      var e := entries[n - 1];
      var m := ScanSeries(dir, init);
      ScanSeriesKeys(dir, init, name);
      assert forall i :: 0 <= i < n - 1 ==> init[i] == entries[i];
      if e.Dir? {
        KeysPut(m, e.name, SeriesEpisodes(Join(dir, e.name), e.children));
      }
      if exists i :: 0 <= i < n && entries[i].Dir? && entries[i].name == name {
        var i :| 0 <= i < n && entries[i].Dir? && entries[i].name == name;
        if i < n - 1 {
          assert init[i].Dir? && init[i].name == name;
        }
      }
    }
  }

  /** No series name occurs twice in the series map. */
  lemma {:induction false} ScanSeriesDistinct(dir: string, entries: seq<Entry>)
    ensures DistinctKeys(ScanSeries(dir, entries))
  {
    if entries != [] {
      var n := |entries|;
      var e := entries[n - 1];
      ScanSeriesDistinct(dir, entries[..n - 1]);
      if e.Dir? {
        PutKeepsDistinct(ScanSeries(dir, entries[..n - 1]), e.name,
          SeriesEpisodes(Join(dir, e.name), e.children));
      }
    }
  }

  /**
   * Looking a series up gives the episodes of the last directory of that name: a later
   * directory of the same name replaces what an earlier one stored.
   */
  lemma {:induction false} ScanSeriesGet(dir: string, entries: seq<Entry>, name: string)
    ensures Get(ScanSeries(dir, entries), name) == LastSeries(dir, entries, name)
  {
    if entries != [] {
      var n := |entries|;
      var e := entries[n - 1];
      ScanSeriesGet(dir, entries[..n - 1], name);
      if e.Dir? && e.name != name {
        GetPutOther(ScanSeries(dir, entries[..n - 1]), e.name,
          SeriesEpisodes(Join(dir, e.name), e.children), name);
      }
    }
  }

  /**
   * What a successful scan finds: the movies are exactly the video files of Movies/, the
   * series are exactly the directories of Series/, each once, and a series' episodes are
   * those of the last directory of its name.
   */
  lemma ScanFinds(root: seq<Entry>, v: Video, name: string)
    requires Scan(root).Ok?
    ensures var movieEntries := ReadDir(root, LocalFilesDir, "Movies").value;
      v in Scan(root).value.movies <==>
        exists i :: 0 <= i < |movieEntries| && YieldsVideo(MoviesDir, movieEntries[i], v)
    ensures var seriesEntries := ReadDir(root, LocalFilesDir, "Series").value;
      && DistinctKeys(Scan(root).value.series)
      && (name in Keys(Scan(root).value.series) <==>
        exists i :: 0 <= i < |seriesEntries| && seriesEntries[i].Dir? && seriesEntries[i].name == name)
      && Get(Scan(root).value.series, name) == LastSeries(SeriesDir, seriesEntries, name)
  {
    var movieEntries := ReadDir(root, LocalFilesDir, "Movies").value;
    var seriesEntries := ReadDir(root, LocalFilesDir, "Series").value;
    VideosInMembers(MoviesDir, movieEntries, v);
    ScanSeriesDistinct(SeriesDir, seriesEntries);
    ScanSeriesKeys(SeriesDir, seriesEntries, name);
    ScanSeriesGet(SeriesDir, seriesEntries, name);
  }

  /** `series[name].push(v)` on a map whose entry for name was last set to episodes. */
  lemma AppendEpisode(before: SeriesMap, name: string, episodes: seq<Video>, v: Video)
    ensures Get(Put(before, name, episodes), name) == Some(episodes)
    ensures Put(Put(before, name, episodes), name, episodes + [v]) == Put(before, name, episodes + [v])
  {
    PutPut(before, name, episodes, episodes + [v]);
  }

  /**
   * The episode loop for one season directory: every video file is pushed onto
   * `series[seriesName]`, whose episodes so far are `soFar`.
   */
  method ScanSeasonDirectory(series0: SeriesMap, ghost base: SeriesMap, seriesName: string,
                             ghost soFar: seq<Video>, episodeDir: string, episodeEntries: seq<Entry>)
    returns (series: SeriesMap)
    requires series0 == Put(base, seriesName, soFar)
    ensures series == Put(base, seriesName, soFar + VideosIn(episodeDir, episodeEntries))
  {
    series := series0;
    ghost var episodesSoFar := soFar;
    for k := 0 to |episodeEntries|
      invariant series == Put(base, seriesName, episodesSoFar)
      invariant episodesSoFar == soFar + VideosIn(episodeDir, episodeEntries[..k])
    {
      var episodeEntry := episodeEntries[k];
      assert episodeEntries[..k + 1][..k] == episodeEntries[..k];
      assert VideosIn(episodeDir, episodeEntries[..k + 1])
        == VideosIn(episodeDir, episodeEntries[..k]) + VideoOf(episodeDir, episodeEntry);
      if episodeEntry.File? && IsVideoFile(episodeEntry.name) {
        var fullPath := Join(episodeDir, episodeEntry.name);
        var episode := Video(Stem(episodeEntry.name), fullPath);
        AppendEpisode(base, seriesName, episodesSoFar, episode);
        var episodes := Get(series, seriesName).value;
        series := Put(series, seriesName, episodes + [episode]);
        episodesSoFar := episodesSoFar + [episode];
      }
    }
    assert episodeEntries[..|episodeEntries|] == episodeEntries;
  }

  /**
   * The body of the Series loop for one series directory: `series[seriesName] = []`, then
   * the season loop.
   */
  method ScanSeriesDirectory(series0: SeriesMap, seriesName: string, seasonEntries: seq<Entry>)
    returns (series: SeriesMap)
    ensures series == Put(series0, seriesName, SeriesEpisodes(Join(SeriesDir, seriesName), seasonEntries))
  {
    ghost var episodesSoFar: seq<Video> := [];
    series := Put(series0, seriesName, []);
    var seasonDir := Join(SeriesDir, seriesName);
    for j := 0 to |seasonEntries|
      invariant series == Put(series0, seriesName, episodesSoFar)
      invariant episodesSoFar == SeriesEpisodes(seasonDir, seasonEntries[..j])
    {
      var seasonEntry := seasonEntries[j];
      assert seasonEntries[..j + 1][..j] == seasonEntries[..j];
      if seasonEntry.Dir? {
        var episodeDir := Join(seasonDir, seasonEntry.name);
        series := ScanSeasonDirectory(series, series0, seriesName, episodesSoFar, episodeDir, seasonEntry.children);
        episodesSoFar := episodesSoFar + VideosIn(episodeDir, seasonEntry.children);
      }
    }
    assert seasonEntries[..|seasonEntries|] == seasonEntries;
  }

  /** The Movies loop: every video file of the listing, in listing order. */
  method ScanMovies(movieEntries: seq<Entry>) returns (movies: seq<Video>)
    ensures movies == VideosIn(MoviesDir, movieEntries)
  {
    movies := [];
    for i := 0 to |movieEntries|
      invariant movies == VideosIn(MoviesDir, movieEntries[..i])
    {
      var entry := movieEntries[i];
      assert movieEntries[..i + 1][..i] == movieEntries[..i];
      if entry.File? && IsVideoFile(entry.name) {
        var fullPath := Join(MoviesDir, entry.name);
        movies := movies + [Video(Stem(entry.name), fullPath)];
      }
    }
    assert movieEntries[..|movieEntries|] == movieEntries;
  }

  /** The Series loop: every directory of the listing (re)defines its series. */
  method ScanSeriesListing(seriesEntries: seq<Entry>) returns (series: SeriesMap)
    ensures series == ScanSeries(SeriesDir, seriesEntries)
  {
    series := [];
    for i := 0 to |seriesEntries|
      invariant series == ScanSeries(SeriesDir, seriesEntries[..i])
    {
      var seriesEntry := seriesEntries[i];
      assert seriesEntries[..i + 1][..i] == seriesEntries[..i];
      if seriesEntry.Dir? {
        var seriesName := seriesEntry.name;
        series := ScanSeriesDirectory(series, seriesName, seriesEntry.children);
      }
    }
    assert seriesEntries[..|seriesEntries|] == seriesEntries;
  }

  /** scanLocalFiles: read Movies/, scan it, read Series/, scan it; a failed readdir throws. */
  method ScanLocalFiles(root: seq<Entry>) returns (r: Result<LibraryIndex, ScanError>)
    ensures r == Scan(root)
  {
    var movieListing := ReadDir(root, LocalFilesDir, "Movies");
    if movieListing.Err? {
      return Err(movieListing.error);
    }
    var movies := ScanMovies(movieListing.value);
    var seriesListing := ReadDir(root, LocalFilesDir, "Series");
    if seriesListing.Err? {
      return Err(seriesListing.error);
    }
    var series := ScanSeriesListing(seriesListing.value);
    r := Ok(LibraryIndex(movies, series));
  }
}
