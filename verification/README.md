# Local media addon: a verified model

This project models the core of a Stremio addon that serves a local video library. The
library root is `/home/Library/Movies And Series`. The addon does four things:

- **Scans** the library (`scanLocalFiles`). It lists the video files directly in `Movies/`,
  and for every directory in `Series/` it collects the video files found one level inside
  that directory's season directories.
- **Answers catalog requests.** The movie catalog has one meta per movie. The series catalog
  has one meta per series, in `Object.keys` order. Every id is a prefix, a ':', and the
  `encodeURIComponent` of the movie path or the series name.
- **Answers stream requests.** It splits the id at ':' and decodes the payload. It then
  returns the movie's file, or one stream per episode of the series.
- **Caches the index** (`localFiles`). The index is built by the first request that needs it
  and reused by every later request.

The Dafny modules follow that structure:

| module | file | models |
|---|---|---|
| `Wrappers` | wrappers.dfy | Option and Result |
| `Sequences` | sequences.dfy | the first-match search behind the readdir lookup and `Array.prototype.find` |
| `Paths` | paths.dfy | `path.extname`, `path.parse(..).name`, `path.join`, `toLowerCase`, `isVideoFile` |
| `UriCodec` | uri_codec.dfy | `encodeURIComponent` / `decodeURIComponent`, UTF-8 included |
| `JsObject` | js_object.dfy | the plain object used as the series map: assignment, lookup, and the order `Object.keys` reports (array-index keys ascending first, section 10.1.11.1 of ECMA-262) |
| `Library` | library.dfy | the directory tree, `scanLocalFiles` as a specification function `Scan`, and the imperative scan (`ScanLocalFiles` and its loops) proved equal to it |
| `Handlers` | handlers.dfy | the catalog and stream handlers as functions of the index, with their round trips |
| `Addon` | addon.dfy | the class holding the lazily filled `localFiles` cache |

The file system is a value: the listing of the library root, given to each request. A file
is `File`. A directory is `Dir`, holding its own listing. A symbolic link is `Link`, holding
the entry it points to, or nothing when it dangles. Anything else (a socket, a FIFO, a
device) is `Other`. Opening `Movies` or `Series` by path follows links, as `fs.readdir`
does. It fails with ENOENT when the name is missing or a link dangles, and with ENOTDIR when
the name leads to something other than a directory. The loops test entries with the
`Dirent` methods, which do not follow links, so a link inside a listing is skipped like
`Other`.

The Meta and stream objects have a `type` field. It is called `kind` here, because `type`
is a Dafny keyword.

Three behaviours of the code are easy to misread:

- The series catalog is in `Object.keys` order, not plain insertion order. A series whose
  name is an array index, such as "1899" or "24", is listed first, in numeric order
  (`JsObject.ObjectKeysOrder`). The other names follow in the order the `Series/` listing
  gives their directories (`Library.ScanSeriesKeyOrder`).
- An id without ':' is not treated as an unknown prefix. The whole id becomes the content
  type, and the payload becomes the text "undefined". So the id `local-series` asks for the
  series named "undefined" (`Handlers.SeriesIdWithoutColon`).
- The payload is decoded before the prefix is looked at. A malformed escape therefore
  rejects the request whatever its prefix (`Handlers.MalformedPayloadRejected`).

## Model

| member | source | states |
|---|---|---|
| Paths.LastDotFinds | index.js:69 | the dot found is a '.', no '.' follows it, and none is found exactly when the name has no '.' |
| Paths.ExtName | index.js:69 | a non-empty extension is a proper suffix of the name and starts with '.' |
| Paths.ExtNameShape | index.js:69 | an extension is a proper suffix starting with its only '.'; there is none exactly for ".." and for names with no '.' after the first character |
| Paths.Stem | index.js:35 | no contract of its own: the name with its extension cut off; the two rows below state what it gives |
| Paths.StemThenExtension | index.js:35 | the display name followed by the extension is the file name |
| Paths.VideoStem | index.js:35 | a video's display name is its file name without the last four characters |
| Paths.Join | index.js:34 | no contract of its own: the directory, a '/', then the entry name; the row below states that names can be told apart |
| Paths.JoinInjective | index.js:34 | within one directory, different entry names give different paths |
| Paths.ToLower | index.js:69 | no contract of its own: `toLowerCase`, one character for one, on ASCII letters; the row below states that it is idempotent |
| Paths.ToLowerIdempotent | index.js:69 | lower-casing twice is lower-casing once |
| Paths.IsVideoFile | index.js:67-70 | a video file's extension has four characters and its name at least five |
| Paths.IsVideoFileBySuffix | index.js:67-70 | isVideoFile holds exactly when the name is longer than four characters and its last four, lower-cased, are one of the five extensions |
| Paths.IsVideoFileIgnoresCase | index.js:69 | the test gives the same answer for a name and its lower-cased form |
| Paths.BareExtensionRejected | index.js:67-70 | a name that is only an extension (".mp4") is not a video file |
| Paths.NoExtensionRejected | index.js:67-70 | a name with no '.' after its first character is not a video file |
| UriCodec.Encode | index.js:79 | every character becomes one to twelve characters: itself, or up to four three-character escapes |
| UriCodec.EncodeAlphabet | index.js:79 | encoding writes only unreserved characters and '%' |
| UriCodec.EncodeHasNoColon | index.js:87 | an encoded payload never contains the id separator ':' |
| UriCodec.Utf8Shape | index.js:79 | the UTF-8 form of a scalar value is one ASCII byte, or a lead byte of the right length marker followed by continuation bytes that carry the value |
| UriCodec.DecodeEscapeOfUtf8 | index.js:102 | the escapes of one reserved character decode back to it, using up exactly those escapes |
| UriCodec.Decode | index.js:102 | decoding never lengthens a string, and a string without '%' decodes to itself |
| UriCodec.DecodeEncode | index.js:102 | decodeURIComponent inverts encodeURIComponent on every string |
| UriCodec.EncodeInjective | index.js:79 | two different payloads never encode to the same text |
| JsObject.Put | index.js:45 | after `obj[k] = v`, reading k gives v |
| JsObject.Get | index.js:115 | no contract of its own: the value of the first property of that name; the row below states what a lookup finds |
| JsObject.GetFindsKeys | index.js:115 | a lookup misses exactly for names that are not own keys, and a hit is the stored value |
| JsObject.GetPutOther | index.js:45 | an assignment changes no other property |
| JsObject.KeysPut | index.js:45 | an assignment keeps the creation order, and a new key goes last |
| JsObject.PutPut | index.js:55 | assigning a key twice leaves what the second assignment alone leaves |
| JsObject.PutKeepsDistinct | index.js:45 | assignment never creates a second property of the same name |
| JsObject.SplitKeysIsPartition | index.js:86 | splitting keys into array indices and other names loses and adds nothing |
| JsObject.InsertByValueAddsKey | index.js:86 | insertion adds exactly one occurrence of the key |
| JsObject.InsertByValueSorts | index.js:86 | insertion into ascending keys keeps them ascending |
| JsObject.SortByValueSorts | index.js:86 | the index keys are reordered into ascending numeric order, as a permutation |
| JsObject.SortedIndexKeysAreIndices | index.js:86 | sorting the array-index keys leaves only array indices |
| JsObject.ObjectKeys | index.js:86 | Object.keys lists as many names as the object has properties |
| JsObject.ObjectKeysIsPermutation | index.js:86 | Object.keys lists every own key as often as it occurs |
| JsObject.ObjectKeysOrder | index.js:86 | Object.keys lists array-index keys first in ascending order, then the other keys in creation order |
| JsObject.ObjectKeysAreKeys | index.js:86 | a name is listed by Object.keys exactly when it is an own key |
| JsObject.ObjectKeysDistinct | index.js:86 | Object.keys lists no key twice |
| Sequences.FindFirst | index.js:104 | the index found holds the first element that passes the test, and none is found exactly when no element passes |
| Library.FindEntry | index.js:31 | no contract of its own: the first entry of the listing with that name, found by `Sequences.FindFirst` |
| Library.Resolve | index.js:31 | following links ends at an entry that is not a link, or at nothing when a link dangles; an entry that is not a link is itself |
| Library.ReadDir | index.js:31 | readdir, following links, succeeds exactly when the name leads to a directory and gives that directory's listing; a missing name or a dangling link fails with ENOENT; every error carries the path opened |
| Library.Scan | index.js:24-65 | a failing Movies readdir fails the scan first; the scan succeeds exactly when both Movies and Series can be listed |
| Library.VideosIn | index.js:32-37 | no contract of its own: the videos of a listing in listing order; the two rows below state which videos and that their paths differ |
| Library.VideosInMembers | index.js:32-37 | a video is listed exactly when some entry is a regular video file with that display name and path |
| Library.VideosInDistinctPaths | index.js:32-37 | in a listing whose entries have different names, no two videos share a path |
| Library.SeriesEpisodes | index.js:48-59 | no contract of its own: the videos of the season directories, season by season; the row below states which videos |
| Library.SeriesEpisodesMembers | index.js:48-59 | an episode is exactly a video of one of the series' season directories |
| Library.LastSeries | index.js:42-45 | the reference reading of a series entry: the last directory of that name, and nothing when there is none |
| Library.ScanSeries | index.js:42-61 | the series map has at most one property per entry of the Series listing |
| Library.ScanSeriesKeyOrder | index.js:42-45 | the series names are created in the order the Series listing gives its directories, a repeated name keeping its first place |
| Library.ScanSeriesKeys | index.js:42-45 | the series names are exactly the directory names of the Series listing |
| Library.ScanSeriesDistinct | index.js:42-45 | no series name occurs twice in the series map |
| Library.ScanSeriesGet | index.js:42-61 | a series lookup gives the episodes of the last directory of that name, which replaces an earlier one |
| Library.ScanFinds | index.js:24-64 | a successful scan has exactly the Movies video files as movies, exactly the Series directories as series, each once, with the episodes of the last directory of the name |
| Library.AppendEpisode | index.js:55 | pushing onto the series entry is assigning the extended episode list |
| Library.ScanSeasonDirectory | index.js:52-57 | the episode loop appends the season's video files, in listing order, to the series entry and changes nothing else |
| Library.ScanSeriesDirectory | index.js:43-59 | the body for one series directory sets its entry to its seasons' episodes, season by season |
| Library.ScanMovies | index.js:30-37 | the Movies loop yields the listing's video files in listing order |
| Library.ScanSeriesListing | index.js:40-61 | the Series loop yields the series map of the listing |
| Library.ScanLocalFiles | index.js:24-65 | the imperative scan returns exactly what the specification function Scan gives, errors included |
| Handlers.SplitThenJoin | index.js:101 | splitting at ':' loses nothing: joining the pieces gives the id back, and no piece contains ':' |
| Handlers.SplitWithoutSeparator | index.js:101 | an id without ':' is a single piece |
| Handlers.SplitAtFirst | index.js:101 | the first piece is the text before the first ':' |
| Handlers.Split | index.js:101 | there is always a first piece, and it is a prefix of the string |
| Handlers.SplitId | index.js:101-102 | the content type is a prefix of the id |
| Handlers.SplitIdOfBuilt | index.js:101 | an id built from a prefix and a payload, neither containing ':', splits back into the two |
| Handlers.SplitIdDropsRest | index.js:101 | an id with a second ':' has the text between the first and second ':' as its payload, and the rest is dropped |
| Handlers.SplitIdWithoutColon | index.js:101 | an id without ':' is all content type, with the payload "undefined" |
| Handlers.FindMovie | index.js:104 | no contract of its own: the first movie with the path, found by `Sequences.FindFirst` |
| Handlers.MovieMeta | index.js:78-82 | no contract of its own: the meta literal of a movie; `Handlers.MovieCatalogLists` states what the catalog holds |
| Handlers.SeriesMeta | index.js:86-90 | no contract of its own: the meta literal of a series; `Handlers.SeriesCatalogLists` states what the catalog holds |
| Handlers.EpisodeStreams | index.js:117-121 | no contract of its own: one stream literal per episode, titled by its name; `Handlers.SeriesRoundTrip` states what a series id streams |
| Handlers.Catalog | index.js:72-95 | the movie catalog has one meta per movie, and the series catalog one per property of the series map |
| Handlers.Stream | index.js:97-125 | the request is rejected exactly when the payload fails to decode; a movie id gives at most one stream |
| Handlers.MovieCatalogLists | index.js:76-83 | the i-th meta of the movie catalog is the i-th movie's: movie-typed, named after it, with id "local-movie:" and the escaped path, which decodes back to the path |
| Handlers.MovieCatalogStreams | index.js:76-113 | every meta of the movie catalog streams the file of a movie of the index with that name |
| Handlers.SeriesCatalogLists | index.js:84-91 | a meta is listed exactly when it is the meta of a series of the index |
| Handlers.SeriesCatalogOnce | index.js:84-91 | when no series name occurs twice (as after any scan), no meta is listed twice |
| Handlers.OtherCatalogIsEmpty | index.js:92-94 | any other catalog request gets no metas |
| Handlers.CatalogIdsDistinct | index.js:76-91 | different movie paths and different series names give different catalog ids |
| Handlers.MovieRoundTrip | index.js:103-113 | streaming a movie meta's id gives that movie's file |
| Handlers.SeriesRoundTrip | index.js:114-123 | streaming a series meta's id gives one stream per episode of that series |
| Handlers.ScannedSeriesRoundTrip | index.js:114-123 | over a scanned library, a series meta streams the episodes of the last directory of that name |
| Handlers.UnknownMovieHasNoStreams | index.js:103-124 | a movie id whose path no movie has gives no streams |
| Handlers.UnknownSeriesHasNoStreams | index.js:114-122 | a series id that names no series gives an empty stream list, not an error |
| Handlers.OtherPrefixHasNoStreams | index.js:124 | an id with any other prefix gives no streams when its payload decodes |
| Handlers.MalformedPayloadRejected | index.js:102 | a payload that is not a well-formed escape sequence rejects the request, whatever the prefix |
| Handlers.SeriesIdWithoutColon | index.js:101-102 | the id "local-series" alone asks for the series named "undefined" |
| Addon.LocalFilesAddon.constructor | index.js:22 | the cache starts empty |
| Addon.LocalFilesAddon.EnsureIndex | index.js:73-75 | scans only when nothing is cached; a failed scan leaves the cache empty and reports the error; a cached index is kept unchanged |
| Addon.LocalFilesAddon.HandleCatalog | index.js:72-95 | answers from the cached index, or the fresh one; a failed scan rejects the request and caches nothing |
| Addon.LocalFilesAddon.HandleStream | index.js:97-125 | answers from the cached index, or the fresh one; a failed scan or a malformed payload rejects the request |

## Left out

- HTTP serving, the addon SDK and the manifest (lines 1-21 and 127-135) are not modelled. The handlers are modelled as the functions they compute.
- Logging with `console.log` has no effect on results, so it is left out.
- Concurrency is left out. Two requests that arrive before the index exists may both scan, and the later assignment wins. The model handles requests one at a time.
- The file system is a snapshot passed to each request. Permission errors are not modelled. A `readdir` of an entry the listing marks as a directory always succeeds, so a failure inside a series or season directory is not modelled.
- Library.Resolve: follows a chain of links to its end. A cycle of links cannot be written as a value, so the ELOOP error is not modelled.
- Paths.ToLower: maps only ASCII letters. JavaScript's full Unicode lower-casing (for example the Kelvin sign, which lower-cases to 'k') is not modelled, so "x.M" followed by the Kelvin sign and "V" is rejected here but accepted by the source.
- Paths.Join: models `path.join` of a directory and a single entry name only. Names from `readdir` contain no '/', and the directories joined here have no "." or ".." segments, so no normalisation is needed.
- Strings are sequences of Unicode scalar values. JavaScript strings can also hold lone surrogates, for which `encodeURIComponent` throws; those cannot be written here.
- The series map holds only own properties. Inherited `Object.prototype` members are left out: `series["toString"]` and `series["constructor"]` yield functions in the source (so `.map` throws), and assigning `series["__proto__"]` changes the prototype instead of adding a key.
- Handlers.Stream: takes the request type as a parameter but does not consult it, because the source does not.
- JavaScript's non-strict equality and truthiness are not needed. The only truthiness tests are on objects and arrays, which are always truthy.

## Proof notes

Every loop of `scanLocalFiles` is a `for` loop with an invariant of the form "the state so
far is the specification function of the prefix read so far". The specification functions
(`VideosIn`, `SeriesEpisodes` and `ScanSeries`) recurse on the last element for that reason.
`ScanSeasonDirectory` takes the map as it was before the entry was reset, plus the episodes
so far, as ghost parameters. Its postcondition then says the whole new map is the old one
with only that entry changed.
