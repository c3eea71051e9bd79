/**
 * The addon's one piece of state, `localFiles`: null until a handler first runs, then the
 * index the first successful scan produced, which every later request reuses.
 *
 * The file system is passed to each request as the listing of the library root at that
 * moment; once the index is cached, later listings are not read again.
 */
module Addon {
  import opened Wrappers
  import opened Library
  import opened Handlers

  /** Why a handler's promise is rejected: the scan threw, or decodeURIComponent did. */
  datatype HandlerError = ScanFailed(error: ScanError) | DecodeFailed

  class LocalFilesAddon {
    /** `localFiles`: None while it is null. */
    var localFiles: Option<LibraryIndex>
    /** The listing the cached index was scanned from. */
    ghost var scannedFrom: seq<Entry>

    /** The cache holds exactly what scanning the listing it came from yields. */
    ghost predicate Valid()
      reads this
    {
      localFiles.Some? ==> Scan(scannedFrom) == Ok(localFiles.value)
    }

    /** `let localFiles = null` */
    constructor()
      ensures Valid()
      ensures localFiles == None
    {
      localFiles := None;
      scannedFrom := [];
    }

    /**
     * `if (!localFiles) { localFiles = await scanLocalFiles() }`: scan when nothing is
     * cached, keep the result when the scan succeeds, and leave the cache empty when it throws.
     */
    method EnsureIndex(root: seq<Entry>) returns (r: Result<LibraryIndex, ScanError>)
      requires Valid()
      modifies this
      ensures Valid()
      ensures old(localFiles).Some? ==>
        localFiles == old(localFiles) && r == Ok(old(localFiles).value) && scannedFrom == old(scannedFrom)
      ensures old(localFiles).None? ==> r == Scan(root)
      ensures old(localFiles).None? ==> localFiles == (if r.Ok? then Some(r.value) else None)
      ensures r.Ok? ==> localFiles == Some(r.value)
    {
      if localFiles.Some? {
        return Ok(localFiles.value);
      }
      r := ScanLocalFiles(root);
      if r.Ok? {
        localFiles := Some(r.value);
        scannedFrom := root;
      }
    }

    /**
     * The catalog request: ensure the index, then answer from it. A cached index is used
     * as it is, whatever the listing now holds.
     */
    method HandleCatalog(root: seq<Entry>, kind: string, id: string) returns (r: Result<seq<Meta>, HandlerError>)
      requires Valid()
      modifies this
      ensures Valid()
      ensures old(localFiles).Some? ==> localFiles == old(localFiles)
      ensures old(localFiles).None? ==> localFiles == (if Scan(root).Ok? then Some(Scan(root).value) else None)
      ensures localFiles.None? ==> Scan(root).Err? && r == Err(ScanFailed(Scan(root).error))
      ensures localFiles.Some? ==> r == Ok(Catalog(localFiles.value, kind, id))
    {
      var index := EnsureIndex(root);
      if index.Err? {
        return Err(ScanFailed(index.error));
      }
      r := Ok(Catalog(index.value, kind, id));
    }

    /** The stream request: ensure the index, then answer from it. */
    method HandleStream(root: seq<Entry>, kind: string, id: string) returns (r: Result<seq<StreamItem>, HandlerError>)
      requires Valid()
      modifies this
      ensures Valid()
      ensures old(localFiles).Some? ==> localFiles == old(localFiles)
      ensures old(localFiles).None? ==> localFiles == (if Scan(root).Ok? then Some(Scan(root).value) else None)
      ensures localFiles.None? ==> Scan(root).Err? && r == Err(ScanFailed(Scan(root).error))
      ensures localFiles.Some? ==> r == match Stream(localFiles.value, kind, id)
        case Ok(streams) => Ok(streams)
        case Err(_) => Err(DecodeFailed)
    {
      var index := EnsureIndex(root);
      if index.Err? {
        return Err(ScanFailed(index.error));
      }
      var streams := Stream(index.value, kind, id);
      if streams.Err? {
        return Err(DecodeFailed);
      }
      r := Ok(streams.value);
    }
  }
}
