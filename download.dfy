/** The decision part of `download_imdb_dataset`: where the dataset comes
    from, where its cache lives, whether its body is written, and when the
    cache is updated and written back. The HTTP transfer is given as a
    `Response` value. */
module Download {
  import opened Wrappers
  import opened PosixPath
  import opened Datasets
  import opened LastModified

  newtype byte = x: int | 0 <= x < 256

  const LastModifiedFileName := ".pimdb_last_modified.json"

  /** The cache file sits in the same directory as the target file. */
  function CachePath(targetPath: string): (r: string)
    ensures BaseName(r) == LastModifiedFileName
    ensures DirName(r) == DirName(targetPath)
  {
    JoinDirNameFileName(targetPath, LastModifiedFileName);
    Join(DirName(targetPath), LastModifiedFileName)
  }

  /** The response to the GET request: its status, its `Last-Modified` header
      if there is one, and the body in the chunks it arrives in (a chunk may be
      empty, as a keep-alive chunk is). */
  datatype Response = Response(status: int, lastModified: Option<string>, chunks: seq<seq<byte>>)

  /** `raise_for_status` fails on a client (4xx) or server (5xx) status. */
  predicate IsHttpError(status: int) {
    400 <= status < 600
  }

  /** How a download ends: the status raised as an error, the cache's lookup
      raising `AttributeError` because it holds no mapping, the file found up
      to date and left alone, or the target file written with `content`. */
  datatype DownloadResult = HttpError(status: int) | CacheNotAMapping | UpToDate | Downloaded(content: seq<byte>)

  /** The bytes of all chunks, in order. */
  function Concat(chunks: seq<seq<byte>>): seq<byte> {
    if chunks == [] then [] else Concat(chunks[..|chunks| - 1]) + chunks[|chunks| - 1]
  }

  /** The chunks that are not empty, in order. */
  function NonEmpty(chunks: seq<seq<byte>>): (r: seq<seq<byte>>)
    ensures forall i :: 0 <= i < |r| ==> r[i] != []
  {
    if chunks == [] then []
    else NonEmpty(chunks[..|chunks| - 1]) + (if chunks[|chunks| - 1] == [] then [] else [chunks[|chunks| - 1]])
  }

  lemma {:induction false} ConcatAppend(chunks: seq<seq<byte>>, more: seq<seq<byte>>)
    ensures Concat(chunks + more) == Concat(chunks) + Concat(more)
    decreases |more|
  {
    if more == [] {
      assert chunks + more == chunks;
    } else {
      var shorter := more[..|more| - 1];
      assert (chunks + more)[..|chunks + more| - 1] == chunks + shorter;
      ConcatAppend(chunks, shorter);
    }
  }

  /** Skipping empty (keep-alive) chunks does not change what is written. */
  lemma {:induction false} KeepAliveChunksIgnored(chunks: seq<seq<byte>>)
    ensures Concat(NonEmpty(chunks)) == Concat(chunks)
    decreases |chunks|
  {
    if chunks != [] {
      var front, last := chunks[..|chunks| - 1], chunks[|chunks| - 1];
      KeepAliveChunksIgnored(front);
      ConcatAppend(NonEmpty(front), if last == [] then [] else [last]);
      assert Concat([last]) == last by { assert [last][..0] == []; }
    }
  }

  /** Writes the body to the target file chunk by chunk, skipping empty
      chunks; the file ends up holding exactly the body. */
  method WriteChunks(chunks: seq<seq<byte>>) returns (content: seq<byte>)
    ensures content == Concat(chunks)
  {
    content := [];
    for i := 0 to |chunks|
      invariant content == Concat(NonEmpty(chunks[..i]))
    {
      assert chunks[..i + 1][..i] == chunks[..i];
      assert NonEmpty(chunks[..i + 1])
        == NonEmpty(chunks[..i]) + (if chunks[i] == [] then [] else [chunks[i]]);
      if chunks[i] != [] {
        ConcatAppend(NonEmpty(chunks[..i]), [chunks[i]]);
        assert Concat([chunks[i]]) == chunks[i] by { assert [chunks[i]][..0] == []; }
        content := content + chunks[i];
      } else {
        assert NonEmpty(chunks[..i + 1]) == NonEmpty(chunks[..i]);
      }
    }
    assert chunks[..|chunks|] == chunks;
    KeepAliveChunksIgnored(chunks);
  }

  /** Whether the body has to be downloaded: always without `onlyIfNewer`,
      otherwise exactly when the header differs from the cached one. */
  function HasToBeDownloaded(onlyIfNewer: bool, m: Entries, url: string, current: Option<string>): (r: bool)
    ensures !onlyIfNewer ==> r
    ensures onlyIfNewer && url in m ==> (r <==> current != m[url])
    ensures onlyIfNewer && url !in m ==> (r <==> current.Some?)
  {
    !onlyIfNewer || IsModifiedIn(m, url, current)
  }

  /** Downloads `dataset` to `targetPath`. The cache is only loaded when
      `onlyIfNewer` is set (and is returned then, else `null`). The target is
      written exactly when the status is not an error and the download is
      needed; after such a download with `onlyIfNewer` the cache maps the URL
      to the observed header and is written once. Otherwise the cache is left
      as loaded and is never written. A cache file holding JSON that is not an
      object makes the lookup raise once the status has passed. */
  method DownloadImdbDataset(dataset: ImdbDataset, targetPath: string, onlyIfNewer: bool,
                             file: CacheFile, response: Response)
    returns (result: DownloadResult, cache: LastModifiedMap?)
    ensures onlyIfNewer <==> cache != null
    ensures cache != null ==>
      && fresh(cache) && cache.path == CachePath(targetPath)
      && (cache.holdsMapping <==> !file.NotAnObject?)
    ensures IsHttpError(response.status) ==> result == HttpError(response.status)
    ensures !IsHttpError(response.status) && onlyIfNewer && file.NotAnObject? ==> result == CacheNotAMapping
    ensures !IsHttpError(response.status) && !(onlyIfNewer && file.NotAnObject?) ==>
      result == if HasToBeDownloaded(onlyIfNewer, LoadedEntries(file), SourceUrl(dataset), response.lastModified)
                then Downloaded(Concat(response.chunks))
                else UpToDate
    ensures cache != null && result.Downloaded? ==>
      && cache.urlToLastModified == LoadedEntries(file)[SourceUrl(dataset) := response.lastModified]
      && cache.persisted == [cache.urlToLastModified]
      && cache.holdsMapping
      && !cache.IsModified(SourceUrl(dataset), response.lastModified)
    ensures cache != null && !result.Downloaded? ==>
      cache.urlToLastModified == LoadedEntries(file) && cache.persisted == []
  {
    var sourceUrl := SourceUrl(dataset);
    var cachePath := CachePath(targetPath);
    cache := null;
    if onlyIfNewer {
      cache := new LastModifiedMap(cachePath, file);
    }
    if IsHttpError(response.status) {
      result := HttpError(response.status);
      return;
    }
    var hasToBeDownloaded;
    var currentLastModified: Option<string> := None;
    if onlyIfNewer {
      currentLastModified := response.lastModified;
      if !cache.holdsMapping {
        result := CacheNotAMapping;
        return;
      }
      hasToBeDownloaded := cache.IsModified(sourceUrl, currentLastModified);
    } else {
      hasToBeDownloaded := true;
    }
    if hasToBeDownloaded {
      var content := WriteChunks(response.chunks);
      result := Downloaded(content);
      if onlyIfNewer {
        cache.Update(sourceUrl, currentLastModified);
        cache.Write();
      }
    } else {
      result := UpToDate;
    }
  }
}
