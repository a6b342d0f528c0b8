/** `LastModifiedMap`: the cache that maps each dataset URL to the last
    `Last-Modified` header seen for it, so that unchanged files are not
    downloaded again. */
module LastModified {
  import opened Wrappers

  /** URL to the header value stored for it; a stored `None` is a header that
      was absent when the entry was recorded. */
  type Entries = map<string, Option<string>>

  /** What reading the cache file gives: no file, a file that cannot be read
      or parsed, valid JSON that is not an object (a list, a string, a number
      or `null`), or the mapping it holds. */
  datatype CacheFile = Absent | Unreadable | NotAnObject | Readable(entries: Entries)

  /** Whether loading gives up and starts from an empty mapping. A file that
      is valid JSON but not an object does not: it is loaded as it is, and the
      cache then holds no mapping. */
  predicate FallsBack(file: CacheFile) {
    file.Absent? || file.Unreadable?
  }

  /** The mapping a freshly constructed cache holds: the file's mapping, or an
      empty one when the file is missing or unusable. (For a file that is not
      an object the cache holds no mapping, and this empty one stands for it.) */
  function LoadedEntries(file: CacheFile): (m: Entries)
    ensures file.Readable? ==> m == file.entries
    ensures !file.Readable? ==> m == map[]
  {
    if file.Readable? then file.entries else map[]
  }

  /** `dict.get(url)`: the stored value, or `None` when the URL has no entry. */
  function Previous(m: Entries, url: string): Option<string> {
    if url in m then m[url] else None
  }

  /** Whether the header `current` differs from what is stored for `url`. An
      absent entry reads as `None`, so a missing header on a URL never stored
      counts as not modified. */
  function IsModifiedIn(m: Entries, url: string, current: Option<string>): (r: bool)
    ensures url in m ==> (r <==> current != m[url])
    ensures url !in m ==> (r <==> current.Some?)
  {
    current != Previous(m, url)
  }

  /** An empty cache (missing or unusable file) reports every present header
      as modified. */
  lemma FallbackReportsModified(file: CacheFile, url: string, token: string)
    requires FallsBack(file)
    ensures IsModifiedIn(LoadedEntries(file), url, Some(token))
  {
  }

  /** A missing header on a URL never stored is not a modification. */
  lemma MissingHeaderOnUnknownUrl(m: Entries, url: string)
    requires url !in m
    ensures !IsModifiedIn(m, url, None)
  {
  }

  /** Storing `token` for `url` makes `token` unmodified for `url` and changes
      the answer for no other URL. */
  lemma UpdateIsLocal(m: Entries, url: string, token: Option<string>, other: string, current: Option<string>)
    ensures !IsModifiedIn(m[url := token], url, token)
    ensures other != url ==> IsModifiedIn(m[url := token], other, current) == IsModifiedIn(m, other, current)
  {
  }

  class LastModifiedMap {
    /** Where the cache file lives. */
    const path: string
    /** Whether what was loaded is a mapping at all; when it is not, looking
        up a URL raises `AttributeError`. */
    const holdsMapping: bool
    /** The in-memory mapping. */
    var urlToLastModified: Entries
    /** Every mapping written to the cache file by `Write`, oldest first. */
    ghost var persisted: seq<Entries>

    /** Loads the cache and raises nothing: a missing or unusable file gives
        an empty mapping, and valid JSON that is not an object is kept as the
        cache's content, which then holds no mapping. */
    constructor (path: string, file: CacheFile)
      ensures this.path == path
      ensures holdsMapping <==> !file.NotAnObject?
      ensures urlToLastModified == LoadedEntries(file)
      ensures persisted == []
    {
      this.path := path;
      holdsMapping := !file.NotAnObject?;
      urlToLastModified := LoadedEntries(file);
      persisted := [];
    }

    function IsModified(url: string, current: Option<string>): (r: bool)
      reads this
      requires holdsMapping
      ensures r <==> current != Previous(urlToLastModified, url)
    {
      IsModifiedIn(urlToLastModified, url, current)
    }

    /** Stores `lastModified` for `url` in memory only. */
    method Update(url: string, lastModified: Option<string>)
      requires holdsMapping
      modifies this
      ensures urlToLastModified == old(urlToLastModified)[url := lastModified]
      ensures persisted == old(persisted)
      ensures !IsModified(url, lastModified)
      ensures forall other, current :: other != url ==>
        IsModified(other, current) == IsModifiedIn(old(urlToLastModified), other, current)
    {
      urlToLastModified := urlToLastModified[url := lastModified];
    }

    /** Writes the whole in-memory mapping to the cache file. */
    method Write()
      modifies this
      ensures urlToLastModified == old(urlToLastModified)
      ensures persisted == old(persisted) + [urlToLastModified]
    {
      persisted := persisted + [urlToLastModified];
    }
  }
}
