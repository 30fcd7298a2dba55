/**
 The set-based show cache of src/cache/mod.rs: a catalog id with the set of
 file hashes, written as `cache.json` in the show's destination directory.

 A `HashSet` is serialised in its own iteration order, which is unspecified;
 that order is a parameter of `WriteCache`. Reading the file back into a
 `HashSet` forgets order and duplicates.
 */
module SetCache {
  import opened Common
  import opened FileSystem

  const CACHE_FILE_NAME: string := "cache.json"

  datatype Cache = Cache(tmdbId: u32, fileHashes: set<string>)

  /** `Cache::new` */
  function New(tmdbId: u32, fileHashes: set<string>): (c: Cache)
    ensures c.tmdbId == tmdbId && c.fileHashes == fileHashes
  {
    Cache(tmdbId, fileHashes)
  }

  /** `listing` is one iteration of `hashes`: every element exactly once. */
  ghost predicate Enumerates(listing: seq<string>, hashes: set<string>) {
    (forall h :: h in listing <==> h in hashes) &&
    (forall i, j :: 0 <= i < j < |listing| ==> listing[i] != listing[j])
  }

  function CachePath(destDir: Path): Path {
    JoinPath(destDir, CACHE_FILE_NAME)
  }

  /**
   `write_cache`: create `destDir` when nothing exists at that path, then
   write `cache.json` in it, the hashes listed in iteration order.
   */
  function WriteCache(c: Cache, fs: Fs, destDir: Path, listing: seq<string>): (r: Result<Fs, IoError>)
    requires Enumerates(listing, c.fileHashes)
    ensures r.Ok? ==> IsDir(r.value, destDir)
    ensures r.Ok? ==> CachePath(destDir) in r.value && r.value[CachePath(destDir)] == File(Record(c.tmdbId, listing))
    ensures r.Ok? ==> forall q :: q in fs && q != CachePath(destDir) ==> q in r.value && r.value[q] == fs[q]
    ensures r.Ok? ==> forall q :: q in r.value && q !in fs ==>
      q == CachePath(destDir) || exists k :: 1 <= k <= |destDir| && q == destDir[..k]
    ensures IsFile(fs, destDir) ==> r.Err?
    ensures r.Ok? <==>
      (if Exists(fs, destDir) then IsDir(fs, destDir) else forall k :: 1 <= k <= |destDir| ==> !IsFile(fs, destDir[..k])) &&
      !IsDir(fs, CachePath(destDir))
  {
    var ready :- if !Exists(fs, destDir) then CreateDirAll(fs, destDir) else Ok(fs);
    assert destDir[..|destDir|] == destDir;
    assert forall q :: q in ready && q !in fs ==> exists k :: 1 <= k <= |destDir| && q == destDir[..k];
    WriteFile(ready, CachePath(destDir), Record(c.tmdbId, listing))
  }

  /**
   `check_cache`: an error unless `destDir` is an existing directory holding a
   readable, well-formed `cache.json`; otherwise whether the stored hashes, as
   a set, are this cache's hashes.
   */
  function CheckCache(c: Cache, fs: Fs, destDir: Path): (r: Result<bool, IoError>)
    ensures !IsDir(fs, destDir) ==> r == Err(NotADirectory)
    ensures r.Ok? <==>
      IsDir(fs, destDir) && IsFile(fs, CachePath(destDir)) && DecodeRecord(fs[CachePath(destDir)].content).Ok?
  {
    if !Exists(fs, destDir) || !IsDir(fs, destDir) then Err(NotADirectory)
    else
      var content :- ReadFile(fs, CachePath(destDir));
      var local :- DecodeRecord(content);
      var stored := set h | h in local.1;
      Ok(c.tmdbId == c.tmdbId && stored == c.fileHashes)
  }

  /** When the check gets to compare, it compares the hash sets and nothing else. */
  lemma CheckCacheComparesSets(c: Cache, fs: Fs, destDir: Path)
    requires CheckCache(c, fs, destDir).Ok?
    ensures CheckCache(c, fs, destDir).value <==>
      forall h :: h in fs[CachePath(destDir)].content.fileHashes <==> h in c.fileHashes
  {
  }

  /** The stored id is never compared: two caches with the same hashes get the same answer. */
  lemma StoredIdIgnored(c: Cache, d: Cache, fs: Fs, destDir: Path)
    requires c.fileHashes == d.fileHashes
    ensures CheckCache(c, fs, destDir) == CheckCache(d, fs, destDir)
  {
  }

  /** Stored order and duplicates do not matter, nor does the stored id. */
  lemma StoredListingIrrelevant(c: Cache, fs: Fs, destDir: Path, id1: u32, id2: u32, a: seq<string>, b: seq<string>)
    requires forall h :: h in a <==> h in b
    ensures CheckCache(c, fs[CachePath(destDir) := File(Record(id1, a))], destDir)
         == CheckCache(c, fs[CachePath(destDir) := File(Record(id2, b))], destDir)
  {
    var p := CachePath(destDir);
    assert destDir != p;
    assert (set h | h in a) == (set h | h in b);
  }

  /** What `write_cache` writes, `check_cache` on the same cache and directory accepts. */
  lemma CacheRoundTrip(c: Cache, fs: Fs, destDir: Path, listing: seq<string>)
    requires Enumerates(listing, c.fileHashes)
    requires WriteCache(c, fs, destDir, listing).Ok?
    ensures CheckCache(c, WriteCache(c, fs, destDir, listing).value, destDir) == Ok(true)
  {
    var written := WriteCache(c, fs, destDir, listing).value;
    assert (set h | h in listing) == c.fileHashes;
    assert IsFile(written, CachePath(destDir));
  }
}
