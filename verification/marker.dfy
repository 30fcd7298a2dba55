/**
 The "already processed" marker: `write_marker` (src/file/mod.rs) stores the
 chosen catalog id with the hashes of the show's files, and `check_processed`
 (src/file/cache.rs) decides on the next run whether the files are unchanged.

 `check_processed` sorts the stored hashes but compares them with the current
 list exactly as it is passed, so a match needs the current list to be sorted
 already; `write_marker` stores the list unsorted.
 */
module Marker {
  import opened Common
  import opened FileSystem
  import opened Ordering
  import opened Models
  import Search

  /** The JSON `serde_json::to_string` makes of a marker. */
  function Serialize(marker: ProcessedMarker): (c: Content)
    ensures DecodeRecord(c) == Ok((marker.tmdbId, marker.fileHashes))
  {
    Record(marker.tmdbId, marker.fileHashes)
  }

  /**
   `write_marker`: create `destDir` with its ancestors, then write the marker,
   hashes in the order given, at `markerPath`. Nothing else is touched.
   */
  function WriteMarker(fs: Fs, markerPath: Path, destDir: Path, tmdbId: u32, hashes: seq<string>)
    : (r: Result<Fs, IoError>)
    ensures r.Ok? ==> IsDir(r.value, destDir)
    ensures r.Ok? ==> markerPath in r.value && r.value[markerPath] == File(Record(tmdbId, hashes))
    ensures r.Ok? ==> forall q :: q in fs && q != markerPath ==> q in r.value && r.value[q] == fs[q]
    ensures r.Ok? ==> forall q :: q in r.value && q !in fs ==>
      q == markerPath || exists k :: 1 <= k <= |destDir| && q == destDir[..k]
    ensures (exists k :: 1 <= k <= |destDir| && IsFile(fs, destDir[..k])) ==> r.Err?
    ensures r.Ok? <==>
      (forall k :: 1 <= k <= |destDir| ==> !IsFile(fs, destDir[..k])) && |markerPath| > 0 &&
      DirOnceCreated(fs, destDir, markerPath[..|markerPath| - 1]) && !DirOnceCreated(fs, destDir, markerPath)
  {
    var marker := ProcessedMarker(tmdbId, hashes);
    var content := Serialize(marker);
    var created :- CreateDirAll(fs, destDir);
    assert destDir[..|destDir|] == destDir;
    if |markerPath| > 0 then
      CreatedDirs(fs, destDir, markerPath[..|markerPath| - 1]);
      CreatedDirs(fs, destDir, markerPath);
      WriteFile(created, markerPath, content)
    else
      WriteFile(created, markerPath, content)
  }

  /**
   `check_processed`: `(0, false)` when there is no marker; the stored id and
   `true` when the sorted stored hashes equal `current`; `(0, false)` when they
   differ. A marker that cannot be read or decoded is an error.
   */
  function CheckProcessed(fs: Fs, markerPath: Path, current: seq<string>): (r: Result<(u32, bool), IoError>)
    ensures !Exists(fs, markerPath) ==> r == Ok((0, false))
    ensures r.Err? <==> Exists(fs, markerPath) && (!IsFile(fs, markerPath) || DecodeRecord(fs[markerPath].content).Err?)
    ensures r.Ok? && !r.value.1 ==> r.value.0 == 0
  {
    var tmdbId: u32 := 0;
    var detailsCached := false;
    if !Exists(fs, markerPath) then Ok((tmdbId, detailsCached))
    else
      var content :- ReadFile(fs, markerPath);
      var marker :- DecodeRecord(content);
      var stored := Sort(marker.1);
      if stored == current then Ok((marker.0, true)) else Ok((tmdbId, detailsCached))
  }

  /** The marker check succeeds exactly when the stored hashes, as a multiset, are `current` and `current` is sorted. */
  lemma CheckProcessedMatches(fs: Fs, markerPath: Path, current: seq<string>, tmdbId: u32)
    ensures CheckProcessed(fs, markerPath, current) == Ok((tmdbId, true)) <==>
      IsFile(fs, markerPath) && fs[markerPath].content.Record? && fs[markerPath].content.tmdbId == tmdbId &&
      Sorted(current) && multiset(current) == multiset(fs[markerPath].content.fileHashes)
  {
    if IsFile(fs, markerPath) && fs[markerPath].content.Record? {
      SortCharacterized(fs[markerPath].content.fileHashes, current);
    }
  }

  /** The order the hashes were stored in never changes the decision. */
  lemma StoredOrderIrrelevant(fs: Fs, markerPath: Path, current: seq<string>, tmdbId: nat, a: seq<string>, b: seq<string>)
    requires |markerPath| > 0
    requires multiset(a) == multiset(b)
    ensures CheckProcessed(fs[markerPath := File(Record(tmdbId, a))], markerPath, current)
         == CheckProcessed(fs[markerPath := File(Record(tmdbId, b))], markerPath, current)
  {
    CheckStored(fs, markerPath, current, tmdbId, a);
    CheckStored(fs, markerPath, current, tmdbId, b);
    SortPermutationInvariant(a, b);
  }

  /** The check of a marker holding `tmdbId` and `hashes`. */
  lemma CheckStored(fs: Fs, markerPath: Path, current: seq<string>, tmdbId: nat, hashes: seq<string>)
    requires |markerPath| > 0
    ensures CheckProcessed(fs[markerPath := File(Record(tmdbId, hashes))], markerPath, current)
         == if tmdbId >= U32_LIMIT then Err(InvalidData)
            else if Sort(hashes) == current then Ok((tmdbId as u32, true))
            else Ok((0, false))
  {
  }

  /**
   Writing a marker and checking it against the same list recognises it
   exactly when the list is sorted; an unsorted list is taken as changed.
   */
  lemma MarkerRoundTrip(fs: Fs, markerPath: Path, destDir: Path, tmdbId: u32, hashes: seq<string>)
    requires WriteMarker(fs, markerPath, destDir, tmdbId, hashes).Ok?
    ensures CheckProcessed(WriteMarker(fs, markerPath, destDir, tmdbId, hashes).value, markerPath, hashes)
         == if Sorted(hashes) then Ok((tmdbId, true)) else Ok((0, false))
  {
    SortCharacterized(hashes, hashes);
  }

  /** A usable (non-zero) id comes out of the check only when the files are unchanged. */
  lemma UsableIdOnlyWhenUnchanged(fs: Fs, markerPath: Path, current: seq<string>)
    requires CheckProcessed(fs, markerPath, current).Ok?
    ensures Search.CheckTmdbId(CheckProcessed(fs, markerPath, current).value.0) ==>
      CheckProcessed(fs, markerPath, current).value.1
  {
  }
}
