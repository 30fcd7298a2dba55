/**
 The part of `std::fs` and `std::path` the archiver relies on, over a
 filesystem that is a map from paths to nodes.

 A path is the list of its components below the destination root; the root
 itself (the empty path) always exists and is a directory. A component whose
 bytes are not valid UTF-8 is `Undecodable`. A file holds either a JSON record
 with the `tmdb_id` and `file_hashes` fields (the shape both the processed
 marker and the cache file are written in) or other data. A hard link is
 modelled as a second path holding the same content.
 */
module FileSystem {
  import opened Common

  datatype Segment = Name(text: string) | Undecodable(raw: seq<nat>)

  type Path = seq<Segment>

  /**
   A file's content: `{"tmdb_id": .., "file_hashes": [..]}` with the values
   given, or anything else (video data, malformed JSON).
   */
  datatype Content = Record(tmdbId: nat, fileHashes: seq<string>) | Opaque(data: seq<nat>)

  datatype Node = Dir | File(content: Content)

  type Fs = map<Path, Node>

  datatype IoError = NotFound | NotADirectory | IsADirectory | AlreadyExists | InvalidData

  /** `Path::exists` */
  predicate Exists(fs: Fs, p: Path) {
    |p| == 0 || p in fs
  }

  /** `Path::is_dir` */
  predicate IsDir(fs: Fs, p: Path) {
    |p| == 0 || (p in fs && fs[p].Dir?)
  }

  predicate IsFile(fs: Fs, p: Path) {
    |p| > 0 && p in fs && fs[p].File?
  }

  /** `dir.join(name)` */
  function JoinPath(dir: Path, name: string): Path {
    dir + [Name(name)]
  }

  /** `fs::create_dir_all`: every missing ancestor and the directory itself are created; a file in the way is an error. */
  function CreateDirAll(fs: Fs, p: Path): (r: Result<Fs, IoError>)
    ensures r.Ok? <==> forall k :: 1 <= k <= |p| ==> !IsFile(fs, p[..k])
    ensures r.Ok? ==> forall k :: 0 <= k <= |p| ==> IsDir(r.value, p[..k])
    ensures r.Ok? ==> forall q :: q in fs ==> q in r.value && r.value[q] == fs[q]
    ensures r.Ok? ==> forall q :: q in r.value && q !in fs ==> exists k :: 1 <= k <= |p| && q == p[..k]
    decreases |p|
  {
    if |p| == 0 then Ok(fs)
    else
      var parent := p[..|p| - 1];
      assert forall k :: 0 <= k <= |parent| ==> parent[..k] == p[..k];
      var above := CreateDirAll(fs, parent);
      assert p[..|p|] == p;
      if above.Err? then above
      else if p in above.value then
        assert p in fs && above.value[p] == fs[p];
        if above.value[p].Dir? then above else Err(AlreadyExists)
      else
        Ok(above.value[p := Dir])
  }

  /** `p` is a directory once `create_dir_all(dir)` has succeeded: it was one already, or `dir` passes through it. */
  predicate DirOnceCreated(fs: Fs, dir: Path, p: Path) {
    IsDir(fs, p) || exists k :: 0 <= k <= |dir| && p == dir[..k]
  }

  /** After `create_dir_all(dir)`, the directories are the old ones and `dir` with its ancestors. */
  lemma CreatedDirs(fs: Fs, dir: Path, p: Path)
    requires CreateDirAll(fs, dir).Ok?
    ensures IsDir(CreateDirAll(fs, dir).value, p) <==> DirOnceCreated(fs, dir, p)
  {
    var after := CreateDirAll(fs, dir).value;
    if exists k :: 0 <= k <= |dir| && p == dir[..k] {
      var k :| 0 <= k <= |dir| && p == dir[..k];
      assert IsDir(after, dir[..k]);
    }
  }

  /** `fs::write`: creates or truncates a file whose parent directory exists. */
  function WriteFile(fs: Fs, p: Path, c: Content): (r: Result<Fs, IoError>)
    ensures r.Ok? <==> |p| > 0 && IsDir(fs, p[..|p| - 1]) && !IsDir(fs, p)
    ensures r.Ok? ==> r.value == fs[p := File(c)]
  {
    if |p| == 0 then Err(IsADirectory)
    else if !Exists(fs, p[..|p| - 1]) then Err(NotFound)
    else if !IsDir(fs, p[..|p| - 1]) then Err(NotADirectory)
    else if p in fs && fs[p].Dir? then Err(IsADirectory)
    else Ok(fs[p := File(c)])
  }

  /** `fs::read_to_string` / `File::open` followed by a read. */
  function ReadFile(fs: Fs, p: Path): (r: Result<Content, IoError>)
    ensures r.Ok? <==> IsFile(fs, p)
    ensures r.Ok? ==> fs[p] == File(r.value)
  {
    if !Exists(fs, p) then Err(NotFound)
    else if IsDir(fs, p) then Err(IsADirectory)
    else Ok(fs[p].content)
  }

  /** `fs::remove_file` */
  function RemoveFile(fs: Fs, p: Path): (r: Result<Fs, IoError>)
    ensures r.Ok? <==> IsFile(fs, p)
    ensures r.Ok? ==> r.value == fs - {p}
  {
    if !Exists(fs, p) then Err(NotFound)
    else if IsDir(fs, p) then Err(IsADirectory)
    else Ok(fs - {p})
  }

  /** `fs::hard_link(src, dst)`: `dst` must not exist and its parent must be a directory; directories cannot be linked. */
  function HardLink(fs: Fs, src: Path, dst: Path): (r: Result<Fs, IoError>)
    ensures r.Ok? <==> IsFile(fs, src) && |dst| > 0 && IsDir(fs, dst[..|dst| - 1]) && !Exists(fs, dst)
    ensures r.Ok? ==> r.value == fs[dst := fs[src]]
  {
    if !Exists(fs, src) then Err(NotFound)
    else if IsDir(fs, src) then Err(IsADirectory)
    else if |dst| == 0 || Exists(fs, dst) then Err(AlreadyExists)
    else if !Exists(fs, dst[..|dst| - 1]) then Err(NotFound)
    else if !IsDir(fs, dst[..|dst| - 1]) then Err(NotADirectory)
    else Ok(fs[dst := fs[src]])
  }

  /** The JSON record a file holds, when it decodes into a record whose id fits a `u32`. */
  function DecodeRecord(c: Content): (r: Result<(u32, seq<string>), IoError>)
    ensures r.Ok? <==> c.Record? && c.tmdbId < U32_LIMIT
    ensures r.Ok? ==> r.value == (c.tmdbId, c.fileHashes)
  {
    match c
    case Record(id, hashes) => if id < U32_LIMIT then Ok((id as u32, hashes)) else Err(InvalidData)
    case Opaque(_) => Err(InvalidData)
  }
}
