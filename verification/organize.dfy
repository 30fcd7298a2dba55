/**
 `organize_files` (src/file/mod.rs): every video whose name yields a season and
 episode is hard-linked into the destination directory as
 `"{show} S{season}E{episode}.{ext}"`, an existing file of that name being
 removed first. Names that are not UTF-8 or that yield no episode are
 skipped; a parsable name without an extension makes `unwrap` panic. The
 first I/O error ends the run, keeping what was already done.
 */
module Organize {
  import opened Common
  import opened Text
  import opened FileSystem
  import Utils

  /** `Path::file_name`: the last component, unless the path is empty or ends in `..`. */
  function FileName(p: Path): (r: Option<Segment>)
    ensures r.Some? ==> |p| > 0 && r.value == p[|p| - 1]
    ensures r.None? <==> |p| == 0 || p[|p| - 1] == Name("..")
  {
    if |p| == 0 || p[|p| - 1] == Name("..") then None else Some(p[|p| - 1])
  }

  /** Index of the last occurrence of `c` in `s`. */
  function LastIndex(s: string, c: char): (i: nat)
    requires c in s
    ensures i < |s| && s[i] == c
    ensures forall j :: i < j < |s| ==> s[j] != c
  {
    if s[|s| - 1] == c then |s| - 1
    else
      assert s[..|s| - 1] + [s[|s| - 1]] == s;
      LastIndex(s[..|s| - 1], c)
  }

  /**
   `Path::extension` of a file name: the text after the last `.`, or none when
   there is no `.` or the only one starts the name. The name `..` has none
   either (`FileName` never yields it).
   */
  function Extension(name: string): (r: Option<string>)
    ensures r.Some? ==> '.' !in r.value
    ensures r.Some? ==> exists i :: 0 < i < |name| && name[i] == '.' && r.value == name[i + 1..]
    ensures r.None? <==> name == ".." || forall i :: 0 < i < |name| ==> name[i] != '.'
  {
    if '.' !in name || name == ".." then None
    else
      var i := LastIndex(name, '.');
      if i == 0 then None
      else Some(name[i + 1..])
  }

  /** The link's file name. */
  function TargetName(show: string, info: Utils.EpisodeInfo, ext: string): (r: string)
    ensures |r| == |show| + |info.season| + |info.episode| + |ext| + 4
    ensures r[..|show|] == show && r[|show|..|show| + 2] == " S"
    ensures r[|r| - |ext| - 1] == '.' && r[|r| - |ext|..] == ext
  {
    show + " S" + info.season + "E" + info.episode + "." + ext
  }

  /** The fate of one video: skipped, linked at `target`, or a panic. */
  datatype Action = Skip | Link(target: Path) | Panic

  /**
   What happens to one video. `show` is a single file name, as the caller
   takes it from `Path::file_name`, so `Path::join` adds exactly one component.
   */
  function Plan(video: Path, destDir: Path, show: string): (a: Action)
    requires '/' !in show
    ensures var n := FileName(video);
      a.Skip? <==> n.None? || n.value.Undecodable? || Utils.ExtractEpisodeInfo(n.value.text).None?
    ensures var n := FileName(video);
      a.Panic? <==> (n.Some? && n.value.Name? && Utils.ExtractEpisodeInfo(n.value.text).Some? &&
                     Extension(n.value.text).None?)
    ensures var n := FileName(video);
      a.Link? ==> (n.Some? && n.value.Name? &&
                   var info := Utils.ExtractEpisodeInfo(n.value.text);
                   var ext := Extension(n.value.text);
                   info.Some? && ext.Some? && a.target == destDir + [Name(TargetName(show, info.value, ext.value))])
    ensures a.Link? ==> |a.target| == |destDir| + 1 && a.target[..|destDir|] == destDir
  {
    var name := FileName(video);
    if name.None? || name.value.Undecodable? then Skip
    else
      var info := Utils.ExtractEpisodeInfo(name.value.text);
      if info.None? then Skip
      else
        var ext := Extension(name.value.text);
        if ext.None? then Panic
        else
          var target := JoinPath(destDir, TargetName(show, info.value, ext.value));
          assert target[..|destDir|] == destDir;
          Link(target)
  }

  datatype Status = Done | IoFailed(error: IoError) | Panicked

  /** The filesystem after the run and how the run ended (`Ok`, an `Err`, or a panic). */
  datatype Organized = Organized(fs: Fs, status: Status)

  /** One iteration of the loop: go on with a new filesystem, or stop. */
  datatype Step = Next(fs: Fs) | Stop(outcome: Organized)

  function PlaceFile(fs: Fs, video: Path, destDir: Path, show: string): (s: Step)
    requires '/' !in show
    ensures Plan(video, destDir, show).Skip? ==> s == Next(fs)
    ensures Plan(video, destDir, show).Panic? ==> s == Stop(Organized(fs, Panicked))
    ensures s.Stop? ==> !s.outcome.status.Done?
    ensures Plan(video, destDir, show).Link? ==>
      var t := Plan(video, destDir, show).target;
      (s.Next? ==> IsFile(fs, video) && s.fs == fs[t := fs[video]]) &&
      (s.Stop? ==> s.outcome.fs == fs || s.outcome.fs == fs - {t})
    ensures s.Next? <==> (Plan(video, destDir, show).Skip? ||
                          (Plan(video, destDir, show).Link? &&
                           var t := Plan(video, destDir, show).target;
                           IsFile(fs, video) && IsDir(fs, destDir) && !IsDir(fs, t) && video != t))
    ensures Plan(video, destDir, show).Link? && s.Stop? ==>
      var t := Plan(video, destDir, show).target;
      s.outcome.fs == if IsDir(fs, t) then fs else fs - {t}
    ensures Plan(video, destDir, show).Link? && IsDir(fs, Plan(video, destDir, show).target) ==>
      s == Stop(Organized(fs, IoFailed(IsADirectory)))
    ensures Plan(video, destDir, show).Link? && IsFile(fs, video) && video == Plan(video, destDir, show).target ==>
      s == Stop(Organized(fs - {video}, IoFailed(NotFound)))
  {
    match Plan(video, destDir, show)
    case Skip => Next(fs)
    case Panic => Stop(Organized(fs, Panicked))
    case Link(target) => LinkAt(fs, video, destDir, target)
  }

  /**
   Linking one video at `target` inside `destDir`: an existing target is
   removed first, then the hard link is made. A video that is its own target
   is removed by the first step, so the second cannot find it.
   */
  function LinkAt(fs: Fs, video: Path, destDir: Path, target: Path): (s: Step)
    requires |target| == |destDir| + 1 && target[..|destDir|] == destDir
    ensures s.Next? <==> IsFile(fs, video) && IsDir(fs, destDir) && !IsDir(fs, target) && video != target
    ensures s.Next? ==> s.fs == fs[target := fs[video]]
    ensures s.Stop? ==> !s.outcome.status.Done? && s.outcome.fs == if IsDir(fs, target) then fs else fs - {target}
    ensures IsDir(fs, target) ==> s == Stop(Organized(fs, IoFailed(IsADirectory)))
    ensures IsFile(fs, video) && video == target ==> s == Stop(Organized(fs - {video}, IoFailed(NotFound)))
  {
    assert target[..|target| - 1] == destDir;
    var cleared := if Exists(fs, target) then RemoveFile(fs, target) else Ok(fs);
    if cleared.Err? then Stop(Organized(fs, IoFailed(cleared.error)))
    else
      var linked := HardLink(cleared.value, video, target);
      if linked.Err? then Stop(Organized(cleared.value, IoFailed(linked.error)))
      else
        assert video != target;
        Next(linked.value)
  }

  /** The paths the videos in `videos` are linked at. */
  function Targets(videos: seq<Path>, destDir: Path, show: string): set<Path>
    requires '/' !in show
  {
    if |videos| == 0 then {}
    else
      var a := Plan(videos[0], destDir, show);
      (if a.Link? then {a.target} else {}) + Targets(videos[1..], destDir, show)
  }

  /**
   `organize_files`, video by video in list order. Whatever the outcome, only
   link targets are created, replaced or removed.
   */
  function OrganizeFiles(fs: Fs, videos: seq<Path>, destDir: Path, show: string): (r: Organized)
    requires '/' !in show
    ensures forall q :: q in fs && q !in Targets(videos, destDir, show) ==> q in r.fs && r.fs[q] == fs[q]
    ensures forall q :: q in r.fs && q !in fs ==> q in Targets(videos, destDir, show)
    decreases |videos|
  {
    if |videos| == 0 then Organized(fs, Done)
    else
      match PlaceFile(fs, videos[0], destDir, show)
      case Stop(outcome) => outcome
      case Next(next) => OrganizeFiles(next, videos[1..], destDir, show)
  }

  /**
   The `for` loop of `organize_files` after its first `i` iterations: still
   going with the filesystem reached so far, or stopped with the run's outcome.
   */
  function AfterFirst(fs: Fs, videos: seq<Path>, destDir: Path, show: string, i: nat): (s: Step)
    requires '/' !in show
    requires i <= |videos|
    ensures s.Stop? ==> !s.outcome.status.Done?
    decreases i
  {
    if i == 0 then Next(fs)
    else
      match AfterFirst(fs, videos, destDir, show, i - 1)
      case Stop(outcome) => Stop(outcome)
      case Next(reached) => PlaceFile(reached, videos[i - 1], destDir, show)
  }

  /** What the loop returns: `Ok(())` once every video is handled, or the outcome of the step that stopped it. */
  function Finish(s: Step): Organized {
    match s
    case Next(reached) => Organized(reached, Done)
    case Stop(outcome) => outcome
  }

  /** Peeling the first iteration off the loop. */
  lemma {:induction false} AfterFirstHead(fs: Fs, videos: seq<Path>, destDir: Path, show: string, i: nat)
    requires '/' !in show
    requires i < |videos|
    ensures AfterFirst(fs, videos, destDir, show, i + 1) ==
      match PlaceFile(fs, videos[0], destDir, show)
      case Stop(outcome) => Stop(outcome)
      case Next(next) => AfterFirst(next, videos[1..], destDir, show, i)
    decreases i
  {
    if i > 0 {
      AfterFirstHead(fs, videos, destDir, show, i - 1);
      assert videos[1..][i - 1] == videos[i];
    }
  }

  /** Once the loop has stopped, later iterations change nothing. */
  lemma {:induction false} StopIsFinal(fs: Fs, videos: seq<Path>, destDir: Path, show: string, i: nat, j: nat)
    requires '/' !in show
    requires i <= j <= |videos|
    requires AfterFirst(fs, videos, destDir, show, i).Stop?
    ensures AfterFirst(fs, videos, destDir, show, j) == AfterFirst(fs, videos, destDir, show, i)
    decreases j
  {
    if j > i {
      StopIsFinal(fs, videos, destDir, show, i, j - 1);
    }
  }

  /** `OrganizeFiles` is the loop run over every video. */
  lemma {:induction false} OrganizeFilesIsLoop(fs: Fs, videos: seq<Path>, destDir: Path, show: string)
    requires '/' !in show
    ensures OrganizeFiles(fs, videos, destDir, show) == Finish(AfterFirst(fs, videos, destDir, show, |videos|))
    decreases |videos|
  {
    if |videos| > 0 {
      AfterFirstHead(fs, videos, destDir, show, |videos| - 1);
      match PlaceFile(fs, videos[0], destDir, show)
      case Stop(_) =>
      case Next(next) => OrganizeFilesIsLoop(next, videos[1..], destDir, show);
    }
  }

  /** A run returns `Ok(())` exactly when every iteration goes on to the next video. */
  lemma RunDoneIffEveryStepGoesOn(fs: Fs, videos: seq<Path>, destDir: Path, show: string)
    requires '/' !in show
    ensures OrganizeFiles(fs, videos, destDir, show).status.Done? <==>
      forall i :: 0 < i <= |videos| ==> AfterFirst(fs, videos, destDir, show, i).Next?
  {
    OrganizeFilesIsLoop(fs, videos, destDir, show);
    if !OrganizeFiles(fs, videos, destDir, show).status.Done? {
      assert AfterFirst(fs, videos, destDir, show, |videos|).Stop?;
    } else {
      forall i | 0 < i <= |videos|
        ensures AfterFirst(fs, videos, destDir, show, i).Next?
      {
        if AfterFirst(fs, videos, destDir, show, i).Stop? {
          StopIsFinal(fs, videos, destDir, show, i, |videos|);
        }
      }
    }
  }

  /**
   The first failing step ends the run with its own outcome: the links made
   for the earlier videos stay, and at most the failing video's target is gone.
   */
  lemma StopEndsRun(fs: Fs, videos: seq<Path>, destDir: Path, show: string, i: nat)
    requires '/' !in show
    requires i < |videos|
    requires AfterFirst(fs, videos, destDir, show, i).Next?
    requires PlaceFile(AfterFirst(fs, videos, destDir, show, i).fs, videos[i], destDir, show).Stop?
    ensures OrganizeFiles(fs, videos, destDir, show) ==
      PlaceFile(AfterFirst(fs, videos, destDir, show, i).fs, videos[i], destDir, show).outcome
    ensures var reached := AfterFirst(fs, videos, destDir, show, i).fs;
      var r := OrganizeFiles(fs, videos, destDir, show);
      !r.status.Done? &&
      (r.fs == reached || (Plan(videos[i], destDir, show).Link? && r.fs == reached - {Plan(videos[i], destDir, show).target}))
  {
    OrganizeFilesIsLoop(fs, videos, destDir, show);
    StopIsFinal(fs, videos, destDir, show, i + 1, |videos|);
  }

  /** The link targets of a run are exactly the targets of the videos that are linked. */
  lemma {:induction false} TargetsCharacterized(videos: seq<Path>, destDir: Path, show: string, q: Path)
    requires '/' !in show
    ensures q in Targets(videos, destDir, show) <==>
      exists i :: 0 <= i < |videos| && Plan(videos[i], destDir, show) == Link(q)
    decreases |videos|
  {
    if |videos| > 0 {
      TargetsCharacterized(videos[1..], destDir, show, q);
      if q in Targets(videos[1..], destDir, show) {
        var i :| 0 <= i < |videos[1..]| && Plan(videos[1..][i], destDir, show) == Link(q);
        assert Plan(videos[i + 1], destDir, show) == Link(q);
      }
      if exists i :: 0 <= i < |videos| && Plan(videos[i], destDir, show) == Link(q) {
        var i :| 0 <= i < |videos| && Plan(videos[i], destDir, show) == Link(q);
        if i > 0 {
          assert Plan(videos[1..][i - 1], destDir, show) == Link(q);
        }
      }
    }
  }

  /**
   A parsable name without an extension panics (`unwrap` on `None`); when no
   video before it was linked, the run ends there with the filesystem untouched.
   */
  lemma {:induction false} PanicEndsRun(fs: Fs, videos: seq<Path>, destDir: Path, show: string, i: nat)
    requires '/' !in show
    requires i < |videos| && Plan(videos[i], destDir, show).Panic?
    requires forall j :: 0 <= j < i ==> Plan(videos[j], destDir, show).Skip?
    ensures OrganizeFiles(fs, videos, destDir, show) == Organized(fs, Panicked)
    decreases i
  {
    if i > 0 {
      assert forall j :: 0 <= j < i - 1 ==> videos[1..][j] == videos[j + 1];
      PanicEndsRun(fs, videos[1..], destDir, show, i - 1);
    }
  }

  /** The extension of the link name is the video's extension. */
  lemma TargetKeepsExtension(show: string, info: Utils.EpisodeInfo, ext: string)
    requires '.' !in ext
    ensures Extension(TargetName(show, info, ext)) == Some(ext)
  {
    var prefix := show + " S" + info.season + "E" + info.episode;
    var name := TargetName(show, info, ext);
    assert name == prefix + "." + ext;
    assert name[|prefix|] == '.';
    var i := LastIndex(name, '.');
    assert forall j :: |prefix| < j < |name| ==> name[j] == ext[j - |prefix| - 1];
    assert i == |prefix|;
    assert |prefix| > 0;
    assert name[i + 1..] == ext;
  }

  /**
   Parsing the link name again gives back the season and episode, as long as
   the show name holds no digit: organizing is stable under a second run.
   */
  lemma TargetNameReparses(show: string, info: Utils.EpisodeInfo, ext: string)
    requires Utils.IsTwoDigits(info.season) && Utils.IsTwoDigits(info.episode)
    requires forall k :: 0 <= k < |show| ==> !IsAsciiDigit(show[k])
    ensures Utils.ExtractEpisodeInfo(TargetName(show, info, ext)) == Some(info)
  {
    var name := TargetName(show, info, ext);
    var k := |show| + 1;
    assert name[..k] == show + " ";
    assert name[k..k + 6] == "S" + info.season + "E" + info.episode;
    assert name[k + 1..k + 3] == info.season;
    assert name[k + 4..k + 6] == info.episode;
    Utils.MatchTwoTwo(name, k);
    Utils.SkipNoDigits(name, 0, k);
    assert Utils.Format(Utils.SeasonEpisode(info.season, info.episode)) == info;
  }

  /**
   A video whose name parses, with an extension, ends up at its target even
   when a file of that name was there before.
   */
  lemma ReplaceThenLink(fs: Fs, video: Path, destDir: Path, show: string)
    requires '/' !in show
    requires Plan(video, destDir, show).Link?
    requires IsFile(fs, video) && IsDir(fs, destDir)
    requires Plan(video, destDir, show).target != video
    requires !IsDir(fs, Plan(video, destDir, show).target)
    ensures PlaceFile(fs, video, destDir, show) == Next(fs[Plan(video, destDir, show).target := fs[video]])
  {
    var t := Plan(video, destDir, show).target;
    assert t[..|t| - 1] == destDir;
  }

  /** A list of videos none of which is linked leaves the filesystem as it was. */
  lemma {:induction false} NothingToLink(fs: Fs, videos: seq<Path>, destDir: Path, show: string)
    requires '/' !in show
    requires forall i :: 0 <= i < |videos| ==> Plan(videos[i], destDir, show).Skip?
    ensures OrganizeFiles(fs, videos, destDir, show) == Organized(fs, Done)
  {
    if |videos| > 0 {
      NothingToLink(fs, videos[1..], destDir, show);
    }
  }

  /**
   After a run that completes, each target holds the content of the LAST video
   that maps to it, provided no video is itself a link target.
   */
  lemma {:induction false} LastVideoWins(fs: Fs, videos: seq<Path>, destDir: Path, show: string, i: nat)
    requires '/' !in show
    requires OrganizeFiles(fs, videos, destDir, show).status.Done?
    requires forall j :: 0 <= j < |videos| ==> videos[j] !in Targets(videos, destDir, show)
    requires i < |videos| && Plan(videos[i], destDir, show).Link?
    requires Plan(videos[i], destDir, show).target !in Targets(videos[i + 1..], destDir, show)
    ensures videos[i] in fs
    ensures Plan(videos[i], destDir, show).target in OrganizeFiles(fs, videos, destDir, show).fs
    ensures OrganizeFiles(fs, videos, destDir, show).fs[Plan(videos[i], destDir, show).target] == fs[videos[i]]
    decreases |videos|
  {
    var step := PlaceFile(fs, videos[0], destDir, show);
    var rest := videos[1..];
    if i > 0 {
      assert rest[i - 1 + 1..] == videos[i + 1..];
      assert forall j :: 0 <= j < |rest| ==> rest[j] == videos[j + 1];
      LastVideoWins(step.fs, rest, destDir, show, i - 1);
    }
  }
}
