/**
 The generic episode-number parser and the null-to-empty field decoder of
 src/utils.rs.

 `extract_episode_info` runs the pattern `[sS](\d{1,2})[eE](\d{1,2})|(\d{1,2})`
 once, leftmost-first: the earliest start position where either alternative
 matches wins, and at one position the `S..E..` alternative is preferred.
 The scanner below is that search written out by hand. Digits are ASCII
 digits (the regex crate's `\d` also accepts other Unicode decimal digits).
 */
module Utils {
  import opened Common
  import opened Text

  /** Season and episode, as the text that will appear in a file name. */
  datatype EpisodeInfo = EpisodeInfo(season: string, episode: string)

  /** The capture groups of a match: groups 1 and 2, or group 3 alone. */
  datatype Captures = SeasonEpisode(season: string, episode: string) | BareNumber(number: string)

  predicate IsSeasonMark(c: char) {
    c == 's' || c == 'S'
  }

  predicate IsEpisodeMark(c: char) {
    c == 'e' || c == 'E'
  }

  /** What `\d{1,2}` can capture. */
  predicate IsDigitRun(t: string) {
    1 <= |t| <= 2 && AllDigits(t)
  }

  predicate WellFormed(c: Captures) {
    match c
    case SeasonEpisode(season, episode) => IsDigitRun(season) && IsDigitRun(episode)
    case BareNumber(number) => IsDigitRun(number)
  }

  /** Length of the greedy `\d{1,2}` run starting at `i`: 0, 1 or 2. */
  function DigitRun(s: string, i: nat): (n: nat)
    requires i <= |s|
    ensures n <= 2 && i + n <= |s|
    ensures n > 0 ==> IsDigitRun(s[i..i + n])
    ensures n == 0 <==> i == |s| || !IsAsciiDigit(s[i])
    ensures n == 1 ==> i + 1 == |s| || !IsAsciiDigit(s[i + 1])
  {
    if i < |s| && IsAsciiDigit(s[i]) then
      if i + 1 < |s| && IsAsciiDigit(s[i + 1]) then 2 else 1
    else 0
  }

  /**
   The episode digit count when `[eE]\d{1,2}` follows the season digits ending
   just before `e`, or 0 when it does not.
   */
  function EpisodePart(s: string, e: nat): (n: nat)
    requires e <= |s|
    ensures n <= 2 && (n > 0 ==> e + 1 + n <= |s| && IsEpisodeMark(s[e]) && IsDigitRun(s[e + 1..e + 1 + n]))
  {
    if e < |s| && IsEpisodeMark(s[e]) then DigitRun(s, e + 1) else 0
  }

  /**
   `[sS](\d{1,2})[eE](\d{1,2})` anchored at `i`: the season greedily takes two
   digits and backs off to one if no episode part follows two.
   */
  function MatchSeasonEpisode(s: string, i: nat): (r: Option<Captures>)
    requires i < |s|
    ensures r.Some? ==> r.value.SeasonEpisode? && WellFormed(r.value)
  {
    if IsSeasonMark(s[i]) then
      var n := DigitRun(s, i + 1);
      if n == 2 && EpisodePart(s, i + 3) > 0 then
        Some(SeasonEpisode(s[i + 1..i + 3], s[i + 4..i + 4 + EpisodePart(s, i + 3)]))
      else if n >= 1 && EpisodePart(s, i + 2) > 0 then
        Some(SeasonEpisode(s[i + 1..i + 2], s[i + 3..i + 3 + EpisodePart(s, i + 2)]))
      else None
    else None
  }

  /** The captures of a match starting at `i`, the first alternative preferred. */
  function MatchAt(s: string, i: nat): (r: Option<Captures>)
    requires i < |s|
    ensures r.Some? ==> WellFormed(r.value)
    ensures r.Some? <==> IsAsciiDigit(s[i]) || MatchSeasonEpisode(s, i).Some?
  {
    var se := MatchSeasonEpisode(s, i);
    if se.Some? then se
    else
      var n := DigitRun(s, i);
      if n > 0 then Some(BareNumber(s[i..i + n])) else None
  }

  /** `format!("{:0>2}", d)` for a run of one or two digits. */
  function PadTwo(d: string): (r: string)
    requires 1 <= |d| <= 2
    ensures |r| == 2
    ensures |d| == 1 ==> r == ['0', d[0]]
    ensures |d| == 2 ==> r == d
  {
    if |d| == 1 then "0" + d else d
  }

  /** A two-character field made of ASCII digits. */
  predicate IsTwoDigits(t: string) {
    |t| == 2 && AllDigits(t)
  }

  lemma PadTwoDigits(d: string)
    requires IsDigitRun(d)
    ensures IsTwoDigits(PadTwo(d))
  {
    assert IsAsciiDigit(d[0]);
  }

  /** The result the function builds from the captures: both fields padded, season "01" for a bare number. */
  function Format(c: Captures): (r: EpisodeInfo)
    requires WellFormed(c)
    ensures IsTwoDigits(r.season) && IsTwoDigits(r.episode)
  {
    match c
    case SeasonEpisode(season, episode) =>
      PadTwoDigits(season);
      PadTwoDigits(episode);
      EpisodeInfo(PadTwo(season), PadTwo(episode))
    case BareNumber(number) =>
      PadTwoDigits(number);
      assert IsTwoDigits("01") by {
        assert forall k :: 0 <= k < 2 ==> "01"[k] in "01";
      }
      EpisodeInfo("01", PadTwo(number))
  }

  predicate HasDigitFrom(s: string, i: nat) {
    exists k :: i <= k < |s| && IsAsciiDigit(s[k])
  }

  /**
   The leftmost-first search from position `i` on: the captures of the
   earliest position where the pattern matches.
   */
  function ScanFrom(s: string, i: nat): (r: Option<Captures>)
    ensures r.Some? ==> WellFormed(r.value)
    ensures r.Some? <==> HasDigitFrom(s, i)
    decreases |s| - i
  {
    if i >= |s| then None
    else
      var m := MatchAt(s, i);
      if m.Some? then
        assert IsAsciiDigit(s[i]) || IsAsciiDigit(s[i + 1]);
        m
      else
        var r := ScanFrom(s, i + 1);
        assert HasDigitFrom(s, i) ==> HasDigitFrom(s, i + 1) by {
          if HasDigitFrom(s, i) {
            var k :| i <= k < |s| && IsAsciiDigit(s[k]);
            assert k != i;
          }
        }
        r
  }

  /** `extract_episode_info` in src/utils.rs. */
  function ExtractEpisodeInfo(fileName: string): (r: Option<EpisodeInfo>)
    ensures r.Some? ==> IsTwoDigits(r.value.season) && IsTwoDigits(r.value.episode)
    ensures r.None? <==> forall k :: 0 <= k < |fileName| ==> !IsAsciiDigit(fileName[k])
  {
    var caps := ScanFrom(fileName, 0);
    if caps.Some? then Some(Format(caps.value)) else None
  }

  /**
   Characters that can neither start a match nor be part of the next one are
   skipped: a stretch without digits, not ending in `s`/`S`, changes nothing.
   */
  lemma {:induction false} SkipNoDigits(s: string, i: nat, k: nat)
    requires i <= k <= |s|
    requires forall j :: i <= j < k ==> !IsAsciiDigit(s[j])
    requires k > i ==> !IsSeasonMark(s[k - 1])
    ensures ScanFrom(s, i) == ScanFrom(s, k)
    decreases k - i
  {
    if i < k {
      assert MatchAt(s, i).None? by {
        assert !IsAsciiDigit(s[i]);
        if i + 1 < k {
          assert !IsAsciiDigit(s[i + 1]);
        }
      }
      SkipNoDigits(s, i + 1, k);
    }
  }

  /** The scan returns the captures of the leftmost position where the pattern matches. */
  lemma {:induction false} ScanIsLeftmost(s: string, i: nat, k: nat)
    requires i <= k < |s|
    requires MatchAt(s, k).Some?
    requires forall j :: i <= j < k ==> MatchAt(s, j).None?
    ensures ScanFrom(s, i) == MatchAt(s, k)
    decreases k - i
  {
    if i < k {
      ScanIsLeftmost(s, i + 1, k);
    }
  }

  /**
   The first alternative fits at `i` with `a` season digits and `b` episode
   digits: `[sS]`, `a` digits, `[eE]`, `b` digits.
   */
  predicate SeasonEpisodeFits(s: string, i: nat, a: nat, b: nat) {
    1 <= a <= 2 && 1 <= b <= 2 && i + 2 + a + b <= |s| &&
    IsSeasonMark(s[i]) && AllDigits(s[i + 1..i + 1 + a]) &&
    IsEpisodeMark(s[i + 1 + a]) && AllDigits(s[i + 2 + a..i + 2 + a + b])
  }

  /** The third group fits at `i` with `n` digits. */
  predicate BareFits(s: string, i: nat, n: nat) {
    1 <= n <= 2 && i + n <= |s| && AllDigits(s[i..i + n])
  }

  /**
   The captures the regex crate reports for a match starting at `i`, stated
   without the scanner: the first alternative when it fits at all, with the
   greedy season count preferred over the greedy episode count; otherwise
   the longest bare run.
   */
  ghost predicate Chosen(s: string, i: nat, c: Captures) {
    match c
    case SeasonEpisode(season, episode) =>
      var a, b := |season|, |episode|;
      SeasonEpisodeFits(s, i, a, b) &&
      season == s[i + 1..i + 1 + a] && episode == s[i + 2 + a..i + 2 + a + b] &&
      forall a2: nat, b2: nat :: SeasonEpisodeFits(s, i, a2, b2) ==> a2 < a || (a2 == a && b2 <= b)
    case BareNumber(number) =>
      (forall a: nat, b: nat :: !SeasonEpisodeFits(s, i, a, b)) &&
      BareFits(s, i, |number|) && number == s[i..i + |number|] &&
      forall n: nat :: BareFits(s, i, n) ==> n <= |number|
  }

  /** A run of `n` digits at `j` is there exactly when the greedy run is at least `n` long. */
  lemma RunFits(s: string, j: nat, n: nat)
    requires j <= |s| && 1 <= n <= 2
    ensures (j + n <= |s| && AllDigits(s[j..j + n])) <==> DigitRun(s, j) >= n
  {
    if j + n <= |s| && AllDigits(s[j..j + n]) {
      assert IsAsciiDigit(s[j..j + n][0]);
      if n == 2 { assert IsAsciiDigit(s[j..j + n][1]); }
    }
  }

  /** The first alternative fits exactly when the greedy runs are long enough. */
  lemma SeasonEpisodeFitsByRuns(s: string, i: nat, a: nat, b: nat)
    requires i < |s| && 1 <= a <= 2 && 1 <= b <= 2
    ensures SeasonEpisodeFits(s, i, a, b) <==>
      IsSeasonMark(s[i]) && DigitRun(s, i + 1) >= a && EpisodePart(s, i + 1 + a) >= b
  {
    RunFits(s, i + 1, a);
    if i + 1 + a < |s| {
      RunFits(s, i + 2 + a, b);
    }
  }

  /** The first alternative's captures at `i`, when it fits, are the chosen ones. */
  lemma SeasonEpisodeChosen(s: string, i: nat)
    requires i < |s|
    ensures MatchSeasonEpisode(s, i).Some? ==> Chosen(s, i, MatchSeasonEpisode(s, i).value)
    ensures MatchSeasonEpisode(s, i).None? ==> forall a: nat, b: nat :: !SeasonEpisodeFits(s, i, a, b)
  {
    if MatchSeasonEpisode(s, i).None? {
      forall a: nat, b: nat ensures !SeasonEpisodeFits(s, i, a, b) {
        if 1 <= a <= 2 && 1 <= b <= 2 {
          SeasonEpisodeFitsByRuns(s, i, a, b);
        }
      }
    } else if DigitRun(s, i + 1) == 2 && EpisodePart(s, i + 3) > 0 {
      TwoSeasonDigitsChosen(s, i);
    } else {
      OneSeasonDigitChosen(s, i);
    }
  }

  /** Two season digits followed by an episode part: the greediest fit. */
  lemma TwoSeasonDigitsChosen(s: string, i: nat)
    requires i < |s| && IsSeasonMark(s[i])
    requires DigitRun(s, i + 1) == 2 && EpisodePart(s, i + 3) > 0
    ensures Chosen(s, i, SeasonEpisode(s[i + 1..i + 3], s[i + 4..i + 4 + EpisodePart(s, i + 3)]))
  {
    var b := EpisodePart(s, i + 3);
    assert |s[i + 1..i + 3]| == 2 && |s[i + 4..i + 4 + b]| == b;
    SeasonEpisodeFitsByRuns(s, i, 2, b);
    forall a2: nat, b2: nat | SeasonEpisodeFits(s, i, a2, b2) ensures a2 < 2 || (a2 == 2 && b2 <= b) {
      SeasonEpisodeFitsByRuns(s, i, a2, b2);
    }
  }

  /** The back-off: one season digit, when two leave no episode part. */
  lemma OneSeasonDigitChosen(s: string, i: nat)
    requires i < |s| && IsSeasonMark(s[i])
    requires !(DigitRun(s, i + 1) == 2 && EpisodePart(s, i + 3) > 0)
    requires DigitRun(s, i + 1) >= 1 && EpisodePart(s, i + 2) > 0
    ensures Chosen(s, i, SeasonEpisode(s[i + 1..i + 2], s[i + 3..i + 3 + EpisodePart(s, i + 2)]))
  {
    var b := EpisodePart(s, i + 2);
    assert |s[i + 1..i + 2]| == 1 && |s[i + 3..i + 3 + b]| == b;
    SeasonEpisodeFitsByRuns(s, i, 1, b);
    forall a2: nat, b2: nat | SeasonEpisodeFits(s, i, a2, b2) ensures a2 < 1 || (a2 == 1 && b2 <= b) {
      SeasonEpisodeFitsByRuns(s, i, a2, b2);
    }
  }

  /** The bare alternative's captures at `i`, when only it fits, are the chosen ones. */
  lemma BareChosen(s: string, i: nat)
    requires i < |s|
    requires forall a: nat, b: nat :: !SeasonEpisodeFits(s, i, a, b)
    ensures DigitRun(s, i) > 0 ==> Chosen(s, i, BareNumber(s[i..i + DigitRun(s, i)]))
    ensures DigitRun(s, i) == 0 ==> forall n: nat :: !BareFits(s, i, n)
  {
    RunFits(s, i, 1);
    RunFits(s, i, 2);
  }

  /** The regex semantics choose at most one set of captures at a position. */
  lemma ChosenUnique(s: string, i: nat, c: Captures, d: Captures)
    requires Chosen(s, i, c) && Chosen(s, i, d)
    ensures c == d
  {
    match c
    case SeasonEpisode(_, _) =>
      assert d.SeasonEpisode?;
    case BareNumber(_) =>
      assert d.BareNumber?;
  }

  /** Every match at `i` reports the captures the regex semantics choose, and no other. */
  lemma MatchAtCharacterized(s: string, i: nat, c: Captures)
    requires i < |s|
    ensures MatchAt(s, i) == Some(c) <==> Chosen(s, i, c)
    ensures MatchAt(s, i).None? <==>
      (forall a: nat, b: nat :: !SeasonEpisodeFits(s, i, a, b)) && forall n: nat :: !BareFits(s, i, n)
  {
    SeasonEpisodeChosen(s, i);
    if MatchSeasonEpisode(s, i).None? {
      BareChosen(s, i);
    }
    if MatchAt(s, i).Some? && Chosen(s, i, c) {
      ChosenUnique(s, i, c, MatchAt(s, i).value);
    }
  }

  /**
   `extract_episode_info` formats the captures chosen at the leftmost
   position where the pattern matches.
   */
  lemma ExtractEpisodeInfoCharacterized(s: string, k: nat, c: Captures)
    requires k < |s| && Chosen(s, k, c)
    requires forall j :: 0 <= j < k ==> MatchAt(s, j).None?
    ensures WellFormed(c)
    ensures ExtractEpisodeInfo(s) == Some(Format(c))
  {
    MatchAtCharacterized(s, k, c);
    ScanIsLeftmost(s, 0, k);
  }

  /** The digits around an `s`/`e` pair decide the captures; used to evaluate the examples below. */
  lemma MatchTwoTwo(s: string, i: nat)
    requires i + 6 <= |s|
    requires IsSeasonMark(s[i]) && IsAsciiDigit(s[i + 1]) && IsAsciiDigit(s[i + 2])
    requires IsEpisodeMark(s[i + 3]) && IsAsciiDigit(s[i + 4]) && IsAsciiDigit(s[i + 5])
    ensures MatchAt(s, i) == Some(SeasonEpisode(s[i + 1..i + 3], s[i + 4..i + 6]))
  {
  }

  lemma MatchOneTwo(s: string, i: nat)
    requires i + 5 <= |s|
    requires IsSeasonMark(s[i]) && IsAsciiDigit(s[i + 1]) && !IsAsciiDigit(s[i + 2])
    requires IsEpisodeMark(s[i + 2]) && IsAsciiDigit(s[i + 3]) && IsAsciiDigit(s[i + 4])
    ensures MatchAt(s, i) == Some(SeasonEpisode(s[i + 1..i + 2], s[i + 3..i + 5]))
  {
  }

  lemma MatchBareTwo(s: string, i: nat)
    requires i + 2 <= |s|
    requires IsAsciiDigit(s[i]) && IsAsciiDigit(s[i + 1])
    ensures MatchAt(s, i) == Some(BareNumber(s[i..i + 2]))
  {
  }

  /** The `S..E..` form yields both numbers, each padded to two digits. */
  lemma SeasonEpisodeExample()
    ensures ExtractEpisodeInfo("[Group] Show S02E05 [1080p].mkv") == Some(EpisodeInfo("02", "05"))
  {
    var a := "[Group] Show S02E05 [1080p].mkv";
    MatchTwoTwo(a, 13);
    assert a[14..16] == "02" && a[17..19] == "05";
    GroupPrefixHasNoDigit(a);
    SkipNoDigits(a, 0, 13);
  }

  lemma GroupPrefixHasNoDigit(a: string)
    requires a == "[Group] Show S02E05 [1080p].mkv"
    ensures forall j :: 0 <= j < 13 ==> !IsAsciiDigit(a[j])
  {
  }

  /** A one-digit season is padded. */
  lemma ShortSeasonExample()
    ensures ExtractEpisodeInfo("show_s3e12.avi") == Some(EpisodeInfo("03", "12"))
  {
    var b := "show_s3e12.avi";
    MatchOneTwo(b, 5);
    assert b[6..7] == "3" && b[8..10] == "12";
    SkipNoDigits(b, 0, 5);
  }

  /** An earlier bare number wins over a later `S..E..`. */
  lemma BareNumberFirstExample()
    ensures ExtractEpisodeInfo("Show 2024 S01E02") == Some(EpisodeInfo("01", "20"))
  {
    var a := "Show 2024 S01E02";
    MatchBareTwo(a, 5);
    assert a[5..7] == "20";
    SkipNoDigits(a, 0, 5);
  }

  /** A bare number takes at most two digits. */
  lemma BareNumberWidthExample()
    ensures ExtractEpisodeInfo("x_1080p") == Some(EpisodeInfo("01", "10"))
  {
    var b := "x_1080p";
    MatchBareTwo(b, 2);
    assert b[2..4] == "10";
    SkipNoDigits(b, 0, 2);
  }

  /** A name without digits yields nothing. */
  lemma NoDigitExample()
    ensures ExtractEpisodeInfo("random.mkv") == None
  {
    var a := "random.mkv";
    forall k | 0 <= k < |a|
      ensures !IsAsciiDigit(a[k])
    {
    }
  }

  /** A JSON field value as the decoder sees it: `null`, a string, or something else. */
  datatype JsonValue = Null | Str(text: string) | OtherJson

  /** `deserialize_null_string`: `null` becomes "", a string is kept, anything else is a decoding error. */
  function DeserializeNullString(v: JsonValue): (r: Result<string, string>)
    ensures r.Ok? <==> !v.OtherJson?
    ensures v.Null? ==> r == Ok("")
    ensures v.Str? ==> r == Ok(v.text)
  {
    match v
    case Null => Ok("")
    case Str(t) => Ok(t)
    case OtherJson => Err("invalid type: expected a string")
  }

  /** Two decodable values give the same field exactly when they are equal or are `null` and the empty string. */
  lemma NullIsEmptyString(v: JsonValue, w: JsonValue)
    requires !v.OtherJson? && !w.OtherJson?
    ensures DeserializeNullString(v) == DeserializeNullString(w) <==>
      v == w || (v == Null && w == Str("")) || (v == Str("") && w == Null)
  {
  }
}
