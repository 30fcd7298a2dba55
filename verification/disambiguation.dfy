/**
 Choosing one catalog candidate when a search returns several
 (`format_search_results`, `parse_choice` and `choose_from_results` in
 src/tmdb/mod.rs). The console is replaced by the list of lines the operator
 types and the text written back; each line is what `read_line` delivers,
 line break included.
 */
module Disambiguation {
  import opened Common
  import opened Text
  import opened Models

  const HEADER: string := "Multiple results found, please choose one:"
  const OUT_OF_RANGE: string := "Choice is out of range."
  const INVALID_INPUT: string := "Invalid input. Please enter a number."
  const UNKNOWN_DATE: string := "????"

  /** `char::is_whitespace`: the Unicode White_Space property. */
  predicate IsWhitespace(c: char) {
    || c == ' '
    || '\t' <= c <= '\r'
    || c == '\U{85}'
    || c == '\U{A0}'
    || c == '\U{1680}'
    || '\U{2000}' <= c <= '\U{200A}'
    || c == '\U{2028}'
    || c == '\U{2029}'
    || c == '\U{202F}'
    || c == '\U{205F}'
    || c == '\U{3000}'
  }

  lemma DigitIsNotWhitespace(c: char)
    requires IsAsciiDigit(c)
    ensures !IsWhitespace(c)
  {
  }

  /** A decimal rendering is its own trimmed form. */
  lemma TrimDecimal(n: nat, before: string, after: string)
    requires AllWhitespace(before) && AllWhitespace(after)
    ensures Trim(before + DecimalString(n) + after) == DecimalString(n)
  {
    var t := DecimalString(n);
    DigitIsNotWhitespace(t[0]);
    DigitIsNotWhitespace(t[|t| - 1]);
    TrimPadded(before, t, after);
  }

  lemma TrimDecimalBare(n: nat)
    ensures Trim(DecimalString(n)) == DecimalString(n)
  {
    TrimDecimal(n, "", "");
    assert "" + DecimalString(n) + "" == DecimalString(n);
  }

  predicate AllWhitespace(s: string) {
    forall i :: 0 <= i < |s| ==> IsWhitespace(s[i])
  }

  /** Slices of `s[1..]` in terms of slices of `s`. */
  lemma ShiftSlices(s: string, k: nat)
    requires k < |s|
    ensures s[1..][k..] == s[k + 1..]
    ensures s[..k + 1] == [s[0]] + s[1..][..k]
  {
  }

  lemma WhitespaceCons(c: char, w: string)
    requires IsWhitespace(c) && AllWhitespace(w)
    ensures AllWhitespace([c] + w)
  {
  }

  /** `str::trim_start`: drops the longest all-whitespace prefix. */
  function TrimStart(s: string): (t: string)
    ensures |t| <= |s| && t == s[|s| - |t|..]
    ensures AllWhitespace(s[..|s| - |t|])
    ensures |t| > 0 ==> !IsWhitespace(t[0])
  {
    if |s| > 0 && IsWhitespace(s[0]) then
      var t := TrimStart(s[1..]);
      ShiftSlices(s, |s| - 1 - |t|);
      WhitespaceCons(s[0], s[1..][..|s| - 1 - |t|]);
      t
    else s
  }

  /** `str::trim_end`: drops the longest all-whitespace suffix. */
  function TrimEnd(s: string): (t: string)
    ensures |t| <= |s| && t == s[..|t|]
    ensures AllWhitespace(s[|t|..])
    ensures |t| > 0 ==> !IsWhitespace(t[|t| - 1])
  {
    if |s| > 0 && IsWhitespace(s[|s| - 1]) then
      var t := TrimEnd(s[..|s| - 1]);
      assert s[|t|..] == s[..|s| - 1][|t|..] + [s[|s| - 1]];
      t
    else s
  }

  /** `str::trim` */
  function Trim(s: string): (t: string)
    ensures |t| <= |s|
    ensures |t| > 0 ==> !IsWhitespace(t[0]) && !IsWhitespace(t[|t| - 1])
    ensures |t| == 0 <==> AllWhitespace(s)
  {
    var u := TrimStart(s);
    var t := TrimEnd(u);
    assert |t| == 0 ==> AllWhitespace(s) by {
      if |t| == 0 {
        assert s == s[..|s| - |u|] + u;
        assert u[|t|..] == u;
      }
    }
    t
  }

  lemma {:induction false} TrimStartPadded(before: string, t: string)
    requires AllWhitespace(before)
    requires |t| > 0 && !IsWhitespace(t[0])
    ensures TrimStart(before + t) == t
    decreases |before|
  {
    if |before| > 0 {
      assert (before + t)[1..] == before[1..] + t;
      TrimStartPadded(before[1..], t);
    }
  }

  lemma {:induction false} TrimEndPadded(t: string, after: string)
    requires AllWhitespace(after)
    requires |t| > 0 && !IsWhitespace(t[|t| - 1])
    ensures TrimEnd(t + after) == t
    decreases |after|
  {
    if |after| > 0 {
      var a := after[..|after| - 1];
      assert (t + after)[..|t + after| - 1] == t + a;
      TrimEndPadded(t, a);
    }
  }

  /** Surrounding a piece that starts and ends with a non-space by whitespace is undone by `Trim`. */
  lemma TrimPadded(before: string, t: string, after: string)
    requires AllWhitespace(before) && AllWhitespace(after)
    requires |t| > 0 && !IsWhitespace(t[0]) && !IsWhitespace(t[|t| - 1])
    ensures Trim(before + t + after) == t
  {
    assert before + t + after == before + (t + after);
    TrimStartPadded(before, t + after);
    TrimEndPadded(t, after);
  }

  /**
   `str::parse::<usize>`: an optional leading `+`, then one or more ASCII
   digits whose value fits in 64 bits. Empty text, a lone `+`, a `-` sign, any
   other character and overflow are all errors.
   */
  function ParseUsize(s: string): (r: Option<usize>)
    ensures r.Some? ==> |s| >= 1 && (AllDigits(s) || (s[0] == '+' && AllDigits(s[1..])))
    ensures '-' in s ==> r.None?
    ensures var d := if |s| > 0 && s[0] == '+' then s[1..] else s;
      r.Some? <==> |d| > 0 && AllDigits(d) && DigitsValue(d) < USIZE_LIMIT
    ensures r.Some? ==> r.value == DigitsValue(if s[0] == '+' then s[1..] else s)
  {
    if |s| == 0 then None
    else
      var digits := if s[0] == '+' then s[1..] else s;
      if |digits| == 0 || !AllDigits(digits) then None
      else
        var v := DigitsValue(digits);
        if v < USIZE_LIMIT then Some(v) else None
  }

  /** Text Rust prints for a number parses back to that number. */
  lemma ParseUsizeDecimal(n: nat)
    requires n < USIZE_LIMIT
    ensures ParseUsize(DecimalString(n)) == Some(n)
  {
  }

  /**
   Rust also accepts text it would never print: leading zeros, and a `+` in
   front, as in "007" and "+3".
   */
  lemma ParseUsizeZerosAndSign(z: string, n: nat)
    requires forall k :: 0 <= k < |z| ==> z[k] == '0'
    requires n < USIZE_LIMIT
    ensures ParseUsize(z + DecimalString(n)) == Some(n)
    ensures ParseUsize("+" + z + DecimalString(n)) == Some(n)
  {
    var d := z + DecimalString(n);
    LeadingZeros(z, DecimalString(n));
    assert ("+" + d)[1..] == d;
    assert "+" + z + DecimalString(n) == "+" + d;
  }

  /** Text for a number beyond `usize` does not parse. */
  lemma ParseUsizeOverflow(n: nat)
    requires n >= USIZE_LIMIT
    ensures ParseUsize(DecimalString(n)) == None
  {
    var t := DecimalString(n);
    assert IsAsciiDigit(t[0]);
  }

  /** `parse_choice`: a 1-based index into the candidates, after trimming. */
  function ParseChoice(input: string, results: seq<Candidate>): (r: Result<u32, string>)
    ensures r.Ok? ==> exists i :: 0 <= i < |results| && r.value == results[i].id
    ensures r.Err? ==> r.error == OUT_OF_RANGE || r.error == INVALID_INPUT
    ensures |results| == 0 ==> r.Err?
  {
    match ParseUsize(Trim(input))
    case Some(choice) =>
      if choice > 0 && choice <= |results| then Ok(results[choice - 1].id)
      else Err(OUT_OF_RANGE)
    case None => Err(INVALID_INPUT)
  }

  /**
   A line is accepted exactly when its trimmed text is a number `n` with
   `1 <= n <= len`, and then the `n`-th candidate's id is returned; a number
   outside that range is "out of range", anything else is "invalid input", and
   with no candidates nothing is accepted.
   */
  lemma ParseChoiceCharacterized(input: string, results: seq<Candidate>)
    ensures var n := ParseUsize(Trim(input));
      ParseChoice(input, results).Ok? <==> n.Some? && 1 <= n.value <= |results|
    ensures var n := ParseUsize(Trim(input));
      n.Some? && 1 <= n.value <= |results| ==> ParseChoice(input, results) == Ok(results[n.value - 1].id)
    ensures var n := ParseUsize(Trim(input));
      n.Some? && !(1 <= n.value <= |results|) ==> ParseChoice(input, results) == Err(OUT_OF_RANGE)
    ensures ParseUsize(Trim(input)).None? ==> ParseChoice(input, results) == Err(INVALID_INPUT)
    ensures |results| == 0 ==> ParseChoice(input, results).Err?
  {
  }

  /**
   Typing the number shown in front of a candidate, with any surrounding
   whitespace (the line break `read_line` keeps included), selects exactly that
   candidate.
   */
  lemma ParseChoiceOfShownIndex(results: seq<Candidate>, i: nat, before: string, after: string)
    requires i < |results| < USIZE_LIMIT
    requires AllWhitespace(before) && AllWhitespace(after)
    ensures ParseChoice(before + DecimalString(i + 1) + after, results) == Ok(results[i].id)
  {
    PaddedDecimalParses(i + 1, before, after);
  }

  lemma PaddedDecimalParses(n: nat, before: string, after: string)
    requires n < USIZE_LIMIT
    requires AllWhitespace(before) && AllWhitespace(after)
    ensures ParseUsize(Trim(before + DecimalString(n) + after)) == Some(n)
  {
    TrimDecimal(n, before, after);
    ParseUsizeDecimal(n);
  }

  /** A well-formed number outside `1..=len` is out of range; `0` always is. */
  lemma ParseChoiceOutOfRange(results: seq<Candidate>, n: nat)
    requires n == 0 || |results| < n < USIZE_LIMIT
    ensures ParseChoice(DecimalString(n) + "\n", results) == Err(OUT_OF_RANGE)
  {
    var input := DecimalString(n) + "\n";
    assert ParseUsize(Trim(input)) == Some(n) by {
      TrimDecimal(n, "", "\n");
      assert "" + DecimalString(n) + "\n" == input;
      ParseUsizeDecimal(n);
    }
    ParseChoiceCharacterized(input, results);
  }

  /** A number too large for `usize` is reported as invalid input, not as out of range. */
  lemma ParseChoiceOverflow(results: seq<Candidate>, n: nat)
    requires n >= USIZE_LIMIT
    ensures ParseChoice(DecimalString(n), results) == Err(INVALID_INPUT)
  {
    assert ParseUsize(Trim(DecimalString(n))) == None by {
      TrimDecimalBare(n);
      ParseUsizeOverflow(n);
    }
    ParseChoiceCharacterized(DecimalString(n), results);
  }

  /** A signed number is never a valid choice. */
  lemma ParseChoiceRejectsMinus(results: seq<Candidate>, digits: string)
    requires AllDigits(digits)
    ensures ParseChoice("-" + digits, results) == Err(INVALID_INPUT)
  {
    MinusNeverParses("-" + digits);
  }

  /** Text starting with `-` does not parse as a `usize`, whatever follows. */
  lemma MinusNeverParses(s: string)
    requires |s| > 0 && s[0] == '-'
    ensures ParseUsize(Trim(s)) == None
  {
    assert TrimStart(s) == s;
    var t := TrimEnd(s);
    if |t| > 0 {
      assert t[0] == '-';
    }
  }

  /** The line shown for the candidate at 1-based position `index`. */
  function EntryLine(index: nat, show: Candidate): string {
    DecimalString(index) + ". " + show.name + " (" + show.firstAirDate.GetOr(UNKNOWN_DATE) + ")"
  }

  function Entries(results: seq<Candidate>): (lines: seq<string>)
    ensures |lines| == |results|
  {
    seq(|results|, i requires 0 <= i < |results| => EntryLine(i + 1, results[i]))
  }

  /** `format_search_results`: a header line, then one line per candidate, each line terminated. */
  function FormatSearchResults(results: seq<Candidate>): (r: string)
    ensures OccursAt(r, HEADER + "\n", 0)
    ensures r[|r| - 1] == '\n'
  {
    var parts := [HEADER] + Entries(results);
    assert Terminated(parts) == HEADER + "\n" + Terminated(parts[1..]);
    Terminated(parts)
  }

  /** No name or date of a candidate spans two lines. */
  ghost predicate SingleLineFields(results: seq<Candidate>) {
    forall i :: 0 <= i < |results| ==>
      '\n' !in results[i].name && '\n' !in results[i].firstAirDate.GetOr(UNKNOWN_DATE)
  }

  lemma HeaderIsSingleLine()
    ensures '\n' !in HEADER
  {
  }

  lemma EntryLineIsSingleLine(index: nat, show: Candidate)
    requires '\n' !in show.name && '\n' !in show.firstAirDate.GetOr(UNKNOWN_DATE)
    ensures '\n' !in EntryLine(index, show)
  {
    DecimalStringIsPlain(index);
  }

  lemma ListingLines(results: seq<Candidate>)
    requires SingleLineFields(results)
    ensures Lines(FormatSearchResults(results)) == [HEADER] + Entries(results) + [""]
  {
    var parts := [HEADER] + Entries(results);
    assert forall k :: 0 <= k < |parts| ==> '\n' !in parts[k] by {
      HeaderIsSingleLine();
      forall k | 0 < k < |parts|
        ensures '\n' !in parts[k]
      {
        EntryLineIsSingleLine(k, results[k - 1]);
      }
    }
    LinesOfTerminated(parts, "");
    assert Terminated(parts) + "" == Terminated(parts);
  }

  /**
   Read line by line, the listing is the header, then for the i-th candidate
   (from 1) exactly `i. name (date)` with `????` for a missing date, in order,
   then nothing after the last line break.
   */
  lemma FormatSearchResultsLines(results: seq<Candidate>)
    requires SingleLineFields(results)
    ensures |Lines(FormatSearchResults(results))| == |results| + 2
    ensures Lines(FormatSearchResults(results))[0] == HEADER
    ensures forall i :: 0 <= i < |results| ==>
      Lines(FormatSearchResults(results))[i + 1] ==
        DecimalString(i + 1) + ". " + results[i].name + " (" + results[i].firstAirDate.GetOr("????") + ")"
    ensures Lines(FormatSearchResults(results))[|results| + 1] == ""
  {
    var entries := Entries(results);
    var lines := Lines(FormatSearchResults(results));
    ListingLines(results);
    assert lines == [HEADER] + entries + [""];
    forall i | 0 <= i < |results|
      ensures lines[i + 1] == EntryLine(i + 1, results[i])
    {
      assert lines[i + 1] == entries[i];
    }
  }

  /** What the prompt loop did: the id chosen (if a line was accepted), the text written, and how many lines it rejected. */
  datatype Session = Session(choice: Option<u32>, output: string, rejected: nat)

  function Prompt(count: nat): string {
    "Enter number (1-" + DecimalString(count) + "): "
  }

  /** `parse_choice`'s verdict on each line, in input order. */
  function Verdicts(results: seq<Candidate>, lines: seq<string>): (v: seq<Result<u32, string>>)
    ensures |v| == |lines|
    ensures forall k :: 0 <= k < |lines| ==> v[k] == ParseChoice(lines[k], results)
  {
    seq(|lines|, k requires 0 <= k < |lines| => ParseChoice(lines[k], results))
  }

  /** The text written for verdicts that were all rejections: a prompt, the message and a line break each. */
  function Transcript(prompt: string, verdicts: seq<Result<u32, string>>): string {
    if |verdicts| == 0 then ""
    else
      prompt + (if verdicts[0].Err? then verdicts[0].error else "") + "\n" + Transcript(prompt, verdicts[1..])
  }

  lemma TranscriptStep(prompt: string, verdicts: seq<Result<u32, string>>, n: nat)
    requires n < |verdicts| && verdicts[0].Err?
    ensures prompt + verdicts[0].error + "\n" + (Transcript(prompt, verdicts[1..][..n]) + prompt)
      == Transcript(prompt, verdicts[..n + 1]) + prompt
  {
    assert verdicts[..n + 1][1..] == verdicts[1..][..n];
    var t := Transcript(prompt, verdicts[1..][..n]);
    var line := prompt + verdicts[0].error + "\n";
    assert Transcript(prompt, verdicts[..n + 1]) == line + t;
    AppendAssoc(line, t, prompt);
  }

  /**
   The `loop` of `choose_from_results`, driven by the verdicts on the lines
   read: write the prompt, stop on an accepted line, otherwise write the
   message and a line break. When the lines run out the loop has just written
   a prompt; the program would then read end-of-file (an empty line) and repeat
   the rejection forever.
   */
  function PromptLoop(prompt: string, verdicts: seq<Result<u32, string>>): (s: Session)
    ensures s.rejected <= |verdicts|
    ensures s.choice.Some? ==> s.rejected < |verdicts| && verdicts[s.rejected] == Ok(s.choice.value)
    ensures s.choice.None? ==> s.rejected == |verdicts|
    ensures forall k :: 0 <= k < s.rejected ==> verdicts[k].Err?
    ensures s.output == Transcript(prompt, verdicts[..s.rejected]) + prompt
  {
    if |verdicts| == 0 then Session(None, prompt, 0)
    else if verdicts[0].Ok? then
      assert verdicts[..0] == [];
      Session(Some(verdicts[0].value), prompt, 0)
    else
      var rest := PromptLoop(prompt, verdicts[1..]);
      var n := rest.rejected;
      assert forall k :: 1 <= k < |verdicts| ==> verdicts[k] == verdicts[1..][k - 1];
      TranscriptStep(prompt, verdicts, n);
      Session(rest.choice, prompt + verdicts[0].error + "\n" + rest.output, n + 1)
  }

  /**
   `choose_from_results`: the listing and a blank line, then prompts until
   the first line that `parse_choice` accepts, whose id is returned. Every
   earlier line was rejected and answered with its message and a new prompt.
   */
  function ChooseFromResults(results: seq<Candidate>, lines: seq<string>): (s: Session)
    ensures s.choice.Some? <==> exists k :: 0 <= k < |lines| && ParseChoice(lines[k], results).Ok?
    ensures s.choice.Some? ==>
      s.rejected < |lines| && ParseChoice(lines[s.rejected], results) == Ok(s.choice.value)
    ensures s.choice.None? ==> s.rejected == |lines|
    ensures forall k :: 0 <= k < s.rejected ==> ParseChoice(lines[k], results).Err?
    ensures var prompt := Prompt(|results|);
      s.output == FormatSearchResults(results) + "\n"
        + Transcript(prompt, Verdicts(results, lines)[..s.rejected]) + prompt
  {
    var prompt := Prompt(|results|);
    var verdicts := Verdicts(results, lines);
    var loop := PromptLoop(prompt, verdicts);
    var listing := FormatSearchResults(results) + "\n";
    AppendAssoc(listing, Transcript(prompt, verdicts[..loop.rejected]), prompt);
    Session(loop.choice, listing + loop.output, loop.rejected)
  }

  /** Even a single candidate is not chosen without an accepted input line. */
  lemma NoAutoSelection(results: seq<Candidate>)
    ensures ChooseFromResults(results, []).choice == None
    ensures ChooseFromResults(results, []).output == FormatSearchResults(results) + "\n" + Prompt(|results|)
  {
    var none: seq<string> := [];
    assert none[..0] == [];
  }

  /** With no candidates every line is rejected, so the loop never returns an id. */
  lemma EmptyResultsNeverChoose(lines: seq<string>)
    ensures ChooseFromResults([], lines).choice == None
  {
  }

  lemma {:induction false} PromptLoopStopsAtChoice(prompt: string, v: seq<Result<u32, string>>, w: seq<Result<u32, string>>)
    requires PromptLoop(prompt, v).choice.Some?
    ensures PromptLoop(prompt, v + w) == PromptLoop(prompt, v)
  {
    assert (v + w)[0] == v[0];
    if v[0].Err? {
      assert (v + w)[1..] == v[1..] + w;
      PromptLoopStopsAtChoice(prompt, v[1..], w);
    }
  }

  lemma VerdictsAppend(results: seq<Candidate>, lines: seq<string>, more: seq<string>)
    ensures Verdicts(results, lines + more) == Verdicts(results, lines) + Verdicts(results, more)
  {
    var a := Verdicts(results, lines + more);
    var b := Verdicts(results, lines) + Verdicts(results, more);
    assert |a| == |b|;
    forall k | 0 <= k < |a|
      ensures a[k] == b[k]
    {
      if k < |lines| {
        assert (lines + more)[k] == lines[k];
      } else {
        assert (lines + more)[k] == more[k - |lines|];
      }
    }
  }

  /** A choice is made on the first accepted line; lines typed after it change nothing. */
  lemma ChoiceIgnoresLaterLines(results: seq<Candidate>, lines: seq<string>, more: seq<string>)
    requires ChooseFromResults(results, lines).choice.Some?
    ensures ChooseFromResults(results, lines + more) == ChooseFromResults(results, lines)
  {
    var v := Verdicts(results, lines);
    var w := Verdicts(results, more);
    VerdictsAppend(results, lines, more);
    PromptLoopStopsAtChoice(Prompt(|results|), v, w);
  }
}
