/**
 `create_tv_show_nfo` (src/file/nfo.rs, and its identical copy in
 src/tmdb/nfo.rs): the Kodi-style `tvshow.nfo` document for a resolved show.

 The document is a fixed eleven-line template joined with line breaks and no
 final line break. Values are inserted verbatim, without XML escaping. The
 genre elements are joined with line breaks into the tenth line, so only the
 first of them carries the template's indentation.
 */
module Nfo {
  import opened Common
  import opened Text
  import opened Models

  /** The XML declaration, split so that each piece is visibly free of line breaks. */
  const DECLARATION: string := "<?xml version=\"1.0\"" + " encoding=\"utf-8\"" + " standalone=\"yes\"?>"
  const OPEN_SHOW: string := "<tvshow>"
  const CLOSE_SHOW: string := "</tvshow>"
  const INDENT: string := "    "
  const UNKNOWN_YEAR: string := "????"

  /** `<tag>value</tag>`, the value as given. */
  function Element(tag: string, value: string): string {
    "<" + tag + ">" + value + "</" + tag + ">"
  }

  function UniqueId(id: string): string {
    "<uniqueid type=\"tmdb\">" + id + "</uniqueid>"
  }

  function GenreTags(genres: seq<Genre>): (r: seq<string>)
    ensures |r| == |genres|
    ensures forall i :: 0 <= i < |r| ==> r[i] == Element("genre", genres[i].name)
  {
    seq(|genres|, i requires 0 <= i < |genres| => Element("genre", genres[i].name))
  }

  /**
   The `<year>` value: the first air date up to its first `-` (all of it when
   there is none), or `????` when the show has no date.
   */
  function Year(date: Option<string>): (y: string)
    ensures date.None? ==> y == UNKNOWN_YEAR
    ensures date.Some? ==> y <= date.value && '-' !in y
    ensures date.Some? && |y| < |date.value| ==> date.value[|y|] == '-'
  {
    match date
    case None => UNKNOWN_YEAR
    case Some(d) => if '-' in d then d[..FirstIndex(d, '-')] else d
  }

  /** The `<premiered>` value: the date as given, or nothing. */
  function Premiered(date: Option<string>): (p: string)
    ensures date.Some? ==> p == date.value
    ensures date.None? ==> p == ""
  {
    date.GetOr("")
  }

  /** The lines of the template, with the values filled in. */
  function NfoLines(show: TvShowDetails): (r: seq<string>)
    ensures |r| == 11
    ensures r[0] == DECLARATION && r[1] == OPEN_SHOW && r[10] == CLOSE_SHOW
  {
    var id := DecimalString(show.id);
    [ DECLARATION,
      OPEN_SHOW,
      INDENT + Element("title", show.name),
      INDENT + Element("plot", show.overview),
      INDENT + Element("year", Year(show.firstAirDate)),
      INDENT + Element("premiered", Premiered(show.firstAirDate)),
      INDENT + Element("rating", show.voteAverage),
      INDENT + Element("tmdbid", id),
      INDENT + UniqueId(id),
      INDENT + Join(GenreTags(show.genres), "\n"),
      CLOSE_SHOW ]
  }

  /** `create_tv_show_nfo`: starts with the XML declaration and the opening tag, ends with the closing tag. */
  function CreateTvShowNfo(show: TvShowDetails): (r: string)
    ensures DECLARATION + "\n" + OPEN_SHOW + "\n" <= r
    ensures |r| >= |CLOSE_SHOW| + 1 && r[|r| - |CLOSE_SHOW| - 1..] == "\n" + CLOSE_SHOW
  {
    var lines := NfoLines(show);
    JoinStartsWith(lines, "\n");
    JoinEndsWith(lines, "\n");
    Join(lines, "\n")
  }

  /** An indented template line puts its element into the document. */
  lemma IndentedLine(show: TvShowDetails, k: nat, element: string)
    requires k < 11 && NfoLines(show)[k] == INDENT + element
    ensures Contains(CreateTvShowNfo(show), element)
  {
    var lines := NfoLines(show);
    JoinContainsPart(lines, "\n", k);
    ContainsMiddle(INDENT, element, "");
    assert INDENT + element + "" == lines[k];
    ContainsTransitive(CreateTvShowNfo(show), lines[k], element);
  }

  /** Every field appears, verbatim, in its own element; the id appears twice. */
  lemma NfoFields(show: TvShowDetails)
    ensures var nfo := CreateTvShowNfo(show);
      Contains(nfo, Element("title", show.name)) &&
      Contains(nfo, Element("plot", show.overview)) &&
      Contains(nfo, Element("year", Year(show.firstAirDate))) &&
      Contains(nfo, Element("premiered", Premiered(show.firstAirDate))) &&
      Contains(nfo, Element("rating", show.voteAverage)) &&
      Contains(nfo, Element("tmdbid", DecimalString(show.id))) &&
      Contains(nfo, UniqueId(DecimalString(show.id)))
  {
    var id := DecimalString(show.id);
    IndentedLine(show, 2, Element("title", show.name));
    IndentedLine(show, 3, Element("plot", show.overview));
    IndentedLine(show, 4, Element("year", Year(show.firstAirDate)));
    IndentedLine(show, 5, Element("premiered", Premiered(show.firstAirDate)));
    IndentedLine(show, 6, Element("rating", show.voteAverage));
    IndentedLine(show, 7, Element("tmdbid", id));
    IndentedLine(show, 8, UniqueId(id));
  }

  /** Every genre appears as its own `<genre>` element. */
  lemma NfoGenres(show: TvShowDetails, i: nat)
    requires i < |show.genres|
    ensures Contains(CreateTvShowNfo(show), Element("genre", show.genres[i].name))
  {
    var tags := GenreTags(show.genres);
    var block := Join(tags, "\n");
    IndentedLine(show, 9, block);
    JoinContainsPart(tags, "\n", i);
    ContainsTransitive(CreateTvShowNfo(show), block, tags[i]);
  }

  /**
   The year is the only prefix of the date that has no `-` and is followed by
   a `-` or by nothing.
   */
  lemma YearCharacterized(date: string, y: string)
    ensures Year(Some(date)) == y <==> y <= date && '-' !in y && (|y| == |date| || date[|y|] == '-')
  {
    var z := Year(Some(date));
    if y <= date && '-' !in y && (|y| == |date| || date[|y|] == '-') {
      assert forall j :: 0 <= j < |y| ==> date[j] == y[j] != '-';
      assert forall j :: 0 <= j < |z| ==> date[j] == z[j] != '-';
      assert |y| == |z|;
      assert y == date[..|y|] && z == date[..|z|];
    }
  }

  /** A date of the form `y-rest` with no `-` in `y` has year `y`. */
  lemma YearBeforeDash(y: string, rest: string)
    requires '-' !in y
    ensures Year(Some(y + "-" + rest)) == y
  {
    var d := y + "-" + rest;
    assert d[..|y|] == y;
    YearCharacterized(d, y);
  }

  /** An empty date gives an empty year, not `????`, and an empty premiere date. */
  lemma EmptyAirDate(show: TvShowDetails)
    requires show.firstAirDate == Some("")
    ensures Contains(CreateTvShowNfo(show), Element("year", ""))
    ensures Contains(CreateTvShowNfo(show), Element("premiered", ""))
  {
    NfoFields(show);
  }

  predicate SingleLine(s: string) {
    '\n' !in s
  }

  /** Lines split off a joined block, the first of them indented. */
  function IndentFirst(parts: seq<string>): seq<string> {
    if |parts| == 0 then [INDENT] else [INDENT + parts[0]] + parts[1..]
  }

  /** The genre lines: the first indented, the others flush left, one indented blank line when there is no genre. */
  function GenreLines(genres: seq<Genre>): seq<string> {
    IndentFirst(GenreTags(genres))
  }

  lemma DeclarationSingleLine()
    ensures SingleLine(DECLARATION)
  {
  }

  lemma ElementSingleLine(tag: string, value: string)
    requires SingleLine(tag) && SingleLine(value)
    ensures SingleLine(INDENT + Element(tag, value))
  {
  }

  /** Without line breaks in the values, each of the nine head lines is one line. */
  lemma HeadSingleLine(show: TvShowDetails)
    requires SingleLine(show.name) && SingleLine(show.overview) && SingleLine(show.voteAverage)
    requires show.firstAirDate.Some? ==> SingleLine(show.firstAirDate.value)
    ensures forall k :: 0 <= k < 9 ==> SingleLine(NfoLines(show)[k])
  {
    var lines := NfoLines(show);
    var id := DecimalString(show.id);
    var year := Year(show.firstAirDate);
    DecimalStringIsPlain(show.id);
    DeclarationSingleLine();
    assert SingleLine(year) by {
      if show.firstAirDate.Some? {
        assert forall j :: 0 <= j < |year| ==> year[j] == show.firstAirDate.value[j];
      }
    }
    ElementSingleLine("title", show.name);
    ElementSingleLine("plot", show.overview);
    ElementSingleLine("year", year);
    ElementSingleLine("premiered", Premiered(show.firstAirDate));
    ElementSingleLine("rating", show.voteAverage);
    ElementSingleLine("tmdbid", id);
  }

  /**
   The shape of the template: single-line head lines, then a block of
   single-line parts joined with line breaks behind the indentation, then the
   closing line.
   */
  lemma {:induction false} TemplateLines(head: seq<string>, parts: seq<string>, close: string)
    requires 1 <= |head|
    requires forall k :: 0 <= k < |head| ==> SingleLine(head[k])
    requires forall k :: 0 <= k < |parts| ==> SingleLine(parts[k])
    requires SingleLine(close)
    ensures Lines(Join(head + [INDENT + Join(parts, "\n"), close], "\n")) == head + IndentFirst(parts) + [close]
  {
    var block := INDENT + Join(parts, "\n");
    calc {
      Lines(Join(head + [block, close], "\n"));
      { JoinAppend(head, [block, close], "\n"); }
      Lines(Join(head, "\n") + "\n" + (block + "\n" + close));
      { LinesAppend(Join(head, "\n"), block + "\n" + close); }
      Lines(Join(head, "\n")) + Lines(block + "\n" + close);
      { LinesOfJoin(head); LinesAppend(block, close); }
      head + (Lines(block) + [close]);
      { BlockLines(parts); }
      head + IndentFirst(parts) + [close];
    }
  }

  /** The joined block behind the indentation splits into the indented first part and the others. */
  lemma BlockLines(parts: seq<string>)
    requires forall k :: 0 <= k < |parts| ==> SingleLine(parts[k])
    ensures Lines(INDENT + Join(parts, "\n")) == IndentFirst(parts)
  {
    if |parts| == 0 {
      assert INDENT + Join(parts, "\n") == INDENT;
      assert SingleLine(INDENT);
    } else {
      LinesOfPrefixedJoin(INDENT, parts);
    }
  }

  /**
   When no value holds a line break, the document's lines are the template's
   nine head lines, the genre lines and the closing tag, in that order.
   */
  lemma NfoLayout(show: TvShowDetails)
    requires SingleLine(show.name) && SingleLine(show.overview) && SingleLine(show.voteAverage)
    requires show.firstAirDate.Some? ==> SingleLine(show.firstAirDate.value)
    requires forall i :: 0 <= i < |show.genres| ==> SingleLine(show.genres[i].name)
    ensures Lines(CreateTvShowNfo(show)) == NfoLines(show)[..9] + GenreLines(show.genres) + [CLOSE_SHOW]
  {
    var lines := NfoLines(show);
    var tags := GenreTags(show.genres);
    HeadSingleLine(show);
    assert forall k :: 0 <= k < |tags| ==> SingleLine(tags[k]) by {
      forall k | 0 <= k < |tags|
        ensures SingleLine(tags[k])
      {
        ElementSingleLine("genre", show.genres[k].name);
        assert INDENT + tags[k] == INDENT + Element("genre", show.genres[k].name);
      }
    }
    assert lines == lines[..9] + [INDENT + Join(tags, "\n"), CLOSE_SHOW];
    TemplateLines(lines[..9], tags, CLOSE_SHOW);
  }

  /** The rendering of the id in the source's first example. */
  lemma Decimal1399()
    ensures DecimalString(1399) == "1399"
  {
    assert DecimalString(1) == "1";
    assert DecimalString(13) == "13";
    assert DecimalString(139) == "139";
  }

  /** First example (first aired `2011-04-17`): the year is the date cut at its first `-`. */
  lemma CompleteDataYear(show: TvShowDetails)
    requires show.firstAirDate == Some("2011-04-17")
    ensures Contains(CreateTvShowNfo(show), Element("year", "2011"))
  {
    Year2011();
    IndentedLine(show, 4, Element("year", "2011"));
  }

  /** The year of the first example's air date. */
  lemma Year2011()
    ensures Year(Some("2011-04-17")) == "2011"
  {
    YearBeforeDash("2011", "04-17");
    assert "2011" + "-" + "04-17" == "2011-04-17";
  }

  /** First example: the premiere date is the whole date. */
  lemma CompleteDataPremiered(show: TvShowDetails)
    requires show.firstAirDate == Some("2011-04-17")
    ensures Contains(CreateTvShowNfo(show), Element("premiered", "2011-04-17"))
  {
    IndentedLine(show, 5, Element("premiered", "2011-04-17"));
  }

  /** First example (id 1399): the id appears in both id elements. */
  lemma CompleteDataIds(show: TvShowDetails)
    requires show.id == 1399
    ensures Contains(CreateTvShowNfo(show), Element("tmdbid", "1399"))
    ensures Contains(CreateTvShowNfo(show), UniqueId("1399"))
  {
    Decimal1399();
    IndentedLine(show, 7, Element("tmdbid", "1399"));
    IndentedLine(show, 8, UniqueId("1399"));
  }

  /** First example (genres Sci-Fi and Fantasy): both genre elements appear. */
  lemma CompleteDataGenres(show: TvShowDetails)
    requires show.genres == [Genre("Sci-Fi"), Genre("Fantasy")]
    ensures Contains(CreateTvShowNfo(show), Element("genre", "Sci-Fi"))
    ensures Contains(CreateTvShowNfo(show), Element("genre", "Fantasy"))
  {
    NfoGenres(show, 0);
    NfoGenres(show, 1);
  }

  /** Second example: without an air date the year is `????` and the premiere date empty. */
  lemma MissingAirDateExample(show: TvShowDetails)
    requires show.firstAirDate.None?
    ensures Contains(CreateTvShowNfo(show), Element("year", "????"))
    ensures Contains(CreateTvShowNfo(show), Element("premiered", ""))
  {
    IndentedLine(show, 4, Element("year", "????"));
    IndentedLine(show, 5, Element("premiered", ""));
  }
}
