# ani-archiver core, modelled in Dafny

This project models the decision logic of ani-archiver. ani-archiver is a
command-line tool that files anime episodes into a media library. For each show
directory the tool does the following:

- it looks the show up in The Movie Database (TMDB), retrying failed requests
  and fetching the extra result pages concurrently;
- if the search returns several candidates, it asks the operator to pick one;
- it recognises season and episode numbers in file names, either with
  per-subtitle-group rules or with a generic pattern;
- it hard-links each video into the library as `"{show} S{ss}E{ee}.{ext}"`;
- it writes a Kodi `tvshow.nfo` document;
- it keeps a marker file, and a set-based cache, so that a show whose files are
  unchanged is not processed again.

Every operation is a pure function over immutable data. The following stand in
for the outside world:

- **Network:** a sequence of responses.
- **Timer:** the list of delays slept.
- **Console:** the lines the operator types, and the text written back.
- **Filesystem:** a map from paths to nodes.
- **Task completion order:** a permutation given as a parameter.
- **`HashMap` iteration order:** a permutation given as a parameter.

| file | module | models |
|---|---|---|
| common.dfy | `Common` | `Option`, `Result`, `u32`, `usize` |
| text.dfy | `Text` | ASCII digits, decimal rendering, `str::contains`, `split('\n')`, `join` |
| ordering.dfy | `Ordering` | `Ord for String` and `Vec::sort` |
| models.dfy | `Models` | record shapes of src/tmdb/models.rs and src/file/models.rs |
| retry.dfy | `Retry` | `fetch_page_with_retry` and its copy `fetch_multi_page_with_retry` |
| search.dfy | `Search` | `check_tmdb_id`; the page fan-out and merge of `query_tmdb_id` |
| disambiguation.dfy | `Disambiguation` | `format_search_results`, `parse_choice`, `choose_from_results` |
| utils.dfy | `Utils` | the generic `extract_episode_info`; `deserialize_null_string` |
| rules.dfy | `RuleParser` | the subtitle-group rule engine of src/regex_parser.rs |
| fs.dfy | `FileSystem` | the `std::fs` calls the archiver makes |
| marker.dfy | `Marker` | `write_marker` and `check_processed` |
| cache.dfy | `SetCache` | `Cache::new`, `write_cache`, `check_cache` |
| organize.dfy | `Organize` | `organize_files` |
| nfo.dfy | `Nfo` | `create_tv_show_nfo` |

## Behaviour worth knowing

The model keeps each of these behaviours of the code:

- **Pages fetched by `query_tmdb_id`** (src/tmdb/mod.rs:68-78):
  - The first request is for page 0.
  - Spawned tasks fetch pages `2..total_pages`, so page 1 is never requested by number, and neither is page `total_pages` when it is positive.
  - The page number never reaches the query string anyway (src/tmdb/mod.rs:137).
  - So `max(1, total_pages - 1)` requests are made.
- **Search results:**
  - An empty result list is passed to the prompt like any other (src/tmdb/mod.rs:80-94); no line can then be accepted.
  - `choose_from_results` always prompts, even for a single candidate (src/tmdb/mod.rs:198-220).
- **Retry delays:** the loop sleeps before every attempt, the first one included, because its guard `attempt > 0` always holds for `attempt` in `1..=3` (src/tmdb/mod.rs:126-134).
- **Rule engine:** `extract_episode_info` in src/regex_parser.rs returns `None` when no group whose name occurs decides (src/regex_parser.rs:66-89); it never calls the generic parser of src/utils.rs.
- **`check_cache`:** compares the cache's id with itself, so the stored id never matters (src/cache/mod.rs:43).
- **`check_processed`** (src/file/cache.rs:19-22):
  - It sorts only the stored hashes.
  - A current list that is not sorted never matches, not even the list that was just written.
- **A video that is its own link target** (src/file/mod.rs:46-52): `remove_file` deletes the only copy, and `hard_link` then fails with `NotFound`.
- **Air dates:** the test named for an empty air date builds a show with no date (src/file/nfo.rs:98-115). With `Some("")`, the year is empty, not `????` (src/file/nfo.rs:12-16).
- **`create_tv_show_nfo` copies:** src/tmdb/nfo.rs:3-39 is the same text as src/file/nfo.rs:3-39, so one definition models both.

## Model

| member | source | states |
|---|---|---|
| Retry.Loop | src/tmdb/mod.rs:126-162 | From a given attempt on, the loop never goes past attempt 3. It sleeps `500·2^(k-1)` ms before attempt k. Every response before the last one was retryable. The last response decides the result, unless it too was retryable, in which case the result is `MaxRetriesExceeded(3)` after the third attempt. |
| Retry.FetchPageWithRetry | src/tmdb/mod.rs:113-163 | 1 to 3 requests, one sleep before each: 500, 1000, 2000 ms. The first response that is not retryable decides the result. Only retryable responses came before it. |
| Retry.OkReturnsImmediately | src/tmdb/mod.rs:139-142 | A first response of 200 with a decodable body gives `Ok(page)` after one request and one 500 ms sleep. |
| Retry.DecodeFailureIsNotRetried | src/tmdb/mod.rs:141-142 | A 200 whose body does not decode fails at once with a transport/decoding error. |
| Retry.UnrecoverableStatusStops | src/tmdb/mod.rs:151-154 | After k retryable responses, a status that is not 200, 429 or 5xx ends the loop with `UnrecoverableStatus(status)` after k+1 requests. |
| Retry.RetryableOutcomesExhaust | src/tmdb/mod.rs:143-162 | Three 429/5xx/transport outcomes give `MaxRetriesExceeded(3)` after three requests and sleeps of 500, 1000 and 2000 ms. |
| Retry.Classify | src/tmdb/mod.rs:138-160 | A response leads to another attempt exactly when it is a transport failure or a 429/5xx status. A 200 finishes with its decoded page, or with a transport/decoding error when the body does not decode. Any other status that is not retryable finishes with `UnrecoverableStatus` carrying that status. |
| Retry.FetchMultiPageWithRetry | src/tmdb/api.rs:6-56 | The loop of src/tmdb/api.rs, written imperatively. For every response sequence it returns the same result, request count and delays as `fetch_page_with_retry`. |
| Search.SpawnedPages | src/tmdb/mod.rs:69-78 | The spawned page numbers are exactly `2 <= p < total_pages`, in increasing order, and there are none unless `total_pages > 1`. |
| Search.RequestedPagesCount | src/tmdb/mod.rs:68-78 | `max(1, total_pages - 1)` pages are fetched. Page 0 is always fetched and page 1 never is. When `total_pages > 0`, page `total_pages` is never fetched either. |
| Search.MergePages | src/tmdb/mod.rs:80-89 | A successful merge keeps the first page's other fields. Its results start with the first page's results. As a multiset, they are the first page's results plus those of every task whose fetch joined successfully. |
| Search.MergeFailure | src/tmdb/mod.rs:80-89 | The merge fails exactly when some task's fetch returned an error, and then it fails with the error of one of those tasks. A failed join is only skipped. |
| Search.MergeFailsAtFirst | src/tmdb/mod.rs:80-83 | The error returned is that of the first task, in completion order, whose fetch failed, since `page?` returns at once. |
| Search.MergeOrderIrrelevant | src/tmdb/mod.rs:80-89 | Any two completion orders of the same tasks fail in the same cases and otherwise merge the same multiset of candidates. |
| Search.QueryTmdbId | src/tmdb/mod.rs:59-95 | A first-fetch error, or the error of a failed page merge, is returned with no output. When the merge succeeds there is no fetch failure: the output is that of `choose_from_results` over all merged candidates, and the id is chosen exactly when it chooses one, the same id. A chosen id comes from a line `parse_choice` accepts over the merged candidates. If the input runs out, every line was rejected. |
| Search.SinglePageQuery | src/tmdb/mod.rs:68-79 | With `total_pages <= 2` nothing is spawned, and the prompt offers the first page's candidates. |
| Search.CheckTmdbId | src/tmdb/mod.rs:52-57 | An id is usable exactly when it is not 0, the value that stands for no known id. |
| Marker.UsableIdOnlyWhenUnchanged | src/tmdb/mod.rs:52-57 | `check_tmdb_id` accepts only non-zero ids. So the id `check_processed` returns passes it only when the files are unchanged; the default 0 never does. |
| Disambiguation.ListingLines | src/tmdb/mod.rs:166-178 | When no name or date holds a line break, the listing's lines are the header, one entry per candidate, and an empty last piece after the final line break. |
| Disambiguation.FormatSearchResults | src/tmdb/mod.rs:166-178 | The listing starts with the header line and ends with a line break. |
| Disambiguation.FormatSearchResultsLines | src/tmdb/mod.rs:166-178 | When no name or date holds a line break, the listing has two lines more than there are candidates: the header line, then line i+1 is `"{i+1}. {name} ({date or ????})"` for candidate i, in order. |
| Disambiguation.Trim | src/tmdb/mod.rs:183 | `trim` never lengthens its input. A non-empty result neither starts nor ends with whitespace. The result is empty exactly when the input is all whitespace. |
| Disambiguation.TrimPadded | src/tmdb/mod.rs:183 | `trim` removes exactly the leading and trailing Unicode whitespace around a text that neither starts nor ends with whitespace. |
| Disambiguation.ParseUsize | src/tmdb/mod.rs:183 | `parse::<usize>` drops one optional leading `+`. It succeeds exactly when what remains is a non-empty run of ASCII digits whose value is below 2^64, and it then yields that value. Any `-` makes it fail. |
| Disambiguation.ParseUsizeDecimal | src/tmdb/mod.rs:183 | `parse::<usize>` reads back the decimal rendering of every value below 2^64. |
| Disambiguation.ParseUsizeZerosAndSign | src/tmdb/mod.rs:183 | Leading zeros and a leading `+` are accepted and do not change the value, so "007" and "+3" parse to 7 and 3. |
| Disambiguation.ParseUsizeOverflow | src/tmdb/mod.rs:183 | A decimal number of 2^64 or more does not parse as a `usize`. |
| Disambiguation.ParseChoice | src/tmdb/mod.rs:179-197 | An accepted choice is the id of one of the candidates. Every rejection carries one of the two messages. With no candidates nothing is accepted. |
| Disambiguation.ParseChoiceCharacterized | src/tmdb/mod.rs:179-197 | There are three cases: a parsed n with 1 <= n <= len gives `results[n-1].id`; any other parsed n gives "Choice is out of range."; text that does not parse gives "Invalid input. Please enter a number.". |
| Disambiguation.ParseChoiceOfShownIndex | src/tmdb/mod.rs:183-187 | Typing the number shown before candidate i, with any surrounding whitespace, selects that candidate's id. |
| Disambiguation.ParseChoiceOutOfRange | src/tmdb/mod.rs:188-191 | 0, or a number above the candidate count, is answered "Choice is out of range.". |
| Disambiguation.ParseChoiceOverflow | src/tmdb/mod.rs:192-195 | A number too large for `usize` is invalid input, not out of range. |
| Disambiguation.ParseChoiceRejectsMinus | src/tmdb/mod.rs:192-195 | A negative number is invalid input. |
| Disambiguation.PromptLoop | src/tmdb/mod.rs:206-219 | The loop stops at the first accepted line with its id. Every earlier line was rejected. The output has one prompt per line read, each rejected line followed by its message, plus a final prompt when no line was accepted. |
| Disambiguation.ChooseFromResults | src/tmdb/mod.rs:198-220 | An id is chosen exactly when some line is accepted, and it is that of the first accepted line. Rejected lines each add their message and a fresh prompt after the listing. |
| Disambiguation.NoAutoSelection | src/tmdb/mod.rs:204-212 | Even a single candidate is not chosen without input. The output is the listing and the prompt. |
| Disambiguation.EmptyResultsNeverChoose | src/tmdb/mod.rs:184-191 | With no candidates, no input line is ever accepted. |
| Disambiguation.PromptLoopStopsAtChoice | src/tmdb/mod.rs:215-216 | Once a line has been accepted, lines that would follow change nothing. |
| Disambiguation.ChoiceIgnoresLaterLines | src/tmdb/mod.rs:215-216 | Once the operator has chosen, further input lines change neither the choice nor the output. |
| Utils.ExtractEpisodeInfo | src/utils.rs:15-27 | The generic parser returns nothing exactly when the name has no ASCII digit. Otherwise both fields are exactly two digits. |
| Utils.Format | src/utils.rs:18-24 | Whichever alternative matched, both fields of the result are exactly two ASCII digits. |
| Utils.MatchAt | src/utils.rs:16-17 | A match starts at a position exactly when the character there is a digit or the first alternative fits there. Its captures are runs of one or two digits. |
| Utils.MatchAtCharacterized | src/utils.rs:16-17 | The captures at a position are exactly those leftmost-first matching picks. The first alternative wins whenever it fits. It takes two season digits if `[eE]` and a digit follow them, and one otherwise, then the longest episode run of one or two digits. Otherwise the longest bare run of one or two digits is taken. There is no match exactly when neither alternative fits. |
| Utils.ScanFrom | src/utils.rs:16-17 | The search finds a match from a position on exactly when a digit follows. Its captures are runs of one or two digits. |
| Utils.ScanIsLeftmost | src/utils.rs:16-17 | The captures come from the leftmost position where the pattern matches. |
| Utils.ExtractEpisodeInfoCharacterized | src/utils.rs:15-24 | The result is the padded captures chosen at the leftmost position where the pattern matches. |
| Utils.SkipNoDigits | src/utils.rs:16-17 | A stretch without digits that does not end in `s`/`S` cannot start a match and is skipped. |
| Utils.SeasonEpisodeExample | src/utils.rs:16-21 | "[Group] Show S02E05 [1080p].mkv" gives ("02", "05"). |
| Utils.ShortSeasonExample | src/utils.rs:16-21 | "show_s3e12.avi" gives ("03", "12"). |
| Utils.BareNumberFirstExample | src/utils.rs:16-23 | "Show 2024 S01E02" gives ("01", "20"): the earlier bare number wins. |
| Utils.BareNumberWidthExample | src/utils.rs:16-23 | "x_1080p" gives ("01", "10"): a bare number takes at most two digits. |
| Utils.NoDigitExample | src/utils.rs:15-27 | "random.mkv" gives nothing. |
| Utils.DeserializeNullString | src/utils.rs:30-36 | `null` decodes to "", a string decodes to itself, and any other JSON value is an error. |
| Utils.NullIsEmptyString | src/utils.rs:30-36 | Two decodable values give the same field exactly when they are equal, or one is `null` and the other "". |
| RuleParser.InsertAll | src/regex_parser.rs:37-40 | Inserting the external groups in any iteration order gives the external group for every external name and keeps every other built-in group. |
| RuleParser.DefaultRules | src/regex_parser.rs:21-29 | The built-in table has one group, `LoliSub`, holding its two patterns with the `S..E..` one first. |
| RuleParser.MergeRules | src/regex_parser.rs:21-40 | The final table is the built-in table overridden by the external map, whatever order the external groups are inserted in. |
| RuleParser.ExternalRulesOverride | src/regex_parser.rs:36-40 | An external group replaces the built-in group of the same name wholesale. Without an external `LoliSub`, its two built-in patterns stay. The groups are `LoliSub` plus the external ones. |
| RuleParser.CompileRules | src/regex_parser.rs:42-50 | Every group keeps its name and compiles its patterns one by one, in order. |
| RuleParser.Decide | src/regex_parser.rs:75-84 | Two or more groups give (group 1, group 2) verbatim. Exactly one gives ("01", group 1). None decides nothing. A group that did not take part panics. |
| RuleParser.TryRules | src/regex_parser.rs:74-85 | A group finds nothing exactly when none of its rules decides anything. |
| RuleParser.FirstDecidingRuleWins | src/regex_parser.rs:74-85 | Within a group, the first rule that decides anything gives the result. |
| RuleParser.ExtractEpisodeInfo | src/regex_parser.rs:66-89 | There is no match exactly when every group whose name occurs in the file name finds nothing. Otherwise the result comes from one such group. There is no generic fallback. |
| RuleParser.FirstDecidingGroupWins | src/regex_parser.rs:66-89 | Among the groups whose names occur, the first one whose rules decide anything gives the result. |
| RuleParser.NoGroupNameNoMatch | src/regex_parser.rs:68-72 | A file name containing no group name gets no match. |
| RuleParser.AbsentGroupIrrelevant | src/regex_parser.rs:68-72 | Changing the rules of a group whose name is absent from the file name never changes the result. |
| RuleParser.LoliSubTwoGroups | src/regex_parser.rs:24-27 | With only the built-in table, a `[LoliSub]` name whose first pattern captures two groups yields them verbatim. |
| FileSystem.CreateDirAll | src/file/mod.rs:23 | `create_dir_all` succeeds exactly when no file stands on the path. It leaves every prefix a directory and creates nothing but those prefixes. |
| FileSystem.WriteFile | src/file/mod.rs:24 | `fs::write` succeeds exactly when the parent is a directory and the target is not one. It then sets the target's content and nothing else. |
| FileSystem.ReadFile | src/file/cache.rs:16 | Reading succeeds exactly on a file and yields its content. |
| FileSystem.RemoveFile | src/file/mod.rs:46-48 | Removal succeeds exactly on a file and drops only that path. |
| FileSystem.HardLink | src/file/mod.rs:52 | A link is made exactly when the source is a file, the target's parent is a directory and the target does not exist. The target gets the source's content. |
| FileSystem.DecodeRecord | src/file/cache.rs:17 | A marker decodes exactly when it is a record whose id fits a `u32`. |
| Marker.Serialize | src/file/mod.rs:18-22 | The serialised marker decodes back to the id and hash list it was made from. |
| Marker.WriteMarker | src/file/mod.rs:11-26 | The write succeeds exactly when no prefix of `dest_dir` is a file, the marker's parent is a directory once `dest_dir` and its ancestors exist, and the marker path is not such a directory. On success `dest_dir` is a directory and the marker holds the id and the hashes exactly as given. Existing paths other than the marker keep their nodes. The only new paths are the marker and missing prefixes of `dest_dir`. |
| Marker.CheckProcessed | src/file/cache.rs:5-31 | A missing marker gives `(0, false)`. A marker that is not a readable, well-formed record is an error. A mismatch gives id 0. |
| Marker.CheckProcessedMatches | src/file/cache.rs:19-29 | The check returns `(id, true)` exactly when the marker holds that id and `current` is sorted and a permutation of the stored hashes. |
| Marker.CheckStored | src/file/cache.rs:12-31 | For a marker with a given id and hash list: an id beyond `u32` is an error; the sorted hashes equal to `current` give the id and `true`; anything else gives `(0, false)`. |
| Marker.StoredOrderIrrelevant | src/file/cache.rs:19-22 | Permuting the stored hash list never changes the decision. |
| Marker.MarkerRoundTrip | src/file/mod.rs:18-24 | A marker just written is recognised exactly when the hash list was sorted. Otherwise the files count as changed. |
| SetCache.New | src/cache/mod.rs:14-19 | The cache holds exactly the given id and hash set. |
| SetCache.WriteCache | src/cache/mod.rs:20-28 | The write succeeds exactly when `cache.json` is not a directory and either `dest_dir` is an existing directory or nothing exists there and no prefix of it is a file. On success `dest_dir` is a directory whose `cache.json` holds the id and the hashes in iteration order. Existing paths other than `cache.json` keep their nodes. The only new paths are `cache.json` and missing prefixes of `dest_dir`. |
| SetCache.CheckCache | src/cache/mod.rs:30-44 | A missing or non-directory `dest_dir` gives `NotADirectory`. The check succeeds exactly when `cache.json` is a readable, well-formed record. |
| SetCache.CheckCacheComparesSets | src/cache/mod.rs:43 | A successful check answers whether the stored hashes and the cache's hashes are the same set. |
| SetCache.StoredIdIgnored | src/cache/mod.rs:43 | Caches with the same hashes get the same answer, whatever their ids. |
| SetCache.StoredListingIrrelevant | src/cache/mod.rs:35-43 | The stored id, the order of the stored hashes and their duplicates do not change the answer. |
| SetCache.CacheRoundTrip | src/cache/mod.rs:20-44 | After a successful `write_cache`, `check_cache` of the same cache and directory answers `true`. |
| Organize.FileName | src/file/mod.rs:34 | A file name is the path's last component. There is none exactly when the path is empty or ends in `..`. |
| Organize.Extension | src/file/mod.rs:41 | The extension is the text after the last `.`, which contains no `.`. There is none exactly when the name is `..` or no `.` follows its first character. |
| Organize.TargetName | src/file/mod.rs:36-42 | The link name starts with the show name and " S", and ends with "." and the extension. Four characters come besides the show, season, episode and extension. |
| Organize.Plan | src/file/mod.rs:33-43 | A video is skipped exactly when it has no file name, its name is not UTF-8, or the generic parser finds no episode in it. It panics exactly when the name parses but has no extension. Otherwise it is linked at `dest_dir` joined with `"{show} S{season}E{episode}.{ext}"`, a path directly inside `dest_dir` for a show name without `/`. |
| Organize.PlaceFile | src/file/mod.rs:33-59 | A skipped video changes nothing. A parsable name without an extension panics with the filesystem unchanged. A linked video goes on exactly when it is a file, `dest_dir` is a directory, its target is not a directory, and the target is not the video itself; the target then holds the video's content. A target that is a directory stops the run with `IsADirectory` and nothing changed. Any other stop leaves the filesystem as it was, less the target path, and a video that is its own target stops with `NotFound`. |
| Organize.LinkAt | src/file/mod.rs:46-52 | Removing an existing target and then hard-linking succeeds exactly when the video is a file, `dest_dir` is a directory, the target is not a directory, and the target is not the video; the target then holds the video's content and nothing else changes. A directory target fails with `IsADirectory` before anything changes. Every other failure leaves the filesystem less the target path, and a video that is its own target fails with `NotFound`. |
| Organize.OrganizeFiles | src/file/mod.rs:27-63 | Whatever the outcome, only link targets are created, replaced or removed. The only new paths are link targets. |
| Organize.TargetsCharacterized | src/file/mod.rs:33-43 | A path is a link target of the run exactly when some listed video is linked at it. |
| Organize.PanicEndsRun | src/file/mod.rs:41 | When the first video that is not skipped has a parsable name without an extension, the run panics there and the filesystem is untouched. |
| Organize.OrganizeFilesIsLoop | src/file/mod.rs:33-62 | The run equals the `for` loop taken one video at a time, in list order: `Ok(())` after the last video, or the outcome of the first step that stops. |
| Organize.RunDoneIffEveryStepGoesOn | src/file/mod.rs:33-62 | A run returns `Ok(())` exactly when every iteration goes on to the next video. |
| Organize.StopEndsRun | src/file/mod.rs:47-52 | The first I/O error or panic ends the run with that step's outcome. The filesystem reached after the earlier videos is kept, except that the failing video's target may be gone. |
| Organize.TargetKeepsExtension | src/file/mod.rs:36-42 | The link's extension is the video's extension. |
| Organize.TargetNameReparses | src/file/mod.rs:35-42 | The link name parses back to the same season and episode when the show name has no digits. |
| Organize.ReplaceThenLink | src/file/mod.rs:45-52 | A file already at the target is replaced by the link. |
| Organize.NothingToLink | src/file/mod.rs:33-62 | Videos that are all skipped leave the filesystem as it was and end the run normally. |
| Organize.LastVideoWins | src/file/mod.rs:33-52 | After a complete run, each target holds the content of the last video mapped to it. |
| Nfo.GenreTags | src/file/nfo.rs:6-11 | One `<genre>name</genre>` per genre, in order. |
| Nfo.Year | src/file/nfo.rs:12-16 | Without a date the year is `????`. Otherwise it is a prefix of the date with no `-`, followed by a `-` or by the end. |
| Nfo.Premiered | src/file/nfo.rs:33 | The premiere value is the whole date, or "" without one. |
| Nfo.YearCharacterized | src/file/nfo.rs:12-16 | The year is exactly the one prefix of the date with no `-` that is followed by `-` or by nothing. |
| Nfo.YearBeforeDash | src/file/nfo.rs:12-16 | A date `y-rest` with no `-` in `y` has year `y`. |
| Nfo.EmptyAirDate | src/file/nfo.rs:12-16 | An empty date gives an empty year, not `????`, and an empty premiere date. |
| Nfo.CreateTvShowNfo | src/tmdb/nfo.rs:3-39 | The document starts with the XML declaration line and `<tvshow>`, and ends with a line `</tvshow>`. |
| Nfo.NfoFields | src/file/nfo.rs:18-38 | Title, plot, year, premiere date and rating appear verbatim in their elements. The id appears in both `<tmdbid>` and `<uniqueid type="tmdb">`. |
| Nfo.NfoGenres | src/file/nfo.rs:6-11 | Every genre appears in its own `<genre>` element. |
| Nfo.NfoLayout | src/file/nfo.rs:3-39 | When no value holds a line break, the lines are: the declaration, `<tvshow>`, the seven indented field lines, the genre elements (only the first indented, or one indented blank line when there is none), and `</tvshow>`. |
| Nfo.CompleteDataYear | src/file/nfo.rs:71 | The show first aired 2011-04-17 has `<year>2011</year>`. |
| Nfo.CompleteDataPremiered | src/file/nfo.rs:72 | That show has `<premiered>2011-04-17</premiered>`. |
| Nfo.CompleteDataIds | src/file/nfo.rs:74-75 | Id 1399 gives `<tmdbid>1399</tmdbid>` and `<uniqueid type="tmdb">1399</uniqueid>`. |
| Nfo.CompleteDataGenres | src/file/nfo.rs:76-77 | Genres Sci-Fi and Fantasy each get a `<genre>` element. |
| Nfo.MissingAirDateExample | src/file/nfo.rs:93-94 | Without an air date: `<year>????</year>` and `<premiered></premiered>`. |
| Ordering.Sort | src/file/cache.rs:18 | The sort yields a sorted permutation of its input. |
| Ordering.SortCharacterized | src/file/cache.rs:18 | `sort(s) == t` exactly when `t` is sorted and a permutation of `s`. |
| Ordering.SortPermutationInvariant | src/file/cache.rs:17-18 | Permutations of one list sort to the same list. |

## Left out

- **HTTP and JSON:**
  - The HTTP transport, URL building, query strings and JSON decoding are not modelled. A response is a status with its body already decoded, or a transport failure.
  - `fetch_tv_show_details_with_client` and `process_show` are network calls, and are not modelled.
- **Concurrency:**
  - tokio's sleep and `JoinSet` are not modelled. Sleeps become the list of delays.
  - Task completion becomes an order parameter. A failed join is a task outcome.
- **Console:**
  - Console I/O becomes the list of lines read and the text written. Failures of `write`/`flush`/`read_line` are not modelled.
  - At end of input the source loops forever. The model stops when the lines run out and reports that no choice was made yet.
- **Regular expressions:**
  - The regex engine is not modelled. A compiled rule is a function from the file name to its capture groups.
  - The JSON in `SUBGROUP_RULES` and its panic on malformed text are not modelled. The external rules are a map given as a parameter.
  - A panic of `Regex::new(..).unwrap()` on a bad pattern is not modelled.
  - The two `HashMap` iteration orders are parameters.
- **Generic parser digits:** the generic parser accepts ASCII digits only, while the regex crate's `\d` also accepts other Unicode decimal digits.
- **Hashing:** `get_file_hash` (SHA-256) and the hashing of a show's files are left out. Hashes are opaque strings.
- **Filesystem:**
  - Paths are lists of components below the destination root, with no `..` or symbolic-link resolution.
  - A hard link is a second path holding the same content.
  - I/O errors other than the ones each call can raise from the map's state are not modelled.
- Organize.Plan: requires a show name without `/`, and so do `PlaceFile`, `Targets`, `OrganizeFiles` and their lemmas. The caller passes a directory's `file_name()` (src/main.rs:39), which never holds one. A name with `/` would make `Path::join` add several components, and a leading `/` would replace `dest_dir` altogether.
- **Floating point:** `vote_average` and `popularity` are `f64`. The rating is carried as the text Rust displays for it.
- **Not modelled:** `main.rs` orchestration, environment configuration (`COMMON_QUERY`, dotenv) and the command-line arguments. They are plumbing around the modelled operations.
- **Logging:** the `println!`/`eprintln!` progress messages are not modelled, apart from the listing, prompt and error lines `choose_from_results` writes.
- **Marker serialization:** `serde_json::to_string` failing on a marker is not modelled, because it cannot fail for these field types.
