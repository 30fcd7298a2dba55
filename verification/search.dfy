/**
 The search side of `query_tmdb_id` (src/tmdb/mod.rs): which pages are
 requested, how the page results are merged, and the hand-over to the
 disambiguation prompt.

 The first page is fetched on its own; when it reports more than one page, one
 task per page number in `2..total_pages` is spawned and results are merged in
 the order the tasks complete. That order is a parameter here (any
 permutation of the spawned pages), and each task's outcome is given by page
 number. Because the page number never reaches the request's query string,
 every request asks the service for the same thing; the model still keeps the
 page numbers the program passes around.
 */
module Search {
  import opened Common
  import opened Models
  import Disambiguation

  /** `check_tmdb_id`: an id is usable exactly when it is not the "unknown" value 0. */
  function CheckTmdbId(tmdbId: u32): (usable: bool)
    ensures !usable <==> tmdbId == 0
  {
    tmdbId != 0
  }

  /** The page number of the first request. */
  const FIRST_PAGE: nat := 0

  /** Page numbers handed to spawned tasks: `2..total_pages`, and none unless `total_pages > 1`. */
  function SpawnedPages(totalPages: nat): (pages: seq<nat>)
    ensures forall p :: p in pages <==> 2 <= p < totalPages
    ensures forall i, j :: 0 <= i < j < |pages| ==> pages[i] < pages[j]
  {
    if totalPages > 1 then Range(2, totalPages) else []
  }

  /** `lo..hi` */
  function Range(lo: nat, hi: nat): (r: seq<nat>)
    ensures forall p :: p in r <==> lo <= p < hi
    ensures forall i, j :: 0 <= i < j < |r| ==> r[i] < r[j]
    ensures forall i :: 0 <= i < |r| ==> r[i] >= lo
    ensures |r| == if lo < hi then hi - lo else 0
    decreases hi - lo
  {
    if lo >= hi then [] else [lo] + Range(lo + 1, hi)
  }

  /** Every page number `query_tmdb_id` fetches, the first request included. */
  function RequestedPages(totalPages: nat): seq<nat> {
    [FIRST_PAGE] + SpawnedPages(totalPages)
  }

  /**
   `max(1, total_pages - 1)` fetches are made: page 1 and page `total_pages`
   are never requested by number, page 0 always is.
   */
  lemma RequestedPagesCount(totalPages: nat)
    ensures |RequestedPages(totalPages)| == if totalPages >= 2 then totalPages - 1 else 1
    ensures 1 !in RequestedPages(totalPages) && FIRST_PAGE in RequestedPages(totalPages)
    ensures totalPages > 0 ==> totalPages !in RequestedPages(totalPages)
  {
  }

  /** How a spawned task ended: it joined with the page fetch's result, or the join itself failed. */
  datatype TaskOutcome = Joined(page: Result<SearchResponse, FetchError>) | JoinFailed

  /** The candidates a completed task contributes, as a multiset. */
  function Contribution(outcome: TaskOutcome): multiset<Candidate> {
    if outcome.Joined? && outcome.page.Ok? then multiset(outcome.page.value.results) else multiset{}
  }

  /** The candidates all tasks in `order` contribute together. */
  function Bag(order: seq<nat>, outcome: nat -> TaskOutcome): multiset<Candidate> {
    if |order| == 0 then multiset{} else Contribution(outcome(order[0])) + Bag(order[1..], outcome)
  }

  predicate FetchFailed(outcome: TaskOutcome) {
    outcome.Joined? && outcome.page.Err?
  }

  /**
   The `while let Some(result) = join_set.join_next()` loop: tasks complete in
   `order`; a page's results are appended, a failed join is only logged and
   skipped, and a page whose fetch failed aborts the merge with its error.
   */
  function MergePages(all: SearchResponse, order: seq<nat>, outcome: nat -> TaskOutcome)
    : (r: Result<SearchResponse, FetchError>)
    ensures r.Ok? ==> r.value == all.(results := r.value.results)
    ensures r.Ok? ==> multiset(r.value.results) == multiset(all.results) + Bag(order, outcome)
    ensures r.Ok? ==> all.results <= r.value.results
    decreases |order|
  {
    if |order| == 0 then Ok(all)
    else
      match outcome(order[0])
      case JoinFailed => MergePages(all, order[1..], outcome)
      case Joined(Err(e)) => Err(e)
      case Joined(Ok(page)) =>
        var r := MergePages(all.(results := all.results + page.results), order[1..], outcome);
        if r.Ok? then
          assert multiset(all.results + page.results) == multiset(all.results) + multiset(page.results);
          r
        else r
  }

  /** The merge fails exactly when some page's fetch failed, and then with the error of one of them. */
  lemma {:induction false} MergeFailure(all: SearchResponse, order: seq<nat>, outcome: nat -> TaskOutcome)
    ensures MergePages(all, order, outcome).Err? <==> exists i :: 0 <= i < |order| && FetchFailed(outcome(order[i]))
    ensures MergePages(all, order, outcome).Err? ==>
      exists i :: 0 <= i < |order| && outcome(order[i]) == Joined(Err(MergePages(all, order, outcome).error))
    decreases |order|
  {
    if |order| > 0 {
      var tail := order[1..];
      match outcome(order[0])
      case JoinFailed =>
        MergeFailure(all, tail, outcome);
        FailureInTail(order, outcome);
        WitnessInTail(all, order, outcome, all);
      case Joined(Err(e)) =>
        assert FetchFailed(outcome(order[0]));
      case Joined(Ok(page)) =>
        var next := all.(results := all.results + page.results);
        MergeFailure(next, tail, outcome);
        FailureInTail(order, outcome);
        WitnessInTail(all, order, outcome, next);
    }
  }

  /**
   The error the merge returns is that of the first task, in completion
   order, whose fetch failed (`page?` returns at once).
   */
  lemma {:induction false} MergeFailsAtFirst(all: SearchResponse, order: seq<nat>, outcome: nat -> TaskOutcome, i: nat)
    requires i < |order| && FetchFailed(outcome(order[i]))
    requires forall j :: 0 <= j < i ==> !FetchFailed(outcome(order[j]))
    ensures MergePages(all, order, outcome) == Err(outcome(order[i]).page.error)
    decreases i
  {
    if i > 0 {
      assert !FetchFailed(outcome(order[0]));
      assert forall j :: 0 <= j < i - 1 ==> order[1..][j] == order[j + 1];
      match outcome(order[0])
      case JoinFailed =>
        MergeFailsAtFirst(all, order[1..], outcome, i - 1);
      case Joined(page) =>
        MergeFailsAtFirst(all.(results := all.results + page.value.results), order[1..], outcome, i - 1);
    }
  }

  /** Past a first task that did not fail, a failure is a failure of the later tasks. */
  lemma FailureInTail(order: seq<nat>, outcome: nat -> TaskOutcome)
    requires |order| > 0 && !FetchFailed(outcome(order[0]))
    ensures (exists i :: 0 <= i < |order| && FetchFailed(outcome(order[i]))) <==>
      exists i :: 0 <= i < |order[1..]| && FetchFailed(outcome(order[1..][i]))
  {
    if exists i :: 0 <= i < |order| && FetchFailed(outcome(order[i])) {
      var i :| 0 <= i < |order| && FetchFailed(outcome(order[i]));
      assert order[1..][i - 1] == order[i];
    }
    if exists i :: 0 <= i < |order[1..]| && FetchFailed(outcome(order[1..][i])) {
      var i :| 0 <= i < |order[1..]| && FetchFailed(outcome(order[1..][i]));
      assert order[i + 1] == order[1..][i];
    }
  }

  /** A failing merge that went past the first task fails with the error of a later one. */
  lemma WitnessInTail(all: SearchResponse, order: seq<nat>, outcome: nat -> TaskOutcome, next: SearchResponse)
    requires |order| > 0 && !FetchFailed(outcome(order[0]))
    requires MergePages(all, order, outcome) == MergePages(next, order[1..], outcome)
    requires MergePages(next, order[1..], outcome).Err? ==>
      exists i :: 0 <= i < |order[1..]| && outcome(order[1..][i]) == Joined(Err(MergePages(next, order[1..], outcome).error))
    ensures MergePages(all, order, outcome).Err? ==>
      exists i :: 0 <= i < |order| && outcome(order[i]) == Joined(Err(MergePages(all, order, outcome).error))
  {
    if MergePages(all, order, outcome).Err? {
      var i :| 0 <= i < |order[1..]| && outcome(order[1..][i]) == Joined(Err(MergePages(next, order[1..], outcome).error));
      assert order[i + 1] == order[1..][i];
    }
  }

  lemma {:induction false} BagAppend(a: seq<nat>, b: seq<nat>, outcome: nat -> TaskOutcome)
    ensures Bag(a + b, outcome) == Bag(a, outcome) + Bag(b, outcome)
  {
    if |a| == 0 {
      assert a + b == b;
    } else {
      assert (a + b)[1..] == a[1..] + b;
      BagAppend(a[1..], b, outcome);
    }
  }

  /** The contributions do not depend on the order the tasks complete in. */
  lemma {:induction false} BagPermutation(a: seq<nat>, b: seq<nat>, outcome: nat -> TaskOutcome)
    requires multiset(a) == multiset(b)
    ensures Bag(a, outcome) == Bag(b, outcome)
    decreases |a|
  {
    if |a| == 0 {
      assert |b| == |multiset(b)| == 0;
    } else {
      assert a[0] in multiset(b);
      var j :| 0 <= j < |b| && b[j] == a[0];
      var rest := b[..j] + b[j + 1..];
      RemoveMatching(a, b, j);
      BagPermutation(a[1..], rest, outcome);
      BagRemove(b, j, outcome);
    }
  }

  /** Taking the same element out of two rearrangements leaves rearrangements. */
  lemma RemoveMatching(a: seq<nat>, b: seq<nat>, j: nat)
    requires multiset(a) == multiset(b) && |a| > 0 && j < |b| && b[j] == a[0]
    ensures multiset(a[1..]) == multiset(b[..j] + b[j + 1..])
  {
    assert b == b[..j] + [b[j]] + b[j + 1..];
    assert multiset(b) == multiset(b[..j]) + multiset{b[j]} + multiset(b[j + 1..]);
    assert a == [a[0]] + a[1..];
    assert multiset(a[1..]) == multiset(a) - multiset{a[0]};
    assert multiset(b[..j] + b[j + 1..]) == multiset(b[..j]) + multiset(b[j + 1..]);
  }

  lemma BagRemove(b: seq<nat>, j: nat, outcome: nat -> TaskOutcome)
    requires j < |b|
    ensures Bag(b, outcome) == Contribution(outcome(b[j])) + Bag(b[..j] + b[j + 1..], outcome)
  {
    var pre, post := b[..j], b[j + 1..];
    SplitAround(b, j);
    BagAppend(pre, [b[j]] + post, outcome);
    BagAppend([b[j]], post, outcome);
    BagAppend(pre, post, outcome);
    BagSingleton(b[j], outcome);
    MultisetShuffle(Bag(pre, outcome), Contribution(outcome(b[j])), Bag(post, outcome));
  }

  lemma SplitAround(b: seq<nat>, j: nat)
    requires j < |b|
    ensures b == b[..j] + ([b[j]] + b[j + 1..])
  {
  }

  lemma BagSingleton(x: nat, outcome: nat -> TaskOutcome)
    ensures Bag([x], outcome) == Contribution(outcome(x))
  {
    assert [x][1..] == [];
  }

  lemma MultisetShuffle(p: multiset<Candidate>, c: multiset<Candidate>, q: multiset<Candidate>)
    ensures p + (c + q) == c + (p + q)
  {
  }

  /**
   Whatever order the spawned tasks complete in, the merge fails in exactly the
   same cases and otherwise yields the same candidates, as a multiset: the
   first page's plus those of every page whose fetch joined successfully.
   */
  lemma MergeOrderIrrelevant(all: SearchResponse, order1: seq<nat>, order2: seq<nat>, outcome: nat -> TaskOutcome)
    requires multiset(order1) == multiset(order2)
    ensures MergePages(all, order1, outcome).Ok? <==> MergePages(all, order2, outcome).Ok?
    ensures MergePages(all, order1, outcome).Ok? ==>
      multiset(MergePages(all, order1, outcome).value.results) == multiset(MergePages(all, order2, outcome).value.results)
  {
    MergeFailure(all, order1, outcome);
    MergeFailure(all, order2, outcome);
    forall i | 0 <= i < |order1| && FetchFailed(outcome(order1[i]))
      ensures exists j :: 0 <= j < |order2| && FetchFailed(outcome(order2[j]))
    {
      assert order1[i] in multiset(order2);
      var j :| 0 <= j < |order2| && order2[j] == order1[i];
    }
    forall j | 0 <= j < |order2| && FetchFailed(outcome(order2[j]))
      ensures exists i :: 0 <= i < |order1| && FetchFailed(outcome(order1[i]))
    {
      assert order2[j] in multiset(order1);
      var i :| 0 <= i < |order1| && order1[i] == order2[j];
    }
    BagPermutation(order1, order2, outcome);
  }

  /** What `query_tmdb_id` ends with: a chosen id, a fetch error, or a prompt still waiting for input. */
  datatype QueryResult = Chosen(id: u32) | FetchFailure(error: FetchError) | AwaitingChoice

  datatype Query = Query(result: QueryResult, output: string)

  /**
   `query_tmdb_id` after its first fetch: merge the spawned pages in completion
   order, then let the operator choose among ALL merged candidates, one of
   them or none included. There is no "no results" error and no automatic
   pick of a single candidate.
   */
  function QueryTmdbId(first: Result<SearchResponse, FetchError>, order: seq<nat>,
                       outcome: nat -> TaskOutcome, lines: seq<string>): (q: Query)
    requires first.Ok? ==> multiset(order) == multiset(SpawnedPages(first.value.totalPages))
    ensures first.Err? ==> q == Query(FetchFailure(first.error), "")
    ensures first.Ok? && (exists i :: 0 <= i < |order| && FetchFailed(outcome(order[i]))) ==>
      q.result.FetchFailure? && q.output == ""
    ensures q.result.Chosen? ==> (first.Ok? &&
      var merged := MergePages(first.value, order, outcome);
      merged.Ok? && multiset(merged.value.results) == multiset(first.value.results) + Bag(order, outcome) &&
      exists k :: 0 <= k < |lines| && Disambiguation.ParseChoice(lines[k], merged.value.results) == Ok(q.result.id))
    ensures q.result.AwaitingChoice? ==> first.Ok? && MergePages(first.value, order, outcome).Ok?
    ensures q.result.AwaitingChoice? ==>
      forall k :: 0 <= k < |lines| ==>
        Disambiguation.ParseChoice(lines[k], MergePages(first.value, order, outcome).value.results).Err?
    ensures first.Ok? && MergePages(first.value, order, outcome).Err? ==>
      q == Query(FetchFailure(MergePages(first.value, order, outcome).error), "")
    ensures first.Ok? && MergePages(first.value, order, outcome).Ok? ==>
      var c := Disambiguation.ChooseFromResults(MergePages(first.value, order, outcome).value.results, lines);
      !q.result.FetchFailure? && q.output == c.output &&
      (q.result.Chosen? <==> c.choice.Some?) && (c.choice.Some? ==> q.result == Chosen(c.choice.value))
  {
    match first
    case Err(e) => Query(FetchFailure(e), "")
    case Ok(page) =>
      MergeFailure(page, order, outcome);
      match MergePages(page, order, outcome)
      case Err(e) => Query(FetchFailure(e), "")
      case Ok(all) =>
        var session := Disambiguation.ChooseFromResults(all.results, lines);
        Query(if session.choice.Some? then Chosen(session.choice.value) else AwaitingChoice, session.output)
  }

  /** A first page that reports at most two pages in total is the only request (page 1 is never fetched), and its candidates are offered. */
  lemma SinglePageQuery(first: SearchResponse, outcome: nat -> TaskOutcome, lines: seq<string>)
    requires first.totalPages <= 2
    ensures SpawnedPages(first.totalPages) == []
    ensures QueryTmdbId(Ok(first), [], outcome, lines).output
      == Disambiguation.ChooseFromResults(first.results, lines).output
  {
  }
}
