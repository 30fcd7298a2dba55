/**
 Record shapes the archiver exchanges with the catalog service and keeps on
 disk (src/tmdb/models.rs, src/file/models.rs). Only the fields some modelled
 operation reads are kept; floating-point fields are carried as the text Rust
 would print for them.
 */
module Models {
  import opened Common

  /** One entry of a `search/multi` result page (`SearchMultiResult`). */
  datatype Candidate = Candidate(
    id: u32,
    name: string,
    firstAirDate: Option<string>,
    overview: Option<string>
  )

  /** One decoded result page (`SearchResponse<SearchMultiResult>`). */
  datatype SearchResponse = SearchResponse(
    page: u32,
    results: seq<Candidate>,
    totalPages: u32,
    totalResults: u32
  )

  datatype Genre = Genre(name: string)

  /** The fully resolved show (`TvShowDetails`); `voteAverage` is the `f64` as displayed. */
  datatype TvShowDetails = TvShowDetails(
    id: u32,
    name: string,
    overview: string,
    genres: seq<Genre>,
    firstAirDate: Option<string>,
    voteAverage: string
  )

  /** `FetchError`: a transport or decoding failure, a non-retryable status, or exhausted retries. */
  datatype FetchError =
    | Reqwest
    | UnrecoverableStatus(status: nat)
    | MaxRetriesExceeded(maxRetries: u32)

  /** The `.processed.json` record (`ProcessedMarker`). */
  datatype ProcessedMarker = ProcessedMarker(tmdbId: u32, fileHashes: seq<string>)
}
