/** What the listing handlers share: the page parameters and the text
    filters that apply only when given. */
module Listing {
  import opened Wrappers
  import Settings
  import Dependencies

  /** `limit: int = Query(10, ge=1, le=100)`, `offset: int = Query(0, ge=0)`. */
  predicate ValidPage(limit: int, offset: int) {
    1 <= limit <= Settings.MaxPageSize && offset >= 0
  }

  /** The query bounds accept exactly the parameters the standalone
      pagination check accepts. */
  lemma ValidPageAgreesWithPaginationCheck(limit: int, offset: int)
    ensures ValidPage(limit, offset) <==> Dependencies.ValidatePaginationParams(limit, offset).Success?
  {
  }

  /** A text filter is applied only when given and non-empty (`if name:`). */
  predicate Given(f: Option<string>) {
    f.Some? && f.value != ""
  }
}
