/** The metadata enrichment policy: turn the outcome of an OMDb lookup for a
    movie id into the (poster URL, IMDb rating) pair shown on a card, falling
    back to a placeholder poster and the rating "N/A" whenever data is missing. */
module Metadata {
  import opened Outcomes

  /** Poster shown when no real poster is available. */
  const FallbackPoster: string := "https://via.placeholder.com/300x450?text=No+Poster"

  /** The service's own "no value" marker, also used as the fallback rating. */
  const NotAvailable: string := "N/A"

  /** The two fields read from a decoded lookup response; a field the
      response lacks is `None`. */
  datatype Response = Response(poster: Option<string>, imdbRating: Option<string>)

  /** What a movie card displays. */
  datatype Details = Details(poster: string, rating: string)

  /** The pair returned whenever nothing usable came back. */
  const Fallback: Details := Details(FallbackPoster, NotAvailable)

  /** The movie has no usable id: a missing value or the empty string. */
  predicate MissingId(imdbId: Option<string>) {
    imdbId.None? || imdbId.value == ""
  }

  /** Reads the poster and rating of a successful response: an absent or "N/A"
      poster becomes the placeholder, an absent rating becomes "N/A". */
  function FromResponse(data: Response): (r: Details)
    ensures r.poster != NotAvailable
    ensures data.poster.Some? && data.poster.value != NotAvailable ==> r.poster == data.poster.value
    ensures (data.poster.None? || data.poster.value == NotAvailable) ==> r.poster == FallbackPoster
    ensures data.imdbRating.Some? ==> r.rating == data.imdbRating.value
    ensures data.imdbRating.None? ==> r.rating == NotAvailable
  {
    var poster := data.poster.GetOr(NotAvailable);
    var rating := data.imdbRating.GetOr(NotAvailable);
    Details(if poster == NotAvailable then FallbackPoster else poster, rating)
  }

  /** Poster and rating for a movie id. `lookup` stands for the HTTP request
      and JSON decoding: `None` is any failure (network error, timeout,
      malformed body). A missing id never reaches `lookup`. */
  function GetMovieDetails(imdbId: Option<string>, lookup: string -> Option<Response>): (r: Details)
    ensures r.poster != NotAvailable
    ensures MissingId(imdbId) ==> r == Fallback
    ensures !MissingId(imdbId) && lookup(imdbId.value).None? ==> r == Fallback
    ensures r.poster == FallbackPoster ||
      (!MissingId(imdbId) && lookup(imdbId.value).Some? && lookup(imdbId.value).value.poster == Some(r.poster))
    ensures r.rating == NotAvailable ||
      (!MissingId(imdbId) && lookup(imdbId.value).Some? && lookup(imdbId.value).value.imdbRating == Some(r.rating))
  {
    if MissingId(imdbId) then
      Fallback
    else
      match lookup(imdbId.value)
      case None => Fallback
      case Some(data) => FromResponse(data)
  }

  /** A missing id is answered without consulting the lookup at all: any two
      lookups give the same pair. */
  lemma MissingIdIgnoresLookup(imdbId: Option<string>, l1: string -> Option<Response>, l2: string -> Option<Response>)
    requires MissingId(imdbId)
    ensures GetMovieDetails(imdbId, l1) == GetMovieDetails(imdbId, l2) == Fallback
  {
  }

  /** The pair depends on the lookup only through its answer for this very id,
      which is what makes memoising it per id sound. */
  lemma DetailsDependOnlyOnOwnLookup(imdbId: Option<string>, l1: string -> Option<Response>, l2: string -> Option<Response>)
    requires !MissingId(imdbId) && l1(imdbId.value) == l2(imdbId.value)
    ensures GetMovieDetails(imdbId, l1) == GetMovieDetails(imdbId, l2)
  {
  }

  /** The caller sees the fallback pair exactly when the id is missing, the
      lookup failed, or the response carried neither a usable poster (absent,
      "N/A" or the placeholder itself) nor a rating other than "N/A". */
  lemma FallbackExactly(imdbId: Option<string>, lookup: string -> Option<Response>)
    ensures GetMovieDetails(imdbId, lookup) == Fallback <==>
      (|| MissingId(imdbId)
       || lookup(imdbId.value).None?
       || (&& lookup(imdbId.value).value.poster in {None, Some(NotAvailable), Some(FallbackPoster)}
           && lookup(imdbId.value).value.imdbRating in {None, Some(NotAvailable)}))
  {
  }

  /** A real poster URL and a real rating from the service reach the card
      unchanged. */
  lemma SuccessfulLookupPassesThrough(imdbId: Option<string>, lookup: string -> Option<Response>, poster: string, rating: string)
    requires !MissingId(imdbId) && poster != NotAvailable
    requires lookup(imdbId.value) == Some(Response(Some(poster), Some(rating)))
    ensures GetMovieDetails(imdbId, lookup) == Details(poster, rating)
  {
  }
}
