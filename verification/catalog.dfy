/** The catalog store: one row per movie, plus the precomputed similarity matrix
    whose rows and columns follow the catalog's row order. */
module Catalog {
  import opened Outcomes

  /** One catalog row. `id` is the external (IMDb) identifier and may be missing. */
  datatype Movie = Movie(id: Option<string>, name: string, year: int, genre: string, popularity: real)

  /** The static artifact: the movie table and the `n x n` similarity matrix. */
  datatype Store = Store(movies: seq<Movie>, similarity: seq<seq<real>>)

  function Size(s: Store): nat {
    |s.movies|
  }

  /** Row `i` of the matrix belongs to catalog row `i`, and the matrix is square. */
  predicate WellFormed(s: Store) {
    && |s.similarity| == |s.movies|
    && forall i :: 0 <= i < |s.similarity| ==> |s.similarity[i]| == |s.movies|
  }

  /** Weight of the content-similarity term in the combined score. */
  const ContentWeight: real := 0.7

  /** Weight of the popularity term in the combined score. */
  const PopularityWeight: real := 0.3

  /** The combined score of row `j` when `sel` is the selected row. */
  function Score(s: Store, sel: nat, j: nat): real
    requires WellFormed(s) && sel < Size(s) && j < Size(s)
  {
    ContentWeight * s.similarity[sel][j] + PopularityWeight * s.movies[j].popularity
  }

  /** No row at or after `from` is named `name`. */
  predicate NoneNamedFrom(movies: seq<Movie>, name: string, from: nat) {
    forall k :: from <= k < |movies| ==> movies[k].name != name
  }

  /** `row` is the first row of `movies` named `name`. */
  predicate IsFirstNamed(movies: seq<Movie>, name: string, row: nat) {
    && row < |movies|
    && movies[row].name == name
    && forall k :: 0 <= k < row ==> movies[k].name != name
  }

  /** Scans the rows from `from` on for the first one named `name`. */
  function FindFrom(movies: seq<Movie>, name: string, from: nat): (r: Option<nat>)
    requires from <= |movies|
    ensures r.None? <==> NoneNamedFrom(movies, name, from)
    ensures r.Some? ==> from <= r.value < |movies| && movies[r.value].name == name
    ensures r.Some? ==> forall k :: from <= k < r.value ==> movies[k].name != name
    decreases |movies| - from
  {
    if from == |movies| then None
    else if movies[from].name == name then Some(from)
    else FindFrom(movies, name, from + 1)
  }

  /** The row a movie name resolves to: the first row carrying that name, or
      nothing when no row does. */
  function FirstRowNamed(s: Store, name: string): (r: Option<nat>)
    ensures r.None? <==> NoneNamedFrom(s.movies, name, 0)
    ensures r.Some? ==> IsFirstNamed(s.movies, name, r.value)
  {
    FindFrom(s.movies, name, 0)
  }
}
