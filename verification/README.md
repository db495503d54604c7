# Bollywood movie recommender: ranking engine and metadata fallback, in Dafny

This project models the two pieces of logic in `streamlit.py` of the Bollywood movie recommender.

- **Ranking engine (`recommend`).** The engine resolves the selected movie name to the first catalog row with that name. It then scores every row `j` as `0.7 * similarity[sel][j] + 0.3 * popularity[j]`. It sorts the `(row, score)` pairs by score, descending, with a stable sort. Finally it drops rank 1 and returns ranks 2 to 6.
- **Metadata policy (`get_movie_details`).** This part turns the outcome of an OMDb lookup into the `(poster, rating)` pair shown on a movie card. It falls back to a placeholder poster and the rating `"N/A"`.

Modules:

- `Outcomes` (`outcomes.dfy`): `Option` and `Result`.
- `Catalog` (`catalog.dfy`): the movie rows and the similarity matrix (`Store`). It also holds the alignment invariant `WellFormed` (the matrix is `n x n` for `n` rows), the combined `Score` with its two weights, and the first-match name lookup.
- `Ranking` (`ranking.dfy`): scoring of every row, and the stable descending insertion sort with its relational specification. The specification (`IsRankingOf`) says the result is a permutation of the scored rows, ordered by score descending and then by row ascending. This module also holds the `[1:6]` shortlist, `Recommend`, and the lemmas about the slice.
- `Scenarios` (`scenarios.dfy`): concrete catalogs worked out in full.
- `Metadata` (`metadata.dfy`): the fallback and sentinel-substitution policy. The HTTP call is a parameter.

`Recommend` returns the positions of the recommended rows. Line 193 selects exactly those rows with `df.iloc`.

Python's `sorted(..., reverse=True)` is stable. Equal scores therefore keep the order in which rows were scored, which is ascending row order. `SortByScoreDesc` inserts an earlier element ahead of later elements with an equal score. `SortRanksAscendingRows` proves that, on input listed by ascending row, the output is `Ranked`: score descending, then row ascending. `RankedPermutationUnique` shows that this relational specification fixes the output completely. So any correct stable sort gives the same shortlist (`ShortlistIsSliceOfRanking`).

The source drops rank 1 with no identity check. The model keeps that literal behaviour. `SelectionDroppedWhenStrictlyTop` shows that the selected movie is excluded when it strictly outscores every other row. `SelectionCanBeRecommendedToItself` exhibits a two-movie catalog where another movie outscores the selection. In that catalog the other movie is dropped and the selection is recommended to itself.

Two details of the code that the model keeps:

- **Duplicate names.** Line 181 takes the first matching row (`.index[0]`), and so does `FirstRowNamed`.
- **Missing poster.** Line 169 turns an absent poster into `"N/A"`, and line 172 then replaces it with the placeholder. `FromResponse` replaces both an absent poster and a literal `"N/A"` one.

## Model

| member | source | states |
|---|---|---|
| `Catalog.FirstRowNamed` | streamlit.py:181 | A name resolves to the first row carrying it. The result is nothing exactly when no row has that name. |
| `Ranking.ScoreRows` | streamlit.py:182-190 | Every row is scored, the selected row included, in row order. Row `j`'s score is `0.7 * similarity[sel][j] + 0.3 * popularity[j]`. |
| `Ranking.SortByScoreDesc` | streamlit.py:192 | The sort returns a permutation of its input with non-increasing scores. |
| `Ranking.SortRanksAscendingRows` | streamlit.py:192 | On input in ascending row order the sort breaks ties by ascending row, which is the stability of `sorted(reverse=True)` applied to the enumerated scores. |
| `Ranking.InsertRanked` | streamlit.py:192 | Inserting a row lower than every row of a ranked sequence keeps the sequence ranked. This is the stable-insertion step. |
| `Ranking.RankedPermutationUnique` | streamlit.py:192 | Two ranked permutations of the same candidates are equal, so the relational ordering determines the result. |
| `Ranking.FullRanking` | streamlit.py:192 | The sorted scored rows form a full ranking: a permutation of all scored rows, ordered by score descending, then row ascending. |
| `Ranking.RankingFacts` | streamlit.py:182-192 | A full ranking has one entry per catalog row. Each entry holds a valid row and that row's combined score, and every row appears. |
| `Ranking.Shortlist` | streamlit.py:192-193 | The shortlist has `min(5, n-1)` rows: valid, distinct indices. Scores are non-increasing, and equal scores are in ascending row order. |
| `Ranking.Recommend` | streamlit.py:180-193 | An unknown name gives `MovieNotFound`. Otherwise the result is the shortlist of the first row with that name, of length `min(5, n-1)`. |
| `Ranking.ShortlistIsSliceOfRanking` | streamlit.py:192 | The shortlist is exactly positions 1 to 5 (the `[1:6]` slice) of any full stable descending ranking. |
| `Ranking.DroppedRowIsTop` | streamlit.py:192 | The single dropped row scores at least as high as every catalog row and is not returned. |
| `Ranking.ExcludedRowsRankBelow` | streamlit.py:192 | Every returned row outranks every row left out, except the dropped top row. |
| `Ranking.SelectionDroppedWhenStrictlyTop` | streamlit.py:192 | If the selected row strictly outscores all others, the selected row is the one dropped. |
| `Scenarios.SixMoviesRecommendation` | streamlit.py:180-193 | For movies A to F with the given similarity row and popularities, selecting A yields B, F, D, C, E. |
| `Scenarios.SingleMovieRecommendsNothing` | streamlit.py:192 | A one-movie catalog yields an empty shortlist. |
| `Scenarios.SelectionCanBeRecommendedToItself` | streamlit.py:192 | When another movie outscores the selection, that movie is dropped and the selection is returned. |
| `Metadata.FromResponse` | streamlit.py:169-175 | An absent or `"N/A"` poster becomes the placeholder URL, and a real poster passes unchanged. The rating passes unchanged, and an absent rating becomes `"N/A"`. The poster shown is never `"N/A"`. |
| `Metadata.GetMovieDetails` | streamlit.py:158-177 | A missing or empty id gives the fallback pair, and so does a failed lookup. Every non-fallback poster or rating came from this id's response. |
| `Metadata.MissingIdIgnoresLookup` | streamlit.py:162-163 | With a missing or empty id the result does not depend on the lookup at all, so no lookup is performed. |
| `Metadata.DetailsDependOnlyOnOwnLookup` | streamlit.py:165-177 | The result depends on the lookup only through its answer for the same id. |
| `Metadata.FallbackExactly` | streamlit.py:158-177 | The fallback pair is returned if and only if one of these holds: the id is missing, the lookup failed, or the response had no usable poster and no rating other than `"N/A"`. |
| `Metadata.SuccessfulLookupPassesThrough` | streamlit.py:169-175 | A real poster URL and a rating from a successful lookup reach the caller unchanged. |

## Left out

- Page setup, CSS, sidebar text and card rendering (streamlit.py:9-150, 196-231): presentation only.
- Loading the two pickles (streamlit.py:153-154): file I/O. The catalog and matrix are inputs, and `WellFormed` states the `n x n` alignment they must satisfy.
- The HTTP request, the URL built with the API key, the 5-second timeout and JSON decoding (streamlit.py:7, 166-167): network I/O and foreign libraries. Their outcome is the `lookup` parameter, and `None` stands for any exception.
- JSON values that are not strings, such as a `null` poster: the response fields are modelled as optional strings.
- The `@st.cache_data` memoisation (streamlit.py:157): its semantics live in a library. `DetailsDependOnlyOnOwnLookup` states the property that makes per-id memoisation sound. The decorator would also cache fallback pairs, since exceptions are swallowed before returning.
- IEEE floating-point semantics: scores are exact reals, so rounding-induced tie-break changes are not modelled. Similarity and popularity values are assumed finite, with no NaN and no infinity. A NaN `popularity_score` makes a score NaN, every comparison at line 192 is then false, and `sorted` no longer orders the rows by score; the ordering guarantees of `Shortlist` and `DroppedRowIsTop` do not cover that case.
- Pandas label versus position: the row label found at line 181 is used as a position at line 182. The model assumes the default `0..n-1` index, where the two coincide.
