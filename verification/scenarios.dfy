/** Concrete catalogs on which the ranking engine's behaviour is worked out in full. */
module Scenarios {
  import opened Outcomes
  import opened Catalog
  import opened Ranking

  function Film(name: string, popularity: real): Movie {
    Movie(None, name, 2000, "Drama", popularity)
  }

  /** Six movies `A` to `F`; only the similarity row of `A` matters below. */
  function SixMovies(): (s: Store)
    ensures WellFormed(s) && Size(s) == 6
  {
    var row := [1.0, 0.9, 0.1, 0.8, 0.05, 0.95];
    Store([Film("A", 0.5), Film("B", 0.2), Film("C", 0.9), Film("D", 0.1), Film("E", 0.99), Film("F", 0.0)],
          [row, row, row, row, row, row])
  }

  /** The full ranking of `SixMovies` for `A`, by score: A, B, F, D, C, E. */
  function SixMoviesRanking(): seq<Candidate> {
    [Candidate(0, 0.85), Candidate(1, 0.69), Candidate(5, 0.665),
     Candidate(3, 0.59), Candidate(2, 0.34), Candidate(4, 0.332)]
  }

  /** Selecting `A` scores A=0.85, B=0.69, C=0.34, D=0.59, E=0.332, F=0.665. */
  lemma SixMoviesScores()
    ensures Scored(SixMovies(), 0) == [Candidate(0, 0.85), Candidate(1, 0.69), Candidate(2, 0.34),
                                       Candidate(3, 0.59), Candidate(4, 0.332), Candidate(5, 0.665)]
  {
  }

  lemma SixMoviesRankingOrdered()
    ensures Ranked(SixMoviesRanking())
  {
  }

  lemma SixMoviesRankingPermutes()
    ensures multiset(SixMoviesRanking()) ==
      multiset([Candidate(0, 0.85), Candidate(1, 0.69), Candidate(2, 0.34),
                Candidate(3, 0.59), Candidate(4, 0.332), Candidate(5, 0.665)])
  {
  }

  lemma SixMoviesRanked()
    ensures IsRankingOf(SixMovies(), 0, SixMoviesRanking())
  {
    SixMoviesScores();
    SixMoviesRankingOrdered();
    SixMoviesRankingPermutes();
  }

  lemma SixMoviesShortlistRows()
    ensures Rows(SixMoviesRanking()[1..6]) == [1, 5, 3, 2, 4]
  {
  }

  lemma SixMoviesFirstRow()
    ensures FirstRowNamed(SixMovies(), "A") == Some(0)
  {
  }

  /** `A` ranks first and is dropped, leaving B, F, D, C, E. */
  lemma SixMoviesRecommendation()
    ensures Recommend(SixMovies(), "A") == Ok([1, 5, 3, 2, 4])
  {
    var s := SixMovies();
    SixMoviesRanked();
    ShortlistIsSliceOfRanking(s, 0, SixMoviesRanking());
    SixMoviesShortlistRows();
    SixMoviesFirstRow();
  }

  /** A one-movie catalog recommends nothing: its only row is the dropped one. */
  lemma SingleMovieRecommendsNothing(name: string, popularity: real, self: real)
    ensures Recommend(Store([Film(name, popularity)], [[self]]), name) == Ok([])
  {
  }

  /** Two movies where the other one outscores the selection: the other movie is
      dropped as rank 1 and the selected movie is recommended to itself. */
  lemma SelectionCanBeRecommendedToItself()
    ensures Recommend(Store([Film("A", 0.0), Film("B", 1.0)], [[1.0, 0.9], [0.9, 1.0]]), "A") == Ok([0])
  {
    var s := Store([Film("A", 0.0), Film("B", 1.0)], [[1.0, 0.9], [0.9, 1.0]]);
    var expected := [Candidate(1, 0.93), Candidate(0, 0.7)];
    var sc := Scored(s, 0);
    assert sc[0] == Candidate(0, 0.7) && sc[1] == Candidate(1, 0.93);
    assert sc == [sc[0], sc[1]];
    assert multiset(expected) == multiset(sc);
    assert Ranked(expected);
    ShortlistIsSliceOfRanking(s, 0, expected);
    assert Shortlist(s, 0) == Rows(expected[1..2]);
    var rows := Rows(expected[1..2]);
    assert rows == [0];
    assert FirstRowNamed(s, "A") == Some(0);
  }
}
