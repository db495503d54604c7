/** The ranking engine: score every catalog row against the selected row, sort
    the scored rows by score (descending, stable), drop the top-ranked row and
    keep the next five. */
module Ranking {
  import opened Outcomes
  import opened Catalog

  /** A scored row: the `(i, score)` pair built for every catalog row. */
  datatype Candidate = Candidate(row: nat, score: real)

  /** The error raised when the selected name matches no catalog row. */
  datatype RankingError = MovieNotFound(name: string)

  /** Number of rows returned after the top-ranked row is dropped. */
  const ShortlistLength: nat := 5

  function Min(a: int, b: int): int {
    if a <= b then a else b
  }

  /** `a` comes before `b` in the full ranking: a higher score, or the same
      score and a lower catalog row. */
  predicate Outranks(a: Candidate, b: Candidate) {
    a.score > b.score || (a.score == b.score && a.row < b.row)
  }

  /** Ordered by score descending, ties by row ascending. */
  predicate Ranked(s: seq<Candidate>) {
    forall i, j :: 0 <= i < j < |s| ==> Outranks(s[i], s[j])
  }

  /** Scores never increase along the sequence. */
  predicate NonIncreasing(s: seq<Candidate>) {
    forall i, j :: 0 <= i < j < |s| ==> s[i].score >= s[j].score
  }

  /** Rows strictly increase along the sequence (the order rows were scored in). */
  predicate RowsAscending(s: seq<Candidate>) {
    forall i, j :: 0 <= i < j < |s| ==> s[i].row < s[j].row
  }

  /** The scores of rows `0 .. k-1`, each paired with its row, in row order. */
  function ScoreRows(s: Store, sel: nat, k: nat): (r: seq<Candidate>)
    requires WellFormed(s) && sel < Size(s) && k <= Size(s)
    ensures |r| == k
    ensures forall j :: 0 <= j < k ==>
      r[j].row == j && r[j].score == 0.7 * s.similarity[sel][j] + 0.3 * s.movies[j].popularity
  {
    if k == 0 then [] else ScoreRows(s, sel, k - 1) + [Candidate(k - 1, Score(s, sel, k - 1))]
  }

  /** Every catalog row, selected row included, scored against `sel`. */
  function Scored(s: Store, sel: nat): seq<Candidate>
    requires WellFormed(s) && sel < Size(s)
  {
    ScoreRows(s, sel, Size(s))
  }

  /** Inserts `x` in front of the first element whose score does not exceed
      `x`'s, so `x` stays ahead of elements with an equal score. */
  function Insert(x: Candidate, t: seq<Candidate>): (r: seq<Candidate>)
    ensures multiset(r) == multiset(t) + multiset{x}
  {
    if |t| == 0 || x.score >= t[0].score then
      [x] + t
    else
      assert t == [t[0]] + t[1..];
      [t[0]] + Insert(x, t[1..])
  }

  lemma {:induction false} InsertNonIncreasing(x: Candidate, t: seq<Candidate>)
    requires NonIncreasing(t)
    ensures NonIncreasing(Insert(x, t))
  {
    if |t| == 0 || x.score >= t[0].score {
    } else {
      InsertNonIncreasing(x, t[1..]);
      var r := Insert(x, t[1..]);
      forall k | 0 <= k < |r| ensures t[0].score >= r[k].score {
        assert r[k] in multiset(t[1..]) + multiset{x};
      }
    }
  }

  /** Inserting a row lower than every row of a ranked sequence keeps it ranked:
      an equal score places the new row first, which is its place by row. */
  lemma {:induction false} InsertRanked(x: Candidate, t: seq<Candidate>)
    requires Ranked(t)
    requires forall k :: 0 <= k < |t| ==> x.row < t[k].row
    ensures Ranked(Insert(x, t))
  {
    if |t| == 0 || x.score >= t[0].score {
    } else {
      InsertRanked(x, t[1..]);
      var r := Insert(x, t[1..]);
      forall k | 0 <= k < |r| ensures Outranks(t[0], r[k]) {
        assert r[k] in multiset(t[1..]) + multiset{x};
      }
    }
  }

  /** Stable sort by score, highest first: an element is placed ahead of later
      elements with an equal score, so equal scores keep their input order. */
  function SortByScoreDesc(s: seq<Candidate>): (r: seq<Candidate>)
    ensures multiset(r) == multiset(s)
    ensures NonIncreasing(r)
  {
    if |s| == 0 then []
    else
      assert s == [s[0]] + s[1..];
      var t := SortByScoreDesc(s[1..]);
      InsertNonIncreasing(s[0], t);
      Insert(s[0], t)
  }

  /** Stability of the sort, stated for input listed in ascending row order: the
      output breaks ties by ascending row. */
  lemma {:induction false} SortRanksAscendingRows(s: seq<Candidate>)
    requires RowsAscending(s)
    ensures Ranked(SortByScoreDesc(s))
  {
    if |s| > 0 {
      assert s == [s[0]] + s[1..];
      var t := SortByScoreDesc(s[1..]);
      HeadRowBelowRest(s, t);
      SortRanksAscendingRows(s[1..]);
      InsertRanked(s[0], t);
    }
  }

  /** In rows listed in ascending order, the first row is below every row of
      any rearrangement of the rest. */
  lemma HeadRowBelowRest(s: seq<Candidate>, t: seq<Candidate>)
    requires |s| > 0 && RowsAscending(s) && multiset(t) == multiset(s[1..])
    ensures RowsAscending(s[1..])
    ensures forall k :: 0 <= k < |t| ==> s[0].row < t[k].row
  {
    forall k | 0 <= k < |t| ensures s[0].row < t[k].row {
      assert t[k] in multiset(s[1..]);
    }
  }

  /** The row of each candidate, in order. */
  function Rows(s: seq<Candidate>): (r: seq<nat>)
    ensures |r| == |s|
    ensures forall k :: 0 <= k < |s| ==> r[k] == s[k].row
  {
    seq(|s|, k requires 0 <= k < |s| => s[k].row)
  }

  /** `ranking` is a full ranking of the catalog for `sel`: all scored rows,
      each once, ordered by score descending then row ascending. */
  predicate IsRankingOf(s: Store, sel: nat, ranking: seq<Candidate>)
    requires WellFormed(s) && sel < Size(s)
  {
    Ranked(ranking) && multiset(ranking) == multiset(Scored(s, sel))
  }

  /** The full ranking, as the stable descending sort of the scored rows. */
  function FullRanking(s: Store, sel: nat): (r: seq<Candidate>)
    requires WellFormed(s) && sel < Size(s)
    ensures IsRankingOf(s, sel, r)
  {
    SortRanksAscendingRows(Scored(s, sel));
    SortByScoreDesc(Scored(s, sel))
  }

  /** Facts every full ranking shares: it has one entry per row, every entry
      carries a valid row and that row's score, and every row appears. */
  lemma RankingFacts(s: Store, sel: nat, ranking: seq<Candidate>)
    requires WellFormed(s) && sel < Size(s) && IsRankingOf(s, sel, ranking)
    ensures |ranking| == Size(s)
    ensures forall p :: 0 <= p < |ranking| ==>
      ranking[p].row < Size(s) && ranking[p].score == Score(s, sel, ranking[p].row)
    ensures forall j :: 0 <= j < Size(s) ==> Candidate(j, Score(s, sel, j)) in ranking
  {
    var sc := Scored(s, sel);
    assert |ranking| == |multiset(ranking)| == |multiset(sc)| == |sc|;
    forall p | 0 <= p < |ranking|
      ensures ranking[p].row < Size(s) && ranking[p].score == Score(s, sel, ranking[p].row)
    {
      assert ranking[p] in multiset(sc);
    }
    forall j | 0 <= j < Size(s)
      ensures Candidate(j, Score(s, sel, j)) in ranking
    {
      assert sc[j] in multiset(ranking);
    }
  }

  /** Two rankings of the same elements are the same sequence: the relational
      specification determines the order completely. */
  lemma {:induction false} RankedPermutationUnique(a: seq<Candidate>, b: seq<Candidate>)
    requires Ranked(a) && Ranked(b) && multiset(a) == multiset(b)
    ensures a == b
    decreases |a|
  {
    if |a| == 0 {
      assert |b| == |multiset(b)| == 0;
    } else {
      assert |b| == |multiset(b)| == |multiset(a)| == |a|;
      assert a[0] in multiset(b);
      assert b[0] in multiset(a);
      var p :| 0 <= p < |b| && b[p] == a[0];
      var q :| 0 <= q < |a| && a[q] == b[0];
      assert p == 0;
      assert a[0] == b[0];
      assert a == [a[0]] + a[1..];
      assert b == [b[0]] + b[1..];
      assert multiset(a[1..]) == multiset(a) - multiset{a[0]};
      assert multiset(b[1..]) == multiset(b) - multiset{b[0]};
      RankedPermutationUnique(a[1..], b[1..]);
    }
  }

  /** The rows at ranks 2 through 6 of the full ranking for `sel`. */
  function Shortlist(s: Store, sel: nat): (r: seq<nat>)
    requires WellFormed(s) && sel < Size(s)
    ensures |r| == Min(ShortlistLength, Size(s) - 1)
    ensures forall k :: 0 <= k < |r| ==> r[k] < Size(s)
    ensures forall i, j :: 0 <= i < j < |r| ==> r[i] != r[j]
    ensures forall i, j :: 0 <= i < j < |r| ==>
      Score(s, sel, r[i]) > Score(s, sel, r[j]) ||
      (Score(s, sel, r[i]) == Score(s, sel, r[j]) && r[i] < r[j])
  {
    var ranking := FullRanking(s, sel);
    RankingFacts(s, sel, ranking);
    Rows(ranking[1..Min(ShortlistLength + 1, Size(s))])
  }

  /** The shortlist is ranks 2 through 6 of ANY full ranking for `sel`: exactly
      the `[1:6]` slice of the stable descending sort. */
  lemma ShortlistIsSliceOfRanking(s: Store, sel: nat, ranking: seq<Candidate>)
    requires WellFormed(s) && sel < Size(s) && IsRankingOf(s, sel, ranking)
    ensures |ranking| == Size(s)
    ensures Shortlist(s, sel) == Rows(ranking[1..Min(ShortlistLength + 1, Size(s))])
  {
    RankingFacts(s, sel, ranking);
    RankedPermutationUnique(ranking, FullRanking(s, sel));
  }

  /** The one row dropped from the head of the ranking scores at least as high
      as every catalog row, and is not in the shortlist. */
  lemma DroppedRowIsTop(s: Store, sel: nat, ranking: seq<Candidate>)
    requires WellFormed(s) && sel < Size(s) && IsRankingOf(s, sel, ranking)
    ensures |ranking| > 0
    ensures ranking[0].row < Size(s) && ranking[0].row !in Shortlist(s, sel)
    ensures forall j :: 0 <= j < Size(s) ==> Score(s, sel, j) <= Score(s, sel, ranking[0].row)
  {
    RankingFacts(s, sel, ranking);
    ShortlistIsSliceOfRanking(s, sel, ranking);
    var r := Shortlist(s, sel);
    forall k | 0 <= k < |r| ensures r[k] != ranking[0].row {
      assert Outranks(ranking[0], ranking[k + 1]);
    }
    forall j | 0 <= j < Size(s) ensures Score(s, sel, j) <= Score(s, sel, ranking[0].row) {
      assert Candidate(j, Score(s, sel, j)) in ranking;
    }
  }

  /** Every shortlisted row outranks every row left out, apart from the dropped
      top row: the shortlist holds the best rows after the top one. */
  lemma ExcludedRowsRankBelow(s: Store, sel: nat, ranking: seq<Candidate>)
    requires WellFormed(s) && sel < Size(s) && IsRankingOf(s, sel, ranking)
    ensures |ranking| > 0
    ensures var r := Shortlist(s, sel);
      forall j, k :: (0 <= j < Size(s) && j != ranking[0].row && j !in r && 0 <= k < |r|) ==>
        Outranks(Candidate(r[k], Score(s, sel, r[k])), Candidate(j, Score(s, sel, j)))
  {
    RankingFacts(s, sel, ranking);
    ShortlistIsSliceOfRanking(s, sel, ranking);
    var r := Shortlist(s, sel);
    var m := Min(ShortlistLength + 1, Size(s));
    forall j, k | 0 <= j < Size(s) && j != ranking[0].row && j !in r && 0 <= k < |r|
      ensures Outranks(Candidate(r[k], Score(s, sel, r[k])), Candidate(j, Score(s, sel, j)))
    {
      assert Candidate(j, Score(s, sel, j)) in ranking;
      var p :| 0 <= p < |ranking| && ranking[p] == Candidate(j, Score(s, sel, j));
      assert forall q :: 1 <= q < m ==> ranking[q].row == r[q - 1];
      assert p >= m;
      assert ranking[k + 1] == Candidate(r[k], Score(s, sel, r[k]));
    }
  }

  /** When the selected row strictly outscores every other row, the dropped row
      is the selected one, so it is never recommended to itself. */
  lemma SelectionDroppedWhenStrictlyTop(s: Store, sel: nat)
    requires WellFormed(s) && sel < Size(s)
    requires forall j :: 0 <= j < Size(s) && j != sel ==> Score(s, sel, j) < Score(s, sel, sel)
    ensures sel !in Shortlist(s, sel)
  {
    var ranking := FullRanking(s, sel);
    DroppedRowIsTop(s, sel, ranking);
  }

  /** Recommendations for the movie named `movie`: the shortlist of the first
      row with that name, or `MovieNotFound` when no row has it. */
  function Recommend(s: Store, movie: string): (r: Result<seq<nat>, RankingError>)
    requires WellFormed(s)
    ensures r.Err? <==> NoneNamedFrom(s.movies, movie, 0)
    ensures r.Err? ==> r.error == MovieNotFound(movie)
    ensures forall sel :: IsFirstNamed(s.movies, movie, sel) ==> r == Ok(Shortlist(s, sel))
    ensures r.Ok? ==> 1 <= Size(s) && |r.value| == Min(ShortlistLength, Size(s) - 1)
  {
    match FirstRowNamed(s, movie)
    case None => Err(MovieNotFound(movie))
    case Some(sel) => Ok(Shortlist(s, sel))
  }
}
