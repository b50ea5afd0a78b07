/**
 * The recommendation lookup of the web app: the movie catalogue, the square
 * similarity matrix indexed by row position, `fetch_poster`, `recommend` and the
 * placeholder chosen when a recommendation has no usable poster.
 */
module Recommender {
  import opened Wrappers
  import opened Ranking

  /** One row of the movie table; `poster` is None where the Poster_URL cell is null. */
  datatype Movie = Movie(name: string, poster: Option<string>)

  /**
   * The two loaded artifacts: the movie table (and whether it has a Poster_URL
   * column at all) and the similarity matrix. Scores are integers, standing for
   * any totally ordered score type.
   */
  datatype Catalog = Catalog(movies: seq<Movie>, hasPosterColumn: bool, similarity: seq<seq<int>>)

  const DefaultPosterUrl: string :=
    "https://www.indieactivity.com/wp-content/uploads/2022/03/File-Not-Found-Poster.png"

  /** The matrix is n by n for n movies, so row and column j both stand for movie j. */
  ghost predicate WellFormed(c: Catalog)
  {
    |c.similarity| == |c.movies| &&
    forall i :: 0 <= i < |c.similarity| ==> |c.similarity[i]| == |c.movies|
  }

  /** Row i is the first row of the table named `name`. */
  ghost predicate IsFirstMatch(ms: seq<Movie>, name: string, i: int)
  {
    0 <= i < |ms| && ms[i].name == name &&
    forall j :: 0 <= j < i ==> ms[j].name != name
  }

  ghost predicate UniqueNames(ms: seq<Movie>)
  {
    forall a, b :: 0 <= a < b < |ms| ==> ms[a].name != ms[b].name
  }

  function Min(a: int, b: int): int
  {
    if a <= b then a else b
  }

  /** The position of the first row named `name`, if any (exact, case-sensitive match). */
  function FindIndex(ms: seq<Movie>, name: string): (r: Option<nat>)
    ensures r.Some? ==> IsFirstMatch(ms, name, r.value)
    ensures r.None? <==> forall j :: 0 <= j < |ms| ==> ms[j].name != name
  {
    if ms == [] then None
    else if ms[0].name == name then Some(0)
    else
      match FindIndex(ms[1..], name)
      case None => None
      case Some(i) =>
        assert forall j :: 1 <= j <= i ==> ms[j] == ms[1..][j - 1];
        Some(i + 1)
  }

  /**
   * The poster of the first row named `name` when that cell is not null; None when
   * the table has no Poster_URL column, no row has that name, or the cell is null.
   */
  function FetchPoster(c: Catalog, name: string): (r: Option<string>)
    ensures r.Some? ==>
      c.hasPosterColumn && exists i :: IsFirstMatch(c.movies, name, i) && c.movies[i].poster == r
    ensures r.None? <==>
      !c.hasPosterColumn || forall i :: IsFirstMatch(c.movies, name, i) ==> c.movies[i].poster.None?
  {
    if !c.hasPosterColumn then None
    else
      match FindIndex(c.movies, name)
      case None => None
      case Some(i) => c.movies[i].poster
  }

  /** `distances[1:6]`: sorted positions 1 to 5, cut short by the end of the list. */
  function Window(ranked: seq<Scored>): (w: seq<Scored>)
    ensures |w| == if ranked == [] then 0 else Min(5, |ranked| - 1)
    ensures forall k :: 0 <= k < |w| ==> w[k] == ranked[k + 1]
  {
    if |ranked| <= 1 then [] else ranked[1..Min(6, |ranked|)]
  }

  /** The columns `recommend` keeps for row i: the indices at sorted positions 1 to 5. */
  function RecommendedIndices(c: Catalog, i: nat): (ids: seq<nat>)
    requires WellFormed(c) && i < |c.movies|
    ensures |ids| == Min(5, |c.movies| - 1)
    ensures forall k :: 0 <= k < |ids| ==> ids[k] < |c.movies|
    ensures forall k :: 0 <= k < |ids| ==> ids[k] == Rank(c.similarity[i])[k + 1].index
  {
    RankEntries(c.similarity[i]);
    var w := Window(Rank(c.similarity[i]));
    seq(|w|, k requires 0 <= k < |w| => w[k].index)
  }

  /** `df.iloc[j]["movie_name"]` for each chosen column j. */
  function NamesOf(c: Catalog, ids: seq<nat>): (names: seq<string>)
    requires forall k :: 0 <= k < |ids| ==> ids[k] < |c.movies|
    ensures |names| == |ids|
    ensures forall k :: 0 <= k < |names| ==> names[k] == c.movies[ids[k]].name
  {
    seq(|ids|, k requires 0 <= k < |ids| => c.movies[ids[k]].name)
  }

  /** `recommend(movie)`: up to five similar movies' names and their posters. */
  function Recommend(c: Catalog, movie: string): (r: (seq<string>, seq<Option<string>>))
    requires WellFormed(c)
    ensures |r.0| == |r.1| <= 5
    ensures forall k :: 0 <= k < |r.1| ==> r.1[k] == FetchPoster(c, r.0[k])
    ensures (forall j :: 0 <= j < |c.movies| ==> c.movies[j].name != movie) ==> r.0 == [] && r.1 == []
    ensures forall i :: IsFirstMatch(c.movies, movie, i) ==>
      |r.0| == Min(5, |c.movies| - 1) && r.0 == NamesOf(c, RecommendedIndices(c, i))
  {
    match FindIndex(c.movies, movie)
    case None => ([], [])
    case Some(i) =>
      var names := NamesOf(c, RecommendedIndices(c, i));
      (names, seq(|names|, k requires 0 <= k < |names| => FetchPoster(c, names[k])))
  }

  /** The image shown for one recommendation: its poster if non-empty, else the placeholder. */
  function ShownPoster(poster: Option<string>): (url: string)
    ensures url != ""
    ensures poster.Some? && poster.value != "" ==> url == poster.value
    ensures (poster.None? || poster.value == "") ==> url == DefaultPosterUrl
  {
    if poster.Some? && poster.value != "" then poster.value else DefaultPosterUrl
  }

  /**
   * Along the recommendation list the scores never increase, and equal scores
   * appear in ascending column order; so no column is recommended twice.
   */
  lemma RecommendationOrder(c: Catalog, i: nat)
    requires WellFormed(c) && i < |c.movies|
    ensures forall a, b :: 0 <= a < b < |RecommendedIndices(c, i)| ==>
      c.similarity[i][RecommendedIndices(c, i)[a]] >= c.similarity[i][RecommendedIndices(c, i)[b]]
    ensures forall a, b ::
      (0 <= a < b < |RecommendedIndices(c, i)| &&
       c.similarity[i][RecommendedIndices(c, i)[a]] == c.similarity[i][RecommendedIndices(c, i)[b]]) ==>
      RecommendedIndices(c, i)[a] < RecommendedIndices(c, i)[b]
  {
    var row := c.similarity[i];
    var ids := RecommendedIndices(c, i);
    var r := Rank(row);
    RankEntries(row);
    RankIsStableDescending(row);
    forall a, b | 0 <= a < b < |ids| ensures row[ids[a]] >= row[ids[b]] &&
      (row[ids[a]] == row[ids[b]] ==> ids[a] < ids[b])
    {
      assert ids[a] == r[a + 1].index && ids[b] == r[b + 1].index;
    }
  }

  /** When the self-score is strictly the largest in its row, the movie itself ranks first. */
  lemma RankFirstIsSelf(row: seq<int>, i: nat)
    requires i < |row|
    requires forall j :: 0 <= j < |row| && j != i ==> row[i] > row[j]
    ensures Rank(row) != [] && Rank(row)[0].index == i
  {
    var r := Rank(row);
    RankEntries(row);
    RankIndicesDistinct(row);
    RankIsStableDescending(row);
    var p :| 0 <= p < |r| && r[p] == Scored(i, row[i]);
    if p > 0 {
      assert r[0].score >= r[p].score;
    }
  }

  /**
   * Dropping sorted position 0 removes the queried movie when its self-score is
   * strictly greater than every other score of its row.
   */
  lemma SelfExcludedWhenStrictMax(c: Catalog, i: nat)
    requires WellFormed(c) && i < |c.movies|
    requires forall j :: 0 <= j < |c.movies| && j != i ==> c.similarity[i][i] > c.similarity[i][j]
    ensures i !in RecommendedIndices(c, i)
  {
    var row := c.similarity[i];
    var ids := RecommendedIndices(c, i);
    RankFirstIsSelf(row, i);
    RankIndicesDistinct(row);
    forall k | 0 <= k < |ids| ensures ids[k] != i {
      assert ids[k] == Rank(row)[k + 1].index;
    }
  }

  /**
   * Under the same condition, and with unique names, the queried movie's name is
   * not among its recommendations.
   */
  lemma RecommendOmitsQueryWhenSelfStrictMax(c: Catalog, movie: string, i: nat)
    requires WellFormed(c) && UniqueNames(c.movies) && IsFirstMatch(c.movies, movie, i)
    requires forall j :: 0 <= j < |c.movies| && j != i ==> c.similarity[i][i] > c.similarity[i][j]
    ensures movie !in Recommend(c, movie).0
  {
    var ids := RecommendedIndices(c, i);
    SelfExcludedWhenStrictMax(c, i);
    var names := Recommend(c, movie).0;
    forall k | 0 <= k < |names| ensures names[k] != movie {
      assert names[k] == c.movies[ids[k]].name;
      assert ids[k] != i && ids[k] in ids;
    }
  }

  // The query excluded by value rather than by sorted position.

  /** The ranked entries whose column is not i, in ranked order. */
  function WithoutIndex(ranked: seq<Scored>, i: nat): (r: seq<Scored>)
    ensures |r| <= |ranked|
    ensures forall k :: 0 <= k < |r| ==> r[k].index != i
    ensures forall x :: x in r ==> x in ranked
  {
    if ranked == [] then []
    else (if ranked[0].index == i then [] else [ranked[0]]) + WithoutIndex(ranked[1..], i)
  }

  lemma {:induction false} WithoutAbsentIndex(ranked: seq<Scored>, i: nat)
    requires forall k :: 0 <= k < |ranked| ==> ranked[k].index != i
    ensures WithoutIndex(ranked, i) == ranked
  {
    if ranked != [] {
      WithoutAbsentIndex(ranked[1..], i);
    }
  }

  /**
   * Removing a column that occurs exactly once drops just its entry, keeping the
   * others in ranked order, and so shortens the ranking by one.
   */
  lemma {:induction false} WithoutPresentIndex(ranked: seq<Scored>, i: nat, p: nat)
    requires p < |ranked| && ranked[p].index == i
    requires forall a, b :: 0 <= a < b < |ranked| ==> ranked[a].index != ranked[b].index
    ensures WithoutIndex(ranked, i) == ranked[..p] + ranked[p + 1..]
    ensures |WithoutIndex(ranked, i)| == |ranked| - 1
  {
    var t := ranked[1..];
    if p == 0 {
      WithoutAbsentIndex(t, i);
    } else {
      assert ranked[0].index != i;
      WithoutPresentIndex(t, i, p - 1);
      assert t[..p - 1] == ranked[1..p] && t[p..] == ranked[p + 1..];
      assert [ranked[0]] + ranked[1..p] == ranked[..p];
    }
  }

  /** Order along the ranking survives the removal of one column. */
  lemma {:induction false} WithoutIndexKeepsOrder(ranked: seq<Scored>, i: nat)
    requires NonIncreasing(ranked)
    ensures NonIncreasing(WithoutIndex(ranked, i))
  {
    if ranked != [] {
      var t := ranked[1..];
      assert NonIncreasing(t) by {
        forall a, b | 0 <= a < b < |t| ensures t[a].score >= t[b].score {
          assert t[a] == ranked[a + 1] && t[b] == ranked[b + 1];
        }
      }
      WithoutIndexKeepsOrder(t, i);
      var rest := WithoutIndex(t, i);
      var r := WithoutIndex(ranked, i);
      if ranked[0].index != i {
        assert r == [ranked[0]] + rest;
        forall b | 0 < b < |r| ensures ranked[0].score >= r[b].score {
          assert r[b] == rest[b - 1] && rest[b - 1] in t;
          var k :| 0 <= k < |t| && t[k] == rest[b - 1];
          assert ranked[k + 1] == t[k];
        }
      }
    }
  }

  /** The columns recommended for row i when the query is excluded by value. */
  function CorrectedIndices(c: Catalog, i: nat): (ids: seq<nat>)
    requires WellFormed(c) && i < |c.movies|
    ensures |ids| <= 5
    ensures forall k :: 0 <= k < |ids| ==> ids[k] < |c.movies| && ids[k] != i
  {
    RankEntries(c.similarity[i]);
    var others := WithoutIndex(Rank(c.similarity[i]), i);
    var w := others[..Min(5, |others|)];
    assert forall k :: 0 <= k < |w| ==> w[k] == others[k] && others[k] in others;
    seq(|w|, k requires 0 <= k < |w| => w[k].index)
  }

  /**
   * Without its single entry for column i, the ranking's entry k is the original
   * entry k before that entry's position p and entry k + 1 from p on; no column
   * appears twice.
   */
  lemma WithoutPresentIndexEntries(ranked: seq<Scored>, i: nat, p: nat)
    requires p < |ranked| && ranked[p].index == i
    requires forall a, b :: 0 <= a < b < |ranked| ==> ranked[a].index != ranked[b].index
    ensures |WithoutIndex(ranked, i)| == |ranked| - 1
    ensures forall k :: 0 <= k < p ==> WithoutIndex(ranked, i)[k] == ranked[k]
    ensures forall k :: p <= k < |WithoutIndex(ranked, i)| ==> WithoutIndex(ranked, i)[k] == ranked[k + 1]
    ensures forall a, b :: 0 <= a < b < |WithoutIndex(ranked, i)| ==>
      WithoutIndex(ranked, i)[a].index != WithoutIndex(ranked, i)[b].index
  {
    WithoutPresentIndex(ranked, i, p);
    var others := WithoutIndex(ranked, i);
    forall a, b | 0 <= a < b < |others| ensures others[a].index != others[b].index {
      var a' := if a < p then a else a + 1;
      var b' := if b < p then b else b + 1;
      assert others[a] == ranked[a'] && others[b] == ranked[b'] && a' < b';
    }
  }

  /**
   * Excluding by value still yields min(5, n - 1) columns, scores non-increasing
   * along the list.
   */
  lemma CorrectedIndicesFacts(c: Catalog, i: nat)
    requires WellFormed(c) && i < |c.movies|
    ensures |CorrectedIndices(c, i)| == Min(5, |c.movies| - 1)
    ensures forall a, b :: 0 <= a < b < |CorrectedIndices(c, i)| ==>
      c.similarity[i][CorrectedIndices(c, i)[a]] >= c.similarity[i][CorrectedIndices(c, i)[b]]
  {
    var row := c.similarity[i];
    var r := Rank(row);
    var others := WithoutIndex(r, i);
    assert |others| == |r| - 1 by {
      RankIndicesDistinct(row);
      var p :| 0 <= p < |r| && r[p] == Scored(i, row[i]);
      WithoutPresentIndex(r, i, p);
    }
    assert forall k :: 0 <= k < |others| ==> others[k].index < |row| && others[k].score == row[others[k].index] by {
      RankEntries(row);
      forall k | 0 <= k < |others| ensures others[k].index < |row| && others[k].score == row[others[k].index] {
        assert others[k] in r;
      }
    }
    assert NonIncreasing(others) by {
      RankIsStableDescending(row);
      WithoutIndexKeepsOrder(r, i);
    }
    var ids := CorrectedIndices(c, i);
    forall a, b | 0 <= a < b < |ids| ensures row[ids[a]] >= row[ids[b]] {
      assert ids[a] == others[a].index && ids[b] == others[b].index;
    }
  }

  /**
   * Columns read off the leading entries of a ranking without column i (which
   * occurs once, at position p) are ranked columns k before p and k + 1 from p
   * on, and no column repeats.
   */
  lemma LeadingColumnsWithout(ranked: seq<Scored>, i: nat, p: nat, ids: seq<nat>)
    requires p < |ranked| && ranked[p].index == i
    requires forall a, b :: 0 <= a < b < |ranked| ==> ranked[a].index != ranked[b].index
    requires |ids| <= |WithoutIndex(ranked, i)|
    requires forall k :: 0 <= k < |ids| ==> ids[k] == WithoutIndex(ranked, i)[k].index
    ensures forall k :: 0 <= k < |ids| ==>
      (k < p ==> ids[k] == ranked[k].index) && (p <= k ==> k + 1 < |ranked| && ids[k] == ranked[k + 1].index)
    ensures forall a, b :: 0 <= a < b < |ids| ==> ids[a] != ids[b]
  {
    WithoutPresentIndexEntries(ranked, i, p);
    var others := WithoutIndex(ranked, i);
    forall k | 0 <= k < |ids|
      ensures (k < p ==> ids[k] == ranked[k].index) && (p <= k ==> k + 1 < |ranked| && ids[k] == ranked[k + 1].index)
    {
      if k < p {
        assert others[k] == ranked[k];
      } else {
        assert others[k] == ranked[k + 1];
      }
    }
    forall a, b | 0 <= a < b < |ids| ensures ids[a] != ids[b] {
      assert ids[a] == others[a].index && ids[b] == others[b].index;
    }
  }

  /**
   * The corrected columns are the leading entries of the ranking once the
   * queried column's entry, at position p, is taken out: entry k is ranked
   * entry k before p and ranked entry k + 1 from p on. No column repeats.
   */
  lemma CorrectedIndicesSkipQuery(c: Catalog, i: nat, p: nat)
    requires WellFormed(c) && i < |c.movies|
    requires p < |Rank(c.similarity[i])| && Rank(c.similarity[i])[p].index == i
    ensures forall k :: 0 <= k < |CorrectedIndices(c, i)| ==>
      (k < p ==> CorrectedIndices(c, i)[k] == Rank(c.similarity[i])[k].index) &&
      (p <= k ==> k + 1 < |Rank(c.similarity[i])| && CorrectedIndices(c, i)[k] == Rank(c.similarity[i])[k + 1].index)
    ensures forall a, b :: 0 <= a < b < |CorrectedIndices(c, i)| ==> CorrectedIndices(c, i)[a] != CorrectedIndices(c, i)[b]
  {
    var row := c.similarity[i];
    var r := Rank(row);
    assert forall a, b :: 0 <= a < b < |r| ==> r[a].index != r[b].index by {
      RankIndicesDistinct(row);
    }
    var ids := CorrectedIndices(c, i);
    assert |ids| <= |WithoutIndex(r, i)|;
    assert forall k :: 0 <= k < |ids| ==> ids[k] == WithoutIndex(r, i)[k].index;
    LeadingColumnsWithout(r, i, p, ids);
  }

  /**
   * Where the queried movie ranks first in its own row (in particular when its
   * self-score is strictly maximal) both ways of excluding it agree.
   */
  lemma CorrectedAgreesWhenSelfFirst(c: Catalog, i: nat)
    requires WellFormed(c) && i < |c.movies|
    requires Rank(c.similarity[i])[0].index == i
    ensures CorrectedIndices(c, i) == RecommendedIndices(c, i)
  {
    var r := Rank(c.similarity[i]);
    RankIndicesDistinct(c.similarity[i]);
    WithoutAbsentIndex(r[1..], i);
    assert WithoutIndex(r, i) == r[1..];
  }

  /** `recommend` with the query excluded by its row index instead of by position 0. */
  function RecommendExcludingSelf(c: Catalog, movie: string): (r: (seq<string>, seq<Option<string>>))
    requires WellFormed(c)
    ensures |r.0| == |r.1| <= 5
    ensures forall k :: 0 <= k < |r.1| ==> r.1[k] == FetchPoster(c, r.0[k])
    ensures (forall j :: 0 <= j < |c.movies| ==> c.movies[j].name != movie) ==> r.0 == [] && r.1 == []
    ensures forall i :: IsFirstMatch(c.movies, movie, i) ==> r.0 == NamesOf(c, CorrectedIndices(c, i))
    ensures UniqueNames(c.movies) ==> movie !in r.0
  {
    match FindIndex(c.movies, movie)
    case None => ([], [])
    case Some(i) =>
      var ids := CorrectedIndices(c, i);
      var names := NamesOf(c, ids);
      assert UniqueNames(c.movies) ==> movie !in names by {
        if UniqueNames(c.movies) {
          forall k | 0 <= k < |names| ensures names[k] != movie {
            assert ids[k] != i;
          }
        }
      }
      (names, seq(|names|, k requires 0 <= k < |names| => FetchPoster(c, names[k])))
  }

  /** Two films whose rows score both films 5. */
  function TieCatalog(): Catalog
  {
    Catalog([Movie("Inception", None), Movie("Tenet", None)], true, [[5, 5], [5, 5]])
  }

  /** With equal scores the stable sort keeps column order. */
  lemma TieRanking()
    ensures Rank([5, 5]) == [Scored(0, 5), Scored(1, 5)]
  {
    assert Enumerate([5, 5]) == [Scored(0, 5), Scored(1, 5)];
    RankIsDetermined([5, 5], [Scored(0, 5), Scored(1, 5)]);
  }

  /**
   * A tie with the self-score: the stable sort puts column 0 first, and dropping
   * position 0 leaves the queried movie recommended to itself.
   */
  lemma SelfTieCounterexample()
    ensures WellFormed(TieCatalog()) && UniqueNames(TieCatalog().movies)
    ensures Recommend(TieCatalog(), "Tenet").0 == ["Tenet"]
  {
    var c := TieCatalog();
    assert WellFormed(c) && UniqueNames(c.movies);
    assert IsFirstMatch(c.movies, "Tenet", 1);
    TieRanking();
    assert c.similarity[1] == [5, 5];
    var ids := RecommendedIndices(c, 1);
    assert |ids| == 1 && ids[0] == 1;
    var names := NamesOf(c, ids);
    assert |names| == 1 && names[0] == "Tenet";
    assert names == [names[0]];
  }

  /** Excluding the query by its row index, "Tenet" gets the other film of the tie. */
  lemma CorrectedTieScenario()
    ensures RecommendExcludingSelf(TieCatalog(), "Tenet").0 == ["Inception"]
  {
    var c := TieCatalog();
    assert WellFormed(c);
    assert IsFirstMatch(c.movies, "Tenet", 1);
    TieRanking();
    assert c.similarity[1] == [5, 5];
    CorrectedIndicesFacts(c, 1);
    CorrectedIndicesSkipQuery(c, 1, 1);
    var ids := CorrectedIndices(c, 1);
    assert |ids| == 1 && ids[0] == 0;
    var names := NamesOf(c, ids);
    assert |names| == 1 && names[0] == "Inception";
    assert names == [names[0]];
  }

  /** Two films, each scoring the other 9 and itself 1. */
  function OutrankedCatalog(): Catalog
  {
    Catalog([Movie("A", None), Movie("B", None)], true, [[1, 9], [9, 1]])
  }

  /** A higher score moves a later column ahead of an earlier one. */
  lemma OutrankedRanking()
    ensures Rank([1, 9]) == [Scored(1, 9), Scored(0, 1)]
  {
    var s := [Scored(1, 9), Scored(0, 1)];
    assert Enumerate([1, 9]) == [Scored(0, 1), Scored(1, 9)];
    assert multiset(s) == multiset([Scored(0, 1), Scored(1, 9)]);
    RankIsDetermined([1, 9], s);
  }

  /**
   * The self-score need not be the largest at all: when another column scores
   * strictly higher, that column takes sorted position 0, is dropped, and the
   * queried movie is recommended to itself.
   */
  lemma SelfOutrankedCounterexample()
    ensures WellFormed(OutrankedCatalog()) && UniqueNames(OutrankedCatalog().movies)
    ensures Recommend(OutrankedCatalog(), "A").0 == ["A"]
  {
    var c := OutrankedCatalog();
    assert WellFormed(c) && UniqueNames(c.movies);
    assert IsFirstMatch(c.movies, "A", 0);
    OutrankedRanking();
    assert c.similarity[0] == [1, 9];
    var ids := RecommendedIndices(c, 0);
    assert |ids| == 1 && ids[0] == 0;
    var names := NamesOf(c, ids);
    assert |names| == 1 && names[0] == "A";
    assert names == [names[0]];
  }

  /** Three films; the first one's row scores them 10, 8 and 6. */
  function ThreeFilmCatalog(): Catalog
  {
    Catalog([Movie("Inception", None), Movie("Interstellar", None), Movie("Tenet", None)],
            true, [[10, 8, 6], [8, 10, 7], [6, 7, 10]])
  }

  /** Distinct scores are sorted in descending order. */
  lemma ThreeFilmRanking()
    ensures Rank([10, 8, 6]) == [Scored(0, 10), Scored(1, 8), Scored(2, 6)]
  {
    assert Enumerate([10, 8, 6]) == [Scored(0, 10), Scored(1, 8), Scored(2, 6)];
    RankIsDetermined([10, 8, 6], [Scored(0, 10), Scored(1, 8), Scored(2, 6)]);
  }

  /**
   * A two-element sequence equals the literal built from its entries. Stated
   * apart only to split the proof cost of `ThreeFilmScenario`.
   */
  lemma PairOfNames(names: seq<string>)
    requires |names| == 2
    ensures names == [names[0], names[1]]
  {
  }

  /** The other two films come back in score order. */
  lemma ThreeFilmScenario()
    ensures WellFormed(ThreeFilmCatalog())
    ensures Recommend(ThreeFilmCatalog(), "Inception").0 == ["Interstellar", "Tenet"]
  {
    var c := ThreeFilmCatalog();
    assert WellFormed(c);
    assert IsFirstMatch(c.movies, "Inception", 0);
    ThreeFilmRanking();
    assert c.similarity[0] == [10, 8, 6];
    var ids := RecommendedIndices(c, 0);
    assert |ids| == 2 && ids[0] == 1 && ids[1] == 2;
    var names := NamesOf(c, ids);
    assert |names| == 2 && names[0] == "Interstellar" && names[1] == "Tenet";
    PairOfNames(names);
  }
}
