# Movie recommender: recommendation lookup and poster backfill

A Dafny model of the two pieces of logic in this movie recommendation system.

- **Recommendation lookup** (`app.py`). The catalogue is a table of movies plus a square similarity matrix. Row and column `j` of the matrix stand for row `j` of the table. `recommend(movie)` finds the first row with that name. It sorts that row's `(column, score)` pairs by descending score with Python's stable sort. It then drops sorted position 0, keeps positions 1 to 5, turns each column back into a movie name, and fetches each name's poster. `fetch_poster(name)` returns the first matching row's poster when the cell is not null. The page shows a placeholder image when a poster is missing or empty.
- **Poster backfill** (`fill.py`). One pass over the dataset's rows. Each row whose `Poster_URL` cell is null gets looked up by title and year. Any non-empty URL the lookup returns is written into that cell in place.

Files:

- `wrappers.dfy`: module `Wrappers`, the `Option` type used for nullable cells.
- `ranking.dfy`: module `Ranking`, the step `sorted(enumerate(row), key=score, reverse=True)`. It is a stable insertion sort by score alone. The lemmas prove that the result is a permutation of the row's pairs, that scores never increase along it, and that equal scores come in ascending column order. They also prove that these three properties determine the result uniquely. So the model returns exactly what Python's sort returns, whatever algorithm Python uses.
- `recommender.dfy`: module `Recommender`, covering `fetch_poster`, `recommend`, the placeholder choice and their properties. It also holds the corrected recommendation described under Findings.
- `backfill.dfy`: module `PosterBackfill`. The loop is a method over `array<Row>` that updates rows in place. It returns the indices of the rows it looked up and the number of sleeps. It is proved against the functions `Backfilled` and `Lookups`, and lemmas about those functions state the frame conditions.

Modelling choices:

- Scores are `int`, standing for any totally ordered score type.
- A nullable cell is an `Option`.
- The catalogue records whether the table has a `Poster_URL` column at all, because `fetch_poster` checks for it.
- Duplicate names: posters are looked up by name, so with duplicate names a recommended row gets the poster of the first row with that name. The model keeps this as the code does.
- `recommend` requires a well-formed catalogue: an `n`×`n` matrix for `n` rows.
- The HTTP request and the decoding of its JSON body form an oracle `api: (string, int) -> Reply`. A `Reply` is either a raised exception or a JSON object. What `fetch_poster_url` does with the reply is modelled as `FetchPosterUrl`.

## Model

| member | source | states |
|---|---|---|
| Recommender.FindIndex | app.py:31-38 | Returns a row only if it is the first row with exactly that name. Returns None exactly when no row has the name. |
| Recommender.FetchPoster | app.py:19-27 | Returns a poster only if the table has a Poster_URL column, and then the result is the non-null cell of the first row with that name. Returns None exactly when the column is missing or the first matching row's cell is null; a name that matches no row also gives None. |
| Recommender.NamesOf | app.py:41 | One name per chosen column, in order: entry k is the name of the movie in row `ids[k]`. |
| Recommender.Window | app.py:41 | The slice `[1:6]` holds min(5, n-1) entries, and entry k is sorted position k+1. |
| Recommender.RecommendedIndices | app.py:39-41 | The columns kept for row i: there are min(5, n-1) of them, each a valid row, and entry k is the column at sorted position k+1. |
| Recommender.Recommend | app.py:30-44 | Returns two lists of equal length, at most 5. Entry k of the poster list is the poster fetched for name k. An absent name gives two empty lists. A found name yields min(5, n-1) names: the movies of the columns chosen from the first matching row. |
| Recommender.ShownPoster | app.py:70 | The image shown is the poster when it is a non-empty string and the placeholder `DefaultPosterUrl` (app.py:16) otherwise; it is never empty. |
| Recommender.RecommendationOrder | app.py:39-41 | Along the recommendation list, scores never increase and equal scores appear in ascending column order, so no column appears twice. |
| Recommender.RankFirstIsSelf | app.py:39 | If the self-score is strictly greater than every other score in the row, the queried column is at sorted position 0. |
| Recommender.SelfExcludedWhenStrictMax | app.py:39-41 | If the self-score is strictly maximal, the queried row is not among the recommended columns. |
| Recommender.RecommendOmitsQueryWhenSelfStrictMax | app.py:30-44 | If names are unique and the self-score is strictly maximal, the queried name is not among the recommended names. |
| Recommender.TieRanking | app.py:39 | Equal scores keep their column order: the row [5, 5] sorts to columns 0, 1. |
| Recommender.SelfTieCounterexample | app.py:39-41 | Movies "Inception" and "Tenet" with similarity row [5, 5] for "Tenet": `recommend("Tenet")` returns ["Tenet"], so the movie is recommended to itself. |
| Recommender.OutrankedRanking | app.py:39 | A higher score goes first even from a later column: the row [1, 9] sorts to columns 1, 0. |
| Recommender.SelfOutrankedCounterexample | app.py:39-41 | Movies "A" and "B" with similarity rows [[1, 9], [9, 1]]: `recommend("A")` returns ["A"], because "B" outscores "A" in A's own row and is the entry dropped. |
| Recommender.ThreeFilmRanking | app.py:39 | Distinct scores sort in descending order: the row [10, 8, 6] sorts to columns 0, 1, 2. |
| Recommender.ThreeFilmScenario | app.py:30-44 | "Inception" with row [10, 8, 6] gets the recommendations ["Interstellar", "Tenet"], in that order. |
| Recommender.WithoutIndex | app.py:39-41 | Removing column i from the ranking leaves no entry for column i, and every entry that remains came from the ranking. |
| Recommender.WithoutAbsentIndex | app.py:39-41 | If column i does not occur in the ranking, removing it changes nothing. |
| Recommender.WithoutPresentIndex | app.py:39-41 | Removing a column that occurs exactly once, at position p, leaves exactly the ranking before p followed by the ranking after p, one entry shorter. |
| Recommender.WithoutPresentIndexEntries | app.py:39-41 | After that removal, entry k is ranked entry k before p and ranked entry k + 1 from p on, and no column appears twice. |
| Recommender.LeadingColumnsWithout | app.py:39-41 | Columns read off the leading entries of that shortened ranking are ranked columns k before p and k + 1 from p on, all distinct. |
| Recommender.WithoutIndexKeepsOrder | app.py:39-41 | Removing a column keeps scores non-increasing. |
| Recommender.CorrectedIndices | app.py:39-41 | Corrected selection: at most 5 valid columns, none of them the queried row. |
| Recommender.CorrectedIndicesFacts | app.py:39-41 | The corrected selection still has min(5, n-1) columns, with non-increasing scores. |
| Recommender.CorrectedIndicesSkipQuery | app.py:39-41 | The corrected selection is the leading part of the ranking with only the queried column's entry (at position p) taken out: entry k is the column at sorted position k before p and k + 1 from p on, and no column repeats. |
| Recommender.CorrectedAgreesWhenSelfFirst | app.py:39-41 | When the queried row ranks first in its own row, the corrected selection equals the columns `recommend` keeps. |
| Recommender.RecommendExcludingSelf | app.py:30-44 | The corrected `recommend` has the same poster and not-found behaviour as `Recommend`. With unique names it never returns the queried name. |
| Recommender.CorrectedTieScenario | app.py:30-44 | On the tie example, the corrected `recommend("Tenet")` returns ["Inception"], the other film. |
| Ranking.Enumerate | app.py:39 | `enumerate(row)`: one pair per column, pair j is `(j, row[j])`, so the columns come in ascending order. |
| Ranking.InsertDesc | app.py:39 | One insertion step of the sort adds exactly one entry and keeps all the others. |
| Ranking.SortDesc | app.py:39 | The sort is a permutation of its input. |
| Ranking.Rank | app.py:39 | The sorted list has one entry per column of the row. |
| Ranking.InsertDescRanked | app.py:39 | Inserting a later entry into a ranked list keeps it ranked: higher score first, ties by lower column. |
| Ranking.SortDescRanked | app.py:39 | Sorting entries given in ascending column order yields a list ranked by score, ties in column order. This is the stability of the sort. |
| Ranking.RankEntries | app.py:39 | Every sorted entry is a genuine pair `(j, row[j])` with `j` a valid column. |
| Ranking.RankIsStableDescending | app.py:39 | The sorted list is a permutation of `enumerate(row)`. Its scores never increase, and tied scores keep ascending column order. |
| Ranking.RankIndicesDistinct | app.py:39 | Each column of the row appears in the sorted list, and no column appears twice. |
| Ranking.RankedUnique | app.py:39 | Two ranked lists with the same entries are equal. |
| Ranking.RankIsDetermined | app.py:39 | Any permutation of `enumerate(row)` that has non-increasing scores and ties in column order is the sorted list, so the model matches Python's stable sort. |
| PosterBackfill.Get | fill.py:18-19 | `data.get(key)`: the field's value when the key is present, None when it is missing. |
| PosterBackfill.FetchPosterUrl | fill.py:13-22 | A URL comes back only from a reply that `Succeeded` (its "Response" field is "True", fill.py:18), and such a reply yields its "Poster" field. An exception yields None. Whether the URL is written back is decided by `Truthy` (fill.py:28): a non-empty string. |
| PosterBackfill.FillRow | fill.py:26-29 | One row's step: title, year and other columns are kept. A non-null Poster_URL cell is untouched. A null cell becomes non-null exactly when the lookup's URL is `Truthy`, and then holds that URL. |
| PosterBackfill.BackfillPosters | fill.py:25-30 | The table after the loop is `Backfilled` of the table before it. The lookups are `Lookups` of the initial table, and the sleeps equal the number of lookups. |
| PosterBackfill.Backfilled | fill.py:25-29 | The table after the pass over a prefix of rows has as many rows as the prefix. |
| PosterBackfill.Lookups | fill.py:25-27 | The pass looks up at most one row per row, and only rows of the table. |
| PosterBackfill.PrefixStep | fill.py:25-30 | Each iteration extends the processed table by that row's `FillRow` and the lookups by that row exactly when its cell is null. |
| PosterBackfill.BackfilledAt | fill.py:25-29 | Row k after the pass is row k after its own lookup. |
| PosterBackfill.BackfillFrame | fill.py:25-29 | The row order, titles, years and other columns are unchanged. A row with a non-null poster is unchanged. A null cell holds its lookup's URL if that URL is a non-empty string, and stays null otherwise. |
| PosterBackfill.StoredPosterCameFromSuccess | fill.py:18-29 | A poster written into a null cell is the non-empty "Poster" field of a successful reply for that row's title and year. |
| PosterBackfill.LookupsAscending | fill.py:25-27 | Lookups happen in ascending row order, with at most one per row. |
| PosterBackfill.LookupsAreNullRows | fill.py:26-27 | A row is looked up exactly when its Poster_URL cell was null at the start. |
| PosterBackfill.LookupCount | fill.py:26-30 | The number of lookups, and so of sleeps, equals the number of null Poster_URL cells at the start. |

## Findings

| source | as written | input that shows it | evidently intended | confidence | as-written member | corrected member |
|---|---|---|---|---|---|---|
| app.py:39-41 | Drops sorted position 0 on the assumption that it is the queried movie. With a tie at the top score, the stable sort can put a lower-indexed movie first. That movie is then dropped and the queried movie is recommended to itself. | Movies ["Inception", "Tenet"] with similarity rows [[5, 5], [5, 5]]: `recommend("Tenet")` gives ["Tenet"]. | Exclude the queried row by its index, not by its sorted position. | not executed; proved on the model | Recommender.SelfTieCounterexample | Recommender.RecommendExcludingSelf |
| app.py:39-41 | The same assumption fails whenever another column scores strictly higher than the self-score, as a matrix that is not a cosine similarity can have. That column takes sorted position 0 and is dropped, and the queried movie is recommended to itself. | Movies ["A", "B"] with similarity rows [[1, 9], [9, 1]]: `recommend("A")` gives ["A"]. | Exclude the queried row by its index, not by its sorted position. | not executed; proved on the model | Recommender.SelfOutrankedCounterexample | Recommender.RecommendExcludingSelf |

`Recommend` remains the model of the code as written. `CorrectedTieScenario` shows the corrected version recommending "Inception" for "Tenet" on the tie example. `CorrectedAgreesWhenSelfFirst` and `RankFirstIsSelf` show that the corrected version gives the same result whenever the self-score is strictly maximal.

## Left out

- The Streamlit page (app.py:47-71): title, sidebar, select box, button, spinner, columns and the "not found" message. Only the image choice of line 70 is modelled. `Recommend` returns at most 5 names, so the five columns of line 67 always suffice.
- The warning shown when the Poster_URL column is missing (app.py:21). This is UI output; only the None result is modelled.
- Loading the artifacts and checking that they exist (app.py:7-13). This is file I/O and unpickling. `Recommend` requires instead that the matrix is n×n for n movies.
- The difference between pandas index labels (app.py:34) and positions (app.py:41). The table is assumed to have the default index 0..n-1.
- The two not-found checks (app.py:31-32 and app.py:34-36) always agree, so both are modelled by a single `FindIndex` returning None.
- Floating-point scores, including NaN ordering. Scores are integers.
- The HTTP request, API key and URL, and the JSON decoding (fill.py:9-10, fill.py:14-17). These are replaced by the oracle `api`. The oracle is a function, so repeating the same title and year would give the same reply.
- JSON values other than strings and null in the reply are not modelled.
- The year is an integer. A missing year in the CSV is not modelled.
- The error message printed on an exception (fill.py:21) and the final message (fill.py:34). These are console output.
- `time.sleep(1)` (fill.py:30). Only the number of sleeps is modelled, not timing.
- Reading and writing the CSV files (fill.py:6, fill.py:33). This is file I/O.
- The offline computation of the similarity matrix is not part of this repository.
