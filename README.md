# Movie recommender: ranking, poster retry and catalog filters

A Dafny model of the logic of a small Streamlit movie recommender. The app
exists in two versions: `app.py`, the hardened one, and `App.py`, the earlier
one.

- **Ranking** (both versions). The query title is resolved to the first
  catalog row that carries it. That row of the precomputed similarity matrix
  is stable-sorted by score, descending. The sorted positions 1 to 5 are the
  candidates.
- **Recommendation assembly.**
  - `app.py` skips a candidate that does not index the catalog. It builds one
    record (title, poster, cast, crew, overview) per remaining candidate, in
    rank order. An unknown title gives an empty list.
  - `App.py` builds two parallel lists of names and posters. It raises on an
    unknown title and on an out-of-range candidate.
- **Poster fetch.** Each version makes up to three HTTP attempts. The network
  is a parameter `net(movieId, attempt)` that gives either no response or a
  reply with a status and a body.
  - `app.py` retries on a failed status. It answers an image URL, a
    "No Poster" placeholder, or a different "No Image" placeholder.
  - `App.py` ignores the status. A reply without `poster_path` raises out of
    the function.
- **Catalog cleaning** (`app.py` only).
  - `safe_literal_eval` coerces cells to lists. The literal parser
    (`ast.literal_eval`) is a parameter.
  - An absent `cast`/`crew`/`overview` column falls back to empty values.
  - NaN overviews become "".
  - The director and actor indices are sorted and free of duplicates.
- **Filters** (`app.py` only). The options of the two select boxes, and the
  director and actor filters over the catalog.

An uncaught Python exception is a `Result.Err` carrying a `Crash` value.
Files, one module each:
- `Common.dfy`: Option/Result and Crash, first index, subsequence.
- `Ranking.dfy`
- `Poster.dfy` and `LegacyPoster.dfy`
- `Recommend.dfy` and `LegacyRecommend.dfy`
- `Catalog.dfy`
- `Browse.dfy`

The ranking is the strict total order "higher score first, equal scores by
ascending index". `Ranked` builds it by insertion; `RankedCharacterized`
proves it is the only ordering of all indices consistent with that order.
This uniqueness is what identifies it with what Python's stable
`sorted(..., reverse=True)` produces.

Behaviour of the code worth knowing:

- A missing `cast`/`crew` column is not fatal. `app.py` reports it and goes on
  with an empty list per row (app.py:275-276).
- The query's own index is not excluded as such: whichever index sorts first
  is dropped. An earlier row with an equal score sorts first, so the query can
  be recommended to itself (`SelfKeptAfterEarlierTie`).
- An unknown title gives an empty result only in `app.py`. `App.py` raises on
  `index[0]`.

## Model

| member | source | states |
|---|---|---|
| Common.FirstIndex | app.py:327 | The index found holds the query and no earlier entry does; no index is found exactly when the title is absent (`movies[movies['title'] == t].index[0]`). |
| Ranking.Insert | app.py:333 | Inserting into a rank-ordered sequence keeps it rank ordered, adds exactly the new index and lengthens it by one. |
| Ranking.RankPrefix | app.py:333 | The first k indices, distinct, in rank order. |
| Ranking.Ranked | app.py:333 | The stable descending sort: every index of the row exactly once, higher score first and equal scores by ascending index. |
| Ranking.RankOrderedUnique | app.py:333 | Two rank-ordered sequences with the same elements are equal. |
| Ranking.RankedCharacterized | app.py:333 | Any ordering of all indices that puts higher scores first and breaks ties by ascending index is `Ranked`: the sort result is determined. |
| Ranking.Candidates | app.py:333 | The slice `[1:6]` holds min(5, N-1) entries for a row of N scores (none for N <= 1). |
| Ranking.TopPrecedesAll | app.py:333 | The first-sorted index ranks above every other index. |
| Ranking.CandidatesRankOrdered | app.py:333 | The candidates are distinct, in rank order, and do not contain the first-sorted index. |
| Ranking.ExcludedBelowCandidates | app.py:333 | An index that is neither first nor a candidate ranks below every candidate. |
| Ranking.CandidatesAreNextBest | App.py:36 | The same slice in App.py: rank ordered, leaving out only the first-sorted index and otherwise the best of the rest. |
| Ranking.SelfExcludedWhenBest | app.py:333 | When the query row's score beats every other (ties only with later rows), it sorts first and is not recommended. |
| Ranking.SelfKeptAfterEarlierTie | app.py:333 | Scores (1.0, 1.0, 0.5) for a query in row 1 gives candidates [1, 2]: the query itself is kept, because the tie sorts row 0 first. |
| Ranking.FallingScoresExample | app.py:333 | Seven strictly falling scores give candidates 1, 2, 3, 4, 5. |
| Poster.FirstAnswer | app.py:304-316 | The first attempt, from a given one on, that raises no RequestException, with all attempts before it retried; none exactly when all remaining attempts fail. |
| Poster.FirstAnswerIsAnsweredAt | app.py:304-316 | The attempt acted on is unique and is the one FirstAnswer finds. |
| Poster.PosterUrl | app.py:304-318 | The result is one of the three kinds: "No Image", "No Poster" or an image URL (each case characterised in `PosterUrlCases`). |
| Poster.FetchPoster | app.py:300-318 | The loop returns `PosterUrl`; it issues 1 to 3 requests, every request before the last one failed, and when fewer than 3 were issued the last one succeeded. |
| Poster.PlaceholdersDistinct | app.py:313-318 | "No Poster" and "No Image" differ, and neither is an image URL. |
| Poster.ImageUrlOf | app.py:311 | The image base followed by a path is an image URL, and the path can be read back from it. |
| Poster.PosterUrlCases | app.py:304-318 | "No Image" exactly when all three attempts failed; "No Poster" exactly when the answered reply has no non-empty path; otherwise an image URL whose suffix is that path. |
| LegacyPoster.LegacyPosterUrl | App.py:20-30 | The only exception is the one for a missing poster path; a result is the placeholder or an image URL (each case characterised in `LegacyPosterCases`). |
| LegacyPoster.LegacyFetchPoster | App.py:17-30 | The loop returns `LegacyPosterUrl`; it issues 1 to 3 requests, the status code is never checked, and a reply decides the result on the first attempt that raises no RequestException. |
| LegacyPoster.LegacyPosterCases | App.py:20-30 | The via.placeholder URL exactly when all three attempts failed; an exception exactly when the answered reply has no poster path; otherwise an image URL whose suffix is that path, even an empty one. |
| LegacyPoster.VersionsAgreeOnSuccess | App.py:20-24 | When every reply has a success status, both versions act on the same attempt; when its path is non-empty they return the same image URL. |
| Recommend.TitlesOf | app.py:327 | The title column: one title per row, in row order. |
| Recommend.InBounds | app.py:339 | The candidates below the catalog length, in their original relative order (a subsequence), never more than the candidates. |
| Recommend.InBoundsAll | app.py:339 | Nothing is skipped when every candidate indexes the catalog. |
| Recommend.InBoundsRankOrdered | app.py:350-353 | Skipping out-of-range candidates keeps the rank order of the rest. |
| Recommend.RecordFor | app.py:343-349 | The record carries the row's title, cast, crew and overview, and the row's fetched poster, which is a placeholder or an image URL. |
| Recommend.Recommendations | app.py:326-353 | The only exception is a similarity matrix without the query's row; an absent title gives []; at most five records (the full characterisation is `RecommendationsInRankOrder`). |
| Recommend.RecordsFor | app.py:343-349 | One record per shown index. |
| Recommend.Recommend | app.py:321-353 | The loop returns `Recommendations`; an absent title gives an empty list. |
| Recommend.RecommendationsInRankOrder | app.py:332-353 | For a found title: at most five records, one per in-range candidate, in rank order; each record's title, cast, crew and overview are those of the ranked row, and its poster is that row's fetch result; with a row no longer than the catalog nothing is skipped. |
| Recommend.FallingScoresRecommendRowsOneToFive | app.py:321-353 | Seven movies, and the query in row 0 with strictly falling scores: the records of rows 1 to 5, in that order. |
| LegacyRecommend.FilmTitles | App.py:34 | The title column of App.py's catalog, one title per row. |
| LegacyRecommend.LegacyRecommendations | App.py:34-46 | An absent title raises; a successful call gives two lists of equal length, at most five (see `Gather` and `LegacyDisplayNeedsSixScores`). |
| LegacyRecommend.Gather | App.py:40-46 | The loop succeeds exactly when every candidate indexes the catalog and has a fetchable poster. It then gives two lists as long as the candidates: entry k is the k-th candidate's title and its poster. |
| LegacyRecommend.GatherStopsAtError | App.py:40-46 | Once a prefix of the candidates raises, the whole loop raises the same exception. |
| LegacyRecommend.GatherFailsAtFirstBad | App.py:41-45 | The exception raised is the one of the first candidate that is out of range or whose poster fetch raises. |
| LegacyRecommend.LegacyRecommend | App.py:33-46 | The loop returns `LegacyRecommendations`; an absent title raises instead of returning an empty result. |
| LegacyRecommend.LegacyDisplayNeedsSixScores | App.py:53-70 | A successful call gives lists of equal length. The five-column display can index them exactly when the similarity row has at least six scores. |
| LegacyRecommend.GatherInBoundsFailsOnlyOnPosters | App.py:41-45 | With every candidate in range, the loop can raise only through a poster fetch. |
| LegacyRecommend.LegacyAlignedFailsOnlyOnPosters | App.py:34-46 | With a similarity row no longer than the catalog, a found title's call is never out of range; it fails only through a missing poster path. |
| Catalog.SafeLiteralEval | app.py:234-247 | A list is returned unchanged. A missing or non-string value gives []. A string the parser reads gives exactly the parsed value (a list for a serialized list). An unparsable string gives []. |
| Catalog.CleanColumn | app.py:271-276 | One cell per row: a present column is cleaned cell by cell with `safe_literal_eval`, an absent one gives [] in every row. |
| Catalog.CleanOverview | app.py:278-283 | One string per row: the overview where there is one, "" for a NaN cell and in every row of an absent column. |
| Catalog.Clean | app.py:270-283 | Every row kept in place with its id and title; its cast and crew are the `safe_literal_eval` of the raw cells, or [] when the column is absent; its overview is the raw one, or "" when NaN or absent. |
| Catalog.Export | app.py:270-283 | A cleaned catalog seen as a frame is well formed. |
| Catalog.CleanRoundTrip | app.py:270-283 | Cleaning a catalog whose cast and crew cells are already lists gives back the same rows, whatever the parser does. |
| Catalog.CleanIdempotent | app.py:270-283 | With a parser that reads only lists, every cleaned cast and crew cell is a list (fallbacks included), and cleaning the cleaned catalog again changes nothing. |
| Catalog.CreditColumn | app.py:287-294 | The crew column for directors and the cast column for actors, row by row. |
| Catalog.NamesIn | app.py:286-296 | A name is collected exactly when it occurs in some list-valued cell of the column. |
| Catalog.LexTransitive | app.py:290 | Python's string `<` is transitive. |
| Catalog.LexTotal | app.py:290 | Any two distinct strings are ordered by Python's `<` one way or the other. |
| Catalog.Least | app.py:290 | The least name of a non-empty set under Python's `<`. |
| Catalog.SortedList | app.py:290 | `sorted(list(s))` is strictly increasing and holds exactly the elements of the set. |
| Catalog.CollectNames | app.py:286-289 | The `set.update` loop collects `NamesIn` of the column. |
| Catalog.LoadData | app.py:270-298 | The catalog is `Clean` of the raw frame. Each of the director and actor indices is strictly sorted and holds exactly the names in that column's list-valued cells. |
| Browse.Options | app.py:367-368 | Both branches of the conditional give the "All" label followed by the whole index. |
| Browse.FilterCatalog | app.py:377-391 | The filtered catalog is a subsequence of the catalog, and the catalog itself when both filters are on "All" (the selection is characterised in `FilterCatalogSelects`). |
| Browse.KeepCredited | app.py:379-391 | The boolean mask keeps, in catalog order, exactly the rows whose cell is a list containing the name, each as often as in the input. |
| Browse.FilterCatalogSelects | app.py:377-391 | The filtered catalog keeps exactly the rows that pass both filters, in catalog order and with their multiplicity; with both filters on "All" it is the catalog itself. |

## Left out

- The Streamlit page: styling, widgets, spinners, session state and the HTML
  card displayed for each recommendation (app.py after line 392). These are
  presentation. The App.py five-column display is kept only as the indexing
  condition in `LegacyDisplayNeedsSixScores`.
- Unpickling `movies_dict.pkl` and `similarity.pkl`, and the `st.error`/`st.stop`
  reports. These are file I/O. `LoadData` starts from the unpickled frame.
- HTTP itself: the URL with its API key, the five-second timeout, `time.sleep`
  and the retry messages. The network is the parameter `net`.
  - A body that `.json()` cannot decode counts as a RequestException
    (`JSONDecodeError` derives from it from requests 2.27 on).
  - `posterPath` None covers both an absent key and a JSON null.
  - A JSON body that is not an object, and a non-string `poster_path`, are
    not modelled.
- `@st.cache_data` on app.py's `fetch_poster` (app.py:300): memoisation only.
  `net` is keyed by the movie id, so equal ids give equal answers there.
- LegacyRecommend.Gather: App.py's `fetch_poster` (App.py:17) has no cache.
  The model assumes equal movie ids get equal answers there as well.
  - In App.py, two candidate rows with the same `movie_id` each start a fresh
    round of up to three requests (App.py:45).
  - Those rounds can differ; for example, the first times out three times and
    the second gets an answer.
  - The model does not capture that: it gives both entries
    `LegacyPosterUrl(net, id)`.
- The internals of `ast.literal_eval`. It is the parameter `parse`. List
  elements are modelled as strings only.
- Catalog.SafeLiteralEval: only the failures app.py:246 catches (ValueError
  and SyntaxError) are modelled, as `parse` returning None.
  - `ast.literal_eval` can also raise TypeError, for example on `"{[1]: 2}"`,
    and MemoryError or RecursionError.
  - Such an exception escapes `safe_literal_eval`. The cleaning at
    app.py:270-283 lies outside the try block of app.py:255-268, so it also
    escapes `load_data` and stops the app at start-up.
  - `Clean` and `LoadData` do not model that outcome.
- Similarity scores are `real`. NaN and other floating-point ordering quirks
  are not modelled.
- Pandas index labels: the catalog is assumed to carry its default 0..n-1
  index, so the labels from `.index[0]` and the positions used by `.iloc` agree.
- Trailers and rich movie details (rating, genres, runtime) do not occur in
  the code, so they are not modelled.
