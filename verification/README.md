# Spotify song recommender — a Dafny model

This project models the core of a content-based song recommender. Two catalogs
of songs are loaded: a large candidate catalog and a smaller frontend catalog of
selectable songs. Each row has a track name, an artist and nine numeric
columns: `streams`, `bpm` and seven percentage features, from
`danceability_%` to `speechiness_%`.

- **Normalizer.** A min-max scale is fitted on the candidate catalog. The same
  parameters then transform both catalogs; the frontend is never refitted.
- **Catalog accessor.** It lists the frontend's (track, artist) pairs in load
  order. It resolves a (title, artist) query by a case-insensitive exact match
  on both fields, and the first matching row wins.
- **Similarity engine.** It scores every candidate against the query row on the
  eight feature columns (`bpm` and the seven percentages). It sorts the scores
  in descending order, drops the first-ranked candidate and keeps the next `n`,
  as the Python slice `[1:n+1]`.
- **Selector and chart pieces of the display.** A selector option is
  `title + " - " + artist`, and it is split back at the first `" - "`. The
  radar chart's value and label lists are closed by repeating their first
  entry.

Modules, leaf first:

- `options.dfy` (`Options`): `Option` and `Result`.
- `songs.dfy` (`Songs`): the columns, rows and feature vectors.
- `text.dfy` (`Text`): lower-casing, leftmost search, `str.replace(pat, "")` and `str.title`.
- `normalizer.dfy` (`Normalizer`): fit and transform.
- `catalog.dfy` (`Catalog`): lookup and listing.
- `ranking.dfy` (`Ranking`): the descending ranking and the `[1:n+1]` selection.
- `recommender.dfy` (`Recommender`): engine construction and queries.
- `app.dfy` (`App`): selector labels, the selected row and the radar lists.

Numbers are `real`. A cell is `Option<real>`, where `None` is a value that
failed numeric parsing. The similarity measure is a parameter `sim` on 8-element
vectors; in the running system it is cosine similarity. Every ranking property
is proved for any `sim`, and for any order that sorts the scores descending,
because the sort the code uses does not fix the order of ties.

Chosen rules, where the code leaves the behaviour to a library:
- A column whose minimum equals its maximum scales every value to 0.
- A column with no defined cell in the candidate catalog gets no scale, and its cells stay undefined in both catalogs.
- Fitting on a candidate catalog without rows fails (`Recommender.Init` returns `Failure(EmptyCatalog)`). Transforming a frontend without rows fails too (`Failure(EmptyFrontend)`).

Behaviour of the code that the model keeps as it is:
- A missing song gives the message `"Song not found in the dataset."`, not an error. The display never shows it: with no matching row, taking the displayed row fails first (`App.RecommendForLabel`).
- Self-exclusion drops the first-ranked candidate. It does not exclude the query by identity. `Recommender.DuplicateOfQueryRecommended` shows the consequence: a duplicate of the query is recommended first.
- Ties are not broken by catalog order.
- An empty candidate catalog already fails at construction, because the scaler cannot be fitted. An empty frontend catalog also fails there, because transforming it is rejected.
- A query asks for `DefaultCount` = 10 recommendations unless the caller gives a count. The display never gives one (`App.RecommendForLabel`).

The selector round trip is exact only for "safe" titles. A safe title contains
no `" - "` and does not end in `" -"`. A title ending in `" -"` also moves the
first separator into the title, so both conditions are needed
(`App.LabelRoundTrip`).

## Model

| member | source | states |
|---|---|---|
| Normalizer.DefinedRange | spotify_recommend.py:26-27 | the fitted range of a column is None exactly when no cell is defined; otherwise every defined cell lies in [lo, hi] and both lo and hi are values that occur in the column |
| Normalizer.Fit | spotify_recommend.py:26-27 | fitting fails exactly on a catalog without rows; otherwise every column's parameters are the minimum and maximum of that column's defined cells |
| Normalizer.ScaleValue | spotify_recommend.py:27-28 | a value inside the fitted range scales into [0, 1]; the minimum scales to 0 and, when the column has spread, the maximum to 1; with spread the scaling is inverted by lo + r * (hi - lo); without spread it gives 0 |
| Normalizer.TransformRow | spotify_recommend.py:27-28 | transforming a row keeps its names and scales each cell with its own column's fitted range; an undefined cell, or a cell of a column with no fitted range, stays undefined |
| Normalizer.Transform | spotify_recommend.py:27-28 | transforming a catalog keeps its length and row order, and transforms each row on its own with the same parameters |
| Normalizer.ScaleMonotone | spotify_recommend.py:27-28 | scaling never reverses the order of two values, and keeps a strict order when the column has spread |
| Normalizer.FittedCatalogInUnitRange | spotify_recommend.py:26-27 | after fitting on a catalog, transforming it keeps exactly the parsed cells defined and puts every one of them in [0, 1] |
| Normalizer.FittedExtremes | spotify_recommend.py:26-27 | in every column with a defined cell, some row of the fitted catalog scales to 0 and, when the column has spread, some row scales to 1 |
| Normalizer.FrontendUsesCatalogScale | spotify_recommend.py:27-28 | a frontend value equal to a catalog value in the same column scales to the same number as that catalog cell, hence into [0, 1] |
| Normalizer.AboveFittedRange | spotify_recommend.py:28 | in a column with spread, a value above the fitted maximum scales above 1: the transform does not clip |
| Recommender.Init | spotify_recommend.py:15-31 | construction fails exactly when either catalog is empty, reporting the candidate catalog first, as fitting comes before transforming; the scaler holds the candidate catalog's ranges, and both catalogs keep their length and are transformed row by row with that one scaler |
| Recommender.InitCatalogInUnitRange | spotify_recommend.py:15-28 | every defined cell of the constructed candidate catalog lies in [0, 1], and exactly the cells that parsed are defined |
| Recommender.InitFrontendSharesScale | spotify_recommend.py:27-28 | in a constructed engine, a frontend cell equal to a candidate cell in the same column has the same scaled value, which lies in [0, 1] |
| Songs.FeatureColumnsAreAllButStreams | spotify_recommend.py:49-52 | the feature columns are exactly the numeric columns other than streams; the percentage columns are exactly the seven `_%` ones |
| Songs.FeaturesIgnoreStreams | spotify_recommend.py:49-55 | two rows that agree on every column but streams have the same feature vector |
| Recommender.Scores | spotify_recommend.py:49-61 | one score per candidate, in catalog order: the similarity of the query's eight features to that candidate's eight features |
| Recommender.Project | spotify_recommend.py:67-69 | the answer lists, for each recommended index in order, the track and artist of that catalog row |
| Recommender.ScoresIgnoreStreams | spotify_recommend.py:58-61 | candidate catalogs differing only in streams get identical scores |
| Recommender.StreamsIgnored | spotify_recommend.py:15-69 | streams is scaled but never changes the answer: engines differing only in streams return the same answer to every query |
| Catalog.FirstMatch | spotify_recommend.py:37-46 | the selected index points at a row matching both fields case-insensitively, with no matching row before it; None exactly when no row matches |
| Catalog.FirstMatchIgnoresCase | spotify_recommend.py:37-40 | two queries equal after lower-casing select the same row |
| Catalog.FirstMatchOfLowered | spotify_recommend.py:38-39 | querying with the lower-cased title and artist selects the same row as the original query |
| Catalog.StoredRowFound | spotify_recommend.py:37-46 | a stored row is always found by its own names, at its own index or at an earlier matching row |
| Catalog.AvailableSongs | spotify_recommend.py:74-77 | one (track, artist) pair per frontend row, in load order |
| Catalog.AvailableSongsResolve | spotify_recommend.py:77 | the i-th listed pair resolves to row i or an earlier matching row, and to row i itself when no earlier row matches it |
| Text.LowerIdempotent | spotify_recommend.py:38-39 | lower-casing is idempotent and keeps the length |
| Text.LowerIgnoresCase | spotify_recommend.py:38-39 | strings that differ only in the case of letters lower-case to the same string |
| Ranking.Rank | spotify_recommend.py:64 | the ranking lists every candidate index exactly once, with scores never increasing along it |
| Ranking.InsertDescending | spotify_recommend.py:64 | inserting a candidate into a descending order keeps it descending |
| Ranking.TopAfterFirstShape | spotify_recommend.py:64 | order[1:n+1] is a contiguous run of the ranking that starts right after its first entry; for n >= 0 it has min(n, max(0, len - 1)) entries, so never more than n |
| Ranking.TopAfterFirstOrdered | spotify_recommend.py:64 | the selected indices are distinct, in range, and in non-increasing score order |
| Ranking.TopAfterFirstDropsFirst | spotify_recommend.py:64 | the first-ranked candidate is never selected, and no selected candidate scores above it |
| Ranking.TopAfterFirstKeepsBest | spotify_recommend.py:64 | no candidate left out, other than the dropped first-ranked one, scores above a selected candidate |
| Ranking.TopAfterFirstSelects | spotify_recommend.py:64 | order[1:n+1] of a descending ranking lists distinct candidates in non-increasing score order, never the first-ranked one, none above it, and leaves out no other candidate that beats a selected one |
| Ranking.UniqueBestNotReturned | spotify_recommend.py:64 | a candidate scoring strictly above all others is never returned |
| Ranking.TiedBestReturned | spotify_recommend.py:64 | when exactly two candidates share the best score and n >= 1, the first returned entry is one of them |
| Recommender.GetRecommendations | spotify_recommend.py:33-69 | the not-found message is returned exactly when no frontend row matches the query; otherwise, for n >= 0, exactly min(n, max(0, catalog size - 1)) pairs are returned |
| Recommender.RecommendationsContent | spotify_recommend.py:46-69 | a resolved query returns the (track, artist) pairs of distinct catalog rows in non-increasing similarity to the query row; the first-ranked row is never among them and scores at least as high as each; no other row left out is more similar than a returned one; with no candidates the answer is empty |
| Recommender.RecommendedIndicesOrdered | spotify_recommend.py:58-67 | the recommended rows are distinct candidate rows in non-increasing similarity to the query row |
| Recommender.RecommendedIndicesDropFirstRanked | spotify_recommend.py:64 | the first-ranked candidate is dropped whether or not it is the query's own row, and no recommended row scores above it |
| Recommender.RecommendedIndicesKeepBest | spotify_recommend.py:64-67 | no candidate left out, other than the dropped first-ranked one, is more similar than a recommended row |
| Recommender.QueryExcludedWhenUniqueBest | spotify_recommend.py:64 | a candidate that is strictly the most similar to the query, such as the query's own row, is never recommended |
| Recommender.DuplicateOfQueryRecommended | spotify_recommend.py:64 | when the query's row and one duplicate share the best score, the first recommendation is one of those two rows |
| App.SongList | app.py:135 | one selector label per available song, in order, each equal to title, " - ", artist |
| App.SplitLabel | app.py:143 | splitting fails exactly when the label has no " - "; otherwise joining the parts gives back the label, and the title part is a safe title |
| App.LabelRoundTrip | app.py:135-143 | a song's label splits back into exactly that song if and only if its title is safe; the artist comes back intact even if it contains " - " |
| App.LabelCutsTitle | app.py:135-143 | a title containing " - " is cut at its first occurrence, and the rest of the title is prefixed to the artist |
| App.SelectedRow | app.py:143-150 | the displayed row is the first frontend row whose title and artist equal the label's two parts case-insensitively; there is none exactly when the label has no separator or no row matches |
| App.RecommendForLabel | app.py:143-170 | the button's query happens exactly when a row is displayed, so a label without separator or without a matching row never reaches the engine; when it happens it returns min(10, catalog size - 1) recommendations, never the not-found message |
| App.SelectedRowIsQuery | app.py:143-150 | the row displayed for a label is the row the engine queries with for the same split pair; when none is displayed, the engine answers not found |
| App.ListedSongSelectable | app.py:135-150 | choosing the i-th option of a row with a safe title displays row i or an earlier row matching it case-insensitively |
| App.RadarChartClosed | app.py:64-73 | values and labels both have 8 entries: the seven percentage features in order, then the first one again, so each list's last entry equals its first |
| App.RadarLabelIsCapitalisedStem | app.py:72 | each axis label is the column name without "_%", with its first letter upper-cased ("danceability_%" gives "Danceability") |
| Text.RemoveSuffixMarker | app.py:72 | removing "_%" from a stem followed by "_%" gives back the stem when the stem has no '%' |
| Text.TitleOfLowerWord | app.py:72 | title-casing a lower-case word upper-cases only its first letter |
| Songs.PercentNames | app.py:64-67 | every percentage column is named by a non-empty lower-case stem followed by "_%" |
| Text.FindFirst | app.py:143 | the found position is an occurrence with no occurrence before it; None exactly when the pattern does not occur |

## Left out

- Reading the two CSV files and `pd.to_numeric(errors='coerce')` are not modelled. Rows arrive parsed, and a numeric cell that failed parsing is `None`.
- Missing text cells are not represented: a title or artist is always a string. A text cell that the reader turns into NaN (empty, `NA`, `nan`) would never match a lookup and would be listed as `"nan - ..."`.
- Recommender.GetRecommendations: requires the query row's eight features and every candidate's eight features to be defined (`QueryReady`). The running system passes undefined values on to the similarity library, whose behaviour is not modelled.
- App.RecommendForLabel: requires, like `Recommender.GetRecommendations`, that the displayed row's features and every candidate's features are defined. The running page passes undefined values on to the similarity library, which rejects them, and then shows its generic error; that error path is not modelled.
- The similarity measure is not modelled. It is a parameter, because cosine similarity needs square roots and floating point, and its zero-norm handling belongs to the library. So the model does not prove that a closer vector ranks higher.
- The sort's tie order is not modelled. `Ranking.Rank` is one descending order, and every property is proved for any descending order.
- Case mapping covers ASCII letters only. `str.lower` and `str.title` apply full Unicode case mapping, which is not modelled.
- An `Engine` value built other than by `Recommender.Init` may have an empty candidate catalog. A query on it returns no pairs, whereas the library would raise.
- The exception wrappers are not modelled. They re-raise any failure with a message (spotify_recommend.py:30-31, 71-72 and 78-79, app.py:194-198).
- The Streamlit display is not modelled: page setup, styling, the chart figure, song cards, buttons, spinner, session state and the tempo display.
- The offline scripts `check_data.py` and `cleaner.py` are not part of this model. They only rewrite or print CSV files.
- Floating-point rounding is not modelled; numbers are `real`.
