# IMDB KPI report, modelled in Dafny

The report script `scripts/kpis_imbd.py` reads four curated IMDB tables:
title_basics, title_ratings, title_principals and name_basics. It computes
five KPI tables and writes each one to a sheet of a workbook:

1. **popularidad_por_genero**: weighted popularity per genre.
2. **evolucion_rating_genero**: the mean rating per (startYear, genre) from `desde_anyo` on.
3. **actores_exitosos**: the top `top_n` actors and actresses with at least `min_titles` rated credits, by mean rating.
4. **directores_exitosos**: the same for directors.
5. **duracion_promedio_genero**: the mean runtime per genre.

Each KPI is one query over dataframes. The model keeps that shape: each KPI is
a pure function built from explode, filter, inner join, group-by/agg, sort
and limit. Tables are sequences of records, and a nullable column is an
`Option`.

Modules:

- `ImdbTables` (`imdb_tables.dfy`): the records of the four tables, and the `Result` of a query the engine can abort.
- `DataFrame` (`data_frame.dfy`): the dataframe operations and what they guarantee.
  - The join and explode lemmas say which rows the result holds.
  - group_by is a hash aggregation (`AddRow` folded over the rows). It is proved to yield one group per key, and each group holds exactly the values with that key.
  - sort is proved to return a permutation ordered by its key.
  - limit keeps a prefix. A row that limit cuts off from a sorted table comes after every row it keeps.
- `Genres` (`genres.dfy`): `normalize_genres` and the step that drops empty genres.
  - `fill_null("")`.
  - `str.replace(r"\\N", "")` removes the first backslash-N only.
  - `str.replace(r"^\s+|\s+$", "")` removes the first regex match only. That is the leading whitespace run if there is one, otherwise the trailing run.
  - `str.split(",")`.
- `Kpis` (`kpis.dfy`): the five KPIs.
  - Each is stated against its joined rows (its "facts"): one (group key, value) pair per row of the join.
  - A membership lemma says exactly which input rows give a fact.
  - The KPI function says what each output row is: the aggregate of exactly the facts with its key. It also says how the rows are ordered and which keys appear.
- `ExcelExport` (`sheet_names.dfy`): the sheet-name normalisation in `export_to_excel`.

Ratings, sums and means are `real`. The sort order on strings is byte order
on UTF-8, which is code-point order (`DataFrame.LexLe`). The KPI functions
take `desde_anyo`, `min_titles` and `top_n` as explicit parameters.

The comment in `normalize_genres` calls its last regex step a trim. The
code removes only one whitespace run: `" Drama "` becomes `"Drama "`. The
model follows the code. `Genres.TrimOnceIsTrimUnlessBothEnds` states exactly
when the result differs from a full trim.

## Model

| member | source | states |
|---|---|---|
| DataFrame.FlatMapMembership | scripts/kpis_imbd.py:47 | a row is in the concatenation of f over the rows exactly when some row x has it in f(x), as explode and join produce |
| DataFrame.FlatMapAppend | scripts/kpis_imbd.py:47 | exploding a concatenation of tables is the concatenation of the exploded tables |
| DataFrame.FlatMapEmpty | scripts/kpis_imbd.py:47 | rows that explode to nothing contribute nothing |
| DataFrame.ProjectMembership | scripts/kpis_imbd.py:46 | a projected row is f of some input row, and every such image is present |
| DataFrame.TaggedMembership | scripts/kpis_imbd.py:47 | explode of a list column yields (k, v) exactly for the list's entries k, each with its row's other columns v |
| DataFrame.Where | scripts/kpis_imbd.py:48 | filter keeps exactly the rows satisfying the predicate, and no more rows than it had |
| DataFrame.WhereCount | scripts/kpis_imbd.py:48 | filter keeps each satisfying row exactly as many times as it occurs, and no other row |
| DataFrame.Pairs | scripts/kpis_imbd.py:54 | one output pair per right row, each pairing it with the left row |
| DataFrame.PairsCount | scripts/kpis_imbd.py:54 | pairing l with the right rows yields (l, r) once per occurrence of r, and no pair with another left row |
| DataFrame.JoinRows | scripts/kpis_imbd.py:54 | a left row whose key matches no right row produces no joined rows |
| DataFrame.InnerJoinMembership | scripts/kpis_imbd.py:54 | an inner join holds (l, r) exactly when l is a left row, r a right row and their keys are equal |
| DataFrame.InnerJoinCount | scripts/kpis_imbd.py:54 | an inner join holds (l, r) as many times as l occurs in left times r occurs in right when their keys are equal, and not at all otherwise (duplicate keys multiply rows) |
| DataFrame.InnerJoinUnmatched | scripts/kpis_imbd.py:54 | adding left rows whose keys match no right row leaves the inner join unchanged |
| DataFrame.KeySetMembership | scripts/kpis_imbd.py:55 | a key is a group key exactly when some row carries it |
| DataFrame.SelectMembership | scripts/kpis_imbd.py:55 | a value is in key k's group exactly when the row (k, value) is in the table |
| DataFrame.SelectNonEmpty | scripts/kpis_imbd.py:55 | a key's group is non-empty exactly when the key occurs, so every group's agg sees at least one row |
| DataFrame.AddRowGroups | scripts/kpis_imbd.py:55 | one aggregation step keeps keys distinct, and each group keeps holding exactly the values of its key |
| DataFrame.AddRowKeys | scripts/kpis_imbd.py:55 | one aggregation step adds exactly the row's key to the group keys |
| DataFrame.AddRowDistinct | scripts/kpis_imbd.py:55 | one aggregation step keeps the group keys distinct |
| DataFrame.AddRowValues | scripts/kpis_imbd.py:55 | after one aggregation step every group holds exactly the values of its key |
| DataFrame.GroupBy | scripts/kpis_imbd.py:55 | group_by (the hash-aggregation fold) yields one group per distinct key of the rows, keys distinct, each holding exactly the values with its key, in row order |
| DataFrame.SummarizeSpec | scripts/kpis_imbd.py:55-59 | group_by/agg yields one row per key, keys distinct, each the aggregate of exactly that key's values, and every key has its row |
| DataFrame.Insert | scripts/kpis_imbd.py:64 | inserting a row adds exactly that row to the multiset of rows |
| DataFrame.SortBy | scripts/kpis_imbd.py:64 | sort returns a permutation of its rows |
| DataFrame.SortByMembership | scripts/kpis_imbd.py:64 | sort keeps exactly the rows it was given |
| DataFrame.InsertSorted | scripts/kpis_imbd.py:64 | inserting into an ordered table keeps it ordered under a total preorder |
| DataFrame.SortBySorted | scripts/kpis_imbd.py:64 | sort's result is ordered by its key when the order is a total preorder |
| DataFrame.InsertDistinct | scripts/kpis_imbd.py:64 | inserting a row with a new key keeps keys distinct |
| DataFrame.SortByDistinct | scripts/kpis_imbd.py:64 | sorting rows with distinct keys keeps them distinct |
| DataFrame.SortedSummary | scripts/kpis_imbd.py:55-64 | group_by/agg then sort gives distinct keys, ordered rows, each the aggregate of its key's values, one for every key |
| DataFrame.WhereDistinct | scripts/kpis_imbd.py:115 | filtering rows with distinct keys keeps them distinct |
| DataFrame.LimitSortedDropsOnlyLater | scripts/kpis_imbd.py:116-117 | a row that limit(n) cuts from a sorted table leaves exactly n kept rows, each ordered before it |
| DataFrame.SumAtLeast | scripts/kpis_imbd.py:113 | a sum of values at least lo is at least lo times their count |
| DataFrame.SumAtMost | scripts/kpis_imbd.py:113 | a sum of values at most hi is at most hi times their count |
| DataFrame.MeanAtLeast | scripts/kpis_imbd.py:113 | a mean is at least any lower bound of its values |
| DataFrame.MeanAtMost | scripts/kpis_imbd.py:113 | a mean is at most any upper bound of its values |
| DataFrame.LexLeTotal | scripts/kpis_imbd.py:92 | the string sort order relates any two strings |
| DataFrame.LexLeTransitive | scripts/kpis_imbd.py:92 | the string sort order is transitive |
| DataFrame.LexLeAntisymmetric | scripts/kpis_imbd.py:92 | strings ordered both ways are equal |
| Genres.RemoveNullMarker | scripts/kpis_imbd.py:32 | the replacement removes two characters or none |
| Genres.RemoveNullMarkerUnchanged | scripts/kpis_imbd.py:32 | a value without a backslash-N passes unchanged |
| Genres.RemoveNullMarkerFirst | scripts/kpis_imbd.py:32 | exactly the leftmost backslash-N is cut out and later ones stay |
| Genres.LeadingRun | scripts/kpis_imbd.py:33 | the leading whitespace run is all whitespace and maximal |
| Genres.TrailingRun | scripts/kpis_imbd.py:33 | the trailing whitespace run is all whitespace and maximal |
| Genres.TrimOnceRemovesFirstMatch | scripts/kpis_imbd.py:33 | the step removes the leftmost match of the leading-or-trailing whitespace regex (greedy, first alternative first), and changes nothing when there is no match |
| Genres.TrimOnceIsTrimUnlessBothEnds | scripts/kpis_imbd.py:33 | the step equals a full trim exactly unless the value starts and ends with whitespace around other characters |
| Genres.Split | scripts/kpis_imbd.py:34 | split on "," yields a non-empty list of comma-free pieces |
| Genres.JoinSplit | scripts/kpis_imbd.py:34 | joining the pieces of a split with "," gives back the string |
| Genres.SplitWithoutSeparator | scripts/kpis_imbd.py:34 | a string without "," splits into itself alone |
| Genres.SplitAtSeparator | scripts/kpis_imbd.py:34 | a string a + "," + b splits into a followed by the pieces of b, when a has no "," |
| Genres.SplitJoin | scripts/kpis_imbd.py:34 | splitting the join of comma-free pieces gives back the pieces |
| Genres.NormalizeGenres | scripts/kpis_imbd.py:25-37 | the list is non-empty, its entries are comma-free, and joined with "," they give the cleaned value |
| Genres.GenreList | scripts/kpis_imbd.py:47-48 | after explode and filter, the kept genres are exactly the non-empty entries of the normalised list, all comma-free |
| Genres.GenreListCount | scripts/kpis_imbd.py:47-48 | a non-empty genre yields as many rows as it has entries in the normalised list, and the empty genre none |
| Genres.BlankGenresYieldNothing | scripts/kpis_imbd.py:31-48 | a null, "", backslash-N or blank genres value yields no genre rows |
| Kpis.GenreVotesMembership | scripts/kpis_imbd.py:44-54 | a joined row of KPI 1 is a kept genre of a title with the votes of a rating row of the same tconst, and every such pair is one |
| Kpis.GenreVotesKeys | scripts/kpis_imbd.py:48 | every genre KPI 1 groups on is non-empty and comma-free |
| Kpis.PopularityDefined | scripts/kpis_imbd.py:58-61 | when every rating row has votes, every joined genre's total_votos is positive, so KPI 1's ratio is defined |
| Kpis.PopularityByGenre | scripts/kpis_imbd.py:43-68 | one row per joined genre, genres distinct and comma-free; total_votos and popularidad_ponderada are the sums over exactly that genre's joined rows; the ratio is their quotient; rows non-increasing by it |
| Kpis.WeightedSumBounds | scripts/kpis_imbd.py:57-58 | when each rating is in [lo, hi], the weighted sum is between lo and hi times the vote total |
| Kpis.WeightedMeanBounds | scripts/kpis_imbd.py:57-61 | a vote-weighted mean of ratings in [lo, hi] lies in [lo, hi] |
| Kpis.VotesWithinRatings | scripts/kpis_imbd.py:54-57 | every vote in a genre's group comes from a rating row, so it is within the rating bounds |
| Kpis.GenreWithinRatings | scripts/kpis_imbd.py:61 | one genre's rating_promedio_ponderado lies within the bounds of all averageRatings |
| Kpis.WeightedRatingWithinRatings | scripts/kpis_imbd.py:57-62 | every rating_promedio_ponderado lies within the bounds of the input averageRatings |
| Kpis.IgnoredTitleLeavesPopularity | scripts/kpis_imbd.py:48-54 | adding a title with no kept genre, or with no rating row, keeps every joined genre's total_votos positive and leaves KPI 1 unchanged |
| Kpis.YearGenreRatingsMembership | scripts/kpis_imbd.py:75-89 | a joined row of KPI 2 is (startYear, genre, averageRating) of a title with startYear >= desde_anyo, a kept genre and a rating row of the same tconst, and every such triple is one |
| Kpis.YearGenreRatingSource | scripts/kpis_imbd.py:75-89 | every joined row of KPI 2 comes from such a title and rating row |
| Kpis.YearGenreRatingFrom | scripts/kpis_imbd.py:75-89 | every such title and rating row gives a joined row of KPI 2 |
| Kpis.YearGenreKeys | scripts/kpis_imbd.py:80-83 | every (startYear, genre) KPI 2 groups on has startYear >= desde_anyo and a non-empty, comma-free genre |
| Kpis.GenreYearLeTotal | scripts/kpis_imbd.py:92 | the (genres, startYear) sort order relates any two rows |
| Kpis.GenreYearLeTransitive | scripts/kpis_imbd.py:92 | the (genres, startYear) sort order is transitive |
| Kpis.GenreYearStrict | scripts/kpis_imbd.py:90-92 | rows sorted by (genres, startYear) with distinct (startYear, genres) are strictly ascending |
| Kpis.YearGenreTable | scripts/kpis_imbd.py:90-92 | one row per (startYear, genre) key, the mean of exactly that key's ratings, strictly ascending by genre then year |
| Kpis.RatingTrendByGenre | scripts/kpis_imbd.py:74-96 | aborts with a cast error exactly when some startYear is outside Int32; otherwise rows have startYear >= desde_anyo and comma-free genres, (startYear, genre) unique, strictly ascending by genre then year, each the mean rating of exactly its joined rows, one row for every such pair |
| Kpis.EarlyTitleLeavesTrend | scripts/kpis_imbd.py:78-83 | adding a title without a startYear, or with one that casts and is before desde_anyo, leaves KPI 2 unchanged |
| Kpis.RoleRatingsMembership | scripts/kpis_imbd.py:105-110 | a joined row of KPIs 3/4 is (primaryName, averageRating) linked by a principal in the roles to a rating row (same tconst) and a name row (same nconst), and every such pair is one |
| Kpis.RankedPerformers | scripts/kpis_imbd.py:110-116 | one row per name with at least min_titles joined rows, names distinct, count and mean over exactly that name's rows, non-increasing by mean, every such name present |
| Kpis.TopRanked | scripts/kpis_imbd.py:115-117 | at most top_n rows, each qualifying with its count and mean; a qualifying name is missing only when top_n rows were kept, each rated at least as high |
| Kpis.TopPerformers | scripts/kpis_imbd.py:102-120 | at most top_n rows, names distinct, cantidad_peliculas >= min_titles and equal to the number of the name's joined rows, rating_promedio their mean, non-increasing; a qualifying name is left out only when top_n rows rated at least as high are kept |
| Kpis.SuccessfulActors | scripts/kpis_imbd.py:102-120 | the top table of the actor and actress credits: at most top_n rows, names distinct, cantidad_peliculas >= min_titles and equal to the number of the name's joined rows, rating_promedio their mean, non-increasing, a qualifying name left out only when top_n rows rated at least as high are kept; each the name of someone with a rated actor or actress credit |
| Kpis.SuccessfulDirectors | scripts/kpis_imbd.py:126-142 | the top table of the director credits: at most top_n rows, names distinct, cantidad_peliculas >= min_titles and equal to the number of the name's joined rows, rating_promedio their mean, non-increasing, a qualifying name left out only when top_n rows rated at least as high are kept; each the name of someone with a rated director credit |
| Kpis.PerformersCredited | scripts/kpis_imbd.py:105-110 | every listed person has a principal row in the roles that joins to a rating row and a name row with that primaryName |
| Kpis.UnjoinedCreditLeavesRows | scripts/kpis_imbd.py:105-109 | a credit outside the roles, or without a rating row, or without a name row, adds no joined row |
| Kpis.UnjoinedCreditLeavesTop | scripts/kpis_imbd.py:105-119 | such a credit leaves KPIs 3 and 4 unchanged |
| Kpis.GenreRuntimesMembership | scripts/kpis_imbd.py:150-155 | a row of KPI 5 is a kept genre of a title with runtimeMinutes > 0, with that runtime, and every such pair is one |
| Kpis.GenreRuntimeKeys | scripts/kpis_imbd.py:153-155 | every genre KPI 5 groups on is non-empty and comma-free, and every runtime it averages is at least one minute |
| Kpis.RuntimeByGenre | scripts/kpis_imbd.py:148-165 | one row per genre of a title with a positive runtime, genres distinct and comma-free, duracion_promedio the mean of exactly that genre's runtimes (at least 1), non-increasing |
| Kpis.TitleWithoutRuntimeIgnored | scripts/kpis_imbd.py:153 | adding a title whose runtimeMinutes is null or not positive leaves KPI 5 unchanged |
| ExcelExport.ReplaceChar | scripts/kpis_imbd.py:177 | replace keeps the length, maps each occurrence of the character to the replacement and leaves the others, so none remain |
| ExcelExport.SafeSheetName | scripts/kpis_imbd.py:177 | the name has min(length, 31) characters, no "/" or backslash, and character i is the original's with "/" and backslash turned into "_" |
| ExcelExport.SafeSheetNameKeepsSafe | scripts/kpis_imbd.py:177 | a name of at most 31 characters without "/" or backslash is kept as it is |
| ExcelExport.SafeSheetNameIdempotent | scripts/kpis_imbd.py:177 | normalising a normalised name changes nothing |

## Left out

- Default arguments `desde_anyo=2000` (scripts/kpis_imbd.py:74), `min_titles=3` and `top_n=20` (scripts/kpis_imbd.py:102 and 126): Dafny functions have no default arguments, so the model's KPI functions take all three explicitly.
- Reading the parquet files (`load_data`, scripts/kpis_imbd.py:17-22): file I/O. The four tables are parameters.
- Writing the workbook in `export_to_excel` (scripts/kpis_imbd.py:174-180) and the loop over the KPI tables: file I/O through pandas/openpyxl. Only the sheet-name expression is modelled.
- Creating the output directory at import time (scripts/kpis_imbd.py:11) and `main` with its prints (scripts/kpis_imbd.py:187-209): side effects and orchestration.
- scripts/curate_imdb.py and scripts/ingesta_imdb.py are not part of this model. They are library casts and TSV/parquet I/O. The model starts from the curated tables.
- Floating point: averageRating, the products, sums and means are exact `real` arithmetic. Rounding is not modelled.
- Kpis.PopularityByGenre: requires every genre of the join to have a positive total_votos. A genre whose joined votes sum to 0 gets 0/0, NaN, from the engine, and the model does not represent that row.
- Kpis.PopularityByGenre: numVotes is Int64 after the cast in scripts/curate_imdb.py:36, so in the engine total_votos overflows past 2^63 - 1; the model sums unbounded integers.
- Kpis.TopPerformers: cantidad_peliculas comes from pl.count() (scripts/kpis_imbd.py:112 and 134), a UInt32 in the engine; the model counts with an unbounded `nat`.
- Sort ties: polars does not fix the order of tied rows, nor the row order of joins and group_by. The model's insertion sort and fold pick one order. No contract claims a tie order.
- Kpis.TopPerformers: does not say which of several rows tied at the cut-off survive limit(top_n). It says only that every kept row is rated at least as high as any qualifying row that was cut.
- Null cells in rating, principal and name rows (averageRating, numVotes, category, primaryName, nconst) and null tconst: these cells are taken as non-null. A null primaryName would form its own group in the engine; the model has no such group.
- numVotes is a `nat`. A negative vote count after the curate cast is not modelled.
- Kpis.RuntimeByGenre: the Float64 cast of runtimeMinutes (scripts/kpis_imbd.py:152) is modelled as the exact conversion of the integer to a real.
- Kpis.RatingTrendByGenre: compares startYear with desde_anyo as unbounded integers. The engine's handling of a desde_anyo outside the Int32 range is not modelled.
- Kpis.TopPerformers: top_n is a `nat`. A negative top_n is not modelled.
