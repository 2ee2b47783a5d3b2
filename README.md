# Conversational movie recommender: a Dafny model

This project models the core of a conversational movie recommender. The recommender keeps
a property graph of movies. Each row of the graph is (movie id, property, value, value code),
for example (42, "director", "Martin Scorsese", "Q41148"). The user names a property and a
value. The bot narrows the graph to the movies that have that pair. Then, turn by turn, it
either shows the five best-scored (property, value) rows or recommends the most-rated movie.
Each answer narrows the graph again, removes movies, or ends the conversation.

Modules, each following one part of the program:

- `Facts` (facts.dfy) holds the graph rows, Python's exceptions as an `Error` datatype, and
  the pandas index operations: `index.unique()`, `sort_index()`, `drop`.
- `Counting` (facts.dfy) holds `value_counts()` and the movie-value frames that rank movies.
- `Narrowing` models both versions of `shrink_graph`. The `SemanticBot/main.py` version
  strips the chosen property and value. The `SemanticBot/utils.py` version keeps them.
- `Popularity` models `prop_most_pop` (both files), `show_props`, and
  `order_movies` / `order_movies_by_pop`.
- `PageRankShell` models everything in `order_movies_by_pagerank` except the PageRank
  iteration itself: the node set, the preference list, the personalization weights and
  the final ordering.
- `PropRanking` models `order_props`: regrouping by property, counting values, the score
  lookup, removing liked values, and sorting by score.
- `AgeFilter` models `remove_films_by_age`.
- `Adjacency` models the co-occurrence matrix script in
  `WikidataIntegration/adjacency_matrix.py`. The matrix is a Dafny `array2` filled in place.
- `Wikidata` models `results_to_dict` and the table preparation and batching of
  `WikidataIntegration/wikidata_integration.py`. This includes Python's `str.split` and
  `str.join` with their round trip.
- `Dialogue` models the conversation loop of `SemanticBot/main.py` as a class `Session`. Its
  fields are the script's variables. Its methods update them in place, turn by turn.

The inputs the program reads or computes elsewhere are parameters of the model:

- the user's answers
- the coin flip that chooses between asking and recommending
- the ratings table
- the PageRank function
- the global z-scores, the entropy z-scores and the local z-scores, given for each round by a function of that round's narrowed graph

Sorting is modelled as any sorted permutation. A movie or property ranking is proved
sorted by its score, a permutation of what was scored, and holding exactly the expected
movies.

The model follows the code wherever the code and its comments differ:

- **Strip in main.py.** `shrink_graph` in main.py keeps a row only if its property differs
  from the chosen one AND its value differs from the chosen one (main.py:51). So a
  different property with the same value is stripped too.
- **No strip in utils.py.** `shrink_graph` in utils.py keeps the matching rows twice: once
  from the mask and once among their movie's rows.
- **Empty graph in show_props.** `show_props` on an empty graph returns an empty list. The
  division by the movie count is never reached.
- **Repeated drop in the reject loop.** Answering "no" drops each movie once per row that
  holds a shown pair. A movie with two such rows raises KeyError on the second drop
  (`Dialogue.RejectTwiceHeld`).
- **Missing movies in remove_films_by_age.** `remove_films_by_age` raises KeyError when a
  movie it removes has no row in the graph.
- **movie_props_list.** It returns no pairs for a movie with exactly two rows. `loc` then
  yields a two-row frame, and `[0]` on that frame raises a KeyError that the function
  catches.

## Model

| member | source | states |
|---|---|---|
| Facts.UniqueMovies | SemanticBot/main.py:48 | `index.unique()` lists each movie of the frame exactly once and nothing else |
| Facts.SortIndex | SemanticBot/main.py:52 | `sort_index()` is a permutation of the frame, sorted by movie id |
| Facts.Drop | SemanticBot/main.py:224-226 | `drop(m)` removes movie m from the frame's index and keeps every other movie; each row of m is gone and every other row keeps its multiplicity |
| Facts.Without | SemanticBot/utils.py:259 | `drop(remove_movies)` removes exactly the listed movies from the index; their rows are gone and every other row keeps its multiplicity |
| Facts.DropWithout | SemanticBot/main.py:223-226 | dropping one more movie after removing a set of movies equals removing the larger set |
| Counting.PropValues | SemanticBot/main.py:15 | the selected `obj` column holds exactly the values the property takes in the graph |
| Counting.ValueCountsShape | SemanticBot/main.py:15 | `value_counts()` lists every value once with its true count, in non-increasing order of count |
| Counting.SortedRankingDistinct | SemanticBot/main.py:62-66 | reordering (as `sort_values` does) a ranking that holds each movie once still holds each of those movies once, and no other |
| Narrowing.ShrinkGraph | SemanticBot/main.py:38-52 | the result is sorted by movie and is a permutation of the rows of matching movies that carry neither the property nor the value; every row comes from the graph |
| Narrowing.Gather | SemanticBot/main.py:48-49 | after the concat loop, each row appears as often as among the matches plus its count in the graph if its movie was gathered |
| Narrowing.StripGathered | SemanticBot/main.py:51 | stripping the gathered rows leaves exactly the narrowed rows, with their multiplicities in the graph |
| Narrowing.NarrowedRows | SemanticBot/main.py:46-51 | every narrowed row is a graph row of a matching movie, with a different property and a different value |
| Narrowing.ShrinkTwice | SemanticBot/main.py:46-51 | narrowing twice by the same pair leaves an empty graph |
| Narrowing.ShrinkGraphUnstripped | SemanticBot/utils.py:56-69 | the result is sorted; a matching row appears twice, another row of a matching movie once, all other rows never; its movies are exactly the matching movies |
| Narrowing.GatheredCounts | SemanticBot/utils.py:64-67 | the gathered multiset counts each matching row twice and each other row of a matching movie once |
| Narrowing.GatheredMovies | SemanticBot/utils.py:64-67 | the gathered rows hold exactly the matching movies |
| Popularity.ValuesByFrequencyRanked | SemanticBot/utils.py:6-13 | the list holds each value of the property once, exactly the values it takes, most frequent first |
| Popularity.PropMostPopTopTen | SemanticBot/main.py:8-15 | the first ten (or all, if fewer) distinct values of the property in order of frequency, so min(10, number of distinct values) of them; no omitted value occurs more often than a returned one |
| Popularity.UniqueProps | SemanticBot/utils.py:46 | `prop.unique()` lists each property of the graph once and nothing else |
| Popularity.ShowProps | SemanticBot/utils.py:36-53 | the result is the properties, in first-appearance order, whose share of movies reaches the threshold; each appears once; it is empty for an empty graph |
| Popularity.OrderMovies | SemanticBot/main.py:55-66 | `RankedByRatings`: the ranking is sorted by rating count, highest first, with each movie of the graph exactly once; each value is that movie's number of ratings |
| PageRankShell.NatToString | SemanticBot/utils.py:99 | `str(x)` of a movie id is a non-empty run of decimal digits |
| PageRankShell.MovieCode | SemanticBot/utils.py:91 | a movie's node name is "M" followed by `str` of its id, so at least one more character |
| PageRankShell.NatToStringInjective | SemanticBot/utils.py:99 | different ids have different decimal strings |
| PageRankShell.IntToStringInjective | SemanticBot/utils.py:99 | different integers, negative ones included, have different `str` |
| PageRankShell.MovieCodeInjective | SemanticBot/utils.py:126-128 | different movies get different node names, so each movie reads its own score |
| PageRankShell.MovieCodesAreNodes | SemanticBot/utils.py:90-96 | every movie of the graph is a node of the PageRank graph |
| PageRankShell.MovieCodes | SemanticBot/utils.py:99 | the watched movies' codes, one per watched movie, in order |
| PageRankShell.Personalize | SemanticBot/utils.py:111-119 | raises ZeroDivisionError exactly when the preferences are empty or as many as the nodes; otherwise the map over the nodes giving `weight_vec[0] / len(preferences)` to a preferred node and `weight_vec[1] / (nodes - len(preferences))` to any other (the `Personalization` map) |
| PageRankShell.WeightsMap | SemanticBot/utils.py:115-119 | a map over exactly the nodes holding each node's weight is the personalization dictionary the loop builds |
| PageRankShell.RankByScore | SemanticBot/utils.py:124-130 | raises KeyError exactly when a movie has no score; otherwise each movie once, with its score, highest first |
| PageRankShell.ScoreEach | SemanticBot/utils.py:126-128 | raises KeyError exactly when some movie's node has no score; otherwise each movie paired with its own score, in order |
| PageRankShell.ScoresKept | SemanticBot/utils.py:130 | sorting the scored movies keeps each movie's score |
| PageRankShell.OrderMoviesByPagerank | SemanticBot/utils.py:72-130 | the personalization is none when objects are unused and nothing was watched, else the weights over the watched codes (followed by the objects when used); raises ZeroDivisionError exactly as building it does, and PowerIterationFailedConvergence exactly when PageRank does not converge; otherwise each movie of the graph once, valued by the PageRank score of its own node, sorted highest first |
| PropRanking.Slice | SemanticBot/utils.py:163 | the slice keeps each row's movie, property and value, in order |
| PropRanking.GroupedMultiset | SemanticBot/utils.py:167-172 | concatenating the groups of distinct properties holds each entry of those properties as often as the slice does |
| PropRanking.GroupedPermutation | SemanticBot/utils.py:163-172 | regrouping by property is a permutation of the slice |
| PropRanking.CountColumn | SemanticBot/utils.py:167-172 | each regrouped entry gets the number of entries with its value within its property |
| PropRanking.ScoreRows | SemanticBot/utils.py:174-190 | raises KeyError exactly when some (prop, obj) has no global z-score; otherwise each entry becomes its scored row, in order |
| PropRanking.DropFavourites | SemanticBot/utils.py:192-194 | a row survives exactly as often as before if its value is not liked, otherwise never |
| PropRanking.RowCount | SemanticBot/utils.py:174-190 | each entry's scored row occurs as often as the entry |
| PropRanking.GroupedKeys | SemanticBot/utils.py:174-175 | every regrouped entry has a global z-score exactly when every graph row's (prop, obj) has one |
| PropRanking.ScoredKeys | SemanticBot/utils.py:174-175 | the scoring raises exactly when some graph row's (prop, obj) is missing from the global z-scores |
| PropRanking.RankedRows | SemanticBot/utils.py:192-196 | after removing liked values and sorting, no row has a liked value and each entry's row occurs exactly as often as the entry |
| PropRanking.OrderProps | SemanticBot/utils.py:147-196 | raises KeyError exactly when a (prop, obj) lacks a global z-score; otherwise `RankedProps`: the rows are sorted by score, highest first, none has a liked value, every row is some graph entry's row, and each entry's row occurs as often as the entry |
| AgeFilter.RemoveLabels | SemanticBot/utils.py:225-248 | the label list holds exactly the labels restricted for the age and parental answer, each once |
| AgeFilter.EntryMovies | SemanticBot/utils.py:252-255 | the index list holds exactly the movies of the entries |
| AgeFilter.CollectRemoved | SemanticBot/utils.py:252-257 | a movie is collected exactly when it has an unrated entry or an entry with a removed label |
| AgeFilter.RemoveFilmsByAge | SemanticBot/utils.py:223-261 | above 17 the graph is unchanged; otherwise raises KeyError exactly when an excluded movie is absent from the graph, and else removes every row of the excluded movies and nothing else |
| Adjacency.PairsOf | WikidataIntegration/adjacency_matrix.py:19 | one (prop, obj) tuple per row, in order |
| Adjacency.MovieProps | WikidataIntegration/adjacency_matrix.py:5-26 | no pairs for an unknown movie or one with two rows; the single pair for one row; otherwise exactly the movie's pairs |
| Adjacency.RowPairs | WikidataIntegration/adjacency_matrix.py:14-19 | the pairs of a movie's rows are the pairs its graph rows carry |
| Adjacency.Axis | WikidataIntegration/adjacency_matrix.py:33 | the axis is strictly ascending and holds exactly the graph's movies |
| Adjacency.FillRow | WikidataIntegration/adjacency_matrix.py:40-64 | one pass of the outer loop writes every cell of row and column i from the diagonal on, keeping the cells written before |
| Adjacency.FillMatrix | WikidataIntegration/adjacency_matrix.py:33-64 | a fresh square matrix over the axis; each off-diagonal cell holds the number of distinct pairs the two movies share, and each diagonal cell 0 |
| Adjacency.CellSymmetric | WikidataIntegration/adjacency_matrix.py:47-63 | the matrix is symmetric with a zero diagonal |
| Adjacency.CellBound | WikidataIntegration/adjacency_matrix.py:50-53 | a cell never exceeds the number of distinct pairs of either movie |
| Wikidata.FirstIndex | WikidataIntegration/wikidata_integration.py:77 | the index found holds the separator |
| Wikidata.FirstIndexFirst | WikidataIntegration/wikidata_integration.py:77 | no separator comes before the index found |
| Wikidata.Split | WikidataIntegration/wikidata_integration.py:77 | `split` never returns an empty list |
| Wikidata.SplitPieces | WikidataIntegration/wikidata_integration.py:77 | no piece of a split contains the separator |
| Wikidata.SplitJoin | WikidataIntegration/wikidata_integration.py:77 | joining the pieces of a split gives back the string |
| Wikidata.JoinSplit | WikidataIntegration/wikidata_integration.py:77 | splitting a join of separator-free pieces gives back the pieces |
| Wikidata.JoinLast | WikidataIntegration/wikidata_integration.py:77 | the join of several pieces is the join of all but the last, the separator, then the last |
| Wikidata.ObjCodeIsTail | WikidataIntegration/wikidata_integration.py:77 | the obj code contains no '/', ends the URI, and is preceded by '/' unless it is the whole URI |
| Wikidata.FullImdbIdIsSegment | WikidataIntegration/wikidata_integration.py:95 | the id exists exactly when the link contains '/' (IndexError otherwise); it is the '/'-free piece before the last '/' |
| Wikidata.PrepareMovies | WikidataIntegration/wikidata_integration.py:93-95 | raises IndexError exactly when a kept link has no '/'; otherwise the rows with a non-null link, in table order and each once, each paired with the IMDb id cut from its link |
| Wikidata.ResultsToDict | WikidataIntegration/wikidata_integration.py:58-84 | raises KeyError exactly when a binding's IMDb id is unknown; otherwise one record per binding, in order, with the looked-up movie id and the obj code |
| Wikidata.BatchWindows | WikidataIntegration/wikidata_integration.py:102-112 | the number of windows is 0 below 350 movies and (total - 350) / 300 + 1 otherwise; they start at 0 with 350 movies and continue without gap or overlap, 300 at a time, every one within the table; fewer than 300 movies are left past the last one |
| Wikidata.WindowCount | WikidataIntegration/wikidata_integration.py:107-112 | the loop stops after exactly (total - 350) / 300 + 1 windows |
| Dialogue.WithoutMovies | SemanticBot/main.py:224-226 | removing movies from the three frames keeps them holding the same movies |
| Dialogue.Holders | SemanticBot/main.py:222 | the index lists exactly the movies having a row with the pair |
| Dialogue.HeldBy | SemanticBot/main.py:219-222 | a movie is held exactly when it has a row with the pair of some shown row |
| Dialogue.DropOneWithout | SemanticBot/main.py:224-226 | dropping a movie from the three frames after removing a set of movies equals removing the larger set |
| Dialogue.DropMoviesResult | SemanticBot/main.py:223-226 | a successful run of drops removes exactly the listed movies from the three frames |
| Dialogue.DropMoviesStep | SemanticBot/main.py:223-226 | a successful run of drops starts by removing its first movie |
| Dialogue.DropMoviesSucceed | SemanticBot/main.py:223-226 | drops of distinct movies held by all three frames never raise |
| Dialogue.HoldersWithout | SemanticBot/main.py:222 | the holders in a graph without some movies are the original holders minus those movies |
| Dialogue.HoldersConcat | SemanticBot/main.py:222 | the holders of two concatenated graphs are the holders of each, in order |
| Dialogue.StepResult | SemanticBot/main.py:222-226 | one successful step of the reject loop removes the original graph's holders of the pair |
| Dialogue.RejectRowsResult | SemanticBot/main.py:219-226 | a successful reject loop removes exactly the movies holding some shown pair |
| Dialogue.RejectRowsSucceed | SemanticBot/main.py:219-226 | with the frames holding the same movies and no movie holding a shown pair twice, the reject loop never raises |
| Dialogue.RejectAll | SemanticBot/main.py:218-226 | on frames holding the same movies, the reject loop succeeds when no pair is held twice; when it succeeds it removes exactly the holders and the frames still hold the same movies |
| Dialogue.DropMoviesMissing | SemanticBot/main.py:223-224 | a drop loop that reaches a movie `top_m` no longer holds raises KeyError |
| Dialogue.DropMoviesRepeated | SemanticBot/main.py:223-226 | a drop loop listing some movie twice raises KeyError, whatever the frames |
| Dialogue.RejectTwiceHeld | SemanticBot/main.py:222-226 | on any frames, a movie with two rows carrying the first shown pair makes the reject loop raise KeyError |
| Dialogue.RejectTwiceHeldWitness | SemanticBot/main.py:222-226 | such frames occur among those holding the same movies: a movie with two rows carrying the shown pair, where the reject loop raises KeyError |
| Dialogue.DropRecommended | SemanticBot/main.py:257-262 | the recommended movie drops from all three frames without error, removing just that movie |
| Dialogue.DropDuplicates | SemanticBot/main.py:205 | `drop_duplicates()` keeps rows of the frame, every distinct content, and no content twice |
| Dialogue.DropDuplicatesUnique | SemanticBot/main.py:205 | the kept rows' contents are exactly `unique()` of the frame's contents: in order of first appearance |
| Dialogue.DropDuplicatesFirst | SemanticBot/main.py:205 | each kept row is the first row of the frame with its content |
| Dialogue.ShownRows | SemanticBot/main.py:205 | the shown rows are the first min(5, n) of the n rows `drop_duplicates()` keeps, so rows of the ranking with pairwise different contents |
| Dialogue.PyIndex | SemanticBot/main.py:215-216 | `iloc[i]` succeeds exactly when -len <= i < len and then selects i or i + len |
| Dialogue.OrderPropsAndMovies | SemanticBot/main.py:138-151 | raises KeyError exactly when a graph row's pair lacks a global z-score; otherwise both rankings hold exactly the graph's movies, the movies are ranked by rating count and the property rows by score (`Ranked`) |
| Dialogue.RankedMovieKeys | SemanticBot/main.py:148 | the movie ranking is indexed by exactly the graph's movies |
| Dialogue.RankedRowKeys | SemanticBot/main.py:149 | the property ranking, with nothing liked removed, is indexed by exactly the graph's movies |
| Dialogue.Session.constructor | SemanticBot/main.py:173-183 | the whole graph, the first chosen pair, nothing watched or liked |
| Dialogue.Session.BeginRound | SemanticBot/main.py:189-192 | the graph becomes the narrowing on the chosen pair, sorted by movie; KeyError exactly when a pair of that graph lacks a global z-score in the scores for that graph, with the rankings left as they were; otherwise the frames hold the same movies, the movies are ranked by rating count and the rows by the scores of the narrowed graph, and the answer is reset to "no" |
| Dialogue.Session.CheckEnd | SemanticBot/main.py:264-268 | the conversation ends when the graph or either ranking is empty; nothing else changes |
| Dialogue.Session.AskTurn | SemanticBot/main.py:201-226 | "no" removes the holders of every shown pair (KeyError when a movie is dropped twice); a number selects the shown row at Python index n - 1 and appends exactly its pair to the liked pairs (IndexError when out of range); any other answer raises ValueError |
| Dialogue.Session.RejectShown | SemanticBot/main.py:219-226 | the loop over the shown rows leaves the frames as the reject specification says, or raises KeyError exactly when it does |
| Dialogue.Session.DropHolders | SemanticBot/main.py:223-226 | the loop over a movie list drops them one by one, or raises KeyError exactly when a drop fails |
| Dialogue.Session.RecommendTurn | SemanticBot/main.py:229-262 | with no movie left the conversation ends; "yes" ends it; any other answer removes only the top movie, and "watched" records it |
| Dialogue.Session.DropMovie | SemanticBot/main.py:260-262 | the recommended movie leaves all three frames, which still hold the same movies |
| Dialogue.Session.Run | SemanticBot/main.py:186-268 | the loop consumes at most the whole script; if it stops early without error, the conversation has ended; a crash is KeyError, IndexError or ValueError |

## Left out

- Entropy, local z-scores, the entropy z-score and `generate_global_zscore` are opaque inputs (`Scores`). `Run` and `BeginRound` take them as a function of the narrowed graph, applied afresh each round, as `order_props` recomputes the local and entropy z-scores from each round's graph (main.py:90-101). The function may also vary the global z-scores, which the program computes once. `calculate_entropy` and the mean and standard deviation are not modelled. Scores use exact reals instead of floating point, so NaN and `fillna(0)` do not arise.
- The PageRank iteration (`nx.pagerank_scipy`, utils.py:122) is a parameter of `OrderMoviesByPagerank`: a function of the node set and the personalization that returns a score per node, or none when the power iteration does not converge within `max_iter` (raised as `PowerIterationFailedConvergence`). A converged run is required to score every node. The parameter receives only the node set; its dependence on the edges is absorbed by choosing the function per call.
- The share of movies in `show_props` (utils.py:49-50) and the personalization weights (utils.py:112-113) are exact reals, so the rounding of Python's float division is not modelled; a threshold comparison that float rounding would tip is decided exactly.
- Console I/O (`input`, `print`), CSV reads and writes, the SPARQL query (`get_movie_data_from_wikidata`) and `WikidataIntegration/rated_movies.py` are not modelled. Answers, tables and query results are parameters.
- The coin flip `randint(0, 10) % 2` is the `Action` in the script given to `Run`.
- The parental answer to `remove_films_by_age` is one parameter for both questions. Only one of the two questions is asked for any age.
- Sorting is any stable or unstable sorted permutation. The tie order of pandas' `sort_values` (quicksort) is not modelled.
- `sort_values(by=['full_imdbId'])` (wikidata_integration.py:96) only reorders the table before batching, and is not modelled.
- In `shrink_graph`, a movie with a single row makes `loc` yield a Series. The model treats it as a one-row frame.
- `weight_vec` is a fixed-size tuple, so an IndexError from a short list cannot arise.
- main.py's `order_props` (main.py:69-111) is modelled by `PropRanking.OrderProps` with no liked pairs. That function has the same body without the favourites loop.
- `order_movies_by_pop` (utils.py:133-144) has the same body as main.py's `order_movies` and is modelled by `Popularity.OrderMovies`.
- The title lookups used only for printing (main.py:238, 252) are not modelled.
- Dialogue.Session.DropHolders: the three frames are written back once after the loop, not after each drop. On a KeyError the program ends, so the partly dropped frames are never read.
- Dialogue.Session.DropMovie: the three drops are one assignment. Their order is not observable because none of them can fail.
- Dialogue.Session.Run: states only that the loop stops within the script, ends the conversation and which errors can end it. Each turn's effect is stated by `AskTurn`, `RecommendTurn` and `BeginRound`. A run that exhausts its script stops, whereas the program would wait for input.
- Wikidata.ResultsToDict: the IMDb id table is a map, so a duplicated `full_imdbId` (for which `.loc` returns several ids) is not modelled.
- AgeFilter.RemoveFilmsByAge: states which rows remain and how often, not that their order is kept.
