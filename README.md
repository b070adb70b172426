# Hybrid search with Reciprocal Rank Fusion

The hybrid example of pgvector-java answers one search with one SQL query,
`HYBRID_SQL`. The query runs two ranking sub-queries over the `documents`
table:

- `semantic_search` orders the documents by cosine distance to the query
  embedding.
- `keyword_search` orders the documents that match the full-text query by
  `ts_rank_cd` relevance, best first.

Each sub-query numbers its rows with `RANK()` and keeps the first 20. The
query then joins the two with a `FULL OUTER JOIN` on the document id. It
gives every id the Reciprocal Rank Fusion score

    COALESCE(1/(k + semantic rank), 0) + COALESCE(1/(k + keyword rank), 0)

and returns the 5 best-scoring ids. The Java caller binds the one constant
`k = 60` to both `?` of the score.

The project models that query with exact arithmetic. Five modules follow the
query's structure:

- `OrderBy` models `ORDER BY f DESC LIMIT n`. SQL fixes no order among equal
  keys. `IsOrderByLimit` therefore admits the first `n` rows of *any* ordering
  by non-increasing key. Every property is proved for every admissible
  result, not for one tie-break. An insertion sort (`OrderByLimit`) shows
  that an admissible result always exists.
- `RankedList` models a sub-query's output rows `(id, rank)` and the lookup
  `Find`, which stands for the join condition `semantic_search.id =
  keyword_search.id`.
- `WindowRank` models the two sub-queries over rows that carry their sort key.
  `RANK()` is one more than the number of rows that sort strictly before the
  row, so peers share a rank and a gap follows them. The window sees every
  row before the `LIMIT 20` applies.
- `Fusion` models the join, the `COALESCE` score and `ORDER BY score DESC
  LIMIT 5`. Its two parameters `kSem` and `kKw` are the query's two score parameters.
- `HybridQuery` models the whole query with `k = 60` bound to both
  parameters. It also holds a worked example and a tie example.

## Model

| member | source | states |
|---|---|---|
| OrderBy.IsOrderByLimit | examples/hybrid/src/main/java/com/example/Example.java:170-171 | an admissible `ORDER BY f DESC LIMIT n` result is the first n rows of some ordering of the input by non-increasing f, ties in any order; it has min(n, \|input\|) rows |
| OrderBy.OrderByLimit | examples/hybrid/src/main/java/com/example/Example.java:154-155 | sorting the input by non-increasing key and keeping the first `limit` rows yields an admissible `ORDER BY ... DESC LIMIT` result |
| OrderBy.OrderByLimitProperties | examples/hybrid/src/main/java/com/example/Example.java:170-171 | every admissible `ORDER BY f DESC LIMIT n` result has min(n, \|input\|) rows, is ordered by non-increasing f and holds only input rows; no row left out has a larger f than a row kept; distinct keys stay distinct |
| OrderBy.OrderByLimitKeysDetermined | examples/hybrid/src/main/java/com/example/Example.java:170-171 | any two admissible `ORDER BY f DESC LIMIT n` results of one input have the same length and the same f at every position |
| OrderBy.CountPermutation | examples/hybrid/src/main/java/com/example/Example.java:170 | how many rows have f at least v does not depend on their order |
| OrderBy.PermutationKeepsKeysDistinct | examples/hybrid/src/main/java/com/example/Example.java:154 | reordering rows whose ids are distinct keeps them distinct |
| OrderBy.KeySetSize | examples/hybrid/src/main/java/com/example/Example.java:54 | rows with distinct ids (the primary key) have exactly as many ids as rows |
| RankedList.Find | examples/hybrid/src/main/java/com/example/Example.java:169 | the join lookup finds a row for an id exactly when the sub-ranking holds that id, and the row it finds carries that id |
| RankedList.FindUnique | examples/hybrid/src/main/java/com/example/Example.java:169 | when ids are distinct, the lookup of a row's id returns that very row |
| WindowRank.RankOf | examples/hybrid/src/main/java/com/example/Example.java:152 | `RANK()` is at least 1, and it is 1 exactly when no row of the window sorts strictly before (also used for :158) |
| WindowRank.IsSubRanking | examples/hybrid/src/main/java/com/example/Example.java:151-163 | an admissible sub-query result is an admissible `ORDER BY key LIMIT n` of the rows, each kept row annotated with its `RANK()` over all rows; it has min(n, \|rows\|) rows |
| WindowRank.SubRanking | examples/hybrid/src/main/java/com/example/Example.java:151-163 | the sub-query with input-order ties is an admissible result of `ORDER BY key LIMIT n` annotated with `RANK()` |
| WindowRank.RankOfMonotone | examples/hybrid/src/main/java/com/example/Example.java:152 | a row that sorts no later than another never gets a larger `RANK()` |
| WindowRank.RankOfGap | examples/hybrid/src/main/java/com/example/Example.java:152 | a row that sorts strictly after another gets a strictly larger `RANK()` |
| WindowRank.RankIsFirstPeerPosition | examples/hybrid/src/main/java/com/example/Example.java:152 | in any ordering of the rows by key, a row's `RANK()` is one more than the position of the first row that shares its key, so peers share a rank |
| WindowRank.SubRankingWellFormed | examples/hybrid/src/main/java/com/example/Example.java:151-162 | every admissible sub-query result has min(limit, \|rows\|) rows, at most `limit`, with distinct ids taken from the table, ranks that start at 1, are at least 1 and never decrease |
| WindowRank.SubRankingRankBound | examples/hybrid/src/main/java/com/example/Example.java:152-155 | the row at position i of a sub-query result has rank at most i + 1 |
| WindowRank.SubRankingKeepsBest | examples/hybrid/src/main/java/com/example/Example.java:154-155 | the `LIMIT 20` never drops a row whose rank is strictly better than a kept row's |
| Fusion.KeywordSide | examples/hybrid/src/main/java/com/example/Example.java:168-169 | the keyword-only join rows are the keyword rows whose id the semantic side lacks, each with a NULL semantic side |
| Fusion.FullOuterJoin | examples/hybrid/src/main/java/com/example/Example.java:168-169 | the full outer join holds a row for every id of either sub-ranking and for no other id (that the row is unique is `Fusion.FullOuterJoinMatches`) |
| Fusion.FullOuterJoinMatches | examples/hybrid/src/main/java/com/example/Example.java:165-169 | the join's `COALESCE`d ids are distinct, and each join row's semantic and keyword columns are that id's row in each sub-ranking, NULL where the sub-ranking lacks it |
| Fusion.Reciprocal | examples/hybrid/src/main/java/com/example/Example.java:166-167 | the term `1.0 / (k + rank)` is positive and at most 1/k |
| Fusion.CoalesceTerm | examples/hybrid/src/main/java/com/example/Example.java:166-167 | `COALESCE(1.0 / (k + rank), 0.0)` is 0 exactly when the rank is NULL, and otherwise the term for that rank |
| Fusion.ScoreRow | examples/hybrid/src/main/java/com/example/Example.java:165-167 | the SELECT list on one join row gives the row's `COALESCE`d id and a score in (0, 1/kSem + 1/kKw] |
| Fusion.Candidates | examples/hybrid/src/main/java/com/example/Example.java:164-169 | one scored row per join row, in join order, each with that join row's id and a positive score |
| Fusion.Rrf | examples/hybrid/src/main/java/com/example/Example.java:95-101 | RRF(d), the sum over the rankers that hold d of 1/(k + r(d)), is never negative, and positive exactly when some ranker holds d |
| Fusion.IsFusedResult | examples/hybrid/src/main/java/com/example/Example.java:164-171 | an admissible query result is an admissible `ORDER BY score DESC LIMIT 5` of the scored join; it has at most 5 rows |
| Fusion.CandidateIds | examples/hybrid/src/main/java/com/example/Example.java:165-169 | the scored join rows have distinct ids, and these ids are exactly the union of the sub-rankings' ids |
| Fusion.CandidatesAreRrf | examples/hybrid/src/main/java/com/example/Example.java:165-167 | each scored row's score equals the reference sum RRF(d) over the rankers holding d of 1/(k + r(d)); a ranker without d adds 0 |
| Fusion.Fuse | examples/hybrid/src/main/java/com/example/Example.java:164-171 | sorting the scored join by score and keeping 5 rows yields an admissible query result |
| Fusion.FusedRowsAreRrf | examples/hybrid/src/main/java/com/example/Example.java:165-171 | every admissible result has distinct ids, each from one of the sub-rankings, and each with score RRF(d) |
| Fusion.FusedOrderAndSize | examples/hybrid/src/main/java/com/example/Example.java:170-171 | every admissible result is ordered by non-increasing score and has min(5, \|union of ids\|) rows |
| Fusion.FusedKeepsTop | examples/hybrid/src/main/java/com/example/Example.java:170-171 | no id that the `LIMIT 5` drops has a larger RRF score than a returned row |
| Fusion.FusedScoresDetermined | examples/hybrid/src/main/java/com/example/Example.java:170-171 | any two admissible query results have the same length and the same score at every position; they differ only among equally scored ids |
| Fusion.ReciprocalDecreasing | examples/hybrid/src/main/java/com/example/Example.java:166-167 | each term 1/(k + rank) is positive and strictly decreasing in the rank |
| Fusion.ReciprocalBounds | examples/hybrid/src/main/java/com/example/Example.java:166-167 | a term for a rank of at least 1 lies in (0, 1/(k + 1)] |
| Fusion.RrfBounds | examples/hybrid/src/main/java/com/example/Example.java:165-167 | the fused score of an id of either sub-ranking is positive, at most 1/(kSem + 1) + 1/(kKw + 1), and at least the term of each sub-ranking that holds the id |
| Fusion.RrfMonotone | examples/hybrid/src/main/java/com/example/Example.java:95-101 | for two ids held by the same sub-rankings, one that each of them ranks no worse than the other never scores lower |
| Fusion.BetterSemanticRankRaisesScore | examples/hybrid/src/main/java/com/example/Example.java:166 | a strictly better semantic rank, all else equal, gives a strictly higher fused score |
| Fusion.BetterKeywordRankRaisesScore | examples/hybrid/src/main/java/com/example/Example.java:167 | a strictly better keyword rank, all else equal, gives a strictly higher fused score |
| HybridQuery.HybridSearch | examples/hybrid/src/main/java/com/example/Example.java:123-136 | the query with k = 60 bound to both score parameters fuses the two sub-query results |
| HybridQuery.HybridSearchProperties | examples/hybrid/src/main/java/com/example/Example.java:150-172 | for every admissible sub-query and fusion result: each sub-ranking has at most 20 rows; the result has min(5, \|union of ids\|) rows with distinct ids from the table, ordered by non-increasing score; each score is RRF with k = 60 on both terms and lies in (0, 2/61] |
| HybridQuery.SameKWeighsRankingsAlike | examples/hybrid/src/main/java/com/example/Example.java:135-136 | with the same k on both terms, swapping the two sub-rankings changes no score |
| HybridQuery.EmptyRankingsFuseToNothing | examples/hybrid/src/main/java/com/example/Example.java:164-171 | two empty sub-rankings fuse to an empty result, not an error |
| HybridQuery.ExampleScores | examples/hybrid/src/main/java/com/example/Example.java:165-167 | for semantic ranks 1, 2, 3 and keyword ranks 3 → 1, 1 → 2 with k = 60, the scores are 1/61 + 1/62, 1/62 and 1/63 + 1/61 |
| HybridQuery.WorkedExample | examples/hybrid/src/main/java/com/example/Example.java:164-171 | for that example the only admissible result is documents 1, 3, 2 with those scores |
| HybridQuery.TiesMayComeBackInEitherOrder | examples/hybrid/src/main/java/com/example/Example.java:170 | `ORDER BY score DESC` fixes no order among equal scores: two documents at rank 1 in one sub-ranking each may come back in either order |

## Left out

- Connecting to PostgreSQL, creating the extension and table, and
  inserting the documents are left out. They are side effects around the
  query, not part of the fusion.
- Computing embeddings through Ollama is left out. It is a foreign call.
  The model receives the rows with their sort keys already computed.
- How the sort keys are computed is left out: cosine distance `<=>`,
  `to_tsvector`, `plainto_tsquery` and `ts_rank_cd`. The keyword sub-query's
  `@@` match filter is also left out: its input rows are the ones that
  passed it. The keyword sort key is the negated relevance, so both
  sub-queries sort by ascending key.
- The semantic sub-query binds the same embedding to two parameters (lines
  132-133). The model uses one key for both the window and the sort.
- Printing the result set is left out.
- The commented-out HNSW index code is left out. The OpenAI example is
  left out as well.
- Rows with a NULL embedding are left out. Every row has a key.
- The tie order of `ORDER BY` is unspecified by SQL. It is left open, not
  modelled. Every admissible order is allowed, and
  `HybridQuery.TiesMayComeBackInEitherOrder` shows that it matters.
- The score is computed in exact real arithmetic rather than in
  PostgreSQL's `numeric` and `double precision`. Equal-looking scores that
  rounding could separate or merge are not modelled.
- Fusion.Fuse: `k > 0` is a precondition, not a checked error. The code
  never validates `k`, and it always passes 60. The two limits are the
  query's constants 20 and 5, not parameters.
- The query's result is not a function of its input. Rows with equal scores
  may come back in any order, and at the `LIMIT 5` boundary any of them may
  be kept. `Fusion.FusedScoresDetermined` proves what is fixed: the length
  and the score at every position. `Fusion.Fuse` picks one admissible result.
- The `keyword_search` rank column has no alias in the query. PostgreSQL
  names it after the function, `rank`. The model takes that name as given.
- Ranks come from `RANK()`, so peers share a rank. The ranks never decrease
  along a sub-query's rows, but they need not increase strictly.
- The code has no configuration error for `k <= 0` or for a non-positive
  result limit.
