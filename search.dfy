/** The catalog and the `search` function of the movie lookup tool.

    The catalog is the table read from `movies.csv`, here a sequence of
    `Movie` values; adding the `clean_title` column gives a sequence of
    `Row` values. The similarity of a (cleaned) query to every row comes
    from a TF-IDF vectoriser and cosine similarity, which are not modelled:
    `search` receives them as the function `similarity`, which maps a
    cleaned query to one score per row. What is modelled is everything
    `search` does around that call: it cleans the query, ranks the rows by
    score, keeps the best five and returns their `title` and `genres`. */
module Catalog {
  import opened Titles
  import opened Ranking

  /** A catalog entry as loaded: its display title and its genre list. */
  datatype Movie = Movie(title: string, genres: string)

  /** A catalog entry once the `clean_title` column has been added. */
  datatype Row = Row(title: string, genres: string, cleanTitle: string)

  /** One search result: the `title` and `genres` columns of a row. */
  datatype Hit = Hit(title: string, genres: string)

  /** How many rows `search` returns at most (`argsort()[-5:]`). */
  const ResultCount: nat := 5

  /** `movies["clean_title"] = movies["title"].apply(clean_title)`: one
      derived entry per row, computed from that row's title alone. */
  function AddCleanTitle(movies: seq<Movie>): (rows: seq<Row>)
    ensures |rows| == |movies|
    ensures forall i :: 0 <= i < |movies| ==>
      && rows[i].title == movies[i].title
      && rows[i].genres == movies[i].genres
      && rows[i].cleanTitle == CleanTitle(movies[i].title)
  {
    if movies == [] then []
    else
      [Row(movies[0].title, movies[0].genres, CleanTitle(movies[0].title))]
      + AddCleanTitle(movies[1..])
  }

  /** Every entry of the derived column is a normalised title: it holds
      only allowed characters and is never longer than its title. */
  lemma CleanColumnNormalised(movies: seq<Movie>, i: nat)
    requires i < |movies|
    ensures AllAllowed(AddCleanTitle(movies)[i].cleanTitle)
    ensures |AddCleanTitle(movies)[i].cleanTitle| <= |movies[i].title|
    ensures CleanTitle(AddCleanTitle(movies)[i].cleanTitle) == AddCleanTitle(movies)[i].cleanTitle
  {
    CleanTitleIdempotent(movies[i].title);
  }

  /** `movies.iloc[positions][["title", "genres"]]`: the listed rows, in
      the listed order, cut down to their title and genres. */
  function Project(rows: seq<Row>, positions: seq<nat>): (hits: seq<Hit>)
    requires InRange(positions, |rows|)
    ensures |hits| == |positions|
    ensures forall i :: 0 <= i < |positions| ==>
      hits[i] == Hit(rows[positions[i]].title, rows[positions[i]].genres)
  {
    if positions == [] then []
    else [Hit(rows[positions[0]].title, rows[positions[0]].genres)] + Project(rows, positions[1..])
  }

  /** `hits` is a correct answer of `search`: the title and genres of some
      correct top-five ranking of the rows by `scores`, best first. */
  ghost predicate IsRankedAnswer(rows: seq<Row>, scores: seq<real>, hits: seq<Hit>) {
    && |scores| == |rows|
    && exists r :: IsTopK(scores, ResultCount, r) && hits == Project(rows, r)
  }

  /** `hits` is what the source may return for these scores, for some
      order that numpy's `argsort` gives to equal scores. */
  ghost predicate MayReturn(rows: seq<Row>, scores: seq<real>, hits: seq<Hit>) {
    && |scores| == |rows|
    && exists p :: IsArgsort(scores, p) && hits == Project(rows, Reverse(TakeLast(p, ResultCount)))
  }

  lemma ArgsortAnswerRanked(rows: seq<Row>, scores: seq<real>, p: seq<nat>)
    requires |scores| == |rows| && IsArgsort(scores, p)
    ensures IsRankedAnswer(rows, scores, Project(rows, Reverse(TakeLast(p, ResultCount))))
  {
    var r := Reverse(TakeLast(p, ResultCount));
    TopKOfArgsort(scores, ResultCount, p);
    // `r` is the witness for the `exists` in `IsRankedAnswer`.
    assert IsTopK(scores, ResultCount, r) && Project(rows, r) == Project(rows, r);
  }

  lemma RankedAnswerFromArgsort(rows: seq<Row>, scores: seq<real>, r: seq<nat>)
    requires |scores| == |rows| && IsTopK(scores, ResultCount, r)
    ensures MayReturn(rows, scores, Project(rows, r))
  {
    var p := ArgsortFor(scores, ResultCount, r);
    assert Project(rows, r) == Project(rows, Reverse(TakeLast(p, ResultCount)));
  }

  /** The outputs the source may produce are exactly the correct top-five
      answers: `argsort()[-5:][::-1]` is a top-five selection, and it fixes
      nothing about tied rows. */
  lemma MayReturnIffRanked(rows: seq<Row>, scores: seq<real>, hits: seq<Hit>)
    requires |scores| == |rows|
    ensures MayReturn(rows, scores, hits) <==> IsRankedAnswer(rows, scores, hits)
  {
    assert MayReturn(rows, scores, hits) ==> IsRankedAnswer(rows, scores, hits) by {
      if MayReturn(rows, scores, hits) {
        var p :| IsArgsort(scores, p) && hits == Project(rows, Reverse(TakeLast(p, ResultCount)));
        ArgsortAnswerRanked(rows, scores, p);
      }
    }
    assert IsRankedAnswer(rows, scores, hits) ==> MayReturn(rows, scores, hits) by {
      if IsRankedAnswer(rows, scores, hits) {
        var r :| IsTopK(scores, ResultCount, r) && hits == Project(rows, r);
        RankedAnswerFromArgsort(rows, scores, r);
      }
    }
  }

  /** The positions `search` returns, best first, for the scores of the
      cleaned query. */
  function SearchPositions(query: string, rows: seq<Row>, similarity: string -> seq<real>): (r: seq<nat>)
    requires |similarity(CleanTitle(query))| == |rows|
    ensures IsTopK(similarity(CleanTitle(query)), ResultCount, r)
  {
    TopK(similarity(CleanTitle(query)), ResultCount)
  }

  /** `search(title)`: clean the query, score it against every row, and
      return the title and genres of the five best rows, best first (all
      rows when there are fewer than five). */
  function Search(query: string, rows: seq<Row>, similarity: string -> seq<real>): (hits: seq<Hit>)
    requires |similarity(CleanTitle(query))| == |rows|
    ensures |hits| == Min(ResultCount, |rows|)
    ensures IsRankedAnswer(rows, similarity(CleanTitle(query)), hits)
  {
    var r := SearchPositions(query, rows, similarity);
    Project(rows, r)
  }

  /** `Search` picks one of the answers the source may give. */
  lemma SearchMayBeReturned(query: string, rows: seq<Row>, similarity: string -> seq<real>)
    requires |similarity(CleanTitle(query))| == |rows|
    ensures MayReturn(rows, similarity(CleanTitle(query)), Search(query, rows, similarity))
  {
    MayReturnIffRanked(rows, similarity(CleanTitle(query)), Search(query, rows, similarity));
  }

  /** The query is normalised like the titles before it is scored, so a
      query and its normalised form give the same answer. */
  lemma SearchCleansQuery(query: string, rows: seq<Row>, similarity: string -> seq<real>)
    requires |similarity(CleanTitle(query))| == |rows|
    ensures |similarity(CleanTitle(CleanTitle(query)))| == |rows|
    ensures Search(CleanTitle(query), rows, similarity) == Search(query, rows, similarity)
  {
    CleanTitleIdempotent(query);
  }

  /** A row whose score beats every other row's is the first result. */
  lemma SearchBestFirst(query: string, rows: seq<Row>, similarity: string -> seq<real>, b: nat)
    requires |similarity(CleanTitle(query))| == |rows|
    requires b < |rows|
    requires forall j :: 0 <= j < |rows| && j != b ==> similarity(CleanTitle(query))[j] < similarity(CleanTitle(query))[b]
    ensures |Search(query, rows, similarity)| >= 1
    ensures Search(query, rows, similarity)[0] == Hit(rows[b].title, rows[b].genres)
  {
    var r := SearchPositions(query, rows, similarity);
    UniqueBestFirst(similarity(CleanTitle(query)), ResultCount, r, b);
  }
}
