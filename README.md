# Movie title lookup: title normaliser and top-five search

This project models the computational core of a small movie lookup tool
(`app.py`). The tool loads a movie catalog with `title` and `genres`
columns. It derives a `clean_title` column by deleting every character
outside `[a-zA-Z0-9 ]`. For a free-text query it returns the title and
genres of the five catalog rows most similar to the query, best first.

Three modules, one per concern:

- `Titles` (`titles.dfy`): `clean_title` as a character filter
  `CleanTitle` over `string`. The lemmas characterise its output
  independently of its recursive definition. The output is exactly the
  allowed characters of the input, in order, with case kept. They also
  prove idempotence, the fixed points, distribution over concatenation
  (no trimming and no collapsing of spaces), and that the output is never
  longer than the input.
- `Ranking` (`ranking.dfy`): `similarity.argsort()[-5:][::-1]`.
  `IsArgsort` describes every result `argsort` may give, including every
  order of tied scores. `IsTopK` describes a correct best-first top-k
  answer. `TopKOfArgsort` and `ArgsortFor` prove the two
  descriptions match exactly: every argsort result, sliced and reversed,
  is a correct answer, and every correct answer comes from some argsort
  result. `ArgSort`, a proved insertion sort of positions, fixes one
  argsort result so that `TopK` has a definite value.
- `Catalog` (`search.dfy`): the derived `clean_title` column
  (`AddCleanTitle`), the `iloc[...][["title", "genres"]]` projection
  (`Project`), and `search` itself (`Search`). `search` cleans the query,
  scores it, ranks the rows and projects the best ones.

The similarity scores are not computed here. They come from a TF-IDF
vectoriser fitted on the `clean_title` column, followed by cosine
similarity. `Search` takes them as a parameter `similarity`, a function
from a cleaned query to one score per catalog row. It applies that
function to the cleaned query, so the model still shows that scoring sees
only the normalised query.

The code does not list tied rows by catalog position. numpy's default
`argsort` is not stable, so the order of tied rows is not determined, and
even a stable ascending sort would list tied rows higher position first
after the `[::-1]` reversal. The model follows
the code: it leaves the order of ties open (`IsArgsort`, `MayReturn`) and
proves that `search`'s answers are exactly the correct top-five rankings
for some order of the ties (`MayReturnIffRanked`).

## Model

| member | source | states |
|---|---|---|
| `Titles.CleanTitle` | app.py:11-12 | The normalised title holds only characters of `[a-zA-Z0-9 ]` and is never longer than the title. |
| `Titles.KeptPositions` | app.py:11-12 | The normalised title is the title's characters at strictly increasing positions, and those positions are exactly the ones whose character is allowed: order and case are kept and nothing else is deleted. |
| `Titles.FilterIsCleanTitle` | app.py:11-12 | Conversely, any string that is the ordered filter of the title by the allowed class is the normalised title, so the filter description determines the result. |
| `Titles.CleanTitleFixedPoint` | app.py:11-12 | Normalisation leaves a string unchanged exactly when all of its characters are allowed. |
| `Titles.CleanTitleIdempotent` | app.py:11-12 | Normalising a normalised title changes nothing. |
| `Titles.CleanTitleConcat` | app.py:11-12 | Normalising a concatenation is concatenating the normalised parts: no trimming at the ends and no collapsing of spaces. |
| `Titles.CleanTitleOfChar` | app.py:12 | A single character is kept unchanged if it is in `[a-zA-Z0-9 ]` and deleted otherwise. |
| `Titles.CleanTitleEmpty` | app.py:12 | The normalised title is empty exactly when the title has no allowed character, the empty title included. |
| `Titles.AllowedClassExamples` | app.py:12 | An accented letter, a tab, a newline and a parenthesis are outside the kept class; a space, letters of both cases and digits are inside. |
| `Titles.CleanTitleDropsOne` | app.py:12 | Deleting a disallowed character between two clean pieces leaves both pieces as they were, spaces at their ends included. |
| `Catalog.AddCleanTitle` | app.py:14 | The derived table has one row per catalog row, with the same title and genres, and its `clean_title` is the normalised title of that row. |
| `Catalog.CleanColumnNormalised` | app.py:14 | Every `clean_title` entry holds only allowed characters, is no longer than its title and is left unchanged by normalising again. |
| `Ranking.ArgSort` | app.py:25 | `argsort` lists every catalog position exactly once, in ascending score order. |
| `Ranking.TakeLast` | app.py:25 | `[-k:]` keeps `min(k, n)` entries, the last ones, in their order. |
| `Ranking.Reverse` | app.py:25 | `[::-1]` keeps the length and reads the entries from the end. |
| `Ranking.TopKOfArgsort` | app.py:25 | For every order `argsort` may give to tied scores, the reversed last `k` positions are `min(k, n)` distinct valid positions, in non-increasing score order, and no position left out scores above any position taken. |
| `Ranking.ArgsortFor` | app.py:25 | Every correct top-`k` answer is produced by `argsort()[-k:][::-1]` for some order of the tied scores: this function builds that `argsort` result. |
| `Ranking.TopK` | app.py:25 | The ranking used by `search` is a correct top-`k` answer. |
| `Ranking.UniqueBestFirst` | app.py:25 | A position whose score beats every other position's is listed first. |
| `Ranking.StrictlyBetterEarlier` | app.py:25 | A position scoring strictly above the one listed at place `j` is listed before place `j`. |
| `Catalog.Project` | app.py:26 | The projection has one hit per listed position, in the listed order, with that row's title and genres verbatim and no other field. |
| `Catalog.ArgsortAnswerRanked` | app.py:25-26 | What the code returns for any order of tied scores is the title and genres of a correct top-five ranking. |
| `Catalog.RankedAnswerFromArgsort` | app.py:25-26 | The title and genres of any correct top-five ranking is an answer the code may return. |
| `Catalog.MayReturnIffRanked` | app.py:25-26 | The answers the code may return for given scores, over every order of tied scores, are exactly the title and genres of the correct top-five rankings. |
| `Catalog.SearchPositions` | app.py:21-25 | The positions `search` ranks are a correct top-five answer for the scores of the cleaned query. |
| `Catalog.Search` | app.py:21-26 | `search` returns exactly `min(5, n)` hits, and they are the title and genres of a correct top-five ranking by the scores of the cleaned query. |
| `Catalog.SearchMayBeReturned` | app.py:21-26 | The answer of the model is one the code may return. |
| `Catalog.SearchCleansQuery` | app.py:22 | A query and its normalised form give the same answer. |
| `Catalog.SearchBestFirst` | app.py:21-26 | The row whose score beats all others is the first hit. |

## Left out

- Loading `movies.csv` with `pd.read_csv` (app.py:8) is file input. The catalog is a parameter. Columns other than `title` and `genres` are not modelled; the projection drops them anyway.
- The TF-IDF vectoriser (app.py:17-18, 23) and cosine similarity (app.py:24) are floating-point library numerics. They are the parameter `similarity`, from a cleaned query to one score per row. Nothing is proved about the score values, such as their range or a self-match scoring 1.
- `Catalog.Search`: requires `similarity` to give one score per catalog row. The library call always does this, because the vectoriser was fitted on the same catalog.
- `Ranking.TopK`: the number of results is a parameter `k >= 1`, and `search` uses 5. Python's `[-0:]` would keep everything, so `k = 0` is excluded.
- `Ranking.ArgSort`: the order of tied scores in numpy's default `argsort` is not fixed. The model's `ArgSort` is a stable insertion sort that fixes one such order. The properties stated for all tie orders are stated with `IsArgsort` and `MayReturn`.
- The pandas index labels carried by the result frame are not modelled. The hits are a plain sequence in rank order.
- A missing (non-string) title, which would make `re.sub` raise an error, is not modelled. Titles are strings.
- The Streamlit page (app.py:29-40), with its text input, button, spinner and markdown rendering, is presentation only.
