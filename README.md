# Movie keyword search — a Dafny model

This project models the backend of a small movie recommendation service. At
start-up the service loads a dataset of movie records and keeps the ones that
have a title. For each `POST /movie-result` request it checks that the payload
holds a description and has a language model rewrite that description. It
then runs a keyword search:

- every record is scored by how many query words occur in its title and plot;
- records that score zero are dropped;
- the rest are stably sorted by descending score;
- the first ten are returned as `{title, poster}` pairs.

Files, one module each:

- `wrappers.dfy` (`Wrappers`): `Option` and `Result`.
- `text.dfy` (`Text`): the Python string operations the code uses. These are `lower()` (ASCII letters only), `split()` (a left-to-right scan, as CPython does it) and `strip()` with no argument (the full set of characters `str.isspace()` accepts), `strip(chars)`, `startswith` and the `in` substring test.
- `dataset.dfy` (`Dataset`): the `Movie` record and the start-up loop that filters the parsed array (`LoadRows`).
- `search.dfy` (`Search`): `search_movies`. There are specification functions for scoring (`CountIn`, `Score`, `ScoreAll`), for the stable sort (`SortDesc`), for the cut to ten (`Ranked`) and for the projection (`PosterOf`, `ToHit`, `SearchResult`). The method `SearchMovies` runs the two loops of the source and is proved equal to `SearchResult`. Lemmas state what a search guarantees.
- `refiner.dfy` (`Refiner`): the prompt built around the user text, the clean-up `strip().strip('"').strip("'")` of the model's reply (`CleanReply`), and `refine_query` (`RefineQuery`). The model call is a function parameter.
- `api.dfy` (`Api`): the request handler `movie_result` (`MovieResult`).

Modelling choices:

- **Record fields.** A JSON field that is missing, null or the empty string is falsy in the source.
  - A title in any of those states is modelled as `""`.
  - A missing plot is `""`, the default `doc.get("plot", "")` supplies.
  - A missing or null poster is `None`.
- **The model call.** The language model is the parameter `llm: string -> Option<string>`. It maps the prompt to the reply, and `None` stands for a failing call. The source does not catch that failure, so it becomes a 500 response (`ServerError`).
- **The dataset.** The in-memory dataset is an immutable sequence passed to the search. In the source it is a module-level list that is never changed after start-up.
- **The sort.** `scored.sort(reverse=True, key=...)` is Python's library sort, which is stable. It is modelled as a stable descending insertion sort on values (`SortDesc`). The model proves that this sort orders by non-increasing score, permutes its input and keeps equal scores in input order.

Two details of the code that a reader might expect to be otherwise:

- **Quote stripping.** `strip('"')` removes every leading and trailing double quote, not one layer, and `strip("'")` runs after it. `CleanReplyStripsAllQuotes` and `CleanReplyQuoteOrder` show both effects.
- **Tie order.** Equal scores are not ordered further: they keep dataset order (`RankedOrdered`, `RankedStable`).

## Model

| member | source | states |
|---|---|---|
| `Text.LowerChar` | main.py:46 | an ASCII upper-case letter maps to its lower-case letter (code point + 32); every other character is unchanged; no upper-case letter is left |
| `Text.Lower` | main.py:50-53 | lower-casing keeps the length and lower-cases each character in place |
| `Text.LowerIdempotent` | main.py:46 | lower-casing twice is lower-casing once, and no ASCII upper-case letter survives |
| `Text.LowerKeepsSpaces` | main.py:46 | each character is whitespace after lower-casing exactly when it was whitespace before |
| `Text.SplitLower` | main.py:46 | lower-casing then splitting gives the lower-cased words of the split: `s.lower().split() == [w.lower() for w in s.split()]` |
| `Text.Split` | main.py:46 | `str.split()` with no argument, as a left-to-right scan; its meaning is stated by `SplitWords`, `SplitJoinSpace` and `SplitLower` |
| `Text.SplitWords` | main.py:46 | every word of `split()` is non-empty and free of whitespace; there are no words exactly when the string is all whitespace (including the empty string) |
| `Text.SplitJoinSpace` | main.py:46 | splitting undoes joining with single spaces: for a list of words, `" ".join(ws).split() == ws` |
| `Text.Contains` | main.py:55 | the `in` substring test; `ContainsIff` states that it holds exactly when the word occurs at some position |
| `Text.ContainsIff` | main.py:55 | `w in text` holds exactly when `w` occurs at some position `i` of `text` (`text[i..i+len(w)] == w`) |
| `Text.ContainsIgnoresBoundaries` | main.py:55 | the substring test ignores word boundaries: "cat" is found in "category" |
| `Text.StripIn` | main.py:95 | `str.strip(chars)`; `StripInShape` states that it removes the longest prefix and suffix made of `chars`, and `StripInIdempotent` that a second strip changes nothing |
| `Text.Strip` | main.py:95 | `str.strip()` with no argument: `strip(chars)` over the characters of `str.isspace()` |
| `Text.StripInShape` | main.py:95 | `strip(chars)` keeps `s[i..j]`; everything before `i` and from `j` on is in `chars`; the kept part neither begins nor ends with a character of `chars` |
| `Text.StripInIdempotent` | main.py:95 | stripping the same characters a second time changes nothing |
| `Dataset.Titled` | main.py:33-36 | the kept rows are records of the input, each with a non-empty title, and no more of them than the input has |
| `Dataset.TitledAppend` | main.py:33-36 | the filter distributes over concatenation: it keeps dataset order and decides each record on its own |
| `Dataset.TitledCount` | main.py:33-36 | each titled record is kept exactly as often as it occurs in the input; each untitled record is dropped |
| `Dataset.TitledEmptyIff` | main.py:33-39 | the filtered list is empty exactly when no record has a title |
| `Dataset.LoadRows` | main.py:33-39 | the loading loop yields the titled records in order, or fails with "No movie data found" when there are none |
| `Search.CountIn` | main.py:55 | a score is never larger than the number of query words |
| `Search.CountInZeroIff` | main.py:55-57 | a record scores zero exactly when none of the query words occurs in its text |
| `Search.CountInAppend` | main.py:55 | scores add up over the query's words: a repeated query word counts again |
| `Search.Score` | main.py:50-55 | the score of a record: the query words occurring in its lower-cased `title + " " + plot`; `CountInZeroIff` and `CountInAppend` state its meaning |
| `Search.ScoreAll` | main.py:49-58 | every entry of `scored` is a dataset record with its own score, and that score is positive |
| `Search.ScoreAllComplete` | main.py:49-58 | every dataset record with a positive score appears in `scored` with that score |
| `Search.ScoreAllByScore` | main.py:49-58 | for each positive score `k`, the entries of `scored` with score `k` are exactly the records scoring `k`, in dataset order |
| `Search.NoWordsNoScored` | main.py:46-58 | a query without words leaves `scored` empty |
| `Search.Insert` | main.py:60 | inserting an entry adds exactly that entry to the multiset of entries |
| `Search.SortDesc` | main.py:60 | the sort is a permutation of its input (same multiset of entries) |
| `Search.SortDescSorted` | main.py:60 | after the sort, scores are non-increasing along the list |
| `Search.SortDescStable` | main.py:60 | the sort is stable: for every score, the entries with that score keep their input order |
| `Search.SearchMovies` | main.py:45-73 | the scoring loop, the sort and the projection loop over `scored[:10]` return exactly `SearchResult(rows, query)` |
| `Search.Ranked` | main.py:60-63 | `scored[:10]` after the sort; `RankedLength`, `RankedOrdered`, `RankedEntries`, `RankedTop` and `RankedStable` state what it holds |
| `Search.RankedLength` | main.py:60-63 | a search keeps `min(10, n)` entries, where `n` is the number of records scoring above zero |
| `Search.RankedOrdered` | main.py:60-63 | the returned entries are ordered by non-increasing score |
| `Search.RankedEntries` | main.py:49-63 | every returned entry is a dataset record with its own, positive, score |
| `Search.RankedTop` | main.py:60-63 | a matching record left out of the result means the result is full (ten entries) and every returned entry scores at least as high |
| `Search.RankedStable` | main.py:60-63 | the returned records with score `k` are the first records of the dataset that score `k`, in dataset order |
| `Search.BlankQueryFindsNothing` | main.py:46-58 | an empty or whitespace-only query returns an empty list |
| `Search.EmptyResultIff` | main.py:45-73 | the result is empty exactly when no record of the dataset scores above zero |
| `Search.PosterOf` | main.py:64-66 | the poster projection; `PosterOfSpec` states when the poster is kept |
| `Search.PosterOfSpec` | main.py:64-66 | the poster is passed through unchanged exactly when it is present and starts with "http"; otherwise it is null |
| `Search.SearchResultHits` | main.py:62-71 | at most ten hits; each is the title of a dataset record with a positive score, with that record's poster projected |
| `Search.SearchResult` | main.py:45-73 | the list `search_movies` returns; `SearchResultHits`, `EmptyResultIff` and `BlankQueryFindsNothing` state its meaning, and `SearchMovies` is proved to compute it |
| `Refiner.Prompt` | main.py:83-93 | the f-string prompt around the user text; `PromptEmbedsQuery` and `PromptInjective` state its meaning |
| `Refiner.PromptEmbedsQuery` | main.py:83-93 | the user text appears verbatim in the prompt, right after the fixed instruction head |
| `Refiner.PromptInjective` | main.py:83-93 | different user texts give different prompts |
| `Refiner.CleanReplyShape` | main.py:95 | the cleaned reply is a piece of the reply left after removing a prefix and a suffix made only of whitespace and quote characters; it neither begins nor ends with `'` |
| `Refiner.CleanReplyStripsAllQuotes` | main.py:95 | every surrounding double quote is removed, not only one layer: `""up""` becomes `up` |
| `Refiner.CleanReplyQuoteOrder` | main.py:95 | apostrophes are stripped after double quotes, so `'"up"'` becomes `"up"` |
| `Refiner.CleanReply` | main.py:95 | `strip().strip('"').strip("'")` of the reply; `CleanReplyShape` states what it removes and keeps |
| `Refiner.RefineQuery` | main.py:82-95 | `refine_query`: the model call on the prompt, then the clean-up of its reply |
| `Refiner.RefineQueryOutcome` | main.py:82-95 | `refine_query` fails exactly when the model call fails; otherwise it returns the cleaned reply, a piece of the reply left after removing a prefix and a suffix of whitespace and quote characters |
| `Api.MovieResult` | main.py:116-124 | a missing or falsy `movie_des` gives 400 "movie_des required" whatever the model would reply; a failing model call gives 500; otherwise the reply is the search over the cleaned model reply |

## Left out

- Reading and decompressing `movies.json.gz` and parsing its JSON (main.py:30-31) are file I/O and library parsing. The parsed array is the input of `LoadRows`.
- The language-model client, its configuration and `llm.invoke` (main.py:76-80, 94) are an external network call. They are the `llm` parameter.
- `time.sleep(4.5)` (main.py:123) has no functional effect and is not modelled.
- The FastAPI application, the CORS middleware, the static mount and `GET /` (main.py:98-112) are framework plumbing.
- The commented-out embedding code (main.py:15-27) is dead code.
- `static/script.js` is browser UI (DOM updates, timers, `fetch`). It is not part of this model.
- `Text.LowerChar`: Python's `str.lower()` lower-cases all of Unicode. The model lower-cases ASCII letters only.
- JSON values that are not strings are not modelled. This covers a numeric title, a null plot (on which the source raises a `TypeError` and answers 500), a non-string `movie_des`, and `str(poster)` of a non-string poster. Every field is a string or absent.
- Python's Timsort is not modelled step by step. `SortDesc` is a stable descending insertion sort on values, which returns what a stable sort returns, and it does not model sorting in place.
- Concurrency between requests is not modelled. The dataset is read-only after start-up, so requests do not interact.
