/** `search_movies`: keyword scoring over the whole dataset, a stable sort by
    descending score, the first ten, and the projection to title and poster. */
module Search {
  import opened Wrappers
  import opened Text
  import opened Dataset

  /** How many results a search returns at most (`scored[:10]`). */
  const MaxResults: nat := 10

  /** One entry of the response: the title and the poster, if it is a URL. */
  datatype Hit = Hit(title: string, poster: Option<string>)

  /** One `(score, doc)` pair of the list `scored`. */
  datatype Scored = Scored(score: nat, movie: Movie)

  // -------------------------------------------------------------- scoring

  /** `query.lower().split()`. */
  function QueryWords(query: string): seq<string> {
    Split(Lower(query))
  }

  /** `(title + " " + plot).lower()`, the text that query words are looked up in. */
  function SearchText(m: Movie): string {
    Lower(m.title + " " + m.plot)
  }

  /** `sum(1 for w in words if w in text)`: the query words that occur in
      `text`, each occurrence in the query counted again. */
  function CountIn(words: seq<string>, text: string): (n: nat)
    ensures n <= |words|
  {
    if words == [] then 0
    else (if Contains(text, words[0]) then 1 else 0) + CountIn(words[1..], text)
  }

  /** The count is zero exactly when no query word occurs in the text. */
  lemma {:induction false} CountInZeroIff(words: seq<string>, text: string)
    ensures CountIn(words, text) == 0 <==> forall k :: 0 <= k < |words| ==> !Contains(text, words[k])
  {
    if words != [] {
      CountInZeroIff(words[1..], text);
      assert forall k :: 1 <= k < |words| ==> words[k] == words[1..][k - 1];
    }
  }

  /** The count adds up over the query's words, so repeated words count again. */
  lemma {:induction false} CountInAppend(a: seq<string>, b: seq<string>, text: string)
    ensures CountIn(a + b, text) == CountIn(a, text) + CountIn(b, text)
  {
    if a == [] {
      assert a + b == b;
    } else {
      assert (a + b)[1..] == a[1..] + b;
      CountInAppend(a[1..], b, text);
    }
  }

  /** A record's score: how many of the query words occur in its text. */
  function Score(words: seq<string>, m: Movie): nat {
    CountIn(words, SearchText(m))
  }

  /** The list `scored` after the first loop: every record with a positive
      score, with its score, in dataset order. */
  function ScoreAll(rows: seq<Movie>, words: seq<string>): (r: seq<Scored>)
    ensures |r| <= |rows|
    ensures forall k :: 0 <= k < |r| ==>
      r[k].score > 0 && r[k].score == Score(words, r[k].movie) && r[k].movie in rows
  {
    if rows == [] then []
    else
      var m := rows[|rows| - 1];
      var s := Score(words, m);
      ScoreAll(rows[..|rows| - 1], words) + (if s > 0 then [Scored(s, m)] else [])
  }

  /** Every record with a positive score is in `scored`, with that score. */
  lemma {:induction false} ScoreAllComplete(rows: seq<Movie>, words: seq<string>, m: Movie)
    requires m in rows && Score(words, m) > 0
    ensures Scored(Score(words, m), m) in ScoreAll(rows, words)
  {
    if rows[|rows| - 1] != m {
      assert m in rows[..|rows| - 1];
      ScoreAllComplete(rows[..|rows| - 1], words, m);
    }
  }

  /** A query without words gives every record the score zero. */
  lemma {:induction false} NoWordsNoScored(rows: seq<Movie>, words: seq<string>)
    requires words == []
    ensures ScoreAll(rows, words) == []
  {
    if rows != [] {
      NoWordsNoScored(rows[..|rows| - 1], words);
    }
  }

  // ---------------------------------------------------- the stable sort

  /** `scored.sort(reverse=True, key=lambda x: x[0])` is Python's stable
      sort; it is modelled by insertion: `x` goes in front of the first entry
      that does not score higher than it. */
  function Insert(x: Scored, s: seq<Scored>): (r: seq<Scored>)
    ensures multiset(r) == multiset(s) + multiset{x}
  {
    if s == [] || s[0].score <= x.score then [x] + s
    else
      assert s == [s[0]] + s[1..];
      [s[0]] + Insert(x, s[1..])
  }

  function SortDesc(s: seq<Scored>): (r: seq<Scored>)
    ensures multiset(r) == multiset(s)
  {
    if s == [] then []
    else
      assert s == [s[0]] + s[1..];
      Insert(s[0], SortDesc(s[1..]))
  }

  /** Scores do not increase along the list. */
  predicate NonIncreasing(s: seq<Scored>) {
    forall i, j :: 0 <= i < j < |s| ==> s[j].score <= s[i].score
  }

  /** The entries of `s` whose score is `k`, in their order in `s`. */
  function WithScore(s: seq<Scored>, k: nat): seq<Scored> {
    if s == [] then []
    else (if s[0].score == k then [s[0]] else []) + WithScore(s[1..], k)
  }

  lemma {:induction false} InsertSorted(x: Scored, s: seq<Scored>)
    requires NonIncreasing(s)
    ensures NonIncreasing(Insert(x, s))
  {
    if s != [] && s[0].score > x.score {
      InsertSorted(x, s[1..]);
      var r := Insert(x, s[1..]);
      forall j | 0 <= j < |r| ensures r[j].score <= s[0].score {
        assert r[j] in multiset(r);
        assert r[j] == x || r[j] in multiset(s[1..]);
        if r[j] != x {
          var t :| 0 <= t < |s[1..]| && s[1..][t] == r[j];
          assert s[1..][t] == s[t + 1];
        }
      }
    }
  }

  /** The sort leaves the list ordered by non-increasing score. */
  lemma {:induction false} SortDescSorted(s: seq<Scored>)
    ensures NonIncreasing(SortDesc(s))
  {
    if s != [] {
      SortDescSorted(s[1..]);
      InsertSorted(s[0], SortDesc(s[1..]));
    }
  }

  lemma {:induction false} InsertWithScore(x: Scored, s: seq<Scored>, k: nat)
    ensures WithScore(Insert(x, s), k) == (if x.score == k then [x] else []) + WithScore(s, k)
  {
    if s == [] || s[0].score <= x.score {
      assert ([x] + s)[1..] == s;
    } else {
      assert ([s[0]] + Insert(x, s[1..]))[1..] == Insert(x, s[1..]);
      InsertWithScore(x, s[1..], k);
    }
  }

  /** The sort is stable: for every score, the entries with that score come
      out in the order they went in. */
  lemma {:induction false} SortDescStable(s: seq<Scored>, k: nat)
    ensures WithScore(SortDesc(s), k) == WithScore(s, k)
  {
    if s != [] {
      SortDescStable(s[1..], k);
      InsertWithScore(s[0], SortDesc(s[1..]), k);
    }
  }

  lemma {:induction false} WithScoreAppend(a: seq<Scored>, b: seq<Scored>, k: nat)
    ensures WithScore(a + b, k) == WithScore(a, k) + WithScore(b, k)
  {
    if a == [] {
      assert a + b == b;
    } else {
      var head := if a[0].score == k then [a[0]] else [];
      assert (a + b)[0] == a[0];
      assert (a + b)[1..] == a[1..] + b;
      WithScoreAppend(a[1..], b, k);
      calc {
        WithScore(a + b, k);
        head + WithScore(a[1..] + b, k);
        head + (WithScore(a[1..], k) + WithScore(b, k));
        (head + WithScore(a[1..], k)) + WithScore(b, k);
      }
    }
  }

  // ------------------------------------------------ top ten and projection

  function Min(a: nat, b: nat): nat {
    if a <= b then a else b
  }

  /** The entries `scored[:10]` after the sort. */
  function Ranked(rows: seq<Movie>, words: seq<string>): seq<Scored> {
    var sorted := SortDesc(ScoreAll(rows, words));
    sorted[..Min(MaxResults, |sorted|)]
  }

  /** `poster` survives only when it is truthy and starts with "http". */
  function PosterOf(poster: Option<string>): Option<string> {
    if poster.Some? && poster.value != "" && StartsWith(poster.value, "http") then poster else None
  }

  function ToHit(m: Movie): Hit {
    Hit(m.title, PosterOf(m.poster))
  }

  /** What `search_movies(query)` returns over the dataset `rows`. */
  function SearchResult(rows: seq<Movie>, query: string): seq<Hit> {
    var ranked := Ranked(rows, QueryWords(query));
    seq(|ranked|, i requires 0 <= i < |ranked| => ToHit(ranked[i].movie))
  }

  /** `search_movies`: the scoring loop, the sort, and the loop over the
      first ten entries. */
  method SearchMovies(rows: seq<Movie>, query: string) returns (result: seq<Hit>)
    ensures result == SearchResult(rows, query)
  {
    var words := QueryWords(query);
    var scored: seq<Scored> := [];
    for i := 0 to |rows|
      invariant scored == ScoreAll(rows[..i], words)
    {
      assert rows[..i + 1][..i] == rows[..i];
      var score := CountIn(words, SearchText(rows[i]));
      if score > 0 {
        scored := scored + [Scored(score, rows[i])];
      }
    }
    assert rows[..|rows|] == rows;
    scored := SortDesc(scored);
    var top := scored[..Min(MaxResults, |scored|)];
    result := [];
    for i := 0 to |top|
      invariant |result| == i
      invariant forall k :: 0 <= k < i ==> result[k] == ToHit(top[k].movie)
    {
      var d := top[i].movie;
      var poster := d.poster;
      if !(poster.Some? && poster.value != "") || !StartsWith(poster.value, "http") {
        poster := None;
      }
      result := result + [Hit(d.title, poster)];
    }
  }

  // -------------------------------------------- what a search guarantees

  /** The records of `rows` whose score is `k`, in dataset order. */
  function RowsScoring(rows: seq<Movie>, words: seq<string>, k: nat): seq<Movie> {
    if rows == [] then []
    else
      var m := rows[|rows| - 1];
      RowsScoring(rows[..|rows| - 1], words, k) + (if Score(words, m) == k then [m] else [])
  }

  function MoviesOf(s: seq<Scored>): seq<Movie> {
    if s == [] then [] else [s[0].movie] + MoviesOf(s[1..])
  }

  lemma {:induction false} MoviesOfAppend(a: seq<Scored>, b: seq<Scored>)
    ensures MoviesOf(a + b) == MoviesOf(a) + MoviesOf(b)
  {
    if a == [] {
      assert a + b == b;
    } else {
      assert (a + b)[1..] == a[1..] + b;
      MoviesOfAppend(a[1..], b);
    }
  }

  /** For a positive score `k`, the entries of `scored` with score `k` are
      exactly the records scoring `k`, in dataset order. */
  lemma {:induction false} ScoreAllByScore(rows: seq<Movie>, words: seq<string>, k: nat)
    requires k > 0
    ensures MoviesOf(WithScore(ScoreAll(rows, words), k)) == RowsScoring(rows, words, k)
  {
    if rows != [] {
      var init := rows[..|rows| - 1];
      var m := rows[|rows| - 1];
      var s := Score(words, m);
      var tail := if s > 0 then [Scored(s, m)] else [];
      ScoreAllByScore(init, words, k);
      WithScoreAppend(ScoreAll(init, words), tail, k);
      var wt := WithScore(tail, k);
      assert wt == if s == k then [Scored(s, m)] else [];
      MoviesOfAppend(WithScore(ScoreAll(init, words), k), wt);
      assert MoviesOf(wt) == if s == k then [m] else [];
    }
  }

  /** A search returns `min(10, n)` entries, where `n` is the number of
      records that score above zero. */
  lemma RankedLength(rows: seq<Movie>, words: seq<string>)
    ensures |Ranked(rows, words)| == Min(MaxResults, |ScoreAll(rows, words)|)
    ensures |Ranked(rows, words)| <= MaxResults
  {
    var scored := ScoreAll(rows, words);
    assert |multiset(SortDesc(scored))| == |multiset(scored)|;
  }

  /** The returned entries are ordered by non-increasing score. */
  lemma RankedOrdered(rows: seq<Movie>, words: seq<string>)
    ensures NonIncreasing(Ranked(rows, words))
  {
    SortDescSorted(ScoreAll(rows, words));
  }

  /** Every returned entry is a record of the dataset, with its own score,
      and that score is positive. */
  lemma RankedEntries(rows: seq<Movie>, words: seq<string>)
    ensures forall i :: 0 <= i < |Ranked(rows, words)| ==>
      var e := Ranked(rows, words)[i];
      e.score > 0 && e.score == Score(words, e.movie) && e.movie in rows
  {
    var scored := ScoreAll(rows, words);
    var sorted := SortDesc(scored);
    forall i | 0 <= i < |Ranked(rows, words)|
      ensures var e := Ranked(rows, words)[i];
        e.score > 0 && e.score == Score(words, e.movie) && e.movie in rows
    {
      var e := sorted[i];
      assert e in multiset(sorted);
      assert e in multiset(scored);
      var t :| 0 <= t < |scored| && scored[t] == e;
    }
  }

  /** In a list sorted by non-increasing score, an entry missing from the
      first `n` lies further on and scores no higher than any of them. */
  lemma {:induction false} BeyondPrefix(sorted: seq<Scored>, n: nat, x: Scored)
    requires NonIncreasing(sorted) && n <= |sorted|
    requires x in sorted && x !in sorted[..n]
    ensures n < |sorted|
    ensures forall i :: 0 <= i < n ==> sorted[i].score >= x.score
  {
    var j :| 0 <= j < |sorted| && sorted[j] == x;
    assert forall i :: 0 <= i < n ==> sorted[..n][i] == sorted[i];
    assert n <= j;
  }

  /** No record the search leaves out scores higher than one it returns: a
      matching record that is missing from the result means the result is
      full and scores at least as high everywhere. */
  lemma RankedTop(rows: seq<Movie>, words: seq<string>, m: Movie)
    requires m in rows && Score(words, m) > 0
    requires Scored(Score(words, m), m) !in Ranked(rows, words)
    ensures |Ranked(rows, words)| == MaxResults
    ensures forall i :: 0 <= i < |Ranked(rows, words)| ==> Ranked(rows, words)[i].score >= Score(words, m)
  {
    var x := Scored(Score(words, m), m);
    var scored := ScoreAll(rows, words);
    var sorted := SortDesc(scored);
    ScoreAllComplete(rows, words, m);
    assert x in multiset(scored);
    assert x in sorted by { assert x in multiset(sorted); }
    SortDescSorted(scored);
    BeyondPrefix(sorted, Min(MaxResults, |sorted|), x);
  }

  /** Ties keep dataset order: the returned records with score `k` are the
      first records of the dataset that score `k`, in dataset order. */
  lemma RankedStable(rows: seq<Movie>, words: seq<string>, k: nat)
    requires k > 0
    ensures IsPrefix(MoviesOf(WithScore(Ranked(rows, words), k)), RowsScoring(rows, words, k))
  {
    var scored := ScoreAll(rows, words);
    var sorted := SortDesc(scored);
    var ranked := Ranked(rows, words);
    var rest := sorted[|ranked|..];
    assert sorted == ranked + rest;
    WithScoreAppend(ranked, rest, k);
    var a := MoviesOf(WithScore(ranked, k));
    var b := MoviesOf(WithScore(rest, k));
    MoviesOfAppend(WithScore(ranked, k), WithScore(rest, k));
    assert MoviesOf(WithScore(sorted, k)) == a + b;
    SortDescStable(scored, k);
    ScoreAllByScore(rows, words, k);
    assert RowsScoring(rows, words, k) == a + b;
    assert (a + b)[..|a|] == a;
  }

  lemma {:induction false} NothingScoresNoScored(rows: seq<Movie>, words: seq<string>)
    requires forall k :: 0 <= k < |rows| ==> Score(words, rows[k]) == 0
    ensures ScoreAll(rows, words) == []
  {
    if rows != [] {
      NothingScoresNoScored(rows[..|rows| - 1], words);
    }
  }

  /** A query with no words (empty or only whitespace) finds nothing. */
  lemma BlankQueryFindsNothing(rows: seq<Movie>, query: string)
    requires AllSpace(query)
    ensures SearchResult(rows, query) == []
  {
    LowerKeepsSpaces(query);
    SplitWords(Lower(query));
    NoWordsNoScored(rows, QueryWords(query));
  }

  /** The search finds nothing exactly when no record scores above zero. */
  lemma EmptyResultIff(rows: seq<Movie>, query: string)
    ensures SearchResult(rows, query) == [] <==>
      forall k :: 0 <= k < |rows| ==> Score(QueryWords(query), rows[k]) == 0
  {
    var words := QueryWords(query);
    RankedLength(rows, words);
    if exists k :: 0 <= k < |rows| && Score(words, rows[k]) > 0 {
      var k :| 0 <= k < |rows| && Score(words, rows[k]) > 0;
      ScoreAllComplete(rows, words, rows[k]);
    } else {
      NothingScoresNoScored(rows, words);
    }
  }

  /** The poster is passed on exactly when it is a string starting with
      "http"; otherwise the result has no poster. */
  lemma PosterOfSpec(poster: Option<string>)
    ensures PosterOf(poster) == poster <==> (poster.Some? ==> StartsWith(poster.value, "http"))
    ensures PosterOf(poster) == None || (PosterOf(poster) == poster && StartsWith(poster.value, "http"))
  {
  }

  /** Each returned hit carries the title of a matching record and that
      record's poster when it is an http URL, and nothing else. */
  lemma SearchResultHits(rows: seq<Movie>, query: string)
    ensures |SearchResult(rows, query)| <= MaxResults
    ensures forall i :: 0 <= i < |SearchResult(rows, query)| ==>
      (exists m :: m in rows && Score(QueryWords(query), m) > 0
        && SearchResult(rows, query)[i] == Hit(m.title, PosterOf(m.poster)))
  {
    var words := QueryWords(query);
    RankedLength(rows, words);
    RankedEntries(rows, words);
    var ranked := Ranked(rows, words);
    forall i | 0 <= i < |SearchResult(rows, query)|
      ensures exists m :: (m in rows && Score(words, m) > 0
        && SearchResult(rows, query)[i] == Hit(m.title, PosterOf(m.poster)))
    {
      var m := ranked[i].movie;
      assert SearchResult(rows, query)[i] == Hit(m.title, PosterOf(m.poster));
    }
  }
}
