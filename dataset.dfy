/** The movie records and the start-up filter that builds the in-memory
    dataset from the parsed JSON array. */
module Dataset {
  import opened Wrappers

  /** One parsed JSON object of the dataset. A missing, null or empty title
      is the empty string (all three are falsy); a missing plot is the empty
      string, the default `doc.get("plot", "")` supplies; `None` is a missing
      or null poster. */
  datatype Movie = Movie(title: string, plot: string, poster: Option<string>)

  /** `d.get("title")` is truthy. */
  predicate HasTitle(m: Movie) {
    m.title != ""
  }

  /** The records that survive the filter, in dataset order. */
  function Titled(data: seq<Movie>): (r: seq<Movie>)
    ensures |r| <= |data|
    ensures forall k :: 0 <= k < |r| ==> HasTitle(r[k]) && r[k] in data
  {
    if data == [] then []
    else
      var last := data[|data| - 1];
      var init := Titled(data[..|data| - 1]);
      if HasTitle(last) then init + [last] else init
  }

  /** The filter distributes over concatenation: it keeps the dataset order
      and looks at each record on its own. */
  lemma {:induction false} TitledAppend(a: seq<Movie>, b: seq<Movie>)
    ensures Titled(a + b) == Titled(a) + Titled(b)
    decreases |b|
  {
    if b == [] {
      assert a + b == a;
    } else {
      var b' := b[..|b| - 1];
      assert (a + b)[..|a + b| - 1] == a + b';
      TitledAppend(a, b');
    }
  }

  /** Each titled record is kept as often as it occurs, each untitled one is dropped. */
  lemma {:induction false} TitledCount(data: seq<Movie>, m: Movie)
    ensures multiset(Titled(data))[m] == if HasTitle(m) then multiset(data)[m] else 0
  {
    if data != [] {
      var init := data[..|data| - 1];
      assert data == init + [data[|data| - 1]];
      TitledCount(init, m);
    }
  }

  /** The filter is empty exactly when no record has a title. */
  lemma TitledEmptyIff(data: seq<Movie>)
    ensures Titled(data) == [] <==> forall k :: 0 <= k < |data| ==> !HasTitle(data[k])
  {
    if Titled(data) == [] {
      forall k | 0 <= k < |data| ensures !HasTitle(data[k]) {
        TitledCount(data, data[k]);
      }
    } else {
      assert HasTitle(Titled(data)[0]);
    }
  }

  const NoMovieData := "No movie data found"

  /** The start-up loop: append every record with a title to `rows`, then
      refuse to start when nothing was kept. */
  method LoadRows(data: seq<Movie>) returns (r: Result<seq<Movie>, string>)
    ensures Titled(data) == [] ==> r == Failure(NoMovieData)
    ensures Titled(data) != [] ==> r == Success(Titled(data))
  {
    var rows: seq<Movie> := [];
    for i := 0 to |data|
      invariant rows == Titled(data[..i])
    {
      assert data[..i + 1][..i] == data[..i];
      if HasTitle(data[i]) {
        rows := rows + [data[i]];
      }
    }
    assert data[..|data|] == data;
    if rows == [] {
      return Failure(NoMovieData);
    }
    return Success(rows);
  }
}
