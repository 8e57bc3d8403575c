/** `POST /movie-result`: validate the payload, refine the description
    through the language model, and search the dataset with the refined text. */
module Api {
  import opened Wrappers
  import opened Dataset
  import opened Search
  import opened Refiner

  /** The outcomes of a request: the JSON array of hits (200), the client
      error with its detail (400), or an uncaught failure (500). */
  datatype Response = Ok(hits: seq<Hit>) | BadRequest(detail: string) | ServerError

  const MovieDesRequired := "movie_des required"

  /** `payload.get("movie_des")` is truthy; `None` is a missing or null field. */
  predicate Truthy(movieDes: Option<string>) {
    movieDes.Some? && movieDes.value != ""
  }

  /** `movie_result`: a falsy description is refused before the model or the
      search is reached; a failing model call ends the request with a server
      error; otherwise the response is the search over the refined text. */
  method MovieResult(rows: seq<Movie>, movieDes: Option<string>, llm: string -> Option<string>)
    returns (resp: Response)
    ensures !Truthy(movieDes) ==> resp == BadRequest(MovieDesRequired)
    ensures Truthy(movieDes) && RefineQuery(movieDes.value, llm).None? ==> resp == ServerError
    ensures Truthy(movieDes) && RefineQuery(movieDes.value, llm).Some? ==>
      resp == Ok(SearchResult(rows, RefineQuery(movieDes.value, llm).value))
  {
    if !Truthy(movieDes) {
      return BadRequest(MovieDesRequired);
    }
    var refined := RefineQuery(movieDes.value, llm);
    if refined.None? {
      return ServerError;
    }
    var hits := SearchMovies(rows, refined.value);
    return Ok(hits);
  }
}
