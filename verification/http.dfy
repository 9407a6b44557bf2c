/** What a `fetch` gives the page: a rejected promise, or a response whose
    status and JSON body the code inspects, with the time it took. */
module Http {
  import opened Recordings

  /** What `response.json()` makes of a body: an array of recording items,
      or a rejection (the body is not JSON). JSON values other than an
      array (`null`, an object, a number) are not represented. */
  datatype Body = Items(items: seq<Recording>) | Unparseable

  datatype Response = Response(status: int, body: Body)

  /** One request: it fails at the network level (unreachable host, CORS),
      or a response arrives after `elapsed` milliseconds as
      `performance.now()` measures them. */
  datatype Outcome = NetworkError | Responded(response: Response, elapsed: real)

  /** `response.ok`. */
  predicate IsOk(status: int) {
    200 <= status <= 299
  }

  /** A null body status of the Fetch standard: such a response has no
      body stream (`response.body` is null). */
  predicate NullBodyStatus(status: int) {
    status == 101 || status == 103 || status == 204 || status == 205 || status == 304
  }

  /** `Math.round`: the nearest integer, halves rounded up. */
  function JsRound(x: real): (r: int)
    ensures x - 0.5 < r as real <= x + 0.5
  {
    (x + 0.5).Floor
  }
}
