/** The fetch closure built by `ToDoFetcher`: one GET per call, against the
    next URL of its generator, with the response classified by status. */
module Fetcher {
  import opened Wrappers
  import opened Todo
  import Generator

  /** The HTTP success status. */
  const StatusOK: int := 200

  /** An error value produced by code outside this model (request building,
      the HTTP client, reading the body), carried as its message. */
  type ForeignError = string

  /** What the HTTP machinery did with one request. */
  datatype Exchange =
    | RequestRejected(err: ForeignError)   // building the request failed
    | NoResponse(err: ForeignError)        // the client failed: connection, timeout, cancelled context
    | Answered(status: int, body: seq<byte>, readErr: Option<ForeignError>)  // a response; reading its body may fail

  /** The errors a fetch returns: the sentinel for a non-200 status, or a
      foreign error passed through unchanged. */
  datatype FetchError = Non200Response | Foreign(err: ForeignError)

  /** What one fetch returns: the body bytes, or an error. */
  type Fetched = Result<seq<byte>, FetchError>

  /** The status check and body read of one fetch. */
  function Classify(ex: Exchange): (r: Fetched)
    ensures r.Success? <==> ex.Answered? && ex.status == StatusOK && ex.readErr.None?
    ensures r.Success? ==> r.value == ex.body
    ensures r == Failure(Non200Response) <==> ex.Answered? && ex.status != StatusOK
    ensures !ex.Answered? ==> r == Failure(Foreign(ex.err))
    ensures ex.Answered? && ex.status == StatusOK && ex.readErr.Some? ==> r == Failure(Foreign(ex.readErr.value))
  {
    match ex
    case RequestRejected(e) => Failure(Foreign(e))
    case NoResponse(e) => Failure(Foreign(e))
    case Answered(status, body, readErr) =>
      if status != StatusOK then Failure(Non200Response)
      else if readErr.Some? then Failure(Foreign(readErr.value))
      else Success(body)
  }

  /** One call of the fetch closure: take the next URL from the generator,
      let `net` answer it, classify the answer. */
  function Fetch(g: Generator.Gen, net: string -> Exchange): (r: (Generator.Gen, Fetched))
    ensures r.0 == Generator.Next(g).0
    ensures r.1.Success? <==> net(Generator.Next(g).1).Answered? && net(Generator.Next(g).1).status == StatusOK
                                && net(Generator.Next(g).1).readErr.None?
  {
    var (g', url) := Generator.Next(g);
    (g', Classify(net(url)))
  }

  /** `n` fetches in a row, in call order. */
  function FetchMany(g: Generator.Gen, net: string -> Exchange, n: nat): (r: (Generator.Gen, seq<Fetched>))
    ensures |r.1| == n
    decreases n
  {
    if n == 0 then (g, [])
    else
      var (g1, first) := Fetch(g, net);
      var (g2, rest) := FetchMany(g1, net, n - 1);
      (g2, [first] + rest)
  }

  /** Every fetch consumes exactly one URL, failing or not: the k-th of `n`
      fetches asks for the k-th URL the generator would have produced. */
  lemma {:induction false} FetchManyUsesCalls(g: Generator.Gen, net: string -> Exchange, n: nat)
    ensures FetchMany(g, net, n).0 == Generator.Calls(g, n).0
    ensures forall k :: 0 <= k < n ==> FetchMany(g, net, n).1[k] == Classify(net(Generator.Calls(g, n).1[k]))
    decreases n
  {
    if n > 0 {
      var g1 := Generator.Next(g).0;
      FetchManyUsesCalls(g1, net, n - 1);
      forall k | 0 <= k < n
        ensures FetchMany(g, net, n).1[k] == Classify(net(Generator.Calls(g, n).1[k]))
      {
        if k > 0 {
          assert FetchMany(g, net, n).1[k] == FetchMany(g1, net, n - 1).1[k - 1];
          assert Generator.Calls(g, n).1[k] == Generator.Calls(g1, n - 1).1[k - 1];
        }
      }
    }
  }

  /** Fetching through `Even(endpoint)`: the k-th fetch (from one) requests `endpoint/2k`. */
  lemma EvenFetchTargets(endpoint: string, net: string -> Exchange, n: nat, k: nat)
    requires 1 <= k <= n
    ensures FetchMany(Generator.Even(endpoint), net, n).1[k - 1] == Classify(net(Generator.Url(endpoint, 2 * k)))
  {
    FetchManyUsesCalls(Generator.Even(endpoint), net, n);
    Generator.EvenKthCall(endpoint, n, k);
  }

  /** `n` fetches in a row, stated in closed form: the k-th (from zero) classifies
      the answer for the counter advanced k+1 steps, and the generator ends
      advanced n steps. */
  lemma FetchManyClosedForm(g: Generator.Gen, net: string -> Exchange, n: nat)
    ensures FetchMany(g, net, n).0 == g.(counter := Generator.CounterAfter(g, n))
    ensures forall k :: 0 <= k < n ==>
              FetchMany(g, net, n).1[k] == Classify(net(Generator.Url(g.endpoint, Generator.CounterAfter(g, k + 1))))
  {
    FetchManyUsesCalls(g, net, n);
    Generator.CallsFinalState(g, n);
    Generator.CallsClosedForm(g, n);
  }
}
