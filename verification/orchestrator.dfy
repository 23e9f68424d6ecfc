/** The sequential core of `run`: every dispatched task takes the next URL
    from the one shared generator and fetches it; the tasks then settle in
    some completion order, each decoding and placing its item; the first task
    error is kept; the store is rendered unconditionally at the end and `run`
    itself returns no error. */
module Orchestrator {
  import opened Wrappers
  import opened Todo
  import opened Fetcher
  import opened Store
  import Generator

  /** JSON decoding of a response body, supplied from outside the model. */
  type Decoder = seq<byte> -> Result<Item, string>

  /** The error a task returns to the worker group. */
  datatype TaskError = FetchFailed(fetchError: FetchError) | DecodeFailed(reason: string)

  /** What a run leaves behind: the items printed, in print order, and the
      first task error, which is logged and not returned. */
  datatype Report = Report(printed: seq<Item>, firstError: Option<TaskError>)

  /** What a task has once its fetch returned and its body is decoded. */
  function Outcome(fetched: Fetched, decode: Decoder): (r: Result<Item, TaskError>)
    ensures r.Success? <==> fetched.Success? && decode(fetched.value).Success?
    ensures r.Success? ==> r.value == decode(fetched.value).value
    ensures fetched.Failure? ==> r == Failure(FetchFailed(fetched.error))
    ensures fetched.Success? && decode(fetched.value).Failure? ==>
              r == Failure(DecodeFailed(decode(fetched.value).error))
  {
    match fetched
    case Failure(e) => Failure(FetchFailed(e))
    case Success(data) =>
      match decode(data)
      case Failure(e) => Failure(DecodeFailed(e))
      case Success(item) => Success(item)
  }

  /** The rest of a task once its fetch has returned: give up on a fetch or
      decode error, otherwise place the item in the store as it stands. */
  method Task(buf: Buffer, fetched: Fetched, decode: Decoder) returns (next: Buffer, err: Option<TaskError>)
    requires |buf| > 0
    ensures Outcome(fetched, decode).Failure? ==> next == buf && err == Some(Outcome(fetched, decode).error)
    ensures Outcome(fetched, decode).Success? ==> err == None && next == Placed(buf, Outcome(fetched, decode).value)
    ensures Outcome(fetched, decode).Success? && Outcome(fetched, decode).value.id <= 0 ==> next == buf && err == None
  {
    if fetched.Failure? {
      return buf, Some(FetchFailed(fetched.error));
    }
    var item := decode(fetched.value);
    if item.Failure? {
      return buf, Some(DecodeFailed(item.error));
    }
    next := Place(buf, item.value);
    err := None;
  }

  /** The items successfully fetched and decoded, in completion order. */
  function Decoded(trace: seq<Fetched>, decode: Decoder): (items: seq<Item>)
    ensures forall x :: x in items <==> exists k :: 0 <= k < |trace| && Outcome(trace[k], decode) == Success(x)
    decreases |trace|
  {
    if trace == [] then []
    else
      var last := trace[|trace| - 1];
      var earlier := Decoded(trace[..|trace| - 1], decode);
      match Outcome(last, decode)
      case Success(item) => earlier + [item]
      case Failure(_) => earlier
  }

  /** The error the worker group reports: that of the first task, in completion
      order, to fail. */
  function FirstError(trace: seq<Fetched>, decode: Decoder): (r: Option<TaskError>)
    ensures r.None? <==> forall k :: 0 <= k < |trace| ==> Outcome(trace[k], decode).Success?
    ensures r.Some? ==> exists k :: 0 <= k < |trace| && Outcome(trace[k], decode) == Failure(r.value)
                          && forall j :: 0 <= j < k ==> Outcome(trace[j], decode).Success?
    decreases |trace|
  {
    if trace == [] then None
    else
      var earlier := FirstError(trace[..|trace| - 1], decode);
      if earlier.Some? then earlier
      else
        match Outcome(trace[|trace| - 1], decode)
        case Failure(e) => Some(e)
        case Success(_) => None
  }

  /** What the final pass prints for a run whose tasks settled as `trace`. */
  function Printed(trace: seq<Fetched>, decode: Decoder): seq<Item> {
    Render(PlaceAll(NewStore(), Decoded(trace, decode)))
  }

  /** The second half of `run`, over the fetch results in the order the tasks
      settled: place every decoded item, keep the first error, then render the
      whole store. */
  method Settle(trace: seq<Fetched>, decode: Decoder) returns (report: Report)
    ensures report.printed == Printed(trace, decode)
    ensures report.firstError == FirstError(trace, decode)
    ensures StrictlyAscending(report.printed)
    ensures forall x :: x in report.printed ==> x.id > 0 && x in Decoded(trace, decode)
    ensures UniqueIds(Decoded(trace, decode)) ==>
              forall x :: x in report.printed <==> x.id > 0 && x in Decoded(trace, decode)
  {
    var buf := NewStore();
    var firstErr: Option<TaskError> := None;
    for k := 0 to |trace|
      invariant Valid(buf)
      invariant buf == PlaceAll(NewStore(), Decoded(trace[..k], decode))
      invariant firstErr == FirstError(trace[..k], decode)
    {
      assert trace[..k + 1][..k] == trace[..k];
      var next, err := Task(buf, trace[k], decode);
      if err.None? {
        var item := Outcome(trace[k], decode).value;
        PlacedKeepsValid(buf, item);
        PlaceAllSnoc(NewStore(), Decoded(trace[..k], decode), item);
      }
      if firstErr.None? {
        firstErr := err;
      }
      buf := next;
    }
    assert trace[..|trace|] == trace;
    RenderAscending(buf);
    RenderedWerePlaced(Decoded(trace, decode));
    if UniqueIds(Decoded(trace, decode)) {
      RenderAfterPlacements(Decoded(trace, decode));
    }
    report := Report(Render(buf), firstErr);
  }

  /** Completion order does not change what is printed: two traces holding the
      same fetch results, in any order, print the same items (ids being unique). */
  lemma PrintedOrderIrrelevant(t1: seq<Fetched>, t2: seq<Fetched>, decode: Decoder)
    requires forall f :: f in t1 <==> f in t2
    requires UniqueIds(Decoded(t1, decode))
    ensures Printed(t1, decode) == Printed(t2, decode)
  {
    var a := Decoded(t1, decode);
    var c := Decoded(t2, decode);
    forall x
      ensures x in a <==> x in c
    {
      if x in a {
        var k :| 0 <= k < |t1| && Outcome(t1[k], decode) == Success(x);
        assert t1[k] in t2;
      }
      if x in c {
        var k :| 0 <= k < |t2| && Outcome(t2[k], decode) == Success(x);
        assert t2[k] in t1;
      }
    }
    CompletionOrderIrrelevant(NewStore(), a, c);
  }

  /** `order[j]` is the dispatch position of the task that settled j-th; every
      one of the `n` dispatched tasks settles, since the group is waited for. */
  ghost predicate IsCompletionOrder(order: seq<nat>, n: nat) {
    && |order| == n
    && (forall j :: 0 <= j < n ==> order[j] < n)
    && (forall i :: 0 <= i < n ==> i in order)
  }

  /** The fetch results, in dispatch order, rearranged into completion order. */
  function Settled(fetched: seq<Fetched>, order: seq<nat>): (trace: seq<Fetched>)
    requires forall j :: 0 <= j < |order| ==> order[j] < |fetched|
    ensures |trace| == |order|
    ensures forall j :: 0 <= j < |order| ==> trace[j] == fetched[order[j]]
  {
    seq(|order|, j requires 0 <= j < |order| => fetched[order[j]])
  }

  /** The fetch results of `n` dispatched tasks, in completion order. */
  function RunTrace(g: Generator.Gen, net: string -> Exchange, n: nat, order: seq<nat>): seq<Fetched>
    requires IsCompletionOrder(order, n)
  {
    Settled(FetchMany(g, net, n).1, order)
  }

  /** `run` with `dispatched` tasks that settle in `order`: each task takes the
      next URL from the shared generator, in dispatch order, and fetches it;
      the results are then settled in completion order and the store rendered. */
  method Run(g: Generator.Gen, net: string -> Exchange, decode: Decoder, dispatched: nat, order: seq<nat>)
    returns (report: Report, next: Generator.Gen)
    requires IsCompletionOrder(order, dispatched)
    ensures next == Generator.Calls(g, dispatched).0
    ensures report.printed == Printed(RunTrace(g, net, dispatched, order), decode)
    ensures report.firstError == FirstError(RunTrace(g, net, dispatched, order), decode)
    ensures StrictlyAscending(report.printed)
    ensures forall x :: x in report.printed ==> x.id > 0 && x in Decoded(RunTrace(g, net, dispatched, order), decode)
    ensures UniqueIds(Decoded(RunTrace(g, net, dispatched, order), decode)) ==>
              forall x :: x in report.printed <==> x.id > 0 && x in Decoded(RunTrace(g, net, dispatched, order), decode)
  {
    var gen := g;
    var fetched: seq<Fetched> := [];
    for k := 0 to dispatched
      invariant gen == g.(counter := Generator.CounterAfter(g, k))
      invariant |fetched| == k
      invariant forall i :: 0 <= i < k ==>
                  fetched[i] == Classify(net(Generator.Url(g.endpoint, Generator.CounterAfter(g, i + 1))))
    {
      Generator.OneMoreStep(g.step, k);
      var r := Fetch(gen, net);
      gen := r.0;
      fetched := fetched + [r.1];
    }
    FetchManyClosedForm(g, net, dispatched);
    Generator.CallsFinalState(g, dispatched);
    assert fetched == FetchMany(g, net, dispatched).1;
    report := Settle(Settled(fetched, order), decode);
    next := gen;
  }

  /** With the `Even` generator `run` wires in, the task that settles j-th
      requested `endpoint/2(i+1)`, where i is its dispatch position. */
  lemma EvenRunTargets(endpoint: string, net: string -> Exchange, n: nat, order: seq<nat>, j: nat)
    requires IsCompletionOrder(order, n)
    requires j < n
    ensures RunTrace(Generator.Even(endpoint), net, n, order)[j]
            == Classify(net(Generator.Url(endpoint, 2 * (order[j] + 1))))
  {
    EvenFetchTargets(endpoint, net, n, order[j] + 1);
  }

  /** Two completion orders of the same dispatched tasks print the same items,
      when the decoded ids are unique. */
  lemma RunOrderIrrelevant(fetched: seq<Fetched>, decode: Decoder, o1: seq<nat>, o2: seq<nat>)
    requires IsCompletionOrder(o1, |fetched|) && IsCompletionOrder(o2, |fetched|)
    requires UniqueIds(Decoded(Settled(fetched, o1), decode))
    ensures Printed(Settled(fetched, o1), decode) == Printed(Settled(fetched, o2), decode)
  {
    var t1 := Settled(fetched, o1);
    var t2 := Settled(fetched, o2);
    forall f
      ensures f in t1 <==> f in t2
    {
      if f in t1 {
        var j :| 0 <= j < |t1| && t1[j] == f;
        assert o1[j] in o2;
        var k :| 0 <= k < |o2| && o2[k] == o1[j];
        assert t2[k] == f;
      }
      if f in t2 {
        var j :| 0 <= j < |t2| && t2[j] == f;
        assert o2[j] in o1;
        var k :| 0 <= k < |o1| && o1[k] == o2[j];
        assert t1[k] == f;
      }
    }
    PrintedOrderIrrelevant(t1, t2, decode);
  }
}
