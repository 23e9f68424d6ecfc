# To-do fetcher core, modelled in Dafny

The program fetches numbered to-do records from a JSON API, concurrently,
and prints them in id order. Three sequential pieces sit inside its
concurrent plumbing, and this project models and proves them:

- **URL generators** (`Even`, `Threes`): closures over a counter. The k-th call
  returns `endpoint/<step·k>`. They are modelled as an immutable state `Gen`
  with a `Next` step. The id is rendered in decimal by a small `Decimal` module,
  with a proved parse/format round trip.
- **The fetch closure** (`ToDoFetcher`). Each call takes one URL from its
  generator and classifies the HTTP exchange. Status 200 yields the body bytes.
  Any other status yields the sentinel `ErrNon200Response`. Errors from
  building the request, from the client, and from reading the body are passed
  through unchanged.
- **The positional result store** that `run` keeps inline. It has:
  - 64 nil slots at the start;
  - a rule that discards ids `<= 0`;
  - a doubling loop (allocate, copy) that runs until the id fits;
  - a write at `buf[item.ID]`;
  - a final pass that prints the non-empty slots in index order.

`run` is modelled sequentially, in two phases:
1. Each of the dispatched tasks takes the next URL from the one shared
   generator, in dispatch order, and fetches it. `run` wires in `Even`.
2. The tasks then settle in a completion order given as a parameter. Each
   decodes its body with a decoder supplied as a parameter and places the item.

The first task error is kept. The store is always rendered at the end. `run`
itself always returns nil. The model reports the first error only as a logged
value (`Report.firstError`).

Modules: `Wrappers` (Option/Result), `Todo` (Item, byte), `Decimal`,
`Generator`, `Fetcher`, `Store`, `Orchestrator`.

## Model

| member | source | states |
|---|---|---|
| Generator.Next | main.go:67-73 | one call of a generator advances its counter by the step and returns `endpoint/<counter>`; endpoint and step are kept |
| Generator.CallsClosedForm | main.go:67-87 | the k-th of n successive calls (from zero) returns the URL of the counter advanced k+1 steps |
| Generator.CallsFinalState | main.go:68-70 | after n calls the captured counter has advanced exactly n steps |
| Generator.EvenKthCall | main.go:67-73 | the k-th call (from one) of `Even(endpoint)` returns `endpoint/2k` |
| Generator.ThreesKthCall | main.go:81-87 | the k-th call (from one) of `Threes(endpoint)` returns `endpoint/3k`, so every id is a multiple of 3 |
| Generator.UrlInjective | main.go:71 | two URLs over one endpoint are equal if and only if their ids are equal |
| Generator.CallsNeverRepeat | main.go:67-87 | a generator with a positive step never returns the same URL twice |
| Decimal.ParseFormat | main.go:71 | reading the decimal rendering of an id back gives the id |
| Decimal.FormatInjective | main.go:71 | distinct ids have distinct decimal renderings, and equal ids equal ones |
| Fetcher.Classify | main.go:36-56 | the fetch succeeds if and only if the response is status 200 and its body read completes, and then yields the body; a non-200 status yields `ErrNon200Response` (and only it does); every other failure is returned unchanged |
| Fetcher.Fetch | main.go:30-41 | one fetch consumes exactly one URL from the generator, whatever its outcome, and succeeds exactly when the answer for that URL is a complete 200 response |
| Fetcher.FetchManyUsesCalls | main.go:30-41 | the k-th of n fetches requests the k-th URL the generator would yield, and leaves the generator where n calls would |
| Fetcher.EvenFetchTargets | main.go:134-139 | with the `Even` generator `run` wires in, the k-th fetch requests `endpoint/2k` |
| Store.Fit | main.go:179-183 | the capacity the grow loop reaches exceeds the id, is at least the old length, and is either the old length or at most twice the id (the loop stops at the first doubling that fits) |
| Store.FitIsDoubling | main.go:179-183 | the grown length is the old length doubled some number of times |
| Store.FitOfFit | main.go:179-183 | growing for one id and then another ends at the same length as growing once for the larger id |
| Store.Place | main.go:171-185 | an item with id <= 0 leaves the buffer unchanged; otherwise the new length exceeds the id and is the old length doubled, slot id holds the item, every other old slot is unchanged and every new slot is empty; the loop agrees with the slot-by-slot definition `Placed` |
| Store.PlacedOverwrites | main.go:185 | a later item with the same id overwrites the earlier one |
| Store.NewStore | main.go:144 | the store starts with 64 empty slots and satisfies the store invariant |
| Store.PlacedKeepsValid | main.go:171-185 | placement keeps the invariant: the length is 64 doubled j times, and every occupied slot holds the item whose id is its index |
| Store.PlaceAllKeepsValid | main.go:171-185 | any sequence of placements keeps the store invariant |
| Store.PlaceAllClosedForm | main.go:171-185 | after a sequence of placements the length is what growth for the largest id reaches, and each slot holds the last item placed there, or its former content |
| Store.CompletionOrderIrrelevant | main.go:156-187 | with unique ids, any two completion orders of the same items leave the same store |
| Store.Render | main.go:195-199 | an item is printed if and only if it occupies some slot |
| Store.RenderFrom | main.go:195-199 | the items printed from slot lo onward are exactly those occupying slots lo and above |
| Store.RenderAscending | main.go:195-199 | a well-placed store prints in strictly ascending id order, with no sort step |
| Store.RenderIsSortedListing | main.go:195-199 | any strictly ascending list of exactly the occupied slots' items equals what render prints |
| Store.RenderAfterPlacements | main.go:171-199 | after placements into a new store, with unique ids, the printed items are exactly the placed items with a positive id |
| Fetcher.FetchManyClosedForm | main.go:30-41 | the k-th of n fetches (from zero) classifies the answer for the counter advanced k+1 steps, and the generator ends advanced n steps |
| Orchestrator.Outcome | main.go:157-165 | a task yields an item if and only if its fetch returned bytes and they decode; a fetch error and a decode error are each returned unchanged |
| Orchestrator.Task | main.go:158-186 | once its fetch has returned, a failing task leaves the store unchanged and returns its error; a succeeding one places its item and returns nil, and an item with id <= 0 is discarded without error |
| Orchestrator.Decoded | main.go:156-165 | the decoded items are exactly the outcomes of the tasks that succeeded, whatever failed before or after them |
| Orchestrator.FirstError | main.go:191-193 | no error is reported if and only if every task succeeded; otherwise the reported error is that of a failing task before which every task succeeded |
| Orchestrator.Settle | main.go:156-199 | settling fetch results in completion order prints the rendering of every decoded item placed into a new store, in strictly ascending id order, partial results included, and reports the first task error; every printed item was decoded and has a positive id, and with unique ids every such item is printed |
| Orchestrator.Run | main.go:133-202 | with n dispatched tasks, run consumes exactly n URLs of the shared generator, fetches them in dispatch order, and prints and reports what settling those results in the given completion order does: ascending ids, only decoded items with a positive id, all of them when ids are unique |
| Orchestrator.EvenRunTargets | main.go:134-157 | with the `Even` generator, the task that settles j-th is the answer for `endpoint/2(i+1)`, where i is its dispatch position |
| Orchestrator.PrintedOrderIrrelevant | main.go:156-199 | two traces holding the same fetch results in any order print the same items, when the decoded ids are unique |
| Orchestrator.RunOrderIrrelevant | main.go:149-199 | two completion orders of the same dispatched tasks print the same items, when the decoded ids are unique |
| Store.RenderedWerePlaced | main.go:171-199 | whatever the ids, every printed item was placed and has a positive id |

## Left out

- HTTP: building the request, `client.Do` and reading the body with `io.Copy` are foreign I/O. An exchange is an abstract value: request rejected, no response, or a status with body bytes and an optional read error. The per-request timeout is part of "no response".
- JSON decoding (`json.Unmarshal`) is a parameter `Decoder` that returns an item or an error.
- Concurrency: the worker group, its limit, the deadline context and the `ctx.Done()` check in the dispatch loop. Run takes the number of dispatched tasks and their completion order as parameters. Which tasks are dispatched after a cancellation or a missed deadline is not modelled, and neither is the "deadline exceeded" log line.
- Data races: the tasks write `buf` and call the generator from several goroutines with no lock. The model makes all generator calls first, one at a time in dispatch order, and then places items one at a time in completion order. It claims nothing about interleavings.
- Logging (`slog`), flag parsing in `main`, and the column widths of the printed line. Render yields the items, not formatted text.
- Integer width: ids, the generator counter and the buffer length are unbounded. The model does not cover the 64-bit wrap of the counter after about 2^62 calls, the overflow of `len(buf)*2`, or a failed allocation for a huge id.
- The response body is not closed on the non-200 and read-error paths. This resource leak is not modelled.
- Generator.Next: the URL text uses the model's own decimal rendering in place of `Sprintf`, and a negative counter never occurs because the counter is a natural number.
- Orchestrator.Run: the number of dispatched tasks and their completion order are inputs, so it is weaker than the program on which tasks exist at all, because dispatch and cancellation are not modelled. The program calls the generator when a goroutine starts, which can differ from dispatch order. The model gives the i-th dispatched task the i-th URL. Because the answer depends only on the URL, this changes only which task holds which result, not the set of results.
