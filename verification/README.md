# request-interceptor, modelled in Dafny

request-interceptor holds back a page's outbound network calls until a readiness
event fires on the window. It wraps `XMLHttpRequest.prototype.send` and `fetch`.
Each call first asks a permission evaluator:

- a call is permitted once the ready flag is set;
- a call is permitted if its URL contains a whitelist entry;
- a call is permitted if the current-host exemption is on and its URL contains the
  page's non-empty host name.

A permitted call goes straight to the original hook. Any other call is pushed onto
a FIFO request queue, paired with a fresh promise. When the ready event fires, the
ready handler sets the flag, replays every queued call in order and empties the
queue. A replayed `fetch` resolves its promise when its response arrives.

The model is functional. One immutable `State` record holds the ready flag, the
whitelist, the current-host switch, the host name, the events the ready handler
listens to, the queue, the futures of deferred calls and a log of the calls that
reached the original hooks. Each operation is a pure transition on that record.

| file | module | contents |
|---|---|---|
| strings.dfy | `Strings` | `String.prototype.includes` as a scan, proved equal to "is a substring" |
| types.dfy | `Types` | requests, queue entries, futures, dispatch log entries, install options, the state |
| permission.dfy | `Permission` | `isPermitted`, `isWhiteListed`, `isOnCurrentHost` |
| interceptor.dfy | `Interceptor` | install, the wrapped hooks, the ready handler and flush, responses |
| invariants.dfy | `Invariants` | the invariant of reachable states and its preservation |
| trace.dfy | `Trace` | runs of events; monotonicity and "nothing queued once ready" |
| scenarios.dfy | `Scenarios` | two concrete runs: a whitelisted domain and the current-host exemption |

The invariant `Invariants.Valid` says that every future ever created belongs to
exactly one deferred call. That call is either still pending in the queue or has
been replayed exactly once. Queue order is ticket order, which is enqueue order.
Only the future of a replayed `fetch` is ever settled. Once the flag is set, the
queue is empty.

The model follows src/index.js in three behaviours a reader might not expect:

- A deferred `send`'s queue entry holds a promise that nobody can observe and nobody
  resolves. The `send` wrapper has no `return` (src/index.js:31-35), so the promise
  is discarded, and the flush hands the call to the original `send` without calling
  the stored `resolve` (src/index.js:76).
- A deferred `fetch` whose network call fails keeps a pending promise forever. The
  `.then` has no rejection handler, and the promise from `addToRequestQueue` is not
  chained to the network promise (src/index.js:73-75). So failures are not
  propagated to the caller.
- The flush does not bypass the wrapper for `fetch`. It calls the WRAPPED `fetch`
  (src/index.js:73), so each queued fetch goes through the permission check again.
  The ready handler raises the flag before it flushes (src/index.js:118-119), so
  that check always passes. `Interceptor.Replay` therefore requires the flag to be
  set.

build/index.js is the transpiled form of src/index.js. It has the same logic at
build/index.js:92-126 and build/index.js:68-86, so it has no separate model.

## Model

| member | source | states |
|---|---|---|
| Strings.IncludesFrom | src/index.js:100 | the left-to-right scan from index `from` finds `needle` exactly when it occurs at some start index at or after `from` |
| Strings.Includes | src/index.js:100 | `hay.includes(needle)` holds iff `needle` is a contiguous substring of `hay`; the empty string is always included, and a longer string never is |
| Permission.IsWhiteListed | src/index.js:96-102 | true iff some whitelist entry is a substring of the URL; an empty whitelist matches nothing; an empty-string entry matches every URL |
| Permission.IsOnCurrentHost | src/index.js:108-111 | true iff the host name is non-empty and occurs in the URL; false for every URL when the host name is empty |
| Permission.IsPermitted | src/index.js:85-89 | permitted iff ready or exempt by configuration; ready permits every URL; a whitelist match permits regardless of the flag; with the flag down and the current-host switch off (or an empty host name), permission is exactly whitelist membership |
| Interceptor.Init | src/index.js:9-12 | at page load the flag is down, the whitelist is empty, the current-host switch is off, nothing is installed, and the queue, the futures and the log are empty; the host name is the page's |
| Interceptor.Install | src/index.js:20-52 | whitelist and current-host switch are overwritten (absent options default to `[]` and `false`); exactly one listener is added, for the ready event (default `DOMContentLoaded`); the flag, queue, futures and dispatch log are left untouched |
| Interceptor.Enqueue | src/index.js:59-64 | a fresh pending future for the request is created under a ticket equal to the number of earlier futures, those futures are kept, exactly one entry with that ticket is appended to the end of the queue, and nothing else changes: the log, the flag, the settings and the listeners are as before |
| Interceptor.Call | src/index.js:31-49 | after install, a call that is neither permitted by the flag nor exempt appends exactly one entry, with a fresh pending future, to the end of the queue and dispatches nothing; any other call is dispatched once and leaves queue and futures unchanged; once ready nothing is queued; the `send` wrapper returns nothing; a deferred `fetch` returns the queue's future and any other `fetch` the network's promise |
| Interceptor.Replay | src/index.js:71-77 | with the flag set, as the ready handler guarantees, the flush hands every queued entry to an original hook exactly once, in queue order, and nothing else |
| Interceptor.ReadyHandler | src/index.js:117-120 | after the handler the flag is set and the queue is empty; the log gains exactly the queued calls, in enqueue order, after the earlier entries; futures and settings are unchanged |
| Interceptor.ReadyEvent | src/index.js:52 | an event the handler listens to sets the flag, replays every queued call into the log exactly once, in queue order, after the earlier entries, and empties the queue, leaving futures, settings and listeners unchanged; any other event changes nothing; the flag never goes down and the log only grows |
| Interceptor.Respond | src/index.js:73-75 | a response to a replayed `fetch` whose future is still pending settles exactly that future with the response; any other response changes nothing; every future keeps its request and settled futures keep their value |
| Invariants.RespondLeavesSendFutures | src/index.js:71-77 | in a reachable state no response ever touches the future of a deferred `send` |
| Invariants.InstallPreservesValid | src/index.js:20-26 | re-installing never disturbs the queue, the futures or the flag, so the invariant survives |
| Invariants.CallPreservesValid | src/index.js:59-64 | enqueueing under a fresh ticket, or dispatching directly, keeps every deferred call accounted for exactly once and the queue in enqueue order |
| Invariants.FlushKeepsValid | src/index.js:69-79 | a flush that moves the whole queue, in order, into the log and resets the queue keeps the invariant |
| Invariants.ReadyEventPreservesValid | src/index.js:117-120 | the ready event keeps the invariant |
| Invariants.RespondPreservesValid | src/index.js:73-75 | settling a replayed fetch's future keeps the invariant; send futures stay pending |
| Invariants.FlushDispatchesEachExactlyOnce | src/index.js:69-79 | after the ready event the queue is empty and every call ever deferred has been dispatched exactly once |
| Invariants.ReadyEventIdempotent | src/index.js:117-120 | in a ready state any further ready event leaves the state exactly as it was |
| Invariants.ReplayCountOfFlush | src/index.js:71-77 | a log replaying the queue entry by entry replays each deferred call as often as the queue holds it |
| Trace.RunPreservesValid | src/index.js:9-12 | every state reached by any sequence of installs, calls, window events and responses keeps the invariant |
| Trace.RunIsMonotone | src/index.js:117-120 | along any run the flag never goes from true to false; the dispatch log and the listeners only grow; the futures only grow at the end, every existing future keeps its request, and a settled future keeps its value |
| Trace.NothingQueuedOnceReady | src/index.js:85-89 | once ready, the queue stays empty and the flag stays up whatever happens afterwards |
| Trace.NoEventNoFlush | src/index.js:52 | without a window event the flag keeps its value and every queued call stays queued, in order: deferred calls wait for the lifetime of the page |
| Trace.SettingsOnlyChangeOnInstall | src/index.js:25-26 | without an install the whitelist, the current-host switch and the host name never change |
| Trace.SendFutureNeverSettles | src/index.js:76 | on every run from page load, the future of a deferred `send` is never settled |
| Scenarios.WhitelistedFetchGoesOut | src/index.js:44-49 | with whitelist `["example.com"]`, a fetch to `http://example.com/api` is dispatched at once and returns the network's promise |
| Scenarios.OtherFetchWaits | src/index.js:44-49 | with the same whitelist, a fetch to `http://other.com/api` is queued under ticket 0 and returns its future |
| Scenarios.ReadyReplaysWaitingFetch | src/index.js:117-120 | `DOMContentLoaded` sets the flag and replays the waiting fetch after the direct one |
| Scenarios.ResponseSettlesReplayedFetch | src/index.js:73-75 | the response to the replayed fetch settles its future; a response to the direct fetch settles nothing |
| Scenarios.CurrentHostScenario | src/index.js:108-111 | with the current-host exemption on host `app.test`, a send to `https://app.test/data` is dispatched and a send to `https://external.test/data` is queued |

## Left out

- Browser globals are left out: monkey-patching of `XMLHttpRequest.prototype.send`/`open` and `fetch`, `window.addEventListener`, and `window.location.hostname`. The host name is a field fixed at `Init`. The original hooks are appends to the dispatch log.
- The `open` wrapper's URL capture (src/index.js:38-41) is left out. The URL is a field of each `Send` request, always a string.
- Call targets that are not strings are left out. Before the flag is set, `isPermitted` calls `urlString.includes` (src/index.js:100, 109) on whatever the call carries. A `fetch` of a `Request` or `URL` object, a `URL` object passed to `open`, an XHR opened before install and sent after it, or a `send` with no `open` all throw a TypeError there, whitelisted or not. The model has only string URLs, so it never throws.
- Promise and async semantics are reduced to a pending/settled flag per future. Network failures are never delivered as responses, matching the missing rejection path.
- Argument passing is left out: payloads are opaque. `proxiedFetch(params)` receives the argument array rather than spread arguments (src/index.js:47), and the flush passes the stored array back into the wrapped `fetch` (src/index.js:73). Neither is modelled.
- Interceptor.Replay: it requires the flag to be set. With the flag down, the re-entry at src/index.js:73 would pass the stored argument array to `isPermitted`. The array's own `includes` compares elements exactly instead of testing substrings. The ready handler never flushes with the flag down, so this is not modelled.
- A synchronous throw from the original `send` during the flush is left out. For example, the same XHR sent twice before the ready event is queued twice, and the second replay throws. That aborts the `map` at src/index.js:71-77 before `requestQueue = []` runs. Later entries are then never dispatched, and the queue stays non-empty with the flag up. A later ready event would dispatch the earlier entries again. `Invariants.Valid` ("once ready, the queue is empty"), `Invariants.FlushDispatchesEachExactlyOnce` and `Invariants.ReadyEventIdempotent` hold for the model, where original hooks never throw.
- The whitelist is kept by reference (src/index.js:25) and is not modelled that way. If the caller mutates its array after install, permissions change without an install. The model copies the whitelist at install.
- A re-install replaces the wrappers rather than stacking them. Both wrappers call the originals captured once when the module loads (src/index.js:2, 6, 33, 47), so every call is checked exactly once, which is what `Call` does. The only effect of a re-install that the model keeps is the overwritten settings and the added listener.
- A page where `fetch` is absent (src/index.js:6, 44) is left out; the model assumes `fetch` exists.
- Whitelist entries that are not strings are left out. `String.prototype.includes` throws a TypeError for a RegExp or Symbol entry and converts any other value to a string first.
- A `whiteList` option that is present but not an array is left out. The destructuring default at src/index.js:22 applies only to `undefined`, so `null` or a string is stored as is, and `whiteListedUrls.some` (src/index.js:97) then throws a TypeError on every call made before the flag is set. The model's whitelist is always a sequence of strings.
- String representation is simplified. A Dafny `string` is a sequence of Unicode scalar values, while `String.prototype.includes` (src/index.js:100, 109) compares UTF-16 code units. The two agree on well-formed strings and differ only for strings with lone surrogates, which the model cannot express.
- A call to the install entry point with no argument at all is left out; JavaScript throws while destructuring it.
