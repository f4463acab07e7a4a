/** Runs of the interceptor: any interleaving of installs, outbound calls, window
    events and network responses, and what holds along every such run. */
module Trace {
  import opened Types
  import opened Interceptor
  import opened Invariants

  datatype Event =
    | InstallCall(opts: Options)
    | Request(req: Req)
    | WindowEvent(name: string)
    | NetworkResponse(index: nat, resp: Response)

  function Step(st: State, e: Event): State {
    match e
    case InstallCall(opts) => Install(st, opts)
    case Request(req) => Call(st, req).state
    case WindowEvent(name) => ReadyEvent(st, name)
    case NetworkResponse(i, resp) => Respond(st, i, resp)
  }

  function Run(st: State, es: seq<Event>): State
    decreases |es|
  {
    if es == [] then st else Run(Step(st, es[0]), es[1..])
  }

  lemma StepPreservesValid(st: State, e: Event)
    requires Valid(st)
    ensures Valid(Step(st, e))
  {
    match e
    case InstallCall(opts) => InstallPreservesValid(st, opts);
    case Request(req) => CallPreservesValid(st, req);
    case WindowEvent(name) => ReadyEventPreservesValid(st, name);
    case NetworkResponse(i, resp) => RespondPreservesValid(st, i, resp);
  }

  /** Every state reachable from page load satisfies the invariant. */
  lemma {:induction false} RunPreservesValid(st: State, es: seq<Event>)
    requires Valid(st)
    ensures Valid(Run(st, es))
    decreases |es|
  {
    if es != [] {
      StepPreservesValid(st, es[0]);
      RunPreservesValid(Step(st, es[0]), es[1..]);
    }
  }

  /** The ready flag never goes back to false, and the dispatch log and the list of
      futures only ever grow at the end: an existing future keeps its request, and a
      settled one keeps its value. */
  lemma {:induction false} RunIsMonotone(st: State, es: seq<Event>)
    ensures st.ready ==> Run(st, es).ready
    ensures st.dispatched <= Run(st, es).dispatched
    ensures |st.futures| <= |Run(st, es).futures|
    ensures forall u :: 0 <= u < |st.futures| ==> Run(st, es).futures[u].req == st.futures[u].req
    ensures forall u :: 0 <= u < |st.futures| && st.futures[u].settled.Some? ==>
      Run(st, es).futures[u] == st.futures[u]
    ensures st.listeners <= Run(st, es).listeners
    decreases |es|
  {
    if es != [] {
      RunIsMonotone(Step(st, es[0]), es[1..]);
    }
  }

  /** Once ready, nothing is ever queued again, whatever happens afterwards. */
  lemma {:induction false} NothingQueuedOnceReady(st: State, es: seq<Event>)
    requires Valid(st) && st.ready
    ensures Run(st, es).queue == []
    ensures Run(st, es).ready
  {
    RunPreservesValid(st, es);
    RunIsMonotone(st, es);
  }

  /** Without a window event nothing is flushed: the ready flag keeps its value and
      deferred calls stay queued, in order, with new ones behind them. */
  lemma {:induction false} NoEventNoFlush(st: State, es: seq<Event>)
    requires forall k :: 0 <= k < |es| ==> !es[k].WindowEvent?
    ensures Run(st, es).ready == st.ready
    ensures st.queue <= Run(st, es).queue
    decreases |es|
  {
    if es != [] {
      NoEventNoFlush(Step(st, es[0]), es[1..]);
    }
  }

  /** The whitelist and the current-host switch change only through install. */
  lemma {:induction false} SettingsOnlyChangeOnInstall(st: State, es: seq<Event>)
    requires forall k :: 0 <= k < |es| ==> !es[k].InstallCall?
    ensures Run(st, es).whitelist == st.whitelist
    ensures Run(st, es).allowCurrentHost == st.allowCurrentHost
    ensures Run(st, es).hostname == st.hostname
    decreases |es|
  {
    if es != [] {
      SettingsOnlyChangeOnInstall(Step(st, es[0]), es[1..]);
    }
  }

  /** A deferred send's future never settles, on any run from page load. */
  lemma SendFutureNeverSettles(hostname: string, es: seq<Event>, t: nat)
    requires t < |Run(Init(hostname), es).futures|
    requires Run(Init(hostname), es).futures[t].req.Send?
    ensures Run(Init(hostname), es).futures[t].settled == None
  {
    InitValid(hostname);
    RunPreservesValid(Init(hostname), es);
  }
}
