/** The request-gating state machine: install, wrapped calls, the ready event and
    the flush, and the responses that settle deferred fetches.

    Every transition is a pure function from the old state to the new one. The
    original network hooks are not modelled; a call that reaches them is appended
    to `dispatched`.
 */
module Interceptor {
  import opened Types
  import opened Permission

  /** The state when the page loads: not ready, nothing configured, no wrappers,
      nothing queued. `hostname` is the page's `window.location.hostname`. */
  function Init(hostname: string): (st: State)
    ensures !st.ready && st.whitelist == [] && !st.allowCurrentHost && st.hostname == hostname
    ensures !st.Installed() && st.queue == [] && st.futures == [] && st.dispatched == []
  {
    State(false, [], false, hostname, {}, [], [], [])
  }

  /* ----------------------------------------------------------------------------
     Install
     ------------------------------------------------------------------------- */

  /** The install entry point: absent options take their defaults, the whitelist and
      the current-host switch are overwritten, and the ready handler gets a listener
      for the ready event. */
  function Install(st: State, opts: Options): (st': State)
    ensures st'.whitelist == opts.whiteList.GetOr([])
    ensures st'.allowCurrentHost == opts.allowCurrentHost.GetOr(false)
    ensures opts.readyEvent == None ==> st'.listeners == st.listeners + {"DOMContentLoaded"}
    ensures opts.readyEvent.Some? ==> st'.listeners == st.listeners + {opts.readyEvent.value}
    ensures st'.Installed()
    ensures st'.ready == st.ready && st'.queue == st.queue && st'.futures == st.futures
    ensures st'.dispatched == st.dispatched && st'.hostname == st.hostname
  {
    st.(whitelist := opts.whiteList.GetOr([]),
        allowCurrentHost := opts.allowCurrentHost.GetOr(false),
        listeners := st.listeners + {opts.readyEvent.GetOr(DefaultReadyEvent)})
  }

  /* ----------------------------------------------------------------------------
     Wrapped send / fetch
     ------------------------------------------------------------------------- */

  datatype Outcome = Outcome(state: State, result: CallResult)

  /** `addToRequestQueue`: a fresh pending future is created and the call is pushed
      on the end of the queue under that future's ticket. */
  function Enqueue(st: State, req: Req): (st': State)
    ensures |st'.futures| == |st.futures| + 1 && st'.futures[|st.futures|] == Future(req, None)
    ensures st'.futures[..|st.futures|] == st.futures
    ensures st'.queue == st.queue + [Entry(req, |st.futures|)]
    ensures st'.dispatched == st.dispatched && st'.ready == st.ready
    ensures st'.(queue := st.queue, futures := st.futures) == st
  {
    var ticket := |st.futures|;
    st.(queue := st.queue + [Entry(req, ticket)], futures := st.futures + [Future(req, None)])
  }

  /** A call through `XMLHttpRequest.prototype.send` or `fetch`. Before install the
      hooks are the originals and the call goes out. After install the wrapper asks
      the permission evaluator: a permitted call goes straight to the original hook,
      any other is deferred. The `send` wrapper returns nothing either way. */
  function Call(st: State, req: Req): (out: Outcome)
    ensures var st' := out.state;
      && st'.ready == st.ready && st'.whitelist == st.whitelist
      && st'.allowCurrentHost == st.allowCurrentHost && st'.hostname == st.hostname
      && st'.listeners == st.listeners
    ensures st.Installed() && !st.ready && !Exempt(st, req.url) ==>
      && out.state.queue == st.queue + [Entry(req, |st.futures|)]
      && out.state.futures == st.futures + [Future(req, None)]
      && out.state.dispatched == st.dispatched
    ensures !(st.Installed() && !st.ready && !Exempt(st, req.url)) ==>
      && out.state.dispatched == st.dispatched + [Direct(req)]
      && out.state.queue == st.queue
      && out.state.futures == st.futures
    ensures st.ready ==> out.state.queue == st.queue
    ensures req.Send? ==> out.result == NoValue
    ensures req.Fetch? && !out.result.QueuedPromise? ==> out.result == NetworkPromise
    ensures out.result.QueuedPromise? <==> req.Fetch? && |out.state.queue| == |st.queue| + 1
    ensures out.result.QueuedPromise? ==> out.result.ticket == |st.futures|
  {
    if st.Installed() && !IsPermitted(st, req.url) then
      Outcome(Enqueue(st, req), if req.Send? then NoValue else QueuedPromise(|st.futures|))
    else
      Outcome(st.(dispatched := st.dispatched + [Direct(req)]),
              if req.Send? then NoValue else NetworkPromise)
  }

  /* ----------------------------------------------------------------------------
     Ready event and flush
     ------------------------------------------------------------------------- */

  /** The calls `processRequestQueue` hands to the original hooks while mapping over
      `q`. A queued `send` goes to the original `send`. A queued `fetch` re-enters the
      WRAPPED `fetch`, which consults the permission evaluator again; the ready
      handler raises the flag before the flush, so that check always passes.

      The result does not depend on `st`: the state is a parameter only so that the
      precondition can record the flag the re-entry check sees, and the assertion in
      the body can justify treating every replayed fetch as permitted. */
  function Replay(st: State, q: seq<Entry>): (log: seq<Dispatch>)
    requires st.ready
    ensures |log| == |q|
    ensures forall j :: 0 <= j < |q| ==> log[j] == Replayed(q[j])
  {
    if q == [] then
      []
    else
      assert q[0].req.Send? || IsPermitted(st, q[0].req.url);
      [Replayed(q[0])] + Replay(st, q[1..])
  }

  /** `readyHandler`: raise the ready flag, then flush the queue in order and empty it. */
  function ReadyHandler(st: State): (st': State)
    ensures st'.ready && st'.queue == []
    ensures |st'.dispatched| == |st.dispatched| + |st.queue|
    ensures st'.dispatched[..|st.dispatched|] == st.dispatched
    ensures forall j :: 0 <= j < |st.queue| ==>
      st'.dispatched[|st.dispatched| + j] == Replayed(st.queue[j])
    ensures st'.futures == st.futures && st'.whitelist == st.whitelist
    ensures st'.allowCurrentHost == st.allowCurrentHost && st'.listeners == st.listeners
    ensures st'.hostname == st.hostname
  {
    var armed := st.(ready := true);
    armed.(dispatched := armed.dispatched + Replay(armed, armed.queue), queue := [])
  }

  /** The event `name` fires on the window; only a name the ready handler listens to
      has any effect. */
  function ReadyEvent(st: State, name: string): (st': State)
    ensures name in st.listeners ==> st'.ready && st'.queue == []
    ensures name in st.listeners ==>
      && |st'.dispatched| == |st.dispatched| + |st.queue|
      && st'.dispatched[..|st.dispatched|] == st.dispatched
      && (forall j :: 0 <= j < |st.queue| ==>
            st'.dispatched[|st.dispatched| + j] == Replayed(st.queue[j]))
      && st'.(ready := st.ready, queue := st.queue, dispatched := st.dispatched) == st
    ensures name !in st.listeners ==> st' == st
    ensures st.ready ==> st'.ready
    ensures st.dispatched <= st'.dispatched
  {
    if name in st.listeners then ReadyHandler(st) else st
  }

  /* ----------------------------------------------------------------------------
     Responses
     ------------------------------------------------------------------------- */

  /** `dispatched[i]` is a replayed fetch whose future is still pending: the `.then`
      the flush attached to it will resolve that future. */
  predicate Settles(st: State, i: nat) {
    && i < |st.dispatched|
    && st.dispatched[i].Replayed?
    && st.dispatched[i].entry.req.Fetch?
    && st.dispatched[i].entry.ticket < |st.futures|
    && st.futures[st.dispatched[i].entry.ticket].settled == None
  }

  /** The network answers the call logged at `dispatched[i]` with `resp`. Only a fetch
      replayed by the flush has a `.then` that resolves a queue future; resolving an
      already settled future changes nothing. */
  function Respond(st: State, i: nat, resp: Response): (st': State)
    ensures Settles(st, i) ==>
      var t := st.dispatched[i].entry.ticket;
      st' == st.(futures := st.futures[t := Future(st.futures[t].req, Some(resp))])
    ensures !Settles(st, i) ==> st' == st
    ensures |st'.futures| == |st.futures|
    ensures forall u :: 0 <= u < |st.futures| ==> st'.futures[u].req == st.futures[u].req
    ensures forall u :: 0 <= u < |st.futures| && st.futures[u].settled.Some? ==>
      st'.futures[u] == st.futures[u]
    ensures st'.(futures := st.futures) == st
  {
    if Settles(st, i) then
      var t := st.dispatched[i].entry.ticket;
      st.(futures := st.futures[t := Future(st.futures[t].req, Some(resp))])
    else
      st
  }
}
