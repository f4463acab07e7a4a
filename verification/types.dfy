/** The values the request interceptor keeps and passes around. */
module Types {

  datatype Option<+T> = None | Some(value: T) {
    /** The carried value, or `default` when absent (a JavaScript default parameter). */
    function GetOr(default: T): T {
      match this
      case Some(v) => v
      case None => default
    }
  }

  /** Request bodies, fetch init arguments and responses are opaque to the interceptor. */
  type Body = string
  type Response = string

  /** One outbound call: an XMLHttpRequest `send` of `data` to the URL captured by
      `open`, or a `fetch` whose first argument is `url`. */
  datatype Req = Send(url: string, data: Body) | Fetch(url: string, init: Body)

  /** A deferred call in the request queue; `ticket` names the future created for it. */
  datatype Entry = Entry(req: Req, ticket: nat)

  /** The promise `addToRequestQueue` returns for a deferred call: pending until its
      stored `resolve` is called with a response. */
  datatype Future = Future(req: Req, settled: Option<Response>)

  /** A call handed to one of the original (unwrapped) hooks: straight through the
      wrapper, or replayed from the queue by the flush. */
  datatype Dispatch = Direct(req: Req) | Replayed(entry: Entry)

  /** What the wrapped hook returns to its caller: the `send` wrapper returns nothing,
      a dispatched `fetch` returns the network's own promise, a deferred `fetch`
      returns the queue's future. */
  datatype CallResult = NoValue | NetworkPromise | QueuedPromise(ticket: nat)

  /** The argument object of the install entry point; absent fields take defaults. */
  datatype Options = Options(
    readyEvent: Option<string>,
    whiteList: Option<seq<string>>,
    allowCurrentHost: Option<bool>)

  const DefaultReadyEvent: string := "DOMContentLoaded"

  /** The module-level state of the interceptor, plus the page's host name, the
      event names the ready handler listens to, the futures of deferred calls and
      the log of calls that reached the original hooks. */
  datatype State = State(
    ready: bool,
    whitelist: seq<string>,
    allowCurrentHost: bool,
    hostname: string,
    listeners: set<string>,
    queue: seq<Entry>,
    futures: seq<Future>,
    dispatched: seq<Dispatch>)
  {
    /** The wrappers exist once the install entry point has run at least once,
        which is also when the ready handler gets a listener. */
    predicate Installed() {
      listeners != {}
    }
  }
}
