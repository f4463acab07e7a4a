/** The invariant every reachable interceptor state keeps, and its preservation by
    each transition.

    The central fact is conservation of deferred calls: every future ever handed out
    belongs to exactly one call, and that call is either still waiting in the queue
    or has been replayed to the original hook exactly once.
 */
module Invariants {
  import opened Types
  import opened Interceptor

  /** Number of queue entries holding ticket `t`. */
  function QueueCount(q: seq<Entry>, t: nat): (c: nat)
    ensures c <= |q|
    ensures c == 0 <==> forall j :: 0 <= j < |q| ==> q[j].ticket != t
  {
    if q == [] then 0
    else QueueCount(q[..|q| - 1], t) + (if q[|q| - 1].ticket == t then 1 else 0)
  }

  /** Number of times the deferred call with ticket `t` appears as replayed in a
      dispatch log. */
  function ReplayCount(d: seq<Dispatch>, t: nat): (c: nat)
    ensures c <= |d|
    ensures c == 0 <==> forall j :: 0 <= j < |d| ==> !(d[j].Replayed? && d[j].entry.ticket == t)
  {
    if d == [] then 0
    else
      ReplayCount(d[..|d| - 1], t)
      + (if d[|d| - 1].Replayed? && d[|d| - 1].entry.ticket == t then 1 else 0)
  }

  lemma {:induction false} ReplayCountAppend(a: seq<Dispatch>, b: seq<Dispatch>, t: nat)
    ensures ReplayCount(a + b, t) == ReplayCount(a, t) + ReplayCount(b, t)
    decreases |b|
  {
    if b == [] {
      assert a + b == a;
    } else {
      ReplayCountAppend(a, b[..|b| - 1], t);
      assert (a + b)[..|a + b| - 1] == a + b[..|b| - 1];
    }
  }

  /** A log that replays `q` entry by entry replays each ticket as often as `q` holds it. */
  lemma {:induction false} ReplayCountOfFlush(q: seq<Entry>, log: seq<Dispatch>, t: nat)
    requires |log| == |q|
    requires forall j :: 0 <= j < |q| ==> log[j] == Replayed(q[j])
    ensures ReplayCount(log, t) == QueueCount(q, t)
    decreases |q|
  {
    if q != [] {
      ReplayCountOfFlush(q[..|q| - 1], log[..|log| - 1], t);
    }
  }

  /** `e` names a future that was created for its request. */
  predicate Issued(st: State, e: Entry) {
    e.ticket < |st.futures| && st.futures[e.ticket].req == e.req
  }

  ghost predicate Valid(st: State) {
    // Once ready, the queue is empty for good.
    && (st.ready ==> st.queue == [])
    // Every queued call holds a future of its own that is still pending.
    && (forall j :: 0 <= j < |st.queue| ==>
          Issued(st, st.queue[j]) && st.futures[st.queue[j].ticket].settled == None)
    // The queue is in enqueue order: tickets strictly increase towards the back.
    && (forall i, j :: 0 <= i < j < |st.queue| ==> st.queue[i].ticket < st.queue[j].ticket)
    // Every replay in the log is of a call that was deferred.
    && (forall i :: 0 <= i < |st.dispatched| && st.dispatched[i].Replayed? ==>
          Issued(st, st.dispatched[i].entry))
    // Each deferred call is still queued or has been replayed, exactly once.
    && (forall t :: 0 <= t < |st.futures| ==>
          QueueCount(st.queue, t) + ReplayCount(st.dispatched, t) == 1)
    // Only a replayed fetch ever has its future settled.
    && (forall t :: 0 <= t < |st.futures| && st.futures[t].settled.Some? ==>
          st.futures[t].req.Fetch? && ReplayCount(st.dispatched, t) == 1)
  }

  lemma InitValid(hostname: string)
    ensures Valid(Init(hostname))
  {
  }

  lemma InstallPreservesValid(st: State, opts: Options)
    requires Valid(st)
    ensures Valid(Install(st, opts))
  {
  }

  lemma CallPreservesValid(st: State, req: Req)
    requires Valid(st)
    ensures Valid(Call(st, req).state)
  {
    var st' := Call(st, req).state;
    var n := |st.futures|;
    if |st'.queue| == |st.queue| + 1 {
      assert st'.queue[..|st'.queue| - 1] == st.queue;
      forall t | 0 <= t < |st'.futures|
        ensures QueueCount(st'.queue, t) + ReplayCount(st'.dispatched, t) == 1
      {
        if t == n {
          assert QueueCount(st.queue, t) == 0;
          assert ReplayCount(st.dispatched, t) == 0;
        }
      }
    } else {
      assert st'.dispatched[..|st'.dispatched| - 1] == st.dispatched;
      forall t | 0 <= t < |st'.futures|
        ensures ReplayCount(st'.dispatched, t) == ReplayCount(st.dispatched, t)
      {
      }
    }
  }

  /** Any flush that empties the queue into the log, entry by entry and in order,
      keeps the invariant. */
  lemma FlushKeepsValid(st: State, st': State)
    requires Valid(st)
    requires st'.ready && st'.queue == [] && st'.futures == st.futures
    requires |st'.dispatched| == |st.dispatched| + |st.queue|
    requires st'.dispatched[..|st.dispatched|] == st.dispatched
    requires forall j :: 0 <= j < |st.queue| ==>
      st'.dispatched[|st.dispatched| + j] == Replayed(st.queue[j])
    ensures Valid(st')
  {
    var flushed := st'.dispatched[|st.dispatched|..];
    assert st'.dispatched == st.dispatched + flushed;
    forall t | 0 <= t < |st'.futures|
      ensures ReplayCount(st'.dispatched, t) == ReplayCount(st.dispatched, t) + QueueCount(st.queue, t)
    {
      ReplayCountAppend(st.dispatched, flushed, t);
      ReplayCountOfFlush(st.queue, flushed, t);
    }
    forall i | 0 <= i < |st'.dispatched| && st'.dispatched[i].Replayed?
      ensures Issued(st', st'.dispatched[i].entry)
    {
      if i >= |st.dispatched| {
        assert st'.dispatched[i] == Replayed(st.queue[i - |st.dispatched|]);
      } else {
        assert st'.dispatched[i] == st.dispatched[i];
      }
    }
  }

  lemma ReadyEventPreservesValid(st: State, name: string)
    requires Valid(st)
    ensures Valid(ReadyEvent(st, name))
  {
    if name in st.listeners {
      FlushKeepsValid(st, ReadyHandler(st));
    }
  }

  lemma RespondPreservesValid(st: State, i: nat, resp: Response)
    requires Valid(st)
    ensures Valid(Respond(st, i, resp))
  {
    var st' := Respond(st, i, resp);
    if st' != st {
      var t := st.dispatched[i].entry.ticket;
      assert ReplayCount(st.dispatched, t) != 0;
      assert QueueCount(st.queue, t) == 0;
      forall u | 0 <= u < |st.futures| && u != t
        ensures st'.futures[u] == st.futures[u]
      {
      }
    }
  }

  /** In a reachable state a response never touches the future of a deferred send. */
  lemma RespondLeavesSendFutures(st: State, i: nat, resp: Response, u: nat)
    requires Valid(st) && u < |st.futures| && st.futures[u].req.Send?
    ensures Respond(st, i, resp).futures[u] == st.futures[u]
  {
  }

  /** After the ready event, every call that was ever deferred has been handed to the
      original hook exactly once, and nothing is left waiting. */
  lemma FlushDispatchesEachExactlyOnce(st: State, name: string)
    requires Valid(st) && name in st.listeners
    ensures var st' := ReadyEvent(st, name);
      && st'.queue == []
      && forall t :: 0 <= t < |st'.futures| ==> ReplayCount(st'.dispatched, t) == 1
  {
    ReadyEventPreservesValid(st, name);
  }

  /** A second ready event, or any later one, changes nothing at all. */
  lemma ReadyEventIdempotent(st: State, name: string)
    requires Valid(st) && st.ready
    ensures ReadyEvent(st, name) == st
  {
  }
}
