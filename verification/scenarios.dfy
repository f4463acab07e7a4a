/** Two concrete runs: a whitelisted domain, and the current-host exemption. */
module Scenarios {
  import opened Strings
  import opened Types
  import opened Interceptor

  /** A string lacking one of `needle`'s characters cannot contain `needle`. */
  lemma MissingCharacter(hay: string, needle: string, i: nat)
    requires i < |needle| && needle[i] !in hay
    ensures !Includes(hay, needle)
  {
  }

  /** A string in which two adjacent characters of `needle` never appear side by side
      cannot contain `needle`. */
  lemma MissingPair(hay: string, needle: string, i: nat)
    requires i + 1 < |needle|
    requires forall p :: 0 <= p < |hay| - 1 ==> hay[p] != needle[i] || hay[p + 1] != needle[i + 1]
    ensures !Includes(hay, needle)
  {
    forall k | 0 <= k && k + |needle| <= |hay|
      ensures !OccursAt(hay, needle, k)
    {
      assert hay[k..k + |needle|][i] == hay[k + i];
      assert hay[k..k + |needle|][i + 1] == hay[k + i + 1];
    }
  }

  /* Install with whitelist ["example.com"] on host "app.test": a fetch to the
     whitelisted domain goes out at once, a fetch elsewhere waits for
     DOMContentLoaded, and its future settles with the response to its replay. */

  const ToExample := Fetch("http://example.com/api", "")
  const ToOther := Fetch("http://other.com/api", "")

  function WhitelistPage(): State {
    Install(Init("app.test"), Options(None, Some(["example.com"]), None))
  }

  function AfterBothCalls(): State {
    WhitelistPage().(
      dispatched := [Direct(ToExample)],
      queue := [Entry(ToOther, 0)],
      futures := [Future(ToOther, None)])
  }

  lemma WhitelistedFetchGoesOut()
    ensures Call(WhitelistPage(), ToExample)
         == Outcome(WhitelistPage().(dispatched := [Direct(ToExample)]), NetworkPromise)
  {
    assert OccursAt(ToExample.url, "example.com", 7);
  }

  lemma OtherFetchWaits()
    ensures Call(WhitelistPage().(dispatched := [Direct(ToExample)]), ToOther)
         == Outcome(AfterBothCalls(), QueuedPromise(0))
  {
    MissingCharacter(ToOther.url, "example.com", 1);
  }

  lemma ReadyReplaysWaitingFetch()
    ensures ReadyEvent(AfterBothCalls(), "DOMContentLoaded")
         == AfterBothCalls().(
              ready := true,
              queue := [],
              dispatched := [Direct(ToExample), Replayed(Entry(ToOther, 0))])
  {
  }

  lemma ResponseSettlesReplayedFetch()
    ensures
      var flushed := ReadyEvent(AfterBothCalls(), "DOMContentLoaded");
      && Respond(flushed, 1, "ok").futures == [Future(ToOther, Some("ok"))]
      && Respond(flushed, 0, "ok") == flushed
  {
  }

  /** Install with the current-host exemption on host "app.test": a call to that host
      goes out at once, a call to another host is deferred. */
  lemma CurrentHostScenario()
    ensures
      var s0 := Install(Init("app.test"), Options(None, None, Some(true)));
      var a := Call(s0, Send("https://app.test/data", "x"));
      var b := Call(a.state, Send("https://external.test/data", "y"));
      && a.state.dispatched == [Direct(Send("https://app.test/data", "x"))]
      && b.state.queue == [Entry(Send("https://external.test/data", "y"), 0)]
      && b.result == NoValue
  {
    assert OccursAt("https://app.test/data", "app.test", 8);
    var other := "https://external.test/data";
    assert forall p :: 0 <= p < |other| - 1 ==> other[p] != 'p' || other[p + 1] != 'p';
    MissingPair(other, "app.test", 1);
  }
}
