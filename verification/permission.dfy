/** The permission evaluator: may a call to a URL go out now, or must it wait? */
module Permission {
  import opened Strings
  import opened Types

  /** Some whitelist entry occurs in `url`. */
  ghost predicate MatchesWhitelist(whitelist: seq<string>, url: string) {
    exists i :: 0 <= i < |whitelist| && IsSubstring(whitelist[i], url)
  }

  /** The call is exempt from deferral by configuration alone, whatever the ready flag. */
  ghost predicate Exempt(st: State, url: string) {
    || MatchesWhitelist(st.whitelist, url)
    || (st.allowCurrentHost && st.hostname != "" && IsSubstring(st.hostname, url))
  }

  /** `whiteListedUrls.some(entry => url.includes(entry))`, scanning the list from the front. */
  function IsWhiteListed(whitelist: seq<string>, url: string): (b: bool)
    ensures b <==> MatchesWhitelist(whitelist, url)
    ensures whitelist == [] ==> !b
    ensures "" in whitelist ==> b
  {
    if whitelist == [] then
      false
    else if Includes(url, whitelist[0]) then
      true
    else
      var b := IsWhiteListed(whitelist[1..], url);
      assert MatchesWhitelist(whitelist[1..], url) ==> MatchesWhitelist(whitelist, url) by {
        if MatchesWhitelist(whitelist[1..], url) {
          var i :| 0 <= i < |whitelist[1..]| && IsSubstring(whitelist[1..][i], url);
          assert whitelist[i + 1] == whitelist[1..][i];
        }
      }
      assert MatchesWhitelist(whitelist, url) ==> MatchesWhitelist(whitelist[1..], url) by {
        if MatchesWhitelist(whitelist, url) {
          var i :| 0 <= i < |whitelist| && IsSubstring(whitelist[i], url);
          assert i != 0;
          assert whitelist[1..][i - 1] == whitelist[i];
        }
      }
      b
  }

  /** `url.includes(hostname) && hostname !== ''`: an empty host name never matches. */
  function IsOnCurrentHost(hostname: string, url: string): (b: bool)
    ensures b <==> hostname != "" && IsSubstring(hostname, url)
    ensures hostname == "" ==> !b
  {
    Includes(url, hostname) && hostname != ""
  }

  /** `readyFlag || isWhiteListed(url) || (isOnCurrentHost(url) && currentHostIsAllowed)`. */
  function IsPermitted(st: State, url: string): (b: bool)
    ensures b <==> st.ready || Exempt(st, url)
    ensures st.ready ==> b
    ensures MatchesWhitelist(st.whitelist, url) ==> b
    ensures !st.ready && !st.allowCurrentHost ==> (b <==> MatchesWhitelist(st.whitelist, url))
    ensures !st.ready && st.hostname == "" ==> (b <==> MatchesWhitelist(st.whitelist, url))
  {
    st.ready
    || IsWhiteListed(st.whitelist, url)
    || (IsOnCurrentHost(st.hostname, url) && st.allowCurrentHost)
  }
}
