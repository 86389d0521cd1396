/**
 * The two request predicates of the server start-up: the CORS origin test of the default
 * policy, and the JWT bearer hook that lets SignalR clients send their token in the query
 * string.  Both are pure functions of the request.
 */
module Startup {
  import opened Common

  const LocalhostPrefix: string := "http://localhost:"
  const LoopbackPrefix: string := "http://127.0.0.1:"
  const ServerPrefix: string := "http://3.88.158.94:"
  const PublicHost: string := "cmscallabration.duckdns.org"

  /** The origin test given to `SetIsOriginAllowed`. */
  predicate IsOriginAllowed(origin: string): (ok: bool)
    ensures ok <==> || OccursAt(origin, LocalhostPrefix, 0) || OccursAt(origin, LoopbackPrefix, 0)
                    || OccursAt(origin, ServerPrefix, 0) || exists i :: OccursAt(origin, PublicHost, i)
  {
    ContainsIffOccurs(origin, PublicHost);
    if StartsWith(origin, LocalhostPrefix) || StartsWith(origin, LoopbackPrefix) then true
    else if StartsWith(origin, ServerPrefix) then true
    else if Contains(origin, PublicHost) then true
    else false
  }

  /** A string holding a substring is at least as long as it. */
  lemma {:induction false} ContainsNeedsRoom(s: string, sub: string)
    requires Contains(s, sub)
    ensures |sub| <= |s|
    decreases |s|
  {
    if !StartsWith(s, sub) {
      ContainsNeedsRoom(s[1..], sub);
    }
  }

  /** Every origin on one of the three address prefixes is allowed, whatever the port. */
  lemma PrefixedOriginsAllowed(port: string)
    ensures IsOriginAllowed(LocalhostPrefix + port)
    ensures IsOriginAllowed(LoopbackPrefix + port)
    ensures IsOriginAllowed(ServerPrefix + port)
  {
    assert (LocalhostPrefix + port)[..|LocalhostPrefix|] == LocalhostPrefix;
    assert (LoopbackPrefix + port)[..|LoopbackPrefix|] == LoopbackPrefix;
    assert (ServerPrefix + port)[..|ServerPrefix|] == ServerPrefix;
  }

  /** An origin too short for the public host is allowed only on one of the prefixes. */
  lemma {:induction false} ShortOrigin(origin: string)
    requires |origin| < |PublicHost|
    ensures IsOriginAllowed(origin) <==>
              StartsWith(origin, LocalhostPrefix) || StartsWith(origin, LoopbackPrefix) || StartsWith(origin, ServerPrefix)
  {
    if Contains(origin, PublicHost) {
      ContainsNeedsRoom(origin, PublicHost);
    }
  }

  /** Each prefix ends in ':', so the bare address with no port is refused. */
  lemma PortlessOriginsRefused(origin: string)
    requires origin + ":" in {LocalhostPrefix, LoopbackPrefix, ServerPrefix}
    ensures !IsOriginAllowed(origin)
  {
    var full := origin + ":";
    assert forall i :: 0 <= i < |origin| ==> origin[i] == full[i];
    ShortOrigin(origin);
    if full == LocalhostPrefix {
      assert origin[7] != LoopbackPrefix[7] && origin[7] != ServerPrefix[7];
    } else if full == LoopbackPrefix {
      assert origin[7] != LocalhostPrefix[7] && origin[8] != ServerPrefix[8];
    } else {
      assert origin[7] != LocalhostPrefix[7] && origin[8] != LoopbackPrefix[8];
    }
  }

  /**
   * The public host is matched as a substring: any origin with that text anywhere is
   * allowed, including one on another host that only mentions it.
   */
  lemma PublicHostAnywhereAllowed(before: string, after: string)
    ensures IsOriginAllowed(before + PublicHost + after)
  {
    ContainsAnywhere(before, PublicHost, after);
  }

  const HubPath: string := "/collaborationHub"

  /**
   * `PathString.StartsWithSegments`, case-insensitive: `path` is `segment` itself, or
   * begins with it followed by '/'.
   */
  predicate StartsWithSegments(path: string, segment: string) {
    && |segment| <= |path|
    && EqualsIgnoreCase(path[..|segment|], segment)
    && (|path| == |segment| || path[|segment|] == '/')
  }

  /**
   * `OnMessageReceived`: the query's `access_token`, when present and non-empty on a hub
   * path, becomes the request's token; otherwise the token already there is kept.
   */
  function SelectToken(current: Option<string>, accessToken: Option<string>, path: string): (token: Option<string>)
    ensures token != current ==> accessToken.Some? && accessToken.value != [] && token == accessToken
    ensures accessToken.Some? && accessToken.value != [] && StartsWithSegments(path, HubPath) ==> token == accessToken
    ensures !StartsWithSegments(path, HubPath) ==> token == current
  {
    if accessToken.Some? && accessToken.value != [] && StartsWithSegments(path, HubPath) then accessToken
    else current
  }

  /** The hub path and every path below it take the query token. */
  lemma HubPathsTakeQueryToken(token: string, current: Option<string>, rest: string)
    requires token != []
    ensures SelectToken(current, Some(token), HubPath) == Some(token)
    ensures SelectToken(current, Some(token), HubPath + "/" + rest) == Some(token)
  {
    assert (HubPath + "/" + rest)[..|HubPath|] == HubPath;
    assert (HubPath + "/" + rest)[|HubPath|] == '/';
  }

  /** The segment test ignores letter case. */
  lemma HubPathIgnoresCase()
    ensures StartsWithSegments("/COLLABORATIONHUB", HubPath)
  {
    assert ToLowerAscii("/COLLABORATIONHUB") == ToLowerAscii(HubPath);
  }

  /** A path that only shares the text of the hub path, not a whole segment, keeps its token. */
  lemma LongerSegmentKeepsToken(token: string, current: Option<string>)
    ensures SelectToken(current, Some(token), "/collaborationHubs") == current
    ensures SelectToken(current, Some(token), "/api/content") == current
  {
    assert "/collaborationHubs"[|HubPath|] == 's';
  }
}
