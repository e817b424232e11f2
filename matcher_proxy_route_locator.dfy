/**
 * `MatcherProxyRouteLocator`: the servlet path is stripped from a request
 * path before it is matched, and a matched Zuul route is turned into the
 * proxy route spec that is forwarded: the target path after the servlet,
 * global and per-route strips, the prefix those strips add up to, and the
 * retry flag.
 */
module RouteLocation {
  import opened Wrappers
  import opened JavaText
  import opened Errors
  import opened TrieEngine
  import opened RouteMatching

  /** `ZuulProperties.ZuulRoute` as the locator reads it; a null `retryable` is None. */
  datatype ZuulRoute = ZuulRoute(id: JString, path: JString, location: JString, stripPrefix: bool, retryable: Option<bool>)

  /** `ProxyRouteLocator.ProxyRouteSpec`, the route that is forwarded. */
  datatype ProxyRouteSpec = ProxyRouteSpec(id: JString, path: JString, location: JString, prefix: JString, retryable: Option<bool>)

  /** The global settings of `ZuulProperties` the locator reads. */
  datatype ZuulProperties = ZuulProperties(prefix: JString, stripPrefix: bool, retryable: Option<bool>)

  /** Whether the servlet path is stripped from `path`: it has text, is not "/" and is a prefix of `path`. */
  predicate StripsServletPath(servletPath: JString, path: JString) {
    HasText(servletPath) && servletPath != ['/'] && StartsWith(path, servletPath)
  }

  /** `getRequestPath(path)`, also the adjustment at the head of `getMatchingRoute`: the rest of `path` after the servlet path, when it is stripped. */
  function RequestPath(servletPath: JString, path: JString): (r: JString)
    ensures StripsServletPath(servletPath, path) ==> servletPath + r == path
    ensures !StripsServletPath(servletPath, path) ==> r == path
    ensures |r| <= |path| && r == path[|path| - |r|..]
  {
    if StripsServletPath(servletPath, path) then path[|servletPath|..] else path
  }

  /** `isRetryable(route)`: the route's own flag, or the global one when the route's is null. */
  function IsRetryable(properties: ZuulProperties, route: ZuulRoute): (r: Option<bool>)
    ensures route.retryable.Some? ==> r == route.retryable
    ensures route.retryable.None? ==> r == properties.retryable
  {
    if route.retryable.Some? then route.retryable else properties.retryable
  }

  /**
   * The route prefix a per-route strip removes: the route's path up to one
   * character before its first '*', when the route strips its prefix and
   * that leaves at least one character.
   */
  function RoutePrefix(route: ZuulRoute): (r: Option<JString>)
    ensures r.Some? ==> route.stripPrefix
    ensures r.Some? ==> 0 < |r.value| && |r.value| + 1 < |route.path| && route.path[|r.value| + 1] == '*'
    ensures r.Some? ==> StartsWith(route.path, r.value) && forall j :: 0 <= j <= |r.value| ==> route.path[j] != '*'
    ensures route.stripPrefix && IndexOf(route.path, ['*']) > 1 ==> r.Some?
  {
    IndexOfChar(route.path, '*');
    var index := IndexOf(route.path, ['*']) - 1;
    if route.stripPrefix && index > 0 then Some(route.path[..index]) else None
  }

  /** The target path after the global strip, which drops the global prefix's length from `path` itself. */
  function GlobalTarget(properties: ZuulProperties, servletPath: JString, path: JString): (r: JString)
    ensures |r| <= |path|
  {
    var targetPath := RequestPath(servletPath, path);
    if properties.stripPrefix && StartsWith(targetPath, properties.prefix) then path[|properties.prefix|..] else targetPath
  }

  /** `toProxyRouteSpec(path, route)`: null for a null route. */
  function ToProxyRouteSpec(properties: ZuulProperties, servletPath: JString, path: JString, route: Option<ZuulRoute>): Option<ProxyRouteSpec> {
    match route
    case None => None
    case Some(route) =>
      var targetPath := GlobalTarget(properties, servletPath, path);
      var retryable := IsRetryable(properties, route);
      match RoutePrefix(route)
      case None => Some(ProxyRouteSpec(route.id, targetPath, route.location, properties.prefix, retryable))
      case Some(routePrefix) =>
        Some(ProxyRouteSpec(route.id, RemoveFirst(targetPath, routePrefix), route.location, properties.prefix + routePrefix, retryable))
  }

  /** `getMatchingRoute(path)` over the matcher's published routes; a throwing trie lookup propagates. */
  function Locate(properties: ZuulProperties, servletPath: JString, routes: TrieView<RouteEntry<ZuulRoute>>, path: JString)
    : Result<Option<ProxyRouteSpec>, IllegalArgument>
  {
    var matcherPath := RequestPath(servletPath, path);
    match Match(routes, matcherPath)
    case Failure(e) => Failure(e)
    case Success(route) => Success(ToProxyRouteSpec(properties, servletPath, matcherPath, route))
  }

  /** A locator: its servlet path and properties are fixed, its matcher is shared and may be reset. */
  class MatcherProxyRouteLocator {
    const servletPath: JString
    const properties: ZuulProperties
    const routeMatcher: TrieRouteMatcher<ZuulRoute>

    constructor (servletPath: JString, properties: ZuulProperties, routeMatcher: TrieRouteMatcher<ZuulRoute>)
      ensures this.servletPath == servletPath && this.properties == properties && this.routeMatcher == routeMatcher
    {
      this.servletPath := servletPath;
      this.properties := properties;
      this.routeMatcher := routeMatcher;
    }

    /** `getMatchingRoute(path)`: strips the servlet path, asks the matcher, and builds the spec of its answer. */
    method GetMatchingRoute(path: JString) returns (r: Result<Option<ProxyRouteSpec>, IllegalArgument>)
      requires routeMatcher.Valid() && routeMatcher.trie.Some?
      ensures r == Locate(properties, servletPath, routeMatcher.Routes().value, path)
    {
      var matcherPath := path;
      if HasText(servletPath) && servletPath != ['/'] && StartsWith(path, servletPath) {
        matcherPath := path[|servletPath|..];
      }
      var route := routeMatcher.GetMatchingRoute(matcherPath);
      match route
      case Failure(e) =>
        r := Failure(e);
      case Success(m) =>
        r := Success(ToProxyRouteSpec(properties, servletPath, matcherPath, m));
    }
  }

  /** No matched route, no spec; a lookup that throws throws through the locator. */
  lemma NoRouteNoSpec(properties: ZuulProperties, servletPath: JString, routes: TrieView<RouteEntry<ZuulRoute>>, path: JString)
    ensures Match(routes, RequestPath(servletPath, path)) == Success(None) ==> Locate(properties, servletPath, routes, path) == Success(None)
    ensures Match(routes, RequestPath(servletPath, path)).Failure? ==>
              Locate(properties, servletPath, routes, path) == Failure(Match(routes, RequestPath(servletPath, path)).error)
    ensures Locate(properties, servletPath, routes, path).Success? <==> Match(routes, RequestPath(servletPath, path)).Success?
  {
  }

  /** The spec of a matched route keeps its id and location and takes the route's retry flag, or else the global one. */
  lemma SpecKeepsRoute(properties: ZuulProperties, servletPath: JString, path: JString, route: ZuulRoute)
    ensures ToProxyRouteSpec(properties, servletPath, path, Some(route)).Some?
    ensures ToProxyRouteSpec(properties, servletPath, path, Some(route)).value.id == route.id
    ensures ToProxyRouteSpec(properties, servletPath, path, Some(route)).value.location == route.location
    ensures ToProxyRouteSpec(properties, servletPath, path, Some(route)).value.retryable ==
              if route.retryable.Some? then route.retryable else properties.retryable
  {
  }

  /** The forwarded path is never longer than the path the matcher saw: every rule only strips. */
  lemma TargetNoLonger(properties: ZuulProperties, servletPath: JString, path: JString, route: ZuulRoute)
    ensures |ToProxyRouteSpec(properties, servletPath, path, Some(route)).value.path| <= |path|
  {
  }

  /**
   * Without a per-route strip, the spec's prefix is the global prefix and its
   * path is the path after the servlet strip, or, when the global strip
   * applies to that, `path` with as many characters dropped as the global
   * prefix has.
   */
  lemma WithoutRouteStrip(properties: ZuulProperties, servletPath: JString, path: JString, route: ZuulRoute)
    requires RoutePrefix(route).None?
    ensures ToProxyRouteSpec(properties, servletPath, path, Some(route)).value.prefix == properties.prefix
    ensures var t := RequestPath(servletPath, path);
            ToProxyRouteSpec(properties, servletPath, path, Some(route)).value.path ==
              if properties.stripPrefix && StartsWith(t, properties.prefix) then path[|properties.prefix|..] else t
  {
  }

  /**
   * With a per-route strip, the route prefix is removed once from the target
   * path and appended to the global prefix.
   */
  lemma WithRouteStrip(properties: ZuulProperties, servletPath: JString, path: JString, route: ZuulRoute)
    requires RoutePrefix(route).Some?
    ensures ToProxyRouteSpec(properties, servletPath, path, Some(route)).value.prefix == properties.prefix + RoutePrefix(route).value
    ensures ToProxyRouteSpec(properties, servletPath, path, Some(route)).value.path ==
              RemoveFirst(GlobalTarget(properties, servletPath, path), RoutePrefix(route).value)
  {
  }

  /**
   * The servlet path is stripped before matching and again from the matched
   * path, so a request that starts with it twice is forwarded with both
   * copies gone.
   */
  lemma ServletPathStrippedTwice(properties: ZuulProperties, servletPath: JString, routes: TrieView<RouteEntry<ZuulRoute>>,
                                 rest: JString, route: ZuulRoute)
    requires HasText(servletPath) && servletPath != ['/']
    requires !properties.stripPrefix && RoutePrefix(route).None?
    requires Match(routes, servletPath + rest) == Success(Some(route))
    ensures Locate(properties, servletPath, routes, servletPath + servletPath + rest).Success?
    ensures Locate(properties, servletPath, routes, servletPath + servletPath + rest).value.Some?
    ensures Locate(properties, servletPath, routes, servletPath + servletPath + rest).value.value.path == rest
  {
    ServletPathStripsRepeat(servletPath, rest);
  }

  /**
   * `getMatchingRoute` strips the servlet path and `toProxyRouteSpec`
   * strips it again from what is left, so whatever the routes and
   * settings, a request that starts with it twice loses both copies
   * before the global and per-route strips.
   */
  lemma ServletPathStripsRepeat(servletPath: JString, rest: JString)
    requires HasText(servletPath) && servletPath != ['/']
    ensures RequestPath(servletPath, servletPath + servletPath + rest) == servletPath + rest
    ensures RequestPath(servletPath, RequestPath(servletPath, servletPath + servletPath + rest)) == rest
  {
    var request := servletPath + servletPath + rest;
    assert request[..|servletPath|] == servletPath;
    assert request[|servletPath|..] == servletPath + rest;
    var once := servletPath + rest;
    assert once[..|servletPath|] == servletPath;
    assert once[|servletPath|..] == rest;
  }

  /**
   * The global strip cuts from the path the matcher saw, not from the
   * servlet-stripped target: with an empty global prefix it takes back the
   * servlet strip.
   */
  lemma EmptyGlobalStripKeepsPath(properties: ZuulProperties, servletPath: JString, path: JString)
    requires properties.stripPrefix && properties.prefix == []
    ensures GlobalTarget(properties, servletPath, path) == path
  {
    assert StartsWith(RequestPath(servletPath, path), properties.prefix);
  }

  /** "/uaa/" + `**`, a wildcard route path. */
  const UaaPattern: JString := ['/', 'u', 'a', 'a', '/', '*', '*']
  /** "/uaa". */
  const UaaPrefix: JString := ['/', 'u', 'a', 'a']
  /** "/" + `**`: the character before its '*' is its first, so it has no route prefix. */
  const RootPattern: JString := ['/', '*', '*']

  /** The route prefix of a stripping "/uaa/" + `**` route is "/uaa"; a stripping "/" + `**` route has none, nor has a route that does not strip. */
  lemma RoutePrefixExamples(id: JString, location: JString, retryable: Option<bool>)
    ensures RoutePrefix(ZuulRoute(id, UaaPattern, location, true, retryable)) == Some(UaaPrefix)
    ensures RoutePrefix(ZuulRoute(id, RootPattern, location, true, retryable)) == None
    ensures RoutePrefix(ZuulRoute(id, UaaPattern, location, false, retryable)) == None
  {
    IndexOfChar(UaaPattern, '*');
    assert UaaPattern[5] == '*';
    assert IndexOf(UaaPattern, ['*']) == 5;
    assert UaaPattern[..4] == UaaPrefix;
    IndexOfChar(RootPattern, '*');
    assert RootPattern[1] == '*';
    assert IndexOf(RootPattern, ['*']) == 1;
  }

  /** "/authorize". */
  const Authorize: JString := ['/', 'a', 'u', 't', 'h', 'o', 'r', 'i', 'z', 'e']

  /**
   * A stripping "/uaa/" + `**` route forwards "/uaa/authorize" as
   * "/authorize" and adds "/uaa" to the (here empty) global prefix.
   */
  lemma RouteStripExample(id: JString, location: JString)
    ensures ToProxyRouteSpec(ZuulProperties([], false, None), [], UaaAuthorize, Some(ZuulRoute(id, UaaPattern, location, true, None)))
            == Some(ProxyRouteSpec(id, Authorize, location, UaaPrefix, None))
  {
    RoutePrefixExamples(id, location, None);
    assert UaaAuthorize[0..4] == UaaPrefix;
    assert IndexOf(UaaAuthorize, UaaPrefix) == 0;
    assert UaaAuthorize[4..] == Authorize;
    assert !HasText([]);
    assert GlobalTarget(ZuulProperties([], false, None), [], UaaAuthorize) == UaaAuthorize;
    assert RemoveFirst(UaaAuthorize, UaaPrefix) == UaaAuthorize[..0] + UaaAuthorize[4..];
    var none: JString := [];
    assert none + UaaPrefix == UaaPrefix;
    var route := ZuulRoute(id, UaaPattern, location, true, None);
    var spec := ToProxyRouteSpec(ZuulProperties([], false, None), [], UaaAuthorize, Some(route));
    assert RoutePrefix(route) == Some(UaaPrefix);
    assert spec.Some?;
    assert spec.value.path == Authorize;
    assert spec.value.prefix == UaaPrefix;
    assert spec.value.retryable == None;
  }
}
