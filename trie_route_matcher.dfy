/**
 * `TrieRouteMatcher`: route patterns stored in a trie under their key (the
 * pattern without one trailing `**`), each with its original pattern and a
 * wildcard flag; a request path is matched against the value of its
 * longest stored prefix only.
 */
module RouteMatching {
  import opened Wrappers
  import opened JavaText
  import opened Errors
  import opened TrieContract
  import opened TrieEngine
  import opened TrieLaws
  import opened AbstractTries

  /** `WILDCARD`: the suffix of a wildcard pattern. */
  const Wildcard: JString := ['*', '*']

  /** `ProxyRouteSpecEntry`: the original pattern, the route it stands for, and whether it is a wildcard. */
  datatype RouteEntry<R> = RouteEntry(path: JString, spec: R, wildcard: bool)

  /** `isWildcard(pattern)`. */
  predicate IsWildcard(pattern: JString) {
    EndsWith(pattern, Wildcard)
  }

  /** `path(pattern)`: the trie key of a pattern, which drops one trailing `**` and keeps any other pattern. */
  function RouteKey(pattern: JString): (k: JString)
    ensures IsWildcard(pattern) ==> k + Wildcard == pattern
    ensures !IsWildcard(pattern) ==> k == pattern
  {
    if IsWildcard(pattern) then pattern[..|pattern| - |Wildcard|] else pattern
  }

  /** `matchesExact(pathSpec, path)`. */
  predicate MatchesExact(pathSpec: JString, path: JString) {
    pathSpec == path
  }

  /** The entry `setRoutes` stores for one route. */
  function EntryOf<R>(route: (JString, R)): RouteEntry<R> {
    RouteEntry(route.0, route.1, IsWildcard(route.0))
  }

  /** The decision of `getMatchingRoute` on the longest-prefix hit: a wildcard hit, or an exact hit on the request path itself. */
  function Accept<R>(path: JString, matching: Option<RouteEntry<R>>): Option<R> {
    match matching
    case None => None
    case Some(e) => if !e.wildcard && !MatchesExact(path, e.path) then None else Some(e.spec)
  }

  /**
   * The trie that `setRoutes` builds from the routes in the map's iteration
   * order: one `put` per route into a new trie of the strategy, stopping
   * at the first `put` that throws.
   */
  function Build<R>(s: Strategy, routes: seq<(JString, R)>): (r: (Outcome<IllegalArgument>, TrieView<RouteEntry<R>>))
    ensures r.1.strategy == s
    decreases |routes|
  {
    if routes == [] then (Pass, TrieView(s, {}, map[]))
    else
      var prev := Build(s, routes[..|routes| - 1]);
      if prev.0.Fail? then prev
      else
        var last := routes[|routes| - 1];
        PutResult(prev.1, RouteKey(last.0), Some(EntryOf(last)))
  }

  /** `getMatchingRoute(path)` on a published trie. */
  function Match<R>(v: TrieView<RouteEntry<R>>, path: JString): Result<Option<R>, IllegalArgument> {
    match PrefixResult(v, path)
    case Failure(e) => Failure(e)
    case Success(m) => Success(Accept(path, m))
  }

  /** Every trie that `setRoutes` builds is consistent. */
  lemma {:induction false} BuildConsistent<R>(s: Strategy, routes: seq<(JString, R)>)
    ensures Consistent(Build(s, routes).1)
    decreases |routes|
  {
    if routes != [] {
      var prev := Build(s, routes[..|routes| - 1]);
      BuildConsistent(s, routes[..|routes| - 1]);
      if prev.0.Pass? {
        var last := routes[|routes| - 1];
        PutPreservesConsistent(prev.1, RouteKey(last.0), Some(EntryOf(last)));
      }
    }
  }

  /** A built trie fails exactly when its last `put` failed; otherwise every earlier prefix of the routes was built too. */
  lemma {:induction false} BuildPrefixPasses<R>(s: Strategy, routes: seq<(JString, R)>, n: nat)
    requires n <= |routes| && Build(s, routes).0 == Pass
    ensures Build(s, routes[..n]).0 == Pass
    decreases |routes|
  {
    if n < |routes| {
      assert routes[..|routes| - 1][..n] == routes[..n];
      BuildPrefixPasses(s, routes[..|routes| - 1], n);
    } else {
      assert routes[..n] == routes;
    }
  }

  /** A route whose key is empty (the pattern "" or "**") makes `setRoutes` throw, whatever the strategy. */
  lemma {:induction false} EmptyRouteKeyFails<R>(s: Strategy, routes: seq<(JString, R)>, i: nat)
    requires i < |routes| && RouteKey(routes[i].0) == []
    ensures Build(s, routes).0.Fail?
    decreases |routes|
  {
    var init := routes[..|routes| - 1];
    if i < |init| {
      assert init[i] == routes[i];
      EmptyRouteKeyFails(s, init, i);
    }
  }

  /** No route pattern normalises to the empty key. */
  predicate NoEmptyKey<R>(routes: seq<(JString, R)>) {
    forall i :: 0 <= i < |routes| ==> RouteKey(routes[i].0) != []
  }

  /** No route key is empty exactly when none of the earlier ones is and the last one is not. */
  lemma NoEmptyKeySnoc<R>(routes: seq<(JString, R)>)
    requires routes != []
    ensures NoEmptyKey(routes) <==> NoEmptyKey(routes[..|routes| - 1]) && RouteKey(routes[|routes| - 1].0) != []
  {
    var init := routes[..|routes| - 1];
    assert forall i :: 0 <= i < |init| ==> init[i] == routes[i];
  }

  /** With a hash-map strategy `setRoutes` succeeds exactly when no route key is empty. */
  lemma {:induction false} HashedBuildSucceeds<R>(s: Strategy, routes: seq<(JString, R)>)
    requires !s.CharArrayStrategy?
    ensures Build(s, routes).0 == Pass <==> NoEmptyKey(routes)
    decreases |routes|
  {
    if routes != [] {
      var init := routes[..|routes| - 1];
      var last := routes[|routes| - 1];
      HashedBuildSucceeds(s, init);
      NoEmptyKeySnoc(routes);
      if Build(s, init).0 == Pass {
        HashedTrieMeetsInterface(Build(s, init).1, RouteKey(last.0), Some(EntryOf(last)));
      }
    }
  }

  /** The entries the routes leave once every `put` has returned: later routes overwrite earlier ones with the same key. */
  function Entries<R>(routes: seq<(JString, R)>): map<JString, RouteEntry<R>>
    decreases |routes|
  {
    if routes == [] then map[]
    else
      var last := routes[|routes| - 1];
      Entries(routes[..|routes| - 1])[RouteKey(last.0) := EntryOf(last)]
  }

  /** A build that succeeds holds exactly those entries. */
  lemma {:induction false} BuildEntries<R>(s: Strategy, routes: seq<(JString, R)>)
    requires Build(s, routes).0 == Pass
    ensures Build(s, routes).1.contents == Entries(routes)
    decreases |routes|
  {
    if routes != [] {
      BuildEntries(s, routes[..|routes| - 1]);
    }
  }

  /** The keys of the entries are the routes' keys. */
  lemma {:induction false} EntriesKeys<R>(routes: seq<(JString, R)>, k: JString)
    ensures k in Entries(routes) <==> exists i :: 0 <= i < |routes| && RouteKey(routes[i].0) == k
    decreases |routes|
  {
    if routes != [] {
      var n := |routes| - 1;
      var init := routes[..n];
      assert |init| == n;
      EntriesKeys(init, k);
      var last := RouteKey(routes[n].0);
      if k != last {
        if k in Entries(init) {
          var i :| 0 <= i < n && RouteKey(init[i].0) == k;
          assert routes[i] == init[i];
        }
        if exists i :: 0 <= i < |routes| && RouteKey(routes[i].0) == k {
          var i :| 0 <= i < |routes| && RouteKey(routes[i].0) == k;
          assert i != n;
          assert init[i] == routes[i];
        }
      }
    }
  }

  /** Under each route's key the entries hold the last route with that key. */
  lemma {:induction false} EntriesStoreLast<R>(routes: seq<(JString, R)>, i: nat)
    requires i < |routes|
    requires forall j :: i < j < |routes| ==> RouteKey(routes[j].0) != RouteKey(routes[i].0)
    ensures Lookup(Entries(routes), RouteKey(routes[i].0)) == Some(EntryOf(routes[i]))
    decreases |routes|
  {
    var init := routes[..|routes| - 1];
    if i < |init| {
      assert init[i] == routes[i];
      assert forall j :: i < j < |init| ==> init[j] == routes[j];
      EntriesStoreLast(init, i);
    }
  }

  /** The keys of a built trie are the routes' keys. */
  lemma BuildKeys<R>(s: Strategy, routes: seq<(JString, R)>, k: JString)
    requires Build(s, routes).0 == Pass
    ensures k in Build(s, routes).1.contents <==> exists i :: 0 <= i < |routes| && RouteKey(routes[i].0) == k
  {
    BuildEntries(s, routes);
    EntriesKeys(routes, k);
  }

  /** A built trie holds, under each route's key, the entry of the last route with that key. */
  lemma BuildStoresEach<R>(s: Strategy, routes: seq<(JString, R)>, i: nat)
    requires Build(s, routes).0 == Pass && i < |routes|
    requires forall j :: i < j < |routes| ==> RouteKey(routes[j].0) != RouteKey(routes[i].0)
    ensures Lookup(Build(s, routes).1.contents, RouteKey(routes[i].0)) == Some(EntryOf(routes[i]))
  {
    BuildEntries(s, routes);
    EntriesStoreLast(routes, i);
  }

  /**
   * The longest stored prefix decides: when the prefix lookup does not
   * throw, the match is the route of the longest stored prefix of the
   * path if that entry is a wildcard or its pattern is the path itself,
   * and nothing otherwise, even when a shorter wildcard would match.
   */
  lemma LongestOnly<R>(v: TrieView<RouteEntry<R>>, path: JString, j: nat)
    requires PrefixResult(v, path).Success?
    requires LongestStoredPrefix(v.contents, path, |path|, j)
    ensures Match(v, path) == Success(Accept(path, Some(v.contents[path[..j]])))
  {
    PrefixValueMeaning(v.contents, path, |path|);
  }

  /** With no stored prefix, no route matches. */
  lemma NoPrefixNoMatch<R>(v: TrieView<RouteEntry<R>>, path: JString)
    requires PrefixResult(v, path).Success?
    requires forall j :: 0 <= j <= |path| ==> path[..j] !in v.contents
    ensures Match(v, path) == Success(None)
  {
    PrefixValueMeaning(v.contents, path, |path|);
  }

  /**
   * Round trip: querying a route's own key finds that route, as long as no
   * later route has the same key. For an exact route the key is the
   * pattern itself.
   */
  lemma RoundTrip<R>(s: Strategy, routes: seq<(JString, R)>, i: nat)
    requires Build(s, routes).0 == Pass && i < |routes|
    requires forall j :: i < j < |routes| ==> RouteKey(routes[j].0) != RouteKey(routes[i].0)
    ensures Match(Build(s, routes).1, RouteKey(routes[i].0)) == Success(Some(routes[i].1))
    ensures !IsWildcard(routes[i].0) ==> Match(Build(s, routes).1, routes[i].0) == Success(Some(routes[i].1))
  {
    var v := Build(s, routes).1;
    var k := RouteKey(routes[i].0);
    BuildStoresEach(s, routes, i);
    BuildConsistent(s, routes);
    TrieLaws.PrefixOfStoredKey(v, k);
  }

  /** The pattern "/uaa/" of the matcher's tests. */
  const Uaa: JString := ['/', 'u', 'a', 'a', '/']
  /** The key "/account/" of the wildcard pattern "/account/" + `**` of the matcher's tests. */
  const Account: JString := ['/', 'a', 'c', 'c', 'o', 'u', 'n', 't', '/']

  /** The request paths of the matcher's tests. */
  const Accounts: JString := ['/', 'a', 'c', 'c', 'o', 'u', 'n', 't', 's', '/']
  const AccountDetails: JString := Account + ['d', 'e', 't', 'a', 'i', 'l', 's']
  const UaaAuthorize: JString := Uaa + ['a', 'u', 't', 'h', 'o', 'r', 'i', 'z', 'e']
  const UaaBare: JString := ['/', 'u', 'a', 'a']

  /** The two routes of the matcher's tests, in one iteration order. */
  function SampleRoutes<R>(uaa: R, account: R): seq<(JString, R)> {
    [(Uaa, uaa), (Account + Wildcard, account)]
  }

  /** The entries the sample routes build: the exact "/uaa/" under itself and the wildcard pattern under "/account/". */
  function SampleEntries<R>(uaa: R, account: R): map<JString, RouteEntry<R>> {
    map[Uaa := RouteEntry(Uaa, uaa, false), Account := RouteEntry(Account + Wildcard, account, true)]
  }

  lemma SampleBuild<R>(s: Strategy, uaa: R, account: R)
    requires !s.CharArrayStrategy?
    ensures Build(s, SampleRoutes(uaa, account)).0 == Pass
    ensures Build(s, SampleRoutes(uaa, account)).1.contents == SampleEntries(uaa, account)
  {
    var routes: seq<(JString, R)> := SampleRoutes(uaa, account);
    assert (Account + Wildcard)[|Account + Wildcard| - 2..] == Wildcard;
    assert RouteKey(Account + Wildcard) == Account;
    assert Uaa[|Uaa| - 2..] != Wildcard by { assert Uaa[|Uaa| - 2..][1] == '/'; }
    assert EntryOf(routes[0]) == RouteEntry(Uaa, uaa, false);
    assert EntryOf(routes[1]) == RouteEntry(Account + Wildcard, account, true);
    var one := routes[..1];
    assert one[..0] == [] && one[0] == routes[0];
    var v0 := TrieView(s, {}, map[]);
    HashedTrieMeetsInterface(v0, Uaa, Some(EntryOf(routes[0])));
    assert RouteKey(one[0].0) == Uaa;
    assert Build(s, one) == PutResult(v0, Uaa, Some(EntryOf(routes[0])));
    var v1 := Build(s, one).1;
    assert Build(s, one).0 == Pass;
    assert v1.contents == map[Uaa := RouteEntry(Uaa, uaa, false)];
    assert routes[..|routes| - 1] == one;
    HashedTrieMeetsInterface(v1, Account, Some(EntryOf(routes[1])));
  }

  /** With a hash-map strategy, matching is the decision on the longest stored prefix of the entries. */
  lemma HashedMatch<R>(v: TrieView<RouteEntry<R>>, path: JString)
    requires !v.strategy.CharArrayStrategy? && path != []
    ensures Match(v, path) == Success(Accept(path, PrefixValue(v.contents, path, |path|)))
  {
    HashedTrieMeetsInterface(v, path, None);
  }

  /** "/accounts/" has no stored prefix among the sample entries. */
  lemma MissesAccounts<R>(m: map<JString, RouteEntry<R>>, uaa: R, account: R)
    requires m == SampleEntries(uaa, account)
    ensures PrefixValue(m, Accounts, |Accounts|) == None
  {
    var p := Accounts;
    forall j | 0 <= j <= |p| ensures p[..j] !in m {
      if j == 9 { assert p[..j][8] != Account[8]; }
      if j == 5 { assert p[..j][1] != Uaa[1]; }
    }
    PrefixValueMeaning(m, p, |p|);
  }

  /** The longest stored prefix of "/account/details" is "/account/". */
  lemma FindsAccountDetails<R>(m: map<JString, RouteEntry<R>>, uaa: R, account: R)
    requires m == SampleEntries(uaa, account)
    ensures PrefixValue(m, AccountDetails, |AccountDetails|) == Some(m[Account])
  {
    var p := AccountDetails;
    assert p[..9] == Account;
    assert LongestStoredPrefix(m, p, |p|, 9);
    PrefixValueMeaning(m, p, |p|);
  }

  /** The longest stored prefix of "/uaa/authorize" is the exact "/uaa/". */
  lemma FindsUaaAuthorize<R>(m: map<JString, RouteEntry<R>>, uaa: R, account: R)
    requires m == SampleEntries(uaa, account)
    ensures PrefixValue(m, UaaAuthorize, |UaaAuthorize|) == Some(m[Uaa])
  {
    var p := UaaAuthorize;
    assert p[..5] == Uaa;
    assert p[..9] != Account by { assert p[..9][1] != Account[1]; }
    assert LongestStoredPrefix(m, p, |p|, 5);
    PrefixValueMeaning(m, p, |p|);
  }

  /** "/uaa" is too short for any stored prefix; "/uaa/" is its own. */
  lemma FindsUaa<R>(m: map<JString, RouteEntry<R>>, uaa: R, account: R)
    requires m == SampleEntries(uaa, account)
    ensures PrefixValue(m, UaaBare, |UaaBare|) == None
    ensures PrefixValue(m, Uaa, |Uaa|) == Some(m[Uaa])
  {
    PrefixValueMeaning(m, UaaBare, |UaaBare|);
    assert Uaa[..|Uaa|] == Uaa;
  }

  /**
   * The matcher's tests, for any hash-map strategy: "/accounts/" and
   * "/uaa/authorize" and "/uaa" match nothing, "/account/details" falls
   * under the wildcard route and "/uaa/" matches its exact route.
   */
  lemma SampleMatches<R>(s: Strategy, uaa: R, account: R)
    requires !s.CharArrayStrategy?
    ensures Match(Build(s, SampleRoutes(uaa, account)).1, Accounts) == Success(None)
    ensures Match(Build(s, SampleRoutes(uaa, account)).1, AccountDetails) == Success(Some(account))
    ensures Match(Build(s, SampleRoutes(uaa, account)).1, UaaAuthorize) == Success(None)
    ensures Match(Build(s, SampleRoutes(uaa, account)).1, Uaa) == Success(Some(uaa))
    ensures Match(Build(s, SampleRoutes(uaa, account)).1, UaaBare) == Success(None)
  {
    SampleBuild(s, uaa, account);
    var v := Build(s, SampleRoutes(uaa, account)).1;
    var m := v.contents;
    MissesAccounts(m, uaa, account);
    HashedMatch(v, Accounts);
    FindsAccountDetails(m, uaa, account);
    HashedMatch(v, AccountDetails);
    FindsUaaAuthorize(m, uaa, account);
    HashedMatch(v, UaaAuthorize);
    assert UaaAuthorize != Uaa by { assert |UaaAuthorize| != |Uaa|; }
    FindsUaa(m, uaa, account);
    HashedMatch(v, Uaa);
    HashedMatch(v, UaaBare);
  }

  /** A `TrieRouteMatcher`: the trie strategy of its supplier and the published trie, null until `setRoutes`. */
  class TrieRouteMatcher<R> {
    /** `trieSupplier`: the strategy of every trie it creates. */
    const strategy: Strategy
    /** `trie`: the published trie. */
    var trie: Option<AbstractTrie<RouteEntry<R>>>
    /** The published trie object and its nodes. */
    ghost var Repr: set<object>

    ghost predicate Valid()
      reads this, Repr
    {
      && this !in Repr
      && (trie.None? ==> Repr == {})
      && (trie.Some? ==>
            && trie.value in Repr
            && trie.value.Repr <= Repr
            && Repr == {trie.value} + trie.value.Repr
            && trie.value.Valid()
            && trie.value.strategy == strategy)
    }

    /** The routes the matcher answers from: the published trie's state. */
    ghost function Routes(): Option<TrieView<RouteEntry<R>>>
      reads this, Repr
      requires Valid()
    {
      if trie.None? then None else Some(trie.value.View())
    }

    /** A matcher whose supplier creates tries of `strategy`; nothing is published yet. */
    constructor (strategy: Strategy)
      ensures Valid() && fresh(Repr)
      ensures this.strategy == strategy && Routes() == None
    {
      this.strategy := strategy;
      trie := None;
      Repr := {};
    }

    /**
     * `setRoutes(routes)`: fills a new trie, one `put` per route, and
     * publishes it only when every `put` returned; when one throws, the
     * previously published trie stays.
     */
    method SetRoutes(routes: seq<(JString, R)>) returns (r: Outcome<IllegalArgument>)
      requires Valid()
      modifies this
      ensures Valid() && fresh(Repr - old(Repr))
      ensures r == Build(strategy, routes).0
      ensures r.Pass? ==> Routes() == Some(Build(strategy, routes).1)
      ensures r.Fail? ==> Routes() == old(Routes()) && Repr == old(Repr)
    {
      var t := new AbstractTrie(strategy);
      r := PutAll(t, routes);
      if r.Pass? {
        trie := Some(t);
        Repr := {t} + t.Repr;
      }
    }

    /** `getMatchingRoute(path)`: requires a published trie (the reference starts out null). */
    method GetMatchingRoute(path: JString) returns (r: Result<Option<R>, IllegalArgument>)
      requires Valid() && trie.Some?
      ensures r == Match(Routes().value, path)
    {
      var matching := trie.value.Prefix(path);
      match matching
      case Failure(e) =>
        r := Failure(e);
      case Success(m) =>
        r := Success(Accept(path, m));
    }
  }

  /** The loop of `setRoutes`: one `put` per route into a new trie `t`, stopping at the first that throws. */
  method PutAll<R>(t: AbstractTrie<RouteEntry<R>>, routes: seq<(JString, R)>) returns (r: Outcome<IllegalArgument>)
    requires t.Valid() && t.View() == TrieView(t.strategy, {}, map[])
    modifies t, t.Repr
    ensures t.Valid() && fresh(t.Repr - old(t.Repr))
    ensures (r, t.View()) == Build(t.strategy, routes)
  {
    var i := 0;
    while i < |routes|
      invariant i <= |routes|
      invariant t.Valid() && fresh(t.Repr - old(t.Repr))
      invariant Build(t.strategy, routes[..i]) == (Pass, t.View())
    {
      var route := routes[i];
      assert routes[..i + 1][..i] == routes[..i] && routes[..i + 1][i] == route;
      var res := t.Put(RouteKey(route.0), Some(EntryOf(route)));
      if res.Fail? {
        BuildStopsAtFailure(t.strategy, routes, i + 1);
        return res;
      }
      i := i + 1;
    }
    assert routes[..i] == routes;
    r := Pass;
  }

  /** Once a `put` fails, the build stops: later routes change nothing. */
  lemma {:induction false} BuildStopsAtFailure<R>(s: Strategy, routes: seq<(JString, R)>, n: nat)
    requires 0 < n <= |routes| && Build(s, routes[..n]).0.Fail?
    ensures Build(s, routes) == Build(s, routes[..n])
    decreases |routes|
  {
    if n < |routes| {
      assert routes[..|routes| - 1][..n] == routes[..n];
      BuildStopsAtFailure(s, routes[..|routes| - 1], n);
    } else {
      assert routes[..n] == routes;
    }
  }
}
