# Trie route matcher for Zuul, modelled in Dafny

The starter replaces Zuul's linear scan over route patterns with a trie
lookup. The model covers three parts of it, each in its own modules.

- **The trie layer** (`Trie`, `AbstractTrie`, the three node kinds).
  - A trie maps non-empty keys to values. Storing null under a key removes it.
  - `AbstractTrie` walks the key character by character from a root node. It creates nodes on `put`, reads the node at the end of the key on `get`, and keeps the deepest valued node on `prefix`.
  - The root is created by the first `put`.
  - The node kind is fixed by the trie's factory:
    - character-array nodes (`CharArrayTrieNode`) keep 0xffff child slots, so they throw `IllegalArgumentException` for U+FFFF;
    - hash-map nodes (`HashMapTrieNode`, `CharHashMapTrieNode`) accept every character.
- **The route matcher** (`TrieRouteMatcher`).
  - `setRoutes` stores every route pattern in a new trie, under the pattern with one trailing `**` removed.
  - It publishes the new trie once every `put` has returned.
  - `getMatchingRoute(path)` looks up the longest stored prefix of the path. It answers that route when the route is a wildcard, or when its pattern equals the path. Otherwise it answers nothing.
- **The route locator** (`MatcherProxyRouteLocator`).
  - It strips the servlet path, asks the matcher, and turns the matched route into the spec that is forwarded.
  - Building that spec applies the servlet strip once more, then the global prefix strip, then the per-route prefix strip, and settles the retry flag.

The modules:

- `JavaText`: Java strings as UTF-16 code units, and the few `String` and `StringUtils` operations used.
- `Errors`: the reasons for an `IllegalArgumentException`.
- `Wrappers`: `Option`, `Result` and `Outcome`.
- `TrieContract`: the `Trie` interface as a contract over a map of entries.
- `TrieNodeBase`, `CharArrayNodes`, `HashMapNodes`, `CharHashMapNodes`: the node classes.
- `TrieEngine`: the walks of `AbstractTrie` over a ghost tree of nodes, proved against view-level result functions.
- `TrieLaws`: laws of those result functions.
- `AbstractTries`: the `AbstractTrie` class.
- `RouteMatching`: `TrieRouteMatcher`.
- `RouteLocation`: `MatcherProxyRouteLocator`.

The trie's abstract state is a `TrieView`: the strategy, the set of paths that have a node, and the entries. The paths matter for the character-array strategy. A walk over existing nodes throws at a character the node cannot hold. A walk that has already left the tree returns null. Because of this, a `put` that creates nodes can turn a later `get` of another key from null into an exception. `TrieLaws.DensePutChangesOtherGet` proves a concrete case.

Some behaviours of the code are modelled as written and stated as lemmas:

- The global prefix strip cuts from `path`, not from the servlet-stripped `targetPath` (MatcherProxyRouteLocator.java:101-102).
- The servlet path is stripped both before matching and again when the spec is built (`RouteLocation.ServletPathStripsRepeat`), and an empty global prefix with the global strip on takes the second strip back (`RouteLocation.EmptyGlobalStripKeepsPath`).
- A pattern `**` or `""` has the empty key, so `setRoutes` throws (`RouteMatching.EmptyRouteKeyFails`).
- Only the longest stored prefix is consulted. An exact route that is a prefix of the path hides a shorter wildcard route (`RouteMatching.LongestOnly`).

## Model

| member | source | states |
|---|---|---|
| JavaText.IndexOf | src/main/java/io/jmnarloch/spring/cloud/zuul/route/MatcherProxyRouteLocator.java:106 | `indexOf` returns the first index at which the string occurs, or -1 when it occurs nowhere |
| JavaText.IndexOfChar | src/main/java/io/jmnarloch/spring/cloud/zuul/route/MatcherProxyRouteLocator.java:106 | `indexOf` of one character finds that character, no earlier index holds it, and it is -1 exactly when no index holds it |
| JavaText.RemoveFirst | src/main/java/io/jmnarloch/spring/cloud/zuul/route/MatcherProxyRouteLocator.java:109 | removing the first occurrence of a literal leaves the string unchanged when it does not occur, and otherwise cuts out exactly the first occurrence |
| JavaText.StartsWith | src/main/java/io/jmnarloch/spring/cloud/zuul/route/MatcherProxyRouteLocator.java:70 | definition of `startsWith`: the string begins with the given prefix |
| JavaText.EndsWith | src/main/java/io/jmnarloch/spring/cloud/zuul/matcher/TrieRouteMatcher.java:96 | definition of `endsWith`: the string ends with the given suffix |
| JavaText.IsWhitespace | src/main/java/io/jmnarloch/spring/cloud/zuul/route/MatcherProxyRouteLocator.java:69 | definition of `Character.isWhitespace`, the characters `hasText` ignores |
| JavaText.HasText | src/main/java/io/jmnarloch/spring/cloud/zuul/route/MatcherProxyRouteLocator.java:69 | definition of `StringUtils.hasText`: the string holds a character other than whitespace |
| TrieContract.Lookup | src/main/java/io/jmnarloch/spring/cloud/zuul/trie/Trie.java:58-65 | the value of a key is present exactly when the key has an entry, and it is that entry |
| TrieContract.Assign | src/main/java/io/jmnarloch/spring/cloud/zuul/trie/Trie.java:39-47 | storing a value under a key makes a lookup of that key return it, leaves every other key alone, and storing null removes the key |
| TrieContract.PrefixValueMeaning | src/main/java/io/jmnarloch/spring/cloud/zuul/trie/Trie.java:67-74 | `prefix` is null exactly when no prefix of the key is stored; otherwise it is the value of the longest stored prefix |
| TrieContract.EmptyKeyRejected | src/main/java/io/jmnarloch/spring/cloud/zuul/trie/Trie.java:39-83 | every keyed operation of the interface throws for the empty key and for no other key |
| TrieContract.PutThenGet | src/main/java/io/jmnarloch/spring/cloud/zuul/trie/Trie.java:39-65 | after `put(k, v)`, `get(k)` is `v`, other keys keep their values, and `put` returns the previous value |
| TrieContract.PutSize | src/main/java/io/jmnarloch/spring/cloud/zuul/trie/Trie.java:32-47 | `size` grows by one for a new key with a value, shrinks by one when null replaces a value, and otherwise stays the same |
| TrieContract.RemoveThenGet | src/main/java/io/jmnarloch/spring/cloud/zuul/trie/Trie.java:76-83 | `remove` returns the removed value, leaves the key absent and other keys untouched, and changes nothing for an absent key |
| TrieContract.RemoveSize | src/main/java/io/jmnarloch/spring/cloud/zuul/trie/Trie.java:32-37 | `remove` shrinks `size` by one exactly when the key had an entry |
| TrieContract.IsEmptyIffSizeZero | src/main/java/io/jmnarloch/spring/cloud/zuul/trie/Trie.java:25-37 | `isEmpty()` holds exactly when `size()` is zero |
| TrieContract.ContainsIffGet | src/main/java/io/jmnarloch/spring/cloud/zuul/trie/Trie.java:49-65 | `containsKey(k)` is `get(k) != null` |
| TrieContract.PrefixOfStoredKey | src/main/java/io/jmnarloch/spring/cloud/zuul/trie/Trie.java:58-74 | for a stored key, `prefix` finds the key itself and agrees with `get` |
| TrieContract.IsEmpty | src/main/java/io/jmnarloch/spring/cloud/zuul/trie/Trie.java:25-30 | definition of `isEmpty()`; `TrieContract.IsEmptyIffSizeZero` relates it to `size()` |
| TrieContract.Size | src/main/java/io/jmnarloch/spring/cloud/zuul/trie/Trie.java:32-37 | definition of `size()` as the number of entries; `TrieContract.PutSize` and `TrieContract.RemoveSize` state how it changes |
| TrieContract.Put | src/main/java/io/jmnarloch/spring/cloud/zuul/trie/Trie.java:39-47 | definition of `put` with its previous value; `TrieContract.PutThenGet` and `TrieContract.PutSize` state its laws |
| TrieContract.ContainsKey | src/main/java/io/jmnarloch/spring/cloud/zuul/trie/Trie.java:49-56 | definition of `containsKey`; `TrieContract.ContainsIffGet` ties it to `get` |
| TrieContract.Get | src/main/java/io/jmnarloch/spring/cloud/zuul/trie/Trie.java:58-65 | definition of `get`; `TrieContract.PutThenGet` and `TrieContract.RemoveThenGet` state its laws |
| TrieContract.Prefix | src/main/java/io/jmnarloch/spring/cloud/zuul/trie/Trie.java:67-74 | definition of `prefix`; `TrieContract.PrefixValueMeaning` states its meaning |
| TrieContract.Remove | src/main/java/io/jmnarloch/spring/cloud/zuul/trie/Trie.java:76-83 | definition of `remove` with the removed value; `TrieContract.RemoveThenGet` and `TrieContract.RemoveSize` state its laws |
| TrieNodeBase.AbstractTrieNode.constructor | src/main/java/io/jmnarloch/spring/cloud/zuul/trie/AbstractTrieNode.java:23-33 | a new node has a null value and size 0 |
| TrieNodeBase.AbstractTrieNode.SetSize | src/main/java/io/jmnarloch/spring/cloud/zuul/trie/AbstractTrieNode.java:38-49 | afterwards `getSize()` is the new size and the value is unchanged |
| TrieNodeBase.AbstractTrieNode.SetValue | src/main/java/io/jmnarloch/spring/cloud/zuul/trie/AbstractTrieNode.java:54-65 | afterwards `getValue()` is the new value and the size is unchanged |
| TrieNodeBase.AbstractTrieNode.GetSize | src/main/java/io/jmnarloch/spring/cloud/zuul/trie/AbstractTrieNode.java:46-49 | definition of `getSize()`; `TrieNodeBase.AbstractTrieNode.SetSize` states what it returns after `setSize` |
| TrieNodeBase.AbstractTrieNode.GetValue | src/main/java/io/jmnarloch/spring/cloud/zuul/trie/AbstractTrieNode.java:62-65 | definition of `getValue()`; `TrieNodeBase.AbstractTrieNode.SetValue` states what it returns after `setValue` |
| TrieNodeBase.AbstractTrieNode.HasValue | src/main/java/io/jmnarloch/spring/cloud/zuul/trie/AbstractTrieNode.java:70-73 | definition of `hasValue()`: the value is non-null |
| CharArrayNodes.CharArrayTrieNode.constructor | src/main/java/io/jmnarloch/spring/cloud/zuul/trie/CharArrayTrieNode.java:47-54 | a node of an in-range capacity has that many empty child slots, a null value and size 0 |
| CharArrayNodes.CharArrayTrieNode.Default | src/main/java/io/jmnarloch/spring/cloud/zuul/trie/CharArrayTrieNode.java:38-40 | the default node has 0xffff empty child slots |
| CharArrayNodes.CharArrayTrieNode.Create | src/main/java/io/jmnarloch/spring/cloud/zuul/trie/CharArrayTrieNode.java:47-54 | the capacity constructor throws exactly when the capacity is outside [0, 0xffff], and otherwise yields a fresh empty node of that capacity |
| CharArrayNodes.CharArrayTrieNode.GetIndex | src/main/java/io/jmnarloch/spring/cloud/zuul/trie/CharArrayTrieNode.java:87-92 | a character's slot is its code, and the node throws exactly for a code at or above its capacity |
| CharArrayNodes.CharArrayTrieNode.GetNext | src/main/java/io/jmnarloch/spring/cloud/zuul/trie/CharArrayTrieNode.java:67-70 | `getNext(c)` is the content of slot `c`, and it throws exactly when `getIndex` does |
| CharArrayNodes.CharArrayTrieNode.SetNext | src/main/java/io/jmnarloch/spring/cloud/zuul/trie/CharArrayTrieNode.java:59-62 | slot `c` gets the child and no other slot changes; for an out-of-range code it throws and changes nothing |
| CharArrayNodes.CharArrayTrieNode.RemoveNext | src/main/java/io/jmnarloch/spring/cloud/zuul/trie/CharArrayTrieNode.java:75-78 | slot `c` is emptied and no other slot changes; for an out-of-range code it throws and changes nothing |
| CharArrayNodes.DefaultCapacityExcludesFFFF | src/main/java/io/jmnarloch/spring/cloud/zuul/trie/CharArrayTrieNode.java:28-40 | at the default capacity every character except U+FFFF has a slot |
| HashMapNodes.HashMapTrieNode.constructor | src/main/java/io/jmnarloch/spring/cloud/zuul/trie/HashMapTrieNode.java:31 | a new node has no children, a null value and size 0 |
| HashMapNodes.HashMapTrieNode.SetNext | src/main/java/io/jmnarloch/spring/cloud/zuul/trie/HashMapTrieNode.java:36-47 | afterwards `getNext(c)` is the child, replacing any earlier one, and every other character keeps its child |
| HashMapNodes.HashMapTrieNode.GetNext | src/main/java/io/jmnarloch/spring/cloud/zuul/trie/HashMapTrieNode.java:44-47 | definition of `getNext(c)`: the child for `c` or null; `HashMapNodes.HashMapTrieNode.SetNext` states its laws |
| CharHashMapNodes.CharHashMapTrieNode.constructor | src/main/java/io/jmnarloch/spring/cloud/zuul/trie/CharHashMapTrieNode.java:31 | a new node has no children, a null value and size 0 |
| CharHashMapNodes.CharHashMapTrieNode.SetNext | src/main/java/io/jmnarloch/spring/cloud/zuul/trie/CharHashMapTrieNode.java:36-48 | afterwards `getNext(c)` is the child, replacing any earlier one, and every other character keeps its child |
| CharHashMapNodes.CharHashMapTrieNode.GetNext | src/main/java/io/jmnarloch/spring/cloud/zuul/trie/CharHashMapTrieNode.java:45-48 | definition of `getNext(c)`: the child for `c` or null; `CharHashMapNodes.CharHashMapTrieNode.SetNext` states its laws |
| TrieEngine.NextOf | src/main/java/io/jmnarloch/spring/cloud/zuul/trie/AbstractTrie.java:157-168 | `TrieNode.getNext` over any node kind gives the child in the tree; only a character-array node throws, and only for a character at or above its capacity |
| TrieEngine.SetNext | src/main/java/io/jmnarloch/spring/cloud/zuul/trie/AbstractTrie.java:157-168 | `TrieNode.setNext` over any node kind links the child under `c` and changes no other link |
| TrieEngine.CreateNode | src/main/java/io/jmnarloch/spring/cloud/zuul/trie/AbstractTrie.java:148-155 | `createTrieNode()` yields a fresh node of the factory's kind with no value and no children |
| TrieEngine.FirstRejected | src/main/java/io/jmnarloch/spring/cloud/zuul/trie/AbstractTrie.java:96-105 | the first character of the key that the node kind cannot hold, with every earlier character accepted |
| TrieEngine.Reach | src/main/java/io/jmnarloch/spring/cloud/zuul/trie/AbstractTrie.java:110-121 | how far a walk along the key stays on existing paths: every prefix up to the result is a path, and the next one, if any, is not |
| TrieEngine.Attach | src/main/java/io/jmnarloch/spring/cloud/zuul/trie/AbstractTrie.java:98-102 | hanging a fresh empty node below a path adds exactly that one path and keeps the tree shape and every stored value |
| TrieEngine.Store | src/main/java/io/jmnarloch/spring/cloud/zuul/trie/AbstractTrie.java:106 | setting the value of the node at a path changes that path's entry only |
| TrieEngine.Step | src/main/java/io/jmnarloch/spring/cloud/zuul/trie/AbstractTrie.java:96-105 | one turn of the loop of `put`: it throws exactly for a rejected character, and otherwise goes on at the existing or newly attached child, adding only that path |
| TrieEngine.Advance | src/main/java/io/jmnarloch/spring/cloud/zuul/trie/AbstractTrie.java:96-105 | one turn of the loop of `put` keeps the walk's invariant, or stops it where `FirstRejected` says |
| TrieEngine.Descend | src/main/java/io/jmnarloch/spring/cloud/zuul/trie/AbstractTrie.java:92-105 | the loop of `put` adds exactly the prefixes of the key and ends at the key's node, or throws at the first rejected character having added the prefixes before it |
| TrieEngine.Plant | src/main/java/io/jmnarloch/spring/cloud/zuul/trie/AbstractTrie.java:86-91 | the inner `put` starts at the existing root, or at a fresh node at path [] when there is none |
| TrieEngine.Settle | src/main/java/io/jmnarloch/spring/cloud/zuul/trie/AbstractTrie.java:106-107 | `setValue` at the end of the walk stores the value under the key and keeps the trie state |
| TrieEngine.PutMatches | src/main/java/io/jmnarloch/spring/cloud/zuul/trie/AbstractTrie.java:86-108 | what the walk of `put` leaves is what the view-level `PutResult` describes, both for a walk that returns and for one that throws |
| TrieEngine.PutOutcome | src/main/java/io/jmnarloch/spring/cloud/zuul/trie/AbstractTrie.java:86-108 | a `put` of a non-empty key throws exactly at the first rejected character, keeping the nodes created before it when a root existed; otherwise it adds the key's prefixes and stores the value (a case-by-case statement of the definition of `PutResult`) |
| TrieEngine.GetAt | src/main/java/io/jmnarloch/spring/cloud/zuul/trie/AbstractTrie.java:110-121 | the inner `get` answers the interface's `get` on the entries, unless the walk meets a rejected character on existing nodes, in which case it throws for that character |
| TrieEngine.PrefixAt | src/main/java/io/jmnarloch/spring/cloud/zuul/trie/AbstractTrie.java:123-138 | the inner `prefix` answers the value of the longest stored prefix, unless the walk throws as in `get` |
| TrieEngine.InvConsistent | src/main/java/io/jmnarloch/spring/cloud/zuul/trie/AbstractTrie.java:25-35 | the node tree of every trie state has prefix-closed paths, holds its root at [], and keeps its entries on existing paths, never at the root |
| TrieEngine.Accepts | src/main/java/io/jmnarloch/spring/cloud/zuul/trie/CharArrayTrieNode.java:87-92 | definition of the characters a node kind can hold: below the capacity for character-array nodes, all for hash-map nodes |
| TrieEngine.WalkFault | src/main/java/io/jmnarloch/spring/cloud/zuul/trie/AbstractTrie.java:110-138 | definition of the character at which a walk throws: the one right after the last existing path, when the node kind rejects it |
| TrieEngine.GetResult | src/main/java/io/jmnarloch/spring/cloud/zuul/trie/AbstractTrie.java:110-121 | definition of `get` on the abstract state; `TrieEngine.GetAt` is proved equal to it and `TrieLaws` states its laws |
| TrieEngine.PrefixResult | src/main/java/io/jmnarloch/spring/cloud/zuul/trie/AbstractTrie.java:123-138 | definition of `prefix` on the abstract state; `TrieEngine.PrefixAt` is proved equal to it and `TrieLaws` states its laws |
| TrieEngine.ContainsResult | src/main/java/io/jmnarloch/spring/cloud/zuul/trie/AbstractTrie.java:59-64 | definition of `contains` as `get != null` |
| TrieEngine.PutResult | src/main/java/io/jmnarloch/spring/cloud/zuul/trie/AbstractTrie.java:86-108 | definition of `put` on the abstract state; `AbstractTries.AbstractTrie.Put` is proved equal to it and `TrieLaws` states its laws |
| TrieLaws.PutPreservesConsistent | src/main/java/io/jmnarloch/spring/cloud/zuul/trie/AbstractTrie.java:86-108 | every `put`, whether it returns or throws, keeps a consistent trie consistent |
| TrieLaws.EmptyKeyRejected | src/main/java/io/jmnarloch/spring/cloud/zuul/trie/AbstractTrie.java:49-84 | `put`, `get`, `prefix` and `contains` throw for the empty key and `put` then changes nothing |
| TrieLaws.NoFaultWhenAccepted | src/main/java/io/jmnarloch/spring/cloud/zuul/trie/AbstractTrie.java:110-138 | a walk along a key whose characters are all accepted never throws |
| TrieLaws.PutThenGet | src/test/java/io/jmnarloch/spring/cloud/zuul/trie/BaseTrieTest.java:37-81 | after a `put` that returns, `get` and `contains` see the value, and so does `prefix` unless the value is null |
| TrieLaws.PutKeepsOtherEntries | src/main/java/io/jmnarloch/spring/cloud/zuul/trie/AbstractTrie.java:86-108 | `put` of one key never changes another key's entry, whether it returns or throws |
| TrieLaws.FailedPutStoresNothing | src/main/java/io/jmnarloch/spring/cloud/zuul/trie/AbstractTrie.java:49-108 | a `put` that throws stores nothing; its error is the empty-key error exactly for the empty key, and otherwise names a character of the key the node kind rejects |
| TrieLaws.SecondPutOverwrites | src/main/java/io/jmnarloch/spring/cloud/zuul/trie/AbstractTrie.java:106 | a second `put` under the same key returns and leaves the entries a single `put` of the second value would |
| TrieLaws.PrefixOfStoredKey | src/main/java/io/jmnarloch/spring/cloud/zuul/trie/AbstractTrie.java:110-138 | in a consistent trie, `prefix` and `get` of a stored key both return its value without throwing |
| TrieLaws.RootlessFindsNothing | src/main/java/io/jmnarloch/spring/cloud/zuul/trie/AbstractTrie.java:110-138 | a trie without a root returns null from `get` and `prefix` and false from `contains`, and never throws |
| TrieLaws.HashedTrieMeetsInterface | src/main/java/io/jmnarloch/spring/cloud/zuul/trie/Trie.java:39-74 | with hash-map nodes `get`, `prefix`, `contains` and `put` are exactly the interface's contract on the entries |
| TrieLaws.DenseRejectsMaxChar | src/main/java/io/jmnarloch/spring/cloud/zuul/trie/CharArrayTrieNode.java:28-40 | a default character-array trie throws on `put` of any key holding U+FFFF and stores nothing |
| TrieLaws.DensePutChangesOtherGet | src/main/java/io/jmnarloch/spring/cloud/zuul/trie/AbstractTrie.java:110-121 | in a character-array trie, `get` of the one-character key U+FFFF returns null before `put("a", 1)` and throws after it |
| AbstractTries.Insert | src/main/java/io/jmnarloch/spring/cloud/zuul/trie/AbstractTrie.java:86-108 | the inner `put` and the root it returns: new objects only, a valid trie state, and the state `PutResult` describes |
| AbstractTries.AbstractTrie.constructor | src/main/java/io/jmnarloch/spring/cloud/zuul/trie/AbstractTrie.java:42-44 | a new trie has no root and no entries |
| AbstractTries.AbstractTrie.ValidConsistent | src/main/java/io/jmnarloch/spring/cloud/zuul/trie/AbstractTrie.java:25-35 | the abstract state of a valid trie is consistent |
| AbstractTries.AbstractTrie.Put | src/main/java/io/jmnarloch/spring/cloud/zuul/trie/AbstractTrie.java:49-54 | `put` rejects the empty key and otherwise leaves the trie in the state `PutResult` describes; the root is published only when the inner `put` returns |
| AbstractTries.AbstractTrie.Get | src/main/java/io/jmnarloch/spring/cloud/zuul/trie/AbstractTrie.java:69-74 | `get` returns or throws as `GetResult` says |
| AbstractTries.AbstractTrie.Prefix | src/main/java/io/jmnarloch/spring/cloud/zuul/trie/AbstractTrie.java:79-84 | `prefix` returns or throws as `PrefixResult` says |
| AbstractTries.AbstractTrie.Contains | src/main/java/io/jmnarloch/spring/cloud/zuul/trie/AbstractTrie.java:59-64 | `contains` is `get != null`, throwing when `get` throws |
| RouteMatching.RouteKey | src/main/java/io/jmnarloch/spring/cloud/zuul/matcher/TrieRouteMatcher.java:95-100 | a pattern ending in `**` has as its key the pattern without that suffix; any other pattern is its own key |
| RouteMatching.BuildConsistent | src/main/java/io/jmnarloch/spring/cloud/zuul/matcher/TrieRouteMatcher.java:62-70 | every trie that `setRoutes` fills is consistent |
| RouteMatching.BuildPrefixPasses | src/main/java/io/jmnarloch/spring/cloud/zuul/matcher/TrieRouteMatcher.java:65-70 | when every `put` of the loop returns, so does every `put` of any initial part of the routes |
| RouteMatching.BuildStopsAtFailure | src/main/java/io/jmnarloch/spring/cloud/zuul/matcher/TrieRouteMatcher.java:65-70 | once a `put` throws, later routes change nothing |
| RouteMatching.EmptyRouteKeyFails | src/main/java/io/jmnarloch/spring/cloud/zuul/matcher/TrieRouteMatcher.java:65-70 | a route whose key is empty (the pattern `**` or "") makes `setRoutes` throw, whatever the strategy |
| RouteMatching.HashedBuildSucceeds | src/main/java/io/jmnarloch/spring/cloud/zuul/matcher/TrieRouteMatcher.java:62-72 | with hash-map tries, `setRoutes` completes exactly when no route key is empty |
| RouteMatching.BuildEntries | src/main/java/io/jmnarloch/spring/cloud/zuul/matcher/TrieRouteMatcher.java:65-70 | a completed `setRoutes` holds exactly the entries of its routes, later routes overwriting earlier ones with the same key |
| RouteMatching.EntriesKeys | src/main/java/io/jmnarloch/spring/cloud/zuul/matcher/TrieRouteMatcher.java:65-70 | the keys of the entries are exactly the routes' keys |
| RouteMatching.EntriesStoreLast | src/main/java/io/jmnarloch/spring/cloud/zuul/matcher/TrieRouteMatcher.java:65-70 | under each route's key the entries hold the last route with that key, with its pattern and wildcard flag |
| RouteMatching.BuildKeys | src/main/java/io/jmnarloch/spring/cloud/zuul/matcher/TrieRouteMatcher.java:65-70 | a completed trie holds a key exactly when some route has that key |
| RouteMatching.BuildStoresEach | src/main/java/io/jmnarloch/spring/cloud/zuul/matcher/TrieRouteMatcher.java:66-69 | a completed trie holds under each route's key that route's entry, unless a later route shares the key |
| RouteMatching.LongestOnly | src/main/java/io/jmnarloch/spring/cloud/zuul/matcher/TrieRouteMatcher.java:78-87 | the match is decided by the longest stored prefix alone: its route when it is a wildcard or its pattern is the path, and nothing otherwise |
| RouteMatching.NoPrefixNoMatch | src/main/java/io/jmnarloch/spring/cloud/zuul/matcher/TrieRouteMatcher.java:79-81 | with no stored prefix of the path, no route matches |
| RouteMatching.HashedMatch | src/main/java/io/jmnarloch/spring/cloud/zuul/matcher/TrieRouteMatcher.java:78-87 | with hash-map tries, matching never throws and is the decision on the longest stored prefix of the entries |
| RouteMatching.RoundTrip | src/main/java/io/jmnarloch/spring/cloud/zuul/matcher/TrieRouteMatcher.java:62-87 | matching a route's own key finds that route unless a later route shares the key; for an exact route its pattern finds it too |
| RouteMatching.SampleBuild | src/test/java/io/jmnarloch/spring/cloud/zuul/matcher/TrieRouteMatcherTest.java:111-118 | the test's routes build the exact "/uaa/" under itself and the wildcard "/account/" + `**` under "/account/" |
| RouteMatching.SampleMatches | src/test/java/io/jmnarloch/spring/cloud/zuul/matcher/TrieRouteMatcherTest.java:51-109 | the test paths: "/accounts/", "/uaa/authorize" and "/uaa" match nothing, "/account/details" matches the wildcard route and "/uaa/" matches the exact one |
| RouteMatching.TrieRouteMatcher.constructor | src/main/java/io/jmnarloch/spring/cloud/zuul/matcher/TrieRouteMatcher.java:53-56 | a new matcher has its supplier's strategy and no published trie |
| RouteMatching.TrieRouteMatcher.SetRoutes | src/main/java/io/jmnarloch/spring/cloud/zuul/matcher/TrieRouteMatcher.java:62-72 | `setRoutes` throws exactly when `Build` fails and then keeps the published trie; otherwise it publishes the trie `Build` describes |
| RouteMatching.TrieRouteMatcher.GetMatchingRoute | src/main/java/io/jmnarloch/spring/cloud/zuul/matcher/TrieRouteMatcher.java:78-87 | `getMatchingRoute` answers as `Match` on the published trie says |
| RouteMatching.PutAll | src/main/java/io/jmnarloch/spring/cloud/zuul/matcher/TrieRouteMatcher.java:65-70 | the loop of `setRoutes` leaves the new trie in the state `Build` describes and throws exactly when `Build` fails |
| RouteMatching.IsWildcard | src/main/java/io/jmnarloch/spring/cloud/zuul/matcher/TrieRouteMatcher.java:119-121 | definition of `isWildcard`: the pattern ends in `**` |
| RouteMatching.MatchesExact | src/main/java/io/jmnarloch/spring/cloud/zuul/matcher/TrieRouteMatcher.java:109-111 | definition of `matchesExact`: equality of the two strings |
| RouteMatching.EntryOf | src/main/java/io/jmnarloch/spring/cloud/zuul/matcher/TrieRouteMatcher.java:66-69 | definition of the entry stored for a route: its pattern, its route and its wildcard flag |
| RouteMatching.Accept | src/main/java/io/jmnarloch/spring/cloud/zuul/matcher/TrieRouteMatcher.java:80-86 | definition of the decision on the longest-prefix hit; `RouteMatching.LongestOnly` states it |
| RouteMatching.Build | src/main/java/io/jmnarloch/spring/cloud/zuul/matcher/TrieRouteMatcher.java:62-71 | the trie `setRoutes` fills is of the supplier's strategy; `RouteMatching.BuildEntries`, `RouteMatching.EmptyRouteKeyFails` and the other `Build` lemmas state what it holds |
| RouteMatching.Match | src/main/java/io/jmnarloch/spring/cloud/zuul/matcher/TrieRouteMatcher.java:78-87 | definition of `getMatchingRoute` on the abstract state; `RouteMatching.LongestOnly`, `RouteMatching.NoPrefixNoMatch` and `RouteMatching.RoundTrip` state its laws |
| RouteLocation.RequestPath | src/main/java/io/jmnarloch/spring/cloud/zuul/route/MatcherProxyRouteLocator.java:142-148 | when the servlet path has text, is not "/" and starts the path, the result is the rest of the path after it; otherwise the path itself |
| RouteLocation.IsRetryable | src/main/java/io/jmnarloch/spring/cloud/zuul/route/MatcherProxyRouteLocator.java:129-134 | the route's retry flag wins when it is set, and the global one applies otherwise |
| RouteLocation.RoutePrefix | src/main/java/io/jmnarloch/spring/cloud/zuul/route/MatcherProxyRouteLocator.java:105-108 | a route prefix exists only for a stripping route; it is the pattern up to one character before the first '*', holds no '*', is non-empty, and exists whenever the first '*' is past index 1 |
| RouteLocation.GlobalTarget | src/main/java/io/jmnarloch/spring/cloud/zuul/route/MatcherProxyRouteLocator.java:97-103 | the target path after the global strip is never longer than the path |
| RouteLocation.MatcherProxyRouteLocator.constructor | src/main/java/io/jmnarloch/spring/cloud/zuul/route/MatcherProxyRouteLocator.java:55-61 | the locator keeps its servlet path, properties and matcher |
| RouteLocation.MatcherProxyRouteLocator.GetMatchingRoute | src/main/java/io/jmnarloch/spring/cloud/zuul/route/MatcherProxyRouteLocator.java:67-75 | `getMatchingRoute` answers as `Locate` says over the matcher's published trie |
| RouteLocation.NoRouteNoSpec | src/main/java/io/jmnarloch/spring/cloud/zuul/route/MatcherProxyRouteLocator.java:92-95 | no matched route gives no spec, and the locator throws exactly when the matcher does |
| RouteLocation.SpecKeepsRoute | src/main/java/io/jmnarloch/spring/cloud/zuul/route/MatcherProxyRouteLocator.java:114-120 | the spec of a matched route keeps its id and location and takes the route's retry flag, or else the global one (a statement of the definition of `ToProxyRouteSpec`) |
| RouteLocation.TargetNoLonger | src/main/java/io/jmnarloch/spring/cloud/zuul/route/MatcherProxyRouteLocator.java:97-112 | the forwarded path is never longer than the path the matcher saw |
| RouteLocation.WithoutRouteStrip | src/main/java/io/jmnarloch/spring/cloud/zuul/route/MatcherProxyRouteLocator.java:97-103 | without a route prefix, the spec's prefix is the global prefix, and its path is the servlet-stripped path or, when the global strip applies, the path minus as many characters as the global prefix has (a case-by-case statement of the definition of `ToProxyRouteSpec`) |
| RouteLocation.WithRouteStrip | src/main/java/io/jmnarloch/spring/cloud/zuul/route/MatcherProxyRouteLocator.java:105-112 | with a route prefix, it is cut once from the target path and appended to the global prefix (a case-by-case statement of the definition of `ToProxyRouteSpec`) |
| RouteLocation.ServletPathStrippedTwice | src/main/java/io/jmnarloch/spring/cloud/zuul/route/MatcherProxyRouteLocator.java:67-75 | with the global strip off and no route prefix, a request that starts with the servlet path twice is forwarded with both copies removed |
| RouteLocation.ServletPathStripsRepeat | src/main/java/io/jmnarloch/spring/cloud/zuul/route/MatcherProxyRouteLocator.java:142-147 | for any servlet path with text other than "/", the strip applied before matching and again in `toProxyRouteSpec` removes both copies from a request that starts with it twice |
| RouteLocation.EmptyGlobalStripKeepsPath | src/main/java/io/jmnarloch/spring/cloud/zuul/route/MatcherProxyRouteLocator.java:101-103 | with the global strip on and an empty global prefix, the target path is the matcher's path itself, so the second servlet strip is undone |
| RouteLocation.RoutePrefixExamples | src/main/java/io/jmnarloch/spring/cloud/zuul/route/MatcherProxyRouteLocator.java:105-108 | a stripping "/uaa/" + `**` route has route prefix "/uaa"; a stripping "/" + `**` route has none, and neither does a route that does not strip |
| RouteLocation.RouteStripExample | src/main/java/io/jmnarloch/spring/cloud/zuul/route/MatcherProxyRouteLocator.java:92-121 | a stripping "/uaa/" + `**` route forwards "/uaa/authorize" as "/authorize" with prefix "/uaa" |
| RouteLocation.StripsServletPath | src/main/java/io/jmnarloch/spring/cloud/zuul/route/MatcherProxyRouteLocator.java:143-144 | definition of when the servlet path is stripped: it has text, is not "/" and starts the path |
| RouteLocation.ToProxyRouteSpec | src/main/java/io/jmnarloch/spring/cloud/zuul/route/MatcherProxyRouteLocator.java:92-121 | definition of `toProxyRouteSpec`; `RouteLocation.SpecKeepsRoute`, `RouteLocation.WithoutRouteStrip`, `RouteLocation.WithRouteStrip` and `RouteLocation.TargetNoLonger` state its rules |
| RouteLocation.Locate | src/main/java/io/jmnarloch/spring/cloud/zuul/route/MatcherProxyRouteLocator.java:67-75 | definition of `getMatchingRoute` on the matcher's abstract state; `RouteLocation.NoRouteNoSpec` and `RouteLocation.ServletPathStrippedTwice` state its laws |

## Left out

- The `AtomicReference` holding the published trie, and thread safety in general: it is a plain field, and concurrent readers are not modelled.
- `getMatchingRoute` before any `setRoutes` dereferences a null trie in the code. The model requires a published trie instead of modelling that `NullPointerException`.
- `TrieSupplier` and the factory classes `CharArrayTrie`, `HashMapTrie`, `CharHashMapTrie` and `Tries`: they only pick a node kind, which is the `Strategy` value a trie is built with.
- The hash-map constructors with an initial capacity or a load factor only tune `java.util.HashMap` and trove maps. They are left out, along with all hashing internals; the child maps are Dafny maps. As written, those constructors call node constructors that `HashMapTrieNode` and `CharHashMapTrieNode` do not declare.
- `Trie.put` is declared as returning the previous value, while `AbstractTrie.put` returns nothing. The previous value appears in `TrieContract.Put` only.
- `remove`, `containsKey`, `size` and `isEmpty` of `Trie` are declared but implemented by no class. They are modelled at the contract level in `TrieContract` only. The size counter of `AbstractTrieNode` is modelled, but no trie operation maintains it, as in the code.
- `Assert.notNull` on the supplier in the matcher's constructor: the model has no null strategy.
- A null key, path or route: `Assert.hasLength` rejects a null key like the empty one, and the model has only the empty key.
- A null servlet path is treated like "", which gives the same result in the code.
- The Spring wiring is outside the model: the `RouteMatcher` interface, `EnableZuulProxyMatcher`, the `ProxyRouteLocator` superclass, `DiscoveryClient`, and `resetRoutes`/`locateRoutes`, which only hands the superclass's routes to `setRoutes`.
- The map passed to `setRoutes` is a sequence of (pattern, route) pairs in its iteration order. `HashMap` order itself is not modelled.
- The matcher is generic in the route type. The interface declares `ProxyRouteSpec` values while the locator and the tests use `ZuulRoute`; the locator instantiates it with `ZuulRoute`.
- `ZuulRoute.getLocation()` is a field of the route datatype.
- `String.replaceFirst` takes a regular expression. It is modelled as removing the first literal occurrence, which differs for route prefixes that contain regular-expression metacharacters.
- Unpaired UTF-16 surrogates are left out: a Dafny `char` cannot hold them. `Character.isWhitespace` is written out for the characters it accepts in current Unicode versions.
- RouteLocation.GlobalTarget: its contract states only the length bound; the exact result is stated by `RouteLocation.WithoutRouteStrip`.
- RouteMatching.SampleMatches: proved for tries of either hash-map node kind, the kind the test's supplier asks for. The supplier calls `Tries.newCharHashMapTrie`, but `Tries` declares that factory as `newCharMapTrie`. Character-array tries are not covered by this lemma.
