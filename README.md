# mwmux — a model of path-scoped middleware dispatch

mwmux puts middleware in front of Go's `http.ServeMux`. A middleware is registered
with `Use` under a path pattern. A segment of the form `{...}` stands for any value.
For each request, the multiplexer works in three steps:

1. It looks up the registered paths that match the request path. A pattern matches
   when some cumulative segment prefix of the request equals the pattern, followed by
   zero or more `/`.
2. It orders the middlewares it found.
3. It folds them into one call chain around the endpoint handler. Each middleware
   receives a `next` continuation that runs the rest of the chain.

The repository holds three revisions of this logic, and the model covers each one:

| revision | file | Dafny module | registry | dispatch |
|---|---|---|---|---|
| current | `mwmux.go` | `MwMux` | per path, a map from a global registration number to the handler | handlers run sorted by registration number, through a pipeline |
| earlier | `src/custom-mux.go` | `Cmux` | per path, a list of handlers | handler lists are concatenated in the order the registry map is iterated, then run through the same kind of pipeline |
| prototype | `main.go` | `PrototypeMux` | per path, a list of plain handlers | each handler of a matching path is called directly; there is no `next` and no endpoint |

The three revisions share most of their helpers (`getPaths`, `getIdSpecifiers`,
`removePartsFromPath`, the matching loop). The shared modules are:

- `Text` models `strings.Split(s, "/")` exactly. It also defines `Slashed`, the
  `"/" + part` accumulation the helpers perform.
- `Segments` models `getPaths`, `removePartsFromPath` and the three revisions'
  `getIdSpecifiers`. The revisions differ only in how they treat empty segments and the
  trailing slash, and `Revision` names which one is meant.
- `Matching` models the regular expression `^pattern/*$` and one iteration of the
  matching loop. It models the whole loop over the registry in a given iteration order,
  and also the per-pattern ("isolated") lookup the loop evidently intends.
- `Pipeline` models `createFunc` and `createMiddlewarePipeline` as closures
  that return the trace of handlers entered. Each middleware is abstracted to an id
  plus the number of times it calls `next`.
- `KeyOrder` models `sortMiddlewares`.
- `Scenarios` restates the behaviours the repository's tests pin down as general lemmas.
- `Findings` holds the two defects described below.

Some of the source's behaviour has to be made explicit:

- **Panics.** A Go panic (indexing `parts[len(parts)-1]` of an empty slice, or
  `part[0]` of an empty segment) is the result `Panicked`.
- **Map iteration order.** Go leaves the iteration order of a map unspecified.
  Every loop over the registry takes that order as an explicit parameter `order`.
  The loops are proved for any sequence of registered paths (`InRegistry`), and the
  request entry points require an order that lists each registered path exactly
  once (`IsIterationOrder`).
- **Request path reuse.** The loop rewrites the request path in place for every
  id-bearing pattern, so later patterns see the rewritten path. `ScanAll` models
  this, and `Isolated` is the corrected lookup.

**Segment boundaries.** A pattern is tested against the cumulative segment prefixes
of the request, never against arbitrary character prefixes. So the code enforces a
segment boundary: `/a` matches `/a/b` but not `/ab` (`Scenarios.LiteralSegmentBoundary`).

## Model

| member | source | states |
|---|---|---|
| Text.JoinSplit | mwmux.go:129 | `strings.Split` on '/' is undone by joining with '/': `Join(Split(s)) == s` |
| Text.SplitJoin | mwmux.go:129 | joining '/'-free pieces with '/' and splitting again gives the pieces back |
| Text.SplitLength | mwmux.go:129 | `strings.Split(s, "/")` has one piece more than `s` has slashes |
| Text.SlashedSplit | mwmux.go:131-134 | a path that starts with '/' is rebuilt exactly by `"/" + part` over its parts |
| Segments.PartsOfSlashed | mwmux.go:129 | the segments of `"/" + p1 + "/" + p2 ...` are exactly `p1, p2, ...` when no pi holds a '/' |
| Segments.PartsEmpty | mwmux.go:141-143 | `Split(path)[1:]` is empty exactly when the path has no '/', the case where `parts[len(parts)-1]` panics |
| Segments.GetPaths | mwmux.go:126-137 | the loop returns `PathsOf(fullPath)`: "/" followed by every cumulative `/seg` prefix |
| Segments.PathsOfShape | mwmux.go:126-137 | `getPaths` lists one entry per piece of the split; the first entry is "/"; entry k is the first k segments, slashed; and the last entry is the input itself when the input starts with '/' |
| Segments.PathsCount | mwmux.go:126-137 | `getPaths(p)` has 1 + (number of '/' in p) entries |
| Segments.PathsArePrefixes | src/custom-mux.go:96-107 | every entry of `getPaths` after "/" is a prefix of the input that ends at a segment boundary |
| Segments.PathsOfSlashed | main.go:96-107 | for a slashed path, `getPaths` is "/" followed by the prefixes of its segment list |
| Segments.Replace | mwmux.go:164-171 | keeps the number of segments |
| Segments.ReplaceAt | mwmux.go:164-171 | segment i becomes the placeholder exactly when i is listed, and every other segment is copied unchanged |
| Segments.Rewrite | mwmux.go:156-174 | `removePartsFromPath` panics exactly when the path has no '/' |
| Segments.RemovePartsFromPath | mwmux.go:156-174 | the loop that appends `"/" + part` or `"/" + placeholder` returns `Rewrite(path, positions, placeholder)` |
| Segments.JoinReplaced | mwmux.go:163-171 | the accumulation loop returns the replaced segments, each preceded by '/' |
| Segments.RewriteSegments | src/custom-mux.go:128-146 | for a path with a '/', the result is the slashed list of its segments, with one trailing empty segment dropped and the listed positions replaced |
| Segments.BraceDelimitedIsId | src/custom-mux.go:120 | for a non-empty segment, the earlier test `part[0]=='{' && part[len-1]=='}'` agrees with the current test, which also requires length > 1 |
| Segments.IdPositionsSpec | mwmux.go:147-151 | the result is strictly increasing; it lists only indices of `{...}` segments; and it lists every such index |
| Segments.IdPositionsLiteral | mwmux.go:147-151 | a path none of whose segments is `{...}` has no identifier positions |
| Segments.HasEmptyIff | src/custom-mux.go:119-123 | the list holds an empty segment, the case where `part[0]` panics, exactly when some index holds an empty segment |
| Segments.Placeholder | mwmux.go:10 | every placeholder ("%" now, `<ID_PLACEHOLDER>` before) is non-empty and has no '/' |
| Segments.IdSpecifiers | mwmux.go:139-154 | current revision: panics exactly when the path has no '/'; a result drops one trailing empty segment (current, earlier) or none (prototype) and lists the `{...}` positions |
| Segments.RevisionsAgree | main.go:111-121 | on a path with a '/' and no empty segment, the three revisions' `getIdSpecifiers` agree and return the `{...}` positions |
| Segments.EarlierAgreesWhenDefined | src/custom-mux.go:111-126 | whenever the earlier `getIdSpecifiers` does not panic, the current one returns the same positions |
| Matching.AnyMatchAt | mwmux.go:94-101 | one prefix that is the pattern plus slashes makes the pattern match |
| Matching.AnyMatchWitness | mwmux.go:94-101 | a match always has such a prefix |
| Matching.FirstMatch | mwmux.go:93-102 | the loop that stops at the first matching prefix returns whether any prefix is the pattern followed by zero or more '/' |
| Matching.ScanStep | mwmux.go:84-103 | one more iteration of the registry loop either panics or carries the rewritten request path on to the next pattern |
| Matching.PanicIsFinal | mwmux.go:84-103 | once the loop has panicked, later patterns change nothing |
| Matching.MatchedAreVisited | mwmux.go:84-103 | every matched path is a registered path the loop visited, and no more paths match than were visited |
| Matching.MatchedInOrder | mwmux.go:84-103 | the matched paths are entries of the iteration order at strictly increasing indices, so they come in iteration order |
| Matching.MatchedDistinct | src/custom-mux.go:20-37 | over an iteration order that lists each path once, as `range` over a map does, no path is matched twice, so no handler list is appended twice |
| Matching.KeepOk | mwmux.go:84-103 | the isolated lookup succeeds exactly when every pattern's test succeeds |
| Matching.KeepMember | mwmux.go:84-103 | a pattern is kept exactly when it is registered and its own test says it matches |
| Matching.IsolatedMember | mwmux.go:84-103 | the corrected lookup keeps a registered path exactly when it matches the original request on its own |
| Matching.IsolatedOrderIndependent | mwmux.go:84 | the corrected lookup keeps the same set of paths under every iteration order |
| Matching.MatchesPatternTotal | mwmux.go:139-174 | testing one pattern against one request never panics when both contain a '/' |
| Matching.IsolatedTotal | mwmux.go:84-103 | the corrected lookup never panics on a request and patterns that contain a '/' |
| Matching.VisitWithoutIdentifiers | mwmux.go:86-101 | a pattern without `{...}` segments leaves the request path untouched and is decided by the prefix match |
| Matching.NoIdentifiersNoRewrite | mwmux.go:84-103 | when no registered path has identifier segments, the loop and the corrected lookup match the same paths |
| Matching.AnyMatchSlashed | mwmux.go:90-101 | for any non-empty list of pattern segments, a trailing empty one included: the slashed pattern matches a slashed request exactly when it is "/" or its segments are a leading run of the request's segments |
| Matching.AgreeWithoutIdentifiers | mwmux.go:90-101 | for a pattern not ending in '/' and without `{...}` segments, a match means the pattern's segments head the request's segments, ignoring one trailing slash of the request |
| Matching.AgreeWithIdentifiers | mwmux.go:85-101 | for a pattern not ending in '/', after both paths are rewritten, a match means every literal segment of the pattern equals the request segment at its position, and the request has at least as many segments |
| Matching.MatchesPatternIff | mwmux.go:85-101 | for a pattern not ending in '/' and a request, both given as segments, the outcome is `Ok(SegmentsAgree)`: the request is long enough and agrees on every non-`{...}` segment |
| Matching.MatchesLiteralIff | mwmux.go:86-101 | a pattern without identifier positions, whatever its last segment, matches exactly when it is "/" or the request's segments begin with its own: `/a/` matches `/a/` and `/a//b` but neither `/a` nor `/a/b` |
| Matching.TrailingSlashWithIdentifiers | mwmux.go:139-174 | in the current and earlier revisions, an id-bearing pattern ending in '/' matches exactly the requests the same pattern without the '/' matches, because both helpers drop one trailing empty segment |
| Matching.VisitSlashed | mwmux.go:84-103 | one iteration on a slashed pattern and request records the pattern exactly when the segments agree, and hands on the request rewritten at the pattern's identifier positions |
| Matching.VisitMatches | mwmux.go:84-103 | one iteration panics exactly when the pattern test panics, and otherwise records the path exactly when it matches |
| Matching.VisitRewritesRequest | mwmux.go:86-89 | after an id-bearing pattern, the request path the next pattern sees is the request rewritten at that pattern's identifier positions |
| Matching.RootMatchesEverything | mwmux.go:90-101 | the pattern "/" matches every request in the current and earlier revisions |
| Matching.RootPanicsInPrototype | main.go:113-116 | in the prototype, registering "/" panics every request, because its one part is empty |
| Matching.ScanPair | mwmux.go:84-103 | the loop over two patterns is the two iterations in sequence |
| Matching.IsolatedPair | mwmux.go:84-103 | the corrected lookup over two patterns keeps those of the two that match |
| Matching.IdSpecifiersLiteral | mwmux.go:139-154 | a path without empty or `{...}` segments has no identifier positions in any revision |
| Matching.GatheredOne | src/custom-mux.go:33-35 | one matched path contributes its whole handler list, and an unregistered path contributes nothing |
| Matching.GatheredAppend | src/custom-mux.go:33-35 | gathering over two runs of matched paths is the concatenation of the two gatherings |
| Matching.GatheredStep | src/custom-mux.go:33-35 | one more matched, registered path appends its whole list to what was gathered |
| Scenarios.LiteralBelow | mwmux_test.go:10-34 | `/a` matches `/a` and `/a/b` |
| Scenarios.LiteralSibling | mwmux_test.go:69-92 | `/b` does not match `/a` |
| Scenarios.LiteralSegmentBoundary | mwmux.go:90-101 | `/a` does not match `/ac`: a match ends at a segment boundary |
| Scenarios.IdentifierMatchesAnyValue | mwmux_test.go:164-188 | `/a/{id}/b` matches `/a/v/b` for any value v |
| Scenarios.IdentifierLiteralsMustAgree | mwmux.go:85-101 | `/a/{id}/b` does not match `/a/v/c` when c differs from b |
| Scenarios.IdentifierMatchesBelow | mwmux_test.go:220-251 | `/a/{id}/b` matches every request below `/a/v/b` |
| Scenarios.NestedIdentifiersShorterOnly | mwmux_test.go:190-218 | with `/a/{id}/b` and `/a/{id}/b/{id}` registered, the loop as written matches only `/a/{id}/b` for request `/a/v/b/`, in either iteration order |
| Scenarios.IdSpecifiersOfSegments | mwmux.go:139-154 | every revision returns the `{...}` positions of a path without empty segments |
| Scenarios.TwoIdentifiers | mwmux_test.go:335-347 | `/a/{id}/b/{id}` has identifier positions [1, 3] in every revision |
| Scenarios.NoIdentifiers | mwmux_test.go:349-361 | `/a/b` has no identifier positions in any revision |
| Scenarios.BracesMustDelimit | mwmux_test.go:363-375 | in `/a/b/{id}/{x`, only position 2 is an identifier, because the last segment does not end in '}' |
| Scenarios.EmptySegment | src/custom-mux.go:119-123 | `/a//b` has no identifier positions in the current revision, and panics in the earlier revision and the prototype |
| Scenarios.TrailingSlashPanicsInPrototype | main.go:113-116 | in the prototype, any path that ends in '/' panics, because its last part is empty |
| Scenarios.RewriteFour | mwmux.go:156-174 | `/a/b/c/d/` rewrites to its four segments, each listed position replaced by the placeholder |
| Scenarios.RewriteTwo | mwmux_test.go:377-389 | `/a/b/c/d/` with [1, 3] becomes `/a/%/c/%` |
| Scenarios.RewriteNone | mwmux_test.go:405-417 | `/a/b/c/d/` with [] becomes `/a/b/c/d` |
| Scenarios.RewriteOneEarlier | main_test.go:312-324 | `/a/b/c/d/` with [2] becomes `/a/b/<ID_PLACEHOLDER>/d` |
| Pipeline.CreateMiddlewarePipeline | mwmux.go:176-191 | the right-to-left loop builds a chain whose trace is `Run(mws, endpoint)`; with no middlewares the result is the endpoint itself |
| Pipeline.AllPass | mwmux.go:176-191 | when each middleware calls `next` once, they run in list order and the endpoint runs last |
| Pipeline.ShortCircuit | mwmux.go:176-191 | a middleware that never calls `next` ends the trace: no later middleware and no endpoint runs |
| Pipeline.RunEvents | src/custom-mux.go:148-166 | every event of the chain is an entry of one of its middlewares or an event of the endpoint |
| KeyOrder.KeysBelow | mwmux.go:71-75 | the result is strictly increasing and holds exactly the keys below n |
| KeyOrder.IncreasingUnique | mwmux.go:75 | two strictly increasing sequences with the same elements are equal, so the sorted key list is unique |
| KeyOrder.SortKeys | mwmux.go:71-75 | the sorted keys are strictly increasing and have the same elements as the collected keys |
| KeyOrder.SortMiddlewares | mwmux.go:69-80 | the handlers come out in ascending key order: the result is `InKeyOrder(m, n)` for every bound n above the keys |
| KeyOrder.InKeyOrderStep | mwmux.go:76-78 | the handlers in key order below n+1 are those below n, followed by the handler under n if there is one |
| MwMux.MWMux.constructor | mwmux.go:107-114 | `NewMWMux` starts with count 0 and an empty registry |
| MwMux.MWMux.Use | mwmux.go:23-34 | stores the handler under the pre-call count in its path's map, creating the map when absent; other paths are unchanged; the count grows by exactly one; the registry stays consistent with the registration log |
| MwMux.KeysIdentifyRegistrations | mwmux.go:27-33 | a stored key is below the count, is stored under one path only, and maps to that registration's handler |
| MwMux.MWMux.GetMiddlewaresForPath | mwmux.go:82-105 | the loop panics exactly when the registry loop does; otherwise it returns the union of the handler maps of the matched paths |
| MwMux.MatchNext | mwmux.go:84-102 | one pass of the registry loop body either panics exactly as the matching loop does, or carries its rewritten request and matched paths on to the next registered path |
| MwMux.MatchOne | mwmux.go:85-101 | the body of the registry loop computes one step of the matching loop for the current revision |
| MwMux.GetIdSpecifiers | mwmux.go:139-154 | the loop returns the current revision's identifier positions, or panics on a path with no '/' |
| MwMux.CollectStep | mwmux.go:97-99 | merging one more matched path adds its handler map |
| MwMux.SelectedStep | mwmux.go:97-99 | under a consistent registry, the registrations selected for one more matched path are those selected before followed by that path's handlers in key order |
| MwMux.CollectSelected | mwmux.go:82-105 | under a consistent registry, the collected map holds exactly the registrations whose path matched, each under its registration number |
| MwMux.SelectedInKeyOrder | mwmux.go:69-80 | the selected handlers sorted by key are the matched registrations in registration order |
| MwMux.MWMux.RunMiddlewarePipeline | mwmux.go:54-67 | a request either panics or runs the chain of the matched registrations, in registration order and across paths, around the endpoint |
| MwMux.RegisteredAllMatched | mwmux_test.go:253-294 | when every registration matches, the pipeline holds every handler in registration order |
| MwMux.AllMatchedRunInOrder | mwmux_test.go:295-333 | when every registration matches and each calls `next`, handler k runs k-th and the endpoint runs last |
| Cmux.CustomMux.constructor | src/custom-mux.go:50-57 | `NewMyMux` starts with an empty registry |
| Cmux.CustomMux.Use | src/custom-mux.go:88-94 | appends the handler to its path's list, or creates a one-element list; other paths are unchanged; every list is that path's registrations in order |
| Cmux.CustomMux.RunMiddlewarePipeline | src/custom-mux.go:15-43 | a request either panics or runs, around the endpoint, the handlers registered under each matched path, path by path in iteration order and within a path in registration order (`UnderAll`); with `MatchedDistinct`, each matched path's list runs once |
| Cmux.GatheredUnder | src/custom-mux.go:27-37 | over a registry in step with the registrations, the gathered list is, for each matched path in turn, every handler registered under it in registration order |
| Cmux.CustomMux.GatherMiddlewares | src/custom-mux.go:15-38 | the registry loop panics exactly when the matching loop does; otherwise it returns the whole lists of the matched paths, concatenated in iteration order |
| Cmux.MatchNext | src/custom-mux.go:20-37 | one pass of the registry loop body either panics exactly as the matching loop does, or carries its rewritten request and matched paths on |
| Cmux.UseKeepsTracks | src/custom-mux.go:88-94 | after a registration, every path's list is still that path's registrations in order |
| Cmux.MatchOne | src/custom-mux.go:21-37 | the body of the registry loop computes one step of the matching loop for the earlier revision |
| Cmux.GetIdSpecifiers | src/custom-mux.go:111-126 | the loop returns the earlier revision's identifier positions, and panics on an empty interior segment |
| Cmux.UnderStep | src/custom-mux.go:88-94 | registering under a path appends to that path's list only |
| Cmux.UnderAbsent | src/custom-mux.go:91-92 | a path never registered has an empty list |
| Cmux.IterationOrderDecidesHandlerOrder | src/custom-mux.go:20 | with `/a` and `/a/b` registered, request `/a/b` matches both, and they are recorded in the order the registry is iterated |
| Cmux.HandlersRunInIterationOrder | src/custom-mux.go:20-42 | the two iteration orders run the two handlers in opposite orders, so the order across paths does not follow registration |
| Cmux.GatheredPair | src/custom-mux.go:34 | two matched paths contribute their whole lists, one after the other |
| Cmux.RunPair | src/custom-mux.go:41-42 | two gathered one-handler lists run in that order, then the endpoint |
| PrototypeMux.Calls | main.go:58-61 | calling a list of handlers records one call per handler |
| PrototypeMux.CallsAt | main.go:58-61 | the k-th recorded call enters the k-th handler of the list |
| PrototypeMux.CustomMux.constructor | main.go:73-78 | `NewMyMux` starts with an empty registry |
| PrototypeMux.CustomMux.Use | main.go:84-94 | appends the handler to its path's list, creating an empty list first when absent; other paths are unchanged |
| PrototypeMux.CustomMux.ServeHTTP | main.go:40-66 | calls the handlers registered under each matching path in registration order, path by path in iteration order (`UnderAll`); with `MatchedDistinct`, each matching path's handlers are called once; there is no `next` and no endpoint; a panic keeps the calls already made |
| PrototypeMux.GatheredUnder | main.go:51-63 | over a registry in step with the registrations, the handlers called for the matched paths are, for each path in turn, every handler registered under it in registration order |
| PrototypeMux.CallHandlers | main.go:58-61 | the inner loop appends one entry per handler, in order |
| PrototypeMux.CallsAppend | main.go:55-63 | calling two lists one after the other is calling their concatenation |
| PrototypeMux.CalledStep | main.go:55-61 | a matched, registered path adds the calls of its whole list after the calls already made |
| PrototypeMux.MatchNext | main.go:44-64 | one pass of the registry loop body either panics exactly as the matching loop does, or carries its rewritten request and matched paths on |
| PrototypeMux.UseKeepsTracks | main.go:84-94 | after a registration, every path's list is still that path's registrations in order |
| PrototypeMux.MatchOne | main.go:45-57 | the body of the registry loop computes one step of the matching loop for the prototype |
| PrototypeMux.GetIdSpecifiers | main.go:111-121 | the loop returns the prototype's identifier positions, and panics on any empty part, including a trailing one |
| PrototypeMux.UnderStep | main.go:84-94 | registering under a path appends to that path's list only |
| Findings.LiteralAfterIdentifier | mwmux.go:84-103 | iterating `/a/{id}` before `/a/x`, request `/a/x` matches only `/a/{id}` |
| Findings.LiteralBeforeIdentifier | mwmux.go:84-103 | iterating `/a/x` before `/a/{id}`, request `/a/x` matches both |
| Findings.LiteralMissedAfterIdentifier | mwmux.go:87 | as written: the matched set depends on iteration order, and one order loses `/a/x` |
| Findings.LiteralKeptWhenIsolated | mwmux.go:84-103 | corrected: testing each pattern against the original request keeps both patterns in either order |
| Findings.RootRequestPanics | mwmux.go:87 | as written: request "/" with two id-bearing patterns panics |
| Findings.RootRequestOnItsOwn | mwmux.go:139-174 | tested on its own, an id-bearing pattern does not match "/" and does not panic |
| Findings.RootRequestWhenIsolated | mwmux.go:84-103 | corrected: request "/" with two id-bearing patterns matches neither and does not panic |

## Left out

- HTTP plumbing is not modelled. This covers `ServeHTTP`, `Handle`, `HandleFunc`, `HandlerWrapper`, `ListenAndServe` and `http.ServeMux` dispatch (mwmux.go:36-52, 116-124; src/custom-mux.go:59-85; main.go:17-35, 80-82). The endpoint handler is a parameter.
- Entering through `MWMux.ServeHTTP` runs the pipeline twice, once there and once in the `HandleFunc` wrapper. Only one pipeline run is modelled.
- `regexp.MustCompile` is replaced by its meaning, "equals the pattern followed by zero or more '/'". Registered paths are taken to hold no regular-expression metacharacters. The panic of `MustCompile` on an invalid pattern is not modelled.
- Go map iteration order is an explicit parameter; the model does not choose an order.
- The global singletons `MMux` and `MyMux` become the receiver object of the model's methods.
- `fmt.Println` (src/custom-mux.go:25, main.go:49) has no effect in the model.
- `ResponseWriter`, `Request` and what handlers do beyond calling `next` are abstracted. A middleware is an id plus the number of times it calls `next`. A prototype handler is an id.
- Concurrency is not modelled: requests are served one at a time.
- example/main.go (a demo application) is not part of this model.
- MatchesPatternIff, AgreeWithoutIdentifiers, AgreeWithIdentifiers: stated only for patterns whose last segment is non-empty, that is, patterns not ending in '/'. Patterns that end in '/' are covered by `MatchesLiteralIff` (no identifiers) and `TrailingSlashWithIdentifiers` (with identifiers). On those patterns the code does not follow `SegmentsAgree`: a literal `/a/` matches `/a/` but not `/a`.
- KeyOrder.SortKeys: states the result only for distinct keys. Those are the only keys `getMiddlewaresForPath` can produce, because they come from a map.

## Findings

| source | as written | input that shows it | evidently intended | confidence | as-written member | corrected member |
|---|---|---|---|---|---|---|
| mwmux.go:87 (also src/custom-mux.go:23, main.go:47) | `requestPath` is overwritten by the rewrite for an id-bearing pattern, and later patterns are tested against the rewritten path | patterns `/a/{id}` and `/a/x`, request `/a/x`: iterating `/a/{id}` first rewrites the request to `/a/%`, so `/a/x` no longer matches; the other order matches both | each pattern is tested against the original request, so the matched set does not depend on map iteration order | not executed | Findings.LiteralMissedAfterIdentifier | Findings.LiteralKeptWhenIsolated |
| mwmux.go:87 with mwmux.go:159 | the first id-bearing pattern rewrites request "/" to "", and the next id-bearing pattern's `removePartsFromPath("")` indexes `parts[-1]` | patterns `/a/{id}` and `/b/{id}`, request "/" | request "/" matches neither pattern and does not panic | not executed | Findings.RootRequestPanics | Findings.RootRequestWhenIsolated |
