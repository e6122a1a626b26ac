# Route analyzer: a verified model of the request trie

`RequestAnalyzer` turns a stream of concrete request URLs into generic route
templates such as `/x/{UUID}` or `/shop?category={CATEGORY}&(?limit={INT})`.
Each request's path segments, then its query pairs, are classified by the
registered pattern recognizers (first match wins, otherwise the token stays
literal) and descend into a trie rooted at the first request's host. Equal
values share a node; a new value opens a branch. Two bookkeeping rules mark
optional parts: a new branch under a node that holds a terminator gets the
`Optional` suffix and the terminator is dropped, and a request that stops at
a node with continuations appends `Optional` to every child's position. A
request that stops at a childless node leaves a terminator. The routes are
read back by a depth-first walk that emits one route per terminator. Each
route's path is the concatenation of the fragments of the nodes on the way
down. A fragment is a separator chosen by exact position (`?` for `query`,
`&` for `queryOptional`, `/` for everything else) followed by the value,
wrapped as `(?value)` when the position ends with `Optional`.

The model is purely functional. A node is an immutable `Node` value, and an
insertion returns a new tree.

The modules are:

- `UrlParts`: nodes and positions. A position is a base role plus the number
  of appended `Optional` suffixes, and lemmas connect it to the string tests.
- `Classifier` and `Registration`: `getPatten` and recognizer registration.
- `Insertion`: `handlePart`, `handleUrlSegments` and the end-of-request
  bookkeeping.
- `InsertionInvariant`: the structural invariant that insertion keeps.
- `Reinsertion`: what a repeated insertion does.
- `Growth`: how one insertion reshapes the tree.
- `Rendering`: `getUrlString`, `fillRoutes` and `getAnalyzedRoutes`.
- `Analyzer`: the analyzer object.
- `Scenarios` and `QueryScenarios`: worked request sequences like those in
  `src/demo.ts`.

The structural invariant (`UrlParts.WellFormed`) has four parts:

- sibling values are distinct;
- a terminator has the value `""`, the position `terminator` and no children;
- the type is `terminator` exactly when the position's role is;
- a terminator is always an only child.

## Model

| member | source | states |
|---|---|---|
| Classifier.Classify | src/RequestAnalyzer.ts:41-51 | the result is `var` with recognizer i's placeholder when recognizer i is the first, in registration order, to match; it is `static` with the token unchanged when none matches |
| Classifier.ClassifiedVarIsPlaceholder | src/RequestAnalyzer.ts:43-46 | a `var` classification always carries the placeholder of the first matching recognizer |
| Registration.ClassifyAfterRegister | src/RequestAnalyzer.ts:36-38 | a recognizer registered later changes a token's classification only when no earlier recognizer matches it |
| UrlParts.WithOptional | src/RequestAnalyzer.ts:73 | appending `Optional` to a position adds one suffix and keeps the base role |
| UrlParts.PositionStringInjective | src/RequestAnalyzer.ts:4 | two positions with the same spelling are the same position |
| UrlParts.IsQueryString | src/RequestAnalyzer.ts:155 | `position == "query"` holds exactly for the unsuffixed query position |
| UrlParts.IsQueryOptionalString | src/RequestAnalyzer.ts:157 | `position == "queryOptional"` holds exactly for a query position with one suffix |
| UrlParts.IsTerminatorString | src/RequestAnalyzer.ts:75 | `position != "terminator"` fails exactly for the unsuffixed terminator position |
| UrlParts.EndsWithOptionalString | src/RequestAnalyzer.ts:162 | `position.endsWith("Optional")` holds exactly when at least one suffix was appended |
| Insertion.FindChild | src/RequestAnalyzer.ts:59-61 | the index of the first child whose value equals the given one, or none when no child's value does |
| Insertion.RemoveTerminators | src/RequestAnalyzer.ts:74-76 | a child is kept exactly when its position is not `terminator` |
| Insertion.RemoveTerminatorsCounts | src/RequestAnalyzer.ts:74-76 | every kept child occurs as often as in the input, and no terminator-positioned child remains |
| Insertion.RemoveTerminatorsConcat | src/RequestAnalyzer.ts:74-76 | the filter keeps order: filtering `a + b` gives the filtered `a` followed by the filtered `b` |
| Insertion.HandlePart | src/RequestAnalyzer.ts:53-88 | an existing child with the value is reused (the first such) and the tree is unchanged. Otherwise a childless node of the given type and value is appended last. Its position gains `Optional`, and the terminators are removed with the other children kept in order, exactly when the parent had a terminator-typed child |
| Insertion.MarkOptional | src/RequestAnalyzer.ts:116-118 | every child's position string gains `Optional`; its value, type and children are unchanged |
| Insertion.EndOfRequest | src/RequestAnalyzer.ts:115-129 | with a child off the `terminator` position, every child gains one `Optional`; a childless node gets one terminator; a node whose children are all on the `terminator` position is unchanged |
| Insertion.Descend | src/RequestAnalyzer.ts:95-129 | the descent keeps the root's value, type and position |
| Insertion.PathParts | src/RequestAnalyzer.ts:93 | no path part is empty or contains `/` |
| Text.Split | src/RequestAnalyzer.ts:93 | `split("/")` yields at least one piece, no piece contains the separator, and joining the pieces restores the string |
| Text.SplitJoin | src/RequestAnalyzer.ts:93 | splitting a join of separator-free pieces returns the pieces |
| Text.NonEmpty | src/RequestAnalyzer.ts:93 | the kept pieces are non-empty and come from the input, every non-empty piece is kept, and an input without empty pieces is returned unchanged |
| Text.NonEmptyCounts | src/RequestAnalyzer.ts:93 | every non-empty piece is kept as often as it occurs, and no empty piece is kept |
| Text.NonEmptyConcat | src/RequestAnalyzer.ts:93 | the filter keeps order: filtering `a + b` gives the filtered `a` followed by the filtered `b` |
| Insertion.PathPartsOfJoin | src/RequestAnalyzer.ts:93 | the path parts of a `/`-join of slash-free pieces are those pieces with the empty ones dropped, in order |
| Insertion.RequestSegments | src/RequestAnalyzer.ts:93-107 | the classified path parts with role `path` come first, then for each query pair in order `name=classified value` with role `query` |
| Insertion.HandleUrlSegments | src/RequestAnalyzer.ts:92-130 | inserting a request keeps the root's value, type and position |
| InsertionInvariant.ClassifiedNonEmpty | src/RequestAnalyzer.ts:41-51 | with non-empty placeholders, a non-empty token never classifies to the empty value |
| InsertionInvariant.RequestSegmentsProper | src/RequestAnalyzer.ts:93-107 | with non-empty placeholders, every segment value is non-empty and no segment has the terminator role |
| InsertionInvariant.TerminatorTestsAgree | src/RequestAnalyzer.ts:72-76 | in a well-formed tree, "has a terminator-typed child" holds exactly when the node has children but none off the `terminator` position; the child list is then a single terminator, which the filter removes |
| InsertionInvariant.HandlePartReuseWellFormed | src/RequestAnalyzer.ts:59-64 | reusing a child leaves the tree as it was, and a node holding a terminator never has a child to reuse |
| InsertionInvariant.AppendWellFormed | src/RequestAnalyzer.ts:79-85 | appending a fresh non-terminator child with a new value keeps the node well formed |
| InsertionInvariant.HandlePartNewWellFormed | src/RequestAnalyzer.ts:66-86 | creating a branch keeps the node well formed and leaves no terminator among its children |
| InsertionInvariant.HandlePartWellFormed | src/RequestAnalyzer.ts:53-88 | one step of the descent keeps the node well formed and leaves no terminator among its children |
| InsertionInvariant.RepositionWellFormed | src/RequestAnalyzer.ts:116-118 | changing a non-terminator node's position to a non-terminator role keeps its subtree well formed |
| InsertionInvariant.EndOfRequestWellFormed | src/RequestAnalyzer.ts:115-129 | the end-of-request bookkeeping keeps the tree well formed |
| InsertionInvariant.ReplaceChildWellFormed | src/RequestAnalyzer.ts:98 | replacing a child by a well-formed node with the same value and type keeps the parent well formed |
| InsertionInvariant.DescendWellFormed | src/RequestAnalyzer.ts:92-130 | inserting a request with proper segments into a well-formed tree gives a well-formed tree |
| Reinsertion.InsertedRequestIsFound | src/RequestAnalyzer.ts:92-130 | after an insertion, the request's segments lead along existing children to a node with children |
| Reinsertion.FollowAfterInsertion | src/RequestAnalyzer.ts:59-64 | inserting along a path that already exists only applies the end-of-request bookkeeping at the node it reaches |
| Reinsertion.ReinsertIsNoop | src/RequestAnalyzer.ts:115-129 | along an existing path that ends at a node whose children are all terminators, insertion changes nothing |
| Reinsertion.RepeatedInsertion | src/RequestAnalyzer.ts:115-119 | inserting a request a second time leaves the tree unchanged exactly when nothing continues past its end node after the first insertion |
| Growth.DescendChildless | src/RequestAnalyzer.ts:79-86 | inserting below a childless node grows one chain, the segments in order, ending in a terminator |
| Growth.DescendReuse | src/RequestAnalyzer.ts:59-64 | a segment whose value a child already holds continues inside that child, and no other child changes |
| Growth.DescendNewBranch | src/RequestAnalyzer.ts:79-86 | a new value under a node without a terminator grows a chain after the existing children |
| Growth.DescendPastTerminator | src/RequestAnalyzer.ts:72-86 | a new value under a node whose only child is a terminator replaces it with a chain whose first node is optional |
| Rendering.FragmentShape | src/RequestAnalyzer.ts:150-167 | the fragment is `?` for an unsuffixed query, `&` for a query with exactly one suffix and `/` otherwise (so `queryOptionalOptional` gets `/`). It is followed by the value, wrapped as `(?value)` exactly when a suffix was appended |
| Rendering.FillRoutes | src/RequestAnalyzer.ts:170-186 | every route keeps the host and extends the path it was given, and a childless non-terminator yields no route |
| Rendering.AnalyzedRoutes | src/RequestAnalyzer.ts:190-202 | every route carries the root's value as its host |
| Rendering.RouteCount | src/RequestAnalyzer.ts:170-186 | a node yields exactly one route per terminator below it |
| Rendering.RoutesComeFromTerminators | src/RequestAnalyzer.ts:170-186 | every route renders some path down to a terminator: the given path followed by the fragments along it |
| Rendering.TerminatorsYieldRoutes | src/RequestAnalyzer.ts:170-186 | every path down to a terminator is rendered as one of the routes |
| Rendering.AnalyzedRoutesAreTerminatorPaths | src/RequestAnalyzer.ts:190-202 | a route is produced exactly when it is the root's host with the fragments along a path from a root child down to a terminator |
| Rendering.ChildRoutesInOrder | src/RequestAnalyzer.ts:178-183 | the routes of a node's children are those of each child as one block, in child-insertion order |
| Rendering.AnalyzedRoutesInChildOrder | src/RequestAnalyzer.ts:194-200 | the routes below the root's child j come as one block, after those of every earlier child and before those of every later child |
| Rendering.AnalyzedRouteCount | src/RequestAnalyzer.ts:190-202 | one route per terminator in the tree |
| Analyzer.AddRequest | src/RequestAnalyzer.ts:134-146 | the first request creates the root from its host; later requests keep the root's host and type whatever their own host |
| Analyzer.AddRequests | src/RequestAnalyzer.ts:134-146 | feeding requests keeps the recognizers, and a root exists after at least one request |
| Analyzer.GetAnalyzedRoutes | src/RequestAnalyzer.ts:190-202 | every route carries the root's host |
| Analyzer.AddRequestValid | src/RequestAnalyzer.ts:134-146 | with non-empty placeholders, one request keeps the analyzer's tree well formed and rooted at a host |
| Analyzer.AddRequestsValid | src/RequestAnalyzer.ts:134-146 | with non-empty placeholders, any sequence of requests keeps the tree well formed |
| Analyzer.HostOfFirstRequest | src/RequestAnalyzer.ts:141-143 | the root's value and every route's host are the first request's host |
| Scenarios.UuidsCollapse | src/RequestAnalyzer.ts:59-64 | `/x/<uuid1>` then `/x/<uuid2>`, both recognised as `{UUID}`, render the single route `/x/{UUID}` |
| Scenarios.TerminatorBecomesOptional | src/RequestAnalyzer.ts:72-77 | `/shop/tvs` then `/shop/tvs/<uuid>` render only `/shop/tvs/(?{UUID})` |
| Scenarios.EmptyValueEntersTerminator | src/RequestAnalyzer.ts:59-61 | a segment with the empty value matches a terminator in the child search, so a second such segment descends into the terminator and the tree stops being well formed |
| QueryScenarios.OmittedQueryKeyBecomesOptional | src/RequestAnalyzer.ts:115-119 | `?category=tvs&limit=10` then `?category=computers`, with categories recognised, render `?category={c}&(?limit={n})` |
| QueryScenarios.RepeatedOmissionChangesSeparator | src/RequestAnalyzer.ts:155-159 | a third request that stops at the category node makes the limit `queryOptionalOptional`, rendered `/(?limit={n})` |
| QueryScenarios.RepeatedRequestChangesRoutes | src/RequestAnalyzer.ts:115-119 | feeding the same concrete request `?category=computers` a second time changes the rendered route |
| QueryScenarios.SecondRequiredKeyUsesQuestionMark | src/RequestAnalyzer.ts:155-156 | without a category recognizer the two requests branch at the category pair, and the required `limit` is joined with `?` |

## Left out

- URL parsing (src/RequestAnalyzer.ts:136-140) is not modelled. The `http://` prefixing and `new URL` are left out, so a request arrives already split into host, path and query pairs.
- The `searchParams.toString() != ""` guard (src/RequestAnalyzer.ts:101) is not modelled separately. With no pairs the loop adds nothing anyway, so the guard changes nothing.
- Analyzer.GetAnalyzedRoutes requires a root. `getAnalyzedRoutes` reads `this.treeRoot.value` at src/RequestAnalyzer.ts:192, which throws before the first request.
- Analyzer.Register (`registerIPatternRecognizer`) carries no contract of its own. Its meaning is stated by Registration.ClassifyAfterRegister.
- Analyzer.InitTreeRoot (`initTreeRoot`, src/RequestAnalyzer.ts:27-34) carries no contract of its own. Its content shows through Analyzer.AddRequest, which states the root's value and type, and through Scenarios.RunTwo and Scenarios.RunThree, which start every worked example from the fresh, childless root it builds.
- InsertionInvariant.DescendWellFormed, Analyzer.AddRequestValid and Analyzer.AddRequestsValid assume that no recognizer's placeholder is empty (`PlaceholdersNonEmpty`). A `""` placeholder gives a segment the terminator's value `""`, so the child search walks into the terminator. Scenarios.EmptyValueEntersTerminator shows that the invariant then fails, so the hypothesis is needed.
- Recognizers are modelled as pure, total predicates (`string -> bool`). Recognizers with side effects or exceptions are not modelled.
- JavaScript strings (UTF-16 code units) are modelled as `seq<char>`.
- The mutable `childern` arrays and in-place `position +=` updates are modelled as values, so aliasing between nodes is not modelled.
- `src/demo.ts` (sample recognizers and printing) is not part of this model.
- Reinsertion.RepeatedInsertion and QueryScenarios.RepeatedRequestChangesRoutes show that inserting the exact same request twice is not always a no-op: the end-of-request step runs again and adds one more `Optional` to every continuation, and `queryOptionalOptional` then renders with `/`.
- QueryScenarios.OmittedQueryKeyBecomesOptional follows the code: `limit` becomes optional only when the request that omits it reaches the same node. Without a category recognizer the requests branch apart, as QueryScenarios.SecondRequiredKeyUsesQuestionMark shows.
