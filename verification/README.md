# The preact-iso router core, modelled in Dafny

This project models the client-side router of the wmr repository in two
versions:

- `demo/public/lib/loc.js`, the demo router with ranked routes.
- `packages/preact-iso/router.js`, the packaged router. Its selection
  code holds an unresolved merge conflict, so both sides are modelled:
  the `HEAD` side and the `new solution` side.

Both files share the same parts, and the model follows them module by
module:

- **Location reducer** (`UPDATE`). A pure function from the state, the
  action and the `push` flag to the new URL and the history call it makes.
  It also covers the trailing-slash rule the location provider applies to
  `pathname`. Module `Navigation`.
- **Matcher** (`exec`). Each version has its own:
  - `LocMatch` covers loc.js: query parsing, `segmentize` and the segment
    loop with `+`, `*` and `?` flags.
  - `IsoMatch` covers router.js: `trim`/`split`, the segment regular
    expression `/^(\:?)(.*?)([+*?]?)$/`, and the loop whose exits are
    `continue`, `return` and `break`.

  Each matcher is written twice: as a function, and as a method with the
  source's loop, proved equal to the function.
- **Ranking** (loc.js only). `rankSegment`, `rank`, `rankChild`,
  `pathRankSort` and `prepareVNodeForRanking`. The last writes `index` and
  `rank` onto the child elements in place, so here it is a `VNode` class.
  The engine's `sort` is specified by a proof that any sorted permutation
  of the prepared children equals the one the model computes.
- **Transition controller**. The refs `cur`, `prev`, `curChildren`,
  `prevChildren` and `pending`, the URL-change block, `componentDidCatch`,
  and the `[url]` effect with its `commit` guard. These are pure step
  functions plus a `Router` class whose methods update the refs in place.
  Lemmas over event traces show that a superseded load never commits.
- **Route selection**. Each of the three selections in its own module:
  loc.js (`LocRouter`), router.js `HEAD` and router.js `new solution`
  (`IsoSelection`). Each render method runs the URL-change block, selects
  the children and builds the returned view.

Some parts of the original are parameters rather than code:

- `decodeURIComponent` is a total function `decode: string -> string`.
- The browser is plain data: `location`, the clicked anchor, the history
  calls.
- A thrown promise is an opaque `Token`. When it settles is an event the
  environment delivers.

## Model

| member | source | states |
|---|---|---|
| Navigation.Update | demo/public/lib/loc.js:4-19 | only a same-origin link click is intercepted, and it always pushes; other clicks leave the state and history alone; a string becomes the state, anything else resyncs to `pathname + search`; any history entry written is the new state; outside clicks the `push` flag alone picks `pushState`/`replaceState`/none |
| Navigation.SameOriginLinkNavigatesToPath | packages/preact-iso/router.js:7-13 | a same-origin link whose `href` is the origin plus a path navigates to that path with `pushState` and `preventDefault`, whatever `push` was |
| Navigation.NormalizePath | demo/public/lib/loc.js:92 | the normalised path is the pathname or the pathname minus one final `/`, and only a pathname of two or more characters loses it |
| Navigation.TrailingSlashIgnored | packages/preact-iso/router.js:49 | `/a/` and `/a` give the same path and the root `/` stays `/` |
| Navigation.OnlyOneSlashRemoved | demo/public/lib/loc.js:92 | only one slash is removed (`/a//` gives `/a/`), so the rule is not idempotent |
| LocMatch.SuffixStart | demo/public/lib/loc.js:23-24 | the query/hash regular expression matches at the leftmost position from which the rest of the URL is `?query` and/or `#hash` |
| LocMatch.SuffixStartIsFirstMark | demo/public/lib/loc.js:23-36 | without line terminators the match starts at the first `?` or `#`: the path is what precedes it, and there is a query group exactly when that mark is `?` |
| LocMatch.QueryText | demo/public/lib/loc.js:23 | the query group is the `#`-free text after the `?`, up to the next `#` |
| LocMatch.QueryGroup | demo/public/lib/loc.js:23-24 | `c[1]`, when present, holds no `#` |
| LocMatch.PathPart | demo/public/lib/loc.js:36 | `url.replace(reg, '')` is a prefix of the URL; what it cuts off matches the query/hash expression, and the cut is at the leftmost position where the expression matches |
| LocMatch.PairSplitsAtFirstEquals | demo/public/lib/loc.js:31-32 | a query pair's key is the text before its first `=`, its value all the text after it with later `=` kept, and `""` without `=` |
| LocMatch.AddPairs | demo/public/lib/loc.js:29-33 | storing the pairs never removes a key the map already had |
| LocMatch.QueryMatches | demo/public/lib/loc.js:25-34 | the map starts empty and gets entries only when `c[1]` is a non-empty string (`if (c && c[1])`) |
| LocMatch.AddPairsLastWins | demo/public/lib/loc.js:29-33 | a key is present after the query loop iff some pair has it or it was there before; the last pair with that key gives its value |
| LocMatch.ParseQuery | demo/public/lib/loc.js:29-33 | the query loop stores the pairs of `c[1].split('&')` in order |
| LocMatch.Segmentize | demo/public/lib/loc.js:69 | `segmentize` gives at least one segment and no segment holds `/` |
| LocMatch.SegmentizeRejoins | demo/public/lib/loc.js:69 | joined with `/`, the segments give back the path without its leading and trailing slashes |
| LocMatch.SegmentizeIgnoresOuterSlashes | demo/public/lib/loc.js:69 | a leading or trailing `/` does not change the segments |
| LocMatch.FlagRunLength | demo/public/lib/loc.js:42 | the flags are the longest trailing run of `+`, `*`, `?` |
| LocMatch.ParamNameRejoins | demo/public/lib/loc.js:41-42 | colon, parameter name and flags put back together give the segment |
| LocMatch.Walk | demo/public/lib/loc.js:36-62 | the segment loop never removes a key of the map it is given (query entries may only be overwritten) |
| LocMatch.Match | demo/public/lib/loc.js:22-67 | a route with `default: true` always matches |
| LocMatch.Exec | demo/public/lib/loc.js:22-67 | `exec` as written (query loop, then segment loop) returns exactly `Match` |
| LocMatch.WalkSegments | demo/public/lib/loc.js:38-62 | the segment loop with its two `break`s computes the walk |
| LocMatch.WalkFailsAt | demo/public/lib/loc.js:47-50 | the walk fails at the first segment that does not pass its check |
| LocMatch.WalkRestCaptures | demo/public/lib/loc.js:52-55 | a reached `+`/`*` parameter binds the decoded rest of the URL joined with `/` and ends the walk with success |
| LocMatch.WalkIgnoresAfterRest | demo/public/lib/loc.js:53-55 | pattern segments after a reached `+`/`*` parameter are never looked at |
| LocMatch.WalkSucceeds | demo/public/lib/loc.js:39-62 | if every segment passes its check, the walk succeeds |
| LocMatch.WalkKeeps | demo/public/lib/loc.js:25-55 | on a walk that stops at `k` (the end, or a `+`/`*` parameter that passes its check), a query entry whose key no parameter up to `k` names survives with its value |
| LocMatch.WalkBinds | demo/public/lib/loc.js:45-55 | on a walk that stops at `k` (the end, or a `+`/`*` parameter that passes its check), a parameter before `k` binds its decoded URL segment (`""` when missing) unless a later parameter up to `k` with the same name overwrites it |
| LocMatch.RestPatternExample | demo/public/lib/loc.js:36-62 | `/users/:id/files/:path*` against `/users/5/files/a/b` succeeds with `id` bound to the decoded `5` and `path` to the decoded rest `a/b` |
| LocMatch.WalkFailsIffSomeSegmentBad | demo/public/lib/loc.js:39-62 | without `+`/`*` parameters the walk fails iff some segment does not pass its check |
| LocMatch.MatchIffSegmentsOk | demo/public/lib/loc.js:36-66 | without `+`/`*` parameters a non-default route matches iff every segment of the path and pattern passes its check |
| LocMatch.LiteralPatternMatchesExactly | demo/public/lib/loc.js:58-64 | a pattern of literal segments matches a non-default route iff the path has the same segments |
| Ranking.RankSegment | demo/public/lib/loc.js:70 | a segment ranks 1 to 5, and 5 exactly when it is not a parameter |
| Ranking.RankAgreesWithMatcher | demo/public/lib/loc.js:70 | with at most one flag, the rank follows the matcher's flags: literal 5, plain 4, `?` 3, `+` 2, `*` 1 |
| Ranking.RankAndMatcherDisagreeOnTwoFlags | demo/public/lib/loc.js:42-44 | `:x+?` ranks as optional (3) while `exec` treats it as a rest parameter |
| Ranking.Rank | demo/public/lib/loc.js:71 | a path's rank has one digit per segment, the digit of that segment's rank |
| Ranking.RankChild | demo/public/lib/loc.js:72 | a default child gets the default rank, any other child its path's rank |
| Ranking.PrepareVNodeForRanking | demo/public/lib/loc.js:81-85 | a prepared child keeps its child and gets its position and its rank |
| Ranking.VNode.PrepareForRanking | demo/public/lib/loc.js:81-85 | the element is tagged in place and its props are returned |
| Ranking.PrepareAll | demo/public/lib/loc.js:151-152 | `filter(prepareVNodeForRanking)` keeps every element and tags element `i` with `i` and its rank |
| Ranking.RankLess | demo/public/lib/loc.js:74-76 | `a.rank < b.rank`, including the number `0` of a default, is lexicographic order on the digit strings, a default counting as empty |
| Ranking.PathRankSort | demo/public/lib/loc.js:74-78 | the comparator is negative exactly when `a`'s digits are greater, or equal with a smaller index, and zero exactly for equal digits and equal index |
| Ranking.LeMeaning | demo/public/lib/loc.js:74-78 | `pathRankSort(a, b) <= 0` iff `b`'s rank is lower, or the ranks are equal and `a` is not later |
| Ranking.LeTotal | demo/public/lib/loc.js:74-78 | the comparator orders any two entries one way or the other |
| Ranking.LeTransitive | demo/public/lib/loc.js:74-78 | the comparator is transitive |
| Ranking.LeAntisymmetric | demo/public/lib/loc.js:74-78 | entries ordered both ways have the same index and the same digits (a default and an empty path rank count alike) |
| Ranking.InsertSorted | demo/public/lib/loc.js:153 | inserting into a sorted sequence keeps it sorted |
| Ranking.SortByRank | demo/public/lib/loc.js:153 | the sorted children are a permutation of the prepared ones |
| Ranking.SortByRankSorted | demo/public/lib/loc.js:153 | the sorted children are in comparator order |
| Ranking.SortedPermutationUnique | demo/public/lib/loc.js:153 | two sorted permutations of entries with distinct indices are equal |
| Ranking.SortIsDetermined | demo/public/lib/loc.js:151-153 | whatever algorithm `sort` uses, its result on the prepared children is the modelled one |
| Ranking.DefaultsSortLast | demo/public/lib/loc.js:72-76 | a default child sorts after every child with a path |
| Ranking.HigherRankFirst | demo/public/lib/loc.js:74-78 | a higher rank sorts first; equal ranks keep declaration order |
| IsoMatch.SplitSegmentParts | packages/preact-iso/router.js:27 | the three groups of the segment regular expression rejoin to the segment; the colon is there exactly for a parameter; the flag is one of `+`, `*`, `?` or nothing |
| IsoMatch.SplitSegmentFails | packages/preact-iso/router.js:27 | the regular expression fails exactly on a segment holding a line terminator |
| IsoMatch.SplitSegment | packages/preact-iso/router.js:27 | on a match the colon group is present exactly for a segment starting with `:`, and the flag is one of `+`, `*`, `?` or nothing |
| IsoMatch.Segments | packages/preact-iso/router.js:24-25 | `split('/')` gives at least one segment and none holds `/` |
| IsoMatch.SegmentsRejoin | packages/preact-iso/router.js:24-25 | joined with `/`, the segments give back the trimmed string |
| IsoMatch.Walk | packages/preact-iso/router.js:26-40 | the loop throws only when some pattern segment from the current one on does not match the regular expression |
| IsoMatch.OnlyOptionalGoesOn | packages/preact-iso/router.js:36 | of the four flags, only `?` passes `flag >= '?'` |
| IsoMatch.Captured | packages/preact-iso/router.js:34 | a missing value is stored as `undefined`, an empty one as `""`, anything else decoded |
| IsoMatch.Exec | packages/preact-iso/router.js:23-42 | `exec` as written returns the result of the walk over the trimmed and split URL and pattern |
| IsoMatch.ExecSegments | packages/preact-iso/router.js:26-41 | the loop with its `continue`, `return` and `break` computes the walk, including the throw of an unmatched segment |
| IsoMatch.WalkReaches | packages/preact-iso/router.js:26-36 | when every segment before `k` lets the walk go on, it reaches `k` with those segments' captures stored |
| IsoMatch.LiteralSegment | packages/preact-iso/router.js:30-32 | a literal equal to the URL segment is passed; any other literal ends the match with `undefined` |
| IsoMatch.LongerLiteralPatternFails | packages/preact-iso/router.js:26-32 | a pattern with an extra literal segment past the URL's end never matches |
| IsoMatch.MissingRequiredFails | packages/preact-iso/router.js:32 | a parameter whose URL segment is missing or empty ends the match unless its flag is `?` or `*` |
| IsoMatch.OptionalBindsAndGoesOn | packages/preact-iso/router.js:34-36 | a `?` parameter stores its decoded segment, or `undefined` past the URL's end, and the walk goes on |
| IsoMatch.RestEndsWalk | packages/preact-iso/router.js:36-39 | every other accepted parameter stores the decoded rest of the URL joined with `/` and ends the walk |
| IsoMatch.WalkKeepsKeys | packages/preact-iso/router.js:34-41 | the object keeps every key it had, and the value of every key no pattern segment names |
| IsoMatch.PathAndQueryKept | packages/preact-iso/router.js:110 | `{ path, query }` comes back with both entries, unchanged when no parameter has either name |
| IsoMatch.NoThrowWithoutLineTerminator | packages/preact-iso/router.js:27 | a pattern without line terminators never makes `exec` throw |
| IsoMatch.LeadingSlashGivesEmptySegment | packages/preact-iso/router.js:24-25 | `trim` leaves `/` alone, so a leading `/` gives an empty first segment |
| IsoMatch.LeadingSlashesAlign | packages/preact-iso/router.js:24-30 | a URL and a pattern that both start with `/` pass that empty segment |
| IsoMatch.UserEditPattern | packages/preact-iso/router.js:27 | `/user/:id/edit` cuts into an empty literal, `user`, a plain `id` parameter and `edit` |
| IsoMatch.PlainParamSwallowsRest | packages/preact-iso/router.js:36-39 | as written, `/user/:id/edit` matches `/user/5/delete` and binds `id` to `5/delete` |
| IsoMatch.IntendedPlainParamGoesOn | packages/preact-iso/router.js:35-36 | with the intended test, a plain parameter stores its own decoded segment and the walk goes on |
| IsoMatch.IntendedPlainParamExample | packages/preact-iso/router.js:35-36 | with the intended test, `/user/:id/edit` rejects `/user/5/delete` and matches `/user/5/edit` with `id` bound to `5` |
| IsoSelection.ClonesKeepPathAndQuery | packages/preact-iso/router.js:110 | each clone has a `path` and a `query` entry, holding the location's `path` and `query` unless a parameter of the pattern takes that name |
| IsoSelection.ChildNeverThrows | packages/preact-iso/router.js:110 | with clean patterns no child's `exec` throws |
| IsoSelection.HeadMatches | packages/preact-iso/router.js:109-111 | the kept clones are exactly those of the children whose `exec` returned the object, and there are none iff no child matched |
| IsoSelection.HeadMatchesInOrder | packages/preact-iso/router.js:109-111 | the kept clones are those of the matching children in declaration order: every matching child is there, at increasing positions |
| IsoSelection.Defaults | packages/preact-iso/router.js:113 | the fallback holds exactly the default children, uncloned |
| IsoSelection.DefaultsInOrder | packages/preact-iso/router.js:113 | the fallback lists every default child, uncloned, in declaration order |
| IsoSelection.HeadSelect | packages/preact-iso/router.js:109-113 | `HEAD` stores nothing iff no child matched and no child is a default |
| IsoSelection.HeadView | packages/preact-iso/router.js:115 | the view is the first selected element (possibly `undefined`) followed by the previous children |
| IsoSelection.HeadRendersFirstMatch | packages/preact-iso/router.js:109-115 | `HEAD` renders the clone of the first matching child in declaration order |
| IsoSelection.FirstOfHeadMatches | packages/preact-iso/router.js:109-111 | the first kept clone is that of the first matching child |
| IsoSelection.HeadFallsBackToDefault | packages/preact-iso/router.js:113-115 | with no match `HEAD` selects the default children themselves, and renders something iff there is one |
| IsoSelection.HeadRendersFirstDefault | packages/preact-iso/router.js:113-115 | with no match `HEAD` renders the first default child in declaration order, itself rather than a clone |
| IsoSelection.RenderHead | packages/preact-iso/router.js:109-115 | the render runs the URL-change block, stores the selection and returns the `HEAD` view |
| IsoSelection.SomeScan | packages/preact-iso/router.js:117-122 | the scan sets `p` iff some child matches; without a match `d` ends set iff it was set or some child is a default |
| IsoSelection.Pick | packages/preact-iso/router.js:117-124 | `p \|\| d` is something iff some child matches or is a default |
| IsoSelection.NewSelect | packages/preact-iso/router.js:117-124 | "new solution" stores an element iff some child matches or is a default |
| IsoSelection.ScanFindsFirstMatch | packages/preact-iso/router.js:117-122 | the `some` scan stops at the first matching child with `p` set to its clone |
| IsoSelection.ScanKeepsLastDefault | packages/preact-iso/router.js:117-122 | without a match the scan leaves `p` unset and `d` holding the clone of the last default child, or unchanged when there is none |
| IsoSelection.PickChooses | packages/preact-iso/router.js:117-124 | `p \|\| d` is the first matching child's clone; without a match it is the last default child's clone, and nothing iff there is no default child |
| IsoSelection.LastDefault | packages/preact-iso/router.js:121 | the position found is a default child with no default child after it |
| IsoSelection.NewSolution | packages/preact-iso/router.js:117-122 | the scan as the code runs it, with `p` and `d` as variables, gives the specified choice |
| IsoSelection.RenderNewSolution | packages/preact-iso/router.js:117-124 | the render runs the URL-change block, stores `p \|\| d` and returns it with the previous children |
| Transition.Initial | demo/public/lib/loc.js:118-122 | the first render holds the location and four empty refs |
| Transition.OnRender | demo/public/lib/loc.js:124-129 | a new URL moves the location and children to the previous slots and forgets the pending token; the same URL changes nothing |
| Transition.OnCatch | demo/public/lib/loc.js:131-133 | a thrown thenable becomes the pending token and nothing else changes; any other error changes nothing |
| Transition.OnCommit | demo/public/lib/loc.js:138-143 | `commit` acts iff the location is still the effect's URL and the pending token is still the one it saw; it then clears the previous location and children and notifies `onLoadEnd` and a re-render |
| Transition.OnEffect | demo/public/lib/loc.js:135-149 | with a pending token the effect announces `onLoadStart` and waits for that token; without one it commits at once |
| Transition.LoadStartIffPending | packages/preact-iso/router.js:92-106 | `onLoadStart` is called exactly when a token is pending, and only an effect without one changes the refs |
| Transition.EffectWithoutPendingCommits | packages/preact-iso/router.js:92-106 | an effect right after its own render with nothing pending drops the previous view at once |
| Transition.TokenStaysAway | packages/preact-iso/router.js:81-90 | over any trace, only a catch of a token makes it pending |
| Transition.StaleTokenCannotCommit | packages/preact-iso/router.js:96 | a token that is not pending commits nothing, whatever happens, until it is thrown again |
| Transition.NavigationSupersedesToken | packages/preact-iso/router.js:81-86 | after a navigation the earlier token's settling never commits |
| Transition.OnlyLatestTokenCommits | packages/preact-iso/router.js:88-100 | a newer thrown token makes an older one's settling a no-op; the newer one's settling commits: it calls `onLoadEnd` and re-renders, and clears the previous location and children |
| Transition.LocationKept | demo/public/lib/loc.js:124-129 | the location (its URL and everything else in `cur`) only changes at a render with a different URL |
| Transition.Router.Sync | demo/public/lib/loc.js:124-129 | the URL-change block updates the refs in place as `OnRender` says |
| Transition.Router.SetChildren | demo/public/lib/loc.js:151-157 | storing the selection in `curChildren` changes that ref and nothing else |
| Transition.Router.DidCatch | demo/public/lib/loc.js:131-133 | `componentDidCatch` updates the refs in place as `OnCatch` says |
| Transition.Router.Commit | demo/public/lib/loc.js:138-143 | `commit` updates the refs in place and returns the notices as `OnCommit` says |
| Transition.Router.RunEffect | demo/public/lib/loc.js:135-149 | the effect updates the refs in place, returns the notices and the token it waits for, as `OnEffect` says |
| LocRouter.Matches | demo/public/lib/loc.js:154 | the match test is the truthiness of `exec`, and a default child always passes it (loc.js:64) |
| LocRouter.DropDefaults | demo/public/lib/loc.js:157 | a single selection is kept as is; of several, exactly the children that are not defaults remain |
| LocRouter.Selected | demo/public/lib/loc.js:151-157 | every kept entry is one of the prepared children and passed the match test |
| LocRouter.Select | demo/public/lib/loc.js:151-157 | the stored selection holds clones of the router's own children, each with the location's `path` and `query` |
| LocRouter.SelectedInRankOrder | demo/public/lib/loc.js:151-157 | the selected children are in rank order: higher rank first, ties in declaration order |
| LocRouter.SelectedExactly | demo/public/lib/loc.js:151-157 | every selected child matched; every matching child that is not a default is selected; a default child is only selected alone |
| LocRouter.DefaultFallback | demo/public/lib/loc.js:154-157 | with a single default child and no other match, that child alone is selected |
| LocRouter.TwoDefaultsRenderNothing | demo/public/lib/loc.js:154-157 | with two default children and no other match, both are dropped and nothing is selected |
| LocRouter.RendersDefaultWhenNothingMatches | demo/public/lib/loc.js:151-157 | with `exec` as the test, the single default child is rendered, cloned with `{ path, query }`, when nothing else matches |
| LocRouter.FilterSorted | demo/public/lib/loc.js:155-157 | filtering keeps the rank order |
| LocRouter.Render | demo/public/lib/loc.js:124-159 | the render runs the URL-change block, tags the children in place, stores the selection and returns it followed by the previous children |

## Left out

- DOM, events and rendering: `addEventListener`, `preventDefault`, `closest('a[href]')`, `useReducer`, `useMemo`, `cloneElement` and the `update(0)` re-render are data or notices, not behaviour.
- `new URL(url, location.origin)` and `URLSearchParams` (demo/public/lib/loc.js:91-94, packages/preact-iso/router.js:48-51): URL parsing is not part of this model, and `Loc.path` and `Loc.query` are inputs. Only the trailing-slash rule is modelled (`Navigation.NormalizePath`).
- `decodeURIComponent` is a total parameter. It can throw `URIError` on malformed escapes; the model does not.
- The router.js segment regular expression fails on a pattern segment holding a line terminator, and the destructuring then throws. The matcher models this as the exit `Threw`. The selection members require patterns without line terminators (`IsoSelection.PatternsClean`), so an exception escaping the render is not modelled. That requirement also excludes patterns whose line terminator comes after the segment where the walk already stops (packages/preact-iso/router.js:26-32), which the code accepts without throwing; the selection is not modelled for those patterns.
- The merge conflict in packages/preact-iso/router.js:108-125 is modelled as two separate selections, `HEAD` and `new solution`. Neither is preferred.
- Both router.js selections call `exec` with the normalised `path`, not the raw `url` as loc.js does. The model follows the code.
- Promises: a thrown thenable is an opaque `Token`. When and whether it settles is the environment's choice, and a settling is delivered as an event. Rejection is not modelled, nor is any error that is not a thenable beyond "nothing happens".
- `useEffect` scheduling: an effect runs after its render only when `Effect(url)` is in the event trace. React's batching and ordering are not modelled.
- `null` and `undefined` in the refs are both `None`. The code never tells them apart.
- Ranking.PrepareAll, LocRouter.Render: both require the children to be distinct elements. One element appearing twice in `props.children` is tagged twice, and the model does not capture that aliasing.
- A `default` prop is a boolean here. loc.js tests `opts.default !== true` for the match and truthiness for ranking and for the final filter, and these differ for truthy non-boolean values.
- A child with neither a `path` nor `default` makes `rank(undefined)` throw in loc.js. Here a missing path is the empty string.
- Only arrays of element children are modelled: `[].concat(props.children \|\| [])` with a single child or `null`, and the `.filter` on a non-array `props.children` in loc.js, are not.
- Strings are sequences of code points. JavaScript compares and indexes UTF-16 code units, so ranks and segments with characters outside the Basic Multilingual Plane are out of scope.
- Query keys such as `__proto__` are ordinary map keys here.
- The `LocationProvider` components (event listeners, context) are left out. Their reducer is `Navigation.Update`.
- IsoSelection.HeadSelect, IsoSelection.NewSelect and the two router.js render methods use the `exec` as written, plain-parameter behaviour included. The corrected rule is proved about separately (see Findings) and is not substituted into the renders, so that they model the file as it stands.

## Findings

| source | as written | input that shows it | evidently intended | confidence | as-written member | corrected member |
|---|---|---|---|---|---|---|
| packages/preact-iso/router.js:35-39 | `flag >= '?'` compares strings, so it holds only for `?`. A plain `:name` parameter, whose flag is `''`, falls through to the rest capture. It binds the remaining URL joined with `/` and ends the match. | pattern `/user/:id/edit` and URL `/user/5/delete`: it matches with `id` = `5/delete` | the comment calls this branch "normal/optional field": a plain or `?` parameter stores its own segment and the walk goes on, so `/user/5/delete` is rejected | not executed | IsoMatch.PlainParamSwallowsRest | IsoMatch.IntendedPlainParamGoesOn |
