# Terminal graph viewer: graph model, search and edge routing in Dafny

This project models the core of a terminal graph viewer. The viewer holds laid-out nodes and
edges, a terminal size and a camera offset. It pans and fits the camera, finds the node
under the centre of the terminal, and ranks nodes against a search query. It also routes every
edge as an orthogonal polyline of unit steps and draws each step with a box-drawing glyph.

Modules:

- `Types` (types.dfy): coordinates, nodes, edges, the terminal size, the renderer constants
  (node width 16, frame height 5) and `Filter` (Array.prototype.filter).
- `Geometry` (geometry.dfy): `getOrthogonalPathPoints`, `charForSegment`, `makePathRendering`
  and `getPath` from src/utils.ts. The routing is specified by `OrthoPath`, the rendering by
  `RenderingAsWritten`. The loops that build them are methods proved equal to those functions.
  `Rendering` draws the same cells with the corrected corner table (see Findings).
- `Text` (text.dfy): `trim`, ASCII `toLowerCase`, `indexOf` and the order-keeping
  de-duplication `[...new Set(xs)]`.
- `StringDistance` (edit_distance.dfy): the recursive edit distance and the two-row
  `_levenshtein` proved equal to it. The two rows are arrays, as in the source.
- `Sorting` (sorting.dfy): the bucket comparators as a key order, and a sort proved to
  return a sorted permutation.
- `Search` (search.dfy): `Graph.search`. It covers the fields, the classification of one
  node, the three buckets, the sorts, the merge without repeated ids, the limit and the
  filtering of the buckets.
- `Viewport` (viewport.dfy): what `fitView` and `getFocusedNode` compute. That is the roots by
  in-degree, the start node, the three camera placements and the focus box test.
- `GraphModel` (graph.dfy): the `Graph` class. Its `pos`, `termSize` and lookup maps are
  fields that its methods update in place.

Behaviour of the code worth knowing:

- A route emits each pivot cell twice or three times. Routing a cell to itself gives three
  points (`Geometry.OrthoPathToSelf`).
- A route along one row, (0, 0) to (10, 0), has 13 points rather than 11. The three pivot
  points are drawn as '·' (`Geometry.SameRowRoute`).
- `fitView`'s bounding-box fallback is reached only when no node is positioned. The box is
  then empty, so the camera is centred on the origin.
- The buckets are cut down to the nodes of the limited `all` list, not filtered by id.

## Model

| member | source | states |
|---|---|---|
| Geometry.RoundHalf | src/utils.ts:22 | Math.round of n/2: 2r-1 <= n <= 2r, i.e. the nearest integer with halves rounded up |
| Geometry.OrthoPathEnds | src/utils.ts:7-86 | every route is non-empty, starts at the source and ends at the target |
| Geometry.OrthoPathConnected | src/utils.ts:7-86 | consecutive route points coincide or are one unit step apart (no diagonal step) |
| Geometry.OrthoPathLength | src/utils.ts:20-83 | the route length is the sum of the three runs' lengths plus three (each pivot repeated) |
| Geometry.OrthoPathShapeRightBelow | src/utils.ts:20-40 | right-and-below: the pivot column lies between the ends and every point is on the source row, the pivot column or the target row |
| Geometry.OrthoPathShapeOther | src/utils.ts:41-83 | other quadrants: the pivot row lies between the ends and every point is on the source column, the pivot row or the target column |
| Geometry.OrthoPathToSelf | src/utils.ts:20-40 | routing a cell to itself yields that cell three times |
| Geometry.PushHorizontal | src/utils.ts:25-27 | the `x !== to` loop appends exactly the run's cells from `from` up to, not including, `to` |
| Geometry.PushVertical | src/utils.ts:31-33 | the `y !== to` loop appends exactly the run's cells from `from` up to, not including, `to` |
| Geometry.GetOrthogonalPathPoints | src/utils.ts:7-86 | the loops produce the specified route, which starts at the source, ends at the target and is connected |
| Geometry.CharForSegmentAsWritten | src/utils.ts:88-140 | the written glyph choice always yields one of the seven glyphs |
| Geometry.CharForSegment | src/utils.ts:88-140 | always one of the seven glyphs; '·' with no neighbours; an endpoint is '─' exactly when its one step is horizontal, else '│' |
| Geometry.TurnFollowsPath | src/utils.ts:106-135 | with the corrected corners, an interior glyph has a stroke towards both neighbours, and at a turn exactly those two strokes |
| Geometry.EndpointFollowsPath | src/utils.ts:98-105 | an endpoint glyph has a stroke towards its neighbour when they share a row or column |
| Geometry.TurnDiffersOnlyUpwards | src/utils.ts:119-135 | the written and corrected corner tables differ exactly on the turns that move upwards |
| Geometry.AsWrittenUpwardTurnMisdrawn | src/utils.ts:123-126 | the written table draws (0,2)→(0,1)→(1,1) as '┐' and (2,1)→(1,1)→(1,0) as '┘', both missing the stroke to a neighbour |
| Geometry.MakePathRendering | src/utils.ts:142-158 | the loop with its one-step look-back past a repeated point, drawing with the written table, yields the specified rendering |
| Geometry.GetPath | src/utils.ts:160-163 | the written rendering of the route, whose first cell is at the source and last at the target |
| Geometry.RenderingsAgree | src/utils.ts:119-158 | the written and corrected renderings have the same cells at the same points and differ in glyph exactly at upward turns |
| Geometry.RenderingCells | src/utils.ts:145-157 | both renderings: one cell per point, each at its point, each glyph from the fixed set |
| Geometry.RenderingSinglePoint | src/utils.ts:138-139 | a one-point path renders as the fallback dot |
| Geometry.RenderingStart | src/utils.ts:98-101 | the first point is drawn '─' when its step to the second is horizontal, else '│' |
| Geometry.RenderingEnd | src/utils.ts:102-105 | a non-repeated last point is drawn '─' when its step from the one before is horizontal, else '│' |
| Geometry.RenderingLookBack | src/utils.ts:147-151 | a repeated point takes its previous cell from two back, and at index 1 it has none |
| Geometry.RenderingStraight | src/utils.ts:112-114 | inside a straight horizontal or vertical run the run's bar is drawn, by both tables |
| Geometry.UpwardRouteBend | src/utils.ts:62-83 | the route (0,2)→(2,0) is the listed seven points; the written table draws its first bend '┐', the corrected one '┌' |
| Geometry.SameRowRoute | src/utils.ts:20-40 | the route (0,0)→(10,0) has 13 points with the pivot three times, drawn '·' there and '─' elsewhere by both tables |
| Geometry.SameRowPoints | src/utils.ts:20-40 | the same-row route has 13 points: the run to the pivot column, the pivot three times, the run to the target |
| Geometry.SameRowRendering | src/utils.ts:88-158 | a path of that shape is drawn '─' at both ends and along the runs and '·' at the three pivot points |
| StringDistance.EditDistanceSymmetric | src/graph.ts:412 | the distance does not depend on argument order, which makes the length swap sound |
| StringDistance.EditDistanceZeroIff | src/graph.ts:409 | the distance is zero exactly for equal strings |
| StringDistance.EditDistanceBounds | src/graph.ts:410-411 | the distance lies between the length difference and the longer length |
| StringDistance.EditDistanceDisjoint | src/graph.ts:408-430 | strings with no character in common are as far apart as the longer one is long |
| StringDistance.Levenshtein | src/graph.ts:408-430 | the early returns, the swap and the table compute the edit distance |
| StringDistance.TwoRows | src/graph.ts:413-429 | with two rows exchanged after each row, the last cell is the distance of the whole strings |
| StringDistance.FillRow | src/graph.ts:417-426 | each cell of the new row is the distance between the prefixes it stands for |
| Text.Trim | src/graph.ts:277 | the result is the contiguous slice of the text that starts where its leading white space ends, with only white space after it; it is empty exactly when the text is all white space, and otherwise neither starts nor ends with white space |
| Text.TrimBothEnds | src/graph.ts:277 | cutting the leading and then the trailing white space leaves the slice starting where the leading white space ends |
| Text.IndexOf | src/graph.ts:328 | -1 exactly when the query occurs nowhere; otherwise an occurrence with none earlier |
| Text.Distinct | src/graph.ts:307 | the same elements as the input, none repeated |
| Sorting.StrLeTotal | src/graph.ts:358 | any two ids are comparable |
| Sorting.StrLeTrans | src/graph.ts:358 | the id order is transitive |
| Sorting.StrLeAntisymmetric | src/graph.ts:358 | ids ordered both ways are equal |
| Sorting.SortBy | src/graph.ts:357-372 | the result is sorted by the key and is a permutation of the input |
| Search.TrimmedTextsComplete | src/graph.ts:300-305 | every candidate that is not blank is kept, trimmed |
| Search.TrimmedTextsSound | src/graph.ts:300-305 | every kept text is non-empty and is some candidate trimmed |
| Search.NonEmptyComplete | src/graph.ts:302-304 | dropping blank texts keeps every text that is not blank |
| Search.NonEmptySound | src/graph.ts:302-304 | dropping blank texts keeps only non-blank texts of the input |
| Search.SearchFieldsFacts | src/graph.ts:290-308 | the fields are distinct and non-empty, each is a trimmed candidate, and each non-blank candidate yields one |
| Search.GetFields | src/graph.ts:290-308 | the loop and the Set de-duplication yield the specified fields |
| Search.FirstSliceFrom | src/graph.ts:326-334 | -1 exactly when no field contains the query, else the first field that does |
| Search.BestFrom | src/graph.ts:338-347 | a field at minimum distance, the earliest one holding it |
| Search.BestUnique | src/graph.ts:338-347 | only one index is both a minimum and earlier than every other minimum |
| Search.ClassifyMeaning | src/graph.ts:310-355 | exact iff a field equals the query; sliced records the first containing field and its first index; fuzzy records a nearest field at distance 1..maxDistance, with no field containing the query |
| Search.NoExactMeansPositive | src/graph.ts:346 | with no exact field every distance is at least 1, so stopping at 1 loses nothing |
| Search.ExactPass | src/graph.ts:315-323 | the first pass finds a field equal to the query once lower-cased exactly when there is one |
| Search.SlicePass | src/graph.ts:325-335 | the second pass stops at the first field containing the query, or gives -1 |
| Search.BestFoundEarly | src/graph.ts:346 | stopping the fuzzy scan at distance 1 still yields the earliest nearest field, since no field is at distance 0 |
| Search.FuzzyPass | src/graph.ts:337-354 | the third pass, with its break at distance 1, gives the nearest field when its distance is in 1..maxDistance, else no class |
| Search.ClassifyNode | src/graph.ts:310-355 | the three passes over the fields, the fuzzy one stopping at distance 1, give the specified class |
| Search.Limit | src/graph.ts:397 | slice(0, limit) is a prefix of the input, of length min(limit, n) for a limit of zero or more and max(0, n + limit) for a negative one |
| Search.AppendUnseen | src/graph.ts:377-394 | a merge loop appends exactly the nodes whose id has not been seen, and `seen` stays the set of ids in `all` |
| Search.CollectBuckets | src/graph.ts:310-355 | the loop over the nodes fills the three buckets as specified |
| Search.NodeClass | src/graph.ts:310-311 | the fields of a node, classified, give the class the search assigns it |
| Search.PushMatch | src/graph.ts:318-351 | the node goes on the end of exactly the bucket of its class, and a miss changes nothing |
| Search.CollectIsPushAll | src/graph.ts:310-355 | visiting the nodes in order and pushing each by its class gives the unsorted buckets |
| Search.CollectByMembership | src/graph.ts:310-355 | for any classifier, a node or entry is in a bucket exactly when its node is in the list and classified that way |
| Search.MergeBuckets | src/graph.ts:374-394 | the three loops give the de-duplication by id of exact, then the sliced nodes, then the fuzzy nodes |
| Search.DistinctByIdMembers | src/graph.ts:374-394 | a node is kept by the de-duplication exactly when it is the first node of its id in the input |
| Search.DistinctByIdOrder | src/graph.ts:374-394 | kept nodes keep their input order: any two of them appear in that order at two increasing input positions |
| Search.SearchNodes | src/graph.ts:277-404 | search with the limit defaulting to 50 and maxDistance to 2 returns the specified result |
| Search.SearchBlankQuery | src/graph.ts:277-283 | an empty or all-white-space query returns four empty lists |
| Search.CollectMembership | src/graph.ts:310-355 | a node or entry is in a bucket exactly when its node is classified that way with that field and index or distance |
| Search.CollectFromNodes | src/graph.ts:310-355 | every bucket holds only nodes of the graph |
| Search.SortByMembers | src/graph.ts:357-372 | sorting a bucket keeps exactly its elements |
| Search.MergedMembers | src/graph.ts:374-394 | every node of the merged list is an exact match or the node of a sliced or fuzzy entry |
| Search.MergedFromNodes | src/graph.ts:357-394 | every node of the merged list is a node of the graph |
| Search.SearchSorted | src/graph.ts:357-372 | exact is ordered by id; sliced by index, field length, id; fuzzy by distance, field length, id |
| Search.SearchBuckets | src/graph.ts:399-404 | exact holds exactly the graph's nodes with a field equal to the query and is not limited; a sliced or fuzzy entry is returned exactly when its node is a graph node in `all` classified with that field and index or distance |
| Search.SearchEntriesComplete | src/graph.ts:399-404 | every graph node in `all` whose class is a slice or fuzzy hit has that entry in the returned bucket |
| Search.AddUnseenFacts | src/graph.ts:375-394 | adding unseen nodes keeps the ids distinct, keeps the prefix, and adds only nodes from the input |
| Search.AddUnseenGrows | src/graph.ts:375-394 | adding unseen nodes keeps the prefix, adds only nodes from the input, and the ids become those of both |
| Search.AddUnseenDistinct | src/graph.ts:375-394 | adding unseen nodes to a list with distinct ids keeps the ids distinct |
| Search.DistinctByIdFirst | src/graph.ts:377-382 | the first node of a non-empty list stays first after de-duplication |
| Search.SearchAll | src/graph.ts:374-403 | `all` has distinct ids and only graph nodes, at most `limit` of them, and starts with the first exact match when the limit is positive |
| Search.LimitedMergeFacts | src/graph.ts:374-397 | the limited de-duplicated list has distinct ids, only merged nodes, at most `limit` of them, and starts with the first merged node |
| Search.ClassifyExample | src/graph.ts:326-334 | fields "n1", "Root" and query "roo" give a sliced hit on "Root" at index 0 |
| Search.LeafHasNoSlice | src/graph.ts:326-334 | "n2" and "Leaf" lower-case to "n2" and "leaf", and neither contains "roo" |
| Search.ClassifyMissExample | src/graph.ts:337-354 | fields "n2", "Leaf" and query "roo" are too far for the fuzzy bucket and the node is in none |
| Search.RooN2 | src/graph.ts:408-430 | "roo" and "n2" are at distance 3 |
| Search.RooLeaf | src/graph.ts:408-430 | "roo" and "leaf" are at distance 4 |
| Search.SearchUniqueExactFirst | src/graph.ts:374-382 | the only node matching exactly heads `all` when the limit is positive |
| Viewport.CountTargetsZeroIff | src/graph.ts:190-197 | a node's in-degree is zero exactly when no edge ends at its id |
| Viewport.RootsMeaning | src/graph.ts:199-200 | a node is a root exactly when it is a node and no edge ends at it |
| Viewport.FirstLowest | src/graph.ts:206-217 | none exactly when nothing is positioned, else a positioned node at the smallest (y, x), the earliest such |
| Viewport.FirstLowestStep | src/graph.ts:206-217 | one step of the pick: the head wins unless the tail's pick lies strictly before it, and a head without position is skipped |
| Viewport.FirstLowestUnique | src/graph.ts:215-217 | the earliest lowest node is the one picked, whatever else the list holds |
| Viewport.StartNodeFacts | src/graph.ts:215-221 | the start node exists iff some node is positioned; it is a lowest positioned root when one exists, else a lowest positioned node |
| Viewport.UniqueRootIsStart | src/graph.ts:199-221 | a single positioned node of in-degree zero is the start node |
| Viewport.FocusedNode | src/graph.ts:432-456 | none exactly when no positioned node's box holds the centre, else the first node whose box does |
| Viewport.FocusCameraCentres | src/graph.ts:178-184 | after centring on a node, that node's box holds the terminal's centre |
| Viewport.FocusFitFocuses | src/graph.ts:178-184 | after centring on a positioned node of the graph, some node is focused |
| Viewport.FitOnFocusFocuses | src/graph.ts:175-186 | fitting on a positioned focus node leaves a node under the centre |
| Viewport.StartCameraMissesStart | src/graph.ts:223-227 | after the default fit the start node's box never holds the centre, because of the 16-row padding |
| GraphModel.IndexLastWins | src/graph.ts:38-43 | a key is in the lookup iff some element has it, and it maps to the last such element |
| GraphModel.Graph.constructor | src/graph.ts:24-45 | options over the defaults (node width 16), the camera at the origin, the lookups indexing the lists |
| GraphModel.Graph.GetElement | src/graph.ts:52-56 | the last node with the id if any, else the last edge with it, else nothing |
| GraphModel.Graph.FocusNode | src/graph.ts:175-177 | a node only for a non-empty id that a node has, and always then |
| GraphModel.Graph.Pan | src/graph.ts:70-73 | the camera moves by the given offsets |
| GraphModel.Graph.SetTermSize | src/graph.ts:83-85 | the terminal size becomes the given width and height |
| GraphModel.Graph.FitView | src/graph.ts:158-260 | the camera becomes the focus placement, else the start placement, else the origin placement |
| GraphModel.Graph.FitDefault | src/graph.ts:190-260 | the camera becomes the start node placement, or the origin placement when there is none |
| GraphModel.Graph.RootsByInDegree | src/graph.ts:190-200 | the in-degree map's zero entries give exactly the nodes no edge ends at, in node order |
| GraphModel.Graph.GetFocusedNode | src/graph.ts:432-456 | the loop with its break returns the first node whose box holds the centre |
| GraphModel.Graph.Search | src/graph.ts:268-405 | search over the graph's nodes returns the specified result |
| GraphModel.PanRoundTrip | src/graph.ts:70-73 | panning by an offset and then by its negation restores the camera |
| GraphModel.PanTwice | src/graph.ts:70-73 | pans add up without clamping |

## Left out

- Graph.create's layout step (`autolayout`, the ELK engine and the asynchronous `create`). Node positions and edge paths are inputs. `hasCoordinates` always returns false, so the layout always runs. Its result is taken as given.
- `renderNodeId` and the spread of the options. An explicitly undefined `nodeWidth` would override the default of 16; the model has no undefined value.
- The `cursor`, `nodes`, `edges`, `termSize` and `nodeWidth` getters. They are plain field reads; `Coord` is a value, so `pos` is the cursor copy.
- GraphModel.Graph.FitView, GraphModel.Graph.FitDefault: when no node is positioned the source halves the terminal size without rounding; the model floors it. The bounding-box branch is dead code and is not modelled.
- GraphModel.Graph.FitView: a position whose coordinates are not numbers is not modelled. A node either has an integer position or none.
- Sorting.SortBy: `localeCompare` is modelled as character-code order, and sort stability is not stated; only sorted order and permutation are.
- Text.Distinct: it does not state that each element keeps the place of its first occurrence.
- Text.Trim, Text.Distinct: strings are sequences of characters; UTF-16 code units and surrogate pairs are not modelled. `toLowerCase` is modelled on A to Z only.
- Search: the probing of `label`, `name` and `title` by `typeof` is modelled as a node's `extraText` list, which holds the ones that are strings.
- Search: `includes` compares objects by identity; the model compares node values, so two equal nodes count as the same.
- StringDistance: the triangle inequality is not proved; search does not rely on it.
- Numbers are unbounded integers: NaN, infinities and fractional coordinates are not modelled.
- The React renderer, search box, cursor and app shell are not part of this model.

## Findings

| source | as written | input that shows it | evidently intended | confidence | as-written member | corrected member |
|---|---|---|---|---|---|---|
| src/utils.ts:119-135 | the four corners for turns that move upwards are mirrored: lines 123-126 swap '┐' and '┌', and lines 132-135 swap '┘' and '└' | the route from (0, 2) to (2, 0) turns at (0, 1) coming up and leaving right; the written table draws '┐', whose strokes point left and down | '┌', whose strokes lead to both neighbours, as the downward turns at lines 119-122 and 128-131 already do | not executed | Geometry.AsWrittenUpwardTurnMisdrawn | Geometry.TurnFollowsPath |
