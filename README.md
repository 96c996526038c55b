# Swimlane image list view and navigation logger, modelled in Dafny

This project models the core of a Qt Quick "swimlane" media browser. The
model has two parts.

**`CustomImageListView`.** This is a scene-graph item showing rows ("categories")
of poster images. It keeps:

- a flat list of image records;
- the row titles, in display order;
- a current index and current category;
- a vertical scroll offset, and a horizontal offset per category;
- the sets of visible categories and visible indices;
- a cache of texture slots, with a least-recently-used queue of indices;
- the network requests in flight.

The model covers how a selection moves left, right, up and down. It also
covers:

- how the view scrolls to keep an item visible;
- which rows and items count as visible;
- how textures are loaded, cached, recycled off screen and trimmed;
- how fetched images and network errors are handled;
- how a parsed menu document and its swimlane settings become records and
  per-category dimensions.

**`CustomNavLogger`.** This is a navigation logger: a scenario state machine with
a bounded event buffer, a parameter buffer written round by its count, a
metrics snapshot and a flush that reports the event timeline.

Modules:

- `ImageTypes` (`image_types.dfy`): the record, slot and dimension types, and the header's constants.
- `ContentIndex` (`content_index.dfy`): queries over the record list, such as:
  - position in a category;
  - the n-th item of a category;
  - the row-matching rule;
  - left and right steps;
  - the preload window.
- `Layout` (`layout.dfy`): geometry, including:
  - per-category dimensions;
  - content height and vertical positions;
  - row widths;
  - visible categories and visible item counters;
  - the scroll targets the moves aim for.
- `TextureCache` (`texture_cache.dfy`): the usage queue, the recycler's removal set and trimming to a size, as functions.
- `Navigation` (`navigation.dfy`): the up and down moves as values, and the round trips between them.
- `ContentTransform` (`content_transform.dfy`): several specifications:
  - URL scheme handling and the load route;
  - menu-document conversion, including links, image URLs and default items;
  - the swimlane dimension settings.
- `ImageListView` (`image_list_view.dfy`): the view as a class. It has field-granular frames. Its methods are proved against the functions above.
- `NavLogTypes` (`nav_log_types.dfy`): the logger's enums, codes, fixed-width conversions and report values.
- `NavLogging` (`nav_logger.dfy`): the logger as a class over two arrays.

Notes on the model:

- Animations are modelled by their end value.
- The window, the texture factory, the local files that decode and the network are fields or parameters.
- Node wrappers and textures are fresh numbered handles.
- The item size, spacings, title height, viewport size and per-category dimensions are held as one `layout` record field.
- Node wrappers a cleanup deletes are collected in `deletedNodes`.
- Replies that were superseded are collected in `abortedReplies`.

Two places where the header and the implementation differ:

- The logger's buffer sizes are 128 and 128 in `customnavlogger.h:100-101`.
  The implementation redefines them as 100 and 200 (`customnavlogger.cpp:6-7`).
  The model makes both sizes constructor parameters.
- In `loadUrlImage` the https configuration sits inside the branch taken only
  when the scheme is exactly `http`, so it is dead code
  (`customimagelistview.cpp:595-637`). The model follows the code: an https
  path that is not a local file gets a placeholder texture.

## Model

| member | source | states |
|---|---|---|
| ImageTypes.SameImageIgnoresMetadata | customimagelistview.h:212-227 | Record equality is reflexive and symmetric, and ignores description, thumbnail and links |
| ImageTypes.SameImageIsCoarserThanEquality | customimagelistview.h:221-226 | Two different records can still compare equal |
| ImageTypes.ReleasedNodes | customimagelistview.h:229-238 | A slot releases exactly its own node wrapper, and nothing when it has none |
| ImageTypes.CleanupNode | customimagelistview.cpp:1995-2003 | Cleaning a slot leaves it with neither node nor texture |
| ContentIndex.CountBefore | customimagelistview.cpp:2874-2893 | The number of earlier items of a category is at most the prefix length |
| ContentIndex.CategoryCount | customimagelistview.cpp:1730-1757 | A category never has more items than the list |
| ContentIndex.CountBeforeMonotone | customimagelistview.cpp:2874-2893 | The prefix count grows with the prefix, by at most the prefix growth |
| ContentIndex.CountBeforeStrict | customimagelistview.cpp:1367-1427 | An item of the category before `j` makes the count before `j` strictly larger |
| ContentIndex.NoneBefore | customimagelistview.cpp:1303-1365 | The count before `n` is zero iff no earlier item has that category (the leftmost test) |
| ContentIndex.PositionInCategory | customimagelistview.cpp:2874-2893 | The current item's position is 0 out of range, and otherwise below its category's size |
| ContentIndex.IndexOfNth | customimagelistview.cpp:1730-1757 | Returns an index of the category at position `p`, or -1 iff `p` is negative or past the category's end |
| ContentIndex.IndexOfNthUnique | customimagelistview.cpp:1730-1757 | The item at a category position is that position's unique holder |
| ContentIndex.FindMatchingPosition | customimagelistview.cpp:1730-1757 | -1 iff the next row is empty; otherwise an item of the next row at the same position, else its first item |
| ContentIndex.RowMatchingRoundTrip | customimagelistview.cpp:1730-1757 | Matching into another row and back returns to the start item, or to the first item of its row when the other row is shorter |
| ContentIndex.IndexOf | customimagelistview.cpp:1430-1440 | The first index of a row title; -1 iff absent |
| ContentIndex.EnsureValidIndex | customimagelistview.cpp:2430-2438 | Clamps into [0, size-1]; gives -1 for an empty list; leaves in-range indices unchanged |
| ContentIndex.ShouldJumpToLastRowMeaning | customimagelistview.cpp:2896-2925 | True iff the 1-based position exceeds half the row (C++ integer halving) and the row is next-to-last, counting an unlisted category in a one-row list |
| ContentIndex.PreloadWindow | customimagelistview.cpp:1759-1783 | The window only holds valid indices of the row |
| ContentIndex.PreloadWindowComplete | customimagelistview.cpp:1759-1783 | Every existing position within five of the current position is in the window |
| ContentIndex.NeighbourRows | customimagelistview.cpp:2996-3030 | The row itself first, then one or two listed rows |
| ContentIndex.NeighbourRowsAdjacent | customimagelistview.cpp:2996-3030 | The neighbours of a listed row are exactly the rows directly above and below it |
| ContentIndex.PreloadWindows | customimagelistview.cpp:2996-3030 | An index is preloaded iff its category is among the rows and it lies in that row's window |
| ContentIndex.NeighbourWindowsSplit | customimagelistview.cpp:2996-3030 | The preloaded set is the row's window plus the windows of the rows above and below |
| ContentIndex.IndexOfFirst | customimagelistview.cpp:1430-1440 | Looking up a title that is listed once finds its own index |
| ContentIndex.StepLeft | customimagelistview.cpp:1303-1365 | A left move selects the previous index iff it is in the same category, one position earlier |
| ContentIndex.StepRight | customimagelistview.cpp:1367-1427 | A right move selects the next index iff it is in the same category, one position later |
| ContentIndex.StepsInverse | customimagelistview.cpp:1303-1427 | A right step is undone by a left step, and the reverse |
| Layout.TruncToInt | customimagelistview.cpp:2746-2761 | Conversion to int truncates toward zero |
| Layout.TruncDiv | customimagelistview.cpp:2919 | Integer division truncates toward zero |
| Layout.QBound | customimagelistview.cpp:1430-1484 | qBound(lo, v, hi) is at least lo, at most hi when lo <= hi, and v when v is in range |
| Layout.DerivedDimensions | customimagelistview.cpp:2746-2761 | A category without settings gets poster = item size, row = poster + 10, and the view's spacing |
| Layout.RowBlocks | customimagelistview.cpp:1933-1972 | The stacked row heights are non-negative for non-negative settings |
| Layout.ContentHeight | customimagelistview.cpp:1933-1972 | The content height is positive for non-negative settings |
| Layout.PaddedContentY | customimagelistview.cpp:1911-1925 | The stored offset is at most max + 50 and at most the request, and equals the request when that is within the limit |
| Layout.VerticalWalk | customimagelistview.cpp:1786-1820 | The walk never goes upward before reaching the target row |
| Layout.FirstRowVerticalPosition | customimagelistview.cpp:1786-1820 | An item of the first row (not the last) sits one title height down |
| Layout.PrefixPositionMonotone | customimagelistview.cpp:1786-1820 | Row starts are non-negative and increase with the row index |
| Layout.WalkFromPrefix | customimagelistview.cpp:1786-1820 | Before the target row, the walk depends only on the rows passed |
| Layout.RowsStackDownward | customimagelistview.cpp:1786-1820 | An item of an earlier row sits strictly above an item of a later, non-last row |
| Layout.CategoryContentWidth | customimagelistview.cpp:1824-1847 | The width is at least the row width, overflows iff the row does, and equals the row width when it fits |
| Layout.HorizontalTarget | customimagelistview.cpp:1675-1726 | The centring offset is max(0, position*(poster+spacing) - (width-poster)/2) |
| Layout.RightScrollTargetNonNegative | customimagelistview.cpp:1367-1427 | On an overflowing row the offset of a right move is never negative |
| Layout.VisibleCategoriesFromRows | customimagelistview.cpp:220-239 | Only listed rows are reported visible |
| Layout.VisibleCategories | customimagelistview.cpp:220-239 | The visible categories are row titles |
| Layout.VisibleCategoriesBufferExample | customimagelistview.cpp:220-239 | A row is outside the half-viewport buffer at one offset and inside it at another |
| Layout.RowVisibleBounds | customimagelistview.cpp:3033-3113 | One row's counters increase and stay within the row's counter range |
| Layout.VisibleFromBounds | customimagelistview.cpp:3033-3113 | The scan's counters increase and stay below the number of items scanned |
| Layout.VisibleIndices | customimagelistview.cpp:3033-3113 | Strictly increasing counters below the total item count; none for an empty viewport |
| Layout.VisibleIndexSet | customimagelistview.cpp:242-246 | An index is in the visible set iff it is one of the visible counters, and none is negative |
| Layout.VisibleIndicesDistinct | customimagelistview.cpp:3033-3113 | No counter is reported twice |
| Layout.EnsureVisibleTarget | customimagelistview.cpp:1675-1726 | The vertical target is within [0, max], and is the bottom band for the last row |
| Layout.UpScrollTarget | customimagelistview.cpp:1430-1484 | An upward move's vertical target is within [0, max] |
| Layout.DownScrollTarget | customimagelistview.cpp:1487-1569 | A downward move's target is at most max(0, max), and non-negative unless it is the last row |
| Layout.DownScrollLastRowMayBeNegative | customimagelistview.cpp:1487-1569 | The last-row target is only capped above, so it can be negative |
| TextureCache.Without | customimagelistview.cpp:2853-2858 | The queue without a set keeps exactly the other elements and no duplicates |
| TextureCache.RemoveOne | customimagelistview.cpp:2857 | removeOne leaves a queue without the index unchanged and shortens one holding it by one |
| TextureCache.RemoveOneMultiset | customimagelistview.cpp:2857 | removeOne takes out exactly one copy of the index when there is one, and nothing else |
| TextureCache.RemoveOneFirst | customimagelistview.cpp:2857 | The occurrence removed is the first one, and the rest keep their order |
| TextureCache.RemoveOneIsWithout | customimagelistview.cpp:2857 | On a duplicate-free queue, removeOne removes the element entirely |
| TextureCache.Touch | customimagelistview.cpp:2861-2866 | After a cache, the index is last, present once, and the others are kept |
| TextureCache.TouchTwice | customimagelistview.cpp:2861-2866 | Touching keeps the others in order, and touching twice is touching once |
| TextureCache.RecycleFirstPass | customimagelistview.cpp:2823-2832 | First pass: exactly the cached, in-range indices whose category is hidden |
| TextureCache.RecycleSecondPassAsWritten | customimagelistview.cpp:2834-2851 | Second pass as written: cached, non-visible, unmarked indices of a visible category scrolled more than two posters away, defined only when each such index names a record |
| TextureCache.StaleKeyReadPastList | customimagelistview.cpp:2823-2840 | A cached, non-visible index past the record list escapes the guarded first pass and is read out of range by the second |
| TextureCache.RecycleSecondPass | customimagelistview.cpp:2834-2851 | Second pass corrected: the same set, with indices past the record list skipped as the first pass skips them |
| TextureCache.SecondPassGuardAgrees | customimagelistview.cpp:2834-2851 | Wherever the as-written pass is defined, the corrected pass gives the same set |
| TextureCache.RecycleSet | customimagelistview.cpp:2817-2859 | Removed entries are cached; hidden categories are always removed; at or under the threshold only they are |
| TextureCache.RecycleKeepsOnScreenItems | customimagelistview.cpp:2817-2859 | A visible index of a visible category is never recycled |
| TextureCache.RecycleClearsHiddenCategories | customimagelistview.cpp:2817-2859 | When every cached category is hidden, the whole cache is recycled |
| TextureCache.NodeDeletes | customimagelistview.h:231-235 | Only node ids held by some slot are deleted |
| TextureCache.DistinctNodesDeletedOnce | customimagelistview.h:231-235 | With each wrapper in one slot, deleting each slot's pointer deletes every held wrapper exactly once |
| TextureCache.SafeReleaseDeletesTwice | customimagelistview.cpp:279-284 | As written, releasing one slot holding wrapper 7 deletes wrapper 7 twice |
| TextureCache.SafeReleaseAsWrittenDeletesHeldTwice | customimagelistview.cpp:279-284 | As written, safeReleaseTextures deletes every held wrapper twice |
| TextureCache.CleanupThenClearDeletesOnce | customimagelistview.cpp:2018-2024 | Cleaning each slot and then clearing the map deletes every held wrapper exactly once, and nothing else |
| TextureCache.SmallestKey | customimagelistview.cpp:2005-2015 | Returns the smallest cached key |
| TextureCache.TrimmedKeysMeaning | customimagelistview.cpp:2005-2015 | Trimming keeps min(size, max) keys (none for a negative max), and every dropped key is below every kept one |
| Navigation.UpMove | customimagelistview.cpp:1430-1484 | No move iff there is no selection inside the list or no rows, the row is first or unlisted, or the row above is empty; otherwise the matching item above, with a target in [0, max] |
| Navigation.DownMove | customimagelistview.cpp:1487-1569 | No move iff there is no selection inside the list or no rows, the row is last, or the row below is empty; an unlisted row goes to the first row; the matching item below; the last-row flag; offset bounds |
| Navigation.DownThenUp | customimagelistview.cpp:1430-1569 | Down then up returns to the start item when the lower row is long enough, else to the first item of the start row |
| Navigation.UpThenDown | customimagelistview.cpp:1430-1569 | Up then down returns to the start item when the upper row is long enough, else to the first item of the start row |
| ContentTransform.Lower | customimagelistview.cpp:515-516 | ASCII lower-casing of a scheme, character by character |
| ContentTransform.Upper | customimagelistview.cpp:2347 | ASCII upper-casing of an event name, character by character |
| ContentTransform.UpperIdempotent | customimagelistview.cpp:2347 | Upper-casing twice is upper-casing once |
| ContentTransform.ColonIndex | customimagelistview.cpp:515-516 | The first ':' or -1 |
| ContentTransform.ParseUrl | customimagelistview.cpp:515 | A parsed URL keeps its text and has the scheme read from it |
| ContentTransform.SchemeAfterPrefix | customimagelistview.cpp:515-516 | A well-formed scheme before ':' is read, lower-cased |
| ContentTransform.HttpPrefixScheme | customimagelistview.cpp:518-519 | "http:" in front gives the http scheme |
| ContentTransform.HttpsPrefixScheme | customimagelistview.cpp:595-637 | "https:" in front gives the https scheme |
| ContentTransform.SchemeRelativeHasNoScheme | customimagelistview.cpp:516-519 | A "//" path has no scheme |
| ContentTransform.RouteFor | customimagelistview.cpp:503-524 | A fetch happens only for an http-ish scheme or a "//" path, and a "//" path is fetched as http |
| ContentTransform.HttpPathsAreRequested | customimagelistview.cpp:503-663 | A non-local "//" or http path ends as an http request |
| ContentTransform.HttpsPathsFallBack | customimagelistview.cpp:595-661 | A non-local https path ends as a placeholder texture |
| ContentTransform.ApplyEventsMeaning | customimagelistview.cpp:2343-2350 | Each event's upper-cased name maps to the href; other keys are kept |
| ContentTransform.LinkKeysAreUpperCase | customimagelistview.cpp:2336-2356 | Every link key is upper case |
| ContentTransform.ImageUrl | customimagelistview.cpp:2314-2333 | An item's URL is never empty and never scheme-relative |
| ContentTransform.ImageOfItem | customimagelistview.cpp:2310-2359 | The record takes the row title as category, and the item's title, asset type and synopsis |
| ContentTransform.ConvertItems | customimagelistview.cpp:2300-2360 | A row yields at most its item count, all in that row's category |
| ContentTransform.RowTitles | customimagelistview.cpp:2292-2296 | One title per row, in order |
| ContentTransform.ConvertItemsMeaning | customimagelistview.cpp:2300-2360 | A row yields exactly its kept items, none "viewAll", all with a usable URL |
| ContentTransform.ConvertRowsMeaning | customimagelistview.cpp:2286-2361 | Every record's category is a row title, none is "viewAll", every URL is usable, and the count is the total kept |
| ContentTransform.DefaultItem | customimagelistview.cpp:2384-2391 | A default record belongs to "Test Items" and uses placeholder i % 5 + 1 |
| ContentTransform.DefaultItems | customimagelistview.cpp:2384-2391 | Five default records, in order |
| ContentTransform.DefaultItemsDistinct | customimagelistview.cpp:2384-2391 | The defaults are pairwise different images, all five in the test row |
| ContentTransform.ApplySwimlaneEntry | customimagelistview.cpp:2195-2263 | A non-empty entry sets exactly its categories' dimensions; an empty one changes nothing |
| ContentTransform.SwimlaneItemSize | customimagelistview.cpp:2195-2263 | Item size and spacing change only through a non-empty "default" entry, and take the last such entry |
| ContentTransform.SwimlaneKeys | customimagelistview.cpp:2195-2263 | Configured categories afterwards are those before plus those written; unwritten ones keep their values |
| ContentTransform.TvChannelsTakeLandscapeType2 | customimagelistview.cpp:2195-2263 | With both landscape types present, the later one wins for the channel rows |
| ImageListView.ImageListView.NextTexture | customimagelistview.cpp:547-549 | A texture is handed out iff the window is present and texture creation works |
| ImageListView.ImageListView.constructor | customimagelistview.cpp:40-72 | The initial field values of the header, a 300-unit height, and an empty cache |
| ImageListView.ImageListView.CreateTexture | customimagelistview.cpp:547-549 | Hands out the next texture and advances the counter only when it does |
| ImageListView.ImageListView.CacheTexture | customimagelistview.cpp:2861-2872 | The slot gets the texture and no node, and the index moves to the back of the queue |
| ImageListView.ImageListView.CreateFallbackTexture | customimagelistview.cpp:534-558 | With a texture, the slot holds it; the queue is untouched |
| ImageListView.ImageListView.ProcessLoadedImage | customimagelistview.cpp:665-735 | A decoded image is cached only while its index is visible and a texture is available |
| ImageListView.ImageListView.MarkHiddenCategories | customimagelistview.cpp:2823-2832 | Computes the first recycling pass |
| ImageListView.ImageListView.MarkScrolledAway | customimagelistview.cpp:2834-2851 | Computes the second recycling pass |
| ImageListView.ImageListView.MarkForRecycling | customimagelistview.cpp:2817-2851 | Computes the recycler's removal set |
| ImageListView.ImageListView.RemoveEntry | customimagelistview.cpp:2853-2858 | Drops one slot, releases its node, and removes it from the queue |
| ImageListView.ImageListView.RemoveEntries | customimagelistview.cpp:2853-2858 | Drops exactly the marked slots, releases their nodes, and filters the queue |
| ImageListView.ImageListView.RecycleOffscreenTextures | customimagelistview.cpp:2817-2859 | The cache loses exactly the recycle set, with nodes released and the queue filtered, whatever indices it holds (corrected: see Findings) |
| ImageListView.ImageListView.DropSmallest | customimagelistview.cpp:2008-2013 | Drops the smallest key and releases its node |
| ImageListView.ImageListView.LimitTextureCacheSize | customimagelistview.cpp:2005-2015 | The keys become the trimmed keys, kept slots are unchanged, and dropped nodes are released |
| ImageListView.ImageListView.CleanupTextures | customimagelistview.cpp:2018-2024 | Releases every node and empties the cache |
| ImageListView.ImageListView.SafeReleaseTextures | customimagelistview.cpp:274-285 | Releases every node once and empties the cache (corrected: see Findings) |
| ImageListView.ImageListView.LoadUrlImage | customimagelistview.cpp:580-663 | An http URL replaces and aborts the pending reply for the index; anything else gets a placeholder |
| ImageListView.ImageListView.ReplyIndex | customimagelistview.cpp:2634-2645 | The pending index of a reply, or -1 iff it is not pending |
| ImageListView.ImageListView.TakeReply | customimagelistview.cpp:2634-2645 | Finds the reply's index and forgets it |
| ImageListView.ImageListView.OnNetworkReplyFinished | customimagelistview.cpp:2634-2676 | A pending reply that decodes is cached while visible; any other reply gets a placeholder; a stale reply changes nothing |
| ImageListView.ImageListView.OnNetworkError | customimagelistview.cpp:2678-2702 | A pending failed reply gets a placeholder; others change nothing |
| ImageListView.ImageListView.ItemsBeforeInCategory | customimagelistview.cpp:2874-2893 | Counts items of the category before n |
| ImageListView.ImageListView.IsLeftmost | customimagelistview.cpp:1310-1325 | True iff no earlier item shares the category |
| ImageListView.ImageListView.CategoryExtent | customimagelistview.cpp:1375-1390 | The category's size and last index |
| ImageListView.ImageListView.CurrentItemPositionInCategory | customimagelistview.cpp:2874-2893 | The current item's position in its category |
| ImageListView.ImageListView.FindMatchingPositionInNextCategory | customimagelistview.cpp:1730-1757 | The row-matching rule |
| ImageListView.ImageListView.ShouldJumpToLastRowFor | customimagelistview.cpp:2896-2925 | The jump rule, counted in one pass |
| ImageListView.ImageListView.ComputeContentHeight | customimagelistview.cpp:1933-1972 | The content height, row by row |
| ImageListView.ImageListView.CalculateItemVerticalPosition | customimagelistview.cpp:1786-1820 | The row's vertical position |
| ImageListView.ImageListView.ComputeCategoryContentWidth | customimagelistview.cpp:1824-1847 | The padded category width |
| ImageListView.ImageListView.VisibleInRow | customimagelistview.cpp:3033-3113 | One row's visible counters |
| ImageListView.ImageListView.GetVisibleIndices | customimagelistview.cpp:3033-3113 | The visible counters, row by row |
| ImageListView.ImageListView.LoadRemote | customimagelistview.cpp:514-524 | A non-local path is requested or gets a placeholder, as its route says |
| ImageListView.ImageListView.LoadRecord | customimagelistview.cpp:500-527 | A local file is cached while visible; otherwise requested or a placeholder |
| ImageListView.ImageListView.LoadImage | customimagelistview.cpp:480-527 | Skipped cases change nothing; only the index gains a slot or request; with a usable window it ends up handled |
| ImageListView.ImageListView.RefreshVisibleIndices | customimagelistview.cpp:242-246 | Stores the visible counters with half a viewport of buffer |
| ImageListView.ImageListView.RecycleIfFull | customimagelistview.cpp:259-262 | Recycles exactly the recycle set when over the threshold, otherwise nothing, including with cached indices past the list |
| ImageListView.ImageListView.LoadUncached | customimagelistview.cpp:184-213 | Every listed index ends up handled; only they gain slots or requests |
| ImageListView.ImageListView.LoadAllImages | customimagelistview.cpp:184-213 | Not ready: nothing changes; otherwise visibility is refreshed and only visible indices gain slots or requests; a request pending past the list is kept |
| ImageListView.ImageListView.OnBeforeRendering | customimagelistview.cpp:59-68 | The first frame with the scene graph initialised marks the window ready and loads the visible images; other frames change nothing |
| ImageListView.ImageListView.ComputeVisibleCategories | customimagelistview.cpp:220-239 | Computes the buffered visible categories |
| ImageListView.ImageListView.RefreshVisibility | customimagelistview.cpp:220-246 | Stores the visible categories and indices |
| ImageListView.ImageListView.RecycleAfterScroll | customimagelistview.cpp:259-262 | With the visible sets up to date, recycles exactly the recycle set when over the threshold; no slot is added |
| ImageListView.ImageListView.HandleContentPositionChange | customimagelistview.cpp:216-263 | Refreshes visibility and recycles over the threshold, except during teardown |
| ImageListView.ImageListView.SetContentY | customimagelistview.cpp:1911-1925 | Stores the padded offset and handles a change as a scroll |
| ImageListView.ImageListView.MoveContentY | customimagelistview.cpp:1921-1924 | Stores the offset, then refreshes visibility and recycles as a scroll does, except during teardown |
| ImageListView.ImageListView.MoveCurrentContentX | customimagelistview.cpp:2408-2414 | Stores the current category's offset, then handles the change as a scroll, except during teardown |
| ImageListView.ImageListView.SetCategoryContentX | customimagelistview.cpp:2403-2415 | Sets one category's offset, and handles a change of the current category's offset as a scroll |
| ImageListView.ImageListView.UpdateCurrentCategory | customimagelistview.cpp:2422-2427 | Takes the category of an in-range current item |
| ImageListView.ImageListView.SetCurrentIndex | customimagelistview.cpp:1184-1211 | Selects a different index below the count, and keeps the selection consistent |
| ImageListView.ImageListView.WindowIndices | customimagelistview.cpp:1759-1783 | Exactly the preload window |
| ImageListView.ImageListView.LoadWindow | customimagelistview.cpp:1759-1783 | Loads the window's uncached items |
| ImageListView.ImageListView.PreloadRowTextures | customimagelistview.cpp:1759-1783 | Only window indices gain slots or requests; on-screen slots survive; the window is covered |
| ImageListView.ImageListView.LoadVisibleTextures | customimagelistview.cpp:2996-3030 | Preloads the windows of the current row and its neighbours |
| ImageListView.ImageListView.ScrollTargetFor | customimagelistview.cpp:1675-1726 | The vertical target for keeping an item visible |
| ImageListView.ImageListView.EnsureIndexVisible | customimagelistview.cpp:1675-1726 | Scrolls vertically to the padded target, and centres the item in the current row |
| ImageListView.ImageListView.NavigateLeft | customimagelistview.cpp:1303-1365 | Moves iff a left step exists, so never from a selection outside the list; the row is then centred on the new item and the view scrolled to it |
| ImageListView.ImageListView.NavigateRight | customimagelistview.cpp:1367-1427 | Moves iff a right step exists, so never from a selection outside the list; an overflowing row scrolls to its right target |
| ImageListView.ImageListView.NavigateUp | customimagelistview.cpp:1430-1484 | Returns the up move; the target row becomes visible and its window is preloaded |
| ImageListView.ImageListView.FindUpMove | customimagelistview.cpp:1432-1458 | Computes the up move from the current selection, none from outside the list |
| ImageListView.ImageListView.UpTargetFor | customimagelistview.cpp:1448-1458 | The upward move's target offset, which lies within [0, max] |
| ImageListView.ImageListView.NavigateDown | customimagelistview.cpp:1487-1569 | Returns the down move; the target row becomes visible and its window is preloaded |
| ImageListView.ImageListView.FindDownMove | customimagelistview.cpp:1489-1532 | Computes the down move from the current selection, none from outside the list |
| ImageListView.ImageListView.DownTargetFor | customimagelistview.cpp:1504-1532 | The downward move's target offset: the bottom band for the last row, the centred, bounded offset otherwise |
| ImageListView.ImageListView.CommitVerticalMove | customimagelistview.cpp:1459-1483 | At the end of the animation, selects the target and stores the offset |
| ImageListView.ImageListView.AnimateScroll | customimagelistview.cpp:2465-2488 | At the end of the animation, only the given row's offset has changed, to the target |
| ImageListView.ImageListView.AnimateContentY | customimagelistview.cpp:1461-1476 | At the end of the vertical animation, the offset is what setContentY stores for the target |
| ImageListView.ImageListView.ScrollToItemRow | customimagelistview.cpp:1675-1726 | The vertical offset becomes the padded target for the item's row; no slot is added |
| ImageListView.ImageListView.CentreInCurrentRow | customimagelistview.cpp:1675-1726 | An item of the current row is centred in it; an item of another row moves nothing; other rows keep their offsets |
| ImageListView.ImageListView.CentreAndShow | customimagelistview.cpp:1340-1359 | The current row is centred on the item, and the view scrolled to its row; other rows keep their offsets |
| ImageListView.ImageListView.MoveLeftTo | customimagelistview.cpp:1327-1361 | A left move selects the previous item of the row, centres the row on it, and scrolls to it |
| ImageListView.ImageListView.SelectAndShow | customimagelistview.cpp:1390-1393 | Selects the next item, scrolls to it, and centres its row only when the selection reached the row |
| ImageListView.ImageListView.ScrollRowRight | customimagelistview.cpp:1396-1423 | Only an overflowing row scrolls, to its right target; other rows keep their offsets |
| ImageListView.ImageListView.MoveRightTo | customimagelistview.cpp:1372-1425 | A right move selects the next item, scrolls to it, and sets the row offset to the right target when the row overflows |
| ImageListView.ImageListView.MarkAndPreload | customimagelistview.cpp:1479-1481 | Adds the row to the visible set; only window indices gain slots; with a usable window the window is covered |
| ImageListView.ImageListView.FinishMoveUp | customimagelistview.cpp:1468-1474 | Selects the target when it is new and in range, and scrolls to it |
| ImageListView.ImageListView.FinishMoveDown | customimagelistview.cpp:1543-1561 | Selects the target, marks its row visible, and covers the neighbouring windows of the new selection |
| ImageListView.ImageListView.LoadVisible | customimagelistview.cpp:184-213 | Stores the visible indices; only they gain slots or requests; with a usable window each is handled |
| ImageListView.ImageListView.TrimCache | customimagelistview.cpp:1356-1359 | The cleanup check drops slots but never an on-screen one |
| ImageListView.ImageListView.ReloadVisible | customimagelistview.cpp:2363-2374 | After releasing and reloading, every slot belongs to a visible index |
| ImageListView.ImageListView.AppendDefaultItems | customimagelistview.cpp:2384-2391 | Appends exactly the five default records |
| ImageListView.ImageListView.BuildLinks | customimagelistview.cpp:2336-2356 | Builds the links map of an item |
| ImageListView.ImageListView.ConvertMenuRows | customimagelistview.cpp:2286-2361 | The records and titles of all rows |
| ImageListView.ImageListView.ConvertRowItems | customimagelistview.cpp:2299-2360 | Appends one row's records |
| ImageListView.ImageListView.ConvertedRecords | customimagelistview.cpp:2300-2358 | The records of one row's items, numbered after the records before them; skipped items add none |
| ImageListView.ImageListView.ConvertItem | customimagelistview.cpp:2310-2356 | One item's record |
| ImageListView.ImageListView.ProcessJsonData | customimagelistview.cpp:2265-2375 | A non-object or empty menu changes nothing; otherwise rows are converted, or defaults used when none are kept |
| ImageListView.ImageListView.AddDefaultItems | customimagelistview.cpp:2377-2399 | Sets the test row, appends the defaults, and reloads |
| ImageListView.ImageListView.ProcessSwimlaneDimensions | customimagelistview.cpp:2195-2263 | Applies the swimlane entries to the dimensions, item size and spacing; the rest of the layout is unchanged |
| ImageListView.NewViewSelectsPastList | customimagelistview.cpp:1367-1369 | A new view passes the right move's (absent) test with index 0 selected and an empty list |
| ImageListView.SelectionPastDefaults | customimagelistview.cpp:1303-1309 | Selecting index 10 and then showing the five defaults passes the left, up and down tests with the selection past the list |
| ImageListView.StaleReplyAfterReload | customimagelistview.cpp:2634-2672 | A request pending past a shorter new list survives the reload; its failed reply caches a placeholder past the list, where the as-written second pass is undefined |
| NavLogTypes.Uint32 | customnavlogger.h:41-53 | Storing into a 32-bit unsigned field keeps the value modulo 2^32 |
| NavLogTypes.ParamTypeOf | customnavlogger.cpp:120 | The parameter type byte is the checksum modulo 255 |
| NavLogTypes.EventCode | customnavlogger.h:11-28 | Event codes lie in 1..16 |
| NavLogTypes.EventCodeRoundTrip | customnavlogger.h:11-28 | Decoding an event's code gives the event back |
| NavLogTypes.EventCodesConsecutive | customnavlogger.h:11-28 | Exactly the codes 1..16 name events, each the one encoding to it |
| NavLogTypes.ScenarioCode | customnavlogger.h:31-38 | Scenario codes lie in 0..5, and 0 is no scenario |
| NavLogTypes.ScenarioCodeRoundTrip | customnavlogger.h:31-38 | Scenario codes round-trip, and only 0..5 are codes |
| NavLogTypes.ScenarioName | customnavlogger.cpp:239-247 | Only no-scenario reports as "UNKNOWN" |
| NavLogTypes.Timeline | customnavlogger.cpp:265-293 | One line per event, in order, with its timestamp, name, and index shown only when non-negative |
| NavLogging.DistinctSlots | customnavlogger.cpp:157-217 | Indices less than the buffer size apart never share a slot |
| NavLogging.NavLogger.RecentParams | customnavlogger.cpp:157-217 | The buffer holds the last min(count, size) parameters, in order |
| NavLogging.NavLogger.constructor | customnavlogger.h:94-115 | A fresh logger is enabled, has no scenario, and both counts are 0 |
| NavLogging.NavLogger.SetEnabled | customnavlogger.h:81-82 | After setEnabled(b), isEnabled() is b |
| NavLogging.NavLogger.AppendParam | customnavlogger.cpp:167-171 | Writes the slot of the count, extends the log, and keeps the last parameters in the buffer |
| NavLogging.NavLogger.LogEvent | customnavlogger.cpp:74-95 | Appends the event while there is room; warns iff the buffer is full; otherwise no-op |
| NavLogging.NavLogger.RecordEvent | customnavlogger.cpp:85-94 | Writes the event into the slot of the count; the event list grows by exactly that event |
| NavLogging.NavLogger.LogParamEvent | customnavlogger.cpp:97-125 | Logs the event while there is room; logs the parameter while there is room, else warns |
| NavLogging.NavLogger.LogEventWithIntParam | customnavlogger.cpp:97-125 | The event is kept while there is room; the parameter (value modulo 2^32, float 0) is kept while there is room, else a warning |
| NavLogging.NavLogger.LogEventWithFloatParam | customnavlogger.cpp:127-155 | As above, with value 0 and the float stored |
| NavLogging.NavLogger.LogPosition | customnavlogger.cpp:157-179 | A position event plus two parameters, appended whatever the parameter count |
| NavLogging.NavLogger.LogBoundsCheck | customnavlogger.cpp:181-217 | A bounds event plus four marked parameters, appended whatever the parameter count |
| NavLogging.NavLogger.LogMetrics | customnavlogger.cpp:219-228 | Stores the metrics whenever enabled, with or without a scenario |
| NavLogging.NavLogger.FlushLogs | customnavlogger.cpp:230-293 | No report when disabled or empty; otherwise the summary and a timeline of at most the buffer size, in insertion order |
| NavLogging.NavLogger.EndScenario | customnavlogger.cpp:58-72 | A no-op unless enabled and active; otherwise logs completion, reports, and leaves no scenario (corrected: see Findings) |
| NavLogging.LogEventLocks | customnavlogger.cpp:74-78 | logEvent requests the mutex once, after its enabled and active test |
| NavLogging.FlushLogsLocks | customnavlogger.cpp:230-234 | flushLogs requests the mutex once, after its enabled test |
| NavLogging.EndScenarioDeadlocksAsWritten | customnavlogger.cpp:58-72 | As written, endScenario requests its non-recursive mutex while holding it exactly when it is enabled with an active scenario |
| NavLogging.EndScenarioCorrectedNeverBlocks | customnavlogger.cpp:58-72 | With the mutex released before logging and flushing, an active end takes it three times, each time free |
| NavLogging.BeginScenarioNeverBlocks | customnavlogger.cpp:28-41 | beginScenario takes the mutex once and never blocks: its nested endScenario sees no active scenario |
| NavLogging.NavLogger.BeginScenario | customnavlogger.cpp:28-56 | Never reports: an active scenario's events are discarded; restarts both buffers with the start event |

## Findings

| source | as written | input that shows it | evidently intended | confidence | as-written member | corrected member |
|---|---|---|---|---|---|---|
| customimagelistview.cpp:1367-1369 | `navigateRight` reads the current record with no test | a new view: index 0 selected, list empty | no move without a selection inside the list | high; not executed | ImageListView.NewViewSelectsPastList | ImageListView.ImageListView.NavigateRight |
| customimagelistview.cpp:1305-1309 | `navigateLeft` tests only for a negative index and an empty list before reading the current record | index 10 selected (count 15), then the five default records shown | no move without a selection inside the list | high; not executed | ImageListView.SelectionPastDefaults | ImageListView.ImageListView.NavigateLeft |
| customimagelistview.cpp:1432-1436 | `navigateUp` tests only for a negative index and no rows before reading the current record | index 10 selected (count 15), then the five default records shown | no move without a selection inside the list | high; not executed | ImageListView.SelectionPastDefaults | Navigation.UpMove |
| customimagelistview.cpp:1489-1493 | `navigateDown` tests only for a negative index and no rows before reading the current record | index 10 selected (count 15), then the five default records shown | no move without a selection inside the list | high; not executed | ImageListView.SelectionPastDefaults | Navigation.DownMove |
| customimagelistview.cpp:2840 | the second recycling pass reads `m_imageData[index]` for every cached, non-visible index with no range test, where the first pass tests it (customimagelistview.cpp:2826) | a request pending for an index past a shorter list that replaced the old one, whose reply then fails and caches a placeholder under that index, with more than 30 cached entries | indices past the list skipped, as the first pass skips them | high; not executed | TextureCache.StaleKeyReadPastList | TextureCache.RecycleSecondPass |
| customnavlogger.cpp:62 | `endScenario` holds `m_logMutex` while it calls `logEvent` (customnavlogger.cpp:78) and `flushLogs` (customnavlogger.cpp:234), which lock the same non-recursive mutex again | any `endScenario` call with logging enabled and a scenario active | the end event logged and the report flushed, the scenario then cleared | high; not executed | NavLogging.EndScenarioDeadlocksAsWritten | NavLogging.NavLogger.EndScenario |
| customimagelistview.cpp:279-284 | `safeReleaseTextures` deletes each node wrapper but leaves the pointer set, and `m_nodes.clear()` then runs `~TexturedNode` (customimagelistview.h:231-235), which deletes it again | one slot holding a node wrapper | each wrapper deleted once, as `cleanupTextures` does through `cleanupNode` | high; not executed | TextureCache.SafeReleaseDeletesTwice | TextureCache.CleanupThenClearDeletesOnce |

The as-written tests are `Navigation.GuardAsWritten`. The moves in the class
(`NavigateLeft`, `NavigateRight`, `NavigateUp`, `NavigateDown`) stop when the
selection is outside the list. `SafeReleaseTextures` releases each slot
through `CleanupTextures`. The reachable states come from the public
`currentIndex` setter, which admits any index below `count` (15 by default)
whatever the list holds.

A cached index past the record list arises because releasing the cache
leaves the pending requests alone: `ImageListView.StaleReplyAfterReload`
starts with a request pending for index `k`, loads content of at most `k`
records and fails the reply. The placeholder is then cached under `k`, and
while `k` is not visible the as-written second pass is undefined. The
loading methods keep such a request (`PendingPastListKept`). No method
requires cached indices to name records; `KeysInRange` is only promised to
be kept where it held.

The logger's lock requests are sequences of the number of lockers already
holding the mutex (`NavLogging.SelfDeadlocks`). The class method
`EndScenario` models the intended behaviour, as if the mutex were free
whenever a callee takes it.

## Left out

- Rendering: `updatePaintNode`, text and title nodes, selection effects, rounded-corner drawing and image scaling. A decoded image is a boolean "decodes" and a texture is a numbered handle.
- Timers: the deferred per-index loads of `handleContentPositionChange` and `loadVisibleTextures`, the 100 ms retry of `loadImage`, the 30 s request timeout, and `ensureLastRowFullyVisible` / `ensureLastRowVisible`. The zero-delay preload after a move up is taken as immediate.
- Animations: `animateScroll` and the vertical animation are modelled by their end value. Intermediate frames and `stopCurrentAnimation` are not modelled. Up and down moves are committed by `CommitVerticalMove`, which models the finish handler.
- Key handling (`keyPressEvent`, `handleKeyAction`), mouse and wheel events, focus, property setters that only store a value, and signal emission, including `assetFocused` in `setCurrentIndex`.
- JSON parsing and file and network I/O. The model starts from a parsed document value. Local files that decode are a set of paths. Replies are values with an outcome.
- Mutexes: every operation is sequential, and the class methods take no locks. The logger's lock requests are modelled only by the functions of `NavLogging` listed under Findings.
- NavLogging.NavLogger.EndScenario: states the intended behaviour. As written, every call with logging enabled and a scenario active locks `m_logMutex` again in `logEvent` while holding it, and never returns.
- Debug output other than the logger's report, metrics counting (`countNodes`, `countTotalTextures`), `debugResourceSystem` and `safeCleanup`.
- The logger singleton (`instance()`) and destructor.
- The logger's timer and wall clock are parameters. `m_scenarioStartTime` is never read and is not modelled.
- Logger parameter names enter only as their checksum.
- The `NAV_LOG_*` macros only repeat the enabled check that each logger method makes first.
- Unwritten slots of the logger's buffers are never read. The model fills them with a placeholder.
- Floating point: qreal and float are reals, and the float conversion in the logger is not rounded.
- The logger's int counters never wrap. In the source, `m_paramCount` can exceed the buffer size through `logPosition` and `logBoundsCheck`. The model shows this, but not an overflow past 2^31.
- Navigation.DownThenUp and Navigation.UpThenDown assume each row title is listed once. With a repeated title, `indexOf` finds the first occurrence only.
- ContentTransform.Upper: event names are assumed to be ASCII. `QString::toUpper` applies full Unicode case mapping (for example "ß" becomes "SS", which changes the length); the model maps only a-z.
- ImageListView.ImageListView.SafeReleaseTextures: `deletedNodes` is a set, so the class does not count repeated deletes. The double delete of the source is modelled only by the multiset functions in `TextureCache`.
- ContentTransform.RouteFor: QUrl validity is reduced to "always valid" for parsed paths. `LoadUrlImage` takes a URL value, so its invalid branch is still modelled.
