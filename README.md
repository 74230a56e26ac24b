# Photo gallery client: a verified model of its core rules

The client shows an infinite-scrolling grid of photos from a public photo API,
caches downloaded thumbnails in a local key-value store, and has a details
view per photo. This project models the rules in three components and proves
what they promise:

- **Gallery** (`src/components/PhotoList.tsx`).
  - The round-robin column layout: index `i` goes to column `i % cols`, at row `i / cols`.
  - The last item of the window carries the infinite-scroll sentinel.
  - Each page is appended to a window holding at most 300 photos; once it is full, the oldest are dropped.
  - The column count follows the viewport width breakpoints.
  - The paginated loader is a state machine over `photos`, `page`, `loading` and `hasMore`. Its events are: the fetch effect starts, a page arrives, a request fails, the sentinel intersects, the window is resized.
- **Gallery item** (`src/components/PhotoItem.tsx`).
  - A cache-aside thumbnail lookup keyed `"photo-" + id` that falls back to the remote URL on any failure.
  - The item's `loading`/`imgUrl` state.
- **Details view** (`src/components/PhotoDetails.tsx`).
  - The loading/error/photo state updated by the fetch.
  - The first-match choice of what to render.
  - The `description || alt_description || default` text fallbacks.

Files, modules:

- `wrappers.dfy` (`Wrappers`): `Option`, standing for `T | null`.
- `photos.dfy` (`Photos`): the photo record, joining the two shapes the client declares (`src/types.d.ts` and the interface in `PhotoDetails.tsx`).
- `gallery_layout.dfy` (`GalleryLayout`): the pure rules of the gallery: layout, sentinel, window, breakpoints.
- `pagination.dfy` (`Pagination`): the loader as a pure step function with trace lemmas, and a class `PhotoGallery` whose fields are the component's state. Each of its event methods is proved to perform that step.
- `photo_item.dfy` (`PhotoItem`):
  - the resolve specification `Resolve`;
  - the store class `ImageStore`, whose `GetImage` performs the read, download and write step by step;
  - the item class `Item`.
- `photo_details.dfy` (`PhotoDetails`): the text fallbacks, render selection and the `DetailsView` class.

Modelling choices:

- The fetch effect of the gallery depends on `page` alone. It runs on mount, and again whenever `page` takes a new value. The model records the page it last ran for in `effectPage` (0 before mount), and the effect can start only when `page` differs from it.
- A page response or failure can only arrive while `loading` is set.
- The sentinel observer is armed only when no page is loading and the window is not empty:
  - while loading, the ref callback returns before installing an observer;
  - with no photos there is no last item to observe.
- `Math.ceil(photos.length / cols)` is the exact integer ceiling. With at most 300 photos and 1 to 4 columns, the floating-point quotient is exact enough for this.
- A stored blob is always truthy, so a cache read is a hit exactly when the key is present.
- `fetch` succeeds on any HTTP status, so every response counts as `Downloaded`; only a network failure is `DownloadFailed`.
- A failed store write leaves the store unchanged.
- `getImage` catches every failure, so it never throws. The `catch` in `handleImage` is therefore unreachable, and a resolved item always has its image set.
- The local store is a named, persistent browser database, and nothing ever deletes an entry. `ImageStore` therefore opens with whatever earlier sessions saved.
- In the details view, a successful response whose body is null leads to the "Photo not found" view. A failed request (including a 404, which the HTTP client rejects) leads to the error view instead.
- In the details view, `if (error)` uses JavaScript truthiness, and so do the `||` chains: null and `""` both fall through. `Truthy` models this.

## Model

| member | source | states |
|---|---|---|
| GalleryLayout.CeilDiv | src/components/PhotoList.tsx:59 | the row count `Math.ceil(n / cols)` is the least `q` with `q * cols >= n` |
| GalleryLayout.Below | src/components/PhotoList.tsx:59-61 | the filter keeps exactly the elements below `n` and is no longer than its input |
| GalleryLayout.Rows | src/components/PhotoList.tsx:59 | the candidate indices of a column, `row * cols + col` for each of the `Math.ceil(n / cols)` rows; one per row |
| GalleryLayout.Column | src/components/PhotoList.tsx:59-61 | one column's index list, the candidates filtered below `n`: no longer than the row count, and every entry below `n` |
| GalleryLayout.ColumnIndices | src/components/PhotoList.tsx:58-62 | there are exactly `cols` column lists |
| GalleryLayout.RowInRange | src/components/PhotoList.tsx:59-61 | row `r` of column `c` survives the filter iff `r` is below the column's size `n / cols + (c < n % cols ? 1 : 0)` |
| GalleryLayout.ColumnClosedForm | src/components/PhotoList.tsx:58-62 | column `c` is `c, c + cols, c + 2*cols, ...`, with as many entries as the indices below `n` congruent to `c` |
| GalleryLayout.ColumnLength | src/components/PhotoList.tsx:58-62 | the length of column `c` is `n / cols`, plus one for the first `n % cols` columns |
| GalleryLayout.ColumnEntry | src/components/PhotoList.tsx:58-62 | the cell at column `c`, position `k` holds `k * cols + c`; that index is below `n`, its remainder is `c` and its quotient is `k` |
| GalleryLayout.IndexPlacement | src/components/PhotoList.tsx:58-62 | every index `i < n` is in column `i % cols` at position `i / cols` |
| GalleryLayout.IndexUnique | src/components/PhotoList.tsx:58-62 | a cell holding `i` is at column `i % cols` and position `i / cols`, and nowhere else |
| GalleryLayout.ColumnsPartition | src/components/PhotoList.tsx:58-62 | the layout partitions `0..n-1`: `cols` columns; `i` is in column `c` iff `i < n` and `i % cols == c`; no index is in two cells |
| GalleryLayout.ColumnIncreasing | src/components/PhotoList.tsx:58-62 | each column is strictly increasing |
| GalleryLayout.ColumnSizesBalanced | src/components/PhotoList.tsx:58-62 | column sizes are non-increasing left to right and differ by at most one |
| GalleryLayout.PrefixTotal | src/components/PhotoList.tsx:58-62 | the first `c` columns together hold `c * (n / cols) + min(c, n % cols)` cells |
| GalleryLayout.ColumnsCoverAll | src/components/PhotoList.tsx:58-62 | the columns hold `n` cells in total |
| GalleryLayout.SevenOverThree | src/components/PhotoList.tsx:58-62 | 7 photos over 3 columns give `[[0,3,6],[1,4],[2,5]]` |
| GalleryLayout.ColumnPhotos | src/components/PhotoList.tsx:84-94 | the rendered grid has one column per column count, each photo looked up by a valid index |
| GalleryLayout.ColumnPhotosPlacement | src/components/PhotoList.tsx:84-94 | photo `i` is rendered in column `i % cols` at row `i / cols` |
| GalleryLayout.IsSentinel | src/components/PhotoList.tsx:92 | the item given the observer ref is the one at index `photos.length - 1` |
| GalleryLayout.SentinelPlacement | src/components/PhotoList.tsx:92 | with no photos there are no cells; otherwise exactly one cell holds index `n-1`, at column `(n-1) % cols`, row `(n-1) / cols`, the last of its column |
| GalleryLayout.SentinelIsLast | src/components/PhotoList.tsx:92 | the sentinel is the last entry of its column |
| GalleryLayout.SliceLast | src/components/PhotoList.tsx:45 | JavaScript `slice(-k)` for a positive `k` (the call passes 300): a suffix of its input, of length `k`, or the whole input when it is shorter |
| GalleryLayout.Window | src/components/PhotoList.tsx:43-46 | the window after an append holds at most 300 photos and at most `|prev| + |data|`; its length is one of the two; it is a suffix of `prev ++ data` |
| GalleryLayout.WindowFits | src/components/PhotoList.tsx:43-46 | when `|prev| + |data| <= 300` the window is `prev ++ data` |
| GalleryLayout.WindowKeepsNewest | src/components/PhotoList.tsx:43-46 | a page of at most 300 photos is kept whole, at the end of the window |
| GalleryLayout.WindowEmptyPage | src/components/PhotoList.tsx:43-46 | an empty page leaves a window within the bound unchanged |
| GalleryLayout.ColumnsForWidth | src/components/PhotoList.tsx:65-75 | the column count is between 1 and 4 |
| GalleryLayout.ColumnsForWidthValues | src/components/PhotoList.tsx:65-75 | widths below 640 give 1 column, below 768 give 2, below 1024 give 3, and wider give 4 |
| GalleryLayout.ColumnsForWidthMonotone | src/components/PhotoList.tsx:65-75 | a wider viewport never yields fewer columns |
| GalleryLayout.ColumnsForWidthSteps | src/components/PhotoList.tsx:65-75 | the count changes between `w` and `w+1` iff `w+1` is 640, 768 or 1024, and rises by at most one |
| Pagination.Initial | src/components/PhotoList.tsx:9-13 | the mount state: no observer is armed yet, the fetch effect is due, and the invariant holds |
| Pagination.ObserverArmed | src/components/PhotoList.tsx:16-25 | an observer watches the last item exactly when no page is loading and the window is not empty |
| Pagination.Enabled | src/components/PhotoList.tsx:16-56 | when each event can occur: the fetch effect only when `page` differs from the page it last ran for (its dependency list is `[page]`); a response or a failure only while `loading` is set; an intersection or a resize at any time |
| Pagination.Step | src/components/PhotoList.tsx:16-56 | one event: the page moves only on an intersection, by one; the window and `hasMore` change only when a page arrives; `loading` changes only on a fetch start, response or failure; a fetch start records the current page |
| Pagination.InitialInv | src/components/PhotoList.tsx:9-13 | the mount state (empty window, page 1, not loading, more expected, 3 columns) satisfies the invariant |
| Pagination.StepInv | src/components/PhotoList.tsx:16-56 | every enabled event preserves the invariant: bounded window, a column count in 1..4, the in-flight page is the current one, an exhausted gallery is idle |
| Pagination.RunInv | src/components/PhotoList.tsx:16-56 | every enabled event sequence preserves the invariant |
| Pagination.WindowAlwaysBounded | src/components/PhotoList.tsx:43-46 | from mount, after any enabled event sequence, the window holds at most 300 photos |
| Pagination.SingleFetchInFlight | src/components/PhotoList.tsx:16-56 | the fetch effect can start only when no fetch is loading, and starting it sets `loading` |
| Pagination.RequestsIncrease | src/components/PhotoList.tsx:32-56 | each fetch requests a strictly greater page than the previous one |
| Pagination.PageAdvancesOnlyWhenIdle | src/components/PhotoList.tsx:16-27 | the page changes iff the sentinel intersects while not loading, with photos shown and `hasMore`; it changes by exactly one |
| Pagination.PageMonotone | src/components/PhotoList.tsx:22 | the page never decreases along any event sequence |
| Pagination.ExhaustionIsFinal | src/components/PhotoList.tsx:16-56 | once `hasMore` is false, no enabled event sequence starts a fetch, changes the page or the window, or sets `hasMore` again |
| Pagination.EmptyFirstPageExhausts | src/components/PhotoList.tsx:32-56 | an empty first page stops the paging for good at page 1 |
| Pagination.PhotoGallery.constructor | src/components/PhotoList.tsx:9-13 | the component starts in the mount state |
| Pagination.PhotoGallery.BeginFetch | src/components/PhotoList.tsx:33-42 | the effect sets `loading` and requests the current page, 30 per page; nothing else changes |
| Pagination.PhotoGallery.FetchSucceeded | src/components/PhotoList.tsx:43-52 | the window becomes `Window(prev, data)`, `hasMore` becomes `data.length > 0`, `loading` is false, the page is unchanged |
| Pagination.PhotoGallery.FetchFailed | src/components/PhotoList.tsx:48-52 | only `loading` is reset; photos, page and `hasMore` are unchanged |
| Pagination.PhotoGallery.SentinelIntersected | src/components/PhotoList.tsx:16-27 | the page advances by one iff not loading, the window is non-empty and `hasMore`; it is unchanged otherwise |
| Pagination.PhotoGallery.HandleResize | src/components/PhotoList.tsx:65-75 | the column count becomes that of the width; nothing else changes |
| Pagination.PhotoGallery.Columns | src/components/PhotoList.tsx:58-62 | the rendered layout has `cols` columns and every index in it is a valid photo index |
| PhotoItem.CacheKey | src/components/PhotoItem.tsx:11 | the key is `"photo-"` followed by the id |
| PhotoItem.CacheKeyInjective | src/components/PhotoItem.tsx:11 | two ids have the same key iff they are equal |
| PhotoItem.Resolve | src/components/PhotoItem.tsx:10-26 | a fallback is exactly `url`, with the store unchanged; an object URL is for the blob now stored under the key; only that key can change or appear; a download happens only on a miss |
| PhotoItem.CacheHit | src/components/PhotoItem.tsx:13-16 | on a hit the result is the stored blob's object URL, with no download and the store unchanged |
| PhotoItem.CacheMissStores | src/components/PhotoItem.tsx:18-21 | on a miss with download and write succeeding, the blob is stored under the key (other keys unchanged) and served |
| PhotoItem.FallbackExactlyOnFailure | src/components/PhotoItem.tsx:12-25 | the result is exactly `url` iff the read fails, or on a miss the download or the write fails |
| PhotoItem.ResolveIdempotent | src/components/PhotoItem.tsx:13-21 | once a photo was served as an object URL, resolving it again is a hit: same image, no download, same store |
| PhotoItem.ImageStore.constructor | src/components/PhotoItem.tsx:6-8 | the named store opens holding whatever earlier sessions persisted in it |
| PhotoItem.ImageStore.GetImage | src/components/PhotoItem.tsx:10-26 | the step-by-step read, download and write yields exactly the image, the download flag and the store of `Resolve` |
| PhotoItem.Item.constructor | src/components/PhotoItem.tsx:29-30 | an item starts loading with no image |
| PhotoItem.Item.HandleImage | src/components/PhotoItem.tsx:33-46 | afterwards `loading` is false, `imgUrl` is the resolved image of the thumbnail, and the store is the one `Resolve` leaves |
| PhotoDetails.Truthy | src/components/PhotoDetails.tsx:58 | JavaScript truthiness of a `string \| null`, as used by `if (error)` and the `\|\|` chains: not null and not the empty string |
| PhotoDetails.Or | src/components/PhotoDetails.tsx:70 | `first \|\| fallback`: the result is one of the two operands, and it is blank only when `first` is falsy and the fallback is blank |
| PhotoDetails.Title | src/components/PhotoDetails.tsx:90 | the heading `description \|\| alt_description \|\| 'Untitled'` is never blank |
| PhotoDetails.Body | src/components/PhotoDetails.tsx:93 | the text `description \|\| alt_description \|\| 'No description available'` is never blank |
| PhotoDetails.AltText | src/components/PhotoDetails.tsx:70 | the image alt text `alt_description \|\| 'Unsplash photo'` is never blank |
| PhotoDetails.PageOf | src/components/PhotoDetails.tsx:61-110 | the loaded view of a photo: the regular image URL, and a heading, text and alt text that are never blank |
| PhotoDetails.TextFallbacks | src/components/PhotoDetails.tsx:70-93 | heading and body take the description, else the alt text (non-empty), else 'Untitled' / 'No description available'; the alt text is `alt_description` or 'Unsplash photo'; none is ever blank |
| PhotoDetails.Render | src/components/PhotoDetails.tsx:57-59 | first match: loading, else a truthy error (its message), else no photo -> not found, else the photo's page; exactly one view applies |
| PhotoDetails.Text | src/components/PhotoDetails.tsx:57-59 | the text of a non-photo view ("Loading...", the error message, "Photo not found"); the photo view alone has none, and the error view shows its message |
| PhotoDetails.DetailsView.Shown | src/components/PhotoDetails.tsx:57-59 | the view the component renders: the first-match choice applied to its `loading`, `error` and `photo` state |
| PhotoDetails.DetailsView.constructor | src/components/PhotoDetails.tsx:31-33 | the view starts loading, with no photo and no error |
| PhotoDetails.DetailsView.BeginFetch | src/components/PhotoDetails.tsx:37 | a fetch sets `loading` and keeps photo and error; the loading view is shown |
| PhotoDetails.DetailsView.FetchSucceeded | src/components/PhotoDetails.tsx:44-50 | the photo becomes the response body (possibly null), the error is cleared, `loading` is false; the photo page is shown, or "Photo not found" for a null body |
| PhotoDetails.DetailsView.FetchFailed | src/components/PhotoDetails.tsx:46-50 | the error becomes the fixed message, the photo is unchanged, `loading` is false, and only that message is shown |

## Left out

- Network calls (the photo list and photo requests, the image download): their outcomes are parameters of the events that consume them. The access token passed with them is not modelled.
- The local store's asynchronous engine is a plain map. Console logging of caught errors is not modelled.
- `URL.createObjectURL` is the opaque constructor `ObjectUrl(blob)`.
- Observers and refs:
  - the IntersectionObserver and the DOM ref wiring are reduced to the "last item intersects" event, effective only while the observer is armed;
  - the resize listener's registration and removal are not modelled, only the width-to-columns rule.
- Async interleaving is not modelled; every event is one atomic step. This leaves out:
  - out-of-order page responses;
  - two sentinel events before the effect runs (the model advances the page twice and then fetches once);
  - responses after unmount;
  - two detail fetches in flight when the id changes quickly.
- The item's effect re-running when the photo changes: an `Item` holds one photo.
- JSX markup, CSS, icons, link targets, the spinner and the "No more photos" banner.
- The localized publication date (`toLocaleDateString`): it depends on the locale.
- `src/App.tsx` (the route table) is not part of this model. `src/types.d.ts` contributes only the shape of `Photo`.
