# A verified model of an image-thumbnailing proxy

The system is an HTTP proxy that serves thumbnails. A request path
`/<verb>/<width>/<height>/<origin host and path>` names a picture on an origin
server and the size wanted.

The proxy handles each request in four steps:

1. It parses the path into a query.
2. It looks the query's cache key up in an LRU cache.
3. On a miss, it fetches the origin picture, converts it and stores the result.
4. It answers with the thumbnail, or with an error status for the step that failed.

Converting means resizing so that the target box is covered, then cutting out
the centred window of the target size.

The repository holds two iterations of this code:

- the current one, under `internal/`;
- an older copy, under `previewer/`, which behaves differently.

This project models both iterations in Dafny:

- `list.dfy` (`LinkedList`): the intrusive doubly-linked recency queue of
  `internal/cache/list.go`. It is a class whose items live in an arena, with a
  ghost sequence of the items from the back to the front, and a shape
  invariant relating every link to that sequence.
- `cache_index.dfy` (`CacheIndex`): what the two caches share. This is the
  item type stored in the queue, the recency order `Touch`, and the relation
  between the key→item index and the queue.
- `disk_cache.dfy` (`DiskCache`): the file-backed LRU cache of
  `internal/cache/cache.go`.
  - It is a class over the index, the queue and the cache directory. The
    directory is a map from file names to bytes. Every disk operation takes
    its outcome as a parameter. A file write either succeeds, fails to open
    the file, or is cut off after some number of bytes.
  - Every method is proved against a function on an abstract state. That
    state holds the keys from least to most recently used, the directory, and
    the keys whose item holds a payload rather than a key.
- `memory_cache.dfy` (`MemoryCache`): the in-memory LRU cache of
  `previewer/cache/cache.go`, modelled in the same way.
- `converter.dfy` (`Converter`): the cover-fit geometry of
  `previewer/converter/converter.go` on image bounds. It covers `resize`,
  `crop`, `sizeFactor`, `convert` and the format dispatch of `SelectType`.
- `gotext.dfy` (`GoText`): the parts of Go's `strings` and `strconv` that the
  parsers use: `Split`, `Join`, `Replace`, `Itoa` and `Atoi`.
- `query.dfy`: two modules.
  - `Query` holds `buildQuery` and `Query.id` of `internal/application/query.go`.
  - `PreviewerQuery` holds the older versions in `previewer/application/query.go`.
- `http.dfy` (`Http`): headers, responses, `http.Error` and a response writer.
- `handlers.dfy`: the two request handlers, `Handlers` and
  `PreviewerHandlers`. Each maps an outcome to a response and the ordered list
  of calls made to the collaborators. The older one also copies headers in
  `writeResponse`.

Where the code and its design notes disagree, the model follows the code:

- A crop from reversed corners passes the corner check. `image.Rect` then
  swaps the coordinates, so on a reversed axis the new `Max` is 0 and the
  difference goes to `Min`.
- Neither cache's `Clear` yields an index that a later write can use.
  - The file-backed cache re-creates the nil index before writing (lines
    77-79), so the model uses an empty map.
  - The in-memory cache does not re-create it; see Findings.

## Model

| member | source | states |
|---|---|---|
| LinkedList.List.constructor | internal/cache/list.go:24-26 | A new list is valid and holds no items, so its length is 0 and its front and back are nil. |
| LinkedList.List.Len | internal/cache/list.go:28-30 | The length is the number of items in the list. |
| LinkedList.List.Front | internal/cache/list.go:32-34 | The front is the most recently pushed-to-front item, or nil on an empty list. |
| LinkedList.List.Back | internal/cache/list.go:36-38 | The back is the far end from the front, or nil on an empty list. |
| LinkedList.List.PushFront | internal/cache/list.go:40-51 | The new item is appended at the front of the item sequence and holds the value. Every other item keeps its place and value, and the shape invariant holds again. |
| LinkedList.List.PushBack | internal/cache/list.go:53-64 | The new item is prepended at the back. The others keep their order and values, and the shape holds. |
| LinkedList.List.Remove | internal/cache/list.go:66-84 | The item sequence loses exactly the removed item, keeping the others in order, so the length drops by one. Values are unchanged. Removing the sole item leaves an empty list with nil ends. |
| LinkedList.List.MoveToFront | internal/cache/list.go:86-101 | The item goes to the front and the others keep their relative order and their values. On the current front it changes nothing. |
| LinkedList.List.Transpond | previewer/cache/list_test.go:90-95 | Walking `Next` links from the back visits exactly `Len()` items and collects the values from the back to the front. |
| LinkedList.WithoutMember | internal/cache/list.go:66-84 | Removing a member of a list without repeats shortens it by one. |
| LinkedList.WithoutKeeps | internal/cache/list.go:66-84 | Removing one key keeps every other key. |
| DiskCache.LruCache.constructor | internal/cache/cache.go:33-47 | A new cache is valid and empty over the directory as it stands. |
| DiskCache.LruCache.ModelSound | internal/cache/cache.go:61-80 | Every valid cache holds no key twice and at most `capacity` keys. |
| DiskCache.LruCache.ModelKeys | internal/cache/cache.go:61-80 | The index holds exactly the keys in the queue, so its size equals `queue.Len()`. |
| DiskCache.LruCache.Set | internal/cache/cache.go:49-82 | The new abstract state and the result are those of `SetSpec`, for every outcome of the file writes and deletes. |
| DiskCache.LruCache.Overwrite | internal/cache/cache.go:52-60 | An indexed key's file is rewritten, its item holds the payload and the key becomes most recent. A failed write reports a replace error and keeps the index and the order. The file keeps its old bytes if it could not be opened; otherwise it holds the part of the new payload written before the failure. |
| DiskCache.LruCache.MakeRoom | internal/cache/cache.go:61-72 | A full queue loses its back entry and that entry's file. A failed delete changes nothing. |
| DiskCache.LruCache.Add | internal/cache/cache.go:73-81 | The new key's file is written and the key is indexed as most recent. A failed write indexes nothing, but leaves in the directory whatever part of the file it wrote. |
| DiskCache.LruCache.Get | internal/cache/cache.go:84-100 | The new state and the result are those of `GetSpec`. |
| DiskCache.LruCache.Drop | internal/cache/cache.go:149-163 | The drop fails exactly when listing fails or some file other than `nofile` cannot be removed. On success only `nofile` is left. On failure only present files remain, with their contents, including `nofile` and every undeletable file. |
| DiskCache.LruCache.Clear | internal/cache/cache.go:102-113 | On success the index and queue are empty and the directory holds at most `nofile`. On failure the index is untouched and the failure is reported. |
| DiskCache.SetSound | internal/cache/cache.go:61-80 | Every `Set` keeps the keys distinct and at most `capacity`. |
| DiskCache.SetCoherent | internal/cache/cache.go:52-80 | After a `Set`, every indexed key has its file. |
| DiskCache.SetExisting | internal/cache/cache.go:52-59 | A `Set` on an indexed key reports that the key existed. It stores the new bytes and makes the key most recent without changing the number of keys. |
| DiskCache.SetNewKey | internal/cache/cache.go:61-81 | A `Set` of a new key reports that it did not exist and appends the key as most recent. In a full cache it first evicts the least recently used key and its file, and a later `Get` of that key misses. |
| DiskCache.SaveFailureNotIndexed | internal/cache/cache.go:61-76 | If the payload cannot be written, the new key is not indexed and an error is returned. A save error is reported only after any eviction the write needed has succeeded. |
| DiskCache.FailedOverwriteThenGet | internal/cache/cache.go:52-56 | After a failed overwrite the key stays indexed in its place. The next `Get` of it hits and serves the old bytes if the file could not be opened, and otherwise the cut-off prefix of the new payload. |
| DiskCache.SetKeepsOthers | internal/cache/cache.go:49-82 | Every key other than the set one and the evicted one stays indexed with the same file. |
| DiskCache.SetThenGet | internal/cache/cache.go:49-100 | After a successful `Set`, `Get` of that key returns exactly the bytes stored and changes nothing. |
| DiskCache.GetSound | internal/cache/cache.go:84-100 | `Get` misses exactly on absent keys and then changes nothing. A present key becomes most recent. The directory is never touched. |
| DiskCache.ClearThenUse | internal/cache/cache.go:77-79 | After `Clear` every `Get` misses and a following `Set` adds its key. Only `nofile` can remain in the directory. |
| DiskCache.PurgeScenario | internal/cache/cache_test.go:90-120 | With capacity 3, after setting `aaa`, `bbb`, `ccc` and reading `bbb` then `aaa`, setting `ddd` evicts `ccc`. `aaa` still reads back. |
| DiskCache.OverwriteThenEvictPanics | internal/cache/cache.go:57-66 | With capacity 1, set `a`, set `a` again, then set `b`. As written this panics, while the corrected `Set` evicts `a` and adds `b`. |
| DiskCache.DeleteFailurePanics | internal/cache/cache.go:66-68 | As written, a failed delete of the evicted file panics while the error text is being formatted. |
| DiskCache.SetAsWritten | internal/cache/cache.go:49-82 | As written, `Set` completes whenever the key is indexed or the queue has room, and then agrees with `SetSpec`. Only an eviction can panic. |
| DiskCache.DeleteFailureReported | internal/cache/cache.go:66-69 | Corrected, a failed delete is reported as an error on the evicted key and changes nothing. |
| MemoryCache.LruCache.constructor | previewer/cache/cache.go:28-34 | A new cache is valid, empty, and has a live (non-nil) index. |
| MemoryCache.LruCache.ModelSound | previewer/cache/cache.go:44-57 | Every valid cache holds no key twice, at most `capacity` keys, and a value for each key. |
| MemoryCache.LruCache.ModelKeys | previewer/cache/cache.go:44-57 | The index holds exactly the keys of the queue, each with a value. |
| MemoryCache.LruCache.Set | previewer/cache/cache.go:36-58 | The new abstract state and the `existed` flag are those of `SetSpec`. |
| MemoryCache.LruCache.Replace | previewer/cache/cache.go:37-43 | An indexed key gets the new value and becomes most recent, and `Set` reports `true`. |
| MemoryCache.LruCache.MakeRoom | previewer/cache/cache.go:44-53 | A full queue loses its back entry from both the index and the queue, leaving room for one more key. |
| MemoryCache.LruCache.Add | previewer/cache/cache.go:44-57 | A new key, after any eviction, is stored as most recent with its value. |
| MemoryCache.LruCache.Get | previewer/cache/cache.go:60-72 | The new state and the result are those of `GetSpec`. |
| MemoryCache.LruCache.Clear | previewer/cache/cache.go:74-80 | The cache is empty and its index is nil. |
| MemoryCache.SetSound | previewer/cache/cache.go:44-57 | Every `Set` keeps the keys distinct, at most `capacity`, each with a value. |
| MemoryCache.SetExisting | previewer/cache/cache.go:37-43 | `Set` on a present key returns `true`, replaces the value and makes the key most recent, keeping the number of keys. |
| MemoryCache.SetNewKey | previewer/cache/cache.go:44-57 | `Set` of a new key returns `false` and adds it as most recent. A full cache first forgets the least recently used key, which then misses. |
| MemoryCache.SetKeepsOthers | previewer/cache/cache.go:36-58 | Every key other than the set and evicted ones keeps its place and value. |
| MemoryCache.SetThenGet | previewer/cache/cache.go:36-72 | After `Set`, `Get` returns exactly the value stored and changes nothing. |
| MemoryCache.GetSound | previewer/cache/cache.go:60-72 | `Get` misses exactly on absent keys and then changes nothing. On a present key it returns the stored value and makes the key most recent. |
| MemoryCache.ClearThenGet | previewer/cache/cache.go:74-80 | After `Clear` the cache is empty and every `Get` misses. |
| MemoryCache.SetAsWritten | previewer/cache/cache.go:36-58 | As written, `Set` completes whenever the index is live or the key is already indexed, and then agrees with `SetSpec`. |
| MemoryCache.ClearThenSetPanics | previewer/cache/cache.go:55 | As written, every `Set` of a key after `Clear` panics by writing to a nil map. |
| MemoryCache.ClearThenSet | previewer/cache/cache.go:74-80 | With the index re-created, `Set` after `Clear` adds the key and `Get` finds its value. |
| Converter.Resized | previewer/converter/converter.go:114-123 | `resize` succeeds exactly for a positive width and height, and then the bounds are exactly those; otherwise it fails with the resize error. |
| Converter.Cropped | previewer/converter/converter.go:125-139 | A successful crop is of a non-nil image and never grows its bounds. |
| Converter.ReversedCorners | previewer/converter/converter.go:125-139 | Corners reversed on the x axis pass the check, and the crop leaves `Max.X` at 0: a 10×10 image cropped from (5, 0) to (2, 3) ends at (0, 3). |
| Converter.Converted | previewer/converter/converter.go:80-112 | `convert` succeeds only for a positive target. Its only errors are the reduce, resize and corner errors. |
| Converter.CropWindow | previewer/converter/converter.go:125-139 | A crop window inside the bounds gives exactly the window's width and height. |
| Converter.CropFails | previewer/converter/converter.go:128-133 | A crop fails exactly when the image is nil or a corner lies outside the bounds. |
| Converter.SizeFactor | previewer/converter/converter.go:141-146 | The factor always has a positive denominator, so the aspect comparison and the divisions in `convert` are defined even for a zero height, whose error `convert` ignores. |
| Converter.WiderWindow | previewer/converter/converter.go:90-97 | For a relatively wider source, the resized width covers the target width. The centred crop window lies inside the resized image, with margins that differ by at most one. |
| Converter.NarrowerWindow | previewer/converter/converter.go:102-109 | The same for a relatively narrower source: the resized height covers the target, and the window lies inside. |
| Converter.CoverFit | previewer/converter/converter.go:80-112 | For a non-empty source and a positive target, `convert` succeeds with output exactly `width × height`. |
| Converter.EmptySource | previewer/converter/converter.go:86-104 | On amd64, a source of zero width or height makes `convert` fail with the resize error. The factor is 0, dividing by it gives `+Inf`, and `int(+Inf)` is the smallest `int`, so the height asked for is negative. |
| Converter.ConvertOutcome | previewer/converter/converter.go:80-112 | Every outcome of `convert` on amd64: the reduce error for a non-positive target, the resize error for an empty source, and otherwise exactly `width × height`. |
| Converter.Image.constructor | previewer/converter/converter.go:76-78 | A new image wraps a decoded image of the given bounds. |
| Converter.Image.Resize | previewer/converter/converter.go:114-123 | A positive target becomes the new bounds. Anything else returns the resize error and leaves the bounds unchanged. |
| Converter.Image.Crop | previewer/converter/converter.go:125-139 | A nil image gives the corrupted error and corners outside the bounds give the corner error, both leaving the image unchanged. Otherwise each side of the bounds becomes the corner difference on that axis, or 0 where the corners are reversed. |
| Converter.Image.Convert | previewer/converter/converter.go:80-112 | On success the bounds are those `Converted` gives. On failure the error is the one it gives and the bounds are unchanged. |
| Converter.SelectType | previewer/converter/converter.go:22-74 | The result is `SelectTypeSpec`: sniff, then decode in the detected format, convert, and encode in the same format. |
| Converter.UnknownFormatRefused | previewer/converter/converter.go:57-68 | Content that is not JPEG, PNG or GIF is refused with "unknown format". |
| Converter.SelectTypeOutput | previewer/converter/converter.go:26-73 | A known format that decodes to a non-empty image, with a positive target, is encoded in its own format at exactly the target size, JPEG at quality 80. |
| GoText.Split | internal/application/query.go:22 | `strings.Split` yields at least one piece, and no piece holds the separator. |
| GoText.Join | internal/application/query.go:34 | `strings.Join` starts with the first piece. |
| GoText.JoinSplit | internal/application/query.go:34 | Joining the pieces of a split gives the original string back. |
| GoText.SplitJoin | internal/application/query.go:34 | Splitting a join gives the pieces back when no piece holds the separator. |
| GoText.ReplaceAll | internal/application/query.go:43 | `strings.Replace(s, "/", "_", -1)` keeps the length. |
| GoText.ReplaceAllAt | internal/application/query.go:43 | `strings.Replace(s, "/", "_", -1)` replaces exactly the occurrences, position by position. |
| GoText.Itoa | internal/application/query.go:43 | `strconv.Itoa` writes a non-empty string of digits and minus signs. |
| GoText.Atoi | internal/application/query.go:26-33 | `strconv.Atoi` accepts only an optional sign followed by decimal digits, and an unsigned number is never negative. |
| GoText.AtoiItoa | internal/application/query.go:26-33 | `Atoi` reads back every 64-bit number `Itoa` writes. |
| GoText.ItoaInjective | internal/application/query.go:43 | Distinct numbers are written differently. |
| Query.BuildQuery | internal/application/query.go:21-40 | A parse fails only with the "need more params", width, height or URL error. A success needs at least five segments, and its width, height and URL are what `Atoi` and the URL parser read from segments 2, 3 and the rest. |
| Query.ParseRequestPath | internal/application/query.go:21-40 | Every well-formed path, with any verb and any size (zero and negative included), parses to that size and to the origin `http://` plus the remaining segments, or to the URL error. |
| Query.ShortPathRefused | internal/application/query.go:22-25 | A path of fewer than five segments is refused with "need more params". |
| Query.BadSizeRefused | internal/application/query.go:26-33 | A non-integer width is refused with the width error, and a non-integer height after a valid width with the height error. |
| Query.Id | internal/application/query.go:42-44 | The cache key holds no `/`, so it is a plain file name in the cache directory. |
| Query.IdSharedBy | internal/application/query.go:42-44 | For one size, two queries share a key exactly when their paths agree once every `/` is read as `_`, whatever their hosts. |
| Query.IdCollision | internal/application/query.go:42-44 | `/a/b.jpg` and `/a_b.jpg` on any two hosts share the key of a size. |
| PreviewerQuery.BuildQueryAsWritten | previewer/application/query.go:20-35 | As written, the parser panics exactly on fewer than three segments, or on three whose width parses. It accepts a path only from four segments on. |
| PreviewerQuery.Id | previewer/application/query.go:37-39 | The older key keeps its separators, and its first piece is the width. |
| PreviewerQuery.AgreesFromFiveSegments | previewer/application/query.go:20-35 | From five segments on, the older parser and the current one give the same result. |
| PreviewerQuery.OnlyWidthPanics | previewer/application/query.go:20-25 | As written, `/fill/10` panics, while the current parser refuses it. |
| PreviewerQuery.OnlyDimensionsAccepted | previewer/application/query.go:20-35 | As written, `/fill/10/10` is accepted with the origin `http://`, while the current parser refuses it. |
| PreviewerQuery.IdInjective | previewer/application/query.go:37-39 | The older key tells every size and path apart; only the host is dropped. |
| Http.AddAllMerged | previewer/application/handlers.go:61-63 | Adding every value of a name not yet merged, one `Add` at a time, merges that name's values. |
| Http.AddEachMerged | previewer/application/handlers.go:60-64 | Adding the values of distinct names one name after another, in any order, merges exactly the named entries. |
| Http.MergedAdd | previewer/application/handlers.go:62 | One `Header().Add` appends one value to the merged headers. |
| Http.ResponseWriter.Add | previewer/application/handlers.go:62 | `Header().Add` appends the value to the name's values. |
| Http.ResponseWriter.Write | previewer/application/handlers.go:65 | `Write` appends the bytes to the body. |
| Handlers.Handle | internal/application/handlers.go:15-68 | No collaborator is called exactly when the path does not parse. Otherwise the cache lookup under the request's key comes first, and at most four calls are made. A picture is served exactly when the status is 200. |
| Handlers.ParseFailureRefused | internal/application/handlers.go:19-25 | A path that does not parse is answered with 400 and the parse error, and no collaborator is called. |
| Handlers.PictureServed | internal/application/handlers.go:26-66 | A picture is served exactly in two cases. The cache may hold a `[]byte` for the key with no error: then nothing else is called and `X-From-Appcache: true` is set. Otherwise the origin answered 200, conversion succeeded and the store succeeded: then the calls are get, fetch, convert and store, in that order. |
| Handlers.FailureStatus | internal/application/handlers.go:26-65 | A cache error gives 500 after one call, and a fetch error 502. An origin status other than 200 is passed on unchanged after two calls. A conversion error gives 500 after three calls, and a failed store 500 after four. |
| Handlers.StoresOnlyConverted | internal/application/handlers.go:59-66 | The cache is only written, as the last call, under the request's key, with the conversion of an origin body that came with status 200. |
| PreviewerHandlers.Handle | previewer/application/handlers.go:12-39 | No collaborator is called exactly when the path does not parse. Otherwise the cache lookup under the older key comes first, and at most four calls are made. A picture is served exactly when the status is 200. |
| PreviewerHandlers.PictureServed | previewer/application/handlers.go:14-37 | A picture is served exactly in two cases. The cache may hold a `[]byte` for the key: then it is served with no headers and nothing else is called. Otherwise the origin answered and conversion succeeded: then the picture is stored under the key and served with every origin header. |
| PreviewerHandlers.FailureStatus | previewer/application/handlers.go:14-35 | A parse failure gives 404 with no call, a fetch failure 404 after two calls, and a conversion failure 500 after three. No error reply stores anything. |
| PreviewerHandlers.WriteResponse | previewer/application/handlers.go:59-66 | Every value of every header name is added to the writer, whatever order the names are visited in, and then the body is written. |
| PreviewerHandlers.AddValues | previewer/application/handlers.go:61-63 | The inner loop adds the values of one name in order, and leaves the body alone. |

## Left out

- Disk I/O is not executed. Each read, delete and directory listing of the
  file-backed cache is a boolean outcome parameter. A write is a `FileWrite`
  outcome: it completes, fails to open the file, or stops after some number
  of bytes of the truncated file.
- `DiskCache.LruCache.Drop`: the outcomes are described by the set of files
  that cannot be removed. `ReadDir` returns the names sorted, and `drop`
  stops at the first file it cannot remove. The model does not use that
  order: on failure it states which files must remain, not exactly which
  were removed.
- Error messages: the file paths that `path.Join` builds, and the wrapped
  `%w` error texts, are reduced to the error kind and the key.
- `NewCache` directory creation and its `log.Fatalf` are not modelled, because
  they are pure I/O. The constructor takes the directory as it stands.
- Concurrency is not modelled. This covers the mutexes of both caches and of
  `Image` (including the read-lock misuse), and the multithreaded cache test.
  Every operation is sequential.
- Both caches require `capacity > 0`. With capacity 0, `Back()` is nil at the
  first eviction and the Go code dereferences it.
- `MemoryCache.LruCache.Set` requires a live index; what happens without one
  is stated by `MemoryCache.SetAsWritten` (see Findings).
- Values in the in-memory cache are `interface{}`, modelled as byte strings,
  which is all the previewer stores. The `log.Fatal` on a failed type
  assertion is unreachable in the model.
- `sizeFactor` and the `int(float64(..))` conversions are floating point.
  Ratios are modelled as exact fractions compared by cross-multiplication, and
  the truncations as integer division. The float version can differ on
  rounding edge cases and for sizes beyond 2^53.
- Pixels, `transform.Resize`, `draw.Draw`, the JPEG/PNG/GIF codecs and
  `http.DetectContentType` are foreign code. Only image bounds are modelled,
  and the sniffer and codecs are parameters.
- `Converter.EmptySource`: the model gives `int(+Inf)` the amd64 result,
  the smallest `int`. On arm64 the conversion saturates to the largest `int`,
  so there an empty source asks `resize` for an enormous height instead of
  failing with the resize error.
  `Converter.ConvertOutcome` relies on the same choice.
- `url.Parse` is a partial-function parameter, of which only the host and the
  path are kept.
- `fromOrigin` in both query files is not modelled, because it is network I/O.
  This includes request-header forwarding and the client timeout. The fetch is
  a parameter.
- `Query.BuildQuery` returns the error alone. Go also returns the zero
  `Query`, which no caller reads.
- `PreviewerHandlers.Handle` parses with the current parser rather than the
  previewer's own, so two cases differ.
  - A panic in the previewer's parser would be recovered by `net/http`,
    which closes the connection; that is not modelled.
  - On a four-segment path such as `/fill/10/10` the previewer's parser
    accepts, with an empty origin. The handler then asks the cache for
    `10/10/`, and the fetch of `https:///` fails, so it answers 404 "Pic not
    found in origin" after two calls. The model answers 404 "Can't parse
    query" with no call.
- Header names are not canonicalised the way `http.Header` does it: names are
  compared exactly.
- `http.Error` is modelled as its status, its two headers and the message plus
  a line break. Its deletion of `Content-Length` is not modelled.
- `PreviewerHandlers.WriteResponse` copies every origin header, including
  `Content-Length`, which gives the length of the origin body rather than of
  the converted picture. `net/http` then refuses or cuts off the write. The
  writer model does not check `Content-Length` against the body, so the
  modelled reply carries the whole picture.
- previewer/application/functions.go is not part of this model. It declares
  the type `Query` and the methods `id` and `fromOrigin` a second time in the
  same package as previewer/application/query.go, so Go rejects the package
  as given. Its exported `BuildQuery` is a near-copy of `buildQuery`.
- Logging middleware, configuration loading, program start-up and the
  integration tests are not modelled.

## Findings

| source | as written | input that shows it | evidently intended | confidence | as-written member | corrected member |
|---|---|---|---|---|---|---|
| internal/cache/cache.go:57-66 | An overwrite stores the payload in the item's `Value`, and eviction asserts that `Value` is a `Key`. | capacity 1: `Set("a", p)`, `Set("a", q)`, `Set("b", r)` panics | Evict by the item's `Key`: delete `a`'s file and add `b`. | not executed | DiskCache.OverwriteThenEvictPanics | DiskCache.SetNewKey |
| internal/cache/cache.go:68 | A failed delete formats its message with `k.Value.(string)`, which panics on a `Key`. | a full cache whose evicted file cannot be removed | Report "can't delete file" with the evicted key. | not executed | DiskCache.DeleteFailurePanics | DiskCache.DeleteFailureReported |
| previewer/cache/cache.go:76 | `Clear` sets the index map to nil, and `Set` later writes into it at line 55. | `Clear()`, then `Set("k", v)` panics | Re-create the map, as internal/cache/cache.go:77-79 does. | not executed | MemoryCache.ClearThenSetPanics | MemoryCache.ClearThenSet |
| previewer/application/query.go:20-25 | Segments 2 and 3 are read before the number of segments is checked. | `/fill/10` panics; `/fill/10/10` is accepted, while previewer/application/query_test.go:31-34 expects errors | Refuse fewer than five segments with "need more params". | not executed | PreviewerQuery.OnlyWidthPanics | Query.ShortPathRefused |
