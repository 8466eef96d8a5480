# fget: a model of the download planner and its bookkeeping

fget downloads a file over HTTP in several byte ranges at once. `get` sends a
HEAD request. If the reply passes its guards, `get` creates a temporary file of
the full size, splits the file into `maximumConnections` chunks (or one chunk
when the server does not accept byte ranges) and starts one ranged GET per
chunk, last chunk first. Each chunk's data handler counts the bytes and writes
them through a write stream opened at the chunk's offset. Each chunk's end
handler feeds a completion barrier. When the barrier's counter reaches the
chunk count, the barrier either unlinks the temporary file (after `cancel`) or
renames it onto the final name and calls back with success.

The model is in Dafny, one module per concern:

- `Text`: decimal rendering of integers as JavaScript's string conversion does it for integral values, and `_padTimeLeft`.
- `Paths`: three pieces.
  - The last `/`-segment of the response path.
  - Node's POSIX `path.basename` and `path.extname`.
  - The temporary file name `"." + basename + extname + ".fget.tmp"`, which really does repeat the extension.
- `Chunks`: the chunk size `Math.ceil(T / N)`, the inclusive range of every chunk, the `Range` header value, and the `while (c--)` loop that starts the chunk requests (a method with a loop invariant).
- `Probe`: the guards of `get` and the decision it takes on the HEAD reply.
- `Barrier`: `_doHandleDownloadChunkDone` as a function of the counter, the chunk count and the cancel flag, and runs of successive chunk ends.
- `Files`: the temporary file as a byte sequence written by positioned write streams.
- `Engine`: the module state as a class `Downloader`, whose methods change it in place:
  - `Get` and `Start`;
  - `Cancel`;
  - the data handler `OnData`;
  - the end handler `OnEnd`.

  The invariant `Valid` ties the byte counter to what the streams wrote and the chunk counter to the ended chunks. It also keeps the phase of the session (downloading, published, purged) in step with which files exist.

Several properties are proved for every input:

- The plan partitions `[0, T-1]`:
  - the non-empty chunks are disjoint and contiguous;
  - their lengths sum to `T`, and no chunk is longer than the chunk size;
  - trailing chunks may be empty, because the chunk count is not clamped.
- Every chunk index is dispatched exactly once, in strictly descending order.
- The barrier acts at most once. It acts exactly once when the counter starts below the chunk count and the chunk ends bring it up to that count. From a counter of 0, a chunk that never ends stops the barrier from acting. A counter left at `k` with `0 < k < N` by an earlier download makes it act after `N - k` ends, whether or not the other chunks end. A counter left at `k >= N`, as any finished earlier download with at least as many chunks leaves it, never lets the barrier act: the callback never fires and the temporary file stays.
- A fragment received after `cancel` is neither counted nor written. Any other fragment raises the byte counter by its length and lands at the stream's position.
- The streams' fragments may arrive interleaved in any order. As long as no non-empty chunk has received more bytes than its range holds, each byte of a chunk still holds what that chunk's own stream received for it. So once every non-empty chunk has received its bytes of the content, the first `T` bytes of the file are the content. Bytes a server sends beyond a chunk's range would overwrite the next chunk.

An empty chunk still sends a request, with a range whose end lies before its start (`bytes=12-10` for 11 bytes in 10 chunks). Such a range is invalid, and a server may answer it with the whole body. The model lets the stream of an empty chunk receive any bytes. They land at or past byte `T`, so the first `T` bytes are unaffected but the file can grow beyond `T` bytes (`Files.EmptyChunkBodyExample`). The file is exactly the content only when the empty chunks receive nothing.

The model follows what the code does:

- the probe is a HEAD request;
- only status 200 passes;
- the chunk count is not clamped to the file size, so empty chunks exist;
- an error on a chunk request is only logged: it does not cancel the session and does not retry the chunk;
- `_chunksCompleted` is never reset between downloads.

The Content-Length guard compares the header string with the number 0 using `===`. That comparison never holds, so a zero length is accepted and only an absent header is refused.

## Model

| member | source | states |
|---|---|---|
| Text.IntToString | lib/api.js:101 | `String(i)` for an integral number: the decimal digits of its magnitude, after a '-' when it is negative (its meaning is fixed by `Text.ParseIntToString`) |
| Text.NatToString | lib/api.js:101 | the decimal text of a number is non-empty, made of digits only, and has no leading zero unless the number is 0 |
| Text.ParseNatToString | lib/api.js:101 | reading the decimal text of `n` back gives `n` |
| Text.ParseIntToString | lib/api.js:101 | reading the text of a possibly negative integer (for example the end offset -1 of an empty file) back gives the integer |
| Text.IntToStringInjective | lib/api.js:101 | distinct offsets render as distinct strings |
| Text.Repeat | lib/api.js:71 | `new Array(count + 1).join(pad)` has `count` times as many characters as the pad, each the pad character when the pad is one character |
| Text.PadTimeLeft | lib/api.js:70-72 | a zero length returns the string whole (`slice(-0)`); otherwise the result is the last `length` characters (or all, when fewer) of the padding followed by the string |
| Text.PadTimeLeftOneChar | lib/api.js:70-72 | with a one-character pad and `length >= 1` the result has exactly `length` characters: the string left-padded to `length` when it is short enough, else its last `length` characters |
| Paths.LastSegment | lib/api.js:226 | `pathname.split('/').pop()`: the text after the last '/' (characterised by `Paths.LastSegmentShape`) |
| Paths.Basename | lib/api.js:234 | `path.basename`: the last segment once trailing slashes are dropped |
| Paths.Extname | lib/api.js:235 | `path.extname`: from the last '.' of the base name, except for a name with no '.', a leading-dot-only name and ".." (characterised by `Paths.ExtensionOfShape`) |
| Paths.TempName | lib/api.js:236 | `[".", basename, extname, ".fget.tmp"].join('')` (characterised by `Paths.TempNameShape` and `Paths.TempNameOfPlainName`) |
| Paths.LastSegmentShape | lib/api.js:226 | `split('/').pop()` is the suffix after the last '/', contains no '/', and is the whole path when the path has no '/' |
| Paths.StripTrailingSlashesShape | lib/api.js:234 | the stripped name is a prefix of the input, does not end in '/', and only slashes were removed |
| Paths.LastDotShape | lib/api.js:235 | the index found holds a '.', no '.' follows it, and -1 means there is none |
| Paths.ExtensionOfShape | lib/api.js:235 | the extension is a suffix of the base name, empty or starting with its only '.'; it is non-empty exactly when the base name has a '.' after its first character and is not ".." |
| Paths.BasenameOfSegment | lib/api.js:234 | a name without '/' is its own base name |
| Paths.TempNameShape | lib/api.js:234-236 | the temporary name starts with '.', contains no '/', ends in ".fget.tmp", and the base name already ends with the extension |
| Paths.TempNameOfPlainName | lib/api.js:234-236 | for a name without '/', the temporary name is "." + name + extension + ".fget.tmp", so the extension appears twice |
| Paths.TempNameDiffers | lib/api.js:236 | the temporary name never equals the final name, so the rename at the end is never a no-op |
| Paths.ExtnameExample | lib/api.js:235 | the extension of "a.gz" is ".gz" |
| Paths.TempNameExample | lib/api.js:236 | "a.gz" is downloaded into ".a.gz.gz.fget.tmp" |
| Chunks.ChunkSize | lib/api.js:283 | `Math.ceil(T / N)` is the least size for which N chunks hold T bytes: `N * size >= T` and `N * (size - 1) < T` |
| Chunks.Chunk | lib/api.js:289-300 | by definition, the formulas of lines 289 and 300: chunk `c` starts at `c * chunkSize` and ends at `min((c + 1) * chunkSize - 1, T - 1)`, unclamped (what these ranges amount to is proved by `Chunks.ChunkContains` and `Chunks.EmptyChunk`) |
| Chunks.Plan | lib/api.js:283-300 | one range per chunk index, `count` of them, none clamped away |
| Chunks.ChunkContains | lib/api.js:289-300 | chunk `c` holds byte `b` exactly when `0 <= b < T` and `b / chunkSize == c` |
| Chunks.ChunkIndexBound | lib/api.js:283-300 | every byte of the file belongs to a chunk index below N |
| Chunks.PlanCovers | lib/api.js:283-300 | every byte of `[0, T-1]` lies in chunk `b / chunkSize` and in no other chunk |
| Chunks.PlanDisjoint | lib/api.js:289-300 | no chunk holds a byte outside the file, and two chunks never share a byte |
| Chunks.PlanTiling | lib/api.js:283-300 | the plan lays its ranges over `[0, T-1]` without overlap: non-empty ranges lie inside the file and apart from each other, empty ones start at or past its end |
| Chunks.EmptyChunk | lib/api.js:289-300 | a chunk is empty (start > end) exactly when `c * chunkSize >= T` |
| Chunks.PlanContiguous | lib/api.js:289-300 | the first chunk starts at 0, and a non-empty chunk starts right after the end of the previous one, which is non-empty too |
| Chunks.ChunkLengthBound | lib/api.js:289-300 | no chunk is longer than the chunk size |
| Chunks.PrefixLength | lib/api.js:283-300 | the first k chunks hold `min(k * chunkSize, T)` bytes |
| Chunks.PlanLength | lib/api.js:283-300 | the chunk lengths sum to T |
| Chunks.SingleChunkPlan | lib/api.js:283-300 | with one chunk the plan is the single range `[0, T-1]` |
| Chunks.EvenPlanExample | lib/api.js:283-300 | 1,000,000 bytes in 4 chunks are the four ranges of 250,000 bytes |
| Chunks.OvershootExample | lib/api.js:283-300 | 11 bytes in 10 chunks: chunk 5 is `[10, 10]` and chunk 6 is the empty `[12, 10]` |
| Chunks.RangeHeader | lib/api.js:101 | `["bytes=", offset, "-", end].join('')` (read back by `Chunks.RangeHeaderRoundTrip`) |
| Chunks.RangeHeaderRoundTrip | lib/api.js:101 | the header value `bytes=<offset>-<end>` reads back as exactly the offsets it was built from, the end even when it is -1 |
| Chunks.Dispatch | lib/api.js:283-303 | the loop starts N requests; the k-th is for chunk N-1-k with its planned range, its header, and a start offset of `index * chunkSize` |
| Chunks.DispatchOrder | lib/api.js:285-303 | the dispatched indices are strictly descending and are exactly `0..N-1`, so each chunk is requested once |
| Probe.Decide | lib/api.js:184-215 | the guards and the HEAD-reply decision: throw, reject with an error, or proceed with a chunk count, a size and a path (each outcome stated by `Probe.DecideOutcomes`) |
| Probe.DecideOutcomes | lib/api.js:184-215 | no callback throws; a missing or empty uri is reported; a transport error is reported with its own message; a status other than 200 or an absent Content-Length is reported; the download goes ahead exactly when none of these holds |
| Probe.Message | lib/api.js:189-207 | the text each error hands to the callback: the uri message, the transport error itself, "Non 200 Response: " with the status, and the Content-Length message |
| Probe.NoRequestWithoutUri | lib/api.js:184-192 | without a callback or a uri the decision does not depend on the HEAD reply, because no request is made |
| Probe.ProceedPlan | lib/api.js:206-230 | when the download goes ahead, the size is the Content-Length and the chunk count is `maximumConnections` if `accept-ranges` is exactly "bytes"; otherwise the plan is the single range `[0, T-1]` |
| Barrier.Completion | lib/api.js:262-279 | the action of the chunk end that brought the counter to a value: wait below or above the chunk count, at it purge after a cancel and publish otherwise |
| Barrier.Run | lib/api.js:262-279 | the actions of successive chunk ends, one per end (what each one is stated by `Barrier.RunAt`) |
| Barrier.RunAt | lib/api.js:262-279 | the k-th chunk end acts exactly when it brings the counter to the chunk count; it purges when the cancel flag is set and publishes otherwise |
| Barrier.FiresOnce | lib/api.js:262-279 | over any run of chunk ends the barrier acts at most once: exactly once when the counter starts below the chunk count and the ends bring it to that count, never otherwise |
| Barrier.FreshCounter | lib/api.js:262-279 | from a zero counter the first N-1 ends do nothing, and the N-th purges or publishes according to the cancel flag |
| Barrier.StaleCounter | lib/api.js:218-220 | a counter left at `k` with `0 < k < N` by an earlier download, which is never reset, makes the barrier act after only N-k chunk ends, and at no other end |
| Barrier.SpentCounter | lib/api.js:218-220 | a counter left at `k >= N` by an earlier download never equals N again: no chunk end purges or publishes, so the callback never fires and the temporary file stays |
| Files.WriteAt | lib/api.js:291-298 | a write at a position puts the data there, keeps every other byte, grows the file when needed and leaves any gap zero; an empty write changes nothing |
| Files.WriteAtAppend | lib/api.js:123 | two fragments written one after the other from a position land as their concatenation |
| Files.SequentialWrites | lib/api.js:117-124 | however a chunk's body is split into fragments, the bytes land contiguously from the stream's start offset, in the order received |
| Files.WriteFragments | lib/api.js:117-124 | one stream's fragments written in order from its start offset (equal to one write of their concatenation by `Files.SequentialWrites`) |
| Files.Replay | lib/api.js:117-124 | the file after the fragments of all streams, interleaved in arrival order, each written where its own stream stands |
| Files.ReplayMirrors | lib/api.js:291-298 | whatever the interleaving, while no non-empty chunk has received more than its range, the file has at least its truncated size and each byte of each chunk holds what that chunk's own stream received for it, or zero |
| Files.ReplayLength | lib/api.js:239-241 | when in addition the empty chunks have received nothing, the file keeps exactly the size it was truncated to |
| Files.Assemble | lib/api.js:283-303 | once every non-empty chunk has received exactly its bytes of the content, in any interleaving, the file begins with the content; it is exactly the content when the empty chunks have received nothing |
| Files.EmptyChunkBodyExample | lib/api.js:289-300 | 11 bytes in 10 chunks: chunk 6 is empty, and an 11-byte body sent for its invalid range is written from byte 12, so the file grows to 23 bytes |
| Engine.NothingWritten | lib/api.js:219 | fresh streams have written nothing, so the reset byte counter matches them |
| Engine.SumUpdate | lib/api.js:122 | adding a fragment's length to one stream adds it to the total |
| Engine.ResolveFilename | lib/api.js:223-227 | the cached `api.filename`, otherwise the decoded last segment of the response path (stated by `Engine.ResolvedName`) |
| Engine.ResolvedName | lib/api.js:223-227 | a cached `api.filename` is used unchanged; otherwise the name is the decoded last '/'-segment of the response path |
| Engine.FreshSessionConsistent | lib/api.js:217-241 | a new session whose temporary file starts as `Zeros(T)`, T zero bytes as `open('w')` and `truncate` leave it, satisfies the invariant |
| Engine.DataConsistent | lib/api.js:117-124 | counting a fragment for a chunk keeps the invariant |
| Engine.AbortConsistent | lib/api.js:118-121 | an aborted request changes no counter and no file, and keeps the invariant |
| Engine.StreamFileContent | lib/api.js:117-124 | for a download in progress or published, once every non-empty chunk's stream has received its bytes of the content, in any interleaving, the file the streams write into begins with the content, and is the content when the empty chunks received nothing |
| Engine.EndConsistent | lib/api.js:262-280 | a chunk end keeps the invariant: waiting, purging and publishing each move the phase along with the files |
| Engine.Downloader.constructor | lib/api.js:146-153 | the initial module state: no cached name, 10 connections, zero counters, no cancel, no session |
| Engine.Downloader.Get | lib/api.js:177-236 | the call throws exactly when there is no callback; a rejected probe only appends the error reply; otherwise a session starts for the decided chunk count, size and resolved name |
| Engine.Downloader.Start | lib/api.js:217-303 | the name is cached, the byte counter and the cancel flag are reset while the chunk counter is not, the temporary file exists at the full size, and every chunk request has started |
| Engine.Downloader.Cancel | lib/api.js:311-313 | only the cancel flag changes |
| Engine.Downloader.OnData | lib/api.js:117-124 | with the cancel flag raised the request is aborted and nothing is counted or written; otherwise the counter rises by the fragment's length, the bytes land at the stream's position, and that position advances by the length |
| Engine.Downloader.OnEnd | lib/api.js:262-280 | the counter rises by one; below the chunk count nothing else changes; at it, the temporary file is unlinked with no reply after a cancel, and otherwise renamed onto the final name with one success reply |

## Left out

- HTTP transport is not modelled: the HEAD and GET requests, pooling and `abort`. The HEAD reply is an input of `Get`, and a chunk request's data and end events are calls of `OnData` and `OnEnd`, in any interleaving.
- The user-agent string is left out, because it is built from OS values (`os.type`, `os.release`, `os.arch`).
- `decodeURI` is a parameter of `Get`, an arbitrary total function. The real one throws `URIError` on a malformed escape such as `%E9`; inside the HEAD callback that exception is not caught and ends the process, which is not modelled.
- Windows path semantics are not modelled: `path` follows the host platform, and on Windows `basename` and `extname` also split at '\\', which `decodeURI` can produce from `%5C`. The model uses the POSIX rules.
- `status` and `_getRateWithUnits` are left out because they are floating-point arithmetic on the clock: rate, smoothing and ETA. Only `_padTimeLeft`, which `status` uses, is modelled.
- The self-test harness and `config/config.js` are not part of this model.
- The file system is a map from names to byte sequences:
  - errors from `fs.open`, `fs.truncate`, `renameSync` and `unlinkSync` are not modelled;
  - stream buffering and closing are not modelled.
- Error events of chunk requests are not modelled, because the code only logs them.
- An `end` event after an aborted request is allowed but not required, because whether the request library emits one is not visible in the code.
- A Content-Length that is not a decimal number is not modelled. The size arrives as a natural number.
- Engine.Downloader: `maximumConnections` is a natural number. The loop `while (c--)` with a negative count never terminates in JavaScript, so negative counts are left out.
- Chunks.ChunkSize: does not model floating-point rounding for sizes of 2^53 bytes and more.
- Text.NatToString: does not model JavaScript's exponent notation, which `String` uses for numbers of 10^21 and more.
- Engine.Session holds `_filename` and `_tmpFileName` of the latest `get` only. These are module globals in the code, and a new `get` replaces the session. Streams and barriers of an earlier download that are still running are therefore not modelled.
- Engine.Downloader.OnData: after a purge the stream's file has no name, and the written bytes are modelled as lost. After the rename they go to the final name, because an open stream follows a rename.
- What a server sends for an empty chunk's invalid range is not constrained: its stream may receive any bytes, which land at or past byte `T` (see `Files.Assemble`).
