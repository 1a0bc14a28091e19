# libwcap core in Dafny

libwcap is a small Linux screen and window capture library. A caller picks a
source through the XDG Desktop Portal (`org.freedesktop.portal.ScreenCast`):
a three-step negotiation of `CreateSession`, `SelectSources` and `Start` over
the session bus. The library then pulls frames from a PipeWire stream through
a GStreamer `appsink`. Each frame arrives as a padded 4-bytes-per-pixel
BGRx buffer. It is cropped to producer metadata, or else, unless the type
is Screen, to the detected content; a Screen capture without metadata keeps
the whole frame. Each frame row is then the first `3 * cw` bytes of the crop's
source row, copied into a scratch buffer the capture object keeps across
calls. Because a source pixel is 4 bytes wide, that copy keeps the padding
byte of each pixel it covers and never reaches the last quarter of the
crop's pixels (see "## Findings").

This project models the logic of `src/wcap.cpp` in four files:

- `types.dfy` (module `WcapTypes`): `CaptureType`, `Frame`, the empty-frame
  sentinel and a `uint32` type.
- `bounds.dfy` (module `CropDetector`): `detect_bounds` as an imperative
  method with its four early-exit sweeps, proved against a declarative
  definition of content bounds.
  - A pixel is content when one of its first three bytes is nonzero.
  - The bounds are the smallest rectangle holding every content pixel, or the
    whole frame when there is none.
- `portal.dfy` (module `Portal`): `PortalHelper` as a class with the fields
  the source updates (`session_handle`, `request_path`, `finished`,
  `node_id`), proved against pure specification functions.
  - `Respond` is the effect of one signal.
  - `Await` is the wait loop, and `CallSpec` is one method call.
  - `Negotiate` and `GetIdSpec` are the three-step sequence.
  - The bus is abstracted in two ways. What each synchronous call returns (a
    request path or a transport error) is a parameter. The `Response`
    signals the bus delivers are an ordered list, consumed by the wait loop.
- `capture.dfy` (module `Capture`): the `ScreenCapture` facade.
  - `select_source` is built on `get_id`, with the pipeline launch abstracted
    to whether it succeeded.
  - `get_frame` is modelled from the mapped buffer on: the crop choice, the
    upward-only resize of `frame_buffer` (an array field), the stride-aware
    row loop of `memcpy` calls, and the hand-off of the scratch buffer.

A non-zero response code does not stop the negotiation. `on_signal` sets
`finished` for every Response on the request path, whatever its code
(`src/wcap.cpp:29`, `43`), so `call` returns true and `get_id` goes on to
the next step (`src/wcap.cpp:89-91`). Only the `node_id` the Responses left
behind decides the result (`src/wcap.cpp:92`). In the ScreenCast portal
protocol only Start's Response carries `streams`. `Negotiate` models this sequence, and three
lemmas state its outcomes from a fresh helper:

- `GetIdGranted`: when all three calls get a request path and Start's
  Response grants a stream, `get_id` returns that stream's node id,
  whatever the earlier Responses said.
- `GetIdStartDenied`: when Start's Response carries a non-zero code (or
  Start is never answered because a call failed) and no earlier Response
  granted a stream, the result is 0.
- `GetIdDenied`: when every Response carries a non-zero code, the result
  is 0.

## Model

| member | source | states |
|---|---|---|
| CropDetector.RowScan | src/wcap.cpp:148-149 | The row sweep reports true exactly when some pixel of row `py` has a nonzero byte among its first three. |
| CropDetector.ColumnScan | src/wcap.cpp:160-162 | The column sweep over rows `y0..y1` reports true exactly when one of those pixels of column `px` is content. |
| CropDetector.DetectBounds | src/wcap.cpp:143-174 | The result is the content bounds: the whole frame when there is no content pixel; otherwise a rectangle inside the frame that holds every content pixel and has content on each of its four edges. It lies inside the frame, and it is non-empty for a non-empty frame. The fallback at line 173 is never taken once content was found. |
| CropDetector.BoundsUnique | src/wcap.cpp:145-172 | Two rectangles that both meet the content-bounds definition are equal, so the sweeps' result is the smallest enclosing rectangle and is fully determined by the buffer. |
| CropDetector.ContentRectBounds | src/wcap.cpp:145-172 | When the content pixels are exactly those of a non-empty rectangle R inside the frame, a rectangle is the content bounds if and only if it is R. |
| CropDetector.SinglePixelBounds | src/wcap.cpp:145-172 | A frame whose only content pixel is (px, py) has bounds (px, py, 1, 1), and no other rectangle qualifies. |
| Capture.RowStart | src/wcap.cpp:217 | The offset `(cy + i) * stride + cx * 4` that row i's copy starts from is the byte offset of the crop's left pixel `(cx, cy + i)` on its source row. |
| Capture.RowInBuffer | src/wcap.cpp:217-219 | For every row of a crop inside the frame, the `4 * cw` bytes of the row's pixels from `(cy + i) * stride + cx * 4` lie inside the mapped buffer, and so do the `3 * cw` bytes its `memcpy` reads. |
| Capture.RowBytes | src/wcap.cpp:217-219 | The source window of one frame row is `3 * cw` bytes long. |
| Capture.Cropped | src/wcap.cpp:208-220 | The frame bytes of a `cw x ch` crop are exactly `ch * 3 * cw` bytes long. |
| Capture.CroppedPrefix | src/wcap.cpp:216-220 | The frame bytes of the first k rows of a crop are a prefix of the crop's frame bytes. |
| Capture.CroppedRow | src/wcap.cpp:216-220 | Frame bytes `[i*cw*3, (i+1)*cw*3)` are the source window of row `cy + i`, starting at column `cx`. |
| Capture.CroppedAt | src/wcap.cpp:216-220 | Byte `i*cw*3 + j` of the frame is byte `(cy+i)*stride + cx*4 + j` of the mapped buffer, for every row `i < ch` and `j < 3*cw`. |
| Capture.CroppedReadsOnlyRows | src/wcap.cpp:216-220 | Extraction reads no source byte outside the crop's row windows: two buffers that agree on those windows give the same frame bytes. |
| Capture.CroppedKeepsPadding | src/wcap.cpp:216-220 | For a crop at least two pixels wide, frame byte 3 is the padding byte (offset 3) of the crop's first source pixel, not a colour byte of its second pixel. |
| Capture.CroppedOneRow | src/wcap.cpp:216-220 | A one-row crop extracts to the `3 * cw` source bytes at `cy * stride + cx * 4`, which lie inside the buffer. |
| Capture.TwoPixelRowAsWritten | src/wcap.cpp:216-220 | A 2 x 1 BGRx frame with bytes `[1,2,3,0xFF,4,5,6,0xFF]` extracts to `[1,2,3,0xFF,4,5]`: the padding byte is kept and the last colour byte is lost. |
| Capture.PixelRow | src/wcap.cpp:217-219 | The per-pixel packing of a `w`-pixel source row is `3 * w` bytes long. |
| Capture.PixelPacked | src/wcap.cpp:208-220 | The per-pixel packing of a `cw x ch` crop is exactly `ch * 3 * cw` bytes long, the size get_frame allocates. |
| Capture.PixelPackedPrefix | src/wcap.cpp:216-220 | The per-pixel packing of the first k rows of a crop is a prefix of the crop's packing. |
| Capture.PixelRowAt | src/wcap.cpp:217-219 | Byte `3*px + c` of a packed row is byte `4*px + c` of the source row, for every pixel `px` and channel `c < 3`. |
| Capture.PixelPackedRow | src/wcap.cpp:216-220 | Bytes `[i*cw*3, (i+1)*cw*3)` of the per-pixel packing are the packed source row `cy + i`. |
| Capture.PixelPackedAt | src/wcap.cpp:216-220 | Byte `3*(i*cw + px) + c` of the per-pixel packing is channel `c` of source pixel `(cx + px, cy + i)`, for every row, pixel and channel `c < 3`. |
| Capture.TwoPixelRowPacked | src/wcap.cpp:216-220 | The per-pixel packing of the example row `[1,2,3,0xFF,4,5,6,0xFF]` is `[1,2,3,4,5,6]`. |
| Capture.PixelPackedOneRow | src/wcap.cpp:216-220 | A one-row crop packs to the packed row at its start offset, which lies inside the buffer. |
| Capture.TwoPixelRowIntended | src/wcap.cpp:216-220 | On the same 2 x 1 frame, the per-pixel packing gives `[1,2,3,4,5,6]`. |
| Capture.ChooseCrop | src/wcap.cpp:201-207 | Crop metadata is used verbatim when present. Without it, content detection is used unless the type is Screen, and a Screen capture takes the full frame. The crop lies inside the frame. |
| Capture.CropChoiceUnique | src/wcap.cpp:201-207 | The crop decision is a function of the buffer, its metadata and the capture type. |
| Capture.Memcpy | src/wcap.cpp:219 | `memcpy` replaces exactly `dst[dstOff .. dstOff+n)` with `src[srcOff .. srcOff+n)` and keeps every other byte of the destination. |
| Capture.Grow | src/wcap.cpp:211-213 | `resize` to a larger size keeps the old bytes and appends zero bytes up to the new length. |
| Capture.CopyRow | src/wcap.cpp:217-219 | One iteration of the row loop extends the packed rows in the scratch buffer from `i` to `i + 1` and leaves the bytes past them untouched. |
| Capture.CopyRows | src/wcap.cpp:214-220 | After the row loop, the first `cw*ch*3` bytes of the scratch buffer are the frame bytes of the crop, and every byte past them is as it was. |
| Capture.ScreenCapture.constructor | src/wcap.cpp:114 | A new capture object has no pipeline, type Any and an empty scratch buffer. |
| Capture.ScreenCapture.SelectSource | src/wcap.cpp:117-141 | The type is always stored. The result is true exactly when `get_id` on a fresh helper gives a non-zero id and the pipeline could be launched; only then is the stream node set, to that id. |
| Capture.ScreenCapture.GetFrame | src/wcap.cpp:176-231 | Without a pipeline or a sample, the result is the empty frame and the scratch buffer is unchanged. Otherwise the result is `Frame(cw, ch, <frame bytes of the chosen crop>)`. A scratch buffer of length at most `needed` is grown if shorter, then moved out and left empty. A longer one keeps its length, with the frame bytes at its start and its old bytes after `needed`. |
| Portal.NatToString | src/wcap.cpp:65 | The decimal rendering is non-empty and made of digits only. |
| Portal.NatToStringRoundTrip | src/wcap.cpp:65 | Parsing the decimal rendering of n gives back n. |
| Portal.TokensDistinct | src/wcap.cpp:65-67 | The handle tokens of two different steps differ, and no handle token equals the session handle token. |
| Portal.HandleToken | src/wcap.cpp:65 | The handle token of a step is the base, `_`, then the step number in decimal, which reads back as the step. |
| Portal.SessionToken | src/wcap.cpp:67 | The session handle token is the base followed by `_s`. |
| Portal.Opts | src/wcap.cpp:63-79 | Every step's vardict holds `handle_token` with that step's token. `session_handle_token` is present exactly for step 1, and `types` exactly for step 2 (the full key sets are in `OptsContents`). |
| Portal.TypeFlag | src/wcap.cpp:71-73 | The `types` bitmask is 1, 2 or 3. The MONITOR bit (1) is set exactly when the type is not Window, and the WINDOW bit (2) exactly when it is not Screen. |
| Portal.OptsContents | src/wcap.cpp:63-79 | Every step carries `handle_token = base + "_" + step`. Step 1 adds exactly `session_handle_token = base + "_s"`. Step 2 adds exactly `multiple = false`, `types = TypeFlag(type)` and `cursor_mode = 2`. Step 3 carries nothing else. |
| Portal.Respond | src/wcap.cpp:22-45 | A signal on another path changes no field. A matching signal always sets `finished` and never changes `request_path`. A non-zero code changes neither `session_handle` nor `node_id`. A matching code-0 signal whose `streams` is non-empty sets `node_id` to the first entry, and one with a `session_handle` sets the handle to it; any new `node_id` or `session_handle` comes from such a signal. |
| Portal.PortalHelper.OnSignal | src/wcap.cpp:22-45 | The fields after `on_signal` are `Respond` of the fields before; nothing else changes. |
| Portal.FirstMatch | src/wcap.cpp:24 | The index found is that of a signal emitted on the given path, at or after the start index, or the end of the list. |
| Portal.FirstMatchIsFirst | src/wcap.cpp:24 | No signal between the start index and the first match is on the path. |
| Portal.Await | src/wcap.cpp:59 | Waiting never changes `request_path` and never goes back in the event list. |
| Portal.AwaitFirstMatch | src/wcap.cpp:22-45 | Correlation: the wait ends right after the first signal on the request path, with exactly that signal's effect; every earlier signal is discarded. |
| Portal.AwaitIgnoresStale | src/wcap.cpp:24 | Two event lists whose first signals on the request path are equal leave the same fields, whatever stale or unrelated signals come before. |
| Portal.CallSpec | src/wcap.cpp:47-61 | A call logs its request and resets `finished`. On a transport error it returns false, keeps every other field and consumes no signal. Otherwise it returns true with `request_path` set to the returned path, `finished` set, and at least one signal consumed. |
| Portal.PortalHelper.Call | src/wcap.cpp:47-61 | `call` on the object returns and leaves exactly what `CallSpec` gives for its fields, event position and request log. |
| Portal.CallNodeOrigin | src/wcap.cpp:34 | After a call, `node_id` is the one held before, or the grant of a signal emitted on the path that call returned. |
| Portal.StepRequest | src/wcap.cpp:89-91 | The call of step 1, 2 or 3 is CreateSession, SelectSources or Start, with the options of that step. SelectSources and Start pass the session handle given, and Start passes an empty parent window. |
| Portal.TokenBase | src/wcap.cpp:88 | The token base is `u` followed by the process id in decimal, which reads back as the pid. |
| Portal.GetIdSpec | src/wcap.cpp:87-93 | `get_id` issues `CallsIssued` calls and leaves the event list alone. It returns the final `node_id` when all three calls got a request path, and 0 otherwise. |
| Portal.CallsIssued | src/wcap.cpp:87-93 | Between 1 and the number of remaining steps calls are issued. Every call before the last got a request path, and the last one, unless it is Start, got a transport error. |
| Portal.Negotiate | src/wcap.cpp:87-93 | The sequence issues `CallsIssued` calls and never touches the event list. The result is the final `node_id` when all three calls returned a request path, and 0 otherwise. |
| Portal.NegotiateIssues | src/wcap.cpp:87-93 | From step i + 1 on, the calls logged are those steps in order, each with the options of its step and Start with an empty parent window. They stop after the first transport error and never before it, and earlier log entries are kept. |
| Portal.NegotiateIssuesOn | src/wcap.cpp:89-91 | The inductive step of `NegotiateIssues`, when a step's call returns a request path and the next step follows. |
| Portal.GetIdIssues | src/wcap.cpp:87-93 | `get_id` issues CreateSession, SelectSources and Start in that order, with token base `"u" + pid`, and stops after the first transport error. The session handles SelectSources and Start carry are stated by `GetIdSessionHandle`. |
| Portal.CallHandle | src/wcap.cpp:37-61 | A call that gets a request path consumes the signals up to the first Response on that path. It leaves the session handle of that Response's results when its code is 0, and otherwise the handle held before. |
| Portal.NegotiateHandles | src/wcap.cpp:90-91 | From step 2 on, SelectSources carries the session handle held when it is issued. When its call gets a request path, Start carries the handle held after the first Response on that path. |
| Portal.GetIdSessionHandle | src/wcap.cpp:37-91 | From a fresh helper whose CreateSession gets a request path, SelectSources carries the handle of the first Response on that path when it has code 0 and a `session_handle`, and `""` otherwise. When SelectSources gets a request path, Start carries the handle left by the first Response on that path, or the previous handle when that Response has none or has a non-zero code. |
| Portal.NegotiateNodeOrigin | src/wcap.cpp:87-93 | A non-zero result is the node id held before the sequence, or the first stream entry of a successful Response on one of the returned request paths. |
| Portal.GetIdNodeOrigin | src/wcap.cpp:87-93 | From a fresh helper, `get_id` gives 0 or the first stream entry of a successful Response on one of its own request paths. |
| Portal.GetIdGranted | src/wcap.cpp:22-93 | From a fresh helper, when all three calls get a request path and every Response on Start's path is a code-0 signal whose first stream is `id`, `get_id` returns `id`, whatever the CreateSession and SelectSources Responses said. |
| Portal.GetIdStartDenied | src/wcap.cpp:22-93 | From a fresh helper, when no Response on a CreateSession or SelectSources path grants a stream and every Response on Start's path carries a non-zero code, `get_id` returns 0. |
| Portal.GetIdDenied | src/wcap.cpp:29-43 | When every Response carries a non-zero code, `get_id` on a fresh helper returns 0, whichever step the denials come at. |
| Portal.PortalHelper.constructor | src/wcap.cpp:82-85 | A new helper has empty strings, `finished` false, node id 0, no signal delivered and no call issued. |
| Portal.PortalHelper.GetId | src/wcap.cpp:87-93 | `get_id` on the object returns and leaves exactly what `GetIdSpec` gives: the three calls in order with the current session handle and step options, stopping at the first transport error. |

## Left out

- The session bus itself is not modelled. That covers the connection, `g_dbus_connection_call_sync`, the signal subscription, and the building and parsing of GVariant values (`src/wcap.cpp:50-57`, `64-78`, `83-84`). Call replies and Response signals are inputs: `Reply` values and an ordered `Signal` list.
- Portal.PortalHelper.Call: makes no liveness claim. When no Response on the request path ever arrives, the source blocks for ever in `g_main_context_iteration`. The model requires that a matching signal exists (`Answered`), so `GetId` and `SelectSource` are only specified on such inputs.
- The Response results dictionary is reduced to what `on_signal` reads. `streams` becomes the list of node ids (the per-stream property maps are dropped), and `session_handle` becomes an optional string. A key of the wrong type counts as absent.
- `getpid()` is the parameter `pid`.
- All GStreamer work is abstracted:
  - `gst_init`, the pipeline description, `gst_parse_launch`, `appsink` lookup and state changes (`src/wcap.cpp:103`, `125-139`) are reduced to the boolean `launched` and the `streamNode` field;
  - pulling the sample, reading its caps and mapping the buffer (`src/wcap.cpp:181-200`, `226-229`) are reduced to the optional `RawBuffer` given to `GetFrame`.
- `ScreenCapture::stop` (`src/wcap.cpp:232-234`) changes the pipeline's state inside GStreamer, which is not modelled. Its effect on later calls, that no sample is pulled any more, is the `pulled = None` input of `GetFrame`. The destructors and raw-pointer ownership are not modelled.
- Capture.ScreenCapture.GetFrame: assumes the producer's crop metadata lies inside the frame. The source uses it without any check (`src/wcap.cpp:203-204`), and a crop outside the frame would read outside the mapped buffer.
- Capture.ScreenCapture.GetFrame: models the moved-out `frame_buffer` as a fresh empty array. The C++ standard only leaves a moved-from vector valid but unspecified; in practice it is empty.
- Capture.ScreenCapture.GetFrame: does not model `std::vector` capacity or reallocation, only its size and contents.
- Capture.CopyRows: does not model overflow of the C `int` and `size_t` arithmetic in `needed`, `(cy + i) * stride` and `i * cw * 3`. Integers here are unbounded, so frames whose byte offsets exceed 2^31 - 1 are not described as the source would compute them.
- CropDetector.DetectBounds: does not model overflow of the C `int` arithmetic in `y * stride`, `min_y * stride`, `k * stride + min_x * 4` and the column offsets (`src/wcap.cpp:148`, `154`, `161`, `168`). Integers here are unbounded, so buffers whose byte offsets exceed 2^31 - 1 are not described as the source would compute them.
- Capture.ScreenCapture.GetFrame: models the row copy as written, `3 * cw` contiguous bytes per row. The per-pixel packing `PixelPacked` is stated and proved beside it (see "## Findings") but is not what `GetFrame` returns.
- The interactive example program and its PNG writing are not part of this model.

## Findings

| source | as written | input that shows it | evidently intended | confidence | as-written member | corrected member |
|---|---|---|---|---|---|---|
| src/wcap.cpp:216-220 | Each frame row is the first `3 * cw` contiguous bytes of the crop's row in the 4-bytes-per-pixel BGRx buffer, so the padding byte of each pixel is copied and the last quarter of the row's pixels is dropped. | A 2 x 1 frame with stride 8 and bytes `[1,2,3,0xFF,4,5,6,0xFF]` gives `[1,2,3,0xFF,4,5]`. | Each frame pixel is the three colour bytes `4*px .. 4*px+2` of its source pixel, giving `[1,2,3,4,5,6]` (`TwoPixelRowIntended`). The example program reads the data as 3-byte BGR pixels (`examples/simple_grab.cpp:47-48`). | high, not executed | Capture.TwoPixelRowAsWritten | Capture.PixelPackedAt |
