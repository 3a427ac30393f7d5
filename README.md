# DoorOpener: camera formats, MJPEG framing and the capture loop, in Dafny

DoorOpener is a small Go web service for a door camera. It serves a
`multipart/x-mixed-replace` motion-JPEG stream at `/video.mjpg` and a
diagnostics page at `/info` that lists the camera's pixel formats and
resolutions. This project models the deterministic logic of `DoorOpener.go`
and proves what that logic promises:

- **Camera-format report** (`camera_formats.dfy`, module `CameraFormats`):
  `getCameraFormats` and `alreadyFoundResolution`. For each frame-size entry
  the driver reports, the largest size and then the smallest size are added
  to the list unless an equal (width, height) pair is already there. The
  proofs show that the list has no duplicates, that it holds exactly the
  reported pairs, that it keeps first-occurrence order, and that there is
  one report row per advertised format, in input order.
- **Resolution text** (`resolution_text.dfy`, module `ResolutionText`):
  `convertResolutionSliceToString` writes `<w>x<h> ` for each resolution;
  the function `Render` gives that text for a list, and `Entry` the text of
  one resolution. A reader for that text proves the rendering is exact: the text reads back
  as the same list, and the reader accepts only rendered texts.
- **Decimal numerals** (`decimal.dfy`, module `Decimal`): `strconv.Itoa` and
  `fmt.Sprint` for the non-negative values DoorOpener formats. Reading a
  numeral back gives the number, and a canonical numeral is the rendering of
  its value.
- **MJPEG part framing** (`mjpeg_frame.dfy`, module `MjpegFrame`): the bytes
  sent for one camera frame are the fixed header, with the frame length in
  decimal as Content-Length, followed by the frame bytes unchanged; the
  function `Chunk` gives those bytes and `Header` the header text. The part
  opens with the delimiter line of section 5.1.1 of RFC 2046 (CRLF, `--`,
  boundary, CRLF), and the boundary `MJPEGBOUNDARY` is a valid boundary under
  that section. A part reader gives the payload back, and it accepts only
  parts built this way.
- **Capture loop** (`video_stream.dfy`, module `VideoStream`):
  `readVideoStream`. It opens the camera, picks the pixel format named
  `Motion-JPEG`, requests 1280x720 and starts streaming. Then, pass by pass,
  it handles the outcome of each wait and read. A wait timeout retries. Any
  other wait error stops the loop. A non-empty read sends one part, even if
  the read also failed. An empty failed read stops the loop. An empty read
  without an error retries. The function `Capture` gives the parts sent and
  the ending for a sequence of device answers; `SelectedPixelFormat` gives
  the format code chosen, and `StreamSession` the whole session.

The device's answers are inputs. Go map iteration order becomes the order
of an input sequence, and the model claims no particular order for it. The
video channel is the sequence of parts sent, in order. The Go loop has no
exit other than a fatal device error, so the model runs the loop over a
finite sequence of device answers. When that sequence runs out, the loop's
ending is `StillRunning`. The loop's endings (`LoopEnding`) are kept apart
from the session's (`Ending`), which adds the three setup failures and
wraps a loop ending as `CaptureEnded`.

`options.dfy` holds the `Option` type used by the readers.

Three facts about the code shape the model:

- When no format is named `Motion-JPEG`, the code keeps the zero value and
  requests format 0. It does not fail the negotiation.
- All viewers share one unbuffered channel (DoorOpener.go:341), so each part
  is taken by exactly one `videoHandler` loop and reaches at most one viewer;
  that loop never exits and ignores write errors (DoorOpener.go:165-167), so
  the loop of a viewer who has left goes on taking parts nobody sees.
- After a fatal device error the loop just returns. There is no retry.

## Model

| member | source | states |
|---|---|---|
| `CameraFormats.AlreadyFoundResolution` | DoorOpener.go:271-278 | true exactly when some element of the list equals the candidate in both width and height |
| `CameraFormats.Reported` | DoorOpener.go:41-43 | the pairs considered for a format are, entry by entry, the largest size at position 2k and the smallest at position 2k+1 |
| `CameraFormats.ReportedMembers` | DoorOpener.go:42-43 | a pair is considered exactly when it is the largest or the smallest size of some frame-size entry |
| `CameraFormats.DedupFirstMembers` | DoorOpener.go:44-50 | keeping only first occurrences loses no reported pair and adds none |
| `CameraFormats.DedupFirstNoDuplicates` | DoorOpener.go:44-50 | the kept list contains no two equal (width, height) pairs |
| `CameraFormats.DedupFirstOrder` | DoorOpener.go:44-50 | kept pairs appear in the order of their first occurrence among the reported pairs |
| `CameraFormats.IndexOfExtend` | DoorOpener.go:44-50 | appending a pair does not move the first occurrence of a pair already present |
| `CameraFormats.DedupReportedStep` | DoorOpener.go:41-50 | one more frame-size entry extends the kept list by its largest size and then its smallest, each only if not already kept |
| `CameraFormats.CollectResolutions` | DoorOpener.go:40-51 | the inner loop's list is the reported pairs (largest before smallest, entry by entry) with every repeat removed |
| `CameraFormats.GetCameraFormats` | DoorOpener.go:33-56 | one row per raw format, in input order, with its name and code; each row's resolutions have no duplicates and are exactly the reported pairs |
| `Decimal.Itoa` | DoorOpener.go:61 | the numeral is non-empty, all digits, and has a leading zero only for 0 |
| `Decimal.ParseItoa` | DoorOpener.go:61 | reading the numeral back gives the number |
| `Decimal.ItoaInjective` | DoorOpener.go:61 | distinct numbers get distinct numerals |
| `Decimal.ItoaParse` | DoorOpener.go:257 | every canonical numeral is the rendering of its value |
| `Decimal.LeadingDigits` | DoorOpener.go:257 | part of the reader that shows the text written at that line is unambiguous: the digit run at the start of a text ends at the first non-digit |
| `Decimal.NumeralThenSeparator` | DoorOpener.go:257 | part of the reader that shows the text written at that line is unambiguous: a numeral followed by a non-digit is read up to that non-digit and no further |
| `ResolutionText.RenderAppend` | DoorOpener.go:58-64 | the text of a concatenated list is the concatenation of the texts |
| `ResolutionText.ConvertResolutionSliceToString` | DoorOpener.go:58-64 | the accumulated string is the in-order concatenation of `<w>x<h> ` per resolution, and "" for an empty list |
| `ResolutionText.ReadNumerals` | DoorOpener.go:61 | part of the reader that shows the text written at that line is unambiguous: two canonical numerals joined by `x` and followed by a space are read as that width and height, taking exactly those characters |
| `ResolutionText.ReadEntryLayout` | DoorOpener.go:61 | part of the reader that shows the text written at that line is unambiguous: an accepted entry is a canonical width, `x`, a canonical height and a space, and is read as those two values |
| `ResolutionText.ReadRenderedEntry` | DoorOpener.go:61 | one rendered entry is read whole as the resolution it renders, whatever follows it |
| `ResolutionText.ReadEntryIsRendered` | DoorOpener.go:61 | whatever is read as one entry is the rendering of the resolution read |
| `ResolutionText.ParseRender` | DoorOpener.go:58-64 | reading the rendered text gives back exactly the list it was rendered from |
| `ResolutionText.ParseStep` | DoorOpener.go:58-64 | part of the reader that shows the text written at that line is unambiguous: an accepted non-empty text starts with one rendered entry and continues with an accepted text |
| `ResolutionText.RenderParse` | DoorOpener.go:58-64 | every text the reader accepts is the rendering of the list it reads |
| `MjpegFrame.BoundaryIsValid` | DoorOpener.go:257 | `MJPEGBOUNDARY` is a valid boundary under section 5.1.1 of RFC 2046 |
| `MjpegFrame.Header` | DoorOpener.go:257 | the header is plain ASCII, so it becomes one byte per character |
| `MjpegFrame.ChunkLayout` | DoorOpener.go:257-258 | a part opens with the RFC 2046 delimiter line, ends with the frame bytes unchanged, and is 88 + digits + frame length bytes long |
| `MjpegFrame.ChunkChars` | DoorOpener.go:257-258 | as characters, a part is its header text followed by the payload |
| `MjpegFrame.ParseLaidOut` | DoorOpener.go:257-258 | part of the reader that shows the text written at that line is unambiguous: bytes laid out as header, canonical length, header, payload of that length are read as that payload |
| `MjpegFrame.ParseChunkOfChunk` | DoorOpener.go:257-258 | reading a part gives back the frame it carries; the Content-Length field is the frame's length |
| `MjpegFrame.ParsedLayout` | DoorOpener.go:257-258 | part of the reader that shows the text written at that line is unambiguous: an accepted part is the fixed header text, a canonical numeral equal to the payload length, the rest of the header, then the payload |
| `MjpegFrame.ChunkOfParseChunk` | DoorOpener.go:257-258 | the part reader accepts only bytes that are the part of the payload it returns |
| `VideoStream.SelectMotionJpeg` | DoorOpener.go:195-201 | the selection loop ends with the code the selection specification gives |
| `VideoStream.SelectedIsLastMatch` | DoorOpener.go:195-201 | the selected code is that of the last format named Motion-JPEG, and 0 when none has that name |
| `VideoStream.StepRules` | DoorOpener.go:241-267 | timeout continues; other wait error stops; a non-empty read sends one part even with a read error; an empty failed read stops; an empty clean read continues |
| `VideoStream.CaptureLoop` | DoorOpener.go:230-268 | the loop sends exactly the parts, and ends exactly as, the capture specification says |
| `VideoStream.Live` | DoorOpener.go:241-267 | the number of passes before the first pass that stops the loop |
| `VideoStream.CaptureSendsLivePayloads` | DoorOpener.go:241-267 | one part per non-empty frame read before the first stopping pass, in read order; the loop ends on that pass with a wait or read error, or is still running |
| `VideoStream.TimeoutChangesNothing` | DoorOpener.go:245-247 | a timed-out wait anywhere changes neither the parts sent nor the ending |
| `VideoStream.StopIsFinal` | DoorOpener.go:248-253 | once the loop has returned, later device answers change nothing |
| `VideoStream.CaptureContinues` | DoorOpener.go:230-268 | while running, the passes so far and the passes to come add up: no part is lost or resent |
| `VideoStream.ThreeFramesThenFailure` | DoorOpener.go:241-267 | three frames then a wait error send exactly those three parts, in order, and stop |
| `VideoStream.TimeoutsThenFrame` | DoorOpener.go:241-267 | three timeouts then a frame send that frame normally and the loop keeps running |
| `VideoStream.ReadVideoStream` | DoorOpener.go:181-268 | an open, format or start failure ends the session with nothing sent; otherwise it requests the selected format at 1280x720 and runs the capture loop |
| `VideoStream.PayloadsNonEmpty` | DoorOpener.go:256 | only non-empty frames are sent |
| `VideoStream.SessionSendsParts` | DoorOpener.go:181-268 | every part a session sends is a well-formed part carrying a non-empty frame, and parts are sent only after open, format request and start all succeed |

## Left out

- The camera library calls (`Open`, `GetSupportedFormats`, `GetSupportedFrameSizes`, `SetImageFormat`, `StartStreaming`, `WaitForFrame`, `ReadFrame`, `Close`) are foreign code. The model takes only their results, as inputs.
- The deferred `cam.Close()` is not modelled, because it is device I/O.
- The console and stderr log lines printed on each error are not modelled, because they are I/O.
- Sending on the video channel is a plain append. The blocking of an unbuffered channel until a viewer receives is concurrency, so it is not modelled.
- `videoHandler` and its endless write loop are left out, because they are HTTP and channel plumbing. Its response header names the same `MJPEGBOUNDARY` boundary that `MjpegFrame.Boundary` holds.
- `infoHandler` is left out: its HTML template, its HTTP 500 responses, and its use of the camera before checking the open error are HTTP and UI code.
- `shutdown`, signal handling, `main` and server configuration are left out, because they are process lifecycle and I/O.
- `customLogWriter`, `generateRequestID` and `basicHandler` are left out, because they read the wall clock or only wrap HTTP requests.
- Widths, heights and codes are unbounded `nat`s. In the source they are `uint32` values converted to `int` (DoorOpener.go:42-43 and 52), so on 64-bit targets they are never negative. No property depends on their upper bound.
- The model does not capture the 32-bit wrap of `int(uint32)`: on targets where Go's `int` has 32 bits, a width, height or format code of 2^31 or more becomes negative in the report. Format codes with bit 31 set (big-endian V4L2 codes) would show as negative numbers there.
- `Decimal.Itoa` renders only non-negative numbers. Go's `strconv.Itoa` also handles negative numbers, which on 64-bit targets DoorOpener never formats; on 32-bit targets see the line above.
- All viewers share one unbuffered channel (DoorOpener.go:341), so each part is taken by exactly one `videoHandler` loop and reaches at most one viewer; that loop never exits and ignores write errors (DoorOpener.go:165-167), so the loop of a viewer who has left goes on taking parts nobody sees. The model has no viewers, only the sequence of parts sent.
- The code's frame-wait timeout of 1 second is not modelled. The model sees only whether a wait timed out.
