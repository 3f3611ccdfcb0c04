# Recording lifecycle of the Fingual camera controller, in Dafny

Fingual records short front-camera clips of hand gestures, posts each clip to
an inference server and shows the text the server sends back. All of the
logic sits in `CameraController`: a small state machine that starts and
stops the camera's movie-file output, refuses a start while the last file
is still being written and a stop before recording is confirmed, hands a finished clip to an upload, and publishes the server's
answer in `flaskResponse`.

This project models that controller as pure functions over an immutable
record and proves its guards, timing rule and upload format.

- `recorder.dfy` (module `Recorder`) holds the controller's seven fields
  (`recordingStartTime`, `actualRecordingStartTime`, `currentRecordingURL`,
  `isActuallyRecording`, `isWritingFinalVideo`, `recordingCompleted`,
  `flaskResponse`). The blocks scheduled with `asyncAfter` are kept next to
  them as pending work with the time each becomes due. There is one
  transition per event: `startRecording`, the hardware "did start" and "did
  finish" callbacks, `stopRecording`, firing scheduled work (the 0.1 s
  settle step or a held-back stop) and the arrival of the server's reply.
  Each transition returns the new record and the effects it asks for:
  start or stop the hardware, remove a file, send an upload.
- `recorder_properties.dfy` (module `RecorderProperties`) holds the
  properties that span events. These are the invariant of reachable
  controllers, the start guard over any number of refused starts, the
  stale-callback filter, the one-second minimum for the clip whose stop was requested, the settle step's
  single upload, and a complete short recording.
- `upload.dfy` (module `Upload`) builds the POST request of
  `sendVideoToServer` and folds a classified reply into the published text.
- `multipart.dfy` (module `Multipart`) writes the `multipart/form-data` body.
  It uses the boundary delimiter and close-delimiter lines of section 5.1.1
  of RFC 2046 and the `Content-Disposition: form-data` part header of
  section 4.2 of RFC 7578. A receiving-side parser reads one part back. As
  section 5.1.1 of RFC 2046 requires, it ends the data at the first
  occurrence of CRLF, "--" and the boundary. So the data reads back whole
  only when that delimiter does not occur in it. The controller relies on
  a fresh UUID boundary for this and never checks it.
- `utf8.dfy` (module `Utf8`) is the UTF-8 encoding (section 3 of RFC 3629)
  that `.data(using: .utf8)` applies to each header line.
- `paths.dfy` (module `Paths`) models `appendingPathComponent` and
  `lastPathComponent` on slash-separated paths.
- `wrappers.dfy` (module `Wrappers`) defines `Option`, used for Swift
  optionals.

Time is wall-clock seconds as `real`. The model computes the held-back stop
as `now + (1.0 - elapsed)`, which is exactly `actualStart + 1.0`. The
`Date()` reads become a `now` parameter of each event. The UUIDs for file
names and boundaries are parameters too. Lemmas that need a fresh UUID state
that freshness as a hypothesis.

The "did start" callback and the upload's completion handler each hop to the
main queue with `DispatchQueue.main.async` before they change anything.
Nothing observable happens between the callback and the hop. So each is
modelled as one event, taking effect when the main-queue block runs.

The start guard checks only `isWritingFinalVideo`. A start while a recording
is requested or confirmed is therefore accepted, and
`RecorderProperties.StartWhileRecordingReplacesClip` shows this. It replaces the
current file and makes the earlier file's finish callback a stale one.
`RecorderProperties.DeferredStopOutlivesRestart` shows that a held-back stop
is not tied to its recording: it still stops the hardware after a new
recording has started.

## Model

| member | source | states |
|---|---|---|
| Recorder.Init | CameraController.swift:9-16 | the controller starts with no times and no file, every flag false, an empty published text and nothing scheduled. So `isRecordingReady` is false, a stop is refused and a start would be accepted |
| Recorder.IsRecordingReady | CameraController.swift:102-104 | whenever the confirmed start time is known, readiness is exactly the stop guard. In reachable controllers the two always coincide (`RecorderProperties.StopGuardIsReadiness`) |
| Recorder.ResetRecordingState | CameraController.swift:52-58 | clears the requested and confirmed start times, the current file, the confirmation flag and the completion flag; keeps the writing flag, the published text and scheduled work |
| Recorder.RecordingUrl | CameraController.swift:68-70 | the recording's file is the temporary directory, at most one '/', then the file name; when the UUID has no '/', its last path component is `recorded-<uuid>.mov` |
| Recorder.RecordingUrlInjective | CameraController.swift:68-70 | two recordings get the same file exactly when their UUIDs are equal |
| Recorder.StartRecording | CameraController.swift:60-79 | while a file is being written, the start is refused with no change and no effect. Otherwise it clears the confirmed start, the confirmation and the completion flag, sets a new current file and the requested time, and leaves the writing flag, the published text and scheduled work alone. It first removes any file at the new path, then starts the hardware on it |
| Recorder.DidStartRecording | CameraController.swift:108-116 | the confirmation sets the confirmed start time to the moment it runs and marks recording as confirmed, whatever file it reports; nothing else changes |
| Recorder.StopRecording | CameraController.swift:81-100 | refused with no change and no effect unless recording is confirmed with a start time. It never changes a controller field. A clip of at least 1.0 s stops the hardware now. A shorter one schedules the stop for exactly the confirmed start plus 1.0 s, which is later than now |
| Recorder.DidFinishRecording | CameraController.swift:118-130 | a callback for any file other than the current one changes nothing. For the current file it sets the writing flag and schedules the settle step 0.1 s later, and nothing else changes |
| Recorder.FireDeferred | CameraController.swift:94-96 | a due held-back stop is removed from the schedule and stops the hardware, leaving every field alone |
| Recorder.ReceiveReply | CameraController.swift:165-192 | only the published text can change. It becomes the reply's string `result` when there is one; otherwise the controller is unchanged |
| RecorderProperties.SettleUploadsOnceThenRemoves | CameraController.swift:130-138 | the settle step sets the completion flag and clears the recording and writing flags. It sends exactly one upload, for its own file, and then removes that file whether or not it could be read |
| RecorderProperties.ApplyPreservesInv | CameraController.swift:52-138 | every event keeps the invariant. A confirmed recording has a start time. A requested start time exists exactly when a current file does. While a file is being written it is the current file and its settle step is scheduled |
| RecorderProperties.RunPreservesInv | CameraController.swift:52-138 | any sequence of events keeps the invariant |
| RecorderProperties.ReachableInv | CameraController.swift:9-16 | the invariant holds after any history of events from the initial controller |
| RecorderProperties.StopGuardIsReadiness | CameraController.swift:81-104 | in every reachable controller, a stop is accepted exactly when `isRecordingReady` is true |
| RecorderProperties.StartsWhileWritingChangeNothing | CameraController.swift:60-64 | any number of starts while a file is being written leave the controller, including its current file, unchanged, and never start the hardware |
| RecorderProperties.StaleFinishIgnoredAfterRestart | CameraController.swift:122-127 | after a restart with a fresh UUID, the previous file's finish callback changes nothing and the new file's callback begins finalizing it |
| RecorderProperties.HardwareStopNotBeforeMinimum | CameraController.swift:88-99 | an accepted stop never stops the hardware before the clip whose stop was requested is 1.0 s long. The held-back stop becomes due exactly when that clip reaches 1.0 s, and then stops the hardware |
| RecorderProperties.StartWhileRecordingReplacesClip | CameraController.swift:60-79 | a start during a confirmed recording is accepted, starts the hardware on a new file and clears the confirmation; the old file's finish callback is then ignored |
| RecorderProperties.DeferredStopOutlivesRestart | CameraController.swift:91-96 | a held-back stop still becomes due and stops the hardware after a new recording has started. If the new recording is confirmed after the old clip's confirmed start, as happens when time runs forward, the stop still fires at the old due time, less than 1.0 s into the new clip |
| RecorderProperties.ShortRecordingScenario | CameraController.swift:60-138 | start, confirmation at 0 s, stop at 0.4 s. The stop is not due at 0.9 s and stops the hardware at 1.0 s. The finish callback schedules settling for 1.1 s. Settling uploads the clip once, removes it, and leaves nothing scheduled |
| RecorderProperties.ScenarioUploadCarriesClip | CameraController.swift:152-162 | for a readable clip that does not contain the boundary's delimiter, the receiver reads field `video`, file name `recorded-<uuid>.mov`, type `video/quicktime` and exactly the clip's bytes |
| Upload.VideoRequest | CameraController.swift:144-163 | the request is a POST to the fixed endpoint, and its Content-Type header carries the boundary. An unreadable file gives an empty body. A readable file whose name has no quote, and whose bytes do not contain the boundary's delimiter, gives a body that reads back as the `video` field with that file name, type `video/quicktime` and the file's bytes |
| Upload.UploadBodyReadBack | CameraController.swift:151-163 | the body of a readable clip whose name has no quote, and whose bytes do not contain the boundary's delimiter, reads back as its field name, file name, media type and bytes |
| Upload.ContentTypeHeader | CameraController.swift:149 | a receiver reads back from the Content-Type value, through `Upload.BoundaryOf`, exactly the boundary the body was written with |
| Upload.UploadBody | CameraController.swift:151-163 | the body is empty exactly when the file could not be read. A readable file gives a body longer than the file |
| Upload.ApplyReply | CameraController.swift:165-192 | a reply with a string `result` replaces the text with it. A transport error, a missing body, unparseable JSON, a non-object, or a missing or non-string `result` keeps the previous text |
| Upload.ReplyIgnoresPreviousIff | CameraController.swift:176-188 | a reply's outcome does not depend on the previous text exactly when the reply carries a string `result` |
| Upload.ApplyReplyIdempotent | CameraController.swift:180-184 | delivering the same reply twice publishes the same text as delivering it once |
| Multipart.PartRoundTrip | CameraController.swift:157-162 | the boundary must have no CR, and its delimiter (CRLF, "--", boundary) must not occur in the data. Then a body whose quoted values contain no quote and whose media type contains no CR reads back as exactly the encoded field name, file name, media type and bytes. The reader ends the data at the first delimiter |
| Multipart.EncodePart | CameraController.swift:157-162 | the body opens with the line "--" boundary CRLF. It closes with the data, then the delimiter CRLF "--" boundary, then "--" CRLF: the close-delimiter that ends the part |
| Utf8.EncodeCharDecodes | CameraController.swift:157-159 | each character's bytes, one to four of them, decode back to its scalar value. An ASCII character is its own single byte; every byte of any other character is 0x80 or above |
| Utf8.EncodeAppend | CameraController.swift:157-159 | the bytes of a concatenation are the concatenation of the bytes |
| Utf8.EncodeContainsAscii | CameraController.swift:158 | an ASCII byte occurs in a string's bytes exactly when its character occurs in the string |
| Utf8.EncodeAscii | CameraController.swift:157-159 | a string of ASCII characters encodes to its character codes, one byte each |
| Paths.AppendPathComponent | CameraController.swift:70 | the result is the directory, then at most one added '/', then the name, so a '/' sits right before the name |
| Paths.LastPathComponent | CameraController.swift:152 | the result is the longest suffix of the path that holds no '/' |
| Paths.LastOfAppend | CameraController.swift:69-70 | a name without '/' appended to any directory is read back as the last path component |

## Left out

- Camera session setup and front-camera discovery (`setupSession`, lines 27-50) are hardware configuration. The model assumes they succeeded.
- `DispatchQueue` threads and the real clock are not modelled. Events are applied one at a time in any order. A scheduler chooses which due entry to fire, and firing is only allowed once the entry's time has come.
- The network, `JSONSerialization` and `Data(contentsOf:)` are not modelled. The file's bytes arrive as an optional value on the settle event. The server's answer arrives as an already classified `Upload.Reply`.
- UUID generation is not modelled: file-name and boundary UUIDs are parameters.
- `print` logging is not modelled.
- `getSession` and the SwiftUI views are presentation code.
- Paths.LastPathComponent: it takes the text after the last '/'. It does not model Foundation's handling of a path that ends in '/'. The controller never produces such a path, because file names are non-empty and slash-free.
- The error argument of the finish callback is accepted and ignored, as in the code. Whether a failed recording leaves a readable file is left to the optional file contents given to the settle step.
