/** The recording lifecycle of CameraController: the controller's fields as
    one immutable record, and one pure transition per event. The blocks the
    controller hands to `DispatchQueue.main.asyncAfter` (the 0.1 s settle
    step after a finished recording and the deferred hardware stop) are kept
    in the record as pending work with the time they become due, and a
    separate event fires one of them. What the controller asks of the
    outside world (start or stop the camera's file output, delete a file,
    post an upload) is returned as a list of effects. */
module Recorder {
  import opened Wrappers
  import opened Utf8
  import Paths
  import Upload

  /** Wall-clock time in seconds; `real` keeps the arithmetic exact. */
  type Time = real

  /** Shortest clip the controller lets the hardware produce. */
  const MinimumClip: Time := 1.0
  /** Pause between the finish callback and declaring the clip complete. */
  const SettleDelay: Time := 0.1

  /** Work scheduled on the main queue for a later time. */
  datatype Deferred =
    | Settle(url: Paths.Path, due: Time)   // completion of a finished recording
    | DeferredStop(due: Time)              // a hardware stop held back to the minimum length

  datatype Controller = Controller(
    recordingStartTime: Option<Time>,
    actualRecordingStartTime: Option<Time>,
    currentRecordingURL: Option<Paths.Path>,
    isActuallyRecording: bool,
    isWritingFinalVideo: bool,
    recordingCompleted: bool,
    flaskResponse: string,
    pending: seq<Deferred>)

  /** Requests from the controller to the hardware, the file system and the network. */
  datatype Effect =
    | RemoveFile(url: Paths.Path)
    | HardwareStart(url: Paths.Path)
    | HardwareStop
    | SendUpload(request: Upload.Request)

  /** The controller after an event and what it asked for, in order. */
  datatype Step = Step(next: Controller, effects: seq<Effect>)

  /** The controller as constructed: nothing recorded, nothing published,
      nothing scheduled; a stop is refused and a start would be accepted. */
  function Init(): (r: Controller)
    ensures r.recordingStartTime.None? && r.actualRecordingStartTime.None? && r.currentRecordingURL.None?
    ensures !IsRecordingReady(r) && !StopAccepted(r) && !r.isWritingFinalVideo && !r.recordingCompleted
    ensures r.flaskResponse == "" && r.pending == []
  {
    Controller(None, None, None, false, false, false, "", [])
  }

  /** `resetRecordingState`: forgets the last recording but not whether a
      file is still being written, the published text or scheduled work. */
  function ResetRecordingState(c: Controller): (r: Controller)
    ensures r.recordingStartTime.None? && r.actualRecordingStartTime.None? && r.currentRecordingURL.None?
    ensures !r.isActuallyRecording && !r.recordingCompleted
    ensures r.isWritingFinalVideo == c.isWritingFinalVideo
    ensures r.flaskResponse == c.flaskResponse && r.pending == c.pending
  {
    c.(recordingStartTime := None, actualRecordingStartTime := None, currentRecordingURL := None,
       isActuallyRecording := false, recordingCompleted := false)
  }

  /** The name of the temporary file for one recording. */
  function RecordingFileName(uuid: string): string {
    "recorded-" + uuid + ".mov"
  }

  /** The temporary file a recording is written to: inside the temporary
      directory, and named after the recording's UUID. */
  function RecordingUrl(tempDir: Paths.Path, uuid: string): (u: Paths.Path)
    ensures |tempDir| < |u| && u[..|tempDir|] == tempDir
    ensures |RecordingFileName(uuid)| < |u|
    ensures u[|u| - |RecordingFileName(uuid)|..] == RecordingFileName(uuid)
    ensures var before := u[..|u| - |RecordingFileName(uuid)|];
      before == tempDir || before == tempDir + "/"
    ensures '/' !in uuid ==> Paths.LastPathComponent(u) == RecordingFileName(uuid)
  {
    RecordingUrlName(tempDir, uuid);
    Paths.AppendPathComponent(tempDir, RecordingFileName(uuid))
  }

  lemma RecordingUrlName(tempDir: Paths.Path, uuid: string)
    ensures '/' !in uuid ==>
      Paths.LastPathComponent(Paths.AppendPathComponent(tempDir, RecordingFileName(uuid))) == RecordingFileName(uuid)
  {
    if '/' !in uuid {
      assert '/' !in RecordingFileName(uuid);
      Paths.LastOfAppend(tempDir, RecordingFileName(uuid));
    }
  }

  /** Two recordings with different UUIDs never share a file. */
  lemma RecordingUrlInjective(tempDir: Paths.Path, a: string, b: string)
    ensures RecordingUrl(tempDir, a) == RecordingUrl(tempDir, b) <==> a == b
  {
    if RecordingUrl(tempDir, a) == RecordingUrl(tempDir, b) {
      var na, nb := RecordingFileName(a), RecordingFileName(b);
      assert na == nb;
      assert |a| == |b|;
      assert a == na[9..|na| - 4];
      assert b == nb[9..|nb| - 4];
    }
  }

  /** `startRecording`: refused while the last file is still being written;
      otherwise the recording state is reset, a new file is chosen, any
      stale file at that path is removed and the hardware is started. */
  function StartRecording(c: Controller, tempDir: Paths.Path, uuid: string, now: Time): (r: Step)
    ensures c.isWritingFinalVideo ==> r == Step(c, [])
    ensures !c.isWritingFinalVideo ==>
      var u := RecordingUrl(tempDir, uuid);
      && r.next.currentRecordingURL == Some(u)
      && r.next.recordingStartTime == Some(now)
      && r.next.actualRecordingStartTime.None?
      && !r.next.isActuallyRecording && !r.next.recordingCompleted
      && r.next.isWritingFinalVideo == c.isWritingFinalVideo
      && r.next.flaskResponse == c.flaskResponse
      && r.next.pending == c.pending
      && r.effects == [RemoveFile(u), HardwareStart(u)]
  {
    if c.isWritingFinalVideo then
      Step(c, [])
    else
      var u := RecordingUrl(tempDir, uuid);
      var cleared := ResetRecordingState(c);
      Step(cleared.(currentRecordingURL := Some(u), recordingStartTime := Some(now)),
           [RemoveFile(u), HardwareStart(u)])
  }

  /** The hardware's "did start" callback, as its main-queue block runs at
      `now`. The reported file is not looked at. */
  function DidStartRecording(c: Controller, url: Paths.Path, now: Time): (r: Step)
    ensures r.next == c.(actualRecordingStartTime := Some(now), isActuallyRecording := true)
    ensures r.effects == []
  {
    Step(c.(actualRecordingStartTime := Some(now), isActuallyRecording := true), [])
  }

  /** The guard of `stopRecording`: confirmed recording with a known start time. */
  predicate StopAccepted(c: Controller) {
    c.isActuallyRecording && c.actualRecordingStartTime.Some?
  }

  /** `stopRecording` at time `now`: refused unless recording is confirmed;
      otherwise the hardware stop is issued at once if the clip is at least
      MinimumClip long, and is scheduled for the moment it will be otherwise.
      No field of the controller changes. */
  function StopRecording(c: Controller, now: Time): (r: Step)
    ensures !StopAccepted(c) ==> r == Step(c, [])
    ensures r.next == c.(pending := r.next.pending)
    ensures StopAccepted(c) && now - c.actualRecordingStartTime.value >= MinimumClip ==>
      r.effects == [HardwareStop] && r.next.pending == c.pending
    ensures StopAccepted(c) && now - c.actualRecordingStartTime.value < MinimumClip ==>
      && r.effects == []
      && r.next.pending == c.pending + [DeferredStop(c.actualRecordingStartTime.value + MinimumClip)]
      && now < c.actualRecordingStartTime.value + MinimumClip
  {
    if !StopAccepted(c) then
      Step(c, [])
    else
      var elapsed := now - c.actualRecordingStartTime.value;
      if elapsed < MinimumClip then
        var delay := MinimumClip - elapsed;
        Step(c.(pending := c.pending + [DeferredStop(now + delay)]), [])
      else
        Step(c, [HardwareStop])
  }

  /** `isRecordingReady`: whenever the confirmed start time is known, ready
      means exactly that a stop would be accepted. */
  function IsRecordingReady(c: Controller): (r: bool)
    ensures c.actualRecordingStartTime.Some? ==> (r <==> StopAccepted(c))
  {
    c.isActuallyRecording
  }

  /** The hardware's "did finish" callback at time `now`. A file other than
      the current recording's is ignored; for the current one the controller
      marks the file as being written and schedules the settle step. The
      reported error is not looked at. */
  function DidFinishRecording(c: Controller, url: Paths.Path, failed: bool, now: Time): (r: Step)
    ensures c.currentRecordingURL != Some(url) ==> r == Step(c, [])
    ensures c.currentRecordingURL == Some(url) ==>
      && r.next == c.(isWritingFinalVideo := true, pending := c.pending + [Settle(url, now + SettleDelay)])
      && r.effects == []
  {
    if c.currentRecordingURL != Some(url) then
      Step(c, [])
    else
      Step(c.(isWritingFinalVideo := true, pending := c.pending + [Settle(url, now + SettleDelay)]), [])
  }

  /** Scheduled work k may run at `now`: it exists and its time has come. */
  predicate Due(c: Controller, k: nat, now: Time) {
    k < |c.pending| && c.pending[k].due <= now
  }

  /** The schedule without entry k. */
  function RemoveAt(s: seq<Deferred>, k: nat): (r: seq<Deferred>)
    requires k < |s|
    ensures |r| == |s| - 1
    ensures forall d :: d in s && d != s[k] ==> d in r
    ensures forall d :: d in r ==> d in s
  {
    s[..k] + s[k + 1..]
  }

  /** Runs scheduled work k at `now`. A settle step completes the recording:
      it clears the recording flags, uploads the file (whose bytes, if it can
      be read, are `contents`) with the given multipart boundary, then removes
      the file. A deferred stop stops the hardware. */
  function FireDeferred(c: Controller, k: nat, now: Time, boundary: string, contents: Option<seq<uint8>>): (r: Step)
    requires Due(c, k, now)
    ensures r.next.pending == RemoveAt(c.pending, k)
    ensures c.pending[k].DeferredStop? ==>
      r.next == c.(pending := r.next.pending) && r.effects == [HardwareStop]
    ensures c.pending[k].Settle? ==>
      var u := c.pending[k].url;
      && r.next == c.(recordingCompleted := true, isActuallyRecording := false,
                      isWritingFinalVideo := false, pending := r.next.pending)
      && r.effects == [SendUpload(Upload.VideoRequest(u, boundary, contents)), RemoveFile(u)]
  {
    var rest := RemoveAt(c.pending, k);
    match c.pending[k]
    case Settle(u, _) =>
      Step(c.(recordingCompleted := true, isActuallyRecording := false, isWritingFinalVideo := false,
              pending := rest),
           [SendUpload(Upload.VideoRequest(u, boundary, contents)), RemoveFile(u)])
    case DeferredStop(_) =>
      Step(c.(pending := rest), [HardwareStop])
  }

  /** The upload's completion handler delivering its reply. */
  function ReceiveReply(c: Controller, reply: Upload.Reply): (r: Step)
    ensures r.next == c.(flaskResponse := r.next.flaskResponse) && r.effects == []
    ensures Upload.ResultText(reply).Some? ==> r.next.flaskResponse == Upload.ResultText(reply).value
    ensures Upload.ResultText(reply).None? ==> r.next == c
  {
    Step(c.(flaskResponse := Upload.ApplyReply(c.flaskResponse, reply)), [])
  }

  /** Everything that can happen to the controller. */
  datatype Event =
    | Start(tempDir: Paths.Path, uuid: string, now: Time)
    | DidStart(url: Paths.Path, now: Time)
    | Stop(now: Time)
    | DidFinish(url: Paths.Path, failed: bool, now: Time)
    | Fire(index: nat, now: Time, boundary: string, contents: Option<seq<uint8>>)
    | Reply(reply: Upload.Reply)

  /** One event; scheduled work that is not yet due does not run. */
  function Apply(c: Controller, e: Event): Step {
    match e
    case Start(dir, uuid, now) => StartRecording(c, dir, uuid, now)
    case DidStart(url, now) => DidStartRecording(c, url, now)
    case Stop(now) => StopRecording(c, now)
    case DidFinish(url, failed, now) => DidFinishRecording(c, url, failed, now)
    case Fire(k, now, boundary, contents) =>
      if Due(c, k, now) then FireDeferred(c, k, now, boundary, contents) else Step(c, [])
    case Reply(reply) => ReceiveReply(c, reply)
  }

  /** A sequence of events, one after the other, with all their effects in order. */
  function Run(c: Controller, events: seq<Event>): Step
    decreases |events|
  {
    if |events| == 0 then
      Step(c, [])
    else
      var first := Apply(c, events[0]);
      var rest := Run(first.next, events[1..]);
      Step(rest.next, first.effects + rest.effects)
  }
}
