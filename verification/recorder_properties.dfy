/** Properties of the recording lifecycle across events: the invariant every
    event keeps, the single-flight and stale-callback guards, the minimum
    clip length, the settle step's upload, and the end-to-end scenario of
    one short recording. */
module RecorderProperties {
  import opened Wrappers
  import opened Utf8
  import Paths
  import Upload
  import Multipart
  import opened Recorder

  /** Some scheduled settle step will complete the recording written to u. */
  predicate SettlePending(c: Controller, u: Paths.Path) {
    exists d :: d in c.pending && d.Settle? && d.url == u
  }

  /** What holds of every controller reachable from Init:
      a confirmed recording has a start time; a requested start time and a
      current file come and go together; and while a file is being written
      it is the current file and its settle step is scheduled. */
  predicate Inv(c: Controller) {
    && (c.isActuallyRecording ==> c.actualRecordingStartTime.Some?)
    && (c.recordingStartTime.Some? <==> c.currentRecordingURL.Some?)
    && (c.isWritingFinalVideo ==> c.currentRecordingURL.Some? && SettlePending(c, c.currentRecordingURL.value))
  }

  /** Every event keeps the invariant. */
  lemma ApplyPreservesInv(c: Controller, e: Event)
    requires Inv(c)
    ensures Inv(Apply(c, e).next)
  {
  }

  /** Every run of events keeps the invariant. */
  lemma {:induction false} RunPreservesInv(c: Controller, events: seq<Event>)
    requires Inv(c)
    ensures Inv(Run(c, events).next)
    decreases |events|
  {
    if |events| > 0 {
      ApplyPreservesInv(c, events[0]);
      RunPreservesInv(Apply(c, events[0]).next, events[1..]);
    }
  }

  /** The invariant holds after any history of events. */
  lemma ReachableInv(events: seq<Event>)
    ensures Inv(Run(Init(), events).next)
  {
    RunPreservesInv(Init(), events);
  }

  /** In every reachable controller the two halves of the stop guard agree:
      a stop is accepted exactly when `isRecordingReady` reports true. */
  lemma StopGuardIsReadiness(c: Controller)
    requires Inv(c)
    ensures StopAccepted(c) <==> IsRecordingReady(c)
  {
  }

  /** Any number of start requests while the last file is being written are
      all refused: the controller, and so the file being written, stay as
      they were, and the hardware is never asked to start. */
  lemma {:induction false} StartsWhileWritingChangeNothing(c: Controller, starts: seq<Event>)
    requires c.isWritingFinalVideo
    requires forall i :: 0 <= i < |starts| ==> starts[i].Start?
    ensures Run(c, starts) == Step(c, [])
    decreases |starts|
  {
    if |starts| > 0 {
      assert Apply(c, starts[0]) == Step(c, []);
      StartsWhileWritingChangeNothing(c, starts[1..]);
    }
  }

  /** After a new recording starts with a fresh UUID, a finish callback for
      the previous recording's file changes nothing, while the callback for
      the new file begins finalizing it. */
  lemma StaleFinishIgnoredAfterRestart(c: Controller, tempDir: Paths.Path, oldUuid: string, uuid: string,
                                       now: Time, failed: bool, later: Time)
    requires oldUuid != uuid
    requires !c.isWritingFinalVideo
    requires c.currentRecordingURL == Some(RecordingUrl(tempDir, oldUuid))
    ensures var s := StartRecording(c, tempDir, uuid, now).next;
      && DidFinishRecording(s, RecordingUrl(tempDir, oldUuid), failed, later) == Step(s, [])
      && DidFinishRecording(s, RecordingUrl(tempDir, uuid), failed, later).next.isWritingFinalVideo
  {
    RecordingUrlInjective(tempDir, oldUuid, uuid);
  }

  /** An accepted stop never has the hardware stop before the clip is
      MinimumClip long: either the clip already is, and the stop is issued
      now, or the stop is scheduled, can only run once the clip has reached
      that length, and then stops the hardware. */
  lemma HardwareStopNotBeforeMinimum(c: Controller, now: Time, later: Time, boundary: string,
                                     contents: Option<seq<uint8>>)
    requires StopAccepted(c)
    ensures var start := c.actualRecordingStartTime.value;
      var r := StopRecording(c, now);
      && (HardwareStop in r.effects ==> now >= start + MinimumClip)
      && (HardwareStop !in r.effects ==>
            && r.next.pending[|c.pending|] == DeferredStop(start + MinimumClip)
            && (Due(r.next, |c.pending|, later) <==> later >= start + MinimumClip)
            && (Due(r.next, |c.pending|, later) ==>
                  FireDeferred(r.next, |c.pending|, later, boundary, contents).effects == [HardwareStop]))
  {
  }

  /** The start guard looks only at whether a file is being written: a start
      during a confirmed recording is accepted, starts the hardware on a new
      file and clears the confirmation, and the earlier file's finish
      callback is then ignored. */
  lemma StartWhileRecordingReplacesClip(c: Controller, tempDir: Paths.Path, uuid: string, now: Time,
                                        failed: bool, later: Time)
    requires c.isActuallyRecording && !c.isWritingFinalVideo
    requires c.currentRecordingURL.Some? && c.currentRecordingURL.value != RecordingUrl(tempDir, uuid)
    ensures var r := StartRecording(c, tempDir, uuid, now);
      && HardwareStart(RecordingUrl(tempDir, uuid)) in r.effects
      && !IsRecordingReady(r.next)
      && DidFinishRecording(r.next, c.currentRecordingURL.value, failed, later) == Step(r.next, [])
  {
  }

  /** A held-back stop is not tied to the recording it was requested for:
      when a new recording has been started before it is due, it still
      stops the hardware, and once the new recording is confirmed (later
      than the old one was) that stop comes less than MinimumClip into it. */
  lemma DeferredStopOutlivesRestart(c: Controller, now: Time, tempDir: Paths.Path, uuid: string,
                                    restart: Time, confirm: Time, boundary: string,
                                    contents: Option<seq<uint8>>)
    requires StopAccepted(c) && !c.isWritingFinalVideo
    requires now - c.actualRecordingStartTime.value < MinimumClip
    ensures var s := StartRecording(StopRecording(c, now).next, tempDir, uuid, restart).next;
      var due := c.actualRecordingStartTime.value + MinimumClip;
      && s.currentRecordingURL == Some(RecordingUrl(tempDir, uuid))
      && Due(s, |c.pending|, due)
      && FireDeferred(s, |c.pending|, due, boundary, contents).effects == [HardwareStop]
    ensures var s := StartRecording(StopRecording(c, now).next, tempDir, uuid, restart).next;
      var due := c.actualRecordingStartTime.value + MinimumClip;
      var confirmed := DidStartRecording(s, RecordingUrl(tempDir, uuid), confirm).next;
      confirm > due - MinimumClip ==>
        && Due(confirmed, |c.pending|, due)
        && FireDeferred(confirmed, |c.pending|, due, boundary, contents).effects == [HardwareStop]
        && due - confirmed.actualRecordingStartTime.value < MinimumClip
  {
  }

  /** The upload requests among a list of effects, in order. */
  function Uploads(effects: seq<Effect>): seq<Upload.Request> {
    if |effects| == 0 then []
    else if effects[0].SendUpload? then [effects[0].request] + Uploads(effects[1..])
    else Uploads(effects[1..])
  }

  /** The settle step uploads its file exactly once, then removes the file
      whether or not it could be read, and leaves the controller completed
      and no longer recording or writing. */
  lemma SettleUploadsOnceThenRemoves(c: Controller, k: nat, now: Time, boundary: string,
                                     contents: Option<seq<uint8>>)
    requires Due(c, k, now) && c.pending[k].Settle?
    ensures var r := FireDeferred(c, k, now, boundary, contents);
      var u := c.pending[k].url;
      && Uploads(r.effects) == [Upload.VideoRequest(u, boundary, contents)]
      && r.effects[|r.effects| - 1] == RemoveFile(u)
      && r.next.recordingCompleted && !r.next.isActuallyRecording && !r.next.isWritingFinalVideo
  {
    var r := FireDeferred(c, k, now, boundary, contents);
    var tail := [RemoveFile(c.pending[k].url)];
    assert r.effects[1..] == tail;
    assert tail[1..] == [];
    assert Uploads(tail) == [];
  }

  /** One short recording from a fresh controller: started, confirmed at
      time 0, stop requested at 0.4 s. The stop cannot run at 0.9 s, runs at
      1.0 s, the matching finish callback arrives, and the settle step at
      1.1 s uploads the clip once and removes it. */
  lemma ShortRecordingScenario(tempDir: Paths.Path, uuid: string, boundary: string, contents: Option<seq<uint8>>)
    ensures var u := RecordingUrl(tempDir, uuid);
      var s1 := StartRecording(Init(), tempDir, uuid, -0.25);
      var s2 := DidStartRecording(s1.next, u, 0.0);
      var s3 := StopRecording(s2.next, 0.4);
      var s4 := FireDeferred(s3.next, 0, 1.0, boundary, contents);
      var s5 := DidFinishRecording(s4.next, u, false, 1.0);
      var s6 := FireDeferred(s5.next, 0, 1.1, boundary, contents);
      && s1.effects == [RemoveFile(u), HardwareStart(u)]
      && s3.effects == [] && s3.next.pending == [DeferredStop(1.0)]
      && !Due(s3.next, 0, 0.9) && Due(s3.next, 0, 1.0)
      && s4.effects == [HardwareStop]
      && s5.next.isWritingFinalVideo && s5.next.pending == [Settle(u, 1.1)]
      && Due(s5.next, 0, 1.1)
      && s6.effects == [SendUpload(Upload.VideoRequest(u, boundary, contents)), RemoveFile(u)]
      && s6.next.recordingCompleted && !s6.next.isWritingFinalVideo && !s6.next.isActuallyRecording
      && s6.next.pending == []
  {
  }

  /** In the scenario's upload of a readable clip, the receiver reads the
      field "video", the file name recorded-<uuid>.mov and the clip's bytes,
      provided the boundary's delimiter does not occur in the clip. */
  lemma ScenarioUploadCarriesClip(tempDir: Paths.Path, uuid: string, boundary: string, data: seq<uint8>)
    requires '/' !in uuid && '"' !in uuid && Multipart.DelimiterFree(boundary, data)
    ensures var request := Upload.VideoRequest(RecordingUrl(tempDir, uuid), boundary, Some(data));
      Multipart.DecodePart(boundary, request.body)
        == Some(Multipart.RawPart(Encode("video"), Encode(RecordingFileName(uuid)), Encode("video/quicktime"), data))
  {
    assert '"' !in RecordingFileName(uuid);
  }
}
