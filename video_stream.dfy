/**
 * The producer of DoorOpener's video stream, readVideoStream: open the
 * camera, ask for its Motion-JPEG pixel format at 1280x720, start streaming,
 * then loop waiting for and reading frames, sending each non-empty frame as
 * one multipart part (MjpegFrame.Chunk) on the video channel.
 *
 * The device is not modelled; what it answers is the input. The answers of
 * the capture loop, pass by pass, are a finite sequence of DeviceStep: the
 * Go loop has no exit other than a fatal device error, so running out of
 * steps means the loop is still running when the observation stops. The video channel is the
 * sequence of parts sent, in order.
 */
module VideoStream {
  import opened Options
  import opened MjpegFrame

  /** The pixel-format name readVideoStream looks for. */
  const MotionJpeg: string := "Motion-JPEG"

  /** The capture size readVideoStream requests. */
  const VideoWidth: nat := 1280
  const VideoHeight: nat := 720

  /** One entry of the device's pixel-format table: a format code and its name. */
  datatype PixelFormat = PixelFormat(code: nat, name: string)

  /**
   * The code the format-selection loop ends with: each format named
   * Motion-JPEG overwrites the previous choice, and the zero value stays when
   * none is named so.
   */
  function SelectedPixelFormat(formats: seq<PixelFormat>): nat {
    if formats == [] then 0
    else
      var n := |formats| - 1;
      if formats[n].name == MotionJpeg then formats[n].code else SelectedPixelFormat(formats[..n])
  }

  /**
   * The selected code is that of the last format named Motion-JPEG, and 0
   * when no format has that name.
   */
  lemma {:induction false} SelectedIsLastMatch(formats: seq<PixelFormat>)
    ensures (forall i :: 0 <= i < |formats| ==> formats[i].name != MotionJpeg) ==>
      SelectedPixelFormat(formats) == 0
    ensures (exists i :: 0 <= i < |formats| && formats[i].name == MotionJpeg) ==>
      exists j :: 0 <= j < |formats| && formats[j].name == MotionJpeg &&
        formats[j].code == SelectedPixelFormat(formats) &&
        forall k :: j < k < |formats| ==> formats[k].name != MotionJpeg
  {
    if formats != [] {
      var n := |formats| - 1;
      var p := formats[..n];
      SelectedIsLastMatch(p);
      if formats[n].name != MotionJpeg {
        assert forall i :: 0 <= i < n ==> formats[i] == p[i];
        if exists i :: 0 <= i < |formats| && formats[i].name == MotionJpeg {
          var i :| 0 <= i < |formats| && formats[i].name == MotionJpeg;
          assert p[i].name == MotionJpeg;
          var j :| 0 <= j < |p| && p[j].name == MotionJpeg && p[j].code == SelectedPixelFormat(p) &&
            forall k :: j < k < |p| ==> p[k].name != MotionJpeg;
          assert formats[j] == p[j];
        }
      }
    }
  }

  /** The format-selection loop of readVideoStream. */
  method SelectMotionJpeg(formats: seq<PixelFormat>) returns (mjpegPixelFormat: nat)
    ensures mjpegPixelFormat == SelectedPixelFormat(formats)
  {
    mjpegPixelFormat := 0;
    for i := 0 to |formats|
      invariant mjpegPixelFormat == SelectedPixelFormat(formats[..i])
    {
      if formats[i].name == MotionJpeg {
        mjpegPixelFormat := formats[i].code;
      }
      assert formats[..i + 1][..i] == formats[..i];
    }
    assert formats[..|formats|] == formats;
  }

  /** What one pass of the capture loop gets from the device. */
  datatype DeviceStep =
    | WaitTimedOut                                 // WaitForFrame returned a timeout
    | WaitFailed                                   // WaitForFrame returned any other error
    | FrameRead(raw: seq<Byte>, readFailed: bool)  // WaitForFrame succeeded; ReadFrame's bytes, and whether it also erred

  /** Why the capture loop returned, or StillRunning when it had not returned yet. */
  datatype LoopEnding = WaitError | ReadError | StillRunning

  /** The parts sent on the channel and how the loop ended. */
  datatype LoopResult = LoopResult(sent: seq<seq<Byte>>, ending: LoopEnding)

  /** The capture loop's decisions, pass by pass. */
  function Capture(steps: seq<DeviceStep>): LoopResult {
    if steps == [] then LoopResult([], StillRunning)
    else
      match steps[0]
      case WaitTimedOut => Capture(steps[1..])
      case WaitFailed => LoopResult([], WaitError)
      case FrameRead(raw, readFailed) =>
        if |raw| != 0 then
          var rest := Capture(steps[1..]);
          LoopResult([Chunk(raw)] + rest.sent, rest.ending)
        else if readFailed then LoopResult([], ReadError)
        else Capture(steps[1..])
  }

  /** The rules of one pass, each followed by whatever the remaining passes do. */
  lemma StepRules(step: DeviceStep, rest: seq<DeviceStep>)
    ensures step.WaitTimedOut? ==> Capture([step] + rest) == Capture(rest)
    ensures step.WaitFailed? ==> Capture([step] + rest) == LoopResult([], WaitError)
    ensures step.FrameRead? && |step.raw| != 0 ==>
      Capture([step] + rest) == LoopResult([Chunk(step.raw)] + Capture(rest).sent, Capture(rest).ending)
    ensures step.FrameRead? && |step.raw| == 0 && step.readFailed ==>
      Capture([step] + rest) == LoopResult([], ReadError)
    ensures step.FrameRead? && |step.raw| == 0 && !step.readFailed ==>
      Capture([step] + rest) == Capture(rest)
  {
    assert ([step] + rest)[1..] == rest;
  }

  /** The capture loop of readVideoStream, run over the device's answers. */
  method CaptureLoop(steps: seq<DeviceStep>) returns (sent: seq<seq<Byte>>, ending: LoopEnding)
    ensures LoopResult(sent, ending) == Capture(steps)
  {
    sent := [];
    var i := 0;
    while i < |steps|
      invariant 0 <= i <= |steps|
      invariant Capture(steps) == LoopResult(sent + Capture(steps[i..]).sent, Capture(steps[i..]).ending)
    {
      var step := steps[i];
      assert steps[i..] == [step] + steps[i + 1..];
      StepRules(step, steps[i + 1..]);
      if step.WaitTimedOut? {
        i := i + 1;
        continue;
      } else if step.WaitFailed? {
        ending := WaitError;
        return;
      }
      var rawFrame := step.raw;
      if |rawFrame| != 0 {
        var frame := Chunk(rawFrame);
        sent := sent + [frame];
      } else if step.readFailed {
        ending := ReadError;
        return;
      }
      i := i + 1;
    }
    ending := StillRunning;
  }

  /** A pass on which the loop returns. */
  predicate IsStop(step: DeviceStep) {
    step.WaitFailed? || (step.FrameRead? && |step.raw| == 0 && step.readFailed)
  }

  /** The number of passes before the first one that stops the loop (all of them if none does). */
  function Live(steps: seq<DeviceStep>): (n: nat)
    ensures n <= |steps|
    ensures forall k :: 0 <= k < n ==> !IsStop(steps[k])
    ensures n < |steps| ==> IsStop(steps[n])
  {
    if steps == [] || IsStop(steps[0]) then 0 else 1 + Live(steps[1..])
  }

  /** The non-empty frames read, in read order. */
  function Payloads(steps: seq<DeviceStep>): seq<seq<Byte>> {
    if steps == [] then []
    else if steps[0].FrameRead? && |steps[0].raw| != 0 then [steps[0].raw] + Payloads(steps[1..])
    else Payloads(steps[1..])
  }

  function Chunks(payloads: seq<seq<Byte>>): (parts: seq<seq<Byte>>)
    ensures |parts| == |payloads| && forall i :: 0 <= i < |payloads| ==> parts[i] == Chunk(payloads[i])
  {
    seq(|payloads|, i requires 0 <= i < |payloads| => Chunk(payloads[i]))
  }

  /**
   * What the loop sends, stated without its control flow: one part for every
   * non-empty frame read before the first stopping pass, in read order; and
   * the loop ends on that pass (a wait error or an empty failed read), or is
   * still running when there is none.
   */
  lemma {:induction false} CaptureSendsLivePayloads(steps: seq<DeviceStep>)
    ensures Capture(steps).sent == Chunks(Payloads(steps[..Live(steps)]))
    ensures Capture(steps).ending ==
      if Live(steps) == |steps| then StillRunning
      else if steps[Live(steps)].WaitFailed? then WaitError
      else ReadError
  {
    if steps != [] && !IsStop(steps[0]) {
      var n := Live(steps);
      CaptureSendsLivePayloads(steps[1..]);
      assert steps[..n] == [steps[0]] + steps[1..][..n - 1];
      assert steps[..n][1..] == steps[1..][..n - 1];
    }
  }

  /** A pass that timed out changes nothing, wherever it happens. */
  lemma {:induction false} TimeoutChangesNothing(before: seq<DeviceStep>, after: seq<DeviceStep>)
    ensures Capture(before + [WaitTimedOut] + after) == Capture(before + after)
  {
    if before == [] {
      assert before + [WaitTimedOut] + after == [WaitTimedOut] + after;
      assert before + after == after;
      StepRules(WaitTimedOut, after);
    } else {
      TimeoutChangesNothing(before[1..], after);
      assert before + [WaitTimedOut] + after == [before[0]] + (before[1..] + [WaitTimedOut] + after);
      assert before + after == [before[0]] + (before[1..] + after);
      StepRules(before[0], before[1..] + [WaitTimedOut] + after);
      StepRules(before[0], before[1..] + after);
    }
  }

  /** Once the loop has returned, later device answers are never read. */
  lemma {:induction false} StopIsFinal(steps: seq<DeviceStep>, later: seq<DeviceStep>)
    requires Capture(steps).ending != StillRunning
    ensures Capture(steps + later) == Capture(steps)
  {
    assert steps != [];
    assert (steps + later)[0] == steps[0];
    assert (steps + later)[1..] == steps[1..] + later;
    if !IsStop(steps[0]) {
      StopIsFinal(steps[1..], later);
    }
  }

  /**
   * While the loop is running, the passes so far and the passes to come add
   * up: nothing is lost or resent between them.
   */
  lemma {:induction false} CaptureContinues(steps: seq<DeviceStep>, later: seq<DeviceStep>)
    requires Capture(steps).ending == StillRunning
    ensures Capture(steps + later) ==
      LoopResult(Capture(steps).sent + Capture(later).sent, Capture(later).ending)
  {
    if steps == [] {
      assert steps + later == later;
    } else {
      assert (steps + later)[0] == steps[0];
      assert (steps + later)[1..] == steps[1..] + later;
      CaptureContinues(steps[1..], later);
    }
  }

  /** Three frames, then a wait error: exactly those three parts, in order, then the loop returns. */
  lemma ThreeFramesThenFailure(f1: seq<Byte>, f2: seq<Byte>, f3: seq<Byte>)
    requires |f1| != 0 && |f2| != 0 && |f3| != 0
    ensures Capture([FrameRead(f1, false), FrameRead(f2, false), FrameRead(f3, false), WaitFailed]) ==
      LoopResult([Chunk(f1), Chunk(f2), Chunk(f3)], WaitError)
  {
    var tail := [WaitFailed];
    assert Capture(tail) == LoopResult([], WaitError);
    StepRules(FrameRead(f3, false), tail);
    StepRules(FrameRead(f2, false), [FrameRead(f3, false)] + tail);
    StepRules(FrameRead(f1, false), [FrameRead(f2, false)] + ([FrameRead(f3, false)] + tail));
    assert [FrameRead(f1, false), FrameRead(f2, false), FrameRead(f3, false), WaitFailed] ==
      [FrameRead(f1, false)] + ([FrameRead(f2, false)] + ([FrameRead(f3, false)] + tail));
  }

  /** Three timeouts, then a frame: the frame is sent as usual and the loop keeps running. */
  lemma TimeoutsThenFrame(f: seq<Byte>)
    requires |f| != 0
    ensures Capture([WaitTimedOut, WaitTimedOut, WaitTimedOut, FrameRead(f, false)]) ==
      LoopResult([Chunk(f)], StillRunning)
  {
    var frame := [FrameRead(f, false)];
    StepRules(FrameRead(f, false), []);
    assert [FrameRead(f, false)] + [] == frame;
    StepRules(WaitTimedOut, frame);
    StepRules(WaitTimedOut, [WaitTimedOut] + frame);
    StepRules(WaitTimedOut, [WaitTimedOut] + ([WaitTimedOut] + frame));
    assert [WaitTimedOut, WaitTimedOut, WaitTimedOut, FrameRead(f, false)] ==
      [WaitTimedOut] + ([WaitTimedOut] + ([WaitTimedOut] + frame));
  }

  /** What the device answers during one readVideoStream session. */
  datatype Device = Device(
    opens: bool,                // Open succeeded
    formats: seq<PixelFormat>,  // GetSupportedFormats, in map iteration order
    acceptsFormat: bool,        // SetImageFormat succeeded
    starts: bool,               // StartStreaming succeeded
    steps: seq<DeviceStep>)     // the capture loop's passes

  /** The format, width and height passed to SetImageFormat. */
  datatype FormatRequest = FormatRequest(pixelFormat: nat, width: nat, height: nat)

  /** Why readVideoStream returned: a setup step failed, or the capture loop ended as `loop` says. */
  datatype Ending = OpenFailed | FormatRejected | StartFailed | CaptureEnded(loop: LoopEnding)

  /** One session: the format requested (once the camera is open), the parts sent, and how it ended. */
  datatype Session = Session(request: Option<FormatRequest>, sent: seq<seq<Byte>>, ending: Ending)

  function StreamSession(device: Device): Session {
    if !device.opens then Session(None, [], OpenFailed)
    else
      var request := FormatRequest(SelectedPixelFormat(device.formats), VideoWidth, VideoHeight);
      if !device.acceptsFormat then Session(Some(request), [], FormatRejected)
      else if !device.starts then Session(Some(request), [], StartFailed)
      else
        var r := Capture(device.steps);
        Session(Some(request), r.sent, CaptureEnded(r.ending))
  }

  /** readVideoStream: set up the camera, then run the capture loop. */
  method ReadVideoStream(device: Device) returns (request: Option<FormatRequest>, sent: seq<seq<Byte>>, ending: Ending)
    ensures Session(request, sent, ending) == StreamSession(device)
  {
    sent := [];
    if !device.opens {
      request, ending := None, OpenFailed;
      return;
    }
    var mjpegPixelFormat := SelectMotionJpeg(device.formats);
    request := Some(FormatRequest(mjpegPixelFormat, VideoWidth, VideoHeight));
    if !device.acceptsFormat {
      ending := FormatRejected;
      return;
    }
    if !device.starts {
      ending := StartFailed;
      return;
    }
    var loopEnding;
    sent, loopEnding := CaptureLoop(device.steps);
    ending := CaptureEnded(loopEnding);
  }

  /**
   * Everything a session sends is a well-formed part carrying a non-empty
   * camera frame, and nothing is sent unless the camera opened, accepted the
   * Motion-JPEG request and started streaming.
   */
  lemma {:induction false} SessionSendsParts(device: Device)
    ensures StreamSession(device).sent != [] ==>
      device.opens && device.acceptsFormat && device.starts &&
      StreamSession(device).request == Some(FormatRequest(SelectedPixelFormat(device.formats), VideoWidth, VideoHeight))
    ensures forall part :: part in StreamSession(device).sent ==>
      ParseChunk(part).Some? && |ParseChunk(part).value| != 0
  {
    if device.opens && device.acceptsFormat && device.starts {
      var steps := device.steps;
      CaptureSendsLivePayloads(steps);
      var ps := Payloads(steps[..Live(steps)]);
      PayloadsNonEmpty(steps[..Live(steps)]);
      forall part | part in StreamSession(device).sent
        ensures ParseChunk(part).Some? && |ParseChunk(part).value| != 0
      {
        var i :| 0 <= i < |ps| && part == Chunk(ps[i]);
        ParseChunkOfChunk(ps[i]);
      }
    }
  }

  lemma {:induction false} PayloadsNonEmpty(steps: seq<DeviceStep>)
    ensures forall p :: p in Payloads(steps) ==> |p| != 0
  {
    if steps != [] {
      PayloadsNonEmpty(steps[1..]);
    }
  }
}
