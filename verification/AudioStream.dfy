/** Position reports and frame counters of the audio HAL streams of
    system/audio_bluetooth_hw/stream_apis.cc. */
module AudioStream {
  import opened Options
  import opened Words

  const MINIMUM_DELAY_MS := 50
  const MAXIMUM_DELAY_MS := 1000
  const EXTRA_AUDIO_SYNC_MS := 200

  // ----- position reports -----

  /** What the Bluetooth stack answers: the delay and the bytes it has taken. */
  datatype Report = Report(delayNs: int, bytes: int)

  /** The delay used for an output stream: the reported one if it is plausible, else one
      computed from the buffer size. */
  function OutDelayMs(report: Option<Report>, framesCount: int, sampleRate: int): int
    requires sampleRate > 0
  {
    if report.Some? && MINIMUM_DELAY_MS < report.value.delayNs / 1000000 < MAXIMUM_DELAY_MS
    then report.value.delayNs / 1000000
    else BufferDelayMs(framesCount, sampleRate)
  }

  function BufferDelayMs(framesCount: int, sampleRate: int): int
    requires sampleRate > 0
  {
    U64(U64(framesCount * 1000) / sampleRate + EXTRA_AUDIO_SYNC_MS)
  }

  function LatencyFrames(delayMs: int, sampleRate: int): int {
    U64(delayMs * sampleRate) / 1000
  }

  /** The frames the stack has taken, or all frames presented when its counter cannot be
      trusted; less the frames still queued in the headset. */
  function Position(presented: int, bytes: int, frameSize: int, latencyFrames: int): int
    requires frameSize > 0
  {
    var reported := bytes / frameSize;
    var frames := if presented < reported then presented
                  else if presented - reported > latencyFrames then presented
                  else reported;
    if frames > latencyFrames then frames - latencyFrames else 0
  }

  function OutPosition(presented: int, report: Option<Report>, bytes: int, frameSize: int,
                       framesCount: int, sampleRate: int): int
    requires frameSize > 0 && sampleRate > 0
  {
    Position(presented, bytes, frameSize,
             LatencyFrames(OutDelayMs(report, framesCount, sampleRate), sampleRate))
  }

  /** The input stream uses the reported delay as it is and returns a signed count. */
  function InPosition(presented: int, report: Report, frameSize: int, sampleRate: int): int
    requires frameSize > 0
  {
    I64(Position(presented, report.bytes, frameSize, LatencyFrames(report.delayNs / 1000000, sampleRate)))
  }

  /** A reported delay counts if it is at least 51 and less than 1000 milliseconds, and is
      cut to whole milliseconds; any other report is replaced by the time the buffer lasts,
      cut likewise, and 200 milliseconds. */
  lemma OutDelayMeaning(report: Option<Report>, framesCount: int, sampleRate: int)
    requires sampleRate > 0 && framesCount >= 0 && framesCount * 1000 < TWO_63
    ensures var ms := OutDelayMs(report, framesCount, sampleRate);
      if report.Some? && 51_000_000 <= report.value.delayNs < 1_000_000_000
      then ms * 1_000_000 <= report.value.delayNs < (ms + 1) * 1_000_000
      else (ms - 200) * sampleRate <= framesCount * 1000 < (ms - 200 + 1) * sampleRate
  {
    BufferDelayMeaning(framesCount * 1000, framesCount, sampleRate);
  }

  lemma BufferDelayMeaning(total: int, framesCount: int, sampleRate: int)
    requires sampleRate > 0 && 0 <= total == framesCount * 1000 < TWO_63
    ensures var ms := BufferDelayMs(framesCount, sampleRate);
      (ms - 200) * sampleRate <= total < (ms - 200 + 1) * sampleRate
  {
    var q := total / sampleRate;
    QuotientBound(total, sampleRate, q);
    assert U64(total) == total && U64(q + 200) == q + 200;
    assert BufferDelayMs(framesCount, sampleRate) - 200 == q;
  }

  lemma QuotientBound(a: int, b: int, q: int)
    requires a >= 0 && b > 0 && q == a / b
    ensures 0 <= q <= a && q * b <= a < (q + 1) * b
  {
    assert a == q * b + a % b;
    assert (q + 1) * b == q * b + b;
    Grows(q, b);
  }

  lemma Grows(q: int, b: int)
    requires q >= 0 && b > 0
    ensures q <= q * b
  {
  }

  /** The latency is the number of whole frames that the delay lasts. */
  lemma LatencyMeaning(delayMs: int, sampleRate: int)
    requires 0 <= delayMs * sampleRate < TWO_64
    ensures var latency := LatencyFrames(delayMs, sampleRate);
      latency * 1000 <= delayMs * sampleRate < (latency + 1) * 1000
  {
  }

  /** The count reported if it is within the latency of the frames presented, else these. */
  function Trusted(presented: int, reported: int, latency: int): int {
    if presented - latency <= reported <= presented then reported else presented
  }

  /** With P frames presented and a latency of L frames the position lies between
      max(0, P - 2L) and max(0, P - L), whatever the stack reports; it is the reported
      count less L exactly when that count is within L of P. */
  lemma PositionBounds(presented: int, bytes: int, frameSize: int, latency: int)
    requires frameSize > 0 && presented >= 0 && bytes >= 0 && latency >= 0
    ensures var p := Position(presented, bytes, frameSize, latency);
      && Max(0, presented - 2 * latency) <= p <= Max(0, presented - latency)
      && p == Max(0, Trusted(presented, bytes / frameSize, latency) - latency)
  {
  }

  /** The reported output position of every stream with a sample rate and a frame size. */
  lemma OutPositionBounds(presented: int, report: Option<Report>, bytes: int, frameSize: int,
                          framesCount: int, sampleRate: int)
    requires 0 < frameSize && 0 < sampleRate && 0 <= presented < TWO_64 && bytes >= 0
    ensures var latency := LatencyFrames(OutDelayMs(report, framesCount, sampleRate), sampleRate);
      var p := OutPosition(presented, report, bytes, frameSize, framesCount, sampleRate);
      && 0 <= latency && Max(0, presented - 2 * latency) <= p <= Max(0, presented - latency)
      && p < TWO_64 && p == Max(0, Trusted(presented, bytes / frameSize, latency) - latency)
  {
    PositionBounds(presented, bytes, frameSize,
                   LatencyFrames(OutDelayMs(report, framesCount, sampleRate), sampleRate));
  }

  lemma InPositionBounds(presented: int, report: Report, frameSize: int, sampleRate: int)
    requires frameSize > 0 && 0 <= presented < TWO_63 && report.bytes >= 0
    ensures var latency := LatencyFrames(report.delayNs / 1000000, sampleRate);
      var p := InPosition(presented, report, frameSize, sampleRate);
      && Max(0, presented - 2 * latency) <= p <= Max(0, presented - latency)
      && p == Max(0, Trusted(presented, report.bytes / frameSize, latency) - latency)
  {
    PositionBounds(presented, report.bytes, frameSize, LatencyFrames(report.delayNs / 1000000, sampleRate));
  }

  // ----- frame counters of an output stream -----

  class BluetoothStreamOut {
    var framesRendered: int    // frames_rendered_, a uint64_t
    var framesPresented: int   // frames_presented_, a uint64_t
    ghost var sinceStandby: int  // frames written since the last standby, pause or stop
    ghost var sinceOpen: int     // frames written since the stream was opened or stopped

    ghost predicate Valid()
      reads this
    {
      && 0 <= sinceStandby <= sinceOpen
      && framesRendered == U64(sinceStandby) && framesPresented == U64(sinceOpen)
    }

    /** As long as the count of all frames fits, rendered frames never exceed presented. */
    lemma RenderedIsBounded()
      requires Valid() && sinceOpen < TWO_64
      ensures 0 <= framesRendered <= framesPresented == sinceOpen
    {
    }

    constructor ()
      ensures Valid() && sinceStandby == sinceOpen == 0
    {
      framesRendered, framesPresented, sinceStandby, sinceOpen := 0, 0, 0, 0;
    }

    /** out_write, once the stream is started: `written` is what the port took. */
    method Write(written: int, bytes: int, frameSize: int)
      requires Valid() && bytes >= 0 && frameSize > 0
      modifies this
      ensures Valid()
      ensures var frames := if written != 0 then bytes / frameSize else 0;
        sinceStandby == old(sinceStandby) + frames && sinceOpen == old(sinceOpen) + frames
    {
      if written != 0 {
        var frames := bytes / frameSize;
        assert frames >= 0;
        WrapLater(sinceStandby, frames);
        WrapLater(sinceOpen, frames);
        framesRendered := U64(framesRendered + frames);
        framesPresented := U64(framesPresented + frames);
        sinceStandby, sinceOpen := sinceStandby + frames, sinceOpen + frames;
      }
    }

    /** out_standby and out_pause: only a started stream loses its rendered count. */
    method Standby(started: bool)
      requires Valid()
      modifies `framesRendered, `sinceStandby
      ensures Valid() && sinceStandby == if started then 0 else old(sinceStandby)
    {
      if started {
        framesRendered, sinceStandby := 0, 0;
      }
    }

    /** out_set_parameters: the state of the port is read again before each stop. */
    method SetParameters(params: map<string, string>, isA2dp: bool, closingDisabled: bool, exitingDisabled: bool)
      requires Valid()
      modifies this
      ensures Valid()
      ensures var suspended := isA2dp && "A2dpSuspended" in params && params["A2dpSuspended"] == "true";
        var stopped := ("closing" in params && params["closing"] == "true" && !closingDisabled)
                    || ("exiting" in params && params["exiting"] == "1" && !exitingDisabled);
        && sinceOpen == (if stopped then 0 else old(sinceOpen))
        && sinceStandby == (if stopped || suspended then 0 else old(sinceStandby))
    {
      if "A2dpSuspended" in params && isA2dp {
        if params["A2dpSuspended"] == "true" {
          framesRendered, sinceStandby := 0, 0;
        }
      }
      if "closing" in params {
        if params["closing"] == "true" {
          Stop(closingDisabled);
        }
      }
      if "exiting" in params {
        if params["exiting"] == "1" {
          Stop(exitingDisabled);
        }
      }
    }

    /** The reset shared by closing, exiting and adev_close_output_stream. */
    method Stop(disabled: bool)
      requires Valid()
      modifies this
      ensures Valid()
      ensures sinceStandby == (if disabled then old(sinceStandby) else 0)
      ensures sinceOpen == (if disabled then old(sinceOpen) else 0)
    {
      if !disabled {
        framesRendered, framesPresented, sinceStandby, sinceOpen := 0, 0, 0, 0;
      }
    }
  }

  /** When the presented count alone wraps, the order of the counters is lost. */
  lemma OneWriteKeepsOrderExactly(rendered: int, presented: int, frames: int)
    requires 0 <= rendered <= presented < TWO_64 && 0 <= frames < TWO_64
    ensures U64(rendered + frames) <= U64(presented + frames)
      <==> !(rendered + frames < TWO_64 <= presented + frames)
  {
    assert presented + frames >= TWO_64 ==> U64(presented + frames) == presented + frames - TWO_64;
    assert rendered + frames >= TWO_64 ==> U64(rendered + frames) == rendered + frames - TWO_64;
  }
}
