/** A model of motion_displayer.model.VideoProcessor: the frame loop that reads
    frames from a video source, writes the first one unannotated, writes every
    later one through the motion-vector annotator, and keeps the two counters
    from which progress and the remaining time are estimated.

    OpenCV is abstracted away: the source is a sequence of reads (None is a
    failed read, i.e. null), the sink is the sequence of frames written, the
    annotator is a caller-supplied function, and the two environment
    observations (does the output file exist after a write, how long did an
    iteration take) are caller-supplied oracles. */
module VideoProcessing {

  datatype Option<T> = None | Some(value: T)

  /** A decoded frame. Only its identity matters here: pixels are not modelled. */
  datatype Frame = Frame(id: nat)

  /** Why a run of the frame loop aborted. */
  datatype Error =
    | NullFrame      // the very first read failed and null was handed to the writer
    | FileNotFound   // the output file was missing right after a write

  datatype Outcome = Completed | Failed(error: Error)

  /** Progress as an exact ratio frames_processed / frame_count. */
  datatype Ratio = Ratio(num: int, den: int) {
    /** Comparison as rationals, for positive denominators. */
    predicate AtMost(other: Ratio)
      requires 0 < den && 0 < other.den
    {
      num * other.den <= other.num * den
    }
  }

  /** The i-th read of the source: reading past the end fails like any other read. */
  function Read(source: seq<Option<Frame>>, i: nat): (r: Option<Frame>)
    ensures i < |source| ==> r == source[i]
    ensures r.Some? ==> i < |source|
  {
    if i < |source| then source[i] else None
  }

  /** The first index at or after i whose read fails. */
  function StreamEndFrom(source: seq<Option<Frame>>, i: nat): (e: nat)
    ensures i <= e
    ensures Read(source, e).None?
    ensures forall j :: i <= j < e ==> Read(source, j).Some?
    ensures e <= |source| || e == i
    decreases |source| - i
  {
    if Read(source, i).None? then i else StreamEndFrom(source, i + 1)
  }

  /** The index of the read that ends the loop: the first failed read after the first one.
      The loop runs iterations 0 .. StreamEnd(source) - 1 before that read. */
  function StreamEnd(source: seq<Option<Frame>>): (e: nat)
    ensures 1 <= e
    ensures Read(source, e).None?
    ensures forall j :: 1 <= j < e ==> Read(source, j).Some?
    ensures |source| > 0 ==> e <= |source|
  {
    StreamEndFrom(source, 1)
  }

  /** The frames the sink receives over a run that is not aborted: the first frame
      as read, then every later frame annotated against that same first frame. */
  function Expected(source: seq<Option<Frame>>, annotate: (Frame, Frame) -> Frame): (r: seq<Frame>)
    requires |source| > 0 && source[0].Some?
    ensures |r| == StreamEnd(source)
    ensures r[0] == source[0].value
    ensures forall j :: 1 <= j < |r| ==> source[j].Some? && r[j] == annotate(source[j].value, source[0].value)
  {
    var e := StreamEnd(source);
    assert forall j :: 1 <= j < e ==> Read(source, j) == source[j];
    seq(e, j requires 0 <= j < e =>
      if j == 0 then source[0].value else annotate(Read(source, j).value, source[0].value))
  }

  /** The first write index in [i, n) after which the output file is missing, or n. */
  function FirstMissingFrom(pathExists: nat -> bool, i: nat, n: nat): (k: nat)
    requires i <= n
    ensures i <= k <= n
    ensures k < n ==> !pathExists(k)
    ensures forall j :: i <= j < k ==> pathExists(j)
    decreases n - i
  {
    if i == n then n
    else if !pathExists(i) then i
    else FirstMissingFrom(pathExists, i + 1, n)
  }

  function FirstMissing(pathExists: nat -> bool, n: nat): (k: nat)
    ensures k <= n
    ensures k < n ==> !pathExists(k)
    ensures forall j :: 0 <= j < k ==> pathExists(j)
  {
    FirstMissingFrom(pathExists, 0, n)
  }

  /** Total time of the first k iterations. */
  function SumDurations(durationMs: nat -> nat, k: nat): nat
  {
    if k == 0 then 0 else SumDurations(durationMs, k - 1) + durationMs(k - 1)
  }

  /** The accumulated time never shrinks as iterations are added. */
  lemma {:induction false} SumDurationsMonotone(durationMs: nat -> nat, k: nat, m: nat)
    requires k <= m
    ensures SumDurations(durationMs, k) <= SumDurations(durationMs, m)
    decreases m - k
  {
    if k < m {
      SumDurationsMonotone(durationMs, k, m - 1);
    }
  }

  /** The counter after each of the first n iterations that write a frame,
      starting from p0. */
  function CounterTrace(p0: int, n: nat): seq<int>
  {
    seq(n, i => p0 + i + 1)
  }

  /** Progress read after each iteration of a completed run (from p0, through n
      written frames, to the end-of-stream assignment of the frame count) never
      goes backwards exactly when that final assignment does not lower the
      counter, i.e. when the declared frame count is at least p0 + n. */
  lemma ProgressNonDecreasing(p0: int, n: nat, frameCount: int)
    requires 0 < frameCount
    ensures var t := [p0] + CounterTrace(p0, n) + [frameCount];
            (forall i :: 0 <= i < |t| - 1 ==> Ratio(t[i], frameCount).AtMost(Ratio(t[i + 1], frameCount)))
            <==> p0 + n <= frameCount
  {
    var t := [p0] + CounterTrace(p0, n) + [frameCount];
    assert |t| == n + 2;
    forall i | 0 <= i < n
      ensures Ratio(t[i], frameCount).AtMost(Ratio(t[i + 1], frameCount))
    {
      assert t[i] == p0 + i && t[i + 1] == p0 + i + 1;
      MulMonotone(p0 + i, p0 + i + 1, frameCount);
    }
    assert t[n] == p0 + n && t[n + 1] == frameCount;
    if p0 + n <= frameCount {
      MulMonotone(p0 + n, frameCount, frameCount);
    } else {
      MulStrict(frameCount, p0 + n, frameCount);
      assert !Ratio(t[n], frameCount).AtMost(Ratio(t[n + 1], frameCount));
    }
  }

  function Abs(a: int): nat
  {
    if a < 0 then -a else a
  }

  /** Java's integer division, which truncates toward zero. */
  function JavaDiv(a: int, b: int): (q: int)
    requires b != 0
    ensures 0 <= a && 0 < b ==> q == a / b
    ensures (a < 0) == (b < 0) ==> q >= 0
    ensures (a < 0) != (b < 0) ==> q <= 0
    ensures Abs(q) * Abs(b) <= Abs(a) < (Abs(q) + 1) * Abs(b)
  {
    var m := Abs(a) / Abs(b);
    DivBounds(Abs(a), Abs(b));
    var q := if (a < 0) == (b < 0) then m else -m;
    assert Abs(q) == m;
    q
  }

  lemma DivBounds(a: nat, b: nat)
    requires 0 < b
    ensures (a / b) * b <= a < (a / b + 1) * b
  {
  }

  /** With s >= 0 and p > 0, (s / p) * rem never exceeds the exact estimate
      s * rem / p, and falls short of it by less than rem. */
  lemma AverageTimesRemainingBounds(s: int, p: int, rem: int)
    requires 0 <= s && 0 < p && 0 <= rem
    ensures 0 <= (s / p) * rem
    ensures (s / p) * rem * p <= s * rem
    ensures rem > 0 ==> s * rem < ((s / p) * rem + rem) * p
  {
    var a := s / p;
    assert a * p <= s < a * p + p;
    assert 0 <= a;
    calc {
      a * rem * p;
    ==  { MulComm3(a, rem, p); }
      (a * p) * rem;
    <=  { MulMonotone(a * p, s, rem); }
      s * rem;
    }
    if rem > 0 {
      calc {
        s * rem;
      <  { MulStrict(s, a * p + p, rem); }
        (a * p + p) * rem;
      ==
        (a * rem + rem) * p;
      }
    }
  }

  lemma MulComm3(a: int, b: int, c: int)
    ensures a * b * c == (a * c) * b
  {
  }

  lemma MulMonotone(x: int, y: int, z: int)
    requires x <= y && 0 <= z
    ensures x * z <= y * z
  {
  }

  lemma MulStrict(x: int, y: int, z: int)
    requires x < y && 0 < z
    ensures x * z < y * z
  {
  }

  class VideoProcessor {
    /** The video's declared frame count (VideoFile.getFrameCount), fixed for the run. */
    const frameCount: int
    var framesProcessed: int
    var summedProcessingTimeMs: int
    /** Everything the video writer has received, in order. */
    var written: seq<Frame>
    /** Whether the writer and the capture have been released. */
    var released: bool

    ghost predicate Valid()
      reads this
    {
      0 <= summedProcessingTimeMs
    }

    constructor (frameCount: int)
      ensures Valid()
      ensures this.frameCount == frameCount
      ensures framesProcessed == 0 && summedProcessingTimeMs == 0
      ensures written == [] && !released
    {
      this.frameCount := frameCount;
      framesProcessed := 0;
      summedProcessingTimeMs := 0;
      written := [];
      released := false;
    }

    /** Hands a frame (or null) to the writer, then fails when the output file
        does not exist afterwards. A null frame never reaches the sink. */
    method WriteFrame(frame: Option<Frame>, outPathExists: bool) returns (failure: Option<Error>)
      modifies this`written
      ensures frame.None? ==> failure == Some(NullFrame) && written == old(written)
      ensures frame.Some? ==> written == old(written) + [frame.value]
      ensures frame.Some? ==> (failure.None? <==> outPathExists)
      ensures frame.Some? && failure.Some? ==> failure.value == FileNotFound
    {
      if frame.None? {
        return Some(NullFrame);
      }
      written := written + [frame.value];
      if !outPathExists {
        return Some(FileNotFound);
      }
      return None;
    }

    /** The frame loop. Iteration i performs the i-th read and, when it writes,
        the i-th write; pathExists(i) tells whether the output file exists after
        that write and durationMs(i) is the time iteration i took. The ghost
        countBeforeEnd is the counter just before the end-of-stream branch
        overwrites it with the frame count. */
    method ProcessVideo(source: seq<Option<Frame>>, annotate: (Frame, Frame) -> Frame,
                        pathExists: nat -> bool, durationMs: nat -> nat)
      returns (outcome: Outcome, ghost countBeforeEnd: int)
      requires Valid()
      modifies this
      ensures Valid()
      // an empty stream aborts on the very first write and changes nothing
      ensures (|source| == 0 || source[0].None?) ==>
                outcome == Failed(NullFrame) &&
                written == old(written) && framesProcessed == old(framesProcessed) &&
                summedProcessingTimeMs == old(summedProcessingTimeMs) && released == old(released)
      // a write whose output file has vanished aborts the loop before the releases
      ensures |source| > 0 && source[0].Some? ==>
                var k := FirstMissing(pathExists, StreamEnd(source));
                k < StreamEnd(source) ==>
                  outcome == Failed(FileNotFound) &&
                  written == old(written) + Expected(source, annotate)[..k + 1] &&
                  framesProcessed == old(framesProcessed) + k &&
                  summedProcessingTimeMs == old(summedProcessingTimeMs) + SumDurations(durationMs, k) &&
                  released == old(released)
      // otherwise the loop ends at end of stream, pins the counter and releases
      ensures |source| > 0 && source[0].Some? ==>
                var e := StreamEnd(source);
                FirstMissing(pathExists, e) == e ==>
                  outcome == Completed &&
                  written == old(written) + Expected(source, annotate) &&
                  framesProcessed == frameCount &&
                  countBeforeEnd == old(framesProcessed) + e &&
                  summedProcessingTimeMs == old(summedProcessingTimeMs) + SumDurations(durationMs, e) &&
                  released
    {
      ghost var started := |source| > 0 && source[0].Some?;
      ghost var e := if started then StreamEnd(source) else 0;
      ghost var k := FirstMissing(pathExists, e);
      ghost var expected := if started then Expected(source, annotate) else [];
      countBeforeEnd := framesProcessed;
      var previous: Option<Frame> := None;
      var i: nat := 0;
      while true
        invariant i == 0 <==> previous.None?
        invariant i > 0 ==> started && previous == Some(source[0].value)
        invariant i <= e
        invariant i <= k
        invariant i <= |source|
        invariant written == old(written) + expected[..i]
        invariant framesProcessed == old(framesProcessed) + i
        invariant summedProcessingTimeMs == old(summedProcessingTimeMs) + SumDurations(durationMs, i)
        invariant released == old(released)
        decreases |source| - i
      {
        var frame := Read(source, i);
        var failure: Option<Error>;
        if previous.None? {
          failure := WriteFrame(frame, pathExists(i));
          if failure.Some? {
            assert frame.Some? ==> started && i == k < e && written == old(written) + expected[..i + 1];
            outcome := Failed(failure.value);
            return;
          }
          previous := frame;
          framesProcessed := framesProcessed + 1;
        } else if frame.Some? {
          assert i < e;
          var processed := annotate(frame.value, previous.value);
          assert processed == expected[i];
          failure := WriteFrame(Some(processed), pathExists(i));
          if failure.Some? {
            assert i == k && written == old(written) + expected[..i + 1];
            outcome := Failed(failure.value);
            return;
          }
          framesProcessed := framesProcessed + 1;
        } else {
          assert i == e == k && expected[..i] == expected;
          countBeforeEnd := framesProcessed;
          framesProcessed := frameCount;
          break;
        }
        assert expected[..i + 1] == expected[..i] + [expected[i]];
        var duration := durationMs(i);
        assert SumDurations(durationMs, i + 1) == SumDurations(durationMs, i) + duration;
        summedProcessingTimeMs := summedProcessingTimeMs + duration;
        i := i + 1;
      }
      released := true;
      outcome := Completed;
    }

    /** Once the counter has been set to the frame count, the getters report a
        finished run: every frame processed, progress 1 and nothing left to wait for. */
    lemma ReadingsAtFrameCount()
      requires framesProcessed == frameCount
      ensures ProcessedFrames() == frameCount && Progress().num == Progress().den
      ensures frameCount != 0 ==> EstimatedProcessingTimeMs() == Some(0)
    {
    }

    /** getProgress: frames processed over the declared frame count. */
    function Progress(): (p: Ratio)
      reads this
      ensures p.num == framesProcessed && p.den == frameCount
      ensures 0 <= framesProcessed <= frameCount && 0 < frameCount ==> 0 <= p.num <= p.den
      ensures p.num == p.den <==> framesProcessed == frameCount
    {
      Ratio(framesProcessed, frameCount)
    }

    /** getProcessedFrames: the counter itself. */
    function ProcessedFrames(): (n: int)
      reads this
      ensures n == framesProcessed
    {
      framesProcessed
    }

    /** getEstimatedProcessingTime in milliseconds: the average time per processed
        frame (truncating division) times the frames still to go. None is the
        division by zero Java raises while no frame has been processed. */
    function EstimatedProcessingTimeMs(): (eta: Option<int>)
      reads this
      ensures eta.None? <==> framesProcessed == 0
      // the average is truncated first, then multiplied by the frames remaining
      ensures Valid() && 0 < framesProcessed ==>
                eta == Some((summedProcessingTimeMs / framesProcessed) * (frameCount - framesProcessed))
      ensures eta.Some? && framesProcessed == frameCount ==> eta.value == 0
      ensures Valid() && 0 < framesProcessed <= frameCount ==>
                eta.Some? && 0 <= eta.value &&
                eta.value * framesProcessed <= summedProcessingTimeMs * (frameCount - framesProcessed)
      ensures Valid() && 0 < framesProcessed < frameCount ==>
                eta.Some? &&
                summedProcessingTimeMs * (frameCount - framesProcessed)
                  < (eta.value + (frameCount - framesProcessed)) * framesProcessed
      // more frames processed than declared: the estimate is not positive
      ensures Valid() && 0 < framesProcessed && frameCount < framesProcessed ==>
                eta.Some? && eta.value <= 0
    {
      if framesProcessed == 0 then None
      else
        var average := JavaDiv(summedProcessingTimeMs, framesProcessed);
        var remaining := frameCount - framesProcessed;
        if 0 <= summedProcessingTimeMs && 0 < framesProcessed <= frameCount then
          AverageTimesRemainingBounds(summedProcessingTimeMs, framesProcessed, remaining);
          Some(average * remaining)
        else if 0 <= summedProcessingTimeMs && 0 < framesProcessed then
          MulMonotone(remaining, 0, average);
          Some(average * remaining)
        else
          Some(average * remaining)
    }
  }
}
