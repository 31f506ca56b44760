/**
 * `FFmpegStreamOCR`, one operation at a time: the capture loop that cuts the
 * decoder's byte stream into JPEG frames and feeds the frame queue, one turn
 * of the analysis loop, and the accessors over the result queue. The decoder
 * process, the threads, `Image.open` and the OCR engine are outside the model:
 * the bytes read from the pipe are a sequence of chunks, and decoding and OCR
 * are functions passed in.
 */
module StreamOCR {
  import opened Wrappers
  import opened JpegDemux
  import opened FifoQueue
  import opened ImageCropping
  import opened ContentAnalyzer
  import opened Seqs

  /** The result dictionary; `timestamp` and `process_time_ms` are not modelled. */
  datatype AnalysisResult = AnalysisResult(
    ocrLines: seq<OCRLine>,
    content: Analysis,
    originalSize: (nat, nat),
    croppedSize: (nat, nat))

  /** The frames that decode, in the order of their byte ranges; failures are skipped. */
  function Decoded(decode: seq<byte> -> Option<Image>, ranges: seq<seq<byte>>): (r: seq<Image>)
    ensures |r| <= |ranges|
  {
    if ranges == [] then []
    else
      var last := decode(ranges[|ranges| - 1]);
      Decoded(decode, ranges[..|ranges| - 1]) + (if last.Some? then [last.value] else [])
  }

  lemma DecodedSnoc(decode: seq<byte> -> Option<Image>, ranges: seq<seq<byte>>, jpeg: seq<byte>)
    ensures Decoded(decode, ranges + [jpeg]) ==
      Decoded(decode, ranges) + (if decode(jpeg).Some? then [decode(jpeg).value] else [])
  {
    assert (ranges + [jpeg])[..|ranges|] == ranges;
  }

  lemma {:induction false} DecodedAppend(decode: seq<byte> -> Option<Image>, a: seq<seq<byte>>, b: seq<seq<byte>>)
    ensures Decoded(decode, a + b) == Decoded(decode, a) + Decoded(decode, b)
    decreases |b|
  {
    if b == [] {
      assert a + b == a;
    } else {
      var init := b[..|b| - 1];
      DecodedAppend(decode, a, init);
      assert (a + b)[..|a + b| - 1] == a + init;
      assert (a + b)[|a + b| - 1] == b[|b| - 1];
      var last := decode(b[|b| - 1]);
      Assoc(Decoded(decode, a), Decoded(decode, init), if last.Some? then [last.value] else []);
    }
  }

  /** Every decoded frame comes from one of the ranges. */
  lemma {:induction false} DecodedFromRanges(decode: seq<byte> -> Option<Image>, ranges: seq<seq<byte>>)
    ensures forall k :: 0 <= k < |Decoded(decode, ranges)| ==>
      exists j :: 0 <= j < |ranges| && decode(ranges[j]) == Some(Decoded(decode, ranges)[k])
    decreases |ranges|
  {
    if ranges == [] {
      assert Decoded(decode, ranges) == [];
    } else {
      var init, last := ranges[..|ranges| - 1], ranges[|ranges| - 1];
      DecodedFromRanges(decode, init);
      assert ranges == init + [last];
      DecodedSnoc(decode, init, last);
      var d, e := Decoded(decode, init), Decoded(decode, ranges);
      forall k | 0 <= k < |e|
        ensures exists j :: 0 <= j < |ranges| && decode(ranges[j]) == Some(e[k])
      {
        if k < |d| {
          var j :| 0 <= j < |init| && decode(init[j]) == Some(d[k]);
          assert ranges[j] == init[j] && e[k] == d[k];
        } else {
          assert decode(ranges[|ranges| - 1]) == Some(e[k]);
        }
      }
    }
  }

  /** When every range decodes, the frames are the decoded ranges, one for one, in order. */
  lemma {:induction false} DecodedAllSucceed(decode: seq<byte> -> Option<Image>, ranges: seq<seq<byte>>)
    requires forall j :: 0 <= j < |ranges| ==> decode(ranges[j]).Some?
    ensures |Decoded(decode, ranges)| == |ranges|
    ensures forall j :: 0 <= j < |ranges| ==> decode(ranges[j]) == Some(Decoded(decode, ranges)[j])
    decreases |ranges|
  {
    if ranges != [] {
      var init, last := ranges[..|ranges| - 1], ranges[|ranges| - 1];
      assert forall j :: 0 <= j < |init| ==> init[j] == ranges[j];
      DecodedAllSucceed(decode, init);
      assert ranges == init + [last];
      DecodedSnoc(decode, init, last);
    }
  }

  /**
   * Reading one more chunk: the frames of the longer stream are those of the
   * shorter one followed by those cut from its leftover plus the chunk, and
   * the leftover is the one that scan leaves; an empty read changes nothing.
   */
  lemma ChunkStep(decode: seq<byte> -> Option<Image>, consumed: seq<byte>, chunk: seq<byte>,
                   q0: seq<Image>, maxsize: int)
    ensures var before := Split(consumed);
      var after := Split(before.1 + chunk);
      && Split(consumed + chunk).1 == after.1
      && Decoded(decode, Split(consumed + chunk).0) == Decoded(decode, before.0) + Decoded(decode, after.0)
      && PushAll(q0, maxsize, Decoded(decode, Split(consumed + chunk).0)) ==
         PushAll(PushAll(q0, maxsize, Decoded(decode, before.0)), maxsize, Decoded(decode, after.0))
    ensures chunk == [] ==> Split(consumed + chunk) == Split(consumed)
  {
    var before := Split(consumed);
    var after := Split(before.1 + chunk);
    SplitAppend(consumed, chunk);
    DecodedAppend(decode, before.0, after.0);
    PushAllAppend(q0, maxsize, Decoded(decode, before.0), Decoded(decode, after.0));
    if chunk == [] {
      assert consumed + chunk == consumed;
    }
  }

  class FFmpegStreamOCR {
    const cropper: ImageCropper
    const frameQueue: Queue<Image>
    const resultQueue: Queue<AnalysisResult>

    /** Both queues respect their bounds; the result queue is unbounded. */
    ghost predicate Valid()
      reads this, frameQueue, resultQueue
    {
      && cropper.ratioDen > 0
      && frameQueue as object != resultQueue as object
      && frameQueue.Valid() && resultQueue.Valid()
      && resultQueue.maxsize == 0
    }

    /** `FFmpegStreamOCR(stream_url, crop_ratio=num/den, max_queue_size=...)`. */
    constructor (ratioNum: nat, ratioDen: nat, maxQueueSize: int)
      requires ratioDen > 0
      ensures Valid()
      ensures cropper == ImageCropper(ratioNum, ratioDen)
      ensures frameQueue.maxsize == maxQueueSize && frameQueue.items == []
      ensures resultQueue.items == []
      ensures fresh(frameQueue) && fresh(resultQueue)
    {
      cropper := ImageCropper(ratioNum, ratioDen);
      frameQueue := new Queue(maxQueueSize);
      resultQueue := new Queue(0);
    }

    /**
     * `_capture_frames` over the chunks read from the pipe: empty reads are
     * skipped, every chunk is appended to the buffer, and after each append the
     * scan cuts out every complete frame. The frames cut out are those of the
     * whole stream at once; the frames that decode enter the frame queue with
     * drop-oldest; `frame_count` counts them; the buffer keeps what is left.
     */
    method CaptureFrames(chunks: seq<seq<byte>>, decode: seq<byte> -> Option<Image>)
      returns (frameCount: nat, buffer: seq<byte>)
      requires Valid()
      modifies frameQueue
      ensures Valid()
      ensures buffer == Split(Concat(chunks)).1
      ensures frameCount == |Decoded(decode, Split(Concat(chunks)).0)|
      ensures frameQueue.items ==
        PushAll(old(frameQueue.items), frameQueue.maxsize, Decoded(decode, Split(Concat(chunks)).0))
    {
      buffer := [];
      frameCount := 0;
      ghost var q0 := frameQueue.items;
      ghost var consumed: seq<byte> := [];
      ghost var frames: seq<Image> := [];
      for i := 0 to |chunks|
        invariant Valid()
        invariant consumed == Concat(chunks[..i])
        invariant buffer == Split(consumed).1
        invariant frames == Decoded(decode, Split(consumed).0)
        invariant frameCount == |frames|
        invariant frameQueue.items == PushAll(q0, frameQueue.maxsize, frames)
      {
        var chunk := chunks[i];
        ConcatSnoc(chunks, i);
        ChunkStep(decode, consumed, chunk, q0, frameQueue.maxsize);
        consumed := consumed + chunk;
        if chunk == [] {
          continue;
        }
        ghost var cut := Decoded(decode, Split(buffer + chunk).0);
        var count;
        count, buffer := CutFrames(buffer + chunk, decode);
        frameCount := frameCount + count;
        frames := frames + cut;
      }
      assert chunks[..|chunks|] == chunks;
    }

    /**
     * The inner `while True` of `_capture_frames`: cut out every complete frame
     * of the buffer, first to last, decode each one, count and enqueue those
     * that decode, and keep what follows the last frame.
     */
    method CutFrames(buffer: seq<byte>, decode: seq<byte> -> Option<Image>)
      returns (count: nat, rest: seq<byte>)
      requires Valid()
      modifies frameQueue
      ensures Valid()
      ensures rest == Split(buffer).1
      ensures count == |Decoded(decode, Split(buffer).0)|
      ensures frameQueue.items ==
        PushAll(old(frameQueue.items), frameQueue.maxsize, Decoded(decode, Split(buffer).0))
    {
      count := 0;
      rest := buffer;
      ghost var q0 := frameQueue.items;
      ghost var done: seq<seq<byte>> := [];
      while true
        invariant Valid()
        invariant done + Split(rest).0 == Split(buffer).0
        invariant Split(rest).1 == Split(buffer).1
        invariant count == |Decoded(decode, done)|
        invariant frameQueue.items == PushAll(q0, frameQueue.maxsize, Decoded(decode, done))
        decreases |rest|
      {
        var next := NextFrame(rest);
        if next.None? {
          break;
        }
        var c := next.value;
        NextFrameShape(rest);
        SplitFound(rest);
        Assoc(done, [c.jpeg], Split(c.rest).0);
        rest := c.rest;
        DecodedSnoc(decode, done, c.jpeg);
        ghost var decoded := Decoded(decode, done);
        done := done + [c.jpeg];
        var image := decode(c.jpeg);
        if image.Some? {
          count := count + 1;
          PushAllSnoc(q0, frameQueue.maxsize, decoded, image.value);
          PutDropOldest(frameQueue, image.value);
        } else {
          assert decoded + [] == decoded;
        }
      }
      SplitStopped(rest);
      assert done + [] == done;
    }

    /** The result `_process_frames` builds for a frame and the lines OCR found in its crop. */
    function ResultFor(image: Image, lines: seq<OCRLine>): (r: AnalysisResult)
      reads this
      requires cropper.ratioDen > 0
      ensures r.content == Analyzed(lines) && r.ocrLines == lines
      ensures r.originalSize == (image.width, image.height)
      ensures var box := GetCropCoordinates(cropper, image.width, image.height);
        r.croppedSize == (box.right - box.left, box.bottom - box.top)
    {
      var cropped := CropTopRight(cropper, image);
      AnalysisResult(lines, Analyzed(lines), (image.width, image.height), (cropped.width, cropped.height))
    }

    /**
     * One turn of `_process_frames`: take the oldest frame (nothing happens when
     * the queue is empty), crop it, skip it when its channel count is not
     * supported, otherwise run OCR on the crop, analyse the lines and append
     * the result to the result queue.
     */
    method ProcessFrame(infer: Image -> seq<OCRLine>) returns (r: Option<AnalysisResult>)
      requires Valid()
      modifies frameQueue, resultQueue
      ensures Valid()
      ensures old(frameQueue.items) == [] ==>
        r == None && frameQueue.items == [] && resultQueue.items == old(resultQueue.items)
      ensures old(frameQueue.items) != [] ==>
        var image := old(frameQueue.items)[0];
        var cropped := CropTopRight(cropper, image);
        && frameQueue.items == old(frameQueue.items)[1..]
        && (NormalizeChannels(ArrayShape(cropped)).None? ==>
              r == None && resultQueue.items == old(resultQueue.items))
        && (NormalizeChannels(ArrayShape(cropped)).Some? ==>
              r == Some(ResultFor(image, infer(cropped))) &&
              resultQueue.items == old(resultQueue.items) + [r.value])
    {
      r := None;
      var got := frameQueue.GetNowait();
      if got.None? {
        return;
      }
      var image := got.value;
      var cropped := CropTopRight(cropper, image);
      var shape := NormalizeChannels(ArrayShape(cropped));
      if shape.None? {
        return;
      }
      var lines := infer(cropped);
      var content := AnalyzeTexts(lines);
      var result := AnalysisResult(lines, content, (image.width, image.height), (cropped.width, cropped.height));
      PutDropOldest(resultQueue, result);
      r := Some(result);
    }

    /** `get_latest_result()`: removes and returns the oldest queued result, or None. */
    method GetLatestResult() returns (r: Option<AnalysisResult>)
      requires Valid()
      modifies resultQueue
      ensures Valid()
      ensures old(resultQueue.items) == [] ==> r == None && resultQueue.items == []
      ensures old(resultQueue.items) != [] ==>
        r == Some(old(resultQueue.items)[0]) && resultQueue.items == old(resultQueue.items)[1..]
    {
      r := resultQueue.GetNowait();
    }

    /** `get_all_results()`: every queued result, oldest first; the queue is left empty. */
    method GetAllResults() returns (results: seq<AnalysisResult>)
      requires Valid()
      modifies resultQueue
      ensures Valid()
      ensures results == old(resultQueue.items)
      ensures resultQueue.items == []
    {
      results := [];
      while true
        invariant Valid()
        invariant results + resultQueue.items == old(resultQueue.items)
        decreases |resultQueue.items|
      {
        ghost var pending := resultQueue.items;
        var r := resultQueue.GetNowait();
        if r.None? {
          break;
        }
        assert pending == [r.value] + resultQueue.items;
        results := results + [r.value];
      }
      assert results + [] == results;
    }

    /** `is_currently_replay()`: `is_replay` of the result it takes off the queue. */
    method IsCurrentlyReplay() returns (r: Option<bool>)
      requires Valid()
      modifies resultQueue
      ensures Valid()
      ensures old(resultQueue.items) == [] ==> r == None && resultQueue.items == []
      ensures old(resultQueue.items) != [] ==>
        r == Some(old(resultQueue.items)[0].content.isReplay) &&
        resultQueue.items == old(resultQueue.items)[1..]
    {
      var result := GetLatestResult();
      r := if result.Some? then Some(result.value.content.isReplay) else None;
    }

    /** `get_current_time_info()`: `time_texts` of the result it takes off the queue. */
    method GetCurrentTimeInfo() returns (r: Option<seq<TimeItem>>)
      requires Valid()
      modifies resultQueue
      ensures Valid()
      ensures old(resultQueue.items) == [] ==> r == None && resultQueue.items == []
      ensures old(resultQueue.items) != [] ==>
        r == Some(old(resultQueue.items)[0].content.timeTexts) &&
        resultQueue.items == old(resultQueue.items)[1..]
    {
      var result := GetLatestResult();
      r := if result.Some? then Some(result.value.content.timeTexts) else None;
    }

    /** `get_replay_indicators()`: `replay_indicators` of the result it takes off the queue. */
    method GetReplayIndicators() returns (r: Option<seq<Indicator>>)
      requires Valid()
      modifies resultQueue
      ensures Valid()
      ensures old(resultQueue.items) == [] ==> r == None && resultQueue.items == []
      ensures old(resultQueue.items) != [] ==>
        r == Some(old(resultQueue.items)[0].content.replayIndicators) &&
        resultQueue.items == old(resultQueue.items)[1..]
    {
      var result := GetLatestResult();
      r := if result.Some? then Some(result.value.content.replayIndicators) else None;
    }

    /**
     * The getters consume: with one result queued, the first call answers and
     * a second call straight after answers None.
     */
    method ReplayAskedTwice() returns (first: Option<bool>, second: Option<bool>)
      requires Valid() && |resultQueue.items| == 1
      modifies resultQueue
      ensures Valid()
      ensures first == Some(old(resultQueue.items)[0].content.isReplay)
      ensures second == None && resultQueue.items == []
    {
      first := IsCurrentlyReplay();
      second := IsCurrentlyReplay();
    }
  }

  /**
   * Two well-formed frames after start-free junk, however the bytes are cut
   * into chunks, are both cut out, in order, and nothing is left over.
   */
  lemma TwoFramesCutOut(chunks: seq<seq<byte>>, junk: seq<byte>, f1: seq<byte>, f2: seq<byte>)
    requires NoStart(junk) && WellFormed(f1) && WellFormed(f2)
    requires Concat(chunks) == junk + f1 + f2
    ensures Split(Concat(chunks)) == ([f1, f2], [])
  {
    var frames := [f1, f2];
    assert frames[1..] == [f2] && [f2][1..] == [];
    assert Stream([f2]) == f2 + Stream([]);
    assert Stream(frames) == f1 + Stream([f2]);
    assert f2 + [] == f2;
    assert junk + f1 + f2 == junk + Stream(frames);
    assert forall k :: 0 <= k < |frames| ==> WellFormed(frames[k]);
    SplitWellFormedStream(junk, frames);
  }
}
