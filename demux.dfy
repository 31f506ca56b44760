/**
 * The JPEG byte-stream demultiplexer of the capture thread: the inner
 * `while True` scan of `_capture_frames`. Frames are delimited by the
 * start-of-image marker FF D8 and the end-of-image marker FF D9
 * (ITU-T T.81, Annex B.1.1.3).
 */
module JpegDemux {
  import opened Wrappers
  import opened Seqs

  newtype byte = x: int | 0 <= x < 256

  const MarkerPrefix: byte := 0xFF
  const StartOfImage: byte := 0xD8
  const EndOfImage: byte := 0xD9

  /** The two-byte marker FF `code` occupies positions i and i + 1 of s. */
  predicate MarkerAt(s: seq<byte>, i: int, code: byte) {
    0 <= i && i + 1 < |s| && s[i] == MarkerPrefix && s[i + 1] == code
  }

  /** i is the first position at or after `from` holding the marker FF `code`. */
  predicate FirstMarker(s: seq<byte>, code: byte, from: int, i: int) {
    from <= i && MarkerAt(s, i, code) &&
    forall k :: from <= k < i ==> !MarkerAt(s, k, code)
  }

  /** `bytes.find(b'\xff' + code, from)`: the first occurrence at or after `from`, or -1. */
  function Find(s: seq<byte>, code: byte, from: nat): (r: int)
    ensures r == -1 || FirstMarker(s, code, from, r)
    ensures r == -1 <==> forall i :: from <= i ==> !MarkerAt(s, i, code)
    decreases |s| - from
  {
    if from + 1 >= |s| then -1
    else if s[from] == MarkerPrefix && s[from + 1] == code then from
    else Find(s, code, from + 1)
  }

  /** One frame cut out of the buffer: where it started and ended, its bytes and what is kept. */
  datatype Cut = Cut(start: nat, end: nat, jpeg: seq<byte>, rest: seq<byte>)

  /**
   * One pass of the scanning loop: the frame `buffer[start:end + 2]` between the
   * first FF D8 and the first FF D9 at or after start + 2, and the new buffer
   * `buffer[end + 2:]`; None when either marker is missing, in which case the
   * loop stops and the buffer is kept whole.
   */
  function NextFrame(buffer: seq<byte>): (r: Option<Cut>)
    ensures r.Some? ==> r.value.start + 2 <= r.value.end && r.value.end + 2 <= |buffer|
    ensures r.Some? ==> |r.value.jpeg| == r.value.end + 2 - r.value.start && |r.value.rest| == |buffer| - (r.value.end + 2)
  {
    var st := Find(buffer, StartOfImage, 0);
    if st == -1 then None
    else
      var en := Find(buffer, EndOfImage, st + 2);
      if en == -1 then None
      else Some(Cut(st, en, buffer[st..en + 2], buffer[en + 2..]))
  }

  /**
   * The demux step finds the first start marker and the first end marker at or
   * after start + 2, cuts out the bytes between them and keeps the suffix; it
   * finds nothing exactly when no end marker follows the first start marker.
   */
  lemma NextFrameFirst(buffer: seq<byte>)
    ensures var r := NextFrame(buffer);
      r.Some? ==>
      && FirstMarker(buffer, StartOfImage, 0, r.value.start)
      && FirstMarker(buffer, EndOfImage, r.value.start + 2, r.value.end)
      && r.value.jpeg == buffer[r.value.start..r.value.end + 2]
      && r.value.rest == buffer[r.value.end + 2..]
    ensures NextFrame(buffer).None? <==>
      forall st :: FirstMarker(buffer, StartOfImage, 0, st) ==>
        forall e :: st + 2 <= e ==> !MarkerAt(buffer, e, EndOfImage)
  {
    var st := Find(buffer, StartOfImage, 0);
    if st != -1 {
      var en := Find(buffer, EndOfImage, st + 2);
    }
  }

  /** What the demux step promises of each frame it emits. */
  lemma NextFrameShape(buffer: seq<byte>)
    requires NextFrame(buffer).Some?
    ensures var c := NextFrame(buffer).value;
      && |c.jpeg| >= 4
      && c.jpeg[0] == MarkerPrefix && c.jpeg[1] == StartOfImage
      && c.jpeg[|c.jpeg| - 2] == MarkerPrefix && c.jpeg[|c.jpeg| - 1] == EndOfImage
      && (forall i :: 2 <= i < |c.jpeg| - 2 ==> !MarkerAt(c.jpeg, i, EndOfImage))
      && buffer == buffer[..c.start] + c.jpeg + c.rest
      && |c.rest| < |buffer|
  {
    NextFrameFirst(buffer);
    var c := NextFrame(buffer).value;
    Reassemble(buffer, c.start, c.end + 2);
    forall i | 2 <= i < |c.jpeg| - 2
      ensures !MarkerAt(c.jpeg, i, EndOfImage)
    {
      assert !MarkerAt(buffer, c.start + i, EndOfImage);
    }
  }

  /**
   * Everything the scanning loop emits from `buffer`, in order, and the buffer it
   * leaves behind.
   */
  function Split(buffer: seq<byte>): (r: (seq<seq<byte>>, seq<byte>))
    ensures NextFrame(r.1).None?
    decreases |buffer|
  {
    match NextFrame(buffer)
    case None => ([], buffer)
    case Some(c) =>
      NextFrameShape(buffer);
      var (frames, rest) := Split(c.rest);
      ([c.jpeg] + frames, rest)
  }

  /** A buffer the loop has stopped on is left as it is. */
  lemma SplitStopped(buffer: seq<byte>)
    requires NextFrame(buffer).None?
    ensures Split(buffer) == ([], buffer)
  {
  }

  /** Appending bytes after a found marker does not move the first marker. */
  lemma {:induction false} FindAppend(s: seq<byte>, t: seq<byte>, code: byte, from: nat)
    requires Find(s, code, from) != -1
    ensures Find(s + t, code, from) == Find(s, code, from)
    decreases |s| - from
  {
    if s[from] == MarkerPrefix && s[from + 1] == code {
    } else {
      FindAppend(s, t, code, from + 1);
    }
  }

  /** A frame found in a buffer is found again, unchanged, when more bytes arrive. */
  lemma NextFrameAppend(a: seq<byte>, t: seq<byte>)
    requires NextFrame(a).Some?
    ensures NextFrame(a + t).Some?
    ensures NextFrame(a + t).value.jpeg == NextFrame(a).value.jpeg
    ensures NextFrame(a + t).value.rest == NextFrame(a).value.rest + t
  {
    var st := Find(a, StartOfImage, 0);
    var en := Find(a, EndOfImage, st + 2);
    FindAppend(a, t, StartOfImage, 0);
    FindAppend(a, t, EndOfImage, st + 2);
    NextFrameAt(a, st, en);
    NextFrameAt(a + t, st, en);
    AppendSlices(a, t, st, en + 2);
  }

  /**
   * Chunk-boundary independence: scanning `a`, keeping its leftover and scanning
   * that leftover followed by `t` emits the same frames, in the same order, and
   * leaves the same buffer as scanning `a + t` at once.
   */
  lemma {:induction false} SplitAppend(a: seq<byte>, t: seq<byte>)
    ensures Split(a + t).0 == Split(a).0 + Split(Split(a).1 + t).0
    ensures Split(a + t).1 == Split(Split(a).1 + t).1
    decreases |a|
  {
    if NextFrame(a).None? {
      assert Split(a) == ([], a);
    } else {
      var c := NextFrame(a).value;
      NextFrameShape(a);
      NextFrameAppend(a, t);
      SplitAppend(c.rest, t);
      SplitFound(a);
      SplitFound(a + t);
      Assoc([c.jpeg], Split(c.rest).0, Split(Split(c.rest).1 + t).0);
    }
  }

  lemma SplitFound(a: seq<byte>)
    requires NextFrame(a).Some?
    ensures var c := NextFrame(a).value;
      Split(a) == ([c.jpeg] + Split(c.rest).0, Split(c.rest).1)
  {
  }

  /** The concatenation of a sequence of chunks. */
  function Concat(chunks: seq<seq<byte>>): (r: seq<byte>)
    ensures chunks == [] ==> r == []
  {
    if chunks == [] then [] else Concat(chunks[..|chunks| - 1]) + chunks[|chunks| - 1]
  }

  lemma ConcatSnoc(chunks: seq<seq<byte>>, i: nat)
    requires i < |chunks|
    ensures Concat(chunks[..i + 1]) == Concat(chunks[..i]) + chunks[i]
  {
    assert chunks[..i + 1][..i] == chunks[..i];
  }

  /** A well-formed frame: FF D8 first, FF D9 last and no FF D9 in between. */
  predicate WellFormed(f: seq<byte>) {
    && |f| >= 4
    && f[0] == MarkerPrefix && f[1] == StartOfImage
    && f[|f| - 2] == MarkerPrefix && f[|f| - 1] == EndOfImage
    && forall i :: 2 <= i < |f| - 2 ==> !MarkerAt(f, i, EndOfImage)
  }

  /** Bytes that hold no start-of-image marker. */
  predicate NoStart(junk: seq<byte>) {
    forall i :: 0 <= i < |junk| ==> !MarkerAt(junk, i, StartOfImage)
  }

  /** The whole of a sequence of frames laid end to end. */
  function Stream(frames: seq<seq<byte>>): (r: seq<byte>)
    ensures frames == [] ==> r == []
  {
    if frames == [] then [] else frames[0] + Stream(frames[1..])
  }

  lemma {:induction false} FindJunkFrame(junk: seq<byte>, f: seq<byte>, tail: seq<byte>, from: nat)
    requires WellFormed(f) && NoStart(junk) && from <= |junk|
    ensures Find(junk + f + tail, StartOfImage, from) == |junk|
    decreases |junk| - from
  {
    var s := junk + f + tail;
    if from < |junk| {
      assert !MarkerAt(junk, from, StartOfImage);
      assert s[from + 1] != StartOfImage || s[from] != MarkerPrefix by {
        if from + 1 == |junk| { assert s[from + 1] == f[0]; }
        else { assert s[from + 1] == junk[from + 1] && s[from] == junk[from]; }
      }
      FindJunkFrame(junk, f, tail, from + 1);
    } else {
      assert s[from] == f[0] && s[from + 1] == f[1];
    }
  }

  lemma {:induction false} FindFrameEnd(junk: seq<byte>, f: seq<byte>, tail: seq<byte>, from: nat)
    requires WellFormed(f) && |junk| + 2 <= from <= |junk| + |f| - 2
    ensures Find(junk + f + tail, EndOfImage, from) == |junk| + |f| - 2
    decreases |junk| + |f| - from
  {
    var s := junk + f + tail;
    var i := from - |junk|;
    assert s[from] == f[i] && s[from + 1] == f[i + 1];
    if i < |f| - 2 {
      assert !MarkerAt(f, i, EndOfImage);
      FindFrameEnd(junk, f, tail, from + 1);
    }
  }

  lemma Uncons<T>(s: seq<T>)
    requires |s| > 0
    ensures [s[0]] + s[1..] == s
  {
  }

  /**
   * A stream of well-formed frames, after junk holding no start marker, is cut
   * into exactly those frames, in order; nothing is left over unless there are
   * no frames at all, in which case the junk is kept.
   */
  lemma {:induction false} SplitWellFormedStream(junk: seq<byte>, frames: seq<seq<byte>>)
    requires NoStart(junk)
    requires forall k :: 0 <= k < |frames| ==> WellFormed(frames[k])
    ensures Split(junk + Stream(frames)).0 == frames
    ensures Split(junk + Stream(frames)).1 == if frames == [] then junk else []
    decreases |frames|
  {
    if frames == [] {
      assert junk + Stream(frames) == junk;
      assert NextFrame(junk).None?;
    } else {
      var f, tail := frames[0], Stream(frames[1..]);
      Uncons(frames);
      assert Stream(frames) == f + tail;
      Assoc(junk, f, tail);
      FirstFrameCut(junk, f, tail);
      SplitFound(junk + f + tail);
      assert NoStart([]);
      assert [] + tail == tail;
      SplitWellFormedStream([], frames[1..]);
    }
  }

  lemma NextFrameAt(s: seq<byte>, st: nat, en: nat)
    requires Find(s, StartOfImage, 0) == st && Find(s, EndOfImage, st + 2) == en
    ensures en + 2 <= |s| && NextFrame(s).Some?
    ensures NextFrame(s).value.start == st && NextFrame(s).value.end == en
    ensures NextFrame(s).value.jpeg == s[st..en + 2] && NextFrame(s).value.rest == s[en + 2..]
  {
  }

  /** After start-free junk, the first frame cut out is the well-formed frame f. */
  lemma FirstFrameCut(junk: seq<byte>, f: seq<byte>, tail: seq<byte>)
    requires NoStart(junk) && WellFormed(f)
    ensures NextFrame(junk + f + tail).Some?
    ensures NextFrame(junk + f + tail).value.jpeg == f
    ensures NextFrame(junk + f + tail).value.rest == tail
  {
    var s := junk + f + tail;
    var en := |junk| + |f| - 2;
    FindJunkFrame(junk, f, tail, 0);
    FindFrameEnd(junk, f, tail, |junk| + 2);
    NextFrameAt(s, |junk|, en);
    ThreeParts(junk, f, tail);
  }
}
