# Stream OCR core, modelled in Dafny

This project models the core of `FFmpegStreamOCR` in `app/withffmpeg.py`. That class watches a live video
stream and reads the elapsed-game-time clock and replay captions in the top-right corner of each frame.
The model covers these parts:

- **JPEG demux** (`demux.dfy`, module `JpegDemux`). The capture thread's inner scan cuts complete JPEG
  frames out of the decoder's byte stream. A frame starts with the first FF D8 and ends with the first
  FF D9 at or after start + 2. The buffer keeps the bytes that follow the frame.
- **Capture loop** (`pipeline.dfy`, module `StreamOCR`, class `FFmpegStreamOCR`). Chunks read from the
  pipe are appended to a buffer. Every complete frame is cut out and decoded, and the frames that decode
  enter the frame queue under the drop-oldest policy.
- **Queues** (`queue.dfy`, module `FifoQueue`). This is `queue.Queue` with non-blocking `put` and
  `get_nowait`, plus the drop-oldest insertion the pipeline builds from them.
- **Image cropper** (`cropper.dfy`, module `ImageCropping`). It computes the top-right crop box. It also
  makes the channel-count decision the analysis thread takes on the cropped array (stack grey to three
  channels, drop alpha, or skip the frame).
- **One turn of the analysis thread**, and the **result accessors**, which consume the result queue.
- **Time parsing** (`normalize.dfy`, `time_pattern.dfy`, `content_analyzer.dfy`). The text is normalised
  (NFKC on full-width forms, then replacement of confusable characters). The time regex
  `(?<!\d)(\d{1,2})[:：. ][\s]?(\d{2})(?!\d)` becomes an explicit scanner with `search` and `finditer`.
  On top of these sit `is_time_text`, `extract_time`, `extract_time_sec`, `extract_all_times`,
  `has_reached_20_min` and `time_text_filter`.
- **Replay detection and analysis**: `is_replay_indicator`, and `analyze_texts` over the lines OCR found.

## Modelling choices

- Bytes are a `byte` newtype (0..255). A read of the pipe is one chunk in a sequence of chunks, and an
  empty read is an empty chunk.
- `Image.open` is the parameter `decode: seq<byte> -> Option<Image>`. None stands for an exception, and
  that frame is skipped.
- The OCR engine is the parameter `infer: Image -> seq<OCRLine>`, applied to the cropped image.
- An image is its width, its height and the band count of its pixel mode. Pixels are not modelled.
- `crop_ratio` is a rational `ratioNum / ratioDen`. `int()` of a non-negative product truncates, which is
  the floor.
- Python `\d` is restricted to ASCII digits. `\s` and `str.strip()` use the exact `str.isspace()` set.
  NFKC folds only the full-width block U+FF01..U+FF5E and the ideographic space U+3000.
- No character is both a digit and a separator or whitespace. So the greedy regex never backtracks, and
  the scanner `MatchAt` is exact. `MatchAtIsPattern` proves it equal to a declarative reading of the
  pattern, in both directions.
- The regex's separator class holds `:`, `：`, `.` and the ASCII space; the space is written twice.
- Two points where the code says something other than its names and comments:
  - The docstring of `get_latest_result` (line 374) calls its result the latest one. But `get_nowait`
    (line 376) takes the head of the queue, which is the *oldest* result. The model follows the code.
  - Line 133 creates the result queue as `queue.Queue()`, with no bound. So its drop-oldest branch
    (lines 311-317) never runs. The model keeps the branch through `PutDropOldest`, and
    `DropOldestPutUnbounded` shows that on this queue the insertion is a plain append.

## Model

| member | source | states |
|---|---|---|
| JpegDemux.Find | app/withffmpeg.py:193 | `bytes.find` of a two-byte marker: -1 exactly when no occurrence at or after `from`, otherwise the first occurrence |
| JpegDemux.NextFrame | app/withffmpeg.py:193-203 | one pass of the scan: when both markers are found, the end marker lies at least two bytes after the start, the frame and the kept suffix fit in the buffer, and their lengths are `end + 2 - start` and the rest after `end + 2` |
| JpegDemux.NextFrameFirst | app/withffmpeg.py:192-203 | one scan step cuts `buffer[start:end+2]` between the first FF D8 and the first FF D9 at or after start + 2 and keeps `buffer[end+2:]`; it finds nothing exactly when no end marker follows the first start marker |
| JpegDemux.NextFrameShape | app/withffmpeg.py:197-203 | every emitted frame begins FF D8, ends FF D9, holds no FF D9 in between, is at least 4 bytes, the buffer is the skipped prefix + frame + rest, and the buffer shrinks |
| JpegDemux.Split | app/withffmpeg.py:192-203 | the loop over the buffer stops on a leftover from which no further frame can be cut |
| JpegDemux.FindAppend | app/withffmpeg.py:188-197 | bytes arriving later do not move a marker already found |
| JpegDemux.NextFrameAppend | app/withffmpeg.py:188-203 | a frame found in a buffer is found again, with the same bytes, after more bytes arrive; only its rest grows |
| JpegDemux.SplitAppend | app/withffmpeg.py:181-203 | chunk-boundary independence: scanning a and then leftover + t emits the same frames in the same order and leaves the same buffer as scanning a + t at once |
| JpegDemux.SplitWellFormedStream | app/withffmpeg.py:192-203 | well-formed frames laid end to end after start-free junk are cut out exactly, in order, with nothing left over (the junk is kept when there are no frames) |
| JpegDemux.FirstFrameCut | app/withffmpeg.py:193-203 | after start-free junk the first frame cut is exactly the well-formed frame that follows and the rest is untouched |
| StreamOCR.Decoded | app/withffmpeg.py:205-226 | the frames that `Image.open` accepts, in range order, with failures skipped: never more frames than ranges |
| StreamOCR.DecodedFromRanges | app/withffmpeg.py:205-226 | decoding never invents frames: each frame is the decoding of some range |
| StreamOCR.DecodedAllSucceed | app/withffmpeg.py:205-213 | when every range decodes, the frames are the decoded ranges one for one and in order |
| StreamOCR.DecodedAppend | app/withffmpeg.py:205-226 | decoding is per range: the frames of a + b are those of a followed by those of b |
| StreamOCR.ChunkStep | app/withffmpeg.py:181-190 | reading one more chunk adds exactly the frames cut from leftover + chunk; an empty read changes nothing |
| StreamOCR.TwoFramesCutOut | app/withffmpeg.py:176-203 | two well-formed frames after start-free junk are both cut out, in order, with nothing left, however the bytes are split into chunks |
| StreamOCR.FFmpegStreamOCR.constructor | app/withffmpeg.py:107-133 | both queues start empty; the frame queue is bounded by `max_queue_size`, the result queue unbounded |
| StreamOCR.FFmpegStreamOCR.CaptureFrames | app/withffmpeg.py:176-226 | over any chunks: the frames cut are those of the whole stream at once, the queue receives the decodable ones with drop-oldest, `frame_count` counts them and the buffer keeps what is left |
| StreamOCR.FFmpegStreamOCR.CutFrames | app/withffmpeg.py:192-226 | the inner loop emits every complete frame of the buffer in order, enqueues and counts those that decode and keeps the leftover |
| StreamOCR.FFmpegStreamOCR.ResultFor | app/withffmpeg.py:288-306 | a result carries the lines, `analyze_texts` of them, the original size and the size of the crop box |
| StreamOCR.FFmpegStreamOCR.ProcessFrame | app/withffmpeg.py:240-317 | one analysis turn: an empty frame queue changes nothing; otherwise the oldest frame is removed, cropped, skipped on an unsupported channel count, else OCR'd and analysed, and its result appended to the result queue |
| StreamOCR.FFmpegStreamOCR.GetLatestResult | app/withffmpeg.py:373-378 | removes and returns the head of the result queue, or None when it is empty |
| StreamOCR.FFmpegStreamOCR.GetAllResults | app/withffmpeg.py:380-388 | returns every queued result oldest first and leaves the queue empty |
| StreamOCR.FFmpegStreamOCR.IsCurrentlyReplay | app/withffmpeg.py:390-395 | `is_replay` of the result it consumes, or None |
| StreamOCR.FFmpegStreamOCR.GetCurrentTimeInfo | app/withffmpeg.py:397-402 | `time_texts` of the result it consumes, or None |
| StreamOCR.FFmpegStreamOCR.GetReplayIndicators | app/withffmpeg.py:404-409 | `replay_indicators` of the result it consumes, or None |
| StreamOCR.FFmpegStreamOCR.ReplayAskedTwice | app/withffmpeg.py:390-395 | the getters consume: with one result queued a second call returns None, not a cached answer |
| FifoQueue.Queue.constructor | app/withffmpeg.py:132-133 | a new queue is empty and has the given `maxsize` |
| FifoQueue.Queue.PutNowait | app/withffmpeg.py:213 | `put(block=False)` appends exactly when the queue is not full and otherwise changes nothing; the bound is kept |
| FifoQueue.Queue.GetNowait | app/withffmpeg.py:218 | `get_nowait` removes and returns the oldest item, or reports empty and changes nothing |
| FifoQueue.Last | app/withffmpeg.py:132 | the window of the newest n items is at most n long and is the whole sequence when it fits |
| FifoQueue.PutDropOldest | app/withffmpeg.py:212-222 | the drop-oldest insertion composed from put and get_nowait leaves the contents `DropOldestPut` describes and keeps the bound |
| FifoQueue.DropOldestPut | app/withffmpeg.py:212-222 | the contents after one drop-oldest insertion: x is always the newest item, the length stays the same when the queue was full and grows by one otherwise, and a bounded queue keeps its bound |
| FifoQueue.DropOldestPutWindow | app/withffmpeg.py:212-222 | on a bounded queue the insertion keeps the bound, always admits the new item and leaves the newest `maxsize` items; when full exactly the oldest is evicted |
| FifoQueue.DropOldestPutUnbounded | app/withffmpeg.py:309-317 | on the unbounded result queue the insertion is a plain append |
| FifoQueue.PushAll | app/withffmpeg.py:212-222 | the contents after inserting xs in order: the last item inserted is the newest, nothing is added beyond xs, and a bounded queue keeps its bound |
| FifoQueue.PushAllKeepsNewest | app/withffmpeg.py:212-222 | any number of insertions leave exactly the last `maxsize` items of the old contents followed by the new ones |
| FifoQueue.PushAllOverflow | app/withffmpeg.py:212-222 | pushing capacity + k items into an empty queue leaves exactly the last capacity of them, oldest first |
| FifoQueue.PushAllAppend | app/withffmpeg.py:212-222 | inserting xs and then ys is inserting xs + ys |
| FifoQueue.PushAllUnbounded | app/withffmpeg.py:309-317 | an unbounded queue drops nothing |
| ImageCropping.Scaled | app/withffmpeg.py:69-70 | `int(n * crop_ratio)` is the floor of n * num / den |
| ImageCropping.GetCropCoordinates | app/withffmpeg.py:83-101 | the box is flush with the top and right edges and its width and height are the floors of the ratio's share |
| ImageCropping.CropInside | app/withffmpeg.py:93-101 | with a ratio in [0, 1] the box lies inside the image |
| ImageCropping.ScaledAtMost | app/withffmpeg.py:69-70 | with a ratio at most 1 the scaled length does not exceed the original |
| ImageCropping.CropTopRight | app/withffmpeg.py:57-81 | the crop has the size of the box `get_crop_coordinates` gives and keeps the pixel mode |
| ImageCropping.ArrayShape | app/withffmpeg.py:253 | `np.array` of a picture is (h, w) for one band, (h, w, bands) otherwise |
| ImageCropping.NormalizeChannels | app/withffmpeg.py:257-267 | a rank-2 array gains three channels, four channels lose alpha, another channel count than three skips the frame, other ranks pass unchanged |
| ImageCropping.OcrInputShape | app/withffmpeg.py:253-267 | a crop reaches OCR as h x w x 3 exactly when its mode has 1, 3 or 4 bands |
| TextNormalize.Nfkc | app/withffmpeg.py:460 | full-width forms fold to ASCII, the ideographic space to a space, nothing else changes, and nothing full-width remains |
| TextNormalize.NfkcText | app/withffmpeg.py:460 | NFKC of a text folds each character in place and keeps the length |
| TextNormalize.FoldChar | app/withffmpeg.py:461-464 | the replacement table on one character: confusables become '0', ':' or '.', others are kept |
| TextNormalize.ReplaceChar | app/withffmpeg.py:466 | `str.replace` of one character replaces every occurrence and nothing else |
| TextNormalize.ApplyAll | app/withffmpeg.py:465-466 | applying the table's replacements in their order is the single-character fold (no value is a later key) |
| TextNormalize.NormalizeForTime | app/withffmpeg.py:453-467 | the method's result is the character-wise fold of NFKC of the text |
| TextNormalize.NormalizedForTime | app/withffmpeg.py:453-467 | normalisation keeps the length and folds each position |
| TextNormalize.NormalizedIsClean | app/withffmpeg.py:453-467 | no confusable and no full-width character survives normalisation |
| TextNormalize.NormalizedIdempotent | app/withffmpeg.py:453-467 | normalising twice is normalising once |
| TextNormalize.NormalizeFullWidthExample | app/withffmpeg.py:460-466 | "０１：２３" normalises to "01:23" |
| TextNormalize.NormalizedPlain | app/withffmpeg.py:453-467 | ASCII digits and colons are left as they are |
| TextNormalize.LeadingSpaces | app/withffmpeg.py:565 | the count of leading whitespace characters: all of them whitespace, and the next one not |
| TextNormalize.KeptLength | app/withffmpeg.py:565 | the length without trailing whitespace: everything after it whitespace, the last kept one not |
| TextNormalize.TrimStart | app/withffmpeg.py:565 | removes exactly the leading whitespace |
| TextNormalize.TrimEnd | app/withffmpeg.py:565 | removes exactly the trailing whitespace |
| TextNormalize.Strip | app/withffmpeg.py:565-567 | `strip()` neither begins nor ends with whitespace and is empty exactly when the text is all whitespace |
| TextNormalize.StripInfix | app/withffmpeg.py:565 | what `strip()` keeps is a contiguous part of the text with only whitespace cut off either side |
| TimePattern.DecimalValue | app/withffmpeg.py:481-482 | `int()` of one or two digits is below 10 or 100 |
| TimePattern.MatchAt | app/withffmpeg.py:421 | a match at i starts at i, ends inside the text, and both groups are below 100 |
| TimePattern.MatchAtIsPattern | app/withffmpeg.py:421 | the scanner at i matches exactly when the regex can match there; the groups are the digits the regex captures |
| TimePattern.PatternIsMatch | app/withffmpeg.py:421 | wherever the regex matches, the scanner takes the same minute digits and optional whitespace |
| TimePattern.Search | app/withffmpeg.py:472 | `search` returns the match at the leftmost position, or None when no position matches |
| TimePattern.FindIter | app/withffmpeg.py:508 | `finditer` returns real matches, in order, not overlapping |
| TimePattern.FindIterComplete | app/withffmpeg.py:508 | `finditer` skips nothing: every matching position starts or lies inside a found match |
| TimePattern.FindIterHead | app/withffmpeg.py:472-508 | the first `finditer` match is the `search` match, and there is none exactly when `search` finds none |
| TimePattern.NoMatchFourDigits | app/withffmpeg.py:421 | "1234" has no match: the lookarounds keep digit runs whole |
| TimePattern.NoMatchThreeMinuteDigits | app/withffmpeg.py:421 | "123:45" has no match |
| TimePattern.MatchExample | app/withffmpeg.py:421 | "01:23" matches with groups 1 and 23 |
| TimePattern.MatchExampleLargest | app/withffmpeg.py:421 | "99:59" matches with groups 99 and 59 |
| TimePattern.MatchExampleSeconds75 | app/withffmpeg.py:421 | "12:75" matches with groups 12 and 75 |
| ContentAnalyzer.Pad2 | app/withffmpeg.py:514 | `f"{n:02d}"` is two digits that read back as n |
| ContentAnalyzer.ItemOf | app/withffmpeg.py:512-520 | an entry is well formed (seconds below 60, `sec = mm*60+ss`, `norm` the "MM:SS" reading) and copies the line's text |
| ContentAnalyzer.LineMatches | app/withffmpeg.py:507-508 | every match of a line has both groups below 100 |
| ContentAnalyzer.ItemsOfWellFormed | app/withffmpeg.py:508-520 | each entry of a line is well formed and carries that line's text |
| ContentAnalyzer.AllTimes | app/withffmpeg.py:502-521 | `extract_all_times`: every entry is well formed (seconds below 60, `sec = mm*60+ss` at most 5999, `norm` the "MM:SS" reading) and carries the text of one of the lines |
| ContentAnalyzer.AllTimesAppend | app/withffmpeg.py:505 | lines are handled in order: the entries of a + b are those of a then those of b |
| ContentAnalyzer.AllTimesNonEmpty | app/withffmpeg.py:557-559 | there is an entry exactly when some line has a match that passes the range check |
| ContentAnalyzer.ItemsOfNonEmpty | app/withffmpeg.py:508-511 | a line has an entry exactly when one of its matches passes the range check |
| ContentAnalyzer.ExtractAllTimes | app/withffmpeg.py:502-521 | the nested loops collect exactly the entries `AllTimes` specifies |
| ContentAnalyzer.ItemsOfFirst | app/withffmpeg.py:508-520 | when the first match passes, it gives the first entry |
| ContentAnalyzer.MaxSec | app/withffmpeg.py:528 | `max(t['sec'])` bounds every entry and is attained by one |
| ContentAnalyzer.HasReached20Min | app/withffmpeg.py:523-529 | true exactly when some entry reads at least 20:00 |
| ContentAnalyzer.FirstMatch | app/withffmpeg.py:477-478 | the first match's groups are below 100 |
| ContentAnalyzer.IsTimeText | app/withffmpeg.py:469-472 | true exactly when the pattern matches at some position of the normalised text, with no range check |
| ContentAnalyzer.TimeTextFilter | app/withffmpeg.py:579-582 | the same verdict as `is_time_text` |
| ContentAnalyzer.SecondsOf | app/withffmpeg.py:490-500 | a value exactly when there is a first match that passes the range check; then `mm*60+ss`, at most 5999 |
| ContentAnalyzer.StrfTime | app/withffmpeg.py:486 | `strftime("%H:%M:%S")` is eight characters, two-digit fields split by colons, that read back as hour, minute and second |
| ContentAnalyzer.ClockOf | app/withffmpeg.py:479-488 | a clock string exactly when there is a match that passes the range check; both the `strftime` branch and the f-string fallback give "00:" + MM + ":" + SS |
| ContentAnalyzer.ExtractTimeSec | app/withffmpeg.py:490-500 | `extract_time_sec`: a value exactly when the first match passes the range check; then `mm*60+ss` of that match, at most 5999, and the text is a time text |
| ContentAnalyzer.ExtractTime | app/withffmpeg.py:474-488 | `extract_time`: a value exactly when the first match passes the range check; then "00:MM:SS" of that match, and the text is a time text |
| ContentAnalyzer.ClockAgreesWithSeconds | app/withffmpeg.py:474-500 | both branches of `extract_time` give "00:MM:SS" for the seconds `extract_time_sec` reads, and they accept the same matches |
| ContentAnalyzer.ExtractTimeAgreesWithSec | app/withffmpeg.py:474-500 | `extract_time` and `extract_time_sec` accept the same texts and agree on the reading |
| ContentAnalyzer.ExtractTimeSecIsFirstEntry | app/withffmpeg.py:490-521 | `extract_time_sec` is the first entry of `extract_all_times` for the same text; when it is None on a time text the first match failed the range check |
| ContentAnalyzer.TimeExampleShort | app/withffmpeg.py:453-500 | "01:23" and its full-width spelling read as 83 seconds |
| ContentAnalyzer.TimeExampleLargest | app/withffmpeg.py:474-500 | "99:59" reads as 5999 seconds and as "00:99:59" through the f-string fallback |
| ContentAnalyzer.Pad2Largest | app/withffmpeg.py:488 | 99 and 59 format as "99" and "59" |
| ContentAnalyzer.TimeExampleOutOfRange | app/withffmpeg.py:469-500 | "12:75" is a time text yet both extractors return None |
| ContentAnalyzer.TimeExampleRejected | app/withffmpeg.py:469-472 | "1234" and "123:45" are no time texts |
| ContentAnalyzer.ContainsFrom | app/withffmpeg.py:535 | substring search from a position: true exactly when the word occurs there or later |
| ContentAnalyzer.Contains | app/withffmpeg.py:535-540 | `word in text` exactly when the word occurs at some position |
| ContentAnalyzer.ContainsAny | app/withffmpeg.py:534-541 | the keyword loop finds a hit exactly when one of the words occurs |
| ContentAnalyzer.IsReplayIndicator | app/withffmpeg.py:531-542 | true exactly when no live keyword and some replay keyword occur in the text |
| ContentAnalyzer.BoAloneFlags | app/withffmpeg.py:432-433 | the single character '播' flags a text that names no live keyword |
| ContentAnalyzer.LiveWins | app/withffmpeg.py:534-536 | a live keyword always wins over replay keywords |
| ContentAnalyzer.LineIndicator | app/withffmpeg.py:565-573 | at most one indicator per line, present exactly when the stripped text is non-empty and a replay indicator, holding that text and the line's confidence and box |
| ContentAnalyzer.Indicators | app/withffmpeg.py:564-574 | every indicator holds the stripped text of a line, which is non-empty and a replay indicator |
| ContentAnalyzer.LineIndicatorSound | app/withffmpeg.py:565-573 | a line's indicator holds its stripped, non-empty, flagged text |
| ContentAnalyzer.IndicatorsNonEmpty | app/withffmpeg.py:564-574 | `is_replay` holds exactly when some line's stripped text is a non-empty replay indicator |
| ContentAnalyzer.IndicatorsAppend | app/withffmpeg.py:564 | indicators keep line order |
| ContentAnalyzer.Analyzed | app/withffmpeg.py:544-576 | the result's times and indicators are those of the lines; `has_time` and `is_replay` exactly when they are non-empty; `ge_20_min` agrees with `has_reached_20_min` |
| ContentAnalyzer.AnalyzeTexts | app/withffmpeg.py:544-576 | the loop computes `Analyzed`; `max_time_sec` is present exactly with a time, bounds and is attained by an entry; `ge_20_min` is `max_time_sec >= 1200` |

## Left out

- Launching, polling and terminating the ffmpeg subprocess, the command line (`_build_ffmpeg_command`),
  and `start`/`stop` with their thread joins and timeouts. These are process and thread management, and the
  model sees only the bytes the pipe delivers.
- The `running` flag and `poll()`. The capture loop runs over a finite sequence of chunks, which stands for
  any prefix of the stream read before the loop stopped.
- Concurrency between the capture and analysis threads. Each queue operation is taken atomically and one at
  a time, so the gap between a failed `put` and the eviction that follows it is not modelled.
- The blocking `get(timeout=1.0)` of the analysis thread. One call of `ProcessFrame` is one turn, and an
  empty queue stands for the timeout.
- `Image.open`, PIL pixel data, `np.stack`, the alpha slice, and the `astype(np.uint8)` conversion. Only
  sizes, band counts and array shapes are modelled.
- The OCR engine (`paddle_ocr.py`, `ocr.py`). It is a function parameter, so OCR is taken to depend only
  on the cropped image value. `useffmpeg.py` is not part of this model.
- `timestamp` and `process_time_ms` of the result, and all logging and `print` calls.
- Exceptions inside a turn of the analysis loop (lines 324-327), other than the unsupported channel count.
  The capture thread's outer exception handler (lines 228-233) is left out too.
- `crop_ratio` as a float. It is a non-negative rational, so floating-point rounding of `width * crop_ratio`
  is not modelled.
- Full Unicode NFKC and the Unicode reach of `\d`. Only the full-width forms are folded, and `\d` is ASCII.
- TextNormalize.Nfkc: leaves every character outside U+FF01..U+FF5E and U+3000 unchanged. Real NFKC also
  folds other compatibility characters, such as superscripts and circled digits.
- The legacy `time_patterns` list (lines 424-429). The source never uses it.
- `getattr(line, 'text', '') or ''` in `extract_all_times`. A modelled line always has a text.
- `ContentAnalyzer` as an object and `time_text_filter` building a fresh one. The analyser has no mutable
  state, so its methods are functions.
