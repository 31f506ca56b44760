/**
 * `ContentAnalyzer`: finds elapsed-time readings and replay captions in the
 * lines the OCR engine recognised in the cropped region, and `time_text_filter`.
 */
module ContentAnalyzer {
  import opened Wrappers
  import opened TextNormalize
  import opened TimePattern
  import opened Seqs

  /** A bounding polygon; passed through untouched. */
  type BBox = seq<(real, real)>

  /** One recognised line (`OCRLine` of ocr.py); confidence and box are passed through. */
  datatype OCRLine = OCRLine(lineId: int, text: string, confidence: real, bbox: BBox, pageId: int)

  /** An entry of `time_texts`. */
  datatype TimeItem = TimeItem(text: string, norm: string, mm: nat, ss: nat, sec: nat, confidence: real, bbox: BBox)

  /** An entry of `replay_indicators`. */
  datatype Indicator = Indicator(text: string, confidence: real, bbox: BBox)

  /** The dictionary `analyze_texts` returns. */
  datatype Analysis = Analysis(
    timeTexts: seq<TimeItem>,
    replayIndicators: seq<Indicator>,
    isReplay: bool,
    hasTime: bool,
    ge20Min: bool,
    maxTimeSec: Option<nat>)

  /** Twenty minutes, in seconds. */
  const TwentyMinutes: nat := 20 * 60

  const ReplayKeywords: seq<string> := ["播", "重播", "回播", "录播", "重放", "REPLAY", "RERUN", "精选", "回看"]
  const LiveKeywords: seq<string> := ["直播", "现场", "LIVE", "实况", "正在播出"]

  /** `f"{n:02d}"` for n below 100; reading it back with `int()` gives n. */
  function Pad2(n: nat): (r: string)
    requires n < 100
    ensures |r| == 2 && AllDigits(r) && DecimalValue(r) == n
  {
    var r := [('0' as int + n / 10) as char, ('0' as int + n % 10) as char];
    assert r[..1] == [r[0]];
    r
  }

  /** The range check of `extract_all_times`, `extract_time` and `extract_time_sec`. */
  predicate Accepted(m: Match) {
    m.mm <= 99 && m.ss < 60
  }

  /** A well-formed time entry: seconds in range, total seconds consistent, norm "MM:SS". */
  predicate WellFormedItem(t: TimeItem) {
    && t.mm <= 99 && t.ss < 60 && t.sec == t.mm * 60 + t.ss && t.sec <= 5999
    && |t.norm| == 5 && t.norm[2] == ':'
    && AllDigits(t.norm[..2]) && DecimalValue(t.norm[..2]) == t.mm
    && AllDigits(t.norm[3..]) && DecimalValue(t.norm[3..]) == t.ss
  }

  /** The entry recorded for an accepted match on a line. */
  function ItemOf(line: OCRLine, m: Match): (r: TimeItem)
    requires Accepted(m)
    ensures WellFormedItem(r)
    ensures r.text == line.text && r.mm == m.mm && r.ss == m.ss
  {
    var norm := Pad2(m.mm) + ":" + Pad2(m.ss);
    assert norm[..2] == Pad2(m.mm) && norm[3..] == Pad2(m.ss);
    TimeItem(line.text, norm, m.mm, m.ss, m.mm * 60 + m.ss, line.confidence, line.bbox)
  }

  predicate Bounded(ms: seq<Match>) {
    forall k :: 0 <= k < |ms| ==> ms[k].mm < 100 && ms[k].ss < 100
  }

  /** The entries for the accepted matches among ms, in order. */
  function ItemsOf(line: OCRLine, ms: seq<Match>): seq<TimeItem>
    requires Bounded(ms)
  {
    if ms == [] then []
    else
      var m := ms[|ms| - 1];
      ItemsOf(line, ms[..|ms| - 1]) + (if Accepted(m) then [ItemOf(line, m)] else [])
  }

  lemma ItemsOfSnoc(line: OCRLine, ms: seq<Match>, m: Match)
    requires Bounded(ms) && m.mm < 100 && m.ss < 100
    ensures Bounded(ms + [m])
    ensures ItemsOf(line, ms + [m]) == ItemsOf(line, ms) + (if Accepted(m) then [ItemOf(line, m)] else [])
  {
    assert (ms + [m])[..|ms|] == ms;
  }

  /** The matches of the time pattern on a line's normalised text. */
  function LineMatches(line: OCRLine): (r: seq<Match>)
    ensures Bounded(r)
  {
    FindIter(NormalizedForTime(line.text), 0)
  }

  /** The entries `extract_all_times` records for one line. */
  function LineTimes(line: OCRLine): seq<TimeItem> {
    ItemsOf(line, LineMatches(line))
  }

  /**
   * `extract_all_times(lines)`: the accepted matches of every line, in line
   * order. Every entry is well formed (seconds below 60, `sec == mm * 60 + ss`
   * at most 5999, `norm` the two-digit "MM:SS") and carries the text of one of
   * the lines.
   */
  function AllTimes(lines: seq<OCRLine>): (r: seq<TimeItem>)
    ensures forall t :: t in r ==>
      WellFormedItem(t) && exists j :: 0 <= j < |lines| && t.text == lines[j].text
  {
    TimesFromLines(lines);
    FlatMap(LineTimes, lines)
  }

  /** Every entry of one line is well formed and carries that line's text. */
  lemma {:induction false} ItemsOfWellFormed(line: OCRLine, ms: seq<Match>)
    requires Bounded(ms)
    ensures forall t :: t in ItemsOf(line, ms) ==> WellFormedItem(t) && t.text == line.text
    decreases |ms|
  {
    if ms != [] {
      var init := ms[..|ms| - 1];
      assert Bounded(init);
      ItemsOfWellFormed(line, init);
    }
  }

  lemma TimesFromLines(lines: seq<OCRLine>)
    ensures forall t :: t in FlatMap(LineTimes, lines) ==>
      WellFormedItem(t) && exists j :: 0 <= j < |lines| && t.text == lines[j].text
  {
    FlatMapFrom(LineTimes, lines);
    var all := FlatMap(LineTimes, lines);
    forall t | t in all
      ensures WellFormedItem(t) && exists j :: 0 <= j < |lines| && t.text == lines[j].text
    {
      var j :| 0 <= j < |lines| && t in LineTimes(lines[j]);
      ItemsOfWellFormed(lines[j], LineMatches(lines[j]));
    }
  }

  /** Lines are handled one after another: the entries of a + b are those of a, then those of b. */
  lemma AllTimesAppend(a: seq<OCRLine>, b: seq<OCRLine>)
    ensures AllTimes(a + b) == AllTimes(a) + AllTimes(b)
  {
    FlatMapAppend(LineTimes, a, b);
  }

  /** `has_time`: there is an entry exactly when some line has an accepted match. */
  lemma AllTimesNonEmpty(lines: seq<OCRLine>)
    ensures AllTimes(lines) != [] <==>
      exists j, k :: 0 <= j < |lines| && 0 <= k < |LineMatches(lines[j])| && Accepted(LineMatches(lines[j])[k])
  {
    FlatMapNonEmpty(LineTimes, lines);
    forall j | 0 <= j < |lines|
      ensures LineTimes(lines[j]) != [] <==>
        exists k :: 0 <= k < |LineMatches(lines[j])| && Accepted(LineMatches(lines[j])[k])
    {
      ItemsOfNonEmpty(lines[j], LineMatches(lines[j]));
    }
  }

  lemma {:induction false} ItemsOfNonEmpty(line: OCRLine, ms: seq<Match>)
    requires Bounded(ms)
    ensures ItemsOf(line, ms) != [] <==> exists k :: 0 <= k < |ms| && Accepted(ms[k])
    decreases |ms|
  {
    if ms != [] {
      var init := ms[..|ms| - 1];
      assert Bounded(init);
      ItemsOfNonEmpty(line, init);
      assert forall k :: 0 <= k < |init| ==> init[k] == ms[k];
    }
  }

  /** `extract_all_times(ocr_lines)`: one `finditer` pass per line, appending the accepted matches. */
  method ExtractAllTimes(lines: seq<OCRLine>) returns (items: seq<TimeItem>)
    ensures items == AllTimes(lines)
  {
    items := [];
    for i := 0 to |lines|
      invariant items == AllTimes(lines[..i])
    {
      var line := lines[i];
      var norm := NormalizeForTime(line.text);
      var pos := 0;
      ghost var done: seq<Match> := [];
      ghost var base := items;
      while true
        invariant pos <= |norm|
        invariant Bounded(done)
        invariant done + FindIter(norm, pos) == FindIter(norm, 0)
        invariant items == base + ItemsOf(line, done)
        decreases |norm| - pos
      {
        var m := Search(norm, pos);
        if m.None? {
          break;
        }
        var mt := m.value;
        ItemsOfSnoc(line, done, mt);
        ghost var before := items;
        ghost var add: seq<TimeItem> := if Accepted(mt) then [ItemOf(line, mt)] else [];
        if mt.mm <= 99 && mt.ss < 60 {
          items := items + [ItemOf(line, mt)];
        }
        assert items == before + add;
        Assoc(base, ItemsOf(line, done), add);
        assert items == base + (ItemsOf(line, done) + add);
        assert FindIter(norm, pos) == [mt] + FindIter(norm, mt.end);
        Assoc(done, [mt], FindIter(norm, mt.end));
        done := done + [mt];
        pos := mt.end;
      }
      assert done == LineMatches(line);
      assert lines[..i + 1][..i] == lines[..i];
      assert AllTimes(lines[..i + 1]) == AllTimes(lines[..i]) + LineTimes(line);
    }
    assert lines[..|lines|] == lines;
  }

  /** The largest `sec` among the entries: `max(t['sec'] for t in times)`. */
  function MaxSec(items: seq<TimeItem>): (r: nat)
    requires items != []
    ensures forall k :: 0 <= k < |items| ==> items[k].sec <= r
    ensures exists k :: 0 <= k < |items| && items[k].sec == r
  {
    if |items| == 1 then items[0].sec
    else
      var m := MaxSec(items[..|items| - 1]);
      var last := items[|items| - 1].sec;
      assert forall k :: 0 <= k < |items| - 1 ==> items[..|items| - 1][k] == items[k];
      if last > m then last else m
  }

  /** `has_reached_20_min(lines)`: some accepted reading is at least 20:00. */
  function HasReached20Min(lines: seq<OCRLine>): (r: bool)
    ensures r <==> exists k :: 0 <= k < |AllTimes(lines)| && AllTimes(lines)[k].sec >= TwentyMinutes
  {
    var times := AllTimes(lines);
    if times == [] then false else MaxSec(times) >= TwentyMinutes
  }

  /** `is_time_text(text)`: the pattern matches somewhere in the normalised text; no range check. */
  function IsTimeText(text: string): (r: bool)
    ensures r <==> exists p: nat :: MatchAt(NormalizedForTime(text), p).Some?
  {
    var m := FirstMatch(text);
    if m.Some? then
      assert MatchAt(NormalizedForTime(text), m.value.start).Some?;
      true
    else false
  }

  /** `time_text_filter(text)`: a fresh analyser's `is_time_text`. */
  function TimeTextFilter(text: string): (r: bool)
    ensures r <==> exists p: nat :: MatchAt(NormalizedForTime(text), p).Some?
  {
    IsTimeText(text)
  }

  /** `time_regex.search` on the normalised text: the first match. */
  function FirstMatch(text: string): (r: Option<Match>)
    ensures r.Some? ==> r.value.mm < 100 && r.value.ss < 100
  {
    Search(NormalizedForTime(text), 0)
  }

  /** The seconds of the first match, or None when it is out of range. */
  function SecondsOf(m: Option<Match>): (r: Option<nat>)
    ensures r.Some? <==> m.Some? && Accepted(m.value)
    ensures r.Some? ==> r.value == m.value.mm * 60 + m.value.ss && r.value <= 5999
  {
    if m.None? then None
    else if 0 <= m.value.mm <= 99 && 0 <= m.value.ss < 60 then Some(m.value.mm * 60 + m.value.ss)
    else None
  }

  /** `time(hour, minute, second).strftime("%H:%M:%S")`. */
  function StrfTime(hour: nat, minute: nat, second: nat): (r: string)
    requires hour < 24 && minute < 60 && second < 60
    ensures |r| == 8 && r[2] == ':' && r[5] == ':'
    ensures AllDigits(r[..2]) && DecimalValue(r[..2]) == hour
    ensures AllDigits(r[3..5]) && DecimalValue(r[3..5]) == minute
    ensures AllDigits(r[6..]) && DecimalValue(r[6..]) == second
  {
    var r := Pad2(hour) + ":" + Pad2(minute) + ":" + Pad2(second);
    assert r[..2] == Pad2(hour) && r[3..5] == Pad2(minute) && r[6..] == Pad2(second);
    r
  }

  /**
   * The clock string of the first match: "00:MM:SS"; minutes from 60 up are
   * rejected by `datetime.time` and take the f-string fallback.
   */
  function ClockOf(m: Option<Match>): (r: Option<string>)
    ensures r.Some? <==> m.Some? && Accepted(m.value)
    ensures r.Some? ==> r.value == "00:" + Pad2(m.value.mm) + ":" + Pad2(m.value.ss)
  {
    if m.None? then None
    else
      var mm, ss := m.value.mm, m.value.ss;
      if !(0 <= mm <= 99 && 0 <= ss < 60) then None
      else if mm < 60 then
        assert Pad2(0) + ":" == "00:";
        Some(StrfTime(0, mm, ss))
      else Some("00:" + Pad2(mm) + ":" + Pad2(ss))
  }

  /** Both branches of `extract_time` give "00:MM:SS" for the seconds `extract_time_sec` reads. */
  lemma ClockAgreesWithSeconds(m: Option<Match>)
    ensures ClockOf(m).Some? <==> SecondsOf(m).Some?
    ensures SecondsOf(m).Some? ==>
      var v := SecondsOf(m).value;
      ClockOf(m) == Some("00:" + Pad2(v / 60) + ":" + Pad2(v % 60))
  {
    if SecondsOf(m).Some? {
      var v := SecondsOf(m).value;
      assert v / 60 == m.value.mm && v % 60 == m.value.ss;
      assert Pad2(0) + ":" == "00:";
    }
  }

  /** `extract_time_sec(text)`: the first match only, in seconds, or None when it is out of range. */
  function ExtractTimeSec(text: string): (r: Option<nat>)
    ensures r.Some? ==> IsTimeText(text) && r.value <= 5999
    ensures r.Some? <==> FirstMatch(text).Some? && Accepted(FirstMatch(text).value)
    ensures r.Some? ==> r.value == FirstMatch(text).value.mm * 60 + FirstMatch(text).value.ss
  {
    SecondsOf(FirstMatch(text))
  }

  /** `extract_time(text)`: the first match only, as "00:MM:SS", or None when it is out of range. */
  function ExtractTime(text: string): (r: Option<string>)
    ensures r.Some? ==> IsTimeText(text)
    ensures r.Some? <==> FirstMatch(text).Some? && Accepted(FirstMatch(text).value)
    ensures r.Some? ==>
      var m := FirstMatch(text).value;
      r.value == "00:" + Pad2(m.mm) + ":" + Pad2(m.ss)
  {
    ClockOf(FirstMatch(text))
  }

  /**
   * `extract_time_sec` gives the first entry `extract_all_times` records for
   * the same text, or None when the first match is out of range; then the
   * text is still a time text.
   */
  lemma ExtractTimeSecIsFirstEntry(line: OCRLine)
    ensures var r := ExtractTimeSec(line.text);
      && (r.Some? ==> LineTimes(line) != [] && LineTimes(line)[0].sec == r.value && r.value <= 5999)
      && (r.Some? ==> IsTimeText(line.text))
      && (r.None? && IsTimeText(line.text) ==> !Accepted(LineMatches(line)[0]))
  {
    var s := NormalizedForTime(line.text);
    var ms := LineMatches(line);
    FindIterHead(s, 0);
    assert ms == [] <==> FirstMatch(line.text).None?;
    if ms != [] {
      assert ms[0] == FirstMatch(line.text).value;
      if Accepted(ms[0]) {
        ItemsOfFirst(line, ms);
      }
    }
  }

  lemma {:induction false} ItemsOfFirst(line: OCRLine, ms: seq<Match>)
    requires ms != [] && Bounded(ms) && Accepted(ms[0])
    ensures ItemsOf(line, ms) != [] && ItemsOf(line, ms)[0] == ItemOf(line, ms[0])
    decreases |ms|
  {
    if |ms| > 1 {
      var init := ms[..|ms| - 1];
      assert init[0] == ms[0];
      ItemsOfFirst(line, init);
    }
  }

  /** `extract_time` and `extract_time_sec` accept the same texts and agree on the reading. */
  lemma ExtractTimeAgreesWithSec(text: string)
    ensures ExtractTime(text).Some? <==> ExtractTimeSec(text).Some?
    ensures ExtractTimeSec(text).Some? ==>
      var v := ExtractTimeSec(text).value;
      ExtractTime(text) == Some("00:" + Pad2(v / 60) + ":" + Pad2(v % 60))
  {
    ClockAgreesWithSeconds(FirstMatch(text));
  }

  /** `"01:23"` reads as 83 seconds, and so does its full-width spelling. */
  lemma TimeExampleShort()
    ensures ExtractTimeSec("01:23") == Some(83)
    ensures ExtractTimeSec("０１：２３") == Some(83)
  {
    NormalizedPlain("01:23");
    NormalizeFullWidthExample();
    MatchExample();
  }

  /** `"99:59"` is the largest reading, 5999 seconds. */
  lemma TimeExampleLargest()
    ensures ExtractTimeSec("99:59") == Some(5999)
    ensures ExtractTime("99:59") == Some("00:99:59")
  {
    NormalizedPlain("99:59");
    MatchExampleLargest();
    assert FirstMatch("99:59") == Some(Match(0, 5, 99, 59));
    Pad2Largest();
    assert "00:" + "99" + ":" + "59" == "00:99:59";
  }

  lemma Pad2Largest()
    ensures Pad2(99) == "99" && Pad2(59) == "59"
  {
    assert 99 / 10 == 9 && 99 % 10 == 9;
    assert 59 / 10 == 5 && 59 % 10 == 9;
  }

  /** `"12:75"` is a time text, yet out of range for both extractors. */
  lemma TimeExampleOutOfRange()
    ensures IsTimeText("12:75")
    ensures ExtractTimeSec("12:75") == None && ExtractTime("12:75") == None
  {
    NormalizedPlain("12:75");
    MatchExampleSeconds75();
  }

  /** Four bare digits and a three-digit minute field are no time texts. */
  lemma TimeExampleRejected()
    ensures !IsTimeText("1234") && !IsTimeText("123:45")
  {
    NormalizedPlain("1234");
    NormalizedPlain("123:45");
    NoMatchFourDigits();
    NoMatchThreeMinuteDigits();
  }

  /** word occurs in text at position i. */
  predicate OccursAt(text: string, word: string, i: int) {
    0 <= i && i + |word| <= |text| && text[i..i + |word|] == word
  }

  function ContainsFrom(text: string, word: string, from: nat): (r: bool)
    ensures r <==> exists i :: from <= i && OccursAt(text, word, i)
    decreases |text| - from
  {
    if from + |word| > |text| then false
    else if text[from..from + |word|] == word then
      assert OccursAt(text, word, from);
      true
    else ContainsFrom(text, word, from + 1)
  }

  /** `word in text`. */
  function Contains(text: string, word: string): (r: bool)
    ensures r <==> exists i :: OccursAt(text, word, i)
  {
    ContainsFrom(text, word, 0)
  }

  /** `any(w in text for w in words)`, scanning words in order and stopping at the first hit. */
  function ContainsAny(text: string, words: seq<string>): (r: bool)
    ensures r <==> exists k :: 0 <= k < |words| && Contains(text, words[k])
  {
    if words == [] then false
    else if Contains(text, words[0]) then true
    else
      var r := ContainsAny(text, words[1..]);
      assert forall k :: 1 <= k < |words| ==> words[k] == words[1..][k - 1];
      r
  }

  /**
   * `is_replay_indicator(text)`: no live keyword occurs in the text and some
   * replay keyword does; the comparison is exact, so case matters.
   */
  function IsReplayIndicator(text: string): (r: bool)
    ensures r <==>
      (forall k :: 0 <= k < |LiveKeywords| ==> !Contains(text, LiveKeywords[k])) &&
      (exists k :: 0 <= k < |ReplayKeywords| && Contains(text, ReplayKeywords[k]))
  {
    if ContainsAny(text, LiveKeywords) then false
    else ContainsAny(text, ReplayKeywords)
  }

  /** The single character '播' is enough to flag a line that names no live keyword. */
  lemma BoAloneFlags(text: string)
    requires !ContainsAny(text, LiveKeywords)
    requires Contains(text, "播")
    ensures IsReplayIndicator(text)
  {
    assert ReplayKeywords[0] == "播";
  }

  /** A live keyword always wins, even beside a replay keyword. */
  lemma LiveWins(text: string, k: nat)
    requires k < |LiveKeywords| && Contains(text, LiveKeywords[k])
    ensures !IsReplayIndicator(text)
  {
  }

  /** The line's stripped text is non-empty and a replay indicator. */
  predicate Flags(line: OCRLine) {
    Strip(line.text) != [] && IsReplayIndicator(Strip(line.text))
  }

  /**
   * The indicator recorded for a line: one exactly when its stripped text is
   * non-empty and a replay indicator, holding that stripped text and the
   * line's confidence and box.
   */
  function LineIndicator(line: OCRLine): (r: seq<Indicator>)
    ensures |r| <= 1
    ensures r != [] <==> Flags(line)
    ensures r != [] ==> r[0] == Indicator(Strip(line.text), line.confidence, line.bbox)
  {
    var text := Strip(line.text);
    if text != [] && IsReplayIndicator(text) then [Indicator(text, line.confidence, line.bbox)] else []
  }

  /**
   * The replay indicators `analyze_texts` collects, in line order. Each holds
   * the stripped text of some line, which is non-empty and a replay indicator.
   */
  function Indicators(lines: seq<OCRLine>): (r: seq<Indicator>)
    ensures forall x :: x in r ==>
      exists j :: 0 <= j < |lines| && Flags(lines[j]) && x.text == Strip(lines[j].text)
  {
    IndicatorsFromLines(lines);
    FlatMap(LineIndicator, lines)
  }

  lemma IndicatorsFromLines(lines: seq<OCRLine>)
    ensures forall x :: x in FlatMap(LineIndicator, lines) ==>
      exists j :: 0 <= j < |lines| && Flags(lines[j]) && x.text == Strip(lines[j].text)
  {
    FlatMapFrom(LineIndicator, lines);
    var all := FlatMap(LineIndicator, lines);
    forall x | x in all
      ensures exists j :: 0 <= j < |lines| && Flags(lines[j]) && x.text == Strip(lines[j].text)
    {
      var j :| 0 <= j < |lines| && x in LineIndicator(lines[j]);
      LineIndicatorSound(lines[j], x);
    }
  }

  lemma LineIndicatorSound(line: OCRLine, x: Indicator)
    requires x in LineIndicator(line)
    ensures Flags(line) && x.text == Strip(line.text)
  {
  }

  /** `is_replay` holds exactly when some line's stripped text is a non-empty replay indicator. */
  lemma IndicatorsNonEmpty(lines: seq<OCRLine>)
    ensures Indicators(lines) != [] <==> exists j :: 0 <= j < |lines| && Flags(lines[j])
  {
    FlatMapNonEmpty(LineIndicator, lines);
    assert forall j :: 0 <= j < |lines| ==> (LineIndicator(lines[j]) != [] <==> Flags(lines[j]));
  }

  /** Indicators keep line order: those of a + b are those of a, then those of b. */
  lemma IndicatorsAppend(a: seq<OCRLine>, b: seq<OCRLine>)
    ensures Indicators(a + b) == Indicators(a) + Indicators(b)
  {
    FlatMapAppend(LineIndicator, a, b);
  }

  /** The dictionary `analyze_texts` builds for lines, field by field. */
  function Analyzed(lines: seq<OCRLine>): (r: Analysis)
    ensures r.timeTexts == AllTimes(lines) && r.replayIndicators == Indicators(lines)
    ensures r.hasTime <==> r.timeTexts != []
    ensures r.isReplay <==> r.replayIndicators != []
    ensures r.ge20Min == HasReached20Min(lines)
  {
    var times := AllTimes(lines);
    var indicators := Indicators(lines);
    Analysis(times, indicators, indicators != [], times != [], HasReached20Min(lines),
      if times == [] then None else Some(MaxSec(times)))
  }

  /**
   * `analyze_texts(lines)`: the time entries of every line in order; `has_time`
   * when there is one; `max_time_sec` the largest reading; `ge_20_min` when that
   * reaches twenty minutes, as `has_reached_20_min` says; the replay indicators
   * in line order and `is_replay` when there is one.
   */
  method AnalyzeTexts(lines: seq<OCRLine>) returns (r: Analysis)
    ensures r.timeTexts == AllTimes(lines)
    ensures r.hasTime <==> r.timeTexts != []
    ensures r.maxTimeSec.Some? <==> r.hasTime
    ensures r.maxTimeSec.Some? ==>
      (forall k :: 0 <= k < |r.timeTexts| ==> r.timeTexts[k].sec <= r.maxTimeSec.value) &&
      (exists k :: 0 <= k < |r.timeTexts| && r.timeTexts[k].sec == r.maxTimeSec.value)
    ensures r.ge20Min <==> r.maxTimeSec.Some? && r.maxTimeSec.value >= TwentyMinutes
    ensures r.ge20Min == HasReached20Min(lines)
    ensures r.replayIndicators == Indicators(lines)
    ensures r.isReplay <==> r.replayIndicators != []
    ensures r == Analyzed(lines)
  {
    r := Analysis([], [], false, false, false, None);
    var allTimes := ExtractAllTimes(lines);
    if allTimes != [] {
      var mx := MaxSec(allTimes);
      r := r.(timeTexts := allTimes, hasTime := true, maxTimeSec := Some(mx), ge20Min := mx >= TwentyMinutes);
    }
    ghost var timesPart := r;
    for i := 0 to |lines|
      invariant r.replayIndicators == Indicators(lines[..i])
      invariant r.isReplay <==> r.replayIndicators != []
      invariant r.(replayIndicators := [], isReplay := false) == timesPart
    {
      assert lines[..i + 1][..i] == lines[..i];
      assert Indicators(lines[..i + 1]) == Indicators(lines[..i]) + LineIndicator(lines[i]);
      var line := lines[i];
      var text := Strip(line.text);
      if text == [] {
        continue;
      }
      if IsReplayIndicator(text) {
        r := r.(replayIndicators := r.replayIndicators + [Indicator(text, line.confidence, line.bbox)], isReplay := true);
      }
    }
    assert lines[..|lines|] == lines;
  }
}
