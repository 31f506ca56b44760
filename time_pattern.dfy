/**
 * The time regex of `ContentAnalyzer`,
 * `(?<!\d)(\d{1,2})[:：. ][\s]?(\d{2})(?!\d)`, as an explicit scanner:
 * a match at one position, `search` (the first match) and `finditer` (the
 * left-to-right, non-overlapping matches).
 */
module TimePattern {
  import opened Wrappers
  import opened TextNormalize

  /** The separator class `[\:：\.  ]`. */
  predicate IsSep(c: char) {
    c == ':' || c == '：' || c == '.' || c == ' '
  }

  /** A match: its span `[start, end)` and the values of its two groups. */
  datatype Match = Match(start: nat, end: nat, mm: nat, ss: nat)

  predicate AllDigits(s: string) {
    forall i :: 0 <= i < |s| ==> IsDigit(s[i])
  }

  /** `int()` of a string of ASCII digits. */
  function DecimalValue(s: string): (r: nat)
    requires AllDigits(s)
    ensures |s| == 0 ==> r == 0
    ensures |s| <= 1 ==> r < 10
    ensures |s| <= 2 ==> r < 100
  {
    if s == [] then 0
    else DecimalValue(s[..|s| - 1]) * 10 + (s[|s| - 1] as int - '0' as int)
  }

  /**
   * The pattern read literally: at position i, n minute digits (1 or 2), one
   * separator, w whitespace characters (0 or 1) and two second digits, ending
   * at j; no digit just before i and none at j.
   */
  predicate PatternAt(s: string, i: nat, n: nat, w: nat, j: nat) {
    && 1 <= n <= 2 && w <= 1 && j == i + n + w + 3 && j <= |s|
    && AllDigits(s[i..i + n])
    && IsSep(s[i + n])
    && (w == 1 ==> IsSpace(s[i + n + 1]))
    && IsDigit(s[j - 2]) && IsDigit(s[j - 1])
    && (i == 0 || !IsDigit(s[i - 1]))
    && (j == |s| || !IsDigit(s[j]))
  }

  /**
   * The regex tried at position i. No digit is a separator or whitespace, so
   * the greedy choices (two minute digits before one, the optional whitespace
   * taken when present) are the only ones that can succeed and no
   * backtracking is needed.
   */
  function MatchAt(s: string, i: nat): (r: Option<Match>)
    ensures r.Some? ==> r.value.start == i && i < r.value.end <= |s|
    ensures r.Some? ==> r.value.mm < 100 && r.value.ss < 100
  {
    if !(i < |s| && IsDigit(s[i]) && (i == 0 || !IsDigit(s[i - 1]))) then None
    else
      var n := if i + 1 < |s| && IsDigit(s[i + 1]) then 2 else 1;
      if !(i + n < |s| && IsSep(s[i + n])) then None
      else
        var w := if i + n + 1 < |s| && IsSpace(s[i + n + 1]) then 1 else 0;
        var j := i + n + w + 3;
        if j <= |s| && IsDigit(s[j - 2]) && IsDigit(s[j - 1]) && (j == |s| || !IsDigit(s[j])) then
          Some(Match(i, j, DecimalValue(s[i..i + n]), DecimalValue(s[j - 2..j])))
        else None
  }

  /**
   * The scanner agrees with the pattern in both directions: it matches at i
   * exactly when the pattern can, the decomposition is unique, and the groups
   * are the digits the pattern names.
   */
  lemma MatchAtIsPattern(s: string, i: nat)
    ensures MatchAt(s, i).Some? ==>
      exists n, w :: PatternAt(s, i, n, w, MatchAt(s, i).value.end)
    ensures forall n: nat, w: nat, j: nat :: PatternAt(s, i, n, w, j) ==>
      && AllDigits(s[i..i + n]) && AllDigits(s[j - 2..j])
      && MatchAt(s, i) == Some(Match(i, j, DecimalValue(s[i..i + n]), DecimalValue(s[j - 2..j])))
  {
    if MatchAt(s, i).Some? {
      var n := if i + 1 < |s| && IsDigit(s[i + 1]) then 2 else 1;
      var w := if i + n + 1 < |s| && IsSpace(s[i + n + 1]) then 1 else 0;
      assert PatternAt(s, i, n, w, MatchAt(s, i).value.end);
    }
    forall n: nat, w: nat, j: nat | PatternAt(s, i, n, w, j)
      ensures AllDigits(s[i..i + n]) && AllDigits(s[j - 2..j])
      ensures MatchAt(s, i) == Some(Match(i, j, DecimalValue(s[i..i + n]), DecimalValue(s[j - 2..j])))
    {
      PatternIsMatch(s, i, n, w, j);
    }
  }

  /** Where the pattern holds, the scanner took the same number of minute digits and spaces. */
  lemma PatternIsMatch(s: string, i: nat, n: nat, w: nat, j: nat)
    requires PatternAt(s, i, n, w, j)
    ensures AllDigits(s[i..i + n]) && AllDigits(s[j - 2..j])
    ensures MatchAt(s, i) == Some(Match(i, j, DecimalValue(s[i..i + n]), DecimalValue(s[j - 2..j])))
  {
    assert IsDigit(s[i]) by { assert s[i..i + n][0] == s[i]; }
    if n == 2 {
      assert IsDigit(s[i + 1]) by { assert s[i..i + n][1] == s[i + 1]; }
    } else {
      assert !IsDigit(s[i + 1]);
    }
    if w == 0 {
      assert !IsSpace(s[i + n + 1]);
    }
  }

  /**
   * `time_regex.search(s, from)`: the match at the smallest position at or
   * after `from`, or None when there is none.
   */
  function Search(s: string, from: nat): (r: Option<Match>)
    ensures r.Some? ==> from <= r.value.start && MatchAt(s, r.value.start) == r
    ensures r.Some? ==> forall k: nat :: from <= k < r.value.start ==> MatchAt(s, k).None?
    ensures r.None? ==> forall k: nat :: from <= k ==> MatchAt(s, k).None?
    decreases |s| - from
  {
    if from >= |s| then None
    else if MatchAt(s, from).Some? then MatchAt(s, from)
    else Search(s, from + 1)
  }

  /**
   * `time_regex.finditer(s)` from position `from`: the matches in order, each
   * a match of the pattern at or after `from`, each starting where the previous
   * one ended or later.
   */
  function FindIter(s: string, from: nat): (r: seq<Match>)
    ensures forall k :: 0 <= k < |r| ==> from <= r[k].start && MatchAt(s, r[k].start) == Some(r[k])
    ensures forall k :: 0 <= k < |r| - 1 ==> r[k].end <= r[k + 1].start
    decreases |s| - from
  {
    match Search(s, from)
    case None => []
    case Some(m) =>
      var rest := FindIter(s, m.end);
      var r := [m] + rest;
      assert forall k :: 0 <= k < |rest| ==> r[k + 1] == rest[k];
      r
  }

  /**
   * `finditer` skips no match: every position at or after `from` where the
   * pattern matches either starts one of the matches found or lies inside one.
   */
  lemma {:induction false} FindIterComplete(s: string, from: nat, p: nat)
    requires from <= p && MatchAt(s, p).Some?
    ensures exists k ::
      (0 <= k < |FindIter(s, from)| && FindIter(s, from)[k].start <= p < FindIter(s, from)[k].end)
    decreases |s| - from
  {
    var m := Search(s, from).value;
    var r := FindIter(s, from);
    assert r[0] == m;
    if p >= m.end {
      FindIterComplete(s, m.end, p);
      var rest := FindIter(s, m.end);
      var k :| 0 <= k < |rest| && rest[k].start <= p < rest[k].end;
      assert r[k + 1] == rest[k];
    }
  }

  /** The first element of `finditer` is what `search` finds. */
  lemma FindIterHead(s: string, from: nat)
    ensures FindIter(s, from) == [] <==> Search(s, from).None?
    ensures Search(s, from).Some? ==> FindIter(s, from)[0] == Search(s, from).value
  {
  }

  /** Four bare digits are no time: the digit guards stop "12" and "34" being read apart. */
  lemma NoMatchFourDigits()
    ensures Search("1234", 0).None?
  {
    assert MatchAt("1234", 0).None?;
    assert MatchAt("1234", 1).None?;
    assert MatchAt("1234", 2).None?;
    assert MatchAt("1234", 3).None?;
  }

  /** Three minute digits are no time either: "123:45" has no match. */
  lemma NoMatchThreeMinuteDigits()
    ensures Search("123:45", 0).None?
  {
    assert MatchAt("123:45", 0).None?;
    assert MatchAt("123:45", 1).None?;
    assert MatchAt("123:45", 2).None?;
    assert MatchAt("123:45", 3).None?;
    assert MatchAt("123:45", 4).None?;
    assert MatchAt("123:45", 5).None?;
  }

  /** "01:23" is one match with groups 1 and 23. */
  lemma MatchExample()
    ensures Search("01:23", 0) == Some(Match(0, 5, 1, 23))
  {
    assert "01:23"[0..2] == "01";
    assert "01:23"[3..5] == "23";
    assert "01"[..1] == "0" && "23"[..1] == "2";
    assert DecimalValue("01") == 1;
    assert DecimalValue("23") == 23;
    assert MatchAt("01:23", 0) == Some(Match(0, 5, 1, 23));
  }

  /** "99:59" is the largest two-digit reading. */
  lemma MatchExampleLargest()
    ensures Search("99:59", 0) == Some(Match(0, 5, 99, 59))
  {
    assert "99:59"[0..2] == "99";
    assert "99:59"[3..5] == "59";
    assert "99"[..1] == "9" && "59"[..1] == "5";
    assert DecimalValue("99") == 99;
    assert DecimalValue("59") == 59;
    assert MatchAt("99:59", 0) == Some(Match(0, 5, 99, 59));
  }

  /** "12:75" matches the pattern; the seconds group is 75. */
  lemma MatchExampleSeconds75()
    ensures Search("12:75", 0) == Some(Match(0, 5, 12, 75))
  {
    assert "12:75"[0..2] == "12";
    assert "12:75"[3..5] == "75";
    assert "12"[..1] == "1" && "75"[..1] == "7";
    assert DecimalValue("12") == 12;
    assert DecimalValue("75") == 75;
    assert MatchAt("12:75", 0) == Some(Match(0, 5, 12, 75));
  }
}
