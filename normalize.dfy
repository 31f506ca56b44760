/**
 * Character classes and text clean-up used by `ContentAnalyzer`: the
 * whitespace of `str.strip()` and `\s`, ASCII digits, the full-width folding of
 * NFKC, and `_normalize_for_time`.
 */
module TextNormalize {

  /** `str.isspace()`: the characters Python's `strip()` removes and `\s` matches. */
  predicate IsSpace(c: char) {
    || c == '\t' || c == '\n' || c == '\U{000B}' || c == '\U{000C}' || c == '\r'
    || ('\U{001C}' <= c <= '\U{001F}') || c == ' ' || c == '\U{0085}' || c == '\U{00A0}'
    || c == '\U{1680}' || ('\U{2000}' <= c <= '\U{200A}') || c == '\U{2028}' || c == '\U{2029}'
    || c == '\U{202F}' || c == '\U{205F}' || c == '\U{3000}'
  }

  /** `\d`, restricted to the ASCII digits. */
  predicate IsDigit(c: char) {
    '0' <= c <= '9'
  }

  /** The full-width forms U+FF01..U+FF5E and the ideographic space U+3000. */
  predicate IsWide(c: char) {
    ('\U{FF01}' <= c <= '\U{FF5E}') || c == '\U{3000}'
  }

  /** NFKC on one character, for the full-width forms: U+FF01..U+FF5E to ASCII, U+3000 to a space. */
  function Nfkc(c: char): (r: char)
    ensures !IsWide(r)
    ensures IsWide(c) ==> '!' <= r <= '~' || r == ' '
    ensures !IsWide(c) ==> r == c
  {
    if '\U{FF01}' <= c <= '\U{FF5E}' then (c as int - 0xFEE0) as char
    else if c == '\U{3000}' then ' '
    else c
  }

  /** `unicodedata.normalize('NFKC', text)` on text whose only compatibility forms are full-width ones. */
  function NfkcText(s: string): (r: string)
    ensures |r| == |s|
    ensures forall i :: 0 <= i < |s| ==> r[i] == Nfkc(s[i])
  {
    seq(|s|, i requires 0 <= i < |s| => Nfkc(s[i]))
  }

  /** The replacement table of `_normalize_for_time`, in its iteration order. */
  const Replacements: seq<(char, char)> := [
    ('O', '0'), ('o', '0'), ('〇', '0'), ('零', '0'),
    ('：', ':'), ('。', '.'), ('．', '.'), ('·', '.')
  ]

  /** The characters `_normalize_for_time` replaces. */
  predicate IsConfusable(c: char) {
    c == 'O' || c == 'o' || c == '〇' || c == '零' || c == '：' || c == '。' || c == '．' || c == '·'
  }

  /** What a single character becomes: the reference for the whole replacement table. */
  function FoldChar(c: char): (r: char)
    ensures !IsConfusable(r)
    ensures IsConfusable(c) ==> r in {'0', ':', '.'}
    ensures !IsConfusable(c) ==> r == c
  {
    if c == 'O' || c == 'o' || c == '〇' || c == '零' then '0'
    else if c == '：' then ':'
    else if c == '。' || c == '．' || c == '·' then '.'
    else c
  }

  /** The text `_normalize_for_time` returns, character by character. */
  function NormalizedForTime(text: string): (r: string)
    ensures |r| == |text|
    ensures forall i :: 0 <= i < |text| ==> r[i] == FoldChar(Nfkc(text[i]))
  {
    seq(|text|, i requires 0 <= i < |text| => FoldChar(Nfkc(text[i])))
  }

  /** `str.replace(k, v)` for single characters. */
  function ReplaceChar(s: string, k: char, v: char): (r: string)
    ensures |r| == |s|
    ensures forall i :: 0 <= i < |s| ==> r[i] == if s[i] == k then v else s[i]
  {
    seq(|s|, i requires 0 <= i < |s| => if s[i] == k then v else s[i])
  }

  /** A character after the first n replacements of the table. */
  function ApplyFirst(n: nat, c: char): char
    requires n <= |Replacements|
  {
    if n == 0 then c
    else
      var d := ApplyFirst(n - 1, c);
      if d == Replacements[n - 1].0 then Replacements[n - 1].1 else d
  }

  /** Running the whole table in order is the single-character fold: no value is a later key. */
  lemma ApplyAll(c: char)
    ensures ApplyFirst(|Replacements|, c) == FoldChar(c)
  {
    assert Replacements[0] == ('O', '0');
    assert ApplyFirst(0, c) == c;
    var d1 := ApplyFirst(1, c);
    assert d1 == if c == 'O' then '0' else c;
    var d2 := ApplyFirst(2, c);
    assert d2 == if d1 == 'o' then '0' else d1;
    var d3 := ApplyFirst(3, c);
    assert d3 == if d2 == '〇' then '0' else d2;
    var d4 := ApplyFirst(4, c);
    assert d4 == if d3 == '零' then '0' else d3;
    var d5 := ApplyFirst(5, c);
    assert d5 == if d4 == '：' then ':' else d4;
    var d6 := ApplyFirst(6, c);
    assert d6 == if d5 == '。' then '.' else d5;
    var d7 := ApplyFirst(7, c);
    assert d7 == if d6 == '．' then '.' else d6;
    assert ApplyFirst(8, c) == if d7 == '·' then '.' else d7;
  }

  /** `_normalize_for_time(text)`: NFKC, then each replacement of the table in turn. */
  method NormalizeForTime(text: string) returns (t: string)
    ensures t == NormalizedForTime(text)
  {
    var n := NfkcText(text);
    t := n;
    var i := 0;
    while i < |Replacements|
      invariant 0 <= i <= |Replacements|
      invariant |t| == |n|
      invariant forall j :: 0 <= j < |t| ==> t[j] == ApplyFirst(i, n[j])
    {
      var (k, v) := Replacements[i];
      t := ReplaceChar(t, k, v);
      i := i + 1;
    }
    forall j | 0 <= j < |t|
      ensures t[j] == NormalizedForTime(text)[j]
    {
      ApplyAll(n[j]);
    }
  }

  /** After normalisation no confusable and no full-width character is left. */
  lemma NormalizedIsClean(text: string)
    ensures forall i :: 0 <= i < |text| ==>
      !IsConfusable(NormalizedForTime(text)[i]) && !IsWide(NormalizedForTime(text)[i])
  {
    forall i | 0 <= i < |text|
      ensures !IsWide(NormalizedForTime(text)[i])
    {
      var c := Nfkc(text[i]);
      assert !IsWide(c);
    }
  }

  /** Normalisation is idempotent. */
  lemma NormalizedIdempotent(text: string)
    ensures NormalizedForTime(NormalizedForTime(text)) == NormalizedForTime(text)
  {
    NormalizedIsClean(text);
  }

  /** Full-width digits and colon normalise to their ASCII forms. */
  lemma NormalizeFullWidthExample()
    ensures NormalizedForTime("０１：２３") == "01:23"
  {
  }

  /** Text made of ASCII digits and colons is left as it is. */
  lemma NormalizedPlain(text: string)
    requires forall i :: 0 <= i < |text| ==> IsDigit(text[i]) || text[i] == ':'
    ensures NormalizedForTime(text) == text
  {
  }

  /** Nothing but whitespace in s. */
  predicate AllSpace(s: string) {
    forall i :: 0 <= i < |s| ==> IsSpace(s[i])
  }

  /** The number of whitespace characters s begins with. */
  function LeadingSpaces(s: string): (n: nat)
    ensures n <= |s|
    ensures forall i :: 0 <= i < n ==> IsSpace(s[i])
    ensures n == |s| || !IsSpace(s[n])
  {
    if s != [] && IsSpace(s[0]) then
      var k := LeadingSpaces(s[1..]);
      assert forall i :: 1 <= i < 1 + k ==> s[i] == s[1..][i - 1];
      1 + k
    else 0
  }

  /** s with its leading whitespace removed. */
  function TrimStart(s: string): (r: string)
    ensures |r| <= |s| && r == s[|s| - |r|..]
    ensures AllSpace(s[..|s| - |r|])
    ensures r == [] || !IsSpace(r[0])
  {
    s[LeadingSpaces(s)..]
  }

  /** The length of s without its trailing whitespace. */
  function KeptLength(s: string): (n: nat)
    ensures n <= |s|
    ensures forall i :: n <= i < |s| ==> IsSpace(s[i])
    ensures n == 0 || !IsSpace(s[n - 1])
  {
    if s != [] && IsSpace(s[|s| - 1]) then
      var k := KeptLength(s[..|s| - 1]);
      assert forall i :: k <= i < |s| - 1 ==> s[i] == s[..|s| - 1][i];
      k
    else |s|
  }

  /** s with its trailing whitespace removed. */
  function TrimEnd(s: string): (r: string)
    ensures |r| <= |s| && r == s[..|r|]
    ensures AllSpace(s[|r|..])
    ensures r == [] || !IsSpace(r[|r| - 1])
  {
    s[..KeptLength(s)]
  }

  /**
   * `str.strip()`: s without its leading and trailing whitespace; what is left
   * neither begins nor ends with whitespace, and is empty just when s is all
   * whitespace.
   */
  function Strip(s: string): (r: string)
    ensures r == [] || (!IsSpace(r[0]) && !IsSpace(r[|r| - 1]))
    ensures r == [] <==> AllSpace(s)
  {
    var t := TrimStart(s);
    assert s == s[..|s| - |t|] + t;
    TrimEnd(t)
  }

  /** What `Strip` keeps is a contiguous part of s, and only whitespace is cut off either side. */
  lemma StripInfix(s: string)
    ensures exists a, b :: 0 <= a <= b <= |s| && Strip(s) == s[a..b] && AllSpace(s[..a]) && AllSpace(s[b..])
  {
    var t := TrimStart(s);
    var r := TrimEnd(t);
    var a := |s| - |t|;
    var b := a + |r|;
    assert t == s[a..];
    assert r == t[..|r|];
    SliceOfSuffix(s, a, |r|);
    assert Strip(s) == r;
    assert Strip(s) == s[a..b] && AllSpace(s[..a]) && AllSpace(s[b..]);
  }

  lemma SliceOfSuffix<T>(s: seq<T>, a: nat, n: nat)
    requires a + n <= |s|
    ensures s[a..][..n] == s[a..a + n] && s[a..][n..] == s[a + n..]
  {
  }
}
