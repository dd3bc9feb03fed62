/**
 * The handful of Python `str` operations the core relies on, on `seq<char>`:
 * `strip`, `startswith`, `endswith`, `find`, `in`, `join`, `lower` and
 * `replace` of single characters.
 */
module Text {

  /** The characters for which Python's `str.isspace()` holds; `str.strip()`
      without an argument removes exactly these from both ends. */
  predicate IsSpace(c: char) {
    || ('\t' <= c <= '\r')
    || ('\U{001C}' <= c <= ' ')
    || c == '\U{0085}' || c == '\U{00A0}' || c == '\U{1680}'
    || ('\U{2000}' <= c <= '\U{200A}')
    || c == '\U{2028}' || c == '\U{2029}' || c == '\U{202F}' || c == '\U{205F}'
    || c == '\U{3000}'
  }

  /** Python's `not s.strip()`: the string is empty or all whitespace. */
  predicate IsBlank(s: string) {
    forall i :: 0 <= i < |s| ==> IsSpace(s[i])
  }

  /** The characters a strip removes: whitespace (`s.strip()`) or one
      given character (`s.strip(c)`). */
  datatype Chars = Whitespace | Only(c: char)

  predicate Drops(chars: Chars, c: char) {
    match chars
    case Whitespace => IsSpace(c)
    case Only(d) => c == d
  }

  /** Neither end of `s` is in `chars`. */
  predicate Trimmed(s: string, chars: Chars) {
    s != [] ==> !Drops(chars, s[0]) && !Drops(chars, s[|s| - 1])
  }

  /** Removes the leading characters in `chars` (`str.lstrip`). */
  function TrimStart(s: string, chars: Chars): (r: string)
    ensures |r| <= |s| && r == s[|s| - |r|..]
    ensures r != [] ==> !Drops(chars, r[0])
    ensures forall i :: 0 <= i < |s| - |r| ==> Drops(chars, s[i])
  {
    if s != [] && Drops(chars, s[0]) then TrimStart(s[1..], chars) else s
  }

  /** Removes the trailing characters in `chars` (`str.rstrip`). */
  function TrimEnd(s: string, chars: Chars): (r: string)
    ensures |r| <= |s| && r == s[..|r|]
    ensures r != [] ==> !Drops(chars, r[|r| - 1])
    ensures forall i :: |r| <= i < |s| ==> Drops(chars, s[i])
  {
    if s != [] && Drops(chars, s[|s| - 1]) then TrimEnd(s[..|s| - 1], chars) else s
  }

  /** Removes the characters in `chars` from both ends: the result is
      the slice of `s` between the first and the last kept character. */
  function StripWhere(s: string, chars: Chars): (r: string)
    ensures |r| <= |s|
    ensures Trimmed(r, chars)
    ensures r == [] <==> forall i :: 0 <= i < |s| ==> Drops(chars, s[i])
  {
    var t := TrimStart(s, chars);
    var r := TrimEnd(t, chars);
    r
  }

  /** Where the text kept by `StripWhere` begins. */
  function StripStart(s: string, chars: Chars): nat {
    |s| - |TrimStart(s, chars)|
  }

  /** What `StripWhere` keeps is the slice of `s` from `StripStart`. */
  lemma StripWhereIsSlice(s: string, chars: Chars)
    ensures var r := StripWhere(s, chars);
      StripStart(s, chars) + |r| <= |s| && r == s[StripStart(s, chars)..StripStart(s, chars) + |r|]
  {
  }

  /** Everything `StripWhere` cuts off, before and after what it keeps, is
      in `chars`. */
  lemma StripWhereDrops(s: string, chars: Chars)
    ensures var o := StripStart(s, chars); var r := StripWhere(s, chars);
      && (forall i :: 0 <= i < o ==> Drops(chars, s[i]))
      && (forall i :: o + |r| <= i < |s| ==> Drops(chars, s[i]))
  {
    var t := TrimStart(s, chars);
    var r := TrimEnd(t, chars);
    var o := |s| - |t|;
    assert t == s[o..];
    forall i | o + |r| <= i < |s|
      ensures Drops(chars, s[i])
    {
      assert s[i] == t[i - o];
    }
  }

  /** Python's `s.strip()`. */
  function Strip(s: string): (r: string)
    ensures |r| <= |s|
    ensures r == [] <==> IsBlank(s)
    ensures r != [] ==> !IsSpace(r[0]) && !IsSpace(r[|r| - 1])
  {
    var r := StripWhere(s, Whitespace);
    assert r != [] ==> !IsSpace(r[0]) && !IsSpace(r[|r| - 1]) by {
      assert Trimmed(r, Whitespace);
    }
    assert r == [] <==> IsBlank(s) by {
      assert r == [] <==> forall i :: 0 <= i < |s| ==> Drops(Whitespace, s[i]);
    }
    r
  }

  /** Stripping leaves alone a string whose end characters are kept. */
  lemma {:induction false} StripWhereFixed(s: string, chars: Chars)
    requires Trimmed(s, chars)
    ensures StripWhere(s, chars) == s
  {
    assert TrimStart(s, chars) == s;
    assert TrimEnd(s, chars) == s;
  }

  /** `strip` leaves alone a string that neither starts nor ends with whitespace. */
  lemma StripFixed(s: string)
    requires s != [] ==> !IsSpace(s[0]) && !IsSpace(s[|s| - 1])
    ensures Strip(s) == s
  {
    StripWhereFixed(s, Whitespace);
  }

  /** `strip` is idempotent. */
  lemma StripIdempotent(s: string)
    ensures Strip(Strip(s)) == Strip(s)
  {
    StripWhereFixed(Strip(s), Whitespace);
  }

  predicate StartsWith(s: string, prefix: string) {
    |prefix| <= |s| && s[..|prefix|] == prefix
  }

  predicate EndsWith(s: string, suffix: string) {
    |suffix| <= |s| && s[|s| - |suffix|..] == suffix
  }

  /** `pat` occurs in `s` starting at index `i`. */
  predicate OccursAt(s: string, pat: string, i: int) {
    0 <= i && i + |pat| <= |s| && s[i..i + |pat|] == pat
  }

  /** Python's `pat in s`. */
  predicate Contains(s: string, pat: string) {
    exists i :: 0 <= i <= |s| && OccursAt(s, pat, i)
  }

  /** The first occurrence of `pat` in `s` at or after `from`, or -1. */
  function FindFrom(s: string, pat: string, from: nat): (r: int)
    requires from <= |s|
    ensures r == -1 || (from <= r && OccursAt(s, pat, r))
    ensures r == -1 ==> forall i :: from <= i ==> !OccursAt(s, pat, i)
    ensures r != -1 ==> forall i :: from <= i < r ==> !OccursAt(s, pat, i)
    decreases |s| - from
  {
    if OccursAt(s, pat, from) then from
    else if from == |s| then -1
    else FindFrom(s, pat, from + 1)
  }

  /** Python's `s.find(pat)`: the lowest index where `pat` occurs, or -1. */
  function Find(s: string, pat: string): (r: int)
    ensures r == -1 <==> !Contains(s, pat)
    ensures r != -1 ==> OccursAt(s, pat, r) && forall i :: 0 <= i < r ==> !OccursAt(s, pat, i)
  {
    FindFrom(s, pat, 0)
  }

  /** Python's `sep.join(parts)`. */
  function Join(parts: seq<string>, sep: string): string {
    if |parts| == 0 then []
    else if |parts| == 1 then parts[0]
    else parts[0] + sep + Join(parts[1..], sep)
  }

  /** ASCII case folding of one character. */
  function LowerChar(c: char): char {
    if 'A' <= c <= 'Z' then (c as int + 32) as char else c
  }

  /** Python's `s.lower()`, restricted to ASCII letters. */
  function Lower(s: string): (r: string)
    ensures |r| == |s|
    ensures forall i :: 0 <= i < |s| ==> r[i] == LowerChar(s[i])
  {
    seq(|s|, i requires 0 <= i < |s| => LowerChar(s[i]))
  }

  /** `text.replace(from, to)` for single characters. */
  function Replace(text: string, from: char, to: char): (r: string)
    ensures |r| == |text|
    ensures forall i :: 0 <= i < |text| ==> r[i] == (if text[i] == from then to else text[i])
  {
    seq(|text|, i requires 0 <= i < |text| => if text[i] == from then to else text[i])
  }

  /** Python's `min` and `max` of two integers. */
  function Min(a: int, b: int): int {
    if a <= b then a else b
  }

  function Max(a: int, b: int): int {
    if a >= b then a else b
  }

  /** Where Python's slice `text[lo:hi]` stops, for a text of length `n`: a
      negative `hi` counts from the end. */
  function SliceEnd(n: nat, hi: int): (e: nat)
    ensures e <= n
    ensures 0 <= hi <= n ==> e == hi
  {
    if hi < 0 then (if hi + n < 0 then 0 else hi + n)
    else if hi > n then n
    else hi
  }

  /** Python's `text[lo:hi]` for a start `lo` inside the text: a negative
      end counts from the end of the text, an end past the text stops at it,
      and an end at or before the start gives nothing. */
  function PySlice(text: string, lo: nat, hi: int): (r: string)
    requires lo <= |text|
    ensures lo <= hi <= |text| ==> r == text[lo..hi]
    ensures hi <= lo && 0 <= hi ==> r == []
    ensures hi > |text| ==> r == text[lo..]
    ensures hi < 0 && lo <= |text| + hi ==> r == text[lo..|text| + hi]
    ensures hi < 0 && |text| + hi < lo ==> r == []
  {
    var e := SliceEnd(|text|, hi);
    if e <= lo then [] else text[lo..e]
  }
}
