/**
 * The Python string operations the downloader relies on, over `string`
 * (a sequence of Unicode characters): `str.isspace`, `str.upper` (ASCII
 * letters), `str.replace`, `str.split()`, `str.split(sep)`, `str.strip`,
 * `str.rstrip`, the `in` test for substrings, `sep.join`, `str.isdigit`
 * (ASCII digits), `int(text)` on digit strings and `str(n)` on naturals.
 */
module Text {

  /** The characters Python's `str.split()` and `str.strip()` treat as whitespace. */
  predicate IsSpace(c: char) {
    c == ' ' || '\U{9}' <= c <= '\U{d}' || '\U{1c}' <= c <= '\U{1f}'
    || c == '\U{85}' || c == '\U{a0}' || c == '\U{1680}'
    || '\U{2000}' <= c <= '\U{200a}' || c == '\U{2028}' || c == '\U{2029}'
    || c == '\U{202f}' || c == '\U{205f}' || c == '\U{3000}'
  }

  predicate NoSpace(s: string) {
    forall i :: 0 <= i < |s| ==> !IsSpace(s[i])
  }

  predicate IsLower(c: char) {
    'a' <= c <= 'z'
  }

  function UpperChar(c: char): (r: char)
    ensures !IsLower(r)
    ensures !IsLower(c) ==> r == c
  {
    if IsLower(c) then (c as int - 32) as char else c
  }

  /** `s.upper()`, restricted to the ASCII letters. */
  function Upper(s: string): (r: string)
    ensures |r| == |s|
    ensures forall i :: 0 <= i < |r| ==> !IsLower(r[i])
    ensures forall i :: 0 <= i < |s| ==> r[i] == UpperChar(s[i])
  {
    seq(|s|, i requires 0 <= i < |s| => UpperChar(s[i]))
  }

  lemma UpperKeeps(s: string)
    requires forall i :: 0 <= i < |s| ==> !IsLower(s[i])
    ensures Upper(s) == s
  {
  }

  predicate StartsWith(s: string, prefix: string) {
    |prefix| <= |s| && s[..|prefix|] == prefix
  }

  /** Python's `sub in s`. */
  predicate Contains(s: string, sub: string)
    decreases |s|
  {
    StartsWith(s, sub) || (s != [] && Contains(s[1..], sub))
  }

  /** A string that lacks one of the characters of `sub` cannot contain `sub`. */
  lemma {:induction false} MissingCharNotContained(s: string, sub: string, k: nat)
    requires k < |sub|
    requires forall i :: 0 <= i < |s| ==> s[i] != sub[k]
    ensures !Contains(s, sub)
    decreases |s|
  {
    if |sub| <= |s| {
      assert s[..|sub|][k] != sub[k];
    }
    if s != [] {
      MissingCharNotContained(s[1..], sub, k);
    }
  }

  /** `s.replace(pat, rep)`: leftmost, non-overlapping occurrences, scanned left to right. */
  function ReplaceAll(s: string, pat: string, rep: string): (r: string)
    requires pat != []
    ensures !Contains(s, pat) ==> r == s
    decreases |s|
  {
    if s == [] then []
    else if StartsWith(s, pat) then rep + ReplaceAll(s[|pat|..], pat, rep)
    else [s[0]] + ReplaceAll(s[1..], pat, rep)
  }

  /** Replacing a single character distributes over concatenation. */
  lemma {:induction false} ReplaceCharAppend(a: string, b: string, c: char, rep: string)
    ensures ReplaceAll(a + b, [c], rep) == ReplaceAll(a, [c], rep) + ReplaceAll(b, [c], rep)
    decreases |a|
  {
    if a != [] {
      assert (a + b)[1..] == a[1..] + b;
      assert StartsWith(a + b, [c]) <==> StartsWith(a, [c]);
      ReplaceCharAppend(a[1..], b, c, rep);
    } else {
      assert a + b == b;
    }
  }

  /** `s.replace(c, d)` for single characters replaces each `c` by `d` and keeps every other character in place. */
  lemma {:induction false} ReplaceCharMap(s: string, c: char, d: char)
    ensures |ReplaceAll(s, [c], [d])| == |s|
    ensures forall i :: 0 <= i < |s| ==> ReplaceAll(s, [c], [d])[i] == (if s[i] == c then d else s[i])
    decreases |s|
  {
    if s != [] {
      ReplaceCharMap(s[1..], c, d);
      var r := ReplaceAll(s, [c], [d]);
      assert r == [if s[0] == c then d else s[0]] + ReplaceAll(s[1..], [c], [d]);
    }
  }

  /** `s.replace(c, "")` deletes every `c` and keeps every other character. */
  lemma {:induction false} DeleteChar(s: string, c: char)
    ensures forall x :: x in ReplaceAll(s, [c], []) <==> x in s && x != c
    decreases |s|
  {
    if s != [] {
      DeleteChar(s[1..], c);
      if s[0] == c {
        assert ReplaceAll(s, [c], []) == ReplaceAll(s[1..], [c], []);
      } else {
        assert ReplaceAll(s, [c], []) == [s[0]] + ReplaceAll(s[1..], [c], []);
      }
      assert s == [s[0]] + s[1..];
    }
  }

  /** Length of the leading run of non-whitespace characters. */
  function WordLength(s: string): (n: nat)
    ensures n <= |s|
    ensures forall i :: 0 <= i < n ==> !IsSpace(s[i])
    ensures n < |s| ==> IsSpace(s[n])
  {
    if s == [] || IsSpace(s[0]) then 0 else 1 + WordLength(s[1..])
  }

  /** `s.split()`: the maximal runs of non-whitespace characters, in order. */
  function Split(s: string): (r: seq<string>)
    ensures forall k :: 0 <= k < |r| ==> r[k] != [] && NoSpace(r[k])
    decreases |s|
  {
    if s == [] then []
    else if IsSpace(s[0]) then Split(s[1..])
    else var n := WordLength(s); [s[..n]] + Split(s[n..])
  }

  /** Leading whitespace does not change the split. */
  lemma {:induction false} SplitSkipsSpaces(w: string, s: string)
    requires forall i :: 0 <= i < |w| ==> IsSpace(w[i])
    ensures Split(w + s) == Split(s)
    decreases |w|
  {
    if w != [] {
      assert (w + s)[1..] == w[1..] + s;
      SplitSkipsSpaces(w[1..], s);
    } else {
      assert w + s == s;
    }
  }

  lemma {:induction false} WordLengthOfWord(word: string, s: string)
    requires NoSpace(word)
    requires s == [] || IsSpace(s[0])
    ensures WordLength(word + s) == |word|
    decreases |word|
  {
    if word == [] {
      assert word + s == s;
    } else {
      assert (word + s)[1..] == word[1..] + s;
      WordLengthOfWord(word[1..], s);
    }
  }

  /** A word followed by whitespace (or nothing) is split off as one token. */
  lemma SplitWord(word: string, s: string)
    requires word != [] && NoSpace(word)
    requires s == [] || IsSpace(s[0])
    ensures Split(word + s) == [word] + Split(s)
  {
    WordLengthOfWord(word, s);
    assert (word + s)[..|word|] == word;
    assert (word + s)[|word|..] == s;
  }

  /** Two words separated by whitespace split into exactly those two tokens. */
  lemma SplitTwoWords(a: string, w: string, b: string)
    requires a != [] && NoSpace(a) && b != [] && NoSpace(b)
    requires w != [] && forall i :: 0 <= i < |w| ==> IsSpace(w[i])
    ensures Split(a + w + b) == [a, b]
  {
    assert a + w + b == a + (w + b);
    SplitWord(a, w + b);
    SplitSkipsSpaces(w, b);
    assert b == b + [];
    SplitWord(b, []);
  }

  predicate NoTrailingSpace(s: string) {
    s == [] || !IsSpace(s[|s| - 1])
  }

  /** `s.rstrip()`: the longest prefix of `s` that does not end in whitespace. */
  function RStrip(s: string): (r: string)
    ensures |r| <= |s| && r == s[..|r|]
    ensures NoTrailingSpace(r)
    ensures forall i :: |r| <= i < |s| ==> IsSpace(s[i])
    decreases |s|
  {
    if s == [] || !IsSpace(s[|s| - 1]) then s else RStrip(s[..|s| - 1])
  }

  /** `s.lstrip()`: `s` without its leading whitespace. */
  function LStrip(s: string): (r: string)
    ensures |r| <= |s| && r == s[|s| - |r|..]
    ensures r == [] || !IsSpace(r[0])
    ensures forall i :: 0 <= i < |s| - |r| ==> IsSpace(s[i])
    decreases |s|
  {
    if s == [] || !IsSpace(s[0]) then s else LStrip(s[1..])
  }

  /** `s.strip()`. */
  function Strip(s: string): (r: string)
    ensures r == [] || (!IsSpace(r[0]) && !IsSpace(r[|r| - 1]))
  {
    LStrip(RStrip(s))
  }

  /** `s.split(c)[-1]`: the text after the last `c`, or all of `s` when it holds no `c`. */
  function AfterLast(s: string, c: char): (r: string)
    ensures |r| <= |s| && r == s[|s| - |r|..]
    ensures c !in r
    ensures |r| < |s| ==> s[|s| - |r| - 1] == c
    decreases |s|
  {
    if s == [] || s[|s| - 1] == c then [] else AfterLast(s[..|s| - 1], c) + [s[|s| - 1]]
  }

  /** `"/".join(parts)`. */
  function JoinSlash(parts: seq<string>): (r: string)
    decreases |parts|
  {
    if parts == [] then []
    else if |parts| == 1 then parts[0]
    else parts[0] + "/" + JoinSlash(parts[1..])
  }

  /** Length of the leading run of characters other than `c`. */
  function SegmentLength(s: string, c: char): (n: nat)
    ensures n <= |s|
    ensures c !in s[..n]
    ensures n < |s| ==> s[n] == c
  {
    if s == [] || s[0] == c then 0 else 1 + SegmentLength(s[1..], c)
  }

  /** `s.split(c)`: the pieces between the occurrences of `c`, empty pieces included. */
  function SplitOn(s: string, c: char): (r: seq<string>)
    ensures |r| >= 1
    ensures forall k :: 0 <= k < |r| ==> c !in r[k]
    decreases |s|
  {
    var n := SegmentLength(s, c);
    if n == |s| then [s] else [s[..n]] + SplitOn(s[n + 1..], c)
  }

  lemma {:induction false} SegmentLengthOf(a: string, c: char, rest: string)
    requires c !in a
    requires rest == [] || rest[0] == c
    ensures SegmentLength(a + rest, c) == |a|
    decreases |a|
  {
    if a == [] {
      assert a + rest == rest;
    } else {
      assert (a + rest)[1..] == a[1..] + rest;
      assert a[0] in a;
      SegmentLengthOf(a[1..], c, rest);
    }
  }

  lemma SplitOnWithout(a: string, c: char)
    requires c !in a
    ensures SplitOn(a, c) == [a]
  {
    SegmentLengthOf(a, c, []);
    assert a + [] == a;
  }

  lemma SplitOnFirst(a: string, c: char, rest: string)
    requires c !in a
    ensures SplitOn(a + [c] + rest, c) == [a] + SplitOn(rest, c)
  {
    var s := a + [c] + rest;
    assert s == a + ([c] + rest);
    SegmentLengthOf(a, c, [c] + rest);
    assert s[..|a|] == a;
    assert s[|a| + 1..] == rest;
  }

  /** Splitting a slash-joined path gives back its segments, provided no segment holds a slash. */
  lemma {:induction false} SplitJoinSlash(parts: seq<string>)
    requires parts != []
    requires forall k :: 0 <= k < |parts| ==> '/' !in parts[k]
    ensures SplitOn(JoinSlash(parts), '/') == parts
    decreases |parts|
  {
    if |parts| == 1 {
      SplitOnWithout(parts[0], '/');
    } else {
      SplitOnFirst(parts[0], '/', JoinSlash(parts[1..]));
      SplitJoinSlash(parts[1..]);
    }
  }

  predicate IsDigit(c: char) {
    '0' <= c <= '9'
  }

  /** `s.isdigit()` for ASCII digits: non-empty and digits only. */
  predicate AllDigits(s: string) {
    s != [] && forall i :: 0 <= i < |s| ==> IsDigit(s[i])
  }

  function DigitValue(c: char): (n: nat)
    requires IsDigit(c)
    ensures n < 10
  {
    c as int - '0' as int
  }

  function DigitChar(n: nat): (c: char)
    requires n < 10
    ensures IsDigit(c) && DigitValue(c) == n
  {
    ('0' as int + n) as char
  }

  /** `int(s)` for a string of ASCII digits (leading zeros allowed). */
  function DigitsValue(s: string): (n: nat)
    requires forall i :: 0 <= i < |s| ==> IsDigit(s[i])
    decreases |s|
  {
    if s == [] then 0 else 10 * DigitsValue(s[..|s| - 1]) + DigitValue(s[|s| - 1])
  }

  /** `str(n)`: the decimal digits of `n`, without leading zeros. */
  function NatToString(n: nat): (s: string)
    ensures AllDigits(s)
    ensures |s| > 1 ==> s[0] != '0'
    decreases n
  {
    if n < 10 then [DigitChar(n)] else NatToString(n / 10) + [DigitChar(n % 10)]
  }

  /** `int(str(n)) == n`. */
  lemma {:induction false} NatToStringRoundTrip(n: nat)
    ensures DigitsValue(NatToString(n)) == n
    decreases n
  {
    var s := NatToString(n);
    if n >= 10 {
      NatToStringRoundTrip(n / 10);
      assert s[..|s| - 1] == NatToString(n / 10);
    } else {
      assert s[..0] == [];
    }
  }

  /** The value of digits laid side by side. */
  lemma {:induction false} DigitsValueAppend(a: string, b: string)
    requires forall i :: 0 <= i < |a| ==> IsDigit(a[i])
    requires forall i :: 0 <= i < |b| ==> IsDigit(b[i])
    ensures DigitsValue(a + b) == DigitsValue(a) * Pow10(|b|) + DigitsValue(b)
    decreases |b|
  {
    if b == [] {
      assert a + b == a;
    } else {
      var b' := b[..|b| - 1];
      assert (a + b)[..|a + b| - 1] == a + b';
      DigitsValueAppend(a, b');
      var x, y, c := DigitsValue(a), DigitsValue(b'), DigitValue(b[|b| - 1]);
      assert DigitsValue(a + b) == 10 * (x * Pow10(|b'|) + y) + c;
      assert DigitsValue(b) == 10 * y + c;
      ShiftDigit(x, Pow10(|b'|), y, c);
    }
  }

  /** Appending one digit below a shifted prefix. */
  lemma ShiftDigit(x: int, p: int, y: int, c: int)
    ensures 10 * (x * p + y) + c == x * (10 * p) + (10 * y + c)
  {
  }

  function Pow10(k: nat): (p: nat)
    ensures p >= 1
  {
    if k == 0 then 1 else 10 * Pow10(k - 1)
  }
}
