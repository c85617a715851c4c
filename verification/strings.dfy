/** String helpers standing in for the JavaScript built-ins the game relies
    on: template-literal number rendering, `indexOf`, `trim`, `split('')
    .reverse().join('')` and `join`. Strings are sequences of characters;
    every character the game handles lies in the Basic Multilingual Plane,
    so one character is one UTF-16 code unit. */
module Strings {

  /** The decimal digit character for 0 <= d < 10. */
  function Digit(d: nat): (c: char)
    requires d < 10
    ensures c as int == '0' as int + d
  {
    (('0' as int) + d) as char
  }

  predicate IsDigit(c: char) {
    '0' <= c <= '9'
  }

  /** Decimal rendering of a natural number, as `${n}` produces it. */
  function NatToString(n: nat): (s: string)
    ensures 0 < |s|
    ensures forall k :: 0 <= k < |s| ==> IsDigit(s[k])
    ensures n < 10 <==> |s| == 1
    decreases n
  {
    if n < 10 then [Digit(n)] else NatToString(n / 10) + [Digit(n % 10)]
  }

  /** Different numbers render differently, so ids built from them are distinct. */
  lemma {:induction false} NatToStringInjective(a: nat, b: nat)
    requires NatToString(a) == NatToString(b)
    ensures a == b
    decreases a
  {
    var sa, sb := NatToString(a), NatToString(b);
    if a < 10 {
      assert sa[0] == Digit(a) && sb[0] == Digit(b);
    } else {
      assert sa[..|sa| - 1] == NatToString(a / 10);
      assert sb[..|sb| - 1] == NatToString(b / 10);
      NatToStringInjective(a / 10, b / 10);
      assert sa[|sa| - 1] == Digit(a % 10) && sb[|sb| - 1] == Digit(b % 10);
    }
  }

  /** Character-wise reversal, as `s.split('').reverse().join('')`. */
  function Reverse<T>(s: seq<T>): (r: seq<T>)
    ensures |r| == |s|
    ensures forall k :: 0 <= k < |s| ==> r[k] == s[|s| - 1 - k]
  {
    if |s| == 0 then [] else Reverse(s[1..]) + [s[0]]
  }

  lemma ReverseInvolutive<T>(s: seq<T>)
    ensures Reverse(Reverse(s)) == s
  {
  }

  /** A sequence that holds the entries of `s` back to front is its reversal. */
  lemma ReverseByIndex<T>(s: seq<T>, t: seq<T>)
    requires |t| == |s| && forall k :: 0 <= k < |s| ==> t[k] == s[|s| - 1 - k]
    ensures t == Reverse(s)
  {
  }

  /** The first index of `x` in `s`, or -1, as `Array.prototype.indexOf`
      and `String.prototype.indexOf` on one character. */
  function IndexOf<T(==)>(s: seq<T>, x: T): (k: int)
    ensures -1 <= k < |s|
    ensures k == -1 <==> x !in s
    ensures 0 <= k ==> s[k] == x && x !in s[..k]
  {
    if |s| == 0 then -1
    else if s[0] == x then 0
    else
      var k := IndexOf(s[1..], x);
      if k == -1 then -1 else k + 1
  }

  /** The characters `String.prototype.trim` removes: ECMAScript WhiteSpace
      and LineTerminator code points. */
  predicate IsWhitespace(c: char) {
    || c == '\t' || c == '\n' || c == '\U{000B}' || c == '\U{000C}' || c == '\r'
    || c == ' ' || c == '\U{00A0}' || c == '\U{1680}'
    || ('\U{2000}' <= c <= '\U{200A}')
    || c == '\U{2028}' || c == '\U{2029}' || c == '\U{202F}' || c == '\U{205F}'
    || c == '\U{3000}' || c == '\U{FEFF}'
  }

  predicate IsBlank(s: string) {
    forall k :: 0 <= k < |s| ==> IsWhitespace(s[k])
  }

  /** Neither end of `t` is whitespace. */
  predicate IsTrimmed(t: string) {
    |t| > 0 ==> !IsWhitespace(t[0]) && !IsWhitespace(t[|t| - 1])
  }

  /** `t` is `s` with a whitespace-only prefix of length `i` and a
      whitespace-only suffix removed. */
  predicate TrimmedFrom(s: string, t: string, i: int) {
    && 0 <= i <= |s| - |t|
    && (forall k :: 0 <= k < |t| ==> t[k] == s[i + k])
    && (forall k :: 0 <= k < |s| && (k < i || i + |t| <= k) ==> IsWhitespace(s[k]))
  }

  /** The first position at or after `i` that is not whitespace (or `|s|`). */
  function SkipBlanks(s: string, i: nat): (j: nat)
    requires i <= |s|
    ensures i <= j <= |s|
    ensures forall k :: i <= k < j ==> IsWhitespace(s[k])
    ensures j < |s| ==> !IsWhitespace(s[j])
    decreases |s| - i
  {
    if i < |s| && IsWhitespace(s[i]) then SkipBlanks(s, i + 1) else i
  }

  /** The end of the last non-whitespace character of `s[lo..j]` (or `lo`). */
  function SkipBlanksBack(s: string, lo: nat, j: nat): (b: nat)
    requires lo <= j <= |s|
    ensures lo <= b <= j
    ensures forall k :: b <= k < j ==> IsWhitespace(s[k])
    ensures lo < b ==> !IsWhitespace(s[b - 1])
    decreases j
  {
    if lo < j && IsWhitespace(s[j - 1]) then SkipBlanksBack(s, lo, j - 1) else j
  }

  /** `String.prototype.trim`: leading and trailing whitespace removed. */
  function Trim(s: string): (t: string)
    ensures IsTrimmed(t)
    ensures TrimmedFrom(s, t, SkipBlanks(s, 0))
  {
    var a := SkipBlanks(s, 0);
    var b := SkipBlanksBack(s, a, |s|);
    s[a..b]
  }

  /** Trimming removes whitespace only: the result is empty exactly when the
      input is blank, so `line.trim().length > 0` tests for a visible character. */
  lemma TrimEmptyIffBlank(s: string)
    ensures |Trim(s)| == 0 <==> IsBlank(s)
  {
    var t := Trim(s);
    var i := SkipBlanks(s, 0);
    if |t| > 0 {
      assert t[0] == s[i];
    }
  }

  /** A string already trimmed is its own trim. */
  lemma TrimIdempotent(s: string)
    requires IsTrimmed(s)
    ensures Trim(s) == s
  {
  }

  /** No character of `s` belongs to `cs`. */
  predicate FreeOf(s: string, cs: set<char>) {
    forall k :: 0 <= k < |s| ==> s[k] !in cs
  }

  /** `s` with every character of `drop` removed (a global regex replace by ''). */
  function RemoveChars(s: string, drop: set<char>): (t: string)
    ensures |t| <= |s|
    ensures FreeOf(t, drop)
    ensures forall k :: 0 <= k < |t| ==> t[k] in s
    ensures FreeOf(s, drop) ==> t == s
  {
    if |s| == 0 then ""
    else if s[0] in drop then RemoveChars(s[1..], drop)
    else [s[0]] + RemoveChars(s[1..], drop)
  }

  /** Removal works piece by piece, so the kept characters stay in order. */
  lemma {:induction false} RemoveCharsAppend(a: string, b: string, drop: set<char>)
    ensures RemoveChars(a + b, drop) == RemoveChars(a, drop) + RemoveChars(b, drop)
    decreases |a|
  {
    if |a| == 0 {
      assert a + b == b;
    } else {
      assert (a + b)[0] == a[0] && (a + b)[1..] == a[1..] + b;
      RemoveCharsAppend(a[1..], b, drop);
    }
  }

  /** A single character is dropped exactly when it is in `drop`. */
  lemma RemoveCharsSingle(c: char, drop: set<char>)
    ensures RemoveChars([c], drop) == if c in drop then "" else [c]
  {
    assert [c][1..] == "";
  }

  /** `parts.join(sep)`. */
  function Join(parts: seq<string>, sep: string): string
  {
    if |parts| == 0 then ""
    else if |parts| == 1 then parts[0]
    else parts[0] + sep + Join(parts[1..], sep)
  }

  lemma {:induction false} JoinSnoc(parts: seq<string>, sep: string, last: string)
    requires |parts| > 0
    ensures Join(parts + [last], sep) == Join(parts, sep) + sep + last
    decreases |parts|
  {
    if |parts| > 1 {
      assert (parts + [last])[1..] == parts[1..] + [last];
      JoinSnoc(parts[1..], sep, last);
    }
  }

  /** Appending text to the last part appends it to the joined string. */
  lemma JoinExtendLast(parts: seq<string>, sep: string, last: string, more: string)
    ensures Join(parts + [last + more], sep) == Join(parts + [last], sep) + more
  {
    if |parts| > 0 {
      JoinSnoc(parts, sep, last + more);
      JoinSnoc(parts, sep, last);
    }
  }

  /** The concatenation of all parts, in order (`join('')`). */
  function Concat(parts: seq<string>): (s: string)
    ensures (forall k :: 0 <= k < |parts| ==> |parts[k]| == 1) ==>
              |s| == |parts| && forall k :: 0 <= k < |parts| ==> s[k] == parts[k][0]
  {
    if |parts| == 0 then "" else parts[0] + Concat(parts[1..])
  }
}
