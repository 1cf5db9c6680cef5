/**
 * The ECMAScript string primitives the exam tools rely on: the whitespace set
 * of `\s`, `trim` and `trimEnd`, `split` and `join` on one separator, ASCII
 * case folding as the `i` regular-expression flag applies it to ASCII
 * patterns, `parseInt` on a run of decimal digits, and the UTF-16 `length`.
 */
module Text {

  /** ECMAScript WhiteSpace or LineTerminator: the set `\s`, `trim` and `trimEnd` use. */
  predicate IsWhiteSpace(c: char) {
    || c == '\t' || c == '\n' || c == '\U{000B}' || c == '\U{000C}' || c == '\r' || c == ' '
    || c == '\U{00A0}' || c == '\U{1680}' || ('\U{2000}' <= c <= '\U{200A}')
    || c == '\U{2028}' || c == '\U{2029}' || c == '\U{202F}' || c == '\U{205F}'
    || c == '\U{3000}' || c == '\U{FEFF}'
  }

  /** ECMAScript LineTerminator: the characters a regular-expression `.` does not match. */
  predicate IsLineTerminator(c: char) {
    c == '\n' || c == '\r' || c == '\U{2028}' || c == '\U{2029}'
  }

  predicate HasLineTerminator(s: string) {
    exists i :: 0 <= i < |s| && IsLineTerminator(s[i])
  }

  /** A run of `\s` characters. */
  predicate AllWhiteSpace(s: string) {
    forall i :: 0 <= i < |s| ==> IsWhiteSpace(s[i])
  }

  /** `\d` */
  predicate IsDigit(c: char) { '0' <= c <= '9' }

  /** `[A-Z]` under the `i` flag */
  predicate IsAsciiLetter(c: char) { 'A' <= c <= 'Z' || 'a' <= c <= 'z' }

  /** A run of `\d` characters. */
  predicate AllDigits(s: string) {
    forall i :: 0 <= i < |s| ==> IsDigit(s[i])
  }

  predicate IsUpperAscii(c: char) { 'A' <= c <= 'Z' }

  predicate IsLowerAscii(c: char) { 'a' <= c <= 'z' }

  /** Upper-casing restricted to ASCII; every other character is kept. */
  function UpperAscii(c: char): char {
    if IsLowerAscii(c) then (c as int - 32) as char else c
  }

  /** An ASCII letter upper-cases to an upper-case ASCII letter. */
  lemma UpperAsciiLetter(c: char)
    requires IsAsciiLetter(c)
    ensures IsUpperAscii(UpperAscii(c))
  {
  }

  /**
   * `toUpperCase` on ASCII: the result has no lower-case ASCII letter, equals
   * the input ignoring case character by character, and keeps every
   * character that is not a lower-case ASCII letter.
   */
  function ToUpperAscii(s: string): (r: string)
    ensures |r| == |s|
    ensures forall i :: 0 <= i < |r| ==> !IsLowerAscii(r[i])
    ensures forall i :: 0 <= i < |s| ==> SameIgnoringCase(r[i], s[i])
    ensures forall i :: 0 <= i < |s| && !IsLowerAscii(s[i]) ==> r[i] == s[i]
  {
    seq(|s|, i requires 0 <= i < |s| => UpperAscii(s[i]))
  }

  /** Case-insensitive comparison of one character, as the `i` flag does for an ASCII pattern character. */
  predicate SameIgnoringCase(a: char, b: char) {
    UpperAscii(a) == UpperAscii(b)
  }

  predicate StartsWithIgnoringCase(s: string, prefix: string) {
    |prefix| <= |s| && forall i :: 0 <= i < |prefix| ==> SameIgnoringCase(s[i], prefix[i])
  }

  /** `/<pattern>/i.test(s)` for a pattern of literal characters. */
  predicate ContainsIgnoringCase(s: string, pattern: string) {
    exists i :: 0 <= i <= |s| - |pattern| && StartsWithIgnoringCase(s[i..], pattern)
  }

  predicate EndsWith(s: string, suffix: string) {
    |suffix| <= |s| && s[|s| - |suffix|..] == suffix
  }

  /** The length of the whitespace run `s` starts with. */
  function LeadingSpace(s: string): (n: nat)
    ensures n <= |s|
    ensures n == |s| || !IsWhiteSpace(s[n])
  {
    if s == [] || !IsWhiteSpace(s[0]) then 0 else 1 + LeadingSpace(s[1..])
  }

  /** The length of the digit run `s` starts with. */
  function LeadingDigits(s: string): (n: nat)
    ensures n <= |s|
    ensures n == |s| || !IsDigit(s[n])
  {
    if s == [] || !IsDigit(s[0]) then 0 else 1 + LeadingDigits(s[1..])
  }

  /** The length of the whitespace run `s` ends with. */
  function TrailingSpace(s: string): (n: nat)
    ensures n <= |s|
    ensures n == |s| || !IsWhiteSpace(s[|s| - n - 1])
  {
    if s == [] || !IsWhiteSpace(s[|s| - 1]) then 0 else 1 + TrailingSpace(s[..|s| - 1])
  }

  /** Every character of the leading whitespace run is whitespace. */
  lemma {:induction false} LeadingSpaceRun(s: string)
    ensures forall i :: 0 <= i < LeadingSpace(s) ==> IsWhiteSpace(s[i])
  {
    if s != [] && IsWhiteSpace(s[0]) {
      LeadingSpaceRun(s[1..]);
    }
  }

  /** Every character of the leading digit run is a digit. */
  lemma {:induction false} LeadingDigitsRun(s: string)
    ensures forall i :: 0 <= i < LeadingDigits(s) ==> IsDigit(s[i])
  {
    if s != [] && IsDigit(s[0]) {
      LeadingDigitsRun(s[1..]);
    }
  }

  /** Every character of the trailing whitespace run is whitespace. */
  lemma {:induction false} TrailingSpaceRun(s: string)
    ensures forall i :: |s| - TrailingSpace(s) <= i < |s| ==> IsWhiteSpace(s[i])
  {
    if s != [] && IsWhiteSpace(s[|s| - 1]) {
      TrailingSpaceRun(s[..|s| - 1]);
    }
  }

  function TrimStart(s: string): string {
    s[LeadingSpace(s)..]
  }

  function TrimEnd(s: string): string {
    s[..|s| - TrailingSpace(s)]
  }

  function Trim(s: string): string {
    TrimStart(TrimEnd(s))
  }

  /** If the first `m` characters are digits and the next one is not, the digit run is exactly `m` long. */
  lemma {:induction false} LeadingDigitsExact(s: string, m: nat)
    requires m < |s| && !IsDigit(s[m])
    requires forall i :: 0 <= i < m ==> IsDigit(s[i])
    ensures LeadingDigits(s) == m
  {
    if m > 0 {
      LeadingDigitsExact(s[1..], m - 1);
    }
  }

  /** A whitespace prefix adds its length to the leading whitespace run. */
  lemma {:induction false} LeadingSpaceAppend(a: string, b: string)
    requires forall i :: 0 <= i < |a| ==> IsWhiteSpace(a[i])
    ensures LeadingSpace(a + b) == |a| + LeadingSpace(b)
  {
    if a != [] {
      assert (a + b)[1..] == a[1..] + b;
      LeadingSpaceAppend(a[1..], b);
    } else {
      assert a + b == b;
    }
  }

  /** `trimEnd` leaves no whitespace at the end. */
  lemma TrimEndLast(s: string)
    ensures TrimEnd(s) == [] || !IsWhiteSpace(TrimEnd(s)[|TrimEnd(s)| - 1])
  {
  }

  /** Neither starts nor ends with whitespace: what `trim` leaves. */
  predicate IsTrimmed(s: string) {
    s == [] || (!IsWhiteSpace(s[0]) && !IsWhiteSpace(s[|s| - 1]))
  }

  /** What `trim` leaves neither starts nor ends with whitespace. */
  lemma TrimIsTrimmed(s: string)
    ensures IsTrimmed(Trim(s))
  {
    var t := TrimEnd(s);
    TrimEndLast(s);
    if Trim(s) != [] {
      assert Trim(s)[|Trim(s)| - 1] == t[|t| - 1];
    }
  }

  /** `trim` removes exactly the whitespace at both ends: its result is trimmed and sits inside `s` between whitespace runs. */
  lemma TrimSpec(s: string)
    ensures IsTrimmed(Trim(s))
    ensures exists i, j ::
      (&& 0 <= i <= j <= |s| && Trim(s) == s[i..j]
       && (forall k :: 0 <= k < i ==> IsWhiteSpace(s[k]))
       && (forall k :: j <= k < |s| ==> IsWhiteSpace(s[k])))
  {
    var t := TrimEnd(s);
    var j := |s| - TrailingSpace(s);
    TrailingSpaceRun(s);
    LeadingSpaceRun(t);
    var i := j - |TrimStart(t)|;
    assert t == s[..j];
    var a := LeadingSpace(t);
    assert i == a;
    assert Trim(s) == s[i..j];
    TrimIsTrimmed(s);
  }

  /** Trimming a trimmed string changes nothing. */
  lemma TrimOfTrimmed(s: string)
    requires IsTrimmed(s)
    ensures Trim(s) == s
  {
    assert TrailingSpace(s) == 0;
    assert LeadingSpace(s) == 0;
  }

  /** `trim` is idempotent. */
  lemma TrimIdempotent(s: string)
    ensures Trim(Trim(s)) == Trim(s)
  {
    TrimIsTrimmed(s);
    TrimOfTrimmed(Trim(s));
  }

  /** Upper-casing an upper-cased string changes nothing. */
  lemma ToUpperIdempotent(s: string)
    ensures ToUpperAscii(ToUpperAscii(s)) == ToUpperAscii(s)
  {
  }

  /** ASCII upper-casing leaves whitespace alone, so it keeps a trimmed string trimmed. */
  lemma UpperKeepsTrimmed(s: string)
    requires IsTrimmed(s)
    ensures IsTrimmed(ToUpperAscii(s))
  {
  }

  /** The index of the first `sep` in `s`, or `|s|` when there is none. */
  function IndexOf(s: string, sep: char): (n: nat)
    ensures n <= |s|
    ensures sep !in s[..n]
    ensures n == |s| || s[n] == sep
  {
    if s == [] || s[0] == sep then 0 else 1 + IndexOf(s[1..], sep)
  }

  /** `s.split(sep)` for a one-character separator: the pieces between separators, at least one. */
  function Split(s: string, sep: char): (parts: seq<string>)
    ensures |parts| >= 1
    ensures forall i :: 0 <= i < |parts| ==> sep !in parts[i]
    decreases |s|
  {
    var k := IndexOf(s, sep);
    if k == |s| then [s] else [s[..k]] + Split(s[k + 1..], sep)
  }

  /** `parts.join(sep)` */
  function Join(parts: seq<string>, sep: string): string {
    if |parts| == 0 then ""
    else if |parts| == 1 then parts[0]
    else parts[0] + sep + Join(parts[1..], sep)
  }

  /** Joining the pieces of a split with the separator gives back the string. */
  lemma {:induction false} JoinSplit(s: string, sep: char)
    ensures Join(Split(s, sep), [sep]) == s
    decreases |s|
  {
    var k := IndexOf(s, sep);
    if k < |s| {
      var rest := s[k + 1..];
      JoinSplit(rest, sep);
      assert Split(s, sep) == [s[..k]] + Split(rest, sep);
      assert s == s[..k] + [sep] + rest;
    }
  }

  /** Splitting a join of separator-free pieces gives back the pieces. */
  lemma {:induction false} SplitJoin(parts: seq<string>, sep: char)
    requires |parts| >= 1
    requires forall i :: 0 <= i < |parts| ==> sep !in parts[i]
    ensures Split(Join(parts, [sep]), sep) == parts
  {
    var s := Join(parts, [sep]);
    var k := IndexOf(s, sep);
    if |parts| == 1 {
      assert s == parts[0];
      assert s[..|s|] == s;
    } else {
      var rest := Join(parts[1..], [sep]);
      assert s == parts[0] + [sep] + rest;
      assert s[..|parts[0]|] == parts[0];
      assert s[|parts[0]|] == sep;
      IndexOfFirst(s, sep, |parts[0]|);
      assert k == |parts[0]|;
      assert s[k + 1..] == rest;
      SplitJoin(parts[1..], sep);
    }
  }

  /** A separator at `m` with none before it is the one `IndexOf` finds. */
  lemma {:induction false} IndexOfFirst(s: string, sep: char, m: nat)
    requires m < |s| && s[m] == sep && sep !in s[..m]
    ensures IndexOf(s, sep) == m
  {
    if m > 0 {
      assert s[0] in s[..m];
      assert s[1..][..m - 1] == s[1..m];
      assert forall c :: c in s[1..m] ==> c in s[..m];
      IndexOfFirst(s[1..], sep, m - 1);
    }
  }

  /** The value of a decimal digit (0 for any other character, which the callers never pass). */
  function DigitValue(c: char): nat {
    if IsDigit(c) then c as int - '0' as int else 0
  }

  /** `parseInt(digits, 10)` for a run of decimal digits. */
  function ParseDecimal(digits: string): nat {
    if digits == [] then 0
    else 10 * ParseDecimal(digits[..|digits| - 1]) + DigitValue(digits[|digits| - 1])
  }

  /** The parsed number is zero, hence falsy, exactly when every digit is '0'. */
  lemma {:induction false} ParseDecimalZero(digits: string)
    requires forall i :: 0 <= i < |digits| ==> IsDigit(digits[i])
    ensures ParseDecimal(digits) == 0 <==> forall i :: 0 <= i < |digits| ==> digits[i] == '0'
  {
    if digits != [] {
      var init := digits[..|digits| - 1];
      ParseDecimalZero(init);
      assert forall i :: 0 <= i < |init| ==> init[i] == digits[i];
    }
  }

  /** The `length` of a JavaScript string: characters outside the Basic Multilingual Plane take two UTF-16 code units. */
  function Utf16Length(s: string): (n: nat)
    ensures |s| <= n <= 2 * |s|
  {
    if s == [] then 0
    else Utf16Length(s[..|s| - 1]) + (if s[|s| - 1] as int > 0xFFFF then 2 else 1)
  }
}
