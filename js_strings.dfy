/** Models of the JavaScript string built-ins that the client code relies on:
    truthiness, `endsWith`, `trim`, `split`, `length` in UTF-16 code units and
    `String(n)` for integers. A Dafny `string` holds Unicode scalar values; where
    JavaScript looks at UTF-16 code units, `Utf16` gives them. */
module JsStrings {

  datatype Option<+T> = None | Some(value: T)

  /** A string-or-null value is truthy when it is a non-empty string. */
  predicate Truthy(s: Option<string>) {
    s.Some? && s.value != ""
  }

  /** `a || b` on two strings: the first unless it is empty. */
  function OrElse(a: string, b: string): string {
    if a != "" then a else b
  }

  // ---------------------------------------------------------------------------
  // endsWith

  /** `s.endsWith(suffix)` */
  predicate EndsWith(s: string, suffix: string) {
    |suffix| <= |s| && s[|s| - |suffix|..] == suffix
  }

  lemma EndsWithAppend(prefix: string, suffix: string)
    ensures EndsWith(prefix + suffix, suffix)
  {
    assert (prefix + suffix)[|prefix|..] == suffix;
  }

  // ---------------------------------------------------------------------------
  // Whitespace and trim

  /** The code points of ECMAScript's WhiteSpace and LineTerminator productions:
      what `\s` matches in a regular expression and what `trim()` removes. */
  predicate IsWhitespace(c: char) {
    c == '\t' || c == '\n' || c == '\U{000B}' || c == '\U{000C}' || c == '\r' || c == ' '
    || c == '\U{00A0}' || c == '\U{1680}' || ('\U{2000}' <= c <= '\U{200A}')
    || c == '\U{2028}' || c == '\U{2029}' || c == '\U{202F}' || c == '\U{205F}'
    || c == '\U{3000}' || c == '\U{FEFF}'
  }

  predicate AllWhitespace(s: string) {
    forall i :: 0 <= i < |s| ==> IsWhitespace(s[i])
  }

  /** How many whitespace characters `s` starts with. */
  function LeadingWhitespace(s: string): (n: nat)
    ensures n <= |s| && AllWhitespace(s[..n])
    ensures n < |s| ==> !IsWhitespace(s[n])
  {
    if s != [] && IsWhitespace(s[0]) then
      var n := LeadingWhitespace(s[1..]);
      assert s[..n + 1] == [s[0]] + s[1..][..n];
      n + 1
    else 0
  }
  /** How many whitespace characters `s` ends with. */
  function TrailingWhitespace(s: string): (n: nat)
    ensures n <= |s| && AllWhitespace(s[|s| - n..])
    ensures n < |s| ==> !IsWhitespace(s[|s| - n - 1])
  {
    if s != [] && IsWhitespace(s[|s| - 1]) then
      var n := TrailingWhitespace(s[..|s| - 1]);
      TrailingStep(s, n);
      n + 1
    else 0
  }
  lemma TrailingStep(s: string, n: nat)
    requires s != [] && IsWhitespace(s[|s| - 1])
    requires n < |s| && AllWhitespace(s[..|s| - 1][|s| - 1 - n..])
    ensures AllWhitespace(s[|s| - (n + 1)..])
  {
    var p := s[..|s| - 1][|s| - 1 - n..];
    var q := s[|s| - (n + 1)..];
    forall i | 0 <= i < |q| ensures IsWhitespace(q[i]) {
      if i < n { assert q[i] == p[i]; }
    }
  }

  /** `s` is `r` with whitespace before it, `k` characters long, and
      whitespace after it. */
  predicate TrimmedAt(s: string, r: string, k: int) {
    0 <= k <= |s| - |r| && s == s[..k] + r + s[k + |r|..]
    && AllWhitespace(s[..k]) && AllWhitespace(s[k + |r|..])
  }

  /** `s` is `r` surrounded by whitespace on both sides, and `r` neither starts
      nor ends with whitespace. */
  ghost predicate IsTrimOf(s: string, r: string) {
    && (exists k :: TrimmedAt(s, r, k))
    && (|r| > 0 ==> !IsWhitespace(r[0]) && !IsWhitespace(r[|r| - 1]))
    && (r == [] <==> AllWhitespace(s))
  }

  /** `s.trim()`: `s` is the result surrounded by whitespace on both sides, and
      the result neither starts nor ends with whitespace. */
  function Trim(s: string): (r: string)
    ensures IsTrimOf(s, r)
  {
    var lead := LeadingWhitespace(s);
    if lead == |s| then
      TrimmedAway(s);
      []
    else
      var trail := TrailingWhitespace(s);
      TrimmedCore(s, lead, trail);
      s[lead..|s| - trail]
  }

  /** A string of whitespace trims to the empty string. */
  lemma TrimmedAway(s: string)
    requires AllWhitespace(s[..|s|])
    ensures IsTrimOf(s, [])
  {
    assert s[..|s|] == s;
    assert s == s[..|s|] + [] + s[|s|..];
    assert TrimmedAt(s, [], |s|);
  }

  /** The part of `s` between its leading and trailing whitespace, when some
      character is not whitespace. */
  lemma TrimmedCore(s: string, lead: nat, trail: nat)
    requires lead < |s| && AllWhitespace(s[..lead]) && !IsWhitespace(s[lead])
    requires trail <= |s| && AllWhitespace(s[|s| - trail..])
    requires trail < |s| ==> !IsWhitespace(s[|s| - trail - 1])
    ensures lead < |s| - trail
    ensures IsTrimOf(s, s[lead..|s| - trail])
  {
    var r := s[lead..|s| - trail];
    assert r[0] == s[lead] && r[|r| - 1] == s[|s| - trail - 1];
    assert s == s[..lead] + r + s[lead + |r|..];
    assert TrimmedAt(s, r, lead);
  }

  // ---------------------------------------------------------------------------
  // UTF-16

  /** A UTF-16 code unit, as `charCodeAt` returns it. */
  type CodeUnit = x: int | 0 <= x < 0x10000

  /** The UTF-16 code units of one Unicode scalar value. */
  function CodeUnits(c: char): (r: seq<CodeUnit>)
    ensures 1 <= |r| <= 2
    ensures (c as int < 0x10000) <==> |r| == 1
    ensures |r| == 1 ==> r[0] == c as int
  {
    var n := c as int;
    if n < 0x10000 then [n]
    else [0xD800 + (n - 0x10000) / 0x400, 0xDC00 + (n - 0x10000) % 0x400]
  }

  /** The code units JavaScript stores for `s`: what `length` counts and
      `charCodeAt` returns. */
  function Utf16(s: string): (r: seq<CodeUnit>)
    ensures |r| >= |s|
  {
    if s == [] then [] else CodeUnits(s[0]) + Utf16(s[1..])
  }

  predicate InBmp(s: string) {
    forall i :: 0 <= i < |s| ==> s[i] as int < 0x10000
  }

  /** A string of Basic Multilingual Plane characters has one code unit per
      character, equal to its code point. */
  lemma {:induction false} Utf16OfBmp(s: string)
    requires InBmp(s)
    ensures |Utf16(s)| == |s|
    ensures forall i :: 0 <= i < |s| ==> Utf16(s)[i] == s[i] as int
  {
    if s != [] {
      Utf16OfBmp(s[1..]);
    }
  }

  lemma {:induction false} Utf16Append(a: string, b: string)
    ensures Utf16(a + b) == Utf16(a) + Utf16(b)
  {
    if a == [] {
      assert a + b == b;
    } else {
      assert (a + b)[1..] == a[1..] + b;
      Utf16Append(a[1..], b);
    }
  }

  /** `s.length` */
  function Length(s: string): nat {
    |Utf16(s)|
  }

  // ---------------------------------------------------------------------------
  // split and join on a one-character separator

  function Count(s: string, c: char): nat {
    if s == [] then 0 else (if s[0] == c then 1 else 0) + Count(s[1..], c)
  }

  /** `s.split(sep)` for a one-character separator. */
  function Split(s: string, sep: char): (parts: seq<string>)
    ensures |parts| >= 1
  {
    if s == [] then [""]
    else
      var rest := Split(s[1..], sep);
      if s[0] == sep then [""] + rest else [[s[0]] + rest[0]] + rest[1..]
  }

  /** `parts.join(sep)` */
  function Join(parts: seq<string>, sep: char): string
    requires |parts| >= 1
  {
    if |parts| == 1 then parts[0] else parts[0] + [sep] + Join(parts[1..], sep)
  }

  /** Splitting yields one more part than there are separators, no part holds
      the separator, and joining the parts gives the string back. */
  lemma SplitJoin(s: string, sep: char)
    ensures |Split(s, sep)| == Count(s, sep) + 1
    ensures forall i :: 0 <= i < |Split(s, sep)| ==> sep !in Split(s, sep)[i]
    ensures Join(Split(s, sep), sep) == s
  {
    SplitCount(s, sep);
    SplitParts(s, sep);
    SplitJoinBack(s, sep);
  }

  lemma {:induction false} SplitCount(s: string, sep: char)
    ensures |Split(s, sep)| == Count(s, sep) + 1
  {
    if s != [] {
      SplitCount(s[1..], sep);
    }
  }

  lemma {:induction false} SplitParts(s: string, sep: char)
    ensures forall i :: 0 <= i < |Split(s, sep)| ==> sep !in Split(s, sep)[i]
  {
    if s != [] {
      SplitParts(s[1..], sep);
      var rest := Split(s[1..], sep);
      var parts := Split(s, sep);
      forall i | 0 <= i < |parts| ensures sep !in parts[i] {
        if s[0] == sep {
          if i > 0 { assert parts[i] == rest[i - 1]; }
        } else {
          if i > 0 { assert parts[i] == rest[i]; }
          else { assert parts[0] == [s[0]] + rest[0]; }
        }
      }
    }
  }

  lemma {:induction false} SplitJoinBack(s: string, sep: char)
    ensures Join(Split(s, sep), sep) == s
  {
    if s != [] {
      SplitJoinBack(s[1..], sep);
      var rest := Split(s[1..], sep);
      if s[0] == sep {
        JoinCons("", rest, sep);
      } else {
        JoinPrepend(s[0], rest, sep);
      }
      assert s == [s[0]] + s[1..];
    }
  }

  lemma JoinCons(p: string, rest: seq<string>, sep: char)
    requires |rest| >= 1
    ensures Join([p] + rest, sep) == p + [sep] + Join(rest, sep)
  {
    assert ([p] + rest)[1..] == rest;
  }

  /** Putting a character in front of the first part puts it in front of the
      joined text. */
  lemma JoinPrepend(c: char, rest: seq<string>, sep: char)
    requires |rest| >= 1
    ensures Join([[c] + rest[0]] + rest[1..], sep) == [c] + Join(rest, sep)
  {
    if |rest| > 1 {
      JoinCons([c] + rest[0], rest[1..], sep);
      JoinCons(rest[0], rest[1..], sep);
      assert rest == [rest[0]] + rest[1..];
    }
  }

  // ---------------------------------------------------------------------------
  // String(n) for integers

  function DigitChar(d: nat): char
    requires d < 10
  {
    ('0' as int + d) as char
  }

  predicate IsDigit(c: char) {
    '0' <= c <= '9'
  }

  /** The decimal digits of `n`, without leading zeros. */
  function NatToString(n: nat): (r: string)
    ensures |r| >= 1 && forall i :: 0 <= i < |r| ==> IsDigit(r[i])
    ensures |r| > 1 ==> r[0] != '0'
  {
    if n < 10 then [DigitChar(n)] else NatToString(n / 10) + [DigitChar(n % 10)]
  }

  /** `String(n)` for an integer `n`. */
  function IntToString(n: int): string {
    if n < 0 then "-" + NatToString(-n) else NatToString(n)
  }

  /** The number a string of decimal digits denotes. */
  function DigitsValue(s: string): nat
    requires forall i :: 0 <= i < |s| ==> IsDigit(s[i])
  {
    if s == [] then 0
    else
      assert IsDigit(s[|s| - 1]);
      DigitsValue(s[..|s| - 1]) * 10 + (s[|s| - 1] as int - '0' as int)
  }

  /** Reading back the digits of `n` gives `n`. */
  lemma {:induction false} NatToStringRoundTrip(n: nat)
    ensures DigitsValue(NatToString(n)) == n
  {
    if n >= 10 {
      NatToStringRoundTrip(n / 10);
      var r := NatToString(n);
      assert r[..|r| - 1] == NatToString(n / 10);
    }
  }

  /** `String(n)` starts with a minus sign exactly for negative `n`. */
  lemma MinusSign(n: int)
    ensures |IntToString(n)| >= 1 && (IntToString(n)[0] == '-' <==> n < 0)
  {
    if n >= 0 {
      assert IsDigit(NatToString(n)[0]);
    }
  }

  /** Different natural numbers are written differently. */
  lemma NatToStringInjective(m: nat, n: nat)
    requires NatToString(m) == NatToString(n)
    ensures m == n
  {
    NatToStringRoundTrip(m);
    NatToStringRoundTrip(n);
  }

  /** `String(n)` is injective on integers. */
  lemma IntToStringInjective(m: int, n: int)
    requires IntToString(m) == IntToString(n)
    ensures m == n
  {
    MinusSign(m);
    MinusSign(n);
    if m < 0 {
      assert n < 0;
      assert NatToString(-m) == IntToString(m)[1..];
      assert NatToString(-n) == IntToString(n)[1..];
      NatToStringInjective(-m, -n);
    } else {
      assert n >= 0;
      NatToStringInjective(m, n);
    }
  }
}
