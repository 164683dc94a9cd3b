/** The browser's `btoa` and `atob`: base64 over "binary strings", whose code
    units are bytes. `atob` follows the forgiving-base64 decode of the HTML
    standard: ASCII whitespace is ignored, trailing padding is optional, and
    leftover bits of the last group are dropped. */
module Base64 {
  import opened JsStrings

  type Byte = x: int | 0 <= x < 256
  type Sextet = x: int | 0 <= x < 64

  /** The character that stands for a 6-bit value. */
  function SextetChar(v: Sextet): char {
    if v < 26 then ('A' as int + v) as char
    else if v < 52 then ('a' as int + (v - 26)) as char
    else if v < 62 then ('0' as int + (v - 52)) as char
    else if v == 62 then '+'
    else '/'
  }

  predicate InAlphabet(c: char) {
    'A' <= c <= 'Z' || 'a' <= c <= 'z' || '0' <= c <= '9' || c == '+' || c == '/'
  }

  /** The 6-bit value a base64 character stands for. */
  function SextetValue(c: char): Sextet
    requires InAlphabet(c)
  {
    if 'A' <= c <= 'Z' then c as int - 'A' as int
    else if 'a' <= c <= 'z' then c as int - 'a' as int + 26
    else if '0' <= c <= '9' then c as int - '0' as int + 52
    else if c == '+' then 62
    else 63
  }

  lemma SextetRoundTrip(v: Sextet)
    ensures InAlphabet(SextetChar(v)) && SextetValue(SextetChar(v)) == v
  {
  }

  // ---------------------------------------------------------------------------
  // Encoding

  // The four 6-bit values of three bytes b0 b1 b2.
  function High6(b0: Byte): Sextet { b0 / 4 }
  function Mid6(b0: Byte, b1: Byte): Sextet { (b0 % 4) * 16 + b1 / 16 }
  function Low6(b1: Byte, b2: Byte): Sextet { (b1 % 16) * 4 + b2 / 64 }
  function Last6(b2: Byte): Sextet { b2 % 64 }

  function EncodeGroup(b0: Byte, b1: Byte, b2: Byte): string {
    [SextetChar(High6(b0)), SextetChar(Mid6(b0, b1)), SextetChar(Low6(b1, b2)), SextetChar(Last6(b2))]
  }

  /** Base64 text of a byte string before padding: four characters for every
      three bytes, two or three characters for a last group of one or two. */
  function EncodeUnpadded(bytes: seq<Byte>): (s: string)
    ensures |s| == (4 * |bytes| + 2) / 3
    ensures |s| % 4 != 1
  {
    if |bytes| == 0 then ""
    else if |bytes| == 1 then [SextetChar(High6(bytes[0])), SextetChar(Mid6(bytes[0], 0))]
    else if |bytes| == 2 then
      [SextetChar(High6(bytes[0])), SextetChar(Mid6(bytes[0], bytes[1])), SextetChar(Low6(bytes[1], 0))]
    else EncodeGroup(bytes[0], bytes[1], bytes[2]) + EncodeUnpadded(bytes[3..])
  }

  function Padding(n: nat): string {
    if n % 3 == 1 then "==" else if n % 3 == 2 then "=" else ""
  }

  /** Base64 text of a byte string, padded with '=' to a multiple of four. */
  function Encode(bytes: seq<Byte>): (s: string)
    ensures |s| == 4 * ((|bytes| + 2) / 3)
  {
    PaddedLength(|bytes|);
    EncodeUnpadded(bytes) + Padding(|bytes|)
  }

  lemma PaddedLength(n: nat)
    ensures (4 * n + 2) / 3 + |Padding(n)| == 4 * ((n + 2) / 3)
  {
    var q, r := n / 3, n % 3;
    assert n == 3 * q + r;
    if r == 0 {
      assert 4 * n + 2 == 3 * (4 * q) + 2 && n + 2 == 3 * q + 2;
      DivThree(4 * q, 2);
      DivThree(q, 2);
    } else if r == 1 {
      assert 4 * n + 2 == 3 * (4 * q + 2) && n + 2 == 3 * (q + 1);
      DivThree(4 * q + 2, 0);
      DivThree(q + 1, 0);
    } else {
      assert 4 * n + 2 == 3 * (4 * q + 3) + 1 && n + 2 == 3 * (q + 1) + 1;
      DivThree(4 * q + 3, 1);
      DivThree(q + 1, 1);
    }
  }

  lemma DivThree(a: int, r: int)
    requires 0 <= r < 3
    ensures (3 * a + r) / 3 == a
  {
  }

  predicate IsBinary(s: seq<CodeUnit>) {
    forall i :: 0 <= i < |s| ==> s[i] < 256
  }

  /** `btoa(s)`: None where the browser throws InvalidCharacterError, that is
      when some code unit is above 0xFF. */
  function Btoa(s: seq<CodeUnit>): (r: Option<string>)
    ensures r.Some? <==> IsBinary(s)
  {
    if IsBinary(s) then Some(Encode(s)) else None
  }

  // ---------------------------------------------------------------------------
  // Decoding

  predicate IsAsciiWhitespace(c: char) {
    c == '\t' || c == '\n' || c == '\U{000C}' || c == '\r' || c == ' '
  }

  function RemoveAsciiWhitespace(s: string): (r: string)
    ensures (forall i :: 0 <= i < |s| ==> !IsAsciiWhitespace(s[i])) ==> r == s
  {
    if s == [] then ""
    else if IsAsciiWhitespace(s[0]) then RemoveAsciiWhitespace(s[1..])
    else [s[0]] + RemoveAsciiWhitespace(s[1..])
  }

  /** Drops one or two trailing '=' from text whose length is a multiple of four. */
  function StripPadding(s: string): string {
    if |s| % 4 == 0 && |s| >= 2 && s[|s| - 2..] == "==" then s[..|s| - 2]
    else if |s| % 4 == 0 && |s| >= 1 && s[|s| - 1] == '=' then s[..|s| - 1]
    else s
  }

  predicate AllInAlphabet(s: string) {
    forall i :: 0 <= i < |s| ==> InAlphabet(s[i])
  }

  // The three bytes of four 6-bit values c0 c1 c2 c3.
  function FirstByte(c0: Sextet, c1: Sextet): Byte { c0 * 4 + c1 / 16 }
  function SecondByte(c1: Sextet, c2: Sextet): Byte { (c1 % 16) * 16 + c2 / 4 }
  function ThirdByte(c2: Sextet, c3: Sextet): Byte { (c2 % 4) * 64 + c3 }

  /** Decodes unpadded base64 text whose length is not 1 modulo 4; the bits
      left over in a last group of two or three characters are dropped. */
  function DecodeChars(s: string): seq<Byte>
    requires AllInAlphabet(s) && |s| % 4 != 1
  {
    if |s| == 0 then []
    else
      var c0, c1 := SextetValue(s[0]), SextetValue(s[1]);
      if |s| == 2 then [FirstByte(c0, c1)]
      else
        var c2 := SextetValue(s[2]);
        if |s| == 3 then [FirstByte(c0, c1), SecondByte(c1, c2)]
        else [FirstByte(c0, c1), SecondByte(c1, c2), ThirdByte(c2, SextetValue(s[3]))] + DecodeChars(s[4..])
  }

  /** `atob(s)`: None where the browser throws InvalidCharacterError. */
  function Atob(s: string): Option<seq<Byte>> {
    var d := RemoveAsciiWhitespace(s);
    var d := if |d| % 4 == 0 then StripPadding(d) else d;
    if |d| % 4 == 1 || !AllInAlphabet(d) then None else Some(DecodeChars(d))
  }

  // ---------------------------------------------------------------------------
  // Round trip

  lemma {:induction false} EncodeUnpaddedInAlphabet(bytes: seq<Byte>)
    ensures AllInAlphabet(EncodeUnpadded(bytes))
  {
    if |bytes| == 1 {
      SextetRoundTrip(High6(bytes[0]));
      SextetRoundTrip(Mid6(bytes[0], 0));
    } else if |bytes| == 2 {
      SextetRoundTrip(High6(bytes[0]));
      SextetRoundTrip(Mid6(bytes[0], bytes[1]));
      SextetRoundTrip(Low6(bytes[1], 0));
    } else if |bytes| >= 3 {
      GroupInAlphabet(bytes[0], bytes[1], bytes[2]);
      EncodeUnpaddedInAlphabet(bytes[3..]);
      AppendInAlphabet(EncodeGroup(bytes[0], bytes[1], bytes[2]), EncodeUnpadded(bytes[3..]));
    }
  }

  lemma GroupInAlphabet(b0: Byte, b1: Byte, b2: Byte)
    ensures AllInAlphabet(EncodeGroup(b0, b1, b2))
  {
    SextetRoundTrip(High6(b0));
    SextetRoundTrip(Mid6(b0, b1));
    SextetRoundTrip(Low6(b1, b2));
    SextetRoundTrip(Last6(b2));
  }

  lemma AppendInAlphabet(g: string, t: string)
    requires AllInAlphabet(g) && AllInAlphabet(t)
    ensures AllInAlphabet(g + t)
  {
    forall i | 0 <= i < |g + t| ensures InAlphabet((g + t)[i]) {
      if i < |g| { assert (g + t)[i] == g[i]; } else { assert (g + t)[i] == t[i - |g|]; }
    }
  }

  /** The bit arithmetic of one group: splitting three bytes into four 6-bit
      values and joining them again is the identity. */
  lemma BytesOfSextets(b0: Byte, b1: Byte, b2: Byte)
    ensures FirstByte(High6(b0), Mid6(b0, b1)) == b0
    ensures SecondByte(Mid6(b0, b1), Low6(b1, b2)) == b1
    ensures ThirdByte(Low6(b1, b2), Last6(b2)) == b2
  {
  }

  /** Decoding one group of four characters gives back its three bytes. */
  lemma DecodeGroup(b0: Byte, b1: Byte, b2: Byte, t: string)
    requires AllInAlphabet(t) && |t| % 4 != 1
    ensures AllInAlphabet(EncodeGroup(b0, b1, b2) + t)
    ensures |EncodeGroup(b0, b1, b2) + t| % 4 != 1
    ensures DecodeChars(EncodeGroup(b0, b1, b2) + t) == [b0, b1, b2] + DecodeChars(t)
  {
    var c0, c1, c2, c3 := High6(b0), Mid6(b0, b1), Low6(b1, b2), Last6(b2);
    SextetRoundTrip(c0);
    SextetRoundTrip(c1);
    SextetRoundTrip(c2);
    SextetRoundTrip(c3);
    DecodeQuad(SextetChar(c0), SextetChar(c1), SextetChar(c2), SextetChar(c3), t);
    BytesOfSextets(b0, b1, b2);
  }

  /** Decoding text that starts with four characters of the alphabet. */
  lemma DecodeQuad(x0: char, x1: char, x2: char, x3: char, t: string)
    requires InAlphabet(x0) && InAlphabet(x1) && InAlphabet(x2) && InAlphabet(x3)
    requires AllInAlphabet(t) && |t| % 4 != 1
    ensures AllInAlphabet([x0, x1, x2, x3] + t)
    ensures |[x0, x1, x2, x3] + t| % 4 != 1
    ensures DecodeChars([x0, x1, x2, x3] + t)
         == [FirstByte(SextetValue(x0), SextetValue(x1)), SecondByte(SextetValue(x1), SextetValue(x2)),
             ThirdByte(SextetValue(x2), SextetValue(x3))] + DecodeChars(t)
  {
    var s := [x0, x1, x2, x3] + t;
    assert AllInAlphabet(s) by {
      AppendInAlphabet([x0, x1, x2, x3], t);
    }
    assert |s| % 4 != 1 by {
      ModFour(|t|);
    }
    assert s[4..] == t && s[0] == x0 && s[1] == x1 && s[2] == x2 && s[3] == x3;
    DecodeStep(s);
  }

  lemma ModFour(n: nat)
    ensures (n + 4) % 4 == n % 4
  {
  }

  /** One step of DecodeChars on text of four characters or more. */
  lemma DecodeStep(s: string)
    requires AllInAlphabet(s) && |s| % 4 != 1 && |s| >= 4
    ensures DecodeChars(s) == [FirstByte(SextetValue(s[0]), SextetValue(s[1])), SecondByte(SextetValue(s[1]), SextetValue(s[2])),
                               ThirdByte(SextetValue(s[2]), SextetValue(s[3]))] + DecodeChars(s[4..])
  {
  }

  lemma {:induction false} DecodeEncodeUnpadded(bytes: seq<Byte>)
    ensures AllInAlphabet(EncodeUnpadded(bytes)) && |EncodeUnpadded(bytes)| % 4 != 1
    ensures DecodeChars(EncodeUnpadded(bytes)) == bytes
  {
    if |bytes| == 1 {
      EncodeUnpaddedInAlphabet(bytes);
      DecodeLastOne(bytes[0]);
    } else if |bytes| == 2 {
      EncodeUnpaddedInAlphabet(bytes);
      DecodeLastTwo(bytes[0], bytes[1]);
    } else if |bytes| >= 3 {
      var rest := bytes[3..];
      assert bytes == [bytes[0], bytes[1], bytes[2]] + rest;
      var e := EncodeUnpadded(rest);
      assert EncodeUnpadded(bytes) == EncodeGroup(bytes[0], bytes[1], bytes[2]) + e;
      DecodeEncodeUnpadded(rest);
      DecodeGroup(bytes[0], bytes[1], bytes[2], e);
    }
  }

  lemma DecodeLastOne(b0: Byte)
    ensures DecodeChars(EncodeUnpadded([b0])) == [b0]
  {
    var c0, c1 := High6(b0), Mid6(b0, 0);
    SextetRoundTrip(c0);
    SextetRoundTrip(c1);
    BytesOfSextets(b0, 0, 0);
    DecodePair(SextetChar(c0), SextetChar(c1));
  }

  lemma DecodeLastTwo(b0: Byte, b1: Byte)
    ensures DecodeChars(EncodeUnpadded([b0, b1])) == [b0, b1]
  {
    var c0, c1, c2 := High6(b0), Mid6(b0, b1), Low6(b1, 0);
    SextetRoundTrip(c0);
    SextetRoundTrip(c1);
    SextetRoundTrip(c2);
    BytesOfSextets(b0, b1, 0);
    DecodeTriple(SextetChar(c0), SextetChar(c1), SextetChar(c2));
  }

  lemma DecodePair(x0: char, x1: char)
    requires InAlphabet(x0) && InAlphabet(x1)
    ensures AllInAlphabet([x0, x1])
    ensures DecodeChars([x0, x1]) == [FirstByte(SextetValue(x0), SextetValue(x1))]
  {
  }

  lemma DecodeTriple(x0: char, x1: char, x2: char)
    requires InAlphabet(x0) && InAlphabet(x1) && InAlphabet(x2)
    ensures AllInAlphabet([x0, x1, x2])
    ensures DecodeChars([x0, x1, x2])
         == [FirstByte(SextetValue(x0), SextetValue(x1)), SecondByte(SextetValue(x1), SextetValue(x2))]
  {
  }

  /** `atob` undoes `btoa`: decoding the base64 text of a byte string gives the
      byte string back. */
  lemma AtobBtoa(bytes: seq<Byte>)
    ensures Atob(Encode(bytes)) == Some(bytes)
  {
    var u := EncodeUnpadded(bytes);
    var e := Encode(bytes);
    DecodeEncodeUnpadded(bytes);
    assert RemoveAsciiWhitespace(e) == e by {
      forall i | 0 <= i < |e| ensures !IsAsciiWhitespace(e[i]) {
        if i < |u| { assert e[i] == u[i]; } else { assert e[i] == '='; }
      }
    }
    MultipleOfFour((|bytes| + 2) / 3);
    StripPaddingOf(u, Padding(|bytes|));
  }

  lemma MultipleOfFour(k: nat)
    ensures (4 * k) % 4 == 0
  {
  }

  lemma StripPaddingOf(u: string, p: string)
    requires AllInAlphabet(u) && (p == "" || p == "=" || p == "==") && |u + p| % 4 == 0
    ensures StripPadding(u + p) == u
  {
    var e := u + p;
    if p == "==" {
      assert e[|e| - 2..] == "==";
      assert e[..|e| - 2] == u;
    } else if p == "=" {
      assert e[|e| - 2] == u[|u| - 1];
      assert e[..|e| - 1] == u;
    } else if |u| >= 1 {
      assert e == u;
      assert InAlphabet(u[|u| - 1]);
    }
  }
}
