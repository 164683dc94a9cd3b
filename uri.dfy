/** `encodeURIComponent`: every character outside A-Z a-z 0-9 - _ . ! ~ * ' ( )
    is replaced by the percent-escapes of its UTF-8 bytes. A Dafny `char` is a
    Unicode scalar value, so the lone surrogates for which the browser throws
    URIError cannot occur. */
module Uri {
  import opened JsStrings

  type Byte = x: int | 0 <= x < 256

  /** The characters `encodeURIComponent` leaves as they are. */
  predicate IsUnreserved(c: char) {
    'A' <= c <= 'Z' || 'a' <= c <= 'z' || '0' <= c <= '9'
    || c == '-' || c == '_' || c == '.' || c == '!' || c == '~' || c == '*'
    || c == '\'' || c == '(' || c == ')'
  }

  /** The UTF-8 bytes of one scalar value. */
  function Utf8(c: char): (r: seq<Byte>)
    ensures 1 <= |r| <= 4
  {
    var n := c as int;
    if n < 0x80 then [n]
    else if n < 0x800 then [0xC0 + n / 64, 0x80 + n % 64]
    else if n < 0x10000 then [0xE0 + n / 4096, 0x80 + (n / 64) % 64, 0x80 + n % 64]
    else [0xF0 + n / 262144, 0x80 + (n / 4096) % 64, 0x80 + (n / 64) % 64, 0x80 + n % 64]
  }

  function HexDigit(d: int): char
    requires 0 <= d < 16
  {
    if d < 10 then ('0' as int + d) as char else ('A' as int + (d - 10)) as char
  }

  predicate IsHexDigit(c: char) {
    '0' <= c <= '9' || 'A' <= c <= 'F'
  }

  function HexValue(c: char): int
    requires IsHexDigit(c)
  {
    if c <= '9' then c as int - '0' as int else c as int - 'A' as int + 10
  }

  /** "%XX" with upper-case hexadecimal digits. */
  function Escape(b: Byte): string {
    ['%', HexDigit(b / 16), HexDigit(b % 16)]
  }

  function EscapeAll(bytes: seq<Byte>): string {
    if bytes == [] then "" else Escape(bytes[0]) + EscapeAll(bytes[1..])
  }

  /** The characters a component may contain after encoding. */
  predicate IsComponentChar(c: char) {
    IsUnreserved(c) || c == '%'
  }

  predicate IsComponent(s: string) {
    forall i :: 0 <= i < |s| ==> IsComponentChar(s[i])
  }

  function EncodeChar(c: char): string {
    if IsUnreserved(c) then [c] else EscapeAll(Utf8(c))
  }

  /** `encodeURIComponent(s)`: the result holds only unreserved characters and
      '%', so it can stand in a query string without ending it ('#'), starting
      another parameter ('&') or being read as a path ('/'). */
  function EncodeURIComponent(s: string): (r: string)
    ensures IsComponent(r)
    ensures '/' !in r && '?' !in r && '&' !in r && '#' !in r && '=' !in r
  {
    if s == [] then ""
    else
      var head, tail := EncodeChar(s[0]), EncodeURIComponent(s[1..]);
      EncodeCharIsComponent(s[0]);
      ComponentAppend(head, tail);
      ComponentHasNoDelimiters(head + tail);
      head + tail
  }

  /** No delimiter is a component character. */
  lemma ComponentHasNoDelimiters(r: string)
    requires IsComponent(r)
    ensures '/' !in r && '?' !in r && '&' !in r && '#' !in r && '=' !in r
  {
    forall i | 0 <= i < |r| ensures r[i] != '/' && r[i] != '?' && r[i] != '&' && r[i] != '#' && r[i] != '=' {
      assert IsComponentChar(r[i]);
    }
  }

  lemma {:induction false} EscapeAllIsComponent(bytes: seq<Byte>)
    ensures IsComponent(EscapeAll(bytes))
  {
    if bytes != [] {
      EscapeAllIsComponent(bytes[1..]);
      ComponentAppend(Escape(bytes[0]), EscapeAll(bytes[1..]));
    }
  }

  lemma EncodeCharIsComponent(c: char)
    ensures IsComponent(EncodeChar(c))
  {
    if !IsUnreserved(c) {
      EscapeAllIsComponent(Utf8(c));
    }
  }

  lemma ComponentAppend(a: string, b: string)
    requires IsComponent(a) && IsComponent(b)
    ensures IsComponent(a + b)
  {
    forall i | 0 <= i < |a + b| ensures IsComponentChar((a + b)[i]) {
      if i < |a| { assert (a + b)[i] == a[i]; } else { assert (a + b)[i] == b[i - |a|]; }
    }
  }

  /** A string made only of unreserved characters is left as it is. */
  lemma {:induction false} EncodeUnreserved(s: string)
    requires forall i :: 0 <= i < |s| ==> IsUnreserved(s[i])
    ensures EncodeURIComponent(s) == s
  {
    if s != [] {
      EncodeUnreserved(s[1..]);
      assert s == [s[0]] + s[1..];
    }
  }

  // ---------------------------------------------------------------------------
  // Reading the bytes back

  /** The bytes a percent-encoded component stands for: each "%XX" is the byte
      XX and every other (ASCII) character its own code. */
  function PercentDecode(s: string): seq<int> {
    if s == [] then []
    else if |s| >= 3 && s[0] == '%' && IsHexDigit(s[1]) && IsHexDigit(s[2]) then
      [HexValue(s[1]) * 16 + HexValue(s[2])] + PercentDecode(s[3..])
    else [s[0] as int] + PercentDecode(s[1..])
  }

  /** The UTF-8 bytes of a whole string. */
  function Utf8String(s: string): seq<int> {
    if s == [] then [] else Utf8(s[0]) + Utf8String(s[1..])
  }

  lemma EscapeRoundTrip(b: Byte, t: string)
    ensures PercentDecode(Escape(b) + t) == [b] + PercentDecode(t)
  {
    var e := Escape(b) + t;
    assert e[0] == '%' && e[1] == HexDigit(b / 16) && e[2] == HexDigit(b % 16);
    assert e[3..] == t;
  }

  lemma {:induction false} EscapeAllRoundTrip(bytes: seq<Byte>, t: string)
    ensures PercentDecode(EscapeAll(bytes) + t) == bytes + PercentDecode(t)
  {
    if bytes != [] {
      EscapeAllRoundTrip(bytes[1..], t);
      assert EscapeAll(bytes) + t == Escape(bytes[0]) + (EscapeAll(bytes[1..]) + t);
      EscapeRoundTrip(bytes[0], EscapeAll(bytes[1..]) + t);
      calc {
        PercentDecode(EscapeAll(bytes) + t);
        [bytes[0] as int] + PercentDecode(EscapeAll(bytes[1..]) + t);
        [bytes[0] as int] + (bytes[1..] + PercentDecode(t));
        { assert bytes == [bytes[0]] + bytes[1..]; }
        bytes + PercentDecode(t);
      }
    } else {
      assert EscapeAll(bytes) + t == t;
    }
  }

  /** Decoding the escapes of `encodeURIComponent(s)` gives the UTF-8 bytes of
      `s`: the encoding loses nothing. */
  lemma {:induction false} EncodeURIComponentBytes(s: string)
    ensures PercentDecode(EncodeURIComponent(s)) == Utf8String(s)
  {
    if s != [] {
      EncodeURIComponentBytes(s[1..]);
      var tail := EncodeURIComponent(s[1..]);
      if IsUnreserved(s[0]) {
        assert ([s[0]] + tail)[1..] == tail;
        assert s[0] != '%';
      } else {
        EscapeAllRoundTrip(Utf8(s[0]), tail);
      }
    }
  }
}
