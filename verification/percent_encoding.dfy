/** `urllib.parse.quote` with its defaults (safe characters `/`, UTF-8,
    strict errors), together with the decoding side it is designed for: UTF-8
    decoding and `unquote_to_bytes`. */
module PercentEncoding {
  import opened Wrappers

  type Byte = b: int | 0 <= b < 256

  /** The characters `quote` never escapes: ASCII letters, digits and `_.-~`. */
  predicate IsUnreserved(c: char) {
    ('A' <= c <= 'Z') || ('a' <= c <= 'z') || ('0' <= c <= '9')
    || c == '_' || c == '.' || c == '-' || c == '~'
  }

  /** Unreserved, or the default `safe="/"`. */
  predicate IsSafe(c: char) {
    IsUnreserved(c) || c == '/'
  }

  predicate IsUpperHexDigit(c: char) {
    ('0' <= c <= '9') || ('A' <= c <= 'F')
  }

  predicate IsHexDigit(c: char) {
    IsUpperHexDigit(c) || ('a' <= c <= 'f')
  }

  // ---------------------------------------------------------------------
  // UTF-8 (RFC 3629)
  // ---------------------------------------------------------------------

  predicate IsContinuation(b: Byte) {
    0x80 <= b < 0xC0
  }

  /** The UTF-8 encoding of one scalar value. */
  function Utf8Char(c: char): (bs: seq<Byte>)
    ensures 1 <= |bs| <= 4
    ensures |bs| == 1 <==> c as int < 0x80
    ensures c as int < 0x80 ==> bs == [c as int]
    ensures forall i :: 1 <= i < |bs| ==> IsContinuation(bs[i])
  {
    var n := c as int;
    if n < 0x80 then [n]
    else if n < 0x800 then [0xC0 + n / 64, 0x80 + n % 64]
    else if n < 0x10000 then [0xE0 + n / 4096, 0x80 + (n / 64) % 64, 0x80 + n % 64]
    else [0xF0 + n / 262144, 0x80 + (n / 4096) % 64, 0x80 + (n / 64) % 64, 0x80 + n % 64]
  }

  /** `s.encode("utf-8")`; total, since a Dafny `char` is never a surrogate. */
  function Utf8(s: string): (bs: seq<Byte>)
    ensures |bs| >= |s|
  {
    if s == [] then [] else Utf8Char(s[0]) + Utf8(s[1..])
  }

  /** Decodes the first character of `bs` and says how many bytes it took;
      `None` for a malformed, overlong, surrogate or out-of-range sequence. */
  function DecodeFirst(bs: seq<Byte>): (r: Option<(char, nat)>)
    requires |bs| > 0
    ensures r.Some? ==> 1 <= r.value.1 <= |bs| && r.value.1 <= 4
  {
    var b0: int := bs[0];
    if b0 < 0x80 then Some((b0 as char, 1))
    else if 0xC2 <= b0 < 0xE0 && |bs| >= 2 && IsContinuation(bs[1]) then
      Some((((b0 - 0xC0) * 64 + (bs[1] as int - 0x80)) as char, 2))
    else if 0xE0 <= b0 < 0xF0 && |bs| >= 3 && IsContinuation(bs[1]) && IsContinuation(bs[2]) then
      var n := (b0 - 0xE0) * 4096 + (bs[1] as int - 0x80) * 64 + (bs[2] as int - 0x80);
      if 0x800 <= n && !(0xD800 <= n < 0xE000) then Some((n as char, 3)) else None
    else if 0xF0 <= b0 < 0xF5 && |bs| >= 4
            && IsContinuation(bs[1]) && IsContinuation(bs[2]) && IsContinuation(bs[3]) then
      var n := (b0 - 0xF0) * 262144 + (bs[1] as int - 0x80) * 4096 + (bs[2] as int - 0x80) * 64 + (bs[3] as int - 0x80);
      if 0x10000 <= n < 0x110000 then Some((n as char, 4)) else None
    else None
  }

  /** `bs.decode("utf-8")` with strict errors: `None` where Python raises. */
  function Utf8Decode(bs: seq<Byte>): Option<string>
    decreases |bs|
  {
    if bs == [] then Some([])
    else
      match DecodeFirst(bs)
      case None => None
      case Some((c, n)) =>
        match Utf8Decode(bs[n..])
        case None => None
        case Some(rest) => Some([c] + rest)
  }

  /** Splitting a number into 6-bit groups and putting them back together. */
  lemma SixBitGroups(n: int)
    requires 0 <= n
    ensures (n / 64) * 64 + n % 64 == n
    ensures (n / 4096) * 64 + (n / 64) % 64 == n / 64
    ensures (n / 262144) * 64 + (n / 4096) % 64 == n / 4096
  {
    var m := n / 64;
    assert m / 64 == n / 4096;
    assert (n / 4096) / 64 == n / 262144;
  }

  lemma DecodeTwoBytes(c: char, rest: seq<Byte>)
    requires 0x80 <= c as int < 0x800
    ensures DecodeFirst(Utf8Char(c) + rest) == Some((c, 2))
  {
    var n := c as int;
    var bs := Utf8Char(c) + rest;
    assert bs[0] == 0xC0 + n / 64 && bs[1] == 0x80 + n % 64;
    SixBitGroups(n);
  }

  lemma DecodeThreeBytes(c: char, rest: seq<Byte>)
    requires 0x800 <= c as int < 0x10000
    ensures DecodeFirst(Utf8Char(c) + rest) == Some((c, 3))
  {
    var n := c as int;
    var bs := Utf8Char(c) + rest;
    assert bs[0] == 0xE0 + n / 4096 && bs[1] == 0x80 + (n / 64) % 64 && bs[2] == 0x80 + n % 64;
    SixBitGroups(n);
  }

  lemma DecodeFourBytes(c: char, rest: seq<Byte>)
    requires 0x10000 <= c as int
    ensures DecodeFirst(Utf8Char(c) + rest) == Some((c, 4))
  {
    var n := c as int;
    var bs := Utf8Char(c) + rest;
    assert bs[0] == 0xF0 + n / 262144 && bs[1] == 0x80 + (n / 4096) % 64
        && bs[2] == 0x80 + (n / 64) % 64 && bs[3] == 0x80 + n % 64;
    SixBitGroups(n);
  }

  /** The decoder reads back exactly the character the encoder wrote. */
  lemma DecodeFirstOfEncoding(c: char, rest: seq<Byte>)
    ensures DecodeFirst(Utf8Char(c) + rest) == Some((c, |Utf8Char(c)|))
  {
    var n := c as int;
    if n < 0x80 {
    } else if n < 0x800 {
      DecodeTwoBytes(c, rest);
    } else if n < 0x10000 {
      DecodeThreeBytes(c, rest);
    } else {
      DecodeFourBytes(c, rest);
    }
  }

  /** Decoding an encoding gives the string back. */
  lemma {:induction false} Utf8RoundTrip(s: string)
    ensures Utf8Decode(Utf8(s)) == Some(s)
    decreases |s|
  {
    if s != [] {
      var head := Utf8Char(s[0]);
      var bs := Utf8(s);
      assert bs == head + Utf8(s[1..]);
      DecodeFirstOfEncoding(s[0], Utf8(s[1..]));
      assert bs[|head|..] == Utf8(s[1..]);
      Utf8RoundTrip(s[1..]);
      assert s == [s[0]] + s[1..];
    }
  }

  /** On ASCII text the encoding is the code points themselves. */
  lemma {:induction false} Utf8OfAscii(s: string)
    requires forall i :: 0 <= i < |s| ==> s[i] as int < 0x80
    ensures |Utf8(s)| == |s|
    ensures forall i :: 0 <= i < |s| ==> Utf8(s)[i] == s[i] as int
    decreases |s|
  {
    if s != [] {
      Utf8OfAscii(s[1..]);
      assert Utf8(s) == [s[0] as int] + Utf8(s[1..]);
    }
  }

  // ---------------------------------------------------------------------
  // Percent-encoding
  // ---------------------------------------------------------------------

  /** `"0123456789ABCDEF"[d]`. */
  function HexDigit(d: int): (c: char)
    requires 0 <= d < 16
    ensures IsUpperHexDigit(c)
  {
    if d < 10 then ('0' as int + d) as char else ('A' as int + d - 10) as char
  }

  /** The value of a hex digit of either case. */
  function HexValue(c: char): (d: int)
    requires IsHexDigit(c)
    ensures 0 <= d < 16
  {
    if '0' <= c <= '9' then c as int - '0' as int
    else if 'A' <= c <= 'F' then c as int - 'A' as int + 10
    else c as int - 'a' as int + 10
  }

  lemma HexValueOfDigit(d: int)
    requires 0 <= d < 16
    ensures HexValue(HexDigit(d)) == d
  {
  }

  /** `"%{:02X}".format(b)`. */
  function Escape(b: Byte): (t: string)
    ensures |t| == 3 && t[0] == '%' && IsUpperHexDigit(t[1]) && IsUpperHexDigit(t[2])
    ensures HexValue(t[1]) * 16 + HexValue(t[2]) == b
  {
    HexValueOfDigit(b / 16);
    HexValueOfDigit(b % 16);
    ['%', HexDigit(b / 16), HexDigit(b % 16)]
  }

  function EscapeBytes(bs: seq<Byte>): (t: string)
    ensures |t| == 3 * |bs|
  {
    if bs == [] then [] else Escape(bs[0]) + EscapeBytes(bs[1..])
  }

  /** What `quote` writes for one character. */
  function QuoteChar(c: char): string {
    if IsSafe(c) then [c] else EscapeBytes(Utf8Char(c))
  }

  /** A character `quote` can write: a safe one, `%`, or an upper-case hex digit. */
  predicate IsQuoteOutput(c: char) {
    IsSafe(c) || c == '%' || IsUpperHexDigit(c)
  }

  lemma {:induction false} EscapeBytesOutput(bs: seq<Byte>)
    ensures forall i :: 0 <= i < |EscapeBytes(bs)| ==> IsQuoteOutput(EscapeBytes(bs)[i])
    decreases |bs|
  {
    if bs != [] {
      EscapeBytesOutput(bs[1..]);
      var e := Escape(bs[0]);
      var t := EscapeBytes(bs[1..]);
      assert EscapeBytes(bs) == e + t;
      forall i | 0 <= i < |e + t| ensures IsQuoteOutput((e + t)[i]) {
        if i >= 3 {
          assert (e + t)[i] == t[i - 3];
        }
      }
    }
  }

  lemma QuoteCharOutput(c: char)
    ensures forall i :: 0 <= i < |QuoteChar(c)| ==> IsQuoteOutput(QuoteChar(c)[i])
  {
    if !IsSafe(c) {
      EscapeBytesOutput(Utf8Char(c));
    }
  }

  /** `urllib.parse.quote(s)`: safe characters are kept, every other
      character is replaced by the `%XX` escapes of its UTF-8 bytes. */
  function Quote(s: string): (r: string)
    ensures |r| >= |s|
    ensures forall i :: 0 <= i < |r| ==> IsQuoteOutput(r[i])
  {
    if s == [] then []
    else
      var h := QuoteChar(s[0]);
      var t := Quote(s[1..]);
      QuoteCharOutput(s[0]);
      assert forall i :: |h| <= i < |h + t| ==> (h + t)[i] == t[i - |h|];
      h + t
  }

  /** `quote` leaves a string alone exactly when every character is safe. */
  lemma {:induction false} QuoteIdentity(s: string)
    ensures Quote(s) == s <==> forall i :: 0 <= i < |s| ==> IsSafe(s[i])
    decreases |s|
  {
    if s != [] {
      QuoteIdentity(s[1..]);
      var t := Quote(s[1..]);
      if IsSafe(s[0]) {
        assert Quote(s) == [s[0]] + t;
        assert s == [s[0]] + s[1..];
        if Quote(s) == s {
          assert t == s[1..];
        }
        if forall i :: 0 <= i < |s| ==> IsSafe(s[i]) {
          assert forall i :: 0 <= i < |s[1..]| ==> IsSafe(s[1..][i]) by {
            forall i | 0 <= i < |s[1..]| ensures IsSafe(s[1..][i]) {
              assert s[1..][i] == s[i + 1];
            }
          }
        }
      } else {
        var e := EscapeBytes(Utf8Char(s[0]));
        assert Quote(s) == e + t;
        assert |Quote(s)| > |s|;
      }
    }
  }

  /** `urllib.parse.unquote_to_bytes`: `%XX` (either case) becomes the byte
      XX; any other character, a stray `%` included, stands for its own UTF-8
      bytes. */
  function UnquoteToBytes(t: string): seq<Byte>
    decreases |t|
  {
    if t == [] then []
    else if t[0] == '%' && |t| >= 3 && IsHexDigit(t[1]) && IsHexDigit(t[2]) then
      [HexValue(t[1]) * 16 + HexValue(t[2])] + UnquoteToBytes(t[3..])
    else Utf8Char(t[0]) + UnquoteToBytes(t[1..])
  }

  /** `urllib.parse.unquote` with strict UTF-8 decoding. */
  function Unquote(t: string): Option<string> {
    Utf8Decode(UnquoteToBytes(t))
  }

  /** One `%XX` escape is read back as its byte. */
  lemma UnquoteEscape(b: Byte, t: string)
    ensures UnquoteToBytes(Escape(b) + t) == [b] + UnquoteToBytes(t)
  {
    var e := Escape(b);
    assert (e + t)[3..] == t;
    assert (e + t)[0] == '%' && (e + t)[1] == e[1] && (e + t)[2] == e[2];
  }

  lemma ConsAppend(bs: seq<Byte>, x: seq<Byte>)
    requires bs != []
    ensures bs + x == [bs[0]] + (bs[1..] + x)
  {
    assert bs == [bs[0]] + bs[1..];
  }

  lemma {:induction false} UnquoteEscapes(bs: seq<Byte>, rest: string)
    ensures UnquoteToBytes(EscapeBytes(bs) + rest) == bs + UnquoteToBytes(rest)
    decreases |bs|
  {
    if bs == [] {
      assert EscapeBytes(bs) + rest == rest;
    } else {
      var b, tail := bs[0], bs[1..];
      var t := EscapeBytes(tail) + rest;
      assert EscapeBytes(bs) + rest == Escape(b) + t;
      UnquoteEscape(b, t);
      UnquoteEscapes(tail, rest);
      ConsAppend(bs, UnquoteToBytes(rest));
    }
  }

  /** Unquoting a quoted string yields the UTF-8 bytes of the original. */
  lemma {:induction false} UnquoteQuoteBytes(s: string)
    ensures UnquoteToBytes(Quote(s)) == Utf8(s)
    decreases |s|
  {
    if s != [] {
      var t := Quote(s[1..]);
      UnquoteQuoteBytes(s[1..]);
      if IsSafe(s[0]) {
        assert Quote(s) == [s[0]] + t;
        assert ([s[0]] + t)[1..] == t;
      } else {
        assert Quote(s) == EscapeBytes(Utf8Char(s[0])) + t;
        UnquoteEscapes(Utf8Char(s[0]), t);
      }
    }
  }

  /** `unquote(quote(s)) == s` for every string. */
  lemma UnquoteQuote(s: string)
    ensures Unquote(Quote(s)) == Some(s)
  {
    UnquoteQuoteBytes(s);
    Utf8RoundTrip(s);
  }

  /** `quote` works character by character: it distributes over concatenation. */
  lemma {:induction false} QuoteAppend(a: string, b: string)
    ensures Quote(a + b) == Quote(a) + Quote(b)
    decreases |a|
  {
    if a == [] {
      assert a + b == b;
    } else {
      assert (a + b)[0] == a[0] && (a + b)[1..] == a[1..] + b;
      QuoteAppend(a[1..], b);
    }
  }

  /** A space is written as `%20`. */
  lemma QuoteOfSpace()
    ensures Quote(" ") == "%20"
  {
    assert !IsSafe(' ');
    assert Utf8Char(' ') == [32];
    assert HexDigit(2) == '2' && HexDigit(0) == '0';
    assert Escape(32) == "%20";
    assert EscapeBytes([32]) == Escape(32) + EscapeBytes([]);
    assert Quote(" ") == QuoteChar(' ') + Quote([]);
  }

  /** Between safe words a space becomes `%20`: `quote("Bearer TOKEN")` is
      `Bearer%20TOKEN`. */
  lemma QuoteEncodesSpace(a: string, b: string)
    requires forall i :: 0 <= i < |a| ==> IsSafe(a[i])
    requires forall i :: 0 <= i < |b| ==> IsSafe(b[i])
    ensures Quote(a + " " + b) == a + "%20" + b
  {
    QuoteOfSpace();
    QuoteIdentity(a);
    QuoteIdentity(b);
    QuoteAppend(a, " ");
    QuoteAppend(a + " ", b);
  }
}
