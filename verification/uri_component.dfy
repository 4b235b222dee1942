/** `encodeURIComponent` and `decodeURIComponent` over strings of Unicode
    scalar values: percent-encoding of UTF-8 octets as in section 2.1 of
    RFC 3986 ("%" followed by two upper-case hexadecimal digits), with the
    decoder's URIError cases.
 */
module UriComponent {
  import opened JsValues

  type Byte = b: int | 0 <= b < 256

  /** Characters `encodeURIComponent` copies unchanged: ASCII letters,
      digits and `- _ . ! ~ * ' ( )`. */
  predicate Unescaped(c: char)
  {
    ('a' <= c <= 'z') || ('A' <= c <= 'Z') || ('0' <= c <= '9')
    || c == '-' || c == '_' || c == '.' || c == '!' || c == '~'
    || c == '*' || c == '\'' || c == '(' || c == ')'
  }

  // ---------------------------------------------------------------------
  // UTF-8
  // ---------------------------------------------------------------------

  /** A continuation octet `10xxxxxx`. */
  predicate IsContinuation(b: Byte)
  {
    0x80 <= b < 0xC0
  }

  /** Number of leading one bits of an octet. */
  function LeadingOnes(b: Byte): nat
  {
    if b < 0x80 then 0 else if b < 0xC0 then 1 else if b < 0xE0 then 2
    else if b < 0xF0 then 3 else if b < 0xF8 then 4 else if b < 0xFC then 5
    else if b < 0xFE then 6 else if b < 0xFF then 7 else 8
  }

  /** The UTF-8 encoding of one code point. */
  function Utf8(c: char): (r: seq<Byte>)
    ensures 1 <= |r| <= 4
    ensures |r| == 1 <==> (c as int) < 0x80
    ensures |r| == 1 ==> r[0] == c as int
    ensures |r| > 1 ==> LeadingOnes(r[0]) == |r| && forall i :: 1 <= i < |r| ==> IsContinuation(r[i])
  {
    var n := c as int;
    if n < 0x80 then [n]
    else if n < 0x800 then [0xC0 + n / 64, 0x80 + n % 64]
    else if n < 0x10000 then [0xE0 + n / 4096, 0x80 + (n / 64) % 64, 0x80 + n % 64]
    else [0xF0 + n / 262144, 0x80 + (n / 4096) % 64, 0x80 + (n / 64) % 64, 0x80 + n % 64]
  }

  /** The code point of a multi-octet sequence whose lead octet announces
      its length and whose other octets are continuations; None when the
      sequence is not well formed UTF-8 (overlong, a surrogate, or beyond
      U+10FFFF). */
  function Utf8Decode(bytes: seq<Byte>): Option<char>
    requires 2 <= |bytes| <= 4 && LeadingOnes(bytes[0]) == |bytes|
    requires forall i :: 1 <= i < |bytes| ==> IsContinuation(bytes[i])
  {
    var b0: int := bytes[0];
    var b1: int := bytes[1];
    if |bytes| == 2 then
      var cp := (b0 - 0xC0) * 64 + (b1 - 0x80);
      if cp >= 0x80 then Some(cp as char) else None
    else if |bytes| == 3 then
      var b2: int := bytes[2];
      var cp := (b0 - 0xE0) * 4096 + (b1 - 0x80) * 64 + (b2 - 0x80);
      if cp >= 0x800 && !(0xD800 <= cp <= 0xDFFF) then Some(cp as char) else None
    else
      var b2: int := bytes[2];
      var b3: int := bytes[3];
      var cp := (b0 - 0xF0) * 262144 + (b1 - 0x80) * 4096 + (b2 - 0x80) * 64 + (b3 - 0x80);
      if 0x10000 <= cp <= 0x10FFFF then Some(cp as char) else None
  }

  lemma DivMod64(n: int)
    requires n >= 0
    ensures n == (n / 64) * 64 + n % 64
    ensures n / 4096 == (n / 64) / 64
    ensures n / 262144 == (n / 4096) / 64
  {
  }

  /** Decoding the octets of a code point gives the code point back. */
  lemma Utf8RoundTrip(c: char)
    requires (c as int) >= 0x80
    ensures Utf8Decode(Utf8(c)) == Some(c)
  {
    var n := c as int;
    DivMod64(n);
    DivMod64(n / 64);
    DivMod64(n / 4096);
    var b: seq<int> := Utf8(c);
    if n < 0x800 {
      assert (b[0] - 0xC0) * 64 + (b[1] - 0x80) == n;
    } else if n < 0x10000 {
      assert (b[0] - 0xE0) * 4096 + (b[1] - 0x80) * 64 + (b[2] - 0x80) == n;
    } else {
      assert (b[0] - 0xF0) * 262144 + (b[1] - 0x80) * 4096 + (b[2] - 0x80) * 64 + (b[3] - 0x80) == n;
    }
  }

  // ---------------------------------------------------------------------
  // Percent-encoding
  // ---------------------------------------------------------------------

  function HexDigit(d: nat): (c: char)
    requires d < 16
    ensures ('0' <= c <= '9' || 'A' <= c <= 'F') && DigitValue(c, 16) == Some(d)
  {
    if d < 10 then (('0' as int) + d) as char else (('A' as int) + d - 10) as char
  }

  /** One percent-encoded octet. */
  function PercentByte(b: Byte): (r: string)
    ensures |r| == 3 && r[0] == '%'
    ensures DigitValue(r[1], 16).Some? && DigitValue(r[2], 16).Some?
    ensures DigitValue(r[1], 16).value * 16 + DigitValue(r[2], 16).value == b
  {
    ['%', HexDigit(b / 16), HexDigit(b % 16)]
  }

  function PercentBytes(bs: seq<Byte>): (r: string)
    ensures |r| == 3 * |bs|
  {
    if bs == [] then [] else PercentByte(bs[0]) + PercentBytes(bs[1..])
  }

  /** The characters the encoder can emit. */
  predicate EncodedChar(c: char)
  {
    Unescaped(c) || c == '%'
  }

  function EncodeChar(c: char): (r: string)
    ensures r != []
    ensures forall i :: 0 <= i < |r| ==> EncodedChar(r[i])
  {
    if Unescaped(c) then [c] else PercentOctets(Utf8(c))
  }

  function PercentOctets(bs: seq<Byte>): (r: string)
    ensures r == PercentBytes(bs)
    ensures forall i :: 0 <= i < |r| ==> EncodedChar(r[i])
  {
    if bs == [] then []
    else
      var h := PercentByte(bs[0]);
      assert forall i :: 0 <= i < 3 ==> EncodedChar(h[i]);
      h + PercentOctets(bs[1..])
  }

  /** `encodeURIComponent(s)`. */
  function Encode(s: string): (r: string)
    ensures |r| >= |s|
    ensures forall i :: 0 <= i < |r| ==> EncodedChar(r[i])
  {
    if s == [] then [] else EncodeChar(s[0]) + Encode(s[1..])
  }

  /** The encoder never emits "=" (nor "&", "#" or "?"). */
  lemma EncodeHasNoSeparators(s: string)
    ensures '=' !in Encode(s) && '&' !in Encode(s) && '#' !in Encode(s) && '?' !in Encode(s)
  {
  }

  // ---------------------------------------------------------------------
  // Decoding
  // ---------------------------------------------------------------------

  /** A "%XX" escape at the start of `s`, in either case of hex digit. */
  function ReadByte(s: string): (r: Option<Byte>)
    ensures r.Some? ==> |s| >= 3 && s[0] == '%'
  {
    if |s| >= 3 && s[0] == '%' && DigitValue(s[1], 16).Some? && DigitValue(s[2], 16).Some?
    then Some(DigitValue(s[1], 16).value * 16 + DigitValue(s[2], 16).value)
    else None
  }

  /** `count` escaped continuation octets at the start of `s`. */
  function ReadContinuations(s: string, count: nat): (r: Option<seq<Byte>>)
    ensures r.Some? ==> |r.value| == count && |s| >= 3 * count
    ensures r.Some? ==> forall i :: 0 <= i < count ==> IsContinuation(r.value[i])
  {
    if count == 0 then Some([])
    else match ReadByte(s)
      case None => None
      case Some(b) =>
        if !IsContinuation(b) then None
        else match ReadContinuations(s[3..], count - 1)
          case None => None
          case Some(rest) => Some([b] + rest)
  }

  function Prepend(c: char, r: Completion<string>): Completion<string>
  {
    match r
    case Normal(t) => Normal([c] + t)
    case Thrown(e) => Thrown(e)
  }

  /** `decodeURIComponent(s)`: escapes are decoded as UTF-8; a malformed
      escape, a bad lead or continuation octet, or an ill-formed sequence
      throws URIError. */
  function Decode(s: string): (r: Completion<string>)
    ensures r.Thrown? ==> r.error == URIError
    decreases |s|
  {
    if s == [] then Normal([])
    else if s[0] != '%' then Prepend(s[0], Decode(s[1..]))
    else match ReadByte(s)
      case None => Thrown(URIError)
      case Some(b) =>
        if b < 0x80 then Prepend(b as char, Decode(s[3..]))
        else
          var n := LeadingOnes(b);
          if n == 1 || n > 4 then Thrown(URIError)
          else match ReadContinuations(s[3..], n - 1)
            case None => Thrown(URIError)
            case Some(cont) =>
              match Utf8Decode([b] + cont)
              case None => Thrown(URIError)
              case Some(c) => Prepend(c, Decode(s[3 * n..]))
  }

  /** Text without "%" decodes to itself. */
  lemma {:induction false} DecodePlain(s: string)
    requires '%' !in s
    ensures Decode(s) == Normal(s)
  {
    if s != [] {
      DecodePlain(s[1..]);
      assert [s[0]] + s[1..] == s;
    }
  }

  /** An escaped octet reads back as that octet, and reading resumes
      right after it. */
  lemma ReadPercentByte(b: Byte, t: string)
    ensures ReadByte(PercentByte(b) + t) == Some(b)
    ensures (PercentByte(b) + t)[3..] == t
  {
    var u := PercentByte(b) + t;
    assert u[0] == '%' && u[1] == PercentByte(b)[1] && u[2] == PercentByte(b)[2];
  }

  lemma {:induction false} ReadContinuationsOfEncoded(bs: seq<Byte>, t: string)
    requires forall i :: 0 <= i < |bs| ==> IsContinuation(bs[i])
    ensures ReadContinuations(PercentBytes(bs) + t, |bs|) == Some(bs)
  {
    if bs != [] {
      var rest := PercentBytes(bs[1..]) + t;
      var u := PercentBytes(bs) + t;
      assert u == PercentByte(bs[0]) + rest;
      ReadPercentByte(bs[0], rest);
      ReadContinuationsOfEncoded(bs[1..], t);
      assert ReadContinuations(rest, |bs| - 1) == Some(bs[1..]);
      assert [bs[0]] + bs[1..] == bs;
    }
  }

  /** An escaped ASCII character decodes to itself. */
  lemma DecodeEscapedAscii(c: char, t: string)
    requires (c as int) < 0x80
    ensures Decode(PercentByte(c as int) + t) == Prepend(c, Decode(t))
  {
    ReadPercentByte(c as int, t);
  }

  /** The escaped octets of a non-ASCII character decode to it. */
  lemma DecodeEscapedMultiOctet(c: char, t: string)
    requires (c as int) >= 0x80
    ensures Decode(PercentOctets(Utf8(c)) + t) == Prepend(c, Decode(t))
  {
    var bs := Utf8(c);
    var n := |bs|;
    var u := PercentBytes(bs) + t;
    assert u == PercentByte(bs[0]) + (PercentBytes(bs[1..]) + t);
    ReadPercentByte(bs[0], PercentBytes(bs[1..]) + t);
    ReadContinuationsOfEncoded(bs[1..], t);
    assert [bs[0]] + bs[1..] == bs;
    Utf8RoundTrip(c);
    assert u[3 * n..] == t;
  }

  /** Decoding the encoding of one character, followed by anything. */
  lemma DecodeEncodedChar(c: char, t: string)
    ensures Decode(EncodeChar(c) + t) == Prepend(c, Decode(t))
  {
    if Unescaped(c) {
      var u := EncodeChar(c) + t;
      assert u[0] == c && u[1..] == t;
    } else if (c as int) < 0x80 {
      assert Utf8(c) == [c as int];
      assert PercentOctets(Utf8(c)) == PercentByte(c as int);
      DecodeEscapedAscii(c, t);
    } else {
      DecodeEscapedMultiOctet(c, t);
    }
  }

  /** `decodeURIComponent(encodeURIComponent(s)) === s`. */
  lemma {:induction false} DecodeEncode(s: string)
    ensures Decode(Encode(s)) == Normal(s)
  {
    if s != [] {
      DecodeEncode(s[1..]);
      DecodeEncodedChar(s[0], Encode(s[1..]));
      assert [s[0]] + s[1..] == s;
    }
  }

  /** A lone "%" or a truncated escape throws. */
  lemma TruncatedEscapeThrows()
    ensures Decode("%") == Thrown(URIError)
    ensures Decode("%4") == Thrown(URIError)
    ensures Decode("%E0%A4") == Thrown(URIError)
  {
    assert ReadByte("%E0%A4") == Some(0xE0);
    assert "%E0%A4"[3..] == "%A4";
    assert ReadContinuations("%A4", 2) == None by {
      assert ReadByte("%A4") == Some(0xA4);
      assert "%A4"[3..] == "";
    }
  }
}
