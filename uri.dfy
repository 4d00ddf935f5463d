/**
  Percent-encoding of URI components as ECMAScript defines it for
  `decodeURIComponent` and `encodeURIComponent` (section 19.2.6 of
  ECMA-262), built on RFC 3986 section 2.1 escapes and UTF-8 (RFC 3629).

  Strings are sequences of Unicode scalar values; a JavaScript string
  holds the same text as UTF-16 code units, which changes nothing here
  because both functions work on whole code points.
*/
module Uri {
  import opened Wrappers

  /** An octet of a UTF-8 encoding. */
  type Byte = x: int | 0 <= x < 256

  predicate IsHexDigit(c: char) {
    '0' <= c <= '9' || 'A' <= c <= 'F' || 'a' <= c <= 'f'
  }

  function HexValue(c: char): (v: int)
    requires IsHexDigit(c)
    ensures 0 <= v < 16
  {
    if '0' <= c <= '9' then c as int - '0' as int
    else if 'A' <= c <= 'F' then c as int - 'A' as int + 10
    else c as int - 'a' as int + 10
  }

  /** The upper-case hex digit `encodeURIComponent` emits. */
  function HexDigit(v: int): (c: char)
    requires 0 <= v < 16
    ensures IsHexDigit(c) && HexValue(c) == v
  {
    if v < 10 then (v + '0' as int) as char else (v - 10 + 'A' as int) as char
  }

  /** The octet written by the escape `%XY` at the start of `s`, if there is one. */
  function Escape(s: string): (r: Option<Byte>)
    ensures r.Some? <==> 3 <= |s| && s[0] == '%' && IsHexDigit(s[1]) && IsHexDigit(s[2])
  {
    if 3 <= |s| && s[0] == '%' && IsHexDigit(s[1]) && IsHexDigit(s[2])
    then Some(HexValue(s[1]) * 16 + HexValue(s[2]))
    else None
  }

  /** Number of octets a UTF-8 sequence with this leading octet has; 0 when the octet cannot lead one. */
  function LeadLength(b: Byte): (n: nat)
    ensures n <= 4
  {
    if b < 0x80 then 1
    else if b < 0xC0 then 0
    else if b < 0xE0 then 2
    else if b < 0xF0 then 3
    else if b < 0xF8 then 4
    else 0
  }

  /** The `count` continuation octets (`10xxxxxx`) escaped at the start of `s`. */
  function Continuations(s: string, count: nat): (r: Option<seq<Byte>>)
    ensures r.Some? ==> |r.value| == count && 3 * count <= |s|
    ensures r.Some? ==> forall i :: 0 <= i < count ==> 0x80 <= r.value[i] < 0xC0
  {
    if count == 0 then Some([])
    else match Escape(s)
      case None => None
      case Some(b) =>
        if !(0x80 <= b < 0xC0) then None
        else match Continuations(s[3..], count - 1)
          case None => None
          case Some(rest) => Some([b] + rest)
  }

  /** The code point a lead octet and its continuation octets spell, before the validity test. */
  function CodePoint(lead: Byte, cont: seq<Byte>): int
    requires |cont| == LeadLength(lead) - 1 && 2 <= LeadLength(lead)
    requires forall i :: 0 <= i < |cont| ==> 0x80 <= cont[i] < 0xC0
  {
    var n := LeadLength(lead);
    if n == 2 then (lead - 0xC0) * 64 + (cont[0] - 0x80)
    else if n == 3 then ((lead - 0xE0) * 64 + (cont[0] - 0x80)) * 64 + (cont[1] - 0x80)
    else (((lead - 0xF0) * 64 + (cont[0] - 0x80)) * 64 + (cont[1] - 0x80)) * 64 + (cont[2] - 0x80)
  }

  /** Shortest form, no surrogate, at most U+10FFFF: what "a valid UTF-8 encoding of a code point" means. */
  predicate ValidScalar(n: nat, cp: int) {
    if n == 2 then 0x80 <= cp < 0x800
    else if n == 3 then 0x800 <= cp < 0x10000 && !(0xD800 <= cp < 0xE000)
    else n == 4 && 0x10000 <= cp < 0x110000
  }

  /**
    The character spelled by the escape, or run of escapes, at the start of
    `s` (which starts with `%`), and how many characters it takes up;
    `None` when the escapes are malformed or do not form a valid UTF-8
    sequence.
  */
  function EscapedChar(s: string): (r: Option<(char, nat)>)
    ensures r.Some? ==> 3 <= r.value.1 <= |s| && r.value.1 % 3 == 0
  {
    match Escape(s)
    case None => None
    case Some(lead) =>
      var n := LeadLength(lead);
      if n == 0 then None
      else if n == 1 then Some((lead as char, 3))
      else match Continuations(s[3..], n - 1)
        case None => None
        case Some(cont) =>
          var cp := CodePoint(lead, cont);
          if !ValidScalar(n, cp) then None
          else Some((cp as char, 3 * n))
  }

  /**
    `decodeURIComponent`: every `%XY` escape (or run of escapes forming one
    UTF-8 sequence) becomes its character, every other character is kept;
    `None` stands for the URIError it throws on a malformed escape.
  */
  function Decode(s: string): (r: Option<string>)
    ensures r.Some? ==> |r.value| <= |s|
    decreases |s|
  {
    if s == [] then Some([])
    else if s[0] != '%' then Prepend(s[0], Decode(s[1..]))
    else match EscapedChar(s)
      case None => None
      case Some((c, len)) => Prepend(c, Decode(s[len..]))
  }

  /** A decoded character in front of the decoding of the rest; a failure stays a failure. */
  function Prepend(c: char, r: Option<string>): Option<string> {
    match r
    case None => None
    case Some(rest) => Some([c] + rest)
  }

  /** Text without `%` decodes to itself. */
  lemma {:induction false} DecodeWithoutEscapes(s: string)
    requires '%' !in s
    ensures Decode(s) == Some(s)
  {
    if s != [] {
      DecodeWithoutEscapes(s[1..]);
      assert [s[0]] + s[1..] == s;
    }
  }

  /** The characters `encodeURIComponent` leaves as they are. */
  predicate Unreserved(c: char) {
    'A' <= c <= 'Z' || 'a' <= c <= 'z' || '0' <= c <= '9'
    || c in "-_.!~*'()"
  }

  /** The UTF-8 encoding of one character. */
  function Utf8(c: char): (bytes: seq<Byte>)
    ensures 1 <= |bytes| <= 4
  {
    var cp := c as int;
    if cp < 0x80 then [cp]
    else if cp < 0x800 then [0xC0 + cp / 64, 0x80 + cp % 64]
    else if cp < 0x10000 then [0xE0 + (cp / 64) / 64, 0x80 + (cp / 64) % 64, 0x80 + cp % 64]
    else [0xF0 + ((cp / 64) / 64) / 64, 0x80 + ((cp / 64) / 64) % 64, 0x80 + (cp / 64) % 64, 0x80 + cp % 64]
  }

  /** What `encodeURIComponent` may emit. */
  predicate UriChar(c: char) {
    Unreserved(c) || c == '%' || IsHexDigit(c)
  }

  function EscapeBytes(bytes: seq<Byte>): (s: string)
    ensures |s| == 3 * |bytes|
    ensures forall i :: 0 <= i < |s| ==> UriChar(s[i])
  {
    if bytes == [] then [] else ['%', HexDigit(bytes[0] / 16), HexDigit(bytes[0] % 16)] + EscapeBytes(bytes[1..])
  }

  function EncodeChar(c: char): (s: string)
    ensures forall i :: 0 <= i < |s| ==> UriChar(s[i])
  {
    if Unreserved(c) then [c] else EscapeBytes(Utf8(c))
  }

  /** `encodeURIComponent`: unreserved characters are kept, every other one becomes the escapes of its UTF-8 octets. */
  function Encode(s: string): (r: string)
    ensures forall i :: 0 <= i < |r| ==> UriChar(r[i])
  {
    if s == [] then [] else EncodeChar(s[0]) + Encode(s[1..])
  }

  lemma EscapeOfByte(b: Byte, rest: string)
    ensures Escape(EscapeBytes([b]) + rest) == Some(b)
  {
    var w := EscapeBytes([b]) + rest;
    assert w[0] == '%' && w[1] == HexDigit(b / 16) && w[2] == HexDigit(b % 16);
  }

  lemma {:induction false} ContinuationsOfBytes(cont: seq<Byte>, rest: string)
    requires forall i :: 0 <= i < |cont| ==> 0x80 <= cont[i] < 0xC0
    ensures Continuations(EscapeBytes(cont) + rest, |cont|) == Some(cont)
  {
    if cont != [] {
      var w := EscapeBytes(cont) + rest;
      assert w == EscapeBytes([cont[0]]) + (EscapeBytes(cont[1..]) + rest);
      EscapeOfByte(cont[0], EscapeBytes(cont[1..]) + rest);
      assert w[3..] == EscapeBytes(cont[1..]) + rest;
      ContinuationsOfBytes(cont[1..], rest);
      assert [cont[0]] + cont[1..] == cont;
    }
  }

  /** The octets `Utf8` writes form one valid UTF-8 sequence that spells the character back. */
  lemma Utf8Sound(c: char)
    ensures var u := Utf8(c);
      && LeadLength(u[0]) == |u|
      && (forall i :: 1 <= i < |u| ==> 0x80 <= u[i] < 0xC0)
      && (|u| == 1 ==> u[0] == c as int)
      && (|u| >= 2 ==> CodePoint(u[0], u[1..]) == c as int && ValidScalar(|u|, c as int))
  {
    var cp := c as int;
    var q := cp / 64;
    assert cp == q * 64 + cp % 64;
    assert q == (q / 64) * 64 + q % 64;
    assert q / 64 == ((q / 64) / 64) * 64 + (q / 64) % 64;
  }

  /** The escapes of one well-formed multi-octet UTF-8 sequence decode to the code point it spells. */
  lemma DecodeSequence(u: seq<Byte>, rest: string)
    requires 2 <= |u| && LeadLength(u[0]) == |u|
    requires forall i :: 1 <= i < |u| ==> 0x80 <= u[i] < 0xC0
    requires ValidScalar(|u|, CodePoint(u[0], u[1..]))
    ensures Decode(EscapeBytes(u) + rest) == Prepend(CodePoint(u[0], u[1..]) as char, Decode(rest))
  {
    var w := EscapeBytes(u) + rest;
    assert w == EscapeBytes([u[0]]) + (EscapeBytes(u[1..]) + rest);
    EscapeOfByte(u[0], EscapeBytes(u[1..]) + rest);
    assert w[3..] == EscapeBytes(u[1..]) + rest;
    ContinuationsOfBytes(u[1..], rest);
    assert w[3 * |u|..] == rest;
    EscapedSequence(w, u[0], u[1..]);
  }

  /** The escapes of one well-formed multi-octet sequence whose octets are already known spell its code point. */
  lemma EscapedSequence(w: string, lead: Byte, cont: seq<Byte>)
    requires Escape(w) == Some(lead) && 2 <= LeadLength(lead) && |cont| == LeadLength(lead) - 1
    requires forall i :: 0 <= i < |cont| ==> 0x80 <= cont[i] < 0xC0
    requires Continuations(w[3..], |cont|) == Some(cont)
    requires ValidScalar(LeadLength(lead), CodePoint(lead, cont))
    ensures EscapedChar(w) == Some((CodePoint(lead, cont) as char, 3 * LeadLength(lead)))
  {
    assert Continuations(w[3..], LeadLength(lead) - 1) == Some(cont);
  }

  lemma DecodeEscapedChar(c: char, rest: string)
    requires !Unreserved(c)
    ensures Decode(EscapeBytes(Utf8(c)) + rest) == Prepend(c, Decode(rest))
  {
    var u := Utf8(c);
    Utf8Sound(c);
    if |u| == 1 {
      var w := EscapeBytes(u) + rest;
      EscapeOfByte(u[0], rest);
      assert w[3..] == rest;
      assert (u[0] as char) == c;
    } else {
      DecodeSequence(u, rest);
      assert (CodePoint(u[0], u[1..]) as char) == c;
    }
  }

  lemma DecodeEncodeChar(c: char, rest: string)
    ensures Decode(EncodeChar(c) + rest) == Prepend(c, Decode(rest))
  {
    if Unreserved(c) {
      var w := EncodeChar(c) + rest;
      assert w[0] == c && w[1..] == rest;
    } else {
      DecodeEscapedChar(c, rest);
    }
  }

  /** Decoding undoes encoding, for every string: `decodeURIComponent(encodeURIComponent(s)) === s`. */
  lemma {:induction false} DecodeEncode(s: string)
    ensures Decode(Encode(s)) == Some(s)
  {
    if s != [] {
      var tail := Encode(s[1..]);
      calc {
        Decode(Encode(s));
        Decode(EncodeChar(s[0]) + tail);
        { DecodeEncodeChar(s[0], tail); }
        Prepend(s[0], Decode(tail));
        { DecodeEncode(s[1..]); }
        Some([s[0]] + s[1..]);
        { assert [s[0]] + s[1..] == s; }
        Some(s);
      }
    }
  }

  /** Decoding never lengthens a string, shortens every string holding `%`, and keeps a leading character that is not `%`. */
  lemma {:induction false} DecodeShrinks(s: string)
    requires Decode(s).Some?
    ensures |Decode(s).value| <= |s|
    ensures '%' in s ==> |Decode(s).value| < |s|
    ensures s != [] && s[0] != '%' ==> |Decode(s).value| > 0 && Decode(s).value[0] == s[0]
    decreases |s|
  {
    if s != [] {
      if s[0] != '%' {
        DecodeShrinks(s[1..]);
        assert '%' in s ==> '%' in s[1..];
      } else {
        DecodeShrinks(s[EscapedChar(s).value.1..]);
      }
    }
  }
}
