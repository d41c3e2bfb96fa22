/**
 * `encodeURIComponent` as ECMAScript defines it: every character outside
 * the unescaped set `A-Z a-z 0-9 - _ . ! ~ * ' ( )` is written as the UTF-8
 * bytes of its code point, each byte as `%` and two upper-case hexadecimal
 * digits (percent-encoding, section 2.1 of RFC 3986).
 *
 * `Decode` is a reference inverse, used only to state that encoding loses
 * nothing (`DecodeEncode`), hence that it is injective.
 */
module UriEncoding {
  import opened Wrappers

  type Byte = b: int | 0 <= b < 256

  /** The characters `encodeURIComponent` copies unchanged. */
  predicate IsUnescaped(c: char) {
    ('A' <= c <= 'Z') || ('a' <= c <= 'z') || ('0' <= c <= '9')
    || c == '-' || c == '_' || c == '.' || c == '!' || c == '~'
    || c == '*' || c == '\'' || c == '(' || c == ')'
  }

  /** A Unicode scalar value: a code point that is not a surrogate. */
  predicate IsScalar(v: int) {
    (0 <= v < 0xD800) || (0xE000 <= v < 0x11_0000)
  }

  /** The length of a UTF-8 sequence announced by its first byte (0: none). */
  function Utf8Length(b0: Byte): nat {
    if b0 < 0x80 then 1
    else if b0 < 0xC0 then 0
    else if b0 < 0xE0 then 2
    else if b0 < 0xF0 then 3
    else if b0 < 0xF8 then 4
    else 0
  }

  predicate IsContinuation(b: Byte) {
    0x80 <= b < 0xC0
  }

  /** The code point a well-formed UTF-8 sequence stands for. */
  function Utf8Value(bs: seq<Byte>): int
    requires 1 <= |bs| <= 4
  {
    var b0, b1, b2, b3 := ValueAt(bs, 0), ValueAt(bs, 1), ValueAt(bs, 2), ValueAt(bs, 3);
    if |bs| == 1 then b0
    else if |bs| == 2 then (b0 - 0xC0) * 64 + (b1 - 0x80)
    else if |bs| == 3 then ((b0 - 0xE0) * 64 + (b1 - 0x80)) * 64 + (b2 - 0x80)
    else (((b0 - 0xF0) * 64 + (b1 - 0x80)) * 64 + (b2 - 0x80)) * 64 + (b3 - 0x80)
  }

  /** The k-th byte as an integer, 0 past the end. */
  function ValueAt(bs: seq<Byte>, k: nat): int {
    if k < |bs| then bs[k] as int else 0
  }

  /** The UTF-8 encoding of one character: a well-formed sequence that
      stands for the character's code point, in the shortest form section 3
      of RFC 3629 requires (no overlong encoding). */
  function Utf8(c: char): (bs: seq<Byte>)
    ensures |bs| == (if c as int < 0x80 then 1 else if c as int < 0x800 then 2
                     else if c as int < 0x1_0000 then 3 else 4)
    ensures 1 <= |bs| <= 4
    ensures Utf8Length(bs[0]) == |bs|
    ensures forall k :: 1 <= k < |bs| ==> IsContinuation(bs[k])
    ensures Utf8Value(bs) == c as int
  {
    var cp := c as int;
    var q1 := cp / 64;
    var q2 := q1 / 64;
    var q3 := q2 / 64;
    if cp < 0x80 then [cp]
    else if cp < 0x800 then [0xC0 + q1, 0x80 + cp % 64]
    else if cp < 0x1_0000 then [0xE0 + q2, 0x80 + q1 % 64, 0x80 + cp % 64]
    else [0xF0 + q3, 0x80 + q2 % 64, 0x80 + q1 % 64, 0x80 + cp % 64]
  }

  function HexDigit(n: int): char
    requires 0 <= n < 16
  {
    "0123456789ABCDEF"[n]
  }

  function HexValue(c: char): Option<int> {
    if '0' <= c <= '9' then Some(c as int - '0' as int)
    else if 'A' <= c <= 'F' then Some(c as int - 'A' as int + 10)
    else if 'a' <= c <= 'f' then Some(c as int - 'a' as int + 10)
    else None
  }

  /** Each byte as `%XY`. */
  function PercentEncode(bs: seq<Byte>): (r: string)
    ensures |r| == 3 * |bs|
  {
    if bs == [] then []
    else ['%', HexDigit(bs[0] / 16), HexDigit(bs[0] % 16)] + PercentEncode(bs[1..])
  }

  function EncodeChar(c: char): string {
    if IsUnescaped(c) then [c] else PercentEncode(Utf8(c))
  }

  /** `encodeURIComponent(s)`: the result consists of unescaped characters
      and `%` only, and is never shorter than `s`. */
  function EncodeURIComponent(s: string): (r: string)
    ensures |r| >= |s|
    ensures forall k :: 0 <= k < |r| ==> IsUnescaped(r[k]) || r[k] == '%'
  {
    if s == [] then []
    else
      var head := EncodeChar(s[0]);
      assert forall k :: 0 <= k < |head| ==> IsUnescaped(head[k]) || head[k] == '%' by {
        if !IsUnescaped(s[0]) { PercentEncodeChars(Utf8(s[0])); }
      }
      head + EncodeURIComponent(s[1..])
  }

  lemma {:induction false} PercentEncodeChars(bs: seq<Byte>)
    ensures forall k :: 0 <= k < |PercentEncode(bs)| ==>
      IsUnescaped(PercentEncode(bs)[k]) || PercentEncode(bs)[k] == '%'
  {
    if bs != [] {
      PercentEncodeChars(bs[1..]);
    }
  }

  /** The byte written as `%XY` at the start of `s`. */
  function PercentByte(s: string): Option<Byte> {
    if |s| >= 3 && s[0] == '%' && HexValue(s[1]).Some? && HexValue(s[2]).Some? then
      Some(HexValue(s[1]).value * 16 + HexValue(s[2]).value)
    else None
  }

  /** n bytes written as `%XY` at the start of `s`. */
  function PercentBytes(s: string, n: nat): Option<seq<Byte>>
    decreases n
  {
    if n == 0 then Some([])
    else match PercentByte(s)
      case None => None
      case Some(b) =>
        match PercentBytes(s[3..], n - 1)
        case None => None
        case Some(rest) => Some([b] + rest)
  }

  function Prepend(c: char, r: Option<string>): Option<string> {
    match r
    case None => None
    case Some(t) => Some([c] + t)
  }

  /** The inverse of `EncodeURIComponent`; None on text it cannot produce
      a character from (a bad escape or a bad UTF-8 sequence). */
  function Decode(s: string): Option<string>
    decreases |s|
  {
    if s == [] then Some([])
    else if s[0] != '%' then Prepend(s[0], Decode(s[1..]))
    else match PercentByte(s)
      case None => None
      case Some(b0) =>
        var n := Utf8Length(b0);
        if n == 0 || |s| < 3 * n then None
        else match PercentBytes(s, n)
          case None => None
          case Some(bs) =>
            if |bs| != n || (exists k :: 1 <= k < n && !IsContinuation(bs[k])) then None
            else
              var v := Utf8Value(bs);
              if !IsScalar(v) then None else Prepend(v as char, Decode(s[3 * n..]))
  }

  lemma HexRoundTrip(n: int)
    requires 0 <= n < 16
    ensures HexValue(HexDigit(n)) == Some(n)
  {
  }

  lemma {:induction false} PercentBytesOfEncode(bs: seq<Byte>, rest: string)
    ensures PercentBytes(PercentEncode(bs) + rest, |bs|) == Some(bs)
  {
    if bs != [] {
      var b := bs[0];
      var tail := PercentEncode(bs[1..]) + rest;
      var s := PercentEncode(bs) + rest;
      assert s == ['%', HexDigit(b / 16), HexDigit(b % 16)] + tail;
      PercentByteHead(b, tail);
      assert s[3..] == tail;
      PercentBytesOfEncode(bs[1..], rest);
      assert [b] + bs[1..] == bs;
    }
  }

  /** One `%XY` escape reads back as its byte. */
  lemma PercentByteHead(b: Byte, tail: string)
    ensures PercentByte(['%', HexDigit(b / 16), HexDigit(b % 16)] + tail) == Some(b)
  {
    HexRoundTrip(b / 16);
    HexRoundTrip(b % 16);
  }

  /** Decoding reads back one encoded character and goes on after it. */
  lemma DecodeEncodeChar(c: char, rest: string)
    ensures Decode(EncodeChar(c) + rest) == Prepend(c, Decode(rest))
  {
    var s := EncodeChar(c) + rest;
    if IsUnescaped(c) {
      assert s[0] == c && s[1..] == rest;
    } else {
      var bs := Utf8(c);
      var n := |bs|;
      PercentBytesOfEncode(bs, rest);
      assert PercentByte(s) == Some(bs[0]) by {
        HexRoundTrip(bs[0] / 16);
        HexRoundTrip(bs[0] % 16);
        assert s[..3] == ['%', HexDigit(bs[0] / 16), HexDigit(bs[0] % 16)];
      }
      assert s[3 * n..] == rest;
      assert (c as int) as char == c;
    }
  }

  /** Encoding loses nothing: decoding gives the original text back. */
  lemma {:induction false} DecodeEncode(s: string)
    ensures Decode(EncodeURIComponent(s)) == Some(s)
  {
    if s != [] {
      DecodeEncodeChar(s[0], EncodeURIComponent(s[1..]));
      DecodeEncode(s[1..]);
      assert [s[0]] + s[1..] == s;
    }
  }

  /** Different texts never encode alike. */
  lemma EncodeInjective(a: string, b: string)
    requires EncodeURIComponent(a) == EncodeURIComponent(b)
    ensures a == b
  {
    DecodeEncode(a);
    DecodeEncode(b);
  }

  /** Text made of unescaped characters is left as it is. */
  lemma {:induction false} EncodeUnescaped(s: string)
    requires forall k :: 0 <= k < |s| ==> IsUnescaped(s[k])
    ensures EncodeURIComponent(s) == s
  {
    if s != [] {
      EncodeUnescaped(s[1..]);
      assert [s[0]] + s[1..] == s;
    }
  }
}
