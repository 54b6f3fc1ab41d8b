/**
 * `encodeURIComponent` as ECMAScript defines it over Unicode scalar values: every
 * character outside the unreserved set is written as the percent-escaped bytes of
 * its UTF-8 encoding, with upper-case hex digits. A reference decoder
 * (`decodeURIComponent`) is its partner: decoding undoes encoding.
 */
module UriCodec {
  import opened Wrappers

  type Byte = b: int | 0 <= b < 256

  /** The characters `encodeURIComponent` leaves alone: letters, digits and - _ . ! ~ * ' ( ) */
  predicate IsUnreserved(c: char)
  {
    ('A' <= c <= 'Z') || ('a' <= c <= 'z') || ('0' <= c <= '9')
    || c == '-' || c == '_' || c == '.' || c == '!' || c == '~' || c == '*' || c == '\'' || c == '(' || c == ')'
  }

  /** Upper-case hex digit for a value below 16. */
  function HexDigit(d: nat): (c: char)
    requires d < 16
    ensures ('0' <= c <= '9') || ('A' <= c <= 'F')
  {
    "0123456789ABCDEF"[d]
  }

  /** Value of a hex digit of either case. */
  function HexValue(c: char): (r: Option<nat>)
    ensures r.Some? ==> r.value < 16
  {
    if '0' <= c <= '9' then Some(c as int - '0' as int)
    else if 'A' <= c <= 'F' then Some(c as int - 'A' as int + 10)
    else if 'a' <= c <= 'f' then Some(c as int - 'a' as int + 10)
    else None
  }

  lemma HexRoundTrip(d: nat)
    requires d < 16
    ensures HexValue(HexDigit(d)) == Some(d)
  {
  }

  /** UTF-8 encoding of one Unicode scalar value. */
  function Utf8(c: char): (bs: seq<Byte>)
    ensures 1 <= |bs| <= 4
  {
    var u := c as int;
    var q1 := u / 64;
    var q2 := q1 / 64;
    var q3 := q2 / 64;
    if u < 0x80 then [u]
    else if u < 0x800 then [0xC0 + q1, 0x80 + u % 64]
    else if u < 0x10000 then [0xE0 + q2, 0x80 + q1 % 64, 0x80 + u % 64]
    else [0xF0 + q3, 0x80 + q2 % 64, 0x80 + q1 % 64, 0x80 + u % 64]
  }

  /** Each byte as "%XY". */
  function PercentEncode(bs: seq<Byte>): (r: string)
    ensures |r| == 3 * |bs|
  {
    if bs == [] then [] else ['%', HexDigit(bs[0] / 16), HexDigit(bs[0] % 16)] + PercentEncode(bs[1..])
  }

  function EncodeChar(c: char): string
  {
    if IsUnreserved(c) then [c] else PercentEncode(Utf8(c))
  }

  /** `encodeURIComponent(s)`. */
  function EncodeUriComponent(s: string): string
  {
    if s == [] then [] else EncodeChar(s[0]) + EncodeUriComponent(s[1..])
  }

  /** A character `encodeURIComponent` may write: an unreserved one or '%'. */
  predicate IsEncodedChar(c: char)
  {
    IsUnreserved(c) || c == '%'
  }

  /**
   * The output of `encodeURIComponent` consists of unreserved characters and '%'
   * only, so it never contains '/', '{', '}', '$', '&', '=' or '?'.
   */
  lemma {:induction false} EncodedCharacters(s: string)
    ensures forall k :: 0 <= k < |EncodeUriComponent(s)| ==> IsEncodedChar(EncodeUriComponent(s)[k])
  {
    if s != [] {
      var head := EncodeChar(s[0]);
      var tail := EncodeUriComponent(s[1..]);
      EncodedCharacters(s[1..]);
      if !IsUnreserved(s[0]) {
        PercentEncodedCharacters(Utf8(s[0]));
      }
      assert EncodeUriComponent(s) == head + tail;
      forall k | 0 <= k < |head + tail| ensures IsEncodedChar((head + tail)[k]) {
        if k >= |head| {
          assert (head + tail)[k] == tail[k - |head|];
        }
      }
    }
  }

  lemma {:induction false} PercentEncodedCharacters(bs: seq<Byte>)
    ensures forall k :: 0 <= k < |PercentEncode(bs)| ==> IsEncodedChar(PercentEncode(bs)[k])
  {
    if bs != [] {
      PercentEncodedCharacters(bs[1..]);
      var head := ['%', HexDigit(bs[0] / 16), HexDigit(bs[0] % 16)];
      var tail := PercentEncode(bs[1..]);
      assert PercentEncode(bs) == head + tail;
      forall k | 0 <= k < |head + tail| ensures IsEncodedChar((head + tail)[k]) {
        if k >= 3 {
          assert (head + tail)[k] == tail[k - 3];
        }
      }
    }
  }

  lemma {:induction false} EncodeConcat(a: string, b: string)
    ensures EncodeUriComponent(a + b) == EncodeUriComponent(a) + EncodeUriComponent(b)
  {
    if a != [] {
      assert (a + b)[1..] == a[1..] + b;
      EncodeConcat(a[1..], b);
    } else {
      assert a + b == b;
    }
  }

  /** Text made of unreserved characters only is left unchanged. */
  lemma {:induction false} EncodeUnreserved(s: string)
    requires forall k :: 0 <= k < |s| ==> IsUnreserved(s[k])
    ensures EncodeUriComponent(s) == s
  {
    if s != [] {
      EncodeUnreserved(s[1..]);
    }
  }

  // ---------------------------------------------------------------------------
  // The reference decoder

  /** The byte written as "%XY" at index `i` of `s`, if there is one. */
  function PercentByteAt(s: string, i: nat): (r: Option<Byte>)
    ensures r.Some? ==> i + 3 <= |s|
  {
    if i + 3 <= |s| && s[i] == '%' && HexValue(s[i + 1]).Some? && HexValue(s[i + 2]).Some? then
      Some(HexValue(s[i + 1]).value * 16 + HexValue(s[i + 2]).value)
    else None
  }

  /** Number of bytes announced by a UTF-8 leading byte. */
  function SequenceLength(b: Byte): Option<nat>
  {
    if b < 0x80 then Some(1)
    else if 0xC0 <= b < 0xE0 then Some(2)
    else if 0xE0 <= b < 0xF0 then Some(3)
    else if 0xF0 <= b < 0xF8 then Some(4)
    else None
  }

  predicate IsContinuation(b: Byte)
  {
    0x80 <= b < 0xC0
  }

  /** `n` escaped continuation bytes starting at index `i`. */
  function ContinuationBytes(s: string, i: nat, n: nat): (r: Option<seq<Byte>>)
    ensures r.Some? ==> |r.value| == n && (n > 0 ==> i + 3 * n <= |s|)
    decreases n
  {
    if n == 0 then Some([])
    else match PercentByteAt(s, i)
      case None => None
      case Some(b) =>
        if !IsContinuation(b) then None
        else match ContinuationBytes(s, i + 3, n - 1)
          case None => None
          case Some(rest) => Some([b] + rest)
  }

  /** The code point spelled by a leading byte and its continuation bytes. */
  function CodePoint(bs: seq<Byte>): int
    requires 1 <= |bs| <= 4
  {
    var b0: int := bs[0];
    if |bs| == 1 then b0
    else
      var b1: int := bs[1];
      if |bs| == 2 then (b0 - 0xC0) * 64 + (b1 - 0x80)
      else
        var b2: int := bs[2];
        if |bs| == 3 then ((b0 - 0xE0) * 64 + (b1 - 0x80)) * 64 + (b2 - 0x80)
        else
          var b3: int := bs[3];
          (((b0 - 0xF0) * 64 + (b1 - 0x80)) * 64 + (b2 - 0x80)) * 64 + (b3 - 0x80)
  }

  /** Smallest code point that needs `n` bytes; anything smaller is an over-long form. */
  function MinCodePoint(n: nat): int
  {
    if n <= 1 then 0 else if n == 2 then 0x80 else if n == 3 then 0x800 else 0x10000
  }

  predicate IsScalar(u: int)
  {
    (0 <= u < 0xD800) || (0xE000 <= u < 0x110000)
  }

  /** `[c] + rest`, failing when `rest` failed. */
  function Prepend(c: char, rest: Option<string>): Option<string>
  {
    match rest
    case None => None
    case Some(t) => Some([c] + t)
  }

  /**
   * `decodeURIComponent(s)`: `None` where the host throws URIError (a '%' without two
   * hex digits, a malformed, over-long or surrogate UTF-8 sequence).
   */
  function DecodeUriComponent(s: string): Option<string>
    decreases |s|
  {
    if s == [] then Some([])
    else if s[0] != '%' then Prepend(s[0], DecodeUriComponent(s[1..]))
    else match PercentByteAt(s, 0)
      case None => None
      case Some(b) =>
        match SequenceLength(b)
        case None => None
        case Some(n) =>
          match ContinuationBytes(s, 3, n - 1)
          case None => None
          case Some(cont) =>
            var u := CodePoint([b] + cont);
            if u < MinCodePoint(n) || !IsScalar(u) then None
            else Prepend(u as char, DecodeUriComponent(s[3 * n..]))
  }

  lemma Utf8Facts(c: char)
    ensures SequenceLength(Utf8(c)[0]) == Some(|Utf8(c)|)
    ensures forall k :: 1 <= k < |Utf8(c)| ==> IsContinuation(Utf8(c)[k])
    ensures CodePoint(Utf8(c)) == c as int
    ensures MinCodePoint(|Utf8(c)|) <= c as int
  {
    var u := c as int;
    var q1 := u / 64;
    var q2 := q1 / 64;
    var q3 := q2 / 64;
    assert u == q1 * 64 + u % 64;
    assert q1 == q2 * 64 + q1 % 64;
    assert q2 == q3 * 64 + q2 % 64;
  }

  lemma PercentEncodeHead(bs: seq<Byte>, rest: string)
    requires bs != []
    ensures PercentByteAt(PercentEncode(bs) + rest, 0) == Some(bs[0])
  {
    var b: int := bs[0];
    var t := PercentEncode(bs) + rest;
    var head := ['%', HexDigit(b / 16), HexDigit(b % 16)];
    assert PercentEncode(bs) == head + PercentEncode(bs[1..]);
    assert t[0] == head[0] && t[1] == head[1] && t[2] == head[2];
    PercentTriple(t, b / 16, b % 16);
  }

  lemma PercentTriple(t: string, h: nat, l: nat)
    requires h < 16 && l < 16
    requires 3 <= |t| && t[0] == '%' && t[1] == HexDigit(h) && t[2] == HexDigit(l)
    ensures PercentByteAt(t, 0) == Some(h * 16 + l)
  {
    HexRoundTrip(h);
    HexRoundTrip(l);
  }

  lemma {:induction false} PercentByteAtEncoded(bs: seq<Byte>, rest: string, k: nat)
    requires k < |bs|
    ensures PercentByteAt(PercentEncode(bs) + rest, 3 * k) == Some(bs[k])
  {
    if k == 0 {
      PercentEncodeHead(bs, rest);
    } else {
      var t := PercentEncode(bs) + rest;
      var t' := PercentEncode(bs[1..]) + rest;
      assert t[3..] == t';
      PercentByteAtEncoded(bs[1..], rest, k - 1);
      PercentByteAtShift(t, 3, 3 * (k - 1));
      assert 3 + 3 * (k - 1) == 3 * k;
    }
  }

  lemma PercentByteAtShift(s: string, d: nat, i: nat)
    requires d <= |s|
    ensures PercentByteAt(s, d + i) == PercentByteAt(s[d..], i)
  {
  }

  lemma {:induction false} ContinuationBytesEncoded(t: string, bs: seq<Byte>, j: nat, n: nat)
    requires 1 <= j && j + n <= |bs|
    requires forall k :: 1 <= k < |bs| ==> IsContinuation(bs[k])
    requires forall k :: 0 <= k < |bs| ==> PercentByteAt(t, 3 * k) == Some(bs[k])
    ensures ContinuationBytes(t, 3 * j, n) == Some(bs[j..j + n])
    decreases n
  {
    if n > 0 {
      ContinuationBytesEncoded(t, bs, j + 1, n - 1);
      ContinuationStep(t, 3 * j, n - 1, bs[j], bs[j + 1..j + n]);
      assert bs[j..j + n] == [bs[j]] + bs[j + 1..j + n];
    }
  }

  lemma ContinuationStep(t: string, i: nat, m: nat, b: Byte, tail: seq<Byte>)
    requires PercentByteAt(t, i) == Some(b) && IsContinuation(b)
    requires ContinuationBytes(t, i + 3, m) == Some(tail)
    ensures ContinuationBytes(t, i, m + 1) == Some([b] + tail)
  {
  }

  lemma DecodeEncodeChar(c: char, rest: string)
    ensures DecodeUriComponent(EncodeChar(c) + rest) == Prepend(c, DecodeUriComponent(rest))
  {
    if IsUnreserved(c) {
      assert ([c] + rest)[1..] == rest;
    } else {
      DecodeEscapedChar(c, rest);
    }
  }

  lemma DecodeEscapedChar(c: char, rest: string)
    requires !IsUnreserved(c)
    ensures DecodeUriComponent(PercentEncode(Utf8(c)) + rest) == Prepend(c, DecodeUriComponent(rest))
  {
    var t := PercentEncode(Utf8(c)) + rest;
    var bs := Utf8(c);
    var n := |bs|;
    Utf8Facts(c);
    forall k | 0 <= k < n
      ensures PercentByteAt(t, 3 * k) == Some(bs[k])
    {
      PercentByteAtEncoded(bs, rest, k);
    }
    ContinuationBytesEncoded(t, bs, 1, n - 1);
    assert bs[1..1 + (n - 1)] == bs[1..];
    assert t[3 * n..] == rest;
    DecodeSequence(t, bs, rest);
    assert (c as int) as char == c;
  }

  /** One escaped UTF-8 sequence at the head of `t` decodes to the code point it spells. */
  lemma DecodeSequence(t: string, bs: seq<Byte>, rest: string)
    requires 1 <= |bs| <= 4
    requires PercentByteAt(t, 0) == Some(bs[0])
    requires SequenceLength(bs[0]) == Some(|bs|)
    requires ContinuationBytes(t, 3, |bs| - 1) == Some(bs[1..])
    requires MinCodePoint(|bs|) <= CodePoint(bs) && IsScalar(CodePoint(bs))
    requires 3 * |bs| <= |t| && t[3 * |bs|..] == rest
    ensures DecodeUriComponent(t) == Prepend(CodePoint(bs) as char, DecodeUriComponent(rest))
  {
    assert [bs[0]] + bs[1..] == bs;
  }

  /** Decoding undoes `encodeURIComponent`: the encoding loses nothing. */
  lemma {:induction false} DecodeEncode(s: string)
    ensures DecodeUriComponent(EncodeUriComponent(s)) == Some(s)
  {
    if s != [] {
      DecodeEncodeChar(s[0], EncodeUriComponent(s[1..]));
      DecodeEncode(s[1..]);
      assert [s[0]] + s[1..] == s;
    }
  }

  /** Two texts with the same encoding are equal. */
  lemma EncodeInjective(a: string, b: string)
    requires EncodeUriComponent(a) == EncodeUriComponent(b)
    ensures a == b
  {
    DecodeEncode(a);
    DecodeEncode(b);
  }
}
