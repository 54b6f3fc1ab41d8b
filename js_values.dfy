/**
 * The JavaScript values the transport runtime handles (path and query arguments,
 * header values, request payloads, response bodies, thrown errors), with the two
 * host conversions the runtime relies on: `String(v)` and `parseInt(s, 10)`.
 */
module JsValues {
  import opened Wrappers
  import Strings

  /**
   * A JavaScript value. Numbers are integers. An object is identified by `id`;
   * `ctor` is the name of its prototype's constructor (None when the prototype or
   * its constructor is null) and `display` is what its `toString()` returns.
   */
  datatype JsValue =
    | Undefined
    | Null
    | Bool(b: bool)
    | Num(n: int)
    | Str(s: string)
    | Arr(items: seq<JsValue>)
    | Obj(id: nat, ctor: Option<string>, display: string)
    | JsError(name: string, message: string)

  /** `v == null`: loose equality with null holds for null and undefined only. */
  predicate IsNullish(v: JsValue)
  {
    v.Undefined? || v.Null?
  }

  /** `typeof v === "object"`: null, arrays, objects and errors. */
  predicate IsTypeofObject(v: JsValue)
  {
    v.Null? || v.Arr? || v.Obj? || v.JsError?
  }

  /** JavaScript truthiness (NaN is not modelled). */
  predicate IsTruthy(v: JsValue)
  {
    match v
    case Undefined => false
    case Null => false
    case Bool(b) => b
    case Num(n) => n != 0
    case Str(s) => s != ""
    case _ => true
  }

  /** `e instanceof TypeError`, decided by the error's class name. */
  predicate IsTypeError(v: JsValue)
  {
    v.JsError? && v.name == "TypeError"
  }

  function DigitChar(d: nat): (c: char)
    requires d < 10
    ensures IsDigit(c) && DigitValue(c) == d
  {
    "0123456789"[d]
  }

  predicate IsDigit(c: char)
  {
    '0' <= c <= '9'
  }

  function DigitValue(c: char): (d: nat)
    requires IsDigit(c)
    ensures d < 10
  {
    c as int - '0' as int
  }

  /** Decimal digits of a natural number, most significant first, no leading zeros. */
  function NatToDigits(n: nat): (r: string)
    ensures |r| >= 1
    ensures forall k :: 0 <= k < |r| ==> IsDigit(r[k])
  {
    if n < 10 then [DigitChar(n)] else NatToDigits(n / 10) + [DigitChar(n % 10)]
  }

  /** `String(n)` for an integer number. */
  function IntToString(n: int): string
  {
    if n < 0 then "-" + NatToDigits(-n) else NatToDigits(n)
  }

  /** `String(v)`: the string conversion used by template literals, `toString()` and `encodeURIComponent`. */
  function ToString(v: JsValue): string
    decreases v, 0
  {
    match v
    case Undefined => "undefined"
    case Null => "null"
    case Bool(b) => if b then "true" else "false"
    case Num(n) => IntToString(n)
    case Str(s) => s
    case Arr(items) => Strings.Join(seq(|items|, k requires 0 <= k < |items| => ElementString(items[k])), ",")
    case Obj(_, _, display) => display
    case JsError(name, message) =>
      if message == "" then name else if name == "" then message else name + ": " + message
  }

  /** An array element as `Array.prototype.join` shows it: null and undefined as "". */
  function ElementString(v: JsValue): string
    decreases v, 1
  {
    if IsNullish(v) then "" else ToString(v)
  }

  /** StrWhiteSpaceChar of ECMAScript: white space and line terminators. */
  predicate IsJsWhiteSpace(c: char)
  {
    var u := c as int;
    (0x09 <= u <= 0x0D) || u == 0x20 || u == 0xA0 || u == 0x1680 || (0x2000 <= u <= 0x200A)
    || u == 0x2028 || u == 0x2029 || u == 0x202F || u == 0x205F || u == 0x3000 || u == 0xFEFF
  }

  function TrimLeadingWhiteSpace(s: string): (r: string)
    ensures |r| <= |s|
    ensures r == [] || !IsJsWhiteSpace(r[0])
  {
    if s != [] && IsJsWhiteSpace(s[0]) then TrimLeadingWhiteSpace(s[1..]) else s
  }

  /** The longest prefix of `s` made of decimal digits. */
  function DigitPrefix(s: string): (r: string)
    ensures |r| <= |s| && r == s[..|r|]
    ensures forall k :: 0 <= k < |r| ==> IsDigit(r[k])
  {
    if s != [] && IsDigit(s[0]) then [s[0]] + DigitPrefix(s[1..]) else []
  }

  /** The value of a digit string read in base 10. */
  function DigitsValue(ds: string): nat
    requires forall k :: 0 <= k < |ds| ==> IsDigit(ds[k])
  {
    if ds == [] then 0 else DigitsValue(ds[..|ds| - 1]) * 10 + DigitValue(ds[|ds| - 1])
  }

  /**
   * `parseInt(s, 10)`: skip leading white space, take an optional sign, then the
   * longest run of decimal digits; `None` stands for NaN (no digit at all).
   */
  function ParseInt(s: string): (r: Option<int>)
    ensures r.Some? <==> DigitPrefix(SignStripped(TrimLeadingWhiteSpace(s))) != []
  {
    var t := TrimLeadingWhiteSpace(s);
    var ds := DigitPrefix(SignStripped(t));
    var value: int := DigitsValue(ds);
    if ds == [] then None
    else if t[0] == '-' then Some(-value)
    else Some(value)
  }

  function SignStripped(t: string): string
  {
    if t != [] && (t[0] == '-' || t[0] == '+') then t[1..] else t
  }

  lemma {:induction false} DigitsValueOfNat(n: nat)
    ensures DigitsValue(NatToDigits(n)) == n
  {
    if n >= 10 {
      var ds := NatToDigits(n / 10) + [DigitChar(n % 10)];
      assert ds[..|ds| - 1] == NatToDigits(n / 10);
      DigitsValueOfNat(n / 10);
    }
  }

  lemma {:induction false} DigitPrefixOfDigits(ds: string, tail: string)
    requires forall k :: 0 <= k < |ds| ==> IsDigit(ds[k])
    requires tail == [] || !IsDigit(tail[0])
    ensures DigitPrefix(ds + tail) == ds
  {
    if ds != [] {
      assert (ds + tail)[1..] == ds[1..] + tail;
      DigitPrefixOfDigits(ds[1..], tail);
    } else {
      assert ds + tail == tail;
    }
  }

  /**
   * `parseInt` reads back what `String` writes for an integer, whatever non-digit
   * text follows it (as in "123" or "120 seconds").
   */
  lemma ParseIntOfIntToString(n: int, tail: string)
    requires tail == [] || !IsDigit(tail[0])
    ensures ParseInt(IntToString(n) + tail) == Some(n)
  {
    var m: nat := if n < 0 then -n else n;
    var ds := NatToDigits(m);
    DigitPrefixOfDigits(ds, tail);
    DigitsValueOfNat(m);
    var sign := if n < 0 then "-" else "";
    assert IntToString(n) + tail == sign + ds + tail;
    ParseIntOfSignedDigits(sign, ds, tail);
  }

  /** `parseInt` on an optional minus sign, a run of digits and a non-digit remainder. */
  lemma ParseIntOfSignedDigits(sign: string, ds: string, tail: string)
    requires sign == "" || sign == "-"
    requires ds != [] && forall k :: 0 <= k < |ds| ==> IsDigit(ds[k])
    requires DigitPrefix(ds + tail) == ds
    ensures ParseInt(sign + ds + tail) == Some(if sign == "" then DigitsValue(ds) as int else -(DigitsValue(ds) as int))
  {
    var s := sign + ds + tail;
    assert s[0] == '-' || IsDigit(s[0]);
    assert TrimLeadingWhiteSpace(s) == s;
    assert SignStripped(s) == ds + tail by {
      assert s[|sign|..] == ds + tail;
    }
  }

  /** Leading white space does not change what `parseInt` reads. */
  lemma {:induction false} ParseIntSkipsWhiteSpace(c: char, s: string)
    requires IsJsWhiteSpace(c)
    ensures ParseInt([c] + s) == ParseInt(s)
  {
    assert ([c] + s)[1..] == s;
  }
}
