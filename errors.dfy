/**
 * The error record every classified failure is surfaced as (`ConjureError`), its four
 * kinds, what can be thrown, how a promise settles, the recogniser `isConjureError`
 * and the fields `toString()` reports.
 */
module Errors {
  import opened Wrappers
  import opened JsValues

  /** Exactly four kinds of failure, with their wire names. */
  datatype ConjureErrorType = Network | Other | Parse | Status
  {
    function Text(): string
    {
      match this
      case Network => "NETWORK"
      case Other => "OTHER"
      case Parse => "PARSE"
      case Status => "STATUS"
    }
  }

  /** Reads a kind back from its wire name. */
  function ParseErrorType(s: string): (r: Option<ConjureErrorType>)
    ensures r.Some? ==> r.value.Text() == s
  {
    if s == "NETWORK" then Some(Network)
    else if s == "OTHER" then Some(Other)
    else if s == "PARSE" then Some(Parse)
    else if s == "STATUS" then Some(Status)
    else None
  }

  /** The wire names are distinct: each kind is read back from its own name. */
  lemma ErrorTypeTextRoundTrip(t: ConjureErrorType)
    ensures ParseErrorType(t.Text()) == Some(t)
  {
  }

  /**
   * A classified failure, immutable once built. `originalError` and `body` are
   * `Undefined` when not given; `status` is the HTTP status when there is one.
   */
  datatype ConjureError = ConjureError(errorType: ConjureErrorType, originalError: JsValue, status: Option<int>, body: JsValue)

  /** What a `throw` or a promise rejection carries: a ConjureError instance or any other value. */
  datatype Thrown = Conjure(error: ConjureError) | Value(value: JsValue)

  /** How a promise settles. */
  datatype Settled<+T> = Resolved(value: T) | Rejected(reason: Thrown)

  /** The name of the constructor of a value's prototype, as `Object.getPrototypeOf(v).constructor.name`. */
  function ConstructorName(v: JsValue): Option<string>
  {
    match v
    case Undefined => None
    case Null => None
    case Bool(_) => Some("Boolean")
    case Num(_) => Some("Number")
    case Str(_) => Some("String")
    case Arr(_) => Some("Array")
    case Obj(_, ctor, _) => ctor
    case JsError(name, _) => Some(name)
  }

  /**
   * `isConjureError(x)`: false for null and undefined, true for a ConjureError
   * instance, and otherwise true exactly when the prototype's constructor is named
   * "ConjureError" (an instance made by another copy of the library).
   */
  function IsConjureError(x: Thrown): (b: bool)
    ensures x.Conjure? ==> b
    ensures x.Value? && IsNullish(x.value) ==> !b
    ensures x.Value? && !IsNullish(x.value) ==> (b <==> ConstructorName(x.value) == Some("ConjureError"))
  {
    match x
    case Conjure(_) => true
    case Value(v) =>
      if IsNullish(v) then false
      else ConstructorName(v) == Some("ConjureError")
  }

  /** A member as `JSON.stringify` writes it: left out when its value is undefined. */
  function Member(name: string, value: JsValue): (r: seq<(string, JsValue)>)
    ensures value.Undefined? ==> r == []
    ensures !value.Undefined? ==> r == [(name, value)]
  {
    if value.Undefined? then [] else [(name, value)]
  }

  /**
   * The members `toString()` hands to `JSON.stringify`, in order: the body, the
   * original error's string form (or the value itself when it is falsy), the status
   * and the kind; those whose value is undefined are left out.
   */
  function ReportedFields(e: ConjureError): (r: seq<(string, JsValue)>)
    ensures 1 <= |r| <= 4 && r[|r| - 1] == ("type", Str(e.errorType.Text()))
  {
    var shown := if IsTruthy(e.originalError) then Str(ToString(e.originalError)) else e.originalError;
    var status := if e.status.Some? then Num(e.status.value) else Undefined;
    Member("body", e.body) + Member("originalError", shown) + Member("status", status)
    + [("type", Str(e.errorType.Text()))]
  }

  /** Only the four members of the record are reported, and none of them as undefined. */
  lemma ReportedFieldsKeys(e: ConjureError)
    ensures forall k :: 0 <= k < |ReportedFields(e)| ==> ReportedFields(e)[k].0 in ["body", "originalError", "status", "type"]
    ensures forall k :: 0 <= k < |ReportedFields(e)| ==> !ReportedFields(e)[k].1.Undefined?
  {
  }

  /** Each member is reported exactly when its value is defined, with the value `toString()` gives it. */
  lemma ReportedFieldsPresence(e: ConjureError)
    ensures e.status.Some? ==> ("status", Num(e.status.value)) in ReportedFields(e)
    ensures e.status.None? ==> forall k :: 0 <= k < |ReportedFields(e)| ==> ReportedFields(e)[k].0 != "status"
    ensures !e.body.Undefined? ==> ("body", e.body) in ReportedFields(e)
    ensures e.body.Undefined? ==> forall k :: 0 <= k < |ReportedFields(e)| ==> ReportedFields(e)[k].0 != "body"
    ensures IsTruthy(e.originalError) ==> ("originalError", Str(ToString(e.originalError))) in ReportedFields(e)
    ensures !IsTruthy(e.originalError) && !e.originalError.Undefined? ==> ("originalError", e.originalError) in ReportedFields(e)
    ensures e.originalError.Undefined? ==> forall k :: 0 <= k < |ReportedFields(e)| ==> ReportedFields(e)[k].0 != "originalError"
  {
  }
}
