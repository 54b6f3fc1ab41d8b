/**
 * The endpoint description a generated client hands to a bridge, and the media
 * types it may name.
 */
module HttpApiBridge {
  import opened Wrappers
  import opened JsValues

  /** The five media types, with their MIME strings. */
  datatype MediaType = ApplicationJson | ApplicationOctetStream | ApplicationXWwwFormUrlencoded | MultipartFormData | TextPlain
  {
    function Text(): string
    {
      match this
      case ApplicationJson => "application/json"
      case ApplicationOctetStream => "application/octet-stream"
      case ApplicationXWwwFormUrlencoded => "application/x-www-form-urlencoded"
      case MultipartFormData => "multipart/form-data"
      case TextPlain => "text/plain"
    }
  }

  /**
   * The caller's header object. The bridge writes into it, so it is shared state
   * rather than a value.
   */
  class HeaderObject {
    var entries: map<string, JsValue>

    constructor (entries: map<string, JsValue>)
      ensures this.entries == entries
    {
      this.entries := entries;
    }

    /** `headers[key] = value`. */
    method Set(key: string, value: JsValue)
      modifies this
      ensures entries == old(entries)[key := value]
    {
      entries := entries[key := value];
    }
  }

  /**
   * One call: the path template and its arguments, the query arguments as an object's
   * own keys in enumeration order, the optional headers, the HTTP method, media types and data
   * (`Undefined` when absent).
   */
  datatype EndpointOptions = EndpointOptions(
    endpointPath: string,
    headers: Option<HeaderObject>,
    httpMethod: string,
    requestMediaType: Option<MediaType>,
    responseMediaType: Option<MediaType>,
    pathArguments: seq<JsValue>,
    queryArguments: seq<(string, JsValue)>,
    data: JsValue,
    binaryAsStream: Option<bool>)
}
