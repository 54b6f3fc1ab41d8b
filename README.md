# conjure-client transport core, in Dafny

This project models the transport core of the TypeScript Conjure client runtime
(`conjure-client`) and proves properties of it.

- **`FetchBridge`.** Turns one endpoint call into a request and classifies the outcome:
  - it builds the URL (`buildPath`, `buildQueryString`, `appendQueryParameter`, `normalizeWithNoLeadingSlash`);
  - it builds the header map and the body (`handleBody`);
  - it reads the response and classifies failures into `ConjureError`s (`callEndpoint`).
- **`RetryingFetch`.** Wraps a fetch function and retries throttled responses (429, 503):
  - the delay comes from a backoff strategy (`exponentialBackoff`, full jitter);
  - a valid `Retry-After` header overrides that delay (`getRetryAfterHeaderValue`, `getRetryAfter`, `doAttempt`).
- **`UserAgent`.** A chain of product/version entries, rendered to a string once at construction.
- **`ConjureError`.**
  - Its four kinds and the record itself.
  - The recogniser `isConjureError`.
  - The members that `toString()` reports.

Files:

| file | module | contents |
|---|---|---|
| `wrappers.dfy` | `Wrappers` | `Option` |
| `strings.dfy` | `Strings` | `join`, `split`, `indexOf`, `includes` and ASCII lower-casing, as the model needs them |
| `js_values.dfy` | `JsValues` | JavaScript values, `String(v)`, truthiness and `parseInt(s, 10)` |
| `uri_codec.dfy` | `UriCodec` | `encodeURIComponent` over UTF-8, and a reference `decodeURIComponent` as its partner |
| `path_template.dfy` | `PathTemplates` | The placeholder pattern `/\{[^\}]+\}/` (leftmost match) and the path that successive replacements produce |
| `errors.dfy` | `Errors` | `ConjureErrorType`, `ConjureError`, thrown values, settled promises, `isConjureError`, the `toString()` members |
| `user_agent.dfy` | `UserAgents` | `UserAgent`, `addAgent`, `toString`, `formatUserAgent` |
| `http_api_bridge.dfy` | `HttpApiBridge` | `MediaType`, the caller's header object (a class, because the bridge writes into it) and `IHttpEndpointOptions` |
| `fetch_bridge.dfy` | `FetchBridge` | `callEndpoint` and its helpers |
| `retrying_fetch.dfy` | `RetryingFetch` | The backoff strategy, the retry decision and the attempt loop |

Modelling choices:

- **Imperative code stays imperative.** `buildPath` and `buildQueryString` are loops in the source. So are the header `forEach` and the attempt chain of `doAttempt`. Each becomes a Dafny method with loop invariants, proved equal to a specification function: `Fill`, `QueryString`, `Stringified`, `Explains`. The properties are then proved about those functions.
- **`callEndpoint`** is a method. It writes `Fetch-User-Agent` into the caller's header object, which is a `HeaderObject` instance. Everything else it does is captured by the pure functions `Prepare` (the request) and `Interpret` (how the promise settles given what `fetch` did).
- **The network is a parameter.**
  - `fetch` becomes a function from the request to how it settles.
  - In `RetryingFetch`, `outcomes(k)` is how the delegate settles on its `k`-th call.
  - `random(k)` is the `Math.random()` draw for attempt `k`.
  - The timer delays are recorded as the sequence `delays`.
- **Promises** become `Settled<T> = Resolved(value) | Rejected(reason)`. A thrown value is either a `ConjureError` instance or another JavaScript value.

Behaviour a reader might not expect (the model follows the code):

- **Placeholder count.** `buildPath` does not compare the number of placeholders with the number of path arguments. Surplus arguments are ignored (`FillIgnoresSurplus`). Surplus placeholders stay in the path (`FillPlaceholderCount`). Neither case is an error.
- **`application/x-www-form-urlencoded` request bodies.** They are not encoded. They fall into `handleBody`'s default branch and fail with "Unrecognized request media type application/x-www-form-urlencoded".
- **`handleBody` failures are not classified.** They are thrown as plain `Error`s before the `try` block. The call then rejects with that `Error`, not with a `ConjureError` of kind OTHER (`Prepare`, `CallEndpoint`).
- **Header name vs. media-type test.** The `Content-Type` response header is looked up without regard to case, but the media-type test is a case-sensitive `includes` (`ChooseReader`).
- **`binaryAsStream` is ignored.** `callEndpoint` never reads it, so octet-stream responses are always read with `blob()`.
- **`Fetch-User-Agent`.** The header carries the bridge's single `productName/productVersion` entry, not a rendered chain.

## Model

Paths are relative to the repository root.

| member | source | states |
|---|---|---|
| Errors.ParseErrorType | packages/conjure-client/src/errors/error.ts:18-23 | A kind read back from a string has that string as its wire name |
| Errors.ErrorTypeTextRoundTrip | packages/conjure-client/src/errors/error.ts:18-23 | The four wire names are distinct: every kind is read back from its own name |
| Errors.IsConjureError | packages/conjure-client/src/errors/error.ts:52-68 | false for null and undefined; true for a ConjureError instance; otherwise true exactly when the prototype's constructor is named "ConjureError" |
| Errors.ReportedFields | packages/conjure-client/src/errors/error.ts:38-49 | `toString()` reports between one and four members, and the last one is always the kind's wire name |
| Errors.ReportedFieldsKeys | packages/conjure-client/src/errors/error.ts:38-49 | Only body, originalError, status and type are reported, and none of them with an undefined value |
| Errors.ReportedFieldsPresence | packages/conjure-client/src/errors/error.ts:38-49 | status and body appear exactly when defined. originalError appears as its `toString()` when truthy, as itself when falsy but defined, and not at all when undefined |
| UserAgents.NewUserAgent | packages/conjure-client/src/userAgent.ts:29-31 | The constructor keeps the entries in order. Its string is their "name/version" forms joined by single spaces |
| UserAgents.UserAgent.AddAgent | packages/conjure-client/src/userAgent.ts:33-35 | The result holds the old entries followed by the new one, with its string recomputed from them |
| UserAgents.UserAgent.ToString | packages/conjure-client/src/userAgent.ts:37-39 | Returns the rendering of the entries |
| UserAgents.EmptyUserAgent | packages/conjure-client/src/userAgent.ts:29-31 | An empty chain renders as "" |
| UserAgents.ToStringAfterAddAgent | packages/conjure-client/src/userAgent.ts:33-39 | Adding an entry appends " name/version" to the string, with no space when the chain was empty |
| UserAgents.FormatUserAgentSplits | packages/conjure-client/src/userAgent.ts:42-45 | "name/version" splits at its first "/" back into name and version, when the name has no "/" |
| UserAgents.ParseEntriesFormatted | packages/conjure-client/src/userAgent.ts:42-45 | Each formatted entry splits back at its first "/" into name and version, when the name has no "/" |
| UserAgents.UserAgentRoundTrip | packages/conjure-client/src/userAgent.ts:29-31 | Rendering loses nothing: entries without spaces, and without "/" in the name, are read back in order |
| FetchBridge.FormatUserAgent | packages/conjure-client/src/fetchBridge/fetchBridge.ts:40-43 | The header value is the product name, "/", then the version |
| FetchBridge.NormalizeWithNoLeadingSlash | packages/conjure-client/src/fetchBridge/fetchBridge.ts:208-213 | Exactly one leading "/" is removed. Input without one, including "", is returned unchanged |
| PathTemplates.FirstPlaceholder | packages/conjure-client/src/fetchBridge/fetchBridge.ts:166 | The result is a match of "{", one or more non-"}" characters, "}", and no match starts further left. None means there is no match anywhere |
| PathTemplates.ReplaceFirstPlaceholder | packages/conjure-client/src/fetchBridge/fetchBridge.ts:170 | A text with no placeholder is unchanged. Otherwise the placeholder with none to its left, and only it, is replaced, and the text around it is kept |
| FetchBridge.BuildPath | packages/conjure-client/src/fetchBridge/fetchBridge.ts:165-173 | The loop's result equals `Fill` of the normalised template: each argument in turn replaces the leftmost remaining placeholder with its encoded text, where null and undefined count as "" |
| PathTemplates.FillPlaceholderCount | packages/conjure-client/src/fetchBridge/fetchBridge.ts:165-173 | Each argument consumes exactly one placeholder and substituted text is never matched again: `max(0, count - args)` placeholders remain |
| PathTemplates.FillComplete | packages/conjure-client/src/fetchBridge/fetchBridge.ts:165-173 | With at least one argument per placeholder, no placeholder is left |
| PathTemplates.FillIgnoresSurplus | packages/conjure-client/src/fetchBridge/fetchBridge.ts:168-171 | Arguments beyond the number of placeholders do not change the path |
| PathTemplates.FillNullArgument | packages/conjure-client/src/fetchBridge/fetchBridge.ts:169-170 | A null or undefined argument empties its placeholder |
| PathTemplates.FillSingle | packages/conjure-client/src/fetchBridge/fetchBridge.ts:165-173 | In a template with one placeholder, the placeholder is replaced by the encoded argument and the text around it is kept |
| PathTemplates.FillKeepsOut | packages/conjure-client/src/fetchBridge/fetchBridge.ts:165-173 | A character that is neither in the template nor ever written by `encodeURIComponent` is not in the filled path |
| FetchBridge.EncodeExampleArgument | packages/conjure-client/src/fetchBridge/fetchBridge.ts:170 | "val/foo" is encoded as "val%2Ffoo" |
| FetchBridge.BuildPathExample | packages/conjure-client/src/fetchBridge/fetchBridge.ts:165-173 | "/a/{var}/b" with the argument "val/foo" becomes "a/val%2Ffoo/b" |
| UriCodec.EncodedCharacters | packages/conjure-client/src/fetchBridge/fetchBridge.ts:162 | `encodeURIComponent` writes only unreserved characters and "%". So it never writes "{", "}", "/", "&", "=", "?" or "$" |
| UriCodec.EncodeConcat | packages/conjure-client/src/fetchBridge/fetchBridge.ts:162 | Encoding a concatenation concatenates the encodings |
| UriCodec.EncodeUnreserved | packages/conjure-client/src/fetchBridge/fetchBridge.ts:162 | Text made only of unreserved characters is left unchanged |
| UriCodec.DecodeEncode | packages/conjure-client/src/fetchBridge/fetchBridge.ts:162 | Decoding undoes `encodeURIComponent` for every string of Unicode scalar values |
| UriCodec.EncodeInjective | packages/conjure-client/src/fetchBridge/fetchBridge.ts:162 | Two texts with the same encoding are equal |
| FetchBridge.ValueTexts | packages/conjure-client/src/fetchBridge/fetchBridge.ts:178-186 | A null or undefined value gives no text. An array gives one text per element, in order. Any other value gives its string form |
| FetchBridge.BuildQueryString | packages/conjure-client/src/fetchBridge/fetchBridge.ts:175-189 | The nested loops' result equals `QueryString`: "", or "?" followed by the encoded key=value pairs of every present key, array elements in order, joined by "&" |
| FetchBridge.ReadQueryParameter | packages/conjure-client/src/fetchBridge/fetchBridge.ts:161-163 | An appended pair's first "=" separates the encoded key from the encoded value, and each half decodes back to what was encoded |
| FetchBridge.QueryStringRoundTrip | packages/conjure-client/src/fetchBridge/fetchBridge.ts:161-163 | Splitting the query string on "&" and "=" and decoding both halves gives back every (key, value text) pair in order |
| FetchBridge.QueryStringEmpty | packages/conjure-client/src/fetchBridge/fetchBridge.ts:188 | No "?" is written exactly when there is no pair |
| FetchBridge.QueryStringCharacters | packages/conjure-client/src/fetchBridge/fetchBridge.ts:161-163 | The query string holds only unreserved characters and "%", "=", "&", "?" |
| FetchBridge.EntriesFromPresentKeys | packages/conjure-client/src/fetchBridge/fetchBridge.ts:177-181 | Every emitted pair comes from a key whose value is neither null nor undefined |
| FetchBridge.NullQueryArgumentSkipped | packages/conjure-client/src/fetchBridge/fetchBridge.ts:179-181 | Adding a key with a null or undefined value leaves the query string unchanged |
| FetchBridge.Stringified | packages/conjure-client/src/fetchBridge/fetchBridge.ts:80-85 | A header is kept exactly when its value is neither null nor undefined, and is kept as its string form |
| FetchBridge.StringifyHeaders | packages/conjure-client/src/fetchBridge/fetchBridge.ts:80-85 | The loop over the header object's keys produces exactly `Stringified` |
| FetchBridge.SentHeaders | packages/conjure-client/src/fetchBridge/fetchBridge.ts:75-106 | Always carries Fetch-User-Agent. Adds "Bearer token" when there is a token, Content-Type unless the request is multipart, and accept when a response type is given. Every other name is the caller's header, present exactly when non-null, as a string |
| FetchBridge.HandleBody | packages/conjure-client/src/fetchBridge/fetchBridge.ts:191-206 | JSON text exactly for application/json. The data unchanged for octet-stream, multipart, and text/plain with a non-object. Each remaining case rejects with its plain `Error` message |
| FetchBridge.HeaderValue | packages/conjure-client/src/fetchBridge/fetchBridge.ts:124 | A header is found exactly when its lower-cased name is present, and its value is returned |
| FetchBridge.HeaderValueIgnoresCase | packages/conjure-client/src/fetchBridge/fetchBridge.ts:124 | Two names that differ only in ASCII case find the same header |
| Strings.Contains | packages/conjure-client/src/fetchBridge/fetchBridge.ts:127 | `includes` holds exactly when the text occurs at some index |
| FetchBridge.ChooseReader | packages/conjure-client/src/fetchBridge/fetchBridge.ts:124-136 | `json()` when the content type contains application/json. Otherwise `blob()` when it contains application/octet-stream. Otherwise `text()`, also when the header is missing |
| FetchBridge.TryBlock | packages/conjure-client/src/fetchBridge/fetchBridge.ts:114-149 | A fetch rejection passes through unchanged. The block returns only for 204 or an ok response. Every other response throws a PARSE or STATUS ConjureError carrying its status |
| FetchBridge.Classify | packages/conjure-client/src/fetchBridge/fetchBridge.ts:150-158 | A ConjureError is rethrown as it is. Any other value is wrapped with no status and no body, as NETWORK exactly when it is a TypeError and as OTHER otherwise |
| FetchBridge.ClassifyIdempotent | packages/conjure-client/src/fetchBridge/fetchBridge.ts:151-152 | Classifying an already classified error changes nothing |
| FetchBridge.Interpret | packages/conjure-client/src/fetchBridge/fetchBridge.ts:114-158 | 204 resolves with undefined. A body read failure is PARSE with the status. A body read from a non-ok response is STATUS with status and body. Otherwise the body resolves. A fetch rejection is classified. Every rejection is a ConjureError |
| FetchBridge.UrlQueryStart | packages/conjure-client/src/fetchBridge/fetchBridge.ts:74 | When neither the base URL nor the template holds "?", the URL's first "?" starts the query string, and the URL has no "?" exactly when the query string is empty |
| FetchBridge.Prepare | packages/conjure-client/src/fetchBridge/fetchBridge.ts:73-110 | The request has the URL base + "/" + path + query, "same-origin" credentials, the method and `SentHeaders`. It has a body exactly when data is non-null, encoded by `handleBody`. It rejects, with a non-ConjureError, exactly when `handleBody` does |
| FetchBridge.CallEndpoint | packages/conjure-client/src/fetchBridge/fetchBridge.ts:73-159 | The caller's header object gains Fetch-User-Agent. The call either rejects with the body error without calling fetch, or sends the prepared request and settles as `Interpret` of fetch's outcome |
| HttpApiBridge.HeaderObject.Set | packages/conjure-client/src/fetchBridge/fetchBridge.ts:76 | Writes one entry of the header object and leaves the others alone |
| JsValues.ParseInt | packages/conjure-client/src/fetchBridge/retryingFetch.ts:71 | A number is read exactly when a digit follows the leading white space and optional sign |
| JsValues.ParseIntOfIntToString | packages/conjure-client/src/fetchBridge/retryingFetch.ts:71 | `parseInt` reads back the decimal form of any integer, whatever non-digit text follows |
| JsValues.ParseIntSkipsWhiteSpace | packages/conjure-client/src/fetchBridge/retryingFetch.ts:71 | Leading white space does not change the result |
| RetryingFetch.ExponentialBackoffDelay | packages/conjure-client/src/fetchBridge/retryingFetch.ts:41-50 | No delay once attempt + 1 reaches the maximum. Otherwise the floor of random × 2^attempt × slot, a whole number in [0, slot × 2^attempt), or 0 when the slot is 0 |
| RetryingFetch.ExponentialBackoff | packages/conjure-client/src/fetchBridge/retryingFetch.ts:41-50 | The strategy gives, for every attempt, the delay above with that attempt's random draw |
| RetryingFetch.ExponentialBackoffGivesUp | packages/conjure-client/src/fetchBridge/retryingFetch.ts:43-45 | The exponential strategy eventually declines to retry |
| RetryingFetch.RetryAfterHeaderValue | packages/conjure-client/src/fetchBridge/retryingFetch.ts:65-81 | A value is taken exactly when the Retry-After header is present, parses as an integer and lies in [0, 60000]. The value is the parsed integer |
| RetryingFetch.RetryAfterExample | packages/conjure-client/src/fetchBridge/retryingFetch.ts:65-81 | "Retry-After: 123" gives 123 ms |
| RetryingFetch.GetRetryAfter | packages/conjure-client/src/fetchBridge/retryingFetch.ts:83-99 | There is a delay exactly when the status is 429 or 503 and the strategy gives one. A valid Retry-After value then replaces the strategy's delay |
| RetryingFetch.Step | packages/conjure-client/src/fetchBridge/retryingFetch.ts:101-128 | An exception or an ok response settles the fetch as it is. A failed response is retried exactly when `getRetryAfter` gives a delay, and that delay is used. Otherwise the response is returned unchanged |
| RetryingFetch.RetryNeedsBackoff | packages/conjure-client/src/fetchBridge/retryingFetch.ts:84-88 | A retry happens only while the strategy still has a delay to give |
| RetryingFetch.Fetch | packages/conjure-client/src/fetchBridge/retryingFetch.ts:59-128 | When some call ends the run, the attempt loop, starting at attempt 0, ends with a result and the delays it waited. Every earlier call was retried after its recorded delay, and the last call settled the fetch with that result |
| RetryingFetch.GivesUpSettles | packages/conjure-client/src/fetchBridge/retryingFetch.ts:84-88 | Under a strategy that eventually declines to retry, every run ends, whatever the delegate answers |
| RetryingFetch.FinalOutcomeSettles | packages/conjure-client/src/fetchBridge/retryingFetch.ts:110-127 | Once the delegate gives an exception, an ok response or a failure other than 429/503, the run ends, whatever the strategy |
| RetryingFetch.ExplainsUnique | packages/conjure-client/src/fetchBridge/retryingFetch.ts:101-128 | The delegate's outcomes and the strategy determine the result and the delays |
| RetryingFetch.FirstOutcomeFinal | packages/conjure-client/src/fetchBridge/retryingFetch.ts:110-115 | An exception, an ok response, or a failure other than 429/503 on the first call settles the fetch with exactly that, after one call |
| RetryingFetch.AlwaysThrottledCallCount | packages/conjure-client/src/fetchBridge/retryingFetch.ts:41-45 | Against a delegate that always answers 429 or 503, `exponentialBackoff(n, slot)` makes n calls (one when n <= 1) and resolves with the last response |
| RetryingFetch.DelaysExplained | packages/conjure-client/src/fetchBridge/retryingFetch.ts:117-120 | Every delay waited followed a 429/503 response while the strategy had a delay. It is the valid Retry-After value if there is one, else the strategy's delay |
| RetryingFetch.ExponentialDelaysBounded | packages/conjure-client/src/fetchBridge/retryingFetch.ts:83-99 | Under exponential backoff every delay is non-negative and either at most 60000 or below slot × 2^k |
| RetryingFetch.RetryAfterOverridesBackoff | packages/conjure-client/src/fetchBridge/retryingFetch.ts:90-95 | When every response carries the same valid Retry-After value, every delay is that value |

## Left out

- **Network and timers.** The real `fetch`, the `Headers` and `Response` objects, `setTimeout`, and Promise scheduling become parameters. This covers the delegate's outcomes, the recorded delays and the random draws.
- **Bodies and JSON.** `JSON.stringify` of a request body is kept symbolic (`JsonText(value)`). `json()`, `blob()` and `text()` are given as what each would produce.
- **`toString()` formatting.** The exact JSON text of `ConjureError.toString()` is not modelled. Only its members, their order and which are omitted are modelled (`ReportedFields`).
- **Numbers.** Floating point, NaN, infinities and non-integer numbers are not modelled. JavaScript numbers are integers here, and `Math.floor(Math.random() * …)` is computed over reals.
- **Lone surrogates.** `encodeURIComponent` throws a URIError on a lone surrogate. Dafny characters are Unicode scalar values, so that error cannot arise here.
- **Supplier resolution.** `baseUrl` and `token` may be given as suppliers; the model takes the resolved values (`Bridge`).
- **The global fetch fallback.** `this.fetch || fetch` is not modelled. The fetch function is a parameter.
- **Caller's header object.** A header object that is explicitly null is not modelled. Only a missing object is, and it is replaced by `{}`.
- **Key enumeration order.** Query arguments are given as ordered (key, value) pairs. The order in which `Object.keys` lists integer-like keys is not modelled.
- **Repeated headers.** `Headers.get` combining repeated values is not modelled; a response header map holds one value per lower-cased name.
- **Backoff strategy exceptions.** An exception thrown by a backoff strategy is not modelled. Strategies are total functions.
- **Runs that never end.** `RetryingFetch.Fetch` requires that some call ends the run (`Settles`). Only a delegate that keeps answering 429 or 503 under a strategy that never declines fails this, and the source then retries forever, with no result to model. `GivesUpSettles` and `ExponentialBackoffGivesUp` show that every run under the shipped strategy ends. `FinalOutcomeSettles` shows that a run ends once the delegate gives a final outcome.
- **Media types.** Media-type values outside the `MediaType` enumeration are not modelled.
- **Unmodelled fields.** `serviceName` and `endpointName` are not fields of `EndpointOptions`, because the code never reads them. `binaryAsStream` is a field, but it is never read either.
- **Other files.** The stream adapters, `uuid` and the older `src/httpApiBridge/error.ts` are not part of this model.
- UserAgents.UserAgent.ToString: states the result only for a user agent whose string was computed from its entries (`Valid`). Every user agent built by `NewUserAgent` or `AddAgent` is one.
- UserAgents.UserAgent.AddAgent: does not capture aliasing of the entry array. The constructor keeps the caller's array by reference (userAgent.ts:29). A caller that changes that array afterwards changes what a later `addAgent` copies, while `toString` keeps the string computed at construction. The model holds the entries as a value fixed at construction, so it cannot show this.
