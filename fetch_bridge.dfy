/**
 * The fetch-based bridge: how one endpoint call becomes a URL, a header map and a
 * body, and how the outcome of the network call is classified into a value or a
 * ConjureError.
 */
module FetchBridge {
  import opened Wrappers
  import opened JsValues
  import opened Errors
  import opened HttpApiBridge
  import Strings
  import UriCodec
  import PathTemplates
  import UserAgents

  // ---------------------------------------------------------------------------
  // Path

  /** Drops one leading "/", if there is one; the empty string stays empty. */
  function NormalizeWithNoLeadingSlash(input: string): (r: string)
    ensures input != [] && input[0] == '/' ==> "/" + r == input
    ensures input == [] || input[0] != '/' ==> r == input
    ensures |r| + 1 >= |input|
  {
    if input != [] && input[0] == '/' then input[1..] else input
  }

  /**
   * `buildPath`: starting from the normalised template, each argument in turn
   * replaces the leftmost remaining placeholder with its percent-encoded text.
   */
  method BuildPath(endpointPath: string, pathArguments: seq<JsValue>) returns (path: string)
    ensures path == PathTemplates.Fill(NormalizeWithNoLeadingSlash(endpointPath), pathArguments)
  {
    var template := NormalizeWithNoLeadingSlash(endpointPath);
    path := template;
    ghost var done := "";
    ghost var rest := template;
    assert done + PathTemplates.Fill(rest, pathArguments[0..]) == PathTemplates.Fill(template, pathArguments) by {
      assert pathArguments[0..] == pathArguments;
    }
    for n := 0 to |pathArguments|
      invariant path == done + rest
      invariant PathTemplates.Inert(done)
      invariant done + PathTemplates.Fill(rest, pathArguments[n..]) == PathTemplates.Fill(template, pathArguments)
    {
      var pathArgument := pathArguments[n];
      var encoded := UriCodec.EncodeUriComponent(PathTemplates.PathArgText(pathArgument));
      done, rest := ReplaceStep(template, done, rest, pathArguments, n, encoded);
      path := PathTemplates.ReplaceFirstPlaceholder(path, encoded);
    }
    assert pathArguments[|pathArguments|..] == [];
  }

  /**
   * One turn of `buildPath`'s loop, seen on a path split into a part already
   * filled (which can take no part in a match) and the rest.
   */
  lemma ReplaceStep(template: string, done: string, rest: string, args: seq<JsValue>, n: nat, encoded: string)
    returns (done': string, rest': string)
    requires PathTemplates.Inert(done) && n < |args|
    requires done + PathTemplates.Fill(rest, args[n..]) == PathTemplates.Fill(template, args)
    requires encoded == UriCodec.EncodeUriComponent(PathTemplates.PathArgText(args[n]))
    ensures '$' !in encoded && PathTemplates.ReplaceFirstPlaceholder(done + rest, encoded) == done' + rest'
    ensures PathTemplates.Inert(done')
    ensures done' + PathTemplates.Fill(rest', args[n + 1..]) == PathTemplates.Fill(template, args)
  {
    var arg := args[n];
    var more := args[n + 1..];
    assert args[n..] == [arg] + more;
    done', rest' := ReplaceNext(done, rest, encoded, arg, more);
  }

  /** Replacing the leftmost placeholder of `done + rest` fills the first placeholder of `rest`. */
  lemma ReplaceNext(done: string, rest: string, encoded: string, arg: JsValue, more: seq<JsValue>)
    returns (done': string, rest': string)
    requires PathTemplates.Inert(done)
    requires encoded == PathTemplates.EncodedPathArg(arg)
    ensures '$' !in encoded && PathTemplates.ReplaceFirstPlaceholder(done + rest, encoded) == done' + rest'
    ensures PathTemplates.Inert(done')
    ensures done' + PathTemplates.Fill(rest', more) == done + PathTemplates.Fill(rest, [arg] + more)
  {
    PathTemplates.EncodedIsInert(arg);
    PathTemplates.FirstPlaceholderAfterInert(done, rest);
    if PathTemplates.FirstPlaceholder(rest).None? {
      ReplaceUnmatched(done, rest, encoded, arg, more);
      done', rest' := done, rest;
    } else {
      var (i, e) := PathTemplates.FirstPlaceholder(rest).value;
      ReplaceMatched(done, rest, arg, more, i, e);
      done', rest' := done + rest[..i] + encoded, rest[e..];
    }
  }

  lemma ReplaceUnmatched(done: string, rest: string, encoded: string, arg: JsValue, more: seq<JsValue>)
    requires '$' !in encoded
    requires PathTemplates.FirstPlaceholder(rest).None? && PathTemplates.FirstPlaceholder(done + rest).None?
    ensures PathTemplates.ReplaceFirstPlaceholder(done + rest, encoded) == done + rest
    ensures PathTemplates.Fill(rest, more) == PathTemplates.Fill(rest, [arg] + more) == rest
  {
  }

  lemma ReplaceMatched(done: string, rest: string, arg: JsValue, more: seq<JsValue>, i: nat, e: nat)
    requires PathTemplates.Inert(done)
    requires PathTemplates.FirstPlaceholder(rest) == Some((i, e))
    requires PathTemplates.FirstPlaceholder(done + rest) == Some((|done| + i, |done| + e))
    requires PathTemplates.Inert(PathTemplates.EncodedPathArg(arg)) && '$' !in PathTemplates.EncodedPathArg(arg)
    ensures i <= e <= |rest|
    ensures PathTemplates.ReplaceFirstPlaceholder(done + rest, PathTemplates.EncodedPathArg(arg))
         == (done + rest[..i] + PathTemplates.EncodedPathArg(arg)) + rest[e..]
    ensures PathTemplates.Inert(done + rest[..i] + PathTemplates.EncodedPathArg(arg))
    ensures (done + rest[..i] + PathTemplates.EncodedPathArg(arg)) + PathTemplates.Fill(rest[e..], more)
         == done + PathTemplates.Fill(rest, [arg] + more)
  {
    FilledAfter(done, rest, arg, more, i, e);
    InertAfterStep(done, rest, PathTemplates.EncodedPathArg(arg), i, e);
    ReplaceAt(done, rest, PathTemplates.EncodedPathArg(arg), i, e);
  }

  lemma InertAfterStep(done: string, rest: string, encoded: string, i: nat, e: nat)
    requires PathTemplates.Inert(done) && PathTemplates.Inert(encoded)
    requires PathTemplates.FirstPlaceholder(rest) == Some((i, e))
    ensures i <= |rest|
    ensures PathTemplates.Inert(done + rest[..i] + encoded)
  {
    PathTemplates.PrefixBeforeMatchIsInert(rest, i, e);
    PathTemplates.InertConcat(rest[..i], encoded);
    PathTemplates.InertConcat(done, rest[..i] + encoded);
    assert done + rest[..i] + encoded == done + (rest[..i] + encoded);
  }

  lemma ReplaceAt(done: string, rest: string, encoded: string, i: nat, e: nat)
    requires i <= e <= |rest| && '$' !in encoded
    requires PathTemplates.FirstPlaceholder(done + rest) == Some((|done| + i, |done| + e))
    ensures PathTemplates.ReplaceFirstPlaceholder(done + rest, encoded) == (done + rest[..i] + encoded) + rest[e..]
  {
    assert (done + rest)[..|done| + i] == done + rest[..i];
    assert (done + rest)[|done| + e..] == rest[e..];
  }

  lemma FilledAfter(done: string, rest: string, arg: JsValue, more: seq<JsValue>, i: nat, e: nat)
    requires PathTemplates.FirstPlaceholder(rest) == Some((i, e))
    ensures i <= e <= |rest|
    ensures (done + rest[..i] + PathTemplates.EncodedPathArg(arg)) + PathTemplates.Fill(rest[e..], more)
         == done + PathTemplates.Fill(rest, [arg] + more)
  {
    FillMatched(rest, arg, more, i, e);
  }

  lemma FillMatched(s: string, arg: JsValue, more: seq<JsValue>, i: nat, e: nat)
    requires PathTemplates.FirstPlaceholder(s) == Some((i, e))
    ensures i <= e <= |s|
    ensures PathTemplates.Fill(s, [arg] + more) == s[..i] + PathTemplates.EncodedPathArg(arg) + PathTemplates.Fill(s[e..], more)
  {
    var args := [arg] + more;
    assert args[0] == arg && args[1..] == more;
  }

  /** The argument "val/foo" fills "/a/{var}/b" as "a/val%2Ffoo/b". */
  lemma BuildPathExample(endpointPath: string, arg: JsValue)
    requires endpointPath == "/a/{var}/b" && arg == Str("val/foo")
    ensures PathTemplates.Fill(NormalizeWithNoLeadingSlash(endpointPath), [arg]) == "a/val%2Ffoo/b"
  {
    assert "a/" + "val%2Ffoo" + "/b" == "a/val%2Ffoo/b";
    assert PathTemplates.Fill(NormalizeWithNoLeadingSlash(endpointPath), [arg]) == "a/" + PathTemplates.EncodedPathArg(arg) + "/b" by {
      assert NormalizeWithNoLeadingSlash(endpointPath) == "a/" + "{" + "var" + "}" + "/b";
      PathTemplates.FillSingle("a/", "var", "/b", arg);
    }
    assert PathTemplates.PathArgText(arg) == "val/foo";
    EncodeExampleArgument();
  }

  /** "val/foo" is encoded as "val%2Ffoo": the letters pass through and "/" becomes "%2F". */
  lemma EncodeExampleArgument()
    ensures UriCodec.EncodeUriComponent("val/foo") == "val%2Ffoo"
  {
    assert "val/foo" == "val" + ("/" + "foo");
    assert "val" + ("%2F" + "foo") == "val%2Ffoo";
    UriCodec.EncodeConcat("val", "/" + "foo");
    UriCodec.EncodeConcat("/", "foo");
    UriCodec.EncodeUnreserved("val");
    UriCodec.EncodeUnreserved("foo");
    EncodeSlash();
  }

  /** "/" is reserved: its one UTF-8 byte, 0x2F, is written as "%2F". */
  lemma EncodeSlash()
    ensures UriCodec.EncodeUriComponent("/") == "%2F"
  {
    assert !UriCodec.IsUnreserved('/');
    assert UriCodec.Utf8('/') == [0x2F];
    assert UriCodec.PercentEncode([0x2F]) == ['%', UriCodec.HexDigit(2), UriCodec.HexDigit(15)] + UriCodec.PercentEncode([]);
    assert UriCodec.EncodeUriComponent("/"[1..]) == [];
  }

  // ---------------------------------------------------------------------------
  // Query string

  /** The value texts one query argument contributes: none for null/undefined, one per array element, else one. */
  function ValueTexts(value: JsValue): (r: seq<string>)
    ensures IsNullish(value) ==> r == []
    ensures value.Arr? ==> |r| == |value.items| && forall k :: 0 <= k < |r| ==> r[k] == ToString(value.items[k])
    ensures !IsNullish(value) && !value.Arr? ==> r == [ToString(value)]
  {
    if IsNullish(value) then []
    else if value.Arr? then seq(|value.items|, k requires 0 <= k < |value.items| => ToString(value.items[k]))
    else [ToString(value)]
  }

  /** The (key, value text) pairs the query string carries, in order. */
  function Entries(args: seq<(string, JsValue)>): seq<(string, string)>
  {
    if args == [] then []
    else
      var last := args[|args| - 1];
      Entries(args[..|args| - 1]) + KeyPairs(last.0, ValueTexts(last.1))
  }

  function KeyPairs(key: string, texts: seq<string>): (r: seq<(string, string)>)
    ensures |r| == |texts| && forall k :: 0 <= k < |r| ==> r[k] == (key, texts[k])
  {
    seq(|texts|, k requires 0 <= k < |texts| => (key, texts[k]))
  }

  /** `appendQueryParameter`'s text: key and value encoded independently. */
  function QueryParameter(entry: (string, string)): string
  {
    UriCodec.EncodeUriComponent(entry.0) + "=" + UriCodec.EncodeUriComponent(entry.1)
  }

  function Rendered(entries: seq<(string, string)>): (r: seq<string>)
    ensures |r| == |entries| && forall k :: 0 <= k < |r| ==> r[k] == QueryParameter(entries[k])
  {
    seq(|entries|, k requires 0 <= k < |entries| => QueryParameter(entries[k]))
  }

  /** "" when no pair is emitted, otherwise "?" and the pairs joined by "&". */
  function QueryString(args: seq<(string, JsValue)>): string
  {
    var query := Rendered(Entries(args));
    if |query| > 0 then "?" + Strings.Join(query, "&") else ""
  }

  lemma RenderedAppend(entries: seq<(string, string)>, entry: (string, string))
    ensures Rendered(entries + [entry]) == Rendered(entries) + [QueryParameter(entry)]
  {
  }

  /** `buildQueryString`: one pass over the keys, and over the elements of array values. */
  method BuildQueryString(queryArguments: seq<(string, JsValue)>) returns (s: string)
    ensures s == QueryString(queryArguments)
  {
    var query: seq<string> := [];
    for i := 0 to |queryArguments|
      invariant query == Rendered(Entries(queryArguments[..i]))
    {
      var key := queryArguments[i].0;
      var value := queryArguments[i].1;
      if IsNullish(value) {
        NullStep(queryArguments, i);
        continue;
      }
      if value.Arr? {
        var items := value.items;
        ghost var before := Entries(queryArguments[..i]);
        for j := 0 to |items|
          invariant query == Rendered(before + KeyPairs(key, ValueTexts(Arr(items[..j]))))
        {
          ArrayStep(before, key, items, j);
          query := query + [QueryParameter((key, ToString(items[j])))];
        }
        ArrayDone(queryArguments, i);
      } else {
        ScalarStep(queryArguments, i);
        query := query + [QueryParameter((key, ToString(value)))];
      }
    }
    assert queryArguments[..|queryArguments|] == queryArguments;
    s := if |query| > 0 then "?" + Strings.Join(query, "&") else "";
  }

  lemma EntriesStep(args: seq<(string, JsValue)>, i: nat)
    requires i < |args|
    ensures Entries(args[..i + 1]) == Entries(args[..i]) + KeyPairs(args[i].0, ValueTexts(args[i].1))
  {
    assert args[..i + 1][..i] == args[..i];
  }

  lemma NullStep(args: seq<(string, JsValue)>, i: nat)
    requires i < |args| && IsNullish(args[i].1)
    ensures Rendered(Entries(args[..i + 1])) == Rendered(Entries(args[..i]))
  {
    EntriesStep(args, i);
    assert KeyPairs(args[i].0, ValueTexts(args[i].1)) == [];
    assert Entries(args[..i]) + [] == Entries(args[..i]);
  }

  lemma ScalarStep(args: seq<(string, JsValue)>, i: nat)
    requires i < |args| && !IsNullish(args[i].1) && !args[i].1.Arr?
    ensures Rendered(Entries(args[..i + 1])) == Rendered(Entries(args[..i])) + [QueryParameter((args[i].0, ToString(args[i].1)))]
  {
    EntriesStep(args, i);
    assert KeyPairs(args[i].0, ValueTexts(args[i].1)) == [(args[i].0, ToString(args[i].1))];
    RenderedAppend(Entries(args[..i]), (args[i].0, ToString(args[i].1)));
  }

  lemma ArrayDone(args: seq<(string, JsValue)>, i: nat)
    requires i < |args| && args[i].1.Arr?
    ensures var items := args[i].1.items;
      Rendered(Entries(args[..i]) + KeyPairs(args[i].0, ValueTexts(Arr(items[..|items|]))))
      == Rendered(Entries(args[..i + 1]))
  {
    EntriesStep(args, i);
    var items := args[i].1.items;
    assert items[..|items|] == items;
  }

  lemma ArrayStep(before: seq<(string, string)>, key: string, items: seq<JsValue>, j: nat)
    requires j < |items|
    ensures Rendered(before + KeyPairs(key, ValueTexts(Arr(items[..j + 1]))))
         == Rendered(before + KeyPairs(key, ValueTexts(Arr(items[..j])))) + [QueryParameter((key, ToString(items[j])))]
  {
    var a := before + KeyPairs(key, ValueTexts(Arr(items[..j])));
    assert before + KeyPairs(key, ValueTexts(Arr(items[..j + 1]))) == a + [(key, ToString(items[j]))];
    RenderedAppend(a, (key, ToString(items[j])));
  }

  /** Every pair comes from a key whose value is neither null nor undefined. */
  lemma {:induction false} EntriesFromPresentKeys(args: seq<(string, JsValue)>, k: nat)
    requires k < |Entries(args)|
    ensures exists j :: 0 <= j < |args| && args[j].0 == Entries(args)[k].0 && !IsNullish(args[j].1)
  {
    var last := args[|args| - 1];
    var front := args[..|args| - 1];
    if k < |Entries(front)| {
      EntriesFromPresentKeys(front, k);
      var j :| 0 <= j < |front| && front[j].0 == Entries(front)[k].0 && !IsNullish(front[j].1);
      assert args[j] == front[j];
    } else {
      assert !IsNullish(last.1);
    }
  }

  /** A query argument whose value is null or undefined adds nothing. */
  lemma NullQueryArgumentSkipped(args: seq<(string, JsValue)>, key: string, value: JsValue)
    requires IsNullish(value)
    ensures QueryString(args + [(key, value)]) == QueryString(args)
  {
    var more := args + [(key, value)];
    assert more[..|more| - 1] == args;
    assert KeyPairs(key, ValueTexts(value)) == [];
    assert Entries(more) == Entries(args);
  }

  /** Reference reader for the query string: splits on "&" and "=" and percent-decodes both halves. */
  function ParseQuery(s: string): Option<seq<(string, string)>>
  {
    if s == [] then Some([])
    else if s[0] != '?' then None
    else ParsePairs(Strings.Split(s[1..], '&'))
  }

  function ParsePairs(parts: seq<string>): Option<seq<(string, string)>>
  {
    if parts == [] then Some([])
    else match Strings.IndexOf(parts[0], '=')
      case None => None
      case Some(i) =>
        match (UriCodec.DecodeUriComponent(parts[0][..i]), UriCodec.DecodeUriComponent(parts[0][i + 1..]), ParsePairs(parts[1..]))
        case (Some(key), Some(value), Some(rest)) => Some([(key, value)] + rest)
        case _ => None
  }

  lemma EncodedHasNo(s: string, c: char)
    requires !UriCodec.IsUnreserved(c) && c != '%'
    ensures c !in UriCodec.EncodeUriComponent(s)
  {
    UriCodec.EncodedCharacters(s);
  }

  lemma {:induction false} ParsePairsRendered(entries: seq<(string, string)>)
    ensures ParsePairs(Rendered(entries)) == Some(entries)
  {
    if entries != [] {
      var parts := Rendered(entries);
      var i := ReadQueryParameter(entries[0]);
      assert parts[1..] == Rendered(entries[1..]);
      ParsePairsRendered(entries[1..]);
      assert entries == [entries[0]] + entries[1..];
    }
  }

  /** One rendered pair splits at its first "=" into the two encoded halves, which decode back. */
  lemma ReadQueryParameter(entry: (string, string)) returns (i: nat)
    ensures Strings.IndexOf(QueryParameter(entry), '=') == Some(i)
    ensures i < |QueryParameter(entry)|
    ensures UriCodec.DecodeUriComponent(QueryParameter(entry)[..i]) == Some(entry.0)
    ensures UriCodec.DecodeUriComponent(QueryParameter(entry)[i + 1..]) == Some(entry.1)
  {
    var ek := UriCodec.EncodeUriComponent(entry.0);
    var ev := UriCodec.EncodeUriComponent(entry.1);
    var p := QueryParameter(entry);
    EncodedHasNo(entry.0, '=');
    Strings.IndexAfterPrefix(ek, '=', ev);
    i := |ek|;
    assert p[..i] == ek;
    assert p[i + 1..] == ev;
    UriCodec.DecodeEncode(entry.0);
    UriCodec.DecodeEncode(entry.1);
  }

  /**
   * The query string loses nothing: reading it back gives every (key, value text)
   * pair, in order, with encoding undone.
   */
  lemma QueryStringRoundTrip(args: seq<(string, JsValue)>)
    ensures ParseQuery(QueryString(args)) == Some(Entries(args))
  {
    var query := Rendered(Entries(args));
    if |query| > 0 {
      forall k | 0 <= k < |query| ensures '&' !in query[k] {
        EncodedHasNo(Entries(args)[k].0, '&');
        EncodedHasNo(Entries(args)[k].1, '&');
      }
      Strings.SplitJoin(query, '&');
      assert ("?" + Strings.Join(query, "&"))[1..] == Strings.Join(query, "&");
      ParsePairsRendered(Entries(args));
    }
  }

  /** No "?" is written when there is nothing to put after it. */
  lemma QueryStringEmpty(args: seq<(string, JsValue)>)
    ensures QueryString(args) == "" <==> Entries(args) == []
  {
  }

  /** The query string uses only unreserved characters and the separators "%", "=", "&" and "?". */
  lemma QueryStringCharacters(args: seq<(string, JsValue)>)
    ensures forall k :: 0 <= k < |QueryString(args)| ==>
      var c := QueryString(args)[k]; UriCodec.IsUnreserved(c) || c in "%=&?"
  {
    var query := Rendered(Entries(args));
    if |query| > 0 {
      forall k | 0 <= k < |query| ensures forall m :: 0 <= m < |query[k]| ==> UriCodec.IsUnreserved(query[k][m]) || query[k][m] in "%=&?" {
        QueryParameterCharacters(Entries(args)[k]);
      }
      JoinCharacters(query, "&", "%=&?");
    }
  }

  lemma QueryParameterCharacters(entry: (string, string))
    ensures forall m :: 0 <= m < |QueryParameter(entry)| ==> UriCodec.IsUnreserved(QueryParameter(entry)[m]) || QueryParameter(entry)[m] in "%=&?"
  {
    var ek := UriCodec.EncodeUriComponent(entry.0);
    var ev := UriCodec.EncodeUriComponent(entry.1);
    UriCodec.EncodedCharacters(entry.0);
    UriCodec.EncodedCharacters(entry.1);
    forall m | 0 <= m < |ek + "=" + ev| ensures UriCodec.IsUnreserved((ek + "=" + ev)[m]) || (ek + "=" + ev)[m] in "%=&?" {
      if m > |ek| {
        assert (ek + "=" + ev)[m] == ev[m - |ek| - 1];
      }
    }
  }

  lemma {:induction false} JoinCharacters(parts: seq<string>, sep: string, extra: string)
    requires forall k :: 0 <= k < |parts| ==> forall m :: 0 <= m < |parts[k]| ==> UriCodec.IsUnreserved(parts[k][m]) || parts[k][m] in extra
    requires forall m :: 0 <= m < |sep| ==> sep[m] in extra
    ensures forall m :: 0 <= m < |Strings.Join(parts, sep)| ==> UriCodec.IsUnreserved(Strings.Join(parts, sep)[m]) || Strings.Join(parts, sep)[m] in extra
  {
    if |parts| > 1 {
      JoinCharacters(parts[1..], sep, extra);
    }
  }

  // ---------------------------------------------------------------------------
  // Headers

  const FetchUserAgentHeader := "Fetch-User-Agent"
  const AuthorizationHeader := "Authorization"
  const ContentTypeHeader := "Content-Type"
  const AcceptHeader := "accept"

  /** `formatUserAgent`: "productName/productVersion". */
  function FormatUserAgent(agent: UserAgents.Agent): (r: string)
    ensures r == agent.productName + "/" + agent.productVersion
  {
    UserAgents.FormatUserAgent(agent)
  }

  /** The headers that are present, each as its string form; null and undefined ones are dropped. */
  function Stringified(headers: map<string, JsValue>): (r: map<string, string>)
    ensures forall k :: k in r <==> k in headers && !IsNullish(headers[k])
    ensures forall k :: k in r ==> r[k] == ToString(headers[k])
  {
    map k | k in headers && !IsNullish(headers[k]) :: ToString(headers[k])
  }

  /** The forEach over the header object's keys. */
  method StringifyHeaders(headers: map<string, JsValue>) returns (stringified: map<string, string>)
    ensures stringified == Stringified(headers)
  {
    stringified := map[];
    var keys := headers.Keys;
    while keys != {}
      invariant keys <= headers.Keys
      invariant forall k :: k in stringified <==> k in headers && k !in keys && !IsNullish(headers[k])
      invariant forall k :: k in stringified ==> stringified[k] == ToString(headers[k])
      decreases keys
    {
      var key :| key in keys;
      var headerValue := headers[key];
      if !IsNullish(headerValue) {
        stringified := stringified[key := ToString(headerValue)];
      }
      keys := keys - {key};
    }
  }

  /** The header names the bridge itself writes in a call with these settings. */
  predicate SetByBridge(name: string, token: Option<string>, requestMediaType: Option<MediaType>, responseMediaType: Option<MediaType>)
  {
    name == FetchUserAgentHeader
    || (name == AuthorizationHeader && token.Some?)
    || (name == ContentTypeHeader && requestMediaType.Some? && requestMediaType.value != MultipartFormData)
    || (name == AcceptHeader && responseMediaType.Some?)
  }

  /**
   * The headers sent: the caller's present headers as strings, then the user agent,
   * the bearer token when there is one, the request media type unless it is
   * multipart (the browser must add the form boundary) and the expected response
   * media type.
   */
  function SentHeaders(headers: map<string, JsValue>, userAgent: UserAgents.Agent, token: Option<string>,
                       requestMediaType: Option<MediaType>, responseMediaType: Option<MediaType>): (r: map<string, string>)
    ensures FetchUserAgentHeader in r && r[FetchUserAgentHeader] == FormatUserAgent(userAgent)
    ensures token.Some? ==> AuthorizationHeader in r && r[AuthorizationHeader] == "Bearer " + token.value
    ensures requestMediaType.Some? && requestMediaType.value != MultipartFormData
            ==> ContentTypeHeader in r && r[ContentTypeHeader] == requestMediaType.value.Text()
    ensures responseMediaType.Some? ==> AcceptHeader in r && r[AcceptHeader] == responseMediaType.value.Text()
    ensures forall k :: !SetByBridge(k, token, requestMediaType, responseMediaType) ==>
              (k in r <==> k in headers && !IsNullish(headers[k])) && (k in r ==> r[k] == ToString(headers[k]))
  {
    var stringified := Stringified(headers[FetchUserAgentHeader := Str(FormatUserAgent(userAgent))]);
    var withToken := if token.Some? then stringified[AuthorizationHeader := "Bearer " + token.value] else stringified;
    var withContentType :=
      if requestMediaType.Some? && requestMediaType.value != MultipartFormData
      then withToken[ContentTypeHeader := requestMediaType.value.Text()] else withToken;
    if responseMediaType.Some? then withContentType[AcceptHeader := responseMediaType.value.Text()] else withContentType
  }

  // ---------------------------------------------------------------------------
  // Request body

  /** What is sent as the body: the JSON text of a value, or the value itself. */
  datatype RequestBody = JsonText(value: JsValue) | Payload(value: JsValue)

  /** The media type as string concatenation shows it. */
  function MediaTypeString(mediaType: Option<MediaType>): string
  {
    if mediaType.Some? then mediaType.value.Text() else "undefined"
  }

  const TextPlainObjectMessage := "Invalid data: cannot send object as request media type text/plain"

  /** `handleBody`: the switch on the request media type; failures are plain `Error`s. */
  function HandleBody(requestMediaType: Option<MediaType>, data: JsValue): (r: Settled<RequestBody>)
    ensures r.Resolved? ==> r.value.value == data
    ensures r.Resolved? && r.value.JsonText? <==> requestMediaType == Some(ApplicationJson)
    ensures r.Resolved? && r.value.Payload? <==>
              requestMediaType == Some(ApplicationOctetStream) || requestMediaType == Some(MultipartFormData)
              || (requestMediaType == Some(TextPlain) && !IsTypeofObject(data))
    ensures requestMediaType == Some(TextPlain) && IsTypeofObject(data)
            ==> r == Rejected(Value(JsError("Error", TextPlainObjectMessage)))
    ensures requestMediaType.None? || requestMediaType == Some(ApplicationXWwwFormUrlencoded)
            ==> r == Rejected(Value(JsError("Error", "Unrecognized request media type " + MediaTypeString(requestMediaType))))
  {
    match requestMediaType
    case Some(ApplicationJson) => Resolved(JsonText(data))
    case Some(ApplicationOctetStream) => Resolved(Payload(data))
    case Some(MultipartFormData) => Resolved(Payload(data))
    case Some(TextPlain) =>
      if IsTypeofObject(data) then Rejected(Value(JsError("Error", TextPlainObjectMessage)))
      else Resolved(Payload(data))
    case _ => Rejected(Value(JsError("Error", "Unrecognized request media type " + MediaTypeString(requestMediaType))))
  }

  // ---------------------------------------------------------------------------
  // Response classification

  /** How reading the body in one of the three ways turns out. */
  datatype ReadOutcome = Read(value: JsValue) | ReadFailed(error: JsValue)

  /** Response headers as a `Headers` object keeps them: every name in lower case. */
  type HeaderMap = m: map<string, string> | forall name :: name in m ==> Strings.Lower(name) == name

  /**
   * A fetch response: status, `ok`, the headers, and what each of `json()`, `blob()`
   * and `text()` would give.
   */
  datatype FetchResponse = FetchResponse(status: int, ok: bool, headers: HeaderMap,
                                         json: ReadOutcome, blob: ReadOutcome, text: ReadOutcome)

  /** `headers.get(name)`: header names match without regard to ASCII case. */
  function HeaderValue(response: FetchResponse, name: string): (r: Option<string>)
    ensures r.Some? <==> Strings.Lower(name) in response.headers
    ensures r.Some? ==> r.value == response.headers[Strings.Lower(name)]
  {
    var key := Strings.Lower(name);
    if key in response.headers then Some(response.headers[key]) else None
  }

  /** Names differing only in ASCII case find the same header. */
  lemma HeaderValueIgnoresCase(response: FetchResponse, a: string, b: string)
    requires |a| == |b| && forall k :: 0 <= k < |a| ==> Strings.LowerChar(a[k]) == Strings.LowerChar(b[k])
    ensures HeaderValue(response, a) == HeaderValue(response, b)
  {
    assert Strings.Lower(a) == Strings.Lower(b);
  }

  function ContentType(response: FetchResponse): Option<string>
  {
    HeaderValue(response, ContentTypeHeader)
  }

  datatype BodyReader = JsonReader | BlobReader | TextReader

  /** JSON when the content type mentions application/json, else a blob when it mentions application/octet-stream, else text. */
  function ChooseReader(contentType: Option<string>): (r: BodyReader)
    ensures r == JsonReader <==> contentType.Some? && Strings.Contains(contentType.value, ApplicationJson.Text())
    ensures r == BlobReader <==> contentType.Some? && !Strings.Contains(contentType.value, ApplicationJson.Text())
                                 && Strings.Contains(contentType.value, ApplicationOctetStream.Text())
    ensures contentType.None? ==> r == TextReader
  {
    match contentType
    case None => TextReader
    case Some(t) =>
      if Strings.Contains(t, ApplicationJson.Text()) then JsonReader
      else if Strings.Contains(t, ApplicationOctetStream.Text()) then BlobReader
      else TextReader
  }

  function ReadBody(response: FetchResponse): ReadOutcome
  {
    match ChooseReader(ContentType(response))
    case JsonReader => response.json
    case BlobReader => response.blob
    case TextReader => response.text
  }

  /**
   * The body of the `try` block once fetch has settled: what it returns, or what it
   * throws before the `catch` sees it.
   */
  function TryBlock(outcome: Settled<FetchResponse>): (r: Settled<JsValue>)
    ensures outcome.Rejected? ==> r == Rejected(outcome.reason)
    ensures r.Resolved? ==> outcome.Resolved? && (outcome.value.status == 204 || outcome.value.ok)
    ensures outcome.Resolved? && outcome.value.status != 204 && !outcome.value.ok ==> r.Rejected?
    ensures outcome.Resolved? && r.Rejected? ==>
              r.reason.Conjure? && r.reason.error.status == Some(outcome.value.status)
              && (r.reason.error.errorType == Parse || r.reason.error.errorType == Status)
  {
    match outcome
    case Rejected(thrown) => Rejected(thrown)
    case Resolved(response) =>
      if response.status == 204 then Resolved(Undefined)
      else match ReadBody(response)
        case ReadFailed(error) => Rejected(Conjure(ConjureError(Parse, error, Some(response.status), Undefined)))
        case Read(body) =>
          if !response.ok then Rejected(Conjure(ConjureError(Status, Undefined, Some(response.status), body)))
          else Resolved(body)
  }

  /** The `catch` block: a ConjureError passes through, a TypeError is a network failure, anything else is OTHER. */
  function Classify(thrown: Thrown): (e: ConjureError)
    ensures thrown.Conjure? ==> e == thrown.error
    ensures thrown.Value? ==> e.originalError == thrown.value && e.status.None? && e.body.Undefined?
    ensures thrown.Value? ==> (e.errorType == Network <==> IsTypeError(thrown.value))
    ensures thrown.Value? ==> (e.errorType == Other <==> !IsTypeError(thrown.value))
  {
    match thrown
    case Conjure(error) => error
    case Value(v) =>
      if IsTypeError(v) then ConjureError(Network, v, None, Undefined)
      else ConjureError(Other, v, None, Undefined)
  }

  /** What the call resolves or rejects with, given how fetch settled. */
  function Interpret(outcome: Settled<FetchResponse>): (r: Settled<JsValue>)
    ensures r.Rejected? ==> r.reason.Conjure? && IsConjureError(r.reason)
    ensures r.Resolved? ==> outcome.Resolved? && (outcome.value.status == 204 || outcome.value.ok)
    ensures outcome.Resolved? && outcome.value.status == 204 ==> r == Resolved(Undefined)
    ensures outcome.Resolved? && outcome.value.status != 204 ==>
              match ReadBody(outcome.value)
              case ReadFailed(error) => r == Rejected(Conjure(ConjureError(Parse, error, Some(outcome.value.status), Undefined)))
              case Read(body) =>
                r == if outcome.value.ok then Resolved(body)
                     else Rejected(Conjure(ConjureError(Status, Undefined, Some(outcome.value.status), body)))
    ensures outcome.Rejected? ==> r == Rejected(Conjure(Classify(outcome.reason)))
  {
    match TryBlock(outcome)
    case Resolved(value) => Resolved(value)
    case Rejected(thrown) => Rejected(Conjure(Classify(thrown)))
  }

  /** A ConjureError is never wrapped a second time. */
  lemma ClassifyIdempotent(thrown: Thrown)
    ensures Classify(Conjure(Classify(thrown))) == Classify(thrown)
  {
  }

  // ---------------------------------------------------------------------------
  // The call

  /** A bridge: the base URL and token as already resolved, and the user agent. */
  datatype Bridge = Bridge(baseUrl: string, token: Option<string>, userAgent: UserAgents.Agent)

  /** What is handed to fetch. */
  datatype Request = Request(url: string, credentials: string, headers: map<string, string>, httpMethod: string,
                             body: Option<RequestBody>)

  /** The request URL: base URL, "/", the filled path, the query string. */
  function Url(bridge: Bridge, params: EndpointOptions): string
  {
    bridge.baseUrl + "/" + PathTemplates.Fill(NormalizeWithNoLeadingSlash(params.endpointPath), params.pathArguments)
    + QueryString(params.queryArguments)
  }

  /**
   * The query string can be read back off the URL: when neither the base URL nor the
   * path template holds "?", the URL's first "?" starts the query string, and the URL
   * has no "?" exactly when no query pair is emitted.
   */
  lemma UrlQueryStart(bridge: Bridge, params: EndpointOptions)
    requires '?' !in bridge.baseUrl && '?' !in params.endpointPath
    ensures Strings.IndexOf(Url(bridge, params), '?').None? <==> QueryString(params.queryArguments) == ""
    ensures Strings.IndexOf(Url(bridge, params), '?').Some? ==>
              Url(bridge, params)[Strings.IndexOf(Url(bridge, params), '?').value..] == QueryString(params.queryArguments)
  {
    var template := NormalizeWithNoLeadingSlash(params.endpointPath);
    assert '?' !in template by {
      if params.endpointPath != [] && params.endpointPath[0] == '/' {
        assert template == params.endpointPath[1..];
      }
    }
    PathTemplates.FillKeepsOut(template, params.pathArguments, '?');
    var prefix := bridge.baseUrl + "/" + PathTemplates.Fill(template, params.pathArguments);
    var query := QueryString(params.queryArguments);
    assert '?' !in prefix;
    if query == "" {
      assert Url(bridge, params) == prefix;
    } else {
      assert query == "?" + query[1..];
      assert Url(bridge, params) == prefix + ['?'] + query[1..];
      Strings.IndexAfterPrefix(prefix, '?', query[1..]);
      assert Url(bridge, params)[|prefix|..] == query;
    }
  }

  /**
   * The request the call builds from the caller's headers, or the error encoding the
   * body raised (which rejects the call before fetch is reached).
   */
  function Prepare(bridge: Bridge, params: EndpointOptions, callerHeaders: map<string, JsValue>): (r: Settled<Request>)
    ensures r.Resolved? ==> r.value.url == Url(bridge, params) && r.value.credentials == "same-origin"
                            && r.value.httpMethod == params.httpMethod
    ensures r.Resolved? ==> r.value.headers == SentHeaders(callerHeaders, bridge.userAgent, bridge.token,
                                                           params.requestMediaType, params.responseMediaType)
    ensures r.Resolved? ==> (r.value.body.Some? <==> !IsNullish(params.data))
    ensures r.Resolved? && r.value.body.Some? ==> HandleBody(params.requestMediaType, params.data) == Resolved(r.value.body.value)
    ensures r.Rejected? <==> !IsNullish(params.data) && HandleBody(params.requestMediaType, params.data).Rejected?
    ensures r.Rejected? ==> r == Rejected(HandleBody(params.requestMediaType, params.data).reason) && !r.reason.Conjure?
  {
    var headers := SentHeaders(callerHeaders, bridge.userAgent, bridge.token, params.requestMediaType, params.responseMediaType);
    var request := Request(Url(bridge, params), "same-origin", headers, params.httpMethod, None);
    if IsNullish(params.data) then Resolved(request)
    else match HandleBody(params.requestMediaType, params.data)
      case Rejected(error) => Rejected(error)
      case Resolved(body) => Resolved(request.(body := Some(body)))
  }

  /**
   * `callEndpoint`: writes the user agent into the caller's header object, builds the
   * request, and either rejects with the body-encoding error or hands the request to
   * `fetch` and classifies how it settled.
   */
  method CallEndpoint(bridge: Bridge, params: EndpointOptions, fetch: Request -> Settled<FetchResponse>)
    returns (result: Settled<JsValue>, sent: Option<Request>)
    modifies if params.headers.Some? then {params.headers.value} else {}
    ensures params.headers.Some? ==>
              params.headers.value.entries == old(params.headers.value.entries)[FetchUserAgentHeader := Str(FormatUserAgent(bridge.userAgent))]
    ensures var callerHeaders := if params.headers.Some? then old(params.headers.value.entries) else map[];
            match Prepare(bridge, params, callerHeaders)
            case Rejected(error) => result == Rejected(error) && sent.None?
            case Resolved(request) => sent == Some(request) && result == Interpret(fetch(request))
  {
    var path := BuildPath(params.endpointPath, params.pathArguments);
    var query := BuildQueryString(params.queryArguments);
    var url := bridge.baseUrl + "/" + path + query;
    var headers: HeaderObject;
    if params.headers.Some? {
      headers := params.headers.value;
    } else {
      headers := new HeaderObject(map[]);
    }
    ghost var callerHeaders := headers.entries;
    headers.Set(FetchUserAgentHeader, Str(FormatUserAgent(bridge.userAgent)));
    var stringifiedHeaders := StringifyHeaders(headers.entries);
    var requestHeaders := stringifiedHeaders;
    if bridge.token.Some? {
      requestHeaders := requestHeaders[AuthorizationHeader := "Bearer " + bridge.token.value];
    }
    if params.requestMediaType.Some? && params.requestMediaType.value != MultipartFormData {
      requestHeaders := requestHeaders[ContentTypeHeader := params.requestMediaType.value.Text()];
    }
    if params.responseMediaType.Some? {
      requestHeaders := requestHeaders[AcceptHeader := params.responseMediaType.value.Text()];
    }
    var request := Request(url, "same-origin", requestHeaders, params.httpMethod, None);
    if !IsNullish(params.data) {
      var body := HandleBody(params.requestMediaType, params.data);
      if body.Rejected? {
        return Rejected(body.reason), None;
      }
      request := request.(body := Some(body.value));
    }
    sent := Some(request);
    result := Interpret(fetch(request));
  }
}
