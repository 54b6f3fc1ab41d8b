/**
 * Endpoint path templates: the placeholder pattern `/\{[^\}]+\}/` (an opening brace,
 * at least one character other than a closing brace, then a closing brace), its
 * leftmost match as `String.prototype.replace` finds it, and `Fill`, the
 * left-to-right substitution of percent-encoded path arguments that `buildPath`
 * computes.
 */
module PathTemplates {
  import opened Wrappers
  import opened JsValues
  import UriCodec

  /** A placeholder occupies `s[i..e]`: "{", one or more characters other than "}", then "}". */
  ghost predicate IsPlaceholder(s: string, i: int, e: int)
  {
    0 <= i && i + 3 <= e <= |s| && s[i] == '{' && s[e - 1] == '}'
    && forall k :: i < k < e - 1 ==> s[k] != '}'
  }

  /** Index of the first "}" at or after `i`. */
  function CloseFrom(s: string, i: nat): (r: Option<nat>)
    ensures r.Some? ==> i <= r.value < |s| && s[r.value] == '}'
                        && forall k :: i <= k < r.value ==> s[k] != '}'
    ensures r.None? ==> forall k :: i <= k < |s| ==> s[k] != '}'
    decreases |s| - i
  {
    if i >= |s| then None else if s[i] == '}' then Some(i) else CloseFrom(s, i + 1)
  }

  /** End (exclusive) of the pattern's match starting exactly at `i`, if it matches there. */
  function MatchAt(s: string, i: nat): (r: Option<nat>)
    ensures r.Some? ==> IsPlaceholder(s, i, r.value)
    ensures r.None? ==> forall e :: !IsPlaceholder(s, i, e)
  {
    if i >= |s| || s[i] != '{' then None
    else match CloseFrom(s, i + 1)
      case None => None
      case Some(j) => if j == i + 1 then None else Some(j + 1)
  }

  function FirstFrom(s: string, i: nat): (r: Option<(nat, nat)>)
    ensures r.Some? ==> i <= r.value.0 && MatchAt(s, r.value.0) == Some(r.value.1)
                        && forall k :: i <= k < r.value.0 ==> MatchAt(s, k).None?
    ensures r.None? ==> forall k :: i <= k ==> MatchAt(s, k).None?
    decreases |s| - i
  {
    if i >= |s| then None
    else match MatchAt(s, i)
      case Some(e) => Some((i, e))
      case None => FirstFrom(s, i + 1)
  }

  /** The leftmost match of the placeholder pattern in `s`. */
  function FirstPlaceholder(s: string): (r: Option<(nat, nat)>)
    ensures r.Some? ==> IsPlaceholder(s, r.value.0, r.value.1)
                        && forall k :: 0 <= k < r.value.0 ==> MatchAt(s, k).None?
    ensures r.None? ==> forall i, e :: !IsPlaceholder(s, i, e)
  {
    var r := FirstFrom(s, 0);
    if r.None? then NoMatchNoPlaceholder(s); r else r
  }

  lemma NoMatchNoPlaceholder(s: string)
    requires forall k: nat :: MatchAt(s, k).None?
    ensures forall i, e :: !IsPlaceholder(s, i, e)
  {
    forall i, e | 0 <= i ensures !IsPlaceholder(s, i, e) {
      var n: nat := i;
      assert MatchAt(s, n).None?;
    }
  }

  /**
   * `s.replace(/\{[^\}]+\}/, replacement)` for a replacement without "$" (so no
   * replacement pattern applies): the leftmost placeholder is replaced, or nothing
   * changes when there is none.
   */
  function ReplaceFirstPlaceholder(s: string, replacement: string): (r: string)
    requires '$' !in replacement
    ensures (forall i, e :: !IsPlaceholder(s, i, e)) ==> r == s
    ensures forall i, e :: IsPlaceholder(s, i, e) && (forall k, e' :: 0 <= k < i ==> !IsPlaceholder(s, k, e'))
                           ==> r == s[..i] + replacement + s[e..]
  {
    match FirstPlaceholder(s)
    case None => s
    case Some((i, e)) => FirstIsLeftmost(s, i, e); s[..i] + replacement + s[e..]
  }

  /** The match `FirstPlaceholder` finds is the only placeholder with none before it. */
  lemma FirstIsLeftmost(s: string, i: nat, e: nat)
    requires FirstPlaceholder(s) == Some((i, e))
    ensures forall i', e' :: IsPlaceholder(s, i', e') && (forall k, e'' :: 0 <= k < i' ==> !IsPlaceholder(s, k, e''))
                             ==> i' == i && e' == e
  {
    forall i', e' | IsPlaceholder(s, i', e') && (forall k, e'' :: 0 <= k < i' ==> !IsPlaceholder(s, k, e''))
      ensures i' == i && e' == e
    {
      assert MatchAt(s, i').Some? && IsPlaceholder(s, i, e);
      assert i' == i;
      assert s[e' - 1] == '}' && s[e - 1] == '}';
    }
  }

  /** The text a path argument contributes before encoding: null and undefined become "". */
  function PathArgText(v: JsValue): string
  {
    if IsNullish(v) then "" else ToString(v)
  }

  function EncodedPathArg(v: JsValue): string
  {
    UriCodec.EncodeUriComponent(PathArgText(v))
  }

  /**
   * The path `buildPath` produces, read left to right: each placeholder of the
   * template, in order of appearance, receives the next argument's percent-encoded
   * text; placeholders left over stay as they are, arguments left over are ignored.
   */
  function Fill(s: string, args: seq<JsValue>): string
    decreases |s|
  {
    match FirstPlaceholder(s)
    case None => s
    case Some((i, e)) =>
      if args == [] then s else s[..i] + EncodedPathArg(args[0]) + Fill(s[e..], args[1..])
  }

  /** Number of placeholders, counted the way successive leftmost replacements consume them. */
  function PlaceholderCount(s: string): nat
    decreases |s|
  {
    match FirstPlaceholder(s)
    case None => 0
    case Some((i, e)) => 1 + PlaceholderCount(s[e..])
  }

  /**
   * Text that cannot take part in a match, even with more text after it: each "{"
   * in it is directly followed by "}".
   */
  ghost predicate Inert(p: string)
  {
    forall k :: 0 <= k < |p| && p[k] == '{' ==> k + 1 < |p| && p[k + 1] == '}'
  }

  lemma InertConcat(a: string, b: string)
    requires Inert(a) && Inert(b)
    ensures Inert(a + b)
  {
    var ab := a + b;
    forall k | 0 <= k < |ab| && ab[k] == '{' ensures k + 1 < |ab| && ab[k + 1] == '}' {
      if k < |a| {
        assert a[k] == '{';
      } else {
        assert b[k - |a|] == '{';
      }
    }
  }

  lemma EncodedIsInert(v: JsValue)
    ensures Inert(EncodedPathArg(v))
    ensures '$' !in EncodedPathArg(v)
  {
    UriCodec.EncodedCharacters(PathArgText(v));
  }

  /** The text before the leftmost placeholder is inert. */
  lemma PrefixBeforeMatchIsInert(s: string, i: nat, e: nat)
    requires FirstPlaceholder(s) == Some((i, e))
    ensures Inert(s[..i])
  {
    forall k | 0 <= k < i && s[k] == '{' ensures k + 1 < i && s[k + 1] == '}' {
      assert MatchAt(s, k).None?;
      assert s[e - 1] == '}' && k + 1 <= e - 1;
      var j := CloseFrom(s, k + 1);
      assert j == Some(k + 1);
    }
  }

  lemma {:induction false} CloseFromShift(p: string, t: string, k: nat)
    ensures CloseFrom(p + t, |p| + k) == (match CloseFrom(t, k) case None => None case Some(j) => Some(|p| + j))
    decreases |t| - k
  {
    if k < |t| {
      assert (p + t)[|p| + k] == t[k];
      CloseFromShift(p, t, k + 1);
    }
  }

  lemma MatchAtShift(p: string, t: string, k: nat)
    ensures MatchAt(p + t, |p| + k) == (match MatchAt(t, k) case None => None case Some(e) => Some(|p| + e))
  {
    if k < |t| {
      assert (p + t)[|p| + k] == t[k];
      CloseFromShift(p, t, k + 1);
    }
  }

  lemma MatchAtInert(p: string, t: string, k: nat)
    requires Inert(p) && k < |p|
    ensures MatchAt(p + t, k).None?
  {
    var s := p + t;
    if s[k] == '{' {
      assert p[k] == '{';
      assert s[k + 1] == '}';
      assert CloseFrom(s, k + 1) == Some(k + 1);
    }
  }

  lemma {:induction false} FirstFromShift(p: string, t: string, k: nat)
    ensures FirstFrom(p + t, |p| + k) == (match FirstFrom(t, k) case None => None case Some(m) => Some((|p| + m.0, |p| + m.1)))
    decreases |t| - k
  {
    MatchAtShift(p, t, k);
    if k < |t| {
      FirstFromShift(p, t, k + 1);
    }
  }

  lemma {:induction false} FirstFromInert(p: string, t: string, k: nat)
    requires Inert(p) && k <= |p|
    ensures FirstFrom(p + t, k) == FirstFrom(p + t, |p|)
    decreases |p| - k
  {
    if k < |p| {
      MatchAtInert(p, t, k);
      FirstFromInert(p, t, k + 1);
    }
  }

  /** After inert text, the leftmost placeholder is the one of the rest, shifted. */
  lemma FirstPlaceholderAfterInert(p: string, t: string)
    requires Inert(p)
    ensures FirstPlaceholder(p + t) == (match FirstPlaceholder(t) case None => None case Some(m) => Some((|p| + m.0, |p| + m.1)))
  {
    FirstFromInert(p, t, 0);
    FirstFromShift(p, t, 0);
  }

  /** Inert text in front does not change the placeholder count. */
  lemma {:induction false} CountAfterInert(p: string, t: string)
    requires Inert(p)
    ensures PlaceholderCount(p + t) == PlaceholderCount(t)
  {
    FirstPlaceholderAfterInert(p, t);
    match FirstPlaceholder(t)
    case None =>
    case Some((i, e)) =>
      assert (p + t)[|p| + e..] == t[e..];
  }

  /**
   * Each argument consumes exactly one placeholder and substituted text is never
   * matched again: filling leaves `max(0, count - |args|)` placeholders.
   */
  lemma {:induction false} FillPlaceholderCount(s: string, args: seq<JsValue>)
    ensures PlaceholderCount(Fill(s, args)) == if |args| >= PlaceholderCount(s) then 0 else PlaceholderCount(s) - |args|
    decreases |s|
  {
    match FirstPlaceholder(s)
    case None =>
    case Some((i, e)) =>
      if args != [] {
        FillStepCount(s, args, i, e);
        FillPlaceholderCount(s[e..], args[1..]);
      }
  }

  lemma FillStepCount(s: string, args: seq<JsValue>, i: nat, e: nat)
    requires FirstPlaceholder(s) == Some((i, e)) && args != []
    ensures PlaceholderCount(Fill(s, args)) == PlaceholderCount(Fill(s[e..], args[1..]))
    ensures PlaceholderCount(s) == 1 + PlaceholderCount(s[e..])
  {
    var pre := s[..i] + EncodedPathArg(args[0]);
    var rest := Fill(s[e..], args[1..]);
    PrefixBeforeMatchIsInert(s, i, e);
    EncodedIsInert(args[0]);
    InertConcat(s[..i], EncodedPathArg(args[0]));
    assert Fill(s, args) == pre + rest;
    CountAfterInert(pre, rest);
  }

  /** With an argument for every placeholder, no placeholder is left in the path. */
  lemma FillComplete(s: string, args: seq<JsValue>)
    requires |args| >= PlaceholderCount(s)
    ensures FirstPlaceholder(Fill(s, args)).None?
  {
    FillPlaceholderCount(s, args);
  }

  /** Arguments beyond the number of placeholders change nothing. */
  lemma {:induction false} FillIgnoresSurplus(s: string, args: seq<JsValue>)
    requires |args| >= PlaceholderCount(s)
    ensures Fill(s, args) == Fill(s, args[..PlaceholderCount(s)])
    decreases |s|
  {
    match FirstPlaceholder(s)
    case None =>
    case Some((i, e)) =>
      var n := PlaceholderCount(s);
      assert args[..n][0] == args[0];
      assert args[..n][1..] == args[1..][..n - 1];
      FillIgnoresSurplus(s[e..], args[1..]);
  }

  /** The argument for a placeholder is null or undefined: the placeholder becomes empty. */
  lemma FillNullArgument(s: string, args: seq<JsValue>)
    requires args != [] && IsNullish(args[0])
    requires FirstPlaceholder(s).Some?
    ensures var (i, e) := FirstPlaceholder(s).value;
            Fill(s, args) == s[..i] + Fill(s[e..], args[1..])
  {
    assert EncodedPathArg(args[0]) == "";
  }

  /** A character that `encodeURIComponent` never writes and the template lacks is absent from the filled path. */
  lemma {:induction false} FillKeepsOut(s: string, args: seq<JsValue>, c: char)
    requires c !in s && !UriCodec.IsEncodedChar(c)
    ensures c !in Fill(s, args)
    decreases |s|
  {
    match FirstPlaceholder(s)
    case None =>
    case Some((i, e)) =>
      if args != [] {
        var encoded := EncodedPathArg(args[0]);
        UriCodec.EncodedCharacters(PathArgText(args[0]));
        assert c !in encoded;
        assert c !in s[..i] && c !in s[e..];
        FillKeepsOut(s[e..], args[1..], c);
      }
  }

  /** A placeholder with no "{" before it is the leftmost match. */
  lemma LeftmostPlaceholder(s: string, i: nat, e: nat)
    requires IsPlaceholder(s, i, e)
    requires forall k :: 0 <= k < i ==> s[k] != '{'
    ensures FirstPlaceholder(s) == Some((i, e))
  {
    assert MatchAt(s, i).Some?;
    var (i', e') := FirstPlaceholder(s).value;
    assert s[i'] == '{';
    assert i' == i;
    assert s[e' - 1] == '}' && s[e - 1] == '}';
  }

  /** Text without "{" holds no placeholder. */
  lemma NoBraceNoPlaceholder(s: string)
    requires '{' !in s
    ensures FirstPlaceholder(s).None?
  {
  }

  /** A template with one placeholder: filling it puts the encoded argument in its place. */
  lemma FillSingle(pre: string, name: string, post: string, arg: JsValue)
    requires '{' !in pre && '{' !in post
    requires name != [] && '}' !in name
    ensures Fill(pre + "{" + name + "}" + post, [arg]) == pre + EncodedPathArg(arg) + post
  {
    var s := pre + "{" + name + "}" + post;
    var e := |pre| + |name| + 2;
    assert s[|pre|] == '{' && s[e - 1] == '}';
    assert forall k :: |pre| < k < e - 1 ==> s[k] == name[k - |pre| - 1];
    assert forall k :: 0 <= k < |pre| ==> s[k] == pre[k];
    LeftmostPlaceholder(s, |pre|, e);
    assert s[..|pre|] == pre && s[e..] == post;
    NoBraceNoPlaceholder(post);
    assert [arg][1..] == [];
  }
}
