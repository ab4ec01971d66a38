/**
  The renderer's URL normaliser. The `new URL(...)` constructor is a foreign
  call, so it enters as a parameter: `parses(u)` holds exactly when
  `new URL(u)` does not throw.
 */
module Urls {
  import opened Options
  import opened Text

  type UrlParser = string -> bool

  /**
    `normalizeUrl(raw)`: absent or blank input is rejected, otherwise the
    trimmed input with "https://" in front unless it already names an http(s)
    scheme, provided the URL parser accepts it.
   */
  function NormalizeUrl(raw: Option<string>, parses: UrlParser): (r: Option<string>)
    ensures raw.None? ==> r.None?
    ensures raw.Some? && |Trim(raw.value)| == 0 ==> r.None?
    ensures r.Some? <==> raw.Some? && |Trim(raw.value)| > 0 && parses(WithScheme(Trim(raw.value)))
    ensures r.Some? ==> IsTrimmed(r.value) && HasHttpScheme(r.value)
    ensures r.Some? ==> (var t := Trim(raw.value);
                         |t| <= |r.value| && r.value[|r.value| - |t|..] == t
                         && (r.value == t <==> HasHttpScheme(t))
                         && (!HasHttpScheme(t) ==> r.value == SecurePrefix + t))
  {
    if raw.None? then None
    else
      var t := Trim(raw.value);
      if |t| == 0 then None
      else
        var u := WithScheme(t);
        WithSchemeTrimmed(t);
        if parses(u) then Some(u) else None
  }

  /** A URL the normaliser produced passes through it again unchanged. */
  lemma NormalizeUrlIdempotent(raw: Option<string>, parses: UrlParser)
    requires NormalizeUrl(raw, parses).Some?
    ensures NormalizeUrl(NormalizeUrl(raw, parses), parses) == NormalizeUrl(raw, parses)
  {
    var u := NormalizeUrl(raw, parses).value;
    var t := Trim(raw.value);
    WithSchemeTrimmed(t);
    assert Trim(u) == u;
    assert |u| >= |t| > 0;
  }

  /** Whitespace around an already-schemed URL is all the normaliser removes. */
  lemma NormalizeKeepsSchemedUrl(w1: string, u: string, w2: string, parses: UrlParser)
    requires AllSpace(w1) && AllSpace(w2) && IsTrimmed(u) && HasHttpScheme(u) && parses(u)
    ensures NormalizeUrl(Some(w1 + u + w2), parses) == Some(u)
  {
    TrimPadded(w1, u, w2);
  }

  /** A bare host gains exactly the secure scheme. */
  lemma NormalizePrefixesBareHost(u: string, parses: UrlParser)
    requires |u| > 0 && IsTrimmed(u) && !HasHttpScheme(u) && parses(SecurePrefix + u)
    ensures NormalizeUrl(Some(u), parses) == Some(SecurePrefix + u)
  {
    TrimPadded([], u, []);
    assert [] + u + [] == u;
  }
}
