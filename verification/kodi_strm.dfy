/** The `.strm` line Kodi reads: `url` alone, or `url|k1=v1&k2=v2` with each
    header value percent-encoded. The reading side (`ParseStrm`) is the
    convention Kodi applies to such a line. */
module KodiStrm {
  import opened Wrappers
  import opened Text
  import opened PercentEncoding
  import opened CurlParser

  /** The `ValueError("No URL found in curl command.")` of `kodi_strm_content`. */
  datatype StrmError = NoUrlFound

  /** `f"{k}={quote(v)}"`: a field that holds no `&` and reads back as the
      header whenever the name has no `&` or `=`. */
  function HeaderField(h: (string, string)): (r: string)
    ensures PlainName(h.0) ==> ParseField(r) == Some(h) && '&' !in r
  {
    var f := h.0 + "=" + Quote(h.1);
    assert PlainName(h.0) ==> ParseField(f) == Some(h) && '&' !in f by {
      if PlainName(h.0) {
        ParseHeaderField(h.0, h.1);
      }
    }
    f
  }

  function HeaderFields(hs: seq<(string, string)>): (fs: seq<string>)
    ensures |fs| == |hs|
    ensures forall i :: 0 <= i < |hs| ==> fs[i] == HeaderField(hs[i])
  {
    seq(|hs|, i requires 0 <= i < |hs| => HeaderField(hs[i]))
  }

  /** `kodi_strm_content(url, headers)`. A missing or empty URL is the
      error; otherwise the URL is kept verbatim, and the `|` suffix appears
      exactly when there are headers. */
  function StrmContent(url: Option<string>, headers: seq<(string, string)>): (r: Result<string, StrmError>)
    ensures r.Failure? <==> url.None? || url.value == []
    ensures r.Success? ==> |url.value| <= |r.value| && r.value[..|url.value|] == url.value
    ensures r.Success? ==> (r.value == url.value <==> headers == [])
    ensures r.Success? && headers != [] ==> r.value[|url.value|] == '|'
  {
    if url.None? || url.value == [] then Failure(NoUrlFound)
    else if headers == [] then Success(url.value)
    else Success(url.value + "|" + Join(HeaderFields(headers), "&"))
  }

  // ---------------------------------------------------------------------
  // Reading a .strm line back
  // ---------------------------------------------------------------------

  /** One `k=v` field: split at the first `=`, then percent-decode the value. */
  function ParseField(f: string): Option<(string, string)> {
    var j := Find(f, 0, '=');
    if j == |f| then None
    else
      match Unquote(f[j + 1..])
      case None => None
      case Some(v) => Some((f[..j], v))
  }

  function ParseFields(fs: seq<string>): Option<seq<(string, string)>> {
    if fs == [] then Some([])
    else
      match (ParseField(fs[0]), ParseFields(fs[1..]))
      case (Some(h), Some(rest)) => Some([h] + rest)
      case _ => None
  }

  /** The URL is everything before the first `|`; after it come `&`-separated
      header fields. */
  function ParseStrm(t: string): Option<(string, seq<(string, string)>)> {
    var i := Find(t, 0, '|');
    if i == |t| then Some((t, []))
    else
      match ParseFields(Split(t[i + 1..], '&'))
      case None => None
      case Some(hs) => Some((t[..i], hs))
  }

  /** What a header name must avoid for the line to be read back unchanged. */
  predicate PlainName(k: string) {
    '&' !in k && '=' !in k
  }

  /** A name, `=` and a quoted value read back as the pair, with no `&`. */
  lemma ParseHeaderField(name: string, value: string)
    requires PlainName(name)
    ensures ParseField(name + "=" + Quote(value)) == Some((name, value))
    ensures '&' !in name + "=" + Quote(value)
  {
    var q := Quote(value);
    var f := name + "=" + q;
    assert f[..|name|] == name;
    assert f[|name|] == '=';
    FindFirst(f, |name|, '=');
    assert f[|name| + 1..] == q;
    UnquoteQuote(value);
    assert !IsQuoteOutput('&');
    assert '&' !in q;
  }

  lemma {:induction false} ParseHeaderFields(hs: seq<(string, string)>)
    requires forall i :: 0 <= i < |hs| ==> PlainName(hs[i].0)
    ensures ParseFields(HeaderFields(hs)) == Some(hs)
    decreases |hs|
  {
    if hs != [] {
      var fs := HeaderFields(hs);
      assert ParseField(fs[0]) == Some(hs[0]);
      assert fs[1..] == HeaderFields(hs[1..]);
      ParseHeaderFields(hs[1..]);
      assert hs == [hs[0]] + hs[1..];
    }
  }

  /** Kodi reads back the URL and every header, value decoded, from the line
      `kodi_strm_content` writes, when the URL has no `|` and no header name
      holds `&` or `=`. */
  lemma StrmRoundTrip(url: string, headers: seq<(string, string)>)
    requires url != [] && '|' !in url
    requires forall i :: 0 <= i < |headers| ==> PlainName(headers[i].0)
    ensures StrmContent(Some(url), headers).Success?
    ensures ParseStrm(StrmContent(Some(url), headers).value) == Some((url, headers))
  {
    var t := StrmContent(Some(url), headers).value;
    if headers == [] {
      assert Find(t, 0, '|') == |t|;
    } else {
      var fs := HeaderFields(headers);
      var body := Join(fs, "&");
      assert t == url + "|" + body;
      assert t[|url|] == '|';
      assert forall k :: 0 <= k < |url| ==> t[k] == url[k];
      assert Find(t, 0, '|') == |url|;
      assert t[..|url|] == url;
      assert t[|url| + 1..] == body;
      forall i | 0 <= i < |fs| ensures '&' !in fs[i] {
        assert fs[i] == HeaderField(headers[i]);
      }
      SplitJoin(fs, '&');
      ParseHeaderFields(headers);
    }
  }

  /** A found URL is never empty, so a `.strm` line can be written from a
      parsed command exactly when a URL was found, by either parser. */
  lemma StrmOfParsedCommand(s: string, allowed: Option<seq<string>>, includeAll: bool)
    ensures var p := ParseCurl(s, allowed, includeAll);
            StrmContent(p.url, p.headers).Success? <==> p.url.Some?
    ensures var p := ParseCurlLegacy(s);
            StrmContent(p.url, p.headers).Success? <==> p.url.Some?
  {
    FoundUrlShape(s);
  }
}
