/** The curl-command scanner of both implementations: the first HTTP(S) URL
    and the `-H` header values, split into name and value, filtered against
    an allow set and collected into an insertion-ordered dictionary.

    The regular expressions are not interpreted; each is written out as the
    scanner it denotes, with Python's leftmost-first backtracking order, and
    the scanners are then related to declarative descriptions of a match. */
module CurlParser {
  import opened Wrappers
  import opened Text
  import opened HeaderMaps

  // ---------------------------------------------------------------------
  // URLs: `https?://[^\s'"]+`
  // ---------------------------------------------------------------------

  /** Length of the `https://` or `http://` prefix at `q` (case-sensitive), or 0.
      `s?` is greedy, so `https://` is tried first. The ensures only spell out
      the cases; `UrlStartsAt` and `FoundUrlShape` say what a URL is. */
  function SchemeLen(s: string, q: nat): (n: nat)
    ensures n == 8 <==> PrefixAt(s, q, "https://")
    ensures n == 7 <==> !PrefixAt(s, q, "https://") && PrefixAt(s, q, "http://")
    ensures n == 0 || n == 7 || n == 8
  {
    if PrefixAt(s, q, "https://") then 8
    else if PrefixAt(s, q, "http://") then 7
    else 0
  }

  /** `[^\s'"]`: a character a URL may contain. */
  predicate UrlChar(c: char) {
    !IsSpace(c) && c != '\'' && c != '"'
  }

  predicate IsQuote(c: char) {
    c == '\'' || c == '"'
  }

  /** A URL starts at `q`: a scheme followed by at least one URL character. */
  predicate UrlStartsAt(s: string, q: nat) {
    && SchemeLen(s, q) > 0
    && q + SchemeLen(s, q) < |s|
    && UrlChar(s[q + SchemeLen(s, q)])
  }

  /** Where the URL starting at `q` ends: `[^\s'"]+` is greedy. */
  function UrlEnd(s: string, q: nat): (e: nat)
    requires UrlStartsAt(s, q)
    ensures q + SchemeLen(s, q) < e <= |s|
    ensures forall k :: q + SchemeLen(s, q) <= k < e ==> UrlChar(s[k])
    ensures e == |s| || !UrlChar(s[e])
  {
    Span(s, q + SchemeLen(s, q), UrlChar)
  }

  /** The earliest URL start at or after `i`. */
  function FirstUrlStart(s: string, i: nat): (r: Option<nat>)
    requires i <= |s|
    ensures r.None? ==> forall q :: i <= q < |s| ==> !UrlStartsAt(s, q)
    ensures r.Some? ==> i <= r.value < |s| && UrlStartsAt(s, r.value)
                        && forall q :: i <= q < r.value ==> !UrlStartsAt(s, q)
    decreases |s| - i
  {
    if i == |s| then None
    else if UrlStartsAt(s, i) then Some(i)
    else FirstUrlStart(s, i + 1)
  }

  /** `re.search(r"(https?://[^\s'\"]+)", s).group(1)` of the legacy module:
      the URL that starts earliest, taken up to the end of its run of URL
      characters; `None` when no URL occurs. */
  function FindUrl(s: string): (r: Option<string>)
    ensures r.None? <==> forall q :: 0 <= q < |s| ==> !UrlStartsAt(s, q)
    ensures r.Some? ==>
              exists q :: 0 <= q < |s| && UrlStartsAt(s, q)
                          && (forall q' :: 0 <= q' < q ==> !UrlStartsAt(s, q'))
                          && r.value == s[q..UrlEnd(s, q)]
  {
    match FirstUrlStart(s, 0)
    case None => None
    case Some(q) => Some(s[q..UrlEnd(s, q)])
  }

  /** Where group 1 of `['"]?(https?://[^\s'"]+)['"]?` starts when the match
      is attempted at `p`: the optional quote is consumed first, and given
      back when no URL follows it. The trailing `['"]?` always succeeds. */
  function UrlMatchAt(s: string, p: nat): Option<nat>
    requires p <= |s|
  {
    if p < |s| && IsQuote(s[p]) && UrlStartsAt(s, p + 1) then Some(p + 1)
    else if UrlStartsAt(s, p) then Some(p)
    else None
  }

  /** `re.search` of the quote-tolerant URL pattern from position `i`. */
  function SearchUrl(s: string, i: nat): (r: Option<nat>)
    ensures r.Some? ==> UrlStartsAt(s, r.value)
    decreases |s| + 1 - i
  {
    if i > |s| then None
    else match UrlMatchAt(s, i)
      case Some(g) => Some(g)
      case None => SearchUrl(s, i + 1)
  }

  /** The URL found by the newer module: the optional quotes around its
      pattern change nothing, so it is the URL the legacy pattern finds. */
  function FindUrlQuoted(s: string): (r: Option<string>)
    ensures r == FindUrl(s)
  {
    SearchUrlFindsFirstStart(s, 0);
    match SearchUrl(s, 0)
    case None => None
    case Some(g) => Some(s[g..UrlEnd(s, g)])
  }

  /** Every URL opens with `h`. */
  lemma UrlStartsWithH(s: string, q: nat)
    ensures UrlStartsAt(s, q) ==> s[q] == 'h'
  {
    if UrlStartsAt(s, q) {
      var n := SchemeLen(s, q);
      assert s[q..q + n][0] == s[q];
    }
  }

  lemma {:induction false} SearchUrlFindsFirstStart(s: string, i: nat)
    requires i <= |s|
    ensures SearchUrl(s, i) == FirstUrlStart(s, i)
    decreases |s| - i
  {
    match UrlMatchAt(s, i)
    case Some(g) =>
      if g == i + 1 && UrlStartsAt(s, i) {
        UrlStartsWithH(s, i);
      }
    case None =>
      if i < |s| {
        SearchUrlFindsFirstStart(s, i + 1);
      }
  }

  /** The text of a URL starting at `q` begins with its scheme, has
      something after it, and holds only URL characters. */
  lemma UrlShapeAt(s: string, q: nat)
    requires UrlStartsAt(s, q)
    ensures var u := s[q..UrlEnd(s, q)];
            && (PrefixAt(u, 0, "http://") || PrefixAt(u, 0, "https://"))
            && |u| > 7 && u[0] == 'h'
            && forall k :: 0 <= k < |u| ==> UrlChar(u[k])
  {
    UrlStartsWithH(s, q);
    var e := UrlEnd(s, q);
    var u := s[q..e];
    var n := SchemeLen(s, q);
    assert u[..n] == s[q..q + n];
    if n == 8 {
      assert PrefixAt(u, 0, "https://");
    } else {
      assert PrefixAt(u, 0, "http://");
    }
    forall k | 0 <= k < |u| ensures UrlChar(u[k]) {
      if k < n {
        assert u[k] == u[..n][k];
      }
    }
  }

  /** A found URL begins with `http://` or `https://`, has something after
      the scheme, and holds no whitespace and no quote. */
  lemma FoundUrlShape(s: string)
    ensures FindUrl(s).Some? ==>
              var u := FindUrl(s).value;
              && (PrefixAt(u, 0, "http://") || PrefixAt(u, 0, "https://"))
              && |u| > 7 && u[0] == 'h'
              && forall k :: 0 <= k < |u| ==> UrlChar(u[k])
  {
    if FindUrl(s).Some? {
      UrlShapeAt(s, FirstUrlStart(s, 0).value);
    }
  }

  /** The optional quotes around the newer URL pattern never change what
      group 1 captures: both modules extract the same URL. */
  lemma QuotedUrlPatternAgrees(s: string)
    ensures FindUrlQuoted(s) == FindUrl(s)
  {
    SearchUrlFindsFirstStart(s, 0);
  }

  // ---------------------------------------------------------------------
  // Header flags
  // ---------------------------------------------------------------------

  /** The newer module's `_HEADER_PATTERN` (case-insensitive, anchored at the
      start or after one whitespace character, three value forms) and the
      legacy module's pattern (case-sensitive `-H`, quoted values only). */
  datatype Grammar = Modern | Legacy

  /** One match of a header pattern: the match starts at `start`, the flag at
      `flag`, the value at `value`; `raw` is the captured group and `end` is
      where the match ends. */
  datatype HeaderMatch = HeaderMatch(start: nat, flag: nat, value: nat, raw: string, end: nat)

  /** Length of the flag token at `f`, or 0 when there is none. */
  function FlagLen(g: Grammar, s: string, f: nat): (n: nat)
    ensures n == 0 || f + n <= |s|
  {
    match g
    case Legacy => if PrefixAt(s, f, "-H") then 2 else 0
    case Modern =>
      if PrefixAtIgnoringCase(s, f, "-h") then 2
      else if PrefixAtIgnoringCase(s, f, "--header") then 8
      else 0
  }

  /** `q([^q]+)q` at `v`. */
  function QuotedAt(s: string, v: nat, q: char): (r: Option<(string, nat)>)
    requires v <= |s|
  {
    if v < |s| && s[v] == q then
      var k := Find(s, v + 1, q);
      if v + 1 < k < |s| then Some((s[v + 1..k], k + 1)) else None
    else None
  }

  /** `([^\s]+)` at `v`. */
  function BareAt(s: string, v: nat): (r: Option<(string, nat)>)
    requires v <= |s|
  {
    var k := Span(s, v, NotSpace);
    if v < k then Some((s[v..k], k)) else None
  }

  /** The value alternatives in the order the pattern tries them. */
  function ValueAt(g: Grammar, s: string, v: nat): (r: Option<(string, nat)>)
    requires v <= |s|
    ensures r.Some? ==> v < r.value.1 <= |s| && r.value.0 != []
  {
    var single := QuotedAt(s, v, '\'');
    if single.Some? then single
    else
      var double := QuotedAt(s, v, '"');
      if double.Some? then double
      else if g == Modern then BareAt(s, v)
      else None
  }

  /** The rest of a match once its flag is placed at `f`: `\s+` is greedy and
      no value can start with whitespace, so only the longest run can work. */
  function MatchAfterFlag(g: Grammar, s: string, p: nat, f: nat): (r: Option<HeaderMatch>)
    requires p <= f <= |s|
    ensures r.Some? ==> && r.value.start == p && r.value.flag == f
                        && f < r.value.value < r.value.end <= |s|
                        && r.value.raw != []
  {
    var n := FlagLen(g, s, f);
    if n == 0 then None
    else
      var v := Span(s, f + n, IsSpace);
      if v == f + n then None
      else match ValueAt(g, s, v)
        case None => None
        case Some(found) => Some(HeaderMatch(p, f, v, found.0, found.1))
  }

  /** The header pattern attempted at position `p`. */
  function MatchAt(g: Grammar, s: string, p: nat): (r: Option<HeaderMatch>)
    requires p <= |s|
    ensures r.Some? ==> && r.value.start == p
                        && p <= r.value.flag < r.value.value < r.value.end <= |s|
                        && r.value.raw != []
  {
    match g
    case Legacy => MatchAfterFlag(Legacy, s, p, p)
    case Modern =>
      var atStart := if p == 0 then MatchAfterFlag(Modern, s, 0, 0) else None;
      if atStart.Some? then atStart
      else if p < |s| && IsSpace(s[p]) then MatchAfterFlag(Modern, s, p, p + 1)
      else None
  }

  // ---- declarative description of a match --------------------------------

  /** A `q`-quoted value with non-empty, `q`-free content spans `s[v..e]`. */
  ghost predicate QuotedShape(s: string, v: nat, q: char, raw: string, e: nat) {
    && v + 3 <= e <= |s|
    && s[v] == q && s[e - 1] == q
    && raw == s[v + 1..e - 1]
    && q !in raw
  }

  /** Some `q`-quoted value starts at `v`. */
  ghost predicate QuotedAvailable(s: string, v: nat, q: char) {
    && v + 1 < |s| && s[v] == q && s[v + 1] != q
    && exists k :: v + 1 < k < |s| && s[k] == q
  }

  /** A maximal run of non-whitespace spans `s[v..e]`. */
  ghost predicate BareShape(s: string, v: nat, raw: string, e: nat) {
    && v < e <= |s|
    && raw == s[v..e]
    && (forall i :: 0 <= i < |raw| ==> !IsSpace(raw[i]))
    && (e == |s| || IsSpace(s[e]))
  }

  /** The value the pattern captures at `v`: single-quoted if possible, else
      double-quoted if possible, else (newer pattern only) a bare token. */
  ghost predicate ValueShape(g: Grammar, s: string, v: nat, raw: string, e: nat) {
    || QuotedShape(s, v, '\'', raw, e)
    || (!QuotedAvailable(s, v, '\'') && QuotedShape(s, v, '"', raw, e))
    || (g == Modern && !QuotedAvailable(s, v, '\'') && !QuotedAvailable(s, v, '"')
        && BareShape(s, v, raw, e))
  }

  /** Where a match attempted at `p` may place its flag. */
  ghost predicate Anchored(g: Grammar, s: string, p: nat, f: nat) {
    match g
    case Legacy => f == p
    case Modern => (p == 0 && f == 0) || (p < |s| && IsSpace(s[p]) && f == p + 1)
  }

  /** `m` is a match of the header pattern of `g` in `s`. */
  ghost predicate IsMatch(g: Grammar, s: string, m: HeaderMatch) {
    Anchored(g, s, m.start, m.flag) && MatchesFromFlag(g, s, m)
  }

  /** From its flag on, `m` is a match: the flag, then whitespace up to the
      value, then the value. */
  ghost predicate MatchesFromFlag(g: Grammar, s: string, m: HeaderMatch) {
    && m.flag <= |s|
    && FlagLen(g, s, m.flag) > 0
    && m.flag + FlagLen(g, s, m.flag) < m.value < |s|
    && AllSpace(s[m.flag + FlagLen(g, s, m.flag)..m.value])
    && !IsSpace(s[m.value])
    && ValueShape(g, s, m.value, m.raw, m.end)
  }

  lemma QuotedAtIff(s: string, v: nat, q: char, raw: string, e: nat)
    requires v <= |s| && !IsSpace(q)
    ensures QuotedAt(s, v, q).Some? <==> QuotedAvailable(s, v, q)
    ensures QuotedAt(s, v, q) == Some((raw, e)) <==> QuotedShape(s, v, q, raw, e)
  {
    if QuotedAvailable(s, v, q) {
      var k :| v + 1 < k < |s| && s[k] == q;
      assert Find(s, v + 1, q) <= k;
      assert Find(s, v + 1, q) != v + 1;
    }
    if QuotedShape(s, v, q, raw, e) {
      var k := Find(s, v + 1, q);
      assert s[e - 1] == q;
      assert k == e - 1;
    }
  }

  lemma BareAtIff(s: string, v: nat, raw: string, e: nat)
    requires v <= |s|
    ensures BareAt(s, v) == Some((raw, e)) <==> BareShape(s, v, raw, e)
  {
    if BareShape(s, v, raw, e) {
      var k := Span(s, v, NotSpace);
      assert k == e;
    }
  }

  lemma ValueAtIff(g: Grammar, s: string, v: nat, raw: string, e: nat)
    requires v <= |s|
    ensures ValueAt(g, s, v) == Some((raw, e)) <==> ValueShape(g, s, v, raw, e)
  {
    QuotedAtIff(s, v, '\'', raw, e);
    QuotedAtIff(s, v, '"', raw, e);
    BareAtIff(s, v, raw, e);
  }

  /** The spaces after a flag reach exactly the first non-space character. */
  lemma SpanOfSpaces(s: string, a: nat, v: nat)
    requires a <= v < |s| && AllSpace(s[a..v]) && !IsSpace(s[v])
    ensures Span(s, a, IsSpace) == v
  {
    var j := Span(s, a, IsSpace);
    assert j == v;
  }

  /** What the scanner returns after a flag is a match from that flag. */
  lemma MatchAfterFlagSound(g: Grammar, s: string, p: nat, f: nat)
    requires p <= f <= |s| && MatchAfterFlag(g, s, p, f).Some?
    ensures var m := MatchAfterFlag(g, s, p, f).value;
            m.start == p && m.flag == f && MatchesFromFlag(g, s, m)
  {
    var m := MatchAfterFlag(g, s, p, f).value;
    var n := FlagLen(g, s, f);
    var v := Span(s, f + n, IsSpace);
    assert v == m.value;
    assert AllSpace(s[f + n..v]);
    ValueAtIff(g, s, v, m.raw, m.end);
  }

  /** A match from the flag at `f` is what the scanner returns there. */
  lemma MatchAfterFlagComplete(g: Grammar, s: string, p: nat, f: nat, m: HeaderMatch)
    requires p <= f <= |s|
    requires m.start == p && m.flag == f && MatchesFromFlag(g, s, m)
    ensures MatchAfterFlag(g, s, p, f) == Some(m)
  {
    var n := FlagLen(g, s, f);
    SpanOfSpaces(s, f + n, m.value);
    ValueAtIff(g, s, m.value, m.raw, m.end);
    assert ValueAt(g, s, m.value) == Some((m.raw, m.end));
    assert m == HeaderMatch(p, f, m.value, m.raw, m.end);
  }

  lemma MatchAfterFlagIff(g: Grammar, s: string, p: nat, f: nat, m: HeaderMatch)
    requires p <= f <= |s|
    ensures MatchAfterFlag(g, s, p, f) == Some(m) <==>
            m.start == p && m.flag == f && MatchesFromFlag(g, s, m)
  {
    if MatchAfterFlag(g, s, p, f) == Some(m) {
      MatchAfterFlagSound(g, s, p, f);
    }
    if m.start == p && m.flag == f && MatchesFromFlag(g, s, m) {
      MatchAfterFlagComplete(g, s, p, f, m);
    }
  }

  /** Every flag begins with a dash. */
  lemma FlagStartsWithDash(g: Grammar, s: string, f: nat)
    requires FlagLen(g, s, f) > 0
    ensures f < |s| && s[f] == '-'
  {
    match g
    case Legacy =>
      assert s[f..f + 2][0] == s[f];
    case Modern =>
      if PrefixAtIgnoringCase(s, f, "-h") {
        assert Lower(s[f..f + 2])[0] == LowerChar(s[f]);
      } else {
        assert Lower(s[f..f + 8])[0] == LowerChar(s[f]);
      }
  }

  /** The scanner attempted at `p` returns exactly the match the pattern
      describes there, and nothing when the pattern does not match at `p`. */
  lemma MatchAtIff(g: Grammar, s: string, p: nat, m: HeaderMatch)
    requires p <= |s|
    ensures MatchAt(g, s, p) == Some(m) <==> m.start == p && IsMatch(g, s, m)
  {
    if g == Legacy {
      LegacyMatchAt(s, p, m);
    } else if p == 0 {
      ModernMatchAtStart(s, m);
    } else {
      ModernMatchAtInner(s, p, m);
    }
  }

  lemma LegacyMatchAt(s: string, p: nat, m: HeaderMatch)
    requires p <= |s|
    ensures MatchAt(Legacy, s, p) == Some(m) <==> m.start == p && IsMatch(Legacy, s, m)
  {
    MatchAfterFlagIff(Legacy, s, p, p, m);
  }

  lemma ModernMatchAtInner(s: string, p: nat, m: HeaderMatch)
    requires 0 < p <= |s|
    ensures MatchAt(Modern, s, p) == Some(m) <==> m.start == p && IsMatch(Modern, s, m)
  {
    if p < |s| {
      MatchAfterFlagIff(Modern, s, p, p + 1, m);
    }
  }

  lemma ModernMatchAtStart(s: string, m: HeaderMatch)
    ensures MatchAt(Modern, s, 0) == Some(m) <==> m.start == 0 && IsMatch(Modern, s, m)
  {
    MatchAfterFlagIff(Modern, s, 0, 0, m);
    if |s| > 0 && IsSpace(s[0]) {
      MatchAfterFlagIff(Modern, s, 0, 1, m);
      if FlagLen(Modern, s, 0) > 0 {
        FlagStartsWithDash(Modern, s, 0);
      }
    }
  }

  /** A match covers the position `q` when `q` lies in `[start, end)`. */
  ghost predicate Covered(ms: seq<HeaderMatch>, q: nat) {
    exists i :: 0 <= i < |ms| && ms[i].start <= q < ms[i].end
  }

  /** A successful attempt at `p` starts at `p` and consumes at least one character. */
  lemma MatchAtAdvances(g: Grammar, s: string, p: nat)
    requires p <= |s| && MatchAt(g, s, p).Some?
    ensures MatchAt(g, s, p).value.start == p
    ensures p < MatchAt(g, s, p).value.end <= |s|
  {
    var m := MatchAt(g, s, p).value;
    MatchAtIff(g, s, p, m);
  }

  // ---- findall -------------------------------------------------------------

  /** The outcome of attempting the pattern at each position `0..|s|`. */
  function Attempts(g: Grammar, s: string): (t: seq<Option<HeaderMatch>>)
    ensures |t| == |s| + 1
    ensures forall p :: 0 <= p <= |s| ==> t[p] == MatchAt(g, s, p)
  {
    seq(|s| + 1, p requires 0 <= p <= |s| => MatchAt(g, s, p))
  }

  /** Every successful attempt starts where it was made and ends further on,
      inside the text. */
  ghost predicate Advancing(t: seq<Option<HeaderMatch>>) {
    forall p :: 0 <= p < |t| && t[p].Some? ==> t[p].value.start == p && p < t[p].value.end < |t|
  }

  lemma AttemptsAdvance(g: Grammar, s: string)
    ensures Advancing(Attempts(g, s))
  {
    forall p | 0 <= p < |s| + 1 && Attempts(g, s)[p].Some?
      ensures Attempts(g, s)[p].value.start == p && p < Attempts(g, s)[p].value.end < |s| + 1
    {
      MatchAtAdvances(g, s, p);
    }
  }

  /** The scanning loop of `findall` over a table of attempts: take the match
      at `pos` and resume at its end, or move on by one position. */
  function Scan(t: seq<Option<HeaderMatch>>, pos: nat): (ms: seq<HeaderMatch>)
    requires Advancing(t) && pos <= |t|
    ensures forall i :: 0 <= i < |ms| ==> pos <= ms[i].start < ms[i].end < |t|
    ensures forall i :: 0 <= i < |ms| - 1 ==> ms[i].end <= ms[i + 1].start
    decreases |t| - pos
  {
    if pos == |t| then []
    else if t[pos].None? then Scan(t, pos + 1)
    else [t[pos].value] + Scan(t, t[pos].value.end)
  }

  /** Every match the scan returns is the attempt at its start. */
  lemma {:induction false} ScanFound(t: seq<Option<HeaderMatch>>, pos: nat, i: nat)
    requires Advancing(t) && pos <= |t| && i < |Scan(t, pos)|
    ensures t[Scan(t, pos)[i].start] == Some(Scan(t, pos)[i])
    decreases |t| - pos
  {
    if t[pos].None? {
      ScanFound(t, pos + 1, i);
    } else if i > 0 {
      ScanFound(t, t[pos].value.end, i - 1);
    }
  }

  /** The scan misses no successful attempt: each lies inside a returned match. */
  lemma {:induction false} ScanMissesNothing(t: seq<Option<HeaderMatch>>, pos: nat, q: nat)
    requires Advancing(t) && pos <= q < |t| && t[q].Some?
    ensures Covered(Scan(t, pos), q)
    decreases |t| - pos
  {
    if t[pos].None? {
      ScanMissesNothing(t, pos + 1, q);
    } else {
      var m := t[pos].value;
      if q < m.end {
        CoveredByHead(m, Scan(t, m.end), q);
      } else {
        ScanMissesNothing(t, m.end, q);
        CoveredByRest(m, Scan(t, m.end), q);
      }
    }
  }

  lemma CoveredByHead(m: HeaderMatch, rest: seq<HeaderMatch>, q: nat)
    requires m.start <= q < m.end
    ensures Covered([m] + rest, q)
  {
    assert ([m] + rest)[0] == m;
  }

  lemma CoveredByRest(m: HeaderMatch, rest: seq<HeaderMatch>, q: nat)
    requires Covered(rest, q)
    ensures Covered([m] + rest, q)
  {
    var i :| 0 <= i < |rest| && rest[i].start <= q < rest[i].end;
    assert ([m] + rest)[i + 1] == rest[i];
  }

  /** `pattern.findall(s, pos)`: the leftmost match, then the leftmost match
      from where it ended, and so on. The matches lie in the text, in order,
      without overlapping. */
  function FindAll(g: Grammar, s: string, pos: nat): (ms: seq<HeaderMatch>)
    requires pos <= |s| + 1
    ensures forall i :: 0 <= i < |ms| ==> pos <= ms[i].start < ms[i].end <= |s|
    ensures forall i :: 0 <= i < |ms| - 1 ==> ms[i].end <= ms[i + 1].start
  {
    AttemptsAdvance(g, s);
    Scan(Attempts(g, s), pos)
  }

  /** Every match `findall` returns is what the scanner finds at its start. */
  lemma FindAllFound(g: Grammar, s: string, pos: nat, i: nat)
    requires pos <= |s| + 1 && i < |FindAll(g, s, pos)|
    ensures MatchAt(g, s, FindAll(g, s, pos)[i].start) == Some(FindAll(g, s, pos)[i])
  {
    AttemptsAdvance(g, s);
    ScanFound(Attempts(g, s), pos, i);
  }

  /** `findall` misses no match: every position where the pattern matches
      lies inside one of the matches returned. */
  lemma FindAllMissesNothing(g: Grammar, s: string, pos: nat, q: nat)
    requires pos <= q <= |s|
    requires MatchAt(g, s, q).Some?
    ensures Covered(FindAll(g, s, pos), q)
  {
    AttemptsAdvance(g, s);
    ScanMissesNothing(Attempts(g, s), pos, q);
  }

  /** Every match `findall` returns is one the pattern describes. */
  lemma FindAllMatchesPattern(g: Grammar, s: string, pos: nat)
    requires pos <= |s| + 1
    ensures forall m :: m in FindAll(g, s, pos) ==> IsMatch(g, s, m)
  {
    var ms := FindAll(g, s, pos);
    forall m | m in ms ensures IsMatch(g, s, m) {
      var i :| 0 <= i < |ms| && ms[i] == m;
      FindAllFound(g, s, pos, i);
      MatchAtIff(g, s, m.start, m);
    }
  }

  /** The captured values, in order: what `findall` hands to the loop. */
  function Captures(g: Grammar, s: string): (raws: seq<string>)
    ensures |raws| == |FindAll(g, s, 0)|
    ensures forall i :: 0 <= i < |raws| ==> raws[i] == FindAll(g, s, 0)[i].raw
    ensures forall i :: 0 <= i < |raws| ==> raws[i] != []
  {
    var ms := FindAll(g, s, 0);
    assert forall i :: 0 <= i < |ms| ==> ms[i].raw != [] by {
      forall i | 0 <= i < |ms| ensures ms[i].raw != [] {
        FindAllFound(g, s, 0, i);
      }
    }
    seq(|ms|, i requires 0 <= i < |ms| => ms[i].raw)
  }

  // ---------------------------------------------------------------------
  // From captured values to the header dictionary
  // ---------------------------------------------------------------------

  /** `raw.split(":", 1)` with both sides stripped; `None` when `raw` has no
      colon. */
  function SplitHeader(raw: string): (r: Option<(string, string)>)
    ensures r.None? <==> ':' !in raw
    ensures r.Some? ==> ':' !in r.value.0
  {
    var i := Find(raw, 0, ':');
    if i == |raw| then None
    else
      StripKeepsOut(raw[..i], ':');
      Some((Strip(raw[..i]), Strip(raw[i + 1..])))
  }

  /** The name is the text before the first colon and the value the text
      after it, each with its outer whitespace trimmed (and by
      `TrimmedUnique` there is only one way to trim). */
  lemma SplitHeaderSplits(raw: string)
    ensures SplitHeader(raw).Some? ==>
              exists i :: 0 <= i < |raw| && raw[i] == ':' && ':' !in raw[..i]
                          && Trimmed(raw[..i], SplitHeader(raw).value.0)
                          && Trimmed(raw[i + 1..], SplitHeader(raw).value.1)
  {
    var i := Find(raw, 0, ':');
    if i < |raw| {
      assert ':' !in raw[..i];
    }
  }

  /** The converse of `SplitHeader`'s contract: a split at the first colon
      into the trimmed name and value is what `SplitHeader` returns. */
  lemma SplitHeaderAt(raw: string, i: nat, k: string, v: string)
    requires i < |raw| && raw[i] == ':' && ':' !in raw[..i]
    requires Trimmed(raw[..i], k) && Trimmed(raw[i + 1..], v)
    ensures SplitHeader(raw) == Some((k, v))
  {
    FindFirst(raw, i, ':');
    TrimmedUnique(raw[..i], k, Strip(raw[..i]));
    TrimmedUnique(raw[i + 1..], v, Strip(raw[i + 1..]));
  }

  /** How many of `raws` hold a colon. */
  function ColonCount(raws: seq<string>): nat {
    if raws == [] then 0
    else ColonCount(raws[..|raws| - 1]) + (if ':' in raws[|raws| - 1] then 1 else 0)
  }

  /** The name/value pairs of the colon-bearing captures, in order: one pair
      per capture that holds a colon (where each lands is `SplitAllPlaces`). */
  function SplitAll(raws: seq<string>): (ps: seq<(string, string)>)
    ensures |ps| == ColonCount(raws)
    ensures forall i :: 0 <= i < |ps| ==> ':' !in ps[i].0
  {
    if raws == [] then []
    else
      SplitAll(raws[..|raws| - 1])
      + (match SplitHeader(raws[|raws| - 1]) case None => [] case Some(kv) => [kv])
  }

  /** The `j`-th capture, when it holds a colon, contributes its split at the
      position given by the number of colon-bearing captures before it. With
      the length in `SplitAll`'s contract, this fixes every pair: captures
      keep their order and nothing else is added. */
  lemma {:induction false} SplitAllPlaces(raws: seq<string>, j: nat)
    ensures j < |raws| && ':' in raws[j] ==>
              ColonCount(raws[..j]) < |SplitAll(raws)|
              && Some(SplitAll(raws)[ColonCount(raws[..j])]) == SplitHeader(raws[j])
  {
    if j < |raws| && ':' in raws[j] {
      var init := raws[..|raws| - 1];
      if j < |init| {
        SplitAllPlaces(init, j);
        assert raws[..j] == init[..j];
        assert raws[j] == init[j];
      } else {
        assert raws[..j] == init;
      }
    }
  }

  /** Every pair `SplitAll` returns is the split of one of the captures. */
  lemma SplitAllFromCaptures(raws: seq<string>, i: nat)
    ensures i < |SplitAll(raws)| ==>
              exists j :: 0 <= j < |raws| && SplitHeader(raws[j]) == Some(SplitAll(raws)[i])
  {
    if i < |SplitAll(raws)| {
      var j := SplitAllSource(raws, i);
    }
  }

  lemma {:induction false} SplitAllSource(raws: seq<string>, i: nat) returns (j: nat)
    requires i < |SplitAll(raws)|
    ensures j < |raws| && SplitHeader(raws[j]) == Some(SplitAll(raws)[i])
  {
    var init := raws[..|raws| - 1];
    var pre := SplitAll(init);
    if i < |pre| {
      j := SplitAllSource(init, i);
      assert SplitAll(raws)[i] == pre[i];
      assert raws[j] == init[j];
    } else {
      j := |raws| - 1;
    }
  }

  /** `_ALLOWED_HEADERS` / `ALLOWED_HEADERS`. */
  const DefaultAllowed: seq<string> := ["cookie", "origin", "referer", "user-agent"]

  /** `set(h.lower() for h in (allowed_headers or _ALLOWED_HEADERS))`: an
      absent or empty override falls back to the default set. */
  function AllowSet(allowed: Option<seq<string>>): (allow: set<string>)
    ensures allowed.None? || allowed.value == [] ==>
              allow == {"cookie", "origin", "referer", "user-agent"}
    ensures allowed.Some? && allowed.value != [] ==>
              forall h :: h in allowed.value ==> Lower(h) in allow
    ensures allowed.Some? && allowed.value != [] ==>
              forall a :: a in allow ==> exists h :: h in allowed.value && Lower(h) == a
  {
    var names := if allowed.Some? && allowed.value != [] then allowed.value else DefaultAllowed;
    var allow := set h | h in names :: Lower(h);
    assert allowed.None? || allowed.value == [] ==>
      allow == {"cookie", "origin", "referer", "user-agent"} by {
      if allowed.None? || allowed.value == [] {
        assert Lower("cookie") == "cookie";
        assert Lower("origin") == "origin";
        assert Lower("referer") == "referer";
        assert Lower("user-agent") == "user-agent";
        assert forall h :: h in names ==> h in {"cookie", "origin", "referer", "user-agent"};
      }
    }
    allow
  }

  /** `include_all_headers or k.lower() in allow`, as a test on names. */
  function KeepTest(allow: set<string>, includeAll: bool): string -> bool {
    k => includeAll || Lower(k) in allow
  }

  /** What `parse_curl` returns. */
  datatype ParsedCommand = ParsedCommand(url: Option<string>, headers: seq<(string, string)>)

  /** The header dictionary both implementations build from a list of captures. */
  function HeaderDict(raws: seq<string>, keep: string -> bool): (d: seq<(string, string)>)
    ensures Distinct(Keys(d))
    ensures forall i :: 0 <= i < |d| ==> keep(d[i].0) && ':' !in d[i].0
  {
    var ps := SplitAll(raws);
    var f := Filter(ps, keep);
    var d := Build(f);
    forall i | 0 <= i < |d| ensures keep(d[i].0) && ':' !in d[i].0 {
      var k := d[i].0;
      assert Keys(d)[i] == k;
      BuildHasKeys(f, k);
      var j :| 0 <= j < |f| && Keys(f)[j] == k;
      FilterKeys(ps, keep, k);
      var l :| 0 <= l < |ps| && Keys(ps)[l] == k;
    }
    d
  }

  /** `parse_curl` of the newer module. The URL is the earliest HTTP(S) URL;
      the headers are the colon-bearing `-H`/`--header` values, kept when
      `includeAll` holds or their lower-cased name is allowed. */
  function ParseCurl(s: string, allowed: Option<seq<string>>, includeAll: bool): (r: ParsedCommand)
    ensures r.url == FindUrl(s)
    ensures Distinct(Keys(r.headers))
    ensures !includeAll ==> forall i :: 0 <= i < |r.headers| ==> Lower(r.headers[i].0) in AllowSet(allowed)
    ensures forall i :: 0 <= i < |r.headers| ==> ':' !in r.headers[i].0
  {
    QuotedUrlPatternAgrees(s);
    ParsedCommand(FindUrlQuoted(s),
                  HeaderDict(Captures(Modern, s), KeepTest(AllowSet(allowed), includeAll)))
  }

  /** `parse_curl` of the legacy module: case-sensitive `-H` with a quoted
      value only, always filtered by the default allow set, which by the
      contract of `AllowSet` is `cookie`, `origin`, `referer`, `user-agent`. */
  function ParseCurlLegacy(s: string): (r: ParsedCommand)
    ensures r.url == FindUrl(s)
    ensures Distinct(Keys(r.headers))
    ensures forall i :: 0 <= i < |r.headers| ==> Lower(r.headers[i].0) in AllowSet(None)
  {
    ParsedCommand(FindUrl(s), HeaderDict(Captures(Legacy, s), KeepTest(AllowSet(None), false)))
  }

  // ---------------------------------------------------------------------
  // Properties of the header dictionary
  // ---------------------------------------------------------------------

  /** The filtered dictionary is the include-all dictionary restricted to the
      allowed names, in the same order; in particular it is a sub-map. */
  lemma FilteredIsRestrictionOfAll(s: string, allowed: Option<seq<string>>)
    ensures ParseCurl(s, allowed, false).headers
            == Filter(ParseCurl(s, allowed, true).headers, KeepTest(AllowSet(allowed), false))
    ensures forall k :: Get(ParseCurl(s, allowed, false).headers, k).Some? ==>
              Get(ParseCurl(s, allowed, true).headers, k) == Get(ParseCurl(s, allowed, false).headers, k)
  {
    var ps := SplitAll(Captures(Modern, s));
    var allow := AllowSet(allowed);
    FilterKeepsAll(ps, KeepTest(allow, true));
    BuildFilter(ps, KeepTest(allow, false));
    forall k | Get(ParseCurl(s, allowed, false).headers, k).Some?
      ensures Get(ParseCurl(s, allowed, true).headers, k) == Get(ParseCurl(s, allowed, false).headers, k)
    {
      GetFilter(Build(ps), KeepTest(allow, false), k);
    }
  }

  /** A name is in the dictionary exactly when some colon-bearing capture
      carries it and the keep test accepts it. */
  lemma HeaderDictHasName(raws: seq<string>, keep: string -> bool, k: string)
    ensures Get(HeaderDict(raws, keep), k).Some? <==> keep(k) && k in Keys(SplitAll(raws))
  {
    var ps := SplitAll(raws);
    BuildFilter(ps, keep);
    GetFilter(Build(ps), keep, k);
    GetAbsent(Build(ps), k);
    BuildHasKeys(ps, k);
  }

  /** When several kept pairs share a name (compared case-sensitively), the
      dictionary holds the value of the last one. */
  lemma HeaderDictLastValueWins(raws: seq<string>, keep: string -> bool, i: nat)
    ensures var ps := SplitAll(raws);
            && i < |ps| && keep(ps[i].0) && (forall j :: i < j < |ps| ==> ps[j].0 != ps[i].0)
            ==> Get(HeaderDict(raws, keep), ps[i].0) == Some(ps[i].1)
  {
    var ps := SplitAll(raws);
    if i < |ps| && keep(ps[i].0) && forall j :: i < j < |ps| ==> ps[j].0 != ps[i].0 {
      BuildLastValueWins(ps, i, ps[i].0);
      BuildFilter(ps, keep);
      GetFilter(Build(ps), keep, ps[i].0);
    }
  }

  /** Names keep the position of their first kept occurrence. */
  lemma HeaderDictOrder(raws: seq<string>, keep: string -> bool)
    ensures Keys(HeaderDict(raws, keep)) == Dedup(Keys(Filter(SplitAll(raws), keep)))
  {
    BuildKeysInFirstSeenOrder(Filter(SplitAll(raws), keep));
  }

  /** A header of the command is kept exactly when its name passes the allow
      test (or every header is included). */
  lemma HeaderKept(s: string, allowed: Option<seq<string>>, includeAll: bool, k: string)
    ensures Get(ParseCurl(s, allowed, includeAll).headers, k).Some?
            <==> (includeAll || Lower(k) in AllowSet(allowed)) && k in Keys(SplitAll(Captures(Modern, s)))
  {
    HeaderDictHasName(Captures(Modern, s), KeepTest(AllowSet(allowed), includeAll), k);
  }

  /** When several kept headers share a name (compared case-sensitively), the
      dictionary holds the value of the last one. */
  lemma LastHeaderWins(s: string, allowed: Option<seq<string>>, includeAll: bool, i: nat)
    ensures var ps := SplitAll(Captures(Modern, s));
            && i < |ps| && KeepTest(AllowSet(allowed), includeAll)(ps[i].0)
            && (forall j :: i < j < |ps| ==> ps[j].0 != ps[i].0)
            ==> Get(ParseCurl(s, allowed, includeAll).headers, ps[i].0) == Some(ps[i].1)
  {
    HeaderDictLastValueWins(Captures(Modern, s), KeepTest(AllowSet(allowed), includeAll), i);
  }

  /** Names keep the position of their first kept occurrence. */
  lemma HeaderOrderIsFirstSeen(s: string, allowed: Option<seq<string>>, includeAll: bool)
    ensures Keys(ParseCurl(s, allowed, includeAll).headers)
            == Dedup(Keys(Filter(SplitAll(Captures(Modern, s)), KeepTest(AllowSet(allowed), includeAll))))
  {
    HeaderDictOrder(Captures(Modern, s), KeepTest(AllowSet(allowed), includeAll));
  }

  /** Names that differ only in case are separate entries: each one that a
      header carries and the allow test accepts is in the dictionary. */
  lemma CaseVariantsAreDistinct(s: string, allowed: Option<seq<string>>, includeAll: bool, a: string, b: string)
    ensures var ks := Keys(SplitAll(Captures(Modern, s)));
            && a != b && Lower(a) == Lower(b) && a in ks && b in ks
            && (includeAll || Lower(a) in AllowSet(allowed))
            ==> var d := ParseCurl(s, allowed, includeAll).headers;
                Get(d, a).Some? && Get(d, b).Some?
  {
    HeaderKept(s, allowed, includeAll, a);
    HeaderKept(s, allowed, includeAll, b);
  }

  /** A legacy header is kept exactly when its lower-cased name is one of the
      four default names. */
  lemma LegacyHeaderKept(s: string, k: string)
    ensures Get(ParseCurlLegacy(s).headers, k).Some?
            <==> Lower(k) in AllowSet(None) && k in Keys(SplitAll(Captures(Legacy, s)))
  {
    HeaderDictHasName(Captures(Legacy, s), KeepTest(AllowSet(None), false), k);
  }

  /** The legacy loop also lets the last value of a repeated name win. */
  lemma LegacyLastHeaderWins(s: string, i: nat)
    ensures var ps := SplitAll(Captures(Legacy, s));
            && i < |ps| && Lower(ps[i].0) in AllowSet(None)
            && (forall j :: i < j < |ps| ==> ps[j].0 != ps[i].0)
            ==> Get(ParseCurlLegacy(s).headers, ps[i].0) == Some(ps[i].1)
  {
    HeaderDictLastValueWins(Captures(Legacy, s), KeepTest(AllowSet(None), false), i);
  }

  /** Legacy names keep the position of their first kept occurrence. */
  lemma LegacyHeaderOrderIsFirstSeen(s: string)
    ensures Keys(ParseCurlLegacy(s).headers)
            == Dedup(Keys(Filter(SplitAll(Captures(Legacy, s)), KeepTest(AllowSet(None), false))))
  {
    HeaderDictOrder(Captures(Legacy, s), KeepTest(AllowSet(None), false));
  }

  /** A capture `name: value` splits into the name and the value when the
      name holds no colon and neither has outer whitespace. */
  lemma SplitHeaderOfPair(raw: string, k: string, v: string)
    requires raw == k + ": " + v && ':' !in k
    requires k == [] || (!IsSpace(k[0]) && !IsSpace(k[|k| - 1]))
    requires v == [] || (!IsSpace(v[0]) && !IsSpace(v[|v| - 1]))
    ensures SplitHeader(raw) == Some((k, v))
  {
    PairTrimmed(raw, k, v);
    SplitHeaderAt(raw, |k|, k, v);
  }

  lemma PairTrimmed(raw: string, k: string, v: string)
    requires raw == k + ": " + v && ':' !in k
    requires k == [] || (!IsSpace(k[0]) && !IsSpace(k[|k| - 1]))
    requires v == [] || (!IsSpace(v[0]) && !IsSpace(v[|v| - 1]))
    ensures |k| < |raw| && raw[|k|] == ':' && ':' !in raw[..|k|]
    ensures Trimmed(raw[..|k|], k) && Trimmed(raw[|k| + 1..], v)
  {
    assert raw[..|k|] == [] + k;
    assert raw[|k| + 1..] == " " + v;
    TrimmedPadded([], k);
    TrimmedPadded(" ", v);
  }

  /** Captures that all split, split pair by pair. */
  lemma {:induction false} SplitAllOfSplits(raws: seq<string>, ps: seq<(string, string)>)
    requires |raws| == |ps|
    requires forall i :: 0 <= i < |raws| ==> SplitHeader(raws[i]) == Some(ps[i])
    ensures SplitAll(raws) == ps
  {
    if raws != [] {
      var n := |raws| - 1;
      SplitAllOfSplits(raws[..n], ps[..n]);
      LastSplit(ps);
    }
  }

  lemma LastSplit<T>(s: seq<T>)
    requires s != []
    ensures s == s[..|s| - 1] + [s[|s| - 1]]
  {
  }

  /** The URL found is the first URL start, taken to the first character
      after it that a URL may not contain. */
  lemma FindUrlAt(s: string, q: nat, e: nat)
    requires UrlStartsAt(s, q)
    requires forall q' :: 0 <= q' < q ==> !UrlStartsAt(s, q')
    requires q + SchemeLen(s, q) < e <= |s|
    requires forall k :: q + SchemeLen(s, q) <= k < e ==> UrlChar(s[k])
    requires e == |s| || !UrlChar(s[e])
    ensures FindUrl(s) == Some(s[q..e])
  {
    var e' := UrlEnd(s, q);
    UrlCharInRun(s, q + SchemeLen(s, q), e, e');
    UrlCharInRun(s, q + SchemeLen(s, q), e', e);
    assert e' == e;
  }

  lemma UrlCharInRun(s: string, a: nat, e: nat, k: nat)
    ensures e <= |s| && a <= k < e && (forall k' :: a <= k' < e ==> UrlChar(s[k'])) ==> UrlChar(s[k])
  {
  }

  /** A secure URL `u` after a prefix without `h`, followed by a character
      `c` a URL may not contain, is the URL found. */
  lemma FindUrlAfter(pre: string, u: string, c: char, tail: string)
    requires 'h' !in pre
    requires PrefixAt(u, 0, "https://") && |u| > 8
    requires forall k :: 0 <= k < |u| ==> UrlChar(u[k])
    requires !UrlChar(c)
    ensures FindUrl(pre + u + [c] + tail) == Some(u)
  {
    var rest := [c] + tail;
    var s := pre + u + rest;
    assert pre + u + [c] + tail == s;
    var q := |pre|;
    assert s[q..q + |u|] == u;
    assert s[q..q + 8] == u[..8];
    assert forall k :: q <= k < q + |u| ==> s[k] == u[k - q];
    assert s[q + |u|] == rest[0] == c;
    forall q' | 0 <= q' < q ensures !UrlStartsAt(s, q') {
      UrlStartsWithH(s, q');
      assert s[q'] == pre[q'];
    }
    FindUrlAt(s, q, q + |u|);
  }

  /** Both parsers find `https://example.com/video.mp4` in the command
      `curl 'https://example.com/video.mp4' -H 'Authorization: Bearer TOKEN'
      -H 'User-Agent: Kodi/19' -H 'Other: value'`. */
  lemma ExampleUrl(s: string)
    requires s == "curl '" + "https://example.com/video.mp4" + "'"
                  + " -H 'Authorization: Bearer TOKEN' -H 'User-Agent: Kodi/19' -H 'Other: value'"
    ensures ParseCurlLegacy(s).url == Some("https://example.com/video.mp4")
    ensures forall allowed, includeAll :: ParseCurl(s, allowed, includeAll).url == Some("https://example.com/video.mp4")
  {
    var pre := "curl '";
    var u := "https://example.com/video.mp4";
    var tail := " -H 'Authorization: Bearer TOKEN' -H 'User-Agent: Kodi/19' -H 'Other: value'";
    assert s == pre + u + ['\''] + tail;
    assert u[..8] == "https://";
    FindUrlAfter(pre, u, '\'', tail);
  }

  /** The captures of the command `curl 'https://example.com/video.mp4'
      -H 'Authorization: Bearer TOKEN' -H 'User-Agent: Kodi/19'
      -H 'Other: value'`: only `User-Agent` passes the legacy allow set. */
  lemma LegacyExampleHeaders()
    ensures HeaderDict(["Authorization: Bearer TOKEN", "User-Agent: Kodi/19", "Other: value"],
                       KeepTest(AllowSet(None), false))
            == [("User-Agent", "Kodi/19")]
  {
    var raws := ["Authorization: Bearer TOKEN", "User-Agent: Kodi/19", "Other: value"];
    var ps := [("Authorization", "Bearer TOKEN"), ("User-Agent", "Kodi/19"), ("Other", "value")];
    ExampleCaptureSplits(raws, ps);
    SplitAllOfSplits(raws, ps);
    ExampleFilter(ps);
  }

  lemma ExampleCaptureSplits(raws: seq<string>, ps: seq<(string, string)>)
    requires raws == ["Authorization: Bearer TOKEN", "User-Agent: Kodi/19", "Other: value"]
    requires ps == [("Authorization", "Bearer TOKEN"), ("User-Agent", "Kodi/19"), ("Other", "value")]
    ensures forall i :: 0 <= i < |raws| ==> SplitHeader(raws[i]) == Some(ps[i])
  {
    forall i | 0 <= i < |raws| ensures SplitHeader(raws[i]) == Some(ps[i]) {
      if i == 0 {
        ExampleCaptureSplits0(raws[0], ps[0]);
      } else if i == 1 {
        ExampleCaptureSplits1(raws[1], ps[1]);
      } else {
        ExampleCaptureSplits2(raws[2], ps[2]);
      }
    }
  }

  lemma ExampleCaptureSplits0(raw: string, p: (string, string))
    requires raw == "Authorization: Bearer TOKEN" && p == ("Authorization", "Bearer TOKEN")
    ensures SplitHeader(raw) == Some(p)
  {
    assert raw == p.0 + ": " + p.1;
    SplitHeaderOfPair(raw, p.0, p.1);
  }

  lemma ExampleCaptureSplits1(raw: string, p: (string, string))
    requires raw == "User-Agent: Kodi/19" && p == ("User-Agent", "Kodi/19")
    ensures SplitHeader(raw) == Some(p)
  {
    assert raw == p.0 + ": " + p.1;
    SplitHeaderOfPair(raw, p.0, p.1);
  }

  lemma ExampleCaptureSplits2(raw: string, p: (string, string))
    requires raw == "Other: value" && p == ("Other", "value")
    ensures SplitHeader(raw) == Some(p)
  {
    assert raw == p.0 + ": " + p.1;
    SplitHeaderOfPair(raw, p.0, p.1);
  }

  lemma ExampleFilter(ps: seq<(string, string)>)
    requires ps == [("Authorization", "Bearer TOKEN"), ("User-Agent", "Kodi/19"), ("Other", "value")]
    ensures Build(Filter(ps, KeepTest(AllowSet(None), false))) == [("User-Agent", "Kodi/19")]
  {
    var keep := KeepTest(AllowSet(None), false);
    AuthorizationIsDropped();
    assert !keep("Other") by {
      assert Lower("Other") == "other";
    }
    assert Filter(ps[..1], keep) == [] by {
      assert ps[..1][..0] == [];
    }
    assert ps[..2][..1] == ps[..1];
    assert Filter(ps[..2], keep) == [ps[1]];
    assert ps[..2] == ps[..|ps| - 1];
    assert Filter(ps, keep) == [ps[1]];
    assert [ps[1]][..0] == [];
  }

  /** Every legacy header comes from a case-sensitive `-H` followed by a
      quoted value: `--header`, `-h` and bare values are never captured. */
  lemma LegacyCapturesAreQuoted(s: string)
    ensures forall m :: m in FindAll(Legacy, s, 0) ==>
              m.value + 3 <= m.end <= |s| && PrefixAt(s, m.start, "-H") && IsQuote(s[m.value])
              && s[m.end - 1] == s[m.value] && m.raw == s[m.value + 1..m.end - 1]
  {
    FindAllMatchesPattern(Legacy, s, 0);
    forall m | m in FindAll(Legacy, s, 0)
      ensures m.value + 3 <= m.end <= |s| && PrefixAt(s, m.start, "-H") && IsQuote(s[m.value])
              && s[m.end - 1] == s[m.value] && m.raw == s[m.value + 1..m.end - 1]
    {
      assert IsMatch(Legacy, s, m);
      assert m.flag == m.start;
      assert ValueShape(Legacy, s, m.value, m.raw, m.end);
      if QuotedShape(s, m.value, '\'', m.raw, m.end) {
      } else {
        assert QuotedShape(s, m.value, '"', m.raw, m.end);
      }
    }
  }

  /** Without an override, an `Authorization` header is not kept. */
  lemma AuthorizationIsDropped()
    ensures !KeepTest(AllowSet(None), false)("Authorization")
    ensures KeepTest(AllowSet(None), false)("User-Agent")
  {
    assert Lower("Authorization") == "authorization";
    assert Lower("User-Agent") == "user-agent";
  }
}
