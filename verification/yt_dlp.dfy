/** The yt-dlp invocation: the argument vector of the newer module and the
    single command string of the legacy one. */
module YtDlp {
  import opened Wrappers
  import opened Text
  import opened Filenames
  import opened CurlParser

  const Program: string := "yt-dlp"
  const AddHeader: string := "--add-header"
  const OutputFlag: string := "-o"
  const ExtTemplate: string := ".%(ext)s"

  /** `f"{k}: {v}"`. */
  function HeaderArg(h: (string, string)): string {
    h.0 + ": " + h.1
  }

  /** The `--add-header` pair of every header, in dictionary order. */
  function HeaderArgs(hs: seq<(string, string)>): (r: seq<string>)
    ensures |r| == 2 * |hs|
  {
    if hs == [] then [] else [AddHeader, HeaderArg(hs[0])] + HeaderArgs(hs[1..])
  }

  /** The pair of the `i`-th header sits at positions `2i` and `2i + 1`. */
  lemma {:induction false} HeaderArgsAt(hs: seq<(string, string)>, i: nat)
    requires i < |hs|
    ensures HeaderArgs(hs)[2 * i] == AddHeader
    ensures HeaderArgs(hs)[2 * i + 1] == HeaderArg(hs[i])
    decreases i
  {
    if i > 0 {
      var t := HeaderArgs(hs[1..]);
      assert HeaderArgs(hs) == [AddHeader, HeaderArg(hs[0])] + t;
      HeaderArgsAt(hs[1..], i - 1);
      assert HeaderArgs(hs)[2 * i] == t[2 * (i - 1)];
      assert HeaderArgs(hs)[2 * i + 1] == t[2 * (i - 1) + 1];
    }
  }

  lemma HeaderArgsEvery(hs: seq<(string, string)>)
    ensures forall i :: 0 <= i < |hs| ==> HeaderArgs(hs)[2 * i] == AddHeader && HeaderArgs(hs)[2 * i + 1] == HeaderArg(hs[i])
  {
    forall i | 0 <= i < |hs|
      ensures HeaderArgs(hs)[2 * i] == AddHeader && HeaderArgs(hs)[2 * i + 1] == HeaderArg(hs[i])
    {
      HeaderArgsAt(hs, i);
    }
  }

  /** `-o name.%(ext)s`, present only for a non-empty name (`if output_name:`).
      The ensures only spell out the cases; `YtDlpArgs` states where they land. */
  function OutputArgs(outputName: Option<string>): (r: seq<string>)
    ensures outputName.Some? && outputName.value != [] ==>
              r == [OutputFlag, outputName.value + ExtTemplate]
    ensures outputName.None? || outputName.value == [] ==> r == []
  {
    if outputName.Some? && outputName.value != [] then [OutputFlag, outputName.value + ExtTemplate] else []
  }

  /** Two adjacent entries of `b` keep their order after the program name. */
  lemma PairAfterProgram(b: seq<string>, url: string, out: seq<string>, j: nat, x: string, y: string)
    requires j + 1 < |b| && b[j] == x && b[j + 1] == y
    ensures ([Program] + b + [url] + out)[1 + j] == x
    ensures ([Program] + b + [url] + out)[2 + j] == y
  {
  }

  /** Header pairs laid out at even and odd positions of `h` keep their
      places, shifted by one, after the program name. */
  lemma PairsAfterProgram(h: seq<string>, url: string, headers: seq<(string, string)>, out: seq<string>)
    requires |h| == 2 * |headers|
    requires forall i :: 0 <= i < |headers| ==> h[2 * i] == AddHeader && h[2 * i + 1] == HeaderArg(headers[i])
    ensures forall i :: 0 <= i < |headers| ==>
              ([Program] + h + [url] + out)[1 + 2 * i] == AddHeader
              && ([Program] + h + [url] + out)[2 + 2 * i] == HeaderArg(headers[i])
  {
    forall i | 0 <= i < |headers|
      ensures ([Program] + h + [url] + out)[1 + 2 * i] == AddHeader
      ensures ([Program] + h + [url] + out)[2 + 2 * i] == HeaderArg(headers[i])
    {
      PairAfterProgram(h, url, out, 2 * i, AddHeader, HeaderArg(headers[i]));
    }
  }

  /** `construct_yt_dlp_args`: the program, one `--add-header "k: v"` pair
      per header in order, the URL, then the output template when a
      non-empty name is given. The name is used as given. */
  function YtDlpArgs(url: string, headers: seq<(string, string)>, outputName: Option<string>): (r: seq<string>)
    ensures |r| == 2 + 2 * |headers| + (if outputName.Some? && outputName.value != [] then 2 else 0)
    ensures r[0] == Program
    ensures forall i :: 0 <= i < |headers| ==> r[1 + 2 * i] == AddHeader && r[2 + 2 * i] == HeaderArg(headers[i])
    ensures r[1 + 2 * |headers|] == url
    ensures outputName.Some? && outputName.value != [] ==>
              r[2 + 2 * |headers|] == OutputFlag && r[3 + 2 * |headers|] == outputName.value + ExtTemplate
  {
    HeaderArgsEvery(headers);
    PairsAfterProgram(HeaderArgs(headers), url, headers, OutputArgs(outputName));
    [Program] + HeaderArgs(headers) + [url] + OutputArgs(outputName)
  }

  // ---------------------------------------------------------------------
  // Reading the headers back from an argument vector
  // ---------------------------------------------------------------------

  /** yt-dlp's reading of `FIELD: VALUE`: the field ends at the first colon. */
  function SplitHeaderArg(a: string): (string, string) {
    var i := Find(a, 0, ':');
    (a[..i], if i + 2 <= |a| then a[i + 2..] else [])
  }

  /** The headers of the leading `--add-header` pairs of `args`. */
  function ReadHeaderArgs(args: seq<string>): seq<(string, string)> {
    if |args| >= 2 && args[0] == AddHeader then [SplitHeaderArg(args[1])] + ReadHeaderArgs(args[2..])
    else []
  }

  lemma SplitHeaderArgInverse(h: (string, string))
    requires ':' !in h.0
    ensures SplitHeaderArg(HeaderArg(h)) == h
  {
    var a := HeaderArg(h);
    assert a == h.0 + ": " + h.1;
    assert a[|h.0|] == ':';
    assert forall k :: 0 <= k < |h.0| ==> a[k] == h.0[k];
    assert Find(a, 0, ':') == |h.0|;
    assert a[..|h.0|] == h.0;
    assert a[|h.0| + 2..] == h.1;
  }

  /** Reading a leading `--add-header` pair. */
  lemma ReadHeaderArgsPair(h: (string, string), rest: seq<string>)
    ensures ReadHeaderArgs([AddHeader, HeaderArg(h)] + rest) == [SplitHeaderArg(HeaderArg(h))] + ReadHeaderArgs(rest)
  {
    assert ([AddHeader, HeaderArg(h)] + rest)[2..] == rest;
  }

  lemma PairAppend(x: string, y: string, rest: seq<string>, tail: seq<string>)
    ensures [x, y] + rest + tail == [x, y] + (rest + tail)
  {
  }

  lemma {:induction false} ReadHeaderArgsOf(hs: seq<(string, string)>, tail: seq<string>)
    requires forall i :: 0 <= i < |hs| ==> ':' !in hs[i].0
    requires tail != [] && tail[0] != AddHeader
    ensures ReadHeaderArgs(HeaderArgs(hs) + tail) == hs
    decreases |hs|
  {
    if hs == [] {
      assert HeaderArgs(hs) + tail == tail;
    } else {
      var h, more := hs[0], hs[1..];
      PairAppend(AddHeader, HeaderArg(h), HeaderArgs(more), tail);
      ReadHeaderArgsPair(h, HeaderArgs(more) + tail);
      SplitHeaderArgInverse(h);
      ReadHeaderArgsOf(more, tail);
      assert hs == [h] + more;
    }
  }

  /** The argument vector hands yt-dlp every header unchanged and in order,
      provided no header name holds a colon (which `parse_curl` guarantees)
      and the URL is not the `--add-header` flag itself. */
  lemma YtDlpArgsCarryHeaders(url: string, headers: seq<(string, string)>, outputName: Option<string>)
    requires forall i :: 0 <= i < |headers| ==> ':' !in headers[i].0
    requires url != AddHeader
    ensures ReadHeaderArgs(YtDlpArgs(url, headers, outputName)[1..]) == headers
  {
    var r := YtDlpArgs(url, headers, outputName);
    assert r[1..] == HeaderArgs(headers) + ([url] + OutputArgs(outputName));
    ReadHeaderArgsOf(headers, [url] + OutputArgs(outputName));
  }

  /** A found URL opens with `h`, so it is never the `--add-header` flag. */
  lemma FoundUrlIsNotAFlag(s: string)
    ensures FindUrl(s).Some? ==> FindUrl(s).value != AddHeader
  {
    FoundUrlShape(s);
    assert AddHeader[0] == '-';
  }

  /** The headers of a parsed command reach yt-dlp unchanged. */
  lemma ParsedHeadersReachYtDlp(s: string, allowed: Option<seq<string>>, includeAll: bool,
                                outputName: Option<string>)
    ensures var p := ParseCurl(s, allowed, includeAll);
            p.url.Some? ==>
              ReadHeaderArgs(YtDlpArgs(p.url.value, p.headers, outputName)[1..]) == p.headers
  {
    var p := ParseCurl(s, allowed, includeAll);
    if p.url.Some? {
      FoundUrlIsNotAFlag(s);
      YtDlpArgsCarryHeaders(p.url.value, p.headers, outputName);
    }
  }

  // ---------------------------------------------------------------------
  // The legacy command string
  // ---------------------------------------------------------------------

  /** The argument list of the legacy `construct_yt_dlp_command`: the same
      as the newer one except that the output name is sanitised first. */
  function LegacyArgs(url: string, headers: seq<(string, string)>, outputName: Option<string>): (r: seq<string>)
    ensures outputName.Some? ==> r == YtDlpArgs(url, headers, Some(LegacySanitize(outputName.value)))
    ensures outputName.None? ==> r == YtDlpArgs(url, headers, None)
  {
    var safe := if outputName.Some? && outputName.value != [] then Some(LegacySanitize(outputName.value)) else None;
    [Program] + HeaderArgs(headers) + [url] + OutputArgs(safe)
  }

  /** `f'"{part}"' if ' ' in part else part`: only the space character
      triggers quoting, and embedded quotes are not escaped, so a part reads
      back as itself exactly when it is plain. */
  function NaiveQuote(part: string): (r: string)
    ensures PlainPart(part) ==> NaiveTokenize(r) == [part]
  {
    var q := if ' ' in part then "\"" + part + "\"" else part;
    assert PlainPart(part) ==> NaiveTokenize(q) == [part] by {
      if PlainPart(part) {
        NaiveTokenizeFront(part, q, []);
      }
    }
    q
  }

  function NaiveQuoteAll(parts: seq<string>): (r: seq<string>)
    ensures |r| == |parts|
    ensures forall i :: 0 <= i < |parts| ==> r[i] == NaiveQuote(parts[i])
  {
    seq(|parts|, i requires 0 <= i < |parts| => NaiveQuote(parts[i]))
  }

  /** `' '.join(...)` of the quoted parts: the line is read back part for
      part when every part is plain. */
  function NaiveJoin(parts: seq<string>): (r: string)
    ensures (forall i :: 0 <= i < |parts| ==> PlainPart(parts[i])) ==>
              NaiveTokenize(r) == parts
  {
    var line := Join(NaiveQuoteAll(parts), " ");
    assert (forall i :: 0 <= i < |parts| ==> PlainPart(parts[i])) ==>
             NaiveTokenize(line) == parts by {
      if forall i :: 0 <= i < |parts| ==> PlainPart(parts[i]) {
        NaivePartsReadBack(parts);
      }
    }
    line
  }

  /** The legacy `construct_yt_dlp_command`: the command string reads back
      as the legacy argument list when the URL and the headers carry no
      double quote. */
  function LegacyYtDlpCommand(url: string, headers: seq<(string, string)>, outputName: Option<string>): (r: string)
    ensures PlainPart(url) &&
            (forall i :: 0 <= i < |headers| ==> '"' !in headers[i].0 && '"' !in headers[i].1) ==>
              NaiveTokenize(r) == LegacyArgs(url, headers, outputName)
  {
    var args := LegacyArgs(url, headers, outputName);
    assert PlainPart(url) &&
           (forall i :: 0 <= i < |headers| ==> '"' !in headers[i].0 && '"' !in headers[i].1) ==>
             forall i :: 0 <= i < |args| ==> PlainPart(args[i]) by {
      if PlainPart(url) && (forall i :: 0 <= i < |headers| ==> '"' !in headers[i].0 && '"' !in headers[i].1) {
        forall i | 0 <= i < |args| ensures PlainPart(args[i]) {
          LegacyArgPlain(url, headers, outputName, i);
        }
      }
    }
    NaiveJoin(args)
  }

  /** A reading of such a command line: words separated by single spaces,
      a word that opens with `"` running to the next `"`. */
  function NaiveTokenize(s: string): seq<string>
    decreases |s|
  {
    if s == [] then []
    else if s[0] == '"' then
      var j := Find(s, 1, '"');
      [s[1..j]] + (if j + 1 < |s| then NaiveTokenize(s[j + 2..]) else [])
    else
      var j := Find(s, 0, ' ');
      [s[..j]] + (if j < |s| then NaiveTokenize(s[j + 1..]) else [])
  }

  /** What a part must be for the naive join to be read back: non-empty and
      free of double quotes. */
  predicate PlainPart(p: string) {
    p != [] && '"' !in p
  }

  /** Reading one quoted-or-bare word `q`, the quoting of `p`, at the
      front of a line. */
  lemma NaiveTokenizeFront(p: string, q: string, rest: string)
    requires PlainPart(p)
    requires q == if ' ' in p then "\"" + p + "\"" else p
    ensures rest != [] ==> NaiveTokenize(q + " " + rest) == [p] + NaiveTokenize(rest)
    ensures NaiveTokenize(q) == [p]
  {
    if ' ' in p {
      assert q == "\"" + p + "\"";
      assert forall k :: 1 <= k < |p| + 1 ==> q[k] == p[k - 1];
      assert forall k :: 1 <= k < |p| + 1 ==> q[k] != '"';
      assert q[|p| + 1] == '"';
      assert Find(q, 1, '"') == |p| + 1;
      assert q[1..|p| + 1] == p;
      var s := q + " " + rest;
      assert forall k :: 0 <= k < |q| ==> s[k] == q[k];
      assert Find(s, 1, '"') == |p| + 1;
      assert s[1..|p| + 1] == p;
      assert s[|p| + 3..] == rest;
    } else {
      assert q == p && p[0] != '"';
      assert Find(q, 0, ' ') == |p|;
      assert q[..|p|] == p;
      var s := q + " " + rest;
      assert forall k :: 0 <= k < |q| ==> s[k] == q[k];
      assert s[|p|] == ' ';
      assert Find(s, 0, ' ') == |p|;
      assert s[..|p|] == p;
      assert s[|p| + 1..] == rest;
    }
  }

  /** The quoted parts, joined with single spaces, are read back part for
      part when every part is plain. */
  lemma {:induction false} NaivePartsReadBack(parts: seq<string>)
    requires forall i :: 0 <= i < |parts| ==> PlainPart(parts[i])
    ensures NaiveTokenize(Join(NaiveQuoteAll(parts), " ")) == parts
    decreases |parts|
  {
    var qs := NaiveQuoteAll(parts);
    if |parts| == 1 {
      NaiveTokenizeFront(parts[0], qs[0], []);
    } else if |parts| > 1 {
      var rest := Join(qs[1..], " ");
      assert qs[1..] == NaiveQuoteAll(parts[1..]);
      assert Join(qs, " ") == qs[0] + " " + rest;
      NaivePartsReadBack(parts[1..]);
      assert rest != [] by {
        assert NaiveTokenize(rest) != [];
      }
      NaiveTokenizeFront(parts[0], qs[0], rest);
      assert parts == [parts[0]] + parts[1..];
    }
  }

  /** The naive join is not injective: a part with a space and two parts
      carrying quotes of their own give the same line. */
  lemma NaiveJoinNotInjective()
    ensures NaiveJoin(["a b"]) == NaiveJoin(["\"a", "b\""])
  {
    assert ' ' in "a b";
    assert ' ' !in "\"a" && ' ' !in "b\"";
  }

  /** Every entry of the legacy argument list is plain when the URL and
      the headers carry no double quote; the output name needs no such
      condition, since sanitising replaces its double quotes. */
  lemma LegacyArgPlain(url: string, headers: seq<(string, string)>, outputName: Option<string>, i: nat)
    requires PlainPart(url)
    requires forall i :: 0 <= i < |headers| ==> '"' !in headers[i].0 && '"' !in headers[i].1
    requires i < |LegacyArgs(url, headers, outputName)|
    ensures PlainPart(LegacyArgs(url, headers, outputName)[i])
  {
    var r := LegacyArgs(url, headers, outputName);
    var n := |headers|;
    if 1 <= i < 1 + 2 * n {
      var j := (i - 1) / 2;
      if i == 1 + 2 * j {
        assert r[i] == AddHeader;
      } else {
        assert r[i] == HeaderArg(headers[j]);
        assert r[i] == headers[j].0 + ": " + headers[j].1;
      }
    } else if i >= 2 + 2 * n {
      var name := LegacySanitize(outputName.value);
      assert r[i] == OutputFlag || r[i] == name + ExtTemplate;
      assert '"' !in name by {
        forall k | 0 <= k < |name| ensures name[k] != '"' {
          assert !IsLegacyForbidden(name[k]);
        }
      }
    }
  }
}
