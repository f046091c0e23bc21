# curl_to_kodi in Dafny

curl_to_kodi turns a browser's "copy as cURL" command into things a media
player can use. It finds the stream URL and the request headers in the curl
command and keeps only the headers a server usually checks (`cookie`,
`origin`, `referer`, `user-agent`) unless told otherwise. From these it writes:

- the one-line `.strm` file Kodi plays, `url|k=v&k2=v2` with every value percent-encoded;
- the `yt-dlp` invocation that downloads the same stream;
- that invocation as one line of a batch or PowerShell script.

There are two versions of the code. One is the newer package module
`src/curl_to_kodi/cli.py`. The other is the older single-file module
`src/curl_to_kodi.py`, called "legacy" below. This project models the pure
core of both.

| file | module | what it models |
|---|---|---|
| `wrappers.dfy` | `Wrappers` | `Option` and `Result` |
| `text.dfy` | `Text` | Python whitespace (`str.isspace`, which is also the `\s` of `re`), `strip`, ASCII `lower`, `rfind`, `join`, `split` |
| `header_maps.dfy` | `HeaderMaps` | a Python `dict` with string keys, as an insertion-ordered association list: `d[k] = v`, `d.get(k)`, building a dict in a loop, restricting it to some keys |
| `curl_parser.dfy` | `CurlParser` | both URL regexes and both header regexes, written out as scanners with Python's leftmost, backtracking, `findall` semantics and related to declarative descriptions of a match; both `parse_curl` functions |
| `percent_encoding.dfy` | `PercentEncoding` | `urllib.parse.quote` with its defaults: safe set `/`, UTF-8, upper-case hex. The decoding side, UTF-8 decoding and `unquote_to_bytes`, is its partner. |
| `kodi_strm.dfy` | `KodiStrm` | `kodi_strm_content`, and the way Kodi reads such a line back |
| `filenames.dfy` | `Filenames` | both `sanitize_filename` functions, including POSIX `os.path.splitext` |
| `yt_dlp.dfy` | `YtDlp` | `construct_yt_dlp_args`, and the legacy `construct_yt_dlp_command` with its naive space-joining |
| `script_joiners.dfy` | `ScriptJoiners` | `_bat_join` and `_ps1_join`, and a reader of the lines they produce |

Some definitions are readers that are not in the source: `ParseStrm`,
`ReadHeaderArgs`, `NaiveTokenize`, `Tokenize`, `Utf8Decode` and
`UnquoteToBytes`. They are the independent partner definitions that the
round-trip lemmas are stated against. `Utf8Decode` and `UnquoteToBytes`
follow the UTF-8 and percent-encoding definitions exactly. The other four
are simplified readers of Kodi, yt-dlp and the shells. In particular,
`Tokenize` knows only quoted words with doubled quotes and bare words, and
`NaiveTokenize` splits at single spaces with none of POSIX sh's rules for
`&`, `;`, globs, `$` or backslashes (see "## Left out").

Points where the code and its descriptions disagree. The model follows the code in each case.

- The test file of the legacy module expects two things the code does not do:
  - It expects `parse_curl` to keep an `Authorization` header. The default allow set drops it (`CurlParser.AuthorizationIsDropped`).
  - It expects the `.strm` line to contain `Bearer TOKEN` unencoded. `quote` writes `Bearer%20TOKEN` (`PercentEncoding.QuoteEncodesSpace`).

The newer `sanitize_filename` is not idempotent, because every pass drops one more extension: `a.b.c` → `a.b` → `a` (`Filenames.SanitizeNotIdempotent`). It is idempotent on names without a dot (`Filenames.SanitizeIdempotentWithoutDot`). The legacy version is idempotent (`Filenames.LegacySanitizeIdempotent`).

## Model

| member | source | states |
|---|---|---|
| `CurlParser.UrlEnd` | src/curl_to_kodi/cli.py:25 | the greedy `[^\s'"]+` ends at the first whitespace or quote after the scheme (or the end of the text), and takes at least one character |
| `CurlParser.FirstUrlStart` | src/curl_to_kodi.py:19 | the position found is a URL start and no earlier position is one; `None` exactly when no position is |
| `CurlParser.FindUrl` | src/curl_to_kodi.py:19 | legacy `re.search(...).group(1)`: `None` iff no URL occurs; otherwise the leftmost URL, taken to the end of its run of URL characters |
| `CurlParser.FindUrlAt` | src/curl_to_kodi.py:19 | a URL start with none before it, run up to the first character a URL may not contain, is the URL found |
| `CurlParser.FindUrlAfter` | src/curl_to_kodi.py:19 | an `https://` URL after text without `h`, closed by a non-URL character, is the URL found |
| `CurlParser.SearchUrl` | src/curl_to_kodi/cli.py:36-37 | the group found by the quote-tolerant search always starts a URL |
| `CurlParser.SearchUrlFindsFirstStart` | src/curl_to_kodi/cli.py:36 | the quote-tolerant search finds exactly the leftmost URL start, because a quote never starts a URL |
| `CurlParser.QuotedUrlPatternAgrees` | src/curl_to_kodi/cli.py:25 | the optional quotes of the newer URL pattern never change group 1: both modules extract the same URL |
| `CurlParser.FindUrlQuoted` | src/curl_to_kodi/cli.py:36-37 | `_URL_PATTERN.search(...).group(1)` of the newer module is the URL the legacy pattern finds |
| `CurlParser.FoundUrlShape` | src/curl_to_kodi/cli.py:25 | a found URL starts with `http://` or `https://`, is longer than the scheme, and contains no whitespace or quote |
| `CurlParser.FlagLen` | src/curl_to_kodi/cli.py:26-29 | a flag (`-H`/`--header` ignoring case in the newer module, exact `-H` in the legacy one) lies within the text |
| `CurlParser.FlagStartsWithDash` | src/curl_to_kodi/cli.py:27 | every flag begins with `-`, so a match anchored at the start and one anchored after a whitespace character never compete |
| `CurlParser.QuotedAtIff` | src/curl_to_kodi/cli.py:27 | `'([^']+)'` (or the `"` form) matches at `v` exactly when a non-empty quote-free body is closed by the same quote, and captures that body |
| `CurlParser.BareAtIff` | src/curl_to_kodi/cli.py:27 | `([^\s]+)` captures exactly the maximal run of non-whitespace at `v` |
| `CurlParser.ValueAtIff` | src/curl_to_kodi/cli.py:27 | the value alternatives are tried single-quoted, then double-quoted, then bare; the scanner returns exactly the value the declarative description picks |
| `CurlParser.MatchAfterFlagIff` | src/curl_to_kodi/cli.py:27 | after a flag, `\s+` followed by a value matches exactly when a non-empty whitespace run reaches a non-whitespace value of the right shape |
| `CurlParser.MatchAt` | src/curl_to_kodi/cli.py:26-29 | a successful attempt at `p` gives a match that starts at `p`, has its flag, value and end in that order inside the text, and captures a non-empty value |
| `CurlParser.MatchAtIff` | src/curl_to_kodi/cli.py:26-29 | an attempt at `p` returns `m` iff `m` starts at `p` and is a match (flag at the start of the text or after one whitespace character for the newer pattern, at `p` itself for the legacy one) |
| `CurlParser.ModernMatchAtStart` | src/curl_to_kodi/cli.py:27 | at position 0 the newer pattern's `^` and `\s` anchors together give exactly the declarative matches |
| `CurlParser.MatchAtAdvances` | src/curl_to_kodi/cli.py:27 | every match consumes at least one character, so `findall` makes progress |
| `CurlParser.FindAll` | src/curl_to_kodi/cli.py:41 | `findall` returns matches inside the text, in order and non-overlapping |
| `CurlParser.Captures` | src/curl_to_kodi/cli.py:41-42 | one capture per `findall` match, in order, each the group that matched (`h1 or h2 or h3`) and never empty |
| `CurlParser.FindAllFound` | src/curl_to_kodi/cli.py:41 | every match `findall` returns is what the scanner finds at its start |
| `CurlParser.FindAllMissesNothing` | src/curl_to_kodi/cli.py:41 | `findall` misses no match: every position where the pattern matches lies inside a returned match |
| `CurlParser.FindAllMatchesPattern` | src/curl_to_kodi/cli.py:41 | every match `findall` returns satisfies the declarative description of the pattern |
| `CurlParser.LegacyCapturesAreQuoted` | src/curl_to_kodi.py:20 | every legacy capture comes from an exact `-H` followed by a single- or double-quoted value, the capture being its body |
| `CurlParser.SplitHeader` | src/curl_to_kodi/cli.py:43-47 | a capture is skipped exactly when it has no colon; otherwise the stripped name holds no colon |
| `CurlParser.SplitHeaderSplits` | src/curl_to_kodi/cli.py:45-47 | the name is the text before the first colon and the value the text after it, each trimmed of outer whitespace and nothing else |
| `CurlParser.SplitHeaderAt` | src/curl_to_kodi/cli.py:45-47 | conversely, a split at the first colon into trimmed name and value is exactly what is returned, so the split is unique |
| `CurlParser.SplitHeaderOfPair` | src/curl_to_kodi/cli.py:45-47 | a capture `name: value` whose name is colon-free and whose parts have no outer whitespace splits back into exactly `(name, value)` |
| `CurlParser.SplitAll` | src/curl_to_kodi/cli.py:41-47 | one pair per colon-bearing capture, each with a colon-free name |
| `CurlParser.SplitAllPlaces` | src/curl_to_kodi/cli.py:41-47 | the `j`-th capture, when it holds a colon, contributes its split at position (number of colon-bearing captures before it), so captures keep their order and nothing else is added |
| `CurlParser.SplitAllFromCaptures` | src/curl_to_kodi/cli.py:41-47 | every returned pair is the split of some capture |
| `CurlParser.SplitAllOfSplits` | src/curl_to_kodi/cli.py:41-47 | when every capture splits, the pairs are the splits, one for one |
| `CurlParser.AllowSet` | src/curl_to_kodi/cli.py:40 | an absent or empty override falls back to `cookie`, `origin`, `referer`, `user-agent`; otherwise the set is exactly the lower-cased override names |
| `CurlParser.AuthorizationIsDropped` | src/curl_to_kodi.py:27 | with the default set an `Authorization` header is dropped and `User-Agent` is kept |
| `CurlParser.HeaderDict` | src/curl_to_kodi/cli.py:39-49 | the header dictionary has distinct names, each accepted by the filter and colon-free |
| `CurlParser.HeaderDictHasName` | src/curl_to_kodi/cli.py:41-49 | a name is in the dictionary exactly when some colon-bearing capture carries it and the filter accepts it |
| `CurlParser.HeaderDictLastValueWins` | src/curl_to_kodi/cli.py:48-49 | a name repeated among the kept pairs holds the value of its last occurrence |
| `CurlParser.HeaderDictOrder` | src/curl_to_kodi/cli.py:48-49 | the names are the kept names in order of first appearance |
| `CurlParser.ParseCurl` | src/curl_to_kodi/cli.py:31-50 | the URL is the leftmost URL; names are distinct, colon-free and, unless all headers are included, allowed after lower-casing; which headers it keeps, and with what value, is stated by `HeaderKept` and `LastHeaderWins` |
| `CurlParser.ParseCurlLegacy` | src/curl_to_kodi.py:18-30 | the legacy parser finds the same URL; its names are distinct and in the default allow set after lower-casing; which headers it keeps, and with what value, is stated by `LegacyHeaderKept` and `LegacyLastHeaderWins` |
| `CurlParser.LegacyHeaderKept` | src/curl_to_kodi.py:20-28 | a legacy header is kept exactly when a quoted `-H` capture carries its name and the lower-cased name is one of the four defaults |
| `CurlParser.LegacyLastHeaderWins` | src/curl_to_kodi.py:22-28 | a repeated legacy name holds its last value |
| `CurlParser.LegacyHeaderOrderIsFirstSeen` | src/curl_to_kodi.py:22-28 | legacy names appear in order of first kept occurrence |
| `CurlParser.LegacyExampleHeaders` | src/curl_to_kodi.py:22-28 | for the captures `Authorization: Bearer TOKEN`, `User-Agent: Kodi/19`, `Other: value` of the legacy test command, the dictionary is exactly `{"User-Agent": "Kodi/19"}` |
| `CurlParser.ExampleUrl` | src/curl_to_kodi.py:19 | both parsers find `https://example.com/video.mp4` in the test command `curl 'https://example.com/video.mp4' -H 'Authorization: Bearer TOKEN' -H 'User-Agent: Kodi/19' -H 'Other: value'` |
| `CurlParser.FilteredIsRestrictionOfAll` | src/curl_to_kodi/cli.py:48-49 | the filtered dictionary is the include-all dictionary restricted to the allowed names, in order; so every filtered entry has the same value there |
| `CurlParser.HeaderKept` | src/curl_to_kodi/cli.py:41-49 | a header is kept exactly when a capture carries its name and the name passes the allow test, or every header is included |
| `CurlParser.LastHeaderWins` | src/curl_to_kodi/cli.py:49 | when kept headers repeat a name (case-sensitively), the last value is the one stored |
| `CurlParser.HeaderOrderIsFirstSeen` | src/curl_to_kodi/cli.py:49 | the dictionary's names are the kept names in order of first appearance |
| `CurlParser.CaseVariantsAreDistinct` | src/curl_to_kodi/cli.py:46-49 | two captured names that differ only in case, when allowed, are both present as separate entries |
| `HeaderMaps.Replace` | src/curl_to_kodi/cli.py:49 | assigning to a present key keeps the key sequence |
| `HeaderMaps.Put` | src/curl_to_kodi/cli.py:49 | `d[k] = v` keeps the keys when `k` is present and appends `(k, v)` otherwise |
| `HeaderMaps.Build` | src/curl_to_kodi/cli.py:39-49 | a dictionary built by a loop of assignments has distinct keys |
| `HeaderMaps.Filter` | src/curl_to_kodi/cli.py:48 | every entry that survives the filter satisfies it |
| `HeaderMaps.GetAbsent` | src/curl_to_kodi/cli.py:49 | a lookup fails exactly when the key is not in the dictionary |
| `HeaderMaps.GetPut` | src/curl_to_kodi/cli.py:49 | after `d[k] = v`, `k` reads `v` and every other key reads as before |
| `HeaderMaps.GetReplace` | src/curl_to_kodi/cli.py:49 | the same for an assignment to a present key |
| `HeaderMaps.PutInPlace` | src/curl_to_kodi/cli.py:49 | on a dictionary, `d[k] = v` changes only `k`'s entry in place, or appends one entry |
| `HeaderMaps.ReplaceInPlace` | src/curl_to_kodi/cli.py:49 | on a dictionary, assigning to a present key changes that entry in place and nothing else |
| `HeaderMaps.BuildHasKeys` | src/curl_to_kodi/cli.py:41-49 | the built dictionary holds exactly the keys that were assigned |
| `HeaderMaps.BuildKeysInFirstSeenOrder` | src/curl_to_kodi/cli.py:41-49 | its keys are the assigned keys, deduplicated, in order of first assignment |
| `HeaderMaps.BuildLastValueWins` | src/curl_to_kodi/cli.py:49 | a key reads the value of its last assignment |
| `HeaderMaps.BuildAbsentKey` | src/curl_to_kodi/cli.py:49 | a key never assigned reads as absent |
| `HeaderMaps.GetFilter` | src/curl_to_kodi/cli.py:48 | a lookup in the restricted dictionary is the original lookup for kept keys and absent for the rest |
| `HeaderMaps.FilterReplaceKept` | src/curl_to_kodi/cli.py:48-49 | restricting commutes with assigning to a present, kept key |
| `HeaderMaps.FilterReplaceDropped` | src/curl_to_kodi/cli.py:48-49 | assigning to a dropped key is invisible after restricting |
| `HeaderMaps.FilterPutKept` | src/curl_to_kodi/cli.py:48-49 | restricting commutes with `d[k] = v` for a kept key |
| `HeaderMaps.FilterPutDropped` | src/curl_to_kodi/cli.py:48-49 | `d[k] = v` for a dropped key is invisible after restricting |
| `HeaderMaps.BuildFilter` | src/curl_to_kodi/cli.py:48-49 | assigning only the kept headers gives the same dictionary as assigning all and then restricting |
| `HeaderMaps.FilterKeys` | src/curl_to_kodi/cli.py:48 | filtering introduces no key |
| `HeaderMaps.FilterKeepsAll` | src/curl_to_kodi/cli.py:48 | with `include_all_headers` the filter keeps everything |
| `Text.Strip` | src/curl_to_kodi/cli.py:46-47 | `strip()` removes a whitespace prefix and suffix and nothing else, leaving no whitespace at either end |
| `Text.TrimmedUnique` | src/curl_to_kodi/cli.py:46-47 | only one slice has that property, so it determines the result of `strip()` |
| `Text.StripKeepsOut` | src/curl_to_kodi/cli.py:45-46 | stripping introduces no character, so a name cut before the first colon stays colon-free |
| `Text.RFind` | src/curl_to_kodi/cli.py:66 | `rfind` returns the last occurrence, or -1 when there is none |
| `Text.Split` | src/curl_to_kodi/cli.py:57 | splitting gives at least one part and no part contains the separator |
| `Text.SplitJoin` | src/curl_to_kodi/cli.py:57 | splitting a `"&".join` of separator-free parts gives the parts back |
| `Text.JoinSplit` | src/curl_to_kodi/cli.py:57 | joining the parts of a split gives the text back |
| `PercentEncoding.Utf8Char` | src/curl_to_kodi/cli.py:57 | UTF-8 takes one to four bytes, one exactly for ASCII, with continuation bytes after the first |
| `PercentEncoding.DecodeFirstOfEncoding` | src/curl_to_kodi/cli.py:57 | decoding the UTF-8 encoding of a character reads that character back and consumes exactly its bytes |
| `PercentEncoding.Utf8RoundTrip` | src/curl_to_kodi/cli.py:57 | UTF-8 decoding inverts UTF-8 encoding |
| `PercentEncoding.Utf8OfAscii` | src/curl_to_kodi/cli.py:57 | ASCII text encodes to its own code points |
| `PercentEncoding.Escape` | src/curl_to_kodi/cli.py:57 | `%XX` uses upper-case hex digits that denote the byte |
| `PercentEncoding.Quote` | src/curl_to_kodi/cli.py:57 | `quote` writes only safe characters, `%` and upper-case hex digits, never shortening its input |
| `PercentEncoding.QuoteIdentity` | src/curl_to_kodi/cli.py:57 | `quote` leaves a value unchanged exactly when every character is a letter, digit, `_.-~` or `/` |
| `PercentEncoding.QuoteAppend` | src/curl_to_kodi/cli.py:57 | `quote` works character by character: it distributes over concatenation |
| `PercentEncoding.QuoteOfSpace` | src/curl_to_kodi.py:37 | a space is written `%20` |
| `PercentEncoding.QuoteEncodesSpace` | src/curl_to_kodi.py:37 | between safe words a space becomes `%20`, as in `Bearer%20TOKEN` |
| `PercentEncoding.UnquoteQuoteBytes` | src/curl_to_kodi/cli.py:57 | percent-decoding a quoted value gives its UTF-8 bytes |
| `PercentEncoding.UnquoteQuote` | src/curl_to_kodi/cli.py:57 | `unquote(quote(v)) == v` for every value |
| `KodiStrm.StrmContent` | src/curl_to_kodi/cli.py:52-59 | a missing or empty URL is the error; otherwise the line starts with the URL verbatim, and a `\|` follows exactly when there are headers |
| `KodiStrm.HeaderField` | src/curl_to_kodi/cli.py:57 | the `k=quote(v)` field holds no `&` and reads back as the header `(k, v)` whenever `k` has no `&` or `=` |
| `KodiStrm.ParseHeaderField` | src/curl_to_kodi/cli.py:57 | a name without `&` or `=`, then `=`, then a quoted value reads back as the pair and holds no `&` |
| `KodiStrm.ParseHeaderFields` | src/curl_to_kodi/cli.py:57 | all fields read back as the headers, in order |
| `KodiStrm.StrmRoundTrip` | src/curl_to_kodi/cli.py:52-59 | Kodi reads back the URL and every header, value decoded, in order, when the URL has no `\|` and no name holds `&` or `=` |
| `KodiStrm.StrmOfParsedCommand` | src/curl_to_kodi/cli.py:52-59 | a `.strm` line can be written from a command parsed by either parser exactly when a URL was found, since a found URL is never empty |
| `Filenames.ReplaceAllCleans` | src/curl_to_kodi/cli.py:67 | after the substitution no forbidden character is left, and it is the identity exactly on names that had none |
| `Filenames.ReplaceAllIdempotent` | src/curl_to_kodi.py:48 | substituting twice is substituting once |
| `Filenames.SplitExt` | src/curl_to_kodi/cli.py:66 | root plus extension is the name; an extension exists iff the last dot is after the last slash with a non-dot before it in that segment; it is that dot onward and holds no other dot and no slash |
| `Filenames.Sanitize` | src/curl_to_kodi/cli.py:65-68 | the result is non-empty and free of `/*?:"<>\|`; `output` for an empty root, else the root with each forbidden character replaced |
| `Filenames.SanitizeIdempotentWithoutDot` | src/curl_to_kodi/cli.py:65-68 | a second pass changes nothing when the name has no dot |
| `Filenames.SanitizeNotIdempotent` | src/curl_to_kodi/cli.py:66 | `a.b.c` → `a.b` → `a`: each pass drops one more extension |
| `Filenames.SanitizeEmpty` | src/curl_to_kodi/cli.py:68 | the empty name becomes `output` |
| `Filenames.SanitizeLeadingDot` | src/curl_to_kodi/cli.py:66 | leading dots do not start an extension: `.mp4` is kept whole |
| `Filenames.SanitizeExample` | src/curl_to_kodi/cli.py:65-68 | `bad:name*here?.mp4` becomes `bad_name_here_` |
| `Filenames.LegacySanitize` | src/curl_to_kodi.py:47-48 | the legacy result keeps the length, turns each character of `\/*?:"<>\|` (backslash included) into `_` and keeps every other character in place |
| `Filenames.LegacySanitizeIdempotent` | src/curl_to_kodi.py:47-48 | the legacy sanitiser is idempotent, and the identity exactly on clean names |
| `YtDlp.HeaderArgsAt` | src/curl_to_kodi/cli.py:72-73 | the `i`-th header gives arguments `2i` and `2i + 1`: `--add-header`, then `k: v` |
| `YtDlp.YtDlpArgs` | src/curl_to_kodi/cli.py:70-77 | position by position: `yt-dlp`, the header pairs, the URL, then the output pair when named |
| `YtDlp.SplitHeaderArgInverse` | src/curl_to_kodi/cli.py:73 | `k: v` splits back into `(k, v)` at its first colon when `k` is colon-free |
| `YtDlp.ReadHeaderArgsOf` | src/curl_to_kodi/cli.py:72-74 | the leading `--add-header` pairs read back as the headers |
| `YtDlp.YtDlpArgsCarryHeaders` | src/curl_to_kodi/cli.py:70-77 | the argument vector hands yt-dlp every header unchanged and in order |
| `YtDlp.FoundUrlIsNotAFlag` | src/curl_to_kodi/cli.py:74 | a found URL is never mistaken for the `--add-header` flag |
| `YtDlp.ParsedHeadersReachYtDlp` | src/curl_to_kodi/cli.py:70-77 | the headers of a parsed command reach yt-dlp unchanged |
| `YtDlp.LegacyArgs` | src/curl_to_kodi.py:50-60 | the legacy argument list is the newer one with the output name sanitised by the legacy sanitiser |
| `YtDlp.NaiveTokenizeFront` | src/curl_to_kodi.py:61 | a plain part, quoted when it has a space, reads back as itself at the front of the line |
| `YtDlp.NaiveQuote` | src/curl_to_kodi.py:61 | a part that is non-empty and holds no `"` reads back as itself, whether or not a space made it quoted |
| `YtDlp.NaiveJoin` | src/curl_to_kodi.py:61 | the space-joined line reads back part for part when no part is empty or holds `"` |
| `YtDlp.NaivePartsReadBack` | src/curl_to_kodi.py:61 | the quoted parts joined by single spaces read back part for part when every part is plain, by induction on the parts |
| `YtDlp.NaiveJoinNotInjective` | src/curl_to_kodi.py:61 | `["a b"]` and `["\"a", "b\""]` give the same line, so quotes in a part make the line ambiguous |
| `YtDlp.LegacyYtDlpCommand` | src/curl_to_kodi.py:50-61 | the legacy command reads back as its argument list when the URL is non-empty and neither the URL nor any header holds `"`; the output name needs no condition, as its `"` are replaced |
| `ScriptJoiners.ReadQuotedDoubled` | src/curl_to_kodi/cli.py:90 | doubling the quote character is undone by the reader, which stops at the closing quote |
| `ScriptJoiners.TokenizeWord` | src/curl_to_kodi/cli.py:92 | a quoted word, or a bare word without spaces not opening with the quote, reads back as its argument |
| `ScriptJoiners.WordsRoundTrip` | src/curl_to_kodi/cli.py:92 | a space-joined line of such words reads back as the argument list |
| `ScriptJoiners.QuoteArgIsWord` | src/curl_to_kodi/cli.py:86-91 | every argument that is empty, gets quoted, or does not open with the quote is written as a readable word |
| `ScriptJoiners.JoinArgs` | src/curl_to_kodi/cli.py:85-101 | each dialect's line reads back as the original vector whenever every argument is readable in that sense |
| `ScriptJoiners.QuotedArgsReadBack` | src/curl_to_kodi/cli.py:92 | the quoted words joined by single spaces read back as the arguments when every argument is readable |
| `ScriptJoiners.JoinArgsBatchExample` | src/curl_to_kodi/cli.py:85-92 | `["yt-dlp", "a \"b\" c"]` survives the batch line, its space quoted and its quotes doubled |
| `ScriptJoiners.JoinArgsPowerShellExample` | src/curl_to_kodi/cli.py:94-101 | `["yt-dlp", "it's here"]` survives the PowerShell line, its apostrophe doubled |
| `ScriptJoiners.QuoteArgLosesQuotes` | src/curl_to_kodi/cli.py:89-91 | `"x"` (batch) and `'x'` (PowerShell) are written bare and read back as `x` |
| `ScriptJoiners.QuoteArgFixed` | src/curl_to_kodi/cli.py:86-91 | with the quote character added to the triggers, every argument is written as a readable word |
| `ScriptJoiners.JoinArgsFixedRoundTrip` | src/curl_to_kodi/cli.py:85-101 | with that fix every vector reads back unchanged |
| `ScriptJoiners.QuoteArgFixedAgrees` | src/curl_to_kodi/cli.py:89-91 | the fix changes only bare arguments that hold the quote character |

## Left out

- Clipboard access, `get_curl_from_clipboard`, `write_shell_script`, file writes, `chmod`, platform detection and the `argparse` entry points. They are I/O around the core.
- `_sh_join` (the POSIX joiner built on `shlex`) is not part of this model.
- `_INVALID_FILENAME_CHARS` in the newer module is compiled but never used, so it is not modelled.
- `Filenames.SplitExt` models POSIX `os.path.splitext`. On Windows, `ntpath` also splits at backslashes.
- `Text.Lower` lower-cases ASCII letters only. Python's `str.lower` also maps non-ASCII capitals, so an allow-set test on a non-ASCII name can differ.
- `CurlParser.AllowSet` takes the override as a sequence. In Python, a generator override that yields nothing is truthy and gives an empty allow set; an empty sequence falls back to the default here.
- `PercentEncoding.Utf8` is total because a Dafny `char` is never a surrogate. Python's `quote` raises on a lone surrogate, and that case is not representable.
- `PercentEncoding.Unquote` decodes UTF-8 strictly and returns `None` on malformed input. Python's `unquote` substitutes U+FFFD instead. Only the round trip through `quote` is stated, and there the two agree.
- `KodiStrm.StrmContent` takes the URL as an `Option`, since callers pass the parser's result through. Both `None` and `""` are the `ValueError`.
- Reading the produced lines (`ParseStrm`, `ReadHeaderArgs`, `NaiveTokenize`, `Tokenize`) uses simple models of Kodi, yt-dlp and the shells. They do not cover cmd.exe or PowerShell escaping rules beyond quote doubling, nor any POSIX sh rule (next line).
- `YtDlp.LegacyYtDlpCommand`: the read-back is stated under `NaiveTokenize`, which splits at `' '` only and takes every other character literally. The legacy command is written after `#!/bin/sh` (src/curl_to_kodi.py:63-67), and sh reads it differently: a bare `&`, `;` or `|` (as in a query string `?a=1&b=2`) ends the command, a bare `*`, `?` or `[` is a glob pattern, `$` and a backquote are expanded and `\` escapes the next character even inside the double quotes, and a tab splits a word. The ensures therefore promises nothing about how sh runs the line.
- `ScriptJoiners.Tokenize` does not expand `%` variables. In a `.bat` file, cmd.exe expands `%` even inside double quotes, so the `%` of `name.%(ext)s` would be lost. The read-back of `JoinArgs` for batch therefore holds for argument vectors that a real script would alter.
- `ScriptJoiners.Tokenize` keeps a `"` (batch) or `'` (PowerShell) in the middle of a bare word literally. The real shells open a quoted section there.

## Findings

| source | as written | input that shows it | evidently intended | confidence | as-written member | corrected member |
|---|---|---|---|---|---|---|
| src/curl_to_kodi/cli.py:89-91 | an argument with no whitespace and no trigger character is emitted bare, even when it opens with the dialect's quote character | `_bat_join(['"x"'])` is `"x"` and `_ps1_join(["'x'"])` is `'x'`, which the script reads as `x` | quote an argument that holds the quote character, so that it reads back unchanged | medium, not executed | `ScriptJoiners.QuoteArgLosesQuotes` | `ScriptJoiners.JoinArgsFixedRoundTrip` |
