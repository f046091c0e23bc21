/** Output-name sanitising: the newer `sanitize_filename` (extension
    dropped, forbidden characters replaced, `"output"` when nothing is left)
    and the legacy one (replacement only). */
module Filenames {
  import opened Text

  // The class of the newer module holds slash, star, question mark, colon,
  // double quote, angle brackets and bar. Its backslash only escapes the
  // slash, so a backslash itself is NOT replaced.
  predicate IsForbidden(c: char) {
    c == '/' || c == '*' || c == '?' || c == ':' || c == '"' || c == '<' || c == '>' || c == '|'
  }

  // The class of the legacy module escapes its backslash, so it does include it.
  predicate IsLegacyForbidden(c: char) {
    c == '\\' || IsForbidden(c)
  }

  predicate Clean(s: string, bad: char -> bool) {
    forall i :: 0 <= i < |s| ==> !bad(s[i])
  }

  /** `re.sub(cls, "_", s)` for a one-character class. */
  function ReplaceAll(s: string, bad: char -> bool): (r: string)
    ensures |r| == |s|
    ensures forall i :: 0 <= i < |s| ==> r[i] == (if bad(s[i]) then '_' else s[i])
  {
    seq(|s|, i requires 0 <= i < |s| => if bad(s[i]) then '_' else s[i])
  }

  /** Replacing leaves no forbidden character (when `_` itself is allowed)
      and changes nothing in a string that had none. */
  lemma ReplaceAllCleans(s: string, bad: char -> bool)
    requires !bad('_')
    ensures Clean(ReplaceAll(s, bad), bad)
    ensures Clean(s, bad) <==> ReplaceAll(s, bad) == s
  {
    if ReplaceAll(s, bad) == s {
      forall i | 0 <= i < |s| ensures !bad(s[i]) {
        assert ReplaceAll(s, bad)[i] == s[i];
      }
    }
  }

  /** Replacing twice is replacing once. */
  lemma ReplaceAllIdempotent(s: string, bad: char -> bool)
    requires !bad('_')
    ensures ReplaceAll(ReplaceAll(s, bad), bad) == ReplaceAll(s, bad)
  {
    ReplaceAllCleans(s, bad);
    ReplaceAllCleans(ReplaceAll(s, bad), bad);
  }

  // ---------------------------------------------------------------------
  // os.path.splitext (POSIX)
  // ---------------------------------------------------------------------

  /** Whether some character strictly between `lo` and `hi` is not a dot:
      the leading dots of a file name do not start an extension. */
  predicate NonDotBetween(p: string, lo: int, hi: int)
    requires -1 <= lo && hi <= |p|
  {
    exists k :: lo < k < hi && p[k] != '.'
  }

  /** `os.path.splitext(p)` with `/` as the only separator: the extension is
      the last `.` and what follows it, provided that dot lies in the last
      path segment and is preceded there by some non-dot character. */
  function SplitExt(p: string): (r: (string, string))
    ensures r.0 + r.1 == p
    ensures r.1 != [] <==> RFind(p, '.') > RFind(p, '/') && NonDotBetween(p, RFind(p, '/'), RFind(p, '.'))
    ensures r.1 != [] ==> r.1[0] == '.' && |r.0| == RFind(p, '.')
    ensures r.1 != [] ==> '.' !in r.1[1..]
    ensures '/' !in r.1
  {
    var sep := RFind(p, '/');
    var dot := RFind(p, '.');
    if dot > sep && Span(p, sep + 1, c => c == '.') < dot then
      var j := Span(p, sep + 1, c => c == '.');
      assert p[j] != '.';
      assert p[..dot] + p[dot..] == p;
      (p[..dot], p[dot..])
    else
      assert p + [] == p;
      (p, [])
  }

  // ---------------------------------------------------------------------
  // sanitize_filename
  // ---------------------------------------------------------------------

  /** The newer `sanitize_filename`. The result is never empty and never
      holds a forbidden character; it is `"output"` when the extension-free
      name is empty, and otherwise that name with each forbidden character
      replaced by `_`. */
  function Sanitize(name: string): (r: string)
    ensures r != []
    ensures Clean(r, IsForbidden)
    ensures SplitExt(name).0 == [] ==> r == "output"
    ensures SplitExt(name).0 != [] ==> r == ReplaceAll(SplitExt(name).0, IsForbidden)
  {
    var base := SplitExt(name).0;
    var cleaned := ReplaceAll(base, IsForbidden);
    ReplaceAllCleans(base, IsForbidden);
    if cleaned != [] then cleaned else "output"
  }

  /** Without a dot in the name, sanitising a second time changes nothing. */
  lemma SanitizeIdempotentWithoutDot(name: string)
    requires '.' !in name
    ensures Sanitize(Sanitize(name)) == Sanitize(name)
  {
    var r := Sanitize(name);
    assert RFind(name, '.') == -1;
    assert SplitExt(name).0 == name;
    assert '.' !in r by {
      if name == [] {
        assert r == "output";
      }
    }
    assert RFind(r, '.') == -1;
    assert SplitExt(r).0 == r;
    ReplaceAllCleans(r, IsForbidden);
  }

  /** Sanitising is not idempotent in general: each pass drops one more
      extension. */
  lemma SanitizeNotIdempotent()
    ensures Sanitize("a.b.c") == "a.b"
    ensures Sanitize("a.b") == "a"
    ensures Sanitize(Sanitize("a.b.c")) != Sanitize("a.b.c")
  {
    assert RFind("a.b.c", '/') == -1;
    assert RFind("a.b.c", '.') == 3;
    assert "a.b.c"[0] != '.';
    assert SplitExt("a.b.c").0 == "a.b";
    assert RFind("a.b", '/') == -1;
    assert RFind("a.b", '.') == 1;
    assert "a.b"[0] != '.';
    assert SplitExt("a.b").0 == "a";
  }

  /** The empty name becomes `"output"`. */
  lemma SanitizeEmpty()
    ensures Sanitize("") == "output"
  {
    assert SplitExt("").0 == "";
  }

  /** A hidden file such as `.bashrc` has no extension and is kept whole. */
  lemma SanitizeLeadingDot()
    ensures Sanitize(".mp4") == ".mp4"
  {
    var p := ".mp4";
    assert p[0] == '.' && p[1] == 'm' && p[2] == 'p' && p[3] == '4';
    assert RFind(p, '/') == -1;
    assert RFind(p, '.') == 0;
    assert SplitExt(".mp4").0 == ".mp4";
  }

  /** The documented example: `bad:name*here?.mp4` becomes `bad_name_here_`. */
  lemma SanitizeExample()
    ensures Sanitize("bad:name*here?.mp4") == "bad_name_here_"
  {
    var p := "bad:name*here?.mp4";
    assert p[0] == 'b';
    assert forall k :: 14 < k < |p| ==> p[k] != '.';
    assert p[14] == '.';
    assert RFind(p, '.') == 14;
    assert forall k :: 0 <= k < |p| ==> p[k] != '/';
    assert RFind(p, '/') == -1;
    assert SplitExt(p).0 == "bad:name*here?";
  }

  /** The legacy `sanitize_filename`: every forbidden character, backslash
      included, becomes `_`; the length and every other character are kept. */
  function LegacySanitize(name: string): (r: string)
    ensures Clean(r, IsLegacyForbidden)
    ensures |r| == |name|
    ensures forall i :: 0 <= i < |name| && !IsLegacyForbidden(name[i]) ==> r[i] == name[i]
    ensures forall i :: 0 <= i < |name| && IsLegacyForbidden(name[i]) ==> r[i] == '_'
  {
    ReplaceAllCleans(name, IsLegacyForbidden);
    ReplaceAll(name, IsLegacyForbidden)
  }

  /** The legacy sanitiser is idempotent, and the identity on clean names. */
  lemma LegacySanitizeIdempotent(name: string)
    ensures LegacySanitize(LegacySanitize(name)) == LegacySanitize(name)
    ensures Clean(name, IsLegacyForbidden) <==> LegacySanitize(name) == name
  {
    ReplaceAllIdempotent(name, IsLegacyForbidden);
    ReplaceAllCleans(name, IsLegacyForbidden);
  }
}
