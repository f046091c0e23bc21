/** Character classes and the small string operations every component shares. */
module Text {

  /** Python's notion of whitespace: the characters for which `str.isspace()`
      holds. The `\s` class of `re` on str patterns and `str.strip()` with no
      argument use the same set, so one predicate serves all three. */
  predicate IsSpace(c: char) {
    || c == ' '
    || ('\t' <= c <= '\r')
    || ('\U{1C}' <= c <= '\U{1F}')
    || c == '\U{85}' || c == '\U{A0}' || c == '\U{1680}'
    || ('\U{2000}' <= c <= '\U{200A}')
    || c == '\U{2028}' || c == '\U{2029}' || c == '\U{202F}'
    || c == '\U{205F}' || c == '\U{3000}'
  }

  predicate NotSpace(c: char) {
    !IsSpace(c)
  }

  predicate AllSpace(s: string) {
    forall i :: 0 <= i < |s| ==> IsSpace(s[i])
  }

  predicate HasSpace(s: string) {
    exists i :: 0 <= i < |s| && IsSpace(s[i])
  }

  /** The end of the longest run of characters satisfying `p` that starts at `i`. */
  function Span(s: string, i: nat, p: char -> bool): (j: nat)
    requires i <= |s|
    ensures i <= j <= |s|
    ensures forall k :: i <= k < j ==> p(s[k])
    ensures j == |s| || !p(s[j])
    decreases |s| - i
  {
    if i == |s| || !p(s[i]) then i else Span(s, i + 1, p)
  }

  /** Index of the first `c` at or after `i`, or `|s|` when there is none. */
  function Find(s: string, i: nat, c: char): (j: nat)
    requires i <= |s|
    ensures i <= j <= |s|
    ensures forall k :: i <= k < j ==> s[k] != c
    ensures j == |s| || s[j] == c
  {
    Span(s, i, x => x != c)
  }

  /** `Find` from the start stops at the first occurrence. */
  lemma FindFirst(s: string, i: nat, c: char)
    ensures i < |s| && s[i] == c && c !in s[..i] ==> Find(s, 0, c) == i
  {
    if i < |s| && s[i] == c && c !in s[..i] {
      assert Find(s, 0, c) <= i;
    }
  }

  /** Python's `str.rfind` for one character: the last index of `c`, or -1. */
  function RFind(s: string, c: char): (r: int)
    ensures -1 <= r < |s|
    ensures r >= 0 ==> s[r] == c
    ensures forall k :: r < k < |s| ==> s[k] != c
  {
    if |s| == 0 then -1
    else if s[|s| - 1] == c then |s| - 1
    else RFind(s[..|s| - 1], c)
  }

  /** Whether `lit` occurs in `s` at index `i`. */
  predicate PrefixAt(s: string, i: nat, lit: string) {
    i + |lit| <= |s| && s[i..i + |lit|] == lit
  }

  /** ASCII lower-casing of one character. */
  function LowerChar(c: char): char {
    if 'A' <= c <= 'Z' then (c as int + 32) as char else c
  }

  /** `str.lower()`, restricted to the ASCII letters. */
  function Lower(s: string): (r: string)
    ensures |r| == |s|
    ensures forall i :: 0 <= i < |s| ==> r[i] == LowerChar(s[i])
  {
    seq(|s|, i requires 0 <= i < |s| => LowerChar(s[i]))
  }

  /** Whether `lit` (written in lower case) occurs at `i` when case is ignored. */
  predicate PrefixAtIgnoringCase(s: string, i: nat, lit: string) {
    i + |lit| <= |s| && Lower(s[i..i + |lit|]) == lit
  }

  function StripStart(s: string): (r: string)
    ensures |r| <= |s| && r == s[|s| - |r|..]
    ensures AllSpace(s[..|s| - |r|])
    ensures r == [] || !IsSpace(r[0])
  {
    s[Span(s, 0, IsSpace)..]
  }

  function StripEnd(s: string): (r: string)
    ensures |r| <= |s| && r == s[..|r|]
    ensures AllSpace(s[|r|..])
    ensures r == [] || !IsSpace(r[|r| - 1])
  {
    if |s| > 0 && IsSpace(s[|s| - 1]) then
      var r := StripEnd(s[..|s| - 1]);
      assert s[|r|..] == s[..|s| - 1][|r|..] + [s[|s| - 1]];
      r
    else s
  }

  /** `r` is the slice of `s` at `i`, neither starting nor ending with
      whitespace, with only whitespace on either side of it. */
  predicate TrimmedAt(s: string, r: string, i: nat) {
    && i + |r| <= |s| && r == s[i..i + |r|]
    && AllSpace(s[..i]) && AllSpace(s[i + |r|..])
    && (r == [] || (!IsSpace(r[0]) && !IsSpace(r[|r| - 1])))
  }

  /** `r` is `s` with a leading and a trailing run of whitespace removed. */
  predicate Trimmed(s: string, r: string) {
    exists i :: 0 <= i <= |s| && TrimmedAt(s, r, i)
  }

  /** Python's `str.strip()`: `r` is `s` with its leading and trailing
      whitespace, and nothing else, removed. */
  function Strip(s: string): (r: string)
    ensures Trimmed(s, r)
  {
    var t := StripStart(s);
    var r := StripEnd(t);
    var i := |s| - |t|;
    assert r == s[i..i + |r|];
    assert s[i + |r|..] == t[|r|..];
    assert TrimmedAt(s, r, i);
    r
  }

  /** Whitespace in front of a string with no outer whitespace is trimmed away. */
  lemma TrimmedPadded(pad: string, r: string)
    requires AllSpace(pad) && (r == [] || (!IsSpace(r[0]) && !IsSpace(r[|r| - 1])))
    ensures Trimmed(pad + r, r)
  {
    var s := pad + r;
    assert s[|pad|..|pad| + |r|] == r;
    assert s[..|pad|] == pad;
    assert TrimmedAt(s, r, |pad|);
  }

  /** A string has only one trimmed form, so `Trimmed(s, r)` pins `r` down
      to `Strip(s)`. */
  lemma TrimmedUnique(s: string, r1: string, r2: string)
    requires Trimmed(s, r1) && Trimmed(s, r2)
    ensures r1 == r2
  {
    var i1 :| TrimmedAt(s, r1, i1);
    var i2 :| TrimmedAt(s, r2, i2);
    TrimmedEnds(s, r1, i1, r2, i2);
    TrimmedEnds(s, r2, i2, r1, i1);
  }

  lemma SpaceBefore(s: string, j: nat, k: nat)
    ensures k < j <= |s| && AllSpace(s[..j]) ==> IsSpace(s[k])
  {
    if k < j <= |s| {
      assert s[..j][k] == s[k];
    }
  }

  lemma SpaceFrom(s: string, j: nat, k: nat)
    ensures j <= k < |s| && AllSpace(s[j..]) ==> IsSpace(s[k])
  {
    if j <= k < |s| {
      assert s[j..][k - j] == s[k];
    }
  }

  /** One half of `TrimmedUnique`: a non-empty trimmed slice cannot start
      before, or end after, another trimmed slice. */
  lemma TrimmedEnds(s: string, r1: string, i1: nat, r2: string, i2: nat)
    requires TrimmedAt(s, r1, i1) && TrimmedAt(s, r2, i2)
    ensures r1 != [] ==> r2 != [] && i2 <= i1 && i1 + |r1| <= i2 + |r2|
  {
    if r1 != [] {
      var e1 := i1 + |r1|;
      assert s[i1] == r1[0];
      assert s[e1 - 1] == r1[|r1| - 1];
      SpaceBefore(s, i2, i1);
      SpaceFrom(s, i2 + |r2|, i1);
      SpaceFrom(s, i2 + |r2|, e1 - 1);
    }
  }

  /** Stripping cannot introduce a character. */
  lemma StripKeepsOut(s: string, c: char)
    requires c !in s
    ensures c !in Strip(s)
  {
    var t := StripStart(s);
    assert forall k :: 0 <= k < |t| ==> t[k] == s[|s| - |t| + k];
    var r := StripEnd(t);
    assert Strip(s) == r;
    assert forall k :: 0 <= k < |r| ==> r[k] == t[k];
  }

  /** Python's `sep.join(parts)`. */
  function Join(parts: seq<string>, sep: string): string {
    if |parts| == 0 then []
    else if |parts| == 1 then parts[0]
    else parts[0] + sep + Join(parts[1..], sep)
  }

  /** Python's `s.split(sep)` for a one-character separator. */
  function Split(s: string, sep: char): (parts: seq<string>)
    ensures |parts| >= 1
    ensures forall i :: 0 <= i < |parts| ==> sep !in parts[i]
    decreases |s|
  {
    var i := Find(s, 0, sep);
    if i == |s| then [s] else [s[..i]] + Split(s[i + 1..], sep)
  }

  /** Splitting a joined list gives the list back when no part holds the separator. */
  lemma {:induction false} SplitJoin(parts: seq<string>, sep: char)
    requires |parts| >= 1
    requires forall i :: 0 <= i < |parts| ==> sep !in parts[i]
    ensures Split(Join(parts, [sep]), sep) == parts
    decreases |parts|
  {
    if |parts| > 1 {
      var s := Join(parts, [sep]);
      var rest := Join(parts[1..], [sep]);
      assert s == parts[0] + [sep] + rest;
      var i := Find(s, 0, sep);
      assert s[|parts[0]|] == sep;
      assert i == |parts[0]|;
      assert s[..i] == parts[0];
      assert s[i + 1..] == rest;
      SplitJoin(parts[1..], sep);
      assert parts == [parts[0]] + parts[1..];
    } else {
      assert Find(parts[0], 0, sep) == |parts[0]|;
    }
  }

  /** Joining the parts of a split gives the string back. */
  lemma {:induction false} JoinSplit(s: string, sep: char)
    ensures Join(Split(s, sep), [sep]) == s
    decreases |s|
  {
    var i := Find(s, 0, sep);
    if i < |s| {
      var tail := Split(s[i + 1..], sep);
      JoinSplit(s[i + 1..], sep);
      assert Split(s, sep) == [s[..i]] + tail;
      assert Join([s[..i]] + tail, [sep]) == s[..i] + [sep] + Join(tail, [sep]);
      assert s == s[..i] + [sep] + s[i + 1..];
    }
  }
}
