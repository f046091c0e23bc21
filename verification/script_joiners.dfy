/** Rendering an argument vector as one line of a Windows batch file
    (`_bat_join`) or a PowerShell script (`_ps1_join`), together with a
    reading of such a line back into words. */
module ScriptJoiners {
  import opened Text

  datatype Dialect = Batch | PowerShell

  /** The quote character of each dialect. */
  function QuoteOf(d: Dialect): char {
    match d
    case Batch => '"'
    case PowerShell => '\''
  }

  /** The characters that force quoting besides whitespace: `()%!^&<>|,;`
      for batch, the same without `%` for PowerShell. */
  predicate IsTrigger(d: Dialect, c: char) {
    || c == '(' || c == ')' || c == '!' || c == '^' || c == '&'
    || c == '<' || c == '>' || c == '|' || c == ',' || c == ';'
    || (d == Batch && c == '%')
  }

  /** Whether some character is whitespace or a trigger. */
  predicate NeedsQuote(d: Dialect, a: string) {
    exists i :: 0 <= i < |a| && (IsSpace(a[i]) || IsTrigger(d, a[i]))
  }

  /** `a.replace(q, q + q)`. */
  function Double(q: char, a: string): (r: string)
    ensures |r| >= |a|
  {
    if a == [] then []
    else (if a[0] == q then [q, q] else [a[0]]) + Double(q, a[1..])
  }

  /** `q + a.replace(q, q + q) + q`. */
  function Quoted(q: char, a: string): string {
    [q] + Double(q, a) + [q]
  }

  /** The inner `q` of `_bat_join` / `_ps1_join`: the empty argument becomes
      an empty quoted string, an argument with whitespace or a trigger is
      quoted with its quote characters doubled, anything else is kept.
      The ensures only spell out the cases; what the quoting achieves is
      stated by `QuoteArgIsWord` and `JoinArgs`. */
  function QuoteArg(d: Dialect, a: string): (r: string)
    ensures a == [] ==> r == [QuoteOf(d), QuoteOf(d)]
    ensures a != [] && NeedsQuote(d, a) ==> r == Quoted(QuoteOf(d), a)
    ensures a != [] && !NeedsQuote(d, a) ==> r == a
  {
    if a == [] then [QuoteOf(d), QuoteOf(d)]
    else if NeedsQuote(d, a) then Quoted(QuoteOf(d), a)
    else a
  }

  function QuoteArgs(d: Dialect, args: seq<string>): (r: seq<string>)
    ensures |r| == |args|
    ensures forall i :: 0 <= i < |args| ==> r[i] == QuoteArg(d, args[i])
  {
    seq(|args|, i requires 0 <= i < |args| => QuoteArg(d, args[i]))
  }

  /** `_bat_join(args)` or `_ps1_join(args)`: each dialect's line is read
      back as the original vector, spaces and quotes included, whenever
      every argument is `Readable`. */
  function JoinArgs(d: Dialect, args: seq<string>): (r: string)
    ensures (forall i :: 0 <= i < |args| ==> Readable(d, args[i])) ==>
              Tokenize(QuoteOf(d), r) == args
  {
    var line := Join(QuoteArgs(d, args), " ");
    assert (forall i :: 0 <= i < |args| ==> Readable(d, args[i])) ==>
             Tokenize(QuoteOf(d), line) == args by {
      if forall i :: 0 <= i < |args| ==> Readable(d, args[i]) {
        QuotedArgsReadBack(d, args);
      }
    }
    line
  }

  // ---------------------------------------------------------------------
  // Reading a line back
  // ---------------------------------------------------------------------

  /** The body of a quoted word, `s` starting just after the opening quote:
      a doubled quote stands for one quote, a single quote closes the word.
      Returns the text and how many characters were consumed. */
  function ReadQuoted(q: char, s: string): (r: (string, nat))
    ensures r.1 <= |s|
    decreases |s|
  {
    if s == [] then ([], 0)
    else if s[0] == q then
      if |s| >= 2 && s[1] == q then
        var t := ReadQuoted(q, s[2..]);
        ([q] + t.0, t.1 + 2)
      else ([], 1)
    else
      var t := ReadQuoted(q, s[1..]);
      ([s[0]] + t.0, t.1 + 1)
  }

  /** Words separated by single spaces; a word opening with `q` is a quoted
      word, any other runs to the next space. */
  function Tokenize(q: char, s: string): seq<string>
    decreases |s|
  {
    if s == [] then []
    else if s[0] == q then
      var t := ReadQuoted(q, s[1..]);
      var j := 1 + t.1;
      [t.0] + (if j < |s| then Tokenize(q, s[j + 1..]) else [])
    else
      var j := Find(s, 0, ' ');
      [s[..j]] + (if j < |s| then Tokenize(q, s[j + 1..]) else [])
  }

  /** Doubling is undone by the reader, which stops at the closing quote. */
  lemma {:induction false} ReadQuotedDoubled(q: char, a: string, rest: string)
    requires rest == [] || rest[0] != q
    ensures ReadQuoted(q, Double(q, a) + [q] + rest) == (a, |Double(q, a)| + 1)
    decreases |a|
  {
    var s := Double(q, a) + [q] + rest;
    if a == [] {
      assert s == [q] + rest;
    } else {
      var tail := Double(q, a[1..]) + [q] + rest;
      ReadQuotedDoubled(q, a[1..], rest);
      if a[0] == q {
        assert s == [q, q] + tail;
        assert s[2..] == tail;
      } else {
        assert s == [a[0]] + tail;
        assert s[1..] == tail;
      }
      assert a == [a[0]] + a[1..];
    }
  }

  /** How `w` may stand for `a` on the line: quoted, or bare when `a` is
      non-empty, has no space and does not open with the quote. */
  predicate WordFor(q: char, w: string, a: string) {
    w == Quoted(q, a) || (w == a && a != [] && a[0] != q && ' ' !in a)
  }

  lemma TokenizeWord(q: char, w: string, a: string, rest: string)
    requires q != ' '
    requires WordFor(q, w, a)
    ensures Tokenize(q, w) == [a]
    ensures rest != [] ==> Tokenize(q, w + " " + rest) == [a] + Tokenize(q, rest)
  {
    var s := w + " " + rest;
    if w == Quoted(q, a) {
      var n := |Double(q, a)|;
      ReadQuotedDoubled(q, a, []);
      assert w[1..] == Double(q, a) + [q] + [];
      ReadQuotedDoubled(q, a, " " + rest);
      assert s[1..] == Double(q, a) + [q] + (" " + rest);
      assert s[0] == q;
      assert |w| == n + 2;
      assert s[n + 3..] == rest;
    } else {
      assert forall k :: 0 <= k < |a| ==> s[k] == a[k];
      assert s[|a|] == ' ';
      assert Find(s, 0, ' ') == |a|;
      assert Find(w, 0, ' ') == |a|;
      assert w[..|a|] == a;
      assert s[..|a|] == a;
      assert s[|a| + 1..] == rest;
    }
  }

  /** A line of words, each standing for its argument, reads back as the
      argument list. */
  lemma {:induction false} WordsRoundTrip(q: char, ws: seq<string>, args: seq<string>)
    requires q != ' '
    requires |ws| == |args|
    requires forall i :: 0 <= i < |ws| ==> WordFor(q, ws[i], args[i])
    ensures Tokenize(q, Join(ws, " ")) == args
    decreases |ws|
  {
    if |ws| == 1 {
      TokenizeWord(q, ws[0], args[0], []);
    } else if |ws| > 1 {
      var rest := Join(ws[1..], " ");
      WordsRoundTrip(q, ws[1..], args[1..]);
      assert rest != [] by {
        assert Tokenize(q, rest) != [];
      }
      TokenizeWord(q, ws[0], args[0], rest);
      assert args == [args[0]] + args[1..];
    }
  }

  /** When the joiner's output is read back as it was written: every
      argument is empty, gets quoted, or does not open with the quote. */
  predicate Readable(d: Dialect, a: string) {
    a == [] || NeedsQuote(d, a) || a[0] != QuoteOf(d)
  }

  lemma QuoteArgIsWord(d: Dialect, a: string)
    requires Readable(d, a)
    ensures WordFor(QuoteOf(d), QuoteArg(d, a), a)
  {
  }

  /** The quoted words, joined with single spaces, read back as the
      arguments whenever every argument is `Readable`. */
  lemma QuotedArgsReadBack(d: Dialect, args: seq<string>)
    requires forall i :: 0 <= i < |args| ==> Readable(d, args[i])
    ensures Tokenize(QuoteOf(d), Join(QuoteArgs(d, args), " ")) == args
  {
    forall i | 0 <= i < |args| ensures WordFor(QuoteOf(d), QuoteArgs(d, args)[i], args[i]) {
      QuoteArgIsWord(d, args[i]);
    }
    WordsRoundTrip(QuoteOf(d), QuoteArgs(d, args), args);
  }

  /** A vector with an embedded space and embedded double quotes survives
      the batch joiner. */
  lemma JoinArgsBatchExample()
    ensures Tokenize('"', JoinArgs(Batch, ["yt-dlp", "a \"b\" c"])) == ["yt-dlp", "a \"b\" c"]
  {
    assert IsSpace("a \"b\" c"[1]);
  }

  /** A vector with an embedded space and an apostrophe survives the
      PowerShell joiner. */
  lemma JoinArgsPowerShellExample()
    ensures Tokenize('\'', JoinArgs(PowerShell, ["yt-dlp", "it's here"])) == ["yt-dlp", "it's here"]
  {
    assert IsSpace("it's here"[4]);
  }

  /** As written, an argument that opens with the quote character but has no
      whitespace or trigger is emitted bare, so the line reads it back with
      its quotes removed. */
  lemma QuoteArgLosesQuotes()
    ensures JoinArgs(Batch, ["\"x\""]) == "\"x\""
    ensures Tokenize('"', JoinArgs(Batch, ["\"x\""])) == ["x"]
    ensures JoinArgs(PowerShell, ["'x'"]) == "'x'"
    ensures Tokenize('\'', JoinArgs(PowerShell, ["'x'"])) == ["x"]
  {
    assert !NeedsQuote(Batch, "\"x\"");
    assert !NeedsQuote(PowerShell, "'x'");
    ReadQuotedDoubled('"', "x", []);
    assert Double('"', "x") + ['"'] + [] == "x\"";
    ReadQuotedDoubled('\'', "x", []);
    assert Double('\'', "x") + ['\''] + [] == "x'";
  }

  // ---------------------------------------------------------------------
  // The joiners with the quote character added to the triggers
  // ---------------------------------------------------------------------

  /** `q` with the quote character itself forcing quotes. */
  function QuoteArgFixed(d: Dialect, a: string): (r: string)
    ensures WordFor(QuoteOf(d), r, a)
  {
    if a == [] || NeedsQuote(d, a) || QuoteOf(d) in a then Quoted(QuoteOf(d), a)
    else a
  }

  function JoinArgsFixed(d: Dialect, args: seq<string>): string {
    Join(seq(|args|, i requires 0 <= i < |args| => QuoteArgFixed(d, args[i])), " ")
  }

  /** With that fix every vector is read back unchanged. */
  lemma JoinArgsFixedRoundTrip(d: Dialect, args: seq<string>)
    ensures Tokenize(QuoteOf(d), JoinArgsFixed(d, args)) == args
  {
    var ws := seq(|args|, i requires 0 <= i < |args| => QuoteArgFixed(d, args[i]));
    WordsRoundTrip(QuoteOf(d), ws, args);
  }

  /** The fix only changes arguments that hold the quote character and would
      otherwise be left bare. */
  lemma QuoteArgFixedAgrees(d: Dialect, a: string)
    requires QuoteOf(d) !in a || a == [] || NeedsQuote(d, a)
    ensures QuoteArgFixed(d, a) == QuoteArg(d, a)
  {
  }
}
