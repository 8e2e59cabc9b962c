/**
 * Printing command lines a POSIX shell reads back as the same words (internal/remediate/engine.go),
 * by the quoting rules of section 2.2 and the token recognition of section 2.3 of the POSIX Shell
 * Command Language.
 */
module Shell {
  import opened Basics
  import Text

  const QUOTE: char := '\''

  // ---------------------------------------------------------------- printing

  const SAFE_MARKS: set<char> := {'-', '_', '.', '/', '=', ':', ',', '+', '@'}

  /** The characters left unquoted: deliberately few. */
  predicate IsSafe(c: char) {
    'a' <= c <= 'z' || 'A' <= c <= 'Z' || '0' <= c <= '9' || c in SAFE_MARKS
  }

  /** strings.ReplaceAll(s, "'", `'\''`). */
  function Escaped(s: string): string {
    if s == "" then "" else EscapedChar(s[0]) + Escaped(s[1..])
  }

  function EscapedChar(c: char): string {
    if c == QUOTE then [QUOTE, '\\', QUOTE, QUOTE] else [c]
  }

  predicate AllSafe(s: string) {
    forall i | 0 <= i < |s| :: IsSafe(s[i])
  }

  function Quoted(s: string): string {
    if s == "" then [QUOTE, QUOTE]
    else if AllSafe(s) then s
    else [QUOTE] + Escaped(s) + [QUOTE]
  }

  method ShellQuote(s: string) returns (r: string)
    ensures r == Quoted(s)
  {
    if s == "" { return [QUOTE, QUOTE]; }
    var safe := true;
    for k := 0 to |s|
      invariant safe && forall i | 0 <= i < k :: IsSafe(s[i])
    {
      safe := IsSafe(s[k]);
      if !safe { break; }
    }
    if safe { return s; }
    return [QUOTE] + Escaped(s) + [QUOTE];
  }

  /** The quoted words, one space between them. */
  function Line(argv: seq<string>): string {
    if argv == [] then "" else if |argv| == 1 then Quoted(argv[0]) else Quoted(argv[0]) + [' '] + Line(argv[1..])
  }

  /** command: quote every word and join them. */
  method Command(argv: seq<string>) returns (line: string)
    ensures line == Line(argv)
  {
    var out: seq<string> := [];
    for k := 0 to |argv|
      invariant |out| == k && forall i | 0 <= i < k :: out[i] == Quoted(argv[i])
    {
      var q := ShellQuote(argv[k]);
      out := out + [q];
    }
    if out == [] { return ""; }
    JoinIsLine(argv, out);
    line := Text.Join(out, ' ');
  }

  lemma {:induction false} JoinIsLine(argv: seq<string>, out: seq<string>)
    requires |out| == |argv| > 0 && forall i | 0 <= i < |out| :: out[i] == Quoted(argv[i])
    ensures Text.Join(out, ' ') == Line(argv)
  {
    if |argv| > 1 { JoinIsLine(argv[1..], out[1..]); }
  }

  // ---------------------------------------------------------------- reading

  /** Characters that, unquoted, are operators, expansions, patterns, comments or reserved. */
  const SPECIAL: set<char> := {
    '|', '&', ';', '<', '>', '(', ')', '$', '`', '\"', '*', '?', '[', ']', '#', '~', '%', '!', '{', '}', '^', '\n'}

  predicate IsSpecial(c: char) { c in SPECIAL }

  /** The word so far; none between words. */
  type Word = Option<string>

  function Grown(w: Word, s: string): Word {
    Some(if w.Some? then w.value + s else s)
  }

  function Ended(w: Word, rest: Option<seq<string>>): Option<seq<string>> {
    if w.None? || rest.None? then rest else Some([w.value] + rest.value)
  }

  /**
   * The words of one command line, or nothing when a quote is left open, a backslash ends the line or
   * joins it to the next, or an unquoted character would be expanded or read as an operator.
   */
  function Tokens(s: string, w: Word): Option<seq<string>>
    decreases |s|
  {
    if s == "" then Ended(w, Some([]))
    else if s[0] == ' ' || s[0] == '\t' then Ended(w, Tokens(s[1..], None))
    else if s[0] == QUOTE then
      var i := Text.IndexOf(s[1..], QUOTE);
      if i == |s| - 1 then None else Tokens(s[i + 2..], Grown(w, s[1..][..i]))
    else if s[0] == '\\' then
      if |s| == 1 || s[1] == '\n' then None else Tokens(s[2..], Grown(w, [s[1]]))
    else if IsSpecial(s[0]) then None
    else Tokens(s[1..], Grown(w, [s[0]]))
  }

  // ---------------------------------------------------------------- what was printed is read back

  lemma {:induction false} SafeIsPlain(c: char)
    requires IsSafe(c)
    ensures c != ' ' && c != '\t' && c != QUOTE && c != '\\' && !IsSpecial(c)
  {
  }

  lemma {:induction false} ReadsSafeChar(c: char, rest: string, w: Word)
    requires IsSafe(c)
    ensures Tokens([c] + rest, w) == Tokens(rest, Grown(w, [c]))
  {
    SafeIsPlain(c);
    assert ([c] + rest)[1..] == rest;
  }

  lemma {:induction false} ReadsSafe(s: string, rest: string, w: Word)
    requires s != "" && AllSafe(s)
    ensures Tokens(s + rest, w) == Tokens(rest, Grown(w, s))
  {
    var c, t := s[0], s[1..];
    assert s == [c] + t;
    Regroup([c], t, rest);
    ReadsSafeChar(c, t + rest, w);
    if t == "" {
      assert t + rest == rest;
    } else {
      ReadsSafe(t, rest, Grown(w, [c]));
      if w.Some? { Regroup(w.value, [c], t); }
    }
  }

  lemma {:induction false} EscapedConcat(a: string, b: string)
    ensures Escaped(a + b) == Escaped(a) + Escaped(b)
  {
    if a == "" {
      assert a + b == b;
    } else {
      EscapedConcat(a[1..], b);
      assert (a + b)[0] == a[0] && (a + b)[1..] == a[1..] + b;
      Regroup(EscapedChar(a[0]), Escaped(a[1..]), Escaped(b));
    }
  }

  lemma {:induction false} EscapedPlain(a: string)
    requires QUOTE !in a
    ensures Escaped(a) == a
  {
    if a != "" {
      assert a[0] in a && forall c | c in a[1..] :: c in a;
      EscapedPlain(a[1..]);
    }
  }

  /** A quoted stretch without quotes in it is taken over whole. */
  lemma {:induction false} ReadsQuotes(a: string, rest: string, w: Word)
    requires QUOTE !in a
    ensures Tokens([QUOTE] + a + [QUOTE] + rest, w) == Tokens(rest, Grown(w, a))
  {
    var s := [QUOTE] + a + [QUOTE] + rest;
    Text.IndexOfFirst(a, rest, QUOTE);
    assert s[1..] == a + [QUOTE] + rest;
    assert s[1..][..|a|] == a && s[|a| + 2..] == rest;
  }

  lemma {:induction false} ReadsBackslash(c: char, rest: string, w: Word)
    requires c != '\n'
    ensures Tokens(['\\', c] + rest, w) == Tokens(rest, Grown(w, [c]))
  {
    assert (['\\', c] + rest)[2..] == rest;
  }

  lemma {:induction false} ReadsEscaped(s: string, rest: string, w: Word)
    ensures Tokens([QUOTE] + Escaped(s) + [QUOTE] + rest, w) == Tokens(rest, Grown(w, s))
    decreases |s|
  {
    Text.IndexOfFinds(s, QUOTE);
    var i := Text.IndexOf(s, QUOTE);
    if i == |s| {
      EscapedPlain(s);
      ReadsQuotes(s, rest, w);
    } else {
      var a, b := s[..i], s[i + 1..];
      assert s == a + [QUOTE] + b;
      SplitEscaped(a, b);
      var tail := [QUOTE] + Escaped(b) + [QUOTE] + rest;
      QuotePieces(a, Escaped(b), rest);
      ReadsQuotes(a, ['\\', QUOTE] + tail, w);
      ReadsBackslash(QUOTE, tail, Grown(w, a));
      ReadsEscaped(b, rest, Grown(Grown(w, a), [QUOTE]));
      GrownTwice(w, a, b, s);
    }
  }

  lemma {:induction false} SplitEscaped(a: string, b: string)
    requires QUOTE !in a
    ensures Escaped(a + [QUOTE] + b) == a + [QUOTE, '\\', QUOTE, QUOTE] + Escaped(b)
  {
    EscapedConcat(a + [QUOTE], b);
    EscapedConcat(a, [QUOTE]);
    EscapedPlain(a);
    assert [QUOTE][1..] == "" && Escaped([QUOTE]) == [QUOTE, '\\', QUOTE, QUOTE];
  }

  /** An escaped quote closes the quotes, escapes one, and opens them again. */
  lemma {:induction false} QuotePieces(a: string, b: string, rest: string)
    ensures [QUOTE] + (a + [QUOTE, '\\', QUOTE, QUOTE] + b) + [QUOTE] + rest ==
              [QUOTE] + a + [QUOTE] + (['\\', QUOTE] + ([QUOTE] + b + [QUOTE] + rest))
  {
  }

  lemma {:induction false} GrownTwice(w: Word, a: string, b: string, s: string)
    requires s == a + [QUOTE] + b
    ensures Grown(Grown(Grown(w, a), [QUOTE]), b) == Grown(w, s)
  {
    if w.Some? { assert w.value + a + [QUOTE] + b == w.value + s; }
  }

  /** However a word is printed, it is read as the word. */
  lemma {:induction false} ReadsQuoted(s: string, rest: string)
    ensures Tokens(Quoted(s) + rest, None) == Tokens(rest, Some(s))
  {
    if s == "" {
      ReadsQuotes("", rest, None);
      assert [QUOTE] + "" + [QUOTE] + rest == [QUOTE, QUOTE] + rest;
    } else if AllSafe(s) {
      ReadsSafe(s, rest, None);
    } else {
      ReadsEscaped(s, rest, None);
    }
  }

  lemma {:induction false} SpaceEndsWord(s: string, rest: string)
    ensures Tokens([' '] + rest, Some(s)) == Ended(Some(s), Tokens(rest, None))
  {
    assert ([' '] + rest)[1..] == rest;
  }

  /** Tokenizing a printed line gives back exactly the words, with nothing left open to expansion. */
  lemma {:induction false} PrintedLineReadsBack(argv: seq<string>)
    ensures Tokens(Line(argv), None) == Some(argv)
  {
    if |argv| == 1 {
      ReadsQuoted(argv[0], "");
      assert Quoted(argv[0]) + "" == Quoted(argv[0]);
      assert argv == [argv[0]] + [];
    } else if |argv| > 1 {
      var first, rest := argv[0], argv[1..];
      Regroup(Quoted(first), [' '], Line(rest));
      ReadsQuoted(first, [' '] + Line(rest));
      SpaceEndsWord(first, Line(rest));
      PrintedLineReadsBack(rest);
      assert argv == [first] + rest;
    }
  }
}
