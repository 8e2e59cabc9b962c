/**
 * What awk makes of a string assigned with -v: it is read as a string token, so escape sequences in it
 * are replaced (the awk utility of POSIX, "Lexical Conventions" and the -v option). The generated
 * scripts hand over keys and values this way (internal/remediate/sysctl.go, internal/remediate/logindefs.go).
 */
module AwkStrings {
  import opened Ids

  const BACKSLASH := '\\'

  /** Whether an awk keeps the backslash in front of a character whose escape POSIX leaves undefined. */
  type Keeps = char -> bool

  const SIMPLE: map<char, char> :=
    map['"' := '"', '/' := '/', '\\' := '\\', 'a' := '\U{7}', 'b' := '\U{8}', 'f' := '\U{c}',
        'n' := '\n', 'r' := '\r', 't' := '\t', 'v' := '\U{b}']

  predicate IsOctal(c: char) { '0' <= c <= '7' }

  /** How many of the first three characters are octal digits. */
  function Digits(s: string): (n: nat)
    ensures n <= |s| && n <= 3
  {
    if s == "" || !IsOctal(s[0]) then 0
    else if |s| == 1 || !IsOctal(s[1]) then 1
    else if |s| == 2 || !IsOctal(s[2]) then 2
    else 3
  }

  function OctalValue(s: string): nat {
    if s == "" then 0 else OctalValue(s[..|s| - 1]) * 8 + if IsOctal(s[|s| - 1]) then s[|s| - 1] as int - '0' as int else 0
  }

  /** What the front of a string token stands for, and how much of it that takes; a backslash at the very end is one. */
  function Front(keeps: Keeps, s: string): (string, nat)
    requires s != ""
  {
    if s[0] != BACKSLASH || |s| == 1 then ([s[0]], 1)
    else if IsOctal(s[1]) then ([(OctalValue(s[1..1 + Digits(s[1..])]) % 256) as char], 1 + Digits(s[1..]))
    else if s[1] in SIMPLE then ([SIMPLE[s[1]]], 2)
    else (if keeps(s[1]) then [BACKSLASH, s[1]] else [s[1]], 2)
  }

  function Unescaped(keeps: Keeps, s: string): string
    decreases |s|
  {
    if s == "" then "" else Front(keeps, s).0 + Unescaped(keeps, s[Front(keeps, s).1..])
  }

  function AwkValue(keeps: Keeps, v: ID): ID { ID(Unescaped(keeps, v.name)) }

  /** Every backslash is the last character or starts an undefined escape this awk keeps. */
  predicate Intact(keeps: Keeps, s: string)
    decreases |s|
  {
    || s == ""
    || if s[0] != BACKSLASH || |s| == 1 then Intact(keeps, s[1..])
       else !IsOctal(s[1]) && s[1] !in SIMPLE && keeps(s[1]) && Intact(keeps, s[2..])
  }

  lemma {:induction false} FrontTakes(keeps: Keeps, s: string)
    requires s != ""
    ensures var (text, size) := Front(keeps, s);
            && 1 <= |text| <= size <= |s| && (text == s[..size] || |text| < size)
            && (Intact(keeps, s) <==> text == s[..size] && Intact(keeps, s[size..]))
  {
    if s[0] == BACKSLASH && |s| > 1 && !IsOctal(s[1]) && s[1] !in SIMPLE { assert s[..2] == [s[0], s[1]]; }
  }

  lemma {:induction false} NeverLonger(keeps: Keeps, s: string)
    ensures |Unescaped(keeps, s)| <= |s| && (s != "" ==> Unescaped(keeps, s) != "")
    decreases |s|
  {
    if s != "" {
      FrontTakes(keeps, s);
      NeverLonger(keeps, s[Front(keeps, s).1..]);
    }
  }

  lemma {:induction false} IntactStays(keeps: Keeps, s: string)
    requires Intact(keeps, s)
    ensures Unescaped(keeps, s) == s
    decreases |s|
  {
    if s != "" {
      var size := Front(keeps, s).1;
      FrontTakes(keeps, s);
      IntactStays(keeps, s[size..]);
      assert s == s[..size] + s[size..];
    }
  }

  lemma {:induction false} OthersShrink(keeps: Keeps, s: string)
    requires !Intact(keeps, s)
    ensures |Unescaped(keeps, s)| < |s|
    decreases |s|
  {
    var (text, size) := Front(keeps, s);
    FrontTakes(keeps, s);
    NeverLonger(keeps, s[size..]);
    if text == s[..size] { OthersShrink(keeps, s[size..]); }
  }

  /** A string is left alone exactly when it is intact, and gets shorter otherwise. */
  lemma {:induction false} IntactExactlyWhen(keeps: Keeps, s: string)
    ensures Intact(keeps, s) <==> Unescaped(keeps, s) == s
    ensures Intact(keeps, s) <==> |Unescaped(keeps, s)| >= |s|
  {
    if Intact(keeps, s) { IntactStays(keeps, s); } else { OthersShrink(keeps, s); }
  }

  lemma {:induction false} PlainIsIntact(keeps: Keeps, s: string)
    requires BACKSLASH !in s
    ensures Intact(keeps, s)
  {
    if s != "" { PlainIsIntact(keeps, s[1..]); }
  }

  /** To an awk that drops undefined backslashes, a string is intact exactly when it has none before its last character. */
  lemma {:induction false} IntactWhereNoneIsKept(s: string)
    ensures Intact(c => false, s) <==> s == "" || BACKSLASH !in s[..|s| - 1]
  {
    if |s| > 1 {
      IntactWhereNoneIsKept(s[1..]);
      assert s[..|s| - 1] == [s[0]] + s[1..][..|s| - 2];
    } else if |s| == 1 {
      assert s[1..] == "" && s[..0] == "";
    }
  }

  // ---------------------------------------------------------------- the escapes one by one

  lemma {:induction false} FrontOf(keeps: Keeps, front: string, rest: string)
    requires front != "" && Front(keeps, front + rest).1 == |front|
    ensures Unescaped(keeps, front + rest) == Front(keeps, front + rest).0 + Unescaped(keeps, rest)
  {
    assert (front + rest)[|front|..] == rest;
  }

  /** The ten escapes that have a letter or a mark for a name. */
  predicate Named(c: char, meant: char) {
    || (c == '"' && meant == '"') || (c == '/' && meant == '/') || (c == '\\' && meant == '\\')
    || (c == 'a' && meant == '\U{7}') || (c == 'b' && meant == '\U{8}') || (c == 't' && meant == '\t')
    || (c == 'n' && meant == '\n') || (c == 'v' && meant == '\U{b}') || (c == 'f' && meant == '\U{c}') || (c == 'r' && meant == '\r')
  }

  /** They stand for their character, whatever follows. */
  lemma {:induction false} NamedEscape(keeps: Keeps, c: char, meant: char, rest: string)
    requires Named(c, meant)
    ensures Unescaped(keeps, ['\\', c] + rest) == [meant] + Unescaped(keeps, rest)
  {
    FrontOf(keeps, ['\\', c], rest);
  }

  /** Any other character that is no octal digit stays, with its backslash where this awk keeps it. */
  lemma {:induction false} UndefinedEscape(keeps: Keeps, c: char, rest: string)
    requires (forall meant :: !Named(c, meant)) && !('0' <= c <= '7')
    ensures Unescaped(keeps, ['\\', c] + rest) == (if keeps(c) then ['\\', c] else [c]) + Unescaped(keeps, rest)
  {
    assert c in SIMPLE ==> Named(c, SIMPLE[c]);
    FrontOf(keeps, ['\\', c], rest);
  }

  /** One to three octal digits, as many as there are, stand for the byte of that value. */
  lemma {:induction false} OctalEscapes(keeps: Keeps, digits: string, rest: string)
    requires 1 <= |digits| <= 3 && (forall c | c in digits :: '0' <= c <= '7') && (|digits| == 3 || rest == "" || !('0' <= rest[0] <= '7'))
    ensures Unescaped(keeps, "\\" + digits + rest) == [(OctalValue(digits) % 256) as char] + Unescaped(keeps, rest)
  {
    var s := "\\" + digits + rest;
    assert s[1..] == digits + rest && forall i | 0 <= i < |digits| :: digits[i] in digits;
    assert Digits(s[1..]) == |digits|;
    assert s[1..1 + |digits|] == digits;
    FrontOf(keeps, "\\" + digits, rest);
  }
}
