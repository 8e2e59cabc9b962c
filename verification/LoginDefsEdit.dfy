/**
 * Setting a key in login.defs, where the first definition wins: the awk program of
 * internal/remediate/logindefs.go against the parser of internal/collect/collectors/auth/logindefs.go
 * and the readings of internal/fact/logindefs.go.
 */
module LoginDefsEdit {
  import opened Basics
  import opened Ids
  import opened LineEdit
  import opened AwkStrings
  import Text

  const BLANKS: set<char> := {' ', '\t'}

  // ---------------------------------------------------------------- reading: the first definition wins

  datatype Setting = Setting(key: ID, value: ID)

  type Reader = Line -> Option<Setting>

  predicate IsSetting(parse: Reader, l: Line, key: ID) {
    parse(l).Some? && parse(l).value.key == key
  }

  /** The value in force for a key. */
  function Effective(parse: Reader, lines: seq<Line>, key: ID): Option<ID> {
    if lines == [] then None
    else if IsSetting(parse, lines[0], key) then Some(parse(lines[0]).value.value)
    else Effective(parse, lines[1..], key)
  }

  lemma {:induction false} EffectiveConcat(parse: Reader, a: seq<Line>, b: seq<Line>, key: ID)
    ensures Effective(parse, a + b, key) == if Effective(parse, a, key).Some? then Effective(parse, a, key) else Effective(parse, b, key)
  {
    if a == [] {
      assert a + b == b;
    } else {
      EffectiveConcat(parse, a[1..], b, key);
      assert (a + b)[1..] == a[1..] + b;
    }
  }

  /** Effective's loop. */
  method FirstValue(parse: Reader, lines: seq<Line>, key: ID) returns (v: Option<ID>)
    ensures v == Effective(parse, lines, key)
  {
    assert lines[0..] == lines;
    for k := 0 to |lines|
      invariant Effective(parse, lines[k..], key) == Effective(parse, lines, key)
    {
      assert lines[k..][1..] == lines[k + 1..];
      if IsSetting(parse, lines[k], key) { return Some(parse(lines[k]).value.value); }
    }
    return None;
  }

  // ---------------------------------------------------------------- the rewriting rule

  /** The program's remark, written as a comment like the lines it disables. */
  const NOTE := Disabled(Line(" disabled by plumbline: login.defs takes the first match, so this line was never read"))

  function Disabled(l: Line): Line { Line("#" + l.text) }

  /** What becomes of one line: the first of the key is rewritten, later ones are commented out. */
  ghost function Replaced(keyOf: KeyOf, above: seq<Line>, l: Line, key: ID, w: Line): seq<Line> {
    if keyOf(l) != key then [l]
    else if HasKey(keyOf, above, key) then [NOTE, Disabled(l)]
    else [w]
  }

  ghost function Pass(keyOf: KeyOf, lines: seq<Line>, key: ID, w: Line): seq<Line> {
    if lines == [] then []
    else
      var n := |lines| - 1;
      Pass(keyOf, lines[..n], key, w) + Replaced(keyOf, lines[..n], lines[n], key, w)
  }

  ghost function Rewritten(keyOf: KeyOf, lines: seq<Line>, key: ID, w: Line): seq<Line> {
    Pass(keyOf, lines, key, w) + if HasKey(keyOf, lines, key) then [] else [w]
  }

  method SetLogin(keyOf: KeyOf, lines: seq<Line>, key: ID, w: Line) returns (out: seq<Line>)
    ensures out == Rewritten(keyOf, lines, key, w)
  {
    out := [];
    var done := false;
    for n := 0 to |lines|
      invariant done <==> HasKey(keyOf, lines[..n], key)
      invariant out == Pass(keyOf, lines[..n], key, w)
    {
      NextLine(keyOf, lines, n, key, w);
      if keyOf(lines[n]) != key {
        out := out + [lines[n]];
      } else if !done {
        out := out + [w];
        done := true;
      } else {
        out := out + [NOTE, Disabled(lines[n])];
      }
    }
    assert lines[..|lines|] == lines;
    if !done { out := out + [w]; } else { assert out + [] == out; }
  }

  lemma {:induction false} NextLine(keyOf: KeyOf, lines: seq<Line>, n: nat, key: ID, w: Line)
    requires n < |lines|
    ensures HasKey(keyOf, lines[..n + 1], key) <==> HasKey(keyOf, lines[..n], key) || keyOf(lines[n]) == key
    ensures Pass(keyOf, lines[..n + 1], key, w) == Pass(keyOf, lines[..n], key, w) + Replaced(keyOf, lines[..n], lines[n], key, w)
  {
    assert lines[..n + 1] == lines[..n] + [lines[n]];
    assert lines[..n + 1][..n] == lines[..n];
    HasKeyConcat(keyOf, lines[..n], [lines[n]], key);
    HasKeyOne(keyOf, lines[n], key);
  }

  lemma {:induction false} PassSnoc(keyOf: KeyOf, above: seq<Line>, l: Line, key: ID, w: Line)
    ensures Pass(keyOf, above + [l], key, w) == Pass(keyOf, above, key, w) + Replaced(keyOf, above, l, key, w)
  {
    assert (above + [l])[..|above|] == above;
  }

  /** The program's own lines set nothing. */
  ghost predicate CommentsOut(keyOf: KeyOf, key: ID) {
    keyOf(NOTE) != key && forall l :: keyOf(Disabled(l)) != key
  }

  lemma {:induction false} PassKeepsKey(keyOf: KeyOf, lines: seq<Line>, key: ID, w: Line)
    requires keyOf(w) == key && CommentsOut(keyOf, key)
    ensures HasKey(keyOf, Pass(keyOf, lines, key, w), key) <==> HasKey(keyOf, lines, key)
  {
    if lines != [] {
      var n := |lines| - 1;
      var above, l := lines[..n], lines[n];
      PassKeepsKey(keyOf, above, key, w);
      assert lines == above + [l];
      HasKeyConcat(keyOf, above, [l], key);
      HasKeyOne(keyOf, l, key);
      HasKeyConcat(keyOf, Pass(keyOf, above, key, w), Replaced(keyOf, above, l, key, w), key);
      HasKeyOne(keyOf, w, key);
    }
  }

  /** What the program wrote it leaves alone. */
  lemma {:induction false} PassTwice(keyOf: KeyOf, lines: seq<Line>, key: ID, w: Line)
    requires keyOf(w) == key && CommentsOut(keyOf, key)
    ensures Pass(keyOf, Pass(keyOf, lines, key, w), key, w) == Pass(keyOf, lines, key, w)
  {
    if lines != [] {
      var n := |lines| - 1;
      var above, l := lines[..n], lines[n];
      var r := Pass(keyOf, above, key, w);
      PassTwice(keyOf, above, key, w);
      PassKeepsKey(keyOf, above, key, w);
      ReplacedTwice(keyOf, r, HasKey(keyOf, above, key), l, key, w);
    }
  }

  /** What replaced one line is left alone, after lines that are left alone. */
  lemma {:induction false} ReplacedTwice(keyOf: KeyOf, r: seq<Line>, had: bool, l: Line, key: ID, w: Line)
    requires keyOf(w) == key && CommentsOut(keyOf, key) && Pass(keyOf, r, key, w) == r && HasKey(keyOf, r, key) == had
    ensures var next := r + if keyOf(l) != key then [l] else if had then [NOTE, Disabled(l)] else [w];
            Pass(keyOf, next, key, w) == next
  {
    if keyOf(l) != key {
      PassSnoc(keyOf, r, l, key, w);
    } else if !had {
      PassSnoc(keyOf, r, w, key, w);
    } else {
      PassSnoc(keyOf, r, NOTE, key, w);
      PassSnoc(keyOf, r + [NOTE], Disabled(l), key, w);
      assert r + [NOTE, Disabled(l)] == r + [NOTE] + [Disabled(l)];
    }
  }

  /** Running the program twice is running it once. */
  lemma {:induction false} RewrittenTwice(keyOf: KeyOf, lines: seq<Line>, key: ID, w: Line)
    requires keyOf(w) == key && CommentsOut(keyOf, key)
    ensures Rewritten(keyOf, Rewritten(keyOf, lines, key, w), key, w) == Rewritten(keyOf, lines, key, w)
  {
    var r := Pass(keyOf, lines, key, w);
    PassTwice(keyOf, lines, key, w);
    PassKeepsKey(keyOf, lines, key, w);
    if HasKey(keyOf, lines, key) {
      assert r + [] == r;
    } else {
      PassSnoc(keyOf, r, w, key, w);
      HasKeyConcat(keyOf, r, [w], key);
      HasKeyOne(keyOf, w, key);
      assert r + [w] + [] == r + [w];
    }
  }

  // ---------------------------------------------------------------- what is in force afterwards

  /** The lines above the first one the program takes for the key. */
  function Before(keyOf: KeyOf, lines: seq<Line>, key: ID): seq<Line> {
    if lines == [] || keyOf(lines[0]) == key then [] else [lines[0]] + Before(keyOf, lines[1..], key)
  }

  lemma {:induction false} BeforeIsFirst(keyOf: KeyOf, lines: seq<Line>, key: ID)
    ensures Before(keyOf, lines, key) <= lines && !HasKey(keyOf, Before(keyOf, lines, key), key)
    ensures var n := |Before(keyOf, lines, key)|; n < |lines| ==> keyOf(lines[n]) == key
  {
    if lines != [] && keyOf(lines[0]) != key {
      BeforeIsFirst(keyOf, lines[1..], key);
      HasKeyConcat(keyOf, [lines[0]], Before(keyOf, lines[1..], key), key);
      HasKeyOne(keyOf, lines[0], key);
    }
  }

  lemma {:induction false} PassWithoutKey(keyOf: KeyOf, lines: seq<Line>, key: ID, w: Line)
    requires !HasKey(keyOf, lines, key)
    ensures Pass(keyOf, lines, key, w) == lines
  {
    if lines != [] {
      var n := |lines| - 1;
      assert lines == lines[..n] + [lines[n]];
      HasKeyConcat(keyOf, lines[..n], [lines[n]], key);
      HasKeyOne(keyOf, lines[n], key);
      PassWithoutKey(keyOf, lines[..n], key, w);
    }
  }

  lemma {:induction false} PassPrefix(keyOf: KeyOf, lines: seq<Line>, n: nat, key: ID, w: Line)
    requires n <= |lines|
    ensures Pass(keyOf, lines[..n], key, w) <= Pass(keyOf, lines, key, w)
  {
    if n == |lines| {
      assert lines[..n] == lines;
    } else {
      PassPrefix(keyOf, lines[..|lines| - 1], n, key, w);
      assert lines[..|lines| - 1][..n] == lines[..n];
    }
  }

  /** The result starts with the untouched lines above the first definition, then the wanted line. */
  lemma {:induction false} StartsWithWanted(keyOf: KeyOf, lines: seq<Line>, key: ID, w: Line)
    ensures Before(keyOf, lines, key) + [w] <= Rewritten(keyOf, lines, key, w)
  {
    var b := Before(keyOf, lines, key);
    var n := |b|;
    BeforeIsFirst(keyOf, lines, key);
    PassWithoutKey(keyOf, b, key, w);
    if n < |lines| {
      assert lines[..n] == b;
      NextLine(keyOf, lines, n, key, w);
      PassPrefix(keyOf, lines, n + 1, key, w);
    } else {
      assert b == lines;
    }
  }

  /**
   * Afterwards the key's value is the wanted one, unless the reader already takes some line above the
   * first one the program recognises for a definition: then that line stays in force, exactly.
   */
  lemma {:induction false} WhatIsInForce(keyOf: KeyOf, parse: Reader, lines: seq<Line>, key: ID, w: Line, value: ID)
    requires parse(w) == Some(Setting(key, value))
    ensures var hidden := Effective(parse, Before(keyOf, lines, key), key);
            Effective(parse, Rewritten(keyOf, lines, key, w), key) == if hidden.Some? then hidden else Some(value)
  {
    var b, r := Before(keyOf, lines, key), Rewritten(keyOf, lines, key, w);
    StartsWithWanted(keyOf, lines, key, w);
    var n := |b|;
    assert r == (b + [w]) + r[n + 1..];
    EffectiveConcat(parse, b + [w], r[n + 1..], key);
    EffectiveConcat(parse, b, [w], key);
    assert [w][0] == w;
  }

  /** A line the program takes for the key is no definition of another. */
  ghost predicate NoOther(keyOf: KeyOf, parse: Reader, key: ID, other: ID) {
    forall l | keyOf(l) == key :: !IsSetting(parse, l, other)
  }

  ghost predicate CommentsUnread(parse: Reader) {
    parse(NOTE).None? && forall l :: parse(Disabled(l)).None?
  }

  lemma {:induction false} OneUnread(parse: Reader, l: Line, key: ID)
    requires !IsSetting(parse, l, key)
    ensures Effective(parse, [l], key).None?
  {
    assert [l][1..] == [];
  }

  lemma {:induction false} PassKeepsOther(keyOf: KeyOf, parse: Reader, lines: seq<Line>, key: ID, w: Line, other: ID)
    requires NoOther(keyOf, parse, key, other) && CommentsUnread(parse) && !IsSetting(parse, w, other)
    ensures Effective(parse, Pass(keyOf, lines, key, w), other) == Effective(parse, lines, other)
  {
    if lines != [] {
      var n := |lines| - 1;
      var above, l := lines[..n], lines[n];
      assert lines == above + [l];
      PassKeepsOther(keyOf, parse, above, key, w, other);
      EffectiveConcat(parse, above, [l], other);
      EffectiveConcat(parse, Pass(keyOf, above, key, w), Replaced(keyOf, above, l, key, w), other);
      if keyOf(l) == key {
        OneUnread(parse, l, other);
        OneUnread(parse, w, other);
        OneUnread(parse, NOTE, other);
        OneUnread(parse, Disabled(l), other);
        EffectiveConcat(parse, [NOTE], [Disabled(l)], other);
        assert [NOTE, Disabled(l)] == [NOTE] + [Disabled(l)];
      }
    }
  }

  /** Every other key keeps the value it had. */
  lemma {:induction false} OthersKeepTheirValue(keyOf: KeyOf, parse: Reader, lines: seq<Line>, key: ID, w: Line, other: ID)
    requires NoOther(keyOf, parse, key, other) && CommentsUnread(parse) && !IsSetting(parse, w, other)
    ensures Effective(parse, Rewritten(keyOf, lines, key, w), other) == Effective(parse, lines, other)
  {
    PassKeepsOther(keyOf, parse, lines, key, w, other);
    if !HasKey(keyOf, lines, key) {
      EffectiveConcat(parse, Pass(keyOf, lines, key, w), [w], other);
      OneUnread(parse, w, other);
    } else {
      assert Pass(keyOf, lines, key, w) + [] == Pass(keyOf, lines, key, w);
    }
  }

  // ---------------------------------------------------------------- the program's key and the parser's setting

  /** Everything up to the first blank. */
  function Field(s: string): string {
    if s == "" || s[0] in BLANKS then "" else [s[0]] + Field(s[1..])
  }

  /** The key the awk program compares; comments and blank lines have none. */
  function AwkKey(l: Line): ID {
    var body := Text.DropLeft(l.text, BLANKS);
    if body == "" || body[0] == '#' then ID("") else ID(Field(body))
  }

  /** strings.Cut. */
  function Cut(s: string, c: char): Option<(string, string)> {
    var i := Text.IndexOf(s, c);
    if i == |s| then None else Some((s[..i], s[i + 1..]))
  }

  /** The value without a trailing comment. */
  function ValueOf(rest: string): string {
    var v := Text.TrimSpace(rest);
    var i := Text.IndexOf(v, '#');
    if i == |v| then v else Text.TrimSpace(v[..i])
  }

  /** parseLoginDefsLine: a key, a space or else a tab, and a value. */
  function GoReads(l: Line): Option<Setting> {
    var line := Text.TrimSpace(l.text);
    if line == "" || line[0] == '#' then None
    else
      var parts := if Cut(line, ' ').Some? then Cut(line, ' ') else Cut(line, '\t');
      if parts.None? || '=' in parts.value.0 then None
      else
        var v := ValueOf(parts.value.1);
        if Text.TrimSpace(parts.value.1) == "" || v == "" then None else Some(Setting(ID(parts.value.0), ID(v)))
  }

  /** The awk program on a file; what it compares and writes is what -v makes of the key and the value. */
  method AwkLoginDefsSet(keeps: Keeps, file: string, key: ID, value: ID) returns (text: string)
    requires key != ID("")
    ensures var k, v := AwkValue(keeps, key), AwkValue(keeps, value);
            text == Unlines(Rewritten(AwkKey, SplitLines(file), k, Written(k, v)))
  {
    var k, v := AwkValue(keeps, key), AwkValue(keeps, value);
    var out := SetLogin(AwkKey, SplitLines(file), k, Written(k, v));
    text := Unlines(out);
  }

  function Written(key: ID, value: ID): Line { Line(key.name + " " + value.name) }

  /** A key of login.defs: no space of any kind, no "=", not the start of a comment. */
  predicate PlainKey(key: ID) {
    var n := key.name;
    n != "" && n[0] != '#' && '=' !in n && forall c | c in n :: !Text.IsSpace(c)
  }

  predicate PlainValue(value: ID) {
    value.name != "" && Text.Trimmed(value.name) && '#' !in value.name
  }

  /** The line is indented by something awk does not count as blank, or by nothing odd at all. */
  predicate PlainlyIndented(l: Line) {
    Text.TrimLeft(l.text) == Text.DropLeft(l.text, BLANKS)
  }

  lemma {:induction false} FieldIsPrefix(a: string, b: string)
    requires (forall c | c in a :: c !in BLANKS) && (b == "" || b[0] in BLANKS)
    ensures Field(a + b) == a
  {
    if a == [] {
      assert a + b == b;
    } else {
      assert a[0] in a && forall c | c in a[1..] :: c in a;
      FieldIsPrefix(a[1..], b);
      assert (a + b)[1..] == a[1..] + b;
      assert a == [a[0]] + a[1..];
    }
  }

  lemma {:induction false} WrittenReadsBack(key: ID, value: ID)
    requires PlainKey(key) && PlainValue(value)
    ensures GoReads(Written(key, value)) == Some(Setting(key, value))
    ensures AwkKey(Written(key, value)) == key
  {
    ParserReadsBack(key, value);
    ProgramReadsBack(key, value);
  }

  lemma {:induction false} ParserReadsBack(key: ID, value: ID)
    requires PlainKey(key) && PlainValue(value)
    ensures GoReads(Written(key, value)) == Some(Setting(key, value))
  {
    var n, v := key.name, value.name;
    var text := n + [' '] + v;
    assert text == Written(key, value).text;
    assert n[0] in n && text[0] == n[0] && text[|text| - 1] == v[|v| - 1];
    Text.TrimmedStays(text);
    assert forall c | c in n :: c != ' ' by { assert Text.IsSpace(' '); }
    Text.IndexOfFirst(n, v, ' ');
    assert Text.IndexOf(text, ' ') == |n| && text[..|n|] == n && text[|n| + 1..] == v;
    Text.TrimmedStays(v);
    Text.IndexOfFirst(v, "", '#');
  }

  lemma {:induction false} ProgramReadsBack(key: ID, value: ID)
    requires PlainKey(key) && PlainValue(value)
    ensures AwkKey(Written(key, value)) == key
  {
    var n, v := key.name, value.name;
    var text := n + [' '] + v;
    assert text == Written(key, value).text;
    assert n[0] in n && text[0] == n[0];
    assert Text.DropLeft(text, BLANKS) == text by { assert Text.IsSpace('\t') && Text.IsSpace(' '); }
    assert forall c | c in n :: c !in BLANKS by { assert Text.IsSpace('\t') && Text.IsSpace(' '); }
    FieldIsPrefix(n, [' '] + v);
    assert text == n + ([' '] + v);
  }

  /** On a plainly indented line the program sees the key the parser sees. */
  lemma {:induction false} ProgramSeesWhatParserReads(l: Line, key: ID)
    requires PlainKey(key) && IsSetting(GoReads, l, key) && PlainlyIndented(l)
    ensures AwkKey(l) == key
  {
    var left := Text.TrimLeft(l.text);
    var line := Text.TrimSpace(l.text);
    var n := key.name;
    Text.TrimRightIsPrefix(left);
    CutKey(line, n);
    assert line <= left && line[|n|] in BLANKS && line[..|n|] == n;
    assert left == n + left[|n|..] && left[|n|..][0] == line[|n|];
    assert forall c | c in n :: c !in BLANKS by { assert Text.IsSpace('\t') && Text.IsSpace(' '); }
    FieldIsPrefix(n, left[|n|..]);
    assert left[0] == n[0];
  }

  /** Where the parser's key ends there is a blank. */
  lemma {:induction false} CutKey(line: string, n: string)
    requires var parts := if Cut(line, ' ').Some? then Cut(line, ' ') else Cut(line, '\t');
             parts.Some? && parts.value.0 == n
    ensures |n| < |line| && line[..|n|] == n && line[|n|] in BLANKS
  {
    Text.IndexOfFinds(line, ' ');
    Text.IndexOfFinds(line, '\t');
  }

  lemma {:induction false} FieldEnds(s: string)
    ensures Field(s) <= s && (|Field(s)| < |s| ==> s[|Field(s)|] in BLANKS)
    ensures forall i | 0 <= i < |Field(s)| :: s[i] !in BLANKS
  {
    if s != "" && s[0] !in BLANKS { FieldEnds(s[1..]); }
  }

  lemma {:induction false} CutIsField(body: string, line: string, other: string)
    requires line <= body && |other| < |line| && line[..|other|] == other && line[|other|] in BLANKS
    requires forall c | c in other :: c !in BLANKS
    ensures Field(body) == other
  {
    assert body == other + body[|other|..] && body[|other|..][0] == line[|other|];
    FieldIsPrefix(other, body[|other|..]);
  }

  lemma {:induction false} ParserKey(l: Line, other: ID)
    requires IsSetting(GoReads, l, other)
    ensures var line := Text.TrimSpace(l.text); |other.name| < |line| && line[..|other.name|] == other.name && line[|other.name|] in BLANKS
  {
    CutKey(Text.TrimSpace(l.text), other.name);
  }

  lemma {:induction false} ProgramTrims(l: Line, key: ID)
    requires PlainKey(key) && AwkKey(l) == key
    ensures var body := Text.DropLeft(l.text, BLANKS); ID(Field(body)) == key && Text.TrimSpace(l.text) <= body
  {
    var body := Text.DropLeft(l.text, BLANKS);
    FieldEnds(body);
    assert body[0] == key.name[0] && key.name[0] in key.name;
    TrimsAlike(l.text);
    Text.TrimRightIsPrefix(body);
  }

  /** other is the key, a tab, and something without a space or "=". */
  predicate TabbedUnder(key: ID, other: ID) {
    key.name + "\t" <= other.name && ' ' !in other.name && '=' !in other.name
  }

  /** The parser cuts at the first space, and at a tab only where there is none. */
  lemma {:induction false} ParserKeyHas(l: Line, other: ID)
    requires IsSetting(GoReads, l, other)
    ensures ' ' !in other.name && '=' !in other.name
  {
    var line := Text.TrimSpace(l.text);
    Text.IndexOfFinds(line, ' ');
    Text.IndexOfFinds(line, '\t');
    assert forall c | c in line[..Text.IndexOf(line, '\t')] :: c in line;
  }

  /** On a line the program takes for the key, the parser reads that key, or one tabbed under it. */
  lemma {:induction false} SameKey(l: Line, key: ID, other: ID)
    requires PlainKey(key) && AwkKey(l) == key && IsSetting(GoReads, l, other)
    ensures other == key || TabbedUnder(key, other)
  {
    ParserKey(l, other);
    ParserKeyHas(l, other);
    ProgramTrims(l, key);
    var body, line, k := Text.DropLeft(l.text, BLANKS), Text.TrimSpace(l.text), |key.name|;
    FieldEnds(body);
    if '\t' !in other.name {
      assert forall c | c in other.name :: c !in BLANKS;
      CutIsField(body, line, other.name);
    } else {
      FirstTab(body, line, key.name, other.name);
    }
  }

  lemma {:induction false} FirstTab(body: string, line: string, key: string, other: string)
    requires line <= body && other <= line && '\t' in other && ' ' !in other
    requires key <= body && (|key| < |body| ==> body[|key|] in BLANKS) && forall i | 0 <= i < |key| :: body[i] !in BLANKS
    ensures key + "\t" <= other
  {
    var j :| 0 <= j < |other| && other[j] == '\t';
    assert body[j] == '\t';
    assert |key| <= j;
    assert body[|key|] == other[|key|] && other[|key|] in other;
  }

  /** A line the program takes for the key defines no other key, unless one tabbed under it. */
  lemma {:induction false} ParserReadsNoOther(l: Line, key: ID, other: ID)
    requires PlainKey(key) && AwkKey(l) == key && key != other && !TabbedUnder(key, other)
    ensures !IsSetting(GoReads, l, other)
  {
    if IsSetting(GoReads, l, other) { SameKey(l, key, other); }
  }

  /** Where the first thing after the blanks is no space, both trimmings agree. */
  lemma {:induction false} TrimsAlike(s: string)
    requires var body := Text.DropLeft(s, BLANKS); body != "" && !Text.IsSpace(body[0])
    ensures Text.TrimLeft(s) == Text.DropLeft(s, BLANKS)
  {
    if s != "" && s[0] in BLANKS {
      assert Text.IsSpace(' ') && Text.IsSpace('\t');
      TrimsAlike(s[1..]);
    }
  }

  lemma {:induction false} CommentsAreIgnored(l: Line)
    requires l.text != "" && l.text[0] == '#'
    ensures AwkKey(l) == ID("") && GoReads(l).None?
  {
    assert !Text.IsSpace('#');
    assert Text.TrimLeft(l.text) == l.text;
    TrimRightKeepsHead(l.text);
  }

  lemma {:induction false} TrimRightKeepsHead(s: string)
    requires s != "" && !Text.IsSpace(s[0])
    ensures Text.TrimRight(s) != "" && Text.TrimRight(s)[0] == s[0]
  {
    if |s| > 1 && Text.IsSpace(s[|s| - 1]) { TrimRightKeepsHead(s[..|s| - 1]); }
  }

  // ---------------------------------------------------------------- the promises, for the program as it is

  lemma {:induction false} ProgramComments(key: ID)
    requires PlainKey(key)
    ensures CommentsOut(AwkKey, key) && CommentsUnread(GoReads)
  {
    assert NOTE.text[0] == '#';
    CommentsAreIgnored(NOTE);
    forall l: Line ensures AwkKey(Disabled(l)) != key && GoReads(Disabled(l)).None? {
      CommentsAreIgnored(Disabled(l));
    }
  }

  lemma {:induction false} LoginDefsIsIdempotent(lines: seq<Line>, key: ID, value: ID)
    requires PlainKey(key) && PlainValue(value)
    ensures var once := Rewritten(AwkKey, lines, key, Written(key, value));
            Rewritten(AwkKey, once, key, Written(key, value)) == once
  {
    WrittenReadsBack(key, value);
    ProgramComments(key);
    RewrittenTwice(AwkKey, lines, key, Written(key, value));
  }

  /** The wanted value is in force whenever every line above the first definition is plainly indented. */
  lemma {:induction false} WantedValueIsInForce(lines: seq<Line>, key: ID, value: ID)
    requires PlainKey(key) && PlainValue(value)
    requires forall l | l in Before(AwkKey, lines, key) :: PlainlyIndented(l)
    ensures Effective(GoReads, Rewritten(AwkKey, lines, key, Written(key, value)), key) == Some(value)
  {
    WrittenReadsBack(key, value);
    WhatIsInForce(AwkKey, GoReads, lines, key, Written(key, value), value);
    BeforeIsFirst(AwkKey, lines, key);
    NothingRead(Before(AwkKey, lines, key), key);
  }

  lemma {:induction false} NothingRead(lines: seq<Line>, key: ID)
    requires PlainKey(key) && (forall l | l in lines :: PlainlyIndented(l)) && !HasKey(AwkKey, lines, key)
    ensures Effective(GoReads, lines, key).None?
  {
    if lines != [] {
      var l := lines[0];
      assert lines == [l] + lines[1..];
      HasKeyConcat(AwkKey, [l], lines[1..], key);
      HasKeyOne(AwkKey, l, key);
      if IsSetting(GoReads, l, key) { ProgramSeesWhatParserReads(l, key); }
      NothingRead(lines[1..], key);
    }
  }

  /** Every other key keeps its value, unless it is tabbed under the one that is set. */
  lemma {:induction false} OtherKeysKeepTheirValue(lines: seq<Line>, key: ID, value: ID, other: ID)
    requires PlainKey(key) && PlainValue(value) && other != key && !TabbedUnder(key, other)
    ensures Effective(GoReads, Rewritten(AwkKey, lines, key, Written(key, value)), other) == Effective(GoReads, lines, other)
  {
    WrittenReadsBack(key, value);
    ProgramComments(key);
    forall l | AwkKey(l) == key ensures !IsSetting(GoReads, l, other) {
      ParserReadsNoOther(l, key, other);
    }
    OthersKeepTheirValue(AwkKey, GoReads, lines, key, Written(key, value), other);
  }

  /** A definition of other, as the parser reads it; `KEY`, a tab and `A x` is one of `KEY`, a tab and `A`. */
  function Tabbed(other: ID): Line { Line(other.name + " x") }

  lemma {:induction false} TabbedReads(key: ID, other: ID)
    requires PlainKey(key) && TabbedUnder(key, other)
    ensures GoReads(Tabbed(other)) == Some(Setting(other, ID("x")))
    ensures AwkKey(Tabbed(other)) == key
  {
    TabbedParses(key, other);
    TabbedMatches(key, other);
  }

  lemma {:induction false} TabbedParses(key: ID, other: ID)
    requires PlainKey(key) && TabbedUnder(key, other)
    ensures GoReads(Tabbed(other)) == Some(Setting(other, ID("x")))
  {
    var n := other.name;
    var text := n + [' '] + "x";
    assert text == Tabbed(other).text;
    assert n[0] == key.name[0] && key.name[0] in key.name && text[0] == n[0] && text[|text| - 1] == 'x';
    Text.TrimmedStays(text);
    Text.IndexOfFirst(n, "x", ' ');
    assert text[..|n|] == n && text[|n| + 1..] == "x";
    Text.TrimmedStays("x");
    Text.IndexOfFirst("x", "", '#');
  }

  lemma {:induction false} TabbedMatches(key: ID, other: ID)
    requires PlainKey(key) && TabbedUnder(key, other)
    ensures AwkKey(Tabbed(other)) == key
  {
    var k, text := key.name, Tabbed(other).text;
    assert k[0] in k && text[0] == k[0] && Text.IsSpace('\t') && Text.IsSpace(' ');
    assert Text.DropLeft(text, BLANKS) == text;
    assert forall c | c in k :: c !in BLANKS;
    assert text == k + text[|k|..] && text[|k|..][0] == '\t';
    FieldIsPrefix(k, text[|k|..]);
  }

  /** And such a key does lose its value: the program takes its definition for one of the key it sets. */
  lemma {:induction false} TabbedKeyIsLost(key: ID, value: ID, other: ID)
    requires PlainKey(key) && PlainValue(value) && TabbedUnder(key, other)
    ensures Effective(GoReads, [Tabbed(other)], other) == Some(ID("x"))
    ensures Effective(GoReads, Rewritten(AwkKey, [Tabbed(other)], key, Written(key, value)), other) == None
  {
    var l, w := Tabbed(other), Written(key, value);
    TabbedReads(key, other);
    WrittenReadsBack(key, value);
    assert [l][..0] == [] && Pass(AwkKey, [], key, w) == [] && !HasKey(AwkKey, [], key);
    HasKeyOne(AwkKey, l, key);
    assert Replaced(AwkKey, [], l, key, w) == [w];
    assert Pass(AwkKey, [l], key, w) == [] + [w] == [w];
    assert Rewritten(AwkKey, [l], key, w) == [w] + [] == [w];
    OneUnread(GoReads, w, other);
  }

  /** Another key keeps its value in every file exactly when it is not tabbed under the one that is set. */
  lemma {:induction false} OtherKeysKeptExactlyWhen(key: ID, value: ID, other: ID)
    requires PlainKey(key) && PlainValue(value) && other != key && '\n' !in other.name
    ensures (forall lines | NoNewlines(lines) ::
               Effective(GoReads, Rewritten(AwkKey, lines, key, Written(key, value)), other) == Effective(GoReads, lines, other)) <==>
            !TabbedUnder(key, other)
  {
    if TabbedUnder(key, other) {
      TabbedKeyIsLost(key, value, other);
      assert NoNewlines([Tabbed(other)]);
    } else {
      forall lines ensures Effective(GoReads, Rewritten(AwkKey, lines, key, Written(key, value)), other) == Effective(GoReads, lines, other) {
        OtherKeysKeepTheirValue(lines, key, value, other);
      }
    }
  }

  function OddlyIndented(key: ID, value: ID): Line { Line("\U{b}" + Written(key, value).text) }

  lemma {:induction false} OddIndentReads(key: ID, value: ID)
    requires PlainKey(key) && PlainValue(value)
    ensures GoReads(OddlyIndented(key, value)) == Some(Setting(key, value))
    ensures AwkKey(OddlyIndented(key, value)) != key
  {
    ParserReadsBack(key, value);
    OddIndentTrims(key, value);
    OddIndentMisleads(key, value);
  }

  /** The parser takes the vertical tab for a space. */
  lemma {:induction false} OddIndentTrims(key: ID, value: ID)
    requires PlainKey(key)
    ensures Text.TrimSpace(OddlyIndented(key, value).text) == Text.TrimSpace(Written(key, value).text)
  {
    var l, plain, vt := OddlyIndented(key, value), Written(key, value), '\U{b}';
    assert key.name[0] in key.name && plain.text[0] == key.name[0];
    assert l.text == [vt] + plain.text && l.text[1..] == plain.text;
    assert Text.TrimLeft(plain.text) == plain.text;
    assert Text.IsSpace(vt) && Text.TrimLeft(l.text) == plain.text;
  }

  /** The program takes it for the first character of the key. */
  lemma {:induction false} OddIndentMisleads(key: ID, value: ID)
    requires PlainKey(key)
    ensures AwkKey(OddlyIndented(key, value)) != key
  {
    var l, plain, vt := OddlyIndented(key, value), Written(key, value), '\U{b}';
    assert key.name[0] in key.name && Text.IsSpace(vt) && l.text == [vt] + plain.text && l.text[1..] == plain.text;
    assert Text.DropLeft(l.text, BLANKS) == l.text;
    FieldEnds(l.text);
    assert Field(l.text) == [vt] + Field(plain.text);
  }

  /** Indented by a vertical tab, a definition is read by the parser and missed by the program. */
  lemma {:induction false} OddIndentHides(key: ID, was: ID, value: ID)
    requires PlainKey(key) && PlainValue(was) && PlainValue(value)
    ensures Effective(GoReads, Rewritten(AwkKey, [OddlyIndented(key, was)], key, Written(key, value)), key) == Some(was)
  {
    var l := OddlyIndented(key, was);
    OddIndentReads(key, was);
    WrittenReadsBack(key, value);
    assert [l][1..] == [];
    assert Before(AwkKey, [l], key) == [l];
    WhatIsInForce(AwkKey, GoReads, [l], key, Written(key, value), value);
  }

  // ---------------------------------------------------------------- where every line ends up

  /** How many of the first i lines define the key. */
  function Definitions(keyOf: KeyOf, lines: seq<Line>, i: nat, key: ID): nat
    requires i <= |lines|
  {
    if i == 0 then 0 else Definitions(keyOf, lines, i - 1, key) + if keyOf(lines[i - 1]) == key then 1 else 0
  }

  lemma {:induction false} DefinitionsFound(keyOf: KeyOf, lines: seq<Line>, i: nat, key: ID)
    requires i <= |lines|
    ensures HasKey(keyOf, lines[..i], key) <==> Definitions(keyOf, lines, i, key) > 0
  {
    if i > 0 {
      DefinitionsFound(keyOf, lines, i - 1, key);
      assert lines[..i] == lines[..i - 1] + [lines[i - 1]];
      HasKeyConcat(keyOf, lines[..i - 1], [lines[i - 1]], key);
      HasKeyOne(keyOf, lines[i - 1], key);
    }
  }

  /** Line i of the file stands at this place: every definition after the first takes two lines. */
  function PlaceOf(keyOf: KeyOf, lines: seq<Line>, i: nat, key: ID): nat
    requires i <= |lines|
  {
    var d := Definitions(keyOf, lines, i, key);
    i + if d > 1 then d - 1 else 0
  }

  /** Line i as the program leaves it: itself, the wanted line, or a note and the line behind "#". */
  ghost predicate LeftAt(keyOf: KeyOf, lines: seq<Line>, i: nat, key: ID, w: Line, out: seq<Line>)
    requires i < |lines|
  {
    var p := PlaceOf(keyOf, lines, i, key);
    if keyOf(lines[i]) != key then p < |out| && out[p] == lines[i]
    else if Definitions(keyOf, lines, i, key) == 0 then p < |out| && out[p] == w
    else p + 1 < |out| && out[p] == NOTE && out[p + 1] == Line("#" + lines[i].text)
  }

  lemma {:induction false} PassPlaces(keyOf: KeyOf, lines: seq<Line>, n: nat, key: ID, w: Line)
    requires n <= |lines|
    ensures |Pass(keyOf, lines[..n], key, w)| == PlaceOf(keyOf, lines, n, key)
    ensures forall i | 0 <= i < n :: LeftAt(keyOf, lines, i, key, w, Pass(keyOf, lines[..n], key, w))
  {
    if n > 0 {
      PassPlaces(keyOf, lines, n - 1, key, w);
      NextLine(keyOf, lines, n - 1, key, w);
      DefinitionsFound(keyOf, lines, n - 1, key);
      var r := Pass(keyOf, lines[..n - 1], key, w);
      forall i | 0 <= i < n - 1 ensures LeftAt(keyOf, lines, i, key, w, Pass(keyOf, lines[..n], key, w)) {
        assert LeftAt(keyOf, lines, i, key, w, r);
      }
    }
  }

  /** The whole result: every line in its place, and the wanted line at the end of a file that has no definition. */
  lemma {:induction false} EveryLineInItsPlace(keyOf: KeyOf, lines: seq<Line>, key: ID, w: Line)
    ensures var out, d := Rewritten(keyOf, lines, key, w), Definitions(keyOf, lines, |lines|, key);
            && (forall i | 0 <= i < |lines| :: LeftAt(keyOf, lines, i, key, w, out))
            && |out| == |lines| + (if d == 0 then 1 else d - 1)
            && (d == 0 ==> out[|lines|] == w)
  {
    var out, d := Rewritten(keyOf, lines, key, w), Definitions(keyOf, lines, |lines|, key);
    PassPlaces(keyOf, lines, |lines|, key, w);
    DefinitionsFound(keyOf, lines, |lines|, key);
    assert lines[..|lines|] == lines;
    forall i | 0 <= i < |lines| ensures LeftAt(keyOf, lines, i, key, w, out) {
      assert LeftAt(keyOf, lines, i, key, w, Pass(keyOf, lines, key, w));
    }
  }

  // ---------------------------------------------------------------- which lines are read as what

  /** The program's key: the first run of non-blanks of a line that does not start as a comment. */
  lemma {:induction false} ProgramKeyExactlyWhen(text: string, key: string)
    requires key != ""
    ensures AwkKey(Line(text)) == ID(key) <==> IsFirstWord(text, key)
  {
    if AwkKey(Line(text)) == ID(key) { KeyIsFirstWord(text, key); }
    if IsFirstWord(text, key) { FirstWordIsKey(text, key); }
  }

  ghost predicate IsFirstWord(text: string, key: string)
    requires key != ""
  {
    key[0] != '#' && (forall c | c in key :: c !in BLANKS) && exists indent, rest :: Indents(text, indent, key, rest)
  }

  lemma {:induction false} FieldSplits(s: string) returns (rest: string)
    ensures s == Field(s) + rest && (rest == "" || rest[0] in BLANKS) && forall c | c in Field(s) :: c !in BLANKS
  {
    if s == "" || s[0] in BLANKS {
      rest := s;
    } else {
      rest := FieldSplits(s[1..]);
    }
  }

  lemma {:induction false} KeyIsFirstWord(text: string, key: string)
    requires key != "" && AwkKey(Line(text)) == ID(key)
    ensures IsFirstWord(text, key)
  {
    var body := Text.DropLeft(text, BLANKS);
    LeftOf(text);
    var rest := FieldSplits(body);
    assert Indents(text, text[..|text| - |body|], key, rest);
  }

  lemma {:induction false} FirstWordIsKey(text: string, key: string)
    requires key != "" && IsFirstWord(text, key)
    ensures AwkKey(Line(text)) == ID(key)
  {
    var indent, rest :| Indents(text, indent, key, rest);
    assert key[0] in key;
    LeftGone(indent, key + rest);
    FieldIsPrefix(key, rest);
  }

  predicate Indents(text: string, indent: string, key: string, rest: string) {
    text == indent + (key + rest) && (forall c | c in indent :: c in BLANKS) && (rest == "" || rest[0] in BLANKS)
  }

  lemma {:induction false} LeftOf(s: string)
    ensures var r := Text.DropLeft(s, BLANKS);
            |r| <= |s| && s == s[..|s| - |r|] + r && forall c | c in s[..|s| - |r|] :: c in BLANKS
  {
    if s != "" && s[0] in BLANKS {
      LeftOf(s[1..]);
      var r := Text.DropLeft(s, BLANKS);
      assert s[..|s| - |r|] == [s[0]] + s[1..][..|s| - 1 - |r|];
    }
  }

  lemma {:induction false} LeftGone(indent: string, s: string)
    requires (forall c | c in indent :: c in BLANKS) && s != "" && s[0] !in BLANKS
    ensures Text.DropLeft(indent + s, BLANKS) == s
  {
    if indent == "" {
      assert indent + s == s;
    } else {
      assert indent[0] in indent && forall c | c in indent[1..] :: c in indent;
      LeftGone(indent[1..], s);
      assert (indent + s)[1..] == indent[1..] + s;
    }
  }

  /** What a line defines: a key up to the first space, or else the first tab, and a value up to a comment. */
  ghost predicate Defines(text: string, key: string, value: string) {
    var line := Text.TrimSpace(text);
    line != "" && line[0] != '#' && '=' !in key && exists sep, rest :: Parts(line, key, sep, rest) && Commented(Text.TrimSpace(rest), value)
  }

  predicate Parts(line: string, key: string, sep: char, rest: string) {
    line == key + [sep] + rest && ((sep == ' ' && ' ' !in key) || (sep == '\t' && '\t' !in key && ' ' !in line))
  }

  /** The value is all of the note, or what stands before its first "#", trimmed; and it is not empty. */
  ghost predicate Commented(note: string, value: string) {
    value != "" && (('#' !in note && value == note) || exists before, after :: HashAt(note, before, after) && value == Text.TrimSpace(before))
  }

  predicate HashAt(note: string, before: string, after: string) { note == before + ['#'] + after && '#' !in before }

  lemma {:induction false} CutExactly(s: string, c: char)
    ensures Cut(s, c).None? <==> c !in s
    ensures Cut(s, c).Some? ==> var (a, b) := Cut(s, c).value; s == a + [c] + b && c !in a
  {
    Text.IndexOfFinds(s, c);
  }

  lemma {:induction false} CutOnce(s: string, c: char, a: string, b: string)
    requires s == a + [c] + b && c !in a
    ensures Cut(s, c) == Some((a, b))
  {
    Text.IndexOfFirst(a, b, c);
    assert s[..|a|] == a && s[|a| + 1..] == b;
  }

  lemma {:induction false} HashIsThere(note: string, before: string, after: string)
    ensures HashAt(note, before, after) ==> Text.IndexOf(note, '#') == |before| < |note| && note[..|before|] == before
  {
    if HashAt(note, before, after) { Text.IndexOfFirst(before, after, '#'); }
  }

  /** What the value of a line is, given all that follows the key. */
  lemma {:induction false} ValueExactlyWhen(rest: string, value: string)
    ensures ValueOf(rest) == value && value != "" <==> Commented(Text.TrimSpace(rest), value)
  {
    var note := Text.TrimSpace(rest);
    var i := Text.IndexOf(note, '#');
    Text.IndexOfFinds(note, '#');
    if ValueOf(rest) == value && value != "" && i < |note| {
      assert HashAt(note, note[..i], note[i + 1..]);
    }
    if Commented(note, value) && !('#' !in note && value == note) {
      var before, after :| HashAt(note, before, after) && value == Text.TrimSpace(before);
      HashIsThere(note, before, after);
    }
  }

  lemma {:induction false} PartsExactlyWhen(line: string, key: string, rest: string)
    ensures (if Cut(line, ' ').Some? then Cut(line, ' ') else Cut(line, '\t')) == Some((key, rest)) <==> exists sep :: Parts(line, key, sep, rest)
  {
    CutExactly(line, ' ');
    CutExactly(line, '\t');
    if (if Cut(line, ' ').Some? then Cut(line, ' ') else Cut(line, '\t')) == Some((key, rest)) {
      assert Parts(line, key, if Cut(line, ' ').Some? then ' ' else '\t', rest);
    }
    if exists sep :: Parts(line, key, sep, rest) {
      var sep :| Parts(line, key, sep, rest);
      CutOnce(line, sep, key, rest);
    }
  }

  /** The parser reads a definition from a line exactly when it consists of these parts. */
  lemma {:induction false} DefinesExactlyWhen(text: string, key: string, value: string)
    ensures GoReads(Line(text)) == Some(Setting(ID(key), ID(value))) <==> Defines(text, key, value)
  {
    var line := Text.TrimSpace(text);
    var parts := if Cut(line, ' ').Some? then Cut(line, ' ') else Cut(line, '\t');
    if GoReads(Line(text)) == Some(Setting(ID(key), ID(value))) {
      var rest := parts.value.1;
      PartsExactlyWhen(line, key, rest);
      ValueExactlyWhen(rest, value);
    }
    assert Text.TrimSpace("") == "";
    if Defines(text, key, value) {
      var sep, rest :| Parts(line, key, sep, rest) && Commented(Text.TrimSpace(rest), value);
      PartsExactlyWhen(line, key, rest);
      ValueExactlyWhen(rest, value);
    }
  }
}
