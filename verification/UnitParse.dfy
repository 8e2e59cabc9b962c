/** Reading the requested directives out of one unit file (parse and continues in internal/collect/unit/unit.go). */
module UnitParse {
  import opened Basics
  import opened Ids
  import opened Units
  import Text

  const CR: set<char> := {'\r'}
  const BLANKS: set<char> := {' ', '\t'}
  const ENDS: set<char> := {' ', '\t', '\r'}

  // ---------------------------------------------------------------- continuation

  /** How many backslashes s ends in. */
  function Backslashes(s: string): nat {
    if s == "" || s[|s| - 1] != '\\' then 0 else 1 + Backslashes(s[..|s| - 1])
  }

  /** An odd number of backslashes joins the line to the next: `\\` is an escaped backslash. */
  predicate Continued(s: string) {
    Backslashes(Text.DropRight(s, ENDS)) % 2 == 1
  }

  method Continues(s: string) returns (r: bool)
    ensures r == Continued(s)
  {
    var t := Text.DropRight(s, ENDS);
    var n, i := 0, |t|;
    assert t[..|t|] == t;
    while i > 0 && t[i - 1] == '\\'
      invariant 0 <= i <= |t|
      invariant n + Backslashes(t[..i]) == Backslashes(t)
    {
      assert t[..i][..i - 1] == t[..i - 1];
      n, i := n + 1, i - 1;
    }
    assert Backslashes(t[..i]) == 0;
    return n % 2 == 1;
  }

  // ---------------------------------------------------------------- physical to logical lines

  /** One statement: the number of its first physical line, and its text with continuations joined. */
  datatype Statement = Statement(line: int, text: string)

  function Raw(line: string): string { Text.DropRight(line, CR) }

  predicate IsComment(trimmed: string) {
    trimmed == "" || trimmed[0] == '#' || trimmed[0] == ';'
  }

  /** The last physical line of the comment that starts at line i. */
  function CommentEnd(lines: seq<string>, i: nat): (k: nat)
    requires i < |lines|
    ensures i <= k < |lines|
    decreases |lines| - i
  {
    if Continued(Raw(lines[i])) && i + 1 < |lines| then CommentEnd(lines, i + 1) else i
  }

  /** raw without its backslash and the blanks around it, joined to the next line by one space. */
  function JoinNext(raw: string, next: string): string {
    var cut := Text.DropRight(raw, BLANKS);
    Text.DropRight(if cut == "" then "" else cut[..|cut| - 1], BLANKS) + " " + Text.TrimSpace(Raw(next))
  }

  /** The joined text starting with raw at line i, and the last physical line it takes. */
  function Joined(lines: seq<string>, i: nat, raw: string): (r: (string, nat))
    requires i < |lines|
    ensures i <= r.1 < |lines|
    decreases |lines| - i
  {
    if Continued(raw) && i + 1 < |lines| then Joined(lines, i + 1, JoinNext(raw, lines[i + 1])) else (raw, i)
  }

  /** The statements from line i on: comments gone, continuations joined. */
  function Statements(lines: seq<string>, i: nat): seq<Statement>
    requires i <= |lines|
    decreases |lines| - i
  {
    if i == |lines| then []
    else if IsComment(Text.TrimSpace(Raw(lines[i]))) then Statements(lines, CommentEnd(lines, i) + 1)
    else
      var (text, last) := Joined(lines, i, Raw(lines[i]));
      [Statement(i + 1, Text.TrimSpace(text))] + Statements(lines, last + 1)
  }

  // ---------------------------------------------------------------- statements to directives

  predicate IsSection(text: string) {
    text != "" && text[0] == '[' && text[|text| - 1] == ']'
  }

  function SectionName(text: string): ID
    requires IsSection(text)
  {
    ID(text[1..|text| - 1])
  }

  function Assignment(s: Statement, origin: ID, wanted: seq<ID>): Option<Directive> {
    var i := Text.IndexOf(s.text, '=');
    if i == |s.text| then None
    else
      var key := ID(Text.TrimSpace(s.text[..i]));
      if key in wanted then Some(Directive(key, ID(Text.TrimSpace(s.text[i + 1..])), origin, s.line)) else None
  }

  function Kept(d: Option<Directive>, rest: seq<Directive>): seq<Directive> {
    if d.Some? then [d.value] + rest else rest
  }

  /** The wanted assignments of the requested section, in order. */
  function Directives(stmts: seq<Statement>, section: ID, origin: ID, req: Request): seq<Directive> {
    if stmts == [] then []
    else
      var s := stmts[0];
      if IsSection(s.text) then Directives(stmts[1..], SectionName(s.text), origin, req)
      else if section != req.section then Directives(stmts[1..], section, origin, req)
      else Kept(Assignment(s, origin, req.directives), Directives(stmts[1..], section, origin, req))
  }

  /** The directives from line i on, already in the given section. */
  function From(lines: seq<string>, i: nat, section: ID, origin: ID, req: Request): seq<Directive>
    requires i <= |lines|
  {
    Directives(Statements(lines, i), section, origin, req)
  }

  function Parsed(text: string, origin: ID, req: Request): seq<Directive> {
    From(Text.Split(text, '\n'), 0, EMPTY, origin, req)
  }

  lemma {:induction false} FromComment(lines: seq<string>, i: nat, section: ID, origin: ID, req: Request)
    requires i < |lines| && IsComment(Text.TrimSpace(Raw(lines[i])))
    ensures From(lines, i, section, origin, req) == From(lines, CommentEnd(lines, i) + 1, section, origin, req)
  {
  }

  lemma {:induction false} FromStatement(lines: seq<string>, i: nat, section: ID, origin: ID, req: Request)
    requires i < |lines| && !IsComment(Text.TrimSpace(Raw(lines[i])))
    ensures var (text, last) := Joined(lines, i, Raw(lines[i]));
            var s := Statement(i + 1, Text.TrimSpace(text));
            From(lines, i, section, origin, req) ==
              if IsSection(s.text) then From(lines, last + 1, SectionName(s.text), origin, req)
              else if section != req.section then From(lines, last + 1, section, origin, req)
              else Kept(Assignment(s, origin, req.directives), From(lines, last + 1, section, origin, req))
  {
    var (text, last) := Joined(lines, i, Raw(lines[i]));
    FirstStatement(lines, i);
    DirectivesCons(Statement(i + 1, Text.TrimSpace(text)), Statements(lines, last + 1), section, origin, req);
  }

  lemma {:induction false} FirstStatement(lines: seq<string>, i: nat)
    requires i < |lines| && !IsComment(Text.TrimSpace(Raw(lines[i])))
    ensures var (text, last) := Joined(lines, i, Raw(lines[i]));
            Statements(lines, i) == [Statement(i + 1, Text.TrimSpace(text))] + Statements(lines, last + 1)
  {
    assert i < |lines| && !IsComment(Text.TrimSpace(Raw(lines[i])));
  }

  lemma {:induction false} DirectivesCons(s: Statement, rest: seq<Statement>, section: ID, origin: ID, req: Request)
    ensures Directives([s] + rest, section, origin, req) ==
              if IsSection(s.text) then Directives(rest, SectionName(s.text), origin, req)
              else if section != req.section then Directives(rest, section, origin, req)
              else Kept(Assignment(s, origin, req.directives), Directives(rest, section, origin, req))
  {
    assert ([s] + rest)[1..] == rest;
  }

  lemma {:induction false} KeptAfter(out: seq<Directive>, d: Option<Directive>, rest: seq<Directive>)
    ensures out + Kept(d, rest) == (if d.Some? then out + [d.value] else out) + rest
  {
  }

  /** The one-pass loop gives what joining first and filtering afterwards gives. */
  method Parse(text: string, origin: ID, req: Request) returns (out: seq<Directive>)
    ensures out == Parsed(text, origin, req)
  {
    out := [];
    var section := EMPTY;
    var lines := Text.Split(text, '\n');
    var i := 0;
    while i < |lines|
      invariant 0 <= i <= |lines|
      invariant out + From(lines, i, section, origin, req) == Parsed(text, origin, req)
      decreases |lines| - i
    {
      if IsComment(Text.TrimSpace(Raw(lines[i]))) {
        FromComment(lines, i, section, origin, req);
        i := SkipComment(lines, i);
        i := i + 1;
        continue;
      }
      FromStatement(lines, i, section, origin, req);
      var stmt;
      stmt, i := NextStatement(lines, i);
      if IsSection(stmt.text) {
        section := SectionName(stmt.text);
      } else if section == req.section {
        var d := Assignment(stmt, origin, req.directives);
        KeptAfter(out, d, From(lines, i, section, origin, req));
        if d.Some? { out := out + [d.value]; }
      }
    }
    assert out + [] == out;
  }

  method NextStatement(lines: seq<string>, i: nat) returns (stmt: Statement, next: nat)
    requires i < |lines|
    ensures var (text, last) := Joined(lines, i, Raw(lines[i]));
            stmt == Statement(i + 1, Text.TrimSpace(text)) && next == last + 1
  {
    var raw, last := JoinLines(lines, i);
    return Statement(i + 1, Text.TrimSpace(raw)), last + 1;
  }

  method SkipComment(lines: seq<string>, start: nat) returns (i: nat)
    requires start < |lines|
    ensures i == CommentEnd(lines, start) && i < |lines|
  {
    i := start;
    var more := Continues(Raw(lines[i]));
    while more && i + 1 < |lines|
      invariant start <= i < |lines| && more == Continued(Raw(lines[i]))
      invariant CommentEnd(lines, i) == CommentEnd(lines, start)
      decreases |lines| - i
    {
      i := i + 1;
      more := Continues(Raw(lines[i]));
    }
  }

  method JoinLines(lines: seq<string>, start: nat) returns (raw: string, i: nat)
    requires start < |lines|
    ensures (raw, i) == Joined(lines, start, Raw(lines[start])) && i < |lines|
  {
    raw, i := Raw(lines[start]), start;
    var more := Continues(raw);
    while more && i + 1 < |lines|
      invariant start <= i < |lines| && more == Continued(raw)
      invariant Joined(lines, i, raw) == Joined(lines, start, Raw(lines[start]))
      decreases |lines| - i
    {
      raw, i := JoinNext(raw, lines[i + 1]), i + 1;
      more := Continues(raw);
    }
  }

  // ---------------------------------------------------------------- what survives the filter

  /** Nothing that was not asked for survives the parse, so nothing else is ever held. */
  lemma {:induction false} OnlyWhatWasAsked(stmts: seq<Statement>, section: ID, origin: ID, req: Request, d: Directive)
    requires d in Directives(stmts, section, origin, req)
    ensures d.name in req.directives && d.origin == origin
    ensures exists s :: s in stmts && Assignment(s, origin, req.directives) == Some(d)
  {
    var s := stmts[0];
    assert stmts == [s] + stmts[1..];
    if IsSection(s.text) {
      OnlyWhatWasAsked(stmts[1..], SectionName(s.text), origin, req, d);
    } else if section == req.section && Assignment(s, origin, req.directives) == Some(d) {
      assert s in stmts;
    } else {
      OnlyWhatWasAsked(stmts[1..], section, origin, req, d);
    }
  }

  // ---------------------------------------------------------------- a plain file reads as written

  /** A name and a value that need no quoting, joining or trimming. */
  predicate Plain(name: string, value: string) {
    && name != "" && Text.Trimmed(name) && name[0] != '#' && name[0] != ';' && name[0] != '['
    && '=' !in name && '\n' !in name
    && Text.Trimmed(value) && '\n' !in value && (value == "" || value[|value| - 1] != '\\')
  }

  function Line(name: string, value: string): string { name + ['='] + value }

  /** A line that is one whole statement: it reads as itself. */
  predicate Standalone(s: string) {
    '\n' !in s && Raw(s) == s && Text.TrimSpace(s) == s && !IsComment(s) && !Continued(s)
  }

  lemma {:induction false} EndsPlainly(s: string)
    requires s != "" && Text.Trimmed(s) && '\n' !in s && s[|s| - 1] != '\\' && s[0] != '#' && s[0] != ';'
    ensures Standalone(s)
  {
    Text.TrimmedStays(s);
    assert Text.DropRight(s, CR) == s && Text.DropRight(s, ENDS) == s;
    assert Backslashes(s) == 0;
  }

  lemma {:induction false} PlainLine(name: string, value: string)
    requires Plain(name, value)
    ensures Standalone(Line(name, value)) && !IsSection(Line(name, value))
  {
    var s := Line(name, value);
    assert s[0] == name[0];
    assert s[|s| - 1] == if value == "" then '=' else value[|value| - 1];
    EndsPlainly(s);
  }

  lemma {:induction false} PlainAssignment(name: string, value: string, line: int, origin: ID, wanted: seq<ID>)
    requires Plain(name, value) && ID(name) in wanted
    ensures Assignment(Statement(line, Line(name, value)), origin, wanted) == Some(Directive(ID(name), ID(value), origin, line))
  {
    var s := Line(name, value);
    Text.IndexOfFirst(name, value, '=');
    assert s[..|name|] == name && s[|name| + 1..] == value;
    Text.TrimmedStays(name);
    Text.TrimmedStays(value);
  }

  datatype Pair = Pair(name: string, value: string) {
    predicate Wanted(req: Request) { Plain(name, value) && ID(name) in req.directives }

    function Text(): string { Line(name, value) }

    function At(origin: ID, line: int): Directive { Directive(ID(name), ID(value), origin, line) }
  }

  /** The directives of the pairs from the k-th on, one per line after the header. */
  function Listed(pairs: seq<Pair>, k: nat, origin: ID): seq<Directive>
    requires k <= |pairs|
    decreases |pairs| - k
  {
    if k == |pairs| then [] else [pairs[k].At(origin, k + 2)] + Listed(pairs, k + 1, origin)
  }

  /** lines are a section header followed by one assignment per line. */
  ghost predicate PlainFile(lines: seq<string>, pairs: seq<Pair>, req: Request) {
    && '\n' !in req.section.name
    && |lines| == |pairs| + 1 && lines[0] == ['['] + req.section.name + [']']
    && forall i | 0 <= i < |pairs| :: lines[i + 1] == pairs[i].Text() && pairs[i].Wanted(req)
  }

  lemma {:induction false} Header(section: string)
    requires '\n' !in section
    ensures var s := ['['] + section + [']']; Standalone(s) && IsSection(s) && SectionName(s) == ID(section)
  {
    var s := ['['] + section + [']'];
    assert s[0] == '[' && s[|s| - 1] == ']';
    EndsPlainly(s);
    assert s[1..|s| - 1] == section;
  }

  lemma {:induction false} StandaloneReads(lines: seq<string>, i: nat, section: ID, origin: ID, req: Request)
    requires i < |lines| && Standalone(lines[i])
    ensures From(lines, i, section, origin, req) ==
              if IsSection(lines[i]) then From(lines, i + 1, SectionName(lines[i]), origin, req)
              else if section != req.section then From(lines, i + 1, section, origin, req)
              else Kept(Assignment(Statement(i + 1, lines[i]), origin, req.directives), From(lines, i + 1, section, origin, req))
  {
    FromStatement(lines, i, section, origin, req);
  }

  lemma {:induction false} AssignmentsRead(lines: seq<string>, pairs: seq<Pair>, origin: ID, req: Request, k: nat)
    requires PlainFile(lines, pairs, req) && k <= |pairs|
    ensures From(lines, k + 1, req.section, origin, req) == Listed(pairs, k, origin)
    decreases |pairs| - k
  {
    if k < |pairs| {
      var p := pairs[k];
      PlainLine(p.name, p.value);
      PlainAssignment(p.name, p.value, k + 2, origin, req.directives);
      StandaloneReads(lines, k + 1, req.section, origin, req);
      AssignmentsRead(lines, pairs, origin, req, k + 1);
    }
  }

  lemma {:induction false} PlainFileSplits(lines: seq<string>, pairs: seq<Pair>, req: Request)
    requires PlainFile(lines, pairs, req)
    ensures Text.Split(Text.Join(lines, '\n'), '\n') == lines
  {
    Header(req.section.name);
    forall i | 0 <= i < |lines| ensures '\n' !in lines[i] {
      if i > 0 { PlainLine(pairs[i - 1].name, pairs[i - 1].value); }
    }
    Text.SplitJoin(lines, '\n');
  }

  /** Writing assignments one per line and parsing them gives them back, with the lines they are on. */
  lemma {:induction false} PlainFileReadsBack(lines: seq<string>, pairs: seq<Pair>, origin: ID, req: Request)
    requires PlainFile(lines, pairs, req)
    ensures Parsed(Text.Join(lines, '\n'), origin, req) == Listed(pairs, 0, origin)
  {
    Header(req.section.name);
    PlainFileSplits(lines, pairs, req);
    StandaloneReads(lines, 0, EMPTY, origin, req);
    AssignmentsRead(lines, pairs, origin, req, 0);
  }
}
