/** A unit file in any layout reads as what was meant: continuations, comments, sections (internal/collect/unit/unit.go:490-568). */
module UnitLayout {
  import opened Basics
  import opened Ids
  import opened Units
  import opened UnitParse
  import Text

  const BS := "\\"

  // ---------------------------------------------------------------- a value over several lines

  predicate Blank(s: string) { forall i | 0 <= i < |s| :: s[i] == ' ' || s[i] == '\t' }

  predicate Returns(s: string) { forall i | 0 <= i < |s| :: s[i] == '\r' }

  /** A part of a value that stands on one line: no space around it, and no backslash at its end. */
  predicate IsPiece(s: string) {
    s != "" && Text.Trimmed(s) && '\n' !in s && s[|s| - 1] != '\\'
  }

  /** One physical line: a piece, what stands before and after it, and whether a backslash follows. */
  datatype Row = Row(indent: string, piece: string, gap: string, trail: string, cr: string) {
    predicate Ok() { IsPiece(piece) && Blank(indent) && Blank(gap) && Blank(trail) && Returns(cr) }

    function Broken(): string { indent + piece + gap + BS + trail + cr }

    function Whole(): string { indent + piece + trail + cr }
  }

  /** The pieces from the k-th on, with one space between them. */
  function Spaced(rows: seq<Row>, k: nat): string
    requires k < |rows|
    decreases |rows| - k
  {
    if k + 1 == |rows| then rows[k].piece else rows[k].piece + " " + Spaced(rows, k + 1)
  }

  /** Each row stands on its own line from line i on, all but the last broken by a backslash. */
  ghost predicate RowsStand(lines: seq<string>, i: nat, rows: seq<Row>) {
    i + |rows| <= |lines| && forall k | 0 <= k < |rows| :: RowStands(lines, i, rows, k)
  }

  ghost predicate RowStands(lines: seq<string>, i: nat, rows: seq<Row>, k: nat)
    requires i + k < |lines| && k < |rows|
  {
    lines[i + k] == if k + 1 < |rows| then rows[k].Broken() else rows[k].Whole()
  }

  // ---------------------------------------------------------------- trimming what was put around a piece

  lemma {:induction false} DropAll(s: string, t: string, cut: set<char>)
    requires forall i | 0 <= i < |t| :: t[i] in cut
    ensures Text.DropRight(s + t, cut) == Text.DropRight(s, cut)
  {
    if t == "" {
      assert s + t == s;
    } else {
      var n := |t| - 1;
      assert (s + t)[..|s + t| - 1] == s + t[..n];
      DropAll(s, t[..n], cut);
    }
  }

  lemma {:induction false} RawDropsReturns(s: string, r: string)
    requires Returns(r) && s != "" && s[|s| - 1] != '\r'
    ensures Raw(s + r) == s
  {
    DropAll(s, r, CR);
  }

  // ---------------------------------------------------------------- joining

  /** A text that goes on: something trimmed, blanks, one backslash, blanks. */
  function Going(acc: string, gap: string, trail: string): string { acc + gap + BS + trail }

  /** A text that may go on: no space and no backslash at its end. */
  predicate EndsWell(s: string) {
    s != "" && !Text.IsSpace(s[|s| - 1]) && s[|s| - 1] != '\\'
  }

  lemma {:induction false} GoingContinues(acc: string, gap: string, trail: string)
    requires EndsWell(acc) && Blank(gap) && Blank(trail)
    ensures Continued(Going(acc, gap, trail))
    ensures Text.DropRight(Going(acc, gap, trail), BLANKS) == acc + gap + BS
  {
    var s := acc + gap + BS;
    DropAll(s, trail, ENDS);
    DropAll(s, trail, BLANKS);
    assert s[|s| - 1] == '\\';
    assert Text.DropRight(s, ENDS) == s && Text.DropRight(s, BLANKS) == s;
    assert s[..|s| - 1] == acc + gap;
    assert (acc + gap)[|acc + gap| - 1] != '\\';
    assert Backslashes(acc + gap) == 0;
    assert Backslashes(s) == 1;
  }

  /** The backslash goes, with the blanks on both sides of it and the indentation of the next line. */
  lemma {:induction false} JoinedByOneSpace(acc: string, gap: string, trail: string, next: string)
    requires EndsWell(acc) && Blank(gap) && Blank(trail)
    ensures JoinNext(Going(acc, gap, trail), next) == acc + " " + Text.TrimSpace(Raw(next))
  {
    GoingContinues(acc, gap, trail);
    var s := acc + gap + BS;
    assert s[..|s| - 1] == acc + gap;
    DropAll(acc, gap, BLANKS);
    assert acc[|acc| - 1] != ' ' && acc[|acc| - 1] != '\t' by { assert !Text.IsSpace(acc[|acc| - 1]); }
    assert Text.DropRight(acc, BLANKS) == acc;
  }

  lemma {:induction false} RawOfBroken(r: Row)
    requires r.Ok()
    ensures Raw(r.Broken()) == r.indent + Going(r.piece, r.gap, r.trail)
    ensures Text.TrimSpace(Raw(r.Broken())) == r.piece + r.gap + BS
  {
    var s := r.indent + r.piece + r.gap + BS + r.trail;
    assert s[|s| - 1] != '\r';
    RawDropsReturns(s, r.cr);
    assert s == r.indent + Going(r.piece, r.gap, r.trail);
    var mid := r.piece + r.gap + BS;
    assert mid[0] == r.piece[0] && mid[|mid| - 1] == '\\' && !Text.IsSpace('\\');
    assert s == r.indent + mid + r.trail;
    Text.TrimAround(r.indent, mid, r.trail);
  }

  lemma {:induction false} RawOfWhole(r: Row)
    requires r.Ok()
    ensures Raw(r.Whole()) == r.indent + r.piece + r.trail
    ensures Text.TrimSpace(Raw(r.Whole())) == r.piece
  {
    var s := r.indent + r.piece + r.trail;
    assert s[|s| - 1] != '\r' by { assert !Text.IsSpace(r.piece[|r.piece| - 1]); }
    RawDropsReturns(s, r.cr);
    Text.TrimAround(r.indent, r.piece, r.trail);
  }

  lemma {:induction false} LongerPiece(acc: string, piece: string)
    requires EndsWell(acc) && IsPiece(piece)
    ensures EndsWell(acc + " " + piece)
  {
    var s := acc + " " + piece;
    assert s[|s| - 1] == piece[|piece| - 1];
  }

  lemma {:induction false} PieceStops(s: string, trail: string)
    requires EndsWell(s) && Blank(trail)
    ensures !Continued(s + trail)
  {
    DropAll(s, trail, ENDS);
    assert !Text.IsSpace(s[|s| - 1]);
    assert Text.DropRight(s, ENDS) == s;
    assert Backslashes(s) == 0;
  }

  ghost predicate RowsOk(rows: seq<Row>) { forall k | 0 <= k < |rows| :: rows[k].Ok() }

  lemma {:induction false} BrokenRowJoined(lines: seq<string>, i: nat, acc: string, gap: string, trail: string, r: Row)
    requires r.Ok() && EndsWell(acc) && Blank(gap) && Blank(trail) && i + 1 < |lines| && lines[i + 1] == r.Broken()
    ensures Joined(lines, i, Going(acc, gap, trail)) == Joined(lines, i + 1, Going(acc + " " + r.piece, r.gap, ""))
  {
    GoingContinues(acc, gap, trail);
    JoinedByOneSpace(acc, gap, trail, lines[i + 1]);
    RawOfBroken(r);
    assert acc + " " + (r.piece + r.gap + BS) == Going(acc + " " + r.piece, r.gap, "");
  }

  lemma {:induction false} WholeRowJoined(lines: seq<string>, i: nat, acc: string, gap: string, trail: string, r: Row)
    requires r.Ok() && EndsWell(acc) && Blank(gap) && Blank(trail) && i + 1 < |lines| && lines[i + 1] == r.Whole()
    ensures Joined(lines, i, Going(acc, gap, trail)) == (acc + " " + r.piece, i + 1)
  {
    GoingContinues(acc, gap, trail);
    JoinedByOneSpace(acc, gap, trail, lines[i + 1]);
    RawOfWhole(r);
    LongerPiece(acc, r.piece);
    PieceStops(acc + " " + r.piece, "");
    assert acc + " " + r.piece + "" == acc + " " + r.piece;
  }

  /** What a line that goes on comes to. */
  type Joins = (nat, string) -> (string, nat)

  function JoinsOf(lines: seq<string>): Joins {
    (i: nat, raw: string) => if i < |lines| then Joined(lines, i, raw) else (raw, i)
  }

  ghost predicate JoinsIn(join: Joins, lines: seq<string>) {
    forall i: nat, raw: string | i < |lines| :: join(i, raw) == Joined(lines, i, raw)
  }

  /** Reading on from a broken line, the k-th but one of the rows at line i: the rest of them is joined to what was read. */
  lemma {:induction false} RestIsJoined(join: Joins, lines: seq<string>, i: nat, rows: seq<Row>, k: nat, acc: string, gap: string, trail: string)
    requires JoinsIn(join, lines) && RowsOk(rows) && RowsStand(lines, i, rows) && 0 < k < |rows|
    requires EndsWell(acc) && Blank(gap) && Blank(trail)
    ensures join(i + k - 1, Going(acc, gap, trail)) == (acc + " " + Spaced(rows, k), i + |rows| - 1)
    decreases |rows| - k
  {
    var r := rows[k];
    assert RowStands(lines, i, rows, k) && r.Ok();
    if k + 1 == |rows| {
      LastRow(join, lines, i + k - 1, acc, gap, trail, r);
    } else {
      LongerPiece(acc, r.piece);
      RestIsJoined(join, lines, i, rows, k + 1, acc + " " + r.piece, r.gap, "");
      OneRowMore(join, lines, i + k - 1, acc, gap, trail, r);
      ThreeParts(acc, r.piece, Spaced(rows, k + 1));
    }
  }

  lemma {:induction false} LastRow(join: Joins, lines: seq<string>, i: nat, acc: string, gap: string, trail: string, r: Row)
    requires JoinsIn(join, lines) && r.Ok() && EndsWell(acc) && Blank(gap) && Blank(trail) && i + 1 < |lines| && lines[i + 1] == r.Whole()
    ensures join(i, Going(acc, gap, trail)) == (acc + " " + r.piece, i + 1)
  {
    WholeRowJoined(lines, i, acc, gap, trail, r);
  }

  lemma {:induction false} OneRowMore(join: Joins, lines: seq<string>, i: nat, acc: string, gap: string, trail: string, r: Row)
    requires JoinsIn(join, lines) && r.Ok() && EndsWell(acc) && Blank(gap) && Blank(trail) && i + 1 < |lines| && lines[i + 1] == r.Broken()
    ensures join(i, Going(acc, gap, trail)) == join(i + 1, Going(acc + " " + r.piece, r.gap, ""))
  {
    BrokenRowJoined(lines, i, acc, gap, trail, r);
  }

  lemma {:induction false} ThreeParts(a: string, b: string, c: string)
    ensures a + " " + (b + " " + c) == a + " " + b + " " + c
  {
  }

  // ---------------------------------------------------------------- comments

  /** A line that goes on: one backslash at its end, blanks and returns aside. */
  ghost predicate GoesOn(s: string) {
    exists b, t :: s == b + BS + t && (b == "" || b[|b| - 1] != '\\') && forall i | 0 <= i < |t| :: t[i] in ENDS
  }

  /** A line that does not: no backslash at its end, blanks and returns aside. */
  ghost predicate StopsThere(s: string) {
    exists b, t :: s == b + t && (b == "" || (b[|b| - 1] != '\\' && b[|b| - 1] !in ENDS)) && forall i | 0 <= i < |t| :: t[i] in ENDS
  }

  /** A line is continued exactly when an odd number of backslashes ends it, blanks and returns aside. */
  lemma {:induction false} OddBackslashesContinue(b: string, k: nat, t: string)
    requires (b == "" || (b[|b| - 1] != '\\' && b[|b| - 1] !in ENDS)) && forall i | 0 <= i < |t| :: t[i] in ENDS
    ensures Continued(b + seq(k, i => '\\') + t) <==> k % 2 == 1
  {
    var s := b + seq(k, i => '\\');
    DropAll(s, t, ENDS);
    assert k > 0 ==> s[|s| - 1] == '\\';
    assert k == 0 ==> s == b;
    assert Text.DropRight(s, ENDS) == s;
    CountBackslashes(b, k);
  }

  lemma {:induction false} CountBackslashes(b: string, k: nat)
    requires b == "" || b[|b| - 1] != '\\'
    ensures Backslashes(b + seq(k, i => '\\')) == k
  {
    var s := b + seq(k, i => '\\');
    if k > 0 {
      assert s[|s| - 1] == '\\' && s[..|s| - 1] == b + seq(k - 1, i => '\\');
      CountBackslashes(b, k - 1);
    } else {
      assert s == b;
    }
  }

  lemma {:induction false} EndsAfterReturns(s: string)
    ensures Text.DropRight(Raw(s), ENDS) == Text.DropRight(s, ENDS)
  {
    if s != "" && s[|s| - 1] == '\r' { EndsAfterReturns(s[..|s| - 1]); }
  }

  lemma {:induction false} GoesOnIsContinued(s: string)
    requires GoesOn(s)
    ensures Continued(Raw(s))
  {
    EndsAfterReturns(s);
    var b, t :| s == b + BS + t && (b == "" || b[|b| - 1] != '\\') && forall i | 0 <= i < |t| :: t[i] in ENDS;
    OneBackslash(b, t);
  }

  lemma {:induction false} StopsIsNot(s: string)
    requires StopsThere(s)
    ensures !Continued(Raw(s))
  {
    EndsAfterReturns(s);
    var b, t :| s == b + t && (b == "" || (b[|b| - 1] != '\\' && b[|b| - 1] !in ENDS)) && forall i | 0 <= i < |t| :: t[i] in ENDS;
    DropAll(b, t, ENDS);
    assert Text.DropRight(b, ENDS) == b && Backslashes(b) == 0;
  }

  lemma {:induction false} OneBackslash(b: string, t: string)
    requires (b == "" || b[|b| - 1] != '\\') && forall i | 0 <= i < |t| :: t[i] in ENDS
    ensures Backslashes(Text.DropRight(b + BS + t, ENDS)) == 1
  {
    var s := b + BS;
    DropAll(s, t, ENDS);
    assert s[|s| - 1] == '\\' && s[..|s| - 1] == b;
    assert Text.DropRight(s, ENDS) == s && Backslashes(b) == 0;
  }

  /** From line i on stand the lines of one comment: all but the last go on. */
  ghost predicate OneComment(lines: seq<string>, i: nat, size: nat) {
    && size > 0 && i + size <= |lines| && StopsThere(lines[i + size - 1])
    && forall k | i <= k < i + size - 1 :: GoesOn(lines[k])
  }

  /** A comment takes all its lines with it. */
  lemma {:induction false} CommentTakesAll(lines: seq<string>, i: nat, size: nat)
    requires OneComment(lines, i, size)
    ensures CommentEnd(lines, i) == i + size - 1
    decreases size
  {
    if size > 1 {
      GoesOnIsContinued(lines[i]);
      CommentTakesAll(lines, i + 1, size - 1);
    } else {
      StopsIsNot(lines[i]);
    }
  }

  lemma {:induction false} CommentMark(indent: string, mark: char, rest: string)
    requires Blank(indent) && (mark == '#' || mark == ';')
    ensures UnitParse.IsComment(Text.TrimSpace(Raw(indent + [mark] + rest)))
  {
    var s := indent + [mark] + rest;
    DropKeeps(indent + [mark], rest, CR);
    var r := Raw(s)[|indent| + 1..];
    assert Raw(s) == indent + ([mark] + r);
    Text.TrimLeftAll(indent, [mark] + r);
    assert Text.TrimLeft([mark] + r) == [mark] + r;
    TrimRightKeeps(mark, r);
  }

  lemma {:induction false} DropKeeps(a: string, b: string, cut: set<char>)
    requires a != "" && a[|a| - 1] !in cut
    ensures a <= Text.DropRight(a + b, cut)
  {
    if b == "" {
      assert a + b == a;
    } else {
      var n := |b| - 1;
      assert (a + b)[..|a + b| - 1] == a + b[..n];
      DropKeeps(a, b[..n], cut);
    }
  }

  lemma {:induction false} TrimRightKeeps(c: char, b: string)
    requires !Text.IsSpace(c)
    ensures Text.TrimRight([c] + b) != "" && Text.TrimRight([c] + b)[0] == c
  {
    if b != "" {
      var n := |b| - 1;
      assert ([c] + b)[..|[c] + b| - 1] == [c] + b[..n];
      TrimRightKeeps(c, b[..n]);
    }
  }

  // ---------------------------------------------------------------- a whole file

  /**
   * What a unit file is made of. A setting's first row holds the name, blanks, "=", blanks and the first part of the
   * value; the value may be empty.
   */
  datatype Item =
    | Nothing
    | Note(indent: string, mark: char, rest: string, size: nat)
    | Header(row: Row, section: string)
    | Setting(name: string, before: string, after: string, start: string, rows: seq<Row>)
  {
    function Size(): nat {
      match this
      case Note(_, _, _, size) => size
      case Setting(_, _, _, _, rows) => |rows|
      case _ => 1
    }

    ghost predicate Ok() {
      match this
      case Nothing => true
      case Note(indent, mark, _, _) => Blank(indent) && (mark == '#' || mark == ';')
      case Header(row, section) => row.Ok() && row.piece == ['['] + section + [']']
      case Setting(name, before, after, start, rows) =>
        && rows != [] && RowsOk(rows) && IsName(name) && Blank(before) && Blank(after)
        && Text.Trimmed(start) && (start == "" ==> after == "")
        && rows[0].piece == name + before + "=" + after + start
    }

    /** The item stands in the file from line i on. */
    ghost predicate Stands(lines: seq<string>, i: nat) {
      match this
      case Nothing => i < |lines| && forall k | 0 <= k < |lines[i]| :: lines[i][k] in ENDS
      case Note(indent, mark, rest, size) => OneComment(lines, i, size) && lines[i] == indent + [mark] + rest
      case Header(row, _) => i < |lines| && lines[i] == row.Whole()
      case Setting(_, _, _, _, rows) => RowsStand(lines, i, rows)
    }

    /** The value, whatever its layout: its parts with one space between them. */
    function Value(): string
      requires Setting?
    {
      if |rows| < 2 then start else if start == "" then Spaced(rows, 1) else start + " " + Spaced(rows, 1)
    }
  }

  predicate IsName(name: string) {
    name != "" && Text.Trimmed(name) && '=' !in name && name[0] != '#' && name[0] != ';' && name[0] != '['
  }

  /** What one item adds: a setting of the requested section that was asked for, with its value and first line. */
  function Adds(it: Item, line: nat, section: ID, origin: ID, req: Request): seq<Directive> {
    if it.Setting? && section == req.section && ID(it.name) in req.directives
    then [Directive(ID(it.name), ID(it.Value()), origin, line)] else []
  }

  /** The section after one item. */
  function Then(it: Item, section: ID): ID { if it.Header? then ID(it.section) else section }

  /** Each item stands where the one before it ends, from the first line to the last. */
  ghost predicate Filling(lines: seq<string>, items: seq<Item>, starts: seq<nat>) {
    && |starts| == |items| + 1 && starts[0] == 0 && starts[|items|] == |lines|
    && forall k | 0 <= k < |items| :: ItemFills(lines, items[k], starts[k], starts[k + 1])
  }

  ghost predicate ItemFills(lines: seq<string>, it: Item, i: nat, next: nat) {
    it.Ok() && it.Stands(lines, i) && next == i + it.Size()
  }

  /** What the items from the k-th on mean, in the given section. */
  function Meant(items: seq<Item>, starts: seq<nat>, k: nat, section: ID, origin: ID, req: Request): seq<Directive>
    requires k <= |items| == |starts| - 1
    decreases |items| - k
  {
    if k == |items| then []
    else Adds(items[k], starts[k] + 1, section, origin, req) + Meant(items, starts, k + 1, Then(items[k], section), origin, req)
  }

  // ---------------------------------------------------------------- reading one item

  lemma {:induction false} NothingReads(lines: seq<string>, i: nat, section: ID, origin: ID, req: Request)
    requires i < |lines| && forall k | 0 <= k < |lines[i]| :: lines[i][k] in ENDS
    ensures From(lines, i, section, origin, req) == From(lines, i + 1, section, origin, req)
  {
    AllDropped(lines[i]);
    assert lines[i] == "" + lines[i];
    assert StopsThere(lines[i]);
    StopsIsNot(lines[i]);
    FromComment(lines, i, section, origin, req);
  }

  lemma {:induction false} AllDropped(text: string)
    requires forall k | 0 <= k < |text| :: text[k] in ENDS
    ensures Text.TrimSpace(Raw(text)) == ""
  {
    RawIsPrefix(text);
    var r := Raw(text);
    assert forall k | 0 <= k < |r| :: r[k] == text[k] && Text.IsSpace(r[k]);
    assert r + "" == r;
    Text.TrimLeftAll(r, "");
  }

  lemma {:induction false} RawIsPrefix(s: string)
    ensures Raw(s) <= s
  {
    if s != "" && s[|s| - 1] == '\r' { RawIsPrefix(s[..|s| - 1]); }
  }

  lemma {:induction false} CommentReads(lines: seq<string>, i: nat, size: nat, section: ID, origin: ID, req: Request)
    requires OneComment(lines, i, size) && UnitParse.IsComment(Text.TrimSpace(Raw(lines[i])))
    ensures From(lines, i, section, origin, req) == From(lines, i + size, section, origin, req)
  {
    CommentTakesAll(lines, i, size);
    FromComment(lines, i, section, origin, req);
  }

  lemma {:induction false} HeaderReads(lines: seq<string>, i: nat, row: Row, section: string, was: ID, origin: ID, req: Request)
    requires i < |lines| && lines[i] == row.Whole() && row.Ok() && row.piece == ['['] + section + [']']
    ensures From(lines, i, was, origin, req) == From(lines, i + 1, ID(section), origin, req)
  {
    var s := row.piece;
    RawOfWhole(row);
    IndentedPiece(row.indent, s);
    PieceStops(row.indent + s, row.trail);
    assert s[0] == '[' && s[|s| - 1] == ']' && s[1..|s| - 1] == section;
    FromStatement(lines, i, was, origin, req);
  }

  lemma {:induction false} IndentedPiece(indent: string, s: string)
    requires IsPiece(s)
    ensures EndsWell(indent + s)
  {
    assert (indent + s)[|indent + s| - 1] == s[|s| - 1];
  }

  /** The statement a setting's rows make. */
  lemma {:induction false} RowsAreOneStatement(lines: seq<string>, i: nat, rows: seq<Row>)
    requires rows != [] && RowsOk(rows) && RowsStand(lines, i, rows)
    ensures Joined(lines, i, Raw(lines[i])) ==
              (rows[0].indent + Spaced(rows, 0) + (if |rows| == 1 then rows[0].trail else ""), i + |rows| - 1)
  {
    assert RowStands(lines, i, rows, 0) && rows[0].Ok();
    if |rows| == 1 {
      OneRowStatement(lines, i, rows[0]);
    } else {
      RowsJoined(lines, i, rows);
      IndentedRest(rows[0].indent, rows[0].piece, Spaced(rows, 1));
    }
  }

  lemma {:induction false} OneRowStatement(lines: seq<string>, i: nat, r: Row)
    requires i < |lines| && r.Ok() && lines[i] == r.Whole()
    ensures Joined(lines, i, Raw(lines[i])) == (r.indent + r.piece + r.trail, i)
  {
    RawOfWhole(r);
    IndentedPiece(r.indent, r.piece);
    PieceStops(r.indent + r.piece, r.trail);
  }

  lemma {:induction false} RowsJoined(lines: seq<string>, i: nat, rows: seq<Row>)
    requires |rows| > 1 && RowsOk(rows) && RowsStand(lines, i, rows)
    ensures Joined(lines, i, Raw(lines[i])) == (rows[0].indent + rows[0].piece + " " + Spaced(rows, 1), i + |rows| - 1)
  {
    var r := rows[0];
    assert RowStands(lines, i, rows, 0) && r.Ok();
    RawOfBroken(r);
    IndentedPiece(r.indent, r.piece);
    var acc := r.indent + r.piece;
    assert r.indent + Going(r.piece, r.gap, r.trail) == Going(acc, r.gap, r.trail);
    RestIsJoined(JoinsOf(lines), lines, i, rows, 1, acc, r.gap, r.trail);
  }

  lemma {:induction false} IndentedRest(a: string, b: string, c: string)
    ensures a + b + " " + c == a + (b + " " + c) + ""
  {
  }

  lemma {:induction false} SpacedIsPiece(rows: seq<Row>, k: nat)
    requires k < |rows| && RowsOk(rows)
    ensures IsPiece(Spaced(rows, k)) && Spaced(rows, k)[0] == rows[k].piece[0]
    decreases |rows| - k
  {
    assert rows[k].Ok();
    if k + 1 < |rows| {
      SpacedIsPiece(rows, k + 1);
      TwoPieces(rows[k].piece, Spaced(rows, k + 1));
    }
  }

  lemma {:induction false} TwoPieces(a: string, b: string)
    requires IsPiece(a) && IsPiece(b)
    ensures IsPiece(a + " " + b) && (a + " " + b)[0] == a[0]
  {
    var s := a + " " + b;
    assert s[0] == a[0] && s[|s| - 1] == b[|b| - 1];
    assert forall x | x in s :: x in a || x == ' ' || x in b;
  }

  lemma {:induction false} FirstRowStartsIt(r: Row, line: string)
    requires r.Ok() && (line == r.Whole() || line == r.Broken()) && r.piece[0] != '#' && r.piece[0] != ';'
    ensures !UnitParse.IsComment(Text.TrimSpace(Raw(line)))
  {
    if line == r.Whole() {
      RawOfWhole(r);
    } else {
      RawOfBroken(r);
      assert (r.piece + r.gap + BS)[0] == r.piece[0];
    }
  }

  /** What follows the first row's piece in a setting's statement. */
  function Tail(it: Item): string
    requires it.Setting?
  {
    if |it.rows| < 2 then "" else " " + Spaced(it.rows, 1)
  }

  lemma {:induction false} SettingText(it: Item)
    requires it.Setting? && it.Ok()
    ensures Spaced(it.rows, 0) == (it.name + it.before) + ['='] + (it.after + it.start + Tail(it))
  {
    var piece, tail := it.rows[0].piece, Tail(it);
    PieceAndTail(it.rows, tail);
    Glue(it.name, it.before, it.after, it.start, tail);
  }

  lemma {:induction false} PieceAndTail(rows: seq<Row>, tail: string)
    requires rows != [] && tail == if |rows| < 2 then "" else " " + Spaced(rows, 1)
    ensures Spaced(rows, 0) == rows[0].piece + tail
  {
  }

  lemma {:induction false} Glue(a: string, b: string, c: string, d: string, e: string)
    ensures a + b + "=" + c + d + e == (a + b) + ['='] + (c + d + e)
  {
  }

  /** Name and value of a setting's statement. */
  lemma {:induction false} SettingAssigns(it: Item, line: int, origin: ID, wanted: seq<ID>)
    requires it.Setting? && it.Ok()
    ensures Assignment(Statement(line, Spaced(it.rows, 0)), origin, wanted) ==
              if ID(it.name) in wanted then Some(Directive(ID(it.name), ID(it.Value()), origin, line)) else None
  {
    SettingText(it);
    CutAtEquals(it.name + it.before, it.after + it.start + Tail(it), line, origin, wanted);
    NameTrimmed(it.name, it.before);
    ValueTrimmed(it);
  }

  lemma {:induction false} NameTrimmed(name: string, before: string)
    requires IsName(name) && Blank(before)
    ensures Text.TrimSpace(name + before) == name
  {
    assert "" + name + before == name + before;
    Text.TrimAround("", name, before);
  }

  lemma {:induction false} CutAtEquals(key: string, value: string, line: int, origin: ID, wanted: seq<ID>)
    requires '=' !in key
    ensures var name := ID(Text.TrimSpace(key));
            Assignment(Statement(line, key + ['='] + value), origin, wanted) ==
              if name in wanted then Some(Directive(name, ID(Text.TrimSpace(value)), origin, line)) else None
  {
    var s := key + ['='] + value;
    Text.IndexOfFirst(key, value, '=');
    assert s[..|key|] == key && s[|key| + 1..] == value;
  }

  lemma {:induction false} ValueTrimmed(it: Item)
    requires it.Setting? && it.Ok()
    ensures Text.TrimSpace(it.after + it.start + Tail(it)) == it.Value()
  {
    var tail := Tail(it);
    if |it.rows| == 1 {
      if it.start == "" {
        assert it.after + it.start + tail == "";
      } else {
        Text.TrimAround(it.after, it.start, "");
      }
    } else {
      var rest := Spaced(it.rows, 1);
      SpacedIsPiece(it.rows, 1);
      if it.start == "" {
        assert it.after + it.start + tail == " " + rest + "";
        Text.TrimAround(" ", rest, "");
      } else {
        var v := it.start + " " + rest;
        assert it.after + it.start + tail == it.after + v + "";
        assert v[0] == it.start[0] && v[|v| - 1] == rest[|rest| - 1];
        Text.TrimAround(it.after, v, "");
      }
    }
  }

  lemma {:induction false} SettingStatement(lines: seq<string>, i: nat, it: Item)
    requires it.Setting? && it.Ok() && it.Stands(lines, i)
    ensures i < |lines| && !UnitParse.IsComment(Text.TrimSpace(Raw(lines[i]))) && !IsSection(Spaced(it.rows, 0))
    ensures var (text, last) := Joined(lines, i, Raw(lines[i])); Text.TrimSpace(text) == Spaced(it.rows, 0) && last + 1 == i + |it.rows|
  {
    var rows := it.rows;
    assert RowStands(lines, i, rows, 0) && rows[0].Ok();
    assert rows[0].piece[0] == it.name[0];
    FirstRowStartsIt(rows[0], lines[i]);
    RowsAreOneStatement(lines, i, rows);
    SpacedIsPiece(rows, 0);
    Text.TrimAround(rows[0].indent, Spaced(rows, 0), if |rows| == 1 then rows[0].trail else "");
  }

  lemma {:induction false} KeptIsAdded(it: Item, line: nat, section: ID, origin: ID, req: Request, d: Option<Directive>, rest: seq<Directive>)
    requires it.Setting?
    requires d == if ID(it.name) in req.directives then Some(Directive(ID(it.name), ID(it.Value()), origin, line)) else None
    ensures (if section != req.section then rest else Kept(d, rest)) == Adds(it, line, section, origin, req) + rest
  {
  }

  /** What is read from a place on, whatever it is. */
  type Reads = (nat, ID) -> seq<Directive>

  ghost predicate ReadsIn(from: Reads, lines: seq<string>, origin: ID, req: Request) {
    forall i: nat, section: ID | i <= |lines| :: from(i, section) == From(lines, i, section, origin, req)
  }

  function ReadsOf(lines: seq<string>, origin: ID, req: Request): Reads {
    (i: nat, section: ID) => if i <= |lines| then From(lines, i, section, origin, req) else []
  }

  lemma {:induction false} StatementRead(from: Reads, lines: seq<string>, i: nat, text: string, next: nat, section: ID, origin: ID, req: Request)
    requires ReadsIn(from, lines, origin, req) && i < |lines| && !UnitParse.IsComment(Text.TrimSpace(Raw(lines[i]))) && !IsSection(text)
    requires var (raw, last) := Joined(lines, i, Raw(lines[i])); Text.TrimSpace(raw) == text && next == last + 1
    ensures from(i, section) ==
              if section != req.section then from(next, section)
              else Kept(Assignment(Statement(i + 1, text), origin, req.directives), from(next, section))
  {
    FromStatement(lines, i, section, origin, req);
  }

  lemma {:induction false} SettingReads(from: Reads, lines: seq<string>, i: nat, it: Item, next: nat, section: ID, origin: ID, req: Request)
    requires ReadsIn(from, lines, origin, req) && it.Setting? && ItemFills(lines, it, i, next)
    ensures from(i, section) == Adds(it, i + 1, section, origin, req) + from(next, section)
  {
    SettingStatement(lines, i, it);
    StatementRead(from, lines, i, Spaced(it.rows, 0), next, section, origin, req);
    SettingAssigns(it, i + 1, origin, req.directives);
    KeptIsAdded(it, i + 1, section, origin, req, Assignment(Statement(i + 1, Spaced(it.rows, 0)), origin, req.directives), from(next, section));
  }

  lemma {:induction false} NothingRead(from: Reads, lines: seq<string>, i: nat, it: Item, next: nat, section: ID, origin: ID, req: Request)
    requires ReadsIn(from, lines, origin, req) && it.Nothing? && ItemFills(lines, it, i, next)
    ensures from(i, section) == from(next, section)
  {
    NothingReads(lines, i, section, origin, req);
  }

  lemma {:induction false} NoteRead(from: Reads, lines: seq<string>, i: nat, it: Item, next: nat, section: ID, origin: ID, req: Request)
    requires ReadsIn(from, lines, origin, req) && it.Note? && ItemFills(lines, it, i, next)
    ensures from(i, section) == from(next, section)
  {
    CommentMark(it.indent, it.mark, it.rest);
    CommentReads(lines, i, it.size, section, origin, req);
  }

  lemma {:induction false} HeaderRead(from: Reads, lines: seq<string>, i: nat, it: Item, next: nat, section: ID, origin: ID, req: Request)
    requires ReadsIn(from, lines, origin, req) && it.Header? && ItemFills(lines, it, i, next)
    ensures from(i, section) == from(next, ID(it.section))
  {
    HeaderReads(lines, i, it.row, it.section, section, origin, req);
  }

  // ---------------------------------------------------------------- reading them all

  /** One item is read as what it adds, and then the rest. */
  ghost predicate ReadsItem(from: Reads, it: Item, i: nat, next: nat, section: ID, origin: ID, req: Request) {
    from(i, section) == Adds(it, i + 1, section, origin, req) + from(next, Then(it, section))
  }

  ghost predicate ReadsNth(from: Reads, items: seq<Item>, starts: seq<nat>, j: nat, section: ID, origin: ID, req: Request)
    requires j < |items| == |starts| - 1
  {
    ReadsItem(from, items[j], starts[j], starts[j + 1], section, origin, req)
  }

  lemma {:induction false} ItemReads(from: Reads, lines: seq<string>, i: nat, it: Item, next: nat, section: ID, origin: ID, req: Request)
    requires ReadsIn(from, lines, origin, req) && ItemFills(lines, it, i, next)
    ensures ReadsItem(from, it, i, next, section, origin, req)
  {
    if it.Setting? {
      SettingReads(from, lines, i, it, next, section, origin, req);
    } else {
      if it.Nothing? {
        NothingRead(from, lines, i, it, next, section, origin, req);
      } else if it.Note? {
        NoteRead(from, lines, i, it, next, section, origin, req);
      } else {
        HeaderRead(from, lines, i, it, next, section, origin, req);
      }
      assert [] + from(next, Then(it, section)) == from(next, Then(it, section));
    }
  }

  /** Whatever is read item by item, each from where the last one ended, is what the items mean. */
  lemma {:induction false} Chained(from: Reads, items: seq<Item>, starts: seq<nat>, k: nat, section: ID, origin: ID, req: Request)
    requires k <= |items| == |starts| - 1 && forall last: ID :: from(starts[|items|], last) == []
    requires forall j: nat, now: ID | j < |items| :: ReadsNth(from, items, starts, j, now, origin, req)
    ensures from(starts[k], section) == Meant(items, starts, k, section, origin, req)
    decreases |items| - k
  {
    if k < |items| {
      assert ReadsNth(from, items, starts, k, section, origin, req);
      Chained(from, items, starts, k + 1, Then(items[k], section), origin, req);
    }
  }

  lemma {:induction false} LinesRead(lines: seq<string>, items: seq<Item>, starts: seq<nat>, origin: ID, req: Request)
    requires Filling(lines, items, starts)
    ensures From(lines, 0, EMPTY, origin, req) == Meant(items, starts, 0, EMPTY, origin, req)
  {
    var from := ReadsOf(lines, origin, req);
    forall j: nat, now: ID | j < |items| ensures ReadsNth(from, items, starts, j, now, origin, req) {
      assert ItemFills(lines, items[j], starts[j], starts[j + 1]);
      ItemReads(from, lines, starts[j], items[j], starts[j + 1], now, origin, req);
    }
    NothingLeft(lines, origin, req);
    Chained(from, items, starts, 0, EMPTY, origin, req);
  }

  lemma {:induction false} NothingLeft(lines: seq<string>, origin: ID, req: Request)
    ensures forall section :: From(lines, |lines|, section, origin, req) == []
  {
  }

  /** However it is laid out, a unit file gives the settings it means: values whole, comments hidden, first lines numbered. */
  lemma {:induction false} AnyLayoutReadsBack(lines: seq<string>, items: seq<Item>, starts: seq<nat>, origin: ID, req: Request)
    requires Filling(lines, items, starts) && lines != [] && forall k | 0 <= k < |lines| :: '\n' !in lines[k]
    ensures Parsed(Text.Join(lines, '\n'), origin, req) == Meant(items, starts, 0, EMPTY, origin, req)
  {
    Text.SplitJoin(lines, '\n');
    LinesRead(lines, items, starts, origin, req);
  }
}
