/** Reading the kernel's mount table (internal/collect/walker/mounts.go). */
module Mounts {
  import opened Basics
  import opened Ids
  import opened WalkSpec
  import Text

  // ---------------------------------------------------------------- octal escapes

  const BACKSLASH := '\\'

  predicate IsDigit(c: char) { '0' <= c <= '7' }

  /** strconv.ParseUint of three octal digits into eight bits: "400" and up do not fit. */
  function Octal(a: char, b: char, c: char): Option<char> {
    if IsDigit(a) && IsDigit(b) && IsDigit(c) && a <= '3'
    then Some(((a as int - 48) * 64 + (b as int - 48) * 8 + (c as int - 48)) as char)
    else None
  }

  /** What the front of a text stands for, and how much of it that takes. */
  function Front(s: string): (char, nat)
    requires |s| > 0
  {
    if s[0] != BACKSLASH || |s| <= 3 || Octal(s[1], s[2], s[3]).None? then (s[0], 1) else (Octal(s[1], s[2], s[3]).value, 4)
  }

  function Unescaped(s: string): string
    decreases |s|
  {
    if |s| == 0 then [] else [Front(s).0] + Unescaped(s[Front(s).1..])
  }

  lemma {:induction false} PlainStays(s: string)
    requires BACKSLASH !in s
    ensures Unescaped(s) == s
  {
    if |s| > 0 {
      assert s[0] in s && s == [s[0]] + s[1..];
      PlainStays(s[1..]);
    }
  }

  lemma {:induction false} UnescapeStep(out: string, s: string)
    requires |s| > 0
    ensures out + Unescaped(s) == out + [Front(s).0] + Unescaped(s[Front(s).1..])
  {
  }

  method Unescape(s: string) returns (out: string)
    ensures out == Unescaped(s)
  {
    if BACKSLASH !in s {
      PlainStays(s);
      return s;
    }
    out := [];
    var i := 0;
    assert s[0..] == s && out + Unescaped(s) == Unescaped(s);
    while i < |s|
      invariant 0 <= i <= |s| && out + Unescaped(s[i..]) == Unescaped(s)
    {
      UnescapeStep(out, s[i..]);
      assert s[i..][1..] == s[i + 1..] && (i + 4 <= |s| ==> s[i..][4..] == s[i + 4..]);
      if s[i] != BACKSLASH || i + 3 >= |s| {
        out, i := out + [s[i]], i + 1;
        continue;
      }
      var n := Octal(s[i + 1], s[i + 2], s[i + 3]);
      if n.None? {
        out, i := out + [s[i]], i + 1;
        continue;
      }
      out, i := out + [n.value], i + 4;
    }
    assert out + Unescaped([]) == out;
  }

  /** The characters the kernel escapes: the backslash among them, and ASCII ones only. */
  ghost predicate Escapes(special: char -> bool) {
    special(BACKSLASH) && forall c | special(c) :: c as int < 128
  }

  /** How the kernel writes a name: the special characters as three octal digits. */
  function Escaped(special: char -> bool, s: string): string {
    if |s| == 0 then [] else EscapedChar(special, s[0]) + Escaped(special, s[1..])
  }

  function DigitOf(n: int): char
    requires 0 <= n < 8
  {
    (48 + n) as char
  }

  function EscapedChar(special: char -> bool, c: char): string {
    if special(c) && c as int < 128
    then [BACKSLASH, DigitOf(c as int / 64), DigitOf(c as int / 8 % 8), DigitOf(c as int % 8)]
    else [c]
  }

  lemma {:induction false} FrontOfEscaped(special: char -> bool, c: char, rest: string)
    requires Escapes(special)
    ensures Front(EscapedChar(special, c) + rest) == (c, |EscapedChar(special, c)|)
    ensures (EscapedChar(special, c) + rest)[|EscapedChar(special, c)|..] == rest
  {
  }

  /** Whatever else the kernel escapes besides the backslash, reading gives the name back. */
  lemma {:induction false} EscapedReadsBack(special: char -> bool, s: string)
    requires Escapes(special)
    ensures Unescaped(Escaped(special, s)) == s
  {
    if |s| > 0 {
      EscapedReadsBack(special, s[1..]);
      FrontOfEscaped(special, s[0], Escaped(special, s[1..]));
      assert s == [s[0]] + s[1..];
    }
  }

  /** An escaped name holds a space exactly where one was not escaped. */
  lemma {:induction false} EscapedSpaces(special: char -> bool, s: string)
    requires Escapes(special)
    ensures HasSpace(Escaped(special, s)) <==> exists c :: c in s && Text.IsSpace(c) && !special(c)
    ensures s != "" ==> Escaped(special, s) != ""
  {
    if |s| > 0 {
      EscapedSpaces(special, s[1..]);
      SpaceInEither(EscapedChar(special, s[0]), Escaped(special, s[1..]));
      SpaceInEscape(special, s[0]);
      assert forall c :: c in s <==> c == s[0] || c in s[1..];
    }
  }

  lemma {:induction false} SpaceInEscape(special: char -> bool, c: char)
    requires Escapes(special)
    ensures HasSpace(EscapedChar(special, c)) <==> Text.IsSpace(c) && !special(c)
  {
    var e := EscapedChar(special, c);
    assert e[0] == if special(c) then BACKSLASH else c;
    if special(c) {
      assert forall i | 0 <= i < 4 :: !Text.IsSpace(e[i]);
    } else {
      assert HasSpace(e) <==> Text.IsSpace(e[0]);
    }
  }

  predicate HasSpace(s: string) { exists i | 0 <= i < |s| :: Text.IsSpace(s[i]) }

  lemma {:induction false} SpaceInEither(a: string, b: string)
    ensures HasSpace(a + b) <==> HasSpace(a) || HasSpace(b)
  {
    if HasSpace(a) {
      var i :| 0 <= i < |a| && Text.IsSpace(a[i]);
      assert (a + b)[i] == a[i];
    }
    if HasSpace(b) {
      var i :| 0 <= i < |b| && Text.IsSpace(b[i]);
      assert (a + b)[|a| + i] == b[i];
    }
    if HasSpace(a + b) {
      var i :| 0 <= i < |a + b| && Text.IsSpace((a + b)[i]);
      assert i < |a| ==> a[i] == (a + b)[i];
      assert i >= |a| ==> b[i - |a|] == (a + b)[i];
    }
  }

  // ---------------------------------------------------------------- fields

  /** Everything up to the first space. */
  function Word(s: string): (w: string)
    ensures |w| <= |s|
  {
    if s == "" || Text.IsSpace(s[0]) then "" else [s[0]] + Word(s[1..])
  }

  /** strings.Fields. */
  function Fields(s: string): seq<string>
    decreases |s|
  {
    if s == "" then []
    else if Text.IsSpace(s[0]) then Fields(s[1..])
    else [Word(s)] + Fields(s[|Word(s)|..])
  }

  predicate IsField(s: string) { s != "" && !HasSpace(s) }

  lemma {:induction false} WordHasNoSpace(s: string)
    ensures !HasSpace(Word(s)) && Word(s) <= s
  {
    if s != "" && !Text.IsSpace(s[0]) {
      WordHasNoSpace(s[1..]);
      SpaceInEither([s[0]], Word(s[1..]));
    }
  }

  lemma {:induction false} FieldsHaveNoSpace(s: string)
    ensures forall i | 0 <= i < |Fields(s)| :: !HasSpace(Fields(s)[i])
    decreases |s|
  {
    if s != "" {
      if Text.IsSpace(s[0]) {
        FieldsHaveNoSpace(s[1..]);
      } else {
        WordHasNoSpace(s);
        FieldsHaveNoSpace(s[|Word(s)|..]);
      }
    }
  }

  lemma {:induction false} WordEnds(f: string, rest: string)
    requires !HasSpace(f) && (rest == "" || Text.IsSpace(rest[0]))
    ensures Word(f + rest) == f
  {
    if f == "" {
      assert f + rest == rest;
    } else {
      SpaceInEither([f[0]], f[1..]);
      assert f == [f[0]] + f[1..] && (f + rest)[1..] == f[1..] + rest;
      assert !Text.IsSpace(f[0]) by { assert f[0] == [f[0]][0]; }
      WordEnds(f[1..], rest);
    }
  }

  lemma {:induction false} FieldFirst(f: string, rest: string)
    requires IsField(f) && (rest == "" || Text.IsSpace(rest[0]))
    ensures Fields(f + rest) == [f] + Fields(rest)
  {
    WordEnds(f, rest);
    assert (f + rest)[|f|..] == rest && (f + rest)[0] == f[0];
  }

  /** Fields joined by single spaces are read back. */
  lemma {:induction false} FieldsReadBack(fields: seq<string>)
    requires fields != [] && forall i | 0 <= i < |fields| :: IsField(fields[i])
    ensures Fields(Text.Join(fields, ' ')) == fields
  {
    assert Text.IsSpace(' ');
    if |fields| == 1 {
      FieldFirst(fields[0], "");
      assert fields[0] + "" == fields[0];
    } else {
      var rest := Text.Join(fields[1..], ' ');
      FieldsReadBack(fields[1..]);
      FieldFirst(fields[0], [' '] + rest);
      assert ([' '] + rest)[1..] == rest;
      assert fields[0] + [' '] + rest == fields[0] + ([' '] + rest);
      assert fields == [fields[0]] + fields[1..];
    }
  }

  // ---------------------------------------------------------------- option lists

  function Kept(parts: seq<string>): seq<string> {
    if parts == [] then []
    else (if Text.TrimSpace(parts[0]) != "" then [Text.TrimSpace(parts[0])] else []) + Kept(parts[1..])
  }

  /** splitOptions: the parts between commas, trimmed, without the empty ones. */
  function Options(s: string): seq<string> {
    if s == "" then [] else Kept(Text.Split(s, ','))
  }

  predicate IsOption(s: string) { s != "" && ',' !in s && Text.Trimmed(s) }

  lemma {:induction false} KeptOptions(parts: seq<string>)
    requires forall i | 0 <= i < |parts| :: IsOption(parts[i])
    ensures Kept(parts) == parts
  {
    if parts != [] {
      Text.TrimmedStays(parts[0]);
      KeptOptions(parts[1..]);
      assert parts == [parts[0]] + parts[1..];
    }
  }

  /** A list of proper options, joined with commas, is read back. */
  lemma {:induction false} OptionsReadBack(parts: seq<string>)
    requires parts != [] && forall i | 0 <= i < |parts| :: IsOption(parts[i])
    ensures Options(Text.Join(parts, ',')) == parts
  {
    Text.SplitJoin(parts, ',');
    KeptOptions(parts);
    assert parts[0] != "";
  }

  // ---------------------------------------------------------------- one line

  datatype Entry = Entry(fstype: ID, options: seq<ID>, superOpts: seq<ID>)

  datatype Mount = Mount(point: ID, entry: Entry)

  /** What a field goes through: splitOptions, and path.Clean after unescapeMountField. */
  datatype Reader = Reader(options: ID -> seq<ID>, place: ID -> ID)

  const DASH := ID("-")

  /** The first separator from k on. */
  function Separator(fields: seq<ID>, k: nat): Option<nat>
    decreases |fields| - k
  {
    if k >= |fields| then None else if fields[k] == DASH then Some(k) else Separator(fields, k + 1)
  }

  lemma {:induction false} SeparatorIsFirst(fields: seq<ID>, k: nat, m: nat)
    requires k <= m < |fields| && fields[m] == DASH && forall i | k <= i < m :: fields[i] != DASH
    ensures Separator(fields, k) == Some(m)
    decreases m - k
  {
    if k < m { SeparatorIsFirst(fields, k + 1, m); }
  }

  function LineOf(r: Reader, fields: seq<ID>): Option<Mount> {
    if |fields| < 10 || Separator(fields, 6).None? || Separator(fields, 6).value + 2 >= |fields| then None
    else
      var sep := Separator(fields, 6).value;
      Some(Mount(r.place(fields[4]),
                 Entry(fields[sep + 1], r.options(fields[5]), if sep + 3 < |fields| then r.options(fields[sep + 3]) else [])))
  }

  method ParseLine(r: Reader, fields: seq<ID>) returns (m: Option<Mount>)
    ensures m == LineOf(r, fields)
  {
    if |fields| < 10 { return None; }
    var sep := -1;
    var i := 6;
    while i < |fields|
      invariant 6 <= i <= |fields| && sep == -1 && Separator(fields, 6) == Separator(fields, i)
    {
      if fields[i] == DASH {
        sep := i;
        break;
      }
      i := i + 1;
    }
    if sep < 0 || sep + 2 >= |fields| { return None; }
    var superOpts := [];
    if sep + 3 < |fields| { superOpts := r.options(fields[sep + 3]); }
    return Some(Mount(r.place(fields[4]), Entry(fields[sep + 1], r.options(fields[5]), superOpts)));
  }

  /** A line of mountinfo(5): six fields, optional ones, a dash, and three more. */
  function Line(head: seq<ID>, point: ID, options: ID, optional: seq<ID>, fstype: ID, source: ID, superOpts: ID): seq<ID> {
    head + [point, options] + optional + [DASH, fstype, source, superOpts]
  }

  /** However many optional fields a line has, its type and options are found. */
  lemma {:induction false} LineReadsBack(r: Reader, head: seq<ID>, point: ID, options: ID, optional: seq<ID>, fstype: ID, source: ID, superOpts: ID)
    requires |head| == 4 && DASH !in optional
    ensures LineOf(r, Line(head, point, options, optional, fstype, source, superOpts))
         == Some(Mount(r.place(point), Entry(fstype, r.options(options), r.options(superOpts))))
  {
    var fields := Line(head, point, options, optional, fstype, source, superOpts);
    var m := 6 + |optional|;
    assert fields[4] == point && fields[5] == options;
    assert fields[m] == DASH && fields[m + 1] == fstype && fields[m + 3] == superOpts;
    forall i | 6 <= i < m ensures fields[i] != DASH {
      assert fields[i] == optional[i - 6] && optional[i - 6] in optional;
    }
    SeparatorIsFirst(fields, 6, m);
  }

  // ---------------------------------------------------------------- the table

  /** order lists the mount points as they first appear; known is false when the table could not be read whole. */
  datatype Table = Table(byPoint: map<ID, Entry>, order: seq<ID>, known: bool)

  const UNKNOWN := Table(map[], [], false)

  /** What reading the file gave: an error, or its text and whether it was cut short. */
  datatype Source = Failed | Content(text: string, truncated: bool)

  function IDs(names: seq<string>): seq<ID> {
    seq(|names|, i requires 0 <= i < |names| => ID(names[i]))
  }

  /** The fields of every line of the file. */
  function LinesOf(text: string): seq<seq<ID>> {
    var lines := Text.Split(text, '\n');
    seq(|lines|, i requires 0 <= i < |lines| => IDs(Fields(lines[i])))
  }

  /** The last line for the point, which is what the kernel resolves through. */
  function InForce(r: Reader, lines: seq<seq<ID>>, point: ID): Option<Entry> {
    if lines == [] then None
    else
      var m := LineOf(r, lines[|lines| - 1]);
      if m.Some? && m.value.point == point then Some(m.value.entry) else InForce(r, lines[..|lines| - 1], point)
  }

  /** The first line that names the point; the number of lines when none does. */
  function FirstLine(r: Reader, lines: seq<seq<ID>>, point: ID): (k: nat)
    ensures k <= |lines|
  {
    if lines == [] then 0
    else if LineOf(r, lines[0]).Some? && LineOf(r, lines[0]).value.point == point then 0
    else 1 + FirstLine(r, lines[1..], point)
  }

  /** Every point once, in the order of first appearance, with its last entry. */
  ghost predicate IsTable(r: Reader, lines: seq<seq<ID>>, t: Table) {
    && NoDuplicates(t.order) && (forall p :: p in t.order <==> p in t.byPoint)
    && (forall p :: InForce(r, lines, p) == if p in t.byPoint then Some(t.byPoint[p]) else None)
    && (forall i, j | 0 <= i < j < |t.order| :: FirstLine(r, lines, t.order[i]) < FirstLine(r, lines, t.order[j]))
  }

  lemma {:induction false} FirstLineSnoc(r: Reader, lines: seq<seq<ID>>, last: seq<ID>, point: ID)
    ensures var k := FirstLine(r, lines, point);
            FirstLine(r, lines + [last], point)
            == if k < |lines| then k
               else if LineOf(r, last).Some? && LineOf(r, last).value.point == point then |lines| else |lines| + 1
  {
    if lines != [] {
      FirstLineSnoc(r, lines[1..], last, point);
      assert (lines + [last])[1..] == lines[1..] + [last];
    } else {
      assert ([] + [last])[1..] == [];
    }
  }

  lemma {:induction false} NamedSomewhere(r: Reader, lines: seq<seq<ID>>, point: ID)
    ensures InForce(r, lines, point).Some? <==> FirstLine(r, lines, point) < |lines|
  {
    if lines != [] {
      var n := |lines| - 1;
      NamedSomewhere(r, lines[..n], point);
      FirstLineSnoc(r, lines[..n], lines[n], point);
      assert lines == lines[..n] + [lines[n]];
    }
  }

  /** What one line does to the table. */
  function Added(t: Table, m: Option<Mount>): Table {
    if m.None? then t
    else Table(t.byPoint[m.value.point := m.value.entry], if m.value.point in t.byPoint then t.order else t.order + [m.value.point], t.known)
  }

  lemma {:induction false} AddedIsTable(r: Reader, lines: seq<seq<ID>>, last: seq<ID>, t: Table)
    requires IsTable(r, lines, t)
    ensures IsTable(r, lines + [last], Added(t, LineOf(r, last)))
  {
    var t' := Added(t, LineOf(r, last));
    assert (lines + [last])[..|lines|] == lines;
    forall p ensures InForce(r, lines + [last], p) == if p in t'.byPoint then Some(t'.byPoint[p]) else None {
      assert InForce(r, lines, p) == if p in t.byPoint then Some(t.byPoint[p]) else None;
    }
    forall i, j | 0 <= i < j < |t'.order| ensures FirstLine(r, lines + [last], t'.order[i]) < FirstLine(r, lines + [last], t'.order[j]) {
      FirstLineSnoc(r, lines, last, t'.order[i]);
      FirstLineSnoc(r, lines, last, t'.order[j]);
      assert t.order[i] in t.order;
      NamedSomewhere(r, lines, t.order[i]);
      NamedSomewhere(r, lines, t'.order[j]);
      assert j < |t.order| ==> t.order[j] in t.order;
    }
  }

  /** A table that could not be read, or not to its end, is unknown rather than empty. */
  method ReadMountTable(r: Reader, source: Source) returns (t: Table)
    ensures t.known <==> source.Content? && !source.truncated
    ensures t.known ==> IsTable(r, LinesOf(source.text), t)
    ensures !t.known ==> t == UNKNOWN
  {
    if source.Failed? || source.truncated { return UNKNOWN; }
    t := UNKNOWN;
    var lines := LinesOf(source.text);
    for k := 0 to |lines|
      invariant IsTable(r, lines[..k], t) && !t.known && (k == 0 ==> t == UNKNOWN)
    {
      var m := ParseLine(r, lines[k]);
      AddedIsTable(r, lines[..k], lines[k], t);
      assert lines[..k + 1] == lines[..k] + [lines[k]];
      if m.None? { continue; }
      if m.value.point !in t.byPoint { t := t.(order := t.order + [m.value.point]); }
      t := t.(byPoint := t.byPoint[m.value.point := m.value.entry]);
    }
    assert lines[..|lines|] == lines;
    t := t.(known := true);
  }

  // ---------------------------------------------------------------- from the kernel's text to the walk's boundaries

  /** splitOptions, and path.Clean after unescapeMountField. */
  function TheReader(clean: string -> string): Reader {
    Reader((f: ID) => IDs(Options(f.name)), (f: ID) => ID(clean(Unescaped(f.name))))
  }

  /** One mount as the kernel knows it. */
  datatype KernelMount = KernelMount(
    head: seq<string>, point: string, options: seq<string>, optional: seq<string>,
    fstype: string, source: string, superOpts: seq<string>)

  predicate AreFields(fields: seq<string>) { forall i | 0 <= i < |fields| :: IsField(fields[i]) }

  predicate AreOptions(options: seq<string>) {
    options != [] && forall i | 0 <= i < |options| :: IsOption(options[i]) && !HasSpace(options[i])
  }

  /** Every part is a field, no optional one is the separator, and the kernel escapes every space in the point. */
  ghost predicate Printable(special: char -> bool, m: KernelMount) {
    && |m.head| == 4 && AreFields(m.head) && AreFields(m.optional) && "-" !in m.optional
    && IsField(m.fstype) && IsField(m.source) && AreOptions(m.options) && AreOptions(m.superOpts)
    && m.point != "" && forall c | c in m.point && Text.IsSpace(c) :: special(c)
  }

  function Parts(special: char -> bool, m: KernelMount): seq<string>
    requires m.options != [] && m.superOpts != []
  {
    m.head + [Escaped(special, m.point), Text.Join(m.options, ',')] + m.optional
      + ["-", m.fstype, m.source, Text.Join(m.superOpts, ',')]
  }

  function MountOf(clean: string -> string, m: KernelMount): Mount {
    Mount(ID(clean(m.point)), Entry(ID(m.fstype), IDs(m.options), IDs(m.superOpts)))
  }

  lemma {:induction false} JoinedHasNoSpace(parts: seq<string>)
    requires parts != [] && forall i | 0 <= i < |parts| :: IsField(parts[i])
    ensures IsField(Text.Join(parts, ','))
  {
    assert IsField(parts[0]);
    if |parts| > 1 {
      var rest := Text.Join(parts[1..], ',');
      JoinedHasNoSpace(parts[1..]);
      SpaceInEither(parts[0] + [','], rest);
      SpaceInEither(parts[0], [',']);
    }
  }

  lemma {:induction false} PartsAreFields(special: char -> bool, m: KernelMount)
    requires Escapes(special) && Printable(special, m)
    ensures AreFields(Parts(special, m))
  {
    EscapedSpaces(special, m.point);
    JoinedHasNoSpace(m.options);
    JoinedHasNoSpace(m.superOpts);
    assert IsField("-") by { assert !Text.IsSpace('-'); }
  }

  lemma {:induction false} IDsOfParts(special: char -> bool, m: KernelMount)
    requires m.options != [] && m.superOpts != []
    ensures IDs(Parts(special, m)) ==
              Line(IDs(m.head), ID(Escaped(special, m.point)), ID(Text.Join(m.options, ',')), IDs(m.optional),
                   ID(m.fstype), ID(m.source), ID(Text.Join(m.superOpts, ',')))
  {
  }

  /** The line the kernel prints for a mount is parsed as that mount. */
  lemma {:induction false} LineTextReadsBack(clean: string -> string, special: char -> bool, m: KernelMount)
    requires Escapes(special) && Printable(special, m)
    ensures LineOf(TheReader(clean), IDs(Fields(Text.Join(Parts(special, m), ' ')))) == Some(MountOf(clean, m))
  {
    PartsAreFields(special, m);
    FieldsReadBack(Parts(special, m));
    IDsOfParts(special, m);
    assert DASH !in IDs(m.optional) by {
      forall i | 0 <= i < |m.optional| ensures IDs(m.optional)[i] != DASH { assert m.optional[i] in m.optional; }
    }
    LineReadsBack(TheReader(clean), IDs(m.head), ID(Escaped(special, m.point)), ID(Text.Join(m.options, ',')), IDs(m.optional),
                  ID(m.fstype), ID(m.source), ID(Text.Join(m.superOpts, ',')));
    EscapedReadsBack(special, m.point);
    OptionsReadBack(m.options);
    OptionsReadBack(m.superOpts);
  }

  /** Everything but the spaces of the point is as Printable asks. */
  ghost predicate PrintableButPoint(special: char -> bool, m: KernelMount) {
    Printable(special, m.(point := "/")) && m.point != ""
  }

  /** A line splits into the parts it was printed from exactly when the kernel left no space of the point alone. */
  lemma {:induction false} PartsReadBackExactlyWhen(special: char -> bool, m: KernelMount)
    requires Escapes(special) && PrintableButPoint(special, m)
    ensures Fields(Text.Join(Parts(special, m), ' ')) == Parts(special, m) <==>
              forall c | c in m.point && Text.IsSpace(c) :: special(c)
  {
    if forall c | c in m.point && Text.IsSpace(c) :: special(c) {
      PartsAreFields(special, m);
      FieldsReadBack(Parts(special, m));
    } else {
      EscapedSpaces(special, m.point);
      FieldsHaveNoSpace(Text.Join(Parts(special, m), ' '));
      assert Parts(special, m)[|m.head|] == Escaped(special, m.point);
    }
  }

  lemma {:induction false} FieldsAround(a: string, space: char, b: string)
    requires Text.IsSpace(space)
    ensures Fields(a + [space] + b) == Fields(a) + Fields(b)
    decreases |a|
  {
    var s := a + [space] + b;
    if a == "" {
      assert s == [space] + b && s[1..] == b;
      NothingBefore(b);
    } else if Text.IsSpace(a[0]) {
      assert s[1..] == a[1..] + [space] + b;
      FieldsAround(a[1..], space, b);
    } else {
      var w := Word(a);
      WordAround(a, [space] + b);
      assert s == a + ([space] + b);
      assert s[|w|..] == a[|w|..] + [space] + b;
      FieldsAround(a[|w|..], space, b);
      Regroup([w], Fields(a[|w|..]), Fields(b));
    }
  }

  lemma {:induction false} NothingBefore(b: string)
    ensures Fields("") + Fields(b) == Fields(b)
  {
  }

  lemma {:induction false} WordAround(a: string, rest: string)
    requires a != "" && !Text.IsSpace(a[0]) && rest != "" && Text.IsSpace(rest[0])
    ensures Word(a + rest) == Word(a) && |Word(a)| > 0
  {
    assert (a + rest)[1..] == a[1..] + rest;
    if |a| > 1 && !Text.IsSpace(a[1]) {
      WordAround(a[1..], rest);
    }
  }

  lemma {:induction false} JoinParts(a: seq<string>, b: seq<string>)
    requires a != [] && b != []
    ensures Text.Join(a + b, ' ') == Text.Join(a, ' ') + [' '] + Text.Join(b, ' ')
  {
    assert (a + b)[1..] == a[1..] + b;
    if |a| > 1 {
      JoinParts(a[1..], b);
      assert a[0] + [' '] + (Text.Join(a[1..], ' ') + [' '] + Text.Join(b, ' '))
          == a[0] + [' '] + Text.Join(a[1..], ' ') + [' '] + Text.Join(b, ' ');
    }
  }

  /** Lists of parts joined by a space are split one after the other. */
  lemma {:induction false} FieldsOfJoined(a: seq<string>, b: seq<string>)
    requires a != [] && b != []
    ensures Fields(Text.Join(a + b, ' ')) == Fields(Text.Join(a, ' ')) + Fields(Text.Join(b, ' '))
  {
    assert Text.IsSpace(' ');
    JoinParts(a, b);
    FieldsAround(Text.Join(a, ' '), ' ', Text.Join(b, ' '));
  }

  /** Fields around a text that is two of them to the reader. */
  lemma {:induction false} FieldCutInTwo(front: seq<string>, a: string, space: char, b: string, back: seq<string>)
    requires front != [] && back != [] && AreFields(front) && AreFields(back) && IsField(a) && IsField(b) && Text.IsSpace(space)
    ensures Fields(Text.Join(front + [a + [space] + b] + back, ' ')) == front + [a, b] + back
  {
    var whole := a + [space] + b;
    FieldsOfJoined(front + [whole], back);
    FieldsOfJoined(front, [whole]);
    FieldsReadBack(front);
    FieldsReadBack(back);
    TwoFields(a, space, b);
    assert Text.Join([whole], ' ') == whole;
  }

  lemma {:induction false} TwoFields(a: string, space: char, b: string)
    requires IsField(a) && IsField(b) && Text.IsSpace(space)
    ensures Fields(a + [space] + b) == [a, b]
  {
    FieldsAround(a, space, b);
    FieldsReadBack([a]);
    FieldsReadBack([b]);
  }

  /** What the kernel escapes in a path. */
  predicate KernelEscapes(c: char) { c == ' ' || c == '\t' || c == '\n' || c == BACKSLASH || c == '#' }

  const RETURN_POINT := "/mnt/a\r b"

  lemma {:induction false} ReturnPointEscaped()
    ensures Escaped(KernelEscapes, RETURN_POINT) == "/mnt/a" + ['\r'] + "\\040b"
  {
    assert RETURN_POINT == "/mnt/a\r" + " b";
    PlainEscapes("/mnt/a\r", " b");
    BlankEscaped();
    assert "/mnt/a\r" == "/mnt/a" + ['\r'];
  }

  lemma {:induction false} BlankEscaped()
    ensures Escaped(KernelEscapes, " b") == "\\040b"
  {
    assert " b"[1..] == "b" == "b" + "";
    PlainEscapes("b", "");
    assert EscapedChar(KernelEscapes, ' ') == "\\040";
  }

  lemma {:induction false} PlainEscapes(a: string, b: string)
    requires forall c | c in a :: !KernelEscapes(c)
    ensures Escaped(KernelEscapes, a + b) == a + Escaped(KernelEscapes, b)
  {
    if a == "" {
      assert a + b == b;
    } else {
      assert (a + b)[1..] == a[1..] + b;
      assert a == [a[0]] + a[1..];
      PlainEscapes(a[1..], b);
    }
  }

  /**
   * Where the escaped point is two fields to the reader, the line is read as a mount at the first of them, with
   * the second as its options.
   */
  lemma {:induction false} PointCutInTwo(
      clean: string -> string, special: char -> bool, m: KernelMount, a: string, space: char, b: string)
    requires Escapes(special) && PrintableButPoint(special, m) && Text.Join(m.options, ',') != "-"
    requires Escaped(special, m.point) == a + [space] + b && IsField(a) && IsField(b) && Text.IsSpace(space)
    ensures LineOf(TheReader(clean), IDs(Fields(Text.Join(Parts(special, m), ' ')))) ==
              Some(Mount(ID(clean(Unescaped(a))), Entry(ID(m.fstype), IDs(Options(b)), IDs(m.superOpts))))
  {
    var options := Text.Join(m.options, ',');
    var back := [options] + m.optional + ["-", m.fstype, m.source, Text.Join(m.superOpts, ',')];
    BackIsFields(special, m);
    assert Parts(special, m) == m.head + [a + [space] + b] + back;
    FieldCutInTwo(m.head, a, space, b, back);
    ShiftedLine(m, a, b, options);
    var optional := [ID(options)] + IDs(m.optional);
    LineReadsBack(TheReader(clean), IDs(m.head), ID(a), ID(b), optional, ID(m.fstype), ID(m.source), ID(Text.Join(m.superOpts, ',')));
    OptionsReadBack(m.superOpts);
  }

  lemma {:induction false} ShiftedLine(m: KernelMount, a: string, b: string, options: string)
    requires m.superOpts != [] && options != "-" && "-" !in m.optional
    ensures var back := [options] + m.optional + ["-", m.fstype, m.source, Text.Join(m.superOpts, ',')];
            var optional := [ID(options)] + IDs(m.optional);
            && DASH !in optional
            && IDs(m.head + [a, b] + back)
            == Line(IDs(m.head), ID(a), ID(b), optional, ID(m.fstype), ID(m.source), ID(Text.Join(m.superOpts, ',')))
  {
    forall i | 0 <= i < |m.optional| ensures IDs(m.optional)[i] != DASH { assert m.optional[i] in m.optional; }
  }

  /** The two fields, when neither holds a backslash that starts an escape nor a comma. */
  ghost predicate CutsInto(special: char -> bool, point: string, a: string, space: char, b: string) {
    && Escaped(special, point) == a + [space] + b && Text.IsSpace(space)
    && IsField(a) && IsField(b) && BACKSLASH !in a && IsOption(b)
  }

  lemma {:induction false} CutPointIsWrong(
      clean: string -> string, special: char -> bool, m: KernelMount, a: string, space: char, b: string)
    requires Escapes(special) && PrintableButPoint(special, m) && Text.Join(m.options, ',') != "-"
    requires CutsInto(special, m.point, a, space, b)
    ensures LineOf(TheReader(clean), IDs(Fields(Text.Join(Parts(special, m), ' ')))) ==
              Some(Mount(ID(clean(a)), Entry(ID(m.fstype), [ID(b)], IDs(m.superOpts))))
  {
    PointCutInTwo(clean, special, m, a, space, b);
    PlainStays(a);
    OneOption(b);
  }

  lemma {:induction false} ReturnCutsInto()
    ensures CutsInto(KernelEscapes, RETURN_POINT, "/mnt/a", '\r', "\\040b")
  {
    ReturnPointEscaped();
    ReturnFields();
  }

  lemma {:induction false} ReturnFields()
    ensures IsField("/mnt/a") && BACKSLASH !in "/mnt/a" && IsField("\\040b") && IsOption("\\040b")
  {
  }

  /** The kernel leaves a carriage return alone: the mount at that point is read as one at /mnt/a. */
  lemma {:induction false} ReturnCutsThePoint(clean: string -> string, m: KernelMount)
    requires PrintableButPoint(KernelEscapes, m) && m.point == RETURN_POINT && Text.Join(m.options, ',') != "-"
    ensures LineOf(TheReader(clean), IDs(Fields(Text.Join(Parts(KernelEscapes, m), ' ')))) ==
              Some(Mount(ID(clean("/mnt/a")), Entry(ID(m.fstype), [ID("\\040b")], IDs(m.superOpts))))
  {
    ReturnCutsInto();
    CutPointIsWrong(clean, KernelEscapes, m, "/mnt/a", '\r', "\\040b");
  }

  lemma {:induction false} BackIsFields(special: char -> bool, m: KernelMount)
    requires Escapes(special) && PrintableButPoint(special, m)
    ensures AreFields([Text.Join(m.options, ',')] + m.optional + ["-", m.fstype, m.source, Text.Join(m.superOpts, ',')])
  {
    JoinedHasNoSpace(m.options);
    JoinedHasNoSpace(m.superOpts);
    assert IsField("-") by { assert !Text.IsSpace('-'); }
  }

  lemma {:induction false} OneOption(s: string)
    requires IsOption(s)
    ensures IDs(Options(s)) == [ID(s)]
  {
    OptionsReadBack([s]);
    assert Text.Join([s], ',') == s;
  }

  /** The mount in force at a cleaned point: the last one. */
  function LastMount(clean: string -> string, mounts: seq<KernelMount>, point: ID): Option<Entry> {
    if mounts == [] then None
    else
      var m := MountOf(clean, mounts[|mounts| - 1]);
      if m.point == point then Some(m.entry) else LastMount(clean, mounts[..|mounts| - 1], point)
  }

  ghost predicate AllPrintable(special: char -> bool, mounts: seq<KernelMount>) {
    forall i | 0 <= i < |mounts| :: Printable(special, mounts[i])
  }

  /** The kernel's table: one line for each mount. */
  function TableText(special: char -> bool, mounts: seq<KernelMount>): seq<string>
    requires forall i | 0 <= i < |mounts| :: mounts[i].options != [] && mounts[i].superOpts != []
  {
    seq(|mounts|, i requires 0 <= i < |mounts| => Text.Join(Parts(special, mounts[i]), ' '))
  }

  lemma {:induction false} NoNewlineInLine(special: char -> bool, m: KernelMount)
    requires Escapes(special) && Printable(special, m)
    ensures '\n' !in Text.Join(Parts(special, m), ' ')
  {
    PartsAreFields(special, m);
    NoNewlineInJoin(Parts(special, m));
  }

  lemma {:induction false} NoNewlineInJoin(fields: seq<string>)
    requires fields != [] && AreFields(fields)
    ensures '\n' !in Text.Join(fields, ' ')
  {
    assert Text.IsSpace('\n') && IsField(fields[0]);
    assert '\n' !in fields[0];
    if |fields| > 1 { NoNewlineInJoin(fields[1..]); }
  }

  lemma {:induction false} InForceOfLines(clean: string -> string, special: char -> bool, mounts: seq<KernelMount>, lines: seq<seq<ID>>, point: ID)
    requires Escapes(special) && AllPrintable(special, mounts) && |lines| == |mounts|
    requires forall i | 0 <= i < |mounts| :: lines[i] == IDs(Fields(Text.Join(Parts(special, mounts[i]), ' ')))
    ensures InForce(TheReader(clean), lines, point) == LastMount(clean, mounts, point)
  {
    if mounts != [] {
      var n := |mounts| - 1;
      LineTextReadsBack(clean, special, mounts[n]);
      InForceOfLines(clean, special, mounts[..n], lines[..n], point);
    }
  }

  lemma {:induction false} TextSplits(special: char -> bool, mounts: seq<KernelMount>)
    requires Escapes(special) && AllPrintable(special, mounts)
    ensures Text.Split(Text.Join(TableText(special, mounts) + [""], '\n'), '\n') == TableText(special, mounts) + [""]
  {
    forall i | 0 <= i < |mounts| ensures '\n' !in TableText(special, mounts)[i] { NoNewlineInLine(special, mounts[i]); }
    Text.SplitJoin(TableText(special, mounts) + [""], '\n');
  }

  /** The table read from the kernel's text has, at every point, the last mount there. */
  lemma {:induction false} TableReadsBack(clean: string -> string, special: char -> bool, mounts: seq<KernelMount>, point: ID)
    requires Escapes(special) && AllPrintable(special, mounts)
    ensures InForce(TheReader(clean), LinesOf(Text.Join(TableText(special, mounts) + [""], '\n')), point) == LastMount(clean, mounts, point)
  {
    TextSplits(special, mounts);
    var lines := LinesOf(Text.Join(TableText(special, mounts) + [""], '\n'));
    assert lines[|mounts|] == IDs([]) == [];
    assert LineOf(TheReader(clean), lines[|mounts|]) == None;
    assert InForce(TheReader(clean), lines, point) == InForce(TheReader(clean), lines[..|mounts|], point);
    InForceOfLines(clean, special, mounts, lines[..|mounts|], point);
  }

  /** fstypeAt. */
  function FstypeAt(clean: string -> string, t: Table): ID -> Option<ID> {
    (dir: ID) => if ID(clean(dir.name)) in t.byPoint then Some(t.byPoint[ID(clean(dir.name))].fstype) else None
  }

  /** What the walk skips is what the kernel's last mount at that path says. */
  lemma {:induction false} WalkSkipsByMounts(w: World, clean: string -> string, special: char -> bool, mounts: seq<KernelMount>, t: Table, path: ID)
    requires Escapes(special) && AllPrintable(special, mounts)
    requires IsTable(TheReader(clean), LinesOf(Text.Join(TableText(special, mounts) + [""], '\n')), t) && w.fstypeAt == FstypeAt(clean, t)
    ensures var m := LastMount(clean, mounts, ID(clean(path.name)));
            w.SkippedHere(path) <==> m.Some? && SkippedFSType(m.value.fstype.name)
  {
    TableReadsBack(clean, special, mounts, ID(clean(path.name)));
  }

  // ---------------------------------------------------------------- every line, every escape

  function OctalDigit(c: char): int { c as int - '0' as int }

  /** A backslash and three octal digits stand for the character they number, up to 255; any other backslash for itself. */
  lemma {:induction false} EscapeBecomes(a: char, b: char, c: char, rest: string)
    ensures var s, octal := ['\\', a, b, c], '0' <= a <= '7' && '0' <= b <= '7' && '0' <= c <= '7';
            var n := 64 * OctalDigit(a) + 8 * OctalDigit(b) + OctalDigit(c);
            Unescaped(s + rest) == if octal && n <= 255 then [n as char] + Unescaped(rest) else ['\\'] + Unescaped([a, b, c] + rest)
  {
    var s := ['\\', a, b, c] + rest;
    assert s[4..] == rest && s[1..] == [a, b, c] + rest;
    assert '0' <= a <= '7' && '0' <= b <= '7' && '0' <= c <= '7' ==>
        (64 * OctalDigit(a) + 8 * OctalDigit(b) + OctalDigit(c) <= 255 <==> a <= '3');
  }

  /** The first dash from the seventh field on, with a type and a source after it. */
  ghost predicate DashAt(fields: seq<ID>, sep: int) {
    6 <= sep < |fields| - 2 && fields[sep] == ID("-") && forall i | 6 <= i < sep :: fields[i] != ID("-")
  }

  lemma {:induction false} SeparatorExactlyWhen(fields: seq<ID>, k: nat, sep: int)
    ensures Separator(fields, k) == Some(sep) <==> k <= sep < |fields| && fields[sep] == ID("-") && forall i | k <= i < sep :: fields[i] != ID("-")
    decreases |fields| - k
  {
    if k < |fields| && fields[k] != DASH { SeparatorExactlyWhen(fields, k + 1, sep); }
  }

  /** The mount a line stands for, with its dash at sep. */
  function MountAt(r: Reader, fields: seq<ID>, sep: int): Mount
    requires 6 <= sep < |fields| - 2
  {
    Mount(r.place(fields[4]), Entry(fields[sep + 1], r.options(fields[5]), if sep + 3 < |fields| then r.options(fields[sep + 3]) else []))
  }

  /** A line is a mount exactly when it has at least ten fields and such a dash; its parts are counted from the front and from the dash. */
  lemma {:induction false} LineExactlyWhen(r: Reader, fields: seq<ID>, m: Mount)
    ensures LineOf(r, fields) == Some(m) <==> |fields| >= 10 && exists sep :: DashAt(fields, sep) && m == MountAt(r, fields, sep)
  {
    forall sep ensures Separator(fields, 6) == Some(sep) <==> 6 <= sep < |fields| && fields[sep] == ID("-") && forall i | 6 <= i < sep :: fields[i] != ID("-") {
      SeparatorExactlyWhen(fields, 6, sep);
    }
    if LineOf(r, fields).Some? { assert DashAt(fields, Separator(fields, 6).value); }
  }
}
