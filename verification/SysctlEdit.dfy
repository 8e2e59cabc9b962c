/** Writing parameters into a sysctl drop-in: Merge, and its twin in awk (internal/remediate/sysctl.go). */
module SysctlEdit {
  import opened Basics
  import opened Ids
  import opened LineEdit
  import opened AwkStrings
  import Text

  const BLANKS: set<char> := {' ', '\t'}

  /** What is left of a line once indentation and one "-" are gone. */
  function Body(text: string): string {
    var l := Text.DropLeft(text, BLANKS);
    if l != "" && l[0] == '-' then l[1..] else l
  }

  predicate IsComment(l: string) { l != "" && (l[0] == '#' || l[0] == ';') }

  /** keyOf: the key one line sets, or the empty key. */
  function SysctlKey(line: Line): ID {
    var l := Body(line.text);
    if l == "" || IsComment(l) then ID("")
    else
      var eq := Text.IndexOf(l, '=');
      if eq == |l| then ID("") else ID(Text.DropRight(l[..eq], BLANKS))
  }

  function Written(key: ID, value: ID): Line { Line(key.name + " = " + value.name) }

  function WantedLines(pairs: map<ID, ID>): Wanted {
    map k | k in pairs :: Written(k, pairs[k])
  }

  // ---------------------------------------------------------------- Merge

  /** Setting the keys one after another, each in what the ones before it made of the file. */
  ghost function InTurn(lines: seq<Line>, keys: seq<ID>, pairs: map<ID, ID>): seq<Line>
    requires forall k | k in keys :: k in pairs
  {
    if keys == [] then lines
    else
      var n := |keys| - 1;
      assert keys[n] in keys;
      SetKey(InTurn(lines, keys[..n], pairs), keys[n], pairs[keys[n]])
  }

  ghost function SetKey(lines: seq<Line>, key: ID, value: ID): seq<Line> {
    Merged(SysctlKey, lines, [key], map[key := Written(key, value)])
  }

  lemma {:induction false} SetKeyIs(keyOf: KeyOf, lines: seq<Line>, key: ID, w: Line)
    ensures Merged(keyOf, lines, [key], map[key := w]) ==
              OnePass(keyOf, lines, map[key := w]) + if HasKey(keyOf, lines, key) then [] else [w]
  {
    assert [key][..0] == [];
    assert Absent(keyOf, lines, [], map[key := w]) == [];
    var last := if HasKey(keyOf, lines, key) then [] else [w];
    assert Absent(keyOf, lines, [key], map[key := w]) == [] + last == last;
  }

  /** One more line of the inner loop. */
  lemma {:induction false} NextLine(keyOf: KeyOf, lines: seq<Line>, k: nat, key: ID, w: Line)
    requires k < |lines|
    ensures HasKey(keyOf, lines[..k + 1], key) <==> HasKey(keyOf, lines[..k], key) || keyOf(lines[k]) == key
    ensures OnePass(keyOf, lines[..k + 1], map[key := w]) == OnePass(keyOf, lines[..k], map[key := w]) +
              if keyOf(lines[k]) != key then [lines[k]] else if HasKey(keyOf, lines[..k], key) then [] else [w]
  {
    assert lines[..k + 1] == lines[..k] + [lines[k]];
    HasKeyConcat(keyOf, lines[..k], [lines[k]], key);
    HasKeyOne(keyOf, lines[k], key);
    OnePassSnoc(keyOf, lines[..k], lines[k], map[key := w]);
  }

  /** The inner loop: the first line of the key is rewritten, later ones are dropped. */
  method SetInLines(lines: seq<Line>, key: ID, value: ID) returns (out: seq<Line>)
    ensures out == SetKey(lines, key, value)
  {
    var w := Written(key, value);
    out := [];
    var written := false;
    for k := 0 to |lines|
      invariant written <==> HasKey(SysctlKey, lines[..k], key)
      invariant out == OnePass(SysctlKey, lines[..k], map[key := w])
    {
      NextLine(SysctlKey, lines, k, key, w);
      if SysctlKey(lines[k]) != key {
        out := out + [lines[k]];
      } else if !written {
        out := out + [w];
        written := true;
      }
    }
    assert lines[..|lines|] == lines;
    SetKeyIs(SysctlKey, lines, key, w);
    if !written { out := out + [w]; }
  }

  /** The text Merge gives, for any keys at all. */
  ghost function MergedText(existing: string, pairs: map<ID, ID>): string {
    Unlines(InTurn(SplitLines(existing), SortedList(pairs.Keys), pairs))
  }

  lemma {:induction false} InTurnSnoc(lines: seq<Line>, keys: seq<ID>, k: nat, pairs: map<ID, ID>)
    requires k < |keys| && keys[k] in pairs && forall x | x in keys[..k] :: x in pairs
    ensures forall x | x in keys[..k + 1] :: x in pairs
    ensures InTurn(lines, keys[..k + 1], pairs) == SetKey(InTurn(lines, keys[..k], pairs), keys[k], pairs[keys[k]])
  {
    assert keys[..k + 1] == keys[..k] + [keys[k]];
    assert keys[..k + 1][..k] == keys[..k];
  }

  method Merge(existing: string, pairs: map<ID, ID>) returns (text: string)
    ensures text == MergedText(existing, pairs)
  {
    var start := SplitLines(existing);
    var lines := start;
    var keys := SortedKeys(pairs.Keys);
    ListsUnique(keys, SortedList(pairs.Keys), pairs.Keys);
    for k := 0 to |keys|
      invariant forall x | x in keys[..k] :: x in pairs
      invariant lines == InTurn(start, keys[..k], pairs)
    {
      assert keys[k] in keys;
      InTurnSnoc(start, keys, k, pairs);
      lines := SetInLines(lines, keys[k], pairs[keys[k]]);
    }
    assert keys[..|keys|] == keys;
    text := Unlines(lines);
  }

  // ---------------------------------------------------------------- which keys are written as themselves

  /** A key that can be written: not empty, not indented, not marked, no "=", no blank at its end. */
  predicate WellFormed(key: ID) {
    var n := key.name;
    && n != "" && n[0] !in BLANKS && n[0] != '-' && n[0] != '#' && n[0] != ';'
    && '=' !in n && n[|n| - 1] !in BLANKS
  }

  /** The line written for a key sets that key exactly when the key is well formed. */
  lemma {:induction false} WrittenSetsItsKey(key: ID, value: ID)
    requires key != ID("")
    ensures SysctlKey(Written(key, value)) == key <==> WellFormed(key)
  {
    var n := key.name;
    if n[0] in BLANKS || n[0] in "-#;" {
      BadStart(key, value);
    } else if '=' in n {
      KeyHasNoEquals(Written(key, value));
    } else {
      PlainKey(key, value);
    }
  }

  lemma {:induction false} PlainKey(key: ID, value: ID)
    requires key.name != "" && key.name[0] !in BLANKS && key.name[0] !in "-#;" && '=' !in key.name
    ensures SysctlKey(Written(key, value)) == key <==> key.name[|key.name| - 1] !in BLANKS
  {
    var n, text := key.name, Written(key, value).text;
    assert text[0] == n[0];
    assert Body(text) == text;
    NotIn(n + " ", '=', n);
    Text.IndexOfFirst(n + " ", " " + value.name, '=');
    assert text == n + " " + ['='] + (" " + value.name);
    assert text[..|n| + 1] == n + " ";
    assert (n + " ")[..|n|] == n;
    assert Text.DropRight(n + " ", BLANKS) == Text.DropRight(n, BLANKS);
    Shorter(n, BLANKS);
  }

  lemma {:induction false} NotIn(s: string, c: char, n: string)
    requires s == n + " " && c !in n && c != ' '
    ensures c !in s
  {
  }

  lemma {:induction false} Shorter(s: string, cut: set<char>)
    ensures Text.DropRight(s, cut) <= s
    ensures s != "" ==> (Text.DropRight(s, cut) == s <==> s[|s| - 1] !in cut)
  {
    if s != "" && s[|s| - 1] in cut { Shorter(s[..|s| - 1], cut); }
  }

  lemma {:induction false} KeyHasNoEquals(l: Line)
    ensures '=' !in SysctlKey(l).name
  {
    var b := Body(l.text);
    var eq := Text.IndexOf(b, '=');
    Text.IndexOfFinds(b, '=');
    Shorter(b[..eq], BLANKS);
    assert forall c | c in Text.DropRight(b[..eq], BLANKS) :: c in b[..eq];
  }

  lemma {:induction false} DropLeftDrops(s: string, cut: set<char>)
    ensures var r := Text.DropLeft(s, cut);
            |r| <= |s| && r == s[|s| - |r|..] && forall i | 0 <= i < |s| - |r| :: s[i] in cut
    ensures s != "" && s[0] in cut ==> |Text.DropLeft(s, cut)| < |s|
  {
    if s != "" && s[0] in cut {
      DropLeftDrops(s[1..], cut);
      var r := Text.DropLeft(s, cut);
      assert forall i | 1 <= i < |s| - |r| :: s[i] == s[1..][i - 1];
    }
  }

  /** The body is the text without some blanks and dashes at its front. */
  lemma {:induction false} BodyIsSuffix(text: string)
    ensures var b := Body(text);
            |b| <= |text| && b == text[|text| - |b|..] && forall i | 0 <= i < |text| - |b| :: text[i] in BLANKS || text[i] == '-'
    ensures text != "" && (text[0] in BLANKS || text[0] == '-') ==> |Body(text)| < |text|
  {
    DropLeftDrops(text, BLANKS);
    var l, b := Text.DropLeft(text, BLANKS), Body(text);
    if b != l {
      var d := |text| - |l|;
      assert text[d] == l[0] == '-' && b == l[1..] == text[d + 1..];
    }
  }

  /** Where "=" stands once the front is gone. */
  lemma {:induction false} IndexAfter(s: string, d: nat, c: char)
    requires d <= |s| && c !in s[..d]
    ensures Text.IndexOf(s, c) == d + Text.IndexOf(s[d..], c)
  {
    if d > 0 {
      assert s[0] in s[..d];
      assert s[1..][..d - 1] == s[..d][1..] && s[1..][d - 1..] == s[d..];
      assert forall x | x in s[..d][1..] :: x in s[..d];
      IndexAfter(s[1..], d - 1, c);
    } else {
      assert s[0..] == s;
    }
  }

  /** A key that starts like an indented, marked or commented line is read back as something shorter. */
  lemma {:induction false} BadStart(key: ID, value: ID)
    requires key.name != "" && (key.name[0] in BLANKS || key.name[0] in "-#;")
    ensures SysctlKey(Written(key, value)) != key
  {
    var n, text := key.name, Written(key, value).text;
    var b := Body(text);
    BodyIsSuffix(text);
    assert text[0] == n[0];
    if n[0] == '#' || n[0] == ';' {
      assert b == text && IsComment(b);
    } else {
      var d, p := |text| - |b|, Text.IndexOf(text, '=');
      assert '=' !in text[..d];
      IndexAfter(text, d, '=');
      EqualsComesBy(n, value.name);
      Text.IndexOfFinds(text, '=');
      var eq := Text.IndexOf(b, '=');
      assert eq == p - d;
      Shorter(b[..eq], BLANKS);
      if eq == |n| {
        assert d == 1 && p == |n| + 1;
        assert b[..eq][eq - 1] == text[|n|] == ' ';
      }
    }
  }

  lemma {:induction false} EqualsComesBy(n: string, v: string)
    ensures Text.IndexOf(n + " = " + v, '=') <= |n| + 1
  {
    var text := n + " = " + v;
    assert text[|n| + 1] == '=';
    Text.IndexOfFinds(text, '=');
    assert forall i | 0 <= i < Text.IndexOf(text, '=') :: text[i] in text[..Text.IndexOf(text, '=')];
  }

  // ---------------------------------------------------------------- which lines set which key

  predicate AllBlank(s: string) { forall i | 0 <= i < |s| :: s[i] == ' ' || s[i] == '\t' }

  /** The parts of a line that sets key: indentation, perhaps one "-", the key, blanks, "=" and the value. */
  predicate IsSetting(text: string, key: string, indent: string, dash: string, gap: string, rest: string) {
    && text == indent + (dash + (key + gap + ['='] + rest))
    && AllBlank(indent) && AllBlank(gap) && (dash == "" || dash == "-")
    && key != "" && '=' !in key && key[0] != '#' && key[0] != ';' && key[|key| - 1] != ' ' && key[|key| - 1] != '\t'
    && (dash == "" ==> key[0] != '-' && key[0] != ' ' && key[0] != '\t')
  }

  lemma {:induction false} LeftDropped(indent: string, s: string)
    requires AllBlank(indent) && s != "" && s[0] !in BLANKS
    ensures Text.DropLeft(indent + s, BLANKS) == s
  {
    if indent == "" {
      assert indent + s == s;
    } else {
      LeftDropped(indent[1..], s);
      assert (indent + s)[1..] == indent[1..] + s;
    }
  }

  lemma {:induction false} RightDropped(s: string, gap: string)
    requires AllBlank(gap) && (s == "" || s[|s| - 1] !in BLANKS)
    ensures Text.DropRight(s + gap, BLANKS) == s
  {
    if gap == "" {
      assert s + gap == s;
    } else {
      RightDropped(s, gap[..|gap| - 1]);
      assert (s + gap)[..|s + gap| - 1] == s + gap[..|gap| - 1];
    }
  }

  /** What is dropped from the front, and what is left starts with none of it. */
  lemma {:induction false} LeftSplit(s: string) returns (indent: string)
    ensures AllBlank(indent) && s == indent + Text.DropLeft(s, BLANKS)
    ensures var r := Text.DropLeft(s, BLANKS); r == "" || r[0] !in BLANKS
  {
    if s == "" || s[0] !in BLANKS {
      indent := "";
    } else {
      var more := LeftSplit(s[1..]);
      indent := [s[0]] + more;
      OneMoreBlank(s, more, Text.DropLeft(s[1..], BLANKS));
    }
  }

  lemma {:induction false} OneMoreBlank(s: string, more: string, r: string)
    requires s != "" && s[0] in BLANKS && AllBlank(more) && s[1..] == more + r
    ensures AllBlank([s[0]] + more) && s == [s[0]] + more + r
  {
  }

  lemma {:induction false} RightSplit(s: string) returns (gap: string)
    ensures AllBlank(gap) && s == Text.DropRight(s, BLANKS) + gap
    ensures var r := Text.DropRight(s, BLANKS); r == "" || r[|r| - 1] !in BLANKS
  {
    if s == "" || s[|s| - 1] !in BLANKS {
      gap := "";
    } else {
      var more := RightSplit(s[..|s| - 1]);
      gap := more + [s[|s| - 1]];
      assert s == s[..|s| - 1] + [s[|s| - 1]];
    }
  }

  lemma {:induction false} BodyIs(indent: string, dash: string, b: string)
    requires AllBlank(indent) && b != "" && (dash == "-" || (dash == "" && b[0] != '-' && b[0] !in BLANKS))
    ensures Body(indent + (dash + b)) == b
  {
    LeftDropped(indent, dash + b);
    assert (dash + b)[|dash|..] == b;
  }

  lemma {:induction false} KeyOfBody(line: Line, front: string, rest: string)
    requires Body(line.text) == front + ['='] + rest && '=' !in front && !IsComment(front + ['='] + rest)
    ensures SysctlKey(line) == ID(Text.DropRight(front, BLANKS))
  {
    Text.IndexOfFirst(front, rest, '=');
    assert (front + ['='] + rest)[..|front|] == front;
  }

  lemma {:induction false} SettingIsRead(text: string, key: string, indent: string, dash: string, gap: string, rest: string)
    requires IsSetting(text, key, indent, dash, gap, rest)
    ensures SysctlKey(Line(text)) == ID(key)
  {
    var front := key + gap;
    assert front[0] == key[0] && '=' !in front;
    SettingBody(Line(text), indent, dash, front, rest);
    RightDropped(key, gap);
  }

  lemma {:induction false} SettingBody(line: Line, indent: string, dash: string, front: string, rest: string)
    requires line.text == indent + (dash + (front + ['='] + rest)) && AllBlank(indent) && front != "" && '=' !in front
    requires front[0] !in {'#', ';'} && (dash == "-" || (dash == "" && front[0] != '-' && front[0] !in BLANKS))
    ensures SysctlKey(line) == ID(Text.DropRight(front, BLANKS))
  {
    var b := front + ['='] + rest;
    assert b[0] == front[0];
    BodyIs(indent, dash, b);
    KeyOfBody(line, front, rest);
  }

  lemma {:induction false} BodyParts(text: string) returns (indent: string, dash: string)
    ensures text == indent + (dash + Body(text)) && AllBlank(indent)
    ensures dash == "-" || (dash == "" && (Body(text) == "" || (Body(text)[0] != '-' && Body(text)[0] !in BLANKS)))
  {
    indent := LeftSplit(text);
    var l := Text.DropLeft(text, BLANKS);
    dash := if l != "" && l[0] == '-' then "-" else "";
    assert dash + Body(text) == l;
  }

  lemma {:induction false} CutHere(b: string, eq: nat)
    requires eq < |b| && b[eq] == '='
    ensures b == b[..eq] + ['='] + b[eq + 1..]
  {
  }

  lemma {:induction false} KeyParts(b: string, key: string) returns (gap: string, rest: string)
    requires var eq := Text.IndexOf(b, '='); eq < |b| && Text.DropRight(b[..eq], BLANKS) == key && key != ""
    ensures b == key + gap + ['='] + rest && AllBlank(gap)
    ensures '=' !in key && key[|key| - 1] !in BLANKS && b[0] == key[0]
  {
    var eq := Text.IndexOf(b, '=');
    Text.IndexOfFinds(b, '=');
    gap := RightSplit(b[..eq]);
    rest := b[eq + 1..];
    CutHere(b, eq);
    assert forall c | c in key :: c in b[..eq];
    assert b[..eq][0] == key[0];
  }

  lemma {:induction false} SettingHasParts(text: string, key: string) returns (indent: string, dash: string, gap: string, rest: string)
    requires key != "" && SysctlKey(Line(text)) == ID(key)
    ensures IsSetting(text, key, indent, dash, gap, rest)
  {
    indent, dash := BodyParts(text);
    gap, rest := KeyParts(Body(text), key);
  }

  /** A line sets a key exactly when it consists of these parts; every other line sets none. */
  lemma {:induction false} SetsExactlyWhen(text: string, key: string)
    requires key != ""
    ensures SysctlKey(Line(text)) == ID(key) <==> exists indent, dash, gap, rest :: IsSetting(text, key, indent, dash, gap, rest)
  {
    if SysctlKey(Line(text)) == ID(key) {
      var indent, dash, gap, rest := SettingHasParts(text, key);
    }
    if exists indent, dash, gap, rest :: IsSetting(text, key, indent, dash, gap, rest) {
      var indent, dash, gap, rest :| IsSetting(text, key, indent, dash, gap, rest);
      SettingIsRead(text, key, indent, dash, gap, rest);
    }
  }

  // ---------------------------------------------------------------- what Merge promises

  ghost predicate AllWellFormed(pairs: map<ID, ID>) {
    forall k | k in pairs :: WellFormed(k)
  }

  lemma {:induction false} WantedIsWritten(pairs: map<ID, ID>)
    requires AllWellFormed(pairs)
    ensures Writes(SysctlKey, WantedLines(pairs))
  {
    forall k | k in pairs ensures SysctlKey(WantedLines(pairs)[k]) == k {
      WrittenSetsItsKey(k, pairs[k]);
    }
  }

  ghost function Only(pairs: map<ID, ID>, keys: seq<ID>): map<ID, ID>
    requires forall k | k in keys :: k in pairs
  {
    map k | k in Members(keys) && k in pairs :: pairs[k]
  }

  /** Key by key, or all keys in one pass: the same lines. */
  lemma {:induction false} InTurnIsOnePass(lines: seq<Line>, keys: seq<ID>, pairs: map<ID, ID>)
    requires AllWellFormed(pairs) && NoDuplicates(keys) && forall k | k in keys :: k in pairs
    ensures InTurn(lines, keys, pairs) == Merged(SysctlKey, lines, keys, WantedLines(Only(pairs, keys)))
  {
    if keys == [] {
      assert Only(pairs, keys) == map[];
      NothingWanted(lines);
    } else {
      var n := |keys| - 1;
      assert keys == keys[..n] + [keys[n]];
      assert keys[n] in keys && keys[n] !in keys[..n];
      InTurnIsOnePass(lines, keys[..n], pairs);
      InTurnOneMore(lines, keys[..n], keys[n], pairs);
    }
  }

  lemma {:induction false} InTurnOneMore(lines: seq<Line>, front: seq<ID>, k: ID, pairs: map<ID, ID>)
    requires AllWellFormed(pairs) && k in pairs && k !in front && forall x | x in front :: x in pairs
    requires InTurn(lines, front, pairs) == Merged(SysctlKey, lines, front, WantedLines(Only(pairs, front)))
    ensures forall x | x in front + [k] :: x in pairs
    ensures InTurn(lines, front + [k], pairs) == Merged(SysctlKey, lines, front + [k], WantedLines(Only(pairs, front + [k])))
  {
    var keys := front + [k];
    assert keys[..|front|] == front && keys[..|front| + 1] == keys;
    InTurnSnoc(lines, keys, |front|, pairs);
    WantedIsWritten(Only(pairs, front));
    WrittenSetsItsKey(k, pairs[k]);
    OneMoreKey(SysctlKey, lines, front, WantedLines(Only(pairs, front)), k, Written(k, pairs[k]));
    OneMoreWanted(pairs, front, k);
  }

  lemma {:induction false} OneMoreWanted(pairs: map<ID, ID>, front: seq<ID>, k: ID)
    requires k in pairs && forall x | x in front :: x in pairs
    ensures WantedLines(Only(pairs, front))[k := Written(k, pairs[k])] == WantedLines(Only(pairs, front + [k]))
  {
    MembersSnoc(front, k);
  }

  lemma {:induction false} NothingWanted(lines: seq<Line>)
    ensures Merged(SysctlKey, lines, [], map[]) == lines
  {
    SettledStays(SysctlKey, lines, map[]);
    assert lines + [] == lines;
  }

  /** The lines of a merged file, as the one-pass rule gives them. */
  ghost function MergedLines(existing: string, pairs: map<ID, ID>): seq<Line> {
    var keys := SortedList(pairs.Keys);
    assert forall k | k in keys :: k in WantedLines(pairs);
    Merged(SysctlKey, SplitLines(existing), keys, WantedLines(pairs))
  }

  lemma {:induction false} InTurnOfAll(lines: seq<Line>, keys: seq<ID>, pairs: map<ID, ID>)
    requires AllWellFormed(pairs) && Lists(keys, pairs.Keys)
    ensures forall k | k in keys :: k in WantedLines(pairs)
    ensures InTurn(lines, keys, pairs) == Merged(SysctlKey, lines, keys, WantedLines(pairs))
  {
    assert Only(pairs, keys) == pairs;
    InTurnIsOnePass(lines, keys, pairs);
  }

  lemma {:induction false} MergeIsOnePass(existing: string, pairs: map<ID, ID>)
    requires AllWellFormed(pairs)
    ensures MergedText(existing, pairs) == Unlines(MergedLines(existing, pairs))
  {
    InTurnOfAll(SplitLines(existing), SortedList(pairs.Keys), pairs);
  }

  predicate OneLiners(pairs: map<ID, ID>) {
    forall k | k in pairs :: '\n' !in k.name && '\n' !in pairs[k].name
  }

  lemma {:induction false} MergedHasNoNewlines(existing: string, pairs: map<ID, ID>)
    requires OneLiners(pairs)
    ensures NoNewlines(MergedLines(existing, pairs))
  {
    SplitHasNoNewlines(existing);
    var keys, lines, wanted := SortedList(pairs.Keys), SplitLines(existing), WantedLines(pairs);
    forall k | k in wanted ensures '\n' !in wanted[k].text {
    }
    PassHasNoNewlines(lines, wanted);
    AbsentHasNoNewlines(lines, keys, wanted);
  }

  lemma {:induction false} PassHasNoNewlines(lines: seq<Line>, wanted: Wanted)
    requires NoNewlines(lines) && forall k | k in wanted :: '\n' !in wanted[k].text
    ensures NoNewlines(OnePass(SysctlKey, lines, wanted))
  {
    if lines != [] { PassHasNoNewlines(lines[..|lines| - 1], wanted); }
  }

  lemma {:induction false} AbsentHasNoNewlines(lines: seq<Line>, keys: seq<ID>, wanted: Wanted)
    requires (forall k | k in keys :: k in wanted) && forall k | k in wanted :: '\n' !in wanted[k].text
    ensures NoNewlines(Absent(SysctlKey, lines, keys, wanted))
  {
    if keys != [] {
      var n := |keys| - 1;
      assert keys == keys[..n] + [keys[n]];
      assert keys[n] in keys;
      AbsentHasNoNewlines(lines, keys[..n], wanted);
    }
  }

  /** What a merged file holds: each key on exactly one line with its value, every other line as it was. */
  lemma {:induction false} MergeSettles(existing: string, pairs: map<ID, ID>)
    requires AllWellFormed(pairs) && OneLiners(pairs)
    ensures var r := SplitLines(MergedText(existing, pairs));
            && Settled(SysctlKey, r, WantedLines(pairs))
            && Others(SysctlKey, r, WantedLines(pairs)) == Others(SysctlKey, SplitLines(existing), WantedLines(pairs))
  {
    MergedReadsBack(existing, pairs);
    WantedIsWritten(pairs);
    var keys := SortedList(pairs.Keys);
    assert Members(keys) == WantedLines(pairs).Keys;
    MergedIsSettled(SysctlKey, SplitLines(existing), keys, WantedLines(pairs));
    MergedKeepsOthers(SysctlKey, SplitLines(existing), keys, WantedLines(pairs));
  }

  lemma {:induction false} LinesSettle(lines: seq<Line>, keys: seq<ID>, pairs: map<ID, ID>)
    requires AllWellFormed(pairs) && Lists(keys, pairs.Keys) && forall k | k in keys :: k in WantedLines(pairs)
    ensures var once := Merged(SysctlKey, lines, keys, WantedLines(pairs)); Merged(SysctlKey, once, keys, WantedLines(pairs)) == once
  {
    WantedIsWritten(pairs);
    assert Members(keys) == WantedLines(pairs).Keys;
    MergedTwice(SysctlKey, lines, keys, WantedLines(pairs));
  }

  /** The lines of a merged file are the merged lines. */
  lemma {:induction false} MergedReadsBack(existing: string, pairs: map<ID, ID>)
    requires AllWellFormed(pairs) && OneLiners(pairs)
    ensures SplitLines(MergedText(existing, pairs)) == MergedLines(existing, pairs)
  {
    MergeIsOnePass(existing, pairs);
    MergedHasNoNewlines(existing, pairs);
    LinesReadBack(MergedLines(existing, pairs));
  }

  /** Merging twice is merging once. */
  lemma {:induction false} MergeIsIdempotent(existing: string, pairs: map<ID, ID>)
    requires AllWellFormed(pairs) && OneLiners(pairs)
    ensures MergedText(MergedText(existing, pairs), pairs) == MergedText(existing, pairs)
  {
    var once := MergedText(existing, pairs);
    MergeIsOnePass(existing, pairs);
    MergeIsOnePass(once, pairs);
    MergedReadsBack(existing, pairs);
    LinesSettle(SplitLines(existing), SortedList(pairs.Keys), pairs);
  }

  // ---------------------------------------------------------------- exactly which keys are written once

  /** The written line is read back as setting its key: the key is empty, which every comment has, or well formed. */
  predicate ReadsBack(key: ID) { key == ID("") || WellFormed(key) }

  lemma {:induction false} ReadsBackExactlyWhen(key: ID, value: ID)
    ensures SysctlKey(Written(key, value)) == key <==> ReadsBack(key)
  {
    if key == ID("") {
      var text := Written(key, value).text;
      assert text[0] == ' ' && text[1] == '=' && Text.DropLeft(text, BLANKS) == text[1..];
      assert Body(text)[..0] == "";
    } else {
      WrittenSetsItsKey(key, value);
    }
  }

  /** Rewriting the lines of a key as lines of another leaves none of the key. */
  lemma {:induction false} NoneLeft(keyOf: KeyOf, lines: seq<Line>, key: ID, w: Line)
    requires keyOf(w) != key
    ensures !HasKey(keyOf, OnePass(keyOf, lines, map[key := w]), key)
  {
    if lines != [] {
      var n := |lines| - 1;
      NoneLeft(keyOf, lines[..n], key, w);
      var more := Becomes(keyOf, lines[..n], lines[n], map[key := w]);
      HasKeyConcat(keyOf, OnePass(keyOf, lines[..n], map[key := w]), more, key);
      HasKeyOne(keyOf, lines[n], key);
      HasKeyOne(keyOf, w, key);
    }
  }

  lemma {:induction false} NoneToRewrite(keyOf: KeyOf, lines: seq<Line>, key: ID, w: Line)
    requires !HasKey(keyOf, lines, key)
    ensures Merged(keyOf, lines, [key], map[key := w]) == lines + [w]
  {
    SettledStays(keyOf, lines, map[key := w]);
    SetKeyIs(keyOf, lines, key, w);
  }

  /** After its first run on any file, a key that does not read back is appended again by every run. */
  lemma {:induction false} IllFormedKeyRepeats(lines: seq<Line>, key: ID, value: ID)
    requires !ReadsBack(key)
    ensures !HasKey(SysctlKey, SetKey(lines, key, value), key)
    ensures SetKey(SetKey(lines, key, value), key, value) == SetKey(lines, key, value) + [Written(key, value)]
  {
    var w := Written(key, value);
    ReadsBackExactlyWhen(key, value);
    SetKeyIs(SysctlKey, lines, key, w);
    NoneLeft(SysctlKey, lines, key, w);
    HasKeyConcat(SysctlKey, OnePass(SysctlKey, lines, map[key := w]), if HasKey(SysctlKey, lines, key) then [] else [w], key);
    HasKeyOne(SysctlKey, w, key);
    NoneToRewrite(SysctlKey, SetKey(lines, key, value), key, w);
  }

  lemma {:induction false} WellFormedKeySettles(lines: seq<Line>, key: ID, value: ID)
    requires ReadsBack(key)
    ensures SetKey(SetKey(lines, key, value), key, value) == SetKey(lines, key, value)
  {
    ReadsBackExactlyWhen(key, value);
    assert Members([key]) == {key};
    MergedTwice(SysctlKey, lines, [key], map[key := Written(key, value)]);
  }

  /** Merging one pair sets one key. */
  lemma {:induction false} OnePair(existing: string, key: ID, value: ID)
    ensures MergedText(existing, map[key := value]) == Unlines(SetKey(SplitLines(existing), key, value))
  {
    var one := map[key := value];
    SingleKey(SortedList(one.Keys), key);
    assert [key][..0] == [];
    assert InTurn(SplitLines(existing), [], one) == SplitLines(existing);
    assert InTurn(SplitLines(existing), [key], one) == SetKey(SplitLines(existing), key, value);
  }

  lemma {:induction false} SetKeyHasNoNewlines(lines: seq<Line>, key: ID, value: ID)
    requires NoNewlines(lines) && '\n' !in key.name && '\n' !in value.name
    ensures NoNewlines(SetKey(lines, key, value))
  {
    PassHasNoNewlines(lines, map[key := Written(key, value)]);
    AbsentHasNoNewlines(lines, [key], map[key := Written(key, value)]);
  }

  /** On any file whatever, merging one pair twice is merging it once exactly when its key reads back. */
  lemma {:induction false} MergeIsIdempotentExactlyWhen(existing: string, key: ID, value: ID)
    requires '\n' !in key.name && '\n' !in value.name
    ensures MergedText(MergedText(existing, map[key := value]), map[key := value]) == MergedText(existing, map[key := value]) <==> ReadsBack(key)
  {
    var lines, w := SplitLines(existing), Written(key, value);
    var once := SetKey(lines, key, value);
    SplitHasNoNewlines(existing);
    SetKeyHasNoNewlines(lines, key, value);
    SetKeyHasNoNewlines(once, key, value);
    LinesReadBack(once);
    LinesReadBack(SetKey(once, key, value));
    OnePair(existing, key, value);
    OnePair(MergedText(existing, map[key := value]), key, value);
    if ReadsBack(key) {
      WellFormedKeySettles(lines, key, value);
    } else {
      IllFormedKeyRepeats(lines, key, value);
      assert |SetKey(once, key, value)| == |once| + 1;
    }
  }

  // ---------------------------------------------------------------- the same rule in awk

  /** What the awk program compares with its key, or nothing for a line it passes through. */
  function AwkKey(line: Line): Option<ID> {
    var l := Body(line.text);
    var eq := Text.IndexOf(l, '=');
    if IsComment(l) || eq == |l| then None else Some(ID(Text.DropRight(l[..eq], BLANKS)))
  }

  /** The lines the program takes for the key: this one's key, and no other's, is the key itself. */
  function AwkHits(key: ID): KeyOf {
    (line: Line) => if AwkKey(line) == Some(key) then key else ID(key.name + "=")
  }

  lemma {:induction false} AwkHitsAre(key: ID, line: Line)
    ensures AwkHits(key)(line) == key <==> AwkKey(line) == Some(key)
    ensures key != ID("") ==> (AwkHits(key)(line) == key <==> SysctlKey(line) == key)
  {
    assert |key.name + "="| > |key.name|;
  }

  /** The program's tests on one record: passed through, or compared with the key. */
  method AwkMatches(line: Line, key: ID) returns (hit: bool)
    ensures hit <==> AwkHits(key)(line) == key
  {
    AwkHitsAre(key, line);
    var read := AwkKey(line);
    hit := read.Some? && read.value == key;
  }

  /** The program's main loop and END block. */
  method AwkRecords(lines: seq<Line>, key: ID, w: Line) returns (out: seq<Line>)
    ensures out == Merged(AwkHits(key), lines, [key], map[key := w])
  {
    out := [];
    var done := false;
    for n := 0 to |lines|
      invariant done <==> HasKey(AwkHits(key), lines[..n], key)
      invariant out == OnePass(AwkHits(key), lines[..n], map[key := w])
    {
      NextLine(AwkHits(key), lines, n, key, w);
      var hit := AwkMatches(lines[n], key);
      if !hit {
        out := out + [lines[n]];
      } else if !done {
        out := out + [w];
        done := true;
      }
    }
    assert lines[..|lines|] == lines;
    SetKeyIs(AwkHits(key), lines, key, w);
    if !done { out := out + [w]; }
  }

  /** The awk program on a file; what it compares and writes is what -v makes of the key and the value. */
  method AwkSysctlSet(keeps: Keeps, file: string, key: ID, value: ID) returns (text: string)
    ensures text == ScriptText(keeps, file, key, value)
  {
    var k, v := AwkValue(keeps, key), AwkValue(keeps, value);
    var out := AwkRecords(SplitLines(file), k, Written(k, v));
    text := Unlines(out);
  }

  /** Lines with the program's key set in them. */
  ghost function AwkSetKey(lines: seq<Line>, key: ID, value: ID): seq<Line> {
    Merged(AwkHits(key), lines, [key], map[key := Written(key, value)])
  }

  /** What the script leaves in the file. */
  ghost function ScriptText(keeps: Keeps, file: string, key: ID, value: ID): string {
    Unlines(AwkSetKey(SplitLines(file), AwkValue(keeps, key), AwkValue(keeps, value)))
  }

  /** Two readings that agree on which lines set the key set it alike. */
  lemma {:induction false} SameLinesSameResult(f: KeyOf, g: KeyOf, lines: seq<Line>, key: ID, w: Line)
    requires forall l :: f(l) == key <==> g(l) == key
    ensures Merged(f, lines, [key], map[key := w]) == Merged(g, lines, [key], map[key := w])
  {
    SetKeyIs(f, lines, key, w);
    SetKeyIs(g, lines, key, w);
    SameLinesSamePass(f, g, lines, key, w);
  }

  lemma {:induction false} SameLinesSamePass(f: KeyOf, g: KeyOf, lines: seq<Line>, key: ID, w: Line)
    requires forall l :: f(l) == key <==> g(l) == key
    ensures HasKey(f, lines, key) <==> HasKey(g, lines, key)
    ensures OnePass(f, lines, map[key := w]) == OnePass(g, lines, map[key := w])
  {
    if lines != [] {
      var n := |lines| - 1;
      assert lines[..n + 1] == lines;
      SameLinesSamePass(f, g, lines[..n], key, w);
      NextLine(f, lines, n, key, w);
      NextLine(g, lines, n, key, w);
    }
  }

  /** For a key that is not empty the program's tests are Merge's. */
  lemma {:induction false} AwkSetsAsGo(lines: seq<Line>, key: ID, value: ID)
    requires key != ID("")
    ensures AwkSetKey(lines, key, value) == SetKey(lines, key, value)
  {
    forall l ensures AwkHits(key)(l) == key <==> SysctlKey(l) == key { AwkHitsAre(key, l); }
    SameLinesSameResult(AwkHits(key), SysctlKey, lines, key, Written(key, value));
  }

  /**
   * For one pair, script and Merge write the same text into every file exactly when there is a key and -v
   * leaves key and value alone.
   */
  lemma {:induction false} ScriptAgreesWithMerge(keeps: Keeps, key: ID, value: ID)
    ensures (forall file :: ScriptText(keeps, file, key, value) == MergedText(file, map[key := value])) <==>
              key != ID("") && Intact(keeps, key.name) && Intact(keeps, value.name)
  {
    IntactExactlyWhen(keeps, key.name);
    IntactExactlyWhen(keeps, value.name);
    if key == ID("") {
      EmptyKeyDiffers(keeps, value);
    } else if Intact(keeps, key.name) && Intact(keeps, value.name) {
      forall file ensures ScriptText(keeps, file, key, value) == MergedText(file, map[key := value]) {
        OnePair(file, key, value);
        AwkSetsAsGo(SplitLines(file), key, value);
      }
    } else {
      OnePair("", key, value);
      EmptyFile(SysctlKey, key, value);
      EmptyFile(AwkHits(AwkValue(keeps, key)), AwkValue(keeps, key), AwkValue(keeps, value));
      NeverLonger(keeps, key.name);
      NeverLonger(keeps, value.name);
      assert |ScriptText(keeps, "", key, value)| < |MergedText("", map[key := value])|;
    }
  }

  /** With a key and without a backslash they always agree. */
  lemma {:induction false} PlainScriptAgrees(keeps: Keeps, file: string, key: ID, value: ID)
    requires key != ID("") && BACKSLASH !in key.name && BACKSLASH !in value.name
    ensures ScriptText(keeps, file, key, value) == MergedText(file, map[key := value])
  {
    PlainIsIntact(keeps, key.name);
    PlainIsIntact(keeps, value.name);
    ScriptAgreesWithMerge(keeps, key, value);
  }

  const NOTED := "# c\n"

  /** Setting the empty key, Merge overwrites a comment and the script keeps it. */
  lemma {:induction false} EmptyKeyDiffers(keeps: Keeps, value: ID)
    ensures ScriptText(keeps, NOTED, ID(""), value) == NOTED + Written(ID(""), AwkValue(keeps, value)).text + "\n"
    ensures MergedText(NOTED, map[ID("") := value]) == Written(ID(""), value).text + "\n"
    ensures ScriptText(keeps, NOTED, ID(""), value) != MergedText(NOTED, map[ID("") := value])
  {
    var key, c := ID(""), Line("# c");
    var w, w' := Written(key, AwkValue(keeps, value)), Written(key, value);
    assert AwkValue(keeps, key) == key;
    OneCommentLine(c);
    OnePair(NOTED, key, value);
    CommentKept(c, w);
    CommentOverwritten(c, w');
    OneLine(w');
    TwoLines(c, w);
    DifferentStart(c.text, w.text, w'.text);
  }

  lemma {:induction false} DifferentStart(a: string, b: string, c: string)
    requires a != "" && c != "" && a[0] != c[0]
    ensures a + "\n" + b + "\n" != c + "\n"
  {
    assert (a + "\n" + b + "\n")[0] == a[0] && (c + "\n")[0] == c[0];
  }

  lemma {:induction false} OneLine(l: Line)
    ensures Unlines([l]) == l.text + "\n"
  {
    assert AsText([l]) == [l.text];
  }

  lemma {:induction false} TwoLines(a: Line, b: Line)
    ensures Unlines([a, b]) == a.text + "\n" + b.text + "\n"
  {
    assert AsText([a, b]) == [a.text, b.text];
    assert [a.text, b.text][1..] == [b.text];
    assert Text.Join([b.text], '\n') == b.text;
    assert Text.Join([a.text, b.text], '\n') == a.text + ['\n'] + b.text;
    assert a.text + ['\n'] + b.text + "\n" == a.text + "\n" + b.text + "\n";
  }

  lemma {:induction false} OneCommentLine(c: Line)
    requires c == Line("# c")
    ensures SplitLines(NOTED) == [c] && NOTED == c.text + "\n"
  {
    OneLine(c);
    assert c.text + "\n" == NOTED;
    assert NoNewlines([c]);
    LinesReadBack([c]);
  }

  lemma {:induction false} CommentKept(c: Line, w: Line)
    requires c == Line("# c")
    ensures Merged(AwkHits(ID("")), [c], [ID("")], map[ID("") := w]) == [c, w]
  {
    CommentBody(c);
    AwkHitsAre(ID(""), c);
    HasKeyOne(AwkHits(ID("")), c, ID(""));
    SetKeyIs(AwkHits(ID("")), [c], ID(""), w);
    NextLine(AwkHits(ID("")), [c], 0, ID(""), w);
    assert [c][..1] == [c] && [c][..0] == [];
  }

  lemma {:induction false} CommentOverwritten(c: Line, w: Line)
    requires c == Line("# c")
    ensures Merged(SysctlKey, [c], [ID("")], map[ID("") := w]) == [w]
  {
    CommentBody(c);
    HasKeyOne(SysctlKey, c, ID(""));
    SetKeyIs(SysctlKey, [c], ID(""), w);
    NextLine(SysctlKey, [c], 0, ID(""), w);
    assert [c][..1] == [c] && [c][..0] == [];
    assert !HasKey(SysctlKey, [], ID(""));
  }

  lemma {:induction false} CommentBody(c: Line)
    requires c == Line("# c")
    ensures AwkKey(c) == None && SysctlKey(c) == ID("")
  {
    assert Body(c.text) == c.text;
    assert IsComment(Body(c.text));
  }

  lemma {:induction false} EscapedTab(keeps: Keeps)
    ensures Unescaped(keeps, "a\\t") == "a\t"
  {
    assert "a\\t"[1..] == "\\t" && "\\t"[2..] == "";
    assert Unescaped(keeps, "") == "" && Unescaped(keeps, "\\t") == "\t";
  }

  /** To any awk the value `a\t` is an a and a tab: on an empty file the script writes those two, and Merge three characters. */
  lemma {:induction false} ScriptDiffers(keeps: Keeps, key: ID)
    requires Intact(keeps, key.name)
    ensures ScriptText(keeps, "", key, ID("a\\t")) == Written(key, ID("a\t")).text + "\n"
    ensures MergedText("", map[key := ID("a\\t")]) == Written(key, ID("a\\t")).text + "\n"
  {
    IntactExactlyWhen(keeps, key.name);
    EscapedTab(keeps);
    OnePair("", key, ID("a\\t"));
    EmptyFile(SysctlKey, key, ID("a\\t"));
    EmptyFile(AwkHits(key), key, ID("a\t"));
  }

  lemma {:induction false} SingleKey(keys: seq<ID>, key: ID)
    requires Lists(keys, {key})
    ensures keys == [key]
  {
    CountMembers(keys);
    assert Members(keys) == {key};
    assert keys[0] in Members(keys);
  }

  lemma {:induction false} EmptyFile(keyOf: KeyOf, key: ID, value: ID)
    ensures Unlines(Merged(keyOf, [], [key], map[key := Written(key, value)])) == Written(key, value).text + "\n"
  {
    SetKeyIs(keyOf, [], key, Written(key, value));
    assert HasKey(keyOf, [], key) == false;
    assert OnePass(keyOf, [], map[key := Written(key, value)]) == [];
    OneLine(Written(key, value));
  }
}
