/** Setting keys in a file of lines: each key once, in place, everything else untouched. */
module LineEdit {
  import opened Basics
  import opened Ids
  import Text

  datatype Line = Line(text: string)

  /** The key a line sets; a line that sets nothing has a key nobody wants. */
  type KeyOf = Line -> ID

  /** The line each wanted key is to end on. */
  type Wanted = map<ID, Line>

  /** The line written for a key is read back as setting that key. */
  ghost predicate Writes(keyOf: KeyOf, wanted: Wanted) {
    forall k | k in wanted :: keyOf(wanted[k]) == k
  }

  ghost predicate HasKey(keyOf: KeyOf, lines: seq<Line>, k: ID) {
    exists i :: 0 <= i < |lines| && keyOf(lines[i]) == k
  }

  // ---------------------------------------------------------------- files and lines

  /** A file's lines; a final newline does not start another one. */
  function SplitLines(text: string): seq<Line> {
    if text == "" then []
    else
      var parts := Text.Split(text, '\n');
      var n := |parts| - 1;
      AsLines(if parts[n] == "" then parts[..n] else parts)
  }

  function AsLines(parts: seq<string>): seq<Line> {
    seq(|parts|, i requires 0 <= i < |parts| => Line(parts[i]))
  }

  function AsText(lines: seq<Line>): seq<string> {
    seq(|lines|, i requires 0 <= i < |lines| => lines[i].text)
  }

  /** Every line ended by a newline. */
  function Unlines(lines: seq<Line>): string {
    if lines == [] then "" else Text.Join(AsText(lines), '\n') + "\n"
  }

  predicate NoNewlines(lines: seq<Line>) {
    forall i | 0 <= i < |lines| :: '\n' !in lines[i].text
  }

  lemma {:induction false} SplitHasNoNewlines(text: string)
    ensures NoNewlines(SplitLines(text))
  {
    Text.SplitParts(text, '\n');
  }

  lemma {:induction false} JoinSnoc(parts: seq<string>, c: char)
    requires parts != []
    ensures Text.Join(parts + [""], c) == Text.Join(parts, c) + [c]
  {
    if |parts| == 1 {
      assert (parts + [""])[1..] == [""];
    } else {
      assert (parts + [""])[1..] == parts[1..] + [""];
      JoinSnoc(parts[1..], c);
    }
  }

  /** Reading back what was written gives the same lines. */
  lemma {:induction false} LinesReadBack(lines: seq<Line>)
    requires NoNewlines(lines)
    ensures SplitLines(Unlines(lines)) == lines
  {
    if lines != [] {
      var parts := AsText(lines);
      JoinSnoc(parts, '\n');
      Text.SplitJoin(parts + [""], '\n');
      assert (parts + [""])[..|parts|] == parts;
      assert AsLines(parts) == lines;
    }
  }

  lemma {:induction false} JoinSplit(s: string, c: char)
    ensures Text.Join(Text.Split(s, c), c) == s
  {
    Text.IndexOfFinds(s, c);
    var i := Text.IndexOf(s, c);
    if i < |s| {
      JoinSplit(s[i + 1..], c);
      var rest := Text.Split(s[i + 1..], c);
      assert ([s[..i]] + rest)[1..] == rest;
      assert s == s[..i] + [c] + s[i + 1..];
    }
  }

  lemma {:induction false} EndsWithNewline(parts: seq<string>)
    requires |parts| > 0 && parts[|parts| - 1] == ""
    ensures Text.Join(parts, '\n') == (if |parts| == 1 then "" else Text.Join(parts[..|parts| - 1], '\n') + "\n")
  {
    if |parts| > 1 {
      var front := parts[..|parts| - 1];
      JoinSnoc(front, '\n');
      assert parts == front + [""];
    }
  }

  lemma {:induction false} LinesAndTexts(parts: seq<string>)
    ensures AsText(AsLines(parts)) == parts
  {
  }

  /** No line of a file is lost: its lines and newlines are the file, whether it ends in a newline or not. */
  lemma {:induction false} SplitLosesNothing(text: string)
    ensures var lines := SplitLines(text);
            Unlines(lines) == text || (lines != [] && lines[|lines| - 1].text != "" && Text.Join(AsText(lines), '\n') == text)
  {
    if text != "" {
      var parts := Text.Split(text, '\n');
      var n := |parts| - 1;
      JoinSplit(text, '\n');
      LinesAndTexts(parts);
      LinesAndTexts(parts[..n]);
      if parts[n] == "" { EndsWithNewline(parts); }
    }
  }

  // ---------------------------------------------------------------- the rule in one pass

  /** What becomes of one line, given the lines above it. */
  ghost function Becomes(keyOf: KeyOf, above: seq<Line>, l: Line, wanted: Wanted): seq<Line> {
    if keyOf(l) !in wanted then [l]
    else if HasKey(keyOf, above, keyOf(l)) then []
    else [wanted[keyOf(l)]]
  }

  /** First lines rewritten in place, later ones dropped, others kept. */
  ghost function OnePass(keyOf: KeyOf, lines: seq<Line>, wanted: Wanted): seq<Line> {
    if lines == [] then []
    else
      var n := |lines| - 1;
      OnePass(keyOf, lines[..n], wanted) + Becomes(keyOf, lines[..n], lines[n], wanted)
  }

  /** The lines of the listed keys that lines does not set. */
  ghost function Absent(keyOf: KeyOf, lines: seq<Line>, keys: seq<ID>, wanted: Wanted): seq<Line>
    requires forall k | k in keys :: k in wanted
  {
    if keys == [] then []
    else
      var n := |keys| - 1;
      assert keys[n] in keys;
      Absent(keyOf, lines, keys[..n], wanted) + if HasKey(keyOf, lines, keys[n]) then [] else [wanted[keys[n]]]
  }

  /** The whole rule: one pass over the file, then the keys it did not set. */
  ghost function Merged(keyOf: KeyOf, lines: seq<Line>, keys: seq<ID>, wanted: Wanted): seq<Line>
    requires forall k | k in keys :: k in wanted
  {
    OnePass(keyOf, lines, wanted) + Absent(keyOf, lines, keys, wanted)
  }

  // ---------------------------------------------------------------- one key at a time

  lemma {:induction false} HasKeyConcat(keyOf: KeyOf, a: seq<Line>, b: seq<Line>, k: ID)
    ensures HasKey(keyOf, a + b, k) <==> HasKey(keyOf, a, k) || HasKey(keyOf, b, k)
  {
    if HasKey(keyOf, a, k) {
      var i :| 0 <= i < |a| && keyOf(a[i]) == k;
      assert keyOf((a + b)[i]) == k;
    }
    if HasKey(keyOf, b, k) {
      var i :| 0 <= i < |b| && keyOf(b[i]) == k;
      assert keyOf((a + b)[|a| + i]) == k;
    }
  }

  lemma {:induction false} HasKeyOne(keyOf: KeyOf, l: Line, k: ID)
    ensures HasKey(keyOf, [l], k) <==> keyOf(l) == k
  {
    assert keyOf([l][0]) == keyOf(l);
  }

  /** A pass neither adds nor loses a key. */
  lemma {:induction false} SameKeys(keyOf: KeyOf, lines: seq<Line>, wanted: Wanted, k: ID)
    requires Writes(keyOf, wanted)
    ensures HasKey(keyOf, OnePass(keyOf, lines, wanted), k) <==> HasKey(keyOf, lines, k)
  {
    if lines != [] {
      var n := |lines| - 1;
      var above, l := lines[..n], lines[n];
      SameKeys(keyOf, above, wanted, k);
      assert lines == above + [l];
      HasKeyConcat(keyOf, above, [l], k);
      HasKeyOne(keyOf, l, k);
      HasKeyConcat(keyOf, OnePass(keyOf, above, wanted), Becomes(keyOf, above, l, wanted), k);
      if keyOf(l) in wanted { HasKeyOne(keyOf, wanted[keyOf(l)], k); }
    }
  }

  lemma {:induction false} OnePassSnoc(keyOf: KeyOf, above: seq<Line>, l: Line, wanted: Wanted)
    ensures OnePass(keyOf, above + [l], wanted) == OnePass(keyOf, above, wanted) + Becomes(keyOf, above, l, wanted)
  {
    assert (above + [l])[..|above|] == above;
  }

  /** Two passes over different keys are one pass over both. */
  lemma {:induction false} PassesCompose(keyOf: KeyOf, lines: seq<Line>, a: Wanted, b: Wanted)
    requires Writes(keyOf, a) && Writes(keyOf, b) && a.Keys !! b.Keys
    ensures OnePass(keyOf, OnePass(keyOf, lines, a), b) == OnePass(keyOf, lines, a + b)
  {
    if lines != [] {
      var n := |lines| - 1;
      var above, l := lines[..n], lines[n];
      PassesCompose(keyOf, above, a, b);
      var r := OnePass(keyOf, above, a);
      var k := keyOf(l);
      SameKeys(keyOf, above, a, k);
      if k in a {
        if HasKey(keyOf, above, k) {
          assert r + [] == r;
          assert OnePass(keyOf, above, a + b) + [] == OnePass(keyOf, above, a + b);
        } else {
          OnePassSnoc(keyOf, r, a[k], b);
        }
      } else {
        OnePassSnoc(keyOf, r, l, b);
      }
    }
  }

  /** Lines of keys a pass does not want pass through it. */
  lemma {:induction false} PassesThrough(keyOf: KeyOf, a: seq<Line>, b: seq<Line>, wanted: Wanted)
    requires forall i | 0 <= i < |b| :: keyOf(b[i]) !in wanted
    ensures OnePass(keyOf, a + b, wanted) == OnePass(keyOf, a, wanted) + b
  {
    if b == [] {
      assert a + b == a;
    } else {
      var n := |b| - 1;
      var r, front, last := OnePass(keyOf, a, wanted), b[..n], b[n];
      PassesThrough(keyOf, a, front, wanted);
      assert b == front + [last] && a + b == (a + front) + [last];
      OnePassSnoc(keyOf, a + front, last, wanted);
      assert r + front + [last] == r + (front + [last]);
    }
  }

  lemma {:induction false} AbsentKeys(keyOf: KeyOf, lines: seq<Line>, keys: seq<ID>, wanted: Wanted, k: ID)
    requires (forall x | x in keys :: x in wanted) && Writes(keyOf, wanted)
    ensures HasKey(keyOf, Absent(keyOf, lines, keys, wanted), k) <==> k in keys && !HasKey(keyOf, lines, k)
    ensures forall i | 0 <= i < |Absent(keyOf, lines, keys, wanted)| :: keyOf(Absent(keyOf, lines, keys, wanted)[i]) in keys
  {
    if keys != [] {
      var n := |keys| - 1;
      assert keys == keys[..n] + [keys[n]];
      AbsentKeys(keyOf, lines, keys[..n], wanted, k);
      var a := Absent(keyOf, lines, keys[..n], wanted);
      if !HasKey(keyOf, lines, keys[n]) {
        HasKeyConcat(keyOf, a, [wanted[keys[n]]], k);
        HasKeyOne(keyOf, wanted[keys[n]], k);
      }
      assert a + [] == a;
    }
  }

  /** Setting a key that the file may already hold among others. */
  lemma {:induction false} SetOne(keyOf: KeyOf, r: seq<Line>, a: seq<Line>, k: ID, w: Line)
    requires forall i | 0 <= i < |a| :: keyOf(a[i]) != k
    ensures Merged(keyOf, r + a, [k], map[k := w]) == OnePass(keyOf, r, map[k := w]) + a + if HasKey(keyOf, r, k) then [] else [w]
  {
    var one: Wanted := map[k := w];
    PassesThrough(keyOf, r, a, one);
    HasKeyConcat(keyOf, r, a, k);
    assert [k][..0] == [];
    assert Absent(keyOf, r + a, [], one) == [];
    var last := if HasKey(keyOf, r, k) then [] else [w];
    assert Absent(keyOf, r + a, [k], one) == [] + last == last;
  }

  /** One turn of the outer loop: setting one more key in what the earlier keys made of the file. */
  lemma {:induction false} OneMoreKey(keyOf: KeyOf, lines: seq<Line>, keys: seq<ID>, wanted: Wanted, k: ID, w: Line)
    requires (forall x | x in keys :: x in wanted) && Writes(keyOf, wanted)
    requires k !in wanted && keyOf(w) == k
    ensures forall x | x in keys + [k] :: x in wanted[k := w]
    ensures Merged(keyOf, Merged(keyOf, lines, keys, wanted), [k], map[k := w]) == Merged(keyOf, lines, keys + [k], wanted[k := w])
  {
    var r, a, all := OnePass(keyOf, lines, wanted), Absent(keyOf, lines, keys, wanted), wanted[k := w];
    AbsentKeys(keyOf, lines, keys, wanted, k);
    SetOne(keyOf, r, a, k, w);
    PassesCompose(keyOf, lines, wanted, map[k := w]);
    assert wanted + map[k := w] == all;
    SameKeys(keyOf, lines, wanted, k);
    AbsentSnoc(keyOf, lines, keys, all, k);
    AbsentAgrees(keyOf, lines, keys, wanted, all);
    Regroup(OnePass(keyOf, lines, all), a, if HasKey(keyOf, lines, k) then [] else [w]);
  }

  lemma {:induction false} AbsentSnoc(keyOf: KeyOf, lines: seq<Line>, keys: seq<ID>, wanted: Wanted, k: ID)
    requires (forall x | x in keys :: x in wanted) && k in wanted
    ensures (forall x | x in keys + [k] :: x in wanted)
    ensures Absent(keyOf, lines, keys + [k], wanted) == Absent(keyOf, lines, keys, wanted) + if HasKey(keyOf, lines, k) then [] else [wanted[k]]
  {
    assert (keys + [k])[..|keys|] == keys;
  }

  lemma {:induction false} AbsentAgrees(keyOf: KeyOf, lines: seq<Line>, keys: seq<ID>, a: Wanted, b: Wanted)
    requires forall k | k in keys :: k in a && k in b && a[k] == b[k]
    ensures Absent(keyOf, lines, keys, a) == Absent(keyOf, lines, keys, b)
  {
    if keys != [] {
      var n := |keys| - 1;
      assert keys == keys[..n] + [keys[n]];
      assert keys[n] in keys;
      AbsentAgrees(keyOf, lines, keys[..n], a, b);
    }
  }

  // ---------------------------------------------------------------- what the rule guarantees

  /** Wanted keys only on their wanted lines, and each on one line at most. */
  ghost predicate Once(keyOf: KeyOf, lines: seq<Line>, wanted: Wanted) {
    && (forall i | 0 <= i < |lines| && keyOf(lines[i]) in wanted :: lines[i] == wanted[keyOf(lines[i])])
    && (forall i, j | 0 <= i < j < |lines| && keyOf(lines[i]) in wanted :: keyOf(lines[i]) != keyOf(lines[j]))
  }

  /** Every wanted key is on exactly one line, and that line is the wanted one. */
  ghost predicate Settled(keyOf: KeyOf, lines: seq<Line>, wanted: Wanted) {
    Once(keyOf, lines, wanted) && forall k | k in wanted :: HasKey(keyOf, lines, k)
  }

  lemma {:induction false} OnceConcat(keyOf: KeyOf, a: seq<Line>, b: seq<Line>, wanted: Wanted)
    requires Once(keyOf, a, wanted) && Once(keyOf, b, wanted)
    requires forall k | k in wanted :: !(HasKey(keyOf, a, k) && HasKey(keyOf, b, k))
    ensures Once(keyOf, a + b, wanted)
  {
    var s := a + b;
    forall i | 0 <= i < |s| && keyOf(s[i]) in wanted ensures s[i] == wanted[keyOf(s[i])] {
      if i < |a| { assert s[i] == a[i]; } else { assert s[i] == b[i - |a|]; }
    }
    forall i, j | 0 <= i < j < |s| && keyOf(s[i]) in wanted ensures keyOf(s[i]) != keyOf(s[j]) {
      if i < |a| {
        assert s[i] == a[i] && HasKey(keyOf, a, keyOf(s[i]));
        if j < |a| { assert s[j] == a[j]; } else { assert s[j] == b[j - |a|] && HasKey(keyOf, b, keyOf(s[j])); }
      } else {
        assert s[i] == b[i - |a|] && s[j] == b[j - |a|];
      }
    }
  }

  /** A settled file is left exactly as it is. */
  lemma {:induction false} SettledStays(keyOf: KeyOf, lines: seq<Line>, wanted: Wanted)
    requires Once(keyOf, lines, wanted)
    ensures OnePass(keyOf, lines, wanted) == lines
  {
    if lines != [] {
      OnceLast(keyOf, lines, wanted);
      SettledStays(keyOf, lines[..|lines| - 1], wanted);
      assert lines == lines[..|lines| - 1] + [lines[|lines| - 1]];
    }
  }

  lemma {:induction false} OnceLast(keyOf: KeyOf, lines: seq<Line>, wanted: Wanted)
    requires Once(keyOf, lines, wanted) && lines != []
    ensures var n := |lines| - 1; Once(keyOf, lines[..n], wanted) && Becomes(keyOf, lines[..n], lines[n], wanted) == [lines[n]]
  {
    assert forall i | 0 <= i < |lines| - 1 :: lines[..|lines| - 1][i] == lines[i];
  }

  lemma {:induction false} NothingAbsent(keyOf: KeyOf, lines: seq<Line>, keys: seq<ID>, wanted: Wanted)
    requires (forall k | k in keys :: k in wanted) && forall k | k in wanted :: HasKey(keyOf, lines, k)
    ensures Absent(keyOf, lines, keys, wanted) == []
  {
    if keys != [] {
      var n := |keys| - 1;
      assert keys == keys[..n] + [keys[n]];
      assert keys[n] in keys;
      NothingAbsent(keyOf, lines, keys[..n], wanted);
    }
  }

  lemma {:induction false} PassSettles(keyOf: KeyOf, lines: seq<Line>, wanted: Wanted)
    requires Writes(keyOf, wanted)
    ensures Once(keyOf, OnePass(keyOf, lines, wanted), wanted)
  {
    if lines != [] {
      var n := |lines| - 1;
      var above, l := lines[..n], lines[n];
      PassSettles(keyOf, above, wanted);
      var r, b := OnePass(keyOf, above, wanted), Becomes(keyOf, above, l, wanted);
      forall k | k in wanted ensures !(HasKey(keyOf, r, k) && HasKey(keyOf, b, k)) {
        SameKeys(keyOf, above, wanted, k);
        HasKeyOne(keyOf, l, k);
        if keyOf(l) in wanted { HasKeyOne(keyOf, wanted[keyOf(l)], k); }
      }
      OnceConcat(keyOf, r, b, wanted);
    }
  }

  /** After merging, each key is on exactly one line, with its wanted text. */
  lemma {:induction false} MergedIsSettled(keyOf: KeyOf, lines: seq<Line>, keys: seq<ID>, wanted: Wanted)
    requires Writes(keyOf, wanted) && NoDuplicates(keys) && Members(keys) == wanted.Keys
    requires forall k | k in keys :: k in wanted
    ensures Settled(keyOf, Merged(keyOf, lines, keys, wanted), wanted)
  {
    var r, a := OnePass(keyOf, lines, wanted), Absent(keyOf, lines, keys, wanted);
    PassSettles(keyOf, lines, wanted);
    AbsentSettles(keyOf, lines, keys, wanted);
    forall k | k in wanted ensures HasKey(keyOf, r + a, k) && !(HasKey(keyOf, r, k) && HasKey(keyOf, a, k)) {
      assert k in Members(keys);
      SameKeys(keyOf, lines, wanted, k);
      AbsentKeys(keyOf, lines, keys, wanted, k);
      HasKeyConcat(keyOf, r, a, k);
    }
    OnceConcat(keyOf, r, a, wanted);
  }

  lemma {:induction false} AbsentSettles(keyOf: KeyOf, lines: seq<Line>, keys: seq<ID>, wanted: Wanted)
    requires Writes(keyOf, wanted) && NoDuplicates(keys) && forall k | k in keys :: k in wanted
    ensures Once(keyOf, Absent(keyOf, lines, keys, wanted), wanted)
  {
    if keys != [] {
      var n := |keys| - 1;
      assert keys == keys[..n] + [keys[n]];
      assert keys[n] in keys && keys[n] !in keys[..n];
      AbsentSettles(keyOf, lines, keys[..n], wanted);
      AbsentKeys(keyOf, lines, keys[..n], wanted, keys[n]);
      var a, w := Absent(keyOf, lines, keys[..n], wanted), wanted[keys[n]];
      assert a + [] == a;
      forall k | k in wanted ensures !(HasKey(keyOf, a, k) && HasKey(keyOf, [w], k)) {
        HasKeyOne(keyOf, w, k);
      }
      OnceConcat(keyOf, a, [w], wanted);
    }
  }

  /** Merging again changes nothing. */
  lemma {:induction false} MergedTwice(keyOf: KeyOf, lines: seq<Line>, keys: seq<ID>, wanted: Wanted)
    requires Writes(keyOf, wanted) && NoDuplicates(keys) && Members(keys) == wanted.Keys
    requires forall k | k in keys :: k in wanted
    ensures Merged(keyOf, Merged(keyOf, lines, keys, wanted), keys, wanted) == Merged(keyOf, lines, keys, wanted)
  {
    var r := Merged(keyOf, lines, keys, wanted);
    MergedIsSettled(keyOf, lines, keys, wanted);
    SettledStays(keyOf, r, wanted);
    NothingAbsent(keyOf, r, keys, wanted);
    assert r + [] == r;
  }

  /** The lines nobody asked about, in order. */
  function Others(keyOf: KeyOf, lines: seq<Line>, wanted: Wanted): seq<Line> {
    if lines == [] then []
    else
      var n := |lines| - 1;
      Others(keyOf, lines[..n], wanted) + if keyOf(lines[n]) in wanted then [] else [lines[n]]
  }

  lemma {:induction false} OthersConcat(keyOf: KeyOf, a: seq<Line>, b: seq<Line>, wanted: Wanted)
    ensures Others(keyOf, a + b, wanted) == Others(keyOf, a, wanted) + Others(keyOf, b, wanted)
  {
    if b == [] {
      assert a + b == a;
    } else {
      var n := |b| - 1;
      OthersConcat(keyOf, a, b[..n], wanted);
      assert (a + b)[..|a| + n] == a + b[..n];
    }
  }

  lemma {:induction false} OthersOne(keyOf: KeyOf, l: Line, wanted: Wanted)
    ensures Others(keyOf, [l], wanted) == if keyOf(l) in wanted then [] else [l]
  {
    assert [l][..0] == [];
  }

  lemma {:induction false} PassKeepsOthers(keyOf: KeyOf, lines: seq<Line>, wanted: Wanted)
    requires Writes(keyOf, wanted)
    ensures Others(keyOf, OnePass(keyOf, lines, wanted), wanted) == Others(keyOf, lines, wanted)
  {
    if lines != [] {
      var n := |lines| - 1;
      var above, l := lines[..n], lines[n];
      PassKeepsOthers(keyOf, above, wanted);
      OthersConcat(keyOf, OnePass(keyOf, above, wanted), Becomes(keyOf, above, l, wanted), wanted);
      OthersOne(keyOf, l, wanted);
      if keyOf(l) in wanted { OthersOne(keyOf, wanted[keyOf(l)], wanted); }
    }
  }

  lemma {:induction false} AbsentIsNotOthers(keyOf: KeyOf, lines: seq<Line>, keys: seq<ID>, wanted: Wanted)
    requires Writes(keyOf, wanted) && forall k | k in keys :: k in wanted
    ensures Others(keyOf, Absent(keyOf, lines, keys, wanted), wanted) == []
  {
    if keys != [] {
      var n := |keys| - 1;
      assert keys == keys[..n] + [keys[n]];
      assert keys[n] in keys;
      AbsentIsNotOthers(keyOf, lines, keys[..n], wanted);
      var a := Absent(keyOf, lines, keys[..n], wanted);
      assert a + [] == a;
      OthersConcat(keyOf, a, [wanted[keys[n]]], wanted);
      OthersOne(keyOf, wanted[keys[n]], wanted);
    }
  }

  /** Every other line keeps its bytes and its order. */
  lemma {:induction false} MergedKeepsOthers(keyOf: KeyOf, lines: seq<Line>, keys: seq<ID>, wanted: Wanted)
    requires Writes(keyOf, wanted) && forall k | k in keys :: k in wanted
    ensures Others(keyOf, Merged(keyOf, lines, keys, wanted), wanted) == Others(keyOf, lines, wanted)
  {
    PassKeepsOthers(keyOf, lines, wanted);
    AbsentIsNotOthers(keyOf, lines, keys, wanted);
    OthersConcat(keyOf, OnePass(keyOf, lines, wanted), Absent(keyOf, lines, keys, wanted), wanted);
    assert Others(keyOf, lines, wanted) + [] == Others(keyOf, lines, wanted);
  }

  /** A key that was set keeps its place: right after what became of the lines above its first occurrence. */
  lemma {:induction false} KeepsItsPlace(keyOf: KeyOf, lines: seq<Line>, keys: seq<ID>, wanted: Wanted, i: nat)
    requires i < |lines| && keyOf(lines[i]) in wanted && !HasKey(keyOf, lines[..i], keyOf(lines[i]))
    requires forall k | k in keys :: k in wanted
    ensures OnePass(keyOf, lines[..i], wanted) + [wanted[keyOf(lines[i])]] <= Merged(keyOf, lines, keys, wanted)
  {
    assert lines[..i + 1] == lines[..i] + [lines[i]];
    OnePassSnoc(keyOf, lines[..i], lines[i], wanted);
    PrefixPasses(keyOf, lines, wanted, i + 1);
  }

  lemma {:induction false} PrefixPasses(keyOf: KeyOf, lines: seq<Line>, wanted: Wanted, i: nat)
    requires i <= |lines|
    ensures OnePass(keyOf, lines[..i], wanted) <= OnePass(keyOf, lines, wanted)
  {
    if i == |lines| {
      assert lines[..i] == lines;
    } else {
      var n := |lines| - 1;
      PrefixPasses(keyOf, lines[..n], wanted, i);
      assert lines[..n][..i] == lines[..i];
    }
  }

  /** How many of the first i keys the lines do not set. */
  ghost function Missing(keyOf: KeyOf, lines: seq<Line>, keys: seq<ID>, i: nat): nat
    requires i <= |keys|
  {
    if i == 0 then 0 else Missing(keyOf, lines, keys, i - 1) + if HasKey(keyOf, lines, keys[i - 1]) then 0 else 1
  }

  lemma {:induction false} AbsentPlaces(keyOf: KeyOf, lines: seq<Line>, keys: seq<ID>, wanted: Wanted)
    requires forall k | k in keys :: k in wanted
    ensures |Absent(keyOf, lines, keys, wanted)| == Missing(keyOf, lines, keys, |keys|)
    ensures forall i | 0 <= i < |keys| && !HasKey(keyOf, lines, keys[i]) ::
              keys[i] in wanted && Missing(keyOf, lines, keys, i) < |Absent(keyOf, lines, keys, wanted)|
              && Absent(keyOf, lines, keys, wanted)[Missing(keyOf, lines, keys, i)] == wanted[keys[i]]
  {
    if keys != [] {
      var n := |keys| - 1;
      assert keys == keys[..n] + [keys[n]];
      assert keys[n] in keys && forall i | 0 <= i < n :: keys[..n][i] == keys[i];
      AbsentPlaces(keyOf, lines, keys[..n], wanted);
      forall i | 0 <= i <= n ensures Missing(keyOf, lines, keys[..n], i) == Missing(keyOf, lines, keys, i) { SameMissing(keyOf, lines, keys, n, i); }
    }
  }

  lemma {:induction false} SameMissing(keyOf: KeyOf, lines: seq<Line>, keys: seq<ID>, n: nat, i: nat)
    requires i <= n <= |keys|
    ensures Missing(keyOf, lines, keys[..n], i) == Missing(keyOf, lines, keys, i)
  {
    if i > 0 { SameMissing(keyOf, lines, keys, n, i - 1); }
  }

  lemma {:induction false} Behind(a: seq<Line>, b: seq<Line>, i: nat)
    requires i < |b|
    ensures (a + b)[|a| + i] == b[i]
  {
  }

  /** The keys the file did not set come last, one line each, in the order of the keys. */
  lemma {:induction false} NewKeysComeLast(keyOf: KeyOf, lines: seq<Line>, keys: seq<ID>, wanted: Wanted, i: nat)
    requires (forall k | k in keys :: k in wanted) && i < |keys| && keys[i] in wanted && !HasKey(keyOf, lines, keys[i])
    ensures var r, front := Merged(keyOf, lines, keys, wanted), |OnePass(keyOf, lines, wanted)|;
            |r| == front + Missing(keyOf, lines, keys, |keys|) && front + Missing(keyOf, lines, keys, i) < |r|
            && r[front + Missing(keyOf, lines, keys, i)] == wanted[keys[i]]
  {
    var added := Absent(keyOf, lines, keys, wanted);
    var at := Missing(keyOf, lines, keys, i);
    AbsentPlaces(keyOf, lines, keys, wanted);
    assert at < |added| && added[at] == wanted[keys[i]];
    Behind(OnePass(keyOf, lines, wanted), added, at);
  }
}
