/** The string functions the parsers lean on: spaces, trimming, cutting at a character. */
module Text {
  /** unicode.IsSpace. */
  predicate IsSpace(c: char) {
    || c == ' ' || '\t' <= c <= '\r' || c == '\U{85}' || c == '\U{A0}'
    || c == '\U{1680}' || '\U{2000}' <= c <= '\U{200a}' || c == '\U{2028}' || c == '\U{2029}'
    || c == '\U{202f}' || c == '\U{205f}' || c == '\U{3000}'
  }

  // ---------------------------------------------------------------- trimming

  function TrimLeft(s: string): string {
    if s == "" || !IsSpace(s[0]) then s else TrimLeft(s[1..])
  }

  function TrimRight(s: string): string {
    if s == "" || !IsSpace(s[|s| - 1]) then s else TrimRight(s[..|s| - 1])
  }

  /** strings.TrimSpace. */
  function TrimSpace(s: string): string { TrimRight(TrimLeft(s)) }

  /** No space at either end. */
  predicate Trimmed(s: string) {
    s == "" || (!IsSpace(s[0]) && !IsSpace(s[|s| - 1]))
  }

  lemma {:induction false} TrimRightIsPrefix(s: string)
    ensures TrimRight(s) <= s && (TrimRight(s) == "" || !IsSpace(TrimRight(s)[|TrimRight(s)| - 1]))
  {
    if s != "" && IsSpace(s[|s| - 1]) { TrimRightIsPrefix(s[..|s| - 1]); }
  }

  lemma {:induction false} TrimmedStays(s: string)
    requires Trimmed(s)
    ensures TrimSpace(s) == s
  {
    assert TrimLeft(s) == s;
  }

  lemma {:induction false} TrimRightAll(s: string, t: string)
    requires forall i | 0 <= i < |t| :: IsSpace(t[i])
    ensures TrimRight(s + t) == TrimRight(s)
  {
    if t == "" {
      assert s + t == s;
    } else {
      var n := |t| - 1;
      assert (s + t)[..|s + t| - 1] == s + t[..n];
      TrimRightAll(s, t[..n]);
    }
  }

  lemma {:induction false} TrimLeftAll(t: string, s: string)
    requires forall i | 0 <= i < |t| :: IsSpace(t[i])
    ensures TrimLeft(t + s) == TrimLeft(s)
  {
    if t == "" {
      assert t + s == s;
    } else {
      assert (t + s)[1..] == t[1..] + s;
      TrimLeftAll(t[1..], s);
    }
  }

  /** Spaces around a trimmed text are trimmed, and nothing else. */
  lemma {:induction false} TrimAround(a: string, s: string, b: string)
    requires s != "" && Trimmed(s) && (forall i | 0 <= i < |a| :: IsSpace(a[i])) && (forall i | 0 <= i < |b| :: IsSpace(b[i]))
    ensures TrimSpace(a + s + b) == s
  {
    assert a + s + b == a + (s + b);
    TrimLeftAll(a, s + b);
    assert (s + b)[0] == s[0];
    assert TrimLeft(s + b) == s + b;
    TrimRightAll(s, b);
    assert TrimRight(s) == s;
  }

  predicate AllSpace(s: string) { forall i | 0 <= i < |s| :: IsSpace(s[i]) }

  lemma {:induction false} TrimLeftLeaves(s: string) returns (a: string)
    ensures AllSpace(a) && s == a + TrimLeft(s) && (TrimLeft(s) == "" || !IsSpace(TrimLeft(s)[0]))
  {
    if s == "" || !IsSpace(s[0]) {
      a := "";
    } else {
      var more := TrimLeftLeaves(s[1..]);
      a := [s[0]] + more;
      OneMoreSpace(s, more, TrimLeft(s[1..]));
    }
  }

  lemma {:induction false} OneMoreSpace(s: string, more: string, r: string)
    requires s != "" && IsSpace(s[0]) && AllSpace(more) && s[1..] == more + r
    ensures AllSpace([s[0]] + more) && s == [s[0]] + more + r
  {
  }

  lemma {:induction false} TrimRightLeaves(s: string) returns (b: string)
    ensures AllSpace(b) && s == TrimRight(s) + b && (TrimRight(s) == "" || !IsSpace(TrimRight(s)[|TrimRight(s)| - 1]))
  {
    if s == "" || !IsSpace(s[|s| - 1]) {
      b := "";
    } else {
      b := TrimRightLeaves(s[..|s| - 1]);
      b := b + [s[|s| - 1]];
      assert s == s[..|s| - 1] + [s[|s| - 1]];
    }
  }

  predicate Around(s: string, a: string, v: string, b: string) { AllSpace(a) && AllSpace(b) && s == a + v + b }

  /** Trimming leaves what stands between the outermost spaces. */
  lemma {:induction false} TrimExactlyWhen(s: string, v: string)
    requires v != ""
    ensures TrimSpace(s) == v <==> Trimmed(v) && exists a, b :: Around(s, a, v, b)
  {
    if TrimSpace(s) == v {
      var a := TrimLeftLeaves(s);
      var b := TrimRightLeaves(TrimLeft(s));
      assert TrimLeft(s)[0] == v[0];
      assert s == a + (v + b) == a + v + b;
      assert Around(s, a, v, b);
    }
    if Trimmed(v) && exists a, b :: Around(s, a, v, b) {
      var a, b :| Around(s, a, v, b);
      TrimAround(a, v, b);
    }
  }

  /** strings.TrimRight: drop characters of the set from the end. */
  function DropRight(s: string, cut: set<char>): string {
    if s == "" || s[|s| - 1] !in cut then s else DropRight(s[..|s| - 1], cut)
  }

  /** strings.TrimLeft: drop characters of the set from the front. */
  function DropLeft(s: string, cut: set<char>): string {
    if s == "" || s[0] !in cut then s else DropLeft(s[1..], cut)
  }

  // ---------------------------------------------------------------- cutting

  /** Where c first occurs, or the length of s. */
  function IndexOf(s: string, c: char): (i: nat)
    ensures i <= |s|
  {
    if s == "" || s[0] == c then 0 else 1 + IndexOf(s[1..], c)
  }

  lemma {:induction false} IndexOfFinds(s: string, c: char)
    ensures c !in s[..IndexOf(s, c)]
    ensures IndexOf(s, c) < |s| ==> s[IndexOf(s, c)] == c
    ensures IndexOf(s, c) == |s| <==> c !in s
  {
    if s != "" && s[0] != c {
      IndexOfFinds(s[1..], c);
      var i := IndexOf(s, c);
      assert s == [s[0]] + s[1..];
      assert s[..i] == [s[0]] + s[1..][..i - 1];
    }
  }

  lemma {:induction false} IndexOfFirst(a: string, b: string, c: char)
    requires c !in a
    ensures IndexOf(a + [c] + b, c) == |a|
    ensures IndexOf(a, c) == |a|
  {
    var s := a + [c] + b;
    if a != [] {
      assert a[0] in a && forall x | x in a[1..] :: x in a;
      IndexOfFirst(a[1..], b, c);
      assert s[1..] == a[1..] + [c] + b;
    }
  }

  /** Where c last occurs, or -1. */
  function LastIndexOf(s: string, c: char): (i: int)
    ensures -1 <= i < |s|
  {
    if s == "" then -1
    else if s[|s| - 1] == c then |s| - 1
    else LastIndexOf(s[..|s| - 1], c)
  }

  /** strings.Split at one character. */
  function Split(s: string, c: char): (r: seq<string>)
    ensures r != []
  {
    var i := IndexOf(s, c);
    if i == |s| then [s] else [s[..i]] + Split(s[i + 1..], c)
  }

  /** strings.Join with one character. */
  function Join(parts: seq<string>, c: char): string
    requires parts != []
  {
    if |parts| == 1 then parts[0] else parts[0] + [c] + Join(parts[1..], c)
  }

  lemma {:induction false} SplitParts(s: string, c: char)
    ensures forall i | 0 <= i < |Split(s, c)| :: c !in Split(s, c)[i]
  {
    IndexOfFinds(s, c);
    var i := IndexOf(s, c);
    if i < |s| { SplitParts(s[i + 1..], c); }
  }

  lemma {:induction false} SplitJoin(parts: seq<string>, c: char)
    requires parts != [] && forall i | 0 <= i < |parts| :: c !in parts[i]
    ensures Split(Join(parts, c), c) == parts
  {
    if |parts| == 1 {
      IndexOfFirst(parts[0], "", c);
    } else {
      var x, rest := parts[0], parts[1..];
      SplitJoin(rest, c);
      var b := Join(rest, c);
      IndexOfFirst(x, b, c);
      var s := x + [c] + b;
      assert s[..|x|] == x && s[|x| + 1..] == b;
      assert parts == [x] + rest;
    }
  }
}
